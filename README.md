# JetEngine Audio Streaming — a Dafny model of its delivery core

The plugin serves audio attachments of a WordPress site to browser players.
It does so through three near-duplicate byte-range handlers:

- the REST controller's `play/{id}` route (`REST_API`);
- the `play/{anything}` route of `Streaming_Controller`;
- `JetEngine_Audio_Endpoints`.

It also serves a chunked endpoint with a first-chunk cache (`Audio_Endpoint`) and several resolve-id routes that turn a file name into an attachment id. Around these sit:

- bounded request logs;
- settings sanitisers;
- the listing integration that rewrites audio fields and links;
- three browser scripts that choose between a direct file URL and the streaming route.

This project models that core and proves what it promises:

- the byte-range arithmetic of section 2.1, section 4.1, section 4.2 and section 4.4 of RFC 7233 as each handler implements it, quirks included;
- the read loops;
- the order of the delivery gates;
- the resolvers' fallback chains;
- the log caps;
- the sanitisers' bounds and idempotence;
- the client-side URL, range-total and id-extraction helpers.

How the model is built:

- A file is a `seq<int>` of bytes.
- The response is a datatype: status, content type, Content-Range, Content-Length, Location, cache header and body.
- The connection, end of file, read failures and `fopen` failure are oracle functions of the loop iteration (`Http.Io`).
- Each streaming loop is a `method` with a `while` loop. It is proved equal to a recursive specification function. The laws about that function are lemmas:
  - the body is a prefix of the requested interval;
  - it is never longer than the declared length;
  - without a fault, it is the whole interval.
- The WordPress media library is a value (`Library.Site`): posts, attached-file meta rows and titles. SQL `LIKE '%x%'` is case-insensitive containment. A query's first hit is the first matching row.
- Objects whose fields the source updates become classes with `modifies` clauses:
  - the debug-log option;
  - the streaming settings option with its `debug_logs` list;
  - the memoised chunk-player settings;
  - the waveform meta;
  - the transient cache;
  - a listing item's elements.

The standalone player's `formatTime` (assets/js/player-standalone.js:208-215) is the same function as the main player's, so `Frontend.FormatTime` covers both.

## Model

| member | source | states |
|---|---|---|
| Php.IntValOfDigits | includes/class-rest-api.php:412-413 | intval() of digits followed by nothing that continues a numeral (no digit, '.', 'e' or 'E') is the digits' decimal value |
| Php.NumeralAt | includes/Streaming_Controller.php:42-43 | the numeric literal PHP reads at the start: digits, an optional fraction, at least one digit in all, an optional exponent, within the string |
| Php.IntValOfExponent | includes/Streaming_Controller.php:43 | intval() of digits + 'e' + power is the digits times 10 to that power |
| Php.ExponentExamples | includes/Streaming_Controller.php:42-43 | intval("1e3") is 1000, intval("12e3x") is 12000, and "1e3" is numeric |
| Php.ScaleUp | includes/Streaming_Controller.php:43 | scaling by a non-negative exponent multiplies by that power of ten |
| Php.IntValOfDigitString | includes/class-rest-api.php:412-413 | intval() of a digit string (possibly empty) is its decimal value |
| Php.IntValOfNatToString | includes/class-rest-api.php:31 | intval() reads back any number PHP or a client spells |
| Php.IntValOfNonNumeric | includes/Streaming_Controller.php:222 | intval() of text starting with anything but a digit, a sign, a point or white space is 0 |
| Php.IntValNonNegative | includes/class-audio-endpoints.php:101-102 | intval() of text with no '-' is never negative |
| Php.AbsInt | includes/Settings_Page.php:170 | absint() is the magnitude of intval() |
| Php.IsNumericOfDigits | includes/Streaming_Controller.php:42 | a non-empty digit string is numeric |
| Php.IsNumericOfExponent | includes/Streaming_Controller.php:42 | digits + 'e' + digits is numeric |
| Text.BasenameOfPath | includes/Streaming_Controller.php:340 | basename() of dir/name is name |
| Text.BasenameOfPlainName | includes/Streaming_Controller.php:51 | basename() of a name without '/' is the name itself |
| Text.ExtensionOf | includes/class-rest-api.php:542 | pathinfo's extension of dir/stem.ext is ext |
| Text.StripExtensionOf | includes/Streaming_Controller.php:369 | the `/\.[^.]+$/` removal takes exactly the final extension off stem.ext |
| Text.StripExtensionKeeps | includes/Streaming_Controller.php:369 | a name without a dot, or ending in one, is left unchanged |
| Text.ReplaceAbsent | includes/class-audio-endpoints.php:252 | str_replace leaves text without the pattern unchanged |
| Text.JoinSplit | includes/class-rest-api.php:217 | explode() loses nothing: joining the pieces gives the string back |
| Text.SplitAppend | assets/js/frontend.js:1526-1527 | splitting s + d + b on d adds b as the last piece when b holds no d |
| Text.FilterTwice | includes/Settings_Page.php:161-162 | two character filters in a row are one filter on their conjunction |
| Text.FilterIdempotent | includes/Settings_Page.php:161-162 | filtering a filtered string changes nothing |
| Text.DigitsAfterMarker | assets/js/player-standalone.js:72-74 | a `marker(\d+)` search finds the digits after the first marker |
| Http.Read | includes/class-rest-api.php:491 | fread returns min(n, remaining) consecutive bytes from the position |
| Http.ValidateRange | includes/class-rest-api.php:416-427 | 416 exactly when start > end or start >= size; otherwise the interval is start..min(end, size-1), inside the file |
| Http.Exit | includes/class-rest-api.php:378-379 | status_header then exit(text): that status, no range, length or Location, and the text's bytes as the body |
| Http.Refusal | includes/class-rest-api.php:135-142 | a returned WP_Error answers its status with no range, length or Location |
| Http.Redirect | includes/class-rest-api.php:202-205 | a 302 whose Location is the URL, with no body |
| RangePattern.SpaceEnd | includes/class-rest-api.php:411 | `\s*` consumes the maximal run of white space |
| RangePattern.DigitEnd | includes/class-rest-api.php:411 | `(\d*)` consumes the maximal run of digits |
| RangePattern.MatchAt | includes/class-rest-api.php:411 | a match at p has a case-insensitive "bytes=" there and two digit groups around a '-' |
| RangePattern.FirstMatchFrom | includes/class-rest-api.php:411 | the leftmost position at or after p where the pattern matches, and none before it |
| RangePattern.Match | includes/class-rest-api.php:411 | preg_match fails exactly when no position matches; otherwise the groups of the leftmost match |
| RangePattern.Bounds | includes/class-rest-api.php:412-413 | start is 0 for an empty() group 1, else intval(); end is size-1 for an empty() group 2, else intval() |
| RangePattern.SpelledValue | includes/class-rest-api.php:413 | a spelled number is empty() exactly when it is 0 |
| RangePattern.MatchHeader | includes/class-rest-api.php:411 | every `bytes=a-b` a client writes matches with groups a and b |
| RangePattern.MatchAtStart | includes/class-rest-api.php:411 | "bytes=" + digits + "-" + digits matches at 0 with those groups |
| RangePattern.DigitRun | includes/class-rest-api.php:411 | a maximal digit run ends the digit group |
| Library.GetPost | includes/class-rest-api.php:145 | get_post() gives the post with that id; id 0 names none |
| Library.MetaLike | includes/class-rest-api.php:628-631 | `$wpdb->get_var` gives the post id of the first meta row the LIKE matches, none when no row does |
| Library.QueryByMeta | includes/Streaming_Controller.php:55-71 | the meta LIKE WP_Query gives the first attachment whose attached file matches |
| Library.QueryBySearch | includes/Streaming_Controller.php:370-380 | the 's' WP_Query gives the first attachment whose title contains the term |
| Library.QueryByTitle | includes/class-audio-endpoints.php:327-338 | the exact-title WP_Query gives the first attachment whose title equals the term |
| Library.TitleQueryImpliesSearch | includes/class-audio-endpoints.php:306-338 | whenever the exact-title query finds an attachment, the search finds one as well |
| Library.LikeInner | includes/class-rest-api.php:628-646 | a LIKE on a longer pattern implies the LIKE on any infix of it |
| Library.ContainsInner | includes/class-rest-api.php:628-646 | containing a + b + c implies containing b |
| Library.LowerConcat | includes/class-rest-api.php:628-646 | lower-casing distributes over concatenation |
| Functions.FileSize | includes/functions.php:18-29 | the size of an existing, readable attached file, else 0 |
| Functions.FormatFileSize | includes/functions.php:37-46 | "File not found" exactly when the size is 0, else the size |
| Functions.AttachmentInfo | includes/functions.php:54-86 | the default record for a missing post or an unusable file; otherwise url, mime, size and basename |
| Functions.InfoSizeIsFileSize | includes/functions.php:59-80 | the record's size is the size helper's answer for every id |
| Functions.InfoFilename | includes/functions.php:83 | a filled record names the file by its last path segment |
| RestApi.PlayRouteId | includes/class-rest-api.php:24-33 | the route accepts a segment exactly when it is non-empty digits of positive value, and gives that value |
| RestApi.PlayRouteRoundTrip | includes/class-rest-api.php:24-33 | the id a client writes into the route comes back unchanged |
| RestApi.MimeType | includes/class-rest-api.php:533-557 | the table's type for the lower-cased extension, else WordPress's non-empty type, else application/octet-stream |
| RestApi.MimeTypeOfUpperCaseMp3 | includes/class-rest-api.php:542-546 | a ".MP3" file is audio/mpeg whatever WordPress says |
| RestApi.ContentType | includes/class-rest-api.php:373 | the post's MIME type when truthy, else get_mime_type() |
| RestApi.RangeFor | includes/class-rest-api.php:407-441 | whole file exactly for a missing or falsy header; 400 exactly when a truthy header fails the pattern; a partial interval lies inside the file |
| RestApi.RangeForMatched | includes/class-rest-api.php:411-416 | a matched header is validated on the bounds of its two groups |
| RestApi.RangeForSpelled | includes/class-rest-api.php:411-427 | `bytes=a-b` is validated as a..b, except that b = 0 means the last byte |
| RestApi.RangeForOpenEnded | includes/class-rest-api.php:413 | `bytes=a-` runs to the last byte |
| RestApi.ZeroZeroServesWholeFile | includes/class-rest-api.php:412-413 | `bytes=0-0` is a 206 over the whole file |
| RestApi.DashNIsNotSuffix | includes/class-rest-api.php:412-413 | `bytes=-N` is bytes 0..min(N, size-1), not the last N bytes |
| RestApi.PumpAdvance | includes/class-rest-api.php:486-503 | one loop turn keeps what was sent plus what remains fixed |
| RestApi.Send | includes/class-rest-api.php:484-509 | the loop's output is the specification's, and bytes_sent is its length |
| RestApi.PumpSlice | includes/class-rest-api.php:486-503 | the loop sends consecutive bytes from the start and never more than length |
| RestApi.PumpComplete | includes/class-rest-api.php:486-503 | with no EOF, read failure or abort, the loop sends exactly file[start, start+length) |
| RestApi.StreamAudioFile | includes/class-rest-api.php:370-525 | the method's response is the specification's, the exits' texts included |
| RestApi.DeliverLaws | includes/class-rest-api.php:433-509 | status 200, 206 or 500, 500 exactly when fopen fails and then the text 'Failed to open file for reading'; Content-Length is the interval's length; Content-Range names the interval; otherwise the body is a prefix of it |
| RestApi.DeliverFaultless | includes/class-rest-api.php:477-509 | without a fault the body is exactly the interval |
| RestApi.StreamPartial | includes/class-rest-api.php:425-450 | a 206 names the validated interval inside the file, Content-Length end-start+1, body a prefix of the interval |
| RestApi.StreamWhole | includes/class-rest-api.php:442-450 | a 200 to GET declares the whole size, no Content-Range, and sends a prefix of the file |
| RestApi.StreamStatuses | includes/class-rest-api.php:416-421 | a 416 carries `bytes */size` and no body; only 200, 206, 400, 404, 416, 500 occur |
| RestApi.StreamErrors | includes/class-rest-api.php:376-466 | 404 exactly for an unreadable file, 400 exactly for a GET whose header fails the pattern, 500 exactly when fopen fails; each with its exit text |
| RestApi.StreamPartialFaultless | includes/class-rest-api.php:484-509 | without a fault a 206 carries exactly file[start..end]: a prefix of it with its full length |
| RestApi.StreamWholeFaultless | includes/class-rest-api.php:477-481 | without a fault a 200 to GET carries the whole file |
| RestApi.HeadNeverPartial | includes/class-rest-api.php:390-399 | HEAD gets 200 with the file's size and no body, whatever the Range header says |
| RestApi.Policy | includes/class-rest-api.php:135-242 | disabled is 403; a served post passed every gate in order; a redirect's post is a small mp3/wav without range or HEAD; refusals are 403 or 404 |
| RestApi.RedirectPrecedesGates | includes/class-rest-api.php:193-242 | the allow-list and the size cap cannot stop a redirect |
| RestApi.NoRedirectForRangeOrHead | includes/class-rest-api.php:185-193 | a HEAD or a ranged request is never redirected |
| RestApi.HandleStatuses | includes/class-rest-api.php:124-252 | the route answers 200, 206, 302, 400, 403, 404, 416 or 500; 302 exactly when the policy redirects; the disabled route returns the 403 WP_Error |
| RestApi.SearchId | includes/class-rest-api.php:628-647 | `%/name.%`, then `%name.%`, then `%name%`; the first non-zero hit wins |
| RestApi.ResolveId | includes/class-rest-api.php:610-695 | an empty name is 400; success carries the hit's id and its info's url, mime and size |
| RestApi.ResolveNotFoundExactly | includes/class-rest-api.php:642-693 | not_found exactly when no attached-file path contains the name |
| RestApi.StagesNarrow | includes/class-rest-api.php:628-646 | a hit of an earlier pattern is a hit of every later one |
| StreamingController.UrlPath | includes/Streaming_Controller.php:48 | parse_url's path: query and fragment cut, the authority skipped |
| StreamingController.AfterAuthority | includes/Streaming_Controller.php:48 | the part after the authority is a suffix of the URL |
| StreamingController.LocatorName | includes/Streaming_Controller.php:46-52 | a URL's name is the basename of its path, another string's its own basename |
| StreamingController.Target | includes/Streaming_Controller.php:42-77 | a numeric locator is its intval(); otherwise the first meta LIKE hit on its name, none when there is no hit |
| StreamingController.TargetOfId | includes/Streaming_Controller.php:42-43 | a spelled id is used directly |
| StreamingController.TargetOfExponent | includes/Streaming_Controller.php:42-43 | the locator "1e3" is numeric and names id 1000 |
| StreamingController.AfterAuthorityOf | includes/Streaming_Controller.php:48 | scheme://host/path gives /path |
| StreamingController.UrlPathOf | includes/Streaming_Controller.php:48 | an http(s) URL's path is what follows the host, the query cut off |
| StreamingController.LocatorNameOfUrl | includes/Streaming_Controller.php:46-48 | a media URL's locator is its file name |
| StreamingController.UrlPathOfFile | includes/Streaming_Controller.php:48 | the path of a media URL is /dir/name |
| StreamingController.PathOfFile | includes/Streaming_Controller.php:48 | the basename of /dir/name is name |
| StreamingController.AllowedTypes | includes/Streaming_Controller.php:115-117 | the comma-split setting when not empty, else mp3, wav, ogg, m4a, flac |
| StreamingController.MaxMb | includes/Streaming_Controller.php:126 | (int) of the setting when not empty, else 2048 |
| StreamingController.Policy | includes/Streaming_Controller.php:42-132 | the gates in order; a redirect goes to the attachment URL; serving implies the allow-list and size <= max·1048576 |
| StreamingController.RedirectIgnoresType | includes/Streaming_Controller.php:101-110 | a small audio attachment fetched by GET without range is redirected whatever the allow-list and the cap |
| StreamingController.SizeGateBoundary | includes/Streaming_Controller.php:126-131 | with the cap setting empty, an allowed audio file that is not redirected is served up to 2147483648 bytes and refused 403 file_too_large from 2147483649 |
| StreamingController.HandleStatuses | includes/Streaming_Controller.php:37-139 | the route answers one of eight statuses; 302 exactly when the policy redirects; a locator that names nothing gets the 404 WP_Error |
| StreamingController.SplitOfDelimited | includes/Streaming_Controller.php:220-221 | a string holding '-' explodes into at least two pieces |
| StreamingController.ParseRange | includes/Streaming_Controller.php:215-250 | no header is the whole file; without '-' it is 400; start = intval(left); end = intval(right) when truthy, else size-1; then validated |
| StreamingController.NoLowerB | includes/Streaming_Controller.php:217 | digits and '-' hold no "bytes=" to remove |
| StreamingController.PiecesOfHeader | includes/Streaming_Controller.php:217-221 | "bytes=a-b" reaches the split as [a, b] |
| StreamingController.ParseRangeSpelled | includes/Streaming_Controller.php:222-236 | `bytes=a-b` is validated as a..b, except that b = 0 means the last byte |
| StreamingController.ParseRangeDashN | includes/Streaming_Controller.php:222-223 | `bytes=-N` is 0..N, not the suffix form |
| StreamingController.ParseRangeExponent | includes/Streaming_Controller.php:219-223 | a start piece a-e-p is read as a times 10 to the p, the end piece as before |
| StreamingController.EmptyHeaderIsMalformed | includes/Streaming_Controller.php:215-249 | an empty Range header is a 400 |
| StreamingController.NextBuffer | includes/Streaming_Controller.php:284-286 | the buffer shrinks to end-pos+1 for the last read and otherwise stays |
| StreamingController.FtellAdvance | includes/Streaming_Controller.php:282-298 | one loop turn keeps what was sent plus what remains fixed |
| StreamingController.SendFrom | includes/Streaming_Controller.php:274-304 | the loop from start sends the specification's bytes, and bytes_sent counts them |
| StreamingController.FtellSlice | includes/Streaming_Controller.php:282-298 | the loop sends consecutive bytes from pos and never passes end |
| StreamingController.FtellComplete | includes/Streaming_Controller.php:282-304 | without a fault it sends exactly bytes pos..end, stopping at end+1 |
| StreamingController.FtellIgnoresConnection | includes/Streaming_Controller.php:301-303 | with ignore_user_abort set (line 150), the connection state never changes what is sent |
| StreamingController.ContentType | includes/Streaming_Controller.php:166-181 | post MIME, else the sniffed type, else the extension table, else octet-stream |
| StreamingController.StreamAudioFile | includes/Streaming_Controller.php:148-321 | the method's response is the specification's, the exits' texts included |
| StreamingController.DeliverLaws | includes/Streaming_Controller.php:240-304 | status 200, 206 or 500, 500 exactly when fopen fails and then the text 'Failed to open file for reading'; Content-Range and Content-Length of the interval; otherwise the body is a prefix of it |
| StreamingController.DeliverFaultless | includes/Streaming_Controller.php:279-304 | without a fault the body is exactly the interval |
| StreamingController.StreamPartial | includes/Streaming_Controller.php:235-257 | a 206 names the interval inside the file, Content-Length end-start+1, body a prefix |
| StreamingController.StreamWhole | includes/Streaming_Controller.php:251-257 | a 200 to GET comes only without a Range header and declares the whole size |
| StreamingController.StreamStatuses | includes/Streaming_Controller.php:226-231 | a 416 carries `bytes */size` and no body; only the listed statuses occur |
| StreamingController.StreamErrors | includes/Streaming_Controller.php:153-271 | 404 exactly for a missing file, 400 exactly for a GET whose header holds no '-', 500 exactly when fopen fails; each with its exit text |
| StreamingController.StreamPartialFaultless | includes/Streaming_Controller.php:279-304 | without a fault a 206 carries exactly file[start..end]: a prefix of it with its full length |
| StreamingController.StreamWholeFaultless | includes/Streaming_Controller.php:279-304 | without a fault a 200 to GET carries the whole file |
| StreamingController.ResolveFilename | includes/Streaming_Controller.php:330-394 | empty is 400; a meta LIKE on the basename, then a search on its stem; else 404 |
| StreamingController.ResolveMissingExactly | includes/Streaming_Controller.php:358-393 | 404 exactly when neither search has a hit |
| StreamingController.FallbackSearchesStem | includes/Streaming_Controller.php:369-373 | for dir/stem.ext the fallback searches titles for stem |
| AudioEndpoints.Gate | includes/class-audio-endpoints.php:27-48 | 404 unless an audio attachment with a readable file; never a redirect or 403 |
| AudioEndpoints.RangeFor | includes/class-audio-endpoints.php:96-130 | absent is the whole file; a present header that fails the pattern is 400; bounds by empty()/intval() |
| AudioEndpoints.RangeForSpelled | includes/class-audio-endpoints.php:100-115 | `bytes=a-b` is validated as a..b, b = 0 meaning the last byte |
| AudioEndpoints.RangeForOpenEnded | includes/class-audio-endpoints.php:102 | `bytes=a-` runs to the last byte |
| AudioEndpoints.ZeroZeroServesWholeFile | includes/class-audio-endpoints.php:101-102 | `bytes=0-0` is the whole file |
| AudioEndpoints.DashNIsNotSuffix | includes/class-audio-endpoints.php:101-102 | `bytes=-N` is 0..min(N, size-1) |
| AudioEndpoints.EmptyHeaderIsMalformed | includes/class-audio-endpoints.php:96-128 | a sent but empty header is a 400 |
| AudioEndpoints.PumpAdvance | includes/class-audio-endpoints.php:171-190 | one loop turn keeps what was sent plus what remains fixed |
| AudioEndpoints.Send | includes/class-audio-endpoints.php:168-191 | the loop's output is the specification's and bytes_sent its length |
| AudioEndpoints.PumpSlice | includes/class-audio-endpoints.php:171-190 | consecutive bytes from start, never more than length |
| AudioEndpoints.PumpComplete | includes/class-audio-endpoints.php:171-190 | without a fault exactly length bytes from start |
| AudioEndpoints.SendBody | includes/class-audio-endpoints.php:158-194 | the method's body is the specification's choice of fpassthru, readfile or the loop |
| AudioEndpoints.StreamAudioFile | includes/class-audio-endpoints.php:51-210 | the method's response is the specification's, the exits' texts included |
| AudioEndpoints.DeliverLaws | includes/class-audio-endpoints.php:119-194 | 500 exactly when fopen fails, with the text 'Failed to open file for reading'; the interval's Content-Range and Content-Length; otherwise the body lies within them unless fpassthru() ran |
| AudioEndpoints.BodyLaws | includes/class-audio-endpoints.php:162-194 | without http_throttle the body is a prefix of the interval |
| AudioEndpoints.BodyFaultless | includes/class-audio-endpoints.php:162-194 | without a fault and without fpassthru() the body is the interval |
| AudioEndpoints.ThrottledOverrun | includes/class-audio-endpoints.php:158-161 | fpassthru() sends from start to the file's end, more than Content-Length when the range stops short |
| AudioEndpoints.StreamPartial | includes/class-audio-endpoints.php:114-136 | a 206 names the parsed interval, declares end-start+1 and sends a prefix of the file from start, within the interval unless fpassthru() takes over |
| AudioEndpoints.StreamWhole | includes/class-audio-endpoints.php:130-136 | a 200 to GET comes only without a Range header and declares the whole size |
| AudioEndpoints.StreamStatuses | includes/class-audio-endpoints.php:77-110 | HEAD is 200 with the size and no body; a 416 names the size; only the listed statuses occur |
| AudioEndpoints.StreamErrors | includes/class-audio-endpoints.php:96-150 | 400 exactly for a GET whose header fails the pattern, 500 exactly when fopen fails; each with its exit text |
| AudioEndpoints.StreamPartialFaultless | includes/class-audio-endpoints.php:166-194 | without a fault or fpassthru(), a 206 carries exactly the interval: the file from start, for end-start+1 bytes |
| AudioEndpoints.StreamWholeFaultless | includes/class-audio-endpoints.php:158-194 | without a fault, a 200 to GET carries the whole file |
| AudioEndpoints.HandleNeverRedirects | includes/class-audio-endpoints.php:27-48 | the route never answers 302 or 403 |
| AudioEndpoints.TransientKeyOf | includes/class-audio-endpoints.php:252 | `_transient_` + key gives back key for a chunk key |
| AudioEndpoints.TransientKeys | includes/class-audio-endpoints.php:251-252 | one key per option name, in order, with every `_transient_` removed |
| AudioEndpoints.ElementsCons | includes/class-audio-endpoints.php:251 | the distinct keys of a list, one element at a time |
| AudioEndpoints.ClearedLaws | includes/class-audio-endpoints.php:251-256 | every listed key is gone, nothing else is touched, and the count is what disappeared |
| AudioEndpoints.ClearedCount | includes/class-audio-endpoints.php:251-258 | the count is the number of stored keys listed, however often listed |
| AudioEndpoints.ClearedStep | includes/class-audio-endpoints.php:253-255 | one step of the sweep as the loop takes it |
| AudioEndpoints.ClearCachedChunks | includes/class-audio-endpoints.php:240-259 | the loop's count and remaining store are the sweep's |
| AudioEndpoints.ResolveFilename | includes/class-audio-endpoints.php:267-353 | empty is 400; meta LIKE, search on the stem, exact title; else 404 |
| AudioEndpoints.ExactTitleNeverDecides | includes/class-audio-endpoints.php:327-345 | with the search read as a title LIKE, the exact-title stage never decides |
| AudioEndpoints.ResolveMissingExactly | includes/class-audio-endpoints.php:295-353 | 404 exactly when neither the meta LIKE nor the search has a hit |
| ChunkEndpoint.CacheKeyInjective | includes/class-audio-endpoint.php:115 | distinct files never share a `jet_audio_chunk_{id}_0` key |
| ChunkEndpoint.MulMonotone | includes/class-audio-endpoint.php:306 | chunk starts grow with the index |
| ChunkEndpoint.TotalChunksExact | includes/class-audio-endpoint.php:306-315 | the indices below ceil(size/S), the total_chunks of line 727, are exactly those that avoid the 416 |
| ChunkEndpoint.ChunkInside | includes/class-audio-endpoint.php:303-307 | a chunk inside the file is start = c·S .. min(start+S-1, size-1), at most S bytes |
| ChunkEndpoint.ChunksAdjacent | includes/class-audio-endpoint.php:306-307 | consecutive chunks tile the file |
| ChunkEndpoint.ChunkReadAdvance | includes/class-audio-endpoint.php:407-414 | one loop turn keeps the buffer plus what remains fixed |
| ChunkEndpoint.ChunkReadSlice | includes/class-audio-endpoint.php:407-414 | the buffer is consecutive bytes from start and never exceeds end-start+1 |
| ChunkEndpoint.ChunkReadComplete | includes/class-audio-endpoint.php:407-414 | without a fault the buffer is exactly the chunk |
| ChunkEndpoint.ReadChunk | includes/class-audio-endpoint.php:402-416 | the loop's buffer is the specification's |
| ChunkEndpoint.Decide | includes/class-audio-endpoint.php:114-315 | a hit exactly for chunk 0 with a cached key, before any lookup; then 404, 403 when max>0 and size>max, 416 past the end, else a fresh interval |
| ChunkEndpoint.CacheAfter | includes/class-audio-endpoint.php:419-427 | the intended write: only chunk 0's key may change, and the cache stays well formed |
| ChunkEndpoint.CacheWriteNeverFires | includes/class-audio-endpoint.php:408-419 | as written, once the loop reads, chunk 0 is never cached and the next request misses again |
| ChunkEndpoint.CachedChunkReplays | includes/class-audio-endpoint.php:419-427 | with the write in place, the next chunk-0 request replays the response as a hit (lines 113-167) |
| ChunkEndpoint.FreshChunkLaws | includes/class-audio-endpoint.php:384-414 | a 206 with `bytes start-end/size`, Content-Length end-start+1, cache miss, body a prefix; the whole chunk without a fault |
| ChunkEndpoint.FreshBodyLaws | includes/class-audio-endpoint.php:407-414 | a fresh chunk's bytes are a prefix of its interval, and all of it without a fault |
| ChunkEndpoint.BeyondChunkLaws | includes/class-audio-endpoint.php:315-351 | past the end: 416 with `bytes */size` and no body |
| ChunkEndpoint.RefusedChunkLaws | includes/class-audio-endpoint.php:180-300 | past the cache: 404 'File not found' exactly when the post or its file is missing; 403 exactly over a positive cap, its text naming the cap |
| ChunkEndpoint.TooLargeText | includes/class-audio-endpoint.php:299 | the 403 text is the fixed sentence with the formatted cap and a final '.' |
| ChunkEndpoint.HitIgnoresSite | includes/class-audio-endpoint.php:114-167 | a hit is a 206 decided by the cache alone |
| ChunkEndpoint.TransientCache.StreamAudioChunk | includes/class-audio-endpoint.php:81-427 | the response is the specification's, the 404 and 403 texts included, and the cache is the intended one after it |
| ChunkEndpoint.HandleAudioRequest | includes/class-audio-endpoint.php:45-58 | nothing when either variable is empty(); otherwise absint() of both |
| ChunkEndpoint.RewriteDropsChunkZero | includes/class-audio-endpoint.php:49 | the rewrite route never serves chunk "0" |
| ChunkEndpoint.RewriteSpelled | includes/class-audio-endpoint.php:49-56 | a spelled id and positive chunk reach the stream unchanged |
| ChunkEndpoint.HandleStreamRequest | includes/class-audio-endpoint.php:63-73 | both parameters must be set; absint() of each |
| ChunkEndpoint.AjaxServesChunkZero | includes/class-audio-endpoint.php:63-71 | the AJAX route does pass chunk 0 on |
| Logs.Take | includes/class-debug-log.php:77-79 | array_slice(0, n): the first min(n, count) entries |
| Logs.Prepend | includes/class-debug-log.php:53-61 | the new entry first, earlier ones shifted back by one, at most 100 |
| Logs.PrependBounded | includes/class-debug-log.php:59-61 | the list never exceeds 100; below the cap nothing is dropped |
| Logs.NewestFirst | includes/class-debug-log.php:56 | entries added in turn lead the list in reverse order of arrival |
| Logs.AddAll | includes/class-debug-log.php:56-61 | many additions keep the cap |
| Logs.DebugLog.AddLog | includes/class-debug-log.php:39-65 | the stored list becomes the prepended, capped list |
| Logs.DebugLog.GetLogs | includes/class-debug-log.php:73-81 | the first min(limit, n) entries |
| Logs.DebugLog.ClearLogs | includes/class-debug-log.php:89-113 | with a valid nonce the list is emptied, else unchanged |
| Logs.AddDebugLogTab | includes/class-debug-log.php:121-124 | 'debug_log' is set; every other tab is unchanged |
| Logs.ClientIp | includes/class-debug-log.php:237-249 | HTTP_CLIENT_IP if not empty, else HTTP_X_FORWARDED_FOR if not empty, else REMOTE_ADDR |
| Logs.ClientIpSource | includes/class-debug-log.php:240-246 | the address is one of the three variables |
| Logs.StreamOption.LogStreamRequest | includes/Streaming_Controller.php:404-434 | the list becomes the prepended, capped list; the other keys are unchanged |
| Logs.StreamOption.SaveSettings | includes/Settings_Page.php:148-180 | the scalar keys become the sanitised input; the stored list is carried over |
| Logs.StreamOption.ClearDebugLogs | includes/Settings_Page.php:404-416 | as intended: with a valid nonce the list is emptied; the other keys are unchanged |
| Logs.StreamOption.ClearDebugLogsAsWritten | includes/Settings_Page.php:409-416 | as written: update_option's sanitize callback puts the stored list back and re-sanitises the scalar keys |
| Logs.ClearKeepsLog | includes/Settings_Page.php:150-153 | as written, clearing a one-entry log with a valid nonce leaves that entry |
| Logs.ClearEmptiesLog | includes/Settings_Page.php:412-415 | as intended, the same clear leaves the log empty |
| Logs.StreamOption.ViewedLogs | includes/Settings_Page.php:343 | the first min(50, n) entries |
| Clamps.Clamp | includes/class-admin-settings.php:241-245 | within [lo, hi]; the identity inside; lo below and hi above |
| StreamSettings.FileTypes | includes/Settings_Page.php:161-162 | only letters, digits and commas remain |
| StreamSettings.FileTypesIsOneFilter | includes/class-audio-stream-settings.php:115-116 | the two passes are one filter keeping exactly letters, digits and commas |
| StreamSettings.FileTypesIdempotent | includes/Settings_Page.php:160-162 | filtering a filtered list changes nothing |
| StreamSettings.FileTypesKeepsClean | includes/class-audio-stream-settings.php:115-116 | a clean list is kept as it is |
| StreamSettings.DefaultTypesClean | includes/class-audio-stream-settings.php:119 | the default 'mp3,wav,ogg' passes unchanged |
| StreamSettings.SanitizeSettings | includes/class-audio-stream-settings.php:106-134 | exactly three keys; enable_streaming iff set and truthy; the filtered list or 'mp3,wav,ogg'; max size absint() when positive, else 2048, so always >= 1 |
| StreamSettings.SanitizeIdempotent | includes/class-audio-stream-settings.php:106-134 | sanitising the sanitised form changes nothing |
| StreamSettings.GetSettings | includes/class-audio-stream-settings.php:279-288 | stored keys override the defaults; missing ones come from the defaults |
| StreamSettings.SavedReadsBack | includes/class-audio-stream-settings.php:106-134 | a saved option reads back exactly as sanitised by lines 279-288 |
| AudioSettings.SanitizeChunkSize | includes/class-audio-settings.php:224-235 | within [0.1, 10]; the identity inside; the bound outside |
| AudioSettings.SanitizeBitrate | includes/class-audio-settings.php:243-254 | within [64, 320]; the identity on intval() inside |
| AudioSettings.SanitizeSamplerate | includes/class-audio-settings.php:262-272 | one of the four rates; the value iff it is allowed, else 44100 |
| AudioSettings.SanitizersIdempotent | includes/class-audio-settings.php:224-272 | all three are idempotent |
| AudioSettings.ReadSettings | includes/class-audio-settings.php:723-750 | every setting from its option, or its default |
| AudioSettings.ReadDefaults | includes/class-audio-settings.php:723-731 | without options: 1, 50, false, 128, 44100, true, true |
| AudioSettings.Settings.GetSettings | includes/class-audio-settings.php:721-754 | an empty memo is filled from the options; a filled memo is kept and returned |
| AudioSettings.ReadTwice | includes/class-audio-settings.php:722-753 | a second call returns the first call's array, whatever the options are by then |
| AudioSettings.CacheClearKey | includes/class-audio-settings.php:686-690 | the `_transient_timeout_` prefix is cut, else the `_transient_` prefix |
| AudioSettings.BothRowsNameTheKey | includes/class-audio-settings.php:677-690 | the value row and the timeout row name the same transient |
| AudioSettings.ClearKeys | includes/class-audio-settings.php:684-690 | one transient name per option row, in order |
| AudioSettings.ClearCacheFallback | includes/class-audio-settings.php:669-696 | the loop's count and remaining store are the sweep's |
| AudioSettings.FallbackCountsTransients | includes/class-audio-settings.php:684-696 | the count is the number of stored transients named; all of them are gone |
| AudioSettings.StatusClass | includes/class-audio-settings.php:573-581 | 'error' iff >= 400, 'warning' iff 300..399, 'success' iff 200..299, '' below |
| AudioSettings.DurationClass | includes/class-audio-settings.php:592-598 | no span iff 0; 'warning' iff > 2000; 'notice' iff 1001..2000; '' otherwise |
| AdminSettings.SanitizeBufferSize | includes/class-admin-settings.php:238-248 | within [8, 1024]; the identity on absint() inside |
| AdminSettings.SanitizeBitrate | includes/class-admin-settings.php:256-266 | within [64, 320]; the identity on absint() inside |
| AdminSettings.SanitizersIdempotent | includes/class-admin-settings.php:238-266 | both idempotent and the identity on in-range integers |
| AdminSettings.GetSettings | includes/class-admin-settings.php:545-555 | buffer size KB·1024, max size MB·1024·1024, debug mode cast to bool |
| AdminSettings.Defaults | includes/class-admin-settings.php:546-554 | without options: 64 KB, 128, 30, false, 50 MB, true, false |
| AdminSettings.SavedBufferInBytes | includes/class-admin-settings.php:238-248 | a sanitised buffer size reads back, as line 547 reads it, as 8 KiB to 1 MiB of bytes |
| AudioAdminSettings.SanitizeBufferSize | includes/class-audio-admin-settings.php:98-109 | within [8, 1024]; the identity on absint() inside |
| AudioAdminSettings.SanitizeBitrate | includes/class-audio-admin-settings.php:111-122 | within [32, 320]; the identity on absint() inside |
| AudioAdminSettings.SignBlind | includes/class-audio-admin-settings.php:99-112 | f(-x) = f(x) for both |
| AudioAdminSettings.SanitizersIdempotent | includes/class-audio-admin-settings.php:98-122 | both are idempotent |
| AudioAdminSettings.BitrateFloorsDiffer | includes/class-audio-admin-settings.php:115-116 | the two admin classes disagree exactly when the magnitude is below 64 |
| ListingIntegration.StreamUrl | includes/class-listing-integration.php:54-57 | the URL starts with rest_url's root and ends in /play/{id} |
| ListingIntegration.ModifyAudioFieldValue | includes/class-listing-integration.php:33-60 | unchanged unless an audio-recording with a non-empty listed meta field; then the play URL |
| ListingIntegration.ModifyDynamicLinkAttr | includes/class-listing-integration.php:70-111 | for an audio link of a recording: href = data-url = play URL, data-post-id, data-post-type; other attributes and links unchanged |
| ListingIntegration.FieldAndLinkAgree | includes/class-listing-integration.php:42-99 | a field and a link naming the same audio field get the same URL |
| ListingIntegration.AllowDataUrlAttr | includes/class-listing-integration.php:120-126 | the three data attributes appended after the existing entries |
| StreamHandler.AddAudioMimeTypes | includes/class-audio-stream-handler.php:35-43 | mp3, wav, ogg, m4a set to their types; every other key unchanged |
| StreamHandler.AddAudioMimeTypesIdempotent | includes/class-audio-stream-handler.php:35-43 | adding the types twice adds nothing more |
| StreamHandler.IsAudioFileExactly | includes/class-audio-stream-handler.php:69-72 | true iff the post exists and its MIME starts with 'audio/' |
| StreamHandler.WaveformMeta.GenerateWaveformData | includes/class-audio-stream-handler.php:117-129 | existing data: true, no write; missing file: false, no write; otherwise the placeholder stored |
| StreamHandler.WaveformMeta.GetWaveformData | includes/class-audio-stream-handler.php:166-183 | the stored data, generated first when empty; false exactly when it is still empty |
| Frontend.DirectMediaIgnoresCase | assets/js/frontend.js:108-113 | a URL is a media file exactly when its lower-cased form is |
| Frontend.DirectMediaOfName | assets/js/frontend.js:110-112 | any name with one of the six extensions, in any case, is a media file |
| Frontend.LowerIdempotent | assets/js/frontend.js:111 | lower-casing twice is lower-casing once |
| Frontend.CheckUrlProperties | assets/js/frontend.js:144-177 | 3xx: redirect, MP3/WAV by the Location; 2xx: MP3/WAV by Content-Type or URL; otherwise neither |
| Frontend.RedirectMp3OrWavIsDirect | assets/js/frontend.js:151-153 | a redirect classed MP3/WAV points at a direct media file |
| Frontend.TotalSize | assets/js/frontend.js:884-905 | a present total is positive; from Content-Range when present, else Content-Length |
| Frontend.TotalAtSpelled | assets/js/frontend.js:888 | "bytes F-L/N" matches at 0 with digit runs F, L and N, capturing N |
| Frontend.TotalOfSatisfied | assets/js/frontend.js:887-897 | a satisfied Content-Range gives back its complete length when positive |
| Frontend.NoTotalWithoutB | assets/js/frontend.js:888 | no match without the "bytes " token |
| Frontend.TotalOfUnsatisfied | assets/js/frontend.js:887-904 | "bytes */N" gives null |
| Frontend.ParseIntOfDigits | assets/js/frontend.js:890 | parseInt of a digit run is its value |
| Frontend.TotalOfLength | assets/js/frontend.js:892-904 | without Content-Range, a positive Content-Length is the total and 0 gives null |
| Frontend.ResolutionName | assets/js/frontend.js:1526-1550 | a present name is never empty |
| Frontend.ResolutionNameOf | assets/js/frontend.js:1526-1533 | dir/stem.ext asks for stem, only the final extension removed |
| Frontend.ResolutionNameWithoutDot | assets/js/frontend.js:1534-1536 | a last segment without a dot is asked for as it is |
| Frontend.CleanBase | assets/js/frontend.js:1605 | ends in '/'; unchanged when it did, else base + '/' |
| Frontend.ResolveEndpoint | assets/js/frontend.js:1526-1614 | null exactly without a name, an answer, success or id; a small file's direct URL; else the play base with the id |
| Frontend.OneSlashBeforeId | assets/js/frontend.js:1605-1606 | exactly one '/' before the id either way |
| Frontend.ClientFollowsRoute | assets/js/frontend.js:1579-1606 | against the REST route, the client gets a URL exactly when the route resolves the name |
| Frontend.SecondPiece | assets/js/frontend.js:222-225 | split(sep)[1]: the text between the first and the next occurrence |
| Frontend.FixMalformedUrl | assets/js/frontend.js:217-253 | data-direct-url is the embedded URL; data-url is the origin's play route with its last segment |
| Frontend.PlayAfterPrefix | assets/js/frontend.js:217-222 | the first "/play/" is the route's own |
| Frontend.FixMalformedOf | assets/js/frontend.js:222-252 | a route with a file URL appended is rewritten to the route with the file's name |
| Frontend.PadTwoOfSeconds | assets/js/frontend.js:1625 | two digits spelling a number below 60 |
| Frontend.FormatTimeOf | assets/js/frontend.js:1620-1626 | whole minutes, ':' and two digits spelling the whole seconds within the minute |
| PlayerStandalone.TrailingWord | assets/js/player-standalone.js:44 | a suffix of the string that no word character precedes |
| PlayerStandalone.TrailingWordChars | assets/js/player-standalone.js:44 | that suffix consists of word characters, so it is the maximal run |
| PlayerStandalone.FileMatch | assets/js/player-standalone.js:44 | a match ends in '/' + name + '.' + ext, name non-empty, ext a listed extension in any case |
| PlayerStandalone.FileMatchName | assets/js/player-standalone.js:44 | the name group of a match is made of word characters |
| PlayerStandalone.FileMatchOf | assets/js/player-standalone.js:44 | every such URL matches with those groups |
| PlayerStandalone.NoFileMatchWithoutDot | assets/js/player-standalone.js:44 | a URL whose last segment has no dot does not match |
| PlayerStandalone.PlayRouteReparses | assets/js/player-standalone.js:44-75 | a play route gives its id back and is not a file URL |
| PlayerStandalone.ResolveEndpoint | assets/js/player-standalone.js:173-206 | null for an empty name; a result iff success and a non-zero id, with its fields |
| PlayerStandalone.InitializeUrl | assets/js/player-standalone.js:31-79 | missing data-url fails; relative made absolute; a file URL resolved to the direct URL or play base + id, or fails; otherwise the /play/ id |
| PlayerStandalone.AbsoluteUrl | assets/js/player-standalone.js:37-41 | the prepared URL starts with 'http' |
| PlayerStandalone.StreamedIdAgrees | assets/js/player-standalone.js:58-75 | a streamed file's route is read back as the same attachment |
| ListingScript.PermalinkId | assets/js/listing-integration.js:191-195 | a match's last segment is all digits after a non-empty slug and a recording kind |
| ListingScript.SplitOfPermalink | assets/js/listing-integration.js:191 | the permalink's segments are the ones written |
| ListingScript.PermalinkIdOf | assets/js/listing-integration.js:191-195 | a recording permalink ending in an id, with or without '/', gives the id |
| ListingScript.TrimAppendedSlash | assets/js/listing-integration.js:191 | the optional final `/` of the pattern is set aside, giving back the permalink without it |
| ListingScript.ExtractPostId | assets/js/listing-integration.js:165-211 | element data, item data, REST link, permalink, item id, null, in that order |
| ListingScript.ExtractsServerUrl | assets/js/listing-integration.js:185-188 | the play URL the server writes is read back as the post's id |
| ListingScript.ExtractsItemId | assets/js/listing-integration.js:200-207 | a `jet-post-N` item id gives N |
| ListingScript.ProcessElement | assets/js/listing-integration.js:78-155 | skipped when unselected or processed; processed iff a truthy id, then pointed at rest_url + id |
| ListingScript.ProcessElementIdempotent | assets/js/listing-integration.js:83-103 | processing an element twice changes nothing |
| ListingScript.ProcessAll | assets/js/listing-integration.js:75-156 | every element processed once, in order |
| ListingScript.ProcessAllIdempotent | assets/js/listing-integration.js:123-145 | processing an item twice is processing it once |
| ListingScript.ScriptUrlIsServerUrl | assets/js/listing-integration.js:94-99 | the script writes the URL the server writes for the same post |
| ListingScript.ListingItem.ProcessListingItem | assets/js/listing-integration.js:75-156 | the item's elements become the processed elements |
| ListingScript.Integration.constructor | assets/js/listing-integration.js:16-27 | as intended: the main player initialises exactly when the flag arrives as true or localised as "1" |
| ListingScript.Integration.AsWritten | assets/js/listing-integration.js:16-27 | as written: the script initialises players unless the flag is strictly true |
| ListingScript.Localized | includes/class-listing-integration.php:142-147 | wp_localize_script delivers a boolean as the string "1" or "" |
| ListingScript.LocalizedFlagIgnored | assets/js/listing-integration.js:18-19 | as written, the server's true flag still makes the script initialise players |
| ListingScript.LocalizedFlagHonoured | assets/js/listing-integration.js:18-22 | as intended, the same flag leaves initialisation to the main player |
| ListingScript.Integration.NotifiesMainPlayer | assets/js/listing-integration.js:64-67 | the hook is called iff the main player initialises and the hook is a function |

## Left out

- Real I/O becomes oracles. This covers fopen, fseek, fread, readfile, fpassthru, echo, flush, output buffering, usleep, set_time_limit and http_throttle. Reads are consecutive bytes of the file. End of file, read failure, connection state and fopen failure are functions of the loop iteration. Throttling pauses and sleeps change nothing sent.
- WordPress and database internals become values:
  - WP_Query, `$wpdb`, esc_like, options, post meta, get_attached_file, wp_check_filetype and mime_content_type are fields of `Library.Site` or parameters;
  - LIKE is case-insensitive containment;
  - the 's' search is a title containment test (WordPress's word splitting and its search over content and excerpt are left out);
  - transient expiry (the 5-minute TTL) is not modelled.
- Floating point:
  - the chunk size in MB is an integer byte count S in `ChunkEndpoint`;
  - only `AudioSettings.SanitizeChunkSize` works on `real`, with floatval() given;
  - duration estimates, progress percentages and the playback position are left out;
  - `Frontend.FormatTime` takes the time as a real, with NaN and infinities as None.
- StreamingController.MaxMb: the size gate compares integers, `size > max·1048576`. This is equivalent to the source's real division `size / 1048576 > max`.
- `new URL`, `decodeURIComponent` and `encodeURIComponent` are left out. The scripts' pathname and origin are given.
- The JavaScript `fetch` calls, timers, WaveSurfer, the DOM and MutationObserver are left out. The resolver's answer is a function from the name to an optional record.
- `get_file_path_from_url` and `get_attachment_id_from_path` of includes/class-rest-api.php are left out. They are outside the delivery core: handle_stream_request calls neither.
- PlayerStandalone.FileMatch and RangePattern.Match: the regex `.`, `\s` and case folding are ASCII only. Unicode case folding is not modelled.
- ListingScript.ExtractPostId: a data-post-id is a natural number, with 0 standing for every falsy value. jQuery's data cache and a non-numeric data-post-id are not modelled.
- ListingScript.ProcessElement: the wrapper class added through `closest()` is not modelled.
- Frontend.CheckUrlProperties: the contentType and contentLength fields it copies into the result are not modelled. Only the redirect and MP3/WAV classification is.
- StreamHandler.WaveformMeta.GenerateWaveformData: the random placeholder (mt_rand) is a parameter holding its JSON text.
- error_log, the debug-log context arrays, sanitize_text_field, JSON encoding, nonces and capability checks are left out. Settings-page rendering, notices and wp_send_json_* are left out too. A clear operation takes the nonce's validity as a parameter.
- includes/class-audio-converter.php is not part of this model: it runs ffmpeg as a foreign process. The same goes for these files:
  - includes/class-audio-logs.php, which is SQL;
  - includes/class-jetengine-audio-streaming.php and jetengine-audio-stream.php, which are bootstrap and hook wiring;
  - templates/player-template.php, which is HTML;
  - assets/js/player.js and assets/js/admin.js, which are DOM and UI scripts.
- Integer widths: PHP integers are unbounded here. intval() saturation at 64 bits and float results of large multiplications are not modelled.
- Php.IntVal and Php.IsNumeric: a numeral with a fraction or an exponent is evaluated exactly and then truncated. PHP goes through a double, so rounding past 53 bits of mantissa and infinite values are not modelled.
- ChunkEndpoint.ChunkResponse: WordPress's size_format, which the 403 text uses for the cap, is a parameter (`sizeFormat`).
- Http.Refusal: the JSON body the REST server writes for a returned WP_Error (its code, message and data) is not modelled. The same holds for RestApi.HandleStatuses, StreamingController.HandleStatuses and AudioEndpoints.HandleAudioStream, whose refusals are these WP_Errors.
- StreamingController.LocatorName: the `filter_var(…, FILTER_VALIDATE_URL)` alternative of the URL test is not modelled. Only the `http` prefix counts as a URL, so a locator such as `mailto:a.mp3` that PHP's URL filter accepts is searched by its whole basename.

## Findings

| source | as written | input that shows it | evidently intended | confidence | as-written member | corrected member |
|---|---|---|---|---|---|---|
| includes/class-audio-endpoint.php:408-427 | the cache write is guarded by `$chunk === 0`, but the read loop reassigns `$chunk` to each fread() result | a first request for chunk 0 of a non-empty file: the loop reads, `$chunk` becomes a string, and nothing is cached, so every later chunk-0 request misses | cache the freshly read chunk 0 under `jet_audio_chunk_{id}_0`, so the next request is served from the cache as a hit | not executed | ChunkEndpoint.CacheWriteNeverFires | ChunkEndpoint.CachedChunkReplays |
| includes/Settings_Page.php:409-416 | update_option runs the sanitize callback that register_settings attached on admin_init (lines 27, 90-104), and that callback copies the stored debug_logs back into the new value (lines 150-153) | a valid-nonce clear of a non-empty log: the log is stored again unchanged | the log emptied and the other keys left as they were | not executed | Logs.ClearKeepsLog | Logs.ClearEmptiesLog |
| assets/js/listing-integration.js:18-19 | the flag is tested with `=== true`, but wp_localize_script casts the `true` of includes/class-listing-integration.php:146 to the string "1" | any page with the listing script: the flag arrives as "1", so the script initialises players itself and never calls the re-init hook | the main player initialises players when the server sets the flag | not executed | ListingScript.LocalizedFlagIgnored | ListingScript.LocalizedFlagHonoured |
