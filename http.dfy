// The HTTP side shared by the three range handlers and the chunk endpoint:
// the request and response, the file on disk, the I/O oracle and the
// range validation of RFC 7233 all three handlers repeat.

module Http {
  import opened Wrappers
  import opened Text

  function Min(a: int, b: int): int { if a <= b then a else b }

  /** 10 * 1024 * 1024, the small-file threshold of the redirect and of the client. */
  const TenMiB: nat := 10485760
  const OneMiB: nat := 1048576

  /** The request method and the raw `Range` header, when one was sent. */
  datatype Request = Request(verb: string, range: Option<string>)

  predicate IsHead(req: Request) { req.verb == "HEAD" }

  /** A file as file_exists(), is_readable() and its bytes see it. */
  datatype DiskFile = DiskFile(present: bool, readable: bool, data: seq<int>)

  predicate Accessible(f: DiskFile) { f.present && f.readable }

  /**
   * What the handlers cannot see in advance: whether fopen() fails, and per
   * loop iteration k whether feof() reports end of file early (the file was
   * truncated under the reader), whether fread() returns false and whether
   * connection_status() still reports a normal connection.
   */
  datatype Io = Io(openFails: bool, eof: nat -> bool, readFails: nat -> bool, connected: nat -> bool)

  /** No early end of file, no failed read and the client stays connected. */
  ghost predicate Faultless(io: Io) {
    !io.openFails && forall k: nat :: !io.eof(k) && !io.readFails(k) && io.connected(k)
  }

  /** fread(handle, n) at position pos of a plain file. */
  function Read(data: seq<int>, pos: nat, n: nat): (r: seq<int>)
    requires pos <= |data|
    ensures |r| == Min(n, |data| - pos) && |r| <= n
    ensures r == data[pos..pos + |r|]
  {
    data[pos..Min(pos + n, |data|)]
  }

  /** A sequence made of the slices lo..mid and mid..hi of the file is the slice lo..hi. */
  lemma JoinSlices(data: seq<int>, lo: nat, mid: nat, hi: nat, a: seq<int>, b: seq<int>, whole: seq<int>)
    requires lo <= mid <= hi <= |data|
    requires a == data[lo..mid] && b == data[mid..hi] && whole == a + b
    ensures whole == data[lo..hi]
  {
  }

  /** Two adjacent slices of the file make one. */
  lemma AdjacentSlices(data: seq<int>, pos: nat, a: seq<int>, b: seq<int>)
    requires pos + |a| + |b| <= |data|
    requires a == data[pos..pos + |a|] && b == data[pos + |a|..pos + |a| + |b|]
    ensures a + b == data[pos..pos + |a| + |b|]
  {
  }

  /** What a send loop has sent, followed by what it will still send, is what it sends in all. */
  ghost predicate SentThenRest(out: seq<int>, rest: seq<int>, whole: seq<int>) {
    out + rest == whole
  }

  /** Before the first turn nothing is sent and everything remains. */
  lemma NothingSent(whole: seq<int>)
    ensures SentThenRest([], whole, whole)
  {
    assert [] + whole == whole;
  }

  /** Once nothing remains, the loop has sent everything. */
  lemma NothingLeft(out: seq<int>, whole: seq<int>)
    requires SentThenRest(out, [], whole)
    ensures out == whole
  {
    assert out + [] == out;
  }

  /** The Content-Range field value of section 4.2 of RFC 7233. */
  datatype ContentRange = Satisfied(first: nat, last: nat, complete: nat) | Unsatisfied(complete: nat)

  function FormatContentRange(cr: ContentRange): string {
    match cr
    case Satisfied(f, l, c) => "bytes " + NatToString(f) + "-" + NatToString(l) + "/" + NatToString(c)
    case Unsatisfied(c) => "bytes */" + NatToString(c)
  }

  /** A response: status line, the headers the handlers decide, and the bytes echoed. */
  datatype Response = Response(
    status: nat,
    contentType: Option<string>,
    contentRange: Option<ContentRange>,
    contentLength: Option<nat>,
    location: Option<string>,
    cacheStatus: Option<string>,
    body: seq<int>)

  /** The bytes `exit($text)` echoes, one per character: every message the handlers print is ASCII. */
  function TextBytes(s: string): (r: seq<int>)
    ensures |r| == |s|
  {
    seq(|s|, i requires 0 <= i < |s| => s[i] as int)
  }

  /** The texts the stream handlers exit with. */
  const NotFoundText := "File not found"
  const InvalidRangeText := "Invalid range request"
  const OpenFailedText := "Failed to open file for reading"

  /** `status_header(status); exit(text)`: the status, no range or length, and the text as the body. */
  function Exit(status: nat, text: string): (r: Response)
    ensures r.status == status && r.contentRange.None? && r.contentLength.None? && r.location.None?
    ensures |r.body| == |text| && r.body == TextBytes(text)
  {
    Response(status, None, None, None, None, None, TextBytes(text))
  }

  /**
   * A WP_Error a route returns, as the REST server answers it: its status,
   * with no range or length. The JSON body WordPress writes for it is not
   * part of this model, which leaves the body empty.
   */
  function Refusal(status: nat): (r: Response)
    ensures r.status == status && r.contentRange.None? && r.contentLength.None? && r.location.None?
  {
    Response(status, None, None, None, None, None, [])
  }

  function Redirect(url: string): (r: Response)
    ensures r.status == 302 && r.location == Some(url) && r.body == []
  {
    Response(302, None, None, None, Some(url), None, [])
  }

  /** What a handler makes of the request's range. */
  datatype RangeOutcome = Whole | Partial(first: nat, last: nat) | NotSatisfiable | Malformed

  /**
   * The validation every handler repeats: a start past the end bound or at
   * or past the file size gives 416; otherwise the end bound is clamped to
   * the last byte.
   */
  function ValidateRange(start: nat, end: int, size: nat): (r: RangeOutcome)
    ensures r.NotSatisfiable? <==> start > end || start >= size
    ensures r.Partial? <==> !(start > end || start >= size)
    ensures r.Partial? ==> r.first == start && r.last == Min(end, size - 1)
    ensures r.Partial? ==> r.first <= r.last < size
  {
    if start > end || start >= size then NotSatisfiable
    else Partial(start, if end >= size then size - 1 else end)
  }

  /** The bound an outcome sends: the whole file, or the clamped interval. */
  function Length(o: RangeOutcome, size: nat): nat
    requires o.Whole? || o.Partial?
    requires o.Partial? ==> o.first <= o.last
  {
    if o.Whole? then size else o.last - o.first + 1
  }

  function FirstByte(o: RangeOutcome): nat { if o.Partial? then o.first else 0 }

  /** The extension-to-type table every handler falls back on (keyed by the lower-cased extension). */
  function AudioMimeFor(ext: string): Option<string> {
    if ext == "mp3" then Some("audio/mpeg")
    else if ext == "ogg" then Some("audio/ogg")
    else if ext == "wav" then Some("audio/wav")
    else if ext == "m4a" then Some("audio/mp4")
    else if ext == "flac" then Some("audio/flac")
    else None
  }

  const OctetStream := "application/octet-stream"
}
