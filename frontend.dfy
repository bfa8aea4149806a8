// The main player script's pure helpers: which URLs are media files, how a
// HEAD probe is classified, the total size read back from a range probe,
// the file name sent to the resolver and the URL chosen from its answer,
// the rewrite of malformed `/play/http…` URLs, and the time label.

module Frontend {
  import opened Wrappers
  import opened Text
  import opened Php
  import opened Http
  import opened Library
  import RestApi

  /*
   * isDirectMediaFile
   */

  const MediaExtensions: seq<string> := [".mp3", ".wav", ".ogg", ".m4a", ".flac", ".aac"]

  /** The lower-cased URL ends with one of the six media extensions. */
  predicate IsDirectMediaFile(url: string) {
    exists i | 0 <= i < |MediaExtensions| :: EndsWith(Lower(url), MediaExtensions[i])
  }

  lemma {:induction false} LowerOfLowerCase(s: string)
    requires forall i | 0 <= i < |s| :: !('A' <= s[i] <= 'Z')
    ensures Lower(s) == s
  {
  }

  lemma {:induction false} LowerIdempotent(s: string)
    ensures Lower(Lower(s)) == Lower(s)
  {
  }

  /** The test ignores case: a URL is a media file exactly when its lower-cased form is. */
  lemma DirectMediaIgnoresCase(url: string)
    ensures IsDirectMediaFile(url) <==> IsDirectMediaFile(Lower(url))
  {
    LowerIdempotent(url);
  }

  /** Any name followed by a listed extension is a media file, also when the extension is upper-case. */
  lemma DirectMediaOfName(name: string, ext: string, i: nat)
    requires i < |MediaExtensions| && Lower(ext) == MediaExtensions[i]
    ensures IsDirectMediaFile(name + ext)
  {
    LowerConcat(name, ext);
    var l := Lower(name + ext);
    assert l[|l| - |ext|..] == Lower(ext);
  }

  /*
   * checkUrlProperties
   */

  /** What the HEAD probe reports, apart from the raw headers it copies. */
  datatype UrlProperties = UrlProperties(isRedirect: bool, redirectUrl: Option<string>, isMP3orWAV: bool)

  predicate EndsMp3OrWav(u: string) { EndsWith(Lower(u), ".mp3") || EndsWith(Lower(u), ".wav") }

  /** A JavaScript string header value is truthy when present and non-empty. */
  predicate Truthy(h: Option<string>) { h.Some? && h.value != "" }

  predicate AudioContentType(ct: Option<string>) {
    Truthy(ct) && (Contains(ct.value, "audio/mpeg") || Contains(ct.value, "audio/wav") || Contains(ct.value, "audio/x-wav"))
  }

  /**
   * A 3xx is a redirect, MP3/WAV by its Location; a 2xx is MP3/WAV by its
   * Content-Type or by the URL itself; any other status is neither.
   */
  function CheckUrlProperties(url: string, status: int, location: Option<string>, contentType: Option<string>): (r: UrlProperties)
    ensures r.isRedirect <==> 300 <= status < 400
    ensures r.isRedirect ==> r.redirectUrl == location && (r.isMP3orWAV <==> Truthy(location) && EndsMp3OrWav(location.value))
    ensures 200 <= status < 300 ==> (r.isMP3orWAV <==> AudioContentType(contentType) || EndsMp3OrWav(url))
    ensures !(200 <= status < 400) ==> !r.isMP3orWAV
  {
    if 300 <= status < 400 then
      UrlProperties(true, location, Truthy(location) && EndsMp3OrWav(location.value))
    else if 200 <= status < 300 then
      UrlProperties(false, None, AudioContentType(contentType) || EndsMp3OrWav(url))
    else UrlProperties(false, None, false)
  }

  /** A redirect classified MP3/WAV points at a direct media file. */
  lemma RedirectMp3OrWavIsDirect(url: string, status: int, location: Option<string>, contentType: Option<string>)
    requires CheckUrlProperties(url, status, location, contentType).isRedirect
    requires CheckUrlProperties(url, status, location, contentType).isMP3orWAV
    ensures IsDirectMediaFile(location.value)
  {
    if EndsWith(Lower(location.value), ".mp3") {
      assert EndsWith(Lower(location.value), MediaExtensions[0]);
    } else {
      assert EndsWith(Lower(location.value), MediaExtensions[1]);
    }
  }

  /*
   * The total size from a range probe
   */

  /** `bytes \d+-\d+\/(\d+)` tried at position i: the value of the third run of digits. */
  function TotalAt(s: string, i: nat): Option<nat> {
    if !OccursAt(s, "bytes ", i) then None
    else
      var a := LeadingDigits(s[i + 6..]);
      var j := i + 6 + |a|;
      if a == [] || j >= |s| || s[j] != '-' then None
      else
        var b := LeadingDigits(s[j + 1..]);
        var k := j + 1 + |b|;
        if b == [] || k >= |s| || s[k] != '/' then None
        else
          var c := LeadingDigits(s[k + 1..]);
          if c == [] then None else Some(DecimalValue(c))
  }

  /** The regex's leftmost match. */
  function FirstTotal(s: string, from: nat): Option<nat>
    decreases |s| - from
  {
    if from > |s| then None
    else if TotalAt(s, from).Some? then TotalAt(s, from)
    else FirstTotal(s, from + 1)
  }

  /** parseInt(s, 10): white space, a sign and the leading digits; None for NaN. */
  function ParseInt(s: string): (r: Option<int>) {
    var t := SkipSpace(s);
    var negative := t != [] && t[0] == '-';
    var body := if t != [] && (t[0] == '-' || t[0] == '+') then t[1..] else t;
    var digits := LeadingDigits(body);
    if digits == [] then None
    else if negative then Some(-(DecimalValue(digits) as int))
    else Some(DecimalValue(digits))
  }

  /**
   * The total from a range probe: N of a present Content-Range (0 when it
   * does not match), else a present Content-Length; a total that is not
   * positive gives null.
   */
  function TotalSize(contentRange: Option<string>, contentLength: Option<string>): (r: Option<nat>)
    ensures r.Some? ==> r.value > 0
  {
    var total: int :=
      if Truthy(contentRange) then (var m := FirstTotal(contentRange.value, 0); if m.Some? then m.value else 0)
      else if Truthy(contentLength) then (var p := ParseInt(contentLength.value); if p.Some? then p.value else 0)
      else 0;
    if total > 0 then Some(total) else None
  }

  lemma AppendRight(a: string, b: string, c: string, d: string, e: string, g: string)
    ensures a + b + c + d + e + g == a + (b + (c + (d + (e + g))))
  {
    var t4 := d + (e + g);
    assert d + e + g == t4;
    var t3 := c + t4;
    assert c + d + e + g == t3;
    var t2 := b + t3;
    assert b + c + d + e + g == t2;
  }

  /** The regex matches at 0 on "bytes F-L/N" with digit runs F, L and N, capturing N. */
  lemma TotalAtSpelled(f: string, l: string, n: string)
    requires f != [] && l != [] && n != [] && AllDigits(f) && AllDigits(l) && AllDigits(n)
    ensures TotalAt("bytes " + f + "-" + l + "/" + n, 0) == Some(DecimalValue(n))
  {
    var s := "bytes " + f + "-" + l + "/" + n;
    var t := f + ("-" + (l + ("/" + n)));
    assert s == "bytes " + t by { AppendRight("bytes ", f, "-", l, "/", n); }
    assert OccursAt(s, "bytes ", 0) && s[6..] == t by { assert s[..6] == "bytes "; }
    DigitsField(s, 6, f, '-', l + ("/" + n));
    var j := 6 + |f|;
    DigitsField(s, j + 1, l, '/', n);
    var k := j + 1 + |l|;
    assert s[k + 1..] == n + "";
    LeadingDigitsOfDigits(n, "");
  }

  /** A digit run followed by a non-digit c: the run is what LeadingDigits reads there, and c follows it. */
  lemma DigitsField(s: string, i: nat, d: string, c: char, rest: string)
    requires i <= |s| && s[i..] == d + ([c] + rest) && AllDigits(d) && !IsDigit(c)
    ensures LeadingDigits(s[i..]) == d && i + |d| < |s| && s[i + |d|] == c && s[i + |d| + 1..] == rest
  {
    var u := d + ([c] + rest);
    LeadingDigitsOfDigits(d, [c] + rest);
    assert u[|d|] == c && u[|d| + 1..] == rest;
    assert s[i + |d| + 1..] == s[i..][|d| + 1..];
  }

  /** The complete length of a satisfied Content-Range header, as the servers write it, is read back. */
  lemma TotalOfSatisfied(first: nat, last: nat, complete: nat, contentLength: Option<string>)
    requires complete > 0
    ensures TotalSize(Some(FormatContentRange(Satisfied(first, last, complete))), contentLength) == Some(complete)
  {
    var s := FormatContentRange(Satisfied(first, last, complete));
    assert s == "bytes " + NatToString(first) + "-" + NatToString(last) + "/" + NatToString(complete);
    TotalAtSpelled(NatToString(first), NatToString(last), NatToString(complete));
    DecimalValueOfNatToString(complete);
    assert FirstTotal(s, 0) == Some(complete);
  }

  lemma {:induction false} NoTotalWithoutB(s: string, from: nat)
    requires forall j | from <= j < |s| :: s[j] != 'b'
    ensures FirstTotal(s, from) == None
    decreases |s| - from
  {
    if from <= |s| {
      if OccursAt(s, "bytes ", from) {
        assert s[from..from + 6][0] == s[from];
      }
      NoTotalWithoutB(s, from + 1);
    }
  }

  // An unsatisfied range ("bytes */N") carries no total: the probe gives null.
  lemma TotalOfUnsatisfied(complete: nat, contentLength: Option<string>)
    ensures TotalSize(Some(FormatContentRange(Unsatisfied(complete))), contentLength) == None
  {
    var n := NatToString(complete);
    var s := FormatContentRange(Unsatisfied(complete));
    assert s == "bytes */" + n;
    assert s[6..][0] == '*';
    assert TotalAt(s, 0) == None;
    forall j | 1 <= j < |s| ensures s[j] != 'b' {
      if j < 8 { assert s[j] == "bytes */"[j]; } else { assert s[j] == n[j - 8]; }
    }
    NoTotalWithoutB(s, 1);
  }

  /** parseInt of a digit run is its value. */
  lemma ParseIntOfDigits(d: string)
    requires d != [] && AllDigits(d)
    ensures ParseInt(d) == Some(DecimalValue(d) as int)
  {
    assert IsDigit(d[0]) && !IsSpace(d[0]) && d[0] != '-' && d[0] != '+';
    assert SkipSpace(d) == d;
    assert d + "" == d;
    LeadingDigitsOfDigits(d, "");
    assert LeadingDigits(d) == d;
  }

  /** Without a Content-Range, a Content-Length the servers write is the total when positive. */
  lemma TotalOfLength(length: nat)
    ensures TotalSize(None, Some(NatToString(length))) == if length > 0 then Some(length) else None
  {
    ParseIntOfDigits(NatToString(length));
    DecimalValueOfNatToString(length);
  }

  /*
   * resolveEndpoint
   */

  /** `^(.+?)\.([^.]+)$` on a file name: the final extension removed when a non-empty stem precedes it. */
  function StemOf(name: string): string {
    var stem := StripExtension(name);
    if stem == [] then name else stem
  }

  /** The name sent to the resolver: the last pathname segment's stem; null when empty. */
  function ResolutionName(pathname: string): (r: Option<string>)
    ensures r.Some? ==> r.value != []
  {
    var stem := StemOf(Last(Split(pathname, '/')));
    if stem == [] then None else Some(stem)
  }

  /** Only the final extension of the last segment is removed: `dir/a.b.mp3` asks for `a.b`. */
  lemma ResolutionNameOf(dir: string, stem: string, ext: string)
    requires stem != [] && forall i | 0 <= i < |stem| :: stem[i] != '/'
    requires ext != [] && forall i | 0 <= i < |ext| :: ext[i] != '.' && ext[i] != '/'
    ensures ResolutionName(dir + "/" + stem + "." + ext) == Some(stem)
  {
    var name := stem + "." + ext;
    assert dir + "/" + stem + "." + ext == dir + "/" + name;
    forall i | 0 <= i < |name| ensures name[i] != '/' {
      if i < |stem| { assert name[i] == stem[i]; } else if i > |stem| { assert name[i] == ext[i - |stem| - 1]; }
    }
    LastSegmentAppend(dir, name);
    StripExtensionOf(stem, ext);
  }

  /** A last segment without a dot is asked for as it is. */
  lemma ResolutionNameWithoutDot(dir: string, name: string)
    requires name != [] && forall i | 0 <= i < |name| :: name[i] != '/' && name[i] != '.'
    ensures ResolutionName(dir + "/" + name) == Some(name)
  {
    LastSegmentAppend(dir, name);
    StripExtensionKeeps(name);
  }

  /** The JSON the resolve route answers with; None when the request failed or was not ok. */
  datatype ResolveData = ResolveData(success: bool, id: nat, url: string, mime: string, size: nat)

  /** playBaseUrl with a '/' appended when it does not end in one. */
  function CleanBase(base: string): (r: string)
    ensures EndsWith(r, "/")
    ensures EndsWith(base, "/") ==> r == base
    ensures !EndsWith(base, "/") ==> r == base + "/"
  {
    if EndsWith(base, "/") then base
    else
      var r := base + "/";
      assert r[|r| - 1..] == "/";
      r
  }

  predicate SmallDirect(d: ResolveData) { d.url != "" && 0 < d.size < TenMiB }

  /**
   * resolveEndpoint from the file URL's pathname: null without a name, a
   * failed request or a falsy success/id; the direct URL of a small file;
   * otherwise the play base with the id.
   */
  function ResolveEndpoint(pathname: string, answer: string -> Option<ResolveData>, playBase: string): (r: Option<string>)
    ensures r.None? <==> (ResolutionName(pathname).None? || answer(ResolutionName(pathname).value).None? ||
      !answer(ResolutionName(pathname).value).value.success || answer(ResolutionName(pathname).value).value.id == 0)
    ensures r.Some? ==> var d := answer(ResolutionName(pathname).value).value;
      (SmallDirect(d) ==> r.value == d.url) && (!SmallDirect(d) ==> r.value == CleanBase(playBase) + NatToString(d.id))
  {
    match ResolutionName(pathname)
    case None => None
    case Some(name) =>
      match answer(name)
      case None => None
      case Some(d) =>
        if !(d.success && d.id != 0) then None
        else if SmallDirect(d) then Some(d.url)
        else Some(CleanBase(playBase) + NatToString(d.id))
  }

  /** The play URL has exactly one '/' before the id whether or not the base ends in one. */
  lemma OneSlashBeforeId(base: string, id: nat)
    requires !EndsWith(base, "/")
    ensures CleanBase(base) + NatToString(id) == CleanBase(base + "/") + NatToString(id)
    ensures CleanBase(CleanBase(base)) == CleanBase(base)
  {
    var b := base + "/";
    assert b[|b| - 1..] == "/";
  }

  /** The answer the REST resolve route gives. */
  function AnswerOf(site: Site, name: string): Option<ResolveData> {
    match RestApi.ResolveId(site, name)
    case Resolved(id, url, mime, size) => Some(ResolveData(true, id, url, mime, size))
    case Unresolved(_, _) => None
  }

  /** Against the REST route, the client gets a URL exactly when the route resolves the name. */
  lemma ClientFollowsRoute(site: Site, pathname: string, playBase: string)
    requires ResolutionName(pathname).Some?
    ensures ResolveEndpoint(pathname, name => AnswerOf(site, name), playBase).Some? <==>
      RestApi.ResolveId(site, ResolutionName(pathname).value).Resolved?
  {
    var name := ResolutionName(pathname).value;
    var res := RestApi.ResolveId(site, name);
    if res.Resolved? {
      assert RestApi.Hit(RestApi.SearchId(site, name));
    }
  }

  /*
   * The malformed-URL rewrite
   */

  /** JavaScript `s.split(sep)[1]`: the text between the first and the next occurrence; None with fewer than two pieces. */
  function SecondPiece(s: string, sep: string): (r: Option<string>)
    requires sep != []
    ensures r.Some? <==> Contains(s, sep)
    ensures r.Some? ==> var i := Find(s, sep).value;
      StartsWith(s[i + |sep|..], r.value) && !Contains(r.value, sep)
  {
    match Find(s, sep)
    case None => None
    case Some(i) =>
      var rest := s[i + |sep|..];
      match Find(rest, sep)
      case None => Some(rest)
      case Some(j) => CutBeforeFree(rest, sep, j); Some(rest[..j])
  }

  lemma CutBeforeFree(s: string, sep: string, j: nat)
    requires sep != [] && j <= |s| && forall k: nat :: k < j ==> !OccursAt(s, sep, k)
    ensures !Contains(s[..j], sep)
  {
    forall k: nat | k <= j ensures !OccursAt(s[..j], sep, k) {
      if OccursAt(s[..j], sep, k) {
        assert k < j;
        assert s[..j][k..k + |sep|] == s[k..k + |sep|];
        assert OccursAt(s, sep, k);
      }
    }
  }

  /** The play route under the REST prefix, as the script spells it. */
  const RestPlayPath := "/wp-json/" + "jetengine-audio-stream/v1/play/"

  /** The two attributes the rewrite sets. */
  datatype Rewrite = Rewrite(dataUrl: string, directUrl: string)

  /**
   * A data-url holding `/play/http`: the embedded URL becomes data-direct-url
   * and data-url becomes the origin's play route with the URL's last segment;
   * None where the player is skipped.
   */
  function FixMalformedUrl(dataUrl: string, origin: string): (r: Option<Rewrite>)
    ensures r.Some? ==> (Contains(dataUrl, "/play/http") && SecondPiece(dataUrl, "/play/") == Some(r.value.directUrl) &&
      StartsWith(r.value.directUrl, "http"))
  {
    if !Contains(dataUrl, "/play/http") then None
    else match SecondPiece(dataUrl, "/play/")
      case None => None
      case Some(fileUrl) =>
        if !StartsWith(fileUrl, "http") then None
        else
          var name := Last(Split(fileUrl, '/'));
          if name == [] then None
          else Some(Rewrite(origin + RestPlayPath + name, fileUrl))
  }

  /** The first "/play/" of a play route with a URL appended is the route's own, and "/play/http" occurs. */
  lemma PlayAfterPrefix(prefix: string, fileUrl: string)
    requires forall j | 0 <= j < |prefix| :: !OccursAt(prefix + "/play/", "/play/", j)
    requires StartsWith(fileUrl, "http")
    ensures Find(prefix + "/play/" + fileUrl, "/play/") == Some(|prefix|)
    ensures Contains(prefix + "/play/" + fileUrl, "/play/http")
    ensures (prefix + "/play/" + fileUrl)[|prefix| + 6..] == fileUrl
  {
    var s := prefix + "/play/" + fileUrl;
    assert s == (prefix + "/play/") + fileUrl;
    assert s[|prefix|..|prefix| + 6] == "/play/";
    assert s[|prefix| + 6..|prefix| + 10] == fileUrl[..4];
    assert s[|prefix|..|prefix| + 10] == "/play/http";
    assert OccursAt(s, "/play/http", |prefix|);
    forall j: nat | j < |prefix| ensures !OccursAt(s, "/play/", j) {
      assert !OccursAt(prefix + "/play/", "/play/", j) && j + 6 <= |prefix + "/play/"|;
      assert s[j..j + 6] == (prefix + "/play/")[j..j + 6];
    }
    assert OccursAt(s, "/play/", |prefix|);
  }

  /** A play route with a file URL appended is rewritten to the route with the file's name, the URL kept as the direct one. */
  lemma FixMalformedOf(prefix: string, dir: string, name: string, origin: string)
    requires forall j | 0 <= j < |prefix| :: !OccursAt(prefix + "/play/", "/play/", j)
    requires StartsWith(dir, "http") && !Contains(dir + "/" + name, "/play/")
    requires name != [] && forall i | 0 <= i < |name| :: name[i] != '/'
    ensures FixMalformedUrl(prefix + "/play/" + dir + "/" + name, origin) ==
      Some(Rewrite(origin + RestPlayPath + name, dir + "/" + name))
  {
    var fileUrl := dir + "/" + name;
    assert prefix + "/play/" + dir + "/" + name == prefix + "/play/" + fileUrl;
    assert fileUrl[..4] == dir[..4];
    PlayAfterPrefix(prefix, fileUrl);
    assert SecondPiece(prefix + "/play/" + fileUrl, "/play/") == Some(fileUrl);
    LastSegmentAppend(dir, name);
  }

  /*
   * formatTime
   */

  /** JavaScript's String() of an integer. */
  function IntString(n: int): string { if n < 0 then "-" + NatToString(-n) else NatToString(n) }

  /** padStart(2, '0'). */
  function PadTwo(s: string): string { if |s| < 2 then seq(2 - |s|, _ => '0') + s else s }

  /** JavaScript's `%` on numbers: the sign of the dividend. */
  function JsMod(x: real, d: real): real
    requires d > 0.0
  {
    var q := x / d;
    var t := if q >= 0.0 then q.Floor else -((-q).Floor);
    x - d * t as real
  }

  /** formatTime: "0:00" for a non-finite time (None), else floor(t / 60) ':' two-digit floor(t % 60). */
  function FormatTime(t: Option<real>): string {
    if t.None? then "0:00"
    else
      var minutes := (t.value / 60.0).Floor;
      var seconds := JsMod(t.value, 60.0).Floor;
      IntString(minutes) + ":" + PadTwo(IntString(seconds))
  }

  /** Two digits of a number below 60, most significant first. */
  lemma PadTwoOfSeconds(m: nat)
    requires m < 60
    ensures |PadTwo(NatToString(m))| == 2 && AllDigits(PadTwo(NatToString(m)))
    ensures DecimalValue(PadTwo(NatToString(m))) == m
  {
    var d := NatToString(m);
    DecimalValueOfNatToString(m);
    if m < 10 {
      var p := PadTwo(d);
      assert p == "0" + d;
      assert p[..1] == "0";
    } else {
      assert |NatToString(m / 10)| == 1;
    }
  }

  /**
   * For a non-negative time the label is the whole minutes, a colon and two
   * digits that spell the whole seconds within the minute.
   */
  lemma FormatTimeOf(t: real)
    requires t >= 0.0
    ensures var n := t.Floor;
      n >= 0 && FormatTime(Some(t)) == NatToString(n / 60) + ":" + PadTwo(NatToString(n % 60))
    ensures var n := t.Floor; var s := PadTwo(NatToString(n % 60));
      |s| == 2 && AllDigits(s) && DecimalValue(s) * 1 + (n / 60) * 60 == n
  {
    var n := t.Floor;
    var q, m := n / 60, n % 60;
    assert n == 60 * q + m && 0 <= m < 60;
    assert q as real <= t / 60.0 < (q + 1) as real;
    assert (t / 60.0).Floor == q;
    assert JsMod(t, 60.0) == t - 60.0 * q as real;
    assert m as real <= JsMod(t, 60.0) < (m + 1) as real;
    assert JsMod(t, 60.0).Floor == m;
    PadTwoOfSeconds(m);
  }
}
