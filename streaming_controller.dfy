// The second stream route (`/play/(?P<id>.*)` of Streaming_Controller):
// the locator that accepts an id, a URL or a file name, its delivery policy,
// the explode-based range parse, the ftell-driven read loop, and the
// two-stage filename resolver.

module StreamingController {
  import opened Wrappers
  import opened Text
  import opened Php
  import opened Http
  import opened Library
  import opened Functions

  /** The loop's initial buffer: 8 KiB. */
  const InitialBuffer: nat := 8192

  /** The size cap used when the setting is empty, in MiB. */
  const DefaultMaxMb: int := 2048

  /*
   * The locator
   */

  /**
   * parse_url($url, PHP_URL_PATH): the query and fragment cut off, and for
   * an absolute URL the part after the authority ("" when there is none).
   */
  function UrlPath(url: string): (r: string)
    ensures forall i | 0 <= i < |r| :: r[i] != '?' && r[i] != '#'
  {
    AfterAuthority(Cut(url, {'?', '#'}))
  }

  /** The part of a URL without query and fragment that follows its authority. */
  function AfterAuthority(base: string): (r: string)
    ensures |r| <= |base| && r == base[|base| - |r|..]
  {
    match Find(base, "://")
    case None => base
    case Some(i) =>
      var rest := base[i + 3..];
      match Find(rest, "/")
      case None => ""
      case Some(j) => rest[j..]
  }

  /** A locator that looks like a URL: the model's stand-in for the FILTER_VALIDATE_URL || 'http' prefix test. */
  predicate LooksLikeUrl(s: string) { StartsWith(s, "http") }

  /** The file name searched for a non-numeric locator. */
  function LocatorName(s: string): (r: string)
    ensures LooksLikeUrl(s) ==> r == Basename(UrlPath(s))
    ensures !LooksLikeUrl(s) ==> r == Basename(s)
  {
    if LooksLikeUrl(s) then Basename(UrlPath(s)) else Basename(s)
  }

  /** The id a locator names: a numeric one directly, otherwise the first meta LIKE hit on its file name. */
  function Target(site: Site, locator: string): (r: Option<int>)
    ensures IsNumeric(locator) ==> r == Some(IntVal(locator))
    ensures !IsNumeric(locator) ==> (r.None? <==> QueryByMeta(site, LocatorName(locator)).None?)
    ensures !IsNumeric(locator) && r.Some? ==> r.value == QueryByMeta(site, LocatorName(locator)).value
  {
    if IsNumeric(locator) then Some(IntVal(locator))
    else
      var hit := QueryByMeta(site, LocatorName(locator));
      if hit.Some? then Some(hit.value as int) else None
  }

  /** A client that spells an id gets that id, without a search. */
  lemma TargetOfId(site: Site, n: nat)
    ensures Target(site, NatToString(n)) == Some(n)
  {
    IsNumericOfDigits(NatToString(n));
    IntValOfNatToString(n);
  }

  /** PHP reads the exponent form as a number: the locator "1e3" is id 1000, not a file name. */
  lemma TargetOfExponent(site: Site)
    ensures Target(site, "1e3") == Some(1000)
  {
    ExponentExamples();
  }

  lemma AfterAuthorityOf(scheme: string, host: string, path: string)
    requires scheme == "http" || scheme == "https"
    requires forall i | 0 <= i < |host| :: host[i] != '/'
    requires path != [] && path[0] == '/'
    ensures AfterAuthority(scheme + "://" + host + path) == path
  {
    assert scheme + "://" + host + path == scheme + "://" + (host + path);
    AfterScheme(scheme, host + path);
    AfterHost(host, path);
  }

  /** The first "://" of an http(s) URL ends its scheme. */
  lemma AfterScheme(scheme: string, rest: string)
    requires scheme == "http" || scheme == "https"
    ensures Find(scheme + "://" + rest, "://") == Some(|scheme|)
    ensures (scheme + "://" + rest)[|scheme| + 3..] == rest
  {
    FindAfterFree(scheme, "://", rest);
  }

  /** The first '/' after a host free of '/' starts the path. */
  lemma AfterHost(host: string, path: string)
    requires forall i | 0 <= i < |host| :: host[i] != '/'
    requires path != [] && path[0] == '/'
    ensures Find(host + path, "/") == Some(|host|)
    ensures (host + path)[|host|..] == path
  {
    assert host + path == host + "/" + path[1..];
    FindAfterFree(host, "/", path[1..]);
  }

  /** An http(s) URL whose host holds no '/', '?' or '#' has the path that follows the host. */
  lemma UrlPathOf(scheme: string, host: string, path: string, query: string)
    requires scheme == "http" || scheme == "https"
    requires forall i | 0 <= i < |host| :: host[i] !in {'/', '?', '#'}
    requires path != [] && path[0] == '/' && forall i | 0 <= i < |path| :: path[i] !in {'?', '#'}
    requires query == [] || query[0] in {'?', '#'}
    ensures UrlPath(scheme + "://" + host + path + query) == path
  {
    var base := scheme + "://" + host + path;
    forall i | 0 <= i < |base| ensures base[i] !in {'?', '#'} {
      if i >= |scheme| + 3 + |host| {
        assert base[i] == path[i - |scheme| - 3 - |host|];
      } else if i >= |scheme| + 3 {
        assert base[i] == host[i - |scheme| - 3];
      }
    }
    CutClean(base, query, {'?', '#'});
    AfterAuthorityOf(scheme, host, path);
  }

  /** A media URL's locator is its file name. */
  lemma LocatorNameOfUrl(host: string, dir: string, name: string)
    requires forall i | 0 <= i < |host| :: host[i] !in {'/', '?', '#'}
    requires dir != [] && dir[0] == '/' && forall i | 0 <= i < |dir| :: dir[i] !in {'?', '#'}
    requires name != [] && forall i | 0 <= i < |name| :: name[i] !in {'/', '?', '#'}
    ensures LocatorName("https://" + host + dir + "/" + name) == name
  {
    var url := "https://" + host + dir + "/" + name;
    assert LooksLikeUrl(url) by {
      StartsWithAppend("https://", host, "http");
      StartsWithAppend("https://" + host, dir, "http");
      StartsWithAppend("https://" + host + dir, "/", "http");
      StartsWithAppend("https://" + host + dir + "/", name, "http");
    }
    assert UrlPath(url) == dir + "/" + name by { UrlPathOfFile(host, dir, name); }
    assert Basename(dir + "/" + name) == name by { BasenameOfPath(dir, name); }
  }

  lemma UrlPathOfFile(host: string, dir: string, name: string)
    requires forall i | 0 <= i < |host| :: host[i] !in {'/', '?', '#'}
    requires dir != [] && dir[0] == '/' && forall i | 0 <= i < |dir| :: dir[i] !in {'?', '#'}
    requires forall i | 0 <= i < |name| :: name[i] !in {'/', '?', '#'}
    ensures UrlPath("https://" + host + dir + "/" + name) == dir + "/" + name
  {
    var path := dir + "/" + name;
    assert "https" + "://" == "https://";
    assert "https://" + host + dir + "/" + name == "https" + "://" + host + path + "";
    PathOfFile(dir, name);
    UrlPathOf("https", host, path, "");
  }

  lemma PathOfFile(dir: string, name: string)
    requires dir != [] && dir[0] == '/' && forall i | 0 <= i < |dir| :: dir[i] !in {'?', '#'}
    requires forall i | 0 <= i < |name| :: name[i] !in {'/', '?', '#'}
    ensures var path := dir + "/" + name;
      path != [] && path[0] == '/' && forall i | 0 <= i < |path| :: path[i] !in {'?', '#'}
  {
    var path := dir + "/" + name;
    forall i | 0 <= i < |path| ensures path[i] !in {'?', '#'} {
      if i > |dir| { assert path[i] == name[i - 1 - |dir|]; }
    }
  }

  /*
   * The policy of handle_audio_stream
   */

  /** The allow-list: the comma-split setting when it is not empty, else the five built-in types. */
  function AllowedTypes(settings: map<string, Value>): (r: seq<string>)
    ensures Empty(Lookup(settings, "allowed_file_types")) ==> r == ["mp3", "wav", "ogg", "m4a", "flac"]
    ensures !Empty(Lookup(settings, "allowed_file_types")) ==> r == Split(ToStr(Lookup(settings, "allowed_file_types")), ',')
  {
    var v := Lookup(settings, "allowed_file_types");
    if !Empty(v) then Split(ToStr(v), ',') else ["mp3", "wav", "ogg", "m4a", "flac"]
  }

  /** The size cap in MiB: (int) of the setting when it is not empty, else 2048. */
  function MaxMb(settings: map<string, Value>): (r: int)
    ensures Empty(Lookup(settings, "max_file_size")) ==> r == DefaultMaxMb
    ensures !Empty(Lookup(settings, "max_file_size")) ==> r == IntValue(Lookup(settings, "max_file_size"))
  {
    var v := Lookup(settings, "max_file_size");
    if !Empty(v) then IntValue(v) else DefaultMaxMb
  }

  /** The small-file redirect test of this copy: under 10 MiB, not HEAD, no Range header; any extension. */
  predicate SmallDirect(p: Post, req: Request) {
    |p.file.data| < TenMiB && !IsHead(req) && req.range.None?
  }

  /**
   * The checks of handle_audio_stream in their order: a locator that names
   * something, a non-zero id of an audio attachment, a readable file, then
   * the redirect, and only after it the allow-list and the size cap.
   */
  function Policy(settings: map<string, Value>, site: Site, locator: string, req: Request): (r: Decision)
    ensures Target(site, locator).None? ==> r == Refuse(404, "file_not_found")
    ensures r.Serve? ==> (Target(site, locator) == Some(r.post.id) && r.post.audio && Accessible(r.post.file) &&
      !SmallDirect(r.post, req) && Lower(Extension(r.post.path)) in AllowedTypes(settings) &&
      |r.post.file.data| <= MaxMb(settings) * OneMiB)
    ensures r.SendTo? ==> exists p: Post :: (Target(site, locator) == Some(p.id as int) && GetPost(site, p.id) == Some(p) &&
      p.audio && Accessible(p.file) && SmallDirect(p, req) && r.url == p.url)
    ensures r.Refuse? ==> r.status in {403, 404}
  {
    match Target(site, locator)
    case None => Refuse(404, "file_not_found")
    case Some(id) =>
      var post := if id > 0 then GetPost(site, id) else None;
      if post.None? || !post.value.audio then Refuse(404, "invalid_attachment")
      else
        var p := post.value;
        if !Accessible(p.file) then Refuse(404, "file_not_found")
        else if SmallDirect(p, req) then SendTo(p.url)
        else if Lower(Extension(p.path)) !in AllowedTypes(settings) then Refuse(403, "invalid_file_type")
        else if |p.file.data| > MaxMb(settings) * OneMiB then Refuse(403, "file_too_large")
        else Serve(p)
  }

  /**
   * Unlike the REST copy, this redirect ignores the extension: any small
   * audio attachment fetched by GET without a range is redirected,
   * whatever the allow-list and the cap say.
   */
  lemma RedirectIgnoresType(settings: map<string, Value>, site: Site, n: nat, req: Request)
    requires n > 0 && GetPost(site, n).Some?
    requires var p := GetPost(site, n).value; p.audio && Accessible(p.file) && SmallDirect(p, req)
    ensures Policy(settings, site, NatToString(n), req) == SendTo(GetPost(site, n).value.url)
  {
    TargetOfId(site, n);
  }

  /**
   * With the cap left empty, an allowed audio file that is not redirected is
   * served up to exactly 2048 MiB and refused as too large from one byte more.
   */
  lemma SizeGateBoundary(settings: map<string, Value>, site: Site, locator: string, req: Request, n: nat)
    requires Empty(Lookup(settings, "max_file_size"))
    requires n > 0 && Target(site, locator) == Some(n) && GetPost(site, n).Some?
    requires var p := GetPost(site, n).value;
      p.audio && Accessible(p.file) && !SmallDirect(p, req) && Lower(Extension(p.path)) in AllowedTypes(settings)
    ensures var p := GetPost(site, n).value;
      |p.file.data| <= 2147483648 ==> Policy(settings, site, locator, req) == Serve(p)
    ensures var p := GetPost(site, n).value;
      |p.file.data| > 2147483648 ==> Policy(settings, site, locator, req) == Refuse(403, "file_too_large")
  {
    assert MaxMb(settings) * OneMiB == 2147483648;
  }

  /*
   * The explode-based range parse
   */

  /** A string holding the delimiter splits into at least two pieces. */
  lemma SplitOfDelimited(s: string, d: char)
    requires d in s
    ensures |Split(s, d)| >= 2
  {
    JoinSplit(s, d);
  }

  /**
   * The range outcome: no header gives the whole file; "bytes=" removed
   * (case-sensitively, everywhere), a missing '-' is a 400; start is
   * intval(left), end is intval(right) when right is truthy, else size-1.
   */
  function ParseRange(header: Option<string>, size: nat): (r: RangeOutcome)
    ensures r.Whole? <==> header.None?
    ensures r.Malformed? <==> header.Some? && '-' !in Replace(header.value, "bytes=", "")
    ensures r.Partial? ==> r.first <= r.last < size
  {
    if header.None? then Whole
    else
      var rest := Replace(header.value, "bytes=", "");
      if '-' !in rest then Malformed
      else
        SplitOfDelimited(rest, '-');
        var parts := Split(rest, '-');
        IntValNonNegative(parts[0]);
        var start := IntVal(parts[0]);
        var end := if !EmptyString(parts[1]) then IntVal(parts[1]) else size - 1;
        ValidateRange(start, end, size)
  }

  lemma NoLowerB(s: string)
    requires forall i | 0 <= i < |s| :: s[i] != 'b'
    ensures !Contains(s, "bytes=")
  {
    forall i: nat | i <= |s| ensures !OccursAt(s, "bytes=", i) {
      if i + 6 <= |s| {
        assert s[i..i + 6][0] == s[i] != "bytes="[0];
      }
    }
  }

  /** The header "bytes=" + a + "-" + b reaches the piece split as [a, b]. */
  lemma PiecesOfHeader(a: string, b: string)
    requires AllDigits(a) && AllDigits(b)
    ensures Replace("bytes=" + a + "-" + b, "bytes=", "") == a + "-" + b
    ensures Split(a + "-" + b, '-') == [a, b]
  {
    var t := a + "-" + b;
    forall i | 0 <= i < |t| ensures t[i] != 'b' {
      if i < |a| { assert t[i] == a[i]; } else if i > |a| { assert t[i] == b[i - |a| - 1]; }
    }
    NoLowerB(t);
    ReplaceAbsent(t, "bytes=", "");
    var h := "bytes=" + a + "-" + b;
    assert h == "bytes=" + t;
    assert h[..6] == "bytes=" && h[6..] == t;
    SplitAfterPiece(a, '-', b);
    SplitWithoutDelimiter(b, '-');
  }

  /** A client's `bytes=a-b`: an end of 0 is falsy and so means the last byte, exactly as in the regex copies. */
  lemma ParseRangeSpelled(a: nat, b: nat, size: nat)
    ensures ParseRange(Some("bytes=" + NatToString(a) + "-" + NatToString(b)), size) ==
      ValidateRange(a, if b == 0 then size - 1 else b, size)
  {
    var sa, sb := NatToString(a), NatToString(b);
    assert IntVal(sa) == a by { IntValOfNatToString(a); }
    assert (if !EmptyString(sb) then IntVal(sb) else size - 1) == (if b == 0 then size - 1 else b) by {
      IntValOfNatToString(b);
      DecimalValueOfNatToString(b);
      if b == 0 { assert NatToString(0) == "0"; }
    }
    ParseRangePieces(sa, sb, size, a, if b == 0 then size - 1 else b);
  }

  /** `bytes=-N` is read as start 0, not as the suffix form of section 2.1 of RFC 7233. */
  lemma ParseRangeDashN(n: nat, size: nat)
    requires n >= 1 && size > 0
    ensures ParseRange(Some("bytes=-" + NatToString(n)), size) == Partial(0, Min(n, size - 1))
  {
    var sn := NatToString(n);
    assert "bytes=-" + sn == "bytes=" + "" + "-" + sn;
    assert IntVal("") == 0;
    assert !EmptyString(sn) && IntVal(sn) == n by {
      IntValOfNatToString(n);
      DecimalValueOfNatToString(n);
    }
    ParseRangePieces("", sn, size, 0, n);
  }

  /** A header "bytes=" + a + "-" + b of digit runs: the start is a's value, the end b's unless b is empty(). */
  lemma ParseRangePieces(a: string, b: string, size: nat, start: nat, end: int)
    requires AllDigits(a) && AllDigits(b) && IntVal(a) == start
    requires end == if !EmptyString(b) then IntVal(b) else size - 1
    ensures ParseRange(Some("bytes=" + a + "-" + b), size) == ValidateRange(start, end, size)
  {
    PiecesOfHeader(a, b);
    assert '-' in a + "-" + b by {
      assert (a + "-" + b)[|a|] == '-';
    }
  }

  predicate Avoids(s: string, c: char) { forall i | 0 <= i < |s| :: s[i] != c }

  lemma AvoidsConcat(s: string, t: string, c: char)
    requires Avoids(s, c) && Avoids(t, c)
    ensures Avoids(s + t, c)
  {
    forall i | 0 <= i < |s + t| ensures (s + t)[i] != c {
      if i < |s| { assert (s + t)[i] == s[i]; } else { assert (s + t)[i] == t[i - |s|]; }
    }
  }

  /** The piece split of `bytes=` + x + `-` + b, for pieces free of 'b' and '-'. */
  lemma PiecesOfFreeHeader(x: string, b: string)
    requires Avoids(x, 'b') && Avoids(x, '-') && Avoids(b, 'b') && Avoids(b, '-')
    ensures Replace("bytes=" + x + "-" + b, "bytes=", "") == x + "-" + b
    ensures Split(x + "-" + b, '-') == [x, b]
    ensures '-' in x + "-" + b
  {
    var t := x + "-" + b;
    AvoidsConcat(x, "-", 'b');
    AvoidsConcat(x + "-", b, 'b');
    NoLowerB(t);
    ReplaceAbsent(t, "bytes=", "");
    var h := "bytes=" + x + "-" + b;
    assert h == "bytes=" + t;
    assert h[..6] == "bytes=" && h[6..] == t;
    SplitAfterPiece(x, '-', b);
    SplitWithoutDelimiter(b, '-');
    assert t[|x|] == '-';
  }

  /** A start piece in exponent form is read as PHP's intval() reads it: `bytes=1e3-` starts at byte 1000. */
  lemma ParseRangeExponent(a: string, p: string, b: string, size: nat)
    requires AllDigits(a) && a != [] && AllDigits(p) && p != [] && AllDigits(b)
    ensures ParseRange(Some("bytes=" + (a + ("e" + (p + ""))) + "-" + b), size) ==
      ValidateRange(DecimalValue(a) * Pow10(DecimalValue(p)), if !EmptyString(b) then IntVal(b) else size - 1, size)
  {
    var x := a + ("e" + (p + ""));
    assert IntVal(x) == DecimalValue(a) * Pow10(DecimalValue(p)) by { IntValOfExponent(a, p, ""); }
    assert Avoids(x, 'b') && Avoids(x, '-') by {
      assert p + "" == p;
      AvoidsConcat("e", p, 'b');
      AvoidsConcat(a, "e" + p, 'b');
      AvoidsConcat("e", p, '-');
      AvoidsConcat(a, "e" + p, '-');
    }
    PiecesOfFreeHeader(x, b);
  }

  /** An empty Range header is a 400 here (the header is set, so it is parsed), though the regex copies serve the whole file. */
  lemma EmptyHeaderIsMalformed(size: nat)
    ensures ParseRange(Some(""), size) == Malformed
  {
  }

  /*
   * The ftell-driven read loop
   */

  /**
   * What the loop echoes with the handle at pos: it runs while not at end
   * of file and pos <= end; the buffer shrinks to end-pos+1 for the last
   * read and stays shrunk; a false read ends it. connection_aborted() is
   * not consulted, because ignore_user_abort(true) makes the test fail.
   */
  function Ftell(data: seq<int>, pos: nat, end: int, buffer: nat, k: nat, io: Io): seq<int>
    requires buffer > 0
    decreases |data| - pos
  {
    if io.eof(k) || pos > end || pos >= |data| then []
    else
      var want := NextBuffer(pos, end, buffer);
      if io.readFails(k) then []
      else
        var chunk := Read(data, pos, want);
        chunk + Ftell(data, pos + |chunk|, end, want, k + 1, io)
  }

  predicate FtellStops(data: seq<int>, pos: nat, end: int, k: nat, io: Io) {
    io.eof(k) || pos > end || pos >= |data|
  }

  function NextBuffer(pos: nat, end: int, buffer: nat): (r: nat)
    requires pos <= end && buffer > 0
    ensures 0 < r <= buffer && pos + r <= end + 1
  {
    if pos + buffer > end then end - pos + 1 else buffer
  }

  lemma FtellAdvance(data: seq<int>, pos: nat, end: int, buffer: nat, k: nat, io: Io, out: seq<int>, whole: seq<int>)
    requires buffer > 0 && !FtellStops(data, pos, end, k, io) && !io.readFails(k)
    requires SentThenRest(out, Ftell(data, pos, end, buffer, k, io), whole)
    ensures var chunk := Read(data, pos, NextBuffer(pos, end, buffer));
      SentThenRest(out + chunk, Ftell(data, pos + |chunk|, end, NextBuffer(pos, end, buffer), k + 1, io), whole)
  {
    var want := NextBuffer(pos, end, buffer);
    var chunk := Read(data, pos, want);
    assert Ftell(data, pos, end, buffer, k, io) == chunk + Ftell(data, pos + |chunk|, end, want, k + 1, io);
  }

  method SendFrom(data: seq<int>, start: nat, end: int, io: Io) returns (out: seq<int>, sent: nat)
    ensures out == Ftell(data, start, end, InitialBuffer, 0, io)
    ensures sent == |out|
  {
    out, sent := [], 0;
    var pos, buffer, k := start, InitialBuffer, 0;
    ghost var whole := Ftell(data, start, end, InitialBuffer, 0, io);
    NothingSent(whole);
    while !FtellStops(data, pos, end, k, io)
      invariant pos == start + sent && sent == |out| && buffer > 0
      invariant SentThenRest(out, Ftell(data, pos, end, buffer, k, io), whole)
      decreases |data| - pos
    {
      if io.readFails(k) {
        break;
      }
      var want := NextBuffer(pos, end, buffer);
      var chunk := Read(data, pos, want);
      FtellAdvance(data, pos, end, buffer, k, io, out, whole);
      out, sent, buffer := out + chunk, sent + |chunk|, want;
      pos, k := pos + |chunk|, k + 1;
    }
    FtellDone(data, pos, end, buffer, k, io, out, whole);
  }

  lemma FtellDone(data: seq<int>, pos: nat, end: int, buffer: nat, k: nat, io: Io, out: seq<int>, whole: seq<int>)
    requires buffer > 0 && (FtellStops(data, pos, end, k, io) || io.readFails(k))
    requires SentThenRest(out, Ftell(data, pos, end, buffer, k, io), whole)
    ensures out == whole
  {
    assert Ftell(data, pos, end, buffer, k, io) == [];
    NothingLeft(out, whole);
  }

  /** The loop sends consecutive bytes from pos and never passes end. */
  lemma {:induction false} FtellSlice(data: seq<int>, pos: nat, end: int, buffer: nat, k: nat, io: Io)
    requires buffer > 0 && pos <= |data|
    ensures var r := Ftell(data, pos, end, buffer, k, io);
      pos + |r| <= |data| && r == data[pos..pos + |r|] && (r != [] ==> pos + |r| <= end + 1)
    decreases |data| - pos
  {
    if !(FtellStops(data, pos, end, k, io) || io.readFails(k)) {
      var want := NextBuffer(pos, end, buffer);
      var chunk := Read(data, pos, want);
      FtellSlice(data, pos + |chunk|, end, want, k + 1, io);
      var rest := Ftell(data, pos + |chunk|, end, want, k + 1, io);
      assert Ftell(data, pos, end, buffer, k, io) == chunk + rest;
      AdjacentSlices(data, pos, chunk, rest);
    }
  }

  /** Without a fault the loop ends at position end+1, having sent exactly bytes pos .. end. */
  lemma {:induction false} FtellComplete(data: seq<int>, pos: nat, end: int, buffer: nat, k: nat, io: Io)
    requires buffer > 0 && Faultless(io) && pos <= end + 1 && end < |data|
    ensures Ftell(data, pos, end, buffer, k, io) == data[pos..end + 1]
    decreases |data| - pos
  {
    if pos <= end {
      assert !io.eof(k) && !io.readFails(k);
      var want := NextBuffer(pos, end, buffer);
      var chunk := Read(data, pos, want);
      var rest := Ftell(data, pos + |chunk|, end, want, k + 1, io);
      assert rest == data[pos + |chunk|..end + 1] by {
        FtellComplete(data, pos + |chunk|, end, want, k + 1, io);
      }
      assert Ftell(data, pos, end, buffer, k, io) == chunk + rest;
      JoinSlices(data, pos, pos + |chunk|, end + 1, chunk, rest, Ftell(data, pos, end, buffer, k, io));
    }
  }

  /** The client's connection state never changes what is sent. */
  lemma {:induction false} FtellIgnoresConnection(data: seq<int>, pos: nat, end: int, buffer: nat, k: nat, io: Io, connected: nat -> bool)
    requires buffer > 0
    ensures Ftell(data, pos, end, buffer, k, io) == Ftell(data, pos, end, buffer, k, io.(connected := connected))
    decreases |data| - pos
  {
    var io' := io.(connected := connected);
    if !(FtellStops(data, pos, end, k, io) || io.readFails(k)) {
      var want := NextBuffer(pos, end, buffer);
      var chunk := Read(data, pos, want);
      FtellIgnoresConnection(data, pos + |chunk|, end, want, k + 1, io, connected);
      assert Ftell(data, pos, end, buffer, k, io') == chunk + Ftell(data, pos + |chunk|, end, want, k + 1, io');
    }
  }

  /*
   * stream_audio_file
   */

  /** The content type: the post's MIME type, else what mime_content_type() found, else the table, else octet-stream. */
  function ContentType(p: Post, sniffed: string): (r: string)
    ensures !EmptyString(p.mime) ==> r == p.mime
    ensures EmptyString(p.mime) && !EmptyString(sniffed) ==> r == sniffed
    ensures EmptyString(p.mime) && EmptyString(sniffed) ==>
      r == (var t := AudioMimeFor(Lower(Extension(p.path))); if t.Some? then t.value else OctetStream)
  {
    if !EmptyString(p.mime) then p.mime
    else if !EmptyString(sniffed) then sniffed
    else
      var t := AudioMimeFor(Lower(Extension(p.path)));
      if t.Some? then t.value else OctetStream
  }

  /** The status, Content-Range and body of a satisfiable outcome. */
  function Deliver(data: seq<int>, mime: string, o: RangeOutcome, io: Io): (r: Response)
    requires o.Whole? || (o.Partial? && o.first <= o.last < |data|)
  {
    var size := |data|;
    var start := FirstByte(o);
    var end: int := if o.Partial? then o.last else size - 1;
    var length := Length(o, size);
    var status := if o.Partial? then 206 else 200;
    var range := if o.Partial? then Some(Satisfied(o.first, o.last, size)) else None;
    if io.openFails then Response(500, Some(mime), range, Some(length), None, None, TextBytes(OpenFailedText))
    else Response(status, Some(mime), range, Some(length), None, None, Ftell(data, start, end, InitialBuffer, 0, io))
  }

  /** The response stream_audio_file produces; Content-Type is sent before the range is looked at. */
  function Stream(f: DiskFile, mime: string, req: Request, io: Io): Response {
    var size := |f.data|;
    if !f.present then Exit(404, NotFoundText)
    else if IsHead(req) then Response(200, Some(mime), None, Some(size), None, None, [])
    else
      var o := ParseRange(req.range, size);
      if o.Malformed? then Response(400, Some(mime), None, None, None, None, TextBytes(InvalidRangeText))
      else if o.NotSatisfiable? then Response(416, Some(mime), Some(Unsatisfied(size)), None, None, None, [])
      else Deliver(f.data, mime, o, io)
  }

  method StreamAudioFile(f: DiskFile, mime: string, req: Request, io: Io) returns (r: Response)
    ensures r == Stream(f, mime, req, io)
  {
    var size := |f.data|;
    if !f.present {
      return Exit(404, NotFoundText);
    }
    if IsHead(req) {
      return Response(200, Some(mime), None, Some(size), None, None, []);
    }
    var o := ParseRange(req.range, size);
    if o.Malformed? {
      return Response(400, Some(mime), None, None, None, None, TextBytes(InvalidRangeText));
    }
    if o.NotSatisfiable? {
      return Response(416, Some(mime), Some(Unsatisfied(size)), None, None, None, []);
    }
    var start := FirstByte(o);
    var end: int := if o.Partial? then o.last else size - 1;
    var length := Length(o, size);
    var status := if o.Partial? then 206 else 200;
    var range := if o.Partial? then Some(Satisfied(o.first, o.last, size)) else None;
    if io.openFails {
      return Response(500, Some(mime), range, Some(length), None, None, TextBytes(OpenFailedText));
    }
    var body, sent := SendFrom(f.data, start, end, io);
    r := Response(status, Some(mime), range, Some(length), None, None, body);
  }

  lemma DeliverLaws(data: seq<int>, mime: string, o: RangeOutcome, io: Io)
    requires o.Whole? || (o.Partial? && o.first <= o.last < |data|)
    ensures var r := Deliver(data, mime, o, io);
      var first := FirstByte(o);
      var length := Length(o, |data|);
      r.status in {200, 206, 500} &&
      r.contentLength == Some(length) &&
      (o.Partial? ==> r.contentRange == Some(Satisfied(o.first, o.last, |data|))) &&
      (o.Whole? ==> r.contentRange.None?) &&
      (r.status == 206 <==> o.Partial? && !io.openFails) &&
      (r.status == 500 <==> io.openFails) &&
      (r.status == 500 ==> r.body == TextBytes(OpenFailedText)) &&
      (r.status != 500 ==> |r.body| <= length && r.body == data[first..first + |r.body|])
  {
    var end: int := if o.Partial? then o.last else |data| - 1;
    FtellSlice(data, FirstByte(o), end, InitialBuffer, 0, io);
  }

  lemma DeliverFaultless(data: seq<int>, mime: string, o: RangeOutcome, io: Io)
    requires o.Whole? || (o.Partial? && o.first <= o.last < |data|)
    requires Faultless(io)
    ensures Deliver(data, mime, o, io).body == data[FirstByte(o)..FirstByte(o) + Length(o, |data|)]
  {
    var end: int := if o.Partial? then o.last else |data| - 1;
    FtellComplete(data, FirstByte(o), end, InitialBuffer, 0, io);
  }

  /** A 206 names the parsed interval inside the file, its Content-Length is the interval's length and its body a prefix of it. */
  lemma StreamPartial(f: DiskFile, mime: string, req: Request, io: Io)
    ensures var r := Stream(f, mime, req, io);
      var o := ParseRange(req.range, |f.data|);
      r.status == 206 ==> (o.Partial? && o.first <= o.last < |f.data| &&
        r.contentRange == Some(Satisfied(o.first, o.last, |f.data|)) &&
        r.contentLength == Some(o.last - o.first + 1) && r.body <= f.data[o.first..o.last + 1])
  {
    var r := Stream(f, mime, req, io);
    var o := ParseRange(req.range, |f.data|);
    if r.status == 206 {
      assert o.Partial? && r == Deliver(f.data, mime, o, io) by {
        StreamShape(f, mime, req, io);
      }
      assert o.first <= o.last < |f.data|;
      assert !io.openFails by { DeliverStatus(f.data, mime, o, io); }
      assert r.contentRange == Some(Satisfied(o.first, o.last, |f.data|)) &&
        r.contentLength == Some(o.last - o.first + 1) && r.body <= f.data[o.first..o.last + 1] by {
        PartialLaws(r, f.data, mime, o, io);
      }
    }
  }

  /** Deliver answers 500 when the file does not open, else 206 for a range and 200 for the whole file. */
  lemma DeliverStatus(data: seq<int>, mime: string, o: RangeOutcome, io: Io)
    requires o.Whole? || (o.Partial? && o.first <= o.last < |data|)
    ensures Deliver(data, mime, o, io).status == if io.openFails then 500 else if o.Partial? then 206 else 200
  {
  }

  /** A 206 comes only from Deliver on a satisfiable range of a present file, fetched by GET. */
  lemma StreamShape(f: DiskFile, mime: string, req: Request, io: Io)
    ensures var o := ParseRange(req.range, |f.data|);
      Stream(f, mime, req, io).status == 206 ==>
        f.present && !IsHead(req) && o.Partial? && Stream(f, mime, req, io) == Deliver(f.data, mime, o, io)
  {
    if f.present && !IsHead(req) {
      var o := ParseRange(req.range, |f.data|);
      if o.Whole? || o.Partial? {
        DeliverStatus(f.data, mime, o, io);
      }
    }
  }

  /** A response Deliver gives for a range: the interval it names, its length, and a body that is a prefix of it. */
  lemma PartialLaws(r: Response, data: seq<int>, mime: string, o: RangeOutcome, io: Io)
    requires o.Partial? && o.first <= o.last < |data| && r == Deliver(data, mime, o, io) && !io.openFails
    ensures r.contentRange == Some(Satisfied(o.first, o.last, |data|)) && r.contentLength == Some(o.last - o.first + 1) &&
      r.body <= data[o.first..o.last + 1]
  {
    DeliverLaws(data, mime, o, io);
    assert data[o.first..o.last + 1][..|r.body|] == r.body;
  }

  /** A 200 to GET comes only without a Range header, declares the whole size and sends a prefix of the file. */
  lemma StreamWhole(f: DiskFile, mime: string, req: Request, io: Io)
    ensures var r := Stream(f, mime, req, io);
      r.status == 200 && !IsHead(req) ==> (req.range.None? && r.contentLength == Some(|f.data|) &&
        r.contentRange.None? && |r.body| <= |f.data| && r.body == f.data[..|r.body|])
  {
    if f.present && !IsHead(req) {
      var o := ParseRange(req.range, |f.data|);
      if o.Whole? || o.Partial? {
        assert Stream(f, mime, req, io) == Deliver(f.data, mime, o, io);
        DeliverLaws(f.data, mime, o, io);
      }
    }
  }

  /**
   * The error statuses and what causes each: a missing file is a 404, a malformed Range header
   * on a GET is a 400 and a file that does not open a 500; each exits with
   * its text.
   */
  lemma StreamErrors(f: DiskFile, mime: string, req: Request, io: Io)
    ensures var r := Stream(f, mime, req, io);
      var o := ParseRange(req.range, |f.data|);
      (r.status == 404 <==> !f.present) &&
      (r.status == 404 ==> r.body == TextBytes(NotFoundText)) &&
      (r.status == 400 <==> f.present && !IsHead(req) && o.Malformed?) &&
      (r.status == 400 ==> r.body == TextBytes(InvalidRangeText)) &&
      (r.status == 500 <==> f.present && !IsHead(req) && (o.Whole? || o.Partial?) && io.openFails) &&
      (r.status == 500 ==> r.body == TextBytes(OpenFailedText))
  {
    if f.present && !IsHead(req) {
      var o := ParseRange(req.range, |f.data|);
      if o.Whole? || o.Partial? {
        DeliverLaws(f.data, mime, o, io);
      }
    }
  }

  /** A 416 names the complete length and sends nothing; no other status occurs. */
  lemma StreamStatuses(f: DiskFile, mime: string, req: Request, io: Io)
    ensures var r := Stream(f, mime, req, io);
      r.status == 416 ==> r.contentRange == Some(Unsatisfied(|f.data|)) && r.body == []
    ensures Stream(f, mime, req, io).status in {200, 206, 400, 404, 416, 500}
  {
    if f.present && !IsHead(req) {
      var o := ParseRange(req.range, |f.data|);
      if o.Whole? || o.Partial? {
        DeliverLaws(f.data, mime, o, io);
      }
    }
  }

  /** Without a fault, a 206 carries exactly the interval it names: a prefix of it, of its full length. */
  lemma StreamPartialFaultless(f: DiskFile, mime: string, req: Request, io: Io)
    requires Faultless(io)
    ensures var r := Stream(f, mime, req, io);
      var o := ParseRange(req.range, |f.data|);
      r.status == 206 ==> o.Partial? && r.body <= f.data[o.first..o.last + 1] && |r.body| == o.last - o.first + 1
  {
    StreamPartial(f, mime, req, io);
    PartialLengthFaultless(f, mime, req, io);
  }

  lemma PartialLengthFaultless(f: DiskFile, mime: string, req: Request, io: Io)
    requires Faultless(io)
    ensures var r := Stream(f, mime, req, io);
      var o := ParseRange(req.range, |f.data|);
      r.status == 206 ==> o.Partial? && |r.body| == o.last - o.first + 1
  {
    StreamShape(f, mime, req, io);
    DeliverPartialLength(f.data, mime, ParseRange(req.range, |f.data|), io);
  }

  /** Without a fault, a 206 from Deliver is as long as the interval. */
  lemma DeliverPartialLength(data: seq<int>, mime: string, o: RangeOutcome, io: Io)
    requires Faultless(io)
    ensures o.Partial? && o.first <= o.last < |data| ==> |Deliver(data, mime, o, io).body| == o.last - o.first + 1
  {
    if o.Partial? && o.first <= o.last < |data| {
      DeliverFaultless(data, mime, o, io);
    }
  }

  /** Without a fault, a 200 to GET carries the whole file. */
  lemma StreamWholeFaultless(f: DiskFile, mime: string, req: Request, io: Io)
    requires Faultless(io)
    ensures var r := Stream(f, mime, req, io);
      r.status == 200 && !IsHead(req) ==> r.body == f.data
  {
    if f.present && !IsHead(req) {
      var o := ParseRange(req.range, |f.data|);
      if o.Whole? || o.Partial? {
        assert Stream(f, mime, req, io) == Deliver(f.data, mime, o, io);
        DeliverLaws(f.data, mime, o, io);
        DeliverFaultless(f.data, mime, o, io);
      }
    }
  }

  /** The whole route: refuse, redirect, or stream the attachment. */
  function HandleAudioStream(settings: map<string, Value>, site: Site, locator: string, req: Request, sniffed: string, io: Io): Response {
    match Policy(settings, site, locator, req)
    case Refuse(status, _) => Refusal(status)
    case SendTo(url) => Redirect(url)
    case Serve(p) => Stream(p.file, ContentType(p, sniffed), req, io)
  }

  /** The route answers one of eight statuses, 302 exactly when the policy redirects, a bare 404 for a locator naming nothing. */
  lemma HandleStatuses(settings: map<string, Value>, site: Site, locator: string, req: Request, sniffed: string, io: Io)
    ensures HandleAudioStream(settings, site, locator, req, sniffed, io).status in {200, 206, 302, 400, 403, 404, 416, 500}
    ensures HandleAudioStream(settings, site, locator, req, sniffed, io).status == 302 <==> Policy(settings, site, locator, req).SendTo?
    ensures Target(site, locator).None? ==> HandleAudioStream(settings, site, locator, req, sniffed, io) == Refusal(404)
  {
    var d := Policy(settings, site, locator, req);
    if d.Serve? {
      StreamStatuses(d.post.file, ContentType(d.post, sniffed), req, io);
    }
  }

  /*
   * resolve_filename_to_id
   */

  datatype Resolution = Found(id: nat, via: string) | Missing(status: nat, code: string)

  /** An empty parameter is a 400; then a meta LIKE on the basename, then a search on it without its extension. */
  function ResolveFilename(site: Site, filename: string): (r: Resolution)
    ensures EmptyString(filename) ==> r == Missing(400, "missing_filename")
    ensures !EmptyString(filename) && QueryByMeta(site, Basename(filename)).Some? ==>
      r == Found(QueryByMeta(site, Basename(filename)).value, "file_metadata")
    ensures !EmptyString(filename) && QueryByMeta(site, Basename(filename)).None? ==>
      r == (var s := QueryBySearch(site, StripExtension(Basename(filename)));
            if s.Some? then Found(s.value, "title_search") else Missing(404, "file_not_found"))
  {
    if EmptyString(filename) then Missing(400, "missing_filename")
    else
      var name := Basename(filename);
      var byMeta := QueryByMeta(site, name);
      if byMeta.Some? then Found(byMeta.value, "file_metadata")
      else
        var bySearch := QueryBySearch(site, StripExtension(name));
        if bySearch.Some? then Found(bySearch.value, "title_search") else Missing(404, "file_not_found")
  }

  /** The resolver answers 404 exactly when neither search has a hit. */
  lemma ResolveMissingExactly(site: Site, filename: string)
    requires !EmptyString(filename)
    ensures ResolveFilename(site, filename).Missing? <==>
      (forall row | row in site.attachedFiles :: !(Like(row.attachedFile, Basename(filename)) && AttachmentRow(site, row))) &&
      (forall p | p in site.posts :: !(IsAttachment(p) && Like(p.title, StripExtension(Basename(filename)))))
  {
  }

  /** For "dir/stem.ext" the fallback searches the titles for the stem. */
  lemma FallbackSearchesStem(dir: string, stem: string, ext: string)
    requires forall i | 0 <= i < |stem| :: stem[i] != '/'
    requires ext != [] && forall i | 0 <= i < |ext| :: ext[i] != '.' && ext[i] != '/'
    ensures StripExtension(Basename(dir + "/" + stem + "." + ext)) == stem
  {
    var name := stem + "." + ext;
    assert dir + "/" + stem + "." + ext == dir + "/" + name;
    forall i | 0 <= i < |name| ensures name[i] != '/' {
      if i < |stem| { assert name[i] == stem[i]; } else if i > |stem| { assert name[i] == ext[i - |stem| - 1]; }
    }
    BasenameOfPath(dir, name);
    StripExtensionOf(stem, ext);
  }
}
