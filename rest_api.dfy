// The plugin's REST controller (`jetengine-audio-stream/v1`): the play
// route's id, the delivery policy of handle_stream_request, the range
// handling and read loop of stream_audio_file, get_mime_type, and the
// resolve-id route.

module RestApi {
  import opened Wrappers
  import opened Text
  import opened Php
  import opened Http
  import opened RangePattern
  import opened Library
  import opened Functions

  /** The read loop's buffer: 512 KiB. */
  const StreamBuffer: nat := 524288

  /** Complete files shorter than this are sent with readfile(). */
  const ReadfileLimit: nat := 1048576

  /*
   * The play route
   */

  /** `play/(?P<id>\d+)`: digits only, then is_numeric() && intval() > 0, then absint(). */
  function PlayRouteId(segment: string): (r: Option<nat>)
    ensures r.Some? <==> segment != [] && AllDigits(segment) && DecimalValue(segment) > 0
    ensures r.Some? ==> r.value == DecimalValue(segment)
  {
    if segment != [] && AllDigits(segment) then
      IsNumericOfDigits(segment);
      IntValOfDigitString(segment);
      if IsNumeric(segment) && IntVal(segment) > 0 then Some(AbsInt(Str(segment))) else None
    else None
  }

  /** The id a client writes into the route comes back unchanged. */
  lemma PlayRouteRoundTrip(n: nat)
    requires n > 0
    ensures PlayRouteId(NatToString(n)) == Some(n)
  {
    DecimalValueOfNatToString(n);
  }

  /*
   * get_mime_type
   */

  /** The table by lower-cased extension, else the WordPress file type, else application/octet-stream. */
  function MimeType(path: string, wpType: string): (r: string)
    ensures r != ""
    ensures AudioMimeFor(Lower(Extension(path))).Some? ==> r == AudioMimeFor(Lower(Extension(path))).value
    ensures AudioMimeFor(Lower(Extension(path))).None? ==> r == (if EmptyString(wpType) then OctetStream else wpType)
  {
    var known := AudioMimeFor(Lower(Extension(path)));
    if known.Some? then known.value
    else if !EmptyString(wpType) then wpType
    else OctetStream
  }

  /** Upper-case extensions map like lower-case ones, whatever WordPress would say. */
  lemma MimeTypeOfUpperCaseMp3(dir: string, stem: string, wpType: string)
    requires forall i | 0 <= i < |stem| :: stem[i] != '/'
    ensures MimeType(dir + "/" + stem + ".MP3", wpType) == "audio/mpeg"
  {
    assert dir + "/" + stem + ".MP3" == dir + "/" + stem + "." + "MP3";
    ExtensionOf(dir, stem, "MP3");
    assert Lower("MP3") == "mp3" by {
      assert Lower("3") == "3";
      assert Lower("P3") == "p3";
    }
  }

  /** stream_audio_file's type: the post's MIME type when truthy, else get_mime_type(). */
  function ContentType(p: Post, wpType: string -> string): (r: string)
    ensures !EmptyString(p.mime) ==> r == p.mime
    ensures EmptyString(p.mime) ==> r == MimeType(p.path, wpType(p.path))
  {
    if !EmptyString(p.mime) then p.mime else MimeType(p.path, wpType(p.path))
  }

  /*
   * Range handling
   */

  /**
   * The range outcome: only a truthy header is parsed (null, "" and "0"
   * give the whole file), a header the pattern does not match is a 400,
   * and the groups go through empty() and intval().
   */
  function RangeFor(header: Option<string>, size: nat): (r: RangeOutcome)
    ensures r.Whole? <==> header.None? || EmptyString(header.value)
    ensures r.Malformed? <==> header.Some? && !EmptyString(header.value) && Match(header.value).None?
    ensures r.Partial? ==> r.first <= r.last < size
  {
    if header.None? || EmptyString(header.value) then Whole
    else match Match(header.value)
      case None => Malformed
      case Some(g) =>
        var b := Bounds(g, size);
        ValidateRange(b.0, b.1, size)
  }

  /** A truthy header the pattern matches is validated on its two groups. */
  lemma RangeForMatched(h: string, size: nat, g: Groups)
    requires !EmptyString(h) && Match(h) == Some(g)
    ensures RangeFor(Some(h), size) == ValidateRange(Bounds(g, size).0, Bounds(g, size).1, size)
  {
  }

  /** A client's header is validated on the bounds it spells. */
  lemma RangeForHeader(first: Option<nat>, last: Option<nat>, size: nat)
    ensures RangeFor(Some(Header(first, last)), size) ==
      ValidateRange(if first.Some? then first.value else 0, if last.Some? && last.value != 0 then last.value else size - 1, size)
  {
    var h, g := Header(first, last), Groups(Spelled(first), Spelled(last));
    assert Match(h) == Some(g) && !EmptyString(h) by {
      MatchHeader(first, last);
      assert |h| > 1;
    }
    assert RangeFor(Some(h), size) == ValidateRange(Bounds(g, size).0, Bounds(g, size).1, size) by {
      RangeForMatched(h, size, g);
    }
    BoundsOfHeader(first, last, size);
  }

  /**
   * A client's `bytes=a-b` is served as RFC 7233 asks, except that an end of
   * 0 counts as absent (PHP empty("0")) and so means the last byte.
   */
  lemma RangeForSpelled(a: nat, b: nat, size: nat)
    ensures RangeFor(Some(Header(Some(a), Some(b))), size) == ValidateRange(a, if b == 0 then size - 1 else b, size)
  {
    RangeForHeader(Some(a), Some(b), size);
  }

  /** `bytes=a-` runs to the last byte, as section 2.1 of RFC 7233 says. */
  lemma RangeForOpenEnded(a: nat, size: nat)
    ensures RangeFor(Some(Header(Some(a), None)), size) == ValidateRange(a, size - 1, size)
  {
    RangeForHeader(Some(a), None, size);
  }

  /** The bound "0" is empty(): `bytes=0-0` yields the whole file rather than its first byte. */
  lemma ZeroZeroServesWholeFile(size: nat)
    requires size > 0
    ensures RangeFor(Some("bytes=0-0"), size) == Partial(0, size - 1)
  {
    assert NatToString(0) == [DigitChar(0)] == "0";
    var h := Header(Some(0), Some(0));
    assert h == "bytes=" + "0" + "-" + "0";
    assert h == "bytes=0-0";
    RangeForSpelled(0, 0, size);
  }

  /** `bytes=-N` is not the suffix form of section 2.1 of RFC 7233: it yields bytes 0..N. */
  lemma DashNIsNotSuffix(n: nat, size: nat)
    requires n >= 1 && size > 0
    ensures RangeFor(Some(Header(None, Some(n))), size) == Partial(0, Min(n, size - 1))
  {
    RangeForHeader(None, Some(n), size);
  }

  /*
   * The read loop
   */

  /** The loop's guard: end of file, the bound reached, or an abnormal connection. */
  predicate Stops(data: seq<int>, start: nat, length: nat, sent: nat, k: nat, io: Io) {
    io.eof(k) || start + sent >= |data| || sent >= length || !io.connected(k)
  }

  /**
   * What the loop echoes from iteration k on, with `sent` bytes already sent
   * from position start: it stops on end of file, once `length` bytes are
   * sent, on an abnormal connection, or when fread() returns false.
   */
  function Pump(data: seq<int>, start: nat, length: nat, sent: nat, k: nat, io: Io): seq<int>
    decreases length - sent
  {
    if Stops(data, start, length, sent, k, io) || io.readFails(k) then []
    else
      var chunk := Read(data, start + sent, Min(StreamBuffer, length - sent));
      chunk + Pump(data, start, length, sent + |chunk|, k + 1, io)
  }

  /** One turn of the loop keeps `out + Pump(...)` fixed. */
  lemma PumpAdvance(data: seq<int>, start: nat, length: nat, sent: nat, k: nat, io: Io, out: seq<int>, whole: seq<int>)
    requires !Stops(data, start, length, sent, k, io) && !io.readFails(k)
    requires SentThenRest(out, Pump(data, start, length, sent, k, io), whole)
    ensures var chunk := Read(data, start + sent, Min(StreamBuffer, length - sent));
      SentThenRest(out + chunk, Pump(data, start, length, sent + |chunk|, k + 1, io), whole)
  {
    var chunk := Read(data, start + sent, Min(StreamBuffer, length - sent));
    assert Pump(data, start, length, sent, k, io) == chunk + Pump(data, start, length, sent + |chunk|, k + 1, io);
  }

  method Send(data: seq<int>, start: nat, length: nat, io: Io) returns (out: seq<int>, sent: nat)
    ensures out == Pump(data, start, length, 0, 0, io)
    ensures sent == |out|
  {
    out, sent := [], 0;
    var k := 0;
    ghost var whole := Pump(data, start, length, 0, 0, io);
    NothingSent(whole);
    while !Stops(data, start, length, sent, k, io)
      invariant sent == |out|
      invariant SentThenRest(out, Pump(data, start, length, sent, k, io), whole)
      decreases length - sent
    {
      if io.readFails(k) {
        break;
      }
      var chunk := Read(data, start + sent, Min(StreamBuffer, length - sent));
      PumpAdvance(data, start, length, sent, k, io, out, whole);
      out, sent, k := out + chunk, sent + |chunk|, k + 1;
    }
    PumpDone(data, start, length, sent, k, io, out, whole);
  }

  /** When the loop stops, the bytes it sent are all it sends. */
  lemma PumpDone(data: seq<int>, start: nat, length: nat, sent: nat, k: nat, io: Io, out: seq<int>, whole: seq<int>)
    requires Stops(data, start, length, sent, k, io) || io.readFails(k)
    requires SentThenRest(out, Pump(data, start, length, sent, k, io), whole)
    ensures out == whole
  {
    assert Pump(data, start, length, sent, k, io) == [];
    NothingLeft(out, whole);
  }

  /** The loop sends consecutive bytes of the file from the start, and never more than length. */
  lemma {:induction false} PumpSlice(data: seq<int>, start: nat, length: nat, sent: nat, k: nat, io: Io)
    requires sent <= length
    ensures var r := Pump(data, start, length, sent, k, io);
      sent + |r| <= length && start + sent + |r| <= |data| ==> r == data[start + sent..start + sent + |r|]
    ensures var r := Pump(data, start, length, sent, k, io);
      sent + |r| <= length && (start + sent <= |data| ==> start + sent + |r| <= |data|)
    decreases length - sent
  {
    var pos := start + sent;
    if !(Stops(data, start, length, sent, k, io) || io.readFails(k)) {
      var chunk := Read(data, pos, Min(StreamBuffer, length - sent));
      PumpSlice(data, start, length, sent + |chunk|, k + 1, io);
    }
  }

  /** Without a fault, the loop sends exactly the bytes start .. start+length-1. */
  lemma {:induction false} PumpComplete(data: seq<int>, start: nat, length: nat, sent: nat, k: nat, io: Io)
    requires Faultless(io) && sent <= length && start + length <= |data|
    ensures Pump(data, start, length, sent, k, io) == data[start + sent..start + length]
    decreases length - sent
  {
    if sent < length {
      var n := |Read(data, start + sent, Min(StreamBuffer, length - sent))|;
      PumpComplete(data, start, length, sent + n, k + 1, io);
      PumpStep(data, start, length, sent, k, io);
    }
  }

  /** One round without a fault: if the rest of the loop sends the rest of the interval, the loop sends all of it. */
  lemma PumpStep(data: seq<int>, start: nat, length: nat, sent: nat, k: nat, io: Io)
    requires Faultless(io) && sent < length && start + length <= |data|
    requires var n := |Read(data, start + sent, Min(StreamBuffer, length - sent))|;
      Pump(data, start, length, sent + n, k + 1, io) == data[start + sent + n..start + length]
    ensures Pump(data, start, length, sent, k, io) == data[start + sent..start + length]
  {
    var pos := start + sent;
    assert !io.eof(k) && io.connected(k) && !io.readFails(k);
    var chunk := Read(data, pos, Min(StreamBuffer, length - sent));
    var rest := Pump(data, start, length, sent + |chunk|, k + 1, io);
    assert Pump(data, start, length, sent, k, io) == chunk + rest;
    JoinSlices(data, pos, pos + |chunk|, start + length, chunk, rest, Pump(data, start, length, sent, k, io));
  }

  /*
   * stream_audio_file
   */

  /** The status, Content-Range and body for a satisfiable outcome once the file is open. */
  function Deliver(data: seq<int>, mime: string, o: RangeOutcome, io: Io): (r: Response)
    requires o.Whole? || (o.Partial? && o.first <= o.last < |data|)
  {
    var size := |data|;
    var start := FirstByte(o);
    var length := Length(o, size);
    var status := if o.Partial? then 206 else 200;
    var range := if o.Partial? then Some(Satisfied(o.first, o.last, size)) else None;
    if io.openFails then Response(500, Some(mime), range, Some(length), None, None, TextBytes(OpenFailedText))
    else
      var whole := length < ReadfileLimit && start == 0 && start + length == size;
      var body := if whole then data else Pump(data, start, length, 0, 0, io);
      Response(status, Some(mime), range, Some(length), None, None, body)
  }

  /** The response stream_audio_file produces for a file with this content type. */
  function Stream(f: DiskFile, mime: string, req: Request, io: Io): Response {
    var size := |f.data|;
    if !Accessible(f) then Exit(404, NotFoundText)
    else if IsHead(req) then Response(200, Some(mime), None, Some(size), None, None, [])
    else
      var o := RangeFor(req.range, size);
      if o.Malformed? then Exit(400, InvalidRangeText)
      else if o.NotSatisfiable? then Response(416, None, Some(Unsatisfied(size)), None, None, None, [])
      else Deliver(f.data, mime, o, io)
  }

  method StreamAudioFile(f: DiskFile, mime: string, req: Request, io: Io) returns (r: Response)
    ensures r == Stream(f, mime, req, io)
  {
    var size := |f.data|;
    if !Accessible(f) {
      return Exit(404, NotFoundText);
    }
    if IsHead(req) {
      return Response(200, Some(mime), None, Some(size), None, None, []);
    }
    var o := RangeFor(req.range, size);
    if o.Malformed? {
      return Exit(400, InvalidRangeText);
    }
    if o.NotSatisfiable? {
      return Response(416, None, Some(Unsatisfied(size)), None, None, None, []);
    }
    var start := FirstByte(o);
    var length := Length(o, size);
    var status := if o.Partial? then 206 else 200;
    var range := if o.Partial? then Some(Satisfied(o.first, o.last, size)) else None;
    if io.openFails {
      return Response(500, Some(mime), range, Some(length), None, None, TextBytes(OpenFailedText));
    }
    var body;
    if length < ReadfileLimit && start == 0 && start + length == size {
      body := f.data;
    } else {
      var sent;
      body, sent := Send(f.data, start, length, io);
    }
    r := Response(status, Some(mime), range, Some(length), None, None, body);
  }

  /** What Deliver promises: the interval it names, its length, and a body that is a prefix of it. */
  lemma DeliverLaws(data: seq<int>, mime: string, o: RangeOutcome, io: Io)
    requires o.Whole? || (o.Partial? && o.first <= o.last < |data|)
    ensures var r := Deliver(data, mime, o, io);
      var first := FirstByte(o);
      var length := Length(o, |data|);
      r.status in {200, 206, 500} &&
      r.contentLength == Some(length) &&
      (o.Partial? ==> r.contentRange == Some(Satisfied(o.first, o.last, |data|))) &&
      (o.Whole? ==> r.contentRange.None?) &&
      (r.status == 206 <==> o.Partial? && !io.openFails) &&
      (r.status == 500 <==> io.openFails) &&
      (r.status == 500 ==> r.body == TextBytes(OpenFailedText)) &&
      (r.status != 500 ==> |r.body| <= length && r.body == data[first..first + |r.body|])
  {
    var length := Length(o, |data|);
    PumpSlice(data, FirstByte(o), length, 0, 0, io);
  }

  /** A response Deliver gives for a range: the interval it names, its length, and a body that is a prefix of it. */
  lemma PartialLaws(r: Response, data: seq<int>, mime: string, o: RangeOutcome, io: Io)
    requires o.Partial? && o.first <= o.last < |data| && r == Deliver(data, mime, o, io) && !io.openFails
    ensures r.contentRange == Some(Satisfied(o.first, o.last, |data|)) && r.contentLength == Some(o.last - o.first + 1) &&
      r.body <= data[o.first..o.last + 1]
  {
    DeliverLaws(data, mime, o, io);
    assert data[o.first..o.last + 1][..|r.body|] == r.body;
  }

  /** Deliver answers 500 when the file does not open, else 206 for a range and 200 for the whole file. */
  lemma DeliverStatus(data: seq<int>, mime: string, o: RangeOutcome, io: Io)
    requires o.Whole? || (o.Partial? && o.first <= o.last < |data|)
    ensures Deliver(data, mime, o, io).status == if io.openFails then 500 else if o.Partial? then 206 else 200
  {
  }

  /** Without a fault, Deliver sends exactly the interval. */
  lemma DeliverFaultless(data: seq<int>, mime: string, o: RangeOutcome, io: Io)
    requires o.Whole? || (o.Partial? && o.first <= o.last < |data|)
    requires Faultless(io)
    ensures Deliver(data, mime, o, io).body == data[FirstByte(o)..FirstByte(o) + Length(o, |data|)]
  {
    PumpComplete(data, FirstByte(o), Length(o, |data|), 0, 0, io);
  }

  /** A 206 comes only from Deliver on a satisfiable range of a readable file, fetched by GET. */
  lemma StreamShape(f: DiskFile, mime: string, req: Request, io: Io)
    ensures var o := RangeFor(req.range, |f.data|);
      Stream(f, mime, req, io).status == 206 ==>
        Accessible(f) && !IsHead(req) && o.Partial? && Stream(f, mime, req, io) == Deliver(f.data, mime, o, io)
  {
    if Accessible(f) && !IsHead(req) {
      var o := RangeFor(req.range, |f.data|);
      if o.Whole? || o.Partial? {
        DeliverStatus(f.data, mime, o, io);
      }
    }
  }

  /**
   * A 206 names the validated interval, which lies inside the file; its
   * Content-Length is the interval's length and its body a prefix of the
   * interval.
   */
  lemma StreamPartial(f: DiskFile, mime: string, req: Request, io: Io)
    ensures var r := Stream(f, mime, req, io);
      var o := RangeFor(req.range, |f.data|);
      r.status == 206 ==> (o.Partial? && o.first <= o.last < |f.data| &&
        r.contentRange == Some(Satisfied(o.first, o.last, |f.data|)) &&
        r.contentLength == Some(o.last - o.first + 1) && r.body <= f.data[o.first..o.last + 1])
  {
    var r := Stream(f, mime, req, io);
    var o := RangeFor(req.range, |f.data|);
    if r.status == 206 {
      assert o.Partial? && r == Deliver(f.data, mime, o, io) by {
        StreamShape(f, mime, req, io);
      }
      PartialLaws(r, f.data, mime, o, io);
    }
  }

  /** A 200 to GET declares the whole size, no Content-Range, and sends a prefix of the file. */
  lemma StreamWhole(f: DiskFile, mime: string, req: Request, io: Io)
    ensures var r := Stream(f, mime, req, io);
      r.status == 200 && !IsHead(req) ==> (r.contentLength == Some(|f.data|) && r.contentRange.None? &&
        |r.body| <= |f.data| && r.body == f.data[..|r.body|])
  {
    if Accessible(f) && !IsHead(req) {
      var o := RangeFor(req.range, |f.data|);
      if o.Whole? || o.Partial? {
        assert Stream(f, mime, req, io) == Deliver(f.data, mime, o, io);
        DeliverLaws(f.data, mime, o, io);
      }
    }
  }

  /**
   * The error statuses and what causes each: a file that cannot be read is a 404, a malformed Range header
   * on a GET is a 400 and a file that does not open a 500; each exits with
   * its text.
   */
  lemma StreamErrors(f: DiskFile, mime: string, req: Request, io: Io)
    ensures var r := Stream(f, mime, req, io);
      var o := RangeFor(req.range, |f.data|);
      (r.status == 404 <==> !Accessible(f)) &&
      (r.status == 404 ==> r.body == TextBytes(NotFoundText)) &&
      (r.status == 400 <==> Accessible(f) && !IsHead(req) && o.Malformed?) &&
      (r.status == 400 ==> r.body == TextBytes(InvalidRangeText)) &&
      (r.status == 500 <==> Accessible(f) && !IsHead(req) && (o.Whole? || o.Partial?) && io.openFails) &&
      (r.status == 500 ==> r.body == TextBytes(OpenFailedText))
  {
    if Accessible(f) && !IsHead(req) {
      var o := RangeFor(req.range, |f.data|);
      if o.Whole? || o.Partial? {
        DeliverLaws(f.data, mime, o, io);
      }
    }
  }

  /** A 416 names the complete length and sends nothing; no other status occurs. */
  lemma StreamStatuses(f: DiskFile, mime: string, req: Request, io: Io)
    ensures var r := Stream(f, mime, req, io);
      r.status == 416 ==> r.contentRange == Some(Unsatisfied(|f.data|)) && r.body == []
    ensures Stream(f, mime, req, io).status in {200, 206, 400, 404, 416, 500}
  {
    if Accessible(f) && !IsHead(req) {
      var o := RangeFor(req.range, |f.data|);
      if o.Whole? || o.Partial? {
        DeliverLaws(f.data, mime, o, io);
      }
    }
  }

  /** Without a fault, a 206 carries exactly the interval it names: a prefix of it, of its full length. */
  lemma StreamPartialFaultless(f: DiskFile, mime: string, req: Request, io: Io)
    requires Faultless(io)
    ensures var r := Stream(f, mime, req, io);
      var o := RangeFor(req.range, |f.data|);
      r.status == 206 ==> o.Partial? && r.body <= f.data[o.first..o.last + 1] && |r.body| == o.last - o.first + 1
  {
    StreamPartial(f, mime, req, io);
    PartialLengthFaultless(f, mime, req, io);
  }

  lemma PartialLengthFaultless(f: DiskFile, mime: string, req: Request, io: Io)
    requires Faultless(io)
    ensures var r := Stream(f, mime, req, io);
      var o := RangeFor(req.range, |f.data|);
      r.status == 206 ==> o.Partial? && |r.body| == o.last - o.first + 1
  {
    StreamShape(f, mime, req, io);
    DeliverPartialLength(f.data, mime, RangeFor(req.range, |f.data|), io);
  }

  /** Without a fault, a 206 from Deliver is as long as the interval. */
  lemma DeliverPartialLength(data: seq<int>, mime: string, o: RangeOutcome, io: Io)
    requires Faultless(io)
    ensures o.Partial? && o.first <= o.last < |data| ==> |Deliver(data, mime, o, io).body| == o.last - o.first + 1
  {
    if o.Partial? && o.first <= o.last < |data| {
      DeliverFaultless(data, mime, o, io);
    }
  }

  /** Without a fault, a 200 to GET carries the whole file. */
  lemma StreamWholeFaultless(f: DiskFile, mime: string, req: Request, io: Io)
    requires Faultless(io)
    ensures var r := Stream(f, mime, req, io);
      r.status == 200 && !IsHead(req) ==> r.body == f.data
  {
    if Accessible(f) && !IsHead(req) {
      var o := RangeFor(req.range, |f.data|);
      if o.Whole? || o.Partial? {
        assert Stream(f, mime, req, io) == Deliver(f.data, mime, o, io);
        DeliverLaws(f.data, mime, o, io);
        DeliverFaultless(f.data, mime, o, io);
      }
    }
  }

  /** HEAD is answered 200 with the file's size and no body, whatever the range header says. */
  lemma HeadNeverPartial(f: DiskFile, mime: string, req: Request, io: Io)
    requires Accessible(f) && IsHead(req)
    ensures Stream(f, mime, req, io) == Response(200, Some(mime), None, Some(|f.data|), None, None, [])
  {
  }

  /*
   * handle_stream_request
   */

  /** The small-file redirect test: under 10 MiB, mp3 or wav, no Range header, not HEAD. */
  predicate RedirectCase(p: Post, req: Request) {
    var ext := Lower(Extension(p.path));
    |p.file.data| < TenMiB && (ext == "mp3" || ext == "wav") && req.range.None? && !IsHead(req)
  }

  predicate Allowed(settings: map<string, Value>, p: Post) {
    Lower(Extension(p.path)) in Split(ToStr(Lookup(settings, "allowed_file_types")), ',')
  }

  predicate TooLarge(settings: map<string, Value>, p: Post) {
    |p.file.data| > IntValue(Lookup(settings, "max_file_size")) * 1024 * 1024
  }

  /**
   * The gates of handle_stream_request in their order: streaming enabled,
   * an attachment, an audio MIME type, a readable file, then the small-file
   * redirect, and only after it the extension allow-list and the size cap.
   */
  function Policy(settings: map<string, Value>, site: Site, id: nat, req: Request): (r: Decision)
    ensures Empty(Lookup(settings, "enable_streaming")) ==> r == Refuse(403, "streaming_disabled")
    ensures r.Serve? ==> (GetPost(site, id) == Some(r.post) && r.post.postType == "attachment" &&
      StartsWith(r.post.mime, "audio/") && FileUsable(r.post) && !RedirectCase(r.post, req) &&
      Allowed(settings, r.post) && !TooLarge(settings, r.post))
    ensures r.SendTo? ==> exists p :: GetPost(site, id) == Some(p) && RedirectCase(p, req) && r.url == p.url
    ensures r.Refuse? ==> r.status in {403, 404}
  {
    if Empty(Lookup(settings, "enable_streaming")) then Refuse(403, "streaming_disabled")
    else
      var post := GetPost(site, id);
      if post.None? || post.value.postType != "attachment" then Refuse(404, "attachment_not_found")
      else
        var p := post.value;
        if !StartsWith(p.mime, "audio/") then Refuse(404, "not_audio_file")
        else if !FileUsable(p) then Refuse(404, "file_not_accessible")
        else if RedirectCase(p, req) then SendTo(p.url)
        else if !Allowed(settings, p) then Refuse(403, "file_type_not_allowed")
        else if TooLarge(settings, p) then Refuse(403, "file_too_large")
        else Serve(p)
  }

  /** The redirect is decided before the allow-list and the size cap, so neither can stop it. */
  lemma RedirectPrecedesGates(settings: map<string, Value>, settings': map<string, Value>, site: Site, id: nat, req: Request)
    requires Lookup(settings, "enable_streaming") == Lookup(settings', "enable_streaming")
    requires Policy(settings, site, id, req).SendTo?
    ensures Policy(settings', site, id, req) == Policy(settings, site, id, req)
  {
  }

  /** A HEAD request or one carrying a Range header is never redirected. */
  lemma NoRedirectForRangeOrHead(settings: map<string, Value>, site: Site, id: nat, req: Request)
    requires req.range.Some? || IsHead(req)
    ensures !Policy(settings, site, id, req).SendTo?
  {
  }

  /** The whole request: refuse, redirect, or stream the attachment. */
  function HandleStream(settings: map<string, Value>, site: Site, id: nat, req: Request, wpType: string -> string, io: Io): Response {
    match Policy(settings, site, id, req)
    case Refuse(status, _) => Refusal(status)
    case SendTo(url) => Redirect(url)
    case Serve(p) => Stream(p.file, ContentType(p, wpType), req, io)
  }

  /** The route answers one of eight statuses; 302 exactly when the policy redirects, a bare 403 when streaming is off. */
  lemma HandleStatuses(settings: map<string, Value>, site: Site, id: nat, req: Request, wpType: string -> string, io: Io)
    ensures HandleStream(settings, site, id, req, wpType, io).status in {200, 206, 302, 400, 403, 404, 416, 500}
    ensures HandleStream(settings, site, id, req, wpType, io).status == 302 <==> Policy(settings, site, id, req).SendTo?
    ensures Empty(Lookup(settings, "enable_streaming")) ==> HandleStream(settings, site, id, req, wpType, io) == Refusal(403)
  {
    var d := Policy(settings, site, id, req);
    if d.Serve? {
      StreamStatuses(d.post.file, ContentType(d.post, wpType), req, io);
    }
  }

  /*
   * resolve-id
   */

  datatype Resolution = Resolved(id: nat, url: string, mime: string, size: nat) | Unresolved(status: nat, code: string)

  /** A meta search hit the handler accepts: `if (!$attachment_id)` also skips id 0. */
  predicate Hit(r: Option<nat>) { r.Some? && r.value != 0 }

  /** The three LIKE searches in order, `%/name.%`, `%name.%`, `%name%`; the first hit wins. */
  function SearchId(site: Site, name: string): (r: Option<nat>)
    ensures Hit(MetaLike(site, "/" + name + ".")) ==> r == MetaLike(site, "/" + name + ".")
    ensures !Hit(MetaLike(site, "/" + name + ".")) && Hit(MetaLike(site, name + ".")) ==> r == MetaLike(site, name + ".")
    ensures !Hit(MetaLike(site, "/" + name + ".")) && !Hit(MetaLike(site, name + ".")) ==> r == MetaLike(site, name)
  {
    var first := MetaLike(site, "/" + name + ".");
    if Hit(first) then first
    else
      var second := MetaLike(site, name + ".");
      if Hit(second) then second else MetaLike(site, name)
  }

  function ResolveId(site: Site, filename: string): (r: Resolution)
    ensures EmptyString(filename) ==> r == Unresolved(400, "invalid_filename")
    ensures r.Resolved? ==> (Hit(SearchId(site, filename)) && r.id == SearchId(site, filename).value &&
      GetPost(site, r.id).Some? &&
      var info := AttachmentInfo(site, r.id);
      r.url == info.url && r.mime == info.mime && r.size == info.size)
  {
    if EmptyString(filename) then Unresolved(400, "invalid_filename")
    else
      var found := SearchId(site, filename);
      if !Hit(found) then Unresolved(404, "not_found")
      else if GetPost(site, found.value).None? then Unresolved(404, "attachment_missing")
      else
        var info := AttachmentInfo(site, found.value);
        Resolved(found.value, info.url, info.mime, info.size)
  }

  /**
   * With the positive post ids the database assigns, the route answers
   * not_found exactly when no attached-file path contains the name.
   */
  lemma ResolveNotFoundExactly(site: Site, filename: string)
    requires !EmptyString(filename)
    requires forall row | row in site.attachedFiles :: row.postId > 0
    ensures ResolveId(site, filename) == Unresolved(404, "not_found") <==>
      forall row | row in site.attachedFiles :: !Like(row.attachedFile, filename)
  {
    var name := filename;
    if forall row | row in site.attachedFiles :: !Like(row.attachedFile, name) {
      forall row | row in site.attachedFiles
        ensures !Like(row.attachedFile, "/" + name + ".") && !Like(row.attachedFile, name + ".")
      {
        if Like(row.attachedFile, "/" + name + ".") { LikeInner(row.attachedFile, "/", name, "."); }
        if Like(row.attachedFile, name + ".") {
          assert "" + name + "." == name + ".";
          LikeInner(row.attachedFile, "", name, ".");
        }
      }
    }
  }

  /** The stages narrow: a hit of the first pattern is also a hit of the second and of the third. */
  lemma StagesNarrow(value: string, name: string)
    ensures Like(value, "/" + name + ".") ==> Like(value, name + ".")
    ensures Like(value, name + ".") ==> Like(value, name)
  {
    if Like(value, "/" + name + ".") {
      assert "/" + name + "." == "/" + (name + ".") + "";
      LikeInner(value, "/", name + ".", "");
    }
    if Like(value, name + ".") {
      assert "" + name + "." == name + ".";
      LikeInner(value, "", name, ".");
    }
  }
}
