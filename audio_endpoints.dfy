// JetEngine_Audio_Endpoints: the third stream route, which has only the
// attachment and readability gates, the regex range parse behind isset(),
// the 8 KiB read loop that checks the connection after each write, the chunk
// cache sweep and the three-stage filename resolver.

module AudioEndpoints {
  import opened Wrappers
  import opened Text
  import opened Php
  import opened Http
  import opened RangePattern
  import opened Library
  import opened Functions
  import StreamingController

  /** The read loop's buffer: 8 KiB. */
  const LoopBuffer: nat := 8192

  /** Full-file requests shorter than this are sent with readfile(). */
  const ReadfileLimit: nat := 2097152

  /** Ranges longer than this go through http_throttle() and fpassthru() when that function exists. */
  const ThrottleLimit: nat := 1048576

  /*
   * handle_audio_stream
   */

  /** The two gates, both 404; no redirect, allow-list or size cap. */
  function Gate(site: Site, id: nat): (r: Decision)
    ensures r.Serve? <==> GetPost(site, id).Some? && GetPost(site, id).value.audio && Accessible(GetPost(site, id).value.file)
    ensures r.Serve? ==> r.post == GetPost(site, id).value
    ensures r.Refuse? ==> r.status == 404
    ensures !r.SendTo?
  {
    var post := GetPost(site, id);
    if post.None? || !post.value.audio then Refuse(404, "invalid_attachment")
    else if !Accessible(post.value.file) then Refuse(404, "file_not_found")
    else Serve(post.value)
  }

  /*
   * The range parse
   */

  /**
   * The outcome of the `Range` header: absent gives the whole file; present
   * (even empty) it must match `bytes=\s*(\d*)-(\d*)`, else 400; an empty()
   * group means 0 for the start and the last byte for the end.
   */
  function RangeFor(header: Option<string>, size: nat): (r: RangeOutcome)
    ensures r.Whole? <==> header.None?
    ensures r.Malformed? <==> header.Some? && Match(header.value).None?
    ensures r.Partial? ==> r.first <= r.last < size
  {
    if header.None? then Whole
    else match Match(header.value)
      case None => Malformed
      case Some(g) =>
        var b := Bounds(g, size);
        ValidateRange(b.0, b.1, size)
  }

  /** A client's `bytes=a-b`: an end of 0 is empty() and so means the last byte. */
  lemma RangeForSpelled(a: nat, b: nat, size: nat)
    ensures RangeFor(Some(Header(Some(a), Some(b))), size) == ValidateRange(a, if b == 0 then size - 1 else b, size)
  {
    MatchHeader(Some(a), Some(b));
    SpelledValue(a);
    SpelledValue(b);
  }

  /** `bytes=a-` runs to the last byte. */
  lemma RangeForOpenEnded(a: nat, size: nat)
    ensures RangeFor(Some(Header(Some(a), None)), size) == ValidateRange(a, size - 1, size)
  {
    MatchHeader(Some(a), None);
    SpelledValue(a);
  }

  /** `bytes=0-0` yields the whole file rather than its first byte. */
  lemma ZeroZeroServesWholeFile(size: nat)
    requires size > 0
    ensures RangeFor(Some("bytes=0-0"), size) == Partial(0, size - 1)
  {
    assert NatToString(0) == [DigitChar(0)] == "0";
    var h := Header(Some(0), Some(0));
    assert h == "bytes=" + "0" + "-" + "0";
    assert h == "bytes=0-0";
    RangeForSpelled(0, 0, size);
  }

  /** `bytes=-N` is not the suffix form of section 2.1 of RFC 7233: it yields bytes 0..N. */
  lemma DashNIsNotSuffix(n: nat, size: nat)
    requires n >= 1 && size > 0
    ensures RangeFor(Some(Header(None, Some(n))), size) == Partial(0, Min(n, size - 1))
  {
    var h := Header(None, Some(n));
    MatchHeader(None, Some(n));
    var g := Groups("", NatToString(n));
    SpelledValue(n);
    IntValOfNatToString(n);
    assert Bounds(g, size) == (0, n);
  }

  /** A header that is sent but empty fails the pattern: 400, where the REST copy serves the whole file. */
  lemma EmptyHeaderIsMalformed(size: nat)
    ensures RangeFor(Some(""), size) == Malformed
  {
  }

  /*
   * The read loop
   */

  /** The loop's guard: end of file, or the bound reached. */
  predicate Stops(data: seq<int>, start: nat, length: nat, sent: nat, k: nat, io: Io) {
    io.eof(k) || start + sent >= |data| || sent >= length
  }

  /**
   * What the loop echoes from iteration k on: min(8192, length-sent) bytes
   * per turn; a false read ends it before a write, an abnormal connection
   * right after one.
   */
  function Pump(data: seq<int>, start: nat, length: nat, sent: nat, k: nat, io: Io): seq<int>
    decreases length - sent
  {
    if Stops(data, start, length, sent, k, io) || io.readFails(k) then []
    else
      var chunk := Read(data, start + sent, Min(LoopBuffer, length - sent));
      if !io.connected(k) then chunk
      else chunk + Pump(data, start, length, sent + |chunk|, k + 1, io)
  }

  lemma PumpAdvance(data: seq<int>, start: nat, length: nat, sent: nat, k: nat, io: Io, out: seq<int>, whole: seq<int>)
    requires !Stops(data, start, length, sent, k, io) && !io.readFails(k) && io.connected(k)
    requires out + Pump(data, start, length, sent, k, io) == whole
    ensures var chunk := Read(data, start + sent, Min(LoopBuffer, length - sent));
      (out + chunk) + Pump(data, start, length, sent + |chunk|, k + 1, io) == whole
  {
    var chunk := Read(data, start + sent, Min(LoopBuffer, length - sent));
    assert Pump(data, start, length, sent, k, io) == chunk + Pump(data, start, length, sent + |chunk|, k + 1, io);
  }

  method Send(data: seq<int>, start: nat, length: nat, io: Io) returns (out: seq<int>, sent: nat)
    ensures out == Pump(data, start, length, 0, 0, io)
    ensures sent == |out|
  {
    out, sent := [], 0;
    var k := 0;
    ghost var whole := Pump(data, start, length, 0, 0, io);
    while !Stops(data, start, length, sent, k, io)
      invariant sent == |out|
      invariant out + Pump(data, start, length, sent, k, io) == whole
      decreases length - sent
    {
      if io.readFails(k) {
        break;
      }
      var chunk := Read(data, start + sent, Min(LoopBuffer, length - sent));
      if !io.connected(k) {
        assert Pump(data, start, length, sent, k, io) == chunk;
        out, sent := out + chunk, sent + |chunk|;
        break;
      }
      PumpAdvance(data, start, length, sent, k, io, out, whole);
      out, sent, k := out + chunk, sent + |chunk|, k + 1;
    }
  }

  /** The loop sends consecutive bytes from start and never more than length. */
  lemma {:induction false} PumpSlice(data: seq<int>, start: nat, length: nat, sent: nat, k: nat, io: Io)
    requires sent <= length && start + sent <= |data|
    ensures var r := Pump(data, start, length, sent, k, io);
      sent + |r| <= length && start + sent + |r| <= |data| && r == data[start + sent..start + sent + |r|]
    decreases length - sent
  {
    if !(Stops(data, start, length, sent, k, io) || io.readFails(k)) && io.connected(k) {
      PumpSlice(data, start, length, sent + |Read(data, start + sent, Min(LoopBuffer, length - sent))|, k + 1, io);
    }
    PumpSliceStep(data, start, length, sent, k, io);
  }

  /** One round: if the loop goes on and the rest sends a slice after this chunk, the loop sends a slice from start + sent. */
  lemma PumpSliceStep(data: seq<int>, start: nat, length: nat, sent: nat, k: nat, io: Io)
    requires sent <= length && start + sent <= |data|
    requires !(Stops(data, start, length, sent, k, io) || io.readFails(k)) && io.connected(k) ==>
      var n := |Read(data, start + sent, Min(LoopBuffer, length - sent))|;
      var r := Pump(data, start, length, sent + n, k + 1, io);
      sent + n + |r| <= length && start + sent + n + |r| <= |data| && r == data[start + sent + n..start + sent + n + |r|]
    ensures var r := Pump(data, start, length, sent, k, io);
      sent + |r| <= length && start + sent + |r| <= |data| && r == data[start + sent..start + sent + |r|]
  {
    if !(Stops(data, start, length, sent, k, io) || io.readFails(k)) {
      var pos := start + sent;
      var chunk := Read(data, pos, Min(LoopBuffer, length - sent));
      if io.connected(k) {
        var rest := Pump(data, start, length, sent + |chunk|, k + 1, io);
        assert Pump(data, start, length, sent, k, io) == chunk + rest;
        AdjacentSlices(data, pos, chunk, rest);
      } else {
        assert Pump(data, start, length, sent, k, io) == chunk;
      }
    }
  }

  /** Without a fault the loop sends exactly length bytes from start + sent on. */
  lemma {:induction false} PumpComplete(data: seq<int>, start: nat, length: nat, sent: nat, k: nat, io: Io)
    requires Faultless(io) && sent <= length && start + length <= |data|
    ensures Pump(data, start, length, sent, k, io) == data[start + sent..start + length]
    decreases length - sent
  {
    if sent < length {
      var n := |Read(data, start + sent, Min(LoopBuffer, length - sent))|;
      PumpComplete(data, start, length, sent + n, k + 1, io);
      PumpStep(data, start, length, sent, k, io);
    }
  }

  /** One round without a fault: if the rest of the loop sends the rest of the interval, the loop sends all of it. */
  lemma PumpStep(data: seq<int>, start: nat, length: nat, sent: nat, k: nat, io: Io)
    requires Faultless(io) && sent < length && start + length <= |data|
    requires var n := |Read(data, start + sent, Min(LoopBuffer, length - sent))|;
      Pump(data, start, length, sent + n, k + 1, io) == data[start + sent + n..start + length]
    ensures Pump(data, start, length, sent, k, io) == data[start + sent..start + length]
  {
    var pos := start + sent;
    assert !io.eof(k) && !io.readFails(k) && io.connected(k);
    var chunk := Read(data, pos, Min(LoopBuffer, length - sent));
    var rest := Pump(data, start, length, sent + |chunk|, k + 1, io);
    assert Pump(data, start, length, sent, k, io) == chunk + rest;
    JoinSlices(data, pos, pos + |chunk|, start + length, chunk, rest, Pump(data, start, length, sent, k, io));
  }

  /*
   * stream_audio_file
   */

  /**
   * The body of a satisfiable outcome: fpassthru() from start to the end of
   * the file when http_throttle() exists and the range exceeds 1 MiB;
   * readfile() of the whole file for a full request under 2 MiB; the loop
   * otherwise.
   */
  function Body(data: seq<int>, o: RangeOutcome, throttle: bool, io: Io): seq<int>
    requires o.Whole? || (o.Partial? && o.first <= o.last < |data|)
  {
    var start := FirstByte(o);
    var length := Length(o, |data|);
    var end := if o.Partial? then o.last else |data| - 1;
    if throttle && length > ThrottleLimit then data[start..]
    else if length < ReadfileLimit && start == 0 && end == |data| - 1 then data
    else Pump(data, start, length, 0, 0, io)
  }

  function Deliver(data: seq<int>, mime: string, o: RangeOutcome, throttle: bool, io: Io): (r: Response)
    requires o.Whole? || (o.Partial? && o.first <= o.last < |data|)
  {
    var size := |data|;
    var length := Length(o, size);
    var status := if o.Partial? then 206 else 200;
    var range := if o.Partial? then Some(Satisfied(o.first, o.last, size)) else None;
    if io.openFails then Response(500, Some(mime), range, Some(length), None, None, TextBytes(OpenFailedText))
    else Response(status, Some(mime), range, Some(length), None, None, Body(data, o, throttle, io))
  }

  /** The response stream_audio_file produces; Content-Type is sent before the range is looked at. */
  function Stream(data: seq<int>, mime: string, req: Request, throttle: bool, io: Io): Response {
    var size := |data|;
    if IsHead(req) then Response(200, Some(mime), None, Some(size), None, None, [])
    else
      var o := RangeFor(req.range, size);
      if o.Malformed? then Response(400, Some(mime), None, None, None, None, TextBytes(InvalidRangeText))
      else if o.NotSatisfiable? then Response(416, Some(mime), Some(Unsatisfied(size)), None, None, None, [])
      else Deliver(data, mime, o, throttle, io)
  }

  method SendBody(data: seq<int>, o: RangeOutcome, throttle: bool, io: Io) returns (body: seq<int>)
    requires o.Whole? || (o.Partial? && o.first <= o.last < |data|)
    ensures body == Body(data, o, throttle, io)
  {
    var start := FirstByte(o);
    var length := Length(o, |data|);
    var end := if o.Partial? then o.last else |data| - 1;
    if throttle && length > ThrottleLimit {
      body := data[start..];
    } else if length < ReadfileLimit && start == 0 && end == |data| - 1 {
      body := data;
    } else {
      var sent;
      body, sent := Send(data, start, length, io);
    }
  }

  method StreamAudioFile(data: seq<int>, mime: string, req: Request, throttle: bool, io: Io) returns (r: Response)
    ensures r == Stream(data, mime, req, throttle, io)
  {
    var size := |data|;
    if IsHead(req) {
      return Response(200, Some(mime), None, Some(size), None, None, []);
    }
    var o := RangeFor(req.range, size);
    if o.Malformed? {
      return Response(400, Some(mime), None, None, None, None, TextBytes(InvalidRangeText));
    }
    if o.NotSatisfiable? {
      return Response(416, Some(mime), Some(Unsatisfied(size)), None, None, None, []);
    }
    var length := Length(o, size);
    var status := if o.Partial? then 206 else 200;
    var range := if o.Partial? then Some(Satisfied(o.first, o.last, size)) else None;
    if io.openFails {
      return Response(500, Some(mime), range, Some(length), None, None, TextBytes(OpenFailedText));
    }
    var body := SendBody(data, o, throttle, io);
    r := Response(status, Some(mime), range, Some(length), None, None, body);
  }

  /** The headers of a delivered outcome, and a body within them unless fpassthru() took over. */
  lemma DeliverLaws(data: seq<int>, mime: string, o: RangeOutcome, throttle: bool, io: Io)
    requires o.Whole? || (o.Partial? && o.first <= o.last < |data|)
    ensures var r := Deliver(data, mime, o, throttle, io);
      var first := FirstByte(o);
      var length := Length(o, |data|);
      r.status in {200, 206, 500} &&
      r.contentLength == Some(length) &&
      (o.Partial? ==> r.contentRange == Some(Satisfied(o.first, o.last, |data|))) &&
      (o.Whole? ==> r.contentRange.None?) &&
      (r.status == 206 <==> o.Partial? && !io.openFails) &&
      (r.status == 500 <==> io.openFails) &&
      (r.status == 500 ==> r.body == TextBytes(OpenFailedText)) &&
      (r.status != 500 ==>
        first + |r.body| <= |data| && r.body == data[first..first + |r.body|] &&
        (!throttle || length <= ThrottleLimit ==> |r.body| <= length))
  {
    BodyLaws(data, o, throttle, io);
  }

  lemma BodyLaws(data: seq<int>, o: RangeOutcome, throttle: bool, io: Io)
    requires o.Whole? || (o.Partial? && o.first <= o.last < |data|)
    ensures var b := Body(data, o, throttle, io);
      FirstByte(o) + |b| <= |data| && b == data[FirstByte(o)..FirstByte(o) + |b|] &&
      (!throttle || Length(o, |data|) <= ThrottleLimit ==> |b| <= Length(o, |data|))
  {
    PumpSlice(data, FirstByte(o), Length(o, |data|), 0, 0, io);
  }

  lemma BodyFaultless(data: seq<int>, o: RangeOutcome, throttle: bool, io: Io)
    requires o.Whole? || (o.Partial? && o.first <= o.last < |data|)
    requires Faultless(io) && (!throttle || Length(o, |data|) <= ThrottleLimit)
    ensures Body(data, o, throttle, io) == data[FirstByte(o)..FirstByte(o) + Length(o, |data|)]
  {
    PumpComplete(data, FirstByte(o), Length(o, |data|), 0, 0, io);
  }

  /**
   * With http_throttle() present, fpassthru() sends the file from start to
   * its end: a range over 1 MiB that stops short of the last byte gets more
   * bytes than its Content-Length declares.
   */
  lemma ThrottledOverrun(data: seq<int>, first: nat, last: nat, io: Io)
    requires first <= last < |data| - 1 && last - first + 1 > ThrottleLimit && !io.openFails
    ensures var r := Deliver(data, "audio/mpeg", Partial(first, last), true, io);
      r.contentLength == Some(last - first + 1) && r.body == data[first..] && |r.body| > last - first + 1
  {
  }

  /** A 206 names the parsed interval, declares its length and sends a prefix of the file from its start (without fpassthru() a prefix within it). */
  lemma StreamPartial(data: seq<int>, mime: string, req: Request, throttle: bool, io: Io)
    ensures var r := Stream(data, mime, req, throttle, io);
      var o := RangeFor(req.range, |data|);
      r.status == 206 ==> (o.Partial? && o.first <= o.last < |data| &&
        r.contentRange == Some(Satisfied(o.first, o.last, |data|)) &&
        r.contentLength == Some(o.last - o.first + 1) &&
        r.body <= data[o.first..] &&
        (!throttle ==> |r.body| <= o.last - o.first + 1))
  {
    var r := Stream(data, mime, req, throttle, io);
    var o := RangeFor(req.range, |data|);
    if r.status == 206 {
      assert o.Partial? && r == Deliver(data, mime, o, throttle, io) by { StreamShape(data, mime, req, throttle, io); }
      PartialLaws(r, data, mime, o, throttle, io);
    }
  }

  lemma DeliverStatus(data: seq<int>, mime: string, o: RangeOutcome, throttle: bool, io: Io)
    requires o.Whole? || (o.Partial? && o.first <= o.last < |data|)
    ensures Deliver(data, mime, o, throttle, io).status == if io.openFails then 500 else if o.Partial? then 206 else 200
  {
  }

  /** Only a delivered partial outcome answers 206. */
  lemma StreamShape(data: seq<int>, mime: string, req: Request, throttle: bool, io: Io)
    ensures var o := RangeFor(req.range, |data|);
      Stream(data, mime, req, throttle, io).status == 206 ==>
        o.Partial? && Stream(data, mime, req, throttle, io) == Deliver(data, mime, o, throttle, io)
  {
    if !IsHead(req) {
      var o := RangeFor(req.range, |data|);
      if o.Whole? || o.Partial? {
        DeliverStatus(data, mime, o, throttle, io);
      }
    }
  }

  lemma PartialLaws(r: Response, data: seq<int>, mime: string, o: RangeOutcome, throttle: bool, io: Io)
    requires o.Partial? && o.first <= o.last < |data| && r == Deliver(data, mime, o, throttle, io) && !io.openFails
    ensures r.contentRange == Some(Satisfied(o.first, o.last, |data|)) && r.contentLength == Some(o.last - o.first + 1)
    ensures r.body <= data[o.first..] && (!throttle ==> |r.body| <= o.last - o.first + 1)
  {
    DeliverLaws(data, mime, o, throttle, io);
    assert data[o.first..][..|r.body|] == r.body;
  }

  /** A 200 to GET comes only without a Range header and declares the whole size. */
  lemma StreamWhole(data: seq<int>, mime: string, req: Request, throttle: bool, io: Io)
    ensures var r := Stream(data, mime, req, throttle, io);
      r.status == 200 && !IsHead(req) ==> (req.range.None? && r.contentLength == Some(|data|) &&
        r.contentRange.None? && |r.body| <= |data| && r.body == data[..|r.body|])
  {
    if !IsHead(req) {
      var o := RangeFor(req.range, |data|);
      if o.Whole? || o.Partial? {
        assert Stream(data, mime, req, throttle, io) == Deliver(data, mime, o, throttle, io);
        DeliverLaws(data, mime, o, throttle, io);
      }
    }
  }

  /**
   * The error statuses and what causes each: a malformed Range header
   * on a GET is a 400 and a file that does not open a 500; each exits with
   * its text.
   */
  lemma StreamErrors(data: seq<int>, mime: string, req: Request, throttle: bool, io: Io)
    ensures var r := Stream(data, mime, req, throttle, io);
      var o := RangeFor(req.range, |data|);
      (r.status == 400 <==> !IsHead(req) && o.Malformed?) &&
      (r.status == 400 ==> r.body == TextBytes(InvalidRangeText)) &&
      (r.status == 500 <==> !IsHead(req) && (o.Whole? || o.Partial?) && io.openFails) &&
      (r.status == 500 ==> r.body == TextBytes(OpenFailedText))
  {
    if !IsHead(req) {
      var o := RangeFor(req.range, |data|);
      if o.Whole? || o.Partial? {
        DeliverLaws(data, mime, o, throttle, io);
      }
    }
  }

  /** HEAD gets 200 with the file size and no body; a 416 names the size; no other status occurs. */
  lemma StreamStatuses(data: seq<int>, mime: string, req: Request, throttle: bool, io: Io)
    ensures IsHead(req) ==> Stream(data, mime, req, throttle, io) == Response(200, Some(mime), None, Some(|data|), None, None, [])
    ensures var r := Stream(data, mime, req, throttle, io);
      r.status == 416 ==> r.contentRange == Some(Unsatisfied(|data|)) && r.body == []
    ensures Stream(data, mime, req, throttle, io).status in {200, 206, 400, 416, 500}
  {
    if !IsHead(req) {
      var o := RangeFor(req.range, |data|);
      if o.Whole? || o.Partial? {
        DeliverLaws(data, mime, o, throttle, io);
      }
    }
  }

  /** Without a fault (and without fpassthru()), a 206 carries exactly the interval it names: a prefix of the file from its start, of the interval's length. */
  lemma StreamPartialFaultless(data: seq<int>, mime: string, req: Request, io: Io)
    requires Faultless(io)
    ensures var r := Stream(data, mime, req, false, io);
      var o := RangeFor(req.range, |data|);
      r.status == 206 ==> o.Partial? && r.body <= data[o.first..] && |r.body| == o.last - o.first + 1
  {
    StreamPartial(data, mime, req, false, io);
    PartialLengthFaultless(data, mime, req, io);
  }

  lemma PartialLengthFaultless(data: seq<int>, mime: string, req: Request, io: Io)
    requires Faultless(io)
    ensures var r := Stream(data, mime, req, false, io);
      var o := RangeFor(req.range, |data|);
      r.status == 206 ==> o.Partial? && |r.body| == o.last - o.first + 1
  {
    StreamShape(data, mime, req, false, io);
    DeliverPartialLength(data, mime, RangeFor(req.range, |data|), io);
  }

  /** Without a fault and without the throttle, a 206 from Deliver is as long as the interval. */
  lemma DeliverPartialLength(data: seq<int>, mime: string, o: RangeOutcome, io: Io)
    requires Faultless(io)
    ensures o.Partial? && o.first <= o.last < |data| ==> |Deliver(data, mime, o, false, io).body| == o.last - o.first + 1
  {
    if o.Partial? && o.first <= o.last < |data| {
      BodyFaultless(data, o, false, io);
    }
  }

  /** Without a fault, a 200 to GET carries the whole file, throttled or not. */
  lemma StreamWholeFaultless(data: seq<int>, mime: string, req: Request, throttle: bool, io: Io)
    requires Faultless(io)
    ensures var r := Stream(data, mime, req, throttle, io);
      r.status == 200 && !IsHead(req) ==> r.body == data
  {
    if !IsHead(req) {
      var o := RangeFor(req.range, |data|);
      if o.Whole? {
        assert Stream(data, mime, req, throttle, io) == Deliver(data, mime, o, throttle, io);
        if throttle && |data| > ThrottleLimit {
          assert data[0..] == data;
        } else {
          BodyFaultless(data, o, throttle, io);
        }
      }
    }
  }

  /** The whole route: the two gates, then the stream with the same MIME cascade as the controller. */
  function HandleAudioStream(site: Site, id: nat, req: Request, sniffed: string, throttle: bool, io: Io): Response {
    var g := Gate(site, id);
    if g.Serve? then Stream(g.post.file.data, StreamingController.ContentType(g.post, sniffed), req, throttle, io)
    else Refusal(404)
  }

  /** This route never redirects and never answers 403, whatever the file. */
  lemma HandleNeverRedirects(site: Site, id: nat, req: Request, sniffed: string, throttle: bool, io: Io)
    ensures HandleAudioStream(site, id, req, sniffed, throttle, io).status in {200, 206, 400, 404, 416, 500}
  {
    var g := Gate(site, id);
    if g.Serve? {
      StreamStatuses(g.post.file.data, StreamingController.ContentType(g.post, sniffed), req, throttle, io);
    }
  }

  /*
   * clear_cached_chunks
   */

  /** The transient key an option name stands for: every "_transient_" removed. */
  function TransientKey(name: string): string {
    Replace(name, "_transient_", "")
  }

  /** A data row's option name gives back the key it was stored under. */
  lemma TransientKeyOf(key: string)
    requires !Contains(key, "_transient_")
    ensures TransientKey("_transient_" + key) == key
  {
    var name := "_transient_" + key;
    assert name[..11] == "_transient_" && name[11..] == key;
    ReplaceAbsent(key, "_transient_", "");
  }

  /** The keys the matching option names stand for, in the order they are listed. */
  function TransientKeys(names: seq<string>): (r: seq<string>)
    ensures |r| == |names| && forall i | 0 <= i < |names| :: r[i] == TransientKey(names[i])
  {
    seq(|names|, i requires 0 <= i < |names| => TransientKey(names[i]))
  }

  /** The distinct keys of a list. */
  function Elements(keys: seq<string>): set<string> {
    set key | key in keys
  }

  /**
   * A sweep over keys, left to right: a key whose delete_transient()
   * succeeds (it is still stored) counts once and is gone. Returns the
   * count and the keys left stored.
   */
  function Cleared(keys: seq<string>, store: set<string>): (nat, set<string>)
    decreases |keys|
  {
    if keys == [] then (0, store)
    else
      var key := keys[0];
      var rest := Cleared(keys[1..], store - {key});
      if key in store then (rest.0 + 1, rest.1) else rest
  }

  lemma ElementsCons(keys: seq<string>)
    requires keys != []
    ensures Elements(keys) == {keys[0]} + Elements(keys[1..])
  {
    forall key | key in Elements(keys) ensures key in {keys[0]} + Elements(keys[1..]) {
      var i :| 0 <= i < |keys| && keys[i] == key;
      if i > 0 { assert keys[1..][i - 1] == keys[i]; }
    }
  }

  /**
   * Every listed key is gone afterwards and nothing else is touched; the
   * count is what disappeared, at most one per key.
   */
  lemma {:induction false} ClearedLaws(keys: seq<string>, store: set<string>)
    ensures Cleared(keys, store).1 == store - Elements(keys)
    ensures Cleared(keys, store).0 + |Cleared(keys, store).1| == |store|
    ensures Cleared(keys, store).0 <= |keys|
    decreases |keys|
  {
    if keys != [] {
      ClearedLaws(keys[1..], store - {keys[0]});
      ElementsCons(keys);
    }
  }

  /** The count is the number of stored keys listed, however often each is listed. */
  lemma ClearedCount(keys: seq<string>, store: set<string>)
    ensures Cleared(keys, store).0 == |store * Elements(keys)|
  {
    ClearedLaws(keys, store);
    var k := Elements(keys);
    assert store == (store - k) + store * k;
    assert (store - k) !! store * k;
  }

  /** One step of a sweep, as its loop takes it. */
  lemma ClearedStep(keys: seq<string>, i: nat, store: set<string>)
    requires i < |keys|
    ensures var key := keys[i]; var rest := Cleared(keys[i + 1..], store - {key});
      Cleared(keys[i..], store) == if key in store then (rest.0 + 1, rest.1) else rest
  {
    assert keys[i..][1..] == keys[i + 1..] && keys[i..][0] == keys[i];
  }

  method ClearCachedChunks(names: seq<string>, store: set<string>) returns (count: nat, remaining: set<string>)
    ensures (count, remaining) == Cleared(TransientKeys(names), store)
  {
    ghost var keys := TransientKeys(names);
    count, remaining := 0, store;
    var i := 0;
    while i < |names|
      invariant 0 <= i <= |names|
      invariant var r := Cleared(keys[i..], remaining); (count + r.0, r.1) == Cleared(keys, store)
    {
      var key := TransientKey(names[i]);
      ClearedStep(keys, i, remaining);
      if key !in remaining {
        assert remaining - {key} == remaining;
      }
      if key in remaining {
        remaining := remaining - {key};
        count := count + 1;
      }
      i := i + 1;
    }
  }

  /*
   * resolve_filename_to_id
   */

  datatype Resolution = Found(id: nat, via: string) | Missing(status: nat, code: string)

  /** An empty parameter is a 400; then a meta LIKE on the basename, a search and an exact title on the stem. */
  function ResolveFilename(site: Site, filename: string): (r: Resolution)
    ensures EmptyString(filename) ==> r == Missing(400, "missing_filename")
    ensures !EmptyString(filename) && QueryByMeta(site, Basename(filename)).Some? ==>
      r == Found(QueryByMeta(site, Basename(filename)).value, "file_metadata")
    ensures (!EmptyString(filename) && QueryByMeta(site, Basename(filename)).None? &&
      QueryBySearch(site, StripExtension(Basename(filename))).Some?) ==>
      r == Found(QueryBySearch(site, StripExtension(Basename(filename))).value, "title_search")
  {
    if EmptyString(filename) then Missing(400, "missing_filename")
    else
      var name := Basename(filename);
      var stem := StripExtension(name);
      var byMeta := QueryByMeta(site, name);
      if byMeta.Some? then Found(byMeta.value, "file_metadata")
      else
        var bySearch := QueryBySearch(site, stem);
        if bySearch.Some? then Found(bySearch.value, "title_search")
        else
          var byTitle := QueryByTitle(site, stem);
          if byTitle.Some? then Found(byTitle.value, "exact_title") else Missing(404, "file_not_found")
  }

  /**
   * With the title search read as a title LIKE, the exact-title stage never
   * decides: a title equal to the stem also contains it, so the resolver
   * answers exactly as the two-stage controller resolver does.
   */
  lemma ExactTitleNeverDecides(site: Site, filename: string)
    ensures ResolveFilename(site, filename).Found? ==> ResolveFilename(site, filename).via != "exact_title"
    ensures ResolveFilename(site, filename).Found? <==> StreamingController.ResolveFilename(site, filename).Found?
    ensures ResolveFilename(site, filename).Found? ==>
      ResolveFilename(site, filename).id == StreamingController.ResolveFilename(site, filename).id
  {
    if !EmptyString(filename) {
      var stem := StripExtension(Basename(filename));
      if QueryByTitle(site, stem).Some? {
        TitleQueryImpliesSearch(site, stem);
      }
    }
  }

  /** The resolver answers 404 exactly when neither the meta LIKE nor the search has a hit. */
  lemma ResolveMissingExactly(site: Site, filename: string)
    requires !EmptyString(filename)
    ensures ResolveFilename(site, filename).Missing? <==>
      QueryByMeta(site, Basename(filename)).None? && QueryBySearch(site, StripExtension(Basename(filename))).None?
  {
    ExactTitleNeverDecides(site, filename);
  }
}
