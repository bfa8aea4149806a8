// Audio_Endpoint: the chunked stream. A chunk index becomes a byte interval
// of the attachment's file; chunk 0 may be answered from a transient cache
// before the attachment is even looked up; a fresh chunk is read into a
// buffer, sent, and chunk 0 is meant to be cached for the next request.

module ChunkEndpoint {
  import opened Wrappers
  import opened Text
  import opened Php
  import opened Http
  import opened Library
  import RangePattern

  /** The read loop's buffer: 8 KiB. */
  const ReadBuffer: nat := 8192

  /** A cached first chunk: its bytes, the file's size and its MIME type. */
  datatype CacheEntry = CacheEntry(data: seq<int>, fileSize: nat, mime: string)

  /** The transient key of a file's first chunk. */
  function CacheKey(id: nat): string {
    "jet_audio_chunk_" + NatToString(id) + "_0"
  }

  /** Distinct files never share a cache key. */
  lemma CacheKeyInjective(a: nat, b: nat)
    requires CacheKey(a) == CacheKey(b)
    ensures a == b
  {
    var x, y := CacheKey(a), CacheKey(b);
    assert |NatToString(a)| == |x| - 18 == |NatToString(b)|;
    assert x[16..|x| - 2] == NatToString(a);
    assert y[16..|y| - 2] == NatToString(b);
    DecimalValueOfNatToString(a);
    DecimalValueOfNatToString(b);
  }

  /** Every entry the endpoint writes describes a non-empty file. */
  predicate CacheValid(cache: map<string, CacheEntry>) {
    forall key | key in cache :: cache[key].fileSize > 0
  }

  /*
   * Chunk arithmetic
   */

  /** Chunk c of chunkBytes bytes starts at c * chunkBytes and ends at the chunk's last byte or the file's. */
  function ChunkStart(c: nat, chunkBytes: nat): nat { c * chunkBytes }

  function ChunkEnd(c: nat, chunkBytes: nat, size: nat): int {
    Min(ChunkStart(c, chunkBytes) + chunkBytes - 1, size - 1)
  }

  /** total_chunks: ceil(size / chunkBytes) (0 for an empty file, as the REST player writes it). */
  function TotalChunks(size: nat, chunkBytes: nat): nat
    requires chunkBytes > 0
  {
    (size + chunkBytes - 1) / chunkBytes
  }

  lemma MulMonotone(a: nat, b: nat, s: nat)
    requires a <= b
    ensures a * s <= b * s
  {
  }

  /** The indices below total_chunks are exactly those that start inside the file. */
  lemma TotalChunksExact(c: nat, size: nat, chunkBytes: nat)
    requires chunkBytes > 0
    ensures c < TotalChunks(size, chunkBytes) <==> ChunkStart(c, chunkBytes) < size
  {
    var s := chunkBytes;
    var t := TotalChunks(size, s);
    var n := size + s - 1;
    assert t * s <= n < t * s + s;
    if c < t {
      MulMonotone(c + 1, t, s);
      assert c * s + s <= t * s;
    } else {
      MulMonotone(t, c, s);
      assert t * s + s > n;
    }
  }

  /** A chunk inside the file is a non-empty interval inside it, at most chunkBytes long. */
  lemma ChunkInside(c: nat, chunkBytes: nat, size: nat)
    requires chunkBytes > 0 && ChunkStart(c, chunkBytes) < size
    ensures ChunkStart(c, chunkBytes) <= ChunkEnd(c, chunkBytes, size) < size
    ensures ChunkEnd(c, chunkBytes, size) - ChunkStart(c, chunkBytes) + 1 <= chunkBytes
  {
  }

  /** Consecutive chunks tile the file: the next chunk starts right after this one ends, until the last. */
  lemma ChunksAdjacent(c: nat, chunkBytes: nat, size: nat)
    requires chunkBytes > 0 && ChunkStart(c + 1, chunkBytes) < size
    ensures ChunkEnd(c, chunkBytes, size) + 1 == ChunkStart(c + 1, chunkBytes)
  {
  }

  /*
   * The read loop
   */

  /** The loop's guard: end of file, or nothing left to read. */
  predicate Stops(data: seq<int>, pos: nat, toRead: nat, k: nat, io: Io) {
    io.eof(k) || pos >= |data| || toRead == 0
  }

  /** What the loop appends to the buffer: min(8192, bytes_to_read) per read, until a false read. */
  function ChunkRead(data: seq<int>, pos: nat, toRead: nat, k: nat, io: Io): seq<int>
    decreases toRead
  {
    if Stops(data, pos, toRead, k, io) || io.readFails(k) then []
    else
      var piece := Read(data, pos, Min(ReadBuffer, toRead));
      piece + ChunkRead(data, pos + |piece|, toRead - |piece|, k + 1, io)
  }

  lemma ChunkReadAdvance(data: seq<int>, pos: nat, toRead: nat, k: nat, io: Io, buffer: seq<int>, whole: seq<int>)
    requires !Stops(data, pos, toRead, k, io) && !io.readFails(k)
    requires buffer + ChunkRead(data, pos, toRead, k, io) == whole
    ensures var piece := Read(data, pos, Min(ReadBuffer, toRead));
      (buffer + piece) + ChunkRead(data, pos + |piece|, toRead - |piece|, k + 1, io) == whole
  {
    var piece := Read(data, pos, Min(ReadBuffer, toRead));
    assert ChunkRead(data, pos, toRead, k, io) == piece + ChunkRead(data, pos + |piece|, toRead - |piece|, k + 1, io);
  }

  /** The buffer is consecutive bytes from pos and never longer than bytes_to_read. */
  lemma {:induction false} ChunkReadSlice(data: seq<int>, pos: nat, toRead: nat, k: nat, io: Io)
    requires pos <= |data|
    ensures var r := ChunkRead(data, pos, toRead, k, io);
      |r| <= toRead && pos + |r| <= |data| && r == data[pos..pos + |r|]
    decreases toRead
  {
    if !(Stops(data, pos, toRead, k, io) || io.readFails(k)) {
      var n := |Read(data, pos, Min(ReadBuffer, toRead))|;
      ChunkReadSlice(data, pos + n, toRead - n, k + 1, io);
    }
    ChunkReadSliceStep(data, pos, toRead, k, io);
  }

  /** One read: if the loop goes on and the rest reads a slice after this piece, the loop reads a slice from pos. */
  lemma ChunkReadSliceStep(data: seq<int>, pos: nat, toRead: nat, k: nat, io: Io)
    requires pos <= |data|
    requires !(Stops(data, pos, toRead, k, io) || io.readFails(k)) ==>
      var n := |Read(data, pos, Min(ReadBuffer, toRead))|;
      var r := ChunkRead(data, pos + n, toRead - n, k + 1, io);
      |r| <= toRead - n && pos + n + |r| <= |data| && r == data[pos + n..pos + n + |r|]
    ensures var r := ChunkRead(data, pos, toRead, k, io);
      |r| <= toRead && pos + |r| <= |data| && r == data[pos..pos + |r|]
  {
    if !(Stops(data, pos, toRead, k, io) || io.readFails(k)) {
      var piece := Read(data, pos, Min(ReadBuffer, toRead));
      var rest := ChunkRead(data, pos + |piece|, toRead - |piece|, k + 1, io);
      assert ChunkRead(data, pos, toRead, k, io) == piece + rest;
      AdjacentSlices(data, pos, piece, rest);
    }
  }

  /** Without a fault the buffer is exactly the toRead bytes from pos. */
  lemma {:induction false} ChunkReadComplete(data: seq<int>, pos: nat, toRead: nat, k: nat, io: Io)
    requires Faultless(io) && pos + toRead <= |data|
    ensures ChunkRead(data, pos, toRead, k, io) == data[pos..pos + toRead]
    decreases toRead
  {
    if toRead > 0 {
      var n := |Read(data, pos, Min(ReadBuffer, toRead))|;
      ChunkReadComplete(data, pos + n, toRead - n, k + 1, io);
      ChunkReadStep(data, pos, toRead, k, io);
    }
  }

  /** One read without a fault: if the rest of the loop sends the rest of the interval, the loop sends all of it. */
  lemma ChunkReadStep(data: seq<int>, pos: nat, toRead: nat, k: nat, io: Io)
    requires Faultless(io) && 0 < toRead && pos + toRead <= |data|
    requires var n := |Read(data, pos, Min(ReadBuffer, toRead))|;
      ChunkRead(data, pos + n, toRead - n, k + 1, io) == data[pos + n..pos + toRead]
    ensures ChunkRead(data, pos, toRead, k, io) == data[pos..pos + toRead]
  {
    assert !io.eof(k) && !io.readFails(k);
    var piece := Read(data, pos, Min(ReadBuffer, toRead));
    var rest := ChunkRead(data, pos + |piece|, toRead - |piece|, k + 1, io);
    assert ChunkRead(data, pos, toRead, k, io) == piece + rest;
    JoinSlices(data, pos, pos + |piece|, pos + toRead, piece, rest, ChunkRead(data, pos, toRead, k, io));
  }

  method ReadChunk(data: seq<int>, start: nat, toRead: nat, io: Io) returns (buffer: seq<int>)
    ensures buffer == ChunkRead(data, start, toRead, 0, io)
  {
    buffer := [];
    var pos: nat, bytesToRead: nat, k: nat := start, toRead, 0;
    ghost var whole := ChunkRead(data, start, toRead, 0, io);
    while !Stops(data, pos, bytesToRead, k, io)
      invariant buffer + ChunkRead(data, pos, bytesToRead, k, io) == whole
      decreases bytesToRead
    {
      if io.readFails(k) {
        break;
      }
      var piece := Read(data, pos, Min(ReadBuffer, bytesToRead));
      ChunkReadAdvance(data, pos, bytesToRead, k, io, buffer, whole);
      buffer := buffer + piece;
      pos, bytesToRead, k := pos + |piece|, bytesToRead - |piece|, k + 1;
    }
  }

  /*
   * stream_audio_chunk
   */

  /** What the endpoint decides before reading: a cache hit, a 404, a 403, a 416, or a fresh interval to read. */
  datatype Plan =
    | Hit(entry: CacheEntry)
    | NotFound
    | TooLarge(max: nat)
    | Beyond(size: nat)
    | Fresh(post: Post, start: nat, end: nat)

  /**
   * The checks in their order: the chunk-0 cache before anything else, then
   * the post, the file's existence and the size cap (when positive), and
   * only then the chunk arithmetic.
   */
  function Decide(site: Site, cache: map<string, CacheEntry>, id: nat, c: nat, chunkBytes: nat, maxMb: int): (r: Plan)
    requires chunkBytes > 0
    ensures r.Hit? <==> c == 0 && CacheKey(id) in cache
    ensures r.Hit? ==> r.entry == cache[CacheKey(id)]
    ensures !r.Hit? && !r.NotFound? ==> GetPost(site, id).Some? && GetPost(site, id).value.file.present
    ensures r.TooLarge? ==> r.max == maxMb * OneMiB && r.max > 0 && |GetPost(site, id).value.file.data| > r.max
    ensures r.Beyond? ==> r.size == |GetPost(site, id).value.file.data| && ChunkStart(c, chunkBytes) >= r.size
    ensures r.Fresh? ==> (r.post == GetPost(site, id).value && r.start == ChunkStart(c, chunkBytes) &&
      r.end == ChunkEnd(c, chunkBytes, |r.post.file.data|) && r.start <= r.end < |r.post.file.data|)
  {
    if c == 0 && CacheKey(id) in cache then Hit(cache[CacheKey(id)])
    else match GetPost(site, id)
      case None => NotFound
      case Some(p) =>
        var size := |p.file.data|;
        var max := maxMb * OneMiB;
        if !p.file.present then NotFound
        else if max > 0 && size > max then TooLarge(max)
        else if ChunkStart(c, chunkBytes) >= size then Beyond(size)
        else Fresh(p, ChunkStart(c, chunkBytes), ChunkEnd(c, chunkBytes, size))
  }

  /** The bytes a fresh chunk sends. */
  function FreshBody(p: Post, start: nat, end: nat, io: Io): seq<int>
    requires start <= end
  {
    ChunkRead(p.file.data, start, end - start + 1, 0, io)
  }

  /**
   * The 403's text around `size`, which is what the site's size_format
   * makes of the cap: a WordPress formatting function this model takes as
   * a parameter.
   */
  function TooLargeText(size: string): (r: string)
    ensures |r| == |TooLargePrefix| + |size| + 1
    ensures r[..|TooLargePrefix|] == TooLargePrefix && r[|TooLargePrefix|..|r| - 1] == size && r[|r| - 1] == '.'
  {
    TooLargePrefix + size + "."
  }

  const TooLargePrefix := "File is too large. Maximum allowed size is "

  /** The response, from the cache or the file. */
  function ChunkResponse(site: Site, cache: map<string, CacheEntry>, id: nat, c: nat, chunkBytes: nat, maxMb: int, sizeFormat: nat -> string, io: Io): Response
    requires chunkBytes > 0 && CacheValid(cache)
  {
    match Decide(site, cache, id, c, chunkBytes, maxMb)
    case Hit(e) =>
      Response(206, Some(e.mime), Some(Satisfied(0, Min(chunkBytes - 1, e.fileSize - 1), e.fileSize)),
        Some(|e.data|), None, Some("hit"), e.data)
    case NotFound => Exit(404, NotFoundText)
    case TooLarge(max) => Exit(403, TooLargeText(sizeFormat(max)))
    case Beyond(size) => Response(416, None, Some(Unsatisfied(size)), None, None, None, [])
    case Fresh(p, s, e) =>
      Response(206, Some(p.mime), Some(Satisfied(s, e, |p.file.data|)), Some(e - s + 1), None, Some("miss"),
        FreshBody(p, s, e, io))
  }

  /**
   * The cache as the code should leave it: a freshly read chunk 0 is stored
   * under its key; nothing else changes.
   */
  function CacheAfter(site: Site, cache: map<string, CacheEntry>, id: nat, c: nat, chunkBytes: nat, maxMb: int, io: Io): (r: map<string, CacheEntry>)
    requires chunkBytes > 0
    ensures CacheValid(cache) ==> CacheValid(r)
    ensures forall key | key != CacheKey(id) :: (key in r <==> key in cache) && (key in r ==> r[key] == cache[key])
  {
    match Decide(site, cache, id, c, chunkBytes, maxMb)
    case Fresh(p, s, e) =>
      if c == 0 then cache[CacheKey(id) := CacheEntry(FreshBody(p, s, e, io), |p.file.data|, p.mime)] else cache
    case _ => cache
  }

  /** Whether the read loop's body runs at least once: only then is `$chunk` overwritten by a read. */
  predicate LoopRuns(p: Post, start: nat, end: nat, io: Io)
    requires start <= end
  {
    !Stops(p.file.data, start, end - start + 1, 0, io)
  }

  /**
   * The cache as the code leaves it: the `$chunk === 0` guard tests the
   * variable the loop reassigns to each read's string (or false), so the
   * write happens only when the loop never ran.
   */
  function CacheAfterAsWritten(site: Site, cache: map<string, CacheEntry>, id: nat, c: nat, chunkBytes: nat, maxMb: int, io: Io): map<string, CacheEntry>
    requires chunkBytes > 0
  {
    match Decide(site, cache, id, c, chunkBytes, maxMb)
    case Fresh(p, s, e) =>
      if c == 0 && !LoopRuns(p, s, e, io) then cache[CacheKey(id) := CacheEntry(FreshBody(p, s, e, io), |p.file.data|, p.mime)]
      else cache
    case _ => cache
  }

  /** As written, a chunk 0 whose first read is attempted is never cached, so the next request misses again. */
  lemma CacheWriteNeverFires(site: Site, cache: map<string, CacheEntry>, id: nat, chunkBytes: nat, maxMb: int, io: Io)
    requires chunkBytes > 0 && Decide(site, cache, id, 0, chunkBytes, maxMb).Fresh? && !io.eof(0)
    ensures CacheAfterAsWritten(site, cache, id, 0, chunkBytes, maxMb, io) == cache
    ensures Decide(site, CacheAfterAsWritten(site, cache, id, 0, chunkBytes, maxMb, io), id, 0, chunkBytes, maxMb).Fresh?
  {
  }

  /**
   * With the write in place, the next chunk-0 request is answered from the
   * cache with the very response the fresh read gave, marked as a hit, and
   * whatever the I/O then does.
   */
  lemma CachedChunkReplays(site: Site, cache: map<string, CacheEntry>, id: nat, chunkBytes: nat, maxMb: int, sizeFormat: nat -> string, io: Io, later: Io)
    requires chunkBytes > 0 && CacheValid(cache) && Faultless(io)
    requires Decide(site, cache, id, 0, chunkBytes, maxMb).Fresh?
    ensures var next := CacheAfter(site, cache, id, 0, chunkBytes, maxMb, io);
      ChunkResponse(site, next, id, 0, chunkBytes, maxMb, sizeFormat, later) ==
      ChunkResponse(site, cache, id, 0, chunkBytes, maxMb, sizeFormat, io).(cacheStatus := Some("hit"))
  {
    var plan := Decide(site, cache, id, 0, chunkBytes, maxMb);
    var p := plan.post;
    ChunkReadComplete(p.file.data, plan.start, plan.end - plan.start + 1, 0, io);
    var next := CacheAfter(site, cache, id, 0, chunkBytes, maxMb, io);
    assert Decide(site, next, id, 0, chunkBytes, maxMb) == Hit(next[CacheKey(id)]);
  }

  /** A fresh chunk is a 206 naming its interval, declaring its length and sending a prefix of it; without a fault all of it. */
  lemma FreshChunkLaws(site: Site, cache: map<string, CacheEntry>, id: nat, c: nat, chunkBytes: nat, maxMb: int, sizeFormat: nat -> string, io: Io)
    requires chunkBytes > 0 && CacheValid(cache)
    requires Decide(site, cache, id, c, chunkBytes, maxMb).Fresh?
    ensures var plan := Decide(site, cache, id, c, chunkBytes, maxMb);
      var data := plan.post.file.data;
      var r := ChunkResponse(site, cache, id, c, chunkBytes, maxMb, sizeFormat, io);
      r.status == 206 && r.cacheStatus == Some("miss") &&
      r.contentRange == Some(Satisfied(plan.start, plan.end, |data|)) &&
      r.contentLength == Some(plan.end - plan.start + 1) &&
      |r.body| <= plan.end - plan.start + 1 && r.body == data[plan.start..plan.start + |r.body|] &&
      (Faultless(io) ==> r.body == data[plan.start..plan.end + 1])
  {
    var plan := Decide(site, cache, id, c, chunkBytes, maxMb);
    FreshBodyLaws(plan.post, plan.start, plan.end, io);
  }

  /** A fresh chunk's bytes are a prefix of its interval, and without a fault all of it. */
  lemma FreshBodyLaws(p: Post, start: nat, end: nat, io: Io)
    requires start <= end < |p.file.data|
    ensures var b := FreshBody(p, start, end, io);
      |b| <= end - start + 1 && b == p.file.data[start..start + |b|] &&
      (Faultless(io) ==> b == p.file.data[start..end + 1])
  {
    ChunkReadSlice(p.file.data, start, end - start + 1, 0, io);
    if Faultless(io) {
      ChunkReadComplete(p.file.data, start, end - start + 1, 0, io);
    }
  }

  /** A chunk starting past the file is a 416 naming the size and sending nothing. */
  lemma BeyondChunkLaws(site: Site, cache: map<string, CacheEntry>, id: nat, c: nat, chunkBytes: nat, maxMb: int, sizeFormat: nat -> string, io: Io)
    requires chunkBytes > 0 && CacheValid(cache)
    requires Decide(site, cache, id, c, chunkBytes, maxMb).Beyond?
    ensures var r := ChunkResponse(site, cache, id, c, chunkBytes, maxMb, sizeFormat, io);
      r.status == 416 && r.body == [] &&
      r.contentRange == Some(Unsatisfied(|GetPost(site, id).value.file.data|))
  {
  }

  /**
   * A request that misses the cache is a 404 exactly when the post or its
   * file is missing, and a 403 exactly when the file exceeds a positive cap;
   * each exits with its text, naming the cap in the 403.
   */
  lemma RefusedChunkLaws(site: Site, cache: map<string, CacheEntry>, id: nat, c: nat, chunkBytes: nat, maxMb: int, sizeFormat: nat -> string, io: Io)
    requires chunkBytes > 0 && CacheValid(cache)
    ensures var r := ChunkResponse(site, cache, id, c, chunkBytes, maxMb, sizeFormat, io);
      var miss := !(c == 0 && CacheKey(id) in cache);
      var post := GetPost(site, id);
      (r.status == 404 <==> miss && (post.None? || !post.value.file.present)) &&
      (r.status == 404 ==> r.body == TextBytes(NotFoundText) && r.contentRange.None?) &&
      (r.status == 403 <==>
        miss && post.Some? && post.value.file.present && maxMb * OneMiB > 0 && |post.value.file.data| > maxMb * OneMiB) &&
      (r.status == 403 ==> r.body == TextBytes(TooLargeText(sizeFormat(maxMb * OneMiB))) && r.contentRange.None?)
  {
  }

  /** A hit is decided by the cache alone: no post, file or size is consulted. */
  lemma HitIgnoresSite(site: Site, other: Site, cache: map<string, CacheEntry>, id: nat, chunkBytes: nat, maxMb: int, sizeFormat: nat -> string, io: Io, io2: Io)
    requires chunkBytes > 0 && CacheValid(cache) && CacheKey(id) in cache
    ensures ChunkResponse(site, cache, id, 0, chunkBytes, maxMb, sizeFormat, io) == ChunkResponse(other, cache, id, 0, chunkBytes, maxMb, sizeFormat, io2)
    ensures ChunkResponse(site, cache, id, 0, chunkBytes, maxMb, sizeFormat, io).status == 206
  {
  }

  /** The transients the endpoint reads and writes. */
  class TransientCache {
    var entries: map<string, CacheEntry>

    predicate Valid()
      reads this
    {
      CacheValid(entries)
    }

    constructor()
      ensures entries == map[] && Valid()
    {
      entries := map[];
    }

    /** stream_audio_chunk, with the chunk-0 write as intended. */
    method StreamAudioChunk(site: Site, id: nat, c: nat, chunkBytes: nat, maxMb: int, sizeFormat: nat -> string, io: Io) returns (r: Response)
      requires chunkBytes > 0 && Valid()
      modifies this
      ensures r == ChunkResponse(site, old(entries), id, c, chunkBytes, maxMb, sizeFormat, io)
      ensures entries == CacheAfter(site, old(entries), id, c, chunkBytes, maxMb, io)
      ensures Valid()
    {
      var plan := Decide(site, entries, id, c, chunkBytes, maxMb);
      match plan
      case Hit(e) =>
        r := Response(206, Some(e.mime), Some(Satisfied(0, Min(chunkBytes - 1, e.fileSize - 1), e.fileSize)),
          Some(|e.data|), None, Some("hit"), e.data);
      case NotFound =>
        r := Exit(404, NotFoundText);
      case TooLarge(max) =>
        r := Exit(403, TooLargeText(sizeFormat(max)));
      case Beyond(size) =>
        r := Response(416, None, Some(Unsatisfied(size)), None, None, None, []);
      case Fresh(p, s, e) =>
        var buffer := ReadChunk(p.file.data, s, e - s + 1, io);
        r := Response(206, Some(p.mime), Some(Satisfied(s, e, |p.file.data|)), Some(e - s + 1), None, Some("miss"), buffer);
        if c == 0 {
          entries := entries[CacheKey(id) := CacheEntry(buffer, |p.file.data|, p.mime)];
        }
    }
  }

  /*
   * The two entry points
   */

  /**
   * handle_audio_request: the rewrite route's two query variables; an
   * empty() one (including chunk "0") makes the handler return and leave the
   * request to WordPress.
   */
  function HandleAudioRequest(fileVar: string, chunkVar: string): (r: Option<(nat, nat)>)
    ensures r.None? <==> EmptyString(fileVar) || EmptyString(chunkVar)
    ensures r.Some? ==> r.value == (AbsInt(Str(fileVar)), AbsInt(Str(chunkVar)))
  {
    if EmptyString(fileVar) || EmptyString(chunkVar) then None
    else Some((AbsInt(Str(fileVar)), AbsInt(Str(chunkVar))))
  }

  /** The rewrite route can never serve chunk 0: the segment "0" is empty(). */
  lemma RewriteDropsChunkZero(fileVar: string)
    ensures HandleAudioRequest(fileVar, "0") == None
  {
  }

  /** A spelled file id and positive chunk index reach stream_audio_chunk unchanged. */
  lemma RewriteSpelled(id: nat, c: nat)
    requires id > 0 && c > 0
    ensures HandleAudioRequest(NatToString(id), NatToString(c)) == Some((id, c))
  {
    RangePattern.SpelledValue(id);
    RangePattern.SpelledValue(c);
    IntValOfNatToString(id);
    IntValOfNatToString(c);
  }

  /** handle_stream_request: both GET parameters must be set (empty values included); absint() of each. */
  function HandleStreamRequest(query: map<string, string>): (r: Option<(nat, nat)>)
    ensures r.None? <==> "file_id" !in query || "chunk" !in query
    ensures r.Some? ==> r.value == (AbsInt(Str(query["file_id"])), AbsInt(Str(query["chunk"])))
  {
    if "file_id" !in query || "chunk" !in query then None
    else Some((AbsInt(Str(query["file_id"])), AbsInt(Str(query["chunk"]))))
  }

  /** The AJAX route does serve chunk 0, so only it can reach the cache. */
  lemma AjaxServesChunkZero(id: nat)
    ensures HandleStreamRequest(map["file_id" := NatToString(id), "chunk" := "0"]) == Some((id, 0))
  {
    var q := map["file_id" := NatToString(id), "chunk" := "0"];
    assert "file_id" in q && q["file_id"] == NatToString(id);
    assert "chunk" in q && q["chunk"] == "0";
    IntValOfNatToString(id);
    IntValOfNatToString(0);
    assert NatToString(0) == "0";
  }
}
