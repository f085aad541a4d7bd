/**
 Non-blocking reads: what is cached is shown, the rest is zero and reported as
 demand (crates/hxy-core/src/cache.rs).
 */
module StreamingReads {
  import opened Splices
  import opened LruChunks
  import opened ByteCacheModel
  import opened CacheInterleavings
  import opened ByteCacheObject

  datatype PeekResult = Peeked(bytes: Bytes, missing: seq<ByteRange>) | PeekPastEnd(sourceLen: nat)

  /** The byte at `p`, where its chunk is cached and lies in front of chunk `end`; else zero. */
  function ShownByte(chunks: Lru, inner: Bytes, source: nat, end: nat, p: nat): Byte
    requires p < |inner|
  {
    if p / CHUNK_SIZE < end && Holds(chunks, ChunkKey(source, p / CHUNK_SIZE)) then inner[p] else 0
  }

  function Shown(chunks: Lru, inner: Bytes, source: nat, range: ByteRange, end: nat): (r: Bytes)
    requires range.start <= range.end <= |inner|
    ensures |r| == range.end - range.start
    ensures forall i :: 0 <= i < |r| ==> r[i] == ShownByte(chunks, inner, source, end, range.start + i)
  {
    seq(range.end - range.start, i requires 0 <= i < range.end - range.start =>
      ShownByte(chunks, inner, source, end, range.start + i))
  }

  predicate Covers(ranges: seq<ByteRange>, p: nat) {
    exists i :: 0 <= i < |ranges| && ranges[i].start <= p < ranges[i].end
  }

  /** Non-empty, sorted, and apart: touching neighbours are one range. */
  predicate Coalesced(ranges: seq<ByteRange>) {
    && (forall i :: 0 <= i < |ranges| ==> ranges[i].start < ranges[i].end)
    && (forall i, j :: 0 <= i < j < |ranges| ==> ranges[i].end < ranges[j].start)
  }

  /** A demanded range: whole chunks, the last one cut off at the source's end. */
  predicate WholeChunks(range: ByteRange, len: nat) {
    && range.start < range.end <= len && range.start % CHUNK_SIZE == 0
    && (range.end % CHUNK_SIZE == 0 || range.end == len)
  }

  /** `missing` covers exactly the uncached chunks from `first` up to `end`, maximally coalesced. */
  ghost predicate MissingExact(
    chunks: Lru, source: nat, len: nat, first: nat, end: nat, missing: seq<ByteRange>)
  {
    && Coalesced(missing)
    && (forall i :: 0 <= i < |missing| ==> WholeChunks(missing[i], len))
    && forall p: nat :: Covers(missing, p) <==>
         (p < len && first <= p / CHUNK_SIZE < end && !Holds(chunks, ChunkKey(source, p / CHUNK_SIZE)))
  }

  lemma CoveredBelow(chunks: Lru, source: nat, len: nat, first: nat, end: nat, missing: seq<ByteRange>)
    requires MissingExact(chunks, source, len, first, end, missing)
    ensures forall i :: 0 <= i < |missing| ==> missing[i].end <= end * CHUNK_SIZE && missing[i].end <= len
  {
    forall i | 0 <= i < |missing| ensures missing[i].end <= end * CHUNK_SIZE && missing[i].end <= len {
      var p: nat := missing[i].end - 1;
      assert Covers(missing, p);
    }
  }

  lemma MissingSkip(chunks: Lru, source: nat, len: nat, first: nat, ci: nat, missing: seq<ByteRange>)
    requires MissingExact(chunks, source, len, first, ci, missing) && Holds(chunks, ChunkKey(source, ci))
    ensures MissingExact(chunks, source, len, first, ci + 1, missing)
  {
    forall p: nat ensures Covers(missing, p) <==>
      (p < len && first <= p / CHUNK_SIZE < ci + 1 && !Holds(chunks, ChunkKey(source, p / CHUNK_SIZE)))
    {
      if p / CHUNK_SIZE == ci {
        assert !Covers(missing, p);
      }
    }
  }

  /** The list with one more missing chunk `[cs, ce)` behind it. */
  function PushMissing(missing: seq<ByteRange>, cs: nat, ce: nat): seq<ByteRange> {
    if missing != [] && missing[|missing| - 1].end == cs
    then missing[..|missing| - 1] + [ByteRange(missing[|missing| - 1].start, ce)]
    else missing + [ByteRange(cs, ce)]
  }

  lemma PushCovers(missing: seq<ByteRange>, cs: nat, ce: nat, p: nat)
    requires Coalesced(missing) && cs < ce
    ensures Covers(PushMissing(missing, cs, ce), p) <==> Covers(missing, p) || cs <= p < ce
  {
    var r, n := PushMissing(missing, cs, ce), |missing|;
    if Covers(missing, p) {
      var i :| 0 <= i < n && missing[i].start <= p < missing[i].end;
      assert r[i].start <= p < r[i].end;
    }
    if cs <= p < ce {
      assert r[|r| - 1].start <= p < r[|r| - 1].end;
    }
    if Covers(r, p) && !(cs <= p < ce) {
      var i :| 0 <= i < |r| && r[i].start <= p < r[i].end;
      assert i < n && missing[i].start <= p < missing[i].end;
    }
  }

  lemma MissingPush(chunks: Lru, source: nat, len: nat, first: nat, ci: nat, missing: seq<ByteRange>)
    requires MissingExact(chunks, source, len, first, ci, missing) && !Holds(chunks, ChunkKey(source, ci))
    requires first <= ci && ci * CHUNK_SIZE < len
    ensures MissingExact(chunks, source, len, first, ci + 1,
      PushMissing(missing, ci * CHUNK_SIZE, ChunkEnd(len, ci)))
  {
    var cs, ce := ci * CHUNK_SIZE, ChunkEnd(len, ci);
    CoveredBelow(chunks, source, len, first, ci, missing);
    forall p: nat ensures Covers(PushMissing(missing, cs, ce), p) <==>
      (p < len && first <= p / CHUNK_SIZE < ci + 1 && !Holds(chunks, ChunkKey(source, p / CHUNK_SIZE)))
    {
      PushCovers(missing, cs, ce, p);
      assert cs <= p < ce <==> p < len && p / CHUNK_SIZE == ci;
    }
  }

  /** Copying one cached chunk's part into the output. */
  lemma ShowChunk(chunks: Lru, inner: Bytes, source: nat, range: ByteRange, ci: nat, from: nat, to: nat)
    requires range.start < range.end <= |inner| && Holds(chunks, ChunkKey(source, ci))
    requires ci * CHUNK_SIZE < range.end && range.start < ChunkEnd(|inner|, ci)
    requires from == if range.start >= ci * CHUNK_SIZE then range.start else ci * CHUNK_SIZE
    requires to == if range.end <= ChunkEnd(|inner|, ci) then range.end else ChunkEnd(|inner|, ci)
    ensures from <= to
    ensures Overwrite(Shown(chunks, inner, source, range, ci), from - range.start, inner[from..to])
      == Shown(chunks, inner, source, range, ci + 1)
  {
    var a, b := Shown(chunks, inner, source, range, ci), Shown(chunks, inner, source, range, ci + 1);
    var o := Overwrite(a, from - range.start, inner[from..to]);
    forall i | 0 <= i < |o| ensures o[i] == b[i] {
      OverwriteAt(a, from - range.start, inner[from..to], i);
      var p := range.start + i;
      assert from <= p < to <==> p / CHUNK_SIZE == ci;
    }
  }

  lemma ShowNothing(chunks: Lru, inner: Bytes, source: nat, range: ByteRange, ci: nat)
    requires range.start <= range.end <= |inner| && !Holds(chunks, ChunkKey(source, ci))
    ensures Shown(chunks, inner, source, range, ci) == Shown(chunks, inner, source, range, ci + 1)
  {
  }

  lemma LookupKeepsKeys(c: Cache, src: Sources, key: ChunkKey)
    requires Honest(c.chunks, src)
    ensures Honest(Lookup(c, key).0.chunks, src)
    ensures forall k :: Holds(Lookup(c, key).0.chunks, k) <==> Holds(c.chunks, k)
    ensures Lookup(c, key).1.Some? <==> Holds(c.chunks, key)
    ensures Holds(c.chunks, key) ==>
      key.source in src && key.chunk * CHUNK_SIZE < |src[key.source]|
      && Lookup(c, key).1 == Some(ChunkOf(src[key.source], key.chunk))
  {
    LookupHonest(c, src, key);
    if IndexOf(c.chunks, key) < |c.chunks| {
      PromoteContents(c.chunks, IndexOf(c.chunks, key));
    }
  }

  /**
   `peek`: the true byte wherever the chunk is cached and zero elsewhere, with the
   uncached chunks of the range reported, and no read of the source.
   */
  method Peek(cache: ByteCache, range: ByteRange, source: nat, inner: Bytes, ghost src: Sources)
    returns (r: PeekResult)
    requires source in src && src[source] == inner && Honest(cache.chunks, src) && range.start <= range.end
    modifies cache
    ensures range.end > |inner| ==> r == PeekPastEnd(|inner|) && cache.Abs() == old(cache.Abs())
    ensures range.start == range.end <= |inner| ==> r == Peeked([], []) && cache.Abs() == old(cache.Abs())
    ensures range.start < range.end <= |inner| ==>
      var first, end := range.start / CHUNK_SIZE, (range.end - 1) / CHUNK_SIZE + 1;
      && r.Peeked? && r.bytes == Shown(old(cache.chunks), inner, source, range, end)
      && MissingExact(old(cache.chunks), source, |inner|, first, end, r.missing)
      && cache.Abs() == LookupAll(old(cache.Abs()), source, first, end)
    ensures Honest(cache.chunks, src)
    ensures forall k :: Holds(cache.chunks, k) <==> Holds(old(cache.chunks), k)
  {
    hide Honest, MissingExact, Lookup, ShownByte;
    if range.end > |inner| {
      return PeekPastEnd(|inner|);
    }
    if range.start == range.end {
      return Peeked([], []);
    }
    var first, last := range.start / CHUNK_SIZE, (range.end - 1) / CHUNK_SIZE;
    ghost var before := cache.chunks;
    var out: Bytes := seq(range.end - range.start, _ => 0);
    var missing: seq<ByteRange> := [];
    StartOfPeek(before, inner, source, range, first);
    var ci := first;
    while ci <= last
      invariant first <= ci <= last + 1
      invariant cache.Abs() == LookupAll(old(cache.Abs()), source, first, ci)
      invariant Honest(cache.chunks, src) && forall k :: Holds(cache.chunks, k) <==> Holds(before, k)
      invariant out == Shown(before, inner, source, range, ci)
      invariant MissingExact(before, source, |inner|, first, ci, missing)
    {
      out, missing := PeekChunk(cache, range, source, inner, ci, out, missing, src, before);
      ci := ci + 1;
    }
    r := Peeked(out, missing);
  }

  /** One chunk of a peek: shown when cached, reported when not. */
  method PeekChunk(
      cache: ByteCache, range: ByteRange, source: nat, inner: Bytes, ci: nat, out: Bytes, missing: seq<ByteRange>,
      ghost src: Sources, ghost before: Lru)
    returns (shown: Bytes, reported: seq<ByteRange>)
    requires range.start < range.end <= |inner|
    requires range.start / CHUNK_SIZE <= ci <= (range.end - 1) / CHUNK_SIZE
    requires source in src && src[source] == inner && Honest(cache.chunks, src)
    requires forall k :: Holds(cache.chunks, k) <==> Holds(before, k)
    requires out == Shown(before, inner, source, range, ci)
    requires MissingExact(before, source, |inner|, range.start / CHUNK_SIZE, ci, missing)
    modifies cache
    ensures cache.Abs() == Lookup(old(cache.Abs()), ChunkKey(source, ci)).0
    ensures Honest(cache.chunks, src) && forall k :: Holds(cache.chunks, k) <==> Holds(before, k)
    ensures shown == Shown(before, inner, source, range, ci + 1)
    ensures MissingExact(before, source, |inner|, range.start / CHUNK_SIZE, ci + 1, reported)
  {
    hide Honest, MissingExact, Lookup, ShownByte, PushMissing, Shown, Overwrite;
    var chunkStart := ci * CHUNK_SIZE;
    var chunkEnd := ChunkEnd(|inner|, ci);
    shown, reported := out, missing;
    LookupKeepsKeys(cache.Abs(), src, ChunkKey(source, ci));
    var found := cache.LookupChunk(ChunkKey(source, ci));
    if found.Some? {
      var takeStart := if range.start >= chunkStart then range.start else chunkStart;
      var takeEnd := if range.end <= chunkEnd then range.end else chunkEnd;
      ShowChunk(before, inner, source, range, ci, takeStart, takeEnd);
      SliceOfSlice(inner, chunkStart, chunkEnd - chunkStart, takeStart - chunkStart, takeEnd - chunkStart);
      shown := Overwrite(
        out, takeStart - range.start, found.value[takeStart - chunkStart..takeEnd - chunkStart]);
      MissingSkip(before, source, |inner|, range.start / CHUNK_SIZE, ci, missing);
    } else {
      ShowNothing(before, inner, source, range, ci);
      MissingPush(before, source, |inner|, range.start / CHUNK_SIZE, ci, missing);
      reported := PushMissing(missing, chunkStart, chunkEnd);
    }
  }

  lemma StartOfPeek(chunks: Lru, inner: Bytes, source: nat, range: ByteRange, first: nat)
    requires range.start <= range.end <= |inner| && first == range.start / CHUNK_SIZE
    ensures seq(range.end - range.start, _ => 0 as Byte) == Shown(chunks, inner, source, range, first)
    ensures MissingExact(chunks, source, |inner|, first, first, [])
  {
  }

  /** A read that reports nothing missing shows exactly the source's bytes. */
  lemma NoDemandIsExact(chunks: Lru, inner: Bytes, source: nat, range: ByteRange, first: nat, end: nat)
    requires range.start < range.end <= |inner|
    requires first == range.start / CHUNK_SIZE && end == (range.end - 1) / CHUNK_SIZE + 1
    requires MissingExact(chunks, source, |inner|, first, end, [])
    ensures Shown(chunks, inner, source, range, end) == inner[range.start..range.end]
  {
    var s := Shown(chunks, inner, source, range, end);
    forall i | 0 <= i < |s| ensures s[i] == inner[range.start + i] {
      var p := range.start + i;
      assert !Covers([], p);
      assert first <= p / CHUNK_SIZE < end;
    }
  }

  // ------------------------------------------------ prefetching the demand

  lemma FetchKeys(c: Cache, src: Sources, e: Entry)
    requires Good(c, src) && Roomy(|src|, c.limit) && TrueEntry(src, e) && c.used + |e.bytes| <= c.limit
    ensures var r := Fetch(c, e);
      && Good(r, src) && r.limit == c.limit && r.used <= c.used + |e.bytes|
      && forall k :: Holds(r.chunks, k) <==> Holds(c.chunks, k) || k == e.key
  {
    LookupGood(c, src, e.key);
    InsertGood(c, src, e);
    InsertWithinBudget(c, src, e);
  }

  lemma FetchGood(c: Cache, src: Sources, e: Entry)
    requires Good(c, src) && Roomy(|src|, c.limit) && TrueEntry(src, e)
    ensures Good(Fetch(c, e), src) && Fetch(c, e).limit == c.limit
  {
    hide Good, Roomy, Lookup, Insert;
    LookupGood(c, src, e.key);
    InsertGood(c, src, e);
  }

  /** Within the budget a blocking read caches its chunks and evicts none. */
  lemma {:induction false} FetchAllKeys(
      c: Cache, src: Sources, source: nat, attribution: Attribution, first: nat, end: nat)
    requires Good(c, src) && Roomy(|src|, c.limit) && source in src && first < end
    requires (end - 1) * CHUNK_SIZE < |src[source]|
    requires c.used + (ChunkEnd(|src[source]|, end - 1) - first * CHUNK_SIZE) <= c.limit
    ensures var r := FetchAll(c, src[source], source, attribution, first, end);
      && Good(r, src) && r.limit == c.limit
      && r.used <= c.used + (ChunkEnd(|src[source]|, end - 1) - first * CHUNK_SIZE)
      && forall k :: Holds(r.chunks, k) <==> Holds(c.chunks, k) || (k.source == source && first <= k.chunk < end)
    decreases end - first
  {
    hide Good, Fetch;
    var inner := src[source];
    var e := TheEntry(inner, source, end - 1, attribution);
    if first == end - 1 {
      assert FetchAll(c, inner, source, attribution, first, end - 1) == c;
      FetchKeys(c, src, e);
    } else {
      FetchAllKeys(c, src, source, attribution, first, end - 1);
      FetchKeys(FetchAll(c, inner, source, attribution, first, end - 1), src, e);
    }
  }

  function RangesLength(ranges: seq<ByteRange>): nat {
    if ranges == [] then 0
    else RangesLength(ranges[..|ranges| - 1]) + Minus(ranges[|ranges| - 1].end, ranges[|ranges| - 1].start)
  }

  lemma WholeChunksSpan(range: ByteRange, len: nat)
    requires WholeChunks(range, len)
    ensures var first, end := range.start / CHUNK_SIZE, (range.end - 1) / CHUNK_SIZE + 1;
      first < end && (end - 1) * CHUNK_SIZE < len
      && ChunkEnd(len, end - 1) - first * CHUNK_SIZE == range.end - range.start
  {
  }

  /** Every range of the list fetched in turn, as the driver does with the demand. */
  function PrefetchAll(c: Cache, inner: Bytes, source: nat, attribution: Attribution, ranges: seq<ByteRange>): Cache
    requires forall i :: 0 <= i < |ranges| ==> WholeChunks(ranges[i], |inner|)
  {
    if ranges == [] then c
    else
      var r := ranges[|ranges| - 1];
      WholeChunksSpan(r, |inner|);
      FetchAll(PrefetchAll(c, inner, source, attribution, ranges[..|ranges| - 1]), inner, source, attribution,
        r.start / CHUNK_SIZE, (r.end - 1) / CHUNK_SIZE + 1)
  }

  lemma {:induction false} PrefetchAllKeys(
      c: Cache, src: Sources, source: nat, attribution: Attribution, ranges: seq<ByteRange>)
    requires Good(c, src) && Roomy(|src|, c.limit) && source in src
    requires forall i :: 0 <= i < |ranges| ==> WholeChunks(ranges[i], |src[source]|)
    requires c.used + RangesLength(ranges) <= c.limit
    ensures var r := PrefetchAll(c, src[source], source, attribution, ranges);
      && Good(r, src) && r.limit == c.limit && r.used <= c.used + RangesLength(ranges)
      && (forall k :: Holds(c.chunks, k) ==> Holds(r.chunks, k))
      && (forall p: nat :: Covers(ranges, p) ==> Holds(r.chunks, ChunkKey(source, p / CHUNK_SIZE)))
    decreases |ranges|
  {
    hide Good, FetchAll, Holds, WholeChunks;
    if ranges != [] {
      var init, r := ranges[..|ranges| - 1], ranges[|ranges| - 1];
      var first, end := r.start / CHUNK_SIZE, (r.end - 1) / CHUNK_SIZE + 1;
      WholeChunksSpan(r, |src[source]|);
      PrefetchAllKeys(c, src, source, attribution, init);
      var mid := PrefetchAll(c, src[source], source, attribution, init);
      FetchAllKeys(mid, src, source, attribution, first, end);
      CoversSplit(init, r);
      assert ranges == init + [r];
    }
  }

  lemma CoversSplit(ranges: seq<ByteRange>, r: ByteRange)
    ensures forall p: nat :: Covers(ranges + [r], p) ==> Covers(ranges, p) || r.start <= p < r.end
  {
    forall p: nat | Covers(ranges + [r], p) ensures Covers(ranges, p) || r.start <= p < r.end {
      var all := ranges + [r];
      var i :| 0 <= i < |all| && all[i].start <= p < all[i].end;
      assert i < |ranges| ==> ranges[i] == all[i];
    }
  }

  lemma NonEmptyCoversSomething(ranges: seq<ByteRange>)
    requires Coalesced(ranges)
    ensures ranges != [] ==> exists p: nat :: Covers(ranges, p)
  {
    if ranges != [] {
      assert Covers(ranges, ranges[0].start);
    }
  }

  /**
   Prefetching what a read demanded, when it fits the budget next to what is cached,
   makes the next read exact, and it demands nothing.
   */
  lemma PrefetchingTheDemandIsEnough(
      c: Cache, src: Sources, source: nat, attribution: Attribution, range: ByteRange, first: nat, end: nat,
      missing: seq<ByteRange>, again: seq<ByteRange>)
    requires Good(c, src) && Roomy(|src|, c.limit) && source in src
    requires range.start < range.end <= |src[source]|
    requires first == range.start / CHUNK_SIZE && end == (range.end - 1) / CHUNK_SIZE + 1
    requires MissingExact(c.chunks, source, |src[source]|, first, end, missing)
    requires c.used + RangesLength(missing) <= c.limit
    requires MissingExact(PrefetchAll(c, src[source], source, attribution, missing).chunks,
      source, |src[source]|, first, end, again)
    ensures again == []
    ensures var r := PrefetchAll(c, src[source], source, attribution, missing);
      Shown(r.chunks, src[source], source, range, end) == src[source][range.start..range.end]
  {
    PrefetchAllKeys(c, src, source, attribution, missing);
    var r := PrefetchAll(c, src[source], source, attribution, missing);
    NonEmptyCoversSomething(again);
    NoDemandIsExact(r.chunks, src[source], source, range, first, end);
  }

  // ---------------------------------------------------- the source object

  class StreamingSource {
    const cache: ByteCache
    const sourceId: nat
    const attribution: Attribution
    const inner: Bytes
    var demand: seq<ByteRange>

    ghost function Known(): Sources {
      map[sourceId := inner]
    }

    ghost predicate Valid()
      reads this, cache
    {
      Good(cache.Abs(), Known())
    }

    constructor (source: Bytes, limit: nat, owner: Attribution)
      ensures fresh(cache) && Valid() && demand == [] && inner == source
      ensures cache.Abs() == Empty(limit)
    {
      cache := new ByteCache(limit);
      sourceId, attribution, inner, demand := 1, owner, source, [];
      new;
      assert forall b :: BucketTotal([], b) == 0;
    }

    /** Never touches the inner source; records what was missing. */
    method ReadNow(range: ByteRange) returns (r: PeekResult)
      requires Valid() && range.start <= range.end
      modifies this`demand, cache
      ensures Valid()
      ensures r.PeekPastEnd? <==> range.end > |inner|
      ensures demand == if r.Peeked? then old(demand) + r.missing else old(demand)
      ensures r.Peeked? && r.missing == [] ==> r.bytes == inner[range.start..range.end]
      ensures r.Peeked? && range.start < range.end ==>
        MissingExact(old(cache.chunks), sourceId, |inner|,
          range.start / CHUNK_SIZE, (range.end - 1) / CHUNK_SIZE + 1, r.missing)
      ensures forall k :: Holds(cache.chunks, k) <==> Holds(old(cache.chunks), k)
      ensures cache.usedBytes == old(cache.usedBytes) && cache.limit == old(cache.limit)
    {
      hide Good, LookupAll, MissingExact, Honest, Shown;
      ghost var c := cache.Abs();
      GoodIsHonest(c, Known());
      r := Peek(cache, range, sourceId, inner, Known());
      if r.Peeked? {
        demand := demand + r.missing;
        if range.start < range.end {
          ghost var first, end := range.start / CHUNK_SIZE, (range.end - 1) / CHUNK_SIZE + 1;
          LookupAllGood(c, Known(), sourceId, first, end);
          if r.missing == [] {
            NoDemandIsExact(c.chunks, inner, sourceId, range, first, end);
          }
        }
      }
    }

    method TakeDemand() returns (ranges: seq<ByteRange>)
      modifies this`demand
      ensures ranges == old(demand) && demand == []
    {
      ranges, demand := demand, [];
    }

    /** Blocking fetch of a range into the cache. */
    method Prefetch(range: ByteRange) returns (r: ReadOutcome)
      requires Valid() && range.start <= range.end
      modifies cache
      ensures Valid()
      ensures r == if range.end > |inner| then PastEnd(|inner|) else Delivered(inner[range.start..range.end])
      ensures range.start < range.end <= |inner| ==>
        cache.Abs() == FetchAll(old(cache.Abs()), inner, sourceId, attribution,
          range.start / CHUNK_SIZE, (range.end - 1) / CHUNK_SIZE + 1)
    {
      hide Good, FetchAll, Honest, Holds;
      ghost var c := cache.Abs();
      GoodIsHonest(c, Known());
      LoneSourceFetches(c, inner, sourceId, attribution, range);
      HonestIsCurrent(cache.chunks, Known(), sourceId);
      r := cache.ReadWith(range, sourceId, attribution, inner);
    }

    /** The driver: fetch everything that was demanded. */
    method ServeDemand()
      requires Valid() && forall i :: 0 <= i < |demand| ==> WholeChunks(demand[i], |inner|)
      modifies this`demand, cache
      ensures Valid() && demand == []
      ensures cache.Abs() == PrefetchAll(old(cache.Abs()), inner, sourceId, attribution, old(demand))
    {
      hide Good, FetchAll;
      var ranges := TakeDemand();
      var i := 0;
      while i < |ranges|
        invariant 0 <= i <= |ranges| && Valid() && demand == []
        invariant cache.Abs() == PrefetchAll(old(cache.Abs()), inner, sourceId, attribution, ranges[..i])
      {
        WholeChunksSpan(ranges[i], |inner|);
        var _ := Prefetch(ranges[i]);
        assert ranges[..i + 1][..i] == ranges[..i];
        i := i + 1;
      }
      assert ranges[..i] == ranges;
    }

    /**
     A read, the driver, and the read again: when the chunks of the range fit the budget next to what is cached,
     the second read is exact and demands nothing.
     */
    method ReadServeRead(range: ByteRange) returns (r: PeekResult)
      requires Valid() && demand == [] && range.start < range.end <= |inner|
      requires cache.usedBytes + ChunkEnd(|inner|, (range.end - 1) / CHUNK_SIZE)
               <= cache.limit + range.start / CHUNK_SIZE * CHUNK_SIZE
      modifies this`demand, cache
      ensures Valid() && demand == []
      ensures r == Peeked(inner[range.start..range.end], [])
    {
      hide Good, MissingExact, PrefetchAll, Shown, RangesLength, Holds, Roomy;
      ghost var first, end := range.start / CHUNK_SIZE, (range.end - 1) / CHUNK_SIZE + 1;
      ghost var before := cache.chunks;
      r := ReadNow(range);
      ghost var c, missing := cache.Abs(), r.missing;
      MissingSameKeys(before, c.chunks, sourceId, |inner|, first, end, missing);
      MissingFits(c.chunks, sourceId, |inner|, first, end, missing);
      assert demand == missing;
      ServeDemand();
      r := ReadNow(range);
      AloneIsRoomy(sourceId, inner, c.limit);
      PrefetchingTheDemandIsEnough(c, Known(), sourceId, attribution, range, first, end, missing, r.missing);
    }
  }

  lemma AloneIsRoomy(source: nat, inner: Bytes, limit: nat)
    ensures Roomy(|map[source := inner]|, limit)
  {
    var src := map[source := inner];
    assert src.Keys == {source} && |src| == |src.Keys|;
    SixteenAreRoomy(|src|, limit);
  }

  lemma MissingSameKeys(a: Lru, b: Lru, source: nat, len: nat, first: nat, end: nat, missing: seq<ByteRange>)
    requires MissingExact(a, source, len, first, end, missing)
    requires forall k :: Holds(a, k) <==> Holds(b, k)
    ensures MissingExact(b, source, len, first, end, missing)
  {
    hide Holds;
  }

  /** Ranges that are apart are together no longer than the stretch they lie in. */
  lemma {:induction false} ApartIsShort(ranges: seq<ByteRange>, start: nat, end: nat)
    requires Coalesced(ranges) && start <= end
    requires forall i :: 0 <= i < |ranges| ==> start <= ranges[i].start && ranges[i].end <= end
    ensures RangesLength(ranges) <= end - start
    decreases |ranges|
  {
    if ranges != [] {
      var init, last := ranges[..|ranges| - 1], ranges[|ranges| - 1];
      assert forall i :: 0 <= i < |init| ==> init[i] == ranges[i];
      ApartIsShort(init, start, last.start);
    }
  }

  /** What is missing of a range is no more than its chunks. */
  lemma MissingFits(chunks: Lru, source: nat, len: nat, first: nat, end: nat, missing: seq<ByteRange>)
    requires MissingExact(chunks, source, len, first, end, missing)
    requires first < end && (end - 1) * CHUNK_SIZE < len
    ensures RangesLength(missing) <= ChunkEnd(len, end - 1) - first * CHUNK_SIZE
    ensures forall i :: 0 <= i < |missing| ==> WholeChunks(missing[i], len)
  {
    forall i | 0 <= i < |missing|
      ensures first * CHUNK_SIZE <= missing[i].start && missing[i].end <= ChunkEnd(len, end - 1)
    {
      assert WholeChunks(missing[i], len);
      assert Covers(missing, missing[i].start) && Covers(missing, missing[i].end - 1);
    }
    ApartIsShort(missing, first * CHUNK_SIZE, ChunkEnd(len, end - 1));
  }

  lemma GoodIsHonest(c: Cache, src: Sources)
    requires Good(c, src)
    ensures Honest(c.chunks, src)
  {
  }

  lemma HonestIsCurrent(chunks: Lru, src: Sources, source: nat)
    requires Honest(chunks, src) && source in src
    ensures Distinct(chunks) && forall first, end :: Current(chunks, source, src[source], first, end)
  {
  }

  /** A single source always leaves room, so reading any range of it keeps the cache good. */
  lemma LoneSourceFetches(c: Cache, inner: Bytes, source: nat, attribution: Attribution, range: ByteRange)
    requires Good(c, map[source := inner])
    ensures range.start < range.end <= |inner| ==>
      Good(FetchAll(c, inner, source, attribution, range.start / CHUNK_SIZE, (range.end - 1) / CHUNK_SIZE + 1),
        map[source := inner])
  {
    hide Good, FetchAll;
    var src := map[source := inner];
    AloneIsRoomy(source, inner, c.limit);
    if range.start < range.end <= |inner| {
      FetchAllGood(c, src, source, attribution, range.start / CHUNK_SIZE, (range.end - 1) / CHUNK_SIZE + 1);
    }
  }

  lemma {:induction false} LookupAllGood(c: Cache, src: Sources, source: nat, first: nat, end: nat)
    requires Good(c, src) && first <= end
    ensures var r := LookupAll(c, source, first, end);
      Good(r, src) && r.limit == c.limit && r.used == c.used
    decreases end - first
  {
    hide Good, Lookup;
    if first < end {
      LookupAllGood(c, src, source, first, end - 1);
      LookupGood(LookupAll(c, source, first, end - 1), src, ChunkKey(source, end - 1));
    }
  }

  lemma {:induction false} FetchAllGood(
      c: Cache, src: Sources, source: nat, attribution: Attribution, first: nat, end: nat)
    requires Good(c, src) && Roomy(|src|, c.limit) && source in src && first <= end
    requires first < end ==> (end - 1) * CHUNK_SIZE < |src[source]|
    ensures var r := FetchAll(c, src[source], source, attribution, first, end); Good(r, src) && r.limit == c.limit
    decreases end - first
  {
    hide Roomy, Good, Fetch;
    if first < end {
      FetchAllGood(c, src, source, attribution, first, end - 1);
      var mid := FetchAll(c, src[source], source, attribution, first, end - 1);
      FetchGood(mid, src, TheEntry(src[source], source, end - 1, attribution));
    }
  }
}
