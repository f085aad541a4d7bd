/**
 The cache object: each locked section updates the fields step by step and is
 proved against its pure counterpart (crates/hxy-core/src/cache.rs).
 */
module ByteCacheObject {
  import opened Splices
  import opened LruChunks
  import opened ByteCacheModel
  import opened CacheInterleavings

  datatype ByteRange = ByteRange(start: nat, end: nat)

  /** The keys between two chunk numbers looked up one after the other. */
  function LookupAll(c: Cache, source: nat, first: nat, end: nat): Cache
    requires first <= end
    decreases end - first
  {
    if first == end then c else Lookup(LookupAll(c, source, first, end - 1), ChunkKey(source, end - 1)).0
  }

  /** One whole fetch with nothing in between. */
  function Fetch(c: Cache, e: Entry): Cache {
    if Lookup(c, e.key).1.Some? then Lookup(c, e.key).0 else Insert(c, e).0
  }

  function TheEntry(inner: Bytes, source: nat, chunk: nat, attribution: Attribution): Entry
    requires chunk * CHUNK_SIZE < |inner|
  {
    Entry(ChunkKey(source, chunk), ChunkOf(inner, chunk), attribution)
  }

  function FetchAll(c: Cache, inner: Bytes, source: nat, attribution: Attribution, first: nat, end: nat): Cache
    requires first <= end && (first < end ==> (end - 1) * CHUNK_SIZE < |inner|)
    decreases end - first
  {
    if first == end then c
    else Fetch(FetchAll(c, inner, source, attribution, first, end - 1), TheEntry(inner, source, end - 1, attribution))
  }

  function StoreAll(c: Cache, inner: Bytes, source: nat, attribution: Attribution, first: nat, end: nat): Cache
    requires first <= end && (first < end ==> (end - 1) * CHUNK_SIZE < |inner|)
    decreases end - first
  {
    if first == end then c
    else Store(StoreAll(c, inner, source, attribution, first, end - 1), TheEntry(inner, source, end - 1, attribution))
  }

  lemma FetchContents(c: Cache, e: Entry)
    requires Distinct(c.chunks) && forall x <- c.chunks :: x.key == e.key ==> x.bytes == e.bytes
    ensures Distinct(Fetch(c, e).chunks) && forall x <- Fetch(c, e).chunks :: x in c.chunks || x == e
  {
    hide Lookup, Insert, Distinct;
    LookupContents(c, e.key);
    InsertContents(c, e);
  }

  /** Entries from before, and chunks of the source as it is now. */
  predicate OnlyAdded(chunks: Lru, before: Lru, source: nat, bytes: Bytes) {
    forall e <- chunks :: e in before || TrueEntry(map[source := bytes], e)
  }

  class ByteCache {
    var limit: nat
    var usedBytes: nat
    var cap: nat
    var chunks: Lru
    var bytesByAttribution: map<Bucket, nat>
    var hits: nat
    var misses: nat

    ghost function Abs(): Cache
      reads this
    {
      Cache(limit, usedBytes, cap, chunks, bytesByAttribution, hits, misses)
    }

    constructor (budget: nat)
      ensures Abs() == Empty(budget)
    {
      limit, usedBytes, cap, chunks := budget, 0, budget / CHUNK_SIZE + 16, [];
      bytesByAttribution, hits, misses := map[], 0, 0;
    }

    method DecrementAttribution(bucket: Bucket, amount: nat)
      modifies this`bytesByAttribution
      ensures bytesByAttribution == Debit(old(bytesByAttribution), bucket, amount)
    {
      if bucket !in bytesByAttribution {
        return;
      }
      var left := Minus(bytesByAttribution[bucket], amount);
      bytesByAttribution := if left == 0 then bytesByAttribution - {bucket} else bytesByAttribution[bucket := left];
    }

    /** Take an entry out and settle the totals. */
    method PopAt(i: nat)
      requires i < |chunks|
      modifies this`chunks, this`usedBytes, this`bytesByAttribution
      ensures Abs() == Dropped(old(Abs()), i)
    {
      var slot := chunks[i];
      chunks := RemoveAt(chunks, i);
      usedBytes := Minus(usedBytes, |slot.bytes|);
      DecrementAttribution(slot.Owner(), |slot.bytes|);
    }

    /** The eviction loop in front of an insert, and of a smaller budget. */
    method EvictUntilFits(incoming: nat)
      modifies this`chunks, this`usedBytes, this`bytesByAttribution
      ensures Abs() == EvictFor(old(Abs()), incoming)
    {
      while usedBytes + incoming > limit && chunks != []
        invariant EvictFor(Abs(), incoming) == EvictFor(old(Abs()), incoming)
        invariant limit == old(limit) && cap == old(cap) && hits == old(hits) && misses == old(misses)
        decreases |chunks|
      {
        PopAt(0);
      }
    }

    method SetBudget(budget: nat)
      modifies this
      ensures Abs() == SetLimit(old(Abs()), budget)
    {
      limit := budget;
      EvictUntilFits(0);
      cap := budget / CHUNK_SIZE + 16;
      chunks := Resize(chunks, cap);
    }

    method Admit(entry: Entry)
      modifies this
      ensures Abs() == InsertNew(old(Abs()), entry)
    {
      EvictUntilFits(|entry.bytes|);
      chunks := Put(chunks, cap, entry);
      usedBytes := usedBytes + |entry.bytes|;
      bytesByAttribution := Credit(bytesByAttribution, entry.Owner(), |entry.bytes|);
    }

    /** Collect the source's keys, then pop them. */
    method CloseSource(source: nat)
      modifies this
      ensures Abs() == DropSource(old(Abs()), source)
    {
      var keys := KeysOf(chunks, source);
      PopKeys(keys);
    }

    method PopKeys(keys: seq<ChunkKey>)
      modifies this`chunks, this`usedBytes, this`bytesByAttribution
      ensures Abs() == DropKeys(old(Abs()), keys)
    {
      hide Dropped;
      var k := 0;
      while k < |keys|
        invariant 0 <= k <= |keys| && Abs() == DropKeys(old(Abs()), keys[..k])
      {
        var i := IndexOf(chunks, keys[k]);
        if i < |chunks| {
          PopAt(i);
        }
        assert keys[..k + 1][..k] == keys[..k];
        k := k + 1;
      }
      assert keys[..k] == keys;
    }

    /** The chunks that overlap the range go, and no others. */
    method InvalidateRange(source: nat, range: ByteRange)
      requires range.start <= range.end
      modifies this
      ensures range.start == range.end ==> Abs() == old(Abs())
      ensures range.start < range.end ==>
        Abs() == DropKeys(old(Abs()),
          KeyRange(source, range.start / CHUNK_SIZE, (range.end - 1) / CHUNK_SIZE + 1))
      ensures Distinct(old(chunks)) ==>
        Distinct(chunks) && forall e :: e in chunks <==> e in old(chunks) && !Overlaps(e.key, source, range)
      ensures forall src :: Good(old(Abs()), src) ==> Good(Abs(), src)
    {
      hide Good, Distinct;
      if range.start == range.end {
        return;
      }
      var first, last := range.start / CHUNK_SIZE, (range.end - 1) / CHUNK_SIZE;
      ghost var c := Abs();
      PopKeys(KeyRange(source, first, last + 1));
      if Distinct(c.chunks) {
        DropKeysContents(c, KeyRange(source, first, last + 1));
        forall key
          ensures Overlaps(key, source, range) <==> key in KeyRange(source, first, last + 1)
        {
          OverlapIsBetween(key.chunk, range);
        }
      }
      forall src | Good(c, src)
        ensures Good(Abs(), src)
      {
        DropKeysGood(c, src, KeyRange(source, first, last + 1));
      }
    }

    /** The locked lookup: a hit is promoted and counted. */
    method LookupChunk(key: ChunkKey) returns (found: Option<Bytes>)
      modifies this`chunks, this`hits
      ensures (Abs(), found) == Lookup(old(Abs()), key)
    {
      var i := IndexOf(chunks, key);
      if i == |chunks| {
        return None;
      }
      found := Some(chunks[i].bytes);
      chunks := Promote(chunks, i);
      hits := hits + 1;
    }

    /** The locked insert, which looks again before it inserts. */
    method InsertChunk(entry: Entry) returns (bytes: Bytes)
      modifies this
      ensures (Abs(), bytes) == Insert(old(Abs()), entry)
    {
      misses := misses + 1;
      var i := IndexOf(chunks, entry.key);
      if i < |chunks| {
        bytes := chunks[i].bytes;
        chunks := Promote(chunks, i);
        return;
      }
      Admit(entry);
      bytes := entry.bytes;
    }

    /** Overwrite or insert a slot. */
    method StoreChunk(entry: Entry)
      modifies this
      ensures Abs() == Store(old(Abs()), entry)
    {
      var i := IndexOf(chunks, entry.key);
      if i < |chunks| {
        PopAt(i);
      }
      Admit(entry);
    }

    /** A whole fetch; `inner` is the source read outside the lock. */
    method FetchChunk(source: nat, chunk: nat, attribution: Attribution, inner: Bytes)
      returns (bytes: Bytes)
      requires Distinct(chunks) && chunk * CHUNK_SIZE < |inner| && Current(chunks, source, inner, chunk, chunk + 1)
      modifies this
      ensures bytes == ChunkOf(inner, chunk)
      ensures Distinct(chunks) && OnlyAdded(chunks, old(chunks), source, inner)
      ensures Abs() == Fetch(old(Abs()), TheEntry(inner, source, chunk, attribution))
    {
      hide Distinct;
      var key := ChunkKey(source, chunk);
      ghost var c, e := Abs(), TheEntry(inner, source, chunk, attribution);
      LookupContents(c, key);
      FetchContents(c, e);
      InsertContents(c, e);
      var found := LookupChunk(key);
      if found.Some? {
        return found.value;
      }
      var chunkStart := chunk * CHUNK_SIZE;
      var chunkEnd := ChunkEnd(|inner|, chunk);
      bytes := InsertChunk(Entry(key, inner[chunkStart..chunkEnd], attribution));
    }

    /**
     Read a range through the cache: exactly the source's bytes, or its end, whatever is cached of other chunks
     and other sources.
     */
    method ReadWith(range: ByteRange, source: nat, attribution: Attribution, inner: Bytes)
      returns (r: ReadOutcome)
      requires range.start <= range.end && Distinct(chunks)
      requires range.start < range.end ==>
        Current(chunks, source, inner, range.start / CHUNK_SIZE, (range.end - 1) / CHUNK_SIZE + 1)
      modifies this
      ensures Distinct(chunks) && OnlyAdded(chunks, old(chunks), source, inner)
      ensures range.end > |inner| ==> r == PastEnd(|inner|) && Abs() == old(Abs())
      ensures range.end <= |inner| ==> r == Delivered(inner[range.start..range.end])
      ensures range.start == range.end ==> Abs() == old(Abs())
      ensures range.start < range.end <= |inner| ==>
        Abs() == FetchAll(old(Abs()), inner, source, attribution,
          range.start / CHUNK_SIZE, (range.end - 1) / CHUNK_SIZE + 1)
    {
      hide Fetch, Distinct, ReaderOk, TakeFrom, ChunkOf;
      if range.end > |inner| {
        return PastEnd(|inner|);
      }
      if range.start == range.end {
        return Delivered([]);
      }
      var first, last := range.start / CHUNK_SIZE, (range.end - 1) / CHUNK_SIZE;
      ghost var src := map[source := inner];
      ghost var progress := Begin(src, source, range.start, range.end, attribution);
      BeginOk(src, source, range.start, range.end, attribution);
      var out: Bytes := [];
      var chunk := first;
      while chunk <= last
        invariant first <= chunk <= last + 1
        invariant Distinct(chunks) && OnlyAdded(chunks, old(chunks), source, inner)
        invariant Current(chunks, source, inner, first, last + 1)
        invariant Abs() == FetchAll(old(Abs()), inner, source, attribution, first, chunk)
        invariant progress.source == source && progress.start == range.start && progress.end == range.end
        invariant progress.out == out && ReaderOk(src, progress)
        invariant chunk <= last ==> progress.phase == Looking && progress.chunk == chunk
        invariant chunk == last + 1 ==> progress.phase == Finished(Delivered(out))
      {
        var chunkBytes := FetchChunk(source, chunk, attribution, inner);
        AdvanceOk(src, progress, chunkBytes);
        out := out + TakeFrom(chunkBytes, chunk, range.start, range.end);
        progress := Advance(progress, chunkBytes);
        chunk := chunk + 1;
      }
      DeliveredIsExact(src, progress);
      r := Delivered(out);
    }

    /**
     Re-read every chunk of a range and overwrite it in place: whatever was cached of those chunks before, what is
     cached of them afterwards is what the source says now, and of other chunks nothing new is cached.
     */
    method RefetchWith(range: ByteRange, source: nat, attribution: Attribution, inner: Bytes)
      returns (ok: bool)
      requires range.start <= range.end
      modifies this
      ensures ok <==> range.end <= |inner|
      ensures !ok || range.start == range.end ==> Abs() == old(Abs())
      ensures ok && range.start < range.end ==>
        Abs() == StoreAll(old(Abs()), inner, source, attribution,
          range.start / CHUNK_SIZE, (range.end - 1) / CHUNK_SIZE + 1)
      ensures ok && range.start < range.end && Distinct(old(chunks)) ==>
        && Distinct(chunks)
        && Current(chunks, source, inner, range.start / CHUNK_SIZE, (range.end - 1) / CHUNK_SIZE + 1)
        && forall e <- chunks :: e in old(chunks) || Overlaps(e.key, source, range)
    {
      hide Store, Distinct, StoreAll, Current;
      if range.end > |inner| {
        return false;
      }
      if range.start == range.end {
        return true;
      }
      var first, last := range.start / CHUNK_SIZE, (range.end - 1) / CHUNK_SIZE;
      var ci := first;
      assert StoreAll(Abs(), inner, source, attribution, first, first) == Abs() by {
        NothingStored(Abs(), inner, source, attribution, first);
      }
      while ci <= last
        invariant first <= ci <= last + 1
        invariant Abs() == StoreAll(old(Abs()), inner, source, attribution, first, ci)
      {
        var chunkStart := ci * CHUNK_SIZE;
        var bytes := inner[chunkStart..ChunkEnd(|inner|, ci)];
        StoredOneMore(old(Abs()), inner, source, attribution, first, ci + 1);
        StoreChunk(Entry(ChunkKey(source, ci), bytes, attribution));
        ci := ci + 1;
      }
      ok := true;
      if Distinct(old(chunks)) {
        StoredIsCurrent(old(Abs()), inner, source, attribution, first, last + 1);
        forall e | e in chunks && e !in old(chunks)
          ensures Overlaps(e.key, source, range)
        {
          OverlapIsBetween(e.key.chunk, range);
        }
      }
    }

    /** Live refresh: after an invalidation a read in the range shows the source as it is now, whatever was cached. */
    method InvalidateThenRead(range: ByteRange, source: nat, attribution: Attribution, inner: Bytes)
      returns (r: ReadOutcome)
      requires range.start <= range.end && Distinct(chunks)
      modifies this
      ensures r == if range.end > |inner| then PastEnd(|inner|) else Delivered(inner[range.start..range.end])
    {
      hide Distinct, Good, FetchAll;
      InvalidateRange(source, range);
      if range.start < range.end {
        forall e | e in chunks && e.key.source == source
          ensures !(range.start / CHUNK_SIZE <= e.key.chunk < (range.end - 1) / CHUNK_SIZE + 1)
        {
          OverlapIsBetween(e.key.chunk, range);
        }
      }
      r := ReadWith(range, source, attribution, inner);
    }

    /** And after a refetch. */
    method RefetchThenRead(range: ByteRange, source: nat, attribution: Attribution, inner: Bytes)
      returns (r: ReadOutcome)
      requires range.start <= range.end <= |inner| && Distinct(chunks)
      modifies this
      ensures r == Delivered(inner[range.start..range.end])
    {
      hide Distinct, StoreAll, FetchAll;
      var _ := RefetchWith(range, source, attribution, inner);
      r := ReadWith(range, source, attribution, inner);
    }
  }

  /** The chunk has bytes in common with the range. */
  predicate Overlaps(key: ChunkKey, source: nat, range: ByteRange) {
    key.source == source && key.chunk * 65_536 < range.end && range.start < (key.chunk + 1) * 65_536
    && range.start < range.end
  }

  lemma OverlapIsBetween(chunk: nat, range: ByteRange)
    requires range.start < range.end
    ensures (chunk * 65_536 < range.end && range.start < (chunk + 1) * 65_536
             <==> range.start / CHUNK_SIZE <= chunk <= (range.end - 1) / CHUNK_SIZE)
  {
  }

  lemma NothingStored(c: Cache, inner: Bytes, source: nat, attribution: Attribution, first: nat)
    ensures StoreAll(c, inner, source, attribution, first, first) == c
  {
  }

  lemma StoredOneMore(c: Cache, inner: Bytes, source: nat, attribution: Attribution, first: nat, end: nat)
    requires first < end && (end - 1) * CHUNK_SIZE < |inner|
    ensures (StoreAll(c, inner, source, attribution, first, end)
             == Store(StoreAll(c, inner, source, attribution, first, end - 1),
                      TheEntry(inner, source, end - 1, attribution)))
  {
  }

  lemma {:induction false} StoredIsCurrent(
      c: Cache, inner: Bytes, source: nat, attribution: Attribution, first: nat, end: nat)
    requires Distinct(c.chunks) && first <= end && (first < end ==> (end - 1) * CHUNK_SIZE < |inner|)
    ensures var r := StoreAll(c, inner, source, attribution, first, end).chunks;
      && Distinct(r) && Current(r, source, inner, first, end)
      && forall e <- r :: e in c.chunks || (e.key.source == source && first <= e.key.chunk < end)
    decreases end - first
  {
    hide Distinct, Store, ChunkOf;
    if first < end {
      StoredIsCurrent(c, inner, source, attribution, first, end - 1);
      StoreContents(StoreAll(c, inner, source, attribution, first, end - 1),
                    TheEntry(inner, source, end - 1, attribution));
    }
  }
}
