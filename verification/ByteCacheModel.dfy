/**
 The state of the byte cache between two lock acquisitions, what each locked
 section does to it, and the invariant all of them keep
 (crates/hxy-core/src/cache.rs).
 */
module ByteCacheModel {
  import opened Splices
  import opened LruChunks

  datatype Cache = Cache(
    limit: nat,
    used: nat,
    cap: nat,
    chunks: Lru,
    tally: map<Bucket, nat>,
    hits: nat,
    misses: nat)

  /** The entry bound that goes with a byte budget. */
  function CapacityFor(limit: nat): nat {
    limit / CHUNK_SIZE + 16
  }

  function Empty(limit: nat): Cache {
    Cache(limit, 0, CapacityFor(limit), [], map[], 0, 0)
  }

  function Minus(a: nat, b: nat): nat {
    if a >= b then a - b else 0
  }

  /** `decrement_attribution`: a bucket that reaches zero disappears. */
  function Debit(tally: map<Bucket, nat>, b: Bucket, amount: nat): map<Bucket, nat> {
    if b !in tally then tally
    else if Minus(tally[b], amount) == 0 then tally - {b}
    else tally[b := Minus(tally[b], amount)]
  }

  function Credit(tally: map<Bucket, nat>, b: Bucket, amount: nat): map<Bucket, nat> {
    tally[b := (if b in tally then tally[b] else 0) + amount]
  }

  /** Take one entry out and settle both totals. */
  function Dropped(c: Cache, i: nat): Cache
    requires i < |c.chunks|
  {
    var e := c.chunks[i];
    c.(chunks := RemoveAt(c.chunks, i),
       used := Minus(c.used, |e.bytes|),
       tally := Debit(c.tally, e.Owner(), |e.bytes|))
  }

  /** Drop least recent entries until `incoming` more bytes fit the budget or nothing is left. */
  function EvictFor(c: Cache, incoming: nat): Cache
    decreases |c.chunks|
  {
    if c.used + incoming > c.limit && c.chunks != [] then EvictFor(Dropped(c, 0), incoming) else c
  }

  /** Put an entry and book its bytes. */
  function Admit(c: Cache, e: Entry): Cache {
    c.(chunks := Put(c.chunks, c.cap, e),
       used := c.used + |e.bytes|,
       tally := Credit(c.tally, e.Owner(), |e.bytes|))
  }

  function InsertNew(c: Cache, e: Entry): Cache {
    Admit(EvictFor(c, |e.bytes|), e)
  }

  // ---------------------------------------------------- the locked sections

  /** First section of a fetch: a hit returns the bytes and counts. */
  function Lookup(c: Cache, key: ChunkKey): (Cache, Option<Bytes>) {
    var i := IndexOf(c.chunks, key);
    if i < |c.chunks| then
      (c.(chunks := Promote(c.chunks, i), hits := c.hits + 1), Some(c.chunks[i].bytes))
    else
      (c, None)
  }

  /** Second section of a fetch, after the unlocked read of the source. */
  function Insert(c: Cache, e: Entry): (Cache, Bytes) {
    var counted := c.(misses := c.misses + 1);
    var i := IndexOf(c.chunks, e.key);
    if i < |c.chunks| then (counted.(chunks := Promote(c.chunks, i)), c.chunks[i].bytes)
    else (InsertNew(counted, e), e.bytes)
  }

  /** `store_chunk`: overwrite or insert. */
  function Store(c: Cache, e: Entry): Cache {
    var i := IndexOf(c.chunks, e.key);
    InsertNew(if i < |c.chunks| then Dropped(c, i) else c, e)
  }

  function DropKey(c: Cache, key: ChunkKey): Cache {
    var i := IndexOf(c.chunks, key);
    if i < |c.chunks| then Dropped(c, i) else c
  }

  function DropKeys(c: Cache, keys: seq<ChunkKey>): Cache {
    if keys == [] then c else DropKey(DropKeys(c, keys[..|keys| - 1]), keys[|keys| - 1])
  }

  /** The cached keys of one source. */
  function KeysOf(chunks: Lru, source: nat): seq<ChunkKey> {
    if chunks == [] then []
    else
      var e := chunks[|chunks| - 1];
      KeysOf(chunks[..|chunks| - 1], source) + (if e.key.source == source then [e.key] else [])
  }

  function DropSource(c: Cache, source: nat): Cache {
    DropKeys(c, KeysOf(c.chunks, source))
  }

  /** The keys of chunks `first` up to, not including, `end`. */
  function KeyRange(source: nat, first: nat, end: nat): (keys: seq<ChunkKey>)
    requires first <= end
    decreases end - first
    ensures forall k :: k in keys <==> k.source == source && first <= k.chunk < end
  {
    if first == end then [] else KeyRange(source, first, end - 1) + [ChunkKey(source, end - 1)]
  }

  function SetLimit(c: Cache, limit: nat): Cache {
    var evicted := EvictFor(c.(limit := limit), 0);
    evicted.(chunks := Resize(evicted.chunks, CapacityFor(limit)), cap := CapacityFor(limit))
  }

  // ------------------------------------------------------------- invariant

  /** Both totals say what the map holds; no bucket is zero. */
  ghost predicate Accounted(c: Cache) {
    && c.used == Total(c.chunks)
    && forall b :: TallyIs(c.tally, b, BucketTotal(c.chunks, b))
  }

  predicate TallyIs(tally: map<Bucket, nat>, b: Bucket, total: nat) {
    (b in tally <==> total > 0) && (b in tally ==> tally[b] == total)
  }

  predicate NoEmptyChunk(chunks: Lru) {
    forall i :: 0 <= i < |chunks| ==> chunks[i].bytes != []
  }

  ghost predicate Sound(c: Cache) {
    Distinct(c.chunks) && NoEmptyChunk(c.chunks) && Accounted(c)
  }

  /** What holds at every lock release. One chunk larger than the whole budget is kept alone. */
  ghost predicate Kept(c: Cache) {
    && Sound(c)
    && c.cap == CapacityFor(c.limit) && |c.chunks| <= c.cap
    && (c.used <= c.limit || |c.chunks| == 1)
  }

  lemma DroppedSound(c: Cache, i: nat)
    requires Sound(c) && i < |c.chunks|
    ensures Sound(Dropped(c, i))
    ensures Dropped(c, i).used == c.used - |c.chunks[i].bytes|
  {
    var d, e := Dropped(c, i), c.chunks[i];
    RemoveAtContents(c.chunks, i);
    TotalsAround(c.chunks, i);
    forall b ensures TallyIs(d.tally, b, BucketTotal(d.chunks, b)) {
      assert TallyIs(c.tally, b, BucketTotal(c.chunks, b));
      assert TallyIs(c.tally, e.Owner(), BucketTotal(c.chunks, e.Owner()));
    }
  }

  /** Eviction removes a front stretch of the recency order, settles the totals, and makes room. */
  lemma {:induction false} EvictForSound(c: Cache, incoming: nat) returns (k: nat)
    requires Sound(c)
    ensures var r := EvictFor(c, incoming);
      && Sound(r) && k <= |c.chunks| && r.chunks == c.chunks[k..]
      && (r.used + incoming <= r.limit || r.chunks == [])
      && r.limit == c.limit && r.cap == c.cap && r.hits == c.hits && r.misses == c.misses
      && (c.used + incoming <= c.limit ==> r == c)
    decreases |c.chunks|
  {
    if c.used + incoming > c.limit && c.chunks != [] {
      DroppedSound(c, 0);
      var j := EvictForSound(Dropped(c, 0), incoming);
      assert Dropped(c, 0).chunks == c.chunks[1..];
      k := j + 1;
    } else {
      k := 0;
    }
  }

  lemma AdmitAppendsSound(c: Cache, e: Entry)
    requires Sound(c) && !Holds(c.chunks, e.key) && e.bytes != []
    ensures var r := c.(
        chunks := c.chunks + [e], used := c.used + |e.bytes|, tally := Credit(c.tally, e.Owner(), |e.bytes|));
      Sound(r)
  {
    PushContents(c.chunks, e);
    TotalsPush(c.chunks, e);
    forall b ensures TallyIs(Credit(c.tally, e.Owner(), |e.bytes|), b, BucketTotal(c.chunks + [e], b)) {
      assert TallyIs(c.tally, b, BucketTotal(c.chunks, b));
    }
  }

  /**
   Admitting an entry keeps the totals exact if, and only if, there is an entry
   slot left: a full map evicts behind the accounting.
   */
  lemma AdmitIsExact(c: Cache, e: Entry)
    requires Sound(c) && !Holds(c.chunks, e.key) && e.bytes != [] && |c.chunks| <= c.cap && c.cap > 0
    ensures Accounted(Admit(c, e)) <==> |c.chunks| < c.cap
    ensures |c.chunks| < c.cap ==> Sound(Admit(c, e)) && Admit(c, e).chunks == c.chunks + [e]
    ensures |c.chunks| == c.cap ==>
      Admit(c, e).used == Total(Admit(c, e).chunks) + |c.chunks[0].bytes|
  {
    AdmitAppendsSound(c, e);
    TotalsPush(c.chunks, e);
    if |c.chunks| == c.cap {
      TotalsAround(c.chunks, 0);
      TotalsPush(c.chunks[1..], e);
      assert RemoveAt(c.chunks, 0) == c.chunks[1..];
    }
  }

  /**
   Inserting keeps the totals exact exactly when eviction by bytes has left an
   entry slot.
   */
  lemma InsertIsExact(c: Cache, e: Entry)
    requires Kept(c) && !Holds(c.chunks, e.key) && e.bytes != []
    ensures Accounted(InsertNew(c, e)) <==> |EvictFor(c, |e.bytes|).chunks| < c.cap
  {
    var k := EvictForSound(c, |e.bytes|);
    SuffixHolds(c.chunks, k, e.key);
    AdmitIsExact(EvictFor(c, |e.bytes|), e);
  }

  lemma SuffixHolds(chunks: Lru, k: nat, key: ChunkKey)
    requires k <= |chunks| && !Holds(chunks, key)
    ensures !Holds(chunks[k..], key)
  {
  }

  // ------------------------------------------- agreement with the sources

  /** The bytes of every source, by id. They do not change. */
  type Sources = map<nat, Bytes>

  function ChunkEnd(len: nat, chunk: nat): nat {
    if (chunk + 1) * CHUNK_SIZE <= len then (chunk + 1) * CHUNK_SIZE else len
  }

  /** Chunk number `chunk` of a source. */
  function ChunkOf(bytes: Bytes, chunk: nat): Bytes
    requires chunk * CHUNK_SIZE < |bytes|
  {
    bytes[chunk * CHUNK_SIZE..ChunkEnd(|bytes|, chunk)]
  }

  predicate TrueEntry(src: Sources, e: Entry) {
    && e.key.source in src
    && e.key.chunk * CHUNK_SIZE < |src[e.key.source]|
    && e.bytes == ChunkOf(src[e.key.source], e.key.chunk)
  }

  predicate Truthful(src: Sources, chunks: Lru) {
    forall i :: 0 <= i < |chunks| ==> TrueEntry(src, chunks[i])
  }

  predicate Short(e: Entry) {
    |e.bytes| < CHUNK_SIZE
  }

  function ShortSources(chunks: Lru): set<nat> {
    set i | 0 <= i < |chunks| && Short(chunks[i]) :: chunks[i].key.source
  }

  lemma ShortSourcesPush(chunks: Lru, e: Entry)
    ensures ShortSources(chunks + [e]) ==
      if Short(e) then ShortSources(chunks) + {e.key.source} else ShortSources(chunks)
  {
    var all := chunks + [e];
    assert forall i :: 0 <= i < |chunks| ==> all[i] == chunks[i];
    assert all[|chunks|] == e;
  }

  /** Each source has at most one short chunk, its last, so few sources mean few short chunks. */
  lemma {:induction false} FewShortChunks(src: Sources, chunks: Lru)
    requires Truthful(src, chunks) && Distinct(chunks)
    ensures ShortSources(chunks) <= src.Keys
    ensures Total(chunks) + CHUNK_SIZE * |ShortSources(chunks)| >= CHUNK_SIZE * |chunks| + |ShortSources(chunks)|
    decreases |chunks|
  {
    if chunks != [] {
      var init, e := chunks[..|chunks| - 1], chunks[|chunks| - 1];
      assert chunks == init + [e];
      FewShortChunks(src, init);
      ShortSourcesPush(init, e);
      TotalsPush(init, e);
      if Short(e) {
        forall i | 0 <= i < |init| && Short(init[i]) ensures init[i].key.source != e.key.source {
          assert chunks[i].key != e.key;
          OneShortEach(src, init[i], e);
        }
        assert e.key.source !in ShortSources(init);
      }
    }
  }

  /** A short chunk is the last one of its source. */
  lemma OneShortEach(src: Sources, a: Entry, b: Entry)
    requires TrueEntry(src, a) && Short(a) && TrueEntry(src, b) && Short(b)
    ensures a.key.source == b.key.source ==> a.key == b.key
  {
    assert forall e :: TrueEntry(src, e) && Short(e) ==> e.key.chunk == |src[e.key.source]| / CHUNK_SIZE;
  }

  lemma {:induction false} CardinalitySubset(a: set<nat>, b: set<nat>)
    requires a <= b
    ensures |a| <= |b|
    decreases b
  {
    if b != {} {
      var x :| x in b;
      CardinalitySubset(a - {x}, b - {x});
      assert a - {x} == a || a == (a - {x}) + {x};
    }
  }

  /** The most chunks that `n` sources can put into a budget: a single byte of each, and whole chunks. */
  function MostChunks(n: nat, limit: nat): nat {
    if limit <= n then limit else n + (limit - n) / CHUNK_SIZE
  }

  /** So many sources that the entry bound cannot bind before the byte budget does, whatever is cached. */
  predicate Roomy(n: nat, limit: nat) {
    MostChunks(n, limit) <= CapacityFor(limit)
  }

  /** Up to 16 sources always leave room. */
  lemma SixteenAreRoomy(n: nat, limit: nat)
    requires n <= 16
    ensures Roomy(n, limit)
  {
  }

  /** For budgets of whole chunks, which are all the settings can ask for, 17 sources are the most. */
  lemma WholeChunkBudgets(n: nat, limit: nat)
    requires limit % 65_536 == 0 && limit > 0
    ensures Roomy(n, limit) <==> n <= 17
  {
  }

  lemma {:induction false} AtLeastAByteEach(src: Sources, chunks: Lru)
    requires Truthful(src, chunks)
    ensures |chunks| <= Total(chunks)
    decreases |chunks|
  {
    if chunks != [] {
      assert TrueEntry(src, chunks[|chunks| - 1]);
      AtLeastAByteEach(src, chunks[..|chunks| - 1]);
    }
  }

  /** What fits the byte budget is at most so many chunks. */
  lemma ChunksWithin(src: Sources, chunks: Lru, limit: nat)
    requires Truthful(src, chunks) && Distinct(chunks) && Total(chunks) <= limit
    ensures |chunks| <= MostChunks(|src|, limit)
  {
    AtLeastAByteEach(src, chunks);
    FewShortChunks(src, chunks);
    CardinalitySubset(ShortSources(chunks), src.Keys);
    assert |src.Keys| == |src|;
    var n, short := |src|, |ShortSources(chunks)|;
    if n < limit {
      assert CHUNK_SIZE * (|chunks| - n) <= CHUNK_SIZE * (|chunks| - short) - (n - short);
      assert CHUNK_SIZE * (|chunks| - n) <= limit - n;
    }
  }

  /** While there is room the entry bound never binds: whatever fits the byte budget fits it too. */
  lemma CapacitySuffices(src: Sources, chunks: Lru, limit: nat)
    requires Roomy(|src|, limit) && Truthful(src, chunks) && Distinct(chunks) && Total(chunks) <= limit
    ensures |chunks| <= CapacityFor(limit)
  {
    ChunksWithin(src, chunks, limit);
  }

  /** Entries of a suffix are entries of the whole. */
  lemma SuffixTruthful(src: Sources, chunks: Lru, k: nat)
    requires Truthful(src, chunks) && k <= |chunks|
    ensures Truthful(src, chunks[k..])
  {
  }

  /** What the sections share: the invariant, and every cached chunk is the source's. */
  ghost predicate Good(c: Cache, src: Sources) {
    Kept(c) && Truthful(src, c.chunks)
  }

  lemma TruthfulPush(src: Sources, chunks: Lru, e: Entry)
    requires Truthful(src, chunks) && TrueEntry(src, e)
    ensures Truthful(src, chunks + [e])
  {
  }

  /** A true chunk that fits the budget finds an entry slot. */
  lemma SlotIsFree(chunks: Lru, src: Sources, limit: nat, e: Entry)
    requires Distinct(chunks) && Truthful(src, chunks) && Roomy(|src|, limit)
    requires TrueEntry(src, e) && !Holds(chunks, e.key)
    requires Total(chunks) + |e.bytes| <= limit || chunks == []
    ensures |chunks| < CapacityFor(limit)
  {
    hide Roomy, TrueEntry, Truthful, Distinct;
    if chunks != [] {
      PushContents(chunks, e);
      TotalsPush(chunks, e);
      TruthfulPush(src, chunks, e);
      CapacitySuffices(src, chunks + [e], limit);
    }
  }

  /** Inserting a true chunk keeps everything while there is room. */
  lemma InsertNewKept(c: Cache, src: Sources, e: Entry)
    requires Sound(c) && Truthful(src, c.chunks) && Roomy(|src|, c.limit)
    requires c.cap == CapacityFor(c.limit) && |c.chunks| <= c.cap
    requires TrueEntry(src, e) && !Holds(c.chunks, e.key)
    ensures var r := InsertNew(c, e);
      && Good(r, src) && r.limit == c.limit
      && r.chunks != [] && r.chunks[|r.chunks| - 1] == e
      && (c.used + |e.bytes| <= c.limit ==> r.chunks == c.chunks + [e] && r.used == c.used + |e.bytes|)
  {
    hide *;
    var room := EvictFor(c, |e.bytes|);
    RoomMade(c, src, e);
    AdmitIsGood(room, src, e);
    InsertIsAdmit(c, e);
  }

  /** What eviction leaves in front of an insert. */
  lemma RoomMade(c: Cache, src: Sources, e: Entry)
    requires Sound(c) && Truthful(src, c.chunks) && Roomy(|src|, c.limit)
    requires c.cap == CapacityFor(c.limit) && |c.chunks| <= c.cap
    requires TrueEntry(src, e) && !Holds(c.chunks, e.key)
    ensures var room := EvictFor(c, |e.bytes|);
      && Sound(room) && Truthful(src, room.chunks) && !Holds(room.chunks, e.key)
      && (room.used + |e.bytes| <= room.limit || room.chunks == [])
      && |room.chunks| < room.cap == CapacityFor(room.limit) && room.limit == c.limit
      && (c.used + |e.bytes| <= c.limit ==> room == c)
  {
    hide Roomy, Truthful, TrueEntry, EvictFor, Holds;
    var k := EvictForSound(c, |e.bytes|);
    SuffixHolds(c.chunks, k, e.key);
    SuffixTruthful(src, c.chunks, k);
    SlotIsFree(c.chunks[k..], src, c.limit, e);
  }

  lemma AdmitIsGood(c: Cache, src: Sources, e: Entry)
    requires Sound(c) && Truthful(src, c.chunks) && TrueEntry(src, e) && !Holds(c.chunks, e.key)
    requires c.used + |e.bytes| <= c.limit || c.chunks == []
    requires |c.chunks| < c.cap == CapacityFor(c.limit)
    ensures var r := Admit(c, e);
      Good(r, src) && r.limit == c.limit && r.chunks == c.chunks + [e] && r.used == c.used + |e.bytes|
  {
    hide Truthful, Sound;
    AdmitIsExact(c, e);
    TruthfulPush(src, c.chunks, e);
  }

  lemma InsertIsAdmit(c: Cache, e: Entry)
    ensures InsertNew(c, e) == Admit(EvictFor(c, |e.bytes|), e)
  {
  }

  lemma PromoteKept(c: Cache, src: Sources, i: nat)
    requires Good(c, src) && i < |c.chunks|
    ensures Good(c.(chunks := Promote(c.chunks, i)), src)
  {
    PromoteContents(c.chunks, i);
    forall j | 0 <= j < |c.chunks| ensures TrueEntry(src, Promote(c.chunks, i)[j]) {
      assert Promote(c.chunks, i)[j] in c.chunks;
    }
    PromoteNotEmpty(c.chunks, i);
  }

  lemma PromoteNotEmpty(chunks: Lru, i: nat)
    requires NoEmptyChunk(chunks) && i < |chunks|
    ensures NoEmptyChunk(Promote(chunks, i))
  {
  }

  lemma DroppedGood(c: Cache, src: Sources, i: nat)
    requires Sound(c) && Truthful(src, c.chunks) && i < |c.chunks|
    ensures Sound(Dropped(c, i)) && Truthful(src, Dropped(c, i).chunks)
    ensures Kept(c) ==> Kept(Dropped(c, i))
    ensures !Holds(Dropped(c, i).chunks, c.chunks[i].key)
  {
    DroppedSound(c, i);
    RemoveAtContents(c.chunks, i);
    TotalsAround(c.chunks, i);
    if |c.chunks| == 1 {
      assert Dropped(c, i).chunks == [];
    }
  }

  // ----------------------------- every locked section keeps the invariant

  /** A hit hands out the source's bytes; a lookup caches and drops nothing. */
  lemma LookupGood(c: Cache, src: Sources, key: ChunkKey)
    requires Good(c, src)
    ensures var (r, found) := Lookup(c, key);
      && Good(r, src)
      && (forall k :: Holds(r.chunks, k) <==> Holds(c.chunks, k))
      && r.limit == c.limit && r.used == c.used && |r.chunks| == |c.chunks|
      && (found.Some? <==> Holds(c.chunks, key))
      && (found.Some? ==>
            key.source in src && key.chunk * CHUNK_SIZE < |src[key.source]|
            && found.value == ChunkOf(src[key.source], key.chunk))
  {
    var i := IndexOf(c.chunks, key);
    if i < |c.chunks| {
      PromoteKept(c, src, i);
      PromoteContents(c.chunks, i);
      assert TrueEntry(src, c.chunks[i]);
    }
  }

  /** A miss that another read has made good in the meantime. */
  lemma InsertSecondHit(c: Cache, src: Sources, e: Entry)
    requires Good(c, src) && TrueEntry(src, e) && Holds(c.chunks, e.key)
    ensures var (r, bytes) := Insert(c, e);
      Good(r, src) && bytes == e.bytes && Holds(r.chunks, e.key) && r.limit == c.limit
  {
    var i := IndexOf(c.chunks, e.key);
    assert TrueEntry(src, c.chunks[i]);
    PromoteKept(c, src, i);
    PromoteContents(c.chunks, i);
  }

  lemma InsertGood(c: Cache, src: Sources, e: Entry)
    requires Good(c, src) && Roomy(|src|, c.limit) && TrueEntry(src, e)
    ensures var (r, bytes) := Insert(c, e);
      Good(r, src) && bytes == e.bytes && Holds(r.chunks, e.key) && r.limit == c.limit
  {
    hide *;
    if Holds(c.chunks, e.key) {
      InsertSecondHit(c, src, e);
    } else {
      InsertMiss(c, src, e);
    }
  }

  lemma InsertMiss(c: Cache, src: Sources, e: Entry)
    requires Good(c, src) && Roomy(|src|, c.limit) && TrueEntry(src, e) && !Holds(c.chunks, e.key)
    ensures var (r, bytes) := Insert(c, e);
      Good(r, src) && bytes == e.bytes && Holds(r.chunks, e.key) && r.limit == c.limit
  {
    hide Roomy, TrueEntry, InsertNew, Distinct, NoEmptyChunk, Truthful;
    var counted := c.(misses := c.misses + 1);
    MissesDoNotCount(c);
    hide Accounted;
    InsertNewKept(counted, src, e);
  }

  lemma MissesDoNotCount(c: Cache)
    requires Accounted(c)
    ensures Accounted(c.(misses := c.misses + 1))
  {
  }

  /** While the new chunk fits the budget nothing is evicted for it. */
  lemma InsertWithinBudget(c: Cache, src: Sources, e: Entry)
    requires Good(c, src) && Roomy(|src|, c.limit) && TrueEntry(src, e) && c.used + |e.bytes| <= c.limit
    ensures var r := Insert(c, e).0;
      && (forall k :: Holds(r.chunks, k) <==> Holds(c.chunks, k) || k == e.key)
      && r.used <= c.used + |e.bytes|
  {
    var i := IndexOf(c.chunks, e.key);
    if i < |c.chunks| {
      PromoteContents(c.chunks, i);
    } else {
      InsertNewKept(c.(misses := c.misses + 1), src, e);
      PushContents(c.chunks, e);
    }
  }

  lemma StoreGood(c: Cache, src: Sources, e: Entry)
    requires Good(c, src) && Roomy(|src|, c.limit) && TrueEntry(src, e)
    ensures Good(Store(c, e), src) && Holds(Store(c, e).chunks, e.key) && Store(c, e).limit == c.limit
  {
    hide Roomy;
    var i := IndexOf(c.chunks, e.key);
    if i < |c.chunks| {
      DroppedGood(c, src, i);
      InsertNewKept(Dropped(c, i), src, e);
    } else {
      InsertNewKept(c, src, e);
    }
  }

  lemma DropKeyGood(c: Cache, src: Sources, key: ChunkKey)
    requires Good(c, src)
    ensures Good(DropKey(c, key), src) && DropKey(c, key).limit == c.limit
    ensures forall k :: Holds(DropKey(c, key).chunks, k) <==> Holds(c.chunks, k) && k != key
  {
    var i := IndexOf(c.chunks, key);
    if i < |c.chunks| {
      DroppedGood(c, src, i);
      RemoveAtContents(c.chunks, i);
    }
  }

  lemma {:induction false} DropKeysGood(c: Cache, src: Sources, keys: seq<ChunkKey>)
    requires Good(c, src)
    ensures Good(DropKeys(c, keys), src) && DropKeys(c, keys).limit == c.limit
    ensures forall k :: Holds(DropKeys(c, keys).chunks, k) <==> Holds(c.chunks, k) && k !in keys
    decreases |keys|
  {
    hide Good, DropKey;
    if keys != [] {
      var init := keys[..|keys| - 1];
      DropKeysGood(c, src, init);
      DropKeyGood(DropKeys(c, init), src, keys[|keys| - 1]);
      assert keys == init + [keys[|keys| - 1]];
    }
  }

  // ------------------------------- what the sections leave, entry by entry

  /** Dropping keys takes their entries out and no others. */
  lemma {:induction false} DropKeysContents(c: Cache, keys: seq<ChunkKey>)
    requires Distinct(c.chunks)
    ensures var r := DropKeys(c, keys).chunks;
      && Distinct(r)
      && (forall e :: e in r <==> e in c.chunks && e.key !in keys)
      && (forall k :: Holds(r, k) <==> Holds(c.chunks, k) && k !in keys)
    decreases |keys|
  {
    hide Holds;
    if keys != [] {
      var init, key := keys[..|keys| - 1], keys[|keys| - 1];
      DropKeysContents(c, init);
      var d := DropKeys(c, init);
      assert keys == init + [key];
      var i := IndexOf(d.chunks, key);
      if i < |d.chunks| {
        RemoveAtContents(d.chunks, i);
      } else {
        NotHeld(d.chunks, key);
      }
    }
  }

  lemma NotHeld(chunks: Lru, key: ChunkKey)
    requires !Holds(chunks, key)
    ensures forall e <- chunks :: e.key != key
  {
  }

  /** A lookup keeps every entry, and a hit hands out one of them. */
  lemma LookupContents(c: Cache, key: ChunkKey)
    requires Distinct(c.chunks)
    ensures var (r, found) := Lookup(c, key);
      && Distinct(r.chunks)
      && (forall e :: e in r.chunks <==> e in c.chunks)
      && (found.Some? ==> exists e :: e in c.chunks && e.key == key && e.bytes == found.value)
  {
    var i := IndexOf(c.chunks, key);
    if i < |c.chunks| {
      PromoteContents(c.chunks, i);
      assert c.chunks[i] in c.chunks;
    }
  }

  lemma {:induction false} EvictContents(c: Cache, incoming: nat) returns (k: nat)
    requires Distinct(c.chunks)
    ensures var r := EvictFor(c, incoming);
      Distinct(r.chunks) && r.cap == c.cap && k <= |c.chunks| && r.chunks == c.chunks[k..]
    decreases |c.chunks|
  {
    k := 0;
    if c.used + incoming > c.limit && c.chunks != [] {
      assert Dropped(c, 0).chunks == c.chunks[1..];
      var j := EvictContents(Dropped(c, 0), incoming);
      k := j + 1;
    }
  }

  /** An insert puts the new entry behind an end stretch of the recency order. */
  lemma InsertNewContents(c: Cache, e: Entry)
    requires Distinct(c.chunks) && !Holds(c.chunks, e.key)
    ensures var r := InsertNew(c, e).chunks;
      Distinct(r) && exists k :: 0 <= k <= |c.chunks| && r == c.chunks[k..] + [e]
  {
    hide Distinct;
    var k := EvictContents(c, |e.bytes|);
    var room := EvictFor(c, |e.bytes|);
    SuffixHolds(c.chunks, k, e.key);
    var j := if room.chunks != [] && |room.chunks| >= room.cap then k + 1 else k;
    assert Put(room.chunks, room.cap, e) == c.chunks[j..] + [e];
    SuffixHolds(c.chunks, j, e.key);
    SuffixDistinct(c.chunks, j);
    PushContents(c.chunks[j..], e);
  }

  lemma SuffixDistinct(chunks: Lru, k: nat)
    requires Distinct(chunks) && k <= |chunks|
    ensures Distinct(chunks[k..])
  {
  }

  /** What a miss leaves: entries from before and the new one; the bytes handed out are the new one's. */
  lemma InsertContents(c: Cache, e: Entry)
    requires Distinct(c.chunks) && forall x <- c.chunks :: x.key == e.key ==> x.bytes == e.bytes
    ensures var (r, bytes) := Insert(c, e);
      Distinct(r.chunks) && bytes == e.bytes && forall x <- r.chunks :: x in c.chunks || x == e
  {
    var i := IndexOf(c.chunks, e.key);
    if i < |c.chunks| {
      PromoteContents(c.chunks, i);
      assert c.chunks[i] in c.chunks;
    } else {
      hide InsertNew;
      InsertNewContents(c.(misses := c.misses + 1), e);
    }
  }

  /** An overwrite leaves the new entry in place of the one with its key, and nothing else new. */
  lemma StoreContents(c: Cache, e: Entry)
    requires Distinct(c.chunks)
    ensures var r := Store(c, e).chunks;
      Distinct(r) && e in r && forall x <- r :: x == e || (x in c.chunks && x.key != e.key)
  {
    hide InsertNew;
    var i := IndexOf(c.chunks, e.key);
    var d := if i < |c.chunks| then Dropped(c, i) else c;
    if i < |c.chunks| {
      RemoveAtContents(c.chunks, i);
    } else {
      NotHeld(c.chunks, e.key);
    }
    InsertNewContents(d, e);
    var k :| 0 <= k <= |d.chunks| && InsertNew(d, e).chunks == d.chunks[k..] + [e];
    assert (d.chunks[k..] + [e])[|d.chunks| - k] == e;
  }

  /** Whatever is cached of the chunks `first` up to `end` of a source is what `bytes` says. */
  predicate Current(chunks: Lru, source: nat, bytes: Bytes, first: nat, end: nat) {
    forall e <- chunks :: e.key.source == source && first <= e.key.chunk < end ==>
      e.key.chunk * CHUNK_SIZE < |bytes| && e.bytes == ChunkOf(bytes, e.key.chunk)
  }

  lemma {:induction false} KeysOfSource(chunks: Lru, source: nat)
    ensures forall k :: k in KeysOf(chunks, source) <==> Holds(chunks, k) && k.source == source
    decreases |chunks|
  {
    if chunks != [] {
      var init, e := chunks[..|chunks| - 1], chunks[|chunks| - 1];
      KeysOfSource(init, source);
      assert forall k :: Holds(chunks, k) <==> Holds(init, k) || k == e.key by {
        forall k ensures Holds(chunks, k) <==> Holds(init, k) || k == e.key {
          if Holds(init, k) {
            var i :| 0 <= i < |init| && init[i].key == k;
            assert chunks[i].key == k;
          }
        }
      }
    }
  }

  /** Dropping a source removes exactly its chunks. */
  lemma DropSourceGood(c: Cache, src: Sources, source: nat)
    requires Good(c, src)
    ensures Good(DropSource(c, source), src) && DropSource(c, source).limit == c.limit
    ensures forall k :: Holds(DropSource(c, source).chunks, k) <==> Holds(c.chunks, k) && k.source != source
  {
    KeysOfSource(c.chunks, source);
    DropKeysGood(c, src, KeysOf(c.chunks, source));
  }

  /** After a limit change the bytes fit the new budget, and the resize drops nothing more. */
  lemma SetLimitGood(c: Cache, src: Sources, limit: nat)
    requires Good(c, src) && Roomy(|src|, limit)
    ensures var r := SetLimit(c, limit);
      && Good(r, src) && r.used <= r.limit == limit
      && r.chunks == EvictFor(c.(limit := limit), 0).chunks
  {
    var k := EvictForSound(c.(limit := limit), 0);
    var evicted := EvictFor(c.(limit := limit), 0);
    SuffixTruthful(src, c.chunks, k);
    CapacitySuffices(src, evicted.chunks, limit);
  }

  /** The limit holds, but for a budget smaller than a single chunk. */
  lemma WithinTheLimit(c: Cache, src: Sources)
    requires Good(c, src) && c.limit >= CHUNK_SIZE
    ensures c.used <= c.limit
  {
    if |c.chunks| == 1 {
      assert c.chunks == [c.chunks[0]] && TrueEntry(src, c.chunks[0]);
      TotalsOne(c.chunks[0]);
    }
  }
}
