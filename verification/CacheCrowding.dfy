/**
 When the entry bound of the cache is too small for its byte budget (crates/hxy-core/src/cache.rs:571-575):
 exactly when more chunks than it allows fit the budget, and what goes wrong then.
 */
module CacheCrowding {
  import opened Splices
  import opened LruChunks
  import opened ByteCacheModel

  // ------------------------------------------------- a crowd of short chunks

  /** `m` sources: a single byte each, but for the last, which has `g` chunks, the last of a single byte. */
  function CrowdSource(m: nat, g: nat, source: nat): Bytes
    requires g > 0
  {
    if source + 1 < m then Zeros(1) else Zeros((g - 1) * CHUNK_SIZE + 1)
  }

  /** The first `k` of them. */
  function CrowdSources(m: nat, g: nat, k: nat): (src: Sources)
    requires g > 0
    ensures |src| == k && forall s: nat :: s in src <==> s < k
    ensures forall s: nat :: s < k ==> src[s] == CrowdSource(m, g, s)
  {
    if k == 0 then map[] else CrowdSources(m, g, k - 1)[k - 1 := CrowdSource(m, g, k - 1)]
  }

  /** Chunk number `i` of the crowd. */
  function CrowdKey(m: nat, i: nat): ChunkKey
    requires 0 < m
  {
    if i + 1 < m then ChunkKey(i, 0) else ChunkKey(m - 1, i + 1 - m)
  }

  function CrowdEntry(m: nat, g: nat, i: nat): Entry
    requires 0 < m && 0 < g && i < m - 1 + g
  {
    var key := CrowdKey(m, i);
    InsideCrowd(m, g, i);
    Entry(key, ChunkOf(CrowdSource(m, g, key.source), key.chunk), HexView(0))
  }

  lemma InsideCrowd(m: nat, g: nat, i: nat)
    requires 0 < m && 0 < g && i < m - 1 + g
    ensures CrowdKey(m, i).source < m
    ensures CrowdKey(m, i).chunk * CHUNK_SIZE < |CrowdSource(m, g, CrowdKey(m, i).source)|
  {
  }

  /** The bytes of the first `k` chunks of the crowd. */
  function CrowdBytes(m: nat, g: nat, k: nat): nat
    requires 0 < m && 0 < g && k <= m - 1 + g
  {
    if k < m then k
    else if k < m - 1 + g then m - 1 + (k + 1 - m) * CHUNK_SIZE
    else m + (g - 1) * CHUNK_SIZE
  }

  lemma CrowdGrows(m: nat, g: nat, k: nat)
    requires 0 < m && 0 < g && k < m - 1 + g
    ensures CrowdBytes(m, g, k) + |CrowdEntry(m, g, k).bytes| == CrowdBytes(m, g, k + 1)
    ensures CrowdBytes(m, g, k + 1) <= CrowdBytes(m, g, m - 1 + g)
    ensures CrowdEntry(m, g, k).bytes != []
    ensures TrueEntry(CrowdSources(m, g, m), CrowdEntry(m, g, k))
  {
    InsideCrowd(m, g, k);
  }

  /** A cache that has fetched the first `k` chunks of the crowd, one by one. */
  function CrowdFetches(m: nat, g: nat, limit: nat, k: nat): Cache
    requires 0 < m && 0 < g && k <= m - 1 + g
  {
    if k == 0 then Empty(limit) else Insert(CrowdFetches(m, g, limit, k - 1), CrowdEntry(m, g, k - 1)).0
  }

  ghost predicate CrowdFilled(c: Cache, m: nat, g: nat, limit: nat, k: nat)
    requires 0 < m && 0 < g && k <= m - 1 + g
  {
    && Sound(c) && c.limit == limit && c.cap == CapacityFor(limit)
    && |c.chunks| == k && c.used == CrowdBytes(m, g, k)
    && forall i :: 0 <= i < k ==> c.chunks[i] == CrowdEntry(m, g, i)
  }

  lemma NotYetHeld(c: Cache, m: nat, g: nat, limit: nat, k: nat)
    requires 0 < m && 0 < g && k < m - 1 + g && CrowdFilled(c, m, g, limit, k)
    ensures !Holds(c.chunks, CrowdEntry(m, g, k).key)
  {
  }

  lemma CrowdFetchFills(c: Cache, m: nat, g: nat, limit: nat, k: nat)
    requires 0 < m && 0 < g && k < m - 1 + g && CrowdFilled(c, m, g, limit, k)
    requires k < CapacityFor(limit) && CrowdBytes(m, g, m - 1 + g) <= limit
    ensures CrowdFilled(Insert(c, CrowdEntry(m, g, k)).0, m, g, limit, k + 1)
  {
    hide CrowdEntry, CrowdBytes;
    NotYetHeld(c, m, g, limit, k);
    CrowdGrows(m, g, k);
    AdmitIsExact(c.(misses := c.misses + 1), CrowdEntry(m, g, k));
  }

  lemma NothingFetched(m: nat, g: nat, limit: nat)
    requires 0 < m && 0 < g
    ensures CrowdFilled(Empty(limit), m, g, limit, 0)
  {
    assert forall b :: BucketTotal([], b) == 0;
  }

  lemma {:induction false} CrowdFetchesFill(m: nat, g: nat, limit: nat, k: nat)
    requires 0 < m && 0 < g && k <= m - 1 + g && k <= CapacityFor(limit)
    requires CrowdBytes(m, g, m - 1 + g) <= limit
    ensures CrowdFilled(CrowdFetches(m, g, limit, k), m, g, limit, k)
    decreases k
  {
    hide CrowdFilled, CrowdBytes, CrowdEntry, Insert, CapacityFor, Empty;
    if k == 0 {
      NothingFetched(m, g, limit);
    } else {
      CrowdFetchesFill(m, g, limit, k - 1);
      CrowdFetchFills(CrowdFetches(m, g, limit, k - 1), m, g, limit, k - 1);
    }
  }

  /** One chunk more than the entry bound, of at most `n` sources, within the budget. */
  lemma CrowdFits(n: nat, limit: nat) returns (m: nat, g: nat)
    requires !Roomy(n, limit)
    ensures 0 < m <= n && 0 < g && m - 1 + g == CapacityFor(limit) + 1
    ensures CrowdBytes(m, g, m - 1 + g) <= limit
  {
    var cap := CapacityFor(limit);
    m := if n <= cap + 1 then n else cap + 1;
    g := cap + 2 - m;
  }

  // ----------------------------------------------------------- what goes wrong

  /** The state after fetching a crowd that fills the entry bound. */
  lemma FullCrowd(n: nat, limit: nat) returns (src: Sources, c: Cache, e: Entry)
    requires !Roomy(n, limit)
    ensures |src| <= n && Good(c, src) && c.limit == limit && |c.chunks| == c.cap
    ensures TrueEntry(src, e) && !Holds(c.chunks, e.key) && c.used + |e.bytes| <= limit
    ensures exists m: nat, g: nat ::
      0 < m && 0 < g && c.cap <= m - 1 + g && c == CrowdFetches(m, g, limit, c.cap)
  {
    var m, g := CrowdFits(n, limit);
    var k := CapacityFor(limit);
    src, c, e := CrowdSources(m, g, m), CrowdFetches(m, g, limit, k), CrowdEntry(m, g, k);
    CrowdFetchesFill(m, g, limit, k);
    NotYetHeld(c, m, g, limit, k);
    CrowdGrows(m, g, k);
    forall i | 0 <= i < |c.chunks|
      ensures TrueEntry(src, c.chunks[i])
    {
      CrowdGrows(m, g, i);
    }
  }

  /**
   Without room a run of fetches fills the entry bound within the byte budget, and the next one, which still
   fits the budget, evicts a chunk that stays on the books.
   */
  lemma HiddenEvictionHappens(n: nat, limit: nat) returns (src: Sources, c: Cache, e: Entry)
    requires !Roomy(n, limit)
    ensures |src| <= n && Good(c, src) && c.limit == limit && TrueEntry(src, e) && !Holds(c.chunks, e.key)
    ensures exists m: nat, g: nat ::
      0 < m && 0 < g && c.cap <= m - 1 + g && c == CrowdFetches(m, g, limit, c.cap)
    ensures var r := Insert(c, e).0;
      r.used <= limit && c.chunks != [] && r.used == Total(r.chunks) + |c.chunks[0].bytes| && !Accounted(r)
  {
    src, c, e := FullCrowd(n, limit);
    AdmitIsExact(c.(misses := c.misses + 1), e);
  }

  /** Whatever the sources are and whatever is cached, an insert never evicts behind the accounting. */
  ghost predicate NeverMiscounts(n: nat, limit: nat) {
    forall src: Sources, c: Cache, e: Entry ::
      |src| <= n && Good(c, src) && c.limit == limit && TrueEntry(src, e) ==> Accounted(Insert(c, e).0)
  }

  /** The entry bound is safe for `n` sources under a byte limit exactly when there is room. */
  lemma EntryBoundIsExact(n: nat, limit: nat)
    ensures NeverMiscounts(n, limit) <==> Roomy(n, limit)
  {
    hide Good, Accounted, Insert;
    if Roomy(n, limit) {
      forall src: Sources, c: Cache, e: Entry
        | |src| <= n && Good(c, src) && c.limit == limit && TrueEntry(src, e)
        ensures Accounted(Insert(c, e).0)
      {
        FewerAreRoomy(|src|, n, limit);
        InsertAccounts(c, src, e);
      }
    } else {
      var src, c, e := HiddenEvictionHappens(n, limit);
      assert !Accounted(Insert(c, e).0);
    }
  }

  lemma FewerAreRoomy(k: nat, n: nat, limit: nat)
    requires k <= n && Roomy(n, limit)
    ensures Roomy(k, limit)
  {
  }

  lemma InsertAccounts(c: Cache, src: Sources, e: Entry)
    requires Good(c, src) && TrueEntry(src, e) && Roomy(|src|, c.limit)
    ensures Accounted(Insert(c, e).0)
  {
    InsertGood(c, src, e);
  }
}
