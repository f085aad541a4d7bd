/**
 Which chunks eviction takes: over any run of fetches the map is in the order of last use, and eviction takes from
 its old end, so a chunk that was used again outlives all that were not (crates/hxy-core/src/cache.rs:330-379).
 */
module CacheRecency {
  import opened Splices
  import opened LruChunks
  import opened ByteCacheModel
  import opened ByteCacheObject

  /** The fetches one after the other, from an empty cache. */
  function Uses(limit: nat, es: seq<Entry>): Cache {
    if es == [] then Empty(limit) else Fetch(Uses(limit, es[..|es| - 1]), es[|es| - 1])
  }

  /** When the key was last used, counted from 1; 0 for never. */
  function LastUse(es: seq<Entry>, key: ChunkKey): nat {
    if es == [] then 0
    else if es[|es| - 1].key == key then |es|
    else LastUse(es[..|es| - 1], key)
  }

  /** The map is in the order of last use, and holds nothing that was never used. */
  predicate InOrderOfUse(chunks: Lru, es: seq<Entry>) {
    (forall i, j :: 0 <= i < j < |chunks| ==> LastUse(es, chunks[i].key) < LastUse(es, chunks[j].key))
    && (forall e <- chunks :: LastUse(es, e.key) > 0)
  }

  lemma {:induction false} LastUseBound(es: seq<Entry>, key: ChunkKey)
    ensures LastUse(es, key) <= |es|
    decreases |es|
  {
    if es != [] {
      LastUseBound(es[..|es| - 1], key);
    }
  }

  lemma UsedNow(es: seq<Entry>, e: Entry)
    ensures forall k :: LastUse(es + [e], k) == if k == e.key then |es| + 1 else LastUse(es, k)
  {
    assert (es + [e])[..|es|] == es;
  }

  lemma OrderIsDistinct(chunks: Lru, es: seq<Entry>)
    requires InOrderOfUse(chunks, es)
    ensures Distinct(chunks)
  {
  }

  /** A fetch removes the entry of its key, and some from the old end, and puts its own at the new end. */
  lemma FetchShape(c: Cache, e: Entry)
    requires Distinct(c.chunks)
    ensures var i := IndexOf(c.chunks, e.key);
      var r := Fetch(c, e).chunks;
      if i < |c.chunks| then r == RemoveAt(c.chunks, i) + [c.chunks[i]]
      else exists k :: 0 <= k <= |c.chunks| && r == c.chunks[k..] + [e]
  {
    hide InsertNew;
    if IndexOf(c.chunks, e.key) == |c.chunks| {
      InsertNewContents(c.(misses := c.misses + 1), e);
    }
  }

  lemma MovesToTheEnd(chunks: Lru, es: seq<Entry>, e: Entry, i: nat)
    requires InOrderOfUse(chunks, es) && i < |chunks| && chunks[i].key == e.key
    ensures InOrderOfUse(RemoveAt(chunks, i) + [chunks[i]], es + [e])
  {
    hide LastUse;
    OrderIsDistinct(chunks, es);
    UsedNow(es, e);
    var r := RemoveAt(chunks, i) + [chunks[i]];
    forall a, b | 0 <= a < b < |r|
      ensures LastUse(es + [e], r[a].key) < LastUse(es + [e], r[b].key)
    {
      var x := if a < i then a else a + 1;
      assert r[a] == chunks[x];
      LastUseBound(es, chunks[x].key);
      if b < |r| - 1 {
        var y := if b < i then b else b + 1;
        assert r[b] == chunks[y];
      }
    }
    forall x | x in r
      ensures LastUse(es + [e], x.key) > 0
    {
      assert x in chunks;
    }
  }

  lemma JoinsAtTheEnd(chunks: Lru, es: seq<Entry>, e: Entry, k: nat)
    requires InOrderOfUse(chunks, es) && k <= |chunks| && !Holds(chunks, e.key)
    ensures InOrderOfUse(chunks[k..] + [e], es + [e])
  {
    hide LastUse;
    UsedNow(es, e);
    var r := chunks[k..] + [e];
    forall a, b | 0 <= a < b < |r|
      ensures LastUse(es + [e], r[a].key) < LastUse(es + [e], r[b].key)
    {
      assert r[a] == chunks[k + a];
      LastUseBound(es, chunks[k + a].key);
      if b < |r| - 1 {
        assert r[b] == chunks[k + b];
      }
    }
    NotHeld(chunks, e.key);
    forall x | x in r
      ensures LastUse(es + [e], x.key) > 0
    {
      if x != e {
        assert x in chunks;
      }
    }
  }

  /** Over every run of fetches, whatever they evict, the map is in the order of last use. */
  lemma {:induction false} EveryRunIsInOrder(limit: nat, es: seq<Entry>)
    ensures InOrderOfUse(Uses(limit, es).chunks, es)
    decreases |es|
  {
    if es != [] {
      var init, e := es[..|es| - 1], es[|es| - 1];
      assert es == init + [e];
      hide Fetch, LastUse;
      EveryRunIsInOrder(limit, init);
      var c := Uses(limit, init);
      OrderIsDistinct(c.chunks, init);
      FetchShape(c, e);
      var i := IndexOf(c.chunks, e.key);
      if i < |c.chunks| {
        MovesToTheEnd(c.chunks, init, e, i);
      } else {
        var k :| 0 <= k <= |c.chunks| && Fetch(c, e).chunks == c.chunks[k..] + [e];
        JoinsAtTheEnd(c.chunks, init, e, k);
      }
    }
  }

  lemma OldEndIsOlder(chunks: Lru, es: seq<Entry>, e: Entry, k: nat, lost: ChunkKey, kept: ChunkKey)
    requires InOrderOfUse(chunks, es) && k <= |chunks| && Holds(chunks, lost)
    requires !Holds(chunks[k..] + [e], lost) && Holds(chunks[k..] + [e], kept)
    ensures LastUse(es, lost) < LastUse(es + [e], kept)
  {
    hide LastUse;
    UsedNow(es, e);
    LastUseBound(es, lost);
    var r := chunks[k..] + [e];
    var at :| 0 <= at < |chunks| && chunks[at].key == lost;
    var to :| 0 <= to < |r| && r[to].key == kept;
    assert at < k by {
      assert forall j :: k <= j < |chunks| ==> chunks[j] == r[j - k];
    }
    if kept != e.key {
      assert r[to] == chunks[k + to];
    }
  }

  /**
   What a fetch evicts was last used before everything it keeps: a hit saves its chunk from every eviction that
   spares another one not used since.
   */
  lemma EvictsLeastRecentlyUsed(limit: nat, es: seq<Entry>, e: Entry, lost: ChunkKey, kept: ChunkKey)
    requires Holds(Uses(limit, es).chunks, lost) && !Holds(Uses(limit, es + [e]).chunks, lost)
    requires Holds(Uses(limit, es + [e]).chunks, kept)
    ensures LastUse(es, lost) < LastUse(es + [e], kept)
  {
    hide Fetch, LastUse, InOrderOfUse, Holds, RemoveAt, Distinct;
    var c := Uses(limit, es);
    assert (es + [e])[..|es|] == es;
    EveryRunIsInOrder(limit, es);
    OrderIsDistinct(c.chunks, es);
    FetchShape(c, e);
    var i := IndexOf(c.chunks, e.key);
    if i < |c.chunks| {
      PromoteContents(c.chunks, i);
    } else {
      var k :| 0 <= k <= |c.chunks| && Fetch(c, e).chunks == c.chunks[k..] + [e];
      OldEndIsOlder(c.chunks, es, e, k, lost, kept);
    }
  }

  /** And what was used last is kept. */
  lemma LastUsedIsKept(limit: nat, es: seq<Entry>, e: Entry)
    ensures Holds(Uses(limit, es + [e]).chunks, e.key)
  {
    hide Fetch, LastUse, Distinct, InOrderOfUse;
    var c := Uses(limit, es);
    assert (es + [e])[..|es|] == es;
    EveryRunIsInOrder(limit, es);
    OrderIsDistinct(c.chunks, es);
    FetchShape(c, e);
    var r := Fetch(c, e).chunks;
    assert r[|r| - 1].key == e.key;
  }

  /** Every fetch counts once: as a hit if its chunk is cached, else as a miss. */
  lemma FetchCountsOnce(c: Cache, e: Entry)
    ensures var r := Fetch(c, e);
      if Holds(c.chunks, e.key) then r.hits == c.hits + 1 && r.misses == c.misses
      else r.hits == c.hits && r.misses == c.misses + 1
  {
    EvictKeepsCounts(c.(misses := c.misses + 1), |e.bytes|);
  }

  lemma {:induction false} EvictKeepsCounts(c: Cache, incoming: nat)
    ensures var r := EvictFor(c, incoming); r.hits == c.hits && r.misses == c.misses
    decreases |c.chunks|
  {
    if c.used + incoming > c.limit && c.chunks != [] {
      EvictKeepsCounts(Dropped(c, 0), incoming);
    }
  }
}
