/**
 The recency-ordered chunk map behind the byte cache, and the sums its running
 totals must agree with (crates/hxy-core/src/cache.rs).
 */
module LruChunks {
  import opened Splices

  const CHUNK_SIZE: nat := 65536

  datatype ChunkKey = ChunkKey(source: nat, chunk: nat)
  datatype Attribution = HexView(key: nat) | Template(key: nat) | Plugin(key: nat)
  datatype Bucket = Bucket(attribution: Attribution, source: nat)
  datatype Entry = Entry(key: ChunkKey, bytes: Bytes, attribution: Attribution) {
    function Owner(): Bucket {
      Bucket(attribution, key.source)
    }
  }

  /** Least recently used first. */
  type Lru = seq<Entry>

  predicate Distinct(chunks: Lru) {
    forall i, j :: 0 <= i < j < |chunks| ==> chunks[i].key != chunks[j].key
  }

  predicate Holds(chunks: Lru, key: ChunkKey) {
    exists i :: 0 <= i < |chunks| && chunks[i].key == key
  }

  /** Where `key` sits, or the length when it is absent. */
  function IndexOf(chunks: Lru, key: ChunkKey): (i: nat)
    ensures i <= |chunks|
    ensures i < |chunks| ==> chunks[i].key == key
    ensures i == |chunks| <==> !Holds(chunks, key)
    ensures forall j :: 0 <= j < i ==> chunks[j].key != key
  {
    if chunks == [] then 0
    else if chunks[0].key == key then 0
    else 1 + IndexOf(chunks[1..], key)
  }

  function RemoveAt(chunks: Lru, i: nat): Lru
    requires i < |chunks|
  {
    chunks[..i] + chunks[i + 1..]
  }

  /** A use makes the entry the most recent one. */
  function Promote(chunks: Lru, i: nat): Lru
    requires i < |chunks|
  {
    RemoveAt(chunks, i) + [chunks[i]]
  }

  /** `LruCache::put`: replaces, or drops the least recent entry when full. */
  function Put(chunks: Lru, cap: nat, e: Entry): Lru {
    var i := IndexOf(chunks, e.key);
    if i < |chunks| then RemoveAt(chunks, i) + [e]
    else if chunks != [] && |chunks| >= cap then chunks[1..] + [e]
    else chunks + [e]
  }

  /** `LruCache::resize`. */
  function Resize(chunks: Lru, cap: nat): Lru {
    if |chunks| > cap then chunks[|chunks| - cap..] else chunks
  }

  // ---------------------------------------------------------------- sums

  function Total(chunks: Lru): nat {
    if chunks == [] then 0 else Total(chunks[..|chunks| - 1]) + |chunks[|chunks| - 1].bytes|
  }

  function BucketTotal(chunks: Lru, b: Bucket): nat {
    if chunks == [] then 0
    else
      BucketTotal(chunks[..|chunks| - 1], b) + Share(chunks[|chunks| - 1], b)
  }

  /** What an entry counts for in a bucket. */
  function Share(e: Entry, b: Bucket): nat {
    if e.attribution == b.attribution && e.key.source == b.source then |e.bytes| else 0
  }

  lemma {:induction false} TotalsSplit(a: Lru, c: Lru)
    ensures Total(a + c) == Total(a) + Total(c)
    ensures forall b :: BucketTotal(a + c, b) == BucketTotal(a, b) + BucketTotal(c, b)
    decreases |c|
  {
    if c == [] {
      assert a + c == a;
    } else {
      var init := c[..|c| - 1];
      assert (a + c)[..|a + c| - 1] == a + init;
      TotalsSplit(a, init);
    }
  }

  lemma TotalsOne(e: Entry)
    ensures Total([e]) == |e.bytes|
    ensures forall b :: BucketTotal([e], b) == Share(e, b)
  {
    assert [e][..0] == [];
  }

  /** What one entry contributes. */
  lemma TotalsAround(chunks: Lru, i: nat)
    requires i < |chunks|
    ensures Total(chunks) == Total(RemoveAt(chunks, i)) + |chunks[i].bytes|
    ensures forall b ::
      BucketTotal(chunks, b) == BucketTotal(RemoveAt(chunks, i), b) + Share(chunks[i], b)
  {
    var a, c := chunks[..i], chunks[i + 1..];
    assert chunks == (a + [chunks[i]]) + c;
    TotalsSplit(a + [chunks[i]], c);
    TotalsSplit(a, [chunks[i]]);
    TotalsSplit(a, c);
    TotalsOne(chunks[i]);
  }

  lemma TotalsPush(chunks: Lru, e: Entry)
    ensures Total(chunks + [e]) == Total(chunks) + |e.bytes|
    ensures forall b :: BucketTotal(chunks + [e], b) == BucketTotal(chunks, b) + Share(e, b)
  {
    TotalsSplit(chunks, [e]);
    TotalsOne(e);
  }

  // ------------------------------------------------------------ membership

  lemma RemoveAtContents(chunks: Lru, i: nat)
    requires Distinct(chunks) && i < |chunks|
    ensures Distinct(RemoveAt(chunks, i)) && !Holds(RemoveAt(chunks, i), chunks[i].key)
    ensures forall e :: e in RemoveAt(chunks, i) <==> e in chunks && e.key != chunks[i].key
    ensures forall k :: Holds(RemoveAt(chunks, i), k) <==> Holds(chunks, k) && k != chunks[i].key
  {
    var r := RemoveAt(chunks, i);
    forall e ensures e in r <==> e in chunks && e.key != chunks[i].key {
      if e in chunks && e.key != chunks[i].key {
        var j :| 0 <= j < |chunks| && chunks[j] == e;
        assert if j < i then r[j] == e else r[j - 1] == e;
      }
      if e in r {
        var j :| 0 <= j < |r| && r[j] == e;
        assert e == chunks[if j < i then j else j + 1];
      }
    }
    HoldsByEntries(r);
    HoldsByEntries(chunks);
  }

  lemma HoldsByEntries(chunks: Lru)
    ensures forall k :: Holds(chunks, k) <==> exists e :: e in chunks && e.key == k
  {
    forall k ensures Holds(chunks, k) <==> exists e :: e in chunks && e.key == k {
      if Holds(chunks, k) {
        var i :| 0 <= i < |chunks| && chunks[i].key == k;
        assert chunks[i] in chunks;
      }
    }
  }

  lemma PushContents(chunks: Lru, e: Entry)
    requires Distinct(chunks) && !Holds(chunks, e.key)
    ensures Distinct(chunks + [e])
    ensures forall x :: x in chunks + [e] <==> x in chunks || x == e
    ensures forall k :: Holds(chunks + [e], k) <==> Holds(chunks, k) || k == e.key
  {
    HoldsByEntries(chunks + [e]);
    HoldsByEntries(chunks);
    assert e in chunks + [e];
    forall k ensures Holds(chunks + [e], k) <==> Holds(chunks, k) || k == e.key {
      if Holds(chunks, k) {
        var x :| x in chunks && x.key == k;
        assert x in chunks + [e];
      }
    }
  }

  lemma PromoteContents(chunks: Lru, i: nat)
    requires Distinct(chunks) && i < |chunks|
    ensures Distinct(Promote(chunks, i)) && |Promote(chunks, i)| == |chunks|
    ensures forall e :: e in Promote(chunks, i) <==> e in chunks
    ensures forall k :: Holds(Promote(chunks, i), k) <==> Holds(chunks, k)
    ensures Total(Promote(chunks, i)) == Total(chunks)
    ensures forall b :: BucketTotal(Promote(chunks, i), b) == BucketTotal(chunks, b)
  {
    var e := chunks[i];
    RemoveAtContents(chunks, i);
    PushContents(RemoveAt(chunks, i), e);
    TotalsAround(chunks, i);
    TotalsPush(RemoveAt(chunks, i), e);
    forall x ensures x in Promote(chunks, i) <==> x in chunks {
      if x in chunks && x.key == e.key {
        var j :| 0 <= j < |chunks| && chunks[j] == x;
        assert j == i;
      }
    }
  }
}
