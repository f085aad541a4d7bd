/**
 The tree a template run emits: a flat list of nodes, each with its span and the index of its parent
 (crates/hxy-010-lang/src/interp.rs:1219-1588). The shape a stretch of execution adds to the list, and how
 such stretches compose and are wrapped into a structure.
 */
module NodeForest {
  import opened Splices

  /** `Record`: a structure, or an array of structures or enums. `Overlay`: a union. */
  datatype Kind = Scalar | Record | Overlay

  datatype Node = Node(kind: Kind, offset: nat, length: nat, parent: Option<nat>) {
    function End(): nat {
      offset + length
    }
  }

  /** The nodes from `lo` on whose parent is `p` lie end to end from `start` to `end`, in list order. */
  predicate Tiles(nodes: seq<Node>, lo: nat, p: Option<nat>, start: nat, end: nat)
    requires lo <= |nodes|
    decreases |nodes|
  {
    if lo == |nodes| then start == end
    else
      var last, init := nodes[|nodes| - 1], nodes[..|nodes| - 1];
      if last.parent == p then last.End() == end && Tiles(init, lo, p, start, last.offset)
      else Tiles(init, lo, p, start, end)
  }

  /** The nodes from `lo` on whose parent is `p` lie inside the span. */
  ghost predicate Within(nodes: seq<Node>, lo: nat, p: Option<nat>, start: nat, end: nat) {
    forall k :: lo <= k < |nodes| && nodes[k].parent == p ==> start <= nodes[k].offset && nodes[k].End() <= end
  }

  /** A finished node: its children fill a record, and stay inside a union. */
  ghost predicate Settled(nodes: seq<Node>, k: nat)
    requires k < |nodes|
  {
    match nodes[k].kind
    case Scalar => forall j :: k < j < |nodes| ==> nodes[j].parent != Some(k)
    case Record => Tiles(nodes, k + 1, Some(k), nodes[k].offset, nodes[k].End())
    case Overlay => Within(nodes, k + 1, Some(k), nodes[k].offset, nodes[k].End())
  }

  /** Node `k` hangs under `p` or under an earlier node of the same stretch. */
  predicate Attached(nodes: seq<Node>, k: nat, lo: nat, p: Option<nat>)
    requires k < |nodes|
  {
    nodes[k].parent == p || (nodes[k].parent.Some? && lo <= nodes[k].parent.value < k)
  }

  /** `after` adds finished nodes to `before`, hanging under `p` or under each other. */
  ghost predicate Grown(before: seq<Node>, after: seq<Node>, p: Option<nat>) {
    before <= after
    && forall k :: |before| <= k < |after| ==> Attached(after, k, |before|, p) && Settled(after, k)
  }

  /** What executing a stretch under `p` adds while the cursor goes from `start` to `end`. */
  ghost predicate Segment(before: seq<Node>, after: seq<Node>, p: Option<nat>, start: nat, end: nat) {
    Grown(before, after, p) && Tiles(after, |before|, p, start, end)
  }

  /** A parent that exists. */
  predicate Below(p: Option<nat>, n: nat) {
    p.Some? ==> p.value < n
  }

  lemma NothingAdded(nodes: seq<Node>, p: Option<nat>, at: nat)
    ensures Segment(nodes, nodes, p, at, at)
  {
  }

  lemma {:induction false} TilesOrdered(nodes: seq<Node>, lo: nat, p: Option<nat>, start: nat, end: nat)
    requires lo <= |nodes| && Tiles(nodes, lo, p, start, end)
    ensures start <= end && Within(nodes, lo, p, start, end)
    decreases |nodes|
  {
    if lo < |nodes| {
      var last, init := nodes[|nodes| - 1], nodes[..|nodes| - 1];
      var e := if last.parent == p then last.offset else end;
      TilesOrdered(init, lo, p, start, e);
      forall k | lo <= k < |nodes| && nodes[k].parent == p
        ensures start <= nodes[k].offset && nodes[k].End() <= end
      {
        if k < |init| {
          assert init[k] == nodes[k];
        }
      }
    }
  }

  /** More nodes that do not hang under `p` change nothing for `p`. */
  lemma {:induction false} TilesExtend(nodes: seq<Node>, more: seq<Node>, lo: nat, p: Option<nat>, start: nat, end: nat)
    requires lo <= |nodes| && nodes <= more && Tiles(nodes, lo, p, start, end)
    requires forall k :: |nodes| <= k < |more| ==> more[k].parent != p
    ensures Tiles(more, lo, p, start, end)
    decreases |more|
  {
    if |more| == |nodes| {
      assert more == nodes;
    } else {
      TilesExtend(nodes, more[..|more| - 1], lo, p, start, end);
    }
  }

  /** Two stretches under the same parent, one after the other. */
  lemma {:induction false} TilesAppend(nodes: seq<Node>, more: seq<Node>, lo: nat, p: Option<nat>,
                                       start: nat, mid: nat, end: nat)
    requires lo <= |nodes| && nodes <= more
    requires Tiles(nodes, lo, p, start, mid) && Tiles(more, |nodes|, p, mid, end)
    ensures Tiles(more, lo, p, start, end)
    decreases |more|
  {
    if |more| == |nodes| {
      assert more == nodes;
    } else {
      var last, init := more[|more| - 1], more[..|more| - 1];
      TilesAppend(nodes, init, lo, p, start, mid, if last.parent == p then last.offset else end);
    }
  }

  lemma SettledStays(nodes: seq<Node>, more: seq<Node>, k: nat)
    requires k < |nodes| && nodes <= more && Settled(nodes, k)
    requires forall j :: |nodes| <= j < |more| ==> more[j].parent != Some(k)
    ensures Settled(more, k)
  {
    assert more[k] == nodes[k];
    match nodes[k].kind
    case Scalar =>
      forall j | k < j < |more|
        ensures more[j].parent != Some(k)
      {
        assert j < |nodes| ==> more[j] == nodes[j];
      }
    case Record => TilesExtend(nodes, more, k + 1, Some(k), nodes[k].offset, nodes[k].End());
    case Overlay =>
      forall j | k + 1 <= j < |more| && more[j].parent == Some(k)
        ensures nodes[k].offset <= more[j].offset && more[j].End() <= nodes[k].End()
      {
        assert j < |nodes| && more[j] == nodes[j];
      }
  }

  /** Nodes of a later stretch do not hang under those of an earlier one. */
  lemma LaterParents(before: seq<Node>, after: seq<Node>, p: Option<nat>, k: nat)
    requires Grown(before, after, p) && k < |before| && p != Some(k)
    ensures forall j :: |before| <= j < |after| ==> after[j].parent != Some(k)
  {
    forall j | |before| <= j < |after|
      ensures after[j].parent != Some(k)
    {
      assert Attached(after, j, |before|, p);
    }
  }

  lemma GrownComposes(a: seq<Node>, b: seq<Node>, c: seq<Node>, p: Option<nat>)
    requires Below(p, |a|) && Grown(a, b, p) && Grown(b, c, p)
    ensures Grown(a, c, p)
  {
    hide Settled, Tiles;
    forall k | |a| <= k < |c|
      ensures Attached(c, k, |a|, p) && Settled(c, k)
    {
      if k < |b| {
        assert c[k] == b[k] && Attached(b, k, |a|, p) && Settled(b, k);
        LaterParents(b, c, p, k);
        SettledStays(b, c, k);
      } else {
        assert Attached(c, k, |b|, p) && Settled(c, k);
      }
    }
  }

  lemma SegmentComposes(a: seq<Node>, b: seq<Node>, c: seq<Node>, p: Option<nat>, start: nat, mid: nat, end: nat)
    requires Below(p, |a|) && Segment(a, b, p, start, mid) && Segment(b, c, p, mid, end)
    ensures Segment(a, c, p, start, end)
  {
    hide Tiles, Settled;
    GrownComposes(a, b, c, p);
    TilesAppend(b, c, |a|, p, start, mid, end);
  }

  /** One plain node. */
  lemma OneNode(nodes: seq<Node>, n: Node)
    requires n.kind == Scalar
    ensures Segment(nodes, nodes + [n], n.parent, n.offset, n.End())
  {
    var after := nodes + [n];
    assert after[..|after| - 1] == nodes;
    assert Tiles(nodes, |nodes|, n.parent, n.offset, n.offset);
    assert Settled(after, |nodes|);
  }

  // -------------------------------------------------------------- wrapping

  /** Filling in a node's length does not touch how its later nodes tile. */
  lemma {:induction false} TilesIgnoreEarlier(nodes: seq<Node>, k: nat, n: Node, lo: nat, p: Option<nat>,
                                              start: nat, end: nat)
    requires k < lo <= |nodes| && Tiles(nodes, lo, p, start, end)
    ensures Tiles(nodes[k := n], lo, p, start, end)
    decreases |nodes|
  {
    if lo < |nodes| {
      var last, init := nodes[|nodes| - 1], nodes[..|nodes| - 1];
      TilesIgnoreEarlier(init, k, n, lo, p, start, if last.parent == p then last.offset else end);
      assert nodes[k := n][..|nodes| - 1] == init[k := n];
    }
  }

  lemma SettledIgnoresEarlier(nodes: seq<Node>, k: nat, n: Node, j: nat)
    requires k < j < |nodes| && Settled(nodes, j)
    ensures Settled(nodes[k := n], j)
  {
    var m := nodes[j];
    assert nodes[k := n][j] == m;
    if m.kind == Record {
      TilesIgnoreEarlier(nodes, k, n, j + 1, Some(j), m.offset, m.End());
    }
  }

  /** The nodes under a structure's node, and the node with its length, are one node under its parent. */
  lemma Wraps(base: seq<Node>, n: Node, inner: seq<Node>)
    requires n.kind != Scalar && Below(n.parent, |base|)
    requires Grown(base + [n.(length := 0)], inner, Some(|base|))
    requires Settled(inner[|base| := n], |base|)
    ensures Segment(base, inner[|base| := n], n.parent, n.offset, n.End())
  {
    hide Tiles;
    var k, after := |base|, inner[|base| := n];
    forall j | k <= j < |after|
      ensures Attached(after, j, k, n.parent) && Settled(after, j)
    {
      if j > k {
        hide Settled;
        assert Attached(inner, j, k + 1, Some(k)) && Settled(inner, j);
        SettledIgnoresEarlier(inner, k, n, j);
      }
    }
    assert base <= after;
    assert Grown(base, after, n.parent) by {
      hide Settled;
    }
    forall j | k < j < |after|
      ensures Attached(after, j, k, Some(k))
    {
      assert Attached(inner, j, k + 1, Some(k));
    }
    LoneTile(base, n, after);
  }

  lemma {:induction false} LoneTile(base: seq<Node>, n: Node, after: seq<Node>)
    requires base + [n] <= after && Below(n.parent, |base|)
    requires forall j :: |base| < j < |after| ==> Attached(after, j, |base|, Some(|base|))
    ensures Tiles(after, |base|, n.parent, n.offset, n.End())
    decreases |after|
  {
    var init := after[..|after| - 1];
    if |after| == |base| + 1 {
      assert after == base + [n] && init == base;
      assert Tiles(base, |base|, n.parent, n.offset, n.offset);
    } else {
      assert Attached(after, |after| - 1, |base|, Some(|base|));
      forall j | |base| < j < |init|
        ensures Attached(init, j, |base|, Some(|base|))
      {
        assert Attached(after, j, |base|, Some(|base|));
      }
      LoneTile(base, n, init);
    }
  }

  /** Closing a record: its length is how far the cursor came. */
  lemma RecordCloses(base: seq<Node>, n: Node, inner: seq<Node>, end: nat)
    requires n.kind == Record && n.length == 0 && Below(n.parent, |base|)
    requires Segment(base + [n], inner, Some(|base|), n.offset, end)
    ensures n.offset <= end
    ensures Segment(base, inner[|base| := n.(length := end - n.offset)], n.parent, n.offset, end)
  {
    hide Tiles;
    assert base + [n] <= inner;
    TilesOrdered(inner, |base| + 1, Some(|base|), n.offset, end);
    var closed := n.(length := end - n.offset);
    TilesIgnoreEarlier(inner, |base|, closed, |base| + 1, Some(|base|), n.offset, end);
    assert Settled(inner[|base| := closed], |base|);
    hide Settled;
    Wraps(base, closed, inner);
  }

  /** Closing a union: its length reaches the farthest of its fields. */
  lemma OverlayCloses(base: seq<Node>, n: Node, inner: seq<Node>, end: nat)
    requires n.kind == Overlay && n.length == 0 && Below(n.parent, |base|) && n.offset <= end
    requires Grown(base + [n], inner, Some(|base|))
    requires Within(inner, |base| + 1, Some(|base|), n.offset, end)
    ensures Segment(base, inner[|base| := n.(length := end - n.offset)], n.parent, n.offset, end)
  {
    hide Tiles;
    var closed := n.(length := end - n.offset);
    assert Settled(inner[|base| := closed], |base|);
    hide Settled, Grown;
    Wraps(base, closed, inner);
  }

  /** One more field of a union, read from its start. */
  lemma OverlayGrows(b: seq<Node>, c: seq<Node>, d: seq<Node>, p: Option<nat>, start: nat, far: nat, end: nat)
    requires Below(p, |b|) && Grown(b, c, p) && Within(c, |b|, p, start, far)
    requires Segment(c, d, p, start, end)
    ensures Grown(b, d, p) && Within(d, |b|, p, start, if far < end then end else far)
  {
    hide Tiles, Settled;
    GrownComposes(b, c, d, p);
    TilesOrdered(d, |c|, p, start, end);
    forall k | |b| <= k < |d| && d[k].parent == p
      ensures start <= d[k].offset && d[k].End() <= if far < end then end else far
    {
      if k < |c| {
        assert c[k] == d[k];
      }
    }
  }

  // ----------------------------------------------------------- what it means

  function ChildrenLength(nodes: seq<Node>, lo: nat, p: Option<nat>): nat
    decreases |nodes|
  {
    if lo >= |nodes| then 0
    else
      var last := nodes[|nodes| - 1];
      (if last.parent == p then last.length else 0) + ChildrenLength(nodes[..|nodes| - 1], lo, p)
  }

  /** Tiling children add up to the whole span. */
  lemma {:induction false} TilesAddUp(nodes: seq<Node>, lo: nat, p: Option<nat>, start: nat, end: nat)
    requires lo <= |nodes| && Tiles(nodes, lo, p, start, end)
    ensures start + ChildrenLength(nodes, lo, p) == end
    decreases |nodes|
  {
    if lo < |nodes| {
      var last, init := nodes[|nodes| - 1], nodes[..|nodes| - 1];
      TilesAddUp(init, lo, p, start, if last.parent == p then last.offset else end);
    }
  }

  /** Tiling siblings are in order and disjoint. */
  lemma {:induction false} TilesAreDisjoint(nodes: seq<Node>, lo: nat, p: Option<nat>, start: nat, end: nat,
                                            i: nat, j: nat)
    requires lo <= i < j < |nodes| && Tiles(nodes, lo, p, start, end)
    requires nodes[i].parent == p && nodes[j].parent == p
    ensures nodes[i].End() <= nodes[j].offset
    decreases |nodes|
  {
    var last, init := nodes[|nodes| - 1], nodes[..|nodes| - 1];
    var e := if last.parent == p then last.offset else end;
    if j < |init| {
      TilesAreDisjoint(init, lo, p, start, e, i, j);
    } else {
      TilesOrdered(init, lo, p, start, e);
      assert init[i] == nodes[i];
    }
  }

  /** A whole run's nodes. */
  ghost predicate Forest(nodes: seq<Node>, end: nat) {
    Segment([], nodes, None, 0, end)
  }

  /** Parents come first, and every span lies inside its parent's. */
  lemma ForestNests(nodes: seq<Node>, end: nat, k: nat)
    requires Forest(nodes, end) && k < |nodes| && nodes[k].parent.Some?
    ensures var p := nodes[k].parent.value;
      p < k && nodes[p].kind != Scalar && nodes[p].offset <= nodes[k].offset && nodes[k].End() <= nodes[p].End()
  {
    assert Attached(nodes, k, 0, None);
    var p := nodes[k].parent.value;
    assert Settled(nodes, p);
    if nodes[p].kind == Record {
      TilesOrdered(nodes, p + 1, Some(p), nodes[p].offset, nodes[p].End());
    }
  }

  /** A record is exactly as long as its direct children together. */
  lemma ForestConserves(nodes: seq<Node>, end: nat, k: nat)
    requires Forest(nodes, end) && k < |nodes| && nodes[k].kind == Record
    ensures nodes[k].length == ChildrenLength(nodes, k + 1, Some(k))
  {
    assert Settled(nodes, k);
    TilesAddUp(nodes, k + 1, Some(k), nodes[k].offset, nodes[k].End());
  }

  /** Siblings in a record, or at the top, are in order and disjoint. */
  lemma ForestSiblings(nodes: seq<Node>, end: nat, i: nat, j: nat)
    requires Forest(nodes, end) && i < j < |nodes| && nodes[i].parent == nodes[j].parent
    requires nodes[i].parent.Some? ==> nodes[i].parent.value < |nodes| && nodes[nodes[i].parent.value].kind == Record
    ensures nodes[i].End() <= nodes[j].offset
  {
    if nodes[i].parent.None? {
      TilesAreDisjoint(nodes, 0, None, 0, end, i, j);
    } else {
      var p := nodes[i].parent.value;
      assert Attached(nodes, i, 0, None) && Settled(nodes, p);
      TilesAreDisjoint(nodes, p + 1, Some(p), nodes[p].offset, nodes[p].End(), i, j);
    }
  }
}
