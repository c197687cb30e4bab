/**
 * The ring that `addRing` (rings/compute.ts) closes from a back edge (a, b)
 * of the breadth-first search, stated over the predecessor table alone:
 * the walk up from `a` (at most MaxDepth vertices), the walk up from `b`
 * until it meets a vertex of the first walk, and the cycle through the
 * meeting vertex. The colour marks of the implementation are not visible
 * here; RingFinder.State.AddRing is proved to compute exactly this.
 */
module RingWalk {
  import opened Wrappers
  import opened Seqs

  /** Longest predecessor walk on each side of a back edge. */
  const MaxDepth: nat := 4

  /** Every predecessor entry is -1 (a search root) or a vertex of the segment. */
  predicate PredTable(pred: seq<int>) {
    forall v :: 0 <= v < |pred| ==> -1 <= pred[v] < |pred|
  }

  /** The predecessor table is a forest: a predecessor is strictly shallower. */
  predicate Layered(pred: seq<int>, depth: seq<int>) {
    && PredTable(pred)
    && |depth| == |pred|
    && forall v :: 0 <= v < |pred| && pred[v] >= 0 ==> depth[pred[v]] < depth[v]
  }

  /** Giving a childless vertex a predecessor one level above it keeps the table a forest. */
  lemma LayeredExtend(pred: seq<int>, depth: seq<int>, v: int, p: int)
    requires Layered(pred, depth) && 0 <= v < |pred| && 0 <= p < |pred| && v != p
    requires forall w :: 0 <= w < |pred| && pred[w] >= 0 ==> pred[w] != v
    ensures Layered(pred[v := p], depth[v := depth[p] + 1])
  {
  }

  /** The first `n` vertices met walking up the predecessor table from `v`. */
  function Ancestors(pred: seq<int>, v: int, n: nat): (r: seq<int>)
    requires PredTable(pred) && 0 <= v < |pred|
    ensures |r| <= n
    ensures n > 0 ==> |r| > 0 && r[0] == v
    ensures forall t :: 0 <= t < |r| ==> 0 <= r[t] < |pred|
    decreases n
  {
    if n == 0 then []
    else if pred[v] < 0 then [v]
    else [v] + Ancestors(pred, pred[v], n - 1)
  }

  /** Index of the first element of `down` that also occurs in `up`, or |down|. */
  function FirstShared(down: seq<int>, up: seq<int>): (j: nat)
    ensures j <= |down|
    ensures j < |down| ==> down[j] in up
    ensures forall t :: 0 <= t < j ==> down[t] !in up
  {
    if down == [] then 0
    else if down[0] in up then 0
    else 1 + FirstShared(down[1..], up)
  }

  /** Index of the first occurrence of `x` in `s`. */
  function IndexOf(s: seq<int>, x: int): (i: nat)
    requires x in s
    ensures i < |s| && s[i] == x
    ensures forall t :: 0 <= t < i ==> s[t] != x
  {
    if s[0] == x then 0 else 1 + IndexOf(s[1..], x)
  }

  /**
   * The segment-local ring closed by the back edge (a, b), in walk order:
   * from `a` up to the first common ancestor, then down to `b`. None when
   * b < a (only one direction of each edge is used) or when the two walks
   * do not meet within MaxDepth vertices each.
   */
  function ClosingRing(pred: seq<int>, a: int, b: int): (ring: Option<seq<int>>)
    requires PredTable(pred) && 0 <= a < |pred| && 0 <= b < |pred|
  {
    if b < a then None
    else
      var up := Ancestors(pred, a, MaxDepth);
      var down := Ancestors(pred, b, MaxDepth);
      var j := FirstShared(down, up);
      if j == |down| then None
      else Some(up[..IndexOf(up, down[j]) + 1] + Reverse(down[..j]))
  }

  /** Segment-local indices moved to unit atom indices. */
  function Shift(r: seq<int>, start: int): (s: seq<int>)
    ensures |s| == |r|
    ensures forall i :: 0 <= i < |r| ==> s[i] == start + r[i]
  {
    seq(|r|, i requires 0 <= i < |r| => start + r[i])
  }

  /** What `addRing` appends to the ring list: nothing, or the sorted atoms of the ring. */
  function AddedRings(pred: seq<int>, start: int, a: int, b: int): (added: seq<seq<int>>)
    requires PredTable(pred) && 0 <= a < |pred| && 0 <= b < |pred|
  {
    match ClosingRing(pred, a, b)
    case None => []
    case Some(r) => [Sort(Shift(r, start))]
  }

  /** `w` is a walk up the predecessor table that starts at `v`. */
  predicate IsWalk(pred: seq<int>, v: int, w: seq<int>) {
    && |w| >= 1 && w[0] == v
    && (forall s :: 0 <= s < |w| ==> 0 <= w[s] < |pred|)
    && (forall s, u :: 0 <= s < |w| && u == s + 1 && u < |w| ==> w[u] == pred[w[s]])
  }

  /** Ancestors is a walk: each vertex after the first is the predecessor of the one before. */
  lemma {:induction false} AncestorsWalk(pred: seq<int>, v: int, n: nat)
    requires PredTable(pred) && 0 <= v < |pred| && n > 0
    ensures IsWalk(pred, v, Ancestors(pred, v, n))
    decreases n
  {
    if n > 1 && pred[v] >= 0 {
      AncestorsWalk(pred, pred[v], n - 1);
      var r, r' := Ancestors(pred, v, n), Ancestors(pred, pred[v], n - 1);
      forall s, u | 0 <= s < |r| && u == s + 1 && u < |r| ensures r[u] == pred[r[s]] {
        if s > 0 {
          assert r[s] == r'[s - 1] && r[u] == r'[u - 1];
        }
      }
    }
  }

  /**
   * Ancestors goes on past its `t`-th vertex exactly when the step budget is
   * not used up and that vertex has a predecessor.
   */
  lemma {:induction false} AncestorsStep(pred: seq<int>, v: int, n: nat, t: nat)
    requires PredTable(pred) && 0 <= v < |pred|
    requires t < |Ancestors(pred, v, n)|
    ensures var r := Ancestors(pred, v, n);
      t + 1 < |r| <==> t + 1 < n && pred[r[t]] >= 0
    decreases n
  {
    if t > 0 {
      AncestorsStep(pred, pred[v], n - 1, t - 1);
    }
  }

  /** `w` is a walk from `v` that stops only after `n` vertices or at a search root. */
  predicate MaximalWalk(pred: seq<int>, v: int, w: seq<int>, n: nat) {
    && IsWalk(pred, v, w) && |w| <= n
    && (|w| == n || pred[w[|w| - 1]] < 0)
  }

  /** Ancestors is the maximal walk of at most `n` vertices. */
  lemma AncestorsMaximal(pred: seq<int>, v: int, n: nat)
    requires PredTable(pred) && 0 <= v < |pred| && n > 0
    ensures MaximalWalk(pred, v, Ancestors(pred, v, n), n)
  {
    var r := Ancestors(pred, v, n);
    AncestorsWalk(pred, v, n);
    AncestorsStep(pred, v, n, |r| - 1);
  }

  /** The walks from `a` and `b` do not meet: `addRing` appends nothing. */
  lemma AddedNothing(pred: seq<int>, start: int, a: int, b: int, up: seq<int>, down: seq<int>)
    requires PredTable(pred) && 0 <= a < |pred| && 0 <= b < |pred|
    requires up == Ancestors(pred, a, MaxDepth) && down == Ancestors(pred, b, MaxDepth)
    requires forall t :: 0 <= t < |down| ==> down[t] !in up
    ensures AddedRings(pred, start, a, b) == []
  {
  }

  /**
   * The walk from `b` first meets the walk from `a` at down[j] == up[i]:
   * `addRing` appends the sorted atoms of up[..i + 1] and down[..j] reversed.
   */
  lemma AddedOne(pred: seq<int>, start: int, a: int, b: int, up: seq<int>, down: seq<int>, i: nat, j: nat)
    requires PredTable(pred) && 0 <= a <= b < |pred|
    requires up == Ancestors(pred, a, MaxDepth) && down == Ancestors(pred, b, MaxDepth)
    requires j < |down| && i < |up| && down[j] == up[i]
    requires forall t :: 0 <= t < j ==> down[t] !in up
    requires forall t :: 0 <= t < i ==> up[t] != up[i]
    ensures AddedRings(pred, start, a, b) == [Sort(Shift(up[..i + 1] + Reverse(down[..j]), start))]
  {
    var j' := FirstShared(down, up);
    assert down[j] in up;
    assert j' == j;
    var i' := IndexOf(up, down[j]);
    assert i' == i;
    assert ClosingRing(pred, a, b) == Some(up[..i + 1] + Reverse(down[..j]));
  }

  /** A ring is found exactly when b >= a and the two bounded walks share a vertex. */
  lemma ClosingRingFound(pred: seq<int>, a: int, b: int)
    requires PredTable(pred) && 0 <= a < |pred| && 0 <= b < |pred|
    ensures ClosingRing(pred, a, b).Some? <==>
      a <= b && exists x :: x in Ancestors(pred, b, MaxDepth) && x in Ancestors(pred, a, MaxDepth)
  {
    if a <= b {
      var up := Ancestors(pred, a, MaxDepth);
      var down := Ancestors(pred, b, MaxDepth);
      var j := FirstShared(down, up);
      if exists x :: x in down && x in up {
        var x :| x in down && x in up;
        var t :| 0 <= t < |down| && down[t] == x;
        assert j <= t;
      }
    }
  }

  /** Consecutive entries of `s` are joined by a predecessor link, in either direction. */
  predicate Linked(pred: seq<int>, s: seq<int>)
    requires forall t :: 0 <= t < |s| ==> 0 <= s[t] < |pred|
  {
    forall t, u :: 0 <= t < |s| && u == t + 1 && u < |s| ==> s[u] == pred[s[t]] || s[t] == pred[s[u]]
  }

  lemma JoinWalks(pred: seq<int>, up: seq<int>, down: seq<int>, i: nat, j: nat)
    requires i < |up| && j < |down| && up[i] == down[j]
    requires forall t :: 0 <= t < |up| ==> 0 <= up[t] < |pred|
    requires forall t :: 0 <= t < |down| ==> 0 <= down[t] < |pred|
    requires IsWalk(pred, up[0], up) && IsWalk(pred, down[0], down)
    ensures var r := up[..i + 1] + Reverse(down[..j]);
      && |r| == i + 1 + j
      && r[0] == up[0] && r[|r| - 1] == down[0]
      && (forall t :: 0 <= t < |r| ==> 0 <= r[t] < |pred|)
      && Linked(pred, r)
  {
    var r := up[..i + 1] + Reverse(down[..j]);
    assert forall t :: 0 <= t <= i ==> r[t] == up[t];
    assert forall t :: i < t < |r| ==> r[t] == down[j - 1 - (t - i - 1)];
    forall t, u | 0 <= t < |r| && u == t + 1 && u < |r| ensures r[u] == pred[r[t]] || r[t] == pred[r[u]] {
      if t == i {
        assert r[t] == down[j] && r[u] == down[j - 1];
      }
    }
  }

  /**
   * The ring starts at `a`, ends at `b`, has between 1 and 2 * MaxDepth
   * vertices, all in the segment, and each two neighbours in it are joined
   * by a predecessor link: with the back edge (a, b) it is a closed walk.
   */
  lemma ClosingRingShape(pred: seq<int>, a: int, b: int)
    requires PredTable(pred) && 0 <= a < |pred| && 0 <= b < |pred|
    requires ClosingRing(pred, a, b).Some?
    ensures var r := ClosingRing(pred, a, b).value;
      && 1 <= |r| <= 2 * MaxDepth
      && r[0] == a && r[|r| - 1] == b
      && (forall t :: 0 <= t < |r| ==> 0 <= r[t] < |pred|)
      && Linked(pred, r)
  {
    var up := Ancestors(pred, a, MaxDepth);
    var down := Ancestors(pred, b, MaxDepth);
    var j := FirstShared(down, up);
    var i := IndexOf(up, down[j]);
    AncestorsWalk(pred, a, MaxDepth);
    AncestorsWalk(pred, b, MaxDepth);
    JoinWalks(pred, up, down, i, j);
  }

  /**
   * A back edge between two different vertices, neither the predecessor of
   * the other, closes a ring of at least three vertices.
   */
  lemma ClosingRingAtLeastThree(pred: seq<int>, a: int, b: int)
    requires PredTable(pred) && 0 <= a < |pred| && 0 <= b < |pred|
    requires ClosingRing(pred, a, b).Some?
    requires a != b && pred[a] != b && pred[b] != a
    ensures |ClosingRing(pred, a, b).value| >= 3
  {
    var up := Ancestors(pred, a, MaxDepth);
    var down := Ancestors(pred, b, MaxDepth);
    var j := FirstShared(down, up);
    var i := IndexOf(up, down[j]);
    assert |ClosingRing(pred, a, b).value| == i + 1 + j;
    if j == 0 {
      assert i != 0 && i != 1;
    } else if i == 0 {
      assert j != 1;
    }
  }

  lemma {:induction false} AncestorsDeepest(pred: seq<int>, depth: seq<int>, v: int, n: nat)
    requires Layered(pred, depth) && 0 <= v < |pred|
    decreases n
    ensures Distinct(Ancestors(pred, v, n))
    ensures forall x :: x in Ancestors(pred, v, n) ==> depth[x] <= depth[v]
  {
    if n > 0 && pred[v] >= 0 {
      assert n - 1 < n;
      AncestorsDeepest(pred, depth, pred[v], n - 1);
    }
  }

  /** In a predecessor forest the ring repeats no vertex. */
  lemma ClosingRingDistinct(pred: seq<int>, depth: seq<int>, a: int, b: int)
    requires Layered(pred, depth) && 0 <= a < |pred| && 0 <= b < |pred|
    requires ClosingRing(pred, a, b).Some?
    ensures Distinct(ClosingRing(pred, a, b).value)
  {
    var up := Ancestors(pred, a, MaxDepth);
    var down := Ancestors(pred, b, MaxDepth);
    var j := FirstShared(down, up);
    var i := IndexOf(up, down[j]);
    assert ClosingRing(pred, a, b).value == up[..i + 1] + Reverse(down[..j]);
    AncestorsDeepest(pred, depth, a, MaxDepth);
    AncestorsDeepest(pred, depth, b, MaxDepth);
    JoinDistinct(up, down, i, j);
  }

  /** A prefix of one duplicate-free walk joined to the reverse of a disjoint prefix of another. */
  lemma JoinDistinct(up: seq<int>, down: seq<int>, i: nat, j: nat)
    requires Distinct(up) && Distinct(down) && i < |up| && j <= |down|
    requires forall t :: 0 <= t < j ==> down[t] !in up
    ensures Distinct(up[..i + 1] + Reverse(down[..j]))
  {
    var left, right := up[..i + 1], Reverse(down[..j]);
    assert Distinct(left);
    assert Distinct(down[..j]);
    DistinctReverse(down[..j]);
    forall k | 0 <= k < |right| ensures right[k] !in left {
      assert right[k] == down[j - 1 - k];
    }
    DistinctAppend(left, right);
  }

  /** Shifting and sorting a duplicate-free segment-local ring. */
  lemma SortedAtoms(r: seq<int>, start: int, n: int)
    requires Distinct(r)
    requires forall t :: 0 <= t < |r| ==> 0 <= r[t] < n
    ensures StrictlySorted(Sort(Shift(r, start)))
    ensures |Sort(Shift(r, start))| == |r|
    ensures forall x :: x in Sort(Shift(r, start)) ==> start <= x < start + n
  {
    var s := Shift(r, start);
    assert Distinct(s);
    SortDistinct(s);
    SortMembers(s);
    forall x | x in Sort(s) ensures start <= x < start + n {
      var k :| 0 <= k < |s| && s[k] == x;
    }
  }

  /** Everything the ring finder relies on about one closed ring, before shifting and sorting. */
  lemma ClosingRingWellFormed(pred: seq<int>, depth: seq<int>, a: int, b: int)
    requires Layered(pred, depth) && 0 <= a < |pred| && 0 <= b < |pred|
    requires ClosingRing(pred, a, b).Some?
    ensures var r := ClosingRing(pred, a, b).value;
      && Distinct(r)
      && 1 <= |r| <= 2 * MaxDepth
      && (forall t :: 0 <= t < |r| ==> 0 <= r[t] < |pred|)
      && (a != b && pred[a] != b && pred[b] != a ==> |r| >= 3)
      && (a == b ==> r == [a])
  {
    ClosingRingShape(pred, a, b);
    ClosingRingDistinct(pred, depth, a, b);
    if a != b && pred[a] != b && pred[b] != a {
      ClosingRingAtLeastThree(pred, a, b);
    }
  }

  /**
   * A ring `addRing` appends is strictly ascending, has at most 2 * MaxDepth
   * atoms, all inside [start, start + |pred|), and at least three atoms when
   * the back edge joins two different vertices that are not predecessor and
   * successor; a self-loop closes the one-atom ring.
   */
  lemma AddedRingWellFormed(pred: seq<int>, depth: seq<int>, start: int, a: int, b: int, ring: seq<int>)
    requires Layered(pred, depth) && 0 <= a < |pred| && 0 <= b < |pred|
    requires ring in AddedRings(pred, start, a, b)
    ensures StrictlySorted(ring)
    ensures 1 <= |ring| <= 2 * MaxDepth
    ensures forall x :: x in ring ==> start <= x < start + |pred|
    ensures a != b && pred[a] != b && pred[b] != a ==> |ring| >= 3
    ensures a == b ==> ring == [start + a]
  {
    var r := ClosingRing(pred, a, b).value;
    assert ring == Sort(Shift(r, start));
    ClosingRingWellFormed(pred, depth, a, b);
    SortedAtoms(r, start, |pred|);
    if a == b {
      assert Shift(r, start) == [start + a];
      SortSingleton(start + a);
    }
  }
}
