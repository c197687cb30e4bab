/**
 * Ring perception over the covalent bonds of one atomic unit
 * (`computeRings` in rings/compute.ts): a breadth-first search per residue,
 * closing a ring at every non-tree edge whose two predecessor walks meet
 * within MaxDepth steps. The scratch buffers of the source's `State` record
 * are the arrays of class State; they are sized once, to the largest
 * residue, and reset for every residue.
 */
module RingFinder {
  import opened Seqs
  import opened RingWalk

  /** A residue: the half-open range [start, end) of unit atom indices. */
  datatype Segment = Segment(start: int, end: int)

  /**
   * Intra-unit bonds in compressed-sparse-row form: the bonds of atom `x`
   * are the indices offset[x] .. offset[x + 1] - 1 of `neighbor` (the other
   * atom) and of `covalent` (whether LinkType.isCovalent holds of the
   * bond's flags).
   */
  datatype Bonds = Bonds(offset: seq<int>, neighbor: seq<int>, covalent: seq<bool>)

  /** Every atom's bond range lies inside the bond arrays. */
  predicate ValidBonds(bonds: Bonds, atomCount: nat) {
    && |bonds.offset| == atomCount + 1
    && |bonds.covalent| == |bonds.neighbor|
    && forall x :: 0 <= x <= atomCount ==> 0 <= bonds.offset[x] <= |bonds.neighbor|
  }

  /** Atom `x` lists a covalent bond to atom `y`. */
  predicate CovalentBond(bonds: Bonds, x: int, y: int) {
    && 0 <= x && x + 1 < |bonds.offset|
    && exists i :: bonds.offset[x] <= i < bonds.offset[x + 1] && 0 <= i < |bonds.neighbor|
         && i < |bonds.covalent| && bonds.neighbor[i] == y && bonds.covalent[i]
  }

  /**
   * What the finder promises of each ring of the residue [lo, hi): its atoms
   * are strictly ascending, inside the residue, at most 2 * MaxDepth of them,
   * and at least three unless the ring is the single atom of a covalent bond
   * from an atom to itself.
   */
  predicate WellFormedRing(bonds: Bonds, ring: seq<int>, lo: int, hi: int) {
    && StrictlySorted(ring)
    && 1 <= |ring| <= 2 * MaxDepth
    && (forall t :: 0 <= t < |ring| ==> lo <= ring[t] < hi)
    && (|ring| >= 3 || (|ring| == 1 && CovalentBond(bonds, ring[0], ring[0])))
  }

  /** The rings after position `from` of `rings` are well formed for [lo, hi). */
  predicate RingsFrom(bonds: Bonds, rings: seq<seq<int>>, from: int, lo: int, hi: int) {
    forall r :: 0 <= from <= r < |rings| ==> WellFormedRing(bonds, rings[r], lo, hi)
  }

  /** The number of atoms of the largest residue (0 when there is none). */
  method LargestResidue(segments: seq<Segment>) returns (size: nat)
    ensures forall s :: 0 <= s < |segments| ==> segments[s].end - segments[s].start <= size
    ensures size == 0 || exists s :: 0 <= s < |segments| && size == segments[s].end - segments[s].start
  {
    size := 0;
    var s := 0;
    while s < |segments|
      invariant 0 <= s <= |segments|
      invariant forall q :: 0 <= q < s ==> segments[q].end - segments[q].start <= size
      invariant size == 0 || exists q :: 0 <= q < s && size == segments[q].end - segments[q].start
    {
      var seg := segments[s];
      if seg.end - seg.start > size {
        size := seg.end - seg.start;
      }
      s := s + 1;
    }
  }

  /** A set of segment-local vertices has at most `n` members. */
  lemma {:induction false} BoundedSet(s: set<int>, n: nat)
    requires forall v :: v in s ==> 0 <= v < n
    ensures |s| <= n
  {
    if n == 0 {
      assert forall v :: v !in s;
      assert s == {};
    } else {
      BoundedSet(s - {n - 1}, n - 1);
    }
  }

  /** Appending well-formed rings keeps the rings after `|rings|` well formed. */
  lemma RingsFromAppend(bonds: Bonds, rings: seq<seq<int>>, added: seq<seq<int>>, lo: int, hi: int)
    requires forall ring :: ring in added ==> WellFormedRing(bonds, ring, lo, hi)
    ensures RingsFrom(bonds, rings + added, |rings|, lo, hi)
  {
    forall r | |rings| <= r < |rings + added|
      ensures WellFormedRing(bonds, (rings + added)[r], lo, hi)
    {
      assert (rings + added)[r] == added[r - |rings|];
    }
  }

  /** Rings well formed after `from` in `found`, followed by rings well formed after `|found|`. */
  lemma RingsFromJoin(bonds: Bonds, found: seq<seq<int>>, rings: seq<seq<int>>, from: int, lo: int, hi: int)
    requires 0 <= from <= |found| <= |rings| && rings[..|found|] == found
    requires RingsFrom(bonds, found, from, lo, hi) && RingsFrom(bonds, rings, |found|, lo, hi)
    ensures RingsFrom(bonds, rings, from, lo, hi)
  {
    forall r | from <= r < |found|
      ensures WellFormedRing(bonds, rings[r], lo, hi)
    {
      assert rings[r] == found[r];
    }
  }

  /**
   * The ring closed by a covalent non-tree edge a-b of the residue starting
   * at `start` is well formed; a one-atom ring comes from a bond of an atom
   * to itself.
   */
  lemma BackEdgeRings(bonds: Bonds, pred: seq<int>, depth: seq<int>, start: int, a: int, b: int, bond: int)
    requires Layered(pred, depth) && 0 <= a < |pred| && 0 <= b < |pred| && 0 <= start
    requires pred[a] != b && pred[b] != a
    requires start + a + 1 < |bonds.offset| && bonds.offset[start + a] <= bond < bonds.offset[start + a + 1]
    requires 0 <= bond < |bonds.neighbor| && bond < |bonds.covalent|
    requires bonds.neighbor[bond] == start + b && bonds.covalent[bond]
    ensures forall ring :: ring in AddedRings(pred, start, a, b) ==> WellFormedRing(bonds, ring, start, start + |pred|)
  {
    forall ring | ring in AddedRings(pred, start, a, b)
      ensures WellFormedRing(bonds, ring, start, start + |pred|)
    {
      AddedRingWellFormed(pred, depth, start, a, b, ring);
      assert forall t :: 0 <= t < |ring| ==> ring[t] in ring;
      if a == b {
        assert CovalentBond(bonds, ring[0], ring[0]);
      }
    }
  }

  // What one residue's search adds, stated over its final predecessor table.

  /** Bond `i` of vertex `a` of the `n`-vertex residue at `start` is covalent and goes to its vertex `b`. */
  predicate ResidueBond(bonds: Bonds, start: int, n: int, a: int, b: int, i: int) {
    && 0 <= a < n && 0 <= b < n && 0 <= start && start + a + 1 < |bonds.offset|
    && bonds.offset[start + a] <= i < bonds.offset[start + a + 1]
    && 0 <= i < |bonds.neighbor| && i < |bonds.covalent|
    && bonds.neighbor[i] == start + b && bonds.covalent[i]
  }

  /** Neither end of a-b is the other's predecessor: the bond is not a search-tree edge. */
  predicate NonTree(pred: seq<int>, a: int, b: int)
    requires 0 <= a < |pred| && 0 <= b < |pred|
  {
    pred[b] != a && pred[a] != b
  }

  /** What a bond a-b to a visited vertex adds: the ring it closes, unless it is a search-tree edge. */
  function BackEdgeAdds(pred: seq<int>, start: int, a: int, b: int): (added: seq<seq<int>>)
    requires PredTable(pred) && 0 <= a < |pred| && 0 <= b < |pred|
  {
    if NonTree(pred, a, b) then AddedRings(pred, start, a, b) else []
  }

  /** `ring` is the ring that some non-tree bond of the residue closes over `pred`. */
  ghost predicate ClosedBy(bonds: Bonds, start: int, pred: seq<int>, ring: seq<int>)
    requires PredTable(pred)
  {
    exists a, b, i :: ResidueBond(bonds, start, |pred|, a, b, i) && NonTree(pred, a, b)
      && ring in AddedRings(pred, start, a, b)
  }

  /**
   * `added` holds exactly the rings that the non-tree bonds of the residue
   * close over the predecessor table `pred`: each of them is the ring of
   * such a bond, and the ring of every such bond is among them.
   */
  ghost predicate ResidueRings(bonds: Bonds, start: int, pred: seq<int>, added: seq<seq<int>>)
    requires PredTable(pred)
  {
    && (forall k :: 0 <= k < |added| ==> ClosedBy(bonds, start, pred, added[k]))
    && (forall a, b, i, ring ::
          (ResidueBond(bonds, start, |pred|, a, b, i) && NonTree(pred, a, b) && ring in AddedRings(pred, start, a, b))
          ==> ring in added)
  }

  /**
   * `depth` and `root` follow the predecessor table: a vertex without a
   * predecessor is at depth 0 and is the root of its own tree; any other
   * vertex is one layer below its predecessor, in the same tree.
   */
  ghost predicate Rooted(pred: seq<int>, depth: seq<int>, root: seq<int>) {
    && PredTable(pred) && |depth| == |pred| && |root| == |pred|
    && forall v {:trigger pred[v]} :: 0 <= v < |pred| ==>
         && (pred[v] < 0 ==> depth[v] == 0 && root[v] == v)
         && (pred[v] >= 0 ==> depth[v] == depth[pred[v]] + 1 && root[v] == root[pred[v]])
  }

  /** A bond from `a` to `b` leads to an earlier tree, or within `a`'s tree at most one layer down. */
  predicate LayerBond(depth: seq<int>, root: seq<int>, a: int, b: int)
    requires 0 <= a < |depth| && 0 <= b < |depth| && |root| == |depth|
  {
    root[b] < root[a] || (root[b] == root[a] && depth[b] <= depth[a] + 1)
  }

  /**
   * `pred` is the breadth-first forest of the residue, with `depth` and
   * `root` its layers and trees: every tree edge is a covalent bond, the
   * root of each tree is its least vertex, and every covalent bond of the
   * residue is a LayerBond. Trees are numbered by their roots, and a search
   * started at a root reaches the whole tree before a later root is tried,
   * one layer at a time.
   */
  ghost predicate BfsForest(bonds: Bonds, start: int, pred: seq<int>, depth: seq<int>, root: seq<int>) {
    && Rooted(pred, depth, root)
    && (forall v :: 0 <= v < |pred| ==> root[v] <= v)
    && (forall v :: 0 <= v < |pred| && pred[v] >= 0 ==> CovalentBond(bonds, start + pred[v], start + v))
    && forall a, b, i :: ResidueBond(bonds, start, |pred|, a, b, i) ==> LayerBond(depth, root, a, b)
  }

  /**
   * The unit's bond table lists each bond at both of its atoms. For such a
   * bond, a BfsForest has both ends in one tree, at most one layer apart.
   */
  lemma BfsForestBond(bonds: Bonds, start: int, pred: seq<int>, depth: seq<int>, root: seq<int>,
                      a: int, b: int, i: int, j: int)
    requires BfsForest(bonds, start, pred, depth, root)
    requires ResidueBond(bonds, start, |pred|, a, b, i) && ResidueBond(bonds, start, |pred|, b, a, j)
    ensures root[a] == root[b] && depth[a] - 1 <= depth[b] <= depth[a] + 1
  {
  }

  /**
   * A forest of lone roots cannot be the breadth-first forest of a residue
   * holding a bond, listed both ways, between two distinct atoms.
   */
  lemma BfsForestNotAllRoots(bonds: Bonds, start: int, pred: seq<int>, depth: seq<int>, root: seq<int>,
                             a: int, b: int, i: int, j: int)
    requires BfsForest(bonds, start, pred, depth, root)
    requires ResidueBond(bonds, start, |pred|, a, b, i) && ResidueBond(bonds, start, |pred|, b, a, j) && a != b
    ensures pred[a] >= 0 || pred[b] >= 0
  {
    BfsForestBond(bonds, start, pred, depth, root, a, b, i, j);
  }

  // The search's progress, over snapshots of `visited` and `pred`.

  /** Bond `i` of `a` has been scanned: `a` is finished, or is `top` and `i` comes before `upto`. */
  predicate Scanned(done: set<int>, top: int, upto: int, a: int, i: int) {
    a in done || (a == top && i < upto)
  }

  /** ClosedBy, with both ends of the bond visited. */
  ghost predicate ClosedAmong(bonds: Bonds, start: int, visited: seq<int>, pred: seq<int>, ring: seq<int>)
    requires PredTable(pred) && |visited| == |pred|
  {
    exists a, b, i :: ResidueBond(bonds, start, |pred|, a, b, i) && visited[a] == 1 && visited[b] == 1
      && NonTree(pred, a, b) && ring in AddedRings(pred, start, a, b)
  }

  /**
   * The search so far: finished vertices are visited, so is each end of a
   * scanned bond, the ring of every scanned non-tree bond has been found,
   * and every ring found is the ring of such a bond.
   */
  ghost predicate Searched(bonds: Bonds, start: int, visited: seq<int>, pred: seq<int>, done: set<int>,
                           top: int, upto: int, found: seq<seq<int>>)
    requires PredTable(pred) && |visited| == |pred|
  {
    && (forall a :: a in done ==> 0 <= a < |visited| && visited[a] == 1)
    && ScannedVisited(bonds, start, visited, done, top, upto)
    && ScannedFound(bonds, start, pred, done, top, upto, found)
    && (forall k :: 0 <= k < |found| ==> ClosedAmong(bonds, start, visited, pred, found[k]))
  }

  /** Both ends of every scanned bond are visited. */
  ghost predicate ScannedVisited(bonds: Bonds, start: int, visited: seq<int>, done: set<int>, top: int, upto: int) {
    forall a, b, i :: Scanned(done, top, upto, a, i) && ResidueBond(bonds, start, |visited|, a, b, i) ==>
      visited[a] == 1 && visited[b] == 1
  }

  /** The ring of every scanned non-tree bond is in `found`. */
  ghost predicate ScannedFound(bonds: Bonds, start: int, pred: seq<int>, done: set<int>, top: int, upto: int,
                               found: seq<seq<int>>)
    requires PredTable(pred)
  {
    forall a, b, i, ring ::
      (Scanned(done, top, upto, a, i) && ResidueBond(bonds, start, |pred|, a, b, i)
        && NonTree(pred, a, b) && ring in AddedRings(pred, start, a, b))
      ==> ring in found
  }

  /** Visiting new vertices keeps the marks and predecessors of the visited ones. */
  ghost predicate Grows(visited: seq<int>, pred: seq<int>, visited': seq<int>, pred': seq<int>) {
    && |visited| == |pred| == |visited'| == |pred'|
    && forall w :: 0 <= w < |visited| && visited[w] == 1 ==> visited'[w] == 1 && pred'[w] == pred[w]
  }

  /** Every predecessor is a visited vertex. */
  ghost predicate PredsVisited(visited: seq<int>, pred: seq<int>) {
    && |visited| == |pred|
    && forall w :: 0 <= w < |pred| && pred[w] >= 0 ==> pred[w] < |visited| && visited[pred[w]] == 1
  }

  /** The walk up from a visited vertex only meets visited vertices, so it survives growth. */
  lemma {:induction false} AncestorsGrow(visited: seq<int>, pred: seq<int>, visited': seq<int>, pred': seq<int>, v: int, n: nat)
    requires PredTable(pred) && PredTable(pred') && Grows(visited, pred, visited', pred')
    requires PredsVisited(visited, pred) && 0 <= v < |pred| && visited[v] == 1
    ensures Ancestors(pred', v, n) == Ancestors(pred, v, n)
    decreases n
  {
    if n > 0 && pred[v] >= 0 {
      AncestorsGrow(visited, pred, visited', pred', pred[v], n - 1);
    }
  }

  /** The ring of a bond between visited vertices survives growth. */
  lemma AddedRingsGrow(visited: seq<int>, pred: seq<int>, visited': seq<int>, pred': seq<int>, start: int, a: int, b: int)
    requires PredTable(pred) && PredTable(pred') && Grows(visited, pred, visited', pred')
    requires PredsVisited(visited, pred) && 0 <= a < |pred| && 0 <= b < |pred| && visited[a] == 1 && visited[b] == 1
    ensures AddedRings(pred', start, a, b) == AddedRings(pred, start, a, b)
    ensures NonTree(pred', a, b) == NonTree(pred, a, b)
  {
    AncestorsGrow(visited, pred, visited', pred', a, MaxDepth);
    AncestorsGrow(visited, pred, visited', pred', b, MaxDepth);
    assert ClosingRing(pred', a, b) == ClosingRing(pred, a, b);
  }

  /** Visiting new vertices keeps the progress of the search. */
  lemma SearchedGrows(bonds: Bonds, start: int, visited: seq<int>, pred: seq<int>, visited': seq<int>, pred': seq<int>,
                      done: set<int>, top: int, upto: int, found: seq<seq<int>>)
    requires PredTable(pred) && PredTable(pred') && Grows(visited, pred, visited', pred')
    requires PredsVisited(visited, pred)
    requires Searched(bonds, start, visited, pred, done, top, upto, found)
    ensures Searched(bonds, start, visited', pred', done, top, upto, found)
  {
    forall a, b, i, ring | Scanned(done, top, upto, a, i) && ResidueBond(bonds, start, |pred'|, a, b, i)
        && NonTree(pred', a, b) && ring in AddedRings(pred', start, a, b)
      ensures ring in found
    {
      AddedRingsGrow(visited, pred, visited', pred', start, a, b);
    }
    forall k | 0 <= k < |found|
      ensures ClosedAmong(bonds, start, visited', pred', found[k])
    {
      assert ClosedAmong(bonds, start, visited, pred, found[k]);
      var a, b, i :| ResidueBond(bonds, start, |pred|, a, b, i) && visited[a] == 1 && visited[b] == 1
        && NonTree(pred, a, b) && found[k] in AddedRings(pred, start, a, b);
      AddedRingsGrow(visited, pred, visited', pred', start, a, b);
    }
  }

  /** Before `top`'s first bond, scanning `top` has added nothing. */
  lemma SearchedStart(bonds: Bonds, start: int, visited: seq<int>, pred: seq<int>, done: set<int>,
                      top: int, found: seq<seq<int>>)
    requires PredTable(pred) && |visited| == |pred| && 0 <= start && 0 <= top && start + top + 1 < |bonds.offset|
    requires Searched(bonds, start, visited, pred, done, -1, 0, found)
    ensures Searched(bonds, start, visited, pred, done, top, bonds.offset[start + top], found)
  {
    var lo := bonds.offset[start + top];
    assert ScannedVisited(bonds, start, visited, done, top, lo) by {
      forall a, b, i | Scanned(done, top, lo, a, i) && ResidueBond(bonds, start, |visited|, a, b, i)
        ensures visited[a] == 1 && visited[b] == 1
      {
        assert a in done;
      }
    }
    assert ScannedFound(bonds, start, pred, done, top, lo, found) by {
      forall a, b, i, ring | Scanned(done, top, lo, a, i) && ResidueBond(bonds, start, |pred|, a, b, i)
          && NonTree(pred, a, b) && ring in AddedRings(pred, start, a, b)
        ensures ring in found
      {
        assert a in done;
      }
    }
  }

  /** After `top`'s last bond, `top` is finished. */
  lemma SearchedFinish(bonds: Bonds, start: int, visited: seq<int>, pred: seq<int>, done: set<int>,
                       top: int, upto: int, found: seq<seq<int>>)
    requires PredTable(pred) && |visited| == |pred| && 0 <= start && 0 <= top < |visited| && visited[top] == 1
    requires start + top + 1 < |bonds.offset|
    requires bonds.offset[start + top + 1] <= upto || bonds.offset[start + top + 1] <= bonds.offset[start + top]
    requires Searched(bonds, start, visited, pred, done, top, upto, found)
    ensures Searched(bonds, start, visited, pred, done + {top}, -1, 0, found)
  {
    forall a, b, i | Scanned(done + {top}, -1, 0, a, i) && ResidueBond(bonds, start, |visited|, a, b, i)
      ensures Scanned(done, top, upto, a, i)
    {
      if a == top {
        assert i < bonds.offset[start + top + 1] <= upto;
      }
    }
    assert ScannedVisited(bonds, start, visited, done + {top}, -1, 0);
    assert ScannedFound(bonds, start, pred, done + {top}, -1, 0, found);
  }

  /**
   * Scanning bond `i` of `top` keeps the progress when its far end is
   * visited and the ring it closes, if it is a non-tree bond, is found.
   */
  lemma SearchedStep(bonds: Bonds, start: int, visited: seq<int>, pred: seq<int>, done: set<int>,
                     top: int, i: int, found: seq<seq<int>>, found': seq<seq<int>>)
    requires PredTable(pred) && |visited| == |pred|
    requires Searched(bonds, start, visited, pred, done, top, i, found)
    requires forall b :: ResidueBond(bonds, start, |pred|, top, b, i) ==>
      (visited[top] == 1 && visited[b] == 1
       && (NonTree(pred, top, b) ==> forall ring :: ring in AddedRings(pred, start, top, b) ==> ring in found'))
    requires |found| <= |found'| && found'[..|found|] == found
    requires forall k :: |found| <= k < |found'| ==> ClosedAmong(bonds, start, visited, pred, found'[k])
    ensures Searched(bonds, start, visited, pred, done, top, i + 1, found')
  {
    forall k | 0 <= k < |found'|
      ensures ClosedAmong(bonds, start, visited, pred, found'[k])
    {
      if k < |found| {
        assert found'[k] == found[k];
      }
    }
    forall a, b, j, ring | Scanned(done, top, i + 1, a, j) && ResidueBond(bonds, start, |pred|, a, b, j)
        && NonTree(pred, a, b) && ring in AddedRings(pred, start, a, b)
      ensures ring in found'
    {
      if !Scanned(done, top, i, a, j) {
        assert a == top && j == i;
      } else {
        assert ring in found;
        var k :| 0 <= k < |found| && found[k] == ring;
        assert found'[k] == ring;
      }
    }
  }


  /** Reaching the unvisited `other` from `top` over bond `i` keeps the progress, now including that bond. */
  lemma SearchedVisit(bonds: Bonds, start: int, visited: seq<int>, pred: seq<int>, done: set<int>,
                      top: int, other: int, i: int, found: seq<seq<int>>)
    requires PredsVisited(visited, pred) && 0 <= top < |pred| && 0 <= other < |pred|
    requires PredTable(pred) && PredTable(pred[other := top]) && visited[top] == 1 && visited[other] != 1
    requires ResidueBond(bonds, start, |pred|, top, other, i)
    requires Searched(bonds, start, visited, pred, done, top, i, found)
    ensures Searched(bonds, start, visited[other := 1], pred[other := top], done, top, i + 1, found)
  {
    var visited', pred' := visited[other := 1], pred[other := top];
    SearchedGrows(bonds, start, visited, pred, visited', pred', done, top, i, found);
    SearchedStep(bonds, start, visited', pred', done, top, i, found, found);
  }
  /** Scanning a bond to a visited vertex, and adding the ring it closes unless it is a tree edge, keeps the progress. */
  lemma SearchedBackEdge(bonds: Bonds, start: int, visited: seq<int>, pred: seq<int>, done: set<int>,
                         top: int, other: int, i: int, all: seq<seq<int>>, base: int)
    requires PredTable(pred) && |visited| == |pred| && 0 <= base <= |all|
    requires Searched(bonds, start, visited, pred, done, top, i, all[base..])
    requires ResidueBond(bonds, start, |pred|, top, other, i) && visited[top] == 1 && visited[other] == 1
    ensures Searched(bonds, start, visited, pred, done, top, i + 1,
      (all + BackEdgeAdds(pred, start, top, other))[base..])
  {
    var found, added := all[base..], BackEdgeAdds(pred, start, top, other);
    var found' := found + added;
    forall k | |found| <= k < |found'|
      ensures ClosedAmong(bonds, start, visited, pred, found'[k])
    {
      assert found'[k] == added[k - |found|];
    }
    assert found'[..|found|] == found;
    SearchedStep(bonds, start, visited, pred, done, top, i, found, found');
    assert (all + added)[base..] == found';
  }

  /** A search that has finished every vertex has added exactly the residue's rings. */
  lemma SearchedAll(bonds: Bonds, start: int, visited: seq<int>, pred: seq<int>, done: set<int>, found: seq<seq<int>>)
    requires PredTable(pred) && |visited| == |pred|
    requires Searched(bonds, start, visited, pred, done, -1, 0, found)
    requires forall a :: 0 <= a < |pred| ==> a in done
    ensures ResidueRings(bonds, start, pred, found)
  {
    forall k | 0 <= k < |found|
      ensures ClosedBy(bonds, start, pred, found[k])
    {
      assert ClosedAmong(bonds, start, visited, pred, found[k]);
    }
  }

  // The breadth-first layering of the search, over the ghost `depth` and `root` of each vertex.

  /** Every root is at most its vertex, and every bond of a finished vertex in `done` is a LayerBond. */
  ghost predicate Layers(bonds: Bonds, start: int, depth: seq<int>, root: seq<int>, done: set<int>)
  {
    && |depth| == |root|
    && (forall v :: 0 <= v < |root| ==> 0 <= root[v] <= v)
    && forall a, b, i :: Scanned(done, -1, 0, a, i) && ResidueBond(bonds, start, |root|, a, b, i) ==>
         LayerBond(depth, root, a, b)
  }

  /** A finished search, over trees of covalent edges, is a BfsForest: every residue bond is a LayerBond. */
  lemma LayersForest(bonds: Bonds, start: int, pred: seq<int>, depth: seq<int>, root: seq<int>, done: set<int>)
    requires Rooted(pred, depth, root) && Layers(bonds, start, depth, root, done)
    requires forall v :: 0 <= v < |pred| && pred[v] >= 0 ==> CovalentBond(bonds, start + pred[v], start + v)
    requires forall a :: 0 <= a < |root| ==> a in done
    ensures BfsForest(bonds, start, pred, depth, root)
  {
    forall a, b, i | ResidueBond(bonds, start, |root|, a, b, i)
      ensures LayerBond(depth, root, a, b)
    {
      assert Scanned(done, -1, 0, a, i);
    }
  }

  /** Marking `v` visited with predecessor `p` sets its depth and root from `p`'s, and keeps Rooted. */
  lemma RootedExtend(pred: seq<int>, depth: seq<int>, root: seq<int>, v: int, p: int)
    requires Rooted(pred, depth, root) && 0 <= v < |pred| && 0 <= p < |pred| && v != p
    requires forall w :: 0 <= w < |pred| && pred[w] >= 0 ==> pred[w] != v
    ensures Rooted(pred[v := p], depth[v := depth[p] + 1], root[v := root[p]])
  {
    var pred', depth', root' := pred[v := p], depth[v := depth[p] + 1], root[v := root[p]];
    forall w | 0 <= w < |pred'|
      ensures pred'[w] < 0 ==> depth'[w] == 0 && root'[w] == w
      ensures pred'[w] >= 0 ==> depth'[w] == depth'[pred'[w]] + 1 && root'[w] == root'[pred'[w]]
    {
      if w != v && pred[w] >= 0 {
        assert pred'[w] == pred[w] != v;
      }
    }
  }

  /**
   * QueuedSince over snapshots: `Vn` of the marks and `Qn` of the queue,
   * against the marks `V0` taken when the queue was empty.
   */
  ghost predicate QueuedAfter(V0: seq<int>, Vn: seq<int>, Qn: seq<int>, size: int, enq: set<int>)
  {
    && |V0| == |Vn| && 0 <= size <= |Qn|
    && (forall v :: 0 <= v < |Vn| ==> (Vn[v] == 1 <==> V0[v] == 1 || v in enq))
    && (forall v :: v in enq ==> exists k :: 0 <= k < size && Qn[k] == v)
  }

  /** Marking `other` visited and queueing it in the next free slot keeps QueuedAfter. */
  lemma QueuedPush(V0: seq<int>, Vn: seq<int>, Qn: seq<int>, size: int, enq: set<int>, other: int)
    requires QueuedAfter(V0, Vn, Qn, size, enq)
    requires size < |Qn| && 0 <= other < |Vn|
    ensures QueuedAfter(V0, Vn[other := 1], Qn[size := other], size + 1, enq + {other})
  {
    var Vm, Qm := Vn[other := 1], Qn[size := other];
    forall v | v in enq + {other}
      ensures exists k :: 0 <= k < size + 1 && Qm[k] == v
    {
      if v == other {
        assert Qm[size] == v;
      } else {
        var k :| 0 <= k < size && Qn[k] == v;
        assert Qm[k] == v;
      }
    }
  }

  /**
   * The first `size` queue slots hold vertices of the tree rooted at
   * `from`: those before `mid` no deeper than `d`, those from `head` to
   * `mid` at depth `d`, and those from `mid` on at depth `d + 1`.
   */
  ghost predicate QueueLayers(Q: seq<int>, size: int, depth: seq<int>, root: seq<int>, from: int,
                              head: int, mid: int, d: int) {
    && 0 <= head <= mid <= size <= |Q| && |depth| == |root|
    && forall k :: 0 <= k < size ==>
         && 0 <= Q[k] < |root| && root[Q[k]] == from
         && (k < mid ==> depth[Q[k]] <= d) && (head <= k < mid ==> depth[Q[k]] == d)
         && (mid <= k ==> depth[Q[k]] == d + 1)
  }

  /**
   * The marks `V` from before the search at `from`: every vertex below
   * `from` is visited, and every visited vertex lies in a tree rooted
   * below `from`.
   */
  ghost predicate Earlier(V: seq<int>, root: seq<int>, from: int) {
    && |V| <= |root|
    && forall v :: 0 <= v < |V| ==> (v < from ==> V[v] == 1) && (V[v] == 1 ==> root[v] < from)
  }

  /** Once the slots before `mid` are all dequeued, the next layer starts: slots up to `size` are at `d + 1`. */
  lemma QueueLayersNext(Q: seq<int>, size: int, depth: seq<int>, root: seq<int>, from: int, head: int, d: int)
    requires QueueLayers(Q, size, depth, root, from, head, head, d)
    ensures QueueLayers(Q, size, depth, root, from, head, size, d + 1)
  {
  }

  /** The vertices in the first `head` queue slots are finished. */
  ghost predicate Dequeued(Q: seq<int>, head: int, done: set<int>) {
    0 <= head <= |Q| && forall k :: 0 <= k < head ==> Q[k] in done
  }

  /** Finishing the vertex in slot `head`, while the slots up to `size` keep their contents. */
  lemma DequeuedStep(Q: seq<int>, Qn: seq<int>, head: int, size: int, done: set<int>)
    requires Dequeued(Q, head, done) && head < size <= |Q| && size <= |Qn|
    requires forall k :: 0 <= k < size ==> Qn[k] == Q[k]
    ensures Dequeued(Qn, head + 1, done + {Q[head]})
  {
  }

  /** Dequeuing the slot `head` of the current layer. */
  lemma QueueLayersPop(Q: seq<int>, size: int, depth: seq<int>, root: seq<int>, from: int, head: int, mid: int, d: int)
    requires QueueLayers(Q, size, depth, root, from, head, mid, d) && head < mid
    ensures QueueLayers(Q, size, depth, root, from, head + 1, mid, d)
  {
  }

  /**
   * A vertex visited during the search at `from` lies in an earlier tree,
   * or is queued in `from`'s tree at most one layer below `d`.
   */
  lemma QueuedLayer(V: seq<int>, Vn: seq<int>, Qn: seq<int>, size: int, enq: set<int>,
                    depth: seq<int>, root: seq<int>, from: int, head: int, mid: int, d: int, b: int)
    requires QueuedAfter(V, Vn, Qn, size, enq) && QueueLayers(Qn, size, depth, root, from, head, mid, d)
    requires Earlier(V, root, from) && 0 <= b < |Vn| && Vn[b] == 1
    ensures root[b] < from || (root[b] == from && depth[b] <= d + 1)
  {
    if V[b] != 1 {
      var k :| 0 <= k < size && Qn[k] == b;
    }
  }

  /**
   * When the search at `from` is over, every vertex up to `from` is
   * visited, and the vertices it visited form the tree of `from`.
   */
  lemma EarlierNext(V: seq<int>, Vn: seq<int>, Qn: seq<int>, size: int, enq: set<int>,
                    depth: seq<int>, root: seq<int>, from: int, head: int, mid: int, d: int)
    requires QueuedAfter(V, Vn, Qn, size, enq) && QueueLayers(Qn, size, depth, root, from, head, mid, d)
    requires Earlier(V, root, from) && 0 <= from < |Vn| && Vn[from] == 1
    ensures Earlier(Vn, root, from + 1)
    ensures forall v :: 0 <= v < |Vn| && V[v] != 1 && Vn[v] == 1 ==> root[v] == from
  {
    forall v | 0 <= v < |Vn| && V[v] != 1 && Vn[v] == 1
      ensures root[v] == from
    {
      var k :| 0 <= k < size && Qn[k] == v;
    }
  }

  /** Since the marks `Vs` and predecessors `Ps`, exactly the newly visited vertices got predecessor `top`. */
  ghost predicate ReachedFrom(Vs: seq<int>, Ps: seq<int>, Vn: seq<int>, Pn: seq<int>, top: int) {
    && |Vs| == |Ps| == |Vn| == |Pn|
    && forall v :: 0 <= v < |Vn| ==>
         && (Vs[v] == 1 ==> Vn[v] == 1)
         && Pn[v] == (if Vs[v] != 1 && Vn[v] == 1 then top else Ps[v])
  }

  /**
   * What scanning the bonds of `top` changed, from the marks, predecessors,
   * depths, roots and queue `Vs, Ps, Ds, Ts, Qs` with `size` slots in use
   * to `Vn, Pn, Dn, Tn, Qn` with `size'` slots: exactly the newly visited
   * vertices got `top` as their predecessor (ReachedFrom), they lie one
   * layer below `top` in its tree, and they fill the new queue slots; the
   * earlier slots keep their contents.
   */
  ghost predicate Scan(Vs: seq<int>, Ps: seq<int>, Ds: seq<int>, Ts: seq<int>, Qs: seq<int>, size: int,
                       Vn: seq<int>, Pn: seq<int>, Dn: seq<int>, Tn: seq<int>, Qn: seq<int>, size': int, top: int)
  {
    && ReachedFrom(Vs, Ps, Vn, Pn, top)
    && 0 <= top < |Vs| && Vs[top] == 1 && |Ds| == |Ts| == |Dn| == |Tn| == |Vs|
    && (forall v :: 0 <= v < |Vn| ==>
          if Vs[v] != 1 && Vn[v] == 1 then Dn[v] == Ds[top] + 1 && Tn[v] == Ts[top]
          else Dn[v] == Ds[v] && Tn[v] == Ts[v])
    && 0 <= size <= size' <= |Qn| && size <= |Qs|
    && (forall k :: 0 <= k < size ==> Qn[k] == Qs[k])
    && (forall k :: size <= k < size' ==> 0 <= Qn[k] < |Vs| && Vs[Qn[k]] != 1 && Vn[Qn[k]] == 1)
  }

  /** A bond that visits nothing changes nothing. */
  lemma ScanNone(V: seq<int>, P: seq<int>, D: seq<int>, T: seq<int>, Q: seq<int>, size: int, top: int)
    requires |P| == |D| == |T| == |V| && 0 <= top < |V| && V[top] == 1 && 0 <= size <= |Q|
    ensures Scan(V, P, D, T, Q, size, V, P, D, T, Q, size, top)
  {
  }

  /** A scan that goes on to visit `other` from `top` and queue it in slot `size'` is still a scan. */
  lemma ScanMore(Vs: seq<int>, Ps: seq<int>, Ds: seq<int>, Ts: seq<int>, Qs: seq<int>, size: int,
                 V: seq<int>, P: seq<int>, D: seq<int>, T: seq<int>, Q: seq<int>, size': int, top: int, other: int)
    requires Scan(Vs, Ps, Ds, Ts, Qs, size, V, P, D, T, Q, size', top)
    requires 0 <= other < |V| && V[other] != 1 && size' < |Q|
    ensures Scan(Vs, Ps, Ds, Ts, Qs, size, V[other := 1], P[other := top], D[other := D[top] + 1],
                 T[other := T[top]], Q[size' := other], size' + 1, top)
  {
  }

  /**
   * Scanning all bonds of `top`, dequeued from slot `head` of the layer at
   * depth `d` in the tree of `from`, keeps the layering: each bond of `top`
   * goes to an earlier tree, to a queued vertex at most one layer down, or
   * to a vertex the scan put one layer down; the bonds scanned before keep
   * their layering, since both their ends were visited already.
   */
  lemma LayersScan(bonds: Bonds, start: int, V0: seq<int>, enq: set<int>, done: set<int>,
                   Vs: seq<int>, Ps: seq<int>, Ds: seq<int>, Ts: seq<int>, Qs: seq<int>, size: int,
                   Vn: seq<int>, Pn: seq<int>, Dn: seq<int>, Tn: seq<int>, Qn: seq<int>, size': int,
                   top: int, from: int, head: int, mid: int, d: int)
    requires Layers(bonds, start, Ds, Ts, done) && Earlier(V0, Ts, from)
    requires QueueLayers(Qs, size, Ds, Ts, from, head, mid, d) && head < mid && Qs[head] == top
    requires QueuedAfter(V0, Vs, Qs, size, enq)
    requires forall k :: 0 <= k < size ==> 0 <= Qs[k] < |Vs| && Vs[Qs[k]] == 1
    requires ScannedVisited(bonds, start, Vs, done, -1, 0) && ScannedVisited(bonds, start, Vn, done + {top}, -1, 0)
    requires Scan(Vs, Ps, Ds, Ts, Qs, size, Vn, Pn, Dn, Tn, Qn, size', top)
    ensures Layers(bonds, start, Dn, Tn, done + {top}) && Earlier(V0, Tn, from)
    ensures QueueLayers(Qn, size', Dn, Tn, from, head, mid, d)
  {
    forall v | 0 <= v < |Tn|
      ensures 0 <= Tn[v] <= v
    {
      if v < from {
        assert V0[v] == 1 && Vs[v] == 1;
      }
    }
    forall a, b, i | Scanned(done + {top}, -1, 0, a, i) && ResidueBond(bonds, start, |Tn|, a, b, i)
      ensures LayerBond(Dn, Tn, a, b)
    {
      if a in done {
        assert Scanned(done, -1, 0, a, i);
      } else if Vs[b] == 1 {
        QueuedLayer(V0, Vs, Qs, size, enq, Ds, Ts, from, head, mid, d, b);
      }
    }
    forall v | 0 <= v < |V0| && V0[v] == 1
      ensures Tn[v] < from
    {
      assert Vs[v] == 1;
    }
    forall k | 0 <= k < size'
      ensures 0 <= Qn[k] < |Tn| && Tn[Qn[k]] == from
      ensures (k < mid ==> Dn[Qn[k]] <= d) && (head <= k < mid ==> Dn[Qn[k]] == d)
      ensures mid <= k ==> Dn[Qn[k]] == d + 1
    {
      if k < size {
        assert Qn[k] == Qs[k] && Vs[Qs[k]] == 1;
      }
    }
  }

  class State {
    var startVertex: int
    var endVertex: int
    var count: int
    const visited: array<int>
    const queue: array<int>
    const pred: array<int>
    const color: array<int>
    const left: array<int>
    const right: array<int>
    var currentColor: int
    var rings: seq<seq<int>>
    const bonds: Bonds
    const atomCount: nat
    /** Breadth-first depth of each visited vertex; shows `pred` is a forest. */
    ghost var depth: seq<int>
    /** Root of each visited vertex's search tree: the vertex its search started from. */
    ghost var root: seq<int>

    /** Object invariant of the scratch state, for the `count` vertices of the current residue. */
    ghost predicate Valid()
      reads this`count, this`currentColor, this`depth, this`root, visited, pred, color
    {
      Shape() && Marks() && Forest()
    }

    /** The bond table is well formed and the scratch arrays are distinct and of matching sizes. */
    ghost predicate Shape() {
      && ValidBonds(bonds, atomCount)
      && visited.Length == queue.Length == pred.Length == color.Length
      && left.Length == MaxDepth && right.Length == MaxDepth
      && visited != queue && visited != pred && visited != color && visited != left && visited != right
      && queue != pred && queue != color && queue != left && queue != right
      && pred != color && pred != left && pred != right
      && color != left && color != right && left != right
      && this as object != visited && this as object != queue && this as object != pred
      && this as object != color && this as object != left && this as object != right
    }

    /** Visit marks are -1 or 1 and colours never exceed the current colour. */
    ghost predicate Marks()
      reads this`count, this`currentColor, visited, color
    {
      && 0 <= count <= visited.Length && count <= color.Length
      && 0 <= currentColor
      && (forall v :: 0 <= v < count ==> visited[v] == -1 || visited[v] == 1)
      && (forall v :: 0 <= v < count ==> 0 <= color[v] <= currentColor)
    }

    /**
     * The predecessor table is a forest of visited vertices: `depth` and
     * `root` follow it (Rooted), and an unvisited vertex has no predecessor.
     */
    ghost predicate Forest()
      reads this`count, this`depth, this`root, visited, pred
    {
      && 0 <= count <= visited.Length && count <= pred.Length
      && Rooted(pred[..count], depth, root)
      && (forall v :: 0 <= v < count && pred[v] >= 0 ==> visited[pred[v]] == 1)
      && (forall v :: 0 <= v < count && visited[v] != 1 ==> pred[v] == -1)
    }

    /** The scratch state describes the residue [startVertex, endVertex). */
    ghost predicate InResidue()
      reads this`startVertex, this`endVertex, this`count
    {
      0 <= startVertex && endVertex == startVertex + count && endVertex <= atomCount
    }

    /** Every search-tree edge is a covalent bond inside the residue. */
    ghost predicate TreeEdgesCovalent()
      reads this`count, this`startVertex, pred
    {
      forall v :: 0 <= v < count && v < pred.Length && pred[v] >= 0 ==>
        CovalentBond(bonds, startVertex + pred[v], startVertex + v)
    }

    /** The search state as a Layers snapshot. */
    ghost predicate Layering(done: set<int>)
      reads this`count, this`depth, this`root, this`startVertex
    {
      |root| == count && Layers(bonds, startVertex, depth, root, done)
    }

    constructor (bonds: Bonds, atomCount: nat, capacity: nat)
      requires ValidBonds(bonds, atomCount)
      ensures Valid()
      ensures this.bonds == bonds && this.atomCount == atomCount
      ensures visited.Length == capacity && rings == []
      ensures fresh(visited) && fresh(queue) && fresh(pred) && fresh(color) && fresh(left) && fresh(right)
    {
      this.bonds := bonds;
      this.atomCount := atomCount;
      startVertex, endVertex, count := 0, 0, 0;
      visited := new int[capacity](_ => 0);
      queue := new int[capacity](_ => 0);
      pred := new int[capacity](_ => 0);
      left := new int[MaxDepth](_ => 0);
      right := new int[MaxDepth](_ => 0);
      color := new int[capacity](_ => 0);
      currentColor := 0;
      rings := [];
      depth := [];
      root := [];
    }

    /** Clears the marks of the `endVertex - startVertex` vertices of the residue. */
    method ResetState()
      requires Valid()
      requires 0 <= endVertex - startVertex <= visited.Length
      modifies this`count, this`currentColor, this`depth, this`root, visited, pred, color
      ensures Valid() && Layering({})
      ensures count == endVertex - startVertex && currentColor == 0
      ensures forall v :: 0 <= v < count ==> visited[v] == -1 && pred[v] == -1 && color[v] == 0
    {
      var n := endVertex - startVertex;
      count := n;
      var i := 0;
      while i < n
        invariant 0 <= i <= n && count == n
        invariant n <= visited.Length == pred.Length == color.Length
        invariant forall v :: 0 <= v < i ==> visited[v] == -1 && pred[v] == -1 && color[v] == 0
      {
        visited[i] := -1;
        pred[i] := -1;
        color[i] := 0;
        i := i + 1;
      }
      currentColor := 0;
      depth := seq(count, _ => 0);
      root := seq(count, v => v);
    }

    /**
     * The ring of a back edge: the left walk followed by the right walk in
     * reverse, as residue-offset atom indices turned into unit indices.
     */
    method ClosedRing(leftOffset: int, rightOffset: int, ghost L: seq<int>, ghost R: seq<int>)
      returns (ring: array<int>)
      requires |L| == leftOffset <= left.Length && |R| == rightOffset <= right.Length
      requires forall k :: 0 <= k < leftOffset ==> left[k] == L[k]
      requires forall k :: 0 <= k < rightOffset ==> right[k] == R[k]
      ensures fresh(ring)
      ensures ring[..] == Shift(L + Reverse(R), startVertex)
    {
      ring := new int[leftOffset + rightOffset];
      var ringOffset := 0;
      var t := 0;
      while t < leftOffset
        invariant 0 <= t <= leftOffset && ringOffset == t
        invariant forall q :: 0 <= q < t ==> ring[q] == startVertex + left[q]
      {
        ring[ringOffset] := startVertex + left[t];
        ringOffset := ringOffset + 1;
        t := t + 1;
      }
      t := rightOffset - 1;
      while t >= 0
        invariant -1 <= t < rightOffset && ringOffset == leftOffset + (rightOffset - 1 - t)
        invariant forall q :: 0 <= q < leftOffset ==> ring[q] == startVertex + left[q]
        invariant forall q :: leftOffset <= q < ringOffset ==>
          ring[q] == startVertex + right[rightOffset - 1 - (q - leftOffset)]
      {
        ring[ringOffset] := startVertex + right[t];
        ringOffset := ringOffset + 1;
        t := t - 1;
      }
    }

    /**
     * First walk of addRing: paints, with a fresh colour, the walk `up` of the
     * ancestors of `a`, at most MaxDepth of them.
     */
    method MarkAncestors(a: int, ghost P: seq<int>, ghost up: seq<int>)
      requires Valid() && P == pred[..count] && MaximalWalk(P, a, up, MaxDepth)
      modifies this`currentColor, color
      ensures Valid() && currentColor == old(currentColor) + 1
      ensures forall v :: 0 <= v < count ==> (color[v] == currentColor <==> v in up)
    {
      currentColor := currentColor + 1;
      var nc := currentColor;
      var current := a;
      var t := 0;
      while t < MaxDepth
        modifies color
        invariant 0 <= t <= |up|
        invariant t < MaxDepth ==> t < |up| && current == up[t]
        invariant forall v :: 0 <= v < count ==> 0 <= color[v] <= nc
        invariant forall v :: 0 <= v < count && color[v] == nc ==> v in up
        invariant forall k :: 0 <= k < t ==> color[up[k]] == nc
      {
        color[current] := nc;
        if t + 1 < |up| {
          assert up[t + 1] == pred[current] >= 0;
        }
        current := pred[current];
        if current < 0 {
          break;
        }
        t := t + 1;
      }
    }

    /**
     * Second walk of addRing: climbs the walk `down` from `b` until it reaches
     * a vertex of the current colour (`found`, the vertex is `target`),
     * keeping the vertices passed before it in `right`.
     */
    method MeetAncestors(b: int, ghost P: seq<int>, ghost down: seq<int>)
      returns (rightOffset: int, found: bool, target: int)
      requires right.Length == MaxDepth && right != pred && right != color
      requires 0 <= count <= pred.Length && count <= color.Length
      requires P == pred[..count] && MaximalWalk(P, b, down, MaxDepth)
      modifies right
      ensures 0 <= rightOffset <= |down| && rightOffset <= right.Length
      ensures forall k :: 0 <= k < rightOffset ==> right[k] == down[k] && color[down[k]] != currentColor
      ensures found ==> rightOffset < |down| && target == down[rightOffset] && color[target] == currentColor
      ensures !found ==> rightOffset == |down|
    {
      rightOffset, found, target := 0, false, 0;
      var current := b;
      var t := 0;
      while t < MaxDepth
        invariant 0 <= t <= |down| && rightOffset == t
        invariant t < MaxDepth ==> t < |down| && current == down[t]
        invariant forall k :: 0 <= k < t ==> right[k] == down[k] && color[down[k]] != currentColor
        invariant !found
      {
        if color[current] == currentColor {
          target := current;
          found := true;
          break;
        }
        right[rightOffset] := current;
        rightOffset := rightOffset + 1;
        if t + 1 < |down| {
          assert down[t + 1] == pred[current] >= 0;
        }
        current := pred[current];
        if current < 0 {
          break;
        }
        t := t + 1;
      }
    }

    /**
     * Third walk of addRing: climbs the walk `up` from `a` again as far as
     * its first occurrence of `target`, keeping the vertices passed, `target`
     * included, in `left`.
     */
    method WalkToTarget(a: int, target: int, ghost P: seq<int>, ghost up: seq<int>)
      returns (leftOffset: int)
      requires left.Length == MaxDepth && left != pred && 0 <= count <= pred.Length
      requires P == pred[..count] && MaximalWalk(P, a, up, MaxDepth) && target in up
      modifies left
      ensures 0 < leftOffset <= |up| && up[leftOffset - 1] == target
      ensures forall k :: 0 <= k < leftOffset - 1 ==> up[k] != target
      ensures forall k :: 0 <= k < leftOffset ==> left[k] == up[k]
    {
      leftOffset := 0;
      var current := a;
      var t := 0;
      while t < MaxDepth
        invariant 0 <= t < |up| && leftOffset == t
        invariant current == up[t]
        invariant forall k :: 0 <= k < t ==> up[k] != target
        invariant forall k :: 0 <= k < leftOffset ==> left[k] == up[k]
      {
        left[leftOffset] := current;
        leftOffset := leftOffset + 1;
        if target == current {
          break;
        }
        assert t + 1 < |up| && up[t + 1] == pred[current] >= 0;
        current := pred[current];
        if current < 0 {
          break;
        }
        t := t + 1;
      }
    }

    /**
     * The last three loops of addRing, over the walks `up` from `a` (whose
     * vertices carry the current colour) and `down` from `b`: finds where
     * `down` first meets `up` and, if it does (`closed`), builds and sorts
     * the ring that joins the two walks there.
     */
    method BuildRing(a: int, b: int, ghost P: seq<int>, ghost up: seq<int>, ghost down: seq<int>)
      returns (closed: bool, ring: seq<int>, ghost i: int, ghost j: int)
      requires left.Length == MaxDepth && left != pred && left != right
      requires right.Length == MaxDepth && right != pred && right != color
      requires 0 <= count <= pred.Length && count <= color.Length
      requires P == pred[..count] && MaximalWalk(P, a, up, MaxDepth) && MaximalWalk(P, b, down, MaxDepth)
      requires forall v :: 0 <= v < count ==> (color[v] == currentColor <==> v in up)
      modifies left, right
      ensures !closed ==> forall t :: 0 <= t < |down| ==> down[t] !in up
      ensures closed ==> 0 <= j < |down| && 0 <= i < |up| && down[j] == up[i]
      ensures closed ==> (forall t :: 0 <= t < j ==> down[t] !in up) && (forall t :: 0 <= t < i ==> up[t] != up[i])
      ensures closed ==> ring == Sort(Shift(up[..i + 1] + Reverse(down[..j]), startVertex))
    {
      var rightOffset, found, target := MeetAncestors(b, P, down);
      forall t | 0 <= t < rightOffset ensures down[t] !in up {
        assert color[down[t]] != currentColor;
      }
      if !found {
        closed, ring, i, j := false, [], 0, 0;
      } else {
        var leftOffset := WalkToTarget(a, target, P, up);
        i, j := leftOffset - 1, rightOffset;
        var members := ClosedRing(leftOffset, rightOffset, up[..i + 1], down[..j]);
        closed, ring := true, Sort(members[..]);
      }
    }

    /**
     * Rest of addRing once the ancestors of `a` carry the current colour:
     * the ring built, if any, is the one RingWalk.AddedRings describes.
     */
    method CloseRing(a: int, b: int, ghost P: seq<int>) returns (closed: bool, ring: seq<int>)
      requires left.Length == MaxDepth && left != pred && left != right
      requires right.Length == MaxDepth && right != pred && right != color
      requires 0 <= count <= pred.Length && count <= color.Length
      requires P == pred[..count] && PredTable(P) && 0 <= a <= b < count
      requires forall v :: 0 <= v < count ==> (color[v] == currentColor <==> v in Ancestors(P, a, MaxDepth))
      modifies left, right
      ensures AddedRings(P, startVertex, a, b) == if closed then [ring] else []
    {
      ghost var up := Ancestors(P, a, MaxDepth);
      ghost var down := Ancestors(P, b, MaxDepth);
      AncestorsMaximal(P, a, MaxDepth);
      AncestorsMaximal(P, b, MaxDepth);
      ghost var i, j;
      closed, ring, i, j := BuildRing(a, b, P, up, down);
      if closed {
        AddedOne(P, startVertex, a, b, up, down, i, j);
      } else {
        AddedNothing(P, startVertex, a, b, up, down);
      }
    }

    /**
     * The back edge (a, b) of the search: appends the ring that closes it, if
     * any, exactly as RingWalk.AddedRings describes it over the predecessor
     * table.
     */
    method AddRing(a: int, b: int)
      requires Valid()
      requires 0 <= a < count && 0 <= b < count
      modifies this`currentColor, this`rings, color, left, right
      ensures Valid()
      ensures rings == old(rings) + AddedRings(old(pred[..count]), startVertex, a, b)
    {
      ghost var P := pred[..count];
      // only rings closed from the lower-numbered end are reported
      if a <= b {
        ghost var up := Ancestors(P, a, MaxDepth);
        AncestorsMaximal(P, a, MaxDepth);
        ghost var found0 := rings;
        MarkAncestors(a, P, up);
        var closed, ring := CloseRing(a, b, P);
        assert Valid() && rings == found0;
        if closed {
          rings := rings + [ring];
        }
      } else {
        assert AddedRings(P, startVertex, a, b) == [];
      }
    }

    /**
     * Breadth-first step of findRings: `other`, reached over a covalent bond
     * from the visited vertex `top`, is marked visited with `top` as its
     * predecessor.
     */
    method Visit(top: int, other: int)
      requires Valid() && TreeEdgesCovalent()
      requires 0 <= top < count && 0 <= other < count
      requires visited[top] == 1 && visited[other] == -1
      requires CovalentBond(bonds, startVertex + top, startVertex + other)
      modifies this`depth, this`root, visited, pred
      ensures Valid() && TreeEdgesCovalent()
      ensures visited[..] == old(visited[..])[other := 1]
      ensures pred[..] == old(pred[..])[other := top]
      ensures depth == old(depth)[other := old(depth[top]) + 1] && root == old(root)[other := old(root[top])]
    {
      ghost var P := pred[..count];
      forall w | 0 <= w < count && P[w] >= 0 ensures P[w] != other {
        assert visited[P[w]] == 1;
      }
      RootedExtend(P, depth, root, other, top);
      visited[other] := 1;
      pred[other] := top;
      depth := depth[other := depth[top] + 1];
      root := root[other := root[top]];
      assert pred[..count] == P[other := top];
    }

    /**
     * A covalent bond `top`-`other` to an already visited vertex: unless it
     * is a search-tree edge, the ring it closes (if any) is added.
     */
    method BackEdge(top: int, other: int, ghost bond: int, ghost done: set<int>, ghost base: int, ghost R0: seq<seq<int>>)
      requires Valid() && InResidue() && TreeEdgesCovalent()
      requires 0 <= top < count && 0 <= other < count && visited[top] == 1 && visited[other] == 1
      requires ResidueBond(bonds, startVertex, count, top, other, bond)
      requires Searching(done, top, bond, base) && RingsSince(R0)
      modifies this`currentColor, this`rings, color, left, right
      ensures Valid() && TreeEdgesCovalent()
      ensures rings == old(rings) + BackEdgeAdds(pred[..count], startVertex, top, other)
      ensures Searching(done, top, bond + 1, base) && RingsSince(R0)
    {
      ghost var V, P, found0 := visited[..count], pred[..count], rings;
      if pred[other] != top && pred[top] != other {
        BackEdgeRings(bonds, P, depth, startVertex, top, other, bond);
        AddRing(top, other);
        assert RingsSince(R0) by {
          RingsFromAppend(bonds, found0, AddedRings(P, startVertex, top, other), startVertex, endVertex);
          RingsFromJoin(bonds, found0, rings, |R0|, startVertex, endVertex);
        }
      }
      assert Searching(done, top, bond + 1, base) by {
        assert pred[..count] == P && visited[..count] == V;
        assert rings == found0 + BackEdgeAdds(P, startVertex, top, other);
        SearchedBackEdge(bonds, startVertex, V, P, done, top, other, bond, found0, base);
      }
    }

    /** The first `size` queue slots hold the visited vertices `enq`, each once. */
    ghost predicate Queued(enq: set<int>, size: int)
      reads this`count, visited, queue
    {
      && 0 <= size <= count && size <= queue.Length && |enq| == size
      && (forall k :: 0 <= k < size ==> queue[k] in enq)
      && (forall v :: v in enq ==> 0 <= v < count && v < visited.Length && visited[v] == 1)
    }

    /** The search state as a Searched snapshot, over the rings added since `base`. */
    ghost predicate Searching(done: set<int>, top: int, upto: int, base: int)
      reads this`count, this`rings, this`startVertex, visited, pred
    {
      && 0 <= count <= visited.Length && count <= pred.Length && PredTable(pred[..count])
      && 0 <= base <= |rings|
      && Searched(bonds, startVertex, visited[..count], pred[..count], done, top, upto, rings[base..])
    }

    /**
     * A vertex first reached from `top`, over its bond `i`, is visited and
     * appended to the queue; the search keeps its progress, now including
     * that bond.
     */
    method Enqueue(top: int, other: int, size: int, ghost enq: set<int>, ghost i: int, ghost done: set<int>,
                   ghost base: int, ghost V0: seq<int>)
      returns (size': int, ghost enq': set<int>)
      requires Valid() && InResidue() && TreeEdgesCovalent() && Queued(enq, size)
      requires 0 <= top < count && 0 <= other < count && visited[top] == 1 && visited[other] != 1
      requires ResidueBond(bonds, startVertex, count, top, other, i)
      requires Searching(done, top, i, base) && QueuedSince(V0, size, enq)
      modifies this`depth, this`root, visited, queue, pred
      ensures Valid() && TreeEdgesCovalent() && Queued(enq', size')
      ensures size' == size + 1 && enq' == enq + {other}
      ensures visited[..] == old(visited[..])[other := 1]
      ensures pred[..] == old(pred[..])[other := top]
      ensures depth == old(depth)[other := old(depth[top]) + 1] && root == old(root)[other := old(root[top])]
      ensures queue[..] == old(queue[..])[size := other]
      ensures Searching(done, top, i + 1, base) && QueuedSince(V0, size', enq')
    {
      ghost var V, P := visited[..count], pred[..count];
      assert other !in enq;
      assert CovalentBond(bonds, startVertex + top, startVertex + other);
      Visit(top, other);
      size', enq' := Push(other, size, enq, V0, V);
      assert Searching(done, top, i + 1, base) by {
        assert visited[..count] == V[other := 1] && pred[..count] == P[other := top];
        SearchedVisit(bonds, startVertex, V, P, done, top, other, i, rings[base..]);
      }
    }

    /**
     * `queue[size++] = other`, for a vertex `other` just marked visited
     * (the marks were `V` before): the queue still holds the visited
     * vertices queued, each once, and the vertices newly visited are those
     * queued.
     */
    method Push(other: int, size: int, ghost enq: set<int>, ghost V0: seq<int>, ghost V: seq<int>)
      returns (size': int, ghost enq': set<int>)
      requires Shape() && Queued(enq, size) && 0 <= other < count <= visited.Length && |V| == count
      requires other !in enq && visited[other] == 1 && visited[..count] == V[other := 1]
      requires QueuedAfter(V0, V, queue[..], size, enq)
      modifies queue
      ensures Queued(enq', size') && size' == size + 1 && enq' == enq + {other}
      ensures queue[..] == old(queue[..])[size := other]
      ensures QueuedSince(V0, size', enq')
    {
      BoundedSet(enq + {other}, count);
      ghost var Q := queue[..];
      queue[size] := other;
      size', enq' := size + 1, enq + {other};
      assert QueuedSince(V0, size', enq') by {
        assert queue[..] == Q[size := other];
        QueuedPush(V0, V, Q, size, enq, other);
      }
    }

    /**
     * Since the snapshot `V0` of the marks, taken when the queue was empty:
     * the vertices newly visited are the ones queued since, each in one of
     * the first `size` slots.
     */
    ghost predicate QueuedSince(V0: seq<int>, size: int, enq: set<int>)
      reads this`count, visited, queue
    {
      0 <= count <= visited.Length && QueuedAfter(V0, visited[..count], queue[..], size, enq)
    }

    /** The rings start with `R0`, and those after it are well formed in the residue. */
    ghost predicate RingsSince(R0: seq<seq<int>>)
      reads this`rings, this`startVertex, this`endVertex
    {
      |R0| <= |rings| && rings[..|R0|] == R0 && RingsFrom(bonds, rings, |R0|, startVertex, endVertex)
    }

    /**
     * One bond of the search vertex `top`. A bond leaving the residue or not
     * covalent changes nothing; one to an unvisited vertex visits and queues
     * it with `top` as its predecessor; one to a visited vertex adds the ring
     * it closes unless it is a search-tree edge. Either way the search keeps
     * its progress, now including this bond.
     */
    method ScanBond(top: int, a: int, i: int, size: int, ghost enq: set<int>, ghost done: set<int>, ghost base: int,
                    ghost V0: seq<int>, ghost R0: seq<seq<int>>,
                    ghost Vs: seq<int>, ghost Ps: seq<int>, ghost Ds: seq<int>, ghost Ts: seq<int>,
                    ghost Qs: seq<int>, ghost s0: int)
      returns (size': int, ghost enq': set<int>, other: int)
      requires Valid() && InResidue() && TreeEdgesCovalent() && Queued(enq, size)
      requires 0 <= top < count && visited[top] == 1
      requires a == startVertex + top && bonds.offset[a] <= i < bonds.offset[a + 1]
      requires Searching(done, top, i, base) && QueuedSince(V0, size, enq) && RingsSince(R0)
      requires Scan(Vs, Ps, Ds, Ts, Qs, s0, visited[..count], pred[..count], depth, root, queue[..], size, top)
      modifies this`currentColor, this`rings, this`depth, this`root, visited, queue, pred, color, left, right
      ensures Valid() && TreeEdgesCovalent() && Queued(enq', size') && size <= size' && enq <= enq'
      ensures Searching(done, top, i + 1, base) && QueuedSince(V0, size', enq') && RingsSince(R0)
      ensures Scan(Vs, Ps, Ds, Ts, Qs, s0, visited[..count], pred[..count], depth, root, queue[..], size', top)
      ensures InResidue() && unchanged(this`startVertex, this`endVertex, this`count)
      ensures other == bonds.neighbor[i] - startVertex
      ensures !(0 <= other < count && bonds.covalent[i]) ==>
        && size' == size && enq' == enq && rings == old(rings) && unchanged(visited, pred)
      ensures 0 <= other < count && bonds.covalent[i] && old(visited[other]) != 1 ==>
        && size' == size + 1 && enq' == enq + {other} && queue[size] == other && rings == old(rings)
        && visited[..] == old(visited[..])[other := 1] && pred[..] == old(pred[..])[other := top]
      ensures 0 <= other < count && bonds.covalent[i] && old(visited[other]) == 1 ==>
        && size' == size && enq' == enq && unchanged(visited, pred)
        && rings == old(rings) + BackEdgeAdds(pred[..count], startVertex, top, other)
    {
      size', enq' := size, enq;
      var b := bonds.neighbor[i];
      other := b - startVertex;
      if startVertex <= b < endVertex && bonds.covalent[i] {
        assert ResidueBond(bonds, startVertex, count, top, other, i);
        if visited[other] > 0 {
          BackEdge(top, other, i, done, base, R0);
        } else {
          ghost var V, P, D, T, Q := visited[..count], pred[..count], depth, root, queue[..];
          size', enq' := Enqueue(top, other, size, enq, i, done, base, V0);
          assert visited[..count] == V[other := 1] && pred[..count] == P[other := top];
          ScanMore(Vs, Ps, Ds, Ts, Qs, s0, V, P, D, T, Q, size, top, other);
        }
      } else {
        SearchedStep(bonds, startVertex, visited[..count], pred[..count], done, top, i, rings[base..], rings[base..]);
      }
    }

    /**
     * All bonds of the search vertex `top`, in the order the bond table lists
     * them: afterwards `top` is finished, and the vertices it newly visited
     * have `top` as their predecessor and fill the new queue slots (Scan).
     */
    method ScanBonds(top: int, size: int, ghost enq: set<int>, ghost done: set<int>, ghost base: int,
                     ghost V0: seq<int>, ghost R0: seq<seq<int>>)
      returns (size': int, ghost enq': set<int>)
      requires Valid() && InResidue() && TreeEdgesCovalent() && Queued(enq, size)
      requires 0 <= top < count && visited[top] == 1
      requires Searching(done, -1, 0, base) && QueuedSince(V0, size, enq) && RingsSince(R0)
      modifies this`currentColor, this`rings, this`depth, this`root, visited, queue, pred, color, left, right
      ensures Valid() && TreeEdgesCovalent() && Queued(enq', size') && size <= size' && enq <= enq'
      ensures Searching(done + {top}, -1, 0, base) && QueuedSince(V0, size', enq') && RingsSince(R0)
      ensures Scan(old(visited[..count]), old(pred[..count]), old(depth), old(root), old(queue[..]), size,
                   visited[..count], pred[..count], depth, root, queue[..], size', top)
    {
      size', enq' := size, enq;
      ghost var Vs, Ps, Ds, Ts, Qs := visited[..count], pred[..count], depth, root, queue[..];
      var a := startVertex + top;
      var start, end := bonds.offset[a], bonds.offset[a + 1];
      SearchedStart(bonds, startVertex, visited[..count], pred[..count], done, top, rings[base..]);
      ScanNone(Vs, Ps, Ds, Ts, Qs, size, top);
      var i := start;
      assert Searched(bonds, startVertex, visited[..count], pred[..count], done, top, i, rings[base..]);
      assert Searching(done, top, i, base);
      while i < end
        invariant Valid() && InResidue() && TreeEdgesCovalent()
        invariant startVertex == old(startVertex)
        invariant start <= i && (i <= end || i == start)
        invariant visited[top] == 1
        invariant Queued(enq', size') && size <= size' && enq <= enq'
        invariant Searching(done, top, i, base)
        invariant QueuedSince(V0, size', enq') && RingsSince(R0)
        invariant Scan(Vs, Ps, Ds, Ts, Qs, size, visited[..count], pred[..count], depth, root, queue[..], size', top)
      {
        var other;
        size', enq', other := ScanBond(top, a, i, size', enq', done, base, V0, R0, Vs, Ps, Ds, Ts, Qs, size);
        i := i + 1;
      }
      SearchedFinish(bonds, startVertex, visited[..count], pred[..count], done, top, i, rings[base..]);
    }

    /**
     * Breadth-first search from `from` over the covalent bonds inside the
     * residue, recording predecessors and closing a ring at every non-tree
     * edge to a vertex already visited. The vertices it visits are finished
     * with it: the search keeps its progress over all visited vertices.
     */
    method FindRings(from: int, ghost done: set<int>, ghost base: int, ghost R0: seq<seq<int>>) returns (ghost done': set<int>)
      requires Valid() && InResidue() && TreeEdgesCovalent()
      requires 0 <= from < count && visited[from] != 1
      requires Searching(done, -1, 0, base) && RingsSince(R0)
      requires forall v :: 0 <= v < count ==> (visited[v] == 1 <==> v in done)
      requires Layering(done) && Earlier(visited[..count], root, from)
      modifies this`currentColor, this`rings, this`depth, this`root, visited, queue, pred, color, left, right
      ensures Valid() && TreeEdgesCovalent() && RingsSince(R0)
      ensures Searching(done', -1, 0, base) && done <= done' && from in done'
      ensures forall v :: 0 <= v < count ==> (visited[v] == 1 <==> v in done')
      ensures Layering(done') && Earlier(visited[..count], root, from + 1)
      ensures forall v :: 0 <= v < count && old(visited[v]) != 1 && visited[v] == 1 ==> root[v] == from
    {
      ghost var V, P := visited[..count], pred[..count];
      visited[from] := 1;
      assert Valid();
      assert Searching(done, -1, 0, base) by {
        assert visited[..count] == V[from := 1];
        SearchedGrows(bonds, startVertex, V, P, visited[..count], P, done, -1, 0, rings[base..]);
      }
      queue[0] := from;
      assert QueueLayers(queue[..], 1, depth, root, from, 0, 1, 0) by {
        assert pred[from] == -1;
      }
      assert QueuedSince(V, 1, {from}) by {
        assert queue[..][0] == from;
      }
      ghost var enq;
      done', enq := SearchQueue(from, 1, {from}, done, base, R0, V);
    }

    /**
     * The loop of findRings: vertices are taken from the queue in order, and
     * their bonds scanned, until no queued vertex is left. Every vertex
     * queued (`enq'`) is then finished.
     */
    method SearchQueue(from: int, size: int, ghost enq: set<int>, ghost done: set<int>, ghost base: int,
                       ghost R0: seq<seq<int>>, ghost V: seq<int>)
      returns (ghost done': set<int>, ghost enq': set<int>)
      requires Valid() && InResidue() && TreeEdgesCovalent() && Queued(enq, size)
      requires Searching(done, -1, 0, base) && RingsSince(R0) && QueuedSince(V, size, enq)
      requires 0 <= from < count && from in enq
      requires Layering(done) && Earlier(V, root, from)
      requires 0 < size && QueueLayers(queue[..], size, depth, root, from, 0, size, 0)
      modifies this`currentColor, this`rings, this`depth, this`root, visited, queue, pred, color, left, right
      ensures Valid() && TreeEdgesCovalent() && RingsSince(R0)
      ensures Searching(done', -1, 0, base) && done <= done' && enq <= enq' && enq' <= done'
      ensures forall v :: 0 <= v < count ==> (visited[v] == 1 <==> V[v] == 1 || v in enq')
      ensures Layering(done') && Earlier(visited[..count], root, from + 1)
      ensures forall v :: 0 <= v < count && V[v] != 1 && visited[v] == 1 ==> root[v] == from
    {
      done', enq' := done, enq;
      var head, size := 0, size;
      ghost var mid, d := size, 0;
      while head < size
        invariant Valid() && InResidue() && TreeEdgesCovalent()
        invariant 0 <= head <= size && Queued(enq', size) && enq <= enq'
        invariant Searching(done', -1, 0, base) && done <= done' && RingsSince(R0)
        invariant QueuedSince(V, size, enq')
        invariant Dequeued(queue[..], head, done')
        invariant Layering(done') && Earlier(V, root, from)
        invariant QueueLayers(queue[..], size, depth, root, from, head, mid, d)
        decreases count - head
      {
        if head == mid {
          QueueLayersNext(queue[..], size, depth, root, from, head, d);
          mid, d := size, d + 1;
        }
        size, enq', done' := SearchStep(from, head, size, enq', done', base, R0, V, mid, d);
        head := head + 1;
      }
      forall v | v in enq'
        ensures v in done'
      {
        var k :| 0 <= k < size && queue[..][k] == v;
        assert Dequeued(queue[..], head, done');
      }
      EarlierNext(V, visited[..count], queue[..], size, enq', depth, root, from, head, mid, d);
    }

    /**
     * One round of the loop of findRings: the vertex in slot `head` is
     * taken from the queue, its bonds are scanned, and it is finished.
     */
    method SearchStep(from: int, head: int, size: int, ghost enq: set<int>, ghost done: set<int>, ghost base: int,
                      ghost R0: seq<seq<int>>, ghost V: seq<int>, ghost mid: int, ghost d: int)
      returns (size': int, ghost enq': set<int>, ghost done': set<int>)
      requires Valid() && InResidue() && TreeEdgesCovalent()
      requires 0 <= head < size && Queued(enq, size)
      requires Searching(done, -1, 0, base) && RingsSince(R0) && QueuedSince(V, size, enq)
      requires Dequeued(queue[..], head, done)
      requires Layering(done) && Earlier(V, root, from)
      requires head < mid && QueueLayers(queue[..], size, depth, root, from, head, mid, d)
      modifies this`currentColor, this`rings, this`depth, this`root, visited, queue, pred, color, left, right
      ensures Valid() && TreeEdgesCovalent()
      ensures size <= size' && Queued(enq', size') && enq <= enq' && done <= done'
      ensures Searching(done', -1, 0, base) && RingsSince(R0) && QueuedSince(V, size', enq')
      ensures Dequeued(queue[..], head + 1, done')
      ensures Layering(done') && Earlier(V, root, from)
      ensures QueueLayers(queue[..], size', depth, root, from, head + 1, mid, d)
    {
      var top := queue[head];
      ghost var Vs, Ps, Ds, Ts, Qs := visited[..count], pred[..count], depth, root, queue[..];
      assert Qs[head] == top;
      assert forall k :: 0 <= k < size ==> 0 <= Qs[k] < |Vs| && Vs[Qs[k]] == 1;
      size', enq' := ScanBonds(top, size, enq, done, base, V, R0);
      done' := done + {top};
      LayersScan(bonds, startVertex, V, enq, done, Vs, Ps, Ds, Ts, Qs, size,
                 visited[..count], pred[..count], depth, root, queue[..], size', top, from, head, mid, d);
      QueueLayersPop(queue[..], size', depth, root, from, head, mid, d);
      DequeuedStep(Qs, queue[..], head, size, done);
    }

    /**
     * Rings of the residue [start, end): residues of fewer than three atoms
     * are skipped; otherwise the marks are reset and a search is started at
     * every vertex no earlier search reached. The rings added are exactly
     * those the residue's non-tree bonds close over the final search forest.
     */
    method ProcessResidue(start: int, end: int)
      requires Valid() && 0 <= start <= end <= atomCount && end - start <= visited.Length
      modifies this`startVertex, this`endVertex, this`count, this`currentColor, this`rings, this`depth, this`root
      modifies visited, queue, pred, color, left, right
      ensures Valid() && startVertex == start && endVertex == end
      ensures end - start < 3 ==> rings == old(rings)
      ensures end - start >= 3 ==> InResidue() && forall v :: 0 <= v < count ==> visited[v] == 1
      ensures |old(rings)| <= |rings| && rings[..|old(rings)|] == old(rings)
      ensures RingsFrom(bonds, rings, |old(rings)|, start, end)
      ensures end - start >= 3 ==>
        && count == end - start && BfsForest(bonds, start, pred[..count], depth, root)
        && ResidueRings(bonds, start, pred[..count], rings[|old(rings)|..])
    {
      startVertex := start;
      endVertex := end;
      if endVertex - startVertex >= 3 {
        ResetState();
        SearchResidue();
      }
    }

    /**
     * The loop of processResidue: a search from every vertex of the residue
     * not yet visited, in index order, until every vertex is visited.
     */
    method SearchResidue()
      requires Valid() && InResidue() && TreeEdgesCovalent()
      requires Searching({}, -1, 0, |rings|) && Layering({})
      requires forall v :: 0 <= v < count ==> visited[v] == -1
      modifies this`currentColor, this`rings, this`depth, this`root, visited, queue, pred, color, left, right
      ensures Valid() && forall v :: 0 <= v < count ==> visited[v] == 1
      ensures RingsSince(old(rings))
      ensures BfsForest(bonds, startVertex, pred[..count], depth, root)
      ensures ResidueRings(bonds, startVertex, pred[..count], rings[|old(rings)|..])
    {
      ghost var base, R0 := |rings|, rings;
      ghost var done: set<int> := {};
      var i := 0;
      while i < count
        invariant Valid() && InResidue() && TreeEdgesCovalent()
        invariant 0 <= i <= count
        invariant forall v :: 0 <= v < i ==> visited[v] == 1
        invariant Searching(done, -1, 0, base) && RingsSince(R0)
        invariant forall v :: 0 <= v < count ==> (visited[v] == 1 <==> v in done)
        invariant Layering(done) && Earlier(visited[..count], root, i)
      {
        if visited[i] < 0 {
          done := FindRings(i, done, base, R0);
        }
        i := i + 1;
      }
      SearchedAll(bonds, startVertex, visited[..count], pred[..count], done, rings[base..]);
      LayersForest(bonds, startVertex, pred[..count], depth, root, done);
    }
  }

  /** The ring is well formed in one of the first `n` residues, and that residue has at least three atoms. */
  predicate InSomeResidue(bonds: Bonds, segments: seq<Segment>, n: int, ring: seq<int>) {
    exists q :: 0 <= q < n && q < |segments| && segments[q].end - segments[q].start >= 3
      && WellFormedRing(bonds, ring, segments[q].start, segments[q].end)
  }

  /**
   * What one residue contributes: nothing when it has fewer than three
   * atoms; otherwise exactly the rings its non-tree bonds close over its
   * search forest.
   */
  ghost predicate ResidueSearch(bonds: Bonds, seg: Segment, forest: seq<int>, added: seq<seq<int>>) {
    if seg.end - seg.start < 3 then added == []
    else
      && |forest| == seg.end - seg.start
      && (exists depth, root :: BfsForest(bonds, seg.start, forest, depth, root))
      && ResidueRings(bonds, seg.start, forest, added)
  }

  /** Every ring lies, well formed, in one of the first `n` residues, one of at least three atoms. */
  predicate AllInResidues(bonds: Bonds, segments: seq<Segment>, n: int, rings: seq<seq<int>>) {
    forall r :: 0 <= r < |rings| ==> InSomeResidue(bonds, segments, n, rings[r])
  }

  /** Appending the well-formed rings of residue `s` (none if it is small) keeps AllInResidues. */
  lemma AllInResiduesAppend(bonds: Bonds, segments: seq<Segment>, s: int, found: seq<seq<int>>, part: seq<seq<int>>)
    requires 0 <= s < |segments| && AllInResidues(bonds, segments, s, found)
    requires segments[s].end - segments[s].start >= 3 || part == []
    requires RingsFrom(bonds, found + part, |found|, segments[s].start, segments[s].end)
    ensures AllInResidues(bonds, segments, s + 1, found + part)
  {
    forall r | 0 <= r < |found + part|
      ensures InSomeResidue(bonds, segments, s + 1, (found + part)[r])
    {
      if r < |found| {
        assert (found + part)[r] == found[r];
        assert InSomeResidue(bonds, segments, s, found[r]);
      } else {
        assert WellFormedRing(bonds, (found + part)[r], segments[s].start, segments[s].end);
      }
    }
  }

  /** The first `s` residues are processed: their forests and rings, and the rings found so far. */
  ghost predicate ResiduesDone(bonds: Bonds, segments: seq<Segment>, s: int, forests: seq<seq<int>>,
                               parts: seq<seq<seq<int>>>, rings: seq<seq<int>>)
    requires 0 <= s <= |segments|
  {
    && |forests| == |parts| == s && rings == Concat(parts)
    && (forall q :: 0 <= q < s ==> ResidueSearch(bonds, segments[q], forests[q], parts[q]))
    && AllInResidues(bonds, segments, s, rings)
  }

  /** Processing residue `s` extends ResiduesDone by its forest and rings. */
  lemma ResiduesDoneStep(bonds: Bonds, segments: seq<Segment>, s: int, forests: seq<seq<int>>,
                         parts: seq<seq<seq<int>>>, found: seq<seq<int>>, forest: seq<int>, part: seq<seq<int>>)
    requires 0 <= s < |segments| && ResiduesDone(bonds, segments, s, forests, parts, found)
    requires ResidueSearch(bonds, segments[s], forest, part)
    requires RingsFrom(bonds, found + part, |found|, segments[s].start, segments[s].end)
    ensures ResiduesDone(bonds, segments, s + 1, forests + [forest], parts + [part], found + part)
  {
    AllInResiduesAppend(bonds, segments, s, found, part);
    ConcatAppend(parts, part);
    assert (forests + [forest])[s] == forest && (parts + [part])[s] == part;
  }

  /**
   * All rings of a unit: the residues are processed in order with one
   * scratch state sized to the largest of them. The result is the rings of
   * each residue in turn, residue by residue (`parts`, over the search
   * forests `forests`); every ring found lies in a residue of at least
   * three atoms and is well formed there.
   */
  method ComputeRings(bonds: Bonds, atomCount: nat, segments: seq<Segment>)
    returns (rings: seq<seq<int>>, ghost forests: seq<seq<int>>, ghost parts: seq<seq<seq<int>>>)
    requires ValidBonds(bonds, atomCount)
    requires forall s :: 0 <= s < |segments| ==> 0 <= segments[s].start <= segments[s].end <= atomCount
    ensures |forests| == |parts| == |segments| && rings == Concat(parts)
    ensures forall s :: 0 <= s < |segments| ==> ResidueSearch(bonds, segments[s], forests[s], parts[s])
    ensures AllInResidues(bonds, segments, |segments|, rings)
  {
    var size := LargestResidue(segments);
    var state := new State(bonds, atomCount, size);
    forests, parts := [], [];
    var s := 0;
    while s < |segments|
      invariant 0 <= s <= |segments|
      invariant state.Valid() && state.bonds == bonds && state.atomCount == atomCount
      invariant state.visited.Length == size
      invariant ResiduesDone(bonds, segments, s, forests, parts, state.rings)
    {
      ghost var found := state.rings;
      var seg := segments[s];
      state.ProcessResidue(seg.start, seg.end);
      ghost var part := state.rings[|found|..];
      ghost var forest := state.pred[..state.count];
      assert state.rings == found + part;
      assert seg.end - seg.start >= 3 ==> BfsForest(bonds, seg.start, forest, state.depth, state.root);
      ResiduesDoneStep(bonds, segments, s, forests, parts, found, forest, part);
      forests, parts := forests + [forest], parts + [part];
      s := s + 1;
    }
    rings := state.rings;
  }
}
