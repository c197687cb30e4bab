/**
 * The ring index of a unit (`createIndex` in rings/compute.ts): for every
 * ring atom the rings that contain it, a graph on the rings with an edge
 * wherever two rings share an atom, and the connected components of that
 * graph, the fused ring systems.
 *
 * IntAdjacencyGraph (mol-math/graph) is not part of this model: its
 * unique-edge builder is an edge list that skips repeated edges, and its
 * `connectedComponents` is ConnectedComponents below, which states the
 * usual contract of a component labelling.
 */
module RingIndex {
  import opened Seqs

  /** Rings as createIndex receives them: each a strictly ascending atom list. */
  predicate SortedRings(rings: seq<seq<int>>) {
    forall r :: 0 <= r < |rings| ==> StrictlySorted(rings[r])
  }

  /** Two atom lists have an atom in common. */
  ghost predicate Meets(x: seq<int>, y: seq<int>) {
    exists e :: e in x && e in y
  }

  /** The indices below `n` of the rings that contain atom `e`, in ascending order. */
  function RingsWith(rings: seq<seq<int>>, e: int, n: nat): (r: seq<nat>)
    requires n <= |rings|
    ensures forall x: int :: x in r <==> 0 <= x < n && e in rings[x]
    ensures StrictlySorted(r)
  {
    if n == 0 then []
    else
      var prev := RingsWith(rings, e, n - 1);
      var r := prev + (if e in rings[n - 1] then [n - 1] else []);
      assert forall k :: 0 <= k < |prev| ==> prev[k] in prev;
      r
  }

  /** The indices below `n` whose component index is `c`, in ascending order. */
  function Members(index: seq<nat>, c: nat, n: nat): seq<nat>
    requires n <= |index|
  {
    if n == 0 then [] else Members(index, c, n - 1) + (if index[n - 1] == c then [n - 1] else [])
  }

  /** Members lists exactly the indices of component `c`, ascending. */
  lemma {:induction false} MembersSpec(index: seq<nat>, c: nat, n: nat)
    requires n <= |index|
    ensures forall x: int :: x in Members(index, c, n) <==> 0 <= x < n && index[x] == c
    ensures StrictlySorted(Members(index, c, n))
  {
    if n > 0 {
      MembersSpec(index, c, n - 1);
      var prev := Members(index, c, n - 1);
      assert forall k :: 0 <= k < |prev| ==> prev[k] in prev;
    }
  }

  /** Some vertex has component index `c`. */
  ghost predicate Used(index: seq<nat>, c: nat) {
    exists r :: 0 <= r < |index| && index[r] == c
  }

  /** Every edge joins two vertices with the same label. */
  predicate Respects(tag: seq<int>, edges: seq<(nat, nat)>) {
    forall k :: 0 <= k < |edges| ==>
      edges[k].0 < |tag| && edges[k].1 < |tag| && tag[edges[k].0] == tag[edges[k].1]
  }

  /** Rings that share an atom carry the same label. */
  ghost predicate KeepsFused(rings: seq<seq<int>>, tag: seq<int>)
    requires |tag| == |rings|
  {
    forall a, b :: 0 <= a < |rings| && 0 <= b < |rings| && Meets(rings[a], rings[b]) ==> tag[a] == tag[b]
  }

  /** Vertices that `tag` puts together, `other` puts together too. */
  predicate Finer(tag: seq<int>, other: seq<int>) {
    |other| == |tag| &&
    forall i, j :: 0 <= i < |tag| && 0 <= j < |tag| && tag[i] == tag[j] ==> other[i] == other[j]
  }

  /** The atom-to-rings map holds, for every ring atom, the rings containing it. */
  ghost predicate AtomIndex(rings: seq<seq<int>>, m: map<int, seq<nat>>) {
    AtomIndexUpTo(rings, |rings|, m)
  }

  /** The edge list holds exactly the pairs a < b of rings sharing an atom, once each. */
  ghost predicate RingGraph(rings: seq<seq<int>>, edges: seq<(nat, nat)>) {
    EdgesBefore(rings, |rings|, edges)
  }

  /** The edge list holds exactly the pairs a < b sharing an atom with a below `n`. */
  ghost predicate EdgesBefore(rings: seq<seq<int>>, n: nat, edges: seq<(nat, nat)>) {
    Distinct(edges) &&
    forall a: nat, b: nat :: (a, b) in edges <==> a < n && a < b < |rings| && Meets(rings[a], rings[b])
  }

  /** As EdgesBefore(rI), plus the edges from ring rI through its first `i` atoms. */
  ghost predicate EdgesWithin(rings: seq<seq<int>>, rI: nat, i: nat, edges: seq<(nat, nat)>)
    requires rI < |rings| && i <= |rings[rI]|
  {
    Distinct(edges) &&
    forall a: nat, b: nat :: (a, b) in edges <==>
      (a < rI && a < b < |rings| && Meets(rings[a], rings[b])) ||
      (a == rI && a < b < |rings| && Meets(rings[rI][..i], rings[b]))
  }

  /** The result of createIndex. */
  datatype Index = Index(
    elementRingIndices: map<int, seq<nat>>,
    ringComponentIndex: seq<nat>,
    ringComponents: seq<seq<nat>>)

  // ----- Lemmas -----

  /** A labelling respects the ring graph exactly when it keeps fused rings together. */
  lemma RespectsFused(rings: seq<seq<int>>, edges: seq<(nat, nat)>, tag: seq<int>)
    requires RingGraph(rings, edges) && |tag| == |rings|
    ensures Respects(tag, edges) <==> KeepsFused(rings, tag)
  {
    if Respects(tag, edges) {
      forall a, b | 0 <= a < |rings| && 0 <= b < |rings| && Meets(rings[a], rings[b])
        ensures tag[a] == tag[b]
      {
        if a < b {
          var k :| 0 <= k < |edges| && edges[k] == (a, b);
        } else if b < a {
          var e :| e in rings[a] && e in rings[b];
          assert Meets(rings[b], rings[a]);
          var k :| 0 <= k < |edges| && edges[k] == (b, a);
        }
      }
    }
    if KeepsFused(rings, tag) {
      forall k | 0 <= k < |edges|
        ensures edges[k].0 < |tag| && edges[k].1 < |tag| && tag[edges[k].0] == tag[edges[k].1]
      {
        assert edges[k] in edges;
      }
    }
  }

  /** Merging the class of `b` into the class of `a` stays finer than any
      labelling that already puts `a` and `b` together. */
  lemma MergeFiner(tag: seq<nat>, merged: seq<nat>, a: nat, b: nat, L: seq<int>)
    requires a < |tag| && b < |tag| && |merged| == |tag|
    requires forall i :: 0 <= i < |tag| ==>
      merged[i] == if tag[i] == tag[b] then tag[a] else tag[i]
    requires Finer(tag, L) && L[a] == L[b]
    ensures Finer(merged, L)
  {
    forall i, j | 0 <= i < |merged| && 0 <= j < |merged| && merged[i] == merged[j]
      ensures L[i] == L[j]
    {
      if tag[i] == tag[b] && tag[j] != tag[b] {
        assert tag[j] == tag[a];
      } else if tag[i] != tag[b] && tag[j] == tag[b] {
        assert tag[i] == tag[a];
      }
    }
  }

  /** Merging keeps every edge that the old labels respected. */
  lemma MergeRespects(tag: seq<nat>, merged: seq<nat>, edges: seq<(nat, nat)>, k: nat)
    requires k < |edges| && Respects(tag, edges[..k])
    requires edges[k].0 < |tag| && edges[k].1 < |tag| && |merged| == |tag|
    requires forall i :: 0 <= i < |tag| ==>
      merged[i] == if tag[i] == tag[edges[k].1] then tag[edges[k].0] else tag[i]
    ensures Respects(merged, edges[..k + 1])
  {
    var E := edges[..k + 1];
    forall t | 0 <= t < |E|
      ensures E[t].0 < |merged| && E[t].1 < |merged| && merged[E[t].0] == merged[E[t].1]
    {
      if t < k {
        assert E[t] == edges[..k][t];
      }
    }
  }

  // ----- The methods -----

  /** The map holds, for every atom of the rings below `n`, those rings. */
  ghost predicate AtomIndexUpTo(rings: seq<seq<int>>, n: nat, m: map<int, seq<nat>>)
    requires n <= |rings|
  {
    forall e :: (e in m <==> RingsWith(rings, e, n) != []) &&
                (e in m ==> m[e] == RingsWith(rings, e, n))
  }

  /** The map holds the rings below `rI`, and ring rI for its first `i` atoms. */
  ghost predicate Collected(rings: seq<seq<int>>, rI: nat, i: nat, m: map<int, seq<nat>>)
    requires rI < |rings| && i <= |rings[rI]|
  {
    forall e :: (e in m <==> RingsWith(rings, e, rI) != [] || e in rings[rI][..i]) &&
                (e in m ==> m[e] == RingsWith(rings, e, rI) + (if e in rings[rI][..i] then [rI] else []))
  }

  /** Pushing ring rI onto the list of its next atom collects one atom more. */
  lemma CollectStep(rings: seq<seq<int>>, rI: nat, i: nat, m: map<int, seq<nat>>, m': map<int, seq<nat>>)
    requires rI < |rings| && i < |rings[rI]| && StrictlySorted(rings[rI])
    requires Collected(rings, rI, i, m)
    requires m' == m[rings[rI][i] := if rings[rI][i] in m then m[rings[rI][i]] + [rI] else [rI]]
    ensures Collected(rings, rI, i + 1, m')
  {
    var r := rings[rI];
    assert r[i] !in r[..i];
    assert r[..i + 1] == r[..i] + [r[i]];
  }

  /** Nothing of ring rI is collected yet. */
  lemma CollectStart(rings: seq<seq<int>>, rI: nat, m: map<int, seq<nat>>)
    requires rI < |rings| && AtomIndexUpTo(rings, rI, m)
    ensures Collected(rings, rI, 0, m)
  {
    assert rings[rI][..0] == [];
  }

  /** A ring fully collected extends the map to the next ring. */
  lemma CollectDone(rings: seq<seq<int>>, rI: nat, m: map<int, seq<nat>>)
    requires rI < |rings| && Collected(rings, rI, |rings[rI]|, m)
    ensures AtomIndexUpTo(rings, rI + 1, m)
  {
    assert rings[rI][..|rings[rI]|] == rings[rI];
  }

  /** First loop of createIndex: for each ring atom, the rings it is in. */
  method AtomRings(rings: seq<seq<int>>) returns (m: map<int, seq<nat>>)
    requires SortedRings(rings)
    ensures AtomIndex(rings, m)
  {
    m := map[];
    for rI := 0 to |rings|
      invariant AtomIndexUpTo(rings, rI, m)
    {
      m := AddRingAtoms(rings, rI, m);
    }
  }

  /** One pass of that loop: ring rI is pushed onto the list of each of its atoms. */
  method AddRingAtoms(rings: seq<seq<int>>, rI: nat, m0: map<int, seq<nat>>) returns (m: map<int, seq<nat>>)
    requires rI < |rings| && StrictlySorted(rings[rI])
    requires AtomIndexUpTo(rings, rI, m0)
    ensures AtomIndexUpTo(rings, rI + 1, m)
  {
    m := m0;
    var r := rings[rI];
    CollectStart(rings, rI, m);
    for i := 0 to |r|
      invariant Collected(rings, rI, i, m)
    {
      var e := r[i];
      ghost var before := m;
      if e in m {
        m := m[e := m[e] + [rI]];
      } else {
        m := m[e := [rI]];
      }
      CollectStep(rings, rI, i, before, m);
    }
    CollectDone(rings, rI, m);
  }

  /** Second loop of createIndex: an edge rI -> rJ for every later ring rJ
      that shares an atom with ring rI, each edge added once. */
  method BuildGraph(rings: seq<seq<int>>, m: map<int, seq<nat>>) returns (edges: seq<(nat, nat)>)
    requires AtomIndex(rings, m)
    ensures RingGraph(rings, edges)
  {
    edges := [];
    for rI := 0 to |rings|
      invariant EdgesBefore(rings, rI, edges)
    {
      EdgesStart(rings, rI, edges);
      for i := 0 to |rings[rI]|
        invariant EdgesWithin(rings, rI, i, edges)
      {
        edges := AddAtomEdges(rings, m, rI, i, edges);
      }
      EdgesDone(rings, rI, edges);
    }
  }

  /** One atom of ring rI: an edge to every later ring that also contains it. */
  method AddAtomEdges(rings: seq<seq<int>>, m: map<int, seq<nat>>, rI: nat, i: nat, edges0: seq<(nat, nat)>)
    returns (edges: seq<(nat, nat)>)
    requires AtomIndex(rings, m)
    requires rI < |rings| && i < |rings[rI]| && EdgesWithin(rings, rI, i, edges0)
    ensures EdgesWithin(rings, rI, i + 1, edges)
  {
    edges := edges0;
    var r := rings[rI];
    var e := r[i];
    assert RingsWith(rings, e, |rings|) != [] by { assert rI in RingsWith(rings, e, |rings|); }
    var containedRings := m[e];
    if |containedRings| == 1 {
      // the only ring containing `e` is rI itself
      assert containedRings == [rI] by { assert rI in containedRings; }
      NextAtom(rings, rI, i, containedRings, edges);
      return;
    }
    var j := 0;
    while j < |containedRings|
      invariant 0 <= j <= |containedRings|
      invariant Distinct(edges)
      invariant forall a: nat, b: nat :: (a, b) in edges <==>
        (a < rI && a < b < |rings| && Meets(rings[a], rings[b])) ||
        (a == rI && a < b < |rings| && Meets(r[..i], rings[b])) ||
        (a == rI && a < b && b in containedRings[..j])
    {
      var rJ := containedRings[j];
      assert containedRings[..j + 1] == containedRings[..j] + [rJ];
      if rI < rJ && (rI, rJ) !in edges {
        DistinctAppend(edges, [(rI, rJ)]);
        edges := edges + [(rI, rJ)];
      }
      j := j + 1;
    }
    NextAtom(rings, rI, i, containedRings, edges);
  }

  /** No atom of ring rI is scanned yet. */
  lemma EdgesStart(rings: seq<seq<int>>, rI: nat, edges: seq<(nat, nat)>)
    requires rI < |rings| && EdgesBefore(rings, rI, edges)
    ensures EdgesWithin(rings, rI, 0, edges)
  {
    forall b | 0 <= b < |rings| ensures !Meets(rings[rI][..0], rings[b]) {
      assert rings[rI][..0] == [];
    }
  }

  /** All atoms of ring rI scanned: the edges from ring rI are complete. */
  lemma EdgesDone(rings: seq<seq<int>>, rI: nat, edges: seq<(nat, nat)>)
    requires rI < |rings| && EdgesWithin(rings, rI, |rings[rI]|, edges)
    ensures EdgesBefore(rings, rI + 1, edges)
  {
    assert rings[rI][..|rings[rI]|] == rings[rI];
  }

  /** An atom one further along `x` meets `y` exactly when the atoms before
      it do or that atom is in `y`. */
  lemma MeetsExtend(x: seq<int>, i: nat, y: seq<int>)
    requires i < |x|
    ensures Meets(x[..i + 1], y) <==> Meets(x[..i], y) || x[i] in y
  {
    assert x[..i + 1] == x[..i] + [x[i]];
    if Meets(x[..i + 1], y) && x[i] !in y {
      var e :| e in x[..i + 1] && e in y;
      assert e in x[..i];
    }
    if Meets(x[..i], y) {
      var e :| e in x[..i] && e in y;
      assert e in x[..i + 1];
    }
    if x[i] in y {
      var z := x[..i + 1];
      assert z[i] == x[i];
    }
  }

  /** After all rings containing r[i] are scanned, the edges cover r[..i + 1]. */
  lemma NextAtom(rings: seq<seq<int>>, rI: nat, i: nat, containedRings: seq<nat>, edges: seq<(nat, nat)>)
    requires rI < |rings| && i < |rings[rI]| && Distinct(edges)
    requires containedRings == RingsWith(rings, rings[rI][i], |rings|)
    requires forall a: nat, b: nat :: (a, b) in edges <==>
      (a < rI && a < b < |rings| && Meets(rings[a], rings[b])) ||
      (a == rI && a < b < |rings| && Meets(rings[rI][..i], rings[b])) ||
      (a == rI && a < b && b in containedRings[..|containedRings|])
    ensures EdgesWithin(rings, rI, i + 1, edges)
  {
    assert containedRings[..|containedRings|] == containedRings;
    forall a: nat, b: nat
      ensures (a, b) in edges <==>
        (a < rI && a < b < |rings| && Meets(rings[a], rings[b])) ||
        (a == rI && a < b < |rings| && Meets(rings[rI][..i + 1], rings[b]))
    {
      if b < |rings| {
        MeetsExtend(rings[rI], i, rings[b]);
      }
    }
  }

  /**
   * The connected components of a graph on `n` vertices: a component index
   * per vertex, the indices running over 0 .. count - 1. Every edge joins
   * vertices of one component, and the labelling is the finest such: any
   * labelling that every edge respects puts together at least the vertices
   * put together here.
   */
  method ConnectedComponents(n: nat, edges: seq<(nat, nat)>) returns (index: seq<nat>, count: nat)
    requires forall k :: 0 <= k < |edges| ==> edges[k].0 < n && edges[k].1 < n
    ensures |index| == n
    ensures forall r :: 0 <= r < n ==> index[r] < count
    ensures forall c :: 0 <= c < count ==> Used(index, c)
    ensures Respects(index, edges)
    ensures forall L: seq<int> :: |L| == n && Respects(L, edges) ==> Finer(index, L)
  {
    var tag := Merge(n, edges);
    index, count := Compact(tag);
    forall L: seq<int> | |L| == n && Respects(L, edges)
      ensures Finer(index, L)
    {
      assert Finer(tag, L);
    }
    assert Respects(index, edges) by {
      forall k | 0 <= k < |edges|
        ensures index[edges[k].0] == index[edges[k].1]
      {
        assert tag[edges[k].0] == tag[edges[k].1];
      }
    }
  }

  /** Union of classes, one edge at a time: every vertex starts in a class
      of its own, and each edge merges the class of its second end into the
      class of its first. */
  method Merge(n: nat, edges: seq<(nat, nat)>) returns (tag: seq<nat>)
    requires forall k :: 0 <= k < |edges| ==> edges[k].0 < n && edges[k].1 < n
    ensures |tag| == n && Respects(tag, edges)
    ensures forall L: seq<int> :: |L| == n && Respects(L, edges) ==> Finer(tag, L)
  {
    tag := seq(n, i => i);
    for k := 0 to |edges|
      invariant |tag| == n && Respects(tag, edges[..k])
      invariant forall L: seq<int> :: |L| == n && Respects(L, edges[..k]) ==> Finer(tag, L)
    {
      var a, b := edges[k].0, edges[k].1;
      var la, lb := tag[a], tag[b];
      var merged := seq(n, i requires 0 <= i < n => if tag[i] == lb then la else tag[i]);
      MergeRespects(tag, merged, edges, k);
      forall L: seq<int> | |L| == n && Respects(L, edges[..k + 1])
        ensures Finer(merged, L)
      {
        PrefixRespects(L, edges, k);
        MergeFiner(tag, merged, a, b, L);
      }
      tag := merged;
    }
    assert edges[..|edges|] == edges;
  }

  /** A labelling that respects the first k + 1 edges respects the first k,
      and joins the two ends of edge k. */
  lemma PrefixRespects(L: seq<int>, edges: seq<(nat, nat)>, k: nat)
    requires k < |edges| && Respects(L, edges[..k + 1])
    ensures Respects(L, edges[..k])
    ensures edges[k].0 < |L| && edges[k].1 < |L| && L[edges[k].0] == L[edges[k].1]
  {
    assert edges[..k + 1][k] == edges[k];
    forall t | 0 <= t < k
      ensures edges[..k][t].0 < |L| && edges[..k][t].1 < |L| && L[edges[..k][t].0] == L[edges[..k][t].1]
    {
      assert edges[..k][t] == edges[..k + 1][t];
    }
  }

  /** Renumbers the labels 0, 1, 2, ... in order of first appearance. */
  method Compact(tag: seq<nat>) returns (index: seq<nat>, count: nat)
    ensures |index| == |tag|
    ensures forall r :: 0 <= r < |tag| ==> index[r] < count
    ensures forall c :: 0 <= c < count ==> Used(index, c)
    ensures forall i, j :: 0 <= i < |tag| && 0 <= j < |tag| ==> (index[i] == index[j] <==> tag[i] == tag[j])
  {
    var ids: map<nat, nat> := map[];
    index, count := [], 0;
    ghost var first: seq<nat> := [];
    for r := 0 to |tag|
      invariant |index| == r && |first| == count
      invariant forall r' :: 0 <= r' < r ==> tag[r'] in ids && index[r'] == ids[tag[r']]
      invariant forall x :: x in ids ==> ids[x] < count
      invariant forall x, y :: x in ids && y in ids && ids[x] == ids[y] ==> x == y
      invariant forall c :: 0 <= c < count ==> first[c] < r && index[first[c]] == c
    {
      if tag[r] !in ids {
        ids := ids[tag[r] := count];
        first := first + [r];
        count := count + 1;
      }
      index := index + [ids[tag[r]]];
    }
    forall c | 0 <= c < count
      ensures Used(index, c)
    {
      assert index[first[c]] == c;
    }
  }

  /** Last loop of createIndex: the rings of each component, in ring order. */
  method ComponentLists(index: seq<nat>, count: nat) returns (lists: seq<seq<nat>>)
    requires forall r :: 0 <= r < |index| ==> index[r] < count
    ensures |lists| == count
    ensures forall c :: 0 <= c < count ==> lists[c] == Members(index, c, |index|)
  {
    var ringComponents := new seq<nat>[count](_ => []);
    for rI := 0 to |index|
      invariant forall c :: 0 <= c < count ==> ringComponents[c] == Members(index, c, rI)
    {
      ringComponents[index[rI]] := ringComponents[index[rI]] + [rI];
    }
    lists := ringComponents[..];
  }

  /**
   * createIndex: the atom-to-rings map, the component of every ring, and the
   * rings of every component. Components are the fused ring systems: rings
   * sharing an atom are in one component, and no component holds more than
   * the chains of shared atoms force it to.
   */
  method CreateIndex(rings: seq<seq<int>>) returns (ix: Index)
    requires SortedRings(rings)
    ensures forall e :: e in ix.elementRingIndices <==> exists r :: 0 <= r < |rings| && e in rings[r]
    ensures forall e :: e in ix.elementRingIndices ==> ix.elementRingIndices[e] == RingsWith(rings, e, |rings|)
    ensures |ix.ringComponentIndex| == |rings|
    ensures forall r :: 0 <= r < |rings| ==> ix.ringComponentIndex[r] < |ix.ringComponents|
    ensures KeepsFused(rings, ix.ringComponentIndex)
    ensures forall L: seq<int> :: |L| == |rings| && KeepsFused(rings, L) ==> Finer(ix.ringComponentIndex, L)
    ensures forall c :: 0 <= c < |ix.ringComponents| ==>
      ix.ringComponents[c] != [] && StrictlySorted(ix.ringComponents[c])
    ensures forall c, r :: 0 <= c < |ix.ringComponents| ==>
      (r in ix.ringComponents[c] <==> 0 <= r < |rings| && ix.ringComponentIndex[r] == c)
  {
    var elementRingIndices := AtomRings(rings);
    var edges := BuildGraph(rings, elementRingIndices);
    GraphEnds(rings, edges);
    var ringComponentIndex, count := ConnectedComponents(|rings|, edges);
    var ringComponents := ComponentLists(ringComponentIndex, count);
    ix := Index(elementRingIndices, ringComponentIndex, ringComponents);
    ComponentPartition(ringComponentIndex, count, ringComponents);
    IndexedAtoms(rings, elementRingIndices);
    FusedComponents(rings, edges, ringComponentIndex);
  }

  /** Lists of the members of every component, each used, partition the rings. */
  lemma ComponentPartition(index: seq<nat>, count: nat, lists: seq<seq<nat>>)
    requires forall r :: 0 <= r < |index| ==> index[r] < count
    requires forall c :: 0 <= c < count ==> Used(index, c)
    requires |lists| == count && forall c :: 0 <= c < count ==> lists[c] == Members(index, c, |index|)
    ensures forall c :: 0 <= c < |lists| ==> lists[c] != [] && StrictlySorted(lists[c])
    ensures forall c, r :: 0 <= c < |lists| ==> (r in lists[c] <==> 0 <= r < |index| && index[r] == c)
  {
    forall c | 0 <= c < count
      ensures lists[c] != [] && StrictlySorted(lists[c])
      ensures forall r :: r in lists[c] <==> 0 <= r < |index| && index[r] == c
    {
      OneComponent(index, c, lists[c]);
    }
  }

  /** The member list of a used component is a non-empty ascending list of
      exactly its members. */
  lemma OneComponent(index: seq<nat>, c: nat, list: seq<nat>)
    requires Used(index, c) && list == Members(index, c, |index|)
    ensures list != [] && StrictlySorted(list)
    ensures forall r :: r in list <==> 0 <= r < |index| && index[r] == c
  {
    MembersSpec(index, c, |index|);
    var r :| 0 <= r < |index| && index[r] == c;
    assert r in list;
  }

  /** Every edge of the ring graph joins two rings. */
  lemma GraphEnds(rings: seq<seq<int>>, edges: seq<(nat, nat)>)
    requires RingGraph(rings, edges)
    ensures forall k :: 0 <= k < |edges| ==> edges[k].0 < |rings| && edges[k].1 < |rings|
  {
    forall k | 0 <= k < |edges| ensures edges[k].0 < |rings| && edges[k].1 < |rings| {
      assert (edges[k].0, edges[k].1) in edges;
    }
  }

  /** The keys of the atom-to-rings map are exactly the ring atoms. */
  lemma IndexedAtoms(rings: seq<seq<int>>, m: map<int, seq<nat>>)
    requires AtomIndex(rings, m)
    ensures forall e :: e in m <==> exists r :: 0 <= r < |rings| && e in rings[r]
  {
    forall e ensures e in m <==> exists r :: 0 <= r < |rings| && e in rings[r] {
      if e in m {
        var r := RingsWith(rings, e, |rings|)[0];
        assert r in RingsWith(rings, e, |rings|);
      }
      if exists r :: 0 <= r < |rings| && e in rings[r] {
        var r :| 0 <= r < |rings| && e in rings[r];
        assert r in RingsWith(rings, e, |rings|);
      }
    }
  }

  /** A labelling that is the finest one respecting the ring graph is the
      finest one keeping fused rings together. */
  lemma FusedComponents(rings: seq<seq<int>>, edges: seq<(nat, nat)>, index: seq<nat>)
    requires RingGraph(rings, edges) && |index| == |rings| && Respects(index, edges)
    requires forall L: seq<int> :: |L| == |rings| && Respects(L, edges) ==> Finer(index, L)
    ensures KeepsFused(rings, index)
    ensures forall L: seq<int> :: |L| == |rings| && KeepsFused(rings, L) ==> Finer(index, L)
  {
    RespectsFused(rings, edges, index);
    forall L: seq<int> | |L| == |rings| && KeepsFused(rings, L)
      ensures Finer(index, L)
    {
      RespectsFused(rings, edges, L);
    }
  }
}
