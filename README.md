# Ring perception of an atomic unit, modelled in Dafny

This project models the ring-perception core of the Mol* structure model,
`src/mol-model/structure/structure/unit/rings/compute.ts`, and proves its
properties. The core has three parts.

- **Ring finder** (`computeRings`). Each residue of at least three atoms is
  searched breadth-first over its covalent bonds inside the residue: a
  search starts at each vertex, in index order, that no earlier search
  reached. The predecessor table `pred` left by the searches is proved to
  be a breadth-first forest (`RingFinder.BfsForest`), with a depth and a
  tree root for each vertex:
  - a vertex without a predecessor is a root at depth 0; any other vertex
    is one layer below its predecessor, in the same tree;
  - the root of each tree is its least vertex;
  - every tree edge is a covalent bond;
  - every covalent bond of the residue from `a` to `b` leads to an earlier
    tree, or stays in `a`'s tree at most one layer down.

  A non-tree edge `a`-`b` with `a <= b` may close a ring, when the two
  predecessor walks of at most `MaxDepth` vertices meet. The ring is found
  by colouring at most `MaxDepth` = 4 vertices, `a` and up to three of its
  ancestors, and climbing from `b` until the colour is met. The model
  keeps the source's scratch `State` record as a
  class over arrays (`visited`, `queue`, `pred`, `color`, `left`, `right`).
  Its methods mutate those arrays in place. The ring that `addRing` builds
  is proved equal to a pure description, `RingWalk.AddedRings`: the two
  bounded predecessor walks, joined where they first meet, shifted to unit
  atom indices and sorted. Every ring reported is proved well formed:
  - strictly ascending;
  - inside its residue;
  - between 1 and 8 atoms;
  - at least 3 atoms unless it is the single atom of a bond from an atom
    to itself.
- **Fingerprint** (`getFingerprint`, `getMinimalRotation`,
  `buildFinderprint`).
  - `getMinimalRotation` is Booth's least-rotation algorithm over a failure
    table `f` of length `2n`. It is proved to return the start of a
    lexicographically least rotation.
  - `getFingerprint` compares the least rotation of the symbols with the
    least rotation of their reversal, and joins the smaller one with `-`.
    It is proved equal to `Fingerprint.Fingerprint`. That function is
    proved the same for every rotation and for the reversal of its input.
    For symbols without `-` it is also proved to have exactly `n - 1`
    separators, and to split back into the canonical reading.
- **Ring index** (`createIndex`). It builds three things:
  - the atom-to-rings map, each list in ascending ring order;
  - the ring graph, with an edge `rI < rJ` for every pair of rings that
    share an atom, each edge once;
  - the connected components of the graph, the fused ring systems.

  The component index is proved to keep rings that share an atom together.
  It is also proved the finest labelling that does so. The component lists
  are proved to partition the rings, each list non-empty and ascending.

Files:
- `wrappers.dfy` holds Option.
- `seqs.dfy` holds sequence predicates, reversal, and the sort that stands
  in for `sortArray`.
- `ring_walk.dfy` holds the pure description of a ring closed by a back
  edge.
- `ring_finder.dfy` holds the State class and `computeRings`.
- `symbol_order.dfy` holds JavaScript's `<` on strings.
- `rotation.dfy` holds cyclic reading, rotations, lexicographic order and
  the least rotation.
- `minimal_rotation.dfy` holds Booth's algorithm and its proof.
- `fingerprint.dfy` holds the fingerprint.
- `ring_index.dfy` holds `createIndex`.

## Model

All source paths are under `src/mol-model/structure/structure/unit/rings/`.

| member | source | states |
|---|---|---|
| RingFinder.ComputeRings | src/mol-model/structure/structure/unit/rings/compute.ts:15-26 | the rings are the residues' rings concatenated in residue order; a residue under three atoms adds none; a larger one adds exactly the rings its covalent non-tree bonds close over its search forest, and that forest is a `BfsForest` (`ResidueSearch`); every ring is well formed (ascending, 1..8 atoms, at least 3 unless a self-bond) inside one residue of at least three atoms |
| RingFinder.LargestResidue | src/mol-model/structure/structure/unit/rings/compute.ts:80-88 | the size is at least the length of every residue and is the length of one of them (0 when there are none) |
| RingFinder.State.constructor | src/mol-model/structure/structure/unit/rings/compute.ts:51-67 | fresh scratch arrays of the given capacity, no rings, and the state invariant holds |
| RingFinder.State.ResetState | src/mol-model/structure/structure/unit/rings/compute.ts:69-78 | `count = endVertex - startVertex`, and for each of the `count` vertices `visited = -1`, `pred = -1`, `color = 0`, with `currentColor = 0` |
| RingFinder.State.ProcessResidue | src/mol-model/structure/structure/unit/rings/compute.ts:90-104 | a residue of fewer than 3 atoms leaves the rings unchanged; otherwise every vertex ends visited and `pred` is a `BfsForest` (roots least in their trees, covalent tree edges, every residue bond to an earlier tree or at most one layer down in the same tree); the rings appended are exactly those of the residue's non-tree covalent bonds over the final `pred`: each added ring is closed by such a bond, and every such bond's ring is added; old rings stay a prefix and added rings are well formed in [start, end) |
| RingFinder.State.AddRing | src/mol-model/structure/structure/unit/rings/compute.ts:106-152 | appends exactly `AddedRings(pred, startVertex, a, b)`, which is nothing when `b < a` or the walks do not meet |
| RingFinder.State.MarkAncestors | src/mol-model/structure/structure/unit/rings/compute.ts:111-119 | after the first walk, a vertex has the new colour exactly when it is on the bounded ancestor walk of `a` |
| RingFinder.State.MeetAncestors | src/mol-model/structure/structure/unit/rings/compute.ts:121-135 | `right` holds the walk from `b` up to the first coloured vertex, `target`, and `found` says whether one was met |
| RingFinder.State.WalkToTarget | src/mol-model/structure/structure/unit/rings/compute.ts:137-143 | `left` holds the walk from `a` up to and including the first occurrence of `target` |
| RingFinder.State.ClosedRing | src/mol-model/structure/structure/unit/rings/compute.ts:145-148 | the ring array is `left` followed by `right` reversed, shifted by `startVertex` |
| RingFinder.State.BuildRing | src/mol-model/structure/structure/unit/rings/compute.ts:121-151 | the walks meet exactly when a ring is closed, and the ring is the sorted join of the two walks at their first common vertex |
| RingFinder.State.CloseRing | src/mol-model/structure/structure/unit/rings/compute.ts:121-151 | the ring closed, if any, is the one `AddedRings` describes |
| RingFinder.State.FindRings | src/mol-model/structure/structure/unit/rings/compute.ts:154-162 | `from` and every vertex it reaches end finished (visited exactly when finished), and the vertices it newly visits form the tree rooted at `from`; every bond of a finished vertex is a layer bond and has both ends visited; each ring found is closed by a non-tree bond between visited vertices, and the ring of every non-tree bond out of a finished vertex has been found; old rings are kept and added rings are well formed |
| RingFinder.State.ScanBonds | src/mol-model/structure/structure/unit/rings/compute.ts:164-180 | after all bonds of `top`, `top` is finished and the progress covers every bond of `top`; exactly the vertices newly visited got predecessor `top`, lie one layer below `top` in its tree, and fill the new queue slots, each once, with earlier slots kept (`Scan`) |
| RingFinder.State.ScanBond | src/mol-model/structure/structure/unit/rings/compute.ts:167-179 | three exact cases on bond `i`'s far end `other`: a non-covalent bond or one leaving the residue changes nothing; an unvisited `other` is marked visited, given predecessor `top` and queued at `size`; a visited `other` appends `BackEdgeAdds` (the closed ring unless the bond is a tree edge either way); progress then covers bond `i`, and the scan of `top` so far is still a `Scan` |
| RingFinder.State.Visit | src/mol-model/structure/structure/unit/rings/compute.ts:177-179 | marks `other` visited with predecessor `top`, one layer below `top` in `top`'s tree, changes nothing else, and keeps the predecessor table a forest of covalent tree edges |
| RingFinder.State.Enqueue | src/mol-model/structure/structure/unit/rings/compute.ts:177-179 | `visited` and `pred` change exactly at `other` (to 1 and `top`), `other` gets `top`'s depth plus one and `top`'s root, `queue[size] = other` with earlier slots unchanged, size grows by one, and the search's progress covers the bond |
| RingFinder.State.Push | src/mol-model/structure/structure/unit/rings/compute.ts:178 | `queue[size] = other` with earlier slots unchanged and size one more; the queue still holds each queued visited vertex once, and the vertices newly visited are exactly those queued |
| RingFinder.State.BackEdge | src/mol-model/structure/structure/unit/rings/compute.ts:172-174 | `rings` becomes the old rings followed by `AddedRings(top, other)` unless the bond is a tree edge either way, in which case nothing is added; the progress covers the bond and every added ring is well formed |
| RingFinder.State.SearchQueue | src/mol-model/structure/structure/unit/rings/compute.ts:162-181 | the queue loop: every vertex queued ends finished, and the vertices newly visited are exactly those queued; they form the tree rooted at `from`, and every vertex up to `from` is visited; every bond of a finished vertex is a layer bond; the progress holds over the finished set |
| RingFinder.State.SearchStep | src/mol-model/structure/structure/unit/rings/compute.ts:162-180 | one round of the queue loop: the vertex in slot `head` is finished, its bonds scanned; the queue stays layered (slots from `head + 1` of the current layer, then the next layer), and every bond of a finished vertex is a layer bond |
| RingFinder.State.SearchResidue | src/mol-model/structure/structure/unit/rings/compute.ts:100-103 | the loop over the residue's vertices: all end visited, `pred` is a `BfsForest` of the residue, and the rings added are exactly the residue's rings over the final `pred` |
| RingFinder.SearchedAll | src/mol-model/structure/structure/unit/rings/compute.ts:101-103 | once every vertex is finished, the rings found are exactly the rings closed by the residue's non-tree covalent bonds, in both directions |
| RingFinder.LayersForest | src/mol-model/structure/structure/unit/rings/compute.ts:100-103 | once every vertex is finished, with `pred` rooted by `depth` and `root` and its tree edges covalent, `pred` is a `BfsForest`: every residue bond is a layer bond |
| RingFinder.BfsForestBond | src/mol-model/structure/structure/unit/rings/compute.ts:154-182 | in a `BfsForest`, a bond listed at both of its atoms joins two vertices of one tree at most one layer apart |
| RingFinder.BfsForestNotAllRoots | src/mol-model/structure/structure/unit/rings/compute.ts:154-182 | in a `BfsForest`, two distinct atoms bonded both ways are not both roots: one of them has a predecessor |
| RingFinder.LayersScan | src/mol-model/structure/structure/unit/rings/compute.ts:164-180 | scanning all bonds of the dequeued `top` keeps every finished vertex's bonds layer bonds, every earlier tree below `from`, and the queue layered |
| RingFinder.QueueLayersNext | src/mol-model/structure/structure/unit/rings/compute.ts:162-163 | once every slot of the current layer is dequeued, the queued slots form the next layer |
| RingFinder.QueueLayersPop | src/mol-model/structure/structure/unit/rings/compute.ts:162-163 | dequeuing slot `head` of the current layer keeps the queue layered |
| RingFinder.DequeuedStep | src/mol-model/structure/structure/unit/rings/compute.ts:162-163 | dequeuing slot `head` finishes its vertex and keeps every earlier slot finished |
| RingFinder.QueuedLayer | src/mol-model/structure/structure/unit/rings/compute.ts:172-179 | a vertex visited during the search at `from` lies in an earlier tree, or in `from`'s tree at most one layer below the current one |
| RingFinder.EarlierNext | src/mol-model/structure/structure/unit/rings/compute.ts:157-181 | at the end of the search at `from`, every vertex up to `from` is visited and the vertices it visited form the tree rooted at `from` |
| RingFinder.RootedExtend | src/mol-model/structure/structure/unit/rings/compute.ts:177-179 | giving `v` predecessor `p`, depth one more than `p`'s and `p`'s root keeps depths and roots following `pred` |
| RingFinder.ScanMore | src/mol-model/structure/structure/unit/rings/compute.ts:176-179 | visiting one more vertex `other` from `top` and queueing it in the next slot extends the scan of `top` |
| RingFinder.SearchedGrows | src/mol-model/structure/structure/unit/rings/compute.ts:177-179 | visiting new vertices keeps the search's progress, because the marks and predecessors of visited vertices never change |
| RingFinder.AncestorsGrow | src/mol-model/structure/structure/unit/rings/compute.ts:115-119 | the bounded walk up from a visited vertex is unchanged by visiting new vertices |
| RingFinder.AddedRingsGrow | src/mol-model/structure/structure/unit/rings/compute.ts:172-173 | for a bond between visited vertices, the tree-edge test and the ring closed are unchanged by visiting new vertices |
| RingFinder.SearchedStart | src/mol-model/structure/structure/unit/rings/compute.ts:162-166 | before the first bond of `top` the progress of the finished vertices carries over |
| RingFinder.SearchedFinish | src/mol-model/structure/structure/unit/rings/compute.ts:166-180 | after the last bond of `top`, `top` joins the finished vertices |
| RingFinder.SearchedStep | src/mol-model/structure/structure/unit/rings/compute.ts:167-179 | scanning bond `i` keeps the progress when its far end is visited and its ring, for a non-tree bond, is found |
| RingFinder.SearchedVisit | src/mol-model/structure/structure/unit/rings/compute.ts:176-179 | reaching an unvisited vertex over bond `i` makes it a tree child, so the progress covers bond `i` with no ring added |
| RingFinder.SearchedBackEdge | src/mol-model/structure/structure/unit/rings/compute.ts:172-174 | appending `BackEdgeAdds` for a bond to a visited vertex makes the progress cover that bond |
| RingFinder.QueuedPush | src/mol-model/structure/structure/unit/rings/compute.ts:177-178 | marking a vertex and putting it in the next free queue slot keeps the vertices newly visited equal to those queued |
| RingFinder.RingsFromAppend | src/mol-model/structure/structure/unit/rings/compute.ts:150 | appending well-formed rings keeps the rings after the old length well formed |
| RingFinder.RingsFromJoin | src/mol-model/structure/structure/unit/rings/compute.ts:154-182 | rings well formed after `from` in a prefix, then well formed after the prefix, are well formed after `from` |
| RingFinder.AllInResiduesAppend | src/mol-model/structure/structure/unit/rings/compute.ts:20-23 | appending a residue's well-formed rings keeps every ring inside a residue of at least three atoms |
| RingFinder.ResiduesDoneStep | src/mol-model/structure/structure/unit/rings/compute.ts:20-23 | processing the next residue extends the concatenation of residue rings by that residue's rings |
| Seqs.ConcatAppend | src/mol-model/structure/structure/unit/rings/compute.ts:20-23 | concatenating one more piece appends it to the concatenation |
| RingFinder.BackEdgeRings | src/mol-model/structure/structure/unit/rings/compute.ts:168-173 | a ring closed over a covalent non-tree bond is well formed; a one-atom ring comes from a bond of an atom to itself |
| RingWalk.Ancestors | src/mol-model/structure/structure/unit/rings/compute.ts:115-119 | the bounded walk starts at `v`, has at most `n` vertices, and stays inside the table |
| RingWalk.AncestorsMaximal | src/mol-model/structure/structure/unit/rings/compute.ts:115-119 | the walk follows `pred` and stops only at a root or after `n` steps |
| RingWalk.ClosingRingFound | src/mol-model/structure/structure/unit/rings/compute.ts:106-135 | a ring is found exactly when `a <= b` and the two bounded walks share a vertex |
| RingWalk.ClosingRingShape | src/mol-model/structure/structure/unit/rings/compute.ts:137-148 | the joined walk runs from `a` to `b` with consecutive vertices linked by a tree edge, 1..8 vertices long |
| RingWalk.ClosingRingAtLeastThree | src/mol-model/structure/structure/unit/rings/compute.ts:173 | a ring closed by a non-tree edge between distinct vertices has at least three atoms |
| RingWalk.ClosingRingDistinct | src/mol-model/structure/structure/unit/rings/compute.ts:137-148 | the joined walk repeats no vertex, because `pred` is a layered forest |
| RingWalk.AddedRingWellFormed | src/mol-model/structure/structure/unit/rings/compute.ts:145-151 | the sorted ring is strictly ascending, 1..8 atoms, inside the residue, at least 3 atoms for a proper back edge, and `[start + a]` when `a = b` |
| RingWalk.AddedOne | src/mol-model/structure/structure/unit/rings/compute.ts:137-151 | when the walks first meet at `down[j] = up[i]`, the one ring added is the sorted shift of `up[..i+1] + reverse(down[..j])` |
| RingWalk.AddedNothing | src/mol-model/structure/structure/unit/rings/compute.ts:135 | when the walks share no vertex, nothing is added |
| Seqs.Sort | src/mol-model/structure/structure/unit/rings/compute.ts:150 | the result is sorted and a permutation of the input |
| SymbolOrder.StrLessTotal | src/mol-model/structure/structure/unit/rings/compute.ts:198 | of two different strings, one is `<` the other |
| SymbolOrder.StrLessTransitive | src/mol-model/structure/structure/unit/rings/compute.ts:221 | `<` on strings is transitive |
| Rotation.LexTotal | src/mol-model/structure/structure/unit/rings/compute.ts:195-201 | of two different readings of equal length, one is lexicographically smaller |
| Rotation.LeastUnique | src/mol-model/structure/structure/unit/rings/compute.ts:207-235 | every least start gives the same rotation, the least rotation |
| Rotation.LeastRotationOfRot | src/mol-model/structure/structure/unit/rings/compute.ts:207-235 | the least rotation does not depend on where the cycle is entered |
| Rotation.LeastRotationOfReversedRot | src/mol-model/structure/structure/unit/rings/compute.ts:186-191 | the least rotation of the reversal does not depend on where the cycle is entered |
| MinimalRotation.GetMinimalRotation | src/mol-model/structure/structure/unit/rings/compute.ts:207-235 | for non-empty input the start returned is below `n` and its rotation is lexicographically no greater than any rotation; 0 for empty input |
| MinimalRotation.Advance | src/mol-model/structure/structure/unit/rings/compute.ts:216-232 | one step of the outer loop keeps the failure-table and candidate invariant at `j + 1` |
| MinimalRotation.WalkBorders | src/mol-model/structure/structure/unit/rings/compute.ts:217-223 | the inner loop ends at `-1` or at a border `i` of the window whose next symbol matches position `j`; every start it passes over is beaten by the new `k` or still level with it |
| MinimalRotation.Final | src/mol-model/structure/structure/unit/rings/compute.ts:234 | once the doubled cycle is read, `k` is below `n` and a least start |
| Fingerprint.GetFingerprint | src/mol-model/structure/structure/unit/rings/compute.ts:184-205 | the result is the fingerprint: the smaller of the least rotations of the symbols and of their reversal (the reversal's on a tie), joined with `-` |
| Fingerprint.IsNormalSmaller | src/mol-model/structure/structure/unit/rings/compute.ts:193-201 | the comparison loop decides at the first difference exactly whether the normal reading is lexicographically smaller |
| Fingerprint.BuildFingerprint | src/mol-model/structure/structure/unit/rings/compute.ts:237-247 | the result is the symbols from `offset` round the cycle, joined with `-`; the empty string for no symbols |
| Fingerprint.FingerprintRotate | src/mol-model/structure/structure/unit/rings/compute.ts:184-205 | the fingerprint is the same for every rotation of the input |
| Fingerprint.FingerprintReverse | src/mol-model/structure/structure/unit/rings/compute.ts:184-205 | the fingerprint is the same for the reversed input |
| Fingerprint.CanonLeast | src/mol-model/structure/structure/unit/rings/compute.ts:203-204 | the canonical reading is no greater than any rotation of the symbols or of their reversal |
| Fingerprint.CanonIsReading | src/mol-model/structure/structure/unit/rings/compute.ts:203-204 | the canonical reading is a rotation of the symbols or of their reversal |
| Fingerprint.FingerprintSplits | src/mol-model/structure/structure/unit/rings/compute.ts:237-247 | for dash-free symbols the fingerprint splits on `-` back into the canonical reading and has exactly `n - 1` dashes |
| Fingerprint.JoinDashSeparators | src/mol-model/structure/structure/unit/rings/compute.ts:241-245 | joining `m` dash-free symbols puts exactly `m - 1` dashes in the result |
| Fingerprint.SplitJoin | src/mol-model/structure/structure/unit/rings/compute.ts:241-246 | splitting a join of dash-free symbols on `-` gives the symbols back |
| Fingerprint.FirstDifference | src/mol-model/structure/structure/unit/rings/compute.ts:195-200 | at the first position where two readings differ, the first is smaller exactly when its symbol is `<` the other's |
| RingIndex.CreateIndex | src/mol-model/structure/structure/unit/rings/compute.ts:252-296 | the map keys are exactly the ring atoms, each with its ascending list of rings; rings sharing an atom share a component, and no labelling that keeps them together is coarser; the component lists partition the rings, each non-empty and ascending |
| RingIndex.RingsWith | src/mol-model/structure/structure/unit/rings/compute.ts:255-264 | the list holds exactly the rings below `n` that contain the atom, in strictly ascending order |
| RingIndex.AtomRings | src/mol-model/structure/structure/unit/rings/compute.ts:255-264 | after the first loop every ring atom maps to exactly the rings containing it, in ring order |
| RingIndex.AddRingAtoms | src/mol-model/structure/structure/unit/rings/compute.ts:257-263 | one pass pushes ring `rI` onto the list of each of its atoms, extending the map from the rings below `rI` to those below `rI + 1` |
| RingIndex.BuildGraph | src/mol-model/structure/structure/unit/rings/compute.ts:266-284 | the edges are exactly the pairs `rI < rJ` of rings sharing an atom, with no repeats |
| RingIndex.AddAtomEdges | src/mol-model/structure/structure/unit/rings/compute.ts:270-282 | one atom of ring `rI` adds an edge to every later ring containing it, skipping lists of one ring and edges already present |
| RingIndex.RespectsFused | src/mol-model/structure/structure/unit/rings/compute.ts:266-286 | a labelling keeps every graph edge together exactly when it keeps every pair of rings sharing an atom together |
| RingIndex.ConnectedComponents | src/mol-model/structure/structure/unit/rings/compute.ts:285 | the component indices run over 0..count-1 and each is used; every edge joins one component; the labelling is finer than any edge-respecting labelling |
| RingIndex.Merge | src/mol-model/structure/structure/unit/rings/compute.ts:285 | merging classes edge by edge respects every edge and stays finer than every edge-respecting labelling |
| RingIndex.Compact | src/mol-model/structure/structure/unit/rings/compute.ts:285 | renumbering gives equal indices exactly to equal labels, indices 0..count-1, each used |
| RingIndex.ComponentLists | src/mol-model/structure/structure/unit/rings/compute.ts:288-293 | list `c` holds the rings of component `c` in ring order |
| RingIndex.MembersSpec | src/mol-model/structure/structure/unit/rings/compute.ts:288-293 | a member list holds exactly the rings with that component index, strictly ascending |
| RingIndex.ComponentPartition | src/mol-model/structure/structure/unit/rings/compute.ts:288-295 | the lists partition the rings: `r` is in list `c` exactly when its component is `c`, and each list is non-empty and ascending |
| RingIndex.IndexedAtoms | src/mol-model/structure/structure/unit/rings/compute.ts:255-264 | the keys of the atom map are exactly the atoms of the rings |
| RingIndex.FusedComponents | src/mol-model/structure/structure/unit/rings/compute.ts:266-286 | the finest edge-respecting labelling is the finest labelling that keeps rings sharing an atom together |

## Left out

- Unit, Segmentation and the residue iterator: the residues are a given sequence of half-open `[start, end)` ranges of unit atom indices.
- IntraUnitLinks: the bonds are given in compressed-sparse-row form (`offset`, `neighbor`).
- LinkType.isCovalent: modelled as a given boolean per bond, because the flag encoding is not part of this model.
- sortArray (mol-data/util): modelled by `Seqs.Sort`, an insertion sort, relying only on its result being a sorted permutation. SortedArray.ofSortedArray is the identity.
- IntAdjacencyGraph (mol-math/graph) is not part of this model:
  - the unique-edge builder is an edge list that skips edges already present;
  - `connectedComponents` is `RingIndex.ConnectedComponents`, a class-merging labelling renumbered in order of first appearance, proved against the contract of a component labelling. Its internal order of component ids may differ from the library's.
- RingIndex.CreateIndex: requires each ring to be strictly ascending, the `SortedArray` type of its argument. The map is a Dafny `map`, and a JavaScript `Map`'s insertion order of keys is not modelled.
- Int32Array width: indices and colours are unbounded integers. No residue, ring or colour count comes near 2^31.
- JavaScript strings compare by UTF-16 code units; `SymbolOrder.StrLess` compares Dafny characters in the same lexicographic way. The difference for characters outside the Basic Multilingual Plane is not modelled.
- Helper splits: several source functions are split into helper methods. The loops of `addRing` become MarkAncestors, MeetAncestors, WalkToTarget and ClosedRing. The body of `findRings` becomes SearchQueue, SearchStep (one round of its queue loop), ScanBonds, ScanBond, Visit, Enqueue, Push and BackEdge; ScanBond takes the atom index `a = startVertex + top` as a parameter, the local the source computes once per dequeued vertex; and the loop of `processResidue` becomes SearchResidue. The loops of `getMinimalRotation` become Advance and WalkBorders. The comparison loop of `getFingerprint` becomes IsNormalSmaller. The three loops of `createIndex` become AtomRings/AddRingAtoms, BuildGraph/AddAtomEdges and ComponentLists. Each helper performs its loop's statements in the same order, with one exception: Enqueue calls Visit, which writes `visited` then `pred`, and then Push, which writes `queue`, where the source writes `visited`, `queue`, `pred` (compute.ts:177-179). The effect is the same because the three arrays are distinct.
- Fingerprint.GetFingerprint: an empty symbol list gives the empty string, following the code. `buildFinderprint` then pushes `elements[NaN]`, which is `undefined`, and `join('')` writes that as nothing. The code raises no error on empty input.
- RingFinder.State.ProcessResidue: the forest is stated as a `BfsForest` (layers and trees, least roots, covalent tree edges, every residue bond to an earlier tree or at most one layer down), not as the exact queue order; which vertex of the previous layer becomes a vertex's predecessor is pinned only round by round, by `Scan` in ScanBonds (the dequeued vertex that first reached it). The same holds for SearchResidue, SearchQueue, FindRings and ComputeRings. For a bond table that does not list each bond at both atoms, only the directed layer facts are stated. The rings a residue adds are stated as membership both ways (each added ring is closed by a non-tree covalent bond over the final `pred`, and every such bond's ring is added); the order in which the search adds them, and how often a ring closed by two different bonds appears, are not stated.
- Rendering, camera and representation code that uses the rings is outside this model.
