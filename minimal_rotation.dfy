/**
 * getMinimalRotation: Booth's least-rotation algorithm, proved to return
 * the start of a lexicographically least rotation.
 *
 * The cycle is read twice over, positions `0 .. 2n-1`. The algorithm keeps
 * a candidate start `k` and the failure table `f` of the window read from
 * `k` up to the current position `j`: `f[t] + 1` is the length of the
 * longest proper border (a prefix that is also a suffix) of the first
 * `t + 1` symbols of that window. Every other start before `j` is either
 * already beaten by `k` or still level with it, and a start level with `k`
 * is one whose window to `j` is a border of the window from `k`.
 */
module MinimalRotation {
  import opened SymbolOrder
  import opened Rotation

  /** The first `b` symbols of the window from `k` up to `e` are also its last `b`. */
  ghost predicate Border(s: seq<string>, k: int, e: int, b: int)
    requires |s| > 0
  {
    0 <= b < e - k && Seg(s, k, b) == Seg(s, e - b, b)
  }

  /** `v + 1` is the longest proper border of the window from `k` up to `e`. */
  ghost predicate FailOK(s: seq<string>, k: int, e: int, v: int)
    requires |s| > 0
  {
    Border(s, k, e, v + 1) && forall b :: v + 1 < b < e - k ==> !Border(s, k, e, b)
  }

  /**
   * Entry `t` of a failure table; a function rather than `F[t]` so that
   * the quantifiers over the table have a term to trigger on.
   */
  function Fail(F: seq<int>, t: int): int
    requires 0 <= t < |F|
  {
    F[t]
  }

  /** `F` holds the failure values of the first `m` symbols from `k`. */
  ghost predicate Table(s: seq<string>, k: int, m: int, F: seq<int>)
    requires |s| > 0
  {
    m <= |F| && forall t :: 0 <= t < m ==> FailOK(s, k, k + t + 1, Fail(F, t))
  }

  /** The rotation from `k` is strictly smaller than the one from `p`. */
  ghost predicate Beats(s: seq<string>, k: int, p: int)
    requires |s| > 0
  {
    LexLess(Rot(s, k), Rot(s, p))
  }

  /** The start `p` is level with `k` up to position `j`. */
  ghost predicate Level(s: seq<string>, k: int, j: int, p: int)
    requires |s| > 0
  {
    k < p && Border(s, k, j, j - p)
  }

  /**
   * Every start before `j` other than `k` is beaten by `k`, or is level
   * with it over at most `bound` symbols.
   */
  ghost predicate Settled(s: seq<string>, k: int, j: int, bound: int)
    requires |s| > 0
  {
    forall p :: 0 <= p < j && p != k ==> Beats(s, k, p) || (Level(s, k, j, p) && j - p <= bound)
  }

  /** No border of the window from `k` to `j` longer than `i + 1` extends by the symbol at `j`. */
  ghost predicate Rejected(s: seq<string>, k: int, j: int, i: int)
    requires |s| > 0
  {
    forall b :: i + 1 < b < j - k && Border(s, k, j, b) ==> At(s, j) != At(s, k + b)
  }

  /** The invariant of the outer loop, at position `j`. */
  ghost predicate Outer(s: seq<string>, k: int, j: int, F: seq<int>)
    requires |s| > 0
  {
    0 <= k < j && Table(s, k, j - k, F) && Settled(s, k, j, j - k - 1)
  }

  /** The invariant of the inner loop, which walks the borders of the window from `k` to `j`. */
  ghost predicate Inner(s: seq<string>, k: int, j: int, i: int, F: seq<int>)
    requires |s| > 0
  {
    && 0 <= k < j && Table(s, k, j - k, F)
    && -1 <= i < j - k - 1 && Border(s, k, j, i + 1)
    && Settled(s, k, j, i + 1) && Rejected(s, k, j, i)
  }

  // Borders.

  /** The borders of a border are the borders shorter than it. */
  lemma BorderOfBorder(s: seq<string>, k: int, e: int, b: int, c: int)
    requires |s| > 0 && Border(s, k, e, b) && 0 <= c < b
    ensures Border(s, k, e, c) <==> Border(s, k, k + b, c)
  {
    SegSub(s, k, e - b, b, b - c, c);
    assert e - b + (b - c) == e - c;
  }

  lemma BorderExtend(s: seq<string>, k: int, e: int, b: int)
    requires |s| > 0 && Border(s, k, e, b) && At(s, e) == At(s, k + b)
    ensures Border(s, k, e + 1, b + 1)
  {
    assert e - b + b == e;
    SegExtend(s, k, e - b, b);
  }

  lemma BorderShrink(s: seq<string>, k: int, e: int, b: int)
    requires |s| > 0 && b >= 0 && Border(s, k, e + 1, b + 1)
    ensures Border(s, k, e, b) && At(s, e) == At(s, k + b)
  {
    SegSub(s, k, e - b, b + 1, 0, b);
    assert Seg(s, k, b + 1)[b] == Seg(s, e - b, b + 1)[b];
  }

  /** Borders depend only on the window's symbols. */
  lemma BorderTransfer(s: seq<string>, k: int, k': int, len: nat, m: int, b: int)
    requires |s| > 0 && Seg(s, k, len) == Seg(s, k', len) && m <= len
    ensures Border(s, k, k + m, b) <==> Border(s, k', k' + m, b)
  {
    if 0 <= b < m {
      SegSub(s, k, k', len, 0, b);
      SegSub(s, k, k', len, m - b, b);
    }
  }

  lemma FailTransfer(s: seq<string>, k: int, k': int, len: nat, t: int, v: int)
    requires |s| > 0 && Seg(s, k, len) == Seg(s, k', len) && 0 <= t < len
    requires FailOK(s, k, k + t + 1, v)
    ensures FailOK(s, k', k' + t + 1, v)
  {
    var e, e' := k + t + 1, k' + t + 1;
    BorderTransfer(s, k, k', len, t + 1, v + 1);
    forall b | v + 1 < b < t + 1 ensures !Border(s, k', e', b) {
      BorderTransfer(s, k, k', len, t + 1, b);
    }
  }

  lemma TableTransfer(s: seq<string>, k: int, k': int, m: nat, F: seq<int>)
    requires |s| > 0 && Seg(s, k, m) == Seg(s, k', m) && Table(s, k, m, F)
    ensures Table(s, k', m, F)
  {
    forall t | 0 <= t < m ensures FailOK(s, k', k' + t + 1, Fail(F, t)) {
      FailTransfer(s, k, k', m, t, Fail(F, t));
    }
  }

  lemma EmptySegs(s: seq<string>, k: int, p: int)
    requires |s| > 0
    ensures Seg(s, k, 0) == Seg(s, p, 0)
  {
  }

  /** Growing the table by one entry, for the window up to `j + 1`. */
  lemma TableGrow(s: seq<string>, k: int, j: int, F: seq<int>, v: int)
    requires |s| > 0 && 0 <= k <= j && Table(s, k, j - k, F) && j - k < |F|
    requires FailOK(s, k, j + 1, v)
    ensures Table(s, k, j + 1 - k, F[j - k := v])
  {
    var F' := F[j - k := v];
    forall t | 0 <= t < j + 1 - k ensures FailOK(s, k, k + t + 1, Fail(F', t)) {
      if t < j - k {
        assert Fail(F', t) == Fail(F, t);
      }
    }
  }

  // The steps of the algorithm.

  /** Before the first position the candidate is 0 and the table is empty. */
  lemma Initial(s: seq<string>, F: seq<int>)
    requires |s| > 0 && |F| == 2 * |s| && forall y :: 0 <= y < |F| ==> F[y] == -1
    ensures Outer(s, 0, 1, F)
  {
    EmptySegs(s, 0, 1);
  }

  /** The inner loop starts from the longest border of the window. */
  lemma InnerInit(s: seq<string>, k: int, j: int, F: seq<int>)
    requires |s| > 0 && Outer(s, k, j, F)
    ensures Inner(s, k, j, F[j - k - 1], F)
  {
    var i := F[j - k - 1];
    assert FailOK(s, k, k + (j - k - 1) + 1, Fail(F, j - k - 1));
    assert FailOK(s, k, j, i);
    forall p | 0 <= p < j && p != k && !Beats(s, k, p) ensures Level(s, k, j, p) && j - p <= i + 1 {
      assert Level(s, k, j, p);
    }
  }

  /** A border whose next symbol is larger than the symbol at `j`: its start is beaten by `k`. */
  lemma InnerGreater(s: seq<string>, k: int, j: int, i: int, F: seq<int>)
    requires |s| > 0 && Inner(s, k, j, i, F) && i >= 0
    requires StrLess(At(s, k + i + 1), At(s, j))
    ensures F[i] < i && Inner(s, k, j, F[i], F)
  {
    var v, e := F[i], k + i + 1;
    assert FailOK(s, k, e, Fail(F, i));
    assert Beats(s, k, j - i - 1) by {
      SmallerAt(s, k, j - i - 1, i + 1);
    }
    BorderOfBorder(s, k, j, i + 1, v + 1);
    forall p | 0 <= p < j && p != k && !Beats(s, k, p) ensures Level(s, k, j, p) && j - p <= v + 1 {
      GreaterLevel(s, k, j, i, v, p);
    }
    StrLessIrreflexive(At(s, j));
    GreaterRejected(s, k, j, i, v);
  }

  lemma GreaterLevel(s: seq<string>, k: int, j: int, i: int, v: int, p: int)
    requires |s| > 0 && 0 <= i && Border(s, k, j, i + 1) && FailOK(s, k, k + i + 1, v)
    requires Level(s, k, j, p) && j - p < i + 1
    ensures j - p <= v + 1
  {
    BorderOfBorder(s, k, j, i + 1, j - p);
  }

  lemma GreaterRejected(s: seq<string>, k: int, j: int, i: int, v: int)
    requires |s| > 0 && 0 <= i && Border(s, k, j, i + 1) && FailOK(s, k, k + i + 1, v)
    requires Rejected(s, k, j, i) && At(s, j) != At(s, k + i + 1)
    ensures Rejected(s, k, j, v)
  {
    forall b | v + 1 < b < j - k && Border(s, k, j, b) ensures At(s, j) != At(s, k + b) {
      if b < i + 1 {
        BorderOfBorder(s, k, j, i + 1, b);
      }
    }
  }

  /**
   * A border whose next symbol is smaller than the symbol at `j`: the
   * border's start beats `k` and becomes the candidate, and the window
   * from it is the border itself, so the table carries over.
   */
  lemma InnerLess(s: seq<string>, k: int, j: int, i: int, F: seq<int>)
    requires |s| > 0 && Inner(s, k, j, i, F) && i >= 0
    requires StrLess(At(s, j), At(s, k + i + 1))
    ensures F[i] < i && Inner(s, j - i - 1, j, F[i], F)
  {
    var k' := j - i - 1;
    assert Seg(s, k, i + 1) == Seg(s, k', i + 1);
    assert Beats(s, k', k) by {
      SmallerAt(s, k', k, i + 1);
    }
    LessTable(s, k, j, i, F);
    forall p | 0 <= p < j && p != k' && !Beats(s, k', p) ensures Level(s, k', j, p) && j - p <= F[i] + 1 {
      LessStart(s, k, j, i, F[i], p);
    }
  }

  /** The window from the new candidate is the border, so the table carries over. */
  lemma LessTable(s: seq<string>, k: int, j: int, i: int, F: seq<int>)
    requires |s| > 0 && 0 <= k && 0 <= i < j - k - 1 && Table(s, k, j - k, F) && Border(s, k, j, i + 1)
    ensures Table(s, j - i - 1, i + 1, F) && FailOK(s, j - i - 1, j, F[i])
  {
    var k' := j - i - 1;
    assert Seg(s, k, i + 1) == Seg(s, k', i + 1);
    assert Table(s, k, i + 1, F);
    TableTransfer(s, k, k', i + 1, F);
    assert FailOK(s, k', k' + i + 1, Fail(F, i));
    assert k' + i + 1 == j;
  }

  /** A start other than the new candidate: beaten by it, or level with it within the new border. */
  lemma LessStart(s: seq<string>, k: int, j: int, i: int, v: int, p: int)
    requires |s| > 0 && 0 <= k && 0 <= i < j - k - 1
    requires Border(s, k, j, i + 1) && Settled(s, k, j, i + 1)
    requires Beats(s, j - i - 1, k) && FailOK(s, j - i - 1, j, v)
    requires 0 <= p < j && p != j - i - 1 && !Beats(s, j - i - 1, p)
    ensures Level(s, j - i - 1, j, p) && j - p <= v + 1
  {
    var k' := j - i - 1;
    if p == k {
    } else if Beats(s, k, p) {
      LexTransitive(Rot(s, k'), Rot(s, k), Rot(s, p));
    } else {
      LessLevel(s, k, j, i, v, p);
    }
  }

  lemma LessLevel(s: seq<string>, k: int, j: int, i: int, v: int, p: int)
    requires |s| > 0 && 0 <= k && 0 <= i < j - k - 1
    requires Border(s, k, j, i + 1) && Level(s, k, j, p) && j - p < i + 1
    requires FailOK(s, j - i - 1, j, v)
    ensures Level(s, j - i - 1, j, p) && j - p <= v + 1
  {
    var k' := j - i - 1;
    assert Seg(s, k, i + 1) == Seg(s, k', i + 1);
    BorderOfBorder(s, k, j, i + 1, j - p);
    BorderTransfer(s, k, k', i + 1, i + 1, j - p);
    assert k' + i + 1 == j;
  }

  /**
   * A start level with `k` whose next symbol is larger than `k`'s: not
   * possible while the border `i + 1` matches at `j`, since the start at
   * the end of that border would then beat `k`.
   */
  lemma NoSmallerTie(s: seq<string>, k: int, j: int, i: int, F: seq<int>, L: int)
    requires |s| > 0 && Inner(s, k, j, i, F) && At(s, j) == At(s, k + i + 1)
    requires 0 <= L < i + 1 && Border(s, k, j, L)
    ensures !StrLess(At(s, j), At(s, k + L))
  {
    if StrLess(At(s, j), At(s, k + L)) {
      var q := k + i + 1 - L;
      BorderOfBorder(s, k, j, i + 1, L);
      assert Beats(s, q, k) by {
        assert Seg(s, k, L) == Seg(s, q, L);
        assert q + L == k + i + 1;
        SmallerAt(s, q, k, L);
      }
      if Beats(s, k, q) {
        LexAsymmetric(Rot(s, q), Rot(s, k));
      } else {
        assert Level(s, k, j, q);
        assert Seg(s, k, j - q)[L] == Seg(s, q, j - q)[L];
        StrLessIrreflexive(At(s, j));
      }
    }
  }

  /** One start, level with `k` up to `j` (or `j` itself), decided at `j + 1`. */
  lemma MatchStart(s: seq<string>, k: int, j: int, i: int, F: seq<int>, p: int)
    requires |s| > 0 && Inner(s, k, j, i, F) && At(s, j) == At(s, k + i + 1)
    requires k < p <= j && j - p <= i + 1 && Border(s, k, j, j - p)
    ensures Beats(s, k, p) || (Level(s, k, j + 1, p) && j + 1 - p <= j - k)
  {
    var L := j - p;
    if At(s, j) == At(s, k + L) {
      BorderExtend(s, k, j, L);
    } else if StrLess(At(s, k + L), At(s, j)) {
      SmallerAt(s, k, p, L);
    } else {
      StrLessTotal(At(s, j), At(s, k + L));
      NoSmallerTie(s, k, j, i, F, L);
    }
  }

  /** The border `i + 1` extends by the symbol at `j`: the table grows by `i + 1`. */
  lemma CloseMatch(s: seq<string>, k: int, j: int, i: int, F: seq<int>)
    requires |s| > 0 && Inner(s, k, j, i, F) && At(s, j) == At(s, k + i + 1) && j - k < |F|
    ensures Outer(s, k, j + 1, F[j - k := i + 1])
  {
    assert FailOK(s, k, j + 1, i + 1) by {
      BorderExtend(s, k, j, i + 1);
      var e := j + 1;
      forall b | i + 2 < b < e - k ensures !Border(s, k, e, b) {
        if Border(s, k, e, b) {
          BorderShrink(s, k, j, b - 1);
        }
      }
    }
    TableGrow(s, k, j, F, i + 1);
    forall p | 0 <= p < j + 1 && p != k && !Beats(s, k, p)
      ensures Level(s, k, j + 1, p) && j + 1 - p <= j - k
    {
      if p == j {
        EmptySegs(s, k, j);
      } else {
        assert Level(s, k, j, p);
      }
      MatchStart(s, k, j, i, F, p);
    }
  }

  /** No border extends and the symbol at `j` is larger than `k`'s first: `k` stays, with an empty border. */
  lemma CloseGreater(s: seq<string>, k: int, j: int, F: seq<int>)
    requires |s| > 0 && Inner(s, k, j, -1, F) && StrLess(At(s, k), At(s, j)) && j - k < |F|
    ensures Outer(s, k, j + 1, F[j - k := -1])
  {
    StrLessIrreflexive(At(s, j));
    NoBorderExtends(s, k, j, F);
    TableGrow(s, k, j, F, -1);
    GreaterSettled(s, k, j);
  }

  lemma GreaterSettled(s: seq<string>, k: int, j: int)
    requires |s| > 0 && k < j && Settled(s, k, j, 0) && StrLess(At(s, k), At(s, j))
    ensures Settled(s, k, j + 1, j - k)
  {
    assert Beats(s, k, j) by {
      EmptySegs(s, k, j);
      SmallerAt(s, k, j, 0);
    }
    forall p | 0 <= p < j && p != k ensures Beats(s, k, p) {
    }
  }

  lemma NoBorderExtends(s: seq<string>, k: int, j: int, F: seq<int>)
    requires |s| > 0 && Inner(s, k, j, -1, F) && At(s, j) != At(s, k)
    ensures FailOK(s, k, j + 1, -1)
  {
    EmptySegs(s, k, j + 1);
    var e := j + 1;
    forall b | 0 < b < e - k ensures !Border(s, k, e, b) {
      if Border(s, k, e, b) {
        BorderShrink(s, k, j, b - 1);
      }
    }
  }

  /** No border extends and the symbol at `j` is smaller than `k`'s first: `j` becomes the candidate. */
  lemma CloseLess(s: seq<string>, k: int, j: int, F: seq<int>)
    requires |s| > 0 && Inner(s, k, j, -1, F) && StrLess(At(s, j), At(s, k)) && j - k < |F|
    ensures Outer(s, j, j + 1, F[0 := -1])
  {
    assert Table(s, j, 1, F[0 := -1]) by {
      EmptySegs(s, j, j + 1);
      assert FailOK(s, j, j + 1, -1);
    }
    assert Beats(s, j, k) by {
      EmptySegs(s, j, k);
      SmallerAt(s, j, k, 0);
    }
    assert Settled(s, j, j + 1, 0) by {
      forall p | 0 <= p < j + 1 && p != j ensures Beats(s, j, p) {
        if p != k {
          assert Beats(s, k, p);
          LexTransitive(Rot(s, j), Rot(s, k), Rot(s, p));
        }
      }
    }
  }

  /** After two turns the candidate lies in the first turn and no rotation is smaller. */
  lemma Final(s: seq<string>, k: int, F: seq<int>)
    requires |s| > 0 && Outer(s, k, 2 * |s|, F)
    ensures k < |s| && IsLeast(s, k)
  {
    var n := |s|;
    if k >= n {
      var p := k - n;
      assert !Level(s, k, 2 * n, p);
      RotShift(s, p, 1);
      LexIrreflexive(Rot(s, k));
    }
    forall p | 0 <= p < n ensures LexLeq(Rot(s, k), Rot(s, p)) {
      if p != k && !Beats(s, k, p) {
        assert Level(s, k, 2 * n, p);
        SegSub(s, k, p, 2 * n - p, 0, n);
      }
    }
  }

  /**
   * The start of a least rotation of `elements` (0 for no elements), by
   * Booth's algorithm with its failure table over two turns of the cycle.
   */
  method GetMinimalRotation(elements: seq<string>) returns (k: int)
    ensures |elements| == 0 ==> k == 0
    ensures |elements| > 0 ==> 0 <= k < |elements| && IsLeast(elements, k)
  {
    var len := |elements|;
    var f := new int[len * 2];
    for y := 0 to f.Length
      invariant forall z :: 0 <= z < y ==> f[z] == -1
    {
      f[y] := -1;
    }
    k := 0;
    if len > 0 {
      Initial(elements, f[..]);
    }
    var j := 1;
    while j < f.Length
      invariant len == 0 ==> k == 0
      invariant len > 0 ==> 1 <= j <= f.Length && Outer(elements, k, j, f[..])
    {
      k := Advance(elements, f, k, j);
      j := j + 1;
    }
    if len > 0 {
      assert j == 2 * |elements|;
      Final(elements, k, f[..]);
    }
  }

  /** One round of the outer loop: the candidate and the table for the window extended to `j + 1`. */
  method Advance(elements: seq<string>, f: array<int>, k0: int, j: int) returns (k: int)
    requires |elements| > 0 && f.Length == 2 * |elements| && j < f.Length
    requires Outer(elements, k0, j, f[..])
    modifies f
    ensures Outer(elements, k, j + 1, f[..])
  {
    ghost var s, F := elements, f[..];
    var i;
    k, i := WalkBorders(elements, f, k0, j);
    if i == -1 {
      var u, v := SymbolAt(elements, j), SymbolAt(elements, k + i + 1);
      if u != v {
        if StrLess(u, v) {
          CloseLess(s, k, j, F);
          k := j;
        } else {
          StrLessTotal(u, v);
          CloseGreater(s, k, j, F);
        }
        f[j - k] := -1;
      } else {
        CloseMatch(s, k, j, i, F);
        f[j - k] := i + 1;
      }
    } else {
      CloseMatch(s, k, j, i, F);
      f[j - k] := i + 1;
    }
  }

  /**
   * The inner loop: walks the borders of the window from `k` to `j`,
   * longest first, until one extends by the symbol at `j` or none is left,
   * moving the candidate whenever a border's start turns out smaller.
   */
  method WalkBorders(elements: seq<string>, f: array<int>, k0: int, j: int) returns (k: int, i: int)
    requires |elements| > 0 && f.Length == 2 * |elements| && j < f.Length
    requires Outer(elements, k0, j, f[..])
    ensures Inner(elements, k, j, i, f[..])
    ensures i != -1 ==> At(elements, j) == At(elements, k + i + 1)
  {
    ghost var s, F := elements, f[..];
    k := k0;
    InnerInit(s, k, j, F);
    i := f[j - k - 1];
    while i != -1
      invariant Inner(s, k, j, i, F)
      decreases i
    {
      var u, v := SymbolAt(elements, j), SymbolAt(elements, k + i + 1);
      if u == v {
        break;
      }
      if StrLess(u, v) {
        InnerLess(s, k, j, i, F);
        k := j - i - 1;
      } else {
        StrLessTotal(u, v);
        InnerGreater(s, k, j, i, F);
      }
      i := f[i];
    }
  }
}
