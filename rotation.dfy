/**
 * A ring's element symbols read as a cycle: the symbol at any position,
 * the rotation starting at a position, the lexicographic order on
 * rotations, and the least rotation, which does not depend on where the
 * cycle is entered.
 */
module Rotation {
  import opened SymbolOrder
  import opened Seqs

  /** The symbol at position `x` of the cycle `s`, reading round and round (either way). */
  function At(s: seq<string>, x: int): (sym: string)
    requires |s| > 0
    decreases if x < 0 then |s| - x else x
  {
    if x < 0 then At(s, x + |s|) else if x < |s| then s[x] else At(s, x - |s|)
  }

  /** `elements[x % len]`: the symbol at position `x` of the cycle. */
  function SymbolAt(elements: seq<string>, x: nat): (r: string)
    requires |elements| > 0
    ensures r == At(elements, x)
  {
    AtMod(elements, x);
    elements[x % |elements|]
  }

  /** The `len` symbols of the cycle from position `p` on. */
  function Seg(s: seq<string>, p: int, len: nat): (r: seq<string>)
    requires |s| > 0
    ensures |r| == len
    ensures forall d :: 0 <= d < len ==> r[d] == At(s, p + d)
  {
    seq(len, d => At(s, p + d))
  }

  /** The rotation of `s` that starts at position `p`. */
  function Rot(s: seq<string>, p: int): (r: seq<string>)
    requires |s| > 0
    ensures |r| == |s|
  {
    Seg(s, p, |s|)
  }

  /** `a` comes before `b` lexicographically, and `d` is the first index where they differ. */
  predicate LessAt(a: seq<string>, b: seq<string>, d: int) {
    && 0 <= d < |a| && d < |b|
    && (forall t :: 0 <= t < d ==> a[t] == b[t])
    && StrLess(a[d], b[d])
  }

  /** Lexicographic order on symbol sequences of one length. */
  predicate LexLess(a: seq<string>, b: seq<string>) {
    exists d :: 0 <= d < |a| && LessAt(a, b, d)
  }

  predicate LexLeq(a: seq<string>, b: seq<string>) {
    a == b || LexLess(a, b)
  }

  lemma LexIrreflexive(a: seq<string>)
    ensures !LexLess(a, a)
  {
    forall d | 0 <= d < |a| ensures !StrLess(a[d], a[d]) {
      StrLessIrreflexive(a[d]);
    }
  }

  lemma LexTransitive(a: seq<string>, b: seq<string>, c: seq<string>)
    requires LexLess(a, b) && LexLess(b, c)
    ensures LexLess(a, c)
  {
    var d1 :| 0 <= d1 < |a| && LessAt(a, b, d1);
    var d2 :| 0 <= d2 < |b| && LessAt(b, c, d2);
    if d1 < d2 {
      assert LessAt(a, c, d1);
    } else if d2 < d1 {
      assert LessAt(a, c, d2);
    } else {
      StrLessTransitive(a[d1], b[d1], c[d1]);
      assert LessAt(a, c, d1);
    }
  }

  lemma LexAsymmetric(a: seq<string>, b: seq<string>)
    requires LexLess(a, b)
    ensures !LexLess(b, a)
  {
    if LexLess(b, a) {
      LexTransitive(a, b, a);
      LexIrreflexive(a);
    }
  }

  /** Two different sequences of one length are ordered one way or the other. */
  lemma {:induction false} LexTotal(a: seq<string>, b: seq<string>)
    requires |a| == |b| && a != b
    ensures LexLess(a, b) || LexLess(b, a)
  {
    if a[0] != b[0] {
      StrLessTotal(a[0], b[0]);
      if StrLess(a[0], b[0]) {
        assert LessAt(a, b, 0);
      } else {
        assert LessAt(b, a, 0);
      }
    } else {
      assert a == [a[0]] + a[1..] && b == [b[0]] + b[1..];
      LexTotal(a[1..], b[1..]);
      if LexLess(a[1..], b[1..]) {
        var d :| 0 <= d < |a| - 1 && LessAt(a[1..], b[1..], d);
        assert LessAt(a, b, d + 1);
      } else {
        var d :| 0 <= d < |a| - 1 && LessAt(b[1..], a[1..], d);
        assert LessAt(b, a, d + 1);
      }
    }
  }

  lemma LexLeqAntisymmetric(a: seq<string>, b: seq<string>)
    requires LexLeq(a, b) && LexLeq(b, a)
    ensures a == b
  {
    if a != b {
      LexAsymmetric(a, b);
    }
  }

  /** One whole turn round the cycle comes back to the same symbol. */
  lemma AtNext(s: seq<string>, x: int)
    requires |s| > 0
    ensures At(s, x + |s|) == At(s, x)
  {
  }

  /**
   * Going `q` whole turns round the cycle comes back to the same symbol:
   * the step of nonlinear arithmetic AtShift needs, which the solver does
   * not take unaided.
   */
  lemma MulStep(q: int, n: int)
    ensures (q - 1) * n + n == q * n
  {
  }

  lemma {:induction false} AtShift(s: seq<string>, x: int, q: int)
    requires |s| > 0
    ensures At(s, x + q * |s|) == At(s, x)
    decreases if q < 0 then -q else q
  {
    var n := |s|;
    if q > 0 {
      AtShift(s, x, q - 1);
      AtNext(s, x + (q - 1) * n);
      MulStep(q, n);
    } else if q < 0 {
      AtShift(s, x, q + 1);
      AtNext(s, x + q * n);
      MulStep(q + 1, n);
    }
  }

  /** Position `x` is entry `x % |s|` of the sequence. */
  lemma AtMod(s: seq<string>, x: int)
    requires |s| > 0
    ensures At(s, x) == s[x % |s|]
  {
    assert x == x % |s| + (x / |s|) * |s|;
    AtShift(s, x % |s|, x / |s|);
  }

  /** Two positions that agree for a whole turn agree for ever after. */
  lemma {:induction false} Periodic(s: seq<string>, p: int, q: int, x: int)
    requires |s| > 0 && Seg(s, p, |s|) == Seg(s, q, |s|) && x >= 0
    ensures At(s, p + x) == At(s, q + x)
    decreases x
  {
    var n := |s|;
    if x < n {
      assert At(s, p + x) == Seg(s, p, n)[x] == Seg(s, q, n)[x] == At(s, q + x);
    } else {
      Periodic(s, p, q, x - n);
      AtNext(s, p + x - n);
      AtNext(s, q + x - n);
    }
  }

  /** Equal windows have equal sub-windows. */
  lemma SegSub(s: seq<string>, p: int, q: int, len: nat, x: nat, len': nat)
    requires |s| > 0 && Seg(s, p, len) == Seg(s, q, len) && x + len' <= len
    ensures Seg(s, p + x, len') == Seg(s, q + x, len')
  {
    var u, v := Seg(s, p + x, len'), Seg(s, q + x, len');
    forall d | 0 <= d < len' ensures u[d] == v[d] {
      assert Seg(s, p, len)[x + d] == Seg(s, q, len)[x + d];
    }
  }

  /** Equal windows followed by equal symbols make longer equal windows. */
  lemma SegExtend(s: seq<string>, p: int, q: int, len: nat)
    requires |s| > 0 && Seg(s, p, len) == Seg(s, q, len) && At(s, p + len) == At(s, q + len)
    ensures Seg(s, p, len + 1) == Seg(s, q, len + 1)
  {
    var u, v := Seg(s, p, len + 1), Seg(s, q, len + 1);
    forall d | 0 <= d < len + 1 ensures u[d] == v[d] {
      if d < len {
        assert Seg(s, p, len)[d] == Seg(s, q, len)[d];
      }
    }
  }

  /**
   * Two windows that agree up to offset `d` and differ there with the
   * one from `k` smaller: the rotation from `k` is the smaller one, and
   * the difference lies within one turn.
   */
  lemma SmallerAt(s: seq<string>, k: int, p: int, d: nat)
    requires |s| > 0 && Seg(s, k, d) == Seg(s, p, d) && StrLess(At(s, k + d), At(s, p + d))
    ensures d < |s| && LexLess(Rot(s, k), Rot(s, p))
  {
    var n := |s|;
    if d >= n {
      SegSub(s, k, p, d, 0, n);
      Periodic(s, k, p, d);
      StrLessIrreflexive(At(s, k + d));
    } else {
      forall t | 0 <= t < d ensures Rot(s, k)[t] == Rot(s, p)[t] {
        assert Seg(s, k, d)[t] == Seg(s, p, d)[t];
      }
      assert LessAt(Rot(s, k), Rot(s, p), d);
    }
  }

  /** Rotating by whole turns changes nothing. */
  lemma RotShift(s: seq<string>, p: int, q: int)
    requires |s| > 0
    ensures Rot(s, p + q * |s|) == Rot(s, p)
  {
    forall d | 0 <= d < |s| ensures Rot(s, p + q * |s|)[d] == Rot(s, p)[d] {
      AtShift(s, p + d, q);
      assert p + q * |s| + d == p + d + q * |s|;
    }
  }

  /** A rotation is one of the rotations that start in the first turn. */
  lemma RotFirstTurn(s: seq<string>, p: int)
    requires |s| > 0
    ensures 0 <= p % |s| < |s| && Rot(s, p) == Rot(s, p % |s|)
  {
    assert p == p % |s| + (p / |s|) * |s|;
    RotShift(s, p % |s|, p / |s|);
  }

  lemma {:induction false} AtRot(s: seq<string>, r: int, x: int)
    requires |s| > 0
    ensures At(Rot(s, r), x) == At(s, r + x)
    decreases if x < 0 then |s| - x else x
  {
    var n := |s|;
    if x < 0 {
      AtRot(s, r, x + n);
      AtNext(s, r + x);
    } else if x >= n {
      AtRot(s, r, x - n);
      AtNext(s, r + x - n);
    }
  }

  lemma {:induction false} AtReverse(s: seq<string>, x: int)
    requires |s| > 0
    ensures At(Reverse(s), x) == At(s, -1 - x)
    decreases if x < 0 then |s| - x else x
  {
    var n := |s|;
    if x < 0 {
      AtReverse(s, x + n);
      AtNext(s, -1 - x - n);
    } else if x >= n {
      AtReverse(s, x - n);
      AtNext(s, -1 - x);
    } else {
      assert At(Reverse(s), x) == s[n - 1 - x];
      AtNext(s, -1 - x);
    }
  }

  /** A rotation of a rotation is a rotation. */
  lemma RotOfRot(s: seq<string>, r: int, q: int)
    requires |s| > 0
    ensures Rot(Rot(s, r), q) == Rot(s, r + q)
  {
    forall d | 0 <= d < |s| ensures Rot(Rot(s, r), q)[d] == Rot(s, r + q)[d] {
      AtRot(s, r, q + d);
    }
  }

  /** Reading a rotation backwards is reading the reversal from another place. */
  lemma RotOfReverse(s: seq<string>, r: int, q: int)
    requires |s| > 0
    ensures Rot(Reverse(Rot(s, r)), q) == Rot(Reverse(s), q - r)
  {
    var u, v := Rot(Reverse(Rot(s, r)), q), Rot(Reverse(s), q - r);
    forall d | 0 <= d < |s| ensures u[d] == v[d] {
      var x := q + d;
      assert u[d] == At(Rot(s, r), -1 - x) by {
        AtReverse(Rot(s, r), x);
      }
      assert At(Rot(s, r), -1 - x) == At(s, r + (-1 - x)) by {
        AtRot(s, r, -1 - x);
      }
      assert v[d] == At(s, -1 - (q - r + d)) by {
        AtReverse(s, q - r + d);
      }
      assert r + (-1 - x) == -1 - (q - r + d);
    }
  }

  /** Rotation `k` of `s` is no greater than the rotations starting before `p`. */
  ghost predicate LeastAmong(s: seq<string>, k: int, p: int)
    requires |s| > 0
  {
    forall q :: 0 <= q < p ==> LexLeq(Rot(s, k), Rot(s, q))
  }

  /** Rotation `k` of `s` is no greater than any rotation of `s`. */
  ghost predicate IsLeast(s: seq<string>, k: int)
    requires |s| > 0
  {
    LeastAmong(s, k, |s|)
  }

  /** A scan over the starts before `p` finds a least one among them. */
  lemma {:induction false} LeastAmongExists(s: seq<string>, p: nat) returns (k: nat)
    requires |s| > 0 && 1 <= p
    ensures k < p && LeastAmong(s, k, p)
  {
    if p == 1 {
      k := 0;
      assert LexLeq(Rot(s, 0), Rot(s, 0));
    } else {
      var k0 := LeastAmongExists(s, p - 1);
      k := ScanStep(s, p - 1, k0);
    }
  }

  /** One step of the scan: the start `p` replaces the least so far if its rotation is smaller. */
  lemma ScanStep(s: seq<string>, p: nat, k0: nat) returns (k: nat)
    requires |s| > 0 && k0 < p && LeastAmong(s, k0, p)
    ensures k <= p && LeastAmong(s, k, p + 1)
  {
    if LexLess(Rot(s, p), Rot(s, k0)) {
      ScanReplace(s, p, k0);
      k := p;
    } else {
      ScanKeep(s, p, k0);
      k := k0;
    }
  }

  /** Every cycle has a least rotation. */
  lemma LeastExists(s: seq<string>)
    requires |s| > 0
    ensures exists k :: 0 <= k < |s| && IsLeast(s, k)
  {
    var k := LeastAmongExists(s, |s|);
    assert IsLeast(s, k);
  }

  /** Reference definition: a start of a least rotation. */
  ghost function LeastStart(s: seq<string>): (k: int)
    requires |s| > 0
    ensures 0 <= k < |s| && IsLeast(s, k)
  {
    LeastExists(s);
    var k :| 0 <= k < |s| && IsLeast(s, k);
    k
  }

  lemma ScanKeep(s: seq<string>, p: nat, k: nat)
    requires |s| > 0 && k < p && !LexLess(Rot(s, p), Rot(s, k)) && LeastAmong(s, k, p)
    ensures LeastAmong(s, k, p + 1)
  {
    LexTotalLeq(Rot(s, k), Rot(s, p));
  }

  lemma ScanReplace(s: seq<string>, p: nat, k: nat)
    requires |s| > 0 && k < p && LexLess(Rot(s, p), Rot(s, k)) && LeastAmong(s, k, p)
    ensures LeastAmong(s, p, p + 1)
  {
    forall q | 0 <= q < p ensures LexLeq(Rot(s, p), Rot(s, q)) {
      if Rot(s, k) != Rot(s, q) {
        LexTransitive(Rot(s, p), Rot(s, k), Rot(s, q));
      }
    }
  }

  lemma LexTotalLeq(a: seq<string>, b: seq<string>)
    requires |a| == |b| && !LexLess(b, a)
    ensures LexLeq(a, b)
  {
    if a != b {
      LexTotal(a, b);
    }
  }

  /** The least rotation of `s`. */
  ghost function LeastRotation(s: seq<string>): (least: seq<string>)
    requires |s| > 0
  {
    Rot(s, LeastStart(s))
  }

  /** Any least rotation is the least rotation: the order has no ties between different rotations. */
  lemma LeastUnique(s: seq<string>, k: int)
    requires |s| > 0 && IsLeast(s, k)
    ensures Rot(s, k) == LeastRotation(s)
  {
    var k0 := LeastStart(s);
    RotFirstTurn(s, k);
    assert LexLeq(Rot(s, k0), Rot(s, k % |s|));
    LexLeqAntisymmetric(Rot(s, k), Rot(s, k0));
  }

  /**
   * Two cycles of one length with the same rotations, the rotation of `t`
   * from `q` being the rotation of `u` from `q + c`, have the same least
   * rotation.
   */
  lemma SameRotations(t: seq<string>, u: seq<string>, c: int)
    requires |t| == |u| > 0
    requires forall q :: Rot(t, q) == Rot(u, q + c)
    ensures LeastRotation(t) == LeastRotation(u)
  {
    var k := LeastStart(t);
    ShiftedLeast(t, u, c, k);
    LeastUnique(u, k + c);
    assert Rot(t, k) == Rot(u, k + c);
  }

  lemma ShiftedLeast(t: seq<string>, u: seq<string>, c: int, k: int)
    requires |t| == |u| > 0 && IsLeast(t, k)
    requires forall q :: Rot(t, q) == Rot(u, q + c)
    ensures IsLeast(u, k + c)
  {
    forall p | 0 <= p < |u| ensures LexLeq(Rot(u, k + c), Rot(u, p)) {
      assert Rot(t, k) == Rot(u, k + c);
      assert Rot(t, p - c) == Rot(u, p);
      LeastOfTurn(t, k, p - c);
    }
  }

  /** A least rotation is no greater than the rotation from any start, inside the first turn or not. */
  lemma LeastOfTurn(s: seq<string>, k: int, p: int)
    requires |s| > 0 && IsLeast(s, k)
    ensures LexLeq(Rot(s, k), Rot(s, p))
  {
    RotFirstTurn(s, p);
  }

  /** Entering the cycle elsewhere does not change its least rotation. */
  lemma LeastRotationOfRot(s: seq<string>, r: int)
    requires |s| > 0
    ensures LeastRotation(Rot(s, r)) == LeastRotation(s)
  {
    forall q ensures Rot(Rot(s, r), q) == Rot(s, q + r) {
      RotOfRot(s, r, q);
    }
    SameRotations(Rot(s, r), s, r);
  }

  /** Entering the cycle elsewhere and reading it backwards gives the least rotation of the reversal. */
  lemma LeastRotationOfReversedRot(s: seq<string>, r: int)
    requires |s| > 0
    ensures LeastRotation(Reverse(Rot(s, r))) == LeastRotation(Reverse(s))
  {
    forall q ensures Rot(Reverse(Rot(s, r)), q) == Rot(Reverse(s), q + -r) {
      RotOfReverse(s, r, q);
    }
    SameRotations(Reverse(Rot(s, r)), Reverse(s), -r);
  }
}
