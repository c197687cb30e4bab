/**
 * getFingerprint and buildFinderprint: the canonical name of a ring, its
 * element symbols read from the least of the rotations of the cycle and of
 * its reversal, joined by `-`.
 */
module Fingerprint {
  import opened SymbolOrder
  import opened Seqs
  import opened Rotation
  import opened MinimalRotation

  // Joining and splitting on '-'.

  /** `syms.join('-')`; no symbols give the empty string. */
  function JoinDash(syms: seq<string>): (joined: string) {
    if |syms| == 0 then ""
    else if |syms| == 1 then syms[0]
    else syms[0] + "-" + JoinDash(syms[1..])
  }

  /** The pieces of `t` between its '-' characters (`t.split('-')`). */
  function SplitDash(t: string): (r: seq<string>)
    ensures |r| >= 1
  {
    if |t| == 0 then [""]
    else
      var rest := SplitDash(t[1..]);
      if t[0] == '-' then [""] + rest else [[t[0]] + rest[0]] + rest[1..]
  }

  predicate NoDash(sym: string) {
    forall c :: 0 <= c < |sym| ==> sym[c] != '-'
  }

  /** The number of '-' characters in `t`. */
  function Dashes(t: string): nat {
    if |t| == 0 then 0 else (if t[0] == '-' then 1 else 0) + Dashes(t[1..])
  }

  lemma {:induction false} DashesAppend(a: string, b: string)
    ensures Dashes(a + b) == Dashes(a) + Dashes(b)
  {
    if |a| > 0 {
      assert (a + b)[0] == a[0] && (a + b)[1..] == a[1..] + b;
      DashesAppend(a[1..], b);
    } else {
      assert a + b == b;
    }
  }

  lemma {:induction false} DashesNone(a: string)
    requires NoDash(a)
    ensures Dashes(a) == 0
  {
    if |a| > 0 {
      DashesNone(a[1..]);
    }
  }

  /** Joining `n` symbols without '-' puts exactly `n - 1` separators in. */
  lemma {:induction false} JoinDashSeparators(syms: seq<string>)
    requires |syms| > 0 && forall i :: 0 <= i < |syms| ==> NoDash(syms[i])
    ensures Dashes(JoinDash(syms)) == |syms| - 1
  {
    DashesNone(syms[0]);
    if |syms| > 1 {
      JoinDashSeparators(syms[1..]);
      DashesAppend(syms[0] + "-", JoinDash(syms[1..]));
      DashesAppend(syms[0], "-");
    }
  }

  lemma {:induction false} SplitNoDash(a: string)
    requires NoDash(a)
    ensures SplitDash(a) == [a]
  {
    if |a| > 0 {
      SplitNoDash(a[1..]);
      assert [a[0]] + a[1..] == a;
    }
  }

  lemma {:induction false} SplitAfter(a: string, t: string)
    requires NoDash(a)
    ensures SplitDash(a + "-" + t) == [a] + SplitDash(t)
  {
    if |a| == 0 {
      assert a + "-" + t == "-" + t;
      assert ("-" + t)[1..] == t;
    } else {
      assert (a + "-" + t)[1..] == a[1..] + "-" + t;
      SplitAfter(a[1..], t);
      assert [a[0]] + a[1..] == a;
    }
  }

  /** Splitting the joined symbols on '-' gives them back, when none contains '-'. */
  lemma {:induction false} SplitJoin(syms: seq<string>)
    requires |syms| > 0 && forall i :: 0 <= i < |syms| ==> NoDash(syms[i])
    ensures SplitDash(JoinDash(syms)) == syms
  {
    if |syms| == 1 {
      SplitNoDash(syms[0]);
    } else {
      SplitJoin(syms[1..]);
      SplitAfter(syms[0], JoinDash(syms[1..]));
      assert [syms[0]] + syms[1..] == syms;
    }
  }

  // The canonical reading.

  /**
   * The least rotation of the cycle and the least rotation of its
   * reversal, whichever is smaller; the reversal's on a tie.
   */
  ghost function Canon(s: seq<string>): (canon: seq<string>)
    requires |s| > 0
  {
    var a, b := LeastRotation(s), LeastRotation(Reverse(s));
    if LexLess(a, b) then a else b
  }

  /** The fingerprint of a ring's element symbols, read round the ring in order. */
  ghost function Fingerprint(s: seq<string>): (fp: string) {
    if |s| == 0 then "" else JoinDash(Canon(s))
  }

  /** Entering the ring at another atom does not change its fingerprint. */
  lemma FingerprintRotate(s: seq<string>, r: int)
    requires |s| > 0
    ensures Fingerprint(Rot(s, r)) == Fingerprint(s)
  {
    LeastRotationOfRot(s, r);
    LeastRotationOfReversedRot(s, r);
  }

  /** Going round the ring the other way does not change its fingerprint. */
  lemma FingerprintReverse(s: seq<string>)
    ensures Fingerprint(Reverse(s)) == Fingerprint(s)
  {
    if |s| > 0 {
      ReverseReverse(s);
      var a, b := LeastRotation(s), LeastRotation(Reverse(s));
      if a != b {
        LexTotal(a, b);
        if LexLess(a, b) {
          LexAsymmetric(a, b);
        } else {
          LexAsymmetric(b, a);
        }
      }
    }
  }

  /** The canonical reading is no greater than any reading of the ring, either way round. */
  lemma CanonLeast(s: seq<string>, p: int)
    requires |s| > 0
    ensures LexLeq(Canon(s), Rot(s, p)) && LexLeq(Canon(s), Rot(Reverse(s), p))
  {
    var ka, kb := LeastStart(s), LeastStart(Reverse(s));
    var a, b := Rot(s, ka), Rot(Reverse(s), kb);
    LeastOfTurn(s, ka, p);
    LeastOfTurn(Reverse(s), kb, p);
    if LexLess(a, b) {
      LeqTrans(a, b, Rot(Reverse(s), p));
    } else {
      LexTotalLeq(b, a);
      LeqTrans(b, a, Rot(s, p));
    }
  }

  lemma LeqTrans(a: seq<string>, b: seq<string>, c: seq<string>)
    requires LexLeq(a, b) && LexLeq(b, c)
    ensures LexLeq(a, c)
  {
    if a != b && b != c {
      LexTransitive(a, b, c);
    }
  }

  /** The canonical reading is itself a reading of the ring, one way round or the other. */
  lemma CanonIsReading(s: seq<string>)
    requires |s| > 0
    ensures exists p :: 0 <= p < |s| && (Canon(s) == Rot(s, p) || Canon(s) == Rot(Reverse(s), p))
  {
    var ka, kb := LeastStart(s), LeastStart(Reverse(s));
    assert Canon(s) == Rot(s, ka) || Canon(s) == Rot(Reverse(s), kb);
  }

  /** A symbol of the ring, read anywhere round it, is one of its symbols. */
  lemma AtIn(s: seq<string>, x: int)
    requires |s| > 0
    ensures At(s, x) in s
  {
    AtMod(s, x);
  }

  /** The fingerprint splits back on '-' into the canonical reading, when no symbol contains '-'. */
  lemma FingerprintSplits(s: seq<string>)
    requires |s| > 0 && forall i :: 0 <= i < |s| ==> NoDash(s[i])
    ensures SplitDash(Fingerprint(s)) == Canon(s)
    ensures Dashes(Fingerprint(s)) == |s| - 1
  {
    var ka, kb := LeastStart(s), LeastStart(Reverse(s));
    var c := Canon(s);
    forall i | 0 <= i < |c| ensures NoDash(c[i]) {
      if c == Rot(s, ka) {
        AtIn(s, ka + i);
      } else {
        AtIn(Reverse(s), kb + i);
        var t :| 0 <= t < |s| && Reverse(s)[t] == c[i];
      }
    }
    SplitJoin(c);
    JoinDashSeparators(c);
  }

  /** Two lists of one length that first differ at `i`: the first is smaller exactly when its symbol there is. */
  lemma FirstDifference(a: seq<string>, b: seq<string>, i: int)
    requires |a| == |b| && 0 <= i < |a| && a[i] != b[i]
    requires forall t :: 0 <= t < i ==> a[t] == b[t]
    ensures LexLess(a, b) <==> StrLess(a[i], b[i])
  {
    if StrLess(a[i], b[i]) {
      assert LessAt(a, b, i);
    }
    if LexLess(a, b) {
      var d :| 0 <= d < |a| && LessAt(a, b, d);
      if d < i {
        StrLessIrreflexive(a[d]);
      }
    }
  }

  // The methods.

  /** Pushing the next symbol and a '-' keeps the pieces a prefix of the joined reading. */
  lemma JoinStep(R: seq<string>, i: int, ret: seq<string>)
    requires 0 <= i < |R| - 1 && Concat(ret) + JoinDash(R[i..]) == JoinDash(R)
    ensures Concat(ret + [R[i]] + ["-"]) + JoinDash(R[i + 1..]) == JoinDash(R)
  {
    assert R[i..][1..] == R[i + 1..];
    assert JoinDash(R[i..]) == R[i] + "-" + JoinDash(R[i + 1..]);
    assert Concat(ret + [R[i]] + ["-"]) == Concat(ret) + R[i] + "-";
  }

  /** Pushing the last symbol completes the joined reading. */
  lemma JoinLast(R: seq<string>, ret: seq<string>)
    requires |R| > 0 && Concat(ret) + JoinDash(R[|R| - 1..]) == JoinDash(R)
    ensures Concat(ret + [R[|R| - 1]]) == JoinDash(R)
  {
    assert Concat(ret + [R[|R| - 1]]) == Concat(ret) + R[|R| - 1];
  }

  /**
   * buildFinderprint: the symbols from `offset` on round the cycle, with
   * '-' between them. An empty list joins to the empty string (the single
   * piece pushed is `undefined`, which `join` writes as nothing).
   */
  method BuildFingerprint(elements: seq<string>, offset: nat) returns (r: string)
    ensures |elements| == 0 ==> r == ""
    ensures |elements| > 0 ==> r == JoinDash(Rot(elements, offset))
  {
    var len := |elements|;
    if len == 0 {
      return "";
    }
    ghost var R := Rot(elements, offset);
    var ret: seq<string> := [];
    var i := 0;
    while i < len - 1
      invariant 0 <= i <= len - 1
      invariant Concat(ret) + JoinDash(R[i..]) == JoinDash(R)
    {
      var sym := SymbolAt(elements, i + offset);
      JoinStep(R, i, ret);
      ret := ret + [sym] + ["-"];
      i := i + 1;
    }
    var sym := SymbolAt(elements, i + offset);
    JoinLast(R, ret);
    ret := ret + [sym];
    r := Concat(ret);
  }

  /** getFingerprint: the fingerprint of a ring from its element symbols in ring order. */
  method GetFingerprint(elements: seq<string>) returns (r: string)
    ensures r == Fingerprint(elements)
  {
    var len := |elements|;
    var reversed := new string[len];
    for i := 0 to len
      invariant forall t :: 0 <= t < i ==> reversed[t] == elements[len - t - 1]
    {
      reversed[i] := elements[len - i - 1];
    }
    assert reversed[..] == Reverse(elements);
    var rotNormal := GetMinimalRotation(elements);
    var rotReversed := GetMinimalRotation(reversed[..]);
    var isNormalSmaller := IsNormalSmaller(elements, reversed[..], rotNormal, rotReversed);
    if len > 0 {
      LeastUnique(elements, rotNormal);
      LeastUnique(reversed[..], rotReversed);
    }
    if isNormalSmaller {
      r := BuildFingerprint(elements, rotNormal);
    } else {
      r := BuildFingerprint(reversed[..], rotReversed);
    }
  }

  /**
   * The comparison loop of getFingerprint: whether the rotation of
   * `elements` from `rotNormal` comes before the rotation of `reversed`
   * from `rotReversed`, decided at the first symbol where they differ.
   */
  method IsNormalSmaller(elements: seq<string>, reversed: seq<string>, rotNormal: nat, rotReversed: nat)
    returns (smaller: bool)
    requires |reversed| == |elements|
    ensures |elements| == 0 ==> !smaller
    ensures |elements| > 0 ==> smaller == LexLess(Rot(elements, rotNormal), Rot(reversed, rotReversed))
  {
    var len := |elements|;
    smaller := false;
    if len == 0 {
      return;
    }
    ghost var A, B := Rot(elements, rotNormal), Rot(reversed, rotReversed);
    var i := 0;
    while i < len
      invariant 0 <= i <= len
      invariant forall t :: 0 <= t < i ==> A[t] == B[t]
    {
      var u, v := SymbolAt(elements, i + rotNormal), SymbolAt(reversed, i + rotReversed);
      if u != v {
        smaller := StrLess(u, v);
        FirstDifference(A, B, i);
        return;
      }
      i := i + 1;
    }
    assert A == B;
    LexIrreflexive(A);
  }
}
