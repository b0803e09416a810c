/** The erasure code itself, independently of how fec.c computes it: the k data bytes at one position
    are the values of a polynomial of degree below k at the first k points, and fragment i is its
    value at point i. */
module ErasureCode {
  import opened Gf
  import opened Vectors
  import opened Polynomials
  import opened Vandermonde

  /** The i-th evaluation point: zero, then the powers of x. */
  ghost function Point(i: nat): (x: gf) {
    if i == 0 then 0 else Exp(i - 1)
  }

  /** Multiplying by x is the shift the tables are filled with. */
  lemma {:induction false} PowerOfX(i: nat)
    ensures Power(2, i) == Exp(i)
  {
    hide Mul, Xtime;
    if i == 0 {
    } else {
      PowerOfX(i - 1);
      MulSmall(Exp(i - 1));
    }
  }

  /** The points are 0, 1, x, x^2, and so on. */
  lemma PointIs(i: nat)
    ensures Point(0) == 0 && Point(i + 1) == Power(2, i)
  {
    hide Exp, Power;
    PowerOfX(i);
  }

  ghost function FirstPoints(k: nat): (p: Vec)
    ensures |p| == k
  {
    seq(k, i requires 0 <= i < k => Point(i))
  }

  /** A choice of k different fragments out of n. */
  ghost predicate Choice(idx: seq<nat>, k: nat, n: nat) {
    && |idx| == k
    && (forall r :: 0 <= r < k ==> idx[r] < n)
    && (forall r, s :: 0 <= r < s < k ==> idx[r] != idx[s])
  }

  ghost function PointsOf(idx: seq<nat>): (p: Vec)
    ensures |p| == |idx|
  {
    seq(|idx|, r requires 0 <= r < |idx| => Point(idx[r]))
  }

  lemma PointsDistinct(idx: seq<nat>, n: nat)
    requires Choice(idx, |idx|, n) && n <= 256
    ensures Distinct(PointsOf(idx))
  {
    hide Exp;
    var p := PointsOf(idx);
    forall r, s | 0 <= r < s < |p|
      ensures p[r] != p[s]
    {
      var i, j := idx[r], idx[s];
      if i == 0 {
        ExpPositive(j - 1);
      } else if j == 0 {
        ExpPositive(i - 1);
      } else if p[r] == p[s] {
        ExpInjective(i - 1, j - 1);
      }
    }
  }

  /** The identity choice. */
  ghost function Primaries(k: nat): (idx: seq<nat>)
    ensures |idx| == k
  {
    seq(k, i requires 0 <= i < k => i)
  }

  lemma FirstPointsChoice(k: nat, n: nat)
    requires k <= n
    ensures Choice(Primaries(k), k, n) && PointsOf(Primaries(k)) == FirstPoints(k)
  {
    hide Exp;
  }

  /** The polynomial of degree below |p| through the points p with the values w. */
  ghost function Interpolant(p: Vec, w: Vec): (q: Vec)
    requires |w| == |p|
    ensures |q| == |p|
  {
    MatVec(LagrangeInverse(p), w)
  }

  lemma InterpolantIff(p: Vec, w: Vec, q: Vec)
    requires Distinct(p) && |w| == |q| == |p|
    ensures q == Interpolant(p, w) <==> forall i :: 0 <= i < |p| ==> Eval(q, p[i]) == w[i]
  {
    hide Eval, Dot, LagrangeInverse, Distinct, MatVec, Vdm;
    LagrangeIsInverse(p);
    VdmEval(p, q);
    InverseSides(LagrangeInverse(p), Vdm(p, |p|), |p|, q, w);
    if forall i :: 0 <= i < |p| ==> Eval(q, p[i]) == w[i] {
      assert MatVec(Vdm(p, |p|), q) == w;
    }
  }

  lemma InverseSides(b: Mat, a: Mat, k: nat, v: Vec, w: Vec)
    requires Inverse(b, a, k) && |v| == |w| == k
    ensures MatVec(a, v) == w <==> MatVec(b, w) == v
  {
    hide MatVec;
  }

  /** Byte i of the codeword of the data bytes d. */
  ghost function Fragment(d: Vec, i: nat): (v: gf) {
    Eval(Interpolant(FirstPoints(|d|), d), Point(i))
  }

  /** The data bytes of the codeword that has the values w at the fragments idx. */
  ghost function Recovered(idx: seq<nat>, w: Vec): (d: Vec)
    requires |w| == |idx|
    ensures |d| == |idx|
  {
    seq(|idx|, i requires 0 <= i < |idx| => Eval(Interpolant(PointsOf(idx), w), Point(i)))
  }

  /** The code is systematic: the first fragments are the data. */
  lemma Systematic(d: Vec, i: nat)
    requires i < |d| <= 256
    ensures Fragment(d, i) == d[i]
  {
    hide Eval, Interpolant, Exp;
    FirstPointsChoice(|d|, |d|);
    PointsDistinct(Primaries(|d|), |d|);
    InterpolantIff(FirstPoints(|d|), d, Interpolant(FirstPoints(|d|), d));
    assert FirstPoints(|d|)[i] == Point(i);
  }

  /** Whatever polynomial of degree below k has the data as its values at 0, 1, x, ..., x^(k-2), fragment f >= 1 is its
      value at x^(f-1). */
  lemma FragmentValues(d: Vec, q: Vec, f: nat)
    requires 1 <= |d| <= 256 && |q| == |d| && f >= 1
    requires Eval(q, 0) == d[0] && forall j :: 1 <= j < |d| ==> Eval(q, Power(2, j - 1)) == d[j]
    ensures Fragment(d, f) == Eval(q, Power(2, f - 1))
  {
    hide Eval, Interpolant, Exp, Power, Distinct, Point;
    var p := FirstPoints(|d|);
    FirstPointsChoice(|d|, |d|);
    PointsDistinct(Primaries(|d|), |d|);
    forall i | 0 <= i < |d|
      ensures Eval(q, p[i]) == d[i]
    {
      PointIs(if i == 0 then 0 else i - 1);
    }
    InterpolantIff(p, d, q);
    PointIs(f - 1);
  }

  /** There is such a polynomial for all data. */
  lemma DataPolynomial(d: Vec) returns (q: Vec)
    requires 1 <= |d| <= 256
    ensures |q| == |d| && Eval(q, 0) == d[0] && forall j :: 1 <= j < |d| ==> Eval(q, Power(2, j - 1)) == d[j]
  {
    hide Eval, Interpolant, Exp, Power, Distinct, Point;
    var p := FirstPoints(|d|);
    FirstPointsChoice(|d|, |d|);
    PointsDistinct(Primaries(|d|), |d|);
    q := Interpolant(p, d);
    InterpolantIff(p, d, q);
    PointIs(0);
    assert p[0] == Point(0);
    forall j | 1 <= j < |d|
      ensures Eval(q, Power(2, j - 1)) == d[j]
    {
      PointIs(j - 1);
      assert p[j] == Point(j);
    }
  }

  /** Two data bytes lie on a line. */
  lemma TwoPackets(a: gf, b: gf, f: nat)
    requires f >= 1
    ensures Fragment([a, b], f) == Xor(a, Mul(Power(2, f - 1), Xor(a, b)))
  {
    hide Mul, Xor, Power, Fragment;
    var q := [a, Xor(a, b)];
    forall x
      ensures Eval(q, x) == Xor(a, Mul(x, Xor(a, b)))
    {
      LineAt(a, Xor(a, b), x);
    }
    MulUnits(Xor(a, b));
    XorZero(a);
    XorZero(b);
    XorSelf(a);
    XorAssoc(a, a, b);
    PowerStart();
    FragmentValues([a, b], q, f);
  }

  lemma PowerStart()
    ensures Power(2, 0) == 1
  {
  }

  lemma LineAt(a: gf, s: gf, x: gf)
    ensures Eval([a, s], x) == Xor(a, Mul(x, s))
  {
    hide Mul, Xor;
    assert [a, s][1..] == [s] && [s][1..] == [];
    assert Eval([s], x) == Xor(s, Mul(x, Eval([], x)));
    MulZero(x);
    XorZero(s);
  }

  lemma EarlyPowers()
    ensures Exp(1) == 2 && Exp(7) == 128 && Exp(8) == 29
  {
    hide Xor;
    FirstPowers();
    assert Exp(7) == 128;
  }

  /** The third packet for the data bytes 0 and 1 holds 2, the ninth 128 and the tenth 29. */
  lemma KnownFragments()
    ensures Fragment([0, 1], 2) == 2 && Fragment([0, 1], 8) == 128 && Fragment([0, 1], 9) == 29
  {
    hide Fragment, Mul, Xor;
    forall i: nat
      ensures Fragment([0, 1], i + 1) == Exp(i)
    {
      TwoPackets(0, 1, i + 1);
      PowerOfX(i);
      XorZero(1);
      MulOne(Exp(i));
      XorZero(Exp(i));
    }
    assert Exp(1) == 2 && Exp(7) == 128 && Exp(8) == 29 by { EarlyPowers(); }
  }

  /** What is recovered has the given fragments. */
  lemma RecoveredFragments(idx: seq<nat>, n: nat, w: Vec)
    requires |idx| <= n <= 256 && Choice(idx, |idx|, n) && |w| == |idx|
    ensures forall r :: 0 <= r < |idx| ==> Fragment(Recovered(idx, w), idx[r]) == w[r]
  {
    hide Eval, Interpolant, Exp, Distinct;
    var k := |idx|;
    var p, f, d := PointsOf(idx), FirstPoints(k), Recovered(idx, w);
    PointsDistinct(idx, n);
    FirstPointsChoice(k, n);
    PointsDistinct(Primaries(k), n);
    var q := Interpolant(p, w);
    InterpolantIff(p, w, q);
    forall i | 0 <= i < k
      ensures Eval(q, f[i]) == d[i]
    {
      assert f[i] == Point(i);
    }
    InterpolantIff(f, d, q);
    forall r | 0 <= r < k
      ensures Fragment(d, idx[r]) == w[r]
    {
      assert p[r] == Point(idx[r]);
    }
  }

  /** Any k fragments of the data give the data back. */
  lemma FragmentsRecover(idx: seq<nat>, n: nat, w: Vec, d: Vec)
    requires |idx| <= n <= 256 && Choice(idx, |idx|, n) && |w| == |d| == |idx|
    requires forall r :: 0 <= r < |idx| ==> Fragment(d, idx[r]) == w[r]
    ensures Recovered(idx, w) == d
  {
    hide Eval, Interpolant, Exp, Distinct;
    var k := |idx|;
    var p, f := PointsOf(idx), FirstPoints(k);
    PointsDistinct(idx, n);
    var c := Interpolant(f, d);
    forall r | 0 <= r < k
      ensures Eval(c, p[r]) == w[r]
    {
      assert Fragment(d, idx[r]) == w[r];
    }
    InterpolantIff(p, w, c);
    forall i | 0 <= i < k
      ensures Recovered(idx, w)[i] == d[i]
    {
      Systematic(d, i);
    }
  }

  /** Whatever polynomial of degree below k has the received bytes as its values at their points, the recovered data
      are its values at 0, 1, x, ..., x^(k-2). */
  lemma RecoveredValues(idx: seq<nat>, n: nat, w: Vec, q: Vec, i: nat)
    requires 1 <= |idx| <= n <= 256 && Choice(idx, |idx|, n) && |w| == |q| == |idx| && i < |idx|
    requires forall r :: 0 <= r < |idx| ==> Eval(q, if idx[r] == 0 then 0 else Power(2, idx[r] - 1)) == w[r]
    ensures Recovered(idx, w)[i] == Eval(q, if i == 0 then 0 else Power(2, i - 1))
  {
    hide Eval, Interpolant, Exp, Power, Distinct, Choice, Point;
    var p := PointsOf(idx);
    PointsDistinct(idx, n);
    forall r | 0 <= r < |idx|
      ensures Eval(q, p[r]) == w[r]
    {
      PointIs(if idx[r] == 0 then 0 else idx[r] - 1);
    }
    InterpolantIff(p, w, q);
    PointIs(if i == 0 then 0 else i - 1);
  }

  /** Any k fragments determine the data, and every k values are fragments of some data. */
  lemma AnyKRecover(idx: seq<nat>, n: nat, w: Vec, d: Vec)
    requires |idx| <= n <= 256 && Choice(idx, |idx|, n) && |w| == |d| == |idx|
    ensures d == Recovered(idx, w) <==> forall r :: 0 <= r < |idx| ==> Fragment(d, idx[r]) == w[r]
  {
    hide Fragment, Recovered, Choice;
    RecoveredFragments(idx, n, w);
    if forall r :: 0 <= r < |idx| ==> Fragment(d, idx[r]) == w[r] {
      FragmentsRecover(idx, n, w, d);
    }
  }
}
