/** Inverting a Vandermonde matrix by Lagrange interpolation, and exactly when the recurrence that
    fec.c uses for the master polynomial gives that inverse. */
module Vandermonde {
  import opened Gf
  import opened Vectors
  import opened Polynomials

  ghost function Vdm(p: Vec, k: nat): (m: Mat)
    ensures Rect(m, |p|, k)
  {
    seq(|p|, i requires 0 <= i < |p| => Powers(p[i], k))
  }

  /** Multiplying by a Vandermonde matrix evaluates a polynomial at every point. */
  lemma VdmEval(p: Vec, q: Vec)
    ensures forall i :: 0 <= i < |p| ==> MatVec(Vdm(p, |q|), q)[i] == Eval(q, p[i])
  {
    hide Dot, Eval;
    forall i | 0 <= i < |p|
      ensures MatVec(Vdm(p, |q|), q)[i] == Eval(q, p[i])
    {
      DotPowers(q, p[i]);
    }
  }

  lemma VdmNonsingular(p: Vec)
    requires Distinct(p)
    ensures Nonsingular(Vdm(p, |p|), |p|)
  {
    hide Dot, Eval, Distinct;
    var k := |p|;
    forall v: Vec | |v| == k && MatVec(Vdm(p, k), v) == Zeros(k)
      ensures v == Zeros(k)
    {
      VdmEval(p, v);
      forall i | 0 <= i < k
        ensures Eval(v, p[i]) == 0
      {
        assert MatVec(Vdm(p, k), v)[i] == Zeros(k)[i];
      }
      TooManyRoots(v, p);
    }
  }

  // ----- the master polynomial -----

  /** p times (x - a). */
  ghost function TimesLinear(p: Vec, a: gf): (q: Vec)
    ensures |q| == |p| + 1
  {
    Add([0] + p, Scale(a, p) + [0])
  }

  lemma EvalTimesLinear(p: Vec, a: gf, x: gf)
    ensures Eval(TimesLinear(p, a), x) == Mul(Xor(x, a), Eval(p, x))
  {
    hide Xor, Mul;
    EvalAdd([0] + p, Scale(a, p) + [0], x);
    assert ([0] + p)[1..] == p;
    XorZero(Mul(x, Eval(p, x)));
    EvalPadded(Scale(a, p), x);
    EvalScale(a, p, x);
    MulAddLeft(x, a, Eval(p, x));
  }

  lemma {:induction false} EvalPadded(p: Vec, x: gf)
    ensures Eval(p + [0], x) == Eval(p, x)
  {
    hide Xor, Mul;
    if p == [] {
      assert (p + [0])[1..] == [];
      MulZero(x);
      XorZero(0);
    } else {
      assert (p + [0])[1..] == p[1..] + [0];
      EvalPadded(p[1..], x);
    }
  }

  /** The product of (x - p[i]) over the first n points. */
  ghost function Master(p: Vec, n: nat): (m: Vec)
    requires n <= |p|
    ensures |m| == n + 1
  {
    if n == 0 then [1] else TimesLinear(Master(p, n - 1), p[n - 1])
  }

  /** The same product as the code's recurrence computes it: the constant term is never updated. */
  ghost function CodeMaster(p: Vec, n: nat): (m: Vec)
    requires 1 <= n <= |p|
    ensures |m| == n + 1
  {
    if n == 1 then [p[0], 1] else TimesLinear(CodeMaster(p, n - 1), p[n - 1])[0 := 0]
  }

  lemma {:induction false} MasterRoot(p: Vec, n: nat, i: nat)
    requires i < n <= |p|
    ensures Eval(Master(p, n), p[i]) == 0
  {
    hide Xor, Mul, Eval, TimesLinear;
    EvalTimesLinear(Master(p, n - 1), p[n - 1], p[i]);
    if i == n - 1 {
      XorSelf(p[i]);
      MulUnits(Eval(Master(p, n - 1), p[i]));
    } else {
      MasterRoot(p, n - 1, i);
      MulZero(Xor(p[i], p[n - 1]));
    }
  }

  lemma TimesLinearAt(p: Vec, a: gf, t: nat)
    requires 1 <= t < |p|
    ensures TimesLinear(p, a)[t] == Xor(p[t - 1], Mul(a, p[t]))
  {
    hide Xor, Mul;
  }

  lemma TimesLinearEnds(p: Vec, a: gf)
    requires |p| >= 1
    ensures TimesLinear(p, a)[0] == Mul(a, p[0]) && TimesLinear(p, a)[|p|] == p[|p| - 1]
  {
    hide Xor, Mul;
    XorZero(Mul(a, p[0]));
    XorZero(p[|p| - 1]);
  }

  lemma MasterOne(p: Vec)
    requires |p| >= 1
    ensures Master(p, 1) == [p[0], 1] == CodeMaster(p, 1)
  {
    hide Xor, Mul, TimesLinear;
    TimesLinearEnds([1], p[0]);
    MulOne(p[0]);
    assert Master(p, 0) == [1];
  }

  lemma MasterTwo(p: Vec)
    requires |p| >= 2
    ensures Master(p, 2)[0] == Mul(p[1], p[0]) && CodeMaster(p, 2) == Master(p, 2)[0 := 0]
  {
    hide Xor, Mul, TimesLinear;
    MasterOne(p);
    TimesLinearEnds([p[0], 1], p[1]);
  }

  ghost predicate SkipIsHarmless(p: Vec, k: nat)
    requires k <= |p|
  {
    k <= 2 || p[0] == 0 || p[1] == 0
  }

  /** With a zero among the first two points the dropped term is zero anyway. */
  lemma {:induction false} CodeMasterZero(p: Vec, n: nat)
    requires 2 <= n <= |p| && (p[0] == 0 || p[1] == 0)
    ensures CodeMaster(p, n) == Master(p, n) && Master(p, n)[0] == 0
  {
    hide Xor, Mul, TimesLinear;
    if n == 2 {
      MasterTwo(p);
      MulZero(p[1]);
      MulUnits(p[0]);
    } else {
      CodeMasterZero(p, n - 1);
      TimesLinearEnds(Master(p, n - 1), p[n - 1]);
      MulZero(p[n - 1]);
    }
  }

  lemma HarmlessSkip(p: Vec, k: nat)
    requires 1 <= k <= |p| && SkipIsHarmless(p, k)
    ensures CodeMaster(p, k)[1..] == Master(p, k)[1..]
  {
    hide Xor, Mul, TimesLinear;
    if k == 1 {
      MasterOne(p);
    } else if p[0] == 0 || p[1] == 0 {
      CodeMasterZero(p, k);
    } else {
      MasterTwo(p);
    }
  }

  /** Otherwise the third coefficient from the top is off by p[0] * p[1]. */
  lemma {:induction false} HarmfulSkip(p: Vec, n: nat)
    requires 3 <= n <= |p| && p[0] != 0 && p[1] != 0
    ensures CodeMaster(p, n)[n] == Master(p, n)[n] == 1
    ensures CodeMaster(p, n)[n - 1] == Master(p, n)[n - 1]
    ensures CodeMaster(p, n)[n - 2] != Master(p, n)[n - 2]
  {
    hide Xor, Mul, TimesLinear;
    var a, m, c := p[n - 1], Master(p, n - 1), CodeMaster(p, n - 1);
    MasterTwo(p);
    if n == 3 {
      MulNonZero(p[1], p[0]);
      MasterLead(p, 2);
    } else {
      HarmfulSkip(p, n - 1);
    }
    TimesLinearEnds(m, a);
    TimesLinearEnds(c, a);
    TimesLinearAt(m, a, n - 1);
    TimesLinearAt(c, a, n - 1);
    TimesLinearAt(m, a, n - 2);
    TimesLinearAt(c, a, n - 2);
    XorMove(m[n - 3], Mul(a, m[n - 2]), Xor(c[n - 3], Mul(a, c[n - 2])));
    XorMove(c[n - 3], Mul(a, m[n - 2]), Xor(c[n - 3], Mul(a, c[n - 2])));
  }

  lemma {:induction false} MasterLead(p: Vec, n: nat)
    requires n <= |p|
    ensures Master(p, n)[n] == 1
  {
    hide Xor, Mul, TimesLinear;
    if n == 0 {
    } else {
      MasterLead(p, n - 1);
      TimesLinearEnds(Master(p, n - 1), p[n - 1]);
    }
  }

  // ----- the inverse -----

  /** One column of the result: the master polynomial without its root at a, scaled to one there. */
  ghost function Basis(master: Vec, a: gf): (c: Vec)
    requires |master| > 0
    ensures |c| == |master| - 1
  {
    var b := Quotient(master, a);
    Scale(Inv(Eval(b, a)), b)
  }

  /** The columns computed from a given master polynomial. */
  ghost function Columns(master: Vec, p: Vec): (cs: Mat)
    requires |master| == |p| + 1
    ensures Rect(cs, |p|, |p|)
  {
    seq(|p|, r requires 0 <= r < |p| => Basis(master, p[r]))
  }

  /** The same numbers as a matrix. */
  ghost function FromColumns(cs: Mat, k: nat): (m: Mat)
    requires Rect(cs, k, k)
    ensures Rect(m, k, k)
  {
    seq(k, c requires 0 <= c < k => Column(cs, c))
  }

  /** What the routine leaves for the points p. */
  ghost function CodeInverse(p: Vec): (m: Mat)
    requires |p| >= 1
    ensures Rect(m, |p|, |p|)
  {
    FromColumns(Columns(CodeMaster(p, |p|), p), |p|)
  }

  ghost function LagrangeInverse(p: Vec): (m: Mat)
    ensures Rect(m, |p|, |p|)
  {
    FromColumns(Columns(Master(p, |p|), p), |p|)
  }

  lemma {:induction false} QuotientAt(p: Vec, a: gf, i: nat)
    requires i < |p| - 1
    ensures Quotient(p, a)[i] == Eval(p[i + 1..], a)
  {
    hide Xor, Mul, Eval;
    if i == 0 {
    } else {
      QuotientAt(p[1..], a, i - 1);
      assert p[1..][i..] == p[i + 1..];
    }
  }

  lemma QuotientTail(p: Vec, q: Vec, a: gf)
    requires |p| == |q| > 0 && p[1..] == q[1..]
    ensures Quotient(p, a) == Quotient(q, a)
  {
    hide Eval;
  }

  /** The number the routine inverts for each point is never zero. */
  lemma {:induction false} BasisDivisor(p: Vec, r: nat)
    requires Distinct(p) && r < |p|
    ensures Eval(Quotient(Master(p, |p|), p[r]), p[r]) != 0
    ensures forall s :: 0 <= s < |p| && s != r ==> Eval(Quotient(Master(p, |p|), p[r]), p[s]) == 0
  {
    hide Xor, Mul, Eval, Quotient, Master;
    var k, m := |p|, Master(p, |p|);
    var b := Quotient(m, p[r]);
    forall s | 0 <= s < k && s != r
      ensures Eval(b, p[s]) == 0
    {
      MasterRoot(p, k, r);
      MasterRoot(p, k, s);
      DivisionIdentity(m, p[r], p[s]);
      XorZero(Mul(Xor(p[s], p[r]), Eval(b, p[s])));
      XorEqual(p[s], p[r]);
      if Eval(b, p[s]) != 0 {
        MulNonZero(Xor(p[s], p[r]), Eval(b, p[s]));
      }
    }
    if Eval(b, p[r]) == 0 {
      TooManyRoots(b, p);
      QuotientLead(m, p[r]);
      MasterLead(p, k);
    }
  }

  lemma QuotientLead(m: Vec, a: gf)
    requires |m| >= 2
    ensures Quotient(m, a)[|m| - 2] == m[|m| - 1]
  {
    hide Xor, Mul, Quotient;
    QuotientAt(m, a, |m| - 2);
    assert m[|m| - 1..] == [m[|m| - 1]];
    assert [m[|m| - 1]][1..] == [];
    MulZero(a);
    XorZero(m[|m| - 1]);
  }

  /** The columns are the Lagrange basis: one at their own point, zero at the others. */
  lemma BasisValues(p: Vec, r: nat, s: nat)
    requires Distinct(p) && r < |p| && s < |p|
    ensures Eval(Basis(Master(p, |p|), p[r]), p[s]) == if s == r then 1 else 0
  {
    hide Xor, Mul, Eval, Quotient, Master, Inv;
    var b := Quotient(Master(p, |p|), p[r]);
    BasisDivisor(p, r);
    var d := Eval(b, p[r]);
    EvalScale(Inv(d), b, p[s]);
    MulInv(d);
    MulZero(Inv(d));
  }

  /** Interpolation: the combination of the first n basis columns takes the first n prescribed values. */
  lemma {:induction false} Interpolates(p: Vec, w: Vec, n: nat, s: nat)
    requires Distinct(p) && |w| == |p| && n <= |p| && s < |p|
    ensures Eval(Combine(w, Columns(Master(p, |p|), p), n, |p|), p[s]) == if s < n then w[s] else 0
  {
    hide Xor, Mul, Eval, Basis, Master;
    var k := |p|;
    var cs := Columns(Master(p, k), p);
    if n == 0 {
      EvalZeros(k, p[s]);
    } else {
      Interpolates(p, w, n - 1, s);
      EvalAdd(Combine(w, cs, n - 1, k), Scale(w[n - 1], cs[n - 1]), p[s]);
      EvalScale(w[n - 1], cs[n - 1], p[s]);
      BasisValues(p, n - 1, s);
      MulZero(w[n - 1]);
      MulOne(w[n - 1]);
      XorZero(w[n - 1]);
      XorZero(w[s]);
      XorZero(0);
    }
  }

  /** Multiplying by the matrix of columns combines them. */
  lemma FromColumnsCombine(cs: Mat, k: nat, w: Vec)
    requires Rect(cs, k, k) && |w| == k
    ensures MatVec(FromColumns(cs, k), w) == Combine(w, cs, k, k)
  {
    hide Dot, Combine;
    forall c | 0 <= c < k
      ensures MatVec(FromColumns(cs, k), w)[c] == Combine(w, cs, k, k)[c]
    {
      CombineAt(w, cs, k, k, c);
      DotComm(Column(cs, c), w, k);
    }
  }

  lemma LagrangeIsInverse(p: Vec)
    requires Distinct(p)
    ensures Inverse(LagrangeInverse(p), Vdm(p, |p|), |p|)
  {
    hide Dot, Eval, Combine, Distinct, Inverse, Nonsingular, Columns, MatVec, Master, FromColumns;
    var k := |p|;
    var cs, b, v := Columns(Master(p, k), p), LagrangeInverse(p), Vdm(p, k);
    VdmNonsingular(p);
    forall w: Vec | |w| == k
      ensures MatVec(v, MatVec(b, w)) == w
    {
      FromColumnsCombine(cs, k, w);
      var q := Combine(w, cs, k, k);
      VdmEval(p, q);
      forall s | 0 <= s < k
        ensures MatVec(v, q)[s] == w[s]
      {
        Interpolates(p, w, k, s);
      }
    }
    RightInverse(b, v, k);
  }

  /** For distinct points, the routine's result is the inverse exactly when k <= 2 or one of the first two points is
      zero. */
  lemma CodeInverseIff(p: Vec)
    requires |p| >= 1 && Distinct(p)
    ensures Inverse(CodeInverse(p), Vdm(p, |p|), |p|) <==> SkipIsHarmless(p, |p|)
  {
    hide Inverse, Distinct, Master, CodeMaster, Vdm, FromColumns, Columns, Quotient;
    var k := |p|;
    LagrangeIsInverse(p);
    if SkipIsHarmless(p, k) {
      HarmlessSkip(p, k);
      SameColumns(p);
    } else if Inverse(CodeInverse(p), Vdm(p, k), k) {
      HarmfulSkip(p, k);
      InverseUnique(CodeInverse(p), LagrangeInverse(p), Vdm(p, k), k);
      FirstColumnDiffers(p);
    }
  }

  lemma SameColumns(p: Vec)
    requires |p| >= 1 && CodeMaster(p, |p|)[1..] == Master(p, |p|)[1..]
    ensures CodeInverse(p) == LagrangeInverse(p)
  {
    hide Eval, Quotient, Master, CodeMaster, Inv;
    var k := |p|;
    forall r | 0 <= r < k
      ensures Basis(CodeMaster(p, k), p[r]) == Basis(Master(p, k), p[r])
    {
      QuotientTail(CodeMaster(p, k), Master(p, k), p[r]);
    }
    assert Columns(CodeMaster(p, k), p) == Columns(Master(p, k), p);
  }

  /** Cancelling a nonzero factor. */
  lemma MulCancel(s: gf, a: gf, b: gf)
    requires s != 0 && Mul(s, a) == Mul(s, b)
    ensures a == b
  {
    hide Xor, Mul, Inv;
    MulInv(s);
    MulAssoc(Inv(s), s, a);
    MulAssoc(Inv(s), s, b);
    MulUnits(a);
    MulUnits(b);
  }

  lemma FirstColumnDiffers(p: Vec)
    requires |p| >= 3 && Distinct(p)
    requires CodeMaster(p, |p|)[|p|] == Master(p, |p|)[|p|] == 1
    requires CodeMaster(p, |p|)[|p| - 1] == Master(p, |p|)[|p| - 1]
    requires CodeMaster(p, |p|)[|p| - 2] != Master(p, |p|)[|p| - 2]
    ensures MatVec(CodeInverse(p), Unit(|p|, 0)) != MatVec(LagrangeInverse(p), Unit(|p|, 0))
  {
    hide Xor, Mul, Eval, Quotient, Master, CodeMaster, Inv, Dot, MatVec, Basis, FromColumns, Columns;
    var k := |p|;
    var m, c, a := Master(p, k), CodeMaster(p, k), p[0];
    FirstColumn(Columns(m, p), k);
    FirstColumn(Columns(c, p), k);
    FirstBasis(m, p);
    FirstBasis(c, p);
    if MatVec(CodeInverse(p), Unit(k, 0)) == MatVec(LagrangeInverse(p), Unit(k, 0)) {
      BasisDivisor(p, 0);
      BasisDeterminesTop(c, m, a);
    }
  }

  lemma FirstBasis(m: Vec, p: Vec)
    requires |p| >= 1 && |m| == |p| + 1
    ensures Columns(m, p)[0] == Basis(m, p[0])
  {
    hide Basis;
  }

  lemma FirstColumn(cs: Mat, k: nat)
    requires Rect(cs, k, k) && k > 0
    ensures MatVec(FromColumns(cs, k), Unit(k, 0)) == cs[0]
  {
    hide Dot;
    forall c | 0 <= c < k
      ensures MatVec(FromColumns(cs, k), Unit(k, 0))[c] == cs[0][c]
    {
      DotUnit(Column(cs, c), 0, k);
    }
  }

  /** Equal basis columns come from master polynomials with equal third coefficients from the top. */
  lemma BasisDeterminesTop(c: Vec, m: Vec, a: gf)
    requires |c| == |m| >= 4 && Basis(c, a) == Basis(m, a) && Eval(Quotient(m, a), a) != 0
    requires c[|c| - 1] == m[|m| - 1] == 1 && c[|c| - 2] == m[|m| - 2]
    ensures c[|c| - 3] == m[|m| - 3]
  {
    hide Xor, Mul, Eval, Quotient, Inv;
    var k := |m| - 1;
    var bc, bm := Quotient(c, a), Quotient(m, a);
    var sc, sm := Inv(Eval(bc, a)), Inv(Eval(bm, a));
    QuotientLead(c, a);
    QuotientLead(m, a);
    assert Basis(c, a)[k - 1] == Mul(sc, 1) && Basis(m, a)[k - 1] == Mul(sm, 1);
    MulOne(sc);
    MulOne(sm);
    assert sm != 0 by {
      MulInv(Eval(bm, a));
      MulUnits(Eval(bm, a));
    }
    assert Basis(c, a)[k - 3] == Mul(sc, bc[k - 3]) && Basis(m, a)[k - 3] == Mul(sm, bm[k - 3]);
    MulCancel(sm, bc[k - 3], bm[k - 3]);
    QuotientThird(c, a);
    QuotientThird(m, a);
    assert c[k - 1..] == m[k - 1..];
    var e := Mul(a, Eval(m[k - 1..], a));
    XorMove(c[k - 2], e, bm[k - 3]);
    XorMove(m[k - 2], e, bm[k - 3]);
  }

  lemma QuotientThird(m: Vec, a: gf)
    requires |m| >= 4
    ensures Quotient(m, a)[|m| - 4] == Xor(m[|m| - 3], Mul(a, Eval(m[|m| - 2..], a)))
  {
    hide Xor, Mul, Quotient;
    QuotientAt(m, a, |m| - 4);
    assert m[|m| - 3..][1..] == m[|m| - 2..];
  }

  /** For distinct points m is the inverse exactly when k <= 2 or one of the first two points is zero. */
  ghost predicate InvertsExactly(m: Mat, p: Vec) {
    Distinct(p) ==> (Inverse(m, Vdm(p, |p|), |p|) <==> SkipIsHarmless(p, |p|))
  }

  lemma CodeInvertsExactly(p: Vec)
    requires |p| >= 1
    ensures InvertsExactly(CodeInverse(p), p)
  {
    hide Inverse, Vdm, Distinct;
    if Distinct(p) {
      CodeInverseIff(p);
    }
  }

  /** Three points without a zero: the routine's result is not the inverse. */
  lemma CodeInverseCounterexample()
    ensures Distinct([1, 2, 3]) && !Inverse(CodeInverse([1, 2, 3]), Vdm([1, 2, 3], 3), 3)
  {
    hide Inverse, CodeInverse, Vdm;
    CodeInverseIff([1, 2, 3]);
  }

  lemma InverseUnique(b: Mat, c: Mat, a: Mat, k: nat)
    requires Inverse(b, a, k) && Inverse(c, a, k)
    ensures forall w: Vec :: |w| == k ==> MatVec(b, w) == MatVec(c, w)
  {
    hide MatVec;
    forall w: Vec | |w| == k
      ensures MatVec(b, w) == MatVec(c, w)
    {
      assert MatVec(a, MatVec(c, w)) == w;
    }
  }
}
