/** Polynomials over GF(2^8), lowest coefficient first. */
module Polynomials {
  import opened Gf
  import opened Vectors

  /** Horner's rule. */
  ghost function Eval(p: Vec, x: gf): (v: gf) {
    if p == [] then 0 else Xor(p[0], Mul(x, Eval(p[1..], x)))
  }

  /** The quotient of p by (x - a): its i-th coefficient is the value at a of the part of p above i. */
  ghost function Quotient(p: Vec, a: gf): (q: Vec)
    requires |p| > 0
    ensures |q| == |p| - 1
  {
    if |p| == 1 then [] else [Eval(p[1..], a)] + Quotient(p[1..], a)
  }

  /** p(x) == (x + a) * quotient(x) + p(a). */
  lemma {:induction false} DivisionIdentity(p: Vec, a: gf, x: gf)
    requires |p| > 0
    ensures Eval(p, x) == Xor(Mul(Xor(x, a), Eval(Quotient(p, a), x)), Eval(p, a))
  {
    hide Xor, Mul;
    if |p| == 1 {
      MulZero(x);
      MulZero(a);
      MulZero(Xor(x, a));
      XorZero(Eval(p, a));
      XorZero(p[0]);
    } else {
      var t := p[1..];
      DivisionIdentity(t, a, x);
      assert Quotient(p, a)[1..] == Quotient(t, a);
      DivisionStep(p[0], a, x, Eval(t, a), Eval(Quotient(t, a), x));
    }
  }

  /** c + x((x + a) d + e) == (x + a)(e + x d) + (c + a e). */
  lemma DivisionStep(c: gf, a: gf, x: gf, e: gf, d: gf)
    ensures Xor(c, Mul(x, Xor(Mul(Xor(x, a), d), e)))
         == Xor(Mul(Xor(x, a), Xor(e, Mul(x, d))), Xor(c, Mul(a, e)))
  {
    hide Xor, Mul;
    var s := Xor(x, a);
    var xsd, xe, ae := Mul(x, Mul(s, d)), Mul(x, e), Mul(a, e);
    MulAddRight(x, Mul(s, d), e);
    MulAddRight(s, e, Mul(x, d));
    MulAddLeft(x, a, e);
    assert Mul(s, Mul(x, d)) == xsd by {
      MulAssoc(s, x, d);
      MulAssoc(x, s, d);
      MulComm(s, x);
    }
    Shuffle(c, xsd, xe, ae);
  }

  /** c + (p + q) == ((q + r) + p) + (c + r). */
  lemma Shuffle(c: gf, p: gf, q: gf, r: gf)
    ensures Xor(c, Xor(p, q)) == Xor(Xor(Xor(q, r), p), Xor(c, r))
  {
    hide Xor;
    XorComm(Xor(q, r), p);
    XorAssoc(p, q, r);
    XorComm(c, r);
    XorAssoc(Xor(p, q), r, Xor(r, c));
    XorAssoc(r, r, c);
    XorSelf(r);
    XorZero(c);
    XorComm(c, Xor(p, q));
  }

  ghost predicate Distinct(xs: Vec) {
    forall i, j :: 0 <= i < j < |xs| ==> xs[i] != xs[j]
  }

  /** A polynomial with as many distinct roots as coefficients is zero. */
  lemma {:induction false} TooManyRoots(p: Vec, roots: Vec)
    requires |roots| == |p| && Distinct(roots)
    requires forall i :: 0 <= i < |roots| ==> Eval(p, roots[i]) == 0
    ensures p == Zeros(|p|)
    decreases |p|
  {
    hide Xor, Mul, Eval, Quotient;
    if p == [] {
    } else {
      var a, rest := roots[0], roots[1..];
      var q := Quotient(p, a);
      forall i | 0 <= i < |rest|
        ensures Eval(q, rest[i]) == 0
      {
        assert rest[i] == roots[i + 1];
        DivisionIdentity(p, a, rest[i]);
        XorZero(Mul(Xor(rest[i], a), Eval(q, rest[i])));
        XorEqual(rest[i], a);
        if Eval(q, rest[i]) != 0 {
          MulNonZero(Xor(rest[i], a), Eval(q, rest[i]));
        }
      }
      TooManyRoots(q, rest);
      ZeroQuotient(p, a);
    }
  }

  /** A root with a zero quotient leaves nothing. */
  lemma {:induction false} ZeroQuotient(p: Vec, a: gf)
    requires |p| > 0 && Quotient(p, a) == Zeros(|p| - 1) && Eval(p, a) == 0
    ensures p == Zeros(|p|)
  {
    hide Xor, Mul;
    MulZero(a);
    XorZero(p[0]);
    if |p| <= 1 {
    } else {
      var t := p[1..];
      assert Quotient(p, a)[1..] == Quotient(t, a);
      assert Quotient(p, a)[0] == Eval(t, a);
      assert Zeros(|p| - 1)[1..] == Zeros(|t| - 1);
      ZeroQuotient(t, a);
      assert p == [p[0]] + t;
    }
  }

  lemma {:induction false} EvalAdd(p: Vec, q: Vec, x: gf)
    requires |p| == |q|
    ensures Eval(Add(p, q), x) == Xor(Eval(p, x), Eval(q, x))
  {
    hide Xor, Mul;
    if p == [] {
      XorZero(0);
    } else {
      EvalAdd(p[1..], q[1..], x);
      assert Add(p, q)[1..] == Add(p[1..], q[1..]);
      MulAddRight(x, Eval(p[1..], x), Eval(q[1..], x));
      XorSwap(p[0], q[0], Mul(x, Eval(p[1..], x)), Mul(x, Eval(q[1..], x)));
    }
  }

  lemma {:induction false} EvalScale(c: gf, p: Vec, x: gf)
    ensures Eval(Scale(c, p), x) == Mul(c, Eval(p, x))
  {
    hide Xor, Mul;
    if p == [] {
      MulZero(c);
    } else {
      EvalScale(c, p[1..], x);
      assert Scale(c, p)[1..] == Scale(c, p[1..]);
      MulAddRight(c, p[0], Mul(x, Eval(p[1..], x)));
      MulAssoc(c, x, Eval(p[1..], x));
      MulAssoc(x, c, Eval(p[1..], x));
      MulComm(c, x);
    }
  }

  lemma {:induction false} EvalZeros(n: nat, x: gf)
    ensures Eval(Zeros(n), x) == 0
  {
    hide Xor, Mul;
    if n == 0 {
    } else {
      EvalZeros(n - 1, x);
      assert Zeros(n)[1..] == Zeros(n - 1);
      MulZero(x);
      XorZero(0);
    }
  }

  // ----- powers of a point -----

  ghost function Power(x: gf, n: nat): (v: gf) {
    if n == 0 then 1 else Mul(x, Power(x, n - 1))
  }

  /** One row of a Vandermonde matrix. */
  ghost function Powers(x: gf, k: nat): (v: Vec)
    ensures |v| == k
  {
    seq(k, j requires 0 <= j < k => Power(x, j))
  }

  /** Multiplying a Vandermonde row by a vector evaluates the polynomial with those coefficients. */
  lemma DotPowers(p: Vec, x: gf)
    ensures Dot(Powers(x, |p|), p, |p|) == Eval(p, x)
  {
    hide Xor, Mul;
    DotPowersFrom(p, x, 0);
    assert p[0..] == p;
    XorZero(Eval(p, x));
    MulUnits(Eval(p, x));
  }

  /** The sum over the first n terms, plus x^n times the value of what is left. */
  lemma {:induction false} DotPowersFrom(p: Vec, x: gf, n: nat)
    requires n <= |p|
    ensures Dot(Powers(x, |p|), p, |p|) == Xor(Dot(Powers(x, |p|), p, n), Mul(Power(x, n), Eval(p[n..], x)))
    decreases |p| - n
  {
    hide Xor, Mul;
    var d, y := Dot(Powers(x, |p|), p, n), Power(x, n);
    if n == |p| {
      MulZero(y);
      XorZero(d);
    } else {
      DotPowersFrom(p, x, n + 1);
      var e := Eval(p[n + 1..], x);
      assert p[n..][1..] == p[n + 1..];
      MulAddRight(y, p[n], Mul(x, e));
      XorAssoc(d, Mul(y, p[n]), Mul(y, Mul(x, e)));
      MulAssoc(y, x, e);
      MulComm(y, x);
    }
  }
}
