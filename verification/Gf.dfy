/** GF(2^8) as fec.c uses it: bytes under exclusive-or and under polynomial
    multiplication modulo x^8 + x^4 + x^3 + x^2 + 1. The powers of the element x run through
    every nonzero byte, which is what the logarithm tables rest on. */
module Gf {

  type gf = x: int | 0 <= x < 256

  // ----- exclusive-or -----

  /** Bitwise exclusive-or, lowest bit first. */
  function XorNat(a: nat, b: nat): (c: nat) {
    if a == 0 && b == 0 then 0 else 2 * XorNat(a / 2, b / 2) + (if a % 2 == b % 2 then 0 else 1)
  }

  function Xor(a: gf, b: gf): (c: gf) {
    XorBound(a, b, 8);
    XorNat(a, b)
  }

  function Pow2(n: nat): (p: nat) {
    if n == 0 then 1 else 2 * Pow2(n - 1)
  }

  lemma {:induction false} XorBound(a: nat, b: nat, bits: nat)
    requires a < Pow2(bits) && b < Pow2(bits)
    ensures XorNat(a, b) < Pow2(bits)
  {
    if bits == 0 {
    } else {
      XorBound(a / 2, b / 2, bits - 1);
    }
  }

  lemma XorStep(a: nat, b: nat)
    ensures XorNat(a, b) / 2 == XorNat(a / 2, b / 2)
    ensures XorNat(a, b) % 2 == if a % 2 == b % 2 then 0 else 1
  {
  }

  predicate Bit(n: nat, i: nat) {
    if i == 0 then n % 2 == 1 else Bit(n / 2, i - 1)
  }

  /** Every bit of the result is set exactly when one of the two bits at its place is. */
  lemma {:induction false} XorBit(a: nat, b: nat, i: nat)
    ensures Bit(XorNat(a, b), i) <==> Bit(a, i) != Bit(b, i)
    decreases i
  {
    hide XorNat;
    XorStep(a, b);
    if i == 0 {
    } else {
      XorBit(a / 2, b / 2, i - 1);
    }
  }

  lemma {:induction false} XorNatComm(a: nat, b: nat)
    ensures XorNat(a, b) == XorNat(b, a)
  {
    if a != 0 || b != 0 { XorNatComm(a / 2, b / 2); }
  }

  lemma {:induction false} XorNatAssoc(a: nat, b: nat, c: nat)
    ensures XorNat(XorNat(a, b), c) == XorNat(a, XorNat(b, c))
    decreases a + b + c
  {
    hide XorNat;
    if a == 0 {
      XorNatZero(b);
      XorNatZero(XorNat(b, c));
    } else {
      XorNatAssoc(a / 2, b / 2, c / 2);
      XorStep(a, b);
      XorStep(b, c);
      XorStep(XorNat(a, b), c);
      XorStep(a, XorNat(b, c));
    }
  }

  lemma {:induction false} XorNatSelf(a: nat)
    ensures XorNat(a, a) == 0
  {
    if a != 0 { XorNatSelf(a / 2); }
  }

  lemma {:induction false} XorNatZero(a: nat)
    ensures XorNat(a, 0) == a && XorNat(0, a) == a
  {
    if a != 0 { XorNatZero(a / 2); }
  }

  lemma XorComm(a: gf, b: gf)
    ensures Xor(a, b) == Xor(b, a)
  {
    hide XorNat;
    XorNatComm(a, b);
  }

  lemma XorAssoc(a: gf, b: gf, c: gf)
    ensures Xor(Xor(a, b), c) == Xor(a, Xor(b, c))
  {
    hide XorNat;
    XorNatAssoc(a, b, c);
  }

  lemma XorSelf(a: gf)
    ensures Xor(a, a) == 0
  {
    hide XorNat;
    XorNatSelf(a);
  }

  lemma XorZero(a: gf)
    ensures Xor(a, 0) == a && Xor(0, a) == a
  {
    hide XorNat;
    XorNatZero(a);
  }

  /** (a + b) + (c + d) == (a + c) + (b + d). */
  lemma XorSwap(a: gf, b: gf, c: gf, d: gf)
    ensures Xor(Xor(a, b), Xor(c, d)) == Xor(Xor(a, c), Xor(b, d))
  {
    hide Xor;
    XorAssoc(a, b, Xor(c, d));
    XorAssoc(b, c, d);
    XorComm(b, c);
    XorAssoc(c, b, d);
    XorAssoc(a, c, Xor(b, d));
  }

  /** Addition is its own inverse: a + b == c exactly when a == c + b. */
  lemma XorMove(a: gf, b: gf, c: gf)
    ensures Xor(a, b) == c <==> a == Xor(c, b)
  {
    hide Xor;
    XorAssoc(a, b, b);
    XorAssoc(c, b, b);
    XorSelf(b);
    XorZero(a);
    XorZero(c);
  }

  lemma XorEqual(a: gf, b: gf)
    ensures Xor(a, b) == 0 <==> a == b
  {
    hide Xor;
    XorMove(a, b, 0);
    XorZero(b);
  }

  // ----- multiplication -----

  /** Multiplication by x modulo x^8 + x^4 + x^3 + x^2 + 1. */
  function Xtime(v: gf): (w: gf) {
    if v >= 128 then Xor(29, 2 * (v - 128)) else 2 * v
  }

  /** Polynomial multiplication modulo the primitive polynomial (Horner's rule on the bits of a). */
  function Mul(a: gf, b: gf): (c: gf)
    decreases a
  {
    if a == 0 then 0 else Xor(if a % 2 == 1 then b else 0, Xtime(Mul(a / 2, b)))
  }

  lemma XorDouble(a: nat, b: nat)
    ensures XorNat(2 * a, 2 * b) == 2 * XorNat(a, b)
  {
  }

  lemma XorEvenOdd(a: nat, bit: nat)
    requires bit < 2
    ensures XorNat(bit, 2 * a) == 2 * a + bit
  {
    XorNatZero(a);
  }

  /** Adding a high bit is an exclusive-or with it. */
  lemma {:induction false} XorHigh(a: nat, bits: nat)
    requires a < Pow2(bits)
    ensures XorNat(Pow2(bits), a) == Pow2(bits) + a
    ensures XorNat(Pow2(bits), Pow2(bits) + a) == a
  {
    if bits == 0 {
    } else {
      hide XorNat;
      XorHigh(a / 2, bits - 1);
      XorHighStep(Pow2(bits - 1), a);
    }
  }

  lemma XorHighStep(p: nat, a: nat)
    requires XorNat(p, a / 2) == p + a / 2 && XorNat(p, p + a / 2) == a / 2
    ensures XorNat(2 * p, a) == 2 * p + a && XorNat(2 * p, 2 * p + a) == a
  {
    hide XorNat;
    XorStep(2 * p, a);
    XorStep(2 * p, 2 * p + a);
    assert (2 * p + a) / 2 == p + a / 2;
  }

  lemma XorTop(a: gf)
    requires a < 128
    ensures Xor(128, a) == 128 + a && Xor(128, 128 + a) == a
  {
    Pow2Seven();
    hide XorNat, Pow2;
    XorHigh(a, 7);
  }

  lemma Pow2Seven()
    ensures Pow2(7) == 128 && Pow2(8) == 256
  {
    assert Pow2(3) == 8;
  }

  lemma XtimeAdd(a: gf, b: gf)
    ensures Xtime(Xor(a, b)) == Xor(Xtime(a), Xtime(b))
  {
    hide Xor, Xtime;
    if a < 128 && b < 128 {
      XtimeAddLow(a, b);
    } else if a < 128 {
      XtimeAddMixed(b - 128, a);
      XorTop(b - 128);
      XorComm(a, b);
      XorComm(Xtime(a), Xtime(b));
    } else if b < 128 {
      XtimeAddMixed(a - 128, b);
      XorTop(a - 128);
    } else {
      XtimeAddHigh(a - 128, b - 128);
      XorTop(a - 128);
      XorTop(b - 128);
    }
  }

  lemma XtimeZero()
    ensures Xtime(0) == 0
  {
  }

  lemma XorLow(a: gf, b: gf)
    requires a < 128 && b < 128
    ensures Xor(a, b) < 128
    ensures Xor(2 * a, 2 * b) == 2 * Xor(a, b)
  {
    hide XorNat;
    Pow2Seven();
    XorBound(a, b, 7);
    XorDouble(a, b);
  }

  lemma XtimeAddLow(a: gf, b: gf)
    requires a < 128 && b < 128
    ensures Xtime(Xor(a, b)) == Xor(Xtime(a), Xtime(b))
  {
    hide Xor;
    XorLow(a, b);
  }

  lemma XtimeTop(a: gf)
    requires a < 128
    ensures Xtime(128 + a) == Xor(29, Xtime(a))
  {
  }

  lemma XtimeAddMixed(a: gf, b: gf)
    requires a < 128 && b < 128
    ensures Xtime(Xor(Xor(128, a), b)) == Xor(Xtime(Xor(128, a)), Xtime(b))
  {
    hide Xor, Xtime;
    XorLow(a, b);
    XorAssoc(128, a, b);
    XorTop(a);
    XorTop(Xor(a, b));
    XtimeTop(a);
    XtimeTop(Xor(a, b));
    XtimeAddLow(a, b);
    XorAssoc(29, Xtime(a), Xtime(b));
  }

  lemma XtimeAddHigh(a: gf, b: gf)
    requires a < 128 && b < 128
    ensures Xtime(Xor(Xor(128, a), Xor(128, b))) == Xor(Xtime(Xor(128, a)), Xtime(Xor(128, b)))
  {
    hide Xor, Xtime;
    XorSwap(128, a, 128, b);
    XorSelf(128);
    XorZero(Xor(a, b));
    XorTop(a);
    XorTop(b);
    XtimeTop(a);
    XtimeTop(b);
    XtimeAddLow(a, b);
    XorSwap(29, Xtime(a), 29, Xtime(b));
    XorSelf(29);
    XorZero(Xor(Xtime(a), Xtime(b)));
  }

  // ----- the ring laws -----

  /** One step of Horner's rule, also right for a == 0. */
  lemma MulStep(a: gf, b: gf)
    ensures Mul(a, b) == Xor(if a % 2 == 1 then b else 0, Xtime(Mul(a / 2, b)))
  {
    if a == 0 {
      XorZero(0);
    }
  }

  /** A byte is its lowest bit plus x times the rest. */
  lemma SplitLow(a: gf)
    ensures a / 2 < 128 && a == Xor(a % 2, Xtime(a / 2))
  {
    XorEvenOdd(a / 2, a % 2);
  }

  lemma MulUnits(a: gf)
    ensures Mul(0, a) == 0 && Mul(1, a) == a
  {
    hide Xor;
    XorZero(a);
  }

  lemma {:induction false} MulZero(a: gf)
    ensures Mul(a, 0) == 0
    decreases a
  {
    hide Xor;
    if a == 0 {
    } else {
      MulZero(a / 2);
      XorZero(0);
    }
  }

  lemma {:induction false} MulOne(a: gf)
    ensures Mul(a, 1) == a
    decreases a
  {
    hide Xor, Xtime;
    if a == 0 {
    } else {
      MulOne(a / 2);
      SplitLow(a);
    }
  }

  lemma {:induction false} MulAddRight(a: gf, b: gf, c: gf)
    ensures Mul(a, Xor(b, c)) == Xor(Mul(a, b), Mul(a, c))
    decreases a
  {
    hide Xor, Xtime;
    if a == 0 {
      XorZero(0);
    } else {
      MulAddRight(a / 2, b, c);
      XtimeAdd(Mul(a / 2, b), Mul(a / 2, c));
      var x, y, z := if a % 2 == 1 then b else 0, if a % 2 == 1 then c else 0, if a % 2 == 1 then Xor(b, c) else 0;
      XorZero(0);
      assert z == Xor(x, y);
      XorSwap(x, y, Xtime(Mul(a / 2, b)), Xtime(Mul(a / 2, c)));
    }
  }

  lemma {:induction false} MulAddLeft(a: gf, b: gf, c: gf)
    ensures Mul(Xor(a, b), c) == Xor(Mul(a, c), Mul(b, c))
    decreases a + b
  {
    if a + b == 0 {
      XorZero(0);
    } else {
      MulAddLeft(a / 2, b / 2, c);
      MulAddLeftStep(a, b, c);
    }
  }

  lemma MulAddLeftStep(a: gf, b: gf, c: gf)
    requires Mul(Xor(a / 2, b / 2), c) == Xor(Mul(a / 2, c), Mul(b / 2, c))
    ensures Mul(Xor(a, b), c) == Xor(Mul(a, c), Mul(b, c))
  {
    hide Mul, Xtime, XorNat;
    XorStep(a, b);
    assert Xor(a, b) / 2 == Xor(a / 2, b / 2) && Xor(a, b) % 2 == if a % 2 == b % 2 then 0 else 1;
    hide Xor;
    var s := Xor(a, b);
    MulStep(a, c);
    MulStep(b, c);
    MulStep(s, c);
    XtimeAdd(Mul(a / 2, c), Mul(b / 2, c));
    var x, y, z := if a % 2 == 1 then c else 0, if b % 2 == 1 then c else 0, if s % 2 == 1 then c else 0;
    XorZero(0);
    XorZero(c);
    XorSelf(c);
    assert z == Xor(x, y);
    XorSwap(x, y, Xtime(Mul(a / 2, c)), Xtime(Mul(b / 2, c)));
  }

  lemma {:induction false} MulXtimeRight(a: gf, b: gf)
    ensures Mul(a, Xtime(b)) == Xtime(Mul(a, b))
    decreases a
  {
    hide Xor;
    if a == 0 {
    } else {
      MulXtimeRight(a / 2, b);
      XtimeAdd(if a % 2 == 1 then b else 0, Xtime(Mul(a / 2, b)));
    }
  }

  /** x^8 times b is the polynomial's tail times b. */
  lemma {:induction false} MulPolynomial(b: gf)
    ensures Mul(29, b) == Xtime(Mul(128, b))
    decreases b
  {
    hide Xor, Xtime, Mul;
    if b == 0 {
      MulZero(29);
      MulZero(128);
      XtimeZero();
    } else {
      MulPolynomial(b / 2);
      SplitLow(b);
      MulAddRight(29, b % 2, Xtime(b / 2));
      MulAddRight(128, b % 2, Xtime(b / 2));
      XtimeAdd(Mul(128, b % 2), Mul(128, Xtime(b / 2)));
      MulXtimeRight(29, b / 2);
      MulXtimeRight(128, b / 2);
      MulPolynomialBit(b % 2);
    }
  }

  lemma MulPolynomialBit(b: gf)
    requires b < 2
    ensures Mul(29, b) == Xtime(Mul(128, b))
  {
    hide Xor, Mul;
    MulZero(29);
    MulZero(128);
    MulOne(29);
    MulOne(128);
    XorZero(29);
  }

  lemma MulXtimeLeft(a: gf, b: gf)
    ensures Mul(Xtime(a), b) == Xtime(Mul(a, b))
  {
    hide Xor, Mul;
    if a < 128 {
      MulDouble(a, b);
    } else {
      var r := a - 128;
      XorTop(r);
      XtimeTop(r);
      MulDouble(r, b);
      MulAddLeft(29, 2 * r, b);
      MulAddLeft(128, r, b);
      MulPolynomial(b);
      XtimeAdd(Mul(128, b), Mul(r, b));
    }
  }

  lemma MulDouble(a: gf, b: gf)
    requires a < 128
    ensures Mul(2 * a, b) == Xtime(Mul(a, b))
  {
    hide Xor;
    XorZero(Xtime(Mul(a, b)));
    MulUnits(b);
  }

  lemma {:induction false} MulComm(a: gf, b: gf)
    ensures Mul(a, b) == Mul(b, a)
    decreases a
  {
    hide Xor, Xtime, Mul;
    if a == 0 {
      MulUnits(b);
      MulZero(b);
    } else {
      MulComm(a / 2, b);
      MulStep(a, b);
      SplitLow(a);
      MulAddRight(b, a % 2, Xtime(a / 2));
      MulXtimeRight(b, a / 2);
      MulZero(b);
      MulOne(b);
    }
  }

  lemma {:induction false} MulAssoc(a: gf, b: gf, c: gf)
    ensures Mul(Mul(a, b), c) == Mul(a, Mul(b, c))
    decreases a
  {
    hide Xor, Xtime, Mul;
    MulUnits(b);
    MulUnits(c);
    MulUnits(Mul(b, c));
    if a == 0 {
    } else {
      MulAssoc(a / 2, b, c);
      MulStep(a, b);
      MulStep(a, Mul(b, c));
      MulAddLeft(if a % 2 == 1 then b else 0, Xtime(Mul(a / 2, b)), c);
      MulXtimeLeft(Mul(a / 2, b), c);
    }
  }

  // ----- powers of x -----

  /** x to the power i. */
  function Exp(i: nat): (v: gf) {
    if i == 0 then 1 else Xtime(Exp(i - 1))
  }

  lemma ExpNext(i: nat)
    ensures Exp(i + 1) == Xtime(Exp(i))
  {
  }

  lemma {:induction false} ExpAdd(i: nat, j: nat)
    ensures Exp(i + j) == Mul(Exp(i), Exp(j))
  {
    hide Xor, Xtime, Mul;
    if i == 0 {
      MulUnits(Exp(j));
    } else {
      ExpAdd(i - 1, j);
      MulXtimeLeft(Exp(i - 1), Exp(j));
    }
  }

  // ----- exclusive-or of machine bytes -----

  /** The value of a machine byte. */
  function Value(a: bv8): (v: gf) {
    a as int
  }

  lemma ValueHalf(a: bv8)
    ensures Value(a >> 1) == Value(a) / 2
  {
  }

  lemma ValueLow(a: bv8)
    ensures Value(a) % 2 == if a & 1 == 1 then 1 else 0
  {
  }

  lemma ValueZero(a: bv8)
    ensures Value(a) == 0 <==> a == 0
  {
  }

  lemma BitwiseLow(a: bv8, b: bv8)
    ensures (a ^ b) & 1 == 1 <==> (a & 1 == 1) != (b & 1 == 1)
    ensures (a ^ b) >> 1 == (a >> 1) ^ (b >> 1)
    ensures a == 0 && b == 0 ==> a ^ b == 0
  {
  }

  lemma BitwiseStep(a: bv8, b: bv8)
    requires XorNat(Value(a) / 2, Value(b) / 2) == Value((a >> 1) ^ (b >> 1))
    ensures XorNat(Value(a), Value(b)) == Value(a ^ b)
  {
    hide XorNat, Value;
    ValueHalf(a ^ b);
    ValueLow(a);
    ValueLow(b);
    ValueLow(a ^ b);
    BitwiseLow(a, b);
    XorStep(Value(a), Value(b));
  }

  /** XorNat is the machine's operator on bytes. */
  lemma {:induction false} XorIsBitwise(a: bv8, b: bv8)
    ensures XorNat(Value(a), Value(b)) == Value(a ^ b)
    decreases Value(a) + Value(b)
  {
    hide *;
    ValueZero(a);
    ValueZero(b);
    if Value(a) + Value(b) == 0 {
      XorNatZero(0);
      BitwiseLow(a, b);
      ValueZero(a ^ b);
    } else {
      ValueHalf(a);
      ValueHalf(b);
      XorIsBitwise(a >> 1, b >> 1);
      BitwiseStep(a, b);
    }
  }

  /** Evaluates Xor on literals. */
  lemma XorLiteral(a: bv8, b: bv8, c: gf)
    requires Value(a ^ b) == c
    ensures Xor(Value(a), Value(b)) == c
  {
    hide XorNat, Value;
    XorIsBitwise(a, b);
  }

  lemma Reductions()
    ensures Xor(29, 0) == 29 && Xor(29, 208) == 205 && Xor(29, 154) == 135 && Xor(29, 14) == 19
    ensures Xor(29, 48) == 45 && Xor(29, 104) == 117 && Xor(29, 212) == 201 && Xor(29, 146) == 143
    ensures Xor(29, 30) == 3 && Xor(29, 16) == 13 && Xor(29, 64) == 93 && Xor(29, 250) == 231
    ensures Xor(29, 28) == 1
  {
    hide Xor;
    XorLiteral(29, 0, 29);
    XorLiteral(29, 208, 205);
    XorLiteral(29, 154, 135);
    XorLiteral(29, 14, 19);
    XorLiteral(29, 48, 45);
    XorLiteral(29, 104, 117);
    XorLiteral(29, 212, 201);
    XorLiteral(29, 146, 143);
    XorLiteral(29, 30, 3);
    XorLiteral(29, 16, 13);
    XorLiteral(29, 64, 93);
    XorLiteral(29, 250, 231);
    XorLiteral(29, 28, 1);
  }

  /** The first powers of x, up to x^25 == x + 1. */
  lemma FirstPowers()
    ensures Exp(1) == 2 && Exp(5) == 32 && Exp(8) == 29 && Exp(15) == 38 && Exp(25) == 3
  {
    hide Xor;
    Reductions();
    assert Exp(4) == 16;
    assert Exp(8) == 29;
    assert Exp(12) == 205;
    assert Exp(15) == 38;
    assert Exp(18) == 45;
    assert Exp(21) == 117;
    assert Exp(25) == 3;
  }

  /** Multiplying by x shifts, and takes the polynomial off if a bit is shifted out; some first powers of x. */
  lemma MulByX(v: gf)
    ensures Mul(1, v) == v && Mul(2, v) == if v < 128 then 2 * v else Xor(2 * v - 256, 29)
    ensures Exp(0) == 1 && Exp(1) == 2 && Exp(7) == 128 && Exp(8) == 29
  {
    hide Mul, Xor;
    MulUnits(v);
    MulSmall(v);
    FirstPowers();
    assert Exp(7) == 128;
    if v >= 128 {
      XorComm(29, 2 * (v - 128));
    }
  }

  lemma MulSmall(v: gf)
    ensures Mul(2, v) == Xtime(v)
    ensures Mul(3, v) == Xor(v, Xtime(v))
    ensures Mul(5, v) == Xor(v, Xtime(Xtime(v)))
    ensures Mul(17, v) == Xor(v, Xtime(Xtime(Xtime(Xtime(v)))))
  {
    hide Xor, Xtime, Mul;
    MulUnits(v);
    XorZero(Xtime(v));
    XorZero(Xtime(Xtime(v)));
    XorZero(Xtime(Xtime(Xtime(v))));
    MulStep(2, v);
    MulStep(3, v);
    MulStep(4, v);
    MulStep(5, v);
    MulStep(8, v);
    MulStep(17, v);
  }

  /** x^255 == 1, by way of x^50 == 5, x^100 == 17 and x^200 == 28. */
  lemma FullPeriod()
    ensures Exp(15) == 38 && Exp(51) == 10 && Exp(100) == 17 && Exp(255) == 1
  {
    hide Xor, Mul, Exp;
    FirstPowers();
    Reductions();
    assert Exp(50) == 5 by {
      ExpAdd(25, 25);
      MulSmall(3);
      XorLiteral(3, 6, 5);
    }
    assert Exp(100) == 17 by {
      ExpAdd(50, 50);
      MulSmall(5);
      XorLiteral(5, 20, 17);
    }
    assert Exp(200) == 28 by {
      ExpAdd(100, 100);
      MulSmall(17);
      XorLiteral(17, 13, 28);
    }
    assert Exp(51) == 10 by {
      ExpAdd(1, 50);
      MulSmall(5);
    }
    assert Exp(55) == 160 by {
      ExpAdd(50, 5);
      MulSmall(32);
      XorLiteral(32, 128, 160);
    }
    ExpAdd(200, 55);
    LastPower();
  }

  lemma LastPower()
    ensures Mul(28, 160) == 1
  {
    hide Xor, Mul;
    Reductions();
    MulSmall(160);
    MulStep(28, 160);
    MulStep(14, 160);
    MulStep(7, 160);
    XorLiteral(160, 93, 253);
    XorLiteral(160, 231, 71);
    XorZero(1);
    XorZero(142);
  }

  /** If x^d == 1 then x^(d * q) == 1. */
  lemma {:induction false} ExpRepeat(d: nat, q: nat)
    requires Exp(d) == 1
    ensures Exp(d * q) == 1
    decreases q
  {
    hide Xor, Xtime, Mul;
    if q == 0 {
    } else {
      ExpRepeat(d, q - 1);
      assert d * q == d + d * (q - 1);
      ExpAdd(d, d * (q - 1));
      MulUnits(1);
    }
  }

  lemma ProperDivisor(d: nat, q: nat)
    requires 0 < d < 255 && d * q == 255
    ensures (q % 3 == 0 && d * (q / 3) == 85) || (q % 5 == 0 && d * (q / 5) == 51)
            || (q % 17 == 0 && d * (q / 17) == 15)
  {
    assert q > 1;
    if q > 15 {
      assert d <= 15;
      SmallDivisor(d, q);
      assert q % 17 == 0;
      assert d * (q / 17) == 15;
    } else {
      SmallDivisor(q, d);
      if q == 5 {
        assert d == 51;
      } else {
        assert q % 3 == 0;
        assert d * (q / 3) == 85;
      }
    }
  }

  lemma SmallDivisor(d: nat, q: nat)
    requires d <= 15 && d * q == 255
    ensures (d == 1 && q == 255) || (d == 3 && q == 85) || (d == 5 && q == 51) || (d == 15 && q == 17)
  {
  }

  /** No power of x below the 255th is 1: x is primitive. */
  lemma {:induction false} NoShortPeriod(d: nat)
    requires 0 < d < 255
    ensures Exp(d) != 1
    decreases d
  {
    hide Xor, Xtime, Mul, Exp;
    if Exp(d) == 1 {
      FullPeriod();
      var q, r := 255 / d, 255 % d;
      assert 255 == d * q + r;
      ExpRepeat(d, q);
      ExpAdd(d * q, r);
      MulUnits(Exp(r));
      if r != 0 {
        NoShortPeriod(r);
      } else {
        ProperDivisor(d, q);
        PeriodClash(d, q);
      }
    }
  }

  lemma PeriodClash(d: nat, q: nat)
    requires (q % 3 == 0 && d * (q / 3) == 85) || (q % 5 == 0 && d * (q / 5) == 51)
             || (q % 17 == 0 && d * (q / 17) == 15)
    ensures Exp(d) != 1
  {
    hide Xor, Xtime, Mul, Exp;
    FullPeriod();
    if Exp(d) == 1 {
      ExpRepeat(d, q / 3);
      ExpRepeat(d, q / 5);
      ExpRepeat(d, q / 17);
      ExpAdd(85, 15);
      MulUnits(Exp(15));
    }
  }

  lemma {:induction false} ExpPositive(i: nat)
    ensures Exp(i) != 0
  {
    hide Xor, Xtime, Mul, Exp;
    var j := 255 - i % 255;
    FullPeriod();
    var q := i / 255 + 1;
    assert i + j == 255 * q;
    ExpRepeat(255, q);
    ExpAdd(i, j);
    MulUnits(Exp(j));
  }

  /** The powers below the 255th are distinct. */
  lemma ExpInjective(i: nat, j: nat)
    requires i < 255 && j < 255 && Exp(i) == Exp(j)
    ensures i == j
  {
    hide Xor, Xtime, Mul, Exp;
    FullPeriod();
    if i < j {
      ExpInjectiveLess(i, j);
    } else if j < i {
      ExpInjectiveLess(j, i);
    }
  }

  lemma ExpInjectiveLess(i: nat, j: nat)
    requires i < j < 255
    ensures Exp(i) != Exp(j)
  {
    hide Xor, Xtime, Mul, Exp;
    FullPeriod();
    ExpAdd(i, 255 - j);
    ExpAdd(j, 255 - j);
    NoShortPeriod(i + 255 - j);
  }

  lemma ExpPeriodic(i: nat)
    ensures Exp(i + 255) == Exp(i)
  {
    hide Xor, Xtime, Mul, Exp;
    FullPeriod();
    ExpAdd(255, i);
    MulUnits(Exp(i));
  }

  lemma {:induction false} ExpMod(i: nat)
    ensures Exp(i) == Exp(i % 255)
    decreases i
  {
    hide Xor, Xtime, Mul, Exp;
    if i < 255 {
    } else {
      ExpPeriodic(i - 255);
      ExpMod(i - 255);
    }
  }

  // ----- logarithms and inverses -----

  ghost function FirstExps(n: nat): (es: set<int>) {
    set i | 0 <= i < n :: Exp(i)
  }

  lemma {:induction false} FirstExpsCount(n: nat)
    requires n <= 255
    ensures |FirstExps(n)| == n
  {
    hide Exp;
    if n == 0 {
    } else {
      FirstExpsCount(n - 1);
      var e: int := Exp(n - 1);
      assert FirstExps(n) == FirstExps(n - 1) + {e};
      if e in FirstExps(n - 1) {
        var i :| 0 <= i < n - 1 && Exp(i) == e;
        ExpInjective(i, n - 1);
      }
    }
  }

  ghost function UpTo(n: nat): (s: set<int>)
    ensures forall e :: e in s <==> 1 <= e <= n
    ensures |s| == n
  {
    if n == 0 then {} else UpTo(n - 1) + {n}
  }

  lemma {:induction false} SubsetSize<T>(a: set<T>, b: set<T>)
    requires a <= b && |a| == |b|
    ensures a == b
  {
    if e :| e in b && e !in a {
      SubsetSmaller(a, b - {e});
    }
  }

  lemma {:induction false} SubsetSmaller<T>(a: set<T>, b: set<T>)
    requires a <= b
    ensures |a| <= |b|
  {
    if e :| e in a {
      SubsetSmaller(a - {e}, b - {e});
    }
  }

  /** Every nonzero byte is a power of x. */
  lemma ExpSurjective(v: gf)
    requires v != 0
    ensures exists i: nat :: i < 255 && Exp(i) == v
  {
    hide Exp;
    FirstExpsCount(255);
    forall e | e in FirstExps(255)
      ensures e in UpTo(255)
    {
      var i :| 0 <= i < 255 && Exp(i) == e;
      ExpPositive(i);
    }
    SubsetSize(FirstExps(255), UpTo(255));
    assert v in FirstExps(255);
    var i :| 0 <= i < 255 && Exp(i) == v;
  }

  /** The logarithm of a nonzero byte. */
  ghost function Log(v: gf): (i: nat)
    requires v != 0
    ensures i < 255 && Exp(i) == v
  {
    ExpSurjective(v);
    var i: nat :| i < 255 && Exp(i) == v;
    i
  }

  lemma LogExp(i: nat)
    requires i < 255
    ensures Exp(i) != 0 && Log(Exp(i)) == i
  {
    hide Exp;
    ExpPositive(i);
    ExpInjective(i, Log(Exp(i)));
  }

  /** Multiplication adds logarithms modulo 255. */
  lemma MulLog(a: gf, b: gf)
    requires a != 0 && b != 0
    ensures Mul(a, b) == Exp((Log(a) + Log(b)) % 255)
  {
    hide Exp, Mul;
    ExpAdd(Log(a), Log(b));
    ExpMod(Log(a) + Log(b));
  }

  ghost function Inv(v: gf): (w: gf) {
    if v == 0 then 0 else Exp(255 - Log(v))
  }

  lemma {:induction false} MulInv(v: gf)
    requires v != 0
    ensures Mul(v, Inv(v)) == 1 && Mul(Inv(v), v) == 1
  {
    hide Exp, Mul;
    ExpAdd(Log(v), 255 - Log(v));
    FullPeriod();
    MulComm(v, Inv(v));
  }

  lemma {:induction false} MulNonZero(a: gf, b: gf)
    requires a != 0 && b != 0
    ensures Mul(a, b) != 0
  {
    hide Exp, Mul;
    MulLog(a, b);
    ExpPositive((Log(a) + Log(b)) % 255);
  }
}
