/** The static tables of fec.c and the loops that fill them. */
module GfTables {
  import opened Gf

  /** x modulo 255 without a division. */
  method Modnn(x: int) returns (r: gf)
    requires 0 <= x
    ensures r == x % 255
  {
    var y := x;
    while y >= 255
      invariant 0 <= y && y % 255 == x % 255
      decreases y
    {
      y := y - 255;
      y := y / 256 + y % 256;
    }
    r := y;
  }

  lemma ShiftLiterals()
    ensures Xor(0, 1) == 1 && Xor(1, 4) == 5 && Xor(5, 8) == 13 && Xor(13, 16) == 29
  {
    hide Xor;
    XorLiteral(0, 1, 1);
    XorLiteral(1, 4, 5);
    XorLiteral(5, 8, 13);
    XorLiteral(13, 16, 29);
  }

  /** The primitive polynomial, lowest coefficient first. */
  const PP := "101110001"

  class Tables {
    const exp: array<gf>
    const log: array<int>
    const inverse: array<gf>
    const mul: array2<gf>
    var initialized: bool

    ghost predicate Shape() {
      && exp.Length == 510 && log.Length == 256 && inverse.Length == 256
      && mul.Length0 == 256 && mul.Length1 == 256
      && exp != inverse
      && (exp as object) != log && (inverse as object) != log
    }

    ghost function Repr(): (objects: set<object>) {
      {this, exp, log, inverse, mul}
    }

    ghost predicate ExpLogFilled()
      requires Shape()
      reads exp, log
    {
      && (forall i :: 0 <= i < 510 ==> exp[i] == Exp(i))
      && (forall v: gf :: v != 0 ==> log[v] == Log(v))
      && log[0] == 255
    }

    ghost predicate InverseFilled()
      requires Shape()
      reads inverse
    {
      forall v: gf :: inverse[v] == Inv(v)
    }

    ghost predicate MulFilled()
      requires Shape()
      reads mul
    {
      forall x: gf, y: gf :: mul[x, y] == Mul(x, y)
    }

    /** What the rest of the codec relies on. */
    ghost predicate Ready()
      reads Repr()
    {
      initialized && Shape() && ExpLogFilled() && InverseFilled() && MulFilled()
    }

    constructor ()
      ensures Shape() && !initialized && fresh(Repr())
    {
      exp := new gf[510];
      log := new int[256];
      inverse := new gf[256];
      mul := new gf[256, 256];
      initialized := false;
    }

    /** The first n powers of x and their logarithms are in place. */
    ghost predicate PowersFilled(n: nat)
      requires Shape() && n <= 255
      reads exp, log
    {
      forall i :: 0 <= i < n ==> exp[i] == Exp(i) && log[Exp(i)] == i
    }

    method SetPower(i: nat, e: gf)
      requires Shape() && i < 255 && e == Exp(i) && PowersFilled(i)
      modifies exp, log
      ensures PowersFilled(i + 1)
      ensures forall j :: i < j < 510 ==> exp[j] == old(exp[j])
    {
      hide Exp;
      exp[i] := e;
      forall j | 0 <= j < i
        ensures Exp(j) != Exp(i)
      {
        if Exp(j) == Exp(i) { ExpInjective(j, i); }
      }
      log[exp[i]] := i;
    }

    /** The first eight powers are shifted ones; the ninth is read off the polynomial. */
    method FirstPowersLoop()
      requires Shape()
      modifies exp, log
      ensures PowersFilled(9)
    {
      hide Xor, Exp;
      var mask: gf := 1;
      exp[8] := 0;
      assert PowersFilled(0);
      var i := 0;
      while i < 8
        invariant 0 <= i <= 8
        invariant PowersFilled(i)
        invariant i < 8 ==> mask == Pow2(i)
        invariant exp[8] == TailSum(i)
      {
        ShiftedPower(i);
        SetPower(i, mask);
        if PP[i] == '1' {
          exp[8] := Xor(exp[8], mask);
        }
        i := i + 1;
        mask := 2 * mask % 256;
      }
      TailIsPower();
      SetPower(8, exp[8]);
    }

    lemma PowerAt(i: nat, n: nat)
      requires Shape() && i < n <= 255 && PowersFilled(n)
      ensures exp[i] == Exp(i)
    {
    }

    /** Each further power is the previous one shifted, reduced by x^8 when a bit falls out. */
    method RemainingPowersLoop()
      requires Shape() && PowersFilled(9)
      modifies exp, log
      ensures PowersFilled(255)
    {
      hide Xor, Exp, PowersFilled;
      var mask: gf := 128;
      FirstPowers();
      var i := 9;
      while i < 255
        invariant 9 <= i <= 255
        invariant PowersFilled(i)
      {
        PowerAt(i - 1, i);
        PowerAt(8, i);
        ExpNext(i - 1);
        var e: gf;
        if exp[i - 1] >= mask {
          XorTop(exp[i - 1] - 128);
          XorComm(exp[i - 1], mask);
          e := Xor(exp[8], Xor(exp[i - 1], mask) * 2);
        } else {
          e := exp[i - 1] * 2;
        }
        SetPower(i, e);
        i := i + 1;
      }
    }

    /** The second copy of the powers, for products read without modnn. */
    method ExtendPowersLoop()
      requires Shape() && PowersFilled(255)
      modifies exp, log
      ensures ExpLogFilled()
    {
      hide Exp, Log;
      log[0] := 255;
      forall i | 0 <= i < 255
        ensures log[Exp(i)] == i
      {
        ExpPositive(i);
      }
      var i := 0;
      while i < 255
        invariant 0 <= i <= 255
        invariant PowersFilled(255)
        invariant log[0] == 255
        invariant forall j :: 0 <= j < i ==> exp[j + 255] == Exp(j)
      {
        exp[i + 255] := exp[i];
        i := i + 1;
      }
      forall i | 0 <= i < 510
        ensures exp[i] == Exp(i)
      {
        if i >= 255 {
          ExpPeriodic(i - 255);
          assert exp[(i - 255) + 255] == Exp(i - 255);
        }
      }
      forall v: gf | v != 0
        ensures log[v] == Log(v)
      {
        assert log[Exp(Log(v))] == Log(v);
      }
    }

    method InverseLoop()
      requires Shape() && ExpLogFilled()
      modifies inverse
      ensures ExpLogFilled() && InverseFilled()
    {
      hide Exp, Log;
      inverse[0] := 0;
      InverseOfOne();
      inverse[1] := 1;
      var i := 2;
      while i <= 255
        invariant 2 <= i <= 256
        invariant forall v :: 0 <= v < i ==> inverse[v] == Inv(v)
        invariant ExpLogFilled()
      {
        inverse[i] := exp[255 - log[i]];
        i := i + 1;
      }
    }

    /** Products as powers; the row and the column of zero are then overwritten. */
    method InitMulTable()
      requires Shape() && ExpLogFilled()
      modifies mul
      ensures MulFilled()
    {
      hide Exp, Log, Mul;
      var i := 0;
      while i < 256
        invariant 0 <= i <= 256
        invariant forall x: gf, y: gf :: 0 < x < i && y != 0 ==> mul[x, y] == Mul(x, y)
      {
        var j := 0;
        while j < 256
          invariant 0 <= j <= 256
          invariant forall x: gf, y: gf :: 0 < x < i && y != 0 ==> mul[x, y] == Mul(x, y)
          invariant i != 0 ==> forall y: gf :: 0 < y < j ==> mul[i, y] == Mul(i, y)
        {
          var m := Modnn(log[i] + log[j]);
          mul[i, j] := exp[m];
          if i != 0 && j != 0 {
            MulLog(i, j);
          }
          j := j + 1;
        }
        i := i + 1;
      }
      var j := 0;
      while j < 256
        invariant 0 <= j <= 256
        invariant forall x: gf, y: gf :: x != 0 && y != 0 ==> mul[x, y] == Mul(x, y)
        invariant forall y :: 0 <= y < j ==> mul[0, y] == 0 && mul[y, 0] == 0
      {
        mul[0, j], mul[j, 0] := 0, 0;
        j := j + 1;
      }
      forall x: gf, y: gf
        ensures mul[x, y] == Mul(x, y)
      {
        MulUnits(y);
        MulZero(x);
      }
    }

    method InitFec()
      requires Shape()
      modifies Repr()
      ensures Ready()
    {
      FirstPowersLoop();
      RemainingPowersLoop();
      ExtendPowersLoop();
      InverseLoop();
      InitMulTable();
      initialized := true;
    }
  }

  lemma InverseOfOne()
    ensures Inv(0) == 0 && Inv(1) == 1
  {
    hide Exp, Log, Mul;
    MulInv(1);
    MulUnits(Inv(1));
  }

  /** What the first loop has gathered in the ninth entry after i rounds. */
  ghost function TailSum(i: nat): (v: gf)
    requires i <= 8
  {
    if i == 0 then 0 else if PP[i - 1] == '1' then (Pow2Fits(i - 1); Xor(TailSum(i - 1), Pow2(i - 1)))
        else TailSum(i - 1)
  }

  lemma {:induction false} Pow2Monotone(i: nat, j: nat)
    requires i <= j
    ensures Pow2(i) <= Pow2(j)
    decreases j
  {
    if i == j {
    } else {
      Pow2Monotone(i, j - 1);
    }
  }

  lemma Pow2Fits(i: nat)
    requires i < 8
    ensures Pow2(i) < 256 && (i < 7 ==> Pow2(i) < 128)
  {
    Pow2Seven();
    hide Pow2;
    Pow2Monotone(i, if i < 7 then 6 else 7);
    assert Pow2(6) == 64 by { Pow2Six(); }
  }

  lemma Pow2Six()
    ensures Pow2(6) == 64
  {
    assert Pow2(3) == 8;
  }

  lemma TailIsPower()
    ensures TailSum(8) == Exp(8)
  {
    hide Xor, Exp;
    ShiftLiterals();
    FirstPowers();
    assert TailSum(2) == 1;
    assert TailSum(4) == 13;
  }

  lemma {:induction false} ShiftedPower(i: nat)
    requires i < 8
    ensures Exp(i) == Pow2(i)
    ensures i < 7 ==> 2 * Pow2(i) < 256
  {
    hide Xor;
    Pow2Fits(i);
    if i == 0 {
    } else {
      ShiftedPower(i - 1);
      Pow2Fits(i - 1);
    }
  }
}
