/** _invert_vdm: the loops that replace a Vandermonde matrix by its (intended) inverse. */
module VdmInverse {
  import opened Gf
  import opened GfTables
  import opened Vectors
  import opened Polynomials
  import opened Vandermonde
  import opened Layout

  /** The coefficient at q once the places from lo up to hi have been updated. */
  ghost function Updated(was: Vec, lo: nat, hi: nat, a: gf, q: nat): (v: gf)
    requires hi < |was| && q < |was|
  {
    if lo <= q < hi then Xor(was[q], Mul(a, was[q + 1])) else was[q]
  }

  /** The recurrence on the window of coefficients computed so far. */
  lemma MasterWindow(was: Vec, now: Vec, k: nat, i: nat, a: gf)
    requires |was| == |now| == k && 1 <= i < k
    requires was[k - 1 - i] == 0
    requires forall j :: 0 <= j < k - 1 ==> now[j] == Updated(was, k - i, k - 1, a, j)
    requires now[k - 1] == Xor(was[k - 1], a)
    ensures now[k - 1 - i..] + [1] == TimesLinear(was[k - i..] + [1], a)[0 := 0]
  {
    hide Xor, Mul, TimesLinear;
    var c := was[k - i..] + [1];
    var n, l := now[k - 1 - i..] + [1], TimesLinear(c, a)[0 := 0];
    TimesLinearEnds(c, a);
    MulOne(a);
    forall t | 0 <= t < |n|
      ensures n[t] == l[t]
    {
      if 1 <= t <= i {
        TimesLinearAt(c, a, t);
        var j := k - 1 - i + t;
        assert n[t] == now[j] && c[t - 1] == was[j];
      } else if t == 0 {
        assert now[k - 1 - i] == Updated(was, k - i, k - 1, a, k - 1 - i);
      }
    }
  }

  /** Multiplies one more root into the product held in the last i coefficients. */
  method MasterRound(t: Tables, c: array<gf>, k: nat, i: nat, pi: gf)
    requires t.Ready() && c !in t.Repr() && c.Length == k && 1 <= i < k
    requires forall j :: 0 <= j < k - i ==> c[j] == 0
    modifies c
    ensures forall j :: 0 <= j < k - i - 1 ==> c[j] == 0
    ensures c[k - 1 - i..] + [1] == TimesLinear(old(c[k - i..]) + [1], pi)[0 := 0]
  {
    hide Xor, Mul, TimesLinear, t.Ready;
    ghost var was := c[..];
    var j := k - 1 - (i - 1);
    while j < k - 1
      invariant k - i <= j <= k - 1
      invariant forall q :: 0 <= q < k ==> c[q] == Updated(was, k - i, j, pi, q)
    {
      MulRow(t, pi);
      c[j] := Xor(c[j], t.mul[pi, c[j + 1]]);
      j := j + 1;
    }
    c[k - 1] := Xor(c[k - 1], pi);
    MasterWindow(was, c[..], k, i, pi);
    assert was[k - i..] == old(c[k - i..]) && c[..][k - 1 - i..] == c[k - 1 - i..];
  }

  /** Coefficients of the product of (x - p[i]), by multiplying in one root after another. */
  method MasterLoop(t: Tables, c: array<gf>, p: array<gf>, k: nat)
    requires t.Ready() && c !in t.Repr() && c != p && c.Length == p.Length == k && k >= 2
    requires forall j :: 0 <= j < k ==> c[j] == 0
    modifies c
    ensures c[..] + [1] == CodeMaster(p[..], k)
  {
    hide Xor, Mul, TimesLinear, t.Ready;
    c[k - 1] := p[0];
    assert c[k - 1..] + [1] == CodeMaster(p[..], 1);
    for i := 1 to k
      invariant c[k - i..] + [1] == CodeMaster(p[..], i)
      invariant forall j :: 0 <= j < k - i ==> c[j] == 0
    {
      MasterRound(t, c, k, i, p[i]);
      assert k - (i + 1) == k - 1 - i;
    }
    assert c[0..] == c[..];
  }

  lemma QuotientStep(m: Vec, a: gf, i: nat)
    requires 1 <= i <= |m| - 2
    ensures Quotient(m, a)[i - 1] == Xor(m[i], Mul(a, Quotient(m, a)[i]))
  {
    hide Xor, Mul, Quotient;
    QuotientAt(m, a, i - 1);
    QuotientAt(m, a, i);
    assert m[i..][1..] == m[i + 1..];
  }

  /** Synthetic division of the master polynomial by (x - xx), and the value of the quotient there. */
  method DivideLoop(t: Tables, c: array<gf>, b: array<gf>, k: nat, xx: gf) returns (d: gf)
    requires t.Ready() && b !in t.Repr() && b != c && c.Length == b.Length == k && k >= 2
    modifies b
    ensures b[..] == Quotient(c[..] + [1], xx)
    ensures d == Eval(b[..], xx)
  {
    hide Xor, Mul, Quotient, t.Ready;
    ghost var m := c[..] + [1];
    ghost var q := Quotient(m, xx);
    d := 1;
    b[k - 1] := 1;
    QuotientLead(m, xx);
    assert b[k - 1..] == q[k - 1..];
    assert b[k - 1..][1..] == [];
    MulZero(xx);
    XorZero(1);
    var i := k - 1;
    while i > 0
      invariant 0 <= i <= k - 1
      invariant b[i..] == q[i..]
      invariant d == Eval(b[i..], xx)
    {
      ghost var high := b[i..];
      MulRow(t, xx);
      b[i - 1] := Xor(c[i], t.mul[xx, b[i]]);
      d := Xor(t.mul[xx, d], b[i - 1]);
      QuotientStep(m, xx, i);
      assert b[i..] == high && b[i - 1..] == [b[i - 1]] + high;
      assert q[i - 1..] == [q[i - 1]] + q[i..];
      XorComm(Mul(xx, Eval(high, xx)), b[i - 1]);
      i := i - 1;
    }
    assert b[0..] == b[..] && q[0..] == q;
  }

  /** Writes e times b down one column. */
  method WriteColumn(t: Tables, src: array<gf>, k: nat, row: nat, b: array<gf>, e: gf)
    requires t.Ready() && src !in t.Repr() && src != b && b.Length == k && k * k <= src.Length && row < k
    modifies src
    ensures forall c, r :: 0 <= c < k && 0 <= r < k ==>
              Rows(src[..], k, k)[c][r] == if r == row then Mul(e, b[c]) else old(Rows(src[..], k, k))[c][r]
    ensures forall q :: k * k <= q < src.Length ==> src[q] == old(src[q])
  {
    hide Mul, Rows, t.Ready;
    ghost var m := Rows(src[..], k, k);
    for col := 0 to k
      invariant forall c, r :: 0 <= c < k && 0 <= r < k ==>
                  Rows(src[..], k, k)[c][r] == if c < col && r == row then Mul(e, b[c]) else m[c][r]
      invariant forall q :: k * k <= q < src.Length ==> src[q] == old(src[q])
    {
      MulRow(t, e);
      PutCell(src, k, k, col, row, t.mul[e, b[col]]);
    }
  }

  lemma SecondColumn(points: Vec, k: nat, i: nat)
    requires |points| == k && i < k && k >= 2
    ensures Vdm(points, k)[i][1] == points[i]
  {
    hide Mul;
    MulOne(points[i]);
    assert Power(points[i], 1) == Mul(points[i], Power(points[i], 0));
  }

  lemma OnePoint(points: Vec)
    requires |points| == 1
    ensures CodeInverse(points) == Vdm(points, 1)
  {
    hide Mul, Xor, Inv;
    var p := points[0];
    var m := [p, 1];
    assert CodeMaster(points, 1) == m;
    assert m[1..] == [1] && [1][1..] == [];
    QuotientLead(m, p);
    assert Quotient(m, p) == [1];
    MulZero(p);
    XorZero(1);
    assert Eval([1], p) == 1;
    MulInv(1);
    MulUnits(Inv(1));
    MulOne(Inv(1));
    assert Basis(m, p) == [1];
    assert Columns(m, points) == [[1]];
    assert CodeInverse(points)[0] == Vdm(points, 1)[0];
  }

  lemma CodeInverseCell(points: Vec, c: nat, r: nat)
    requires |points| >= 1 && c < |points| && r < |points|
    ensures CodeInverse(points)[c][r] == Basis(CodeMaster(points, |points|), points[r])[c]
  {
    hide Basis, CodeMaster;
  }

  /** Clears the coefficients and takes the points from the second column. */
  method ReadPoints(src: array<gf>, k: nat, c: array<gf>, p: array<gf>, ghost points: Vec)
    requires k >= 2 && |points| == k && k * k <= src.Length && Rows(src[..], k, k) == Vdm(points, k)
    requires c.Length == p.Length == k && c != p && src != c && src != p
    modifies c, p
    ensures p[..] == points && forall j :: 0 <= j < k ==> c[j] == 0
  {
    hide Rows, Vdm;
    ghost var s := src[..];
    for i := 0 to k
      invariant src[..] == s
      invariant forall j :: 0 <= j < i ==> c[j] == 0
      invariant forall j :: 0 <= j < i ==> p[j] == points[j]
    {
      c[i] := 0;
      CellAt(s, k, k, i, 1);
      SecondColumn(points, k, i);
      p[i] := src[i * k + 1];
    }
  }

  /** The whole routine, on the top k rows of src: for distinct points it leaves the inverse exactly when k <= 2 or
      one of the first two points is zero. */
  method InvertVdm(t: Tables, src: array<gf>, k: nat, ghost points: Vec)
    requires t.Ready() && src !in t.Repr() && k >= 1 && |points| == k && k * k <= src.Length
    requires Rows(src[..], k, k) == Vdm(points, k)
    modifies src
    ensures Rows(src[..], k, k) == CodeInverse(points) && InvertsExactly(Rows(src[..], k, k), points)
    ensures forall q :: k * k <= q < src.Length ==> src[q] == old(src[q])
  {
    hide Mul, Rows, Vdm, CodeInverse, CodeMaster, Basis, InvertsExactly, t.Ready;
    CodeInvertsExactly(points);
    if k == 1 {
      OnePoint(points);
      return;
    }
    var c := new gf[k];
    var b := new gf[k];
    var p := new gf[k];
    ReadPoints(src, k, c, p, points);
    MasterLoop(t, c, p, k);
    assert src[..] == old(src[..]);
    for row := 0 to k
      invariant t.Ready() && p[..] == points && c[..] + [1] == CodeMaster(points, k)
      invariant forall x, r :: 0 <= x < k && 0 <= r < row ==> Rows(src[..], k, k)[x][r] == CodeInverse(points)[x][r]
      invariant forall q :: k * k <= q < src.Length ==> src[q] == old(src[q])
    {
      InvertVdmRow(t, src, k, row, c, b, p[row], points);
    }
    forall x | 0 <= x < k
      ensures Rows(src[..], k, k)[x] == CodeInverse(points)[x]
    {
    }
  }

  method InvertVdmRow(t: Tables, src: array<gf>, k: nat, row: nat, c: array<gf>, b: array<gf>, xx: gf,
                      ghost points: Vec)
    requires t.Ready() && {src, b} !! t.Repr() && src != b && b != c && src != c
    requires k >= 2 && |points| == k && k * k <= src.Length && b.Length == c.Length == k && row < k && xx == points[row]
    requires c[..] + [1] == CodeMaster(points, k)
    modifies src, b
    ensures forall x, r :: 0 <= x < k && 0 <= r < k ==>
              Rows(src[..], k, k)[x][r]
              == if r == row then CodeInverse(points)[x][r] else old(Rows(src[..], k, k))[x][r]
    ensures forall q :: k * k <= q < src.Length ==> src[q] == old(src[q])
  {
    hide Mul, Rows, CodeInverse, CodeMaster, Inv, Quotient, Eval, t.Ready;
    var d := DivideLoop(t, c, b, k, xx);
    InverseEntry(t, d);
    WriteColumn(t, src, k, row, b, t.inverse[d]);
    forall x | 0 <= x < k
      ensures Rows(src[..], k, k)[x][row] == CodeInverse(points)[x][row]
    {
      CodeInverseCell(points, x, row);
    }
  }
}
