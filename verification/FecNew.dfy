/** fec_new: the systematic encoding matrix. */
module FecNew {
  import opened Gf
  import opened GfTables
  import opened Vectors
  import opened Polynomials
  import opened Vandermonde
  import opened Layout
  import opened VdmInverse
  import opened ErasureCode

  /** Row i of the matrix computes fragment i from the data bytes. */
  ghost predicate EncodingMatrix(m: Mat, k: nat, n: nat) {
    && Rect(m, n, k)
    && forall i: nat, d: Vec :: i < n && |d| == k ==> Dot(m[i], d, k) == Fragment(d, i)
  }

  /** The rows of the fragments that were received. */
  ghost function ChosenRows(m: Mat, idx: seq<nat>, k: nat): (a: Mat)
    requires Rect(m, |m|, k) && forall r :: 0 <= r < |idx| ==> idx[r] < |m|
    ensures Rect(a, |idx|, k)
  {
    seq(|idx|, r requires 0 <= r < |idx| => m[idx[r]])
  }

  /** Any k different rows of an encoding matrix form a nonsingular matrix. */
  lemma AnyRowsNonsingular(m: Mat, k: nat, n: nat, idx: seq<nat>)
    requires EncodingMatrix(m, k, n) && Choice(idx, k, n) && k <= n <= 256
    ensures Nonsingular(ChosenRows(m, idx, k), k)
  {
    hide Dot, Fragment, Recovered;
    var a := ChosenRows(m, idx, k);
    forall v: Vec | |v| == k && MatVec(a, v) == Zeros(k)
      ensures v == Zeros(k)
    {
      forall r | 0 <= r < k
        ensures Fragment(v, idx[r]) == 0 && Fragment(Zeros(k), idx[r]) == 0
      {
        assert Zeros(k)[r] == MatVec(a, v)[r] == Dot(m[idx[r]], v, k);
        DotZero(m[idx[r]], Zeros(k), k);
      }
      AnyKRecover(idx, n, Zeros(k), v);
      AnyKRecover(idx, n, Zeros(k), Zeros(k));
    }
  }

  /** The top of an encoding matrix is the identity. */
  lemma TopIdentity(m: Mat, k: nat, n: nat, i: nat)
    requires EncodingMatrix(m, k, n) && i < k <= n && k <= 256
    ensures m[i] == Unit(k, i)
  {
    hide Dot, Fragment;
    forall j | 0 <= j < k
      ensures m[i][j] == Unit(k, i)[j]
    {
      DotUnit(m[i], j, k);
      Systematic(Unit(k, j), i);
      assert Dot(m[i], Unit(k, j), k) == Fragment(Unit(k, j), i);
    }
  }

  // ----- the matrix the code builds -----

  /** A row times a matrix of k rows and m columns. */
  ghost function Multiplied(row: Vec, b: Mat, k: nat, m: nat): (r: Vec)
    requires |row| == k && Rect(b, k, m)
    ensures |r| == m
  {
    seq(m, c requires 0 <= c < m => Dot(row, Column(b, c), k))
  }

  lemma MultipliedDot(row: Vec, b: Mat, k: nat, d: Vec)
    requires |row| == |d| == k && Rect(b, k, k)
    ensures Dot(Multiplied(row, b, k, k), d, k) == Dot(row, MatVec(b, d), k)
  {
    hide Dot, Combine, MatVec;
    forall c | 0 <= c < k
      ensures Multiplied(row, b, k, k)[c] == Combine(row, b, k, k)[c]
    {
      CombineAt(row, b, k, k, c);
    }
    assert Multiplied(row, b, k, k) == Combine(row, b, k, k);
    CombineDot(row, b, k, d);
  }

  lemma CodeInverseIsLagrange(k: nat)
    requires k >= 1
    ensures CodeInverse(FirstPoints(k)) == LagrangeInverse(FirstPoints(k))
  {
    hide CodeInverse, LagrangeInverse, CodeMaster, Master, Exp;
    HarmlessSkip(FirstPoints(k), k);
    SameColumns(FirstPoints(k));
  }

  /** The identity on top of the remaining Vandermonde rows times the inverse is an encoding matrix. */
  lemma BuiltMatrix(m: Mat, k: nat, n: nat)
    requires 1 <= k <= n <= 256 && Rect(m, n, k)
    requires forall i :: 0 <= i < k ==> m[i] == Unit(k, i)
    requires m[k..] == Product(Vdm(FirstPoints(n), k)[k..], CodeInverse(FirstPoints(k)), k, k)
    ensures EncodingMatrix(m, k, n)
  {
    hide Dot, CodeInverse, LagrangeInverse, MatVec, Multiplied, Eval, Exp, Powers, Point;
    CodeInverseIsLagrange(k);
    var b := LagrangeInverse(FirstPoints(k));
    forall i: nat, d: Vec | i < n && |d| == k
      ensures Dot(m[i], d, k) == Fragment(d, i)
    {
      if i < k {
        DotComm(Unit(k, i), d, k);
        DotUnit(d, i, k);
        Systematic(d, i);
      } else {
        assert m[i] == m[k..][i - k];
        assert m[i] == Multiplied(Powers(Point(i), k), b, k, k);
        MultipliedDot(Powers(Point(i), k), b, k, d);
        DotPowers(MatVec(b, d), Point(i));
      }
    }
  }

  lemma {:induction false} PowerExp(i: nat, j: nat)
    ensures Power(Exp(i), j) == Exp(i * j)
  {
    hide Mul;
    if j == 0 {
      assert i * j == 0;
    } else {
      PowerExp(i, j - 1);
      assert i * j == i + i * (j - 1);
      ExpAdd(i, i * (j - 1));
    }
  }

  lemma {:induction false} PowerZero(j: nat)
    ensures Power(0, j) == if j == 0 then 1 else 0
  {
    if j > 0 {
      MulUnits(Power(0, j - 1));
    }
  }

  class Fec {
    const k: nat
    const n: nat
    const encMatrix: array<gf>

    ghost predicate Valid()
      reads encMatrix
    {
      && 1 <= k <= n <= 256
      && encMatrix.Length == n * k
      && EncodingMatrix(Rows(encMatrix[..], n, k), k, n)
    }

    /** Builds the encoding matrix, filling the tables first if nobody has. */
    constructor (t: Tables, k: nat, n: nat)
      requires 1 <= k <= n <= 256
      requires t.Shape() && (t.initialized ==> t.Ready())
      modifies t.Repr()
      ensures t.Ready() && Valid() && this.k == k && this.n == n && fresh(encMatrix)
      ensures old(t.initialized) ==> unchanged(t.Repr())
    {
      var m := new gf[n * k];
      this.k, this.n, this.encMatrix := k, n, m;
      new;
      if !t.initialized {
        t.InitFec();
      }
      BuildMatrix(t, m, k, n);
    }
  }

  /** Rows of powers: the first point is zero, so its row is written out by hand. */
  method FillVandermonde(t: Tables, tmp: array<gf>, k: nat, n: nat)
    requires t.Ready() && tmp !in t.Repr() && 1 <= k <= n <= 256 && tmp.Length == n * k
    modifies tmp
    ensures Rows(tmp[..], n, k) == Vdm(FirstPoints(n), k)
    ensures forall j :: 0 <= j < k ==> Rows(tmp[..], n, k)[0][j] == if j == 0 then 1 else 0
    ensures forall i, j :: 1 <= i < n && 0 <= j < k ==> Rows(tmp[..], n, k)[i][j] == Power(Power(2, i - 1), j)
  {
    hide Rows, Exp, Power, Point, t.Ready;
    PointIs(0);
    PutCell(tmp, n, k, 0, 0, 1);
    PowerZero(0);
    for col := 1 to k
      invariant forall j :: 0 <= j < col ==> Rows(tmp[..], n, k)[0][j] == Power(Point(0), j)
    {
      PutCell(tmp, n, k, 0, col, 0);
      PowerZero(col);
    }
    for row := 1 to n
      invariant t.Ready()
      invariant forall i, j :: 0 <= i < row && 0 <= j < k ==> Rows(tmp[..], n, k)[i][j] == Power(Point(i), j)
    {
      FillPowers(t, tmp, k, n, row);
    }
    SameMatrix(Rows(tmp[..], n, k), n, k);
    PowersAt(Rows(tmp[..], n, k), n, k);
  }

  lemma PowersAt(m: Mat, n: nat, k: nat)
    requires Rect(m, n, k) && n > 0
    requires forall i, j :: 0 <= i < n && 0 <= j < k ==> m[i][j] == Power(Point(i), j)
    ensures forall j :: 0 <= j < k ==> m[0][j] == if j == 0 then 1 else 0
    ensures forall i, j :: 1 <= i < n && 0 <= j < k ==> m[i][j] == Power(Power(2, i - 1), j)
  {
    hide Power, Point;
    forall j | 0 <= j < k
      ensures m[0][j] == if j == 0 then 1 else 0
    {
      PointIs(0);
      PowerZero(j);
    }
    forall i, j | 1 <= i < n && 0 <= j < k
      ensures m[i][j] == Power(Power(2, i - 1), j)
    {
      PointIs(i - 1);
    }
  }

  /** The powers of one point. */
  method FillPowers(t: Tables, tmp: array<gf>, k: nat, n: nat, row: nat)
    requires t.Ready() && tmp !in t.Repr() && 1 <= k <= n <= 256 && tmp.Length == n * k && 1 <= row < n
    modifies tmp
    ensures t.Ready()
    ensures forall i :: 0 <= i < n && i != row ==> Rows(tmp[..], n, k)[i] == old(Rows(tmp[..], n, k))[i]
    ensures forall j :: 0 <= j < k ==> Rows(tmp[..], n, k)[row][j] == Power(Point(row), j)
  {
    hide Rows, Exp, Power, Point, t.Ready;
    for col := 0 to k
      invariant t.Ready()
      invariant forall i :: 0 <= i < n && i != row ==> Rows(tmp[..], n, k)[i] == old(Rows(tmp[..], n, k))[i]
      invariant forall j :: 0 <= j < col ==> Rows(tmp[..], n, k)[row][j] == Power(Point(row), j)
    {
      var entry := PowerEntry(t, row, col);
      PutCell(tmp, n, k, row, col, entry);
    }
  }

  /** A power of a point other than zero, by way of its logarithm. */
  method PowerEntry(t: Tables, row: nat, col: nat) returns (entry: gf)
    requires t.Ready() && 1 <= row
    ensures entry == Power(Point(row), col)
  {
    hide Exp, Power;
    var e := Modnn((row - 1) * col);
    ExpMod((row - 1) * col);
    PowerExp(row - 1, col);
    entry := t.exp[e];
  }

  lemma SameMatrix(m: Mat, n: nat, k: nat)
    requires Rect(m, n, k)
    requires forall i, j :: 0 <= i < n && 0 <= j < k ==> m[i][j] == Power(Point(i), j)
    ensures m == Vdm(FirstPoints(n), k)
  {
    hide Power, Exp;
    forall i | 0 <= i < n
      ensures m[i] == Vdm(FirstPoints(n), k)[i]
    {
      assert m[i] == Powers(Point(i), k);
    }
  }

  lemma TopRows(s: Vec, n: nat, k: nat)
    requires k <= n && k * k <= n * k <= |s|
    ensures Rows(s, k, k) == Rows(s, n, k)[..k]
  {
    forall i | 0 <= i < k
      ensures Rows(s, k, k)[i] == Rows(s, n, k)[i]
    {
    }
  }

  lemma RowsBelow(i: nat, k: nat)
    requires k <= i
    ensures k * k <= i * k
  {
  }

  lemma BottomRows(s: Vec, t: Vec, n: nat, k: nat, top: nat)
    requires k <= n && top == k * k && n * k <= |s| && |t| == |s|
    requires forall q :: top <= q < |s| ==> t[q] == s[q]
    ensures Rows(t, n, k)[k..] == Rows(s, n, k)[k..]
  {
    hide Rows;
    forall i | k <= i < n
      ensures Rows(t, n, k)[i] == Rows(s, n, k)[i]
    {
      var start := i * k;
      RowsBelow(i, k);
      RowCells(s, n, k, i, start);
      RowCells(t, n, k, i, start);
    }
  }

  /** The product of a matrix with k columns and one with k rows and m columns. */
  ghost function Product(a: Mat, b: Mat, k: nat, m: nat): (p: Mat)
    requires Rect(a, |a|, k) && Rect(b, k, m)
    ensures Rect(p, |a|, m)
  {
    seq(|a|, r requires 0 <= r < |a| => Multiplied(a[r], b, k, m))
  }

  /** The rows of a from a0 on, times b, into the rows of c from c0 on. */
  method MatMul(t: Tables, a: array<gf>, a0: nat, rowsA: nat, b: array<gf>, c: array<gf>, c0: nat, rowsC: nat,
                n: nat, k: nat, m: nat)
    requires t.Ready() && c !in t.Repr() && c != a && c != b
    requires rowsA == a0 + n && rowsC == c0 + n
    requires rowsA * k <= a.Length && k * m <= b.Length && rowsC * m <= c.Length
    modifies c
    ensures Rows(c[..], rowsC, m)[c0..] == Product(Rows(a[..], rowsA, k)[a0..], Rows(b[..], k, m), k, m)
    ensures Rows(c[..], rowsC, m)[..c0] == old(Rows(c[..], rowsC, m))[..c0]
  {
    hide Rows, Dot, Multiplied, t.Ready;
    ghost var ma, mb, mc := Rows(a[..], rowsA, k), Rows(b[..], k, m), Rows(c[..], rowsC, m);
    ghost var p := Product(ma[a0..], mb, k, m);
    assert Written(mc, p, c0, 0) == mc;
    for row := 0 to n
      invariant t.Ready()
      invariant Rows(c[..], rowsC, m) == Written(mc, p, c0, row)
    {
      MatMulRow(t, a, rowsA, a0 + row, b, c, rowsC, c0 + row, k, m);
      WriteNext(mc, p, c0, row);
    }
    assert Written(mc, p, c0, n)[c0..] == p && Written(mc, p, c0, n)[..c0] == mc[..c0];
  }

  /** A matrix with the first n rows of p written over its rows from c0 on. */
  ghost function Written(m: Mat, p: Mat, c0: nat, n: nat): (w: Mat)
    requires n <= |p| && c0 + n <= |m|
    ensures |w| == |m|
  {
    m[..c0] + p[..n] + m[c0 + n..]
  }

  lemma WriteNext(m: Mat, p: Mat, c0: nat, n: nat)
    requires n < |p| && c0 + n < |m|
    ensures Written(m, p, c0, n)[c0 + n := p[n]] == Written(m, p, c0, n + 1)
  {
  }

  /** One row of the product. */
  method MatMulRow(t: Tables, a: array<gf>, rowsA: nat, ar: nat, b: array<gf>, c: array<gf>, rowsC: nat, cr: nat,
                   k: nat, m: nat)
    requires t.Ready() && c !in t.Repr() && c != a && c != b && ar < rowsA && cr < rowsC
    requires rowsA * k <= a.Length && k * m <= b.Length && rowsC * m <= c.Length
    modifies c
    ensures t.Ready()
    ensures Rows(c[..], rowsC, m)
         == old(Rows(c[..], rowsC, m))[cr := Multiplied(Rows(a[..], rowsA, k)[ar], Rows(b[..], k, m), k, m)]
  {
    hide Rows, Dot, t.Ready;
    ghost var mc, product := Rows(c[..], rowsC, m), Multiplied(Rows(a[..], rowsA, k)[ar], Rows(b[..], k, m), k, m);
    for col := 0 to m
      invariant t.Ready()
      invariant forall r :: 0 <= r < rowsC && r != cr ==> Rows(c[..], rowsC, m)[r] == mc[r]
      invariant forall j :: 0 <= j < col ==> Rows(c[..], rowsC, m)[cr][j] == product[j]
    {
      var acc := DotProduct(t, a, rowsA, ar, b, k, m, col);
      PutCell(c, rowsC, m, cr, col, acc);
    }
    assert Rows(c[..], rowsC, m)[cr] == product;
  }

  function ReadCell(a: array<gf>, rows: nat, k: nat, i: nat, j: nat): (v: gf)
    requires rows * k <= a.Length && i < rows && j < k
    reads a
    ensures v == Rows(a[..], rows, k)[i][j]
  {
    CellAt(a[..], rows, k, i, j);
    a[i * k + j]
  }

  method DotProduct(t: Tables, a: array<gf>, rows: nat, row: nat, b: array<gf>, k: nat, m: nat,
                    col: nat) returns (acc: gf)
    requires t.Ready() && rows * k <= a.Length && k * m <= b.Length && row < rows && col < m
    ensures acc == Dot(Rows(a[..], rows, k)[row], Column(Rows(b[..], k, m), col), k)
  {
    hide Rows, Xor, Mul, t.Ready;
    ghost var u, v := Rows(a[..], rows, k)[row], Column(Rows(b[..], k, m), col);
    acc := 0;
    for i := 0 to k
      invariant t.Ready() && acc == Dot(u, v, i)
    {
      var x := ReadCell(a, rows, k, row, i);
      var y := ReadCell(b, k, m, i, col);
      MulRow(t, x);
      acc := Xor(acc, t.mul[x, y]);
    }
  }

  /** Clears the top k rows and writes ones down their diagonal. */
  method IdentityTop(enc: array<gf>, k: nat, n: nat)
    requires k <= n && enc.Length == n * k && k * k <= n * k
    modifies enc
    ensures forall i :: 0 <= i < k ==> Rows(enc[..], n, k)[i] == Unit(k, i)
    ensures Rows(enc[..], n, k)[k..] == old(Rows(enc[..], n, k))[k..]
  {
    hide Rows;
    ghost var s := enc[..];
    var top, size := k * k, n * k;
    for q := 0 to top
      invariant forall p :: 0 <= p < q ==> enc[p] == 0
      invariant forall p :: q <= p < size ==> enc[p] == s[p]
    {
      enc[q] := 0;
    }
    BottomRows(s, enc[..], n, k, top);
    ZeroRows(enc[..], n, k, top);
    ghost var z := Rows(enc[..], n, k);
    for col := 0 to k
      invariant forall i :: 0 <= i < col ==> Rows(enc[..], n, k)[i] == Unit(k, i)
      invariant forall i :: col <= i < n ==> Rows(enc[..], n, k)[i] == z[i]
    {
      PutCell(enc, n, k, col, col, 1);
      assert Rows(enc[..], n, k)[col] == Unit(k, col);
    }
  }

  lemma ZeroRows(s: Vec, n: nat, k: nat, top: nat)
    requires k <= n && top == k * k <= n * k <= |s| && forall p :: 0 <= p < top ==> s[p] == 0
    ensures forall i :: 0 <= i < k ==> Rows(s, n, k)[i] == Zeros(k)
  {
    hide Rows;
    forall i | 0 <= i < k
      ensures Rows(s, n, k)[i] == Zeros(k)
    {
      var start := i * k;
      RowFits(i, k, k);
      RowCells(s, n, k, i, start);
    }
  }

  method BuildMatrix(t: Tables, enc: array<gf>, k: nat, n: nat)
    requires t.Ready() && enc !in t.Repr() && 1 <= k <= n <= 256 && enc.Length == n * k
    modifies enc
    ensures EncodingMatrix(Rows(enc[..], n, k), k, n)
  {
    hide Rows, CodeInverse, Multiplied, EncodingMatrix, Point, Powers, Exp, t.Ready;
    SquareFits(k, n);
    var tmp := new gf[n * k];
    FillVandermonde(t, tmp, k, n);
    ghost var s := tmp[..];
    TopRows(s, n, k);
    assert Rows(s, k, k) == Vdm(FirstPoints(k), k);
    InvertVdm(t, tmp, k, FirstPoints(k));
    BottomRows(s, tmp[..], n, k, k * k);
    MatMul(t, tmp, k, n, tmp, enc, k, n, n - k, k, k);
    ghost var low := Rows(enc[..], n, k)[k..];
    IdentityTop(enc, k, n);
    assert Rows(enc[..], n, k)[k..] == low;
    BuiltMatrix(Rows(enc[..], n, k), k, n);
  }

  lemma SquareFits(k: nat, n: nat)
    requires k <= n
    ensures k * k <= n * k && (k + (n - k)) * k == n * k
  {
  }
}
