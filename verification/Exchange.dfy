/** Gauss-Jordan elimination in place, seen as an exchange of unknowns. A half-finished matrix
    stands for the relation between x and y == A0 * x in which the pivoted places of x and y have
    changed sides; each pivot step keeps that relation exactly, in both directions. */
module Exchange {
  import opened Gf
  import opened Vectors

  // ----- the row operations -----

  ghost function SwapRows(m: Mat, i: nat, j: nat): (r: Mat)
    requires i < |m| && j < |m|
  {
    m[i := m[j]][j := m[i]]
  }

  ghost function SwapAt(v: Vec, i: nat, j: nat): (w: Vec)
    requires i < |v| && j < |v|
    ensures |w| == |v|
  {
    v[i := v[j]][j := v[i]]
  }

  ghost function SwapColumns(m: Mat, k: nat, i: nat, j: nat): (n: Mat)
    requires Rect(m, |m|, k) && i < k && j < k
    ensures Rect(n, |m|, k)
  {
    seq(|m|, r requires 0 <= r < |m| => SwapAt(m[r], i, j))
  }

  /** The pivot row divided by its pivot, whose place receives the reciprocal. */
  ghost function Normalized(row: Vec, c: nat): (r: Vec)
    requires c < |row|
    ensures |r| == |row|
  {
    Scale(Inv(row[c]), row[c := 1])
  }

  ghost function EliminatedRow(row: Vec, pivot: Vec, c: nat): (r: Vec)
    requires |row| == |pivot| && c < |row|
    ensures |r| == |row|
  {
    Add(row[c := 0], Scale(row[c], pivot))
  }

  ghost function Eliminated(m: Mat, k: nat, c: nat): (n: Mat)
    requires Rect(m, k, k) && c < k
    ensures Rect(n, k, k)
  {
    seq(k, r requires 0 <= r < k => if r == c then m[c] else EliminatedRow(m[r], m[c], c))
  }

  ghost function Pivoted(m: Mat, k: nat, c: nat): (n: Mat)
    requires Rect(m, k, k) && c < k
    ensures Rect(n, k, k)
  {
    Eliminated(m[c := Normalized(m[c], c)], k, c)
  }

  /** A pivot row that is already a unit row leaves every other row alone. */
  lemma EliminateUnit(m: Mat, k: nat, c: nat)
    requires Rect(m, k, k) && c < k && m[c] == Unit(k, c)
    ensures Eliminated(m, k, c) == m
  {
    hide Xor, Mul;
    forall r | 0 <= r < k && r != c
      ensures EliminatedRow(m[r], m[c], c) == m[r]
    {
      forall j | 0 <= j < k
        ensures EliminatedRow(m[r], m[c], c)[j] == m[r][j]
      {
        MulZero(m[r][c]);
        MulOne(m[r][c]);
        XorZero(m[r][j]);
      }
    }
  }

  /** Dividing by one changes nothing. */
  lemma NormalizeOne(row: Vec, c: nat)
    requires c < |row| && row[c] == 1
    ensures Normalized(row, c) == row
  {
    hide Xor, Mul, Inv;
    MulInv(1);
    MulUnits(Inv(1));
    forall j | 0 <= j < |row|
      ensures Normalized(row, c)[j] == row[j]
    {
      MulUnits(row[j]);
    }
  }

  // ----- the exchanged relation -----

  /** p at the pivoted places, q elsewhere. */
  ghost function Mix(piv: seq<bool>, p: Vec, q: Vec): (m: Vec)
    requires |p| == |piv| && |q| == |piv|
    ensures |m| == |piv|
  {
    seq(|piv|, i requires 0 <= i < |piv| => if piv[i] then p[i] else q[i])
  }

  ghost predicate Related(a: Mat, piv: seq<bool>, x: Vec, y: Vec)
    requires Rect(a, |piv|, |piv|) && |x| == |piv| && |y| == |piv|
  {
    MatVec(a, Mix(piv, y, x)) == Mix(piv, x, y)
  }

  lemma SwapDotRow(a: Mat, u: Vec, i: nat, j: nat)
    requires Rect(a, |a|, |u|) && i < |a| && j < |a|
    ensures MatVec(SwapRows(a, i, j), u) == SwapAt(MatVec(a, u), i, j)
  {
    hide Dot;
  }

  /** Swapping two unpivoted rows swaps the two values they stand for. */
  lemma SwapStep(a: Mat, piv: seq<bool>, i: nat, j: nat, x: Vec, y: Vec)
    requires Rect(a, |piv|, |piv|) && |x| == |piv| && |y| == |piv|
    requires i < |piv| && j < |piv| && !piv[i] && !piv[j]
    ensures Related(a, piv, x, y) <==> Related(SwapRows(a, i, j), piv, x, SwapAt(y, i, j))
  {
    hide Dot;
    var u, w := Mix(piv, y, x), Mix(piv, x, y);
    assert Mix(piv, SwapAt(y, i, j), x) == u;
    assert Mix(piv, x, SwapAt(y, i, j)) == SwapAt(w, i, j);
    SwapDotRow(a, u, i, j);
    SwapAtTwice(MatVec(a, u), i, j);
    SwapAtTwice(w, i, j);
  }

  lemma SwapAtTwice(v: Vec, i: nat, j: nat)
    requires i < |v| && j < |v|
    ensures SwapAt(SwapAt(v, i, j), i, j) == v
  {
  }

  /** What one row says once the unknown at c has changed sides. */
  lemma PivotRowStep(row: Vec, c: nat, u: Vec, y: gf)
    requires |u| == |row| && c < |row| && row[c] != 0
    ensures Dot(row, u, |row|) == y <==> Dot(Normalized(row, c), u[c := y], |row|) == u[c]
  {
    hide Xor, Mul, Dot, Inv;
    var n, p, q := |row|, row[c], Inv(row[c]);
    var rest := Dot(row[c := 0], u, n);
    DotSplit(row, u, c, n);
    assert Dot(Normalized(row, c), u[c := y], n) == Mul(q, Xor(rest, y)) by {
      DotScaleLeft(q, row[c := 1], u[c := y], n);
      DotSplit(row[c := 1], u[c := y], c, n);
      assert row[c := 1][c := 0] == row[c := 0];
      DotIgnores(row[c := 0], u, c, y, n);
      MulUnits(y);
    }
    SolveForUnknown(p, q, rest, u[c], y);
  }

  /** rest + p x == y exactly when x == (rest + y) / p. */
  lemma SolveForUnknown(p: gf, q: gf, rest: gf, x: gf, y: gf)
    requires p != 0 && q == Inv(p)
    ensures Xor(rest, Mul(p, x)) == y <==> Mul(q, Xor(rest, y)) == x
  {
    hide Xor, Mul, Inv;
    MulInv(p);
    MulUnits(x);
    MulUnits(Xor(rest, y));
    MulAssoc(q, p, x);
    MulAssoc(p, q, Xor(rest, y));
    XorComm(rest, Mul(p, x));
    XorMove(Mul(p, x), rest, y);
    XorComm(y, rest);
  }

  /** Another row, once the solved unknown has been substituted into it. */
  lemma OtherRowStep(row: Vec, pivot: Vec, c: nat, u: Vec, y: gf)
    requires |u| == |row| == |pivot| && c < |row|
    requires Dot(pivot, u[c := y], |row|) == u[c]
    ensures Dot(EliminatedRow(row, pivot, c), u[c := y], |row|) == Dot(row, u, |row|)
  {
    hide Xor, Mul, Dot;
    var n := |row|;
    DotAddLeft(row[c := 0], Scale(row[c], pivot), u[c := y], n);
    DotScaleLeft(row[c], pivot, u[c := y], n);
    DotIgnores(row[c := 0], u, c, y, n);
    DotSplit(row, u, c, n);
  }

  /** One pivot step keeps the relation, with c now pivoted. */
  lemma PivotStep(a: Mat, piv: seq<bool>, c: nat, x: Vec, y: Vec)
    requires Rect(a, |piv|, |piv|) && |x| == |piv| && |y| == |piv|
    requires c < |piv| && !piv[c] && a[c][c] != 0
    ensures Related(a, piv, x, y) <==> Related(Pivoted(a, |piv|, c), piv[c := true], x, y)
  {
    hide Dot, Normalized, EliminatedRow, Related;
    var k := |piv|;
    var u, w := Mix(piv, y, x), Mix(piv, x, y);
    var a', piv' := Pivoted(a, k, c), piv[c := true];
    var u', w' := Mix(piv', y, x), Mix(piv', x, y);
    assert u' == u[c := y[c]] && w' == w[c := x[c]];
    RelatedRows(a, piv, x, y);
    RelatedRows(a', piv', x, y);
    PivotRowStep(a[c], c, u, y[c]);
    if Dot(a'[c], u', k) == x[c] {
      forall r | 0 <= r < k && r != c
        ensures Dot(a'[r], u', k) == Dot(a[r], u, k)
      {
        OtherRowStep(a[r], a'[c], c, u, y[c]);
      }
    }
  }

  lemma RelatedRows(a: Mat, piv: seq<bool>, x: Vec, y: Vec)
    requires Rect(a, |piv|, |piv|) && |x| == |piv| && |y| == |piv|
    ensures Related(a, piv, x, y) <==>
            forall r :: 0 <= r < |piv| ==> Dot(a[r], Mix(piv, y, x), |piv|) == Mix(piv, x, y)[r]
  {
    hide Dot;
    if forall r :: 0 <= r < |piv| ==> Dot(a[r], Mix(piv, y, x), |piv|) == Mix(piv, x, y)[r] {
      assert MatVec(a, Mix(piv, y, x)) == Mix(piv, x, y);
    } else {
      var r :| 0 <= r < |piv| && Dot(a[r], Mix(piv, y, x), |piv|) != Mix(piv, x, y)[r];
      assert MatVec(a, Mix(piv, y, x))[r] != Mix(piv, x, y)[r];
    }
  }

  // ----- whole runs -----

  type Swaps = seq<(nat, nat)>

  ghost predicate SwapsIn(sw: Swaps, k: nat) {
    forall i :: 0 <= i < |sw| ==> sw[i].0 < k && sw[i].1 < k
  }

  /** The first n swaps applied one after the other. */
  ghost function Permute(sw: Swaps, y: Vec, n: nat): (z: Vec)
    requires n <= |sw| && SwapsIn(sw, |y|)
    ensures |z| == |y|
  {
    if n == 0 then y else SwapAt(Permute(sw, y, n - 1), sw[n - 1].0, sw[n - 1].1)
  }

  lemma {:induction false} PermutePrefix(sw: Swaps, s: (nat, nat), y: Vec, n: nat)
    requires n <= |sw| && SwapsIn(sw, |y|) && SwapsIn(sw + [s], |y|)
    ensures Permute(sw + [s], y, n) == Permute(sw, y, n)
  {
    if n == 0 {
    } else {
      PermutePrefix(sw, s, y, n - 1);
    }
  }

  lemma {:induction false} PermuteZeros(sw: Swaps, y: Vec, n: nat)
    requires n <= |sw| && SwapsIn(sw, |y|)
    ensures Permute(sw, y, n) == Zeros(|y|) <==> y == Zeros(|y|)
  {
    if n == 0 {
    } else {
      PermuteZeros(sw, y, n - 1);
      var z, i, j := Permute(sw, y, n - 1), sw[n - 1].0, sw[n - 1].1;
      SwapAtTwice(z, i, j);
      assert SwapAt(Zeros(|y|), i, j) == Zeros(|y|);
    }
  }

  /** The working matrix a is the original a0 with its rows swapped by sw and the pivoted unknowns exchanged. */
  ghost predicate Exchanged(a: Mat, a0: Mat, piv: seq<bool>, sw: Swaps) {
    var k := |piv|;
    && Rect(a, k, k) && Rect(a0, k, k) && SwapsIn(sw, k)
    && forall x: Vec, y: Vec :: |x| == k && |y| == k ==>
         (Related(a, piv, x, y) <==> y == Permute(sw, MatVec(a0, x), |sw|))
  }

  lemma ExchangedStart(a: Mat, piv: seq<bool>)
    requires Rect(a, |piv|, |piv|) && forall i :: 0 <= i < |piv| ==> !piv[i]
    ensures Exchanged(a, a, piv, [])
  {
    hide Dot;
    forall x: Vec, y: Vec | |x| == |piv| && |y| == |piv|
      ensures Related(a, piv, x, y) <==> y == Permute([], MatVec(a, x), 0)
    {
      assert Mix(piv, y, x) == x && Mix(piv, x, y) == y;
    }
  }

  lemma ExchangedAt(a: Mat, a0: Mat, piv: seq<bool>, sw: Swaps, x: Vec, y: Vec)
    requires Exchanged(a, a0, piv, sw) && |x| == |piv| && |y| == |piv|
    ensures Related(a, piv, x, y) <==> y == Permute(sw, MatVec(a0, x), |sw|)
  {
    hide Dot, MatVec, Related, Permute;
  }

  lemma ExchangedShape(a: Mat, a0: Mat, piv: seq<bool>, sw: Swaps)
    requires Exchanged(a, a0, piv, sw)
    ensures Rect(a, |piv|, |piv|) && Rect(a0, |piv|, |piv|) && SwapsIn(sw, |piv|)
  {
    hide Dot, MatVec, Related, Permute;
  }

  lemma ExchangedRoundAt(a: Mat, a0: Mat, piv: seq<bool>, sw: Swaps, i: nat, c: nat, x: Vec, y: Vec)
    requires Exchanged(a, a0, piv, sw) && |x| == |piv| && |y| == |piv|
    requires i < |piv| && c < |piv| && !piv[i] && !piv[c] && |a[i]| == |piv| && a[i][c] != 0
    ensures Related(Pivoted(SwapRows(a, i, c), |piv|, c), piv[c := true], x, y)
       <==> y == Permute(sw + [(i, c)], MatVec(a0, x), |sw| + 1)
  {
    hide Dot, MatVec, Related, Pivoted, SwapAt, Exchanged;
    ExchangedShape(a, a0, piv, sw);
    var z := SwapAt(y, i, c);
    var p := Permute(sw, MatVec(a0, x), |sw|);
    PivotStep(SwapRows(a, i, c), piv, c, x, y);
    SwapStep(a, piv, i, c, x, z);
    ExchangedAt(a, a0, piv, sw, x, z);
    PermutePrefix(sw, (i, c), MatVec(a0, x), |sw|);
    SwapAtTwice(y, i, c);
    SwapAtTwice(p, i, c);
  }

  /** One round of the elimination: swap rows i and c, then pivot on c. */
  lemma ExchangedRound(a: Mat, a0: Mat, piv: seq<bool>, sw: Swaps, i: nat, c: nat)
    requires Exchanged(a, a0, piv, sw)
    requires i < |piv| && c < |piv| && !piv[i] && !piv[c] && a[i][c] != 0
    ensures Exchanged(Pivoted(SwapRows(a, i, c), |piv|, c), a0, piv[c := true], sw + [(i, c)])
  {
    hide Dot, MatVec, Related, Pivoted, Permute;
    forall x: Vec, y: Vec | |x| == |piv| && |y| == |piv|
      ensures Related(Pivoted(SwapRows(a, i, c), |piv|, c), piv[c := true], x, y)
         <==> y == Permute(sw + [(i, c)], MatVec(a0, x), |sw| + 1)
    {
      ExchangedRoundAt(a, a0, piv, sw, i, c, x, y);
    }
  }

  /** With only zeros outside the pivoted rows and columns, x solves the exchanged relation for y == 0. */
  lemma FreeSolution(a: Mat, piv: seq<bool>, free: nat, x: Vec)
    requires Rect(a, |piv|, |piv|) && |x| == |piv| && free < |piv| && !piv[free]
    requires forall r, c :: 0 <= r < |piv| && 0 <= c < |piv| && !piv[r] && !piv[c] ==> a[r][c] == 0
    requires forall r :: 0 <= r < |piv| ==> x[r] == if piv[r] then a[r][free] else if r == free then 1 else 0
    ensures Related(a, piv, x, Zeros(|piv|))
  {
    hide Dot, MatVec, Related;
    var k := |piv|;
    var y := Zeros(k);
    assert Mix(piv, y, x) == Unit(k, free);
    forall r | 0 <= r < k
      ensures Dot(a[r], Mix(piv, y, x), k) == Mix(piv, x, y)[r]
    {
      DotUnit(a[r], free, k);
    }
    RelatedRows(a, piv, x, y);
  }

  lemma NonsingularZero(a: Mat, k: nat, v: Vec)
    requires Nonsingular(a, k) && |v| == k && MatVec(a, v) == Zeros(k)
    ensures v == Zeros(k)
  {
    hide Dot, MatVec;
  }

  /** While a column is left, a nonsingular matrix still has a pivot outside the pivoted rows and columns. */
  lemma PivotExists(a: Mat, a0: Mat, piv: seq<bool>, sw: Swaps, free: nat)
    requires Rect(a, |piv|, |piv|)
    requires Exchanged(a, a0, piv, sw) && Nonsingular(a0, |piv|)
    requires free < |piv| && !piv[free]
    ensures exists r, c :: 0 <= r < |piv| && 0 <= c < |piv| && !piv[r] && !piv[c] && a[r][c] != 0
  {
    var k := |piv|;
    hide Dot, MatVec, Related, Permute, Exchanged, Nonsingular;
    ExchangedShape(a, a0, piv, sw);
    if forall r, c :: 0 <= r < k && 0 <= c < k && !piv[r] && !piv[c] ==> a[r][c] == 0 {
      var x := FreeVector(a, piv, free);
      assert x[free] != Zeros(k)[free];
      FreeSolution(a, piv, free, x);
      ExchangedAt(a, a0, piv, sw, x, Zeros(k));
      PermuteZeros(sw, MatVec(a0, x), |sw|);
      NonsingularZero(a0, k, x);
    }
  }

  /** Once every column has been pivoted on, the original matrix was nonsingular. */
  lemma AllPivoted(a: Mat, a0: Mat, piv: seq<bool>, sw: Swaps)
    requires Exchanged(a, a0, piv, sw) && forall i :: 0 <= i < |piv| ==> piv[i]
    ensures Nonsingular(a0, |piv|)
  {
    hide Dot, MatVec, Related, Permute, Exchanged;
    var k := |piv|;
    ExchangedShape(a, a0, piv, sw);
    forall v: Vec | |v| == k && MatVec(a0, v) == Zeros(k)
      ensures v == Zeros(k)
    {
      ExchangedAt(a, a0, piv, sw, v, Zeros(k));
      PermuteZeros(sw, Zeros(k), |sw|);
      PivotedRelation(a, piv, v);
    }
  }

  lemma PivotedRelation(a: Mat, piv: seq<bool>, x: Vec)
    requires Rect(a, |piv|, |piv|) && |x| == |piv| && Related(a, piv, x, Zeros(|piv|))
    requires forall i :: 0 <= i < |piv| ==> piv[i]
    ensures x == Zeros(|piv|)
  {
    hide Dot;
    var k := |piv|;
    assert Mix(piv, Zeros(k), x) == Zeros(k) && Mix(piv, x, Zeros(k)) == x;
    forall r | 0 <= r < k
      ensures x[r] == 0
    {
      DotZero(a[r], Zeros(k), k);
    }
  }

  ghost function FreeVector(a: Mat, piv: seq<bool>, free: nat): (x: Vec)
    requires Rect(a, |piv|, |piv|) && free < |piv|
    ensures |x| == |piv|
    ensures forall r :: 0 <= r < |piv| ==> x[r] == if piv[r] then a[r][free] else if r == free then 1 else 0
  {
    seq(|piv|, r requires 0 <= r < |piv| => if piv[r] then a[r][free] else if r == free then 1 else 0)
  }

  // ----- unscrambling the columns -----

  lemma DotSwapColumns(row: Vec, v: Vec, i: nat, j: nat)
    requires |row| == |v| && i < |v| && j < |v|
    ensures Dot(SwapAt(row, i, j), v, |v|) == Dot(row, SwapAt(v, i, j), |v|)
  {
    hide Xor, Mul, Dot;
    if i == j {
      assert SwapAt(row, i, j) == row && SwapAt(v, i, j) == v;
    } else {
      var n, row', v' := |v|, SwapAt(row, i, j), SwapAt(v, i, j);
      DotSplit(row', v, i, n);
      DotSplit(row'[i := 0], v, j, n);
      DotSplit(row, v', i, n);
      DotSplit(row[i := 0], v', j, n);
      var z, z' := row[i := 0][j := 0], row'[i := 0][j := 0];
      assert z == z';
      DotIgnores(z, v, i, v[j], n);
      DotIgnores(z, v[i := v[j]], j, v[i], n);
      var d := Dot(z, v, n);
      XorAssoc(d, Mul(row[i], v[j]), Mul(row[j], v[i]));
      XorAssoc(d, Mul(row[j], v[i]), Mul(row[i], v[j]));
      XorComm(Mul(row[i], v[j]), Mul(row[j], v[i]));
    }
  }

  lemma SwapColumnsMatVec(a: Mat, k: nat, v: Vec, i: nat, j: nat)
    requires Rect(a, k, k) && |v| == k && i < k && j < k
    ensures MatVec(SwapColumns(a, k, i, j), v) == MatVec(a, SwapAt(v, i, j))
  {
    hide Dot;
    forall r | 0 <= r < k
      ensures Dot(SwapAt(a[r], i, j), v, k) == Dot(a[r], SwapAt(v, i, j), k)
    {
      DotSwapColumns(a[r], v, i, j);
    }
  }

  /** a takes the values permuted by the first n swaps back to the unknowns. */
  ghost predicate Unscrambled(a: Mat, a0: Mat, k: nat, sw: Swaps, n: nat) {
    && n <= |sw| && SwapsIn(sw, k) && Rect(a, k, k) && Rect(a0, k, k)
    && forall x: Vec, y: Vec {:trigger MatVec(a0, x), MatVec(a, y)} :: |x| == k && |y| == k ==>
         (MatVec(a, y) == x <==> y == Permute(sw, MatVec(a0, x), n))
  }

  lemma UnscrambleStart(a: Mat, a0: Mat, piv: seq<bool>, sw: Swaps)
    requires Exchanged(a, a0, piv, sw) && forall i :: 0 <= i < |piv| ==> piv[i]
    ensures Unscrambled(a, a0, |piv|, sw, |sw|)
  {
    hide Dot, MatVec;
    forall x: Vec, y: Vec | |x| == |piv| && |y| == |piv|
      ensures MatVec(a, y) == x <==> y == Permute(sw, MatVec(a0, x), |sw|)
    {
      assert Mix(piv, y, x) == y && Mix(piv, x, y) == x;
      assert Related(a, piv, x, y) <==> MatVec(a, y) == x;
    }
  }

  lemma UnscrambleStep(a: Mat, a0: Mat, k: nat, sw: Swaps, n: nat)
    requires Unscrambled(a, a0, k, sw, n + 1)
    ensures Unscrambled(SwapColumns(a, k, sw[n].0, sw[n].1), a0, k, sw, n)
  {
    hide Dot, MatVec, SwapColumns;
    var i, j := sw[n].0, sw[n].1;
    var b := SwapColumns(a, k, i, j);
    forall x: Vec, y: Vec | |x| == k && |y| == k
      ensures MatVec(b, y) == x <==> y == Permute(sw, MatVec(a0, x), n)
    {
      var z := SwapAt(y, i, j);
      SwapColumnsMatVec(a, k, y, i, j);
      SwapAtTwice(y, i, j);
      SwapAtTwice(Permute(sw, MatVec(a0, x), n), i, j);
      assert MatVec(a, z) == x <==> z == Permute(sw, MatVec(a0, x), n + 1);
    }
  }

  lemma UnscrambleEnd(a: Mat, a0: Mat, k: nat, sw: Swaps)
    requires Unscrambled(a, a0, k, sw, 0)
    ensures Inverse(a, a0, k)
  {
    hide Dot, MatVec;
    forall v: Vec, w: Vec | |v| == k && |w| == k
      ensures MatVec(a0, v) == w <==> MatVec(a, w) == v
    {
      assert MatVec(a, w) == v <==> w == Permute(sw, MatVec(a0, v), 0);
    }
  }
}
