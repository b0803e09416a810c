/** Vectors and matrices over GF(2^8). */
module Vectors {
  import opened Gf

  type Vec = seq<gf>
  type Mat = seq<Vec>

  ghost predicate Rect(m: Mat, rows: nat, cols: nat) {
    |m| == rows && forall i :: 0 <= i < rows ==> |m[i]| == cols
  }

  /** The sum of a[j] * b[j] over the first n places. */
  ghost function Dot(a: Vec, b: Vec, n: nat): (v: gf)
    requires n <= |a| && n <= |b|
  {
    if n == 0 then 0 else Xor(Dot(a, b, n - 1), Mul(a[n - 1], b[n - 1]))
  }

  ghost function Zeros(n: nat): (v: Vec) {
    seq(n, _ => 0)
  }

  ghost function Unit(n: nat, i: nat): (v: Vec) {
    seq(n, j => if j == i then 1 else 0)
  }

  ghost function Add(a: Vec, b: Vec): (c: Vec)
    requires |a| == |b|
    ensures |c| == |a|
    ensures forall j :: 0 <= j < |a| ==> c[j] == Xor(a[j], b[j])
  {
    seq(|a|, j requires 0 <= j < |a| => Xor(a[j], b[j]))
  }

  ghost function Scale(c: gf, a: Vec): (b: Vec)
    ensures |b| == |a|
    ensures forall j :: 0 <= j < |a| ==> b[j] == Mul(c, a[j])
  {
    seq(|a|, j requires 0 <= j < |a| => Mul(c, a[j]))
  }

  lemma {:induction false} DotComm(a: Vec, b: Vec, n: nat)
    requires n <= |a| && n <= |b|
    ensures Dot(a, b, n) == Dot(b, a, n)
  {
    hide Xor, Mul;
    if n == 0 {
    } else {
      DotComm(a, b, n - 1);
      MulComm(a[n - 1], b[n - 1]);
    }
  }

  lemma {:induction false} DotSame(a: Vec, b: Vec, c: Vec, d: Vec, n: nat)
    requires n <= |a| && n <= |b| && n <= |c| && n <= |d|
    requires forall j :: 0 <= j < n ==> a[j] == c[j] && b[j] == d[j]
    ensures Dot(a, b, n) == Dot(c, d, n)
  {
    hide Xor, Mul;
    if n == 0 {
    } else {
      DotSame(a, b, c, d, n - 1);
    }
  }

  lemma {:induction false} DotZero(a: Vec, b: Vec, n: nat)
    requires n <= |a| && n <= |b|
    requires forall j :: 0 <= j < n ==> b[j] == 0
    ensures Dot(a, b, n) == 0
  {
    hide Xor, Mul;
    if n == 0 {
    } else {
      DotZero(a, b, n - 1);
      MulZero(a[n - 1]);
      XorZero(0);
    }
  }

  lemma {:induction false} DotAdd(a: Vec, b: Vec, c: Vec, n: nat)
    requires n <= |a| && |b| == |c| && n <= |b|
    ensures Dot(a, Add(b, c), n) == Xor(Dot(a, b, n), Dot(a, c, n))
  {
    hide Xor, Mul;
    if n == 0 {
      XorZero(0);
    } else {
      DotAdd(a, b, c, n - 1);
      MulAddRight(a[n - 1], b[n - 1], c[n - 1]);
      XorSwap(Dot(a, b, n - 1), Dot(a, c, n - 1), Mul(a[n - 1], b[n - 1]), Mul(a[n - 1], c[n - 1]));
    }
  }

  lemma DotAddLeft(a: Vec, b: Vec, c: Vec, n: nat)
    requires |a| == |b| && n <= |a| && n <= |c|
    ensures Dot(Add(a, b), c, n) == Xor(Dot(a, c, n), Dot(b, c, n))
  {
    hide Xor, Mul, Dot;
    DotComm(Add(a, b), c, n);
    DotComm(a, c, n);
    DotComm(b, c, n);
    DotAdd(c, a, b, n);
  }

  lemma {:induction false} DotScaleLeft(e: gf, a: Vec, b: Vec, n: nat)
    requires n <= |a| && n <= |b|
    ensures Dot(Scale(e, a), b, n) == Mul(e, Dot(a, b, n))
  {
    hide Xor, Mul;
    if n == 0 {
      MulZero(e);
    } else {
      DotScaleLeft(e, a, b, n - 1);
      MulAssoc(e, a[n - 1], b[n - 1]);
      MulAddRight(e, Dot(a, b, n - 1), Mul(a[n - 1], b[n - 1]));
    }
  }

  /** Splits the r-th term off. */
  lemma {:induction false} DotSplit(a: Vec, b: Vec, r: nat, n: nat)
    requires |a| == |b| && n <= |a| && r < |a|
    ensures Dot(a, b, n) == if r < n then Xor(Dot(a[r := 0], b, n), Mul(a[r], b[r])) else Dot(a[r := 0], b, n)
  {
    hide Xor, Mul;
    if n == 0 {
    } else {
      DotSplit(a, b, r, n - 1);
      var d, t := Dot(a[r := 0], b, n - 1), Mul(a[n - 1], b[n - 1]);
      if r < n - 1 {
        XorAssoc(d, Mul(a[r], b[r]), t);
        XorComm(Mul(a[r], b[r]), t);
        XorAssoc(d, t, Mul(a[r], b[r]));
      } else if r == n - 1 {
        MulUnits(b[r]);
        XorZero(d);
      }
    }
  }

  /** Where the r-th coefficient is zero, the r-th operand does not matter. */
  lemma {:induction false} DotIgnores(a: Vec, b: Vec, r: nat, v: gf, n: nat)
    requires |a| == |b| && n <= |a| && r < |a| && a[r] == 0
    ensures Dot(a, b[r := v], n) == Dot(a, b, n)
  {
    hide Xor, Mul;
    if n == 0 {
    } else {
      DotIgnores(a, b, r, v, n - 1);
      MulUnits(v);
      MulUnits(b[r]);
    }
  }

  lemma {:induction false} DotUnit(a: Vec, i: nat, n: nat)
    requires n <= |a| && i < |a|
    ensures Dot(a, Unit(|a|, i), n) == if i < n then a[i] else 0
  {
    hide Xor, Mul;
    if n == 0 {
    } else {
      DotUnit(a, i, n - 1);
      MulZero(a[n - 1]);
      MulOne(a[n - 1]);
      XorZero(a[n - 1]);
      XorZero(a[i]);
      XorZero(0);
    }
  }

  // ----- matrices -----

  ghost function MatVec(m: Mat, v: Vec): (w: Vec)
    requires Rect(m, |m|, |v|)
    ensures |w| == |m|
    ensures forall i :: 0 <= i < |m| ==> w[i] == Dot(m[i], v, |v|)
  {
    seq(|m|, i requires 0 <= i < |m| => Dot(m[i], v, |v|))
  }

  /** b undoes a, and a undoes b. */
  ghost predicate Inverse(b: Mat, a: Mat, k: nat) {
    && Rect(a, k, k) && Rect(b, k, k)
    && forall v: Vec, w: Vec {:trigger MatVec(a, v), MatVec(b, w)} :: |v| == k && |w| == k ==>
       (MatVec(a, v) == w <==> MatVec(b, w) == v)
  }

  /** Only the zero vector is sent to zero. */
  ghost predicate Nonsingular(a: Mat, k: nat) {
    && Rect(a, k, k)
    && forall v: Vec :: |v| == k && MatVec(a, v) == Zeros(k) ==> v == Zeros(k)
  }

  /** The combination of the first n rows of m with the coefficients r. */
  ghost function Combine(r: Vec, m: Mat, n: nat, cols: nat): (v: Vec)
    requires n <= |r| && n <= |m| && Rect(m, |m|, cols)
    ensures |v| == cols
  {
    if n == 0 then Zeros(cols) else Add(Combine(r, m, n - 1, cols), Scale(r[n - 1], m[n - 1]))
  }

  /** Combining rows and then multiplying is multiplying and then combining. */
  lemma {:induction false} CombineDot(r: Vec, m: Mat, n: nat, v: Vec)
    requires n <= |r| && n <= |m| && Rect(m, |m|, |v|)
    ensures Dot(Combine(r, m, n, |v|), v, |v|) == Dot(r, MatVec(m, v), n)
  {
    hide Xor, Mul;
    if n == 0 {
      DotComm(Zeros(|v|), v, |v|);
      DotZero(v, Zeros(|v|), |v|);
    } else {
      CombineDot(r, m, n - 1, v);
      var c := Combine(r, m, n - 1, |v|);
      DotAddLeft(c, Scale(r[n - 1], m[n - 1]), v, |v|);
      DotScaleLeft(r[n - 1], m[n - 1], v, |v|);
    }
  }

  ghost function Column(m: Mat, j: nat): (c: Vec)
    requires forall i :: 0 <= i < |m| ==> j < |m[i]|
    ensures |c| == |m|
  {
    seq(|m|, i requires 0 <= i < |m| => m[i][j])
  }

  lemma {:induction false} CombineAt(r: Vec, m: Mat, n: nat, cols: nat, j: nat)
    requires n <= |r| && n <= |m| && Rect(m, |m|, cols) && j < cols
    ensures Combine(r, m, n, cols)[j] == Dot(r, Column(m, j), n)
  {
    hide Xor, Mul;
    if n == 0 {
    } else {
      CombineAt(r, m, n - 1, cols, j);
    }
  }

  lemma MatVecAdd(m: Mat, v: Vec, w: Vec)
    requires |v| == |w| && Rect(m, |m|, |v|)
    ensures MatVec(m, Add(v, w)) == Add(MatVec(m, v), MatVec(m, w))
  {
    hide Xor, Mul, Dot;
    forall i | 0 <= i < |m|
      ensures MatVec(m, Add(v, w))[i] == Add(MatVec(m, v), MatVec(m, w))[i]
    {
      DotAdd(m[i], v, w, |v|);
    }
  }

  /** A nonsingular matrix tells vectors apart. */
  lemma NonsingularInjective(m: Mat, k: nat, v: Vec, w: Vec)
    requires Nonsingular(m, k) && |v| == k && |w| == k
    requires MatVec(m, v) == MatVec(m, w)
    ensures v == w
  {
    hide Xor, Mul, Dot;
    MatVecAdd(m, v, w);
    var d := Add(v, w);
    forall i | 0 <= i < k
      ensures MatVec(m, d)[i] == 0
    {
      XorSelf(MatVec(m, v)[i]);
    }
    assert MatVec(m, d) == Zeros(k);
    forall i | 0 <= i < k
      ensures v[i] == w[i]
    {
      assert d[i] == 0;
      XorEqual(v[i], w[i]);
    }
  }

  /** A right inverse of a nonsingular matrix is its inverse. */
  lemma RightInverse(b: Mat, a: Mat, k: nat)
    requires Nonsingular(a, k) && Rect(b, k, k)
    requires forall w: Vec :: |w| == k ==> MatVec(a, MatVec(b, w)) == w
    ensures Inverse(b, a, k)
  {
    hide Xor, Mul, Dot;
    forall v: Vec, w: Vec | |v| == k && |w| == k
      ensures MatVec(a, v) == w <==> MatVec(b, w) == v
    {
      if MatVec(a, v) == w {
        NonsingularInjective(a, k, v, MatVec(b, w));
      }
    }
  }
}
