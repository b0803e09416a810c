/** Matrices stored row after row in one array, and the row operation all of fec.c is built on. */
module Layout {
  import opened Gf
  import opened GfTables
  import opened Vectors

  lemma RowFits(i: nat, rows: nat, k: nat)
    requires i < rows
    ensures i * k + k <= rows * k
  {
    assert (i + 1) * k <= rows * k;
  }

  lemma RowsApart(i: nat, j: nat, k: nat)
    requires i < j
    ensures i * k + k <= j * k
  {
    RowFits(i, j, k);
  }

  /** Where row i of width k starts. */
  function RowStart(i: nat, k: nat): (start: nat) {
    i * k
  }

  ghost function RowAt(s: Vec, rows: nat, k: nat, i: nat): (row: Vec)
    requires rows * k <= |s| && i < rows
    ensures |row| == k
  {
    RowFits(i, rows, k);
    var start := i * k;
    s[start..start + k]
  }

  /** The first `rows` rows of width k. */
  ghost function Rows(s: Vec, rows: nat, k: nat): (m: Mat)
    requires rows * k <= |s|
    ensures Rect(m, rows, k)
  {
    seq(rows, i requires 0 <= i < rows => RowAt(s, rows, k, i))
  }

  lemma CellAt(s: Vec, rows: nat, k: nat, i: nat, j: nat)
    requires rows * k <= |s| && i < rows && j < k
    ensures i * k + j < rows * k && Rows(s, rows, k)[i][j] == s[i * k + j]
  {
    RowFits(i, rows, k);
  }

  lemma RowCells(s: Vec, rows: nat, k: nat, i: nat, start: nat)
    requires rows * k <= |s| && i < rows && start == i * k
    ensures start + k <= rows * k && Rows(s, rows, k)[i] == s[start..start + k]
  {
    RowFits(i, rows, k);
  }

  /** Changing one row's cells changes that row only. */
  lemma RowUpdate(s: Vec, t: Vec, rows: nat, k: nat, i: nat, start: nat)
    requires rows * k <= |s| && |t| == |s| && i < rows && start == i * k
    requires forall q :: 0 <= q < |s| && !(start <= q < start + k) ==> t[q] == s[q]
    ensures start + k <= |s|
    ensures Rows(t, rows, k) == Rows(s, rows, k)[i := t[start..start + k]]
  {
    hide Rows;
    RowCells(t, rows, k, i, start);
    forall r | 0 <= r < rows && r != i
      ensures Rows(t, rows, k)[r] == Rows(s, rows, k)[r]
    {
      var from := r * k;
      RowCells(s, rows, k, r, from);
      RowCells(t, rows, k, r, from);
      if r < i { RowsApart(r, i, k); } else { RowsApart(i, r, k); }
    }
  }

  ghost function SetCell(m: Mat, i: nat, j: nat, v: gf): (r: Mat)
    requires i < |m| && j < |m[i]|
  {
    var row: Vec := m[i];
    m[i := row[j := v]]
  }

  method PutCell(dst: array<gf>, rows: nat, k: nat, i: nat, j: nat, v: gf)
    requires rows * k <= dst.Length && i < rows && j < k
    modifies dst
    ensures Rows(dst[..], rows, k) == SetCell(old(Rows(dst[..], rows, k)), i, j, v)
    ensures forall q :: rows * k <= q < dst.Length ==> dst[q] == old(dst[q])
  {
    hide Rows;
    ghost var was := dst[..];
    var start := i * k;
    RowCells(was, rows, k, i, start);
    dst[start + j] := v;
    RowUpdate(was, dst[..], rows, k, i, start);
    assert dst[start..start + k] == was[start..start + k][j := v];
  }

  method AddMulFour(t: Tables, dst: array<gf>, d: nat, src: array<gf>, s: nat, c: gf)
    requires t.Ready() && dst !in t.Repr()
    requires d + 4 <= dst.Length && s + 4 <= src.Length
    requires dst != src || d + 4 <= s || s + 4 <= d
    modifies dst
    ensures forall i :: 0 <= i < dst.Length ==>
              dst[i] == if d <= i < d + 4 then Xor(old(dst[i]), Mul(c, old(src[s + (i - d)]))) else old(dst[i])
  {
    hide Xor, Mul, t.Ready;
    MulRow(t, c);
    dst[d] := Xor(dst[d], t.mul[c, src[s]]);
    dst[d + 1] := Xor(dst[d + 1], t.mul[c, src[s + 1]]);
    dst[d + 2] := Xor(dst[d + 2], t.mul[c, src[s + 2]]);
    dst[d + 3] := Xor(dst[d + 3], t.mul[c, src[s + 3]]);
  }

  /** One unrolled round: sixteen bytes with the multiplication row held fixed. */
  method AddMulSixteen(t: Tables, dst: array<gf>, d: nat, src: array<gf>, s: nat, c: gf)
    requires t.Ready() && dst !in t.Repr()
    requires d + 16 <= dst.Length && s + 16 <= src.Length
    requires dst != src || d + 16 <= s || s + 16 <= d
    modifies dst
    ensures forall i :: 0 <= i < dst.Length ==>
              dst[i] == if d <= i < d + 16 then Xor(old(dst[i]), Mul(c, old(src[s + (i - d)]))) else old(dst[i])
  {
    hide Xor, Mul, t.Ready;
    AddMulFour(t, dst, d, src, s, c);
    AddMulFour(t, dst, d + 4, src, s + 4, c);
    AddMulFour(t, dst, d + 8, src, s + 8, c);
    AddMulFour(t, dst, d + 12, src, s + 12, c);
  }

  lemma MulRow(t: Tables, c: gf)
    requires t.Ready()
    ensures t.mul.Length0 == 256 && t.mul.Length1 == 256
    ensures forall y: gf :: t.mul[c, y] == Mul(c, y)
  {
    hide Mul;
  }

  lemma InverseEntry(t: Tables, c: gf)
    requires t.Ready()
    ensures t.inverse.Length == 256 && t.inverse[c] == Inv(c)
  {
  }

  const UNROLL := 16

  /** dst[d..d + sz] += c * src[s..s + sz]: whole rounds of sixteen, then the final bytes one by one. */
  method AddMul1(t: Tables, dst: array<gf>, d: nat, src: array<gf>, s: nat, c: gf, sz: nat)
    requires t.Ready() && dst !in t.Repr()
    requires d + sz <= dst.Length && s + sz <= src.Length
    requires dst != src || d + sz <= s || s + sz <= d
    modifies dst
    ensures forall i :: 0 <= i < dst.Length ==>
              dst[i] == if d <= i < d + sz then Xor(old(dst[i]), Mul(c, old(src[s + (i - d)]))) else old(dst[i])
  {
    hide Xor, Mul, t.Ready;
    var p := 0;
    var lim := sz - UNROLL + 1;
    while p < lim
      invariant 0 <= p <= sz
      invariant forall i :: 0 <= i < dst.Length ==>
                  dst[i] == if d <= i < d + p then Xor(old(dst[i]), Mul(c, old(src[s + (i - d)]))) else old(dst[i])
    {
      AddMulSixteen(t, dst, d + p, src, s + p, c);
      p := p + UNROLL;
    }
    lim := lim + UNROLL - 1;
    while p < lim
      invariant 0 <= p <= sz
      invariant forall i :: 0 <= i < dst.Length ==>
                  dst[i] == if d <= i < d + p then Xor(old(dst[i]), Mul(c, old(src[s + (i - d)]))) else old(dst[i])
    {
      MulRow(t, c);
      dst[d + p] := Xor(dst[d + p], t.mul[c, src[s + p]]);
      p := p + 1;
    }
  }

  /** The macro around it: nothing to do for c == 0. */
  method AddMul(t: Tables, dst: array<gf>, d: nat, src: array<gf>, s: nat, c: gf, sz: nat)
    requires t.Ready() && dst !in t.Repr()
    requires d + sz <= dst.Length && s + sz <= src.Length
    requires dst != src || d + sz <= s || s + sz <= d
    modifies dst
    ensures forall i :: 0 <= i < dst.Length ==>
              dst[i] == if d <= i < d + sz then Xor(old(dst[i]), Mul(c, old(src[s + (i - d)]))) else old(dst[i])
  {
    hide Xor, Mul, t.Ready;
    if c != 0 {
      AddMul1(t, dst, d, src, s, c, sz);
    } else {
      forall i | d <= i < d + sz
        ensures dst[i] == Xor(dst[i], Mul(c, src[s + (i - d)]))
      {
        MulUnits(src[s + (i - d)]);
        XorZero(dst[i]);
      }
    }
  }
}
