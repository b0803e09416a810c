/** _invert_mat: Gauss-Jordan elimination of a matrix stored row after row, in place. */
module GaussJordan {
  import opened Gf
  import opened GfTables
  import opened Vectors
  import opened Layout
  import opened Exchange
  import opened Wrappers

  /** Which columns have been pivoted on. */
  ghost function Pivots(ipiv: seq<nat>): (piv: seq<bool>)
    ensures |piv| == |ipiv|
  {
    seq(|ipiv|, i requires 0 <= i < |ipiv| => ipiv[i] == 1)
  }

  ghost predicate IsPivot(m: Mat, ipiv: seq<nat>, r: int, c: int)
    requires Rect(m, |ipiv|, |ipiv|)
  {
    0 <= r < |ipiv| && 0 <= c < |ipiv| && ipiv[r] != 1 && ipiv[c] != 1 && m[r][c] != 0
  }

  /** No place has been pivoted on twice. */
  ghost predicate Single(ipiv: seq<nat>) {
    forall i :: 0 <= i < |ipiv| ==> ipiv[i] <= 1
  }

  /** What a search for a pivot comes to. */
  datatype Place = Failed | Nowhere | At(row: nat, col: nat)

  /** The scan of one row from column ix on: the first nonzero entry in a column not pivoted on, unless a column
      pivoted on twice comes before it. */
  ghost function ScanRow(m: Mat, ipiv: seq<nat>, row: nat, ix: nat): (place: Place)
    requires Rect(m, |ipiv|, |ipiv|) && row < |ipiv| && ix <= |ipiv|
    ensures place.At? ==> place.row == row && place.col < |ipiv|
    decreases |ipiv| - ix
  {
    if ix == |ipiv| then Nowhere
    else if ipiv[ix] == 0 && m[row][ix] != 0 then At(row, ix)
    else if ipiv[ix] > 1 then Failed
    else ScanRow(m, ipiv, row, ix + 1)
  }

  /** The scan of the rows from `row` on, without those pivoted on. */
  ghost function Scan(m: Mat, ipiv: seq<nat>, row: nat): (place: Place)
    requires Rect(m, |ipiv|, |ipiv|) && row <= |ipiv|
    ensures place.At? ==> place.row < |ipiv| && place.col < |ipiv|
    decreases |ipiv| - row
  {
    if row == |ipiv| then Nowhere
    else if ipiv[row] == 1 || ScanRow(m, ipiv, row, 0).Nowhere? then Scan(m, ipiv, row + 1)
    else ScanRow(m, ipiv, row, 0)
  }

  /** The search of round col: on the diagonal first. */
  ghost function Search(m: Mat, ipiv: seq<nat>, col: nat): (place: Place)
    requires Rect(m, |ipiv|, |ipiv|) && col < |ipiv|
    ensures place.At? ==> place.row < |ipiv| && place.col < |ipiv|
  {
    if ipiv[col] != 1 && m[col][col] != 0 then At(col, col) else Scan(m, ipiv, 0)
  }

  lemma {:induction false} ScanRowMeans(m: Mat, ipiv: seq<nat>, row: nat, ix: nat)
    requires Rect(m, |ipiv|, |ipiv|) && row < |ipiv| && ix <= |ipiv| && Single(ipiv) && ipiv[row] != 1
    ensures match ScanRow(m, ipiv, row, ix)
            case Failed => false
            case At(r, c) => IsPivot(m, ipiv, r, c)
            case Nowhere => forall c :: ix <= c ==> !IsPivot(m, ipiv, row, c)
    decreases |ipiv| - ix
  {
    if ix == |ipiv| {
    } else {
      ScanRowMeans(m, ipiv, row, ix + 1);
    }
  }

  lemma {:induction false} ScanMeans(m: Mat, ipiv: seq<nat>, row: nat)
    requires Rect(m, |ipiv|, |ipiv|) && row <= |ipiv| && Single(ipiv)
    ensures match Scan(m, ipiv, row)
            case Failed => false
            case At(r, c) => IsPivot(m, ipiv, r, c)
            case Nowhere => forall r, c :: row <= r ==> !IsPivot(m, ipiv, r, c)
    decreases |ipiv| - row
  {
    hide Single, ScanRow;
    if row == |ipiv| {
    } else {
      if ipiv[row] != 1 {
        ScanRowMeans(m, ipiv, row, 0);
      }
      ScanMeans(m, ipiv, row + 1);
    }
  }

  /** While no place has been pivoted on twice, the search finds a pivot exactly if there is one. */
  lemma SearchMeans(m: Mat, ipiv: seq<nat>, col: nat)
    requires Rect(m, |ipiv|, |ipiv|) && col < |ipiv| && Single(ipiv)
    ensures match Search(m, ipiv, col)
            case Failed => false
            case At(r, c) => IsPivot(m, ipiv, r, c)
            case Nowhere => forall r, c :: !IsPivot(m, ipiv, r, c)
  {
    hide Single, Scan;
    ScanMeans(m, ipiv, 0);
  }

  /** The scan ends at this entry: in a row not pivoted on, in a column not pivoted on if it is nonzero, or in any
      column pivoted on twice. */
  ghost predicate Stops(m: Mat, ipiv: seq<nat>, r: int, c: int)
    requires Rect(m, |ipiv|, |ipiv|) && 0 <= r < |ipiv| && 0 <= c < |ipiv|
  {
    ipiv[r] != 1 && ((ipiv[c] == 0 && m[r][c] != 0) || ipiv[c] > 1)
  }

  lemma {:induction false} RowOrder(m: Mat, ipiv: seq<nat>, row: nat, ix: nat, c: nat)
    requires Rect(m, |ipiv|, |ipiv|) && row < |ipiv| && ix <= c <= |ipiv| && ipiv[row] != 1
    requires forall j :: ix <= j < c ==> !Stops(m, ipiv, row, j)
    requires c < |ipiv| ==> Stops(m, ipiv, row, c)
    ensures ScanRow(m, ipiv, row, ix)
         == if c == |ipiv| then Nowhere else if ipiv[c] == 0 then At(row, c) else Failed
    decreases c - ix
  {
    if ix == c {
    } else {
      assert !Stops(m, ipiv, row, ix);
      RowOrder(m, ipiv, row, ix + 1, c);
    }
  }

  lemma {:induction false} ScanOrder(m: Mat, ipiv: seq<nat>, row: nat, r: nat, c: nat)
    requires Rect(m, |ipiv|, |ipiv|) && row <= r < |ipiv| && c < |ipiv| && Stops(m, ipiv, r, c)
    requires forall i, j :: row <= i < r && 0 <= j < |ipiv| ==> !Stops(m, ipiv, i, j)
    requires forall j :: 0 <= j < c ==> !Stops(m, ipiv, r, j)
    ensures Scan(m, ipiv, row) == if ipiv[c] == 0 then At(r, c) else Failed
    decreases r - row
  {
    hide ScanRow, Stops;
    if row == r {
      assert ipiv[r] != 1 by { StopsFacts(m, ipiv, r, c); }
      RowOrder(m, ipiv, row, 0, c);
    } else {
      if ipiv[row] != 1 {
        RowOrder(m, ipiv, row, 0, |ipiv|);
      }
      ScanOrder(m, ipiv, row + 1, r, c);
    }
  }

  lemma StopsFacts(m: Mat, ipiv: seq<nat>, r: nat, c: nat)
    requires Rect(m, |ipiv|, |ipiv|) && r < |ipiv| && c < |ipiv| && Stops(m, ipiv, r, c)
    ensures ipiv[r] != 1 && ipiv[c] != 1
  {
  }

  lemma {:induction false} ScanNowhere(m: Mat, ipiv: seq<nat>, row: nat)
    requires Rect(m, |ipiv|, |ipiv|) && row <= |ipiv|
    requires forall i, j :: row <= i < |ipiv| && 0 <= j < |ipiv| ==> !Stops(m, ipiv, i, j)
    ensures Scan(m, ipiv, row) == Nowhere
    decreases |ipiv| - row
  {
    hide ScanRow, Stops;
    if row == |ipiv| {
    } else {
      if ipiv[row] != 1 {
        RowOrder(m, ipiv, row, 0, |ipiv|);
      }
      ScanNowhere(m, ipiv, row + 1);
    }
  }

  /** The order of the search, whatever has been pivoted on how often: the diagonal entry if its place is free and it is
      nonzero; else row after row and column after column the first entry at which the scan ends. */
  lemma SearchOrder(m: Mat, ipiv: seq<nat>, col: nat, r: nat, c: nat)
    requires Rect(m, |ipiv|, |ipiv|) && col < |ipiv| && r < |ipiv| && c < |ipiv|
    ensures ipiv[col] != 1 && m[col][col] != 0 ==> Search(m, ipiv, col) == At(col, col)
    ensures !(ipiv[col] != 1 && m[col][col] != 0) && Stops(m, ipiv, r, c)
            && (forall i, j :: 0 <= i < |ipiv| && 0 <= j < |ipiv| && (i < r || (i == r && j < c)) ==>
                  !Stops(m, ipiv, i, j))
            ==> Search(m, ipiv, col) == if ipiv[c] == 0 then At(r, c) else Failed
    ensures !(ipiv[col] != 1 && m[col][col] != 0)
            && (forall i, j :: 0 <= i < |ipiv| && 0 <= j < |ipiv| ==> !Stops(m, ipiv, i, j))
            ==> Search(m, ipiv, col) == Nowhere
  {
    hide Scan, Stops;
    if Stops(m, ipiv, r, c) && forall i, j :: 0 <= i < |ipiv| && 0 <= j < |ipiv| && (i < r || (i == r && j < c)) ==>
         !Stops(m, ipiv, i, j) {
      ScanOrder(m, ipiv, 0, r, c);
    }
    if forall i, j :: 0 <= i < |ipiv| && 0 <= j < |ipiv| ==> !Stops(m, ipiv, i, j) {
      ScanNowhere(m, ipiv, 0);
    }
  }

  /** Looks for a pivot. Without one, irow and icol stay as the previous round left them; ok tells whether the
      assertion on the way held. */
  method FindPivot(src: array<gf>, k: nat, ipiv: array<nat>, col: nat, irow0: nat, icol0: nat)
      returns (ok: bool, irow: nat, icol: nat)
    requires src.Length == k * k && ipiv.Length == k && col < k && irow0 < k && icol0 < k
    ensures irow < k && icol < k
    ensures match Search(Rows(src[..], k, k), ipiv[..], col)
            case Failed => !ok
            case At(r, c) => ok && irow == r && icol == c
            case Nowhere => ok && irow == irow0 && icol == icol0
  {
    hide Rows, Scan;
    ok, irow, icol := true, irow0, icol0;
    CellAt(src[..], k, k, col, col);
    if ipiv[col] != 1 && src[col * k + col] != 0 {
      irow, icol := col, col;
      return;
    }
    ok, irow, icol := ScanRows(src, k, ipiv, irow0, icol0);
  }

  method ScanRows(src: array<gf>, k: nat, ipiv: array<nat>, irow0: nat, icol0: nat)
      returns (ok: bool, irow: nat, icol: nat)
    requires src.Length == k * k && ipiv.Length == k && irow0 < k && icol0 < k
    ensures irow < k && icol < k
    ensures match Scan(Rows(src[..], k, k), ipiv[..], 0)
            case Failed => !ok
            case At(r, c) => ok && irow == r && icol == c
            case Nowhere => ok && irow == irow0 && icol == icol0
  {
    hide Rows, ScanRow;
    ghost var m, p := Rows(src[..], k, k), ipiv[..];
    ok, irow, icol := true, irow0, icol0;
    for row := 0 to k
      invariant Scan(m, p, row) == Scan(m, p, 0)
    {
      if ipiv[row] != 1 {
        var ix;
        ok, ix := FindPivotInRow(src, k, ipiv, row, row * k);
        if !ok {
          return;
        }
        if ix < k {
          irow, icol := row, ix;
          return;
        }
      }
    }
  }

  /** The inner scan: the first usable column of a row that has not been pivoted on, or k. */
  method FindPivotInRow(src: array<gf>, k: nat, ipiv: array<nat>, row: nat, start: nat) returns (ok: bool, ix: nat)
    requires src.Length == k * k && ipiv.Length == k && row < k && start == row * k
    ensures ix <= k
    ensures ScanRow(Rows(src[..], k, k), ipiv[..], row, 0)
         == if !ok then Failed else if ix < k then At(row, ix) else Nowhere
  {
    hide Rows;
    ghost var m, p := Rows(src[..], k, k), ipiv[..];
    RowCells(src[..], k, k, row, start);
    ok, ix := true, 0;
    while ix < k
      invariant ix <= k && ok && ScanRow(m, p, row, ix) == ScanRow(m, p, row, 0)
    {
      if ipiv[ix] == 0 {
        assert m[row][ix] == src[start + ix];
        if src[start + ix] != 0 {
          return;
        }
      } else if ipiv[ix] > 1 {
        ok := false;
        return;
      }
      ix := ix + 1;
    }
  }

  method SwapRowsInPlace(src: array<gf>, k: nat, irow: nat, icol: nat)
    requires src.Length == k * k && irow < k && icol < k && irow != icol
    modifies src
    ensures Rows(src[..], k, k) == SwapRows(old(Rows(src[..], k, k)), irow, icol)
  {
    hide Rows, RowStart;
    var a, b := RowStart(irow, k), RowStart(icol, k);
    TwoRows(src[..], k, irow, icol);
    SwapCells(src, a, b, k);
    SwappedRows(old(src[..]), src[..], k, irow, icol, a, b);
  }

  method SwapCells(src: array<gf>, a: nat, b: nat, k: nat)
    requires a + k <= src.Length && b + k <= src.Length && (a + k <= b || b + k <= a)
    modifies src
    ensures forall q :: 0 <= q < src.Length ==> src[q] == Swapped(old(src[..]), a, b, k, q)
  {
    for ix := 0 to k
      invariant forall q :: 0 <= q < src.Length ==> src[q] == Swapped(old(src[..]), a, b, ix, q)
    {
      src[a + ix], src[b + ix] := src[b + ix], src[a + ix];
    }
  }

  /** The cell at q once the first n cells from a and from b have changed places. */
  ghost function Swapped(s: Vec, a: nat, b: nat, n: nat, q: nat): (v: gf)
    requires a + n <= |s| && b + n <= |s| && q < |s|
  {
    if a <= q < a + n then s[b + (q - a)] else if b <= q < b + n then s[a + (q - b)] else s[q]
  }

  lemma SwappedRows(s: Vec, t: Vec, k: nat, i: nat, j: nat, a: nat, b: nat)
    requires |s| == |t| == k * k && i < k && j < k && i != j
    requires a == RowStart(i, k) && b == RowStart(j, k)
    requires a + k <= |s| && b + k <= |s| && (a + k <= b || b + k <= a)
    requires forall q :: 0 <= q < |s| ==> t[q] == Swapped(s, a, b, k, q)
    ensures Rows(t, k, k) == SwapRows(Rows(s, k, k), i, j)
  {
    hide Rows, Swapped, SwapRows, RowStart;
    var m, n := SwapRows(Rows(s, k, k), i, j), Rows(t, k, k);
    SwapRowsShape(Rows(s, k, k), k, i, j);
    forall r | 0 <= r < k
      ensures n[r] == m[r]
    {
      SwappedRow(s, t, k, i, j, a, b, r);
    }
  }

  lemma SwapRowsShape(m: Mat, k: nat, i: nat, j: nat)
    requires Rect(m, k, k) && i < k && j < k
    ensures |SwapRows(m, i, j)| == k
    ensures forall r :: 0 <= r < k ==> SwapRows(m, i, j)[r] == m[if r == i then j else if r == j then i else r]
  {
  }

  lemma SwappedRow(s: Vec, t: Vec, k: nat, i: nat, j: nat, a: nat, b: nat, r: nat)
    requires |s| == |t| == k * k && i < k && j < k && i != j && r < k
    requires a == RowStart(i, k) && b == RowStart(j, k)
    requires a + k <= |s| && b + k <= |s| && (a + k <= b || b + k <= a)
    requires forall q :: 0 <= q < |s| ==> t[q] == Swapped(s, a, b, k, q)
    ensures Rows(t, k, k)[r] == Rows(s, k, k)[if r == i then j else if r == j then i else r]
  {
    hide Rows, Swapped, RowStart;
    var from := RowStart(r, k);
    RowAtStart(t, k, r);
    RowAtStart(s, k, r);
    RowAtStart(s, k, i);
    RowAtStart(s, k, j);
    if r == i {
      SwappedCells(s, t, k, a, b, from, b);
    } else if r == j {
      SwappedCells(s, t, k, a, b, from, a);
    } else {
      TwoRows(s, k, r, i);
      TwoRows(s, k, r, j);
      SwappedCells(s, t, k, a, b, from, from);
    }
  }

  lemma RowAtStart(s: Vec, k: nat, r: nat)
    requires |s| == k * k && r < k
    ensures RowStart(r, k) + k <= |s| && Rows(s, k, k)[r] == s[RowStart(r, k)..RowStart(r, k) + k]
  {
    hide Rows;
    RowCells(s, k, k, r, RowStart(r, k));
  }

  lemma ApartFrom(r: nat, i: nat, k: nat)
    requires r != i
    ensures r * k + k <= i * k || i * k + k <= r * k
  {
    if r < i { RowsApart(r, i, k); } else { RowsApart(i, r, k); }
  }

  /** The row at `to` holds what the row at `from` held: the two that changed places, or one that stayed. */
  lemma SwappedCells(s: Vec, t: Vec, k: nat, a: nat, b: nat, to: nat, from: nat)
    requires |s| == |t| && a + k <= |s| && b + k <= |s| && to + k <= |s| && from + k <= |s|
    requires a + k <= b || b + k <= a
    requires forall q :: 0 <= q < |s| ==> t[q] == Swapped(s, a, b, k, q)
    requires (to == a && from == b) || (to == b && from == a)
             || (to == from && (to + k <= a || a + k <= to) && (to + k <= b || b + k <= to))
    ensures t[to..to + k] == s[from..from + k]
  {
    var row, was := t[to..to + k], s[from..from + k];
    forall x | 0 <= x < |row|
      ensures row[x] == was[x]
    {
      assert t[to + x] == Swapped(s, a, b, k, to + x);
    }
  }

  /** Divides the pivot row by its pivot; nothing to do for a pivot of one. */
  method NormalizeRow(t: Tables, src: array<gf>, k: nat, icol: nat)
    requires t.Ready() && src !in t.Repr()
    requires src.Length == k * k && icol < k && Rows(src[..], k, k)[icol][icol] != 0
    modifies src
    ensures Rows(src[..], k, k) == old(Rows(src[..], k, k))[icol := Normalized(old(Rows(src[..], k, k))[icol], icol)]
  {
    hide Rows, Mul, Inv, t.Ready;
    ghost var row := Rows(src[..], k, k)[icol];
    var pivotRow := icol * k;
    RowCells(src[..], k, k, icol, pivotRow);
    var c := src[pivotRow + icol];
    assert c == row[icol];
    if c != 1 {
      InverseEntry(t, c);
      c := t.inverse[c];
      src[pivotRow + icol] := 1;
      assert src[pivotRow..pivotRow + k] == row[icol := 1];
      label filled:
      ScaleRow(t, src, pivotRow, k, c);
      assert src[pivotRow..pivotRow + k] == Scale(c, old@filled(src[pivotRow..pivotRow + k]));
      RowUpdate(old(src[..]), src[..], k, k, icol, pivotRow);
    } else {
      NormalizeOne(row, icol);
      assert Rows(src[..], k, k) == Rows(src[..], k, k)[icol := row];
    }
  }

  method ScaleRow(t: Tables, src: array<gf>, start: nat, k: nat, c: gf)
    requires t.Ready() && src !in t.Repr() && start + k <= src.Length
    modifies src
    ensures forall q :: 0 <= q < src.Length ==>
              src[q] == if start <= q < start + k then Mul(c, old(src[q])) else old(src[q])
  {
    hide Mul, t.Ready;
    for ix := 0 to k
      invariant forall q :: 0 <= q < src.Length ==>
                  src[q] == if start <= q < start + ix then Mul(c, old(src[q])) else old(src[q])
    {
      MulRow(t, c);
      src[start + ix] := t.mul[c, src[start + ix]];
    }
  }

  method MemDiffers(src: array<gf>, start: nat, other: array<gf>, k: nat) returns (differs: bool)
    requires start + k <= src.Length && other.Length == k
    ensures differs <==> src[start..start + k] != other[..]
  {
    for i := 0 to k
      invariant forall j :: 0 <= j < i ==> src[start..start + k][j] == other[j]
    {
      if src[start + i] != other[i] {
        assert src[start..start + k][i] != other[..][i];
        return true;
      }
    }
    assert src[start..start + k] == other[..];
    return false;
  }

  /** The cell at q after the row at p has had its multiple of the row at pivotRow removed. */
  ghost function Reduced(s: Vec, p: nat, pivotRow: nat, k: nat, icol: nat, q: nat): (v: gf)
    requires p + k <= |s| && pivotRow + k <= |s| && icol < k && q < |s|
  {
    if p <= q < p + k
    then Xor(if q == p + icol then 0 else s[q], Mul(s[p + icol], s[pivotRow + (q - p)]))
    else s[q]
  }

  /** Subtracts the right multiple of the pivot row from the row at p. */
  method ReduceRow(t: Tables, src: array<gf>, p: nat, pivotRow: nat, k: nat, icol: nat)
    requires t.Ready() && src !in t.Repr() && icol < k
    requires p + k <= src.Length && pivotRow + k <= src.Length && (p + k <= pivotRow || pivotRow + k <= p)
    modifies src
    ensures forall q :: 0 <= q < src.Length ==> src[q] == Reduced(old(src[..]), p, pivotRow, k, icol, q)
  {
    hide Mul, Xor, t.Ready;
    var c := src[p + icol];
    src[p + icol] := 0;
    AddMul(t, src, p, src, pivotRow, c, k);
  }

  lemma ReducedRow(s: Vec, t: Vec, p: nat, pivotRow: nat, k: nat, icol: nat)
    requires |t| == |s| && p + k <= |s| && pivotRow + k <= |s| && icol < k
    requires forall q :: 0 <= q < |s| ==> t[q] == Reduced(s, p, pivotRow, k, icol, q)
    ensures t[p..p + k] == EliminatedRow(s[p..p + k], s[pivotRow..pivotRow + k], icol)
    ensures forall q :: 0 <= q < |s| && !(p <= q < p + k) ==> t[q] == s[q]
  {
    hide Mul, Xor;
    var a, b := s[p..p + k], s[pivotRow..pivotRow + k];
    forall j | 0 <= j < k
      ensures t[p..p + k][j] == EliminatedRow(a, b, icol)[j]
    {
      assert t[p + j] == Reduced(s, p, pivotRow, k, icol, p + j);
      assert b[j] == s[pivotRow + j];
    }
  }

  method EliminateOne(t: Tables, src: array<gf>, k: nat, row: nat, icol: nat)
    requires t.Ready() && src !in t.Repr()
    requires src.Length == k * k && icol < k && row < k && row != icol
    modifies src
    ensures Rows(src[..], k, k)
         == old(Rows(src[..], k, k))[row := EliminatedRow(old(Rows(src[..], k, k))[row],
                                                               old(Rows(src[..], k, k))[icol], icol)]
  {
    hide Rows, EliminatedRow, Reduced, RowStart, t.Ready;
    ghost var s := src[..];
    var p, pivotRow := RowStart(row, k), RowStart(icol, k);
    TwoRows(s, k, row, icol);
    ReduceRow(t, src, p, pivotRow, k, icol);
    EliminatedRows(s, src[..], k, row, icol);
  }

  /** Reducing the cells of one row is eliminating that row of the matrix. */
  lemma EliminatedRows(s: Vec, t: Vec, k: nat, row: nat, icol: nat)
    requires |s| == |t| == k * k && row < k && icol < k && row != icol
    requires RowStart(row, k) + k <= |s| && RowStart(icol, k) + k <= |s|
    requires forall q :: 0 <= q < |s| ==> t[q] == Reduced(s, RowStart(row, k), RowStart(icol, k), k, icol, q)
    ensures Rows(t, k, k)
         == Rows(s, k, k)[row := EliminatedRow(Rows(s, k, k)[row], Rows(s, k, k)[icol], icol)]
  {
    hide Rows, EliminatedRow, Reduced;
    var p, pivotRow := RowStart(row, k), RowStart(icol, k);
    TwoRows(s, k, row, icol);
    ReducedRow(s, t, p, pivotRow, k, icol);
    RowUpdate(s, t, k, k, row, p);
  }

  lemma TwoRows(s: Vec, k: nat, i: nat, j: nat)
    requires |s| == k * k && i < k && j < k && i != j
    ensures RowStart(i, k) + k <= |s| && RowStart(j, k) + k <= |s|
    ensures RowStart(i, k) + k <= RowStart(j, k) || RowStart(j, k) + k <= RowStart(i, k)
    ensures Rows(s, k, k)[i] == s[RowStart(i, k)..RowStart(i, k) + k]
    ensures Rows(s, k, k)[j] == s[RowStart(j, k)..RowStart(j, k) + k]
  {
    hide Rows;
    TwoRowsAt(s, k, i, j, RowStart(i, k), RowStart(j, k));
  }

  lemma TwoRowsAt(s: Vec, k: nat, i: nat, j: nat, a: nat, b: nat)
    requires |s| == k * k && i < k && j < k && i != j && a == i * k && b == j * k
    ensures a + k <= |s| && b + k <= |s| && (a + k <= b || b + k <= a)
    ensures Rows(s, k, k)[i] == s[a..a + k] && Rows(s, k, k)[j] == s[b..b + k]
  {
    hide Rows;
    RowCells(s, k, k, i, a);
    RowCells(s, k, k, j, b);
    ApartFrom(i, j, k);
  }

  /** Clears the pivot's column in every other row, unless the pivot row is already a unit row. */
  method EliminateOthers(t: Tables, src: array<gf>, k: nat, icol: nat, idRow: array<gf>)
    requires t.Ready() && src !in t.Repr()
    requires src.Length == k * k && icol < k && idRow.Length == k && idRow[..] == Unit(k, icol) && src != idRow
    modifies src
    ensures Rows(src[..], k, k) == Eliminated(old(Rows(src[..], k, k)), k, icol)
  {
    hide Rows, EliminatedRow, t.Ready;
    ghost var m := Rows(src[..], k, k);
    RowCells(src[..], k, k, icol, icol * k);
    var differs := MemDiffers(src, icol * k, idRow, k);
    if differs {
      for ix := 0 to k
        invariant forall r :: 0 <= r < ix ==> Rows(src[..], k, k)[r] == Eliminated(m, k, icol)[r]
        invariant forall r :: ix <= r < k ==> Rows(src[..], k, k)[r] == m[r]
        invariant Rows(src[..], k, k)[icol] == m[icol]
      {
        if ix != icol {
          EliminateOne(t, src, k, ix, icol);
        }
      }
    } else {
      EliminateUnit(m, k, icol);
    }
  }

  method SwapColumnsInPlace(src: array<gf>, k: nat, i: nat, j: nat)
    requires src.Length == k * k && i < k && j < k
    modifies src
    ensures Rows(src[..], k, k) == SwapColumns(old(Rows(src[..], k, k)), k, i, j)
  {
    hide Rows;
    ghost var m := Rows(src[..], k, k);
    for row := 0 to k
      invariant forall r :: 0 <= r < row ==> Rows(src[..], k, k)[r] == SwapAt(m[r], i, j)
      invariant forall r :: row <= r < k ==> Rows(src[..], k, k)[r] == m[r]
    {
      var p := row * k;
      ghost var was := src[..];
      RowCells(src[..], k, k, row, p);
      src[p + i], src[p + j] := src[p + j], src[p + i];
      assert src[p..p + k] == SwapAt(was[p..p + k], i, j);
      RowUpdate(was, src[..], k, k, row, p);
    }
  }

  /** A column not yet pivoted on, while fewer than k are. */
  lemma FreeColumn(done: set<nat>, k: nat)
    requires |done| < k
    ensures exists c: nat :: c < k && c !in done
  {
    if forall c: nat :: c < k ==> c in done {
      SubsetSmaller(ColumnsTo(k), done);
    }
  }

  ghost function ColumnsTo(k: nat): (s: set<nat>)
    ensures forall c: nat :: c in s <==> c < k
    ensures |s| == k
  {
    if k == 0 then {} else ColumnsTo(k - 1) + {k - 1}
  }

  /** The bookkeeping between rounds: which columns are done, and which swaps were made. */
  ghost predicate Tracked(done: set<nat>, ipiv: seq<nat>, indxr: seq<nat>, indxc: seq<nat>, sw: Swaps) {
    && |ipiv| == |indxr| == |indxc| && |sw| <= |ipiv| && |done| == |sw|
    && (forall c :: c in done ==> c < |ipiv|)
    && (forall c :: 0 <= c < |ipiv| ==> ipiv[c] == if c in done then 1 else 0)
    && (forall i :: 0 <= i < |sw| ==> sw[i] == (indxr[i], indxc[i]))
  }

  /** One round of the elimination on the pivot at (irow, icol); ok tells whether the pivot was nonzero, as asserted. */
  method Round(t: Tables, src: array<gf>, k: nat, irow: nat, icol: nat, idRow: array<gf>) returns (ok: bool)
    requires t.Ready() && src !in t.Repr() && idRow !in t.Repr() && src != idRow
    requires src.Length == k * k && irow < k && icol < k
    requires idRow.Length == k && idRow[..] == Zeros(k)
    modifies src, idRow
    ensures t.Ready() && (ok <==> old(Rows(src[..], k, k))[irow][icol] != 0)
    ensures ok ==> Rows(src[..], k, k) == Pivoted(SwapRows(old(Rows(src[..], k, k)), irow, icol), k, icol)
    ensures idRow[..] == Zeros(k)
  {
    hide Rows, Normalized, Eliminated, t.Ready;
    ghost var m := Rows(src[..], k, k);
    if irow != icol {
      SwapRowsInPlace(src, k, irow, icol);
    } else {
      assert m == SwapRows(m, irow, icol);
    }
    assert Rows(src[..], k, k) == SwapRows(m, irow, icol);
    ok := PivotNonzero(src, k, icol);
    if !ok {
      return;
    }
    NormalizeRow(t, src, k, icol);
    idRow[icol] := 1;
    assert idRow[..] == Unit(k, icol);
    EliminateOthers(t, src, k, icol, idRow);
    idRow[icol] := 0;
    assert idRow[..] == Zeros(k);
  }

  method PivotNonzero(src: array<gf>, k: nat, icol: nat) returns (ok: bool)
    requires src.Length == k * k && icol < k
    ensures ok <==> Rows(src[..], k, k)[icol][icol] != 0
  {
    CellAt(src[..], k, k, icol, icol);
    return src[icol * k + icol] != 0;
  }

  /** The working matrix between rounds, how often each place has been pivoted on, and the last pivot's place. */
  datatype Work = Work(m: Mat, ipiv: seq<nat>, irow: nat, icol: nat)

  ghost predicate WorkShape(w: Work, k: nat) {
    |w.ipiv| == k && Rect(w.m, k, k) && (k > 0 ==> w.irow < k && w.icol < k)
  }

  /** Where round col pivots: where the search says, or else where the previous round did. */
  ghost function PivotPlace(w: Work, col: nat): (place: (nat, nat))
    requires WorkShape(w, |w.ipiv|) && col < |w.ipiv|
    ensures place.0 < |w.ipiv| && place.1 < |w.ipiv|
  {
    var s := Search(w.m, w.ipiv, col);
    if s.At? then (s.row, s.col) else (w.irow, w.icol)
  }

  /** Round col, unless an assertion fails in it. */
  ghost function RoundOf(w: Work, col: nat): (r: Option<Work>)
    requires WorkShape(w, |w.ipiv|) && col < |w.ipiv|
    ensures r.Some? ==> WorkShape(r.value, |w.ipiv|)
  {
    var k, (irow, icol) := |w.ipiv|, PivotPlace(w, col);
    if Search(w.m, w.ipiv, col).Failed? || w.m[irow][icol] == 0 then None
    else Some(Work(Pivoted(SwapRows(w.m, irow, icol), k, icol), w.ipiv[icol := w.ipiv[icol] + 1], irow, icol))
  }

  /** The first n rounds on a matrix, unless an assertion fails. */
  ghost function RoundsOf(a: Mat, k: nat, n: nat): (r: Option<Work>)
    requires Rect(a, k, k) && n <= k
    ensures r.Some? ==> WorkShape(r.value, k)
  {
    if n == 0 then Some(Work(a, seq(k, _ => 0), 0, 0))
    else match RoundsOf(a, k, n - 1) case None => None case Some(w) => RoundOf(w, n - 1)
  }

  /** Replaces a nonsingular matrix by its inverse. Every round finds a pivot exactly if the matrix is nonsingular;
      then the assertions hold. For a singular one ok tells whether an assertion fails in one of the rounds. */
  method InvertMat(t: Tables, src: array<gf>, k: nat) returns (ok: bool, ghost found: bool)
    requires t.Ready() && src !in t.Repr() && src.Length == k * k
    modifies src
    ensures ok <==> RoundsOf(old(Rows(src[..], k, k)), k, k).Some?
    ensures found <==> Nonsingular(old(Rows(src[..], k, k)), k)
    ensures found ==> ok && Inverse(Rows(src[..], k, k), old(Rows(src[..], k, k)), k)
  {
    hide Rows, Nonsingular, Unscrambled, Inverse, RoundsOf, t.Ready;
    ghost var a0 := Rows(src[..], k, k);
    var indxc, indxr := new nat[k], new nat[k];
    ghost var sw;
    ok, found, sw := EliminateColumns(t, src, k, indxr, indxc);
    if ok {
      Unscramble(src, k, indxr, indxc, a0, sw, found);
    }
  }

  ghost predicate Recorded(sw: Swaps, indxr: seq<nat>, indxc: seq<nat>)
  {
    |indxr| == |indxc| == |sw| && forall i :: 0 <= i < |sw| ==> sw[i] == (indxr[i], indxc[i])
  }

  ghost predicate Below(ns: seq<nat>, n: nat, k: nat) {
    n <= |ns| && forall i :: 0 <= i < n ==> ns[i] < k
  }

  /** The k rounds. If each found a pivot, what is left is the inverse up to the recorded row swaps. */
  method EliminateColumns(t: Tables, src: array<gf>, k: nat, indxr: array<nat>, indxc: array<nat>)
      returns (ok: bool, ghost found: bool, ghost sw: Swaps)
    requires t.Ready() && src !in t.Repr() && src.Length == k * k
    requires indxr.Length == indxc.Length == k && indxr != indxc
    requires indxr !in t.Repr() && indxc !in t.Repr() && (src as object) != indxr && (src as object) != indxc
    modifies src, indxr, indxc
    ensures ok <==> RoundsOf(old(Rows(src[..], k, k)), k, k).Some?
    ensures found <==> Nonsingular(old(Rows(src[..], k, k)), k)
    ensures ok ==> Below(indxr[..], k, k) && Below(indxc[..], k, k)
    ensures found ==>
              && ok && Unscrambled(Rows(src[..], k, k), old(Rows(src[..], k, k)), k, sw, k)
              && Recorded(sw, indxr[..], indxc[..])
  {
    hide Rows, Nonsingular, Progress, Unscrambled, RoundOf, t.Ready;
    ghost var a0 := Rows(src[..], k, k);
    var ipiv := new nat[k](_ => 0);
    var idRow := new gf[k](_ => 0);
    assert idRow[..] == Zeros(k) && ipiv[..] == seq(k, _ => 0);
    ok, found, sw := true, true, [];
    ghost var done: set<nat> := {};
    StartProgress(a0, ipiv[..], indxr[..], indxc[..]);
    var irow: nat, icol: nat := 0, 0;
    for col := 0 to k
      invariant t.Ready() && idRow[..] == Zeros(k)
      invariant RoundsOf(a0, k, col) == Some(Work(Rows(src[..], k, k), ipiv[..], irow, icol))
      invariant Below(indxr[..], col, k) && Below(indxc[..], col, k)
      invariant if found
                then |sw| == col && Progress(Rows(src[..], k, k), a0, done, ipiv[..], indxr[..], indxc[..], sw)
                else !Nonsingular(a0, k)
    {
      ok, irow, icol, found, sw, done :=
        EliminateColumn(t, src, k, col, ipiv, indxr, indxc, idRow, irow, icol, a0, found, sw, done);
      if !ok {
        NoMoreRounds(a0, k, col + 1, k);
        return;
      }
    }
    if found {
      AllDone(Rows(src[..], k, k), a0, done, ipiv[..], indxr[..], indxc[..], sw);
      StartUnscramble(Rows(src[..], k, k), a0, done, ipiv[..], indxr[..], indxc[..], sw);
    }
  }

  lemma RoundsNext(a: Mat, k: nat, n: nat)
    requires Rect(a, k, k) && n < k
    ensures RoundsOf(a, k, n + 1)
         == match RoundsOf(a, k, n) case None => None case Some(w) => RoundOf(w, n)
  {
    hide RoundOf;
  }

  lemma RoundsStart(a: Mat, k: nat)
    requires Rect(a, k, k)
    ensures RoundsOf(a, k, 0) == Some(Work(a, seq(k, _ => 0), 0, 0))
  {
  }

  /** Once an assertion has failed there are no more rounds. */
  lemma {:induction false} NoMoreRounds(a: Mat, k: nat, n: nat, m: nat)
    requires Rect(a, k, k) && n <= m <= k && RoundsOf(a, k, n).None?
    ensures RoundsOf(a, k, m).None?
    decreases m
  {
    hide RoundOf;
    if n == m {
    } else {
      NoMoreRounds(a, k, n, m - 1);
      RoundsNext(a, k, m - 1);
    }
  }

  method EliminateColumn(t: Tables, src: array<gf>, k: nat, col: nat, ipiv: array<nat>, indxr: array<nat>,
                         indxc: array<nat>, idRow: array<gf>, irow0: nat, icol0: nat, ghost a0: Mat,
                         ghost found0: bool, ghost sw0: Swaps, ghost done0: set<nat>)
      returns (ok: bool, irow: nat, icol: nat, ghost found: bool, ghost sw: Swaps, ghost done: set<nat>)
    requires t.Ready() && {src as object, idRow, ipiv, indxr, indxc} !! t.Repr()
    requires src.Length == k * k && col < k && irow0 < k && icol0 < k && idRow.Length == k && idRow[..] == Zeros(k)
    requires ipiv.Length == indxr.Length == indxc.Length == k
    requires ipiv != indxr && ipiv != indxc && indxr != indxc && src != idRow
    requires {ipiv as object, indxr, indxc} !! {src, idRow}
    requires Below(indxr[..], col, k) && Below(indxc[..], col, k)
    requires if found0
             then |sw0| == col && Progress(Rows(src[..], k, k), a0, done0, ipiv[..], indxr[..], indxc[..], sw0)
             else !Nonsingular(a0, k)
    modifies src, idRow, ipiv, indxr, indxc
    ensures t.Ready() && idRow[..] == Zeros(k) && irow < k && icol < k
    ensures match RoundOf(old(Work(Rows(src[..], k, k), ipiv[..], irow0, icol0)), col)
            case Some(w) => ok && w == Work(Rows(src[..], k, k), ipiv[..], irow, icol)
            case None => !ok
    ensures ok ==> Below(indxr[..], col + 1, k) && Below(indxc[..], col + 1, k)
    ensures if found
            then ok && |sw| == col + 1 && Progress(Rows(src[..], k, k), a0, done, ipiv[..], indxr[..], indxc[..], sw)
            else !Nonsingular(a0, k)
  {
    hide Rows, Nonsingular, Progress, Pivoted, SwapRows, IsPivot, Single, Search, t.Ready;
    ghost var m, p, r, c := Rows(src[..], k, k), ipiv[..], indxr[..], indxc[..];
    ok, irow, icol := FindPivot(src, k, ipiv, col, irow0, icol0);
    found, sw, done := found0 && Search(m, p, col).At?, sw0 + [(irow, icol)], done0 + {icol};
    if found0 {
      RoundFinds(m, a0, done0, p, r, c, sw0, col);
      if found {
        NextProgress(m, a0, done0, p, r, c, sw0, irow, icol);
        PivotEntry(m, p, irow, icol);
      }
    }
    if !ok {
      return;
    }
    ipiv[icol] := ipiv[icol] + 1;
    indxr[col] := irow;
    indxc[col] := icol;
    assert ipiv[..] == p[icol := p[icol] + 1] && indxr[..] == r[col := irow] && indxc[..] == c[col := icol];
    ok := Round(t, src, k, irow, icol, idRow);
  }

  lemma PivotEntry(m: Mat, ipiv: seq<nat>, r: int, c: int)
    requires Rect(m, |ipiv|, |ipiv|) && IsPivot(m, ipiv, r, c)
    ensures 0 <= r < |ipiv| && 0 <= c < |ipiv| && m[r][c] != 0
  {
  }

  /** Undoes the row swaps by swapping columns, last swap first. */
  method Unscramble(src: array<gf>, k: nat, indxr: array<nat>, indxc: array<nat>, ghost a0: Mat, ghost sw: Swaps,
                    ghost found: bool)
    requires src.Length == k * k && indxr.Length == indxc.Length == k
    requires (src as object) != indxr && (src as object) != indxc
    requires Below(indxr[..], k, k) && Below(indxc[..], k, k)
    requires found ==> Recorded(sw, indxr[..], indxc[..]) && Unscrambled(Rows(src[..], k, k), a0, k, sw, k)
    modifies src
    ensures found ==> Inverse(Rows(src[..], k, k), a0, k)
  {
    hide Rows, SwapColumns, Unscrambled, Inverse;
    var col := k;
    while col > 0
      invariant 0 <= col <= k
      invariant found ==> Unscrambled(Rows(src[..], k, k), a0, k, sw, col)
    {
      if found {
        UnscrambleStep(Rows(src[..], k, k), a0, k, sw, col - 1);
        UnscrambledShape(Rows(src[..], k, k), a0, k, sw, col);
      }
      if indxr[col - 1] != indxc[col - 1] {
        SwapColumnsInPlace(src, k, indxr[col - 1], indxc[col - 1]);
      } else {
        SwapColumnsSame(Rows(src[..], k, k), k, indxr[col - 1]);
      }
      col := col - 1;
    }
    if found {
      UnscrambleEnd(Rows(src[..], k, k), a0, k, sw);
    }
  }

  lemma UnscrambledShape(a: Mat, a0: Mat, k: nat, sw: Swaps, n: nat)
    requires Unscrambled(a, a0, k, sw, n)
    ensures SwapsIn(sw, k)
  {
  }

  lemma SwapColumnsSame(m: Mat, k: nat, i: nat)
    requires Rect(m, k, k) && i < k
    ensures SwapColumns(m, k, i, i) == m
  {
    forall r | 0 <= r < k
      ensures SwapAt(m[r], i, i) == m[r]
    {
    }
  }

  ghost predicate Progress(m: Mat, a0: Mat, done: set<nat>, ipiv: seq<nat>, indxr: seq<nat>, indxc: seq<nat>,
                           sw: Swaps) {
    Rect(m, |ipiv|, |ipiv|) && Tracked(done, ipiv, indxr, indxc, sw) && Exchanged(m, a0, Pivots(ipiv), sw)
  }

  lemma StartProgress(a: Mat, ipiv: seq<nat>, indxr: seq<nat>, indxc: seq<nat>)
    requires Rect(a, |ipiv|, |ipiv|) && |ipiv| == |indxr| == |indxc|
    requires forall c :: 0 <= c < |ipiv| ==> ipiv[c] == 0
    ensures Progress(a, a, {}, ipiv, indxr, indxc, [])
  {
    hide Exchanged;
    ExchangedStart(a, Pivots(ipiv));
  }

  /** Between rounds no place has been pivoted on twice, and a round that finds no pivot shows that the matrix is
      singular. */
  lemma PivotRemains(m: Mat, a0: Mat, done: set<nat>, ipiv: seq<nat>, indxr: seq<nat>, indxc: seq<nat>, sw: Swaps)
    requires Rect(m, |ipiv|, |ipiv|) && |sw| < |ipiv|
    requires Progress(m, a0, done, ipiv, indxr, indxc, sw)
    ensures Single(ipiv)
    ensures (exists r, c :: IsPivot(m, ipiv, r, c)) || !Nonsingular(a0, |ipiv|)
  {
    hide Exchanged, Nonsingular;
    if Nonsingular(a0, |ipiv|) {
      FreeColumn(done, |ipiv|);
      var free: nat :| free < |ipiv| && free !in done;
      PivotExists(m, a0, Pivots(ipiv), sw, free);
      var r, c :| 0 <= r < |ipiv| && 0 <= c < |ipiv| && !Pivots(ipiv)[r] && !Pivots(ipiv)[c] && m[r][c] != 0;
      assert IsPivot(m, ipiv, r, c);
    }
  }

  /** If all rounds found a pivot, the matrix was nonsingular. */
  lemma AllDone(m: Mat, a0: Mat, done: set<nat>, ipiv: seq<nat>, indxr: seq<nat>, indxc: seq<nat>, sw: Swaps)
    requires Progress(m, a0, done, ipiv, indxr, indxc, sw) && |sw| == |ipiv|
    ensures Nonsingular(a0, |ipiv|)
  {
    hide Exchanged, Nonsingular;
    SubsetSize(done, ColumnsTo(|ipiv|));
    AllPivoted(m, a0, Pivots(ipiv), sw);
  }

  /** While every round so far has found its pivot, the assertion in the search holds, and a search that finds nothing
      shows that the matrix is singular. */
  lemma RoundFinds(m: Mat, a0: Mat, done: set<nat>, ipiv: seq<nat>, indxr: seq<nat>, indxc: seq<nat>, sw: Swaps,
                   col: nat)
    requires Rect(m, |ipiv|, |ipiv|) && |sw| < |ipiv| && col < |ipiv|
    requires Progress(m, a0, done, ipiv, indxr, indxc, sw)
    ensures match Search(m, ipiv, col)
            case Failed => false
            case At(r, c) => IsPivot(m, ipiv, r, c)
            case Nowhere => !Nonsingular(a0, |ipiv|)
  {
    hide Progress, Search, IsPivot, Single, Nonsingular;
    PivotRemains(m, a0, done, ipiv, indxr, indxc, sw);
    SearchMeans(m, ipiv, col);
  }

  /** The assertions do not notice every singular matrix: they hold in both rounds on this one. */
  lemma SingularUnnoticed(m: Mat)
    requires m == [[1, 0], [0, 0]]
    ensures !Nonsingular(m, 2) && RoundsOf(m, 2, 2) == Some(Work(m, [2, 0], 0, 0))
  {
    hide RoundOf, RoundsOf, Nonsingular;
    SecondColumnVanishes(m);
    assert seq(2, _ => 0) == [0, 0];
    RoundsStart(m, 2);
    RoundKeeps(m, [0, 0], 0);
    RoundsNext(m, 2, 0);
    RoundKeeps(m, [1, 0], 1);
    RoundsNext(m, 2, 1);
  }

  lemma RoundKeeps(m: Mat, p: seq<nat>, col: nat)
    requires m == [[1, 0], [0, 0]] && ((p == [0, 0] && col == 0) || (p == [1, 0] && col == 1))
    ensures RoundOf(Work(m, p, 0, 0), col) == Some(Work(m, [p[0] + 1, 0], 0, 0))
  {
    hide Scan, Pivoted, SwapRows;
    if col == 1 {
      SearchesInVain(m);
    }
    PivotKeeps(m);
    assert p[0 := p[0] + 1] == [p[0] + 1, 0];
  }

  lemma PivotKeeps(m: Mat)
    requires m == [[1, 0], [0, 0]]
    ensures Pivoted(SwapRows(m, 0, 0), 2, 0) == m
  {
    hide Normalized, Eliminated;
    assert m[0] == Unit(2, 0) && SwapRows(m, 0, 0) == m;
    NormalizeOne(m[0], 0);
    EliminateUnit(m, 2, 0);
    assert m[0 := m[0]] == m;
  }

  lemma SearchesInVain(m: Mat)
    requires m == [[1, 0], [0, 0]]
    ensures Search(m, [1, 0], 1) == Nowhere
  {
    var p := [1, 0];
    assert ScanRow(m, p, 1, 2) == Nowhere && ScanRow(m, p, 1, 1) == Nowhere && ScanRow(m, p, 1, 0) == Nowhere;
    assert Scan(m, p, 2) == Nowhere && Scan(m, p, 1) == Nowhere;
  }

  /** The entry at the place of a round's pivot after the round. */
  lemma PivotAfterwards(v: Work, col: nat)
    requires WorkShape(v, |v.ipiv|) && col < |v.ipiv| && RoundOf(v, col).Some?
    ensures var w, (r, c) := RoundOf(v, col).value, PivotPlace(v, col);
            && w.irow == r && w.icol == c
            && (w.m[r][c] != 0 <==> r == c || v.m[c][c] != 0)
  {
    hide Search, Mul, Xor, Inv;
    var k := |v.ipiv|;
    var (r, c) := PivotPlace(v, col);
    var m, pivot := SwapRows(v.m, r, c), v.m[r][c];
    var row := Normalized(m[c], c);
    assert row[c] == Mul(Inv(pivot), 1);
    MulOne(Inv(pivot));
    InverseNonZero(pivot);
    if r != c {
      var n := m[c := row];
      assert Pivoted(m, k, c)[r] == EliminatedRow(n[r], row, c) && n[r] == v.m[c];
      assert EliminatedRow(n[r], row, c)[c] == Xor(0, Mul(v.m[c][c], row[c]));
      XorZero(Mul(v.m[c][c], row[c]));
      if v.m[c][c] == 0 {
        MulUnits(row[c]);
      } else {
        MulNonZero(v.m[c][c], row[c]);
      }
    }
  }

  lemma InverseNonZero(x: gf)
    requires x != 0
    ensures Inv(x) != 0
  {
    hide Mul, Inv;
    MulInv(x);
    MulZero(x);
  }

  /** When only the last round finds no pivot, its assertion fails exactly if the last pivot was taken off the diagonal
      and the diagonal entry of its column was zero. */
  lemma LastAssertion(a: Mat, k: nat, v: Work, w: Work)
    requires k >= 2 && Rect(a, k, k) && RoundsOf(a, k, k - 2) == Some(v) && RoundOf(v, k - 2) == Some(w)
    requires Search(v.m, v.ipiv, k - 2).At? && Search(w.m, w.ipiv, k - 1).Nowhere?
    ensures var (r, c) := PivotPlace(v, k - 2); RoundsOf(a, k, k).None? <==> r != c && v.m[c][c] == 0
  {
    hide Search, RoundOf, RoundsOf;
    PivotAfterwards(v, k - 2);
    RoundsNext(a, k, k - 2);
    RoundsNext(a, k, k - 1);
    StaleRound(w, k - 1);
  }

  /** A round without a pivot of its own. */
  lemma StaleRound(w: Work, col: nat)
    requires WorkShape(w, |w.ipiv|) && col < |w.ipiv| && Search(w.m, w.ipiv, col).Nowhere?
    ensures RoundOf(w, col).None? <==> w.m[w.irow][w.icol] == 0
  {
    hide Search, Pivoted, SwapRows;
  }

  /** A single zero entry is always noticed. */
  lemma SingleEntry(a: Mat)
    requires Rect(a, 1, 1)
    ensures RoundsOf(a, 1, 1).None? <==> a[0][0] == 0
  {
    hide Pivoted, SwapRows;
    var p := seq(1, _ => 0);
    assert RoundsOf(a, 1, 0) == Some(Work(a, p, 0, 0));
    assert a[0][0] == 0 ==> ScanRow(a, p, 0, 1) == ScanRow(a, p, 0, 0) == Nowhere;
    assert Scan(a, p, 1) == Nowhere;
  }

  lemma SecondColumnVanishes(m: Mat)
    requires m == [[1, 0], [0, 0]]
    ensures !Nonsingular(m, 2)
  {
    DotUnit(m[0], 1, 2);
    DotUnit(m[1], 1, 2);
    assert MatVec(m, Unit(2, 1)) == Zeros(2) && Unit(2, 1)[1] != Zeros(2)[1];
  }

  lemma NextProgress(m: Mat, a0: Mat, done: set<nat>, ipiv: seq<nat>, indxr: seq<nat>, indxc: seq<nat>, sw: Swaps,
                     irow: nat, icol: nat)
    requires Progress(m, a0, done, ipiv, indxr, indxc, sw)
    requires Rect(m, |ipiv|, |ipiv|) && IsPivot(m, ipiv, irow, icol) && |sw| < |indxr| == |indxc|
    ensures Progress(Pivoted(SwapRows(m, irow, icol), |ipiv|, icol), a0, done + {icol}, ipiv[icol := ipiv[icol] + 1],
                     indxr[|sw| := irow], indxc[|sw| := icol], sw + [(irow, icol)])
  {
    hide Exchanged, Pivoted, SwapRows;
    ExchangedRound(m, a0, Pivots(ipiv), sw, irow, icol);
    assert Pivots(ipiv[icol := ipiv[icol] + 1]) == Pivots(ipiv)[icol := true];
  }

  lemma StartUnscramble(m: Mat, a0: Mat, done: set<nat>, ipiv: seq<nat>, indxr: seq<nat>, indxc: seq<nat>, sw: Swaps)
    requires Progress(m, a0, done, ipiv, indxr, indxc, sw) && |sw| == |ipiv|
    ensures Unscrambled(m, a0, |ipiv|, sw, |ipiv|) && Recorded(sw, indxr, indxc)
  {
    hide Exchanged, Unscrambled;
    SubsetSize(done, ColumnsTo(|ipiv|));
    UnscrambleStart(m, a0, Pivots(ipiv), sw);
  }
}
