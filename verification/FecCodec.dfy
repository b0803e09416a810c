/** fec_encode and fec_decode: strided, unrolled loops over the packets, refined to the code of
    ErasureCode byte by byte. */
module FecCodec {
  import opened Gf
  import opened GfTables
  import opened Vectors
  import opened Polynomials
  import opened Layout
  import opened ErasureCode
  import opened FecNew
  import opened GaussJordan

  /** The C loops count with unsigned char. */
  newtype u8 = x: int | 0 <= x < 256

  /** Such a counter after n increments from zero. */
  function Counter(n: nat): (c: nat) {
    n % 256
  }

  /** A loop that runs while such a counter is below k ends exactly if k <= 255. The decoding loops run over all k,
      so with k = 256 decoding would not end; the encoding loop over k is entered only if n > k, and then k <=
      255. */
  lemma CounterEnds(k: nat)
    ensures (exists n: nat :: Counter(n) >= k) <==> k <= 255
  {
    assert Counter(255) == 255;
  }

  const STRIDE := 8192

  type Packets = seq<array<gf>>

  /** Every packet holds at least sz bytes. */
  predicate AllLong(ps: Packets, sz: nat)
  {
    forall j :: 0 <= j < |ps| ==> sz <= ps[j].Length
  }

  ghost predicate AllDistinct(ps: Packets) {
    forall i, j :: 0 <= i < j < |ps| ==> ps[i] != ps[j]
  }

  ghost predicate Apart(ps: Packets, qs: Packets) {
    forall i, j :: 0 <= i < |ps| && 0 <= j < |qs| ==> ps[i] != qs[j]
  }

  /** The contents of all packets. */
  ghost function Contents(ps: Packets): (m: Mat)
    reads ps
    ensures |m| == |ps| && forall j :: 0 <= j < |ps| ==> m[j] == ps[j][..]
  {
    seq(|ps|, j requires 0 <= j < |ps| reads ps => ps[j][..])
  }

  ghost predicate AtLeast(m: Mat, sz: nat) {
    forall j :: 0 <= j < |m| ==> sz <= |m[j]|
  }

  /** The sum of the packets of m, each times its coefficient, in place of was[from..from + len]. */
  ghost function CombinedRange(row: Vec, m: Mat, n: nat, was: Vec, from: nat, len: nat): (v: Vec)
    requires |row| == |m| && n <= |m| && AtLeast(m, from + len)
    ensures |v| == |was|
  {
    seq(|was|, q requires 0 <= q < |was| => if from <= q < from + len then Dot(row, Column(m, q), n) else was[q])
  }

  /** Fragment i of the data packets in place of was[from..from + len]. */
  ghost function FragmentRange(data: Mat, i: nat, was: Vec, from: nat, len: nat): (v: Vec)
    requires AtLeast(data, from + len)
    ensures |v| == |was|
  {
    seq(|was|, q requires 0 <= q < |was| => if from <= q < from + len then Fragment(Column(data, q), i) else was[q])
  }

  /** Clears dst[from..from + len] and adds up the k packets there, each times its coefficient. */
  method CombineInto(t: Tables, dst: array<gf>, from: nat, len: nat, src: Packets, coeffs: array<gf>, start: nat, k: u8,
                     ghost row: Vec)
    requires t.Ready() && dst !in t.Repr() && dst !in src && dst != coeffs
    requires |src| == k as int == |row| && from + len <= dst.Length && AllLong(src, from + len)
    requires start + k as int <= coeffs.Length && coeffs[start..start + k as int] == row
    modifies dst
    ensures dst[..] == CombinedRange(row, Contents(src), k as int, old(dst[..]), from, len)
  {
    hide Xor, Mul, t.Ready;
    ghost var m := Contents(src);
    for q := 0 to len
      invariant forall p :: 0 <= p < dst.Length ==> dst[p] == if from <= p < from + q then 0 else old(dst[p])
    {
      dst[from + q] := 0;
    }
    var j: u8 := 0;
    while j < k
      invariant t.Ready() && j <= k && Contents(src) == m
      invariant forall q :: 0 <= q < dst.Length ==>
                  dst[q] == if from <= q < from + len then Dot(row, Column(m, q), j as int) else old(dst[q])
    {
      assert coeffs[start + j as int] == row[j];
      AddMul(t, dst, from, src[j], from, coeffs[start + j as int], len);
      j := j + 1;
      assert Contents(src) == m;
    }
  }

  /** What fec_encode asks of its caller. */
  ghost predicate EncodeReady(t: Tables, code: Fec, src: Packets, fecs: Packets, sz: nat)
    reads t.Repr(), code.encMatrix
  {
    && t.Ready() && code.Valid()
    && |src| == code.k && |fecs| == code.n - code.k && AllLong(src, sz) && AllLong(fecs, sz)
    && AllDistinct(fecs) && Apart(fecs, src)
    && forall i :: 0 <= i < |fecs| ==> fecs[i] !in t.Repr() && fecs[i] != code.encMatrix
  }

  lemma RowMakesFragments(m: Mat, k: nat, n: nat, f: nat, data: Mat, was: Vec, from: nat, len: nat)
    requires EncodingMatrix(m, k, n) && f < n && |data| == k && AtLeast(data, from + len)
    ensures CombinedRange(m[f], data, k, was, from, len) == FragmentRange(data, f, was, from, len)
  {
    hide Dot, Fragment;
  }

  /** One stride of one secondary packet. */
  method EncodeOne(t: Tables, code: Fec, src: Packets, dst: array<gf>, i: nat, from: nat, len: nat)
    requires t.Ready() && code.Valid() && |src| == code.k && i < code.n - code.k
    requires AllLong(src, from + len) && from + len <= dst.Length
    requires dst !in t.Repr() && dst != code.encMatrix && dst !in src
    modifies dst
    ensures dst[..] == FragmentRange(Contents(src), code.k + i, old(dst[..]), from, len)
  {
    hide Rows, EncodingMatrix, CombinedRange, FragmentRange, t.Ready, code.Valid;
    CodeSizes(code);
    ghost var data := Contents(src);
    var fecnum := i + code.k;
    var start := fecnum * code.k;
    ghost var row := CodeRow(code, fecnum, start, data, dst[..], from, len);
    CombineInto(t, dst, from, len, src, code.encMatrix, start, code.k as u8, row);
    assert Contents(src) == data;
  }

  /** The f-th row of the encoding matrix, where it is stored and what it computes. */
  lemma CodeRow(code: Fec, f: nat, start: nat, data: Mat, was: Vec, from: nat, len: nat) returns (row: Vec)
    requires code.Valid() && f < code.n && start == f * code.k
    requires |data| == code.k && AtLeast(data, from + len)
    ensures start + code.k <= code.encMatrix.Length && code.encMatrix[start..start + code.k] == row && |row| == code.k
    ensures CombinedRange(row, data, code.k, was, from, len) == FragmentRange(data, f, was, from, len)
  {
    hide Rows, EncodingMatrix, CombinedRange, FragmentRange;
    var m := Rows(code.encMatrix[..], code.n, code.k);
    RowCells(code.encMatrix[..], code.n, code.k, f, start);
    RowMakesFragments(m, code.k, code.n, f, data, was, from, len);
    row := m[f];
  }

  /** One stride of every secondary packet. */
  method EncodeStride(t: Tables, code: Fec, src: Packets, fecs: Packets, sz: nat, from: nat, len: nat)
    requires EncodeReady(t, code, src, fecs, sz) && from + len <= sz
    modifies fecs
    ensures EncodeReady(t, code, src, fecs, sz) && Contents(src) == old(Contents(src))
    ensures forall i :: 0 <= i < |fecs| ==>
              fecs[i][..] == FragmentRange(Contents(src), code.k + i, old(fecs[i][..]), from, len)
  {
    hide Rows, FragmentRange, EncodingMatrix, t.Ready;
    ghost var data := Contents(src);
    var i: u8 := 0;
    while i as int < code.n - code.k
      invariant i as int <= code.n - code.k
      invariant EncodeReady(t, code, src, fecs, sz) && Contents(src) == data
      invariant forall j :: 0 <= j < i as int ==>
                  fecs[j][..] == FragmentRange(data, code.k + j, old(fecs[j][..]), from, len)
      invariant forall j :: i as int <= j < |fecs| ==> fecs[j][..] == old(fecs[j][..])
    {
      EncodeOne(t, code, src, fecs[i], i as int, from, len);
      assert Contents(src) == data;
      i := i + 1;
    }
  }

  lemma RangesJoin(data: Mat, i: nat, was: Vec, k: nat, len: nat)
    requires AtLeast(data, k + len)
    ensures FragmentRange(data, i, FragmentRange(data, i, was, 0, k), k, len) == FragmentRange(data, i, was, 0, k + len)
  {
    hide Fragment;
  }

  /** Fills every secondary packet with its fragment of the data, one stride after another. */
  method FecEncode(t: Tables, code: Fec, src: Packets, fecs: Packets, sz: nat)
    requires EncodeReady(t, code, src, fecs, sz)
    modifies fecs
    ensures EncodeReady(t, code, src, fecs, sz) && Contents(src) == old(Contents(src))
    ensures forall i :: 0 <= i < |fecs| ==>
              fecs[i][..] == FragmentRange(Contents(src), code.k + i, old(fecs[i][..]), 0, sz)
    ensures forall i, b: nat, q: Vec ::
              && 0 <= i < |fecs| && b < sz && |q| == code.k && Eval(q, 0) == src[0][b]
              && (forall j :: 1 <= j < code.k ==> Eval(q, Power(2, j - 1)) == src[j][b])
              ==> fecs[i][b] == Eval(q, Power(2, code.k + i - 1))
  {
    hide FragmentRange, EncodeReady, Eval, Power;
    ghost var data := Contents(src);
    assert |src| == code.k && AllLong(src, sz) by { EncodeSizes(t, code, src, fecs, sz); }
    var k := 0;
    ghost var done := 0;
    forall i | 0 <= i < |fecs|
      ensures fecs[i][..] == FragmentRange(data, code.k + i, fecs[i][..], 0, 0)
    {
      EmptyRange(data, code.k + i, fecs[i][..]);
    }
    while k < sz
      invariant done == if k < sz then k else sz
      invariant EncodeReady(t, code, src, fecs, sz) && Contents(src) == data
      invariant forall i :: 0 <= i < |fecs| ==>
                  fecs[i][..] == FragmentRange(data, code.k + i, old(fecs[i][..]), 0, done)
    {
      var stride := if sz - k < STRIDE then sz - k else STRIDE;
      EncodeStride(t, code, src, fecs, sz, k, stride);
      forall i | 0 <= i < |fecs|
        ensures fecs[i][..] == FragmentRange(data, code.k + i, old(fecs[i][..]), 0, done + stride)
      {
        RangesJoin(data, code.k + i, old(fecs[i][..]), k, stride);
      }
      k := k + STRIDE;
      done := done + stride;
    }
    EncodeSizes(t, code, src, fecs, sz);
    forall i, b: nat, q: Vec |
      && 0 <= i < |fecs| && b < sz && |q| == code.k && Eval(q, 0) == src[0][b]
      && (forall j :: 1 <= j < code.k ==> Eval(q, Power(2, j - 1)) == src[j][b])
      ensures b < fecs[i].Length && fecs[i][b] == Eval(q, Power(2, code.k + i - 1))
    {
      RangeValue(data, code.k + i, old(fecs[i][..]), sz, b, q);
      assert fecs[i][..][b] == fecs[i][b];
    }
  }

  /** Each byte of an encoded range is the value of the polynomial through the data bytes at its place. */
  lemma RangeValue(data: Mat, f: nat, was: Vec, sz: nat, b: nat, q: Vec)
    requires 1 <= |data| <= 256 && AtLeast(data, sz) && b < sz <= |was| && f >= 1
    requires |q| == |data| && Eval(q, 0) == data[0][b]
    requires forall j :: 1 <= j < |data| ==> Eval(q, Power(2, j - 1)) == data[j][b]
    ensures FragmentRange(data, f, was, 0, sz)[b] == Eval(q, Power(2, f - 1))
  {
    hide Fragment, Eval, Power;
    FragmentValues(Column(data, b), q, f);
  }

  lemma EncodeSizes(t: Tables, code: Fec, src: Packets, fecs: Packets, sz: nat)
    requires EncodeReady(t, code, src, fecs, sz)
    ensures |src| == code.k && AllLong(src, sz) && AllLong(fecs, sz) && 1 <= code.k <= 256
  {
  }

  lemma EmptyRange(data: Mat, i: nat, was: Vec)
    ensures FragmentRange(data, i, was, 0, 0) == was
  {
  }

  // ----- decoding -----

  /** The rows below n whose own primary packet is missing, in ascending order. */
  ghost function Missing(idx: seq<nat>, n: nat): (rows: seq<nat>)
    requires n <= |idx|
    ensures |rows| <= n
    ensures forall o :: 0 <= o < |rows| ==> rows[o] < n && idx[rows[o]] >= |idx|
  {
    if n == 0 then [] else Missing(idx, n - 1) + (if idx[n - 1] >= |idx| then [n - 1] else [])
  }

  lemma {:induction false} MissingPrefix(idx: seq<nat>, m: nat, n: nat)
    requires m <= n <= |idx|
    ensures Missing(idx, m) <= Missing(idx, n)
  {
    if m == n {
    } else {
      MissingPrefix(idx, m, n - 1);
    }
  }

  /** They are exactly the rows whose entry is not a primary packet, each once and in ascending order. */
  lemma {:induction false} MissingExact(idx: seq<nat>, n: nat)
    requires n <= |idx|
    ensures forall row: nat :: row in Missing(idx, n) <==> row < n && idx[row] >= |idx|
    ensures forall o, p :: 0 <= o < p < |Missing(idx, n)| ==> Missing(idx, n)[o] < Missing(idx, n)[p]
  {
    if n == 0 {
    } else {
      MissingExact(idx, n - 1);
    }
  }

  /** The next missing row to write is this one, if it is missing. */
  lemma MissingAt(idx: seq<nat>, row: nat)
    requires row < |idx| && idx[row] >= |idx|
    ensures |Missing(idx, row)| < |Missing(idx, |idx|)| && Missing(idx, |idx|)[|Missing(idx, row)|] == row
  {
    MissingPrefix(idx, row + 1, |idx|);
  }

  lemma MissingNone(idx: seq<nat>)
    ensures Missing(idx, 0) == []
  {
  }

  lemma MissingNext(idx: seq<nat>, row: nat)
    requires row < |idx|
    ensures Missing(idx, row + 1) == Missing(idx, row) + if idx[row] >= |idx| then [row] else []
  {
  }

  /** A primary packet that is present sits at its own place. */
  ghost predicate OwnSlots(idx: seq<nat>) {
    forall r :: 0 <= r < |idx| ==> idx[r] >= |idx| || idx[r] == r
  }

  /** Row i of the decoding matrix: a unit row for a primary fragment, else the fragment's encoding row. */
  method BuildDecodeRow(code: Fec, f: nat, i: u8, k: nat, matrix: array<gf>)
    requires code.Valid() && k == code.k <= 255 && i as int < k && f < code.n && (f >= k || f == i as int)
    requires matrix.Length == k * k && matrix != code.encMatrix
    modifies matrix
    ensures Rows(matrix[..], k, k)
         == old(Rows(matrix[..], k, k))[i as int := Rows(code.encMatrix[..], code.n, k)[f]]
  {
    hide Rows, EncodingMatrix;
    ghost var s := matrix[..];
    var p := i as int * k;
    RowCells(s, k, k, i as int, p);
    ghost var e := Rows(code.encMatrix[..], code.n, k);
    if f < k {
      WriteUnitRow(matrix, p, k, i as int);
      TopIdentity(e, k, code.n, f);
    } else {
      var from := f * k;
      RowCells(code.encMatrix[..], code.n, k, f, from);
      CopyRow(code.encMatrix, from, matrix, p, k);
    }
    RowUpdate(s, matrix[..], k, k, i as int, p);
  }

  method WriteUnitRow(matrix: array<gf>, p: nat, k: nat, i: nat)
    requires p + k <= matrix.Length && i < k
    modifies matrix
    ensures matrix[p..p + k] == Unit(k, i)
    ensures forall x :: 0 <= x < matrix.Length && !(p <= x < p + k) ==> matrix[x] == old(matrix[x])
  {
    for q := 0 to k
      invariant forall x :: 0 <= x < matrix.Length ==> matrix[x] == if p <= x < p + q then 0 else old(matrix[x])
    {
      matrix[p + q] := 0;
    }
    matrix[p + i] := 1;
  }

  method CopyRow(src: array<gf>, from: nat, matrix: array<gf>, p: nat, k: nat)
    requires from + k <= src.Length && p + k <= matrix.Length && src != matrix
    modifies matrix
    ensures matrix[p..p + k] == src[from..from + k]
    ensures forall x :: 0 <= x < matrix.Length && !(p <= x < p + k) ==> matrix[x] == old(matrix[x])
  {
    for q := 0 to k
      invariant forall x :: 0 <= x < matrix.Length ==>
                  matrix[x] == if p <= x < p + q then src[from + (x - p)] else old(matrix[x])
    {
      matrix[p + q] := src[from + q];
    }
  }

  method ChooseRows(code: Fec, index: array<nat>, k: nat, matrix: array<gf>)
    requires code.Valid() && k == code.k <= 255
    requires index.Length == k && Choice(index[..], k, code.n) && OwnSlots(index[..])
    requires matrix.Length == k * k && matrix != code.encMatrix && (matrix as object) != index
    modifies matrix
    ensures ChoiceInRange(index[..], code.n)
    ensures Rows(matrix[..], k, k) == ChosenRows(Rows(code.encMatrix[..], code.n, k), index[..], k)
  {
    hide Rows, EncodingMatrix;
    ghost var idx := index[..];
    ghost var e := Rows(code.encMatrix[..], code.n, k);
    var i: u8 := 0;
    while i as int < k
      invariant i as int <= k && index[..] == idx
      invariant forall r :: 0 <= r < i as int ==> Rows(matrix[..], k, k)[r] == e[idx[r]]
    {
      BuildDecodeRow(code, index[i], i, k, matrix);
      i := i + 1;
    }
  }

  ghost predicate ChoiceInRange(idx: seq<nat>, n: nat) {
    forall r :: 0 <= r < |idx| ==> idx[r] < n
  }

  /** Multiplying by r recovers data byte `row` from the bytes of the packets idx. */
  ghost predicate RowDecodes(r: Vec, idx: seq<nat>, row: nat) {
    && |r| == |idx| && row < |idx|
    && forall w: Vec :: |w| == |idx| ==> Dot(r, w, |idx|) == Recovered(idx, w)[row]
  }

  ghost predicate Decodes(d: Mat, idx: seq<nat>) {
    |d| == |idx| && forall row :: 0 <= row < |d| ==> RowDecodes(d[row], idx, row)
  }

  /** The rows of the received fragments, inverted. */
  method BuildDecodeMatrix(t: Tables, code: Fec, index: array<nat>, k: nat, matrix: array<gf>)
    requires t.Ready() && code.Valid() && k == code.k <= 255
    requires index.Length == k && Choice(index[..], k, code.n) && OwnSlots(index[..])
    requires matrix.Length == k * k && matrix != code.encMatrix && matrix !in t.Repr() && (matrix as object) != index
    modifies matrix
    ensures Decodes(Rows(matrix[..], k, k), index[..])
  {
    hide Rows, EncodingMatrix, Nonsingular, Inverse, ChosenRows, Decodes, Choice, OwnSlots, t.Ready;
    ghost var idx := index[..];
    ghost var e := Rows(code.encMatrix[..], code.n, k);
    ChooseRows(code, index, k, matrix);
    AnyRowsNonsingular(e, k, code.n, idx);
    var ok;
    ghost var found;
    ok, found := InvertMat(t, matrix, k);
    DecodesToRecovered(Rows(matrix[..], k, k), e, k, code.n, idx);
    assert index[..] == idx;
  }

  lemma DecodesToRecovered(d: Mat, e: Mat, k: nat, n: nat, idx: seq<nat>)
    requires EncodingMatrix(e, k, n) && Choice(idx, k, n) && k <= n <= 256
    requires Inverse(d, ChosenRows(e, idx, k), k)
    ensures Decodes(d, idx)
  {
    hide Fragment, Recovered, Dot;
    forall w: Vec | |w| == k
      ensures MatVec(d, w) == Recovered(idx, w)
    {
      var v := MatVec(d, w);
      InverseSides(d, ChosenRows(e, idx, k), k, v, w);
      forall r | 0 <= r < k
        ensures Fragment(v, idx[r]) == w[r]
      {
        assert MatVec(ChosenRows(e, idx, k), v)[r] == Dot(e[idx[r]], v, k);
      }
      AnyKRecover(idx, n, w, v);
    }
    forall row | 0 <= row < k
      ensures RowDecodes(d[row], idx, row)
    {
      forall w: Vec | |w| == k
        ensures Dot(d[row], w, k) == Recovered(idx, w)[row]
      {
        assert MatVec(d, w)[row] == Dot(d[row], w, k);
      }
    }
  }

  /** Packet `row` of the data recovered from the packets m, in place of was[..sz]. */
  ghost function RecoveredRange(m: Mat, idx: seq<nat>, row: nat, was: Vec, sz: nat): (v: Vec)
    requires |m| == |idx| && row < |idx| && AtLeast(m, sz)
    ensures |v| == |was|
  {
    seq(|was|, q requires 0 <= q < |was| => if q < sz then Recovered(idx, Column(m, q))[row] else was[q])
  }

  lemma RowRecovers(r: Vec, idx: seq<nat>, row: nat, m: Mat, was: Vec, sz: nat)
    requires |r| == |idx| == |m| && row < |idx| && AtLeast(m, sz)
    requires RowDecodes(r, idx, row)
    ensures CombinedRange(r, m, |idx|, was, 0, sz) == RecoveredRange(m, idx, row, was, sz)
  {
    hide Dot, Recovered;
  }

  /** What fec_decode asks of its caller. */
  ghost predicate DecodeReady(t: Tables, code: Fec, inpkts: Packets, outpkts: Packets, index: array<nat>, sz: nat)
    reads t.Repr(), code.encMatrix, index
  {
    && t.Ready() && code.Valid() && code.k <= 255
    && |inpkts| == code.k == index.Length && AllLong(inpkts, sz) && AllLong(outpkts, sz)
    && Choice(index[..], code.k, code.n) && OwnSlots(index[..])
    && |Missing(index[..], code.k)| <= |outpkts|
    && AllDistinct(outpkts) && Apart(outpkts, inpkts)
    && forall o :: 0 <= o < |outpkts| ==>
         outpkts[o] !in t.Repr() && outpkts[o] != code.encMatrix && (outpkts[o] as object) != index
  }

  /** Writes the missing primary packets, in ascending order, into the output packets. */
  method FecDecode(t: Tables, code: Fec, inpkts: Packets, outpkts: Packets, index: array<nat>, sz: nat)
    requires DecodeReady(t, code, inpkts, outpkts, index, sz)
    modifies outpkts
    ensures t.Ready() && code.Valid() && Contents(inpkts) == old(Contents(inpkts)) && index[..] == old(index[..])
    ensures forall o :: 0 <= o < |Missing(index[..], code.k)| ==>
              outpkts[o][..] == RecoveredRange(Contents(inpkts), index[..], Missing(index[..], code.k)[o],
                                               old(outpkts[o][..]), sz)
    ensures forall o :: |Missing(index[..], code.k)| <= o < |outpkts| ==> outpkts[o][..] == old(outpkts[o][..])
    ensures OnPolynomials(Contents(inpkts), index[..], Missing(index[..], code.k), Contents(outpkts), sz)
  {
    hide Rows, RecoveredRange, Decodes, Choice, OnPolynomials, t.Ready, code.Valid;
    CodeSizes(code);
    var mDec := BuildNewDecodeMatrix(t, code, index);
    assert Contents(inpkts) == old(Contents(inpkts));
    ghost var was := Contents(outpkts);
    DecodeLoop(t, code, inpkts, outpkts, index, mDec, sz);
    assert forall o :: 0 <= o < |outpkts| ==> |was[o]| == outpkts[o].Length;
    DecodedValues(Contents(inpkts), index[..], code.n, Missing(index[..], code.k), was, Contents(outpkts), sz);
  }

  /** Of every polynomial of degree below k through the received bytes m, at the points 0, 1, x, x^2, ... of their
      fragments idx, the bytes out are the values at the points of the rows. */
  ghost predicate OnPolynomials(m: Mat, idx: seq<nat>, rows: seq<nat>, out: Mat, sz: nat) {
    && |idx| == |m| && AtLeast(m, sz) && |rows| <= |out| && AtLeast(out, sz)
    && forall o, b: nat, q: Vec ::
         && 0 <= o < |rows| && b < sz && |q| == |idx|
         && (forall r :: 0 <= r < |idx| ==> Eval(q, if idx[r] == 0 then 0 else Power(2, idx[r] - 1)) == m[r][b])
         ==> out[o][b] == Eval(q, if rows[o] == 0 then 0 else Power(2, rows[o] - 1))
  }

  lemma DecodedValues(m: Mat, idx: seq<nat>, n: nat, rows: seq<nat>, was: Mat, out: Mat, sz: nat)
    requires 1 <= |idx| == |m| && |idx| <= n <= 256 && Choice(idx, |idx|, n) && AtLeast(m, sz) && AtLeast(out, sz)
    requires |rows| <= |was| == |out| && forall o :: 0 <= o < |rows| ==>
               rows[o] < |idx| && sz <= |was[o]| && out[o] == RecoveredRange(m, idx, rows[o], was[o], sz)
    ensures OnPolynomials(m, idx, rows, out, sz)
  {
    hide RecoveredRange, Eval, Power, Choice;
    forall o, b: nat, q: Vec |
      && 0 <= o < |rows| && b < sz && |q| == |idx|
      && (forall r :: 0 <= r < |idx| ==> Eval(q, if idx[r] == 0 then 0 else Power(2, idx[r] - 1)) == m[r][b])
      ensures out[o][b] == Eval(q, if rows[o] == 0 then 0 else Power(2, rows[o] - 1))
    {
      DecodedValue(m, idx, n, rows[o], was[o], sz, b, q);
    }
  }

  /** Each recovered byte is the value of the polynomial through the received bytes at its place. */
  lemma DecodedValue(m: Mat, idx: seq<nat>, n: nat, row: nat, was: Vec, sz: nat, b: nat, q: Vec)
    requires 1 <= |idx| == |m| == |q| && |idx| <= n <= 256 && Choice(idx, |idx|, n) && row < |idx|
    requires AtLeast(m, sz) && b < sz <= |was|
    requires forall r :: 0 <= r < |idx| ==> Eval(q, if idx[r] == 0 then 0 else Power(2, idx[r] - 1)) == m[r][b]
    ensures RecoveredRange(m, idx, row, was, sz)[b] == Eval(q, if row == 0 then 0 else Power(2, row - 1))
  {
    hide Recovered, Eval, Power, Choice;
    RecoveredValues(idx, n, Column(m, b), q, row);
  }

  method BuildNewDecodeMatrix(t: Tables, code: Fec, index: array<nat>) returns (mDec: array<gf>)
    requires t.Ready() && code.Valid() && code.k <= 255
    requires index.Length == code.k && Choice(index[..], code.k, code.n) && OwnSlots(index[..])
    ensures fresh(mDec) && mDec.Length == code.k * code.k && t.Ready() && code.Valid()
    ensures Decodes(Rows(mDec[..], code.k, code.k), index[..])
  {
    hide Rows, Decodes, Choice, OwnSlots, t.Ready, code.Valid;
    mDec := new gf[code.k * code.k];
    assert mDec !in t.Repr();
    BuildDecodeMatrix(t, code, index, code.k, mDec);
  }

  method DecodeLoop(t: Tables, code: Fec, inpkts: Packets, outpkts: Packets, index: array<nat>, mDec: array<gf>,
                    sz: nat)
    requires DecodeReady(t, code, inpkts, outpkts, index, sz)
    requires mDec.Length == code.k * code.k && Decodes(Rows(mDec[..], code.k, code.k), index[..]) && mDec !in outpkts
    modifies outpkts
    ensures t.Ready() && code.Valid() && Contents(inpkts) == old(Contents(inpkts)) && index[..] == old(index[..])
    ensures forall o :: 0 <= o < |Missing(index[..], code.k)| ==>
              outpkts[o][..] == RecoveredRange(Contents(inpkts), index[..], Missing(index[..], code.k)[o],
                                               old(outpkts[o][..]), sz)
    ensures forall o :: |Missing(index[..], code.k)| <= o < |outpkts| ==> outpkts[o][..] == old(outpkts[o][..])
  {
    hide Rows, RecoveredRange, Decodes, Choice, Missing, t.Ready, code.Valid;
    ghost var idx, m := index[..], Contents(inpkts);
    ghost var rows := Missing(idx, |idx|);
    MissingNone(idx);
    var outix: u8 := 0;
    var row: u8 := 0;
    while row as int < code.k
      invariant row as int <= code.k && outix as int == |Missing(idx, row as int)|
      invariant DecodeReady(t, code, inpkts, outpkts, index, sz)
      invariant index[..] == idx && Contents(inpkts) == m && Decodes(Rows(mDec[..], code.k, code.k), idx)
      invariant forall o :: 0 <= o < outix as int && o < |rows| ==>
                  outpkts[o][..] == RecoveredRange(m, idx, rows[o], old(outpkts[o][..]), sz)
      invariant forall o :: outix as int <= o < |outpkts| ==> outpkts[o][..] == old(outpkts[o][..])
    {
      MissingNext(idx, row as int);
      assert index[row] >= code.k || index[row] == row as int;
      if index[row] >= code.k {
        MissingAt(idx, row as int);
        DecodeOne(t, code, inpkts, outpkts[outix], mDec, row, sz, idx);
        assert Contents(inpkts) == m;
        outix := outix + 1;
      }
      row := row + 1;
    }
  }

  lemma CodeSizes(code: Fec)
    requires code.Valid()
    ensures 1 <= code.k <= code.n <= 256
  {
  }

  method DecodeOne(t: Tables, code: Fec, inpkts: Packets, dst: array<gf>, mDec: array<gf>, row: u8, sz: nat,
                   ghost idx: seq<nat>)
    requires t.Ready() && code.k <= 255 && |inpkts| == code.k == |idx| && AllLong(inpkts, sz)
    requires row as int < code.k && mDec.Length == code.k * code.k && sz <= dst.Length
    requires dst !in t.Repr() && dst !in inpkts && dst != mDec
    requires Decodes(Rows(mDec[..], code.k, code.k), idx)
    modifies dst
    ensures dst[..] == RecoveredRange(Contents(inpkts), idx, row as int, old(dst[..]), sz)
  {
    hide Rows, RecoveredRange, CombinedRange, RowDecodes, t.Ready;
    ghost var d, m := Rows(mDec[..], code.k, code.k), Contents(inpkts);
    var start := row as int * code.k;
    RowCells(mDec[..], code.k, code.k, row as int, start);
    RowRecovers(d[row], idx, row as int, m, dst[..], sz);
    CombineInto(t, dst, 0, sz, inpkts, mDec, start, code.k as u8, d[row]);
    assert Contents(inpkts) == m;
  }

  // ----- whole packets -----

  /** Packet i of the codeword of k data packets of sz bytes each. */
  ghost function Codeword(data: Mat, i: nat, sz: nat): (v: Vec)
    requires AtLeast(data, sz)
    ensures |v| == sz
  {
    seq(sz, q requires 0 <= q < sz => Fragment(Column(data, q), i))
  }

  lemma CodewordPrimary(data: Mat, i: nat, sz: nat)
    requires AtLeast(data, sz) && i < |data| <= 256
    ensures Codeword(data, i, sz) == data[i][..sz]
  {
    hide Fragment;
    forall q | 0 <= q < sz
      ensures Codeword(data, i, sz)[q] == data[i][q]
    {
      Systematic(Column(data, q), i);
    }
  }

  /** Any k of the n packets of a codeword recover each data packet exactly. */
  lemma AnyKPackets(data: Mat, m: Mat, idx: seq<nat>, n: nat, row: nat, was: Vec, sz: nat)
    requires |data| == |m| == |idx| <= n <= 256 && Choice(idx, |idx|, n) && row < |idx|
    requires AtLeast(data, sz) && AtLeast(m, sz) && sz <= |was|
    requires forall r :: 0 <= r < |idx| ==> m[r][..sz] == Codeword(data, idx[r], sz)
    ensures RecoveredRange(m, idx, row, was, sz)[..sz] == data[row][..sz]
  {
    hide Fragment, Recovered;
    forall q | 0 <= q < sz
      ensures Recovered(idx, Column(m, q))[row] == data[row][q]
    {
      forall r | 0 <= r < |idx|
        ensures Fragment(Column(data, q), idx[r]) == Column(m, q)[r]
      {
        assert m[r][..sz][q] == Codeword(data, idx[r], sz)[q];
      }
      AnyKRecover(idx, n, Column(m, q), Column(data, q));
    }
  }

  /** What encoding leaves in a secondary packet is the codeword's packet. */
  lemma EncodedIsCodeword(data: Mat, i: nat, was: Vec, sz: nat)
    requires AtLeast(data, sz) && sz <= |was|
    ensures FragmentRange(data, i, was, 0, sz)[..sz] == Codeword(data, i, sz)
  {
    hide Fragment;
  }

  /** Packet i after encoding: a source packet, or a secondary packet that held was[i - k] before. */
  ghost function Encoded(data: Mat, was: Mat, sz: nat, i: nat): (v: Vec)
    requires AtLeast(data, sz) && i < |data| + |was|
    ensures i >= |data| ==> |v| == |was[i - |data|]|
  {
    if i < |data| then data[i] else FragmentRange(data, i, was[i - |data|], 0, sz)
  }

  /** Encode, keep any k of the n packets, decode: every source packet comes back. */
  lemma EncodeDecode(data: Mat, was: Mat, m: Mat, idx: seq<nat>, row: nat, out: Vec, sz: nat)
    requires 1 <= |data| == |m| == |idx| && |data| + |was| <= 256 && row < |data|
    requires AtLeast(data, sz) && AtLeast(was, sz) && sz <= |out| && Choice(idx, |idx|, |data| + |was|)
    requires forall r :: 0 <= r < |idx| ==> m[r] == Encoded(data, was, sz, idx[r])
    ensures AtLeast(m, sz) && RecoveredRange(m, idx, row, out, sz)[..sz] == data[row][..sz]
  {
    hide FragmentRange, Codeword, RecoveredRange;
    forall r | 0 <= r < |idx|
      ensures sz <= |m[r]| && m[r][..sz] == Codeword(data, idx[r], sz)
    {
      if idx[r] < |data| {
        CodewordPrimary(data, idx[r], sz);
      } else {
        EncodedIsCodeword(data, idx[r], was[idx[r] - |data|], sz);
      }
    }
    AnyKPackets(data, m, idx, |data| + |was|, row, out, sz);
  }
}
