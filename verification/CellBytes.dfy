/** Memory cells read one byte at a time, and what it means that they hold given bytes. */
module CellBytes {

  type byte = x: int | 0 <= x < 256 witness 0

  type Cells = nat -> byte

  /** The cells from a on hold these bytes. */
  ghost predicate Stored(cell: Cells, a: nat, bytes: seq<byte>) {
    forall i :: 0 <= i < |bytes| ==> cell(a + i) == bytes[i]
  }

  lemma StoredSplit(cell: Cells, a: nat, x: seq<byte>, y: seq<byte>)
    requires Stored(cell, a, x + y)
    ensures Stored(cell, a, x) && Stored(cell, a + |x|, y)
  {
    forall i | 0 <= i < |x|
      ensures cell(a + i) == x[i]
    {
      assert (x + y)[i] == x[i];
    }
    forall i | 0 <= i < |y|
      ensures cell(a + |x| + i) == y[i]
    {
      assert cell(a + (|x| + i)) == (x + y)[|x| + i];
    }
  }

  lemma StoredAt(cell: Cells, a: nat, bytes: seq<byte>, i: nat)
    requires Stored(cell, a, bytes) && i < |bytes|
    ensures cell(a + i) == bytes[i]
  {
  }
}
