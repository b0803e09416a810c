/** Received USB transfers: frames laid out one after the other behind their descriptors, and the loop that takes
    them apart (recvbuf2recvframe in FrameParser.cpp). */
module FrameParser {
  import opened CellBytes

  const DESC_SIZE := 24

  /** Rounded up to a multiple of eight, by shifts. */
  function Round8(size: nat): (r: nat)
    ensures r % 8 == 0 && size <= r < size + 8
  {
    (size / 8 + if size % 8 != 0 then 1 else 0) * 8
  }

  // ----- descriptor fields, at the address of a descriptor -----

  function LengthField(cell: Cells, a: nat): (n: nat)
    ensures n < 0x4000
  {
    cell(a) + cell(a + 1) % 64 * 256
  }

  predicate Damaged(cell: Cells, a: nat) {
    cell(a + 1) / 64 != 0
  }

  function DriverInfoField(cell: Cells, a: nat): (n: nat)
    ensures n <= 120
  {
    cell(a + 2) % 16 * 8
  }

  function ShiftField(cell: Cells, a: nat): (n: nat)
    ensures n <= 3
  {
    cell(a + 3) % 4
  }

  /** The descriptor is that of a received frame, not of a report of the firmware. */
  predicate IsNormal(cell: Cells, a: nat) {
    cell(a + 11) / 16 % 2 == 0
  }

  function Span(cell: Cells, a: nat, n: nat): (s: seq<byte>)
    ensures |s| == n && Stored(cell, a, s)
  {
    seq(n, i requires 0 <= i < n => cell(a + i))
  }

  /** The word of four bytes at a, lowest byte first. */
  function WordAt(cell: Cells, a: nat): (w: nat) {
    (cell(a) as int) + 256 * (cell(a + 1) as int) + 65536 * (cell(a + 2) as int) + 16777216 * (cell(a + 3) as int)
  }

  /** The fields by bit position: of the first word bits 0 to 13 are the length, 14 and 15 the two error flags, 16 to
      19 the driver information in units of eight, 24 and 25 the shift; bit 28 of the third word marks a report. */
  lemma DescriptorBits(cell: Cells, a: nat)
    ensures LengthField(cell, a) == WordAt(cell, a) % 16384
    ensures Damaged(cell, a) <==> WordAt(cell, a) / 16384 % 2 == 1 || WordAt(cell, a) / 32768 % 2 == 1
    ensures DriverInfoField(cell, a) == WordAt(cell, a) / 65536 % 16 * 8
    ensures ShiftField(cell, a) == WordAt(cell, a) / 16777216 % 4
    ensures IsNormal(cell, a) <==> WordAt(cell, a + 8) / 268435456 % 2 == 0
  {
    var b0, b1, high := cell(a) as int, cell(a + 1) as int, cell(a + 2) as int + 256 * (cell(a + 3) as int);
    assert WordAt(cell, a) == b0 + 256 * b1 + 65536 * high;
    LengthBits(b0, b1 / 64, b1 % 64, high);
    ErrorBits(b0, b1, high, b1 / 64, b1 / 128);
    HighBits(b0 + 256 * b1, cell(a + 2) / 16, cell(a + 2) % 16, cell(a + 3));
    ReportBit(cell(a + 8) + 256 * cell(a + 9) + 65536 * cell(a + 10), cell(a + 11) / 16, cell(a + 11) % 16);
  }

  lemma LengthBits(b0: int, q: int, r: int, high: int)
    requires 0 <= b0 < 256 && 0 <= q < 4 && 0 <= r < 64 && high >= 0
    ensures var w := b0 + 256 * (64 * q + r) + 65536 * high;
            w % 16384 == b0 + r * 256 && w / 16384 == q + 4 * high
  {
    var w := b0 + 256 * (64 * q + r) + 65536 * high;
    assert w == 16384 * (q + 4 * high) + (b0 + 256 * r);
  }

  lemma ErrorBits(b0: int, b1: int, high: int, q: int, top: int)
    requires 0 <= b0 < 256 && 0 <= b1 < 256 && high >= 0
    requires 64 * q <= b1 < 64 * q + 64 && 128 * top <= b1 < 128 * top + 128
    ensures var w := b0 + 256 * b1 + 65536 * high;
            q != 0 <==> w / 16384 % 2 == 1 || w / 32768 % 2 == 1
  {
    var w, rest := b0 + 256 * b1 + 65536 * high, b1 - 128 * top;
    LengthBits(b0, q, b1 - 64 * q, high);
    assert w == 32768 * (top + 2 * high) + (b0 + 256 * rest) && 0 <= b0 + 256 * rest < 32768;
    HalfOf(w, top + 2 * high);
    Parity(q, 2 * high);
    Parity(top, high);
  }

  lemma HalfOf(w: int, q: int)
    requires 32768 * q <= w < 32768 * q + 32768
    ensures w / 32768 == q
  {
  }

  lemma Parity(x: int, y: int)
    ensures (x + 2 * y) % 2 == x % 2
  {
  }

  lemma HighBits(low: int, q: int, r: int, b3: int)
    requires 0 <= low < 65536 && 0 <= q < 16 && 0 <= r < 16 && 0 <= b3 < 256
    ensures var w := low + 65536 * (16 * q + r + 256 * b3); w / 65536 % 16 == r && w / 16777216 == b3
  {
    var w := low + 65536 * (16 * q + r + 256 * b3);
    assert w / 65536 == 16 * (q + 16 * b3) + r;
    assert w == 16777216 * b3 + (65536 * (16 * q + r) + low);
  }

  lemma ReportBit(low: int, q: int, r: int)
    requires 0 <= low < 16777216 && 0 <= q < 16 && 0 <= r < 16
    ensures (low + 16777216 * (16 * q + r)) / 268435456 == q
  {
  }

  // ----- the transfer -----

  /** A frame: its descriptor, the driver information and the shift that follow it, and its payload. */
  datatype Frame = Frame(desc: seq<byte>, info: seq<byte>, payload: seq<byte>)

  /** An undamaged frame whose descriptor states its lengths. */
  predicate IsFrame(f: Frame) {
    && |f.desc| == DESC_SIZE
    && f.desc[1] / 64 == 0
    && |f.payload| == f.desc[0] as int + f.desc[1] as int % 64 * 256 && f.payload != []
    && |f.info| == f.desc[2] as int % 16 * 8 + f.desc[3] as int % 4
  }

  predicate CarriesData(f: Frame)
    requires IsFrame(f)
  {
    f.desc[11] / 16 % 2 == 0
  }

  function Encode(f: Frame): (bytes: seq<byte>) {
    f.desc + f.info + f.payload
  }

  predicate AllFrames(fs: seq<Frame>) {
    forall i :: 0 <= i < |fs| ==> IsFrame(fs[i])
  }

  /** The payloads of the received frames, in order. */
  function Payloads(fs: seq<Frame>): (payloads: seq<seq<byte>>)
    requires AllFrames(fs)
  {
    if fs == [] then []
    else (if CarriesData(fs[0]) then [fs[0].payload] else []) + Payloads(fs[1..])
  }

  // ----- the parser -----

  function PacketOffset(cell: Cells, a: nat): (n: nat)
    ensures DESC_SIZE <= n < 0x1_0000 - 8
  {
    DESC_SIZE + DriverInfoField(cell, a) + ShiftField(cell, a) + LengthField(cell, a)
  }

  /** The parser stops at this descriptor without a frame. */
  predicate Rejects(cell: Cells, a: nat, size: nat) {
    Damaged(cell, a) || LengthField(cell, a) == 0 || PacketOffset(cell, a) > size
  }

  function Payload(cell: Cells, a: nat): (bytes: seq<byte>) {
    Span(cell, a + ShiftField(cell, a) + DriverInfoField(cell, a) + DESC_SIZE, LengthField(cell, a))
  }

  function Parse(cell: Cells, a: nat, size: nat): (payloads: seq<seq<byte>>)
    decreases size
  {
    if Rejects(cell, a, size) then []
    else
      (if IsNormal(cell, a) then [Payload(cell, a)] else [])
      + var next := Round8(PacketOffset(cell, a));
        if next >= size then [] else Parse(cell, a + next, size - next)
  }

  /** The frames, each starting at a multiple of eight from the first; what fills the gaps does not matter. After the
      last frame the transfer ends, or goes on with a descriptor that the parser rejects. */
  ghost predicate LaidOut(cell: Cells, a: nat, fs: seq<Frame>, size: nat)
    requires AllFrames(fs)
    decreases |fs|
  {
    if fs == [] then Rejects(cell, a, size)
    else
      var used := |Encode(fs[0])|;
      && Stored(cell, a, Encode(fs[0]))
      && if Round8(used) >= size then used <= size && |fs| == 1
         else LaidOut(cell, a + Round8(used), fs[1..], size - Round8(used))
  }

  /** At a well-formed frame the parser sees its lengths and its payload. */
  lemma SeesFrame(cell: Cells, a: nat, f: Frame, size: nat)
    requires IsFrame(f) && Stored(cell, a, Encode(f)) && |Encode(f)| <= size
    ensures !Rejects(cell, a, size) && PacketOffset(cell, a) == |Encode(f)|
    ensures (IsNormal(cell, a) <==> CarriesData(f)) && Payload(cell, a) == f.payload
  {
    hide Stored;
    StoredSplit(cell, a, f.desc + f.info, f.payload);
    StoredSplit(cell, a, f.desc, f.info);
    StoredAt(cell, a, f.desc, 0);
    StoredAt(cell, a, f.desc, 1);
    StoredAt(cell, a, f.desc, 2);
    StoredAt(cell, a, f.desc, 3);
    StoredAt(cell, a, f.desc, 11);
    forall i | 0 <= i < |f.payload|
      ensures Payload(cell, a)[i] == f.payload[i]
    {
      StoredAt(cell, a + |f.desc + f.info|, f.payload, i);
      StoredAt(cell, a + ShiftField(cell, a) + DriverInfoField(cell, a) + DESC_SIZE, Payload(cell, a), i);
    }
  }

  /** Parsing a transfer gives exactly the payloads that were laid out, in order; what lies behind a rejected descriptor
      is lost. */
  lemma {:induction false} RoundTrip(cell: Cells, a: nat, fs: seq<Frame>, size: nat)
    requires AllFrames(fs) && LaidOut(cell, a, fs, size)
    ensures Parse(cell, a, size) == Payloads(fs)
    decreases |fs|
  {
    hide IsFrame, Encode, Rejects, Stored, Payload, IsNormal, CarriesData, PacketOffset;
    if fs == [] {
    } else {
      var f := fs[0];
      SeesFrame(cell, a, f, size);
      if Round8(|Encode(f)|) >= size {
        assert fs[1..] == [];
      } else {
        RoundTrip(cell, a + Round8(|Encode(f)|), fs[1..], size - Round8(|Encode(f)|));
      }
    }
  }

  /** A frame whose descriptor reports an error ends the transfer: neither it nor anything behind it is returned. */
  lemma DamagedEnds(cell: Cells, a: nat, fs: seq<Frame>, size: nat, b: nat, left: nat)
    requires AllFrames(fs) && Before(cell, a, fs, size, b, left) && Damaged(cell, b)
    ensures Parse(cell, a, size) == Payloads(fs)
  {
    hide Parse, Payloads;
    BeforeLaidOut(cell, a, fs, size, b, left);
    RoundTrip(cell, a, fs, size);
  }

  /** The frames lie before address b, where `left` bytes are left of the transfer. */
  ghost predicate Before(cell: Cells, a: nat, fs: seq<Frame>, size: nat, b: nat, left: nat)
    requires AllFrames(fs)
    decreases |fs|
  {
    if fs == [] then a == b && size == left
    else
      var used := Round8(|Encode(fs[0])|);
      Stored(cell, a, Encode(fs[0])) && used < size && Before(cell, a + used, fs[1..], size - used, b, left)
  }

  lemma {:induction false} BeforeLaidOut(cell: Cells, a: nat, fs: seq<Frame>, size: nat, b: nat, left: nat)
    requires AllFrames(fs) && Before(cell, a, fs, size, b, left) && Rejects(cell, b, left)
    ensures LaidOut(cell, a, fs, size)
    decreases |fs|
  {
    hide Encode, Stored, Rejects;
    if fs == [] {
    } else {
      var used := Round8(|Encode(fs[0])|);
      BeforeLaidOut(cell, a + used, fs[1..], size - used, b, left);
    }
  }

  /** By the bytes of its descriptor: a frame with an error bit, without a length or longer than what is left ends the
      transfer; any other is returned, unless it is a report, and parsing goes on at the next multiple of eight. */
  lemma FirstFrame(cell: Cells, a: nat, size: nat, length: nat, before: nat, payload: seq<byte>)
    requires length == cell(a) as int + 256 * (cell(a + 1) as int % 64)
    requires before == 24 + 8 * (cell(a + 2) as int % 16) + cell(a + 3) as int % 4
    requires |payload| == length && forall i :: 0 <= i < length ==> payload[i] == cell(a + before + i)
    ensures cell(a + 1) >= 64 || length == 0 || before + length > size ==>
              Parse(cell, a, size) == []
    ensures cell(a + 1) < 64 && 0 < length && before + length <= size ==>
              var next := before + length + (8 - (before + length) % 8) % 8;
              Parse(cell, a, size)
              == (if cell(a + 11) / 16 % 2 == 0 then [payload] else [])
                 + (if next >= size then [] else Parse(cell, a + next, size - next))
  {
    hide Parse, Round8, Payload;
    FirstFields(cell, a, length, before);
    ParseRound(cell, a, size, []);
    if cell(a + 1) < 64 && 0 < length && before + length <= size {
      PaddingTo8(before + length);
      FirstPayload(cell, a, length, before, payload);
      assert [] + Parse(cell, a, size) == Parse(cell, a, size);
    }
  }

  lemma FirstFields(cell: Cells, a: nat, length: nat, before: nat)
    requires length == cell(a) as int + 256 * (cell(a + 1) as int % 64)
    requires before == 24 + 8 * (cell(a + 2) as int % 16) + cell(a + 3) as int % 4
    ensures LengthField(cell, a) == length && PacketOffset(cell, a) == before + length
    ensures Damaged(cell, a) <==> cell(a + 1) >= 64
  {
  }

  lemma FirstPayload(cell: Cells, a: nat, length: nat, before: nat, payload: seq<byte>)
    requires length == cell(a) as int + 256 * (cell(a + 1) as int % 64)
    requires before == 24 + 8 * (cell(a + 2) as int % 16) + cell(a + 3) as int % 4
    requires |payload| == length && forall i :: 0 <= i < length ==> payload[i] == cell(a + before + i)
    ensures Payload(cell, a) == payload
  {
  }

  lemma PaddingTo8(n: nat)
    ensures Round8(n) == n + (8 - n % 8) % 8
  {
  }

  /** Fewer bytes than a descriptor end the transfer, whatever memory holds behind them. */
  lemma ShortTail(cell: Cells, a: nat, size: nat)
    requires size < DESC_SIZE
    ensures Parse(cell, a, size) == []
  {
    hide LengthField, DriverInfoField, ShiftField;
    assert PacketOffset(cell, a) > size;
  }

  /** What one round of the loop leaves to do. */
  lemma ParseRound(cell: Cells, a: nat, size: nat, before: seq<seq<byte>>)
    ensures Rejects(cell, a, size) ==> Parse(cell, a, size) == []
    ensures !Rejects(cell, a, size) ==>
              var next := Round8(PacketOffset(cell, a));
              && 0 < next < 0x1_0000
              && before + Parse(cell, a, size) ==
                 (before + if IsNormal(cell, a) then [Payload(cell, a)] else [])
                 + if next >= size then [] else Parse(cell, a + next, size - next)
  {
    hide Rejects, IsNormal, Payload, PacketOffset, Round8;
    if !Rejects(cell, a, size) {
      var next := Round8(PacketOffset(cell, a));
      var own := if IsNormal(cell, a) then [Payload(cell, a)] else [];
      var rest := if next >= size then [] else Parse(cell, a + next, size - next);
      assert Parse(cell, a, size) == own + rest;
      assert before + (own + rest) == (before + own) + rest;
    }
  }

  /** The loop: the span shrinks from the front until it is used up or a descriptor is rejected. Bytes behind the
      span are whatever memory holds. */
  method ReceiveFrames(cell: Cells, start: nat, size: nat) returns (frames: seq<seq<byte>>)
    ensures frames == Parse(cell, start, size)
    ensures forall fs :: AllFrames(fs) && LaidOut(cell, start, fs, size) ==> frames == Payloads(fs)
  {
    hide IsNormal, LaidOut, AllFrames, Payloads, Rejects, Payload, PacketOffset, Parse, Round8;
    frames := [];
    var a: nat, left: nat := start, size;
    var going := true;
    while going
      invariant frames + (if going then Parse(cell, a, left) else []) == Parse(cell, start, size)
      decreases going, left
    {
      ParseRound(cell, a, left, frames);
      if Rejects(cell, a, left) {
        going := false;
      } else {
        if IsNormal(cell, a) {
          frames := frames + [Payload(cell, a)];
        }
        var offset := Round8(PacketOffset(cell, a)) % 0x1_0000;
        if offset >= left {
          going := false;
        } else {
          a, left := a + offset, left - offset;
          going := left > 0;
        }
      }
    }
    forall fs | AllFrames(fs) && LaidOut(cell, start, fs, size)
      ensures frames == Payloads(fs)
    {
      RoundTrip(cell, start, fs, size);
    }
  }
}
