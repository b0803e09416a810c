/** The receive window as a state machine on values: a FIFO of consecutive unfinished blocks, fed one
    decrypted fragment at a time, emitting packets. The ring of WFBProcessor.cpp refines it. */
module ReceiveWindow {
  import opened Vectors
  import opened ErasureCode
  import opened FecCodec
  import opened Wrappers

  /** Ring size, primary and total fragments per block, bytes per fragment. */
  datatype Config = Config(ring: nat, k: nat, n: nat, len: nat) {
    ghost predicate Sane() {
      ring >= 1 && 1 <= k <= n <= 255
    }
  }

  type Fragments = seq<Option<Vec>>

  /** One unfinished block: which fragments have arrived, and the next one to send. */
  datatype Block = Block(idx: nat, frags: Fragments, next: nat)

  /** The live blocks, oldest first, and the newest block ever seen. */
  datatype Window = Window(blocks: seq<Block>, last: Option<nat>)

  datatype Packet = Packet(block: nat, frag: nat, bytes: Vec)

  datatype Emission = Emission(block: nat, frag: nat, bytes: Vec)

  // ----- counting fragments -----

  /** How many of the fragments lo..hi have arrived. */
  ghost function Count(frags: Fragments, lo: nat, hi: nat): (c: nat)
    requires lo <= hi <= |frags|
    ensures c <= hi - lo
    decreases hi - lo
  {
    if lo == hi then 0 else (if frags[lo].Some? then 1 else 0) + Count(frags, lo + 1, hi)
  }

  ghost function Has(frags: Fragments): (n: nat) {
    Count(frags, 0, |frags|)
  }

  lemma {:induction false} CountSplit(frags: Fragments, lo: nat, mid: nat, hi: nat)
    requires lo <= mid <= hi <= |frags|
    ensures Count(frags, lo, hi) == Count(frags, lo, mid) + Count(frags, mid, hi)
    decreases mid - lo
  {
    if lo == mid {
    } else {
      CountSplit(frags, lo + 1, mid, hi);
    }
  }

  lemma {:induction false} CountSet(frags: Fragments, f: nat, v: Vec, lo: nat, hi: nat)
    requires lo <= hi <= |frags| && f < |frags| && frags[f].None?
    ensures Count(frags[f := Some(v)], lo, hi) == Count(frags, lo, hi) + if lo <= f < hi then 1 else 0
    decreases hi - lo
  {
    if lo == hi {
    } else {
      CountSet(frags, f, v, lo + 1, hi);
    }
  }

  lemma {:induction false} CountNone(frags: Fragments, lo: nat, hi: nat)
    requires lo <= hi <= |frags| && forall j :: lo <= j < hi ==> frags[j].None?
    ensures Count(frags, lo, hi) == 0
    decreases hi - lo
  {
    if lo == hi {
    } else {
      CountNone(frags, lo + 1, hi);
    }
  }

  lemma {:induction false} CountAll(frags: Fragments, lo: nat, hi: nat)
    requires lo <= hi <= |frags| && forall j :: lo <= j < hi ==> frags[j].Some?
    ensures Count(frags, lo, hi) == hi - lo
    decreases hi - lo
  {
    if lo == hi {
    } else {
      CountAll(frags, lo + 1, hi);
    }
  }

  // ----- choosing the fragments to decode from -----

  /** The first arrived fragment at or after j. */
  ghost function NextArrived(frags: Fragments, j: nat): (r: nat)
    requires j <= |frags|
    ensures j <= r <= |frags|
    ensures forall i :: j <= i < r ==> frags[i].None?
    ensures r < |frags| ==> frags[r].Some?
    decreases |frags| - j
  {
    if j < |frags| && frags[j].None? then NextArrived(frags, j + 1) else j
  }

  /** For the places i..k: the place itself where its fragment arrived, else the next unused arrived fragment from j
      on. */
  ghost function Pick(frags: Fragments, k: nat, i: nat, j: nat): (idx: seq<nat>)
    requires i <= k <= |frags| && j <= |frags|
    ensures |idx| == k - i
    decreases k - i
  {
    if i == k then []
    else if frags[i].Some? then [i] + Pick(frags, k, i + 1, j)
    else
      var r := NextArrived(frags, j);
      [r] + Pick(frags, k, i + 1, if r < |frags| then r + 1 else r)
  }

  /** With enough fragments left over, every pick has arrived, and stand-ins are distinct and in order. */
  lemma {:induction false} PickValid(frags: Fragments, k: nat, i: nat, j: nat)
    requires i <= k <= j <= |frags|
    requires k - i <= Count(frags, i, k) + Count(frags, j, |frags|)
    ensures forall r :: 0 <= r < k - i ==>
              var p := Pick(frags, k, i, j)[r];
              p < |frags| && frags[p].Some? && (p == i + r || (j <= p && frags[i + r].None?))
    ensures forall r, s :: 0 <= r < s < k - i ==> Pick(frags, k, i, j)[r] != Pick(frags, k, i, j)[s]
    decreases k - i
  {
    if i == k {
    } else {
      var idx := Pick(frags, k, i, j);
      if frags[i].Some? {
        PickValid(frags, k, i + 1, j);
        PickShift(frags, k, i, idx, Pick(frags, k, i + 1, j), j);
      } else {
        var r := NextArrived(frags, j);
        CountSplit(frags, j, r, |frags|);
        CountNone(frags, j, r);
        assert r < |frags|;
        PickValid(frags, k, i + 1, r + 1);
        PickShift(frags, k, i, idx, Pick(frags, k, i + 1, r + 1), r + 1);
      }
    }
  }

  lemma PickShift(frags: Fragments, k: nat, i: nat, idx: seq<nat>, rest: seq<nat>, j: nat)
    requires i < k <= j <= |frags| && |idx| == k - i && |rest| == k - i - 1 && idx[1..] == rest
    requires idx[0] < |frags| && frags[idx[0]].Some? && (idx[0] == i || (k <= idx[0] < j && frags[i].None?))
    requires forall r :: 0 <= r < |rest| ==>
               && rest[r] < |frags| && frags[rest[r]].Some?
               && (rest[r] == i + 1 + r || (j <= rest[r] && frags[i + 1 + r].None?))
    requires forall r, s :: 0 <= r < s < |rest| ==> rest[r] != rest[s]
    ensures forall r :: 1 <= r < |idx| ==>
               idx[r] < |frags| && frags[idx[r]].Some? && (idx[r] == i + r || (j <= idx[r] && frags[i + r].None?))
    ensures forall r, s :: 0 <= r < s < |idx| ==> idx[r] != idx[s]
  {
    forall r | 1 <= r < |idx|
      ensures idx[r] == rest[r - 1]
    {
      assert idx[1..][r - 1] == idx[r];
    }
    forall r, s | 0 <= r < s < |idx|
      ensures idx[r] != idx[s]
    {
      if r > 0 {
        assert rest[r - 1] != rest[s - 1];
      }
    }
  }

  /** The index array handed to fec_decode. */
  ghost function FecIndex(frags: Fragments, k: nat): (idx: seq<nat>)
    requires k <= |frags|
    ensures |idx| == k
  {
    Pick(frags, k, 0, k)
  }

  lemma FecIndexValid(frags: Fragments, k: nat)
    requires k <= |frags| && Has(frags) >= k
    ensures Choice(FecIndex(frags, k), k, |frags|) && OwnSlots(FecIndex(frags, k))
    ensures forall r :: 0 <= r < k ==> frags[FecIndex(frags, k)[r]].Some?
    ensures forall r :: 0 <= r < k && frags[r].Some? ==> FecIndex(frags, k)[r] == r
    ensures forall r :: 0 <= r < k && frags[r].None? ==> FecIndex(frags, k)[r] >= k
  {
    CountSplit(frags, 0, k, |frags|);
    PickValid(frags, k, 0, k);
    PickOwn(frags, k, 0, k);
  }

  lemma {:induction false} PickOwn(frags: Fragments, k: nat, i: nat, j: nat)
    requires i <= k <= |frags| && j <= |frags|
    ensures forall r :: 0 <= r < k - i && frags[i + r].Some? ==> Pick(frags, k, i, j)[r] == i + r
    decreases k - i
  {
    if i == k {
    } else {
      var j' := if frags[i].Some? then j else var r := NextArrived(frags, j); if r < |frags| then r + 1 else r;
      PickOwn(frags, k, i + 1, j');
      forall r | 0 <= r < k - i && frags[i + r].Some?
        ensures Pick(frags, k, i, j)[r] == i + r
      {
        if r > 0 {
          assert frags[i + 1 + (r - 1)].Some?;
        }
      }
    }
  }

  /** The packets handed to fec_decode. */
  ghost function Inputs(frags: Fragments, idx: seq<nat>): (m: Mat)
    requires forall r :: 0 <= r < |idx| ==> idx[r] < |frags| && frags[idx[r]].Some?
    ensures |m| == |idx|
  {
    seq(|idx|, r requires 0 <= r < |idx| => frags[idx[r]].value)
  }

  ghost function DecodeInputs(frags: Fragments, k: nat): (m: Mat)
    requires k <= |frags| && Has(frags) >= k
    ensures |m| == k
  {
    FecIndexValid(frags, k);
    Inputs(frags, FecIndex(frags, k))
  }

  lemma DecodeInputsSized(frags: Fragments, k: nat, len: nat)
    requires k <= |frags| && Has(frags) >= k && Sized(frags, len)
    ensures AtLeast(DecodeInputs(frags, k), len)
  {
    hide Has, FecIndex;
    FecIndexValid(frags, k);
  }

  /** Every stored fragment has len bytes. */
  ghost predicate Sized(frags: Fragments, len: nat) {
    forall j :: 0 <= j < |frags| && frags[j].Some? ==> |frags[j].value| == len
  }

  /** Primary packet i of a decodable block: the one that arrived, or the one decoded from k others. */
  ghost function CompletedPacket(frags: Fragments, k: nat, len: nat, i: nat): (v: Vec)
    requires i < k <= |frags| && Has(frags) >= k && Sized(frags, len)
    ensures |v| == len
  {
    DecodeInputsSized(frags, k, len);
    if frags[i].Some? then frags[i].value
    else RecoveredRange(DecodeInputs(frags, k), FecIndex(frags, k), i, Zeros(len), len)
  }

  // ----- emissions -----

  /** The fragments of lo..hi that have arrived, in order. */
  ghost function FlushRange(b: Block, lo: nat, hi: nat): (out: seq<Emission>)
    requires lo <= hi <= |b.frags|
    decreases hi - lo
  {
    if lo == hi then []
    else (if b.frags[lo].Some? then [Emission(b.idx, lo, b.frags[lo].value)] else []) + FlushRange(b, lo + 1, hi)
  }

  ghost function Flush(b: Block, k: nat): (out: seq<Emission>)
    requires k <= |b.frags|
  {
    if b.next <= k then FlushRange(b, b.next, k) else []
  }

  ghost function FlushAll(bs: seq<Block>, k: nat): (out: seq<Emission>)
    requires forall j :: 0 <= j < |bs| ==> k <= |bs[j].frags|
  {
    if bs == [] then [] else Flush(bs[0], k) + FlushAll(bs[1..], k)
  }

  lemma {:induction false} FlushRangeSnoc(b: Block, lo: nat, hi: nat)
    requires lo <= hi < |b.frags|
    ensures FlushRange(b, lo, hi + 1)
         == FlushRange(b, lo, hi) + (if b.frags[hi].Some? then [Emission(b.idx, hi, b.frags[hi].value)] else [])
    decreases hi - lo
  {
    var last := if b.frags[hi].Some? then [Emission(b.idx, hi, b.frags[hi].value)] else [];
    if lo == hi {
      assert FlushRange(b, lo, hi + 1) == last + FlushRange(b, hi + 1, hi + 1);
    } else {
      FlushRangeSnoc(b, lo + 1, hi);
      var own := if b.frags[lo].Some? then [Emission(b.idx, lo, b.frags[lo].value)] else [];
      assert own + (FlushRange(b, lo + 1, hi) + last) == (own + FlushRange(b, lo + 1, hi)) + last;
    }
  }

  lemma {:induction false} FlushAllSnoc(bs: seq<Block>, b: Block, k: nat)
    requires k <= |b.frags| && forall j :: 0 <= j < |bs| ==> k <= |bs[j].frags|
    ensures FlushAll(bs + [b], k) == FlushAll(bs, k) + Flush(b, k)
    decreases |bs|
  {
    hide Flush;
    if bs == [] {
      assert bs + [b] == [b] && [b][1..] == [];
      assert FlushAll([b], k) == Flush(b, k) + FlushAll([], k);
    } else {
      assert (bs + [b])[0] == bs[0] && (bs + [b])[1..] == bs[1..] + [b];
      FlushAllSnoc(bs[1..], b, k);
    }
  }

  /** All primary packets of a decodable block from lo on. */
  ghost function EmitCompleted(b: Block, k: nat, len: nat, lo: nat): (out: seq<Emission>)
    requires lo <= k <= |b.frags| && Has(b.frags) >= k && Sized(b.frags, len)
    decreases k - lo
  {
    if lo == k then [] else [Emission(b.idx, lo, CompletedPacket(b.frags, k, len, lo))] + EmitCompleted(b, k, len,
        lo + 1)
  }

  /** The end of the run of arrived fragments that starts at f. */
  ghost function RunEnd(frags: Fragments, f: nat, k: nat): (r: nat)
    requires f <= k <= |frags|
    ensures f <= r <= k
    ensures forall j :: f <= j < r ==> frags[j].Some?
    ensures r < k ==> frags[r].None?
    decreases k - f
  {
    if f < k && frags[f].Some? then RunEnd(frags, f + 1, k) else f
  }

  lemma RunEndNext(frags: Fragments, f: nat, k: nat)
    requires f <= k <= |frags|
    ensures RunEnd(frags, f, k) == if f < k && frags[f].Some? then RunEnd(frags, f + 1, k) else f
  {
  }

  // ----- the window invariant -----

  ghost function FreshBlock(c: Config, idx: nat): (b: Block) {
    Block(idx, seq(c.n, _ => None), 0)
  }

  /** A block at rest is undecodable, and everything before its next fragment has arrived. */
  ghost predicate BlockAtRest(c: Config, b: Block) {
    && |b.frags| == c.n && Sized(b.frags, c.len)
    && c.k <= c.n && b.next < c.k && Has(b.frags) < c.k
    && forall j :: 0 <= j < b.next ==> b.frags[j].Some?
  }

  /** The live blocks are the consecutive ones up to the last known, and only the oldest has sent anything. */
  ghost predicate Valid(c: Config, w: Window) {
    && c.Sane()
    && |w.blocks| <= c.ring
    && (w.blocks != [] ==> w.last.Some?)
    && (w.last.Some? ==> |w.blocks| <= w.last.value + 1)
    && forall j :: 0 <= j < |w.blocks| ==>
         && BlockAtRest(c, w.blocks[j])
         && w.blocks[j].idx == w.last.value + 1 - |w.blocks| + j
         && (j > 0 ==> w.blocks[j].next == 0)
  }

  ghost const EMPTY := Window([], None)

  lemma FreshAtRest(c: Config, idx: nat)
    requires c.Sane()
    ensures BlockAtRest(c, FreshBlock(c, idx))
  {
    CountNone(FreshBlock(c, idx).frags, 0, c.n);
  }

  // ----- one step -----

  ghost function FreshBlocks(c: Config, first: nat, count: nat): (bs: seq<Block>)
    ensures |bs| == count
    ensures forall j :: 0 <= j < count ==> bs[j] == FreshBlock(c, first + j)
  {
    seq(count, j requires 0 <= j < count => FreshBlock(c, first + j))
  }

  /** How many blocks a newer block brings in: all since the last known one, but no more than the ring holds. */
  ghost function NewBlocks(c: Config, w: Window, block: nat): (count: nat)
    requires w.last.Some? ==> block > w.last.value
    requires c.ring >= 1
    ensures 1 <= count <= c.ring && count <= block + 1
  {
    if w.last.None? then 1
    else if block - w.last.value < c.ring then block - w.last.value else c.ring
  }

  /** The oldest blocks that have to leave to make room. */
  ghost function Evicted(c: Config, w: Window, block: nat): (drop: nat)
    requires w.last.Some? ==> block > w.last.value
    requires c.ring >= 1 && |w.blocks| <= c.ring
    ensures drop <= |w.blocks|
  {
    var total := |w.blocks| + NewBlocks(c, w, block);
    if total <= c.ring then 0 else total - c.ring
  }

  /** Brings in the blocks up to a newer one, flushing those that have to leave. */
  ghost function Admit(c: Config, w: Window, block: nat): (w': Window)
    requires w.last.Some? ==> block > w.last.value
    requires c.ring >= 1 && |w.blocks| <= c.ring
  {
    var count := NewBlocks(c, w, block);
    Window(w.blocks[Evicted(c, w, block)..] + FreshBlocks(c, block + 1 - count, count), Some(block))
  }

  lemma AdmitValid(c: Config, w: Window, block: nat)
    requires Valid(c, w) && (w.last.Some? ==> block > w.last.value)
    ensures Valid(c, Admit(c, w, block))
    ensures Admit(c, w, block).blocks != [] && Admit(c, w, block).blocks[|Admit(c, w, block).blocks| - 1]
            == FreshBlock(c, block)
  {
    hide FreshBlock, BlockAtRest;
    var w', count, drop := Admit(c, w, block), NewBlocks(c, w, block), Evicted(c, w, block);
    forall j | 0 <= j < |w'.blocks|
      ensures BlockAtRest(c, w'.blocks[j]) && w'.blocks[j].idx == block + 1 - |w'.blocks| + j
              && (j > 0 ==> w'.blocks[j].next == 0)
    {
      if j >= |w.blocks| - drop {
        FreshAtRest(c, block + 1 - count + (j - (|w.blocks| - drop)));
        FreshIdx(c, block + 1 - count + (j - (|w.blocks| - drop)));
      }
    }
  }

  /** Afterwards the live blocks are the newest ones up to the ring size, of those that were live and all that were
      passed over; those that were live are as they were, the others have brought nothing yet. */
  lemma AdmitExact(c: Config, w: Window, block: nat)
    requires Valid(c, w) && (w.last.Some? ==> block > w.last.value)
    ensures |w.blocks| <= c.ring && c.ring >= 1
    ensures Admit(c, w, block).last == Some(block)
    ensures w.last.None? ==> |Admit(c, w, block).blocks| == 1
    ensures w.last.Some? && |w.blocks| + block - w.last.value <= c.ring ==>
              |Admit(c, w, block).blocks| == |w.blocks| + block - w.last.value
    ensures w.last.Some? && |w.blocks| + block - w.last.value > c.ring ==> |Admit(c, w, block).blocks| == c.ring
    ensures var bs, first := Admit(c, w, block).blocks, block + 1 - |Admit(c, w, block).blocks|;
            forall j :: 0 <= j < |bs| ==>
              && bs[j].idx == first + j
              && (w.last.Some? && first + j <= w.last.value ==>
                    first + j + |w.blocks| >= w.last.value + 1
                    && bs[j] == w.blocks[first + j + |w.blocks| - w.last.value - 1])
              && (w.last.None? || first + j > w.last.value ==> bs[j] == Block(first + j, seq(c.n, _ => None), 0))
  {
    hide BlockAtRest;
    AdmitValid(c, w, block);
  }

  /** What is flushed to make room are the blocks that are then too old. */
  lemma EvictedExact(c: Config, w: Window, block: nat)
    requires Valid(c, w) && (w.last.Some? ==> block > w.last.value)
    ensures |w.blocks| <= c.ring && c.ring >= 1
    ensures forall j :: 0 <= j < |w.blocks| ==> (j < Evicted(c, w, block) <==> w.blocks[j].idx + c.ring <= block)
  {
    hide BlockAtRest;
  }

  lemma FreshIdx(c: Config, idx: nat)
    ensures FreshBlock(c, idx).idx == idx && FreshBlock(c, idx).next == 0
  {
  }

  /** Where a live block sits, if it is live. */
  ghost function Find(blocks: seq<Block>, block: nat): (pos: Option<nat>)
    ensures pos.Some? ==> pos.value < |blocks| && blocks[pos.value].idx == block
    ensures pos.Some? ==> forall j :: 0 <= j < pos.value ==> blocks[j].idx != block
    ensures pos.None? ==> forall j :: 0 <= j < |blocks| ==> blocks[j].idx != block
  {
    if blocks == [] then None
    else if blocks[0].idx == block then Some(0)
    else match Find(blocks[1..], block) case None => None case Some(p) => Some(p + 1)
  }

  lemma {:induction false} FindIs(blocks: seq<Block>, block: nat, pos: nat)
    requires pos < |blocks| && blocks[pos].idx == block && forall j :: 0 <= j < pos ==> blocks[j].idx != block
    ensures Find(blocks, block) == Some(pos)
  {
  }

  /** Stores a fragment into the block at pos and sends what can be sent. */
  ghost function Store(c: Config, w: Window, pos: nat, p: Packet): (r: (Window, seq<Emission>))
    requires Valid(c, w) && pos < |w.blocks| && p.frag < c.n && |p.bytes| == c.len
  {
    var b := w.blocks[pos];
    if b.frags[p.frag].Some? then (w, [])
    else
      var frags := b.frags[p.frag := Some(p.bytes)];
      var end := if pos == 0 then RunEnd(frags, b.next, c.k) else b.next;
      var run := if pos == 0 then FlushRange(b.(frags := frags), b.next, end) else [];
      var b' := b.(frags := frags, next := end);
      if end == c.k then (w.(blocks := w.blocks[1..]), run)
      else if Has(frags) == c.k then
        (w.(blocks := w.blocks[pos + 1..]), run + FlushAll(w.blocks[..pos], c.k) + EmitCompleted(b', c.k, c.len, end))
      else (w.(blocks := w.blocks[pos := b']), run)
  }

  /** One decrypted fragment. */
  ghost function Step(c: Config, w: Window, p: Packet): (r: (Window, seq<Emission>))
    requires Valid(c, w) && p.frag < c.n && |p.bytes| == c.len
  {
    match Find(w.blocks, p.block)
    case Some(pos) => Store(c, w, pos, p)
    case None =>
      if w.last.Some? && p.block <= w.last.value then (w, [])
      else
        AdmitValid(c, w, p.block);
        var w' := Admit(c, w, p.block);
        var (w'', out) := Store(c, w', |w'.blocks| - 1, p);
        (w'', FlushAll(w.blocks[..Evicted(c, w, p.block)], c.k) + out)
  }

  // ----- every step keeps the invariant -----

  lemma StoreRest(c: Config, b: Block, p: Packet, frags: Fragments, end: nat)
    requires BlockAtRest(c, b) && p.frag < c.n && |p.bytes| == c.len && b.frags[p.frag].None?
    requires frags == b.frags[p.frag := Some(p.bytes)]
    requires b.next <= end < c.k && forall j :: b.next <= j < end ==> frags[j].Some?
    requires Has(frags) != c.k
    ensures BlockAtRest(c, b.(frags := frags, next := end))
  {
    hide Count;
    CountSet(b.frags, p.frag, p.bytes, 0, c.n);
  }

  lemma ValidSizes(c: Config, w: Window)
    requires Valid(c, w)
    ensures c.Sane() && |w.blocks| <= c.ring
    ensures forall j :: 0 <= j < |w.blocks| ==> |w.blocks[j].frags| == c.n && w.blocks[j].next < c.k
    ensures forall j :: 0 <= j < |w.blocks| ==> Sized(w.blocks[j].frags, c.len)
  {
    hide Count;
  }

  lemma StoreValid(c: Config, w: Window, pos: nat, p: Packet)
    requires Valid(c, w) && pos < |w.blocks| && p.frag < c.n && |p.bytes| == c.len
    ensures Valid(c, Store(c, w, pos, p).0) && Store(c, w, pos, p).0.last == w.last
  {
    hide BlockAtRest, FlushRange, FlushAll, EmitCompleted, RunEnd, Count;
    ValidSizes(c, w);
    var b := w.blocks[pos];
    if b.frags[p.frag].None? {
      var frags := b.frags[p.frag := Some(p.bytes)];
      var end := if pos == 0 then RunEnd(frags, b.next, c.k) else b.next;
      if end < c.k && Has(frags) != c.k {
        StoreRest(c, b, p, frags, end);
      }
    }
  }

  lemma StepValid(c: Config, w: Window, p: Packet)
    requires Valid(c, w) && p.frag < c.n && |p.bytes| == c.len
    ensures Valid(c, Step(c, w, p).0)
  {
    hide Store, Valid;
    ValidSizes(c, w);
    match Find(w.blocks, p.block)
    case Some(pos) => StoreValid(c, w, pos, p);
    case None =>
      if w.last.Some? && p.block <= w.last.value {
      } else {
        AdmitValid(c, w, p.block);
        StoreValid(c, Admit(c, w, p.block), |Admit(c, w, p.block).blocks| - 1, p);
      }
  }

  // ----- runs -----

  ghost predicate PacketsFit(c: Config, ps: seq<Packet>) {
    forall i :: 0 <= i < |ps| ==> ps[i].frag < c.n && |ps[i].bytes| == c.len
  }

  /** A whole run: the window it ends in, and everything emitted on the way. */
  ghost function Run(c: Config, w: Window, ps: seq<Packet>): (r: (Window, seq<Emission>))
    requires Valid(c, w) && PacketsFit(c, ps)
    ensures Valid(c, r.0)
    decreases |ps|
  {
    if ps == [] then (w, [])
    else
      StepValid(c, w, ps[0]);
      var (w1, out1) := Step(c, w, ps[0]);
      var (w2, out2) := Run(c, w1, ps[1..]);
      (w2, out1 + out2)
  }

  lemma {:induction false} RunConcat(c: Config, w: Window, ps: seq<Packet>, qs: seq<Packet>)
    requires Valid(c, w) && PacketsFit(c, ps) && PacketsFit(c, qs) && PacketsFit(c, ps + qs)
    ensures Run(c, w, ps + qs) == (Run(c, Run(c, w, ps).0, qs).0, Run(c, w, ps).1 + Run(c, Run(c, w, ps).0, qs).1)
    decreases |ps|
  {
    hide Step, Valid;
    if ps == [] {
      assert ps + qs == qs && [] + Run(c, w, qs).1 == Run(c, w, qs).1;
    } else {
      StepValid(c, w, ps[0]);
      var w1 := Step(c, w, ps[0]).0;
      assert (ps + qs)[0] == ps[0] && (ps + qs)[1..] == ps[1..] + qs;
      RunConcat(c, w1, ps[1..], qs);
      var a, b, d := Step(c, w, ps[0]).1, Run(c, w1, ps[1..]).1, Run(c, Run(c, w, ps).0, qs).1;
      assert a + (b + d) == (a + b) + d;
    }
  }

  // ----- order -----

  /** A place in the transmitted order: a block and a fragment in it. */
  datatype Place = Place(block: nat, frag: nat) {
    ghost predicate AtMost(o: Place) {
      block < o.block || (block == o.block && frag <= o.frag)
    }
  }

  ghost function PlaceOf(e: Emission): (p: Place) {
    Place(e.block, e.frag)
  }

  ghost function After(e: Emission): (p: Place) {
    Place(e.block, e.frag + 1)
  }

  /** The emissions are primaries in strictly increasing order, all of them at or after lo and before hi. */
  ghost predicate Between(k: nat, out: seq<Emission>, lo: Place, hi: Place)
    decreases |out|
  {
    if out == [] then lo.AtMost(hi)
    else lo.AtMost(PlaceOf(out[0])) && out[0].frag < k && Between(k, out[1..], After(out[0]), hi)
  }

  lemma {:induction false} BetweenConcat(k: nat, a: seq<Emission>, b: seq<Emission>, lo: Place, mid: Place, hi: Place)
    requires Between(k, a, lo, mid) && Between(k, b, mid, hi)
    ensures Between(k, a + b, lo, hi)
    decreases |a|
  {
    if a == [] {
      assert a + b == b;
      BetweenWiden(k, b, mid, lo, hi, hi);
    } else {
      assert (a + b)[1..] == a[1..] + b;
      BetweenConcat(k, a[1..], b, After(a[0]), mid, hi);
    }
  }

  lemma {:induction false} BetweenWiden(k: nat, a: seq<Emission>, lo: Place, lo': Place, hi: Place, hi': Place)
    requires Between(k, a, lo, hi) && lo'.AtMost(lo) && hi.AtMost(hi')
    ensures Between(k, a, lo', hi')
    decreases |a|
  {
    if a == [] {
    } else {
      BetweenWiden(k, a[1..], After(a[0]), After(a[0]), hi, hi');
    }
  }

  /** What Between says about any two emissions. */
  lemma {:induction false} BetweenOrdered(k: nat, out: seq<Emission>, lo: Place, hi: Place, i: nat)
    requires Between(k, out, lo, hi) && i < |out|
    ensures lo.AtMost(PlaceOf(out[i])) && After(out[i]).AtMost(hi) && out[i].frag < k
    ensures forall j :: i < j < |out| ==> After(out[i]).AtMost(PlaceOf(out[j]))
    decreases |out|
  {
    var t := out[1..];
    if i > 0 {
      BetweenOrdered(k, t, After(out[0]), hi, i - 1);
      assert out[i] == t[i - 1];
      forall j | i < j < |out|
        ensures After(out[i]).AtMost(PlaceOf(out[j]))
      {
        assert out[j] == t[j - 1];
      }
    } else {
      forall j | 0 < j < |out|
        ensures After(out[0]).AtMost(PlaceOf(out[j]))
      {
        BetweenOrdered(k, t, After(out[0]), hi, j - 1);
        assert out[j] == t[j - 1];
      }
      BetweenEnd(k, t, After(out[0]), hi);
    }
  }

  lemma {:induction false} BetweenEnd(k: nat, out: seq<Emission>, lo: Place, hi: Place)
    requires Between(k, out, lo, hi)
    ensures lo.AtMost(hi)
    decreases |out|
  {
    if out == [] {
    } else {
      BetweenEnd(k, out[1..], After(out[0]), hi);
    }
  }

  lemma {:induction false} FlushRangeBetween(k: nat, b: Block, lo: nat, hi: nat)
    requires lo <= hi <= k <= |b.frags|
    ensures Between(k, FlushRange(b, lo, hi), Place(b.idx, lo), Place(b.idx, hi))
    decreases hi - lo
  {
    if lo == hi {
    } else {
      FlushRangeBetween(k, b, lo + 1, hi);
      var t := FlushRange(b, lo + 1, hi);
      if b.frags[lo].Some? {
        assert FlushRange(b, lo, hi)[1..] == t;
      } else {
        assert FlushRange(b, lo, hi) == t;
        BetweenWiden(k, t, Place(b.idx, lo + 1), Place(b.idx, lo), Place(b.idx, hi), Place(b.idx, hi));
      }
    }
  }

  lemma {:induction false} EmitCompletedBetween(b: Block, k: nat, len: nat, lo: nat)
    requires lo <= k <= |b.frags| && Has(b.frags) >= k && Sized(b.frags, len)
    ensures Between(k, EmitCompleted(b, k, len, lo), Place(b.idx, lo), Place(b.idx, k))
    decreases k - lo
  {
    if lo == k {
    } else {
      EmitCompletedBetween(b, k, len, lo + 1);
      assert EmitCompleted(b, k, len, lo)[1..] == EmitCompleted(b, k, len, lo + 1);
    }
  }

  /** Flushing whole blocks, none of which reaches beyond hi. */
  lemma {:induction false} FlushAllBetween(c: Config, bs: seq<Block>, lo: Place, hi: Place)
    requires lo.AtMost(hi)
    requires forall j :: 0 <= j < |bs| ==> |bs[j].frags| == c.n && bs[j].next <= c.k <= c.n
    requires bs != [] ==> lo.AtMost(Place(bs[0].idx, bs[0].next))
    requires forall j :: 0 <= j < |bs| ==> bs[j].idx < hi.block
    requires forall j :: 0 < j < |bs| ==> bs[j].idx == bs[j - 1].idx + 1
    ensures Between(c.k, FlushAll(bs, c.k), lo, hi)
    decreases |bs|
  {
    if bs == [] {
    } else {
      var b := bs[0];
      FlushRangeBetween(c.k, b, b.next, c.k);
      var mid := Place(b.idx, c.k);
      BetweenWiden(c.k, Flush(b, c.k), Place(b.idx, b.next), lo, mid, mid);
      if |bs| > 1 {
        assert bs[1].idx == b.idx + 1;
      }
      FlushAllBetween(c, bs[1..], mid, hi);
      BetweenConcat(c.k, Flush(b, c.k), FlushAll(bs[1..], c.k), lo, mid, hi);
    }
  }

  /** Nothing before this place will be sent any more; everything from it on may be. */
  ghost function Frontier(w: Window): (p: Place) {
    if w.blocks != [] then Place(w.blocks[0].idx, w.blocks[0].next)
    else if w.last.Some? then Place(w.last.value + 1, 0)
    else Place(0, 0)
  }

  lemma StoreBetween(c: Config, w: Window, pos: nat, p: Packet)
    requires Valid(c, w) && pos < |w.blocks| && p.frag < c.n && |p.bytes| == c.len
    ensures Between(c.k, Store(c, w, pos, p).1, Frontier(w), Frontier(Store(c, w, pos, p).0))
  {
    hide BlockAtRest, FlushRange, FlushAll, EmitCompleted, RunEnd, Count;
    ValidSizes(c, w);
    var b := w.blocks[pos];
    if b.frags[p.frag].None? {
      var frags := b.frags[p.frag := Some(p.bytes)];
      var end := if pos == 0 then RunEnd(frags, b.next, c.k) else b.next;
      var run := if pos == 0 then FlushRange(b.(frags := frags), b.next, end) else [];
      var b' := b.(frags := frags, next := end);
      var w' := Store(c, w, pos, p).0;
      if pos == 0 {
        FlushRangeBetween(c.k, b.(frags := frags), b.next, end);
      }
      if end == c.k {
        BetweenWiden(c.k, run, Frontier(w), Frontier(w), Place(b.idx, c.k), Frontier(w'));
      } else if Has(frags) == c.k {
        var before := w.blocks[..pos];
        var start := if pos == 0 then Place(b.idx, end) else Frontier(w);
        FlushAllBetween(c, before, start, Place(b.idx, end));
        EmitCompletedBetween(b', c.k, c.len, end);
        BetweenConcat(c.k, run, FlushAll(before, c.k), Frontier(w), start, Place(b.idx, end));
        BetweenConcat(c.k, run + FlushAll(before, c.k), EmitCompleted(b', c.k, c.len, end),
                      Frontier(w), Place(b.idx, end), Place(b.idx, c.k));
        BetweenWiden(c.k, Store(c, w, pos, p).1, Frontier(w), Frontier(w), Place(b.idx, c.k), Frontier(w'));
      }
    }
  }

  lemma AdmitBetween(c: Config, w: Window, block: nat)
    requires Valid(c, w) && (w.last.Some? ==> block > w.last.value)
    ensures Between(c.k, FlushAll(w.blocks[..Evicted(c, w, block)], c.k), Frontier(w), Frontier(Admit(c, w, block)))
  {
    hide BlockAtRest, FlushRange, FlushAll, FreshBlock;
    ValidSizes(c, w);
    var w', drop := Admit(c, w, block), Evicted(c, w, block);
    FreshIdx(c, block + 1 - NewBlocks(c, w, block));
    FlushAllBetween(c, w.blocks[..drop], Frontier(w), Frontier(w'));
  }

  /** One step sends in order, from the old frontier up to the new one. */
  lemma StepBetween(c: Config, w: Window, p: Packet)
    requires Valid(c, w) && p.frag < c.n && |p.bytes| == c.len
    ensures Between(c.k, Step(c, w, p).1, Frontier(w), Frontier(Step(c, w, p).0))
  {
    hide Store, Valid, Frontier, FlushAll;
    ValidSizes(c, w);
    match Find(w.blocks, p.block)
    case Some(pos) => StoreBetween(c, w, pos, p);
    case None =>
      if w.last.Some? && p.block <= w.last.value {
      } else {
        var w' := Admit(c, w, p.block);
        AdmitValid(c, w, p.block);
        AdmitBetween(c, w, p.block);
        StoreBetween(c, w', |w'.blocks| - 1, p);
        BetweenConcat(c.k, FlushAll(w.blocks[..Evicted(c, w, p.block)], c.k), Store(c, w', |w'.blocks| - 1, p).1,
                      Frontier(w), Frontier(w'), Frontier(Step(c, w, p).0));
      }
  }

  lemma {:induction false} RunBetween(c: Config, w: Window, ps: seq<Packet>)
    requires Valid(c, w) && PacketsFit(c, ps)
    ensures Between(c.k, Run(c, w, ps).1, Frontier(w), Frontier(Run(c, w, ps).0))
    decreases |ps|
  {
    hide Step, Valid, Frontier;
    if ps != [] {
      StepValid(c, w, ps[0]);
      StepBetween(c, w, ps[0]);
      var (w1, out1) := Step(c, w, ps[0]);
      RunBetween(c, w1, ps[1..]);
      BetweenConcat(c.k, out1, Run(c, w1, ps[1..]).1, Frontier(w), Frontier(w1), Frontier(Run(c, w1, ps[1..]).0));
    } else {
      FrontierSelf(w);
    }
  }

  lemma FrontierSelf(w: Window)
    ensures Frontier(w).AtMost(Frontier(w))
  {
  }

  /** Over every run the places sent are strictly increasing: in order, and none twice. */
  lemma {:induction false} InOrderAtMostOnce(c: Config, w: Window, ps: seq<Packet>, i: nat, j: nat)
    requires Valid(c, w) && PacketsFit(c, ps) && i < j < |Run(c, w, ps).1|
    ensures var out := Run(c, w, ps).1;
            out[i].block < out[j].block || (out[i].block == out[j].block && out[i].frag < out[j].frag)
  {
    hide Run, Valid, Frontier;
    RunBetween(c, w, ps);
    BetweenOrdered(c.k, Run(c, w, ps).1, Frontier(w), Frontier(Run(c, w, ps).0), i);
  }
}
