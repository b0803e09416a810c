/** What holds of every run of the receive window: what is sent is what the transmitter had, nothing
    is missing when every block brings enough fragments, and the loss counter counts the gaps. */
module ReceiveTheorems {
  import opened Vectors
  import opened ErasureCode
  import opened FecCodec
  import opened ReceiveWindow
  import opened Wrappers

  // ----- end to end -----

  /** The data packets the transmitter put into each block. */
  type Transmitter = nat -> Mat

  ghost predicate Transmits(c: Config, tx: Transmitter) {
    forall b: nat :: |tx(b)| == c.k && forall i :: 0 <= i < c.k ==> |tx(b)[i]| == c.len
  }

  /** A fragment the transmitter really sent. */
  ghost predicate Authentic(c: Config, tx: Transmitter, p: Packet)
    requires Transmits(c, tx)
  {
    p.frag < c.n && p.bytes == Codeword(tx(p.block), p.frag, c.len)
  }

  ghost predicate AllAuthentic(c: Config, tx: Transmitter, ps: seq<Packet>)
    requires Transmits(c, tx)
  {
    forall i :: 0 <= i < |ps| ==> Authentic(c, tx, ps[i])
  }

  ghost predicate BlockAuthentic(c: Config, tx: Transmitter, b: Block)
    requires Transmits(c, tx)
  {
    forall j :: 0 <= j < |b.frags| && b.frags[j].Some? ==> b.frags[j].value == Codeword(tx(b.idx), j, c.len)
  }

  ghost predicate WindowAuthentic(c: Config, tx: Transmitter, w: Window)
    requires Transmits(c, tx)
  {
    forall j :: 0 <= j < |w.blocks| ==> BlockAuthentic(c, tx, w.blocks[j])
  }

  /** The packet sent is the transmitter's primary packet at that place. */
  ghost predicate Faithful(c: Config, tx: Transmitter, e: Emission)
    requires Transmits(c, tx)
  {
    e.frag < c.k && e.bytes == tx(e.block)[e.frag]
  }

  ghost predicate AllFaithful(c: Config, tx: Transmitter, out: seq<Emission>)
    requires Transmits(c, tx)
  {
    forall i :: 0 <= i < |out| ==> Faithful(c, tx, out[i])
  }

  lemma {:induction false} FlushFaithful(c: Config, tx: Transmitter, b: Block, lo: nat, hi: nat)
    requires c.Sane() && Transmits(c, tx) && BlockAuthentic(c, tx, b)
    requires lo <= hi <= c.k <= |b.frags|
    ensures AllFaithful(c, tx, FlushRange(b, lo, hi))
    decreases hi - lo
  {
    hide Codeword;
    if lo == hi {
    } else {
      FlushFaithful(c, tx, b, lo + 1, hi);
      CodewordPrimary(tx(b.idx), lo, c.len);
    }
  }

  lemma {:induction false} FlushAllFaithful(c: Config, tx: Transmitter, bs: seq<Block>)
    requires c.Sane() && Transmits(c, tx)
    requires forall j :: 0 <= j < |bs| ==> BlockAuthentic(c, tx, bs[j]) && |bs[j].frags| == c.n
    ensures AllFaithful(c, tx, FlushAll(bs, c.k))
    decreases |bs|
  {
    hide BlockAuthentic, FlushRange;
    if bs == [] {
    } else {
      if bs[0].next <= c.k {
        FlushFaithful(c, tx, bs[0], bs[0].next, c.k);
      }
      FlushAllFaithful(c, tx, bs[1..]);
    }
  }

  /** A packet rebuilt from any k authentic fragments is the transmitter's. */
  lemma CompletedFaithful(c: Config, tx: Transmitter, b: Block, i: nat)
    requires c.Sane() && Transmits(c, tx) && BlockAuthentic(c, tx, b)
    requires |b.frags| == c.n && Has(b.frags) >= c.k && Sized(b.frags, c.len) && i < c.k
    ensures CompletedPacket(b.frags, c.k, c.len, i) == tx(b.idx)[i]
  {
    hide Codeword, RecoveredRange, FecIndex, Has, Choice;
    var data := tx(b.idx);
    if b.frags[i].Some? {
      CodewordPrimary(data, i, c.len);
    } else {
      FecIndexValid(b.frags, c.k);
      var idx := FecIndex(b.frags, c.k);
      var m := DecodeInputs(b.frags, c.k);
      forall r | 0 <= r < c.k
        ensures |m[r]| == c.len && m[r][..c.len] == Codeword(data, idx[r], c.len)
      {
        assert b.frags[idx[r]].Some?;
      }
      AnyKPackets(data, m, idx, c.n, i, Zeros(c.len), c.len);
      var v := RecoveredRange(m, idx, i, Zeros(c.len), c.len);
      assert v[..c.len] == v && data[i][..c.len] == data[i];
    }
  }

  lemma {:induction false} EmitCompletedFaithful(c: Config, tx: Transmitter, b: Block, lo: nat)
    requires c.Sane() && Transmits(c, tx) && BlockAuthentic(c, tx, b)
    requires |b.frags| == c.n && Has(b.frags) >= c.k && Sized(b.frags, c.len) && lo <= c.k
    ensures AllFaithful(c, tx, EmitCompleted(b, c.k, c.len, lo))
    decreases c.k - lo
  {
    hide CompletedPacket, BlockAuthentic, Has;
    if lo == c.k {
    } else {
      CompletedFaithful(c, tx, b, lo);
      EmitCompletedFaithful(c, tx, b, lo + 1);
    }
  }

  lemma StoreFaithful(c: Config, tx: Transmitter, w: Window, pos: nat, p: Packet)
    requires Valid(c, w) && Transmits(c, tx) && WindowAuthentic(c, tx, w)
    requires pos < |w.blocks| && w.blocks[pos].idx == p.block && Authentic(c, tx, p)
    ensures |p.bytes| == c.len
    ensures WindowAuthentic(c, tx, Store(c, w, pos, p).0) && AllFaithful(c, tx, Store(c, w, pos, p).1)
  {
    hide BlockAtRest, FlushRange, FlushAll, EmitCompleted, RunEnd, Count, Codeword;
    ValidSizes(c, w);
    var b := w.blocks[pos];
    if b.frags[p.frag].None? {
      var frags := b.frags[p.frag := Some(p.bytes)];
      var end := if pos == 0 then RunEnd(frags, b.next, c.k) else b.next;
      var b' := b.(frags := frags, next := end);
      assert BlockAuthentic(c, tx, b.(frags := frags));
      if pos == 0 {
        FlushFaithful(c, tx, b.(frags := frags), b.next, end);
      }
      if end < c.k && Has(frags) == c.k {
        FlushAllFaithful(c, tx, w.blocks[..pos]);
        EmitCompletedFaithful(c, tx, b', end);
      }
    }
  }

  lemma AdmitFaithful(c: Config, tx: Transmitter, w: Window, block: nat)
    requires Valid(c, w) && Transmits(c, tx) && WindowAuthentic(c, tx, w) && (w.last.Some? ==> block > w.last.value)
    ensures WindowAuthentic(c, tx, Admit(c, w, block))
    ensures AllFaithful(c, tx, FlushAll(w.blocks[..Evicted(c, w, block)], c.k))
  {
    hide BlockAtRest, FlushAll, Codeword;
    ValidSizes(c, w);
    FlushAllFaithful(c, tx, w.blocks[..Evicted(c, w, block)]);
  }

  lemma StepFaithful(c: Config, tx: Transmitter, w: Window, p: Packet)
    requires Valid(c, w) && Transmits(c, tx) && WindowAuthentic(c, tx, w) && Authentic(c, tx, p)
    ensures |p.bytes| == c.len
    ensures WindowAuthentic(c, tx, Step(c, w, p).0) && AllFaithful(c, tx, Step(c, w, p).1)
  {
    hide Store, Valid, FlushAll, Admit, WindowAuthentic, Codeword;
    ValidSizes(c, w);
    match Find(w.blocks, p.block)
    case Some(pos) => StoreFaithful(c, tx, w, pos, p);
    case None =>
      if w.last.Some? && p.block <= w.last.value {
      } else {
        var w' := Admit(c, w, p.block);
        AdmitValid(c, w, p.block);
        FreshIdx(c, p.block);
        AdmitFaithful(c, tx, w, p.block);
        StoreFaithful(c, tx, w', |w'.blocks| - 1, p);
      }
  }

  lemma AuthenticFit(c: Config, tx: Transmitter, ps: seq<Packet>)
    requires Transmits(c, tx) && AllAuthentic(c, tx, ps)
    ensures PacketsFit(c, ps)
  {
  }

  lemma {:induction false} RunFaithful(c: Config, tx: Transmitter, w: Window, ps: seq<Packet>)
    requires Valid(c, w) && Transmits(c, tx) && WindowAuthentic(c, tx, w) && AllAuthentic(c, tx, ps)
    ensures PacketsFit(c, ps)
    ensures WindowAuthentic(c, tx, Run(c, w, ps).0) && AllFaithful(c, tx, Run(c, w, ps).1)
    decreases |ps|
  {
    hide Step, Valid, WindowAuthentic, Codeword;
    AuthenticFit(c, tx, ps);
    if ps == [] {
    } else {
      StepValid(c, w, ps[0]);
      StepFaithful(c, tx, w, ps[0]);
      RunFaithful(c, tx, Step(c, w, ps[0]).0, ps[1..]);
    }
  }

  /** From the start of a session, whatever is lost, repeated or reordered, every packet sent is the
      transmitter's primary packet at its place. */
  lemma EndToEnd(c: Config, tx: Transmitter, ps: seq<Packet>)
    requires c.Sane() && Transmits(c, tx) && AllAuthentic(c, tx, ps)
    ensures Valid(c, EMPTY) && PacketsFit(c, ps)
    ensures forall i :: 0 <= i < |Run(c, EMPTY, ps).1| ==> Faithful(c, tx, Run(c, EMPTY, ps).1[i])
  {
    hide Run;
    RunFaithful(c, tx, EMPTY, ps);
  }

  // ----- loss tolerance -----

  /** The primary packets lo..hi of a block. */
  ghost function Primaries(c: Config, tx: Transmitter, block: nat, lo: nat, hi: nat): (out: seq<Emission>)
    requires Transmits(c, tx) && lo <= hi <= c.k
    ensures |out| == hi - lo
    ensures forall i :: 0 <= i < |out| ==> out[i] == Emission(block, lo + i, tx(block)[lo + i])
  {
    seq(hi - lo, i requires 0 <= i < hi - lo => Emission(block, lo + i, tx(block)[lo + i]))
  }

  lemma {:induction false} FlushIsPrimaries(c: Config, tx: Transmitter, b: Block, lo: nat, hi: nat)
    requires c.Sane() && Transmits(c, tx) && BlockAuthentic(c, tx, b)
    requires lo <= hi <= c.k <= |b.frags| && forall j :: lo <= j < hi ==> b.frags[j].Some?
    ensures FlushRange(b, lo, hi) == Primaries(c, tx, b.idx, lo, hi)
    decreases hi - lo
  {
    hide Codeword;
    if lo == hi {
    } else {
      FlushIsPrimaries(c, tx, b, lo + 1, hi);
      CodewordPrimary(tx(b.idx), lo, c.len);
      var data := tx(b.idx);
      assert data[lo][..c.len] == data[lo];
      assert b.frags[lo].value == data[lo];
      assert Primaries(c, tx, b.idx, lo, hi) == [Emission(b.idx, lo, data[lo])] + Primaries(c, tx, b.idx, lo + 1, hi);
    }
  }

  lemma {:induction false} CompletedIsPrimaries(c: Config, tx: Transmitter, b: Block, lo: nat)
    requires c.Sane() && Transmits(c, tx) && BlockAuthentic(c, tx, b)
    requires |b.frags| == c.n && Has(b.frags) >= c.k && Sized(b.frags, c.len) && lo <= c.k
    ensures EmitCompleted(b, c.k, c.len, lo) == Primaries(c, tx, b.idx, lo, c.k)
    decreases c.k - lo
  {
    hide CompletedPacket, BlockAuthentic, Has;
    if lo == c.k {
    } else {
      CompletedFaithful(c, tx, b, lo);
      CompletedIsPrimaries(c, tx, b, lo + 1);
      assert Primaries(c, tx, b.idx, lo, c.k)
          == Primaries(c, tx, b.idx, lo, lo + 1) + Primaries(c, tx, b.idx, lo + 1, c.k);
    }
  }

  /** The fragments of a block that have arrived. */
  ghost function Arrived(ps: seq<Packet>): (frags: set<nat>) {
    set i | 0 <= i < |ps| :: ps[i].frag
  }

  /** How many fragments have arrived is the size of the set of them. */
  lemma {:induction false} CountIsSize(frags: Fragments, got: set<nat>, lo: nat)
    requires lo <= |frags| && forall j :: j in got ==> lo <= j < |frags|
    requires forall j :: lo <= j < |frags| ==> (frags[j].Some? <==> j in got)
    ensures Count(frags, lo, |frags|) == |got|
    decreases |frags| - lo
  {
    if lo < |frags| {
      if frags[lo].Some? {
        CountIsSize(frags, got - {lo}, lo + 1);
      } else {
        CountIsSize(frags, got, lo + 1);
      }
    } else {
      assert got == {};
    }
  }

  /** The only live block is this one; the fragments in got have arrived, and all before the first gap are sent. */
  ghost predicate Receiving(c: Config, tx: Transmitter, w: Window, block: nat, got: set<nat>)
    requires Transmits(c, tx)
  {
    && Valid(c, w) && |w.blocks| == 1 && w.last == Some(block)
    && var b := w.blocks[0];
       && b.idx == block && BlockAuthentic(c, tx, b)
       && (forall j :: j in got ==> j < c.n)
       && (forall j :: 0 <= j < c.n ==> (b.frags[j].Some? <==> j in got))
       && b.frags[b.next].None?
  }

  /** One more fragment of the block: it completes the block, or is one more towards it. */
  lemma ReceivingStep(c: Config, tx: Transmitter, w: Window, block: nat, got: set<nat>, p: Packet)
    requires Transmits(c, tx) && Receiving(c, tx, w, block, got) && Authentic(c, tx, p) && p.block == block
    ensures |p.bytes| == c.len && |w.blocks| == 1 && w.blocks[0].next < c.k && Valid(c, w)
    ensures var (w', out) := Step(c, w, p);
            if |got + {p.frag}| >= c.k
            then w' == Window([], Some(block)) && out == Primaries(c, tx, block, w.blocks[0].next, c.k)
            else && Receiving(c, tx, w', block, got + {p.frag}) && |w'.blocks| == 1
                 && w.blocks[0].next <= w'.blocks[0].next < c.k
                 && out == Primaries(c, tx, block, w.blocks[0].next, w'.blocks[0].next)
  {
    hide FlushRange, EmitCompleted, RunEnd, Count, Codeword, BlockAuthentic, Valid;
    ValidSizes(c, w);
    var b := w.blocks[0];
    assert Find(w.blocks, block) == Some(0);
    if b.frags[p.frag].Some? {
      hide Primaries;
      CountIsSize(b.frags, got, 0);
      ReceivingBound(c, w);
      assert got + {p.frag} == got;
      assert Primaries(c, tx, block, b.next, b.next) == [];
    } else {
      hide Store, Primaries;
      ReceivingStore(c, tx, w, block, got, p);
    }
  }

  /** The same for a fragment that had not arrived. */
  lemma ReceivingStore(c: Config, tx: Transmitter, w: Window, block: nat, got: set<nat>, p: Packet)
    requires Transmits(c, tx) && Receiving(c, tx, w, block, got) && Authentic(c, tx, p) && p.block == block
    requires |p.bytes| == c.len && |w.blocks| == 1 && w.blocks[0].next < c.k && Valid(c, w)
    requires p.frag < |w.blocks[0].frags| && w.blocks[0].frags[p.frag].None?
    ensures var (w', out) := Store(c, w, 0, p);
            if |got + {p.frag}| >= c.k
            then w' == Window([], Some(block)) && out == Primaries(c, tx, block, w.blocks[0].next, c.k)
            else && Receiving(c, tx, w', block, got + {p.frag}) && |w'.blocks| == 1
                 && w.blocks[0].next <= w'.blocks[0].next < c.k
                 && out == Primaries(c, tx, block, w.blocks[0].next, w'.blocks[0].next)
  {
    hide FlushRange, EmitCompleted, RunEnd, Count, Codeword, BlockAuthentic, Valid, Primaries;
    ValidSizes(c, w);
    StoreValid(c, w, 0, p);
    var b := w.blocks[0];
    CountIsSize(b.frags, got, 0);
    ReceivingBound(c, w);
    var frags := b.frags[p.frag := Some(p.bytes)];
    var end := RunEnd(frags, b.next, c.k);
    var b1, b' := b.(frags := frags), b.(frags := frags, next := end);
    CountIsSize(frags, got + {p.frag}, 0);
    CountSet(b.frags, p.frag, p.bytes, 0, c.n);
    StoredAuthentic(c, tx, b, p, end);
    FlushIsPrimaries(c, tx, b1, b.next, end);
    if end == c.k {
      PrefixCount(c, w, frags);
    } else if Has(frags) == c.k {
      CompletedIsPrimaries(c, tx, b', end);
      PrimariesJoin(c, tx, block, b.next, end, c.k);
      assert w.blocks[..0] == [];
      assert Store(c, w, 0, p).1 == FlushRange(b1, b.next, end) + [] + EmitCompleted(b', c.k, c.len, end);
    }
    assert w.blocks[1..] == [];
  }

  lemma ReceivingBound(c: Config, w: Window)
    requires Valid(c, w) && |w.blocks| == 1
    ensures Has(w.blocks[0].frags) < c.k
    ensures forall j :: 0 <= j < w.blocks[0].next ==> w.blocks[0].frags[j].Some?
  {
    hide Count;
  }

  lemma StoredAuthentic(c: Config, tx: Transmitter, b: Block, p: Packet, end: nat)
    requires Transmits(c, tx) && BlockAuthentic(c, tx, b) && Authentic(c, tx, p) && p.block == b.idx
             && p.frag < |b.frags|
    ensures BlockAuthentic(c, tx, b.(frags := b.frags[p.frag := Some(p.bytes)]))
    ensures BlockAuthentic(c, tx, b.(frags := b.frags[p.frag := Some(p.bytes)], next := end))
  {
    hide Codeword;
  }

  /** A block whose primaries have all arrived has k fragments. */
  lemma PrefixCount(c: Config, w: Window, frags: Fragments)
    requires c.k <= |frags| && forall j :: 0 <= j < c.k ==> frags[j].Some?
    ensures Has(frags) >= c.k
  {
    CountSplit(frags, 0, c.k, |frags|);
    CountAll(frags, 0, c.k);
  }

  lemma PrimariesJoin(c: Config, tx: Transmitter, block: nat, lo: nat, mid: nat, hi: nat)
    requires Transmits(c, tx) && lo <= mid <= hi <= c.k
    ensures Primaries(c, tx, block, lo, mid) + Primaries(c, tx, block, mid, hi) == Primaries(c, tx, block, lo, hi)
  {
  }

  ghost predicate OfBlock(ps: seq<Packet>, block: nat) {
    forall i :: 0 <= i < |ps| ==> ps[i].block == block
  }

  /** Late fragments of a finished block are ignored. */
  lemma {:induction false} FinishedRun(c: Config, tx: Transmitter, block: nat, ps: seq<Packet>)
    requires c.Sane() && Transmits(c, tx) && AllAuthentic(c, tx, ps) && OfBlock(ps, block)
    ensures PacketsFit(c, ps) && Valid(c, Window([], Some(block)))
    ensures Run(c, Window([], Some(block)), ps) == (Window([], Some(block)), [])
    decreases |ps|
  {
    hide Codeword;
    AuthenticFit(c, tx, ps);
    if ps == [] {
    } else {
      var w := Window([], Some(block));
      FinishedRun(c, tx, block, ps[1..]);
      assert ps[0].block == block && Step(c, w, ps[0]) == (w, []);
      assert Step(c, w, ps[0]).1 + Run(c, w, ps[1..]).1 == [];
    }
  }

  lemma {:induction false} ReceivingRun(c: Config, tx: Transmitter, w: Window, block: nat, got: set<nat>,
                                        ps: seq<Packet>)
    requires Transmits(c, tx) && Receiving(c, tx, w, block, got) && AllAuthentic(c, tx, ps) && OfBlock(ps, block)
    requires |got| < c.k <= |got + Arrived(ps)|
    ensures PacketsFit(c, ps) && Valid(c, w) && |w.blocks| == 1 && w.blocks[0].next < c.k
    ensures Run(c, w, ps) == (Window([], Some(block)), Primaries(c, tx, block, w.blocks[0].next, c.k))
    decreases |ps|
  {
    hide Step, Receiving, Primaries, Valid, Authentic, BlockAtRest;
    AuthenticFit(c, tx, ps);
    ArrivedNone();
    assert got + {} == got;
    if ps == [] {
    } else {
      var p, rest := ps[0], ps[1..];
      ReceivingStep(c, tx, w, block, got, p);
      StepValid(c, w, p);
      ReceivingSane(c, tx, w, block, got);
      assert Arrived(ps) == {p.frag} + Arrived(rest) by { ArrivedHead(ps); }
      assert (got + {p.frag}) + Arrived(rest) == got + Arrived(ps);
      var (w', out) := Step(c, w, p);
      if |got + {p.frag}| >= c.k {
        FinishedRun(c, tx, block, rest);
        assert out + [] == out;
      } else {
        ReceivingRun(c, tx, w', block, got + {p.frag}, rest);
        PrimariesJoin(c, tx, block, w.blocks[0].next, w'.blocks[0].next, c.k);
      }
    }
  }

  lemma ReceivingSane(c: Config, tx: Transmitter, w: Window, block: nat, got: set<nat>)
    requires Transmits(c, tx) && Receiving(c, tx, w, block, got)
    ensures c.Sane() && Valid(c, w) && |w.blocks| == 1
  {
  }

  lemma ArrivedNone()
    ensures Arrived([]) == {}
  {
  }

  lemma ArrivedHead(ps: seq<Packet>)
    requires ps != []
    ensures Arrived(ps) == {ps[0].frag} + Arrived(ps[1..])
  {
    forall f | f in Arrived(ps)
      ensures f in {ps[0].frag} + Arrived(ps[1..])
    {
      var i :| 0 <= i < |ps| && ps[i].frag == f;
      if i > 0 {
        assert ps[1..][i - 1].frag == f;
      }
    }
    forall f | f in Arrived(ps[1..])
      ensures f in Arrived(ps)
    {
      var i :| 0 <= i < |ps[1..]| && ps[1..][i].frag == f;
      assert ps[i + 1].frag == f;
    }
  }

  /** A block that brings k different fragments, in any order and however often, is sent whole; the window is empty
      again. */
  lemma BlockSent(c: Config, tx: Transmitter, last: Option<nat>, block: nat, ps: seq<Packet>)
    requires c.Sane() && Transmits(c, tx) && AllAuthentic(c, tx, ps) && OfBlock(ps, block)
    requires last.None? || last.value + 1 == block
    requires |Arrived(ps)| >= c.k
    ensures PacketsFit(c, ps) && Valid(c, Window([], last))
    ensures Run(c, Window([], last), ps) == (Window([], Some(block)), Primaries(c, tx, block, 0, c.k))
  {
    hide Store, BlockAtRest, FreshBlock, Primaries, Codeword;
    AuthenticFit(c, tx, ps);
    ArrivedNone();
    assert ps != [];
    var w, w1 := Window([], last), Window([FreshBlock(c, block)], Some(block));
    FreshAtRest(c, block);
    FreshIdx(c, block);
    assert Admit(c, w, block) == w1;
    assert Find(w1.blocks, block) == Some(0);
    assert Step(c, w, ps[0]) == Step(c, w1, ps[0]) by {
      var r := Store(c, w1, 0, ps[0]);
      assert [] + r.1 == r.1;
    }
    StepValid(c, w, ps[0]);
    assert Run(c, w, ps) == Run(c, w1, ps);
    FreshReceiving(c, tx, block);
    ReceivingRun(c, tx, w1, block, {}, ps) by { assert {} + Arrived(ps) == Arrived(ps); }
  }

  lemma FreshReceiving(c: Config, tx: Transmitter, block: nat)
    requires c.Sane() && Transmits(c, tx)
    ensures Receiving(c, tx, Window([FreshBlock(c, block)], Some(block)), block, {})
  {
    FreshAtRest(c, block);
  }

  // ----- whole sessions of complete blocks -----

  ghost function Flatten(segments: seq<seq<Packet>>): (ps: seq<Packet>) {
    if segments == [] then [] else segments[0] + Flatten(segments[1..])
  }

  /** Consecutive blocks, one after another, each with at least k different authentic fragments. */
  ghost predicate CompleteBlocks(c: Config, tx: Transmitter, first: nat, segments: seq<seq<Packet>>)
    requires Transmits(c, tx)
  {
    forall s :: 0 <= s < |segments| ==>
      AllAuthentic(c, tx, segments[s]) && OfBlock(segments[s], first + s) && |Arrived(segments[s])| >= c.k
  }

  ghost function EveryPrimary(c: Config, tx: Transmitter, first: nat, count: nat): (out: seq<Emission>)
    requires Transmits(c, tx)
    decreases count
  {
    if count == 0 then [] else Primaries(c, tx, first, 0, c.k) + EveryPrimary(c, tx, first + 1, count - 1)
  }

  lemma {:induction false} FlattenAuthentic(c: Config, tx: Transmitter, first: nat, segments: seq<seq<Packet>>)
    requires Transmits(c, tx) && CompleteBlocks(c, tx, first, segments)
    ensures AllAuthentic(c, tx, Flatten(segments))
    decreases |segments|
  {
    hide Authentic;
    if segments == [] {
    } else {
      CompleteTail(c, tx, first, segments);
      FlattenAuthentic(c, tx, first + 1, segments[1..]);
    }
  }

  lemma CompleteTail(c: Config, tx: Transmitter, first: nat, segments: seq<seq<Packet>>)
    requires Transmits(c, tx) && CompleteBlocks(c, tx, first, segments) && segments != []
    ensures CompleteBlocks(c, tx, first + 1, segments[1..])
    ensures AllAuthentic(c, tx, segments[0]) && OfBlock(segments[0], first) && |Arrived(segments[0])| >= c.k
  {
    hide AllAuthentic, OfBlock, Arrived;
    forall s | 0 <= s < |segments[1..]|
      ensures && AllAuthentic(c, tx, segments[1..][s]) && OfBlock(segments[1..][s], first + 1 + s)
              && |Arrived(segments[1..][s])| >= c.k
    {
      assert segments[1..][s] == segments[s + 1];
    }
  }

  /** Nothing is missing: every primary packet of every block is sent, in order, and the window ends empty. */
  lemma {:induction false} NothingMissing(c: Config, tx: Transmitter, last: Option<nat>, first: nat,
                                          segments: seq<seq<Packet>>)
    requires c.Sane() && Transmits(c, tx) && CompleteBlocks(c, tx, first, segments)
    requires last.None? || last.value + 1 == first
    ensures PacketsFit(c, Flatten(segments)) && Valid(c, Window([], last))
    ensures Run(c, Window([], last), Flatten(segments))
         == (Window([], if segments == [] then last else Some(first + |segments| - 1)),
             EveryPrimary(c, tx, first, |segments|))
    decreases |segments|
  {
    hide Step, Valid, Primaries, AllAuthentic, OfBlock, Arrived, CompleteBlocks;
    FlattenAuthentic(c, tx, first, segments);
    AuthenticFit(c, tx, Flatten(segments));
    EmptyValid(c, last);
    if segments == [] {
    } else {
      CompleteTail(c, tx, first, segments);
      BlockSent(c, tx, last, first, segments[0]);
      NothingMissing(c, tx, Some(first), first + 1, segments[1..]);
      RunConcat(c, Window([], last), segments[0], Flatten(segments[1..]));
    }
  }

  lemma EmptyValid(c: Config, last: Option<nat>)
    requires c.Sane()
    ensures Valid(c, Window([], last))
  {
  }
}
