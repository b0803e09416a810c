/** The Aggregator of WFBProcessor.cpp: fields, a ring of slots whose fragment buffers are updated in
    place, and the methods that refine the steps of ReceiveWindow. */
module WfbProcessor {
  import opened Gf
  import opened GfTables
  import opened Vectors
  import opened ErasureCode
  import opened FecNew
  import opened FecCodec
  import opened ReceiveWindow
  import opened LossMeter
  import opened RxRing
  import opened ReceiveTheorems
  import opened ReceiveConservation
  import opened ReceiveInterleaved
  import opened ReceiveDelivery
  import opened Wrappers

  const MAX_FEC_PAYLOAD := 1448
  const MAX_PAYLOAD_SIZE := 1445
  const NO_BLOCK := 0xFFFF_FFFF_FFFF_FFFF
  const MAX_BLOCK_IDX := 0x7F_FFFF_FFFF_FFFF
  const MAX_FORWARDER_PACKET_SIZE := 1473
  const BLOCK_HDR_SIZE := 9
  const PACKET_HDR_SIZE := 3
  const AEAD_TAG_SIZE := 16
  const SESSION_PACKET_SIZE := 88
  const WFB_PACKET_DATA := 1
  const WFB_PACKET_KEY := 2
  const WFB_FEC_VDM_RS := 1

  /** One slot of the ring. The buffers stay where they are; everything else is overwritten. */
  datatype Item = Item(blockIdx: nat, fragments: seq<array<gf>>, flags: seq<bool>, toSend: nat, has: nat)

  /** What a slot says about its block; the content of a buffer whose flag is clear does not matter. */
  ghost function BlockOf(it: Item): (b: Block)
    requires |it.flags| == |it.fragments|
    reads it.fragments
    ensures b.idx == it.blockIdx && b.next == it.toSend && |b.frags| == |it.flags|
    ensures forall f :: 0 <= f < |it.flags| ==> b.frags[f] == if it.flags[f] then Some(it.fragments[f][..]) else None
  {
    Block(it.blockIdx,
          seq(|it.flags|, f requires 0 <= f < |it.flags| reads it.fragments =>
            if it.flags[f] then Some(it.fragments[f][..]) else None),
          it.toSend)
  }

  /** The payload handed to the callback for a sent packet: none if it is only there for FEC or its size is
      impossible. */
  function PayloadOf(bytes: seq<gf>): (payloads: seq<seq<gf>>)
    requires |bytes| == MAX_FEC_PAYLOAD
  {
    var size: int := (bytes[1] as int) * 256 + bytes[2] as int;
    if size <= MAX_PAYLOAD_SIZE && bytes[0] % 2 == 0 then [bytes[3..3 + size]] else []
  }

  /** What the transmitter wraps into a packet comes out again, unless it is marked as filler. */
  lemma Unwraps(flags: gf, payload: seq<gf>, bytes: seq<gf>)
    requires |payload| <= 1445
    requires bytes == [flags, |payload| / 256, |payload| % 256] + payload + seq(1445 - |payload|, _ => 0)
    ensures PayloadOf(bytes) == if flags % 2 == 0 then [payload] else []
  {
    assert bytes[3..3 + |payload|] == payload;
  }

  /** A packet that states an impossible size delivers nothing. */
  lemma Corrupted(bytes: seq<gf>)
    requires |bytes| == MAX_FEC_PAYLOAD && (bytes[1] as int) * 256 + (bytes[2] as int) > 1445
    ensures PayloadOf(bytes) == []
  {
  }

  /** The payloads wrapped into these packets, in order and without the filler. */
  ghost function Originals(out: seq<Emission>, flags: (nat, nat) -> gf, payload: (nat, nat) -> seq<gf>)
      : (payloads: seq<seq<gf>>)
  {
    if out == [] then []
    else
      var e := out[|out| - 1];
      Originals(out[..|out| - 1], flags, payload)
      + (if flags(e.block, e.frag) % 2 == 0 then [payload(e.block, e.frag)] else [])
  }

  /** The transmitter's packets wrap these payloads under these flags. */
  ghost predicate Wraps(c: Config, tx: Transmitter, flags: (nat, nat) -> gf, payload: (nat, nat) -> seq<gf>)
    requires Transmits(c, tx)
  {
    forall b: nat, f: nat :: f < c.k ==>
      && |payload(b, f)| <= 1445
      && tx(b)[f] == [flags(b, f), |payload(b, f)| / 256, |payload(b, f)| % 256] + payload(b, f)
                     + seq(1445 - |payload(b, f)|, _ => 0)
  }

  /** What is delivered for the transmitter's own packets is what it wrapped. */
  lemma {:induction false} PayloadsOriginal(c: Config, tx: Transmitter, out: seq<Emission>, flags: (nat, nat) -> gf,
                                            payload: (nat, nat) -> seq<gf>)
    requires Transmits(c, tx) && Wraps(c, tx, flags, payload)
    requires forall i :: 0 <= i < |out| ==> Faithful(c, tx, out[i])
    ensures Payloads(out) == Originals(out, flags, payload)
  {
    hide PayloadOf;
    if out == [] {
    } else {
      var e := out[|out| - 1];
      PayloadsOriginal(c, tx, out[..|out| - 1], flags, payload);
      Unwraps(flags(e.block, e.frag), payload(e.block, e.frag), e.bytes);
    }
  }

  ghost function Payloads(out: seq<Emission>): (payloads: seq<seq<gf>>) {
    if out == [] then []
    else
      var e := out[|out| - 1];
      Payloads(out[..|out| - 1]) + (if |e.bytes| == MAX_FEC_PAYLOAD then PayloadOf(e.bytes) else [])
  }

  lemma {:induction false} AdvanceSnoc(k: nat, m: Meter, out: seq<Emission>, e: Emission)
    ensures AdvanceAll(k, m, out + [e]) == Advance(k, AdvanceAll(k, m, out), e.block, e.frag)
    decreases |out|
  {
    hide Advance;
    if out == [] {
      assert out + [e] == [e];
    } else {
      assert (out + [e])[1..] == out[1..] + [e];
      AdvanceSnoc(k, Advance(k, m, out[0].block, out[0].frag), out[1..], e);
    }
  }

  /** The contents of a session packet. */
  datatype Session = Session(epoch: nat, channelId: nat, fecType: nat, k: gf, n: gf, key: seq<gf>)

  /** A packet as it arrives, with what the two decryptions make of it, if they succeed. */
  datatype Frame = Frame(size: nat, kind: nat, nonce: nat, plain: Option<seq<gf>>, session: Option<Session>) {
    /** Authenticated decryption strips the header and the tag and nothing else. */
    ghost predicate Opened() {
      plain.Some? ==> |plain.value| + BLOCK_HDR_SIZE + AEAD_TAG_SIZE == size
    }
  }

  lemma FreshCount(frags: Fragments)
    requires forall f :: 0 <= f < |frags| ==> frags[f].None?
    ensures Has(frags) == 0
  {
    CountNone(frags, 0, |frags|);
  }

  method NewBuffers(n: nat) returns (fs: Packets)
    ensures |fs| == n && AllDistinct(fs)
    ensures forall f :: 0 <= f < n ==> fresh(fs[f]) && fs[f].Length == MAX_FEC_PAYLOAD
  {
    fs := [];
    for i := 0 to n
      invariant |fs| == i && AllDistinct(fs)
      invariant forall f :: 0 <= f < i ==> fresh(fs[f]) && fs[f].Length == MAX_FEC_PAYLOAD
    {
      var buf := new gf[MAX_FEC_PAYLOAD];
      fs := fs + [buf];
    }
  }

  ghost function OwnerOf(fs: Packets, i: nat): (m: map<array<gf>, (nat, nat)>)
    requires AllDistinct(fs)
    ensures forall f :: 0 <= f < |fs| ==> fs[f] in m && m[fs[f]] == (i, f)
    ensures forall b :: b in m ==> b in fs
  {
    if fs == [] then map[]
    else OwnerOf(fs[..|fs| - 1], i)[fs[|fs| - 1] := (i, |fs| - 1)]
  }

  /** The window and the emissions are those of one step. */
  ghost predicate Stepped(c: Config, w: Window, p: Packet, w': Window, before: seq<Emission>, now: seq<Emission>) {
    && ReceiveWindow.Valid(c, w) && p.frag < c.n && |p.bytes| == c.len
    && w' == Step(c, w, p).0 && now == before + Step(c, w, p).1
  }

  /** One more step makes the run one packet longer. */
  lemma RunNext(c: Config, ps: seq<Packet>, w: Window, before: seq<Emission>, p: Packet, w': Window, now: seq<Emission>)
    requires ReceiveWindow.Valid(c, EMPTY) && PacketsFit(c, ps) && Run(c, EMPTY, ps) == (w, before)
    requires Stepped(c, w, p, w', before, now)
    ensures PacketsFit(c, ps + [p]) && Run(c, EMPTY, ps + [p]) == (w', now)
  {
    hide ReceiveWindow.Valid, Step;
    RunConcat(c, EMPTY, ps, [p]);
    assert Run(c, w, [p]) == (w', Step(c, w, p).1) by {
      assert [p][1..] == [];
      assert Step(c, w, p).1 + [] == Step(c, w, p).1;
    }
  }

  /** The block is not live and not newer than the last known one. */
  lemma SteppedIgnored(c: Config, w: Window, p: Packet, before: seq<Emission>)
    requires ReceiveWindow.Valid(c, w) && p.frag < c.n && |p.bytes| == c.len
    requires Find(w.blocks, p.block).None? && w.last.Some? && p.block <= w.last.value
    ensures Stepped(c, w, p, w, before, before)
  {
    hide ReceiveWindow.Valid;
    assert before + [] == before;
  }

  /** What was sent to make room for a newer block. */
  ghost predicate RoomMade(c: Config, w: Window, block: nat, before: seq<Emission>, now: seq<Emission>)
    requires w.last.Some? ==> block > w.last.value
    requires c.ring >= 1 && |w.blocks| <= c.ring
  {
    && (forall j :: 0 <= j < |w.blocks| ==> c.k <= |w.blocks[j].frags|)
    && now == before + FlushAll(w.blocks[..Evicted(c, w, block)], c.k)
  }

  /** After the lookup: the block is live, where it was or as the newest one. */
  ghost predicate Located(c: Config, w: Window, w1: Window, p: Packet, before: seq<Emission>, mid: seq<Emission>) {
    match Find(w.blocks, p.block)
    case Some(pos) => w1 == w && mid == before
    case None =>
      && (w.last.Some? ==> p.block > w.last.value) && c.ring >= 1 && |w.blocks| <= c.ring
      && w1 == Admit(c, w, p.block) && RoomMade(c, w, p.block, before, mid)
  }

  ghost function PositionOf(c: Config, w: Window, w1: Window, p: Packet, before: seq<Emission>,
                            mid: seq<Emission>): (pos: nat)
    requires ReceiveWindow.Valid(c, w) && Located(c, w, w1, p, before, mid)
    ensures pos < |w1.blocks| && w1.blocks[pos].idx == p.block
    ensures Find(w.blocks, p.block).Some? ==> pos == Find(w.blocks, p.block).value
    ensures Find(w.blocks, p.block).None? ==> pos == |w1.blocks| - 1
  {
    match Find(w.blocks, p.block)
    case Some(pos) => pos
    case None =>
      AdmitValid(c, w, p.block);
      FreshIdx(c, p.block);
      |w1.blocks| - 1
  }

  /** The window and the emissions are those of storing p at pos. */
  ghost predicate StoredAs(c: Config, w: Window, pos: nat, p: Packet, w': Window, before: seq<Emission>,
                           now: seq<Emission>) {
    && ReceiveWindow.Valid(c, w) && pos < |w.blocks| && p.frag < c.n && |p.bytes| == c.len
    && w' == Store(c, w, pos, p).0 && now == before + Store(c, w, pos, p).1
  }

  lemma StoredDuplicate(c: Config, w: Window, pos: nat, p: Packet, before: seq<Emission>)
    requires ReceiveWindow.Valid(c, w) && pos < |w.blocks| && p.frag < c.n && |p.bytes| == c.len
    requires p.frag < |w.blocks[pos].frags| && w.blocks[pos].frags[p.frag].Some?
    ensures StoredAs(c, w, pos, p, w, before, before)
  {
    hide ReceiveWindow.Valid, Has;
    assert before + [] == before;
  }

  /** Locating the block and storing into it is one step. */
  lemma {:induction false} SteppedStored(c: Config, w: Window, w1: Window, pos: nat, p: Packet, w2: Window,
                      before: seq<Emission>, mid: seq<Emission>, now: seq<Emission>)
    requires ReceiveWindow.Valid(c, w) && Located(c, w, w1, p, before, mid)
    requires pos == PositionOf(c, w, w1, p, before, mid) && StoredAs(c, w1, pos, p, w2, mid, now)
    ensures Stepped(c, w, p, w2, before, now)
  {
    hide ReceiveWindow.Valid, Store, FlushAll, Admit;
    if Find(w.blocks, p.block).None? {
      var a, b := mid[|before|..], Store(c, w1, pos, p).1;
      assert (before + a) + b == before + (a + b);
    }
  }

  /** A run has been sent up to the slot's next fragment. */
  ghost predicate RunSent(k: nat, v: seq<Block>, r: nat, b: Block, now: seq<Block>, before: seq<Emission>,
                          sent: seq<Emission>)
    requires r < |v| && r < |now|
  {
    && b.next <= now[r].next <= k <= |b.frags|
    && now == v[r := b.(next := now[r].next)] && sent == before + FlushRange(b, b.next, now[r].next)
  }

  lemma RunSentFacts(k: nat, v: seq<Block>, r: nat, b: Block, now: seq<Block>, before: seq<Emission>,
                     sent: seq<Emission>)
    requires r < |v| && r < |now| && RunSent(k, v, r, b, now, before, sent)
    ensures b.next <= now[r].next <= k <= |b.frags|
    ensures now == v[r := b.(next := now[r].next)] && sent == before + FlushRange(b, b.next, now[r].next)
  {
  }

  lemma StoredAsValid(c: Config, w: Window, pos: nat, p: Packet, w': Window, before: seq<Emission>, now: seq<Emission>)
    requires StoredAs(c, w, pos, p, w', before, now)
    ensures ReceiveWindow.Valid(c, w')
  {
    hide ReceiveWindow.Valid, Store;
    StoreValid(c, w, pos, p);
  }

  lemma LiveAt(view: seq<Block>, front: nat, alloc: nat, pos: nat)
    requires RingShape(view, front, alloc) && pos < alloc
    ensures Live(view, front, alloc)[pos] == view[SlotOf(front, pos)]
    ensures SlotOf(front, pos) == front <==> pos == 0
  {
  }

  /** Where the block stands after the run, before it is known whether it is finished. */
  ghost predicate Stored(c: Config, w: Window, pos: nat, p: Packet, bs: seq<Block>, b: Block, before: seq<Emission>,
                         mid: seq<Emission>) {
    && ReceiveWindow.Valid(c, w) && pos < |w.blocks| && p.frag < c.n && |p.bytes| == c.len
    && var b0 := w.blocks[pos];
       && |b0.frags| == c.n && b0.frags[p.frag].None? && b0.next <= c.k <= c.n
       && var frags := b0.frags[p.frag := Some(p.bytes)];
          && b == b0.(frags := frags, next := if pos == 0 then RunEnd(frags, b0.next, c.k) else b0.next)
          && bs == w.blocks[pos := b]
          && mid == before + if pos == 0 then FlushRange(b0.(frags := frags), b0.next, b.next) else []
  }

  lemma StoredFacts(c: Config, w: Window, pos: nat, p: Packet, bs: seq<Block>, b: Block, before: seq<Emission>,
                    mid: seq<Emission>)
    requires Stored(c, w, pos, p, bs, b, before, mid)
    ensures |bs| == |w.blocks| && bs[pos] == b && b.next <= c.k && |b.frags| == c.n && (pos > 0 ==> b.next < c.k)
    ensures Sized(b.frags, c.len)
    ensures b.next < c.k ==> forall j :: 0 <= j < |bs| ==> bs[j].next < c.k && |bs[j].frags| == c.n
  {
    hide Has, FlushRange, RunEnd;
    ValidSizes(c, w);
  }

  /** The front block ran to its end. */
  lemma StoredFull(c: Config, w: Window, pos: nat, p: Packet, bs: seq<Block>, b: Block, before: seq<Emission>,
                   mid: seq<Emission>)
    requires Stored(c, w, pos, p, bs, b, before, mid) && pos == 0 && b.next == c.k
    ensures StoredAs(c, w, pos, p, w.(blocks := bs[1..]), before, mid)
  {
    hide ReceiveWindow.Valid, Has, FlushRange, RunEnd;
    assert bs[1..] == w.blocks[1..];
  }

  /** The older blocks were flushed and block pos was sent to its end. */
  ghost predicate Finished(k: nat, bs: seq<Block>, pos: nat, before: seq<Emission>, now: seq<Emission>) {
    && pos < |bs| && (forall j :: 0 <= j < |bs| ==> k <= |bs[j].frags|)
    && bs[pos].next <= k && Has(bs[pos].frags) >= k && Sized(bs[pos].frags, MAX_FEC_PAYLOAD)
    && now == before + FlushAll(bs[..pos], k) + EmitCompleted(bs[pos], k, MAX_FEC_PAYLOAD, bs[pos].next)
  }

  lemma StoredFinished(c: Config, w: Window, pos: nat, p: Packet, bs: seq<Block>, b: Block,
                       before: seq<Emission>, mid: seq<Emission>, now: seq<Emission>)
    requires Stored(c, w, pos, p, bs, b, before, mid) && b.next < c.k && Has(b.frags) == c.k && c.len == MAX_FEC_PAYLOAD
    requires Finished(c.k, bs, pos, mid, now)
    ensures StoredAs(c, w, pos, p, w.(blocks := bs[pos + 1..]), before, now)
  {
    hide ReceiveWindow.Valid, Has, FlushRange, RunEnd, FlushAll, EmitCompleted;
    assert bs[..pos] == w.blocks[..pos] && bs[pos + 1..] == w.blocks[pos + 1..];
    var run := mid[|before|..];
    assert mid == before + run;
    assert now == before + (run + FlushAll(w.blocks[..pos], c.k) + EmitCompleted(b, c.k, c.len, b.next));
    assert run == Store(c, w, pos, p).1[..|run|];
  }

  lemma StoredKept(c: Config, w: Window, pos: nat, p: Packet, bs: seq<Block>, b: Block, before: seq<Emission>,
                   mid: seq<Emission>)
    requires Stored(c, w, pos, p, bs, b, before, mid) && b.next < c.k && Has(b.frags) != c.k
    ensures StoredAs(c, w, pos, p, w.(blocks := bs), before, mid)
  {
    hide ReceiveWindow.Valid, Has, FlushRange, RunEnd;
  }

  /** The rest of a decodable block has been sent up to n. */
  ghost predicate RestSent(b: Block, k: nat, n: nat, before: seq<Emission>, now: seq<Emission>) {
    && b.next <= k <= |b.frags| && n <= k && Has(b.frags) >= k && Sized(b.frags, MAX_FEC_PAYLOAD)
    && now + EmitCompleted(b, k, MAX_FEC_PAYLOAD, n) == before + EmitCompleted(b, k, MAX_FEC_PAYLOAD, b.next)
  }

  lemma RestSentAll(b: Block, k: nat, before: seq<Emission>, now: seq<Emission>)
    requires RestSent(b, k, k, before, now)
    ensures b.next <= k <= |b.frags| && Has(b.frags) >= k && Sized(b.frags, MAX_FEC_PAYLOAD)
    ensures now == before + EmitCompleted(b, k, MAX_FEC_PAYLOAD, b.next)
  {
    hide Has;
    assert EmitCompleted(b, k, MAX_FEC_PAYLOAD, k) == [];
    assert now + [] == now;
  }

  ghost predicate OlderFlushed(k: nat, bs: seq<Block>, d: nat, before: seq<Emission>, now: seq<Emission>) {
    && d <= |bs| && (forall j :: 0 <= j < |bs| ==> k <= |bs[j].frags|)
    && now == before + FlushAll(bs[..d], k)
  }

  lemma FinishedFrom(k: nat, bs: seq<Block>, pos: nat, before: seq<Emission>, mid: seq<Emission>, now: seq<Emission>)
    requires pos < |bs| && OlderFlushed(k, bs, pos, before, mid) && RestSent(bs[pos], k, k, mid, now)
    ensures Finished(k, bs, pos, before, now)
  {
    hide Has, FlushAll, EmitCompleted;
    RestSentAll(bs[pos], k, mid, now);
  }

  /** What happens to the oldest block's slot does not matter once it is dropped. */
  /** The oldest live block when d of the blocks bs have left. */
  lemma FrontOf(view: seq<Block>, front: nat, alloc: nat, bs: seq<Block>, d: nat)
    requires RingShape(view, front, alloc) && d < |bs| && Live(view, front, alloc) == bs[d..]
    ensures view[front] == bs[d] && bs[d..][1..] == bs[d + 1..]
  {
    assert view[front] == Live(view, front, alloc)[0];
  }

  lemma SlotNext(front: nat, d: nat)
    requires front < RX_RING_SIZE && d + 1 < RX_RING_SIZE
    ensures SlotOf(SlotOf(front, d), 1) == SlotOf(front, d + 1)
  {
  }

  lemma SlotSame(front: nat)
    requires front < RX_RING_SIZE
    ensures SlotOf(front, 0) == front
  {
  }

  lemma DropSet(view: seq<Block>, front: nat, alloc: nat, b: Block)
    requires RingShape(view, front, alloc) && alloc > 0
    ensures Live(view[front := b], front, alloc)[1..] == Live(view, front, alloc)[1..]
  {
  }

  lemma ArrivedIsCompleted(frags: Fragments, k: nat, f: nat)
    requires f < k <= |frags| && Has(frags) >= k && Sized(frags, MAX_FEC_PAYLOAD) && frags[f].Some?
    ensures CompletedPacket(frags, k, MAX_FEC_PAYLOAD, f) == frags[f].value
  {
    hide Has, FecIndex, DecodeInputs, RecoveredRange;
  }

  lemma RestSentNone(b: Block, k: nat, before: seq<Emission>)
    requires b.next <= k <= |b.frags| && Has(b.frags) >= k && Sized(b.frags, MAX_FEC_PAYLOAD)
    ensures RestSent(b, k, b.next, before, before)
  {
    hide Has, EmitCompleted;
  }

  lemma RestSentNext(b: Block, k: nat, n: nat, before: seq<Emission>, now: seq<Emission>)
    requires RestSent(b, k, n, before, now) && n < k
    ensures k <= |b.frags| && Has(b.frags) >= k && Sized(b.frags, MAX_FEC_PAYLOAD)
    ensures RestSent(b, k, n + 1, before, now + [Emission(b.idx, n, CompletedPacket(b.frags, k, MAX_FEC_PAYLOAD, n))])
  {
    hide Has, CompletedPacket;
    var e := Emission(b.idx, n, CompletedPacket(b.frags, k, MAX_FEC_PAYLOAD, n));
    var t := EmitCompleted(b, k, MAX_FEC_PAYLOAD, n + 1);
    assert EmitCompleted(b, k, MAX_FEC_PAYLOAD, n) == [e] + t;
    assert (now + [e]) + t == now + ([e] + t);
  }

  lemma RunSentNone(k: nat, v: seq<Block>, r: nat, b: Block, before: seq<Emission>)
    requires r < |v| && v[r] == b && b.next <= k <= |b.frags|
    ensures RunSent(k, v, r, b, v, before, before)
  {
  }

  lemma RunSentNext(k: nat, v: seq<Block>, r: nat, b: Block, now: seq<Block>, before: seq<Emission>,
                    sent: seq<Emission>)
    requires r < |v| && r < |now| && RunSent(k, v, r, b, now, before, sent)
    requires now[r].next < k && b.frags[now[r].next].Some?
    ensures RunSent(k, v, r, b, now[r := now[r].(next := now[r].next + 1)], before,
                    sent + [Emission(b.idx, now[r].next, b.frags[now[r].next].value)])
  {
    FlushRangeSnoc(b, b.next, now[r].next);
  }

  lemma OlderFlushedNone(k: nat, bs: seq<Block>, before: seq<Emission>)
    requires forall j :: 0 <= j < |bs| ==> k <= |bs[j].frags|
    ensures OlderFlushed(k, bs, 0, before, before)
  {
  }

  lemma OlderFlushedNext(k: nat, bs: seq<Block>, d: nat, before: seq<Emission>, now: seq<Emission>)
    requires OlderFlushed(k, bs, d, before, now) && d < |bs|
    ensures k <= |bs[d].frags| && OlderFlushed(k, bs, d + 1, before, now + Flush(bs[d], k))
  {
    hide Flush;
    assert bs[..d + 1] == bs[..d] + [bs[d]];
    FlushAllSnoc(bs[..d], bs[d], k);
  }

  /** How many of the oldest blocks leave when i blocks join n. */
  ghost function Overflow(n: nat, i: nat): (d: nat)
    requires n <= RX_RING_SIZE && i <= RX_RING_SIZE
    ensures d <= n
  {
    if n + i <= RX_RING_SIZE then 0 else n + i - RX_RING_SIZE
  }

  /** The live blocks after i new ones have joined the old ones. */
  ghost predicate Admitting(c: Config, bs: seq<Block>, first: nat, i: nat, live: seq<Block>) {
    && |bs| <= RX_RING_SIZE && i <= RX_RING_SIZE
    && live == bs[Overflow(|bs|, i)..] + FreshBlocks(c, first, i)
  }

  /** After i of the new blocks have joined: what is live, and what has been sent to make room. */
  ghost predicate Pushed(c: Config, bs: seq<Block>, first: nat, i: nat, before: seq<Emission>, live: seq<Block>,
                         now: seq<Emission>) {
    && c.k <= c.n && (forall j :: 0 <= j < |bs| ==> |bs[j].frags| == c.n && bs[j].next <= c.k)
    && Admitting(c, bs, first, i, live)
    && now == before + FlushAll(bs[..Overflow(|bs|, i)], c.k)
  }

  lemma PushedAdmits(c: Config, w: Window, block: nat, before: seq<Emission>, live: seq<Block>, now: seq<Emission>)
    requires c.ring == RX_RING_SIZE && |w.blocks| <= RX_RING_SIZE && (w.last.Some? ==> block > w.last.value)
    requires Pushed(c, w.blocks, block + 1 - NewBlocks(c, w, block), NewBlocks(c, w, block), before, live, now)
    ensures Window(live, Some(block)) == Admit(c, w, block) && RoomMade(c, w, block, before, now)
  {
    hide FlushAll;
  }

  lemma AdmitNone(c: Config, bs: seq<Block>, first: nat)
    requires |bs| <= RX_RING_SIZE
    ensures Admitting(c, bs, first, 0, bs)
    ensures FlushAll(bs[..Overflow(|bs|, 0)], c.k) == []
  {
  }

  lemma PushedNone(c: Config, bs: seq<Block>, first: nat, before: seq<Emission>)
    requires |bs| <= RX_RING_SIZE && c.k <= c.n
    requires forall j :: 0 <= j < |bs| ==> |bs[j].frags| == c.n && bs[j].next <= c.k
    ensures Pushed(c, bs, first, 0, before, bs, before)
  {
    AdmitNone(c, bs, first);
    assert before + [] == before;
  }

  /** One more block joins: at capacity the oldest one leaves and is flushed. */
  lemma AdmitOne(c: Config, bs: seq<Block>, first: nat, i: nat, live: seq<Block>, b: Block)
    requires Admitting(c, bs, first, i, live) && i < RX_RING_SIZE && b == FreshBlock(c, first + i) && c.k <= c.n
    requires forall j :: 0 <= j < |bs| ==> |bs[j].frags| == c.n && bs[j].next <= c.k
    ensures |live| <= RX_RING_SIZE && (live != [] ==> live[0].next <= c.k)
    ensures |live| < RX_RING_SIZE ==>
              Admitting(c, bs, first, i + 1, live + [b]) && Overflow(|bs|, i + 1) == Overflow(|bs|, i)
    ensures |live| == RX_RING_SIZE ==>
              && Admitting(c, bs, first, i + 1, live[1..] + [b]) && |live[0].frags| == c.n
              && FlushAll(bs[..Overflow(|bs|, i + 1)], c.k)
                 == FlushAll(bs[..Overflow(|bs|, i)], c.k) + Flush(live[0], c.k)
  {
    hide FlushAll, Flush;
    var d := Overflow(|bs|, i);
    if live != [] && |bs| - d == 0 {
      FreshIdx(c, first);
    }
    assert FreshBlocks(c, first, i + 1) == FreshBlocks(c, first, i) + [b];
    if |live| == RX_RING_SIZE {
      assert live[0] == bs[d];
      assert bs[..d + 1] == bs[..d] + [bs[d]];
      FlushAllSnoc(bs[..d], bs[d], c.k);
    }
  }

  lemma PushedNext(c: Config, bs: seq<Block>, first: nat, i: nat, before: seq<Emission>, live: seq<Block>,
                   now: seq<Emission>)
    requires Pushed(c, bs, first, i, before, live, now) && i < RX_RING_SIZE
    ensures |live| <= RX_RING_SIZE && (live != [] ==> live[0].next <= c.k)
    ensures |live| < RX_RING_SIZE ==> Pushed(c, bs, first, i + 1, before, live + [FreshBlock(c, first + i)], now)
    ensures |live| == RX_RING_SIZE ==>
              && |live[0].frags| == c.n && c.k <= c.n
              && Pushed(c, bs, first, i + 1, before, live[1..] + [FreshBlock(c, first + i)], now + Flush(live[0], c.k))
  {
    hide FlushAll, Flush, FreshBlock, Admitting;
    AdmitOne(c, bs, first, i, live, FreshBlock(c, first + i));
  }

  lemma {:induction false} MissingRows(idx: seq<nat>, n: nat)
    requires n <= |idx|
    ensures forall a, b :: 0 <= a < b < |Missing(idx, n)| ==> Missing(idx, n)[a] < Missing(idx, n)[b]
    ensures forall o :: 0 <= o < |Missing(idx, n)| ==> Missing(idx, n)[o] < n
    ensures forall row :: 0 <= row < n && idx[row] >= |idx| ==> row in Missing(idx, n)
  {
    if n == 0 {
    } else {
      MissingRows(idx, n - 1);
    }
  }

  /** The flags say which fragments have arrived. */
  ghost predicate Flagged(flags: seq<bool>, frags: Fragments) {
    |flags| == |frags| && forall f :: 0 <= f < |flags| ==> (flags[f] <==> frags[f].Some?)
  }

  /** Finds the next flagged buffer from j on. */
  method FindArrived(flags: seq<bool>, j: nat, ghost frags: Fragments) returns (p: nat)
    requires Flagged(flags, frags) && j <= |flags|
    ensures p == NextArrived(frags, j)
  {
    p := j;
    while p < |flags| && !flags[p]
      invariant p <= |flags| && NextArrived(frags, p) == NextArrived(frags, j)
    {
      p := p + 1;
    }
  }

  /** One step of the choice: a fragment's own buffer, or the next stand-in. */
  lemma PickStep(frags: Fragments, k: nat, i: nat, j: nat)
    requires i < k <= j <= |frags| && Has(frags) == k && Pick(frags, k, i, j) == FecIndex(frags, k)[i..]
    ensures var idx := FecIndex(frags, k);
            if frags[i].Some? then
              idx[i] == i && Pick(frags, k, i + 1, j) == idx[i + 1..] && Missing(idx, i + 1) == Missing(idx, i)
            else
              && NextArrived(frags, j) == idx[i] < |frags| && Pick(frags, k, i + 1, idx[i] + 1) == idx[i + 1..]
              && Missing(idx, i + 1) == Missing(idx, i) + [i]
  {
    hide Choice, OwnSlots, Has;
    FecIndexValid(frags, k);
    var idx := FecIndex(frags, k);
    assert idx[i] == idx[i..][0] && idx[i + 1..] == idx[i..][1..];
  }

  ghost predicate InRange(idx: seq<nat>, n: nat) {
    forall q :: 0 <= q < |idx| ==> idx[q] < n
  }

  /** The buffers with these numbers. */
  ghost function Gather(fragments: Packets, idx: seq<nat>): (ps: Packets)
    requires InRange(idx, |fragments|)
    ensures |ps| == |idx| && forall q :: 0 <= q < |idx| ==> ps[q] == fragments[idx[q]]
  {
    seq(|idx|, q requires 0 <= q < |idx| => fragments[idx[q]])
  }

  lemma StartPick(frags: Fragments, k: nat)
    requires k <= |frags|
    ensures Pick(frags, k, 0, k) == FecIndex(frags, k)[0..] && Missing(FecIndex(frags, k), 0) == []
  {
  }

  /** Which buffers to decode from, under which indices, and which buffers to decode into. */
  method ChooseInputs(fragments: Packets, flags: seq<bool>, k: nat, index: array<nat>, ghost frags: Fragments)
      returns (inBlocks: Packets, outBlocks: Packets)
    requires |fragments| == |flags| && Flagged(flags, frags) && index.Length == k <= |flags| && Has(frags) == k
    modifies index
    ensures index[..] == FecIndex(frags, k) && InRange(index[..], |flags|) && InRange(Missing(index[..], k), |flags|)
    ensures inBlocks == Gather(fragments, index[..])
    ensures outBlocks == Gather(fragments, Missing(index[..], k)) && |outBlocks| <= |flags| - k
  {
    hide Has, Pick, Missing, FecIndex, NextArrived;
    ghost var idx := FecIndex(frags, k);
    StartPick(frags, k);
    inBlocks, outBlocks := [], [];
    var j: nat := k;
    for i := 0 to k
      invariant k <= j <= |flags|
      invariant Pick(frags, k, i, j) == idx[i..]
      invariant index[..i] == idx[..i] && InRange(idx[..i], |flags|) && InRange(Missing(idx, i), |flags|)
      invariant inBlocks == Gather(fragments, idx[..i]) && outBlocks == Gather(fragments, Missing(idx, i))
      invariant |outBlocks| <= j - k
    {
      PickStep(frags, k, i, j);
      assert idx[..i + 1] == idx[..i] + [idx[i]];
      if flags[i] {
        inBlocks := inBlocks + [fragments[i]];
        index[i] := i;
      } else {
        var p := FindArrived(flags, j, frags);
        inBlocks := inBlocks + [fragments[p]];
        outBlocks := outBlocks + [fragments[i]];
        index[i] := p;
        j := p + 1;
      }
      assert index[..i + 1] == idx[..i + 1];
    }
    assert index[..k] == index[..] && idx[..k] == idx;
  }

  /** The n buffers of one slot: different ones, of full length, apart from the codec's own arrays, showing the
      block's fragments. */
  ghost predicate SlotBuffers(t: Tables, code: Fec, fs: Packets, flags: seq<bool>, frags: Fragments)
    reads fs
  {
    && |fs| == code.n && Flagged(flags, frags) && |flags| == |fs|
    && AllDistinct(fs)
    && (forall f :: 0 <= f < |fs| ==> fs[f].Length == MAX_FEC_PAYLOAD && fs[f] !in t.Repr() && fs[f] != code.encMatrix)
    && (forall f :: 0 <= f < |fs| && frags[f].Some? ==> frags[f].value == fs[f][..])
  }

  ghost predicate CodecReady(t: Tables, code: Fec)
    reads t.Repr(), code.encMatrix
  {
    t.Ready() && code.Valid() && code.k <= 255
  }

  lemma CodecSizes(t: Tables, code: Fec)
    requires CodecReady(t, code)
    ensures 1 <= code.k <= code.n <= 256 && code.k <= 255
  {
  }

  /** The buffers chosen meet what fec_decode asks for: no output is an input or another output. */
  lemma InputsReady(t: Tables, code: Fec, fs: Packets, flags: seq<bool>, frags: Fragments, index: array<nat>,
                    inBlocks: Packets, outBlocks: Packets)
    requires CodecReady(t, code) && SlotBuffers(t, code, fs, flags, frags) && 1 <= code.k <= code.n
             && Has(frags) == code.k
    requires index.Length == code.k && index[..] == FecIndex(frags, code.k)
    requires InRange(index[..], code.n) && InRange(Missing(index[..], code.k), code.n)
    requires inBlocks == Gather(fs, index[..]) && outBlocks == Gather(fs, Missing(index[..], code.k))
    requires forall f :: 0 <= f < |fs| ==> (fs[f] as object) != index
    ensures DecodeReady(t, code, inBlocks, outBlocks, index, MAX_FEC_PAYLOAD)
    ensures Contents(inBlocks) == DecodeInputs(frags, code.k)
  {
    hide EncodingMatrix, Missing, FecIndex, Has, t.Ready, code.Valid;
    var idx := index[..];
    var rows := Missing(idx, code.k);
    FecIndexValid(frags, code.k);
    MissingRows(idx, code.k);
    forall o, q | 0 <= o < |outBlocks| && 0 <= q < |inBlocks|
      ensures outBlocks[o] != inBlocks[q]
    {
      assert frags[rows[o]].None? && frags[idx[q]].Some?;
    }
    forall a, b | 0 <= a < b < |outBlocks|
      ensures outBlocks[a] != outBlocks[b]
    {
      assert rows[a] < rows[b];
    }
  }

  /** What the buffers hold after decoding. */
  lemma DecodedContents(frags: Fragments, k: nat, idx: seq<nat>, was: Mat, now: Mat)
    requires 1 <= k <= |frags| && Has(frags) == k && Sized(frags, MAX_FEC_PAYLOAD) && idx == FecIndex(frags, k)
    requires |was| == |now| == |frags| && forall f :: 0 <= f < |was| ==> |was[f]| == MAX_FEC_PAYLOAD
    requires forall f :: 0 <= f < |was| && frags[f].Some? ==> frags[f].value == was[f] == now[f]
    requires AtLeast(DecodeInputs(frags, k), MAX_FEC_PAYLOAD)
    requires forall f :: 0 <= f < k && frags[f].None? ==>
               now[f] == RecoveredRange(DecodeInputs(frags, k), idx, f, was[f], MAX_FEC_PAYLOAD)
    ensures forall f :: 0 <= f < k ==> now[f] == CompletedPacket(frags, k, MAX_FEC_PAYLOAD, f)
  {
    hide FecIndex, Has, DecodeInputs, Recovered;
    forall f | 0 <= f < k
      ensures now[f] == CompletedPacket(frags, k, MAX_FEC_PAYLOAD, f)
    {
      if frags[f].None? {
        assert now[f] == RecoveredRange(DecodeInputs(frags, k), idx, f, Zeros(MAX_FEC_PAYLOAD), MAX_FEC_PAYLOAD);
      }
    }
  }

  method Rebuild(t: Tables, code: Fec, fs: Packets, flags: seq<bool>, ghost frags: Fragments, index: array<nat>,
                 inBlocks: Packets, outBlocks: Packets)
    requires CodecReady(t, code) && SlotBuffers(t, code, fs, flags, frags)
    requires 1 <= code.k <= code.n && Has(frags) == code.k && Sized(frags, MAX_FEC_PAYLOAD)
    requires index.Length == code.k && index[..] == FecIndex(frags, code.k)
    requires InRange(index[..], code.n) && InRange(Missing(index[..], code.k), code.n)
    requires inBlocks == Gather(fs, index[..]) && outBlocks == Gather(fs, Missing(index[..], code.k))
    requires forall f :: 0 <= f < |fs| ==> (fs[f] as object) != index
    modifies fs
    ensures CodecReady(t, code) && SlotBuffers(t, code, fs, flags, frags)
    ensures 1 <= code.k <= |fs|
    ensures forall f :: 0 <= f < code.k ==> fs[f][..] == CompletedPacket(frags, code.k, MAX_FEC_PAYLOAD, f)
  {
    hide Has, FecIndex, Missing, DecodeReady, RecoveredRange, OnPolynomials, CompletedPacket, DecodeInputs, t.Ready,
         code.Valid;
    ghost var idx := index[..];
    ghost var was := Contents(fs);
    ghost var rows := Missing(idx, code.k);
    InputsReady(t, code, fs, flags, frags, index, inBlocks, outBlocks);
    FecIndexValid(frags, code.k);
    DecodeInputsSized(frags, code.k, MAX_FEC_PAYLOAD);
    MissingRows(idx, code.k);
    FecDecode(t, code, inBlocks, outBlocks, index, MAX_FEC_PAYLOAD);
    forall f | 0 <= f < |fs| && frags[f].Some?
      ensures fs[f][..] == was[f]
    {
      assert fs[f] !in outBlocks;
    }
    forall f | 0 <= f < code.k && frags[f].None?
      ensures fs[f][..] == RecoveredRange(DecodeInputs(frags, code.k), idx, f, was[f], MAX_FEC_PAYLOAD)
    {
      assert f in rows;
      var o :| 0 <= o < |rows| && rows[o] == f;
      assert outBlocks[o] == fs[f];
    }
    DecodedContents(frags, code.k, idx, was, Contents(fs));
  }

  /** Rebuilds the missing primary packets of one slot in their own buffers. */
  method RebuildPackets(t: Tables, code: Fec, fs: Packets, flags: seq<bool>, ghost frags: Fragments)
    requires CodecReady(t, code) && SlotBuffers(t, code, fs, flags, frags)
    requires Has(frags) == code.k && Sized(frags, MAX_FEC_PAYLOAD)
    modifies fs
    ensures CodecReady(t, code) && SlotBuffers(t, code, fs, flags, frags)
    ensures 1 <= code.k <= |fs|
    ensures forall f :: 0 <= f < code.k ==> fs[f][..] == CompletedPacket(frags, code.k, MAX_FEC_PAYLOAD, f)
  {
    hide Has, FecIndex, Missing, DecodeReady, RecoveredRange, CompletedPacket, t.Ready, code.Valid;
    CodecSizes(t, code);
    var index := new nat[code.k];
    assert index !in t.Repr() && (index as object) != code.encMatrix;
    assert CodecReady(t, code);
    var inBlocks, outBlocks := ChooseInputs(fs, flags, code.k, index, frags);
    assert CodecReady(t, code);
    Rebuild(t, code, fs, flags, frags, index, inBlocks, outBlocks);
  }

  lemma PayloadsSnoc(out: seq<Emission>, e: Emission)
    requires |e.bytes| == MAX_FEC_PAYLOAD
    ensures Payloads(out + [e]) == Payloads(out) + PayloadOf(e.bytes)
  {
    assert (out + [e])[..|out|] == out;
  }

  /** A fragment as it lies in its buffer: zeros up to the full length. */
  function Padded(bytes: seq<gf>): (v: Vec)
    requires |bytes| <= MAX_FEC_PAYLOAD
    ensures |v| == 1448 && v[..|bytes|] == bytes && forall j :: |bytes| <= j < 1448 ==> v[j] == 0
  {
    bytes + seq(MAX_FEC_PAYLOAD - |bytes|, _ => 0)
  }

  method FillBuffer(buf: array<gf>, bytes: seq<gf>)
    requires buf.Length == MAX_FEC_PAYLOAD && |bytes| <= MAX_FEC_PAYLOAD
    modifies buf
    ensures buf[..] == Padded(bytes)
  {
    for q := 0 to MAX_FEC_PAYLOAD
      invariant forall p :: 0 <= p < q ==> buf[p] == 0
    {
      buf[q] := 0;
    }
    for q := 0 to |bytes|
      invariant forall p :: 0 <= p < MAX_FEC_PAYLOAD ==> buf[p] == if p < q then bytes[p] else 0
    {
      buf[q] := bytes[q];
    }
  }

  class Aggregator {
    const tables: Tables
    const ring: array<Item>
    const channelId: nat
    var epoch: nat
    var sessionKey: seq<gf>
    var fecP: Fec?
    var fecK: int
    var fecN: int
    var seqno: nat
    var front: nat
    var alloc: nat
    var lastKnown: nat
    var lost: nat
    var delivered: seq<seq<gf>>
    /** Everything sent since the session began, where the counter stood then, and what had been delivered. */
    ghost var sent: seq<Emission>
    ghost var lostBefore: nat
    ghost var deliveredBefore: seq<seq<gf>>
    /** The fragments of this session that were taken in, padded, in order of arrival. */
    ghost var history: seq<Packet>
    /** Which slot and fragment each buffer belongs to. */
    ghost var owner: map<array<gf>, (nat, nat)>
    /** The blocks of all slots, live or not. */
    ghost var view: seq<Block>

    constructor (tables: Tables, epoch: nat, channelId: nat)
      requires tables.Shape() && (tables.initialized ==> tables.Ready())
      ensures Ok() && fecP == null && this.tables == tables && fresh(ring)
      ensures this.epoch == epoch && this.channelId == channelId && sessionKey == seq(32, _ => 0)
      ensures front == 0 && alloc == 0 && lastKnown == NO_BLOCK && seqno == 0 && lost == 0
    {
      this.tables, this.epoch, this.channelId := tables, epoch, channelId;
      sessionKey := seq(32, _ => 0);
      ring := new Item[RX_RING_SIZE](_ => Item(0, [], [], 0, 0));
      fecP, fecK, fecN := null, -1, -1;
      seqno, front, alloc, lastKnown, lost, delivered := 0, 0, 0, NO_BLOCK, 0, [];
      sent, lostBefore, deliveredBefore, history, owner, view := [], 0, [], [], map[], [];
    }

    ghost function Cfg(): (c: Config)
      requires fecK >= 0 && fecN >= 0
      reads this`fecK, this`fecN
    {
      Config(RX_RING_SIZE, fecK, fecN, MAX_FEC_PAYLOAD)
    }

    /** Slot i has its own buffers, one per fragment, counts its set flags, and shows its block. */
    ghost predicate SlotShape(i: nat)
      requires i < ring.Length
      reads this`owner, this`fecN, this`view, ring, ring[i].fragments
    {
      var it := ring[i];
      && |it.fragments| == |it.flags| == fecN
      && (forall f :: 0 <= f < |it.fragments| ==>
            && it.fragments[f] in owner && owner[it.fragments[f]] == (i, f)
            && it.fragments[f].Length == MAX_FEC_PAYLOAD)
      && i < |view| && view[i] == BlockOf(it)
      && it.has == Has(view[i].frags)
    }

    ghost predicate Buffers()
      reads this`owner, this`fecP, this`fecN, this`view, ring, owner.Keys, tables.Repr()
    {
      && ring.Length == |view| == RX_RING_SIZE
      && (forall b :: b in owner.Keys ==> b !in tables.Repr() && (fecP != null ==> b != fecP.encMatrix))
      && (forall i, f :: 0 <= i < RX_RING_SIZE && 0 <= f < |ring[i].fragments| ==> ring[i].fragments[f] in owner)
      && (forall i :: 0 <= i < RX_RING_SIZE ==> SlotShape(i))
    }

    /** The counter and the deliveries follow from what was sent. */
    ghost predicate LogKept()
      reads this`fecK, this`seqno, this`lost, this`delivered, this`sent, this`lostBefore, this`deliveredBefore
    {
      && fecK >= 0 && lost < U32 && lostBefore < U32
      && Meter(seqno, lost) == AdvanceAll(fecK, Meter(0, lostBefore), sent)
      && delivered == deliveredBefore + Payloads(sent)
    }

    /** The window this ring stands for. */
    ghost function Abs(): (w: Window)
      requires RingShape(view, front, alloc)
      reads this`view, this`front, this`alloc, this`lastKnown
    {
      Window(Live(view, front, alloc), if lastKnown == NO_BLOCK then None else Some(lastKnown))
    }

    /** Between packets. */
    ghost predicate Valid()
      reads this`fecP, this`fecK, this`fecN, this`front, this`alloc, this`lastKnown, this`seqno, this`lost,
            this`delivered,
            this`sent, this`lostBefore, this`deliveredBefore, this`owner, this`view, ring, owner.Keys, tables.Repr(),
                if fecP == null then {} else {fecP.encMatrix}
    {
      && HasCodec() && Buffers() && LogKept()
      && RingShape(view, front, alloc) && (lastKnown == NO_BLOCK || lastKnown <= MAX_BLOCK_IDX)
      && ReceiveWindow.Valid(Cfg(), Abs())
    }

    /** The codec of the running session. */
    ghost predicate HasCodec()
      reads this`fecP, this`fecK, this`fecN, tables.Repr(), if fecP == null then {} else {fecP.encMatrix}
    {
      && fecP != null && fecP.Valid() && tables.Ready()
      && fecK == fecP.k && fecN == fecP.n && 1 <= fecK <= fecN <= 255
      && fecP.encMatrix !in tables.Repr()
    }

    lemma SlotFacts(i: nat)
      requires Buffers() && i < RX_RING_SIZE
      ensures ring.Length == |view| == RX_RING_SIZE && SlotShape(i)
      ensures |ring[i].fragments| == |ring[i].flags| == |view[i].frags| == fecN
      ensures forall f :: 0 <= f < fecN ==>
                ring[i].fragments[f].Length == MAX_FEC_PAYLOAD && ring[i].fragments[f] in owner
      ensures forall f :: 0 <= f < fecN ==> (ring[i].flags[f] <==> view[i].frags[f].Some?)
      ensures forall f :: 0 <= f < fecN && ring[i].flags[f] ==> view[i].frags[f].value == ring[i].fragments[f][..]
      ensures view[i].idx == ring[i].blockIdx && view[i].next == ring[i].toSend && ring[i].has == Has(view[i].frags)
    {
    }

    /** Copies a decrypted fragment into its buffer, zero-padded, and flags it. */
    method StoreFragment(r: nat, f: nat, bytes: seq<gf>)
      requires Buffers() && r < RX_RING_SIZE && f < |view[r].frags| && view[r].frags[f].None?
               && |bytes| <= MAX_FEC_PAYLOAD
      modifies ring, owner.Keys, this`view
      ensures Buffers()
      ensures view == old(view)[r := old(view)[r].(frags := old(view)[r].frags[f := Some(Padded(bytes))])]
    {
      SlotFacts(r);
      var buf := ring[r].fragments[f];
      FillBuffer(buf, bytes);
      ghost var was := view[r].frags;
      ring[r] := ring[r].(flags := ring[r].flags[f := true], has := ring[r].has + 1);
      view := view[r := view[r].(frags := was[f := Some(Padded(bytes))])];
      CountSet(was, f, Padded(bytes), 0, |was|);
      forall i | 0 <= i < RX_RING_SIZE
        ensures SlotShape(i)
      {
        assert old(SlotShape(i));
        if i == r {
          assert forall g :: 0 <= g < fecN && g != f ==> ring[r].fragments[g] != buf;
          assert view[r] == BlockOf(ring[r]);
        } else {
          assert forall g :: 0 <= g < |ring[i].fragments| ==> ring[i].fragments[g] != buf;
          assert BlockOf(ring[i]) == old(BlockOf(ring[i]));
        }
      }
    }

    method SetNext(r: nat, next: nat)
      requires Buffers() && r < RX_RING_SIZE
      modifies ring, this`view
      ensures Buffers() && view == old(view)[r := old(view)[r].(next := next)]
      ensures forall i :: 0 <= i < RX_RING_SIZE ==> ring[i].fragments == old(ring[i].fragments)
    {
      SlotFacts(r);
      ring[r] := ring[r].(toSend := next);
      view := view[r := view[r].(next := next)];
      forall i | 0 <= i < RX_RING_SIZE
        ensures SlotShape(i)
      {
        assert old(SlotShape(i));
        assert view[i] == BlockOf(ring[i]);
      }
    }

    /** Takes over a slot for a new block: nothing arrived, nothing sent. */
    method ResetSlot(r: nat, block: nat)
      requires Buffers() && r < RX_RING_SIZE && fecK >= 0 && fecN >= 0
      modifies ring, this`view
      ensures Buffers() && view == old(view)[r := FreshBlock(Cfg(), block)]
    {
      SlotFacts(r);
      ring[r] := ring[r].(blockIdx := block, toSend := 0, has := 0, flags := seq(fecN, _ => false));
      view := view[r := FreshBlock(Cfg(), block)];
      CountNone(view[r].frags, 0, fecN);
      forall i | 0 <= i < RX_RING_SIZE
        ensures SlotShape(i)
      {
        assert old(SlotShape(i));
        assert view[i] == BlockOf(ring[i]);
      }
    }

    ghost function EmissionOf(r: nat, f: nat): (e: Emission)
      requires r < ring.Length && f < |ring[r].fragments|
      reads ring, ring[r].fragments
    {
      Emission(ring[r].blockIdx, f, ring[r].fragments[f][..])
    }

    method CountGap(block: nat, frag: nat)
      requires fecK >= 0
      modifies this`seqno, this`lost
      ensures Meter(seqno, lost) == Advance(fecK, old(Meter(seqno, lost)), block, frag)
      ensures seqno == (block * fecK + frag) % 0x1_0000_0000
    {
      var packetSeq := Number(fecK, block, frag) % U32;
      hide Number;
      if packetSeq > (seqno + 1) % U32 && seqno > 0 {
        lost := (lost + (packetSeq - seqno - 1)) % U32;
      }
      seqno := packetSeq;
    }

    /** Counts the gap before a packet and hands its payload on. */
    method Emit(block: nat, frag: nat, bytes: seq<gf>)
      requires LogKept() && |bytes| == MAX_FEC_PAYLOAD
      modifies this`seqno, this`lost, this`delivered, this`sent
      ensures LogKept() && sent == old(sent) + [Emission(block, frag, bytes)]
    {
      hide Advance, AdvanceAll, PayloadOf, Payloads;
      ghost var e := Emission(block, frag, bytes);
      AdvanceSnoc(fecK, Meter(0, lostBefore), sent, e);
      PayloadsSnoc(sent, e);
      CountGap(block, frag);
      delivered := delivered + PayloadOf(bytes);
      sent := sent + [e];
    }

    method SendPacket(r: nat, f: nat)
      requires Buffers() && LogKept() && r < RX_RING_SIZE && f < fecN
      modifies this`seqno, this`lost, this`delivered, this`sent
      ensures Buffers() && LogKept()
      ensures f < |ring[r].fragments| && sent == old(sent) + [EmissionOf(r, f)]
    {
      hide LogKept;
      SlotFacts(r);
      Emit(ring[r].blockIdx, f, ring[r].fragments[f][..]);
    }

    /** Enough fragments of slot r have arrived to decode it. */
    ghost predicate Decodable(r: nat)
      reads this`view, this`fecK, this`fecN
    {
      && r < |view| && 1 <= fecK <= fecN == |view[r].frags| && Has(view[r].frags) == fecK
      && Sized(view[r].frags, MAX_FEC_PAYLOAD)
    }

    /** Rebuilds the missing primary packets of slot r in their own buffers. */
    method ApplyFec(r: nat)
      requires HasCodec() && Buffers() && r < RX_RING_SIZE && Decodable(r)
      modifies owner.Keys
      ensures HasCodec() && Buffers() && Decodable(r)
      ensures |ring[r].fragments| == fecN
      ensures forall f :: 0 <= f < fecK ==>
                ring[r].fragments[f][..] == CompletedPacket(view[r].frags, fecK, MAX_FEC_PAYLOAD, f)
    {
      hide Has, EncodingMatrix, CompletedPacket;
      SlotFacts(r);
      assert SlotBuffers(tables, fecP, ring[r].fragments, ring[r].flags, view[r].frags);
      RebuildPackets(tables, fecP, ring[r].fragments, ring[r].flags, view[r].frags);
      forall i | 0 <= i < RX_RING_SIZE
        ensures SlotShape(i)
      {
        assert old(SlotShape(i));
        if i != r {
          assert forall g :: 0 <= g < |ring[i].fragments| ==> ring[i].fragments[g] !in ring[r].fragments;
          assert BlockOf(ring[i]) == old(BlockOf(ring[i]));
        } else {
          assert BlockOf(ring[r]) == view[r];
        }
      }
    }

    /** Sends what has arrived of a block that is being given up. */
    method FlushBlock(r: nat)
      requires Buffers() && LogKept() && r < RX_RING_SIZE && fecK <= fecN && view[r].next <= fecK <= |view[r].frags|
      modifies this`seqno, this`lost, this`delivered, this`sent
      ensures Buffers() && LogKept()
      ensures sent == old(sent) + Flush(view[r], fecK)
    {
      hide SlotShape, LogKept;
      SlotFacts(r);
      ghost var b := view[r];
      for f := ring[r].toSend to fecK
        invariant Buffers() && LogKept() && view[r] == b
        invariant b.next <= f && sent == old(sent) + FlushRange(b, b.next, f)
      {
        FlushRangeSnoc(b, b.next, f);
        if ring[r].flags[f] {
          SendPacket(r, f);
        }
      }
    }

    /** Makes room for one more block, giving up the oldest one if the ring is full. */
    method RxRingPush() returns (idx: nat)
      requires Buffers() && LogKept() && RingShape(view, front, alloc) && fecK <= fecN
      requires alloc == RX_RING_SIZE ==> view[front].next <= fecK <= |view[front].frags|
      modifies this`front, this`alloc, this`seqno, this`lost, this`delivered, this`sent
      ensures Buffers() && LogKept() && idx < RX_RING_SIZE && RingShape(view, front, alloc)
      ensures old(alloc) < RX_RING_SIZE ==>
                idx == SlotOf(old(front), old(alloc)) && alloc == old(alloc) + 1 && front == old(front)
                    && sent == old(sent)
      ensures old(alloc) == RX_RING_SIZE ==>
                && idx == old(front) && alloc == RX_RING_SIZE && front == SlotOf(old(front), 1)
                && sent == old(sent) + Flush(view[old(front)], fecK)
    {
      hide SlotShape, LogKept;
      if alloc < RX_RING_SIZE {
        ModNWraps(front + alloc);
        idx := ModN(front + alloc, RX_RING_SIZE);
        alloc := alloc + 1;
        return;
      }
      FlushBlock(front);
      idx := front;
      ModNWraps(front + 1);
      front := ModN(front + 1, RX_RING_SIZE);
    }

    /** Looks the block up among the live ones. */
    method FindLive(block: nat) returns (idx: int)
      requires ring.Length == |view| == RX_RING_SIZE && RingShape(view, front, alloc)
      requires forall i :: 0 <= i < RX_RING_SIZE ==> view[i].idx == ring[i].blockIdx
      ensures match Find(Live(view, front, alloc), block)
              case Some(pos) => pos < alloc && idx == SlotOf(front, pos)
              case None => idx == -1
    {
      ghost var bs := Live(view, front, alloc);
      var i, c := front, alloc;
      while c > 0
        invariant 0 <= c <= alloc && i < RX_RING_SIZE && (c > 0 ==> i == SlotOf(front, alloc - c))
        invariant forall j :: 0 <= j < alloc - c ==> bs[j].idx != block
      {
        if ring[i].blockIdx == block {
          FindIs(bs, block, alloc - c);
          return i;
        }
        assert bs[alloc - c] == view[i];
        ModNWraps(i + 1);
        i := ModN(i + 1, RX_RING_SIZE);
        c := c - 1;
      }
      return -1;
    }

    lemma LiveSizes()
      requires Buffers() && RingShape(view, front, alloc)
      ensures forall j :: 0 <= j < alloc ==> |Live(view, front, alloc)[j].frags| == fecN
    {
      forall j | 0 <= j < alloc
        ensures |Live(view, front, alloc)[j].frags| == fecN
      {
        SlotFacts(SlotOf(front, j));
      }
    }

    /** Pushes one fresh block. */
    method PushFresh(block: nat) returns (idx: nat)
      requires Buffers() && LogKept() && RingShape(view, front, alloc) && 1 <= fecK <= fecN
      requires alloc > 0 ==> Live(view, front, alloc)[0].next <= fecK
      modifies this`front, this`alloc, this`seqno, this`lost, this`delivered, this`sent, this`view, ring
      ensures Buffers() && LogKept() && RingShape(view, front, alloc) && alloc > 0 && idx == SlotOf(front, alloc - 1)
      ensures old(alloc) < RX_RING_SIZE ==>
                Live(view, front, alloc) == old(Live(view, front, alloc)) + [FreshBlock(Cfg(), block)]
                    && sent == old(sent)
      ensures old(alloc) == RX_RING_SIZE ==>
                && |old(Live(view, front, alloc))[0].frags| == fecN
                && Live(view, front, alloc) == old(Live(view, front, alloc))[1..] + [FreshBlock(Cfg(), block)]
                && sent == old(sent) + Flush(old(Live(view, front, alloc))[0], fecK)
    {
      hide SlotShape, LogKept, FreshBlock;
      LiveSizes();
      ghost var v, f, a := view, front, alloc;
      if alloc == RX_RING_SIZE {
        assert Live(v, f, a)[0] == view[front];
        PushOverrides(v, f, FreshBlock(Cfg(), block));
      } else {
        PushAppends(v, f, a, FreshBlock(Cfg(), block));
      }
      idx := RxRingPush();
      ResetSlot(idx, block);
    }

    /** Brings in `count` blocks up to `block`, in ascending order. */
    method PushBlocks(block: nat, count: nat) returns (idx: nat)
      requires Buffers() && LogKept() && RingShape(view, front, alloc) && 1 <= fecK <= fecN
      requires 1 <= count <= RX_RING_SIZE && count <= block + 1
      requires forall j :: 0 <= j < alloc ==> Live(view, front, alloc)[j].next <= fecK
      modifies this`front, this`alloc, this`seqno, this`lost, this`delivered, this`sent, this`view, ring
      ensures Buffers() && LogKept() && RingShape(view, front, alloc) && alloc > 0
      ensures idx == SlotOf(front, alloc - 1)
      ensures Pushed(Cfg(), old(Live(view, front, alloc)), block + 1 - count, count, old(sent),
                     Live(view, front, alloc), sent)
    {
      hide Buffers, LogKept, Live, FreshBlock, Pushed;
      ghost var bs, before := Live(view, front, alloc), sent;
      ghost var c := Cfg();
      ghost var first := block + 1 - count;
      LiveSizes();
      PushedNone(c, bs, first, sent);
      idx := 0;
      for i := 0 to count
        invariant Buffers() && LogKept() && RingShape(view, front, alloc)
        invariant i > 0 ==> alloc > 0 && idx == SlotOf(front, alloc - 1)
        invariant Pushed(c, bs, first, i, before, Live(view, front, alloc), sent)
      {
        PushedNext(c, bs, first, i, before, Live(view, front, alloc), sent);
        idx := PushFresh(block + i + 1 - count);
      }
    }

    lemma WindowFacts()
      requires Valid()
      ensures Buffers() && LogKept() && RingShape(view, front, alloc) && HasCodec() && 1 <= fecK <= fecN <= 255
      ensures ReceiveWindow.Valid(Cfg(), Abs()) && Cfg().Sane() && (lastKnown == NO_BLOCK || lastKnown <= MAX_BLOCK_IDX)
      ensures forall j :: 0 <= j < alloc ==>
                Live(view, front, alloc)[j].next < fecK && |Live(view, front, alloc)[j].frags| == fecN
      ensures forall i :: 0 <= i < RX_RING_SIZE ==> view[i].idx == ring[i].blockIdx
      ensures ring.Length == |view| == RX_RING_SIZE
    {
      hide BlockAtRest, EncodingMatrix;
      ValidSizes(Cfg(), Abs());
      forall i | 0 <= i < RX_RING_SIZE
        ensures view[i].idx == ring[i].blockIdx
      {
        SlotFacts(i);
      }
    }

    lemma AdmitCount(block: nat)
      requires Valid() && (lastKnown == NO_BLOCK || block > lastKnown)
      ensures |Admit(Cfg(), Abs(), block).blocks|
           == if lastKnown == NO_BLOCK then 1
              else if alloc + block - lastKnown < 40 then alloc + block - lastKnown else 40
    {
      hide SlotShape, LogKept, ReceiveWindow.Valid, EncodingMatrix, Admit, Buffers;
      AdmitExact(Cfg(), Abs(), block);
    }

    /** A live block is not newer than the last known one. */
    lemma NotNewer(block: nat)
      requires Valid() && Find(Live(view, front, alloc), block).Some?
      ensures lastKnown != NO_BLOCK && block <= lastKnown
    {
      hide SlotShape, LogKept, EncodingMatrix, Buffers, BlockAtRest, Live;
    }

    lemma NothingKnown()
      requires Valid()
      ensures lastKnown == NO_BLOCK ==> alloc == 0
      ensures |Live(view, front, alloc)| == alloc
    {
      hide SlotShape, LogKept, EncodingMatrix, Buffers, BlockAtRest;
    }

    /** Brings in the blocks up to one newer than all known. */
    method AdmitBlock(block: nat) returns (idx: nat)
      requires Valid() && block <= MAX_BLOCK_IDX && (lastKnown == NO_BLOCK || block > lastKnown)
      modifies this`front, this`alloc, this`lastKnown, this`seqno, this`lost, this`delivered, this`sent, this`view, ring
      ensures Valid() && Abs() == Admit(Cfg(), old(Abs()), block) && alloc > 0 && idx == SlotOf(front, alloc - 1)
      ensures RoomMade(Cfg(), old(Abs()), block, old(sent), sent) && lastKnown == block
      ensures alloc == if old(lastKnown) == NO_BLOCK then 1
                       else if old(alloc) + block - old(lastKnown) < 40 then old(alloc) + block - old(lastKnown) else 40
    {
      hide SlotShape, LogKept, ReceiveWindow.Valid, Live, Pushed, EncodingMatrix;
      WindowFacts();
      AdmitCount(block);
      ghost var w, before, c := Abs(), sent, Cfg();
      var gap := if lastKnown != NO_BLOCK then block - lastKnown else 1;
      var newBlocks := if gap < RX_RING_SIZE then gap else RX_RING_SIZE;
      assert newBlocks > 0;
      assert newBlocks == NewBlocks(c, w, block);
      lastKnown := block;
      idx := PushBlocks(block, newBlocks);
      PushedAdmits(c, w, block, before, Live(view, front, alloc), sent);
      AdmitValid(c, w, block);
    }

    /** The slot of a block: the one it has, or a new one if it is newer than all known, or none. */
    method GetBlockRingIdx(block: nat) returns (idx: int)
      requires Valid() && block <= MAX_BLOCK_IDX
      modifies this`front, this`alloc, this`lastKnown, this`seqno, this`lost, this`delivered, this`sent, this`view, ring
      ensures Valid()
      ensures old(Abs().last.Some? ==> block > Abs().last.value) || Abs() == old(Abs())
      ensures match Find(old(Abs()).blocks, block)
              case Some(pos) => Abs() == old(Abs()) && sent == old(sent) && pos < alloc && idx == SlotOf(front, pos)
              case None =>
                if old(Abs()).last.Some? && block <= old(Abs()).last.value
                then Abs() == old(Abs()) && sent == old(sent) && idx == -1
                else && Abs() == Admit(Cfg(), old(Abs()), block) && alloc > 0 && idx == SlotOf(front, alloc - 1)
                     && RoomMade(Cfg(), old(Abs()), block, old(sent), sent)
      ensures old(lastKnown) == NO_BLOCK ==> lastKnown == block && alloc == 1
      ensures old(lastKnown) != NO_BLOCK && block > old(lastKnown) ==>
                && lastKnown == block
                && alloc == if old(alloc) + block - old(lastKnown) < 40 then old(alloc) + block - old(lastKnown) else 40
      ensures old(lastKnown) != NO_BLOCK && block <= old(lastKnown) ==>
                lastKnown == old(lastKnown) && alloc == old(alloc)
    {
      hide SlotShape, LogKept, ReceiveWindow.Valid, Live, EncodingMatrix, Admit, RoomMade;
      NothingKnown();
      WindowFacts();
      idx := FindLive(block);
      if idx >= 0 {
        NotNewer(block);
        return;
      }
      if lastKnown != NO_BLOCK && block <= lastKnown {
        return -1;
      }
      idx := AdmitBlock(block);
    }

    method AdvanceFront()
      requires RingShape(view, front, alloc) && alloc > 0
      modifies this`front, this`alloc
      ensures RingShape(view, front, alloc) && alloc == old(alloc) - 1 && front == SlotOf(old(front), 1)
      ensures Live(view, front, alloc) == old(Live(view, front, alloc))[1..]
    {
      PopDrops(view, front, alloc);
      ModNWraps(front + 1);
      front := ModN(front + 1, RX_RING_SIZE);
      alloc := alloc - 1;
    }

    /** Sends the next fragment of a block from its buffer. */
    method SendNext(r: nat)
      requires Buffers() && LogKept() && r < RX_RING_SIZE && view[r].next < fecN
      modifies this`seqno, this`lost, this`delivered, this`sent, this`view, ring
      ensures Buffers() && LogKept()
      ensures view == old(view)[r := old(view)[r].(next := old(view)[r].next + 1)]
      ensures old(view)[r].next < |ring[r].fragments| && ring[r].fragments == old(ring[r].fragments)
      ensures sent == old(sent)
                      + [Emission(old(view)[r].idx, old(view)[r].next, ring[r].fragments[old(view)[r].next][..])]
    {
      hide SlotShape, LogKept;
      SlotFacts(r);
      ghost var fs := ring[r].fragments;
      var f := ring[r].toSend;
      SendPacket(r, f);
      SetNext(r, f + 1);
    }

    /** Sends on from the next fragment while there is no gap. */
    method SendRun(r: nat)
      requires Buffers() && LogKept() && r < RX_RING_SIZE && view[r].next <= fecK <= fecN == |view[r].frags|
      modifies this`seqno, this`lost, this`delivered, this`sent, this`view, ring
      ensures Buffers() && LogKept()
      ensures RunSent(fecK, old(view), r, old(view)[r], view, old(sent), sent)
      ensures view[r].next == RunEnd(old(view)[r].frags, old(view)[r].next, fecK)
    {
      hide SlotShape, LogKept, RunSent, RunEnd;
      ghost var b, v, before := view[r], view, sent;
      SlotFacts(r);
      RunSentNone(fecK, v, r, b, before);
      while ring[r].toSend < fecK && ring[r].flags[ring[r].toSend]
        invariant Buffers() && LogKept() && ring[r].toSend <= fecK && |ring[r].flags| == fecN
        invariant RunSent(fecK, v, r, b, view, before, sent) && b.next <= view[r].next == ring[r].toSend <= fecK
        invariant view[r].frags == b.frags && view[r].idx == b.idx
        invariant forall f :: 0 <= f < fecN ==> (ring[r].flags[f] <==> b.frags[f].Some?)
        invariant RunEnd(b.frags, ring[r].toSend, fecK) == RunEnd(b.frags, b.next, fecK)
        decreases fecK - ring[r].toSend
      {
        SlotFacts(r);
        RunSentNext(fecK, v, r, b, view, before, sent);
        RunEndNext(b.frags, ring[r].toSend, fecK);
        SendNext(r);
        SlotFacts(r);
      }
      RunEndNext(b.frags, ring[r].toSend, fecK);
    }

    method FlushFront()
      requires Buffers() && LogKept() && RingShape(view, front, alloc) && alloc > 0 && fecK <= fecN
      requires view[front].next <= fecK <= |view[front].frags|
      modifies this`front, this`alloc, this`seqno, this`lost, this`delivered, this`sent
      ensures Buffers() && LogKept() && RingShape(view, front, alloc)
      ensures alloc == old(alloc) - 1 && front == SlotOf(old(front), 1)
      ensures Live(view, front, alloc) == old(Live(view, front, alloc))[1..]
      ensures sent == old(sent) + Flush(view[old(front)], fecK)
    {
      hide SlotShape, LogKept, Live;
      FlushBlock(front);
      AdvanceFront();
    }

    /** Gives up the blocks before the nrm-th live one. */
    method FlushOlder(nrm: nat)
      requires Buffers() && LogKept() && RingShape(view, front, alloc) && nrm < alloc && 0 <= fecK <= fecN
      requires forall j :: 0 <= j < alloc ==>
                 Live(view, front, alloc)[j].next <= fecK <= |Live(view, front, alloc)[j].frags|
      modifies this`front, this`alloc, this`seqno, this`lost, this`delivered, this`sent
      ensures Buffers() && LogKept() && RingShape(view, front, alloc)
      ensures alloc == old(alloc) - nrm && front == SlotOf(old(front), nrm)
      ensures Live(view, front, alloc) == old(Live(view, front, alloc))[nrm..]
      ensures OlderFlushed(fecK, old(Live(view, front, alloc)), nrm, old(sent), sent)
    {
      hide Buffers, LogKept, Live, OlderFlushed, SlotOf, Flush;
      ghost var bs, before, f0 := Live(view, front, alloc), sent, front;
      var left := nrm;
      OlderFlushedNone(fecK, bs, before);
      SlotSame(f0);
      while left > 0
        invariant Buffers() && LogKept() && RingShape(view, front, alloc) && 0 <= left <= nrm
        invariant alloc == |bs| - (nrm - left) && front == SlotOf(f0, nrm - left)
        invariant Live(view, front, alloc) == bs[nrm - left..]
        invariant OlderFlushed(fecK, bs, nrm - left, before, sent)
      {
        FrontOf(view, front, alloc, bs, nrm - left);
        SlotNext(f0, nrm - left);
        OlderFlushedNext(fecK, bs, nrm - left, before, sent);
        FlushFront();
        left := left - 1;
      }
    }

    /** The buffers of slot r hold the primary packets from the next one on. */
    ghost predicate BuffersComplete(r: nat)
      reads this`view, this`fecK, this`fecN, ring, if r < ring.Length then ring[r].fragments else []
    {
      && Decodable(r) && r < ring.Length && |ring[r].fragments| == fecN && view[r].next <= fecK
      && forall f :: view[r].next <= f < fecK ==>
           ring[r].fragments[f][..] == CompletedPacket(view[r].frags, fecK, MAX_FEC_PAYLOAD, f)
    }

    /** Applies FEC only if a primary packet that is still to be sent is missing. */
    method EnsureComplete(r: nat)
      requires HasCodec() && Buffers() && r < RX_RING_SIZE && Decodable(r) && view[r].next <= fecK
      modifies owner.Keys
      ensures HasCodec() && Buffers() && BuffersComplete(r)
    {
      hide Has, EncodingMatrix, CompletedPacket, SlotShape;
      SlotFacts(r);
      for f := ring[r].toSend to fecK
        invariant forall g :: ring[r].toSend <= g < f ==> ring[r].flags[g]
      {
        if !ring[r].flags[f] {
          ApplyFec(r);
          return;
        }
      }
      forall f | view[r].next <= f < fecK
        ensures ring[r].fragments[f][..] == CompletedPacket(view[r].frags, fecK, MAX_FEC_PAYLOAD, f)
      {
        ArrivedIsCompleted(view[r].frags, fecK, f);
      }
    }

    /** Sends the rest of a complete block. */
    method SendRest(r: nat)
      requires Buffers() && LogKept() && r < RX_RING_SIZE && BuffersComplete(r)
      modifies this`seqno, this`lost, this`delivered, this`sent, this`view, ring
      ensures Buffers() && LogKept()
      ensures |view| == RX_RING_SIZE && view == old(view)[r := view[r]]
      ensures RestSent(old(view)[r], fecK, fecK, old(sent), sent)
    {
      hide Has, CompletedPacket, SlotShape, LogKept, RestSent;
      SlotFacts(r);
      ghost var b, v, before := view[r], view, sent;
      ghost var fs := ring[r].fragments;
      RestSentNone(b, fecK, before);
      assert view == v[r := b.(next := b.next)];
      while ring[r].toSend < fecK
        invariant Buffers() && LogKept() && ring[r].fragments == fs
        invariant view[r].next == ring[r].toSend <= fecK && b.next <= view[r].next
                  && view == v[r := b.(next := view[r].next)]
        invariant forall f :: b.next <= f < fecK ==> fs[f][..] == CompletedPacket(b.frags, fecK, MAX_FEC_PAYLOAD, f)
        invariant RestSent(b, fecK, view[r].next, before, sent)
      {
        RestSentNext(b, fecK, view[r].next, before, sent);
        SendNext(r);
        SlotFacts(r);
      }
    }

    /** Sends the rest of the oldest block, whose buffers are complete, and removes it. */
    method SendAndDrop()
      requires Buffers() && LogKept() && RingShape(view, front, alloc) && alloc > 0 && BuffersComplete(front)
      modifies this`front, this`alloc, this`seqno, this`lost, this`delivered, this`sent, this`view, ring
      ensures Buffers() && LogKept() && RingShape(view, front, alloc) && alloc == old(alloc) - 1
      ensures Live(view, front, alloc) == old(Live(view, front, alloc))[1..]
      ensures RestSent(old(view[front]), fecK, fecK, old(sent), sent)
    {
      hide Has, CompletedPacket, SlotShape, LogKept, RestSent, Live, BuffersComplete, Decodable, SlotOf;
      ghost var v := view;
      SendRest(front);
      DropSet(v, front, alloc, view[front]);
      AdvanceFront();
    }

    /** Finishes the oldest block: rebuilds what is missing, sends the rest, removes it. */
    method CompleteFront()
      requires HasCodec() && Buffers() && LogKept() && RingShape(view, front, alloc) && alloc > 0
      requires Decodable(front) && view[front].next <= fecK
      modifies this`front, this`alloc, this`seqno, this`lost, this`delivered, this`sent, this`view, ring, owner.Keys
      ensures HasCodec() && Buffers() && LogKept() && RingShape(view, front, alloc) && alloc == old(alloc) - 1
      ensures Live(view, front, alloc) == old(Live(view, front, alloc))[1..]
      ensures RestSent(old(view[front]), fecK, fecK, old(sent), sent)
    {
      hide Has, EncodingMatrix, CompletedPacket, SlotShape, LogKept, RestSent, Live, BuffersComplete, Decodable,
           SlotOf;
      EnsureComplete(front);
      SendAndDrop();
    }

    /** A decodable block: gives up the older ones, then finishes it. */
    method FinishBlock(r: nat, ghost pos: nat)
      requires HasCodec() && Buffers() && LogKept() && RingShape(view, front, alloc) && pos < alloc
               && r == SlotOf(front, pos)
      requires Decodable(r) && view[r].next < fecK
      requires forall j :: 0 <= j < alloc ==>
                 Live(view, front, alloc)[j].next < fecK && |Live(view, front, alloc)[j].frags| == fecN
      modifies this`front, this`alloc, this`seqno, this`lost, this`delivered, this`sent, this`view, ring, owner.Keys
      ensures HasCodec() && Buffers() && LogKept() && RingShape(view, front, alloc)
      ensures Live(view, front, alloc) == old(Live(view, front, alloc))[pos + 1..]
      ensures Finished(fecK, old(Live(view, front, alloc)), pos, old(sent), sent)
    {
      hide Has, EncodingMatrix, SlotShape, LogKept, RestSent, OlderFlushed;
      ghost var bs, before := Live(view, front, alloc), sent;
      ModNWraps(r - front);
      var nrm := ModN(r - front, RX_RING_SIZE);
      assert nrm == pos;
      FlushOlder(nrm);
      assert alloc > 0 && r == front;
      assert view[front] == bs[pos];
      ghost var mid := sent;
      CompleteFront();
      assert bs[pos..][1..] == bs[pos + 1..];
      FinishedFrom(fecK, bs, pos, before, mid, sent);
    }

    /** Stores a fragment that has not arrived before; the oldest block then sends on while there is no gap. */
    method StoreAndRun(r: nat, ghost pos: nat, f: nat, bytes: seq<gf>)
      requires Valid() && pos < alloc && r == SlotOf(front, pos)
      requires f < fecN && |bytes| <= MAX_FEC_PAYLOAD && f < |view[r].frags| && view[r].frags[f].None?
      modifies this`seqno, this`lost, this`delivered, this`sent, this`view, ring, owner.Keys
      ensures HasCodec() && Buffers() && LogKept() && RingShape(view, front, alloc)
      ensures Stored(Cfg(), old(Abs()), pos, Packet(old(view[r]).idx, f, Padded(bytes)), Live(view, front, alloc),
                     view[r], old(sent), sent)
    {
      hide Has, EncodingMatrix, SlotShape, LogKept, RunSent, BlockAtRest, ReceiveWindow.Valid, Live, FlushRange, RunEnd,
           Padded;
      WindowFacts();
      ghost var w, before, b := Abs(), sent, view[r];
      ghost var p := Packet(b.idx, f, Padded(bytes));
      ghost var b1 := b.(frags := b.frags[f := Some(p.bytes)]);
      LiveAt(view, front, alloc, pos);
      StoreFragment(r, f, bytes);
      SetLive(old(view), front, alloc, pos, b1);
      ghost var v1 := view;
      if r == front {
        SlotFacts(r);
        SendRun(r);
        RunSentFacts(fecK, v1, r, b1, view, before, sent);
        SetLive(v1, front, alloc, 0, b1.(next := view[r].next));
      }
    }

    /** After the store and the run: removes the oldest block if it is sent to its end, or finishes a decodable one. */
    method SendStored(r: nat, ghost w: Window, ghost pos: nat, ghost p: Packet, ghost before: seq<Emission>)
      requires HasCodec() && Buffers() && LogKept() && RingShape(view, front, alloc) && pos < alloc
               && r == SlotOf(front, pos)
      requires (lastKnown == NO_BLOCK || lastKnown <= MAX_BLOCK_IDX) && w.last == Abs().last
      requires Stored(Cfg(), w, pos, p, Live(view, front, alloc), view[r], before, sent)
      modifies this`front, this`alloc, this`seqno, this`lost, this`delivered, this`sent, this`view, ring, owner.Keys
      ensures Valid()
      ensures StoredAs(Cfg(), w, pos, p, Abs(), before, sent)
    {
      hide Has, EncodingMatrix, SlotShape, LogKept, Stored, Finished, BlockAtRest, StoredAs, ReceiveWindow.Valid, Live;
      ghost var c := Cfg();
      SlotFacts(r);
      ghost var bs, b, mid := Live(view, front, alloc), view[r], sent;
      StoredFacts(c, w, pos, p, bs, b, before, mid);
      if r == front {
        if ring[r].toSend == fecK {
          AdvanceFront();
          StoredFull(c, w, pos, p, bs, b, before, mid);
          StoredAsValid(c, w, pos, p, Abs(), before, sent);
          return;
        }
      }
      if ring[r].toSend < fecK && ring[r].has == fecK {
        FinishBlock(r, pos);
        StoredFinished(c, w, pos, p, bs, b, before, mid, sent);
      } else {
        StoredKept(c, w, pos, p, bs, b, before, mid);
      }
      StoredAsValid(c, w, pos, p, Abs(), before, sent);
    }

    /** Stores a fragment of a live block that has not arrived before, and sends what can be sent. */
    method StoreAndSend(r: nat, ghost pos: nat, f: nat, bytes: seq<gf>)
      requires Valid() && pos < alloc && r == SlotOf(front, pos)
      requires f < fecN && |bytes| <= MAX_FEC_PAYLOAD && f < |view[r].frags| && view[r].frags[f].None?
      modifies this`front, this`alloc, this`seqno, this`lost, this`delivered, this`sent, this`view, ring, owner.Keys
      ensures Valid()
      ensures StoredAs(Cfg(), old(Abs()), pos, Packet(old(view[r]).idx, f, Padded(bytes)), Abs(), old(sent), sent)
    {
      hide Has, EncodingMatrix, SlotShape, LogKept, Stored, BlockAtRest, StoredAs, ReceiveWindow.Valid, Live, Padded;
      WindowFacts();
      ghost var w, before := Abs(), sent;
      ghost var p := Packet(view[r].idx, f, Padded(bytes));
      StoreAndRun(r, pos, f, bytes);
      SendStored(r, w, pos, p, before);
    }

    /** One decrypted fragment: exactly one step of the receive window. */
    method ProcessFragment(block: nat, frag: nat, bytes: seq<gf>)
      requires Valid() && block <= MAX_BLOCK_IDX && frag < fecN && |bytes| <= MAX_FEC_PAYLOAD
      modifies this`front, this`alloc, this`lastKnown, this`seqno, this`lost, this`delivered, this`sent, this`view,
               ring, owner.Keys
      ensures Valid()
      ensures Stepped(Cfg(), old(Abs()), Packet(block, frag, Padded(bytes)), Abs(), old(sent), sent)
    {
      hide Has, EncodingMatrix, SlotShape, LogKept, StoredAs, Stepped, ReceiveWindow.Valid, Live, RoomMade, Admit;
      ghost var w, c, before := Abs(), Cfg(), sent;
      ghost var p := Packet(block, frag, Padded(bytes));
      WindowFacts();
      var idx := GetBlockRingIdx(block);
      if idx < 0 {
        SteppedIgnored(c, w, p, before);
        return;
      }
      WindowFacts();
      ghost var w1, mid := Abs(), sent;
      ghost var pos := PositionOf(c, w, w1, p, before, mid);
      LiveAt(view, front, alloc, pos);
      SlotFacts(idx);
      if ring[idx].flags[frag] {
        StoredDuplicate(c, w1, pos, p, mid);
        SteppedStored(c, w, w1, pos, p, w1, before, mid, mid);
        return;
      }
      StoreAndSend(idx, pos, frag, bytes);
      SteppedStored(c, w, w1, pos, p, Abs(), before, mid, sent);
    }

    /** The window and the emissions are those of one run of the receive window over the session's fragments. */
    ghost predicate Recorded()
      reads this`fecK, this`fecN, this`view, this`front, this`alloc, this`lastKnown, this`sent, this`history
    {
      && fecK >= 0 && fecN >= 0 && RingShape(view, front, alloc)
      && ReceiveWindow.Valid(Cfg(), EMPTY) && PacketsFit(Cfg(), history)
      && Run(Cfg(), EMPTY, history) == (Abs(), sent)
    }

    /** Between packets, with or without a session. */
    ghost predicate Ok()
      reads this, ring, owner.Keys, tables.Repr(), if fecP == null then {} else {fecP.encMatrix}
    {
      && ring.Length == RX_RING_SIZE && tables.Shape() && (tables.initialized ==> tables.Ready())
      && if fecP == null then fecN == -1 && lost < U32 else Valid() && Recorded()
    }

    lemma RecordStart()
      requires Valid() && Abs() == EMPTY && sent == [] && history == []
      ensures Recorded()
    {
      hide EncodingMatrix, Buffers, SlotShape, LogKept, Live;
    }

    /** Any number of packets into a session of authentic fragments: what was sent is the transmitter's own primary
        packets, each at most once and in order, and the payloads delivered are theirs. */
    lemma SessionFaithful(tx: Transmitter, flags: (nat, nat) -> gf, payload: (nat, nat) -> seq<gf>)
      requires Ok() && fecP != null && Transmits(Cfg(), tx) && AllAuthentic(Cfg(), tx, history)
      ensures forall i :: 0 <= i < |sent| ==> Faithful(Cfg(), tx, sent[i])
      ensures forall i, j :: 0 <= i < j < |sent| ==>
                sent[i].block < sent[j].block || (sent[i].block == sent[j].block && sent[i].frag < sent[j].frag)
      ensures delivered == deliveredBefore + Payloads(sent)
      ensures Wraps(Cfg(), tx, flags, payload) ==> delivered == deliveredBefore + Originals(sent, flags, payload)
    {
      hide Run, EncodingMatrix, Buffers, SlotShape, Live, ReceiveWindow.Valid, Faithful, Transmits, Payloads,
           AdvanceAll, Wraps, Originals;
      WindowFacts();
      EndToEnd(Cfg(), tx, history);
      forall i, j | 0 <= i < j < |sent|
        ensures sent[i].block < sent[j].block || (sent[i].block == sent[j].block && sent[i].frag < sent[j].frag)
      {
        InOrderAtMostOnce(Cfg(), EMPTY, history, i, j);
      }
      if Wraps(Cfg(), tx, flags, payload) {
        PayloadsOriginal(Cfg(), tx, sent, flags, payload);
      }
    }

    /** A block of which k different fragments arrived in time, whatever was lost, repeated, reordered or pushed
        out, has been sent whole. */
    lemma SessionDelivers(tx: Transmitter, block: nat)
      requires Ok() && fecP != null && Transmits(Cfg(), tx) && AllAuthentic(Cfg(), tx, history)
      requires ReceiveWindow.Valid(Cfg(), EMPTY) && PacketsFit(Cfg(), history)
      requires fecK >= 0 && |TakenIn(Cfg(), EMPTY, history, block)| >= fecK
      ensures forall f :: 0 <= f < fecK ==> Emission(block, f, tx(block)[f]) in sent
    {
      hide Run, EncodingMatrix, Buffers, SlotShape, Live, ReceiveWindow.Valid, Transmits, Payloads, AdvanceAll, TakenIn;
      WindowFacts();
      DeliveredWhole(Cfg(), tx, history, block);
    }

    /** If the session so far is complete blocks, one after another, each with at least k different fragments in any
        order, then exactly their primary packets were sent and no block is left waiting. */
    lemma SessionComplete(tx: Transmitter, first: nat, segments: seq<seq<Packet>>)
      requires Ok() && fecP != null && Transmits(Cfg(), tx)
      requires CompleteBlocks(Cfg(), tx, first, segments) && history == Flatten(segments)
      ensures sent == EveryPrimary(Cfg(), tx, first, |segments|) && alloc == 0
    {
      hide Run, EncodingMatrix, Buffers, SlotShape, Live, ReceiveWindow.Valid, Payloads, AdvanceAll, CompleteBlocks,
           Transmits,
           EveryPrimary, Flatten, PacketsFit;
      WindowFacts();
      NothingMissing(Cfg(), tx, None, first, segments);
      assert Abs().blocks == [];
    }

    /** The same for blocks whose fragments interleave, as long as they stay within the ring and become decodable in
        order. */
    lemma SessionInterleaved(tx: Transmitter, first: nat, count: nat)
      requires Ok() && fecP != null && fecK >= 0 && fecN >= 0 && RingShape(view, front, alloc)
      requires Transmits(Cfg(), tx) && AllAuthentic(Cfg(), tx, history) && Orderly(Cfg(), first, history)
      requires forall b :: first <= b < first + count ==> |Came(history, b)| >= fecK
      ensures Base(Cfg(), first, history) >= first + count && NextOf(Abs()) <= fecK
      ensures SentTo(Cfg(), tx, first, Base(Cfg(), first, history), NextOf(Abs()), sent)
    {
      hide Run, EncodingMatrix, Buffers, SlotShape, Live, ReceiveWindow.Valid, Payloads, AdvanceAll, Transmits,
           AllAuthentic,
           Orderly, Came, SentTo, Base, NextOf;
      WindowFacts();
      InterleavedSent(Cfg(), tx, first, count, history);
    }

    /** A primary packet that was taken in neither late nor twice has been sent or still waits in a live slot. */
    lemma SessionKeeps(i: nat)
      requires Ok() && fecP != null && fecK >= 0 && fecN >= 0 && i < |history| && history[i].frag < fecK
      requires RingShape(view, front, alloc) && ReceiveWindow.Valid(Cfg(), EMPTY) && PacketsFit(Cfg(), history[..i])
      requires !TooLate(Run(Cfg(), EMPTY, history[..i]).0, history[i])
      requires !Duplicate(Run(Cfg(), EMPTY, history[..i]).0, history[i])
      ensures var e := Emission(history[i].block, history[i].frag, history[i].bytes);
              e in sent || Waiting(Cfg(), Abs(), e)
    {
      hide Run, EncodingMatrix, Buffers, SlotShape, Live, ReceiveWindow.Valid, Payloads, AdvanceAll, TooLate, Duplicate,
           Waiting;
      NothingWithheld(Cfg(), history, i);
    }

    /** While the numbers fit in 32 bits: from the first nonzero number sent in the session, what was counted as
        lost and what was sent add up to every number up to the last. */
    lemma SessionLoss(first: nat)
      requires Ok() && fecP != null && fecK >= 0 && first < |sent|
      requires forall i :: 0 <= i < |sent| ==> sent[i].block * fecK + sent[i].frag < 0x1_0000_0000
      requires sent[first].block * fecK + sent[first].frag > 0
      requires forall i :: 0 <= i < first ==> sent[i].block * fecK + sent[i].frag == 0
      ensures seqno == sent[|sent| - 1].block * fecK + sent[|sent| - 1].frag
      ensures (lost - lostBefore) % 0x1_0000_0000 + (|sent| - first)
              == seqno - (sent[first].block * fecK + sent[first].frag) + 1
    {
      hide Run, EncodingMatrix, Buffers, SlotShape, Live, ReceiveWindow.Valid, Payloads, AdvanceAll, Number;
      WindowFacts();
      forall i | 0 <= i < |sent|
        ensures Number(fecK, sent[i].block, sent[i].frag) == sent[i].block * fecK + sent[i].frag
      {
        NumberIs(fecK, sent[i].block, sent[i].frag);
      }
      RunLoss(Cfg(), history, lostBefore, first);
    }

    /** The first m slots have their buffers. */
    ghost predicate BuffersUpTo(m: nat)
      reads this`owner, this`fecP, this`fecN, this`view, ring, owner.Keys, tables.Repr()
    {
      && ring.Length == |view| == RX_RING_SIZE && m <= RX_RING_SIZE
      && (forall b :: b in owner.Keys ==> b !in tables.Repr() && (fecP != null ==> b != fecP.encMatrix))
      && (forall i, f :: 0 <= i < m && 0 <= f < |ring[i].fragments| ==> ring[i].fragments[f] in owner)
      && (forall i :: 0 <= i < m ==> SlotShape(i))
    }

    ghost predicate NewBuffersFit(fs: Packets)
      reads this`owner, this`fecP
    {
      forall f :: 0 <= f < |fs| ==>
        && fs[f] !in owner && fs[f] !in tables.Repr() && (fecP != null ==> fs[f] != fecP.encMatrix)
        && fs[f].Length == MAX_FEC_PAYLOAD
    }

    lemma NewSlotShape(i: nat)
      requires i < RX_RING_SIZE <= ring.Length && i < |view| && |ring[i].fragments| == fecN
      requires ring[i] == Item(0, ring[i].fragments, seq(fecN, _ => false), 0, 0)
      requires view[i] == FreshBlock(Config(RX_RING_SIZE, 1, fecN, MAX_FEC_PAYLOAD), 0)
      requires forall f :: 0 <= f < fecN ==>
                 && ring[i].fragments[f] in owner && owner[ring[i].fragments[f]] == (i, f)
                 && ring[i].fragments[f].Length == MAX_FEC_PAYLOAD
      ensures SlotShape(i)
    {
      hide Has;
      FreshCount(view[i].frags);
      assert view[i] == BlockOf(ring[i]);
    }

    ghost method RegisterOwner(i: nat, fs: Packets)
      requires i < RX_RING_SIZE && BuffersUpTo(i) && |fs| == fecN
               && view[i] == FreshBlock(Config(RX_RING_SIZE, 1, fecN, MAX_FEC_PAYLOAD), 0)
      requires AllDistinct(fs) && NewBuffersFit(fs) && ring[i] == Item(0, fs, seq(fecN, _ => false), 0, 0)
      modifies this`owner
      ensures BuffersUpTo(i + 1) && forall b :: b in owner ==> b in old(owner) || b in fs
    {
      hide Has, FreshBlock, OwnerOf, AllDistinct, BlockOf;
      var m, was := OwnerOf(fs, i), owner;
      assert forall b :: b in m ==> b !in was;
      owner := owner + m;
      assert forall b :: b in was ==> b in owner && owner[b] == was[b];
      forall j | 0 <= j < i
        ensures SlotShape(j)
      {
        assert old(SlotShape(j));
      }
      NewSlotShape(i);
    }

    /** Gives slot i its buffers. */
    method AttachBuffers(i: nat, fs: Packets)
      requires i < RX_RING_SIZE && BuffersUpTo(i) && |fs| == fecN
               && view[i] == FreshBlock(Config(RX_RING_SIZE, 1, fecN, MAX_FEC_PAYLOAD), 0)
      requires AllDistinct(fs) && NewBuffersFit(fs)
      modifies this`owner, ring
      ensures BuffersUpTo(i + 1) && forall b :: b in owner ==> b in old(owner) || b in fs
    {
      hide Has, FreshBlock, OwnerOf, AllDistinct, BlockOf;
      ring[i] := Item(0, fs, seq(fecN, _ => false), 0, 0);
      forall j | 0 <= j < i
        ensures SlotShape(j)
      {
        assert old(SlotShape(j));
      }
      assert BuffersUpTo(i);
      RegisterOwner(i, fs);
    }

    method InitSlot(i: nat)
      requires i < RX_RING_SIZE && BuffersUpTo(i) && fecN >= 0
               && view[i] == FreshBlock(Config(RX_RING_SIZE, 1, fecN, MAX_FEC_PAYLOAD), 0)
      modifies this`owner, ring
      ensures BuffersUpTo(i + 1) && fresh(owner.Keys - old(owner.Keys))
    {
      hide SlotShape;
      var fs := NewBuffers(fecN);
      AttachBuffers(i, fs);
    }

    method ClearRing()
      requires HasCodec()
      modifies this`front, this`alloc, this`lastKnown, this`seqno, this`sent, this`lostBefore, this`deliveredBefore,
               this`history
      ensures HasCodec() && front == alloc == seqno == 0 && lastKnown == NO_BLOCK
      ensures sent == [] && history == [] && lostBefore == lost && deliveredBefore == delivered
    {
      hide HasCodec;
      assert (this as object) !in tables.Repr();
      front, alloc, lastKnown, seqno := 0, 0, NO_BLOCK, 0;
      sent, history, lostBefore, deliveredBefore := [], [], lost, delivered;
    }

    lemma StartValid()
      requires HasCodec() && Buffers() && LogKept() && front == alloc == 0 && lastKnown == NO_BLOCK
      ensures Valid() && Abs() == EMPTY
    {
      hide EncodingMatrix, SlotShape, LogKept;
      assert Live(view, front, alloc) == [];
    }

    lemma StartLog()
      requires sent == [] && lostBefore == lost < U32 && deliveredBefore == delivered && seqno == 0 && fecK >= 0
      ensures LogKept()
    {
    }

    method StartCodec(k: nat, n: nat)
      requires tables.Shape() && (tables.initialized ==> tables.Ready()) && 1 <= k <= n <= 255
      modifies this`fecP, this`fecK, this`fecN, tables.Repr()
      ensures HasCodec() && fecP != null && fecK == k && fecN == n
    {
      hide EncodingMatrix;
      fecK, fecN := k, n;
      fecP := new Fec(tables, k, n);
    }

    /** Fresh buffers for every slot. */
    method InitRing()
      requires ring.Length == RX_RING_SIZE && HasCodec()
      modifies this`owner, this`view, ring
      ensures HasCodec() && Buffers() && fresh(owner.Keys)
    {
      hide EncodingMatrix, SlotShape, FreshBlock;
      owner := map[];
      ghost var b := FreshBlock(Config(RX_RING_SIZE, 1, fecN, MAX_FEC_PAYLOAD), 0);
      view := seq(RX_RING_SIZE, _ => b);
      for i := 0 to RX_RING_SIZE
        invariant HasCodec() && BuffersUpTo(i) && fresh(owner.Keys) && view == seq(RX_RING_SIZE, _ => b)
      {
        InitSlot(i);
      }
    }

    /** Starts a session: a new code, empty slots, and nothing known. */
    method InitFec(k: nat, n: nat)
      requires ring.Length == RX_RING_SIZE && tables.Shape() && (tables.initialized ==> tables.Ready())
      requires 1 <= k <= n <= 255 && lost < U32
      modifies this`fecP, this`fecK, this`fecN, this`front, this`alloc, this`lastKnown, this`seqno, this`sent,
               this`lostBefore, this`deliveredBefore, this`history, this`owner, this`view, ring, tables.Repr()
      ensures Valid() && fecP != null && fecK == k && fecN == n
      ensures Abs() == EMPTY && sent == [] && history == [] && lostBefore == lost && deliveredBefore == delivered
      ensures fresh(owner.Keys)
    {
      hide EncodingMatrix, SlotShape, LogKept, ReceiveWindow.Valid, Live, Buffers, Valid, HasCodec;
      StartCodec(k, n);
      ClearRing();
      InitRing();
      StartLog();
      StartValid();
    }

    lemma ValidShape()
      requires Valid()
      ensures RingShape(view, front, alloc) && fecK >= 0 && fecN >= 0
    {
      hide EncodingMatrix, Buffers, SlotShape, LogKept, ReceiveWindow.Valid, Live;
    }

    lemma RecordParts()
      requires Ok() && fecP != null
      ensures Valid() && fecK >= 0 && fecN >= 0 && RingShape(view, front, alloc)
      ensures ReceiveWindow.Valid(Cfg(), EMPTY) && PacketsFit(Cfg(), history)
              && Run(Cfg(), EMPTY, history) == (Abs(), sent)
    {
      hide EncodingMatrix, Buffers, SlotShape, LogKept, ReceiveWindow.Valid, Live, Run;
    }

    lemma RecordWhole()
      requires Valid() && fecK >= 0 && fecN >= 0 && RingShape(view, front, alloc)
      requires ReceiveWindow.Valid(Cfg(), EMPTY) && PacketsFit(Cfg(), history)
               && Run(Cfg(), EMPTY, history) == (Abs(), sent)
      ensures Ok()
    {
      hide EncodingMatrix, SlotShape, LogKept, ReceiveWindow.Valid, Live, Run;
    }

    /** Takes in one fragment of the running session. */
    method TakeIn(block: nat, frag: nat, bytes: seq<gf>)
      requires Ok() && fecP != null && block <= MAX_BLOCK_IDX && frag < fecN && |bytes| <= MAX_FEC_PAYLOAD
      modifies this`front, this`alloc, this`lastKnown, this`seqno, this`lost, this`delivered, this`sent, this`history,
               this`view, ring, owner.Keys
      ensures Ok() && history == old(history) + [Packet(block, frag, Padded(bytes))]
      ensures Stepped(Cfg(), old(Abs()), Packet(block, frag, Padded(bytes)), Abs(), old(sent), sent)
    {
      hide Valid, Stepped, EncodingMatrix, Buffers, SlotShape, LogKept, HasCodec, ReceiveWindow.Valid, Live, Run;
      ghost var p := Packet(block, frag, Padded(bytes));
      RecordParts();
      ghost var c, w, before := Cfg(), Abs(), sent;
      ProcessFragment(block, frag, bytes);
      ValidShape();
      RunNext(c, history, w, before, p, Abs(), sent);
      assert (this as object) !in tables.Repr();
      history := history + [p];
      RecordWhole();
    }

    lemma SessionLost()
      requires Ok()
      ensures lost < U32
    {
      hide EncodingMatrix, Buffers, SlotShape, ReceiveWindow.Valid, Live;
    }

    method StartSession(s: Session)
      requires Ok() && 1 <= s.k <= s.n
      modifies this, ring, tables.Repr()
      ensures Ok() && Valid() && fecP != null && fecK == s.k && fecN == s.n && Abs() == EMPTY && sent == []
              && history == []
      ensures lost == lostBefore == old(lost) && delivered == deliveredBefore == old(delivered)
      ensures epoch == s.epoch && sessionKey == s.key
    {
      hide EncodingMatrix, Buffers, SlotShape, LogKept, ReceiveWindow.Valid, Live;
      SessionLost();
      epoch, sessionKey := s.epoch, s.key;
      InitFec(s.k, s.n);
      RecordStart();
    }

    /** One received packet: dropped, or the start of a new session, or one step of the running one. */
    method ProcessPacket(frame: Frame)
      requires Ok() && frame.Opened()
      modifies this, ring, owner.Keys, tables.Repr()
      ensures Ok()
      // a session packet that may be obeyed and has a new key
      ensures 1 <= frame.size <= 1473 && frame.kind == 2 && frame.size == 88 && frame.session.Some?
              && frame.session.value.epoch >= old(epoch) && frame.session.value.channelId == channelId
              && frame.session.value.fecType == 1 && 1 <= frame.session.value.k <= frame.session.value.n
              && frame.session.value.key != old(sessionKey)
              ==> && fecP != null && fecK == frame.session.value.k && fecN == frame.session.value.n
                  && Abs() == EMPTY && sent == [] && history == []
                  && lost == lostBefore == old(lost) && delivered == deliveredBefore == old(delivered)
                  && epoch == frame.session.value.epoch && sessionKey == frame.session.value.key
      // a data packet: the nonce holds the block above its lowest byte and the fragment in it
      ensures forall p: Packet ::
                && frame.kind == 1 && 12 <= frame.size <= 1473 && frame.plain.Some?
                && frame.nonce == 256 * p.block + p.frag && p.frag < 256 && p.frag < old(fecN)
                && p.block <= 0x7F_FFFF_FFFF_FFFF && p.bytes == Padded(frame.plain.value)
                ==> && fecP != null && fecP == old(fecP) && fecK == old(fecK) && fecN == old(fecN)
                    && epoch == old(epoch) && sessionKey == old(sessionKey) && history == old(history) + [p]
                    && Stepped(Cfg(), old(Abs()), p, Abs(), old(sent), sent)
      // anything else
      ensures !(frame.kind == 2 && frame.size == 88 && frame.session.Some?
                && frame.session.value.epoch >= old(epoch) && frame.session.value.channelId == channelId
                && frame.session.value.fecType == 1 && 1 <= frame.session.value.k <= frame.session.value.n
                && frame.session.value.key != old(sessionKey))
              && !(frame.kind == 1 && 12 <= frame.size <= 1473 && frame.plain.Some?
                   && frame.nonce < 0x8000_0000_0000_0000 && frame.nonce % 256 < old(fecN))
              ==> unchanged(this) && unchanged(ring) && unchanged(owner.Keys)
    {
      hide Valid, Recorded, Stepped, EncodingMatrix, Buffers, SlotShape, LogKept, HasCodec, ReceiveWindow.Valid, Live;
      if frame.size == 0 || frame.size > MAX_FORWARDER_PACKET_SIZE {
        return;
      }
      if frame.kind == WFB_PACKET_KEY {
        if frame.size != SESSION_PACKET_SIZE || frame.session.None? {
          return;
        }
        var s := frame.session.value;
        if s.epoch < epoch || s.channelId != channelId || s.fecType != WFB_FEC_VDM_RS {
          return;
        }
        if s.n < 1 || s.k < 1 || s.k > s.n {
          return;
        }
        if sessionKey != s.key {
          StartSession(s);
        }
        return;
      }
      if frame.kind != WFB_PACKET_DATA || frame.size < BLOCK_HDR_SIZE + PACKET_HDR_SIZE || frame.plain.None? {
        return;
      }
      var decrypted := frame.plain.value;
      assert |decrypted| <= MAX_FEC_PAYLOAD;
      var block := frame.nonce / 256;
      var frag := frame.nonce % 256;
      if block > MAX_BLOCK_IDX || frag >= fecN {
        return;
      }
      TakeIn(block, frag, decrypted);
    }
  }
}
