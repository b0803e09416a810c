/** Every block that takes in k different fragments is sent whole, however the blocks are mixed, lost in part, repeated
    or pushed out; and what storing one fragment sends, packet by packet. */
module ReceiveDelivery {
  import opened Vectors
  import opened ErasureCode
  import opened FecCodec
  import opened ReceiveWindow
  import opened ReceiveTheorems
  import opened ReceiveConservation
  import opened Wrappers

  // ----- what is in the parts of an emission -----

  lemma {:induction false} FlushRangeIff(b: Block, lo: nat, hi: nat, e: Emission)
    requires lo <= hi <= |b.frags|
    ensures e in FlushRange(b, lo, hi) <==>
            e.block == b.idx && lo <= e.frag < hi && b.frags[e.frag] == Some(e.bytes)
    decreases hi - lo
  {
    if lo == hi {
    } else {
      FlushRangeIff(b, lo + 1, hi, e);
    }
  }

  lemma {:induction false} FlushAllIff(bs: seq<Block>, k: nat, e: Emission)
    requires forall i :: 0 <= i < |bs| ==> k <= |bs[i].frags|
    ensures e in FlushAll(bs, k) <==> exists j :: 0 <= j < |bs| && WaitsIn(bs[j], k, e)
  {
    hide FlushRange;
    if bs == [] {
    } else {
      var rest := bs[1..];
      FlushAllIff(rest, k, e);
      if bs[0].next <= k {
        FlushRangeIff(bs[0], bs[0].next, k, e);
      }
      assert e in FlushAll(bs, k) <==> e in Flush(bs[0], k) || e in FlushAll(rest, k);
      assert e in Flush(bs[0], k) <==> WaitsIn(bs[0], k, e);
      if e in FlushAll(rest, k) {
        var j :| 0 <= j < |rest| && WaitsIn(rest[j], k, e);
        assert bs[j + 1] == rest[j];
      }
      if j :| 0 <= j < |bs| && WaitsIn(bs[j], k, e) {
        assert j > 0 ==> rest[j - 1] == bs[j];
      }
    }
  }

  lemma {:induction false} EmitCompletedIff(b: Block, k: nat, len: nat, lo: nat, e: Emission)
    requires lo <= k <= |b.frags| && Has(b.frags) >= k && Sized(b.frags, len)
    ensures e in EmitCompleted(b, k, len, lo) <==>
            e.block == b.idx && lo <= e.frag < k && e.bytes == CompletedPacket(b.frags, k, len, e.frag)
    decreases k - lo
  {
    hide CompletedPacket, Has;
    if lo == k {
    } else {
      EmitCompletedIff(b, k, len, lo + 1, e);
    }
  }

  // ----- storing one fragment -----

  /** All primaries have arrived only when k fragments have. */
  lemma FullHasAll(c: Config, w: Window, pos: nat, p: Packet)
    requires Valid(c, w) && pos < |w.blocks| && p.frag < c.n && w.blocks[pos].frags[p.frag].None?
    requires var frags := w.blocks[pos].frags[p.frag := Some(p.bytes)];
             forall j :: 0 <= j < c.k ==> frags[j].Some?
    ensures Has(w.blocks[pos].frags[p.frag := Some(p.bytes)]) == c.k
  {
    hide Count;
    var b := w.blocks[pos];
    PrefixCount(c, w, b.frags[p.frag := Some(p.bytes)]);
    CountSet(b.frags, p.frag, p.bytes, 0, c.n);
  }

  lemma FilledBlock(c: Config, w: Window, pos: nat, p: Packet)
    requires Valid(c, w) && pos < |w.blocks| && p.frag < c.n && |p.bytes| == c.len
    ensures c.k <= c.n == |w.blocks[pos].frags| && w.blocks[pos].next < c.k
    ensures Sized(w.blocks[pos].frags[p.frag := Some(p.bytes)], c.len)
    ensures forall j :: 0 <= j < w.blocks[pos].next ==> w.blocks[pos].frags[j].Some?
    ensures forall j :: 0 <= j < |w.blocks| ==> c.k <= |w.blocks[j].frags|
  {
    hide Count;
  }

  /** The k-th different fragment of a live block, at whatever place: the older blocks send what waits in them and
      leave, and the block sends all primaries it has not sent yet and leaves. */
  lemma StoreCompletes(c: Config, w: Window, pos: nat, p: Packet, e: Emission)
    requires Valid(c, w) && pos < |w.blocks| && p.frag < c.n && |p.bytes| == c.len
    requires |w.blocks[pos].frags| == c.n && w.blocks[pos].frags[p.frag].None?
    requires Has(w.blocks[pos].frags[p.frag := Some(p.bytes)]) == c.k
    ensures var frags := w.blocks[pos].frags[p.frag := Some(p.bytes)];
            && c.k <= c.n && Sized(frags, c.len)
            && Store(c, w, pos, p).0 == w.(blocks := w.blocks[pos + 1..])
            && (e in Store(c, w, pos, p).1 <==>
                  || (exists j :: 0 <= j < pos && WaitsIn(w.blocks[j], c.k, e))
                  || (e.block == w.blocks[pos].idx && w.blocks[pos].next <= e.frag < c.k
                      && e.bytes == CompletedPacket(frags, c.k, c.len, e.frag)))
  {
    hide Valid, Has, FlushRange, FlushAll, EmitCompleted, WaitsIn, RunEnd, CompletedPacket;
    FilledBlock(c, w, pos, p);
    var b := w.blocks[pos];
    var frags := b.frags[p.frag := Some(p.bytes)];
    var end := if pos == 0 then RunEnd(frags, b.next, c.k) else b.next;
    if pos == 0 {
      FlushRangeIff(b.(frags := frags), b.next, end, e);
      ArrivedCompletes(frags, c.k, c.len);
    }
    if end < c.k {
      FlushAllIff(w.blocks[..pos], c.k, e);
      EmitCompletedIff(b.(frags := frags, next := end), c.k, c.len, end, e);
    }
  }

  lemma ArrivedCompletes(frags: Fragments, k: nat, len: nat)
    requires k <= |frags| && Has(frags) >= k && Sized(frags, len)
    ensures forall f :: 0 <= f < k && frags[f].Some? ==> CompletedPacket(frags, k, len, f) == frags[f].value
  {
  }

  /** A fragment short of k: the oldest block sends its primaries up to the first gap, another block none. */
  lemma StoreWaits(c: Config, w: Window, pos: nat, p: Packet, e: Emission)
    requires Valid(c, w) && pos < |w.blocks| && p.frag < c.n && |p.bytes| == c.len
    requires |w.blocks[pos].frags| == c.n && w.blocks[pos].frags[p.frag].None?
    requires Has(w.blocks[pos].frags[p.frag := Some(p.bytes)]) != c.k
    ensures var b, frags := w.blocks[pos], w.blocks[pos].frags[p.frag := Some(p.bytes)];
            var (w', out) := Store(c, w, pos, p);
            && c.k <= c.n && w'.last == w.last && |w'.blocks| == |w.blocks|
            && (forall j :: 0 <= j < |w.blocks| && j != pos ==> w'.blocks[j] == w.blocks[j])
            && w'.blocks[pos].idx == b.idx && w'.blocks[pos].frags == frags
            && b.next <= w'.blocks[pos].next < c.k
            && (forall f :: b.next <= f < w'.blocks[pos].next ==> frags[f].Some?)
            && (if pos == 0 then frags[w'.blocks[pos].next].None? else w'.blocks[pos].next == b.next)
            && (e in out <==> e.block == b.idx && b.next <= e.frag < w'.blocks[pos].next
                              && frags[e.frag] == Some(e.bytes))
  {
    hide Valid, Has, FlushRange, FlushAll, EmitCompleted, RunEnd;
    FilledBlock(c, w, pos, p);
    var b := w.blocks[pos];
    var frags := b.frags[p.frag := Some(p.bytes)];
    if pos == 0 {
      var end := RunEnd(frags, b.next, c.k);
      FlushRangeIff(b.(frags := frags), b.next, end, e);
      if end == c.k {
        FullHasAll(c, w, pos, p);
      }
    }
  }

  // ----- which fragments a block takes in -----

  /** The block is among the live ones. */
  ghost predicate IsLive(w: Window, block: nat) {
    w.last.Some? && block <= w.last.value < block + |w.blocks|
  }

  /** The place of a live block. */
  ghost function PlaceIn(w: Window, block: nat): (pos: nat)
    requires IsLive(w, block)
    ensures pos < |w.blocks|
  {
    block + |w.blocks| - w.last.value - 1
  }

  lemma FindsLive(c: Config, w: Window, block: nat)
    requires Valid(c, w)
    ensures Find(w.blocks, block) == if IsLive(w, block) then Some(PlaceIn(w, block)) else None
    ensures forall j :: 0 <= j < |w.blocks| ==> IsLive(w, w.blocks[j].idx) && PlaceIn(w, w.blocks[j].idx) == j
  {
    hide BlockAtRest;
    if IsLive(w, block) {
      FindIs(w.blocks, block, PlaceIn(w, block));
    }
  }

  /** The fragments of the block that arrived before it had left or been passed over. */
  ghost function TakenIn(c: Config, w: Window, ps: seq<Packet>, block: nat): (got: set<nat>)
    requires Valid(c, w) && PacketsFit(c, ps)
    decreases |ps|
  {
    if ps == [] then {}
    else
      StepValid(c, w, ps[0]);
      (if ps[0].block == block && !TooLate(w, ps[0]) then {ps[0].frag} else {})
      + TakenIn(c, Step(c, w, ps[0]).0, ps[1..], block)
  }

  /** Exactly the fragments in got are there. */
  ghost predicate Holds(b: Block, n: nat, got: set<nat>) {
    && |b.frags| == n && (forall f :: f in got ==> f < n)
    && forall f :: 0 <= f < n ==> (b.frags[f].Some? <==> f in got)
  }

  ghost predicate AllSent(c: Config, tx: Transmitter, block: nat, from: nat, out: seq<Emission>)
    requires Transmits(c, tx)
  {
    forall f :: from <= f < c.k ==> Emission(block, f, tx(block)[f]) in out
  }

  /** What has been passed in a live block has been sent. */
  ghost predicate PassedSent(c: Config, tx: Transmitter, w: Window, out: seq<Emission>)
    requires Transmits(c, tx)
  {
    forall j, f :: 0 <= j < |w.blocks| && 0 <= f < w.blocks[j].next && f < c.k ==>
      Emission(w.blocks[j].idx, f, tx(w.blocks[j].idx)[f]) in out
  }

  /** Of one block: if live it holds what it took in; if it has left, it took in too little or has been sent whole. */
  ghost predicate Followed(c: Config, tx: Transmitter, w: Window, out: seq<Emission>, block: nat, got: set<nat>)
    requires Transmits(c, tx)
  {
    if IsLive(w, block) then Holds(w.blocks[PlaceIn(w, block)], c.n, got)
    else if w.last.Some? && block <= w.last.value then |got| < c.k || AllSent(c, tx, block, 0, out)
    else got == {}
  }

  ghost predicate Tracked(c: Config, tx: Transmitter, w: Window, out: seq<Emission>, block: nat, got: set<nat>)
    requires Transmits(c, tx)
  {
    && Valid(c, w) && WindowAuthentic(c, tx, w) && PassedSent(c, tx, w, out) && Followed(c, tx, w, out, block, got)
  }

  /** A live block at rest has taken in fewer than k fragments. */
  lemma LiveHasFew(c: Config, w: Window, j: nat, got: set<nat>)
    requires Valid(c, w) && j < |w.blocks| && Holds(w.blocks[j], c.n, got)
    ensures |got| < c.k
  {
    CountIsSize(w.blocks[j].frags, got, 0);
  }

  lemma AdmitTracked(c: Config, tx: Transmitter, w: Window, out: seq<Emission>, more: seq<Emission>, block: nat,
                     got: set<nat>, newest: nat)
    requires Transmits(c, tx) && Tracked(c, tx, w, out, block, got) && (w.last.Some? ==> newest > w.last.value)
    ensures Tracked(c, tx, Admit(c, w, newest), out + more, block, got) && IsLive(Admit(c, w, newest), newest)
  {
    hide BlockAtRest, Admit, BlockAuthentic;
    var w' := Admit(c, w, newest);
    AdmitValid(c, w, newest);
    AdmitExact(c, w, newest);
    FindsLive(c, w, block);
    assert WindowAuthentic(c, tx, w') by {
      hide *;
      AdmitFaithful(c, tx, w, newest);
    }
    if IsLive(w, block) && !IsLive(w', block) {
      LiveHasFew(c, w, PlaceIn(w, block), got);
    }
  }

  /** The packets sent when a block is completed are the transmitter's. */
  lemma CompletionSends(c: Config, tx: Transmitter, w: Window, pos: nat, p: Packet, f: nat)
    requires Transmits(c, tx) && Valid(c, w) && WindowAuthentic(c, tx, w) && pos < |w.blocks| && f < c.k
    requires Authentic(c, tx, p) && w.blocks[pos].idx == p.block && |p.bytes| == c.len
    requires |w.blocks[pos].frags| == c.n && w.blocks[pos].frags[p.frag].None?
    requires Has(w.blocks[pos].frags[p.frag := Some(p.bytes)]) == c.k && w.blocks[pos].next <= f
    ensures Emission(p.block, f, tx(p.block)[f]) in Store(c, w, pos, p).1
  {
    hide Has, Store, BlockAtRest, Codeword, CompletedPacket;
    var b := w.blocks[pos];
    var b' := b.(frags := b.frags[p.frag := Some(p.bytes)]);
    FilledBlock(c, w, pos, p);
    StoredAuthentic(c, tx, b, p, 0);
    CompletedFaithful(c, tx, b', f);
    StoreCompletes(c, w, pos, p, Emission(p.block, f, tx(p.block)[f]));
  }

  /** What the block has been passed in while it waited was sent when it arrived. */
  lemma WaitingSends(c: Config, tx: Transmitter, w: Window, pos: nat, p: Packet, f: nat)
    requires Transmits(c, tx) && Valid(c, w) && WindowAuthentic(c, tx, w) && pos < |w.blocks|
    requires Authentic(c, tx, p) && w.blocks[pos].idx == p.block && |p.bytes| == c.len
    requires |w.blocks[pos].frags| == c.n && w.blocks[pos].frags[p.frag].None?
    requires Has(w.blocks[pos].frags[p.frag := Some(p.bytes)]) != c.k
    requires var w' := Store(c, w, pos, p).0;
             pos < |w'.blocks| && w.blocks[pos].next <= f < w'.blocks[pos].next && f < c.k
    ensures Emission(p.block, f, tx(p.block)[f]) in Store(c, w, pos, p).1
  {
    hide Has, Store, Valid, Codeword;
    var b := w.blocks[pos];
    ValidSizes(c, w);
    FilledBlock(c, w, pos, p);
    StoredAuthentic(c, tx, b, p, 0);
    CodewordPrimary(tx(p.block), f, c.len);
    StoreWaits(c, w, pos, p, Emission(p.block, f, tx(p.block)[f]));
    assert tx(p.block)[f][..c.len] == tx(p.block)[f];
  }

  lemma HoldsMore(b: Block, n: nat, got: set<nat>, f: nat, v: Vec)
    requires Holds(b, n, got) && f < n
    ensures Holds(b.(frags := b.frags[f := Some(v)]), n, got + {f})
    ensures b.frags[f].Some? ==> got + {f} == got
    ensures Has(b.frags[f := Some(v)]) == |got + {f}|
  {
    CountIsSize(b.frags[f := Some(v)], got + {f}, 0);
  }

  /** The k-th fragment of a block: it has then been sent whole, and no other is cut short that had enough. */
  lemma CompletionFollowed(c: Config, tx: Transmitter, w: Window, out: seq<Emission>, block: nat, got: set<nat>,
                           pos: nat, p: Packet)
    requires Transmits(c, tx) && Tracked(c, tx, w, out, block, got) && pos < |w.blocks|
    requires Authentic(c, tx, p) && w.blocks[pos].idx == p.block && p.frag < c.n && |p.bytes| == c.len
    requires |w.blocks[pos].frags| == c.n && w.blocks[pos].frags[p.frag].None?
    requires Has(w.blocks[pos].frags[p.frag := Some(p.bytes)]) == c.k
    ensures Followed(c, tx, Store(c, w, pos, p).0, out + Store(c, w, pos, p).1, block,
                     if p.block == block then got + {p.frag} else got)
  {
    hide Has, Store, Valid, WindowAuthentic, Holds, Authentic;
    FindsLive(c, w, block);
    FindsLive(c, w, p.block);
    StoreCompletes(c, w, pos, p, Emission(0, 0, []));
    if block == p.block {
      forall f | 0 <= f < c.k
        ensures Emission(block, f, tx(block)[f]) in out + Store(c, w, pos, p).1
      {
        if f >= w.blocks[pos].next {
          CompletionSends(c, tx, w, pos, p, f);
        }
      }
    } else if IsLive(w, block) && PlaceIn(w, block) < pos {
      LiveHasFew(c, w, PlaceIn(w, block), got);
    }
  }

  lemma CompletionPassed(c: Config, tx: Transmitter, w: Window, out: seq<Emission>, pos: nat, p: Packet)
    requires Transmits(c, tx) && Valid(c, w) && PassedSent(c, tx, w, out) && pos < |w.blocks|
    requires p.frag < c.n && |p.bytes| == c.len
    requires |w.blocks[pos].frags| == c.n && w.blocks[pos].frags[p.frag].None?
    requires Has(w.blocks[pos].frags[p.frag := Some(p.bytes)]) == c.k
    ensures PassedSent(c, tx, Store(c, w, pos, p).0, out + Store(c, w, pos, p).1)
  {
    hide Has, Store, Valid;
    StoreCompletes(c, w, pos, p, Emission(0, 0, []));
  }

  /** A fragment short of k: what the oldest block is passed in, it sends. */
  lemma WaitingPassed(c: Config, tx: Transmitter, w: Window, out: seq<Emission>, pos: nat, p: Packet)
    requires Transmits(c, tx) && Valid(c, w) && WindowAuthentic(c, tx, w) && PassedSent(c, tx, w, out)
    requires pos < |w.blocks| && Authentic(c, tx, p) && w.blocks[pos].idx == p.block
    requires p.frag < c.n && |p.bytes| == c.len
    requires |w.blocks[pos].frags| == c.n && w.blocks[pos].frags[p.frag].None?
    requires Has(w.blocks[pos].frags[p.frag := Some(p.bytes)]) != c.k
    ensures PassedSent(c, tx, Store(c, w, pos, p).0, out + Store(c, w, pos, p).1)
  {
    hide Has, Store, Valid, WindowAuthentic, Authentic;
    StoreWaits(c, w, pos, p, Emission(0, 0, []));
    var (w', more) := Store(c, w, pos, p);
    forall j, f | 0 <= j < |w'.blocks| && 0 <= f < w'.blocks[j].next && f < c.k
      ensures Emission(w'.blocks[j].idx, f, tx(w'.blocks[j].idx)[f]) in out + more
    {
      if j == pos && f >= w.blocks[pos].next {
        WaitingSends(c, tx, w, pos, p, f);
      }
    }
  }

  /** A fragment short of k: every live block stays live. */
  lemma WaitingFollowed(c: Config, tx: Transmitter, w: Window, out: seq<Emission>, block: nat, got: set<nat>,
                        pos: nat, p: Packet)
    requires Transmits(c, tx) && Valid(c, w) && Followed(c, tx, w, out, block, got) && pos < |w.blocks|
    requires p.frag < c.n && w.blocks[pos].idx == p.block && |p.bytes| == c.len
    requires |w.blocks[pos].frags| == c.n && w.blocks[pos].frags[p.frag].None?
    requires Has(w.blocks[pos].frags[p.frag := Some(p.bytes)]) != c.k
    ensures Followed(c, tx, Store(c, w, pos, p).0, out + Store(c, w, pos, p).1, block,
                     if p.block == block then got + {p.frag} else got)
  {
    hide Has, Store, Valid;
    FindsLive(c, w, block);
    FindsLive(c, w, p.block);
    StoreWaits(c, w, pos, p, Emission(0, 0, []));
  }

  lemma StoreTracked(c: Config, tx: Transmitter, w: Window, out: seq<Emission>, block: nat, got: set<nat>, pos: nat,
                     p: Packet)
    requires Transmits(c, tx) && Tracked(c, tx, w, out, block, got) && pos < |w.blocks|
    requires Authentic(c, tx, p) && w.blocks[pos].idx == p.block
    ensures |p.bytes| == c.len
    ensures Tracked(c, tx, Store(c, w, pos, p).0, out + Store(c, w, pos, p).1, block,
                    if p.block == block then got + {p.frag} else got)
  {
    hide Has, Valid, WindowAuthentic, PassedSent, Followed, Codeword, FlushRange, FlushAll, EmitCompleted, RunEnd;
    FilledBlockSize(c, w, pos);
    StoreValid(c, w, pos, p);
    StoreFaithful(c, tx, w, pos, p);
    if w.blocks[pos].frags[p.frag].Some? {
      DuplicateFollowed(c, tx, w, out, block, got, pos, p);
      assert out + [] == out;
    } else if Has(w.blocks[pos].frags[p.frag := Some(p.bytes)]) == c.k {
      CompletionPassed(c, tx, w, out, pos, p);
      CompletionFollowed(c, tx, w, out, block, got, pos, p);
    } else {
      WaitingPassed(c, tx, w, out, pos, p);
      WaitingFollowed(c, tx, w, out, block, got, pos, p);
    }
  }

  lemma FilledBlockSize(c: Config, w: Window, pos: nat)
    requires Valid(c, w) && pos < |w.blocks|
    ensures |w.blocks[pos].frags| == c.n
  {
  }

  lemma DuplicateFollowed(c: Config, tx: Transmitter, w: Window, out: seq<Emission>, block: nat, got: set<nat>,
                          pos: nat, p: Packet)
    requires Transmits(c, tx) && Valid(c, w) && Followed(c, tx, w, out, block, got) && pos < |w.blocks|
    requires w.blocks[pos].idx == p.block && p.frag < |w.blocks[pos].frags| && w.blocks[pos].frags[p.frag].Some?
    ensures Followed(c, tx, w, out, block, if p.block == block then got + {p.frag} else got)
  {
    hide Valid;
    FindsLive(c, w, block);
    assert p.frag in got ==> got + {p.frag} == got;
  }

  lemma StepFollowed(c: Config, tx: Transmitter, w: Window, out: seq<Emission>, block: nat, got: set<nat>, p: Packet)
    requires Transmits(c, tx) && Tracked(c, tx, w, out, block, got) && Authentic(c, tx, p)
    ensures |p.bytes| == c.len && Valid(c, w)
    ensures Tracked(c, tx, Step(c, w, p).0, out + Step(c, w, p).1, block,
                    got + if p.block == block && !TooLate(w, p) then {p.frag} else {})
  {
    hide Valid, WindowAuthentic, PassedSent, Followed, Codeword, Store, Admit, FlushAll;
    ValidSizes(c, w) by { hide *; }
    assert got + {} == got;
    match Find(w.blocks, p.block)
    case Some(pos) => StoreTracked(c, tx, w, out, block, got, pos, p);
    case None =>
      if w.last.Some? && p.block <= w.last.value {
        assert out + [] == out;
      } else {
        var w1, more := Admit(c, w, p.block), FlushAll(w.blocks[..Evicted(c, w, p.block)], c.k);
        AdmitValid(c, w, p.block);
        FreshIdx(c, p.block);
        AdmitTracked(c, tx, w, out, more, block, got, p.block);
        StoreTracked(c, tx, w1, out + more, block, got, |w1.blocks| - 1, p);
        var (w2, rest) := Store(c, w1, |w1.blocks| - 1, p);
        assert (out + more) + rest == out + (more + rest);
      }
  }

  lemma {:induction false} RunFollowed(c: Config, tx: Transmitter, w: Window, out: seq<Emission>, block: nat,
                                      got: set<nat>, ps: seq<Packet>)
    requires Transmits(c, tx) && Tracked(c, tx, w, out, block, got) && AllAuthentic(c, tx, ps)
    ensures Valid(c, w) && PacketsFit(c, ps)
    ensures Tracked(c, tx, Run(c, w, ps).0, out + Run(c, w, ps).1, block, got + TakenIn(c, w, ps, block))
    decreases |ps|
  {
    hide Valid, WindowAuthentic, PassedSent, Followed, Authentic, Step, TooLate;
    AuthenticFit(c, tx, ps);
    if ps == [] {
      assert out + [] == out && got + {} == got;
    } else {
      var p, rest := ps[0], ps[1..];
      StepValid(c, w, p);
      StepFollowed(c, tx, w, out, block, got, p);
      var (w1, more) := Step(c, w, p);
      var taken := if p.block == block && !TooLate(w, p) then {p.frag} else {};
      RunFollowed(c, tx, w1, out + more, block, got + taken, rest);
      assert (out + more) + Run(c, w1, rest).1 == out + (more + Run(c, w1, rest).1);
      assert (got + taken) + TakenIn(c, w1, rest, block) == got + (taken + TakenIn(c, w1, rest, block));
    }
  }

  /** Whatever is lost, repeated, reordered or pushed out of the ring: a block of which k different fragments arrived
      before it had left or been passed over has all its primaries sent, and a live block has fewer. */
  lemma DeliveredWhole(c: Config, tx: Transmitter, ps: seq<Packet>, block: nat)
    requires c.Sane() && Transmits(c, tx) && AllAuthentic(c, tx, ps)
    ensures Valid(c, EMPTY) && PacketsFit(c, ps)
    ensures |TakenIn(c, EMPTY, ps, block)| >= c.k ==>
              forall f :: 0 <= f < c.k ==> Emission(block, f, tx(block)[f]) in Run(c, EMPTY, ps).1
    ensures IsLive(Run(c, EMPTY, ps).0, block) ==> |TakenIn(c, EMPTY, ps, block)| < c.k
  {
    hide Run, TakenIn, WindowAuthentic, PassedSent;
    assert Tracked(c, tx, EMPTY, [], block, {}) by {
      hide *;
      EmptyTracked(c, tx, block);
    }
    RunFollowed(c, tx, EMPTY, [], block, {}, ps);
    var (w, out) := Run(c, EMPTY, ps);
    var got := TakenIn(c, EMPTY, ps, block);
    assert [] + out == out && {} + got == got;
    if IsLive(w, block) {
      LiveHasFew(c, w, PlaceIn(w, block), got);
    }
  }

  lemma EmptyTracked(c: Config, tx: Transmitter, block: nat)
    requires c.Sane() && Transmits(c, tx)
    ensures Tracked(c, tx, EMPTY, [], block, {})
  {
  }

  // ----- one step, exactly -----

  /** The fragment is the k-th different one of its block. */
  ghost predicate Completes(c: Config, w: Window, p: Packet)
    requires Valid(c, w) && p.frag < c.n
  {
    if IsLive(w, p.block) then
      var frags := w.blocks[PlaceIn(w, p.block)].frags;
      p.frag < |frags| && frags[p.frag].None? && Has(frags) == c.k - 1
    else (w.last.None? || p.block > w.last.value) && c.k == 1
  }

  /** Blocks become live up to a newer one. A live block leaves exactly if a block a whole ring ahead of it arrives, or
      its own k-th fragment or that of a newer block. */
  lemma StepLives(c: Config, w: Window, p: Packet, block: nat)
    requires Valid(c, w) && p.frag < c.n && |p.bytes| == c.len
    ensures IsLive(Step(c, w, p).0, block) <==>
            && (|| IsLive(w, block)
                || ((w.last.None? || p.block > w.last.value)
                    && (block == p.block || (w.last.Some? && w.last.value < block < p.block))))
            && (w.last.None? || p.block > w.last.value ==> p.block < block + c.ring)
            && !(Completes(c, w, p) && block <= p.block)
  {
    hide Valid, Store, Admit, Has, FlushAll, BlockAtRest;
    ValidSizes(c, w) by { hide *; }
    FindsLive(c, w, p.block);
    match Find(w.blocks, p.block)
    case Some(pos) =>
      StoreLives(c, w, pos, p, block);
    case None =>
      if !(w.last.Some? && p.block <= w.last.value) {
        var w1 := Admit(c, w, p.block);
        AdmitValid(c, w, p.block);
        AdmitExact(c, w, p.block);
        FreshIdx(c, p.block);
        FreshHas(c, p.block, p.frag);
        StoreLives(c, w1, |w1.blocks| - 1, p, block);
      }
  }

  lemma FreshHas(c: Config, block: nat, f: nat)
    requires f < c.n
    ensures Has(FreshBlock(c, block).frags) == 0 && FreshBlock(c, block).frags[f].None?
  {
    CountNone(FreshBlock(c, block).frags, 0, c.n);
  }

  lemma HasOneMore(frags: Fragments, f: nat, v: Vec)
    requires f < |frags| && frags[f].None?
    ensures Has(frags[f := Some(v)]) == Has(frags) + 1
  {
    CountSet(frags, f, v, 0, |frags|);
  }

  lemma StoreLives(c: Config, w: Window, pos: nat, p: Packet, block: nat)
    requires Valid(c, w) && pos < |w.blocks| && p.frag < c.n && |p.bytes| == c.len && w.blocks[pos].idx == p.block
    ensures |w.blocks[pos].frags| == c.n
    ensures var frags := w.blocks[pos].frags;
            IsLive(Store(c, w, pos, p).0, block) <==>
            IsLive(w, block) && !(frags[p.frag].None? && Has(frags) == c.k - 1 && block <= p.block)
  {
    hide Valid, Has, FlushRange, FlushAll, EmitCompleted, RunEnd;
    FilledBlockSize(c, w, pos);
    FindsLive(c, w, block);
    FindsLive(c, w, p.block);
    if w.blocks[pos].frags[p.frag].None? {
      HasOneMore(w.blocks[pos].frags, p.frag, p.bytes);
      hide Store;
      if Has(w.blocks[pos].frags) == c.k - 1 {
        StoreCompletes(c, w, pos, p, Emission(0, 0, []));
      } else {
        StoreWaits(c, w, pos, p, Emission(0, 0, []));
      }
    }
  }

  /** Of another block, a step sends exactly what waits in it if the block leaves with the step. */
  lemma StepFlushes(c: Config, w: Window, p: Packet, e: Emission)
    requires Valid(c, w) && p.frag < c.n && |p.bytes| == c.len && e.block != p.block
    ensures e in Step(c, w, p).1 <==>
            IsLive(w, e.block) && !IsLive(Step(c, w, p).0, e.block) && WaitsIn(w.blocks[PlaceIn(w, e.block)], c.k, e)
  {
    hide Valid, Store, Admit, Has, FlushAll, BlockAtRest, WaitsIn;
    ValidSizes(c, w) by { hide *; }
    FindsLive(c, w, p.block);
    FindsLive(c, w, e.block);
    match Find(w.blocks, p.block)
    case Some(pos) =>
      StoreLives(c, w, pos, p, e.block);
      StoreFlushes(c, w, pos, p, e);
    case None =>
      if !(w.last.Some? && p.block <= w.last.value) {
        var w1 := Admit(c, w, p.block);
        AdmitValid(c, w, p.block);
        FreshIdx(c, p.block);
        AdmitFlushes(c, w, p.block, e);
        StoreLives(c, w1, |w1.blocks| - 1, p, e.block);
        StoreFlushes(c, w1, |w1.blocks| - 1, p, e);
      }
  }

  /** What is sent to make room is what waits in the blocks that leave, and what waits in the others still does. */
  lemma AdmitFlushes(c: Config, w: Window, newest: nat, e: Emission)
    requires Valid(c, w) && (w.last.Some? ==> newest > w.last.value) && e.block != newest
    ensures |w.blocks| <= c.ring && c.ring >= 1 && forall j :: 0 <= j < |w.blocks| ==> c.k <= |w.blocks[j].frags|
    ensures e in FlushAll(w.blocks[..Evicted(c, w, newest)], c.k) <==>
            && IsLive(w, e.block) && !IsLive(Admit(c, w, newest), e.block)
            && WaitsIn(w.blocks[PlaceIn(w, e.block)], c.k, e)
    ensures var w1 := Admit(c, w, newest);
            IsLive(w1, e.block) && WaitsIn(w1.blocks[PlaceIn(w1, e.block)], c.k, e) ==> IsLive(w, e.block)
    ensures var w1 := Admit(c, w, newest);
            IsLive(w1, e.block) && IsLive(w, e.block) ==>
              w1.blocks[PlaceIn(w1, e.block)] == w.blocks[PlaceIn(w, e.block)]
  {
    hide Valid, Admit, FlushAll, BlockAtRest, WaitsIn, Evicted;
    ValidSizes(c, w) by { hide *; }
    FlushAllIff(w.blocks[..Evicted(c, w, newest)], c.k, e);
    EvictedWaits(c, w, Evicted(c, w, newest), e);
    if IsLive(w, e.block) {
      AdmitLeaves(c, w, newest, e.block);
    }
    AdmitKeepsOthers(c, w, newest, e.block);
    if IsLive(Admit(c, w, newest), e.block) && !IsLive(w, e.block) {
      FreshWaits(FreshBlock(c, e.block), c.k, e);
    }
  }

  lemma AdmitLeaves(c: Config, w: Window, newest: nat, block: nat)
    requires Valid(c, w) && (w.last.Some? ==> newest > w.last.value) && IsLive(w, block)
    ensures |w.blocks| <= c.ring && c.ring >= 1
    ensures !IsLive(Admit(c, w, newest), block) <==> PlaceIn(w, block) < Evicted(c, w, newest)
  {
    hide Valid, Admit, BlockAtRest, Evicted;
    AdmitValid(c, w, newest);
    AdmitExact(c, w, newest);
    EvictedExact(c, w, newest);
    FindsLive(c, w, block);
  }

  lemma FreshWaits(b: Block, k: nat, e: Emission)
    requires forall f :: 0 <= f < |b.frags| ==> b.frags[f].None?
    ensures !WaitsIn(b, k, e)
  {
  }

  /** Something waits in one of the first blocks exactly if its own block is one of them. */
  lemma EvictedWaits(c: Config, w: Window, n: nat, e: Emission)
    requires Valid(c, w) && n <= |w.blocks|
    ensures (exists j :: 0 <= j < n && WaitsIn(w.blocks[j], c.k, e)) <==>
            IsLive(w, e.block) && PlaceIn(w, e.block) < n && WaitsIn(w.blocks[PlaceIn(w, e.block)], c.k, e)
  {
    hide Valid;
    FindsLive(c, w, e.block);
  }

  lemma StoreFlushes(c: Config, w: Window, pos: nat, p: Packet, e: Emission)
    requires Valid(c, w) && pos < |w.blocks| && p.frag < c.n && |p.bytes| == c.len
    requires w.blocks[pos].idx == p.block != e.block
    ensures e in Store(c, w, pos, p).1 <==>
            IsLive(w, e.block) && !IsLive(Store(c, w, pos, p).0, e.block)
            && WaitsIn(w.blocks[PlaceIn(w, e.block)], c.k, e)
  {
    hide Valid, Has, FlushRange, FlushAll, EmitCompleted, RunEnd, WaitsIn;
    FilledBlockSize(c, w, pos);
    FindsLive(c, w, e.block);
    FindsLive(c, w, p.block);
    if w.blocks[pos].frags[p.frag].None? {
      hide Store;
      EvictedWaits(c, w, pos, e);
      if Has(w.blocks[pos].frags[p.frag := Some(p.bytes)]) == c.k {
        StoreCompletes(c, w, pos, p, e);
      } else {
        StoreWaits(c, w, pos, p, e);
      }
    }
  }

  /** The block as a fragment of it finds it: where it is live, or fresh. */
  ghost function Met(c: Config, w: Window, block: nat): (b: Block) {
    if IsLive(w, block) then w.blocks[PlaceIn(w, block)] else FreshBlock(c, block)
  }

  /** Of its own block, a fragment that is neither late nor a duplicate sends, as the k-th, every primary not yet
      sent; else, if the block is then the oldest, the primaries up to the first gap; else nothing. */
  lemma StepSends(c: Config, w: Window, p: Packet, e: Emission)
    requires Valid(c, w) && p.frag < c.n && |p.bytes| == c.len && e.block == p.block
    requires !TooLate(w, p) && !Duplicate(w, p)
    ensures |Met(c, w, p.block).frags| == c.n
    ensures var b := Met(c, w, p.block);
            var frags := b.frags[p.frag := Some(p.bytes)];
            var (w', out) := Step(c, w, p);
            if Completes(c, w, p)
            then && c.k <= c.n && Sized(frags, c.len) && Has(frags) == c.k
                 && (e in out <==> b.next <= e.frag < c.k && e.bytes == CompletedPacket(frags, c.k, c.len, e.frag))
            else && c.k <= c.n && IsLive(w', p.block) && w'.blocks[PlaceIn(w', p.block)].frags == frags
                 && (e in out <==> && PlaceIn(w', p.block) == 0 && b.next <= e.frag < c.k
                                   && (forall f :: b.next <= f <= e.frag ==> frags[f].Some?)
                                   && frags[e.frag] == Some(e.bytes))
  {
    hide Valid, Store, Admit, Has, FlushAll, BlockAtRest, CompletedPacket;
    ValidSizes(c, w) by { hide *; }
    FindsLive(c, w, p.block);
    match Find(w.blocks, p.block)
    case Some(pos) => StoreSends(c, w, pos, p, e);
    case None =>
      var w1 := Admit(c, w, p.block);
      AdmitValid(c, w, p.block);
      FreshIdx(c, p.block);
      FreshHas(c, p.block, p.frag);
      FlushedAreOthers(c, w, p.block, e);
      StoreSends(c, w1, |w1.blocks| - 1, p, e);
  }

  lemma FlushedAreOthers(c: Config, w: Window, newest: nat, e: Emission)
    requires Valid(c, w) && (w.last.Some? ==> newest > w.last.value) && e.block == newest
    ensures |w.blocks| <= c.ring && c.ring >= 1 && forall j :: 0 <= j < |w.blocks| ==> c.k <= |w.blocks[j].frags|
    ensures e !in FlushAll(w.blocks[..Evicted(c, w, newest)], c.k)
  {
    hide Valid, FlushAll, BlockAtRest;
    ValidSizes(c, w) by { hide *; }
    FindsLive(c, w, newest);
    FlushAllIff(w.blocks[..Evicted(c, w, newest)], c.k, e);
  }

  lemma StoreSends(c: Config, w: Window, pos: nat, p: Packet, e: Emission)
    requires Valid(c, w) && pos < |w.blocks| && p.frag < c.n && |p.bytes| == c.len
    requires w.blocks[pos].idx == p.block == e.block
    requires p.frag < |w.blocks[pos].frags| ==> w.blocks[pos].frags[p.frag].None?
    ensures |w.blocks[pos].frags| == c.n
    ensures var b := w.blocks[pos];
            var frags := b.frags[p.frag := Some(p.bytes)];
            var (w', out) := Store(c, w, pos, p);
            if Has(b.frags) == c.k - 1
            then && c.k <= c.n && Sized(frags, c.len) && Has(frags) == c.k
                 && (e in out <==> b.next <= e.frag < c.k && e.bytes == CompletedPacket(frags, c.k, c.len, e.frag))
            else && c.k <= c.n && IsLive(w', p.block) && w'.blocks[PlaceIn(w', p.block)].frags == frags
                 && (e in out <==> && PlaceIn(w', p.block) == 0 && b.next <= e.frag < c.k
                                   && (forall f :: b.next <= f <= e.frag ==> frags[f].Some?)
                                   && frags[e.frag] == Some(e.bytes))
  {
    hide Valid, Has, Store, CompletedPacket;
    FilledBlockSize(c, w, pos);
    FindsLive(c, w, p.block);
    HasOneMore(w.blocks[pos].frags, p.frag, p.bytes);
    if Has(w.blocks[pos].frags) == c.k - 1 {
      StoreCompletes(c, w, pos, p, e);
      OlderAreOthers(c, w, pos, e);
    } else {
      StoreWaits(c, w, pos, p, e);
    }
  }

  lemma OlderAreOthers(c: Config, w: Window, pos: nat, e: Emission)
    requires Valid(c, w) && pos < |w.blocks| && w.blocks[pos].idx == e.block
    ensures forall j :: 0 <= j < pos ==> !WaitsIn(w.blocks[j], c.k, e)
  {
    hide Valid;
    FindsLive(c, w, e.block);
  }

  /** A late fragment and a duplicate change nothing and send nothing. */
  lemma StepIgnores(c: Config, w: Window, p: Packet)
    requires Valid(c, w) && p.frag < c.n && |p.bytes| == c.len
    requires TooLate(w, p) || Duplicate(w, p)
    ensures Step(c, w, p) == (w, [])
  {
    hide Valid, BlockAtRest;
  }

  /** A step leaves the other blocks that stay live as they are; those that become live have brought nothing yet. */
  lemma StepKeepsOthers(c: Config, w: Window, p: Packet, block: nat)
    requires Valid(c, w) && p.frag < c.n && |p.bytes| == c.len && block != p.block
    ensures var w' := Step(c, w, p).0;
            && w'.last == (if w.last.None? || p.block > w.last.value then Some(p.block) else w.last)
            && (IsLive(w', block) ==> Met(c, w', block) == Met(c, w, block))
  {
    hide Valid, Store, Admit, Has, FlushAll, BlockAtRest, FreshBlock;
    ValidSizes(c, w) by { hide *; }
    FindsLive(c, w, p.block);
    match Find(w.blocks, p.block)
    case Some(pos) => StoreKeeps(c, w, pos, p, block);
    case None =>
      if !(w.last.Some? && p.block <= w.last.value) {
        var w1 := Admit(c, w, p.block);
        AdmitValid(c, w, p.block);
        FreshIdx(c, p.block);
        AdmitKeepsOthers(c, w, p.block, block);
        StoreKeeps(c, w1, |w1.blocks| - 1, p, block);
      }
  }

  lemma AdmitKeepsOthers(c: Config, w: Window, newest: nat, block: nat)
    requires Valid(c, w) && (w.last.Some? ==> newest > w.last.value)
    ensures var w1 := Admit(c, w, newest);
            w1.last == Some(newest) && (IsLive(w1, block) ==> Met(c, w1, block) == Met(c, w, block))
  {
    hide Valid, Admit, BlockAtRest;
    AdmitExact(c, w, newest);
  }

  lemma StoreKeeps(c: Config, w: Window, pos: nat, p: Packet, block: nat)
    requires Valid(c, w) && pos < |w.blocks| && p.frag < c.n && |p.bytes| == c.len
    requires w.blocks[pos].idx == p.block != block
    ensures var w' := Store(c, w, pos, p).0;
            w'.last == w.last && (IsLive(w', block) ==> IsLive(w, block) && Met(c, w', block) == Met(c, w, block))
  {
    hide Valid, Has, FlushRange, FlushAll, EmitCompleted, RunEnd, FreshBlock;
    FilledBlockSize(c, w, pos);
    FindsLive(c, w, p.block);
    if w.blocks[pos].frags[p.frag].None? {
      hide Store;
      if Has(w.blocks[pos].frags[p.frag := Some(p.bytes)]) == c.k {
        StoreCompletes(c, w, pos, p, Emission(0, 0, []));
      } else {
        StoreWaits(c, w, pos, p, Emission(0, 0, []));
      }
    }
  }
}
