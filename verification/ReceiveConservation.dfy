/** No primary packet that the receive window takes in is ever dropped: it is sent, or still waits in a live block. */
module ReceiveConservation {
  import opened ReceiveWindow
  import opened Wrappers

  /** The block holds this primary packet and has yet to send it. */
  ghost predicate WaitsIn(b: Block, k: nat, e: Emission) {
    b.idx == e.block && b.next <= e.frag < k <= |b.frags| && b.frags[e.frag] == Some(e.bytes)
  }

  ghost predicate Waiting(c: Config, w: Window, e: Emission) {
    exists j :: 0 <= j < |w.blocks| && WaitsIn(w.blocks[j], c.k, e)
  }

  lemma {:induction false} FlushRangeHas(b: Block, lo: nat, hi: nat, f: nat)
    requires lo <= f < hi <= |b.frags| && b.frags[f].Some?
    ensures Emission(b.idx, f, b.frags[f].value) in FlushRange(b, lo, hi)
    decreases hi - lo
  {
    if lo == f {
    } else {
      FlushRangeHas(b, lo + 1, hi, f);
    }
  }

  lemma {:induction false} FlushAllHas(bs: seq<Block>, k: nat, j: nat, e: Emission)
    requires j < |bs| && WaitsIn(bs[j], k, e) && forall i :: 0 <= i < |bs| ==> k <= |bs[i].frags|
    ensures e in FlushAll(bs, k)
    decreases j
  {
    if j == 0 {
      FlushRangeHas(bs[0], bs[0].next, k, e.frag);
    } else {
      FlushAllHas(bs[1..], k, j - 1, e);
    }
  }

  lemma {:induction false} EmitCompletedHas(b: Block, k: nat, len: nat, lo: nat, f: nat)
    requires lo <= f < k <= |b.frags| && Has(b.frags) >= k && Sized(b.frags, len) && b.frags[f].Some?
    ensures Emission(b.idx, f, b.frags[f].value) in EmitCompleted(b, k, len, lo)
    decreases k - lo
  {
    hide Has, FecIndex, DecodeInputs;
    if lo == f {
    } else {
      EmitCompletedHas(b, k, len, lo + 1, f);
    }
  }

  /** The packet is stored as this emission. */
  ghost predicate Taken(w: Window, pos: nat, p: Packet, e: Emission)
    requires pos < |w.blocks|
  {
    var b := w.blocks[pos];
    && e == Emission(p.block, p.frag, p.bytes) && b.idx == p.block && b.next <= p.frag < |b.frags|
       && b.frags[p.frag].None?
  }

  lemma StoreKeeps(c: Config, w: Window, pos: nat, p: Packet, e: Emission)
    requires Valid(c, w) && pos < |w.blocks| && p.frag < c.n && |p.bytes| == c.len && e.frag < c.k
    requires Waiting(c, w, e) || Taken(w, pos, p, e)
    ensures Waiting(c, Store(c, w, pos, p).0, e) || e in Store(c, w, pos, p).1
  {
    hide Has, Valid, FlushRange, FlushAll, EmitCompleted, RunEnd, Waiting, WaitsIn;
    ValidSizes(c, w);
    var b := w.blocks[pos];
    if b.frags[p.frag].None? {
      if Taken(w, pos, p, e) {
        StoreKeepsOwn(c, w, pos, p, e);
      } else {
        var j := WaitsAt(c, w, e);
        if j == pos {
          StoredWaits(c, b, p, e);
          StoreKeepsOwn(c, w, pos, p, e);
        } else {
          StoreKeepsOther(c, w, pos, p, e, j);
        }
      }
    }
  }

  lemma WaitsAt(c: Config, w: Window, e: Emission) returns (j: nat)
    requires Waiting(c, w, e)
    ensures j < |w.blocks| && WaitsIn(w.blocks[j], c.k, e)
  {
    j :| 0 <= j < |w.blocks| && WaitsIn(w.blocks[j], c.k, e);
  }

  lemma StoredWaits(c: Config, b: Block, p: Packet, e: Emission)
    requires WaitsIn(b, c.k, e) && p.frag < |b.frags| && b.frags[p.frag].None?
    ensures WaitsIn(b.(frags := b.frags[p.frag := Some(p.bytes)]), c.k, e)
  {
  }

  /** A packet of the block stored into, whether it waited there or has just arrived. */
  lemma StoreKeepsOwn(c: Config, w: Window, pos: nat, p: Packet, e: Emission)
    requires Valid(c, w) && pos < |w.blocks| && p.frag < c.n && |p.bytes| == c.len && e.frag < c.k
    requires |w.blocks[pos].frags| == c.n && w.blocks[pos].frags[p.frag].None?
    requires var b := w.blocks[pos];
             WaitsIn(b, c.k, e) || (e == Emission(b.idx, p.frag, p.bytes) && b.next <= p.frag)
    ensures Waiting(c, Store(c, w, pos, p).0, e) || e in Store(c, w, pos, p).1
  {
    hide Has, Valid, FlushRange, FlushAll, EmitCompleted;
    ValidSizes(c, w);
    var b := w.blocks[pos];
    var frags := b.frags[p.frag := Some(p.bytes)];
    var end := if pos == 0 then RunEnd(frags, b.next, c.k) else b.next;
    var b' := b.(frags := frags, next := end);
    assert frags[e.frag] == Some(e.bytes);
    if e.frag < end {
      FlushRangeHas(b.(frags := frags), b.next, end, e.frag);
    } else if Has(frags) == c.k {
      EmitCompletedHas(b', c.k, c.len, end, e.frag);
    } else {
      assert WaitsIn(w.blocks[pos := b'][pos], c.k, e);
    }
  }

  /** A packet that waits in another block. */
  lemma StoreKeepsOther(c: Config, w: Window, pos: nat, p: Packet, e: Emission, j: nat)
    requires Valid(c, w) && pos < |w.blocks| && p.frag < c.n && |p.bytes| == c.len
    requires |w.blocks[pos].frags| == c.n && w.blocks[pos].frags[p.frag].None?
    requires j < |w.blocks| && j != pos && WaitsIn(w.blocks[j], c.k, e)
    ensures Waiting(c, Store(c, w, pos, p).0, e) || e in Store(c, w, pos, p).1
  {
    hide Has, Valid, FlushRange, FlushAll, EmitCompleted, RunEnd, WaitsIn;
    ValidSizes(c, w);
    var b := w.blocks[pos];
    var frags := b.frags[p.frag := Some(p.bytes)];
    var end := if pos == 0 then RunEnd(frags, b.next, c.k) else b.next;
    if end == c.k {
      assert w.blocks[1..][j - 1] == w.blocks[j];
    } else if Has(frags) == c.k {
      if j < pos {
        FlushAllHas(w.blocks[..pos], c.k, j, e);
      } else {
        assert w.blocks[pos + 1..][j - pos - 1] == w.blocks[j];
      }
    } else {
      assert w.blocks[pos := b.(frags := frags, next := end)][j] == w.blocks[j];
    }
  }

  lemma AdmitKeeps(c: Config, w: Window, block: nat, e: Emission)
    requires Valid(c, w) && (w.last.Some? ==> block > w.last.value) && Waiting(c, w, e)
    ensures c.Sane() && |w.blocks| <= c.ring && forall j :: 0 <= j < |w.blocks| ==> c.k <= |w.blocks[j].frags|
    ensures Waiting(c, Admit(c, w, block), e) || e in FlushAll(w.blocks[..Evicted(c, w, block)], c.k)
  {
    hide Has, FlushAll, WaitsIn, BlockAtRest;
    ValidSizes(c, w);
    var drop := Evicted(c, w, block);
    var j := WaitsAt(c, w, e);
    if j < drop {
      FlushAllHas(w.blocks[..drop], c.k, j, e);
    } else {
      assert Admit(c, w, block).blocks[j - drop] == w.blocks[j];
    }
  }

  /** The block has left the window, or was passed over. */
  ghost predicate TooLate(w: Window, p: Packet) {
    Find(w.blocks, p.block).None? && w.last.Some? && p.block <= w.last.value
  }

  ghost predicate Duplicate(w: Window, p: Packet) {
    match Find(w.blocks, p.block)
    case Some(pos) => p.frag < |w.blocks[pos].frags| && w.blocks[pos].frags[p.frag].Some?
    case None => false
  }

  lemma StepKeeps(c: Config, w: Window, p: Packet, e: Emission)
    requires Valid(c, w) && p.frag < c.n && |p.bytes| == c.len && e.frag < c.k && Waiting(c, w, e)
    ensures Waiting(c, Step(c, w, p).0, e) || e in Step(c, w, p).1
  {
    hide Valid, Store, Waiting, Admit, FlushAll;
    match Find(w.blocks, p.block) {
      case Some(pos) => StoreKeeps(c, w, pos, p, e);
      case None =>
        if !(w.last.Some? && p.block <= w.last.value) {
          AdmitValid(c, w, p.block);
          AdmitKeeps(c, w, p.block, e);
          var w' := Admit(c, w, p.block);
          if Waiting(c, w', e) {
            StoreKeeps(c, w', |w'.blocks| - 1, p, e);
          }
        }
    }
  }

  /** A primary packet that is neither late nor a duplicate is sent at once or waits. */
  lemma StepTakes(c: Config, w: Window, p: Packet)
    requires Valid(c, w) && p.frag < c.k && p.frag < c.n && |p.bytes| == c.len && !TooLate(w, p) && !Duplicate(w, p)
    ensures var e := Emission(p.block, p.frag, p.bytes); Waiting(c, Step(c, w, p).0, e) || e in Step(c, w, p).1
  {
    hide Has, Valid, Store, Waiting, Admit, FlushAll, BlockAtRest;
    var e := Emission(p.block, p.frag, p.bytes);
    match Find(w.blocks, p.block) {
      case Some(pos) =>
        NextIsMissing(c, w, pos, p.frag);
        StoreKeeps(c, w, pos, p, e);
      case None =>
        ValidSizes(c, w);
        AdmitValid(c, w, p.block);
        FreshIdx(c, p.block);
        var w' := Admit(c, w, p.block);
        StoreKeeps(c, w', |w'.blocks| - 1, p, e);
    }
  }

  /** A fragment that has not arrived has not been passed either. */
  lemma NextIsMissing(c: Config, w: Window, pos: nat, f: nat)
    requires Valid(c, w) && pos < |w.blocks| && f < c.n
    requires f < |w.blocks[pos].frags| ==> w.blocks[pos].frags[f].None?
    ensures |w.blocks[pos].frags| == c.n && w.blocks[pos].next <= f && w.blocks[pos].frags[f].None?
  {
    hide Has;
  }

  lemma {:induction false} RunKeeps(c: Config, w: Window, ps: seq<Packet>, e: Emission)
    requires Valid(c, w) && PacketsFit(c, ps) && e.frag < c.k && Waiting(c, w, e)
    ensures Waiting(c, Run(c, w, ps).0, e) || e in Run(c, w, ps).1
    decreases |ps|
  {
    hide Valid, Step, Waiting;
    if ps == [] {
    } else {
      StepValid(c, w, ps[0]);
      StepKeeps(c, w, ps[0], e);
      if Waiting(c, Step(c, w, ps[0]).0, e) {
        RunKeeps(c, Step(c, w, ps[0]).0, ps[1..], e);
      }
    }
  }

  /** Over any run: a primary packet that arrived neither late nor twice has been sent or still waits in a live
      block. */
  lemma {:induction false} NothingWithheld(c: Config, ps: seq<Packet>, i: nat)
    requires Valid(c, EMPTY) && PacketsFit(c, ps) && i < |ps| && ps[i].frag < c.k
    requires PacketsFit(c, ps[..i])
    requires !TooLate(Run(c, EMPTY, ps[..i]).0, ps[i]) && !Duplicate(Run(c, EMPTY, ps[..i]).0, ps[i])
    ensures var e := Emission(ps[i].block, ps[i].frag, ps[i].bytes);
            Waiting(c, Run(c, EMPTY, ps).0, e) || e in Run(c, EMPTY, ps).1
  {
    hide Valid, Step, Waiting, TooLate, Duplicate;
    var p, before, rest := ps[i], ps[..i], ps[i + 1..];
    var w := Run(c, EMPTY, before).0;
    assert ps == before + ([p] + rest) && ([p] + rest)[1..] == rest;
    RunConcat(c, EMPTY, before, [p] + rest);
    StepValid(c, w, p);
    StepTakes(c, w, p);
    var e := Emission(p.block, p.frag, p.bytes);
    if Waiting(c, Step(c, w, p).0, e) {
      RunKeeps(c, Step(c, w, p).0, rest, e);
    }
  }
}
