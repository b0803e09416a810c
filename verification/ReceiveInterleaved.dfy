/** Blocks whose fragments interleave: as long as they stay within the ring and become decodable in ascending order,
    nothing of them is lost. */
module ReceiveInterleaved {
  import opened FecCodec
  import opened ReceiveWindow
  import opened ReceiveTheorems
  import opened Wrappers

  /** The fragments of a block that a run brings. */
  ghost function Came(ps: seq<Packet>, block: nat): (got: set<nat>)
    ensures forall f :: f in got ==> exists i :: 0 <= i < |ps| && ps[i].block == block && ps[i].frag == f
  {
    if ps == [] then {}
    else
      var p := ps[|ps| - 1];
      Came(ps[..|ps| - 1], block) + if p.block == block then {p.frag} else {}
  }

  /** The first block, from `first` on, of which fewer than k fragments have come. */
  ghost function Base(c: Config, first: nat, ps: seq<Packet>): (base: nat)
    ensures base >= first
  {
    if ps == [] then first
    else
      var base := Base(c, first, ps[..|ps| - 1]);
      if |Came(ps, base)| >= c.k then base + 1 else base
  }

  /** The run begins with block `first`; no fragment is a whole ring ahead of the oldest unfinished block; and a
      block gets its k-th fragment only when all older ones have theirs. */
  ghost predicate Orderly(c: Config, first: nat, ps: seq<Packet>) {
    ps != [] ==>
      var before, p := ps[..|ps| - 1], ps[|ps| - 1];
      && Orderly(c, first, before) && (before == [] ==> p.block == first)
      && p.block < Base(c, first, before) + c.ring
      && (|Came(ps, p.block)| >= c.k ==> p.block <= Base(c, first, before))
  }

  lemma CameSnoc(ps: seq<Packet>, p: Packet, block: nat)
    ensures Came(ps + [p], block) == Came(ps, block) + if p.block == block then {p.frag} else {}
  {
    assert (ps + [p])[..|ps|] == ps;
  }

  /** The block holds exactly these fragments, all of them authentic. */
  ghost predicate Holds(c: Config, tx: Transmitter, b: Block, got: set<nat>)
    requires Transmits(c, tx)
  {
    && |b.frags| == c.n && BlockAuthentic(c, tx, b)
    && (forall f :: f in got ==> f < c.n) && (forall f :: 0 <= f < c.n ==> (b.frags[f].Some? <==> f in got))
  }

  /** The live blocks are those from base on, each with what has come of it, and nothing has come of later ones. */
  ghost predicate Tracks(c: Config, tx: Transmitter, w: Window, base: nat, ps: seq<Packet>)
    requires Transmits(c, tx)
  {
    && Valid(c, w) && w.last.Some? && base + |w.blocks| == w.last.value + 1
    && (forall j :: 0 <= j < |w.blocks| ==> Holds(c, tx, w.blocks[j], Came(ps, base + j)))
    && forall b: nat :: b > w.last.value ==> Came(ps, b) == {}
  }

  ghost function NextOf(w: Window): (next: nat) {
    if w.blocks == [] then 0 else w.blocks[0].next
  }

  /** Nothing that is live is decodable. */
  lemma TracksSmall(c: Config, tx: Transmitter, w: Window, base: nat, ps: seq<Packet>, j: nat)
    requires Transmits(c, tx) && Tracks(c, tx, w, base, ps) && j < |w.blocks|
    ensures |Came(ps, base + j)| < c.k && w.blocks[j].idx == base + j && w.blocks[j].next < c.k
    ensures forall f :: 0 <= f < w.blocks[j].next ==> w.blocks[j].frags[f].Some?
  {
    hide Count, Codeword, Came;
    CountIsSize(w.blocks[j].frags, Came(ps, base + j), 0);
  }

  lemma BaseSmall(c: Config, tx: Transmitter, w: Window, base: nat, ps: seq<Packet>)
    requires Transmits(c, tx) && Tracks(c, tx, w, base, ps)
    ensures |Came(ps, base)| < c.k && NextOf(w) < c.k
  {
    hide BlockAtRest, Came;
    if w.blocks != [] {
      TracksSmall(c, tx, w, base, ps, 0);
    }
  }

  lemma HoldsMore(c: Config, tx: Transmitter, b: Block, got: set<nat>, p: Packet, next: nat)
    requires Transmits(c, tx) && Holds(c, tx, b, got) && Authentic(c, tx, p) && p.block == b.idx
    requires p.frag < |b.frags| && b.frags[p.frag].None?
    ensures Holds(c, tx, b.(frags := b.frags[p.frag := Some(p.bytes)], next := next), got + {p.frag})
    ensures BlockAuthentic(c, tx, b.(frags := b.frags[p.frag := Some(p.bytes)]))
  {
    hide Codeword;
  }

  /** What storing a fragment into live block j does. */
  ghost predicate Took(c: Config, tx: Transmitter, w: Window, base: nat, ps: seq<Packet>, p: Packet, w': Window,
                         out: seq<Emission>)
    requires Transmits(c, tx) && NextOf(w) <= c.k
  {
    if |Came(ps + [p], base)| >= c.k
    then Tracks(c, tx, w', base + 1, ps + [p]) && NextOf(w') == 0 && out == Primaries(c, tx, base, NextOf(w), c.k)
    else && Tracks(c, tx, w', base, ps + [p]) && NextOf(w) <= NextOf(w') <= c.k
         && out == Primaries(c, tx, base, NextOf(w), NextOf(w'))
  }

  /** A fragment that changes no live block: a duplicate, or one of a finished block. */
  lemma TracksIgnored(c: Config, tx: Transmitter, w: Window, base: nat, ps: seq<Packet>, p: Packet)
    requires Transmits(c, tx) && Tracks(c, tx, w, base, ps) && w.last.Some? && p.block <= w.last.value
    requires p.block >= base ==> p.frag in Came(ps, p.block)
    ensures NextOf(w) < c.k && Took(c, tx, w, base, ps, p, w, [])
  {
    hide Valid, Holds, Came;
    BaseSmall(c, tx, w, base, ps);
    CameSnoc(ps, p, base);
    assert Came(ps, base) + {} == Came(ps, base);
    assert base == p.block ==> Came(ps, base) + {p.frag} == Came(ps, base);
    forall b: nat | b >= base
      ensures Came(ps + [p], b) == Came(ps, b)
    {
      CameSnoc(ps, p, b);
    }
    assert Primaries(c, tx, base, NextOf(w), NextOf(w)) == [];
  }

  /** What storing into the oldest live block comes to. */
  lemma FrontStore(c: Config, w: Window, p: Packet, frags: Fragments, end: nat)
    requires Valid(c, w) && w.blocks != [] && p.frag < c.n && |p.bytes| == c.len
    requires |w.blocks[0].frags| == c.n && w.blocks[0].frags[p.frag].None?
    requires frags == w.blocks[0].frags[p.frag := Some(p.bytes)]
    requires w.blocks[0].next <= c.k <= c.n && end == RunEnd(frags, w.blocks[0].next, c.k)
    requires Sized(frags, c.len)
    ensures var b := w.blocks[0];
            var run := FlushRange(b.(frags := frags), b.next, end);
            Store(c, w, 0, p) ==
            if end == c.k then (w.(blocks := w.blocks[1..]), run)
            else if Has(frags) == c.k then
              (w.(blocks := w.blocks[1..]),
               run + EmitCompleted(b.(frags := frags, next := end), c.k, c.len, end))
            else (w.(blocks := w.blocks[0 := b.(frags := frags, next := end)]), run)
  {
    hide FlushRange, EmitCompleted, RunEnd, Has, Valid;
    assert w.blocks[..0] == [];
    var b := w.blocks[0];
    var run := FlushRange(b.(frags := frags), b.next, end);
    if end != c.k && Has(frags) == c.k {
      var rest := EmitCompleted(b.(frags := frags, next := end), c.k, c.len, end);
      assert run + [] + rest == run + rest;
    }
  }

  /** A fragment that had not come, of the oldest live block. */
  lemma StoreFront(c: Config, tx: Transmitter, w: Window, base: nat, ps: seq<Packet>, p: Packet)
    requires Transmits(c, tx) && Tracks(c, tx, w, base, ps) && Authentic(c, tx, p) && |p.bytes| == c.len
    requires w.blocks != [] && p.block == base && p.frag < |w.blocks[0].frags| && w.blocks[0].frags[p.frag].None?
    ensures Valid(c, w) && p.frag < c.n && NextOf(w) < c.k
    ensures Took(c, tx, w, base, ps, p, Store(c, w, 0, p).0, Store(c, w, 0, p).1)
  {
    hide FlushRange, EmitCompleted, RunEnd, Count, Codeword, BlockAuthentic, Valid, Primaries, Came, Holds, Tracks,
         Authentic, Store, Sized, Transmits;
    BaseSmall(c, tx, w, base, ps);
    FrontHolds(c, tx, w, base, ps);
    TracksSmall(c, tx, w, base, ps, 0);
    ValidSizes(c, w);
    StoreValid(c, w, 0, p);
    StoredSizes(c, w, p);
    var b, got := w.blocks[0], Came(ps, base);
    var frags := b.frags[p.frag := Some(p.bytes)];
    var end := RunEnd(frags, b.next, c.k);
    var b1, b' := b.(frags := frags), b.(frags := frags, next := end);
    FrontStore(c, w, p, frags, end);
    CameSnoc(ps, p, base);
    HoldsMore(c, tx, b, got, p, end);
    HoldsCount(c, tx, b', got + {p.frag});
    HoldsBlock(c, tx, b', got + {p.frag});
    FlushIsPrimaries(c, tx, b1, b.next, end);
    if end == c.k {
      PrefixCount(c, w, frags);
      TracksPopped(c, tx, w, base, ps, p);
    } else if Has(frags) == c.k {
      CompletedIsPrimaries(c, tx, b', end);
      PrimariesJoin(c, tx, base, b.next, end, c.k);
      TracksPopped(c, tx, w, base, ps, p);
    } else {
      CountOne(c, tx, b, got, p);
      TracksSet(c, tx, w, base, ps, p, 0, b');
    }
  }

  lemma FrontHolds(c: Config, tx: Transmitter, w: Window, base: nat, ps: seq<Packet>)
    requires Transmits(c, tx) && Tracks(c, tx, w, base, ps) && w.blocks != []
    ensures Valid(c, w) && Holds(c, tx, w.blocks[0], Came(ps, base)) && c.Sane()
  {
    hide BlockAtRest, Holds, Came;
    assert Holds(c, tx, w.blocks[0], Came(ps, base + 0));
  }

  lemma HoldsCount(c: Config, tx: Transmitter, b: Block, got: set<nat>)
    requires Transmits(c, tx) && Holds(c, tx, b, got)
    ensures Has(b.frags) == |got|
  {
    hide Count, Codeword;
    CountIsSize(b.frags, got, 0);
  }

  lemma HoldsBlock(c: Config, tx: Transmitter, b: Block, got: set<nat>)
    requires Transmits(c, tx) && Holds(c, tx, b, got)
    ensures |b.frags| == c.n && BlockAuthentic(c, tx, b)
  {
  }

  /** One fragment more is at most one more. */
  lemma CountOne(c: Config, tx: Transmitter, b: Block, got: set<nat>, p: Packet)
    requires Transmits(c, tx) && |got| < c.k
    ensures |got + {p.frag}| <= c.k
  {
  }

  lemma StoredSizes(c: Config, w: Window, p: Packet)
    requires Valid(c, w) && w.blocks != [] && |p.bytes| == c.len && p.frag < |w.blocks[0].frags|
    ensures Sized(w.blocks[0].frags[p.frag := Some(p.bytes)], c.len)
  {
    ValidSizes(c, w);
  }

  /** The oldest block has left; the others are as before. */
  lemma TracksPopped(c: Config, tx: Transmitter, w: Window, base: nat, ps: seq<Packet>, p: Packet)
    requires Transmits(c, tx) && Tracks(c, tx, w, base, ps) && w.blocks != [] && p.block == base
    requires Valid(c, w.(blocks := w.blocks[1..]))
    ensures Tracks(c, tx, w.(blocks := w.blocks[1..]), base + 1, ps + [p]) && NextOf(w.(blocks := w.blocks[1..])) == 0
  {
    hide BlockAtRest, Holds, Came;
    forall b: nat | b > base
      ensures Came(ps + [p], b) == Came(ps, b)
    {
      CameSnoc(ps, p, b);
    }
    forall j | 0 <= j < |w.blocks[1..]|
      ensures Holds(c, tx, w.blocks[1..][j], Came(ps + [p], base + 1 + j))
    {
      assert w.blocks[1..][j] == w.blocks[j + 1] && Holds(c, tx, w.blocks[j + 1], Came(ps, base + (j + 1)));
    }
  }

  /** Live block j has taken the fragment. */
  lemma TracksSet(c: Config, tx: Transmitter, w: Window, base: nat, ps: seq<Packet>, p: Packet, j: nat, b: Block)
    requires Transmits(c, tx) && Tracks(c, tx, w, base, ps) && j < |w.blocks| && p.block == base + j
    requires Holds(c, tx, b, Came(ps, base + j) + {p.frag}) && Valid(c, w.(blocks := w.blocks[j := b]))
    ensures Tracks(c, tx, w.(blocks := w.blocks[j := b]), base, ps + [p])
  {
    hide Valid, Holds, Came;
    forall b: nat
      ensures Came(ps + [p], b) == Came(ps, b) + if b == base + j then {p.frag} else {}
    {
      CameSnoc(ps, p, b);
    }
    var bs := w.blocks[j := b];
    forall i | 0 <= i < |bs|
      ensures Holds(c, tx, bs[i], Came(ps + [p], base + i))
    {
      assert i != j ==> Came(ps, base + i) + {} == Came(ps, base + i);
    }
  }

  /** A fragment that had not come, of a later live block that stays undecodable. */
  lemma StoreLater(c: Config, tx: Transmitter, w: Window, base: nat, ps: seq<Packet>, p: Packet, j: nat)
    requires Transmits(c, tx) && Tracks(c, tx, w, base, ps) && Authentic(c, tx, p) && |p.bytes| == c.len
    requires 0 < j < |w.blocks| && p.block == base + j
    requires p.frag < |w.blocks[j].frags| && w.blocks[j].frags[p.frag].None? && |Came(ps + [p], p.block)| < c.k
    ensures NextOf(w) < c.k && Took(c, tx, w, base, ps, p, Store(c, w, j, p).0, Store(c, w, j, p).1)
  {
    hide FlushRange, EmitCompleted, RunEnd, Count, Codeword, BlockAuthentic, Valid, Came, Holds;
    BaseSmall(c, tx, w, base, ps);
    TracksSmall(c, tx, w, base, ps, j);
    ValidSizes(c, w);
    StoreValid(c, w, j, p);
    var b, got := w.blocks[j], Came(ps, base + j);
    var b' := b.(frags := b.frags[p.frag := Some(p.bytes)], next := b.next);
    CameSnoc(ps, p, base + j);
    CameSnoc(ps, p, base);
    assert Came(ps, base) + {} == Came(ps, base);
    HoldsMore(c, tx, b, got, p, b.next);
    HoldsCount(c, tx, b', got + {p.frag});
    assert Store(c, w, j, p) == (w.(blocks := w.blocks[j := b']), []);
    TracksSet(c, tx, w, base, ps, p, j, b');
    assert Primaries(c, tx, base, NextOf(w), NextOf(w)) == [];
  }

  /** Storing any fragment that keeps the run orderly. */
  lemma StoreTracked(c: Config, tx: Transmitter, w: Window, base: nat, ps: seq<Packet>, p: Packet, j: nat)
    requires Transmits(c, tx) && Tracks(c, tx, w, base, ps) && Authentic(c, tx, p) && |p.bytes| == c.len
    requires j < |w.blocks| && p.block == base + j && p.frag < c.n && (|Came(ps + [p], p.block)| >= c.k ==> j == 0)
    ensures Valid(c, w) && NextOf(w) < c.k && Took(c, tx, w, base, ps, p, Store(c, w, j, p).0, Store(c, w, j, p).1)
  {
    hide Valid, Came, Store, Took, Authentic;
    HoldsFragment(c, tx, w, base, ps, j, p.frag);
    if w.blocks[j].frags[p.frag].Some? {
      TracksIgnored(c, tx, w, base, ps, p);
      StoreNothing(c, w, j, p);
    } else if j == 0 {
      StoreFront(c, tx, w, base, ps, p);
    } else {
      StoreLater(c, tx, w, base, ps, p, j);
    }
  }

  lemma HoldsFragment(c: Config, tx: Transmitter, w: Window, base: nat, ps: seq<Packet>, j: nat, f: nat)
    requires Transmits(c, tx) && Tracks(c, tx, w, base, ps) && j < |w.blocks| && f < c.n
    ensures f < |w.blocks[j].frags| && (w.blocks[j].frags[f].Some? <==> f in Came(ps, base + j))
    ensures w.last.Some? && base + j <= w.last.value
  {
    hide Valid, Came, BlockAuthentic;
  }

  lemma StoreNothing(c: Config, w: Window, j: nat, p: Packet)
    requires Valid(c, w) && j < |w.blocks| && p.frag < c.n && |p.bytes| == c.len
    requires p.frag < |w.blocks[j].frags| && w.blocks[j].frags[p.frag].Some?
    ensures Store(c, w, j, p) == (w, [])
  {
    hide Valid;
  }

  /** Admitting the blocks up to a newer one drops nothing as long as they fit into the ring. */
  lemma AdmitTracked(c: Config, tx: Transmitter, w: Window, base: nat, ps: seq<Packet>, block: nat)
    requires Transmits(c, tx) && Tracks(c, tx, w, base, ps) && w.last.Some? && w.last.value < block < base + c.ring
    ensures Valid(c, w) && c.ring >= 1 && |w.blocks| <= c.ring && Evicted(c, w, block) == 0
    ensures Tracks(c, tx, Admit(c, w, block), base, ps) && base + |Admit(c, w, block).blocks| == block + 1
    ensures NextOf(Admit(c, w, block)) == NextOf(w)
  {
    hide BlockAtRest, Came, FreshBlock;
    AdmitValid(c, w, block);
    var count, w' := NewBlocks(c, w, block), Admit(c, w, block);
    assert count == block - w.last.value && w.blocks[0..] == w.blocks;
    forall j | 0 <= j < |w'.blocks|
      ensures Holds(c, tx, w'.blocks[j], Came(ps, base + j))
    {
      if j >= |w.blocks| {
        FreshHolds(c, tx, base + j);
      }
    }
    FreshIdx(c, base);
  }

  lemma FreshHolds(c: Config, tx: Transmitter, idx: nat)
    requires Transmits(c, tx)
    ensures Holds(c, tx, FreshBlock(c, idx), {})
  {
  }

  /** One step of an orderly run. */
  lemma StepTracked(c: Config, tx: Transmitter, w: Window, base: nat, ps: seq<Packet>, p: Packet)
    requires Transmits(c, tx) && Tracks(c, tx, w, base, ps) && Authentic(c, tx, p) && |p.bytes| == c.len && p.frag < c.n
    requires p.block < base + c.ring && (|Came(ps + [p], p.block)| >= c.k ==> p.block <= base)
    ensures Valid(c, w) && NextOf(w) < c.k && Took(c, tx, w, base, ps, p, Step(c, w, p).0, Step(c, w, p).1)
  {
    hide Valid, Came, Store, Took, Authentic, Admit, Holds, NextOf;
    BaseSmall(c, tx, w, base, ps);
    if p.block < base {
      NotLive(c, tx, w, base, ps, p.block);
      TracksIgnored(c, tx, w, base, ps, p);
    } else if p.block <= w.last.value {
      IsLive(c, tx, w, base, ps, p.block);
      StoreTracked(c, tx, w, base, ps, p, p.block - base);
    } else {
      NotLive(c, tx, w, base, ps, p.block);
      AdmitTracked(c, tx, w, base, ps, p.block);
      var w' := Admit(c, w, p.block);
      StoreTracked(c, tx, w', base, ps, p, |w'.blocks| - 1);
      var r := Store(c, w', |w'.blocks| - 1, p);
      assert w.blocks[..0] == [] && FlushAll([], c.k) + r.1 == r.1;
      StoredSame(c, tx, w, w', base, ps, p, r.0, r.1);
    }
  }

  lemma StoredSame(c: Config, tx: Transmitter, w: Window, v: Window, base: nat, ps: seq<Packet>, p: Packet, w': Window,
                   out: seq<Emission>)
    requires Transmits(c, tx) && NextOf(v) == NextOf(w) <= c.k && Took(c, tx, v, base, ps, p, w', out)
    ensures Took(c, tx, w, base, ps, p, w', out)
  {
    hide Tracks, NextOf, Came;
  }

  lemma NotLive(c: Config, tx: Transmitter, w: Window, base: nat, ps: seq<Packet>, block: nat)
    requires Transmits(c, tx) && Tracks(c, tx, w, base, ps) && w.last.Some? && (block < base || block > w.last.value)
    ensures Find(w.blocks, block).None? && (block < base ==> block <= w.last.value)
  {
    hide BlockAtRest, Holds, Came;
  }

  lemma IsLive(c: Config, tx: Transmitter, w: Window, base: nat, ps: seq<Packet>, block: nat)
    requires Transmits(c, tx) && Tracks(c, tx, w, base, ps) && w.last.Some? && base <= block <= w.last.value
    ensures block - base < |w.blocks| && Find(w.blocks, block) == Some(block - base)
  {
    hide BlockAtRest, Holds, Came;
    FindIs(w.blocks, block, block - base);
  }

  /** The first fragment of a session opens its block. */
  lemma FirstTracked(c: Config, tx: Transmitter, p: Packet)
    requires c.Sane() && Transmits(c, tx) && Authentic(c, tx, p) && |p.bytes| == c.len && p.frag < c.n
    ensures Valid(c, EMPTY) && Took(c, tx, EMPTY, p.block, [], p, Step(c, EMPTY, p).0, Step(c, EMPTY, p).1)
  {
    hide BlockAtRest, FreshBlock, Store, Took, Authentic;
    FreshAtRest(c, p.block);
    FreshIdx(c, p.block);
    FreshHolds(c, tx, p.block);
    var w' := Window([FreshBlock(c, p.block)], Some(p.block));
    assert Admit(c, EMPTY, p.block) == w';
    StoreTracked(c, tx, w', p.block, [], p, 0);
    var r := Store(c, w', 0, p);
    assert EMPTY.blocks[..0] == [] && FlushAll([], c.k) + r.1 == r.1;
    StoredSame(c, tx, EMPTY, w', p.block, [], p, r.0, r.1);
  }

  lemma {:induction false} EveryPrimarySnoc(c: Config, tx: Transmitter, first: nat, count: nat)
    requires Transmits(c, tx)
    ensures EveryPrimary(c, tx, first, count + 1)
         == EveryPrimary(c, tx, first, count) + Primaries(c, tx, first + count, 0, c.k)
    decreases count
  {
    hide Primaries;
    if count == 0 {
      assert EveryPrimary(c, tx, first, 1) == Primaries(c, tx, first, 0, c.k) + EveryPrimary(c, tx, first + 1, 0);
    } else {
      EveryPrimarySnoc(c, tx, first + 1, count - 1);
    }
  }

  /** Everything of the finished blocks has been sent, in order, and the oldest unfinished one up to its next
      fragment. */
  ghost predicate SentTo(c: Config, tx: Transmitter, first: nat, base: nat, next: nat, out: seq<Emission>)
    requires Transmits(c, tx) && base >= first && next <= c.k
  {
    out == EveryPrimary(c, tx, first, base - first) + Primaries(c, tx, base, 0, next)
  }

  lemma SentMore(c: Config, tx: Transmitter, first: nat, base: nat, next: nat, out: seq<Emission>, next': nat,
                 more: seq<Emission>)
    requires Transmits(c, tx) && base >= first && next <= next' <= c.k
    requires SentTo(c, tx, first, base, next, out) && more == Primaries(c, tx, base, next, next')
    ensures SentTo(c, tx, first, base, next', out + more)
    ensures next' == c.k ==> SentTo(c, tx, first, base + 1, 0, out + more)
  {
    hide EveryPrimary;
    PrimariesJoin(c, tx, base, 0, next, next');
    EveryPrimarySnoc(c, tx, first, base - first);
    assert Primaries(c, tx, base + 1, 0, 0) == [];
  }

  ghost predicate Progressed(c: Config, tx: Transmitter, first: nat, ps: seq<Packet>, w: Window, out: seq<Emission>)
    requires Transmits(c, tx)
  {
    && (if ps == [] then w == EMPTY else Tracks(c, tx, w, Base(c, first, ps), ps))
    && NextOf(w) <= c.k && SentTo(c, tx, first, Base(c, first, ps), NextOf(w), out)
  }

  lemma StoredProgress(c: Config, tx: Transmitter, first: nat, ps: seq<Packet>, p: Packet, w: Window,
                       out: seq<Emission>, w': Window, more: seq<Emission>)
    requires Transmits(c, tx) && Progressed(c, tx, first, ps, w, out)
    requires Took(c, tx, w, Base(c, first, ps), ps, p, w', more)
    ensures Progressed(c, tx, first, ps + [p], w', out + more)
  {
    hide Tracks, SentTo, Came, NextOf;
    var base := Base(c, first, ps);
    assert (ps + [p])[..|ps|] == ps;
    if |Came(ps + [p], base)| >= c.k {
      assert Base(c, first, ps + [p]) == base + 1;
      SentMore(c, tx, first, base, NextOf(w), out, c.k, more);
    } else {
      assert Base(c, first, ps + [p]) == base;
      SentMore(c, tx, first, base, NextOf(w), out, NextOf(w'), more);
    }
  }

  lemma {:induction false} OrderlyRun(c: Config, tx: Transmitter, first: nat, ps: seq<Packet>)
    requires c.Sane() && Transmits(c, tx) && AllAuthentic(c, tx, ps) && Orderly(c, first, ps)
    ensures Valid(c, EMPTY) && PacketsFit(c, ps)
    ensures Progressed(c, tx, first, ps, Run(c, EMPTY, ps).0, Run(c, EMPTY, ps).1)
    decreases |ps|
  {
    hide Valid, Step, Took, Came, Codeword, Progressed;
    EmptyValid(c, None);
    AuthenticFit(c, tx, ps);
    if ps == [] {
      NothingYet(c, tx, first);
    } else {
      var before, p := ps[..|ps| - 1], ps[|ps| - 1];
      assert ps == before + [p];
      OrderlyRun(c, tx, first, before);
      AuthenticFit(c, tx, before);
      var (w, out) := Run(c, EMPTY, before);
      RunSnoc(c, before, p);
      assert Authentic(c, tx, p);
      ProgressStep(c, tx, first, before, p, w, out);
      StoredProgress(c, tx, first, before, p, w, out, Step(c, w, p).0, Step(c, w, p).1);
    }
  }

  lemma NothingYet(c: Config, tx: Transmitter, first: nat)
    requires c.Sane() && Transmits(c, tx)
    ensures Progressed(c, tx, first, [], EMPTY, [])
  {
    assert Primaries(c, tx, first, 0, 0) == [];
  }

  lemma RunSnoc(c: Config, ps: seq<Packet>, p: Packet)
    requires Valid(c, EMPTY) && PacketsFit(c, ps) && PacketsFit(c, ps + [p]) && p.frag < c.n && |p.bytes| == c.len
    ensures var r := Run(c, EMPTY, ps);
            Run(c, EMPTY, ps + [p]) == (Step(c, r.0, p).0, r.1 + Step(c, r.0, p).1)
  {
    hide Valid, Step;
    var w := Run(c, EMPTY, ps).0;
    RunConcat(c, EMPTY, ps, [p]);
    StepValid(c, w, p);
    assert [p][1..] == [] && Step(c, w, p).1 + [] == Step(c, w, p).1;
  }

  lemma ProgressStep(c: Config, tx: Transmitter, first: nat, ps: seq<Packet>, p: Packet, w: Window, out: seq<Emission>)
    requires c.Sane() && Transmits(c, tx) && Authentic(c, tx, p) && |p.bytes| == c.len && p.frag < c.n
    requires Orderly(c, first, ps + [p]) && Valid(c, w) && Progressed(c, tx, first, ps, w, out)
    ensures Took(c, tx, w, Base(c, first, ps), ps, p, Step(c, w, p).0, Step(c, w, p).1)
  {
    hide Valid, Step, Took, Came, Tracks, SentTo, Authentic;
    assert (ps + [p])[..|ps|] == ps;
    if ps == [] {
      FirstTracked(c, tx, p);
    } else {
      StepTracked(c, tx, w, Base(c, first, ps), ps, p);
    }
  }

  /** However the fragments of different blocks interleave: if the run is orderly and each of the first `count`
      blocks gets k different fragments, then exactly the primary packets of the finished blocks have been sent, in
      order and complete, these blocks among them, followed by a beginning of the oldest unfinished one. */
  lemma InterleavedSent(c: Config, tx: Transmitter, first: nat, count: nat, ps: seq<Packet>)
    requires c.Sane() && Transmits(c, tx) && AllAuthentic(c, tx, ps) && Orderly(c, first, ps)
    requires forall b :: first <= b < first + count ==> |Came(ps, b)| >= c.k
    ensures Valid(c, EMPTY) && PacketsFit(c, ps)
    ensures Base(c, first, ps) >= first + count && NextOf(Run(c, EMPTY, ps).0) <= c.k
    ensures SentTo(c, tx, first, Base(c, first, ps), NextOf(Run(c, EMPTY, ps).0), Run(c, EMPTY, ps).1)
  {
    hide Run, SentTo, Tracks, Valid, Orderly, AllAuthentic, Transmits;
    OrderlyRun(c, tx, first, ps);
    var base := Base(c, first, ps);
    assert first <= base < first + count ==> |Came(ps, base)| >= c.k;
    if ps == [] {
      assert Came(ps, base) == {};
    } else {
      BaseSmall(c, tx, Run(c, EMPTY, ps).0, base, ps);
    }
  }
}
