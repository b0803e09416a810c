/** The circular window of WFBProcessor.cpp, as values: 40 slots, of which `alloc` from `front` on are live. */
module RxRing {
  import opened ReceiveWindow

  const RX_RING_SIZE := 40

  /** C's remainder, which takes the sign of the dividend. */
  function Remainder(x: int, base: int): (r: int)
    requires base > 0
  {
    if x >= 0 then x % base else -((-x) % base)
  }

  /** The remainder that is never negative. */
  function ModN(x: int, base: int): (r: int)
    requires base > 0
    ensures 0 <= r < base && r == x % base
  {
    RemainderOfSum(x, base);
    Remainder(base + Remainder(x, base), base)
  }

  lemma RemainderOfSum(x: int, base: int)
    requires base > 0
    ensures (base + Remainder(x, base)) % base == x % base && base + Remainder(x, base) >= 0
  {
    if x >= 0 {
      RemainderIs(base + x % base, base, 1, x % base);
    } else {
      var q, m := (-x) / base, (-x) % base;
      if m == 0 {
        RemainderIs(x, base, -q, 0);
        RemainderIs(base, base, 1, 0);
      } else {
        assert (-q - 1) * base == -q * base - base;
        RemainderIs(x, base, -q - 1, base - m);
        RemainderIs(base - m, base, 0, base - m);
      }
    }
  }

  lemma RemainderIs(x: int, base: int, q: int, r: int)
    requires base > 0 && 0 <= r < base && x == q * base + r
    ensures x % base == r
  {
    var d := q - x / base;
    assert d * base == x % base - r;
    NonzeroMultiple(d, base);
  }

  lemma NonzeroMultiple(d: int, base: int)
    requires base > 0
    ensures d > 0 ==> d * base >= base
    ensures d < 0 ==> d * base <= -base
  {
  }

  /** For the operands that occur, one turn around the ring at most. */
  lemma ModNWraps(x: int)
    requires -RX_RING_SIZE < x < 2 * RX_RING_SIZE
    ensures ModN(x, RX_RING_SIZE)
         == if x < 0 then x + RX_RING_SIZE else if x < RX_RING_SIZE then x else x - RX_RING_SIZE
  {
  }

  /** The slot that holds the j-th live block. */
  function SlotOf(front: nat, j: nat): (i: nat)
    requires front < RX_RING_SIZE && j < RX_RING_SIZE
    ensures i < RX_RING_SIZE
  {
    if front + j < RX_RING_SIZE then front + j else front + j - RX_RING_SIZE
  }

  ghost predicate RingShape(view: seq<Block>, front: nat, alloc: nat) {
    |view| == RX_RING_SIZE && front < RX_RING_SIZE && alloc <= RX_RING_SIZE
  }

  /** The live blocks, oldest first. */
  ghost function Live(view: seq<Block>, front: nat, alloc: nat): (bs: seq<Block>)
    requires RingShape(view, front, alloc)
    ensures |bs| == alloc
    ensures forall j :: 0 <= j < alloc ==> bs[j] == view[SlotOf(front, j)]
  {
    seq(alloc, j requires 0 <= j < alloc => view[SlotOf(front, j)])
  }

  /** A push below capacity appends to the live blocks. */
  lemma PushAppends(view: seq<Block>, front: nat, alloc: nat, b: Block)
    requires RingShape(view, front, alloc) && alloc < RX_RING_SIZE
    ensures Live(view[SlotOf(front, alloc) := b], front, alloc + 1) == Live(view, front, alloc) + [b]
  {
  }

  /** A push at capacity replaces the oldest block's slot, which becomes the newest. */
  lemma PushOverrides(view: seq<Block>, front: nat, b: Block)
    requires RingShape(view, front, RX_RING_SIZE)
    ensures Live(view[front := b], SlotOf(front, 1), RX_RING_SIZE) == Live(view, front, RX_RING_SIZE)[1..] + [b]
  {
    var n := Live(view[front := b], SlotOf(front, 1), RX_RING_SIZE);
    forall j | 0 <= j < RX_RING_SIZE
      ensures n[j] == (Live(view, front, RX_RING_SIZE)[1..] + [b])[j]
    {
      if j < RX_RING_SIZE - 1 {
        assert SlotOf(SlotOf(front, 1), j) == SlotOf(front, j + 1);
      } else {
        assert SlotOf(SlotOf(front, 1), j) == front;
      }
    }
  }

  /** Stepping the front forward drops the oldest block. */
  lemma PopDrops(view: seq<Block>, front: nat, alloc: nat)
    requires RingShape(view, front, alloc) && alloc > 0
    ensures Live(view, SlotOf(front, 1), alloc - 1) == Live(view, front, alloc)[1..]
  {
    forall j | 0 <= j < alloc - 1
      ensures SlotOf(SlotOf(front, 1), j) == SlotOf(front, j + 1)
    {
    }
  }

  /** Changing the slot of the pos-th live block changes that live block only. */
  lemma SetLive(view: seq<Block>, front: nat, alloc: nat, pos: nat, b: Block)
    requires RingShape(view, front, alloc) && pos < alloc
    ensures Live(view[SlotOf(front, pos) := b], front, alloc) == Live(view, front, alloc)[pos := b]
  {
  }
}
