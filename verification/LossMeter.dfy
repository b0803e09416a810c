/** send_packet's sequence number and loss counter, both 32 bits wide. */
module LossMeter {
  import opened ReceiveWindow

  const U32 := 0x1_0000_0000

  /** The last sequence number sent and the packets counted as lost. */
  datatype Meter = Meter(seqno: nat, lost: nat)

  /** The place of a primary packet in the transmitted order. */
  function Number(k: nat, block: nat, frag: nat): (n: nat) {
    block * k + frag
  }

  lemma NumberIs(k: nat, block: nat, frag: nat)
    ensures Number(k, block, frag) == block * k + frag
  {
  }

  /** The counter after number n, reduced to 32 bits. */
  function Counted(m: Meter, n: nat): (lost: nat)
    ensures m.lost < U32 ==> lost < U32
  {
    if n > (m.seqno + 1) % U32 && m.seqno > 0 then (m.lost + (n - m.seqno - 1)) % U32 else m.lost
  }

  function Advance(k: nat, m: Meter, block: nat, frag: nat): (r: Meter)
    ensures r.seqno < U32 && (m.lost < U32 ==> r.lost < U32)
  {
    var s := Number(k, block, frag) % U32;
    Meter(s, Counted(m, s))
  }

  ghost function AdvanceAll(k: nat, m: Meter, out: seq<Emission>): (r: Meter)
    decreases |out|
  {
    if out == [] then m else AdvanceAll(k, Advance(k, m, out[0].block, out[0].frag), out[1..])
  }

  ghost predicate Increasing(k: nat, out: seq<Emission>) {
    forall i, j :: 0 <= i < j < |out| ==> Number(k, out[i].block, out[i].frag) < Number(k, out[j].block, out[j].frag)
  }

  ghost predicate Narrow(k: nat, out: seq<Emission>) {
    forall i :: 0 <= i < |out| ==> Number(k, out[i].block, out[i].frag) < U32
  }

  /** Emissions in order have increasing numbers. */
  lemma OrderedNumbers(k: nat, out: seq<Emission>, lo: Place, hi: Place)
    requires Between(k, out, lo, hi)
    ensures Increasing(k, out)
  {
    forall i, j | 0 <= i < j < |out|
      ensures Number(k, out[i].block, out[i].frag) < Number(k, out[j].block, out[j].frag)
    {
      BetweenOrdered(k, out, lo, hi, i);
      NumberStep(k, out[i], out[j]);
    }
  }

  lemma NumberStep(k: nat, a: Emission, b: Emission)
    requires a.frag < k && After(a).AtMost(PlaceOf(b))
    ensures Number(k, a.block, a.frag) < Number(k, b.block, b.frag)
  {
    if a.block < b.block {
      assert (a.block + 1) * k <= b.block * k;
    }
  }

  lemma ModAdd(a: nat, b: nat)
    ensures (a % U32 + b) % U32 == (a + b) % U32
  {
  }

  /** Once a nonzero number has been sent, the counter grows by exactly the numbers skipped. */
  lemma {:induction false} GapsCounted(k: nat, m: Meter, out: seq<Emission>)
    requires Increasing(k, out) && Narrow(k, out) && m.seqno > 0 && m.lost < U32
    requires out != [] ==> m.seqno < Number(k, out[0].block, out[0].frag)
    ensures var last := if out == [] then m.seqno else Number(k, out[|out| - 1].block, out[|out| - 1].frag);
            && last - m.seqno >= |out|
            && AdvanceAll(k, m, out) == Meter(last, (m.lost + (last - m.seqno - |out|)) % U32)
    decreases |out|
  {
    hide Number, Advance, Increasing, Narrow;
    if out == [] {
    } else {
      var n, t := Number(k, out[0].block, out[0].frag), out[1..];
      SkipCounted(k, m, out);
      RestOrdered(k, out, 0);
      var m1 := Meter(n, (m.lost + (n - m.seqno - 1)) % U32);
      GapsCounted(k, m1, t);
      var last := if t == [] then n else Number(k, t[|t| - 1].block, t[|t| - 1].frag);
      ModAdd(m.lost + (n - m.seqno - 1), last - n - |t|);
    }
  }

  lemma SkipCounted(k: nat, m: Meter, out: seq<Emission>)
    requires Narrow(k, out) && out != [] && m.lost < U32
    requires 0 < m.seqno < Number(k, out[0].block, out[0].frag)
    ensures var n := Number(k, out[0].block, out[0].frag);
            Advance(k, m, out[0].block, out[0].frag) == Meter(n, (m.lost + (n - m.seqno - 1)) % U32)
  {
    hide Number;
  }

  /** Of two numbers a and b sent one after the other, at any place in the session, the numbers between them are counted
      as lost exactly if they do not straddle a multiple of 2^32. */
  lemma GapCountedIff(k: nat, m: Meter, a: nat, b: nat, block: nat, frag: nat)
    requires m.seqno == a % 0x1_0000_0000 > 0 && m.lost < 0x1_0000_0000
    requires b == block * k + frag && a < b < a + 0x1_0000_0000
    ensures var r := Advance(k, m, block, frag);
            && r.seqno == b % 0x1_0000_0000
            && ((r.lost - m.lost) % 0x1_0000_0000 == b - a - 1 <==>
                  (a + 1) / 0x1_0000_0000 == b / 0x1_0000_0000)
  {
    var q, s, n := (a + 1) / U32, (a + 1) % U32, b % U32;
    AdvanceTo(k, m, b, block, frag);
    hide Advance;
    if b < U32 * q + U32 {
      SameRound(a, b, q);
      CountsOn(m, s, n);
      ModDifference(m.lost, n - s);
    } else {
      NextRound(a, b, q);
      CountsNothing(m, s, n);
    }
  }

  lemma AdvanceTo(k: nat, m: Meter, b: nat, block: nat, frag: nat)
    requires b == block * k + frag && m.lost < U32
    ensures Advance(k, m, block, frag).seqno == b % U32 && Advance(k, m, block, frag).lost == Counted(m, b % U32)
  {
    NumberIs(k, block, frag);
    hide Number;
  }

  lemma CountsOn(m: Meter, s: nat, n: nat)
    requires m.lost < U32 && s <= n < U32 && 0 < m.seqno == if s == 0 then U32 - 1 else s - 1
    ensures Counted(m, n) == (m.lost + (n - s)) % U32
  {
    assert (m.seqno + 1) % U32 == s;
    if s == 0 {
      assert m.lost + (n - m.seqno - 1) == m.lost + n - U32;
    }
  }

  lemma CountsNothing(m: Meter, s: nat, n: nat)
    requires n < s < U32 && 0 < m.seqno == s - 1
    ensures Counted(m, n) == m.lost
  {
  }

  lemma SameRound(a: nat, b: nat, q: nat)
    requires q == (a + 1) / U32 && a < b < U32 * q + U32
    ensures b / U32 == q && b % U32 - (a + 1) % U32 == b - a - 1
    ensures a % U32 == (if (a + 1) % U32 == 0 then U32 - 1 else (a + 1) % U32 - 1)
  {
  }

  lemma NextRound(a: nat, b: nat, q: nat)
    requires q == (a + 1) / U32 && U32 * q + U32 <= b < a + U32
    ensures b / U32 == q + 1 && b % U32 < (a + 1) % U32 && b > a + 1
    ensures a % U32 + 1 == (a + 1) % U32
  {
    var s := (a + 1) - U32 * q;
    assert b == U32 * (q + 1) + (b - U32 * q - U32) && 0 <= b - U32 * q - U32 < s;
  }

  lemma FirstIsEarly(k: nat, out: seq<Emission>, first: nat)
    requires Increasing(k, out) && first < |out|
    requires forall i :: 0 <= i < first ==> Number(k, out[i].block, out[i].frag) == 0
    ensures first <= 1
  {
    hide Number;
    if |out| > 1 {
      assert Number(k, out[0].block, out[0].frag) < Number(k, out[1].block, out[1].frag);
    }
  }

  lemma AdvanceHead(k: nat, m: Meter, out: seq<Emission>)
    requires out != []
    ensures AdvanceAll(k, m, out) == AdvanceAll(k, Advance(k, m, out[0].block, out[0].frag), out[1..])
  {
  }

  /** From seqno 0 no gap is counted. */
  lemma AdvanceFirst(k: nat, lost: nat, e: Emission)
    requires Number(k, e.block, e.frag) < U32
    ensures Advance(k, Meter(0, lost), e.block, e.frag) == Meter(Number(k, e.block, e.frag), lost)
  {
    hide Number;
  }

  /** Up to the first nonzero number nothing is counted. */
  lemma FirstNumber(k: nat, lost: nat, out: seq<Emission>, first: nat)
    requires Increasing(k, out) && Narrow(k, out)
    requires first < |out|
    requires forall i :: 0 <= i < first ==> Number(k, out[i].block, out[i].frag) == 0
    ensures AdvanceAll(k, Meter(0, lost), out)
         == AdvanceAll(k, Meter(Number(k, out[first].block, out[first].frag), lost), out[first + 1..])
  {
    hide Number, AdvanceAll, Advance, Increasing;
    FirstIsEarly(k, out, first);
    AdvanceHead(k, Meter(0, lost), out);
    AdvanceFirst(k, lost, out[0]);
    if first == 1 {
      AdvanceHead(k, Meter(0, lost), out[1..]);
      AdvanceFirst(k, lost, out[1]);
      assert out[1..][1..] == out[2..];
    }
  }

  /** From a fresh session on, and while the numbers fit in 32 bits: with s the first nonzero number sent,
      the packets counted as lost and the packets sent since s add up to every number from s to the last. */
  lemma LossAccounting(k: nat, lost: nat, out: seq<Emission>, lo: Place, hi: Place, first: nat)
    requires Between(k, out, lo, hi) && Narrow(k, out) && lost < U32
    requires first < |out| && Number(k, out[first].block, out[first].frag) > 0
    requires forall i :: 0 <= i < first ==> Number(k, out[i].block, out[i].frag) == 0
    ensures var s := Number(k, out[first].block, out[first].frag);
            var last := Number(k, out[|out| - 1].block, out[|out| - 1].frag);
            var m := AdvanceAll(k, Meter(0, lost), out);
            && m.seqno == last
            && (m.lost - lost) % U32 + (|out| - first) == last - s + 1
  {
    hide Number, Between, AdvanceAll;
    OrderedNumbers(k, out, lo, hi);
    FirstNumber(k, lost, out, first);
    var n, rest := Number(k, out[first].block, out[first].frag), out[first + 1..];
    RestOrdered(k, out, first);
    GapsCounted(k, Meter(n, lost), rest);
    var last := Number(k, out[|out| - 1].block, out[|out| - 1].frag);
    ModDifference(lost, last - n - |rest|);
  }

  lemma RestOrdered(k: nat, out: seq<Emission>, first: nat)
    requires Increasing(k, out) && Narrow(k, out) && first < |out|
    ensures var rest := out[first + 1..];
            && Increasing(k, rest) && Narrow(k, rest)
            && (rest != [] ==> && rest[|rest| - 1] == out[|out| - 1]
                               && Number(k, out[first].block, out[first].frag) < Number(k, rest[0].block, rest[0].frag))
  {
    hide Number;
  }

  lemma ModDifference(a: nat, d: nat)
    requires a < U32 && d < U32
    ensures ((a + d) % U32 - a) % U32 == d
  {
  }

  /** The same for any run of the receiver from the start of a session. */
  lemma RunLoss(c: Config, ps: seq<Packet>, lost: nat, first: nat)
    requires c.Sane() && PacketsFit(c, ps) && lost < U32 && Valid(c, EMPTY)
    requires Narrow(c.k, Run(c, EMPTY, ps).1) && first < |Run(c, EMPTY, ps).1|
    requires Number(c.k, Run(c, EMPTY, ps).1[first].block, Run(c, EMPTY, ps).1[first].frag) > 0
    requires forall i :: 0 <= i < first ==> Number(c.k, Run(c, EMPTY, ps).1[i].block, Run(c, EMPTY, ps).1[i].frag) == 0
    ensures var out := Run(c, EMPTY, ps).1;
            var m := AdvanceAll(c.k, Meter(0, lost), out);
            && m.seqno == Number(c.k, out[|out| - 1].block, out[|out| - 1].frag)
            && (m.lost - lost) % U32 + (|out| - first) == m.seqno - Number(c.k, out[first].block, out[first].frag) + 1
  {
    hide Run, Valid, Frontier, Number;
    RunBetween(c, EMPTY, ps);
    LossAccounting(c.k, lost, Run(c, EMPTY, ps).1, Frontier(EMPTY), Frontier(Run(c, EMPTY, ps).0), first);
  }
}
