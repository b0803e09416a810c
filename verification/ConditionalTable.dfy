/** The loop of HalModule.cpp over a flat register table with IF / ELSE IF / ELSE / ENDIF markers, and the
    structured program such a table stands for. */
module ConditionalTable {
  import opened Wrappers

  type u32 = x: int | 0 <= x < 0x1_0000_0000 witness 0

  /** The condition on the board: the two words of the IF marker and the second word of the negative-condition
      marker. */
  type Check = (u32, u32, u32) -> bool

  datatype Entry = Entry(v1: u32, v2: u32)

  // ----- words -----

  predicate Bit31(v: u32) {
    v / 0x8000_0000 == 1
  }

  predicate Bit30(v: u32) {
    v / 0x4000_0000 % 2 == 1
  }

  /** Bits 29 and 28. */
  function Kind(v: u32): (kind: int) {
    v / 0x1000_0000 % 4
  }

  const COND_ELSE := 2
  const COND_ENDIF := 3

  // ----- what an entry can be -----

  predicate IsWrite(e: Entry) {
    !Bit31(e.v1) && !Bit30(e.v1)
  }

  predicate IsIf(e: Entry) {
    Bit31(e.v1) && Kind(e.v1) < COND_ELSE
  }

  predicate IsElse(e: Entry) {
    Bit31(e.v1) && Kind(e.v1) == COND_ELSE
  }

  predicate IsEndIf(e: Entry) {
    Bit31(e.v1) && Kind(e.v1) == COND_ENDIF
  }

  predicate IsNegative(e: Entry) {
    !Bit31(e.v1) && Bit30(e.v1)
  }

  /** The kinds by number. Bit 31 marks a condition, whose kind is in bits 29 and 28; else bit 30 marks a negative
      condition. */
  lemma Markers(e: Entry)
    ensures IsWrite(e) <==> e.v1 < 0x4000_0000
    ensures IsNegative(e) <==> 0x4000_0000 <= e.v1 < 0x8000_0000
    ensures IsIf(e) <==> 0x8000_0000 <= e.v1 < 0xA000_0000 || 0xC000_0000 <= e.v1 < 0xE000_0000
    ensures IsElse(e) <==> 0xA000_0000 <= e.v1 < 0xB000_0000 || 0xE000_0000 <= e.v1 < 0xF000_0000
    ensures IsEndIf(e) <==> 0xB000_0000 <= e.v1 < 0xC000_0000 || 0xF000_0000 <= e.v1
  {
  }

  // ----- the structured program -----

  /** A branch: its IF or ELSE IF marker, its negative-condition marker, and its plain writes. */
  datatype Branch = Branch(marker: Entry, negative: Entry, body: seq<Entry>)

  datatype Otherwise = NoElse | Else(marker: Entry, body: seq<Entry>)

  datatype Block =
    | Plain(write: Entry)
    | Chain(branches: seq<Branch>, otherwise: Otherwise, end: Entry)

  predicate IsBody(es: seq<Entry>) {
    forall i :: 0 <= i < |es| ==> IsWrite(es[i])
  }

  predicate IsBranch(b: Branch) {
    IsIf(b.marker) && IsNegative(b.negative) && IsBody(b.body)
  }

  predicate IsOtherwise(o: Otherwise) {
    o.Else? ==> IsElse(o.marker) && IsBody(o.body)
  }

  predicate IsBlock(b: Block) {
    match b
    case Plain(write) => IsWrite(write)
    case Chain(branches, otherwise, end) =>
      && branches != [] && (forall i :: 0 <= i < |branches| ==> IsBranch(branches[i]))
      && IsOtherwise(otherwise) && IsEndIf(end)
  }

  predicate IsProgram(p: seq<Block>) {
    forall i :: 0 <= i < |p| ==> IsBlock(p[i])
  }

  predicate Holds(check: Check, b: Branch) {
    check(b.marker.v1, b.marker.v2, b.negative.v2)
  }

  /** The writes of the first branch whose condition holds, else those of the ELSE branch. */
  function Chosen(check: Check, branches: seq<Branch>, otherwise: Otherwise): (writes: seq<Entry>) {
    if branches == [] then (if otherwise.Else? then otherwise.body else [])
    else if Holds(check, branches[0]) then branches[0].body
    else Chosen(check, branches[1..], otherwise)
  }

  function Meaning(check: Check, p: seq<Block>): (writes: seq<Entry>) {
    if p == [] then []
    else
      (match p[0]
       case Plain(write) => [write]
       case Chain(branches, otherwise, _) => Chosen(check, branches, otherwise))
      + Meaning(check, p[1..])
  }

  // ----- the flat table -----

  function FlattenBranches(bs: seq<Branch>): (es: seq<Entry>) {
    if bs == [] then [] else [bs[0].marker, bs[0].negative] + bs[0].body + FlattenBranches(bs[1..])
  }

  function FlattenOtherwise(o: Otherwise): (es: seq<Entry>) {
    match o
    case NoElse => []
    case Else(marker, body) => [marker] + body
  }

  function FlattenBlock(b: Block): (es: seq<Entry>) {
    match b
    case Plain(write) => [write]
    case Chain(branches, otherwise, end) => FlattenBranches(branches) + (FlattenOtherwise(otherwise) + [end])
  }

  function Flatten(p: seq<Block>): (es: seq<Entry>) {
    if p == [] then [] else FlattenBlock(p[0]) + Flatten(p[1..])
  }

  function Words(es: seq<Entry>): (ws: seq<u32>)
    ensures |ws| == 2 * |es|
  {
    if es == [] then [] else [es[0].v1, es[0].v2] + Words(es[1..])
  }

  /** The entries of a table, without a trailing odd word. */
  function Entries(ws: seq<u32>): (es: seq<Entry>)
    ensures |es| == |ws| / 2
    ensures forall i :: 0 <= i < |es| ==> es[i] == Entry(ws[2 * i], ws[2 * i + 1])
  {
    seq(|ws| / 2, i requires 0 <= i < |ws| / 2 => Entry(ws[2 * i], ws[2 * i + 1]))
  }

  lemma {:induction false} EntriesWords(es: seq<Entry>)
    ensures Entries(Words(es)) == es
  {
    if es == [] {
    } else {
      EntriesWords(es[1..]);
      var ws := Words(es);
      assert ws[2..] == Words(es[1..]);
      forall i | 0 <= i < |es|
        ensures Entries(ws)[i] == es[i]
      {
        if i > 0 {
          assert Entries(ws)[i] == Entries(ws[2..])[i - 1] == es[1..][i - 1];
        }
      }
    }
  }

  // ----- which tables are flattened programs -----

  /** Where a reader of the markers stands. */
  datatype Place = Outside | AfterIf | InBranch | InElse

  /** An IF or ELSE IF marker is followed by a negative-condition marker, ELSE comes at most once and last, ENDIF
      ends the chain, and no chain begins inside another. */
  function NextPlace(at: Place, e: Entry): (next: Option<Place>) {
    match at
    case Outside => if IsWrite(e) then Some(Outside) else if IsIf(e) then Some(AfterIf) else None
    case AfterIf => if IsNegative(e) then Some(InBranch) else None
    case InBranch =>
      if IsWrite(e) then Some(InBranch)
      else if IsIf(e) then Some(AfterIf)
      else if IsElse(e) then Some(InElse)
      else if IsEndIf(e) then Some(Outside)
      else None
    case InElse => if IsWrite(e) then Some(InElse) else if IsEndIf(e) then Some(Outside) else None
  }

  /** The markers of a table are in order and close every chain. */
  predicate Marked(at: Place, es: seq<Entry>)
    decreases |es|
  {
    if es == [] then at == Outside
    else
      var next := NextPlace(at, es[0]);
      next.Some? && Marked(next.value, es[1..])
  }

  /** Plain writes do not move the reader. */
  lemma {:induction false} MarkedBody(at: Place, body: seq<Entry>, rest: seq<Entry>)
    requires IsBody(body) && at != AfterIf
    ensures Marked(at, body + rest) == Marked(at, rest)
  {
    if body == [] {
      assert body + rest == rest;
    } else {
      assert (body + rest)[1..] == body[1..] + rest;
      MarkedBody(at, body[1..], rest);
    }
  }

  lemma {:induction false} MarkedBranches(at: Place, bs: seq<Branch>, rest: seq<Entry>)
    requires forall i :: 0 <= i < |bs| ==> IsBranch(bs[i])
    requires at == Outside || at == InBranch
    requires Marked(InBranch, rest) && (bs == [] ==> at == InBranch)
    ensures Marked(at, FlattenBranches(bs) + rest)
    decreases |bs|
  {
    hide Bit31, Bit30, Kind;
    if bs == [] {
      assert FlattenBranches(bs) + rest == rest;
    } else {
      var b, more := bs[0], FlattenBranches(bs[1..]) + rest;
      MarkedBranches(InBranch, bs[1..], rest);
      MarkedBody(InBranch, b.body, more);
      MarkedPair(at, b.marker, b.negative, b.body + more);
      assert FlattenBranches(bs) + rest == [b.marker, b.negative] + (b.body + more);
    }
  }

  lemma MarkedPair(at: Place, marker: Entry, negative: Entry, rest: seq<Entry>)
    requires IsIf(marker) && IsNegative(negative) && (at == Outside || at == InBranch)
    ensures Marked(at, [marker, negative] + rest) == Marked(InBranch, rest)
  {
    var es := [marker, negative] + rest;
    assert es[1..] == [negative] + rest;
    assert es[1..][1..] == rest;
  }

  lemma MarkedTail(o: Otherwise, end: Entry, rest: seq<Entry>)
    requires IsOtherwise(o) && IsEndIf(end)
    ensures Marked(InBranch, FlattenOtherwise(o) + ([end] + rest)) == Marked(Outside, rest)
  {
    hide Bit31, Bit30;
    var tail := [end] + rest;
    assert tail[1..] == rest;
    match o {
      case NoElse => assert [] + tail == tail;
      case Else(marker, body) =>
        assert ([marker] + body + tail)[1..] == body + tail;
        MarkedBody(InElse, body, tail);
    }
  }

  /** Every flattened program has its markers in order. */
  lemma {:induction false} FlatMarked(p: seq<Block>)
    requires IsProgram(p)
    ensures Marked(Outside, Flatten(p))
    decreases |p|
  {
    hide Bit31, Bit30, IsEndIf, IsIf, IsBranch, IsOtherwise, FlattenBranches, FlattenOtherwise;
    if p == [] {
    } else {
      FlatMarked(p[1..]);
      var rest := Flatten(p[1..]);
      match p[0] {
        case Plain(write) => assert ([write] + rest)[1..] == rest;
        case Chain(branches, otherwise, end) =>
          var tail := FlattenOtherwise(otherwise) + ([end] + rest);
          MarkedTail(otherwise, end, rest);
          MarkedBranches(Outside, branches, tail);
          assert Flatten(p) == FlattenBranches(branches) + tail;
      }
    }
  }

  /** What a table read from inside a chain consists of. */
  datatype Rest = Rest(body: seq<Entry>, branches: seq<Branch>, otherwise: Otherwise, end: Entry, after: seq<Block>)

  function FlattenChain(r: Rest): (es: seq<Entry>) {
    FlattenBranches(r.branches) + (FlattenOtherwise(r.otherwise) + ([r.end] + Flatten(r.after)))
  }

  predicate IsRest(r: Rest) {
    && IsBody(r.body) && (forall i :: 0 <= i < |r.branches| ==> IsBranch(r.branches[i])) && IsOtherwise(r.otherwise)
    && IsEndIf(r.end) && IsProgram(r.after)
  }

  lemma AddBlock(b: Block, p: seq<Block>)
    requires IsBlock(b) && IsProgram(p)
    ensures IsProgram([b] + p) && Flatten([b] + p) == FlattenBlock(b) + Flatten(p)
  {
    assert ([b] + p)[1..] == p;
  }

  lemma AddBranch(marker: Entry, negative: Entry, r: Rest) returns (q: Rest)
    requires IsIf(marker) && IsNegative(negative) && IsRest(r)
    ensures IsRest(q) && q.body == [] && q.branches != []
    ensures FlattenChain(q) == [marker, negative] + (r.body + FlattenChain(r))
  {
    hide IsIf, IsNegative, FlattenOtherwise, Flatten, IsEndIf, IsProgram, IsOtherwise;
    var b := Branch(marker, negative, r.body);
    q := r.(body := [], branches := [b] + r.branches);
    assert q.branches[1..] == r.branches;
  }

  lemma AddElse(marker: Entry, r: Rest) returns (q: Rest)
    requires IsElse(marker) && IsRest(r) && r.branches == [] && r.otherwise == NoElse
    ensures IsRest(q) && q.body == [] && FlattenChain(q) == [marker] + (r.body + FlattenChain(r))
  {
    hide IsElse, Flatten, IsEndIf, IsProgram;
    q := r.(body := [], otherwise := Else(marker, r.body));
  }

  /** The program of a table whose markers are in order. */
  lemma {:induction false} Structured(es: seq<Entry>) returns (p: seq<Block>)
    requires Marked(Outside, es)
    ensures IsProgram(p) && Flatten(p) == es
    decreases |es|
  {
    hide Bit31, Bit30, Kind, IsEndIf, IsIf, IsElse, IsNegative, IsOtherwise, FlattenBranches, FlattenOtherwise;
    if es == [] {
      p := [];
    } else if IsWrite(es[0]) {
      var q := Structured(es[1..]);
      p := [Plain(es[0])] + q;
      AddBlock(Plain(es[0]), q);
    } else {
      var r := StructuredRest(InBranch, es[2..]);
      var q := AddBranch(es[0], es[1], r);
      var b := Chain(q.branches, q.otherwise, q.end);
      p := [b] + q.after;
      AddBlock(b, q.after);
      assert FlattenBlock(b) + Flatten(q.after) == FlattenChain(q);
      assert es == es[..2] + es[2..];
    }
  }

  lemma {:induction false} StructuredRest(at: Place, es: seq<Entry>) returns (r: Rest)
    requires (at == InBranch || at == InElse) && Marked(at, es)
    ensures IsRest(r) && r.body + FlattenChain(r) == es
    ensures at == InElse ==> r.branches == [] && r.otherwise == NoElse
    decreases |es|
  {
    hide Bit31, Bit30, Kind, IsBranch, IsProgram, Flatten;
    var e := es[0];
    if IsWrite(e) {
      r := StructuredRest(at, es[1..]);
      r := r.(body := [e] + r.body);
    } else if IsEndIf(e) {
      var p := Structured(es[1..]);
      r := Rest([], [], NoElse, e, p);
    } else if IsElse(e) {
      r := StructuredRest(InElse, es[1..]);
      r := AddElse(e, r);
    } else {
      r := StructuredRest(InBranch, es[2..]);
      r := AddBranch(e, es[1], r);
    }
  }

  /** The tables that stand for a program are those whose markers are in order. */
  lemma MarkedIff(es: seq<Entry>)
    ensures Marked(Outside, es) <==> exists p :: IsProgram(p) && Flatten(p) == es
  {
    hide Marked, IsProgram, Flatten;
    if Marked(Outside, es) {
      var p := Structured(es);
    }
    forall p | IsProgram(p) && Flatten(p) == es
      ensures Marked(Outside, es)
    {
      FlatMarked(p);
    }
  }

  // ----- the loop -----

  /** What the loop carries from entry to entry. */
  datatype Carry = Carry(matched: bool, skipped: bool, pre1: u32, pre2: u32)

  const START := Carry(true, false, 0, 0)

  /** What one entry does to what is carried. */
  function Step(check: Check, c: Carry, e: Entry): (next: Carry) {
    if Bit31(e.v1) then
      if Kind(e.v1) == COND_ENDIF then c.(matched := true, skipped := false)
      else if Kind(e.v1) == COND_ELSE then c.(matched := !c.skipped)
      else c.(pre1 := e.v1, pre2 := e.v2)
    else if Bit30(e.v1) then
      if c.skipped then c.(matched := false)
      else var holds := check(c.pre1, c.pre2, e.v2); c.(matched := holds, skipped := holds)
    else c
  }

  function Interpret(check: Check, c: Carry, es: seq<Entry>): (r: (Carry, seq<Entry>))
    decreases |es|
  {
    if es == [] then (c, [])
    else
      var rest := Interpret(check, Step(check, c, es[0]), es[1..]);
      (rest.0, (if IsWrite(es[0]) && c.matched then [es[0]] else []) + rest.1)
  }

  lemma {:induction false} InterpretConcat(check: Check, c: Carry, a: seq<Entry>, b: seq<Entry>)
    ensures var r := Interpret(check, c, a);
            var t := Interpret(check, r.0, b);
            Interpret(check, c, a + b) == (t.0, r.1 + t.1)
    decreases |a|
  {
    hide Step, IsWrite;
    if a == [] {
      assert a + b == b;
      assert [] + Interpret(check, c, b).1 == Interpret(check, c, b).1;
    } else {
      assert (a + b)[1..] == a[1..] + b;
      var c1 := Step(check, c, a[0]);
      InterpretConcat(check, c1, a[1..], b);
      var own := if IsWrite(a[0]) && c.matched then [a[0]] else [];
      var r := Interpret(check, c1, a[1..]);
      assert own + (r.1 + Interpret(check, r.0, b).1) == (own + r.1) + Interpret(check, r.0, b).1;
    }
  }

  lemma {:induction false} InterpretBody(check: Check, c: Carry, es: seq<Entry>)
    requires IsBody(es)
    ensures Interpret(check, c, es) == (c, if c.matched then es else [])
    decreases |es|
  {
    if es == [] {
    } else {
      InterpretBody(check, c, es[1..]);
      assert Interpret(check, c, es).1 == if c.matched then es else [];
    }
  }

  lemma InterpretOne(check: Check, c: Carry, e: Entry)
    ensures Interpret(check, c, [e]) == (Step(check, c, e), if IsWrite(e) && c.matched then [e] else [])
  {
    assert [e][1..] == [];
    assert Interpret(check, c, [e]).1 == if IsWrite(e) && c.matched then [e] else [];
  }

  /** One branch: taken if its condition holds and no earlier branch was. */
  lemma InterpretBranch(check: Check, c: Carry, b: Branch)
    requires IsBranch(b)
    ensures var r := Interpret(check, c, [b.marker, b.negative] + b.body);
            var taken := !c.skipped && Holds(check, b);
            r == (Carry(taken, c.skipped || taken, b.marker.v1, b.marker.v2), if taken then b.body else [])
  {
    var c1 := Step(check, c, b.marker);
    var c2 := Step(check, c1, b.negative);
    assert [b.marker, b.negative] + b.body == [b.marker] + ([b.negative] + b.body);
    InterpretConcat(check, c, [b.marker], [b.negative] + b.body);
    InterpretConcat(check, c1, [b.negative], b.body);
    InterpretOne(check, c, b.marker);
    InterpretOne(check, c1, b.negative);
    InterpretBody(check, c2, b.body);
    assert Interpret(check, c, [b.marker, b.negative] + b.body).1 == Interpret(check, c2, b.body).1;
  }

  /** The ELSE branch and the end of a chain, of which a branch has been taken or not. */
  lemma InterpretTail(check: Check, c: Carry, o: Otherwise, end: Entry)
    requires IsOtherwise(o) && IsEndIf(end)
    ensures var r := Interpret(check, c, FlattenOtherwise(o) + [end]);
            r == (c.(matched := true, skipped := false), if c.skipped then [] else Chosen(check, [], o))
  {
    match o {
      case NoElse =>
        assert [] + [end] == [end];
        InterpretOne(check, c, end);
      case Else(marker, body) =>
        var c1 := c.(matched := !c.skipped);
        assert [marker] + body + [end] == [marker] + (body + [end]);
        InterpretOne(check, c, marker);
        InterpretBody(check, c1, body);
        InterpretOne(check, c1, end);
        InterpretConcat(check, c1, body, [end]);
        InterpretConcat(check, c, [marker], body + [end]);
        assert Interpret(check, c, [marker] + body + [end]).1 == if c.skipped then [] else body;
    }
  }

  /** A chain, from one branch on: nothing if a branch was taken before, else what the rest of the chain chooses. */
  lemma {:induction false} InterpretChain(check: Check, c: Carry, bs: seq<Branch>, o: Otherwise, end: Entry)
    requires (forall i :: 0 <= i < |bs| ==> IsBranch(bs[i])) && IsOtherwise(o)
    requires IsEndIf(end)
    ensures var r := Interpret(check, c, FlattenBranches(bs) + (FlattenOtherwise(o) + [end]));
            r.0.matched && !r.0.skipped && r.1 == if c.skipped then [] else Chosen(check, bs, o)
    decreases |bs|
  {
    hide IsBranch, IsOtherwise, Bit31, Kind, Step, Interpret, FlattenOtherwise, Holds;
    var tail := FlattenOtherwise(o) + [end];
    if bs == [] {
      assert FlattenBranches(bs) + tail == tail;
      InterpretTail(check, c, o, end);
    } else {
      var b := bs[0];
      var own := [b.marker, b.negative] + b.body;
      var rest := FlattenBranches(bs[1..]) + tail;
      assert FlattenBranches(bs) + tail == own + rest;
      InterpretBranch(check, c, b);
      InterpretConcat(check, c, own, rest);
      InterpretChain(check, Interpret(check, c, own).0, bs[1..], o, end);
    }
  }

  /** The loop over a flattened program performs exactly the writes the program means, and is ready for the next
      block. */
  lemma {:induction false} FlatMeans(check: Check, c: Carry, p: seq<Block>)
    requires IsProgram(p) && c.matched && !c.skipped
    ensures var r := Interpret(check, c, Flatten(p));
            r.0.matched && !r.0.skipped && r.1 == Meaning(check, p)
    decreases |p|
  {
    hide Bit31, Bit30, Kind, FlattenBranches, Chosen, Interpret;
    if p == [] {
      InterpretBody(check, c, []);
    } else {
      var c1 := Interpret(check, c, FlattenBlock(p[0])).0;
      InterpretConcat(check, c, FlattenBlock(p[0]), Flatten(p[1..]));
      match p[0] {
        case Plain(write) => InterpretBody(check, c, [write]);
        case Chain(branches, otherwise, end) => InterpretChain(check, c, branches, otherwise, end);
      }
      FlatMeans(check, c1, p[1..]);
    }
  }

  /** IF c1, write a, ELSE IF c2, write b, ELSE, write d, ENDIF, write z: the conditions are asked with both words
      of their IF marker and the second word of their negative one. */
  lemma SmallTable(check: Check, m1: Entry, n1: Entry, a: Entry, m2: Entry, n2: Entry, b: Entry, otherwise: Entry,
                   d: Entry, end: Entry, z: Entry)
    requires 0x8000_0000 <= m1.v1 < 0x9000_0000 && 0x9000_0000 <= m2.v1 < 0xA000_0000
    requires 0x4000_0000 <= n1.v1 < 0x8000_0000 && 0x4000_0000 <= n2.v1 < 0x8000_0000
    requires 0xA000_0000 <= otherwise.v1 < 0xB000_0000 <= end.v1 < 0xC000_0000
    requires a.v1 < 0x4000_0000 && b.v1 < 0x4000_0000 && d.v1 < 0x4000_0000 && z.v1 < 0x4000_0000
    ensures Interpret(check, START,
                      [m1, n1, a, m2, n2, b, otherwise, d, end, z]).1
         == (if check(m1.v1, m1.v2, n1.v2) then [a]
             else if check(m2.v1, m2.v2, n2.v2) then [b] else [d]) + [z]
  {
    var p1, p2 := Branch(m1, n1, [a]), Branch(m2, n2, [b]);
    SmallMarkers(p1, p2, d, z, otherwise, end);
    var chain := Chain([p1, p2], Else(otherwise, [d]), end);
    hide IsProgram, Bit31, Bit30, Kind, Interpret;
    SmallMeaning(check, p1, p2, d, z, otherwise, end);
    FlatMeans(check, START, [chain, Plain(z)]);
    SmallFlat(p1, p2, d, z, otherwise, end, a, b);
  }

  lemma SmallMarkers(p1: Branch, p2: Branch, d: Entry, z: Entry, otherwise: Entry, end: Entry)
    requires 0x8000_0000 <= p1.marker.v1 < 0x9000_0000 && 0x9000_0000 <= p2.marker.v1 < 0xA000_0000
    requires 0x4000_0000 <= p1.negative.v1 < 0x8000_0000 && 0x4000_0000 <= p2.negative.v1 < 0x8000_0000
    requires 0xA000_0000 <= otherwise.v1 < 0xB000_0000 <= end.v1 < 0xC000_0000
    requires |p1.body| == |p2.body| == 1 && p1.body[0].v1 < 0x4000_0000 && p2.body[0].v1 < 0x4000_0000
    requires d.v1 < 0x4000_0000 && z.v1 < 0x4000_0000
    ensures IsProgram([Chain([p1, p2], Else(otherwise, [d]), end), Plain(z)])
  {
    hide Bit31, Bit30, Kind, IsIf, IsElse, IsEndIf, IsNegative, IsWrite;
    Markers(p1.marker);
    Markers(p1.negative);
    Markers(p1.body[0]);
    Markers(p2.marker);
    Markers(p2.negative);
    Markers(p2.body[0]);
    Markers(otherwise);
    Markers(end);
    Markers(d);
    Markers(z);
  }

  lemma SmallMeaning(check: Check, p1: Branch, p2: Branch, d: Entry, z: Entry, otherwise: Entry, end: Entry)
    ensures Meaning(check, [Chain([p1, p2], Else(otherwise, [d]), end), Plain(z)])
         == (if check(p1.marker.v1, p1.marker.v2, p1.negative.v2) then p1.body
             else if check(p2.marker.v1, p2.marker.v2, p2.negative.v2) then p2.body else [d]) + [z]
  {
    var p := [Chain([p1, p2], Else(otherwise, [d]), end), Plain(z)];
    assert p[1..] == [Plain(z)] && p[1..][1..] == [];
    assert Meaning(check, p[1..]) == [z] + Meaning(check, []);
    assert [p1, p2][1..] == [p2] && [p2][1..] == [];
    assert Chosen(check, [p2], Else(otherwise, [d])) == if Holds(check, p2) then p2.body else [d];
  }

  lemma SmallFlat(p1: Branch, p2: Branch, d: Entry, z: Entry, otherwise: Entry, end: Entry, a: Entry, b: Entry)
    requires p1.body == [a] && p2.body == [b]
    ensures Flatten([Chain([p1, p2], Else(otherwise, [d]), end), Plain(z)])
         == [p1.marker, p1.negative, a, p2.marker, p2.negative, b, otherwise, d, end, z]
  {
    var p := [Chain([p1, p2], Else(otherwise, [d]), end), Plain(z)];
    assert p[1..] == [Plain(z)] && p[1..][1..] == [];
    assert Flatten(p[1..]) == [z] + Flatten([]);
    assert [p1, p2][1..] == [p2] && [p2][1..] == [];
    assert FlattenBranches([p2]) == [p2.marker, p2.negative] + p2.body + FlattenBranches([]);
    assert FlattenBranches([p1, p2]) == [p1.marker, p1.negative] + p1.body + FlattenBranches([p2]);
  }

  /** Chains do not nest: the inner IF of a branch that is not taken is evaluated, and its writes are done. */
  lemma NestingFails(check: Check, outer: Branch, inner: Branch, end: Entry)
    requires IsBranch(outer) && IsBranch(inner) && outer.body == [] && IsEndIf(end)
    requires !Holds(check, outer) && Holds(check, inner)
    ensures Interpret(check, START,
                      [outer.marker, outer.negative] + FlattenBlock(Chain([inner], NoElse, end)) + [end]).1
         == inner.body
  {
    hide IsBranch, Bit31, Kind, Interpret, Holds;
    var head := [outer.marker, outer.negative];
    var nested := FlattenBlock(Chain([inner], NoElse, end));
    assert head + outer.body == head;
    InterpretBranch(check, START, outer);
    var c := Interpret(check, START, head).0;
    InterpretChain(check, c, [inner], NoElse, end);
    InterpretConcat(check, START, head, nested);
    InterpretConcat(check, START, head + nested, [end]);
    InterpretTail(check, Interpret(check, START, head + nested).0, NoElse, end);
    assert [] + [end] == [end];
  }

  /** The loop itself, over the words of a table; the writes are those issued to the device, in order. */
  method ReadAndConfig(table: array<u32>, check: Check) returns (writes: seq<Entry>)
    ensures writes == Interpret(check, START, Entries(table[..])).1
    ensures forall p :: IsProgram(p) && Entries(table[..]) == Flatten(p) ==> writes == Meaning(check, p)
    ensures Marked(Outside, Entries(table[..])) ==>
              exists p :: IsProgram(p) && Entries(table[..]) == Flatten(p) && writes == Meaning(check, p)
  {
    hide Interpret, Flatten, Marked, IsProgram;
    InterpretBody(check, START, []);
    ghost var es := Entries(table[..]);
    writes := [];
    var matched, skipped := true, false;
    var pre1: u32, pre2: u32 := 0, 0;
    var i := 0;
    while i + 1 < table.Length
      invariant 0 <= i <= table.Length && i % 2 == 0
      invariant Interpret(check, START, es[..i / 2]) == (Carry(matched, skipped, pre1, pre2), writes)
    {
      var v1, v2 := table[i], table[i + 1];
      ghost var was, before := Carry(matched, skipped, pre1, pre2), writes;
      LoopStep(check, START, es, i / 2);
      assert es[i / 2] == Entry(v1, v2);
      if Bit31(v1) || Bit30(v1) {
        if Bit31(v1) {
          var kind := Kind(v1);
          if kind == COND_ENDIF {
            matched, skipped := true, false;
          } else if kind == COND_ELSE {
            matched := if skipped then false else true;
          } else {
            pre1, pre2 := v1, v2;
          }
        } else if Bit30(v1) {
          if !skipped {
            if check(pre1, pre2, v2) {
              matched, skipped := true, true;
            } else {
              matched, skipped := false, false;
            }
          } else {
            matched := false;
          }
        }
      } else {
        if matched {
          writes := writes + [Entry(v1, v2)];
        }
      }
      assert Carry(matched, skipped, pre1, pre2) == Step(check, was, Entry(v1, v2));
      assert writes == before + if IsWrite(Entry(v1, v2)) && was.matched then [Entry(v1, v2)] else [];
      assert (i + 2) / 2 == i / 2 + 1;
      i := i + 2;
    }
    assert es[..|es|] == es;
    forall p | IsProgram(p) && es == Flatten(p)
      ensures writes == Meaning(check, p)
    {
      FlatMeans(check, START, p);
    }
    MarkedIff(es);
  }

  lemma LoopStep(check: Check, c: Carry, es: seq<Entry>, n: nat)
    requires n < |es|
    ensures var r := Interpret(check, c, es[..n]);
            Interpret(check, c, es[..n + 1]) ==
            (Step(check, r.0, es[n]), r.1 + if IsWrite(es[n]) && r.0.matched then [es[n]] else [])
  {
    hide Step, IsWrite;
    assert es[..n + 1] == es[..n] + [es[n]];
    InterpretConcat(check, c, es[..n], [es[n]]);
    InterpretOne(check, Interpret(check, c, es[..n]).0, es[n]);
  }
}
