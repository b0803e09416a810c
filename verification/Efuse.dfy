/** The efuse log: packets of word updates, appended one after the other, and the reader that replays them into the map
    (Hal_EfuseReadEFuse8812A in EepromManager.cpp). */
module Efuse {
  import opened Wrappers
  import opened CellBytes

  type u16 = x: int | 0 <= x < 0x1_0000 witness 0

  const MAP_LEN := 512
  const CONTENT_LEN := 512
  const SECTIONS := 64
  const WORDS := 4

  /** The map as words, four to a section. */
  type Words = ws: seq<u16> | |ws| == SECTIONS * WORDS witness seq(SECTIONS * WORDS, _ => 0)

  const BLANK: Words := seq(SECTIONS * WORDS, _ => 0xFFFF as u16)

  function MapByte(ws: Words, b: nat): (v: byte)
    requires b < MAP_LEN
  {
    if b % 2 == 0 then ws[b / 2] % 256 else ws[b / 2] / 256
  }

  // ----- the writer -----

  /** A packet: which section, which header it was written with, and the new value of each word it updates. */
  datatype Packet = Packet(section: nat, extended: bool, words: seq<Option<u16>>)

  /** One bit per word from the lowest on, set for the words that are not updated. */
  function Disabled(ws: seq<Option<u16>>): (mask: nat) {
    if ws == [] then 0 else (if ws[0].None? then 1 else 0) + 2 * Disabled(ws[1..])
  }

  function Data(ws: seq<Option<u16>>): (d: seq<byte>)
    ensures |d| <= 2 * |ws|
  {
    if ws == [] then []
    else (if ws[0].Some? then [ws[0].value % 256, ws[0].value / 256] else []) + Data(ws[1..])
  }

  predicate AllUpdated(ws: seq<Option<u16>>) {
    forall i :: 0 <= i < |ws| ==> ws[i].Some?
  }

  predicate SomeUpdated(ws: seq<Option<u16>>) {
    exists i :: 0 <= i < |ws| && ws[i].Some?
  }

  /** A packet updates at least one word; a short header reaches sections below 16, an extended one sections below
      128. */
  predicate IsPacket(p: Packet) {
    |p.words| == WORDS && SomeUpdated(p.words) && p.section < 128 && (p.extended || p.section < 16)
  }

  lemma DisabledFits(ws: seq<Option<u16>>)
    requires |ws| == WORDS
    ensures Disabled(ws) < 16 && (SomeUpdated(ws) ==> Disabled(ws) < 15) && (AllUpdated(ws) ==> Disabled(ws) == 0)
  {
    DisabledBelow(ws);
  }

  lemma {:induction false} DisabledBelow(ws: seq<Option<u16>>)
    requires |ws| <= 4
    ensures var bound := if |ws| == 0 then 1 else if |ws| == 1 then 2 else if |ws| == 2 then 4
                         else if |ws| == 3 then 8 else 16;
            Disabled(ws) < bound && (SomeUpdated(ws) ==> Disabled(ws) < bound - 1)
    ensures AllUpdated(ws) ==> Disabled(ws) == 0
  {
    if ws == [] {
    } else {
      var rest := ws[1..];
      DisabledBelow(rest);
      if SomeUpdated(ws) && ws[0].None? {
        var i :| 0 <= i < |ws| && ws[i].Some?;
        assert rest[i - 1].Some?;
      }
    }
  }

  function Header(p: Packet): (h: seq<byte>)
    requires IsPacket(p)
  {
    DisabledFits(p.words);
    if p.extended then [p.section % 8 * 32 + 15, p.section / 8 * 16 + Disabled(p.words)]
    else [p.section * 16 + Disabled(p.words)]
  }

  function Encode(p: Packet): (bytes: seq<byte>)
    requires IsPacket(p)
  {
    Header(p) + Data(p.words)
  }

  predicate IsLog(ps: seq<Packet>) {
    forall i :: 0 <= i < |ps| ==> IsPacket(ps[i])
  }

  function Log(ps: seq<Packet>): (bytes: seq<byte>)
    requires IsLog(ps)
  {
    if ps == [] then [] else Encode(ps[0]) + Log(ps[1..])
  }

  // ----- what the log says -----

  /** The words from the i-th of a section on, updated. */
  function Update(image: Words, section: nat, i: nat, ws: seq<Option<u16>>): (after: Words)
    requires section < SECTIONS && i + |ws| == WORDS
    decreases |ws|
  {
    if ws == [] then image
    else Update(if ws[0].Some? then image[section * WORDS + i := ws[0].value] else image, section, i + 1, ws[1..])
  }

  function Apply(image: Words, p: Packet): (after: Words)
    requires IsPacket(p)
  {
    if p.section < SECTIONS then Update(image, p.section, 0, p.words) else image
  }

  function Replay(image: Words, ps: seq<Packet>): (after: Words)
    requires IsLog(ps)
    decreases |ps|
  {
    if ps == [] then image else Replay(Apply(image, ps[0]), ps[1..])
  }

  /** The last value written to word k of the map, if any was. */
  function LastWrite(ps: seq<Packet>, k: nat): (word: Option<u16>)
    requires IsLog(ps)
  {
    if ps == [] then None
    else
      var p := ps[|ps| - 1];
      if p.section == k / WORDS && p.words[k % WORDS].Some? then p.words[k % WORDS]
      else LastWrite(ps[..|ps| - 1], k)
  }

  lemma {:induction false} UpdateAt(image: Words, section: nat, i: nat, ws: seq<Option<u16>>, k: nat)
    requires section < SECTIONS && i + |ws| == WORDS && k < SECTIONS * WORDS
    ensures Update(image, section, i, ws)[k]
         == if section == k / WORDS && k % WORDS >= i && ws[k % WORDS - i].Some? then ws[k % WORDS - i].value
             else image[k]
    decreases |ws|
  {
    if ws == [] {
    } else {
      UpdateAt(if ws[0].Some? then image[section * WORDS + i := ws[0].value] else image, section, i + 1, ws[1..], k);
    }
  }

  lemma {:induction false} ReplaySnoc(image: Words, ps: seq<Packet>, p: Packet)
    requires IsLog(ps) && IsPacket(p)
    ensures IsLog(ps + [p]) && Replay(image, ps + [p]) == Apply(Replay(image, ps), p)
    decreases |ps|
  {
    hide IsPacket, Apply;
    if ps == [] {
      assert [] + [p] == [p] && [p][1..] == [];
    } else {
      assert (ps + [p])[1..] == ps[1..] + [p];
      ReplaySnoc(Apply(image, ps[0]), ps[1..], p);
    }
  }

  /** Replaying a log leaves in every word the last value written to it. */
  lemma {:induction false} ReplayLast(ps: seq<Packet>, k: nat)
    requires IsLog(ps) && k < SECTIONS * WORDS
    ensures Replay(BLANK, ps)[k] == match LastWrite(ps, k) case Some(v) => v case None => 0xFFFF
    decreases |ps|
  {
    if ps == [] {
    } else {
      var init, p := ps[..|ps| - 1], ps[|ps| - 1];
      assert init + [p] == ps;
      ReplaySnoc(BLANK, init, p);
      ReplayLast(init, k);
      if p.section < SECTIONS {
        UpdateAt(Replay(BLANK, init), p.section, 0, p.words, k);
      }
    }
  }

  // ----- the reader -----

  /** Reads one word; its high byte stays zero if the cells end first. */
  function ReadWord(cell: Cells, addr: nat, i: nat, section: nat, image: Words): (r: (nat, Words))
    requires section < SECTIONS && i < WORDS
    ensures r.0 > addr
  {
    var low := cell(addr);
    if addr + 1 >= CONTENT_LEN then (addr + 1, image[section * WORDS + i := low])
    else (addr + 2, image[section * WORDS + i := low + 256 * cell(addr + 1)])
  }

  /** Reads the enabled words of a section, starting with word i. */
  function ReadWords(cell: Cells, addr: nat, wren: nat, i: nat, section: nat, image: Words): (r: (nat, Words))
    requires section < SECTIONS && i <= WORDS
    ensures r.0 >= addr
    decreases WORDS - i
  {
    if i == WORDS then (addr, image)
    else if wren % 2 == 1 then ReadWords(cell, addr, wren / 2, i + 1, section, image)
    else
      var r := ReadWord(cell, addr, i, section, image);
      if r.0 >= CONTENT_LEN then r else ReadWords(cell, r.0, wren / 2, i + 1, section, r.1)
  }

  /** Skips the words of a section outside the map; the enable bits are not shifted here. */
  function SkipWords(addr: nat, wren: nat, i: nat): (r: nat)
    requires i <= WORDS
    ensures r >= addr
    decreases WORDS - i
  {
    if i == WORDS then addr
    else if wren % 2 == 1 then SkipWords(addr, wren, i + 1)
    else if addr + 1 >= CONTENT_LEN then addr + 1
    else if addr + 2 >= CONTENT_LEN then addr + 2
    else SkipWords(addr + 2, wren, i + 1)
  }

  /** The state of the reader: the next address, the byte last read, and the words so far. */
  datatype Reader = Reader(addr: nat, header: byte, image: Words)

  /** Reads the next header. */
  function NextHeader(cell: Cells, addr: nat, image: Words): (next: Reader) {
    var h := cell(addr);
    Reader(if h != 0xFF && addr < CONTENT_LEN then addr + 1 else addr, h, image)
  }

  function ReadSection(cell: Cells, addr: nat, section: nat, wren: nat, image: Words): (next: Reader) {
    if section < SECTIONS then
      var r := ReadWords(cell, addr, wren, 0, section, image);
      NextHeader(cell, r.0, r.1)
    else NextHeader(cell, SkipWords(addr, wren, 0), image)
  }

  function ReadPacket(cell: Cells, s: Reader): (next: Reader) {
    if s.header % 32 == 15 then
      var b := cell(s.addr);
      if b % 16 == 15 then NextHeader(cell, s.addr + 1, s.image)
      else ReadSection(cell, s.addr + 1, b / 16 * 8 + s.header / 32, b % 16, s.image)
    else ReadSection(cell, s.addr, s.header / 16, s.header % 16, s.image)
  }

  predicate More(s: Reader) {
    s.header != 0xFF && s.addr < CONTENT_LEN
  }

  function Left(s: Reader): (n: nat) {
    if More(s) then 1 + CONTENT_LEN - s.addr else 0
  }

  lemma ReadPacketAdvances(cell: Cells, s: Reader)
    requires More(s)
    ensures Left(ReadPacket(cell, s)) < Left(s)
  {
  }

  function ReadLog(cell: Cells, s: Reader): (last: Words)
    decreases Left(s)
  {
    if More(s) then
      ReadPacketAdvances(cell, s);
      ReadLog(cell, ReadPacket(cell, s))
    else s.image
  }

  // ----- the reader undoes the writer -----

  lemma {:induction false} NoData(image: Words, section: nat, i: nat, ws: seq<Option<u16>>)
    requires section < SECTIONS && i + |ws| == WORDS && Data(ws) == []
    ensures Update(image, section, i, ws) == image
    decreases |ws|
  {
    if ws == [] {
    } else {
      NoData(image, section, i + 1, ws[1..]);
    }
  }

  lemma ReadUpdated(cell: Cells, a: nat, wren: nat, i: nat, section: nat, image: Words, v: u16)
    requires section < SECTIONS && i < WORDS && wren % 2 == 0
    requires cell(a) == v % 256 && cell(a + 1) == v / 256 && a + 2 <= CONTENT_LEN
    ensures var image' := image[section * WORDS + i := v];
            ReadWords(cell, a, wren, i, section, image) ==
            if a + 2 >= CONTENT_LEN then (a + 2, image') else ReadWords(cell, a + 2, wren / 2, i + 1, section, image')
  {
  }

  lemma ReadDisabled(cell: Cells, a: nat, wren: nat, i: nat, section: nat, image: Words)
    requires section < SECTIONS && i < WORDS && wren % 2 == 1
    ensures ReadWords(cell, a, wren, i, section, image) == ReadWords(cell, a, wren / 2, i + 1, section, image)
  {
  }

  lemma ReadNone(cell: Cells, a: nat, wren: nat, section: nat, image: Words)
    requires section < SECTIONS
    ensures ReadWords(cell, a, wren, WORDS, section, image) == (a, image)
  {
  }

  lemma {:induction false} WordsRead(cell: Cells, a: nat, i: nat, section: nat, ws: seq<Option<u16>>, image: Words)
    requires section < SECTIONS && i + |ws| == WORDS
    requires Stored(cell, a, Data(ws)) && a + |Data(ws)| <= CONTENT_LEN
    ensures ReadWords(cell, a, Disabled(ws), i, section, image) == (a + |Data(ws)|, Update(image, section, i, ws))
    decreases |ws|
  {
    hide ReadWords, Stored;
    if ws == [] {
      ReadNone(cell, a, 0, section, image);
    } else if ws[0].Some? {
      var v := ws[0].value;
      StoredSplit(cell, a, [v % 256, v / 256], Data(ws[1..]));
      StoredAt(cell, a, [v % 256, v / 256], 0);
      StoredAt(cell, a, [v % 256, v / 256], 1);
      ReadUpdated(cell, a, Disabled(ws), i, section, image, v);
      var image' := image[section * WORDS + i := v];
      if a + 2 >= CONTENT_LEN {
        NoData(image', section, i + 1, ws[1..]);
      } else {
        WordsRead(cell, a + 2, i + 1, section, ws[1..], image');
      }
    } else {
      assert Data(ws) == Data(ws[1..]);
      ReadDisabled(cell, a, Disabled(ws), i, section, image);
      WordsRead(cell, a, i + 1, section, ws[1..], image);
    }
  }

  lemma {:induction false} DataSize(ws: seq<Option<u16>>)
    ensures SomeUpdated(ws) ==> |Data(ws)| >= 2
    ensures |Data(ws)| == 2 * |ws| <==> AllUpdated(ws)
  {
    if ws == [] {
    } else {
      DataSize(ws[1..]);
      assert AllUpdated(ws) <==> ws[0].Some? && AllUpdated(ws[1..]);
      if ws[0].None? && SomeUpdated(ws) {
        var i :| 0 <= i < |ws| && ws[i].Some?;
        assert ws[1..][i - 1] == ws[i];
      }
    }
  }

  lemma SkipsEven(addr: nat, wren: nat)
    requires addr < CONTENT_LEN && wren % 2 == 0
    ensures SkipWords(addr, wren, 0) == if addr + 8 <= CONTENT_LEN then addr + 8 else CONTENT_LEN
  {
    assert addr + 2 < CONTENT_LEN ==> SkipWords(addr, wren, 0) == SkipWords(addr + 2, wren, 1);
    assert addr + 4 < CONTENT_LEN ==> SkipWords(addr + 2, wren, 1) == SkipWords(addr + 4, wren, 2);
    assert addr + 6 < CONTENT_LEN ==> SkipWords(addr + 4, wren, 2) == SkipWords(addr + 6, wren, 3);
  }

  lemma SkipsNothing(addr: nat, wren: nat)
    requires wren % 2 == 1
    ensures SkipWords(addr, wren, 0) == addr
  {
    assert SkipWords(addr, wren, 4) == addr == SkipWords(addr, wren, 3);
    assert SkipWords(addr, wren, 3) == SkipWords(addr, wren, 2) == SkipWords(addr, wren, 1);
  }

  /** The data of a section outside the map will be passed over: all words are updated, or the data ends with the
      cells. */
  predicate SkippedRight(addr: nat, ws: seq<Option<u16>>)
    requires |ws| == WORDS
  {
    AllUpdated(ws) || (ws[0].Some? && addr + |Data(ws)| == CONTENT_LEN)
  }

  /** For a section outside the map the enable bits are not shifted; the data is passed over exactly under this
      condition. */
  lemma SkipExact(addr: nat, ws: seq<Option<u16>>)
    requires |ws| == WORDS && SomeUpdated(ws) && addr + |Data(ws)| <= CONTENT_LEN
    ensures SkipWords(addr, Disabled(ws), 0) == addr + |Data(ws)| <==> SkippedRight(addr, ws)
  {
    hide SkipWords, Data;
    DataSize(ws);
    if ws[0].Some? {
      SkipsEven(addr, Disabled(ws));
    } else {
      SkipsNothing(addr, Disabled(ws));
    }
  }

  /** Every packet for a section outside the map is passed over when the log starts at a. */
  predicate Readable(a: nat, ps: seq<Packet>)
    requires IsLog(ps)
    decreases |ps|
  {
    ps != [] ==>
      && (ps[0].section >= SECTIONS ==> SkippedRight(a + |Header(ps[0])|, ps[0].words))
      && Readable(a + |Encode(ps[0])|, ps[1..])
  }

  /** The cells from a on hold a log that fits, and a blank cell after it if there is room for one. */
  ghost predicate Programmed(cell: Cells, a: nat, ps: seq<Packet>)
    requires IsLog(ps)
  {
    && Stored(cell, a, Log(ps)) && a + |Log(ps)| <= CONTENT_LEN
    && (a + |Log(ps)| < CONTENT_LEN ==> cell(a + |Log(ps)|) == 0xFF)
  }

  /** A header never looks like a blank cell, nor a short one like the start of an extended one. */
  lemma HeaderFacts(p: Packet)
    requires IsPacket(p)
    ensures Header(p)[0] != 0xFF && |Data(p.words)| >= 2
    ensures p.extended ==>
              && |Header(p)| == 2 && Header(p)[0] % 32 == 15 && Header(p)[1] % 16 == Disabled(p.words) != 15
              && Header(p)[1] / 16 * 8 + Header(p)[0] / 32 == p.section
    ensures !p.extended ==>
              |Header(p)| == 1 && Header(p)[0] % 32 != 15 && Header(p)[0] / 16 == p.section
                  && Header(p)[0] % 16 == Disabled(p.words)
  {
    hide Disabled;
    DisabledFits(p.words);
    DataSize(p.words);
  }

  /** The section's words have been read or skipped. */
  lemma SectionRead(cell: Cells, a: nat, p: Packet, image: Words)
    requires IsPacket(p) && Stored(cell, a, Data(p.words)) && a + |Data(p.words)| <= CONTENT_LEN
    requires p.section >= SECTIONS ==> SkippedRight(a, p.words)
    ensures ReadSection(cell, a, p.section, Disabled(p.words), image)
         == NextHeader(cell, a + |Data(p.words)|, Apply(image, p))
  {
    hide NextHeader, Data, Disabled, SkippedRight;
    if p.section < SECTIONS {
      WordsRead(cell, a, 0, p.section, p.words, image);
    } else {
      SkipExact(a, p.words);
    }
  }

  /** One round of the reader reads one packet. */
  lemma PacketRead(cell: Cells, a: nat, p: Packet, image: Words)
    requires IsPacket(p) && Stored(cell, a, Encode(p)) && a + |Encode(p)| <= CONTENT_LEN
    requires p.section >= SECTIONS ==> SkippedRight(a + |Header(p)|, p.words)
    ensures ReadPacket(cell, Reader(a + 1, cell(a), image)) == NextHeader(cell, a + |Encode(p)|, Apply(image, p))
  {
    hide ReadSection, NextHeader, Data, Header, Apply, Stored, SkippedRight;
    HeaderFacts(p);
    StoredSplit(cell, a, Header(p), Data(p.words));
    if p.extended {
      StoredAt(cell, a, Header(p), 0);
      StoredAt(cell, a, Header(p), 1);
      SectionRead(cell, a + 2, p, image);
    } else {
      StoredAt(cell, a, Header(p), 0);
      SectionRead(cell, a + 1, p, image);
    }
  }

  /** From the header of a packet on, the reader replays the rest of the log. */
  lemma {:induction false} LogRead(cell: Cells, a: nat, ps: seq<Packet>, image: Words)
    requires IsLog(ps) && Programmed(cell, a, ps) && Readable(a, ps)
    ensures ReadLog(cell, NextHeader(cell, a, image)) == Replay(image, ps)
    decreases |ps|
  {
    hide ReadPacket, Apply, Encode, Header, Stored, IsPacket, SkippedRight;
    if ps == [] {
    } else {
      var p := ps[0];
      StoredSplit(cell, a, Encode(p), Log(ps[1..]));
      EncodeFirst(cell, a, p);
      PacketRead(cell, a, p, image);
      LogRead(cell, a + |Encode(p)|, ps[1..], Apply(image, p));
    }
  }

  lemma EncodeFirst(cell: Cells, a: nat, p: Packet)
    requires IsPacket(p) && Stored(cell, a, Encode(p))
    ensures cell(a) != 0xFF && |Encode(p)| >= 3
  {
    hide Stored, Header, Data;
    HeaderFacts(p);
    StoredAt(cell, a, Encode(p), 0);
  }

  /** Reading the cells a non-empty log was written to gives, in every word of the map, the last value written to
      it, and 0xFFFF where none was. */
  lemma RoundTrip(cell: Cells, ps: seq<Packet>, k: nat)
    requires IsLog(ps) && ps != [] && Programmed(cell, 0, ps) && Readable(0, ps) && k < SECTIONS * WORDS
    ensures cell(0) != 0xFF
    ensures ReadLog(cell, NextHeader(cell, 0, BLANK))[k]
         == match LastWrite(ps, k) case Some(v) => v case None => 0xFFFF
  {
    hide IsPacket, Encode, Stored;
    StoredSplit(cell, 0, Encode(ps[0]), Log(ps[1..]));
    EncodeFirst(cell, 0, ps[0]);
    LogRead(cell, 0, ps, BLANK);
    ReplayLast(ps, k);
  }

  /** An update of the first word of a section. */
  function FirstWord(section: nat, extended: bool, v: u16): (p: Packet)
    ensures SomeUpdated(p.words)
  {
    var ws := [Some(v), None, None, None];
    assert ws[0].Some?;
    Packet(section, extended, ws)
  }

  lemma FirstWordEncoded(section: nat, extended: bool, v: u16)
    requires section < 128 && (extended || section < 16)
    ensures var p := FirstWord(section, extended, v);
            && IsPacket(p) && Disabled(p.words) == 14 && Data(p.words) == [v % 256, v / 256]
            && Encode(p) == (if extended then [section % 8 * 32 + 15, section / 8 * 16 + 14] else [section * 16 + 14])
                            + [v % 256, v / 256]
  {
    var ws := FirstWord(section, extended, v).words;
    assert ws[1..] == [None, None, None] && ws[1..][1..] == [None, None] && ws[1..][1..][1..] == [None];
    assert Disabled([None]) == 1 && Disabled([None, None]) == 3 && Disabled([None, None, None]) == 7;
    assert Data([None]) == [] && Data([None, None]) == [] && Data([None, None, None]) == [];
  }

  /** What a packet that is not passed over does: an update in section 64, outside the map, hides the following
      update of the map's first word v for ever. */
  lemma MisreadLog(cell: Cells, u: u16, v: u16)
    requires var ps := [FirstWord(64, true, u), FirstWord(0, false, v)];
             IsLog(ps) && Stored(cell, 0, Log(ps)) && forall a :: a >= |Log(ps)| ==> cell(a) == 0xFF
    ensures var ps := [FirstWord(64, true, u), FirstWord(0, false, v)];
            && Programmed(cell, 0, ps) && LastWrite(ps, 0) == Some(v)
            && ReadLog(cell, NextHeader(cell, 0, BLANK))[0] == 0xFFFF
  {
    hide Encode, Data, Disabled, SkipWords, FirstWord, ReadWords;
    var p, q := FirstWord(64, true, u), FirstWord(0, false, v);
    FirstWordEncoded(64, true, u);
    FirstWordEncoded(0, false, v);
    LogOfTwo(p, q);
    var bytes := Log([p, q]);
    assert bytes == [15, 142, u % 256, u / 256, 14, v % 256, v / 256];
    StoredAt(cell, 0, bytes, 0);
    StoredAt(cell, 0, bytes, 1);
    SkipsEven(2, 14);
    assert cell(10) == 0xFF;
    LastOfTwo(p, q, v);
  }

  lemma LogOfTwo(p: Packet, q: Packet)
    requires IsPacket(p) && IsPacket(q)
    ensures IsLog([p, q]) && Log([p, q]) == Encode(p) + Encode(q)
  {
    hide Encode, IsPacket;
    assert [p, q][1..] == [q] && [q][1..] == [];
    assert Log([q]) == Encode(q) + Log([]);
  }

  lemma LastOfTwo(p: Packet, q: Packet, v: u16)
    requires IsLog([p, q]) && q == FirstWord(0, false, v)
    ensures LastWrite([p, q], 0) == Some(v)
  {
  }

  // ----- the format, byte by byte -----

  /** What a section's data of one word does, at the cells of the data and the enable bits with only bit i clear. */
  lemma OneWordRead(cell: Cells, a: nat, section: nat, i: nat, v: u16)
    requires section < SECTIONS && i < 4 && cell(a) == v % 256 && cell(a + 1) == v / 256 && a + 2 < CONTENT_LEN
    ensures var wren := if i == 0 then 14 else if i == 1 then 13 else if i == 2 then 11 else 7;
            ReadWords(cell, a, wren, 0, section, BLANK) == (a + 2, BLANK[4 * section + i := v])
  {
    hide ReadWords, ReadWord;
    var b := BLANK[4 * section + i := v];
    if i == 0 {
      ReadUpdated(cell, a, 14, 0, section, BLANK, v);
      ReadDisabled(cell, a + 2, 7, 1, section, b);
      ReadDisabled(cell, a + 2, 3, 2, section, b);
      ReadDisabled(cell, a + 2, 1, 3, section, b);
    } else if i == 1 {
      ReadDisabled(cell, a, 13, 0, section, BLANK);
      ReadUpdated(cell, a, 6, 1, section, BLANK, v);
      ReadDisabled(cell, a + 2, 3, 2, section, b);
      ReadDisabled(cell, a + 2, 1, 3, section, b);
    } else if i == 2 {
      ReadDisabled(cell, a, 11, 0, section, BLANK);
      ReadDisabled(cell, a, 5, 1, section, BLANK);
      ReadUpdated(cell, a, 2, 2, section, BLANK, v);
      ReadDisabled(cell, a + 2, 1, 3, section, b);
    } else {
      ReadDisabled(cell, a, 7, 0, section, BLANK);
      ReadDisabled(cell, a, 3, 1, section, BLANK);
      ReadDisabled(cell, a, 1, 2, section, BLANK);
      ReadUpdated(cell, a, 0, 3, section, BLANK, v);
    }
    ReadNone(cell, a + 2, 0, section, b);
  }

  /** A short header holds the section in its high and the enable bits in its low half, clear for the words that
      follow. */
  lemma ShortHeader(cell: Cells, section: nat, i: nat, v: u16)
    requires section < 16 && i < 4
    requires cell(0) == 16 * section + if i == 0 then 14 else if i == 1 then 13 else if i == 2 then 11 else 7
    requires cell(1) + 256 * cell(2) == v && cell(3) == 0xFF
    ensures ReadLog(cell, NextHeader(cell, 0, BLANK)) == BLANK[4 * section + i := v]
  {
    hide ReadWords;
    OneWordRead(cell, 1, section, i, v);
    assert ReadPacket(cell, Reader(1, cell(0), BLANK)) == Reader(3, 0xFF, BLANK[4 * section + i := v]);
  }

  /** An extended header ends in 15 and holds the section's three low bits above that; its second byte holds the
      others in its high half. */
  lemma ExtendedHeader(cell: Cells, section: nat, i: nat, v: u16)
    requires section < 64 && i < 4
    requires cell(0) == 32 * (section % 8) + 15
    requires cell(1) == 16 * (section / 8) + if i == 0 then 14 else if i == 1 then 13 else if i == 2 then 11 else 7
    requires cell(2) + 256 * cell(3) == v && cell(4) == 0xFF
    ensures ReadLog(cell, NextHeader(cell, 0, BLANK)) == BLANK[4 * section + i := v]
  {
    hide ReadWords;
    OneWordRead(cell, 2, section, i, v);
    assert ReadPacket(cell, Reader(1, cell(0), BLANK)) == Reader(4, 0xFF, BLANK[4 * section + i := v]);
  }

  /** Four words of a section follow each other in ascending order, each with its low byte first. */
  lemma FourWords(cell: Cells, section: nat, v: seq<u16>)
    requires section < 16 && |v| == 4 && cell(0) == 16 * section && cell(9) == 0xFF
    requires forall i :: 0 <= i < 4 ==> cell(2 * i + 1) + 256 * cell(2 * i + 2) == v[i]
    ensures ReadLog(cell, NextHeader(cell, 0, BLANK)) == BLANK[..4 * section] + v + BLANK[4 * section + 4..]
  {
    hide ReadWords, ReadWord;
    var w := 4 * section;
    var b0 := BLANK[w := v[0]];
    var b1 := b0[w + 1 := v[1]];
    var b2 := b1[w + 2 := v[2]];
    var b3 := b2[w + 3 := v[3]];
    ReadUpdated(cell, 1, 0, 0, section, BLANK, v[0]);
    ReadUpdated(cell, 3, 0, 1, section, b0, v[1]);
    ReadUpdated(cell, 5, 0, 2, section, b1, v[2]);
    ReadUpdated(cell, 7, 0, 3, section, b2, v[3]);
    ReadNone(cell, 9, 0, section, b3);
    assert ReadPacket(cell, Reader(1, cell(0), BLANK)) == Reader(9, 0xFF, b3);
    assert b3 == BLANK[..w] + v + BLANK[w + 4..];
  }

  /** An extended header that enables no word is passed over. */
  lemma EmptyExtended(cell: Cells, addr: nat, low: byte, image: Words)
    requires low % 32 == 15 && cell(addr) % 16 == 15 && addr + 1 < 512
    ensures ReadPacket(cell, Reader(addr, low, image)).image == image
    ensures ReadPacket(cell, Reader(addr, low, image)).header == cell(addr + 1)
    ensures ReadPacket(cell, Reader(addr, low, image)).addr == if cell(addr + 1) == 0xFF then addr + 1 else addr + 2
  {
  }

  /** A word of which only the low byte lies before the end of the cells keeps a zero high byte, and reading ends. */
  lemma CutShort(cell: Cells, section: nat, image: Words)
    requires section < 64
    ensures ReadWords(cell, 511, 14, 0, section, image) == (512, image[4 * section := cell(511)])
  {
  }

  // ----- the reader as it runs -----

  ghost function Image(word: array2<u16>): (image: Words)
    requires word.Length0 == SECTIONS && word.Length1 == WORDS
    reads word
    ensures forall k :: 0 <= k < SECTIONS * WORDS ==> image[k] == word[k / WORDS, k % WORDS]
  {
    seq(SECTIONS * WORDS, k requires 0 <= k < SECTIONS * WORDS reads word => word[k / WORDS, k % WORDS])
  }

  method SetWord(word: array2<u16>, section: nat, i: nat, v: u16)
    requires word.Length0 == SECTIONS && word.Length1 == WORDS && section < SECTIONS && i < WORDS
    modifies word
    ensures Image(word) == old(Image(word))[section * WORDS + i := v]
    ensures word[section, i] == v
  {
    word[section, i] := v;
  }

  method ReadOneWord(cell: Cells, start: nat, i: nat, section: nat, word: array2<u16>) returns (addr: nat)
    requires word.Length0 == SECTIONS && word.Length1 == WORDS && section < SECTIONS && i < WORDS
    modifies word
    ensures (addr, Image(word)) == ReadWord(cell, start, i, section, old(Image(word)))
  {
    ghost var was := Image(word);
    var b := cell(start);
    addr := start + 1;
    SetWord(word, section, i, b);
    if addr >= CONTENT_LEN {
      return;
    }
    b := cell(addr);
    addr := addr + 1;
    var low: int, high: int := word[section, i], b;
    SetWord(word, section, i, low + 256 * high);
    assert Image(word) == was[section * WORDS + i := low + 256 * high];
  }

  method ReadSectionWords(cell: Cells, start: nat, enable: nat, section: nat, word: array2<u16>) returns (addr: nat)
    requires word.Length0 == SECTIONS && word.Length1 == WORDS && section < SECTIONS
    modifies word
    ensures (addr, Image(word)) == ReadWords(cell, start, enable, 0, section, old(Image(word)))
  {
    hide ReadWord, Image;
    addr := start;
    var wren := enable;
    for i := 0 to WORDS
      invariant ReadWords(cell, addr, wren, i, section, Image(word))
             == ReadWords(cell, start, enable, 0, section, old(Image(word)))
    {
      if wren % 2 != 1 {
        addr := ReadOneWord(cell, addr, i, section, word);
        if addr >= CONTENT_LEN {
          return;
        }
      }
      wren := wren / 2;
    }
  }

  method SkipSectionWords(start: nat, wren: nat) returns (addr: nat)
    ensures addr == SkipWords(start, wren, 0)
  {
    addr := start;
    for i := 0 to WORDS
      invariant SkipWords(addr, wren, i) == SkipWords(start, wren, 0)
    {
      if wren % 2 != 1 {
        addr := addr + 1;
        if addr >= CONTENT_LEN {
          return;
        }
        addr := addr + 1;
        if addr >= CONTENT_LEN {
          return;
        }
      }
    }
  }

  /** The packet whose header has been read, and the next header. */
  method ReadOnePacket(cell: Cells, at: nat, header: byte, word: array2<u16>) returns (addr: nat, next: byte)
    requires word.Length0 == SECTIONS && word.Length1 == WORDS
    modifies word
    ensures Reader(addr, next, Image(word)) == ReadPacket(cell, Reader(at, header, old(Image(word))))
  {
    hide ReadWords, SkipWords;
    addr := at;
    var section, wren: nat;
    if header % 32 == 15 {
      var high := header / 32;
      next := cell(addr);
      if next % 16 == 15 {
        addr := addr + 1;
        next := cell(addr);
        if next != 0xFF && addr < CONTENT_LEN {
          addr := addr + 1;
        }
        return;
      }
      section, wren := next / 16 * 8 + high, next % 16;
      addr := addr + 1;
    } else {
      section, wren := header / 16, header % 16;
    }
    if section < SECTIONS {
      addr := ReadSectionWords(cell, addr, wren, section, word);
    } else {
      addr := SkipSectionWords(addr, wren);
    }
    next := cell(addr);
    if next != 0xFF && addr < CONTENT_LEN {
      addr := addr + 1;
    }
  }

  /** Read low byte first, each word that lies in these bytes of the map, which start at `offset`, is the last value
      written to it. */
  ghost predicate ShowsLast(ps: seq<Packet>, offset: nat, bytes: seq<byte>)
    requires IsLog(ps)
  {
    forall w: nat :: offset <= 2 * w && 2 * w + 1 < offset + |bytes| ==>
      (bytes[2 * w - offset] as int) + 256 * (bytes[2 * w + 1 - offset] as int)
      == match LastWrite(ps, w) case Some(v) => v case None => 0xFFFF
  }

  /** The map holds each word with its low byte first. */
  lemma MapWord(image: Words, w: nat)
    requires w < 256
    ensures (MapByte(image, 2 * w) as int) + 256 * (MapByte(image, 2 * w + 1) as int) == image[w]
  {
  }

  lemma MapShowsLast(ps: seq<Packet>, offset: nat, bytes: seq<byte>)
    requires IsLog(ps) && offset + |bytes| <= MAP_LEN
    requires forall i :: 0 <= i < |bytes| ==> bytes[i] == MapByte(Replay(BLANK, ps), offset + i)
    ensures ShowsLast(ps, offset, bytes)
  {
    hide Replay, IsLog;
    var image := Replay(BLANK, ps);
    forall w: nat | offset <= 2 * w && 2 * w + 1 < offset + |bytes|
      ensures (bytes[2 * w - offset] as int) + 256 * (bytes[2 * w + 1 - offset] as int) == image[w]
      ensures image[w] == match LastWrite(ps, w) case Some(v) => v case None => 0xFFFF
    {
      assert bytes[2 * w - offset] == MapByte(image, 2 * w) && bytes[2 * w + 1 - offset] == MapByte(image, 2 * w + 1);
      MapWord(image, w);
      ReplayLast(ps, w);
    }
  }

  /** Reads part of the map into a buffer; a range outside the map or a blank efuse leaves the buffer as it was.
      Whatever the cells hold, this ends and stays within its arrays. */
  method ReadEFuse(cell: Cells, offset: u16, size: u16, pbuf: array<byte>)
    requires size <= pbuf.Length
    modifies pbuf
    ensures offset + size > 512 || cell(0) == 0xFF ==> pbuf[..] == old(pbuf[..])
    ensures offset + size <= 512 && cell(0) != 0xFF ==>
              forall i :: 0 <= i < size ==> pbuf[i] == MapByte(ReadLog(cell, NextHeader(cell, 0, BLANK)), offset + i)
    ensures forall i :: size <= i < pbuf.Length ==> pbuf[i] == old(pbuf[i])
    ensures forall ps ::
              IsLog(ps) && ps != [] && Programmed(cell, 0, ps) && Readable(0, ps) && offset + size <= MAP_LEN ==>
              forall i :: 0 <= i < size ==> pbuf[i] == MapByte(Replay(BLANK, ps), offset + i)
    ensures forall ps ::
              IsLog(ps) && ps != [] && Programmed(cell, 0, ps) && Readable(0, ps) && offset + size <= MAP_LEN ==>
              ShowsLast(ps, offset, pbuf[..size])
  {
    hide ReadPacket, Replay, Programmed, IsLog, Readable, ShowsLast, MapByte;
    if offset + size > MAP_LEN {
      return;
    }
    var word := new u16[SECTIONS, WORDS]((i, j) => 0xFFFF);
    assert Image(word) == BLANK;
    var header := cell(0);
    if header == 0xFF {
      forall ps | IsLog(ps) && ps != [] && Programmed(cell, 0, ps) && Readable(0, ps)
        ensures false
      {
        RoundTrip(cell, ps, 0);
      }
      return;
    }
    var addr: nat := 1;
    while header != 0xFF && addr < CONTENT_LEN
      invariant ReadLog(cell, Reader(addr, header, Image(word))) == ReadLog(cell, NextHeader(cell, 0, BLANK))
      invariant fresh(word) && pbuf[..] == old(pbuf[..])
      decreases Left(Reader(addr, header, Image(word)))
    {
      ReadPacketAdvances(cell, Reader(addr, header, Image(word)));
      addr, header := ReadOnePacket(cell, addr, header, word);
    }
    var tbl := CollectMap(word);
    assert Image(word) == ReadLog(cell, NextHeader(cell, 0, BLANK));
    for i := 0 to size
      modifies pbuf
      invariant forall j :: 0 <= j < pbuf.Length ==> pbuf[j] == if j < i then tbl[offset + j] else old(pbuf[j])
    {
      pbuf[i] := tbl[offset + i];
    }
    forall ps | IsLog(ps) && ps != [] && Programmed(cell, 0, ps) && Readable(0, ps)
      ensures ReadLog(cell, NextHeader(cell, 0, BLANK)) == Replay(BLANK, ps) && ShowsLast(ps, offset, pbuf[..size])
    {
      LogRead(cell, 0, ps, BLANK);
      MapShowsLast(ps, offset, pbuf[..size]);
    }
  }

  method CollectMap(word: array2<u16>) returns (tbl: array<byte>)
    requires word.Length0 == SECTIONS && word.Length1 == WORDS
    ensures fresh(tbl) && tbl.Length == MAP_LEN && forall b :: 0 <= b < MAP_LEN ==> tbl[b] == MapByte(Image(word), b)
  {
    tbl := new byte[MAP_LEN](_ => 0);
    for i := 0 to SECTIONS
      invariant forall b :: 0 <= b < 8 * i ==> tbl[b] == MapByte(Image(word), b)
    {
      for j := 0 to WORDS
        invariant forall b :: 0 <= b < 8 * i + 2 * j ==> tbl[b] == MapByte(Image(word), b)
      {
        tbl[i * 8 + j * 2] := word[i, j] % 256;
        tbl[i * 8 + j * 2 + 1] := word[i, j] / 256;
      }
    }
  }
}
