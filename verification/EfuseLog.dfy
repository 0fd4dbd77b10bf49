/**
 The efuse as a log of packets (efuse.c): how packets are laid out in the fuse
 cells, which map a log stands for, and what the two scanners of the driver,
 `read_efuse` and `efuse_get_current_size`, make of the cells.
 */
module EfuseLog {
  import opened Buffers

  const SECTION_BASE := 16
  const BLANK: byte := 0xFF
  const NO_WORDS := 15
  /** A two-byte header and four words. */
  const MAX_PACKET := 10

  /**
   The sizes of a chip: the cells that may hold packets, the sections of the
   map, and the cells at the end of the content that no packet is begun in.
   */
  datatype Geometry = Geometry(content: nat, sections: nat, protect: nat)

  /** The sizes this driver is built with (include/rtl8812a_hal.h:127-140). */
  const JAGUAR := Geometry(512, 64, 18)

  /** A header can name every section, and a packet begun below the limit ends inside the content. */
  predicate Sane(g: Geometry) {
    g.sections <= 128 && MAX_PACKET <= g.protect
  }

  /** The read-out may look at two cells behind the content. */
  predicate Covers(g: Geometry, mem: seq<byte>) {
    g.content + 2 <= |mem|
  }

  /** The map read out of the efuse: four 16-bit words to a section. */
  predicate IsMap(g: Geometry, words: seq<int>) {
    |words| == 4 * g.sections
  }

  // ---------------------------------------------------------------------
  // Word masks: a zero bit enables the word.

  predicate Enabled(mask: nat, i: nat) {
    (if i == 0 then mask else if i == 1 then mask / 2 else if i == 2 then mask / 4 else mask / 8) % 2 == 0
  }

  /** How many of the words i, ..., 3 are enabled. */
  function Count(mask: nat, i: nat): (n: nat)
    ensures n <= 4 && (i <= 4 ==> n <= 4 - i)
    decreases mask, 4 - i
  {
    if i >= 4 then 0 else (if Enabled(mask, i) then 1 else 0) + Count(mask, i + 1)
  }

  lemma {:induction false} CountFalls(mask: nat, i: nat, j: nat)
    requires i <= j < 4
    ensures Count(mask, j) <= Count(mask, i)
    ensures Enabled(mask, j) ==> 1 <= Count(mask, j)
    ensures i < j && Enabled(mask, i) ==> Count(mask, j) < Count(mask, i)
    decreases j - i
  {
    if i < j {
      CountFalls(mask, i + 1, j);
    }
  }

  // ---------------------------------------------------------------------
  // Packets.

  datatype Packet = Packet(section: nat, mask: nat, bytes: seq<byte>, extended: bool)

  predicate Wf(p: Packet) {
    && p.section < 128 && p.mask < NO_WORDS
    && |p.bytes| == 2 * Count(p.mask, 0)
    && (p.section >= SECTION_BASE ==> p.extended)
  }

  function HeaderSize(p: Packet): (n: nat) {
    if p.extended then 2 else 1
  }

  function FirstByte(p: Packet): (b: byte)
    requires Wf(p)
  {
    if p.extended then p.section % 8 * 32 + 15 else p.section * 16 + p.mask
  }

  function SecondByte(p: Packet): (b: byte)
    requires Wf(p)
  {
    p.section / 8 * 16 + p.mask
  }

  function Header(p: Packet): (h: seq<byte>)
    requires Wf(p)
    ensures |h| == HeaderSize(p)
  {
    if p.extended then [FirstByte(p), SecondByte(p)] else [FirstByte(p)]
  }

  function Encode(p: Packet): (s: seq<byte>)
    requires Wf(p)
  {
    Header(p) + p.bytes
  }

  function Size(p: Packet): (n: nat) {
    HeaderSize(p) + 2 * Count(p.mask, 0)
  }

  predicate Writes(p: Packet, section: nat, i: nat) {
    p.section == section && Enabled(p.mask, i)
  }

  function Pair(low: int, high: int): (w: int) {
    low + 256 * high
  }

  /** The value a packet gives to word `i`. */
  function Word(p: Packet, i: nat): (w: int)
    requires Wf(p) && i < 4 && Enabled(p.mask, i)
  {
    CountFalls(p.mask, 0, i);
    var at := 2 * (Count(p.mask, 0) - Count(p.mask, i));
    Pair(p.bytes[at], p.bytes[at + 1])
  }

  /** Two packets cell by cell: section 3 with its word 0 set to 0x1234, and the extended section 43
      with words 0 and 1. */
  lemma CellsOfPackets()
    ensures var short, long := Packet(3, 14, [0x34, 0x12], false), Packet(43, 12, [0x11, 0x22, 0x33, 0x44], true);
            && Wf(short) && Encode(short) == [0x3E, 0x34, 0x12] && Word(short, 0) == 0x1234
            && Wf(long) && Encode(long) == [0x6F, 0x5C, 0x11, 0x22, 0x33, 0x44]
            && Word(long, 0) == 0x2211 && Word(long, 1) == 0x4433
  {
    assert Count(14, 3) == 0 && Count(14, 2) == 0 && Count(14, 1) == 0 && Count(14, 0) == 1;
    assert Count(12, 3) == 0 && Count(12, 2) == 0 && Count(12, 1) == 1 && Count(12, 0) == 2;
  }

  // ---------------------------------------------------------------------
  // Logs.

  ghost predicate WfLog(log: seq<Packet>) {
    forall k :: 0 <= k < |log| ==> Wf(log[k])
  }

  /** Every packet is for a section of the map. */
  ghost predicate InMap(g: Geometry, log: seq<Packet>) {
    forall k :: 0 <= k < |log| ==> log[k].section < g.sections
  }

  function TotalSize(log: seq<Packet>): (n: nat) {
    if log == [] then 0 else Size(log[0]) + TotalSize(log[1..])
  }

  function EncodeAll(log: seq<Packet>): (s: seq<byte>)
    requires WfLog(log)
  {
    if log == [] then [] else Encode(log[0]) + EncodeAll(log[1..])
  }

  /** Packet `p` is written at address `a`. */
  predicate At(mem: seq<byte>, a: nat, p: Packet)
    requires Wf(p)
  {
    && a + Size(p) <= |mem|
    && mem[a] == FirstByte(p) && (p.extended ==> mem[a + 1] == SecondByte(p))
    && mem[a + HeaderSize(p)..a + Size(p)] == p.bytes
  }

  /** The log is written from address `a` on and is ended by a blank cell of the content area. */
  predicate Holds(g: Geometry, mem: seq<byte>, a: nat, log: seq<Packet>)
    requires WfLog(log)
    decreases |log|
  {
    if log == [] then Covers(g, mem) && a < g.content && mem[a] == BLANK
    else At(mem, a, log[0]) && Holds(g, mem, a + Size(log[0]), log[1..])
  }

  /** Word `i` of a section after a log, later packets overriding earlier ones. */
  function Reading(log: seq<Packet>, section: nat, i: nat, otherwise: int): (w: int)
    requires WfLog(log) && i < 4
  {
    if log == [] then otherwise
    else Reading(log[1..], section, i, if Writes(log[0], section, i) then Word(log[0], i) else otherwise)
  }

  /** The reading is the word of the last packet that writes it. */
  lemma {:induction false} LastWriterWins(log: seq<Packet>, section: nat, i: nat, otherwise: int, k: nat)
    requires WfLog(log) && i < 4 && k <= |log|
    requires k < |log| ==> Writes(log[k], section, i)
    requires k == |log| ==> forall j :: 0 <= j < |log| ==> !Writes(log[j], section, i)
    requires forall j :: k < j < |log| ==> !Writes(log[j], section, i)
    ensures Reading(log, section, i, otherwise) == if k == |log| then otherwise else Word(log[k], i)
  {
    if log != [] {
      var next := if Writes(log[0], section, i) then Word(log[0], i) else otherwise;
      if k == 0 {
        LastWriterWins(log[1..], section, i, next, |log| - 1);
      } else {
        LastWriterWins(log[1..], section, i, next, k - 1);
      }
    }
  }

  lemma {:induction false} ReadingConcat(a: seq<Packet>, b: seq<Packet>, section: nat, i: nat, otherwise: int)
    requires WfLog(a) && WfLog(b) && i < 4
    ensures WfLog(a + b)
    ensures Reading(a + b, section, i, otherwise) == Reading(b, section, i, Reading(a, section, i, otherwise))
  {
    if a == [] {
      assert a + b == b;
    } else {
      var next := if Writes(a[0], section, i) then Word(a[0], i) else otherwise;
      ReadingConcat(a[1..], b, section, i, next);
      assert (a + b)[1..] == a[1..] + b && (a + b)[0] == a[0];
    }
  }

  lemma {:induction false} TotalSizeConcat(a: seq<Packet>, b: seq<Packet>)
    ensures TotalSize(a + b) == TotalSize(a) + TotalSize(b)
  {
    if a == [] {
      assert a + b == b;
    } else {
      TotalSizeConcat(a[1..], b);
      assert (a + b)[1..] == a[1..] + b;
    }
  }

  lemma {:induction false} HoldsEnd(g: Geometry, mem: seq<byte>, a: nat, log: seq<Packet>)
    requires WfLog(log) && Holds(g, mem, a, log)
    ensures Covers(g, mem) && a + TotalSize(log) < g.content && mem[a + TotalSize(log)] == BLANK
    decreases |log|
  {
    if log != [] {
      HoldsEnd(g, mem, a + Size(log[0]), log[1..]);
    }
  }

  lemma EncodeSize(p: Packet)
    requires Wf(p)
    ensures |Encode(p)| == Size(p)
  {
  }

  lemma {:induction false} EncodeAllSize(log: seq<Packet>)
    requires WfLog(log)
    ensures |EncodeAll(log)| == TotalSize(log)
  {
    if log != [] {
      EncodeSize(log[0]);
      EncodeAllSize(log[1..]);
    }
  }

  lemma AtIsEncoding(mem: seq<byte>, a: nat, p: Packet)
    requires Wf(p) && a + Size(p) <= |mem|
    ensures At(mem, a, p) <==> mem[a..a + Size(p)] == Encode(p)
  {
    var h := Header(p);
    SplitSlice(mem, a, h, p.bytes);
    var front := mem[a..a + |h|];
    assert front[0] == mem[a] && (p.extended ==> front[1] == mem[a + 1]);
    assert front == h <==> front[0] == h[0] && (p.extended ==> front[1] == h[1]);
  }

  lemma SplitSlice(mem: seq<byte>, a: nat, x: seq<byte>, y: seq<byte>)
    requires a + |x| + |y| <= |mem|
    ensures mem[a..a + |x| + |y|] == x + y <==> mem[a..a + |x|] == x && mem[a + |x|..a + |x| + |y|] == y
  {
    var s, b, c := mem[a..a + |x| + |y|], mem[a..a + |x|], mem[a + |x|..a + |x| + |y|];
    assert s == b + c;
    if s == x + y {
      assert b == (x + y)[..|x|] == x;
      assert c == (x + y)[|x|..] == y;
    }
  }

  /** The cells from `a` on spell `text`, followed by a blank cell of the content area. */
  predicate Spells(g: Geometry, mem: seq<byte>, a: nat, text: seq<byte>) {
    && Covers(g, mem) && a + |text| < g.content
    && mem[a..a + |text|] == text && mem[a + |text|] == BLANK
  }

  lemma SpellsConcat(g: Geometry, mem: seq<byte>, a: nat, x: seq<byte>, y: seq<byte>)
    ensures Spells(g, mem, a, x + y) <==> a + |x| <= |mem| && mem[a..a + |x|] == x && Spells(g, mem, a + |x|, y)
  {
    if Covers(g, mem) && a + |x| + |y| < g.content {
      SplitSlice(mem, a, x, y);
    }
  }

  lemma {:induction false} EncodeAllConcat(a: seq<Packet>, b: seq<Packet>)
    requires WfLog(a) && WfLog(b)
    ensures WfLog(a + b) && EncodeAll(a + b) == EncodeAll(a) + EncodeAll(b)
  {
    if a == [] {
      assert a + b == b && [] + EncodeAll(b) == EncodeAll(b);
    } else {
      EncodeAllConcat(a[1..], b);
      assert (a + b)[0] == a[0] && (a + b)[1..] == a[1..] + b;
      ConcatAssoc(Encode(a[0]), EncodeAll(a[1..]), EncodeAll(b));
    }
  }

  lemma EncodeAllOne(p: Packet)
    requires Wf(p)
    ensures EncodeAll([p]) == Encode(p)
  {
    assert [p][1..] == [] && Encode(p) + [] == Encode(p);
  }

  /** Holding a log is having its encoding, ended by a blank cell, in the cells. */
  lemma {:induction false} HoldsIsEncoding(g: Geometry, mem: seq<byte>, a: nat, log: seq<Packet>)
    requires WfLog(log)
    ensures Holds(g, mem, a, log) <==> Spells(g, mem, a, EncodeAll(log))
    decreases |log|
  {
    if log != [] {
      HoldsIsEncoding(g, mem, a + Size(log[0]), log[1..]);
      SpellsPacket(g, mem, a, log[0], EncodeAll(log[1..]));
    }
  }

  lemma SpellsPacket(g: Geometry, mem: seq<byte>, a: nat, p: Packet, text: seq<byte>)
    requires Wf(p)
    ensures Spells(g, mem, a, Encode(p) + text) <==> At(mem, a, p) && Spells(g, mem, a + Size(p), text)
  {
    EncodeSize(p);
    if a + Size(p) <= |mem| {
      AtIsEncoding(mem, a, p);
    }
    SpellsConcat(g, mem, a, Encode(p), text);
  }

  lemma {:induction false} HoldsBehind(g: Geometry, mem: seq<byte>, a: nat, front: seq<Packet>, back: seq<Packet>)
    requires WfLog(front) && WfLog(back) && WfLog(front + back) && Holds(g, mem, a, front + back)
    ensures Holds(g, mem, a + TotalSize(front), back)
    decreases |front|
  {
    if front == [] {
      assert front + back == back;
    } else {
      assert (front + back)[0] == front[0] && (front + back)[1..] == front[1..] + back;
      HoldsBehind(g, mem, a + Size(front[0]), front[1..], back);
    }
  }

  lemma HoldsSuffix(g: Geometry, mem: seq<byte>, a: nat, log: seq<Packet>, k: nat)
    requires WfLog(log) && Holds(g, mem, a, log) && k <= |log|
    ensures Holds(g, mem, a + TotalSize(log[..k]), log[k..])
    ensures TotalSize(log[..k]) + TotalSize(log[k..]) == TotalSize(log)
  {
    var front, back := log[..k], log[k..];
    assert log == front + back;
    TotalSizeConcat(front, back);
    HoldsBehind(g, mem, a, front, back);
  }

  lemma NextBoundary(log: seq<Packet>, k: nat)
    requires k < |log|
    ensures TotalSize(log[..k + 1]) == TotalSize(log[..k]) + Size(log[k])
  {
    assert log[..k + 1] == log[..k] + [log[k]];
    TotalSizeConcat(log[..k], [log[k]]);
    assert [log[k]][1..] == [];
  }

  /** Where packet k lies, and where the log ends. */
  lemma HoldsAt(g: Geometry, mem: seq<byte>, log: seq<Packet>, k: nat)
    requires WfLog(log) && Holds(g, mem, 0, log) && k <= |log|
    ensures Covers(g, mem) && TotalSize(log[..k]) <= TotalSize(log) < g.content
    ensures k < |log| ==> At(mem, TotalSize(log[..k]), log[k]) && TotalSize(log[..k]) + Size(log[k]) <= TotalSize(log)
    ensures k == |log| ==> TotalSize(log[..k]) == TotalSize(log) && mem[TotalSize(log[..k])] == BLANK
  {
    var at, back := TotalSize(log[..k]), log[k..];
    HoldsSuffix(g, mem, 0, log, k);
    HoldsEnd(g, mem, at, back);
    if k < |log| {
      HoldsHead(g, mem, at, back);
      assert back[0] == log[k];
    }
  }

  /** A log taken apart behind its first packet. */
  lemma HoldsHead(g: Geometry, mem: seq<byte>, a: nat, log: seq<Packet>)
    requires WfLog(log) && log != [] && Holds(g, mem, a, log)
    ensures Wf(log[0]) && WfLog(log[1..]) && At(mem, a, log[0]) && Holds(g, mem, a + Size(log[0]), log[1..])
    ensures TotalSize(log) == Size(log[0]) + TotalSize(log[1..]) && a + TotalSize(log) < g.content && Covers(g, mem)
  {
    HoldsEnd(g, mem, a, log);
  }

  // ---------------------------------------------------------------------
  // Headers as the scanners decode them.

  predicate IsExtended(header: byte) {
    header % 32 == 15
  }

  lemma DecodeShort(section: nat, mask: nat, h: byte)
    requires section < 16 && mask < NO_WORDS && h == section * 16 + mask
    ensures h != BLANK && !IsExtended(h) && h / 16 == section && h % 16 == mask
  {
  }

  lemma DecodeExtended(section: nat, mask: nat, h: byte, x: byte)
    requires section < 128 && mask < NO_WORDS && h == section % 8 * 32 + 15 && x == section / 8 * 16 + mask
    ensures h != BLANK && IsExtended(h)
    ensures x % 16 == mask && x / 16 * 8 + h / 32 == section
  {
  }

  /** The data cells of a packet, one by one. */
  lemma CellsAt(mem: seq<byte>, a: nat, p: Packet)
    requires Wf(p) && At(mem, a, p)
    ensures forall k :: 0 <= k < |p.bytes| ==> mem[a + HeaderSize(p) + k] == p.bytes[k]
  {
    var data := mem[a + HeaderSize(p)..a + Size(p)];
    assert forall k :: 0 <= k < |p.bytes| ==> data[k] == mem[a + HeaderSize(p) + k];
  }

  lemma HeaderAt(mem: seq<byte>, a: nat, p: Packet)
    requires Wf(p) && At(mem, a, p)
    ensures mem[a] != BLANK && IsExtended(mem[a]) == p.extended
    ensures !p.extended ==> mem[a] / 16 == p.section && mem[a] % 16 == p.mask
    ensures p.extended ==> mem[a + 1] % 16 == p.mask && mem[a + 1] / 16 * 8 + mem[a] / 32 == p.section
  {
    if p.extended {
      DecodeExtended(p.section, p.mask, mem[a], mem[a + 1]);
    } else {
      DecodeShort(p.section, p.mask, mem[a]);
    }
  }

  // ---------------------------------------------------------------------
  // read_efuse.

  datatype Filled = Filled(words: seq<int>, next: nat)

  /** The enabled words i, ..., 3 of one packet, whose next data byte is at `a`; stops short at the end of the area. */
  function Fill(g: Geometry, mem: seq<byte>, a: nat, section: nat, mask: nat, i: nat, words: seq<int>): (r: Filled)
    requires Covers(g, mem) && IsMap(g, words) && a <= g.content && section < g.sections && i <= 4
    ensures a <= r.next <= g.content + 1 && |r.words| == |words|
    decreases mask, 4 - i
  {
    if i == 4 then Filled(words, a)
    else if !Enabled(mask, i) then Fill(g, mem, a, section, mask, i + 1, words)
    else
      var low := words[4 * section + i := mem[a]];
      if a + 1 >= g.content then Filled(low, a + 1)
      else
        var both := low[4 * section + i := Pair(mem[a], mem[a + 1])];
        if a + 2 >= g.content then Filled(both, a + 2)
        else Fill(g, mem, a + 2, section, mask, i + 1, both)
  }

  /** The data of one packet: nothing is read for a section outside the map. */
  function FillPacket(g: Geometry, mem: seq<byte>, a: nat, section: nat, mask: nat, words: seq<int>): (r: Filled)
    requires Covers(g, mem) && IsMap(g, words) && a <= g.content
    ensures a <= r.next <= g.content + 1 && |r.words| == |words|
  {
    if section < g.sections then Fill(g, mem, a, section, mask, 0, words) else Filled(words, a)
  }

  /** The read-out from the header at `a` on. */
  function Sweep(g: Geometry, mem: seq<byte>, a: nat, words: seq<int>): (r: Filled)
    requires Covers(g, mem) && IsMap(g, words) && a <= g.content + 1
    ensures |r.words| == |words|
    decreases mem, g.content + 2 - a
  {
    if mem[a] == BLANK || a + 1 >= g.content then Filled(words, a + 1)
    else if IsExtended(mem[a]) then
      var x := mem[a + 1];
      if x == BLANK then Filled(words, a + 2)
      else if x % 16 == NO_WORDS then Filled(words, a + 3)
      else
        var f := FillPacket(g, mem, a + 2, x / 16 * 8 + mem[a] / 32, x % 16, words);
        Sweep(g, mem, f.next, f.words)
    else
      var f := FillPacket(g, mem, a + 1, mem[a] / 16, mem[a] % 16, words);
      Sweep(g, mem, f.next, f.words)
  }

  /** The value Fill finds for word `j` when the words i, ..., 3 start at `a`. */
  function Taken(mem: seq<byte>, a: nat, mask: nat, i: nat, j: nat): (w: int)
    requires i <= j < 4 && Enabled(mask, j) && a + 2 * Count(mask, i) <= |mem|
  {
    CountFalls(mask, i, j);
    var at := a + 2 * (Count(mask, i) - Count(mask, j));
    Pair(mem[at], mem[at + 1])
  }

  /** With room before the end of the area, all the words are read. */
  lemma {:induction false} FillEnds(g: Geometry, mem: seq<byte>, a: nat, section: nat, mask: nat, i: nat,
                                    words: seq<int>)
    requires Covers(g, mem) && IsMap(g, words) && section < g.sections && i <= 4
    requires a + 2 * Count(mask, i) < g.content
    ensures Fill(g, mem, a, section, mask, i, words).next == a + 2 * Count(mask, i)
    decreases 4 - i
  {
    if i < 4 {
      if !Enabled(mask, i) {
        FillEnds(g, mem, a, section, mask, i + 1, words);
      } else {
        FillTakesOne(g, mem, a, section, mask, i, words);
        FillEnds(g, mem, a + 2, section, mask, i + 1, words[4 * section + i := Pair(mem[a], mem[a + 1])]);
      }
    }
  }

  /** And exactly the enabled words are taken, low byte first. */
  lemma {:induction false} FillTakesWords(g: Geometry, mem: seq<byte>, a: nat, section: nat, mask: nat, i: nat,
                                          words: seq<int>, j: nat, s: nat)
    requires Covers(g, mem) && IsMap(g, words) && section < g.sections && i <= 4 && s < g.sections && j < 4
    requires a + 2 * Count(mask, i) < g.content
    ensures Fill(g, mem, a, section, mask, i, words).words[4 * s + j] ==
            if s == section && i <= j && Enabled(mask, j) then Taken(mem, a, mask, i, j) else words[4 * s + j]
    decreases 4 - i
  {
    if i < 4 {
      if i < j && Enabled(mask, j) {
        TakenLater(mem, a, mask, i, j);
      }
      if !Enabled(mask, i) {
        FillTakesWords(g, mem, a, section, mask, i + 1, words, j, s);
      } else {
        var both := words[4 * section + i := Pair(mem[a], mem[a + 1])];
        FillTakesOne(g, mem, a, section, mask, i, words);
        FillTakesWords(g, mem, a + 2, section, mask, i + 1, both, j, s);
      }
    }
  }

  lemma TakenLater(mem: seq<byte>, a: nat, mask: nat, i: nat, j: nat)
    requires i < j < 4 && Enabled(mask, j) && a + 2 * Count(mask, i) <= |mem|
    ensures Enabled(mask, i) ==>
              Count(mask, i) == Count(mask, i + 1) + 1 && Taken(mem, a, mask, i, j) == Taken(mem, a + 2, mask, i + 1, j)
    ensures !Enabled(mask, i) ==>
              Count(mask, i) == Count(mask, i + 1) && Taken(mem, a, mask, i, j) == Taken(mem, a, mask, i + 1, j)
  {
  }

  lemma FillTakesOne(g: Geometry, mem: seq<byte>, a: nat, section: nat, mask: nat, i: nat, words: seq<int>)
    requires Covers(g, mem) && IsMap(g, words) && section < g.sections && i < 4 && Enabled(mask, i)
    requires a + 2 * Count(mask, i) < g.content
    ensures var both := words[4 * section + i := Pair(mem[a], mem[a + 1])];
            && Count(mask, i) == Count(mask, i + 1) + 1 && IsMap(g, both)
            && Fill(g, mem, a, section, mask, i, words) == Fill(g, mem, a + 2, section, mask, i + 1, both)
  {
    var at := 4 * section + i;
    assert words[at := mem[a]][at := Pair(mem[a], mem[a + 1])] == words[at := Pair(mem[a], mem[a + 1])];
  }

  lemma TakenIsWord(mem: seq<byte>, a: nat, p: Packet, j: nat)
    requires Wf(p) && At(mem, a, p) && j < 4 && Enabled(p.mask, j)
    ensures Taken(mem, a + HeaderSize(p), p.mask, 0, j) == Word(p, j)
  {
    CellsAt(mem, a, p);
    CountFalls(p.mask, 0, j);
  }

  lemma SweepUnfolds(g: Geometry, mem: seq<byte>, a: nat, p: Packet, words: seq<int>)
    requires Covers(g, mem) && IsMap(g, words)
    requires Wf(p) && p.section < g.sections && At(mem, a, p) && a + Size(p) < g.content
    ensures var f := Fill(g, mem, a + HeaderSize(p), p.section, p.mask, 0, words);
            Sweep(g, mem, a, words) == Sweep(g, mem, f.next, f.words)
  {
    HeaderAt(mem, a, p);
  }

  /** One packet of the log read: the sweep goes on behind it with its words taken over. */
  lemma SweepPacket(g: Geometry, mem: seq<byte>, a: nat, p: Packet, words: seq<int>, s: nat, j: nat)
    returns (after: seq<int>)
    requires Covers(g, mem) && IsMap(g, words) && s < g.sections && j < 4
    requires Wf(p) && p.section < g.sections && At(mem, a, p) && a + Size(p) < g.content
    ensures IsMap(g, after) && Sweep(g, mem, a, words) == Sweep(g, mem, a + Size(p), after)
    ensures after[4 * s + j] == if Writes(p, s, j) then Word(p, j) else words[4 * s + j]
  {
    var data := a + HeaderSize(p);
    SweepUnfolds(g, mem, a, p, words);
    FillEnds(g, mem, data, p.section, p.mask, 0, words);
    FillTakesWords(g, mem, data, p.section, p.mask, 0, words, j, s);
    after := Fill(g, mem, data, p.section, p.mask, 0, words).words;
    if Writes(p, s, j) {
      TakenIsWord(mem, a, p, j);
    }
  }

  /** Reading a log out yields, word by word, what its last writer put there, and ends one cell behind it. */
  lemma {:induction false} SweepReadsLog(g: Geometry, mem: seq<byte>, a: nat, log: seq<Packet>, words: seq<int>,
                                         s: nat, j: nat)
    requires WfLog(log) && InMap(g, log) && Holds(g, mem, a, log) && Covers(g, mem) && a < g.content
    requires IsMap(g, words) && s < g.sections && j < 4
    ensures Sweep(g, mem, a, words).words[4 * s + j] == Reading(log, s, j, words[4 * s + j])
    ensures Sweep(g, mem, a, words).next == a + TotalSize(log) + 1
    decreases |log|
  {
    if log == [] {
      assert mem[a] == BLANK;
    } else {
      HoldsHead(g, mem, a, log);
      var after := SweepPacket(g, mem, a, log[0], words, s, j);
      SweepReadsLog(g, mem, a + Size(log[0]), log[1..], after, s, j);
    }
  }

  // ---------------------------------------------------------------------
  // efuse_get_current_size.

  /** Where the scan from address `a` stops. */
  function CurrentSize(g: Geometry, mem: seq<byte>, a: nat): (r: nat)
    requires Covers(g, mem)
    decreases mem, g.content - a
  {
    if a >= g.content || mem[a] == BLANK then a
    else if !IsExtended(mem[a]) then CurrentSize(g, mem, a + 2 * Count(mem[a] % 16, 0) + 1)
    else if mem[a + 1] % 16 == NO_WORDS then CurrentSize(g, mem, a + 2)
    else CurrentSize(g, mem, a + 2 * Count(mem[a + 1] % 16, 0) + 2)
  }

  lemma SizeSkipsPacket(g: Geometry, mem: seq<byte>, a: nat, p: Packet)
    requires Covers(g, mem) && Wf(p) && At(mem, a, p) && a + Size(p) < g.content
    ensures CurrentSize(g, mem, a) == CurrentSize(g, mem, a + Size(p))
  {
    HeaderAt(mem, a, p);
  }

  lemma SizeAtBlank(g: Geometry, mem: seq<byte>, a: nat)
    requires Covers(g, mem) && a < g.content && mem[a] == BLANK
    ensures CurrentSize(g, mem, a) == a
  {
  }

  /** From the start of any log the scan stops exactly at its end. */
  lemma {:induction false} SizeStopsAtEnd(g: Geometry, mem: seq<byte>, a: nat, log: seq<Packet>)
    requires WfLog(log) && Holds(g, mem, a, log) && Covers(g, mem)
    ensures CurrentSize(g, mem, a) == a + TotalSize(log)
    decreases |log|
  {
    if log == [] {
      SizeAtBlank(g, mem, a);
    } else {
      HoldsHead(g, mem, a, log);
      SizeStopsAtEnd(g, mem, a + Size(log[0]), log[1..]);
      StopsLater(g, mem, a, log, a + TotalSize(log));
    }
  }

  lemma StopsLater(g: Geometry, mem: seq<byte>, a: nat, log: seq<Packet>, end: nat)
    requires WfLog(log) && log != [] && Holds(g, mem, a, log) && Covers(g, mem)
    requires CurrentSize(g, mem, a + Size(log[0])) == end
    ensures CurrentSize(g, mem, a) == end
  {
    HoldsHead(g, mem, a, log);
    SizeSkipsPacket(g, mem, a, log[0]);
  }

  predicate Boundary(log: seq<Packet>, a: nat) {
    exists k :: 0 <= k <= |log| && TotalSize(log[..k]) == a
  }

  /** From any packet boundary the scan stops exactly at the end of the log. */
  lemma SizeFromBoundary(g: Geometry, mem: seq<byte>, log: seq<Packet>, a: nat)
    requires WfLog(log) && Holds(g, mem, 0, log) && Covers(g, mem) && Boundary(log, a)
    ensures CurrentSize(g, mem, a) == TotalSize(log)
  {
    var k :| 0 <= k <= |log| && TotalSize(log[..k]) == a;
    HoldsSuffix(g, mem, 0, log, k);
    SizeStopsAtEnd(g, mem, a, log[k..]);
  }

  /** The scan never goes back, and inside the content it stops on a blank cell. */
  lemma {:induction false} SizeGrows(g: Geometry, mem: seq<byte>, a: nat)
    requires Covers(g, mem)
    ensures a <= CurrentSize(g, mem, a)
    ensures CurrentSize(g, mem, a) < g.content ==> mem[CurrentSize(g, mem, a)] == BLANK
    decreases g.content - a
  {
    if a < g.content && mem[a] != BLANK {
      if !IsExtended(mem[a]) {
        SizeGrows(g, mem, a + 2 * Count(mem[a] % 16, 0) + 1);
      } else if mem[a + 1] % 16 == NO_WORDS {
        SizeGrows(g, mem, a + 2);
      } else {
        SizeGrows(g, mem, a + 2 * Count(mem[a + 1] % 16, 0) + 2);
      }
    }
  }

  /**
   A scan that ends outside a stretch of blank cells has not looked at any of
   them, unless through an extended header right in front: other contents
   there do not change where it ends.
   */
  lemma {:induction false} ScanAvoidsBlanks(g: Geometry, mem: seq<byte>, mem1: seq<byte>, lo: nat, hi: nat, a: nat)
    requires Covers(g, mem) && |mem1| == |mem| && 0 < lo <= hi <= g.content
    requires forall k :: 0 <= k < |mem| && !(lo <= k < hi) ==> mem1[k] == mem[k]
    requires (forall k :: lo <= k < hi ==> mem[k] == BLANK) && !IsExtended(mem[lo - 1])
    requires !(lo <= CurrentSize(g, mem, a) < hi)
    ensures Covers(g, mem1) && CurrentSize(g, mem1, a) == CurrentSize(g, mem, a)
    decreases g.content - a
  {
    if a < g.content && mem[a] != BLANK {
      var hop := Hop(mem[a], mem[a + 1]);
      ScanHops(g, mem, a);
      ScanAvoidsBlanks(g, mem, mem1, lo, hi, a + hop);
      SameCell(mem, mem1, lo, hi, a);
      ScanHops(g, mem1, a);
    }
  }

  /** How far the scan goes from a header byte and the byte behind it. */
  function Hop(first: byte, second: byte): (n: nat)
    ensures n > 0
  {
    if !IsExtended(first) then 2 * Count(first % 16, 0) + 1
    else if second % 16 == NO_WORDS then 2
    else 2 * Count(second % 16, 0) + 2
  }

  lemma ScanHops(g: Geometry, mem: seq<byte>, a: nat)
    requires Covers(g, mem) && a < g.content && mem[a] != BLANK
    ensures CurrentSize(g, mem, a) == CurrentSize(g, mem, a + Hop(mem[a], mem[a + 1]))
  {
  }

  lemma SameCell(mem: seq<byte>, mem1: seq<byte>, lo: nat, hi: nat, a: nat)
    requires |mem1| == |mem| && 0 < lo <= hi <= |mem| && a + 1 < |mem| && mem[a] != BLANK
    requires forall k :: 0 <= k < |mem| && !(lo <= k < hi) ==> mem1[k] == mem[k]
    requires (forall k :: lo <= k < hi ==> mem[k] == BLANK) && !IsExtended(mem[lo - 1])
    ensures mem1[a] == mem[a] && Hop(mem1[a], mem1[a + 1]) == Hop(mem[a], mem[a + 1])
  {
    if IsExtended(mem[a]) {
      assert mem1[a + 1] == mem[a + 1];
    }
  }

  /** Started where a read-out stops, the scan misses the end of the log on every chip: it only goes further. */
  lemma SizeAfterReadIsOff(g: Geometry, mem: seq<byte>, log: seq<Packet>, words: seq<int>)
    requires WfLog(log) && InMap(g, log) && Holds(g, mem, 0, log) && Covers(g, mem)
    requires IsMap(g, words) && 0 < g.sections
    ensures CurrentSize(g, mem, Sweep(g, mem, 0, words).next) > TotalSize(log)
    ensures !Boundary(log, Sweep(g, mem, 0, words).next)
  {
    HoldsEnd(g, mem, 0, log);
    SweepReadsLog(g, mem, 0, log, words, 0, 0);
    SizeGrows(g, mem, TotalSize(log) + 1);
    if Boundary(log, TotalSize(log) + 1) {
      SizeFromBoundary(g, mem, log, TotalSize(log) + 1);
    }
  }
}
