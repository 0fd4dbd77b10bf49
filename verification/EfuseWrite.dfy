/**
 What a write of one section does to a log (`efuse_pg_packet_write` in
 efuse.c): the packet it fills in, the packet it appends, and what the map
 shows of them word by word.
 */
module EfuseWrite {
  import opened Buffers
  import opened EfuseLog

  const REPEAT_THRESHOLD := 3

  type Data = d: seq<byte> | |d| == 8 witness seq(8, i => 0xFF)

  // ---------------------------------------------------------------------
  // Masks and the data they select.

  function MaskOf(a: bool, b: bool, c: bool, d: bool): (m: nat)
    ensures m <= NO_WORDS
  {
    (if a then 0 else 1) + (if b then 0 else 2) + (if c then 0 else 4) + (if d then 0 else 8)
  }

  lemma MaskOfEnables(a: bool, b: bool, c: bool, d: bool)
    ensures var m := MaskOf(a, b, c, d);
            Enabled(m, 0) == a && Enabled(m, 1) == b && Enabled(m, 2) == c && Enabled(m, 3) == d
    ensures MaskOf(a, b, c, d) == NO_WORDS <==> !a && !b && !c && !d
  {
  }

  /** The words both masks enable. */
  function Both(m: nat, n: nat): (r: nat)
    ensures r <= NO_WORDS
  {
    MaskOf(Enabled(m, 0) && Enabled(n, 0), Enabled(m, 1) && Enabled(n, 1),
           Enabled(m, 2) && Enabled(n, 2), Enabled(m, 3) && Enabled(n, 3))
  }

  /** The words `m` enables and `n` does not. */
  function Without(m: nat, n: nat): (r: nat)
    ensures r <= NO_WORDS
  {
    MaskOf(Enabled(m, 0) && !Enabled(n, 0), Enabled(m, 1) && !Enabled(n, 1),
           Enabled(m, 2) && !Enabled(n, 2), Enabled(m, 3) && !Enabled(n, 3))
  }

  lemma BothEnables(m: nat, n: nat, i: nat)
    requires i < 4
    ensures Enabled(Both(m, n), i) <==> Enabled(m, i) && Enabled(n, i)
    ensures Both(m, n) == NO_WORDS ==> !(Enabled(m, i) && Enabled(n, i))
  {
    MaskOfEnables(Enabled(m, 0) && Enabled(n, 0), Enabled(m, 1) && Enabled(n, 1),
                  Enabled(m, 2) && Enabled(n, 2), Enabled(m, 3) && Enabled(n, 3));
  }

  lemma WithoutEnables(m: nat, n: nat, i: nat)
    requires i < 4
    ensures Enabled(Without(m, n), i) <==> Enabled(m, i) && !Enabled(n, i)
    ensures Without(m, n) == NO_WORDS ==> !(Enabled(m, i) && !Enabled(n, i))
  {
    MaskOfEnables(Enabled(m, 0) && !Enabled(n, 0), Enabled(m, 1) && !Enabled(n, 1),
                  Enabled(m, 2) && !Enabled(n, 2), Enabled(m, 3) && !Enabled(n, 3));
  }

  /** The bytes of word `i`, if it is enabled. */
  function Own(mask: nat, data: Data, i: nat): (s: seq<byte>)
    requires i < 4
    ensures |s| == if Enabled(mask, i) then 2 else 0
  {
    if Enabled(mask, i) then [data[2 * i], data[2 * i + 1]] else []
  }

  /** The bytes of the enabled words i, ..., 3, packed. */
  function Pick(mask: nat, data: Data, i: nat): (s: seq<byte>)
    requires i <= 4
    ensures |s| == 2 * Count(mask, i)
    decreases mask, 4 - i
  {
    if i == 4 then [] else Own(mask, data, i) + Pick(mask, data, i + 1)
  }

  predicate PairAt(s: seq<byte>, at: int, x: byte, y: byte) {
    0 <= at && at + 1 < |s| && s[at] == x && s[at + 1] == y
  }

  lemma PairBehind(s: seq<byte>, t: seq<byte>, at: int, x: byte, y: byte)
    requires PairAt(t, at, x, y)
    ensures PairAt(s + t, |s| + at, x, y)
  {
  }

  lemma PairInFront(x: byte, y: byte, t: seq<byte>)
    ensures PairAt([x, y] + t, 0, x, y)
  {
  }

  lemma {:induction false} PickedWord(mask: nat, data: Data, i: nat, j: nat)
    requires i <= j < 4 && Enabled(mask, j)
    ensures PairAt(Pick(mask, data, i), 2 * (Count(mask, i) - Count(mask, j)), data[2 * j], data[2 * j + 1])
    decreases j - i
  {
    var x, y := data[2 * j], data[2 * j + 1];
    var own, rest := Own(mask, data, i), Pick(mask, data, i + 1);
    if i == j {
      PairInFront(x, y, rest);
    } else {
      var at := 2 * (Count(mask, i + 1) - Count(mask, j));
      PickedWord(mask, data, i + 1, j);
      PairBehind(own, rest, at, x, y);
      assert |own| + at == 2 * (Count(mask, i) - Count(mask, j));
    }
  }

  function Keep(mask: nat, data: Data, k: nat): (b: byte)
    requires k < 8
  {
    if Enabled(mask, k / 2) then data[k] else BLANK
  }

  /** The data with the words that are not enabled left blank. */
  function Masked(mask: nat, data: Data): (d: Data) {
    [Keep(mask, data, 0), Keep(mask, data, 1), Keep(mask, data, 2), Keep(mask, data, 3),
     Keep(mask, data, 4), Keep(mask, data, 5), Keep(mask, data, 6), Keep(mask, data, 7)]
  }

  function DataWord(data: Data, i: nat): (w: int)
    requires i < 4
  {
    Pair(data[2 * i], data[2 * i + 1])
  }

  lemma MaskedWord(mask: nat, data: Data, i: nat)
    requires i < 4
    ensures DataWord(Masked(mask, data), i) == if Enabled(mask, i) then DataWord(data, i) else 0xFFFF
  {
  }

  function NewPacket(section: nat, mask: nat, data: Data): (p: Packet) {
    Packet(section, mask, Pick(mask, data, 0), section >= SECTION_BASE)
  }

  lemma NewPacketWord(p: Packet, data: Data, j: nat)
    requires p.section < 128 && p.mask < NO_WORDS && (p.section >= SECTION_BASE ==> p.extended)
    requires p.bytes == Pick(p.mask, data, 0) && j < 4 && Enabled(p.mask, j)
    ensures Wf(p) && Word(p, j) == DataWord(data, j)
  {
    PickedWord(p.mask, data, 0, j);
  }

  // ---------------------------------------------------------------------
  // The write on logs.

  const BLANK_DATA: Data := [0xFF, 0xFF, 0xFF, 0xFF, 0xFF, 0xFF, 0xFF, 0xFF]

  predicate Empty(p: Packet) {
    forall k :: 0 <= k < |p.bytes| ==> p.bytes[k] == BLANK
  }

  /** The writer fills this packet in: it is for the section, it is blank, and it has room for some of the words. */
  predicate Takes(p: Packet, section: nat, mask: nat) {
    p.section == section && Empty(p) && Both(mask, p.mask) != NO_WORDS
  }

  function FirstTaker(log: seq<Packet>, section: nat, mask: nat): (k: nat)
    ensures k <= |log|
    ensures k < |log| ==> Takes(log[k], section, mask)
    ensures forall j :: 0 <= j < k ==> !Takes(log[j], section, mask)
  {
    if log == [] || Takes(log[0], section, mask) then 0 else 1 + FirstTaker(log[1..], section, mask)
  }

  /** Packets are only begun, and data only written, below this address. */
  function Limit(g: Geometry): (a: int) {
    g.content - g.protect
  }

  /** Whether a new packet at this address gets its header, and then its data, before the limit. */
  predicate HeaderFits(g: Geometry, at: nat) {
    at < Limit(g)
  }

  predicate DataFits(g: Geometry, at: nat, section: nat) {
    at + (if section >= SECTION_BASE then 1 else 0) < Limit(g)
  }

  /** A new packet that gets no data because they do not fit. */
  function BlankPacket(section: nat, mask: nat): (p: Packet) {
    NewPacket(section, mask, BLANK_DATA)
  }

  function Append(g: Geometry, log: seq<Packet>, section: nat, mask: nat, data: Data): (r: seq<Packet>) {
    if !HeaderFits(g, TotalSize(log)) then log
    else if !DataFits(g, TotalSize(log), section) then log + [BlankPacket(section, mask)]
    else log + [NewPacket(section, mask, data)]
  }

  function FillIn(p: Packet, data: Data): (r: Packet) {
    p.(bytes := Pick(p.mask, data, 0))
  }

  // ---------------------------------------------------------------------
  // Single words under the two ways a log changes.

  predicate WrittenLater(log: seq<Packet>, k: nat, section: nat, i: nat) {
    exists j :: k < j < |log| && Writes(log[j], section, i)
  }

  lemma ReadingAppended(log: seq<Packet>, p: Packet, s: nat, i: nat)
    requires WfLog(log) && Wf(p) && i < 4
    ensures WfLog(log + [p])
    ensures Reading(log + [p], s, i, 0xFFFF) == if Writes(p, s, i) then Word(p, i) else Reading(log, s, i, 0xFFFF)
  {
    ReadingConcat(log, [p], s, i, 0xFFFF);
    assert [p][1..] == [];
  }

  /** A later writer hides everything before it; without one the earlier reading shows. */
  lemma {:induction false} ReadingDefault(log: seq<Packet>, s: nat, i: nat, c: int, d: int)
    requires WfLog(log) && i < 4
    ensures (exists j :: 0 <= j < |log| && Writes(log[j], s, i)) ==> Reading(log, s, i, c) == Reading(log, s, i, d)
    ensures !(exists j :: 0 <= j < |log| && Writes(log[j], s, i)) ==> Reading(log, s, i, c) == c
  {
    if log != [] {
      var c1 := if Writes(log[0], s, i) then Word(log[0], i) else c;
      var d1 := if Writes(log[0], s, i) then Word(log[0], i) else d;
      var rest := log[1..];
      ReadingDefault(rest, s, i, c1, d1);
      assert forall j :: 1 <= j < |log| ==> log[j] == rest[j - 1];
      assert forall j :: 0 <= j < |rest| ==> rest[j] == log[j + 1];
    }
  }

  lemma ReadingAt(log: seq<Packet>, k: nat, s: nat, i: nat)
    requires WfLog(log) && i < 4 && k < |log|
    ensures WfLog(log[..k]) && WfLog(log[k + 1..])
    ensures Reading(log, s, i, 0xFFFF) ==
            Reading(log[k + 1..], s, i,
                    if Writes(log[k], s, i) then Word(log[k], i) else Reading(log[..k], s, i, 0xFFFF))
  {
    assert log == log[..k] + log[k..];
    ReadingConcat(log[..k], log[k..], s, i, 0xFFFF);
    assert log[k..][1..] == log[k + 1..];
  }

  lemma ReadingReplaced(log: seq<Packet>, k: nat, p: Packet, s: nat, i: nat)
    requires WfLog(log) && Wf(p) && i < 4 && k < |log|
    requires p.section == log[k].section && p.mask == log[k].mask
    ensures WfLog(log[k := p])
    ensures Reading(log[k := p], s, i, 0xFFFF) ==
            if Writes(p, s, i) && !WrittenLater(log, k, s, i) then Word(p, i) else Reading(log, s, i, 0xFFFF)
  {
    var later := log[k + 1..];
    var new_ := log[k := p];
    ReadingAt(log, k, s, i);
    ReadingAt(new_, k, s, i);
    assert new_[..k] == log[..k] && new_[k + 1..] == later;
    if Writes(p, s, i) {
      ReadingDefault(later, s, i, Word(p, i), Word(log[k], i));
      assert forall j :: k < j < |log| ==> log[j] == later[j - k - 1];
      assert forall j :: 0 <= j < |later| ==> later[j] == log[j + k + 1];
    }
  }

  lemma EmptyWord(p: Packet, i: nat)
    requires Wf(p) && Empty(p) && i < 4 && Enabled(p.mask, i)
    ensures Word(p, i) == 0xFFFF
  {
    CountFalls(p.mask, 0, i);
  }

  /** Filling a blank packet in shows its words unless a later packet hides them. */
  lemma ReadingFilled(log: seq<Packet>, k: nat, data: Data, s: nat, i: nat)
    requires WfLog(log) && k < |log| && i < 4
    ensures var p := FillIn(log[k], data);
            && Wf(p) && WfLog(log[k := p])
            && Reading(log[k := p], s, i, 0xFFFF) ==
               if Writes(p, s, i) && !WrittenLater(log, k, s, i) then DataWord(data, i) else Reading(log, s, i, 0xFFFF)
  {
    var p := FillIn(log[k], data);
    if Enabled(p.mask, i) {
      NewPacketWord(p, data, i);
    }
    ReadingReplaced(log, k, p, s, i);
  }

  lemma ReadingAppendedData(log: seq<Packet>, section: nat, mask: nat, data: Data, s: nat, i: nat)
    requires WfLog(log) && section < 128 && mask < NO_WORDS && i < 4
    ensures var p := NewPacket(section, mask, data);
            && Wf(p) && WfLog(log + [p])
            && Reading(log + [p], s, i, 0xFFFF) ==
               if s == section && Enabled(mask, i) then DataWord(data, i) else Reading(log, s, i, 0xFFFF)
  {
    var p := NewPacket(section, mask, data);
    if Enabled(mask, i) {
      NewPacketWord(p, data, i);
    }
    ReadingAppended(log, p, s, i);
  }

  // ---------------------------------------------------------------------
  // What the map shows.

  predicate Requested(section: nat, mask: nat, s: nat, i: nat) {
    s == section && Enabled(mask, i)
  }

  lemma BlankWord(i: nat)
    requires i < 4
    ensures DataWord(BLANK_DATA, i) == 0xFFFF
  {
  }

  /** The map word by word after appending. */
  lemma AppendReads(g: Geometry, log: seq<Packet>, section: nat, mask: nat, data: Data, s: nat, i: nat)
    requires WfLog(log) && section < 128 && mask < NO_WORDS && i < 4
    ensures WfLog(Append(g, log, section, mask, data))
    ensures Reading(Append(g, log, section, mask, data), s, i, 0xFFFF) ==
            if !Requested(section, mask, s, i) || !HeaderFits(g, TotalSize(log)) then Reading(log, s, i, 0xFFFF)
            else if DataFits(g, TotalSize(log), section) then DataWord(data, i) else 0xFFFF
  {
    BlankWord(i);
    ReadingAppendedData(log, section, mask, data, s, i);
    ReadingAppendedData(log, section, mask, BLANK_DATA, s, i);
  }

  lemma {:induction false} ReplacedSize(log: seq<Packet>, k: nat, p: Packet)
    requires k < |log| && Size(p) == Size(log[k])
    ensures TotalSize(log[k := p]) == TotalSize(log)
  {
    if k > 0 {
      ReplacedSize(log[1..], k - 1, p);
      assert log[k := p][1..] == log[1..][k - 1 := p];
    } else {
      assert log[k := p][1..] == log[1..];
    }
  }

  /** The map word by word after filling a blank packet in with masked data. */
  lemma FillReads(log: seq<Packet>, k: nat, section: nat, mask: nat, data: Data, s: nat, i: nat)
    requires WfLog(log) && k < |log| && i < 4 && Takes(log[k], section, mask)
    ensures WfLog(log[k := FillIn(log[k], Masked(mask, data))])
    ensures Reading(log[k := FillIn(log[k], Masked(mask, data))], s, i, 0xFFFF) ==
            if Requested(section, mask, s, i) && Enabled(log[k].mask, i) && !WrittenLater(log, k, s, i)
            then DataWord(data, i)
            else Reading(log, s, i, 0xFFFF)
  {
    MaskedWord(mask, data, i);
    ReadingFilled(log, k, Masked(mask, data), s, i);
    if Writes(log[k], s, i) && !Enabled(mask, i) {
      EmptyWord(log[k], i);
      ReadingReplaced(log, k, log[k], s, i);
      assert log[k := log[k]] == log;
    }
  }
}
