/**
 When a write of one section shows in the map: exactly, for every chip, every
 log, every address the driver may have kept as the size of the log, and all
 data.
 */
module EfuseEffect {
  import opened Buffers
  import opened EfuseLog
  import opened EfuseWrite
  import opened EfuseCells

  // ---------------------------------------------------------------------
  // The write on cells.

  /** The request and what it starts from; `used` is the size the driver has kept, `repeats` its retry count. */
  datatype Job = Job(g: Geometry, mem: seq<byte>, log: seq<Packet>, section: nat, mask: nat, used: nat, repeats: nat)

  ghost predicate Sound(j: Job) {
    && Sane(j.g) && WfLog(j.log) && InMap(j.g, j.log) && Holds(j.g, j.mem, 0, j.log) && Covers(j.g, j.mem)
    && j.section < j.g.sections && j.mask < NO_WORDS
  }

  function End(j: Job): (a: nat) {
    TotalSize(j.log)
  }

  /** The packet that is filled in, if there is one. */
  function Taker(j: Job): (k: nat)
    ensures k <= |j.log|
    ensures k < |j.log| ==> Takes(j.log[k], j.section, j.mask)
  {
    FirstTaker(j.log, j.section, j.mask)
  }

  /** A packet is filled in: it begins below the limit. */
  predicate Fills(j: Job) {
    Taker(j) < |j.log| && HeaderFits(j.g, TotalSize(j.log[..Taker(j)]))
  }

  /** The words that do not fit into it. */
  function Rest(j: Job): (mask: nat)
    requires Taker(j) < |j.log|
    ensures mask <= NO_WORDS
  {
    Without(j.mask, j.log[Taker(j)].mask)
  }

  /** They are written into a new packet. */
  predicate Continues(j: Job) {
    Fills(j) && Rest(j) != NO_WORDS && j.repeats < REPEAT_THRESHOLD
  }

  function Filled1(j: Job, data: Data): (mem: seq<byte>)
    requires Sound(j) && Taker(j) < |j.log|
    ensures |mem| == |j.mem|
  {
    FilledCells(j.g, j.mem, j.log, Taker(j), data)
  }

  /** Where the new packet goes: where the scan from the kept size stops. */
  function Place(j: Job, data: Data): (a: nat)
    requires Sound(j) && Taker(j) < |j.log|
  {
    CurrentSize(j.g, Filled1(j, data), j.used)
  }

  /** The cells afterwards; `data` has the words that are not enabled blank. */
  function Programmed(j: Job, data: Data): (mem: seq<byte>)
    requires Sound(j)
    ensures |mem| == |j.mem|
  {
    if Taker(j) == |j.log| then Program(j.g, j.mem, End(j), j.section, j.mask, data)
    else if !Fills(j) then j.mem
    else if !Continues(j) then Filled1(j, data)
    else Program(j.g, Filled1(j, data), Place(j, data), j.section, Rest(j), data)
  }

  /** There are blank cells where a new packet goes. */
  predicate Roomy(j: Job, data: Data)
    requires Sound(j)
  {
    && (Taker(j) == |j.log| ==> Room(j.g, j.mem, End(j)))
    && (Continues(j) ==> Room(j.g, Filled1(j, data), Place(j, data)))
  }

  /** The cells that are programmed for a new packet at `at` are blank. */
  predicate Writable(g: Geometry, mem: seq<byte>, at: nat, section: nat, mask: nat) {
    var p := BlankPacket(section, mask);
    HeaderFits(g, at) ==> BlankRange(mem, at, at + if DataFits(g, at, section) then Size(p) else HeaderSize(p))
  }

  /** No cell is programmed twice. */
  predicate Programmable(j: Job, data: Data)
    requires Sound(j)
  {
    && (Taker(j) == |j.log| ==> Writable(j.g, j.mem, End(j), j.section, j.mask))
    && (Continues(j) ==> Writable(j.g, Filled1(j, data), Place(j, data), j.section, Rest(j)))
  }

  /** Blank cells for a whole packet are enough. */
  lemma RoomyIsProgrammable(j: Job, data: Data)
    requires Sound(j) && Roomy(j, data)
    ensures Programmable(j, data)
  {
  }

  // ---------------------------------------------------------------------
  // What a read-out shows.

  function Fresh(g: Geometry): (w: seq<int>)
    ensures IsMap(g, w)
  {
    seq(4 * g.sections, i => 0xFFFF)
  }

  /** The word a read-out of these cells shows. */
  function Shown(g: Geometry, mem: seq<byte>, s: nat, i: nat): (w: int)
    requires Covers(g, mem) && s < g.sections && i < 4
  {
    Sweep(g, mem, 0, Fresh(g)).words[4 * s + i]
  }

  lemma ShownReads(g: Geometry, mem: seq<byte>, log: seq<Packet>, s: nat, i: nat)
    requires WfLog(log) && InMap(g, log) && Holds(g, mem, 0, log) && s < g.sections && i < 4
    ensures Covers(g, mem) && Shown(g, mem, s, i) == Reading(log, s, i, 0xFFFF)
  {
    HoldsEnd(g, mem, 0, log);
    SweepReadsLog(g, mem, 0, log, Fresh(g), s, i);
  }

  /** The map afterwards is the one before with exactly the enabled words replaced. */
  ghost predicate Effective(j: Job, after: seq<byte>, data: Data)
    requires Sound(j) && Covers(j.g, after)
  {
    forall s: nat, i: nat :: s < j.g.sections && i < 4 ==>
      Shown(j.g, after, s, i)
        == if Requested(j.section, j.mask, s, i) then DataWord(data, i) else Shown(j.g, j.mem, s, i)
  }

  /** The write has its effect for these data. */
  ghost predicate Works(j: Job, data: Data)
    requires Sound(j)
  {
    Effective(j, Programmed(j, Masked(j.mask, data)), data)
  }

  // ---------------------------------------------------------------------
  // Words that land.

  /** From the kept size, the scan of the cells as they are finds the end of the log. */
  predicate EndFound(j: Job)
    requires Sound(j)
  {
    CurrentSize(j.g, j.mem, j.used) == End(j)
  }

  /**
   Word `i` of the request reaches the map.  Without a blank packet to fill in
   that takes only room; a word filled into a blank packet must not be hidden
   by a later packet; and a word left over from one needs room, a write that
   has not used up its repeats, and a kept size from which the end of the log
   is found.
   */
  predicate Lands(j: Job, i: nat)
    requires Sound(j)
  {
    LandsAt(j, EndFound(j), i)
  }

  predicate LandsAt(j: Job, atEnd: bool, i: nat) {
    if Taker(j) == |j.log| then DataFits(j.g, End(j), j.section)
    else
      Fills(j) &&
      if Enabled(j.log[Taker(j)].mask, i) then !WrittenLater(j.log, Taker(j), j.section, i)
      else j.repeats < REPEAT_THRESHOLD && atEnd && DataFits(j.g, End(j), j.section)
  }

  predicate AllLand(j: Job)
    requires Sound(j)
  {
    forall i :: 0 <= i < 4 && Enabled(j.mask, i) ==> Lands(j, i)
  }

  /** What the map shows for a requested word that does not land. */
  function InsteadAt(j: Job, atEnd: bool, i: nat): (w: int)
    requires WfLog(j.log) && i < 4
  {
    if HeaderFits(j.g, End(j)) && !DataFits(j.g, End(j), j.section)
       && (Taker(j) == |j.log|
           || (Fills(j) && !Enabled(j.log[Taker(j)].mask, i) && j.repeats < REPEAT_THRESHOLD && atEnd))
    then 0xFFFF else Reading(j.log, j.section, i, 0xFFFF)
  }

  // ---------------------------------------------------------------------
  // The cells after a write that stays out of the log.

  /** The new packet, if there is one, does not go inside the log. */
  predicate StaysOut(j: Job, data: Data)
    requires Sound(j)
  {
    Continues(j) ==> Place(j, data) >= End(j) || !HeaderFits(j.g, Place(j, data))
  }

  ghost function Log1(j: Job, data: Data): (log: seq<Packet>)
    requires Taker(j) < |j.log|
  {
    FilledLog(j.log, Taker(j), data)
  }

  lemma Filled1Holds(j: Job, data: Data)
    requires Sound(j) && Taker(j) < |j.log|
    ensures WfLog(Log1(j, data)) && InMap(j.g, Log1(j, data)) && TotalSize(Log1(j, data)) == End(j)
    ensures Holds(j.g, Filled1(j, data), 0, Log1(j, data))
  {
    FilledHolds(j.g, j.mem, j.log, Taker(j), data);
  }

  ghost function AfterLog(j: Job, data: Data): (log: seq<Packet>)
    requires Sound(j)
  {
    if Taker(j) == |j.log| then Append(j.g, j.log, j.section, j.mask, data)
    else if !Fills(j) then j.log
    else if Continues(j) && Place(j, data) == End(j) then Append(j.g, Log1(j, data), j.section, Rest(j), data)
    else Log1(j, data)
  }

  lemma AppendInMap(g: Geometry, log: seq<Packet>, section: nat, mask: nat, data: Data)
    requires InMap(g, log) && section < g.sections
    ensures InMap(g, Append(g, log, section, mask, data))
  {
  }

  lemma AfterLogHolds(j: Job, data: Data)
    requires Sound(j) && Roomy(j, data) && StaysOut(j, data)
    ensures WfLog(AfterLog(j, data)) && InMap(j.g, AfterLog(j, data))
    ensures Holds(j.g, Programmed(j, data), 0, AfterLog(j, data))
  {
    if Taker(j) == |j.log| {
      ProgramAtEnd(j.g, j.mem, j.log, j.section, j.mask, data);
      AppendInMap(j.g, j.log, j.section, j.mask, data);
    } else {
      Filled1Holds(j, data);
      if Continues(j) {
        if Place(j, data) == End(j) {
          ProgramAtEnd(j.g, Filled1(j, data), Log1(j, data), j.section, Rest(j), data);
          AppendInMap(j.g, Log1(j, data), j.section, Rest(j), data);
        } else if Place(j, data) > End(j) {
          ProgramBehind(j.g, Filled1(j, data), Log1(j, data), Place(j, data), j.section, Rest(j), data);
        }
      }
    }
  }

  /** The map word by word: data where a requested word lands, and nowhere else a change that depends on them. */
  lemma AfterLogReads(j: Job, data: Data, s: nat, i: nat)
    requires Sound(j) && i < 4
    requires WfLog(AfterLog(j, Masked(j.mask, data)))
    ensures var d := Masked(j.mask, data);
            var atEnd := Continues(j) && Place(j, d) == End(j);
            Reading(AfterLog(j, d), s, i, 0xFFFF) ==
            if !Requested(j.section, j.mask, s, i) then Reading(j.log, s, i, 0xFFFF)
            else if LandsAt(j, atEnd, i) then DataWord(data, i)
            else InsteadAt(j, atEnd, i)
  {
    var d, k := Masked(j.mask, data), Taker(j);
    MaskedWord(j.mask, data, i);
    if k == |j.log| {
      AppendReads(j.g, j.log, j.section, j.mask, d, s, i);
    } else if Fills(j) {
      FillReads(j.log, k, j.section, j.mask, data, s, i);
      WithoutEnables(j.mask, j.log[k].mask, i);
      if Continues(j) && Place(j, d) == End(j) {
        Filled1Holds(j, d);
        AppendReads(j.g, Log1(j, d), j.section, Rest(j), d, s, i);
      }
    }
  }

  /** The same on the cells. */
  lemma WriteShows(j: Job, data: Data, s: nat, i: nat)
    requires Sound(j) && s < j.g.sections && i < 4
    requires Roomy(j, Masked(j.mask, data)) && StaysOut(j, Masked(j.mask, data))
    ensures var d := Masked(j.mask, data);
            var atEnd := Continues(j) && Place(j, d) == End(j);
            Shown(j.g, Programmed(j, d), s, i) ==
            if !Requested(j.section, j.mask, s, i) then Shown(j.g, j.mem, s, i)
            else if LandsAt(j, atEnd, i) then DataWord(data, i)
            else InsteadAt(j, atEnd, i)
  {
    var d := Masked(j.mask, data);
    AfterLogHolds(j, d);
    AfterLogReads(j, data, s, i);
    ShownReads(j.g, Programmed(j, d), AfterLog(j, d), s, i);
    ShownReads(j.g, j.mem, j.log, s, i);
  }

  // ---------------------------------------------------------------------
  // If every word lands.

  /** A requested word that the taker has no room for. */
  predicate LeftOver(j: Job, i: nat) {
    Taker(j) < |j.log| && i < 4 && Enabled(j.mask, i) && !Enabled(j.log[Taker(j)].mask, i)
  }

  lemma SomeLeftOver(j: Job) returns (i: nat)
    requires Taker(j) < |j.log| && Rest(j) != NO_WORDS
    ensures LeftOver(j, i)
  {
    var m, n := j.mask, j.log[Taker(j)].mask;
    MaskOfEnables(Enabled(m, 0) && !Enabled(n, 0), Enabled(m, 1) && !Enabled(n, 1),
                  Enabled(m, 2) && !Enabled(n, 2), Enabled(m, 3) && !Enabled(n, 3));
    i := if Enabled(m, 0) && !Enabled(n, 0) then 0
    else if Enabled(m, 1) && !Enabled(n, 1) then 1
    else if Enabled(m, 2) && !Enabled(n, 2) then 2 else 3;
  }

  lemma LeftOverContinues(j: Job, i: nat)
    requires LeftOver(j, i)
    ensures Enabled(Rest(j), i) && Rest(j) != NO_WORDS
    ensures Continues(j) <==> Fills(j) && j.repeats < REPEAT_THRESHOLD
  {
    WithoutEnables(j.mask, j.log[Taker(j)].mask, i);
  }

  /** The data filled in do not matter: the scan afterwards finds the end exactly when it does before. */
  lemma PlaceIsEndExactly(j: Job)
    requires Sound(j) && Taker(j) < |j.log|
    ensures EndFound(j) <==> forall data: Data :: Place(j, Masked(j.mask, data)) == End(j)
  {
    if EndFound(j) {
      forall data: Data
        ensures Place(j, Masked(j.mask, data)) == End(j)
      {
        PlaceIsEnd(j, Masked(j.mask, data));
      }
    } else {
      PlaceOfBlank(j);
      assert Place(j, Masked(j.mask, BLANK_DATA)) != End(j);
    }
  }

  lemma PlaceIsEnd(j: Job, d: Data)
    requires Sound(j) && Taker(j) < |j.log| && EndFound(j)
    ensures Place(j, d) == End(j)
  {
    FilledScan(j.g, j.mem, j.log, Taker(j), d, j.used);
  }

  /** With blank data nothing is changed by the fill-in. */
  lemma PlaceOfBlank(j: Job)
    requires Sound(j) && Taker(j) < |j.log|
    ensures Place(j, Masked(j.mask, BLANK_DATA)) == CurrentSize(j.g, j.mem, j.used)
  {
    var d := Masked(j.mask, BLANK_DATA);
    forall n | 0 <= n < 4
      ensures DataWord(d, n) == 0xFFFF
    {
      BlankWord(n);
      MaskedWord(j.mask, BLANK_DATA, n);
    }
    FilledWithBlanks(j.g, j.mem, j.log, Taker(j), d);
  }

  lemma WorksWhenAllLand(j: Job, data: Data)
    requires Sound(j) && AllLand(j) && Roomy(j, Masked(j.mask, data))
    ensures Works(j, data)
  {
    var d := Masked(j.mask, data);
    if Continues(j) {
      var i := SomeLeftOver(j);
      assert Lands(j, i);
      PlaceIsEnd(j, d);
    }
    forall s: nat, i: nat | s < j.g.sections && i < 4
      ensures Shown(j.g, Programmed(j, d), s, i) ==
              if Requested(j.section, j.mask, s, i) then DataWord(data, i) else Shown(j.g, j.mem, s, i)
    {
      WriteShows(j, data, s, i);
      if Requested(j.section, j.mask, s, i) {
        assert Lands(j, i);
        if LeftOver(j, i) {
          LeftOverContinues(j, i);
        }
      }
    }
  }

  // ---------------------------------------------------------------------
  // If some word does not land: data that are lost.

  /** The data with both bytes of word `i` set to `b`. */
  function SetWord(data: Data, i: nat, b: byte): (d: Data)
    requires i < 4
  {
    data[2 * i := b][2 * i + 1 := b]
  }

  lemma SetWordIs(data: Data, i: nat, b: byte, j: nat)
    requires i < 4 && j < 4
    ensures DataWord(SetWord(data, i, b), j) == if j == i then Pair(b, b) else DataWord(data, j)
  {
  }

  /** The byte, zero or blank, that differs from a given word. */
  function OtherByte(w: int): (b: byte)
    ensures Pair(b, b) != w
  {
    if w == 0 then 0xFF else 0
  }

  lemma {:induction false} PickSame(mask: nat, d: Data, e: Data, i: nat)
    requires i <= 4
    requires forall j :: i <= j < 4 && Enabled(mask, j) ==> d[2 * j] == e[2 * j] && d[2 * j + 1] == e[2 * j + 1]
    ensures Pick(mask, d, i) == Pick(mask, e, i)
    decreases 4 - i
  {
    if i < 4 {
      PickSame(mask, d, e, i + 1);
    }
  }

  lemma MaskedByte(mask: nat, data: Data, j: nat)
    requires j < 4
    ensures Masked(mask, data)[2 * j] == if Enabled(mask, j) then data[2 * j] else BLANK
    ensures Masked(mask, data)[2 * j + 1] == if Enabled(mask, j) then data[2 * j + 1] else BLANK
  {
  }

  /** A word that is left over does not change what is filled in, nor where the rest goes. */
  lemma SetWordKeepsPlace(j: Job, data: Data, i: nat, b: byte)
    requires Sound(j) && LeftOver(j, i)
    ensures Filled1(j, Masked(j.mask, SetWord(data, i, b))) == Filled1(j, Masked(j.mask, data))
    ensures Place(j, Masked(j.mask, SetWord(data, i, b))) == Place(j, Masked(j.mask, data))
  {
    var m := j.log[Taker(j)].mask;
    var d, e := Masked(j.mask, data), Masked(j.mask, SetWord(data, i, b));
    forall n | 0 <= n < 4 && Enabled(m, n)
      ensures d[2 * n] == e[2 * n] && d[2 * n + 1] == e[2 * n + 1]
    {
      MaskedByte(j.mask, data, n);
      MaskedByte(j.mask, SetWord(data, i, b), n);
    }
    PickSame(m, d, e, 0);
  }

  /** A requested word that shows something other than the data. */
  lemma Refutes(j: Job, data: Data, i: nat)
    requires Sound(j) && i < 4 && Enabled(j.mask, i)
    requires Shown(j.g, Programmed(j, Masked(j.mask, data)), j.section, i) != DataWord(data, i)
    ensures !Works(j, data)
  {
    assert Requested(j.section, j.mask, j.section, i);
  }

  /** Without regard to where the rest goes: no taker, a taker behind the limit, or repeats used up. */
  lemma LostInPlace(j: Job, i: nat) returns (data: Data)
    requires Sound(j) && i < 4 && Enabled(j.mask, i)
    requires !Continues(j) && !LandsAt(j, false, i)
    requires forall d: Data :: Roomy(j, Masked(j.mask, d))
    ensures !Works(j, data)
  {
    var b := OtherByte(InsteadAt(j, false, i));
    data := SetWord(BLANK_DATA, i, b);
    SetWordIs(BLANK_DATA, i, b, i);
    WriteShows(j, data, j.section, i);
    Refutes(j, data, i);
  }

  /** A word left over, when the rest goes to the end of the log but finds no room there, or goes behind it. */
  lemma LostOutside(j: Job, d0: Data, i: nat) returns (data: Data)
    requires Sound(j) && LeftOver(j, i) && Continues(j) && StaysOut(j, Masked(j.mask, d0))
    requires Place(j, Masked(j.mask, d0)) != End(j) || !DataFits(j.g, End(j), j.section)
    requires forall d: Data :: Roomy(j, Masked(j.mask, d))
    ensures !Works(j, data)
  {
    var atEnd := Place(j, Masked(j.mask, d0)) == End(j);
    var b := OtherByte(InsteadAt(j, atEnd, i));
    data := SetWord(d0, i, b);
    SetWordIs(d0, i, b, i);
    SetWordKeepsPlace(j, d0, i, b);
    WriteShows(j, data, j.section, i);
    Refutes(j, data, i);
  }

  // ---------------------------------------------------------------------
  // A new packet that goes inside the log.

  /** It falls on the data of the last packet. */
  predicate GoesInside(j: Job, d: Data)
    requires Sound(j)
  {
    Continues(j) && Place(j, d) < End(j) && HeaderFits(j.g, Place(j, d))
  }

  /** The new packet as far as it is written. */
  ghost function Put(j: Job, d: Data): (p: Packet)
    requires Sound(j) && Continues(j)
  {
    if DataFits(j.g, Place(j, d), j.section) then NewPacket(j.section, Rest(j), d) else BlankPacket(j.section, Rest(j))
  }

  lemma InsideFacts(j: Job, d: Data) returns (mem1: seq<byte>, log1: seq<Packet>, off: nat)
    requires Sound(j) && GoesInside(j, d) && Roomy(j, d)
    ensures mem1 == Filled1(j, d) && log1 == Log1(j, d) && InMap(j.g, log1) && TotalSize(log1) == End(j)
    ensures Inside(j.g, mem1, log1, Place(j, d), off, Put(j, d))
    ensures Programmed(j, d) == Splice(mem1, Place(j, d), Encode(Put(j, d)))
  {
    mem1, log1 := Filled1(j, d), Log1(j, d);
    Filled1Holds(j, d);
    var p := ProgramIsPacket(j.g, mem1, Place(j, d), j.section, Rest(j), d);
    off := InsideOf(j.g, mem1, log1, Place(j, d), p);
  }

  predicate BlankRest(j: Job, d: Data)
    requires Taker(j) < |j.log|
  {
    forall i :: 0 <= i < 4 && Enabled(Rest(j), i) ==> DataWord(d, i) == 0xFFFF
  }

  lemma PutIsEmpty(j: Job, d: Data)
    requires Sound(j) && Continues(j) && BlankRest(j, d)
    ensures Empty(Put(j, d))
  {
    AllBlank(Rest(j));
    PickBlank(Rest(j), d, 0);
  }

  lemma OverlayReads(log: seq<Packet>, off: nat, h: seq<byte>, s: nat, i: nat)
    requires WfLog(log) && log != [] && off + |h| <= |Last(log).bytes| && i < 4
    ensures var q := Overlaid(log, off, h);
            && Wf(q) && WfLog(log[|log| - 1 := q])
            && Reading(log[|log| - 1 := q], s, i, 0xFFFF) ==
               (if Writes(q, s, i) then Word(q, i) else Reading(log, s, i, 0xFFFF))
            && (Writes(q, s, i) ==> Reading(log, s, i, 0xFFFF) == Word(Last(log), i))
  {
    var n, q := |log| - 1, Overlaid(log, off, h);
    ReadingReplaced(log, n, q, s, i);
    ReadingReplaced(log, n, log[n], s, i);
    assert log[n := log[n]] == log;
  }

  /** Every data byte belongs to an enabled word. */
  lemma {:induction false} ByteHasWord(mask: nat, i: nat, off: nat) returns (w: nat)
    requires i <= 4 && off < 2 * Count(mask, i)
    ensures i <= w < 4 && Enabled(mask, w)
    ensures var at := 2 * (Count(mask, i) - Count(mask, w)); off == at || off == at + 1
    decreases 4 - i
  {
    if Enabled(mask, i) && off < 2 {
      w := i;
    } else {
      w := ByteHasWord(mask, i + 1, if Enabled(mask, i) then off - 2 else off);
    }
  }

  lemma PairTells(x: byte, y: byte, u: byte, v: byte)
    ensures Pair(x, y) == Pair(u, v) <==> x == u && y == v
    ensures Pair(x, y) % 256 == x
  {
  }

  // -- the header alone

  /** When no data are written, the map does not depend on a word that is left over. */
  lemma LostHeaderOnly(j: Job, d0: Data, i: nat) returns (data: Data)
    requires Sound(j) && LeftOver(j, i) && Continues(j)
    requires !DataFits(j.g, Place(j, Masked(j.mask, d0)), j.section)
    ensures !Works(j, data)
  {
    LeftOverContinues(j, i);
    var shown := Shown(j.g, Programmed(j, Masked(j.mask, d0)), j.section, i);
    var b := OtherByte(shown);
    data := SetWord(d0, i, b);
    SetWordIs(d0, i, b, i);
    SetWordKeepsPlace(j, d0, i, b);
    assert Programmed(j, Masked(j.mask, data)) == Programmed(j, Masked(j.mask, d0));
    Refutes(j, data, i);
  }

  // -- the header astride the end of the log

  /** The words of the garbled packet go into another section, and show there. */
  lemma LostAstride(j: Job, d0: Data, i: nat) returns (data: Data)
    requires Sound(j) && LeftOver(j, i) && GoesInside(j, Masked(j.mask, d0))
    requires DataFits(j.g, Place(j, Masked(j.mask, d0)), j.section)
    requires j.section >= SECTION_BASE && Place(j, Masked(j.mask, d0)) == End(j) - 1
    requires forall d: Data :: Roomy(j, Masked(j.mask, d))
    ensures !Works(j, data)
  {
    LeftOverContinues(j, i);
    var other := j.section / 8;
    var b := OtherByte(Shown(j.g, j.mem, other, i));
    data := SetWord(d0, i, b);
    var d := Masked(j.mask, data);
    SetWordIs(d0, i, b, i);
    SetWordKeepsPlace(j, d0, i, b);
    AstrideShows(j, d, i);
    MaskedWord(j.mask, data, i);
    assert !Requested(j.section, j.mask, other, i);
  }

  lemma AstrideShows(j: Job, d: Data, i: nat)
    requires Sound(j) && i < 4 && GoesInside(j, d) && Roomy(j, d) && Enabled(Rest(j), i)
    requires DataFits(j.g, Place(j, d), j.section) && j.section >= SECTION_BASE && Place(j, d) == End(j) - 1
    ensures Shown(j.g, Programmed(j, d), j.section / 8, i) == DataWord(d, i)
  {
    var mem1, log1, off := InsideFacts(j, d);
    var p := Put(j, d);
    SplitHeaderHolds(j.g, mem1, log1, Place(j, d), off, p);
    var front := log1[|log1| - 1 := Overlaid(log1, off, [FirstByte(p)])];
    NewPacketWord(Garbled(p), d, i);
    ReadingAppended(front, Garbled(p), j.section / 8, i);
    ShownReads(j.g, Programmed(j, d), front + [Garbled(p)], j.section / 8, i);
  }

  // -- the whole header inside

  /** The data with the words left over blank. */
  function Filling(j: Job, data: Data): (d: Data)
    requires Taker(j) < |j.log|
  {
    Masked(Both(j.mask, j.log[Taker(j)].mask), data)
  }

  lemma FillingKeepsPlace(j: Job, data: Data)
    requires Sound(j) && Taker(j) < |j.log|
    ensures Filled1(j, Masked(j.mask, Filling(j, data))) == Filled1(j, Masked(j.mask, data))
    ensures Place(j, Masked(j.mask, Filling(j, data))) == Place(j, Masked(j.mask, data))
    ensures BlankRest(j, Masked(j.mask, Filling(j, data)))
  {
    var m := j.log[Taker(j)].mask;
    var d, e := Masked(j.mask, data), Masked(j.mask, Filling(j, data));
    forall n | 0 <= n < 4
      ensures Enabled(m, n) ==> d[2 * n] == e[2 * n] && d[2 * n + 1] == e[2 * n + 1]
      ensures Enabled(Rest(j), n) ==> DataWord(e, n) == 0xFFFF
    {
      BothEnables(j.mask, m, n);
      WithoutEnables(j.mask, m, n);
      MaskedByte(j.mask, data, n);
      MaskedByte(j.mask, Filling(j, data), n);
      MaskedByte(Both(j.mask, m), data, n);
    }
    PickSame(m, d, e, 0);
  }

  lemma WholeHeaderShows(j: Job, d: Data, mem1: seq<byte>, log1: seq<Packet>, off: nat, s: nat, i: nat)
    requires Sound(j) && GoesInside(j, d) && BlankRest(j, d) && s < j.g.sections && i < 4
    requires log1 == Log1(j, d) && InMap(j.g, log1) && Inside(j.g, mem1, log1, Place(j, d), off, Put(j, d))
    requires Programmed(j, d) == Splice(mem1, Place(j, d), Encode(Put(j, d)))
    requires off + HeaderSize(Put(j, d)) <= |Last(log1).bytes|
    ensures var q := Overlaid(log1, off, Header(Put(j, d)));
            && Wf(q)
            && Shown(j.g, Programmed(j, d), s, i) ==
               (if Writes(q, s, i) then Word(q, i) else Reading(log1, s, i, 0xFFFF))
            && (Writes(q, s, i) ==> Reading(log1, s, i, 0xFFFF) == Word(Last(log1), i))
  {
    var h := Header(Put(j, d));
    PutIsEmpty(j, d);
    WholeHeaderHolds(j.g, mem1, log1, Place(j, d), off, Put(j, d));
    OverlayReads(log1, off, h, s, i);
    ShownReads(j.g, Programmed(j, d), log1[|log1| - 1 := Overlaid(log1, off, h)], s, i);
  }

  /** The word the header falls on is neither what it was nor blank. */
  lemma HeaderSpoilsWord(log: seq<Packet>, off: nat, p: Packet) returns (w: nat)
    requires WfLog(log) && log != [] && Wf(p) && off + HeaderSize(p) <= |Last(log).bytes|
    requires Last(log).bytes[off] == BLANK && FirstByte(p) != BLANK
    ensures var q := Overlaid(log, off, Header(p));
            w < 4 && Wf(q) && Enabled(q.mask, w) && Word(q, w) != Word(Last(log), w) && Word(q, w) != 0xFFFF
  {
    var m, q := Last(log), Overlaid(log, off, Header(p));
    w := ByteHasWord(m.mask, 0, off);
    CountFalls(m.mask, 0, w);
    var at := 2 * (Count(m.mask, 0) - Count(m.mask, w));
    assert q.bytes[off] == Header(p)[0] == FirstByte(p);
    PairTells(q.bytes[at], q.bytes[at + 1], m.bytes[at], m.bytes[at + 1]);
    PairTells(q.bytes[at], q.bytes[at + 1], BLANK, BLANK);
  }

  predicate Hidden(j: Job, i: nat)
    requires Taker(j) < |j.log|
  {
    Enabled(j.mask, i) && Enabled(j.log[Taker(j)].mask, i) && WrittenLater(j.log, Taker(j), j.section, i)
  }

  /** A word that shows neither what the filled-in log says nor blank is wrong, requested or not. */
  lemma SpoiledIsWrong(j: Job, data: Data, s: nat, w: nat, shown: int)
    requires Sound(j) && Taker(j) < |j.log| && s < j.g.sections && w < 4 && !Hidden(j, w)
    requires BlankRest(j, Masked(j.mask, data)) && WfLog(Log1(j, Masked(j.mask, data)))
    requires shown != Reading(Log1(j, Masked(j.mask, data)), s, w, 0xFFFF) && shown != 0xFFFF
    ensures shown != if Requested(j.section, j.mask, s, w) then DataWord(data, w) else Shown(j.g, j.mem, s, w)
  {
    FillReads(j.log, Taker(j), j.section, j.mask, data, s, w);
    ShownReads(j.g, j.mem, j.log, s, w);
    MaskedWord(j.mask, data, w);
    WithoutEnables(j.mask, j.log[Taker(j)].mask, w);
  }

  lemma SpoiledWord(j: Job, d: Data) returns (s: nat, w: nat)
    requires Sound(j) && GoesInside(j, d) && Roomy(j, d) && BlankRest(j, d)
    requires j.section < SECTION_BASE || Place(j, d) != End(j) - 1
    ensures s < j.g.sections && w < 4 && WfLog(Log1(j, d))
    ensures Shown(j.g, Programmed(j, d), s, w) != Reading(Log1(j, d), s, w, 0xFFFF)
    ensures Shown(j.g, Programmed(j, d), s, w) != 0xFFFF
  {
    var mem1, log1, off := InsideFacts(j, d);
    var p := Put(j, d);
    FirstNotBlank(p);
    w := HeaderSpoilsWord(log1, off, p);
    s := Last(log1).section;
    WholeHeaderShows(j, d, mem1, log1, off, s, w);
  }

  lemma LostUnderHeader(j: Job, d0: Data) returns (data: Data)
    requires Sound(j) && GoesInside(j, Masked(j.mask, d0))
    requires j.section < SECTION_BASE || Place(j, Masked(j.mask, d0)) != End(j) - 1
    requires forall i :: 0 <= i < 4 ==> !Hidden(j, i)
    requires forall d: Data :: Roomy(j, Masked(j.mask, d))
    ensures !Works(j, data)
  {
    data := Filling(j, d0);
    var d := Masked(j.mask, data);
    FillingKeepsPlace(j, d0);
    var s, w := SpoiledWord(j, d);
    assert !Hidden(j, w);
    SpoiledIsWrong(j, data, s, w, Shown(j.g, Programmed(j, d), s, w));
  }

  lemma FirstNotBlank(p: Packet)
    requires Wf(p)
    ensures FirstByte(p) != BLANK
  {
    if p.extended {
      DecodeExtended(p.section, p.mask, FirstByte(p), SecondByte(p));
    } else {
      DecodeShort(p.section, p.mask, FirstByte(p));
    }
  }

  // -- a word filled in and hidden

  lemma OverlaidLow(log: seq<Packet>, off: nat, h: seq<byte>, w: nat)
    requires WfLog(log) && log != [] && off + |h| <= |Last(log).bytes| && w < 4 && Enabled(Last(log).mask, w)
    ensures var q := Overlaid(log, off, h);
            Wf(q) && (Word(q, w) % 256 == Word(Last(log), w) % 256 || Word(q, w) % 256 in h)
  {
    var at := LowOfWord(Last(log), w);
    var same := LowOfWord(Overlaid(log, off, h), w);
    ByteOver(Last(log).bytes, off, h, at);
  }

  lemma LowOfWord(p: Packet, w: nat) returns (at: nat)
    requires Wf(p) && w < 4 && Enabled(p.mask, w)
    ensures at == 2 * (Count(p.mask, 0) - Count(p.mask, w)) && at < |p.bytes| && Word(p, w) % 256 == p.bytes[at]
  {
    CountFalls(p.mask, 0, w);
    at := 2 * (Count(p.mask, 0) - Count(p.mask, w));
    PairTells(p.bytes[at], p.bytes[at + 1], p.bytes[at], p.bytes[at + 1]);
  }

  lemma ByteOver(bytes: seq<byte>, off: nat, h: seq<byte>, at: nat)
    requires off + |h| <= |bytes| && at < |bytes|
    ensures Splice(bytes, off, h)[at] == bytes[at] || Splice(bytes, off, h)[at] in h
  {
    if off <= at < off + |h| {
      assert Splice(bytes, off, h)[at] == h[at - off];
    }
  }

  /** Whatever the new packet is written over, a hidden word shows an old low byte or a header byte. */
  lemma HiddenInside(j: Job, data: Data, w: nat)
    requires Sound(j) && w < 4 && Continues(j) && Hidden(j, w)
    requires var d := Masked(j.mask, data); GoesInside(j, d) && Roomy(j, d) && BlankRest(j, d)
    ensures var low := Shown(j.g, Programmed(j, Masked(j.mask, data)), j.section, w) % 256;
            low == Reading(j.log, j.section, w, 0xFFFF) % 256 || low in Header(BlankPacket(j.section, Rest(j)))
  {
    var d := Masked(j.mask, data);
    var mem1, log1, off := InsideFacts(j, d);
    var p := Put(j, d);
    NewPacketFacts(j.section, Rest(j), d);
    FillReads(j.log, Taker(j), j.section, j.mask, data, j.section, w);
    if off + HeaderSize(p) <= |Last(log1).bytes| {
      WholeHeaderShows(j, d, mem1, log1, off, j.section, w);
      OverlaidIfWritten(log1, off, Header(p), j.section, w);
    } else {
      SplitHeaderHolds(j.g, mem1, log1, Place(j, d), off, p);
      SplitShows(j.g, Programmed(j, d), log1, off, p, j.section, w);
      OverlaidIfWritten(log1, off, [FirstByte(p)], j.section, w);
    }
  }

  lemma OverlaidIfWritten(log: seq<Packet>, off: nat, h: seq<byte>, s: nat, w: nat)
    requires WfLog(log) && log != [] && off + |h| <= |Last(log).bytes| && w < 4
    ensures var q := Overlaid(log, off, h);
            Wf(q) && (Writes(q, s, w) ==> Word(q, w) % 256 == Word(Last(log), w) % 256 || Word(q, w) % 256 in h)
  {
    if Enabled(Last(log).mask, w) {
      OverlaidLow(log, off, h, w);
    }
  }

  lemma SplitShows(g: Geometry, mem: seq<byte>, log: seq<Packet>, off: nat, p: Packet, s: nat, w: nat)
    requires WfLog(log) && log != [] && InMap(g, log) && off + 1 <= |Last(log).bytes|
    requires Wf(p) && p.section == s && s < g.sections && w < 4 && SECTION_BASE <= s
    requires WfLog(log[|log| - 1 := Overlaid(log, off, [FirstByte(p)])] + [Garbled(p)])
    requires Holds(g, mem, 0, log[|log| - 1 := Overlaid(log, off, [FirstByte(p)])] + [Garbled(p)])
    ensures var q := Overlaid(log, off, [FirstByte(p)]);
            && Covers(g, mem) && Wf(q)
            && Shown(g, mem, s, w) == (if Writes(q, s, w) then Word(q, w) else Reading(log, s, w, 0xFFFF))
            && (Writes(q, s, w) ==> Reading(log, s, w, 0xFFFF) == Word(Last(log), w))
  {
    var front := log[|log| - 1 := Overlaid(log, off, [FirstByte(p)])];
    OverlayReads(log, off, [FirstByte(p)], s, w);
    assert Wf(Garbled(p)) by {
      assert (front + [Garbled(p)])[|front|] == Garbled(p);
    }
    ReadingAppended(front, Garbled(p), s, w);
    ShownReads(g, mem, front + [Garbled(p)], s, w);
  }

  function FreshByte(x: int, h: seq<byte>): (b: byte)
    requires |h| <= 2
    ensures b != x && b !in h
  {
    if 0 != x && 0 !in h then 0 else if 1 != x && 1 !in h then 1 else if 2 != x && 2 !in h then 2 else 3
  }

  function Uniform(b: byte): (d: Data) {
    [b, b, b, b, b, b, b, b]
  }

  lemma LostHidden(j: Job, w: nat) returns (data: Data)
    requires Sound(j) && w < 4 && Fills(j) && Hidden(j, w)
    requires forall d: Data :: Roomy(j, Masked(j.mask, d))
    ensures !Works(j, data)
  {
    var v := Reading(j.log, j.section, w, 0xFFFF);
    var h: seq<byte> := if Rest(j) != NO_WORDS then HeaderOf(j) else [];
    var b := FreshByte(v % 256, h);
    data := Filling(j, Uniform(b));
    var d := Masked(j.mask, data);
    FillingKeepsPlace(j, Uniform(b));
    BothEnables(j.mask, j.log[Taker(j)].mask, w);
    MaskedWord(Both(j.mask, j.log[Taker(j)].mask), Uniform(b), w);
    PairTells(b, b, b, b);
    if StaysOut(j, d) {
      WriteShows(j, data, j.section, w);
    } else {
      HiddenInside(j, data, w);
    }
    Refutes(j, data, w);
  }

  ghost function HeaderOf(j: Job): (h: seq<byte>)
    requires Sound(j) && Taker(j) < |j.log| && Rest(j) != NO_WORDS
    ensures |h| <= 2
  {
    NewPacketFacts(j.section, Rest(j), BLANK_DATA);
    Header(BlankPacket(j.section, Rest(j)))
  }

  // ---------------------------------------------------------------------
  // The exact condition.

  lemma LostLeftOver(j: Job, i: nat) returns (data: Data)
    requires Sound(j) && Continues(j) && LeftOver(j, i) && !Lands(j, i)
    requires forall n :: 0 <= n < 4 ==> !Hidden(j, n)
    requires forall d: Data :: Roomy(j, Masked(j.mask, d))
    ensures !Works(j, data)
  {
    if EndFound(j) {
      PlaceIsEnd(j, Masked(j.mask, BLANK_DATA));
      data := LostOutside(j, BLANK_DATA, i);
    } else {
      var d0 := BLANK_DATA;
      var d := Masked(j.mask, d0);
      PlaceOfBlank(j);
      if StaysOut(j, d) {
        data := LostOutside(j, d0, i);
      } else if !DataFits(j.g, Place(j, d), j.section) {
        data := LostHeaderOnly(j, d0, i);
      } else if j.section >= SECTION_BASE && Place(j, d) == End(j) - 1 {
        data := LostAstride(j, d0, i);
      } else {
        data := LostUnderHeader(j, d0);
      }
    }
  }

  lemma NotLandingIsLeftOver(j: Job, i: nat)
    requires Sound(j) && i < 4 && Enabled(j.mask, i) && !Lands(j, i) && Fills(j) && !Hidden(j, i)
    ensures LeftOver(j, i)
  {
  }

  lemma LostSomewhere(j: Job) returns (data: Data)
    requires Sound(j) && !AllLand(j)
    requires forall d: Data :: Roomy(j, Masked(j.mask, d))
    ensures !Works(j, data)
  {
    var i: nat :| i < 4 && Enabled(j.mask, i) && !Lands(j, i);
    if !Fills(j) {
      data := LostInPlace(j, i);
    } else if w: nat :| w < 4 && Hidden(j, w) {
      data := LostHidden(j, w);
    } else {
      assert !Hidden(j, i);
      NotLandingIsLeftOver(j, i);
      LeftOverContinues(j, i);
      if Continues(j) {
        data := LostLeftOver(j, i);
      } else {
        data := LostInPlace(j, i);
      }
    }
  }

  /**
   A write has its effect whatever the data, on any chip with blank cells where
   it writes and from any size the driver may have kept, exactly when every
   requested word lands.
   */
  lemma WriteWorksExactly(j: Job)
    requires Sound(j) && forall d: Data :: Roomy(j, Masked(j.mask, d))
    ensures AllLand(j) <==> forall data: Data :: Works(j, data)
  {
    if AllLand(j) {
      forall data: Data
        ensures Works(j, data)
      {
        WorksWhenAllLand(j, data);
      }
    } else {
      var data := LostSomewhere(j);
    }
  }

  // ---------------------------------------------------------------------
  // What the condition says of the sizes the driver keeps.

  /** From any packet boundary the end is found. */
  lemma EndFoundFromBoundary(j: Job)
    requires Sound(j) && Boundary(j.log, j.used)
    ensures EndFound(j)
  {
    SizeFromBoundary(j.g, j.mem, j.log, j.used);
  }

  /** From behind the end it never is, and a word that is left over never shows. */
  lemma LeftOverIsLostBehindEnd(j: Job, data: Data, i: nat)
    requires Sound(j) && End(j) < j.used && LeftOver(j, i) && Roomy(j, Masked(j.mask, data))
    ensures !Lands(j, i)
    ensures Shown(j.g, Programmed(j, Masked(j.mask, data)), j.section, i) == Shown(j.g, j.mem, j.section, i)
  {
    var d := Masked(j.mask, data);
    SizeGrows(j.g, j.mem, j.used);
    SizeGrows(j.g, Filled1(j, d), j.used);
    assert Place(j, d) > End(j);
    WriteShows(j, data, j.section, i);
    ShownReads(j.g, j.mem, j.log, j.section, i);
  }

  /** The size a read-out keeps is such a size: until it is corrected, every word left over is lost. */
  lemma LeftOverIsLostAfterReadout(j: Job, data: Data, i: nat)
    requires Sound(j) && LeftOver(j, i) && Roomy(j, Masked(j.mask, data))
    requires j.used == Sweep(j.g, j.mem, 0, Fresh(j.g)).next
    ensures !Lands(j, i)
    ensures Shown(j.g, Programmed(j, Masked(j.mask, data)), j.section, i) == Shown(j.g, j.mem, j.section, i)
  {
    HoldsEnd(j.g, j.mem, 0, j.log);
    SweepReadsLog(j.g, j.mem, 0, j.log, Fresh(j.g), 0, 0);
    LeftOverIsLostBehindEnd(j, data, i);
  }

  /** A write always works with room and no blank packet for the section, whatever size is kept. */
  lemma WorksWithoutBlankPackets(j: Job, data: Data)
    requires Sound(j) && DataFits(j.g, End(j), j.section) && Room(j.g, j.mem, End(j))
    requires forall k :: 0 <= k < |j.log| ==> !(j.log[k].section == j.section && Empty(j.log[k]))
    ensures AllLand(j) && Works(j, data)
    ensures Holds(j.g, Programmed(j, Masked(j.mask, data)), 0,
                  j.log + [NewPacket(j.section, j.mask, Masked(j.mask, data))])
  {
    assert Taker(j) == |j.log|;
    WorksWhenAllLand(j, data);
    AfterLogHolds(j, Masked(j.mask, data));
  }

  /** On this chip: a log of at most 492 cells and eleven blank cells behind it are enough. */
  lemma WorksOnThisChip(mem: seq<byte>, log: seq<Packet>, section: nat, mask: nat, used: nat, repeats: nat, data: Data)
    requires WfLog(log) && InMap(JAGUAR, log) && Holds(JAGUAR, mem, 0, log) && section < 64 && mask < NO_WORDS
    requires TotalSize(log) <= 492 && BlankRange(mem, TotalSize(log), TotalSize(log) + 11)
    requires forall k :: 0 <= k < |log| ==> !(log[k].section == section && Empty(log[k]))
    ensures Sane(JAGUAR) && Sound(Job(JAGUAR, mem, log, section, mask, used, repeats))
    ensures Works(Job(JAGUAR, mem, log, section, mask, used, repeats), data)
  {
    HoldsEnd(JAGUAR, mem, 0, log);
    WorksWithoutBlankPackets(Job(JAGUAR, mem, log, section, mask, used, repeats), data);
  }

  const ONE_WORD := 14
  const TWO_WORDS := 12

  lemma CountOneWord(mask: nat)
    requires mask == ONE_WORD
    ensures Count(mask, 0) == 1 && Enabled(mask, 0) && !Enabled(mask, 1) && !Enabled(mask, 2) && !Enabled(mask, 3)
  {
    assert Count(mask, 4) == 0;
    assert Count(mask, 3) == 0;
    assert Count(mask, 2) == 0;
    assert Count(mask, 1) == 0;
  }

  /**
   A log of one blank packet for one word, a request for two, and the size a read-out keeps: the second word is lost.
   */
  lemma SecondWordIsLost(j: Job, data: Data)
    requires Sound(j) && j.log == [Packet(3, ONE_WORD, [0xFF, 0xFF], false)]
    requires j.section == 3 && j.mask == TWO_WORDS && j.used == End(j) + 1 && Roomy(j, Masked(j.mask, data))
    ensures !Lands(j, 1)
    ensures Shown(j.g, Programmed(j, Masked(j.mask, data)), 3, 1) == 0xFFFF
  {
    CountOneWord(ONE_WORD);
    assert Takes(j.log[0], 3, TWO_WORDS);
    assert Taker(j) == 0;
    assert LeftOver(j, 1);
    LeftOverIsLostBehindEnd(j, data, 1);
    ShownReads(j.g, j.mem, j.log, 3, 1);
    LastWriterWins(j.log, 3, 1, 0xFFFF, 1);
  }

  /** A blank packet with a later packet behind it swallows the write: the map does not change. */
  lemma BlankPacketSwallowsWrite(j: Job, data: Data)
    requires Sound(j)
    requires j.log == [Packet(3, ONE_WORD, [0xFF, 0xFF], false), Packet(3, ONE_WORD, [0x12, 0x34], false)]
    requires j.section == 3 && j.mask == ONE_WORD && Roomy(j, Masked(j.mask, data))
    ensures !Lands(j, 0)
    ensures Shown(j.g, Programmed(j, Masked(j.mask, data)), 3, 0) == 0x3412
  {
    CountOneWord(ONE_WORD);
    assert Takes(j.log[0], 3, ONE_WORD);
    assert Taker(j) == 0;
    assert Writes(j.log[1], 3, 0);
    assert WrittenLater(j.log, 0, 3, 0);
    WithoutEnables(ONE_WORD, ONE_WORD, 0);
    assert Rest(j) == NO_WORDS;
    WriteShows(j, data, 3, 0);
    ShownReads(j.g, j.mem, j.log, 3, 0);
    LastWriterWins(j.log, 3, 0, 0xFFFF, 1);
  }
}
