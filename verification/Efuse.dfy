/**
 The efuse operations of the driver on the fuse cells themselves (efuse.c):
 read-out, size scan and packet write.  A cell can only be written while it
 is blank.
 */
module Efuse {
  import opened Buffers
  import opened EfuseLog
  import opened EfuseWrite
  import opened EfuseCells
  import opened EfuseEffect

  // ---------------------------------------------------------------------
  // The map as bytes.

  function LowByte(w: int): (b: byte) {
    w % 256
  }

  function HighByte(w: int): (b: byte) {
    w / 256 % 256
  }

  /** The first `n` words as bytes, low byte first. */
  function Table(words: seq<int>, n: nat): (t: seq<byte>)
    requires n <= |words|
    ensures |t| == 2 * n
    decreases words, n
  {
    if n == 0 then [] else Table(words, n - 1) + [LowByte(words[n - 1]), HighByte(words[n - 1])]
  }

  lemma {:induction false} TableAt(words: seq<int>, n: nat, k: nat)
    requires k < n <= |words|
    ensures Table(words, n)[2 * k] == LowByte(words[k]) && Table(words, n)[2 * k + 1] == HighByte(words[k])
  {
    if k < n - 1 {
      TableAt(words, n - 1, k);
    }
  }

  /** The map a read-out takes its bytes from, eight bytes to a section. */
  function Readout(g: Geometry, mem: seq<byte>): (t: seq<byte>)
    requires Covers(g, mem)
    ensures |t| == 8 * g.sections
  {
    var words := Sweep(g, mem, 0, Fresh(g)).words;
    Table(words, |words|)
  }

  lemma ReadoutShows(g: Geometry, mem: seq<byte>, s: nat, i: nat)
    requires Covers(g, mem) && s < g.sections && i < 4
    ensures Readout(g, mem)[8 * s + 2 * i] == LowByte(Shown(g, mem, s, i))
    ensures Readout(g, mem)[8 * s + 2 * i + 1] == HighByte(Shown(g, mem, s, i))
  {
    var words := Sweep(g, mem, 0, Fresh(g)).words;
    TableAt(words, |words|, 4 * s + i);
  }

  /** Every byte of the read-out of a log is a byte of the word its last writer put there, or 0xFF. */
  lemma ReadoutOfLog(g: Geometry, mem: seq<byte>, log: seq<Packet>, s: nat, i: nat)
    requires WfLog(log) && InMap(g, log) && Holds(g, mem, 0, log) && Covers(g, mem) && s < g.sections && i < 4
    ensures Readout(g, mem)[8 * s + 2 * i] == LowByte(Reading(log, s, i, 0xFFFF))
    ensures Readout(g, mem)[8 * s + 2 * i + 1] == HighByte(Reading(log, s, i, 0xFFFF))
  {
    ShownReads(g, mem, log, s, i);
    ReadoutShows(g, mem, s, i);
  }

  lemma PairBytes(x: byte, y: byte)
    ensures LowByte(Pair(x, y)) == x && HighByte(Pair(x, y)) == y
  {
  }

  /** After a write that works the bytes read out are as before, with exactly those of the enabled words replaced. */
  lemma WriteThenRead(j: Job, data: Data, s: nat, i: nat)
    requires Sound(j) && Works(j, data) && s < j.g.sections && i < 4
    ensures var before, after := Readout(j.g, j.mem), Readout(j.g, Programmed(j, Masked(j.mask, data)));
            && after[8 * s + 2 * i]
              == (if Requested(j.section, j.mask, s, i) then data[2 * i] else before[8 * s + 2 * i])
            && after[8 * s + 2 * i + 1] ==
               (if Requested(j.section, j.mask, s, i) then data[2 * i + 1] else before[8 * s + 2 * i + 1])
  {
    ReadoutShows(j.g, j.mem, s, i);
    ReadoutShows(j.g, Programmed(j, Masked(j.mask, data)), s, i);
    PairBytes(data[2 * i], data[2 * i + 1]);
  }

  // ---------------------------------------------------------------------
  // A write in progress.

  /** `Scan`: looking at packet k; `Extend`: about to begin a packet; `Begun`: its header is written into `before`. */
  datatype Stage = Scan(k: nat) | Extend | Begun(at: nat, before: seq<byte>) | Done

  ghost function Rank(j: Job, g: Stage): (n: int) {
    match g
    case Scan(k) => 3 + |j.log| - k
    case Extend => 2
    case Begun(_, _) => 1
    case Done => 0
  }

  lemma ScanRanOut(j: Job, data: Data, k: nat)
    requires Sound(j) && k <= Taker(j) && !HeaderFits(j.g, TotalSize(j.log[..k]))
    ensures Programmed(j, data) == j.mem
  {
    var first := Taker(j);
    assert j.log[..first] == j.log[..k] + j.log[k..first] && j.log == j.log[..first] + j.log[first..];
    TotalSizeConcat(j.log[..k], j.log[k..first]);
    TotalSizeConcat(j.log[..first], j.log[first..]);
  }

  class Fuses {
    const g: Geometry
    const cells: array<byte>
    /** The value kept by the driver as HW_VAR_EFUSE_BYTES. */
    var used: nat
    /** The writer's retry count, never reset. */
    var repeatTimes: nat

    ghost predicate Valid()
      reads cells
    {
      Sane(g) && Covers(g, cells[..])
    }

    constructor (geometry: Geometry, contents: array<byte>)
      requires Sane(geometry) && Covers(geometry, contents[..])
      ensures Valid() && g == geometry && cells == contents && used == 0 && repeatTimes == 0
    {
      g, cells, used, repeatTimes := geometry, contents, 0, 0;
    }

    method FillWords(words: array<int>, addr: nat, section: nat, mask: nat) returns (next: nat)
      requires Valid() && IsMap(g, words[..]) && addr <= g.content && section < g.sections
      modifies words
      ensures Filled(words[..], next) == Fill(g, cells[..], addr, section, mask, 0, old(words[..]))
    {
      next := addr;
      var i := 0;
      while i < 4
        invariant i <= 4 && next <= g.content
        invariant Fill(g, cells[..], addr, section, mask, 0, old(words[..]))
               == Fill(g, cells[..], next, section, mask, i, words[..])
      {
        if Enabled(mask, i) {
          ghost var before := words[..];
          words[4 * section + i] := cells[next];
          assert words[..] == before[4 * section + i := cells[..][next]];
          next := next + 1;
          if next >= g.content {
            break;
          }
          words[4 * section + i] := Pair(words[4 * section + i], cells[next]);
          next := next + 1;
          assert words[..] == before[4 * section + i := cells[..][next - 2]]
                                    [4 * section + i := Pair(cells[..][next - 2], cells[..][next - 1])];
          if next >= g.content {
            break;
          }
        }
        i := i + 1;
      }
    }

    /** One turn of the packet loop: `header` was read just in front of `addr`; a bad extended header ends the loop. */
    method TakePacket(words: array<int>, header: byte, addr: nat) returns (next: nat, more: bool)
      requires Valid() && IsMap(g, words[..]) && 1 <= addr < g.content
      requires header == cells[addr - 1] && header != BLANK
      modifies words
      ensures addr <= next <= g.content + 2 && (more ==> next <= g.content + 1)
      ensures Sweep(g, cells[..], addr - 1, old(words[..])) ==
              if more then Sweep(g, cells[..], next, words[..]) else Filled(words[..], next)
    {
      next, more := addr, true;
      var section, mask := header / 16, header % 16;
      if IsExtended(header) {
        var x := cells[next];
        next := next + 1;
        if x == BLANK {
          more := false;
          return;
        }
        if x % 16 == NO_WORDS {
          next, more := next + 1, false;
          return;
        }
        section, mask := x / 16 * 8 + header / 32, x % 16;
      }
      if section < g.sections {
        next := FillWords(words, next, section, mask);
      }
    }

    /** The packet loop of the read-out, from the header at address 0 on. */
    method SweepWords(words: array<int>) returns (addr: nat)
      requires Valid() && IsMap(g, words[..])
      modifies words
      ensures Filled(words[..], addr) == Sweep(g, cells[..], 0, old(words[..]))
    {
      addr := 1;
      var header := cells[0];
      while header != BLANK && addr < g.content
        invariant 1 <= addr <= g.content + 2 && header == cells[addr - 1]
        invariant Sweep(g, cells[..], addr - 1, words[..]) == Sweep(g, cells[..], 0, old(words[..]))
        decreases g.content + 2 - addr
      {
        var more;
        addr, more := TakePacket(words, header, addr);
        if !more {
          return;
        }
        header := cells[addr];
        addr := addr + 1;
      }
    }

    static method Collect(words: array<int>) returns (table: array<byte>)
      ensures fresh(table) && table[..] == Table(words[..], |words[..]|)
    {
      table := new byte[2 * words.Length];
      var k := 0;
      while k < words.Length
        invariant k <= words.Length
        invariant table[..][..2 * k] == Table(words[..], k)
      {
        table[2 * k] := LowByte(words[k]);
        table[2 * k + 1] := HighByte(words[k]);
        k := k + 1;
        assert table[..][..2 * k] == table[..][..2 * k - 2] + [LowByte(words[..][k - 1]), HighByte(words[..][k - 1])];
      }
      assert table[..] == table[..][..2 * k];
    }

    static method CopyOut(table: array<byte>, offset: nat, pbuf: array<byte>)
      requires offset + pbuf.Length <= table.Length && pbuf != table
      modifies pbuf
      ensures pbuf[..] == table[..][offset..offset + pbuf.Length]
    {
      var i := 0;
      while i < pbuf.Length
        invariant i <= pbuf.Length
        invariant pbuf[..][..i] == table[..][offset..offset + i]
      {
        pbuf[i] := table[offset + i];
        i := i + 1;
        assert pbuf[..][..i] == pbuf[..][..i - 1] + [table[..][offset + i - 1]];
      }
      assert pbuf[..] == pbuf[..][..i];
    }

    /**
     Read `size` bytes of the map from `offset` on; an empty efuse or a range outside the map leaves the buffer alone.
     */
    method ReadEfuse(offset: nat, size: nat, pbuf: array<byte>)
      requires Valid() && pbuf.Length == size && pbuf != cells
      modifies this`used, pbuf
      ensures if offset + size > 8 * g.sections || cells[0] == BLANK
              then pbuf[..] == old(pbuf[..]) && used == old(used)
              else
                && pbuf[..] == Readout(g, cells[..])[offset..offset + size]
                && used == Sweep(g, cells[..], 0, Fresh(g)).next
    {
      if offset + size > 8 * g.sections || cells[0] == BLANK {
        return;
      }
      var words := new int[4 * g.sections](i => 0xFFFF);
      assert words[..] == Fresh(g);
      var addr := SweepWords(words);
      var table := Collect(words);
      CopyOut(table, offset, pbuf);
      used := addr;
    }

    /** Scan for the end of the log from the address kept so far. */
    method GetCurrentSize() returns (addr: nat)
      requires Valid()
      modifies this`used
      ensures addr == CurrentSize(g, cells[..], old(used)) && used == addr
    {
      addr := used;
      var more := true;
      while more && addr < g.content
        invariant CurrentSize(g, cells[..], addr) == CurrentSize(g, cells[..], old(used))
        invariant !more ==> addr < g.content && cells[addr] == BLANK
        decreases more, g.content - addr
      {
        var b := cells[addr];
        if b != BLANK {
          if IsExtended(b) {
            addr := addr + 1;
            b := cells[addr];
            if b % 16 == NO_WORDS {
              addr := addr + 1;
              continue;
            }
          }
          addr := addr + 2 * Count(b % 16, 0) + 1;
        } else {
          more := false;
        }
      }
      used := addr;
    }

    method OneByteWrite(a: nat, v: byte)
      requires a < cells.Length && cells[a] == BLANK
      modifies cells
      ensures cells[..] == old(cells[..])[a := v]
    {
      cells[a] := v;
    }

    /** Write word `i` behind the bytes already `done`, and read it back. */
    method WriteWord(start: nat, at: nat, mask: nat, data: Data, i: nat, ghost was: seq<byte>, ghost done: seq<byte>)
      returns (next: nat, bad: bool, ghost after: seq<byte>)
      requires i < 4 && |was| == cells.Length && start + 2 * Count(mask, 0) <= cells.Length
      requires at == start + |done| && done + Pick(mask, data, i) == Pick(mask, data, 0)
      requires cells[..] == Splice(was, start, done) && BlankRange(was, start, start + 2 * Count(mask, 0))
      modifies cells
      ensures next == start + |after| && after + Pick(mask, data, i + 1) == Pick(mask, data, 0) && !bad
      ensures cells[..] == Splice(was, start, after)
    {
      ConcatAssoc(done, Own(mask, data, i), Pick(mask, data, i + 1));
      after := done + Own(mask, data, i);
      next, bad := at, false;
      if Enabled(mask, i) {
        assert |Pick(mask, data, i)| >= 2;
        SpliceOne(was, start, done, data[2 * i]);
        OneByteWrite(next, data[2 * i]);
        SpliceOne(was, start, done + [data[2 * i]], data[2 * i + 1]);
        OneByteWrite(next + 1, data[2 * i + 1]);
        assert (done + [data[2 * i]]) + [data[2 * i + 1]] == after;
        bad := cells[next] != data[2 * i] || cells[next + 1] != data[2 * i + 1];
        next := next + 2;
      } else {
        assert after == done;
      }
    }

    /** Write the enabled words into blank cells; the result has a zero bit for each word that reads back wrong. */
    method WordEnableDataWrite(start: nat, mask: nat, data: Data) returns (badWords: nat)
      requires start + 2 * Count(mask, 0) <= cells.Length
      requires BlankRange(cells[..], start, start + 2 * Count(mask, 0))
      modifies cells
      ensures badWords == NO_WORDS && cells[..] == Splice(old(cells[..]), start, Pick(mask, data, 0))
    {
      ghost var was, done := cells[..], [];
      assert done + Pick(mask, data, 0) == Pick(mask, data, 0) && Splice(was, start, done) == was;
      var at, bad0, bad1, bad2, bad3;
      at, bad0, done := WriteWord(start, start, mask, data, 0, was, done);
      at, bad1, done := WriteWord(start, at, mask, data, 1, was, done);
      at, bad2, done := WriteWord(start, at, mask, data, 2, was, done);
      at, bad3, done := WriteWord(start, at, mask, data, 3, was, done);
      assert Pick(mask, data, 4) == [] && done + [] == done;
      badWords := MaskOf(bad0, bad1, bad2, bad3);
    }

    /** Decode the header at `addr`; `last` is the address of its last byte. */
    method ReadHeader(addr: nat, ghost p: Packet) returns (last: nat, section: nat, mask: nat)
      requires Wf(p) && At(cells[..], addr, p)
      ensures last == addr + HeaderSize(p) - 1 && section == p.section && mask == p.mask
    {
      HeaderAt(cells[..], addr, p);
      last := addr;
      var header := cells[last];
      if IsExtended(header) {
        last := last + 1;
        var x := cells[last];
        section, mask := x / 16 * 8 + header / 32, x % 16;
      } else {
        section, mask := header / 16, header % 16;
      }
    }

    method DataEmpty(at: nat, n: nat) returns (empty: bool)
      requires at + n <= cells.Length
      ensures empty == BlankRange(cells[..], at, at + n)
    {
      empty := true;
      var i := 0;
      while i < n
        invariant i <= n
        invariant empty == BlankRange(cells[..], at, at + i)
      {
        if cells[at + i] != BLANK {
          empty := false;
        }
        i := i + 1;
      }
    }

    static method MatchWords(target: nat, mask: nat) returns (m: nat)
      ensures m == Both(target, mask)
    {
      m := NO_WORDS;
      if Enabled(target, 0) && Enabled(mask, 0) { m := m - 1; }
      if Enabled(target, 1) && Enabled(mask, 1) { m := m - 2; }
      if Enabled(target, 2) && Enabled(mask, 2) { m := m - 4; }
      if Enabled(target, 3) && Enabled(mask, 3) { m := m - 8; }
    }

    static method UnmatchedWords(target: nat, match_: nat, ghost mask: nat) returns (m: nat)
      requires match_ == Both(target, mask)
      ensures m == Without(target, mask)
    {
      BothEnables(target, mask, 0);
      BothEnables(target, mask, 1);
      BothEnables(target, mask, 2);
      BothEnables(target, mask, 3);
      m := NO_WORDS;
      if Enabled(target, 0) != Enabled(match_, 0) { m := m - 1; }
      if Enabled(target, 1) != Enabled(match_, 1) { m := m - 2; }
      if Enabled(target, 2) != Enabled(match_, 2) { m := m - 4; }
      if Enabled(target, 3) != Enabled(match_, 3) { m := m - 8; }
    }

    /** Fill the blank packet `log[k]` in and find where to go on. */
    method FillPacketIn(last: nat, mask: nat, target: nat, match_: nat, data: Data, ghost log: seq<Packet>,
                        ghost k: nat)
      returns (next: nat, rest: nat, more: bool)
      requires Valid() && WfLog(log) && Holds(g, cells[..], 0, log) && k < |log| && Empty(log[k])
      requires last == TotalSize(log[..k]) + HeaderSize(log[k]) - 1
      requires mask == log[k].mask && match_ == Both(target, mask)
      modifies this, cells
      ensures cells[..] == FilledCells(g, old(cells[..]), log, k, data)
      ensures repeatTimes == old(repeatTimes) + 1
      ensures rest == Without(target, mask) && more == (rest != NO_WORDS && old(repeatTimes) < REPEAT_THRESHOLD)
      ensures rest != NO_WORDS ==> next == used == CurrentSize(g, cells[..], old(used))
    {
      WriteBlankPacket(last, mask, data, log, k);
      rest := UnmatchedWords(target, match_, mask);
      next, more := GoOn(last, rest);
    }

    /** The words of the blank packet are written. */
    method WriteBlankPacket(last: nat, mask: nat, data: Data, ghost log: seq<Packet>, ghost k: nat)
      requires Valid() && WfLog(log) && Holds(g, cells[..], 0, log) && k < |log| && Empty(log[k])
      requires last == TotalSize(log[..k]) + HeaderSize(log[k]) - 1 && mask == log[k].mask
      modifies cells
      ensures cells[..] == FilledCells(g, old(cells[..]), log, k, data)
    {
      ghost var mem := cells[..];
      FilledBy(g, mem, log, k, data, last + 1, mask);
      var bad := WordEnableDataWrite(last + 1, mask, data);
    }

    /** Which cells that takes, and what they become. */
    static lemma FilledBy(g: Geometry, mem: seq<byte>, log: seq<Packet>, k: nat, data: Data, at: nat, mask: nat)
      requires WfLog(log) && Holds(g, mem, 0, log) && k < |log| && Empty(log[k])
      requires at == TotalSize(log[..k]) + HeaderSize(log[k]) && mask == log[k].mask
      ensures at + 2 * Count(mask, 0) <= |mem| && BlankRange(mem, at, at + 2 * Count(mask, 0))
      ensures Splice(mem, at, Pick(mask, data, 0)) == FilledCells(g, mem, log, k, data)
    {
      FilledOnlyBlank(g, mem, log, k, data);
    }

    /** With words left over, go on where the scan ends, unless the repeats are used up. */
    method GoOn(last: nat, rest: nat) returns (next: nat, more: bool)
      requires Valid()
      modifies this
      ensures repeatTimes == old(repeatTimes) + 1
      ensures more == (rest != NO_WORDS && old(repeatTimes) < REPEAT_THRESHOLD)
      ensures rest != NO_WORDS ==> next == used == CurrentSize(g, cells[..], old(used))
      ensures rest == NO_WORDS ==> used == old(used)
    {
      next, more := last + 1, rest != NO_WORDS;
      if rest != NO_WORDS {
        next := GetCurrentSize();
      }
      repeatTimes := repeatTimes + 1;
      if repeatTimes > REPEAT_THRESHOLD {
        more := false;
      }
    }

    /** The header state over an existing packet. */
    method OverPacket(addr: nat, section: nat, target: nat, data: Data, ghost log: seq<Packet>, ghost k: nat)
      returns (next: nat, rest: nat, more: bool)
      requires Valid() && WfLog(log) && Holds(g, cells[..], 0, log) && k < |log| && addr == TotalSize(log[..k])
      modifies this, cells
      ensures !Takes(log[k], section, target) ==>
                && cells[..] == old(cells[..]) && used == old(used) && repeatTimes == old(repeatTimes)
                && next == addr + Size(log[k]) && rest == target && more
      ensures Takes(log[k], section, target) ==>
                && cells[..] == FilledCells(g, old(cells[..]), log, k, data)
                && rest == Without(target, log[k].mask)
                && more == (rest != NO_WORDS && old(repeatTimes) < REPEAT_THRESHOLD)
                && (rest != NO_WORDS ==> next == CurrentSize(g, cells[..], old(used)))
    {
      HoldsAt(g, cells[..], log, k);
      EmptyIsBlank(cells[..], addr, log[k]);
      var last, found, mask := ReadHeader(addr, log[k]);
      var count := Count(mask, 0);
      next, rest, more := last + 2 * count + 1, target, true;
      if found == section {
        var empty := DataEmpty(last + 1, 2 * count);
        if empty {
          var match_ := MatchWords(target, mask);
          if match_ != NO_WORDS {
            next, rest, more := FillPacketIn(last, mask, target, match_, data, log, k);
          }
        }
      }
    }

    /** The header state on a blank cell: write the header of a new packet. */
    method WriteHeader(addr: nat, section: nat, mask: nat) returns (last: nat, written: bool)
      requires section < 128 && mask < NO_WORDS && addr + 2 <= cells.Length
      requires BlankRange(cells[..], addr, addr + HeaderSize(BlankPacket(section, mask)))
      modifies cells
      ensures written && last == addr + |Header(BlankPacket(section, mask))| - 1
      ensures cells[..] == Splice(old(cells[..]), addr, Header(BlankPacket(section, mask)))
    {
      last := addr;
      var header: byte;
      if section >= SECTION_BASE {
        header := section % 8 * 32 + 15;
        OneByteWrite(last, header);
        if cells[last] == header {
          last := last + 1;
          header := section / 8 * 16 + mask;
          OneByteWrite(last, header);
        }
      } else {
        header := section * 16 + mask;
        OneByteWrite(last, header);
      }
      written := cells[last] == header;
    }

    /** How far a write has come: the cells as they are, and what is still to do for the goal. */
    ghost predicate Tracks(j: Job, data: Data, stage: Stage, addr: nat, more: bool, inHeader: bool, target: nat)
      requires Valid() && Sound(j)
      reads this, cells
    {
      && j.g == g && |j.mem| == cells.Length && OnlyBlankWritten(cells[..], j.mem)
      && match stage
         case Scan(k) =>
           && inHeader && more && target == j.mask && cells[..] == j.mem && used == j.used && repeatTimes == j.repeats
           && k <= Taker(j) && addr == TotalSize(j.log[..k])
         case Extend =>
           && inHeader && more && target < NO_WORDS && Writable(g, cells[..], addr, j.section, target)
           && Programmed(j, data) == Program(g, cells[..], addr, j.section, target, data)
         case Begun(at, before) =>
           && !inHeader && more && target < NO_WORDS && HeaderFits(g, at) && Writable(g, before, at, j.section, target)
           && Covers(g, before) && OnlyBlankWritten(before, j.mem)
           && addr == at + HeaderSize(BlankPacket(j.section, target)) - 1
           && cells[..] == Splice(before, at, Header(BlankPacket(j.section, target)))
           && Programmed(j, data) == Program(g, before, at, j.section, target, data)
         case Done => !more && cells[..] == Programmed(j, data)
    }

    /** The header state over an existing packet: past it, or into it. */
    method PacketStep(addr: nat, section: nat, target: nat, data: Data, ghost j: Job, ghost k: nat)
      returns (next: nat, rest: nat, more: bool, ghost stage: Stage)
      requires Valid() && Sound(j) && Programmable(j, data) && Tracks(j, data, Scan(k), addr, true, true, target)
               && k < |j.log|
      requires section == j.section && HeaderFits(g, addr)
      modifies this, cells
      ensures Valid() && Tracks(j, data, stage, next, more, true, rest) && 0 <= Rank(j, stage) < Rank(j, Scan(k))
    {
      HoldsAt(g, j.mem, j.log, k);
      NextBoundary(j.log, k);
      TakerDecides(j, k);
      next, rest, more := OverPacket(addr, section, target, data, j.log, k);
      if k < Taker(j) {
        stage := Scan(k + 1);
      } else {
        FilledIn(j, data, cells[..], next, rest, more);
        stage := if more then Extend else Done;
      }
    }

    static lemma TakerDecides(j: Job, k: nat)
      requires k <= Taker(j) && k < |j.log|
      ensures Takes(j.log[k], j.section, j.mask) <==> k == Taker(j)
    {
    }

    /** What is left to do once the blank packet is filled in. */
    static lemma FilledIn(j: Job, data: Data, mem: seq<byte>, next: nat, rest: nat, more: bool)
      requires Sound(j) && Programmable(j, data) && Fills(j) && mem == Filled1(j, data) && rest == Rest(j)
      requires more == (rest != NO_WORDS && j.repeats < REPEAT_THRESHOLD)
      requires rest != NO_WORDS ==> next == Place(j, data)
      ensures OnlyBlankWritten(mem, j.mem)
      ensures if more then rest < NO_WORDS && Writable(j.g, mem, next, j.section, rest)
                           && Programmed(j, data) == Program(j.g, mem, next, j.section, rest, data)
              else mem == Programmed(j, data)
    {
      FilledOnlyBlank(j.g, j.mem, j.log, Taker(j), data);
    }

    /** The header state on a blank cell. */
    method HeaderStep(addr: nat, section: nat, target: nat, ghost j: Job, ghost data: Data)
      returns (last: nat, inHeader: bool, ghost stage: Stage)
      requires Valid() && Sound(j) && Tracks(j, data, Extend, addr, true, true, target)
      requires section == j.section && HeaderFits(g, addr)
      modifies cells
      ensures Valid() && Tracks(j, data, stage, last, true, inHeader, target) && 0 <= Rank(j, stage) < Rank(j, Extend)
    {
      ghost var before := cells[..];
      var written;
      last, written := WriteHeader(addr, section, target);
      inHeader := !written;
      stage := Begun(addr, before);
      SpliceOnBlank(cells[..], before, addr, Header(BlankPacket(section, target)));
    }

    /** The data state. */
    method DataStep(addr: nat, section: nat, target: nat, data: Data, ghost j: Job, ghost at: nat,
                    ghost before: seq<byte>)
      returns (more: bool)
      requires Valid() && Sound(j) && Tracks(j, data, Begun(at, before), addr, true, false, target)
      requires section == j.section && HeaderFits(g, addr)
      modifies cells
      ensures Valid() && Tracks(j, data, Done, addr, more, false, target)
    {
      ghost var p, h := NewPacket(section, target, data), Header(BlankPacket(section, target));
      NewPacketFacts(section, target, data);
      StillBlank(cells[..], before, at, h, addr + 1, addr + 1 + 2 * Count(target, 0));
      var bad := WordEnableDataWrite(addr + 1, target, data);
      SpliceTwice(before, at, h, addr + 1, p.bytes);
      SpliceOnBlank(cells[..], before, at, Encode(p));
      more := bad != NO_WORDS;
    }

    static lemma StillBlank(mem: seq<byte>, was: seq<byte>, at: nat, h: seq<byte>, lo: nat, hi: nat)
      requires at + |h| <= |was| && mem == Splice(was, at, h) && BlankRange(was, at, hi) && at + |h| <= lo
      ensures BlankRange(mem, lo, hi)
    {
    }

    /** Which packet, or which blank cell, the header state is looking at. */
    ghost method Locate(addr: nat, target: nat, j: Job, data: Data, stage: Stage) returns (at: Stage)
      requires Valid() && Sound(j) && Programmable(j, data) && Tracks(j, data, stage, addr, true, true, target)
      requires HeaderFits(g, addr)
      ensures Tracks(j, data, at, addr, true, true, target) && 0 <= Rank(j, at) <= Rank(j, stage)
      ensures addr < cells.Length
      ensures cells[addr] == BLANK ==> at.Extend?
      ensures cells[addr] != BLANK ==> at.Scan? && at.k < |j.log|
    {
      at := stage;
      if stage.Scan? {
        HoldsAt(g, j.mem, j.log, stage.k);
        if stage.k == |j.log| {
          at := Extend;
        } else {
          HeaderAt(j.mem, addr, j.log[stage.k]);
        }
      }
    }

    lemma Ended(j: Job, data: Data, stage: Stage, addr: nat, more: bool, inHeader: bool, target: nat)
      requires Valid() && Sound(j) && Tracks(j, data, stage, addr, more, inHeader, target)
      requires !(more && HeaderFits(g, addr))
      ensures cells[..] == Programmed(j, data)
    {
      match stage
      case Scan(k) => ScanRanOut(j, data, k);
      case _ =>
    }

    /**
     Write the enabled words of one section.  On cells that hold a log, if no
     cell would be programmed twice, only blank cells are written and the cells
     become exactly `Programmed`, whatever size the driver has kept.
     */
    method PgPacketWrite(section: nat, mask: nat, source: Data, ghost log: seq<Packet>)
      requires Valid() && Sound(Job(g, cells[..], log, section, mask, used, repeatTimes))
      requires Programmable(Job(g, cells[..], log, section, mask, used, repeatTimes), Masked(mask, source))
      modifies this, cells
      ensures cells[..] ==
              Programmed(old(Job(g, cells[..], log, section, mask, used, repeatTimes)), Masked(mask, source))
      ensures OnlyBlankWritten(cells[..], old(cells[..]))
    {
      var data := Masked(mask, source);
      var target, addr, more, inHeader := mask, 0, true, true;
      ghost var j := Job(g, cells[..], log, section, mask, used, repeatTimes);
      ghost var stage := Scan(0);
      assert log[..0] == [];
      while more && HeaderFits(g, addr)
        invariant 0 <= addr && 0 <= target && Valid()
        invariant Tracks(j, data, stage, addr, more, inHeader, target) && 0 <= Rank(j, stage)
        decreases Rank(j, stage)
      {
        if inHeader {
          ghost var at := Locate(addr, target, j, data, stage);
          if cells[addr] != BLANK {
            addr, target, more, stage := PacketStep(addr, section, target, data, j, at.k);
          } else {
            addr, inHeader, stage := HeaderStep(addr, section, target, j, data);
          }
        } else {
          more := DataStep(addr, section, target, data, j, stage.at, stage.before);
          stage := Done;
        }
      }
      Ended(j, data, stage, addr, more, inHeader, target);
    }
  }
}
