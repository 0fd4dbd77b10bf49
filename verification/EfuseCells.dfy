/**
 A write of one section on the cells themselves: which cells it programs, and
 which log the cells hold afterwards, wherever the packet ends up.
 */
module EfuseCells {
  import opened Buffers
  import opened EfuseLog
  import opened EfuseWrite

  // ---------------------------------------------------------------------
  // Logs in changing cells.

  /** The cells in [lo, hi) are the same. */
  predicate Same(mem: seq<byte>, was: seq<byte>, lo: nat, hi: nat) {
    |mem| == |was| && forall k :: lo <= k < hi && k < |mem| ==> mem[k] == was[k]
  }

  predicate BlankRange(mem: seq<byte>, lo: nat, hi: nat) {
    forall k :: lo <= k < hi && k < |mem| ==> mem[k] == BLANK
  }

  /** Only blank cells were written. */
  predicate OnlyBlankWritten(mem: seq<byte>, was: seq<byte>) {
    |mem| == |was| && forall k :: 0 <= k < |was| && was[k] != BLANK ==> mem[k] == was[k]
  }

  lemma SameSlice(mem: seq<byte>, was: seq<byte>, lo: nat, hi: nat)
    requires lo <= hi <= |mem| && Same(mem, was, lo, hi)
    ensures mem[lo..hi] == was[lo..hi]
  {
  }

  lemma SameSpells(g: Geometry, mem: seq<byte>, was: seq<byte>, a: nat, text: seq<byte>)
    requires Spells(g, was, a, text) && Same(mem, was, a, |mem|)
    ensures Spells(g, mem, a, text)
  {
    assert mem[a + |text|] == was[a + |text|];
    SameSlice(mem, was, a, a + |text|);
  }

  lemma SpliceSame(mem: seq<byte>, was: seq<byte>, at: nat, r: seq<byte>)
    requires at + |r| <= |was| && mem == Splice(was, at, r)
    ensures Same(mem, was, 0, at) && Same(mem, was, at + |r|, |mem|) && mem[at..at + |r|] == r
  {
  }

  lemma SpliceOnBlank(mem: seq<byte>, was: seq<byte>, at: nat, r: seq<byte>)
    requires at + |r| <= |was| && mem == Splice(was, at, r) && BlankRange(was, at, at + |r|)
    ensures OnlyBlankWritten(mem, was)
  {
  }

  lemma SpellsAppended(g: Geometry, mem: seq<byte>, was: seq<byte>, x: seq<byte>, y: seq<byte>)
    requires Spells(g, was, 0, x) && Same(mem, was, 0, |x|) && Spells(g, mem, |x|, y)
    ensures Spells(g, mem, 0, x + y)
  {
    SameSlice(mem, was, 0, |x|);
    SpellsConcat(g, mem, 0, x, y);
  }

  /** Writing a packet into the blank cells behind a log extends the log. */
  lemma HoldsAppended(g: Geometry, mem: seq<byte>, was: seq<byte>, log: seq<Packet>, end: nat, p: Packet)
    requires WfLog(log) && Wf(p) && Holds(g, was, 0, log) && end == TotalSize(log)
    requires Covers(g, mem) && Same(mem, was, 0, end) && At(mem, end, p)
    requires end + Size(p) < g.content && mem[end + Size(p)] == BLANK
    ensures WfLog(log + [p]) && Holds(g, mem, 0, log + [p])
  {
    HoldsIsEncoding(g, was, 0, log);
    EncodeAllSize(log);
    EncodeSize(p);
    AtIsEncoding(mem, end, p);
    SpellsAppended(g, mem, was, EncodeAll(log), Encode(p));
    EncodeAllOne(p);
    EncodeAllConcat(log, [p]);
    HoldsIsEncoding(g, mem, 0, log + [p]);
  }

  /** A log around its packet k. */
  lemma EncodeAround(log: seq<Packet>, k: nat, p: Packet)
    requires WfLog(log) && Wf(p) && k < |log|
    ensures WfLog(log[..k]) && WfLog(log[k + 1..]) && WfLog(log[k := p])
    ensures EncodeAll(log[k := p]) == EncodeAll(log[..k]) + (Encode(p) + EncodeAll(log[k + 1..]))
  {
    assert log[k := p] == log[..k] + ([p] + log[k + 1..]);
    EncodeAllOne(p);
    EncodeAllConcat([p], log[k + 1..]);
    EncodeAllConcat(log[..k], [p] + log[k + 1..]);
  }

  lemma SpellsAround(g: Geometry, mem: seq<byte>, x: seq<byte>, y: seq<byte>, z: seq<byte>)
    ensures Spells(g, mem, 0, x + (y + z)) <==>
            |x| + |y| <= |mem| && mem[..|x|] == x && mem[|x|..|x| + |y|] == y && Spells(g, mem, |x| + |y|, z)
  {
    SpellsConcat(g, mem, 0, x, y + z);
    SpellsConcat(g, mem, |x|, y, z);
  }

  lemma SpellsReplaced(g: Geometry, mem: seq<byte>, was: seq<byte>, x: seq<byte>, y: seq<byte>, y1: seq<byte>,
                       z: seq<byte>)
    requires Spells(g, was, 0, x + (y + z)) && |y1| == |y| && |x| + |y| <= |mem|
    requires Same(mem, was, 0, |x|) && mem[|x|..|x| + |y|] == y1 && Same(mem, was, |x| + |y|, |mem|)
    ensures Spells(g, mem, 0, x + (y1 + z))
  {
    SpellsAround(g, was, x, y, z);
    SameSlice(mem, was, 0, |x|);
    SameSpells(g, mem, was, |x| + |y|, z);
    SpellsAround(g, mem, x, y1, z);
  }

  /** Writing a packet over one of the same size replaces it in the log. */
  lemma HoldsReplaced(g: Geometry, mem: seq<byte>, was: seq<byte>, log: seq<Packet>, k: nat, at: nat, p: Packet)
    requires WfLog(log) && Wf(p) && Holds(g, was, 0, log) && k < |log| && Size(p) == Size(log[k])
    requires at == TotalSize(log[..k]) && At(mem, at, p)
    requires Same(mem, was, 0, at) && Same(mem, was, at + Size(p), |mem|)
    ensures WfLog(log[k := p]) && Holds(g, mem, 0, log[k := p])
  {
    EncodeAround(log, k, p);
    EncodeAround(log, k, log[k]);
    assert log[k := log[k]] == log;
    EncodeAllSize(log[..k]);
    EncodeSize(p);
    EncodeSize(log[k]);
    AtIsEncoding(mem, at, p);
    HoldsIsEncoding(g, was, 0, log);
    SpellsReplaced(g, mem, was, EncodeAll(log[..k]), Encode(log[k]), Encode(p), EncodeAll(log[k + 1..]));
    HoldsIsEncoding(g, mem, 0, log[k := p]);
  }

  /** Cells that are the same up to the end of the log hold the same log. */
  lemma HoldsSameFront(g: Geometry, mem: seq<byte>, was: seq<byte>, log: seq<Packet>)
    requires WfLog(log) && Holds(g, was, 0, log) && Same(mem, was, 0, TotalSize(log) + 1)
    ensures Holds(g, mem, 0, log)
  {
    HoldsEnd(g, was, 0, log);
    HoldsIsEncoding(g, was, 0, log);
    EncodeAllSize(log);
    SameSlice(mem, was, 0, TotalSize(log));
    assert mem[TotalSize(log)] == was[TotalSize(log)];
    HoldsIsEncoding(g, mem, 0, log);
  }

  lemma EmptyIsBlank(mem: seq<byte>, a: nat, p: Packet)
    requires Wf(p) && At(mem, a, p)
    ensures Empty(p) <==> BlankRange(mem, a + HeaderSize(p), a + Size(p))
  {
    CellsAt(mem, a, p);
    var h := a + HeaderSize(p);
    if BlankRange(mem, h, a + Size(p)) {
      forall k | 0 <= k < |p.bytes| ensures p.bytes[k] == BLANK {
        assert mem[h + k] == p.bytes[k];
      }
    } else {
      var k :| h <= k < a + Size(p) && k < |mem| && mem[k] != BLANK;
      assert p.bytes[k - h] == mem[h + (k - h)];
    }
  }

  /** New data behind the header of a packet. */
  lemma NewDataAt(mem: seq<byte>, was: seq<byte>, a: nat, p: Packet, q: Packet)
    requires Wf(p) && At(was, a, p) && Wf(q) && q == p.(bytes := q.bytes)
    requires mem == Splice(was, a + HeaderSize(p), q.bytes)
    ensures At(mem, a, q)
  {
    SpliceSame(mem, was, a + HeaderSize(p), q.bytes);
    assert mem[a] == was[a];
    assert p.extended ==> mem[a + 1] == was[a + 1];
  }

  // ---------------------------------------------------------------------
  // Filling a packet in.

  /** The cells with the data of packet k written. */
  function FilledCells(g: Geometry, mem: seq<byte>, log: seq<Packet>, k: nat, data: Data): (r: seq<byte>)
    requires WfLog(log) && Holds(g, mem, 0, log) && k < |log|
    ensures |r| == |mem|
  {
    HoldsAt(g, mem, log, k);
    Splice(mem, TotalSize(log[..k]) + HeaderSize(log[k]), Pick(log[k].mask, data, 0))
  }

  ghost function FilledLog(log: seq<Packet>, k: nat, data: Data): (r: seq<Packet>)
    requires k < |log|
  {
    log[k := FillIn(log[k], data)]
  }

  lemma FilledHolds(g: Geometry, mem: seq<byte>, log: seq<Packet>, k: nat, data: Data)
    requires WfLog(log) && Holds(g, mem, 0, log) && k < |log|
    ensures WfLog(FilledLog(log, k, data)) && Holds(g, FilledCells(g, mem, log, k, data), 0, FilledLog(log, k, data))
    ensures TotalSize(FilledLog(log, k, data)) == TotalSize(log)
  {
    var p, q, a := log[k], FillIn(log[k], data), TotalSize(log[..k]);
    var mem1 := FilledCells(g, mem, log, k, data);
    HoldsAt(g, mem, log, k);
    NewDataAt(mem1, mem, a, p, q);
    SpliceSame(mem1, mem, a + HeaderSize(p), q.bytes);
    HoldsReplaced(g, mem1, mem, log, k, a, q);
    ReplacedSize(log, k, q);
  }

  lemma FilledOnlyBlank(g: Geometry, mem: seq<byte>, log: seq<Packet>, k: nat, data: Data)
    requires WfLog(log) && Holds(g, mem, 0, log) && k < |log| && Empty(log[k])
    ensures var at := TotalSize(log[..k]) + HeaderSize(log[k]);
            at + 2 * Count(log[k].mask, 0) <= |mem| && BlankRange(mem, at, at + 2 * Count(log[k].mask, 0))
    ensures OnlyBlankWritten(FilledCells(g, mem, log, k, data), mem)
  {
    HoldsAt(g, mem, log, k);
    var at := TotalSize(log[..k]) + HeaderSize(log[k]);
    EmptyIsBlank(mem, TotalSize(log[..k]), log[k]);
    SpliceOnBlank(FilledCells(g, mem, log, k, data), mem, at, Pick(log[k].mask, data, 0));
  }

  lemma LastHeaderByte(mem: seq<byte>, a: nat, p: Packet)
    requires Wf(p) && At(mem, a, p)
    ensures !IsExtended(mem[a + HeaderSize(p) - 1])
  {
    HeaderAt(mem, a, p);
  }

  lemma SpliceOutside(mem: seq<byte>, was: seq<byte>, at: nat, r: seq<byte>)
    requires at + |r| <= |was| && mem == Splice(was, at, r)
    ensures |mem| == |was| && forall k :: 0 <= k < |was| && !(at <= k < at + |r|) ==> mem[k] == was[k]
  {
  }

  /** Filling a blank packet in does not change where a scan ends that ends behind it. */
  lemma FilledScan(g: Geometry, mem: seq<byte>, log: seq<Packet>, k: nat, data: Data, a: nat)
    requires WfLog(log) && Holds(g, mem, 0, log) && Covers(g, mem) && k < |log| && Empty(log[k])
    requires CurrentSize(g, mem, a) == TotalSize(log)
    ensures CurrentSize(g, FilledCells(g, mem, log, k, data), a) == TotalSize(log)
  {
    var start := TotalSize(log[..k]);
    HoldsAt(g, mem, log, k);
    LastHeaderByte(mem, start, log[k]);
    FilledOnlyBlank(g, mem, log, k, data);
    SpliceScan(g, mem, start + HeaderSize(log[k]), Pick(log[k].mask, data, 0), a, TotalSize(log));
  }

  /** Writing into a blank stretch leaves a scan alone that ends behind it. */
  lemma SpliceScan(g: Geometry, mem: seq<byte>, lo: nat, bytes: seq<byte>, a: nat, end: nat)
    requires Covers(g, mem) && 0 < lo && lo + |bytes| <= end < g.content && !IsExtended(mem[lo - 1])
    requires BlankRange(mem, lo, lo + |bytes|) && CurrentSize(g, mem, a) == end
    ensures CurrentSize(g, Splice(mem, lo, bytes), a) == end
  {
    SpliceOutside(Splice(mem, lo, bytes), mem, lo, bytes);
    ScanAvoidsBlanks(g, mem, Splice(mem, lo, bytes), lo, lo + |bytes|, a);
  }

  /** Blank data fill nothing in. */
  lemma FilledWithBlanks(g: Geometry, mem: seq<byte>, log: seq<Packet>, k: nat, data: Data)
    requires WfLog(log) && Holds(g, mem, 0, log) && k < |log| && Empty(log[k])
    requires forall n :: 0 <= n < 4 ==> DataWord(data, n) == 0xFFFF
    ensures FilledCells(g, mem, log, k, data) == mem
  {
    FilledOnlyBlank(g, mem, log, k, data);
    PickBlank(log[k].mask, data, 0);
    BlankOverBlank(mem, TotalSize(log[..k]) + HeaderSize(log[k]), Pick(log[k].mask, data, 0));
  }

  lemma BlankOverBlank(mem: seq<byte>, at: nat, blanks: seq<byte>)
    requires at + |blanks| <= |mem| && BlankRange(mem, at, at + |blanks|)
    requires forall k :: 0 <= k < |blanks| ==> blanks[k] == BLANK
    ensures Splice(mem, at, blanks) == mem
  {
  }

  // ---------------------------------------------------------------------
  // Programming a new packet.

  /** The cells after a new packet at `at`, or as much of it as fits below the limit. */
  function Program(g: Geometry, mem: seq<byte>, at: nat, section: nat, mask: nat, data: Data): (r: seq<byte>)
    requires Sane(g) && Covers(g, mem) && section < 128 && mask < NO_WORDS
    ensures |r| == |mem|
  {
    if !HeaderFits(g, at) then mem
    else if !DataFits(g, at, section) then Splice(mem, at, Header(BlankPacket(section, mask)))
    else
      EncodeSize(NewPacket(section, mask, data));
      Splice(mem, at, Encode(NewPacket(section, mask, data)))
  }

  /** The cells a new packet may take, and the one behind it, are blank. */
  predicate Room(g: Geometry, mem: seq<byte>, at: nat) {
    HeaderFits(g, at) ==> BlankRange(mem, at, at + MAX_PACKET + 1)
  }

  lemma {:induction false} PickBlank(mask: nat, data: Data, i: nat)
    requires i <= 4 && forall j :: i <= j < 4 && Enabled(mask, j) ==> DataWord(data, j) == 0xFFFF
    ensures forall k :: 0 <= k < |Pick(mask, data, i)| ==> Pick(mask, data, i)[k] == BLANK
    decreases 4 - i
  {
    if i < 4 {
      PickBlank(mask, data, i + 1);
    }
  }

  lemma NewPacketFacts(section: nat, mask: nat, data: Data)
    requires section < 128 && mask < NO_WORDS
    ensures var p := NewPacket(section, mask, data);
            Wf(p) && Size(p) <= MAX_PACKET && |Encode(p)| == Size(p) == HeaderSize(p) + |p.bytes|
    ensures Header(NewPacket(section, mask, data)) == Header(BlankPacket(section, mask))
  {
    EncodeSize(NewPacket(section, mask, data));
  }

  /** Writing blank bytes into blank cells changes nothing. */
  lemma SpliceBlanks(was: seq<byte>, at: nat, r: seq<byte>, blanks: seq<byte>)
    requires at + |r| + |blanks| <= |was| && BlankRange(was, at + |r|, at + |r| + |blanks|)
    requires forall k :: 0 <= k < |blanks| ==> blanks[k] == BLANK
    ensures Splice(was, at, r + blanks) == Splice(was, at, r)
  {
  }

  /** A packet whose data do not fit is a packet with blank data. */
  lemma ProgramIsPacket(g: Geometry, mem: seq<byte>, at: nat, section: nat, mask: nat, data: Data) returns (p: Packet)
    requires Sane(g) && Covers(g, mem) && section < 128 && mask < NO_WORDS && HeaderFits(g, at) && Room(g, mem, at)
    ensures p == if DataFits(g, at, section) then NewPacket(section, mask, data) else BlankPacket(section, mask)
    ensures Wf(p) && Size(p) <= MAX_PACKET && |Encode(p)| == Size(p) && at + MAX_PACKET < g.content
    ensures Program(g, mem, at, section, mask, data) == Splice(mem, at, Encode(p))
    ensures OnlyBlankWritten(Program(g, mem, at, section, mask, data), mem)
  {
    p := if DataFits(g, at, section) then NewPacket(section, mask, data) else BlankPacket(section, mask);
    NewPacketFacts(section, mask, data);
    NewPacketFacts(section, mask, BLANK_DATA);
    if !DataFits(g, at, section) {
      AllBlank(mask);
      SpliceBlanks(mem, at, Header(p), p.bytes);
    }
    SpliceOnBlank(Splice(mem, at, Encode(p)), mem, at, Encode(p));
  }

  lemma AllBlank(mask: nat)
    ensures forall k :: 0 <= k < |Pick(mask, BLANK_DATA, 0)| ==> Pick(mask, BLANK_DATA, 0)[k] == BLANK
  {
    forall j | 0 <= j < 4 && Enabled(mask, j) ensures DataWord(BLANK_DATA, j) == 0xFFFF {
      BlankWord(j);
    }
    PickBlank(mask, BLANK_DATA, 0);
  }

  /** At the end of the log the packet is appended. */
  lemma ProgramAtEnd(g: Geometry, mem: seq<byte>, log: seq<Packet>, section: nat, mask: nat, data: Data)
    requires Sane(g) && WfLog(log) && Holds(g, mem, 0, log) && Covers(g, mem)
    requires section < 128 && mask < NO_WORDS && Room(g, mem, TotalSize(log))
    ensures WfLog(Append(g, log, section, mask, data))
    ensures Holds(g, Program(g, mem, TotalSize(log), section, mask, data), 0, Append(g, log, section, mask, data))
  {
    var end := TotalSize(log);
    if HeaderFits(g, end) {
      var p := ProgramIsPacket(g, mem, end, section, mask, data);
      var mem1 := Splice(mem, end, Encode(p));
      SpliceSame(mem1, mem, end, Encode(p));
      AtIsEncoding(mem1, end, p);
      HoldsAppended(g, mem1, mem, log, end, p);
    }
  }

  /** Behind the end it does not show: the log ends at the blank cell in front of it. */
  lemma ProgramBehind(g: Geometry, mem: seq<byte>, log: seq<Packet>, at: nat, section: nat, mask: nat, data: Data)
    requires Sane(g) && WfLog(log) && Holds(g, mem, 0, log) && Covers(g, mem)
    requires section < 128 && mask < NO_WORDS && Room(g, mem, at) && TotalSize(log) < at
    ensures Holds(g, Program(g, mem, at, section, mask, data), 0, log)
  {
    if HeaderFits(g, at) {
      var p := ProgramIsPacket(g, mem, at, section, mask, data);
      SpliceSame(Splice(mem, at, Encode(p)), mem, at, Encode(p));
      HoldsSameFront(g, Splice(mem, at, Encode(p)), mem, log);
    }
  }

  // ---------------------------------------------------------------------
  // A new packet inside the log.

  lemma HeaderNotBlank(mem: seq<byte>, a: nat, p: Packet)
    requires Wf(p) && At(mem, a, p)
    ensures mem[a] != BLANK && (p.extended ==> mem[a + 1] != BLANK)
  {
    HeaderAt(mem, a, p);
  }

  /** So many blank cells in a row, begun inside the log, can only begin in the data of its last packet. */
  lemma {:induction false} BlankRunIsInLast(g: Geometry, mem: seq<byte>, a: nat, log: seq<Packet>, at: nat)
    requires WfLog(log) && Holds(g, mem, a, log) && a <= at < a + TotalSize(log)
    requires BlankRange(mem, at, at + MAX_PACKET + 1)
    ensures log != [] && a + TotalSize(log[..|log| - 1]) + HeaderSize(log[|log| - 1]) <= at
    decreases |log|
  {
    HoldsHead(g, mem, a, log);
    var next := a + Size(log[0]);
    HeaderNotBlank(mem, a, log[0]);
    if |log| == 1 {
      assert log[..0] == [];
    } else {
      HoldsHead(g, mem, next, log[1..]);
      HeaderNotBlank(mem, next, log[1..][0]);
      BlankRunIsInLast(g, mem, next, log[1..], at);
      var n := |log| - 1;
      assert log[..n][0] == log[0] && log[..n][1..] == log[1..][..n - 1];
    }
  }

  /** The last packet of a log with `h` written over its data at `off`. */
  ghost function Overlaid(log: seq<Packet>, off: nat, h: seq<byte>): (p: Packet)
    requires log != [] && off + |h| <= |log[|log| - 1].bytes|
  {
    var m := log[|log| - 1];
    m.(bytes := Splice(m.bytes, off, h))
  }

  lemma SpliceInside(mem: seq<byte>, lo: nat, hi: nat, at: nat, h: seq<byte>)
    requires lo <= at && at + |h| <= hi <= |mem|
    ensures Splice(mem, at, h)[lo..hi] == Splice(mem[lo..hi], at - lo, h)
  {
  }

  /** Cells that differ only in the data of the last packet hold the log with that packet changed. */
  lemma OverlayHolds(g: Geometry, mem: seq<byte>, log: seq<Packet>, at: nat, off: nat, h: seq<byte>)
    requires WfLog(log) && Holds(g, mem, 0, log) && log != [] && off + |h| <= |log[|log| - 1].bytes|
    requires at == TotalSize(log[..|log| - 1]) + HeaderSize(log[|log| - 1]) + off
    ensures at + |h| <= TotalSize(log) <= |mem|
    ensures var front := log[|log| - 1 := Overlaid(log, off, h)];
            && WfLog(front) && Holds(g, Splice(mem, at, h), 0, front) && TotalSize(front) == TotalSize(log)
  {
    var n := |log| - 1;
    var q, start := Overlaid(log, off, h), TotalSize(log[..n]);
    HoldsAt(g, mem, log, n);
    LastEnds(log);
    var mem1 := Splice(mem, at, h);
    OverlayAt(mem, start, log[n], at, off, h, q, mem1);
    HoldsReplaced(g, mem1, mem, log, n, start, q);
    ReplacedSize(log, n, q);
  }

  lemma OverlayAt(mem: seq<byte>, start: nat, m: Packet, at: nat, off: nat, h: seq<byte>, q: Packet, mem1: seq<byte>)
    requires Wf(m) && At(mem, start, m) && off + |h| <= |m.bytes| && at == start + HeaderSize(m) + off
    requires q == m.(bytes := Splice(m.bytes, off, h)) && mem1 == Splice(mem, at, h)
    ensures Wf(q) && Size(q) == Size(m) && At(mem1, start, q)
    ensures Same(mem1, mem, 0, start) && Same(mem1, mem, start + Size(m), |mem1|)
  {
    OverlayData(mem, start + HeaderSize(m), start + Size(m), at, h, m.bytes, mem1);
    SpliceKeeps(mem, at, h, start, start + Size(m), mem1);
    AtWithNewData(mem1, mem, start, m, q);
  }

  lemma OverlayData(mem: seq<byte>, lo: nat, hi: nat, at: nat, h: seq<byte>, bytes: seq<byte>, mem1: seq<byte>)
    requires lo <= at && at + |h| <= hi <= |mem| && mem[lo..hi] == bytes && mem1 == Splice(mem, at, h)
    ensures mem1[lo..hi] == Splice(bytes, at - lo, h)
  {
    SpliceInside(mem, lo, hi, at, h);
  }

  lemma AtWithNewData(mem1: seq<byte>, mem: seq<byte>, start: nat, m: Packet, q: Packet)
    requires Wf(m) && At(mem, start, m) && Wf(q) && q == m.(bytes := q.bytes) && |mem1| == |mem|
    requires mem1[start] == mem[start] && (m.extended ==> mem1[start + 1] == mem[start + 1])
    requires mem1[start + HeaderSize(m)..start + Size(m)] == q.bytes
    ensures At(mem1, start, q)
  {
  }

  /** Cells in front of and behind what is written keep their contents. */
  lemma SpliceKeeps(mem: seq<byte>, at: nat, h: seq<byte>, lo: nat, hi: nat, mem1: seq<byte>)
    requires lo < at && at + |h| <= hi <= |mem| && mem1 == Splice(mem, at, h)
    ensures |mem1| == |mem| && Same(mem1, mem, 0, lo) && Same(mem1, mem, hi, |mem1|)
    ensures mem1[lo] == mem[lo] && (lo + 1 < at ==> mem1[lo + 1] == mem[lo + 1])
  {
    SpliceSame(mem1, mem, at, h);
  }

  lemma LastEnds(log: seq<Packet>)
    requires log != []
    ensures TotalSize(log) == TotalSize(log[..|log| - 1]) + Size(log[|log| - 1])
  {
    NextBoundary(log, |log| - 1);
    assert log[..|log|] == log;
  }

  /** What the second header byte and the data of a packet look like when read as a packet of their own. */
  function Garbled(p: Packet): (q: Packet) {
    Packet(p.section / 8, p.mask, p.bytes, false)
  }

  /** A packet whose first header byte falls on the last cell of the log: the rest of it is read as another packet. */
  lemma StraddleHolds(g: Geometry, mem: seq<byte>, log: seq<Packet>, at: nat, off: nat, p: Packet)
    requires WfLog(log) && Holds(g, mem, 0, log) && log != [] && off + 1 == |log[|log| - 1].bytes|
    requires Wf(p) && p.extended && Size(p) <= MAX_PACKET && |Encode(p)| == Size(p)
    requires at + 1 == TotalSize(log) && at + 1 + MAX_PACKET <= g.content
    requires BlankRange(mem, at + 1, at + 1 + MAX_PACKET)
    ensures Covers(g, mem)
    ensures var front := log[|log| - 1 := Overlaid(log, off, [FirstByte(p)])];
            WfLog(front + [Garbled(p)]) && Holds(g, Splice(mem, at, Encode(p)), 0, front + [Garbled(p)])
  {
    var h, q := [FirstByte(p)], Garbled(p);
    HoldsEnd(g, mem, 0, log);
    LastEnds(log);
    OverlayHolds(g, mem, log, at, off, h);
    var front := log[|log| - 1 := Overlaid(log, off, h)];
    GarbledEncodes(p);
    StraddleCells(mem, at, h, Encode(q));
    StraddleAppends(g, Splice(mem, at, h), front, at + 1, q, Splice(mem, at, Encode(p)));
  }

  lemma StraddleAppends(g: Geometry, mem1: seq<byte>, front: seq<Packet>, end: nat, q: Packet, mem2: seq<byte>)
    requires WfLog(front) && Wf(q) && Holds(g, mem1, 0, front) && end == TotalSize(front) && |Encode(q)| == Size(q)
    requires Covers(g, mem2) && Same(mem2, mem1, 0, end) && end + Size(q) < g.content
    requires mem2[end..end + Size(q)] == Encode(q) && mem2[end + Size(q)] == BLANK
    ensures WfLog(front + [q]) && Holds(g, mem2, 0, front + [q])
  {
    AtIsEncoding(mem2, end, q);
    HoldsAppended(g, mem2, mem1, front, end, q);
  }

  lemma GarbledEncodes(p: Packet)
    requires Wf(p) && p.extended
    ensures Wf(Garbled(p)) && [FirstByte(p)] + Encode(Garbled(p)) == Encode(p)
    ensures |Encode(Garbled(p))| == Size(Garbled(p)) == Size(p) - 1
  {
    EncodeSize(Garbled(p));
    EncodeSize(p);
    assert [FirstByte(p)] + ([SecondByte(p)] + p.bytes) == [FirstByte(p), SecondByte(p)] + p.bytes;
  }

  lemma StraddleCells(mem: seq<byte>, at: nat, first: seq<byte>, tail: seq<byte>)
    requires |first| == 1 && at + 1 + |tail| < |mem| && |tail| < MAX_PACKET
    requires BlankRange(mem, at + 1, at + 1 + MAX_PACKET)
    ensures var mem1, mem2 := Splice(mem, at, first), Splice(mem, at, first + tail);
            && Same(mem2, mem1, 0, at + 1) && mem2[at + 1..at + 1 + |tail|] == tail && mem2[at + 1 + |tail|] == BLANK
  {
    var mem1, end := Splice(mem, at, first), at + 1;
    SpliceTwice(mem, at, first, end, tail);
    SpliceSame(Splice(mem1, end, tail), mem1, end, tail);
  }

  ghost function Last(log: seq<Packet>): (p: Packet)
    requires log != []
  {
    log[|log| - 1]
  }

  /** Packet `p` is about to be written over the data of the last packet of the log, from its byte `off` on. */
  ghost predicate Inside(g: Geometry, mem: seq<byte>, log: seq<Packet>, at: nat, off: nat, p: Packet) {
    && WfLog(log) && log != [] && Holds(g, mem, 0, log)
    && off < |Last(log).bytes| && Last(log).bytes[off] == BLANK
    && at == TotalSize(log[..|log| - 1]) + HeaderSize(Last(log)) + off
    && TotalSize(log) == at + |Last(log).bytes| - off
    && BlankRange(mem, at, at + MAX_PACKET + 1) && at + MAX_PACKET < g.content <= |mem|
    && Wf(p) && Size(p) <= MAX_PACKET && |Encode(p)| == Size(p)
  }

  /** With the whole header inside and blank data, only the last packet changes. */
  lemma WholeHeaderHolds(g: Geometry, mem: seq<byte>, log: seq<Packet>, at: nat, off: nat, p: Packet)
    requires Inside(g, mem, log, at, off, p) && Empty(p) && off + HeaderSize(p) <= |Last(log).bytes|
    ensures WfLog(log[|log| - 1 := Overlaid(log, off, Header(p))])
    ensures Holds(g, Splice(mem, at, Encode(p)), 0, log[|log| - 1 := Overlaid(log, off, Header(p))])
  {
    SpliceBlanks(mem, at, Header(p), p.bytes);
    OverlayHolds(g, mem, log, at, off, Header(p));
  }

  /** With the header astride the end of the log, the rest of the packet is read as another one. */
  lemma SplitHeaderHolds(g: Geometry, mem: seq<byte>, log: seq<Packet>, at: nat, off: nat, p: Packet)
    requires Inside(g, mem, log, at, off, p) && off + HeaderSize(p) > |Last(log).bytes|
    ensures p.extended && off == |Last(log).bytes| - 1
    ensures WfLog(log[|log| - 1 := Overlaid(log, off, [FirstByte(p)])] + [Garbled(p)])
    ensures Holds(g, Splice(mem, at, Encode(p)), 0, log[|log| - 1 := Overlaid(log, off, [FirstByte(p)])] + [Garbled(p)])
  {
    StraddleHolds(g, mem, log, at, off, p);
  }

  /** So many blank cells in a row, begun inside the log, leave only one place for a new packet. */
  lemma InsideOf(g: Geometry, mem: seq<byte>, log: seq<Packet>, at: nat, p: Packet) returns (off: nat)
    requires WfLog(log) && Holds(g, mem, 0, log) && at < TotalSize(log)
    requires BlankRange(mem, at, at + MAX_PACKET + 1) && at + MAX_PACKET < g.content <= |mem|
    requires Wf(p) && Size(p) <= MAX_PACKET && |Encode(p)| == Size(p)
    ensures Inside(g, mem, log, at, off, p)
  {
    BlankRunIsInLast(g, mem, 0, log, at);
    LastEnds(log);
    var n := |log| - 1;
    var start := TotalSize(log[..n]);
    HoldsAt(g, mem, log, n);
    off := at - start - HeaderSize(log[n]);
    CellsAt(mem, start, log[n]);
    assert mem[start + HeaderSize(log[n]) + off] == log[n].bytes[off];
  }
}
