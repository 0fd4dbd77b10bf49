/** The table-driven CRC-32 of core/rtw_security.c against the shift register that defines it.

    A machine word is modelled by its bits, lowest first.
  */
module Crc32 {
  import opened Buffers

  type Word = w: seq<bool> | |w| == 32 witness seq(32, _ => false)

  /** CRC32_POLY, 0x04c11db7. */
  const CRC32_POLY: Word := [
    true, true, true, false, true, true, false, true,       // b7
    true, false, true, true, true, false, false, false,     // 1d
    true, false, false, false, false, false, true, true,    // c1
    false, false, true, false, false, false, false, false]  // 04

  // ---------------------------------------------------------------------------------------
  // Bits
  // ---------------------------------------------------------------------------------------

  function Xor(a: seq<bool>, b: seq<bool>): (r: seq<bool>)
    requires |a| == |b|
    ensures |r| == |a| && forall i :: 0 <= i < |a| ==> r[i] == (a[i] != b[i])
  {
    seq(|a|, i requires 0 <= i < |a| => a[i] != b[i])
  }

  function Reverse(a: seq<bool>): (r: seq<bool>)
    ensures |r| == |a| && forall i :: 0 <= i < |a| ==> r[i] == a[|a| - 1 - i]
  {
    seq(|a|, i requires 0 <= i < |a| => a[|a| - 1 - i])
  }

  function Zeros(n: nat): (r: seq<bool>)
    ensures |r| == n && forall i :: 0 <= i < n ==> !r[i]
  {
    seq(n, _ => false)
  }

  /** The n lowest bits of v. */
  function BitsOf(v: nat, n: nat): (r: seq<bool>)
    ensures |r| == n
  {
    if n == 0 then [] else [v % 2 == 1] + BitsOf(v / 2, n - 1)
  }

  function ValueOf(bits: seq<bool>): (v: nat)
    ensures v < Pow2(|bits|)
  {
    if bits == [] then 0 else (if bits[0] then 1 else 0) + 2 * ValueOf(bits[1..])
  }

  function Octet(b: byte): (r: seq<bool>)
    ensures |r| == 8
  {
    BitsOf(b, 8)
  }

  // ---------------------------------------------------------------------------------------
  // The defining shift register: section 8.2.4.8 of IEEE Std 802.11-2012
  // ---------------------------------------------------------------------------------------

  /** Shift up; a one that drops out at the top is fed back through the polynomial. */
  function Shift(c: Word): Word {
    Xor([false] + c[..31], if c[31] then CRC32_POLY else Zeros(32))
  }

  /** Shift in one message bit at the top. */
  function Clock(c: Word, bit: bool): Word {
    Shift(c[31 := c[31] != bit])
  }

  function Fold(clock: (Word, bool) -> Word, c: Word, bits: seq<bool>): Word
    decreases |bits|
  {
    if bits == [] then c else Fold(clock, clock(c, bits[0]), bits[1..])
  }

  /** Shift in bits, in order. */
  function Clocks(c: Word, bits: seq<bool>): Word {
    Fold(Clock, c, bits)
  }

  /** The register after a message, octets in order, each lowest bit first. */
  function Register(c: Word, message: seq<byte>): Word
    decreases |message|
  {
    if message == [] then c else Register(Clocks(c, Octet(message[0])), message[1..])
  }

  function Ones(): Word {
    seq(32, _ => true)
  }

  /** The checksum: preload ones, complement, and send the top bit of the register first. */
  function Checksum(message: seq<byte>): Word {
    Xor(Reverse(Register(Ones(), message)), Ones())
  }

  // ---------------------------------------------------------------------------------------
  // The driver's table
  // ---------------------------------------------------------------------------------------

  function Iterate(f: Word -> Word, c: Word, n: nat): Word
    decreases n
  {
    if n == 0 then c else Iterate(f, f(c), n - 1)
  }

  /** What crc32_init stores at index i: the reversed index in the top byte, eight shifts, and the
      whole word reversed. */
  function TableEntry(i: byte): Word {
    Reverse(Iterate(Shift, Zeros(24) + Reverse(Octet(i)), |Octet(i)|))
  }

  /** One octet through a table, as in getcrc32. */
  function StepBy(entry: byte -> Word, crc: Word, b: byte): Word {
    Xor(entry(IndexFor(crc, b)), crc[8..] + Zeros(8))
  }

  function TableStep(crc: Word, b: byte): Word {
    StepBy(TableEntry, crc, b)
  }

  function OctetValue(bits: seq<bool>): byte
    requires |bits| == 8
  {
    assert Pow2(8) == 2 * (2 * (2 * (2 * Pow2(4)))) == 256;
    ValueOf(bits)
  }

  /** (crc ^ b) & 0xff */
  function IndexFor(crc: Word, b: byte): byte {
    OctetValue(Xor(crc[..8], Octet(b)))
  }

  lemma {:induction false} BitsOfValue(bits: seq<bool>)
    ensures BitsOf(ValueOf(bits), |bits|) == bits
  {
    if bits != [] {
      BitsOfValue(bits[1..]);
    }
  }

  // ---------------------------------------------------------------------------------------
  // The same register seen from the other end
  // ---------------------------------------------------------------------------------------

  function Feedback(bit: bool): Word {
    if bit then Reverse(CRC32_POLY) else Zeros(32)
  }

  function ShiftDown(r: Word): Word {
    Xor(r[1..] + [false], Feedback(r[0]))
  }

  lemma ReverseShift(c: Word)
    ensures Reverse(Shift(c)) == ShiftDown(Reverse(c))
  {
    var fed := if c[31] then CRC32_POLY else Zeros(32);
    assert Reverse([false] + c[..31]) == Reverse(c)[1..] + [false];
    assert Reverse(Xor([false] + c[..31], fed)) == Xor(Reverse([false] + c[..31]), Reverse(fed));
    assert Reverse(fed) == Feedback(c[31]);
  }

  function Xor32(a: Word, b: Word): Word {
    Xor(a, b)
  }

  function Reverse32(a: Word): Word {
    Reverse(a)
  }

  lemma ShiftDownXor(a: Word, b: Word)
    ensures ShiftDown(Xor32(a, b)) == Xor32(ShiftDown(a), ShiftDown(b))
  {
    assert Feedback(a[0] != b[0]) == Xor(Feedback(a[0]), Feedback(b[0]));
  }

  ghost predicate Linear(f: Word -> Word, x: (Word, Word) -> Word) {
    forall a, b :: f(x(a, b)) == x(f(a), f(b))
  }

  lemma {:induction false} IterateLinear(f: Word -> Word, x: (Word, Word) -> Word, a: Word, b: Word, n: nat)
    requires Linear(f, x)
    ensures Iterate(f, x(a, b), n) == x(Iterate(f, a, n), Iterate(f, b, n))
    decreases n
  {
    if n > 0 {
      IterateLinear(f, x, f(a), f(b), n - 1);
    }
  }

  ghost predicate Conjugate(f: Word -> Word, g: Word -> Word, h: Word -> Word) {
    forall c :: h(f(c)) == g(h(c))
  }

  lemma {:induction false} IterateConjugate(f: Word -> Word, g: Word -> Word, h: Word -> Word, c: Word, n: nat)
    requires Conjugate(f, g, h)
    ensures h(Iterate(f, c, n)) == Iterate(g, h(c), n)
    decreases n
  {
    if n > 0 {
      IterateConjugate(f, g, h, f(c), n - 1);
    }
  }

  lemma ShiftFacts()
    ensures Linear(ShiftDown, Xor32) && Conjugate(Shift, ShiftDown, Reverse32)
  {
    forall a, b
      ensures ShiftDown(Xor32(a, b)) == Xor32(ShiftDown(a), ShiftDown(b))
    {
      ShiftDownXor(a, b);
    }
    forall c
      ensures Reverse32(Shift(c)) == ShiftDown(Reverse32(c))
    {
      ReverseShift(c);
    }
  }

  /** An entry of the table is eight shifts of its index. */
  lemma TableEntryIsEightShifts(i: byte)
    ensures TableEntry(i) == Iterate(ShiftDown, Octet(i) + Zeros(24), |Octet(i)|)
  {
    var start: Word := Zeros(24) + Reverse(Octet(i));
    ShiftFacts();
    IterateConjugate(Shift, ShiftDown, Reverse32, start, |Octet(i)|);
    ReverseStart(Octet(i));
  }

  lemma ReverseStart(bits: seq<bool>)
    requires |bits| == 8
    ensures Reverse(Zeros(24) + Reverse(bits)) == bits + Zeros(24)
  {
  }

  // ---------------------------------------------------------------------------------------
  // One table step is eight clocks
  // ---------------------------------------------------------------------------------------

  lemma ShiftOutZero(top: seq<bool>, n: nat)
    requires |top| + n == 32 && n > 0
    ensures ShiftDown(Zeros(n) + top) == Zeros(n - 1) + (top + [false])
    ensures (top + [false]) + Zeros(n - 1) == top + Zeros(n)
  {
  }

  /** n zeros at the bottom are shifted out without feedback. */
  lemma {:induction false} ShiftOutZeros(top: seq<bool>, n: nat)
    requires |top| + n == 32
    ensures Iterate(ShiftDown, Zeros(n) + top, n) == top + Zeros(n)
    decreases n
  {
    if n == 0 {
      assert Zeros(n) + top == top + Zeros(n);
    } else {
      ShiftOutZero(top, n);
      ShiftOutZeros(top + [false], n - 1);
      var w: Word := Zeros(n) + top;
      assert Iterate(ShiftDown, w, n) == Iterate(ShiftDown, ShiftDown(w), n - 1);
    }
  }

  lemma SplitWord(crc: Word, octet: seq<bool>)
    requires |octet| == 8
    ensures Xor32(Xor(crc[..8], octet) + Zeros(24), Zeros(8) + crc[8..]) == Xor32(crc, octet + Zeros(24))
  {
  }

  /** A table step shifts the register, with the octet added at its bottom, eight times. */
  lemma TableStepShifts(crc: Word, b: byte)
    ensures TableStep(crc, b) == Iterate(ShiftDown, Xor32(crc, Octet(b) + Zeros(24)), |Octet(b)|)
  {
    var low := Xor(crc[..8], Octet(b));
    var bottom: Word, top: Word := low + Zeros(24), Zeros(8) + crc[8..];
    var n := |Octet(b)|;
    assert TableEntry(IndexFor(crc, b)) == Iterate(ShiftDown, bottom, n) by {
      BitsOfValue(low);
      TableEntryIsEightShifts(IndexFor(crc, b));
    }
    assert Iterate(ShiftDown, top, n) == crc[8..] + Zeros(8) by { ShiftOutZeros(crc[8..], n); }
    assert Linear(ShiftDown, Xor32) by { ShiftFacts(); }
    IterateLinear(ShiftDown, Xor32, bottom, top, n);
    SplitWord(crc, Octet(b));
  }

  lemma FlipTop(c: Word, bit: bool)
    ensures Reverse(c[31 := c[31] != bit]) == Xor32(Reverse(c), [bit] + Zeros(31))
  {
  }

  lemma ReverseClock(c: Word, bit: bool)
    ensures Reverse(Clock(c, bit)) == ShiftDown(Xor32(Reverse(c), [bit] + Zeros(31)))
  {
    var flipped: Word := c[31 := c[31] != bit];
    FlipTop(c, bit);
    ReverseShift(flipped);
  }

  /** r with up to 32 bits added at its bottom. */
  function Fed(r: Word, bits: seq<bool>): Word {
    if |bits| <= 32 then Xor(r, bits + Zeros(32 - |bits|)) else r
  }

  /** `fed` may be moved past one clock. */
  ghost predicate Absorbs(clock: (Word, bool) -> Word, down: Word -> Word, fed: (Word, seq<bool>) -> Word,
                          h: Word -> Word) {
    && (forall r :: fed(r, []) == r)
    && (forall c, bits: seq<bool> :: 0 < |bits| <= 32 ==> down(fed(h(c), bits)) == fed(h(clock(c, bits[0])), bits[1..]))
  }

  lemma {:induction false} FoldAbsorbs(clock: (Word, bool) -> Word, down: Word -> Word,
                                       fed: (Word, seq<bool>) -> Word, h: Word -> Word, c: Word, bits: seq<bool>)
    requires Absorbs(clock, down, fed, h) && |bits| <= 32
    ensures h(Fold(clock, c, bits)) == Iterate(down, fed(h(c), bits), |bits|)
    decreases |bits|
  {
    if bits != [] {
      FoldAbsorbs(clock, down, fed, h, clock(c, bits[0]), bits[1..]);
    }
  }

  /** The first of the bits at the bottom of a word, and the others in their places. */
  function First(bits: seq<bool>): Word
    requires 0 < |bits| <= 32
  {
    [bits[0]] + Zeros(31)
  }

  function Others(bits: seq<bool>): Word
    requires 0 < |bits| <= 32
  {
    [false] + bits[1..] + Zeros(32 - |bits|)
  }

  lemma FedSplit(r: Word, bits: seq<bool>)
    requires 0 < |bits| <= 32
    ensures Fed(r, bits) == Xor32(Xor32(r, First(bits)), Others(bits))
  {
  }

  lemma FedLater(r: Word, bits: seq<bool>)
    requires 0 < |bits| <= 32
    ensures Fed(r, bits[1..]) == Xor32(r, ShiftDown(Others(bits)))
  {
    assert ShiftDown(Others(bits)) == bits[1..] + Zeros(33 - |bits|);
  }

  lemma Combined(f: Word -> Word, x: (Word, Word) -> Word, fed: Word, a: Word, b: Word, clocked: Word)
    requires fed == x(a, b) && clocked == f(a) && f(x(a, b)) == x(f(a), f(b))
    ensures f(fed) == x(clocked, f(b))
  {
  }

  lemma ClockedBits(c: Word, bits: seq<bool>)
    requires 0 < |bits| <= 32
    ensures ShiftDown(Fed(Reverse32(c), bits)) == Fed(Reverse32(Clock(c, bits[0])), bits[1..])
  {
    var r, clocked := Reverse32(c), Reverse32(Clock(c, bits[0]));
    var a := Xor32(r, First(bits));
    FedSplit(r, bits);
    FedLater(clocked, bits);
    ReverseClock(c, bits[0]);
    ShiftDownXor(a, Others(bits));
    Combined(ShiftDown, Xor32, Fed(r, bits), a, Others(bits), clocked);
  }

  lemma FedAbsorbs()
    ensures Absorbs(Clock, ShiftDown, Fed, Reverse32)
  {
    forall r
      ensures Fed(r, []) == r
    {
      NothingFed(r);
    }
    forall c, bits: seq<bool> | 0 < |bits| <= 32
      ensures ShiftDown(Fed(Reverse32(c), bits)) == Fed(Reverse32(Clock(c, bits[0])), bits[1..])
    {
      ClockedBits(c, bits);
    }
  }

  /** Clocking bits in one at a time equals adding them all at once and then shifting. */
  lemma ReverseClocks(c: Word, bits: seq<bool>)
    requires |bits| <= 32
    ensures Reverse32(Clocks(c, bits)) == Iterate(ShiftDown, Fed(Reverse32(c), bits), |bits|)
  {
    FedAbsorbs();
    FoldAbsorbs(Clock, ShiftDown, Fed, Reverse32, c, bits);
  }

  lemma NothingFed(r: Word)
    ensures Fed(r, []) == r
  {
  }

  /** One octet through the table is the same octet clocked through the register bit by bit. */
  lemma TableStepIsEightClocks(c: Word, b: byte)
    ensures TableStep(Reverse(c), b) == Reverse(Clocks(c, Octet(b)))
  {
    TableStepShifts(Reverse(c), b);
    ReverseClocks(c, Octet(b));
  }

  function RunBy(entry: byte -> Word, crc: Word, message: seq<byte>): Word
    decreases |message|
  {
    if message == [] then crc else RunBy(entry, StepBy(entry, crc, message[0]), message[1..])
  }

  function TableRun(crc: Word, message: seq<byte>): Word {
    RunBy(TableEntry, crc, message)
  }

  lemma {:induction false} TableRunIsRegister(c: Word, message: seq<byte>)
    ensures TableRun(Reverse(c), message) == Reverse(Register(c, message))
    decreases |message|
  {
    if message != [] {
      TableStepIsEightClocks(c, message[0]);
      TableRunIsRegister(Clocks(c, Octet(message[0])), message[1..]);
    }
  }

  /** The inner loop of crc32_init. */
  method FillEntry(i: byte) returns (entry: Word)
    ensures entry == TableEntry(i)
  {
    var k := Reverse(Octet(i));
    var c := Repeat(Shift, Zeros(24) + k, |k|);
    entry := Reverse(c);
  }

  method Repeat(f: Word -> Word, start: Word, n: nat) returns (c: Word)
    ensures c == Iterate(f, start, n)
  {
    c := start;
    var j := n;
    while j > 0
      invariant 0 <= j <= n && Iterate(f, c, j) == Iterate(f, start, n)
    {
      c := f(c);
      j := j - 1;
    }
  }

  /** The first n values of e. */
  function Tabulated(e: byte -> Word, n: nat): (t: seq<Word>)
    requires n <= 256
    ensures |t| == n
  {
    if n == 0 then [] else Tabulated(e, n - 1) + [e(n - 1)]
  }

  lemma {:induction false} TabulatedAt(e: byte -> Word, n: nat, i: byte)
    requires i < n <= 256
    ensures Tabulated(e, n)[i] == e(i)
  {
    if i < n - 1 {
      TabulatedAt(e, n - 1, i);
    }
  }

  method Store(ghost e: byte -> Word, table: array<Word>, i: byte, entry: Word)
    requires table.Length == 256 && table[..i] == Tabulated(e, i) && entry == e(i)
    modifies table
    ensures table[..i + 1] == Tabulated(e, i + 1)
  {
    table[i] := entry;
    assert table[..i + 1] == table[..i] + [entry];
  }

  /** The loop of crc32_init over all indices. */
  method FillTable(table: array<Word>)
    requires table.Length == 256
    modifies table
    ensures IsTable(table[..])
  {
    var i := 0;
    while i < table.Length
      invariant 0 <= i <= table.Length && table[..i] == Tabulated(TableEntry, i)
    {
      FillSlot(table, i);
      i := i + 1;
    }
    TakeAll(table[..], i);
  }

  /** One turn of that loop. */
  method FillSlot(table: array<Word>, i: byte)
    requires table.Length == 256 && table[..i] == Tabulated(TableEntry, i)
    modifies table
    ensures table[..i + 1] == Tabulated(TableEntry, i + 1)
  {
    var entry := FillEntry(i);
    Store(TableEntry, table, i, entry);
  }

  ghost predicate IsTable(t: seq<Word>) {
    |t| == 256 && t == Tabulated(TableEntry, |t|)
  }

  /** One step of getcrc32, with a table of any entries. */
  method Crc32Byte(ghost entry: byte -> Word, table: array<Word>, crc: Word, b: byte) returns (next: Word)
    requires table.Length == 256 && table[..] == Tabulated(entry, |table[..]|)
    ensures next == StepBy(entry, crc, b)
  {
    var i := IndexFor(crc, b);
    TabulatedAt(entry, |table[..]|, i);
    var e := table[i];
    assert e == table[..][i] == entry(i);
    next := Xor(e, crc[8..] + Zeros(8));
  }

  /** Running the message through the table gives the checksum of the shift register. */
  lemma ChecksumByTable(message: seq<byte>)
    ensures Xor(TableRun(Ones(), message), Ones()) == Checksum(message)
  {
    OnesReversed();
    TableRunIsRegister(Ones(), message);
  }

  lemma OnesReversed()
    ensures Reverse(Ones()) == Ones()
  {
  }

  /** The loop of getcrc32, with a table of any entries. */
  method RunTable(ghost entry: byte -> Word, table: array<Word>, start: Word, buf: seq<byte>) returns (crc: Word)
    requires table.Length == 256 && table[..] == Tabulated(entry, |table[..]|)
    ensures crc == RunBy(entry, start, buf)
  {
    crc := start;
    assert buf[0..] == buf;
    for p := 0 to |buf|
      invariant RunBy(entry, crc, buf[p..]) == RunBy(entry, start, buf)
    {
      assert buf[p..][0] == buf[p] && buf[p..][1..] == buf[p + 1..];
      crc := Crc32Byte(entry, table, crc, buf[p]);
    }
  }

  /** The checksum by a table that is filled is the one the shift register defines. */
  method ChecksumOf(table: array<Word>, buf: seq<byte>) returns (result: Word)
    requires IsTable(table[..])
    ensures result == Checksum(buf)
  {
    var crc := RunTable(TableEntry, table, Ones(), buf);
    ChecksumByTable(buf);
    result := Xor(crc, Ones());
  }

  /** The driver's static table, filled at the first use. */
  class CrcTable {
    const table: array<Word>
    var initialized: bool

    ghost predicate Valid()
      reads this, table
    {
      table.Length == 256 && (initialized ==> IsTable(table[..]))
    }

    constructor ()
      ensures Valid() && !initialized && fresh(table)
    {
      table := new Word[256];
      initialized := false;
    }

    /** crc32_init */
    method Crc32Init()
      requires Valid()
      modifies this, table
      ensures Valid() && initialized
    {
      if !initialized {
        FillTable(table);
        initialized := true;
      }
    }

    /** getcrc32: whether or not it is the first call, the checksum the shift register defines. */
    method GetCrc32(buf: seq<byte>) returns (result: Word)
      requires Valid()
      modifies this, table
      ensures Valid() && initialized
      ensures result == Checksum(buf)
    {
      if !initialized {
        Crc32Init();
      }
      result := ChecksumOf(table, buf);
    }
  }

  // ---------------------------------------------------------------------------------------
  // The driver's bit reversal
  // ---------------------------------------------------------------------------------------

  /** crc32_reverseBit */
  function ReverseBit(data: bv8): bv8 {
    ((data << 7) & 0x80) | ((data << 5) & 0x40) | ((data << 3) & 0x20) | ((data << 1) & 0x10)
    | ((data >> 1) & 0x08) | ((data >> 3) & 0x04) | ((data >> 5) & 0x02) | ((data >> 7) & 0x01)
  }

  /** The bits of a machine byte, lowest first. */
  function ByteBits(d: bv8): (r: seq<bool>)
    ensures |r| == 8
  {
    [d & 1 != 0, d & 2 != 0, d & 4 != 0, d & 8 != 0, d & 16 != 0, d & 32 != 0, d & 64 != 0, d & 128 != 0]
  }

  lemma LowBits(d: bv8)
    ensures var e := ReverseBit(d);
            && (e & 1 != 0) == (d & 128 != 0) && (e & 2 != 0) == (d & 64 != 0)
            && (e & 4 != 0) == (d & 32 != 0) && (e & 8 != 0) == (d & 16 != 0)
  {
  }

  lemma HighBits(d: bv8)
    ensures var e := ReverseBit(d);
            && (e & 16 != 0) == (d & 8 != 0) && (e & 32 != 0) == (d & 4 != 0)
            && (e & 64 != 0) == (d & 2 != 0) && (e & 128 != 0) == (d & 1 != 0)
  {
  }

  lemma ReverseOfEight(s: seq<bool>, r: seq<bool>)
    requires |s| == 8 == |r|
    requires r[0] == s[7] && r[1] == s[6] && r[2] == s[5] && r[3] == s[4]
    requires r[4] == s[3] && r[5] == s[2] && r[6] == s[1] && r[7] == s[0]
    ensures r == Reverse(s)
  {
    forall i | 0 <= i < 8
      ensures r[i] == s[7 - i]
    {
    }
  }

  /** The shifts and masks reverse the bits. */
  lemma ReverseBitReverses(d: bv8)
    ensures ByteBits(ReverseBit(d)) == Reverse(ByteBits(d))
  {
    LowBits(d);
    HighBits(d);
    ReverseOfEight(ByteBits(d), ByteBits(ReverseBit(d)));
  }

  function FromBytes(a: seq<bool>, b: seq<bool>, c: seq<bool>, d: seq<bool>): (w: Word)
    requires |a| == |b| == |c| == |d| == 8
  {
    a + b + c + d
  }

  lemma ReverseOfBytes(a: seq<bool>, b: seq<bool>, c: seq<bool>, d: seq<bool>)
    requires |a| == |b| == |c| == |d| == 8
    ensures Reverse(FromBytes(a, b, c, d)) == FromBytes(Reverse(d), Reverse(c), Reverse(b), Reverse(a))
  {
  }

  /** The four assignments at the end of a turn of crc32_init, bytes swapped and reversed, reverse the word. */
  lemma StoredReversed(p0: bv8, p1: bv8, p2: bv8, p3: bv8)
    ensures FromBytes(ByteBits(ReverseBit(p3)), ByteBits(ReverseBit(p2)), ByteBits(ReverseBit(p1)),
            ByteBits(ReverseBit(p0)))
         == Reverse(FromBytes(ByteBits(p0), ByteBits(p1), ByteBits(p2), ByteBits(p3)))
  {
    ReverseBitReverses(p0);
    ReverseBitReverses(p1);
    ReverseBitReverses(p2);
    ReverseBitReverses(p3);
    ReverseOfBytes(ByteBits(p0), ByteBits(p1), ByteBits(p2), ByteBits(p3));
  }
}
