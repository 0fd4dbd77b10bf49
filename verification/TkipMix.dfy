/** TKIP key mixing: phase1 and phase2 of core/rtw_security.c.

    The 16-bit S-box is an arbitrary function S.  For every S and every temporal key the two
    phases together are a bijection between (TA, IV32, IV16) and RC4 key bytes 4 to 15, with an
    explicit inverse.
  */
module TkipMix {
  import opened Buffers
  import opened Bits

  const PHASE1_LOOP_CNT := 8

  type Word = w: int | 0 <= w < 0x1_0000
  type Word32 = w: int | 0 <= w < 0x1_0000_0000

  // ---------------------------------------------------------------------------------------
  // The macros
  // ---------------------------------------------------------------------------------------

  function Mk16(hi: byte, lo: byte): Word {
    var h: int, l: int := hi, lo;
    l + 0x100 * h
  }

  function Lo8(v: Word): byte {
    v % 0x100
  }

  function Hi8(v: Word): byte {
    v / 0x100
  }

  function Lo16(v: Word32): Word {
    v % 0x1_0000
  }

  function Hi16(v: Word32): Word {
    v / 0x1_0000
  }

  function RotR1(v: Word): Word {
    v / 2 + 0x8000 * (v % 2)
  }

  lemma PowersOfTwo()
    ensures Pow2(4) == 16 && Pow2(8) == 256 && Pow2(12) == 4096 && Pow2(16) == 0x1_0000
  {
    assert Pow2(4) == 2 * (2 * (2 * (2 * Pow2(0))));
    assert Pow2(8) == 2 * (2 * (2 * (2 * Pow2(4))));
    assert Pow2(12) == 2 * (2 * (2 * (2 * Pow2(8))));
    assert Pow2(16) == 2 * (2 * (2 * (2 * Pow2(12))));
  }

  function Xor16(a: Word, b: Word): Word {
    assert Pow2(16) == 0x1_0000 by { PowersOfTwo(); }
    XorBits(a, b, 16)
  }

  /** Keeps the second key byte away from weak RC4 keys: bit 5 set, bit 7 cleared. */
  function WeakKeyGuard(b: byte): byte {
    b % 32 + 32 + b / 64 % 2 * 64
  }

  type TemporalKey = tk: seq<byte> | |tk| == 16 witness seq(16, _ => 0)

  function TK16(tk: TemporalKey, n: nat): Word {
    if n < 8 then Mk16(tk[2 * n + 1], tk[2 * n]) else 0
  }

  /** Addition and subtraction modulo 2^16. */
  function Add16(a: Word, b: Word): Word {
    var x: int, y: int := a, b;
    if x + y < 0x1_0000 then x + y else x + y - 0x1_0000
  }

  function Sub16(a: Word, b: Word): Word {
    var x: int, y: int := a, b;
    if x >= y then x - y else x - y + 0x1_0000
  }

  /** The word operations the mixing is made of: addition, subtraction, the S-box on a word mixed
      with key word n, the rotation on such a word, and the plain rotation. */
  datatype Ops = Ops(add: (Word, Word) -> Word, sub: (Word, Word) -> Word,
                     box: (Word, nat) -> Word, keyedRot: (Word, nat) -> Word, rot: Word -> Word)

  /** All the inversion needs. */
  ghost predicate Lawful(o: Ops) {
    && (forall a, b :: o.sub(o.add(a, b), b) == a)
    && (forall a, b :: o.add(o.sub(a, b), b) == a)
  }

  /** The operations of the source, for S-box S and temporal key tk. */
  function Words(S: Word -> Word, tk: TemporalKey): Ops {
    Ops(Add16, Sub16, (v: Word, n: nat) => S(Xor16(v, TK16(tk, n))),
        (v: Word, n: nat) => RotR1(Xor16(v, TK16(tk, n))), RotR1)
  }

  lemma AddSub(a: Word, b: Word)
    ensures Sub16(Add16(a, b), b) == a && Add16(Sub16(a, b), b) == a
  {
  }

  lemma WordsLawful(S: Word -> Word, tk: TemporalKey)
    ensures Lawful(Words(S, tk))
  {
    forall a, b
      ensures Sub16(Add16(a, b), b) == a && Add16(Sub16(a, b), b) == a
    {
      AddSub(a, b);
    }
  }

  // ---------------------------------------------------------------------------------------
  // Phase 1
  // ---------------------------------------------------------------------------------------

  datatype P1k = P1k(k0: Word, k1: Word, k2: Word, k3: Word, k4: Word)

  function Phase1Start(ta: seq<byte>, iv32: Word32): P1k
    requires |ta| == 6
  {
    P1k(Lo16(iv32), Hi16(iv32), Mk16(ta[1], ta[0]), Mk16(ta[3], ta[2]), Mk16(ta[5], ta[4]))
  }

  function Round(o: Ops, i: nat, x: P1k): P1k
    requires i < PHASE1_LOOP_CNT
  {
    var odd := i % 2;
    var k0 := o.add(x.k0, o.box(x.k4, odd + 0));
    var k1 := o.add(x.k1, o.box(k0, odd + 2));
    var k2 := o.add(x.k2, o.box(k1, odd + 4));
    var k3 := o.add(x.k3, o.box(k2, odd + 6));
    var k4 := o.add(o.add(x.k4, o.box(k3, odd + 0)), i);
    P1k(k0, k1, k2, k3, k4)
  }

  function Unround(o: Ops, i: nat, y: P1k): P1k
    requires i < PHASE1_LOOP_CNT
  {
    var odd := i % 2;
    var k4 := o.sub(o.sub(y.k4, i), o.box(y.k3, odd + 0));
    P1k(o.sub(y.k0, o.box(k4, odd + 0)), o.sub(y.k1, o.box(y.k0, odd + 2)),
        o.sub(y.k2, o.box(y.k1, odd + 4)), o.sub(y.k3, o.box(y.k2, odd + 6)), k4)
  }

  /** The first n rounds. */
  function Rounds(o: Ops, n: nat, x: P1k): P1k
    requires n <= PHASE1_LOOP_CNT
  {
    if n == 0 then x else Round(o, n - 1, Rounds(o, n - 1, x))
  }

  function Unrounds(o: Ops, n: nat, y: P1k): P1k
    requires n <= PHASE1_LOOP_CNT
  {
    if n == 0 then y else Unrounds(o, n - 1, Unround(o, n - 1, y))
  }

  function InArray(k: seq<Word>): P1k
    requires |k| == 5
  {
    P1k(k[0], k[1], k[2], k[3], k[4])
  }

  /** phase1, in place on p1k. */
  method Phase1(o: Ops, p1k: array<Word>, ta: seq<byte>, iv32: Word32)
    requires p1k.Length == 5 && |ta| == 6
    modifies p1k
    ensures InArray(p1k[..]) == Rounds(o, PHASE1_LOOP_CNT, Phase1Start(ta, iv32))
  {
    p1k[0] := Lo16(iv32);
    p1k[1] := Hi16(iv32);
    p1k[2] := Mk16(ta[1], ta[0]);
    p1k[3] := Mk16(ta[3], ta[2]);
    p1k[4] := Mk16(ta[5], ta[4]);
    for i := 0 to PHASE1_LOOP_CNT
      invariant InArray(p1k[..]) == Rounds(o, i, Phase1Start(ta, iv32))
    {
      Phase1Round(o, p1k, i);
    }
  }

  method Phase1Round(o: Ops, p1k: array<Word>, i: nat)
    requires p1k.Length == 5 && i < PHASE1_LOOP_CNT
    modifies p1k
    ensures InArray(p1k[..]) == Round(o, i, InArray(old(p1k[..])))
  {
    p1k[0] := o.add(p1k[0], o.box(p1k[4], i % 2 + 0));
    p1k[1] := o.add(p1k[1], o.box(p1k[0], i % 2 + 2));
    p1k[2] := o.add(p1k[2], o.box(p1k[1], i % 2 + 4));
    p1k[3] := o.add(p1k[3], o.box(p1k[2], i % 2 + 6));
    p1k[4] := o.add(p1k[4], o.box(p1k[3], i % 2 + 0));
    p1k[4] := o.add(p1k[4], i);
  }

  // ---------------------------------------------------------------------------------------
  // Phase 2
  // ---------------------------------------------------------------------------------------

  datatype Ppk = Ppk(p0: Word, p1: Word, p2: Word, p3: Word, p4: Word, p5: Word)

  function Phase2Start(o: Ops, k: P1k, iv16: Word): Ppk {
    Ppk(k.k0, k.k1, k.k2, k.k3, k.k4, o.add(iv16, k.k4))
  }

  /** The six S-box steps. */
  function Mix(o: Ops, x: Ppk): Ppk {
    var p0 := o.add(x.p0, o.box(x.p5, 0));
    var p1 := o.add(x.p1, o.box(p0, 1));
    var p2 := o.add(x.p2, o.box(p1, 2));
    var p3 := o.add(x.p3, o.box(p2, 3));
    var p4 := o.add(x.p4, o.box(p3, 4));
    Ppk(p0, p1, p2, p3, p4, o.add(x.p5, o.box(p4, 5)))
  }

  function Unmix(o: Ops, y: Ppk): Ppk {
    var p5 := o.sub(y.p5, o.box(y.p4, 5));
    Ppk(o.sub(y.p0, o.box(p5, 0)), o.sub(y.p1, o.box(y.p0, 1)), o.sub(y.p2, o.box(y.p1, 2)),
        o.sub(y.p3, o.box(y.p2, 3)), o.sub(y.p4, o.box(y.p3, 4)), p5)
  }

  /** The final sweep of rotations. */
  function Sweep(o: Ops, x: Ppk): Ppk {
    var p0 := o.add(x.p0, o.keyedRot(x.p5, 6));
    var p1 := o.add(x.p1, o.keyedRot(p0, 7));
    var p2 := o.add(x.p2, o.rot(p1));
    var p3 := o.add(x.p3, o.rot(p2));
    var p4 := o.add(x.p4, o.rot(p3));
    Ppk(p0, p1, p2, p3, p4, o.add(x.p5, o.rot(p4)))
  }

  function Unsweep(o: Ops, y: Ppk): Ppk {
    var p5 := o.sub(y.p5, o.rot(y.p4));
    Ppk(o.sub(y.p0, o.keyedRot(p5, 6)), o.sub(y.p1, o.keyedRot(y.p0, 7)), o.sub(y.p2, o.rot(y.p1)),
        o.sub(y.p3, o.rot(y.p2)), o.sub(y.p4, o.rot(y.p3)), p5)
  }

  /** Key bytes 4 to 15, little-endian. */
  function KeyBytes(p: Ppk): (b: seq<byte>)
    ensures |b| == 12
  {
    [Lo8(p.p0), Hi8(p.p0), Lo8(p.p1), Hi8(p.p1), Lo8(p.p2), Hi8(p.p2),
     Lo8(p.p3), Hi8(p.p3), Lo8(p.p4), Hi8(p.p4), Lo8(p.p5), Hi8(p.p5)]
  }

  function FromKeyBytes(b: seq<byte>): Ppk
    requires |b| == 12
  {
    Ppk(Mk16(b[1], b[0]), Mk16(b[3], b[2]), Mk16(b[5], b[4]), Mk16(b[7], b[6]), Mk16(b[9], b[8]), Mk16(b[11], b[10]))
  }

  /** PPK at the end of phase 2. */
  function FinalPpk(o: Ops, k: P1k, iv16: Word): Ppk {
    Sweep(o, Mix(o, Phase2Start(o, k, iv16)))
  }

  function Rc4Key(tk: TemporalKey, p: Ppk, iv16: Word): (key: seq<byte>)
    ensures |key| == 16
  {
    [Hi8(iv16), WeakKeyGuard(Hi8(iv16)), Lo8(iv16), Lo8(Xor16(p.p5, TK16(tk, 0)) / 2)] + KeyBytes(p)
  }

  function InArray6(k: seq<Word>): Ppk
    requires |k| == 6
  {
    Ppk(k[0], k[1], k[2], k[3], k[4], k[5])
  }

  method MixInPlace(o: Ops, PPK: array<Word>)
    requires PPK.Length == 6
    modifies PPK
    ensures InArray6(PPK[..]) == Mix(o, InArray6(old(PPK[..])))
  {
    PPK[0] := o.add(PPK[0], o.box(PPK[5], 0));
    PPK[1] := o.add(PPK[1], o.box(PPK[0], 1));
    PPK[2] := o.add(PPK[2], o.box(PPK[1], 2));
    PPK[3] := o.add(PPK[3], o.box(PPK[2], 3));
    PPK[4] := o.add(PPK[4], o.box(PPK[3], 4));
    PPK[5] := o.add(PPK[5], o.box(PPK[4], 5));
  }

  method SweepInPlace(o: Ops, PPK: array<Word>)
    requires PPK.Length == 6
    modifies PPK
    ensures InArray6(PPK[..]) == Sweep(o, InArray6(old(PPK[..])))
  {
    PPK[0] := o.add(PPK[0], o.keyedRot(PPK[5], 6));
    PPK[1] := o.add(PPK[1], o.keyedRot(PPK[0], 7));
    PPK[2] := o.add(PPK[2], o.rot(PPK[1]));
    PPK[3] := o.add(PPK[3], o.rot(PPK[2]));
    PPK[4] := o.add(PPK[4], o.rot(PPK[3]));
    PPK[5] := o.add(PPK[5], o.rot(PPK[4]));
  }

  /** phase2: PPK is a scratch array updated in place. */
  method Phase2(o: Ops, tk: TemporalKey, p1k: array<Word>, iv16: Word) returns (rc4key: seq<byte>)
    requires p1k.Length == 5
    ensures rc4key == Rc4Key(tk, FinalPpk(o, InArray(p1k[..]), iv16), iv16)
  {
    var PPK := new Word[6];
    for i := 0 to 5
      invariant forall j :: 0 <= j < i ==> PPK[j] == p1k[j]
    {
      PPK[i] := p1k[i];
    }
    PPK[5] := o.add(iv16, p1k[4]);
    MixInPlace(o, PPK);
    SweepInPlace(o, PPK);
    rc4key := Rc4Key(tk, InArray6(PPK[..]), iv16);
  }

  // ---------------------------------------------------------------------------------------
  // Every step can be undone
  // ---------------------------------------------------------------------------------------

  lemma BytesOfWord(v: Word)
    ensures Mk16(Hi8(v), Lo8(v)) == v
  {
  }

  lemma WordOfBytes(hi: byte, lo: byte)
    ensures Lo8(Mk16(hi, lo)) == lo && Hi8(Mk16(hi, lo)) == hi
  {
  }

  lemma RoundInverse(o: Ops, i: nat, x: P1k)
    requires Lawful(o) && i < PHASE1_LOOP_CNT
    ensures Unround(o, i, Round(o, i, x)) == x && Round(o, i, Unround(o, i, x)) == x
  {
  }

  lemma {:induction false} UnroundsRounds(o: Ops, n: nat, x: P1k)
    requires Lawful(o) && n <= PHASE1_LOOP_CNT
    ensures Unrounds(o, n, Rounds(o, n, x)) == x
    decreases n
  {
    if n > 0 {
      var y := Rounds(o, n - 1, x);
      RoundInverse(o, n - 1, y);
      UnroundsRounds(o, n - 1, x);
    }
  }

  lemma {:induction false} RoundsUnrounds(o: Ops, n: nat, x: P1k)
    requires Lawful(o) && n <= PHASE1_LOOP_CNT
    ensures Rounds(o, n, Unrounds(o, n, x)) == x
    decreases n
  {
    if n > 0 {
      var y := Unround(o, n - 1, x);
      RoundInverse(o, n - 1, x);
      RoundsUnrounds(o, n - 1, y);
    }
  }

  lemma MixInverse(o: Ops, x: Ppk)
    requires Lawful(o)
    ensures Unmix(o, Mix(o, x)) == x && Mix(o, Unmix(o, x)) == x
  {
  }

  lemma SweepInverse(o: Ops, x: Ppk)
    requires Lawful(o)
    ensures Unsweep(o, Sweep(o, x)) == x && Sweep(o, Unsweep(o, x)) == x
  {
  }

  // ---------------------------------------------------------------------------------------
  // The whole mixing
  // ---------------------------------------------------------------------------------------

  /** What must be unique per packet under one key. */
  datatype Packet = Packet(ta: seq<byte>, iv32: Word32, iv16: Word)

  /** The key both phases produce for a packet. */
  function PacketKey(S: Word -> Word, tk: TemporalKey, p: Packet): (key: seq<byte>)
    requires |p.ta| == 6
    ensures |key| == 16
  {
    var o := Words(S, tk);
    Rc4Key(tk, FinalPpk(o, Rounds(o, PHASE1_LOOP_CNT, Phase1Start(p.ta, p.iv32)), p.iv16), p.iv16)
  }

  function StartInverse(k: P1k): (seq<byte>, Word32) {
    ([Lo8(k.k2), Hi8(k.k2), Lo8(k.k3), Hi8(k.k3), Lo8(k.k4), Hi8(k.k4)], JoinIv(k.k0, k.k1))
  }

  function JoinIv(lo: Word, hi: Word): Word32 {
    var l: int, h: int := lo, hi;
    l + 0x1_0000 * h
  }

  /** The packet behind a final PPK. */
  function PacketOf(o: Ops, z: Ppk): (p: Packet)
    ensures |p.ta| == 6
  {
    var y := Unmix(o, Unsweep(o, z));
    var start := StartInverse(Unrounds(o, PHASE1_LOOP_CNT, P1k(y.p0, y.p1, y.p2, y.p3, y.p4)));
    Packet(start.0, start.1, o.sub(y.p5, y.p4))
  }

  lemma SplitIv(v: Word32)
    ensures JoinIv(Lo16(v), Hi16(v)) == v
  {
  }

  lemma JoinedIv(lo: Word, hi: Word)
    ensures Lo16(JoinIv(lo, hi)) == lo && Hi16(JoinIv(lo, hi)) == hi
  {
  }

  lemma StartIsInvertible(ta: seq<byte>, iv32: Word32)
    requires |ta| == 6
    ensures StartInverse(Phase1Start(ta, iv32)) == (ta, iv32)
  {
    WordOfBytes(ta[1], ta[0]);
    WordOfBytes(ta[3], ta[2]);
    WordOfBytes(ta[5], ta[4]);
    SplitIv(iv32);
    assert StartInverse(Phase1Start(ta, iv32)).0 == ta;
  }

  lemma StartReachesAll(k: P1k)
    ensures Phase1Start(StartInverse(k).0, StartInverse(k).1) == k
  {
    BytesOfWord(k.k2);
    BytesOfWord(k.k3);
    BytesOfWord(k.k4);
    JoinedIv(k.k0, k.k1);
  }

  lemma KeyBytesInverse(p: Ppk)
    ensures FromKeyBytes(KeyBytes(p)) == p
  {
    BytesOfWord(p.p0);
    BytesOfWord(p.p1);
    BytesOfWord(p.p2);
    BytesOfWord(p.p3);
    BytesOfWord(p.p4);
    BytesOfWord(p.p5);
  }

  lemma FromKeyBytesInverse(b: seq<byte>)
    requires |b| == 12
    ensures KeyBytes(FromKeyBytes(b)) == b
  {
    WordOfBytes(b[1], b[0]);
    WordOfBytes(b[3], b[2]);
    WordOfBytes(b[5], b[4]);
    WordOfBytes(b[7], b[6]);
    WordOfBytes(b[9], b[8]);
    WordOfBytes(b[11], b[10]);
  }

  lemma PacketOfFinal(o: Ops, p: Packet)
    requires Lawful(o) && |p.ta| == 6
    ensures PacketOf(o, FinalPpk(o, Rounds(o, PHASE1_LOOP_CNT, Phase1Start(p.ta, p.iv32)), p.iv16)) == p
  {
    var start := Phase1Start(p.ta, p.iv32);
    var k := Rounds(o, PHASE1_LOOP_CNT, start);
    var x := Phase2Start(o, k, p.iv16);
    SweepInverse(o, Mix(o, x));
    MixInverse(o, x);
    UnroundsRounds(o, PHASE1_LOOP_CNT, start);
    StartIsInvertible(p.ta, p.iv32);
  }

  lemma FinalOfPacket(o: Ops, z: Ppk)
    requires Lawful(o)
    ensures var p := PacketOf(o, z);
            FinalPpk(o, Rounds(o, PHASE1_LOOP_CNT, Phase1Start(p.ta, p.iv32)), p.iv16) == z
  {
    var y := Unsweep(o, z);
    var x := Unmix(o, y);
    var k := P1k(x.p0, x.p1, x.p2, x.p3, x.p4);
    SweepInverse(o, z);
    MixInverse(o, y);
    RoundsUnrounds(o, PHASE1_LOOP_CNT, k);
    StartReachesAll(Unrounds(o, PHASE1_LOOP_CNT, k));
  }

  /** Under one temporal key, distinct (TA, IV32, IV16) never share RC4 key bytes 4 to 15. */
  lemma MixingIsInjective(S: Word -> Word, tk: TemporalKey, p: Packet, q: Packet)
    requires |p.ta| == 6 && |q.ta| == 6
    ensures PacketKey(S, tk, p)[4..] == PacketKey(S, tk, q)[4..] <==> p == q
  {
    KeyRevealsPacket(S, tk, p);
    KeyRevealsPacket(S, tk, q);
  }

  /** The explicit inverse: address and IV can be read back from the last twelve key bytes. */
  lemma KeyRevealsPacket(S: Word -> Word, tk: TemporalKey, p: Packet)
    requires |p.ta| == 6
    ensures PacketOf(Words(S, tk), FromKeyBytes(PacketKey(S, tk, p)[4..])) == p
  {
    var o := Words(S, tk);
    var z := FinalPpk(o, Rounds(o, PHASE1_LOOP_CNT, Phase1Start(p.ta, p.iv32)), p.iv16);
    WordsLawful(S, tk);
    PacketOfFinal(o, p);
    KeyBytesInverse(z);
    KeyTail(tk, z, p.iv16);
  }

  lemma KeyTail(tk: TemporalKey, z: Ppk, iv16: Word)
    ensures Rc4Key(tk, z, iv16)[4..] == KeyBytes(z)
  {
  }

  /** And every twelve bytes are the tail of the key of some packet: the mixing is a bijection. */
  lemma EveryTailIsReached(S: Word -> Word, tk: TemporalKey, b: seq<byte>)
    requires |b| == 12
    ensures PacketKey(S, tk, PacketOf(Words(S, tk), FromKeyBytes(b)))[4..] == b
  {
    var o := Words(S, tk);
    var p := PacketOf(o, FromKeyBytes(b));
    WordsLawful(S, tk);
    FinalOfPacket(o, FromKeyBytes(b));
    FromKeyBytesInverse(b);
    KeyTail(tk, FromKeyBytes(b), p.iv16);
  }
}
