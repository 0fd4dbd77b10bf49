/** The Michael message integrity code of core/rtw_security.c. */
module Michael {
  import opened Buffers

  // ---------------------------------------------------------------------------------------
  // The block function
  // ---------------------------------------------------------------------------------------

  /** ROL32(a, 17) */
  function Rol17(a: bv32): bv32 {
    (a << 17) | (a >> 15)
  }

  /** ROL32(a, 3) */
  function Rol3(a: bv32): bv32 {
    (a << 3) | (a >> 29)
  }

  /** ROR32(a, 2) */
  function Ror2(a: bv32): bv32 {
    (a >> 2) | (a << 30)
  }

  /** Swap the bytes of each half. */
  function XSwap(a: bv32): bv32 {
    ((a & 0xff00_ff00) >> 8) | ((a & 0x00ff_00ff) << 8)
  }

  function Xor32(a: bv32, b: bv32): bv32 {
    a ^ b
  }

  function Add32(a: bv32, b: bv32): bv32 {
    a + b
  }

  /** Mix L into R, then add R to L. */
  function MixStep(turn: bv32 -> bv32, s: (bv32, bv32)): (bv32, bv32) {
    var r := Xor32(s.1, turn(s.0));
    (Add32(s.0, r), r)
  }

  /** The four mixing steps applied to (L, R) once a word is complete. */
  function Block(l: bv32, r: bv32, m: bv32): (bv32, bv32) {
    MixStep(Ror2, MixStep(Rol3, MixStep(XSwap, MixStep(Rol17, (Xor32(l, m), r)))))
  }

  type BlockFunction = (bv32, bv32, bv32) -> (bv32, bv32)

  // ---------------------------------------------------------------------------------------
  // The accumulator
  // ---------------------------------------------------------------------------------------

  /** L and R, the word being collected and how many bytes of it are there. */
  datatype State = State(l: bv32, r: bv32, m: bv32, n: nat)

  /** Byte b in place n of a word. */
  function Placed(b: bv8, n: nat): bv32 {
    var w := b as bv32;
    if n == 0 then w else if n == 1 then w << 8 else if n == 2 then w << 16 else w << 24
  }

  function Or32(a: bv32, b: bv32): bv32 {
    a | b
  }

  /** rtw_secmicappendbyte on values. */
  function AppendByte(f: BlockFunction, s: State, b: bv8): State
    requires s.n < 4
  {
    var m := Or32(s.m, Placed(b, s.n));
    if s.n == 3 then
      var lr := f(s.l, s.r, m);
      State(lr.0, lr.1, 0, 0)
    else State(s.l, s.r, m, s.n + 1)
  }

  /** The state after a message, from L and R. */
  function After(f: BlockFunction, l: bv32, r: bv32, msg: seq<bv8>): (s: State)
    ensures s.n < 4
  {
    if msg == [] then State(l, r, 0, 0)
    else AppendByte(f, After(f, l, r, msg[..|msg| - 1]), msg[|msg| - 1])
  }

  // ---------------------------------------------------------------------------------------
  // The definition: word by word over the padded message, section 11.4.2.3.3 of IEEE Std 802.11-2012
  // ---------------------------------------------------------------------------------------

  function Words(f: BlockFunction, l: bv32, r: bv32, msg: seq<bv8>): (bv32, bv32)
    decreases |msg|
  {
    if |msg| < 4 then (l, r)
    else
      var lr := f(l, r, WordAt(msg));
      Words(f, lr.0, lr.1, msg[4..])
  }

  function WordAt(msg: seq<bv8>): bv32
    requires |msg| >= 4
  {
    Or32(Or32(Or32(Placed(msg[0], 0), Placed(msg[1], 1)), Placed(msg[2], 2)), Placed(msg[3], 3))
  }

  /** How many zeros follow the 0x5a: four to seven, up to a multiple of four. */
  function ZeroCount(n: nat): (z: nat)
    ensures 4 <= z <= 7 && (n + 1 + z) % 4 == 0
  {
    7 - n % 4
  }

  function Zeros(n: nat): (z: seq<bv8>)
    ensures |z| == n
  {
    if n == 0 then [] else Zeros(n - 1) + [0]
  }

  function PaddedMessage(msg: seq<bv8>): seq<bv8> {
    msg + [0x5a] + Zeros(ZeroCount(|msg|))
  }

  function ByteOf(w: bv32, n: nat): bv8 {
    ((if n == 0 then w else if n == 1 then w >> 8 else if n == 2 then w >> 16 else w >> 24) & 0xff) as bv8
  }

  function LittleEndian(w: bv32): (bs: seq<bv8>)
    ensures |bs| == 4
  {
    [ByteOf(w, 0), ByteOf(w, 1), ByteOf(w, 2), ByteOf(w, 3)]
  }

  function Code(f: BlockFunction, k0: bv32, k1: bv32, msg: seq<bv8>): seq<bv8> {
    var lr := Words(f, k0, k1, PaddedMessage(msg));
    LittleEndian(lr.0) + LittleEndian(lr.1)
  }

  // ---------------------------------------------------------------------------------------
  // Bytes and words agree
  // ---------------------------------------------------------------------------------------

  lemma NothingYet(b: bv32)
    ensures Or32(0, b) == b
  {
  }

  lemma AppendFour(f: BlockFunction, l: bv32, r: bv32, b: seq<bv8>)
    requires |b| == 4
    ensures var s1 := AppendByte(f, State(l, r, 0, 0), b[0]);
            s1.n == 1 &&
            var s2 := AppendByte(f, s1, b[1]);
            s2.n == 2 &&
            var s3 := AppendByte(f, s2, b[2]);
            s3.n == 3 &&
            AppendByte(f, s3, b[3]) == State(f(l, r, WordAt(b)).0, f(l, r, WordAt(b)).1, 0, 0)
  {
    NothingYet(Placed(b[0], 0));
  }

  lemma {:induction false} AfterAppend(f: BlockFunction, l: bv32, r: bv32, a: seq<bv8>, b: seq<bv8>)
    requires |a| % 4 == 0 && After(f, l, r, a).n == 0 && After(f, l, r, a).m == 0
    ensures var s := After(f, l, r, a); After(f, l, r, a + b) == After(f, s.l, s.r, b)
    decreases |b|
  {
    if b == [] {
      assert a + b == a;
    } else {
      assert (a + b)[..|a + b| - 1] == a + b[..|b| - 1];
      AfterAppend(f, l, r, a, b[..|b| - 1]);
    }
  }

  lemma AfterFour(f: BlockFunction, l: bv32, r: bv32, b: seq<bv8>)
    requires |b| == 4
    ensures var lr := f(l, r, WordAt(b)); After(f, l, r, b) == State(lr.0, lr.1, 0, 0)
  {
    var b1, b2, b3 := b[..1], b[..2], b[..3];
    assert b3[..2] == b2 && b2[..1] == b1 && b1[..0] == [];
    AppendFour(f, l, r, b);
    assert After(f, l, r, b1) == AppendByte(f, State(l, r, 0, 0), b[0]);
    assert After(f, l, r, b2) == AppendByte(f, After(f, l, r, b1), b[1]);
    assert After(f, l, r, b3) == AppendByte(f, After(f, l, r, b2), b[2]);
  }

  /** Fed byte by byte, a message of whole words leaves exactly the word-wise result. */
  lemma {:induction false} AfterIsWords(f: BlockFunction, l: bv32, r: bv32, msg: seq<bv8>)
    requires |msg| % 4 == 0
    ensures var lr := Words(f, l, r, msg); After(f, l, r, msg) == State(lr.0, lr.1, 0, 0)
    decreases |msg|
  {
    if msg != [] {
      var b, rest := msg[..4], msg[4..];
      assert msg == b + rest;
      AfterFour(f, l, r, b);
      AfterAppend(f, l, r, b, rest);
      var lr := f(l, r, WordAt(msg));
      AfterIsWords(f, lr.0, lr.1, rest);
    }
  }

  /** Padding completes the last word. */
  lemma PaddingCompletes(f: BlockFunction, l: bv32, r: bv32, msg: seq<bv8>)
    ensures var lr := Words(f, l, r, PaddedMessage(msg)); After(f, l, r, PaddedMessage(msg)) == State(lr.0, lr.1, 0, 0)
  {
    AfterIsWords(f, l, r, PaddedMessage(msg));
  }

  /** The number of bytes collected is the length modulo four. */
  lemma {:induction false} Collected(f: BlockFunction, l: bv32, r: bv32, msg: seq<bv8>)
    ensures After(f, l, r, msg).n == |msg| % 4
  {
    if msg != [] {
      Collected(f, l, r, msg[..|msg| - 1]);
    }
  }

  lemma AfterOneMore(f: BlockFunction, l: bv32, r: bv32, msg: seq<bv8>, b: bv8)
    ensures After(f, l, r, msg + [b]) == AppendByte(f, After(f, l, r, msg), b)
  {
    assert (msg + [b])[..|msg|] == msg;
  }

  // ---------------------------------------------------------------------------------------
  // struct mic_data
  // ---------------------------------------------------------------------------------------

  class MicData {
    const mix: BlockFunction
    var K0: bv32
    var K1: bv32
    var L: bv32
    var R: bv32
    var M: bv32
    var nBytesInM: nat
    ghost var message: seq<bv8>  // everything appended since the last reset

    ghost predicate Valid()
      reads this
    {
      State(L, R, M, nBytesInM) == After(mix, K0, K1, message)
    }

    /** rtw_secmicsetkey */
    constructor (mix: BlockFunction, key: seq<bv8>)
      requires |key| == 8
      ensures Valid() && message == [] && this.mix == mix
      ensures K0 == WordAt(key) && K1 == WordAt(key[4..])
    {
      this.mix := mix;
      K0, K1 := WordAt(key), WordAt(key[4..]);
      L, R := WordAt(key), WordAt(key[4..]);
      M, nBytesInM := 0, 0;
      message := [];
    }

    /** secmicclear */
    method Clear()
      modifies this`L, this`R, this`M, this`nBytesInM, this`message
      ensures Valid() && message == []
    {
      L, R := K0, K1;
      nBytesInM := 0;
      M := 0;
      message := [];
    }

    /** rtw_secmicappendbyte */
    method AppendByte(b: bv8)
      requires Valid()
      modifies this`L, this`R, this`M, this`nBytesInM, this`message
      ensures Valid() && message == old(message) + [b]
    {
      AfterOneMore(mix, K0, K1, message, b);
      var m := Or32(M, Placed(b, nBytesInM));
      nBytesInM := nBytesInM + 1;
      if nBytesInM >= 4 {
        var lr := mix(L, R, m);
        L, R := lr.0, lr.1;
        M := 0;
        nBytesInM := 0;
      } else {
        M := m;
      }
      message := message + [b];
    }

    /** rtw_secmicappend: however a message is cut into pieces, only the concatenation counts. */
    method Append(src: seq<bv8>)
      requires Valid()
      modifies this`L, this`R, this`M, this`nBytesInM, this`message
      ensures Valid() && message == old(message) + src
    {
      assert old(message) + src[..0] == old(message);
      for i := 0 to |src|
        invariant Valid() && message == old(message) + src[..i]
      {
        AppendByte(src[i]);
        assert src[..i + 1] == src[..i] + [src[i]];
      }
      assert src[..|src|] == src;
    }

    /** rtw_secgetmic: the Michael code of everything appended, and a fresh start. */
    method GetMic() returns (dst: seq<bv8>)
      requires Valid()
      modifies this`L, this`R, this`M, this`nBytesInM, this`message
      ensures dst == Code(mix, K0, K1, old(message))
      ensures Valid() && message == []
    {
      PaddingCompletes(mix, K0, K1, message);
      Pad();
      dst := LittleEndian(L) + LittleEndian(R);
      Clear();
    }

    /** Append the minimum padding, then zeros until the length is a multiple of four. */
    method Pad()
      requires Valid()
      modifies this`L, this`R, this`M, this`nBytesInM, this`message
      ensures Valid() && message == PaddedMessage(old(message))
    {
      ghost var n, marked, z := |message|, message + [0x5a], 4;
      Mark();
      while nBytesInM != 0
        invariant Valid() && message == marked + Zeros(z) && nBytesInM == |message| % 4
        invariant 4 <= z <= ZeroCount(n)
        decreases ZeroCount(n) - z
      {
        NotYet(n, z);
        AppendZero(marked, z);
        z := z + 1;
      }
      Now(n, z);
    }

    /** The minimum padding. */
    method Mark()
      requires Valid()
      modifies this`L, this`R, this`M, this`nBytesInM, this`message
      ensures Valid() && message == (old(message) + [0x5a]) + Zeros(4) && nBytesInM == |message| % 4
    {
      AppendByte(0x5a);
      Append([0, 0, 0, 0]);
      assert Zeros(4) == [0, 0, 0, 0];
      Collected(mix, K0, K1, message);
    }

    method AppendZero(ghost marked: seq<bv8>, ghost z: nat)
      requires Valid() && message == marked + Zeros(z)
      modifies this`L, this`R, this`M, this`nBytesInM, this`message
      ensures Valid() && message == marked + Zeros(z + 1) && nBytesInM == |message| % 4
    {
      AppendByte(0);
      assert (marked + Zeros(z)) + [0] == marked + Zeros(z + 1);
      Collected(mix, K0, K1, message);
    }
  }

  lemma NotYet(n: nat, z: nat)
    requires 4 <= z <= ZeroCount(n) && (n + 1 + z) % 4 != 0
    ensures z < ZeroCount(n)
  {
  }

  lemma Now(n: nat, z: nat)
    requires 4 <= z <= ZeroCount(n) && (n + 1 + z) % 4 == 0
    ensures z == ZeroCount(n)
  {
  }

  // ---------------------------------------------------------------------------------------
  // The TKIP pseudo header
  // ---------------------------------------------------------------------------------------

  /** Where the destination and the source address are found depends on the two DS bits. */
  function Destination(header: seq<bv8>): (da: seq<bv8>)
    requires |header| >= 30
  {
    if header[1] & 1 != 0 then header[16..22] else header[4..10]
  }

  function Source(header: seq<bv8>): (sa: seq<bv8>)
    requires |header| >= 30
  {
    if header[1] & 2 == 0 then header[10..16] else if header[1] & 1 != 0 then header[24..30] else header[16..22]
  }

  /** What is authenticated: destination, source, priority and three zeros, then the data. */
  function Authenticated(header: seq<bv8>, data: seq<bv8>, pri: bv8): seq<bv8>
    requires |header| >= 30
  {
    Destination(header) + Source(header) + [pri, 0, 0, 0] + data
  }

  method AppendAddresses(micdata: MicData, header: seq<bv8>)
    requires micdata.Valid() && |header| >= 30
    modifies micdata`L, micdata`R, micdata`M, micdata`nBytesInM, micdata`message
    ensures micdata.Valid() && micdata.message == (old(micdata.message) + Destination(header)) + Source(header)
  {
    if header[1] & 1 != 0 {
      micdata.Append(header[16..22]);
      if header[1] & 2 != 0 {
        micdata.Append(header[24..30]);
      } else {
        micdata.Append(header[10..16]);
      }
    } else {
      micdata.Append(header[4..10]);
      if header[1] & 2 != 0 {
        micdata.Append(header[16..22]);
      } else {
        micdata.Append(header[10..16]);
      }
    }
  }

  /** rtw_seccalctkipmic */
  method CalcTkipMic(mix: BlockFunction, key: seq<bv8>, header: seq<bv8>, data: seq<bv8>,
                     pri: bv8) returns (mic: seq<bv8>)
    requires |key| == 8 && |header| >= 30
    ensures mic == Code(mix, WordAt(key), WordAt(key[4..]), Authenticated(header, data, pri))
  {
    var micdata := new MicData(mix, key);
    AppendAddresses(micdata, header);
    micdata.Append([pri, 0, 0, 0]);
    micdata.Append(data);
    assert ([] + Destination(header)) + Source(header) == Destination(header) + Source(header);
    assert micdata.message == Authenticated(header, data, pri);
    mic := micdata.GetMic();
  }

  /** rtw_seccalctkipmic with the mixing steps of the driver. */
  method CalcTkipMicWithBlock(key: seq<bv8>, header: seq<bv8>, data: seq<bv8>, pri: bv8) returns (mic: seq<bv8>)
    requires |key| == 8 && |header| >= 30
    ensures mic == Code(Block, WordAt(key), WordAt(key[4..]), Authenticated(header, data, pri))
  {
    mic := CalcTkipMic(Block, key, header, data, pri);
  }
}
