/** What the CRC-32 detects, and how a receiver can tell that it is right. */
module CrcLaws {
  import opened Buffers
  import opened Crc32
  import opened Fragments

  /** The generator polynomial of section 8.2.4.8 of IEEE Std 802.11-2012, by its exponents below 32. */
  lemma PolynomialIs(i: nat)
    requires i < 32
    ensures CRC32_POLY[i] <==> i in {0, 1, 2, 4, 5, 7, 8, 10, 11, 12, 16, 22, 23, 26}
  {
  }

  // ---------------------------------------------------------------------------------------
  // The register forgets nothing
  // ---------------------------------------------------------------------------------------

  lemma TopBit(r: Word)
    ensures ShiftDown(r)[31] == r[0]
  {
    assert Reverse(CRC32_POLY)[31] == CRC32_POLY[0];
  }

  lemma LowerBits(r: Word, i: nat)
    requires i < 31
    ensures ShiftDown(r)[i] == (r[i + 1] != Feedback(r[0])[i])
  {
  }

  lemma ShiftDownTells(r: Word, s: Word)
    ensures ShiftDown(r) == ShiftDown(s) <==> r == s
  {
    if ShiftDown(r) == ShiftDown(s) {
      TopBit(r);
      TopBit(s);
      forall i | 0 <= i < 32
        ensures r[i] == s[i]
      {
        if i > 0 {
          LowerBits(r, i - 1);
          LowerBits(s, i - 1);
        }
      }
    }
  }

  lemma {:induction false} IterateTells(f: Word -> Word, r: Word, s: Word, n: nat)
    requires forall x, y :: f(x) == f(y) <==> x == y
    ensures Iterate(f, r, n) == Iterate(f, s, n) <==> r == s
    decreases n
  {
    if n > 0 {
      IterateTells(f, f(r), f(s), n - 1);
    }
  }

  lemma ShiftsTell(r: Word, s: Word, n: nat)
    ensures Iterate(ShiftDown, r, n) == Iterate(ShiftDown, s, n) <==> r == s
  {
    forall x, y
      ensures ShiftDown(x) == ShiftDown(y) <==> x == y
    {
      ShiftDownTells(x, y);
    }
    IterateTells(ShiftDown, r, s, n);
  }

  lemma FedTells(r: Word, s: Word, a: seq<bool>, b: seq<bool>)
    requires |a| == |b| <= 32 && (r == s || a == b)
    ensures Fed(r, a) == Fed(s, b) <==> r == s && a == b
  {
    if Fed(r, a) == Fed(s, b) {
      var x, y := a + Zeros(32 - |a|), b + Zeros(32 - |b|);
      forall i | 0 <= i < 32
        ensures r[i] == s[i] && x[i] == y[i]
      {
        assert Fed(r, a)[i] == (r[i] != x[i]) && Fed(s, b)[i] == (s[i] != y[i]);
      }
      assert a == x[..|a|] && b == y[..|b|];
    }
  }

  lemma ReverseTells(r: Word, s: Word)
    ensures Reverse32(r) == Reverse32(s) <==> r == s
  {
    ReverseTwice(r);
    ReverseTwice(s);
  }

  lemma ReverseTwice(r: Word)
    ensures Reverse32(Reverse32(r)) == r
  {
  }

  /** From one state different bits, and from different states the same bits, lead to different states. */
  lemma ClocksTell(c: Word, d: Word, a: seq<bool>, b: seq<bool>)
    requires |a| == |b| <= 32 && (c == d || a == b)
    ensures Clocks(c, a) == Clocks(d, b) <==> c == d && a == b
  {
    ReverseClocks(c, a);
    ReverseClocks(d, b);
    ShiftsTell(Fed(Reverse32(c), a), Fed(Reverse32(d), b), |a|);
    FedTells(Reverse32(c), Reverse32(d), a, b);
    ReverseTells(c, d);
    ReverseTells(Clocks(c, a), Clocks(d, b));
  }

  lemma {:induction false} OctetTells(b: byte, c: byte)
    ensures Octet(b) == Octet(c) <==> b == c
  {
    ValueOfBits(b, 8);
    ValueOfBits(c, 8);
  }

  lemma {:induction false} ValueOfBits(v: nat, n: nat)
    requires v < Pow2(n)
    ensures ValueOf(BitsOf(v, n)) == v
    decreases n
  {
    if n > 0 {
      ValueOfBits(v / 2, n - 1);
      assert BitsOf(v, n)[1..] == BitsOf(v / 2, n - 1);
    }
  }

  lemma {:induction false} RegisterTellsState(c: Word, d: Word, message: seq<byte>)
    ensures Register(c, message) == Register(d, message) <==> c == d
    decreases |message|
  {
    if message != [] {
      ClocksTell(c, d, Octet(message[0]), Octet(message[0]));
      RegisterTellsState(Clocks(c, Octet(message[0])), Clocks(d, Octet(message[0])), message[1..]);
    }
  }

  lemma {:induction false} RegisterTellsByte(c: Word, message: seq<byte>, i: nat, x: byte)
    requires i < |message|
    ensures Register(c, message[i := x]) == Register(c, message) <==> x == message[i]
    decreases |message|
  {
    var changed := message[i := x];
    if i == 0 {
      assert changed[1..] == message[1..];
      ClocksTell(c, c, Octet(x), Octet(message[0]));
      OctetTells(x, message[0]);
      RegisterTellsState(Clocks(c, Octet(x)), Clocks(c, Octet(message[0])), message[1..]);
    } else {
      assert changed[1..] == message[1..][i - 1 := x];
      RegisterTellsByte(Clocks(c, Octet(message[0])), message[1..], i - 1, x);
    }
  }

  lemma ChecksumTells(r: Word, s: Word)
    ensures Xor32(Reverse32(r), Ones()) == Xor32(Reverse32(s), Ones()) <==> r == s
  {
    if Xor32(Reverse32(r), Ones()) == Xor32(Reverse32(s), Ones()) {
      forall i | 0 <= i < 32
        ensures Reverse32(r)[i] == Reverse32(s)[i]
      {
        assert Xor32(Reverse32(r), Ones())[i] == !Reverse32(r)[i] && Xor32(Reverse32(s), Ones())[i] == !Reverse32(s)[i];
      }
    }
    ReverseTells(r, s);
  }

  /** Changing any one byte of a message, in whatever bits, changes its checksum. */
  lemma OneByteShows(message: seq<byte>, i: nat, x: byte)
    requires i < |message|
    ensures Checksum(message[i := x]) == Checksum(message) <==> x == message[i]
  {
    RegisterTellsByte(Ones(), message, i, x);
    ChecksumTells(Register(Ones(), message[i := x]), Register(Ones(), message));
  }

  // ---------------------------------------------------------------------------------------
  // The residue
  // ---------------------------------------------------------------------------------------

  lemma {:induction false} FoldConcat(clock: (Word, bool) -> Word, c: Word, a: seq<bool>, b: seq<bool>)
    ensures Fold(clock, c, a + b) == Fold(clock, Fold(clock, c, a), b)
    decreases |a|
  {
    if a == [] {
      assert a + b == b;
    } else {
      assert (a + b)[1..] == a[1..] + b;
      FoldConcat(clock, clock(c, a[0]), a[1..], b);
    }
  }

  lemma {:induction false} RegisterConcat(c: Word, m: seq<byte>, t: seq<byte>)
    ensures Register(c, m + t) == Register(Register(c, m), t)
    decreases |m|
  {
    if m == [] {
      assert m + t == t;
    } else {
      assert (m + t)[1..] == m[1..] + t;
      RegisterConcat(Clocks(c, Octet(m[0])), m[1..], t);
    }
  }

  /** The bits of an ICV in the order they are sent. */
  function IcvBits(t: Icv): (bits: seq<bool>)
    ensures |bits| == 32
  {
    Octet(t[0]) + Octet(t[1]) + Octet(t[2]) + Octet(t[3])
  }

  lemma RegisterOfIcv(c: Word, t: Icv)
    ensures Register(c, t) == Clocks(c, IcvBits(t))
  {
    var a, b, d, e := Octet(t[0]), Octet(t[1]), Octet(t[2]), Octet(t[3]);
    FoldConcat(Clock, c, a, b);
    FoldConcat(Clock, c, a + b, d);
    FoldConcat(Clock, c, a + b + d, e);
    FourOctets(c, t);
  }

  lemma OneOctet(c: Word, b: byte)
    ensures Register(c, [b]) == Clocks(c, Octet(b))
  {
    assert [b][1..] == [];
  }

  lemma OctetBehind(c: Word, m: seq<byte>, b: byte)
    ensures Register(c, m + [b]) == Clocks(Register(c, m), Octet(b))
  {
    RegisterConcat(c, m, [b]);
    OneOctet(Register(c, m), b);
  }

  lemma FourOctets(c: Word, t: Icv)
    ensures Register(c, t) == Clocks(Clocks(Clocks(Clocks(c, Octet(t[0])), Octet(t[1])), Octet(t[2])), Octet(t[3]))
  {
    var one, two, three := [t[0]], [t[0], t[1]], [t[0], t[1], t[2]];
    OneOctet(c, t[0]);
    assert one + [t[1]] == two && two + [t[2]] == three && three + [t[3]] == t;
    OctetBehind(c, one, t[1]);
    OctetBehind(c, two, t[2]);
    OctetBehind(c, three, t[3]);
  }

  lemma OctetBack(bits: seq<bool>)
    requires |bits| == 8
    ensures Octet(OctetValue(bits)) == bits
  {
    BitsOfValue(bits);
  }

  lemma FourParts(w: Word)
    ensures w == w[0..8] + w[8..16] + w[16..24] + w[24..32]
  {
  }

  lemma CrcIcvBits(m: seq<byte>)
    ensures IcvBits(CrcIcv(m)) == Checksum(m)
  {
    var w := Checksum(m);
    OctetBack(w[0..8]);
    OctetBack(w[8..16]);
    OctetBack(w[16..24]);
    OctetBack(w[24..32]);
    FourParts(w);
  }

  lemma IcvBitsTell(t: Icv, u: Icv)
    ensures IcvBits(t) == IcvBits(u) <==> t == u
  {
    if IcvBits(t) == IcvBits(u) {
      var x, y := IcvBits(t), IcvBits(u);
      assert x[0..8] == Octet(t[0]) && x[8..16] == Octet(t[1]) && x[16..24] == Octet(t[2]) && x[24..32] == Octet(t[3]);
      assert y[0..8] == Octet(u[0]) && y[8..16] == Octet(u[1]) && y[16..24] == Octet(u[2]) && y[24..32] == Octet(u[3]);
      OctetTells(t[0], u[0]);
      OctetTells(t[1], u[1]);
      OctetTells(t[2], u[2]);
      OctetTells(t[3], u[3]);
    }
  }

  /** What the register holds after a message and its ICV, seen from the other end: the same for
      every message. */
  function Residue(): Word {
    Iterate(ShiftDown, Ones(), 32)
  }

  lemma ComplementFed(r: Word)
    ensures Fed(r, Xor32(r, Ones())) == Ones()
  {
  }

  /** The register over a message and four more bytes leaves the residue exactly when these are its ICV. */
  lemma ResidueExactly(m: seq<byte>, t: Icv)
    ensures Reverse32(Register(Ones(), m + t)) == Residue() <==> t == CrcIcv(m)
  {
    var c := Register(Ones(), m);
    var r := Reverse32(c);
    RegisterConcat(Ones(), m, t);
    RegisterOfIcv(c, t);
    ReverseClocks(c, IcvBits(t));
    ComplementFed(r);
    assert Checksum(m) == Xor32(r, Ones());
    ShiftsTell(Fed(r, IcvBits(t)), Ones(), 32);
    FedTells(r, r, IcvBits(t), Checksum(m));
    CrcIcvBits(m);
    IcvBitsTell(t, CrcIcv(m));
  }
}
