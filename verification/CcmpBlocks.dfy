/** The blocks CCMP encrypts: which are different, what they authenticate, and the sealed frame byte by byte. */
module CcmpBlocks {
  import opened Ccmp
  import opened Buffers
  import Counting

  // ---------------------------------------------------------------------------------------
  // Counter blocks
  // ---------------------------------------------------------------------------------------

  lemma LowByteTells(a: nat, b: nat)
    ensures LowByte(a) == LowByte(b) <==> a % 256 == b % 256
  {
    assert Counting.Value(LowByte(a)) == a % 256 && Counting.Value(LowByte(b)) == b % 256;
  }

  lemma TwoBytesTell(a: nat, b: nat)
    ensures LowByte(a / 256) == LowByte(b / 256) && LowByte(a) == LowByte(b) <==> a % 65536 == b % 65536
  {
    LowByteTells(a / 256, b / 256);
    LowByteTells(a, b);
    Digits(a);
    Digits(b);
    PairsTell(a / 256 % 256, a % 256, b / 256 % 256, b % 256);
  }

  lemma PairsTell(u: nat, r: nat, v: nat, t: nat)
    requires r < 256 && t < 256
    ensures 256 * u + r == 256 * v + t <==> u == v && r == t
  {
  }

  lemma SmallTell(a: nat, b: nat)
    requires a < 65536 && b < 65536
    ensures LowByte(a / 256) == LowByte(b / 256) && LowByte(a) == LowByte(b) <==> a == b
  {
    TwoBytesTell(a, b);
    assert a % 65536 == a && b % 65536 == b;
  }

  lemma Digits(a: nat)
    ensures a % 65536 == 256 * (a / 256 % 256) + a % 256
  {
    var q, r := a / 256, a % 256;
    var t, u := q / 256, q % 256;
    assert a == 65536 * t + (256 * u + r);
    Remainder(t, 256 * u + r);
  }

  lemma Remainder(t: nat, v: nat)
    requires v < 65536
    ensures (65536 * t + v) % 65536 == v
  {
  }

  /** A counter block tells its counter modulo 2^16. */
  lemma CounterShows(hdr: seq<bv8>, n: Nonce, i: nat, j: nat)
    requires |hdr| >= 32 && |n.pn| == 6
    ensures CtrPreload(hdr, n, i) == CtrPreload(hdr, n, j) <==> i % 65536 == j % 65536
  {
    TwoBytesTell(i, j);
    NonceParts(0x01, hdr, n, i);
    NonceParts(0x01, hdr, n, j);
  }

  lemma MaskTells(E: Block -> Block, x: Block, y: Block, u: Block, v: Block, same: bool)
    requires Injective(E) && u == E(x) && v == E(y) && (x == y <==> same)
    ensures u == v <==> same
  {
  }

  /** The masks of a frame of fewer than 65536 blocks, the one of the tag included, are pairwise different. */
  lemma MasksDiffer(E: Block -> Block, hdr: seq<bv8>, n: Nonce, i: nat, j: nat)
    requires Injective(E) && |hdr| >= 32 && |n.pn| == 6 && i < 65536 && j < 65536
    ensures KeyStream(E, hdr, n)(i) == KeyStream(E, hdr, n)(j) <==> i == j
  {
    var x, y := CtrPreload(hdr, n, i), CtrPreload(hdr, n, j);
    SmallCounterShows(hdr, n, i, j);
    MaskTells(E, x, y, KeyStream(E, hdr, n)(i), KeyStream(E, hdr, n)(j), i == j);
  }

  lemma SmallCounterShows(hdr: seq<bv8>, n: Nonce, i: nat, j: nat)
    requires |hdr| >= 32 && |n.pn| == 6 && i < 65536 && j < 65536
    ensures CtrPreload(hdr, n, i) == CtrPreload(hdr, n, j) <==> i == j
  {
    CounterShows(hdr, n, i, j);
    assert i % 65536 == i && j % 65536 == j;
  }

  /** No first block of a MIC is a counter block, whatever the frames. */
  lemma MicIvIsNoCounter(g: seq<bv8>, m: Nonce, plen: nat, hdr: seq<bv8>, n: Nonce, i: nat)
    requires |g| >= 32 && |m.pn| == 6 && |hdr| >= 32 && |n.pn| == 6
    ensures MicIv(g, m, plen) != CtrPreload(hdr, n, i)
  {
    NonceParts(0x59, g, m, plen);
    NonceParts(0x01, hdr, n, i);
  }

  /** The QoS subtypes are those with the highest of their four bits set and the next one clear. */
  lemma QosByTopBits(first: bv8)
    ensures QosSubtype(first) <==> first & 0xc0 == 0x80
  {
  }

  // ---------------------------------------------------------------------------------------
  // What is authenticated
  // ---------------------------------------------------------------------------------------

  /** The header fields the MIC covers: frame control without the masked bits, the addresses there are,
      and the TID of a QoS frame. */
  datatype Fields = Fields(fc0: bv8, fc1: bv8, a1: seq<bv8>, a2: seq<bv8>, a3: seq<bv8>, a4: seq<bv8>, tid: bv8)

  function Covered(hdr: seq<bv8>, n: Nonce): Fields
    requires |hdr| >= 32
  {
    Fields(hdr[0] & 0xcf, hdr[1] & 0xc7, hdr[4..10], hdr[10..16], hdr[16..22], if n.a4 then hdr[24..30] else [],
           if !n.qc then 0 else if n.a4 then hdr[30] & 0x0f else hdr[24] & 0x0f)
  }

  lemma SplitsAt(a: seq<bv8>, b: seq<bv8>, c: seq<bv8>, d: seq<bv8>)
    requires |a| == |c|
    ensures a + b == c + d <==> a == c && b == d
  {
    if a + b == c + d {
      assert a == (a + b)[..|a|] && c == (c + d)[..|a|] && b == (a + b)[|a|..] && d == (c + d)[|a|..];
    }
  }

  lemma MicIvTells(g: seq<bv8>, m: Nonce, p: nat, hdr: seq<bv8>, n: Nonce, q: nat)
    requires |g| >= 32 && |m.pn| == 6 && |hdr| >= 32 && |n.pn| == 6 && p < 65536 && q < 65536
    ensures var c, d := Covered(g, m), Covered(hdr, n);
            MicIv(g, m, p) == MicIv(hdr, n, q) <==> c.tid == d.tid && c.a2 == d.a2 && m.pn == n.pn && p == q
  {
    SmallTell(p, q);
    NonceParts(0x59, g, m, p);
    NonceParts(0x59, hdr, n, q);
    ReversedTells(m.pn, n.pn);
    BlocksByParts(MicIv(g, m, p), MicIv(hdr, n, q));
  }

  lemma BlocksByParts(x: Block, y: Block)
    ensures x == y <==> x[0] == y[0] && x[1] == y[1] && x[2..8] == y[2..8] && x[8..14] == y[8..14]
                        && x[14] == y[14] && x[15] == y[15]
  {
    assert x == [x[0], x[1]] + x[2..8] + x[8..14] + [x[14], x[15]];
    assert y == [y[0], y[1]] + y[2..8] + y[8..14] + [y[14], y[15]];
  }

  lemma ReversedTells(a: seq<bv8>, b: seq<bv8>)
    requires |a| == 6 == |b|
    ensures Backwards(a) == Backwards(b) <==> a == b
  {
    if Backwards(a) == Backwards(b) {
      forall i | 0 <= i < 6
        ensures a[i] == b[i]
      {
        assert Backwards(a)[5 - i] == a[i] && Backwards(b)[5 - i] == b[i];
      }
    }
  }

  function Header1Front(hdr: seq<bv8>, hdrlen: nat): seq<bv8>
    requires |hdr| >= 32 && hdrlen >= 24
  {
    [LowByte((hdrlen - 2) / 256), LowByte(hdrlen - 2), hdr[0] & 0xcf, hdr[1] & 0xc7]
  }

  lemma FourTell(x: seq<bv8>, y: seq<bv8>)
    requires |x| == 4 == |y|
    ensures x == y <==> x[0] == y[0] && x[1] == y[1] && x[2] == y[2] && x[3] == y[3]
  {
  }

  lemma Header1Parts(hdr: seq<bv8>, hdrlen: nat)
    requires |hdr| >= 32 && hdrlen >= 24
    ensures MicHeader1(hdr, hdrlen) == Header1Front(hdr, hdrlen) + (hdr[4..10] + hdr[10..16])
  {
  }

  lemma Header1Tells(g: seq<bv8>, m: Nonce, gl: nat, hdr: seq<bv8>, n: Nonce, hl: nat)
    requires |g| >= 32 && 24 <= gl < 65536 && |hdr| >= 32 && 24 <= hl < 65536
    ensures var c, d := Covered(g, m), Covered(hdr, n);
            MicHeader1(g, gl) == MicHeader1(hdr, hl)
            <==> gl == hl && c.fc0 == d.fc0 && c.fc1 == d.fc1 && c.a1 == d.a1 && c.a2 == d.a2
  {
    SmallTell(gl - 2, hl - 2);
    Header1Parts(g, gl);
    Header1Parts(hdr, hl);
    SplitsAt(Header1Front(g, gl), g[4..10] + g[10..16], Header1Front(hdr, hl), hdr[4..10] + hdr[10..16]);
    SplitsAt(g[4..10], g[10..16], hdr[4..10], hdr[10..16]);
    FourTell(Header1Front(g, gl), Header1Front(hdr, hl));
  }

  lemma Header2Tells(g: seq<bv8>, m: Nonce, hdr: seq<bv8>, n: Nonce)
    requires |g| >= 32 && |hdr| >= 32 && m.qc == n.qc && m.a4 == n.a4
    ensures var c, d := Covered(g, m), Covered(hdr, n);
            MicHeader2(g, m) == MicHeader2(hdr, n) <==> c.a3 == d.a3 && c.a4 == d.a4 && c.tid == d.tid
  {
    var x, y := Header2Tail(g, m), Header2Tail(hdr, n);
    assert MicHeader2(g, m) == g[16..22] + ([0, 0] + x) && MicHeader2(hdr, n) == hdr[16..22] + ([0, 0] + y);
    SplitsAt(g[16..22], [0, 0] + x, hdr[16..22], [0, 0] + y);
    SplitsAt([0, 0], x, [0, 0], y);
    TailTells(g, m, hdr, n);
  }

  function Header2Tail(hdr: seq<bv8>, n: Nonce): seq<bv8>
    requires |hdr| >= 32
  {
    if n.a4 then hdr[24..30] + [if n.qc then hdr[30] & 0x0f else 0, 0]
    else [if n.qc then hdr[24] & 0x0f else 0, 0, 0, 0, 0, 0, 0, 0]
  }

  lemma TailTells(g: seq<bv8>, m: Nonce, hdr: seq<bv8>, n: Nonce)
    requires |g| >= 32 && |hdr| >= 32 && m.qc == n.qc && m.a4 == n.a4
    ensures Header2Tail(g, m) == Header2Tail(hdr, n)
            <==> Covered(g, m).a4 == Covered(hdr, n).a4 && Covered(g, m).tid == Covered(hdr, n).tid
  {
    if n.a4 {
      SplitsAt(g[24..30], [Covered(g, m).tid, 0], hdr[24..30], [Covered(hdr, n).tid, 0]);
      assert [Covered(g, m).tid, 0][0] == Covered(g, m).tid && [Covered(hdr, n).tid, 0][0] == Covered(hdr, n).tid;
    } else {
      assert Header2Tail(g, m)[0] == Covered(g, m).tid && Header2Tail(hdr, n)[0] == Covered(hdr, n).tid;
    }
  }

  /** The three header blocks are the same exactly when the lengths, the packet numbers and all the
      fields the MIC covers are. */
  lemma HeaderBlocksTell(g: seq<bv8>, m: Nonce, gl: nat, p: nat, hdr: seq<bv8>, n: Nonce, hl: nat, q: nat)
    requires |g| >= 32 && |m.pn| == 6 && gl >= 24 && |hdr| >= 32 && |n.pn| == 6 && hl >= 24
    requires m.qc == n.qc && m.a4 == n.a4 && gl < 65536 && hl < 65536 && p < 65536 && q < 65536
    ensures (MicIv(g, m, p) == MicIv(hdr, n, q) && MicHeader1(g, gl) == MicHeader1(hdr, hl)
             && MicHeader2(g, m) == MicHeader2(hdr, n))
            <==> p == q && gl == hl && m.pn == n.pn && Covered(g, m) == Covered(hdr, n)
  {
    var c, d := Covered(g, m), Covered(hdr, n);
    MicIvTells(g, m, p, hdr, n, q);
    Header1Tells(g, m, gl, hdr, n, hl);
    Header2Tells(g, m, hdr, n);
    AllTell(c, d, MicIv(g, m, p) == MicIv(hdr, n, q), MicHeader1(g, gl) == MicHeader1(hdr, hl),
            MicHeader2(g, m) == MicHeader2(hdr, n), m.pn == n.pn, p == q, gl == hl);
  }

  lemma AllTell(c: Fields, d: Fields, iv: bool, h1: bool, h2: bool, pn: bool, plen: bool, hlen: bool)
    requires iv <==> c.tid == d.tid && c.a2 == d.a2 && pn && plen
    requires h1 <==> hlen && c.fc0 == d.fc0 && c.fc1 == d.fc1 && c.a1 == d.a1 && c.a2 == d.a2
    requires h2 <==> c.a3 == d.a3 && c.a4 == d.a4 && c.tid == d.tid
    ensures iv && h1 && h2 <==> plen && hlen && pn && c == d
  {
  }

  // ---------------------------------------------------------------------------------------
  // The MIC as the standard defines it: section 2.2 of RFC 3610
  // ---------------------------------------------------------------------------------------

  /** X_1 = E(B_0), X_i+1 = E(X_i xor B_i). */
  function MacOf(E: Block -> Block, blocks: seq<Block>): Block
    requires blocks != []
  {
    var last := |blocks| - 1;
    if last == 0 then E(blocks[0]) else E(Xor(MacOf(E, blocks[..last]), blocks[last]))
  }

  function BlockCount(len: nat): nat {
    (len + 15) / 16
  }

  /** Block i of a payload, with zeros behind its end. */
  function PayloadBlock(p: seq<bv8>, i: nat): Block {
    seq(16, j requires 0 <= j < 16 => if 16 * i + j < |p| then p[16 * i + j] else 0)
  }

  function PayloadBlocks(p: seq<bv8>): (bs: seq<Block>)
    ensures |bs| == BlockCount(|p|)
  {
    seq(BlockCount(|p|), i requires 0 <= i < BlockCount(|p|) => PayloadBlock(p, i))
  }

  function MicBlocks(hdr: seq<bv8>, n: Nonce, hdrlen: nat, p: seq<bv8>): (bs: seq<Block>)
    requires |hdr| >= 32 && |n.pn| == 6 && hdrlen >= 24
    ensures |bs| == 3 + BlockCount(|p|)
  {
    [MicIv(hdr, n, |p|), MicHeader1(hdr, hdrlen), MicHeader2(hdr, n)] + PayloadBlocks(p)
  }

  lemma MacAppend(E: Block -> Block, blocks: seq<Block>, b: Block)
    requires blocks != []
    ensures MacOf(E, blocks + [b]) == E(Xor(MacOf(E, blocks), b))
  {
    assert (blocks + [b])[..|blocks|] == blocks;
  }

  lemma FirstPayloadBlock(p: seq<bv8>)
    requires p != []
    ensures BlockCount(|p|) > 0
    ensures PayloadBlock(p, 0) == if |p| < 16 then Padded(p) else p[..16]
    ensures PayloadBlocks(p) == [PayloadBlock(p, 0)] + PayloadBlocks(if |p| < 16 then [] else p[16..])
  {
    var rest := if |p| < 16 then [] else p[16..];
    assert BlockCount(|p|) == 1 + BlockCount(|rest|);
    forall i | 0 <= i < BlockCount(|rest|)
      ensures PayloadBlock(p, i + 1) == PayloadBlock(rest, i)
    {
    }
  }

  lemma {:induction false} CbcIsMac(E: Block -> Block, front: seq<Block>, p: seq<bv8>)
    requires front != []
    ensures CbcMac(E, MacOf(E, front), p) == MacOf(E, front + PayloadBlocks(p))
    decreases |p|
  {
    if p == [] {
      assert front + PayloadBlocks(p) == front;
    } else {
      var b, rest := PayloadBlock(p, 0), if |p| < 16 then [] else p[16..];
      FirstPayloadBlock(p);
      MacAppend(E, front, b);
      CbcIsMac(E, front + [b], rest);
      assert front + [b] + PayloadBlocks(rest) == front + PayloadBlocks(p);
    }
  }

  /** The driver's MIC is the first half of the CBC-MAC over all the blocks. */
  lemma MicIsMac(E: Block -> Block, hdr: seq<bv8>, n: Nonce, hdrlen: nat, p: seq<bv8>)
    requires |hdr| >= 32 && |n.pn| == 6 && hdrlen >= 24
    ensures Mic(E, hdr, n, hdrlen, p) == MacOf(E, MicBlocks(hdr, n, hdrlen, p))[..MIC_LEN]
  {
    var iv, h1, h2 := MicIv(hdr, n, |p|), MicHeader1(hdr, hdrlen), MicHeader2(hdr, n);
    MacAppend(E, [iv], h1);
    MacAppend(E, [iv, h1], h2);
    assert [iv] + [h1] == [iv, h1] && [iv, h1] + [h2] == [iv, h1, h2];
    CbcIsMac(E, [iv, h1, h2], p);
  }

  /** Under a cipher, changing one block of what is authenticated changes the MAC. */
  lemma {:induction false} OneBlockShows(E: Block -> Block, blocks: seq<Block>, i: nat, b: Block)
    requires Injective(E) && i < |blocks|
    ensures MacOf(E, blocks[i := b]) == MacOf(E, blocks) <==> b == blocks[i]
    decreases |blocks|
  {
    var last := |blocks| - 1;
    if last == 0 {
      MaskTells(E, b, blocks[0], E(b), E(blocks[0]), b == blocks[0]);
    } else if i < last {
      OneBlockShows(E, blocks[..last], i, b);
      EarlierShows(E, blocks, i, b, last);
    } else {
      LastShows(E, blocks, b);
    }
  }

  lemma EarlierShows(E: Block -> Block, blocks: seq<Block>, i: nat, b: Block, last: nat)
    requires Injective(E) && i < last == |blocks| - 1
    requires MacOf(E, blocks[..last][i := b]) == MacOf(E, blocks[..last]) <==> b == blocks[i]
    ensures MacOf(E, blocks[i := b]) == MacOf(E, blocks) <==> b == blocks[i]
  {
    assert blocks[i := b][..last] == blocks[..last][i := b];
    MacTells(E, MacOf(E, blocks[..last][i := b]), MacOf(E, blocks[..last]), blocks[last], blocks[last]);
  }

  lemma LastShows(E: Block -> Block, blocks: seq<Block>, b: Block)
    requires Injective(E) && |blocks| > 1
    ensures MacOf(E, blocks[|blocks| - 1 := b]) == MacOf(E, blocks) <==> b == blocks[|blocks| - 1]
  {
    var last := |blocks| - 1;
    assert blocks[last := b][..last] == blocks[..last];
    MacTells(E, MacOf(E, blocks[..last]), MacOf(E, blocks[..last]), b, blocks[last]);
  }

  lemma MacTells(E: Block -> Block, x: Block, y: Block, b: Block, c: Block)
    requires Injective(E) && (x == y || b == c)
    ensures E(Xor(x, b)) == E(Xor(y, c)) <==> x == y && b == c
  {
    if E(Xor(x, b)) == E(Xor(y, c)) {
      if x == y {
        XorLeftCancels(x, b, c);
      } else {
        XorRightCancels(x, y, b);
      }
    }
  }

  // ---------------------------------------------------------------------------------------
  // The sealed frame, byte by byte
  // ---------------------------------------------------------------------------------------

  lemma {:induction false} XorAt(a: seq<bv8>, b: seq<bv8>, k: nat)
    requires |a| <= |b| && k < |a|
    ensures Xor(a, b)[k] == a[k] ^ b[k]
  {
    if k > 0 {
      XorAt(a[1..], b[1..], k - 1);
    }
  }

  /** Byte r of block q of a payload is masked with byte r of the mask with counter i + q. */
  lemma {:induction false} CtrAt(ks: nat -> Block, p: seq<bv8>, i: nat, q: nat, r: nat)
    requires r < 16 && 16 * q + r < |p|
    ensures Ctr(ks, p, i)[16 * q + r] == p[16 * q + r] ^ ks(i + q)[r]
    decreases q
  {
    if |p| < 16 {
      XorAt(p, ks(i), r);
    } else if q == 0 {
      XorAt(p[..16], ks(i), r);
    } else {
      CtrAt(ks, p[16..], i + 1, q - 1, r);
    }
  }

  predicate MaskedPlace(ks: nat -> Block, p: seq<bv8>, c: seq<bv8>, q: nat, r: nat)
    requires r < 16 && 16 * q + r < |p| && |c| == |p|
  {
    c[16 * q + r] == p[16 * q + r] ^ ks(1 + q)[r]
  }

  /** c is p with byte r of block q masked from counter block 1 + q. */
  ghost predicate PayloadMasked(ks: nat -> Block, p: seq<bv8>, c: seq<bv8>) {
    && |c| == |p|
    && forall q: nat, r: nat :: r < 16 && 16 * q + r < |p| ==> MaskedPlace(ks, p, c, q, r)
  }

  lemma CtrMasks(ks: nat -> Block, p: seq<bv8>)
    ensures PayloadMasked(ks, p, Ctr(ks, p, 1))
  {
    forall q: nat, r: nat | r < 16 && 16 * q + r < |p|
      ensures MaskedPlace(ks, p, Ctr(ks, p, 1), q, r)
    {
      CtrAt(ks, p, 1, q, r);
    }
  }

  /** The tag is the first half of the MAC masked from counter block 0. */
  ghost predicate MacMasked(mac: Block, mask: Block, tag: seq<bv8>) {
    |tag| == MIC_LEN && forall i :: 0 <= i < MIC_LEN ==> tag[i] == mac[i] ^ mask[i]
  }

  lemma TagMasks(E: Block -> Block, hdr: seq<bv8>, n: Nonce, hdrlen: nat, p: seq<bv8>)
    requires |hdr| >= 32 && |n.pn| == 6 && hdrlen >= 24
    ensures MacMasked(MacOf(E, MicBlocks(hdr, n, hdrlen, p)), KeyStream(E, hdr, n)(0), Tag(E, hdr, n, hdrlen, p))
  {
    MicIsMac(E, hdr, n, hdrlen, p);
    XorMasks(MacOf(E, MicBlocks(hdr, n, hdrlen, p)), E(CtrPreload(hdr, n, 0)));
  }

  lemma XorMasks(mac: Block, mask: Block)
    ensures MacMasked(mac, mask, Xor(mac[..MIC_LEN], mask))
  {
    forall i | 0 <= i < MIC_LEN
      ensures Xor(mac[..MIC_LEN], mask)[i] == mac[i] ^ mask[i]
    {
      XorAt(mac[..MIC_LEN], mask, i);
    }
  }

  /** The sealed frame is the frame with masked payload and masked MIC in their places, and nothing else changed. */
  lemma SealedBytes(E: Block -> Block, f: seq<bv8>, hdrlen: nat, plen: nat) returns (c: seq<bv8>, tag: seq<bv8>)
    requires Fits(f, hdrlen, plen)
    ensures |c| == plen && |tag| == MIC_LEN && Seal(E, f, hdrlen, plen) == Splice(f, Base(f, hdrlen), c + tag)
    ensures var hdr, n, p := Header(f, hdrlen), SealNonce(f, hdrlen), Payload(f, hdrlen, plen);
            && PayloadMasked(KeyStream(E, hdr, n), p, c)
            && MacMasked(MacOf(E, MicBlocks(hdr, n, AdjustedLen(f[0], hdrlen), p)), KeyStream(E, hdr, n)(0), tag)
  {
    var hdr, n, p, hlen := Header(f, hdrlen), SealNonce(f, hdrlen), Payload(f, hdrlen, plen), AdjustedLen(f[0], hdrlen);
    c, tag := Ctr(KeyStream(E, hdr, n), p, 1), Tag(E, hdr, n, hlen, p);
    CtrMasks(KeyStream(E, hdr, n), p);
    TagMasks(E, hdr, n, hlen, p);
    SealIs(E, f, hdrlen, plen, hlen, n, hdr, p, c, tag);
  }

  lemma SealIs(E: Block -> Block, f: seq<bv8>, hdrlen: nat, plen: nat, hlen: nat, n: Nonce, hdr: seq<bv8>, p: seq<bv8>,
               c: seq<bv8>, tag: seq<bv8>)
    requires Fits(f, hdrlen, plen) && hlen == AdjustedLen(f[0], hdrlen) && n == SealNonce(f, hdrlen)
    requires hdr == Header(f, hdrlen) && p == Payload(f, hdrlen, plen)
    requires c == Ctr(KeyStream(E, hdr, n), p, 1) && tag == Tag(E, hdr, n, hlen, p)
    ensures Seal(E, f, hdrlen, plen) == Splice(f, Base(f, hdrlen), c + tag)
  {
    SealedAtFrom(E, f, hlen, n, plen, Base(f, hdrlen), hdr, p, c, tag);
  }

  lemma SealedAtFrom(E: Block -> Block, f: seq<bv8>, hlen: nat, n: Nonce, plen: nat, base: nat, hdr: seq<bv8>,
                     p: seq<bv8>, c: seq<bv8>, tag: seq<bv8>)
    requires 24 <= hlen && |n.pn| == 6 && base == hlen + EXT_IV_LEN && base + plen + MIC_LEN <= |f|
    requires hdr == f[..base] && p == f[base..base + plen]
    requires c == Ctr(KeyStream(E, hdr, n), p, 1) && tag == Tag(E, hdr, n, hlen, p)
    ensures SealedAt(E, f, hlen, n, plen) == Splice(f, base, c + tag)
  {
    SealedAtIs(E, f, hlen, n, plen, c, tag);
  }

  // ---------------------------------------------------------------------------------------
  // The sequence control field
  // ---------------------------------------------------------------------------------------

  /** Headers that differ at most in that field make the same blocks. */
  lemma SameBlocks(hdr: seq<bv8>, g: seq<bv8>, n: Nonce, hdrlen: nat, count: nat)
    requires |hdr| == |g| >= 32 && |n.pn| == 6 && hdrlen >= 24
    requires g[..22] == hdr[..22] && g[24..] == hdr[24..]
    ensures CtrPreload(g, n, count) == CtrPreload(hdr, n, count) && MicIv(g, n, count) == MicIv(hdr, n, count)
    ensures MicHeader1(g, hdrlen) == MicHeader1(hdr, hdrlen) && MicHeader2(g, n) == MicHeader2(hdr, n)
  {
    SameSlices(hdr, g);
    SameNonceBlock(0x01, hdr, g, n, count);
    SameNonceBlock(0x59, hdr, g, n, count);
    SameHeader1(hdr, g, hdrlen);
    SameHeader2(hdr, g, n);
  }

  lemma SameNonceBlock(flag: bv8, hdr: seq<bv8>, g: seq<bv8>, n: Nonce, count: nat)
    requires |hdr| >= 32 && |g| >= 32 && |n.pn| == 6
    requires g[10..16] == hdr[10..16] && g[24] == hdr[24] && g[30] == hdr[30]
    ensures NonceBlock(flag, g, n, count) == NonceBlock(flag, hdr, n, count)
  {
  }

  lemma SameHeader1(hdr: seq<bv8>, g: seq<bv8>, hdrlen: nat)
    requires |hdr| >= 32 && |g| >= 32 && hdrlen >= 24 && g[0] == hdr[0] && g[1] == hdr[1] && g[4..16] == hdr[4..16]
    ensures MicHeader1(g, hdrlen) == MicHeader1(hdr, hdrlen)
  {
  }

  lemma SameHeader2(hdr: seq<bv8>, g: seq<bv8>, n: Nonce)
    requires |hdr| >= 32 && |g| >= 32 && g[16..22] == hdr[16..22] && g[24..30] == hdr[24..30]
    requires g[24] == hdr[24] && g[30] == hdr[30]
    ensures MicHeader2(g, n) == MicHeader2(hdr, n)
  {
  }

  lemma SameSlices(hdr: seq<bv8>, g: seq<bv8>)
    requires |hdr| == |g| >= 32 && g[..22] == hdr[..22] && g[24..] == hdr[24..]
    ensures g[0] == hdr[0] && g[1] == hdr[1] && g[4..16] == hdr[4..16] && g[10..16] == hdr[10..16]
    ensures g[16..22] == hdr[16..22] && g[24..30] == hdr[24..30] && g[24] == hdr[24] && g[30] == hdr[30]
  {
    assert forall i :: 0 <= i < 22 ==> g[i] == g[..22][i] && hdr[i] == hdr[..22][i];
    assert forall i :: 24 <= i < 32 ==> g[i] == g[24..][i - 24] && hdr[i] == hdr[24..][i - 24];
  }

  lemma {:induction false} SameStream(a: nat -> Block, b: nat -> Block, p: seq<bv8>, i: nat)
    requires forall j: nat :: a(j) == b(j)
    ensures Ctr(a, p, i) == Ctr(b, p, i)
    decreases |p|
  {
    if |p| >= 16 {
      SameStream(a, b, p[16..], i + 1);
    }
  }

  lemma SameOutcome(E: Block -> Block, hdr: seq<bv8>, g: seq<bv8>, n: Nonce, m: Nonce, hdrlen: nat, p: seq<bv8>,
                    q: seq<bv8>)
    requires |hdr| == |g| >= 32 && |n.pn| == 6 && |m.pn| == 6 && hdrlen >= 24
    requires g[..22] == hdr[..22] && g[24..] == hdr[24..]
    ensures Ctr(KeyStream(E, g, m), p, 1) == Ctr(KeyStream(E, hdr, m), p, 1)
    ensures Tag(E, g, n, hdrlen, q) == Tag(E, hdr, n, hdrlen, q)
  {
    forall j: nat
      ensures KeyStream(E, g, m)(j) == KeyStream(E, hdr, m)(j)
    {
      SameBlocks(hdr, g, m, hdrlen, j);
    }
    SameStream(KeyStream(E, g, m), KeyStream(E, hdr, m), p, 1);
    SameBlocks(hdr, g, n, hdrlen, 0);
    SameBlocks(hdr, g, n, hdrlen, |q|);
  }

  /** Frames that differ at most in the sequence control field, the fragment number included, open to
      the same payload and are accepted or refused together. */
  lemma SequenceControlIsNotCovered(E: Block -> Block, f: seq<bv8>, hdrlen: nat, plen: nat, g: seq<bv8>)
    requires Fits(f, hdrlen, plen) && |g| == |f| && g[..22] == f[..22] && g[24..] == f[24..]
    ensures g[0] == f[0] && Fits(g, hdrlen, plen)
    ensures Opened(E, g, hdrlen, plen) == Opened(E, f, hdrlen, plen)
    ensures Accepted(E, g, hdrlen, plen) <==> Accepted(E, f, hdrlen, plen)
  {
    SameBehind(f, g, hdrlen, plen);
    var hdr, top, n, m := Header(f, hdrlen), Header(g, hdrlen), SealNonce(f, hdrlen), OpenNonce(f, hdrlen);
    var p := Payload(f, hdrlen, plen);
    SameOutcome(E, hdr, top, n, m, AdjustedLen(f[0], hdrlen), p, Ctr(KeyStream(E, hdr, m), p, 1));
  }

  lemma SameBehind(f: seq<bv8>, g: seq<bv8>, hdrlen: nat, plen: nat)
    requires Fits(f, hdrlen, plen) && |g| == |f| && g[..22] == f[..22] && g[24..] == f[24..]
    ensures g[0] == f[0] && Fits(g, hdrlen, plen)
    ensures Payload(g, hdrlen, plen) == Payload(f, hdrlen, plen) && TagOf(g, hdrlen, plen) == TagOf(f, hdrlen, plen)
    ensures SealNonce(g, hdrlen) == SealNonce(f, hdrlen) && OpenNonce(g, hdrlen) == OpenNonce(f, hdrlen)
    ensures Header(g, hdrlen)[..22] == Header(f, hdrlen)[..22] && Header(g, hdrlen)[24..] == Header(f, hdrlen)[24..]
  {
    SameSlices(f, g);
    var base := Base(f, hdrlen);
    SliceFront(g, base);
    SliceFront(f, base);
    SliceBehind(f, g, base, base + plen);
    SliceBehind(f, g, base + plen, base + plen + MIC_LEN);
    SliceBehind(f, g, hdrlen, hdrlen + EXT_IV_LEN);
    SliceBehind(f, g, AdjustedLen(f[0], hdrlen), AdjustedLen(f[0], hdrlen) + EXT_IV_LEN);
    SamePacket(f[..base], g[..base], hdrlen);
    SamePacket(f[..base], g[..base], AdjustedLen(f[0], hdrlen));
  }

  lemma SliceFront(f: seq<bv8>, base: nat)
    requires 24 <= base <= |f|
    ensures f[..base][..22] == f[..22] && f[..base][24..] == f[24..][..base - 24]
  {
  }

  lemma SliceBehind(f: seq<bv8>, g: seq<bv8>, a: nat, b: nat)
    requires |g| == |f| && 24 <= a <= b <= |f| && g[24..] == f[24..]
    ensures g[a..b] == f[a..b]
  {
    forall i | 0 <= i < b - a
      ensures g[a..b][i] == f[a..b][i]
    {
      assert g[a + i] == g[24..][a + i - 24] && f[a + i] == f[24..][a + i - 24];
    }
  }

  lemma SamePacket(h: seq<bv8>, g: seq<bv8>, at: nat)
    requires |g| == |h| && 24 <= at && at + EXT_IV_LEN <= |h| && g[24..] == h[24..]
    ensures PacketNumber(g, at) == PacketNumber(h, at)
  {
    assert forall i :: 24 <= i < |h| ==> g[i] == g[24..][i - 24] && h[i] == h[24..][i - 24];
  }
}
