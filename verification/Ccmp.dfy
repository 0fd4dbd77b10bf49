/** CCMP sealing and opening: aes_cipher and aes_decipher of core/rtw_security.c.

    The block cipher under the temporal key is an arbitrary function E on 16-byte blocks, so
    every result holds whatever AES computes.
  */
module Ccmp {
  import opened Buffers
  import Counting

  type Block = b: seq<bv8> | |b| == 16 witness seq(16, _ => 0)

  const WLAN_HDR_A3_LEN := 24
  const WLAN_HDR_A3_QOS_LEN := 26
  const EXT_IV_LEN := 8
  const MIC_LEN := 8
  const MAX_MSG_SIZE := 2048

  // ---------------------------------------------------------------------------------------
  // Blocks built from the MAC header
  // ---------------------------------------------------------------------------------------

  /** The frame carries a QoS control field: subtypes 8 to 11. */
  predicate QosSubtype(first: bv8) {
    first >> 4 == 8 || first >> 4 == 9 || first >> 4 == 10 || first >> 4 == 11
  }

  predicate HasFourAddresses(hdrlen: nat) {
    hdrlen != WLAN_HDR_A3_LEN && hdrlen != WLAN_HDR_A3_QOS_LEN
  }

  /** The header length both routines go on with: two more than given for a QoS frame, unless
      it was given as 26. */
  function AdjustedLen(first: bv8, hdrlen: nat): nat {
    if QosSubtype(first) && hdrlen != WLAN_HDR_A3_QOS_LEN then hdrlen + 2 else hdrlen
  }

  /** What the blocks below need besides the header bytes. */
  datatype Nonce = Nonce(qc: bool, a4: bool, pn: seq<bv8>)

  function PacketNumber(hdr: seq<bv8>, at: nat): (pn: seq<bv8>)
    requires at + EXT_IV_LEN <= |hdr|
    ensures |pn| == 6
  {
    [hdr[at], hdr[at + 1], hdr[at + 4], hdr[at + 5], hdr[at + 6], hdr[at + 7]]
  }

  function NonceAt(hdr: seq<bv8>, hdrlen: nat, at: nat): (n: Nonce)
    requires 24 <= hdrlen && at + EXT_IV_LEN <= |hdr|
    ensures |n.pn| == 6
  {
    Nonce(QosSubtype(hdr[0]), HasFourAddresses(hdrlen), PacketNumber(hdr, at))
  }

  function LowByte(n: nat): bv8 {
    Counting.Digit(n % 256)
  }

  function QosPriority(hdr: seq<bv8>, n: Nonce): bv8
    requires |hdr| >= 32
  {
    if !n.qc then 0 else if n.a4 then hdr[30] & 0x0f else hdr[24] & 0x0f
  }

  /** The 14 bytes after the flag octet: priority, transmitter, packet number, then a count. */
  function NonceBlock(flag: bv8, hdr: seq<bv8>, n: Nonce, count: nat): Block
    requires |hdr| >= 32 && |n.pn| == 6
  {
    [flag, QosPriority(hdr, n)] + hdr[10..16]
    + [n.pn[5], n.pn[4], n.pn[3], n.pn[2], n.pn[1], n.pn[0], LowByte(count / 256), LowByte(count)]
  }

  function Backwards(pn: seq<bv8>): seq<bv8>
    requires |pn| == 6
  {
    [pn[5], pn[4], pn[3], pn[2], pn[1], pn[0]]
  }

  lemma NonceParts(flag: bv8, hdr: seq<bv8>, n: Nonce, count: nat)
    requires |hdr| >= 32 && |n.pn| == 6
    ensures var b := NonceBlock(flag, hdr, n, count);
            && b[0] == flag && b[1] == QosPriority(hdr, n) && b[2..8] == hdr[10..16] && b[8..14] == Backwards(n.pn)
            && b[14] == LowByte(count / 256) && b[15] == LowByte(count)
  {
  }

  /** construct_mic_iv */
  function MicIv(hdr: seq<bv8>, n: Nonce, plen: nat): Block
    requires |hdr| >= 32 && |n.pn| == 6
  {
    NonceBlock(0x59, hdr, n, plen)
  }

  /** construct_ctr_preload */
  function CtrPreload(hdr: seq<bv8>, n: Nonce, count: nat): Block
    requires |hdr| >= 32 && |n.pn| == 6
  {
    NonceBlock(0x01, hdr, n, count)
  }

  /** construct_mic_header1 */
  function MicHeader1(hdr: seq<bv8>, hdrlen: nat): Block
    requires |hdr| >= 32 && hdrlen >= 24
  {
    [LowByte((hdrlen - 2) / 256), LowByte(hdrlen - 2), hdr[0] & 0xcf, hdr[1] & 0xc7] + hdr[4..16]
  }

  /** construct_mic_header2 */
  function MicHeader2(hdr: seq<bv8>, n: Nonce): Block
    requires |hdr| >= 32
  {
    hdr[16..22] + [0, 0]
    + (if n.a4 then hdr[24..30] + [if n.qc then hdr[30] & 0x0f else 0, 0]
       else [if n.qc then hdr[24] & 0x0f else 0, 0, 0, 0, 0, 0, 0, 0])
  }

  // ---------------------------------------------------------------------------------------
  // CTR and CBC-MAC
  // ---------------------------------------------------------------------------------------

  function Xor(a: seq<bv8>, b: seq<bv8>): (r: seq<bv8>)
    requires |a| <= |b|
    ensures |r| == |a|
  {
    if a == [] then [] else [a[0] ^ b[0]] + Xor(a[1..], b[1..])
  }

  function Padded(p: seq<bv8>): Block
    requires |p| <= 16
  {
    p + seq(16 - |p|, _ => 0)
  }

  /** The masks counter mode draws on, by counter. */
  function KeyStream(E: Block -> Block, hdr: seq<bv8>, n: Nonce): nat -> Block
    requires |hdr| >= 32 && |n.pn| == 6
  {
    (i: nat) => E(CtrPreload(hdr, n, i))
  }

  /** Counter mode from counter i on. */
  function Ctr(ks: nat -> Block, p: seq<bv8>, i: nat): (c: seq<bv8>)
    ensures |c| == |p|
    decreases |p|
  {
    if |p| < 16 then Xor(p, ks(i))
    else Xor(p[..16], ks(i)) + Ctr(ks, p[16..], i + 1)
  }

  /** CBC-MAC of zero-padded p, from the chaining value acc. */
  function CbcMac(E: Block -> Block, acc: Block, p: seq<bv8>): Block
    decreases |p|
  {
    if p == [] then acc
    else if |p| < 16 then E(Xor(acc, Padded(p)))
    else CbcMac(E, E(Xor(acc, p[..16])), p[16..])
  }

  /** The chaining value after the IV block and the two header blocks. */
  function HeaderMac(E: Block -> Block, hdr: seq<bv8>, n: Nonce, hdrlen: nat, plen: nat): Block
    requires |hdr| >= 32 && |n.pn| == 6 && hdrlen >= 24
  {
    E(Xor(E(Xor(E(MicIv(hdr, n, plen)), MicHeader1(hdr, hdrlen))), MicHeader2(hdr, n)))
  }

  function Mic(E: Block -> Block, hdr: seq<bv8>, n: Nonce, hdrlen: nat, p: seq<bv8>): (m: seq<bv8>)
    requires |hdr| >= 32 && |n.pn| == 6 && hdrlen >= 24
    ensures |m| == MIC_LEN
  {
    CbcMac(E, HeaderMac(E, hdr, n, hdrlen, |p|), p)[..MIC_LEN]
  }

  /** The MIC as it travels, masked with counter block 0. */
  function Tag(E: Block -> Block, hdr: seq<bv8>, n: Nonce, hdrlen: nat, p: seq<bv8>): (t: seq<bv8>)
    requires |hdr| >= 32 && |n.pn| == 6 && hdrlen >= 24
    ensures |t| == MIC_LEN
  {
    Xor(Mic(E, hdr, n, hdrlen, p), E(CtrPreload(hdr, n, 0)))
  }

  // ---------------------------------------------------------------------------------------
  // Frames
  // ---------------------------------------------------------------------------------------

  /** Room for a header, the extended IV, plen bytes of payload and a MIC. */
  predicate Fits(f: seq<bv8>, hdrlen: nat, plen: nat) {
    24 <= hdrlen && 0 < |f| && Base(f, hdrlen) + plen + MIC_LEN <= |f|
  }

  /** Where the payload starts. */
  function Base(f: seq<bv8>, hdrlen: nat): nat
    requires 0 < |f|
  {
    AdjustedLen(f[0], hdrlen) + EXT_IV_LEN
  }

  function Header(f: seq<bv8>, hdrlen: nat): (hdr: seq<bv8>)
    requires 0 < |f| && Base(f, hdrlen) <= |f|
  {
    f[..Base(f, hdrlen)]
  }

  function Payload(f: seq<bv8>, hdrlen: nat, plen: nat): seq<bv8>
    requires Fits(f, hdrlen, plen)
  {
    f[Base(f, hdrlen)..Base(f, hdrlen) + plen]
  }

  function TagOf(f: seq<bv8>, hdrlen: nat, plen: nat): (t: seq<bv8>)
    requires Fits(f, hdrlen, plen)
    ensures |t| == MIC_LEN
  {
    f[Base(f, hdrlen) + plen..Base(f, hdrlen) + plen + MIC_LEN]
  }

  /** The nonce aes_cipher uses, and aes_decipher for the MIC: packet number after the whole header. */
  function SealNonce(f: seq<bv8>, hdrlen: nat): (n: Nonce)
    requires 24 <= hdrlen && 0 < |f| && Base(f, hdrlen) <= |f|
    ensures |n.pn| == 6
  {
    NonceAt(Header(f, hdrlen), hdrlen, AdjustedLen(f[0], hdrlen))
  }

  /** The nonce aes_decipher decrypts with: packet number read before the length is adjusted. */
  function OpenNonce(f: seq<bv8>, hdrlen: nat): (n: Nonce)
    requires 24 <= hdrlen && 0 < |f| && Base(f, hdrlen) <= |f|
    ensures |n.pn| == 6
  {
    NonceAt(Header(f, hdrlen), hdrlen, hdrlen)
  }

  /** Ciphertext and tag in place, for a settled header length and nonce. */
  function SealedAt(E: Block -> Block, f: seq<bv8>, hdrlen: nat, n: Nonce, plen: nat): (r: seq<bv8>)
    requires 24 <= hdrlen && |n.pn| == 6 && hdrlen + EXT_IV_LEN + plen + MIC_LEN <= |f|
    ensures |r| == |f|
  {
    var base := hdrlen + EXT_IV_LEN;
    var hdr, p := f[..base], f[base..base + plen];
    Splice(f, base, Ctr(KeyStream(E, hdr, n), p, 1) + Tag(E, hdr, n, hdrlen, p))
  }

  /** What aes_cipher makes of a frame. */
  function Seal(E: Block -> Block, f: seq<bv8>, hdrlen: nat, plen: nat): (r: seq<bv8>)
    requires Fits(f, hdrlen, plen)
  {
    SealedAt(E, f, AdjustedLen(f[0], hdrlen), SealNonce(f, hdrlen), plen)
  }

  /** The payload aes_decipher leaves in the frame. */
  function Opened(E: Block -> Block, f: seq<bv8>, hdrlen: nat, plen: nat): (p: seq<bv8>)
    requires Fits(f, hdrlen, plen)
    ensures |p| == plen
  {
    Ctr(KeyStream(E, Header(f, hdrlen), OpenNonce(f, hdrlen)), Payload(f, hdrlen, plen), 1)
  }

  /** What aes_decipher makes of a frame; the tag stays as received. */
  function OpenFrame(E: Block -> Block, f: seq<bv8>, hdrlen: nat, plen: nat): (r: seq<bv8>)
    requires Fits(f, hdrlen, plen)
    ensures |r| == |f|
  {
    Splice(f, Base(f, hdrlen), Opened(E, f, hdrlen, plen))
  }

  /** The frame is as long as the scratch buffer aes_decipher computes the tag in, or shorter. */
  predicate FitsScratch(f: seq<bv8>, hdrlen: nat, plen: nat)
    requires 0 < |f|
  {
    Base(f, hdrlen) + plen + MIC_LEN <= MAX_MSG_SIZE
  }

  /** `stale` is the scratch buffer with as much of what lies behind it as a frame of this size reaches. */
  predicate Covers(stale: seq<bv8>, f: seq<bv8>, hdrlen: nat, plen: nat)
    requires 0 < |f|
  {
    MAX_MSG_SIZE <= |stale| && Base(f, hdrlen) + plen + MIC_LEN <= |stale|
  }

  /** The verdict of aes_decipher when the scratch buffer holds `stale` at the call. */
  predicate Verdict(E: Block -> Block, f: seq<bv8>, hdrlen: nat, plen: nat, stale: seq<bv8>)
    requires Fits(f, hdrlen, plen) && Covers(stale, f, hdrlen, plen)
  {
    if FitsScratch(f, hdrlen, plen) then Accepted(E, f, hdrlen, plen)
    else StaleVerdict(E, f, hdrlen, plen, stale)
  }

  /** The verdict on a frame too long for the scratch buffer: the tag is computed over what the
      buffer held before. */
  predicate StaleVerdict(E: Block -> Block, f: seq<bv8>, hdrlen: nat, plen: nat, stale: seq<bv8>)
    requires Fits(f, hdrlen, plen) && Covers(stale, f, hdrlen, plen)
  {
    var base, hlen := Base(f, hdrlen), AdjustedLen(f[0], hdrlen);
    TagOf(f, hdrlen, plen) == Tag(E, stale[..base], SealNonce(f, hdrlen), hlen, stale[base..base + plen])
  }

  /** The verdict on a frame copied into the scratch buffer. */
  predicate Accepted(E: Block -> Block, f: seq<bv8>, hdrlen: nat, plen: nat)
    requires Fits(f, hdrlen, plen)
  {
    TagOf(f, hdrlen, plen) ==
    Tag(E, Header(f, hdrlen), SealNonce(f, hdrlen), AdjustedLen(f[0], hdrlen), Opened(E, f, hdrlen, plen))
  }

  // ---------------------------------------------------------------------------------------
  // Opening what was sealed
  // ---------------------------------------------------------------------------------------

  lemma MaskTwice(x: bv8, m: bv8)
    ensures (x ^ m) ^ m == x
  {
  }

  lemma {:induction false} XorTwice(a: seq<bv8>, b: seq<bv8>)
    requires |a| <= |b|
    ensures Xor(Xor(a, b), b) == a
  {
    if a != [] {
      XorTwice(a[1..], b[1..]);
      assert Xor(a, b)[1..] == Xor(a[1..], b[1..]);
      MaskTwice(a[0], b[0]);
    }
  }

  lemma {:induction false} CtrTwice(ks: nat -> Block, p: seq<bv8>, i: nat)
    ensures Ctr(ks, Ctr(ks, p, i), i) == p
    decreases |p|
  {
    if |p| < 16 {
      XorTwice(p, ks(i));
    } else {
      XorTwice(p[..16], ks(i));
      CtrTwice(ks, p[16..], i + 1);
      var c := Ctr(ks, p, i);
      assert c[..16] == Xor(p[..16], ks(i)) && c[16..] == Ctr(ks, p[16..], i + 1);
    }
  }

  /** Writing behind the header leaves it alone and puts payload and tag where they are read. */
  lemma SpliceParts(f: seq<bv8>, hdrlen: nat, p: seq<bv8>, tag: seq<bv8>)
    requires Fits(f, hdrlen, |p|) && |tag| == MIC_LEN
    ensures var r := Splice(f, Base(f, hdrlen), p + tag);
            && r[0] == f[0] && Fits(r, hdrlen, |p|)
            && Header(r, hdrlen) == Header(f, hdrlen)
            && Payload(r, hdrlen, |p|) == p && TagOf(r, hdrlen, |p|) == tag
  {
  }

  lemma SealedAtIs(E: Block -> Block, f: seq<bv8>, hdrlen: nat, n: Nonce, plen: nat, c: seq<bv8>, tag: seq<bv8>)
    requires 24 <= hdrlen && |n.pn| == 6 && hdrlen + EXT_IV_LEN + plen + MIC_LEN <= |f|
    requires var base := hdrlen + EXT_IV_LEN;
             var hdr, p := f[..base], f[base..base + plen];
             c == Ctr(KeyStream(E, hdr, n), p, 1) && tag == Tag(E, hdr, n, hdrlen, p)
    ensures SealedAt(E, f, hdrlen, n, plen) == Splice(f, hdrlen + EXT_IV_LEN, c + tag)
  {
  }

  lemma SealedParts(E: Block -> Block, f: seq<bv8>, hdrlen: nat, plen: nat)
    requires Fits(f, hdrlen, plen)
    ensures var g := Seal(E, f, hdrlen, plen);
            && g[0] == f[0] && Fits(g, hdrlen, plen) && Header(g, hdrlen) == Header(f, hdrlen)
            && Payload(g, hdrlen, plen)
              == Ctr(KeyStream(E, Header(f, hdrlen), SealNonce(f, hdrlen)), Payload(f, hdrlen, plen), 1)
            && TagOf(g, hdrlen, plen) ==
               Tag(E, Header(f, hdrlen), SealNonce(f, hdrlen), AdjustedLen(f[0], hdrlen), Payload(f, hdrlen, plen))
  {
    var hdr, n, p := Header(f, hdrlen), SealNonce(f, hdrlen), Payload(f, hdrlen, plen);
    var hlen := AdjustedLen(f[0], hdrlen);
    var c, tag := Ctr(KeyStream(E, hdr, n), p, 1), Tag(E, hdr, n, hlen, p);
    SealedAtIs(E, f, hlen, n, plen, c, tag);
    SpliceParts(f, hdrlen, c, tag);
  }

  /** The packet number is the same whether it is read before or after the length adjustment. */
  predicate SamePacketNumber(f: seq<bv8>, hdrlen: nat)
    requires 24 <= hdrlen && 0 < |f| && Base(f, hdrlen) <= |f|
  {
    PacketNumber(Header(f, hdrlen), hdrlen) == PacketNumber(Header(f, hdrlen), AdjustedLen(f[0], hdrlen))
  }

  /** Opening a sealed frame, with `stale` in the scratch buffer, succeeds and gives the payload back. */
  ghost predicate RoundTrips(E: Block -> Block, f: seq<bv8>, hdrlen: nat, plen: nat, stale: seq<bv8>)
    requires Fits(f, hdrlen, plen) && Covers(stale, f, hdrlen, plen)
  {
    var g := Seal(E, f, hdrlen, plen);
    && g[0] == f[0] && Fits(g, hdrlen, plen) && Verdict(E, g, hdrlen, plen, stale)
    && Opened(E, g, hdrlen, plen) == Payload(f, hdrlen, plen)
  }

  /** The payload that comes out of opening a sealed frame. */
  function Restored(E: Block -> Block, f: seq<bv8>, hdrlen: nat, plen: nat): (p: seq<bv8>)
    requires Fits(f, hdrlen, plen)
    ensures |p| == plen
  {
    SealedParts(E, f, hdrlen, plen);
    Opened(E, Seal(E, f, hdrlen, plen), hdrlen, plen)
  }

  lemma OpenInvertsSeal(E: Block -> Block, f: seq<bv8>, hdrlen: nat, plen: nat)
    requires Fits(f, hdrlen, plen) && (SamePacketNumber(f, hdrlen) || plen == 0)
    ensures var g := Seal(E, f, hdrlen, plen);
            && g[0] == f[0] && Fits(g, hdrlen, plen) && Accepted(E, g, hdrlen, plen)
            && Opened(E, g, hdrlen, plen) == Payload(f, hdrlen, plen)
  {
    var hdr, n, p := Header(f, hdrlen), SealNonce(f, hdrlen), Payload(f, hdrlen, plen);
    SealedParts(E, f, hdrlen, plen);
    if plen == 0 {
      assert Opened(E, Seal(E, f, hdrlen, plen), hdrlen, plen) == [] == p;
    } else {
      CtrTwice(KeyStream(E, hdr, n), p, 1);
    }
  }

  /** What every block cipher under a key is. */
  ghost predicate Injective(E: Block -> Block) {
    forall x: Block, y: Block :: E(x) == E(y) ==> x == y
  }

  lemma {:induction false} XorCommutes(a: seq<bv8>, b: seq<bv8>)
    requires |a| == |b|
    ensures Xor(a, b) == Xor(b, a)
  {
    if a != [] {
      XorCommutes(a[1..], b[1..]);
    }
  }

  lemma {:induction false} XorPrefix(a: seq<bv8>, b: seq<bv8>)
    requires |a| <= |b|
    ensures Xor(a, b) == Xor(a, b[..|a|])
  {
    if a != [] {
      XorPrefix(a[1..], b[1..]);
      assert b[..|a|][1..] == b[1..][..|a| - 1];
    }
  }

  lemma XorLeftCancels(a: seq<bv8>, b: seq<bv8>, c: seq<bv8>)
    requires |a| == |b| == |c| && Xor(a, b) == Xor(a, c)
    ensures b == c
  {
    XorCommutes(a, b);
    XorCommutes(a, c);
    XorTwice(b, a);
    XorTwice(c, a);
  }

  lemma CtrFront(ks: nat -> Block, p: seq<bv8>, n: nat)
    requires n == if |p| < 16 then |p| else 16
    ensures Ctr(ks, p, 1)[..n] == Xor(p[..n], ks(1)[..n])
  {
    XorPrefix(p[..n], ks(1));
    if |p| < 16 {
      assert p[..n] == p && Ctr(ks, p, 1)[..n] == Ctr(ks, p, 1);
    }
  }

  /** Two streams that undo each other agree on their first block, as far as the payload reaches. */
  lemma StreamsAgree(ks: nat -> Block, ks': nat -> Block, p: seq<bv8>, n: nat)
    requires n == if |p| < 16 then |p| else 16
    requires Ctr(ks', Ctr(ks, p, 1), 1) == p
    ensures ks(1)[..n] == ks'(1)[..n]
  {
    CtrTwice(ks', Ctr(ks, p, 1), 1);
    CtrFront(ks, p, n);
    CtrFront(ks', p, n);
    XorLeftCancels(p[..n], ks(1)[..n], ks'(1)[..n]);
  }

  lemma PartAt(b: Block, pn: seq<bv8>, i: nat)
    requires |pn| == 6 && i < 6 && b[8..14] == Backwards(pn)
    ensures b[13 - i] == pn[i]
  {
    assert b[13 - i] == b[8..14][5 - i];
  }

  lemma PreloadTellsNonces(hdr: seq<bv8>, a: Nonce, b: Nonce) returns (r: nat)
    requires |hdr| >= 32 && |a.pn| == 6 == |b.pn| && a.pn != b.pn
    ensures r < 16 && CtrPreload(hdr, a, 1)[r] != CtrPreload(hdr, b, 1)[r]
  {
    var i :| 0 <= i < 6 && a.pn[i] != b.pn[i];
    r := 13 - i;
    NonceParts(0x01, hdr, a, 1);
    NonceParts(0x01, hdr, b, 1);
    PartAt(CtrPreload(hdr, a, 1), a.pn, i);
    PartAt(CtrPreload(hdr, b, 1), b.pn, i);
  }

  /** When the two packet numbers differ, every injective block function, so every cipher under
      every key, makes a payload of a block or more come back wrong, whatever the scratch buffer holds. */
  lemma DifferentPacketNumberBreaks(E: Block -> Block, f: seq<bv8>, hdrlen: nat, plen: nat)
    requires Injective(E) && Fits(f, hdrlen, plen) && !SamePacketNumber(f, hdrlen) && plen >= 16
    ensures Restored(E, f, hdrlen, plen) != Payload(f, hdrlen, plen)
    ensures forall stale :: Covers(stale, f, hdrlen, plen) ==> !RoundTrips(E, f, hdrlen, plen, stale)
  {
    var hdr, n, m, p := Header(f, hdrlen), SealNonce(f, hdrlen), OpenNonce(f, hdrlen), Payload(f, hdrlen, plen);
    SealedParts(E, f, hdrlen, plen);
    if Restored(E, f, hdrlen, plen) == p {
      StreamsAgree(KeyStream(E, hdr, n), KeyStream(E, hdr, m), p, 16);
      SameFirstMask(E, hdr, n, m);
    }
  }

  lemma SameFirstMask(E: Block -> Block, hdr: seq<bv8>, n: Nonce, m: Nonce)
    requires Injective(E) && |hdr| >= 32 && |n.pn| == 6 == |m.pn|
    requires KeyStream(E, hdr, n)(1)[..16] == KeyStream(E, hdr, m)(1)[..16]
    ensures n.pn == m.pn
  {
    var x, y := CtrPreload(hdr, n, 1), CtrPreload(hdr, m, 1);
    assert E(x)[..16] == E(x) && E(y)[..16] == E(y);
    if n.pn != m.pn {
      var r := PreloadTellsNonces(hdr, n, m);
    }
  }

  /** An injective block function that brings byte r to the front. */
  function Rotate(r: nat): Block -> Block
    requires r < 16
  {
    (x: Block) => x[r..] + x[..r]
  }

  lemma RotateIsInjective(r: nat)
    requires r < 16
    ensures Injective(Rotate(r))
  {
    forall x: Block, y: Block | Rotate(r)(x) == Rotate(r)(y)
      ensures x == y
    {
      var u, v := x[r..] + x[..r], y[r..] + y[..r];
      assert x[r..] == u[..16 - r] == v[..16 - r] == y[r..];
      assert x[..r] == u[16 - r..] == v[16 - r..] == y[..r];
      assert x == x[..r] + x[r..] && y == y[..r] + y[r..];
    }
  }

  /** For shorter payloads too some injective block function shows it. */
  lemma RotationBreaks(f: seq<bv8>, hdrlen: nat, plen: nat) returns (r: nat)
    requires Fits(f, hdrlen, plen) && !SamePacketNumber(f, hdrlen) && plen > 0
    ensures r < 16 && Injective(Rotate(r)) && Restored(Rotate(r), f, hdrlen, plen) != Payload(f, hdrlen, plen)
  {
    var hdr, n, m, p := Header(f, hdrlen), SealNonce(f, hdrlen), OpenNonce(f, hdrlen), Payload(f, hdrlen, plen);
    r := PreloadTellsNonces(hdr, n, m);
    var E := Rotate(r);
    RotateIsInjective(r);
    SealedParts(E, f, hdrlen, plen);
    var ks, ks' := KeyStream(E, hdr, n), KeyStream(E, hdr, m);
    var k := if plen < 16 then plen else 16;
    assert ks(1)[..k][0] == CtrPreload(hdr, n, 1)[r] && ks'(1)[..k][0] == CtrPreload(hdr, m, 1)[r];
    if Restored(E, f, hdrlen, plen) == p {
      StreamsAgree(ks, ks', p, k);
    }
  }

  // ---------------------------------------------------------------------------------------
  // Frames longer than the scratch buffer
  // ---------------------------------------------------------------------------------------

  lemma CbcTellsStarts(E: Block -> Block, a: Block, b: Block, p: seq<bv8>)
    requires Injective(E) && CbcMac(E, a, p) == CbcMac(E, b, p)
    ensures a == b
    decreases |p|
  {
    if 0 < |p| < 16 {
      XorRightCancels(a, b, Padded(p));
    } else if p != [] {
      CbcTellsStarts(E, E(Xor(a, p[..16])), E(Xor(b, p[..16])), p[16..]);
      XorRightCancels(a, b, p[..16]);
    }
  }

  lemma XorRightCancels(a: seq<bv8>, b: seq<bv8>, c: seq<bv8>)
    requires |a| == |b| == |c| && Xor(a, c) == Xor(b, c)
    ensures a == b
  {
    XorTwice(a, c);
    XorTwice(b, c);
  }

  /** The first bytes of an injective block function are not always the same: sixteen bytes cannot
      be told by the other eight. */
  lemma PrefixVaries(F: Block -> Block, prefix: seq<bv8>) returns (b: Block)
    requires Injective(F) && |prefix| == MIC_LEN
    ensures F(b)[..MIC_LEN] != prefix
  {
    if !exists b: Block :: F(b)[..MIC_LEN] != prefix {
      var hole := (i: nat) => Counting.Number(F(Counting.Digits(i, 16))[MIC_LEN..]);
      var n := Counting.Strings(MIC_LEN);
      forall i: nat
        ensures hole(i) < n
      {
        assert |F(Counting.Digits(i, 16))[MIC_LEN..]| == MIC_LEN;
      }
      var i, j := Counting.Pigeonhole(hole, n);
      Counting.StringsGrow(MIC_LEN, 16);
      SameHoleSameBlock(F, prefix, i, j);
      assert false;
    }
    b :| F(b)[..MIC_LEN] != prefix;
  }

  lemma SameHoleSameBlock(F: Block -> Block, prefix: seq<bv8>, i: nat, j: nat)
    requires Injective(F) && forall b: Block :: F(b)[..MIC_LEN] == prefix
    requires i < Counting.Strings(16) && j < Counting.Strings(16)
    requires Counting.Number(F(Counting.Digits(i, 16))[MIC_LEN..])
             == Counting.Number(F(Counting.Digits(j, 16))[MIC_LEN..])
    ensures i == j
  {
    var x: Block, y: Block := Counting.Digits(i, 16), Counting.Digits(j, 16);
    Counting.DigitsOfNumber(F(x)[MIC_LEN..]);
    Counting.DigitsOfNumber(F(y)[MIC_LEN..]);
    assert F(x) == F(x)[..MIC_LEN] + F(x)[MIC_LEN..] && F(y) == F(y)[..MIC_LEN] + F(y)[MIC_LEN..];
    Counting.NumberOfDigits(i, 16);
    Counting.NumberOfDigits(j, 16);
  }

  /** The MIC after a first payload block b. */
  function FirstBlock(E: Block -> Block, start: Block, rest: seq<bv8>): Block -> Block {
    (b: Block) => CbcMac(E, start, b + rest)
  }

  lemma FirstBlockIsInjective(E: Block -> Block, start: Block, rest: seq<bv8>)
    requires Injective(E)
    ensures Injective(FirstBlock(E, start, rest))
  {
    forall x: Block, y: Block | FirstBlock(E, start, rest)(x) == FirstBlock(E, start, rest)(y)
      ensures x == y
    {
      assert (x + rest)[..16] == x && (x + rest)[16..] == rest == (y + rest)[16..] && (y + rest)[..16] == y;
      CbcTellsStarts(E, E(Xor(start, x)), E(Xor(start, y)), rest);
      XorLeftCancels(start, x, y);
    }
  }

  /** A frame too long for the scratch buffer is refused for some contents of the buffer, under any
      one cipher and key. */
  lemma LongFrameIsRefused(E: Block -> Block, g: seq<bv8>, hdrlen: nat, plen: nat) returns (stale: seq<bv8>)
    requires Injective(E) && Fits(g, hdrlen, plen) && !FitsScratch(g, hdrlen, plen) && plen >= 16
    ensures Covers(stale, g, hdrlen, plen) && !Verdict(E, g, hdrlen, plen, stale)
  {
    var base, hlen, n := Base(g, hdrlen), AdjustedLen(g[0], hdrlen), SealNonce(g, hdrlen);
    var hdr, rest := Zeros(base), Zeros(plen - 16);
    var start, mask := HeaderMac(E, hdr, n, hlen, plen), E(CtrPreload(hdr, n, 0));
    FirstBlockIsInjective(E, start, rest);
    var b := PrefixVaries(FirstBlock(E, start, rest), Xor(TagOf(g, hdrlen, plen), mask));
    stale := hdr + (b + rest) + Zeros(MIC_LEN);
    BufferParts(hdr, b + rest, Zeros(MIC_LEN));
    TagDiffers(E, hdr, n, hlen, b + rest, TagOf(g, hdrlen, plen), mask);
    OtherTagIsRefused(E, g, hdrlen, plen, stale, hdr, b + rest);
  }

  lemma BufferParts(hdr: seq<bv8>, p: seq<bv8>, tail: seq<bv8>)
    ensures (hdr + p + tail)[..|hdr|] == hdr && (hdr + p + tail)[|hdr|..|hdr| + |p|] == p
  {
  }

  lemma TagDiffers(E: Block -> Block, hdr: seq<bv8>, n: Nonce, hlen: nat, p: seq<bv8>, tag: seq<bv8>, mask: Block)
    requires |hdr| >= 32 && |n.pn| == 6 && hlen >= 24 && |tag| == MIC_LEN && mask == E(CtrPreload(hdr, n, 0))
    requires Mic(E, hdr, n, hlen, p) != Xor(tag, mask)
    ensures Tag(E, hdr, n, hlen, p) != tag
  {
    XorTwice(Mic(E, hdr, n, hlen, p), mask);
  }

  lemma OtherTagIsRefused(E: Block -> Block, g: seq<bv8>, hdrlen: nat, plen: nat, stale: seq<bv8>, hdr: seq<bv8>,
                          p: seq<bv8>)
    requires Fits(g, hdrlen, plen) && !FitsScratch(g, hdrlen, plen) && Covers(stale, g, hdrlen, plen)
    requires hdr == stale[..Base(g, hdrlen)] && p == stale[Base(g, hdrlen)..Base(g, hdrlen) + plen]
    requires Tag(E, hdr, SealNonce(g, hdrlen), AdjustedLen(g[0], hdrlen), p) != TagOf(g, hdrlen, plen)
    ensures !Verdict(E, g, hdrlen, plen, stale)
  {
  }

  /** Under the identity the first byte of the MIC carries the first byte it started from. */
  lemma CbcKeepsFirst(a: Block, b: Block, p: seq<bv8>)
    requires a[0] != b[0]
    ensures CbcMac(Rotate(0), a, p)[0] != CbcMac(Rotate(0), b, p)[0]
    decreases |p|
  {
    if 0 < |p| < 16 {
      XorFirst(a, b, Padded(p));
    } else if p != [] {
      XorFirst(a, b, p[..16]);
      CbcKeepsFirst(Rotate(0)(Xor(a, p[..16])), Rotate(0)(Xor(b, p[..16])), p[16..]);
    }
  }

  lemma XorFirst(a: Block, b: Block, c: Block)
    requires a[0] != b[0]
    ensures Xor(a, c)[0] != Xor(b, c)[0] && Xor(c, a)[0] != Xor(c, b)[0]
  {
    BitsDiffer(a[0], b[0], c[0]);
  }

  lemma BitsDiffer(a: bv8, b: bv8, c: bv8)
    requires a != b
    ensures a ^ c != b ^ c && c ^ a != c ^ b
  {
  }

  /** What a header with another first byte in its third address changes. */
  lemma OtherThirdAddress(hdr: seq<bv8>, x: bv8, n: Nonce, hdrlen: nat, plen: nat)
    requires |hdr| >= 32 && |n.pn| == 6 && hdrlen >= 24 && x != hdr[16]
    ensures var other := hdr[16 := x];
            && MicIv(other, n, plen) == MicIv(hdr, n, plen) && CtrPreload(other, n, 0) == CtrPreload(hdr, n, 0)
            && MicHeader1(other, hdrlen) == MicHeader1(hdr, hdrlen)
            && MicHeader2(other, n)[0] != MicHeader2(hdr, n)[0]
  {
    var other := hdr[16 := x];
    assert other[10..16] == hdr[10..16] && other[4..16] == hdr[4..16];
    assert MicHeader2(other, n)[0] == other[16..22][0] && MicHeader2(hdr, n)[0] == hdr[16..22][0];
  }

  /** Under the identity such a header has another tag. */
  lemma ThirdAddressShows(hdr: seq<bv8>, x: bv8, n: Nonce, hdrlen: nat, p: seq<bv8>)
    requires |hdr| >= 32 && |n.pn| == 6 && hdrlen >= 24 && x != hdr[16]
    ensures Tag(Rotate(0), hdr, n, hdrlen, p) != Tag(Rotate(0), hdr[16 := x], n, hdrlen, p)
  {
    var E, other := Rotate(0), hdr[16 := x];
    OtherThirdAddress(hdr, x, n, hdrlen, |p|);
    var a, b := HeaderMac(E, hdr, n, hdrlen, |p|), HeaderMac(E, other, n, hdrlen, |p|);
    var chain := E(Xor(E(MicIv(hdr, n, |p|)), MicHeader1(hdr, hdrlen)));
    assert a[0] != b[0] by {
      XorFirst(MicHeader2(hdr, n), MicHeader2(other, n), chain);
    }
    CbcKeepsFirst(a, b, p);
    MaskedDiffer(CbcMac(E, a, p), CbcMac(E, b, p), E(CtrPreload(hdr, n, 0)));
  }

  lemma MaskedDiffer(a: Block, b: Block, mask: Block)
    requires a[0] != b[0]
    ensures Xor(a[..MIC_LEN], mask) != Xor(b[..MIC_LEN], mask)
  {
    XorTwice(a[..MIC_LEN], mask);
    XorTwice(b[..MIC_LEN], mask);
    assert a[..MIC_LEN][0] != b[..MIC_LEN][0];
  }

  /** Two buffers that differ in one byte have different tags under the identity. */
  lemma TwoTags(n: Nonce, hdrlen: nat, base: nat, plen: nat, len: nat) returns (a: seq<bv8>, b: seq<bv8>)
    requires |n.pn| == 6 && hdrlen >= 24 && 32 <= base && base + plen <= len
    ensures |a| == |b| == len
    ensures Tag(Rotate(0), a[..base], n, hdrlen, a[base..base + plen])
            != Tag(Rotate(0), b[..base], n, hdrlen, b[base..base + plen])
  {
    a, b := Zeros(len), Zeros(len)[16 := 1];
    assert b[..base] == a[..base][16 := 1] && b[base..base + plen] == a[base..base + plen];
    ThirdAddressShows(a[..base], 1, n, hdrlen, a[base..base + plen]);
  }

  /** Buffers with different tags are not both accepted. */
  lemma OneIsRefused(E: Block -> Block, g: seq<bv8>, hdrlen: nat, plen: nat, a: seq<bv8>, b: seq<bv8>)
    requires Fits(g, hdrlen, plen) && !FitsScratch(g, hdrlen, plen)
    requires Covers(a, g, hdrlen, plen) && Covers(b, g, hdrlen, plen)
    requires var n, hlen, base := SealNonce(g, hdrlen), AdjustedLen(g[0], hdrlen), Base(g, hdrlen);
             Tag(E, a[..base], n, hlen, a[base..base + plen]) != Tag(E, b[..base], n, hlen, b[base..base + plen])
    ensures !Verdict(E, g, hdrlen, plen, a) || !Verdict(E, g, hdrlen, plen, b)
  {
  }

  /** Any payload length: some injective block function refuses a frame too long for the buffer. */
  lemma LongFrameIsRefusedBySome(g: seq<bv8>, hdrlen: nat, plen: nat) returns (stale: seq<bv8>)
    requires Fits(g, hdrlen, plen) && !FitsScratch(g, hdrlen, plen)
    ensures Covers(stale, g, hdrlen, plen) && !Verdict(Rotate(0), g, hdrlen, plen, stale)
  {
    var base := Base(g, hdrlen);
    var a, b := TwoTags(SealNonce(g, hdrlen), AdjustedLen(g[0], hdrlen), base, plen, base + plen + MIC_LEN);
    OneIsRefused(Rotate(0), g, hdrlen, plen, a, b);
    stale := if Verdict(Rotate(0), g, hdrlen, plen, a) then b else a;
  }

  // ---------------------------------------------------------------------------------------
  // When sealed frames can be opened
  // ---------------------------------------------------------------------------------------

  /** For a payload of a block or more and any one cipher under any key: whatever the scratch buffer
      holds, exactly when the frame fits that buffer and the packet number reads the same at both
      header lengths. */
  lemma RoundTripExactlyFor(E: Block -> Block, f: seq<bv8>, hdrlen: nat, plen: nat)
    requires Injective(E) && Fits(f, hdrlen, plen) && plen >= 16
    ensures (forall stale :: Covers(stale, f, hdrlen, plen) ==> RoundTrips(E, f, hdrlen, plen, stale)) <==>
            FitsScratch(f, hdrlen, plen) && SamePacketNumber(f, hdrlen)
  {
    SealedParts(E, f, hdrlen, plen);
    if !SamePacketNumber(f, hdrlen) {
      DifferentPacketNumberBreaks(E, f, hdrlen, plen);
      assert Covers(Zeros(MAX_MSG_SIZE + |f|), f, hdrlen, plen);
    } else if FitsScratch(f, hdrlen, plen) {
      OpenInvertsSeal(E, f, hdrlen, plen);
    } else {
      var stale := LongFrameIsRefused(E, Seal(E, f, hdrlen, plen), hdrlen, plen);
      assert Covers(stale, f, hdrlen, plen);
    }
  }

  /** Sealed frames can be opened under every cipher and whatever the scratch buffer holds, exactly
      when the frame fits that buffer and has no payload or the same packet number at both header
      lengths. */
  lemma RoundTripExactly(f: seq<bv8>, hdrlen: nat, plen: nat)
    requires Fits(f, hdrlen, plen)
    ensures (forall E: Block -> Block, stale :: Injective(E) && Covers(stale, f, hdrlen, plen) ==>
                                                  RoundTrips(E, f, hdrlen, plen, stale)) <==>
            FitsScratch(f, hdrlen, plen) && (plen == 0 || SamePacketNumber(f, hdrlen))
  {
    if !FitsScratch(f, hdrlen, plen) {
      SealedParts(Rotate(0), f, hdrlen, plen);
      RotateIsInjective(0);
      var stale := LongFrameIsRefusedBySome(Seal(Rotate(0), f, hdrlen, plen), hdrlen, plen);
      assert !RoundTrips(Rotate(0), f, hdrlen, plen, stale);
    } else if plen == 0 || SamePacketNumber(f, hdrlen) {
      forall E: Block -> Block, stale | Injective(E) && Covers(stale, f, hdrlen, plen)
        ensures RoundTrips(E, f, hdrlen, plen, stale)
      {
        OpenInvertsSeal(E, f, hdrlen, plen);
      }
    } else {
      var r := RotationBreaks(f, hdrlen, plen);
      assert !RoundTrips(Rotate(r), f, hdrlen, plen, Zeros(MAX_MSG_SIZE));
    }
  }

  function Zeros(n: nat): (z: seq<bv8>)
    ensures |z| == n && forall i :: 0 <= i < n ==> z[i] == 0
  {
    seq(n, _ => 0)
  }

  /** A QoS data frame with four addresses, so a header of 32 bytes as the caller counts it. */
  function QosFrame(): (f: seq<bv8>)
    ensures |f| == 66 && f[0] == 0x88 && f[32] == 0 && f[34] == 1
  {
    [0x88] + Zeros(33) + [1] + Zeros(31)
  }

  /** It has a sixteen-byte payload that no cipher under any key restores. */
  lemma QosFrameIsNotRestored(E: Block -> Block)
    requires Injective(E)
    ensures Fits(QosFrame(), 32, 16) && FitsScratch(QosFrame(), 32, 16)
    ensures Restored(E, QosFrame(), 32, 16) != Payload(QosFrame(), 32, 16)
  {
    var f := QosFrame();
    assert QosSubtype(f[0]) && Base(f, 32) == 42;
    var hdr := Header(f, 32);
    assert PacketNumber(hdr, 32)[0] == f[32] && PacketNumber(hdr, 34)[0] == f[34];
    DifferentPacketNumberBreaks(E, f, 32, 16);
  }

  /** A data frame one byte longer than the scratch buffer. */
  function LongFrame(): (f: seq<bv8>)
    ensures |f| == MAX_MSG_SIZE + 1 && f[0] == 0x08
  {
    [0x08] + Zeros(MAX_MSG_SIZE)
  }

  /** Its packet number reads the same, and yet every cipher under every key refuses it once it has
      been sealed, for some contents of the scratch buffer. */
  lemma LongFrameIsNotOpened(E: Block -> Block) returns (stale: seq<bv8>)
    requires Injective(E)
    ensures Fits(LongFrame(), 24, 2009) && SamePacketNumber(LongFrame(), 24)
    ensures Covers(stale, LongFrame(), 24, 2009) && !RoundTrips(E, LongFrame(), 24, 2009, stale)
  {
    var f := LongFrame();
    assert !QosSubtype(f[0]) && Base(f, 24) == 32;
    SealedParts(E, f, 24, 2009);
    stale := LongFrameIsRefused(E, Seal(E, f, 24, 2009), 24, 2009);
  }

  /** The header lengths the driver uses for non-QoS frames, and 26 for QoS frames, are safe. */
  lemma UnadjustedIsSafe(f: seq<bv8>, hdrlen: nat, plen: nat)
    requires Fits(f, hdrlen, plen) && (!QosSubtype(f[0]) || hdrlen == WLAN_HDR_A3_QOS_LEN)
    ensures SamePacketNumber(f, hdrlen)
  {
  }

  /** g is what aes_cipher makes of some frame. */
  ghost predicate IsSealed(E: Block -> Block, g: seq<bv8>, hdrlen: nat, plen: nat) {
    exists f :: Fits(f, hdrlen, plen) && SamePacketNumber(f, hdrlen) && Seal(E, f, hdrlen, plen) == g
  }

  /** For every block function, aes_decipher accepts among the frames that fit the scratch buffer
      exactly those aes_cipher can produce, whatever the buffer holds, and the frame it leaves
      behind seals to the one received. */
  lemma AcceptsExactlySealed(E: Block -> Block, g: seq<bv8>, hdrlen: nat, plen: nat, stale: seq<bv8>)
    requires Fits(g, hdrlen, plen) && SamePacketNumber(g, hdrlen) && Covers(stale, g, hdrlen, plen)
    ensures FitsScratch(g, hdrlen, plen) ==>
              (Verdict(E, g, hdrlen, plen, stale) <==> IsSealed(E, g, hdrlen, plen))
    ensures FitsScratch(g, hdrlen, plen) && Verdict(E, g, hdrlen, plen, stale) ==>
              var f := OpenFrame(E, g, hdrlen, plen);
              Fits(f, hdrlen, plen) && Seal(E, f, hdrlen, plen) == g
  {
    if Accepted(E, g, hdrlen, plen) {
      SealUndoesOpen(E, g, hdrlen, plen);
      var f := OpenFrame(E, g, hdrlen, plen);
      assert SamePacketNumber(f, hdrlen);
    }
    if f :| Fits(f, hdrlen, plen) && SamePacketNumber(f, hdrlen) && Seal(E, f, hdrlen, plen) == g {
      OpenInvertsSeal(E, f, hdrlen, plen);
    }
  }

  /** Under any one cipher and key a frame with a payload of a block or more is accepted whatever the
      scratch buffer holds exactly when it fits the buffer and is sealed. */
  lemma AlwaysAcceptedExactly(E: Block -> Block, g: seq<bv8>, hdrlen: nat, plen: nat)
    requires Injective(E) && Fits(g, hdrlen, plen) && SamePacketNumber(g, hdrlen) && plen >= 16
    ensures (forall stale :: Covers(stale, g, hdrlen, plen) ==> Verdict(E, g, hdrlen, plen, stale)) <==>
            FitsScratch(g, hdrlen, plen) && IsSealed(E, g, hdrlen, plen)
  {
    if FitsScratch(g, hdrlen, plen) {
      var some := Zeros(MAX_MSG_SIZE);
      AcceptsExactlySealed(E, g, hdrlen, plen, some);
      assert Covers(some, g, hdrlen, plen);
    } else {
      var stale := LongFrameIsRefused(E, g, hdrlen, plen);
    }
  }

  lemma SealUndoesOpen(E: Block -> Block, g: seq<bv8>, hdrlen: nat, plen: nat)
    requires Fits(g, hdrlen, plen) && SamePacketNumber(g, hdrlen) && Accepted(E, g, hdrlen, plen)
    ensures var f := OpenFrame(E, g, hdrlen, plen);
            f[0] == g[0] && Fits(f, hdrlen, plen) && Header(f, hdrlen) == Header(g, hdrlen)
            && Seal(E, f, hdrlen, plen) == g
  {
    var f, p, tag := OpenFrame(E, g, hdrlen, plen), Opened(E, g, hdrlen, plen), TagOf(g, hdrlen, plen);
    OpenedParts(g, hdrlen, p);
    CtrTwice(KeyStream(E, Header(g, hdrlen), SealNonce(g, hdrlen)), Payload(g, hdrlen, plen), 1);
    SpliceBack(g, hdrlen, p);
  }

  lemma OpenedParts(g: seq<bv8>, hdrlen: nat, p: seq<bv8>)
    requires Fits(g, hdrlen, |p|)
    ensures var f := Splice(g, Base(g, hdrlen), p);
            && f[0] == g[0] && Fits(f, hdrlen, |p|)
            && Header(f, hdrlen) == Header(g, hdrlen)
            && Payload(f, hdrlen, |p|) == p && TagOf(f, hdrlen, |p|) == TagOf(g, hdrlen, |p|)
  {
  }

  lemma SpliceBack(g: seq<bv8>, hdrlen: nat, p: seq<bv8>)
    requires Fits(g, hdrlen, |p|)
    ensures var f, base := Splice(g, Base(g, hdrlen), p), Base(g, hdrlen);
            Splice(f, base, Payload(g, hdrlen, |p|) + TagOf(g, hdrlen, |p|)) == g
  {
  }
}
