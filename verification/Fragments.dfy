/** The per-fragment bodies of WEP and TKIP encryption and decryption in core/rtw_security.c. */
module Fragments {
  import opened Buffers
  import opened Rc4
  import Crc32
  import TkipMix

  const ICV_LEN := 4

  /** Any integrity check value computed from the plain text. */
  type IcvFunction = seq<byte> -> Icv

  type Icv = v: seq<byte> | |v| == ICV_LEN witness [0, 0, 0, 0]

  // ---------------------------------------------------------------------------------------
  // Bodies
  // ---------------------------------------------------------------------------------------

  /** Payload and ICV under the stream that starts at c. */
  function SealedFrom(next: Context -> (Context, byte), c: Context, icv: IcvFunction, p: seq<byte>): (r: seq<byte>)
    ensures |r| == |p| + ICV_LEN
  {
    Crypt(next, c, p + icv(p)).1
  }

  function Sealed(icv: IcvFunction, key: seq<byte>, p: seq<byte>): (r: seq<byte>)
    requires key != []
    ensures |r| == |p| + ICV_LEN
  {
    SealedFrom(Next, Init(key), icv, p)
  }

  function Opened(key: seq<byte>, r: seq<byte>): (m: seq<byte>)
    requires key != []
    ensures |m| == |r|
  {
    Crypt(Next, Init(key), r).1
  }

  /** The comparison at the end of decryption. */
  predicate IcvPasses(icv: IcvFunction, m: seq<byte>)
    requires ICV_LEN <= |m|
  {
    m[|m| - ICV_LEN..] == icv(m[..|m| - ICV_LEN])
  }

  lemma PlainPasses(icv: IcvFunction, p: seq<byte>)
    ensures (p + icv(p))[..|p|] == p && IcvPasses(icv, p + icv(p))
  {
  }

  lemma PassingIsPlain(icv: IcvFunction, m: seq<byte>)
    requires ICV_LEN <= |m| && IcvPasses(icv, m)
    ensures m == m[..|m| - ICV_LEN] + icv(m[..|m| - ICV_LEN])
  {
  }

  /** Opening a sealed body gives back the payload, followed by an ICV that passes. */
  lemma OpenSealed(icv: IcvFunction, key: seq<byte>, p: seq<byte>)
    requires key != []
    ensures Opened(key, Sealed(icv, key, p)) == p + icv(p)
    ensures IcvPasses(icv, Opened(key, Sealed(icv, key, p)))
  {
    CryptTwice(Next, Init(key), p + icv(p));
    PlainPasses(icv, p);
  }

  lemma PassingWasSealed(next: Context -> (Context, byte), c: Context, icv: IcvFunction, r: seq<byte>)
    requires ICV_LEN <= |r| && IcvPasses(icv, Crypt(next, c, r).1)
    ensures r == SealedFrom(next, c, icv, Crypt(next, c, r).1[..|r| - ICV_LEN])
  {
    CryptTwice(next, c, r);
    PassingIsPlain(icv, Crypt(next, c, r).1);
  }

  /** The ICV passes exactly on bodies that were sealed with this key. */
  lemma PassesExactlyWhenSealed(icv: IcvFunction, key: seq<byte>, r: seq<byte>)
    requires key != [] && ICV_LEN <= |r|
    ensures IcvPasses(icv, Opened(key, r)) <==> exists p: seq<byte> :: r == Sealed(icv, key, p)
    ensures IcvPasses(icv, Opened(key, r)) ==> r == Sealed(icv, key, Opened(key, r)[..|r| - ICV_LEN])
  {
    if IcvPasses(icv, Opened(key, r)) {
      PassingWasSealed(Next, Init(key), icv, r);
      assert r == Sealed(icv, key, Opened(key, r)[..|r| - ICV_LEN]);
    }
    if p: seq<byte> :| r == Sealed(icv, key, p) {
      OpenSealed(icv, key, p);
    }
  }

  // ---------------------------------------------------------------------------------------
  // In place
  // ---------------------------------------------------------------------------------------

  /** Two pieces of one key stream, one behind the other. */
  method EncryptBoth(context: Arc4Context, frame: array<byte>, at: nat, a: seq<byte>, b: seq<byte>)
    requires context.Valid() && frame != context.state && at + |a| + |b| <= frame.Length
    modifies context`x, context`y, context.state, frame
    ensures frame[..] == Splice(old(frame[..]), at, Crypt(Next, old(context.View()), a + b).1)
  {
    ghost var f, c := frame[..], context.View();
    context.Encrypt(frame, at, a);
    ghost var f1 := frame[..];
    context.Encrypt(frame, at + |a|, b);
    TwoPieces(Next, c, a, b, f, at, f1, frame[..]);
  }

  /** The checksum of the payload, then payload and ICV in two pieces of one key stream. */
  method SealFrom(icv: IcvFunction, context: Arc4Context, frame: array<byte>, payload: nat, length: nat)
    requires context.Valid() && frame != context.state && payload + length + ICV_LEN <= frame.Length
    modifies context`x, context`y, context.state, frame
    ensures frame[..] == Splice(old(frame[..]), payload,
                                SealedFrom(Next, old(context.View()), icv, old(frame[..])[payload..payload + length]))
  {
    var p := frame[..][payload..payload + length];
    var crc := icv(p);
    EncryptBoth(context, frame, payload, p, crc);
  }

  /** One fragment of rtw_wep_encrypt or rtw_tkip_encrypt: checksum, then two pieces of one key
      stream, the payload and behind it the ICV. */
  method SealFragment(icv: IcvFunction, key: seq<byte>, frame: array<byte>, payload: nat, length: nat)
    requires key != [] && payload + length + ICV_LEN <= frame.Length
    modifies frame
    ensures frame[..] == Splice(old(frame[..]), payload, Sealed(icv, key, old(frame[..])[payload..payload + length]))
  {
    var mycontext := new Arc4Context(key);
    SealFrom(icv, mycontext, frame, payload, length);
  }

  lemma TwoPieces(next: Context -> (Context, byte), c: Context, a: seq<byte>, b: seq<byte>,
                  f: seq<byte>, at: nat, f1: seq<byte>, f2: seq<byte>)
    requires at + |a| + |b| <= |f| && f1 == Splice(f, at, Crypt(next, c, a).1)
    requires f2 == Splice(f1, at + |a|, Crypt(next, Crypt(next, c, a).0, b).1)
    ensures f2 == Splice(f, at, Crypt(next, c, a + b).1)
  {
    var first := Crypt(next, c, a);
    CryptInPieces(next, c, a, b);
    SpliceTwice(f, at, first.1, at + |a|, Crypt(next, first.0, b).1);
  }

  /** The whole of rtw_wep_decrypt and the body of rtw_tkip_decrypt; the length counts the ICV. */
  method OpenFragment(icv: IcvFunction, key: seq<byte>, frame: array<byte>, payload: nat,
                      length: nat) returns (ok: bool)
    requires key != [] && ICV_LEN <= length && payload + length <= frame.Length
    modifies frame
    ensures var c := old(frame[..])[payload..payload + length];
            && frame[..] == Splice(old(frame[..]), payload, Opened(key, c))
            && ok == IcvPasses(icv, Opened(key, c))
  {
    ghost var f := old(frame[..]);
    var c := frame[payload..payload + length];
    assert c == f[payload..payload + length];
    var mycontext := new Arc4Context(key);
    mycontext.Encrypt(frame, payload, c);
    ok := Compare(icv, frame, payload, length, Opened(key, c), f);
  }

  method Compare(icv: IcvFunction, frame: array<byte>, payload: nat, length: nat, ghost m: seq<byte>,
                 ghost f: seq<byte>)
      returns (ok: bool)
    requires ICV_LEN <= length == |m| && payload + length <= frame.Length == |f|
    requires frame[..] == Splice(f, payload, m)
    ensures ok == IcvPasses(icv, m)
  {
    var k := length - ICV_LEN;
    SpliceSlices(f, payload, m, k);
    var plain, found := frame[..][payload..payload + k], frame[..][payload + k..payload + length];
    ok := found == icv(plain);
  }

  lemma SpliceSlices(f: seq<byte>, at: nat, m: seq<byte>, k: nat)
    requires at + |m| <= |f| && k <= |m|
    ensures Splice(f, at, m)[at..at + k] == m[..k] && Splice(f, at, m)[at + k..at + |m|] == m[k..]
  {
  }

  // ---------------------------------------------------------------------------------------
  // Keys
  // ---------------------------------------------------------------------------------------

  /** The CRC-32 as it is sent, lowest byte first. */
  function CrcIcv(p: seq<byte>): Icv {
    var w := Crc32.Checksum(p);
    [Crc32.OctetValue(w[0..8]), Crc32.OctetValue(w[8..16]), Crc32.OctetValue(w[16..24]), Crc32.OctetValue(w[24..32])]
  }

  /** The WEP seed: three IV bytes from the frame, then the default key. */
  function WepSeed(frame: seq<byte>, hdrlen: nat, key: seq<byte>): (seed: seq<byte>)
    requires hdrlen + 3 <= |frame|
    ensures seed != []
  {
    frame[hdrlen..hdrlen + 3] + key
  }

  /** GET_TKIP_PN: the 48-bit sequence counter in the IV and extended IV. */
  function TkipPacket(frame: seq<byte>, hdrlen: nat, ta: seq<byte>): TkipMix.Packet
    requires hdrlen + 8 <= |frame|
  {
    var hi := TkipMix.JoinIv(TkipMix.Mk16(frame[hdrlen + 5], frame[hdrlen + 4]),
                             TkipMix.Mk16(frame[hdrlen + 7], frame[hdrlen + 6]));
    TkipMix.Packet(ta, hi, TkipMix.Mk16(frame[hdrlen], frame[hdrlen + 2]))
  }

  function TkipSeed(S: TkipMix.Word -> TkipMix.Word, tk: TkipMix.TemporalKey, frame: seq<byte>, hdrlen: nat,
                    ta: seq<byte>): (seed: seq<byte>)
    requires hdrlen + 8 <= |frame| && |ta| == 6
    ensures |seed| == 16
  {
    TkipMix.PacketKey(S, tk, TkipPacket(frame, hdrlen, ta))
  }

  /** Sealing leaves everything before the payload alone. */
  lemma SealedFrame(f: seq<byte>, payload: nat, r: seq<byte>)
    requires payload + |r| <= |f|
    ensures Splice(f, payload, r)[..payload] == f[..payload]
    ensures Splice(f, payload, r)[payload..payload + |r|] == r
  {
  }

  /** The receiver's body is the plain text with an ICV that passes. */
  ghost predicate Delivers(icv: IcvFunction, key: seq<byte>, r: seq<byte>, p: seq<byte>)
    requires key != []
  {
    Opened(key, r) == p + icv(p) && IcvPasses(icv, Opened(key, r))
  }

  lemma SealedDelivers(icv: IcvFunction, key: seq<byte>, f: seq<byte>, payload: nat, p: seq<byte>, g: seq<byte>)
    requires key != [] && payload + |p| + ICV_LEN <= |f| && g == Splice(f, payload, Sealed(icv, key, p))
    ensures Delivers(icv, key, g[payload..payload + |p| + ICV_LEN], p)
  {
    SealedFrame(f, payload, Sealed(icv, key, p));
    OpenSealed(icv, key, p);
  }

  lemma SameFront(f: seq<byte>, g: seq<byte>, n: nat)
    requires n <= |f| && n <= |g| && g[..n] == f[..n]
    ensures forall i :: 0 <= i < n ==> f[i] == g[i]
  {
    forall i | 0 <= i < n ensures f[i] == g[i] {
      assert f[i] == f[..n][i] == g[..n][i] == g[i];
    }
  }

  lemma SameTkipSeed(S: TkipMix.Word -> TkipMix.Word, tk: TkipMix.TemporalKey, f: seq<byte>, g: seq<byte>,
                     hdrlen: nat, ta: seq<byte>, n: nat)
    requires |ta| == 6 && hdrlen + 8 <= n <= |f| && n <= |g| && g[..n] == f[..n]
    ensures TkipSeed(S, tk, g, hdrlen, ta) == TkipSeed(S, tk, f, hdrlen, ta)
  {
    SameFront(f, g, n);
    assert TkipPacket(g, hdrlen, ta) == TkipPacket(f, hdrlen, ta);
  }

  lemma SameWepSeed(f: seq<byte>, g: seq<byte>, hdrlen: nat, key: seq<byte>, n: nat)
    requires hdrlen + 3 <= n <= |f| && n <= |g| && g[..n] == f[..n]
    ensures WepSeed(g, hdrlen, key) == WepSeed(f, hdrlen, key)
  {
    assert g[hdrlen..hdrlen + 3] == g[..n][hdrlen..hdrlen + 3];
    assert f[hdrlen..hdrlen + 3] == f[..n][hdrlen..hdrlen + 3];
  }

  /** A TKIP frame sealed and opened with the same temporal key and transmitter: the receiver reads
      the same seed from the frame, recovers the payload and accepts it. */
  lemma TkipRoundTrip(S: TkipMix.Word -> TkipMix.Word, tk: TkipMix.TemporalKey, ta: seq<byte>, icv: IcvFunction,
                      f: seq<byte>, hdrlen: nat, payload: nat, p: seq<byte>, g: seq<byte>)
    requires |ta| == 6 && hdrlen + 8 <= payload && payload + |p| + ICV_LEN <= |f|
    requires g == Splice(f, payload, Sealed(icv, TkipSeed(S, tk, f, hdrlen, ta), p))
    ensures Delivers(icv, TkipSeed(S, tk, g, hdrlen, ta), g[payload..payload + |p| + ICV_LEN], p)
  {
    var seed := TkipSeed(S, tk, f, hdrlen, ta);
    SealedFrame(f, payload, Sealed(icv, seed, p));
    SameTkipSeed(S, tk, f, g, hdrlen, ta, payload);
    SealedDelivers(icv, seed, f, payload, p, g);
  }

  /** The same for WEP. */
  lemma WepRoundTrip(key: seq<byte>, icv: IcvFunction, f: seq<byte>, hdrlen: nat, payload: nat, p: seq<byte>,
                     g: seq<byte>)
    requires hdrlen + 3 <= payload && payload + |p| + ICV_LEN <= |f|
    requires g == Splice(f, payload, Sealed(icv, WepSeed(f, hdrlen, key), p))
    ensures Delivers(icv, WepSeed(g, hdrlen, key), g[payload..payload + |p| + ICV_LEN], p)
  {
    var seed := WepSeed(f, hdrlen, key);
    SealedFrame(f, payload, Sealed(icv, seed, p));
    SameWepSeed(f, g, hdrlen, key, payload);
    SealedDelivers(icv, seed, f, payload, p, g);
  }

  /** With the driver's own ICV: what was sealed is delivered, and only what was sealed passes. */
  lemma CrcGuardsFragments(key: seq<byte>, p: seq<byte>, r: seq<byte>)
    requires key != [] && ICV_LEN <= |r|
    ensures Delivers(CrcIcv, key, Sealed(CrcIcv, key, p), p)
    ensures IcvPasses(CrcIcv, Opened(key, r)) <==> exists q: seq<byte> :: r == Sealed(CrcIcv, key, q)
  {
    OpenSealed(CrcIcv, key, p);
    PassesExactlyWhenSealed(CrcIcv, key, r);
  }

  // ---------------------------------------------------------------------------------------
  // What the seeds keep apart
  // ---------------------------------------------------------------------------------------

  /** A WEP seed tells the IV in the frame and the key. */
  lemma WepSeedTells(f: seq<byte>, g: seq<byte>, hdrlen: nat, key: seq<byte>, other: seq<byte>)
    requires hdrlen + 3 <= |f| && hdrlen + 3 <= |g|
    ensures WepSeed(f, hdrlen, key) == WepSeed(g, hdrlen, other)
            <==> f[hdrlen..hdrlen + 3] == g[hdrlen..hdrlen + 3] && key == other
  {
    var s, t := WepSeed(f, hdrlen, key), WepSeed(g, hdrlen, other);
    assert s[..3] == f[hdrlen..hdrlen + 3] && s[3..] == key && t[..3] == g[hdrlen..hdrlen + 3] && t[3..] == other;
  }

  /** The 48-bit counter of a frame: TSC0 in its third byte, TSC1 in its first, TSC2 to TSC5 in the last four. */
  lemma TkipCounter(f: seq<byte>, hdrlen: nat, ta: seq<byte>)
    requires hdrlen + 8 <= |f|
    ensures var p := TkipPacket(f, hdrlen, ta);
            && p.iv16 as int == f[hdrlen + 2] as int + 0x100 * f[hdrlen] as int
            && p.iv32 as int == f[hdrlen + 4] as int + 0x100 * f[hdrlen + 5] as int
                                + 0x1_0000 * (f[hdrlen + 6] as int + 0x100 * f[hdrlen + 7] as int)
  {
  }

  /** Under one temporal key, frames share a seed only with the same counter and transmitter. */
  lemma TkipSeedTells(S: TkipMix.Word -> TkipMix.Word, tk: TkipMix.TemporalKey, f: seq<byte>, g: seq<byte>, hdrlen: nat,
                      ta: seq<byte>, other: seq<byte>)
    requires hdrlen + 8 <= |f| && hdrlen + 8 <= |g| && |ta| == 6 == |other|
    ensures TkipSeed(S, tk, f, hdrlen, ta) == TkipSeed(S, tk, g, hdrlen, other)
            <==> TkipPacket(f, hdrlen, ta) == TkipPacket(g, hdrlen, other)
  {
    TkipMix.MixingIsInjective(S, tk, TkipPacket(f, hdrlen, ta), TkipPacket(g, hdrlen, other));
  }
}
