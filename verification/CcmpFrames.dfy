/** aes_cipher and aes_decipher of core/rtw_security.c as they run, in place on a frame buffer,
    proved against the functions of module Ccmp. */
module CcmpFrames {
  import opened Ccmp
  import opened Buffers

  /** Copy n bytes of src into the frame. */
  method Put(frame: array<bv8>, at: nat, src: seq<bv8>)
    requires at + |src| <= frame.Length
    modifies frame
    ensures frame[..] == Splice(old(frame[..]), at, src)
  {
    for j := 0 to |src|
      invariant forall k :: 0 <= k < j ==> frame[at + k] == src[k]
      invariant forall k :: 0 <= k < frame.Length && !(at <= k < at + j) ==> frame[k] == old(frame[k])
    {
      frame[at + j] := src[j];
    }
    ghost var was := old(frame[..]);
    assert forall k :: at <= k < at + |src| ==> frame[k] == src[k - at];
    assert frame[..] == Splice(was, at, src);
  }

  /** bitwise_xor on the first n bytes of a block taken from the frame. */
  method XorAt(frame: array<bv8>, at: nat, n: nat, ks: Block)
    requires at + n <= frame.Length && n <= 16
    modifies frame
    ensures frame[..] == MaskedAt(old(frame[..]), at, n, ks)
  {
    var chain := Xor(frame[at..at + n], ks);
    Put(frame, at, chain);
  }

  lemma SpliceReads(s: seq<bv8>, at: nat, r: seq<bv8>, len: nat)
    requires at + |r| + len <= |s|
    ensures Splice(s, at, r)[..at] == s[..at]
    ensures Splice(s, at, r)[at + |r|..at + |r| + len] == s[at + |r|..at + |r| + len]
  {
  }

  /** `was` with its bytes from base to at encrypted. */
  function Progress(ks: nat -> Block, was: seq<bv8>, base: nat, at: nat): seq<bv8>
    requires base <= at <= |was|
  {
    Splice(was, base, Ctr(ks, was[base..at], 1))
  }

  lemma CtrBlock(ks: nat -> Block, b: seq<bv8>, i: nat)
    requires |b| <= 16
    ensures Ctr(ks, b, i) == Xor(b, ks(i))
  {
    if |b| == 16 {
      assert b[..16] == b && b[16..] == [];
      assert Xor(b, ks(i)) + [] == Xor(b, ks(i));
    }
  }

  lemma {:induction false} CtrAppend(ks: nat -> Block, a: seq<bv8>, b: seq<bv8>, i: nat, j: nat)
    requires |a| == 16 * (j - i) && |b| <= 16
    ensures Ctr(ks, a + b, i) == Ctr(ks, a, i) + Xor(b, ks(j))
    decreases |a|
  {
    if a == [] {
      assert a + b == b;
      CtrBlock(ks, b, i);
      assert [] + Xor(b, ks(i)) == Xor(b, ks(i));
    } else {
      var first, rest := Xor(a[..16], ks(i)), Ctr(ks, a[16..], i + 1);
      CtrAppend(ks, a[16..], b, i + 1, j);
      CtrPeel(ks, a, b, i);
      ConcatAssoc(first, rest, Xor(b, ks(j)));
    }
  }

  lemma CtrPeel(ks: nat -> Block, a: seq<bv8>, b: seq<bv8>, i: nat)
    requires 16 <= |a|
    ensures Ctr(ks, a + b, i) == Xor(a[..16], ks(i)) + Ctr(ks, a[16..] + b, i + 1)
  {
    assert (a + b)[..16] == a[..16] && (a + b)[16..] == a[16..] + b;
  }

  lemma ProgressStep(ks: nat -> Block, was: seq<bv8>, base: nat, at: nat, len: nat, i: nat)
    requires at == base + 16 * i && at + len <= |was| && len <= 16
    ensures var f := Progress(ks, was, base, at);
            MaskedAt(f, at, len, ks(i + 1)) == Progress(ks, was, base, at + len)
  {
    var a, b := was[base..at], was[at..at + len];
    CtrAppend(ks, a, b, 1, i + 1);
    assert a + b == was[base..at + len];
    MaskNext(was, base, at, len, Ctr(ks, a, 1), ks(i + 1));
  }

  /** Masking the bytes behind what has been written. */
  lemma MaskNext(was: seq<bv8>, base: nat, at: nat, len: nat, done: seq<bv8>, mask: Block)
    requires base + |done| == at && at + len <= |was| && len <= 16
    ensures MaskedAt(Splice(was, base, done), at, len, mask)
            == Splice(was, base, done + Xor(was[at..at + len], mask))
  {
    SpliceReads(was, base, done, len);
    SpliceTwice(was, base, done, at, Xor(was[at..at + len], mask));
  }

  /** f after i whole counter blocks. */
  function AfterBlocks(ks: nat -> Block, f: seq<bv8>, base: nat, i: nat): (g: seq<bv8>)
    requires base + 16 * i <= |f|
    ensures |g| == |f|
  {
    if i == 0 then f else MaskedAt(AfterBlocks(ks, f, base, i - 1), base + 16 * (i - 1), 16, ks(i))
  }

  /** f with n bytes at `at` masked. */
  function MaskedAt(f: seq<bv8>, at: nat, n: nat, ks: Block): (g: seq<bv8>)
    requires at + n <= |f| && n <= 16
    ensures |g| == |f|
  {
    Splice(f, at, Xor(f[at..at + n], ks))
  }

  lemma ProgressNone(ks: nat -> Block, f: seq<bv8>, base: nat)
    requires base <= |f|
    ensures Progress(ks, f, base, base) == f
  {
    assert f[base..base] == [] && Ctr(ks, [], 1) == [];
    assert Splice(f, base, []) == f;
  }

  lemma ProgressBlock(ks: nat -> Block, f: seq<bv8>, base: nat, i: nat, before: seq<bv8>, after: seq<bv8>)
    requires i > 0 && base + 16 * i <= |f| && before == Progress(ks, f, base, base + 16 * (i - 1))
    requires after == MaskedAt(before, base + 16 * (i - 1), 16, ks(i))
    ensures after == Progress(ks, f, base, base + 16 * i)
  {
    ProgressStep(ks, f, base, base + 16 * (i - 1), 16, i - 1);
  }

  lemma {:induction false} BlocksAreProgress(ks: nat -> Block, f: seq<bv8>, base: nat, i: nat)
    requires base + 16 * i <= |f|
    ensures AfterBlocks(ks, f, base, i) == Progress(ks, f, base, base + 16 * i)
  {
    if i == 0 {
      ProgressNone(ks, f, base);
    } else {
      BlocksAreProgress(ks, f, base, i - 1);
      ProgressBlock(ks, f, base, i, AfterBlocks(ks, f, base, i - 1), AfterBlocks(ks, f, base, i));
    }
  }

  /** How many whole blocks a payload has, and how many bytes behind them. */
  function Blocks(plen: nat): (r: (nat, nat))
    ensures plen == 16 * r.0 + r.1 && r.1 < 16
  {
    (plen / 16, plen % 16)
  }

  /** Counter mode: whole blocks, then a short one. */
  method RunCtr(ks: nat -> Block, frame: array<bv8>, base: nat, plen: nat)
    requires base + plen <= frame.Length
    modifies frame
    ensures frame[..] == Progress(ks, old(frame[..]), base, base + plen)
  {
    var blocks := Blocks(plen);
    RunBlocks(ks, frame, base, blocks.0, blocks.1);
  }

  method RunBlocks(ks: nat -> Block, frame: array<bv8>, base: nat, num_blocks: nat, payload_remainder: nat)
    requires base + 16 * num_blocks + payload_remainder <= frame.Length && payload_remainder < 16
    modifies frame
    ensures frame[..] == Progress(ks, old(frame[..]), base, base + 16 * num_blocks + payload_remainder)
  {
    ghost var was := frame[..];
    var payload_index := base + 16 * num_blocks;
    CtrBlocks(ks, frame, base, num_blocks, payload_index);
    LastBlock(ks, frame, payload_index, payload_remainder, base, num_blocks, was);
  }

  /** The short block at the end. */
  method LastBlock(ks: nat -> Block, frame: array<bv8>, payload_index: nat, payload_remainder: nat, ghost base: nat,
                   i: nat, ghost was: seq<bv8>)
    requires payload_remainder < 16 && payload_index == base + 16 * i
             && payload_index + payload_remainder <= frame.Length == |was|
    requires frame[..] == Progress(ks, was, base, payload_index)
    modifies frame
    ensures frame[..] == Progress(ks, was, base, payload_index + payload_remainder)
  {
    if payload_remainder > 0 {
      ProgressStep(ks, was, base, payload_index, payload_remainder, i);
      XorAt(frame, payload_index, payload_remainder, ks(i + 1));
    }
  }

  /** The counter-mode loop over whole blocks. */
  method CtrBlocks(ks: nat -> Block, frame: array<bv8>, base: nat, num_blocks: nat, ghost end: nat)
    requires end == base + 16 * num_blocks <= frame.Length
    modifies frame
    ensures frame[..] == Progress(ks, old(frame[..]), base, end)
  {
    ghost var was := frame[..];
    CtrLoop(ks, frame, base, num_blocks);
    BlocksAreProgress(ks, was, base, num_blocks);
  }

  method CtrLoop(ks: nat -> Block, frame: array<bv8>, base: nat, num_blocks: nat)
    requires base + 16 * num_blocks <= frame.Length
    modifies frame
    ensures frame[..] == AfterBlocks(ks, old(frame[..]), base, num_blocks)
  {
    var i := 0;
    while i < num_blocks
      invariant 0 <= i <= num_blocks && frame[..] == AfterBlocks(ks, old(frame[..]), base, i)
    {
      XorAt(frame, base + 16 * i, 16, ks(i + 1));
      i := i + 1;
    }
  }

  /** The CBC-MAC loop over the payload. */
  method RunMac(E: Block -> Block, start: Block, frame: array<bv8>, base: nat, plen: nat) returns (aes_out: Block)
    requires base + plen <= frame.Length
    ensures aes_out == CbcMac(E, start, frame[base..base + plen])
  {
    var blocks := Blocks(plen);
    var num_blocks, payload_remainder := blocks.0, blocks.1;
    var payload_index, end := base, base + plen;
    aes_out := start;
    for i := 0 to num_blocks
      invariant payload_index == base + 16 * i
      invariant CbcMac(E, start, frame[base..end]) == CbcMac(E, aes_out, frame[payload_index..end])
    {
      CbcUnfold(E, aes_out, frame[payload_index..end]);
      assert frame[payload_index..end][..16] == frame[payload_index..payload_index + 16];
      assert frame[payload_index..end][16..] == frame[payload_index + 16..end];
      var chain_buffer := Xor(aes_out, frame[payload_index..payload_index + 16]);
      payload_index := payload_index + 16;
      aes_out := E(chain_buffer);
    }
    if payload_remainder > 0 {
      var padded_buffer := Padded(frame[payload_index..end]);
      var chain_buffer := Xor(aes_out, padded_buffer);
      aes_out := E(chain_buffer);
    }
  }

  lemma CbcUnfold(E: Block -> Block, acc: Block, p: seq<bv8>)
    requires 16 <= |p|
    ensures CbcMac(E, acc, p) == CbcMac(E, E(Xor(acc, p[..16])), p[16..])
  {
  }

  /** What aes_cipher does once the header length and packet number are settled: compute the MIC,
      append it, encrypt the payload, mask the MIC. */
  method SealAt(E: Block -> Block, frame: array<bv8>, hdrlen: nat, n: Nonce, plen: nat)
    requires 24 <= hdrlen && |n.pn| == 6 && hdrlen + EXT_IV_LEN + plen + MIC_LEN <= frame.Length
    modifies frame
    ensures frame[..] == SealedAt(E, old(frame[..]), hdrlen, n, plen)
  {
    var base := hdrlen + EXT_IV_LEN;
    ghost var f := frame[..];
    var hdr := frame[..][..base];
    var mask := E(CtrPreload(hdr, n, 0));
    ghost var p := f[base..base + plen];
    ghost var mic := AppendMic(E, hdr, frame, hdrlen, n, plen, p);
    ghost var f1 := frame[..];
    ghost var c := Ctr(KeyStream(E, hdr, n), p, 1);
    ghost var f2 := Encipher(KeyStream(E, hdr, n), mask, frame, base, plen, p);
    SealedBySteps(E, f, hdrlen, n, plen, hdr, p, c, mic, mask, f1, f2, frame[..]);
  }

  /** Compute the MIC and put it behind the payload. */
  method AppendMic(E: Block -> Block, hdr: seq<bv8>, frame: array<bv8>, hdrlen: nat, n: Nonce, plen: nat,
                   ghost p: seq<bv8>)
    returns (ghost mic: seq<bv8>)
    requires 24 <= hdrlen && |n.pn| == 6 && hdrlen + EXT_IV_LEN + plen + MIC_LEN <= frame.Length && |hdr| >= 32
    requires p == frame[..][hdrlen + EXT_IV_LEN..hdrlen + EXT_IV_LEN + plen]
    modifies frame
    ensures mic == Mic(E, hdr, n, hdrlen, p) && p == frame[..][hdrlen + EXT_IV_LEN..hdrlen + EXT_IV_LEN + plen]
    ensures frame[..] == Splice(old(frame[..]), hdrlen + EXT_IV_LEN + plen, mic)
  {
    ghost var f := frame[..];
    var found := RunMic(E, hdr, frame, hdrlen, n, plen);
    Put(frame, hdrlen + EXT_IV_LEN + plen, found);
    mic := found;
    SpliceLater(f, hdrlen + EXT_IV_LEN, plen, mic);
  }

  /** Encrypt the payload, then mask the MIC behind it. */
  method Encipher(ks: nat -> Block, mask: Block, frame: array<bv8>, base: nat, plen: nat, ghost p: seq<bv8>)
    returns (ghost between: seq<bv8>)
    requires base + plen + MIC_LEN <= frame.Length && p == frame[..][base..base + plen]
    modifies frame
    ensures between == Splice(old(frame[..]), base, Ctr(ks, p, 1)) && |between| == frame.Length
    ensures frame[..] == MaskedAt(between, base + plen, MIC_LEN, mask)
  {
    ProgressIs(ks, frame[..], base, base + plen, p);
    RunCtr(ks, frame, base, plen);
    between := frame[..];
    XorAt(frame, base + plen, MIC_LEN, mask);
  }

  /** The three writes together seal the frame. */
  lemma SealedBySteps(E: Block -> Block, f: seq<bv8>, hdrlen: nat, n: Nonce, plen: nat, hdr: seq<bv8>, p: seq<bv8>,
                      c: seq<bv8>, mic: seq<bv8>, mask: Block, f1: seq<bv8>, f2: seq<bv8>, f3: seq<bv8>)
    requires 24 <= hdrlen && |n.pn| == 6 && hdrlen + EXT_IV_LEN + plen + MIC_LEN <= |f|
    requires hdr == f[..hdrlen + EXT_IV_LEN] && p == f[hdrlen + EXT_IV_LEN..hdrlen + EXT_IV_LEN + plen]
    requires c == Ctr(KeyStream(E, hdr, n), p, 1) && mic == Mic(E, hdr, n, hdrlen, p)
    requires mask == E(CtrPreload(hdr, n, 0)) && f1 == Splice(f, hdrlen + EXT_IV_LEN + plen, mic)
    requires f2 == Splice(f1, hdrlen + EXT_IV_LEN, c) && f3 == MaskedAt(f2, hdrlen + EXT_IV_LEN + plen, MIC_LEN, mask)
    ensures f3 == SealedAt(E, f, hdrlen, n, plen)
  {
    TagIs(E, hdr, n, hdrlen, p, mic, mask);
    MaskTag(f, hdrlen + EXT_IV_LEN, c, mic, mask, f1, f2, f3);
    SealedAtIs(E, f, hdrlen, n, plen, c, Xor(mic, mask));
  }

  lemma TagIs(E: Block -> Block, hdr: seq<bv8>, n: Nonce, hdrlen: nat, p: seq<bv8>, mic: seq<bv8>, mask: Block)
    requires 24 <= hdrlen && |n.pn| == 6 && |hdr| >= 32
    requires mic == Mic(E, hdr, n, hdrlen, p) && mask == E(CtrPreload(hdr, n, 0))
    ensures Tag(E, hdr, n, hdrlen, p) == Xor(mic, mask)
  {
  }

  lemma ProgressIs(ks: nat -> Block, f: seq<bv8>, base: nat, at: nat, p: seq<bv8>)
    requires base <= at <= |f| && p == f[base..at]
    ensures Progress(ks, f, base, at) == Splice(f, base, Ctr(ks, p, 1))
  {
  }

  /** The MIC over the frame as it stands. */
  method RunMic(E: Block -> Block, hdr: seq<bv8>, frame: array<bv8>, hdrlen: nat, n: Nonce,
                plen: nat) returns (mic: seq<bv8>)
    requires 24 <= hdrlen && |n.pn| == 6 && hdrlen + EXT_IV_LEN + plen <= frame.Length && |hdr| >= 32
    ensures mic == Mic(E, hdr, n, hdrlen, frame[..][hdrlen + EXT_IV_LEN..hdrlen + EXT_IV_LEN + plen])
    ensures |mic| == MIC_LEN
  {
    var base := hdrlen + EXT_IV_LEN;
    ghost var p := frame[..][base..base + plen];
    assert frame[base..base + plen] == p;
    var start := HeaderMac(E, hdr, n, hdrlen, plen);
    MicIs(E, hdr, n, hdrlen, p, start);
    var aes_out := RunMac(E, start, frame, base, plen);
    mic := aes_out[..MIC_LEN];
  }

  lemma MicIs(E: Block -> Block, hdr: seq<bv8>, n: Nonce, hdrlen: nat, p: seq<bv8>, start: Block)
    requires 24 <= hdrlen && |n.pn| == 6 && |hdr| >= 32 && start == HeaderMac(E, hdr, n, hdrlen, |p|)
    ensures Mic(E, hdr, n, hdrlen, p) == CbcMac(E, start, p)[..MIC_LEN]
  {
  }

  lemma SpliceLater(f: seq<bv8>, base: nat, plen: nat, mic: seq<bv8>)
    requires base + plen + |mic| <= |f|
    ensures Splice(f, base + plen, mic)[base..base + plen] == f[base..base + plen]
  {
  }

  lemma MaskTag(f: seq<bv8>, base: nat, c: seq<bv8>, mic: seq<bv8>, ks: Block, f1: seq<bv8>, f2: seq<bv8>, f3: seq<bv8>)
    requires |mic| == MIC_LEN && base + |c| + MIC_LEN <= |f| && f1 == Splice(f, base + |c|, mic)
    requires f2 == Splice(f1, base, c) && f3 == MaskedAt(f2, base + |c|, MIC_LEN, ks)
    ensures f3 == Splice(f, base, c + Xor(mic, ks))
  {
    var rest := f[base + |c| + MIC_LEN..];
    assert f1[..base] == f[..base] && f1[base + |c|..] == mic + rest;
    assert f2 == f[..base] + c + (mic + rest);
    assert f2[..base + |c|] == f[..base] + c && f2[base + |c| + MIC_LEN..] == rest;
    assert f2[base + |c|..base + |c| + MIC_LEN] == mic;
    ConcatAssoc(f[..base], c, Xor(mic, ks));
  }

  /** aes_cipher */
  method AesCipher(E: Block -> Block, hdrlen: nat, pframe: array<bv8>, plen: nat)
    requires Fits(pframe[..], hdrlen, plen)
    modifies pframe
    ensures pframe[..] == Seal(E, old(pframe[..]), hdrlen, plen)
  {
    var hlen := AdjustedLen(pframe[0], hdrlen);
    var n := SealNonce(pframe[..], hdrlen);
    SealAt(E, pframe, hlen, n, plen);
  }

  /** Where sealing puts the tag. */
  lemma SealedTag(E: Block -> Block, f: seq<bv8>, hdrlen: nat, n: Nonce, hdr: seq<bv8>, p: seq<bv8>)
    requires 24 <= hdrlen && |n.pn| == 6 && hdrlen + EXT_IV_LEN + |p| + MIC_LEN <= |f|
    requires hdr == f[..hdrlen + EXT_IV_LEN] && p == f[hdrlen + EXT_IV_LEN..hdrlen + EXT_IV_LEN + |p|]
    ensures var at := hdrlen + EXT_IV_LEN + |p|;
            SealedAt(E, f, hdrlen, n, |p|)[at..at + MIC_LEN] == Tag(E, hdr, n, hdrlen, p)
  {
    var c, tag := Ctr(KeyStream(E, hdr, n), p, 1), Tag(E, hdr, n, hdrlen, p);
    SealedAtIs(E, f, hdrlen, n, |p|, c, tag);
    TagPosition(f, hdrlen + EXT_IV_LEN, c, tag);
  }

  lemma TagPosition(f: seq<bv8>, base: nat, c: seq<bv8>, tag: seq<bv8>)
    requires base + |c| + |tag| <= |f|
    ensures Splice(f, base, c + tag)[base + |c|..base + |c| + |tag|] == tag
  {
  }

  /** aes_decipher.  plen counts the MIC; `message` is the routine's static scratch buffer, with
      whatever lies behind it, into which the decrypted frame is copied if it fits and which is
      then sealed again so that the tags can be compared. */
  method AesDecipher(E: Block -> Block, hdrlen: nat, pframe: array<bv8>, plen: nat, message: array<bv8>)
    returns (ok: bool)
    requires pframe != message
    requires MIC_LEN <= plen && Fits(pframe[..], hdrlen, plen - MIC_LEN)
    requires Covers(message[..], pframe[..], hdrlen, plen - MIC_LEN)
    modifies pframe, message
    ensures pframe[..] == OpenFrame(E, old(pframe[..]), hdrlen, plen - MIC_LEN)
    ensures ok == Verdict(E, old(pframe[..]), hdrlen, plen - MIC_LEN, old(message[..]))
  {
    ghost var f := pframe[..];
    var m := plen - MIC_LEN;
    var hlen := AdjustedLen(pframe[0], hdrlen);
    var n := SealNonce(pframe[..], hdrlen);
    OpenInPlace(E, hdrlen, pframe, m);
    ok := Judge(E, f, hdrlen, pframe, hlen, n, m, message);
  }

  /** The verdict, once frame f has been decrypted in place. */
  method Judge(E: Block -> Block, ghost f: seq<bv8>, ghost hdrlen: nat, pframe: array<bv8>, hlen: nat, n: Nonce, m: nat,
               message: array<bv8>) returns (ok: bool)
    requires pframe != message && Fits(f, hdrlen, m) && Covers(message[..], f, hdrlen, m)
    requires pframe[..] == OpenFrame(E, f, hdrlen, m)
    requires hlen == AdjustedLen(f[0], hdrlen) && n == SealNonce(f, hdrlen)
    modifies message
    ensures ok == Verdict(E, f, hdrlen, m, old(message[..]))
  {
    Rooms(E, f, hdrlen, m, hlen, pframe[..], message[..]);
    CompareIsVerdict(E, f, hdrlen, m, hlen, n, pframe[..], message[..]);
    ok := CopyAndCompare(E, pframe, message, hlen, n, m);
  }

  /** The frame, decrypted or not, and the buffer are long enough for what is read and written. */
  lemma Rooms(E: Block -> Block, f: seq<bv8>, hdrlen: nat, m: nat, hlen: nat, g: seq<bv8>, stale: seq<bv8>)
    requires Fits(f, hdrlen, m) && Covers(stale, f, hdrlen, m) && hlen == AdjustedLen(f[0], hdrlen)
    requires g == OpenFrame(E, f, hdrlen, m)
    ensures 24 <= hlen && Base(f, hdrlen) == hlen + EXT_IV_LEN && MAX_MSG_SIZE <= |stale|
    ensures hlen + EXT_IV_LEN + m + MIC_LEN <= |g| && hlen + EXT_IV_LEN + m + MIC_LEN <= |stale|
  {
  }

  /** The decrypted frame into the scratch buffer if it fits, and the comparison. */
  method CopyAndCompare(E: Block -> Block, pframe: array<bv8>, message: array<bv8>, hlen: nat, n: Nonce, m: nat)
    returns (ok: bool)
    requires pframe != message && 24 <= hlen && |n.pn| == 6 && MAX_MSG_SIZE <= message.Length
    requires hlen + EXT_IV_LEN + m + MIC_LEN <= pframe.Length && hlen + EXT_IV_LEN + m + MIC_LEN <= message.Length
    modifies message
    ensures ok == Compared(E, pframe[..], old(message[..]), hlen, n, m)
  {
    ghost var stale := message[..];
    CopyIfItFits(pframe, message, hlen + EXT_IV_LEN + m + MIC_LEN);
    ghost var msg := message[..];
    assert msg == Scratch(pframe[..], hlen + EXT_IV_LEN + m + MIC_LEN, stale);
    ok := CompareTags(E, pframe, message, hlen, n, m);
  }

  predicate SameTag(a: seq<bv8>, b: seq<bv8>, at: nat) {
    at + MIC_LEN <= |a| && at + MIC_LEN <= |b| && a[at..at + MIC_LEN] == b[at..at + MIC_LEN]
  }

  /** What the scratch buffer holds for the comparison. */
  function Scratch(frame: seq<bv8>, end: nat, stale: seq<bv8>): (msg: seq<bv8>)
    requires end <= |frame| && end <= |stale|
    ensures |msg| == |stale|
  {
    if end <= MAX_MSG_SIZE then Splice(stale, 0, frame[..end]) else stale
  }

  /** The opened frame carries the tag that sealing the scratch buffer gives. */
  predicate Compared(E: Block -> Block, frame: seq<bv8>, stale: seq<bv8>, hlen: nat, n: Nonce, m: nat)
    requires 24 <= hlen && |n.pn| == 6
    requires hlen + EXT_IV_LEN + m + MIC_LEN <= |frame| && hlen + EXT_IV_LEN + m + MIC_LEN <= |stale|
  {
    var msg := Scratch(frame, hlen + EXT_IV_LEN + m + MIC_LEN, stale);
    SameTag(frame, SealedAt(E, msg, hlen, n, m), hlen + EXT_IV_LEN + m)
  }

  /** The comparison by the parts of the buffer, whatever they are. */
  lemma ComparedIs(E: Block -> Block, frame: seq<bv8>, stale: seq<bv8>, hlen: nat, n: Nonce, m: nat, msg: seq<bv8>)
    requires 24 <= hlen && |n.pn| == 6
    requires hlen + EXT_IV_LEN + m + MIC_LEN <= |frame| && hlen + EXT_IV_LEN + m + MIC_LEN <= |stale|
    requires msg == Scratch(frame, hlen + EXT_IV_LEN + m + MIC_LEN, stale)
    ensures var base, at := hlen + EXT_IV_LEN, hlen + EXT_IV_LEN + m;
            Compared(E, frame, stale, hlen, n, m)
            == (frame[at..at + MIC_LEN] == Tag(E, msg[..base], n, hlen, msg[base..at]))
  {
    var base, at := hlen + EXT_IV_LEN, hlen + EXT_IV_LEN + m;
    var p := msg[base..at];
    assert |p| == m;
    SealedTag(E, msg, hlen, n, msg[..base], p);
  }

  lemma ScratchParts(g: seq<bv8>, base: nat, at: nat, end: nat, stale: seq<bv8>)
    requires base <= at <= end <= |g| && end <= |stale|
    ensures var msg := Scratch(g, end, stale);
            var from := if end <= MAX_MSG_SIZE then g else stale;
            msg[..base] == from[..base] && msg[base..at] == from[base..at]
  {
    if end <= MAX_MSG_SIZE {
      SpliceFront(stale, g[..end], base, at);
    }
  }

  lemma SpliceFront(s: seq<bv8>, r: seq<bv8>, base: nat, at: nat)
    requires base <= at <= |r| <= |s|
    ensures Splice(s, 0, r)[..base] == r[..base] && Splice(s, 0, r)[base..at] == r[base..at]
  {
    assert Splice(s, 0, r) == r + s[|r|..];
  }

  /** The comparison by the parts of what was copied or left in the buffer. */
  lemma ComparedFrom(E: Block -> Block, frame: seq<bv8>, stale: seq<bv8>, hlen: nat, n: Nonce, m: nat, from: seq<bv8>)
    requires 24 <= hlen && |n.pn| == 6
    requires hlen + EXT_IV_LEN + m + MIC_LEN <= |frame| && hlen + EXT_IV_LEN + m + MIC_LEN <= |stale|
    requires from == if hlen + EXT_IV_LEN + m + MIC_LEN <= MAX_MSG_SIZE then frame else stale
    ensures var base, at := hlen + EXT_IV_LEN, hlen + EXT_IV_LEN + m;
            Compared(E, frame, stale, hlen, n, m)
            == (frame[at..at + MIC_LEN] == Tag(E, from[..base], n, hlen, from[base..at]))
  {
    var base, end := hlen + EXT_IV_LEN, hlen + EXT_IV_LEN + m + MIC_LEN;
    ComparedIs(E, frame, stale, hlen, n, m, Scratch(frame, end, stale));
    ScratchParts(frame, base, base + m, end, stale);
  }

  /** The parts of an opened frame. */
  lemma OpenedSlices(E: Block -> Block, f: seq<bv8>, hdrlen: nat, m: nat, base: nat, g: seq<bv8>)
    requires Fits(f, hdrlen, m) && base == Base(f, hdrlen) && g == OpenFrame(E, f, hdrlen, m)
    ensures base + m + MIC_LEN <= |g| && g[..base] == Header(f, hdrlen)
    ensures g[base..base + m] == Opened(E, f, hdrlen, m) && g[base + m..base + m + MIC_LEN] == TagOf(f, hdrlen, m)
  {
    OpenedParts(f, hdrlen, Opened(E, f, hdrlen, m));
  }

  lemma VerdictOfParts(E: Block -> Block, f: seq<bv8>, hdrlen: nat, m: nat, hlen: nat, n: Nonce, stale: seq<bv8>,
                       hdr: seq<bv8>, p: seq<bv8>, tag: seq<bv8>, ok: bool)
    requires Fits(f, hdrlen, m) && Covers(stale, f, hdrlen, m)
    requires hlen == AdjustedLen(f[0], hdrlen) && n == SealNonce(f, hdrlen)
    requires var base := Base(f, hdrlen);
             if FitsScratch(f, hdrlen, m) then hdr == Header(f, hdrlen) && p == Opened(E, f, hdrlen, m)
             else hdr == stale[..base] && p == stale[base..base + m]
    requires |hdr| >= 32 && tag == TagOf(f, hdrlen, m) && ok == (tag == Tag(E, hdr, n, hlen, p))
    ensures ok == Verdict(E, f, hdrlen, m, stale)
  {
  }

  /** The comparison gives the verdict. */
  lemma CompareIsVerdict(E: Block -> Block, f: seq<bv8>, hdrlen: nat, m: nat, hlen: nat, n: Nonce, g: seq<bv8>,
                         stale: seq<bv8>)
    requires Fits(f, hdrlen, m) && Covers(stale, f, hdrlen, m) && g == OpenFrame(E, f, hdrlen, m)
    requires hlen == AdjustedLen(f[0], hdrlen) && n == SealNonce(f, hdrlen)
    requires hlen + EXT_IV_LEN + m + MIC_LEN <= |g|
    ensures Compared(E, g, stale, hlen, n, m) == Verdict(E, f, hdrlen, m, stale)
  {
    OpenedSlices(E, f, hdrlen, m, hlen + EXT_IV_LEN, g);
    CompareOpened(E, f, hdrlen, m, hlen, n, g, stale);
  }

  lemma CompareOpened(E: Block -> Block, f: seq<bv8>, hdrlen: nat, m: nat, hlen: nat, n: Nonce, g: seq<bv8>,
                      stale: seq<bv8>)
    requires Fits(f, hdrlen, m) && Covers(stale, f, hdrlen, m)
    requires hlen == AdjustedLen(f[0], hdrlen) && n == SealNonce(f, hdrlen)
    requires var base := hlen + EXT_IV_LEN;
             && base + m + MIC_LEN <= |g| && g[..base] == Header(f, hdrlen)
             && g[base..base + m] == Opened(E, f, hdrlen, m)
             && g[base + m..base + m + MIC_LEN] == TagOf(f, hdrlen, m)
    ensures Compared(E, g, stale, hlen, n, m) == Verdict(E, f, hdrlen, m, stale)
  {
    var base, at := hlen + EXT_IV_LEN, hlen + EXT_IV_LEN + m;
    var from := if at + MIC_LEN <= MAX_MSG_SIZE then g else stale;
    ComparedFrom(E, g, stale, hlen, n, m, from);
    CompareByParts(E, f, hdrlen, m, hlen, n, g, stale, from, from[..base], from[base..at], g[at..at + MIC_LEN],
                   Compared(E, g, stale, hlen, n, m));
  }

  lemma CompareByParts(E: Block -> Block, f: seq<bv8>, hdrlen: nat, m: nat, hlen: nat, n: Nonce, g: seq<bv8>,
                       stale: seq<bv8>, from: seq<bv8>, hdr: seq<bv8>, p: seq<bv8>, tag: seq<bv8>, ok: bool)
    requires Fits(f, hdrlen, m) && Covers(stale, f, hdrlen, m)
    requires hlen == AdjustedLen(f[0], hdrlen) && n == SealNonce(f, hdrlen)
    requires var base := hlen + EXT_IV_LEN;
             && base + m + MIC_LEN <= |g| && g[..base] == Header(f, hdrlen)
             && g[base..base + m] == Opened(E, f, hdrlen, m)
    requires from == if hlen + EXT_IV_LEN + m + MIC_LEN <= MAX_MSG_SIZE then g else stale
    requires hdr == from[..hlen + EXT_IV_LEN] && p == from[hlen + EXT_IV_LEN..hlen + EXT_IV_LEN + m]
    requires tag == TagOf(f, hdrlen, m) && ok == (tag == Tag(E, hdr, n, hlen, p))
    ensures ok == Verdict(E, f, hdrlen, m, stale)
  {
    PartsOf(E, f, hdrlen, m, hlen + EXT_IV_LEN, g, stale, from);
    VerdictOfParts(E, f, hdrlen, m, hlen, n, stale, hdr, p, tag, ok);
  }

  lemma PartsOf(E: Block -> Block, f: seq<bv8>, hdrlen: nat, m: nat, base: nat, g: seq<bv8>, stale: seq<bv8>,
                from: seq<bv8>)
    requires Fits(f, hdrlen, m) && Covers(stale, f, hdrlen, m) && base == Base(f, hdrlen)
    requires base + m + MIC_LEN <= |g| && g[..base] == Header(f, hdrlen) && g[base..base + m] == Opened(E, f, hdrlen, m)
    requires from == if base + m + MIC_LEN <= MAX_MSG_SIZE then g else stale
    ensures if FitsScratch(f, hdrlen, m) then from[..base] == Header(f, hdrlen)
                                              && from[base..base + m] == Opened(E, f, hdrlen, m)
            else from[..base] == stale[..base] && from[base..base + m] == stale[base..base + m]
  {
  }

  /** Counter mode with the packet number read at the header length as given. */
  method OpenInPlace(E: Block -> Block, hdrlen: nat, pframe: array<bv8>, m: nat)
    requires Fits(pframe[..], hdrlen, m)
    modifies pframe
    ensures pframe[..] == OpenFrame(E, old(pframe[..]), hdrlen, m)
  {
    var base := AdjustedLen(pframe[0], hdrlen) + EXT_IV_LEN;
    var n := OpenNonce(pframe[..], hdrlen);
    RunCtr(KeyStream(E, pframe[..][..base], n), pframe, base, m);
  }

  method CopyIfItFits(pframe: array<bv8>, message: array<bv8>, end: nat)
    requires pframe != message && end <= pframe.Length && end <= message.Length && MAX_MSG_SIZE <= message.Length
    modifies message
    ensures message[..] == Scratch(pframe[..], end, old(message[..]))
  {
    if end <= MAX_MSG_SIZE {
      Put(message, 0, pframe[..][..end]);
    }
  }

  /** Seal the scratch buffer and compare the tags. */
  method CompareTags(E: Block -> Block, pframe: array<bv8>, message: array<bv8>, hlen: nat, n: Nonce, m: nat)
    returns (ok: bool)
    requires pframe != message && 24 <= hlen && |n.pn| == 6
    requires hlen + EXT_IV_LEN + m + MIC_LEN <= pframe.Length && hlen + EXT_IV_LEN + m + MIC_LEN <= message.Length
    modifies message
    ensures var at := hlen + EXT_IV_LEN + m;
            ok == SameTag(pframe[..], SealedAt(E, old(message[..]), hlen, n, m), at)
  {
    SealAt(E, message, hlen, n, m);
    var at := hlen + EXT_IV_LEN + m;
    ok := pframe[..][at..at + MIC_LEN] == message[..][at..at + MIC_LEN];
  }
}
