/** What the Michael code keeps apart, where it takes its addresses from, and a published test vector. */
module MichaelLaws {
  import opened Buffers
  import opened Michael

  // ---------------------------------------------------------------------------------------
  // The block function can be undone
  // ---------------------------------------------------------------------------------------

  function Sub32(a: bv32, b: bv32): bv32 {
    a - b
  }

  lemma XorTwice(a: bv32, k: bv32)
    ensures Xor32(Xor32(a, k), k) == a
  {
  }

  lemma XorTells(a: bv32, b: bv32, c: bv32)
    ensures Xor32(a, b) == Xor32(a, c) <==> b == c
  {
  }

  lemma SumIs(a: bv32, b: bv32, c: bv32)
    requires c == Add32(a, b)
    ensures c == a + b
  {
  }

  lemma SubUndoes(a: bv32, b: bv32, c: bv32)
    requires c == a + b
    ensures Sub32(c, b) == a
  {
  }

  lemma AddUndoes(a: bv32, b: bv32, d: bv32)
    requires d == a - b
    ensures Add32(d, b) == a
  {
  }

  lemma SubAfterAdd(a: bv32, b: bv32, c: bv32)
    requires c == Add32(a, b)
    ensures Sub32(c, b) == a
  {
    SumIs(a, b, c);
    SubUndoes(a, b, c);
  }

  lemma AddAfterSub(a: bv32, b: bv32)
    ensures Add32(Sub32(a, b), b) == a
  {
    AddUndoes(a, b, Sub32(a, b));
  }

  lemma AddSub(a: bv32, b: bv32)
    ensures Sub32(Add32(a, b), b) == a && Add32(Sub32(a, b), b) == a
  {
    SubAfterAdd(a, b, Add32(a, b));
    AddAfterSub(a, b);
  }

  function UnmixStep(turn: bv32 -> bv32, s: (bv32, bv32)): (bv32, bv32) {
    var l := Sub32(s.0, s.1);
    (l, Xor32(s.1, turn(l)))
  }

  lemma StepInverse(turn: bv32 -> bv32, s: (bv32, bv32))
    ensures UnmixStep(turn, MixStep(turn, s)) == s && MixStep(turn, UnmixStep(turn, s)) == s
  {
    AddSub(s.0, Xor32(s.1, turn(s.0)));
    XorTwice(s.1, turn(s.0));
    AddSub(s.0, s.1);
    XorTwice(s.1, turn(Sub32(s.0, s.1)));
  }

  /** The four steps with any four turns. */
  function Steps(a: bv32 -> bv32, b: bv32 -> bv32, c: bv32 -> bv32, d: bv32 -> bv32, s: (bv32, bv32)): (bv32, bv32) {
    MixStep(d, MixStep(c, MixStep(b, MixStep(a, s))))
  }

  function Unsteps(a: bv32 -> bv32, b: bv32 -> bv32, c: bv32 -> bv32, d: bv32 -> bv32, s: (bv32, bv32)): (bv32, bv32) {
    UnmixStep(a, UnmixStep(b, UnmixStep(c, UnmixStep(d, s))))
  }

  lemma StepsInverse(a: bv32 -> bv32, b: bv32 -> bv32, c: bv32 -> bv32, d: bv32 -> bv32, s: (bv32, bv32))
    ensures Unsteps(a, b, c, d, Steps(a, b, c, d, s)) == s && Steps(a, b, c, d, Unsteps(a, b, c, d, s)) == s
  {
    StepInverse(a, s);
    StepInverse(b, MixStep(a, s));
    StepInverse(c, MixStep(b, MixStep(a, s)));
    StepInverse(d, MixStep(c, MixStep(b, MixStep(a, s))));
    StepInverse(d, s);
    StepInverse(c, UnmixStep(d, s));
    StepInverse(b, UnmixStep(c, UnmixStep(d, s)));
    StepInverse(a, UnmixStep(b, UnmixStep(c, UnmixStep(d, s))));
  }

  function FourSteps(s: (bv32, bv32)): (bv32, bv32) {
    Steps(Rol17, XSwap, Rol3, Ror2, s)
  }

  function UndoFour(s: (bv32, bv32)): (bv32, bv32) {
    Unsteps(Rol17, XSwap, Rol3, Ror2, s)
  }

  lemma FourInverse(s: (bv32, bv32))
    ensures UndoFour(FourSteps(s)) == s && FourSteps(UndoFour(s)) == s
  {
    StepsInverse(Rol17, XSwap, Rol3, Ror2, s);
  }

  lemma BlockIs(l: bv32, r: bv32, m: bv32)
    ensures Block(l, r, m) == FourSteps((Xor32(l, m), r))
  {
  }

  /** What (L, R) was before word m. */
  function Unblock(s: (bv32, bv32), m: bv32): (bv32, bv32) {
    (Xor32(UndoFour(s).0, m), UndoFour(s).1)
  }

  /** For each word the block function is a bijection on (L, R), with an explicit inverse. */
  lemma BlockInverse(l: bv32, r: bv32, m: bv32)
    ensures Unblock(Block(l, r, m), m) == (l, r)
    ensures Block(Unblock((l, r), m).0, Unblock((l, r), m).1, m) == (l, r)
  {
    BlockIs(l, r, m);
    FourInverse((Xor32(l, m), r));
    XorTwice(l, m);
    BlockIs(Unblock((l, r), m).0, Unblock((l, r), m).1, m);
    FourInverse((l, r));
    XorTwice(UndoFour((l, r)).0, m);
  }

  /** From one (L, R), different words lead to different results. */
  lemma BlockTellsWord(l: bv32, r: bv32, m: bv32, n: bv32)
    ensures Block(l, r, m) == Block(l, r, n) <==> m == n
  {
    BlockIs(l, r, m);
    BlockIs(l, r, n);
    FourInverse((Xor32(l, m), r));
    FourInverse((Xor32(l, n), r));
    XorTells(l, m, n);
  }

  lemma BlockTellsState(s: (bv32, bv32), t: (bv32, bv32), m: bv32)
    ensures Block(s.0, s.1, m) == Block(t.0, t.1, m) <==> s == t
  {
    BlockInverse(s.0, s.1, m);
    BlockInverse(t.0, t.1, m);
  }

  // ---------------------------------------------------------------------------------------
  // Messages
  // ---------------------------------------------------------------------------------------

  /** All a block function must do for the results below. */
  ghost predicate Telling(f: BlockFunction) {
    && (forall l, r, m, n :: f(l, r, m) == f(l, r, n) ==> m == n)
    && (forall l, r, k, q, m :: f(l, r, m) == f(k, q, m) ==> l == k && r == q)
  }

  lemma BlockTells()
    ensures Telling(Block)
  {
    forall l, r, m, n | Block(l, r, m) == Block(l, r, n)
      ensures m == n
    {
      BlockTellsWord(l, r, m, n);
    }
    forall l, r, k, q, m | Block(l, r, m) == Block(k, q, m)
      ensures l == k && r == q
    {
      BlockTellsState((l, r), (k, q), m);
    }
  }

  /** The same message from two states ends in two states. */
  lemma {:induction false} WordsTellState(f: BlockFunction, s: (bv32, bv32), t: (bv32, bv32), msg: seq<bv8>)
    requires Telling(f)
    ensures Words(f, s.0, s.1, msg) == Words(f, t.0, t.1, msg) <==> s == t
    decreases |msg|
  {
    if |msg| >= 4 {
      WordsTellState(f, f(s.0, s.1, WordAt(msg)), f(t.0, t.1, WordAt(msg)), msg[4..]);
    }
  }

  /** Byte n of the word four bytes make is the nth of them. */
  lemma BytesOfWord(a: bv8, b: bv8, c: bv8, d: bv8)
    ensures var w := Or32(Or32(Or32(Placed(a, 0), Placed(b, 1)), Placed(c, 2)), Placed(d, 3));
            ByteOf(w, 0) == a && ByteOf(w, 1) == b && ByteOf(w, 2) == c && ByteOf(w, 3) == d
  {
  }

  /** And a word is the one its bytes make. */
  lemma WordOfBytes(w: bv32)
    ensures WordAt(LittleEndian(w)) == w
  {
  }

  lemma WordTellsBytes(a: seq<bv8>, b: seq<bv8>)
    requires |a| >= 4 && |b| >= 4
    ensures WordAt(a) == WordAt(b) <==> a[..4] == b[..4]
  {
    BytesBack(a);
    BytesBack(b);
    FrontWord(a);
    FrontWord(b);
  }

  lemma BytesBack(a: seq<bv8>)
    requires |a| >= 4
    ensures LittleEndian(WordAt(a)) == a[..4]
  {
    BytesOfWord(a[0], a[1], a[2], a[3]);
  }

  lemma FrontWord(a: seq<bv8>)
    requires |a| >= 4
    ensures WordAt(a) == WordAt(a[..4])
  {
  }

  /** Two messages of whole words that are the same outside word k. */
  predicate DifferInWord(a: seq<bv8>, b: seq<bv8>, k: nat) {
    4 * k + 4 <= |a| == |b| && a[..4 * k] == b[..4 * k] && a[4 * k + 4..] == b[4 * k + 4..]
  }

  lemma {:induction false} WordsTellMessage(f: BlockFunction, l: bv32, r: bv32, a: seq<bv8>, b: seq<bv8>, k: nat)
    requires Telling(f) && DifferInWord(a, b, k)
    ensures Words(f, l, r, a) == Words(f, l, r, b) <==> a == b
    decreases k
  {
    WordTellsBytes(a, b);
    assert a == a[..4] + a[4..] && b == b[..4] + b[4..];
    var s, t := f(l, r, WordAt(a)), f(l, r, WordAt(b));
    if k == 0 {
      WordsTellState(f, s, t, a[4..]);
    } else {
      LaterWord(a, b, k);
      WordsTellMessage(f, s.0, s.1, a[4..], b[4..], k - 1);
    }
  }

  lemma LaterWord(a: seq<bv8>, b: seq<bv8>, k: nat)
    requires k > 0 && DifferInWord(a, b, k)
    ensures a[..4] == b[..4] && DifferInWord(a[4..], b[4..], k - 1)
  {
    assert a[..4] == a[..4 * k][..4] && b[..4] == b[..4 * k][..4];
    assert a[4..][..4 * k - 4] == a[..4 * k][4..] && b[4..][..4 * k - 4] == b[..4 * k][4..];
    assert a[4..][4 * k..] == a[4 * k + 4..] && b[4..][4 * k..] == b[4 * k + 4..];
  }

  lemma LittleEndianTells(u: bv32, v: bv32)
    ensures LittleEndian(u) == LittleEndian(v) <==> u == v
  {
    WordOfBytes(u);
    WordOfBytes(v);
  }

  lemma CodeTells(f: BlockFunction, k: (bv32, bv32), j: (bv32, bv32), a: seq<bv8>, b: seq<bv8>)
    ensures Code(f, k.0, k.1, a) == Code(f, j.0, j.1, b)
            <==> Words(f, k.0, k.1, PaddedMessage(a)) == Words(f, j.0, j.1, PaddedMessage(b))
  {
    var x, y := Words(f, k.0, k.1, PaddedMessage(a)), Words(f, j.0, j.1, PaddedMessage(b));
    LittleEndianTells(x.0, y.0);
    LittleEndianTells(x.1, y.1);
    var c, d := Code(f, k.0, k.1, a), Code(f, j.0, j.1, b);
    assert c[..4] == LittleEndian(x.0) && c[4..] == LittleEndian(x.1);
    assert d[..4] == LittleEndian(y.0) && d[4..] == LittleEndian(y.1);
  }

  lemma ChangeInWord(p: seq<bv8>, i: nat, x: bv8, k: nat)
    requires 4 * k <= i < 4 * k + 4 <= |p|
    ensures DifferInWord(p[i := x], p, k) && (p[i := x] == p <==> x == p[i])
  {
    assert x == p[i] || p[i := x][i] != p[i];
  }

  lemma PaddedSize(n: nat, i: nat)
    requires i < n
    ensures 4 * (i / 4) + 4 <= n + 1 + ZeroCount(n)
  {
    assert (n + 1 + ZeroCount(n)) % 4 == 0;
  }

  lemma PaddedChange(a: seq<bv8>, i: nat, x: bv8)
    requires i < |a|
    ensures PaddedMessage(a[i := x]) == PaddedMessage(a)[i := x] && PaddedMessage(a)[i] == a[i]
  {
    var tail := [0x5a] + Zeros(ZeroCount(|a|));
    PaddedIs(a, tail);
    PaddedIs(a[i := x], tail);
    ChangeInFront(a, tail, i, x);
  }

  lemma PaddedIs(a: seq<bv8>, tail: seq<bv8>)
    requires tail == [0x5a] + Zeros(ZeroCount(|a|))
    ensures PaddedMessage(a) == a + tail
  {
    ConcatAssoc(a, [0x5a], Zeros(ZeroCount(|a|)));
  }

  lemma ChangeInFront(a: seq<bv8>, tail: seq<bv8>, i: nat, x: bv8)
    requires i < |a|
    ensures a[i := x] + tail == (a + tail)[i := x] && (a + tail)[i] == a[i]
  {
  }

  lemma PaddingKeepsWord(a: seq<bv8>, i: nat, x: bv8)
    requires i < |a|
    ensures DifferInWord(PaddedMessage(a[i := x]), PaddedMessage(a), i / 4)
    ensures PaddedMessage(a[i := x]) == PaddedMessage(a) <==> x == a[i]
  {
    PaddedSize(|a|, i);
    PaddedChange(a, i, x);
    ChangeInWord(PaddedMessage(a), i, x, i / 4);
  }

  /** Under every key, changing any one byte of a message changes its code. */
  lemma OneByteShows(k0: bv32, k1: bv32, msg: seq<bv8>, i: nat, x: bv8)
    requires i < |msg|
    ensures Code(Block, k0, k1, msg[i := x]) == Code(Block, k0, k1, msg) <==> x == msg[i]
  {
    BlockTells();
    PaddingKeepsWord(msg, i, x);
    WordsTellMessage(Block, k0, k1, PaddedMessage(msg[i := x]), PaddedMessage(msg), i / 4);
    CodeTells(Block, (k0, k1), (k0, k1), msg[i := x], msg);
  }

  /** Under every key, two messages of one length that differ in just one word have different codes. */
  lemma OneWordShows(k0: bv32, k1: bv32, a: seq<bv8>, b: seq<bv8>, k: nat)
    requires |a| == |b| && DifferInWord(PaddedMessage(a), PaddedMessage(b), k)
    ensures Code(Block, k0, k1, a) == Code(Block, k0, k1, b) <==> a == b
  {
    BlockTells();
    WordsTellMessage(Block, k0, k1, PaddedMessage(a), PaddedMessage(b), k);
    CodeTells(Block, (k0, k1), (k0, k1), a, b);
    assert PaddedMessage(a)[..|a|] == a && PaddedMessage(b)[..|b|] == b;
  }

  /** For every message, different keys give different codes. */
  lemma CodeTellsKey(k: (bv32, bv32), j: (bv32, bv32), msg: seq<bv8>)
    ensures Code(Block, k.0, k.1, msg) == Code(Block, j.0, j.1, msg) <==> k == j
  {
    BlockTells();
    WordsTellState(Block, k, j, PaddedMessage(msg));
    CodeTells(Block, k, j, msg, msg);
  }

  // ---------------------------------------------------------------------------------------
  // Addresses
  // ---------------------------------------------------------------------------------------

  /** The addresses of a data frame: Table 8-19 of IEEE Std 802.11-2012.  `ap` is the BSSID, or the
      receiver in a frame between access points, and `ta` the transmitter in such a frame. */
  predicate Addressed(header: seq<bv8>, toDs: bool, fromDs: bool, da: seq<bv8>, sa: seq<bv8>, ap: seq<bv8>,
                      ta: seq<bv8>) {
    && |header| >= 30 && (header[1] & 1 == 1 <==> toDs) && (header[1] & 2 == 2 <==> fromDs)
    && if !toDs && !fromDs then header[4..10] == da && header[10..16] == sa && header[16..22] == ap
       else if !toDs then header[4..10] == da && header[10..16] == ap && header[16..22] == sa
       else if !fromDs then header[4..10] == ap && header[10..16] == sa && header[16..22] == da
       else header[4..10] == ap && header[10..16] == ta && header[16..22] == da && header[24..30] == sa
  }

  /** Whichever way a frame travels, the code covers destination, source, priority and data. */
  lemma CoversAddresses(header: seq<bv8>, toDs: bool, fromDs: bool, da: seq<bv8>, sa: seq<bv8>, ap: seq<bv8>,
                        ta: seq<bv8>, data: seq<bv8>, pri: bv8)
    requires Addressed(header, toDs, fromDs, da, sa, ap, ta)
    ensures Authenticated(header, data, pri) == da + sa + [pri, 0, 0, 0] + data
  {
    DsBits(header[1]);
  }

  lemma DsBits(fc: bv8)
    ensures fc & 1 == 1 <==> fc & 1 != 0
    ensures fc & 2 == 2 <==> fc & 2 != 0
  {
  }

  // ---------------------------------------------------------------------------------------
  // The first two test vectors for Michael in IEEE Std 802.11-2012
  // ---------------------------------------------------------------------------------------

  lemma FirstVectorBlock()
    ensures Block(0, 0, 0x5a) == (0xc000134d, 0xeaa1301e)
  {
    assert Xor32(0, 0x5a) == 0x5a;
    assert MixStep(Rol17, (0x5a, 0)) == (0xb4005a, 0xb40000);
    assert MixStep(XSwap, (0xb4005a, 0xb40000)) == (0xb5685a5a, 0xb4b45a00);
    assert MixStep(Rol3, (0xb5685a5a, 0xb4b45a00)) == (0xd55ee32f, 0x1ff688d5);
    assert MixStep(Ror2, (0xd55ee32f, 0x1ff688d5)) == (0xc000134d, 0xeaa1301e);
  }

  lemma SecondVectorBlock()
    ensures Block(0xc000134d, 0xeaa1301e, 0) == (0x1c5c9282, 0xb830d1a1)
  {
    assert Xor32(0xc000134d, 0) == 0xc000134d;
    assert MixStep(Rol17, (0xc000134d, 0xeaa1301e)) == (0x8c3ac36b, 0xcc3ab01e);
    assert MixStep(XSwap, (0x8c3ac36b, 0xcc3ab01e)) == (0x82f19f48, 0xf6b6dbdd);
    assert MixStep(Rol3, (0x82f19f48, 0xf6b6dbdd)) == (0x642bc0e1, 0xe13a2199);
    assert MixStep(Ror2, (0x642bc0e1, 0xe13a2199)) == (0x1c5c9282, 0xb830d1a1);
  }

  lemma ThirdVectorBlock()
    ensures Block(0x1c5c9282, 0xb830d1a1, 0x5a4d) == (0xa556433e, 0xd6ec7884)
  {
    assert Xor32(0x1c5c9282, 0x5a4d) == 0x1c5cc8cf;
    assert MixStep(Rol17, (0x1c5cc8cf, 0xb830d1a1)) == (0x460bb1e7, 0x29aee918);
    assert MixStep(XSwap, (0x460bb1e7, 0x29aee918)) == (0x68f3c090, 0x22e80ea9);
    assert MixStep(Rol3, (0x68f3c090, 0x22e80ea9)) == (0xce69caba, 0x65760a2a);
    assert MixStep(Ror2, (0xce69caba, 0x65760a2a)) == (0xa556433e, 0xd6ec7884);
  }

  lemma FourthVectorBlock()
    ensures Block(0xa556433e, 0xd6ec7884, 0) == (0xca214743, 0x3f9b6340)
  {
    assert Xor32(0xa556433e, 0) == 0xa556433e;
    assert MixStep(Rol17, (0xa556433e, 0xd6ec7884)) == (0xf5e77566, 0x50913228);
    assert MixStep(XSwap, (0xf5e77566, 0x50913228)) == (0xad4bc9c3, 0xb764545d);
    assert MixStep(Rol3, (0xad4bc9c3, 0xb764545d)) == (0x8a85e403, 0xdd3a1a40);
    assert MixStep(Ror2, (0x8a85e403, 0xdd3a1a40)) == (0xca214743, 0x3f9b6340);
  }

  lemma WordsOfOne(f: BlockFunction, l: bv32, r: bv32, msg: seq<bv8>, rest: seq<bv8>)
    requires |msg| >= 4 && rest == msg[4..]
    ensures Words(f, l, r, msg) == Words(f, f(l, r, WordAt(msg)).0, f(l, r, WordAt(msg)).1, rest)
  {
  }

  lemma TwoWords(f: BlockFunction, s: (bv32, bv32), msg: seq<bv8>, m: bv32, t: (bv32, bv32), u: (bv32, bv32))
    requires |msg| == 8 && WordAt(msg) == m && msg[4..] == [0, 0, 0, 0]
    requires f(s.0, s.1, m) == t && f(t.0, t.1, 0) == u
    ensures Words(f, s.0, s.1, msg) == u
  {
    var rest: seq<bv8> := [0, 0, 0, 0];
    assert WordAt(rest) == 0 && rest[4..] == [];
    WordsOfOne(f, s.0, s.1, msg, rest);
    WordsOfOne(f, t.0, t.1, rest, []);
  }

  lemma EmptyIsPadded()
    ensures PaddedMessage([]) == [0x5a, 0, 0, 0, 0, 0, 0, 0]
  {
    assert Zeros(7) == [0, 0, 0, 0, 0, 0, 0];
  }

  lemma LetterIsPadded()
    ensures PaddedMessage([0x4d]) == [0x4d, 0x5a, 0, 0, 0, 0, 0, 0]
  {
    assert Zeros(6) == [0, 0, 0, 0, 0, 0];
  }

  /** The empty message under the key of zeros. */
  lemma EmptyMessageVector()
    ensures Code(Block, 0, 0, []) == [0x82, 0x92, 0x5c, 0x1c, 0xa1, 0xd1, 0x30, 0xb8]
  {
    var msg := PaddedMessage([]);
    EmptyIsPadded();
    FirstVectorBlock();
    SecondVectorBlock();
    assert WordAt(msg) == 0x5a && msg[4..] == [0, 0, 0, 0];
    TwoWords(Block, (0, 0), msg, 0x5a, (0xc000134d, 0xeaa1301e), (0x1c5c9282, 0xb830d1a1));
    assert LittleEndian(0x1c5c9282) == [0x82, 0x92, 0x5c, 0x1c] && LittleEndian(0xb830d1a1) == [0xa1, 0xd1, 0x30, 0xb8];
  }

  /** The message "M" under the code of the empty one. */
  lemma LetterVector()
    ensures var key: seq<bv8> := [0x82, 0x92, 0x5c, 0x1c, 0xa1, 0xd1, 0x30, 0xb8];
            Code(Block, WordAt(key), WordAt(key[4..]), [0x4d]) == [0x43, 0x47, 0x21, 0xca, 0x40, 0x63, 0x9b, 0x3f]
  {
    var key: seq<bv8> := [0x82, 0x92, 0x5c, 0x1c, 0xa1, 0xd1, 0x30, 0xb8];
    assert WordAt(key) == 0x1c5c9282 && WordAt(key[4..]) == 0xb830d1a1;
    var msg := PaddedMessage([0x4d]);
    LetterIsPadded();
    ThirdVectorBlock();
    FourthVectorBlock();
    assert WordAt(msg) == 0x5a4d && msg[4..] == [0, 0, 0, 0];
    TwoWords(Block, (0x1c5c9282, 0xb830d1a1), msg, 0x5a4d, (0xa556433e, 0xd6ec7884), (0xca214743, 0x3f9b6340));
    assert LittleEndian(0xca214743) == [0x43, 0x47, 0x21, 0xca] && LittleEndian(0x3f9b6340) == [0x40, 0x63, 0x9b, 0x3f];
  }
}
