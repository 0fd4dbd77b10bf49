/** RC4 as in core/rtw_security.c. */
module Rc4 {
  import opened Buffers
  import opened Bits

  // ---------------------------------------------------------------------------------------
  // The cipher on values
  // ---------------------------------------------------------------------------------------

  type State = s: seq<byte> | |s| == 256 witness seq(256, _ => 0)

  datatype Context = Context(x: byte, y: byte, state: State)

  function Add(a: byte, b: byte): byte {
    var sum: int := a as int + b as int;
    if sum < 256 then sum else sum - 256
  }

  function Xor(a: byte, b: byte): byte {
    assert Pow2(8) == 2 * (2 * (2 * (2 * Pow2(4)))) == 256;
    XorBits(a, b, 8)
  }

  function Identity(): State {
    seq(256, i requires 0 <= i < 256 => i)
  }

  /** The state holds every byte value exactly once. */
  ghost predicate Permuted(s: State) {
    multiset(s) == multiset(Identity())
  }

  function Swap(s: State, i: byte, j: byte): (r: State)
    ensures multiset(r) == multiset(s)
  {
    s[i := s[j]][j := s[i]]
  }

  /** The key schedule in progress: state, running index, position in the key. */
  datatype Setup = Setup(state: State, index: byte, keyindex: nat)

  function ScheduleStep(key: seq<byte>, counter: byte, u: Setup): Setup
    requires u.keyindex < |key|
  {
    var index := Add(Add(u.index, key[u.keyindex]), u.state[counter]);
    Setup(Swap(u.state, counter, index), index, if u.keyindex + 1 >= |key| then 0 else u.keyindex + 1)
  }

  /** The key schedule after n steps. */
  function Schedule(key: seq<byte>, n: nat): (u: Setup)
    requires key != [] && n <= 256
    ensures u.keyindex < |key|
  {
    if n == 0 then Setup(Identity(), 0, 0) else ScheduleStep(key, n - 1, Schedule(key, n - 1))
  }

  function Init(key: seq<byte>): Context
    requires key != []
  {
    Context(0, 0, Schedule(key, 256).state)
  }

  /** One step: the new context and a key stream byte. */
  function Next(c: Context): (Context, byte) {
    var x := Add(c.x, 1);
    var sx := c.state[x];
    var y := Add(sx, c.y);
    var sy := c.state[y];
    var s := Swap(c.state, x, y);
    (Context(x, y, s), s[Add(sx, sy)])
  }

  /** Encrypt or decrypt with a stream: the context afterwards and the bytes. */
  function Crypt(next: Context -> (Context, byte), c: Context, data: seq<byte>): (r: (Context, seq<byte>))
    ensures |r.1| == |data|
    decreases |data|
  {
    if data == [] then (c, [])
    else
      var step := next(c);
      var rest := Crypt(next, step.0, data[1..]);
      (rest.0, [Xor(data[0], step.1)] + rest.1)
  }

  // ---------------------------------------------------------------------------------------
  // Laws
  // ---------------------------------------------------------------------------------------

  lemma {:induction false} SchedulePermutes(key: seq<byte>, n: nat)
    requires key != [] && n <= 256
    ensures Permuted(Schedule(key, n).state)
    decreases n
  {
    if n > 0 {
      SchedulePermutes(key, n - 1);
    }
  }

  /** Whatever the data, the state stays a permutation. */
  lemma {:induction false} CryptPermutes(c: Context, data: seq<byte>)
    requires Permuted(c.state)
    ensures Permuted(Crypt(Next, c, data).0.state)
    decreases |data|
  {
    if data != [] {
      CryptPermutes(Next(c).0, data[1..]);
    }
  }

  /** Encrypting in pieces is encrypting the concatenation. */
  lemma {:induction false} CryptInPieces(next: Context -> (Context, byte), c: Context, a: seq<byte>, b: seq<byte>)
    ensures var first := Crypt(next, c, a);
            var second := Crypt(next, first.0, b);
            Crypt(next, c, a + b) == (second.0, first.1 + second.1)
    decreases |a|
  {
    if a == [] {
      assert a + b == b;
      assert [] + Crypt(next, c, b).1 == Crypt(next, c, b).1;
    } else {
      var step := next(c);
      var first := Crypt(next, step.0, a[1..]);
      var second := Crypt(next, first.0, b);
      CryptInPieces(next, step.0, a[1..], b);
      assert (a + b)[1..] == a[1..] + b;
      ConcatAssoc([Xor(a[0], step.1)], first.1, second.1);
    }
  }

  lemma XorTwice(a: byte, k: byte)
    ensures Xor(Xor(a, k), k) == a
  {
    assert Pow2(8) == 2 * (2 * (2 * (2 * Pow2(4)))) == 256;
    XorBitsTwice(a, k, 8);
  }

  /** Decrypting from the same context restores the data. */
  lemma {:induction false} CryptTwice(next: Context -> (Context, byte), c: Context, data: seq<byte>)
    ensures Crypt(next, c, Crypt(next, c, data).1).1 == data
    decreases |data|
  {
    if data != [] {
      var step := next(c);
      XorTwice(data[0], step.1);
      CryptTwice(next, step.0, data[1..]);
      assert Crypt(next, c, data).1[1..] == Crypt(next, step.0, data[1..]).1;
    }
  }

  // ---------------------------------------------------------------------------------------
  // The cipher in place
  // ---------------------------------------------------------------------------------------

  class Arc4Context {
    var x: byte
    var y: byte
    var state: array<byte>

    ghost predicate Valid()
      reads this
    {
      state.Length == 256
    }

    ghost function View(): Context
      requires Valid()
      reads this, state
    {
      Context(x, y, state[..])
    }

    /** arcfour_init */
    constructor (key: seq<byte>)
      requires key != []
      ensures Valid() && fresh(state) && View() == Init(key) && Permuted(state[..])
    {
      x, y := 0, 0;
      var s := new byte[256];
      FillIdentity(s);
      Shuffle(s, key);
      state := s;
      SchedulePermutes(key, 256);
    }

    /** arcfour_byte */
    method Byte() returns (k: byte)
      requires Valid()
      modifies this`x, this`y, state
      ensures (View(), k) == Next(old(View()))
    {
      var nx := Add(x, 1);
      var sx := state[nx];
      var ny := Add(sx, y);
      var sy := state[ny];
      x := nx;
      y := ny;
      state[ny] := sx;
      state[nx] := sy;
      assert state[..] == Swap(old(state[..]), nx, ny);
      k := state[Add(sx, sy)];
    }

    method EncryptByte(dest: array<byte>, at: nat, b: byte)
      requires Valid() && dest != state && at < dest.Length
      modifies this`x, this`y, state, dest
      ensures Valid() && state == old(state)
      ensures (View(), dest[..]) == Masked(Next, old(View()), old(dest[..]), at, b)
    {
      var k := Byte();
      Write(dest, at, Xor(b, k));
    }

    method EncryptNth(dest: array<byte>, at: nat, src: seq<byte>, i: nat, ghost start: Context, ghost was: seq<byte>)
      requires Valid() && dest != state && i < |src| && at + |src| <= dest.Length == |was|
      requires Progress(Next, start, was, at, src, i, View(), dest[..])
      modifies this`x, this`y, state, dest
      ensures Valid() && state == old(state)
      ensures Progress(Next, start, was, at, src, i + 1, View(), dest[..])
    {
      ghost var c, d := View(), dest[..];
      EncryptByte(dest, at + i, src[i]);
      ghost var c1, d1 := View(), dest[..];
      assert (c1, d1) == Masked(Next, c, d, at + i, src[i]);
      MoreProgress(Next, start, was, at, src, i, c, d, c1, d1);
    }

    /** arcfour_encrypt: src may be the very bytes that are overwritten. */
    method Encrypt(dest: array<byte>, at: nat, src: seq<byte>)
      requires Valid() && dest != state && at + |src| <= dest.Length
      modifies this`x, this`y, state, dest
      ensures View() == Crypt(Next, old(View()), src).0
      ensures dest[..] == Splice(old(dest[..]), at, Crypt(Next, old(View()), src).1)
    {
      ghost var start, was := View(), old(dest[..]);
      for i := 0 to |src|
        invariant Progress(Next, start, was, at, src, i, View(), dest[..])
      {
        EncryptNth(dest, at, src, i, start, was);
      }
      ProgressEnds(Next, start, was, at, src, View(), dest[..]);
    }
  }

  /** One byte written at `at`. */
  function Masked(next: Context -> (Context, byte), c: Context, was: seq<byte>, at: nat, b: byte)
      : (r: (Context, seq<byte>))
    requires at < |was|
    ensures |r.1| == |was|
  {
    (next(c).0, was[at := Xor(b, next(c).1)])
  }

  /** Context and buffer after i bytes of src have been written at `at`. */
  function AfterBytes(next: Context -> (Context, byte), c: Context, was: seq<byte>, at: nat, src: seq<byte>, i: nat)
      : (r: (Context, seq<byte>))
    requires i <= |src| && at + |src| <= |was|
    ensures |r.1| == |was|
  {
    if i == 0 then (c, was)
    else
      var before := AfterBytes(next, c, was, at, src, i - 1);
      Masked(next, before.0, before.1, at + (i - 1), src[i - 1])
  }

  /** The first i bytes of src are done: the context and the buffer. */
  ghost predicate Progress(next: Context -> (Context, byte), c: Context, was: seq<byte>, at: nat, src: seq<byte>,
                           i: nat,
                           now: Context, dest: seq<byte>)
    requires i <= |src| && at + |src| <= |was|
  {
    (now, dest) == AfterBytes(next, c, was, at, src, i)
  }

  lemma MoreProgress(next: Context -> (Context, byte), c: Context, was: seq<byte>, at: nat, src: seq<byte>, i: nat,
                     now: Context, dest: seq<byte>, then_: Context, dest1: seq<byte>)
    requires i < |src| && at + |src| <= |was| && Progress(next, c, was, at, src, i, now, dest)
    requires (then_, dest1) == Masked(next, now, dest, at + i, src[i])
    ensures Progress(next, c, was, at, src, i + 1, then_, dest1)
  {
  }

  lemma {:induction false} BytesAreCrypt(next: Context -> (Context, byte), c: Context, was: seq<byte>, at: nat,
                                         src: seq<byte>, i: nat)
    requires i <= |src| && at + |src| <= |was|
    ensures var done := Crypt(next, c, src[..i]);
            AfterBytes(next, c, was, at, src, i) == (done.0, Splice(was, at, done.1))
    decreases i
  {
    if i == 0 {
      assert Splice(was, at, []) == was;
    } else {
      BytesAreCrypt(next, c, was, at, src, i - 1);
      var done, b := Crypt(next, c, src[..i - 1]), src[i - 1];
      var step := next(done.0);
      assert Crypt(next, c, src[..i]) == (step.0, done.1 + [Xor(b, step.1)]) by {
        CryptInPieces(next, c, src[..i - 1], [b]);
        assert src[..i] == src[..i - 1] + [b];
        CryptOne(next, done.0, b);
      }
      SpliceOne(was, at, done.1, Xor(b, step.1));
    }
  }

  lemma ProgressEnds(next: Context -> (Context, byte), c: Context, was: seq<byte>, at: nat, src: seq<byte>,
                     now: Context, dest: seq<byte>)
    requires at + |src| <= |was| && Progress(next, c, was, at, src, |src|, now, dest)
    ensures now == Crypt(next, c, src).0 && dest == Splice(was, at, Crypt(next, c, src).1)
  {
    BytesAreCrypt(next, c, was, at, src, |src|);
    TakeAll(src, |src|);
  }

  lemma CryptOne(next: Context -> (Context, byte), c: Context, b: byte)
    ensures Crypt(next, c, [b]) == (next(c).0, [Xor(b, next(c).1)])
  {
    assert Crypt(next, next(c).0, []) == (next(c).0, []);
    assert [b][1..] == [];
    assert [Xor(b, next(c).1)] + [] == [Xor(b, next(c).1)];
  }

  method Write(dest: array<byte>, at: nat, v: byte)
    requires at < dest.Length
    modifies dest
    ensures dest[..] == old(dest[..])[at := v]
  {
    dest[at] := v;
  }

  method FillIdentity(s: array<byte>)
    requires s.Length == 256
    modifies s
    ensures s[..] == Identity()
  {
    for counter := 0 to 256
      invariant forall k :: 0 <= k < counter ==> s[k] == k
    {
      s[counter] := counter;
    }
    assert s[..] == Identity();
  }

  /** The loop of the key schedule. */
  method Shuffle(s: array<byte>, key: seq<byte>)
    requires s.Length == 256 && key != [] && s[..] == Identity()
    modifies s
    ensures s[..] == Schedule(key, 256).state
  {
    var keyindex, stateindex := 0, 0;
    var counter := 0;
    while counter < s.Length
      invariant 0 <= counter <= s.Length
      invariant Setup(s[..], stateindex, keyindex) == Schedule(key, counter)
    {
      stateindex, keyindex := KeyStep(s, key, counter, stateindex, keyindex);
      counter := counter + 1;
    }
  }

  /** One swap of the key schedule. */
  method KeyStep(s: array<byte>, key: seq<byte>, counter: byte, stateindex: byte, keyindex: nat)
      returns (index: byte, next: nat)
    requires s.Length == 256 && keyindex < |key|
    modifies s
    ensures Setup(s[..], index, next) == ScheduleStep(key, counter, Setup(old(s[..]), stateindex, keyindex))
  {
    var t := s[counter];
    index := Add(Add(stateindex, key[keyindex]), t);
    var u := s[index];
    s[index] := t;
    s[counter] := u;
    assert s[..] == Swap(old(s[..]), counter, index);
    next := keyindex + 1;
    if next >= |key| {
      next := 0;
    }
  }
}
