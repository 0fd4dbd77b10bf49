/** RC4 as the history of a permutation, and what the key schedule and the key stream have to do with it. */
module Rc4Runs {
  import opened Buffers
  import opened Rc4

  /** b is a with two places exchanged. */
  predicate Exchanged(a: State, b: State, i: byte, j: byte) {
    b[i] == a[j] && b[j] == a[i] && forall k :: 0 <= k < 256 && k != i && k != j ==> b[k] == a[k]
  }

  lemma ExchangedIsSwap(a: State, b: State, i: byte, j: byte)
    ensures Exchanged(a, b, i, j) <==> b == Swap(a, i, j)
  {
    if Exchanged(a, b, i, j) {
      forall k | 0 <= k < 256
        ensures b[k] == Swap(a, i, j)[k]
      {
      }
    }
  }

  // ---------------------------------------------------------------------------------------
  // The key schedule
  // ---------------------------------------------------------------------------------------

  /** Place n is exchanged with the one the running index, the key and the place itself lead to. */
  predicate KeyMove(key: seq<byte>, n: byte, s: State, j: byte, s1: State, j1: byte)
    requires key != []
  {
    j1 == (j + s[n] + key[n % |key|]) % 256 && Exchanged(s, s1, n, j1)
  }

  /** The states and running indices of a schedule: from the identity and index 0, one move for each place. */
  ghost predicate KeyRun(key: seq<byte>, states: seq<State>, indices: seq<byte>)
    requires key != []
  {
    && |states| == 257 == |indices|
    && (forall k :: 0 <= k < 256 ==> states[0][k] == k) && indices[0] == 0
    && forall n :: 0 <= n < 256 ==> KeyMove(key, n, states[n], indices[n], states[n + 1], indices[n + 1])
  }

  lemma MoveIsStep(key: seq<byte>, n: byte, u: Setup, s1: State, j1: byte)
    requires u.keyindex < |key| && u.keyindex == n % |key|
    ensures KeyMove(key, n, u.state, u.index, s1, j1)
            <==> ScheduleStep(key, n, u).state == s1 && ScheduleStep(key, n, u).index == j1
    ensures ScheduleStep(key, n, u).keyindex == (n + 1) % |key|
  {
    ExchangedIsSwap(u.state, s1, n, j1);
    NextKeyIndex(n, |key|);
  }

  lemma NextKeyIndex(n: nat, len: nat)
    requires len > 0
    ensures (n + 1) % len == if n % len + 1 >= len then 0 else n % len + 1
  {
    var q, r := n / len, n % len;
    assert n == q * len + r;
    if r + 1 >= len {
      Distribute(q, 1, len);
      SameRemainder(q + 1, 0, (n + 1) / len, (n + 1) % len, len);
    } else {
      SameRemainder(q, r + 1, (n + 1) / len, (n + 1) % len, len);
    }
  }

  lemma SameRemainder(q: int, r: nat, q1: int, r1: nat, len: nat)
    requires r < len && r1 < len && q * len + r == q1 * len + r1
    ensures r == r1
  {
    Distribute(q, -q1, len);
    Distribute(-q1, q1, len);
    if q > q1 {
      AtLeast(q - q1, len);
    } else if q < q1 {
      Distribute(q1, -q, len);
      Distribute(-q, q, len);
      AtLeast(q1 - q, len);
    }
  }

  lemma Distribute(a: int, b: int, c: int)
    ensures (a + b) * c == a * c + b * c
  {
  }

  lemma AtLeast(a: int, c: nat)
    requires a >= 1
    ensures a * c >= c
  {
    Distribute(a - 1, 1, c);
  }

  lemma {:induction false} RunIsSchedule(key: seq<byte>, states: seq<State>, indices: seq<byte>, n: nat)
    requires key != [] && KeyRun(key, states, indices) && n <= 256
    ensures Schedule(key, n) == Setup(states[n], indices[n], n % |key|)
    decreases n
  {
    if n == 0 {
      assert states[0] == Identity();
    } else {
      RunIsSchedule(key, states, indices, n - 1);
      MoveIsStep(key, n - 1, Schedule(key, n - 1), states[n], indices[n]);
    }
  }

  lemma {:induction false} KeyPosition(key: seq<byte>, n: nat)
    requires key != [] && n <= 256
    ensures Schedule(key, n).keyindex == n % |key|
    decreases n
  {
    if n == 0 {
      StartPosition(key);
    } else {
      KeyPosition(key, n - 1);
      NextPosition(key, n - 1);
    }
  }

  lemma StartPosition(key: seq<byte>)
    requires key != []
    ensures Schedule(key, 0).keyindex == 0 % |key|
  {
  }

  lemma NextPosition(key: seq<byte>, n: nat)
    requires key != [] && n < 256 && Schedule(key, n).keyindex == n % |key|
    ensures Schedule(key, n + 1).keyindex == (n + 1) % |key|
  {
    var u := Schedule(key, n);
    MoveIsStep(key, n, u, u.state, u.index);
  }

  lemma ScheduleIsRun(key: seq<byte>) returns (states: seq<State>, indices: seq<byte>)
    requires key != []
    ensures KeyRun(key, states, indices) && states[256] == Init(key).state
  {
    states := seq(257, n requires 0 <= n < 257 => Schedule(key, n).state);
    indices := seq(257, n requires 0 <= n < 257 => Schedule(key, n).index);
    forall n | 0 <= n < 256
      ensures KeyMove(key, n, states[n], indices[n], states[n + 1], indices[n + 1])
    {
      KeyPosition(key, n);
      MoveIsStep(key, n, Schedule(key, n), states[n + 1], indices[n + 1]);
    }
  }

  /** The driver's schedule ends in exactly the state RC4 defines. */
  lemma InitExactly(key: seq<byte>, s: State)
    requires key != []
    ensures s == Init(key).state
            <==> exists states: seq<State>, indices: seq<byte> :: KeyRun(key, states, indices) && states[256] == s
  {
    var states, indices := ScheduleIsRun(key);
    forall ss: seq<State>, js: seq<byte> | KeyRun(key, ss, js)
      ensures ss[256] == Init(key).state
    {
      RunIsSchedule(key, ss, js, 256);
    }
  }

  /** Key byte n can be read back from the run. */
  lemma RunRevealsKey(key: seq<byte>, states: seq<State>, indices: seq<byte>, n: nat)
    requires key != [] && KeyRun(key, states, indices) && n < 256
    ensures key[n % |key|] as int == (indices[n + 1] as int - indices[n] as int - states[n][n] as int) % 256
  {
    assert KeyMove(key, n, states[n], indices[n], states[n + 1], indices[n + 1]);
    FromIndices(indices[n], states[n][n], key[n % |key|], indices[n + 1]);
  }

  lemma FromIndices(j: byte, s: byte, k: byte, j1: byte)
    requires j1 as int == (j as int + s as int + k as int) % 256
    ensures k as int == (j1 as int - j as int - s as int) % 256
  {
  }

  /** Runs through the same indices are the same run. */
  lemma {:induction false} SameIndicesSameStates(a: seq<byte>, b: seq<byte>, ss: seq<State>, ts: seq<State>,
                                                 indices: seq<byte>, n: nat)
    requires a != [] && b != [] && KeyRun(a, ss, indices) && KeyRun(b, ts, indices) && n <= 256
    ensures ss[n] == ts[n]
    decreases n
  {
    if n == 0 {
      assert ss[0] == ts[0];
    } else {
      SameIndicesSameStates(a, b, ss, ts, indices, n - 1);
      assert KeyMove(a, n - 1, ss[n - 1], indices[n - 1], ss[n], indices[n]);
      assert KeyMove(b, n - 1, ts[n - 1], indices[n - 1], ts[n], indices[n]);
      ExchangedIsSwap(ss[n - 1], ss[n], n - 1, indices[n]);
      ExchangedIsSwap(ts[n - 1], ts[n], n - 1, indices[n]);
    }
  }

  lemma SharedRun(a: seq<byte>, b: seq<byte>, states: seq<State>, indices: seq<byte>)
    requires a != [] && b != [] && KeyRun(a, states, indices)
    requires forall n :: 0 <= n < 256 ==> a[n % |a|] == b[n % |b|]
    ensures KeyRun(b, states, indices)
  {
    forall n | 0 <= n < 256
      ensures KeyMove(b, n, states[n], indices[n], states[n + 1], indices[n + 1])
    {
      assert KeyMove(a, n, states[n], indices[n], states[n + 1], indices[n + 1]);
    }
  }

  /** The schedules of two keys go through the same indices exactly when the keys, repeated over the
      256 places, are the same. */
  lemma SameIndicesExactly(a: seq<byte>, b: seq<byte>, ss: seq<State>, ts: seq<State>, ps: seq<byte>, qs: seq<byte>)
    requires a != [] && b != [] && KeyRun(a, ss, ps) && KeyRun(b, ts, qs)
    ensures ps == qs <==> forall n :: 0 <= n < 256 ==> a[n % |a|] == b[n % |b|]
  {
    if ps == qs {
      forall n | 0 <= n < 256
        ensures a[n % |a|] == b[n % |b|]
      {
        SameIndicesSameStates(a, b, ss, ts, ps, n);
        RunRevealsKey(a, ss, ps, n);
        RunRevealsKey(b, ts, ps, n);
      }
    } else if forall n :: 0 <= n < 256 ==> a[n % |a|] == b[n % |b|] {
      SharedRun(a, b, ss, ps);
      forall n | 0 <= n < 257
        ensures ps[n] == qs[n]
      {
        RunIsSchedule(b, ss, ps, n);
        RunIsSchedule(b, ts, qs, n);
      }
      assert false;
    }
  }

  lemma SmallRemainder(n: nat, len: nat)
    requires n < len
    ensures n % len == n
  {
  }

  /** Two keys of one length, up to 256 bytes, whose schedules go through the same indices are the same key. */
  lemma IndicesTellKeys(a: seq<byte>, b: seq<byte>, ss: seq<State>, ts: seq<State>, ps: seq<byte>, qs: seq<byte>)
    requires 0 < |a| == |b| <= 256 && KeyRun(a, ss, ps) && KeyRun(b, ts, qs)
    ensures ps == qs <==> a == b
  {
    SameIndicesExactly(a, b, ss, ts, ps, qs);
    if ps == qs {
      forall n | 0 <= n < |a|
        ensures a[n] == b[n]
      {
        SmallRemainder(n, |a|);
      }
    }
  }

  // ---------------------------------------------------------------------------------------
  // The key stream
  // ---------------------------------------------------------------------------------------

  /** One move of the generator, and the byte found in the state afterwards. */
  predicate Generates(c: Context, d: Context, k: byte) {
    && d.x == (c.x + 1) % 256 && d.y == (c.y + c.state[d.x]) % 256
    && Exchanged(c.state, d.state, d.x, d.y)
    && k == d.state[(d.state[d.x] as int + d.state[d.y] as int) % 256]
  }

  lemma NextGenerates(c: Context, d: Context, k: byte)
    ensures Next(c) == (d, k) <==> Generates(c, d, k)
  {
    var x := Add(c.x, 1);
    var y := Add(c.state[x], c.y);
    AddWraps(c.x, 1);
    AddWraps(c.state[x], c.y);
    ExchangedIsSwap(c.state, d.state, x, y);
    SwapPlaces(c.state, x, y);
    AddWraps(c.state[x], c.state[y]);
    NextIs(c, x, y, Swap(c.state, x, y));
  }

  lemma AddWraps(a: byte, b: byte)
    ensures Add(a, b) as int == (a as int + b as int) % 256 == (b as int + a as int) % 256
  {
  }

  lemma SwapPlaces(s: State, i: byte, j: byte)
    ensures Swap(s, i, j)[i] == s[j] && Swap(s, i, j)[j] == s[i]
  {
  }

  lemma NextIs(c: Context, x: byte, y: byte, s: State)
    requires x == Add(c.x, 1) && y == Add(c.state[x], c.y) && s == Swap(c.state, x, y)
    ensures Next(c) == (Context(x, y, s), s[Add(c.state[x], c.state[y])])
  {
  }

  /** Contexts and bytes of a stream from c on. */
  ghost predicate StreamRun(c: Context, contexts: seq<Context>, stream: seq<byte>) {
    && |contexts| == |stream| + 1 && contexts[0] == c
    && forall i :: 0 <= i < |stream| ==> Generates(contexts[i], contexts[i + 1], stream[i])
  }

  /** Encryption adds the stream RC4 defines, byte by byte, and leaves the generator where the stream ends. */
  lemma {:induction false} CryptAddsStream(c: Context, data: seq<byte>, contexts: seq<Context>, stream: seq<byte>)
    requires StreamRun(c, contexts, stream) && |stream| == |data|
    ensures Crypt(Next, c, data).0 == contexts[|data|]
    ensures forall i :: 0 <= i < |data| ==> Crypt(Next, c, data).1[i] == Xor(data[i], stream[i])
    decreases |data|
  {
    if data != [] {
      NextGenerates(c, contexts[1], stream[0]);
      StreamFrom(c, contexts, stream);
      CryptAddsStream(contexts[1], data[1..], contexts[1..], stream[1..]);
    }
  }

  lemma StreamFrom(c: Context, contexts: seq<Context>, stream: seq<byte>)
    requires StreamRun(c, contexts, stream) && stream != []
    ensures Generates(c, contexts[1], stream[0]) && StreamRun(contexts[1], contexts[1..], stream[1..])
  {
    assert Generates(contexts[0], contexts[1], stream[0]);
    forall i | 0 <= i < |stream| - 1
      ensures Generates(contexts[1..][i], contexts[1..][i + 1], stream[1..][i])
    {
      assert Generates(contexts[i + 1], contexts[i + 2], stream[i + 1]);
    }
  }

  lemma {:induction false} StreamExists(c: Context, n: nat) returns (contexts: seq<Context>, stream: seq<byte>)
    ensures StreamRun(c, contexts, stream) && |stream| == n
    decreases n
  {
    if n == 0 {
      contexts, stream := [c], [];
    } else {
      var step := Next(c);
      NextGenerates(c, step.0, step.1);
      var later, bytes := StreamExists(step.0, n - 1);
      contexts, stream := [c] + later, [step.1] + bytes;
      forall i | 0 <= i < n
        ensures Generates(contexts[i], contexts[i + 1], stream[i])
      {
        assert i > 0 ==> Generates(later[i - 1], later[i], bytes[i - 1]);
      }
    }
  }

  /** The bytes encryption produces are exactly the data with the stream RC4 defines added. */
  lemma CryptExactly(c: Context, data: seq<byte>, r: seq<byte>)
    requires |r| == |data|
    ensures r == Crypt(Next, c, data).1 <==> exists contexts: seq<Context>, stream: seq<byte> ::
              && StreamRun(c, contexts, stream) && |stream| == |data|
              && forall i :: 0 <= i < |data| ==> r[i] == Xor(data[i], stream[i])
  {
    var contexts, stream := StreamExists(c, |data|);
    CryptAddsStream(c, data, contexts, stream);
    forall cs: seq<Context>, ks: seq<byte> | StreamRun(c, cs, ks) && |ks| == |data|
      ensures forall i :: 0 <= i < |data| ==> Crypt(Next, c, data).1[i] == Xor(data[i], ks[i])
    {
      CryptAddsStream(c, data, cs, ks);
    }
  }
}
