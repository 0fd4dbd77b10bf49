/** What the TKIP key mixing does with the temporal key, and both phases as shift registers. */
module TkipKeys {
  import opened Buffers
  import opened Bits
  import opened TkipMix

  // ---------------------------------------------------------------------------------------
  // The phases as shift registers
  // ---------------------------------------------------------------------------------------

  function Sum(a: Word, b: Word, c: Word): int {
    (a as int + b as int + c as int) % 0x1_0000
  }

  /** In round i the word at place m of five is the word five places back, plus the S-box of the last
      word mixed with a key word, plus the number of the round at the last place. */
  predicate Next1(S: Word -> Word, tk: TemporalKey, i: nat, m: nat, back: Word, last: Word, r: Word)
    requires i < PHASE1_LOOP_CNT
  {
    r == Sum(back, S(Xor16(last, TK16(tk, i % 2 + 2 * m % 8))), if m == 4 then i else 0)
  }

  predicate Shifts1(S: Word -> Word, tk: TemporalKey, w: seq<Word>, i: nat, m: nat)
    requires i < PHASE1_LOOP_CNT && m < 5 && 5 * i + m + 5 < |w|
  {
    Next1(S, tk, i, m, w[5 * i + m], w[5 * i + m + 4], w[5 * i + m + 5])
  }

  ghost predicate Register1(S: Word -> Word, tk: TemporalKey, start: P1k, w: seq<Word>, n: nat) {
    && n <= PHASE1_LOOP_CNT && |w| == 5 * n + 5 && InArray(w[..5]) == start
    && forall i: nat, m: nat :: i < n && m < 5 ==> Shifts1(S, tk, w, i, m)
  }

  function At5(w: seq<Word>, t: nat): P1k
    requires t + 5 <= |w|
  {
    P1k(w[t], w[t + 1], w[t + 2], w[t + 3], w[t + 4])
  }

  /** The same, in the operations of the mixing. */
  predicate OpsNext1(o: Ops, i: nat, n: nat, last: bool, back: Word, v: Word, r: Word)
    requires i < PHASE1_LOOP_CNT
  {
    var sum := o.add(back, o.box(v, n));
    r == if last then o.add(sum, i) else sum
  }

  predicate OpsShift1(o: Ops, w: seq<Word>, t: nat, i: nat, n: nat, last: bool)
    requires t + 5 < |w| && i < PHASE1_LOOP_CNT
  {
    OpsNext1(o, i, n, last, w[t], w[t + 4], w[t + 5])
  }

  predicate OpsRound(o: Ops, w: seq<Word>, i: nat)
    requires i < PHASE1_LOOP_CNT && 5 * i + 10 <= |w|
  {
    var t := 5 * i;
    && OpsShift1(o, w, t, i, i % 2 + 0, false) && OpsShift1(o, w, t + 1, i, i % 2 + 2, false)
    && OpsShift1(o, w, t + 2, i, i % 2 + 4, false) && OpsShift1(o, w, t + 3, i, i % 2 + 6, false)
    && OpsShift1(o, w, t + 4, i, i % 2 + 0, true)
  }

  predicate RoundAt(o: Ops, w: seq<Word>, i: nat)
    requires i < PHASE1_LOOP_CNT && 5 * i + 10 <= |w|
  {
    Round(o, i, At5(w, 5 * i)) == At5(w, 5 * i + 5)
  }

  lemma ShiftsMakeRound(o: Ops, w: seq<Word>, i: nat)
    requires i < PHASE1_LOOP_CNT && 5 * i + 10 <= |w| && OpsRound(o, w, i)
    ensures RoundAt(o, w, i)
  {
  }

  lemma {:induction false} RoundsShift(o: Ops, start: P1k, w: seq<Word>, n: nat)
    requires n <= PHASE1_LOOP_CNT && 5 * n + 5 <= |w| && At5(w, 0) == start
    requires forall i :: 0 <= i < n ==> RoundAt(o, w, i)
    ensures Rounds(o, n, start) == At5(w, 5 * n)
    decreases n
  {
    if n > 0 {
      RoundsShift(o, start, w, n - 1);
      assert RoundAt(o, w, n - 1);
    }
  }

  lemma NextInOps(S: Word -> Word, tk: TemporalKey, i: nat, m: nat, n: nat, back: Word, last: Word, r: Word)
    requires i < PHASE1_LOOP_CNT && m < 5 && n == i % 2 + 2 * m % 8
    ensures OpsNext1(Words(S, tk), i, n, m == 4, back, last, r) <==> Next1(S, tk, i, m, back, last, r)
  {
    SumOfThree(back, S(Xor16(last, TK16(tk, n))), i);
  }

  /** Both forms of a shift say the same. */
  lemma ShiftInOps(S: Word -> Word, tk: TemporalKey, w: seq<Word>, i: nat, m: nat, n: nat)
    requires i < PHASE1_LOOP_CNT && m < 5 && 5 * i + m + 5 < |w| && n == i % 2 + 2 * m % 8
    ensures OpsShift1(Words(S, tk), w, 5 * i + m, i, n, m == 4) <==> Shifts1(S, tk, w, i, m)
  {
    NextInOps(S, tk, i, m, n, w[5 * i + m], w[5 * i + m + 4], w[5 * i + m + 5]);
  }

  lemma SumOfThree(a: Word, b: Word, c: Word)
    ensures Add16(a, b) == Sum(a, b, 0) && Add16(Add16(a, b), c) == Sum(a, b, c)
  {
  }

  lemma RegisterEnds(S: Word -> Word, tk: TemporalKey, start: P1k, w: seq<Word>, n: nat)
    requires Register1(S, tk, start, w, n) && n <= PHASE1_LOOP_CNT
    ensures Rounds(Words(S, tk), n, start) == At5(w, 5 * n)
  {
    assert At5(w, 0) == InArray(w[..5]);
    forall i: nat, m: nat | i < n && m < 5
      ensures OpsShift1(Words(S, tk), w, 5 * i + m, i, i % 2 + 2 * m % 8, m == 4)
    {
      ShiftInOps(S, tk, w, i, m, i % 2 + 2 * m % 8);
    }
    ShiftsAreRounds(Words(S, tk), start, w, n);
  }

  lemma ShiftsAreRounds(o: Ops, start: P1k, w: seq<Word>, n: nat)
    requires n <= PHASE1_LOOP_CNT && |w| == 5 * n + 5 && At5(w, 0) == start
    requires forall i: nat, m: nat :: i < n && m < 5 ==>
               OpsShift1(o, w, 5 * i + m, i, i % 2 + 2 * m % 8, m == 4)
    ensures Rounds(o, n, start) == At5(w, 5 * n)
  {
    forall i | 0 <= i < n
      ensures RoundAt(o, w, i)
    {
      assert OpsShift1(o, w, 5 * i + 0, i, i % 2 + 2 * 0 % 8, 0 == 4);
      assert OpsShift1(o, w, 5 * i + 1, i, i % 2 + 2 * 1 % 8, 1 == 4);
      assert OpsShift1(o, w, 5 * i + 2, i, i % 2 + 2 * 2 % 8, 2 == 4);
      assert OpsShift1(o, w, 5 * i + 3, i, i % 2 + 2 * 3 % 8, 3 == 4);
      assert OpsShift1(o, w, 5 * i + 4, i, i % 2 + 2 * 4 % 8, 4 == 4);
      ShiftsMakeRound(o, w, i);
    }
    RoundsShift(o, start, w, n);
  }

  lemma RoundIsShifts(o: Ops, w: seq<Word>, i: nat, m: nat)
    requires i < PHASE1_LOOP_CNT && m < 5 && 5 * i + 10 <= |w| && RoundAt(o, w, i)
    ensures OpsShift1(o, w, 5 * i + m, i, i % 2 + 2 * m % 8, m == 4)
  {
    assert m == 0 || m == 1 || m == 2 || m == 3 || m == 4;
  }

  lemma {:induction false} RegisterRuns(S: Word -> Word, tk: TemporalKey, start: P1k, n: nat) returns (w: seq<Word>)
    requires n <= PHASE1_LOOP_CNT
    ensures Register1(S, tk, start, w, n)
    decreases n
  {
    if n == 0 {
      w := [start.k0, start.k1, start.k2, start.k3, start.k4];
    } else {
      var v := RegisterRuns(S, tk, start, n - 1);
      w := OneMoreRound(S, tk, start, v, n - 1);
    }
  }

  lemma OneMoreRound(S: Word -> Word, tk: TemporalKey, start: P1k, v: seq<Word>, n: nat) returns (w: seq<Word>)
    requires Register1(S, tk, start, v, n) && n < PHASE1_LOOP_CNT
    ensures Register1(S, tk, start, w, n + 1)
  {
    var y := Round(Words(S, tk), n, At5(v, 5 * n));
    w := Appended(v, y);
    assert w[..5] == w[..|v|][..5];
    forall i: nat, m: nat | i < n + 1 && m < 5
      ensures Shifts1(S, tk, w, i, m)
    {
      ShiftOfAppended(S, tk, start, v, y, w, n, i, m);
    }
  }

  lemma ShiftOfAppended(S: Word -> Word, tk: TemporalKey, start: P1k, v: seq<Word>, y: P1k, w: seq<Word>, n: nat,
                        i: nat, m: nat)
    requires Register1(S, tk, start, v, n) && n < PHASE1_LOOP_CNT && i <= n && m < 5
    requires y == Round(Words(S, tk), n, At5(v, 5 * n)) && w == Appended(v, y)
    ensures Shifts1(S, tk, w, i, m)
  {
    if i < n {
      assert Shifts1(S, tk, v, i, m);
      SameFront(S, tk, v, w, i, m);
    } else {
      LastShift(S, tk, w, n, m);
    }
  }

  function Appended(v: seq<Word>, y: P1k): (w: seq<Word>)
    requires |v| >= 5
    ensures |w| == |v| + 5 && w[..|v|] == v && At5(w, |v|) == y && At5(w, |v| - 5) == At5(v, |v| - 5)
  {
    v + [y.k0, y.k1, y.k2, y.k3, y.k4]
  }

  lemma LastShift(S: Word -> Word, tk: TemporalKey, w: seq<Word>, n: nat, m: nat)
    requires n < PHASE1_LOOP_CNT && m < 5 && |w| == 5 * n + 10 && RoundAt(Words(S, tk), w, n)
    ensures Shifts1(S, tk, w, n, m)
  {
    RoundIsShifts(Words(S, tk), w, n, m);
    ShiftInOps(S, tk, w, n, m, n % 2 + 2 * m % 8);
  }

  lemma SameFront(S: Word -> Word, tk: TemporalKey, v: seq<Word>, w: seq<Word>, i: nat, m: nat)
    requires i < PHASE1_LOOP_CNT && m < 5 && 5 * i + m + 5 < |v| <= |w| && w[..|v|] == v && Shifts1(S, tk, v, i, m)
    ensures Shifts1(S, tk, w, i, m)
  {
    var t := 5 * i + m;
    assert w[t] == w[..|v|][t] && w[t + 4] == w[..|v|][t + 4] && w[t + 5] == w[..|v|][t + 5];
  }

  /** Phase 1 is the register after eight rounds of five. */
  lemma Phase1Exactly(S: Word -> Word, tk: TemporalKey, start: P1k, k: P1k)
    ensures k == Rounds(Words(S, tk), PHASE1_LOOP_CNT, start)
            <==> exists w: seq<Word> :: Register1(S, tk, start, w, 8) && At5(w, 40) == k
  {
    var v := RegisterRuns(S, tk, start, 8);
    RegisterEnds(S, tk, start, v, 8);
    forall w: seq<Word> | Register1(S, tk, start, w, 8)
      ensures At5(w, 40) == Rounds(Words(S, tk), PHASE1_LOOP_CNT, start)
    {
      RegisterEnds(S, tk, start, w, 8);
    }
  }

  /** What is added at time t of phase 2, given the last word. */
  function Added(S: Word -> Word, tk: TemporalKey, t: nat, last: Word): Word {
    if t < 6 then S(Xor16(last, TK16(tk, t)))
    else if t < 8 then RotR1(Xor16(last, TK16(tk, t)))
    else RotR1(last)
  }

  /** Six words long: six steps through the S-box, two keyed rotations, four rotations, each on the
      word six places back. */
  predicate Shifts2(S: Word -> Word, tk: TemporalKey, w: seq<Word>, t: nat)
    requires t + 6 < |w|
  {
    w[t + 6] == Sum(w[t], Added(S, tk, t, w[t + 5]), 0)
  }

  ghost predicate Register2(S: Word -> Word, tk: TemporalKey, k: P1k, iv16: Word, w: seq<Word>) {
    && |w| == 18 && InArray(w[..5]) == k && w[5] == Sum(iv16, k.k4, 0)
    && forall t :: 0 <= t < 12 ==> Shifts2(S, tk, w, t)
  }

  function At6(w: seq<Word>, t: nat): Ppk
    requires t + 6 <= |w|
  {
    Ppk(w[t], w[t + 1], w[t + 2], w[t + 3], w[t + 4], w[t + 5])
  }

  predicate OpsShift2(o: Ops, w: seq<Word>, t: nat)
    requires t + 6 < |w|
  {
    w[t + 6] == o.add(w[t], if t < 6 then o.box(w[t + 5], t) else if t < 8 then o.keyedRot(w[t + 5], t)
                            else o.rot(w[t + 5]))
  }

  lemma FinalShifts(o: Ops, k: P1k, iv16: Word, w: seq<Word>)
    requires |w| == 18 && At6(w, 0) == Phase2Start(o, k, iv16)
    requires forall t :: 0 <= t < 12 ==> OpsShift2(o, w, t)
    ensures FinalPpk(o, k, iv16) == At6(w, 12)
  {
    assert OpsShift2(o, w, 0) && OpsShift2(o, w, 1) && OpsShift2(o, w, 2);
    assert OpsShift2(o, w, 3) && OpsShift2(o, w, 4) && OpsShift2(o, w, 5);
    assert Mix(o, At6(w, 0)) == At6(w, 6);
    assert OpsShift2(o, w, 6) && OpsShift2(o, w, 7) && OpsShift2(o, w, 8);
    assert OpsShift2(o, w, 9) && OpsShift2(o, w, 10) && OpsShift2(o, w, 11);
    assert Sweep(o, At6(w, 6)) == At6(w, 12);
  }

  lemma ShiftInOps2(S: Word -> Word, tk: TemporalKey, w: seq<Word>, t: nat)
    requires t < 12 && t + 6 < |w| && Shifts2(S, tk, w, t)
    ensures OpsShift2(Words(S, tk), w, t)
  {
    SumOfThree(w[t], Added(S, tk, t, w[t + 5]), 0);
  }

  lemma Phase2Shifts(S: Word -> Word, tk: TemporalKey, o: Ops, k: P1k, iv16: Word, w: seq<Word>)
    requires Register2(S, tk, k, iv16, w) && o == Words(S, tk)
    ensures FinalPpk(o, k, iv16) == At6(w, 12)
  {
    assert At6(w, 0) == Phase2Start(o, k, iv16) by {
      assert InArray(w[..5]) == P1k(w[0], w[1], w[2], w[3], w[4]);
      SumOfThree(iv16, k.k4, 0);
    }
    forall t | 0 <= t < 12
      ensures OpsShift2(o, w, t)
    {
      ShiftInOps2(S, tk, w, t);
    }
    FinalShifts(o, k, iv16, w);
  }

  lemma {:induction false} Register2Runs(S: Word -> Word, tk: TemporalKey, first: seq<Word>, n: nat)
    returns (w: seq<Word>)
    requires |first| == 6 && n <= 12
    ensures |w| == n + 6 && w[..6] == first && forall t :: 0 <= t < n ==> Shifts2(S, tk, w, t)
    decreases n
  {
    if n == 0 {
      w := first;
    } else {
      var v := Register2Runs(S, tk, first, n - 1);
      w := v + [Sum(v[n - 1], Added(S, tk, n - 1, v[n + 4]), 0)];
      assert w[..6] == v[..6];
      forall t | 0 <= t < n
        ensures Shifts2(S, tk, w, t)
      {
        assert t < n - 1 ==> Shifts2(S, tk, v, t);
      }
    }
  }

  /** Phase 2 is the register after twelve shifts. */
  lemma Phase2Exactly(S: Word -> Word, tk: TemporalKey, k: P1k, iv16: Word, z: Ppk)
    ensures z == FinalPpk(Words(S, tk), k, iv16)
            <==> exists w: seq<Word> :: Register2(S, tk, k, iv16, w) && At6(w, 12) == z
  {
    var first := [k.k0, k.k1, k.k2, k.k3, k.k4, Sum(iv16, k.k4, 0)];
    var v := Register2Runs(S, tk, first, 12);
    assert v[..5] == v[..6][..5];
    assert v[5] == v[..6][5];
    assert Register2(S, tk, k, iv16, v);
    Phase2Shifts(S, tk, Words(S, tk), k, iv16, v);
    forall w: seq<Word> | Register2(S, tk, k, iv16, w)
      ensures At6(w, 12) == FinalPpk(Words(S, tk), k, iv16)
    {
      Phase2Shifts(S, tk, Words(S, tk), k, iv16, w);
    }
  }

  /** Rotating down by one is halving modulo 2^16 - 1. */
  lemma RotationHalves(v: Word, r: Word)
    ensures r == RotR1(v) <==> 2 * r as int % 0xFFFF == v % 0xFFFF && (r == 0 <==> v == 0)
  {
  }

  // ---------------------------------------------------------------------------------------
  // The temporal key shows
  // ---------------------------------------------------------------------------------------

  ghost predicate Injective(S: Word -> Word) {
    forall u: Word, v: Word :: S(u) == S(v) ==> u == v
  }

  lemma XorTellsKey(v: Word, a: Word, b: Word)
    ensures Xor16(v, a) == Xor16(v, b) <==> a == b
  {
    PowersOfTwo();
    XorBitsCancels(v, a, b, 16);
  }

  lemma AddTells(u: Word, x: Word, y: Word)
    ensures Add16(u, x) == Add16(u, y) <==> x == y
  {
  }

  /** One S-box step tells the key word it uses. */
  lemma StepTellsKey(S: Word -> Word, u: Word, v: Word, a: Word, b: Word)
    requires Injective(S)
    ensures Add16(u, S(Xor16(v, a))) == Add16(u, S(Xor16(v, b))) <==> a == b
  {
    AddTells(u, S(Xor16(v, a)), S(Xor16(v, b)));
    XorTellsKey(v, a, b);
  }

  lemma RotTellsKey(u: Word, v: Word, a: Word, b: Word)
    ensures Add16(u, RotR1(Xor16(v, a))) == Add16(u, RotR1(Xor16(v, b))) <==> a == b
  {
    AddTells(u, RotR1(Xor16(v, a)), RotR1(Xor16(v, b)));
    XorTellsKey(v, a, b);
    RotTells(Xor16(v, a), Xor16(v, b));
  }

  lemma RotTells(v: Word, w: Word)
    ensures RotR1(v) == RotR1(w) <==> v == w
  {
  }

  predicate SameWord(a: TemporalKey, b: TemporalKey, n: nat) {
    TK16(a, n) == TK16(b, n)
  }

  /** The eight words are the key. */
  lemma WordsTellKey(a: TemporalKey, b: TemporalKey)
    ensures FirstSix(a, b) && LastTwo(a, b) <==> a == b
  {
    if FirstSix(a, b) && LastTwo(a, b) {
      forall n | 0 <= n < 8
        ensures a[2 * n] == b[2 * n] && a[2 * n + 1] == b[2 * n + 1]
      {
        assert SameWord(a, b, n);
        WordOfBytes(a[2 * n + 1], a[2 * n]);
        WordOfBytes(b[2 * n + 1], b[2 * n]);
      }
      forall i | 0 <= i < 16
        ensures a[i] == b[i]
      {
        assert i == 2 * (i / 2) || i == 2 * (i / 2) + 1;
      }
    }
  }

  /** Two sets of operations differ in the S-box step, or the keyed rotation, of key word n unless they
      share that word. */
  ghost predicate Tells(o: Ops, q: Ops, n: nat, same: bool) {
    && (forall u, v :: o.add(u, o.box(v, n)) == q.add(u, q.box(v, n)) <==> same)
    && (forall u, v :: o.add(u, o.keyedRot(v, n)) == q.add(u, q.keyedRot(v, n)) <==> same)
  }

  /** The steps that use no key word are the same. */
  ghost predicate Alike(o: Ops, q: Ops) {
    o.add == q.add && o.rot == q.rot
  }

  lemma WordsTell(S: Word -> Word, a: TemporalKey, b: TemporalKey, n: nat)
    requires Injective(S)
    ensures Tells(Words(S, a), Words(S, b), n, SameWord(a, b, n)) && Alike(Words(S, a), Words(S, b))
  {
    forall u, v
      ensures Add16(u, S(Xor16(v, TK16(a, n)))) == Add16(u, S(Xor16(v, TK16(b, n)))) <==> SameWord(a, b, n)
    {
      StepTellsKey(S, u, v, TK16(a, n), TK16(b, n));
    }
    forall u, v
      ensures Add16(u, RotR1(Xor16(v, TK16(a, n)))) == Add16(u, RotR1(Xor16(v, TK16(b, n)))) <==> SameWord(a, b, n)
    {
      RotTellsKey(u, v, TK16(a, n), TK16(b, n));
    }
  }

  lemma RoundTells(o: Ops, q: Ops, i: nat, x: P1k, s0: bool, s1: bool, s2: bool, s3: bool)
    requires i < PHASE1_LOOP_CNT && Alike(o, q)
    requires Tells(o, q, i % 2 + 0, s0) && Tells(o, q, i % 2 + 2, s1)
    requires Tells(o, q, i % 2 + 4, s2) && Tells(o, q, i % 2 + 6, s3)
    ensures Round(o, i, x) == Round(q, i, x) <==> s0 && s1 && s2 && s3
  {
  }

  /** A round of phase 1 tells the four key words it uses, and no others matter. */
  lemma RoundTellsKey(S: Word -> Word, a: TemporalKey, b: TemporalKey, i: nat, x: P1k)
    requires Injective(S) && i < PHASE1_LOOP_CNT
    ensures Round(Words(S, a), i, x) == Round(Words(S, b), i, x)
            <==> SameWord(a, b, i % 2) && SameWord(a, b, i % 2 + 2) && SameWord(a, b, i % 2 + 4)
                 && SameWord(a, b, i % 2 + 6)
  {
    WordsTell(S, a, b, i % 2 + 0);
    WordsTell(S, a, b, i % 2 + 2);
    WordsTell(S, a, b, i % 2 + 4);
    WordsTell(S, a, b, i % 2 + 6);
    RoundTells(Words(S, a), Words(S, b), i, x, SameWord(a, b, i % 2), SameWord(a, b, i % 2 + 2),
               SameWord(a, b, i % 2 + 4), SameWord(a, b, i % 2 + 6));
  }

  lemma MixTells(o: Ops, q: Ops, x: Ppk, s0: bool, s1: bool, s2: bool, s3: bool, s4: bool, s5: bool)
    requires Alike(o, q) && Tells(o, q, 0, s0) && Tells(o, q, 1, s1) && Tells(o, q, 2, s2)
    requires Tells(o, q, 3, s3) && Tells(o, q, 4, s4) && Tells(o, q, 5, s5)
    ensures Mix(o, x) == Mix(q, x) <==> s0 && s1 && s2 && s3 && s4 && s5
  {
  }

  predicate FirstSix(a: TemporalKey, b: TemporalKey) {
    && SameWord(a, b, 0) && SameWord(a, b, 1) && SameWord(a, b, 2)
    && SameWord(a, b, 3) && SameWord(a, b, 4) && SameWord(a, b, 5)
  }

  /** The S-box steps of phase 2 tell key words 0 to 5. */
  lemma MixTellsKey(S: Word -> Word, a: TemporalKey, b: TemporalKey, x: Ppk)
    requires Injective(S)
    ensures Mix(Words(S, a), x) == Mix(Words(S, b), x) <==> FirstSix(a, b)
  {
    WordsTell(S, a, b, 0);
    WordsTell(S, a, b, 1);
    WordsTell(S, a, b, 2);
    WordsTell(S, a, b, 3);
    WordsTell(S, a, b, 4);
    WordsTell(S, a, b, 5);
    MixTells(Words(S, a), Words(S, b), x, SameWord(a, b, 0), SameWord(a, b, 1), SameWord(a, b, 2),
             SameWord(a, b, 3), SameWord(a, b, 4), SameWord(a, b, 5));
  }

  predicate LastTwo(a: TemporalKey, b: TemporalKey) {
    SameWord(a, b, 6) && SameWord(a, b, 7)
  }

  lemma SweepDiffers(o: Ops, q: Ops, x: Ppk, s6: bool, s7: bool)
    requires Alike(o, q) && Tells(o, q, 6, s6) && Tells(o, q, 7, s7)
    ensures Sweep(o, x) == Sweep(q, x) <==> s6 && s7
  {
  }

  /** The final sweep tells key words 6 and 7. */
  lemma SweepTellsKey(S: Word -> Word, a: TemporalKey, b: TemporalKey, x: Ppk)
    requires Injective(S)
    ensures Sweep(Words(S, a), x) == Sweep(Words(S, b), x) <==> LastTwo(a, b)
  {
    WordsTell(S, a, b, 6);
    WordsTell(S, a, b, 7);
    SweepDiffers(Words(S, a), Words(S, b), x, SameWord(a, b, 6), SameWord(a, b, 7));
  }

  /** From one output of phase 1 and one IV, two temporal keys that share words 6 and 7, or words 0
      to 5, give the same key bytes 4 to 15 only if they are the same key. */
  lemma TailTellsKey(S: Word -> Word, a: TemporalKey, b: TemporalKey, k: P1k, iv16: Word)
    requires Injective(S) && (LastTwo(a, b) || FirstSix(a, b))
    ensures (Rc4Key(a, FinalPpk(Words(S, a), k, iv16), iv16)[4..]
             == Rc4Key(b, FinalPpk(Words(S, b), k, iv16), iv16)[4..]) <==> a == b
  {
    var y, z := FinalPpk(Words(S, a), k, iv16), FinalPpk(Words(S, b), k, iv16);
    KeyTail(a, y, iv16);
    KeyTail(b, z, iv16);
    KeyBytesInverse(y);
    KeyBytesInverse(z);
    FinalTellsKey(S, a, b, k, iv16);
  }

  lemma FinalTellsKey(S: Word -> Word, a: TemporalKey, b: TemporalKey, k: P1k, iv16: Word)
    requires Injective(S) && (LastTwo(a, b) || FirstSix(a, b))
    ensures FinalPpk(Words(S, a), k, iv16) == FinalPpk(Words(S, b), k, iv16) <==> a == b
  {
    var start := Phase2Start(Words(S, a), k, iv16);
    MixTellsKey(S, a, b, start);
    SweepTellsKey(S, a, b, Mix(Words(S, a), start));
    WordsLawful(S, b);
    BothTell(Words(S, a), Words(S, b), k, iv16, FirstSix(a, b), LastTwo(a, b));
    WordsTellKey(a, b);
  }

  lemma BothTell(o: Ops, q: Ops, k: P1k, iv16: Word, front: bool, back: bool)
    requires Lawful(q) && o.add == q.add && (front || back)
    requires var start := Phase2Start(o, k, iv16);
             && (Mix(o, start) == Mix(q, start) <==> front)
             && (Sweep(o, Mix(o, start)) == Sweep(q, Mix(o, start)) <==> back)
    ensures FinalPpk(o, k, iv16) == FinalPpk(q, k, iv16) <==> front && back
  {
    var start := Phase2Start(o, k, iv16);
    assert Phase2Start(q, k, iv16) == start;
    SweepTells(q, Mix(o, start), Mix(q, start));
  }

  lemma SweepTells(o: Ops, x: Ppk, y: Ppk)
    requires Lawful(o)
    ensures Sweep(o, x) == Sweep(o, y) <==> x == y
  {
    SweepInverse(o, x);
    SweepInverse(o, y);
  }

  // ---------------------------------------------------------------------------------------
  // The first four key bytes
  // ---------------------------------------------------------------------------------------

  /** They carry the low IV in the clear; a byte between 32 and 127 with bit 5 set, which keeps off
      weak RC4 keys; and eight bits of the last word mixed with key word 0. */
  lemma KeyHead(tk: TemporalKey, z: Ppk, iv16: Word)
    ensures var key := Rc4Key(tk, z, iv16);
            && iv16 == Mk16(key[0], key[2])
            && 32 <= key[1] < 128 && key[1] / 32 % 2 == 1
            && key[1] % 32 == key[0] % 32 && key[1] / 64 == key[0] / 64 % 2
            && key[3] as int == Xor16(Mk16(key[15], key[14]), Mk16(tk[1], tk[0])) / 2 % 256
  {
    BytesOfWord(iv16);
    BytesOfWord(z.p5);
  }
}
