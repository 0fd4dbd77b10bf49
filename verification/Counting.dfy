/** Byte strings as numbers, and the pigeonhole principle: a longer string cannot be told by a
    shorter one. */
module Counting {

  /** The number of byte strings of length k. */
  function Strings(k: nat): (r: nat)
    ensures r > 0
  {
    if k == 0 then 1 else 256 * Strings(k - 1)
  }

  /** The number a byte string spells, least significant byte first. */
  function Number(s: seq<bv8>): (n: nat)
    ensures n < Strings(|s|)
  {
    if s == [] then 0 else Value(s[0]) + 256 * Number(s[1..])
  }

  function Value(b: bv8): (n: nat)
    ensures n < 256
  {
    b as nat
  }

  lemma ValueOfNext(b: bv8)
    requires Value(b) < 255
    ensures Value(b + 1) == Value(b) + 1
  {
  }

  lemma SameValue(a: bv8, b: bv8)
    requires Value(a) == Value(b)
    ensures a == b
  {
  }

  /** The byte of a value, counted up to. */
  function Digit(n: nat): (b: bv8)
    requires n < 256
    ensures Value(b) == n
  {
    if n == 0 then 0 else
      ValueOfNext(Digit(n - 1));
      Digit(n - 1) + 1
  }

  function Digits(n: nat, k: nat): (s: seq<bv8>)
    ensures |s| == k
  {
    if k == 0 then [] else [Digit(n % 256)] + Digits(n / 256, k - 1)
  }

  lemma {:induction false} NumberOfDigits(n: nat, k: nat)
    requires n < Strings(k)
    ensures Number(Digits(n, k)) == n
  {
    if k > 0 {
      NumberOfDigits(n / 256, k - 1);
      assert Digits(n, k)[1..] == Digits(n / 256, k - 1);
    }
  }

  lemma DigitsSplitOff(b: bv8, rest: nat, k: nat)
    ensures Digits(Value(b) + 256 * rest, k + 1) == [b] + Digits(rest, k)
  {
    SplitsOff(Value(b), rest);
    SameValue(Digit(Value(b)), b);
  }

  lemma SplitsOff(digit: nat, rest: nat)
    requires digit < 256
    ensures (digit + 256 * rest) / 256 == rest && (digit + 256 * rest) % 256 == digit
  {
  }

  lemma {:induction false} DigitsOfNumber(s: seq<bv8>)
    ensures Digits(Number(s), |s|) == s
  {
    if s != [] {
      DigitsOfNumber(s[1..]);
      OneMoreDigit(s[0], s[1..], Number(s[1..]));
      assert s == [s[0]] + s[1..];
    }
  }

  lemma OneMoreDigit(b: bv8, rest: seq<bv8>, n: nat)
    requires Digits(n, |rest|) == rest
    ensures Digits(Value(b) + 256 * n, |rest| + 1) == [b] + rest
  {
    DigitsSplitOff(b, n, |rest|);
  }

  lemma {:induction false} StringsGrow(k: nat, l: nat)
    requires k < l
    ensures Strings(k) < Strings(l)
  {
    if k + 1 < l {
      StringsGrow(k, l - 1);
    }
  }

  lemma {:induction false} Pigeonhole(hole: nat -> nat, n: nat) returns (i: nat, j: nat)
    requires forall p: nat :: p <= n ==> hole(p) < n
    ensures i < j <= n && hole(i) == hole(j)
  {
    if p: nat :| p < n && hole(p) == hole(n) {
      i, j := p, n;
    } else {
      var last := hole(n);
      i, j := Pigeonhole((p: nat) => if hole(p) > last then hole(p) - 1 else hole(p), n - 1);
    }
  }
}
