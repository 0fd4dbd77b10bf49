/** Bytes, optional values, slices and in-place writes, shared by the other modules. */
module Buffers {

  type byte = b: int | 0 <= b < 256

  datatype Option<T> = None | Some(value: T)

  function Pow2(n: nat): nat {
    if n == 0 then 1 else 2 * Pow2(n - 1)
  }

  /** s with r written at position `at`. */
  function Splice<T>(s: seq<T>, at: nat, r: seq<T>): (t: seq<T>)
    requires at + |r| <= |s|
    ensures |t| == |s|
  {
    s[..at] + r + s[at + |r|..]
  }

  lemma SpliceTwice<T>(s: seq<T>, at: nat, a: seq<T>, next: nat, b: seq<T>)
    requires at + |a| == next && next + |b| <= |s|
    ensures Splice(Splice(s, at, a), next, b) == Splice(s, at, a + b)
  {
  }

  lemma SpliceOne<T>(s: seq<T>, at: nat, r: seq<T>, v: T)
    requires at + |r| < |s|
    ensures Splice(s, at, r)[at + |r| := v] == Splice(s, at, r + [v])
  {
  }

  lemma SuffixOfSuffix<T>(s: seq<T>, p: nat, i: nat)
    requires p <= |s| && i <= |s| - p
    ensures s[p..][i..] == s[p + i..]
  {
  }

  lemma ConcatAssoc<T>(a: seq<T>, b: seq<T>, c: seq<T>)
    ensures (a + b) + c == a + (b + c)
  {
  }

  lemma TakeAll<T>(s: seq<T>, n: nat)
    requires n == |s|
    ensures s[..n] == s
  {
  }
}
