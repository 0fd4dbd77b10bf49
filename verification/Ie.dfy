/**
 Information elements (core/rtw_ieee80211.c): printing, searching, parsing
 and removing in place.
 */
module Ie {
  import opened Buffers

  const MAX_IE_SIZE := 768
  const VENDOR_SPECIFIC: byte := 221

  datatype Element = Element(id: byte, body: seq<byte>)

  predicate Wf(e: Element) {
    |e.body| < 256
  }

  ghost predicate WfAll(es: seq<Element>) {
    forall k :: 0 <= k < |es| ==> Wf(es[k])
  }

  function Size(e: Element): (n: nat) {
    2 + |e.body|
  }

  function TotalSize(es: seq<Element>): (n: nat) {
    if es == [] then 0 else Size(es[0]) + TotalSize(es[1..])
  }

  function Encode(e: Element): (s: seq<byte>)
    requires Wf(e)
    ensures |s| == Size(e)
  {
    [e.id, |e.body|] + e.body
  }

  function EncodeAll(es: seq<Element>): (s: seq<byte>)
    requires WfAll(es)
  {
    if es == [] then [] else Encode(es[0]) + EncodeAll(es[1..])
  }

  // ---------------------------------------------------------------------
  // Elements in a buffer.

  predicate At(s: seq<byte>, a: nat, e: Element) {
    a + Size(e) <= |s| && s[a] == e.id && s[a + 1] == |e.body| && s[a + 2..a + Size(e)] == e.body
  }

  /** The elements lie in the buffer one behind the other from `a` on. */
  predicate Laid(s: seq<byte>, a: nat, es: seq<Element>)
    decreases |es|
  {
    if es == [] then a <= |s| else At(s, a, es[0]) && Laid(s, a + Size(es[0]), es[1..])
  }

  /** An element starts at `a` and lies inside the buffer. */
  predicate Starts(s: seq<byte>, a: nat) {
    a + 2 <= |s| && a + 2 + s[a + 1] <= |s|
  }

  function ElementAt(s: seq<byte>, a: nat): (e: Element)
    requires Starts(s, a)
    ensures Wf(e) && At(s, a, e)
  {
    Element(s[a], s[a + 2..a + 2 + s[a + 1]])
  }

  /** The whole elements at the front of the buffer. */
  function Leading(s: seq<byte>, a: nat): (es: seq<Element>)
    decreases s, |s| - a
  {
    if !Starts(s, a) then [] else [ElementAt(s, a)] + Leading(s, a + Size(ElementAt(s, a)))
  }

  lemma {:induction false} LeadingLies(s: seq<byte>, a: nat)
    requires a <= |s|
    ensures WfAll(Leading(s, a)) && Laid(s, a, Leading(s, a))
    decreases |s| - a
  {
    if Starts(s, a) {
      LeadingLies(s, a + Size(ElementAt(s, a)));
    }
  }

  lemma AtIsElement(s: seq<byte>, a: nat, e: Element)
    requires At(s, a, e)
    ensures Starts(s, a) && ElementAt(s, a) == e
  {
  }

  lemma LeadingOfFirst(s: seq<byte>, a: nat, e: Element)
    requires At(s, a, e)
    ensures Leading(s, a) == [e] + Leading(s, a + Size(e))
  {
    AtIsElement(s, a, e);
  }

  /** Parsing finds every element laid out, then goes on behind them. */
  lemma {:induction false} LeadingOfLaid(s: seq<byte>, a: nat, es: seq<Element>)
    requires Laid(s, a, es)
    ensures Leading(s, a) == es + Leading(s, a + TotalSize(es))
    decreases |es|
  {
    if es == [] {
      assert es + Leading(s, a) == Leading(s, a);
    } else {
      var next, rest := a + Size(es[0]), Leading(s, a + TotalSize(es));
      LeadingOfFirst(s, a, es[0]);
      LeadingOfLaid(s, next, es[1..]);
      assert next + TotalSize(es[1..]) == a + TotalSize(es);
      Reassociate(es, rest);
    }
  }

  lemma Reassociate(es: seq<Element>, rest: seq<Element>)
    requires es != []
    ensures [es[0]] + (es[1..] + rest) == es + rest
  {
  }

  lemma {:induction false} EncodeAllSize(es: seq<Element>)
    requires WfAll(es)
    ensures |EncodeAll(es)| == TotalSize(es)
  {
    if es != [] {
      EncodeAllSize(es[1..]);
    }
  }

  lemma AtIsEncoding(s: seq<byte>, a: nat, e: Element)
    requires Wf(e) && a + Size(e) <= |s|
    ensures At(s, a, e) <==> s[a..a + Size(e)] == Encode(e)
  {
    var t := s[a..a + Size(e)];
    assert t[0] == s[a] && t[1] == s[a + 1] && t[2..] == s[a + 2..a + Size(e)];
    if At(s, a, e) {
      assert t == [t[0], t[1]] + t[2..];
    } else if t == Encode(e) {
      assert Encode(e)[0] == e.id && Encode(e)[1] == |e.body| && Encode(e)[2..] == e.body;
      assert At(s, a, e);
    }
  }

  /** Elements laid out to the end of the buffer are exactly its encoding. */
  lemma {:induction false} LaidIsEncoding(s: seq<byte>, a: nat, es: seq<Element>)
    requires WfAll(es) && a <= |s|
    ensures (Laid(s, a, es) && a + TotalSize(es) == |s|) <==> s[a..] == EncodeAll(es)
    decreases |es|
  {
    EncodeAllSize(es);
    if es != [] && a + TotalSize(es) == |s| {
      var next := a + Size(es[0]);
      AtIsEncoding(s, a, es[0]);
      LaidIsEncoding(s, next, es[1..]);
      SplitAt(s, a, Encode(es[0]), EncodeAll(es[1..]));
    }
  }

  lemma SplitAt(s: seq<byte>, a: nat, x: seq<byte>, y: seq<byte>)
    requires a + |x| + |y| == |s|
    ensures s[a..] == x + y <==> s[a..a + |x|] == x && s[a + |x|..] == y
  {
    assert s[a..] == s[a..a + |x|] + s[a + |x|..];
    if s[a..] == x + y {
      assert s[a..a + |x|] == (x + y)[..|x|] == x;
      assert s[a + |x|..] == (x + y)[|x|..] == y;
    }
  }

  /** The buffer is a sequence of whole elements. */
  predicate Whole(s: seq<byte>) {
    TotalSize(Leading(s, 0)) == |s|
  }

  /** A buffer is whole exactly when it encodes some elements, and those are the ones parsed. */
  lemma ParsingInvertsPrinting(s: seq<byte>, es: seq<Element>)
    requires WfAll(es)
    ensures s == EncodeAll(es) <==> Whole(s) && Leading(s, 0) == es
  {
    LeadingLies(s, 0);
    LaidIsEncoding(s, 0, es);
    assert s[0..] == s;
    if Laid(s, 0, es) && TotalSize(es) == |s| {
      LeadingOfLaid(s, 0, es);
      assert es + [] == es;
    }
  }

  lemma WholeIsSomeEncoding(s: seq<byte>)
    ensures Whole(s) <==> exists es :: WfAll(es) && s == EncodeAll(es)
  {
    LeadingLies(s, 0);
    ParsingInvertsPrinting(s, Leading(s, 0));
    if es: seq<Element> :| WfAll(es) && s == EncodeAll(es) {
      ParsingInvertsPrinting(s, es);
    }
  }
}
