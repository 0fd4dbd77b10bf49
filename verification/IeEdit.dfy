/** Printing, searching and removing information elements (core/rtw_ieee80211.c). */
module IeEdit {
  import opened Buffers
  import opened Ie

  // ---------------------------------------------------------------------
  // Printing.

  /** What rtw_set_ie writes: the id and the length are cut down to a byte each, the body is not. */
  function Printed(index: nat, source: seq<byte>): (s: seq<byte>) {
    [index % 256, |source| % 256] + source
  }

  /** An element printed is the element parsed, exactly when its length fits a byte. */
  lemma PrintedParses(index: nat, source: seq<byte>)
    ensures var s := Printed(index, source);
            Whole(s) && Leading(s, 0) == [Element(index % 256, source)] <==> |source| < 256
  {
    var s := Printed(index, source);
    var e := Element(index % 256, source);
    if |source| < 256 {
      assert EncodeAll([e]) == Encode(e) + EncodeAll([]) == Encode(e);
      ParsingInvertsPrinting(s, [e]);
    } else {
      LeadingLies(s, 0);
      assert !Wf(e) && [e][0] == e;
    }
  }

  method SetIe(buf: array<byte>, at: nat, index: nat, source: seq<byte>, frlen: nat) returns (next: nat, newLen: nat)
    requires at + 2 + |source| <= buf.Length
    modifies buf
    ensures buf[..] == Splice(old(buf[..]), at, Printed(index, source))
    ensures next == at + |source| + 2 && newLen == frlen + |source| + 2
  {
    ghost var was, head := buf[..], [index % 256, |source| % 256];
    buf[at] := index % 256;
    buf[at + 1] := |source| % 256;
    assert buf[..] == Splice(was, at, head);
    CopyBehind(buf, at, source, was, head);
    next, newLen := at + |source| + 2, frlen + (|source| + 2);
  }

  /** The body goes behind the two bytes of the head. */
  method CopyBehind(buf: array<byte>, at: nat, source: seq<byte>, ghost was: seq<byte>, ghost head: seq<byte>)
    requires |head| == 2 && at + 2 + |source| <= buf.Length == |was| && buf[..] == Splice(was, at, head)
    modifies buf
    ensures buf[..] == Splice(was, at, head + source)
  {
    var i := 0;
    assert head + source[..0] == head;
    while i < |source|
      invariant i <= |source| && buf[..] == Splice(was, at, head + source[..i])
    {
      SpliceOne(was, at, head + source[..i], source[i]);
      ConcatAssoc(head, source[..i], [source[i]]);
      assert source[..i] + [source[i]] == source[..i + 1];
      buf[at + 2 + i] := source[i];
      i := i + 1;
    }
    TakeAll(source, i);
  }

  /** Printing one element behind others prints the longer list. */
  lemma {:induction false} EncodeConcat(a: seq<Element>, b: seq<Element>)
    requires WfAll(a) && WfAll(b)
    ensures WfAll(a + b) && EncodeAll(a + b) == EncodeAll(a) + EncodeAll(b)
  {
    if a == [] {
      assert a + b == b && EncodeAll(a) + EncodeAll(b) == EncodeAll(b);
    } else {
      EncodeConcat(a[1..], b);
      assert (a + b)[1..] == a[1..] + b && (a + b)[0] == a[0];
      ConcatAssoc(Encode(a[0]), EncodeAll(a[1..]), EncodeAll(b));
    }
  }

  // ---------------------------------------------------------------------
  // Searching.

  predicate IsPrefix(p: seq<byte>, s: seq<byte>) {
    |p| <= |s| && s[..|p|] == p
  }

  /** The element has the id and its body starts with the OUI, if one is given. */
  predicate Named(e: Element, eid: byte, oui: Option<seq<byte>>) {
    e.id == eid && (oui.None? || IsPrefix(oui.value, e.body))
  }

  /** What the search compares: the bytes behind the header, even past the end of the element and of the list. */
  predicate Hit(es: seq<Element>, behind: seq<byte>, eid: byte, oui: Option<seq<byte>>)
    requires es != [] && WfAll(es)
  {
    es[0].id == eid && (oui.None? || IsPrefix(oui.value, es[0].body + (EncodeAll(es[1..]) + behind)))
  }

  function FirstHit(es: seq<Element>, behind: seq<byte>, eid: byte, oui: Option<seq<byte>>): (k: nat)
    requires WfAll(es)
    ensures k <= |es|
  {
    if es == [] || Hit(es, behind, eid, oui) then 0 else 1 + FirstHit(es[1..], behind, eid, oui)
  }

  /** There are bytes for every comparison, in the list or behind it. */
  predicate Readable(es: seq<Element>, behind: seq<byte>, eid: byte, oui: Option<seq<byte>>) {
    if es == [] then true
    else
      && (es[0].id == eid && oui.Some? ==> 2 + |oui.value| <= TotalSize(es) + |behind|)
      && Readable(es[1..], behind, eid, oui)
  }

  lemma Unfold(text: seq<byte>, es: seq<Element>)
    requires WfAll(es) && text == EncodeAll(es)
    ensures |text| == TotalSize(es)
    ensures es != [] ==> text[0] == es[0].id && text[1] == |es[0].body| && text[2..] == es[0].body + EncodeAll(es[1..])
    ensures es != [] ==> Size(es[0]) <= |text| && text[Size(es[0])..] == EncodeAll(es[1..])
  {
    EncodeAllSize(es);
    if es != [] {
      var rest := EncodeAll(es[1..]);
      assert text == [es[0].id, |es[0].body|] + (es[0].body + rest);
    }
  }

  datatype Finding = Nothing | Found(at: nat, size: nat)

  /** The search of a run of elements that starts at `at`. */
  function Find(es: seq<Element>, behind: seq<byte>, at: nat, eid: byte, oui: Option<seq<byte>>): (r: Finding)
    requires WfAll(es)
    decreases |es|
  {
    if es == [] then Nothing
    else if Hit(es, behind, eid, oui) then Found(at, Size(es[0]))
    else Find(es[1..], behind, at + Size(es[0]), eid, oui)
  }

  lemma {:induction false} FindsFirstHit(es: seq<Element>, behind: seq<byte>, at: nat, eid: byte,
                                         oui: Option<seq<byte>>)
    requires WfAll(es)
    ensures var k := FirstHit(es, behind, eid, oui);
            Find(es, behind, at, eid, oui) ==
            if k == |es| then Nothing else Found(at + TotalSize(es[..k]), Size(es[k]))
    decreases |es|
  {
    if es != [] {
      if Hit(es, behind, eid, oui) {
        assert es[..0] == [];
      } else {
        var k := FirstHit(es, behind, eid, oui);
        FindsFirstHit(es[1..], behind, at + Size(es[0]), eid, oui);
        assert es[..k][0] == es[0] && es[..k][1..] == es[1..][..k - 1];
      }
    }
  }

  // -- on arbitrary bytes

  /** What the search reads at `cnt` is there. */
  predicate ReadsAt(s: seq<byte>, cnt: nat, eid: byte, oui: Option<seq<byte>>) {
    cnt + 2 <= |s| && (s[cnt] == eid && oui.Some? ==> cnt + 2 + |oui.value| <= |s|)
  }

  predicate HitAt(s: seq<byte>, cnt: nat, eid: byte, oui: Option<seq<byte>>)
    requires ReadsAt(s, cnt, eid, oui)
  {
    s[cnt] == eid && (oui.None? || s[cnt + 2..cnt + 2 + |oui.value|] == oui.value)
  }

  /** Where the next element is taken to start. */
  function NextAt(s: seq<byte>, cnt: nat): (n: nat)
    requires cnt + 2 <= |s|
    ensures n >= cnt + 2
  {
    var len: int := s[cnt + 1];
    cnt + 2 + len
  }

  /** Every byte the search reads from `cnt` on is there, also behind the end it was given. */
  predicate Safe(s: seq<byte>, cnt: nat, end: nat, eid: byte, oui: Option<seq<byte>>)
    decreases end - cnt
  {
    cnt >= end || (ReadsAt(s, cnt, eid, oui) && (HitAt(s, cnt, eid, oui) || Safe(s, NextAt(s, cnt), end, eid, oui)))
  }

  /** The search, element by element, whatever the bytes are. */
  function Walk(s: seq<byte>, cnt: nat, end: nat, eid: byte, oui: Option<seq<byte>>): (r: Finding)
    requires Safe(s, cnt, end, eid, oui)
    decreases end - cnt
  {
    if cnt >= end then Nothing
    else if HitAt(s, cnt, eid, oui) then Found(cnt, NextAt(s, cnt) - cnt)
    else Walk(s, NextAt(s, cnt), end, eid, oui)
  }

  /** Search a buffer; the offset of the first hit and its whole size. */
  method GetIeEx(ies: array<byte>, start: nat, len: nat, eid: byte, oui: Option<seq<byte>>)
    returns (found: bool, at: nat, size: nat)
    requires Safe(ies[..], start, start + len, eid, oui)
    ensures Walk(ies[..], start, start + len, eid, oui) == if found then Found(at, size) else Nothing
  {
    found, at, size := false, start, 0;
    while at < start + len
      invariant Safe(ies[..], at, start + len, eid, oui) && !found
      invariant Walk(ies[..], at, start + len, eid, oui) == Walk(ies[..], start, start + len, eid, oui)
      decreases start + len - at
    {
      size := 2;
      size := size + ies[at + 1];
      if eid == ies[at] && (oui.None? || ies[..][at + 2..at + 2 + |oui.value|] == oui.value) {
        found := true;
        return;
      }
      at := at + size;
    }
  }

  /** On whole elements it finds the first hit among them. */
  lemma {:induction false} WalkFinds(s: seq<byte>, start: nat, end: nat, es: seq<Element>, behind: seq<byte>, eid: byte,
                                     oui: Option<seq<byte>>)
    requires WfAll(es) && start <= end <= |s| && s[start..end] == EncodeAll(es)
    requires behind == s[end..] && Readable(es, behind, eid, oui)
    ensures Safe(s, start, end, eid, oui) && Walk(s, start, end, eid, oui) == Find(es, behind, start, eid, oui)
    decreases |es|
  {
    if es == [] {
      assert |s[start..end]| == 0;
    } else {
      WalkStep(s, start, end, es, behind, eid, oui);
      WalkFinds(s, NextAt(s, start), end, es[1..], behind, eid, oui);
    }
  }

  lemma WalkStep(s: seq<byte>, start: nat, end: nat, es: seq<Element>, behind: seq<byte>, eid: byte,
                 oui: Option<seq<byte>>)
    requires WfAll(es) && es != [] && start <= end <= |s| && s[start..end] == EncodeAll(es)
    requires behind == s[end..] && Readable(es, behind, eid, oui)
    ensures start < end && ReadsAt(s, start, eid, oui) && (HitAt(s, start, eid, oui) <==> Hit(es, behind, eid, oui))
    ensures NextAt(s, start) == start + Size(es[0]) <= end && s[NextAt(s, start)..end] == EncodeAll(es[1..])
  {
    var text := s[start..end];
    Unfold(text, es);
    assert text[0] == s[start] && text[1] == s[start + 1];
    assert text[Size(es[0])..] == s[start + Size(es[0])..end];
    if es[0].id == eid && oui.Some? {
      BehindHeader(s, start, end, es[0].body, EncodeAll(es[1..]), |oui.value|);
    }
  }

  lemma BehindHeader(s: seq<byte>, start: nat, end: nat, body: seq<byte>, rest: seq<byte>, n: nat)
    requires start + 2 <= end <= |s| && s[start..end][2..] == body + rest && start + 2 + n <= |s|
    ensures n <= |body + (rest + s[end..])| && (body + (rest + s[end..]))[..n] == s[start + 2..start + 2 + n]
  {
    ConcatAssoc(body, rest, s[end..]);
    assert s[start + 2..] == s[start..end][2..] + s[end..];
    assert s[start + 2..][..n] == s[start + 2..start + 2 + n];
  }

  // ---------------------------------------------------------------------
  // Removing.

  /** What is behind the list once its first element is gone and the others have moved down: the bytes they leave. */
  function Moved(es: seq<Element>, behind: seq<byte>): (r: seq<byte>)
    requires es != [] && WfAll(es)
    ensures |r| == |behind| + Size(es[0])
  {
    Unfold(EncodeAll(es), es);
    var text := EncodeAll(es);
    (text + behind)[|text| - Size(es[0])..]
  }

  /** The elements the remover leaves, in their order, when these bytes are behind the list. */
  function Kept(es: seq<Element>, behind: seq<byte>, eid: byte, oui: Option<seq<byte>>): (r: seq<Element>)
    requires WfAll(es)
    ensures |r| <= |es| && WfAll(r)
  {
    if es == [] then []
    else if Hit(es, behind, eid, oui) then Kept(es[1..], Moved(es, behind), eid, oui)
    else [es[0]] + Kept(es[1..], behind, eid, oui)
  }

  /** The elements that do not match, in their order. */
  function Unnamed(es: seq<Element>, eid: byte, oui: Option<seq<byte>>): (r: seq<Element>) {
    if es == [] then []
    else (if Named(es[0], eid, oui) then [] else [es[0]]) + Unnamed(es[1..], eid, oui)
  }

  /** An element too short for the OUI, which the bytes behind it complete. */
  predicate Overrun(es: seq<Element>, behind: seq<byte>, eid: byte, oui: Option<seq<byte>>)
    requires es != [] && WfAll(es)
  {
    && oui.Some? && es[0].id == eid && |es[0].body| < |oui.value|
    && IsPrefix(oui.value, es[0].body + (EncodeAll(es[1..]) + behind))
  }

  /** There is one in the list, as it stands when the elements in front that match are gone. */
  predicate SomeOverrun(es: seq<Element>, behind: seq<byte>, eid: byte, oui: Option<seq<byte>>)
    requires WfAll(es)
  {
    es != [] &&
    (Overrun(es, behind, eid, oui)
     || SomeOverrun(es[1..], if Named(es[0], eid, oui) then Moved(es, behind) else behind, eid, oui))
  }

  lemma HitIsNamedOrOverrun(es: seq<Element>, behind: seq<byte>, eid: byte, oui: Option<seq<byte>>)
    requires es != [] && WfAll(es)
    ensures Hit(es, behind, eid, oui) <==> Named(es[0], eid, oui) || Overrun(es, behind, eid, oui)
    ensures !(Named(es[0], eid, oui) && Overrun(es, behind, eid, oui))
  {
    if oui.Some? && |oui.value| <= |es[0].body| {
      var n := |oui.value|;
      assert (es[0].body + (EncodeAll(es[1..]) + behind))[..n] == es[0].body[..n];
    }
  }

  lemma {:induction false} KeptAtMostUnnamed(es: seq<Element>, behind: seq<byte>, eid: byte, oui: Option<seq<byte>>)
    requires WfAll(es)
    ensures |Kept(es, behind, eid, oui)| <= |Unnamed(es, eid, oui)|
  {
    if es != [] {
      HitIsNamedOrOverrun(es, behind, eid, oui);
      KeptAtMostUnnamed(es[1..], if Hit(es, behind, eid, oui) then Moved(es, behind) else behind, eid, oui);
    }
  }

  lemma {:induction false} KeptVersusUnnamed(es: seq<Element>, behind: seq<byte>, eid: byte, oui: Option<seq<byte>>)
    requires WfAll(es)
    ensures SomeOverrun(es, behind, eid, oui) ==> |Kept(es, behind, eid, oui)| < |Unnamed(es, eid, oui)|
    ensures !SomeOverrun(es, behind, eid, oui) ==> Kept(es, behind, eid, oui) == Unnamed(es, eid, oui)
  {
    if es != [] {
      HitIsNamedOrOverrun(es, behind, eid, oui);
      if Overrun(es, behind, eid, oui) {
        KeptAtMostUnnamed(es[1..], Moved(es, behind), eid, oui);
      } else {
        KeptVersusUnnamed(es[1..], if Named(es[0], eid, oui) then Moved(es, behind) else behind, eid, oui);
      }
    }
  }

  /**
   The remover is the filter exactly when no comparison is completed by bytes
   behind a short element, be they in the list or behind it.
   */
  lemma RemovalFiltersExactly(es: seq<Element>, behind: seq<byte>, eid: byte, oui: Option<seq<byte>>)
    requires WfAll(es)
    ensures Kept(es, behind, eid, oui) == Unnamed(es, eid, oui) <==> !SomeOverrun(es, behind, eid, oui)
  {
    KeptVersusUnnamed(es, behind, eid, oui);
  }

  lemma {:induction false} LongCandidatesDoNotOverrun(es: seq<Element>, behind: seq<byte>, eid: byte,
                                                      oui: Option<seq<byte>>)
    requires WfAll(es)
    requires oui.Some? ==> forall k :: 0 <= k < |es| && es[k].id == eid ==> |oui.value| <= |es[k].body|
    ensures !SomeOverrun(es, behind, eid, oui)
  {
    if es != [] {
      LongCandidatesDoNotOverrun(es[1..], if Named(es[0], eid, oui) then Moved(es, behind) else behind, eid, oui);
    }
  }

  lemma {:induction false} LongCandidatesAreReadable(es: seq<Element>, behind: seq<byte>, eid: byte,
                                                     oui: Option<seq<byte>>)
    requires oui.Some? ==> forall k :: 0 <= k < |es| && es[k].id == eid ==> |oui.value| <= |es[k].body|
    ensures Readable(es, behind, eid, oui)
  {
    if es != [] {
      LongCandidatesAreReadable(es[1..], behind, eid, oui);
    }
  }

  /** Without an OUI, or with candidates long enough for it, removing is filtering, whatever is behind the list. */
  lemma RemovalFilters(es: seq<Element>, behind: seq<byte>, eid: byte, oui: Option<seq<byte>>)
    requires WfAll(es)
    requires oui.Some? ==> forall k :: 0 <= k < |es| && es[k].id == eid ==> |oui.value| <= |es[k].body|
    ensures Readable(es, behind, eid, oui) && Kept(es, behind, eid, oui) == Unnamed(es, eid, oui)
  {
    LongCandidatesAreReadable(es, behind, eid, oui);
    LongCandidatesDoNotOverrun(es, behind, eid, oui);
    RemovalFiltersExactly(es, behind, eid, oui);
  }

  /** A one-byte vendor element in front of an SSID is removed as if it carried the OUI 00:00:01. */
  lemma ShortElementIsRemoved(x: byte, behind: seq<byte>)
    ensures var es := [Element(VENDOR_SPECIFIC, [0]), Element(0, [x])];
            && WfAll(es) && Unnamed(es, VENDOR_SPECIFIC, Some([0, 0, 1])) == es
            && Kept(es, behind, VENDOR_SPECIFIC, Some([0, 0, 1])) == es[1..]
  {
    var short, ssid := Element(VENDOR_SPECIFIC, [0]), Element(0, [x]);
    var es, oui := [short, ssid], Some([0, 0, 1]);
    assert es[1..] == [ssid] && es[1..][1..] == [];
    var text := EncodeAll([ssid]);
    assert text == Encode(ssid) + EncodeAll([]) && text[0] == 0 && text[1] == 1 by {
      assert [ssid][1..] == [];
    }
    var seen := [0] + (text + behind);
    assert seen[0] == 0 && seen[1] == text[0] && seen[2] == text[1];
    assert seen[..3] == [0, 0, 1];
    assert Hit(es, behind, VENDOR_SPECIFIC, oui);
    assert Kept([ssid], Moved(es, behind), VENDOR_SPECIFIC, oui) == [ssid];
    assert Unnamed([ssid], VENDOR_SPECIFIC, oui) == [ssid];
  }

  /** As the last element it is removed when the bytes behind the list happen to be 00:01. */
  lemma LastShortElementIsRemoved(behind: seq<byte>)
    requires |behind| >= 2 && behind[0] == 0 && behind[1] == 1
    ensures var es := [Element(VENDOR_SPECIFIC, [0])];
            && WfAll(es) && Unnamed(es, VENDOR_SPECIFIC, Some([0, 0, 1])) == es
            && Readable(es, behind, VENDOR_SPECIFIC, Some([0, 0, 1]))
            && Kept(es, behind, VENDOR_SPECIFIC, Some([0, 0, 1])) == []
  {
    var es, oui := [Element(VENDOR_SPECIFIC, [0])], Some([0, 0, 1]);
    assert es[1..] == [];
    var seen := [0] + (EncodeAll(es[1..]) + behind);
    assert seen[0] == 0 && seen[1] == behind[0] && seen[2] == behind[1];
    assert seen[..3] == [0, 0, 1];
    assert Hit(es, behind, VENDOR_SPECIFIC, oui);
    assert Kept([], Moved(es, behind), VENDOR_SPECIFIC, oui) == [];
  }

  lemma {:induction false} KeptWithoutHit(es: seq<Element>, behind: seq<byte>, eid: byte, oui: Option<seq<byte>>)
    requires WfAll(es) && FirstHit(es, behind, eid, oui) == |es|
    ensures Kept(es, behind, eid, oui) == es
  {
    if es != [] {
      KeptWithoutHit(es[1..], behind, eid, oui);
      assert es == [es[0]] + es[1..];
    }
  }

  lemma SlicesBehindFirst(es: seq<Element>, k: nat)
    requires 1 <= k < |es|
    ensures es[..k] == [es[0]] + es[1..][..k - 1] && es[1..][k - 1] == es[k]
    ensures es[1..][k..] == es[k + 1..] && es[1..][k - 1..] == es[k..]
  {
  }

  lemma {:induction false} KeptBehindFirstHit(es: seq<Element>, behind: seq<byte>, eid: byte, oui: Option<seq<byte>>,
                                              k: nat)
    requires WfAll(es) && FirstHit(es, behind, eid, oui) == k < |es|
    ensures Kept(es, behind, eid, oui) == es[..k] + Kept(es[k + 1..], Moved(es[k..], behind), eid, oui)
  {
    if k == 0 {
      assert es[0..] == es && es[..0] == [];
    } else {
      KeptBehindFirstHit(es[1..], behind, eid, oui, k - 1);
      SlicesBehindFirst(es, k);
      ConcatAssoc([es[0]], es[1..][..k - 1], Kept(es[k + 1..], Moved(es[k..], behind), eid, oui));
    }
  }

  /** Fewer elements and more bytes behind them leave every comparison readable. */
  lemma {:induction false} ReadableSuffix(es: seq<Element>, behind: seq<byte>, more: seq<byte>, eid: byte,
                                          oui: Option<seq<byte>>, k: nat)
    requires Readable(es, behind, eid, oui) && k <= |es| && |behind| <= |more|
    ensures Readable(es[k..], more, eid, oui)
    decreases |es|
  {
    if k > 0 {
      ReadableSuffix(es[1..], behind, more, eid, oui, k - 1);
      assert es[1..][k - 1..] == es[k..];
    } else {
      assert es[0..] == es;
      if es != [] {
        ReadableSuffix(es[1..], behind, more, eid, oui, 0);
        assert es[1..][0..] == es[1..];
      }
    }
  }

  /** The buffer is `front` and then the encoding of a list cut at element k. */
  lemma CutAt(es: seq<Element>, k: nat)
    requires WfAll(es) && k < |es|
    ensures WfAll(es[..k]) && WfAll(es[k + 1..])
    ensures |EncodeAll(es[..k])| == TotalSize(es[..k])
    ensures EncodeAll(es) == EncodeAll(es[..k]) + (Encode(es[k]) + EncodeAll(es[k + 1..]))
  {
    EncodeAllSize(es[..k]);
    EncodeConcat(es[..k], es[k..]);
    assert es == es[..k] + es[k..] && es[k..][0] == es[k] && es[k..][1..] == es[k + 1..];
  }

  method Fetch(ies: array<byte>, from: nat, n: nat) returns (buf: array<byte>)
    requires from + n <= ies.Length && n <= MAX_IE_SIZE
    ensures fresh(buf) && buf.Length == MAX_IE_SIZE && buf[..][..n] == ies[..][from..from + n]
  {
    buf := new byte[MAX_IE_SIZE];
    var i := 0;
    while i < n
      invariant i <= n && buf[..][..i] == ies[..][from..from + i]
    {
      buf[i] := ies[from + i];
      i := i + 1;
      assert buf[..][..i] == buf[..][..i - 1] + [ies[..][from + i - 1]];
    }
  }

  method Store(ies: array<byte>, to: nat, buf: array<byte>, n: nat)
    requires to + n <= ies.Length && n <= buf.Length && buf != ies
    modifies ies
    ensures ies[..] == Splice(old(ies[..]), to, buf[..][..n])
  {
    ghost var was := ies[..];
    var i := 0;
    while i < n
      invariant i <= n && ies[..] == Splice(was, to, buf[..][..i])
    {
      SpliceOne(was, to, buf[..][..i], buf[i]);
      ies[to + i] := buf[i];
      i := i + 1;
      assert buf[..][..i] == buf[..][..i - 1] + [buf[i - 1]];
    }
  }

  /** Cutting one element out of the text behind a fixed front. */
  lemma CutOut(t: seq<byte>, u: seq<byte>, start: nat, end: nat, at: nat, size: nat,
               x: seq<byte>, e: seq<byte>, y: seq<byte>)
    requires at == start + |x| && size == |e| && at + size + |y| == end <= |t| && t[start..end] == x + (e + y)
    requires u == Splice(t, at, t[at + size..end])
    ensures u[..at] == t[..start] + x && u[at..end - size] == y
  {
    var s := t[start..end];
    assert s[..|x|] == x && s[|x| + |e|..] == y;
    assert t[start..at] == s[..|x|];
    assert t[at + size..end] == s[|x| + |e|..];
  }

  /** Take the hit at `at` out: the bytes behind it move down by way of a scratch buffer. */
  method RemoveOne(ies: array<byte>, start: nat, end: nat, at: nat, size: nat, ghost es: seq<Element>, ghost k: nat)
    requires start <= end <= ies.Length && end - start <= MAX_IE_SIZE && WfAll(es) && k < |es|
    requires ies[..][start..end] == EncodeAll(es)
    requires at == start + TotalSize(es[..k]) && size == Size(es[k])
    modifies ies
    ensures WfAll(es[..k]) && WfAll(es[k + 1..]) && start <= at <= end - size
    ensures ies[..][..at] == old(ies[..])[..start] + EncodeAll(es[..k])
    ensures ies[..][at..end - size] == EncodeAll(es[k + 1..])
    ensures ies[..][end - size..] == Moved(es[k..], old(ies[..])[end..])
  {
    ghost var was := ies[..];
    CutSizes(es, k);
    var n := end - (at + size);
    var buf := Fetch(ies, at + size, n);
    Store(ies, at, buf, n);
    RemovedOne(was, ies[..], start, end, at, size, es, k);
    KeptTail(was, ies[..], at, end, size);
    LeftBehind(was, start, end, at, size, es, k);
  }

  lemma KeptTail(was: seq<byte>, now: seq<byte>, at: nat, end: nat, size: nat)
    requires at + size <= end <= |was| && now == Splice(was, at, was[at + size..end])
    ensures |now| == |was| && now[end - size..] == was[end - size..]
  {
  }

  /** What lies behind the list now is what the elements that moved down have left. */
  lemma LeftBehind(was: seq<byte>, start: nat, end: nat, at: nat, size: nat, es: seq<Element>, k: nat)
    requires start <= end <= |was| && WfAll(es) && k < |es| && was[start..end] == EncodeAll(es)
    requires at == start + TotalSize(es[..k]) && size == Size(es[k]) && at + size <= end
    ensures was[end - size..] == Moved(es[k..], was[end..])
  {
    var back := es[k..];
    TextBehind(was, start, end, es, k);
    assert back[0] == es[k];
    MovedBack(back, was, at, end, size);
  }

  lemma MovedBack(back: seq<Element>, was: seq<byte>, at: nat, end: nat, size: nat)
    requires back != [] && WfAll(back) && size == Size(back[0]) && at + size <= end <= |was|
    requires was[at..end] == EncodeAll(back)
    ensures was[end - size..] == Moved(back, was[end..])
  {
    MovedIs(back, was[end..], was, at, end, size);
  }

  lemma MovedIs(es: seq<Element>, behind: seq<byte>, was: seq<byte>, at: nat, end: nat, size: nat)
    requires es != [] && WfAll(es) && size == Size(es[0]) && at + size <= end <= |was|
    requires was[at..end] == EncodeAll(es) && behind == was[end..]
    ensures was[end - size..] == Moved(es, behind)
  {
    BytesLeft(was, at, end, size, EncodeAll(es));
  }

  lemma TextBehind(was: seq<byte>, start: nat, end: nat, es: seq<Element>, k: nat)
    requires start <= end <= |was| && WfAll(es) && k <= |es| && was[start..end] == EncodeAll(es)
    ensures WfAll(es[k..]) && start + TotalSize(es[..k]) <= end
    ensures was[start + TotalSize(es[..k])..end] == EncodeAll(es[k..])
  {
    TextSplits(es, k);
    TextAfter(was, start, end, EncodeAll(es[..k]), EncodeAll(es[k..]));
  }

  lemma TextSplits(es: seq<Element>, k: nat)
    requires WfAll(es) && k <= |es|
    ensures WfAll(es[k..]) && EncodeAll(es) == EncodeAll(es[..k]) + EncodeAll(es[k..])
    ensures |EncodeAll(es[..k])| == TotalSize(es[..k])
  {
    EncodeConcat(es[..k], es[k..]);
    EncodeAllSize(es[..k]);
    assert es == es[..k] + es[k..];
  }

  lemma TextAfter(was: seq<byte>, start: nat, end: nat, x: seq<byte>, y: seq<byte>)
    requires start <= end <= |was| && was[start..end] == x + y
    ensures start + |x| <= end && was[start + |x|..end] == y
  {
    assert |x + y| == end - start;
    assert was[start + |x|..end] == (x + y)[|x|..];
  }

  lemma BytesLeft(was: seq<byte>, at: nat, end: nat, size: nat, text: seq<byte>)
    requires at + size <= end <= |was| && text == was[at..end]
    ensures was[end - size..] == (text + was[end..])[|text| - size..]
  {
    assert text + was[end..] == was[at..];
    SuffixOfSuffix(was, at, |text| - size);
  }

  lemma CutSizes(es: seq<Element>, k: nat)
    requires WfAll(es) && k < |es|
    ensures |EncodeAll(es)| >= TotalSize(es[..k]) + Size(es[k])
  {
    CutAt(es, k);
  }

  /** What is left when the bytes behind element k have moved down over it. */
  lemma RemovedOne(was: seq<byte>, now: seq<byte>, start: nat, end: nat, at: nat, size: nat, es: seq<Element>, k: nat)
    requires start <= end <= |was| && WfAll(es) && k < |es| && was[start..end] == EncodeAll(es)
    requires at == start + TotalSize(es[..k]) && size == Size(es[k]) && at + size <= end
    requires now == Splice(was, at, was[at + size..end])
    ensures WfAll(es[..k]) && WfAll(es[k + 1..])
    ensures now[..at] == was[..start] + EncodeAll(es[..k]) && now[at..end - size] == EncodeAll(es[k + 1..])
  {
    var x, e, y := EncodeAll(es[..k]), Encode(es[k]), EncodeAll(es[k + 1..]);
    CutAt(es, k);
    assert |was[start..end]| == |x + (e + y)|;
    CutOut(was, now, start, end, at, size, x, e, y);
  }

  /** Where the removal stands: `done` is kept for good, `rest` is still to be searched, `behind` is behind it. */
  ghost predicate Removing(goal: seq<Element>, done: seq<Element>, rest: seq<Element>, behind: seq<byte>, eid: byte,
                           oui: Option<seq<byte>>) {
    && WfAll(done) && WfAll(rest) && Readable(rest, behind, eid, oui)
    && goal == done + Kept(rest, behind, eid, oui)
  }

  lemma RemovingStep(goal: seq<Element>, done: seq<Element>, rest: seq<Element>, behind: seq<byte>, eid: byte,
                     oui: Option<seq<byte>>, k: nat)
    requires Removing(goal, done, rest, behind, eid, oui) && FirstHit(rest, behind, eid, oui) == k < |rest|
    ensures Removing(goal, done + rest[..k], rest[k + 1..], Moved(rest[k..], behind), eid, oui)
    ensures EncodeAll(done + rest[..k]) == EncodeAll(done) + EncodeAll(rest[..k])
  {
    var more := Moved(rest[k..], behind);
    KeptBehindFirstHit(rest, behind, eid, oui, k);
    ConcatAssoc(done, rest[..k], Kept(rest[k + 1..], more, eid, oui));
    ReadableSuffix(rest, behind, more, eid, oui, k + 1);
    EncodeConcat(done, rest[..k]);
  }

  /** The buffer up to `end`: a fixed front, the elements done, the elements still to be searched. */
  ghost predicate Stands(t: seq<byte>, front: seq<byte>, start: nat, end: nat, done: seq<Element>, rest: seq<Element>)
    requires WfAll(done) && WfAll(rest)
  {
    start <= end <= |t| && t[..start] == front + EncodeAll(done) && t[start..end] == EncodeAll(rest)
  }

  lemma Rejoin(t: seq<byte>, start: nat, end: nat, front: seq<byte>, x: seq<byte>, y: seq<byte>)
    requires start <= end <= |t| && t[..start] == front + x && t[start..end] == y
    ensures t[..end] == front + (x + y)
  {
    assert t[..end] == t[..start] + t[start..end];
    ConcatAssoc(front, x, y);
  }

  lemma RemovalEnds(t: seq<byte>, front: seq<byte>, start: nat, end: nat, goal: seq<Element>, done: seq<Element>,
                    rest: seq<Element>, eid: byte, oui: Option<seq<byte>>)
    requires start <= end <= |t| && Removing(goal, done, rest, t[end..], eid, oui)
    requires FirstHit(rest, t[end..], eid, oui) == |rest| && Stands(t, front, start, end, done, rest)
    ensures WfAll(goal) && t[..end] == front + EncodeAll(goal) && goal == done + rest
  {
    KeptWithoutHit(rest, t[end..], eid, oui);
    EncodeConcat(done, rest);
    Rejoin(t, start, end, front, EncodeAll(done), EncodeAll(rest));
  }

  /** One round of the remover: the next hit, if there is one, goes. */
  method RemoveNext(ies: array<byte>, start: nat, end: nat, eid: byte, oui: Option<seq<byte>>,
                    ghost front: seq<byte>, ghost goal: seq<Element>, ghost done: seq<Element>,
                    ghost rest: seq<Element>)
    returns (found: bool, at: nat, size: nat, ghost k: nat)
    requires start <= end <= ies.Length && end - start <= MAX_IE_SIZE
    requires Removing(goal, done, rest, ies[..][end..], eid, oui) && Stands(ies[..], front, start, end, done, rest)
    modifies ies
    ensures k == FirstHit(rest, old(ies[..])[end..], eid, oui) && (found <==> k < |rest|)
    ensures !found ==> ies[..] == old(ies[..])
    ensures found ==> start <= at && at + size <= end
    ensures found ==> Removing(goal, done + rest[..k], rest[k + 1..], ies[..][end - size..], eid, oui)
    ensures found ==> Stands(ies[..], front, at, end - size, done + rest[..k], rest[k + 1..])
  {
    ghost var behind := ies[..][end..];
    k := FirstHit(rest, behind, eid, oui);
    WalkFinds(ies[..], start, end, rest, behind, eid, oui);
    found, at, size := GetIeEx(ies, start, end - start, eid, oui);
    FindsFirstHit(rest, behind, start, eid, oui);
    if found {
      RemoveOne(ies, start, end, at, size, rest, k);
      RemovingStep(goal, done, rest, behind, eid, oui, k);
      ConcatAssoc(front, EncodeAll(done), EncodeAll(rest[..k]));
    }
  }

  /** Remove every hit from `offset` on, in place. */
  method IesRemoveIe(ies: array<byte>, iesLen: nat, offset: nat, eid: byte, oui: Option<seq<byte>>,
                     ghost es: seq<Element>)
    returns (ok: bool, newLen: nat)
    requires iesLen <= ies.Length
    requires offset < iesLen ==>
               && iesLen - offset <= MAX_IE_SIZE && WfAll(es)
               && ies[..][offset..iesLen] == EncodeAll(es) && Readable(es, ies[..][iesLen..], eid, oui)
    modifies ies
    ensures offset >= iesLen ==> !ok && newLen == iesLen && ies[..] == old(ies[..])
    ensures offset < iesLen ==>
              var kept := Kept(es, old(ies[..])[iesLen..], eid, oui);
              && offset <= newLen <= iesLen
              && ies[..][..newLen] == old(ies[..])[..offset] + EncodeAll(kept)
              && (ok <==> kept != es)
  {
    ok, newLen := false, iesLen;
    if iesLen <= offset {
      return;
    }
    ghost var front := ies[..][..offset];
    ghost var goal := Kept(es, ies[..][iesLen..], eid, oui);
    assert [] + goal == goal && front + EncodeAll([]) == front;
    ok, newLen := RemoveAll(ies, iesLen, offset, eid, oui, es, front, goal);
  }

  /** Search and move until nothing is found. */
  method RemoveAll(ies: array<byte>, iesLen: nat, offset: nat, eid: byte, oui: Option<seq<byte>>,
                   ghost es: seq<Element>, ghost front: seq<byte>, ghost goal: seq<Element>)
    returns (ok: bool, newLen: nat)
    requires offset <= iesLen <= ies.Length && iesLen - offset <= MAX_IE_SIZE
    requires Removing(goal, [], es, ies[..][iesLen..], eid, oui) && Stands(ies[..], front, offset, iesLen, [], es)
    modifies ies
    ensures offset <= newLen <= iesLen && WfAll(goal)
    ensures ies[..][..newLen] == front + EncodeAll(goal) && (ok <==> goal != es)
  {
    ok, newLen := false, iesLen;
    var start := offset;
    ghost var done: seq<Element>, rest := [], es;
    while true
      invariant offset <= start <= newLen <= iesLen
      invariant Removing(goal, done, rest, ies[..][newLen..], eid, oui)
      invariant Stands(ies[..], front, start, newLen, done, rest)
      invariant if ok then |done| + |rest| < |es| else done + rest == es
      decreases |rest|
    {
      var found, at, size;
      ghost var k;
      found, at, size, k := RemoveNext(ies, start, newLen, eid, oui, front, goal, done, rest);
      if !found {
        break;
      }
      done, rest := done + rest[..k], rest[k + 1..];
      start, newLen, ok := at, newLen - size, true;
    }
    RemovalEnds(ies[..], front, start, newLen, goal, done, rest, eid, oui);
  }
}
