/** amsdu_to_msdu of core/rtw_recv.c: splitting an aggregated frame body into its MSDUs. */
module Amsdu {
  import opened Buffers

  newtype Octet = b: int | 0 <= b < 256

  const ETH_HLEN := 14
  const MAX_SUBFRAME_COUNT := 64

  /** A subframe on the air: two addresses, then a length, then the MSDU. */
  datatype Subframe = Subframe(addrs: seq<Octet>, msdu: seq<Octet>)

  ghost predicate ValidSubframe(s: Subframe) {
    |s.addrs| == 12 && |s.msdu| < 0x1_0000
  }

  ghost predicate ValidSubframes(subs: seq<Subframe>) {
    forall i :: 0 <= i < |subs| ==> ValidSubframe(subs[i])
  }

  function Bytes(s: Subframe): (b: seq<Octet>)
    requires ValidSubframe(s)
    ensures |b| == ETH_HLEN + |s.msdu|
  {
    s.addrs + [(|s.msdu| / 256) as Octet, (|s.msdu| % 256) as Octet] + s.msdu
  }

  function Be16(hi: Octet, lo: Octet): nat {
    var h, l := hi as int, lo as int;
    h * 256 + l
  }

  /** Bytes needed after a subframe body of n bytes to reach a multiple of four. */
  function Padding(n: nat): nat {
    var over := (n + ETH_HLEN) % 4;
    if over == 0 then 0 else 4 - over
  }

  function Pad(n: nat): (r: seq<Octet>)
    ensures |r| == Padding(n)
  {
    seq(Padding(n), _ => 0)
  }

  /** Section 8.3.2.2 of IEEE Std 802.11-2012: every subframe but the last is padded. */
  function Encode(subs: seq<Subframe>): seq<Octet>
    requires ValidSubframes(subs)
  {
    if subs == [] then []
    else if |subs| == 1 then Bytes(subs[0])
    else Bytes(subs[0]) + (Pad(|subs[0].msdu|) + Encode(subs[1..]))
  }

  function Msdus(subs: seq<Subframe>): seq<seq<Octet>> {
    if subs == [] then [] else [subs[0].msdu] + Msdus(subs[1..])
  }

  /** The length field of the subframe at `pos`. */
  function Len(body: seq<Octet>, pos: nat): nat
    requires pos + ETH_HLEN <= |body|
  {
    Be16(body[pos + 12], body[pos + 13])
  }

  /** A subframe starts at `pos` and lies inside the body. */
  predicate HasSubframe(body: seq<Octet>, pos: nat) {
    pos + ETH_HLEN < |body| && pos + ETH_HLEN + Len(body, pos) <= |body|
  }

  /** What the splitter finds from `pos` on when `room` entries of its table are free. */
  function SplitFrom(body: seq<Octet>, pos: nat, room: nat): seq<seq<Octet>>
    decreases |body| - pos
  {
    if room == 0 || !HasSubframe(body, pos) then []
    else
      var end := pos + ETH_HLEN + Len(body, pos);
      [body[pos + ETH_HLEN..end]] + SplitFrom(body, end + Padding(Len(body, pos)), room - 1)
  }

  function Split(body: seq<Octet>): seq<seq<Octet>> {
    SplitFrom(body, 0, MAX_SUBFRAME_COUNT)
  }

  lemma NothingLeft(body: seq<Octet>, pos: nat, room: nat)
    requires |body| <= pos + ETH_HLEN
    ensures SplitFrom(body, pos, room) == []
  {
  }

  /** The padding as the loop computes it. */
  method PaddingLen(n: nat) returns (padding_len: nat)
    ensures padding_len == Padding(n)
  {
    padding_len := 4 - (n + ETH_HLEN) % 4;
    if padding_len == 4 {
      padding_len := 0;
    }
  }

  /** Past the padding to the next subframe; `more` is false when the padding is cut off. */
  method SkipPadding(pdata: nat, a_len: nat, n: nat, ghost end: nat) returns (pdata': nat, a_len': nat, more: bool)
    requires pdata + a_len == end
    ensures more ==> pdata' + a_len' == end && a_len' <= a_len
    ensures more && a_len' != 0 ==> pdata' == pdata + Padding(n)
    ensures !more || a_len' == 0 ==> pdata + Padding(n) >= end
  {
    pdata', a_len', more := pdata, a_len, true;
    if a_len != 0 {
      var padding_len := PaddingLen(n);
      if a_len < padding_len {
        more := false;
        return;
      }
      pdata', a_len' := pdata + padding_len, a_len - padding_len;
    }
  }

  /** What has been found, and what is still to be found from `pos` on, make up the goal. */
  ghost predicate Found(body: seq<Octet>, pos: nat, found: seq<seq<Octet>>, goal: seq<seq<Octet>>) {
    |found| <= MAX_SUBFRAME_COUNT && goal == found + SplitFrom(body, pos, MAX_SUBFRAME_COUNT - |found|)
  }

  lemma FoundNothing(body: seq<Octet>)
    ensures Found(body, 0, [], Split(body))
  {
  }

  lemma FoundMore(body: seq<Octet>, pos: nat, found: seq<seq<Octet>>, goal: seq<seq<Octet>>)
    requires Found(body, pos, found, goal) && |found| < MAX_SUBFRAME_COUNT && HasSubframe(body, pos)
    ensures var end := pos + ETH_HLEN + Len(body, pos);
            Found(body, end + Padding(Len(body, pos)), found + [body[pos + ETH_HLEN..end]], goal)
    ensures |found| < |goal| && goal[..|found|] == found
  {
  }

  lemma FoundAll(body: seq<Octet>, pos: nat, found: seq<seq<Octet>>, goal: seq<seq<Octet>>)
    requires Found(body, pos, found, goal) && (|found| == MAX_SUBFRAME_COUNT || !HasSubframe(body, pos))
    ensures goal == found
  {
  }

  /** The loop of amsdu_to_msdu; packets can be allocated for the first `packets` subframes, and a
      failed allocation ends the loop with what has been found.  Every index below is checked
      against the body, so no byte past it is ever read. */
  method AmsduToMsdu(body: seq<Octet>, packets: nat) returns (subframes: seq<seq<Octet>>)
    ensures subframes == if packets < |Split(body)| then Split(body)[..packets] else Split(body)
  {
    ghost var goal := Split(body);
    FoundNothing(body);
    subframes := Subframes(body, packets, goal);
  }

  method Subframes(body: seq<Octet>, packets: nat, ghost goal: seq<seq<Octet>>) returns (subframes: seq<seq<Octet>>)
    requires Found(body, 0, [], goal)
    ensures subframes == if packets < |goal| then goal[..packets] else goal
  {
    subframes := [];
    var pdata, a_len := 0, |body|;
    while a_len > ETH_HLEN
      invariant 0 <= a_len && pdata + a_len == |body|
      invariant |subframes| < MAX_SUBFRAME_COUNT && |subframes| <= packets
      invariant Found(body, pdata, subframes, goal)
      decreases a_len
    {
      var nSubframe_Length := Len(body, pdata);
      if a_len < ETH_HLEN + nSubframe_Length {
        break;
      }
      ghost var next := pdata + ETH_HLEN + nSubframe_Length + Padding(nSubframe_Length);
      FoundMore(body, pdata, subframes, goal);
      if |subframes| == packets {
        return;
      }
      pdata := pdata + ETH_HLEN;
      a_len := a_len - ETH_HLEN;
      subframes := subframes + [body[pdata..pdata + nSubframe_Length]];
      if |subframes| >= MAX_SUBFRAME_COUNT {
        FoundAll(body, next, subframes, goal);
        return;
      }
      var more;
      pdata, a_len, more := SkipPadding(pdata + nSubframe_Length, a_len - nSubframe_Length, nSubframe_Length, |body|);
      if !more || a_len == 0 {
        FoundAll(body, next, subframes, goal);
        return;
      }
    }
    FoundAll(body, pdata, subframes, goal);
  }

  /** What is recovered from any aggregate with a short tail: every MSDU up to the table size,
      except a final empty one that has nothing behind it. */
  function Recovered(subs: seq<Subframe>, tail: seq<Octet>, room: nat): seq<seq<Octet>> {
    if subs == [] || room == 0 || (|subs| == 1 && subs[0].msdu == [] && tail == []) then []
    else [subs[0].msdu] + Recovered(subs[1..], tail, room - 1)
  }

  /** From `pos` on, the body holds the subframes, padded, and then the tail. */
  ghost predicate Laid(body: seq<Octet>, pos: nat, subs: seq<Subframe>, tail: seq<Octet>)
    decreases |subs|
  {
    if subs == [] then pos <= |body| && body[pos..] == tail
    else
      var n := |subs[0].msdu|;
      var end := pos + ETH_HLEN + n;
      && end <= |body| && Len(body, pos) == n && body[pos + ETH_HLEN..end] == subs[0].msdu
      && if |subs| == 1 then body[end..] == tail
         else end + Padding(n) + ETH_HLEN <= |body| && Laid(body, end + Padding(n), subs[1..], tail)
  }

  lemma SubframeAt(body: seq<Octet>, pos: nat, s: Subframe, rest: seq<Octet>)
    requires ValidSubframe(s) && pos <= |body| && body[pos..] == Bytes(s) + rest
    ensures pos + ETH_HLEN <= |body| && Len(body, pos) == |s.msdu|
    ensures body[pos + ETH_HLEN..pos + ETH_HLEN + |s.msdu|] == s.msdu
    ensures body[pos + ETH_HLEN + |s.msdu|..] == rest
  {
    var n := |s.msdu|;
    assert body[pos + 12] == body[pos..][12] == (n / 256) as Octet;
    assert body[pos + 13] == body[pos..][13] == (n % 256) as Octet;
    assert forall i :: 0 <= i < |body| - pos ==> body[pos + i] == body[pos..][i];
  }

  /** An aggregate with more than one subframe, taken apart behind the first. */
  lemma EncodingHead(body: seq<Octet>, pos: nat, subs: seq<Subframe>, tail: seq<Octet>)
    requires ValidSubframes(subs) && |subs| > 1
    requires pos <= |body| && body[pos..] == Encode(subs) + tail
    ensures var n := |subs[0].msdu|;
            var end := pos + ETH_HLEN + n;
            && end + Padding(n) + ETH_HLEN <= |body| && Len(body, pos) == n && body[pos + ETH_HLEN..end] == subs[0].msdu
            && body[end + Padding(n)..] == Encode(subs[1..]) + tail
  {
    var pad := Pad(|subs[0].msdu|);
    var rest := Encode(subs[1..]) + tail;
    ConcatAssoc(Bytes(subs[0]), pad + Encode(subs[1..]), tail);
    ConcatAssoc(pad, Encode(subs[1..]), tail);
    SubframeAt(body, pos, subs[0], pad + rest);
    var end := pos + ETH_HLEN + |subs[0].msdu|;
    SuffixOfSuffix(body, end, |pad|);
    assert (pad + rest)[|pad|..] == rest;
    EncodeLong(subs[1..]);
  }

  /** Big-endian lengths, and every subframe behind the first on the next multiple of four bytes. */
  lemma EncodingIsAligned(subs: seq<Subframe>)
    requires ValidSubframes(subs) && |subs| > 1
    ensures var body, n := Encode(subs), |subs[0].msdu|;
            var next := (ETH_HLEN + n + 3) / 4 * 4;
            && next <= |body| && body[12] as int * 256 + body[13] as int == n
            && body[ETH_HLEN..ETH_HLEN + n] == subs[0].msdu && body[next..] == Encode(subs[1..])
  {
    var body := Encode(subs);
    NothingBehind(body);
    NothingBehind(Encode(subs[1..]));
    EncodingHead(body, 0, subs, []);
    RoundedUp(|subs[0].msdu|);
    LenIs(body);
  }

  lemma NothingBehind(s: seq<Octet>)
    ensures s + [] == s && s[0..] == s
  {
  }

  lemma RoundedUp(n: nat)
    ensures ETH_HLEN + n + Padding(n) == (ETH_HLEN + n + 3) / 4 * 4
  {
  }

  lemma LenIs(body: seq<Octet>)
    requires ETH_HLEN <= |body|
    ensures Len(body, 0) == body[12] as int * 256 + body[13] as int
  {
  }

  lemma EncodeLong(subs: seq<Subframe>)
    requires ValidSubframes(subs) && subs != []
    ensures |Encode(subs)| >= ETH_HLEN
  {
  }

  lemma {:induction false} EncodingIsLaid(body: seq<Octet>, pos: nat, subs: seq<Subframe>, tail: seq<Octet>)
    requires ValidSubframes(subs)
    requires pos <= |body| && body[pos..] == Encode(subs) + tail
    ensures Laid(body, pos, subs, tail)
    decreases |subs|
  {
    if subs == [] {
    } else if |subs| == 1 {
      SubframeAt(body, pos, subs[0], tail);
    } else {
      var n := |subs[0].msdu|;
      var next := pos + ETH_HLEN + n + Padding(n);
      EncodingHead(body, pos, subs, tail);
      EncodingIsLaid(body, next, subs[1..], tail);
    }
  }

  /** The last subframe with a short tail behind it. */
  lemma SplitLast(body: seq<Octet>, pos: nat, s: Subframe, tail: seq<Octet>, room: nat)
    requires Laid(body, pos, [s], tail) && |tail| <= ETH_HLEN
    ensures SplitFrom(body, pos, room) == Recovered([s], tail, room)
  {
    var end := pos + ETH_HLEN + |s.msdu|;
    assert |body| == end + |tail|;
    if room > 0 {
      NothingLeft(body, end + Padding(|s.msdu|), room - 1);
      assert Recovered([s][1..], tail, room - 1) == [];
    }
  }

  lemma {:induction false} SplitLaid(body: seq<Octet>, pos: nat, subs: seq<Subframe>, tail: seq<Octet>, room: nat)
    requires Laid(body, pos, subs, tail) && |tail| <= ETH_HLEN
    ensures SplitFrom(body, pos, room) == Recovered(subs, tail, room)
    decreases |subs|
  {
    if subs == [] {
      NothingLeft(body, pos, room);
    } else if |subs| == 1 {
      assert subs == [subs[0]];
      SplitLast(body, pos, subs[0], tail, room);
    } else if room > 0 {
      var n := |subs[0].msdu|;
      var next := pos + ETH_HLEN + n + Padding(n);
      SplitLaid(body, next, subs[1..], tail, room - 1);
    }
  }

  lemma {:induction false} RecoveredAll(subs: seq<Subframe>, tail: seq<Octet>, room: nat)
    ensures |Recovered(subs, tail, room)| <= room
    ensures Recovered(subs, tail, room) == Msdus(subs) <==>
            |subs| <= room && (subs == [] || subs[|subs| - 1].msdu != [] || tail != [])
  {
    if subs != [] && room > 0 {
      RecoveredAll(subs[1..], tail, room - 1);
      assert Msdus(subs)[1..] == Msdus(subs[1..]);
      assert Recovered(subs, tail, room) != [] ==>
          Recovered(subs, tail, room)[1..] == Recovered(subs[1..], tail, room - 1);
    }
  }

  /** The splitter recovers an aggregate exactly when it fits the table and does not end in an
      empty MSDU at the very end of the frame. */
  lemma RoundTripExactly(subs: seq<Subframe>, tail: seq<Octet>)
    requires ValidSubframes(subs) && |tail| <= ETH_HLEN
    ensures Split(Encode(subs) + tail) == Msdus(subs) <==>
            |subs| <= MAX_SUBFRAME_COUNT && (subs == [] || subs[|subs| - 1].msdu != [] || tail != [])
  {
    var body := Encode(subs) + tail;
    assert body[0..] == body;
    EncodingIsLaid(body, 0, subs, tail);
    SplitLaid(body, 0, subs, tail, MAX_SUBFRAME_COUNT);
    RecoveredAll(subs, tail, MAX_SUBFRAME_COUNT);
  }

  /** One subframe with an empty MSDU and nothing behind it is not recovered. */
  lemma EmptyLastIsDropped(s: Subframe)
    requires ValidSubframe(s) && s.msdu == []
    ensures ValidSubframes([s]) && Split(Encode([s])) == [] && Msdus([s]) == [[]]
  {
    var body := Encode([s]);
    assert |body| == ETH_HLEN;
    NothingLeft(body, 0, MAX_SUBFRAME_COUNT);
    assert [s][1..] == [];
  }

  function TotalLength(ms: seq<seq<Octet>>): nat {
    if ms == [] then 0 else ETH_HLEN + |ms[0]| + TotalLength(ms[1..])
  }

  /** On arbitrary bytes the pieces found, with their headers, fit in the body. */
  lemma {:induction false} SplitFitsBody(body: seq<Octet>, pos: nat, room: nat)
    requires pos <= |body|
    ensures pos + TotalLength(SplitFrom(body, pos, room)) <= |body|
    decreases |body| - pos
  {
    if room > 0 && HasSubframe(body, pos) {
      var end := pos + ETH_HLEN + Len(body, pos);
      var next := end + Padding(Len(body, pos));
      var more := SplitFrom(body, next, room - 1);
      if next <= |body| {
        SplitFitsBody(body, next, room - 1);
      }
      assert SplitFrom(body, pos, room)[1..] == more;
    }
  }
}
