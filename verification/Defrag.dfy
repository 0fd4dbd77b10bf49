/** Reassembly of fragmented frames: recvframe_chk_defrag and recvframe_defrag of
    core/rtw_recv.c, for the queue of one transmitter. */
module Defrag {
  import opened Buffers

  /** A received fragment: `data` starts with `hdrlen` bytes of header and IV and ends with
      `icvlen` bytes of ICV. */
  datatype Fragment = Fragment(seqNum: nat, fragNum: nat, more: bool, hdrlen: nat, icvlen: nat, data: seq<byte>)

  ghost predicate ValidFragment(f: Fragment) {
    f.fragNum < 16 && f.hdrlen + f.icvlen <= |f.data|
  }

  ghost predicate ValidFragments(q: seq<Fragment>) {
    forall i :: 0 <= i < |q| ==> ValidFragment(q[i])
  }

  /** The fragments of q are numbered 0, 1, 2, ... */
  predicate Consecutive(q: seq<Fragment>) {
    forall i :: 0 <= i < |q| ==> q[i].fragNum == i
  }

  /** What a fragment contributes to the message. */
  function Body(f: Fragment): seq<byte>
    requires ValidFragment(f)
  {
    f.data[f.hdrlen..|f.data| - f.icvlen]
  }

  function Bodies(q: seq<Fragment>): seq<byte>
    requires ValidFragments(q)
  {
    if q == [] then [] else Bodies(q[..|q| - 1]) + Body(q[|q| - 1])
  }

  /** Header of the first fragment and all bodies. */
  function Joined(q: seq<Fragment>): seq<byte>
    requires q != [] && ValidFragments(q)
  {
    q[0].data[..q[0].hdrlen] + Bodies(q)
  }

  function Icv(f: Fragment): seq<byte>
    requires ValidFragment(f)
  {
    f.data[|f.data| - f.icvlen..]
  }

  /** Header of the first fragment, all bodies, ICV of the last. */
  function Reassembled(q: seq<Fragment>): seq<byte>
    requires q != [] && ValidFragments(q)
  {
    Joined(q) + Icv(q[|q| - 1])
  }

  lemma ReassembledOne(f: Fragment)
    requires ValidFragment(f)
    ensures Reassembled([f]) == f.data
  {
    assert Bodies([f]) == [] + Body(f);
    assert f.data[..f.hdrlen] + Body(f) + Icv(f) == f.data;
  }

  lemma ReassembledMore(q: seq<Fragment>, next: Fragment)
    requires q != [] && ValidFragments(q) && ValidFragment(next)
    ensures ValidFragments(q + [next])
    ensures Reassembled(q + [next]) == Joined(q) + next.data[next.hdrlen..]
  {
    assert (q + [next])[..|q|] == q;
    assert next.data[next.hdrlen..] == Body(next) + Icv(next);
    assert Joined(q + [next]) == Joined(q) + Body(next);
  }

  class DefragQueue {
    var queue: seq<Fragment>

    constructor ()
      ensures queue == []
    {
      queue := [];
    }

    /** recvframe_defrag: the queue is emptied whatever the outcome. */
    method RecvframeDefrag() returns (r: Option<seq<byte>>)
      requires queue != [] && ValidFragments(queue)
      modifies this
      ensures queue == []
      ensures r == if Consecutive(old(queue)) then Some(Reassembled(old(queue))) else None
    {
      var q := queue;
      queue := [];
      var curfragnum := 0;
      if curfragnum != q[0].fragNum {
        return None;
      }
      curfragnum := curfragnum + 1;
      var data, icvlen := q[0].data, q[0].icvlen;
      var at := 1;
      assert q[..1] == [q[0]];
      ReassembledOne(q[0]);
      while at < |q|
        invariant queue == [] && 1 <= at <= |q| && curfragnum == at
        invariant Consecutive(q[..at])
        invariant data == Reassembled(q[..at]) && icvlen == |Icv(q[at - 1])|
      {
        var next := q[at];
        if curfragnum != next.fragNum {
          return None;
        }
        curfragnum := curfragnum + 1;
        ReassembledMore(q[..at], next);
        assert q[..at] + [next] == q[..at + 1];
        assert data[..|data| - icvlen] == Joined(q[..at]);
        data := data[..|data| - icvlen] + next.data[next.hdrlen..];
        icvlen := next.icvlen;
        at := at + 1;
      }
      assert q[..at] == q;
      return Some(data);
    }

    /** recvframe_chk_defrag: hand back a whole frame, queue a fragment, or finish a message, and check
        what comes out.  `known`: the transmitter has a queue; `passes`: the MIC check, which passes
        every frame that is not protected. */
    method ChkDefrag(f: Fragment, known: bool, passes: seq<byte> -> bool) returns (r: Option<seq<byte>>)
      requires ValidFragment(f) && ValidFragments(queue)
      modifies this
      ensures ValidFragments(queue)
      ensures queue == if known then NextQueue(old(queue), f) else old(queue)
      ensures r == Checked(passes, if known || !IsFragment(f) then Yield(old(queue), f) else None)
    {
      r := None;
      if !f.more && f.fragNum == 0 {
        r := Some(f.data);
      }
      if f.more && known {
        if f.fragNum == 0 {
          if queue != [] {
            queue := [];
          }
        }
        queue := queue + [f];
        r := None;
      }
      if !f.more && f.fragNum != 0 && known {
        queue := queue + [f];
        r := RecvframeDefrag();
      }
      if r.Some? && !passes(r.value) {
        r := None;
      }
    }
  }

  function Checked(passes: seq<byte> -> bool, r: Option<seq<byte>>): Option<seq<byte>> {
    if r.Some? && !passes(r.value) then None else r
  }

  /** What is queued after one more arrival. */
  function NextQueue(queue: seq<Fragment>, f: Fragment): seq<Fragment> {
    if f.more then (if f.fragNum == 0 then [] else queue) + [f]
    else if f.fragNum == 0 then queue
    else []
  }

  /** What one more arrival hands on. */
  function Yield(queue: seq<Fragment>, f: Fragment): Option<seq<byte>>
    requires ValidFragment(f) && ValidFragments(queue)
  {
    if f.more then None
    else if f.fragNum == 0 then Some(f.data)
    else if Consecutive(queue + [f]) then Some(Reassembled(queue + [f]))
    else None
  }

  /** A frame that is a fragment of something larger. */
  predicate IsFragment(f: Fragment) {
    f.more || f.fragNum != 0
  }

  /** The queue after a history of fragments. */
  function QueueAfter(h: seq<Fragment>): (q: seq<Fragment>)
  {
    if h == [] then [] else NextQueue(QueueAfter(h[..|h| - 1]), h[|h| - 1])
  }

  /** The last n + 1 fragments of h are 0, 1, ..., n, and only the last of them ends a message. */
  ghost predicate EndsWithMessage(h: seq<Fragment>, n: nat) {
    && n < |h|
    && forall i :: |h| - 1 - n <= i < |h| ==> h[i].fragNum == i - (|h| - 1 - n) && (i < |h| - 1 ==> h[i].more)
  }

  ghost predicate AllMore(q: seq<Fragment>) {
    forall i :: 0 <= i < |q| ==> q[i].more
  }

  ghost predicate IsTail(q: seq<Fragment>, h: seq<Fragment>) {
    |q| <= |h| && h[|h| - |q|..] == q
  }

  lemma TailStep(q: seq<Fragment>, h: seq<Fragment>, f: Fragment)
    requires IsTail(q, h) && AllMore(q) && IsFragment(f)
    ensures IsTail(NextQueue(q, f), h + [f]) && AllMore(NextQueue(q, f))
  {
    assert (h + [f])[|h| - |q|..] == h[|h| - |q|..] + [f];
    assert (h + [f])[|h|..] == [f];
  }

  /** The queue is a tail of the history in which every fragment announced another. */
  lemma {:induction false} QueueIsTail(h: seq<Fragment>)
    requires forall i :: 0 <= i < |h| ==> IsFragment(h[i])
    ensures IsTail(QueueAfter(h), h) && AllMore(QueueAfter(h))
  {
    if h != [] {
      var before := h[..|h| - 1];
      QueueIsTail(before);
      TailStep(QueueAfter(before), before, h[|h| - 1]);
      assert before + [h[|h| - 1]] == h;
    }
  }

  /** The last n + 1 fragments are 0, 1, ..., n and all announce another. */
  ghost predicate OpensAt(h: seq<Fragment>, n: nat) {
    && n < |h|
    && forall i :: |h| - 1 - n <= i < |h| ==> h[i].more && h[i].fragNum == i - (|h| - 1 - n)
  }

  /** From the last opening fragment on, the queue holds the whole tail of the history. */
  lemma {:induction false} QueueSinceOpening(h: seq<Fragment>, n: nat)
    requires OpensAt(h, n)
    ensures QueueAfter(h) == h[|h| - 1 - n..]
    decreases n
  {
    var last := h[|h| - 1];
    var before := h[..|h| - 1];
    assert last.more && last.fragNum == n;
    if n > 0 {
      assert OpensAt(before, n - 1);
      QueueSinceOpening(before, n - 1);
    }
    assert h[|h| - 1 - n..] == before[|h| - 1 - n..] + [last];
  }

  lemma TailIsConsecutive(h: seq<Fragment>, n: nat)
    requires OpensAt(h, n)
    ensures Consecutive(h[|h| - 1 - n..])
  {
  }

  /** The fragments of a history, without the whole frames between them. */
  function Pieces(h: seq<Fragment>): (ps: seq<Fragment>)
    ensures forall i :: 0 <= i < |ps| ==> IsFragment(ps[i])
  {
    if h == [] then []
    else Pieces(h[..|h| - 1]) + (if IsFragment(h[|h| - 1]) then [h[|h| - 1]] else [])
  }

  lemma AppendToHistory(h: seq<Fragment>, f: Fragment)
    ensures QueueAfter(h + [f]) == NextQueue(QueueAfter(h), f)
  {
    assert (h + [f])[..|h|] == h;
  }

  /** Whole frames leave the queue alone. */
  lemma {:induction false} QueueOfPieces(h: seq<Fragment>)
    ensures QueueAfter(h) == QueueAfter(Pieces(h))
  {
    if h != [] {
      var before, f := h[..|h| - 1], h[|h| - 1];
      QueueOfPieces(before);
      if IsFragment(f) {
        AppendToHistory(Pieces(before), f);
      } else {
        assert Pieces(before) + [] == Pieces(before);
      }
    }
  }

  /** After any history, whole frames included, a closing fragment f yields a message exactly when it
      and the f.fragNum fragments received before it are numbered 0 to f.fragNum with no other
      fragment in between; the message is then put together from precisely those. */
  lemma MessageExactly(h: seq<Fragment>, f: Fragment)
    requires ValidFragments(h)
    requires ValidFragment(f) && !f.more && f.fragNum != 0
    ensures ValidFragments(QueueAfter(h)) && ValidFragments(Pieces(h))
    ensures Yield(QueueAfter(h), f).Some? <==> EndsWithMessage(Pieces(h) + [f], f.fragNum)
    ensures EndsWithMessage(Pieces(h) + [f], f.fragNum) ==>
              Yield(QueueAfter(h), f) == Some(Reassembled(Pieces(h)[|Pieces(h)| - f.fragNum..] + [f]))
  {
    QueueOfPieces(h);
    PiecesAreValid(h);
    PiecesMessage(Pieces(h), f);
  }

  lemma {:induction false} PiecesAreValid(h: seq<Fragment>)
    requires ValidFragments(h)
    ensures ValidFragments(Pieces(h))
  {
    if h != [] {
      PiecesAreValid(h[..|h| - 1]);
    }
  }

  lemma PiecesMessage(h: seq<Fragment>, f: Fragment)
    requires ValidFragments(h) && forall i :: 0 <= i < |h| ==> IsFragment(h[i])
    requires ValidFragment(f) && !f.more && f.fragNum != 0
    ensures ValidFragments(QueueAfter(h))
    ensures Yield(QueueAfter(h), f).Some? <==> EndsWithMessage(h + [f], f.fragNum)
    ensures EndsWithMessage(h + [f], f.fragNum) ==>
              Yield(QueueAfter(h), f) == Some(Reassembled(h[|h| - f.fragNum..] + [f]))
  {
    QueueIsTail(h);
    TailIsValid(QueueAfter(h), h);
    if Consecutive(QueueAfter(h) + [f]) {
      QueuedMessageEnds(h, f);
    }
    if EndsWithMessage(h + [f], f.fragNum) {
      QueueHoldsMessage(h, f);
    }
  }

  // ---------------------------------------------------------------------------------------
  // A receiver that looks at sequence numbers
  // ---------------------------------------------------------------------------------------

  /** All fragments belong to the same MSDU. */
  ghost predicate OneMessage(q: seq<Fragment>) {
    forall i :: 0 <= i < |q| ==> q[i].seqNum == q[0].seqNum
  }

  /** The fragment continues what is queued. */
  predicate Continues(queue: seq<Fragment>, f: Fragment) {
    queue != [] && f.fragNum == |queue| && f.seqNum == queue[0].seqNum
  }

  /** What a strict receiver queues: only the next fragment of the same MSDU joins, any other empties the queue. */
  function StrictNext(queue: seq<Fragment>, f: Fragment): seq<Fragment> {
    if f.more then (if f.fragNum == 0 then [f] else if Continues(queue, f) then queue + [f] else [])
    else if f.fragNum == 0 then queue
    else []
  }

  /** What it hands on: whole frames and whole MSDUs. */
  function StrictYield(queue: seq<Fragment>, f: Fragment): Option<seq<byte>>
    requires ValidFragment(f) && ValidFragments(queue)
  {
    if f.more then None
    else if f.fragNum == 0 then Some(f.data)
    else if Continues(queue, f) then Some(Reassembled(queue + [f]))
    else None
  }

  function StrictAfter(h: seq<Fragment>): seq<Fragment> {
    if h == [] then [] else StrictNext(StrictAfter(h[..|h| - 1]), h[|h| - 1])
  }

  /** The strict queue is the driver's as long as that holds the beginning of one MSDU, and empty otherwise. */
  ghost predicate Related(strict: seq<Fragment>, queue: seq<Fragment>) {
    strict == if Consecutive(queue) && OneMessage(queue) then queue else []
  }

  lemma AppendKeeps(q: seq<Fragment>, f: Fragment)
    ensures Consecutive(q + [f]) <==> Consecutive(q) && f.fragNum == |q|
    ensures q != [] ==> (OneMessage(q + [f]) <==> OneMessage(q) && f.seqNum == q[0].seqNum)
  {
    var r := q + [f];
    assert r[|q|] == f;
    assert forall i :: 0 <= i < |q| ==> r[i] == q[i];
  }

  lemma RelatedStep(strict: seq<Fragment>, queue: seq<Fragment>, f: Fragment)
    requires Related(strict, queue)
    ensures Related(StrictNext(strict, f), NextQueue(queue, f))
  {
    if f.more && f.fragNum == 0 {
      assert [] + [f] == [f];
    } else if f.more {
      AppendKeeps(queue, f);
    }
  }

  lemma {:induction false} QueuesRelated(h: seq<Fragment>)
    ensures Related(StrictAfter(h), QueueAfter(h))
  {
    if h != [] {
      QueuesRelated(h[..|h| - 1]);
      RelatedStep(StrictAfter(h[..|h| - 1]), QueueAfter(h[..|h| - 1]), h[|h| - 1]);
    }
  }

  /** A closing fragment completes a run of numbers made up of more than one MSDU. */
  ghost predicate Mixes(queue: seq<Fragment>, f: Fragment) {
    !f.more && f.fragNum != 0 && Consecutive(queue + [f]) && !OneMessage(queue + [f])
  }

  lemma AgreeOnQueues(strict: seq<Fragment>, queue: seq<Fragment>, f: Fragment)
    requires Related(strict, queue) && ValidFragment(f) && ValidFragments(queue) && ValidFragments(strict)
    ensures Yield(queue, f) == StrictYield(strict, f) <==> !Mixes(queue, f)
  {
    AppendKeeps(queue, f);
  }

  /** After any history, the driver hands on what a receiver that keeps MSDUs apart would, exactly when the
      fragments it joins do not differ in sequence number. */
  lemma JoinsOneMessageExactly(h: seq<Fragment>, f: Fragment)
    requires ValidFragments(h) && ValidFragment(f)
    ensures ValidFragments(QueueAfter(h)) && ValidFragments(StrictAfter(h))
    ensures Yield(QueueAfter(h), f) == StrictYield(StrictAfter(h), f) <==> !Mixes(QueueAfter(h), f)
  {
    QueueIsValid(h);
    QueuesRelated(h);
    AgreeOnQueues(StrictAfter(h), QueueAfter(h), f);
  }

  lemma {:induction false} QueueIsValid(h: seq<Fragment>)
    requires ValidFragments(h)
    ensures ValidFragments(QueueAfter(h))
  {
    if h != [] {
      QueueIsValid(h[..|h| - 1]);
    }
  }

  /** Fragments of two different messages are joined into one. */
  lemma DifferentMessagesAreJoined(f: Fragment, g: Fragment)
    requires ValidFragment(f) && f.fragNum == 0 && f.more
    requires ValidFragment(g) && g.fragNum == 1 && !g.more && g.seqNum != f.seqNum
    ensures QueueAfter([f]) == [f] && Mixes([f], g)
    ensures Yield([f], g) == Some(f.data[..f.hdrlen] + Body(f) + Body(g) + Icv(g))
  {
    assert [f][..0] == [] && QueueAfter([]) == [];
    assert Consecutive([f] + [g]);
    AppendKeeps([f], g);
    assert Bodies([f]) == Body(f) by {
      assert [f][..0] == [] && [] + Body(f) == Body(f);
    }
    ReassembledMore([f], g);
    assert g.data[g.hdrlen..] == Body(g) + Icv(g);
    ConcatAssoc(f.data[..f.hdrlen] + Body(f), Body(g), Icv(g));
  }

  lemma TailIsValid(q: seq<Fragment>, h: seq<Fragment>)
    requires IsTail(q, h) && ValidFragments(h)
    ensures ValidFragments(q)
  {
    assert forall i :: 0 <= i < |q| ==> q[i] == h[|h| - |q| + i];
  }

  lemma QueuedMessageEnds(h: seq<Fragment>, f: Fragment)
    requires forall i :: 0 <= i < |h| ==> IsFragment(h[i])
    requires Consecutive(QueueAfter(h) + [f])
    ensures EndsWithMessage(h + [f], f.fragNum)
  {
    QueueIsTail(h);
    TailMakesMessage(QueueAfter(h), h, f);
  }

  lemma TailMakesMessage(q: seq<Fragment>, h: seq<Fragment>, f: Fragment)
    requires IsTail(q, h) && AllMore(q) && Consecutive(q + [f])
    ensures EndsWithMessage(h + [f], f.fragNum)
  {
    var front, message := h[..|h| - |q|], q + [f];
    assert message[|q|] == f;
    assert h + [f] == front + message;
    forall i | |front| <= i <= |h|
      ensures (h + [f])[i].fragNum == i - |front| && (i < |h| ==> (h + [f])[i].more)
    {
      assert (front + message)[i] == message[i - |front|];
    }
  }

  lemma QueueHoldsMessage(h: seq<Fragment>, f: Fragment)
    requires f.fragNum != 0 && EndsWithMessage(h + [f], f.fragNum)
    ensures QueueAfter(h) == h[|h| - f.fragNum..]
    ensures Consecutive(QueueAfter(h) + [f])
  {
    OpensBeforeClosing(h, f);
    QueueSinceOpening(h, f.fragNum - 1);
    TailIsConsecutive(h, f.fragNum - 1);
    AppendConsecutive(QueueAfter(h), f);
  }

  lemma OpensBeforeClosing(h: seq<Fragment>, f: Fragment)
    requires f.fragNum != 0 && EndsWithMessage(h + [f], f.fragNum)
    ensures OpensAt(h, f.fragNum - 1)
  {
    var all, n := h + [f], f.fragNum;
    forall i | |h| - n <= i < |h|
      ensures h[i].more && h[i].fragNum == i - (|h| - n)
    {
      assert all[i] == h[i];
    }
  }

  lemma AppendConsecutive(q: seq<Fragment>, f: Fragment)
    requires Consecutive(q) && f.fragNum == |q|
    ensures Consecutive(q + [f])
  {
  }
}
