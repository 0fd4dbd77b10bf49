/** The reorder buffer seen over unbounded integers.

    `Win` is the same window with sequence numbers that never wrap; `Circle` forgets the
    unwrapped numbers.  Every run of the driver's block is the image of a run of `Win`, and a
    run of `Win` passes frames up in strictly increasing order.
  */
module ReorderRefinement {
  import opened Buffers
  import opened Reorder

  /** A frame with its unwrapped sequence number. */
  datatype Pkt = Pkt(n: int, frame: Frame)

  datatype Win = Win(started: bool, start: int, wsize: nat, pend: seq<Pkt>, armed: bool, out: seq<Pkt>)

  predicate Ascending(ps: seq<Pkt>) {
    forall i, j :: 0 <= i < j < |ps| ==> ps[i].n < ps[j].n
  }

  predicate OnCircle(ps: seq<Pkt>) {
    forall i :: 0 <= i < |ps| ==> ps[i].n % SN_MODULUS == ps[i].frame.seqNum
  }

  predicate Within(ps: seq<Pkt>, lo: int, hi: int) {
    forall i :: 0 <= i < |ps| ==> lo <= ps[i].n < hi
  }

  predicate Below(ps: seq<Pkt>, hi: int) {
    forall i :: 0 <= i < |ps| ==> ps[i].n < hi
  }

  predicate Absent(ps: seq<Pkt>, n: int) {
    forall i :: 0 <= i < |ps| ==> ps[i].n != n
  }

  /** Everything passed up comes before everything pending, both in increasing order. */
  ghost predicate InOrder(w: Win) {
    && Ascending(w.out) && OnCircle(w.out)
    && Ascending(w.pend) && OnCircle(w.pend)
    && forall i :: 0 <= i < |w.pend| ==> Below(w.out, w.pend[i].n)
  }

  /** What every step keeps. */
  ghost predicate Inv(w: Win) {
    && 1 <= w.wsize <= 255
    && InOrder(w)
    && Below(w.out, w.start)
    && Within(w.pend, w.start + 1, w.start + w.wsize)
    && (w.pend != [] ==> w.armed)
    && (!w.started ==> w.pend == [] && w.out == [])
  }

  // ---------------------------------------------------------------------------------------
  // The integer window
  // ---------------------------------------------------------------------------------------

  /** The integer congruent to s that is nearest to the window start. */
  function Nearest(start: int, s: SeqNum): (n: int)
    ensures n % SN_MODULUS == s && start - 2048 <= n < start + 2048
  {
    start + (s - start + 2048) % SN_MODULUS - 2048
  }

  function SortedInsert(ps: seq<Pkt>, p: Pkt): seq<Pkt> {
    if ps == [] || p.n < ps[0].n then [p] + ps
    else [ps[0]] + SortedInsert(ps[1..], p)
  }

  function WinDrain(w: Win): (r: Win)
    ensures r.wsize == w.wsize && r.armed == w.armed && r.started == w.started
    decreases |w.pend|
  {
    if w.pend == [] || w.start < w.pend[0].n then w
    else WinDrain(PopHead(w))
  }

  /** The window after passing up the head. */
  function PopHead(w: Win): (next: Win)
    requires w.pend != []
    ensures |next.pend| < |w.pend|
  {
    var start := if w.start == w.pend[0].n then w.start + 1 else w.start;
    w.(start := start, pend := w.pend[1..], out := w.out + [w.pend[0]])
  }

  predicate Accepts(w: Win, f: Frame) {
    var n := Nearest(w.start, f.seqNum);
    !w.started || (w.start <= n && Absent(w.pend, n))
  }

  /** Where the window stands once n is accepted, before anything is passed up. */
  function Shifted(w: Win, n: int): int {
    if !w.started || n == w.start then n + 1
    else if n < w.start + w.wsize then w.start
    else n + 1 - w.wsize
  }

  /** The window with n queued and shifted, ready to drain. */
  function Queued(w: Win, f: Frame): Win {
    var n := Nearest(w.start, f.seqNum);
    w.(started := true, start := Shifted(w, n), pend := SortedInsert(w.pend, Pkt(n, f)))
  }

  function WinReceive(w: Win, f: Frame): Win {
    if !Accepts(w, f) then w
    else
      var d := WinDrain(Queued(w, f));
      d.(armed := d.pend != [])
  }

  function WinExpire(w: Win): Win {
    if w.pend == [] then w.(armed := true)
    else
      var d := WinDrain(w.(start := w.pend[0].n, armed := false));
      d.(armed := d.pend != [])
  }

  // ---------------------------------------------------------------------------------------
  // Insertion and draining over the integers
  // ---------------------------------------------------------------------------------------

  lemma {:induction false} SortedInsertFacts(ps: seq<Pkt>, p: Pkt, lo: int, hi: int)
    requires Ascending(ps) && OnCircle(ps) && Within(ps, lo, hi) && Absent(ps, p.n)
    requires lo <= p.n < hi && p.n % SN_MODULUS == p.frame.seqNum
    ensures Ascending(SortedInsert(ps, p)) && OnCircle(SortedInsert(ps, p)) && Within(SortedInsert(ps, p), lo, hi)
  {
    if ps == [] || p.n < ps[0].n {
    } else {
      SortedInsertFacts(ps[1..], p, ps[0].n + 1, hi);
      assert SortedInsert(ps, p) == [ps[0]] + SortedInsert(ps[1..], p);
    }
  }

  lemma {:induction false} SortedInsertContents(ps: seq<Pkt>, p: Pkt)
    ensures multiset(SortedInsert(ps, p)) == multiset(ps) + multiset{p}
  {
    if ps == [] || p.n < ps[0].n {
    } else {
      SortedInsertContents(ps[1..], p);
      assert ps == [ps[0]] + ps[1..];
    }
  }

  /** Draining only moves the boundary between what is out and what is pending. */
  lemma {:induction false} DrainMovesBoundary(w: Win)
    ensures var r := WinDrain(w);
            && r.out + r.pend == w.out + w.pend
            && w.out <= r.out && w.start <= r.start
            && (r.pend == [] || r.start < r.pend[0].n)
    decreases |w.pend|
  {
    if w.pend == [] || w.start < w.pend[0].n {
    } else {
      var next := PopHead(w);
      DrainMovesBoundary(next);
      assert next.out + next.pend == w.out + w.pend;
    }
  }

  /** The window start stops at the first number from w.start on that was not pending. */
  lemma {:induction false} DrainFillsGap(w: Win)
    requires Ascending(w.pend) && Below(w.out, w.start)
    ensures Below(WinDrain(w).out, WinDrain(w).start)
    ensures forall k :: w.start <= k < WinDrain(w).start ==> !Absent(w.pend, k)
    decreases |w.pend|
  {
    if w.pend == [] || w.start < w.pend[0].n {
    } else {
      var next := PopHead(w);
      DrainFillsGap(next);
      forall k | w.start <= k < WinDrain(w).start
        ensures !Absent(w.pend, k)
      {
        if k == w.pend[0].n {
        } else {
          assert !Absent(next.pend, k);
          var i :| 0 <= i < |next.pend| && next.pend[i].n == k;
          assert w.pend[i + 1].n == k;
        }
      }
    }
  }

  lemma {:induction false} DrainKeepsOrder(w: Win, hi: int)
    requires InOrder(w) && Below(w.pend, hi)
    ensures InOrder(WinDrain(w)) && Below(WinDrain(w).pend, hi)
    decreases |w.pend|
  {
    if w.pend == [] || w.start < w.pend[0].n {
    } else {
      var next := PopHead(w);
      DrainKeepsOrder(next, hi);
    }
  }

  /** Draining a window whose queue is in order restores the invariant. */
  lemma DrainRestores(w: Win)
    requires 1 <= w.wsize <= 255 && w.started
    requires InOrder(w) && Below(w.out, w.start) && Below(w.pend, w.start + w.wsize)
    ensures var d := WinDrain(w); Inv(d.(armed := d.pend != []))
  {
    DrainMovesBoundary(w);
    DrainFillsGap(w);
    DrainKeepsOrder(w, w.start + w.wsize);
  }

  lemma QueuedInOrder(w: Win, f: Frame)
    requires Inv(w) && Accepts(w, f)
    ensures var q := Queued(w, f); InOrder(q) && Below(q.out, q.start) && Below(q.pend, q.start + q.wsize)
  {
    var n := Nearest(w.start, f.seqNum);
    var q := Queued(w, f);
    if w.started {
      SortedInsertFacts(w.pend, Pkt(n, f), w.start, q.start + q.wsize);
    }
  }

  lemma ReceiveKeepsInv(w: Win, f: Frame)
    requires Inv(w)
    ensures Inv(WinReceive(w, f))
  {
    if Accepts(w, f) {
      QueuedInOrder(w, f);
      DrainRestores(Queued(w, f));
    }
  }

  lemma ExpireKeepsInv(w: Win)
    requires Inv(w)
    ensures Inv(WinExpire(w))
  {
    if w.pend != [] {
      DrainRestores(w.(start := w.pend[0].n, armed := false));
    }
  }

  /** The receive rule of section 9.21.7.6 of IEEE Std 802.11-2012, over integers: an accepted
      frame joins the buffer, the window moves to hold it, and exactly the frames before the
      first number still missing are passed up, in order. */
  lemma ReceiveRule(w: Win, f: Frame)
    requires Inv(w) && Accepts(w, f)
    ensures var n := Nearest(w.start, f.seqNum);
            var r := WinReceive(w, f);
            && w.out <= r.out
            && multiset(r.out) + multiset(r.pend) == multiset(w.out) + multiset(w.pend) + multiset{Pkt(n, f)}
            && Ascending(r.out) && Below(r.out, r.start)
            && Ascending(r.pend) && Within(r.pend, r.start + 1, r.start + r.wsize)
            && Shifted(w, n) <= r.start
            && forall k :: Shifted(w, n) <= k < r.start ==> !Absent(SortedInsert(w.pend, Pkt(n, f)), k)
  {
    ReceiveKeepsInv(w, f);
    ReceiveContents(w, f);
    QueuedInOrder(w, f);
    DrainMovesBoundary(Queued(w, f));
    DrainFillsGap(Queued(w, f));
  }

  /** The accepted frame is the only one to join. */
  lemma ReceiveContents(w: Win, f: Frame)
    requires Inv(w) && Accepts(w, f)
    ensures var r := WinReceive(w, f);
            multiset(r.out) + multiset(r.pend)
              == multiset(w.out) + multiset(w.pend) + multiset{Pkt(Nearest(w.start, f.seqNum), f)}
  {
    var q := Queued(w, f);
    QueuedInOrder(w, f);
    DrainMovesBoundary(q);
    SortedInsertContents(w.pend, Pkt(Nearest(w.start, f.seqNum), f));
    var r := WinDrain(q);
    assert multiset(r.out + r.pend) == multiset(q.out + q.pend);
  }

  // ---------------------------------------------------------------------------------------
  // The circle is the image of the line
  // ---------------------------------------------------------------------------------------

  function Frames(ps: seq<Pkt>): (fs: seq<Frame>)
    ensures |fs| == |ps| && forall i :: 0 <= i < |ps| ==> fs[i] == ps[i].frame
  {
    seq(|ps|, i requires 0 <= i < |ps| => ps[i].frame)
  }

  function Circle(w: Win): Ctrl {
    Ctrl(if w.started then w.start % SN_MODULUS else UNINITIALISED, w.wsize, Frames(w.pend), w.armed, Frames(w.out))
  }

  lemma SnLessIsLess(a: int, b: int)
    requires -2048 <= a - b < 2048
    ensures SnLess(a % SN_MODULUS, b % SN_MODULUS) <==> a < b
    ensures a % SN_MODULUS == b % SN_MODULUS <==> a == b
  {
  }

  lemma FramesTail(ps: seq<Pkt>)
    requires ps != []
    ensures Frames(ps)[0] == ps[0].frame && Frames(ps)[1..] == Frames(ps[1..])
  {
  }

  lemma FramesCons(p: Pkt, ps: seq<Pkt>)
    ensures Frames([p] + ps) == [p.frame] + Frames(ps)
  {
  }

  lemma {:induction false} InsertCommutes(ps: seq<Pkt>, p: Pkt, lo: int)
    requires Ascending(ps) && OnCircle(ps) && Within(ps, lo, lo + 2048)
    requires lo <= p.n < lo + 2048 && p.n % SN_MODULUS == p.frame.seqNum
    ensures Insert(Frames(ps), p.frame) ==
            if Absent(ps, p.n) then Some(Frames(SortedInsert(ps, p))) else None
  {
    if ps == [] {
      FramesCons(p, ps);
      assert [p.frame] + Frames(ps) == [p.frame];
    } else {
      SnLessIsLess(ps[0].n, p.n);
      FramesTail(ps);
      if ps[0].n < p.n {
        InsertCommutes(ps[1..], p, lo);
        assert Absent(ps[1..], p.n) == Absent(ps, p.n) by {
          assert ps == [ps[0]] + ps[1..];
        }
        FramesCons(ps[0], SortedInsert(ps[1..], p));
      } else if ps[0].n > p.n {
        FramesCons(p, ps);
      }
    }
  }

  lemma PopHeadCommutes(w: Win)
    requires w.started && w.pend != [] && OnCircle(w.pend)
    requires w.start - 2047 <= w.pend[0].n <= w.start
    ensures var c := Circle(w);
            && !SnLess(c.indicateSeq, c.pending[0].seqNum)
            && Drain(c) == Drain(Circle(PopHead(w)))
  {
    SnLessIsLess(w.start, w.pend[0].n);
    FramesTail(w.pend);
    FramesSnoc(w.out, w.pend[0]);
    ModOfDifference(w.start, -1);
    DrainHead(Circle(w), Circle(PopHead(w)));
  }

  lemma FramesSnoc(ps: seq<Pkt>, p: Pkt)
    ensures Frames(ps + [p]) == Frames(ps) + [p.frame]
  {
  }

  /** The drain goes on from the block without its head. */
  lemma DrainHead(c: Ctrl, d: Ctrl)
    requires c.pending != [] && !SnLess(c.indicateSeq, c.pending[0].seqNum)
    requires d.indicateSeq == if c.indicateSeq == c.pending[0].seqNum then (c.indicateSeq + 1) % SN_MODULUS
                              else c.indicateSeq
    requires d.pending == c.pending[1..] && d.indicated == c.indicated + [c.pending[0]]
    requires d.wsize == c.wsize && d.armed == c.armed
    ensures Drain(c) == Drain(d)
  {
  }

  lemma {:induction false} DrainCommutes(w: Win)
    requires w.started && Ascending(w.pend) && OnCircle(w.pend)
    requires Within(w.pend, w.start - 2047, w.start + 2049)
    ensures Drain(Circle(w)) == Circle(WinDrain(w))
    decreases |w.pend|
  {
    if w.pend == [] {
    } else if w.start < w.pend[0].n {
      SnLessIsLess(w.start, w.pend[0].n);
    } else {
      PopHeadCommutes(w);
      DrainCommutes(PopHead(w));
    }
  }

  /** One arrival on the circle is one arrival on the line; the verdict agrees, and a rejected
      frame changes nothing. */
  lemma ReceiveCommutes(w: Win, f: Frame)
    requires Inv(w)
    ensures Receive(Circle(w), f) == (Circle(WinReceive(w, f)), Accepts(w, f))
  {
    var n := Nearest(w.start, f.seqNum);
    WindowCommutes(w, f);
    if w.started && n < w.start {
    } else {
      InsertCommutes(w.pend, Pkt(n, f), if w.started then w.start else n);
      if Accepts(w, f) {
        var q := Queued(w, f);
        QueuedInOrder(w, f);
        QueuedNearby(w, f);
        DrainCommutes(q);
        assert Circle(WinDrain(q)).pending == [] <==> WinDrain(q).pend == [];
      }
    }
  }

  lemma AheadOfStart(start: int, s: SeqNum)
    ensures var n := Nearest(start, s);
            (s - start % SN_MODULUS) % SN_MODULUS == if n < start then n - start + SN_MODULUS else n - start
  {
    ModOfDifference(Nearest(start, s), start);
  }

  lemma WindowStarted(start: int, wsize: nat, s: SeqNum)
    requires 1 <= wsize <= 255
    ensures var n := Nearest(start, s);
            WindowAfter(start % SN_MODULUS, wsize, s) ==
            if n < start then None
            else if n == start then Some((n + 1) % SN_MODULUS)
            else if n < start + wsize then Some(start % SN_MODULUS)
            else Some((n + 1 - wsize) % SN_MODULUS)
  {
    var n := Nearest(start, s);
    AheadOfStart(start, s);
    if n == start {
      ModOfDifference(n, -1);
    } else if n >= start + wsize {
      EndOfWindow(n, wsize, s);
    }
  }

  lemma EndOfWindow(n: int, wsize: nat, s: SeqNum)
    requires n % SN_MODULUS == s
    ensures (s + 1 - wsize) % SN_MODULUS == (n + 1 - wsize) % SN_MODULUS
  {
    ModOfDifference(n, wsize - 1);
    assert s + 1 - wsize == n % SN_MODULUS - (wsize - 1);
  }

  /** check_indicate_seq computes the shifted start, through every wrap. */
  lemma WindowCommutes(w: Win, f: Frame)
    requires 1 <= w.wsize <= 255
    ensures var n := Nearest(w.start, f.seqNum);
            WindowAfter(Circle(w).indicateSeq, w.wsize, f.seqNum) ==
            if w.started && n < w.start then None else Some(Shifted(w, n) % SN_MODULUS)
  {
    if w.started {
      assert Circle(w).indicateSeq == w.start % SN_MODULUS;
      WindowStarted(w.start, w.wsize, f.seqNum);
    } else {
      assert Circle(w).indicateSeq == UNINITIALISED;
      WindowUnstarted(w.wsize, f.seqNum, Nearest(w.start, f.seqNum));
    }
  }

  lemma WindowUnstarted(wsize: nat, s: SeqNum, n: int)
    requires n % SN_MODULUS == s
    ensures WindowAfter(UNINITIALISED, wsize, s) == Some((n + 1) % SN_MODULUS)
  {
    assert (s - s) % SN_MODULUS == 0;
    assert (s + 1) % SN_MODULUS == (n + 1) % SN_MODULUS;
  }

  lemma ModOfDifference(a: int, b: int)
    ensures (a % SN_MODULUS - b % SN_MODULUS) % SN_MODULUS == (a - b) % SN_MODULUS
    ensures (a % SN_MODULUS - b) % SN_MODULUS == (a - b) % SN_MODULUS
  {
  }

  lemma QueuedNearby(w: Win, f: Frame)
    requires Inv(w) && Accepts(w, f)
    ensures var q := Queued(w, f); Within(q.pend, q.start - 2047, q.start + 2049)
  {
    var n := Nearest(w.start, f.seqNum);
    var q := Queued(w, f);
    if w.started {
      SortedInsertFacts(w.pend, Pkt(n, f), w.start, q.start + q.wsize);
    }
  }

  lemma ExpireCommutes(w: Win)
    requires Inv(w)
    ensures Expire(Circle(w)) == Circle(WinExpire(w))
  {
    if w.pend != [] {
      var f := w.(start := w.pend[0].n, armed := false);
      DrainCommutes(f);
      assert Circle(f) == Circle(w).(indicateSeq := w.pend[0].frame.seqNum, armed := false);
    }
  }

  // ---------------------------------------------------------------------------------------
  // Whole runs
  // ---------------------------------------------------------------------------------------

  datatype Event = Arrival(f: Frame) | Expiry

  function Step(c: Ctrl, e: Event): Ctrl {
    match e
    case Arrival(f) => Receive(c, f).0
    case Expiry => Expire(c)
  }

  function WinStep(w: Win, e: Event): Win {
    match e
    case Arrival(f) => WinReceive(w, f)
    case Expiry => WinExpire(w)
  }

  function Run(c: Ctrl, es: seq<Event>): Ctrl {
    if es == [] then c else Step(Run(c, es[..|es| - 1]), es[|es| - 1])
  }

  function WinRun(w: Win, es: seq<Event>): Win {
    if es == [] then w else WinStep(WinRun(w, es[..|es| - 1]), es[|es| - 1])
  }

  /** The unwrapped twin of a fresh session; `base` says in which turn of the circle the sender starts. */
  function FreshWin(wsize: nat, base: int): Win {
    Win(false, base, wsize, [], false, [])
  }

  /** Every run on the circle is the image of the run on the line. */
  lemma {:induction false} RunRefines(wsize: nat, base: int, es: seq<Event>)
    requires 1 <= wsize <= 255
    ensures var w := WinRun(FreshWin(wsize, base), es);
            Inv(w) && Run(Fresh(wsize), es) == Circle(w)
  {
    if es == [] {
      assert Frames([]) == [];
    } else {
      var w := WinRun(FreshWin(wsize, base), es[..|es| - 1]);
      RunRefines(wsize, base, es[..|es| - 1]);
      match es[|es| - 1]
      case Arrival(f) => ReceiveCommutes(w, f); ReceiveKeepsInv(w, f);
      case Expiry => ExpireCommutes(w); ExpireKeepsInv(w);
    }
  }
}
