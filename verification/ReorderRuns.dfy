/** Safety and progress of the reorder buffer over every run of arrivals and timer expiries,
    stated on the driver's own 12-bit block. */
module ReorderRuns {
  import opened Buffers
  import opened Reorder
  import opened ReorderRefinement

  // ---------------------------------------------------------------------------------------
  // Order of delivery
  // ---------------------------------------------------------------------------------------

  /** `num` gives the number the sender assigned to each frame.  The run is honest when every
      frame carries its number modulo 4096 and arrives within half a turn of the window. */
  ghost predicate Honest(w: Win, num: nat -> int, es: seq<Event>) {
    forall k :: 0 <= k < |es| && es[k].Arrival? ==> HonestAt(WinRun(w, es[..k]), num, es[k].f)
  }

  ghost predicate HonestAt(w: Win, num: nat -> int, f: Frame) {
    && num(f.id) % SN_MODULUS == f.seqNum
    && w.start - 2048 <= num(f.id) < w.start + 2048
  }

  ghost predicate Numbered(ps: seq<Pkt>, num: nat -> int) {
    forall i :: 0 <= i < |ps| ==> ps[i].n == num(ps[i].frame.id)
  }

  lemma NearestIsTheNumber(start: int, n: int)
    requires start - 2048 <= n < start + 2048
    ensures Nearest(start, n % SN_MODULUS) == n
  {
  }

  lemma {:induction false} InsertNumbered(ps: seq<Pkt>, p: Pkt, num: nat -> int)
    requires Numbered(ps, num) && p.n == num(p.frame.id)
    ensures Numbered(SortedInsert(ps, p), num)
  {
    if ps == [] || p.n < ps[0].n {
    } else {
      InsertNumbered(ps[1..], p, num);
    }
  }

  lemma {:induction false} DrainNumbered(w: Win, num: nat -> int)
    requires Numbered(w.pend, num) && Numbered(w.out, num)
    ensures Numbered(WinDrain(w).pend, num) && Numbered(WinDrain(w).out, num)
    decreases |w.pend|
  {
    if w.pend != [] && w.pend[0].n <= w.start {
      DrainNumbered(PopHead(w), num);
    }
  }

  lemma {:induction false} RunNumbered(w: Win, num: nat -> int, es: seq<Event>)
    requires Honest(w, num, es) && w.pend == [] && w.out == []
    ensures Numbered(WinRun(w, es).pend, num) && Numbered(WinRun(w, es).out, num)
  {
    if es != [] {
      var k := |es| - 1;
      var before := WinRun(w, es[..k]);
      assert Honest(w, num, es[..k]) by {
        assert forall i :: 0 <= i < k ==> es[..k][..i] == es[..i];
      }
      RunNumbered(w, num, es[..k]);
      match es[k]
      case Arrival(f) =>
        assert HonestAt(before, num, f);
        NearestIsTheNumber(before.start, num(f.id));
        InsertNumbered(before.pend, Pkt(num(f.id), f), num);
        DrainNumbered(Queued(before, f), num);
      case Expiry =>
        if before.pend != [] {
          DrainNumbered(before.(start := before.pend[0].n, armed := false), num);
        }
    }
  }

  /** However often the 12-bit numbers wrap, frames leave in the strict order of the sender's
      numbers: nothing is passed up twice or out of order. */
  lemma DeliveredInSenderOrder(wsize: nat, base: int, num: nat -> int, es: seq<Event>)
    requires 1 <= wsize <= 255
    requires Honest(FreshWin(wsize, base), num, es)
    ensures var up := Run(Fresh(wsize), es).indicated;
            forall i, j :: 0 <= i < j < |up| ==> num(up[i].id) < num(up[j].id)
  {
    RunRefines(wsize, base, es);
    RunNumbered(FreshWin(wsize, base), num, es);
  }

  // ---------------------------------------------------------------------------------------
  // The pending list
  // ---------------------------------------------------------------------------------------

  /** How far a buffered frame lies ahead of the window start on the circle. */
  function Ahead(c: Ctrl, i: nat): int
    requires i < |c.pending|
  {
    (c.pending[i].seqNum - c.indicateSeq) % SN_MODULUS
  }

  ghost predicate WellQueued(c: Ctrl) {
    && |c.pending| < c.wsize
    && (forall i :: 0 <= i < |c.pending| ==> 1 <= Ahead(c, i) < c.wsize)
    && (forall i, j :: 0 <= i < j < |c.pending| ==> Ahead(c, i) < Ahead(c, j))
    && (c.pending != [] ==> c.armed)
  }

  lemma {:induction false} AscendingSpreads(ps: seq<Pkt>, lo: int, k: nat)
    requires Ascending(ps) && k < |ps| && lo <= ps[0].n
    ensures lo + k <= ps[k].n
  {
    if k > 0 {
      AscendingSpreads(ps, lo, k - 1);
    }
  }

  lemma AheadIsDistance(w: Win, i: nat)
    requires Inv(w) && i < |w.pend|
    ensures Ahead(Circle(w), i) == w.pend[i].n - w.start
  {
    ModOfDifference(w.pend[i].n, w.start);
  }

  /** After every run the queue is sorted, free of duplicates, holds fewer than wsize frames,
      all strictly inside the window, and has its timer armed unless it is empty. */
  lemma PendingAlwaysWellQueued(wsize: nat, es: seq<Event>)
    requires 1 <= wsize <= 255
    ensures ValidCtrl(Run(Fresh(wsize), es)) && WellQueued(Run(Fresh(wsize), es))
  {
    RunRefines(wsize, 0, es);
    var w := WinRun(FreshWin(wsize, 0), es);
    KeepsWsize(FreshWin(wsize, 0), es);
    forall i | 0 <= i < |w.pend|
      ensures Ahead(Circle(w), i) == w.pend[i].n - w.start
    {
      AheadIsDistance(w, i);
    }
    if w.pend != [] {
      AscendingSpreads(w.pend, w.start + 1, |w.pend| - 1);
    }
  }

  lemma {:induction false} KeepsWsize(w: Win, es: seq<Event>)
    ensures WinRun(w, es).wsize == w.wsize
  {
    if es != [] {
      KeepsWsize(w, es[..|es| - 1]);
    }
  }

  // ---------------------------------------------------------------------------------------
  // Nothing lost, nothing invented
  // ---------------------------------------------------------------------------------------

  /** The frames taken during the run. */
  function Taken(c: Ctrl, es: seq<Event>): seq<Frame> {
    if es == [] then []
    else
      var k := |es| - 1;
      var before := Taken(c, es[..k]);
      if es[k].Arrival? && Receive(Run(c, es[..k]), es[k].f).1 then before + [es[k].f] else before
  }

  lemma {:induction false} InsertConserves(pending: seq<Frame>, f: Frame)
    ensures var r := Insert(pending, f); r.Some? ==> multiset(r.value) == multiset(pending) + multiset{f}
  {
    if pending != [] {
      assert pending == [pending[0]] + pending[1..];
      InsertConserves(pending[1..], f);
    }
  }

  lemma {:induction false} DrainConserves(c: Ctrl)
    ensures Drain(c).indicated + Drain(c).pending == c.indicated + c.pending
    ensures c.indicated <= Drain(c).indicated
    decreases |c.pending|
  {
    if c.pending == [] || SnLess(c.indicateSeq, c.pending[0].seqNum) {
    } else {
      var head := c.pending[0];
      var start := if c.indicateSeq == head.seqNum then (c.indicateSeq + 1) % SN_MODULUS else c.indicateSeq;
      var next := c.(indicateSeq := start, pending := c.pending[1..], indicated := c.indicated + [head]);
      DrainConserves(next);
      assert next.indicated + next.pending == c.indicated + c.pending;
    }
  }

  function Held(c: Ctrl): multiset<Frame> {
    multiset(c.indicated) + multiset(c.pending)
  }

  lemma DrainHolds(c: Ctrl)
    ensures Held(Drain(c)) == Held(c)
  {
    DrainConserves(c);
    assert multiset(Drain(c).indicated + Drain(c).pending) == multiset(c.indicated + c.pending);
  }

  /** Every frame taken is, after any run, pending or passed up exactly as often as it was
      taken; and frames that were refused are nowhere. */
  lemma {:induction false} EveryTakenFrameIsHeldOnce(c: Ctrl, es: seq<Event>)
    requires Held(c) == multiset{}
    ensures Held(Run(c, es)) == multiset(Taken(c, es))
  {
    if es == [] {
    } else {
      var k := |es| - 1;
      var b := Run(c, es[..k]);
      EveryTakenFrameIsHeldOnce(c, es[..k]);
      match es[k]
      case Arrival(f) =>
        InsertConserves(b.pending, f);
        var start, queue := WindowAfter(b.indicateSeq, b.wsize, f.seqNum), Insert(b.pending, f);
        if start.Some? && queue.Some? {
          DrainHolds(b.(indicateSeq := start.value, pending := queue.value));
        }
      case Expiry =>
        if b.pending != [] {
          DrainHolds(b.(indicateSeq := b.pending[0].seqNum, armed := false));
        }
    }
  }

  /** A refused frame, old or duplicate, leaves the whole block as it was: in particular it
      never moves the window. */
  lemma RefusedFrameChangesNothing(wsize: nat, es: seq<Event>, f: Frame)
    requires 1 <= wsize <= 255
    ensures var c := Run(Fresh(wsize), es); !Receive(c, f).1 ==> Receive(c, f).0 == c
  {
    RunRefines(wsize, 0, es);
    ReceiveCommutes(WinRun(FreshWin(wsize, 0), es), f);
  }

  // ---------------------------------------------------------------------------------------
  // Progress
  // ---------------------------------------------------------------------------------------

  /** An expiry with frames pending passes at least one of them up. */
  lemma ExpiryDelivers(c: Ctrl)
    requires c.pending != []
    ensures |Expire(c).pending| < |c.pending| && c.indicated < Expire(c).indicated
  {
    var f := c.(indicateSeq := c.pending[0].seqNum, armed := false);
    var next := f.(indicateSeq := (f.indicateSeq + 1) % SN_MODULUS, pending := c.pending[1..],
                   indicated := c.indicated + [c.pending[0]]);
    assert Drain(f) == Drain(next);
    DrainConserves(next);
    assert |Drain(next).indicated + Drain(next).pending| == |next.indicated + next.pending|;
  }

  function Expiries(k: nat): (es: seq<Event>)
    ensures |es| == k
  {
    seq(k, _ => Expiry)
  }

  /** With no arrivals, at most |pending| expiries empty the queue, and everything that was
      taken has then been passed up. */
  lemma {:induction false} ExpiriesEmptyTheQueue(c: Ctrl, k: nat)
    requires |c.pending| <= k
    ensures Run(c, Expiries(k)).pending == []
    ensures multiset(Run(c, Expiries(k)).indicated) == Held(c)
    decreases k
  {
    if k == 0 {
    } else if c.pending == [] {
      ExpiriesEmptyTheQueue(c, k - 1);
      assert Expiries(k)[..k - 1] == Expiries(k - 1);
    } else {
      RunFromFirst(c, Expiries(k));
      assert Expiries(k)[1..] == Expiries(k - 1);
      ExpiryDelivers(c);
      DrainHolds(c.(indicateSeq := c.pending[0].seqNum, armed := false));
      ExpiriesEmptyTheQueue(Expire(c), k - 1);
    }
  }

  lemma {:induction false} RunFromFirst(c: Ctrl, es: seq<Event>)
    requires es != []
    ensures Run(c, es) == Run(Step(c, es[0]), es[1..])
  {
    if |es| > 1 {
      var k := |es| - 1;
      RunFromFirst(c, es[..k]);
      assert es[..k][1..] == es[1..][..k - 1];
    }
  }
}
