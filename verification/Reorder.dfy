/** The A-MPDU receive reorder buffer of core/rtw_recv.c.

    Sequence numbers live on a circle of 4096.  `RecvReorderCtrl` is the driver's control
    block; its methods are specified by functions on the value `Ctrl`.  Module
    `ReorderRefinement` shows that this block is a buffer over unbounded integers.
  */
module Reorder {
  import opened Buffers

  const SN_MODULUS := 4096
  const UNINITIALISED := 0xFFFF
  const DEFAULT_WSIZE := 64

  type SeqNum = n: int | 0 <= n < SN_MODULUS

  /** A received data frame: its 12-bit sequence number and its identity. */
  datatype Frame = Frame(seqNum: SeqNum, id: nat)

  /** SN_LESS: bit 11 of the difference, in two's complement. */
  predicate SnLess(a: int, b: int) {
    (a - b) % SN_MODULUS >= SN_MODULUS / 2
  }

  /** The control block: `armed` is the reorder timer, `indicated` what was passed up. */
  datatype Ctrl = Ctrl(indicateSeq: int, wsize: nat, pending: seq<Frame>, armed: bool, indicated: seq<Frame>)

  ghost predicate ValidCtrl(c: Ctrl) {
    && 1 <= c.wsize <= 255
    && (0 <= c.indicateSeq < SN_MODULUS || (c.indicateSeq == UNINITIALISED && c.pending == []))
  }

  /** A session that has just been set up with a window of wsize. */
  function Fresh(wsize: nat): Ctrl {
    Ctrl(UNINITIALISED, wsize, [], false, [])
  }

  /** The new window start, or None when the frame is older than the window. */
  function WindowAfter(start: int, wsize: nat, s: SeqNum): Option<int> {
    var ws := if start == UNINITIALISED then s else start;
    var ahead := (s - ws) % SN_MODULUS;
    if ahead >= SN_MODULUS / 2 then None
    else if ahead == 0 then Some((ws + 1) % SN_MODULUS)
    else if ahead < wsize then Some(ws)
    else Some((s + 1 - wsize) % SN_MODULUS)
  }

  /** A frame ahead of the start is behind the end of the window exactly when it is `wsize` or more ahead. */
  lemma PastWindowEnd(start: SeqNum, wsize: nat, s: SeqNum)
    requires 1 <= wsize <= 255 && s != start && !SnLess(s, start)
    ensures SnLess((start + wsize - 1) % SN_MODULUS, s) <==> (s - start) % SN_MODULUS >= wsize
    ensures (s - start) % SN_MODULUS != 0
    ensures (s + 1 - wsize) % SN_MODULUS == if s >= wsize - 1 then s + 1 - wsize else SN_MODULUS + s + 1 - wsize
  {
    var ahead := (s - start) % SN_MODULUS;
    var wend := (start + wsize - 1) % SN_MODULUS;
    assert ahead == if s >= start then s - start else s - start + SN_MODULUS;
    assert wend == if start + wsize - 1 < SN_MODULUS then start + wsize - 1 else start + wsize - 1 - SN_MODULUS;
    var back := (wend - s) % SN_MODULUS;
    assert back == if wend >= s then wend - s else wend - s + SN_MODULUS;
  }

  /** Sorted insertion on the circle; None on a duplicate. */
  function Insert(pending: seq<Frame>, f: Frame): Option<seq<Frame>> {
    if pending == [] then Some([f])
    else if SnLess(pending[0].seqNum, f.seqNum) then
      Prefixed([pending[0]], Insert(pending[1..], f))
    else if pending[0].seqNum == f.seqNum then None
    else Some([f] + pending)
  }

  function Prefixed(front: seq<Frame>, rest: Option<seq<Frame>>): Option<seq<Frame>> {
    if rest.None? then None else Some(front + rest.value)
  }

  lemma PrefixedTwice(a: seq<Frame>, b: seq<Frame>, rest: Option<seq<Frame>>)
    ensures Prefixed([], rest) == rest
    ensures Prefixed(a, Prefixed(b, rest)) == Prefixed(a + b, rest)
  {
    if rest.Some? {
      assert [] + rest.value == rest.value;
      assert a + (b + rest.value) == (a + b) + rest.value;
    }
  }

  /** Pass up the head while it is not ahead of the window start. */
  function Drain(c: Ctrl): (r: Ctrl)
    ensures r.wsize == c.wsize && r.armed == c.armed
    decreases |c.pending|
  {
    if c.pending == [] || SnLess(c.indicateSeq, c.pending[0].seqNum) then c
    else
      var head := c.pending[0];
      var start := if c.indicateSeq == head.seqNum then (c.indicateSeq + 1) % SN_MODULUS else c.indicateSeq;
      Drain(c.(indicateSeq := start, pending := c.pending[1..], indicated := c.indicated + [head]))
  }

  /** One arrival: the new block and whether the frame was taken. */
  function Receive(c: Ctrl, f: Frame): (Ctrl, bool) {
    var start := WindowAfter(c.indicateSeq, c.wsize, f.seqNum);
    if start.None? then (c, false)
    else
      var moved := c.(indicateSeq := start.value);
      var queue := Insert(c.pending, f);
      if queue.None? then (moved, false)
      else
        var d := Drain(moved.(pending := queue.value));
        (d.(armed := d.pending != []), true)
  }

  /** One expiry of the reorder timer. */
  function Expire(c: Ctrl): Ctrl {
    if c.pending == [] then c.(armed := true)
    else
      var d := Drain(c.(indicateSeq := c.pending[0].seqNum, armed := false));
      d.(armed := d.pending != [])
  }

  class RecvReorderCtrl {
    var enable: bool
    var indicate_seq: int
    var wend_b: nat
    var wsize_b: nat
    var pending: seq<Frame>
    var timerArmed: bool
    var indicated: seq<Frame>

    ghost function View(): Ctrl
      reads this
    {
      Ctrl(indicate_seq, wsize_b, pending, timerArmed, indicated)
    }

    constructor ()
      ensures View() == Fresh(DEFAULT_WSIZE) && !enable && wend_b == UNINITIALISED
    {
      enable := false;
      indicate_seq := UNINITIALISED;
      wend_b := UNINITIALISED;
      wsize_b := DEFAULT_WSIZE;
      pending := [];
      timerArmed := false;
      indicated := [];
    }

    /** check_indicate_seq, with both branches for a window start that wraps. */
    method CheckIndicateSeq(s: SeqNum) returns (ok: bool)
      requires ValidCtrl(View())
      modifies this`indicate_seq
      ensures WindowAfter(old(indicate_seq), wsize_b, s) == if ok then Some(indicate_seq) else None
      ensures !ok ==> indicate_seq == old(indicate_seq)
    {
      var wend := (indicate_seq + wsize_b - 1) % SN_MODULUS;
      if indicate_seq == UNINITIALISED {
        indicate_seq := s;
      }
      if SnLess(s, indicate_seq) {
        return false;
      }
      if s == indicate_seq {
        indicate_seq := (indicate_seq + 1) % SN_MODULUS;
        return true;
      }
      PastWindowEnd(indicate_seq, wsize_b, s);
      if SnLess(wend, s) {
        if s >= wsize_b - 1 {
          indicate_seq := s + 1 - wsize_b;
        } else {
          indicate_seq := 0xFFF - (wsize_b - (s + 1)) + 1;
        }
      }
      return true;
    }

    /** enqueue_reorder_recvframe: walk to the first entry that is not older, then link in front of it. */
    method EnqueueReorder(f: Frame) returns (ok: bool)
      modifies this`pending
      ensures Insert(old(pending), f) == if ok then Some(pending) else None
      ensures !ok ==> pending == old(pending)
    {
      var at := 0;
      assert pending[0..] == pending;
      PrefixedTwice([], [], Insert(pending, f));
      while at < |pending|
        invariant at <= |pending|
        invariant pending == old(pending)
        invariant Insert(pending, f) == Prefixed(pending[..at], Insert(pending[at..], f))
      {
        if SnLess(pending[at].seqNum, f.seqNum) {
          assert pending[at..][1..] == pending[at + 1..];
          assert pending[..at + 1] == pending[..at] + [pending[at]];
          PrefixedTwice(pending[..at], [pending[at]], Insert(pending[at + 1..], f));
          at := at + 1;
        } else if pending[at].seqNum == f.seqNum {
          return false;
        } else {
          break;
        }
      }
      assert at == |pending| ==> [f] + pending[at..] == [f];
      assert Insert(pending[at..], f) == Some([f] + pending[at..]);
      pending := pending[..at] + ([f] + pending[at..]);
      return true;
    }

    /** recv_indicatepkts_in_order; the result says whether a frame is still buffered. */
    method IndicateInOrder(forced: bool) returns (inBuffer: bool)
      modifies this`indicate_seq, this`pending, this`indicated
      ensures forced && old(pending) == [] ==> inBuffer && View() == old(View())
      ensures forced && old(pending) != [] ==>
                View() == Drain(old(View()).(indicateSeq := old(pending)[0].seqNum))
      ensures !forced ==> View() == Drain(old(View()))
      ensures !forced || old(pending) != [] ==> inBuffer == (pending != [])
    {
      inBuffer := false;
      if forced {
        if pending == [] {
          return true;
        }
        indicate_seq := pending[0].seqNum;
      }
      ghost var from := View();
      while pending != []
        invariant timerArmed == old(timerArmed) && wsize_b == old(wsize_b)
        invariant Drain(View()) == Drain(from)
        invariant !inBuffer
        decreases |pending|
      {
        var prframe := pending[0];
        if !SnLess(indicate_seq, prframe.seqNum) {
          pending := pending[1..];
          if indicate_seq == prframe.seqNum {
            indicate_seq := (indicate_seq + 1) % SN_MODULUS;
          }
          indicated := indicated + [prframe];
        } else {
          inBuffer := true;
          break;
        }
      }
    }

    /** recv_indicatepkt_reorder from the point where the queue lock is taken. */
    method RecvReorder(f: Frame) returns (ok: bool)
      requires ValidCtrl(View())
      modifies this`indicate_seq, this`pending, this`indicated, this`timerArmed
      ensures (View(), ok) == Receive(old(View()), f)
    {
      ok := CheckIndicateSeq(f.seqNum);
      if !ok {
        return;
      }
      ok := EnqueueReorder(f);
      if !ok {
        return;
      }
      var inBuffer := IndicateInOrder(false);
      timerArmed := inBuffer;
    }

    /** rtw_reordering_ctrl_timeout_handler; the expired timer is no longer armed on entry. */
    method TimeoutHandler()
      modifies this`indicate_seq, this`pending, this`indicated, this`timerArmed
      ensures View() == Expire(old(View()))
    {
      timerArmed := false;
      var again := IndicateInOrder(true);
      if again {
        timerArmed := true;
      }
    }
  }
}
