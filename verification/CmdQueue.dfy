/**
 The command queue of core/rtw_cmd.c: any number of producers put commands on
 a locked list and then raise a semaphore; one thread waits on the semaphore
 and drains the list.

 A state is everything the threads share and where each of them stands.  The
 steps are the critical sections and the semaphore operations; a run is any
 interleaving of them.
 */
module CmdQueue {
  import opened Buffers

  type Pid = nat

  datatype Cmd = Cmd(code: nat, parameters: seq<int>)

  datatype Thread = Waiting | Draining | Processing(cmd: Cmd)

  /** `raising` are the producers between adding to the list and raising the semaphore. */
  datatype State = State(queue: seq<Cmd>, sema: nat, raising: set<Pid>, thread: Thread, accepted: seq<Cmd>,
    taken: seq<Cmd>)

  const INITIAL := State([], 0, {}, Waiting, [], [])

  datatype Step = Add(p: Pid, cmd: Cmd) | Up(p: Pid) | Down | Dequeue | Finish

  predicate Enabled(s: State, t: Step) {
    match t
    case Add(p, _) => p !in s.raising
    case Up(p) => p in s.raising
    case Down => s.thread.Waiting? && s.sema > 0
    case Dequeue => s.thread.Draining?
    case Finish => s.thread.Processing?
  }

  function Next(s: State, t: Step): (r: State)
    requires Enabled(s, t)
  {
    match t
    case Add(p, cmd) => s.(queue := s.queue + [cmd], raising := s.raising + {p}, accepted := s.accepted + [cmd])
    case Up(p) => s.(raising := s.raising - {p}, sema := s.sema + 1)
    case Down => s.(sema := s.sema - 1, thread := Draining)
    case Dequeue =>
      if s.queue == [] then s.(thread := Waiting)
      else s.(queue := s.queue[1..], thread := Processing(s.queue[0]), taken := s.taken + [s.queue[0]])
    case Finish => s.(thread := Draining)
  }

  /** A run; a step that is not enabled where it stands is passed over. */
  function After(s: State, ts: seq<Step>): (r: State) {
    if ts == [] then s
    else
      var before := After(s, ts[..|ts| - 1]);
      if Enabled(before, ts[|ts| - 1]) then Next(before, ts[|ts| - 1]) else before
  }

  ghost predicate Inv(s: State) {
    && s.accepted == s.taken + s.queue
    && (s.thread.Processing? ==> s.taken != [] && s.taken[|s.taken| - 1] == s.thread.cmd)
    && (s.thread.Waiting? ==> |s.queue| <= s.sema + |s.raising|)
  }

  lemma InvStep(s: State, t: Step)
    requires Inv(s) && Enabled(s, t)
    ensures Inv(Next(s, t))
  {
    match t
    case Add(p, cmd) =>
      assert s.taken + (s.queue + [cmd]) == (s.taken + s.queue) + [cmd];
    case Dequeue =>
      if s.queue != [] {
        assert s.queue == [s.queue[0]] + s.queue[1..];
        assert (s.taken + [s.queue[0]]) + s.queue[1..] == s.taken + s.queue;
      }
    case _ =>
  }

  lemma {:induction false} InvAfter(ts: seq<Step>)
    ensures Inv(After(INITIAL, ts))
  {
    if ts != [] {
      var before := After(INITIAL, ts[..|ts| - 1]);
      InvAfter(ts[..|ts| - 1]);
      if Enabled(before, ts[|ts| - 1]) {
        InvStep(before, ts[|ts| - 1]);
      }
    }
  }

  /**
   Over every run, commands are taken in the order they were added, each exactly once; the rest is queued in order.
   */
  lemma TakenInOrder(ts: seq<Step>)
    ensures var s := After(INITIAL, ts);
            && |s.taken| <= |s.accepted| && s.taken == s.accepted[..|s.taken|]
            && s.queue == s.accepted[|s.taken|..]
  {
    InvAfter(ts);
  }

  /**
   No wakeup is lost: asleep, with nothing to wake it and no producer about to, the thread has left nothing behind.
   */
  lemma NoLostWakeup(ts: seq<Step>)
    ensures var s := After(INITIAL, ts);
            s.thread.Waiting? && s.sema == 0 && s.raising == {} ==> s.queue == [] && s.taken == s.accepted
  {
    InvAfter(ts);
    var s := After(INITIAL, ts);
    if s.queue == [] {
      assert s.taken + [] == s.taken;
    }
  }

  // ---------------------------------------------------------------------
  // The thread on its own gets everything done.

  function ThreadStep(s: State): (t: Step) {
    if s.thread.Waiting? then Down else if s.thread.Draining? then Dequeue else Finish
  }

  function Work(s: State): (n: nat) {
    3 * |s.queue| + 2 * s.sema + (if s.thread.Waiting? then 0 else if s.thread.Draining? then 1 else 2)
  }

  /** Let the thread run until it sleeps. */
  function Settle(s: State): (r: State)
    decreases Work(s)
  {
    if Enabled(s, ThreadStep(s)) then Settle(Next(s, ThreadStep(s))) else s
  }

  lemma {:induction false} SettleTakesAll(s: State)
    requires Inv(s) && s.raising == {}
    ensures var r := Settle(s);
            r.thread.Waiting? && r.sema == 0 && r.queue == [] && r.accepted == s.accepted && r.taken == s.accepted
    decreases Work(s)
  {
    if Enabled(s, ThreadStep(s)) {
      InvStep(s, ThreadStep(s));
      SettleTakesAll(Next(s, ThreadStep(s)));
    } else {
      assert s.taken + [] == s.taken;
    }
  }

  /**
   Whatever has happened, once every producer has raised the semaphore the thread alone takes every command, in order.
   */
  lemma EveryCommandIsTaken(ts: seq<Step>)
    requires After(INITIAL, ts).raising == {}
    ensures Settle(After(INITIAL, ts)).taken == After(INITIAL, ts).accepted
    ensures Settle(After(INITIAL, ts)).queue == []
  {
    InvAfter(ts);
    SettleTakesAll(After(INITIAL, ts));
  }

  // ---------------------------------------------------------------------
  // The shared object.

  class CmdPriv {
    var queue: seq<Cmd>
    var sema: nat
    var hwInitCompleted: bool
    var cmdthdRunning: bool
    ghost var raising: set<Pid>
    ghost var thread: Thread
    ghost var accepted: seq<Cmd>
    ghost var taken: seq<Cmd>

    ghost function Now(): (s: State)
      reads this
    {
      State(queue, sema, raising, thread, accepted, taken)
    }

    constructor ()
      ensures Now() == INITIAL && !hwInitCompleted && !cmdthdRunning
    {
      queue, sema, hwInitCompleted, cmdthdRunning := [], 0, false, false;
      raising, thread, accepted, taken := {}, Waiting, [], [];
    }

    /** Commands are refused before the hardware and the thread are up. */
    predicate Allows()
      reads this
    {
      hwInitCompleted && cmdthdRunning
    }

    /** The first half of rtw_enqueue_cmd: refuse, or add under the lock.  `Up` must follow a success. */
    method Enqueue(p: Pid, obj: Option<Cmd>) returns (ok: bool)
      requires p !in raising
      modifies this`queue, this`raising, this`accepted
      ensures ok <==> obj.Some? && Allows()
      ensures Now() == if ok then Next(old(Now()), Add(p, obj.value)) else old(Now())
    {
      ok := obj.Some? && Allows();
      if ok {
        queue := queue + [obj.value];
        raising, accepted := raising + {p}, accepted + [obj.value];
      }
    }

    method RaiseSemaphore(p: Pid)
      requires Enabled(Now(), Up(p))
      modifies this`sema, this`raising
      ensures Now() == Next(old(Now()), Up(p))
    {
      sema := sema + 1;
      raising := raising - {p};
    }

    /** down_interruptible returning without a signal. */
    method LowerSemaphore()
      requires Enabled(Now(), Down)
      modifies this`sema, this`thread
      ensures Now() == Next(old(Now()), Down)
    {
      sema := sema - 1;
      thread := Draining;
    }

    method DequeueCmd() returns (obj: Option<Cmd>)
      requires Enabled(Now(), Dequeue)
      modifies this`queue, this`thread, this`taken
      ensures Now() == Next(old(Now()), Dequeue)
      ensures obj == if thread.Processing? then Some(thread.cmd) else None
    {
      if queue == [] {
        obj := None;
        thread := Waiting;
      } else {
        obj := Some(queue[0]);
        thread, taken := Processing(queue[0]), taken + [queue[0]];
        queue := queue[1..];
      }
    }

    /** One wakeup of the service loop, as long as no producer gets in between: everything queued is taken. */
    method ServeOnce() returns (served: seq<Cmd>)
      requires Enabled(Now(), Down)
      modifies this
      ensures served == old(queue) && queue == [] && thread == Waiting
      ensures taken == old(taken) + served && sema == old(sema) - 1 && raising == old(raising)
              && accepted == old(accepted)
    {
      LowerSemaphore();
      served := [];
      while true
        invariant thread == Draining && served + queue == old(queue) && taken == old(taken) + served
        invariant sema == old(sema) - 1 && raising == old(raising) && accepted == old(accepted)
        decreases |queue|
      {
        ghost var before := queue;
        var obj := DequeueCmd();
        if obj.None? {
          break;
        }
        assert before == [before[0]] + queue;
        assert (served + [obj.value]) + queue == served + before;
        assert (old(taken) + served) + [obj.value] == old(taken) + (served + [obj.value]);
        served := served + [obj.value];
        thread := Draining;
      }
      assert served + [] == served;
    }
  }
}
