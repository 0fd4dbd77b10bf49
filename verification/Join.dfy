/**
 The station join: beacon wait, authentication, association, link, with the
 retry counters and the link timer (core/rtw_mlme_ext.c).

 `Step` is the join seen as phases.  `MlmeExt` is the driver's form of it, one
 word of state bits changed flag by flag by each handler; every handler is
 proved to make exactly the phase step.
 */
module Join {
  type Address = seq<int>

  const OPEN_SYSTEM := 0
  const SHARED_KEY := 1
  const REAUTH_LIMIT := 4
  const REASSOC_LIMIT := 4

  /** The network named in a join command, as far as the join depends on it. */
  datatype Network = Network(bssid: Address, iesFit: bool, ess: bool, ibss: bool)

  datatype Event =
    | JoinCmd(network: Network)
    | DisconnectCmd
    | SetAuth(mode: nat)
    | SetInfrastructure
    | StationDeleted(noPeers: bool)
    | Beacon(addr3: Address, scanning: bool, knownStation: bool, changed: bool)
    | AuthFrame(sender: Address, forUs: bool, transaction: nat, status: nat, challenge: bool)
    | AssocReply(sender: Address, forUs: bool, status: nat, aid: nat)
    | Disconnected(addr3: Address)
    | TimerFires

  datatype Phase =
    | Idle
    | AwaitingBeacon
    | Authenticating(retries: nat, transaction: nat)
    | Associating(retries: nat)
    | Linked

  datatype Link = Link(phase: Phase, bssid: Address, algorithm: nat, armed: bool, reports: seq<int>)

  const INITIAL := Link(Idle, [], OPEN_SYSTEM, false, [])

  /** A join is under way: its result has not been reported yet. */
  predicate Linking(m: Link) {
    m.phase.AwaitingBeacon? || m.phase.Authenticating? || m.phase.Associating?
  }

  /** The join has a network it can work on. */
  predicate Accepts(e: Event) {
    e.JoinCmd? && e.network.iesFit && (e.network.ess || e.network.ibss)
  }

  /** A well-formed join of a network that is neither infrastructure nor ad hoc. */
  predicate Capless(e: Event) {
    e.JoinCmd? && e.network.iesFit && !e.network.ess && !e.network.ibss
  }

  /** This reply ends the authentication exchange. */
  predicate FinalAuth(e: Event, algorithm: nat) {
    e.AuthFrame? && e.forUs && e.status == 0 && e.transaction == (if algorithm == SHARED_KEY then 4 else 2)
  }

  function End(m: Link, result: int): (r: Link) {
    m.(phase := Idle, reports := m.reports + [result])
  }

  function OnJoin(m: Link, n: Network): (r: Link) {
    var left := if m.phase.Linked? then m.(phase := Idle, armed := false, bssid := n.bssid) else m.(bssid := n.bssid);
    if !n.iesFit then left
    else if n.ess then left.(phase := AwaitingBeacon, armed := true)
    else if n.ibss then End(left, 1).(armed := false)
    else left.(armed := false)
  }

  function OnDisconnect(m: Link, from: Address): (r: Link) {
    if from != m.bssid || m.phase.Idle? then m
    else if m.phase.Linked? then m.(phase := Idle)
    else End(m, -2)
  }

  function OnBeacon(m: Link, e: Event): (r: Link)
    requires e.Beacon?
  {
    if e.scanning || e.addr3 != m.bssid then m
    else if m.phase.AwaitingBeacon? then m.(phase := Authenticating(0, 1), armed := true)
    else if m.phase.Linked? && e.knownStation && e.changed then OnDisconnect(m, m.bssid)
    else m
  }

  function OnAuth(m: Link, e: Event): (r: Link)
    requires e.AuthFrame?
  {
    if !e.forUs || !m.phase.Authenticating? then m
    else if e.status != 0 then
      m.(armed := true,
         algorithm := if e.status != 13 then m.algorithm
                      else if m.algorithm == SHARED_KEY then OPEN_SYSTEM else SHARED_KEY)
    else if FinalAuth(e, m.algorithm) then m.(phase := Associating(0), armed := true)
    else if e.transaction == 2 && e.challenge then m.(phase := Authenticating(m.phase.retries, 3), armed := true)
    else m
  }

  function OnAssocReply(m: Link, e: Event): (r: Link)
    requires e.AssocReply?
  {
    if !e.forUs || !m.phase.Associating? then m
    else if e.status != 0 then End(m, -4).(armed := false)
    else m.(phase := Linked, armed := false, reports := m.reports + [e.aid % 16384])
  }

  function OnTimer(m: Link): (r: Link)
    requires m.armed
  {
    var fired := m.(armed := false);
    match m.phase
    case AwaitingBeacon => End(fired, -3)
    case Authenticating(n, _) =>
      if n == REAUTH_LIMIT then End(fired, -1) else m.(phase := Authenticating(n + 1, 1))
    case Associating(n) =>
      if n == REASSOC_LIMIT then End(fired, -2) else m.(phase := Associating(n + 1))
    case _ => fired
  }

  function Step(m: Link, e: Event): (r: Link) {
    match e
    case JoinCmd(n) => OnJoin(m, n)
    case DisconnectCmd => m.(phase := Idle, armed := false)
    case SetAuth(mode) => if mode < 4 then m.(algorithm := mode) else m
    case SetInfrastructure => m
    case StationDeleted(noPeers) => if m.phase.Linked? || noPeers then m.(phase := Idle, armed := false) else m
    case Beacon(_, _, _, _) => OnBeacon(m, e)
    case AuthFrame(_, _, _, _, _) => OnAuth(m, e)
    case AssocReply(_, _, _, _) => OnAssocReply(m, e)
    case Disconnected(from) => OnDisconnect(m, from)
    case TimerFires => if m.armed then OnTimer(m) else m
  }

  function After(m: Link, es: seq<Event>): (r: Link) {
    if es == [] then m else Step(After(m, es[..|es| - 1]), es[|es| - 1])
  }

  // ---------------------------------------------------------------------
  // The driver's form.

  const STATION_STATE: bv16 := 0x0002
  const ADHOC_STATE: bv16 := 0x0001
  const AUTH_NULL: bv16 := 0x0100
  const AUTH_STATE: bv16 := 0x0200
  const AUTH_SUCCESS: bv16 := 0x0400
  const ASSOC_STATE: bv16 := 0x2000
  const ASSOC_SUCCESS: bv16 := 0x4000
  const LINKING_STATE: bv16 := AUTH_NULL | AUTH_STATE | AUTH_SUCCESS | ASSOC_STATE

  class MlmeExt {
    var state: bv16
    var bssid: Address
    var authAlgo: nat
    var authSeq: nat
    var reauthCount: nat
    var reassocCount: nat
    var linkTimer: bool
    var joinResults: seq<int>

    /** No handler leaves any other combination of state bits behind. */
    ghost predicate Valid()
      reads this
    {
      && (state == 0 || state == 1 || state == 2
          || state == 0x0102 || state == 0x0202 || state == 0x2402 || state == 0x4402)
      && (state == 0x0202 ==> reauthCount <= REAUTH_LIMIT && reassocCount == 0)
      && (state == 0x2402 ==> reassocCount <= REASSOC_LIMIT)
    }

    ghost function PhaseNow(): (p: Phase)
      reads this
    {
      if state == 0x0102 then AwaitingBeacon
      else if state == 0x0202 then Authenticating(reauthCount, authSeq)
      else if state == 0x2402 then Associating(reassocCount)
      else if state == 0x4402 then Linked
      else Idle
    }

    ghost function Now(): (m: Link)
      reads this
    {
      Link(PhaseNow(), bssid, authAlgo, linkTimer, joinResults)
    }

    constructor ()
      ensures Valid() && Now() == INITIAL
    {
      state, bssid, authAlgo, authSeq := 0, [], OPEN_SYSTEM, 0;
      reauthCount, reassocCount, linkTimer, joinResults := 0, 0, false, [];
    }

    method ReportJoinRes(res: int)
      modifies this`joinResults
      ensures joinResults == old(joinResults) + [res]
    {
      joinResults := joinResults + [res];
    }

    method StartClntJoin(n: Network)
      requires Valid() && state != 0x4402
      modifies this
      ensures Valid()
      ensures n.ess ==> Now() == old(Now()).(phase := AwaitingBeacon, armed := true)
      ensures !n.ess && n.ibss ==> Now() == End(old(Now()), 1)
      ensures !n.ess && !n.ibss ==> Now() == old(Now())
    {
      if n.ess {
        linkTimer := true;
        state := AUTH_NULL | STATION_STATE;
      } else if n.ibss {
        state := ADHOC_STATE;
        ReportJoinRes(1);
      }
    }

    method JoinCmdHdl(n: Network)
      requires Valid()
      modifies this
      ensures Valid() && Now() == Step(old(Now()), JoinCmd(n))
    {
      if state & ASSOC_SUCCESS != 0 {
        state := 0;
        linkTimer := false;
      }
      bssid := n.bssid;
      if !n.iesFit {
        return;
      }
      linkTimer := false;
      StartClntJoin(n);
    }

    method DisconnectHdl()
      requires Valid()
      modifies this
      ensures Valid() && Now() == Step(old(Now()), DisconnectCmd)
    {
      state := 0;
      linkTimer := false;
    }

    method SetAuthHdl(mode: nat)
      requires Valid()
      modifies this
      ensures Valid() && Now() == Step(old(Now()), SetAuth(mode))
    {
      if mode < 4 {
        authAlgo := mode;
      }
    }

    method SetOpmodeInfrastructure()
      requires Valid()
      modifies this
      ensures Valid() && Now() == Step(old(Now()), SetInfrastructure)
    {
      state := state & 0xFFFC;
      state := state | STATION_STATE;
    }

    /** `noPeers`: no ad hoc peer is known, which is the rule for a station. */
    method StaDelEventCallback(noPeers: bool)
      requires Valid()
      modifies this
      ensures Valid() && Now() == Step(old(Now()), StationDeleted(noPeers))
    {
      if (state & ASSOC_SUCCESS != 0 && state & 3 == STATION_STATE) || noPeers {
        state := 0;
        linkTimer := false;
      }
    }

    method ReceiveDisconnect(from: Address)
      requires Valid()
      modifies this
      ensures Valid() && Now() == Step(old(Now()), Disconnected(from))
    {
      if from != bssid {
        return;
      }
      if state & 3 == STATION_STATE {
        if state & ASSOC_SUCCESS != 0 {
          state := 0;
        } else if state & LINKING_STATE != 0 {
          state := 0;
          ReportJoinRes(-2);
        }
      }
    }

    method StartClntAuth()
      requires Valid() && state == 0x0102
      modifies this
      ensures Valid() && Now() == old(Now()).(phase := Authenticating(0, 1), armed := true)
    {
      linkTimer := false;
      state := state & !AUTH_NULL;
      state := state | AUTH_STATE;
      authSeq := 1;
      reauthCount := 0;
      reassocCount := 0;
      linkTimer := true;
    }

    method StartClntAssoc()
      requires Valid() && state == 0x0202
      modifies this
      ensures Valid() && Now() == old(Now()).(phase := Associating(0), armed := true)
    {
      linkTimer := false;
      state := state & !(AUTH_NULL | AUTH_STATE);
      state := state | (AUTH_SUCCESS | ASSOC_STATE);
      linkTimer := true;
    }

    method OnBeacon(addr3: Address, scanning: bool, knownStation: bool, changed: bool)
      requires Valid()
      modifies this
      ensures Valid() && Now() == Step(old(Now()), Beacon(addr3, scanning, knownStation, changed))
    {
      if scanning {
        return;
      }
      if addr3 == bssid {
        if state & AUTH_NULL != 0 {
          StartClntAuth();
          return;
        }
        if state & 3 == STATION_STATE && state & ASSOC_SUCCESS != 0 && knownStation && changed {
          ReceiveDisconnect(bssid);
        }
      }
    }

    /** The receiver address is checked, the sender's is not. */
    method OnAuthClient(sender: Address, forUs: bool, transaction: nat, status: nat, challenge: bool)
      requires Valid()
      modifies this
      ensures Valid() && Now() == Step(old(Now()), AuthFrame(sender, forUs, transaction, status, challenge))
    {
      if !forUs || state & AUTH_STATE == 0 {
        return;
      }
      if status != 0 {
        if status == 13 {
          authAlgo := if authAlgo == SHARED_KEY then OPEN_SYSTEM else SHARED_KEY;
        }
        linkTimer := true;
        return;
      }
      if transaction == 2 {
        if authAlgo == SHARED_KEY {
          if challenge {
            authSeq := 3;
            linkTimer := true;
          }
          return;
        }
      } else if transaction != 4 || authAlgo != SHARED_KEY {
        return;
      }
      StartClntAssoc();
    }

    method OnAssocRsp(sender: Address, forUs: bool, status: nat, aid: nat)
      requires Valid()
      modifies this
      ensures Valid() && Now() == Step(old(Now()), AssocReply(sender, forUs, status, aid))
    {
      if !forUs || state & (AUTH_SUCCESS | ASSOC_STATE) == 0 || state & ASSOC_SUCCESS != 0 {
        return;
      }
      linkTimer := false;
      var res := -4;
      if status > 0 {
        state := 0;
      } else {
        res := aid % 16384;
        state := state & !ASSOC_STATE;
        state := state | ASSOC_SUCCESS;
      }
      ReportJoinRes(res);
    }

    /** Expiry of the link timer: the kernel disarms it before the handler runs. */
    method LinkTimerHdl()
      requires Valid() && linkTimer
      modifies this
      ensures Valid() && Now() == Step(old(Now()), TimerFires)
    {
      linkTimer := false;
      if state & AUTH_NULL != 0 {
        state := 0;
        ReportJoinRes(-3);
      } else if state & AUTH_STATE != 0 {
        reauthCount := reauthCount + 1;
        if reauthCount > REAUTH_LIMIT {
          state := 0;
          ReportJoinRes(-1);
          return;
        }
        authSeq := 1;
        linkTimer := true;
      } else if state & ASSOC_STATE != 0 {
        reassocCount := reassocCount + 1;
        if reassocCount > REASSOC_LIMIT {
          state := 0;
          ReportJoinRes(-2);
          return;
        }
        linkTimer := true;
      }
    }
  }
}
