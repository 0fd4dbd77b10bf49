/**
 What holds of the station join over every run: any mix of commands, received
 frames and timer expiries, in any order.
 */
module JoinRuns {
  import opened Join

  // ---------------------------------------------------------------------
  // A link only ever comes from a complete exchange, in order.

  /** The address the latest join command of the run asked for. */
  function LastTarget(es: seq<Event>): (r: Address) {
    if es == [] then []
    else if es[|es| - 1].JoinCmd? then es[|es| - 1].network.bssid
    else LastTarget(es[..|es| - 1])
  }

  /** The events that put an end to a join without reporting it. */
  predicate Cuts(e: Event) {
    Accepts(e) || e.DisconnectCmd? || e == StationDeleted(true)
  }

  /** Event `i` asked for an infrastructure network, and nothing since has replaced or ended that join. */
  predicate JoinAt(es: seq<Event>, i: nat) {
    && i < |es| && Accepts(es[i]) && es[i].network.ess
    && forall n :: i < n < |es| ==> !Cuts(es[n])
  }

  predicate BeaconAt(es: seq<Event>, j: nat) {
    j < |es| && es[j].Beacon? && !es[j].scanning && es[j].addr3 == LastTarget(es[..j])
  }

  predicate AuthAt(es: seq<Event>, k: nat) {
    k < |es| && FinalAuth(es[k], After(INITIAL, es[..k]).algorithm)
  }

  /** The events that end a link to this network. */
  predicate EndsLink(e: Event, bssid: Address) {
    || e.JoinCmd? || e.DisconnectCmd? || e.StationDeleted? || e == Disconnected(bssid)
    || (e.Beacon? && !e.scanning && e.addr3 == bssid && e.knownStation && e.changed)
  }

  /** Event `l` accepted the association, and nothing since has ended it. */
  predicate ReplyAt(es: seq<Event>, l: nat) {
    && l < |es| && es[l].AssocReply? && es[l].forUs && es[l].status == 0
    && forall n :: l < n < |es| ==> !EndsLink(es[n], LastTarget(es))
  }

  // -- the phases a run has gone through

  datatype Kind = Off | Waits | Authenticates | Associates | Up

  function KindOf(p: Phase): (k: Kind) {
    match p
    case Idle => Off
    case AwaitingBeacon => Waits
    case Authenticating(_, _) => Authenticates
    case Associating(_) => Associates
    case Linked => Up
  }

  /** The phase after the first n events. */
  function KindAt(es: seq<Event>, n: nat): (k: Kind)
    requires n <= |es|
  {
    KindOf(After(INITIAL, es[..n]).phase)
  }

  /** From event lo up to event hi the run was in this phase all the time. */
  ghost predicate During(es: seq<Event>, lo: nat, hi: nat, k: Kind) {
    lo < hi <= |es| && forall n :: lo < n <= hi ==> KindAt(es, n) == k
  }

  lemma DuringPrefix(es: seq<Event>, m: nat, lo: nat, hi: nat, k: Kind)
    requires m <= |es| && During(es[..m], lo, hi, k)
    ensures During(es, lo, hi, k)
  {
    forall n | lo < n <= hi
      ensures KindAt(es, n) == k
    {
      PrefixOfPrefix(es, m, n);
      assert KindAt(es[..m], n) == k;
    }
  }

  lemma DuringLast(es: seq<Event>, n: nat, k: Kind)
    requires |es| == n + 1 && KindOf(After(INITIAL, es).phase) == k
    ensures During(es, n, n + 1, k)
  {
    assert es[..n + 1] == es;
  }

  lemma DuringLonger(es: seq<Event>, n: nat, lo: nat, k: Kind)
    requires |es| == n + 1 && During(es[..n], lo, n, k) && KindOf(After(INITIAL, es).phase) == k
    ensures During(es, lo, n + 1, k)
  {
    DuringPrefix(es, n, lo, n, k);
    assert es[..n + 1] == es;
  }

  lemma {:induction false} TargetIsBssid(es: seq<Event>)
    ensures After(INITIAL, es).bssid == LastTarget(es)
  {
    if es != [] {
      TargetIsBssid(es[..|es| - 1]);
    }
  }

  lemma PrefixOfPrefix(es: seq<Event>, n: nat, j: nat)
    requires j <= n <= |es|
    ensures es[..n][..j] == es[..j]
  {
  }

  lemma {:induction false} JoinBehind(es: seq<Event>) returns (i: nat)
    requires After(INITIAL, es).phase.AwaitingBeacon?
    ensures JoinAt(es, i) && During(es, i, |es|, Waits)
  {
    var n := |es| - 1;
    if Accepts(es[n]) {
      i := n;
      DuringLast(es, n, Waits);
    } else {
      i := JoinBehind(es[..n]);
      DuringLonger(es, n, i, Waits);
    }
  }

  lemma {:induction false} BeaconBehind(es: seq<Event>) returns (i: nat, j: nat)
    requires After(INITIAL, es).phase.Authenticating?
    ensures JoinAt(es, i) && BeaconAt(es, j)
    ensures During(es, i, j, Waits) && During(es, j, |es|, Authenticates)
  {
    var n := |es| - 1;
    if After(INITIAL, es[..n]).phase.AwaitingBeacon? {
      i := JoinBehind(es[..n]);
      j := n;
      TargetIsBssid(es[..n]);
      DuringLast(es, n, Authenticates);
    } else {
      i, j := BeaconBehind(es[..n]);
      PrefixOfPrefix(es, n, j);
      DuringLonger(es, n, j, Authenticates);
    }
    DuringPrefix(es, n, i, j, Waits);
  }

  lemma {:induction false} AuthBehind(es: seq<Event>) returns (i: nat, j: nat, k: nat)
    requires After(INITIAL, es).phase.Associating?
    ensures JoinAt(es, i) && BeaconAt(es, j) && AuthAt(es, k)
    ensures During(es, i, j, Waits) && During(es, j, k, Authenticates) && During(es, k, |es|, Associates)
  {
    var n := |es| - 1;
    if After(INITIAL, es[..n]).phase.Authenticating? {
      i, j := BeaconBehind(es[..n]);
      k := n;
      DuringLast(es, n, Associates);
    } else {
      i, j, k := AuthBehind(es[..n]);
      PrefixOfPrefix(es, n, k);
      DuringLonger(es, n, k, Associates);
    }
    PrefixOfPrefix(es, n, j);
    DuringPrefix(es, n, i, j, Waits);
    DuringPrefix(es, n, j, k, Authenticates);
  }

  /** What the last step of a run that ends linked can have been. */
  lemma StepIntoLinked(m: Link, e: Event)
    requires Step(m, e).phase.Linked?
    ensures !Cuts(e)
    ensures if m.phase.Associating? then e.AssocReply? && e.forUs && e.status == 0
            else m.phase.Linked? && !EndsLink(e, m.bssid)
  {
  }

  /**
   The link is up only if, since the join it belongs to, a beacon of the
   wanted access point, then the final successful authentication reply, then
   a successful association reply arrived in that order and each took the join
   one phase further, and nothing has ended the join or the link since.
   */
  lemma {:induction false} LinkedOnlyAfterHandshake(es: seq<Event>) returns (i: nat, j: nat, k: nat, l: nat)
    requires After(INITIAL, es).phase.Linked?
    ensures JoinAt(es, i) && BeaconAt(es, j) && AuthAt(es, k) && ReplyAt(es, l)
    ensures During(es, i, j, Waits) && During(es, j, k, Authenticates)
    ensures During(es, k, l, Associates) && During(es, l, |es|, Up)
  {
    var n := |es| - 1;
    StepIntoLinked(After(INITIAL, es[..n]), es[n]);
    if After(INITIAL, es[..n]).phase.Associating? {
      i, j, k := AuthBehind(es[..n]);
      l := n;
      DuringLast(es, n, Up);
    } else {
      i, j, k, l := LinkedOnlyAfterHandshake(es[..n]);
      TargetIsBssid(es[..n]);
      DuringLonger(es, n, l, Up);
    }
    HandshakeLonger(es, n, i, j, k);
    DuringPrefix(es, n, k, l, Associates);
  }

  /** An exchange in a prefix, with no cut in the event behind it, is one in the whole run. */
  lemma HandshakeLonger(es: seq<Event>, n: nat, i: nat, j: nat, k: nat)
    requires |es| == n + 1 && !Cuts(es[n])
    requires JoinAt(es[..n], i) && BeaconAt(es[..n], j) && AuthAt(es[..n], k)
    requires During(es[..n], i, j, Waits) && During(es[..n], j, k, Authenticates)
    ensures JoinAt(es, i) && BeaconAt(es, j) && AuthAt(es, k)
    ensures During(es, i, j, Waits) && During(es, j, k, Authenticates)
  {
    PrefixOfPrefix(es, n, j);
    PrefixOfPrefix(es, n, k);
    DuringPrefix(es, n, i, j, Waits);
    DuringPrefix(es, n, j, k, Authenticates);
  }

  /** The last join command strictly between events i and j, accepted or not. */
  predicate LastJoin(es: seq<Event>, i: nat, j: nat, n: nat) {
    && i < n < j <= |es| && es[n].JoinCmd?
    && forall m :: n < m < j ==> !es[m].JoinCmd?
  }

  /** Every later join command before j that still counts at j names the network of event i as well. */
  ghost predicate NotRedirected(es: seq<Event>, i: nat, j: nat)
    requires i < j <= |es| && es[i].JoinCmd?
  {
    forall n: nat :: LastJoin(es, i, j, n) ==> es[n].network.bssid == es[i].network.bssid
  }

  lemma {:induction false} TargetStays(es: seq<Event>, i: nat, j: nat)
    requires i < j <= |es| && es[i].JoinCmd?
    requires forall n :: i < n < j ==> !es[n].JoinCmd?
    ensures LastTarget(es[..j]) == es[i].network.bssid
  {
    PrefixOfPrefix(es, j, j - 1);
    if j > i + 1 {
      TargetStays(es, i, j - 1);
    }
  }

  /** The last join command after event i, or event i itself. */
  lemma {:induction false} LatestJoin(es: seq<Event>, i: nat, j: nat) returns (n: nat)
    requires i < j <= |es| && es[i].JoinCmd?
    ensures i <= n < j && es[n].JoinCmd? && forall m :: n < m < j ==> !es[m].JoinCmd?
  {
    if es[j - 1].JoinCmd? {
      n := j - 1;
    } else {
      n := LatestJoin(es, i, j - 1);
    }
  }

  /** The address on record is the one event i asked for exactly when no later join command has redirected it. */
  lemma TargetExactly(es: seq<Event>, i: nat, j: nat)
    requires i < j <= |es| && es[i].JoinCmd?
    ensures LastTarget(es[..j]) == es[i].network.bssid <==> NotRedirected(es, i, j)
  {
    var n := LatestJoin(es, i, j);
    TargetStays(es, n, j);
    if n > i {
      assert LastJoin(es, i, j, n);
    }
  }

  /**
   In every run that ends linked, the beacon that started the exchange is the
   joined network's own exactly when no join command between the two names
   another network, and the network on record is the joined one exactly when
   none since the join does.
   */
  lemma LinkIsToTheJoinedNetworkExactly(es: seq<Event>) returns (i: nat, j: nat, k: nat, l: nat)
    requires After(INITIAL, es).phase.Linked?
    ensures i < j < k < l && JoinAt(es, i) && BeaconAt(es, j) && AuthAt(es, k) && ReplyAt(es, l)
    ensures es[j].addr3 == es[i].network.bssid <==> NotRedirected(es, i, j)
    ensures After(INITIAL, es).bssid == es[i].network.bssid <==> NotRedirected(es, i, |es|)
  {
    i, j, k, l := LinkedOnlyAfterHandshake(es);
    TargetExactly(es, i, j);
    TargetIsBssid(es);
    TargetExactly(es, i, |es|);
    assert es[..|es|] == es;
  }

  lemma AfterAppend(m: Link, es: seq<Event>, e: Event)
    ensures After(m, es + [e]) == Step(After(m, es), e)
  {
    assert (es + [e])[..|es|] == es;
  }

  /** A join command that does not start a join: the elements are too long, or neither capability bit is set. */
  predicate StartsNothing(e: Event) {
    e.JoinCmd? && !Accepts(e)
  }

  /** It still overwrites the target of the join under way: the beacon wait then ends on the other network. */
  lemma RefusedJoinRedirects(a: Address, other: Event)
    requires StartsNothing(other) && other.network.bssid != a
    ensures var es := [JoinCmd(Network(a, true, true, false)), other];
            && After(INITIAL, es + [Beacon(a, false, true, false)]).phase.AwaitingBeacon?
            && After(INITIAL, es + [Beacon(other.network.bssid, false, true, false)]).phase.Authenticating?
  {
    var first := JoinCmd(Network(a, true, true, false));
    var es := [first, other];
    AfterAppend(INITIAL, [], first);
    AfterAppend(INITIAL, [first], other);
    assert [] + [first] == [first] && [first] + [other] == es;
    AfterAppend(INITIAL, es, Beacon(a, false, true, false));
    AfterAppend(INITIAL, es, Beacon(other.network.bssid, false, true, false));
  }

  /** After the exchange with `a` has begun, it makes the link end up recorded as one to the other network. */
  lemma RefusedJoinRelabelsLink(a: Address, auth: Event, other: Event, reply: Event)
    requires FinalAuth(auth, OPEN_SYSTEM) && StartsNothing(other)
    requires reply.AssocReply? && reply.forUs && reply.status == 0
    ensures var join, beacon := JoinCmd(Network(a, true, true, false)), Beacon(a, false, true, false);
            var m := After(INITIAL, [join, beacon, auth, other, reply]);
            m.phase == Linked && m.bssid == other.network.bssid
  {
    var join, beacon := JoinCmd(Network(a, true, true, false)), Beacon(a, false, true, false);
    FiveEvents(INITIAL, join, beacon, auth, other, reply);
    var waiting := Step(INITIAL, join);
    var asked := Step(waiting, beacon);
    assert asked == Link(Authenticating(0, 1), a, OPEN_SYSTEM, true, []);
    var associating := Step(asked, auth);
    assert associating == Link(Associating(0), a, OPEN_SYSTEM, true, []);
    var relabelled := Step(associating, other);
    assert relabelled.phase == Associating(0) && relabelled.bssid == other.network.bssid;
  }

  lemma TwoEvents(m: Link, a: Event, b: Event)
    ensures After(m, [a, b]) == Step(Step(m, a), b)
  {
    AfterAppend(m, [], a);
    AfterAppend(m, [a], b);
    assert [] + [a] == [a] && [a] + [b] == [a, b];
  }

  lemma FourEvents(m: Link, a: Event, b: Event, c: Event, d: Event)
    ensures After(m, [a, b, c, d]) == Step(Step(Step(Step(m, a), b), c), d)
  {
    TwoEvents(m, a, b);
    AfterAppend(m, [a, b], c);
    AfterAppend(m, [a, b, c], d);
    assert [a, b] + [c] == [a, b, c] && [a, b, c] + [d] == [a, b, c, d];
  }

  lemma FiveEvents(m: Link, a: Event, b: Event, c: Event, d: Event, e: Event)
    ensures After(m, [a, b, c, d, e]) == Step(Step(Step(Step(Step(m, a), b), c), d), e)
  {
    FourEvents(m, a, b, c, d);
    AfterAppend(m, [a, b, c, d], e);
    assert [a, b, c, d] + [e] == [a, b, c, d, e];
  }

  /**
   Conversely the exchange, undisturbed, always links, from whatever state,
   and reports the association id.  Neither reply need come from the network
   that is joined: `auth.sender` and `reply.sender` are arbitrary.
   */
  lemma HandshakeLinks(m: Link, join: Event, beacon: Event, auth: Event, reply: Event)
    requires Accepts(join) && join.network.ess
    requires beacon.Beacon? && !beacon.scanning && beacon.addr3 == join.network.bssid
    requires FinalAuth(auth, m.algorithm)
    requires reply.AssocReply? && reply.forUs && reply.status == 0
    ensures After(m, [join, beacon, auth, reply]) ==
            Link(Linked, join.network.bssid, m.algorithm, false, m.reports + [reply.aid % 16384])
  {
    FourEvents(m, join, beacon, auth, reply);
  }

  /** Who sent a reply. */
  function Resent(e: Event, sender: Address): (r: Event) {
    match e
    case AuthFrame(_, forUs, transaction, status, challenge) => AuthFrame(sender, forUs, transaction, status, challenge)
    case AssocReply(_, forUs, status, aid) => AssocReply(sender, forUs, status, aid)
    case _ => e
  }

  function AllResent(es: seq<Event>, sender: Address): (r: seq<Event>)
    ensures |r| == |es|
  {
    if es == [] then [] else AllResent(es[..|es| - 1], sender) + [Resent(es[|es| - 1], sender)]
  }

  lemma StepResent(m: Link, e: Event, sender: Address)
    ensures Step(m, Resent(e, sender)) == Step(m, e)
  {
  }

  /** No run depends on who sent the authentication and association replies. */
  lemma {:induction false} AnySenderCounts(m: Link, es: seq<Event>, sender: Address)
    ensures After(m, AllResent(es, sender)) == After(m, es)
  {
    if es != [] {
      var n := |es| - 1;
      AnySenderCounts(m, es[..n], sender);
      AfterAppend(m, AllResent(es[..n], sender), Resent(es[n], sender));
      StepResent(After(m, es[..n]), es[n], sender);
    }
  }

  // ---------------------------------------------------------------------
  // The link timer.

  predicate Guarded(m: Link) {
    Linking(m) ==> m.armed
  }

  predicate Strands(m: Link, e: Event) {
    Linking(m) && Capless(e)
  }

  lemma GuardedStep(m: Link, e: Event)
    requires Guarded(m)
    ensures Guarded(Step(m, e)) <==> !Strands(m, e)
  {
  }

  /** At every moment of the run a join under way has the timer armed. */
  predicate AlwaysGuarded(es: seq<Event>) {
    Guarded(After(INITIAL, es)) && (es == [] || AlwaysGuarded(es[..|es| - 1]))
  }

  predicate NeverStrands(es: seq<Event>) {
    es == [] || (NeverStrands(es[..|es| - 1]) && !Strands(After(INITIAL, es[..|es| - 1]), es[|es| - 1]))
  }

  /**
   The timer is armed whenever a join is under way, at every moment of a run,
   exactly when no join command for a network with neither capability bit
   arrives during a join.
   */
  lemma {:induction false} TimerGuardsExactly(es: seq<Event>)
    ensures AlwaysGuarded(es) <==> NeverStrands(es)
  {
    if es != [] {
      var before := es[..|es| - 1];
      TimerGuardsExactly(before);
      if AlwaysGuarded(before) {
        GuardedStep(After(INITIAL, before), es[|es| - 1]);
      }
    }
  }

  /** Such a command does strand a join: under way, and nothing will time it out. */
  lemma CaplessJoinStrands(a: Address, b: Address)
    ensures var m := After(INITIAL, [JoinCmd(Network(a, true, true, false)), JoinCmd(Network(b, true, false, false))]);
            Linking(m) && !m.armed
  {
    var first := JoinCmd(Network(a, true, true, false));
    var second := JoinCmd(Network(b, true, false, false));
    AfterAppend(INITIAL, [], first);
    AfterAppend(INITIAL, [first], second);
    assert [] + [first] == [first] && [first] + [second] == [first, second];
  }

  // ---------------------------------------------------------------------
  // Each join has one outcome.

  function One(b: bool): (r: nat) {
    if b then 1 else 0
  }

  function Joins(es: seq<Event>): (r: nat) {
    if es == [] then 0 else Joins(es[..|es| - 1]) + One(Accepts(es[|es| - 1]))
  }

  /** The joins that a new join, a disconnect command or a deleted station cut short. */
  function Cancelled(m: Link, es: seq<Event>): (r: nat) {
    if es == [] then 0
    else
      var last := es[|es| - 1];
      Cancelled(m, es[..|es| - 1])
      + One(Linking(After(m, es[..|es| - 1])) && Cuts(last))
  }

  lemma ConservedStep(m: Link, e: Event)
    ensures |m.reports| + One(Linking(m)) + One(Accepts(e))
         == |Step(m, e).reports| + One(Linking(Step(m, e))) + One(Linking(m) && Cuts(e))
  {
  }

  /** Every accepted join is still under way, was cut short, or has been reported exactly once. */
  lemma {:induction false} JoinsAreConserved(m: Link, es: seq<Event>)
    ensures |m.reports| + One(Linking(m)) + Joins(es)
         == |After(m, es).reports| + One(Linking(After(m, es))) + Cancelled(m, es)
  {
    if es != [] {
      JoinsAreConserved(m, es[..|es| - 1]);
      ConservedStep(After(m, es[..|es| - 1]), es[|es| - 1]);
    }
  }

  lemma {:induction false} NoJoins(es: seq<Event>)
    requires forall n :: 0 <= n < |es| ==> !Accepts(es[n])
    ensures Joins(es) == 0
  {
    if es != [] {
      NoJoins(es[..|es| - 1]);
    }
  }

  /** After a join, and until the next one, at most one result is reported. */
  lemma AtMostOneReport(m: Link, join: Event, es: seq<Event>)
    requires Accepts(join)
    requires forall n :: 0 <= n < |es| ==> !Accepts(es[n])
    ensures |m.reports| <= |Step(m, join).reports| <= |After(Step(m, join), es).reports| <= |m.reports| + 1
  {
    var started := Step(m, join);
    JoinsAreConserved(started, es);
    NoJoins(es);
    ReportsGrow(started, es);
  }

  lemma StepReports(m: Link, e: Event)
    ensures Step(m, e).reports == m.reports || (|Step(m, e).reports| == |m.reports| + 1
            && Step(m, e).reports[..|m.reports|] == m.reports)
  {
  }

  lemma {:induction false} ReportsGrow(m: Link, es: seq<Event>)
    ensures |m.reports| <= |After(m, es).reports|
  {
    if es != [] {
      ReportsGrow(m, es[..|es| - 1]);
      StepReports(After(m, es[..|es| - 1]), es[|es| - 1]);
    }
  }

  // ---------------------------------------------------------------------
  // Joins end.

  predicate Sound(m: Link) {
    && (m.phase.Authenticating? ==> m.phase.retries <= REAUTH_LIMIT)
    && (m.phase.Associating? ==> m.phase.retries <= REASSOC_LIMIT)
  }

  /** The expiries a join can still survive, and the one that ends it. */
  function Budget(m: Link): (r: nat)
    requires Sound(m)
    ensures r <= REAUTH_LIMIT + REASSOC_LIMIT + 1
  {
    match m.phase
    case AwaitingBeacon => REAUTH_LIMIT + REASSOC_LIMIT + 1
    case Authenticating(n, _) => REAUTH_LIMIT - n + REASSOC_LIMIT + 1
    case Associating(n) => REASSOC_LIMIT - n + 1
    case _ => 0
  }

  /** The expiries of the link timer during a join. */
  function Expiries(m: Link, es: seq<Event>): (r: nat) {
    if es == [] then 0
    else
      var before := After(m, es[..|es| - 1]);
      Expiries(m, es[..|es| - 1]) + One(es[|es| - 1].TimerFires? && before.armed && Linking(before))
  }

  lemma {:induction false} SoundAfter(m: Link, es: seq<Event>)
    requires Sound(m)
    ensures Sound(After(m, es))
  {
    if es != [] {
      SoundAfter(m, es[..|es| - 1]);
    }
  }

  lemma BudgetStep(m: Link, e: Event)
    requires Sound(m) && !Accepts(e)
    ensures Sound(Step(m, e))
    ensures One(e.TimerFires? && m.armed && Linking(m)) + Budget(Step(m, e)) <= Budget(m)
  {
  }

  /** Whatever frames arrive, each expiry is paid for out of the budget the join started with. */
  lemma {:induction false} ExpiriesSpendBudget(m: Link, es: seq<Event>)
    requires Sound(m)
    requires forall n :: 0 <= n < |es| ==> !Accepts(es[n])
    ensures Sound(After(m, es))
    ensures Expiries(m, es) + Budget(After(m, es)) <= Budget(m)
  {
    if es != [] {
      ExpiriesSpendBudget(m, es[..|es| - 1]);
      BudgetStep(After(m, es[..|es| - 1]), es[|es| - 1]);
    }
  }

  /**
   At most REAUTH_LIMIT + REASSOC_LIMIT + 1 expiries between two joins, and once they have occurred the join is over.
   */
  lemma ExpiriesEndJoin(run: seq<Event>, es: seq<Event>)
    requires forall n :: 0 <= n < |es| ==> !Accepts(es[n])
    ensures var m := After(INITIAL, run);
            && Expiries(m, es) <= REAUTH_LIMIT + REASSOC_LIMIT + 1
            && (Expiries(m, es) == REAUTH_LIMIT + REASSOC_LIMIT + 1 ==> !Linking(After(m, es)))
  {
    SoundAfter(INITIAL, run);
    ExpiriesSpendBudget(After(INITIAL, run), es);
  }

  function Fires(n: nat): (r: seq<Event>) {
    if n == 0 then [] else Fires(n - 1) + [TimerFires]
  }

  lemma {:induction false} AfterConcat(m: Link, es: seq<Event>, fs: seq<Event>)
    ensures After(m, es + fs) == After(After(m, es), fs)
    ensures Expiries(m, es + fs) == Expiries(m, es) + Expiries(After(m, es), fs)
  {
    if fs == [] {
      assert es + fs == es;
    } else {
      var n := |fs| - 1;
      assert (es + fs)[..|es + fs| - 1] == es + fs[..n];
      AfterConcat(m, es, fs[..n]);
    }
  }

  lemma MoreFires(m: Link, n: nat)
    requires n > 0
    ensures var before := After(m, Fires(n - 1));
            && After(m, Fires(n)) == Step(before, TimerFires)
            && Expiries(m, Fires(n)) == Expiries(m, Fires(n - 1)) + One(before.armed && Linking(before))
  {
    assert Fires(n)[..|Fires(n)| - 1] == Fires(n - 1);
  }

  lemma {:induction false} FiresDuringAuth(m: Link, n: nat)
    requires m.phase == Authenticating(0, 1) && m.armed && n <= REAUTH_LIMIT
    ensures After(m, Fires(n)) == m.(phase := Authenticating(n, 1)) && Expiries(m, Fires(n)) == n
  {
    if n > 0 {
      FiresDuringAuth(m, n - 1);
      MoreFires(m, n);
      var before := m.(phase := Authenticating(n - 1, 1));
      assert Step(before, TimerFires) == m.(phase := Authenticating(n, 1)) && Linking(before);
    } else {
      assert Fires(n) == [];
    }
  }

  lemma {:induction false} FiresDuringAssoc(m: Link, n: nat)
    requires m.phase == Associating(0) && m.armed && n <= REASSOC_LIMIT
    ensures After(m, Fires(n)) == m.(phase := Associating(n)) && Expiries(m, Fires(n)) == n
  {
    if n > 0 {
      FiresDuringAssoc(m, n - 1);
      MoreFires(m, n);
      var before := m.(phase := Associating(n - 1));
      assert Step(before, TimerFires) == m.(phase := Associating(n)) && Linking(before);
    } else {
      assert Fires(n) == [];
    }
  }

  lemma OneStep(m: Link, e: Event)
    ensures After(m, [e]) == Step(m, e)
    ensures Expiries(m, [e]) == One(e.TimerFires? && m.armed && Linking(m))
  {
    assert [e][..0] == [];
  }

  /** The bound is reached. */
  lemma BoundIsReached(m: Link, auth: Event)
    requires m.phase == AwaitingBeacon && m.armed && FinalAuth(auth, m.algorithm)
    ensures var beacon := Beacon(m.bssid, false, false, false);
            var es := [beacon] + (Fires(REAUTH_LIMIT) + ([auth] + (Fires(REASSOC_LIMIT) + [TimerFires])));
            Expiries(m, es) == REAUTH_LIMIT + REASSOC_LIMIT + 1 && After(m, es).phase == Idle
  {
    var beacon := Beacon(m.bssid, false, false, false);
    var a := Step(m, beacon);
    OneStep(m, beacon);
    FiresDuringAuth(a, REAUTH_LIMIT);
    var b := After(a, Fires(REAUTH_LIMIT));
    OneStep(b, auth);
    var c := Step(b, auth);
    FiresDuringAssoc(c, REASSOC_LIMIT);
    var d := After(c, Fires(REASSOC_LIMIT));
    OneStep(d, TimerFires);
    AfterConcat(c, Fires(REASSOC_LIMIT), [TimerFires]);
    AfterConcat(b, [auth], Fires(REASSOC_LIMIT) + [TimerFires]);
    AfterConcat(a, Fires(REAUTH_LIMIT), [auth] + (Fires(REASSOC_LIMIT) + [TimerFires]));
    AfterConcat(m, [beacon], Fires(REAUTH_LIMIT) + ([auth] + (Fires(REASSOC_LIMIT) + [TimerFires])));
  }
}
