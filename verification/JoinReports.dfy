/** What the results a run reports mean, how the retry counts count, and which replies are final. */
module JoinReports {
  import opened Join
  import opened JoinRuns

  // ---------------------------------------------------------------------
  // Result codes.

  /** The event makes the link. */
  predicate Links(m: Link, e: Event) {
    !m.phase.Linked? && Step(m, e).phase.Linked?
  }

  /** An accepted join of an ad hoc network, which is reported at once. */
  predicate AdHocJoin(e: Event) {
    Accepts(e) && !e.network.ess
  }

  /** What a result says about the event that reported it and the phase before. */
  predicate Meaning(m: Link, e: Event, result: int) {
    && (result >= 0 <==> Links(m, e) || AdHocJoin(e))
    && (result == -3 <==> e.TimerFires? && m.phase.AwaitingBeacon?)
    && (result == -1 <==> e.TimerFires? && m.phase.Authenticating? && m.phase.retries == REAUTH_LIMIT)
    && (result == -4 <==> e.AssocReply? && m.phase.Associating? && e.status != 0)
    && (result == -2 <==> (e.TimerFires? && m.phase.Associating? && m.phase.retries == REASSOC_LIMIT)
                          || (e == Disconnected(m.bssid) && Linking(m)))
    && -4 <= result < 16384
  }

  /** A step reports at most one result, and that is what the event means. */
  lemma StepMeans(m: Link, e: Event)
    ensures Step(m, e).reports == m.reports
            || (Step(m, e).reports[..|m.reports|] == m.reports && |Step(m, e).reports| == |m.reports| + 1
                && Meaning(m, e, Step(m, e).reports[|m.reports|]))
  {
  }

  /** Event i of the run reported result k. */
  predicate ReportedBy(es: seq<Event>, i: nat, k: nat)
    requires i < |es|
  {
    |After(INITIAL, es[..i]).reports| == k && |After(INITIAL, es[..i + 1]).reports| == k + 1
  }

  /** Every result of a run was reported by an event it describes. */
  lemma {:induction false} ReportsAreExplained(es: seq<Event>, k: nat) returns (i: nat)
    requires k < |After(INITIAL, es).reports|
    ensures i < |es| && ReportedBy(es, i, k)
    ensures Meaning(After(INITIAL, es[..i]), es[i], After(INITIAL, es).reports[k])
  {
    var n := |es| - 1;
    var before := After(INITIAL, es[..n]);
    StepMeans(before, es[n]);
    if k < |before.reports| {
      i := ReportsAreExplained(es[..n], k);
      PrefixOfPrefix(es, n, i);
      PrefixOfPrefix(es, n, i + 1);
      assert After(INITIAL, es).reports[k] == After(INITIAL, es).reports[..|before.reports|][k];
    } else {
      i := n;
      assert es[..n + 1] == es;
    }
  }

  /** And whenever a join ends, other than by being cut short, something is reported. */
  lemma EndsAreReported(m: Link, e: Event)
    requires Linking(m) && !Linking(Step(m, e)) && !Cuts(e)
    ensures |Step(m, e).reports| == |m.reports| + 1
  {
  }

  // ---------------------------------------------------------------------
  // Retry counts.

  /** Timer expiries of a join among events lo, ..., |es| - 1. */
  function ExpiriesFrom(es: seq<Event>, lo: nat): int
    requires lo <= |es|
  {
    Expiries(INITIAL, es) - Expiries(INITIAL, es[..lo])
  }

  lemma ExpiriesOfLast(es: seq<Event>, lo: nat)
    requires lo < |es|
    ensures var before := After(INITIAL, es[..|es| - 1]);
            ExpiriesFrom(es, lo) == ExpiriesFrom(es[..|es| - 1], lo)
                                    + One(es[|es| - 1].TimerFires? && before.armed && Linking(before))
  {
    PrefixOfPrefix(es, |es| - 1, lo);
  }

  /** During authentication the count is the number of expiries since the beacon that began it. */
  lemma {:induction false} RetriesCountExpiries(es: seq<Event>) returns (j: nat)
    requires After(INITIAL, es).phase.Authenticating?
    ensures BeaconAt(es, j) && During(es, j, |es|, Authenticates)
    ensures After(INITIAL, es).phase.retries == ExpiriesFrom(es, j + 1)
  {
    var n := |es| - 1;
    if After(INITIAL, es[..n]).phase.AwaitingBeacon? {
      j := n;
      TargetIsBssid(es[..n]);
      DuringLast(es, n, Authenticates);
      assert es[..n + 1] == es;
    } else {
      j := RetriesCountExpiries(es[..n]);
      PrefixOfPrefix(es, n, j);
      DuringLonger(es, n, j, Authenticates);
      ExpiriesOfLast(es, j + 1);
    }
  }

  /** During association it is the number of expiries since the final authentication reply. */
  lemma {:induction false} ReassocsCountExpiries(es: seq<Event>) returns (k: nat)
    requires After(INITIAL, es).phase.Associating?
    ensures AuthAt(es, k) && During(es, k, |es|, Associates)
    ensures After(INITIAL, es).phase.retries == ExpiriesFrom(es, k + 1)
  {
    var n := |es| - 1;
    if After(INITIAL, es[..n]).phase.Authenticating? {
      k := n;
      DuringLast(es, n, Associates);
      assert es[..n + 1] == es;
    } else {
      k := ReassocsCountExpiries(es[..n]);
      PrefixOfPrefix(es, n, k);
      DuringLonger(es, n, k, Associates);
      ExpiriesOfLast(es, k + 1);
    }
  }

  /** A result -1 is reported by the expiry after REAUTH_LIMIT others since the beacon. */
  lemma AuthGivesUpAtLimit(es: seq<Event>, k: nat) returns (i: nat, j: nat)
    requires k < |After(INITIAL, es).reports| && After(INITIAL, es).reports[k] == -1
    ensures i < |es| && ReportedBy(es, i, k) && es[i].TimerFires?
    ensures BeaconAt(es[..i], j) && During(es[..i], j, i, Authenticates)
    ensures ExpiriesFrom(es[..i], j + 1) == REAUTH_LIMIT
  {
    i := ReportsAreExplained(es, k);
    j := RetriesCountExpiries(es[..i]);
  }

  // ---------------------------------------------------------------------
  // Challenges.

  /** A challenge that is answered: the second frame of the exchange, with a challenge text. */
  predicate Challenges(e: Event, algorithm: nat) {
    e.AuthFrame? && e.forUs && e.status == 0 && e.transaction == 2 && e.challenge && algorithm == SHARED_KEY
  }

  /** Event n is an expiry of the armed timer. */
  predicate ExpiresAt(es: seq<Event>, n: nat)
    requires n < |es|
  {
    es[n].TimerFires? && After(INITIAL, es[..n]).armed
  }

  /** Event i answered a challenge, and since then the run has been authenticating without an expiry. */
  ghost predicate ChallengeAt(es: seq<Event>, i: nat) {
    && i < |es| && Challenges(es[i], After(INITIAL, es[..i]).algorithm) && KindAt(es, i) == Authenticates
    && During(es, i, |es|, Authenticates) && forall n :: i < n < |es| ==> !ExpiresAt(es, n)
  }

  lemma ChallengeStays(es: seq<Event>, n: nat, i: nat)
    requires |es| == n + 1 && ChallengeAt(es[..n], i) && !ExpiresAt(es, n)
    requires After(INITIAL, es).phase.Authenticating?
    ensures ChallengeAt(es, i)
  {
    PrefixOfPrefix(es, n, i);
    DuringLonger(es, n, i, Authenticates);
    forall k | i < k < |es|
      ensures !ExpiresAt(es, k)
    {
      if k < n {
        PrefixOfPrefix(es, n, k);
        assert !ExpiresAt(es[..n], k);
      }
    }
  }

  lemma ChallengeWas(es: seq<Event>, n: nat, i: nat)
    requires |es| == n + 1 && i < n && ChallengeAt(es, i)
    ensures ChallengeAt(es[..n], i) && !ExpiresAt(es, n)
  {
    PrefixOfPrefix(es, n, i);
    forall k | i < k <= n
      ensures KindAt(es[..n], k) == Authenticates
    {
      PrefixOfPrefix(es, n, k);
      assert KindAt(es, k) == Authenticates;
    }
    forall k | i < k < n
      ensures !ExpiresAt(es[..n], k)
    {
      PrefixOfPrefix(es, n, k);
      assert !ExpiresAt(es, k);
    }
  }

  lemma ChallengeNeedsAuth(es: seq<Event>, i: nat)
    requires ChallengeAt(es, i)
    ensures KindAt(es, |es| - 1) == Authenticates
  {
    if i < |es| - 1 {
      assert KindAt(es, |es| - 1) == Authenticates;
    }
  }

  /** The station's next frame of the exchange is the third exactly while a challenge has been answered
      and no expiry has started the exchange again, and otherwise the first. */
  lemma {:induction false} ThirdFrameFollowsChallenge(es: seq<Event>)
    requires After(INITIAL, es).phase.Authenticating?
    ensures After(INITIAL, es).phase.transaction == if exists i: nat :: ChallengeAt(es, i) then 3 else 1
  {
    var n := |es| - 1;
    var before := After(INITIAL, es[..n]);
    assert es[..n + 1] == es;
    if before.phase.Authenticating? {
      ThirdFrameFollowsChallenge(es[..n]);
      if Challenges(es[n], before.algorithm) {
        DuringLast(es, n, Authenticates);
        assert ChallengeAt(es, n);
      } else {
        if i: nat :| ChallengeAt(es[..n], i) && !ExpiresAt(es, n) {
          ChallengeStays(es, n, i);
        }
        if i: nat :| ChallengeAt(es, i) {
          ChallengeWas(es, n, i);
        }
      }
    } else if i: nat :| ChallengeAt(es, i) {
      ChallengeNeedsAuth(es, i);
    }
  }

  // ---------------------------------------------------------------------
  // Whole exchanges, frame by frame.

  /** Open system: transaction 2 is final. */
  lemma OpenSystemLinks(ap: Address, aid: nat)
    ensures var join, beacon := JoinCmd(Network(ap, true, true, false)), Beacon(ap, false, true, false);
            var auth, reply := AuthFrame(ap, true, 2, 0, false), AssocReply(ap, true, 0, aid);
            After(INITIAL, [join, beacon, auth, reply]) == Link(Linked, ap, OPEN_SYSTEM, false, [aid % 16384])
  {
    var join, beacon := JoinCmd(Network(ap, true, true, false)), Beacon(ap, false, true, false);
    FourEvents(INITIAL, join, beacon, AuthFrame(ap, true, 2, 0, false), AssocReply(ap, true, 0, aid));
    assert INITIAL.reports + [aid % 16384] == [aid % 16384];
  }

  /** Status 13 in the second frame switches an open-system exchange to shared key: after the next
      expiry the challenge of transaction 2 is answered with 3, and 4 is final. */
  lemma SharedKeyLinks(ap: Address, m: Link)
    requires m == Link(Authenticating(0, 1), ap, OPEN_SYSTEM, true, [])
    ensures var refused, challenge := AuthFrame(ap, true, 2, 13, false), AuthFrame(ap, true, 2, 0, true);
            var after := After(m, [refused, TimerFires, challenge]);
            && after == Link(Authenticating(1, 3), ap, SHARED_KEY, true, [])
            && Step(after, AuthFrame(ap, true, 4, 0, false)) == Link(Associating(0), ap, SHARED_KEY, true, [])
            && Step(after, AuthFrame(ap, true, 2, 0, false)) == after
  {
    var refused, challenge := AuthFrame(ap, true, 2, 13, false), AuthFrame(ap, true, 2, 0, true);
    TwoEvents(m, refused, TimerFires);
    AfterAppend(m, [refused, TimerFires], challenge);
    assert [refused, TimerFires] + [challenge] == [refused, TimerFires, challenge];
  }
}
