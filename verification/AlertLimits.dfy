/** What the protocol does not promise, with the runs that show it, and how far its cooldown goes. */
module AlertLimits {
  import opened AlertCooldown
  import opened AlertProtocol
  import opened AlertReadings
  import opened AlertReach
  import opened AlertRecovery
  import opened AlertRuns
  import opened AlertSafety
  import opened Options

  const RULE: RuleId := 0

  const BLANK := Cluster(SECOND, map[], {}, {}, {}, map[], map[], [], map[], [], {}, 0)

  /** One rule and nothing else. */
  function OneRule(cooldown: nat): Cluster { BLANK.(rules := map[RULE := cooldown]) }

  lemma NobodyFlies(s: Cluster, r: RuleId)
    requires s.sessions == []
    ensures InFlight(s.sessions, r) == {}
  {}

  lemma RuleAdded(cooldown: nat, k: nat, d: Discipline)
    ensures Initial(BLANK) && Reaches(BLANK, OneRule(cooldown), RULE, cooldown, k, d) && Inv(OneRule(cooldown))
    ensures IsLastSent(OneRule(cooldown).rows, RULE, None) && InFlight(OneRule(cooldown).sessions, RULE) == {}
  {
    NobodyFlies(BLANK, RULE);
    NobodyFlies(OneRule(cooldown), RULE);
    Here(BLANK, RULE, cooldown, k, d);
    Next(BLANK, BLANK, AddRule(RULE, cooldown), RULE, cooldown, k, d);
    InitialInv(BLANK);
    InvAlong(BLANK, OneRule(cooldown), RULE, cooldown, k, d);
  }

  predicate RecordedTogether(s: Cluster, i: nat, j: nat, r: RuleId) {
    && i < |s.sessions| && j < |s.sessions| && i != j && s.sessions[i].pair.rule == s.sessions[j].pair.rule == r
    && s.sessions[i].recorded.Some? && s.sessions[i].recorded == s.sessions[j].recorded
  }

  // ---------- As many sends as flights ----------

  /** The session has been let through, and not gone on. */
  predicate Ready(s: Cluster, i: nat) {
    && i < |s.sessions|
    && var x := s.sessions[i];
    && x.pair.rule == RULE && x.server == Answered(true) && x.worker.Awaiting? && x.sentOn.None?
    && x.event in s.rows && s.rows[x.event] == NewRow(x.pair)
  }

  /** It has been delivered, and recorded, at the given second. */
  predicate SentAtOnce(s: Cluster, i: nat, now: nat) {
    && i < |s.sessions| && s.sessions[i].pair.rule == RULE
    && s.sessions[i].sentOn == Some(now) && s.sessions[i].recorded == Some(StampOf(now)) &&
      !MayRecordSend(s.sessions[i])
  }

  /** Of n + 1 sessions, those below m and the last one have been sent, the others are ready. */
  predicate Halfway(s: Cluster, m: nat, n: nat, now: nat) {
    && |s.sessions| == n + 1 && m <= n && s.now == now && SentAtOnce(s, n, now)
    && (forall i: nat :: i < m ==> SentAtOnce(s, i, now)) && (forall i: nat :: m <= i < n ==> Ready(s, i))
  }

  function Below(n: nat): (w: set<nat>)
    ensures |w| == n && forall i: nat :: i in w <==> i < n
  {
    if n == 0 then {} else Below(n - 1) + {n - 1}
  }

  lemma FewFlights(s: Cluster, n: nat)
    requires forall i: nat :: i < |s.sessions| && i >= n ==> !MayRecordSend(s.sessions[i])
    ensures |InFlight(s.sessions, RULE)| <= n
  {
    SubsetSize(InFlight(s.sessions, RULE), Below(n));
  }

  /** Ready sessions have events of their own. */
  lemma ReadyRows(s: Cluster, i: nat, j: nat)
    requires Inv(s) && Ready(s, i) && Ready(s, j) && i != j
    ensures s.sessions[i].event != s.sessions[j].event
  {
    assert SessionAt(s, i) && SessionAt(s, j);
  }

  /** n reservations are let through one after the other. */
  lemma {:induction false} ManyGranted(cooldown: nat, n: nat, k: nat) returns (s: Cluster)
    requires n < k
    ensures Reaches(BLANK, s, RULE, cooldown, k, DeletingLate) && Inv(s) && |s.sessions| == n && s.now == SECOND
    ensures RULE in s.rules
    ensures (forall i: nat :: i < n ==> Ready(s, i)) && IsLastSent(s.rows, RULE, None)
  {
    if n == 0 {
      s := OneRule(cooldown);
      RuleAdded(cooldown, k, DeletingLate);
    } else {
      var t := ManyGranted(cooldown, n - 1, k);
      FewFlights(t, n - 1);
      var y;
      s, y := FreshGrant(t, RULE, cooldown, k, None, DeletingLate);
      InvAlong(t, s, RULE, cooldown, k, DeletingLate);
      Joined(BLANK, t, s, RULE, cooldown, k, DeletingLate);
      StillLast(t.rows, RULE, None, y.event, NewRow(y.pair));
      forall i: nat | i < n ensures Ready(s, i) { assert i < n - 1 ==> Ready(t, i); }
    }
  }

  lemma OthersReady(s: Cluster, t: Cluster, m: nat, y: Session, n: nat)
    requires Inv(s) && Halfway(s, m, n, SECOND) && m < n && Beside(s, t, m, y)
    requires t.rows == s.rows[s.sessions[m].event := Row(s.sessions[m].pair, Sent, Some(StampOf(SECOND)))]
    ensures forall i: nat :: m + 1 <= i < n ==> Ready(t, i)
    ensures forall i: nat :: i < m || i == n ==> SentAtOnce(t, i, SECOND)
  {
    assert Ready(s, m);
    forall i: nat | m + 1 <= i < n ensures Ready(t, i) {
      assert Ready(s, i);
      ReadyRows(s, m, i);
    }
    forall i: nat | i < m || i == n ensures SentAtOnce(t, i, SECOND) { assert SentAtOnce(s, i, SECOND); }
  }

  /** One more of the ready sessions is delivered and recorded. */
  lemma OneMoreSent(s: Cluster, cooldown: nat, m: nat, n: nat) returns (t: Cluster)
    requires Reaches(BLANK, s, RULE, cooldown, n + 1, DeletingLate) && Inv(s) && Halfway(s, m, n, SECOND) && m < n
    ensures Reaches(BLANK, t, RULE, cooldown, n + 1, DeletingLate) && Inv(t) && Halfway(t, m + 1, n, SECOND)
  {
    FewFlights(s, n);
    assert Ready(s, m);
    var y;
    t, y := ReadySent(s, cooldown, m, n + 1);
    OthersReady(s, t, m, y, n);
    InvAlong(s, t, RULE, cooldown, n + 1, DeletingLate);
    Joined(BLANK, s, t, RULE, cooldown, n + 1, DeletingLate);
  }

  lemma ReadySent(s: Cluster, cooldown: nat, m: nat, k: nat) returns (t: Cluster, y: Session)
    requires Inv(s) && Ready(s, m) && |InFlight(s.sessions, RULE)| + 1 <= k && s.now == SECOND
    ensures Reaches(s, t, RULE, cooldown, k, DeletingLate) && Beside(s, t, m, y) && SentAtOnce(t, m, SECOND)
    ensures t.rows == s.rows[s.sessions[m].event := Row(s.sessions[m].pair, Sent, Some(StampOf(SECOND)))]
  {
    var x := s.sessions[m];
    Here(s, RULE, cooldown, k, DeletingLate);
    t, y := SentOnce(s, s, m, x, RULE, cooldown, k, DeletingLate);
    t, y := Recorded(s, t, m, y, RULE, cooldown, k, DeletingLate);
  }

  lemma {:induction false} AllSent(s: Cluster, cooldown: nat, m: nat, n: nat) returns (t: Cluster)
    requires Reaches(BLANK, s, RULE, cooldown, n + 1, DeletingLate) && Inv(s) && Halfway(s, m, n, SECOND)
    ensures Reaches(BLANK, t, RULE, cooldown, n + 1, DeletingLate) && Inv(t) && Halfway(t, n, n, SECOND)
    decreases n - m
  {
    if m == n {
      t := s;
    } else {
      var u := OneMoreSent(s, cooldown, m, n);
      t := AllSent(u, cooldown, m + 1, n);
    }
  }

  lemma StillReady(s: Cluster, t: Cluster, n: nat, y: Session)
    requires (forall i: nat :: i < n ==> Ready(s, i)) && |s.sessions| == n && Beside(s, t, n, y) && y.event !in s.rows
    requires t.rows == s.rows[y.event := Row(y.pair, Sent, Some(StampOf(s.now)))]
    ensures forall i: nat :: i < n ==> Ready(t, i)
  {
    forall i: nat | i < n ensures Ready(t, i) { assert Ready(s, i); }
  }

  /** The last one is sent first, while the others wait. */
  lemma LastSentFirst(cooldown: nat, n: nat) returns (t: Cluster)
    ensures Reaches(BLANK, t, RULE, cooldown, n + 1, DeletingLate) && Inv(t) && Halfway(t, 0, n, SECOND)
  {
    var s := ManyGranted(cooldown, n, n + 1);
    FewFlights(s, n);
    var y;
    t, y := FreshDelivery(s, RULE, cooldown, n + 1, None, DeletingLate);
    InvAlong(s, t, RULE, cooldown, n + 1, DeletingLate);
    Joined(BLANK, s, t, RULE, cooldown, n + 1, DeletingLate);
    assert SessionAt(t, n);
    StillReady(s, t, n, y);
  }

  /** Overlapping reservations defeat the cooldown: with k in flight, k alerts of a rule are delivered at the same
      instant and recorded at the same second, whatever the cooldown. The windows hold no more, so the bound is exact.
      */
  lemma OverlapDefeatsCooldown(cooldown: nat, k: nat)
    requires k >= 1
    ensures exists s ::
        Reaches(BLANK, s, RULE, cooldown, k, DeletingLate) && |s.sessions| == k &&
        forall i: nat :: i < k ==> SentAtOnce(s, i, SECOND)
  {
    var t := LastSentFirst(cooldown, k - 1);
    var u := AllSent(t, cooldown, 0, k - 1);
    assert forall i: nat :: i < k ==> SentAtOnce(u, i, SECOND);
  }

  // ---------- Stored times are whole seconds ----------

  /** The clock runs on between two deliveries. */
  lemma Waited(s: Cluster, cooldown: nat, ns: nat) returns (t: Cluster)
    requires Reaches(BLANK, s, RULE, cooldown, 1, DeletingLate) && Inv(s) && |InFlight(s.sessions, RULE)| <= 1
    ensures t == s.(now := s.now + ns) && Reaches(BLANK, t, RULE, cooldown, 1, DeletingLate) && Inv(t)
  {
    t := Apply(s, Tick(ns));
    Next(BLANK, s, Tick(ns), RULE, cooldown, 1, DeletingLate);
    StepKeeps(s, Tick(ns));
  }

  /** One alert is delivered and recorded on top of what is there. */
  lemma OneMoreDelivery(s: Cluster, cooldown: nat, last: Option<int>) returns (t: Cluster, y: Session)
    requires Reaches(BLANK, s, RULE, cooldown, 1, DeletingLate) && Inv(s) && RULE in s.rules
    requires |InFlight(s.sessions, RULE)| <= 0
    requires IsLastSent(s.rows, RULE, last) && !CooldownBlocks(s.now, s.rules[RULE], last)
    ensures Reaches(BLANK, t, RULE, cooldown, 1, DeletingLate) && Inv(t) && Beside(s, t, |s.sessions|, y)
    ensures y.sentOn == Some(s.now) && y.pair.rule == RULE && !MayRecordSend(y) && y.event !in s.rows
    ensures t.rows == s.rows[y.event := Row(y.pair, Sent, Some(StampOf(s.now)))]
  {
    t, y := FreshDelivery(s, RULE, cooldown, 1, last, DeletingLate);
    InvAlong(s, t, RULE, cooldown, 1, DeletingLate);
    Joined(BLANK, s, t, RULE, cooldown, 1, DeletingLate);
    assert SessionAt(t, |s.sessions|);
  }

  /** A delivery does come a second early, all but a nanosecond: the first one at the end of the second that is
      stored. */
  lemma TruncationSendsEarly(cooldown: nat)
    requires cooldown >= 1
    ensures exists s ::
              && Reaches(BLANK, s, RULE, cooldown, 1, DeletingLate) && |s.sessions| == 2
              && s.sessions[0].pair.rule == s.sessions[1].pair.rule == RULE
              && s.sessions[0].sentOn == Some(2 * SECOND - 1) && s.sessions[1].sentOn == Some((cooldown + 1) * SECOND)
  {
    RuleAdded(cooldown, 1, DeletingLate);
    var s := Waited(OneRule(cooldown), cooldown, SECOND - 1);
    var t, x := OneMoreDelivery(s, cooldown, None);
    FewFlights(t, 0);
    var u := Waited(t, cooldown, (cooldown - 1) * SECOND + 1);
    assert u.now == (cooldown + 1) * SECOND && StampOf(2 * SECOND - 1) == SECOND;
    assert SentFor(u.rows, x.event, RULE);
    var v, y := OneMoreDelivery(u, cooldown, Some(SECOND));
    assert v.sessions[0] == x;
  }

  // ---------- Forgotten sends ----------

  /** One reservation at a time is not enough either: when the news item of a send goes, the rule forgets the send,
      and the next alert goes out in the same second, whatever the cooldown. */
  lemma DeletionDefeatsCooldown(cooldown: nat)
    ensures exists s :: Reaches(BLANK, s, RULE, cooldown, 1, Anything) && RecordedTogether(s, 0, 1, RULE)
  {
    var s0 := OneRule(cooldown);
    RuleAdded(cooldown, 1, Anything);
    var s1, x := FreshDelivery(s0, RULE, cooldown, 1, None, DeletingLate);
    InvAlong(s0, s1, RULE, cooldown, 1, DeletingLate);
    assert SessionAt(s1, 0) && RowAt(s1, x.event);
    var s2 := Apply(s1, DeleteNews(x.pair.news));
    StepKeeps(s1, DeleteNews(x.pair.news));
    assert InFlight(s2.sessions, RULE) <= {};
    Loosened(s0, s1, RULE, cooldown, 1, DeletingLate);
    Joined(BLANK, s0, s1, RULE, cooldown, 1, Anything);
    Next(BLANK, s1, DeleteNews(x.pair.news), RULE, cooldown, 1, Anything);
    assert s2.rows == map[];
    var s3, y := FreshDelivery(s2, RULE, cooldown, 1, None, DeletingLate);
    Loosened(s2, s3, RULE, cooldown, 1, DeletingLate);
    Joined(BLANK, s2, s3, RULE, cooldown, 1, Anything);
    assert RecordedTogether(s3, 0, 1, RULE);
  }

  /** Two alerts of the rule are delivered at the same instant, and only the second is recorded. */
  predicate HiddenSend(s: Cluster) {
    && |s.sessions| == 2 && s.sessions[0].pair.rule == s.sessions[1].pair.rule == RULE
    && s.sessions[0].sentOn == s.sessions[1].sentOn == Some(s.now)
    && s.sessions[0].recorded.None? && s.sessions[1].recorded.Some?
  }

  /** One alert has been delivered, and the worker is about to report it. */
  lemma OneDelivered(cooldown: nat) returns (s: Cluster, x: Session)
    ensures Reaches(BLANK, s, RULE, cooldown, 1, DeletingLate) && Inv(s) && s.sessions == [x] && RULE in s.rules
    ensures s.now == SECOND
    ensures x.pair.rule == RULE && x.finalize == Requested(Sent, 1) && x.sentOn == Some(SECOND) && x.recorded.None?
    ensures s.rows == map[x.event := NewRow(x.pair)] && x.pair.news in s.news && |InFlight(s.sessions, RULE)| <= 1
  {
    var s0 := OneRule(cooldown);
    RuleAdded(cooldown, 1, DeletingLate);
    s, x := FreshGrant(s0, RULE, cooldown, 1, None, DeletingLate);
    s, x := SentOnce(s0, s, 0, x, RULE, cooldown, 1, DeletingLate);
    InvAlong(s0, s, RULE, cooldown, 1, DeletingLate);
    Joined(BLANK, s0, s, RULE, cooldown, 1, DeletingLate);
    assert SessionAt(s, 0) && RowAt(s, x.event);
    FewFlights(s, 1);
  }

  /** Once the flight has ended without a record, nothing keeps the next alert back. */
  lemma HiddenBehind(s: Cluster, x: Session, cooldown: nat) returns (t: Cluster)
    requires Reaches(BLANK, s, RULE, cooldown, 1, DeletingLate) && Inv(s) && s.sessions == [x] && RULE in s.rules
    requires x.pair.rule == RULE && x.sentOn == Some(s.now) && x.recorded.None? && !MayRecordSend(x)
    requires IsLastSent(s.rows, RULE, None)
    ensures Reaches(BLANK, t, RULE, cooldown, 1, DeletingLate) && HiddenSend(t) && t.sessions[0] == x
    ensures x.event in s.rows ==> x.event in t.rows && t.rows[x.event] == s.rows[x.event]
  {
    FewFlights(s, 0);
    var y;
    t, y := FreshDelivery(s, RULE, cooldown, 1, None, DeletingLate);
    Joined(BLANK, s, t, RULE, cooldown, 1, DeletingLate);
  }

  /** Deletions that come late still hide a send that is in flight: two alerts of the rule are delivered in the same
      instant, one reservation at a time, and only one of them is recorded. */
  lemma DeletionHidesSend(cooldown: nat)
    ensures exists s :: Reaches(BLANK, s, RULE, cooldown, 1, DeletingLate) && HiddenSend(s)
  {
    var s1, x := OneDelivered(cooldown);
    var a := DeleteNews(x.pair.news);
    Next(BLANK, s1, a, RULE, cooldown, 1, DeletingLate);
    StepKeeps(s1, a);
    var s2 := Apply(s1, a);
    assert s2.rows == map[];
    UnrecordedBehind(s2, x, cooldown);
  }

  lemma UnrecordedBehind(s: Cluster, x: Session, cooldown: nat)
    requires Reaches(BLANK, s, RULE, cooldown, 1, DeletingLate) && Inv(s) && s.sessions == [x] && RULE in s.rules
    requires s.now == SECOND
    requires x.pair.rule == RULE && x.finalize == Requested(Sent, 1) && x.sentOn == Some(SECOND) && x.recorded.None?
    requires s.rows == map[]
    ensures exists t :: Reaches(BLANK, t, RULE, cooldown, 1, DeletingLate) && HiddenSend(t)
  {
    assert SessionAt(s, 0);
    FinalizedAway(s, x, NoFault);
    FewFlights(ApplyFinalize(s, 0, NoFault), 0);
    Next(BLANK, s, ExecFinalize(0, NoFault), RULE, cooldown, 1, DeletingLate);
    StepKeeps(s, ExecFinalize(0, NoFault));
    var t := HiddenBehind(ApplyFinalize(s, 0, NoFault), ApplyFinalize(s, 0, NoFault).sessions[0], cooldown);
  }

  /** A finalize call that stores nothing ends the flight. */
  lemma FinalizedAway(s: Cluster, x: Session, fault: Fault)
    requires s.sessions == [x] && x.finalize == Requested(Sent, 1) && x.recorded.None? && SessionAt(s, 0)
    requires fault == NoEffect || x.event !in s.rows
    ensures var t := ApplyFinalize(s, 0, fault);
            && t == Apply(s, ExecFinalize(0, fault)) && t.sessions == [t.sessions[0]] && !MayRecordSend(t.sessions[0])
            && t.sessions[0] == x.(finalize := Executed(Sent, fault == NoFault)) && t.rows == s.rows
  {}

  /** So does a finalize call that fails: the row stays pending, and says nothing to later readings. */
  lemma FailedFinalizeHidesSend(cooldown: nat)
    ensures exists s :: Reaches(BLANK, s, RULE, cooldown, 1, DeletingLate) && HiddenSend(s) && StillPending(s)
  {
    var s1, x := OneDelivered(cooldown);
    assert SessionAt(s1, 0);
    FinalizedAway(s1, x, NoEffect);
    FewFlights(ApplyFinalize(s1, 0, NoEffect), 0);
    Next(BLANK, s1, ExecFinalize(0, NoEffect), RULE, cooldown, 1, DeletingLate);
    StepKeeps(s1, ExecFinalize(0, NoEffect));
    var t := HiddenBehind(ApplyFinalize(s1, 0, NoEffect), ApplyFinalize(s1, 0, NoEffect).sessions[0], cooldown);
    assert StillPending(t);
  }

  /** The row of the first session is there, and pending. */
  predicate StillPending(s: Cluster) {
    s.sessions != [] && s.sessions[0].event in s.rows && s.rows[s.sessions[0].event].status == Pending
  }

  // ---------- An alert can be lost ----------

  /** An alert can be lost: the row stays pending in every continuation, and the channel is never tried. */
  lemma AlertsMayBeLost()
    ensures exists s, e, p :: Reaches(BLANK, s, RULE, 0, 1, DeletingLate) && LostFor(s, e, p)
  {
    var s0 := OneRule(0);
    RuleAdded(0, 1, DeletingLate);
    var s1, x := Taken(s0, RULE, 0, 1, DeletingLate);
    s1, x := Created(s0, s1, 0, x, RULE, 0, 1, true, DeletingLate);
    InvAlong(s0, s1, RULE, 0, 1, DeletingLate);
    Joined(BLANK, s0, s1, RULE, 0, 1, DeletingLate);
    Owner(s1, 0);
    forall acts | Legal(s1, acts) ensures NeverSettled(s1, acts, x.event, x.pair) {
      AbandonedForever(s1, acts, 0);
    }
    assert LostFor(s1, x.event, x.pair);
  }

  predicate NeverSettled(s: Cluster, acts: seq<Action>, e: EventId, p: Pair)
    requires Legal(s, acts)
  {
    (e in After(s, acts).rows ==> After(s, acts).rows[e].status == Pending) && Tries(After(s, acts).channel, p) == 0
  }

  ghost predicate LostFor(s: Cluster, e: EventId, p: Pair) {
    && e in s.rows && s.rows[e].pair == p && s.rows[e].status == Pending
    && forall acts :: Legal(s, acts) ==> NeverSettled(s, acts, e, p)
  }
}
