/** What the handlers of one rule read, who was in flight then, and when the sends that follow come. */
module AlertReadings {
  import opened AlertProtocol
  import opened AlertRuns
  import opened AlertSafety
  import opened Options

  /** A reading of the last sent time keeps a send at t away by the cooldown. */
  predicate Clears(c: Check, t: int) {
    c.last.Some? && c.cooldown > 0 ==> t >= c.last.value + c.cooldown * SECOND
  }

  /** One session of the rule: what it read, and that it waited the cooldown out. */
  predicate Timely(x: Session, i: nat, now: nat, checks: nat, floor: nat, k: nat) {
    && (x.server.ReadingLastSent? ==> x.server.cooldown >= floor)
    && (x.server.Inserting? || x.server.ReadingCooldown? || x.server.ReadingLastSent? ==> x.check.None?)
    && (x.server.Deciding? || x.server.Dropping? || x.server == Answered(true) ==> x.check.Some?)
    && (x.check.Some? ==> CheckFits(x, x.check.value, i, now, checks, floor, k))
    && (x.sentOn.Some? || x.recorded.Some? ==> x.check.Some?)
    && (x.recorded.Some? ==> x.sentOn.Some?)
  }

  predicate CheckFits(x: Session, c: Check, i: nat, now: nat, checks: nat, floor: nat, k: nat) {
    && c.position < checks && c.at <= now && c.cooldown >= floor && i in c.rivals && |c.rivals| <= k
    && (c.last.Some? ==> c.last.value % SECOND == 0)
    && (x.server.Deciding? ==> x.server.wait == c.cooldown && x.server.last == c.last)
    && (x.server == Answered(true) ==> Clears(c, now))
    && (x.sentOn.Some? ==> c.at <= x.sentOn.value <= now && Clears(c, x.sentOn.value))
    && (x.finalize.Requested? && x.finalize.status == Sent ==>
         x.finalize.unix > 0 && StampFits(x, c, x.finalize.unix * SECOND, now))
    && (x.recorded.Some? ==> x.recorded.value % SECOND == 0 && StampFits(x, c, x.recorded.value, now))
  }

  /** The time stored for a send: at most a second before the send. */
  predicate StampFits(x: Session, c: Check, t: int, now: nat) {
    && c.at / SECOND * SECOND <= t <= now && Clears(c, t)
    && (x.sentOn.Some? ==> t > x.sentOn.value - SECOND)
  }

  /** Of two sessions of the rule, the later reading counts the earlier one if that may still record a send. */
  predicate Placed(x: Session, i: nat, y: Session) {
    x.check.Some? && y.check.Some? ==>
      && x.check.value.position != y.check.value.position
      && (Earlier(x, y) && MayRecordSend(x) ==> i in y.check.value.rivals)
  }

  predicate Earlier(x: Session, y: Session) {
    x.check.Some? && y.check.Some? && x.check.value.position < y.check.value.position
  }

  predicate TimelyAt(s: Cluster, i: nat, r: RuleId, floor: nat, k: nat)
    requires i < |s.sessions|
  {
    s.sessions[i].pair.rule == r ==> Timely(s.sessions[i], i, s.now, s.checks, floor, k)
  }

  predicate PlacedAt(s: Cluster, i: nat, j: nat, r: RuleId)
    requires i < |s.sessions| && j < |s.sessions|
  {
    i != j && s.sessions[i].pair.rule == r && s.sessions[j].pair.rule == r ==> Placed(s.sessions[i], i, s.sessions[j])
  }

  ghost predicate Timed(s: Cluster, r: RuleId, floor: nat, k: nat) {
    && s.now >= SECOND
    && (r in s.rules ==> s.rules[r] >= floor)
    && (forall i: nat :: i < |s.sessions| ==> TimelyAt(s, i, r, floor, k))
    && (forall i: nat, j: nat :: i < |s.sessions| && j < |s.sessions| ==> PlacedAt(s, i, j, r))
  }

  predicate KeepsFloor(a: Action, r: RuleId, floor: nat) {
    (a.AddRule? || a.SetCooldown?) && a.rule == r ==> a.cooldown >= floor
  }

  // ---------- Steps that read nothing ----------

  /** The session has sent its alert, or its worker may still do so. */
  predicate CanYetSend(x: Session) { x.sentOn.Some? || x.worker.Awaiting? || x.worker.Sending? }

  /** Nobody becomes able to send or to record, and no time changes except that of a session in flight. */
  predicate SameReading(x: Session, y: Session) {
    && y.event == x.event && y.pair == x.pair && y.check == x.check
    && (MayRecordSend(y) ==> MayRecordSend(x)) && (CanYetSend(y) ==> CanYetSend(x))
    && (x.sentOn.Some? ==> y.sentOn == x.sentOn) && (y.sentOn != x.sentOn ==> MayRecordSend(x))
    && (x.recorded.Some? ==> y.recorded == x.recorded) && (y.recorded != x.recorded ==> MayRecordSend(x))
  }

  predicate Blank(x: Session) { x.check.None? && x.sentOn.None? && x.recorded.None? && x.server == Inserting(1) }

  predicate ReadsNothing(s: Cluster, t: Cluster, j: nat) {
    j < |t.sessions| ==> if j < |s.sessions| then SameReading(s.sessions[j], t.sessions[j]) else Blank(t.sessions[j])
  }

  /** Only session i has moved on, without reading; the clock stands. */
  predicate MovesOn(s: Cluster, t: Cluster, i: nat) {
    && i < |s.sessions| == |t.sessions| && t.sessions == s.sessions[i := t.sessions[i]]
    && SameReading(s.sessions[i], t.sessions[i])
    && t.now == s.now && t.checks == s.checks && t.rules == s.rules && t.goneRules == s.goneRules
  }

  predicate Serves(a: Action) { a.AbortServer? || a.ReadCooldown? || a.Decide? || a.MarkDropped? }
  predicate Works(a: Action) { a.TakeReply? || a.Stop? || a.Stamp? }
  predicate Ends(a: Action) { a.TakeVerdict? || a.PublishDlt? }

  lemma OutsideReads(s: Cluster, a: Action)
    requires Enabled(s, a) && Outside(a)
    ensures var t := Apply(s, a);
            && |t.sessions| >= |s.sessions| && t.sessions[..|s.sessions|] == s.sessions
            && (forall j :: |s.sessions| <= j < |t.sessions| ==> Blank(t.sessions[j]))
            && t.now >= s.now && t.checks == s.checks
  {}

  lemma ServerReads(s: Cluster, a: Action)
    requires Enabled(s, a) && Serves(a) && SessionAt(s, a.id)
    ensures MovesOn(s, Apply(s, a), a.id)
  {}

  lemma WorkerReads(s: Cluster, a: Action)
    requires Enabled(s, a) && Works(a) && SessionAt(s, a.id)
    ensures MovesOn(s, Apply(s, a), a.id)
  {}

  lemma WorkerEndReads(s: Cluster, a: Action)
    requires Enabled(s, a) && Ends(a) && SessionAt(s, a.id)
    ensures MovesOn(s, Apply(s, a), a.id)
  {}

  lemma InsertMovesServer(s: Cluster, i: nat, fault: Fault)
    requires Enabled(s, Insert(i, fault))
    ensures var t := ApplyInsert(s, i, fault); var y := t.sessions[i];
            && t == With(s, i, y).(rows := t.rows, owners := t.owners) && y == s.sessions[i].(server := y.server)
            && y.server != Answered(true) && !y.server.Deciding?
  {
    var x := s.sessions[i];
    var outcome := InsertOutcomeOf(s.rows, s.rules.Keys, s.news, x.event, x.pair);
    assert outcome.Inserted? || outcome.Duplicate? || outcome.NewsMissing? || outcome.Rejected?;
  }

  lemma InsertReads(s: Cluster, i: nat, fault: Fault)
    requires Enabled(s, Insert(i, fault)) && SessionAt(s, i)
    ensures MovesOn(s, ApplyInsert(s, i, fault), i)
  {
    InsertMovesServer(s, i, fault);
  }

  lemma SendReads(s: Cluster, i: nat, ok: bool)
    requires Enabled(s, Send(i, ok)) && SessionAt(s, i)
    ensures MovesOn(s, ApplySend(s, i, ok), i)
  {}

  lemma FinalizeReads(s: Cluster, i: nat, fault: Fault)
    requires Enabled(s, ExecFinalize(i, fault)) && SessionAt(s, i)
    ensures MovesOn(s, ApplyFinalize(s, i, fault), i)
  {}

  lemma InsideReads(s: Cluster, a: Action)
    requires Inv(s) && Enabled(s, a) && !Outside(a) && !a.ReadLastSent?
    ensures MovesOn(s, Apply(s, a), a.id)
  {
    assert SessionAt(s, a.id);
    if a.Insert? {
      InsertReads(s, a.id, a.fault);
    } else if a.Send? {
      SendReads(s, a.id, a.ok);
    } else if a.ExecFinalize? {
      FinalizeReads(s, a.id, a.fault);
    } else if Serves(a) {
      ServerReads(s, a);
    } else if Works(a) {
      WorkerReads(s, a);
    } else {
      WorkerEndReads(s, a);
    }
  }

  /** Every step but the reading itself changes no reading. */
  lemma StepReads(s: Cluster, a: Action, j: nat)
    requires Inv(s) && Enabled(s, a) && !a.ReadLastSent?
    ensures |Apply(s, a).sessions| >= |s.sessions| && ReadsNothing(s, Apply(s, a), j)
  {
    if Outside(a) {
      OutsideReads(s, a);
      assert j < |s.sessions| ==> Apply(s, a).sessions[..|s.sessions|][j] == s.sessions[j];
    } else {
      InsideReads(s, a);
    }
  }

  // ---------- The reading ----------

  /** The session after its reading, and what it read. */
  lemma CheckReads(s: Cluster, i: nat, last: Option<int>)
    requires Enabled(s, ReadLastSent(i, last))
    ensures var x, t := s.sessions[i], ApplyCheck(s, i, last);
            && t.sessions[i].check == Some(Check(s.checks, s.now, x.server.cooldown, last,
              InFlight(s.sessions, x.pair.rule) + {i}))
            && t.sessions[i] == x.(server := Deciding(x.server.cooldown, last), check := t.sessions[i].check)
            && t == With(s, i, t.sessions[i]).(checks := s.checks + 1)
  {}

  // ---------- Preservation ----------

  lemma TimelyLater(x: Session, i: nat, now: nat, checks: nat, now': nat, checks': nat, floor: nat, k: nat)
    requires Timely(x, i, now, checks, floor, k) && now <= now' && checks <= checks'
    ensures Timely(x, i, now', checks', floor, k)
  {}

  lemma OwnServer(s: Cluster, a: Action, r: RuleId, floor: nat, k: nat)
    requires Enabled(s, a) && Serves(a) && SessionAt(s, a.id) && TimelyAt(s, a.id, r, floor, k)
    requires (r in s.rules ==> s.rules[r] >= floor)
    ensures |Apply(s, a).sessions| == |s.sessions| && TimelyAt(Apply(s, a), a.id, r, floor, k)
  {}

  lemma OwnInsert(s: Cluster, i: nat, fault: Fault, r: RuleId, floor: nat, k: nat)
    requires Enabled(s, Insert(i, fault)) && SessionAt(s, i) && TimelyAt(s, i, r, floor, k)
    ensures TimelyAt(ApplyInsert(s, i, fault), i, r, floor, k)
  {}

  lemma OwnWorker(s: Cluster, a: Action, r: RuleId, floor: nat, k: nat)
    requires Enabled(s, a) && (a.TakeReply? || a.Stop?) && SessionAt(s, a.id) && TimelyAt(s, a.id, r, floor, k)
    ensures |Apply(s, a).sessions| == |s.sessions| && TimelyAt(Apply(s, a), a.id, r, floor, k)
  {}

  lemma OwnEnd(s: Cluster, a: Action, r: RuleId, floor: nat, k: nat)
    requires Enabled(s, a) && Ends(a) && SessionAt(s, a.id) && TimelyAt(s, a.id, r, floor, k)
    ensures |Apply(s, a).sessions| == |s.sessions| && TimelyAt(Apply(s, a), a.id, r, floor, k)
  {}

  lemma OwnSend(s: Cluster, i: nat, ok: bool, r: RuleId, floor: nat, k: nat)
    requires Enabled(s, Send(i, ok)) && SessionAt(s, i) && TimelyAt(s, i, r, floor, k)
    ensures TimelyAt(ApplySend(s, i, ok), i, r, floor, k)
  {}

  lemma WholeSeconds(t: int, from: int)
    requires from <= t
    ensures t / SECOND >= from / SECOND && t / SECOND * SECOND <= t < t / SECOND * SECOND + SECOND
    ensures from % SECOND == 0 ==> t / SECOND * SECOND >= from
  {}

  /** The worker's clock in whole seconds fits what was read. */
  lemma StampIsFitting(x: Session, c: Check, now: nat)
    requires now >= SECOND && c.at <= now && Clears(c, now) && (c.last.Some? ==> c.last.value % SECOND == 0)
    requires x.sentOn.Some? ==> x.sentOn.value <= now
    ensures now / SECOND > 0 && StampFits(x, c, now / SECOND * SECOND, now)
  {
    WholeSeconds(now, c.at);
    if c.last.Some? && c.cooldown > 0 { WholeSeconds(now, c.last.value + c.cooldown * SECOND); }
  }

  lemma OwnStamp(s: Cluster, i: nat, r: RuleId, floor: nat, k: nat)
    requires Enabled(s, Stamp(i)) && SessionAt(s, i) && TimelyAt(s, i, r, floor, k) && s.now >= SECOND
    ensures TimelyAt(Apply(s, Stamp(i)), i, r, floor, k)
  {
    var x := s.sessions[i];
    if x.pair.rule == r { StampIsFitting(x, x.check.value, s.now); }
  }

  lemma StoredTime(unix: int, now: nat)
    requires unix > 0
    ensures Micros(SentAt(unix, now)) == unix * SECOND
  {
    assert unix * SECOND == unix * 1_000_000 * 1000;
  }

  lemma OwnFinalize(s: Cluster, i: nat, fault: Fault, r: RuleId, floor: nat, k: nat)
    requires Enabled(s, ExecFinalize(i, fault)) && SessionAt(s, i) && TimelyAt(s, i, r, floor, k)
    ensures TimelyAt(ApplyFinalize(s, i, fault), i, r, floor, k)
  {
    var f := s.sessions[i].finalize;
    if f.unix > 0 { StoredTime(f.unix, s.now); }
  }

  /** The session that makes the step stays timely. */
  lemma OwnTimely(s: Cluster, a: Action, r: RuleId, floor: nat, k: nat)
    requires Timed(s, r, floor, k) && Enabled(s, a) && !Outside(a) && !a.ReadLastSent? && SessionAt(s, a.id)
    requires a.id < |Apply(s, a).sessions|
    ensures TimelyAt(Apply(s, a), a.id, r, floor, k)
  {
    assert TimelyAt(s, a.id, r, floor, k);
    if a.Insert? {
      OwnInsert(s, a.id, a.fault, r, floor, k);
    } else if a.Send? {
      OwnSend(s, a.id, a.ok, r, floor, k);
    } else if a.ExecFinalize? {
      OwnFinalize(s, a.id, a.fault, r, floor, k);
    } else if a.Stamp? {
      OwnStamp(s, a.id, r, floor, k);
    } else if Serves(a) {
      OwnServer(s, a, r, floor, k);
    } else if Ends(a) {
      OwnEnd(s, a, r, floor, k);
    } else {
      OwnWorker(s, a, r, floor, k);
    }
  }

  lemma InsideTimed(s: Cluster, a: Action, r: RuleId, floor: nat, k: nat)
    requires Inv(s) && Timed(s, r, floor, k) && Enabled(s, a) && !Outside(a) && !a.ReadLastSent?
    ensures Timed(Apply(s, a), r, floor, k)
  {
    InsideReads(s, a);
    assert SessionAt(s, a.id);
    OwnTimely(s, a, r, floor, k);
    MovedTimed(s, Apply(s, a), a.id, r, floor, k);
  }

  lemma MovedTimed(s: Cluster, t: Cluster, i: nat, r: RuleId, floor: nat, k: nat)
    requires Timed(s, r, floor, k) && MovesOn(s, t, i) && TimelyAt(t, i, r, floor, k)
    ensures Timed(t, r, floor, k)
  {
    forall j: nat | j < |t.sessions| ensures TimelyAt(t, j, r, floor, k) { assert TimelyAt(s, j, r, floor, k); }
    forall p: nat, q: nat | p < |t.sessions| && q < |t.sessions| ensures PlacedAt(t, p, q, r) {
      PlacedStays(s, t, r, floor, k, p, q);
    }
  }

  lemma OutsideTimely(s: Cluster, t: Cluster, r: RuleId, floor: nat, k: nat, j: nat)
    requires Timed(s, r, floor, k) && j < |t.sessions| && |t.sessions| >= |s.sessions|
    requires t.sessions[..|s.sessions|] == s.sessions
    requires j >= |s.sessions| ==> Blank(t.sessions[j])
    requires t.now >= s.now && t.checks == s.checks
    ensures TimelyAt(t, j, r, floor, k)
  {
    if j < |s.sessions| {
      assert t.sessions[j] == t.sessions[..|s.sessions|][j];
      assert TimelyAt(s, j, r, floor, k);
      if s.sessions[j].pair.rule == r { TimelyLater(s.sessions[j], j, s.now, s.checks, t.now, s.checks, floor, k); }
    }
  }

  lemma OutsideTimed(s: Cluster, a: Action, r: RuleId, floor: nat, k: nat)
    requires Inv(s) && Timed(s, r, floor, k) && Enabled(s, a) && Outside(a) && KeepsFloor(a, r, floor)
    ensures Timed(Apply(s, a), r, floor, k)
  {
    var t := Apply(s, a);
    OutsideReads(s, a);
    RulesKept(s, a, r, floor);
    forall j: nat | j < |t.sessions| ensures TimelyAt(t, j, r, floor, k) { OutsideTimely(s, t, r, floor, k, j); }
    forall p: nat, q: nat | p < |t.sessions| && q < |t.sessions| ensures PlacedAt(t, p, q, r) {
      StepReads(s, a, p);
      StepReads(s, a, q);
      PlacedStays(s, t, r, floor, k, p, q);
    }
  }

  /** The time read is that of a recorded send, so it is a whole second. */
  lemma ReadsWholeSeconds(s: Cluster, last: Option<int>, r: RuleId, floor: nat, k: nat)
    requires Inv(s) && Timed(s, r, floor, k) && IsLastSent(s.rows, r, last) && last.Some?
    ensures last.value % SECOND == 0
  {
    var e :| e in s.rows && SentFor(s.rows, e, r) && s.rows[e].sentAt == last;
    assert RowAt(s, e);
    assert OwnerAt(s, s.rows[e].pair) && TimelyAt(s, s.owners[s.rows[e].pair], r, floor, k);
  }

  lemma CheckTimely(s: Cluster, i: nat, last: Option<int>, r: RuleId, floor: nat, k: nat, j: nat)
    requires Inv(s) && Timed(s, r, floor, k) && Enabled(s, ReadLastSent(i, last)) && j < |s.sessions|
    requires |InFlight(ApplyCheck(s, i, last).sessions, r)| <= k
    ensures TimelyAt(ApplyCheck(s, i, last), j, r, floor, k)
  {
    var t := ApplyCheck(s, i, last);
    CheckReads(s, i, last);
    assert SessionAt(s, j) && TimelyAt(s, j, r, floor, k);
    if s.sessions[j].pair.rule == r {
      if j == i {
        assert InFlight(t.sessions, r) == t.sessions[i].check.value.rivals;
        if last.Some? { ReadsWholeSeconds(s, last, r, floor, k); }
      } else {
        TimelyLater(s.sessions[j], j, s.now, s.checks, s.now, s.checks + 1, floor, k);
      }
    }
  }

  lemma CheckPlaced(s: Cluster, i: nat, last: Option<int>, r: RuleId, floor: nat, k: nat, p: nat, q: nat)
    requires Timed(s, r, floor, k) && Enabled(s, ReadLastSent(i, last)) && p < |s.sessions| && q < |s.sessions|
    ensures PlacedAt(ApplyCheck(s, i, last), p, q, r)
  {
    CheckReads(s, i, last);
    assert PlacedAt(s, p, q, r) && TimelyAt(s, p, r, floor, k) && TimelyAt(s, q, r, floor, k);
  }

  lemma CheckTimed(s: Cluster, i: nat, last: Option<int>, r: RuleId, floor: nat, k: nat)
    requires Inv(s) && Timed(s, r, floor, k) && Enabled(s, ReadLastSent(i, last))
    requires |InFlight(ApplyCheck(s, i, last).sessions, r)| <= k
    ensures Timed(ApplyCheck(s, i, last), r, floor, k)
  {
    var t := ApplyCheck(s, i, last);
    CheckReads(s, i, last);
    forall j: nat | j < |t.sessions| ensures TimelyAt(t, j, r, floor, k) { CheckTimely(s, i, last, r, floor, k, j); }
    forall p: nat, q: nat | p < |t.sessions| && q < |t.sessions| ensures PlacedAt(t, p, q, r) {
      CheckPlaced(s, i, last, r, floor, k, p, q);
    }
  }

  lemma PlacedStays(s: Cluster, t: Cluster, r: RuleId, floor: nat, k: nat, p: nat, q: nat)
    requires Timed(s, r, floor, k) && p < |t.sessions| && q < |t.sessions| && ReadsNothing(s, t, p)
    requires ReadsNothing(s, t, q)
    ensures PlacedAt(t, p, q, r)
  {
    if p < |s.sessions| && q < |s.sessions| { assert PlacedAt(s, p, q, r); }
  }

  lemma RulesKept(s: Cluster, a: Action, r: RuleId, floor: nat)
    requires Enabled(s, a) && KeepsFloor(a, r, floor) && (r in s.rules ==> s.rules[r] >= floor) && Outside(a)
    ensures r in Apply(s, a).rules ==> Apply(s, a).rules[r] >= floor
  {}

  /** Every step keeps the readings, the flights and the times of the rule's sends in relation. */
  lemma StepTimed(s: Cluster, a: Action, r: RuleId, floor: nat, k: nat)
    requires Inv(s) && Timed(s, r, floor, k) && Enabled(s, a) && KeepsFloor(a, r, floor)
    requires |InFlight(Apply(s, a).sessions, r)| <= k
    ensures Timed(Apply(s, a), r, floor, k)
  {
    if a.ReadLastSent? {
      CheckTimed(s, a.id, a.last, r, floor, k);
    } else if Outside(a) {
      OutsideTimed(s, a, r, floor, k);
    } else {
      InsideTimed(s, a, r, floor, k);
    }
  }

  lemma InitialTimed(s: Cluster, r: RuleId, floor: nat, k: nat)
    requires Initial(s) && (r in s.rules ==> s.rules[r] >= floor)
    ensures Timed(s, r, floor, k)
  {}
}
