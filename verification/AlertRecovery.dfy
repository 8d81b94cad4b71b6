/** What a lost process costs: which pending rows can still be settled. */
module AlertRecovery {
  import opened AlertCooldown
  import opened AlertProtocol
  import opened AlertReadings
  import opened AlertReach
  import opened AlertRuns
  import opened AlertSafety
  import opened Options

  /** Nobody is left who will write the row: the handler has ended, or it will let a worker send that has stopped. */
  predicate Abandoned(x: Session, now: nat) {
    || x.server.Aborted?
    || (x.server == Answered(true)
        && (x.finalize.Executed? || (x.finalize.Unrequested? && x.worker.Stopped?)))
    || (x.worker.Stopped? && x.server == ReadingLastSent(0))
    || (x.worker.Stopped? && x.server.Deciding? && !CooldownBlocks(now, x.server.wait, x.server.last))
  }

  ghost predicate StaysAbandoned(s: Cluster, t: Cluster, i: nat)
    requires i < |s.sessions|
  {
    var x := s.sessions[i];
    && i < |t.sessions| && Owns(t, i) && Abandoned(t.sessions[i], t.now)
    && t.sessions[i].event == x.event && t.sessions[i].pair == x.pair
    && t.sessions[i].tries == x.tries && t.sessions[i].sentOn == x.sentOn
    && (x.event in t.rows ==> x.event in s.rows && t.rows[x.event] == s.rows[x.event])
  }

  ghost predicate Lost(s: Cluster, i: nat) { i < |s.sessions| && Owns(s, i) && Abandoned(s.sessions[i], s.now) }

  lemma AbandonedOutside(s: Cluster, a: Action, i: nat)
    requires Inv(s) && Enabled(s, a) && Outside(a) && Lost(s, i)
    ensures StaysAbandoned(s, Apply(s, a), i)
  {}

  lemma AbandonedServerMoves(s: Cluster, a: Action, i: nat)
    requires Enabled(s, a) && Lost(s, i) && SessionAt(s, i)
    requires a.AbortServer? || a.ReadCooldown? || a.ReadLastSent? || a.Decide?
    ensures StaysAbandoned(s, Apply(s, a), i)
  {}

  lemma AbandonedWorkerMoves(s: Cluster, a: Action, i: nat)
    requires Enabled(s, a) && Lost(s, i) && SessionAt(s, i) && (a.TakeReply? || a.Stop? || a.Stamp?)
    ensures StaysAbandoned(s, Apply(s, a), i)
  {}

  lemma AbandonedWorkerEnds(s: Cluster, a: Action, i: nat)
    requires Enabled(s, a) && Lost(s, i) && SessionAt(s, i) && (a.TakeVerdict? || a.PublishDlt?)
    ensures StaysAbandoned(s, Apply(s, a), i)
  {}

  lemma AbandonedSend(s: Cluster, j: nat, ok: bool, i: nat)
    requires Enabled(s, Send(j, ok)) && Lost(s, i) && SessionAt(s, i)
    ensures StaysAbandoned(s, ApplySend(s, j, ok), i)
  {}

  lemma AbandonedInsert(s: Cluster, j: nat, fault: Fault, i: nat)
    requires Inv(s) && Enabled(s, Insert(j, fault)) && Lost(s, i)
    ensures StaysAbandoned(s, Apply(s, Insert(j, fault)), i)
  {
    Owner(s, i);
    assert SessionAt(s, j);
    StillThere(s, s.sessions[j].pair);
    assert s.sessions[j].pair in s.owners ==> OwnerAt(s, s.sessions[j].pair);
  }

  lemma AbandonedDrop(s: Cluster, j: nat, fault: Fault, i: nat)
    requires Inv(s) && Enabled(s, MarkDropped(j, fault)) && Lost(s, i)
    ensures StaysAbandoned(s, Apply(s, MarkDropped(j, fault)), i)
  {
    Owner(s, i);
    assert SessionAt(s, j);
    Owner(s, j);
  }

  lemma AbandonedFinalize(s: Cluster, j: nat, fault: Fault, i: nat)
    requires Inv(s) && Enabled(s, ExecFinalize(j, fault)) && Lost(s, i)
    ensures StaysAbandoned(s, ApplyFinalize(s, j, fault), i)
  {
    Owner(s, i);
    assert SessionAt(s, j);
    Owner(s, j);
  }

  lemma AbandonedStep(s: Cluster, a: Action, i: nat)
    requires Inv(s) && Enabled(s, a) && Lost(s, i)
    ensures StaysAbandoned(s, Apply(s, a), i)
  {
    Owner(s, i);
    if Outside(a) { AbandonedOutside(s, a, i); }
    else if a.Send? { AbandonedSend(s, a.id, a.ok, i); }
    else if a.Insert? { AbandonedInsert(s, a.id, a.fault, i); }
    else if a.MarkDropped? { AbandonedDrop(s, a.id, a.fault, i); }
    else if a.ExecFinalize? { AbandonedFinalize(s, a.id, a.fault, i); }
    else if a.AbortServer? || a.ReadCooldown? || a.ReadLastSent? || a.Decide? { AbandonedServerMoves(s, a, i); }
    else if a.TakeReply? || a.Stop? || a.Stamp? { AbandonedWorkerMoves(s, a, i); }
    else { AbandonedWorkerEnds(s, a, i); }
  }

  /** An abandoned row keeps its status for ever, and the channel is never tried again for its pair. */
  lemma {:induction false} AbandonedForever(s: Cluster, acts: seq<Action>, i: nat)
    requires Inv(s) && Legal(s, acts) && Lost(s, i)
    ensures var t := After(s, acts); var x := s.sessions[i];
            && (x.event in t.rows ==> x.event in s.rows && t.rows[x.event] == s.rows[x.event])
            && Tries(t.channel, x.pair) == Tries(s.channel, x.pair)
            && Successes(t.channel, x.pair) == Successes(s.channel, x.pair)
    decreases |acts|
  {
    Owner(s, i);
    if acts == [] {
    } else {
      var t := Apply(s, acts[0]);
      StepKeeps(s, acts[0]);
      AbandonedStep(s, acts[0], i);
      Owner(t, i);
      AbandonedForever(t, acts[1..], i);
    }
  }

  // ---------- The way out of pending ----------

  ghost predicate PendingRow(s: Cluster, i: nat) {
    i < |s.sessions| && Owns(s, i) && s.sessions[i].event in s.rows && s.rows[s.sessions[i].event].status == Pending
  }

  ghost predicate CanSettle(s: Cluster, e: EventId) { exists acts :: Settles(s, acts, e) }

  ghost predicate Settles(s: Cluster, acts: seq<Action>, e: EventId) {
    Legal(s, acts) && e in After(s, acts).rows && After(s, acts).rows[e].status != Pending
  }

  lemma SettleNow(s: Cluster, a: Action, e: EventId)
    requires Enabled(s, a) && e in Apply(s, a).rows && Apply(s, a).rows[e].status != Pending
    ensures CanSettle(s, e)
  {
    var acts := [a];
    assert acts[1..] == [] && Legal(Apply(s, a), acts[1..]);
    assert After(s, acts) == After(Apply(s, a), acts[1..]) == Apply(s, a);
    assert Settles(s, acts, e);
  }

  lemma SettleLater(s: Cluster, a: Action, e: EventId)
    requires Enabled(s, a) && CanSettle(Apply(s, a), e)
    ensures CanSettle(s, e)
  {
    var acts :| Settles(Apply(s, a), acts, e);
    var all := [a] + acts;
    assert all[1..] == acts;
    assert After(s, all) == After(Apply(s, a), all[1..]);
    assert Settles(s, all, e);
  }

  lemma {:induction false} SettleAfter(s: Cluster, acts: seq<Action>, e: EventId)
    requires Legal(s, acts) && CanSettle(After(s, acts), e)
    ensures CanSettle(s, e)
    decreases |acts|
  {
    if acts == [] {
    } else {
      SettleAfter(Apply(s, acts[0]), acts[1..], e);
      SettleLater(s, acts[0], e);
    }
  }

  /** The finalize call is outstanding. */
  lemma FinalizeSettles(s: Cluster, i: nat)
    requires Inv(s) && PendingRow(s, i) && s.sessions[i].finalize.Requested?
    ensures CanSettle(s, s.sessions[i].event)
  {
    Owner(s, i);
    SettleNow(s, ExecFinalize(i, NoFault), s.sessions[i].event);
  }

  lemma StampSettles(s: Cluster, i: nat)
    requires Inv(s) && PendingRow(s, i) && s.sessions[i].worker.Stamping?
    ensures CanSettle(s, s.sessions[i].event)
  {
    StepKeeps(s, Stamp(i));
    FinalizeSettles(Apply(s, Stamp(i)), i);
    SettleLater(s, Stamp(i), s.sessions[i].event);
  }

  lemma SendSettles(s: Cluster, i: nat)
    requires Inv(s) && PendingRow(s, i) && s.sessions[i].worker.Sending?
    ensures CanSettle(s, s.sessions[i].event)
  {
    StepKeeps(s, Send(i, true));
    StampSettles(Apply(s, Send(i, true)), i);
    SettleLater(s, Send(i, true), s.sessions[i].event);
  }

  /** The handler has read what it needs, and somebody is left to act on its answer. */
  lemma AnswerSettles(s: Cluster, i: nat)
    requires Inv(s) && PendingRow(s, i) && (s.sessions[i].server.Dropping? || s.sessions[i].server.Answered?)
    requires !Abandoned(s.sessions[i], s.now)
    ensures CanSettle(s, s.sessions[i].event)
  {
    var x := s.sessions[i];
    Owner(s, i);
    if x.server.Dropping? {
      SettleNow(s, MarkDropped(i, NoFault), x.event);
    } else if x.finalize.Requested? {
      FinalizeSettles(s, i);
    } else if x.worker.Stamping? {
      StampSettles(s, i);
    } else if x.worker.Sending? {
      SendSettles(s, i);
    } else {
      StepKeeps(s, TakeReply(i));
      SendSettles(Apply(s, TakeReply(i)), i);
      SettleLater(s, TakeReply(i), x.event);
    }
  }

  /** The handler decides: a worker is waiting for the answer, or the cooldown blocks and the handler drops the
      alert. */
  lemma DecisionSettles(s: Cluster, i: nat)
    requires Inv(s) && PendingRow(s, i) && s.sessions[i].server.Deciding? && !Abandoned(s.sessions[i], s.now)
    ensures CanSettle(s, s.sessions[i].event)
  {
    Owner(s, i);
    StepKeeps(s, Decide(i));
    AnswerSettles(Apply(s, Decide(i)), i);
    SettleLater(s, Decide(i), s.sessions[i].event);
  }

  /** It reads a last sent time with which it will settle. */
  lemma ReadingSettles(s: Cluster, i: nat, last: Option<int>)
    requires Inv(s) && PendingRow(s, i) && s.sessions[i].server.ReadingLastSent?
    requires IsLastSent(s.rows, s.sessions[i].pair.rule, last)
    requires s.sessions[i].worker.Awaiting? || CooldownBlocks(s.now, s.sessions[i].server.cooldown, last)
    ensures CanSettle(s, s.sessions[i].event)
  {
    var a := ReadLastSent(i, last);
    Owner(s, i);
    StepKeeps(s, a);
    DecisionSettles(Apply(s, a), i);
    SettleLater(s, a, s.sessions[i].event);
  }

  /** With no worker left, the handler still drops the alert if another one of the rule is sent just before it reads. */
  lemma AnotherSendSettles(s: Cluster, i: nat)
    requires Inv(s) && PendingRow(s, i) && s.sessions[i].server.ReadingLastSent? && s.sessions[i].server.cooldown > 0
    ensures CanSettle(s, s.sessions[i].event)
  {
    var x := s.sessions[i];
    var r := x.pair.rule;
    Owner(s, i);
    assert RowAt(s, x.event);
    var last := LastOf(s.rows, r);
    var ns := if last.Some? && last.value + s.rules[r] * SECOND > s.now then last.value + s.rules[r] * SECOND - s.now
        else 0;
    var s1 := Apply(s, Tick(ns));
    StepKeeps(s, Tick(ns));
    var k := |InFlight(s1.sessions, r)| + 1;
    var t, y := FreshDelivery(s1, r, 0, k, last, DeletingLate);
    AnotherSend(s1, t, i, y, r, 0, k);
    SettleLater(s, Tick(ns), x.event);
  }

  lemma AnotherSend(s: Cluster, t: Cluster, i: nat, y: Session, r: RuleId, floor: nat, k: nat)
    requires Inv(s) && PendingRow(s, i) && s.sessions[i].server.ReadingLastSent? && s.sessions[i].server.cooldown > 0
    requires s.sessions[i].pair.rule == r
    requires Reaches(s, t, r, floor, k, DeletingLate) && Beside(s, t, |s.sessions|, y) && y.pair.rule == r
    requires y.event !in s.rows
    requires t.rows == s.rows[y.event := Row(y.pair, Sent, Some(StampOf(s.now)))]
    ensures CanSettle(s, s.sessions[i].event)
  {
    InvAlong(s, t, r, floor, k, DeletingLate);
    var acts :| LeadsTo(s, acts, t, r, floor, k, DeletingLate);
    var e := s.sessions[i].event;
    assert SessionAt(s, i) && RowAt(t, e) && SessionAt(t, i);
    assert OwnerAt(t, t.rows[e].pair) && Owns(t, i);
    var last := LastOf(t.rows, r);
    assert SentFor(t.rows, y.event, r);
    StampIsRecent(t.now);
    ReadingSettles(t, i, last);
    SettleAfter(s, acts, e);
  }

  lemma StampIsRecent(now: nat)
    ensures now - SECOND < StampOf(now) <= now
  {}

  /** A pending row can still be settled if and only if it is not abandoned. */
  lemma SettledIff(s: Cluster, i: nat)
    requires Inv(s) && PendingRow(s, i)
    ensures CanSettle(s, s.sessions[i].event) <==> !Abandoned(s.sessions[i], s.now)
  {
    if Abandoned(s.sessions[i], s.now) {
      forall acts | Legal(s, acts) && s.sessions[i].event in After(s, acts).rows
        ensures After(s, acts).rows[s.sessions[i].event].status == Pending
      {
        AbandonedForever(s, acts, i);
      }
    } else {
      NotAbandonedSettles(s, i);
    }
  }

  lemma NotAbandonedSettles(s: Cluster, i: nat)
    requires Inv(s) && PendingRow(s, i) && !Abandoned(s.sessions[i], s.now)
    ensures CanSettle(s, s.sessions[i].event)
  {
    var x := s.sessions[i];
    Owner(s, i);
    match x.server
    case ReadingCooldown => CooldownSettles(s, i);
    case ReadingLastSent(c) =>
      if c > 0 { AnotherSendSettles(s, i); } else { AwaitedReadingSettles(s, i); }
    case Deciding(_, _) => DecisionSettles(s, i);
    case Dropping => AnswerSettles(s, i);
    case Answered(_) => AnswerSettles(s, i);
  }

  lemma AwaitedReadingSettles(s: Cluster, i: nat)
    requires Inv(s) && PendingRow(s, i) && s.sessions[i].server.ReadingLastSent? && s.sessions[i].worker.Awaiting?
    ensures CanSettle(s, s.sessions[i].event)
  {
    var last := LastOf(s.rows, s.sessions[i].pair.rule);
    ReadingSettles(s, i, last);
  }

  /** Whatever the rule's cooldown is now, it may be set to one that is not zero before the handler reads it. */
  lemma CooldownSettles(s: Cluster, i: nat)
    requires Inv(s) && PendingRow(s, i) && s.sessions[i].server.ReadingCooldown?
    ensures CanSettle(s, s.sessions[i].event)
  {
    var r := s.sessions[i].pair.rule;
    Owner(s, i);
    assert RowAt(s, s.sessions[i].event);
    var t := Apply(s, SetCooldown(r, 1));
    StepKeeps(s, SetCooldown(r, 1));
    StepKeeps(t, ReadCooldown(i));
    AnotherSendSettles(Apply(t, ReadCooldown(i)), i);
    SettleLater(t, ReadCooldown(i), s.sessions[i].event);
    SettleLater(s, SetCooldown(r, 1), s.sessions[i].event);
  }
}
