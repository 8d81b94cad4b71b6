/** At most one delivery per (rule, news), a one-way status, and what a stopped process costs. */
module AlertRuns {
  import opened AlertProtocol
  import opened AlertSafety
  import opened Options

  lemma InitialInv(s: Cluster)
    requires Initial(s)
    ensures Inv(s)
  {
    forall p: Pair ensures ChannelAt(s, p) {}
  }

  lemma {:induction false} RunKeeps(s: Cluster, acts: seq<Action>)
    requires Inv(s) && Legal(s, acts)
    ensures Inv(After(s, acts))
    decreases |acts|
  {
    if acts == [] {
    } else {
      StepKeeps(s, acts[0]);
      RunKeeps(Apply(s, acts[0]), acts[1..]);
    }
  }

  // ---------- Kinds of steps ----------

  /** Steps outside the sessions that exist. */
  predicate Outside(a: Action) {
    a.Tick? || a.AddRule? || a.SetCooldown? || a.DeleteRule? || a.AddNews? || a.DeleteNews? || a.Emit? || a.Receive?
  }

  /** Steps that set the status of a row. */
  predicate Marks(a: Action) { a.MarkDropped? || a.ExecFinalize? }

  /** Steps of one session that leave the table alone. */
  predicate Moves(a: Action) { !Outside(a) && !Marks(a) && !a.Insert? }

  // ---------- At most once ----------

  /** The step makes the reserve handler answer "send" for a pair. */
  predicate SaysSend(s: Cluster, a: Action, p: Pair)
    requires Enabled(s, a)
  {
    a.Decide? && s.sessions[a.id].pair == p && Apply(s, a).sessions[a.id].server == Answered(true)
  }

  function SendAnswers(s: Cluster, acts: seq<Action>, p: Pair): nat
    requires Legal(s, acts)
    decreases |acts|
  {
    if acts == [] then 0
    else (if SaysSend(s, acts[0], p) then 1 else 0) + SendAnswers(Apply(s, acts[0]), acts[1..], p)
  }

  /** The owner of a pair has been told to send. */
  ghost predicate Granted(s: Cluster, p: Pair) {
    p in s.owners && s.owners[p] < |s.sessions| && s.sessions[s.owners[p]].server == Answered(true)
  }

  lemma GrantOutside(s: Cluster, a: Action, p: Pair)
    requires Inv(s) && Enabled(s, a) && (Outside(a) || Marks(a))
    ensures Granted(Apply(s, a), p) <==> Granted(s, p)
  {
    if p in s.owners { assert OwnerAt(s, p); }
  }

  lemma GrantInsert(s: Cluster, i: nat, fault: Fault, p: Pair)
    requires Inv(s) && Enabled(s, Insert(i, fault))
    ensures Granted(Apply(s, Insert(i, fault)), p) <==> Granted(s, p)
  {
    StillThere(s, s.sessions[i].pair);
    assert SessionAt(s, i);
    if p in s.owners { assert OwnerAt(s, p); }
  }

  lemma GrantMoves(s: Cluster, a: Action, p: Pair)
    requires Inv(s) && Enabled(s, a) && Moves(a) && !a.Decide?
    ensures Granted(Apply(s, a), p) <==> Granted(s, p)
  {}

  lemma GrantDecide(s: Cluster, i: nat, p: Pair)
    requires Inv(s) && Enabled(s, Decide(i))
    ensures SaysSend(s, Decide(i), p) ==> !Granted(s, p)
    ensures Granted(Apply(s, Decide(i)), p) <==> Granted(s, p) || SaysSend(s, Decide(i), p)
  {
    assert SessionAt(s, i);
    if p in s.owners { assert OwnerAt(s, p) && SessionAt(s, s.owners[p]); }
  }

  /** The answer "send" to a pair is the one step that grants it, and it comes only to a pair not granted before. */
  lemma GrantIsFirst(s: Cluster, a: Action, p: Pair)
    requires Inv(s) && Enabled(s, a)
    ensures SaysSend(s, a, p) ==> !Granted(s, p)
    ensures Granted(Apply(s, a), p) <==> Granted(s, p) || SaysSend(s, a, p)
  {
    if a.Decide? {
      GrantDecide(s, a.id, p);
    } else if a.Insert? {
      GrantInsert(s, a.id, a.fault, p);
    } else if Moves(a) {
      GrantMoves(s, a, p);
    } else {
      GrantOutside(s, a, p);
    }
  }

  lemma {:induction false} AtMostOneAnswer(s: Cluster, acts: seq<Action>, p: Pair)
    requires Inv(s) && Legal(s, acts)
    ensures SendAnswers(s, acts, p) + (if Granted(s, p) then 1 else 0) <= 1
    decreases |acts|
  {
    if acts == [] {
    } else {
      GrantIsFirst(s, acts[0], p);
      StepKeeps(s, acts[0]);
      AtMostOneAnswer(Apply(s, acts[0]), acts[1..], p);
    }
  }

  /** Whatever interleaves, is redelivered, lost or stopped: per (rule, news) the reserve call answers
      "send" at most once, the channel is tried at most three times and succeeds at most once. */
  lemma AtMostOnce(s: Cluster, acts: seq<Action>, p: Pair)
    requires Initial(s) && Legal(s, acts)
    ensures SendAnswers(s, acts, p) <= 1
    ensures Tries(After(s, acts).channel, p) <= SEND_ATTEMPTS
    ensures Successes(After(s, acts).channel, p) <= 1
    ensures Tries(After(s, acts).channel, p) > 0 ==> SendAnswers(s, acts, p) == 1
  {
    InitialInv(s);
    AtMostOneAnswer(s, acts, p);
    RunKeeps(s, acts);
    var t := After(s, acts);
    assert ChannelAt(t, p);
    if p in t.owners {
      assert OwnerAt(t, p) && SessionAt(t, t.owners[p]);
      if Granted(t, p) { GrantNeedsAnswer(s, acts, p); }
    }
  }

  lemma {:induction false} GrantNeedsAnswer(s: Cluster, acts: seq<Action>, p: Pair)
    requires Inv(s) && Legal(s, acts) && !Granted(s, p) && Granted(After(s, acts), p)
    ensures SendAnswers(s, acts, p) >= 1
    decreases |acts|
  {
    StepKeeps(s, acts[0]);
    GrantIsFirst(s, acts[0], p);
    if !Granted(Apply(s, acts[0]), p) {
      GrantNeedsAnswer(Apply(s, acts[0]), acts[1..], p);
    }
  }

  // ---------- The status of a row ----------

  /** An owned event whose row has left pending, or is gone. */
  ghost predicate Settled(s: Cluster, e: EventId) { OwnedEvent(s, e) && (e in s.rows ==> s.rows[e].status != Pending) }

  /** A row changes only by leaving pending, appears only for a pair that never had one. */
  ghost predicate RowStep(s: Cluster, t: Cluster, e: EventId) {
    && (e in s.rows && e in t.rows && t.rows[e] != s.rows[e] ==>
          s.rows[e].status == Pending && t.rows[e].status != Pending && t.rows[e].pair == s.rows[e].pair)
    && (e in t.rows && e !in s.rows ==> t.rows[e].status == Pending && t.rows[e].pair !in s.owners)
  }

  lemma RowInsert(s: Cluster, i: nat, fault: Fault, e: EventId)
    requires Inv(s) && Enabled(s, Insert(i, fault))
    ensures RowStep(s, Apply(s, Insert(i, fault)), e)
  {
    assert SessionAt(s, i);
    StillThere(s, s.sessions[i].pair);
  }

  lemma RowMark(s: Cluster, a: Action, e: EventId)
    requires Inv(s) && Enabled(s, a) && Marks(a)
    ensures RowStep(s, Apply(s, a), e)
  {
    assert SessionAt(s, a.id);
  }

  lemma RowElse(s: Cluster, a: Action, e: EventId)
    requires Enabled(s, a) && (Outside(a) || Moves(a))
    ensures RowStep(s, Apply(s, a), e)
  {}

  lemma RowStepHolds(s: Cluster, a: Action, e: EventId)
    requires Inv(s) && Enabled(s, a)
    ensures RowStep(s, Apply(s, a), e)
  {
    if a.Insert? { RowInsert(s, a.id, a.fault, e); } else if Marks(a) { RowMark(s, a, e); } else { RowElse(s, a, e); }
  }

  /** The owner of the event's pair is a session of the event. */
  ghost predicate OwnedEvent(s: Cluster, e: EventId) {
    && e in s.topic && s.topic[e] in s.owners
    && s.owners[s.topic[e]] < |s.sessions| && s.sessions[s.owners[s.topic[e]]].event == e
  }

  lemma OwnerAfterInsert(s: Cluster, i: nat, fault: Fault, e: EventId)
    requires Inv(s) && Enabled(s, Insert(i, fault)) && OwnedEvent(s, e)
    ensures OwnedEvent(Apply(s, Insert(i, fault)), e) && Apply(s, Insert(i, fault)).topic == s.topic
  {
    assert SessionAt(s, i);
    StillThere(s, s.sessions[i].pair);
  }

  lemma OwnerOutside(s: Cluster, a: Action, e: EventId)
    requires Enabled(s, a) && Outside(a) && OwnedEvent(s, e)
    ensures OwnedEvent(Apply(s, a), e) && Apply(s, a).topic[e] == s.topic[e]
  {}

  lemma OwnerMarks(s: Cluster, a: Action, e: EventId)
    requires Enabled(s, a) && Marks(a) && OwnedEvent(s, e)
    ensures OwnedEvent(Apply(s, a), e) && Apply(s, a).topic == s.topic
  {}

  lemma OwnerMoves(s: Cluster, a: Action, e: EventId)
    requires Enabled(s, a) && Moves(a) && OwnedEvent(s, e)
    ensures OwnedEvent(Apply(s, a), e) && Apply(s, a).topic == s.topic
  {}

  lemma OwnerStays(s: Cluster, a: Action, e: EventId)
    requires Inv(s) && Enabled(s, a) && OwnedEvent(s, e)
    ensures OwnedEvent(Apply(s, a), e) && Apply(s, a).topic[e] == s.topic[e]
  {
    if a.Insert? {
      OwnerAfterInsert(s, a.id, a.fault, e);
    } else if Outside(a) {
      OwnerOutside(s, a, e);
    } else if Marks(a) {
      OwnerMarks(s, a, e);
    } else {
      OwnerMoves(s, a, e);
    }
  }

  /** No guard protects the updates, yet a row changes only by leaving pending, and a settled one never does. */
  lemma StatusStep(s: Cluster, a: Action, e: EventId)
    requires Inv(s) && Enabled(s, a)
    ensures var t := Apply(s, a);
            && RowStep(s, t, e)
            && (e in t.rows ==> (t.rows[e].sentAt.Some? <==> t.rows[e].status == Sent))
            && (Settled(s, e) ==> Settled(t, e) && (e in t.rows ==> e in s.rows && t.rows[e] == s.rows[e]))
            && (e in s.rows && (e !in t.rows || s.rows[e] != t.rows[e]) ==> Settled(t, e))
  {
    var t := Apply(s, a);
    RowStepHolds(s, a, e);
    StepKeeps(s, a);
    if e in t.rows { assert RowAt(t, e); }
    if e in s.rows {
      assert RowAt(s, e);
      assert SessionAt(s, s.owners[s.rows[e].pair]) && OwnerAt(s, s.rows[e].pair);
      OwnerStays(s, a, e);
    }
    if Settled(s, e) {
      OwnerStays(s, a, e);
      if e in t.rows {
        assert RowAt(t, e) && SessionAt(t, t.owners[t.rows[e].pair]) && OwnerAt(t, t.rows[e].pair);
      }
    }
  }

  /** How often the row of an event leaves pending. */
  function Departures(s: Cluster, acts: seq<Action>, e: EventId): nat
    requires Legal(s, acts)
    decreases |acts|
  {
    if acts == [] then 0 else
    var t := Apply(s, acts[0]);
    (if e in s.rows && e in t.rows && s.rows[e].status == Pending && t.rows[e].status != Pending then 1 else 0)
    + Departures(t, acts[1..], e)
  }

  lemma {:induction false} LeavesPendingOnce(s: Cluster, acts: seq<Action>, e: EventId)
    requires Inv(s) && Legal(s, acts)
    ensures Departures(s, acts, e) <= if Settled(s, e) then 0 else 1
    ensures Settled(s, e) && e in After(s, acts).rows ==> e in s.rows && After(s, acts).rows[e] == s.rows[e]
    ensures Settled(s, e) ==> Settled(After(s, acts), e)
    decreases |acts|
  {
    if acts == [] {
    } else {
      StatusStep(s, acts[0], e);
      StepKeeps(s, acts[0]);
      LeavesPendingOnce(Apply(s, acts[0]), acts[1..], e);
    }
  }

  /** A dead letter was tried exactly three times without success, and its row, while present, says failed. */
  lemma DeadLetters(s: Cluster, acts: seq<Action>, e: EventId)
    requires Initial(s) && Legal(s, acts)
    requires e in After(s, acts).dlt
    ensures var t := After(s, acts);
            && e in t.topic
            && Tries(t.channel, t.topic[e]) == SEND_ATTEMPTS && Successes(t.channel, t.topic[e]) == 0
            && (e in t.rows ==> t.rows[e].status == Failed)
  {
    InitialInv(s);
    RunKeeps(s, acts);
    var t := After(s, acts);
    assert LetterAt(t, e);
    assert OwnerAt(t, t.topic[e]) && SessionAt(t, t.owners[t.topic[e]]) && ChannelAt(t, t.topic[e]);
  }

  /** A row says sent only if the channel delivered, and failed only if it refused three times. */
  lemma VerdictsAreTrue(s: Cluster, acts: seq<Action>, e: EventId)
    requires Initial(s) && Legal(s, acts)
    requires e in After(s, acts).rows
    ensures var t := After(s, acts);
            && (t.rows[e].status == Sent ==> Successes(t.channel, t.rows[e].pair) == 1)
            && (t.rows[e].status == Failed ==>
                 Successes(t.channel, t.rows[e].pair) == 0 && Tries(t.channel, t.rows[e].pair) == SEND_ATTEMPTS)
            && (t.rows[e].status == Dropped ==> Tries(t.channel, t.rows[e].pair) == 0)
            && (forall d :: d in t.rows && t.rows[d].pair == t.rows[e].pair ==> d == e)
  {
    InitialInv(s);
    RunKeeps(s, acts);
    var t := After(s, acts);
    var p := t.rows[e].pair;
    assert RowAt(t, e) && OwnerAt(t, p) && SessionAt(t, t.owners[p]) && ChannelAt(t, p);
    forall d | d in t.rows && t.rows[d].pair == p ensures d == e { assert RowAt(t, d); }
  }

  lemma Owner(s: Cluster, i: nat)
    requires Inv(s) && i < |s.sessions| && Owns(s, i)
    ensures OwnerAt(s, s.sessions[i].pair) && SessionAt(s, i) && ChannelAt(s, s.sessions[i].pair)
  {}
}
