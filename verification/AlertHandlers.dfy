/** The handlers of the main service and the worker, in the order their code runs.
    Between any two commands of one party, all others may take any steps.  Whatever they
    do, every execution is a legal run of the protocol, so its theorems apply. */
module AlertHandlers {
  import opened AlertProtocol
  import opened AlertRuns
  import opened AlertSafety
  import opened Options

  const MILLISECOND: nat := 1_000_000
  const INSERT_BACKOFF: nat := 150 * MILLISECOND
  const MAX_INSERT_BACKOFF: nat := 1200 * MILLISECOND

  datatype Reply<T> = Ok(value: T) | NewsRace | Error

  datatype Delivery = Delivered | Skipped | GaveUp | Broken

  /** What goes wrong around one reserve call: with each insert, during each pause, with the two reads, with the
      update. */
  datatype Troubles = Troubles(
    inserts: seq<Fault>, cancelled: seq<bool>, cooldownFails: bool, lastSentFails: bool, marking: Fault)

  predicate Covers(t: Troubles) { |t.inserts| == INSERT_ATTEMPTS && |t.cancelled| == INSERT_ATTEMPTS - 1 }

  predicate CalmInserts(t: Troubles) {
    && (forall k :: 0 <= k < |t.inserts| ==> t.inserts[k] == NoFault)
    && (forall k :: 0 <= k < |t.cancelled| ==> !t.cancelled[k])
  }

  predicate Calm(t: Troubles) { CalmInserts(t) && !t.cooldownFails && !t.lastSentFails && t.marking == NoFault }

  /** The table has no row of the pair and cannot take one: the rule is gone, or the event carries another pair. */
  predicate Refused(s: Cluster, x: Session) {
    !HasPair(s.rows, x.pair) && (x.pair.rule !in s.rules || x.event in s.rows)
  }

  /** What a worker meets: a lost reply or verdict, the answers of the channel, cancellations of the pauses between
      them, and whether the topic of dead letters takes its message. */
  datatype World = World(
    replyLost: bool, channel: seq<bool>, cancelled: seq<bool>, verdictLost: bool, written: bool)

  predicate Answers(w: World) { |w.channel| == SEND_ATTEMPTS && |w.cancelled| == SEND_ATTEMPTS - 1 }

  /** The channel is tried for the n-th time, counted from 0: it refused before, and no pause was cancelled. */
  predicate TriedAt(w: World, n: nat)
    requires Answers(w) && n < SEND_ATTEMPTS
  {
    (forall k :: 0 <= k < n ==> !w.channel[k]) && (forall k :: 0 <= k < n ==> !w.cancelled[k])
  }

  /** The n-th try is made and the channel takes the message. */
  predicate TakenAt(w: World, n: nat)
    requires Answers(w) && n < SEND_ATTEMPTS
  {
    TriedAt(w, n) && w.channel[n]
  }

  predicate Taken(w: World)
    requires Answers(w)
  {
    exists n :: 0 <= n < SEND_ATTEMPTS && TakenAt(w, n)
  }

  /** All tries are made, and the channel refuses each. */
  predicate RefusedAll(w: World)
    requires Answers(w)
  {
    TriedAt(w, SEND_ATTEMPTS - 1) && !w.channel[SEND_ATTEMPTS - 1]
  }

  predicate Cancelled(w: World) { exists k :: 0 <= k < |w.cancelled| && w.cancelled[k] }

  /** Without a cancellation the message is taken or refused three times. */
  lemma TakenOrRefused(w: World)
    requires Answers(w) && !Cancelled(w)
    ensures Taken(w) != RefusedAll(w)
  {
    if w.channel[0] {
      assert TakenAt(w, 0);
    } else if w.channel[1] {
      assert TakenAt(w, 1);
    } else if w.channel[2] {
      assert TakenAt(w, 2);
    } else {
      assert !Taken(w);
    }
  }

  predicate ServerStep(a: Action, i: nat) {
    (a.Insert? || a.AbortServer? || a.ReadCooldown? || a.ReadLastSent? || a.Decide? || a.MarkDropped?) && a.id == i
  }

  predicate WorkerStep(a: Action, i: nat) {
    (a.TakeReply? || a.Stop? || a.Send? || a.Stamp? || a.TakeVerdict? || a.PublishDlt?) && a.id == i
  }

  predicate SameServer(x: Session, y: Session) { y.event == x.event && y.pair == x.pair && y.server == x.server }

  predicate SameWorker(x: Session, y: Session) {
    y.event == x.event && y.pair == x.pair && y.worker == x.worker && y.tries == x.tries && y.sentOn == x.sentOn
  }

  /** One session moves, and only its server side. */
  predicate OnlyServer(s: Cluster, t: Cluster, i: nat) {
    && i < |s.sessions| == |t.sessions| && t.sessions == s.sessions[i := t.sessions[i]]
    && SameWorker(s.sessions[i], t.sessions[i])
  }

  /** One session moves, and not its reserve handler. */
  predicate OnlyWorker(s: Cluster, t: Cluster, i: nat) {
    && i < |s.sessions| == |t.sessions| && t.sessions == s.sessions[i := t.sessions[i]]
    && SameServer(s.sessions[i], t.sessions[i])
  }

  lemma InsertIsServers(s: Cluster, i: nat, fault: Fault)
    requires Enabled(s, Insert(i, fault))
    ensures OnlyServer(s, ApplyInsert(s, i, fault), i)
  {}

  lemma ReadsAreServers(s: Cluster, a: Action)
    requires Enabled(s, a) && (a.AbortServer? || a.ReadCooldown? || a.ReadLastSent? || a.Decide? || a.MarkDropped?)
    ensures OnlyServer(s, Apply(s, a), a.id)
  {}

  lemma SendIsWorkers(s: Cluster, i: nat, ok: bool)
    requires Enabled(s, Send(i, ok))
    ensures OnlyWorker(s, ApplySend(s, i, ok), i)
  {}

  lemma FinalizeIsNeither(s: Cluster, i: nat, fault: Fault)
    requires Enabled(s, ExecFinalize(i, fault))
    ensures OnlyWorker(s, ApplyFinalize(s, i, fault), i) && OnlyServer(s, ApplyFinalize(s, i, fault), i)
  {}

  lemma MovesAreWorkers(s: Cluster, a: Action)
    requires Enabled(s, a) && (a.TakeReply? || a.Stop? || a.Stamp? || a.TakeVerdict? || a.PublishDlt?)
    ensures OnlyWorker(s, Apply(s, a), a.id)
  {}

  lemma OutsideMovesNobody(s: Cluster, a: Action)
    requires Enabled(s, a) && Outside(a)
    ensures s.sessions <= Apply(s, a).sessions
  {}

  /** Nobody takes an answer or a carried-out verdict back. */
  predicate AnswersKept(x: Session, y: Session) {
    && (x.server.Answered? ==> y.server == x.server)
    && (x.finalize.Executed? ==> y.finalize == x.finalize)
  }

  lemma ServersKeepAnswers(s: Cluster, a: Action)
    requires Enabled(s, a) && (a.AbortServer? || a.ReadCooldown? || a.ReadLastSent?)
    ensures AnswersKept(s.sessions[a.id], Apply(s, a).sessions[a.id])
  {}

  lemma InsertKeepsAnswers(s: Cluster, i: nat, fault: Fault)
    requires Enabled(s, Insert(i, fault))
    ensures AnswersKept(s.sessions[i], ApplyInsert(s, i, fault).sessions[i])
  {}

  lemma OthersKeepAnswers(s: Cluster, a: Action)
    requires Enabled(s, a) && (a.Decide? || a.MarkDropped? || a.ExecFinalize?)
    ensures AnswersKept(s.sessions[a.id], Apply(s, a).sessions[a.id])
  {}

  lemma AnswersStay(s: Cluster, a: Action, i: nat)
    requires Enabled(s, a) && i < |s.sessions| && !WorkerStep(a, i)
    ensures i < |Apply(s, a).sessions| && AnswersKept(s.sessions[i], Apply(s, a).sessions[i])
  {
    OthersStep(s, a, i);
    if Outside(a) {
      OutsideMovesNobody(s, a);
    } else if a.Insert? {
      InsertKeepsAnswers(s, a.id, a.fault);
      OthersOnlyMoveTheirs(s, a, i);
    } else if a.AbortServer? || a.ReadCooldown? || a.ReadLastSent? {
      ServersKeepAnswers(s, a);
      OthersOnlyMoveTheirs(s, a, i);
    } else if a.Decide? || a.MarkDropped? || a.ExecFinalize? {
      OthersKeepAnswers(s, a);
      OthersOnlyMoveTheirs(s, a, i);
    } else {
      OthersOnlyMoveTheirs(s, a, i);
    }
  }

  lemma ClockGoesOn(s: Cluster, a: Action)
    requires Enabled(s, a)
    ensures s.now <= Apply(s, a).now
  {}

  lemma OthersStep(s: Cluster, a: Action, i: nat)
    requires Enabled(s, a) && i < |s.sessions|
    ensures |s.sessions| <= |Apply(s, a).sessions| && s.now <= Apply(s, a).now
    ensures !ServerStep(a, i) ==> SameServer(s.sessions[i], Apply(s, a).sessions[i])
    ensures !WorkerStep(a, i) ==> SameWorker(s.sessions[i], Apply(s, a).sessions[i])
  {
    ClockGoesOn(s, a);
    if Outside(a) {
      OutsideMovesNobody(s, a);
    } else {
      match a
      case Insert(j, fault) => InsertIsServers(s, j, fault);
      case Send(j, ok) => SendIsWorkers(s, j, ok);
      case ExecFinalize(j, fault) => FinalizeIsNeither(s, j, fault);
      case TakeReply(_) => MovesAreWorkers(s, a);
      case Stop(_) => MovesAreWorkers(s, a);
      case Stamp(_) => MovesAreWorkers(s, a);
      case TakeVerdict(_) => MovesAreWorkers(s, a);
      case PublishDlt(_, _) => MovesAreWorkers(s, a);
      case _ => ReadsAreServers(s, a);
    }
  }

  lemma OthersOnlyMoveTheirs(s: Cluster, a: Action, i: nat)
    requires Enabled(s, a) && i < |s.sessions| && !Outside(a)
    ensures |Apply(s, a).sessions| == |s.sessions| && (i != a.id ==> Apply(s, a).sessions[i] == s.sessions[i])
  {
    match a
    case Insert(j, fault) => InsertIsServers(s, j, fault);
    case Send(j, ok) => SendIsWorkers(s, j, ok);
    case ExecFinalize(j, fault) => FinalizeIsNeither(s, j, fault);
    case TakeReply(_) => MovesAreWorkers(s, a);
    case Stop(_) => MovesAreWorkers(s, a);
    case Stamp(_) => MovesAreWorkers(s, a);
    case TakeVerdict(_) => MovesAreWorkers(s, a);
    case PublishDlt(_, _) => MovesAreWorkers(s, a);
    case _ => ReadsAreServers(s, a);
  }

  /** Why a party can rely on its own program counter while all the others run. */
  lemma {:induction false} OthersDoNotMoveUs(s: Cluster, acts: seq<Action>, i: nat)
    requires Legal(s, acts) && i < |s.sessions|
    ensures i < |After(s, acts).sessions| && s.now <= After(s, acts).now
    ensures (forall a :: a in acts ==> !ServerStep(a, i)) ==> SameServer(s.sessions[i], After(s, acts).sessions[i])
    ensures (forall a :: a in acts ==> !WorkerStep(a, i)) ==> SameWorker(s.sessions[i], After(s, acts).sessions[i])
    decreases |acts|
  {
    if acts == [] {
    } else {
      OthersStep(s, acts[0], i);
      OthersDoNotMoveUs(Apply(s, acts[0]), acts[1..], i);
      assert acts[0] in acts && forall a :: a in acts[1..] ==> a in acts;
    }
  }

  /** A new row, and only if the reply says so or is lost; a duplicate needs a row of the pair, a race a missing
      item. */
  predicate InsertAnswers(s: Cluster, t: Cluster, i: nat, r: Reply<bool>)
    requires i < |s.sessions|
  {
    var x, y := s.sessions[i], if i < |t.sessions| then t.sessions[i] else s.sessions[i];
    var added := x.event !in s.rows && t.rows == s.rows[x.event := NewRow(x.pair)];
    && |t.sessions| == |s.sessions| && t.now == s.now && y.event == x.event && y.pair == x.pair
    && match r
       case Ok(inserted) =>
         if inserted then added && y.server.ReadingCooldown?
         else t.rows == s.rows && HasPair(s.rows, x.pair) && y.server == Answered(false)
       case NewsRace =>
         t.rows == s.rows && x.pair.news !in s.news && x.server.Inserting?
         && y.server == if x.server.attempt < INSERT_ATTEMPTS then Inserting(x.server.attempt + 1) else Aborted
       case Error => (t.rows == s.rows || added) && y.server.Aborted?
  }

  lemma InsertReplies(s: Cluster, i: nat, fault: Fault)
    requires Enabled(s, Insert(i, fault))
    ensures var x := s.sessions[i]; var outcome := InsertOutcomeOf(s.rows, s.rules.Keys, s.news, x.event, x.pair);
            InsertAnswers(s, ApplyInsert(s, i, fault), i,
                          if fault != NoFault || outcome == Rejected then Error
                          else if outcome == NewsMissing then NewsRace else Ok(outcome == Inserted))
  {}

  /** Step n of the run was an insert of this handler that was answered and found the news item missing. */
  ghost predicate Missed(origin: Cluster, trace: seq<Action>, i: nat, p: Pair, n: nat) {
    n < |trace| && trace[n] == Insert(i, NoFault) && Legal(origin, trace[..n]) &&
      p.news !in After(origin, trace[..n]).news
  }

  /** These steps, in order, all were such inserts. */
  ghost predicate AllMissed(origin: Cluster, trace: seq<Action>, i: nat, p: Pair, misses: seq<nat>) {
    && (forall j, k :: 0 <= j < k < |misses| ==> misses[j] < misses[k])
    && forall k :: 0 <= k < |misses| ==> Missed(origin, trace, i, p, misses[k])
  }

  /** What happened stays so when the run goes on. */
  lemma MissesStay(origin: Cluster, before: seq<Action>, trace: seq<Action>, i: nat, p: Pair, misses: seq<nat>)
    requires before <= trace && AllMissed(origin, before, i, p, misses)
    ensures AllMissed(origin, trace, i, p, misses)
    ensures Missed(origin, trace, i, p, |before|) ==> AllMissed(origin, trace, i, p, misses + [|before|])
  {
    forall k | 0 <= k < |misses| ensures Missed(origin, trace, i, p, misses[k]) {
      assert Missed(origin, before, i, p, misses[k]);
      assert trace[..misses[k]] == before[..misses[k]];
    }
  }

  class Deployment {
    var st: Cluster
    ghost const origin: Cluster
    ghost var trace: seq<Action>

    ghost predicate Valid()
      reads this
    {
      Initial(origin) && Legal(origin, trace) && After(origin, trace) == st
    }

    constructor (start: Cluster)
      requires Initial(start)
      ensures Valid() && st == start && trace == []
    {
      st, origin, trace := start, start, [];
    }

    /** One atomic step. */
    method Do(a: Action)
      requires Valid() && Enabled(st, a)
      modifies this
      ensures Valid() && st == Apply(old(st), a) && trace == old(trace) + [a]
    {
      AfterAppend(origin, trace, a);
      st := Apply(st, a);
      trace := trace + [a];
    }

    lemma Safe()
      requires Valid()
      ensures Inv(st)
    {
      InitialInv(origin);
      RunKeeps(origin, trace);
    }

    /** What the reserve handler of session i can rely on while others run. */
    twostate predicate ServerKept(i: nat)
      reads this
    {
      && Valid() && old(trace) <= trace && old(st).now <= st.now
      && i < |old(st).sessions| <= |st.sessions|
      && st.sessions[i].server == old(st).sessions[i].server
      && st.sessions[i].event == old(st).sessions[i].event && st.sessions[i].pair == old(st).sessions[i].pair
    }

    /** What the worker of session i can rely on while others run. */
    twostate predicate WorkerKept(i: nat)
      reads this
    {
      && Valid() && old(trace) <= trace && old(st).now <= st.now
      && i < |old(st).sessions| <= |st.sessions|
      && st.sessions[i].worker == old(st).sessions[i].worker
      && st.sessions[i].tries == old(st).sessions[i].tries && st.sessions[i].sentOn == old(st).sessions[i].sentOn
      && st.sessions[i].event == old(st).sessions[i].event && st.sessions[i].pair == old(st).sessions[i].pair
      && AnswersKept(old(st).sessions[i], st.sessions[i])
    }

    method OneStepButServer(i: nat)
      requires Valid() && i < |st.sessions|
      modifies this
      ensures ServerKept(i)
    {
      var a: Action :| true;
      if !ServerStep(a, i) && Enabled(st, a) {
        OthersStep(st, a, i);
        Do(a);
      }
    }

    method OneStepButWorker(i: nat)
      requires Valid() && i < |st.sessions|
      modifies this
      ensures WorkerKept(i)
    {
      var a: Action :| true;
      if !WorkerStep(a, i) && Enabled(st, a) {
        OthersStep(st, a, i);
        AnswersStay(st, a, i);
        Do(a);
      }
    }

    /** Any steps of anyone but this handler; callers know no more than the contract. */
    method OthersRunServer(i: nat, atLeast: nat)
      requires Valid() && i < |st.sessions|
      modifies this
      ensures ServerKept(i) && st.now >= old(st).now + atLeast
    {
      Do(Tick(atLeast));
      var steps: nat :| true;
      while steps > 0
        invariant ServerKept(i) && st.now >= old(st).now + atLeast
      {
        OneStepButServer(i);
        steps := steps - 1;
      }
    }

    /** Any steps of anyone but this worker; callers know no more than the contract. */
    method OthersRunWorker(i: nat, atLeast: nat)
      requires Valid() && i < |st.sessions|
      modifies this
      ensures WorkerKept(i) && st.now >= old(st).now + atLeast
    {
      Do(Tick(atLeast));
      var steps: nat :| true;
      while steps > 0
        invariant WorkerKept(i) && st.now >= old(st).now + atLeast
      {
        OneStepButWorker(i);
        steps := steps - 1;
      }
    }

    // ---------- alert_events commands ----------

    method DoInsert(i: nat, fault: Fault)
      requires Valid() && Enabled(st, Insert(i, fault))
      modifies this
      ensures Valid() && trace == old(trace) + [Insert(i, fault)] && st == ApplyInsert(old(st), i, fault)
    {
      Do(Insert(i, fault));
    }

    /** The handler stands where the reply says, and so does the row. */
    method CreatePendingEvent(i: nat, fault: Fault) returns (r: Reply<bool>)
      requires Valid() && i < |st.sessions| && st.sessions[i].server.Inserting?
      modifies this
      ensures Valid() && old(trace) <= trace && InsertAnswers(old(st), st, i, r)
      ensures r.NewsRace? ==> Missed(origin, trace, i, old(st).sessions[i].pair, |old(trace)|)
      // An error is a fault, or a row that the table cannot take.
      ensures r.Error? <==> fault != NoFault || Refused(old(st), old(st).sessions[i])
      ensures fault == NoFault && r.Error? ==> Refused(st, st.sessions[i])
    {
      var x := st.sessions[i];
      var outcome := InsertOutcomeOf(st.rows, st.rules.Keys, st.news, x.event, x.pair);
      InsertReplies(st, i, fault);
      ghost var n := |trace|;
      DoInsert(i, fault);
      assert trace[..n] == old(trace);
      if fault != NoFault || outcome == Rejected { return Error; }
      if outcome == NewsMissing { return NewsRace; }
      return Ok(outcome == Inserted);
    }

    /** SELECT ... ORDER BY sent_at DESC LIMIT 1. */
    method LastSentOf(rows: Rows, rule: RuleId) returns (last: Option<int>)
      ensures IsLastSent(rows, rule, last)
    {
      last := None;
      var left := rows.Keys;
      while left != {}
        invariant left <= rows.Keys
        invariant last.None? ==> forall e :: e in rows && e !in left ==> !SentFor(rows, e, rule)
        invariant last.Some? ==> exists e :: e in rows && SentFor(rows, e, rule) && rows[e].sentAt == last
        invariant last.Some? ==> forall e :: e in rows && e !in left && SentFor(rows, e, rule) ==>
            rows[e].sentAt.value <= last.value
        decreases left
      {
        var e :| e in left;
        left := left - {e};
        if SentFor(rows, e, rule) && (last.None? || rows[e].sentAt.value > last.value) { last := rows[e].sentAt; }
      }
    }

    method GetLastSentAt(i: nat, fails: bool) returns (r: Reply<Option<int>>)
      requires Valid() && i < |st.sessions| && st.sessions[i].server.ReadingLastSent?
      modifies this
      ensures ServerMoved(i)
      ensures r.Ok? ==> st.sessions[i].server == Deciding(old(st).sessions[i].server.cooldown, r.value)
      ensures r.Ok? <==> !fails
      ensures r.Ok? ==> IsLastSent(old(st).rows, old(st).sessions[i].pair.rule, r.value)
      ensures !r.Ok? ==> st.sessions[i].server.Aborted?
      ensures st.rows == old(st).rows
    {
      if fails { Do(AbortServer(i)); return Error; }
      var last := LastSentOf(st.rows, st.sessions[i].pair.rule);
      Do(ReadLastSent(i, last));
      return Ok(last);
    }

    /** A rule that was deleted meanwhile has no cooldown: an error. */
    method GetRuleCooldownSeconds(i: nat, fails: bool) returns (r: Reply<nat>)
      requires Valid() && i < |st.sessions| && st.sessions[i].server.ReadingCooldown?
      modifies this
      ensures ServerMoved(i)
      ensures r.Ok? ==> st.sessions[i].server == ReadingLastSent(r.value)
      ensures r.Ok? ==>
          old(st).sessions[i].pair.rule in old(st).rules && r.value == old(st).rules[old(st).sessions[i].pair.rule]
      ensures r.Ok? <==> !fails && old(st).sessions[i].pair.rule in old(st).rules
      ensures !r.Ok? ==> st.sessions[i].server.Aborted? && st.rules == old(st).rules
    {
      if fails || st.sessions[i].pair.rule !in st.rules { Do(AbortServer(i)); return Error; }
      var cooldown := st.rules[st.sessions[i].pair.rule];
      Do(ReadCooldown(i));
      return Ok(cooldown);
    }

    /** The handler advanced; who the session is for did not change. */
    twostate predicate ServerMoved(i: nat)
      reads this
    {
      && Valid() && old(trace) <= trace && old(st).now <= st.now
      && i < |old(st).sessions| <= |st.sessions|
      && st.sessions[i].event == old(st).sessions[i].event && st.sessions[i].pair == old(st).sessions[i].pair
    }

    // ---------- The reserve handler ----------

    /** One try, added to the misses when it finds the news item missing. */
    method CreateAndCount(i: nat, fault: Fault, ghost missed: seq<nat>) returns (r: Reply<bool>, ghost misses: seq<nat>)
      requires Valid() && i < |st.sessions| && st.sessions[i].server.Inserting?
      requires AllMissed(origin, trace, i, st.sessions[i].pair, missed)
      modifies this
      ensures ServerMoved(i) && st.now == old(st).now
      ensures st.sessions[i].server ==
              if r == Ok(true) then ReadingCooldown
              else if r == Ok(false) then Answered(false)
              else if r.NewsRace? && old(st).sessions[i].server.attempt < INSERT_ATTEMPTS
                then Inserting(old(st).sessions[i].server.attempt + 1)
              else Aborted
      ensures AllMissed(origin, trace, i, st.sessions[i].pair, misses)
      ensures |misses| == |missed| + if r.NewsRace? then 1 else 0
      ensures fault == NoFault && r.Error? ==> Refused(st, st.sessions[i])
    {
      ghost var p, before := st.sessions[i].pair, trace;
      r := CreatePendingEvent(i, fault);
      MissesStay(origin, before, trace, i, p, missed);
      misses := if r.NewsRace? then missed + [|before|] else missed;
    }

    /** At most five tries; giving up means that the news item was missing at each of them. */
    method CreatePendingEventWithRetry(i: nat, t: Troubles) returns (r: Reply<bool>, ghost misses: seq<nat>)
      requires Valid() && i < |st.sessions| && st.sessions[i].server == Inserting(1) && Covers(t)
      modifies this
      ensures ServerMoved(i)
      ensures r == Ok(true) ==> st.sessions[i].server.ReadingCooldown?
      ensures r == Ok(false) ==> st.sessions[i].server == Answered(false)
      ensures !r.Ok? ==> st.sessions[i].server.Aborted?
      ensures AllMissed(origin, trace, i, old(st).sessions[i].pair, misses)
      ensures (r.NewsRace? ==> |misses| == INSERT_ATTEMPTS)
      // Between the first and the last of five tries lie 150 + 300 + 600 + 1200 ms.
      ensures r.NewsRace? ==> st.now >= old(st).now + 2250 * MILLISECOND
      ensures CalmInserts(t) && r.Error? ==> Refused(st, st.sessions[i])
    {
      var backoff := INSERT_BACKOFF;
      var attempt := 1;
      misses := [];
      while true
        invariant 1 <= attempt <= INSERT_ATTEMPTS && ServerMoved(i)
        invariant st.sessions[i].server == Inserting(attempt)
        invariant AllMissed(origin, trace, i, old(st).sessions[i].pair, misses) && |misses| == attempt - 1
        invariant backoff == [150, 300, 600, 1200, 1200][attempt - 1] * MILLISECOND
        invariant st.now >= old(st).now + [0, 150, 450, 1050, 2250][attempt - 1] * MILLISECOND
        decreases INSERT_ATTEMPTS - attempt
      {
        r, misses := CreateAndCount(i, t.inserts[attempt - 1], misses);
        if !r.NewsRace? || attempt == INSERT_ATTEMPTS { return; }
        ghost var p, before := st.sessions[i].pair, trace;
        if t.cancelled[attempt - 1] {
          Do(AbortServer(i));
          MissesStay(origin, before, trace, i, p, misses);
          return Error, misses;
        }
        OthersRunServer(i, backoff);
        MissesStay(origin, before, trace, i, p, misses);
        backoff := if backoff * 2 < MAX_INSERT_BACKOFF then backoff * 2 else MAX_INSERT_BACKOFF;
        attempt := attempt + 1;
      }
    }

    method MarkDroppedByCooldown(i: nat, fault: Fault) returns (r: Reply<bool>)
      requires Valid() && i < |st.sessions| && st.sessions[i].server.Dropping?
      modifies this
      ensures ServerMoved(i)
      ensures r.Ok? <==> fault == NoFault
      ensures st.sessions[i].server == if r.Ok? then Answered(false) else Aborted
      ensures r.Ok? ==> st.rows == Mark(old(st).rows, st.sessions[i].event, Dropped, 0)
      ensures !r.Ok? ==> st.rows == old(st).rows || st.rows == Mark(old(st).rows, st.sessions[i].event, Dropped, 0)
    {
      Do(MarkDropped(i, fault));
      return if fault == NoFault then Ok(true) else Error;
    }

    /** Deduplicate, then apply the cooldown, then let the worker send. */
    method ReserveAlertDelivery(i: nat, t: Troubles) returns (r: Reply<bool>, ghost misses: seq<nat>)
      requires Valid() && i < |st.sessions| && st.sessions[i].server == Inserting(1) && Covers(t)
      modifies this
      ensures ServerMoved(i)
      ensures r.Ok? ==> st.sessions[i].server == Answered(r.value)
      ensures !r.Ok? ==> st.sessions[i].server.Aborted?
      // The answer "send" is the only one this pair ever gets in this run.
      ensures r == Ok(true) ==> SendAnswers(origin, trace, st.sessions[i].pair) == 1
      // Where nothing goes wrong, an error means a missing item five times, or a row that cannot be.
      ensures AllMissed(origin, trace, i, old(st).sessions[i].pair, misses)
      ensures Calm(t) && !r.Ok? ==>
          |misses| == INSERT_ATTEMPTS || Refused(st, st.sessions[i]) || st.sessions[i].pair.rule !in st.rules
    {
      var inserted;
      inserted, misses := CreatePendingEventWithRetry(i, t);
      if !inserted.Ok? { return Error, misses; }
      if !inserted.value { return Ok(false), misses; }
      ghost var p, before, found := st.sessions[i].pair, trace, misses;
      OthersRunServer(i, 0);
      var cooldown := GetRuleCooldownSeconds(i, t.cooldownFails);
      MissesStay(origin, before, trace, i, p, found);
      if !cooldown.Ok? { return Error, found; }
      OthersRunServer(i, 0);
      var last := GetLastSentAt(i, t.lastSentFails);
      MissesStay(origin, before, trace, i, p, found);
      if !last.Ok? { return Error, found; }
      OthersRunServer(i, 0);
      r := ApplyCooldown(i, cooldown.value, last.value, t.marking);
      MissesStay(origin, before, trace, i, p, found);
      if r == Ok(true) { Granting(i); }
    }

    /** The comparison with the last sent time, and what follows from it. */
    method ApplyCooldown(i: nat, cooldown: nat, last: Option<int>, marking: Fault) returns (r: Reply<bool>)
      requires Valid() && i < |st.sessions| && st.sessions[i].server == Deciding(cooldown, last)
      modifies this
      ensures ServerMoved(i)
      ensures r.Ok? ==> st.sessions[i].server == Answered(r.value)
      ensures !r.Ok? ==> st.sessions[i].server.Aborted?
      ensures marking == NoFault ==> r.Ok?
    {
      var since := if last.Some? then st.now - last.value else 0;
      Do(Decide(i));
      if last.Some? && cooldown > 0 && since < cooldown * SECOND {
        OthersRunServer(i, 0);
        var dropped := MarkDroppedByCooldown(i, marking);
        return if dropped.Ok? then Ok(false) else Error;
      }
      return Ok(true);
    }

    lemma Granting(i: nat)
      requires Valid() && i < |st.sessions| && st.sessions[i].server == Answered(true)
      ensures SendAnswers(origin, trace, st.sessions[i].pair) == 1
    {
      Safe();
      var p := st.sessions[i].pair;
      assert SessionAt(st, i);
      InitialInv(origin);
      AtMostOneAnswer(origin, trace, p);
      GrantNeedsAnswer(origin, trace, p);
    }

    // ---------- The worker ----------

    /** The worker advanced; who the session is for did not change. */
    twostate predicate WorkerMoved(i: nat)
      reads this
    {
      && Valid() && old(trace) <= trace && old(st).now <= st.now
      && i < |old(st).sessions| <= |st.sessions|
      && st.sessions[i].event == old(st).sessions[i].event && st.sessions[i].pair == old(st).sessions[i].pair
      && (old(st).sessions[i].server.Answered? ==> st.sessions[i].server == old(st).sessions[i].server)
    }

    /** The reserve call: an answer, or an error while the handler may still be running. */
    method CallReserve(i: nat, lost: bool) returns (r: Reply<bool>)
      requires Valid() && i < |st.sessions| && st.sessions[i].worker.Awaiting?
      modifies this
      ensures WorkerMoved(i)
      ensures st.sessions[i].worker == if r == Ok(true) then Sending(1) else Stopped
      ensures r == if lost || !st.sessions[i].server.Answered? then Error else Ok(st.sessions[i].server.ready)
      ensures st.sessions[i].tries == old(st).sessions[i].tries && st.sessions[i].sentOn == old(st).sessions[i].sentOn
    {
      OthersRunWorker(i, 0);
      if lost || !st.sessions[i].server.Answered? { Do(Stop(i)); return Error; }
      var ready := st.sessions[i].server.ready;
      Do(TakeReply(i));
      return Ok(ready);
    }

    method CallChannel(i: nat, ok: bool)
      requires Valid() && i < |st.sessions| && st.sessions[i].worker.Sending?
      modifies this
      ensures WorkerMoved(i)
      ensures st.sessions[i].tries == old(st).sessions[i].tries + 1
      ensures st.sessions[i].sentOn.Some? == (old(st).sessions[i].sentOn.Some? || ok)
      ensures st.sessions[i].worker ==
              if ok then Stamping
              else if old(st).sessions[i].worker.attempt < SEND_ATTEMPTS
                then Sending(old(st).sessions[i].worker.attempt + 1)
              else Finalizing(Failed)
    {
      Do(Send(i, ok));
    }

    /** The finalize call: acknowledged, or an error after which the update may or may not have happened. */
    method CallFinalize(i: nat, lost: bool) returns (ok: bool)
      requires Valid() && i < |st.sessions| && st.sessions[i].worker.Finalizing?
      modifies this
      ensures WorkerMoved(i)
      ensures st.sessions[i].tries == old(st).sessions[i].tries && st.sessions[i].sentOn == old(st).sessions[i].sentOn
      ensures st.sessions[i].worker ==
              if ok && old(st).sessions[i].worker.outcome == Failed then Publishing else Stopped
      ensures ok <==> !lost && st.sessions[i].finalize == Executed(old(st).sessions[i].worker.outcome, true)
    {
      OthersRunWorker(i, 0);
      if lost || !st.sessions[i].finalize.Executed? { Do(Stop(i)); return false; }
      ok := st.sessions[i].finalize.acknowledged;
      Safe();
      assert SessionAt(st, i);
      Do(TakeVerdict(i));
    }

    method StopWorker(i: nat)
      requires Valid() && i < |st.sessions|
      modifies this
      ensures WorkerMoved(i) && st.sessions[i].worker.Stopped?
      ensures st.sessions[i].tries == old(st).sessions[i].tries && st.sessions[i].sentOn == old(st).sessions[i].sentOn
    {
      Do(Stop(i));
    }

    /** Reserve, send at most three times with growing pauses, report, and bury what cannot be delivered. */
    method HandleEvent(i: nat, w: World) returns (d: Delivery)
      requires Valid() && i < |st.sessions| && st.sessions[i].worker.Awaiting? && Answers(w)
      modifies this
      ensures WorkerMoved(i) && st.sessions[i].worker.Stopped?
      ensures Tries(st.channel, st.sessions[i].pair) <= SEND_ATTEMPTS && Successes(st.channel, st.sessions[i].pair) <= 1
      ensures d.Delivered? ==> Successes(st.channel, st.sessions[i].pair) == 1
      ensures d.GaveUp? ==>
          Successes(st.channel, st.sessions[i].pair) == 0 && Tries(st.channel, st.sessions[i].pair) == SEND_ATTEMPTS
      ensures d.GaveUp? ==> st.sessions[i].event in st.dlt && st.now >= old(st).now + 3 * SECOND
      // What is answered, whatever happens around the worker.
      ensures d.Skipped? <==> ToldTo(i, w, false)
      ensures d.Delivered? <==> ToldTo(i, w, true) && Taken(w) && Reported(i, w, Sent)
      ensures d.GaveUp? <==> ToldTo(i, w, true) && RefusedAll(w) && Reported(i, w, Failed) && w.written
      // What it takes to end with an error.
      ensures d.Broken? ==>
          || w.replyLost || !st.sessions[i].server.Answered? || Cancelled(w)
          || !Reported(i, w, if Taken(w) then Sent else Failed) || !w.written
      // Which tries are made.
      ensures ToldTo(i, w, true) ==>
          forall n | 0 <= n < SEND_ATTEMPTS :: TriedAt(w, n) <==> n < st.sessions[i].tries
      ensures !ToldTo(i, w, true) ==> st.sessions[i].tries == 0
      ensures st.sessions[i].sentOn.Some? <==> ToldTo(i, w, true) && Taken(w)
    {
      Safe();
      assert SessionAt(st, i);
      d := Work(i, w);
      if !Cancelled(w) { TakenOrRefused(w); }
      AtMostOnce(origin, trace, st.sessions[i].pair);
    }

    /** The worker got this answer of the reserve call. */
    predicate ToldTo(i: nat, w: World, ready: bool)
      requires i < |st.sessions|
      reads this
    {
      !w.replyLost && st.sessions[i].server == Answered(ready)
    }

    /** The finalize call of the session was carried out with this outcome, and the worker knows it. */
    predicate Reported(i: nat, w: World, outcome: Status)
      requires i < |st.sessions|
      reads this
    {
      !w.verdictLost && st.sessions[i].finalize == Executed(outcome, true)
    }

    method Work(i: nat, w: World) returns (d: Delivery)
      requires Valid() && i < |st.sessions| && st.sessions[i].worker.Awaiting? && Answers(w)
      requires st.sessions[i].tries == 0 && st.sessions[i].sentOn.None?
      modifies this
      ensures WorkerMoved(i) && st.sessions[i].worker.Stopped?
      ensures d.Delivered? ==> Successes(st.channel, st.sessions[i].pair) == 1
      ensures d.GaveUp? ==>
          Successes(st.channel, st.sessions[i].pair) == 0 && Tries(st.channel, st.sessions[i].pair) == SEND_ATTEMPTS
      ensures d.GaveUp? ==> st.sessions[i].event in st.dlt && st.now >= old(st).now + 3 * SECOND
      ensures d.Skipped? <==> ToldTo(i, w, false)
      ensures d.Delivered? <==> ToldTo(i, w, true) && Taken(w) && Reported(i, w, Sent)
      ensures d.GaveUp? <==> ToldTo(i, w, true) && RefusedAll(w) && Reported(i, w, Failed) && w.written
      ensures ToldTo(i, w, true) ==>
          forall n | 0 <= n < SEND_ATTEMPTS :: TriedAt(w, n) <==> n < st.sessions[i].tries
      ensures !ToldTo(i, w, true) ==> st.sessions[i].tries == 0
      ensures st.sessions[i].sentOn.Some? <==> ToldTo(i, w, true) && Taken(w)
    {
      var ready := CallReserve(i, w.replyLost);
      if !ready.Ok? { return Broken; }
      if !ready.value { return Skipped; }
      d := SendAndReport(i, w);
    }

    /** The loop over the attempts, for a worker that was told to send. */
    method SendAndReport(i: nat, w: World) returns (d: Delivery)
      requires Valid() && i < |st.sessions| && st.sessions[i].worker == Sending(1) && Answers(w)
      requires st.sessions[i].tries == 0 && st.sessions[i].sentOn.None? && ToldTo(i, w, true)
      modifies this
      ensures WorkerMoved(i) && st.sessions[i].worker.Stopped?
      ensures d.Delivered? ==> Successes(st.channel, st.sessions[i].pair) == 1
      ensures d.GaveUp? ==>
          Successes(st.channel, st.sessions[i].pair) == 0 && Tries(st.channel, st.sessions[i].pair) == SEND_ATTEMPTS
      ensures d.GaveUp? ==> st.sessions[i].event in st.dlt && st.now >= old(st).now + 3 * SECOND
      ensures !d.Skipped?
      ensures d.Delivered? <==> Taken(w) && Reported(i, w, Sent)
      ensures d.GaveUp? <==> RefusedAll(w) && Reported(i, w, Failed) && w.written
      ensures forall n | 0 <= n < SEND_ATTEMPTS :: TriedAt(w, n) <==> n < st.sessions[i].tries
      ensures st.sessions[i].sentOn.Some? <==> Taken(w)
    {
      var backoff := SECOND;
      var attempt := 1;
      while attempt <= SEND_ATTEMPTS
        invariant 1 <= attempt <= SEND_ATTEMPTS + 1 && WorkerMoved(i) && ToldTo(i, w, true)
        invariant st.sessions[i].worker == if attempt <= SEND_ATTEMPTS then Sending(attempt) else Finalizing(Failed)
        invariant st.sessions[i].tries == attempt - 1 && st.sessions[i].sentOn.None?
        invariant if attempt <= SEND_ATTEMPTS then TriedAt(w, attempt - 1) else RefusedAll(w)
        invariant attempt <= SEND_ATTEMPTS ==> backoff == [1, 2, 4][attempt - 1] * SECOND
        invariant st.now >= old(st).now + [0, 1, 3, 3][attempt - 1] * SECOND
      {
        OthersRunWorker(i, 0);
        var ok := w.channel[attempt - 1];
        CallChannel(i, ok);
        if ok {
          assert TakenAt(w, attempt - 1);
          d := Report(i, w);
          return;
        }
        if attempt < SEND_ATTEMPTS {
          if w.cancelled[attempt - 1] { StopWorker(i); return Broken; }
          OthersRunWorker(i, backoff);
          backoff := backoff * 2;
        }
        attempt := attempt + 1;
      }

      d := GiveUp(i, w);
    }

    /** After a successful attempt: the time is taken and reported. */
    method Report(i: nat, w: World) returns (d: Delivery)
      requires Valid() && i < |st.sessions| && st.sessions[i].worker.Stamping? && st.sessions[i].sentOn.Some?
      modifies this
      ensures WorkerMoved(i) && st.sessions[i].worker.Stopped?
      ensures st.sessions[i].tries == old(st).sessions[i].tries && st.sessions[i].sentOn == old(st).sessions[i].sentOn
      ensures d == if Reported(i, w, Sent) then Delivered else Broken
      ensures d.Delivered? ==> Successes(st.channel, st.sessions[i].pair) == 1
    {
      OthersRunWorker(i, 0);
      Do(Stamp(i));
      var reported := CallFinalize(i, w.verdictLost);
      Told(i);
      return if reported then Delivered else Broken;
    }

    /** After the last failed attempt: report it, then publish the dead letter. */
    method GiveUp(i: nat, w: World) returns (d: Delivery)
      requires Valid() && i < |st.sessions| && st.sessions[i].worker == Finalizing(Failed)
      modifies this
      ensures WorkerMoved(i) && st.sessions[i].worker.Stopped?
      ensures st.sessions[i].tries == old(st).sessions[i].tries && st.sessions[i].sentOn == old(st).sessions[i].sentOn
      ensures d == if Reported(i, w, Failed) && w.written then GaveUp else Broken
      ensures d.GaveUp? ==> st.sessions[i].event in st.dlt
      ensures d.GaveUp? ==>
          Successes(st.channel, st.sessions[i].pair) == 0 && Tries(st.channel, st.sessions[i].pair) == SEND_ATTEMPTS
    {
      var reported := CallFinalize(i, w.verdictLost);
      if !reported { return Broken; }
      Told(i);
      OthersRunWorker(i, 0);
      Told(i);
      Do(PublishDlt(i, w.written));
      Told(i);
      return if w.written then GaveUp else Broken;
    }

    /** What an acknowledged verdict says about the channel. */
    lemma Told(i: nat)
      requires Valid() && i < |st.sessions|
      ensures st.sessions[i].sentOn.Some? ==> Successes(st.channel, st.sessions[i].pair) == 1
      ensures st.sessions[i].worker.Publishing? ==> st.sessions[i].finalize == Executed(Failed, true)
      ensures st.sessions[i].tries == SEND_ATTEMPTS ==> Tries(st.channel, st.sessions[i].pair) == SEND_ATTEMPTS
      ensures st.sessions[i].worker.Publishing? || Buried(st.sessions[i]) ==>
                st.sessions[i].sentOn.None? && st.sessions[i].tries == SEND_ATTEMPTS &&
                  Successes(st.channel, st.sessions[i].pair) == 0
    {
      Safe();
      assert SessionAt(st, i);
      assert ChannelAt(st, st.sessions[i].pair);
    }
  }
}
