/** The alert delivery protocol as a transition system.

    Any number of alert workers take events from the topic, ask the main service to
    reserve the delivery, try to send, and report the outcome.  Every database command
    is one atomic step; messages may be lost, processes may stop at any point, and the
    topic may hand the same event out again.  Identifiers are opaque numbers. */
module AlertProtocol {
  import opened Options

  type EventId = nat
  type RuleId = nat
  type NewsId = nat

  /** Instants and durations are nanoseconds since the Unix epoch. */
  const SECOND: nat := 1_000_000_000
  const SEND_ATTEMPTS: nat := 3
  const INSERT_ATTEMPTS: nat := 5

  datatype Pair = Pair(rule: RuleId, news: NewsId)

  // ---------- The alert_events table ----------

  datatype Status = Pending | Sent | Failed | Dropped

  datatype Row = Row(pair: Pair, status: Status, sentAt: Option<int>)

  type Rows = map<EventId, Row>

  /** A timestamp column keeps microseconds. */
  function Micros(t: int): int { t - t % 1000 }

  datatype InsertOutcome = Inserted | Duplicate | NewsMissing | Rejected

  predicate HasPair(rows: Rows, p: Pair) {
    exists e :: e in rows && rows[e].pair == p
  }

  /** What INSERT ... ON CONFLICT (rule_id, news_id) DO NOTHING answers. */
  function InsertOutcomeOf(rows: Rows, rules: set<RuleId>, news: set<NewsId>, e: EventId, p: Pair): InsertOutcome {
    if HasPair(rows, p) then Duplicate
    else if e in rows || p.rule !in rules then Rejected
    else if p.news !in news then NewsMissing
    else Inserted
  }

  function NewRow(p: Pair): Row { Row(p, Pending, None) }

  /** UPDATE ... WHERE id = e: no guard on the current status. */
  function Mark(rows: Rows, e: EventId, status: Status, sentAt: int): Rows {
    if e !in rows then rows
    else if status == Sent then rows[e := Row(rows[e].pair, Sent, Some(Micros(sentAt)))]
    else rows[e := rows[e].(status := status)]
  }

  predicate SentFor(rows: Rows, e: EventId, rule: RuleId) {
    e in rows && rows[e].pair.rule == rule && rows[e].status == Sent && rows[e].sentAt.Some?
  }

  /** ORDER BY sent_at DESC LIMIT 1 over the sent rows of a rule. */
  predicate IsLastSent(rows: Rows, rule: RuleId, last: Option<int>) {
    && (last.None? ==> forall e :: e in rows ==> !SentFor(rows, e, rule))
    && (last.Some? ==>
         && (exists e :: e in rows && SentFor(rows, e, rule) && rows[e].sentAt == last)
         && (forall e :: e in rows && SentFor(rows, e, rule) ==> rows[e].sentAt.value <= last.value))
  }

  // ---------- One delivery: a worker and the two server calls it makes ----------

  /** Where the handler of the reserve call stands. */
  datatype Server =
    | Inserting(attempt: nat)
    | ReadingCooldown
    | ReadingLastSent(cooldown: nat)
    | Deciding(wait: nat, last: Option<int>)
    | Dropping
    | Answered(ready: bool)
    | Aborted

  /** Where the worker stands. */
  datatype Worker =
    | Awaiting
    | Sending(attempt: nat)
    | Stamping
    | Finalizing(outcome: Status)
    | Publishing
    | Stopped

  /** Where the finalize call stands. */
  datatype Finalize =
    | Unrequested
    | Requested(status: Status, unix: int)
    | Executed(verdict: Status, acknowledged: bool)

  /** History: the reading of the last sent time, and who could still record a send then. */
  datatype Check = Check(position: nat, at: nat, cooldown: nat, last: Option<int>, rivals: set<nat>)

  datatype Session = Session(
    event: EventId,
    pair: Pair,
    server: Server,
    worker: Worker,
    finalize: Finalize,
    tries: nat,                 // history: calls to the channel so far
    sentOn: Option<nat>,        // history: when one of them succeeded
    check: Option<Check>,       // history
    recorded: Option<int>)      // history: the sent time it has put into the table; no deletion erases it

  /** One call of the channel, in the order the calls return. */
  datatype Attempt = Attempt(pair: Pair, ok: bool)

  datatype Cluster = Cluster(
    now: nat,
    rules: map<RuleId, nat>,    // live rules and their cooldown in seconds
    goneRules: set<RuleId>,
    news: set<NewsId>,
    goneNews: set<NewsId>,
    topic: map<EventId, Pair>,
    rows: Rows,
    sessions: seq<Session>,
    owners: map<Pair, nat>,     // history: the session whose insert created the row of a pair
    channel: seq<Attempt>,
    dlt: set<EventId>,
    checks: nat)                // history: number of last-sent readings

  /** A command may fail before it takes effect, or take effect and lose its reply. */
  datatype Fault = NoFault | NoEffect | LostReply

  datatype Action =
    | Tick(ns: nat)
    | AddRule(rule: RuleId, cooldown: nat)
    | SetCooldown(rule: RuleId, cooldown: nat)
    | DeleteRule(rule: RuleId)
    | AddNews(news: NewsId)
    | DeleteNews(news: NewsId)
    | Emit(event: EventId, pair: Pair)
    | Receive(event: EventId)
    | Insert(id: nat, fault: Fault)
    | AbortServer(id: nat)
    | ReadCooldown(id: nat)
    | ReadLastSent(id: nat, last: Option<int>)
    | Decide(id: nat)
    | MarkDropped(id: nat, fault: Fault)
    | TakeReply(id: nat)
    | Stop(id: nat)
    | Send(id: nat, ok: bool)
    | Stamp(id: nat)
    | ExecFinalize(id: nat, fault: Fault)
    | TakeVerdict(id: nat)
    | PublishDlt(id: nat, written: bool)

  ghost predicate Initial(s: Cluster) {
    && s.now >= SECOND
    && s.goneRules == {} && s.goneNews == {}
    && s.topic == map[] && s.rows == map[] && s.sessions == []
    && s.owners == map[] && s.channel == [] && s.dlt == {} && s.checks == 0
  }

  predicate Busy(server: Server) { !server.Answered? && !server.Aborted? }

  predicate Enabled(s: Cluster, a: Action) {
    match a
    case Tick(_) => true
    case AddRule(r, _) => r !in s.rules && r !in s.goneRules
    case SetCooldown(r, _) => r in s.rules
    case DeleteRule(r) => r in s.rules
    case AddNews(n) => n !in s.news && n !in s.goneNews
    case DeleteNews(n) => n in s.news
    case Emit(e, _) => e !in s.topic
    case Receive(e) => e in s.topic
    case Insert(i, _) => i < |s.sessions| && s.sessions[i].server.Inserting?
    case AbortServer(i) => i < |s.sessions| && Busy(s.sessions[i].server)
    case ReadCooldown(i) => i < |s.sessions| && s.sessions[i].server.ReadingCooldown? &&
        s.sessions[i].pair.rule in s.rules
    case ReadLastSent(i, last) =>
      i < |s.sessions| && s.sessions[i].server.ReadingLastSent? && IsLastSent(s.rows, s.sessions[i].pair.rule, last)
    case Decide(i) => i < |s.sessions| && s.sessions[i].server.Deciding?
    case MarkDropped(i, _) => i < |s.sessions| && s.sessions[i].server.Dropping?
    case TakeReply(i) => i < |s.sessions| && s.sessions[i].worker.Awaiting? && s.sessions[i].server.Answered?
    case Stop(i) => i < |s.sessions|
    case Send(i, _) => i < |s.sessions| && s.sessions[i].worker.Sending?
    case Stamp(i) => i < |s.sessions| && s.sessions[i].worker.Stamping?
    case ExecFinalize(i, _) => i < |s.sessions| && s.sessions[i].finalize.Requested?
    case TakeVerdict(i) => i < |s.sessions| && s.sessions[i].worker.Finalizing? && s.sessions[i].finalize.Executed?
    case PublishDlt(i, _) => i < |s.sessions| && s.sessions[i].worker.Publishing?
  }

  function CooldownBlocks(now: nat, cooldown: nat, last: Option<int>): bool {
    last.Some? && cooldown > 0 && now - last.value < cooldown * SECOND
  }

  /** The handler of the finalize call: the worker's clock in seconds, or its own when that is not positive. */
  function SentAt(unix: int, now: nat): int { if unix > 0 then unix * SECOND else now }

  /** Between its last-sent reading and the recording of its outcome, unless it can no longer record a send. */
  predicate MayRecordSend(x: Session) {
    || x.server.Deciding?
    || (x.server == Answered(true) && (x.worker.Awaiting? || x.worker.Sending? || x.worker.Stamping?))
    || (x.finalize.Requested? && x.finalize.status == Sent)
  }

  function InFlight(xs: seq<Session>, rule: RuleId): set<nat> {
    set i: nat | i < |xs| && xs[i].pair.rule == rule && MayRecordSend(xs[i])
  }

  function With(s: Cluster, i: nat, x: Session): Cluster
    requires i < |s.sessions|
  {
    s.(sessions := s.sessions[i := x])
  }

  function ApplyInsert(s: Cluster, i: nat, fault: Fault): Cluster
    requires i < |s.sessions| && s.sessions[i].server.Inserting?
  {
    var x := s.sessions[i];
    if fault == NoEffect then With(s, i, x.(server := Aborted)) else
    match InsertOutcomeOf(s.rows, s.rules.Keys, s.news, x.event, x.pair)
    case Inserted =>
      With(s, i, x.(server := if fault == NoFault then ReadingCooldown else Aborted))
        .(rows := s.rows[x.event := NewRow(x.pair)], owners := s.owners[x.pair := i])
    case Duplicate => With(s, i, x.(server := if fault == NoFault then Answered(false) else Aborted))
    case NewsMissing =>
      With(s, i, x.(server := if fault == NoFault && x.server.attempt < INSERT_ATTEMPTS
                              then Inserting(x.server.attempt + 1) else Aborted))
    case Rejected => With(s, i, x.(server := Aborted))
  }

  function ApplyCheck(s: Cluster, i: nat, last: Option<int>): Cluster
    requires i < |s.sessions| && s.sessions[i].server.ReadingLastSent?
  {
    var x := s.sessions[i];
    var rivals := InFlight(s.sessions, x.pair.rule) + {i};
    With(s, i, x.(server := Deciding(x.server.cooldown, last),
                  check := Some(Check(s.checks, s.now, x.server.cooldown, last, rivals))))
      .(checks := s.checks + 1)
  }

  function ApplyFinalize(s: Cluster, i: nat, fault: Fault): Cluster
    requires i < |s.sessions| && s.sessions[i].finalize.Requested?
  {
    var x := s.sessions[i];
    var f := x.finalize;
    With(s, i, x.(finalize := Executed(f.status, fault == NoFault),
                  recorded := if fault != NoEffect && f.status == Sent && x.event in s.rows
                              then Some(Micros(SentAt(f.unix, s.now))) else x.recorded))
      .(rows := if fault == NoEffect then s.rows else Mark(s.rows, x.event, f.status, SentAt(f.unix, s.now)))
  }

  function ApplySend(s: Cluster, i: nat, ok: bool): Cluster
    requires i < |s.sessions| && s.sessions[i].worker.Sending?
  {
    var x := s.sessions[i];
    var n := x.worker.attempt;
    var y := x.(tries := x.tries + 1, sentOn := if ok then Some(s.now) else x.sentOn);
    With(s, i,
         if ok then y.(worker := Stamping)
         else if n < SEND_ATTEMPTS then y.(worker := Sending(n + 1))
         else y.(worker := Finalizing(Failed), finalize := Requested(Failed, 0)))
      .(channel := s.channel + [Attempt(x.pair, ok)])
  }

  function Without(rows: Rows, gone: set<EventId>): Rows { map e | e in rows && e !in gone :: rows[e] }

  function Apply(s: Cluster, a: Action): Cluster
    requires Enabled(s, a)
  {
    match a
    case Tick(ns) => s.(now := s.now + ns)
    case AddRule(r, c) => s.(rules := s.rules[r := c])
    case SetCooldown(r, c) => s.(rules := s.rules[r := c])
    case DeleteRule(r) =>
      s.(rules := s.rules - {r}, goneRules := s.goneRules + {r},
         rows := Without(s.rows, set e | e in s.rows && s.rows[e].pair.rule == r))
    case AddNews(n) => s.(news := s.news + {n})
    case DeleteNews(n) =>
      s.(news := s.news - {n}, goneNews := s.goneNews + {n},
         rows := Without(s.rows, set e | e in s.rows && s.rows[e].pair.news == n))
    case Emit(e, p) => s.(topic := s.topic[e := p])
    case Receive(e) =>
      s.(sessions := s.sessions + [Session(e, s.topic[e], Inserting(1), Awaiting, Unrequested, 0, None, None, None)])
    case Insert(i, fault) => ApplyInsert(s, i, fault)
    case AbortServer(i) => With(s, i, s.sessions[i].(server := Aborted))
    case ReadCooldown(i) =>
      With(s, i, s.sessions[i].(server := ReadingLastSent(s.rules[s.sessions[i].pair.rule])))
    case ReadLastSent(i, last) => ApplyCheck(s, i, last)
    case Decide(i) =>
      var x := s.sessions[i];
      With(s, i, x.(server := if CooldownBlocks(s.now, x.server.wait, x.server.last) then Dropping else Answered(true)))
    case MarkDropped(i, fault) =>
      var x := s.sessions[i];
      With(s, i, x.(server := if fault == NoFault then Answered(false) else Aborted))
        .(rows := if fault == NoEffect then s.rows else Mark(s.rows, x.event, Dropped, 0))
    case TakeReply(i) =>
      var x := s.sessions[i];
      With(s, i, x.(worker := if x.server.ready then Sending(1) else Stopped))
    case Stop(i) => With(s, i, s.sessions[i].(worker := Stopped))
    case Send(i, ok) => ApplySend(s, i, ok)
    case Stamp(i) =>
      With(s, i, s.sessions[i].(worker := Finalizing(Sent), finalize := Requested(Sent, s.now / SECOND)))
    case ExecFinalize(i, fault) => ApplyFinalize(s, i, fault)
    case TakeVerdict(i) =>
      var x := s.sessions[i];
      With(s, i, x.(worker := if x.finalize.acknowledged && x.worker.outcome == Failed then Publishing else Stopped))
    case PublishDlt(i, written) =>
      var x := s.sessions[i];
      With(s, i, x.(worker := Stopped)).(dlt := if written then s.dlt + {x.event} else s.dlt)
  }

  // ---------- Runs ----------

  predicate Legal(s: Cluster, acts: seq<Action>)
    decreases |acts|
  {
    acts == [] || (Enabled(s, acts[0]) && Legal(Apply(s, acts[0]), acts[1..]))
  }

  function After(s: Cluster, acts: seq<Action>): Cluster
    requires Legal(s, acts)
    decreases |acts|
  {
    if acts == [] then s else After(Apply(s, acts[0]), acts[1..])
  }

  lemma {:induction false} AfterAppend(s: Cluster, acts: seq<Action>, a: Action)
    requires Legal(s, acts) && Enabled(After(s, acts), a)
    ensures Legal(s, acts + [a]) && After(s, acts + [a]) == Apply(After(s, acts), a)
    decreases |acts|
  {
    var all := acts + [a];
    if acts == [] {
      assert all[1..] == [];
    } else {
      assert all[0] == acts[0] && all[1..] == acts[1..] + [a];
      AfterAppend(Apply(s, acts[0]), acts[1..], a);
    }
  }
}
