/** What every step of the alert protocol keeps, and what it means for whole runs. */
module AlertSafety {
  import opened AlertProtocol
  import opened Options

  // ---------- The inductive invariant ----------

  ghost predicate Owns(s: Cluster, i: nat)
    requires i < |s.sessions|
  {
    s.sessions[i].pair in s.owners && s.owners[s.sessions[i].pair] == i
  }

  function RowOf(rows: Rows, e: EventId): Option<Row> { if e in rows then Some(rows[e]) else None }

  predicate FinalizeOk(x: Session) {
    match x.finalize
    case Unrequested => true
    case Requested(v, unix) => (v == Sent && x.sentOn.Some?) ||
        (v == Failed && x.tries == SEND_ATTEMPTS && x.sentOn.None?)
    case Executed(v, _) => (v == Sent && x.sentOn.Some?) || (v == Failed && x.tries == SEND_ATTEMPTS && x.sentOn.None?)
  }

  /** The worker's counter agrees with what it has sent. */
  predicate WorkerOk(x: Session) {
    && x.tries <= SEND_ATTEMPTS && (x.sentOn.Some? ==> x.tries >= 1) && FinalizeOk(x)
    && match x.worker
       case Awaiting => x.tries == 0 && x.finalize.Unrequested?
       case Sending(n) => 1 <= n <= SEND_ATTEMPTS && x.tries == n - 1 && x.sentOn.None? && x.finalize.Unrequested?
       case Stamping => x.sentOn.Some? && x.finalize.Unrequested?
       case Finalizing(v) => (x.finalize.Requested? && x.finalize.status == v) ||
           (x.finalize.Executed? && x.finalize.verdict == v)
       case Publishing => x.finalize == Executed(Failed, true)
       case Stopped => true
  }

  /** Until the server answers "send", the worker has done nothing. */
  predicate Idle(x: Session) {
    (x.worker.Awaiting? || x.worker.Stopped?) && x.finalize.Unrequested? && x.tries == 0 && x.sentOn.None?
  }

  /** How far the row of an owning session can be. */
  predicate RowFits(x: Session, row: Row) {
    && row.pair == x.pair
    && match x.server
       case Aborted => row.status == Pending || row.status == Dropped
       case Answered(ready) =>
         if !ready then row.status == Dropped
         else if !x.finalize.Executed? then row.status == Pending
         else row.status == x.finalize.verdict || (row.status == Pending && !x.finalize.acknowledged)
       case _ => row.status == Pending
  }

  predicate SessionOk(x: Session, owns: bool, row: Option<Row>) {
    && (x.server.Inserting? ==> !owns && 1 <= x.server.attempt <= INSERT_ATTEMPTS)
    && (!owns ==> x.server.Inserting? || x.server == Answered(false) || x.server == Aborted)
    && (x.server != Answered(true) ==> Idle(x))
    && WorkerOk(x)
    && (x.recorded.Some? ==> x.server == Answered(true) && x.finalize.Executed? && x.finalize.verdict == Sent)
    && (owns && row.Some? ==> RowFits(x, row.value))
  }

  ghost predicate SessionAt(s: Cluster, i: nat)
    requires i < |s.sessions|
  {
    var x := s.sessions[i];
    && x.event in s.topic && s.topic[x.event] == x.pair
    && SessionOk(x, Owns(s, i), RowOf(s.rows, x.event))
  }

  /** A row points to live parents and to the one session that created it. */
  ghost predicate RowAt(s: Cluster, e: EventId)
    requires e in s.rows
  {
    var row := s.rows[e];
    && row.pair in s.owners && row.pair.rule in s.rules && row.pair.news in s.news
    && s.owners[row.pair] < |s.sessions| && s.sessions[s.owners[row.pair]].event == e
    && (row.sentAt.Some? <==> row.status == Sent)
    && (row.status == Sent ==> s.sessions[s.owners[row.pair]].recorded == row.sentAt)
  }

  /** A pair that once had a row has it still, unless a parent is gone for good. */
  ghost predicate OwnerAt(s: Cluster, p: Pair)
    requires p in s.owners
  {
    && s.owners[p] < |s.sessions| && s.sessions[s.owners[p]].pair == p
    && (p.rule in s.rules || p.rule in s.goneRules) && (p.news in s.news || p.news in s.goneNews)
    && (p.rule in s.rules && p.news in s.news ==> s.sessions[s.owners[p]].event in s.rows)
  }

  function Tries(channel: seq<Attempt>, p: Pair): nat {
    if channel == [] then 0
    else Tries(channel[..|channel| - 1], p) + (if channel[|channel| - 1].pair == p then 1 else 0)
  }

  function Successes(channel: seq<Attempt>, p: Pair): nat {
    if channel == [] then 0
    else Successes(channel[..|channel| - 1], p)
         + (if channel[|channel| - 1].pair == p && channel[|channel| - 1].ok then 1 else 0)
  }

  /** The channel has seen exactly what the owning session sent. */
  ghost predicate ChannelAt(s: Cluster, p: Pair) {
    if p in s.owners && s.owners[p] < |s.sessions|
    then Tries(s.channel, p) == s.sessions[s.owners[p]].tries
         && Successes(s.channel, p) == (if s.sessions[s.owners[p]].sentOn.Some? then 1 else 0)
    else Tries(s.channel, p) == 0 && Successes(s.channel, p) == 0
  }

  predicate Buried(x: Session) { x.server == Answered(true) && x.finalize == Executed(Failed, true) }

  /** A dead letter comes from the owner of its pair, after an acknowledged failure. */
  ghost predicate LetterAt(s: Cluster, e: EventId) {
    && e in s.topic && s.topic[e] in s.owners && s.owners[s.topic[e]] < |s.sessions|
    && s.sessions[s.owners[s.topic[e]]].event == e
    && Buried(s.sessions[s.owners[s.topic[e]]])
  }

  ghost predicate SessionsOk(s: Cluster) { forall i: nat :: i < |s.sessions| ==> SessionAt(s, i) }
  ghost predicate RowsOk(s: Cluster) { forall e :: e in s.rows ==> RowAt(s, e) }
  ghost predicate OwnersOk(s: Cluster) { forall p :: p in s.owners ==> OwnerAt(s, p) }
  ghost predicate ChannelOk(s: Cluster) { forall p: Pair :: ChannelAt(s, p) }
  ghost predicate LettersOk(s: Cluster) { forall e :: e in s.dlt ==> LetterAt(s, e) }

  ghost predicate Inv(s: Cluster) {
    && s.rules.Keys !! s.goneRules && s.news !! s.goneNews
    && SessionsOk(s) && RowsOk(s) && OwnersOk(s) && ChannelOk(s) && LettersOk(s)
  }

  // ---------- Preservation ----------

  /** While its parents live, an owned pair has a row. */
  lemma StillThere(s: Cluster, p: Pair)
    requires Inv(s)
    ensures p in s.owners && p.rule in s.rules && p.news in s.news ==> HasPair(s.rows, p)
  {
    if p in s.owners && p.rule in s.rules && p.news in s.news {
      assert OwnerAt(s, p);
      var e := s.sessions[s.owners[p]].event;
      assert RowAt(s, e) && SessionAt(s, s.owners[p]);
      assert SessionAt(s, s.owners[s.rows[e].pair]);
      assert s.rows[e].pair == p;
    }
  }

  /** Between s and t session i has moved along and rows have changed in place. */
  ghost predicate OnlyMoved(s: Cluster, t: Cluster, i: nat) {
    && i < |s.sessions| == |t.sessions| && t.sessions == s.sessions[i := t.sessions[i]] && t.rows.Keys == s.rows.Keys
    && t.sessions[i].event == s.sessions[i].event && t.sessions[i].pair == s.sessions[i].pair
    && t.sessions[i].tries == s.sessions[i].tries && t.sessions[i].sentOn == s.sessions[i].sentOn
    && (Buried(s.sessions[i]) ==> Buried(t.sessions[i]))
    && t == s.(sessions := t.sessions, rows := t.rows)
  }

  lemma SidesKept(s: Cluster, t: Cluster, i: nat)
    requires Inv(s) && OnlyMoved(s, t, i)
    ensures OwnersOk(t) && ChannelOk(t) && LettersOk(t)
  {
    forall p | p in t.owners ensures OwnerAt(t, p) { assert OwnerAt(s, p); }
    forall p: Pair ensures ChannelAt(t, p) { assert ChannelAt(s, p); }
    forall e | e in t.dlt ensures LetterAt(t, e) { assert LetterAt(s, e); }
  }

  /** A step that only moves session i along. */
  lemma MoveKeeps(s: Cluster, i: nat, y: Session)
    requires Inv(s) && i < |s.sessions|
    requires y.event == s.sessions[i].event && y.pair == s.sessions[i].pair
    requires y.tries == s.sessions[i].tries && y.sentOn == s.sessions[i].sentOn && y.recorded == s.sessions[i].recorded
    requires Buried(s.sessions[i]) ==> Buried(y)
    requires SessionOk(y, Owns(s, i), RowOf(s.rows, y.event))
    ensures Inv(With(s, i, y))
  {
    var s' := With(s, i, y);
    forall j: nat | j < |s'.sessions| ensures SessionAt(s', j) { assert SessionAt(s, j); }
    forall e | e in s'.rows ensures RowAt(s', e) { assert RowAt(s, e); }
    SidesKept(s, s', i);
  }

  lemma MarkSession(s: Cluster, i: nat, y: Session, status: Status, at: int, j: nat)
    requires i < |s.sessions| && Owns(s, i) && SessionAt(s, i)
    requires y.event == s.sessions[i].event && y.pair == s.sessions[i].pair
    requires SessionOk(y, true, RowOf(Mark(s.rows, y.event, status, at), y.event))
    requires j < |s.sessions| && SessionAt(s, j)
    ensures SessionAt(With(s, i, y).(rows := Mark(s.rows, y.event, status, at)), j)
  {
    assert j != i && Owns(s, j) ==> s.sessions[j].event != y.event || y.event !in s.rows;
  }

  lemma MarkRow(s: Cluster, i: nat, y: Session, status: Status, at: int, e: EventId)
    requires i < |s.sessions| && Owns(s, i) && SessionAt(s, i) && e in s.rows && RowAt(s, e)
    requires y.event == s.sessions[i].event && y.pair == s.sessions[i].pair
    requires y.event in s.rows ==>
        s.rows[y.event].status == Pending && (status == Sent ==> y.recorded == Some(Micros(at)))
    ensures RowAt(With(s, i, y).(rows := Mark(s.rows, y.event, status, at)), e)
  {}

  /** A step that moves the owner of a row along and marks the row. */
  lemma MarkKeeps(s: Cluster, i: nat, y: Session, status: Status, at: int)
    requires Inv(s) && i < |s.sessions| && Owns(s, i)
    requires y.event == s.sessions[i].event && y.pair == s.sessions[i].pair
    requires y.tries == s.sessions[i].tries && y.sentOn == s.sessions[i].sentOn
    requires Buried(s.sessions[i]) ==> Buried(y)
    requires y.event in s.rows ==>
        s.rows[y.event].status == Pending && (status == Sent ==> y.recorded == Some(Micros(at)))
    requires SessionOk(y, true, RowOf(Mark(s.rows, y.event, status, at), y.event))
    ensures Inv(With(s, i, y).(rows := Mark(s.rows, y.event, status, at)))
  {
    var s' := With(s, i, y).(rows := Mark(s.rows, y.event, status, at));
    forall j: nat | j < |s'.sessions| ensures SessionAt(s', j) {
      assert SessionAt(s, j) && SessionAt(s, i);
      MarkSession(s, i, y, status, at, j);
    }
    forall e | e in s'.rows ensures RowAt(s', e) { MarkRow(s, i, y, status, at, e); }
    SidesKept(s, s', i);
  }

  /** The insert that creates the row of a pair: no session owned it before. */
  lemma CreateKeeps(s: Cluster, i: nat, y: Session)
    requires Inv(s) && i < |s.sessions| && s.sessions[i].server.Inserting?
    requires y.event == s.sessions[i].event && y.pair == s.sessions[i].pair && Idle(y)
    requires (y.server.ReadingCooldown? || y.server.Aborted?) && y.recorded.None?
    requires y.worker == s.sessions[i].worker
    requires InsertOutcomeOf(s.rows, s.rules.Keys, s.news, y.event, y.pair) == Inserted
    ensures Inv(With(s, i, y).(rows := s.rows[y.event := NewRow(y.pair)], owners := s.owners[y.pair := i]))
  {
    var s' := With(s, i, y).(rows := s.rows[y.event := NewRow(y.pair)], owners := s.owners[y.pair := i]);
    assert SessionAt(s, i);
    StillThere(s, y.pair);
    forall j: nat | j < |s'.sessions| ensures SessionAt(s', j) {
      assert SessionAt(s, j);
      assert j != i ==> (Owns(s', j) <==> Owns(s, j));
    }
    forall e | e in s'.rows ensures RowAt(s', e) { assert e != y.event ==> RowAt(s, e); }
    forall p | p in s'.owners ensures OwnerAt(s', p) { assert p != y.pair ==> OwnerAt(s, p); }
    forall p: Pair ensures ChannelAt(s', p) { assert ChannelAt(s, p); }
    forall e | e in s'.dlt ensures LetterAt(s', e) { assert LetterAt(s, e); }
  }

  predicate Creates(s: Cluster, i: nat, fault: Fault)
    requires i < |s.sessions|
  {
    fault != NoEffect && InsertOutcomeOf(s.rows, s.rules.Keys, s.news, s.sessions[i].event,
      s.sessions[i].pair) == Inserted
  }

  lemma RefusedMoves(s: Cluster, i: nat, fault: Fault)
    requires Enabled(s, Insert(i, fault)) && !Creates(s, i, fault) && s.sessions[i].server.attempt >= 1
    ensures var x, y := s.sessions[i], ApplyInsert(s, i, fault).sessions[i];
            && ApplyInsert(s, i, fault) == With(s, i, y) && y == x.(server := y.server)
            && (y.server == Aborted || y.server == Answered(false) ||
                 (y.server.Inserting? && 1 <= y.server.attempt <= INSERT_ATTEMPTS))
  {}

  lemma RefusalKeeps(s: Cluster, i: nat, fault: Fault)
    requires Inv(s) && Enabled(s, Insert(i, fault)) && !Creates(s, i, fault)
    ensures Inv(ApplyInsert(s, i, fault))
  {
    assert SessionAt(s, i);
    var x, y := s.sessions[i], ApplyInsert(s, i, fault).sessions[i];
    RefusedMoves(s, i, fault);
    assert SessionOk(y, Owns(s, i), RowOf(s.rows, y.event));
    MoveKeeps(s, i, y);
  }

  lemma InsertKeeps(s: Cluster, i: nat, fault: Fault)
    requires Inv(s) && Enabled(s, Insert(i, fault))
    ensures Inv(ApplyInsert(s, i, fault))
  {
    assert SessionAt(s, i);
    if Creates(s, i, fault) {
      CreateKeeps(s, i, ApplyInsert(s, i, fault).sessions[i]);
    } else {
      RefusalKeeps(s, i, fault);
    }
  }

  /** Counters outside the invariant may change freely. */
  lemma CountersKeep(s: Cluster, now: nat, checks: nat)
    requires Inv(s)
    ensures Inv(s.(now := now, checks := checks))
  {
    var s' := s.(now := now, checks := checks);
    forall j: nat | j < |s'.sessions| ensures SessionAt(s', j) { assert SessionAt(s, j); }
    forall e | e in s'.rows ensures RowAt(s', e) { assert RowAt(s, e); }
    forall p | p in s'.owners ensures OwnerAt(s', p) { assert OwnerAt(s, p); }
    forall p: Pair ensures ChannelAt(s', p) { assert ChannelAt(s, p); }
    forall e | e in s'.dlt ensures LetterAt(s', e) { assert LetterAt(s, e); }
  }

  lemma ServerKeeps(s: Cluster, a: Action)
    requires Inv(s) && Enabled(s, a)
    requires a.AbortServer? || a.ReadCooldown? || a.ReadLastSent? || a.Decide?
    ensures Inv(Apply(s, a))
  {
    assert SessionAt(s, a.id);
    MoveKeeps(s, a.id, Apply(s, a).sessions[a.id]);
    if a.ReadLastSent? {
      CountersKeep(With(s, a.id, Apply(s, a).sessions[a.id]), s.now, s.checks + 1);
    }
  }

  lemma DropKeeps(s: Cluster, i: nat, fault: Fault)
    requires Inv(s) && Enabled(s, MarkDropped(i, fault))
    ensures Inv(Apply(s, MarkDropped(i, fault)))
  {
    var y := Apply(s, MarkDropped(i, fault)).sessions[i];
    assert SessionAt(s, i);
    if fault == NoEffect { MoveKeeps(s, i, y); } else { MarkKeeps(s, i, y, Dropped, 0); }
  }

  lemma FinalizeKeeps(s: Cluster, i: nat, fault: Fault)
    requires Inv(s) && Enabled(s, ExecFinalize(i, fault))
    ensures Inv(Apply(s, ExecFinalize(i, fault)))
  {
    var x := s.sessions[i];
    var y := Apply(s, ExecFinalize(i, fault)).sessions[i];
    assert SessionAt(s, i);
    if fault == NoEffect {
      MoveKeeps(s, i, y);
    } else {
      MarkKeeps(s, i, y, x.finalize.status, SentAt(x.finalize.unix, s.now));
    }
  }

  lemma WorkerKeeps(s: Cluster, a: Action)
    requires Inv(s) && Enabled(s, a)
    requires a.TakeReply? || a.Stop? || a.Stamp?
    ensures Inv(Apply(s, a))
  {
    assert SessionAt(s, a.id);
    MoveKeeps(s, a.id, Apply(s, a).sessions[a.id]);
  }

  lemma VerdictKeeps(s: Cluster, i: nat)
    requires Inv(s) && Enabled(s, TakeVerdict(i))
    ensures Inv(Apply(s, TakeVerdict(i)))
  {
    assert SessionAt(s, i);
    MoveKeeps(s, i, Apply(s, TakeVerdict(i)).sessions[i]);
  }

  lemma PublishKeeps(s: Cluster, i: nat, written: bool)
    requires Inv(s) && Enabled(s, PublishDlt(i, written))
    ensures Inv(Apply(s, PublishDlt(i, written)))
  {
    var s' := Apply(s, PublishDlt(i, written));
    assert SessionAt(s, i);
    var m := With(s, i, s'.sessions[i]);
    MoveKeeps(s, i, s'.sessions[i]);
    forall j: nat | j < |s'.sessions| ensures SessionAt(s', j) { assert SessionAt(m, j); }
    forall e | e in s'.rows ensures RowAt(s', e) { assert RowAt(m, e); }
    forall p | p in s'.owners ensures OwnerAt(s', p) { assert OwnerAt(m, p); }
    forall p: Pair ensures ChannelAt(s', p) { assert ChannelAt(m, p); }
    forall e | e in s'.dlt ensures LetterAt(s', e) { assert e in m.dlt ==> LetterAt(m, e); }
  }

  lemma SendCounted(s: Cluster, i: nat, ok: bool, p: Pair)
    requires Inv(s) && Enabled(s, Send(i, ok))
    ensures ChannelAt(ApplySend(s, i, ok), p)
  {
    var s' := ApplySend(s, i, ok);
    assert s'.channel[..|s'.channel| - 1] == s.channel;
    assert SessionAt(s, i) && ChannelAt(s, p);
    assert p in s.owners ==> OwnerAt(s, p);
  }

  lemma SendSession(s: Cluster, i: nat, ok: bool, j: nat)
    requires Enabled(s, Send(i, ok)) && j < |s.sessions| && SessionAt(s, j)
    ensures SessionAt(ApplySend(s, i, ok), j)
  {}

  lemma SendKeeps(s: Cluster, i: nat, ok: bool)
    requires Inv(s) && Enabled(s, Send(i, ok))
    ensures Inv(ApplySend(s, i, ok))
  {
    var s' := ApplySend(s, i, ok);
    forall j: nat | j < |s'.sessions| ensures SessionAt(s', j) {
      assert SessionAt(s, j);
      SendSession(s, i, ok, j);
    }
    forall e | e in s'.rows ensures RowAt(s', e) { assert RowAt(s, e); }
    forall p | p in s'.owners ensures OwnerAt(s', p) { assert OwnerAt(s, p); }
    forall p: Pair ensures ChannelAt(s', p) { SendCounted(s, i, ok, p); }
    forall e | e in s'.dlt ensures LetterAt(s', e) { assert LetterAt(s, e) && SessionAt(s, i); }
  }

  lemma CascadeKeeps(s: Cluster, a: Action)
    requires Inv(s) && Enabled(s, a)
    requires a.DeleteRule? || a.DeleteNews?
    ensures Inv(Apply(s, a))
  {
    var s' := Apply(s, a);
    forall j: nat | j < |s'.sessions| ensures SessionAt(s', j) { assert SessionAt(s, j); }
    forall e | e in s'.rows ensures RowAt(s', e) { assert RowAt(s, e); }
    forall p | p in s'.owners ensures OwnerAt(s', p) {
      assert OwnerAt(s, p);
      StillThere(s, p);
      assert SessionAt(s, s.owners[p]);
      var e := s.sessions[s.owners[p]].event;
      if e in s.rows {
        assert RowAt(s, e);
        assert SessionAt(s, s.owners[s.rows[e].pair]);
      }
    }
    forall p: Pair ensures ChannelAt(s', p) { assert ChannelAt(s, p); }
    forall e | e in s'.dlt ensures LetterAt(s', e) { assert LetterAt(s, e); }
  }

  lemma OutsideKeeps(s: Cluster, a: Action)
    requires Inv(s) && Enabled(s, a)
    requires a.AddRule? || a.SetCooldown? || a.AddNews? || a.Emit?
    ensures Inv(Apply(s, a))
  {
    var s' := Apply(s, a);
    forall j: nat | j < |s'.sessions| ensures SessionAt(s', j) { assert SessionAt(s, j); }
    forall e | e in s'.rows ensures RowAt(s', e) { assert RowAt(s, e); }
    forall p | p in s'.owners ensures OwnerAt(s', p) { assert OwnerAt(s, p); }
    forall p: Pair ensures ChannelAt(s', p) { assert ChannelAt(s, p); }
    forall e | e in s'.dlt ensures LetterAt(s', e) { assert LetterAt(s, e); }
  }

  lemma ReceiveKeeps(s: Cluster, e: EventId)
    requires Inv(s) && Enabled(s, Receive(e))
    ensures Inv(Apply(s, Receive(e)))
  {
    var s' := Apply(s, Receive(e));
    forall p | p in s'.owners ensures OwnerAt(s', p) { assert OwnerAt(s, p); }
    forall j: nat | j < |s'.sessions| ensures SessionAt(s', j) {
      assert j < |s.sessions| ==> SessionAt(s, j);
      assert j == |s.sessions| && s.topic[e] in s.owners ==> OwnerAt(s, s.topic[e]);
    }
    forall d | d in s'.rows ensures RowAt(s', d) { assert RowAt(s, d); }
    forall p: Pair ensures ChannelAt(s', p) {
      assert ChannelAt(s, p);
      assert p in s.owners ==> OwnerAt(s, p);
    }
    forall d | d in s'.dlt ensures LetterAt(s', d) { assert LetterAt(s, d); }
  }

  lemma StepKeeps(s: Cluster, a: Action)
    requires Inv(s) && Enabled(s, a)
    ensures Inv(Apply(s, a))
  {
    match a
    case Tick(ns) => CountersKeep(s, s.now + ns, s.checks);
    case Receive(e) => ReceiveKeeps(s, e);
    case Insert(i, fault) => InsertKeeps(s, i, fault);
    case DeleteRule(_) => CascadeKeeps(s, a);
    case DeleteNews(_) => CascadeKeeps(s, a);
    case AbortServer(_) => ServerKeeps(s, a);
    case ReadCooldown(_) => ServerKeeps(s, a);
    case ReadLastSent(_, _) => ServerKeeps(s, a);
    case Decide(_) => ServerKeeps(s, a);
    case MarkDropped(i, fault) => DropKeeps(s, i, fault);
    case ExecFinalize(i, fault) => FinalizeKeeps(s, i, fault);
    case TakeReply(_) => WorkerKeeps(s, a);
    case Stop(_) => WorkerKeeps(s, a);
    case Stamp(_) => WorkerKeeps(s, a);
    case TakeVerdict(i) => VerdictKeeps(s, i);
    case PublishDlt(i, written) => PublishKeeps(s, i, written);
    case Send(i, ok) => SendKeeps(s, i, ok);
    case _ => OutsideKeeps(s, a);
  }
}
