/** Runs that are built on purpose: what some schedule of the protocol can do from a given state. */
module AlertReach {
  import opened AlertCooldown
  import opened AlertDeliveries
  import opened AlertProtocol
  import opened AlertReadings
  import opened AlertRuns
  import opened AlertSafety
  import opened Options

  /** What a run may be asked to observe beside the number of flights and the floor. */
  datatype Discipline = Anything | DeletingLate | Careful

  predicate Allows(d: Discipline, s: Cluster, a: Action, r: RuleId, floor: nat)
    requires Enabled(s, a)
  {
    match d
    case Anything => true
    case DeletingLate => DeletesLate(s, a, r, floor)
    case Careful => ForgetsNobody(s, a, r, floor)
  }

  predicate Keeps(d: Discipline, s: Cluster, acts: seq<Action>, r: RuleId, floor: nat)
    requires Legal(s, acts)
  {
    match d
    case Anything => true
    case DeletingLate => LateDeletions(s, acts, r, floor)
    case Careful => Mindful(s, acts, r, floor)
  }

  /** Some run of the discipline leads from s to t, with at most k reservations of the rule in flight and no cooldown
      of it set below the floor. */
  ghost predicate Reaches(s: Cluster, t: Cluster, r: RuleId, floor: nat, k: nat, d: Discipline) {
    exists acts :: LeadsTo(s, acts, t, r, floor, k, d)
  }

  ghost predicate LeadsTo(s: Cluster, acts: seq<Action>, t: Cluster, r: RuleId, floor: nat, k: nat, d: Discipline) {
    Legal(s, acts) && After(s, acts) == t && Modest(s, acts, r, floor, k) && Keeps(d, s, acts, r, floor)
  }

  lemma Here(s: Cluster, r: RuleId, floor: nat, k: nat, d: Discipline)
    requires |InFlight(s.sessions, r)| <= k
    ensures Reaches(s, s, r, floor, k, d)
  {
    assert LeadsTo(s, [], s, r, floor, k, d);
  }

  lemma Next(s: Cluster, t: Cluster, a: Action, r: RuleId, floor: nat, k: nat, d: Discipline)
    requires Reaches(s, t, r, floor, k, d) && Enabled(t, a) && KeepsFloor(a, r, floor)
    requires Allows(d, t, a, r, floor) && |InFlight(Apply(t, a).sessions, r)| <= k
    ensures Reaches(s, Apply(t, a), r, floor, k, d)
  {
    var acts :| LeadsTo(s, acts, t, r, floor, k, d);
    AfterAppend(s, acts, a);
    ModestAppend(s, acts, a, r, floor, k);
    match d {
      case Anything =>
      case DeletingLate => LateAppend(s, acts, a, r, floor);
      case Careful => MindfulAppend(s, acts, a, r, floor);
    }
    assert LeadsTo(s, acts + [a], Apply(t, a), r, floor, k, d);
  }

  lemma {:induction false} ModestAppend(s: Cluster, acts: seq<Action>, a: Action, r: RuleId, floor: nat, k: nat)
    requires Legal(s, acts) && Enabled(After(s, acts), a) && Legal(s, acts + [a]) && Modest(s, acts, r, floor, k)
    requires KeepsFloor(a, r, floor) && |InFlight(Apply(After(s, acts), a).sessions, r)| <= k
    ensures Modest(s, acts + [a], r, floor, k)
    decreases |acts|
  {
    var all := acts + [a];
    if acts == [] {
      assert all[1..] == [];
    } else {
      assert all[0] == acts[0] && all[1..] == acts[1..] + [a];
      ModestAppend(Apply(s, acts[0]), acts[1..], a, r, floor, k);
    }
  }

  lemma {:induction false} LateAppend(s: Cluster, acts: seq<Action>, a: Action, r: RuleId, floor: nat)
    requires Legal(s, acts) && Enabled(After(s, acts), a) && Legal(s, acts + [a]) && LateDeletions(s, acts, r, floor)
    requires DeletesLate(After(s, acts), a, r, floor)
    ensures LateDeletions(s, acts + [a], r, floor)
    decreases |acts|
  {
    var all := acts + [a];
    if acts == [] {
      assert all[1..] == [];
    } else {
      assert all[0] == acts[0] && all[1..] == acts[1..] + [a];
      LateAppend(Apply(s, acts[0]), acts[1..], a, r, floor);
    }
  }

  lemma {:induction false} MindfulAppend(s: Cluster, acts: seq<Action>, a: Action, r: RuleId, floor: nat)
    requires Legal(s, acts) && Enabled(After(s, acts), a) && Legal(s, acts + [a]) && Mindful(s, acts, r, floor)
    requires ForgetsNobody(After(s, acts), a, r, floor)
    ensures Mindful(s, acts + [a], r, floor)
    decreases |acts|
  {
    var all := acts + [a];
    if acts == [] {
      assert all[1..] == [];
    } else {
      assert all[0] == acts[0] && all[1..] == acts[1..] + [a];
      MindfulAppend(Apply(s, acts[0]), acts[1..], a, r, floor);
    }
  }

  lemma Loosened(s: Cluster, t: Cluster, r: RuleId, floor: nat, k: nat, d: Discipline)
    requires Reaches(s, t, r, floor, k, d)
    ensures Reaches(s, t, r, floor, k, Anything)
  {
    var acts :| LeadsTo(s, acts, t, r, floor, k, d);
    assert LeadsTo(s, acts, t, r, floor, k, Anything);
  }

  /** Runs follow one another. */
  lemma Joined(s: Cluster, t: Cluster, u: Cluster, r: RuleId, floor: nat, k: nat, d: Discipline)
    requires Reaches(s, t, r, floor, k, d) && Reaches(t, u, r, floor, k, d)
    ensures Reaches(s, u, r, floor, k, d)
  {
    var acts :| LeadsTo(t, acts, u, r, floor, k, d);
    JoinedAlong(s, t, acts, r, floor, k, d);
  }

  lemma {:induction false} JoinedAlong(s: Cluster, t: Cluster, acts: seq<Action>, r: RuleId, floor: nat, k: nat,
          d: Discipline)
    requires Reaches(s, t, r, floor, k, d) && Legal(t, acts) && LeadsTo(t, acts, After(t, acts), r, floor, k, d)
    ensures Reaches(s, After(t, acts), r, floor, k, d)
    decreases |acts|
  {
    if acts == [] {
    } else {
      var t1 := Apply(t, acts[0]);
      assert Modest(t1, acts[1..], r, floor, k);
      Next(s, t, acts[0], r, floor, k, d);
      assert LeadsTo(t1, acts[1..], After(t1, acts[1..]), r, floor, k, d);
      JoinedAlong(s, t1, acts[1..], r, floor, k, d);
    }
  }

  lemma InvAlong(s: Cluster, t: Cluster, r: RuleId, floor: nat, k: nat, d: Discipline)
    requires Inv(s) && Reaches(s, t, r, floor, k, d)
    ensures Inv(t)
  {
    var acts :| LeadsTo(s, acts, t, r, floor, k, d);
    RunKeeps(s, acts);
  }

  lemma {:induction false} Unused(ids: set<nat>) returns (n: nat)
    ensures n !in ids && forall i :: i in ids ==> i < n
    decreases |ids|
  {
    if ids == {} {
      n := 0;
    } else {
      var i :| i in ids;
      var m := Unused(ids - {i});
      n := if m > i then m else i + 1;
      assert forall j :: j in ids ==> j == i || j in ids - {i};
    }
  }

  // ---------- A fresh alert of the rule, delivered at once ----------

  /** From s to t one session has moved, or is new, and stands at y; no time has passed and no rule has changed. */
  ghost predicate Beside(s: Cluster, t: Cluster, i: nat, y: Session) {
    && t.now == s.now && t.rules == s.rules
    && i <= |s.sessions| && |t.sessions| == (if i < |s.sessions| then |s.sessions| else i + 1) && t.sessions[i] == y
    && (forall j: nat :: j < |s.sessions| && j != i ==> t.sessions[j] == s.sessions[j])
  }

  /** One session is at most one more flight. */
  lemma OneMoreFlight(xs: seq<Session>, ys: seq<Session>, i: nat, r: RuleId)
    requires i <= |xs| && |ys| == (if i < |xs| then |xs| else i + 1)
    requires forall j :: 0 <= j < |xs| && j != i ==> ys[j] == xs[j]
    ensures |InFlight(ys, r)| <= |InFlight(xs, r)| + 1
  {
    SubsetSize(InFlight(ys, r), InFlight(xs, r) + {i});
  }

  /** What arrives, and the setting of a cooldown, changes nothing about the deliveries there are. */
  lemma ArrivalForgetsNobody(t: Cluster, a: Action, r: RuleId, floor: nat)
    requires Enabled(t, a) && r in t.rules && (a.AddNews? || a.Emit? || a.Receive? || (a.SetCooldown? && a.rule == r))
    ensures ForgetsNobody(t, a, r, floor)
  {
    OutsideReads(t, a);
    RowsStay(t, a);
    var u := Apply(t, a);
    forall j: nat | j < |t.sessions|
      ensures u.sessions[j] == t.sessions[j]
    {
      assert u.sessions[..|t.sessions|][j] == t.sessions[j];
    }
  }

  /** Session i moves from y to z without being forgotten, and no row changes. */
  predicate Unforgetting(t: Cluster, u: Cluster, y: Session, z: Session, r: RuleId) {
    && (z.sentOn.None? || MayRecordSend(z))
    && (forall e :: e in t.rows ==> e in u.rows && u.rows[e] == t.rows[e])
    && (StillReading(z, r) ==> r in t.rules || StillReading(y, r))
  }

  lemma MoveForgetsNobody(t: Cluster, a: Action, i: nat, z: Session, r: RuleId, floor: nat)
    requires Enabled(t, a) && i < |t.sessions| && Apply(t, a).sessions == t.sessions[i := z]
    requires Apply(t, a).now == t.now && Apply(t, a).rules == t.rules
    requires Unforgetting(t, Apply(t, a), t.sessions[i], z, r)
    ensures ForgetsNobody(t, a, r, floor)
  {
    var u := Apply(t, a);
    forall j: nat | j < |u.sessions| && Forgotten(u, j, r, floor) ensures Forgotten(t, j, r, floor) {
      assert j != i && u.sessions[j] == t.sessions[j];
      StillSending(t, u, i, z, r);
      assert InTable(t, j) ==> InTable(u, j);
    }
  }

  lemma StillSending(t: Cluster, u: Cluster, i: nat, z: Session, r: RuleId)
    requires i < |t.sessions| && u.sessions == t.sessions[i := z] && u.rules == t.rules
    requires StillReading(z, r) ==> r in t.rules || StillReading(t.sessions[i], r)
    ensures CanStillSend(u, r) ==> CanStillSend(t, r)
  {
    if CanStillSend(u, r) && r !in u.rules {
      var j :| 0 <= j < |u.sessions| && StillReading(u.sessions[j], r);
      assert StillReading(t.sessions[j], r);
    }
  }

  /** A news item, an event and a session that are all new. */
  lemma Taken(s: Cluster, r: RuleId, floor: nat, k: nat, d: Discipline) returns (t: Cluster, y: Session)
    requires Inv(s) && r in s.rules && |InFlight(s.sessions, r)| + 1 <= k
    ensures Reaches(s, t, r, floor, k, d) && Beside(s, t, |s.sessions|, y) && t.rows == s.rows
    ensures y.server == Inserting(1) && y.worker.Awaiting? && y.finalize.Unrequested? && y.recorded.None?
    ensures y.sentOn.None?
    ensures y.pair.rule == r && y.pair.news in t.news && y.event !in s.rows && !HasPair(s.rows, y.pair)
  {
    var n := Unused(s.news + s.goneNews);
    var e := Unused(s.topic.Keys);
    NothingAbout(s, r, n, e);
    Here(s, r, floor, k, d);
    ArrivalForgetsNobody(s, AddNews(n), r, floor);
    Next(s, s, AddNews(n), r, floor, k, d);
    t := Apply(s, AddNews(n));
    ArrivalForgetsNobody(t, Emit(e, Pair(r, n)), r, floor);
    Next(s, t, Emit(e, Pair(r, n)), r, floor, k, d);
    t := Apply(t, Emit(e, Pair(r, n)));
    OneMoreFlight(s.sessions, Apply(t, Receive(e)).sessions, |s.sessions|, r);
    ArrivalForgetsNobody(t, Receive(e), r, floor);
    Next(s, t, Receive(e), r, floor, k, d);
    t := Apply(t, Receive(e));
    y := t.sessions[|s.sessions|];
  }

  lemma NothingAbout(s: Cluster, r: RuleId, n: NewsId, e: EventId)
    requires Inv(s) && n !in s.news && e !in s.topic
    ensures e !in s.rows && !HasPair(s.rows, Pair(r, n))
  {
    forall d | d in s.rows ensures d != e && s.rows[d].pair.news != n {
      assert RowAt(s, d) && SessionAt(s, s.owners[s.rows[d].pair]);
    }
  }

  /** One step of the session. */
  lemma Onward(s: Cluster, t: Cluster, i: nat, y: Session, a: Action, z: Session, r: RuleId, floor: nat, k: nat,
          d: Discipline) returns (u: Cluster)
    requires Reaches(s, t, r, floor, k, d) && Beside(s, t, i, y) && |InFlight(s.sessions, r)| + 1 <= k
    requires Enabled(t, a) && !Outside(a) && a.id == i && Apply(t, a).sessions == t.sessions[i := z]
    requires Apply(t, a).now == t.now && Apply(t, a).rules == t.rules
    requires d.Careful? ==> Unforgetting(t, Apply(t, a), y, z, r)
    ensures u == Apply(t, a) && Reaches(s, u, r, floor, k, d) && Beside(s, u, i, z)
  {
    u := Apply(t, a);
    OneMoreFlight(s.sessions, u.sessions, i, r);
    if d.Careful? { MoveForgetsNobody(t, a, i, z, r, floor); }
    Next(s, t, a, r, floor, k, d);
  }

  /** It is inserted, and the handler goes on to read, unless the reply is lost. */
  lemma Created(s: Cluster, t: Cluster, i: nat, y: Session, r: RuleId, floor: nat, k: nat, lost: bool, d: Discipline)
    returns (u: Cluster, z: Session)
    requires Reaches(s, t, r, floor, k, d) && Beside(s, t, i, y) && |InFlight(s.sessions, r)| + 1 <= k && r in s.rules
    requires y.server == Inserting(1) && y.pair.rule == r && y.pair.news in t.news && y.event !in t.rows
    requires !HasPair(t.rows, y.pair)
    requires y.sentOn.None?
    ensures Reaches(s, u, r, floor, k, d) && Beside(s, u, i, z) && u.rows == t.rows[y.event := NewRow(y.pair)]
    ensures z == y.(server := if lost then Aborted else ReadingCooldown) && u.owners == t.owners[y.pair := i]
  {
    z := y.(server := if lost then Aborted else ReadingCooldown);
    u := Onward(s, t, i, y, Insert(i, if lost then LostReply else NoFault), z, r, floor, k, d);
  }

  /** It reads the cooldown. */
  lemma CooldownRead(s: Cluster, t: Cluster, i: nat, y: Session, r: RuleId, floor: nat, k: nat, d: Discipline)
    returns (u: Cluster, z: Session)
    requires Reaches(s, t, r, floor, k, d) && Beside(s, t, i, y) && |InFlight(s.sessions, r)| + 1 <= k && r in s.rules
    requires y.server == ReadingCooldown && y.pair.rule == r && y.sentOn.None?
    ensures Reaches(s, u, r, floor, k, d) && Beside(s, u, i, z) && u.rows == t.rows
    ensures z == y.(server := ReadingLastSent(s.rules[r]))
  {
    z := y.(server := ReadingLastSent(s.rules[r]));
    u := Onward(s, t, i, y, ReadCooldown(i), z, r, floor, k, d);
  }

  /** The last sent time lets it send. */
  lemma LetThrough(s: Cluster, t: Cluster, i: nat, y: Session, r: RuleId, floor: nat, k: nat, last: Option<int>,
          d: Discipline)
    returns (u: Cluster, z: Session)
    requires Reaches(s, t, r, floor, k, d) && Beside(s, t, i, y) && |InFlight(s.sessions, r)| + 1 <= k
    requires y.server.ReadingLastSent? && y.pair.rule == r && y.sentOn.None?
    requires IsLastSent(t.rows, r, last) && !CooldownBlocks(s.now, y.server.cooldown, last)
    ensures Reaches(s, u, r, floor, k, d) && Beside(s, u, i, z) && u.rows == t.rows
    ensures z == y.(server := Answered(true), check := z.check)
  {
    var a := ApplyCheck(t, i, last).sessions[i];
    u := Onward(s, t, i, y, ReadLastSent(i, last), a, r, floor, k, d);
    z := a.(server := Answered(true));
    u := Onward(s, u, i, a, Decide(i), z, r, floor, k, d);
  }

  /** Its readings let it send. */
  lemma Cleared(s: Cluster, t: Cluster, i: nat, y: Session, r: RuleId, floor: nat, k: nat, last: Option<int>,
          d: Discipline)
    returns (u: Cluster, z: Session)
    requires Reaches(s, t, r, floor, k, d) && Beside(s, t, i, y) && |InFlight(s.sessions, r)| + 1 <= k && r in s.rules
    requires y.server == ReadingCooldown && y.pair.rule == r && y.sentOn.None?
    requires IsLastSent(t.rows, r, last) && !CooldownBlocks(s.now, s.rules[r], last)
    ensures Reaches(s, u, r, floor, k, d) && Beside(s, u, i, z) && u.rows == t.rows
    ensures z == y.(server := Answered(true), check := z.check)
  {
    u, z := CooldownRead(s, t, i, y, r, floor, k, d);
    u, z := LetThrough(s, u, i, z, r, floor, k, last, d);
  }

  lemma StillLast(rows: Rows, r: RuleId, last: Option<int>, e: EventId, row: Row)
    requires IsLastSent(rows, r, last) && e !in rows && row.status == Pending
    ensures IsLastSent(rows[e := row], r, last)
  {
    var more := rows[e := row];
    assert forall d :: SentFor(more, d, r) <==> SentFor(rows, d, r);
    if last.Some? {
      var d :| d in rows && SentFor(rows, d, r) && rows[d].sentAt == last;
      assert d in more && SentFor(more, d, r) && more[d].sentAt == last;
    }
  }

  function StampOf(now: nat): int { Micros(SentAt(now / SECOND, now)) }

  lemma Accepted(s: Cluster, t: Cluster, i: nat, y: Session, r: RuleId, floor: nat, k: nat, d: Discipline)
    returns (u: Cluster, z: Session)
    requires Reaches(s, t, r, floor, k, d) && Beside(s, t, i, y) && |InFlight(s.sessions, r)| + 1 <= k
    requires y.server == Answered(true) && y.worker.Awaiting? && y.sentOn.None?
    ensures Reaches(s, u, r, floor, k, d) && Beside(s, u, i, z) && u.rows == t.rows
    ensures z == y.(worker := Sending(1))
  {
    z := y.(worker := Sending(1));
    u := Onward(s, t, i, y, TakeReply(i), z, r, floor, k, d);
  }

  /** It is delivered at the first attempt. */
  lemma Delivered(s: Cluster, t: Cluster, i: nat, y: Session, r: RuleId, floor: nat, k: nat, d: Discipline)
    returns (u: Cluster, z: Session)
    requires Reaches(s, t, r, floor, k, d) && Beside(s, t, i, y) && |InFlight(s.sessions, r)| + 1 <= k
    requires y.server == Answered(true) && y.worker.Awaiting? && y.sentOn.None?
    ensures Reaches(s, u, r, floor, k, d) && Beside(s, u, i, z) && u.rows == t.rows
    ensures z == y.(worker := Stamping, tries := y.tries + 1, sentOn := Some(s.now))
  {
    var a;
    u, a := Accepted(s, t, i, y, r, floor, k, d);
    z := a.(worker := Stamping, tries := a.tries + 1, sentOn := Some(s.now));
    u := Onward(s, u, i, a, Send(i, true), z, r, floor, k, d);
  }

  /** It is delivered, and the time is taken. */
  lemma SentOnce(s: Cluster, t: Cluster, i: nat, y: Session, r: RuleId, floor: nat, k: nat, d: Discipline)
    returns (u: Cluster, z: Session)
    requires Reaches(s, t, r, floor, k, d) && Beside(s, t, i, y) && |InFlight(s.sessions, r)| + 1 <= k
    requires y.server == Answered(true) && y.worker.Awaiting? && y.sentOn.None?
    ensures Reaches(s, u, r, floor, k, d) && Beside(s, u, i, z) && u.rows == t.rows
    ensures z == y.(worker := Finalizing(Sent), tries := y.tries + 1, sentOn := Some(s.now),
        finalize := Requested(Sent, s.now / SECOND))
  {
    var a;
    u, a := Delivered(s, t, i, y, r, floor, k, d);
    z := a.(worker := Finalizing(Sent), finalize := Requested(Sent, s.now / SECOND));
    u := Onward(s, u, i, a, Stamp(i), z, r, floor, k, d);
  }

  /** Its send is recorded. */
  lemma Recorded(s: Cluster, t: Cluster, i: nat, y: Session, r: RuleId, floor: nat, k: nat, d: Discipline)
    returns (u: Cluster, z: Session)
    requires Reaches(s, t, r, floor, k, d) && Beside(s, t, i, y) && |InFlight(s.sessions, r)| + 1 <= k
    requires !d.Careful? && y.finalize == Requested(Sent, s.now / SECOND) && y.event in t.rows
    requires t.rows[y.event].pair == y.pair
    ensures Reaches(s, u, r, floor, k, d) && Beside(s, u, i, z)
    ensures u.rows == t.rows[y.event := Row(y.pair, Sent, Some(StampOf(s.now)))]
    ensures z == y.(finalize := Executed(Sent, true), recorded := Some(StampOf(s.now)))
  {
    z := y.(finalize := Executed(Sent, true), recorded := Some(StampOf(s.now)));
    u := Onward(s, t, i, y, ExecFinalize(i, NoFault), z, r, floor, k, d);
  }

  lemma FreshGrant(s: Cluster, r: RuleId, floor: nat, k: nat, last: Option<int>, d: Discipline)
    returns (t: Cluster, y: Session)
    requires Inv(s) && r in s.rules && |InFlight(s.sessions, r)| + 1 <= k
    requires IsLastSent(s.rows, r, last) && !CooldownBlocks(s.now, s.rules[r], last)
    ensures Reaches(s, t, r, floor, k, d) && Beside(s, t, |s.sessions|, y)
    ensures y.pair.rule == r && y.server == Answered(true) && y.worker.Awaiting? && y.sentOn.None? && y.event !in s.rows
    ensures t.rows == s.rows[y.event := NewRow(y.pair)]
  {
    var i := |s.sessions|;
    t, y := Taken(s, r, floor, k, d);
    t, y := Created(s, t, i, y, r, floor, k, false, d);
    StillLast(s.rows, r, last, y.event, NewRow(y.pair));
    t, y := Cleared(s, t, i, y, r, floor, k, last, d);
  }

  /** Whenever the cooldown of a rule does not block now, a fresh alert of it can be delivered and recorded now, beside
      whatever else is going on. */
  lemma FreshDelivery(s: Cluster, r: RuleId, floor: nat, k: nat, last: Option<int>, d: Discipline)
    returns (t: Cluster, y: Session)
    requires Inv(s) && r in s.rules && |InFlight(s.sessions, r)| + 1 <= k && !d.Careful?
    requires IsLastSent(s.rows, r, last) && !CooldownBlocks(s.now, s.rules[r], last)
    ensures Reaches(s, t, r, floor, k, d) && Beside(s, t, |s.sessions|, y)
    ensures y.pair.rule == r && y.recorded == Some(StampOf(s.now)) && y.sentOn == Some(s.now) && y.event !in s.rows
    ensures t.rows == s.rows[y.event := Row(y.pair, Sent, Some(StampOf(s.now)))]
  {
    var i := |s.sessions|;
    t, y := FreshGrant(s, r, floor, k, last, d);
    t, y := SentOnce(s, t, i, y, r, floor, k, d);
    t, y := Recorded(s, t, i, y, r, floor, k, d);
  }

  lemma {:induction false} LatestAmong(rows: Rows, keys: set<EventId>, r: RuleId) returns (last: Option<int>)
    requires keys <= rows.Keys
    ensures last.None? ==> forall e :: e in keys ==> !SentFor(rows, e, r)
    ensures last.Some? ==> (exists e :: e in keys && SentFor(rows, e, r) && rows[e].sentAt == last)
                           && (forall e :: e in keys && SentFor(rows, e, r) ==> rows[e].sentAt.value <= last.value)
    decreases |keys|
  {
    last := None;
    if keys == {} {
    } else {
      var e :| e in keys;
      last := LatestAmong(rows, keys - {e}, r);
      assert forall d :: d in keys ==> d == e || d in keys - {e};
      if SentFor(rows, e, r) && (last.None? || rows[e].sentAt.value > last.value) { last := rows[e].sentAt; }
    }
  }

  /** The table always has a last sent time of a rule, or none. */
  lemma LastOf(rows: Rows, r: RuleId) returns (last: Option<int>)
    ensures IsLastSent(rows, r, last)
  {
    last := LatestAmong(rows, rows.Keys, r);
  }
}
