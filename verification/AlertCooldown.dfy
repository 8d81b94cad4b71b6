/** How far apart the recorded sends of one rule are when reservations overlap, whatever was deleted since. */
module AlertCooldown {
  import opened AlertProtocol
  import opened AlertReadings
  import opened AlertRuns
  import opened AlertSafety
  import opened Options

  /** The table shows the record of the session. */
  predicate InTable(s: Cluster, i: nat)
    requires i < |s.sessions|
  {
    var x := s.sessions[i];
    x.recorded.Some? && SentFor(s.rows, x.event, x.pair.rule) && s.rows[x.event].sentAt == x.recorded
  }

  /** The reading of y saw the record of x. */
  predicate Saw(y: Session, x: Session)
    requires y.check.Some?
  {
    x.recorded.Some? && y.check.value.last.Some? && y.check.value.last.value >= x.recorded.value
  }

  /** The later reading counts the earlier session as a rival, saw its record, or came when that was the cooldown
      ago. */
  predicate Seen(x: Session, i: nat, y: Session, floor: nat) {
    Earlier(x, y) && x.recorded.Some? ==>
      i in y.check.value.rivals || Saw(y, x) || y.check.value.at >= x.recorded.value + floor * SECOND
  }

  predicate SeenAt(s: Cluster, i: nat, j: nat, r: RuleId, floor: nat)
    requires i < |s.sessions| && j < |s.sessions|
  {
    i != j && s.sessions[i].pair.rule == r && s.sessions[j].pair.rule == r ==>
      Seen(s.sessions[i], i, s.sessions[j], floor)
  }

  /** The record of a send is still in the table, or the send is the cooldown ago. */
  predicate ShownAt(s: Cluster, i: nat, r: RuleId, floor: nat)
    requires i < |s.sessions|
  {
    var x := s.sessions[i];
    x.pair.rule == r && x.recorded.Some? ==> InTable(s, i) || s.now >= x.recorded.value + floor * SECOND
  }

  ghost predicate Spaced(s: Cluster, r: RuleId, floor: nat, k: nat) {
    && Timed(s, r, floor, k)
    && (forall i: nat :: i < |s.sessions| ==> ShownAt(s, i, r, floor))
    && (forall i: nat, j: nat :: i < |s.sessions| && j < |s.sessions| ==> SeenAt(s, i, j, r, floor))
  }

  /** No news item goes while a send of the rule about it is less than the floor ago. */
  predicate DeletesLate(s: Cluster, a: Action, r: RuleId, floor: nat) {
    a.DeleteNews? ==> forall e :: e in s.rows && SentFor(s.rows, e, r) && s.rows[e].pair.news == a.news ==>
      s.now >= s.rows[e].sentAt.value + floor * SECOND
  }

  // ---------- The table ----------

  predicate SameRow(s: Cluster, t: Cluster, e: EventId) {
    (e in t.rows <==> e in s.rows) && (e in s.rows ==> t.rows[e] == s.rows[e])
  }

  /** A row that shows a record is of the session that owns it. */
  lemma ShownIsOwned(s: Cluster, i: nat)
    requires Inv(s) && i < |s.sessions| && InTable(s, i)
    ensures Owns(s, i) && s.rows[s.sessions[i].event].pair == s.sessions[i].pair
  {
    assert SessionAt(s, i);
  }

  lemma RowsStay(s: Cluster, a: Action)
    requires Enabled(s, a) && (Moves(a) || (Outside(a) && !a.DeleteRule? && !a.DeleteNews?))
    ensures Apply(s, a).rows == s.rows
  {}

  lemma InsertAddsPending(s: Cluster, i: nat, fault: Fault, e: EventId)
    requires Enabled(s, Insert(i, fault))
    ensures var t := ApplyInsert(s, i, fault);
        SameRow(s, t, e) || (e !in s.rows && e in t.rows && t.rows[e].status == Pending)
  {}

  /** The row of a session that is marked was pending, so it showed no record. */
  lemma DropMarksPending(s: Cluster, i: nat, fault: Fault, j: nat)
    requires Inv(s) && Enabled(s, MarkDropped(i, fault)) && j < |s.sessions|
    ensures var t := Apply(s, MarkDropped(i, fault));
            |t.sessions| == |s.sessions| && t.sessions[j].recorded == s.sessions[j].recorded &&
              (InTable(t, j) <==> InTable(s, j))
  {
    assert SessionAt(s, i) && SessionAt(s, j);
    Owner(s, i);
  }

  lemma FinalizeShows(s: Cluster, i: nat, fault: Fault, j: nat)
    requires Inv(s) && Enabled(s, ExecFinalize(i, fault)) && j < |s.sessions|
    ensures var t := ApplyFinalize(s, i, fault);
            && |t.sessions| == |s.sessions|
            && (InTable(s, j) ==> InTable(t, j) && t.sessions[j].recorded == s.sessions[j].recorded)
            && (InTable(t, j) && !InTable(s, j) ==> j == i && MayRecordSend(s.sessions[j]))
            && (t.sessions[j].recorded != s.sessions[j].recorded ==> InTable(t, j))
  {
    assert SessionAt(s, i) && SessionAt(s, j);
    Owner(s, i);
    if j == i {
      OwnShows(s, i, fault);
    } else if s.sessions[j].event == s.sessions[i].event {
      RivalShowsNothing(s, i, fault, j);
    } else {
      OthersShow(s, i, fault, j);
    }
  }

  /** A session with the same event does not own the row, so it has no record. */
  lemma RivalShowsNothing(s: Cluster, i: nat, fault: Fault, j: nat)
    requires Enabled(s, ExecFinalize(i, fault)) && j < |s.sessions| && j != i && SessionAt(s, i) && SessionAt(s, j)
    requires Owns(s, i) && s.sessions[j].event == s.sessions[i].event
    ensures var t := ApplyFinalize(s, i, fault);
            |t.sessions| == |s.sessions| && t.sessions[j] == s.sessions[j] && !InTable(s, j) && !InTable(t, j)
  {
    assert !Owns(s, j);
    assert s.sessions[j].recorded.None?;
  }

  lemma OthersShow(s: Cluster, i: nat, fault: Fault, j: nat)
    requires Enabled(s, ExecFinalize(i, fault)) && j < |s.sessions| && s.sessions[j].event != s.sessions[i].event
    ensures var t := ApplyFinalize(s, i, fault);
            |t.sessions| == |s.sessions| && t.sessions[j] == s.sessions[j] && (InTable(t, j) <==> InTable(s, j))
  {}

  lemma OwnShows(s: Cluster, i: nat, fault: Fault)
    requires Enabled(s, ExecFinalize(i, fault)) && SessionAt(s, i) && Owns(s, i)
    ensures var t := ApplyFinalize(s, i, fault);
            && !InTable(s, i) && (InTable(t, i) ==> MayRecordSend(s.sessions[i]))
            && (t.sessions[i].recorded != s.sessions[i].recorded ==> InTable(t, i))
  {}

  /** Between s and t the session keeps its record, and the table shows it as before. */
  predicate SameShown(s: Cluster, t: Cluster, j: nat) {
    j < |s.sessions| <= |t.sessions| && t.sessions[j].recorded == s.sessions[j].recorded
    && t.sessions[j].event == s.sessions[j].event && t.sessions[j].pair == s.sessions[j].pair
    && (InTable(t, j) <==> InTable(s, j))
  }

  lemma InsertShows(s: Cluster, i: nat, fault: Fault, j: nat)
    requires Inv(s) && Enabled(s, Insert(i, fault)) && j < |s.sessions|
    ensures SameShown(s, ApplyInsert(s, i, fault), j)
  {
    assert SessionAt(s, i);
    InsertReads(s, i, fault);
    InsertAddsPending(s, i, fault, s.sessions[j].event);
  }

  /** Deletions may take a record out of the table; nothing else does, and only a finalize call puts one in. */
  lemma StepShows(s: Cluster, a: Action, j: nat)
    requires Inv(s) && Enabled(s, a) && j < |s.sessions| && !a.ExecFinalize? && !a.DeleteRule? && !a.DeleteNews?
    requires !a.ReadLastSent?
    ensures SameShown(s, Apply(s, a), j)
  {
    StepReads(s, a, j);
    assert SessionAt(s, j);
    if a.Insert? {
      InsertShows(s, a.id, a.fault, j);
    } else if a.MarkDropped? {
      DropMarksPending(s, a.id, a.fault, j);
    } else {
      NoNewRecord(s, a, j);
      RowsStay(s, a);
    }
  }

  lemma NoNewRecord(s: Cluster, a: Action, j: nat)
    requires Enabled(s, a) && j < |s.sessions| <= |Apply(s, a).sessions| && !a.ExecFinalize? && !a.Insert?
    requires !a.MarkDropped?
    ensures Apply(s, a).sessions[j].recorded == s.sessions[j].recorded
  {}

  lemma DeletionShows(s: Cluster, a: Action, j: nat)
    requires Enabled(s, a) && (a.DeleteRule? || a.DeleteNews?) && j < |s.sessions|
    ensures var t := Apply(s, a);
            && t.sessions == s.sessions && t.now == s.now && (InTable(t, j) ==> InTable(s, j))
            && (a.DeleteNews? && s.sessions[j].event in s.rows && s.rows[s.sessions[j].event].pair.news != a.news ==>
                 (InTable(t, j) <==> InTable(s, j)))
            && (a.DeleteRule? && s.sessions[j].event in s.rows && s.rows[s.sessions[j].event].pair.rule != a.rule ==>
                 (InTable(t, j) <==> InTable(s, j)))
  {}

  // ---------- Preservation ----------

  lemma DeletionKeepsShown(s: Cluster, a: Action, j: nat, r: RuleId, floor: nat)
    requires Inv(s) && Enabled(s, a) && (a.DeleteRule? || a.DeleteNews?) && a != DeleteRule(r)
    requires DeletesLate(s, a, r, floor)
    requires j < |s.sessions| && ShownAt(s, j, r, floor)
    ensures j < |Apply(s, a).sessions| && ShownAt(Apply(s, a), j, r, floor)
  {
    DeletionShows(s, a, j);
    if InTable(s, j) { ShownIsOwned(s, j); }
  }

  lemma StepShown(s: Cluster, a: Action, j: nat, r: RuleId, floor: nat)
    requires Inv(s) && Enabled(s, a) && a != DeleteRule(r) && DeletesLate(s, a, r, floor)
    requires j < |s.sessions| && ShownAt(s, j, r, floor)
    ensures j < |Apply(s, a).sessions| && ShownAt(Apply(s, a), j, r, floor)
  {
    if a.DeleteRule? || a.DeleteNews? {
      DeletionKeepsShown(s, a, j, r, floor);
    } else if a.ReadLastSent? {
      CheckReads(s, a.id, a.last);
    } else if a.ExecFinalize? {
      FinalizeShows(s, a.id, a.fault, j);
      InsideReads(s, a);
    } else {
      StepShows(s, a, j);
      ClockRuns(s, a);
    }
  }

  lemma ClockRuns(s: Cluster, a: Action)
    requires Inv(s) && Enabled(s, a) && !a.ReadLastSent?
    ensures Apply(s, a).now >= s.now
  {
    if Outside(a) { OutsideReads(s, a); } else { InsideReads(s, a); }
  }

  lemma SeenStays(s: Cluster, t: Cluster, r: RuleId, floor: nat, k: nat, p: nat, q: nat)
    requires Spaced(s, r, floor, k) && p < |t.sessions| && q < |t.sessions| && ReadsNothing(s, t, p)
    requires ReadsNothing(s, t, q)
    ensures SeenAt(t, p, q, r, floor)
  {
    if p < |s.sessions| && q < |s.sessions| { assert SeenAt(s, p, q, r, floor) && PlacedAt(s, p, q, r); }
  }

  lemma CheckSeen(s: Cluster, i: nat, last: Option<int>, r: RuleId, floor: nat, k: nat, p: nat, q: nat)
    requires Spaced(s, r, floor, k) && Enabled(s, ReadLastSent(i, last)) && p < |s.sessions| && q < |s.sessions|
    ensures SeenAt(ApplyCheck(s, i, last), p, q, r, floor)
  {
    CheckReads(s, i, last);
    assert SeenAt(s, p, q, r, floor) && TimelyAt(s, p, r, floor, k) && TimelyAt(s, q, r, floor, k) &&
        ShownAt(s, p, r, floor);
  }

  /** The reading itself: every earlier record is seen, or the cooldown ago. */
  lemma CheckSpaced(s: Cluster, i: nat, last: Option<int>, r: RuleId, floor: nat, k: nat)
    requires Inv(s) && Spaced(s, r, floor, k) && Enabled(s, ReadLastSent(i, last))
    requires |InFlight(ApplyCheck(s, i, last).sessions, r)| <= k
    ensures Spaced(ApplyCheck(s, i, last), r, floor, k)
  {
    var t := ApplyCheck(s, i, last);
    CheckTimed(s, i, last, r, floor, k);
    CheckReads(s, i, last);
    forall j: nat | j < |t.sessions| ensures ShownAt(t, j, r, floor) { assert ShownAt(s, j, r, floor); }
    forall p: nat, q: nat | p < |t.sessions| && q < |t.sessions| ensures SeenAt(t, p, q, r, floor) {
      CheckSeen(s, i, last, r, floor, k, p, q);
    }
  }

  /** Every step but the deletion of the rule keeps the relation of readings, flights and recorded sends. */
  lemma StepSpaced(s: Cluster, a: Action, r: RuleId, floor: nat, k: nat)
    requires Inv(s) && Spaced(s, r, floor, k) && Enabled(s, a) && a != DeleteRule(r)
    requires KeepsFloor(a, r, floor) && DeletesLate(s, a, r, floor)
    requires |InFlight(Apply(s, a).sessions, r)| <= k
    ensures Spaced(Apply(s, a), r, floor, k)
  {
    if a.ReadLastSent? {
      CheckSpaced(s, a.id, a.last, r, floor, k);
    } else {
      var t := Apply(s, a);
      StepTimed(s, a, r, floor, k);
      forall j: nat | j < |t.sessions| ensures ShownAt(t, j, r, floor) {
        StepReads(s, a, j);
        if j < |s.sessions| { StepShown(s, a, j, r, floor); }
      }
      forall p: nat, q: nat | p < |t.sessions| && q < |t.sessions| ensures SeenAt(t, p, q, r, floor) {
        StepReads(s, a, p);
        StepReads(s, a, q);
        SeenStays(s, t, r, floor, k, p, q);
      }
    }
  }

  // ---------- Records ----------

  lemma FinalizeRecords(s: Cluster, j: nat, fault: Fault, i: nat)
    requires Inv(s) && Enabled(s, ExecFinalize(j, fault)) && i < |s.sessions|
    ensures |ApplyFinalize(s, j, fault).sessions| == |s.sessions|
    ensures s.sessions[i].pair.rule in s.goneRules ==>
        ApplyFinalize(s, j, fault).sessions[i].recorded == s.sessions[i].recorded
  {
    assert SessionAt(s, i) && SessionAt(s, j);
    assert s.sessions[j].event in s.rows ==> RowAt(s, s.sessions[j].event);
  }

  /** A record is never erased or changed, whatever is deleted, and a rule that is gone gets no new one. */
  lemma RecordsStay(s: Cluster, a: Action, i: nat)
    requires Inv(s) && Enabled(s, a) && i < |s.sessions|
    ensures i < |Apply(s, a).sessions| && Apply(s, a).sessions[i].pair == s.sessions[i].pair
    ensures s.sessions[i].recorded.Some? || s.sessions[i].pair.rule in s.goneRules ==>
        Apply(s, a).sessions[i].recorded == s.sessions[i].recorded
  {
    if a.ReadLastSent? {
      CheckReads(s, a.id, a.last);
    } else {
      StepReads(s, a, i);
      if a.ExecFinalize? {
        FinalizeRecords(s, a.id, a.fault, i);
      } else if a.DeleteRule? || a.DeleteNews? {
        DeletionShows(s, a, i);
      } else {
        StepShows(s, a, i);
      }
    }
  }

  lemma NewSessionsAreBlank(s: Cluster, a: Action, i: nat)
    requires Inv(s) && Enabled(s, a) && |s.sessions| <= i < |Apply(s, a).sessions|
    ensures Apply(s, a).sessions[i].recorded.None?
  {
    if a.ReadLastSent? { CheckReads(s, a.id, a.last); } else { StepReads(s, a, i); }
  }

  /** Every sent row of the table is the record of the session that owns it. */
  lemma SentRowsAreRecorded(s: Cluster, acts: seq<Action>, e: EventId)
    requires Initial(s) && Legal(s, acts)
    requires e in After(s, acts).rows && After(s, acts).rows[e].status == Sent
    ensures var t := After(s, acts);
            exists i: nat :: i < |t.sessions| && t.sessions[i].event == e && t.sessions[i].pair == t.rows[e].pair
                             && t.sessions[i].recorded == t.rows[e].sentAt
  {
    InitialInv(s);
    RunKeeps(s, acts);
    var t := After(s, acts);
    assert RowAt(t, e);
    var i := t.owners[t.rows[e].pair];
    assert OwnerAt(t, t.rows[e].pair);
    assert i < |t.sessions| && t.sessions[i].event == e;
  }

  /** The session has recorded a send of the rule in the window. */
  predicate RecordedIn(s: Cluster, i: nat, r: RuleId, from: int, to: int) {
    i < |s.sessions| && s.sessions[i].pair.rule == r && s.sessions[i].recorded.Some? &&
      from <= s.sessions[i].recorded.value <= to
  }

  predicate InWindow(s: Cluster, w: set<nat>, r: RuleId, from: int, to: int) {
    forall i :: i in w ==> RecordedIn(s, i, r, from, to)
  }

  /** Windows shorter than the floor hold at most k records. */
  ghost predicate Apart(s: Cluster, r: RuleId, floor: nat, k: nat) {
    forall w, from, to :: InWindow(s, w, r, from, to) && to - from < floor * SECOND ==> |w| <= k
  }

  function ReadAt(s: Cluster, i: nat): nat {
    if i < |s.sessions| && s.sessions[i].check.Some? then s.sessions[i].check.value.position else 0
  }

  lemma {:induction false} LatestReader(s: Cluster, w: set<nat>) returns (z: nat)
    requires w != {}
    ensures z in w && forall d :: d in w ==> ReadAt(s, d) <= ReadAt(s, z)
    decreases |w|
  {
    var d :| d in w;
    var rest := w - {d};
    z := d;
    if rest == {} {
    } else {
      z := LatestReader(s, rest);
      if ReadAt(s, z) < ReadAt(s, d) { z := d; }
    }
    assert forall x :: x in w ==> x == d || x in rest;
  }

  lemma SubsetSize(a: set<nat>, b: set<nat>)
    requires a <= b
    ensures |a| <= |b|
  {
    assert b == a + (b - a);
  }

  /** Of two sends closer than the floor, the later reading counted the other one as a rival. */
  lemma CloseSendsAreRivals(s: Cluster, i: nat, z: nat, r: RuleId, floor: nat, k: nat, from: int, to: int)
    requires Spaced(s, r, floor, k) && RecordedIn(s, i, r, from, to) && RecordedIn(s, z, r, from, to)
    requires ReadAt(s, i) <= ReadAt(s, z) && to - from < floor * SECOND && floor > 0
    ensures s.sessions[z].check.Some? && i in s.sessions[z].check.value.rivals
    ensures |s.sessions[z].check.value.rivals| <= k
  {
    assert TimelyAt(s, i, r, floor, k) && TimelyAt(s, z, r, floor, k);
    assert i != z ==> PlacedAt(s, i, z, r) && SeenAt(s, i, z, r, floor);
    var c := s.sessions[z].check.value;
    var u := s.sessions[i].recorded.value;
    if c.at >= u + floor * SECOND { WholeSeconds(c.at, u + floor * SECOND); }
  }

  lemma WindowIsSmall(s: Cluster, w: set<nat>, r: RuleId, floor: nat, k: nat, from: int, to: int)
    requires Spaced(s, r, floor, k) && w != {} && InWindow(s, w, r, from, to) && to - from < floor * SECOND
    ensures |w| <= k
  {
    var z := LatestReader(s, w);
    assert RecordedIn(s, z, r, from, to);
    CloseSendsAreRivals(s, z, z, r, floor, k, from, to);
    var rivals := s.sessions[z].check.value.rivals;
    forall i | i in w ensures i in rivals {
      assert RecordedIn(s, i, r, from, to);
      CloseSendsAreRivals(s, i, z, r, floor, k, from, to);
    }
    SubsetSize(w, rivals);
  }

  lemma SpacedIsApart(s: Cluster, r: RuleId, floor: nat, k: nat)
    requires Spaced(s, r, floor, k)
    ensures Apart(s, r, floor, k)
  {
    forall w, from, to | InWindow(s, w, r, from, to) && to - from < floor * SECOND ensures |w| <= k {
      if w != {} { WindowIsSmall(s, w, r, floor, k, from, to); }
    }
  }

  /** Once a rule is gone, no send of it is recorded any more. */
  lemma GoneRuleRecordsNothing(s: Cluster, a: Action, r: RuleId, floor: nat, k: nat)
    requires Inv(s) && Enabled(s, a) && r in s.goneRules && Apart(s, r, floor, k)
    ensures r in Apply(s, a).goneRules && Apart(Apply(s, a), r, floor, k)
  {
    var t := Apply(s, a);
    forall w, from, to | InWindow(t, w, r, from, to) && to - from < floor * SECOND ensures |w| <= k {
      forall i | i in w ensures RecordedIn(s, i, r, from, to) {
        assert RecordedIn(t, i, r, from, to);
        if i < |s.sessions| { RecordsStay(s, a, i); } else { NewSessionsAreBlank(s, a, i); }
      }
      assert InWindow(s, w, r, from, to);
    }
  }

  // ---------- The window theorem ----------

  /** Along the run nobody sets the rule's cooldown below the floor, and at most k of its
      reservations are ever between their reading and the recording of their outcome. */
  predicate Modest(s: Cluster, acts: seq<Action>, r: RuleId, floor: nat, k: nat)
    requires Legal(s, acts)
    decreases |acts|
  {
    |InFlight(s.sessions, r)| <= k
    && (acts == [] || (KeepsFloor(acts[0], r, floor) && Modest(Apply(s, acts[0]), acts[1..], r, floor, k)))
  }

  /** Along the run no news item goes while a send of the rule about it is less than the floor ago. */
  predicate LateDeletions(s: Cluster, acts: seq<Action>, r: RuleId, floor: nat)
    requires Legal(s, acts)
    decreases |acts|
  {
    acts == [] || (DeletesLate(s, acts[0], r, floor) && LateDeletions(Apply(s, acts[0]), acts[1..], r, floor))
  }

  /** The relation holds, or the rule is gone and its records are apart for ever. */
  ghost predicate Sound(s: Cluster, r: RuleId, floor: nat, k: nat) {
    Spaced(s, r, floor, k) || (r in s.goneRules && Apart(s, r, floor, k))
  }

  lemma StepSound(s: Cluster, a: Action, r: RuleId, floor: nat, k: nat)
    requires Inv(s) && Sound(s, r, floor, k) && Enabled(s, a)
    requires KeepsFloor(a, r, floor) && DeletesLate(s, a, r, floor) && |InFlight(Apply(s, a).sessions, r)| <= k
    ensures Sound(Apply(s, a), r, floor, k)
  {
    if !Spaced(s, r, floor, k) {
      GoneRuleRecordsNothing(s, a, r, floor, k);
    } else if a == DeleteRule(r) {
      SpacedIsApart(s, r, floor, k);
      RuleGoes(s, r, floor, k);
    } else {
      StepSpaced(s, a, r, floor, k);
    }
  }

  lemma {:induction false} RunSound(s: Cluster, acts: seq<Action>, r: RuleId, floor: nat, k: nat)
    requires Inv(s) && Sound(s, r, floor, k) && Legal(s, acts) && Modest(s, acts, r, floor, k)
    requires LateDeletions(s, acts, r, floor)
    ensures Sound(After(s, acts), r, floor, k) && |InFlight(After(s, acts).sessions, r)| <= k
    decreases |acts|
  {
    if acts == [] {
    } else {
      StepKeeps(s, acts[0]);
      StepSound(s, acts[0], r, floor, k);
      RunSound(Apply(s, acts[0]), acts[1..], r, floor, k);
    }
  }

  lemma RunApart(s: Cluster, acts: seq<Action>, r: RuleId, floor: nat, k: nat)
    requires Inv(s) && Sound(s, r, floor, k) && Legal(s, acts) && Modest(s, acts, r, floor, k)
    requires LateDeletions(s, acts, r, floor)
    ensures Apart(After(s, acts), r, floor, k)
  {
    RunSound(s, acts, r, floor, k);
    if Spaced(After(s, acts), r, floor, k) { SpacedIsApart(After(s, acts), r, floor, k); }
  }

  lemma RuleGoes(s: Cluster, r: RuleId, floor: nat, k: nat)
    requires Enabled(s, DeleteRule(r)) && Apart(s, r, floor, k)
    ensures r in Apply(s, DeleteRule(r)).goneRules && Apart(Apply(s, DeleteRule(r)), r, floor, k)
  {
    var t := Apply(s, DeleteRule(r));
    forall w, from, to | InWindow(t, w, r, from, to) && to - from < floor * SECOND ensures |w| <= k {
      assert forall i :: i in w ==> RecordedIn(t, i, r, from, to) ==> RecordedIn(s, i, r, from, to);
      assert InWindow(s, w, r, from, to);
    }
  }

  /** Despite the truncation to seconds, and whatever was deleted since: a window shorter than the cooldown holds at
      most k recorded sends, if at most k reservations overlap and no news item goes too soon after a send about it. */
  lemma CooldownWindow(s: Cluster, acts: seq<Action>, r: RuleId, floor: nat, k: nat, w: set<nat>, from: int, to: int)
    requires Initial(s) && Legal(s, acts) && (r in s.rules ==> s.rules[r] >= floor)
    requires Modest(s, acts, r, floor, k) && LateDeletions(s, acts, r, floor)
    requires InWindow(After(s, acts), w, r, from, to) && to - from < floor * SECOND
    ensures |w| <= k
  {
    InitialInv(s);
    RunApart(s, acts, r, floor, k);
  }

  predicate FarApart(x: Session, y: Session, floor: nat) {
    x.recorded.Some? && y.recorded.Some? ==>
      x.recorded.value - y.recorded.value >= floor * SECOND || y.recorded.value - x.recorded.value >= floor * SECOND
  }

  /** With one reservation of the rule at a time, any two recorded sends are a cooldown apart. */
  lemma StrictCooldown(s: Cluster, acts: seq<Action>, r: RuleId, floor: nat, i: nat, j: nat)
    requires Initial(s) && Legal(s, acts) && (r in s.rules ==> s.rules[r] >= floor)
    requires Modest(s, acts, r, floor, 1) && LateDeletions(s, acts, r, floor)
    requires i < |After(s, acts).sessions| && j < |After(s, acts).sessions| && i != j
    requires After(s, acts).sessions[i].pair.rule == r && After(s, acts).sessions[j].pair.rule == r
    ensures FarApart(After(s, acts).sessions[i], After(s, acts).sessions[j], floor)
  {
    InitialInv(s);
    RunApart(s, acts, r, floor, 1);
    ApartPair(After(s, acts), r, floor, i, j);
  }

  lemma ApartPair(t: Cluster, r: RuleId, floor: nat, i: nat, j: nat)
    requires Apart(t, r, floor, 1) && i < |t.sessions| && j < |t.sessions| && i != j
    requires t.sessions[i].pair.rule == r && t.sessions[j].pair.rule == r
    ensures FarApart(t.sessions[i], t.sessions[j], floor)
  {
    if t.sessions[i].recorded.Some? && t.sessions[j].recorded.Some? {
      var u, v := t.sessions[i].recorded.value, t.sessions[j].recorded.value;
      var w, from, to := {i, j}, if u < v then u else v, if u < v then v else u;
      assert InWindow(t, w, r, from, to);
      assert w - {i} == {j} && |w| == 2;
    }
  }
}
