/** How far apart the alerts of one rule are delivered, recorded or not. */
module AlertDeliveries {
  import opened AlertCooldown
  import opened AlertProtocol
  import opened AlertReadings
  import opened AlertRuns
  import opened AlertSafety
  import opened Options

  /** Stored times are whole seconds, so a delivery may follow another one up to a second early. */
  function Gap(floor: nat): int { (floor - 1) * SECOND }

  // ---------- What a run must not do ----------

  /** A handler may still let a worker send: it has read the cooldown, or can. */
  predicate CanStillSend(s: Cluster, r: RuleId) {
    r in s.rules || exists j :: 0 <= j < |s.sessions| && StillReading(s.sessions[j], r)
  }

  predicate StillReading(x: Session, r: RuleId) { x.pair.rule == r && x.server.ReadingLastSent? && x.worker.Awaiting? }

  /** A delivery less than the gap ago that no further reading will take into account. */
  predicate Forgotten(s: Cluster, i: nat, r: RuleId, floor: nat) {
    && i < |s.sessions| && s.sessions[i].pair.rule == r
    && s.sessions[i].sentOn.Some? && s.now <= s.sessions[i].sentOn.value + Gap(floor)
    && !MayRecordSend(s.sessions[i]) && !InTable(s, i) && CanStillSend(s, r)
  }

  predicate NobodyForgotten(s: Cluster, r: RuleId, floor: nat) {
    forall i: nat :: i < |s.sessions| ==> !Forgotten(s, i, r, floor)
  }

  /** The step makes no delivery forgotten: it ends no flight of a fresh delivery without a record, and deletes no
      fresh record. */
  predicate ForgetsNobody(s: Cluster, a: Action, r: RuleId, floor: nat)
    requires Enabled(s, a)
  {
    forall i: nat :: i < |Apply(s, a).sessions| && Forgotten(Apply(s, a), i, r, floor) ==> Forgotten(s, i, r, floor)
  }

  predicate Mindful(s: Cluster, acts: seq<Action>, r: RuleId, floor: nat)
    requires Legal(s, acts)
    decreases |acts|
  {
    acts == [] || (ForgetsNobody(s, acts[0], r, floor) && Mindful(Apply(s, acts[0]), acts[1..], r, floor))
  }

  // ---------- The invariant ----------

  /** The later reading counts the earlier session as a rival, saw its record, or came when its delivery was the gap
      ago. */
  predicate Minds(s: Cluster, i: nat, j: nat, floor: nat)
    requires i < |s.sessions| && j < |s.sessions|
  {
    var x, y := s.sessions[i], s.sessions[j];
    Earlier(x, y) ==>
      && (x.sentOn.Some? && CanYetSend(y) ==>
            i in y.check.value.rivals || Saw(y, x) || y.check.value.at > x.sentOn.value + Gap(floor))
      && (InTable(s, i) ==> i in y.check.value.rivals || Saw(y, x))
  }

  predicate MindsAt(s: Cluster, i: nat, j: nat, r: RuleId, floor: nat)
    requires i < |s.sessions| && j < |s.sessions|
  {
    i != j && s.sessions[i].pair.rule == r && s.sessions[j].pair.rule == r ==> Minds(s, i, j, floor)
  }

  ghost predicate Kept(s: Cluster, r: RuleId, floor: nat, k: nat) {
    && Timed(s, r, floor, k)
    && forall i: nat, j: nat :: i < |s.sessions| && j < |s.sessions| ==> MindsAt(s, i, j, r, floor)
  }

  /** What the table shows afterwards it showed before, or its session was in flight. */
  lemma TableStays(s: Cluster, a: Action, i: nat)
    requires Inv(s) && Enabled(s, a) && !a.ReadLastSent? && i < |s.sessions| <= |Apply(s, a).sessions|
    ensures InTable(Apply(s, a), i) ==> InTable(s, i) || MayRecordSend(s.sessions[i])
  {
    if a.DeleteRule? || a.DeleteNews? {
      DeletionShows(s, a, i);
    } else if a.ExecFinalize? {
      FinalizeShows(s, a.id, a.fault, i);
    } else {
      StepShows(s, a, i);
    }
  }

  lemma MindsStays(s: Cluster, t: Cluster, r: RuleId, floor: nat, k: nat, p: nat, q: nat)
    requires Kept(s, r, floor, k) && p < |t.sessions| && q < |t.sessions| && ReadsNothing(s, t, p)
    requires ReadsNothing(s, t, q)
    requires p < |s.sessions| && InTable(t, p) ==> InTable(s, p) || MayRecordSend(s.sessions[p])
    ensures MindsAt(t, p, q, r, floor)
  {
    if p < |s.sessions| && q < |s.sessions| { assert MindsAt(s, p, q, r, floor) && PlacedAt(s, p, q, r); }
  }

  /** The reading sees what the table shows. */
  lemma CheckSees(s: Cluster, i: nat, last: Option<int>, p: nat)
    requires Enabled(s, ReadLastSent(i, last)) && p < |s.sessions| && p != i
    requires s.sessions[p].pair.rule == s.sessions[i].pair.rule
    ensures InTable(s, p) ==> Saw(ApplyCheck(s, i, last).sessions[i], ApplyCheck(s, i, last).sessions[p])
    ensures InTable(ApplyCheck(s, i, last), p) <==> InTable(s, p)
  {
    CheckReads(s, i, last);
    if InTable(s, p) { assert s.sessions[p].event in s.rows; }
  }

  lemma CheckMinds(s: Cluster, i: nat, last: Option<int>, r: RuleId, floor: nat, k: nat, p: nat, q: nat)
    requires Inv(s) && Kept(s, r, floor, k) && NobodyForgotten(s, r, floor) && Enabled(s, ReadLastSent(i, last))
    requires p < |s.sessions| && q < |s.sessions|
    ensures MindsAt(ApplyCheck(s, i, last), p, q, r, floor)
  {
    var t := ApplyCheck(s, i, last);
    CheckReads(s, i, last);
    assert MindsAt(s, p, q, r, floor) && TimelyAt(s, p, r, floor, k) && TimelyAt(s, q, r, floor, k);
    if p != q && q == i && s.sessions[p].pair.rule == r && s.sessions[q].pair.rule == r {
      CheckSees(s, i, last, p);
      assert SessionAt(s, i);
      assert CanYetSend(t.sessions[i]) ==> StillReading(s.sessions[i], r);
      assert !Forgotten(s, p, r, floor);
    }
  }

  lemma CheckKept(s: Cluster, i: nat, last: Option<int>, r: RuleId, floor: nat, k: nat)
    requires Inv(s) && Kept(s, r, floor, k) && NobodyForgotten(s, r, floor) && Enabled(s, ReadLastSent(i, last))
    requires |InFlight(ApplyCheck(s, i, last).sessions, r)| <= k
    ensures Kept(ApplyCheck(s, i, last), r, floor, k)
  {
    var t := ApplyCheck(s, i, last);
    CheckTimed(s, i, last, r, floor, k);
    CheckReads(s, i, last);
    forall p: nat, q: nat | p < |t.sessions| && q < |t.sessions| ensures MindsAt(t, p, q, r, floor) {
      CheckMinds(s, i, last, r, floor, k, p, q);
    }
  }

  /** Where no delivery is forgotten, every step keeps what later readings take into account. */
  lemma StepKept(s: Cluster, a: Action, r: RuleId, floor: nat, k: nat)
    requires Inv(s) && Kept(s, r, floor, k) && NobodyForgotten(s, r, floor) && Enabled(s, a) && KeepsFloor(a, r, floor)
    requires |InFlight(Apply(s, a).sessions, r)| <= k
    ensures Kept(Apply(s, a), r, floor, k)
  {
    if a.ReadLastSent? {
      CheckKept(s, a.id, a.last, r, floor, k);
    } else {
      var t := Apply(s, a);
      StepTimed(s, a, r, floor, k);
      forall p: nat, q: nat | p < |t.sessions| && q < |t.sessions| ensures MindsAt(t, p, q, r, floor) {
        StepReads(s, a, p);
        StepReads(s, a, q);
        if p < |s.sessions| { TableStays(s, a, p); }
        MindsStays(s, t, r, floor, k, p, q);
      }
    }
  }

  lemma {:induction false} RunKept(s: Cluster, acts: seq<Action>, r: RuleId, floor: nat, k: nat)
    requires Inv(s) && Kept(s, r, floor, k) && NobodyForgotten(s, r, floor)
    requires Legal(s, acts) && Modest(s, acts, r, floor, k) && Mindful(s, acts, r, floor)
    ensures var t := After(s, acts);
            Inv(t) && Kept(t, r, floor, k) && NobodyForgotten(t, r, floor) && |InFlight(t.sessions, r)| <= k
    decreases |acts|
  {
    if acts == [] {
    } else {
      StepKeeps(s, acts[0]);
      StepKept(s, acts[0], r, floor, k);
      RunKept(Apply(s, acts[0]), acts[1..], r, floor, k);
    }
  }

  // ---------- Windows of deliveries ----------

  predicate DeliveredIn(s: Cluster, i: nat, r: RuleId, from: int, to: int) {
    i < |s.sessions| && s.sessions[i].pair.rule == r && s.sessions[i].sentOn.Some? &&
      from <= s.sessions[i].sentOn.value <= to
  }

  /** Of two deliveries no further apart than the gap, the later reading counted the other one as a rival. */
  lemma CloseDeliveriesAreRivals(s: Cluster, i: nat, z: nat, r: RuleId, floor: nat, k: nat, from: int, to: int)
    requires Kept(s, r, floor, k) && DeliveredIn(s, i, r, from, to) && DeliveredIn(s, z, r, from, to)
    requires ReadAt(s, i) <= ReadAt(s, z) && to - from <= Gap(floor)
    ensures s.sessions[z].check.Some? && i in s.sessions[z].check.value.rivals
    ensures |s.sessions[z].check.value.rivals| <= k
  {
    assert TimelyAt(s, i, r, floor, k) && TimelyAt(s, z, r, floor, k);
    assert i != z ==> PlacedAt(s, i, z, r) && MindsAt(s, i, z, r, floor);
    var x, y := s.sessions[i], s.sessions[z];
    if i != z && Saw(y, x) { SawMeansApart(x, i, y, z, s.now, s.checks, floor, k); }
  }

  /** A session whose reading saw the record of another one sends more than the gap after it. */
  lemma SawMeansApart(x: Session, i: nat, y: Session, j: nat, now: nat, checks: nat, floor: nat, k: nat)
    requires Timely(x, i, now, checks, floor, k) && Timely(y, j, now, checks, floor, k) && floor > 0
    requires y.check.Some? && y.sentOn.Some? && Saw(y, x)
    ensures x.sentOn.Some? && y.sentOn.value > x.sentOn.value + Gap(floor)
  {
    var c := y.check.value;
    CooldownCovers(c.cooldown, floor);
  }

  lemma CooldownCovers(cooldown: nat, floor: nat)
    requires cooldown >= floor
    ensures cooldown * SECOND >= floor * SECOND == Gap(floor) + SECOND
  {}

  lemma DeliveryWindowIsSmall(s: Cluster, w: set<nat>, r: RuleId, floor: nat, k: nat, from: int, to: int)
    requires Kept(s, r, floor, k) && (forall i :: i in w ==> DeliveredIn(s, i, r, from, to)) && to - from <= Gap(floor)
    ensures |w| <= k
  {
    if w != {} {
      var z := LatestReader(s, w);
      CloseDeliveriesAreRivals(s, z, z, r, floor, k, from, to);
      var rivals := s.sessions[z].check.value.rivals;
      forall i | i in w ensures i in rivals { CloseDeliveriesAreRivals(s, i, z, r, floor, k, from, to); }
      SubsetSize(w, rivals);
    }
  }

  lemma InitialKept(s: Cluster, r: RuleId, floor: nat, k: nat)
    requires Initial(s) && (r in s.rules ==> s.rules[r] >= floor)
    ensures Inv(s) && Kept(s, r, floor, k) && NobodyForgotten(s, r, floor)
  {
    InitialInv(s);
    InitialTimed(s, r, floor, k);
  }

  /** Recorded or not: a window of a second less than the cooldown holds at most k deliveries of a rule, if at most k
      reservations overlap and no delivery is forgotten while it is fresh. */
  lemma DeliveryWindow(s: Cluster, acts: seq<Action>, r: RuleId, floor: nat, k: nat, w: set<nat>, from: int, to: int)
    requires Initial(s) && Legal(s, acts) && (r in s.rules ==> s.rules[r] >= floor)
    requires Modest(s, acts, r, floor, k) && Mindful(s, acts, r, floor)
    requires (forall i :: i in w ==> DeliveredIn(After(s, acts), i, r, from, to)) && to - from <= Gap(floor)
    ensures |w| <= k
  {
    InitialKept(s, r, floor, k);
    RunKept(s, acts, r, floor, k);
    DeliveryWindowIsSmall(After(s, acts), w, r, floor, k, from, to);
  }

  /** Two deliveries of the rule no further apart than the gap. */
  predicate Crowded(s: Cluster, i: nat, j: nat, r: RuleId, floor: nat) {
    && i < |s.sessions| && j < |s.sessions| && i != j && s.sessions[i].pair.rule == r && s.sessions[j].pair.rule == r
    && s.sessions[i].sentOn.Some? && s.sessions[j].sentOn.Some?
    && -Gap(floor) <= s.sessions[i].sentOn.value - s.sessions[j].sentOn.value <= Gap(floor)
  }

  lemma TwoOf(i: nat, j: nat)
    requires i != j
    ensures |{i, j}| == 2
  {
    assert {i, j} - {i} == {j};
  }

  lemma KeptIsApart(s: Cluster, i: nat, j: nat, r: RuleId, floor: nat)
    requires Kept(s, r, floor, 1)
    ensures !Crowded(s, i, j, r, floor)
  {
    if Crowded(s, i, j, r, floor) {
      var u, v := s.sessions[i].sentOn.value, s.sessions[j].sentOn.value;
      var w, from, to := {i, j}, if u < v then u else v, if u < v then v else u;
      TwoOf(i, j);
      DeliveryWindowIsSmall(s, w, r, floor, 1, from, to);
    }
  }

  /** With one reservation at a time, and no fresh delivery forgotten, any two deliveries are more than the cooldown
      less a second apart. */
  lemma StrictDeliveries(s: Cluster, acts: seq<Action>, r: RuleId, floor: nat, i: nat, j: nat)
    requires Initial(s) && Legal(s, acts) && (r in s.rules ==> s.rules[r] >= floor)
    requires Modest(s, acts, r, floor, 1) && Mindful(s, acts, r, floor)
    ensures !Crowded(After(s, acts), i, j, r, floor)
  {
    InitialKept(s, r, floor, 1);
    RunKept(s, acts, r, floor, 1);
    KeptIsApart(After(s, acts), i, j, r, floor);
  }
}
