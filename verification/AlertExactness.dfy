/** Exactly when a step lets alerts of a rule come too close later on. */
module AlertExactness {
  import opened AlertCooldown
  import opened AlertDeliveries
  import opened AlertProtocol
  import opened AlertReach
  import opened AlertReadings
  import opened AlertRuns
  import opened AlertSafety
  import opened Options

  // ---------- When a deletion is safe ----------

  /** From s, two sends of the rule can come to be recorded less than the floor apart, although from here on everything
      goes by the rules: one reservation at a time, no lower cooldown, late deletions. */
  ghost predicate CanCollide(s: Cluster, r: RuleId, floor: nat) {
    exists t, i: nat, j: nat :: Reaches(s, t, r, floor, 1, DeletingLate) && Collides(t, i, j, r, floor)
  }

  predicate Collides(t: Cluster, i: nat, j: nat, r: RuleId, floor: nat) {
    && i < |t.sessions| && j < |t.sessions| && i != j && t.sessions[i].pair.rule == r && t.sessions[j].pair.rule == r
    && !FarApart(t.sessions[i], t.sessions[j], floor)
  }

  /** The reservation in flight, if there is one, comes to an end without recording anything. */
  lemma Landed(s: Cluster, r: RuleId, floor: nat) returns (t: Cluster)
    requires Inv(s) && |InFlight(s.sessions, r)| <= 1
    ensures Reaches(s, t, r, floor, 1, DeletingLate) && Inv(t) && InFlight(t.sessions, r) == {}
    ensures t.now == s.now && t.rules == s.rules && t.rows == s.rows && |t.sessions| == |s.sessions|
    ensures forall j: nat :: j < |s.sessions| ==>
        t.sessions[j].recorded == s.sessions[j].recorded && t.sessions[j].pair == s.sessions[j].pair
  {
    Here(s, r, floor, 1, DeletingLate);
    t := s;
    if InFlight(s.sessions, r) != {} {
      var i :| i in InFlight(s.sessions, r);
      OnlyOne(InFlight(s.sessions, r), i);
      var a := if s.sessions[i].server.Deciding? then AbortServer(i)
               else if s.sessions[i].finalize.Requested? then ExecFinalize(i, NoEffect)
               else Stop(i);
      LandingStep(s, i, a, r);
      Next(s, s, a, r, floor, 1, DeletingLate);
      t := Apply(s, a);
      StepKeeps(s, a);
    }
  }

  lemma OnlyOne(w: set<nat>, i: nat)
    requires i in w && |w| <= 1
    ensures w == {i}
  {
    forall j | j in w ensures j == i {
      SubsetSize({i, j}, w);
      assert j != i ==> |{i, j}| == 2;
    }
  }

  lemma LandingStep(s: Cluster, i: nat, a: Action, r: RuleId)
    requires Inv(s) && InFlight(s.sessions, r) == {i}
    requires a == if s.sessions[i].server.Deciding? then AbortServer(i)
                  else if s.sessions[i].finalize.Requested? then ExecFinalize(i, NoEffect)
                  else Stop(i)
    ensures Enabled(s, a)
    ensures var t := Apply(s, a);
            && InFlight(t.sessions, r) == {} && t.now == s.now && t.rules == s.rules && t.rows == s.rows
            && |t.sessions| == |s.sessions|
            && t.sessions == s.sessions[i := t.sessions[i]] && t.sessions[i].recorded == s.sessions[i].recorded
            && t.sessions[i].pair == s.sessions[i].pair && t.sessions[i].sentOn == s.sessions[i].sentOn
            && !StillReading(t.sessions[i], r) && !StillReading(s.sessions[i], r)
  {
    assert i in InFlight(s.sessions, r);
    assert SessionAt(s, i);
    var t := Apply(s, a);
    forall j: nat | j < |s.sessions| ensures !(t.sessions[j].pair.rule == r && MayRecordSend(t.sessions[j])) {
      assert j != i ==> j !in InFlight(s.sessions, r);
    }
  }

  /** After a premature deletion no surviving send blocks: all are the floor before the one that was deleted. */
  lemma NothingBlocks(s: Cluster, n: NewsId, d: EventId, r: RuleId, floor: nat, last: Option<int>)
    requires Inv(s) && Spaced(s, r, floor, 1) && Enabled(s, DeleteNews(n))
    requires SentFor(s.rows, d, r) && s.rows[d].pair.news == n && s.now < s.rows[d].sentAt.value + floor * SECOND
    requires IsLastSent(Apply(s, DeleteNews(n)).rows, r, last)
    ensures !CooldownBlocks(s.now, floor, last)
  {
    var rows := Apply(s, DeleteNews(n)).rows;
    if last.Some? {
      var e :| e in rows && SentFor(rows, e, r) && rows[e].sentAt == last;
      assert e in s.rows && s.rows[e] == rows[e] && e != d;
      SentApart(s, d, e, r, floor);
      SentApart(s, e, d, r, floor);
    }
  }

  /** Of two sent rows of the rule, each is a floor away from the other, and none is in the future. */
  lemma SentApart(s: Cluster, d: EventId, e: EventId, r: RuleId, floor: nat)
    requires Inv(s) && Spaced(s, r, floor, 1) && SentFor(s.rows, d, r) && SentFor(s.rows, e, r) && d != e
    ensures s.rows[d].sentAt.value - s.rows[e].sentAt.value >= floor * SECOND ||
        s.rows[e].sentAt.value - s.rows[d].sentAt.value >= floor * SECOND
    ensures s.rows[e].sentAt.value <= s.now && s.rows[e].sentAt.value % SECOND == 0
  {
    OwnRecord(s, d, r);
    OwnRecord(s, e, r);
    SpacedIsApart(s, r, floor, 1);
    ApartPair(s, r, floor, s.owners[s.rows[d].pair], s.owners[s.rows[e].pair]);
    assert TimelyAt(s, s.owners[s.rows[e].pair], r, floor, 1);
  }

  lemma OwnRecord(s: Cluster, e: EventId, r: RuleId)
    requires Inv(s) && SentFor(s.rows, e, r)
    ensures s.rows[e].pair in s.owners
    ensures var i := s.owners[s.rows[e].pair];
            i < |s.sessions| && s.sessions[i].event == e && s.sessions[i].pair.rule == r &&
              s.sessions[i].recorded == s.rows[e].sentAt
  {
    assert RowAt(s, e) && OwnerAt(s, s.rows[e].pair);
  }

  /** The flight lands and the cooldown is set to the floor. */
  lemma Lowered(u: Cluster, r: RuleId, floor: nat) returns (v: Cluster)
    requires Inv(u) && r in u.rules && |InFlight(u.sessions, r)| <= 1
    ensures Reaches(u, v, r, floor, 1, DeletingLate) && Inv(v) && InFlight(v.sessions, r) == {} && r in v.rules
    ensures v.rules[r] == floor
    ensures v.now == u.now && v.rows == u.rows && |v.sessions| == |u.sessions|
    ensures forall j: nat :: j < |u.sessions| ==>
        v.sessions[j].recorded == u.sessions[j].recorded && v.sessions[j].pair == u.sessions[j].pair
  {
    var t := Landed(u, r, floor);
    v := Apply(t, SetCooldown(r, floor));
    Next(u, t, SetCooldown(r, floor), r, floor, 1, DeletingLate);
    StepKeeps(t, SetCooldown(r, floor));
  }

  /** Once the flight is over and the cooldown is the floor, a fresh alert goes out in the same second. */
  lemma CollidesNow(u: Cluster, i: nat, r: RuleId, floor: nat, last: Option<int>)
    requires Inv(u) && r in u.rules && u.now >= SECOND && |InFlight(u.sessions, r)| <= 1
    requires i < |u.sessions| && u.sessions[i].pair.rule == r && u.sessions[i].recorded.Some?
    requires u.sessions[i].recorded.value % SECOND == 0
    requires u.sessions[i].recorded.value <= u.now < u.sessions[i].recorded.value + floor * SECOND
    requires IsLastSent(u.rows, r, last) && !CooldownBlocks(u.now, floor, last)
    ensures CanCollide(u, r, floor)
  {
    var v := Lowered(u, r, floor);
    var w, y := FreshDelivery(v, r, floor, 1, last, DeletingLate);
    Joined(u, v, w, r, floor, 1, DeletingLate);
    NotFar(u.sessions[i].recorded.value, u.now, floor);
    assert w.sessions[i].recorded == u.sessions[i].recorded;
    assert Collides(w, i, |v.sessions|, r, floor);
  }

  lemma PrematureCollides(s: Cluster, n: NewsId, d: EventId, r: RuleId, floor: nat)
    requires Inv(s) && Spaced(s, r, floor, 1) && Enabled(s, DeleteNews(n)) && |InFlight(s.sessions, r)| <= 1
    requires SentFor(s.rows, d, r) && s.rows[d].pair.news == n && s.now < s.rows[d].sentAt.value + floor * SECOND
    ensures CanCollide(Apply(s, DeleteNews(n)), r, floor)
  {
    var u := Apply(s, DeleteNews(n));
    StepKeeps(s, DeleteNews(n));
    assert RowAt(s, d);
    OwnRecord(s, d, r);
    var i := s.owners[s.rows[d].pair];
    assert TimelyAt(s, i, r, floor, 1);
    var last := LastOf(u.rows, r);
    NothingBlocks(s, n, d, r, floor, last);
    CollidesNow(u, i, r, floor, last);
  }

  lemma StampIsWhole(now: nat)
    requires now >= SECOND
    ensures StampOf(now) == now / SECOND * SECOND <= now
  {
    var q := now / SECOND;
    assert q >= 1 && q * SECOND % 1000 == 0;
  }

  lemma NotFar(t: int, now: nat, floor: nat)
    requires now >= SECOND && t % SECOND == 0 && t <= now < t + floor * SECOND
    ensures t <= StampOf(now) < t + floor * SECOND
  {
    WholeSeconds(now, t);
    StampIsWhole(now);
  }

  /** With one reservation of a rule at a time, deleting a news item lets two sends of it come too close if and only if
      a send about the item is less than the cooldown ago. */
  lemma DeletionIsSafeIff(s: Cluster, acts: seq<Action>, n: NewsId, r: RuleId, floor: nat)
    requires Initial(s) && Legal(s, acts) && (r in s.rules ==> s.rules[r] >= floor)
    requires Modest(s, acts, r, floor, 1) && LateDeletions(s, acts, r, floor) && n in After(s, acts).news
    ensures var t := After(s, acts); !CanCollide(Apply(t, DeleteNews(n)), r, floor) <==>
        DeletesLate(t, DeleteNews(n), r, floor)
  {
    var t := After(s, acts);
    InitialInv(s);
    RunKeeps(s, acts);
    RunSound(s, acts, r, floor, 1);
    var u := Apply(t, DeleteNews(n));
    if DeletesLate(t, DeleteNews(n), r, floor) {
      assert InFlight(u.sessions, r) == InFlight(t.sessions, r);
      StepKeeps(t, DeleteNews(n));
      StepSound(t, DeleteNews(n), r, floor, 1);
      forall v, i: nat, j: nat | Reaches(u, v, r, floor, 1, DeletingLate) ensures !Collides(v, i, j, r, floor) {
        NeverCollides(u, v, i, j, r, floor);
      }
    } else {
      var d :| d in t.rows && SentFor(t.rows, d, r) && t.rows[d].pair.news == n &&
          !(t.now >= t.rows[d].sentAt.value + floor * SECOND);
      assert RowAt(t, d);
      PrematureCollides(t, n, d, r, floor);
    }
  }

  lemma NeverCollides(s: Cluster, t: Cluster, i: nat, j: nat, r: RuleId, floor: nat)
    requires Inv(s) && Sound(s, r, floor, 1) && Reaches(s, t, r, floor, 1, DeletingLate)
    ensures !Collides(t, i, j, r, floor)
  {
    var acts :| LeadsTo(s, acts, t, r, floor, 1, DeletingLate);
    RunApart(s, acts, r, floor, 1);
    if i < |t.sessions| && j < |t.sessions| && i != j && t.sessions[i].pair.rule == r && t.sessions[j].pair.rule == r {
      ApartPair(t, r, floor, i, j);
    }
  }

  // ---------- When a forgotten delivery does harm ----------

  /** From s, two deliveries of the rule can come to be no further apart than the gap, although from here on everything
      goes by the rules: one reservation at a time, no lower cooldown, and no further delivery forgotten. */
  ghost predicate CanCrowd(s: Cluster, r: RuleId, floor: nat) {
    exists t, i: nat, j: nat :: Reaches(s, t, r, floor, 1, Careful) && Crowded(t, i, j, r, floor)
  }

  lemma OnlyOwnRival(c: Check, i: nat, j: nat)
    requires j in c.rivals && |c.rivals| <= 1 && i != j
    ensures i !in c.rivals
  {
    OnlyOne(c.rivals, j);
  }

  /** Who read after a delivery in sight of it, and was not overlapped by it, sends more than the gap after it. */
  lemma ReadAfterwards(s: Cluster, i: nat, j: nat, r: RuleId, floor: nat)
    requires Kept(s, r, floor, 1) && i < |s.sessions| && j < |s.sessions| && i != j && floor > 0
    requires s.sessions[i].pair.rule == s.sessions[j].pair.rule == r && Earlier(s.sessions[i], s.sessions[j])
    requires s.sessions[i].sentOn.Some?
    ensures s.sessions[j].sentOn.Some? ==> s.sessions[j].sentOn.value > s.sessions[i].sentOn.value + Gap(floor)
  {
    var x, y := s.sessions[i], s.sessions[j];
    assert TimelyAt(s, i, r, floor, 1) && TimelyAt(s, j, r, floor, 1) && MindsAt(s, i, j, r, floor);
    OnlyOwnRival(y.check.value, i, j);
    if y.sentOn.Some? && Saw(y, x) { SawMeansApart(x, i, y, j, s.now, s.checks, floor, 1); }
  }

  /** Whoever is in flight beside a forgotten delivery has not delivered. */
  lemma FlightIsEmpty(s: Cluster, i: nat, j: nat, r: RuleId, floor: nat)
    requires Kept(s, r, floor, 1) && Forgotten(s, i, r, floor) && j in InFlight(s.sessions, r)
    ensures s.sessions[j].sentOn.None?
  {
    assert TimelyAt(s, i, r, floor, 1) && TimelyAt(s, j, r, floor, 1);
    assert PlacedAt(s, i, j, r) && PlacedAt(s, j, i, r);
    if s.sessions[j].sentOn.Some? {
      OnlyOwnRival(s.sessions[i].check.value, j, i);
      ReadAfterwards(s, i, j, r, floor);
    }
  }

  /** Whatever record the table shows beside a forgotten delivery is the cooldown ago. */
  lemma ShownIsOld(s: Cluster, i: nat, d: nat, r: RuleId, floor: nat)
    requires Kept(s, r, floor, 1) && Forgotten(s, i, r, floor) && d < |s.sessions| && s.sessions[d].pair.rule == r
    requires InTable(s, d)
    ensures s.now >= s.sessions[d].recorded.value + floor * SECOND
  {
    assert TimelyAt(s, i, r, floor, 1) && TimelyAt(s, d, r, floor, 1);
    assert PlacedAt(s, i, d, r) && MindsAt(s, d, i, r, floor);
    OnlyOwnRival(s.sessions[i].check.value, d, i);
    if Earlier(s.sessions[d], s.sessions[i]) {
      CooldownCovers(s.sessions[i].check.value.cooldown, floor);
    } else {
      ReadAfterwards(s, i, d, r, floor);
    }
  }

  lemma NoRecordBlocks(s: Cluster, i: nat, r: RuleId, floor: nat, last: Option<int>)
    requires Inv(s) && Kept(s, r, floor, 1) && Forgotten(s, i, r, floor) && IsLastSent(s.rows, r, last)
    ensures !CooldownBlocks(s.now, floor, last)
  {
    if last.Some? {
      var e :| e in s.rows && SentFor(s.rows, e, r) && s.rows[e].sentAt == last;
      OwnRecord(s, e, r);
      ShownIsOld(s, i, s.owners[s.rows[e].pair], r, floor);
    }
  }

  /** The flight, if there is one, ends, and nothing else changes. */
  lemma LandedCarefully(s: Cluster, i: nat, r: RuleId, floor: nat) returns (t: Cluster)
    requires Inv(s) && Kept(s, r, floor, 1) && Forgotten(s, i, r, floor) && |InFlight(s.sessions, r)| <= 1
    ensures Reaches(s, t, r, floor, 1, Careful) && Inv(t) && InFlight(t.sessions, r) == {}
    ensures t.now == s.now && t.rules == s.rules && t.rows == s.rows && |t.sessions| == |s.sessions|
    ensures forall j: nat :: j < |s.sessions| ==>
        t.sessions[j].sentOn == s.sessions[j].sentOn && t.sessions[j].pair == s.sessions[j].pair
    ensures forall j: nat :: j < |s.sessions| && StillReading(s.sessions[j], r) ==> t.sessions[j] == s.sessions[j]
  {
    Here(s, r, floor, 1, Careful);
    t := s;
    if InFlight(s.sessions, r) != {} {
      var j :| j in InFlight(s.sessions, r);
      OnlyOne(InFlight(s.sessions, r), j);
      FlightIsEmpty(s, i, j, r, floor);
      t := LandedOne(s, j, r, floor);
    }
  }

  lemma LandedOne(s: Cluster, j: nat, r: RuleId, floor: nat) returns (t: Cluster)
    requires Inv(s) && InFlight(s.sessions, r) == {j} && s.sessions[j].sentOn.None?
    ensures Reaches(s, t, r, floor, 1, Careful) && Inv(t) && InFlight(t.sessions, r) == {}
    ensures t.now == s.now && t.rules == s.rules && t.rows == s.rows && |t.sessions| == |s.sessions|
    ensures forall i: nat :: i < |s.sessions| ==>
        t.sessions[i].sentOn == s.sessions[i].sentOn && t.sessions[i].pair == s.sessions[i].pair
    ensures forall i: nat :: i < |s.sessions| && StillReading(s.sessions[i], r) ==> t.sessions[i] == s.sessions[i]
  {
    assert j in InFlight(s.sessions, r) && SessionAt(s, j);
    var a := if s.sessions[j].server.Deciding? then AbortServer(j) else Stop(j);
    LandingStep(s, j, a, r);
    t := Apply(s, a);
    MoveForgetsNobody(s, a, j, t.sessions[j], r, floor);
    Here(s, r, floor, 1, Careful);
    Next(s, s, a, r, floor, 1, Careful);
    StepKeeps(s, a);
  }

  /** With nobody in flight and the cooldown at the floor, the next alert is delivered now. */
  lemma NextDelivery(s: Cluster, i: nat, r: RuleId, floor: nat, last: Option<int>)
    requires Inv(s) && r in s.rules && s.rules[r] == floor && InFlight(s.sessions, r) == {} && i < |s.sessions|
    requires s.sessions[i].pair.rule == r && s.sessions[i].sentOn.Some? && s.sessions[i].sentOn.value <= s.now
    requires s.now <= s.sessions[i].sentOn.value + Gap(floor)
    requires IsLastSent(s.rows, r, last) && !CooldownBlocks(s.now, floor, last)
    ensures CanCrowd(s, r, floor)
  {
    var n := |s.sessions|;
    var t, y := FreshGrant(s, r, floor, 1, last, Careful);
    t, y := Delivered(s, t, n, y, r, floor, 1, Careful);
    assert t.sessions[i] == s.sessions[i];
    assert Crowded(t, n, i, r, floor);
  }

  /** A handler that has read the cooldown of a rule that is gone finds no send, and lets its worker send. */
  lemma LateDelivery(s: Cluster, i: nat, m: nat, r: RuleId, floor: nat)
    requires Inv(s) && r !in s.rules && InFlight(s.sessions, r) == {} && i < |s.sessions| && m < |s.sessions|
    requires s.sessions[i].pair.rule == r && s.sessions[i].sentOn.Some? && s.sessions[i].sentOn.value <= s.now
    requires s.now <= s.sessions[i].sentOn.value + Gap(floor) && StillReading(s.sessions[m], r)
    ensures CanCrowd(s, r, floor)
  {
    assert SessionAt(s, m) && SessionAt(s, i);
    NoRowsLeft(s, r);
    Here(s, r, floor, 1, Careful);
    var t, y := LetThrough(s, s, m, s.sessions[m], r, floor, 1, None, Careful);
    t, y := Delivered(s, t, m, y, r, floor, 1, Careful);
    assert t.sessions[i] == s.sessions[i];
    assert Crowded(t, m, i, r, floor);
  }

  lemma NoRowsLeft(s: Cluster, r: RuleId)
    requires Inv(s) && r !in s.rules
    ensures IsLastSent(s.rows, r, None)
  {
    forall e | e in s.rows ensures !SentFor(s.rows, e, r) { assert RowAt(s, e); }
  }

  /** Runs that go by the rules follow one another. */
  lemma CrowdsLater(s: Cluster, t: Cluster, r: RuleId, floor: nat)
    requires Reaches(s, t, r, floor, 1, Careful) && CanCrowd(t, r, floor)
    ensures CanCrowd(s, r, floor)
  {
    var u, i: nat, j: nat :| Reaches(t, u, r, floor, 1, Careful) && Crowded(u, i, j, r, floor);
    Joined(s, t, u, r, floor, 1, Careful);
  }

  lemma ForgottenCrowds(s: Cluster, i: nat, r: RuleId, floor: nat)
    requires Inv(s) && Kept(s, r, floor, 1) && Forgotten(s, i, r, floor) && |InFlight(s.sessions, r)| <= 1
    ensures CanCrowd(s, r, floor)
  {
    assert TimelyAt(s, i, r, floor, 1);
    var last := LastOf(s.rows, r);
    NoRecordBlocks(s, i, r, floor, last);
    var t := LandedCarefully(s, i, r, floor);
    if r in s.rules {
      var u := Apply(t, SetCooldown(r, floor));
      ArrivalForgetsNobody(t, SetCooldown(r, floor), r, floor);
      Next(s, t, SetCooldown(r, floor), r, floor, 1, Careful);
      StepKeeps(t, SetCooldown(r, floor));
      NextDelivery(u, i, r, floor, last);
      CrowdsLater(s, u, r, floor);
    } else {
      var m :| 0 <= m < |s.sessions| && StillReading(s.sessions[m], r);
      LateDelivery(t, i, m, r, floor);
      CrowdsLater(s, t, r, floor);
    }
  }

  lemma CarefulNeverCrowds(s: Cluster, t: Cluster, i: nat, j: nat, r: RuleId, floor: nat)
    requires Inv(s) && Kept(s, r, floor, 1) && NobodyForgotten(s, r, floor) && Reaches(s, t, r, floor, 1, Careful)
    ensures !Crowded(t, i, j, r, floor)
  {
    var acts :| LeadsTo(s, acts, t, r, floor, 1, Careful);
    RunKept(s, acts, r, floor, 1);
    KeptIsApart(t, i, j, r, floor);
  }

  /** With one reservation of a rule at a time: a step lets two deliveries come too close later, although everything
      goes by the rules from then on, if and only if it makes a fresh delivery forgotten: the flight ends without a
      record, because the finalize call fails, the worker stops or the row is gone, or the record is deleted. */
  lemma DeliveriesCrowdIff(s: Cluster, acts: seq<Action>, a: Action, r: RuleId, floor: nat)
    requires Initial(s) && Legal(s, acts) && (r in s.rules ==> s.rules[r] >= floor)
    requires Modest(s, acts, r, floor, 1) && Mindful(s, acts, r, floor) && Enabled(After(s, acts), a)
    requires KeepsFloor(a, r, floor)
    requires |InFlight(Apply(After(s, acts), a).sessions, r)| <= 1
    ensures var t := After(s, acts); CanCrowd(Apply(t, a), r, floor) <==> !ForgetsNobody(t, a, r, floor)
  {
    InitialKept(s, r, floor, 1);
    RunKept(s, acts, r, floor, 1);
    StepCrowdsIff(After(s, acts), a, r, floor);
  }

  lemma StepCrowdsIff(t: Cluster, a: Action, r: RuleId, floor: nat)
    requires Inv(t) && Kept(t, r, floor, 1) && NobodyForgotten(t, r, floor) && Enabled(t, a) && KeepsFloor(a, r, floor)
    requires |InFlight(Apply(t, a).sessions, r)| <= 1
    ensures CanCrowd(Apply(t, a), r, floor) <==> !ForgetsNobody(t, a, r, floor)
  {
    var u := Apply(t, a);
    StepKeeps(t, a);
    StepKept(t, a, r, floor, 1);
    if ForgetsNobody(t, a, r, floor) {
      forall v, i: nat, j: nat | Reaches(u, v, r, floor, 1, Careful) ensures !Crowded(v, i, j, r, floor) {
        CarefulNeverCrowds(u, v, i, j, r, floor);
      }
    } else {
      var i: nat :| i < |u.sessions| && Forgotten(u, i, r, floor) && !Forgotten(t, i, r, floor);
      ForgottenCrowds(u, i, r, floor);
    }
  }
}
