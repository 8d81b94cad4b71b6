/** When an index entry carries another text than its row: exactly after a deletion between the two statements of a
    call. */
module NewsStaleness {
  import opened NewsAgreement
  import opened NewsTable
  import opened Options

  /** The entry of a row carries another text than the row. */
  predicate Stale(s: State, id: string) { id in s.index && id in s.news && s.index[id] != s.news[id].text }

  /** The call has inserted its row, which is there, and not yet written the entry. */
  predicate Between(s: State, c: nat) {
    Pending(s, c) && PendingItem(s, c).id in s.news && s.news[PendingItem(s, c).id].writer == c
  }

  /** The step deletes no row whose call is between its two statements. */
  predicate Spares(s: State, a: Step) {
    a.Delete? && !a.fault.NoEffect? ==>
      forall c :: c in s.calls && Between(s, c) ==> s.news[PendingItem(s, c).id].createdAt >= a.threshold
  }

  predicate Sparing(s: State, steps: seq<Step>)
    requires Legal(s, steps)
    decreases |steps|
  {
    steps == [] || (Sparing(s, steps[..|steps| - 1]) && Spares(After(s, steps[..|steps| - 1]), steps[|steps| - 1]))
  }

  // ---------- Without such a deletion ----------

  predicate OwnCall(s: State, c: nat) {
    Pending(s, c) ==> Running(s, c) && Between(s, c) && s.news[PendingItem(s, c).id].url == PendingItem(s, c).url
  }

  /** Every entry was written by the call of its row, and every call that is about to write one has its row. */
  predicate Own(s: State) { s.mixed == {} && forall c :: c in s.calls ==> OwnCall(s, c) }

  lemma InsertOwns(s: State, c: nat, n: News, at: int, fault: Fault)
    requires Own(s) && Running(s, c) && s.calls[c].pending.None?
    ensures Own(InsertRow(s, c, n, at, fault))
  {
    var t := InsertRow(s, c, n, at, fault);
    forall d | d in t.calls ensures OwnCall(t, d) { assert OwnCall(s, d); }
  }

  lemma IndexOwns(s: State, c: nat, fault: Fault)
    requires Own(s) && Pending(s, c)
    ensures Own(IndexRow(s, c, fault))
  {
    var t := IndexRow(s, c, fault);
    assert OwnCall(s, c);
    forall d | d in t.calls ensures OwnCall(t, d) { assert OwnCall(s, d); }
  }

  lemma DeleteOwns(s: State, threshold: int, fault: Fault)
    requires Own(s) && Spares(s, Delete(threshold, fault)) && !fault.NoEffect?
    ensures Own(DeleteRows(s, threshold))
  {
    var t := DeleteRows(s, threshold);
    forall d | d in t.calls ensures OwnCall(t, d) { assert OwnCall(s, d); }
  }

  lemma StepOwns(s: State, a: Step)
    requires Own(s) && Enabled(s, a) && Spares(s, a)
    ensures Own(Apply(s, a))
  {
    match a
    case Wait(_) =>
      forall d | d in s.calls ensures OwnCall(Apply(s, a), d) { assert OwnCall(s, d); }
    case Start(c) =>
      forall d | d in s.calls ensures OwnCall(Apply(s, a), d) { assert OwnCall(s, d); }
    case Insert(c, n, fault) => InsertOwns(s, c, n, s.now, fault);
    case WriteIndex(c, fault) => IndexOwns(s, c, fault);
    case Delete(threshold, fault) => if !fault.NoEffect? { DeleteOwns(s, threshold, fault); }
  }

  lemma {:induction false} SparingOwns(s: State, steps: seq<Step>)
    requires Inv(s) && Own(s) && Legal(s, steps) && Sparing(s, steps)
    ensures Inv(After(s, steps)) && Own(After(s, steps))
    decreases |steps|
  {
    if steps == [] {
    } else {
      var init, a := steps[..|steps| - 1], steps[|steps| - 1];
      SparingOwns(s, init);
      StepOwns(After(s, init), a);
      StepKeeps(After(s, init), a);
    }
  }

  lemma OwnIsFresh(s: State, id: string)
    requires Inv(s) && Own(s)
    ensures !Stale(s, id)
  {
    assert RowAgrees(s, id);
  }

  // ---------- After such a deletion ----------

  /** A legal continuation without failures or deletions that leaves a stale entry. */
  predicate GoesStale(s: State, steps: seq<Step>, id: string) {
    Legal(s, steps) && Sparing(s, steps) && After(s, steps).failures == s.failures && Stale(After(s, steps), id)
  }

  ghost predicate CanGoStale(s: State) { exists steps, id :: GoesStale(s, steps, id) }

  lemma SparingOne(s: State, steps: seq<Step>, a: Step) returns (t: State)
    requires Legal(s, steps) && Sparing(s, steps) && Enabled(After(s, steps), a) && !a.Delete?
    ensures Legal(s, steps + [a]) && Sparing(s, steps + [a]) && After(s, steps + [a]) == Apply(After(s, steps), a) == t
  {
    t := RunOne(s, steps, a);
    assert (steps + [a])[..|steps|] == steps;
  }

  lemma {:induction false} UnusedCall(ids: set<nat>) returns (n: nat)
    ensures forall i :: i in ids ==> i < n
    decreases |ids|
  {
    if ids == {} {
      n := 0;
    } else {
      var i :| i in ids;
      var m := UnusedCall(ids - {i});
      n := if m > i then m else i + 1;
      assert forall j :: j in ids ==> j == i || j in ids - {i};
    }
  }

  /** The row of a call has gone, and nothing of its id or URL is there. */
  predicate Orphaned(s: State, c: nat) {
    Pending(s, c) && Running(s, c) && PendingItem(s, c).id !in s.news && !UrlTaken(s, PendingItem(s, c).url)
  }

  lemma DeletedIsOrphaned(s: State, threshold: int, c: nat)
    requires Inv(s) && Own(s) && c in s.calls && Between(s, c) && s.news[PendingItem(s, c).id].createdAt < threshold
    ensures Orphaned(DeleteRows(s, threshold), c)
  {
    var t, n := DeleteRows(s, threshold), PendingItem(s, c);
    assert OwnCall(s, c);
    forall id | id in t.news ensures t.news[id].url != n.url { assert UrlsDiffer(s, id, n.id); }
  }

  /** The item comes again with another text; both calls then write their entries, the one whose row is gone last. */
  lemma OrphanedGoesStale(s: State, c: nat)
    requires Orphaned(s, c)
    ensures CanGoStale(s)
  {
    var n := PendingItem(s, c);
    var again := News(n.id, n.url, n.text + "!");
    var d := UnusedCall(s.calls.Keys);
    var steps: seq<Step> := [];
    var s1 := SparingOne(s, steps, Start(d));
    steps := steps + [Start(d)];
    var s2 := SparingOne(s, steps, Insert(d, again, Fine));
    steps := steps + [Insert(d, again, Fine)];
    var s3 := SparingOne(s, steps, WriteIndex(d, Fine));
    steps := steps + [WriteIndex(d, Fine)];
    var s4 := SparingOne(s, steps, WriteIndex(c, Fine));
    steps := steps + [WriteIndex(c, Fine)];
    assert |again.text| != |n.text|;
    assert GoesStale(s, steps, n.id);
  }

  // ---------- The exact condition ----------

  /** While no deletion takes the row of a call between its two statements, every entry carries the text of its row. */
  lemma NeverStale(steps: seq<Step>, id: string)
    requires Legal(Initial(), steps) && Sparing(Initial(), steps)
    ensures After(Initial(), steps).mixed == {} && !Stale(After(Initial(), steps), id)
  {
    InitialInv();
    SparingOwns(Initial(), steps);
    OwnIsFresh(After(Initial(), steps), id);
  }

  /** A step lets an entry go stale later, although no statement fails and no row is deleted too soon from then on, if
      and only if it deletes the row of a call that is between its two statements. */
  lemma StaleIff(steps: seq<Step>, a: Step)
    requires Legal(Initial(), steps) && Sparing(Initial(), steps) && Enabled(After(Initial(), steps), a)
    ensures var s := After(Initial(), steps); CanGoStale(Apply(s, a)) <==> !Spares(s, a)
  {
    var s := After(Initial(), steps);
    InitialInv();
    SparingOwns(Initial(), steps);
    if Spares(s, a) {
      var t := Apply(s, a);
      StepOwns(s, a);
      StepKeeps(s, a);
      forall more, id | Legal(t, more) && Sparing(t, more) ensures !GoesStale(t, more, id) {
        SparingOwns(t, more);
        OwnIsFresh(After(t, more), id);
      }
    } else {
      var c :| c in s.calls && Between(s, c) && s.news[PendingItem(s, c).id].createdAt < a.threshold;
      DeletedIsOrphaned(s, a.threshold, c);
      OrphanedGoesStale(Apply(s, a), c);
    }
  }

  // ---------- In terms of time ----------

  /** Deletions leave what is younger than the retention period. */
  predicate Retains(s: State, a: Step, keep: nat) { a.Delete? ==> a.threshold <= s.now - keep }

  /** Whoever is between its two statements has been there for at most the retention period. */
  predicate Quick(s: State, keep: nat) {
    forall c :: c in s.calls && Between(s, c) ==> s.now - s.news[PendingItem(s, c).id].createdAt <= keep
  }

  predicate Retaining(s: State, steps: seq<Step>, keep: nat)
    requires Legal(s, steps)
    decreases |steps|
  {
    steps == [] || (Retaining(s, steps[..|steps| - 1], keep) &&
      Retains(After(s, steps[..|steps| - 1]), steps[|steps| - 1], keep))
  }

  predicate AlwaysQuick(s: State, steps: seq<Step>, keep: nat)
    requires Legal(s, steps)
    decreases |steps|
  {
    steps == [] || (AlwaysQuick(s, steps[..|steps| - 1], keep) && Quick(After(s, steps[..|steps| - 1]), keep))
  }

  lemma {:induction false} QuickIsSparing(s: State, steps: seq<Step>, keep: nat)
    requires Legal(s, steps) && Retaining(s, steps, keep) && AlwaysQuick(s, steps, keep)
    ensures Sparing(s, steps)
    decreases |steps|
  {
    if steps == [] {
    } else {
      QuickIsSparing(s, steps[..|steps| - 1], keep);
    }
  }

  /** No entry goes stale while no call stays between its statements for longer than rows are kept. */
  lemma QuickCallsNeverGoStale(steps: seq<Step>, keep: nat, id: string)
    requires Legal(Initial(), steps) && Retaining(Initial(), steps, keep) && AlwaysQuick(Initial(), steps, keep)
    ensures !Stale(After(Initial(), steps), id)
  {
    QuickIsSparing(Initial(), steps, keep);
    NeverStale(steps, id);
  }

  const SAME_ITEM := News("1", "https://example.org/1", "two")

  /** One more step of a run that keeps its rows for the retention period. */
  lemma RetainingOne(steps: seq<Step>, a: Step, keep: nat) returns (more: seq<Step>, t: State)
    requires Legal(Initial(), steps) && Retaining(Initial(), steps, keep) && Enabled(After(Initial(), steps), a)
    requires Retains(After(Initial(), steps), a, keep)
    ensures Legal(Initial(), more) && Retaining(Initial(), more, keep)
    ensures After(Initial(), more) == Apply(After(Initial(), steps), a) == t
  {
    more := steps + [a];
    t := RunOne(Initial(), steps, a);
    assert more[..|steps|] == steps;
  }

  /** A call rests between its statements until its row has expired. */
  lemma Overslept(keep: nat) returns (steps: seq<Step>)
    ensures Legal(Initial(), steps) && Retaining(Initial(), steps, keep)
    ensures var s := After(Initial(), steps);
            && s.news == map[] && s.index == map[] && s.failures == 0 && s.calls == map[0 := Call([], Some(ITEM))]
  {
    var s;
    steps, s := RetainingOne([], Start(0), keep);
    steps, s := RetainingOne(steps, Insert(0, ITEM, Fine), keep);
    steps, s := RetainingOne(steps, Wait(keep + 1), keep);
    steps, s := RetainingOne(steps, Delete(1, Fine), keep);
    assert s.news == map[] && s.index == map[];
  }

  /** Batches without any error also end with a stale entry, however long rows are kept: the call sleeps over the
      expiry of its row, the item comes again, and the first call writes its entry last. */
  lemma EntriesGoStale(keep: nat)
    ensures exists steps ::
              && Legal(Initial(), steps) && Retaining(Initial(), steps, keep) && Quiet(After(Initial(), steps))
              && After(Initial(), steps).failures == 0 && Stale(After(Initial(), steps), ITEM.id)
  {
    var s;
    var steps := Overslept(keep);
    steps, s := RetainingOne(steps, Start(1), keep);
    steps, s := RetainingOne(steps, Insert(1, SAME_ITEM, Fine), keep);
    steps, s := RetainingOne(steps, WriteIndex(1, Fine), keep);
    steps, s := RetainingOne(steps, WriteIndex(0, Fine), keep);
    assert Quiet(s) && Stale(s, ITEM.id);
  }
}
