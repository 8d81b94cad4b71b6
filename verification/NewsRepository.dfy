/** The repository methods on the news table, statement by statement, while other calls run in between. */
module NewsRepository {
  import opened NewsTable
  import opened Options

  function CountSaved(outcomes: seq<Outcome>): nat {
    if outcomes == [] then 0
    else CountSaved(outcomes[..|outcomes| - 1]) + (if outcomes[|outcomes| - 1].Saved? then 1 else 0)
  }

  predicate OutcomeOf(o: Outcome, n: News) { o.Failed? || o == Saved(n.url) || o == Duplicate(n.url) }

  /** One outcome per item offered, in order; a failure is the last; the count is that of the saved items. */
  predicate Reports(batch: seq<News>, outcomes: seq<Outcome>, saved: nat, failed: bool) {
    && |outcomes| <= |batch|
    && (forall i :: 0 <= i < |outcomes| ==> OutcomeOf(outcomes[i], batch[i]))
    && (forall i :: 0 <= i < |outcomes| ==> (outcomes[i].Failed? <==> failed && i == |outcomes| - 1))
    && (failed ==> outcomes != [])
    && (!failed ==> |outcomes| == |batch|)
    && saved == CountSaved(outcomes)
  }

  /** A batch without errors leaves nothing out. */
  lemma EveryItemAnswered(batch: seq<News>, outcomes: seq<Outcome>, saved: nat, k: nat)
    requires Reports(batch, outcomes, saved, false) && k < |batch|
    ensures Saved(batch[k].url) in outcomes || Duplicate(batch[k].url) in outcomes
  {
    assert outcomes[k] in outcomes && OutcomeOf(outcomes[k], batch[k]);
  }

  lemma ReportsGrow(batch: seq<News>, i: nat, outcomes: seq<Outcome>, saved: nat, o: Outcome)
    requires i < |batch| && Reports(batch[..i], outcomes, saved, false) && OutcomeOf(o, batch[i])
    ensures Reports(batch[..i + 1], outcomes + [o], saved + (if o.Saved? then 1 else 0), o.Failed?)
    ensures o.Failed? ==> Reports(batch, outcomes + [o], saved, true)
  {
    assert (outcomes + [o])[..i] == outcomes;
    assert forall k :: 0 <= k < i ==> OutcomeOf(outcomes[k], batch[..i][k]);
  }

  predicate OfOthers(a: Step, c: nat) { a.Wait? || a.Delete? || a.call != c }

  lemma OtherCalls(s: State, a: Step, c: nat)
    requires Enabled(s, a) && c in s.calls && OfOthers(a, c)
    ensures c in Apply(s, a).calls && Apply(s, a).calls[c] == s.calls[c]
  {}

  /** No row goes without being counted. */
  predicate NoneLostUncounted(s: State, t: State) {
    t.deleted >= s.deleted && (t.deleted == s.deleted ==> forall id :: id in s.news ==> id in t.news)
  }

  lemma RowsGoCounted(s: State, a: Step)
    requires Enabled(s, a)
    ensures NoneLostUncounted(s, Apply(s, a))
  {
    if a.Delete? {
      var t := DeleteRows(s, a.threshold);
      forall id | id in s.news && t.deleted == s.deleted ensures id in t.news {
        assert s.news.Keys - t.news.Keys == {};
      }
    }
  }

  /** The id of the item is in use under another URL. */
  predicate Clashes(s: State, n: News) { n.id in s.news && s.news[n.id].url != n.url }

  class Repository {
    var st: State

    constructor ()
      ensures st == Initial() && Inv(st)
    {
      InitialInv();
      st := Initial();
    }

    method Do(a: Step)
      requires Inv(st) && Enabled(st, a)
      modifies this
      ensures Inv(st) && st == Apply(old(st), a)
    {
      StepKeeps(st, a);
      st := Apply(st, a);
    }

    /** Other calls take any steps, and rows expire; callers know no more than the contract. */
    method OthersRun(c: nat)
      requires Inv(st) && c in st.calls
      modifies this
      ensures Inv(st) && c in st.calls && st.calls[c] == old(st.calls[c]) && NoneLostUncounted(old(st), st)
    {
      var steps: nat :| true;
      while steps > 0
        invariant Inv(st) && c in st.calls && st.calls[c] == old(st.calls[c]) && NoneLostUncounted(old(st), st)
      {
        var a: Step :| true;
        if OfOthers(a, c) && Enabled(st, a) {
          OtherCalls(st, a, c);
          RowsGoCounted(st, a);
          Do(a);
        }
        steps := steps - 1;
      }
    }

    /** The insert, and the number of rows it reports. */
    method InsertNews(c: nat, n: News, fault: Fault) returns (failed: bool, rows: nat)
      requires Inv(st) && Enabled(st, Insert(c, n, Fine))
      modifies this
      ensures Inv(st) && Enabled(old(st), Insert(c, n, fault)) && st == Apply(old(st), Insert(c, n, fault))
      // An error is a fault, or an id that is in use under another URL; no row is added for a URL that is taken.
      ensures failed <==> !fault.Fine? || (!UrlTaken(old(st), n.url) && n.id in old(st).news)
      ensures rows == if failed || UrlTaken(old(st), n.url) then 0 else 1
      ensures !failed && rows == 1 ==> st.calls[c] == old(st.calls[c]).(pending := Some(n))
      ensures !failed && rows == 0 ==> st.calls[c] == Call(old(st.calls[c]).outcomes + [Duplicate(n.url)], None)
      ensures failed ==> st.calls[c] == Call(old(st.calls[c]).outcomes + [Failed], None)
    {
      var taken, present := UrlTaken(st, n.url), n.id in st.news;
      Do(Insert(c, n, fault));
      failed := !fault.Fine? || (!taken && present);
      rows := if failed || taken then 0 else 1;
    }

    method UpsertSearchIndex(c: nat, fault: Fault) returns (failed: bool)
      requires Inv(st) && Enabled(st, WriteIndex(c, Fine))
      modifies this
      ensures Inv(st) && Enabled(old(st), WriteIndex(c, fault)) && st == Apply(old(st), WriteIndex(c, fault))
      ensures failed <==> !fault.Fine? || old(st).calls[c].pending.value.id !in old(st).news
      ensures st.calls[c] == Call(old(st.calls[c]).outcomes +
          [if failed then Failed else Saved(old(st.calls[c]).pending.value.url)], None)
    {
      failed := !fault.Fine? || st.calls[c].pending.value.id !in st.news;
      Do(WriteIndex(c, fault));
    }

    /** One item of a batch: the insert, and the index entry if it inserted a row. */
    method StoreItem(c: nat, n: News, insert: Fault, write: Fault) returns (failed: bool, counted: bool)
      requires Inv(st) && Running(st, c) && st.calls[c].pending.None?
      modifies this
      ensures !insert.Fine? ==> failed
      // Without a fault, an error means a clash of ids, or a row that was deleted before its index entry was written.
      ensures failed && insert.Fine? && write.Fine? ==> Clashes(st, n) || st.deleted > old(st).deleted
      ensures st.deleted >= old(st).deleted
      ensures Inv(st) && c in st.calls && st.calls[c] == Call(old(st.calls[c]).outcomes
                + [if failed then Failed else if counted then Saved(n.url) else Duplicate(n.url)], None)
    {
      OthersRun(c);
      var rows;
      failed, rows := InsertNews(c, n, insert);
      counted := false;
      if failed || rows == 0 {
        return;
      }
      OthersRun(c);
      failed := UpsertSearchIndex(c, write);
      counted := !failed;
    }

    /** Stores the items in order; the first error ends the call with the count so far. */
    method UpsertBatch(news: seq<News>, c: nat, faults: seq<(Fault, Fault)>) returns (saved: nat, failed: bool)
      requires Inv(st) && c !in st.calls && |faults| == |news|
      modifies this
      ensures Inv(st) && c in st.calls && st.calls[c].pending.None?
      ensures Reports(news, st.calls[c].outcomes, saved, failed)
      ensures failed ==>
          var k := |st.calls[c].outcomes| - 1;
          !faults[k].0.Fine? || !faults[k].1.Fine? || Clashes(st, news[k]) || st.deleted > old(st).deleted
    {
      saved, failed := 0, false;
      Do(Start(c));
      if |news| == 0 {
        return;
      }
      for i := 0 to |news|
        invariant Inv(st) && c in st.calls && st.calls[c].pending.None?
        invariant !failed && Reports(news[..i], st.calls[c].outcomes, saved, false)
        invariant st.deleted >= old(st).deleted
      {
        ghost var noted := st.calls[c].outcomes;
        var counted;
        failed, counted := StoreItem(c, news[i], faults[i].0, faults[i].1);
        ReportsGrow(news, i, noted, saved, if failed then Failed else if counted then Saved(news[i].url)
          else Duplicate(news[i].url));
        if failed {
          return;
        }
        if counted { saved := saved + 1; }
      }
      assert news[..|news|] == news;
    }

    /** Removes the rows created before the threshold, and reports how many. */
    method DeleteOlderThan(threshold: int, fault: Fault) returns (rows: nat, failed: bool)
      requires Inv(st)
      modifies this
      ensures Inv(st) && (st == old(st) || st == DeleteRows(old(st), threshold))
      ensures (failed <==> !fault.Fine?) && (failed ==> rows == 0)
      ensures !failed ==> st == DeleteRows(old(st), threshold) && rows == st.deleted - old(st.deleted)
    {
      ghost var before := st.deleted;
      var gone := set id | id in st.news && st.news[id].createdAt < threshold;
      assert gone == st.news.Keys - DeleteRows(st, threshold).news.Keys;
      Do(Delete(threshold, fault));
      failed := !fault.Fine?;
      rows := if failed then 0 else |gone|;
    }
  }
}
