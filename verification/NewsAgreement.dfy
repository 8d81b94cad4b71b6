/** What the news table promises over whole runs: agreement with the index, first writers, repeated batches. */
module NewsAgreement {
  import opened NewsTable
  import opened Options

  // ---------- The promises ----------

  predicate Quiet(s: State) { forall c :: c in s.calls ==> s.calls[c].pending.None? }

  /** Whenever no batch is between its two statements, the rows missing from the index are exactly the lost ones, every
      entry that is not mixed carries the text of its row, and the counters balance. */
  lemma AgreementAtRest(steps: seq<Step>)
    requires Legal(Initial(), steps) && Quiet(After(Initial(), steps))
    ensures var s := After(Initial(), steps);
            && s.news.Keys - s.index.Keys == s.lost && s.index.Keys <= s.news.Keys &&
              |s.lost| <= s.orphans <= s.failures
            && (forall id :: id in s.index && id !in s.mixed ==> s.index[id] == s.news[id].text)
            && |s.news| + s.deleted == s.saved + s.orphans
  {
    var s := After(Initial(), steps);
    RunKeeps(steps);
    assert PendingCalls(s) == {};
    forall id | id in s.news
      ensures id in s.index <==> id !in s.lost
      ensures id in s.index && id !in s.mixed ==> s.index[id] == s.news[id].text
    {
      assert RowAgrees(s, id);
    }
    assert |s.news| == |s.news.Keys|;
  }

  /** Without failures, table and index hold the same ids, and rows saved less rows deleted are the rows present. */
  lemma AgreementWithoutFailures(steps: seq<Step>)
    requires Legal(Initial(), steps) && Quiet(After(Initial(), steps)) && After(Initial(), steps).failures == 0
    ensures var s := After(Initial(), steps); s.news.Keys == s.index.Keys && |s.news| == s.saved - s.deleted
  {
    AgreementAtRest(steps);
    var s := After(Initial(), steps);
    assert |s.lost| == 0;
    assert s.lost == {};
  }

  predicate NobodyPending(s: State, id: string) {
    forall c :: c in s.calls && s.calls[c].pending.Some? ==> s.calls[c].pending.value.id != id
  }

  /** A lost row that nobody is about to index is never indexed: it stays without an entry until it expires. */
  lemma {:induction false} LostUntilExpiry(s: State, steps: seq<Step>, id: string)
    requires Legal(s, steps) && id in s.lost && id in s.news && id !in s.index && NobodyPending(s, id)
    requires forall i :: 0 <= i < |steps| && steps[i].Delete? ==> steps[i].threshold <= s.news[id].createdAt
    ensures var t := After(s, steps); id in t.news && id in t.lost && id !in t.index && NobodyPending(t, id)
    decreases |steps|
  {
    if steps == [] {
    } else {
      var init := steps[..|steps| - 1];
      LostUntilExpiry(s, init, id);
      FirstWriterStays(s, init, id);
      LostIsNotHealed(After(s, init), steps[|steps| - 1], id);
    }
  }

  lemma LostIsNotHealed(s: State, a: Step, id: string)
    requires Enabled(s, a) && id in s.lost && id in s.news && id !in s.index && NobodyPending(s, id)
    requires a.Delete? ==> a.threshold <= s.news[id].createdAt
    ensures var t := Apply(s, a); id in t.news && id in t.lost && id !in t.index && NobodyPending(t, id)
  {
    match a
    case Wait(_) =>
    case Start(_) =>
    case Insert(c, n, fault) => InsertHealsNothing(s, c, n, s.now, fault, id);
    case WriteIndex(c, fault) => IndexHealsNothing(s, c, fault, id);
    case Delete(_, _) =>
  }

  lemma InsertHealsNothing(s: State, c: nat, n: News, at: int, fault: Fault, id: string)
    requires c in s.calls && s.calls[c].pending.None? && id in s.lost && id in s.news && id !in s.index
    requires NobodyPending(s, id)
    ensures var t := InsertRow(s, c, n, at, fault);
        id in t.news && id in t.lost && id !in t.index && NobodyPending(t, id)
  {}

  lemma IndexHealsNothing(s: State, c: nat, fault: Fault, id: string)
    requires Pending(s, c) && id in s.lost && id in s.news && id !in s.index && NobodyPending(s, id)
    ensures var t := IndexRow(s, c, fault); id in t.news && id in t.lost && id !in t.index && NobodyPending(t, id)
  {}

  const ITEM := News("1", "https://example.org/1", "one")

  /** Rows do get lost: the index write of a batch fails. */
  lemma RowsGetLost()
    ensures exists steps ::
        Legal(Initial(), steps) && Quiet(After(Initial(), steps)) && ITEM.id in After(Initial(), steps).lost
  {
    var s1 := RunOne(Initial(), [], Start(0));
    var s2 := RunOne(Initial(), [Start(0)], Insert(0, ITEM, Fine));
    var s3 := RunOne(Initial(), [Start(0), Insert(0, ITEM, Fine)], WriteIndex(0, NoEffect));
    assert Quiet(s3) && ITEM.id in s3.lost;
  }

  lemma RunOne(s: State, steps: seq<Step>, a: Step) returns (t: State)
    requires Legal(s, steps) && Enabled(After(s, steps), a)
    ensures Legal(s, steps + [a]) && After(s, steps + [a]) == Apply(After(s, steps), a) == t
  {
    assert (steps + [a])[..|steps|] == steps;
    t := Apply(After(s, steps), a);
  }

  /** The first writer of a URL keeps it, unchanged, until its row is older than some threshold. */
  lemma {:induction false} FirstWriterStays(s: State, steps: seq<Step>, id: string)
    requires Legal(s, steps) && id in s.news
    requires forall i :: 0 <= i < |steps| && steps[i].Delete? ==> steps[i].threshold <= s.news[id].createdAt
    ensures id in After(s, steps).news && After(s, steps).news[id] == s.news[id]
    decreases |steps|
  {
    if steps == [] {
    } else {
      FirstWriterStays(s, steps[..|steps| - 1], id);
    }
  }

  /** A deletion removes exactly the rows before its threshold, and counts them. */
  lemma DeletesExactly(s: State, threshold: int)
    ensures var t := DeleteRows(s, threshold);
            (forall id :: id in t.news <==> id in s.news && s.news[id].createdAt >= threshold)
            && (forall id :: id in t.news ==> t.news[id] == s.news[id])
            && |s.news| == |t.news| + (t.deleted - s.deleted)
  {
    var t := DeleteRows(s, threshold);
    assert s.news.Keys == t.news.Keys + (s.news.Keys - t.news.Keys);
    assert |s.news| == |s.news.Keys| && |t.news| == |t.news.Keys|;
  }

  // ---------- Repeating a batch ----------

  predicate NoDeletes(steps: seq<Step>) { forall i :: 0 <= i < |steps| ==> !steps[i].Delete? }

  lemma {:induction false} TakenStaysOver(s: State, steps: seq<Step>, url: string)
    requires Legal(s, steps) && NoDeletes(steps) && UrlTaken(s, url)
    ensures UrlTaken(After(s, steps), url)
    decreases |steps|
  {
    if steps == [] {
    } else {
      TakenStaysOver(s, steps[..|steps| - 1], url);
      TakenStays(After(s, steps[..|steps| - 1]), steps[|steps| - 1], url);
    }
  }

  ghost predicate Answered(s: State, c: nat, url: string) {
    c in s.calls && (Saved(url) in s.calls[c].outcomes || Duplicate(url) in s.calls[c].outcomes)
  }

  /** What a call has been answered about, and what it is about to index, has its URL taken. */
  predicate CallTaken(s: State, c: nat) {
    c in s.calls ==>
      && (s.calls[c].pending.Some? ==> UrlTaken(s, s.calls[c].pending.value.url))
      && forall i :: 0 <= i < |s.calls[c].outcomes| && !s.calls[c].outcomes[i].Failed? ==>
        UrlTaken(s, s.calls[c].outcomes[i].url)
  }

  /** The call stays as it is, and so do the rows. */
  lemma TakenOf(s: State, t: State, c: nat)
    requires CallTaken(s, c) && c in s.calls && c in t.calls && t.calls[c] == s.calls[c]
    requires forall url :: UrlTaken(s, url) ==> UrlTaken(t, url)
    ensures CallTaken(t, c)
  {}

  lemma CallStaysTaken(s: State, a: Step, c: nat)
    requires Enabled(s, a) && !a.Delete? && CallTaken(s, c)
    ensures CallTaken(Apply(s, a), c)
  {
    var t := Apply(s, a);
    forall url | UrlTaken(s, url) ensures UrlTaken(t, url) { TakenStays(s, a, url); }
    if c !in s.calls {
      assert c in t.calls ==> t.calls[c] == Call([], None);
    } else if a.Wait? || a.call != c {
      TakenOf(s, t, c);
    } else {
      match a
      case Start(_) =>
      case Insert(_, n, fault) => InsertTakes(s, c, n, s.now, fault);
      case WriteIndex(_, fault) => IndexTakes(s, c, fault);
    }
  }

  lemma InsertTakes(s: State, c: nat, n: News, at: int, fault: Fault)
    requires c in s.calls && s.calls[c].pending.None? && CallTaken(s, c)
    requires forall url :: UrlTaken(s, url) ==> UrlTaken(InsertRow(s, c, n, at, fault), url)
    ensures CallTaken(InsertRow(s, c, n, at, fault), c)
  {
    var t := InsertRow(s, c, n, at, fault);
    assert n.id in t.news && t.news[n.id].url == n.url ==> UrlTaken(t, n.url);
  }

  lemma IndexTakes(s: State, c: nat, fault: Fault)
    requires Pending(s, c) && CallTaken(s, c)
    requires forall url :: UrlTaken(s, url) ==> UrlTaken(IndexRow(s, c, fault), url)
    ensures CallTaken(IndexRow(s, c, fault), c)
  {}

  lemma {:induction false} AnsweredUrlsTaken(s: State, steps: seq<Step>, c: nat)
    requires Legal(s, steps) && NoDeletes(steps) && c !in s.calls
    ensures CallTaken(After(s, steps), c)
    decreases |steps|
  {
    if steps == [] {
    } else {
      AnsweredUrlsTaken(s, steps[..|steps| - 1], c);
      CallStaysTaken(After(s, steps[..|steps| - 1]), steps[|steps| - 1], c);
    }
  }

  predicate SavesNothing(s: State, d: nat) {
    d in s.calls ==> s.calls[d].pending.None? && forall i :: 0 <= i < |s.calls[d].outcomes| ==>
      !s.calls[d].outcomes[i].Saved?
  }

  /** All items the call offers have their URL taken. */
  predicate OffersTaken(s: State, steps: seq<Step>, d: nat) {
    forall i :: 0 <= i < |steps| && steps[i].Insert? && steps[i].call == d ==> UrlTaken(s, steps[i].item.url)
  }

  lemma StepSavesNothing(s: State, a: Step, d: nat)
    requires Enabled(s, a) && SavesNothing(s, d) && (a.Insert? && a.call == d ==> UrlTaken(s, a.item.url))
    ensures SavesNothing(Apply(s, a), d)
  {}

  lemma {:induction false} TakenUrlsSaveNothing(s: State, steps: seq<Step>, d: nat)
    requires Legal(s, steps) && NoDeletes(steps) && OffersTaken(s, steps, d) && d !in s.calls
    ensures SavesNothing(After(s, steps), d)
    decreases |steps|
  {
    if steps == [] {
    } else {
      var init, a := steps[..|steps| - 1], steps[|steps| - 1];
      TakenUrlsSaveNothing(s, init, d);
      if a.Insert? && a.call == d { TakenStaysOver(s, init, a.item.url); }
      StepSavesNothing(After(s, init), a, d);
    }
  }

  /** Repeating a batch that was answered, with any other batches around but no expiry between, saves nothing. */
  lemma RepeatSavesNothing(s: State, first: seq<Step>, second: seq<Step>, c: nat, d: nat)
    requires Legal(s, first) && NoDeletes(first) && c !in s.calls
    requires Legal(After(s, first), second) && NoDeletes(second) && d !in After(s, first).calls
    requires forall i :: 0 <= i < |second| && second[i].Insert? && second[i].call == d ==>
        Answered(After(s, first), c, second[i].item.url)
    ensures SavesNothing(After(After(s, first), second), d)
  {
    var t := After(s, first);
    AnsweredUrlsTaken(s, first, c);
    forall i | 0 <= i < |second| && second[i].Insert? && second[i].call == d
      ensures UrlTaken(t, second[i].item.url)
    {
      var url := second[i].item.url;
      var o :| o in t.calls[c].outcomes && (o == Saved(url) || o == Duplicate(url));
    }
    TakenUrlsSaveNothing(t, second, d);
  }
}
