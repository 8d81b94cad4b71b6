/** The news table and its search index under concurrent batches and expiry, one SQL statement at a time.
    Statements are atomic, but a batch is not one transaction: other calls run between its statements,
    and any statement may fail without effect or take effect and lose its reply. */
module NewsTable {
  import opened Options

  /** One processed item; text is what the search index is computed from. */
  datatype News = News(id: string, url: string, text: string)

  /** writer is history: the call that inserted the row. */
  datatype Row = Row(url: string, text: string, createdAt: int, writer: nat)

  datatype Fault = Fine | NoEffect | LostReply

  /** What a batch learns about one of its items. */
  datatype Outcome = Saved(url: string) | Duplicate(url: string) | Failed

  /** One call of UpsertBatch: its outcomes so far, and the row it has inserted but not yet indexed. */
  datatype Call = Call(outcomes: seq<Outcome>, pending: Option<News>)

  datatype Step =
    | Wait(ns: nat)
    | Start(call: nat)
    | Insert(call: nat, item: News, fault: Fault)
    | WriteIndex(call: nat, fault: Fault)
    | Delete(threshold: int, fault: Fault)

  /** History: lost are the rows present whose call ended without an index entry; mixed those whose entry was written by
      another call, which had inserted an earlier row of the same id; orphans counts the rows inserted but not
      counted by their call. */
  datatype State = State(
    news: map<string, Row>, index: map<string, string>, calls: map<nat, Call>,
    lost: set<string>, mixed: set<string>, saved: nat, orphans: nat, deleted: nat, failures: nat,
    now: int)

  function Initial(): State { State(map[], map[], map[], {}, {}, 0, 0, 0, 0, 0) }

  predicate UrlTaken(s: State, url: string) { exists id :: id in s.news && s.news[id].url == url }

  predicate Running(s: State, c: nat) {
    c in s.calls && (s.calls[c].outcomes == [] || !s.calls[c].outcomes[|s.calls[c].outcomes| - 1].Failed?)
  }

  predicate Enabled(s: State, a: Step) {
    match a
    case Wait(_) => true
    case Start(c) => c !in s.calls
    case Insert(c, _, _) => Running(s, c) && s.calls[c].pending.None?
    case WriteIndex(c, _) => Running(s, c) && s.calls[c].pending.Some?
    case Delete(_, _) => true
  }

  /** The call notes an outcome and has no statement outstanding. */
  function Note(s: State, c: nat, o: Outcome): State
    requires c in s.calls
  {
    s.(calls := s.calls[c := Call(s.calls[c].outcomes + [o], None)],
       failures := s.failures + if o.Failed? then 1 else 0)
  }

  /** INSERT … ON CONFLICT (url) DO NOTHING; another row with the same id is an error. */
  function InsertRow(s: State, c: nat, n: News, at: int, fault: Fault): State
    requires c in s.calls
  {
    if fault.NoEffect? then Note(s, c, Failed)
    else if UrlTaken(s, n.url) then Note(s, c, if fault.Fine? then Duplicate(n.url) else Failed)
    else if n.id in s.news then Note(s, c, Failed)
    else
      var t := s.(news := s.news[n.id := Row(n.url, n.text, at, c)]);
      if fault.Fine? then t.(calls := t.calls[c := t.calls[c].(pending := Some(n))])
      else Note(t.(lost := t.lost + {n.id}, orphans := t.orphans + 1), c, Failed)
  }

  /** INSERT … ON CONFLICT (news_id) DO UPDATE into the index; the row must exist. */
  function IndexRow(s: State, c: nat, fault: Fault): State
    requires c in s.calls && s.calls[c].pending.Some?
  {
    var n := s.calls[c].pending.value;
    var own := n.id in s.news && s.news[n.id].writer == c;
    if fault.NoEffect? || n.id !in s.news
    then
      var lost := if own && n.id !in s.index then s.lost + {n.id} else s.lost;
      Note(s.(lost := lost, orphans := s.orphans + 1), c, Failed)
    else
      var t := s.(index := s.index[n.id := n.text], lost := s.lost - {n.id},
                  mixed := if own then s.mixed - {n.id} else s.mixed + {n.id});
      if fault.Fine? then Note(t.(saved := t.saved + 1), c, Saved(n.url))
        else Note(t.(orphans := t.orphans + 1), c, Failed)
  }

  /** Rows before the threshold go, and their index entries with them. */
  function DeleteRows(s: State, threshold: int): State {
    var kept := map id | id in s.news && s.news[id].createdAt >= threshold :: s.news[id];
    s.(news := kept, index := map id | id in s.index && id in kept :: s.index[id],
       lost := s.lost * kept.Keys, mixed := s.mixed * kept.Keys, deleted := s.deleted + |s.news.Keys - kept.Keys|)
  }

  function Apply(s: State, a: Step): State
    requires Enabled(s, a)
  {
    match a
    case Wait(ns) => s.(now := s.now + ns)
    case Start(c) => s.(calls := s.calls[c := Call([], None)])
    case Insert(c, n, fault) => InsertRow(s, c, n, s.now, fault)
    case WriteIndex(c, fault) => IndexRow(s, c, fault)
    case Delete(threshold, fault) => if fault.NoEffect? then s else DeleteRows(s, threshold)
  }

  predicate Legal(s: State, steps: seq<Step>)
    decreases |steps|, 0
  {
    steps == [] || (Legal(s, steps[..|steps| - 1]) && Enabled(After(s, steps[..|steps| - 1]), steps[|steps| - 1]))
  }

  function After(s: State, steps: seq<Step>): State
    requires Legal(s, steps)
    decreases |steps|, 1
  {
    if steps == [] then s else Apply(After(s, steps[..|steps| - 1]), steps[|steps| - 1])
  }

  // ---------- The invariant ----------

  predicate UrlsDiffer(s: State, a: string, b: string) {
    a in s.news && b in s.news && s.news[a].url == s.news[b].url ==> a == b
  }

  ghost predicate UrlsUnique(s: State) { forall a, b :: UrlsDiffer(s, a, b) }

  predicate Pending(s: State, c: nat) { c in s.calls && s.calls[c].pending.Some? }

  function PendingItem(s: State, c: nat): News
    requires Pending(s, c)
  {
    s.calls[c].pending.value
  }

  /** While the row that a call inserted is there, it is the item the call is about to index. */
  ghost predicate PendingRow(s: State, c: nat) {
    Pending(s, c) && PendingItem(s, c).id in s.news && s.news[PendingItem(s, c).id].writer == c ==>
      s.news[PendingItem(s, c).id].text == PendingItem(s, c).text
  }

  ghost predicate PendingRows(s: State) { forall c: nat :: PendingRow(s, c) }

  /** The call that inserted the row is about to index it. */
  predicate OwnPending(s: State, id: string)
    requires id in s.news
  {
    Pending(s, s.news[id].writer) && PendingItem(s, s.news[id].writer).id == id
  }

  /** An indexed row carries its own text and is done with, unless another call wrote the entry;
      a row without an entry is about to be indexed by its call, or lost. */
  predicate RowAgrees(s: State, id: string) {
    id in s.news ==>
      if id in s.index then id !in s.lost && (id !in s.mixed ==> s.index[id] == s.news[id].text && !OwnPending(s, id))
      else id in s.lost || OwnPending(s, id)
  }

  ghost predicate Agree(s: State) {
    && s.mixed <= s.index.Keys <= s.news.Keys && s.lost <= s.news.Keys
    && forall id :: RowAgrees(s, id)
  }

  function PendingCalls(s: State): set<nat> { set c | c in s.calls && Pending(s, c) }

  predicate Accounted(s: State) {
    && |s.news.Keys| + s.deleted == s.saved + s.orphans + |PendingCalls(s)|
    && |s.lost| <= s.orphans <= s.failures
  }

  ghost predicate Inv(s: State) { UrlsUnique(s) && PendingRows(s) && Agree(s) && Accounted(s) }

  lemma InitialInv()
    ensures Inv(Initial())
  {
    assert PendingCalls(Initial()) == {};
  }

  /** The two states know the same outstanding items. */
  ghost predicate SamePending(s: State, t: State) {
    forall c: nat :: Pending(t, c) == Pending(s, c) && (Pending(s, c) ==> PendingItem(t, c) == PendingItem(s, c))
  }

  predicate SameTables(s: State, t: State) {
    t.news == s.news && t.index == s.index && t.lost == s.lost && t.mixed == s.mixed
  }

  lemma TablesAlike(s: State, t: State)
    requires UrlsUnique(s) && PendingRows(s) && Agree(s)
    requires SameTables(s, t) && SamePending(s, t)
    ensures UrlsUnique(t) && PendingRows(t) && Agree(t)
  {
    forall a, b ensures UrlsDiffer(t, a, b) { assert UrlsDiffer(s, a, b); }
    forall c: nat ensures PendingRow(t, c) { assert PendingRow(s, c); }
    forall id ensures RowAgrees(t, id) { assert RowAgrees(s, id); }
  }

  lemma WaitKeeps(s: State, ns: nat)
    requires Inv(s)
    ensures Inv(Apply(s, Wait(ns)))
  {
    var t := Apply(s, Wait(ns));
    assert PendingCalls(t) == PendingCalls(s);
    TablesAlike(s, t);
  }

  lemma StartKeeps(s: State, c: nat)
    requires Inv(s) && Enabled(s, Start(c))
    ensures Inv(Apply(s, Start(c)))
  {
    var t := Apply(s, Start(c));
    assert PendingCalls(t) == PendingCalls(s);
    TablesAlike(s, t);
  }

  /** A call notes an outcome that changes no table. */
  lemma NoteKeeps(s: State, c: nat, o: Outcome)
    requires Inv(s) && c in s.calls && s.calls[c].pending.None?
    ensures Inv(Note(s, c, o))
  {
    var t := Note(s, c, o);
    assert PendingCalls(t) == PendingCalls(s);
    TablesAlike(s, t);
  }

  lemma InsertKeeps(s: State, c: nat, n: News, at: int, fault: Fault)
    requires Inv(s) && Enabled(s, Insert(c, n, fault))
    ensures Inv(InsertRow(s, c, n, at, fault))
  {
    if fault.NoEffect? || UrlTaken(s, n.url) || n.id in s.news {
      NoteKeeps(s, c, Failed);
      NoteKeeps(s, c, Duplicate(n.url));
    } else {
      FreshInsertUrls(s, c, n, at, fault);
      FreshInsertPendings(s, c, n, at, fault);
      FreshInsertAgrees(s, c, n, at, fault);
      FreshInsertCounts(s, c, n, at, fault);
    }
  }

  /** The insert finds neither the URL nor the id, and takes effect. */
  predicate Inserts(s: State, c: nat, n: News, fault: Fault) {
    c in s.calls && s.calls[c].pending.None? && !fault.NoEffect? && !UrlTaken(s, n.url) && n.id !in s.news
  }

  lemma OneMoreRow(s: State, t: State, id: string)
    requires Accounted(s) && id !in s.news && t.news.Keys == s.news.Keys + {id} && t.deleted == s.deleted
    requires t.saved == s.saved
    requires || (|PendingCalls(t)| == |PendingCalls(s)| + 1 && t.orphans == s.orphans && t.failures == s.failures &&
        t.lost == s.lost)
             || (|PendingCalls(t)| == |PendingCalls(s)| && t.orphans == s.orphans + 1 &&
                  t.failures == s.failures + 1 && t.lost == s.lost + {id})
    ensures Accounted(t)
  {}

  lemma FreshInsertCounts(s: State, c: nat, n: News, at: int, fault: Fault)
    requires Accounted(s) && Inserts(s, c, n, fault)
    ensures Accounted(InsertRow(s, c, n, at, fault))
  {
    NewPendings(s, c, n, at, fault);
    NewRow(s, c, n, at, fault);
    OneMoreRow(s, InsertRow(s, c, n, at, fault), n.id);
  }

  lemma NewPendings(s: State, c: nat, n: News, at: int, fault: Fault)
    requires Inserts(s, c, n, fault)
    ensures |PendingCalls(InsertRow(s, c, n, at, fault))| == |PendingCalls(s)| + if fault.Fine? then 1 else 0
  {
    assert PendingCalls(InsertRow(s, c, n, at, fault)) == PendingCalls(s) + if fault.Fine? then {c} else {};
  }

  lemma NewRow(s: State, c: nat, n: News, at: int, fault: Fault)
    requires Inserts(s, c, n, fault)
    ensures var t := InsertRow(s, c, n, at, fault);
            && t.news.Keys == s.news.Keys + {n.id} && t.deleted == s.deleted && t.saved == s.saved
            && (fault.Fine? ==> t.orphans == s.orphans && t.failures == s.failures && t.lost == s.lost)
            && (!fault.Fine? ==>
                 t.orphans == s.orphans + 1 && t.failures == s.failures + 1 && t.lost == s.lost + {n.id})
  {}

  lemma FreshInsertUrls(s: State, c: nat, n: News, at: int, fault: Fault)
    requires UrlsUnique(s) && Inserts(s, c, n, fault)
    ensures UrlsUnique(InsertRow(s, c, n, at, fault))
  {
    var t := InsertRow(s, c, n, at, fault);
    forall a, b ensures UrlsDiffer(t, a, b) { assert UrlsDiffer(s, a, b); }
  }

  lemma FreshInsertPendings(s: State, c: nat, n: News, at: int, fault: Fault)
    requires PendingRows(s) && Inserts(s, c, n, fault)
    ensures PendingRows(InsertRow(s, c, n, at, fault))
  {
    var t := InsertRow(s, c, n, at, fault);
    forall d: nat ensures PendingRow(t, d) { assert PendingRow(s, d); }
  }

  lemma FreshInsertAgrees(s: State, c: nat, n: News, at: int, fault: Fault)
    requires Agree(s) && Inserts(s, c, n, fault)
    ensures Agree(InsertRow(s, c, n, at, fault))
  {
    var t := InsertRow(s, c, n, at, fault);
    forall id ensures RowAgrees(t, id) { assert RowAgrees(s, id); }
  }

  lemma IndexKeeps(s: State, c: nat, fault: Fault)
    requires Inv(s) && Enabled(s, WriteIndex(c, fault))
    ensures Inv(IndexRow(s, c, fault))
  {
    IndexCounts(s, c, fault);
    IndexTables(s, c, fault);
    IndexAgrees(s, c, fault);
  }

  /** One outstanding item less, counted as saved or as an orphan. */
  lemma OneItemDone(s: State, t: State, id: string)
    requires Accounted(s) && t.news.Keys == s.news.Keys && t.deleted == s.deleted
    requires |PendingCalls(t)| == |PendingCalls(s)| - 1
    requires || (t.saved == s.saved + 1 && t.orphans == s.orphans && t.failures == s.failures && t.lost <= s.lost)
             || (t.saved == s.saved && t.orphans == s.orphans + 1 && t.failures == s.failures + 1 &&
                  t.lost <= s.lost + {id})
    ensures Accounted(t)
  {
    SubsetSize(t.lost, if t.saved == s.saved then s.lost + {id} else s.lost);
  }

  lemma IndexCounts(s: State, c: nat, fault: Fault)
    requires Accounted(s) && Pending(s, c)
    ensures Accounted(IndexRow(s, c, fault))
  {
    PendingDone(s, c, fault);
    EntryWritten(s, c, fault);
    OneItemDone(s, IndexRow(s, c, fault), PendingItem(s, c).id);
  }

  lemma PendingDone(s: State, c: nat, fault: Fault)
    requires Pending(s, c)
    ensures |PendingCalls(IndexRow(s, c, fault))| == |PendingCalls(s)| - 1
  {
    assert PendingCalls(IndexRow(s, c, fault)) == PendingCalls(s) - {c} && c in PendingCalls(s);
  }

  lemma EntryWritten(s: State, c: nat, fault: Fault)
    requires Pending(s, c)
    ensures var t := IndexRow(s, c, fault);
            && t.news == s.news && t.deleted == s.deleted
            && ((t.saved == s.saved + 1 && t.orphans == s.orphans && t.failures == s.failures && t.lost <= s.lost)
                || (t.saved == s.saved && t.orphans == s.orphans + 1 && t.failures == s.failures + 1
                    && t.lost <= s.lost + {PendingItem(s, c).id}))
  {}

  lemma IndexTables(s: State, c: nat, fault: Fault)
    requires UrlsUnique(s) && PendingRows(s) && Pending(s, c)
    ensures UrlsUnique(IndexRow(s, c, fault)) && PendingRows(IndexRow(s, c, fault))
  {
    var t := IndexRow(s, c, fault);
    forall a, b ensures UrlsDiffer(t, a, b) { assert UrlsDiffer(s, a, b); }
    forall d: nat ensures PendingRow(t, d) { assert PendingRow(s, d); }
  }

  lemma IndexAgrees(s: State, c: nat, fault: Fault)
    requires Agree(s) && PendingRow(s, c) && Pending(s, c)
    ensures Agree(IndexRow(s, c, fault))
  {
    var t := IndexRow(s, c, fault);
    forall id ensures RowAgrees(t, id) { assert RowAgrees(s, id); }
  }

  lemma DeleteCounts(s: State, threshold: int)
    requires Accounted(s)
    ensures Accounted(DeleteRows(s, threshold))
  {
    var t := DeleteRows(s, threshold);
    assert s.news.Keys == t.news.Keys + (s.news.Keys - t.news.Keys);
    assert PendingCalls(t) == PendingCalls(s);
    SubsetSize(t.lost, s.lost);
  }

  lemma DeleteKeeps(s: State, threshold: int)
    requires Inv(s)
    ensures Inv(DeleteRows(s, threshold))
  {
    var t := DeleteRows(s, threshold);
    DeleteCounts(s, threshold);
    forall a, b ensures UrlsDiffer(t, a, b) { assert UrlsDiffer(s, a, b); }
    forall d: nat ensures PendingRow(t, d) { assert PendingRow(s, d); }
    forall id ensures RowAgrees(t, id) { assert RowAgrees(s, id); }
  }

  lemma SubsetSize(a: set<string>, b: set<string>)
    requires a <= b
    ensures |a| <= |b|
  {
    assert b == a + (b - a);
  }

  lemma StepKeeps(s: State, a: Step)
    requires Inv(s) && Enabled(s, a)
    ensures Inv(Apply(s, a))
  {
    match a
    case Wait(ns) => WaitKeeps(s, ns);
    case Start(c) => StartKeeps(s, c);
    case Insert(c, n, fault) => InsertKeeps(s, c, n, s.now, fault);
    case WriteIndex(c, fault) => IndexKeeps(s, c, fault);
    case Delete(threshold, _) => DeleteKeeps(s, threshold);
  }

  /** The invariant holds after every run from empty tables. */
  lemma {:induction false} RunKeeps(steps: seq<Step>)
    requires Legal(Initial(), steps)
    ensures Inv(After(Initial(), steps))
    decreases |steps|
  {
    if steps == [] {
      InitialInv();
    } else {
      RunKeeps(steps[..|steps| - 1]);
      StepKeeps(After(Initial(), steps[..|steps| - 1]), steps[|steps| - 1]);
    }
  }

  lemma TakenStays(s: State, a: Step, url: string)
    requires Enabled(s, a) && !a.Delete? && UrlTaken(s, url)
    ensures UrlTaken(Apply(s, a), url)
  {
    var id :| id in s.news && s.news[id].url == url;
    assert id in Apply(s, a).news;
  }
}
