/** No message is lost track of, no channel is misused, and the saved batches are what was received. */
module PipelineSafety {
  import opened Pipeline

  // ---------- Where the messages are ----------

  function Count(xs: seq<nat>, m: nat): nat {
    if xs == [] then 0 else (if xs[0] == m then 1 else 0) + Count(xs[1..], m)
  }

  lemma {:induction false} CountConcat(xs: seq<nat>, ys: seq<nat>, m: nat)
    ensures Count(xs + ys, m) == Count(xs, m) + Count(ys, m)
  {
    if xs == [] {
      assert xs + ys == ys;
    } else {
      assert (xs + ys)[1..] == xs[1..] + ys;
      CountConcat(xs[1..], ys, m);
    }
  }

  lemma CountSnoc(xs: seq<nat>, y: nat, m: nat)
    ensures Count(xs + [y], m) == Count(xs, m) + (if y == m then 1 else 0)
  {
    CountConcat(xs, [y], m);
  }

  predicate Busy(x: Worker) { x.Processing? || x.Publishing? }

  function InHand(x: Worker, m: nat): nat { if Busy(x) && x.m == m then 1 else 0 }

  function InHands(ws: seq<Worker>, m: nat): nat {
    if ws == [] then 0 else InHand(ws[0], m) + InHands(ws[1..], m)
  }

  function Concat(batches: seq<seq<nat>>): seq<nat> {
    if batches == [] then [] else Concat(batches[..|batches| - 1]) + batches[|batches| - 1]
  }

  function Batch(s: System): seq<nat> { if s.saver.Collecting? then s.saver.batch else [] }

  /** In how many places message m is. */
  function Places(s: System, m: nat): nat {
    (if s.main.Offering? && s.main.m == m then 1 else 0)
    + Count(s.tasks, m) + InHands(s.workers, m) + Count(s.results, m)
    + Count(Batch(s), m) + Count(Concat(s.saves), m) + Count(s.dropped, m)
  }

  lemma {:induction false} HandUpdate(ws: seq<Worker>, w: nat, x: Worker, m: nat)
    requires w < |ws|
    ensures InHands(ws[w := x], m) == InHands(ws, m) - InHand(ws[w], m) + InHand(x, m)
  {
    if w == 0 {
      assert ws[0 := x][1..] == ws[1..];
    } else {
      assert ws[w := x][1..] == ws[1..][w - 1 := x];
      HandUpdate(ws[1..], w - 1, x, m);
    }
  }

  lemma {:induction false} NobodyHolds(n: nat, m: nat)
    ensures InHands(seq(n, i => Idle), m) == 0
  {
    if n == 0 {
    } else {
      assert seq(n, i => Idle)[1..] == seq(n - 1, i => Idle);
      NobodyHolds(n - 1, m);
    }
  }

  // ---------- The invariant ----------

  /** Every decoded message is in exactly one place, and no other is anywhere. */
  predicate ConservedAt(s: System, m: nat) { Places(s, m) == if m < s.decoded then 1 else 0 }

  ghost predicate Conserved(s: System) { forall m: nat :: ConservedAt(s, m) }

  predicate InOrder(c: Config, s: System) {
    && Concat(s.saves) + Batch(s) == s.received
    && s.received + s.results == s.offered
    && |Batch(s)| < c.batchSize
    && (forall i :: 0 <= i < |s.saves| ==> 1 <= |s.saves[i]| <= c.batchSize)
  }

  predicate WorkersClosed(s: System) { s.main.ClosingResults? || s.main.AwaitingSaver? || s.main.Returned? }

  predicate Closing(c: Config, s: System) {
    && !s.panicked
    && |s.workers| == c.workers && |s.tasks| <= c.Capacity() && |s.results| <= c.Capacity()
    && (s.tasksClosed <==> s.main.AwaitingWorkers? || WorkersClosed(s))
    && (s.resultsClosed <==> s.main.AwaitingSaver? || s.main.Returned?)
    && (WorkersClosed(s) ==> forall w :: 0 <= w < |s.workers| ==> s.workers[w].Done?)
    && (s.main.Returned? ==> s.saver.Gone?)
    && (!s.main.Reading? && !s.main.Offering? ==> s.cancelled)
    && ((s.saver.Gone? || s.saver == Saving(true)) ==> s.cancelled)
    && (forall w :: 0 <= w < |s.workers| && s.workers[w].Done? ==> s.cancelled)
  }

  ghost predicate Inv(c: Config, s: System) { Conserved(s) && InOrder(c, s) && Closing(c, s) }

  lemma StartInv(c: Config)
    requires c.Valid()
    ensures Inv(c, Start(c))
  {
    forall m: nat ensures ConservedAt(Start(c), m) { NobodyHolds(c.workers, m); }
  }

  predicate MainStep(a: Action) {
    a.Cancel? || a.Read? || a.Skip? || a.StopReading? || a.OfferTask? || a.DropTask? || a.CloseTasks? || a.WorkersDone?
    || a.CloseResults? || a.SaverDone?
  }

  predicate WorkerStep(a: Action) {
    a.TakeTask? || a.TasksExhausted? || a.Processed? || a.OfferResult? || a.DropResult?
  }

  lemma MainCloses(c: Config, s: System, a: Action)
    requires c.Valid() && Closing(c, s) && Enabled(c, s, a) && MainStep(a)
    ensures Closing(c, Apply(c, s, a))
  {}

  lemma WorkerCloses(c: Config, s: System, a: Action)
    requires c.Valid() && Closing(c, s) && Enabled(c, s, a) && WorkerStep(a)
    ensures Closing(c, Apply(c, s, a))
  {
    var t := Apply(c, s, a);
    assert !s.workers[a.w].Done? && !WorkersClosed(s);
    assert forall v :: 0 <= v < |s.workers| && v != a.w ==> t.workers[v] == s.workers[v];
  }

  lemma SaverCloses(c: Config, s: System, a: Action)
    requires c.Valid() && Closing(c, s) && Enabled(c, s, a) && !MainStep(a) && !WorkerStep(a)
    ensures Closing(c, Apply(c, s, a))
  {}

  lemma StepCloses(c: Config, s: System, a: Action)
    requires c.Valid() && Closing(c, s) && Enabled(c, s, a)
    ensures Closing(c, Apply(c, s, a))
  {
    if MainStep(a) {
      MainCloses(c, s, a);
    } else if WorkerStep(a) {
      WorkerCloses(c, s, a);
    } else {
      SaverCloses(c, s, a);
    }
  }

  lemma ConcatLast(batches: seq<seq<nat>>, b: seq<nat>)
    ensures Concat(batches + [b]) == Concat(batches) + b
  {
    assert (batches + [b])[..|batches|] == batches;
  }

  lemma SavingOrders(c: Config, s: System, batch: seq<nat>, last: bool)
    requires c.Valid() && 0 < |batch| <= c.batchSize
    requires Concat(s.saves) + batch == s.received && s.received + s.results == s.offered
    requires forall i :: 0 <= i < |s.saves| ==> 1 <= |s.saves[i]| <= c.batchSize
    ensures InOrder(c, Flush(s, batch, last))
  {
    var u := Flush(s, batch, last);
    ConcatLast(s.saves, batch);
    assert u.saves == s.saves + [batch] && Batch(u) == [];
    assert Concat(u.saves) + [] == Concat(u.saves);
  }

  lemma FlushOrders(c: Config, s: System, batch: seq<nat>, last: bool)
    requires c.Valid() && |batch| <= c.batchSize
    requires Concat(s.saves) + batch == s.received && s.received + s.results == s.offered
    requires forall i :: 0 <= i < |s.saves| ==> 1 <= |s.saves[i]| <= c.batchSize
    ensures InOrder(c, Flush(s, batch, last))
  {
    if batch != [] {
      SavingOrders(c, s, batch, last);
    } else {
      assert Batch(Flush(s, batch, last)) == batch;
    }
  }

  lemma CollectOrders(c: Config, s: System)
    requires c.Valid() && InOrder(c, s) && Enabled(c, s, Collect)
    ensures InOrder(c, Apply(c, s, Collect))
  {
    var x := s.results[0];
    var t := s.(results := s.results[1..], received := s.received + [x]);
    assert s.results == [x] + s.results[1..];
    assert Concat(s.saves) + (s.saver.batch + [x]) == t.received;
    assert t.received + t.results == s.offered;
    if |s.saver.batch| + 1 >= c.batchSize { FlushOrders(c, t, s.saver.batch + [x], false); }
  }

  lemma MainOrders(c: Config, s: System, a: Action)
    requires InOrder(c, s) && Enabled(c, s, a) && MainStep(a)
    ensures InOrder(c, Apply(c, s, a))
  {}

  lemma Unordered(c: Config, s: System, t: System)
    requires InOrder(c, s) && t.saves == s.saves && t.saver == s.saver && t.received == s.received
    requires t.results == s.results && t.offered == s.offered
    ensures InOrder(c, t)
  {}

  lemma OfferOrders(c: Config, s: System, t: System, m: nat)
    requires InOrder(c, s) && t.saves == s.saves && t.saver == s.saver && t.received == s.received
    requires t.results == s.results + [m] && t.offered == s.offered + [m]
    ensures InOrder(c, t)
  {
    assert s.received + (s.results + [m]) == s.received + s.results + [m];
  }

  lemma WorkerOrders(c: Config, s: System, a: Action)
    requires InOrder(c, s) && Enabled(c, s, a) && WorkerStep(a)
    ensures InOrder(c, Apply(c, s, a))
  {
    if a.OfferResult? && !s.resultsClosed {
      OfferOrders(c, s, Apply(c, s, a), s.workers[a.w].m);
    } else {
      Unordered(c, s, Apply(c, s, a));
    }
  }

  lemma StepOrders(c: Config, s: System, a: Action)
    requires c.Valid() && InOrder(c, s) && Enabled(c, s, a)
    ensures InOrder(c, Apply(c, s, a))
  {
    if MainStep(a) {
      MainOrders(c, s, a);
    } else if WorkerStep(a) {
      WorkerOrders(c, s, a);
    } else if a.Collect? {
      CollectOrders(c, s);
    } else if a.Tick? {
      FlushOrders(c, s, s.saver.batch, false);
    } else if a.ResultsExhausted? || a.StopSaving? {
      FlushOrders(c, s, s.saver.batch, true);
    }
  }

  lemma FlushKeepsPlaces(s: System, batch: seq<nat>, last: bool, m: nat)
    requires s.saver.Collecting?
    ensures Places(Flush(s, batch, last), m) == Places(s, m) - Count(s.saver.batch, m) + Count(batch, m)
  {
    if batch != [] {
      var u := Flush(s, batch, last);
      ConcatLast(s.saves, batch);
      CountConcat(Concat(s.saves), batch, m);
      assert u.saves == s.saves + [batch] && Batch(u) == [];
      assert Count(Concat(u.saves), m) == Count(Concat(s.saves), m) + Count(batch, m);
    } else {
      assert Batch(Flush(s, batch, last)) == [];
    }
  }

  /** Moving a message takes it from one place to another. */
  lemma MainConserves(c: Config, s: System, a: Action, m: nat)
    requires Closing(c, s) && ConservedAt(s, m) && Enabled(c, s, a) && MainStep(a)
    ensures ConservedAt(Apply(c, s, a), m)
  {
    if a.OfferTask? { CountSnoc(s.tasks, s.main.m, m); }
    if a.DropTask? { CountSnoc(s.dropped, s.main.m, m); }
  }

  /** A worker's move shifts its message between its hand and the four stores. */
  lemma HandShift(s: System, t: System, w: nat, m: nat)
    requires ConservedAt(s, m) && w < |s.workers| && w < |t.workers| && t.workers == s.workers[w := t.workers[w]]
    requires t.main == s.main && t.saver == s.saver && t.saves == s.saves && t.decoded == s.decoded
    requires Count(t.tasks, m) + InHand(t.workers[w], m) + Count(t.results, m) + Count(t.dropped, m)
          == Count(s.tasks, m) + InHand(s.workers[w], m) + Count(s.results, m) + Count(s.dropped, m)
    ensures ConservedAt(t, m)
  {
    HandUpdate(s.workers, w, t.workers[w], m);
  }

  lemma TakeConserves(s: System, w: nat, m: nat)
    requires ConservedAt(s, m) && w < |s.workers| && s.workers[w].Idle? && s.tasks != []
    ensures ConservedAt(SetWorker(s, w, Processing(s.tasks[0])).(tasks := s.tasks[1..]), m)
  {
    HandShift(s, SetWorker(s, w, Processing(s.tasks[0])).(tasks := s.tasks[1..]), w, m);
  }

  lemma OfferConserves(s: System, w: nat, m: nat)
    requires ConservedAt(s, m) && w < |s.workers| && Busy(s.workers[w])
    ensures ConservedAt(
              SetWorker(s, w, Idle).(results := s.results + [s.workers[w].m], offered := s.offered + [s.workers[w].m]),
              m)
  {
    CountSnoc(s.results, s.workers[w].m, m);
    var t := SetWorker(s, w, Idle).(results := s.results + [s.workers[w].m], offered := s.offered + [s.workers[w].m]);
    HandShift(s, t, w, m);
  }

  lemma DropConserves(s: System, w: nat, x: Worker, m: nat)
    requires ConservedAt(s, m) && w < |s.workers| && Busy(s.workers[w]) && !Busy(x)
    ensures ConservedAt(SetWorker(s, w, x).(dropped := s.dropped + [s.workers[w].m]), m)
  {
    CountSnoc(s.dropped, s.workers[w].m, m);
    HandShift(s, SetWorker(s, w, x).(dropped := s.dropped + [s.workers[w].m]), w, m);
  }

  lemma WorkerConserves(c: Config, s: System, a: Action, m: nat)
    requires (a.OfferResult? ==> !s.resultsClosed) && ConservedAt(s, m) && Enabled(c, s, a) && WorkerStep(a)
    ensures ConservedAt(Apply(c, s, a), m)
  {
    match a
    case TakeTask(w) => TakeConserves(s, w, m);
    case OfferResult(w) => OfferConserves(s, w, m);
    case DropResult(w) => DropConserves(s, w, Done, m);
    case Processed(w, stored) =>
      if stored { HandShift(s, Apply(c, s, a), w, m); } else { DropConserves(s, w, Idle, m); }
    case TasksExhausted(w) => HandShift(s, Apply(c, s, a), w, m);
  }

  /** A message leaves results for the batch, which may be handed over at once. */
  lemma TakenFromResults(s: System, m: nat)
    requires s.results != []
    ensures Places(s.(results := s.results[1..], received := s.received + [s.results[0]]), m)
            == Places(s, m) - (if s.results[0] == m then 1 else 0)
  {}

  lemma BatchKeepsPlaces(s: System, batch: seq<nat>, m: nat)
    requires s.saver.Collecting?
    ensures Places(s.(saver := Collecting(batch)), m) == Places(s, m) - Count(s.saver.batch, m) + Count(batch, m)
  {}

  lemma CollectConserves(c: Config, s: System, m: nat)
    requires ConservedAt(s, m) && Enabled(c, s, Collect)
    ensures ConservedAt(Apply(c, s, Collect), m)
  {
    var t := s.(results := s.results[1..], received := s.received + [s.results[0]]);
    var batch := s.saver.batch + [s.results[0]];
    TakenFromResults(s, m);
    CountSnoc(s.saver.batch, s.results[0], m);
    if |batch| >= c.batchSize { FlushKeepsPlaces(t, batch, false, m); } else { BatchKeepsPlaces(t, batch, m); }
  }

  lemma SaverConserves(c: Config, s: System, a: Action, m: nat)
    requires ConservedAt(s, m) && Enabled(c, s, a) && !MainStep(a) && !WorkerStep(a)
    ensures ConservedAt(Apply(c, s, a), m)
  {
    if a.Collect? {
      CollectConserves(c, s, m);
    } else if a.Tick? {
      FlushKeepsPlaces(s, s.saver.batch, false, m);
    } else if a.ResultsExhausted? || a.StopSaving? {
      FlushKeepsPlaces(s, s.saver.batch, true, m);
    }
  }

  lemma StepKeeps(c: Config, s: System, a: Action)
    requires c.Valid() && Inv(c, s) && Enabled(c, s, a)
    ensures Inv(c, Apply(c, s, a))
  {
    StepCloses(c, s, a);
    StepOrders(c, s, a);
    forall m: nat ensures ConservedAt(Apply(c, s, a), m) {
      if MainStep(a) { MainConserves(c, s, a, m); }
      else if WorkerStep(a) { WorkerConserves(c, s, a, m); }
      else { SaverConserves(c, s, a, m); }
    }
  }

  lemma {:induction false} RunKeeps(c: Config, s: System, acts: seq<Action>)
    requires c.Valid() && Inv(c, s) && Legal(c, s, acts)
    ensures Inv(c, After(c, s, acts))
    decreases |acts|
  {
    if acts == [] {
    } else {
      StepKeeps(c, s, acts[0]);
      RunKeeps(c, Apply(c, s, acts[0]), acts[1..]);
    }
  }

  // ---------- Main results ----------

  function BusyWorkers(ws: seq<Worker>): nat {
    if ws == [] then 0 else (if Busy(ws[0]) then 1 else 0) + BusyWorkers(ws[1..])
  }

  lemma {:induction false} BusyAtMost(ws: seq<Worker>)
    ensures BusyWorkers(ws) <= |ws|
  {
    if ws == [] {
    } else {
      BusyAtMost(ws[1..]);
    }
  }

  /** Messages decoded, not dropped, and not yet handed to a save call. */
  function Unsaved(s: System): nat {
    (if s.main.Offering? then 1 else 0) + |s.tasks| + BusyWorkers(s.workers) + |s.results| + |Batch(s)|
  }

  /** Every decoded message is in exactly one place at every moment, at most five per worker and one batch are unsaved,
      and the save calls, in order, carry exactly the received results in batches of legal size. */
  lemma ConservationAndBound(c: Config, acts: seq<Action>)
    requires c.Valid() && Legal(c, Start(c), acts)
    ensures var t := After(c, Start(c), acts);
            && (forall m: nat :: Places(t, m) == if m < t.decoded then 1 else 0)
            && Unsaved(t) <= 5 * c.workers + c.batchSize
            && Concat(t.saves) + Batch(t) == t.received && t.received + t.results == t.offered
            && (forall i :: 0 <= i < |t.saves| ==> 1 <= |t.saves[i]| <= c.batchSize)
  {
    StartInv(c);
    RunKeeps(c, Start(c), acts);
    var t := After(c, Start(c), acts);
    BusyAtMost(t.workers);
    forall m: nat ensures Places(t, m) == if m < t.decoded then 1 else 0 { assert ConservedAt(t, m); }
  }

  /** Whoever may still send finds the channel open. */
  ghost predicate Senders(s: System) {
    && (s.main.Offering? ==> !s.tasksClosed)
    && (forall w :: 0 <= w < |s.workers| && s.workers[w].Publishing? ==> !s.resultsClosed)
  }

  /** No send ever meets a closed channel and none is closed twice: in every reachable state whoever may still
      send finds the channel open, and the flag a misuse would raise is down. */
  lemma ChannelsAreSafe(c: Config, acts: seq<Action>)
    requires c.Valid() && Legal(c, Start(c), acts)
    ensures var t := After(c, Start(c), acts);
            && !t.panicked && Senders(t)
            && (t.main.ClosingTasks? ==> !t.tasksClosed) && (t.main.ClosingResults? ==> !t.resultsClosed)
            && (t.main.Returned? ==>
                 t.tasksClosed && t.resultsClosed && t.saver.Gone? &&
                 forall w :: 0 <= w < |t.workers| ==> t.workers[w].Done?)
  {
    StartInv(c);
    RunKeeps(c, Start(c), acts);
  }
}
