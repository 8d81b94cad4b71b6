/** The goroutines of the news processor in the order their code runs.  Between two steps of
    one goroutine all others may take any steps; every execution is a legal run of the
    transition system.  A loop is followed for any number of rounds; a round in which the
    goroutine finds nothing ready is one in which it stays blocked. */
module PipelineCode {
  import opened Pipeline
  import opened PipelineSafety

  predicate SameSaver(s: System, t: System) { t.saver == s.saver && t.saves == s.saves && t.received == s.received }

  lemma MainMovesAlone(c: Config, s: System, a: Action)
    requires Enabled(c, s, a) && MainStep(a)
    ensures Apply(c, s, a).workers == s.workers && SameSaver(s, Apply(c, s, a))
    ensures a.Cancel? ==> Apply(c, s, a).main == s.main && Apply(c, s, a).tasksClosed == s.tasksClosed
    ensures s.cancelled ==> Apply(c, s, a).cancelled
  {}

  lemma WorkerMovesAlone(c: Config, s: System, a: Action)
    requires Enabled(c, s, a) && WorkerStep(a)
    ensures a.w < |s.workers| == |Apply(c, s, a).workers| && SameSaver(s, Apply(c, s, a))
    ensures forall w :: 0 <= w < |s.workers| && a.w != w ==> Apply(c, s, a).workers[w] == s.workers[w]
    ensures Apply(c, s, a).main == s.main && Apply(c, s, a).tasksClosed == s.tasksClosed
    ensures Apply(c, s, a).cancelled == s.cancelled
  {}

  lemma SaverMovesAlone(c: Config, s: System, a: Action)
    requires Enabled(c, s, a) && !MainStep(a) && !WorkerStep(a)
    ensures Apply(c, s, a).workers == s.workers
    ensures Apply(c, s, a).main == s.main && Apply(c, s, a).tasksClosed == s.tasksClosed
    ensures Apply(c, s, a).cancelled == s.cancelled
  {}

  /** A goroutine's step leaves the program counters of the others alone. */
  lemma OthersDoNotMoveUs(c: Config, s: System, a: Action)
    requires Enabled(c, s, a)
    ensures !MainStep(a) || a.Cancel? ==> Apply(c, s, a).main == s.main && Apply(c, s, a).tasksClosed == s.tasksClosed
    ensures |Apply(c, s, a).workers| == |s.workers|
    ensures forall w :: 0 <= w < |s.workers| && !(WorkerStep(a) && a.w == w) ==>
        Apply(c, s, a).workers[w] == s.workers[w]
    ensures MainStep(a) || WorkerStep(a) ==> SameSaver(s, Apply(c, s, a))
    ensures s.cancelled ==> Apply(c, s, a).cancelled
  {
    if MainStep(a) {
      MainMovesAlone(c, s, a);
    } else if WorkerStep(a) {
      WorkerMovesAlone(c, s, a);
    } else {
      SaverMovesAlone(c, s, a);
    }
  }

  // ---------- What a goroutine has done so far ----------

  function One(b: bool): nat { if b then 1 else 0 }

  function Tally(acts: seq<Action>, p: Action -> bool): nat {
    if acts == [] then 0 else One(p(acts[0])) + Tally(acts[1..], p)
  }

  function MainMoves(): Action -> bool { (a: Action) => MainStep(a) && !a.Cancel? }
  function SaverMoves(): Action -> bool { (a: Action) => !MainStep(a) && !WorkerStep(a) }
  function Reads(): Action -> bool { (a: Action) => a.Read? }
  function HandsOver(): Action -> bool { (a: Action) => a.OfferTask? || a.DropTask? }
  function TakesBy(w: nat): Action -> bool { (a: Action) => Takes(w, a) }
  function EndsBy(w: nat): Action -> bool { (a: Action) => Ends(w, a) }

  predicate Takes(w: nat, a: Action) { a.TakeTask? && a.w == w }
  predicate Ends(w: nat, a: Action) { ((a.Processed? && !a.stored) || a.OfferResult? || a.DropResult?) && a.w == w }

  function ReaderHolds(s: System): nat { One(s.main.Offering?) }
  function WorkerHolds(s: System, w: nat): nat { One(w < |s.workers| && Busy(s.workers[w])) }

  lemma {:induction false} TallySnoc(acts: seq<Action>, a: Action, p: Action -> bool)
    ensures Tally(acts + [a], p) == Tally(acts, p) + One(p(a))
  {
    var all := acts + [a];
    if acts == [] {
      assert all[1..] == [];
    } else {
      assert all[0] == acts[0] && all[1..] == acts[1..] + [a];
      TallySnoc(acts[1..], a, p);
    }
  }

  lemma {:induction false} TallyAdds(a: seq<Action>, b: seq<Action>, p: Action -> bool)
    ensures Tally(a + b, p) == Tally(a, p) + Tally(b, p)
  {
    if a == [] {
      assert a + b == b;
    } else {
      assert (a + b)[1..] == a[1..] + b;
      TallyAdds(a[1..], b, p);
    }
  }

  /** Whatever happens later, a step that counts stays counted. */
  lemma CountedOnce(before: seq<Action>, a: Action, acts: seq<Action>, p: Action -> bool)
    requires before + [a] <= acts && p(a)
    ensures Tally(acts, p) >= Tally(before, p) + 1
  {
    var more := acts[|before| + 1..];
    assert acts == before + [a] + more;
    TallyAdds(before + [a], more, p);
    TallySnoc(before, a, p);
  }

  lemma CountsGrow(before: seq<Action>, acts: seq<Action>, p: Action -> bool)
    requires before <= acts
    ensures Tally(acts, p) >= Tally(before, p)
  {
    assert acts == before + acts[|before|..];
    TallyAdds(before, acts[|before|..], p);
  }

  // ---------- Moments at which a goroutine is blocked ----------

  /** After n steps of the run a worker finds tasks empty and open. */
  ghost predicate NoTaskAt(c: Config, trace: seq<Action>, n: nat) {
    n <= |trace| && Legal(c, Start(c), trace[..n]) &&
      After(c, Start(c), trace[..n]).tasks == [] && !After(c, Start(c), trace[..n]).tasksClosed
  }

  /** After n steps of the run the batcher finds results empty and open, and the run not cancelled. */
  ghost predicate NoResultAt(c: Config, trace: seq<Action>, n: nat) {
    n <= |trace| && Legal(c, Start(c), trace[..n]) &&
      After(c, Start(c), trace[..n]).results == [] && !After(c, Start(c), trace[..n]).resultsClosed &&
      !After(c, Start(c), trace[..n]).cancelled
  }

  /** The moments come one after the other, none before from. */
  predicate InOrder(from: nat, moments: seq<nat>) {
    && (forall j, k :: 0 <= j < k < |moments| ==> moments[j] <= moments[k])
    && (forall k :: 0 <= k < |moments| ==> from <= moments[k])
  }

  ghost predicate NoTasks(c: Config, trace: seq<Action>, from: nat, moments: seq<nat>) {
    InOrder(from, moments) && forall k :: 0 <= k < |moments| ==> NoTaskAt(c, trace, moments[k])
  }

  ghost predicate NoResults(c: Config, trace: seq<Action>, from: nat, moments: seq<nat>) {
    InOrder(from, moments) && forall k :: 0 <= k < |moments| ==> NoResultAt(c, trace, moments[k])
  }

  lemma NoTasksStay(c: Config, before: seq<Action>, trace: seq<Action>, from: nat, moments: seq<nat>)
    requires before <= trace && NoTasks(c, before, from, moments)
    ensures NoTasks(c, trace, from, moments)
  {
    forall k | 0 <= k < |moments| ensures NoTaskAt(c, trace, moments[k]) {
      assert trace[..moments[k]] == before[..moments[k]];
      assert NoTaskAt(c, before, moments[k]);
    }
  }

  lemma NoResultsStay(c: Config, before: seq<Action>, trace: seq<Action>, from: nat, moments: seq<nat>)
    requires before <= trace && NoResults(c, before, from, moments)
    ensures NoResults(c, trace, from, moments)
  {
    forall k | 0 <= k < |moments| ensures NoResultAt(c, trace, moments[k]) {
      assert trace[..moments[k]] == before[..moments[k]];
      assert NoResultAt(c, before, moments[k]);
    }
  }

  lemma ReaderHandStep(c: Config, s: System, a: Action)
    requires Enabled(c, s, a) && (a.OfferTask? ==> !s.tasksClosed)
    ensures One(Reads()(a)) + ReaderHolds(s) == One(HandsOver()(a)) + ReaderHolds(Apply(c, s, a))
  {
    if !MainStep(a) { OthersDoNotMoveUs(c, s, a); }
  }

  lemma TakeHandStep(c: Config, s: System, w: nat)
    requires Enabled(c, s, TakeTask(w))
    ensures WorkerHolds(s, w) == 0 && WorkerHolds(Apply(c, s, TakeTask(w)), w) == 1
  {}

  lemma ProcessedHandStep(c: Config, s: System, w: nat, stored: bool)
    requires Enabled(c, s, Processed(w, stored))
    ensures WorkerHolds(s, w) == 1 && WorkerHolds(Apply(c, s, Processed(w, stored)), w) == One(stored)
  {}

  lemma OfferHandStep(c: Config, s: System, w: nat)
    requires Enabled(c, s, OfferResult(w)) && !s.resultsClosed
    ensures WorkerHolds(s, w) == 1 && WorkerHolds(Apply(c, s, OfferResult(w)), w) == 0
  {}

  lemma DropHandStep(c: Config, s: System, w: nat)
    requires Enabled(c, s, DropResult(w))
    ensures WorkerHolds(s, w) == 1 && WorkerHolds(Apply(c, s, DropResult(w)), w) == 0
  {}

  lemma ExhaustedHandStep(c: Config, s: System, w: nat)
    requires Enabled(c, s, TasksExhausted(w))
    ensures WorkerHolds(s, w) == 0 && WorkerHolds(Apply(c, s, TasksExhausted(w)), w) == 0
  {}

  lemma OwnHandStep(c: Config, s: System, a: Action)
    requires Enabled(c, s, a) && WorkerStep(a) && (a.OfferResult? ==> !s.resultsClosed)
    ensures One(Takes(a.w, a)) + WorkerHolds(s, a.w) == One(Ends(a.w, a)) + WorkerHolds(Apply(c, s, a), a.w)
  {
    if a.TakeTask? {
      TakeHandStep(c, s, a.w);
    } else if a.Processed? {
      ProcessedHandStep(c, s, a.w, a.stored);
    } else if a.OfferResult? {
      OfferHandStep(c, s, a.w);
    } else if a.DropResult? {
      DropHandStep(c, s, a.w);
    } else {
      ExhaustedHandStep(c, s, a.w);
    }
  }

  lemma OthersHandStep(c: Config, s: System, a: Action, w: nat)
    requires Enabled(c, s, a) && !(WorkerStep(a) && a.w == w)
    ensures WorkerHolds(Apply(c, s, a), w) == WorkerHolds(s, w)
  {
    OthersDoNotMoveUs(c, s, a);
  }

  lemma WorkerHandStep(c: Config, s: System, a: Action, w: nat)
    requires Enabled(c, s, a) && (a.OfferResult? ==> !s.resultsClosed)
    ensures One(Takes(w, a)) + WorkerHolds(s, w) == One(Ends(w, a)) + WorkerHolds(Apply(c, s, a), w)
  {
    if WorkerStep(a) && a.w == w { OwnHandStep(c, s, a); } else { OthersHandStep(c, s, a, w); }
  }

  lemma SendersFindOpen(c: Config, s: System, a: Action)
    requires Closing(c, s) && Enabled(c, s, a)
    ensures (a.OfferTask? ==> !s.tasksClosed) && (a.OfferResult? ==> !s.resultsClosed)
  {
    if a.OfferResult? { assert !s.workers[a.w].Done?; }
  }

  /** Of what the reader has read, all but what is in its hand has been handed over or dropped. */
  lemma {:induction false} ReaderBalances(c: Config, s: System, acts: seq<Action>)
    requires c.Valid() && Inv(c, s) && Legal(c, s, acts)
    ensures Tally(acts, Reads()) + ReaderHolds(s) == Tally(acts, HandsOver()) + ReaderHolds(After(c, s, acts))
    decreases |acts|
  {
    if acts == [] {
    } else {
      SendersFindOpen(c, s, acts[0]);
      ReaderHandStep(c, s, acts[0]);
      StepKeeps(c, s, acts[0]);
      ReaderBalances(c, Apply(c, s, acts[0]), acts[1..]);
    }
  }

  /** Of the tasks a worker has taken, all but the one in its hand have been handed on or dropped. */
  lemma {:induction false} WorkerBalances(c: Config, s: System, acts: seq<Action>, w: nat)
    requires c.Valid() && Inv(c, s) && Legal(c, s, acts)
    ensures Tally(acts, TakesBy(w)) + WorkerHolds(s, w) == Tally(acts, EndsBy(w)) + WorkerHolds(After(c, s, acts), w)
    decreases |acts|
  {
    if acts == [] {
    } else {
      SendersFindOpen(c, s, acts[0]);
      WorkerHandStep(c, s, acts[0], w);
      StepKeeps(c, s, acts[0]);
      WorkerBalances(c, Apply(c, s, acts[0]), acts[1..], w);
    }
  }

  class Processor {
    const c: Config
    var st: System
    ghost var trace: seq<Action>

    ghost predicate Valid()
      reads this
    {
      c.Valid() && Legal(c, Start(c), trace) && After(c, Start(c), trace) == st
    }

    constructor (config: Config)
      requires config.Valid()
      ensures Valid() && c == config && st == Start(config)
    {
      c, st, trace := config, Start(config), [];
    }

    /** How many steps the main goroutine has made. */
    ghost function Moved(): nat
      reads this
    {
      Tally(trace, MainMoves())
    }

    method Do(a: Action)
      requires Valid() && Enabled(c, st, a)
      modifies this
      ensures Valid() && st == Apply(c, old(st), a) && trace == old(trace) + [a]
      ensures Moved() == old(Moved()) + if MainStep(a) && !a.Cancel? then 1 else 0
    {
      AfterAppend(c, Start(c), trace, a);
      TallySnoc(trace, a, MainMoves());
      st := Apply(c, st, a);
      trace := trace + [a];
    }

    lemma Safe()
      requires Valid()
      ensures Inv(c, st)
    {
      StartInv(c);
      RunKeeps(c, Start(c), trace);
    }

    lemma ReaderBalanced()
      requires Valid()
      ensures Tally(trace, Reads()) == Tally(trace, HandsOver()) + ReaderHolds(st)
    {
      StartInv(c);
      ReaderBalances(c, Start(c), trace);
    }

    lemma WorkerBalanced(w: nat)
      requires Valid()
      ensures Tally(trace, TakesBy(w)) == Tally(trace, EndsBy(w)) + WorkerHolds(st, w)
    {
      StartInv(c);
      WorkerBalances(c, Start(c), trace, w);
    }

    twostate predicate Grew()
      reads this
    {
      Valid() && old(trace) <= trace && (old(st).cancelled ==> st.cancelled)
    }

    /** Any steps of anyone but the main goroutine; callers know no more than the contract. */
    method OthersRunMain()
      requires Valid()
      modifies this
      ensures Grew() && st.main == old(st).main && st.tasksClosed == old(st).tasksClosed && Moved() == old(Moved())
    {
      var steps: nat :| true;
      while steps > 0
        invariant Grew() && st.main == old(st).main && st.tasksClosed == old(st).tasksClosed && Moved() == old(Moved())
      {
        var a: Action :| true;
        if (!MainStep(a) || a.Cancel?) && Enabled(c, st, a) {
          OthersDoNotMoveUs(c, st, a);
          Do(a);
        }
        steps := steps - 1;
      }
    }

    /** Any steps of anyone but worker w. */
    method OthersRunWorker(w: nat)
      requires Valid() && w < |st.workers|
      modifies this
      ensures Grew() && |st.workers| == |old(st).workers| && st.workers[w] == old(st).workers[w]
    {
      var steps: nat :| true;
      while steps > 0
        invariant Grew() && |st.workers| == |old(st).workers| && st.workers[w] == old(st).workers[w]
      {
        var a: Action :| true;
        if !(WorkerStep(a) && a.w == w) && Enabled(c, st, a) {
          OthersDoNotMoveUs(c, st, a);
          Do(a);
        }
        steps := steps - 1;
      }
    }

    /** Any steps of anyone but the batcher. */
    method OthersRunSaver()
      requires Valid()
      modifies this
      ensures Grew() && st.saver == old(st).saver && st.saves == old(st).saves && st.received == old(st).received
    {
      var steps: nat :| true;
      while steps > 0
        invariant Grew() && SameSaver(old(st), st)
      {
        var a: Action :| true;
        if (MainStep(a) || WorkerStep(a)) && Enabled(c, st, a) {
          OthersDoNotMoveUs(c, st, a);
          Do(a);
        }
        steps := steps - 1;
      }
    }

    // ---------- readLoop and Run ----------

    /** It stops only after cancellation, everything it has read has been offered or given up except the message in its
        hand, and it makes a step in every round until it blocks on a full channel. */
    method ReadLoop(rounds: nat) returns (stopped: bool)
      requires Valid() && st.main.Reading?
      modifies this
      ensures Grew()
      ensures (if stopped then st.main.ClosingTasks? && st.cancelled else st.main.Reading? || st.main.Offering?)
      ensures Tally(trace, Reads()) == Tally(trace, HandsOver()) + ReaderHolds(st)
      ensures !stopped && st.main.Reading? ==> Moved() >= old(Moved()) + rounds
      ensures st.main.Offering? ==> st.TasksFull(c)
    {
      stopped := false;
      var n := 0;
      while n < rounds && st.main.Reading?
        invariant Grew()
        invariant (if stopped then st.main.ClosingTasks? && st.cancelled else st.main.Reading? || st.main.Offering?)
        invariant n <= rounds && (st.main.Reading? ==> Moved() >= old(Moved()) + n)
        invariant st.main.Offering? ==> st.TasksFull(c)
      {
        stopped := ReadMessage(rounds);
        n := n + 1;
      }
      ReaderBalanced();
    }

    /** One round: a failed read, a message that does not decode, or one that is offered to the workers. */
    method ReadMessage(rounds: nat) returns (stopped: bool)
      requires Valid() && st.main.Reading?
      modifies this
      ensures Grew()
      ensures (if stopped then st.main.ClosingTasks? && st.cancelled else st.main.Reading? || st.main.Offering?)
      ensures Moved() > old(Moved())
      ensures st.main.Offering? && rounds > 0 ==> st.TasksFull(c)
    {
      OthersRunMain();
      var arrives, decodes: bool := *, *;
      if !arrives && st.cancelled {
        Do(StopReading);
        return true;
      } else if !arrives || !decodes {
        Do(Skip);
        return false;
      }
      Do(Read);
      var gone, _ := SendTask(rounds);
      return gone;
    }

    /** select { tasks <- raw; <-ctx.Done() } */
    method SendTask(rounds: nat) returns (gone: bool, sent: bool)
      requires Valid() && st.main.Offering?
      modifies this
      ensures Grew() && Moved() >= old(Moved()) && (gone ==> st.cancelled)
      ensures st.main == if gone then ClosingTasks else if sent then Reading else old(st).main
      ensures sent ==> !gone
      // It stays where it is only if it could do neither.
      ensures !gone && !sent && rounds > 0 ==> st.TasksFull(c)
    {
      for n := 0 to rounds
        invariant Grew() && st.main == old(st).main && Moved() >= old(Moved())
        invariant n > 0 ==> st.TasksFull(c)
      {
        OthersRunMain();
        Safe();
        var preferDone: bool := *;
        if st.cancelled && (preferDone || |st.tasks| >= c.Capacity()) { Do(DropTask); return true, false; }
        if |st.tasks| < c.Capacity() { Do(OfferTask); return false, true; }
      }
      return false, false;
    }

    /** Read, close tasks, wait for the workers, close results, wait for the batcher. */
    method Run(rounds: nat) returns (returned: bool)
      requires Valid() && st.main.Reading?
      modifies this
      ensures Grew() && (returned <==> st.main.Returned?)
      // Until then it has read for all rounds, or waits for what is not there yet.
      ensures !returned ==>
          || (st.main.Reading? && Moved() >= old(Moved()) + rounds)
          || (st.main.Offering? && st.TasksFull(c))
          || (st.main.AwaitingWorkers? && exists w :: 0 <= w < |st.workers| && !st.workers[w].Done?)
          || (st.main.AwaitingSaver? && !st.saver.Gone?)
      ensures returned ==> st.saver.Gone? && Concat(st.saves) == st.received && st.cancelled && !st.panicked
    {
      var stopped := ReadLoop(rounds);
      if !stopped { return false; }
      Do(CloseTasks);
      OthersRunMain();
      if exists w :: 0 <= w < |st.workers| && !st.workers[w].Done? { return false; }
      Do(WorkersDone);
      OthersRunMain();
      returned := CloseAndWait();
    }

    method CloseAndWait() returns (returned: bool)
      requires Valid() && st.main.ClosingResults? && st.cancelled
      modifies this
      ensures Grew() && (returned <==> st.main.Returned?)
      ensures !returned ==> st.main.AwaitingSaver? && !st.saver.Gone?
      ensures returned ==> st.saver.Gone? && Concat(st.saves) == st.received && st.cancelled && !st.panicked
    {
      Do(CloseResults);
      OthersRunMain();
      if !st.saver.Gone? { return false; }
      Do(SaverDone);
      Safe();
      assert Concat(st.saves) + [] == Concat(st.saves);
      return true;
    }

    // ---------- workerLoop ----------

    /** It finishes only when tasks is closed and empty, or after cancellation; every task it has taken has been handed
        on or dropped except the one in its hand. Until it blocks on a full channel, it takes a task in every round but
        those in which it found none. */
    method WorkerLoop(w: nat, rounds: nat) returns (finished: bool, ghost blocked: seq<nat>)
      requires Valid() && w < |st.workers| && st.workers[w].Idle?
      modifies this
      ensures Grew() && w < |st.workers| && (finished <==> st.workers[w].Done?)
      ensures finished ==> st.cancelled || (st.tasksClosed && st.tasks == [])
      ensures Tally(trace, TakesBy(w)) == Tally(trace, EndsBy(w)) + WorkerHolds(st, w)
      ensures NoTasks(c, trace, |old(trace)|, blocked)
      ensures st.workers[w].Idle? ==> Tally(trace, TakesBy(w)) + |blocked| >= Tally(old(trace), TakesBy(w)) + rounds
      ensures !finished && !st.workers[w].Idle? ==> st.ResultsFull(c)
    {
      finished, blocked := false, [];
      var n := 0;
      while n < rounds && w < |st.workers| && st.workers[w].Idle?
        invariant Grew() && w < |st.workers| && (finished <==> st.workers[w].Done?)
        invariant finished ==> st.cancelled || (st.tasksClosed && st.tasks == [])
        invariant NoTasks(c, trace, |old(trace)|, blocked) && n <= rounds
        invariant st.workers[w].Idle? ==> Tally(trace, TakesBy(w)) + |blocked| >= Tally(old(trace), TakesBy(w)) + n
        invariant !finished && !st.workers[w].Idle? ==> st.ResultsFull(c)
      {
        n := n + 1;
        finished, blocked := WorkerRound(w, rounds, |old(trace)|, blocked);
      }
      WorkerBalanced(w);
    }

    /** One round: a task if there is one, the end of the loop if there will be none, else the worker is blocked. */
    method WorkerRound(w: nat, rounds: nat, ghost from: nat, ghost blocked: seq<nat>)
      returns (finished: bool, ghost still: seq<nat>)
      requires Valid() && w < |st.workers| && st.workers[w].Idle?
      requires from <= |trace| && NoTasks(c, trace, from, blocked)
      modifies this
      ensures Grew() && w < |st.workers| && (finished <==> st.workers[w].Done?)
      ensures finished ==> st.cancelled || (st.tasksClosed && st.tasks == [])
      ensures NoTasks(c, trace, from, still)
      ensures st.workers[w].Idle? ==>
          Tally(trace, TakesBy(w)) + |still| >= Tally(old(trace), TakesBy(w)) + |blocked| + 1
      ensures !finished && !st.workers[w].Idle? && rounds > 0 ==> st.ResultsFull(c)
    {
      finished, still := false, blocked;
      OthersRunWorker(w);
      NoTasksStay(c, old(trace), trace, from, blocked);
      CountsGrow(old(trace), trace, TakesBy(w));
      ghost var before := trace;
      if st.tasks != [] {
        finished := HandleTask(w, rounds);
        NoTasksStay(c, before, trace, from, blocked);
      } else if st.tasksClosed {
        Do(TasksExhausted(w));
        NoTasksStay(c, before, trace, from, blocked);
        finished := true;
      } else {
        assert trace[..|trace|] == trace;
        assert forall k :: 0 <= k < |blocked| ==> NoTaskAt(c, trace, blocked[k]);
        still := blocked + [|trace|];
      }
    }

    method HandleTask(w: nat, rounds: nat) returns (gone: bool)
      requires Valid() && w < |st.workers| && st.workers[w].Idle? && st.tasks != []
      modifies this
      ensures Grew() && w < |st.workers| && (gone <==> st.workers[w].Done?) && (gone ==> st.cancelled)
      ensures Tally(trace, TakesBy(w)) >= Tally(old(trace), TakesBy(w)) + 1
      ensures !gone && !st.workers[w].Idle? && rounds > 0 ==> st.ResultsFull(c)
    {
      Do(TakeTask(w));
      OthersRunWorker(w);
      var stored: bool := *;
      Do(Processed(w, stored));
      gone := false;
      if stored {
        var left, _ := SendResult(w, rounds);
        gone := left;
      }
      CountedOnce(old(trace), TakeTask(w), trace, TakesBy(w));
    }

    /** select { results <- processed; <-ctx.Done() } */
    method SendResult(w: nat, rounds: nat) returns (gone: bool, sent: bool)
      requires Valid() && w < |st.workers| && st.workers[w].Publishing?
      modifies this
      ensures Grew() && |st.workers| == |old(st).workers|
      ensures st.workers[w] == if gone then Done else if sent then Idle else old(st).workers[w]
      ensures sent ==> !gone
      ensures gone ==> st.cancelled
      ensures !gone && !sent && rounds > 0 ==> st.ResultsFull(c)
    {
      for n := 0 to rounds
        invariant Grew() && |st.workers| == |old(st).workers| && st.workers[w] == old(st).workers[w]
        invariant n > 0 ==> st.ResultsFull(c)
      {
        OthersRunWorker(w);
        Safe();
        var preferDone: bool := *;
        if st.cancelled && (preferDone || |st.results| >= c.Capacity()) { Do(DropResult(w)); return true, false; }
        if |st.results| < c.Capacity() {
          assert !st.resultsClosed;
          Do(OfferResult(w));
          return false, true;
        }
      }
      return false, false;
    }

    // ---------- saveBatcher ----------

    /** case item := <-results */
    method TakeResult(batch: seq<nat>) returns (rest: seq<nat>)
      requires Valid() && st.saver == Collecting(batch) && st.results != []
      modifies this
      ensures Grew() && st.saver == Collecting(rest)
      ensures Tally(trace, SaverMoves()) >= Tally(old(trace), SaverMoves()) + 1
    {
      var item := st.results[0];
      Do(Collect);
      rest := batch + [item];
      if |rest| >= c.batchSize {
        AwaitSave(rest, false);
        rest := [];
      }
      CountedOnce(old(trace), Collect, trace, SaverMoves());
    }

    /** flush: nothing to do for an empty batch; the last one also ends the goroutine. */
    method Flushed(why: Action, batch: seq<nat>)
      requires Valid() && st.saver == Collecting(batch) && Enabled(c, st, why)
      requires why.Tick? || why.StopSaving? || why.ResultsExhausted?
      modifies this
      ensures Grew() && st.saver == if why.Tick? then Collecting([]) else Gone
      ensures Tally(trace, SaverMoves()) >= Tally(old(trace), SaverMoves()) + 1
    {
      Do(why);
      if batch != [] { AwaitSave(batch, !why.Tick?); }
      CountedOnce(old(trace), why, trace, SaverMoves());
    }

    /** The local batch is what the batcher has taken and not yet handed over; every call carries the batch as it
        stands. It makes a step in every round but those in which nothing was ready: no result, no end of the
        results, no tick, no cancellation. */
    method SaveBatcher(rounds: nat) returns (finished: bool, ghost blocked: seq<nat>)
      requires Valid() && st.saver == Collecting([])
      modifies this
      ensures Grew() && (finished <==> st.saver.Gone?)
      ensures Concat(st.saves) + Batch(st) == st.received
      ensures forall i :: 0 <= i < |st.saves| ==> 1 <= |st.saves[i]| <= c.batchSize
      ensures NoResults(c, trace, |old(trace)|, blocked)
      ensures !finished ==> Tally(trace, SaverMoves()) + |blocked| >= Tally(old(trace), SaverMoves()) + rounds
    {
      var batch: seq<nat> := [];
      finished, blocked := false, [];
      var n := 0;
      while n < rounds && !finished
        invariant Grew() && st.saver == (if finished then Gone else Collecting(batch)) && n <= rounds
        invariant NoResults(c, trace, |old(trace)|, blocked)
        invariant Tally(trace, SaverMoves()) + |blocked| >= Tally(old(trace), SaverMoves()) + n
      {
        n := n + 1;
        finished, batch, blocked := Select(batch, |old(trace)|, blocked);
      }
      Safe();
    }

    /** One round of the select: blocked if nothing is ready. */
    method Select(batch: seq<nat>, ghost from: nat, ghost blocked: seq<nat>)
      returns (finished: bool, rest: seq<nat>, ghost still: seq<nat>)
      requires Valid() && st.saver == Collecting(batch)
      requires from <= |trace| && NoResults(c, trace, from, blocked)
      modifies this
      ensures Grew() && st.saver == (if finished then Gone else Collecting(rest))
      ensures NoResults(c, trace, from, still)
      ensures Tally(trace, SaverMoves()) + |still| >= Tally(old(trace), SaverMoves()) + |blocked| + 1
    {
      OthersRunSaver();
      NoResultsStay(c, old(trace), trace, from, blocked);
      CountsGrow(old(trace), trace, SaverMoves());
      var ticks: bool := *;
      if st.results == [] && !st.resultsClosed && !ticks && !st.cancelled {
        BlockedNow(from, blocked);
        return false, batch, blocked + [|trace|];
      }
      ghost var before := trace;
      finished, rest := Proceed(batch, ticks);
      NoResultsStay(c, before, trace, from, blocked);
      still := blocked;
    }

    lemma BlockedNow(from: nat, blocked: seq<nat>)
      requires Valid() && from <= |trace| && NoResults(c, trace, from, blocked)
      requires st.results == [] && !st.resultsClosed && !st.cancelled
      ensures NoResults(c, trace, from, blocked + [|trace|])
    {
      assert trace[..|trace|] == trace;
      assert forall k :: 0 <= k < |blocked| ==> NoResultAt(c, trace, blocked[k]);
    }

    /** One of the cases that are ready, whichever it is. */
    method Proceed(batch: seq<nat>, ticks: bool) returns (finished: bool, rest: seq<nat>)
      requires Valid() && st.saver == Collecting(batch)
      requires st.results != [] || st.resultsClosed || st.cancelled || ticks
      modifies this
      ensures Grew() && st.saver == (if finished then Gone else Collecting(rest))
      ensures Tally(trace, SaverMoves()) >= Tally(old(trace), SaverMoves()) + 1
    {
      finished, rest := false, batch;
      var pick: nat := *;
      var receives := st.results != [] || st.resultsClosed;
      if ticks && (pick == 1 || (!receives && !st.cancelled)) {
        Flushed(Tick, batch);
        rest := [];
      } else if st.cancelled && (pick == 2 || !receives) {
        Flushed(StopSaving, batch);
        finished := true;
      } else if st.results != [] {
        rest := TakeResult(batch);
      } else {
        Flushed(ResultsExhausted, batch);
        finished := true;
      }
    }

    /** The outstanding save call, which carries this batch, returns. */
    method AwaitSave(batch: seq<nat>, last: bool)
      requires Valid() && st.saver == Saving(last) && st.saves != [] && st.saves[|st.saves| - 1] == batch
      modifies this
      ensures Grew() && st.saver == if last then Gone else Collecting([])
    {
      OthersRunSaver();
      Do(Saved);
    }
  }
}
