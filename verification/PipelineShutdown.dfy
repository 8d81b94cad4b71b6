/** After cancellation the processor cannot get stuck and must return. */
module PipelineShutdown {
  import opened Pipeline
  import opened PipelineSafety

  /** Steps the outside world chooses to grant: a message that still arrives, and the five-second tick. */
  predicate Granted(a: Action) { a.Read? || a.Skip? || a.Tick? }

  // ---------- No state is stuck ----------

  /** Some worker has not finished. */
  lemma {:induction false} FindRunning(ws: seq<Worker>) returns (w: nat)
    requires !forall v :: 0 <= v < |ws| ==> ws[v].Done?
    ensures w < |ws| && !ws[w].Done?
  {
    if ws[0].Done? {
      assert exists v :: 0 <= v < |ws| && !ws[v].Done?;
      var v :| 0 <= v < |ws| && !ws[v].Done?;
      w := v;
    } else {
      w := 0;
    }
  }

  /** After cancellation some step that needs no grant is possible until Run has returned. */
  lemma NeverStuck(c: Config, s: System)
    requires c.Valid() && Closing(c, s) && s.cancelled && !s.main.Returned?
    ensures exists a :: Enabled(c, s, a) && !Granted(a) && !a.Cancel?
  {
    match s.main
    case Reading => assert Enabled(c, s, StopReading);
    case Offering(_) => assert Enabled(c, s, DropTask);
    case ClosingTasks => assert Enabled(c, s, CloseTasks);
    case ClosingResults => assert Enabled(c, s, CloseResults);
    case AwaitingSaver =>
      if s.saver.Gone? { assert Enabled(c, s, SaverDone); }
      else if s.saver.Saving? { assert Enabled(c, s, Saved); }
      else { assert Enabled(c, s, StopSaving); }
    case AwaitingWorkers =>
      if forall v :: 0 <= v < |s.workers| ==> s.workers[v].Done? {
        assert Enabled(c, s, WorkersDone);
      } else {
        var w := FindRunning(s.workers);
        match s.workers[w]
        case Idle =>
          if s.tasks == [] { assert Enabled(c, s, TasksExhausted(w)); } else { assert Enabled(c, s, TakeTask(w)); }
        case Processing(_) => assert Enabled(c, s, Processed(w, true));
        case Publishing(_) => assert Enabled(c, s, DropResult(w));
      }
  }

  // ---------- Every step uses up something ----------

  function MainRank(m: Main): nat {
    match m
    case Reading => 5
    case Offering(_) => 12
    case ClosingTasks => 4
    case AwaitingWorkers => 3
    case ClosingResults => 2
    case AwaitingSaver => 1
    case Returned => 0
  }

  function WorkerRank(x: Worker): nat {
    match x
    case Idle => 1
    case Processing(_) => 6
    case Publishing(_) => 5
    case Done => 0
  }

  function WorkersRank(ws: seq<Worker>): nat {
    if ws == [] then 0 else WorkerRank(ws[0]) + WorkersRank(ws[1..])
  }

  function SaverRank(x: Saver): nat {
    match x
    case Collecting(batch) => 2 + 2 * |batch|
    case Saving(last) => if last then 1 else 3
    case Gone => 0
  }

  function Rank(s: System): nat {
    MainRank(s.main) + 6 * |s.tasks| + WorkersRank(s.workers) + 3 * |s.results| + SaverRank(s.saver) +
      (if s.cancelled then 0 else 1)
  }

  lemma {:induction false} WorkersRankUpdate(ws: seq<Worker>, w: nat, x: Worker)
    requires w < |ws|
    ensures WorkersRank(ws[w := x]) == WorkersRank(ws) - WorkerRank(ws[w]) + WorkerRank(x)
  {
    if w == 0 {
      assert ws[0 := x][1..] == ws[1..];
    } else {
      assert ws[w := x][1..] == ws[1..][w - 1 := x];
      WorkersRankUpdate(ws[1..], w - 1, x);
    }
  }

  const READ_COST: nat := 7

  lemma WorkerRankStep(c: Config, s: System, a: Action)
    requires Closing(c, s) && Enabled(c, s, a) && WorkerStep(a)
    ensures Rank(Apply(c, s, a)) < Rank(s)
  {
    WorkersRankUpdate(s.workers, a.w, Apply(c, s, a).workers[a.w]);
  }

  /** Every step lowers the rank, but a read may raise it by its cost, and a tick or a skipped message leaves it. */
  lemma RankStep(c: Config, s: System, a: Action)
    requires c.Valid() && Closing(c, s) && Enabled(c, s, a)
    ensures !Granted(a) ==> Rank(Apply(c, s, a)) < Rank(s)
    ensures a.Read? ==> Rank(Apply(c, s, a)) <= Rank(s) + READ_COST
    ensures a.Skip? || a.Tick? ==> Rank(Apply(c, s, a)) <= Rank(s)
  {
    if WorkerStep(a) { WorkerRankStep(c, s, a); }
  }

  function Reads(acts: seq<Action>): nat
  {
    if acts == [] then 0 else (if acts[0].Read? then 1 else 0) + Reads(acts[1..])
  }

  function OwnSteps(acts: seq<Action>): nat
  {
    if acts == [] then 0 else (if Granted(acts[0]) then 0 else 1) + OwnSteps(acts[1..])
  }

  /** In any run the steps that need no grant are bounded by where the run starts and by how many messages arrive. */
  lemma {:induction false} StepsAreBounded(c: Config, s: System, acts: seq<Action>)
    requires c.Valid() && Closing(c, s) && Legal(c, s, acts)
    ensures OwnSteps(acts) + Rank(After(c, s, acts)) <= Rank(s) + READ_COST * Reads(acts)
    decreases |acts|
  {
    if acts == [] {
    } else {
      RankStep(c, s, acts[0]);
      StepCloses(c, s, acts[0]);
      StepsAreBounded(c, Apply(c, s, acts[0]), acts[1..]);
    }
  }

  lemma {:induction false} CancelLasts(c: Config, s: System, acts: seq<Action>)
    requires s.cancelled && Legal(c, s, acts)
    ensures After(c, s, acts).cancelled
    decreases |acts|
  {
    if acts == [] {
    } else {
      CancelLasts(c, Apply(c, s, acts[0]), acts[1..]);
    }
  }

  /** A run from a cancelled state in which no more messages arrive and that has made as many steps of its own as the
      starting rank has returned; and one that cannot make another step of its own has returned. */
  lemma CancellationEndsRun(c: Config, before: seq<Action>, acts: seq<Action>)
    requires c.Valid() && Legal(c, Start(c), before) && After(c, Start(c), before).cancelled
    requires Legal(c, After(c, Start(c), before), acts)
    ensures var s := After(c, Start(c), before); var t := After(c, s, acts);
            && OwnSteps(acts) <= Rank(s) + READ_COST * Reads(acts)
            && (t.main.Returned? <==> forall a :: Enabled(c, t, a) && !a.Cancel? ==> Granted(a))
            && (Reads(acts) == 0 && OwnSteps(acts) == Rank(s) ==> t.main.Returned?)
  {
    StartInv(c);
    RunKeeps(c, Start(c), before);
    var s := After(c, Start(c), before);
    RunKeeps(c, s, acts);
    var t := After(c, s, acts);
    StepsAreBounded(c, s, acts);
    CancelLasts(c, s, acts);
    if !t.main.Returned? { NeverStuck(c, t); }
  }

  /** From every reachable cancelled state the return of Run is in reach, without any grant. */
  lemma {:induction false} WayToReturn(c: Config, s: System) returns (acts: seq<Action>)
    requires c.Valid() && Closing(c, s) && s.cancelled
    ensures Legal(c, s, acts) && After(c, s, acts).main.Returned? && forall a :: a in acts ==> !Granted(a)
    decreases Rank(s)
  {
    if s.main.Returned? {
      acts := [];
    } else {
      NeverStuck(c, s);
      var a :| Enabled(c, s, a) && !Granted(a) && !a.Cancel?;
      RankStep(c, s, a);
      StepCloses(c, s, a);
      var rest := WayToReturn(c, Apply(c, s, a));
      acts := [a] + rest;
      assert acts[1..] == rest;
    }
  }
}
