/** The news processor as a transition system: a reader, workers and a batcher over two
    bounded channels, with cancellation.  Messages are numbered in the order they are decoded. */
module Pipeline {

  datatype Main =
    Reading | Offering(m: nat) | ClosingTasks | AwaitingWorkers | ClosingResults | AwaitingSaver | Returned

  datatype Worker = Idle | Processing(m: nat) | Publishing(m: nat) | Done

  /** Collecting holds the current batch; Saving has handed it over and waits for the call. */
  datatype Saver = Collecting(batch: seq<nat>) | Saving(last: bool) | Gone

  datatype Config = Config(workers: nat, batchSize: nat) {
    predicate Valid() { workers >= 1 && batchSize >= 1 }
    function Capacity(): nat { workers * 2 }
  }

  datatype System = System(
    main: Main,
    workers: seq<Worker>,
    saver: Saver,
    tasks: seq<nat>, tasksClosed: bool,
    results: seq<nat>, resultsClosed: bool,
    cancelled: bool,
    panicked: bool,             // a send on, or a second close of, a closed channel
    decoded: nat,               // history: messages decoded so far
    dropped: seq<nat>,          // history: given up by the reader or a worker
    received: seq<nat>,         // history: taken from results, in order
    offered: seq<nat>,          // history: put into results, in order
    saves: seq<seq<nat>>)       // history: arguments of the save calls, in order
  {
    /** Neither can a task be offered, nor the offer be given up. */
    predicate TasksFull(c: Config) { |tasks| >= c.Capacity() && !cancelled }

    predicate ResultsFull(c: Config) { |results| >= c.Capacity() && !cancelled }
  }

  function Start(c: Config): System {
    System(Reading, seq(c.workers, i => Idle), Collecting([]), [], false, [], false, false, false, 0, [], [], [], [])
  }

  datatype Action =
    | Cancel
    | Read                      // a message arrives and decodes
    | Skip                      // a message that does not decode, or a read error before cancellation
    | StopReading               // a read fails after cancellation
    | OfferTask                 // tasks <- raw
    | DropTask                  // ctx.Done() while offering
    | CloseTasks
    | WorkersDone               // wg.Wait returns
    | CloseResults
    | SaverDone                 // <-saveDone
    | TakeTask(w: nat)
    | TasksExhausted(w: nat)    // range ends: closed and empty
    | Processed(w: nat, stored: bool)
    | OfferResult(w: nat)
    | DropResult(w: nat)        // ctx.Done() while offering
    | Collect
    | ResultsExhausted          // receive from the closed, empty channel
    | Tick
    | StopSaving                // ctx.Done()
    | Saved                     // the save call returns, with or without an error

  predicate Enabled(c: Config, s: System, a: Action) {
    match a
    case Cancel => !s.cancelled
    case Read => s.main.Reading?
    case Skip => s.main.Reading?
    case StopReading => s.main.Reading? && s.cancelled
    case OfferTask => s.main.Offering? && (s.tasksClosed || |s.tasks| < c.Capacity())
    case DropTask => s.main.Offering? && s.cancelled
    case CloseTasks => s.main.ClosingTasks?
    case WorkersDone => s.main.AwaitingWorkers? && forall w :: 0 <= w < |s.workers| ==> s.workers[w].Done?
    case CloseResults => s.main.ClosingResults?
    case SaverDone => s.main.AwaitingSaver? && s.saver.Gone?
    case TakeTask(w) => w < |s.workers| && s.workers[w].Idle? && s.tasks != []
    case TasksExhausted(w) => w < |s.workers| && s.workers[w].Idle? && s.tasks == [] && s.tasksClosed
    case Processed(w, _) => w < |s.workers| && s.workers[w].Processing?
    case OfferResult(w) => w < |s.workers| && s.workers[w].Publishing? &&
        (s.resultsClosed || |s.results| < c.Capacity())
    case DropResult(w) => w < |s.workers| && s.workers[w].Publishing? && s.cancelled
    case Collect => s.saver.Collecting? && s.results != []
    case ResultsExhausted => s.saver.Collecting? && s.results == [] && s.resultsClosed
    case Tick => s.saver.Collecting?
    case StopSaving => s.saver.Collecting? && s.cancelled
    case Saved => s.saver.Saving?
  }

  /** flush: an empty batch makes no call. */
  function Flush(s: System, batch: seq<nat>, last: bool): System {
    if batch == [] then s.(saver := if last then Gone else Collecting([]))
    else s.(saver := Saving(last), saves := s.saves + [batch])
  }

  function SetWorker(s: System, w: nat, x: Worker): System
    requires w < |s.workers|
  {
    s.(workers := s.workers[w := x])
  }

  function Apply(c: Config, s: System, a: Action): System
    requires Enabled(c, s, a)
  {
    match a
    case Cancel => s.(cancelled := true)
    case Read => s.(main := Offering(s.decoded), decoded := s.decoded + 1)
    case Skip => s
    case StopReading => s.(main := ClosingTasks)
    case OfferTask => if s.tasksClosed then s.(panicked := true) else s.(main := Reading, tasks := s.tasks + [s.main.m])
    case DropTask => s.(main := ClosingTasks, dropped := s.dropped + [s.main.m])
    case CloseTasks => s.(main := AwaitingWorkers, tasksClosed := true, panicked := s.panicked || s.tasksClosed)
    case WorkersDone => s.(main := ClosingResults)
    case CloseResults => s.(main := AwaitingSaver, resultsClosed := true, panicked := s.panicked || s.resultsClosed)
    case SaverDone => s.(main := Returned)
    case TakeTask(w) => SetWorker(s, w, Processing(s.tasks[0])).(tasks := s.tasks[1..])
    case TasksExhausted(w) => SetWorker(s, w, Done)
    case Processed(w, stored) =>
      var m := s.workers[w].m;
      if stored then SetWorker(s, w, Publishing(m))
      else SetWorker(s, w, Idle).(dropped := s.dropped + [m])
    case OfferResult(w) =>
      var m := s.workers[w].m;
      if s.resultsClosed then s.(panicked := true)
      else SetWorker(s, w, Idle).(results := s.results + [m], offered := s.offered + [m])
    case DropResult(w) => SetWorker(s, w, Done).(dropped := s.dropped + [s.workers[w].m])
    case Collect =>
      var batch := s.saver.batch + [s.results[0]];
      var t := s.(results := s.results[1..], received := s.received + [s.results[0]]);
      if |batch| >= c.batchSize then Flush(t, batch, false) else t.(saver := Collecting(batch))
    case ResultsExhausted => Flush(s, s.saver.batch, true)
    case Tick => Flush(s, s.saver.batch, false)
    case StopSaving => Flush(s, s.saver.batch, true)
    case Saved => s.(saver := if s.saver.last then Gone else Collecting([]))
  }

  // ---------- Runs ----------

  predicate Legal(c: Config, s: System, acts: seq<Action>)
    decreases |acts|
  {
    acts == [] || (Enabled(c, s, acts[0]) && Legal(c, Apply(c, s, acts[0]), acts[1..]))
  }

  function After(c: Config, s: System, acts: seq<Action>): System
    requires Legal(c, s, acts)
    decreases |acts|
  {
    if acts == [] then s else After(c, Apply(c, s, acts[0]), acts[1..])
  }

  lemma {:induction false} AfterAppend(c: Config, s: System, acts: seq<Action>, a: Action)
    requires Legal(c, s, acts) && Enabled(c, After(c, s, acts), a)
    ensures Legal(c, s, acts + [a]) && After(c, s, acts + [a]) == Apply(c, After(c, s, acts), a)
    decreases |acts|
  {
    var all := acts + [a];
    if acts == [] {
      assert all[1..] == [];
    } else {
      assert all[0] == acts[0] && all[1..] == acts[1..] + [a];
      AfterAppend(c, Apply(c, s, acts[0]), acts[1..], a);
    }
  }
}
