/** The threads of analyze_workspace and analyze_files (src/ast-workspace.cpp:485-602): scanner or feeder, workers, and
the main thread that joins them.

A step is one critical section of the queue, one analysis, one merge under the workspace's mutex, or one join. Any
sleeper may wake spuriously.
*/
module AnalyzePipeline {
  import opened Ast
  import opened Options
  import opened Sequences
  import opened Measures
  import opened Queues
  import opened Worlds
  import opened Workspaces

  datatype Config = Config(w: World, disk: Disk, paths: seq<Text>, capacity: nat, workers: nat)

  predicate Sane(c: Config) {
    c.capacity > 0 && c.workers > 0
  }

  const QUEUE_CAPACITY := 256

  /** analyze_workspace: a worker per physical core, but at least one. */
  function WorkspaceConfig(w: World, d: Disk, paths: seq<Text>, cores: nat): Config {
    Config(w, d, paths, QUEUE_CAPACITY, if cores > 1 then cores else 1)
  }

  /** analyze_files on a non-empty list: no more places and workers than files. */
  function FilesConfig(w: World, d: Disk, files: seq<Text>, cores: nat): Config {
    var n := |files|;
    var workers := if cores > 1 && n > 1 then if cores < n then cores else n else 1;
    Config(w, d, files, if n < QUEUE_CAPACITY then n else QUEUE_CAPACITY, workers)
  }

  /** Whatever the machine, the queue has room and somebody works. */
  lemma ConfigsAreSane(w: World, d: Disk, paths: seq<Text>, cores: nat)
    ensures Sane(WorkspaceConfig(w, d, paths, cores))
    ensures paths != [] <==> Sane(FilesConfig(w, d, paths, cores))
  {
  }

  /** What a worker is at: taking a path, analysing it, about to merge the result, or gone. */
  datatype Worker = Taking | Analysing(path: Text) | Merging(path: Text, result: Option<LoadedUnit>) | Left

  datatype State = State(
    rest: seq<Text>,            // paths the scanner has still to push
    files: Queue<Text>,
    workers: seq<Worker>,
    ws: Memory,
    finished: bool,
    merged: seq<Text>)          // history: paths whose results were merged, in order

  const SCANNER: nat := 0

  function Start(c: Config): State {
    State(c.paths, Fresh(c.capacity), seq(c.workers, i => Taking), Opened(None), false, [])
  }

  datatype Step =
    | ScanPush(wake: Option<nat>)
    | ScanClose
    | WorkerTake(worker: nat, wake: Option<nat>)
    | WorkerAnalyse(worker: nat)
    | WorkerMerge(worker: nat)
    | Join
    | WakeScanner
    | WakeTaker(worker: nat)

  predicate IsSpurious(e: Step) {
    e.WakeScanner? || e.WakeTaker?
  }

  predicate AllLeft(workers: seq<Worker>) {
    forall i :: 0 <= i < |workers| ==> workers[i].Left?
  }

  predicate CanStep(s: State, e: Step) {
    match e
    case ScanPush(w) => s.rest != [] && SCANNER !in s.files.pushWait && ValidWake(s.files.popWait, w)
    case ScanClose => s.rest == [] && s.files.phase < 3
    case WorkerTake(i, w) => i < |s.workers| && s.workers[i].Taking? && i !in s.files.popWait && ValidWake(s.files.pushWait, w)
    case WorkerAnalyse(i) => i < |s.workers| && s.workers[i].Analysing?
    case WorkerMerge(i) => i < |s.workers| && s.workers[i].Merging?
    case Join => s.files.phase == 3 && AllLeft(s.workers) && !s.finished
    case WakeScanner => SCANNER in s.files.pushWait
    case WakeTaker(i) => i in s.files.popWait
  }

  function ScanPushed(s: State, w: Option<nat>): State
    requires s.rest != []
  {
    s.(files := Push(s.files, SCANNER, s.rest[0], w), rest := if CanPush(s.files) then s.rest[1..] else s.rest)
  }

  function WorkerTook(s: State, i: nat, w: Option<nat>): State
    requires i < |s.workers|
  {
    var files := Pop(s.files, i, w);
    match Outcome(s.files)
    case Slept => s.(files := files)
    case Closed => s.(files := files, workers := s.workers[i := Left])
    case Got(p) => s.(files := files, workers := s.workers[i := Analysing(p)])
  }

  function WorkerAnalysed(c: Config, s: State, i: nat): State
    requires i < |s.workers| && s.workers[i].Analysing?
  {
    var p := s.workers[i].path;
    s.(workers := s.workers[i := Merging(p, AnalysisOf(c.w, c.disk, p))])
  }

  function WorkerMerged(c: Config, s: State, i: nat): State
    requires i < |s.workers| && s.workers[i].Merging?
  {
    var x := s.workers[i];
    s.(workers := s.workers[i := Taking], ws := MergeResult(c.w, s.ws, x.result), merged := s.merged + [x.path])
  }

  function After(c: Config, s: State, e: Step): State
    requires CanStep(s, e)
  {
    match e
    case ScanPush(w) => ScanPushed(s, w)
    case ScanClose => s.(files := Close(s.files))
    case WorkerTake(i, w) => WorkerTook(s, i, w)
    case WorkerAnalyse(i) => WorkerAnalysed(c, s, i)
    case WorkerMerge(i) => WorkerMerged(c, s, i)
    case Join => s.(finished := true)
    case WakeScanner => s.(files := WakePush(s.files, Some(SCANNER)))
    case WakeTaker(i) => s.(files := WakePop(s.files, Some(i)))
  }

  // ---- The queue ------------------------------------------------------------

  ghost predicate FilesOk(c: Config, s: State) {
    Inv(s.files) && s.files.capacity == c.capacity
  }

  /** What a step does to the queue, if anything. */
  function FileEvent(s: State, e: Step): Option<Event<Text>>
    requires CanStep(s, e)
  {
    match e
    case ScanPush(w) => Some(PushTry(SCANNER, s.rest[0], w))
    case ScanClose => Some(CloseStep)
    case WorkerTake(i, w) => Some(PopTry(i, w))
    case WakeScanner => Some(SpuriousPush(SCANNER))
    case WakeTaker(i) => Some(SpuriousPop(i))
    case _ => None
  }

  /** The queue only ever sees the events of its own transition system. */
  lemma FilesFollow(c: Config, s: State, e: Step)
    requires CanStep(s, e)
    ensures FileEvent(s, e).None? ==> After(c, s, e).files == s.files
    ensures FileEvent(s, e).Some? ==> Enabled(s.files, FileEvent(s, e).value) && After(c, s, e).files == Next(s.files, FileEvent(s, e).value)
  {
  }

  lemma FilesKept(c: Config, s: State, e: Step)
    requires FilesOk(c, s) && CanStep(s, e)
    ensures FilesOk(c, After(c, s, e))
  {
    FilesFollow(c, s, e);
    var event := FileEvent(s, e);
    if event.Some? {
      NextKeepsInv(s.files, event.value);
      CapacityKept(s.files, event.value);
    }
  }

  /** Whoever waits or was woken on the queue is a thread that is at the queue. */
  ghost predicate WaitersOk(s: State) {
    && s.files.pushWait + s.files.pushWoken <= {SCANNER}
    && (s.files.pushWait + s.files.pushWoken != {} ==> s.rest != [])
    && (forall i :: i in s.files.popWait + s.files.popWoken ==> i < |s.workers| && s.workers[i].Taking?)
  }

  lemma WaitersAfterTake(s: State, i: nat, w: Option<nat>)
    requires WaitersOk(s) && CanStep(s, WorkerTake(i, w))
    ensures WaitersOk(WorkerTook(s, i, w))
  {
    var t := WorkerTook(s, i, w);
    forall j | j in t.files.popWait + t.files.popWoken ensures j < |t.workers| && t.workers[j].Taking? {
      assert j in s.files.popWait + s.files.popWoken || j == i;
    }
  }

  lemma WaitersKept(c: Config, s: State, e: Step)
    requires WaitersOk(s) && CanStep(s, e)
    ensures WaitersOk(After(c, s, e))
  {
    match e
    case WorkerTake(i, w) => WaitersAfterTake(s, i, w);
    case _ =>
  }

  /** The queue closes after the last path, and workers leave when it is closed and empty. */
  ghost predicate ShutdownOk(c: Config, s: State) {
    && |s.workers| == c.workers
    && (s.files.phase > 0 ==> s.rest == [])
    && (forall i :: 0 <= i < |s.workers| && s.workers[i].Left? ==> s.files.phase > 0 && s.files.items == [])
    && (s.finished ==> s.files.phase == 3 && AllLeft(s.workers))
  }

  lemma ShutdownAfterTake(c: Config, s: State, i: nat, w: Option<nat>)
    requires ShutdownOk(c, s) && CanStep(s, WorkerTake(i, w))
    ensures ShutdownOk(c, WorkerTook(s, i, w))
  {
  }

  lemma ShutdownKept(c: Config, s: State, e: Step)
    requires ShutdownOk(c, s) && CanStep(s, e)
    ensures ShutdownOk(c, After(c, s, e))
  {
    match e
    case WorkerTake(i, w) => ShutdownAfterTake(c, s, i, w);
    case _ =>
  }

  // ---- Conservation ---------------------------------------------------------

  predicate Holds(x: Worker, p: Text) {
    (x.Analysing? || x.Merging?) && x.path == p
  }

  function Holder(p: Text): Worker -> nat {
    (x: Worker) => if Holds(x, p) then 1 else 0
  }

  function HeldCount(workers: seq<Worker>, p: Text): nat {
    Sum(Holder(p), workers)
  }

  lemma HeldUpdate(workers: seq<Worker>, i: nat, x: Worker, p: Text)
    requires i < |workers|
    ensures HeldCount(workers[i := x], p) + (if Holds(workers[i], p) then 1 else 0)
         == HeldCount(workers, p) + if Holds(x, p) then 1 else 0
  {
    SumUpdate(Holder(p), workers, i, x);
  }

  ghost predicate Balanced(s: State, p: Text) {
    Occurs(s.files.taken, p) == Occurs(s.merged, p) + HeldCount(s.workers, p)
  }

  /** Every path is with the scanner, in the queue, with exactly one worker, or merged. */
  ghost predicate FlowOk(c: Config, s: State) {
    && c.paths == s.files.taken + s.files.items + s.rest
    && forall p :: Balanced(s, p)
  }

  /** A worker with empty hands takes `q`. */
  lemma {:induction false} WorkerTakes(taken: seq<Text>, merged: seq<Text>, workers: seq<Worker>, i: nat, p: Text, q: Text)
    requires i < |workers| && workers[i].Taking? && Occurs(taken, p) == Occurs(merged, p) + HeldCount(workers, p)
    ensures Occurs(taken + [q], p) == Occurs(merged, p) + HeldCount(workers[i := Analysing(q)], p)
  {
    HeldUpdate(workers, i, Analysing(q), p);
    OccursSnoc(taken, q, p);
  }

  lemma BalancedAfterTake(s: State, i: nat, w: Option<nat>, p: Text)
    requires Balanced(s, p) && CanStep(s, WorkerTake(i, w))
    ensures Balanced(WorkerTook(s, i, w), p)
  {
    NextMoves(s.files, PopTry(i, w));
    if Outcome(s.files).Got? {
      WorkerTakes(s.files.taken, s.merged, s.workers, i, p, s.files.items[0]);
    } else if Outcome(s.files).Closed? {
      HeldUpdate(s.workers, i, Left, p);
    }
  }

  lemma BalancedAfterAnalyse(c: Config, s: State, i: nat, p: Text)
    requires Balanced(s, p) && CanStep(s, WorkerAnalyse(i))
    ensures Balanced(WorkerAnalysed(c, s, i), p)
  {
    HeldUpdate(s.workers, i, WorkerAnalysed(c, s, i).workers[i], p);
  }

  /** A worker lets go of its path, which is merged. */
  lemma {:induction false} WorkerMerges(taken: seq<Text>, merged: seq<Text>, workers: seq<Worker>, i: nat, p: Text)
    requires i < |workers| && workers[i].Merging? && Occurs(taken, p) == Occurs(merged, p) + HeldCount(workers, p)
    ensures Occurs(taken, p) == Occurs(merged + [workers[i].path], p) + HeldCount(workers[i := Taking], p)
  {
    HeldUpdate(workers, i, Taking, p);
    OccursSnoc(merged, workers[i].path, p);
  }

  lemma BalancedAfterMerge(c: Config, s: State, i: nat, p: Text)
    requires Balanced(s, p) && CanStep(s, WorkerMerge(i))
    ensures Balanced(WorkerMerged(c, s, i), p)
  {
    WorkerMerges(s.files.taken, s.merged, s.workers, i, p);
  }

  lemma BalancedKept(c: Config, s: State, e: Step, p: Text)
    requires Balanced(s, p) && CanStep(s, e)
    ensures Balanced(After(c, s, e), p)
  {
    match e
    case WorkerTake(i, w) => BalancedAfterTake(s, i, w, p);
    case WorkerAnalyse(i) => BalancedAfterAnalyse(c, s, i, p);
    case WorkerMerge(i) => BalancedAfterMerge(c, s, i, p);
    case _ =>
  }

  lemma PathsKept(c: Config, s: State, e: Step)
    requires c.paths == s.files.taken + s.files.items + s.rest && ShutdownOk(c, s) && CanStep(s, e)
    ensures var t := After(c, s, e); c.paths == t.files.taken + t.files.items + t.rest
  {
    FilesFollow(c, s, e);
    var event := FileEvent(s, e);
    if event.Some? {
      NextMoves(s.files, event.value);
    }
    if e.ScanPush? {
      assert s.rest == [s.rest[0]] + s.rest[1..];
    }
  }

  lemma FlowKept(c: Config, s: State, e: Step)
    requires FlowOk(c, s) && ShutdownOk(c, s) && CanStep(s, e)
    ensures FlowOk(c, After(c, s, e))
  {
    PathsKept(c, s, e);
    forall p ensures Balanced(After(c, s, e), p) {
      BalancedKept(c, s, e, p);
    }
  }

  // ---- Results --------------------------------------------------------------

  /** merge_result over the analyses of `paths`, one after the other. */
  function Merged(w: World, d: Disk, paths: seq<Text>): Memory {
    if paths == [] then Opened(None)
    else MergeResult(w, Merged(w, d, paths[..|paths| - 1]), AnalysisOf(w, d, paths[|paths| - 1]))
  }

  /** What is about to be merged is the analysis of its path, and what was merged is the workspace. */
  ghost predicate ResultsOk(c: Config, s: State) {
    && (forall i :: 0 <= i < |s.workers| && s.workers[i].Merging? ==> s.workers[i].result == AnalysisOf(c.w, c.disk, s.workers[i].path))
    && s.ws == Merged(c.w, c.disk, s.merged)
  }

  lemma ResultsAfterMerge(c: Config, s: State, i: nat)
    requires ResultsOk(c, s) && CanStep(s, WorkerMerge(i))
    ensures ResultsOk(c, WorkerMerged(c, s, i))
  {
    assert (s.merged + [s.workers[i].path])[..|s.merged|] == s.merged;
  }

  lemma ResultsKept(c: Config, s: State, e: Step)
    requires ResultsOk(c, s) && CanStep(s, e)
    ensures ResultsOk(c, After(c, s, e))
  {
    match e
    case WorkerMerge(i) => ResultsAfterMerge(c, s, i);
    case _ =>
  }

  // ---- Runs -----------------------------------------------------------------

  ghost predicate Good(c: Config, s: State) {
    FilesOk(c, s) && WaitersOk(s) && ShutdownOk(c, s) && FlowOk(c, s) && ResultsOk(c, s)
  }

  lemma StartIsGood(c: Config)
    ensures Good(c, Start(c))
  {
    var s := Start(c);
    FreshInv<Text>(c.capacity);
    assert [] + [] + c.paths == c.paths;
    forall p ensures Balanced(s, p) {
      SumZero(Holder(p), s.workers);
    }
  }

  /** Every step of every thread keeps the invariant. */
  lemma GoodKept(c: Config, s: State, e: Step)
    requires Good(c, s) && CanStep(s, e)
    ensures Good(c, After(c, s, e))
  {
    FilesKept(c, s, e);
    WaitersKept(c, s, e);
    ShutdownKept(c, s, e);
    FlowKept(c, s, e);
    ResultsKept(c, s, e);
  }

  predicate Possible(c: Config, s: State, run: seq<Step>)
    decreases |run|
  {
    run == [] || (CanStep(s, run[0]) && Possible(c, After(c, s, run[0]), run[1..]))
  }

  function Final(c: Config, s: State, run: seq<Step>): State
    requires Possible(c, s, run)
    decreases |run|
  {
    if run == [] then s else Final(c, After(c, s, run[0]), run[1..])
  }

  lemma {:induction false} RunsStayGood(c: Config, s: State, run: seq<Step>)
    requires Good(c, s) && Possible(c, s, run)
    ensures Good(c, Final(c, s, run))
    decreases |run|
  {
    if run != [] {
      GoodKept(c, s, run[0]);
      RunsStayGood(c, After(c, s, run[0]), run[1..]);
    }
  }

  /** A finished run has merged every scanned path, as often as it was scanned, and nothing else. */
  lemma {:induction false} FinishedMergesAll(c: Config, run: seq<Step>)
    requires Sane(c) && Possible(c, Start(c), run) && Final(c, Start(c), run).finished
    ensures var s := Final(c, Start(c), run);
      SameItems(s.merged, c.paths) && s.ws == Merged(c.w, c.disk, s.merged)
  {
    var s := Final(c, Start(c), run);
    StartIsGood(c);
    RunsStayGood(c, Start(c), run);
    assert s.workers[0].Left?;
    assert s.files.taken + [] + [] == s.files.taken;
    forall p ensures Occurs(s.merged, p) == Occurs(c.paths, p) {
      assert Balanced(s, p);
      SumZero(Holder(p), s.workers);
    }
  }

  // ---- No deadlock ----------------------------------------------------------

  lemma WorkerActs(s: State, i: nat) returns (e: Step)
    requires i < |s.workers| && !s.workers[i].Left? && i !in s.files.popWait
    ensures CanStep(s, e) && !IsSpurious(e)
  {
    match s.workers[i]
    case Taking =>
      var w := PickWake(s.files.pushWait);
      e := WorkerTake(i, w);
    case Analysing(_) => e := WorkerAnalyse(i);
    case Merging(_, _) => e := WorkerMerge(i);
  }

  /** The scanner sleeps on the full queue: some worker can go on. */
  lemma ScannerIsServed(c: Config, s: State) returns (e: Step)
    requires Sane(c) && FilesOk(c, s) && WaitersOk(s) && ShutdownOk(c, s) && SCANNER in s.files.pushWait
    ensures CanStep(s, e) && !IsSpurious(e)
  {
    assert SCANNER in s.files.pushWait + s.files.pushWoken;
    SoleSleeper(s.files.pushWait, s.files.pushWoken, SCANNER);
    assert s.files.items != [];
    if 0 in s.files.popWait {
      SleepersAreServed(s.files);
      var t :| t in s.files.popWoken;
      assert t in s.files.popWait + s.files.popWoken;
      e := WorkerActs(s, t);
    } else {
      e := WorkerActs(s, 0);
    }
  }

  /** No deadlock: every state that is not finished has a step other than a spurious wakeup. */
  lemma SomeStepIsPossible(c: Config, s: State) returns (e: Step)
    requires Sane(c) && FilesOk(c, s) && WaitersOk(s) && ShutdownOk(c, s) && !s.finished
    ensures CanStep(s, e) && !IsSpurious(e)
  {
    if s.rest != [] {
      if SCANNER in s.files.pushWait {
        e := ScannerIsServed(c, s);
      } else {
        var w := PickWake(s.files.popWait);
        e := ScanPush(w);
      }
    } else if s.files.phase < 3 {
      e := ScanClose;
    } else if i :| 0 <= i < |s.workers| && !s.workers[i].Left? {
      e := WorkerActs(s, i);
    } else {
      e := Join;
    }
  }

  // ---- Termination ----------------------------------------------------------

  function EachWork(): Worker -> nat {
    (x: Worker) => match x case Taking => 1 case Analysing(_) => 3 case Merging(_, _) => 2 case Left => 0
  }

  /** Each path costs four steps on its way into the workspace; closing and joining cost the rest. */
  function Work(s: State): nat
    requires s.files.phase <= 3
  {
    4 * |s.rest| + 3 * |s.files.items| + Sum(EachWork(), s.workers) + (3 - s.files.phase) + if s.finished then 0 else 1
  }

  function Sleepers(s: State): nat {
    |s.files.popWait| + |s.files.pushWait|
  }

  ghost predicate Bounded(c: Config, s: State) {
    s.files.phase <= 3 && ShutdownOk(c, s) && WaitersOk(s)
  }

  /** How a step moves work and sleepers. */
  ghost predicate Moves(s: State, e: Step, t: State)
    requires s.files.phase <= 3
  {
    && t.files.phase <= 3
    && if IsSpurious(e) then Work(t) == Work(s) && Sleepers(t) + 1 == Sleepers(s)
       else Work(t) < Work(s) || (Work(t) == Work(s) && Sleepers(t) == Sleepers(s) + 1)
  }

  lemma TakeMoves(s: State, i: nat, w: Option<nat>)
    requires s.files.phase <= 3 && CanStep(s, WorkerTake(i, w))
    ensures Moves(s, WorkerTake(i, w), WorkerTook(s, i, w))
  {
    SumUpdate(EachWork(), s.workers, i, WorkerTook(s, i, w).workers[i]);
    if !CanPop(s.files) {
      AddOne(s.files.popWait, i);
    }
  }

  lemma WorkerMoves(c: Config, s: State, e: Step)
    requires s.files.phase <= 3 && CanStep(s, e) && (e.WorkerAnalyse? || e.WorkerMerge?)
    ensures Moves(s, e, After(c, s, e))
  {
    SumUpdate(EachWork(), s.workers, e.worker, After(c, s, e).workers[e.worker]);
  }

  lemma ScanMoves(s: State, w: Option<nat>)
    requires s.files.phase <= 3 && CanStep(s, ScanPush(w))
    ensures Moves(s, ScanPush(w), ScanPushed(s, w))
  {
    if !CanPush(s.files) {
      AddOne(s.files.pushWait, SCANNER);
    }
  }

  lemma MainMoves(c: Config, s: State, e: Step)
    requires s.files.phase <= 3 && CanStep(s, e) && (e.ScanClose? || e.Join?)
    ensures Moves(s, e, After(c, s, e))
  {
  }

  lemma StepMoves(c: Config, s: State, e: Step)
    requires s.files.phase <= 3 && CanStep(s, e)
    ensures Moves(s, e, After(c, s, e))
  {
    match e
    case ScanPush(w) => ScanMoves(s, w);
    case WorkerTake(i, w) => TakeMoves(s, i, w);
    case WorkerAnalyse(_) => WorkerMoves(c, s, e);
    case WorkerMerge(_) => WorkerMoves(c, s, e);
    case WakeScanner => DropOne(s.files.pushWait, SCANNER);
    case WakeTaker(i) => DropOne(s.files.popWait, i);
    case ScanClose => MainMoves(c, s, e);
    case Join => MainMoves(c, s, e);
  }

  lemma SleepersBound(c: Config, s: State)
    requires Bounded(c, s)
    ensures Sleepers(s) <= c.workers + 1
  {
    forall t | t in s.files.popWait ensures t < c.workers {
      assert t in s.files.popWait + s.files.popWoken;
    }
    forall t | t in s.files.pushWait ensures t < 1 {
      assert t in s.files.pushWait + s.files.pushWoken;
    }
    BelowBound(s.files.popWait, c.workers);
    BelowBound(s.files.pushWait, 1);
  }

  function Measure(c: Config, s: State): int
    requires s.files.phase <= 3
  {
    Score(c.workers + 1, Work(s), Sleepers(s))
  }

  /** The measure is natural, and falls on every step but spurious wakeups, each of which raises it by one. */
  lemma MeasureFalls(c: Config, s: State, e: Step)
    requires Bounded(c, s) && CanStep(s, e)
    ensures Bounded(c, After(c, s, e))
    ensures if IsSpurious(e) then Measure(c, After(c, s, e)) == Measure(c, s) + 1 else Measure(c, After(c, s, e)) < Measure(c, s)
  {
    StepMoves(c, s, e);
    ShutdownKept(c, s, e);
    WaitersKept(c, s, e);
    SleepersBound(c, s);
    var t := After(c, s, e);
    if Work(t) < Work(s) {
      ScoreFalls(c.workers + 1, Work(s), Sleepers(s), Work(t), Sleepers(t));
    }
  }

  function SpuriousIn(run: seq<Step>): nat {
    if run == [] then 0 else (if IsSpurious(run[0]) then 1 else 0) + SpuriousIn(run[1..])
  }

  lemma {:induction false} RunIsShort(c: Config, s: State, run: seq<Step>)
    requires Bounded(c, s) && Possible(c, s, run)
    ensures |run| <= Measure(c, s) + 2 * SpuriousIn(run)
    decreases |run|
  {
    SleepersBound(c, s);
    ScoreIsNatural(c.workers + 1, Work(s), Sleepers(s));
    if run != [] {
      MeasureFalls(c, s, run[0]);
      RunIsShort(c, After(c, s, run[0]), run[1..]);
    }
  }

  /** Every run ends: its length is bounded by the start's measure and twice the spurious wakeups. */
  lemma {:induction false} EveryRunEnds(c: Config, run: seq<Step>)
    requires Possible(c, Start(c), run)
    ensures |run| <= Measure(c, Start(c)) + 2 * SpuriousIn(run)
  {
    StartIsGood(c);
    RunIsShort(c, Start(c), run);
  }

  /** And it cannot stop early: a run that has not finished can go on without any spurious wakeup. */
  lemma EveryRunGoesOn(c: Config, run: seq<Step>) returns (e: Step)
    requires Sane(c) && Possible(c, Start(c), run) && !Final(c, Start(c), run).finished
    ensures CanStep(Final(c, Start(c), run), e) && !IsSpurious(e)
  {
    StartIsGood(c);
    RunsStayGood(c, Start(c), run);
    e := SomeStepIsPossible(c, Final(c, Start(c), run));
  }
}
