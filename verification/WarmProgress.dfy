/** Every run of the warming pipeline ends, and ends finished (src/cache-warm.cpp). */
module WarmProgress {
  import opened Options
  import opened Sequences
  import opened Measures
  import opened Queues
  import opened WarmPipeline

  // ---- No deadlock ----------------------------------------------------------

  /** A worker that is not asleep and has not left can act. */
  lemma WorkerActs(s: State, i: nat) returns (e: Step)
    requires i < |s.workers| && !s.workers[i].at.Left?
    requires i !in s.files.popWait && i !in s.writes.pushWait
    ensures CanStep(s, e) && !IsSpurious(e)
  {
    match s.workers[i].at
    case Taking =>
      var w := PickWake(s.files.pushWait);
      e := WorkerTake(i, w);
    case Warming(_) => e := WorkerWarm(i);
    case Offering(_, _) =>
      var w := PickWake(s.writes.popWait);
      e := WorkerOffer(i, w);
  }

  /** A writer that is not asleep and not gone can act. */
  lemma WriterActs(s: State) returns (e: Step)
    requires !s.writer.Gone? && WRITER !in s.writes.popWait
    ensures CanStep(s, e) && !IsSpurious(e)
  {
    if s.writer.Flushing? {
      e := WriterFlush;
    } else {
      var w := PickWake(s.writes.pushWait);
      e := WriterTake(w);
    }
  }

  /** Workers asleep on the full write queue have an open writer to wait for. */
  ghost predicate WriterServes(c: Config, s: State) {
    c.writerReady || s.writes.pushWait == {}
  }

  /** A worker asleep on the full write queue: a woken worker or the writer can act. */
  lemma OffererIsServed(c: Config, s: State, i: nat) returns (e: Step)
    requires Sane(c) && WriterServes(c, s) && WritesOk(c, s) && FileWaitersOk(s) && WriteWaitersOk(s) && ShutdownOk(c, s)
    requires i in s.writes.pushWait
    ensures CanStep(s, e) && !IsSpurious(e)
  {
    assert i in s.writes.pushWait + s.writes.pushWoken;
    assert s.writes.phase == 0;
    if |s.writes.items| < s.writes.capacity {
      SleepersAreServed(s.writes);
      var t :| t in s.writes.pushWoken;
      assert t in s.writes.pushWait + s.writes.pushWoken;
      NotTakingNotWaiting(s, t);
      e := WorkerActs(s, t);
    } else {
      if WRITER in s.writes.popWait {
        SoleSleeper(s.writes.popWait, s.writes.popWoken, WRITER);
      }
      e := WriterActs(s);
    }
  }

  lemma NotTakingNotWaiting(s: State, t: nat)
    requires FileWaitersOk(s) && t < |s.workers| && !s.workers[t].at.Taking?
    ensures t !in s.files.popWait
  {
    assert t in s.files.popWait ==> t in s.files.popWait + s.files.popWoken;
  }

  /** While paths remain in the pipeline, a worker that has not left is awake, or is served. */
  lemma WorkerOrHelper(c: Config, s: State, i: nat) returns (e: Step)
    requires Sane(c) && WriterServes(c, s) && WritesOk(c, s) && FileWaitersOk(s) && WriteWaitersOk(s) && ShutdownOk(c, s)
    requires i < |s.workers| && !s.workers[i].at.Left? && i !in s.files.popWait
    ensures CanStep(s, e) && !IsSpurious(e)
  {
    if i in s.writes.pushWait {
      e := OffererIsServed(c, s, i);
    } else {
      e := WorkerActs(s, i);
    }
  }

  /** The scanner sleeps on the full file queue: some worker takes from it, or is helped to. */
  lemma ScannerIsServed(c: Config, s: State) returns (e: Step)
    requires Sane(c) && SomeReady(c.ready) && WriterServes(c, s) && FilesOk(c, s) && WritesOk(c, s) && FileWaitersOk(s) && WriteWaitersOk(s) && ShutdownOk(c, s)
    requires SCANNER in s.files.pushWait
    ensures CanStep(s, e) && !IsSpurious(e)
  {
    assert SCANNER in s.files.pushWait + s.files.pushWoken;
    assert s.files.phase == 0;
    SoleSleeper(s.files.pushWait, s.files.pushWoken, SCANNER);
    assert s.files.items != [];
    var i :| 0 <= i < |c.ready| && c.ready[i];
    if i in s.files.popWait {
      SleepersAreServed(s.files);
      var t :| t in s.files.popWoken;
      assert t in s.files.popWait + s.files.popWoken;
      e := WorkerOrHelper(c, s, t);
    } else {
      e := WorkerOrHelper(c, s, i);
    }
  }

  /** With all paths scanned and the file queue closed, workers, main thread and writer finish one after the other. */
  lemma ShutdownGoesOn(c: Config, s: State) returns (e: Step)
    requires Sane(c) && WriterServes(c, s) && FilesOk(c, s) && WritesOk(c, s) && FileWaitersOk(s) && WriteWaitersOk(s) && ShutdownOk(c, s)
    requires s.files.phase == 3 && !s.finished
    ensures CanStep(s, e) && !IsSpurious(e)
  {
    if i :| 0 <= i < |s.workers| && !s.workers[i].at.Left? {
      e := WorkerOrHelper(c, s, i);
    } else if s.writes.phase < 3 {
      e := MainClose;
    } else if !s.writer.Gone? {
      e := WriterActs(s);
    } else {
      e := CleanUp;
    }
  }

  /** No deadlock: every state that is not finished has a step other than a spurious wakeup. */
  lemma SomeStepIsPossible(c: Config, s: State) returns (e: Step)
    requires Sane(c) && SomeReady(c.ready) && WriterServes(c, s) && FilesOk(c, s) && WritesOk(c, s) && FileWaitersOk(s) && WriteWaitersOk(s) && ShutdownOk(c, s)
    requires !s.finished
    ensures CanStep(s, e) && !IsSpurious(e)
  {
    if s.rest != [] {
      if SCANNER in s.files.pushWait {
        e := ScannerIsServed(c, s);
      } else {
        var w := PickWake(s.files.popWait);
        e := ScanPush(w);
      }
    } else if s.files.phase < 3 {
      e := ScanClose;
    } else {
      e := ShutdownGoesOn(c, s);
    }
  }

  // ---- Termination ----------------------------------------------------------

  /** Work a thread has still to do for what it holds, and to leave. */
  function WorkerWork(at: Activity): nat {
    match at
    case Taking => 1
    case Warming(_) => 5
    case Offering(_, _) => 4
    case Left => 0
  }

  function EachWork(): Worker -> nat {
    (x: Worker) => WorkerWork(x.at)
  }

  function WorkersWork(workers: seq<Worker>): nat {
    Sum(EachWork(), workers)
  }

  function WriterWork(w: Writer): nat {
    match w
    case Collecting(batch) => 2 + |batch|
    case Flushing(batch, last) => (if last then 1 else 2) + |batch|
    case Gone => 0
  }

  /** Each path costs six steps on its way to the database; closing, joining and cleaning up cost the rest. */
  function Work(s: State): nat
    requires s.files.phase <= 3 && s.writes.phase <= 3
  {
    6 * |s.rest| + 5 * |s.files.items| + WorkersWork(s.workers) + 2 * |s.writes.items| + WriterWork(s.writer)
    + (3 - s.files.phase) + (3 - s.writes.phase) + if s.finished then 0 else 1
  }

  function Sleepers(s: State): nat {
    |s.files.popWait| + |s.files.pushWait| + |s.writes.popWait| + |s.writes.pushWait|
  }

  lemma WorkUpdate(workers: seq<Worker>, i: nat, x: Worker)
    requires i < |workers|
    ensures WorkersWork(workers[i := x]) + WorkerWork(workers[i].at) == WorkersWork(workers) + WorkerWork(x.at)
  {
    SumUpdate(EachWork(), workers, i, x);
  }

  /** A step that puts its thread to sleep. */
  predicate Dozes(s: State, e: Step) {
    match e
    case ScanPush(_) => !CanPush(s.files)
    case WorkerTake(_, _) => !CanPop(s.files)
    case WorkerOffer(_, _) => !CanPush(s.writes)
    case WriterTake(_) => !CanPop(s.writes)
    case _ => false
  }

  ghost predicate PhasesOk(c: Config, s: State) {
    s.files.phase <= 3 && s.writes.phase <= 3 && ShutdownOk(c, s)
  }

  lemma WorkAfterTake(c: Config, s: State, i: nat, w: Option<nat>)
    requires PhasesOk(c, s) && CanStep(s, WorkerTake(i, w)) && CanPop(s.files)
    ensures var t := WorkerTook(s, i, w); t.files.phase <= 3 && t.writes.phase <= 3 && Work(t) < Work(s)
  {
    WorkUpdate(s.workers, i, WorkerTook(s, i, w).workers[i]);
  }

  lemma WorkAfterWarm(c: Config, s: State, i: nat)
    requires PhasesOk(c, s) && CanStep(s, WorkerWarm(i))
    ensures var t := WorkerWarmed(c, s, i); t.files.phase <= 3 && t.writes.phase <= 3 && Work(t) < Work(s)
  {
    WorkUpdate(s.workers, i, WorkerWarmed(c, s, i).workers[i]);
  }

  lemma WorkAfterOffer(c: Config, s: State, i: nat, w: Option<nat>)
    requires PhasesOk(c, s) && CanStep(s, WorkerOffer(i, w)) && CanPush(s.writes)
    ensures var t := WorkerOffered(s, i, w); t.files.phase <= 3 && t.writes.phase <= 3 && Work(t) < Work(s)
  {
    WorkUpdate(s.workers, i, WorkerOffered(s, i, w).workers[i]);
  }

  lemma WorkAfterOther(c: Config, s: State, e: Step)
    requires PhasesOk(c, s) && CanStep(s, e) && !IsSpurious(e) && !Dozes(s, e)
    requires !(e.WorkerTake? || e.WorkerWarm? || e.WorkerOffer?)
    ensures var t := After(c, s, e); t.files.phase <= 3 && t.writes.phase <= 3 && Work(t) < Work(s)
  {
  }

  /** Work falls on every step that neither dozes off nor wakes spuriously ... */
  lemma WorkFalls(c: Config, s: State, e: Step)
    requires PhasesOk(c, s) && CanStep(s, e) && !IsSpurious(e) && !Dozes(s, e)
    ensures PhasesOk(c, After(c, s, e)) && Work(After(c, s, e)) < Work(s)
  {
    ShutdownKept(c, s, e);
    match e
    case WorkerTake(i, w) => WorkAfterTake(c, s, i, w);
    case WorkerWarm(i) => WorkAfterWarm(c, s, i);
    case WorkerOffer(i, w) => WorkAfterOffer(c, s, i, w);
    case _ => WorkAfterOther(c, s, e);
  }

  /** ... and on the others it stays, while one more thread sleeps, or one fewer. */
  lemma DozeAddsSleeper(c: Config, s: State, e: Step)
    requires PhasesOk(c, s) && CanStep(s, e) && Dozes(s, e)
    ensures PhasesOk(c, After(c, s, e)) && Work(After(c, s, e)) == Work(s) && Sleepers(After(c, s, e)) == Sleepers(s) + 1
  {
    ShutdownKept(c, s, e);
    match e
    case ScanPush(_) => AddOne(s.files.pushWait, SCANNER);
    case WorkerTake(i, _) => AddOne(s.files.popWait, i);
    case WorkerOffer(i, _) => AddOne(s.writes.pushWait, i);
    case WriterTake(_) => AddOne(s.writes.popWait, WRITER);
  }

  lemma SpuriousDropsSleeper(c: Config, s: State, e: Step)
    requires PhasesOk(c, s) && CanStep(s, e) && IsSpurious(e)
    ensures PhasesOk(c, After(c, s, e)) && Work(After(c, s, e)) == Work(s) && Sleepers(After(c, s, e)) + 1 == Sleepers(s)
  {
    ShutdownKept(c, s, e);
    match e
    case WakeScanner => DropOne(s.files.pushWait, SCANNER);
    case WakeTaker(i) => DropOne(s.files.popWait, i);
    case WakeOfferer(i) => DropOne(s.writes.pushWait, i);
    case WakeWriter => DropOne(s.writes.popWait, WRITER);
  }

  /** More threads than can ever sleep at once. */
  function Threads(c: Config): nat {
    2 * |c.ready| + 2
  }

  lemma SleepersBound(c: Config, s: State)
    requires FileWaitersOk(s) && WriteWaitersOk(s) && |s.workers| == |c.ready|
    ensures Sleepers(s) <= Threads(c)
  {
    var n := |s.workers|;
    forall t | t in s.files.popWait ensures t < n {
      assert t in s.files.popWait + s.files.popWoken;
    }
    forall t | t in s.writes.pushWait ensures t < n {
      assert t in s.writes.pushWait + s.writes.pushWoken;
    }
    forall t | t in s.files.pushWait ensures t < 1 {
      assert t in s.files.pushWait + s.files.pushWoken;
    }
    forall t | t in s.writes.popWait ensures t < 1 {
      assert t in s.writes.popWait + s.writes.popWoken;
    }
    BelowBound(s.files.popWait, n);
    BelowBound(s.writes.pushWait, n);
    BelowBound(s.files.pushWait, 1);
    BelowBound(s.writes.popWait, 1);
  }

  function Measure(c: Config, s: State): int
    requires s.files.phase <= 3 && s.writes.phase <= 3
  {
    Score(Threads(c), Work(s), Sleepers(s))
  }

  ghost predicate Bounded(c: Config, s: State) {
    PhasesOk(c, s) && FileWaitersOk(s) && WriteWaitersOk(s)
  }

  lemma BoundedKept(c: Config, s: State, e: Step)
    requires Bounded(c, s) && CanStep(s, e)
    ensures Bounded(c, After(c, s, e))
  {
    ShutdownKept(c, s, e);
    FileWaitersKept(c, s, e);
    WriteWaitersKept(c, s, e);
    if IsSpurious(e) {
      SpuriousDropsSleeper(c, s, e);
    } else if Dozes(s, e) {
      DozeAddsSleeper(c, s, e);
    } else {
      WorkFalls(c, s, e);
    }
  }

  /** How a step moves work and sleepers. */
  lemma StepMoves(c: Config, s: State, e: Step)
    requires PhasesOk(c, s) && CanStep(s, e)
    ensures PhasesOk(c, After(c, s, e))
    ensures IsSpurious(e) ==> Work(After(c, s, e)) == Work(s) && Sleepers(After(c, s, e)) + 1 == Sleepers(s)
    ensures !IsSpurious(e) ==>
      Work(After(c, s, e)) < Work(s) || (Work(After(c, s, e)) == Work(s) && Sleepers(After(c, s, e)) == Sleepers(s) + 1)
  {
    if IsSpurious(e) {
      SpuriousDropsSleeper(c, s, e);
    } else if Dozes(s, e) {
      DozeAddsSleeper(c, s, e);
    } else {
      WorkFalls(c, s, e);
    }
  }

  lemma MeasureIsNatural(c: Config, s: State)
    requires Bounded(c, s)
    ensures 0 <= Measure(c, s)
  {
    SleepersBound(c, s);
    ScoreIsNatural(Threads(c), Work(s), Sleepers(s));
  }

  /** The measure falls on every step but spurious wakeups, each of which raises it by one. */
  lemma MeasureFalls(c: Config, s: State, e: Step)
    requires Bounded(c, s) && CanStep(s, e)
    ensures Bounded(c, After(c, s, e))
    ensures if IsSpurious(e) then Measure(c, After(c, s, e)) == Measure(c, s) + 1 else Measure(c, After(c, s, e)) < Measure(c, s)
  {
    BoundedKept(c, s, e);
    StepMoves(c, s, e);
    SleepersBound(c, s);
    var t := After(c, s, e);
    if Work(t) < Work(s) {
      ScoreFalls(Threads(c), Work(s), Sleepers(s), Work(t), Sleepers(t));
    }
  }

  function SpuriousIn(run: seq<Step>): nat {
    if run == [] then 0 else (if IsSpurious(run[0]) then 1 else 0) + SpuriousIn(run[1..])
  }

  lemma {:induction false} RunIsShort(c: Config, s: State, run: seq<Step>)
    requires Bounded(c, s) && Possible(c, s, run)
    ensures |run| <= Measure(c, s) + 2 * SpuriousIn(run)
    decreases |run|
  {
    MeasureIsNatural(c, s);
    if run != [] {
      MeasureFalls(c, s, run[0]);
      RunIsShort(c, After(c, s, run[0]), run[1..]);
    }
  }

  /** Every run ends: its length is bounded by the start's measure and twice the spurious wakeups. */
  lemma {:induction false} EveryRunEnds(c: Config, run: seq<Step>)
    requires Sane(c) && Possible(c, Start(c), run)
    ensures |run| <= Measure(c, Start(c)) + 2 * SpuriousIn(run)
  {
    StartIsGood(c);
    RunIsShort(c, Start(c), run);
  }

  /** And it cannot stop early: a run that has not finished can go on without any spurious wakeup. */
  lemma EveryRunGoesOn(c: Config, run: seq<Step>) returns (e: Step)
    requires Sound(c) && Possible(c, Start(c), run) && !Final(c, Start(c), run).finished
    ensures CanStep(Final(c, Start(c), run), e) && !IsSpurious(e)
  {
    StartIsGood(c);
    RunsStayGood(c, Start(c), run);
    e := SomeStepIsPossible(c, Final(c, Start(c), run));
  }
}
