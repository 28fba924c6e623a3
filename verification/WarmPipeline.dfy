/** The threads of warm_cache (src/cache-warm.cpp): scanner, workers, writer and the main thread that joins them.

A state is what all threads and both queues hold; a step is one critical section or one local action of one thread.
Threads block only in the queues, whose sleepers are part of the state, and any sleeper may wake spuriously.
*/
module WarmPipeline {
  import opened Ast
  import opened Options
  import opened Sequences
  import opened Queues
  import opened Worlds
  import opened CacheWarm

  /** `ready` and `writerReady` tell which workers opened the database, and whether the writer did; `verdict` decides
  about one file from the row it has; `rows` is the database before warming. */
  datatype Config = Config(
    paths: seq<Text>,
    ready: seq<bool>,
    writerReady: bool,
    fileCapacity: nat,
    writeCapacity: nat,
    batchLimit: nat,
    verdict: (Text, Option<Row>) -> Verdict,
    rows: Database)

  predicate SomeReady(ready: seq<bool>) {
    exists i :: 0 <= i < |ready| && ready[i]
  }

  /** Each path is scanned once, and requests are for the file decided on. */
  ghost predicate Sane(c: Config) {
    && Distinct(c.paths)
    && c.fileCapacity > 0 && c.writeCapacity > 0 && c.batchLimit > 0
    && (forall p, row :: c.verdict(p, row).request.Some? ==> c.verdict(p, row).request.value.path == p)
  }

  /** Besides, the writer and at least one worker opened the database. */
  ghost predicate Sound(c: Config) {
    Sane(c) && c.writerReady && SomeReady(c.ready)
  }

  /** What a worker is at: taking a path, warming it, offering its request, or gone. */
  datatype Activity = Taking | Warming(path: Text) | Offering(request: Request, counts: Counts) | Left

  datatype Worker = Worker(at: Activity, local: Counts)

  datatype Writer = Collecting(batch: seq<Request>) | Flushing(batch: seq<Request>, last: bool) | Gone

  datatype State = State(
    rest: seq<Text>,            // paths the scanner has still to push
    files: Queue<Text>,
    workers: seq<Worker>,
    writes: Queue<Request>,
    writer: Writer,
    db: Database,
    merged: Counts,
    finished: bool,
    settled: seq<Text>,         // history: paths dealt with, in order
    applied: seq<Request>)      // history: requests written, in order

  const SCANNER: nat := 0
  const WRITER: nat := 0

  function StartWorkers(ready: seq<bool>): (r: seq<Worker>)
    ensures |r| == |ready|
  {
    seq(|ready|, i requires 0 <= i < |ready| => Worker(if ready[i] then Taking else Left, NoCounts()))
  }

  function Start(c: Config): State {
    State(c.paths, Fresh(c.fileCapacity), StartWorkers(c.ready), Fresh(c.writeCapacity),
          if c.writerReady then Collecting([]) else Gone, c.rows, NoCounts(), false, [], [])
  }

  datatype Step =
    | ScanPush(wake: Option<nat>)
    | ScanClose
    | WorkerTake(worker: nat, wake: Option<nat>)
    | WorkerWarm(worker: nat)
    | WorkerOffer(worker: nat, wake: Option<nat>)
    | WriterTake(wake: Option<nat>)
    | WriterFlush
    | MainClose
    | CleanUp
    | WakeScanner
    | WakeTaker(worker: nat)
    | WakeOfferer(worker: nat)
    | WakeWriter

  predicate IsSpurious(e: Step) {
    e.WakeScanner? || e.WakeTaker? || e.WakeOfferer? || e.WakeWriter?
  }

  predicate AllLeft(workers: seq<Worker>) {
    forall i :: 0 <= i < |workers| ==> workers[i].at.Left?
  }

  predicate CanStep(s: State, e: Step) {
    match e
    case ScanPush(w) => s.rest != [] && SCANNER !in s.files.pushWait && ValidWake(s.files.popWait, w)
    case ScanClose => s.rest == [] && s.files.phase < 3
    case WorkerTake(i, w) => i < |s.workers| && s.workers[i].at.Taking? && i !in s.files.popWait && ValidWake(s.files.pushWait, w)
    case WorkerWarm(i) => i < |s.workers| && s.workers[i].at.Warming?
    case WorkerOffer(i, w) => i < |s.workers| && s.workers[i].at.Offering? && i !in s.writes.pushWait && ValidWake(s.writes.popWait, w)
    case WriterTake(w) => s.writer.Collecting? && WRITER !in s.writes.popWait && ValidWake(s.writes.pushWait, w)
    case WriterFlush => s.writer.Flushing?
    case MainClose => s.files.phase == 3 && AllLeft(s.workers) && s.writes.phase < 3
    case CleanUp => s.writes.phase == 3 && s.writer.Gone? && !s.finished
    case WakeScanner => SCANNER in s.files.pushWait
    case WakeTaker(i) => i in s.files.popWait
    case WakeOfferer(i) => i in s.writes.pushWait
    case WakeWriter => WRITER in s.writes.popWait
  }

  function Keep(paths: seq<Text>): set<Text> {
    set p | p in paths
  }

  function ScanPushed(s: State, w: Option<nat>): State
    requires s.rest != []
  {
    s.(files := Push(s.files, SCANNER, s.rest[0], w), rest := if CanPush(s.files) then s.rest[1..] else s.rest)
  }

  function WorkerTook(s: State, i: nat, w: Option<nat>): State
    requires i < |s.workers|
  {
    var files := Pop(s.files, i, w);
    match Outcome(s.files)
    case Slept => s.(files := files)
    case Closed => s.(files := files, workers := s.workers[i := Worker(Left, NoCounts())], merged := Plus(s.merged, s.workers[i].local))
    case Got(p) => s.(files := files, workers := s.workers[i := s.workers[i].(at := Warming(p))])
  }

  /** The worker reads the row and decides; without a request the file is settled at once. */
  function WorkerWarmed(c: Config, s: State, i: nat): State
    requires i < |s.workers| && s.workers[i].at.Warming?
  {
    var p, local := s.workers[i].at.path, s.workers[i].local;
    var v := c.verdict(p, RowAt(s.db, p));
    if v.request.None? then s.(workers := s.workers[i := Worker(Taking, Plus(local, v.counts))], settled := s.settled + [p])
    else s.(workers := s.workers[i := Worker(Offering(v.request.value, v.counts), local)])
  }

  /** The counters are bumped once push has returned. */
  function WorkerOffered(s: State, i: nat, w: Option<nat>): State
    requires i < |s.workers| && s.workers[i].at.Offering?
  {
    var at, local := s.workers[i].at, s.workers[i].local;
    var writes := Push(s.writes, i, at.request, w);
    if CanPush(s.writes)
    then s.(writes := writes, workers := s.workers[i := Worker(Taking, Plus(local, at.counts))], settled := s.settled + [at.request.path])
    else s.(writes := writes)
  }

  function WriterTook(c: Config, s: State, w: Option<nat>): State
    requires s.writer.Collecting?
  {
    var writes, batch := Pop(s.writes, WRITER, w), s.writer.batch;
    match Outcome(s.writes)
    case Slept => s.(writes := writes)
    case Closed => s.(writes := writes, writer := if batch == [] then Gone else Flushing(batch, true))
    case Got(r) =>
      var grown := batch + [r];
      s.(writes := writes, writer := if |grown| >= c.batchLimit then Flushing(grown, false) else Collecting(grown))
  }

  function WriterFlushed(s: State): State
    requires s.writer.Flushing?
  {
    s.(db := AppliedAll(s.db, s.writer.batch), applied := s.applied + s.writer.batch,
       writer := if s.writer.last then Gone else Collecting([]))
  }

  function After(c: Config, s: State, e: Step): State
    requires CanStep(s, e)
  {
    match e
    case ScanPush(w) => ScanPushed(s, w)
    case ScanClose => s.(files := Close(s.files))
    case WorkerTake(i, w) => WorkerTook(s, i, w)
    case WorkerWarm(i) => WorkerWarmed(c, s, i)
    case WorkerOffer(i, w) => WorkerOffered(s, i, w)
    case WriterTake(w) => WriterTook(c, s, w)
    case WriterFlush => WriterFlushed(s)
    case MainClose => s.(writes := Close(s.writes))
    case CleanUp => s.(db := Cleaned(s.db, Keep(c.paths)), finished := true)
    case WakeScanner => s.(files := WakePush(s.files, Some(SCANNER)))
    case WakeTaker(i) => s.(files := WakePop(s.files, Some(i)))
    case WakeOfferer(i) => s.(writes := WakePush(s.writes, Some(i)))
    case WakeWriter => s.(writes := WakePop(s.writes, Some(WRITER)))
  }

  // ---- Invariants -----------------------------------------------------------

  ghost predicate FilesOk(c: Config, s: State) {
    Inv(s.files) && s.files.capacity == c.fileCapacity
  }

  ghost predicate WritesOk(c: Config, s: State) {
    Inv(s.writes) && s.writes.capacity == c.writeCapacity
  }

  /** What a step does to the file queue, if anything. */
  function FileEvent(s: State, e: Step): Option<Event<Text>>
    requires CanStep(s, e)
  {
    match e
    case ScanPush(w) => Some(PushTry(SCANNER, s.rest[0], w))
    case ScanClose => Some(CloseStep)
    case WorkerTake(i, w) => Some(PopTry(i, w))
    case WakeScanner => Some(SpuriousPush(SCANNER))
    case WakeTaker(i) => Some(SpuriousPop(i))
    case _ => None
  }

  function WriteEvent(s: State, e: Step): Option<Event<Request>>
    requires CanStep(s, e)
  {
    match e
    case WorkerOffer(i, w) => Some(PushTry(i, s.workers[i].at.request, w))
    case WriterTake(w) => Some(PopTry(WRITER, w))
    case MainClose => Some(CloseStep)
    case WakeOfferer(i) => Some(SpuriousPush(i))
    case WakeWriter => Some(SpuriousPop(WRITER))
    case _ => None
  }

  /** Each queue only ever sees the events of its own transition system. */
  lemma FilesFollow(c: Config, s: State, e: Step)
    requires CanStep(s, e)
    ensures FileEvent(s, e).None? ==> After(c, s, e).files == s.files
    ensures FileEvent(s, e).Some? ==> Enabled(s.files, FileEvent(s, e).value) && After(c, s, e).files == Next(s.files, FileEvent(s, e).value)
  {
  }

  lemma WritesFollow(c: Config, s: State, e: Step)
    requires CanStep(s, e)
    ensures WriteEvent(s, e).None? ==> After(c, s, e).writes == s.writes
    ensures WriteEvent(s, e).Some? ==> Enabled(s.writes, WriteEvent(s, e).value) && After(c, s, e).writes == Next(s.writes, WriteEvent(s, e).value)
  {
  }

  lemma QueuesKept(c: Config, s: State, e: Step)
    requires FilesOk(c, s) && WritesOk(c, s) && CanStep(s, e)
    ensures FilesOk(c, After(c, s, e)) && WritesOk(c, After(c, s, e))
  {
    FilesFollow(c, s, e);
    WritesFollow(c, s, e);
    if FileEvent(s, e).Some? {
      NextKeepsInv(s.files, FileEvent(s, e).value);
      CapacityKept(s.files, FileEvent(s, e).value);
    }
    if WriteEvent(s, e).Some? {
      NextKeepsInv(s.writes, WriteEvent(s, e).value);
      CapacityKept(s.writes, WriteEvent(s, e).value);
    }
  }

  /** Whoever waits or was woken on a queue is a thread that is at that queue. */
  ghost predicate FileWaitersOk(s: State) {
    && s.files.pushWait + s.files.pushWoken <= {SCANNER}
    && (s.files.pushWait + s.files.pushWoken != {} ==> s.rest != [])
    && (forall i :: i in s.files.popWait + s.files.popWoken ==> i < |s.workers| && s.workers[i].at.Taking?)
  }

  ghost predicate WriteWaitersOk(s: State) {
    && s.writes.popWait + s.writes.popWoken <= {WRITER}
    && (s.writes.popWait + s.writes.popWoken != {} ==> s.writer.Collecting?)
    && (forall i :: i in s.writes.pushWait + s.writes.pushWoken ==> i < |s.workers| && s.workers[i].at.Offering?)
  }

  lemma FileWaitersAfterTake(s: State, i: nat, w: Option<nat>)
    requires FileWaitersOk(s) && CanStep(s, WorkerTake(i, w))
    ensures FileWaitersOk(WorkerTook(s, i, w))
  {
    var t := WorkerTook(s, i, w);
    forall j | j in t.files.popWait + t.files.popWoken ensures j < |t.workers| && t.workers[j].at.Taking? {
      assert j in s.files.popWait + s.files.popWoken || j == i;
    }
  }

  lemma FileWaitersAfterWorker(c: Config, s: State, e: Step)
    requires FileWaitersOk(s) && CanStep(s, e) && (e.WorkerWarm? || e.WorkerOffer?)
    ensures FileWaitersOk(After(c, s, e))
  {
  }

  lemma FileWaitersKept(c: Config, s: State, e: Step)
    requires FileWaitersOk(s) && CanStep(s, e)
    ensures FileWaitersOk(After(c, s, e))
  {
    match e
    case WorkerTake(i, w) => FileWaitersAfterTake(s, i, w);
    case WorkerWarm(_) => FileWaitersAfterWorker(c, s, e);
    case WorkerOffer(_, _) => FileWaitersAfterWorker(c, s, e);
    case _ =>
  }

  lemma WriteWaitersAfterOffer(s: State, i: nat, w: Option<nat>)
    requires WriteWaitersOk(s) && CanStep(s, WorkerOffer(i, w))
    ensures WriteWaitersOk(WorkerOffered(s, i, w))
  {
    var t := WorkerOffered(s, i, w);
    forall j | j in t.writes.pushWait + t.writes.pushWoken ensures j < |t.workers| && t.workers[j].at.Offering? {
      assert j in s.writes.pushWait + s.writes.pushWoken || j == i;
    }
  }

  lemma WriteWaitersAfterWorker(c: Config, s: State, e: Step)
    requires WriteWaitersOk(s) && CanStep(s, e) && (e.WorkerTake? || e.WorkerWarm?)
    ensures WriteWaitersOk(After(c, s, e))
  {
  }

  lemma WriteWaitersKept(c: Config, s: State, e: Step)
    requires WriteWaitersOk(s) && CanStep(s, e)
    ensures WriteWaitersOk(After(c, s, e))
  {
    match e
    case WorkerOffer(i, w) => WriteWaitersAfterOffer(s, i, w);
    case WorkerTake(_, _) => WriteWaitersAfterWorker(c, s, e);
    case WorkerWarm(_) => WriteWaitersAfterWorker(c, s, e);
    case _ =>
  }

  /** The shutdown order: the file queue closes after the last path, the write queue after the last worker. */
  ghost predicate ShutdownOk(c: Config, s: State) {
    && |s.workers| == |c.ready|
    && (s.files.phase > 0 ==> s.rest == [])
    && (s.writes.phase > 0 ==> s.files.phase == 3 && AllLeft(s.workers))
    && (forall i :: 0 <= i < |s.workers| && !c.ready[i] ==> s.workers[i].at.Left?)
    && (forall i :: 0 <= i < |s.workers| && c.ready[i] && s.workers[i].at.Left? ==> s.files.phase > 0 && s.files.items == [])
    && (!c.writerReady ==> s.writer.Gone?)
    && (c.writerReady && (s.writer.Gone? || (s.writer.Flushing? && s.writer.last)) ==> s.writes.phase > 0 && s.writes.items == [])
    && (s.writer.Flushing? ==> s.writer.batch != [])
    && (s.finished ==> s.writes.phase == 3 && s.writer.Gone?)
  }

  lemma ShutdownAfterTake(c: Config, s: State, i: nat, w: Option<nat>)
    requires ShutdownOk(c, s) && CanStep(s, WorkerTake(i, w))
    ensures ShutdownOk(c, WorkerTook(s, i, w))
  {
  }

  lemma ShutdownAfterWorker(c: Config, s: State, e: Step)
    requires ShutdownOk(c, s) && CanStep(s, e) && (e.WorkerWarm? || e.WorkerOffer?)
    ensures ShutdownOk(c, After(c, s, e))
  {
  }

  lemma ShutdownKept(c: Config, s: State, e: Step)
    requires ShutdownOk(c, s) && CanStep(s, e)
    ensures ShutdownOk(c, After(c, s, e))
  {
    match e
    case WorkerTake(i, w) => ShutdownAfterTake(c, s, i, w);
    case WorkerWarm(_) => ShutdownAfterWorker(c, s, e);
    case WorkerOffer(_, _) => ShutdownAfterWorker(c, s, e);
    case _ =>
  }

  // ---- Conservation ---------------------------------------------------------

  /** A worker at `at` has taken `p` and not settled it. */
  predicate Holds(at: Activity, p: Text) {
    match at
    case Warming(q) => q == p
    case Offering(r, _) => r.path == p
    case _ => false
  }

  function Holder(p: Text): Worker -> nat {
    (x: Worker) => if Holds(x.at, p) then 1 else 0
  }

  function HeldCount(workers: seq<Worker>, p: Text): nat {
    Sum(Holder(p), workers)
  }

  lemma HeldUpdate(workers: seq<Worker>, i: nat, x: Worker, p: Text)
    requires i < |workers|
    ensures HeldCount(workers[i := x], p) + (if Holds(workers[i].at, p) then 1 else 0)
         == HeldCount(workers, p) + if Holds(x.at, p) then 1 else 0
  {
    SumUpdate(Holder(p), workers, i, x);
  }

  lemma HeldMember(workers: seq<Worker>, i: nat, p: Text)
    requires i < |workers| && Holds(workers[i].at, p)
    ensures HeldCount(workers, p) > 0
  {
    SumMember(Holder(p), workers, i);
  }

  lemma NobodyHolds(workers: seq<Worker>, p: Text)
    requires forall i :: 0 <= i < |workers| ==> workers[i].at.Taking? || workers[i].at.Left?
    ensures HeldCount(workers, p) == 0
  {
    SumZero(Holder(p), workers);
  }

  ghost predicate Balanced(s: State, p: Text) {
    Occurs(s.files.taken, p) == Occurs(s.settled, p) + HeldCount(s.workers, p)
  }

  /** Every path is with the scanner, in the queue, with exactly one worker, or settled. */
  ghost predicate FlowOk(c: Config, s: State) {
    && c.paths == s.files.taken + s.files.items + s.rest
    && forall p :: Balanced(s, p)
  }

  /** A worker goes on without taking or settling `p`. */
  lemma {:induction false} WorkerMoves(taken: seq<Text>, settled: seq<Text>, workers: seq<Worker>, i: nat, x: Worker, p: Text)
    requires i < |workers| && Occurs(taken, p) == Occurs(settled, p) + HeldCount(workers, p)
    requires Holds(workers[i].at, p) == Holds(x.at, p)
    ensures Occurs(taken, p) == Occurs(settled, p) + HeldCount(workers[i := x], p)
  {
    HeldUpdate(workers, i, x, p);
  }

  /** A worker with empty hands takes `q`. */
  lemma {:induction false} WorkerTakes(taken: seq<Text>, settled: seq<Text>, workers: seq<Worker>, i: nat, x: Worker, p: Text, q: Text)
    requires i < |workers| && Occurs(taken, p) == Occurs(settled, p) + HeldCount(workers, p)
    requires !Holds(workers[i].at, p) && Holds(x.at, p) == (q == p)
    ensures Occurs(taken + [q], p) == Occurs(settled, p) + HeldCount(workers[i := x], p)
  {
    HeldUpdate(workers, i, x, p);
    OccursSnoc(taken, q, p);
  }

  /** A worker lets go of `q`, which is settled. */
  lemma {:induction false} WorkerSettles(taken: seq<Text>, settled: seq<Text>, workers: seq<Worker>, i: nat, x: Worker, p: Text, q: Text)
    requires i < |workers| && Occurs(taken, p) == Occurs(settled, p) + HeldCount(workers, p)
    requires Holds(workers[i].at, p) == (q == p) && !Holds(x.at, p)
    ensures Occurs(taken, p) == Occurs(settled + [q], p) + HeldCount(workers[i := x], p)
  {
    HeldUpdate(workers, i, x, p);
    OccursSnoc(settled, q, p);
  }

  lemma BalancedAfterTake(s: State, i: nat, w: Option<nat>, p: Text)
    requires Balanced(s, p) && CanStep(s, WorkerTake(i, w))
    ensures Balanced(WorkerTook(s, i, w), p)
  {
    var t := WorkerTook(s, i, w);
    NextMoves(s.files, PopTry(i, w));
    if Outcome(s.files).Got? {
      WorkerTakes(s.files.taken, s.settled, s.workers, i, t.workers[i], p, s.files.items[0]);
    } else if Outcome(s.files).Closed? {
      WorkerMoves(s.files.taken, s.settled, s.workers, i, t.workers[i], p);
    }
  }

  lemma VerdictIsForPath(c: Config, p: Text, row: Option<Row>)
    requires Sane(c)
    ensures c.verdict(p, row).request.Some? ==> c.verdict(p, row).request.value.path == p
  {
  }

  lemma BalancedAfterWarm(c: Config, s: State, i: nat, p: Text)
    requires Balanced(s, p) && CanStep(s, WorkerWarm(i))
    requires var q := s.workers[i].at.path; var v := c.verdict(q, RowAt(s.db, q)); v.request.Some? ==> v.request.value.path == q
    ensures Balanced(WorkerWarmed(c, s, i), p)
  {
    var q, t := s.workers[i].at.path, WorkerWarmed(c, s, i);
    if c.verdict(q, RowAt(s.db, q)).request.None? {
      WorkerSettles(s.files.taken, s.settled, s.workers, i, t.workers[i], p, q);
    } else {
      WorkerMoves(s.files.taken, s.settled, s.workers, i, t.workers[i], p);
    }
  }

  lemma BalancedAfterOffer(s: State, i: nat, w: Option<nat>, p: Text)
    requires Balanced(s, p) && CanStep(s, WorkerOffer(i, w))
    ensures Balanced(WorkerOffered(s, i, w), p)
  {
    if CanPush(s.writes) {
      WorkerSettles(s.files.taken, s.settled, s.workers, i, WorkerOffered(s, i, w).workers[i], p, s.workers[i].at.request.path);
    }
  }

  lemma BalancedKept(c: Config, s: State, e: Step, p: Text)
    requires Sane(c) && Balanced(s, p) && CanStep(s, e)
    ensures Balanced(After(c, s, e), p)
  {
    match e
    case WorkerTake(i, w) => BalancedAfterTake(s, i, w, p);
    case WorkerWarm(i) =>
      VerdictIsForPath(c, s.workers[i].at.path, RowAt(s.db, s.workers[i].at.path));
      BalancedAfterWarm(c, s, i, p);
    case WorkerOffer(i, w) => BalancedAfterOffer(s, i, w, p);
    case _ =>
  }

  lemma PathsKept(c: Config, s: State, e: Step)
    requires c.paths == s.files.taken + s.files.items + s.rest && ShutdownOk(c, s) && CanStep(s, e)
    ensures var t := After(c, s, e); c.paths == t.files.taken + t.files.items + t.rest
  {
    FilesFollow(c, s, e);
    var event := FileEvent(s, e);
    if event.Some? {
      NextMoves(s.files, event.value);
    }
    if e.ScanPush? {
      assert s.rest == [s.rest[0]] + s.rest[1..];
    }
  }

  lemma FlowKept(c: Config, s: State, e: Step)
    requires Sane(c) && FlowOk(c, s) && ShutdownOk(c, s) && CanStep(s, e)
    ensures FlowOk(c, After(c, s, e))
  {
    PathsKept(c, s, e);
    forall p ensures Balanced(After(c, s, e), p) {
      BalancedKept(c, s, e, p);
    }
  }

  // ---- Requests and rows ----------------------------------------------------

  /** The decision about `p` on the database as it was before warming. */
  function VerdictOn(c: Config, p: Text): Verdict {
    c.verdict(p, RowAt(c.rows, p))
  }

  /** The requests that the settled files give rise to, in order. */
  function RequestsOf(c: Config, settled: seq<Text>): seq<Request> {
    if settled == [] then []
    else
      var rest, v := RequestsOf(c, settled[..|settled| - 1]), VerdictOn(c, settled[|settled| - 1]);
      if v.request.Some? then rest + [v.request.value] else rest
  }

  lemma {:induction false} SettleOne(c: Config, settled: seq<Text>, p: Text)
    ensures RequestsOf(c, settled + [p])
         == if VerdictOn(c, p).request.Some? then RequestsOf(c, settled) + [VerdictOn(c, p).request.value] else RequestsOf(c, settled)
  {
    assert (settled + [p])[..|settled|] == settled;
  }

  lemma {:induction false} RequestsAreForSettled(c: Config, settled: seq<Text>)
    requires Sane(c)
    ensures forall r :: r in RequestsOf(c, settled) ==> r.path in settled
  {
    if settled != [] {
      RequestsAreForSettled(c, settled[..|settled| - 1]);
    }
  }

  /** What a worker offers is the decision about its file on the old row. */
  ghost predicate OffersOk(c: Config, s: State) {
    forall i :: 0 <= i < |s.workers| && s.workers[i].at.Offering? ==>
      VerdictOn(c, s.workers[i].at.request.path) == Verdict(Some(s.workers[i].at.request), s.workers[i].at.counts)
  }

  /** Every request that settled files give rise to is written, in the batch, or in the queue: none is lost, doubled or reordered. */
  ghost predicate RequestsOk(c: Config, s: State) {
    && s.writes.taken + s.writes.items == RequestsOf(c, s.settled)
    && s.writes.taken == s.applied + (if s.writer.Gone? then [] else s.writer.batch)
  }

  ghost predicate RowsOk(c: Config, s: State) {
    s.db == if s.finished then Cleaned(AppliedAll(c.rows, s.applied), Keep(c.paths)) else AppliedAll(c.rows, s.applied)
  }

  lemma AppliedAreForSettled(c: Config, s: State)
    requires Sane(c) && RequestsOk(c, s)
    ensures forall r :: r in s.applied ==> r.path in s.settled
  {
    RequestsAreForSettled(c, s.settled);
    forall r | r in s.applied ensures r.path in s.settled {
      assert r in s.writes.taken && r in s.writes.taken + s.writes.items;
    }
  }

  lemma HeldIsNotSettled(c: Config, s: State, i: nat, p: Text)
    requires Sane(c) && FlowOk(c, s) && i < |s.workers| && Holds(s.workers[i].at, p)
    ensures p !in s.settled
  {
    assert Balanced(s, p);
    assert c.paths == s.files.taken + (s.files.items + s.rest);
    OccursPrefix(s.files.taken, s.files.items + s.rest, p);
    OccursOnce(c.paths, p);
    HeldMember(s.workers, i, p);
    OccursMember(s.settled, p);
  }

  /** A path that a worker holds has not been settled, so its row is still the old one. */
  lemma HeldRowIsOld(c: Config, s: State, i: nat, p: Text)
    requires Sane(c) && FlowOk(c, s) && ShutdownOk(c, s) && RequestsOk(c, s) && RowsOk(c, s)
    requires i < |s.workers| && Holds(s.workers[i].at, p)
    ensures RowAt(s.db, p) == RowAt(c.rows, p)
  {
    HeldIsNotSettled(c, s, i, p);
    AppliedAreForSettled(c, s);
    AppliedElsewhere(c.rows, s.applied, p);
    assert !s.workers[i].at.Left?;
  }

  lemma RequestsAfterWarm(c: Config, s: State, i: nat)
    requires Sane(c) && FlowOk(c, s) && ShutdownOk(c, s) && RequestsOk(c, s) && RowsOk(c, s) && CanStep(s, WorkerWarm(i))
    ensures RequestsOk(c, WorkerWarmed(c, s, i))
  {
    var p := s.workers[i].at.path;
    HeldRowIsOld(c, s, i, p);
    SettleOne(c, s.settled, p);
  }

  lemma RequestsAfterOffer(c: Config, s: State, i: nat, w: Option<nat>)
    requires ShutdownOk(c, s) && RequestsOk(c, s) && OffersOk(c, s) && CanStep(s, WorkerOffer(i, w))
    ensures RequestsOk(c, WorkerOffered(s, i, w))
  {
    var r := s.workers[i].at.request;
    NextMoves(s.writes, PushTry(i, r, w));
    SettleOne(c, s.settled, r.path);
  }

  lemma RequestsAfterTake(c: Config, s: State, w: Option<nat>)
    requires RequestsOk(c, s) && CanStep(s, WriterTake(w))
    ensures RequestsOk(c, WriterTook(c, s, w))
  {
    NextMoves(s.writes, PopTry(WRITER, w));
    if Outcome(s.writes).Got? {
      Regroup(s.applied, s.writer.batch, [s.writes.items[0]]);
    } else {
      assert s.applied + [] == s.applied;
    }
  }

  lemma RequestsAfterFlush(c: Config, s: State)
    requires RequestsOk(c, s) && CanStep(s, WriterFlush)
    ensures RequestsOk(c, WriterFlushed(s))
  {
    var all := s.applied + s.writer.batch;
    assert all + [] == all;
  }

  lemma RequestsKept(c: Config, s: State, e: Step)
    requires Sane(c) && FlowOk(c, s) && ShutdownOk(c, s) && RequestsOk(c, s) && RowsOk(c, s) && OffersOk(c, s) && CanStep(s, e)
    ensures RequestsOk(c, After(c, s, e))
  {
    match e
    case WorkerWarm(i) => RequestsAfterWarm(c, s, i);
    case WorkerOffer(i, w) => RequestsAfterOffer(c, s, i, w);
    case WriterTake(w) => RequestsAfterTake(c, s, w);
    case WriterFlush => RequestsAfterFlush(c, s);
    case _ =>
  }

  lemma RowsKept(c: Config, s: State, e: Step)
    requires ShutdownOk(c, s) && RowsOk(c, s) && CanStep(s, e)
    ensures RowsOk(c, After(c, s, e))
  {
    if e.WriterFlush? {
      AppliedInTwo(c.rows, s.applied, s.writer.batch);
    }
  }

  lemma OffersKept(c: Config, s: State, e: Step)
    requires Sane(c) && FlowOk(c, s) && ShutdownOk(c, s) && RequestsOk(c, s) && RowsOk(c, s) && OffersOk(c, s) && CanStep(s, e)
    ensures OffersOk(c, After(c, s, e))
  {
    match e
    case WorkerWarm(i) =>
      HeldRowIsOld(c, s, i, s.workers[i].at.path);
      OffersAfterWarm(c, s, i);
    case _ => OffersUnchanged(c, s, e);
  }

  lemma OffersAfterWarm(c: Config, s: State, i: nat)
    requires Sane(c) && OffersOk(c, s) && CanStep(s, WorkerWarm(i))
    requires RowAt(s.db, s.workers[i].at.path) == RowAt(c.rows, s.workers[i].at.path)
    ensures OffersOk(c, WorkerWarmed(c, s, i))
  {
    VerdictIsForPath(c, s.workers[i].at.path, RowAt(s.db, s.workers[i].at.path));
  }

  lemma OffersUnchanged(c: Config, s: State, e: Step)
    requires OffersOk(c, s) && CanStep(s, e) && !e.WorkerWarm?
    ensures OffersOk(c, After(c, s, e))
  {
  }

  // ---- Counters -------------------------------------------------------------

  /** A counter, or a sum of counters. */
  ghost predicate Additive(f: Counts -> nat) {
    f(NoCounts()) == 0 && forall a, b :: f(Plus(a, b)) == f(a) + f(b)
  }

  function LocalOf(f: Counts -> nat): Worker -> nat {
    (x: Worker) => f(x.local)
  }

  /** What `f` counts in the decision on one path. */
  function CountOn(c: Config, f: Counts -> nat): Text -> nat {
    (p: Text) => f(VerdictOn(c, p).counts)
  }

  /** The counters merged and still local add up to those of the settled files. */
  ghost predicate CountsOk(c: Config, f: Counts -> nat, s: State) {
    f(s.merged) + Sum(LocalOf(f), s.workers) == Sum(CountOn(c, f), s.settled)
  }

  lemma CountsAfterTake(c: Config, f: Counts -> nat, s: State, i: nat, w: Option<nat>)
    requires Additive(f) && CountsOk(c, f, s) && CanStep(s, WorkerTake(i, w))
    ensures CountsOk(c, f, WorkerTook(s, i, w))
  {
    SumUpdate(LocalOf(f), s.workers, i, WorkerTook(s, i, w).workers[i]);
  }

  lemma CountsAfterWarm(c: Config, f: Counts -> nat, s: State, i: nat)
    requires Additive(f) && CountsOk(c, f, s) && CanStep(s, WorkerWarm(i))
    requires RowAt(s.db, s.workers[i].at.path) == RowAt(c.rows, s.workers[i].at.path)
    ensures CountsOk(c, f, WorkerWarmed(c, s, i))
  {
    SumUpdate(LocalOf(f), s.workers, i, WorkerWarmed(c, s, i).workers[i]);
    assert CountOn(c, f)(s.workers[i].at.path) == f(VerdictOn(c, s.workers[i].at.path).counts);
    SumSnoc(CountOn(c, f), s.settled, s.workers[i].at.path);
  }

  lemma CountsAfterOffer(c: Config, f: Counts -> nat, s: State, i: nat, w: Option<nat>)
    requires Additive(f) && CountsOk(c, f, s) && OffersOk(c, s) && CanStep(s, WorkerOffer(i, w))
    ensures CountsOk(c, f, WorkerOffered(s, i, w))
  {
    SumUpdate(LocalOf(f), s.workers, i, WorkerOffered(s, i, w).workers[i]);
    SumSnoc(CountOn(c, f), s.settled, s.workers[i].at.request.path);
  }

  lemma CountsKept(c: Config, f: Counts -> nat, s: State, e: Step)
    requires Additive(f) && CountsOk(c, f, s) && OffersOk(c, s) && CanStep(s, e)
    requires e.WorkerWarm? ==> RowAt(s.db, s.workers[e.worker].at.path) == RowAt(c.rows, s.workers[e.worker].at.path)
    ensures CountsOk(c, f, After(c, s, e))
  {
    match e
    case WorkerTake(i, w) => CountsAfterTake(c, f, s, i, w);
    case WorkerWarm(i) => CountsAfterWarm(c, f, s, i);
    case WorkerOffer(i, w) => CountsAfterOffer(c, f, s, i, w);
    case _ =>
  }

  /** A worker that has left has merged its counters. */
  ghost predicate LocalsMerged(s: State) {
    forall i :: 0 <= i < |s.workers| && s.workers[i].at.Left? ==> s.workers[i].local == NoCounts()
  }

  lemma LocalsKept(c: Config, s: State, e: Step)
    requires LocalsMerged(s) && CanStep(s, e)
    ensures LocalsMerged(After(c, s, e))
  {
  }

  // ---- Runs -----------------------------------------------------------------

  ghost predicate Good(c: Config, s: State) {
    && FilesOk(c, s) && WritesOk(c, s) && FileWaitersOk(s) && WriteWaitersOk(s) && ShutdownOk(c, s)
    && FlowOk(c, s) && RequestsOk(c, s) && RowsOk(c, s) && OffersOk(c, s)
    && LocalsMerged(s)
  }

  lemma {:induction false} NothingCounted(f: Counts -> nat, workers: seq<Worker>)
    requires Additive(f) && forall i :: 0 <= i < |workers| ==> workers[i].local == NoCounts()
    ensures Sum(LocalOf(f), workers) == 0
  {
    SumZero(LocalOf(f), workers);
  }

  lemma StartIsGood(c: Config)
    requires Sane(c)
    ensures Good(c, Start(c))
  {
    var s := Start(c);
    FreshInv<Text>(c.fileCapacity);
    FreshInv<Request>(c.writeCapacity);
    assert [] + [] + c.paths == c.paths;
    forall p ensures Balanced(s, p) {
      NobodyHolds(s.workers, p);
    }
  }

  lemma GoodKept(c: Config, s: State, e: Step)
    requires Sane(c) && Good(c, s) && CanStep(s, e)
    ensures Good(c, After(c, s, e))
  {
    QueuesKept(c, s, e);
    FileWaitersKept(c, s, e);
    WriteWaitersKept(c, s, e);
    ShutdownKept(c, s, e);
    FlowKept(c, s, e);
    RequestsKept(c, s, e);
    RowsKept(c, s, e);
    OffersKept(c, s, e);
    LocalsKept(c, s, e);
  }

  predicate Possible(c: Config, s: State, run: seq<Step>)
    decreases |run|
  {
    run == [] || (CanStep(s, run[0]) && Possible(c, After(c, s, run[0]), run[1..]))
  }

  function Final(c: Config, s: State, run: seq<Step>): State
    requires Possible(c, s, run)
    decreases |run|
  {
    if run == [] then s else Final(c, After(c, s, run[0]), run[1..])
  }

  lemma {:induction false} RunsStayGood(c: Config, s: State, run: seq<Step>)
    requires Sane(c) && Good(c, s) && Possible(c, s, run)
    ensures Good(c, Final(c, s, run))
    decreases |run|
  {
    if run != [] {
      GoodKept(c, s, run[0]);
      RunsStayGood(c, After(c, s, run[0]), run[1..]);
    }
  }

  lemma {:induction false} RunsKeepCounts(c: Config, f: Counts -> nat, s: State, run: seq<Step>)
    requires Sane(c) && Additive(f) && Good(c, s) && CountsOk(c, f, s) && Possible(c, s, run)
    ensures CountsOk(c, f, Final(c, s, run))
    decreases |run|
  {
    if run != [] {
      GoodKept(c, s, run[0]);
      if run[0].WorkerWarm? {
        HeldRowIsOld(c, s, run[0].worker, s.workers[run[0].worker].at.path);
      }
      CountsKept(c, f, s, run[0]);
      RunsKeepCounts(c, f, After(c, s, run[0]), run[1..]);
    }
  }

  // ---- What a finished run leaves -------------------------------------------

  /** The row of one path after its own request, if it has one. */
  function NewRow(c: Config, p: Text): Option<Row> {
    match VerdictOn(c, p).request
    case None => RowAt(c.rows, p)
    case Some(r) => RowAt(Applied(c.rows, r), p)
  }

  lemma {:induction false} SettledRows(c: Config, settled: seq<Text>, p: Text)
    requires Sane(c) && Distinct(settled)
    ensures RowAt(AppliedAll(c.rows, RequestsOf(c, settled)), p) == if p in settled then NewRow(c, p) else RowAt(c.rows, p)
  {
    if settled != [] {
      var rest, last := settled[..|settled| - 1], settled[|settled| - 1];
      assert settled == rest + [last];
      assert Distinct(rest) && last !in rest;
      SettledRows(c, rest, p);
      SettledRows(c, rest, last);
      SettleOne(c, rest, last);
      var v := VerdictOn(c, last);
      if v.request.Some? {
        VerdictIsForPath(c, last, RowAt(c.rows, last));
        ApplyOne(c, AppliedAll(c.rows, RequestsOf(c, rest)), RequestsOf(c, rest), v.request.value, p);
      }
    }
  }

  lemma {:induction false} ApplyOne(c: Config, db: Database, before: seq<Request>, r: Request, p: Text)
    requires db == AppliedAll(c.rows, before)
    requires RowAt(db, r.path) == RowAt(c.rows, r.path)
    ensures RowAt(AppliedAll(c.rows, before + [r]), p) == if p == r.path then RowAt(Applied(c.rows, r), p) else RowAt(db, p)
  {
    assert (before + [r])[..|before|] == before;
  }

  /** The database that warming leads to: each scanned path has its own new row, and nothing else remains. */
  ghost predicate IsWarmed(c: Config, db: Database) {
    forall p :: RowAt(db, p) == if p in c.paths then NewRow(c, p) else None
  }

  /** Once an open worker has found the closed queue empty, and all have left, every scanned path is settled. */
  lemma AllLeftSettlesAll(c: Config, s: State)
    requires Sane(c) && SomeReady(c.ready) && Good(c, s) && s.files.phase > 0 && AllLeft(s.workers)
    ensures SameItems(s.settled, c.paths)
  {
    var i :| 0 <= i < |c.ready| && c.ready[i];
    assert s.workers[i].at.Left?;
    assert s.files.taken + [] + [] == s.files.taken;
    forall p ensures Occurs(s.settled, p) == Occurs(c.paths, p) {
      assert Balanced(s, p);
      NobodyHolds(s.workers, p);
    }
  }

  /** In a finished state everything has been settled: exactly the scanned paths, once each. */
  lemma {:induction false} FinishedSettlesAll(c: Config, s: State)
    requires Sound(c) && Good(c, s) && s.finished
    ensures SameItems(s.settled, c.paths)
    ensures Distinct(s.settled) && s.applied == RequestsOf(c, s.settled)
  {
    AllLeftSettlesAll(c, s);
    forall p ensures Occurs(s.settled, p) <= 1 {
      OccursOnce(c.paths, p);
    }
    AtMostOnceIsDistinct(s.settled);
    assert s.writes.taken + [] == s.writes.taken && s.applied + [] == s.applied;
  }

  /** Schedule independence: whatever the interleaving and the batches, a finished run leaves the warmed database. */
  lemma {:induction false} FinishedIsWarmed(c: Config, run: seq<Step>)
    requires Sound(c) && Possible(c, Start(c), run) && Final(c, Start(c), run).finished
    ensures IsWarmed(c, Final(c, Start(c), run).db)
  {
    var s := Final(c, Start(c), run);
    StartIsGood(c);
    RunsStayGood(c, Start(c), run);
    FinishedSettlesAll(c, s);
    SameMembers(s.settled, c.paths);
    forall p ensures RowAt(s.db, p) == if p in c.paths then NewRow(c, p) else None {
      SettledRows(c, s.settled, p);
    }
  }

  /** Warming the files one after the other, in scan order. */
  function Sequential(c: Config, db: Database, paths: seq<Text>): Database {
    if paths == [] then db
    else
      var before, p := Sequential(c, db, paths[..|paths| - 1]), paths[|paths| - 1];
      var v := c.verdict(p, RowAt(before, p));
      if v.request.Some? then Applied(before, v.request.value) else before
  }

  lemma {:induction false} SequentialRows(c: Config, paths: seq<Text>, p: Text)
    requires Sane(c) && Distinct(paths)
    ensures RowAt(Sequential(c, c.rows, paths), p) == if p in paths then NewRow(c, p) else RowAt(c.rows, p)
  {
    if paths != [] {
      var rest, last := paths[..|paths| - 1], paths[|paths| - 1];
      assert paths == rest + [last];
      assert Distinct(rest) && last !in rest;
      SequentialRows(c, rest, p);
      SequentialRows(c, rest, last);
      VerdictIsForPath(c, last, RowAt(c.rows, last));
    }
  }

  lemma WarmedIsUnique(c: Config, a: Database, b: Database)
    requires IsWarmed(c, a) && IsWarmed(c, b)
    ensures a == b
  {
    forall p ensures p in a <==> p in b {
      assert RowAt(a, p) == RowAt(b, p);
    }
    forall p | p in a ensures a[p] == b[p] {
      assert RowAt(a, p) == RowAt(b, p);
    }
  }

  /** ... which is what warming the files sequentially and then cleaning up leaves. */
  lemma {:induction false} FinishedIsSequential(c: Config, run: seq<Step>)
    requires Sound(c) && Possible(c, Start(c), run) && Final(c, Start(c), run).finished
    ensures Final(c, Start(c), run).db == Cleaned(Sequential(c, c.rows, c.paths), Keep(c.paths))
  {
    var db := Cleaned(Sequential(c, c.rows, c.paths), Keep(c.paths));
    FinishedIsWarmed(c, run);
    forall p ensures RowAt(db, p) == if p in c.paths then NewRow(c, p) else None {
      SequentialRows(c, c.paths, p);
    }
    WarmedIsUnique(c, Final(c, Start(c), run).db, db);
  }

  /** The counters are schedule-independent too: they add up the decisions on the scanned files. */
  lemma {:induction false} FinishedCounts(c: Config, f: Counts -> nat, run: seq<Step>)
    requires Sound(c) && Additive(f) && Possible(c, Start(c), run) && Final(c, Start(c), run).finished
    ensures f(Final(c, Start(c), run).merged) == Sum(CountOn(c, f), c.paths)
  {
    var s := Final(c, Start(c), run);
    StartIsGood(c);
    RunsStayGood(c, Start(c), run);
    NothingCounted(f, Start(c).workers);
    RunsKeepCounts(c, f, Start(c), run);
    FinishedSettlesAll(c, s);
    assert AllLeft(s.workers);
    NothingCounted(f, s.workers);
    SumAgrees(CountOn(c, f), s.settled, c.paths);
  }

  function Outcomes(k: Counts): nat {
    k.valid + k.updated + k.failed
  }

  lemma {:induction false} SumOfOnes(c: Config, paths: seq<Text>)
    requires forall p, row :: Outcomes(c.verdict(p, row).counts) == 1
    ensures Sum(CountOn(c, Outcomes), paths) == |paths|
  {
    if paths != [] {
      SumOfOnes(c, paths[..|paths| - 1]);
      var p := paths[|paths| - 1];
      assert Outcomes(c.verdict(p, RowAt(c.rows, p)).counts) == 1;
      assert CountOn(c, Outcomes)(p) == Outcomes(VerdictOn(c, p).counts);
    }
  }

  /** valid + updated + failed is the number of files scanned. */
  lemma {:induction false} EveryFileCountedOnce(c: Config, run: seq<Step>)
    requires Sound(c) && Possible(c, Start(c), run) && Final(c, Start(c), run).finished
    requires forall p, row :: Outcomes(c.verdict(p, row).counts) == 1
    ensures Outcomes(Final(c, Start(c), run).merged) == |c.paths|
  {
    FinishedCounts(c, Outcomes, run);
    SumOfOnes(c, c.paths);
  }
}
