/** Warming when the writer or all workers could not open the database (src/cache-warm.cpp:339-342, 372-375): exactly
when the pipeline gets stuck.

A worker that could not open its database returns without taking anything, so without any open worker the file queue
is filled and never emptied. A writer that could not returns at once, so the write queue is filled and never emptied.
*/
module WarmStalls {
  import opened Ast
  import opened Options
  import opened Sequences
  import opened Queues
  import opened CacheWarm
  import opened WarmPipeline
  import opened WarmProgress

  /** 1 for a path whose decision is a request. */
  function Asks(c: Config): Text -> nat {
    (p: Text) => if VerdictOn(c, p).request.Some? then 1 else 0
  }

  /** How many requests the scanned files give rise to. */
  function Requests(c: Config): nat {
    Sum(Asks(c), c.paths)
  }

  /** Too much for what nobody empties: the files for their queue without an open worker, else the requests for theirs without the writer. */
  predicate Stalls(c: Config) {
    if SomeReady(c.ready) then !c.writerReady && Requests(c) > c.writeCapacity else |c.paths| > c.fileCapacity
  }

  /** What the missing threads leave untouched. */
  ghost predicate Untouched(c: Config, s: State) {
    && (!SomeReady(c.ready) ==> AllLeft(s.workers) && s.files.taken == [])
    && (!c.writerReady ==> s.writes.taken == [])
  }

  lemma UntouchedKept(c: Config, s: State, e: Step)
    requires Untouched(c, s) && ShutdownOk(c, s) && CanStep(s, e)
    ensures Untouched(c, After(c, s, e))
  {
  }

  lemma StartIsUntouched(c: Config)
    requires Sane(c)
    ensures Good(c, Start(c)) && Untouched(c, Start(c))
  {
    StartIsGood(c);
  }

  lemma {:induction false} RunsStayUntouched(c: Config, s: State, run: seq<Step>)
    requires Sane(c) && Good(c, s) && Untouched(c, s) && Possible(c, s, run)
    ensures Good(c, Final(c, s, run)) && Untouched(c, Final(c, s, run))
    decreases |run|
  {
    if run != [] {
      GoodKept(c, s, run[0]);
      UntouchedKept(c, s, run[0]);
      RunsStayUntouched(c, After(c, s, run[0]), run[1..]);
    }
  }

  /** Only spurious wakeups are left to happen, and the run is not over. */
  ghost predicate Stuck(s: State) {
    !s.finished && forall e :: CanStep(s, e) ==> IsSpurious(e)
  }

  ghost predicate StuckAfter(c: Config, run: seq<Step>) {
    Possible(c, Start(c), run) && Stuck(Final(c, Start(c), run))
  }

  // ---- Too much: no run finishes --------------------------------------------

  lemma {:induction false} RequestsAreAsked(c: Config, settled: seq<Text>)
    ensures |RequestsOf(c, settled)| == Sum(Asks(c), settled)
  {
    if settled != [] {
      RequestsAreAsked(c, settled[..|settled| - 1]);
    }
  }

  /** Without the writer, the write queue holds a request for every settled file that asks for one. */
  lemma {:induction false} QueuedAreAsked(c: Config, s: State)
    requires Good(c, s) && Untouched(c, s) && !c.writerReady
    ensures |s.writes.items| == Sum(Asks(c), s.settled) && s.writes.items == RequestsOf(c, s.settled)
  {
    RequestsAreAsked(c, s.settled);
    assert [] + s.writes.items == s.writes.items;
  }

  lemma NeverFinished(c: Config, s: State)
    requires Sane(c) && Good(c, s) && Untouched(c, s) && Stalls(c)
    ensures !s.finished
  {
    if SomeReady(c.ready) {
      QueuedAreAsked(c, s);
      if s.finished {
        AllLeftSettlesAll(c, s);
        SumAgrees(Asks(c), s.settled, c.paths);
        assert false;
      }
    } else {
      assert [] + s.files.items == s.files.items;
    }
  }

  /** Taking steps other than spurious wakeups for as long as there are any ends in a state without. */
  lemma StallReached(c: Config, s: State) returns (run: seq<Step>)
    requires Sane(c) && Good(c, s) && Untouched(c, s) && Stalls(c)
    ensures Possible(c, s, run) && Stuck(Final(c, s, run))
    decreases Measure(c, s)
  {
    NeverFinished(c, s);
    if e :| CanStep(s, e) && !IsSpurious(e) {
      GoodKept(c, s, e);
      UntouchedKept(c, s, e);
      MeasureFalls(c, s, e);
      MeasureIsNatural(c, s);
      var rest := StallReached(c, After(c, s, e));
      run := PutFirst(c, s, e, rest);
    } else {
      run := [];
    }
  }

  lemma PutFirst(c: Config, s: State, e: Step, rest: seq<Step>) returns (run: seq<Step>)
    requires CanStep(s, e) && Possible(c, After(c, s, e), rest)
    ensures Possible(c, s, run) && Final(c, s, run) == Final(c, After(c, s, e), rest)
  {
    run := [e] + rest;
    assert run[0] == e && run[1..] == rest;
  }

  // ---- Not too much: every run can go on ------------------------------------

  /** Files that fit into the queue: without workers, everything goes on to the end. */
  lemma IdleGoesOn(c: Config, s: State) returns (e: Step)
    requires Good(c, s) && Untouched(c, s) && !SomeReady(c.ready) && |c.paths| <= c.fileCapacity && !s.finished
    ensures CanStep(s, e) && !IsSpurious(e)
  {
    if s.rest != [] {
      if SCANNER in s.files.pushWait {
        SoleSleeper(s.files.pushWait, s.files.pushWoken, SCANNER);
        assert false;
      }
      var w := PickWake(s.files.popWait);
      e := ScanPush(w);
    } else if s.files.phase < 3 {
      e := ScanClose;
    } else if s.writes.phase < 3 {
      e := MainClose;
    } else if !s.writer.Gone? {
      e := WriterActs(s);
    } else {
      e := CleanUp;
    }
  }

  /** Requests that fit into the queue: whoever offers one finds a place. */
  lemma OffersFit(c: Config, s: State, i: nat)
    requires Sane(c) && Good(c, s) && Untouched(c, s) && !c.writerReady && Requests(c) <= c.writeCapacity
    requires i < |s.workers| && s.workers[i].at.Offering?
    ensures |s.writes.items| < c.writeCapacity
  {
    var p := s.workers[i].at.request.path;
    QueuedAreAsked(c, s);
    HeldIsNotSettled(c, s, i, p);
    forall q ensures Occurs(s.settled + [p], q) <= Occurs(c.paths, q) {
      TakenAreScanned(c, s, q);
      HeldMember(s.workers, i, p);
      OccursSnoc(s.settled, p, q);
    }
    SumBelow(Asks(c), s.settled + [p], c.paths);
    SumSnoc(Asks(c), s.settled, p);
  }

  lemma {:induction false} TakenAreScanned(c: Config, s: State, q: Text)
    requires Good(c, s)
    ensures Occurs(s.settled, q) + HeldCount(s.workers, q) <= Occurs(c.paths, q)
  {
    assert Balanced(s, q);
    assert c.paths == s.files.taken + (s.files.items + s.rest);
    OccursPrefix(s.files.taken, s.files.items + s.rest, q);
  }

  /** So nobody ever sleeps on the write queue. */
  lemma NobodySleepsKept(c: Config, s: State, e: Step)
    requires Sane(c) && Good(c, s) && Untouched(c, s) && !c.writerReady && Requests(c) <= c.writeCapacity
    requires s.writes.pushWait == {} && CanStep(s, e)
    ensures After(c, s, e).writes.pushWait == {}
  {
    if e.WorkerOffer? {
      OffersFit(c, s, e.worker);
      AcceptedAtOnce(s, e.worker, e.wake);
    } else {
      OthersDoNotOffer(c, s, e);
    }
  }

  lemma AcceptedAtOnce(s: State, i: nat, w: Option<nat>)
    requires CanStep(s, WorkerOffer(i, w)) && s.writes.pushWait == {} && |s.writes.items| < s.writes.capacity
    ensures WorkerOffered(s, i, w).writes.pushWait == {}
  {
  }

  lemma OthersDoNotOffer(c: Config, s: State, e: Step)
    requires CanStep(s, e) && !e.WorkerOffer? && s.writes.pushWait == {}
    ensures After(c, s, e).writes.pushWait == {}
  {
  }

  lemma {:induction false} NobodySleeps(c: Config, s: State, run: seq<Step>)
    requires Sane(c) && Good(c, s) && Untouched(c, s) && !c.writerReady && Requests(c) <= c.writeCapacity
    requires s.writes.pushWait == {} && Possible(c, s, run)
    ensures Final(c, s, run).writes.pushWait == {}
    decreases |run|
  {
    if run != [] {
      NobodySleepsKept(c, s, run[0]);
      GoodKept(c, s, run[0]);
      UntouchedKept(c, s, run[0]);
      NobodySleeps(c, After(c, s, run[0]), run[1..]);
    }
  }

  lemma {:induction false} NotStuck(c: Config, run: seq<Step>)
    requires Sane(c) && !Stalls(c) && Possible(c, Start(c), run)
    ensures !Stuck(Final(c, Start(c), run))
  {
    var s := Final(c, Start(c), run);
    StartIsUntouched(c);
    RunsStayUntouched(c, Start(c), run);
    if !s.finished {
      if !SomeReady(c.ready) {
        var e := IdleGoesOn(c, s);
      } else {
        if !c.writerReady {
          NobodySleeps(c, Start(c), run);
        }
        var e := SomeStepIsPossible(c, s);
      }
    }
  }

  // ---- The exact condition --------------------------------------------------

  /** The pipeline can get stuck exactly when a queue that nobody empties is too small for what comes into it. */
  lemma StallsExactly(c: Config)
    requires Sane(c)
    ensures (exists run :: StuckAfter(c, run)) <==> Stalls(c)
  {
    if Stalls(c) {
      StartIsUntouched(c);
      var run := StallReached(c, Start(c));
      assert StuckAfter(c, run);
    } else {
      forall run | Possible(c, Start(c), run) ensures !StuckAfter(c, run) {
        NotStuck(c, run);
      }
    }
  }

  /** When it gets stuck in some run it does in every run: none finishes. */
  lemma {:induction false} StalledNeverFinishes(c: Config, run: seq<Step>)
    requires Sane(c) && Stalls(c) && Possible(c, Start(c), run)
    ensures !Final(c, Start(c), run).finished
  {
    StartIsUntouched(c);
    RunsStayUntouched(c, Start(c), run);
    NeverFinished(c, Final(c, Start(c), run));
  }

  /** Without the writer, or without an open worker, a run that finishes has warmed nothing: rows of scanned files are as they were, all others are gone. */
  lemma {:induction false} NothingWarmed(c: Config, run: seq<Step>)
    requires Sane(c) && !(c.writerReady && SomeReady(c.ready))
    requires Possible(c, Start(c), run) && Final(c, Start(c), run).finished
    ensures Final(c, Start(c), run).db == Cleaned(c.rows, Keep(c.paths))
  {
    var s := Final(c, Start(c), run);
    StartIsUntouched(c);
    RunsStayUntouched(c, Start(c), run);
    if !SomeReady(c.ready) {
      NothingSettled(c, s);
    }
    assert s.applied == [];
  }

  lemma NothingSettled(c: Config, s: State)
    requires Good(c, s) && Untouched(c, s) && !SomeReady(c.ready)
    ensures s.settled == [] && s.writes.taken == [] && s.applied == []
  {
    if s.settled != [] {
      OccursMember(s.settled, s.settled[0]);
      SettledAreTaken(c, s, s.settled[0]);
      assert false;
    }
  }

  lemma {:induction false} SettledAreTaken(c: Config, s: State, q: Text)
    requires Good(c, s)
    ensures Occurs(s.settled, q) <= Occurs(s.files.taken, q)
  {
    assert Balanced(s, q);
  }
}
