/** What warming does to one file and to the database (src/cache-warm.cpp): the decision, the writes, the cleanup. */
module CacheWarm {
  import opened Ast
  import opened Options
  import opened Sequences
  import opened Serial
  import opened Worlds

  /** The counters of WarmStats that workers keep. */
  datatype Counts = Counts(valid: nat, missing: nat, stale: nat, parsed: nat, updated: nat, failed: nat)

  function Plus(a: Counts, b: Counts): Counts {
    Counts(a.valid + b.valid, a.missing + b.missing, a.stale + b.stale,
           a.parsed + b.parsed, a.updated + b.updated, a.failed + b.failed)
  }

  function NoCounts(): Counts {
    Counts(0, 0, 0, 0, 0, 0)
  }

  datatype Request =
    | Refresh(path: Text, size: int, mtime: int)
    | Replace(path: Text, entry: Row)

  datatype Verdict = Verdict(request: Option<Request>, counts: Counts)

  function RowAt(db: Database, path: Text): Option<Row> {
    if path in db then Some(db[path]) else None
  }

  /** hash_file: 0 when the file cannot be opened. */
  function HashFile(w: World, d: Disk, path: Text): U64 {
    match Content(w, d, path) case None => 0 case Some(source) => w.contentHash(source)
  }

  /** Parse and serialise the file afresh, counting it under `reason`. */
  function Renew(w: World, d: Disk, path: Text, reason: Counts): Verdict
    requires TreesGood(w) && SourcesFit(w)
  {
    match Content(w, d, path)
    case None => Verdict(None, reason.(failed := 1))
    case Some(source) =>
      ParsedSerializable(w, path, source);
      match EntryFor(w, ParsedAst(w, path, source), d.stat(path))
      case None => Verdict(None, reason.(failed := 1))
      case Some(entry) => Verdict(Some(Replace(path, entry)), reason.(parsed := 1, updated := 1))
  }

  /** What a worker does about `path` whose row is `row`: trust it, refresh its stamp, or renew it. */
  function Decide(w: World, d: Disk, path: Text, row: Option<Row>): Verdict
    requires TreesGood(w) && SourcesFit(w)
  {
    match d.stat(path)
    case None => Verdict(None, NoCounts().(failed := 1))
    case Some(stat) =>
      if row.None? || row.value.formatVersion != FORMAT_VERSION then Renew(w, d, path, NoCounts().(missing := 1))
      else if Stat(row.value.sourceSize, row.value.sourceMtime) == stat then Verdict(None, NoCounts().(valid := 1))
      else if HashFile(w, d, path) != 0 && HashFile(w, d, path) == row.value.sourceHash
      then Verdict(Some(Refresh(path, stat.size, stat.mtime)), NoCounts().(valid := 1))
      else Renew(w, d, path, NoCounts().(stale := 1))
  }

  /** Each file is counted once among valid, updated and failed, and a request is for the file itself. */
  lemma DecideFacts(w: World, d: Disk, path: Text, row: Option<Row>)
    requires TreesGood(w) && SourcesFit(w)
    ensures var v := Decide(w, d, path, row);
      && v.counts.valid + v.counts.updated + v.counts.failed == 1
      && (v.request.Some? ==> v.request.value.path == path)
  {
  }

  /** A row of the present version. */
  predicate Current(row: Option<Row>) {
    row.Some? && row.value.formatVersion == FORMAT_VERSION
  }

  /** The row carries the file's present size and time. */
  predicate Stamped(d: Disk, path: Text, row: Row) {
    d.stat(path) == Some(Stat(row.sourceSize, row.sourceMtime))
  }

  /** The file can be read and has the row's hash, which is none when it is 0. */
  predicate SameHash(w: World, d: Disk, path: Text, row: Row) {
    && d.stat(path).Some? && d.opens(path)
    && row.sourceHash != 0 && w.contentHash(w.contentAt(path, d.stat(path).value)) == row.sourceHash
  }

  predicate Trusted(w: World, d: Disk, path: Text, row: Option<Row>) {
    Current(row) && (Stamped(d, path, row.value) || SameHash(w, d, path, row.value))
  }

  /** The file can be stat'ed and opened. */
  predicate Readable(d: Disk, path: Text) {
    d.stat(path).Some? && d.opens(path)
  }

  /** Each counter, from the row and the file alone. */
  lemma CountsExact(w: World, d: Disk, path: Text, row: Option<Row>)
    requires TreesGood(w) && SourcesFit(w)
    ensures var k := Decide(w, d, path, row).counts;
      && k.valid == One(Trusted(w, d, path, row))
      && k.updated == k.parsed == One(!Trusted(w, d, path, row) && Readable(d, path))
      && k.failed == One(!Trusted(w, d, path, row) && !Readable(d, path))
      && k.missing == One(d.stat(path).Some? && !Current(row))
      && k.stale == One(d.stat(path).Some? && Current(row) && !Trusted(w, d, path, row))
  {
    if Readable(d, path) {
      EntryExact(w, path, d.stat(path).value);
    }
  }

  /** What is asked of the writer, from the row and the file alone. */
  lemma RequestExact(w: World, d: Disk, path: Text, row: Option<Row>)
    requires TreesGood(w) && SourcesFit(w)
    ensures var r := Decide(w, d, path, row).request;
      if Trusted(w, d, path, row) then
        r == if Stamped(d, path, row.value) then None
             else Some(Refresh(path, d.stat(path).value.size, d.stat(path).value.mtime))
      else if Readable(d, path) then
        r.Some? && r.value.Replace? && r.value.path == path && RowFor(w, path, d.stat(path).value, r.value.entry)
      else r == None
  {
    if Readable(d, path) {
      EntryExact(w, path, d.stat(path).value);
    }
  }

  method PrepareEntry(w: World, d: Disk, path: Text, source: Text) returns (entry: Option<Row>)
    requires Serializable(ParsedAst(w, path, source))
    ensures entry == EntryFor(w, ParsedAst(w, path, source), d.stat(path))
  {
    var ast := ParsedAst(w, path, source);
    var raw := Bytes(ast);
    if raw == [] {
      return None;
    }
    var compressed := w.compress(raw);
    var hash: U64 := 0;
    if |source| > 0 {
      hash := w.contentHash(source);
    }
    var size, mtime := 0, 0;
    var stat := d.stat(path);
    if stat.Some? {
      size, mtime := stat.value.size, stat.value.mtime;
    }
    var isLz4, blob := false, raw;
    if compressed != [] && |compressed| < |raw| {
      isLz4, blob := true, compressed;
    }
    entry := Some(Row(hash, size, mtime, ast.language, FORMAT_VERSION, isLz4, blob, |raw|));
  }

  method WarmOneFile(w: World, d: Disk, path: Text, db: Database, local: Counts) returns (request: Option<Request>, counts: Counts)
    requires TreesGood(w) && SourcesFit(w)
    ensures request == Decide(w, d, path, RowAt(db, path)).request
    ensures counts == Plus(local, Decide(w, d, path, RowAt(db, path)).counts)
  {
    request, counts := None, local;
    var stat := d.stat(path);
    if stat.None? {
      counts := counts.(failed := counts.failed + 1);
      return;
    }
    var meta := RowAt(db, path);
    var current := meta.Some? && meta.value.formatVersion == FORMAT_VERSION;
    if current && meta.value.sourceSize == stat.value.size && meta.value.sourceMtime == stat.value.mtime {
      counts := counts.(valid := counts.valid + 1);
      return;
    }
    if current {
      var hash := HashFile(w, d, path);
      if hash != 0 && hash == meta.value.sourceHash {
        request := Some(Refresh(path, stat.value.size, stat.value.mtime));
        counts := counts.(valid := counts.valid + 1);
        return;
      }
      counts := counts.(stale := counts.stale + 1);
    } else {
      counts := counts.(missing := counts.missing + 1);
    }
    var source := Content(w, d, path);
    if source.None? {
      counts := counts.(failed := counts.failed + 1);
      return;
    }
    ParsedSerializable(w, path, source.value);
    var entry := PrepareEntry(w, d, path, source.value);
    if entry.None? {
      assert false; // a parsed file always has bytes to store
    }
    request := Some(Replace(path, entry.value));
    counts := counts.(parsed := counts.parsed + 1, updated := counts.updated + 1);
  }

  // ---- Writes ---------------------------------------------------------------

  /** UPDATE of a stamp touches an existing row only; INSERT OR REPLACE always leaves the new row. */
  function Applied(db: Database, r: Request): Database {
    match r
    case Refresh(path, size, mtime) =>
      if path in db then db[path := db[path].(sourceSize := size, sourceMtime := mtime)] else db
    case Replace(path, entry) => db[path := entry]
  }

  function AppliedAll(db: Database, batch: seq<Request>): Database {
    if batch == [] then db else Applied(AppliedAll(db, batch[..|batch| - 1]), batch[|batch| - 1])
  }

  lemma {:induction false} AppliedSnoc(db: Database, batch: seq<Request>, r: Request)
    ensures AppliedAll(db, batch + [r]) == Applied(AppliedAll(db, batch), r)
  {
    assert (batch + [r])[..|batch|] == batch;
  }

  /** Where no statement fails the whole batch is applied. */
  lemma {:induction false} AllSucceed(batch: seq<Request>, ok: Request -> bool)
    requires forall r :: r in batch ==> ok(r)
    ensures Filter(batch, ok) == batch
  {
    if batch != [] {
      var rest, last := batch[..|batch| - 1], batch[|batch| - 1];
      assert batch == rest + [last];
      AllSucceed(rest, ok);
    }
  }

  /** One transaction; a request whose statement fails changes nothing and is counted as failed. */
  method FlushBatch(db: Database, batch: seq<Request>, ok: Request -> bool, written: nat, failed: nat)
    returns (db': Database, written': nat, failed': nat)
    ensures db' == AppliedAll(db, Filter(batch, ok))
    ensures written' == written + |Filter(batch, ok)| && written' + failed' == written + failed + |batch|
  {
    db', written', failed' := db, written, failed;
    for k := 0 to |batch|
      invariant db' == AppliedAll(db, Filter(batch[..k], ok))
      invariant written' == written + |Filter(batch[..k], ok)| && written' + failed' == written + failed + k
    {
      FilterStep(batch, ok, k);
      AppliedSnoc(db, Filter(batch[..k], ok), batch[k]);
      if ok(batch[k]) {
        match batch[k] {
          case Refresh(path, size, mtime) =>
            if path in db' {
              db' := db'[path := db'[path].(sourceSize := size, sourceMtime := mtime)];
            }
          case Replace(path, entry) =>
            db' := db'[path := entry];
        }
        written' := written' + 1;
      } else {
        failed' := failed' + 1;
      }
    }
    assert batch[..|batch|] == batch;
  }

  function Cleaned(db: Database, keep: set<Text>): Database {
    map p | p in db && p in keep :: db[p]
  }

  lemma RemoveStep(db: Database, keep: set<Text>, todo: set<Text>, p: Text)
    requires p in todo
    ensures Cleaned(db, keep + (todo - {p})) == if p in keep then Cleaned(db, keep + todo) else Cleaned(db, keep + todo) - {p}
  {
    if p in keep {
      assert keep + todo == keep + (todo - {p});
    }
  }

  lemma AllKept(db: Database, keep: set<Text>)
    ensures Cleaned(db, keep + db.Keys) == db && Cleaned(db, keep + {}) == Cleaned(db, keep)
  {
    assert keep + {} == keep;
  }

  lemma CountStep(stale: set<Text>, todo: set<Text>, p: Text)
    requires p in todo
    ensures |stale - (todo - {p})| == |stale - todo| + if p in stale then 1 else 0
  {
    if p in stale {
      assert stale - (todo - {p}) == (stale - todo) + {p};
    } else {
      assert stale - (todo - {p}) == stale - todo;
    }
  }

  /** How many rows outside `keep` are no longer to be looked at. */
  ghost function Removed(db: Database, keep: set<Text>, todo: set<Text>): nat {
    |(db.Keys - keep) - todo|
  }

  lemma RemovedStep(db: Database, keep: set<Text>, todo: set<Text>, p: Text)
    requires p in todo && todo <= db.Keys
    ensures Removed(db, keep, todo - {p}) == Removed(db, keep, todo) + if p in keep then 0 else 1
  {
    CountStep(db.Keys - keep, todo, p);
  }

  lemma RemovedEnds(db: Database, keep: set<Text>)
    ensures Removed(db, keep, db.Keys) == 0 && Removed(db, keep, {}) == |db.Keys - keep|
  {
    assert (db.Keys - keep) - db.Keys == {};
    assert (db.Keys - keep) - {} == db.Keys - keep;
  }

  /** Removes every row whose path was not scanned, in whatever order the paths are listed. */
  method RemoveStale(db: Database, keep: set<Text>) returns (db': Database, removed: nat)
    ensures db' == Cleaned(db, keep)
    ensures removed == |db.Keys - keep|
  {
    db', removed := db, 0;
    var todo := db.Keys;
    AllKept(db, keep);
    RemovedEnds(db, keep);
    while todo != {}
      invariant todo <= db.Keys && db' == Cleaned(db, keep + todo)
      invariant removed == Removed(db, keep, todo)
      decreases todo
    {
      var p :| p in todo;
      RemovedStep(db, keep, todo, p);
      RemoveStep(db, keep, todo, p);
      if p !in keep {
        db' := db' - {p};
        removed := removed + 1;
      }
      todo := todo - {p};
    }
  }

  /** A request touches the row of its own path only. */
  lemma {:induction false} AppliedElsewhere(db: Database, batch: seq<Request>, path: Text)
    requires forall r :: r in batch ==> r.path != path
    ensures RowAt(AppliedAll(db, batch), path) == RowAt(db, path)
  {
    if batch != [] {
      var rest, last := batch[..|batch| - 1], batch[|batch| - 1];
      assert last in batch;
      AppliedElsewhere(db, rest, path);
    }
  }

  lemma {:induction false} AppliedInTwo(db: Database, a: seq<Request>, b: seq<Request>)
    ensures AppliedAll(db, a + b) == AppliedAll(AppliedAll(db, a), b)
    decreases |b|
  {
    if b == [] {
      assert a + b == a;
    } else {
      assert (a + b)[..|a + b| - 1] == a + b[..|b| - 1];
      AppliedInTwo(db, a, b[..|b| - 1]);
    }
  }
}
