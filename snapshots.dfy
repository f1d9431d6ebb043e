/** The loop the two database variants share: for each timestamp in turn,
    fetch the snapshot, register its temporary file, process it; the first
    exception ends the loop. */
module Snapshots {
  import opened Outcomes
  import opened Text
  import opened Clock
  import opened Fields
  import opened Errors
  import opened Render
  import opened Resources

  /** `process_timestamp_data(ds)`: a fault is re-raised as a 500 (FastAPI)
      or a plain exception (Flask) with detail "Data processing failed". */
  function ProcessSnapshot(fw: Framework, ds: Dataset): (r: Result<Record, Error>)
    ensures r.Success? <==> Process(ds).Success?
    ensures r.Success? ==> r.value == Process(ds).value
    ensures r.Failure? ==> r.error == Raise(fw, 500, DataProcessingFailed(Extraction(Process(ds).error)))
  {
    match Process(ds)
    case Success(rec) => Success(rec)
    case Failure(f) => Failure(Raise(fw, 500, DataProcessingFailed(Extraction(f))))
  }

  /** One iteration: fetch, then process. It yields the record of the
      decoded blob, or the fetch's own exception, or a 500 "Data processing
      failed" when the fetched snapshot does not extract. */
  function Step(fw: Framework, reachable: bool, rows: map<DateTime, Bytes>, open: Opener, t: DateTime)
    : (r: Result<Record, Error>)
    ensures r.Success? <==>
      reachable && t in rows && open(rows[t]).Some? && Process(open(rows[t]).value).Success?
    ensures r.Success? ==> r.value == Process(open(rows[t]).value).value
    ensures Fetch(fw, reachable, rows, open, t).Failure? ==> r == Failure(Fetch(fw, reachable, rows, open, t).error)
    ensures Fetch(fw, reachable, rows, open, t).Success? && r.Failure? ==>
      r.error == Raise(fw, 500, DataProcessingFailed(Extraction(Process(open(rows[t]).value).error)))
  {
    var ds :- Fetch(fw, reachable, rows, open, t);
    ProcessSnapshot(fw, ds)
  }

  /** The loop body as a function of the timestamp alone. */
  function StepFn(fw: Framework, reachable: bool, rows: map<DateTime, Bytes>, open: Opener)
    : DateTime -> Result<Record, Error>
  {
    t => Step(fw, reachable, rows, open, t)
  }

  /** The records of all timestamps in order, or the exception of the first
      one that fails (see `Collect` for what that entails). */
  function Pipeline(fw: Framework, reachable: bool, rows: map<DateTime, Bytes>, open: Opener, ts: seq<DateTime>)
    : Result<seq<Record>, Error>
  {
    Collect(StepFn(fw, reachable, rows, open), ts)
  }

  /** One more timestamp extends the pipeline's prefix by its step. */
  lemma PipelineExtend(fw: Framework, reachable: bool, rows: map<DateTime, Bytes>, open: Opener,
                       ts: seq<DateTime>, i: nat)
    requires i < |ts|
    ensures Pipeline(fw, reachable, rows, open, ts[..i + 1]) ==
      match Pipeline(fw, reachable, rows, open, ts[..i])
      case Failure(e) => Failure(e)
      case Success(rs) =>
        match Step(fw, reachable, rows, open, ts[i])
        case Failure(e) => Failure(e)
        case Success(r) => Success(rs + [r])
  {
    CollectExtend(StepFn(fw, reachable, rows, open), ts, i);
  }

  /** A prefix that failed decides the whole pipeline. */
  lemma PipelineStops(fw: Framework, reachable: bool, rows: map<DateTime, Bytes>, open: Opener,
                      ts: seq<DateTime>, i: nat)
    requires i <= |ts|
    requires Pipeline(fw, reachable, rows, open, ts[..i]).Failure?
    ensures Pipeline(fw, reachable, rows, open, ts) == Pipeline(fw, reachable, rows, open, ts[..i])
  {
    CollectStops(StepFn(fw, reachable, rows, open), ts, i, |ts|);
    assert ts[..|ts|] == ts;
  }

  /** A successful pipeline holds, in order, the record each timestamp's
      step yields on its own. */
  lemma PipelineSuccess(fw: Framework, reachable: bool, rows: map<DateTime, Bytes>, open: Opener,
                        ts: seq<DateTime>)
    requires Pipeline(fw, reachable, rows, open, ts).Success?
    ensures |Pipeline(fw, reachable, rows, open, ts).value| == |ts|
    ensures forall i :: 0 <= i < |ts| ==>
      Step(fw, reachable, rows, open, ts[i]) == Success(Pipeline(fw, reachable, rows, open, ts).value[i])
  {
    var step := StepFn(fw, reachable, rows, open);
    CollectSuccess(step, ts);
    assert forall i :: 0 <= i < |ts| ==> step(ts[i]) == Step(fw, reachable, rows, open, ts[i]);
  }

  /** Registered path `j` belongs to timestamp `j`: that fetch succeeded
      (the database was reachable, had the row, and its blob decoded; see
      `FetchSucceeds`), and the file still holds the snapshot's blob. */
  predicate Registered(reachable: bool, rows: map<DateTime, Bytes>, open: Opener,
                       ts: seq<DateTime>, paths: seq<string>, files: map<string, Bytes>)
  {
    && |paths| <= |ts|
    && (|paths| > 0 ==> reachable)
    && forall j {:trigger paths[j]} :: 0 <= j < |paths| ==>
      && ts[j] in rows && open(rows[ts[j]]).Some?
      && paths[j] in files && files[paths[j]] == rows[ts[j]]
  }

  /** Every registered path's fetch returned a snapshot. */
  lemma FetchSucceeds(fw: Framework, reachable: bool, rows: map<DateTime, Bytes>, open: Opener,
                      ts: seq<DateTime>, paths: seq<string>, files: map<string, Bytes>, j: nat)
    requires Registered(reachable, rows, open, ts, paths, files) && j < |paths|
    ensures Fetch(fw, reachable, rows, open, ts[j]).Success?
  {
    assert paths[j] in files;
  }

  /** With `k` paths registered, the loop stopped with `e` either because
      fetch `k` raised it (no file to register) or because snapshot
      `k - 1`, already registered, failed to process. */
  predicate StoppedAt(fw: Framework, reachable: bool, rows: map<DateTime, Bytes>, open: Opener,
                      ts: seq<DateTime>, k: nat, e: Error)
  {
    || (k < |ts| && Fetch(fw, reachable, rows, open, ts[k]) == Failure(e))
    || (0 < k <= |ts| && Fetch(fw, reachable, rows, open, ts[k - 1]).Success?
        && Step(fw, reachable, rows, open, ts[k - 1]) == Failure(e))
  }

  /** What the loop keeps on disk relative to the files `before` it: every
      registered path is a new `.nc` file, the earlier files are unchanged,
      and every new file is registered or a `.nc` file whose removal failed. */
  predicate Scoped(before: map<string, Bytes>, files: map<string, Bytes>, paths: seq<string>, stuck: set<string>) {
    && (forall p :: p in paths ==> EndsWith(p, ".nc") && p !in before)
    && (forall p :: p in before ==> p in files && files[p] == before[p])
    && (forall p :: p in files && p !in before ==> p in paths || (p in stuck && EndsWith(p, ".nc")))
  }

  /** The `for ts in timestamps` loop inside `with temporary_files()`: each
      fetched snapshot's file is registered before it is processed, and
      only a fetch that returned registers one. */
  method CollectRecords(fw: Framework, db: Database, disk: Disk, open: Opener, timestamps: seq<DateTime>, scope: TempScope)
    returns (r: Result<seq<Record>, Error>)
    requires scope.paths == []
    modifies db, disk, scope
    ensures r == Pipeline(fw, db.reachable, db.rows, open, timestamps)
    ensures forall p :: p in scope.paths ==> EndsWith(p, ".nc") && p !in old(disk.files)
    ensures forall p :: p in old(disk.files) ==> p in disk.files && disk.files[p] == old(disk.files)[p]
    ensures forall p :: p in disk.files && p !in old(disk.files) ==>
      p in scope.paths || (p in disk.stuck && EndsWith(p, ".nc"))
    ensures db.openConnections == old(db.openConnections)
    ensures Registered(db.reachable, db.rows, open, timestamps, scope.paths, disk.files)
    ensures r.Success? ==> |scope.paths| == |timestamps|
    ensures r.Failure? ==> StoppedAt(fw, db.reachable, db.rows, open, timestamps, |scope.paths|, r.error)
  {
    ghost var before := disk.files;
    var processed: seq<Record> := [];
    var i := 0;
    while i < |timestamps|
      invariant 0 <= i <= |timestamps|
      invariant Pipeline(fw, db.reachable, db.rows, open, timestamps[..i]) == Success(processed)
      invariant Scoped(before, disk.files, scope.paths, disk.stuck)
      invariant db.openConnections == old(db.openConnections)
      invariant Registered(db.reachable, db.rows, open, timestamps, scope.paths, disk.files)
      invariant |scope.paths| == i
    {
      PipelineExtend(fw, db.reachable, db.rows, open, timestamps, i);
      var got := FetchAndRegister(fw, db, disk, open, timestamps, i, scope, before);
      if got.Failure? {
        PipelineStops(fw, db.reachable, db.rows, open, timestamps, i + 1);
        return Failure(got.error);
      }
      processed := processed + [got.value];
      i := i + 1;
    }
    assert timestamps[..i] == timestamps;
    r := Success(processed);
  }

  /** One iteration, for timestamp `ts[i]`: `get_db_data(ts)`, registering
      the returned path, then `process_timestamp_data(ds)`. */
  method FetchAndRegister(fw: Framework, db: Database, disk: Disk, open: Opener, ts: seq<DateTime>, i: nat,
                          scope: TempScope, ghost before: map<string, Bytes>)
    returns (r: Result<Record, Error>)
    requires i < |ts| && |scope.paths| == i
    requires Scoped(before, disk.files, scope.paths, disk.stuck)
    requires Registered(db.reachable, db.rows, open, ts, scope.paths, disk.files)
    modifies db, disk, scope
    ensures r == Step(fw, db.reachable, db.rows, open, ts[i])
    ensures Scoped(before, disk.files, scope.paths, disk.stuck)
    ensures Registered(db.reachable, db.rows, open, ts, scope.paths, disk.files)
    ensures r.Success? ==> |scope.paths| == i + 1
    ensures r.Failure? ==> StoppedAt(fw, db.reachable, db.rows, open, ts, |scope.paths|, r.error)
    ensures db.openConnections == old(db.openConnections)
  {
    ghost var files, paths := disk.files, scope.paths;
    var got := GetDbData(fw, db, disk, open, ts[i]);
    if got.Failure? {
      RegisteredKeep(fw, db.reachable, db.rows, open, ts, paths, files, disk.files, disk.stuck);
      return Failure(got.error);
    }
    var (ds, p) := got.value;
    scope.Register(p);
    RegisteredGrow(fw, db.reachable, db.rows, open, ts, paths, files, p);
    r := ProcessSnapshot(fw, ds);
  }

  /** Registering the file of the next fetch, which succeeded. */
  lemma RegisteredGrow(fw: Framework, reachable: bool, rows: map<DateTime, Bytes>, open: Opener,
                       ts: seq<DateTime>, paths: seq<string>, files: map<string, Bytes>, p: string)
    requires Registered(reachable, rows, open, ts, paths, files)
    requires |paths| < |ts| && Fetch(fw, reachable, rows, open, ts[|paths|]).Success? && p !in files
    ensures Registered(reachable, rows, open, ts, paths + [p], files[p := rows[ts[|paths|]]])
  {
    var paths', files' := paths + [p], files[p := rows[ts[|paths|]]];
    forall j | 0 <= j < |paths'|
      ensures ts[j] in rows && open(rows[ts[j]]).Some?
      ensures paths'[j] in files' && files'[paths'[j]] == rows[ts[j]]
    {
      if j < |paths| {
        assert paths'[j] == paths[j] && paths[j] in files;
      }
    }
  }

  /** A failed fetch leaves every registered file as it was. */
  lemma RegisteredKeep(fw: Framework, reachable: bool, rows: map<DateTime, Bytes>, open: Opener,
                       ts: seq<DateTime>, paths: seq<string>, files: map<string, Bytes>,
                       after: map<string, Bytes>, stuck: set<string>)
    requires Registered(reachable, rows, open, ts, paths, files)
    requires Residue(files, after, stuck)
    ensures Registered(reachable, rows, open, ts, paths, after)
  {
  }

  /** After the registered files are removed, what is left of the run on
      disk is the files that were there before, unchanged, and `.nc` files
      whose removal failed. */
  lemma Cleanup(before: map<string, Bytes>, mid: map<string, Bytes>, paths: seq<string>, stuck: set<string>)
    requires forall p :: p in paths ==> EndsWith(p, ".nc") && p !in before
    requires forall p :: p in before ==> p in mid && mid[p] == before[p]
    requires forall p :: p in mid && p !in before ==> p in paths || (p in stuck && EndsWith(p, ".nc"))
    ensures Residue(before, mid - (set p | p in paths && p !in stuck), stuck)
  {
  }

  /** The same when the run also wrote a file `out` that is not a `.nc`
      file: `out` holds what was written, and apart from it what is left is
      as above. */
  lemma CleanupAfterSave(before: map<string, Bytes>, mid: map<string, Bytes>, out: string, content: Bytes,
                         paths: seq<string>, stuck: set<string>)
    requires !EndsWith(out, ".nc")
    requires forall p :: p in paths ==> EndsWith(p, ".nc") && p !in before
    requires forall p :: p in before ==> p in mid && mid[p] == before[p]
    requires forall p :: p in mid && p !in before ==> p in paths || (p in stuck && EndsWith(p, ".nc"))
    ensures var after := mid[out := content] - (set p | p in paths && p !in stuck);
      out in after && after[out] == content && Residue(before - {out}, after - {out}, stuck)
  {
  }
}
