/** `SQL/wrf_result_plot.py`: the Flask service that animates a fixed list
    of hourly snapshots from PostgreSQL into its `static` directory. It
    shares the fetch-and-process loop with the FastAPI variant but raises
    plain exceptions, draws no colour bar and wraps a failure only once. */
module FlaskPlot {
  import opened Outcomes
  import opened Text
  import opened Clock
  import opened TimeFormat
  import opened Fields
  import opened Errors
  import opened Render
  import opened Resources
  import opened Snapshots
  import opened DbPlot

  /** `STATIC_DIR = os.path.join(app.root_path, 'static')`; the root path
      is where the application module lives. */
  function StaticDir(rootPath: string): (r: string)
    ensures EndsWith(r, "static")
  {
    JoinPath(rootPath, "static")
  }

  /** The animation this variant draws: record `i` titled with timestamp
      `i`, and no colour bar. */
  function FlaskAnimation(records: seq<Record>, timestamps: seq<DateTime>): Animation
    requires |records| == |timestamps|
    requires forall i :: 0 <= i < |timestamps| ==> Valid(timestamps[i])
  {
    Animation(None, Frames(records, Titles(timestamps)), IntervalMs, Fps)
  }

  /** What `create_animation(timestamps)` returns, with the bytes it saves,
      or the exception it raises: every exception, an empty list's
      `IndexError` on `timestamps[0]` included, is re-raised once as a plain
      "Animation creation failed". */
  function CreateOutcome(reachable: bool, rows: map<DateTime, Bytes>, open: Opener, render: Renderer,
                         timestamps: seq<DateTime>, rootPath: string): (r: Result<(string, Bytes), Error>)
    requires forall i :: 0 <= i < |timestamps| ==> Valid(timestamps[i])
    ensures r.Failure? ==> r.error.Plain? && r.error.detail.AnimationCreationFailed?
    ensures Pipeline(Flask, reachable, rows, open, timestamps).Failure? ==>
      r == Failure(Plain(AnimationCreationFailed(Pipeline(Flask, reachable, rows, open, timestamps).error)))
    ensures r.Success? ==> Pipeline(Flask, reachable, rows, open, timestamps).Success? && EndsWith(r.value.0, ".gif")
  {
    match Pipeline(Flask, reachable, rows, open, timestamps)
    case Failure(e) => Failure(Plain(AnimationCreationFailed(e)))
    case Success(records) =>
      PipelineSuccess(Flask, reachable, rows, open, timestamps);
      Draw(records, timestamps, render, rootPath)
  }

  /** The drawing and saving that follow the loop: an empty list raises
      `IndexError`, and a failed save is wrapped once. */
  function Draw(records: seq<Record>, timestamps: seq<DateTime>, render: Renderer, rootPath: string)
    : (r: Result<(string, Bytes), Error>)
    requires |records| == |timestamps|
    requires forall i :: 0 <= i < |timestamps| ==> Valid(timestamps[i])
    ensures r.Failure? ==> r.error in {Plain(AnimationCreationFailed(EmptyList)), Plain(AnimationCreationFailed(SaveFailed))}
    ensures records == [] ==> r.Failure?
    ensures r.Success? ==>
      && render.save(FlaskAnimation(records, timestamps)) == Some(r.value.1)
      && EndsWith(r.value.0, ".gif")
  {
    if records == [] then Failure(Plain(AnimationCreationFailed(EmptyList)))
    else
      match render.save(FlaskAnimation(records, timestamps))
      case None => Failure(Plain(AnimationCreationFailed(SaveFailed)))
      case Some(gif) => Success((OutputPath(StaticDir(rootPath), timestamps[0], timestamps[|timestamps| - 1]), gif))
  }

  /** No failure carries an HTTP status: each is a plain "Animation creation
      failed" whose cause is a plain exception of the loop, a snapshot that
      does not decode, the empty list or the save. */
  lemma CreateFailureIsPlain(reachable: bool, rows: map<DateTime, Bytes>, open: Opener, render: Renderer,
                             timestamps: seq<DateTime>, rootPath: string)
    requires forall i :: 0 <= i < |timestamps| ==> Valid(timestamps[i])
    requires CreateOutcome(reachable, rows, open, render, timestamps, rootPath).Failure?
    ensures var e := CreateOutcome(reachable, rows, open, render, timestamps, rootPath).error;
      && e.Plain? && e.detail.AnimationCreationFailed?
      && var cause := e.detail.cause;
         cause.Plain? || cause == OpenFailed || cause == EmptyList || cause == SaveFailed
  {
    var step := StepFn(Flask, reachable, rows, open);
    if Collect(step, timestamps).Failure? {
      var k := CollectFailure(step, timestamps);
      assert step(timestamps[k]) == Step(Flask, reachable, rows, open, timestamps[k]);
    }
  }

  /** Without a database every non-empty run fails on its first timestamp,
      with the connection failure as the cause. */
  lemma UnreachableFails(rows: map<DateTime, Bytes>, open: Opener, render: Renderer,
                         timestamps: seq<DateTime>, rootPath: string)
    requires forall i :: 0 <= i < |timestamps| ==> Valid(timestamps[i])
    requires |timestamps| > 0
    ensures CreateOutcome(false, rows, open, render, timestamps, rootPath)
      == Failure(Plain(AnimationCreationFailed(Plain(DatabaseConnectionFailed))))
  {
    var step := StepFn(Flask, false, rows, open);
    assert step(timestamps[0]).Failure?;
    if Collect(step, timestamps).Success? {
      CollectSuccess(step, timestamps);
      assert false;
    }
    var k := CollectFailure(step, timestamps);
    assert step(timestamps[k]) == Step(Flask, false, rows, open, timestamps[k]);
  }

  /** A successful run drew one frame per timestamp, in order: frame `i`
      shows what timestamp `i` fetches and processes to, titled with that
      timestamp, with the common levels and viewport and no colour bar;
      the GIF is saved in the `static` directory under the first and last
      timestamps. */
  lemma CreateSuccessFrames(reachable: bool, rows: map<DateTime, Bytes>, open: Opener, render: Renderer,
                            timestamps: seq<DateTime>, rootPath: string)
      returns (a: Animation)
    requires forall i :: 0 <= i < |timestamps| ==> Valid(timestamps[i])
    requires CreateOutcome(reachable, rows, open, render, timestamps, rootPath).Success?
    ensures |timestamps| > 0
    ensures render.save(a) == Some(CreateOutcome(reachable, rows, open, render, timestamps, rootPath).value.1)
    ensures CreateOutcome(reachable, rows, open, render, timestamps, rootPath).value.0
      == JoinPath(StaticDir(rootPath), AnimationName(timestamps[0], timestamps[|timestamps| - 1]))
    ensures |a.frames| == |timestamps| && a.intervalMs == 2000 && a.fps == 2 && a.colorbar.None?
    ensures forall i :: 0 <= i < |timestamps| ==>
      && Step(Flask, reachable, rows, open, timestamps[i]) == Success(a.frames[i].data)
      && a.frames[i].title == TitleStamp(timestamps[i])
      && a.frames[i].levels == Levels() && a.frames[i].view == Pohang
  {
    var recs := Pipeline(Flask, reachable, rows, open, timestamps).value;
    PipelineSuccess(Flask, reachable, rows, open, timestamps);
    a := FlaskAnimation(recs, timestamps);
    TitledFrames(recs, timestamps);
  }

  /** `WRFDataProcessor.create_animation(timestamps)`. */
  method CreateAnimation(db: Database, disk: Disk, open: Opener, render: Renderer,
                         timestamps: seq<DateTime>, rootPath: string)
    returns (r: Result<string, Error>)
    requires forall i :: 0 <= i < |timestamps| ==> Valid(timestamps[i])
    modifies db, disk
    ensures var o := CreateOutcome(db.reachable, db.rows, open, render, timestamps, rootPath);
      && (r.Success? <==> o.Success?)
      && (r.Success? ==> r.value == o.value.0 && r.value in disk.files && disk.files[r.value] == o.value.1)
      && (r.Failure? ==> r.error == o.error)
    ensures r.Success? ==> Residue(old(disk.files) - {r.value}, disk.files - {r.value}, disk.stuck)
    ensures r.Failure? ==> Residue(old(disk.files), disk.files, disk.stuck)
    ensures db.openConnections == old(db.openConnections)
  {
    var scope := new TempScope();
    var collected := CollectRecords(Flask, db, disk, open, timestamps, scope);
    ghost var mid := disk.files;
    if collected.Failure? {
      r := Failure(Plain(AnimationCreationFailed(collected.error)));
    } else {
      PipelineSuccess(Flask, db.reachable, db.rows, open, timestamps);
      r := SaveAnimation(disk, render, collected.value, timestamps, rootPath);
    }
    ghost var written := disk.files;
    scope.Exit(disk);
    if r.Success? {
      GifIsNotNc(r.value);
      CleanupAfterSave(old(disk.files), mid, r.value, written[r.value], scope.paths, disk.stuck);
    } else {
      Cleanup(old(disk.files), mid, scope.paths, disk.stuck);
    }
  }

  /** Drawing the records and saving the GIF in the `static` directory,
      still inside the temporary file scope; nothing is written when
      drawing or saving raises. */
  method SaveAnimation(disk: Disk, render: Renderer, records: seq<Record>, timestamps: seq<DateTime>, rootPath: string)
    returns (r: Result<string, Error>)
    requires |records| == |timestamps|
    requires forall i :: 0 <= i < |timestamps| ==> Valid(timestamps[i])
    modifies disk
    ensures var o := Draw(records, timestamps, render, rootPath);
      && (r.Success? <==> o.Success?)
      && (r.Success? ==> EndsWith(r.value, ".gif"))
      && (r.Success? ==> r.value == o.value.0 && disk.files == old(disk.files)[r.value := o.value.1])
      && (r.Failure? ==> r.error == o.error && disk.files == old(disk.files))
    ensures disk.removals == old(disk.removals)
  {
    if records == [] {
      return Failure(Plain(AnimationCreationFailed(EmptyList)));
    }
    var saved := render.save(FlaskAnimation(records, timestamps));
    if saved.None? {
      return Failure(Plain(AnimationCreationFailed(SaveFailed)));
    }
    var out := OutputPath(StaticDir(rootPath), timestamps[0], timestamps[|timestamps| - 1]);
    disk.Write(out, saved.value);
    r := Success(out);
  }

  // ---------------------------------------------------------------------
  // The `/RESULT` route's timestamps

  /** The first `n` whole hours of one day. */
  function DayHours(year: int, month: int, day: int, n: nat): (r: seq<DateTime>)
    requires n <= 24 && Valid(DateTime(year, month, day, 0, 0, 0))
    ensures |r| == n && forall h :: 0 <= h < n ==> Valid(r[h])
  {
    seq(n, h requires 0 <= h < n => DateTime(year, month, day, h, 0, 0))
  }

  /** `[datetime(2024, 1, 1, hour) for hour in range(6)]`. */
  function ResultTimestamps(): (r: seq<DateTime>)
    ensures |r| == 6 && forall i :: 0 <= i < |r| ==> Valid(r[i])
  {
    DayHours(2024, 1, 1, 6)
  }

  /** Two whole hours of the same day are that many hours apart. */
  lemma SameDaySeconds(year: int, month: int, day: int, h: int)
    requires Valid(DateTime(year, month, day, 0, 0, 0)) && 0 <= h < 24
    ensures Valid(DateTime(year, month, day, h, 0, 0))
    ensures ToSeconds(DateTime(year, month, day, h, 0, 0)) == ToSeconds(DateTime(year, month, day, 0, 0, 0)) + Hour * h
  {
  }

  /** The first `n` hours of a day are exactly the hourly expansion from
      its midnight to hour `n - 1`. */
  lemma DayHoursAreHourly(year: int, month: int, day: int, n: nat)
    requires 1 < n <= 24 && Valid(DateTime(year, month, day, 0, 0, 0))
    ensures Valid(DateTime(year, month, day, n - 1, 0, 0))
    ensures Before(DateTime(year, month, day, 0, 0, 0), DateTime(year, month, day, n - 1, 0, 0))
    ensures DayHours(year, month, day, n)
      == HourlyTimestamps(DateTime(year, month, day, 0, 0, 0), DateTime(year, month, day, n - 1, 0, 0))
  {
    var first, last := DateTime(year, month, day, 0, 0, 0), DateTime(year, month, day, n - 1, 0, 0);
    var r := DayHours(year, month, day, n);
    SameDaySeconds(year, month, day, n - 1);
    var e := HourlyTimestamps(first, last);
    assert |e| == n by {
      assert ToSeconds(last) - ToSeconds(first) == Hour * (n - 1);
    }
    forall h | 0 <= h < n ensures r[h] == e[h] {
      SameDaySeconds(year, month, day, h);
      ToSecondsInjective(r[h], e[h]);
    }
  }

  /** `/RESULT` always animates the six whole hours from 2024-01-01 00:00
      to 05:00, in increasing order, as the FastAPI route would expand that
      range. */
  lemma ResultIsHourly(first: DateTime, last: DateTime)
    requires first == DateTime(2024, 1, 1, 0, 0, 0) && last == DateTime(2024, 1, 1, 5, 0, 0)
    ensures Valid(first) && Valid(last) && Before(first, last)
    ensures ResultTimestamps()[0] == first && ResultTimestamps()[5] == last
    ensures ResultTimestamps() == HourlyTimestamps(first, last)
    ensures forall i :: 0 <= i < 5 ==> Before(ResultTimestamps()[i], ResultTimestamps()[i + 1])
  {
    DayHoursAreHourly(first.year, first.month, first.day, 6);
    HourlyShape(first, last);
  }
}
