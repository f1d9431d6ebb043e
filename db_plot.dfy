/** `SQL/wrf_result_db_plot.py`: the FastAPI service that reads hourly
    NetCDF snapshots from PostgreSQL and saves them as one animated GIF. */
module DbPlot {
  import opened Outcomes
  import opened Text
  import opened Clock
  import opened TimeFormat
  import opened Fields
  import opened Errors
  import opened Render
  import opened Resources
  import opened Snapshots

  const Hour: nat := 3600

  /** The default `save_path`. */
  const AnimationDir: string := "/home/yurim2/WRF/SQL/animations"

  /** The datetimes `start + timedelta(hours=i)` for `i < n`, all valid
      when the last of them does not pass `end`. */
  function HoursFrom(s: nat, n: nat, end: DateTime): (r: seq<DateTime>)
    requires Valid(end) && s + Hour * (n - 1) <= ToSeconds(end)
    ensures |r| == n
    ensures forall i :: 0 <= i < n ==> Valid(r[i]) && ToSeconds(r[i]) == s + Hour * i
    decreases n
  {
    if n == 0 then []
    else
      var init := HoursFrom(s, n - 1, end);
      var t := s + Hour * (n - 1);
      DateTimeRoundTrip(end);
      SecondsRoundTrip(t);
      init + [FromSeconds(t)]
  }

  /** `[start + timedelta(hours=i) for i in range(int((end - start)
      .total_seconds() / 3600) + 1)]`: every whole hour from `start` that
      does not pass `end`. */
  function HourlyTimestamps(start: DateTime, end: DateTime): (r: seq<DateTime>)
    requires Valid(start) && Valid(end) && Before(start, end)
    ensures ToSeconds(start) < ToSeconds(end) && |r| == (ToSeconds(end) - ToSeconds(start)) / Hour + 1
    ensures forall i :: 0 <= i < |r| ==> Valid(r[i]) && ToSeconds(r[i]) == ToSeconds(start) + Hour * i
  {
    BeforeIsEarlier(start, end);
    var s, e := ToSeconds(start), ToSeconds(end);
    var n := (e - s) / Hour + 1;
    HourFloor(e - s, Hour * (n - 1));
    HoursFrom(s, n, end)
  }

  /** The list starts at `start`, steps by exactly one hour (so it strictly
      increases), and its last entry is the last whole hour not after `end`. */
  lemma HourlyShape(start: DateTime, end: DateTime)
    requires Valid(start) && Valid(end) && Before(start, end)
    ensures HourlyTimestamps(start, end)[0] == start
    ensures var r := HourlyTimestamps(start, end);
      forall i :: 0 <= i < |r| - 1 ==> ToSeconds(r[i + 1]) == ToSeconds(r[i]) + Hour && Before(r[i], r[i + 1])
    ensures var r := HourlyTimestamps(start, end);
      NotAfter(r[|r| - 1], end) && ToSeconds(end) < ToSeconds(r[|r| - 1]) + Hour
  {
    var r := HourlyTimestamps(start, end);
    ToSecondsInjective(r[0], start);
    HourlySteps(r, ToSeconds(start));
    BeforeIsEarlier(start, end);
    HourlyLast(start, end, r[|r| - 1]);
  }

  lemma HourlySteps(r: seq<DateTime>, s: nat)
    requires forall i :: 0 <= i < |r| ==> Valid(r[i]) && ToSeconds(r[i]) == s + Hour * i
    ensures forall i :: 0 <= i < |r| - 1 ==> ToSeconds(r[i + 1]) == ToSeconds(r[i]) + Hour && Before(r[i], r[i + 1])
  {
    forall i | 0 <= i < |r| - 1
      ensures ToSeconds(r[i + 1]) == ToSeconds(r[i]) + Hour && Before(r[i], r[i + 1])
    {
      assert ToSeconds(r[i + 1]) == s + Hour * (i + 1) == s + Hour * i + Hour;
      BeforeIsEarlier(r[i], r[i + 1]);
    }
  }

  lemma HourlyLast(start: DateTime, end: DateTime, last: DateTime)
    requires Valid(start) && Valid(end) && Valid(last)
    requires ToSeconds(start) <= ToSeconds(end)
    requires ToSeconds(last) == ToSeconds(start) + Hour * ((ToSeconds(end) - ToSeconds(start)) / Hour)
    ensures NotAfter(last, end) && ToSeconds(end) < ToSeconds(last) + Hour
  {
    var s, e, l := ToSeconds(start), ToSeconds(end), ToSeconds(last);
    HourFloor(e - s, l - s);
    if l < e {
      BeforeIsEarlier(last, end);
    } else {
      ToSecondsInjective(last, end);
    }
  }

  lemma HourFloor(d: nat, q: int)
    requires q == Hour * (d / Hour)
    ensures q <= d < q + Hour
  {
  }

  /** A valid datetime is in the list exactly when it lies in
      `[start, end]` a whole number of hours after `start`. */
  lemma HourlyMembers(start: DateTime, end: DateTime, d: DateTime)
    requires Valid(start) && Valid(end) && Before(start, end) && Valid(d)
    ensures d in HourlyTimestamps(start, end) <==>
      NotAfter(start, d) && NotAfter(d, end) && (ToSeconds(d) - ToSeconds(start)) % Hour == 0
  {
    BeforeIsEarlier(start, end);
    EarlierOrEqual(start, d);
    EarlierOrEqual(d, end);
    HourGridMembers(HourlyTimestamps(start, end), ToSeconds(start), ToSeconds(end), d);
  }

  /** A list holding the whole hours from second `s` up to second `e`
      contains exactly the datetimes on that grid. */
  lemma HourGridMembers(r: seq<DateTime>, s: nat, e: nat, d: DateTime)
    requires s <= e && |r| == (e - s) / Hour + 1 && Valid(d)
    requires forall i :: 0 <= i < |r| ==> Valid(r[i]) && ToSeconds(r[i]) == s + Hour * i
    ensures d in r <==> s <= ToSeconds(d) <= e && (ToSeconds(d) - s) % Hour == 0
  {
    var t := ToSeconds(d);
    if d in r {
      var i :| 0 <= i < |r| && r[i] == d;
      assert t - s == Hour * i;
      MultipleOfHour(t - s, i, e - s);
    } else if s <= t <= e && (t - s) % Hour == 0 {
      var i := (t - s) / Hour;
      MultipleOfHour(t - s, i, e - s);
      ToSecondsInjective(r[i], d);
      assert false;
    }
  }

  lemma MultipleOfHour(x: int, i: nat, m: nat)
    requires x == Hour * i || (x >= 0 && x % Hour == 0 && i == x / Hour)
    ensures x == Hour * i && x % Hour == 0
    ensures x <= m ==> i < m / Hour + 1
  {
  }

  lemma EarlierOrEqual(a: DateTime, b: DateTime)
    requires Valid(a) && Valid(b)
    ensures NotAfter(a, b) <==> ToSeconds(a) <= ToSeconds(b)
  {
    BeforeIsEarlier(a, b);
    if ToSeconds(a) == ToSeconds(b) {
      ToSecondsInjective(a, b);
    }
  }

  /** The frame titles, `timestamps[frame].strftime('%Y-%m-%d %H:%M')`. */
  function Titles(timestamps: seq<DateTime>): (r: seq<string>)
    requires forall i :: 0 <= i < |timestamps| ==> Valid(timestamps[i])
    ensures |r| == |timestamps|
  {
    seq(|timestamps|, i requires 0 <= i < |timestamps| => TitleStamp(timestamps[i]))
  }

  /** Frame `i` shows record `i` under the title of timestamp `i`. */
  lemma TitledFrames(records: seq<Record>, timestamps: seq<DateTime>)
    requires |records| == |timestamps|
    requires forall i :: 0 <= i < |timestamps| ==> Valid(timestamps[i])
    ensures var f := Frames(records, Titles(timestamps));
      && |f| == |timestamps|
      && forall i :: 0 <= i < |timestamps| ==>
        && f[i].data == records[i] && f[i].title == TitleStamp(timestamps[i])
        && f[i].levels == Levels() && f[i].view == Pohang
  {
    var titles := Titles(timestamps);
    assert forall i :: 0 <= i < |timestamps| ==> titles[i] == TitleStamp(timestamps[i]);
  }

  /** The colour bar drawn from the first record before the animation is
      built. */
  function DbColorbar(records: seq<Record>): Colorbar
    requires |records| > 0
  {
    Colorbar(records[0], Levels(), "Temperature (°C)")
  }

  /** The animation `create_animation` draws: a colour bar from the first
      record, then record `i` titled with timestamp `i`. */
  function DbAnimation(records: seq<Record>, timestamps: seq<DateTime>): Animation
    requires |records| == |timestamps| > 0
    requires forall i :: 0 <= i < |timestamps| ==> Valid(timestamps[i])
  {
    Animation(Some(DbColorbar(records)), Frames(records, Titles(timestamps)), IntervalMs, Fps)
  }

  /** `os.path.join(save_path, f"wrf_animation_{first}_{last}.gif")`. */
  function OutputPath(savePath: string, first: DateTime, last: DateTime): (r: string)
    requires Valid(first) && Valid(last)
    ensures EndsWith(r, ".gif")
  {
    var name := AnimationName(first, last);
    EndsWithTransitive(JoinPath(savePath, name), name, ".gif");
    JoinPath(savePath, name)
  }

  /** What `create_animation(timestamps, save_path)` returns, with the
      bytes it saves, or the exception it raises: every exception is
      re-raised as a 500 "Animation creation failed", so one from the loop
      is wrapped once. */
  function CreateOutcome(reachable: bool, rows: map<DateTime, Bytes>, open: Opener, render: Renderer,
                         timestamps: seq<DateTime>, savePath: string): (r: Result<(string, Bytes), Error>)
    requires forall i :: 0 <= i < |timestamps| ==> Valid(timestamps[i])
    ensures r.Failure? ==> r.error.Http? && r.error.status == 500 && r.error.detail.AnimationCreationFailed?
    ensures Pipeline(FastApi, reachable, rows, open, timestamps).Failure? ==>
      r == Failure(Http(500, AnimationCreationFailed(Pipeline(FastApi, reachable, rows, open, timestamps).error)))
    ensures r.Success? ==> Pipeline(FastApi, reachable, rows, open, timestamps).Success? && EndsWith(r.value.0, ".gif")
  {
    match Pipeline(FastApi, reachable, rows, open, timestamps)
    case Failure(e) => Failure(Http(500, AnimationCreationFailed(e)))
    case Success(records) =>
      PipelineSuccess(FastApi, reachable, rows, open, timestamps);
      Draw(records, timestamps, render, savePath)
  }

  /** The drawing and saving that follow the loop. An empty list raises
      `IndexError`, and a failing colour bar raises before the inner `try`:
      both are wrapped once. A failed save is wrapped by the inner handler
      and then again by the outer one. */
  function Draw(records: seq<Record>, timestamps: seq<DateTime>, render: Renderer, savePath: string)
    : (r: Result<(string, Bytes), Error>)
    requires |records| == |timestamps|
    requires forall i :: 0 <= i < |timestamps| ==> Valid(timestamps[i])
    ensures r.Failure? ==> r.error.Http? && r.error.status == 500 && r.error.detail.AnimationCreationFailed?
    ensures r.Failure? ==>
      r.error.detail.cause in {EmptyList, ColorbarFailed, Http(500, AnimationCreationFailed(SaveFailed))}
    ensures r.Failure? && records != [] && !render.drawColorbar(DbColorbar(records)) ==>
      r.error.detail.cause == ColorbarFailed
    ensures r.Success? ==>
      && records != [] && render.drawColorbar(DbColorbar(records))
      && render.save(DbAnimation(records, timestamps)) == Some(r.value.1)
      && EndsWith(r.value.0, ".gif")
  {
    if records == [] then Failure(Http(500, AnimationCreationFailed(EmptyList)))
    else if !render.drawColorbar(DbColorbar(records)) then Failure(Http(500, AnimationCreationFailed(ColorbarFailed)))
    else
      match render.save(DbAnimation(records, timestamps))
      case None => Failure(Http(500, AnimationCreationFailed(Http(500, AnimationCreationFailed(SaveFailed)))))
      case Some(gif) => Success((OutputPath(savePath, timestamps[0], timestamps[|timestamps| - 1]), gif))
  }

  /** A successful run drew one frame per timestamp, in order: frame `i`
      shows what timestamp `i` fetches and processes to, titled with that
      timestamp, with the common levels and viewport; the colour bar comes
      from the first record; the GIF is named after the first and last
      timestamps. */
  lemma CreateSuccessFrames(reachable: bool, rows: map<DateTime, Bytes>, open: Opener, render: Renderer,
                            timestamps: seq<DateTime>, savePath: string)
      returns (a: Animation)
    requires forall i :: 0 <= i < |timestamps| ==> Valid(timestamps[i])
    requires CreateOutcome(reachable, rows, open, render, timestamps, savePath).Success?
    ensures |timestamps| > 0
    ensures render.save(a) == Some(CreateOutcome(reachable, rows, open, render, timestamps, savePath).value.1)
    ensures CreateOutcome(reachable, rows, open, render, timestamps, savePath).value.0
      == JoinPath(savePath, AnimationName(timestamps[0], timestamps[|timestamps| - 1]))
    ensures |a.frames| == |timestamps| && a.intervalMs == 2000 && a.fps == 2
    ensures a.colorbar.Some? && a.colorbar.value.data == a.frames[0].data && a.colorbar.value.levels == Levels()
    ensures render.drawColorbar(a.colorbar.value)
    ensures forall i :: 0 <= i < |timestamps| ==>
      && Step(FastApi, reachable, rows, open, timestamps[i]) == Success(a.frames[i].data)
      && a.frames[i].title == TitleStamp(timestamps[i])
      && a.frames[i].levels == Levels() && a.frames[i].view == Pohang
  {
    var recs := Pipeline(FastApi, reachable, rows, open, timestamps).value;
    PipelineSuccess(FastApi, reachable, rows, open, timestamps);
    a := DbAnimation(recs, timestamps);
    TitledFrames(recs, timestamps);
  }

  /** `WRFDataProcessor.create_animation(timestamps, save_path)`. */
  method CreateAnimation(db: Database, disk: Disk, open: Opener, render: Renderer,
                         timestamps: seq<DateTime>, savePath: string)
    returns (r: Result<string, Error>)
    requires forall i :: 0 <= i < |timestamps| ==> Valid(timestamps[i])
    modifies db, disk
    ensures var o := CreateOutcome(db.reachable, db.rows, open, render, timestamps, savePath);
      && (r.Success? <==> o.Success?)
      && (r.Success? ==> r.value == o.value.0 && r.value in disk.files && disk.files[r.value] == o.value.1)
      && (r.Failure? ==> r.error == o.error)
    ensures r.Success? ==> Residue(old(disk.files) - {r.value}, disk.files - {r.value}, disk.stuck)
    ensures r.Failure? ==> Residue(old(disk.files), disk.files, disk.stuck)
    ensures db.openConnections == old(db.openConnections)
  {
    var scope := new TempScope();
    var collected := CollectRecords(FastApi, db, disk, open, timestamps, scope);
    ghost var mid := disk.files;
    if collected.Failure? {
      r := Failure(Http(500, AnimationCreationFailed(collected.error)));
    } else {
      PipelineSuccess(FastApi, db.reachable, db.rows, open, timestamps);
      r := SaveAnimation(disk, render, collected.value, timestamps, savePath);
    }
    ghost var written := disk.files;
    scope.Exit(disk);
    if r.Success? {
      GifIsNotNc(r.value);
      CleanupAfterSave(old(disk.files), mid, r.value, written[r.value], scope.paths, disk.stuck);
    } else {
      Cleanup(old(disk.files), mid, scope.paths, disk.stuck);
    }
  }

  /** Drawing the records and saving the GIF, still inside the temporary
      file scope; nothing is written when drawing or saving raises. */
  method SaveAnimation(disk: Disk, render: Renderer, records: seq<Record>, timestamps: seq<DateTime>, savePath: string)
    returns (r: Result<string, Error>)
    requires |records| == |timestamps|
    requires forall i :: 0 <= i < |timestamps| ==> Valid(timestamps[i])
    modifies disk
    ensures var o := Draw(records, timestamps, render, savePath);
      && (r.Success? <==> o.Success?)
      && (r.Success? ==> EndsWith(r.value, ".gif"))
      && (r.Success? ==> r.value == o.value.0 && disk.files == old(disk.files)[r.value := o.value.1])
      && (r.Failure? ==> r.error == o.error && disk.files == old(disk.files))
    ensures disk.removals == old(disk.removals)
  {
    if records == [] {
      return Failure(Http(500, AnimationCreationFailed(EmptyList)));
    }
    if !render.drawColorbar(DbColorbar(records)) {
      return Failure(Http(500, AnimationCreationFailed(ColorbarFailed)));
    }
    var saved := render.save(DbAnimation(records, timestamps));
    if saved.None? {
      return Failure(Http(500, AnimationCreationFailed(Http(500, AnimationCreationFailed(SaveFailed)))));
    }
    var out := OutputPath(savePath, timestamps[0], timestamps[|timestamps| - 1]);
    disk.Write(out, saved.value);
    r := Success(out);
  }

  /** The `/wrf-result-animation` route: 400 when `end <= start`, before
      anything else happens; otherwise the hourly timestamps are animated
      and any failure is re-raised as a 500 "Animation generation failed". */
  method GenerateAnimation(db: Database, disk: Disk, open: Opener, render: Renderer,
                           start: DateTime, end: DateTime, savePath: string)
    returns (r: Result<string, Error>)
    requires Valid(start) && Valid(end)
    modifies db, disk
    ensures !Before(start, end) ==> r == Failure(Http(400, EndNotAfterStart))
    ensures !Before(start, end) ==> disk.files == old(disk.files) && disk.removals == old(disk.removals)
    ensures Before(start, end) ==>
      var o := CreateOutcome(db.reachable, db.rows, open, render, HourlyTimestamps(start, end), savePath);
      && (r.Success? <==> o.Success?)
      && (r.Success? ==> r.value == o.value.0 && r.value in disk.files && disk.files[r.value] == o.value.1)
      && (r.Failure? ==> o.Failure? && r.error == Http(500, AnimationGenerationFailed(o.error)))
    ensures db.openConnections == old(db.openConnections)
  {
    if !Before(start, end) {
      return Failure(Http(400, EndNotAfterStart));
    }
    var timestamps := HourlyTimestamps(start, end);
    r := CreateAnimation(db, disk, open, render, timestamps, savePath);
    if r.Failure? {
      r := Failure(Http(500, AnimationGenerationFailed(r.error)));
    }
  }
}
