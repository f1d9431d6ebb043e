/** `SQL/wrf_result_nc_plot.py`: the FastAPI service that animates the WRF
    output files of one directory whose names fall in a requested time
    range. */
module NcPlot {
  import opened Outcomes
  import opened Text
  import opened Clock
  import opened TimeFormat
  import opened Fields
  import opened Errors
  import opened Render
  import opened Resources

  /** The part of a WRF output file name before its timestamp. */
  const Prefix: string := "wrfout_d01_"

  /** The default `data_dir`, as `str(Path(data_dir))` prints it. */
  const DataDir: string := "/home/yurim2/WRF/SQL"

  /** The default `save_path`. */
  const AnimationDir: string := "/home/yurim2/WRF/SQL/animations"

  // ---------------------------------------------------------------------
  // File names

  /** `_get_datetime_from_filename(name)`: the text after the first
      `wrfout_d01_` (up to a second one, if any), spaces removed, parsed in
      full with `%Y-%m-%d_%H:%M:%S`; `None` wherever Python raises. */
  function TimeFromFilename(name: string): (r: Option<DateTime>)
    ensures r.Some? ==> Valid(r.value)
    ensures r.Some? ==> exists k :: OccursAt(name, Prefix, k)
  {
    var piece :- SecondPiece(name, Prefix);
    ParseFileStamp(RemoveSpaces(piece))
  }

  /** The name WRF gives the output of datetime `d`. */
  function CanonicalName(d: DateTime): (r: string)
    requires Valid(d)
    ensures StartsWith(r, Prefix)
  {
    Prefix + FileStamp(d)
  }

  /** No string without a `w` holds the prefix. */
  lemma NoPrefixIn(s: string)
    requires 'w' !in s
    ensures forall k: nat :: !OccursAt(s, Prefix, k)
  {
    forall k: nat ensures !OccursAt(s, Prefix, k) {
      if k + |Prefix| <= |s| {
        assert s[k..k + |Prefix|][0] == s[k];
        assert s[k] in s;
      }
    }
  }

  /** After the prefix, a remainder without a `w` is parsed whole, with its
      spaces removed. */
  lemma TimeAfterPrefix(t: string)
    requires 'w' !in t
    ensures TimeFromFilename(Prefix + t) == ParseFileStamp(RemoveSpaces(t))
  {
    NoPrefixIn(t);
    SecondPieceAfterSeparator(Prefix, t);
  }

  /** Every canonical name parses back to its datetime. */
  lemma FilenameRoundTrip(d: DateTime)
    requires Valid(d)
    ensures TimeFromFilename(CanonicalName(d)) == Some(d)
  {
    var t := FileStamp(d);
    FileStampCharacters(d);
    assert ' ' !in t && 'w' !in t;
    TimeAfterPrefix(t);
    FileStampRoundTrip(d);
  }

  /** A name in which the prefix does not occur gives `None`. */
  lemma RejectsWithoutPrefix(name: string)
    requires forall k: nat :: !OccursAt(name, Prefix, k)
    ensures TimeFromFilename(name) == None
  {
  }

  /** Text after the seconds, such as the extension in `.nc`, gives `None`. */
  lemma RejectsTrailingText(d: DateTime, rest: string)
    requires Valid(d) && rest != [] && ' ' !in rest && 'w' !in rest
    ensures TimeFromFilename(CanonicalName(d) + rest) == None
  {
    var t := FileStamp(d) + rest;
    FileStampCharacters(d);
    assert CanonicalName(d) + rest == Prefix + t;
    TimeAfterPrefix(t);
    assert RemoveSpaces(t) == t;
    StampWithTrailingText(d, rest);
  }

  /** A well-formed stamp of a date or time that does not exist (such as
      29 February 2023 or hour 24) gives `None`. */
  lemma RejectsImpossibleDate(y: nat, mo: nat, da: nat, h: nat, mi: nat, se: nat)
    requires y < 10000 && mo < 100 && da < 100 && h < 100 && mi < 100 && se < 100
    requires !Valid(DateTime(y, mo, da, h, mi, se))
    ensures TimeFromFilename(Prefix + Stamp(y, mo, da, h, mi, se)) == None
  {
    StampCharacters(y, mo, da, h, mi, se);
    TimeAfterPrefix(Stamp(y, mo, da, h, mi, se));
    StampParses(y, mo, da, h, mi, se);
  }

  /** Fields without their leading zeros are accepted. */
  lemma AcceptsUnpadded(d: DateTime)
    requires Valid(d)
    ensures TimeFromFilename(Prefix + UnpaddedStamp(d)) == Some(d)
  {
    UnpaddedStampCharacters(d);
    TimeAfterPrefix(UnpaddedStamp(d));
    UnpaddedStampParses(d);
  }

  /** Spaces anywhere after the prefix are ignored. */
  lemma IgnoresSpaces(d: DateTime, t: string)
    requires Valid(d) && 'w' !in t && RemoveSpaces(t) == FileStamp(d)
    ensures TimeFromFilename(Prefix + t) == Some(d)
  {
    TimeAfterPrefix(t);
    FileStampRoundTrip(d);
  }

  // ---------------------------------------------------------------------
  // Selecting files

  /** A name as a directory listing yields it. */
  predicate EntryName(n: string) {
    n != [] && '/' !in n
  }

  /** `glob('wrfout_d01_*')` on the listed names. */
  function Matching(names: seq<string>): (r: seq<string>)
    ensures forall n :: n in r <==> n in names && StartsWith(n, Prefix)
  {
    if names == [] then []
    else
      assert names == [names[0]] + names[1..];
      (if StartsWith(names[0], Prefix) then [names[0]] else []) + Matching(names[1..])
  }

  /** `file_time and start_time <= file_time <= end_time`. */
  predicate InRange(t: Option<DateTime>, start: DateTime, end: DateTime) {
    t.Some? && NotAfter(start, t.value) && NotAfter(t.value, end)
  }

  /** The names the loop of `find_files_in_timerange` keeps, in order. */
  function Select(names: seq<string>, start: DateTime, end: DateTime): (r: seq<string>)
    ensures forall n :: n in r <==> n in names && InRange(TimeFromFilename(n), start, end)
    decreases |names|
  {
    if names == [] then []
    else
      var init := Select(names[..|names| - 1], start, end);
      var last := names[|names| - 1];
      assert names == names[..|names| - 1] + [last];
      if InRange(TimeFromFilename(last), start, end) then init + [last] else init
  }

  /** `str(data_dir / name)` for each name. */
  function Paths(dir: string, names: seq<string>): (r: seq<string>)
    ensures |r| == |names|
    ensures forall i :: 0 <= i < |names| ==> r[i] == JoinPath(dir, names[i])
  {
    seq(|names|, i requires 0 <= i < |names| => JoinPath(dir, names[i]))
  }

  lemma SelectExtend(names: seq<string>, i: nat, start: DateTime, end: DateTime)
    requires i < |names|
    ensures Select(names[..i + 1], start, end) ==
      Select(names[..i], start, end) + if InRange(TimeFromFilename(names[i]), start, end) then [names[i]] else []
  {
    assert names[..i + 1][..i] == names[..i];
  }

  /** `glob` keeps every matching name as often as the listing holds it. */
  lemma {:induction false} MatchingCount(names: seq<string>)
    ensures forall m :: multiset(Matching(names))[m] ==
                        if StartsWith(m, Prefix) then multiset(names)[m] else 0
  {
    if names != [] {
      MatchingCount(names[1..]);
      assert names == [names[0]] + names[1..];
      assert multiset(names) == multiset([names[0]]) + multiset(names[1..]);
    }
  }

  /** The loop keeps every name in range as often as its input holds it,
      and no other name. */
  lemma {:induction false} SelectCount(names: seq<string>, start: DateTime, end: DateTime)
    ensures forall m :: multiset(Select(names, start, end))[m] ==
                        if InRange(TimeFromFilename(m), start, end) then multiset(names)[m] else 0
    decreases |names|
  {
    if names != [] {
      var init := names[..|names| - 1];
      var last := names[|names| - 1];
      SelectCount(init, start, end);
      assert names == init + [last];
      assert multiset(names) == multiset(init) + multiset([last]);
    }
  }

  lemma PathsExtend(dir: string, names: seq<string>, name: string)
    ensures Paths(dir, names + [name]) == Paths(dir, names) + [JoinPath(dir, name)]
  {
  }

  /** What `find_files_in_timerange(start, end)` returns or raises. */
  function FilesInRange(dir: string, listing: seq<string>, start: DateTime, end: DateTime)
    : (r: Result<seq<string>, Error>)
    ensures r.Success? ==> |r.value| > 0
  {
    var selected := Select(SortNames(Matching(listing)), start, end);
    if selected == [] then Failure(Http(404, NoFilesBetween(start, end)))
    else Success(Paths(dir, selected))
  }

  /** Selection keeps the order of its input. */
  lemma {:induction false} SelectAscending(names: seq<string>, start: DateTime, end: DateTime)
    requires Ascending(names)
    ensures Ascending(Select(names, start, end))
    decreases |names|
  {
    if names != [] {
      var init := names[..|names| - 1];
      var last := names[|names| - 1];
      assert Ascending(init);
      SelectAscending(init, start, end);
      var s := Select(init, start, end);
      if InRange(TimeFromFilename(last), start, end) {
        var r := s + [last];
        forall i, j | 0 <= i < j < |r| ensures !StrLess(r[j], r[i]) {
          if j == |r| - 1 {
            assert r[i] in s;
            var k :| 0 <= k < |init| && init[k] == r[i];
            assert names[k] == r[i];
          } else {
            assert r[i] == s[i] && r[j] == s[j];
          }
        }
      }
    }
  }

  /** `names` holds each listed name that matches the glob and lies in
      `[start, end]` exactly as often as the listing does, and nothing else. */
  ghost predicate KeepsCounts(names: seq<string>, listing: seq<string>, start: DateTime, end: DateTime) {
    forall m :: multiset(names)[m] ==
                  if StartsWith(m, Prefix) && InRange(TimeFromFilename(m), start, end) then multiset(listing)[m] else 0
  }

  /** The files found are the paths, in name order, of exactly the listed
      names that match the glob and whose time parses and lies in
      `[start, end]`; with none of them the search raises 404. */
  lemma FilesInRangeSpec(dir: string, listing: seq<string>, start: DateTime, end: DateTime)
      returns (names: seq<string>)
    ensures Ascending(names)
    ensures forall n :: n in names <==>
      n in listing && StartsWith(n, Prefix) && InRange(TimeFromFilename(n), start, end)
    ensures KeepsCounts(names, listing, start, end)
    ensures FilesInRange(dir, listing, start, end) ==
      if names == [] then Failure(Http(404, NoFilesBetween(start, end))) else Success(Paths(dir, names))
  {
    var sorted := SortNames(Matching(listing));
    names := Select(sorted, start, end);
    SelectAscending(sorted, start, end);
    MatchingCount(listing);
    SelectCount(sorted, start, end);
    forall n ensures n in sorted <==> n in Matching(listing) {
      assert n in sorted <==> n in multiset(sorted);
    }
  }

  /** For names WRF writes, name order is time order: the selected files
      come in chronological order. */
  lemma SelectChronological(names: seq<string>, start: DateTime, end: DateTime)
    requires Ascending(names)
    requires forall n :: n in names && TimeFromFilename(n).Some? ==>
      n == CanonicalName(TimeFromFilename(n).value)
    ensures var s := Select(names, start, end);
      forall i, j :: 0 <= i < j < |s| ==>
        TimeFromFilename(s[i]).Some? && TimeFromFilename(s[j]).Some? &&
        NotAfter(TimeFromFilename(s[i]).value, TimeFromFilename(s[j]).value)
  {
    var s := Select(names, start, end);
    SelectAscending(names, start, end);
    forall i, j | 0 <= i < j < |s|
      ensures TimeFromFilename(s[i]).Some? && TimeFromFilename(s[j]).Some?
      ensures NotAfter(TimeFromFilename(s[i]).value, TimeFromFilename(s[j]).value)
    {
      assert s[i] in s && s[j] in s;
      assert !StrLess(s[j], s[i]);
      CanonicalOrder(s[i], s[j]);
    }
  }

  /** Of two canonical names, the one that does not sort later holds the
      time that is not later. */
  lemma CanonicalOrder(x: string, y: string)
    requires TimeFromFilename(x).Some? && x == CanonicalName(TimeFromFilename(x).value)
    requires TimeFromFilename(y).Some? && y == CanonicalName(TimeFromFilename(y).value)
    requires !StrLess(y, x)
    ensures NotAfter(TimeFromFilename(x).value, TimeFromFilename(y).value)
  {
    var a, b := TimeFromFilename(x).value, TimeFromFilename(y).value;
    StrLessCommonPrefix(Prefix, FileStamp(b), FileStamp(a));
    FileStampOrder(b, a);
  }


  /** With unpadded hours name order is not time order: on a day whose
      month and day have two digits anyway, the file of 10:00 (or any later
      hour whose first digit is smaller) sorts before the file of 9:00,
      though both names parse. */
  lemma UnpaddedOutOfOrder(early: DateTime, late: DateTime)
    requires Valid(early) && Valid(late)
    requires early.year == late.year && early.month == late.month && early.day == late.day
    requires 10 <= early.month && 10 <= early.day
    requires early.hour < 10 <= late.hour && late.hour / 10 < early.hour
    ensures TimeFromFilename(Prefix + UnpaddedStamp(early)) == Some(early)
    ensures TimeFromFilename(CanonicalName(late)) == Some(late)
    ensures Before(early, late)
    ensures StrLess(CanonicalName(late), Prefix + UnpaddedStamp(early))
  {
    AcceptsUnpadded(early);
    FilenameRoundTrip(late);
    var year, month, day := Pad4(late.year), Field('-', late.month), Field('-', late.day);
    var x := Field('_', late.hour) + (Field(':', late.minute) + Field(':', late.second));
    var y := UnpaddedField('_', early.hour) + (UnpaddedField(':', early.minute) + UnpaddedField(':', early.second));
    assert FileStamp(late) == year + (month + (day + x));
    assert UnpaddedField('-', early.month) == month && UnpaddedField('-', early.day) == day;
    assert UnpaddedStamp(early) == year + (month + (day + y));
    SharedDate(Prefix, year, month, day, x);
    SharedDate(Prefix, year, month, day, y);
    StrLessCommonPrefix(Prefix + (year + (month + day)), x, y);
    HourDecides(late.hour, early.hour, Field(':', late.minute) + Field(':', late.second),
      UnpaddedField(':', early.minute) + UnpaddedField(':', early.second));
  }

  lemma HourDecides(a: nat, b: nat, r1: string, r2: string)
    requires a < 100 && b < 10 && a / 10 < b
    ensures StrLess(Field('_', a) + r1, UnpaddedField('_', b) + r2)
  {
    var x, y := Field('_', a) + r1, UnpaddedField('_', b) + r2;
    assert x[0] == y[0] == '_';
    assert x[1..][0] == Pad2(a)[0] == DigitChar(a / 10);
    assert y[1..][0] == Unpadded(b)[0] == DigitChar(b);
  }

  lemma SharedDate(p: string, year: string, month: string, day: string, x: string)
    ensures p + (year + (month + (day + x))) == (p + (year + (month + day))) + x
  {
  }

  // ---------------------------------------------------------------------
  // The data directory

  /** The data directory: its path, the names `glob` sees there in the
      order the file system lists them, and the bytes of each file by full
      path. `openHandles` counts the datasets opened and not closed. */
  class Volume {
    const path: string
    const listing: seq<string>
    const contents: map<string, Bytes>
    var openHandles: nat

    constructor(path0: string, listing0: seq<string>, contents0: map<string, Bytes>)
      ensures path == path0 && listing == listing0 && contents == contents0 && openHandles == 0
    {
      path := path0;
      listing := listing0;
      contents := contents0;
      openHandles := 0;
    }

    /** `xr.open_dataset(p)`: the file must exist and decode. */
    method OpenDataset(open: Opener, p: string) returns (ds: Option<Dataset>)
      modifies this
      ensures ds == OpenFile(contents, open, p)
      ensures openHandles == old(openHandles) + if ds.Some? then 1 else 0
    {
      ds := OpenFile(contents, open, p);
      if ds.Some? {
        openHandles := openHandles + 1;
      }
    }

    /** `ds.close()`. */
    method CloseDataset()
      requires openHandles > 0
      modifies this
      ensures openHandles == old(openHandles) - 1
    {
      openHandles := openHandles - 1;
    }
  }

  function OpenFile(contents: map<string, Bytes>, open: Opener, p: string): Option<Dataset> {
    if p in contents then open(contents[p]) else None
  }

  /** `find_files_in_timerange(start_time, end_time)`. */
  method FindFilesInTimerange(vol: Volume, start: DateTime, end: DateTime) returns (r: Result<seq<string>, Error>)
    ensures r == FilesInRange(vol.path, vol.listing, start, end)
  {
    var allFiles := SortNames(Matching(vol.listing));
    var filesInRange: seq<string> := [];
    var i := 0;
    while i < |allFiles|
      invariant 0 <= i <= |allFiles|
      invariant filesInRange == Paths(vol.path, Select(allFiles[..i], start, end))
    {
      var fileTime := TimeFromFilename(allFiles[i]);
      SelectExtend(allFiles, i, start, end);
      if fileTime.Some? && NotAfter(start, fileTime.value) && NotAfter(fileTime.value, end) {
        PathsExtend(vol.path, Select(allFiles[..i], start, end), allFiles[i]);
        filesInRange := filesInRange + [JoinPath(vol.path, allFiles[i])];
      }
      i := i + 1;
    }
    assert allFiles[..i] == allFiles;
    if filesInRange == [] {
      return Failure(Http(404, NoFilesBetween(start, end)));
    }
    return Success(filesInRange);
  }

  // ---------------------------------------------------------------------
  // Processing one file

  /** The dictionary `process_file_data` returns. */
  datatype FileRecord = FileRecord(data: Record, timestamp: Option<DateTime>)

  /** What `process_file_data(path)` returns or raises: the file's record,
      stamped with the time its base name carries, when it opens and
      extracts; otherwise a 500 "Error processing file". */
  function FileOutcome(contents: map<string, Bytes>, open: Opener, p: string): (r: Result<FileRecord, Error>)
    ensures r.Success? <==>
      p in contents && open(contents[p]).Some? && Process(open(contents[p]).value).Success?
    ensures r.Success? ==>
      r.value == FileRecord(Process(open(contents[p]).value).value, TimeFromFilename(BaseName(p)))
    ensures r.Failure? ==> r.error.Http? && r.error.status == 500 && r.error.detail.ErrorProcessingFile?
  {
    match OpenFile(contents, open, p)
    case None => Failure(Http(500, ErrorProcessingFile(OpenFailed)))
    case Some(ds) =>
      match Process(ds)
      case Failure(f) => Failure(Http(500, ErrorProcessingFile(Extraction(f))))
      case Success(rec) => Success(FileRecord(rec, TimeFromFilename(BaseName(p))))
  }

  function FileStepFn(contents: map<string, Bytes>, open: Opener): string -> Result<FileRecord, Error> {
    p => FileOutcome(contents, open, p)
  }

  /** `process_file_data(path)`: the dataset is closed before a successful
      return and left open when extraction raises. */
  method ProcessFileData(vol: Volume, open: Opener, p: string) returns (r: Result<FileRecord, Error>)
    modifies vol
    ensures r == FileOutcome(vol.contents, open, p)
    ensures r.Success? ==> vol.openHandles == old(vol.openHandles)
    ensures r.Failure? ==>
      vol.openHandles == old(vol.openHandles) + if OpenFile(vol.contents, open, p).Some? then 1 else 0
  {
    var ds := vol.OpenDataset(open, p);
    if ds.None? {
      return Failure(Http(500, ErrorProcessingFile(OpenFailed)));
    }
    var rec := Process(ds.value);
    if rec.Failure? {
      return Failure(Http(500, ErrorProcessingFile(Extraction(rec.error))));
    }
    vol.CloseDataset();
    return Success(FileRecord(rec.value, TimeFromFilename(BaseName(p))));
  }

  /** For a listed file: a 500 "Error processing WRF file" when it cannot
      be opened or processed, and otherwise the processed fields with the
      time its name carries. */
  lemma FileOutcomeCases(contents: map<string, Bytes>, open: Opener, dir: string, name: string)
    requires EntryName(name)
    ensures var o := FileOutcome(contents, open, JoinPath(dir, name));
      var ds := OpenFile(contents, open, JoinPath(dir, name));
      && (o.Success? <==> ds.Some? && Process(ds.value).Success?)
      && (o.Success? ==> o.value == FileRecord(Process(ds.value).value, TimeFromFilename(name)))
      && (o.Failure? ==> o.error.Http? && o.error.status == 500 && o.error.detail.ErrorProcessingFile?)
  {
    BaseNameOfJoin(dir, name);
  }

  // ---------------------------------------------------------------------
  // The animation

  /** The title in front of each frame's timestamp. */
  const TitlePrefix: string := "포항 지역 기상 예측 - "

  /** Every record carries a timestamp `strftime` can format. */
  predicate Timed(recs: seq<FileRecord>) {
    forall i :: 0 <= i < |recs| ==> recs[i].timestamp.Some? && Valid(recs[i].timestamp.value)
  }

  /** `f'포항 지역 기상 예측 - {timestamp:%Y-%m-%d %H:%M}'` for each record. */
  function NcTitles(recs: seq<FileRecord>): (r: seq<string>)
    requires Timed(recs)
    ensures |r| == |recs|
  {
    seq(|recs|, i requires 0 <= i < |recs| => TitlePrefix + TitleStamp(recs[i].timestamp.value))
  }

  function Data(recs: seq<FileRecord>): (r: seq<Record>)
    ensures |r| == |recs| && forall i :: 0 <= i < |recs| ==> r[i] == recs[i].data
  {
    seq(|recs|, i requires 0 <= i < |recs| => recs[i].data)
  }

  /** The colour bar drawn from the first record before the animation is
      built. */
  function NcColorbar(recs: seq<FileRecord>): Colorbar
    requires |recs| > 0
  {
    Colorbar(recs[0].data, Levels(), "기온 (°C)")
  }

  /** The animation `create_animation` draws: a colour bar from the first
      record, then each record titled with its own timestamp. */
  function NcAnimation(recs: seq<FileRecord>): Animation
    requires |recs| > 0 && Timed(recs)
  {
    Animation(Some(NcColorbar(recs)), Frames(Data(recs), NcTitles(recs)), IntervalMs, Fps)
  }

  /** What `create_animation(start_time, end_time, save_path)` returns, with
      the bytes it saves, or the exception it raises: every exception,
      the 404 of the search included, is re-raised as a 500 "Animation
      creation failed". */
  function CreateOutcome(dir: string, listing: seq<string>, contents: map<string, Bytes>, open: Opener,
                         render: Renderer, start: DateTime, end: DateTime, savePath: string)
    : (r: Result<(string, Bytes), Error>)
    requires Valid(start) && Valid(end)
    ensures r.Success? ==> FilesInRange(dir, listing, start, end).Success?
    ensures r.Success? ==> r.value.0 == JoinPath(savePath, AnimationName(start, end))
  {
    match FilesInRange(dir, listing, start, end)
    case Failure(e) => Failure(Http(500, AnimationCreationFailed(e)))
    case Success(paths) =>
      match Collect(FileStepFn(contents, open), paths)
      case Failure(e) => Failure(Http(500, AnimationCreationFailed(e)))
      case Success(recs) =>
        CollectSuccess(FileStepFn(contents, open), paths);
        Draw(recs, render, start, end, savePath)
  }

  /** The drawing and saving that follow the loop, for at least one
      record: drawing the colour bar, formatting a missing timestamp or
      saving raises, and the single handler wraps each once. */
  function Draw(recs: seq<FileRecord>, render: Renderer, start: DateTime, end: DateTime, savePath: string)
    : (r: Result<(string, Bytes), Error>)
    requires |recs| > 0 && Valid(start) && Valid(end)
    ensures r.Failure? ==> r.error.Http? && r.error.status == 500 && r.error.detail.AnimationCreationFailed?
    ensures r.Failure? ==> r.error.detail.cause in {ColorbarFailed, MissingTimestamp, SaveFailed}
    ensures r.Success? ==>
      && Timed(recs) && render.drawColorbar(NcColorbar(recs))
      && render.save(NcAnimation(recs)) == Some(r.value.1)
      && r.value.0 == JoinPath(savePath, AnimationName(start, end))
  {
    if !render.drawColorbar(NcColorbar(recs)) then Failure(Http(500, AnimationCreationFailed(ColorbarFailed)))
    else if !Timed(recs) then Failure(Http(500, AnimationCreationFailed(MissingTimestamp)))
    else
      match render.save(NcAnimation(recs))
      case None => Failure(Http(500, AnimationCreationFailed(SaveFailed)))
      case Some(gif) => Success((JoinPath(savePath, AnimationName(start, end)), gif))
  }

  /** Every failure is a 500 "Animation creation failed"; in particular an
      empty search is not reported as 404. */
  lemma CreateFailureIs500(dir: string, listing: seq<string>, contents: map<string, Bytes>, open: Opener,
                           render: Renderer, start: DateTime, end: DateTime, savePath: string)
    requires Valid(start) && Valid(end)
    ensures var o := CreateOutcome(dir, listing, contents, open, render, start, end, savePath);
      o.Failure? ==> o.error.Http? && o.error.status == 500 && o.error.detail.AnimationCreationFailed?
    ensures FilesInRange(dir, listing, start, end).Failure? ==>
      CreateOutcome(dir, listing, contents, open, render, start, end, savePath)
        == Failure(Http(500, AnimationCreationFailed(Http(404, NoFilesBetween(start, end)))))
  {
    var _ := FilesInRangeSpec(dir, listing, start, end);
  }

  /** Files whose names carry a time are processed, in order, into
      records stamped with that time. */
  lemma ProcessedFiles(dir: string, names: seq<string>, contents: map<string, Bytes>, open: Opener)
    requires forall n :: n in names ==> EntryName(n) && TimeFromFilename(n).Some?
    requires Collect(FileStepFn(contents, open), Paths(dir, names)).Success?
    ensures var recs := Collect(FileStepFn(contents, open), Paths(dir, names)).value;
      && |recs| == |names| && Timed(recs)
      && forall i :: 0 <= i < |names| ==>
           && FileOutcome(contents, open, JoinPath(dir, names[i])) == Success(recs[i])
           && recs[i].timestamp == TimeFromFilename(names[i])
  {
    var paths := Paths(dir, names);
    var step := FileStepFn(contents, open);
    var recs := Collect(step, paths).value;
    CollectSuccess(step, paths);
    forall i | 0 <= i < |names|
      ensures FileOutcome(contents, open, JoinPath(dir, names[i])) == Success(recs[i])
      ensures recs[i].timestamp == TimeFromFilename(names[i])
      ensures recs[i].timestamp.Some? && Valid(recs[i].timestamp.value)
    {
      assert names[i] in names;
      FileOutcomeCases(contents, open, dir, names[i]);
      assert step(paths[i]) == FileOutcome(contents, open, JoinPath(dir, names[i]));
    }
  }

  lemma ProcessedAreTimed(dir: string, names: seq<string>, contents: map<string, Bytes>, open: Opener)
    requires forall n :: n in names ==> EntryName(n) && TimeFromFilename(n).Some?
    requires Collect(FileStepFn(contents, open), Paths(dir, names)).Success?
    ensures Timed(Collect(FileStepFn(contents, open), Paths(dir, names)).value)
  {
    ProcessedFiles(dir, names, contents, open);
  }

  /** A file that was selected yields a timestamp when processed, so the
      titles can always be formatted. */
  lemma NeverMissingTimestamp(dir: string, listing: seq<string>, contents: map<string, Bytes>, open: Opener,
                              render: Renderer, start: DateTime, end: DateTime, savePath: string)
    requires Valid(start) && Valid(end)
    requires forall n :: n in listing ==> EntryName(n)
    ensures CreateOutcome(dir, listing, contents, open, render, start, end, savePath)
      != Failure(Http(500, AnimationCreationFailed(MissingTimestamp)))
  {
    var names := FilesInRangeSpec(dir, listing, start, end);
    if names != [] {
      var paths := Paths(dir, names);
      var step := FileStepFn(contents, open);
      if Collect(step, paths).Success? {
        ProcessedAreTimed(dir, names, contents, open);
      } else {
        var k := CollectFailure(step, paths);
        assert step(paths[k]) == FileOutcome(contents, open, paths[k]);
      }
    }
  }

  /** A successful run drew one frame per selected file, in name order:
      frame `i` shows what file `i` processes to, titled with the time in
      its name, with the common levels and viewport; the colour bar comes
      from the first file; the GIF is named after the requested start and
      end, not after the files found. */
  lemma CreateSuccessFrames(dir: string, listing: seq<string>, contents: map<string, Bytes>, open: Opener,
                            render: Renderer, start: DateTime, end: DateTime, savePath: string)
      returns (names: seq<string>, a: Animation)
    requires Valid(start) && Valid(end)
    requires forall n :: n in listing ==> EntryName(n)
    requires CreateOutcome(dir, listing, contents, open, render, start, end, savePath).Success?
    ensures Ascending(names) && |names| > 0
    ensures forall n :: n in names <==>
      n in listing && StartsWith(n, Prefix) && InRange(TimeFromFilename(n), start, end)
    ensures KeepsCounts(names, listing, start, end)
    ensures render.save(a) == Some(CreateOutcome(dir, listing, contents, open, render, start, end, savePath).value.1)
    ensures CreateOutcome(dir, listing, contents, open, render, start, end, savePath).value.0
      == JoinPath(savePath, AnimationName(start, end))
    ensures |a.frames| == |names| && a.intervalMs == 2000 && a.fps == 2
    ensures a.colorbar.Some? && a.colorbar.value.data == a.frames[0].data && a.colorbar.value.levels == Levels()
    ensures render.drawColorbar(a.colorbar.value)
    ensures forall i :: 0 <= i < |names| ==>
      && TimeFromFilename(names[i]).Some?
      && FileOutcome(contents, open, JoinPath(dir, names[i]))
        == Success(FileRecord(a.frames[i].data, TimeFromFilename(names[i])))
      && a.frames[i].title == TitlePrefix + TitleStamp(TimeFromFilename(names[i]).value)
      && a.frames[i].levels == Levels() && a.frames[i].view == Pohang
  {
    names := FilesInRangeSpec(dir, listing, start, end);
    var paths := Paths(dir, names);
    var step := FileStepFn(contents, open);
    ProcessedFiles(dir, names, contents, open);
    var recs := Collect(step, paths).value;
    a := NcAnimation(recs);
    var titles := NcTitles(recs);
    forall i | 0 <= i < |names|
      ensures TimeFromFilename(names[i]).Some?
      ensures FileOutcome(contents, open, JoinPath(dir, names[i]))
        == Success(FileRecord(a.frames[i].data, TimeFromFilename(names[i])))
      ensures a.frames[i].title == TitlePrefix + TitleStamp(TimeFromFilename(names[i]).value)
    {
      assert a.frames[i].title == titles[i];
    }
  }

  /** The `for file_path in wrf_files` loop: each file is processed in
      turn and the first exception ends the loop. */
  method ProcessFiles(vol: Volume, open: Opener, files: seq<string>) returns (r: Result<seq<FileRecord>, Error>)
    modifies vol
    ensures r == Collect(FileStepFn(vol.contents, open), files)
    ensures r.Success? ==> vol.openHandles == old(vol.openHandles)
    ensures r.Failure? ==> vol.openHandles <= old(vol.openHandles) + 1
  {
    ghost var step := FileStepFn(vol.contents, open);
    var processed: seq<FileRecord> := [];
    var i := 0;
    while i < |files|
      invariant 0 <= i <= |files|
      invariant Collect(step, files[..i]) == Success(processed)
      invariant vol.openHandles == old(vol.openHandles)
    {
      var rec := ProcessFileData(vol, open, files[i]);
      CollectExtend(step, files, i);
      if rec.Failure? {
        CollectStops(step, files, i + 1, |files|);
        assert files[..|files|] == files;
        return Failure(rec.error);
      }
      processed := processed + [rec.value];
      i := i + 1;
    }
    assert files[..|files|] == files;
    return Success(processed);
  }

  /** `create_animation`: find the files, process each in turn (the first
      failure ends the loop), draw and save the GIF under `savePath`. The
      data files are only read; the GIF is the one file written. */
  method CreateAnimation(vol: Volume, disk: Disk, open: Opener, render: Renderer,
                         start: DateTime, end: DateTime, savePath: string)
    returns (r: Result<string, Error>)
    requires Valid(start) && Valid(end)
    modifies vol, disk
    ensures var o := CreateOutcome(vol.path, vol.listing, vol.contents, open, render, start, end, savePath);
      && (r.Success? <==> o.Success?)
      && (r.Success? ==> r.value == o.value.0 && disk.files == old(disk.files)[r.value := o.value.1])
      && (r.Failure? ==> r.error == o.error && disk.files == old(disk.files))
    ensures disk.removals == old(disk.removals)
    ensures r.Success? ==> vol.openHandles == old(vol.openHandles)
    ensures r.Failure? ==> vol.openHandles <= old(vol.openHandles) + 1
  {
    var found := FindFilesInTimerange(vol, start, end);
    if found.Failure? {
      return Failure(Http(500, AnimationCreationFailed(found.error)));
    }
    var files := found.value;
    var processed := ProcessFiles(vol, open, files);
    if processed.Failure? {
      return Failure(Http(500, AnimationCreationFailed(processed.error)));
    }
    CollectSuccess(FileStepFn(vol.contents, open), files);
    r := SaveAnimation(disk, render, processed.value, start, end, savePath);
  }

  /** Drawing the records and saving the GIF as `savePath/wrf_animation_…`;
      nothing is written when drawing or saving raises. */
  method SaveAnimation(disk: Disk, render: Renderer, recs: seq<FileRecord>,
                       start: DateTime, end: DateTime, savePath: string)
    returns (r: Result<string, Error>)
    requires |recs| > 0 && Valid(start) && Valid(end)
    modifies disk
    ensures var o := Draw(recs, render, start, end, savePath);
      && (r.Success? <==> o.Success?)
      && (r.Success? ==> r.value == o.value.0 && disk.files == old(disk.files)[r.value := o.value.1])
      && (r.Failure? ==> r.error == o.error && disk.files == old(disk.files))
    ensures disk.removals == old(disk.removals)
  {
    if !render.drawColorbar(NcColorbar(recs)) {
      return Failure(Http(500, AnimationCreationFailed(ColorbarFailed)));
    }
    if !Timed(recs) {
      return Failure(Http(500, AnimationCreationFailed(MissingTimestamp)));
    }
    var saved := render.save(NcAnimation(recs));
    if saved.None? {
      return Failure(Http(500, AnimationCreationFailed(SaveFailed)));
    }
    var out := JoinPath(savePath, AnimationName(start, end));
    disk.Write(out, saved.value);
    r := Success(out);
  }

  /** The `/wrf-result-animation` route: 400 when `end <= start`, before
      anything else happens; otherwise the animation is saved under the
      default directory and any failure is re-raised as a 500 "Animation
      generation failed". */
  method GenerateAnimation(vol: Volume, disk: Disk, open: Opener, render: Renderer,
                           start: DateTime, end: DateTime)
    returns (r: Result<string, Error>)
    requires Valid(start) && Valid(end)
    modifies vol, disk
    ensures !Before(start, end) ==> r == Failure(Http(400, EndNotAfterStart))
    ensures !Before(start, end) ==> disk.files == old(disk.files) && vol.openHandles == old(vol.openHandles)
    ensures Before(start, end) ==>
      var o := CreateOutcome(vol.path, vol.listing, vol.contents, open, render, start, end, AnimationDir);
      && (r.Success? <==> o.Success?)
      && (r.Success? ==> r.value == o.value.0 && disk.files == old(disk.files)[r.value := o.value.1])
      && (r.Failure? ==> r.error == Http(500, AnimationGenerationFailed(o.error)) && disk.files == old(disk.files))
    ensures r.Failure? ==> r.error.Http? && (r.error.status == 400 || r.error.status == 500)
    ensures disk.removals == old(disk.removals)
  {
    if !Before(start, end) {
      return Failure(Http(400, EndNotAfterStart));
    }
    r := CreateAnimation(vol, disk, open, render, start, end, AnimationDir);
    if r.Failure? {
      r := Failure(Http(500, AnimationGenerationFailed(r.error)));
    }
  }
}
