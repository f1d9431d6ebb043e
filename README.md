# WRF result animation — a Dafny model

The WRF repository renders output of the Weather Research and Forecasting
model for the Pohang region into an animated GIF. Three near-duplicate
Python services do this:

- `SQL/wrf_result_db_plot.py` is a FastAPI service. It expands a requested time range into whole hours. For each hour it fetches one NetCDF snapshot from PostgreSQL into a temporary `.nc` file, reduces the snapshot to five 2-D fields and draws one frame.
- `SQL/wrf_result_nc_plot.py` is a FastAPI service. It does the same for the `wrfout_d01_<timestamp>` files of one directory. It selects the files by the time written in their names.
- `SQL/wrf_result_plot.py` is a Flask service. It animates a fixed list of six hourly snapshots from PostgreSQL. It raises plain exceptions instead of HTTP errors.

This project models the sequential logic under the plotting and I/O
libraries:

- datetimes and their ordering;
- hourly range expansion;
- Python string ordering and `sorted`;
- `str.split` and `str.replace`;
- the `strptime`/`strftime` formats used;
- the field reduction (Kelvin to Celsius, the vertical mean, de-staggering);
- the `temporary_files` scope;
- the database fetch and connection handling;
- the fetch-and-process loop;
- the frame list, levels, viewport and output names;
- the error each path raises and how it is re-wrapped.

The modules are:

| file | module | contents |
|---|---|---|
| `outcomes.dfy` | `Outcomes` | `Option`, `Result`, and `Collect`: a loop whose body may raise |
| `clock.dfy` | `Clock` | `DateTime`, validity, ordering, and seconds since 0001-01-01 with both round trips |
| `text.dfy` | `Text` | string ordering, insertion sort, `split(sep)[1]`, `replace(' ', '')`, prefixes and suffixes |
| `timefmt.dfy` | `TimeFormat` | the `strftime` outputs and `strptime` of `%Y-%m-%d_%H:%M:%S` |
| `fields.dfy` | `Fields` | grids, `T2 − 273.15`, the vertical mean, de-staggering, dataset processing |
| `errors.dfy` | `Errors` | the exceptions raised and re-raised |
| `render.dfy` | `Render` | contour levels, viewport, frames, path joining and animation names |
| `resources.dfy` | `Resources` | the disk, the temporary-file scope, the database and `get_db_data` |
| `snapshots.dfy` | `Snapshots` | the fetch-and-process loop shared by the two database services |
| `db_plot.dfy` | `DbPlot` | the FastAPI database service |
| `nc_plot.dfy` | `NcPlot` | the FastAPI directory service |
| `flask_plot.dfy` | `FlaskPlot` | the Flask service |

The state the services change in place is modelled by classes:

- the local disk (`Resources.Disk`);
- the list of temporary files (`Resources.TempScope`);
- the database with its open connections (`Resources.Database`, `Resources.Connection`);
- the data directory with its open datasets (`NcPlot.Volume`).

Each method is proved against a pure function of its inputs. For example, `DbPlot.CreateAnimation` is proved against `DbPlot.CreateOutcome`. The lemmas about those functions state what the services promise.

The model follows the code as written:

- The directory service orders files by their **name**, as `sorted(glob(...))` does, and not by parsed time. `NcPlot.SelectChronological` proves that the two orders agree for names WRF writes. `NcPlot.UnpaddedOutOfOrder` exhibits names that `strptime` accepts but that sort out of time order.
- A file whose name does not parse is skipped. A file that cannot be opened or processed aborts the whole run with a 500.
- The directory service turns its own 404 ("No WRF files found") into a 500 "Animation creation failed". The route then turns that into a 500 "Animation generation failed". A client never sees the 404.

External effects become parameters:

- Decoding a NetCDF file is a function `Opener` from bytes to an optional dataset. `None` stands for `xr.open_dataset` raising.
- Drawing and encoding the GIF is a function `Renderer` from the abstract `Animation` to optional bytes. `None` stands for `ani.save` raising.
- The database is its reachability plus a map from timestamps to blobs.
- The application's root path (Flask) is a parameter.
- The names the temporary-file module picks are chosen nondeterministically among unused `.nc` names.

## Model

| member | source | states |
|---|---|---|
| Outcomes.CollectSuccess | SQL/wrf_result_db_plot.py:129-132 | a loop that completes yields one result per element, result `i` being what element `i` gives on its own |
| Outcomes.CollectFailure | SQL/wrf_result_db_plot.py:129-132 | a loop that raises raises the exception of its first failing element, and every earlier element succeeded |
| Clock.DateTimeRoundTrip | SQL/wrf_result_db_plot.py:188 | every valid datetime is a whole number of seconds below year 10000, and converting back gives the same datetime |
| Clock.SecondsRoundTrip | SQL/wrf_result_db_plot.py:188 | every second below year 10000 is a valid datetime, and converting back gives the same second: `timedelta` arithmetic is exact |
| Clock.BeforeIsEarlier | SQL/wrf_result_db_plot.py:180 | datetime comparison (field tuples) holds exactly when the first is fewer seconds from the epoch |
| Clock.EarlierWhenBefore | SQL/wrf_result_db_plot.py:180 | a datetime before another lies fewer seconds from the epoch |
| Clock.ToSecondsInjective | SQL/wrf_result_db_plot.py:188 | distinct valid datetimes are distinct seconds |
| Text.StrLessIrreflexive | SQL/wrf_result_nc_plot.py:51 | no string sorts before itself |
| Text.StrLessTransitive | SQL/wrf_result_nc_plot.py:51 | string order is transitive |
| Text.StrLessTotal | SQL/wrf_result_nc_plot.py:51 | any two strings are equal or ordered one way or the other |
| Text.StrLessAsymmetric | SQL/wrf_result_nc_plot.py:51 | string order is asymmetric |
| Text.StrLessCommonPrefix | SQL/wrf_result_nc_plot.py:51 | a common prefix does not change string order |
| Text.StrLessConcat | SQL/wrf_result_nc_plot.py:51 | strings built from pieces of equal length are ordered by the first differing piece |
| Text.Insert | SQL/wrf_result_nc_plot.py:51 | insertion adds exactly one copy of the element and keeps an ascending list ascending |
| Text.SortNames | SQL/wrf_result_nc_plot.py:51 | `sorted` returns a permutation of its input in ascending order |
| Text.IndexOf | SQL/wrf_result_nc_plot.py:44 | the position found is an occurrence of the pattern with none before it, or there is no occurrence at all |
| Text.SecondPieceAfterSeparator | SQL/wrf_result_nc_plot.py:44 | splitting `sep + t` on `sep`, where `t` holds no `sep`, gives `t` as the second piece |
| Text.SecondPiece | SQL/wrf_result_nc_plot.py:44 | `split(sep)[1]` raises exactly when `sep` does not occur |
| Text.SecondPieceIsBetween | SQL/wrf_result_nc_plot.py:44 | the second piece holds no `sep`, starts right after the first `sep`, and runs up to the next `sep` or the end of the string |
| Text.RemoveSpaces | SQL/wrf_result_nc_plot.py:44 | the result has no spaces and holds every other character exactly as often as the input, and is the input itself when the input has no spaces |
| Text.RemoveSpacesConcat | SQL/wrf_result_nc_plot.py:44 | removing spaces from a concatenation removes them from each part: the kept characters stay in order |
| Text.EndsWithTransitive | SQL/wrf_result_db_plot.py:156 | a suffix of a suffix is a suffix |
| Text.ConcatCancel | SQL/wrf_result_db_plot.py:156 | equal concatenations with first parts of equal length agree part by part |
| TimeFormat.Unpadded | SQL/wrf_result_nc_plot.py:45 | a number without leading zeros is one or two digits whose value is the number |
| TimeFormat.FileStamp | SQL/wrf_result_nc_plot.py:45 | `%Y-%m-%d_%H:%M:%S` is 19 characters with `-`, `-`, `_`, `:`, `:` at fixed places and the six fields spelled in decimal between them |
| TimeFormat.TitleStamp | SQL/wrf_result_db_plot.py:151 | `%Y-%m-%d %H:%M` is 16 characters with `-`, `-`, space, `:` at fixed places and the five fields spelled in decimal between them |
| TimeFormat.CompactStamp | SQL/wrf_result_db_plot.py:156 | `%Y%m%d_%H%M` has 13 characters: four digits spelling the year, two each for month and day, `_` at index 8, then two each for hour and minute |
| TimeFormat.TakeDigitsOf | SQL/wrf_result_nc_plot.py:45 | a run of digits followed by a non-digit is read exactly |
| TimeFormat.ParseFileStamp | SQL/wrf_result_nc_plot.py:45 | whatever `strptime` accepts is a valid datetime |
| TimeFormat.StampParses | SQL/wrf_result_nc_plot.py:45 | a zero-padded stamp parses to its datetime when that date and time exist, and to `None` otherwise (no 29 February 2023, no hour 24) |
| TimeFormat.FileStampRoundTrip | SQL/wrf_result_nc_plot.py:45 | parsing `%Y-%m-%d_%H:%M:%S` of a valid datetime gives the datetime back |
| TimeFormat.UnpaddedStampParses | SQL/wrf_result_nc_plot.py:45 | month, day, hour, minute and second written without leading zeros parse to the same datetime |
| TimeFormat.StampWithTrailingText | SQL/wrf_result_nc_plot.py:45 | a stamp followed by any further text does not parse, because `strptime` must consume the whole string |
| TimeFormat.FileStampOrder | SQL/wrf_result_nc_plot.py:51 | zero-padded stamps sort as strings exactly as their datetimes compare |
| TimeFormat.CompactStampInjective | SQL/wrf_result_db_plot.py:156 | two datetimes with the same `%Y%m%d_%H%M` agree to the minute |
| Fields.ToCelsius | SQL/wrf_result_db_plot.py:100 | `T2 − 273.15` keeps the shape of the grid |
| Fields.CelsiusRoundTrip | SQL/wrf_result_db_plot.py:100 | adding 273.15 back restores the Kelvin grid exactly |
| Fields.CelsiusBounds | SQL/wrf_result_db_plot.py:100 | bounds shift by 273.15, and a uniform 273.15 K field becomes a uniform 0 °C field |
| Fields.MeanLevels | SQL/wrf_result_db_plot.py:103-104 | the mean over `bottom_top` has the horizontal shape of one level |
| Fields.LevelSumBounds | SQL/wrf_result_db_plot.py:103-104 | a sum of `n` values between `lo` and `hi` lies between `n·lo` and `n·hi` |
| Fields.MeanBounds | SQL/wrf_result_db_plot.py:103-104 | the vertical mean stays within the bounds of the levels |
| Fields.MeanOfEqualLevels | SQL/wrf_result_db_plot.py:103-104 | levels that are all the same field average to that field, so a constant wind stays constant |
| Fields.DestaggerX | SQL/wrf_result_db_plot.py:107 | `u[:, :-1]` averaged with `u[:, 1:]` has one column fewer per row |
| Fields.DestaggerY | SQL/wrf_result_db_plot.py:108 | `v[:-1, :]` averaged with `v[1:, :]` has one row fewer |
| Fields.DestaggerShapes | SQL/wrf_result_db_plot.py:107-108 | de-staggering takes `(N, M+1)` U and `(N+1, M)` V to `(N, M)` |
| Fields.DestaggerBounds | SQL/wrf_result_db_plot.py:107-108 | the mean of two neighbours stays within the bounds of the field, so a constant field stays constant |
| Fields.ProcessFails | SQL/wrf_result_db_plot.py:97-119 | processing succeeds exactly when XLAT, XLONG, T2, U and V all exist with a time step; otherwise it fails with the fault of the first of them, in reading order, that is missing (`KeyError`) or has no time step (`IndexError`) |
| Fields.Process | SQL/wrf_result_db_plot.py:97-116 | a processed record holds XLAT and XLONG at time 0 unchanged, and T2 at time 0 in Celsius, so adding 273.15 back gives the Kelvin grid. Its U is the level mean at time 0 averaged over neighbouring columns, and its V the level mean at time 0 averaged over neighbouring rows |
| Fields.ProcessShapes | SQL/wrf_result_db_plot.py:97-116 | a dataset on an `N × M` grid gives five `N × M` grids: XLAT and XLONG at time 0 unchanged, T2 in Celsius |
| Errors.Raise | SQL/wrf_result_plot.py:64 | the FastAPI services raise `HTTPException(status, detail)` and the Flask service raises `Exception(detail)`, with the same detail |
| Render.Arange | SQL/wrf_result_db_plot.py:139 | `np.arange(start, stop, step)` holds `start + k·step` at position `k` |
| Render.ArangeCount | SQL/wrf_result_db_plot.py:139 | its length is the number of steps that stay below `stop` |
| Render.ArangeMembers | SQL/wrf_result_db_plot.py:139 | position `k` exists exactly when `start + k·step < stop` |
| Render.LevelsValues | SQL/wrf_result_db_plot.py:139 | the contour levels are the 30 values −5.0, −4.5, …, 9.5 |
| Render.Frames | SQL/wrf_result_db_plot.py:143-152 | frame `i` draws record `i` with title `i`, and every frame uses the same levels and the Pohang viewport |
| Render.JoinPath | SQL/wrf_result_db_plot.py:156 | `os.path.join(dir, name)` ends with `name` |
| Render.BaseName | SQL/wrf_result_nc_plot.py:87 | `Path(p).name` is a suffix of `p` without `/` |
| Render.BaseNameOfJoin | SQL/wrf_result_nc_plot.py:87 | the name of `data_dir / name` is `name` |
| Render.BaseNameOfSuffix | SQL/wrf_result_nc_plot.py:87 | the name of a path ending in `/` followed by a name is that name |
| Render.AnimationName | SQL/wrf_result_db_plot.py:156 | the GIF is named `wrf_animation_….gif` |
| Render.AnimationNameDetermines | SQL/wrf_result_db_plot.py:156 | two runs write the same GIF name exactly when their first and last times agree to the minute |
| Render.GifIsNotNc | SQL/wrf_result_db_plot.py:156 | the GIF path is never taken for a temporary `.nc` file |
| Resources.Disk.Remove | SQL/wrf_result_db_plot.py:54 | `os.remove` deletes an existing, removable file and otherwise raises `OSError` and changes nothing |
| Resources.Disk.CreateTemp | SQL/wrf_result_db_plot.py:88-89 | `NamedTemporaryFile(delete=False, suffix=".nc")` creates a new `.nc` file holding the blob and leaves every other file alone |
| Resources.TempScope.Register | SQL/wrf_result_db_plot.py:131 | the path is appended to the registered list |
| Resources.TempScope.Exit | SQL/wrf_result_db_plot.py:51-56 | removal is attempted for every registered path in order, and afterwards exactly the registered files whose removal did not fail are gone |
| Resources.Database.Connect | SQL/wrf_result_db_plot.py:69-71 | a connection is opened exactly when the database is reachable |
| Resources.Connection.FetchOne | SQL/wrf_result_db_plot.py:75-80 | the row is found exactly when a snapshot with exactly that timestamp exists |
| Resources.Connection.Close | SQL/wrf_result_db_plot.py:91-93 | closing releases an open connection once, and closing again does nothing |
| Resources.Fetch | SQL/wrf_result_db_plot.py:67-93 | no connection gives 500, no row gives 404 naming the timestamp, an undecodable blob raises, and otherwise the decoded blob is returned |
| Resources.GetDbData | SQL/wrf_result_db_plot.py:67-93 | (corrected fetch, see ## Findings) as `Fetch`, with a new `.nc` file holding the blob on success, nothing left behind on failure, and every connection closed |
| Resources.GetDbDataAsWritten | SQL/wrf_result_db_plot.py:88-90 | as written, a blob that does not decode leaves one more file on disk |
| Resources.LeakWitness | SQL/wrf_result_db_plot.py:88-90 | one undecodable snapshot leaves one file on an empty disk |
| Resources.NoLeakWitness | SQL/wrf_result_db_plot.py:88-90 | with the corrected fetch the same snapshot leaves the disk empty |
| Snapshots.ProcessSnapshot | SQL/wrf_result_db_plot.py:95-119 | processing succeeds with the processed record, or raises "Data processing failed" with the fault, as a 500 or as a plain exception |
| Snapshots.Step | SQL/wrf_result_db_plot.py:129-132 | one iteration succeeds exactly when the database is reachable, holds the row, the blob decodes and processes; a fetch exception passes through unchanged, and a processing fault becomes "Data processing failed" with status 500 |
| Snapshots.PipelineExtend | SQL/wrf_result_db_plot.py:129-132 | one more timestamp extends the loop by its iteration |
| Snapshots.PipelineStops | SQL/wrf_result_db_plot.py:129-132 | once an iteration raises, the loop ends with that exception |
| Snapshots.PipelineSuccess | SQL/wrf_result_db_plot.py:129-132 | a loop that completes holds, in order, the record of each timestamp's own iteration |
| Snapshots.FetchSucceeds | SQL/wrf_result_db_plot.py:130-131 | every registered path belongs to a fetch that returned |
| Snapshots.FetchAndRegister | SQL/wrf_result_db_plot.py:130-132 | (corrected fetch, see ## Findings) one iteration registers a new `.nc` path exactly when its fetch returned, the file holding that snapshot's blob; a raised exception is the fetch's, with nothing registered, or the processing fault of the snapshot just registered |
| Snapshots.CollectRecords | SQL/wrf_result_db_plot.py:128-132 | (corrected fetch, see ## Findings) the loop gives the records of all timestamps in order, or the first exception. Registered path `j` belongs to timestamp `j`, whose fetch returned, and holds its blob; after a success every timestamp has its path, and after a failure the paths stop at the fetch that raised or include the snapshot that failed to process. Files already on disk are untouched, and connections are all closed |
| Snapshots.Cleanup | SQL/wrf_result_db_plot.py:128-132 | after the scope exits, the disk holds what it held before plus only `.nc` files whose removal failed |
| Snapshots.CleanupAfterSave | SQL/wrf_result_db_plot.py:154-160 | the same after a save, with the GIF holding what was written |
| DbPlot.HoursFrom | SQL/wrf_result_db_plot.py:187-190 | `start + timedelta(hours=i)` for `i < n` are valid datetimes exactly `i` hours after `start` |
| DbPlot.HourlyTimestamps | SQL/wrf_result_db_plot.py:187-190 | the list has `⌊(end − start)/1 h⌋ + 1` entries, entry `i` being `i` hours after `start` |
| DbPlot.HourlyShape | SQL/wrf_result_db_plot.py:187-190 | the list starts at `start` and increases by exactly one hour, and its last entry is not after `end` and is less than an hour before it |
| DbPlot.HourlyMembers | SQL/wrf_result_db_plot.py:187-190 | a datetime is in the list exactly when it lies in `[start, end]` a whole number of hours after `start` |
| DbPlot.Titles | SQL/wrf_result_db_plot.py:151 | one title per timestamp |
| DbPlot.TitledFrames | SQL/wrf_result_db_plot.py:143-152 | frame `i` shows record `i` under the title of timestamp `i`, with the common levels and viewport |
| DbPlot.OutputPath | SQL/wrf_result_db_plot.py:156 | the saved path ends in `.gif` |
| DbPlot.CreateOutcome | SQL/wrf_result_db_plot.py:121-166 | every failure is a 500 "Animation creation failed"; a loop exception is wrapped once, and a success means every snapshot processed and a `.gif` path |
| DbPlot.Draw | SQL/wrf_result_db_plot.py:135-163 | the empty list and a failed colour bar, both outside the inner `try`, are wrapped once, a failed save twice; success means the colour bar was drawn and the animation saved under a `.gif` path |
| DbPlot.CreateSuccessFrames | SQL/wrf_result_db_plot.py:136-160 | on success there is one frame per timestamp, in order. Frame `i` draws what timestamp `i` fetches and processes to and is titled with that timestamp. The levels and viewport are common, and the colour bar comes from the first record. The interval is 2000 ms and the rate 2 fps, and the file is named after the first and last timestamps |
| DbPlot.CreateAnimation | SQL/wrf_result_db_plot.py:121-166 | (corrected fetch, see ## Findings) the method's result and the GIF it writes are those of `CreateOutcome`. Files already on disk are kept, temporary files are removed except where removal fails, and connections are all closed |
| DbPlot.SaveAnimation | SQL/wrf_result_db_plot.py:154-163 | the GIF is written exactly when drawing and saving succeed, under a `.gif` path |
| DbPlot.GenerateAnimation | SQL/wrf_result_db_plot.py:180-205 | `end <= start` gives 400 with nothing written. Otherwise the hourly list is animated, and a failure becomes a 500 "Animation generation failed" wrapping the creation failure |
| NcPlot.TimeFromFilename | SQL/wrf_result_nc_plot.py:42-48 | a parsed time is a valid datetime, and only names containing `wrfout_d01_` parse |
| NcPlot.TimeAfterPrefix | SQL/wrf_result_nc_plot.py:44 | after the prefix, a remainder without `w` is parsed whole with its spaces removed |
| NcPlot.FilenameRoundTrip | SQL/wrf_result_nc_plot.py:42-48 | `wrfout_d01_` followed by `%Y-%m-%d_%H:%M:%S` of a valid datetime parses to that datetime |
| NcPlot.RejectsWithoutPrefix | SQL/wrf_result_nc_plot.py:44 | a name without the prefix gives `None` |
| NcPlot.RejectsTrailingText | SQL/wrf_result_nc_plot.py:45 | a canonical name followed by any further text, such as `.nc`, gives `None` |
| NcPlot.RejectsImpossibleDate | SQL/wrf_result_nc_plot.py:45 | a well-formed zero-padded stamp of a date or time that does not exist (29 February 2023, hour 24, second 60) gives `None` |
| NcPlot.AcceptsUnpadded | SQL/wrf_result_nc_plot.py:45 | a name whose fields lack leading zeros parses to the same datetime |
| NcPlot.IgnoresSpaces | SQL/wrf_result_nc_plot.py:44 | spaces anywhere after the prefix are ignored |
| NcPlot.Matching | SQL/wrf_result_nc_plot.py:51 | `glob('wrfout_d01_*')` keeps exactly the listed names starting with the prefix |
| NcPlot.Select | SQL/wrf_result_nc_plot.py:54-57 | a name is kept exactly when its parsed time exists and lies in `[start, end]`, both ends inclusive |
| NcPlot.MatchingCount | SQL/wrf_result_nc_plot.py:51 | `glob` keeps each matching name as often as the listing holds it, and drops every other name |
| NcPlot.SelectCount | SQL/wrf_result_nc_plot.py:54-57 | the loop keeps each name in range as often as its input holds it, and drops every other name |
| NcPlot.Paths | SQL/wrf_result_nc_plot.py:57 | path `i` is the directory joined with name `i` |
| NcPlot.FilesInRange | SQL/wrf_result_nc_plot.py:50-65 | a successful search returns at least one path |
| NcPlot.SelectAscending | SQL/wrf_result_nc_plot.py:51-57 | selection keeps the sorted order |
| NcPlot.FilesInRangeSpec | SQL/wrf_result_nc_plot.py:50-65 | the search returns the paths of the names that start with the prefix and whose time lies in range, ascending by name, or a 404 when there are none. Each such name occurs as often as in the listing, so the result is the sorted glob list with the other names removed. Unparseable names are skipped |
| NcPlot.SelectChronological | SQL/wrf_result_nc_plot.py:51 | for canonical names, the selected files come in chronological order |
| NcPlot.CanonicalOrder | SQL/wrf_result_nc_plot.py:51 | of two canonical names, the one that does not sort later holds the time that is not later |
| NcPlot.UnpaddedOutOfOrder | SQL/wrf_result_nc_plot.py:51 | with unpadded hours, a name of 10:00 sorts before one of 9:00 the same day though both parse |
| NcPlot.Volume.OpenDataset | SQL/wrf_result_nc_plot.py:69 | opening succeeds when the file exists and decodes, and then holds one more open dataset |
| NcPlot.Volume.CloseDataset | SQL/wrf_result_nc_plot.py:79 | `ds.close()` releases one open dataset |
| NcPlot.FindFilesInTimerange | SQL/wrf_result_nc_plot.py:50-65 | the loop returns what `FilesInRange` specifies |
| NcPlot.ProcessFileData | SQL/wrf_result_nc_plot.py:67-91 | the result is that of `FileOutcome`. A successful call closes the dataset it opened, and a failed one leaves it open |
| NcPlot.FileOutcome | SQL/wrf_result_nc_plot.py:67-91 | a file succeeds exactly when it exists, opens and processes, giving its record and the time its base name carries; every failure is a 500 "Error processing WRF file" |
| NcPlot.FileOutcomeCases | SQL/wrf_result_nc_plot.py:67-91 | a listed file succeeds exactly when it opens and processes, with the time from its own name. Otherwise it is a 500 "Error processing WRF file" |
| NcPlot.NcTitles | SQL/wrf_result_nc_plot.py:153-154 | one title per record |
| NcPlot.CreateOutcome | SQL/wrf_result_nc_plot.py:93-182 | a success means the search found files, and the GIF is named after the requested start and end |
| NcPlot.Draw | SQL/wrf_result_nc_plot.py:113-178 | a failed colour bar, a missing timestamp or a failed save is wrapped once as a 500 "Animation creation failed"; success means every record has a time, the colour bar was drawn and the animation saved |
| NcPlot.CreateFailureIs500 | SQL/wrf_result_nc_plot.py:180-182 | every failure is a 500 "Animation creation failed", and an empty search arrives as a 500 wrapping the 404 |
| NcPlot.NeverMissingTimestamp | SQL/wrf_result_nc_plot.py:153-154 | every selected file carries a timestamp, so formatting a title never fails |
| NcPlot.CreateSuccessFrames | SQL/wrf_result_nc_plot.py:108-178 | on success there is one frame per selected file in name order, each listed name in range appearing as often as the listing holds it. Frame `i` draws what file `i` processes to, titled `포항 지역 기상 예측 - ` and its time. The levels and viewport are common, and the colour bar comes from the first file. The GIF is named after the requested start and end, not after the files found |
| NcPlot.ProcessFiles | SQL/wrf_result_nc_plot.py:110-112 | the loop gives the records of all files in order or the first exception, closing each dataset it processed |
| NcPlot.CreateAnimation | SQL/wrf_result_nc_plot.py:93-182 | the result and the GIF written are those of `CreateOutcome`. Nothing else is written and no dataset stays open on success |
| NcPlot.SaveAnimation | SQL/wrf_result_nc_plot.py:171-178 | the GIF is written exactly when drawing and saving succeed |
| NcPlot.GenerateAnimation | SQL/wrf_result_nc_plot.py:190-218 | `end <= start` gives 400 with nothing done. Otherwise a failure is a 500 "Animation generation failed" wrapping the creation failure, and every failure is 400 or 500 |
| FlaskPlot.StaticDir | SQL/wrf_result_plot.py:21 | `STATIC_DIR` ends in `static` |
| FlaskPlot.CreateOutcome | SQL/wrf_result_plot.py:98-128 | every failure is a plain "Animation creation failed"; a loop exception is wrapped once, and a success means every snapshot processed and a `.gif` path |
| FlaskPlot.Draw | SQL/wrf_result_plot.py:110-125 | the empty list or a failed save are the only drawing failures, and success means the animation was saved under a `.gif` path |
| FlaskPlot.CreateFailureIsPlain | SQL/wrf_result_plot.py:126-128 | every failure is a plain "Animation creation failed" wrapped once, whose cause is a plain exception, an undecodable snapshot, the empty list or the save |
| FlaskPlot.UnreachableFails | SQL/wrf_result_plot.py:62-64 | without a database every non-empty run fails with "Database connection failed" |
| FlaskPlot.CreateSuccessFrames | SQL/wrf_result_plot.py:110-125 | on success there is one frame per timestamp in order, titled with its timestamp, with common levels and viewport and no colour bar. The GIF is saved in `STATIC_DIR` |
| FlaskPlot.CreateAnimation | SQL/wrf_result_plot.py:98-128 | (corrected fetch, see ## Findings) the result and the GIF written are those of `CreateOutcome`. Files already on disk are kept, temporary files are removed except where removal fails, and connections are all closed |
| FlaskPlot.SaveAnimation | SQL/wrf_result_plot.py:121-125 | the GIF is written exactly when drawing and saving succeed, under a `.gif` path |
| FlaskPlot.DayHours | SQL/wrf_result_plot.py:139 | the first `n` hours of a valid day are valid datetimes |
| FlaskPlot.ResultTimestamps | SQL/wrf_result_plot.py:139 | `/RESULT` uses six valid datetimes |
| FlaskPlot.SameDaySeconds | SQL/wrf_result_plot.py:139 | hour `h` of a day is `h` hours after its midnight |
| FlaskPlot.DayHoursAreHourly | SQL/wrf_result_plot.py:139 | the first `n` hours of a day are the hourly expansion from its midnight to hour `n − 1` |
| FlaskPlot.ResultIsHourly | SQL/wrf_result_plot.py:139 | `/RESULT` animates 2024-01-01 00:00 to 05:00 in increasing order, exactly as the hourly expansion of that range |

## Left out

- TimeFormat.FileStamp, TimeFormat.TitleStamp, TimeFormat.CompactStamp: `%Y` is always written as four zero-padded digits. Some C libraries write years before 1000 without padding. The model follows the zero-padded output.
- Drawing (`contourf`, `quiver`, the colour bar, the shapefile outline, axes, grid) and GIF encoding are the abstract `Renderer`. A frame records its data, title, levels and viewport. The renderer has two stages: the colour bar drawn from the first record before the animation is built (`drawColorbar`), and the frames drawn and encoded by `ani.save` (`save`). In the database service the colour bar lies outside the inner `try`, so its failure is wrapped once and a save failure twice. A partial GIF left by a failed save is not modelled.
- `xr.open_dataset` and NetCDF decoding are the abstract `Opener`. A decoded dataset holds only the five variables read. Rectangular arrays are assumed, since NetCDF guarantees them.
- Fields.ProcessFails: U and V without a `bottom_top` dimension make `mean` raise `ValueError`. A dataset here always has that dimension, so this fault is not modelled.
- Fields.MeanLevels: the vertical mean is only defined for at least one level. numpy would give NaN for zero levels, and the model excludes that case.
- Floating-point rounding is not modelled. Fields use exact `real` arithmetic, so `T2 − 273.15` and the means are exact.
- Datetimes carry no microseconds and no time zone. `(end − start).total_seconds() / 3600` becomes whole-second integer division, which agrees with Python's truncation for non-negative whole seconds.
- TimeFormat.ParseFileStamp: digits are the ASCII digits `0`–`9`. Other Unicode decimal digits, which `strptime`'s `\d` also accepts, are treated as non-digits.
- Resources.GetDbData: the blob is written through Python's buffered file object and `xr.open_dataset` reads the file by name before the `with` block closes it. Whether the bytes have reached the disk then depends on the blob's size and the buffer; the model assumes they have.
- psycopg2: connection parameters, credentials and SQL text are not modelled. The table is a map from timestamp to blob, so duplicate rows with one timestamp are not modelled (`fetchone` would pick one).
- `WRFDataProcessor.__init__` is not modelled: the shapefile load, `plt.switch_backend`, and the unused `temp_levels` of the directory service. A shapefile that fails to load would fail before the route's `try`.
- The Jinja templates, CORS, the `/` routes and Flask's `/static/result/<path>` and `/downloaded_files` routes are not modelled. The route methods return the saved path, which the templates receive.
- The `ThreadPoolExecutor` of `/RESULT` is not modelled: the route answers "in_progress" at once, and the submitted result is never observed. Only its timestamp list (`FlaskPlot.ResultTimestamps`) and the work it submits (`FlaskPlot.CreateAnimation`) are modelled.
- The directory service's `if not wrf_files` check after the search cannot fire, because the search raises on an empty result. It is therefore absent from `NcPlot.CreateAnimation`.
- The data directory (`NcPlot.Volume`) and the disk the GIF is written to (`Resources.Disk`) are separate stores. A GIF saved into the data directory is not visible to a later search in the same run. The default directory `/home/yurim2/WRF/SQL` is `NcPlot.DataDir`, but the volume's path is left a parameter.
- NcPlot.ProcessFileData: a dataset left open by a failed extraction is only counted. Its release by Python's garbage collector is not modelled.
- DbPlot.CreateAnimation and FlaskPlot.CreateAnimation model the corrected fetch of the Findings table: an undecodable blob leaves no file behind. The as-written fetch is `Resources.GetDbDataAsWritten`.
- Printing and logging are not modelled.

## Findings

| source | as written | input that shows it | evidently intended | confidence | as-written member | corrected member |
|---|---|---|---|---|---|---|
| SQL/wrf_result_db_plot.py:88-90 (also SQL/wrf_result_plot.py:77-79) | the blob is written to a `NamedTemporaryFile(delete=False)` and `xr.open_dataset` is called before the path is returned; when decoding raises, the path never reaches `temporary_files` and the file stays on disk | a database row whose `nc_data` is not a readable NetCDF file, e.g. the three bytes `CDF` | every temporary file the fetch creates is removed, whether or not decoding succeeds | not executed | Resources.LeakWitness | Resources.NoLeakWitness |
