/** The state the database variants touch: the local disk (temporary NetCDF
    files and the saved GIF), the `temporary_files` context manager that
    removes the temporary files again, and the PostgreSQL table of NetCDF
    snapshots with the connections opened to it. */
module Resources {
  import opened Outcomes
  import opened Text
  import opened Clock
  import opened Fields
  import opened Errors
  import opened Render

  /** A length above that of every string in `s`. */
  ghost function LongerThanAll(s: set<string>): (n: nat)
    ensures forall x :: x in s ==> |x| < n
    decreases s
  {
    if s == {} then 0
    else
      var x :| x in s;
      var m := LongerThanAll(s - {x});
      if |x| < m then m else |x| + 1
  }

  /** Every path outside `taken` that ends with `suffix` is a name the
      temporary-file module may pick, and there always is one. */
  lemma FreshNameExists(taken: set<string>, suffix: string)
    ensures exists p :: p !in taken && EndsWith(p, suffix)
  {
    var p := seq(LongerThanAll(taken), _ => 't') + suffix;
    assert p[|p| - |suffix|..] == suffix;
    assert p !in taken;
  }

  /** `after` keeps every file of `before` unchanged, and every file it
      adds is a `.nc` file whose removal failed. */
  predicate Residue(before: map<string, Bytes>, after: map<string, Bytes>, stuck: set<string>) {
    && (forall p :: p in before ==> p in after && after[p] == before[p])
    && (forall p :: p in after && p !in before ==> p in stuck && EndsWith(p, ".nc"))
  }

  /** The local file system. */
  class Disk {
    var files: map<string, Bytes>
    /** Paths whose removal raises `OSError` (permissions, a file held open). */
    const stuck: set<string>
    /** Every `os.remove` attempted so far, in order. */
    var removals: seq<string>

    constructor(files0: map<string, Bytes>, stuck0: set<string>)
      ensures files == files0 && stuck == stuck0 && removals == []
    {
      files := files0;
      stuck := stuck0;
      removals := [];
    }

    /** `os.remove(path)`: `true` where it returns, `false` where it raises
        `OSError` (a missing file raises `FileNotFoundError`, one of them). */
    method Remove(path: string) returns (removed: bool)
      modifies this
      ensures removed <==> path in old(files) && path !in stuck
      ensures files == if removed then old(files) - {path} else old(files)
      ensures removals == old(removals) + [path]
    {
      removed := path in files && path !in stuck;
      if removed {
        files := files - {path};
      }
      removals := removals + [path];
    }

    /** `tempfile.NamedTemporaryFile(delete=False, suffix=suffix)` followed
        by a write of `content`: a new file under a name not in use. */
    method CreateTemp(suffix: string, content: Bytes) returns (path: string)
      modifies this
      ensures path !in old(files) && EndsWith(path, suffix)
      ensures files == old(files)[path := content]
      ensures removals == old(removals)
    {
      FreshNameExists(files.Keys, suffix);
      path :| path !in files.Keys && EndsWith(path, suffix);
      files := files[path := content];
    }

    /** Writing a whole file, replacing one already there. */
    method Write(path: string, content: Bytes)
      modifies this
      ensures files == old(files)[path := content]
      ensures removals == old(removals)
    {
      files := files[path := content];
    }
  }

  /** The list `temporary_files()` yields: the body registers paths, and
      leaving the `with` block, normally or by an exception, removes them. */
  class TempScope {
    var paths: seq<string>

    constructor()
      ensures paths == []
    {
      paths := [];
    }

    /** `temp_files.append(path)`. */
    method Register(path: string)
      modifies this
      ensures paths == old(paths) + [path]
    {
      paths := paths + [path];
    }

    /** The `finally` block: `os.remove` on every registered path in order,
        each `OSError` swallowed so that the remaining paths are still
        tried. Every registered file is gone afterwards except those whose
        removal failed. */
    method Exit(disk: Disk)
      modifies disk
      ensures disk.removals == old(disk.removals) + paths
      ensures disk.files == old(disk.files) - (set p | p in paths && p !in disk.stuck)
    {
      var i := 0;
      while i < |paths|
        invariant 0 <= i <= |paths|
        invariant disk.removals == old(disk.removals) + paths[..i]
        invariant disk.files == old(disk.files) - (set p | p in paths[..i] && p !in disk.stuck)
      {
        var _ := disk.Remove(paths[i]);
        assert paths[..i + 1] == paths[..i] + [paths[i]];
        i := i + 1;
      }
      assert paths[..i] == paths;
    }
  }

  /** The table `WRF_2024_01_NC` behind `get_db_connection()`. */
  class Database {
    /** Whether `psycopg2.connect` succeeds. */
    const reachable: bool
    /** `nc_data` by `timestamp`. */
    const rows: map<DateTime, Bytes>
    var openConnections: nat

    constructor(reachable0: bool, rows0: map<DateTime, Bytes>)
      ensures reachable == reachable0 && rows == rows0 && openConnections == 0
    {
      reachable := reachable0;
      rows := rows0;
      openConnections := 0;
    }

    /** `get_db_connection()`: a new open connection, or `None` where
        connecting raises (the exception is printed and swallowed). */
    method Connect() returns (c: Option<Connection>)
      modifies this
      ensures c.Some? <==> reachable
      ensures c.Some? ==> fresh(c.value) && c.value.open && c.value.db == this
      ensures openConnections == old(openConnections) + if reachable then 1 else 0
    {
      if reachable {
        var conn := new Connection(this);
        openConnections := openConnections + 1;
        c := Some(conn);
      } else {
        c := None;
      }
    }
  }

  class Connection {
    const db: Database
    var open: bool

    constructor(db0: Database)
      ensures db == db0 && open
    {
      db := db0;
      open := true;
    }

    /** `SELECT nc_data ... WHERE timestamp = %s` and `fetchone()`. */
    function FetchOne(timestamp: DateTime): (row: Option<Bytes>)
      ensures row.Some? <==> timestamp in db.rows
      ensures row.Some? ==> row.value == db.rows[timestamp]
    {
      if timestamp in db.rows then Some(db.rows[timestamp]) else None
    }

    /** `conn.close()`; closing a closed connection does nothing. */
    method Close()
      requires open ==> db.openConnections > 0
      modifies this, db
      ensures !open
      ensures db.openConnections == if old(open) then old(db.openConnections) - 1 else old(db.openConnections)
    {
      if open {
        db.openConnections := db.openConnections - 1;
        open := false;
      }
    }
  }

  /** Decoding the bytes of a NetCDF file, `None` where `xr.open_dataset`
      raises. */
  type Opener = Bytes -> Option<Dataset>

  /** What `get_db_data(timestamp)` yields: the decoded snapshot, or the
      exception it raises. */
  function Fetch(fw: Framework, reachable: bool, rows: map<DateTime, Bytes>, open: Opener, timestamp: DateTime)
    : (r: Result<Dataset, Error>)
    ensures !reachable ==> r == Failure(Raise(fw, 500, DatabaseConnectionFailed))
    ensures reachable && timestamp !in rows ==> r == Failure(Raise(fw, 404, NoDataForTimestamp(timestamp)))
    ensures r.Success? <==> reachable && timestamp in rows && open(rows[timestamp]).Some?
    ensures r.Success? ==> r.value == open(rows[timestamp]).value
  {
    if !reachable then Failure(Raise(fw, 500, DatabaseConnectionFailed))
    else if timestamp !in rows then Failure(Raise(fw, 404, NoDataForTimestamp(timestamp)))
    else match open(rows[timestamp])
      case None => Failure(OpenFailed)
      case Some(ds) => Success(ds)
  }

  /** `get_db_data(timestamp)` with the temporary file removed again when
      it cannot be decoded. The snapshot is written to a new `.nc` file and
      decoded from there; the connection is closed on every path. */
  method GetDbData(fw: Framework, db: Database, disk: Disk, open: Opener, timestamp: DateTime)
    returns (r: Result<(Dataset, string), Error>)
    modifies db, disk
    ensures r.Success? <==> Fetch(fw, db.reachable, db.rows, open, timestamp).Success?
    ensures r.Success? ==> r.value.0 == Fetch(fw, db.reachable, db.rows, open, timestamp).value
    ensures r.Failure? ==> r.error == Fetch(fw, db.reachable, db.rows, open, timestamp).error
    ensures r.Success? ==> var path := r.value.1;
      && path !in old(disk.files) && EndsWith(path, ".nc")
      && disk.files == old(disk.files)[path := db.rows[timestamp]]
    ensures r.Failure? ==> Residue(old(disk.files), disk.files, disk.stuck)
    ensures db.openConnections == old(db.openConnections)
  {
    var conn := db.Connect();
    if conn.None? {
      return Failure(Raise(fw, 500, DatabaseConnectionFailed));
    }
    var c := conn.value;
    var row := c.FetchOne(timestamp);
    if row.None? {
      r := Failure(Raise(fw, 404, NoDataForTimestamp(timestamp)));
    } else {
      var path := disk.CreateTemp(".nc", row.value);
      match open(disk.files[path]) {
        case None =>
          var _ := disk.Remove(path);
          r := Failure(OpenFailed);
        case Some(ds) =>
          r := Success((ds, path));
      }
    }
    c.Close();
    if fw == FastApi {
      // The FastAPI variant closes the connection a second time.
      c.Close();
    }
  }

  /** `get_db_data(timestamp)` as written: when `xr.open_dataset` raises,
      the temporary file stays on disk, since it was created with
      `delete=False` and its name was never returned to be registered. */
  method GetDbDataAsWritten(fw: Framework, db: Database, disk: Disk, open: Opener, timestamp: DateTime)
    returns (r: Result<(Dataset, string), Error>)
    modifies db, disk
    ensures r.Success? <==> Fetch(fw, db.reachable, db.rows, open, timestamp).Success?
    ensures r.Failure? ==> r.error == Fetch(fw, db.reachable, db.rows, open, timestamp).error
    ensures r == Failure(OpenFailed) ==> |disk.files.Keys| == |old(disk.files.Keys)| + 1
    ensures db.openConnections == old(db.openConnections)
  {
    var conn := db.Connect();
    if conn.None? {
      return Failure(Raise(fw, 500, DatabaseConnectionFailed));
    }
    var c := conn.value;
    var row := c.FetchOne(timestamp);
    if row.None? {
      r := Failure(Raise(fw, 404, NoDataForTimestamp(timestamp)));
    } else {
      var path := disk.CreateTemp(".nc", row.value);
      assert disk.files.Keys == old(disk.files.Keys) + {path};
      match open(disk.files[path]) {
        case None =>
          r := Failure(OpenFailed);
        case Some(ds) =>
          r := Success((ds, path));
      }
    }
    c.Close();
    if fw == FastApi {
      c.Close();
    }
  }

  /** A snapshot that cannot be decoded leaves a file behind on an empty
      disk where nothing is protected against removal. */
  method LeakWitness(fw: Framework) returns (leftover: nat)
    ensures leftover == 1
  {
    var t := DateTime(2024, 1, 1, 0, 0, 0);
    var db := new Database(true, map[t := [0x43, 0x44, 0x46]]);
    var disk := new Disk(map[], {});
    var r := GetDbDataAsWritten(fw, db, disk, _ => None, t);
    leftover := |disk.files.Keys|;
  }

  /** With the corrected fetch, the same snapshot leaves the disk empty. */
  method NoLeakWitness(fw: Framework) returns (leftover: nat)
    ensures leftover == 0
  {
    var t := DateTime(2024, 1, 1, 0, 0, 0);
    var db := new Database(true, map[t := [0x43, 0x44, 0x46]]);
    var disk := new Disk(map[], {});
    var r := GetDbData(fw, db, disk, _ => None, t);
    assert r.Failure?;
    leftover := |disk.files.Keys|;
  }
}
