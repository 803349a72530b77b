/**
 * The epoch store kept in rqlite (RqliteEpochStore.cpp). Each of the three
 * per-log records ZooKeeper keeps as a znode is a row keyed by log id in a
 * table of its own:
 *   - logdevice_<cluster>_logs_sequencer holds the epoch metadata;
 *   - logdevice_<cluster>_logs_lce holds the last clean epoch of the data log;
 *   - logdevice_<cluster>_logs_metadatalog_lce holds that of the metadata log.
 * Every row carries a version. A request reads its row, lets the request
 * decide, and then either provisions all three rows in one transaction or
 * writes its row back, conditional on the version it read. The conditional
 * write makes the read-modify-write atomic, as ZooKeeper's versioned setData
 * does.
 */
module RqliteEpochStore {
  import opened Errors
  import opened Wrappers
  import opened HexCodec
  import opened Json
  import Text
  import opened RqliteServer
  import opened RqliteClient
  import opened EpochStoreRequest

  const LOGID_COLUMN: string := "logid"
  const NOT_FOUND: string := "not found"
  const NO_SUCH_TABLE: string := "no such table"

  /** `tablePrefix()`. */
  function TablePrefix(clusterName: string): string
  {
    "logdevice_" + clusterName + "_logs_"
  }

  /**
   * `splitZnodePath`: the log id and the record name of a path
   * "/<logid>/<name>". A path that does not split into exactly three items
   * fails the `ld_check`, shown here as None.
   */
  function SplitZnodePath(path: string): (r: Option<(string, string)>)
    ensures r.Some? <==> |Text.GetlineSplit(path, '/')| == 3
  {
    var items := Text.GetlineSplit(path, '/');
    if |items| == 3 then Some((items[1], items[2])) else None
  }

  /** A request's path with an empty root splits back into its log id and record name. */
  lemma SplitZnodePathRoundTrip(logid: string, name: string)
    requires logid != [] && name != [] && '/' !in logid && '/' !in name
    ensures SplitZnodePath("/" + logid + "/" + name) == Some((logid, name))
  {
    var xs := [[], logid, name];
    assert Text.Join(xs, '/') == "/" + logid + "/" + name by {
      assert Text.Join(xs[1..], '/') == logid + "/" + Text.Join(xs[2..], '/');
    }
    Text.GetlineSplitJoin(xs, '/');
  }

  /** `RqliteReadResult`; `version` is 0 where the source leaves it unset. */
  datatype ReadResult = ReadResult(error: string, st: Status, value: Bytes, version: nat)

  /** The `ld_check`s `readTable` makes on a successful query result. */
  predicate WellFormedRead(q: QueryResult)
  {
    q.error == [] && q.values != [] ==> |q.values| == 1 && |q.values[0]| == 2
  }

  /** What `readTable`'s callback makes of the query result. */
  function ReadResultOf(q: QueryResult): (r: ReadResult)
    requires WellFormedRead(q)
    ensures r.st == OK <==> q.error == [] && q.values != []
    ensures r.st == NOTFOUND <==> (q.error == [] && q.values == []) || (q.error != [] && NO_SUCH_TABLE <= q.error)
    ensures r.st == Status.FAILED <==> q.error != [] && !(NO_SUCH_TABLE <= q.error)
    ensures r.st == OK ==> r.value == FromHex(ToStr(q.values[0][0])) && r.version == ToNumber(q.values[0][1])
  {
    if q.error == [] then
      if q.values == [] then ReadResult(NOT_FOUND, NOTFOUND, [], 0)
      else ReadResult([], OK, FromHex(ToStr(q.values[0][0])), ToNumber(q.values[0][1]))
    else ReadResult(q.error, if Text.MismatchReachesEnd(NO_SUCH_TABLE, q.error) then NOTFOUND else Status.FAILED, [], 0)
  }

  /**
   * The read result stated directly over the database: a missing table or
   * row is NOTFOUND, an unreachable server FAILED, and an existing row gives
   * its decoded value and its version.
   */
  function ReadTableSpec(ts: Tables, reachable: bool, table: string, logid: string): ReadResult
  {
    if !reachable then ReadResult(CONNECTION_ERROR, Status.FAILED, [], 0)
    else if table !in ts then ReadResult(NoSuchTable(table), NOTFOUND, [], 0)
    else if logid !in ts[table] then ReadResult(NOT_FOUND, NOTFOUND, [], 0)
    else ReadResult([], OK, FromHex(ts[table][logid].value), ts[table][logid].version)
  }

  function SelectRow(table: string, column: string, logid: string): Select
  {
    Select(table, LOGID_COLUMN, column, false, logid)
  }

  /** `writeTable`'s status for the update's result. */
  function WriteStatus(r: ExecResult): (st: Status)
    ensures st == OK <==> r.error == [] && r.rowsAffected == 1
    ensures st == AGAIN <==> r.error == [] && r.rowsAffected == 0
    ensures st == Status.FAILED <==> r.error != []
    ensures st in {OK, AGAIN, Status.FAILED, UNKNOWN}
  {
    if r.error != [] then Status.FAILED
    else if r.rowsAffected == 0 then AGAIN
    else if r.rowsAffected == 1 then OK
    else UNKNOWN
  }

  /**
   * The conditional write stated directly over the tables: it succeeds only on
   * the version that was read, and then stores the hex of the value at the
   * next version.
   */
  function WriteTableSpec(ts: Tables, table: string, logid: string, value: Bytes, version: nat): (Tables, Status)
  {
    if table !in ts then (ts, Status.FAILED)
    else if logid in ts[table] && ts[table][logid].version == version then
      (ts[table := ts[table][logid := Row(ToHex(value), version + 1)]], OK)
    else (ts, AGAIN)
  }

  function ProvisionStmts(prefix: string, logid: string, hex: string): seq<Stmt>
  {
    [CreateTable(prefix + SEQUENCER, LOGID_COLUMN, true, SEQUENCER),
     CreateTable(prefix + LCE, LOGID_COLUMN, true, LCE),
     CreateTable(prefix + METADATALOG_LCE, LOGID_COLUMN, true, METADATALOG_LCE),
     Insert(prefix + SEQUENCER, LOGID_COLUMN, SEQUENCER, logid, hex, 0),
     Insert(prefix + LCE, LOGID_COLUMN, LCE, logid, [], 0),
     Insert(prefix + METADATALOG_LCE, LOGID_COLUMN, METADATALOG_LCE, logid, [], 0)]
  }

  function Existing(ts: Tables, t: string): Table
  {
    if t in ts then ts[t] else map[]
  }

  /**
   * Provisioning stated directly over the tables: all three rows are created
   * at version 0 (the epoch metadata holds the value, the two last clean
   * epochs are empty), or, when any of them already exists, nothing changes.
   */
  function ProvisionSpec(ts: Tables, prefix: string, logid: string, value: Bytes): (Tables, Status)
  {
    ProvisionOn(ts, prefix + SEQUENCER, prefix + LCE, prefix + METADATALOG_LCE, logid, ToHex(value))
  }

  /** ProvisionSpec over the three tables `t1` (epoch metadata), `t2` and `t3` (last clean epochs). */
  function ProvisionOn(ts: Tables, t1: string, t2: string, t3: string, logid: string, hex: string): (Tables, Status)
  {
    var c := WithTable(WithTable(WithTable(ts, t1), t2), t3);
    if logid in c[t1] || logid in c[t2] || logid in c[t3] then (ts, Status.FAILED)
    else
      (c[t1 := c[t1][logid := Row(hex, 0)]]
        [t2 := c[t2][logid := Row([], 0)]]
        [t3 := c[t3][logid := Row([], 0)]], OK)
  }

  /** Where a request goes after its read. */
  function Plan(req: Request, md: LogMetaData, read: ReadResult, bufferLen: nat): Decision
  {
    if read.st != OK && read.st != NOTFOUND then Finish(read.st, md)
    else AfterRead(req, md, read.st == OK, read.value, bufferLen)
  }

  /** The path of a request's record (`getZnodePath("")`) splits as `splitZnodePath` expects. */
  predicate PathSplits(req: Request)
  {
    SplitZnodePath(req.znodePath([])).Some?
  }

  function RowKey(req: Request): string
    requires PathSplits(req)
  {
    SplitZnodePath(req.znodePath([])).value.0
  }

  function TableOf(clusterName: string, req: Request): string
    requires PathSplits(req)
  {
    TablePrefix(clusterName) + SplitZnodePath(req.znodePath([])).value.1
  }

  /**
   * The tables and the completion once the read has come back: the rows
   * change only through a provisioning or a conditional write, and an
   * unreachable server fails either.
   */
  function CompleteSpec(ts: Tables, reachable: bool, clusterName: string, req: Request, md: LogMetaData,
                        read: ReadResult, bufferLen: nat, shuttingDown: bool): (Tables, Option<Completion>)
    requires PathSplits(req)
  {
    match Plan(req, md, read, bufferLen)
    case Finish(st, m) => (ts, PostRequestCompletion(st, m, shuttingDown))
    case Provision(v, m) =>
      var (ts1, st) := if reachable then ProvisionSpec(ts, TablePrefix(clusterName), Text.Decimal(req.logid), v)
                       else (ts, Status.FAILED);
      (ts1, PostRequestCompletion(st, m, shuttingDown))
    case Modify(v, m) =>
      var (ts1, st) := if reachable then WriteTableSpec(ts, TableOf(clusterName, req), RowKey(req), v, read.version)
                       else (ts, Status.FAILED);
      (ts1, PostRequestCompletion(st, m, shuttingDown))
  }

  /** A whole request from the metadata of a new log: the read of its row, then CompleteSpec. */
  function RequestSpec(ts: Tables, reachable: bool, clusterName: string, req: Request, bufferLen: nat,
                       shuttingDown: bool): (Tables, Option<Completion>)
    requires PathSplits(req)
  {
    CompleteSpec(ts, reachable, clusterName, req, ForNewLog(req.logid),
                 ReadTableSpec(ts, reachable, TableOf(clusterName, req), RowKey(req)), bufferLen, shuttingDown)
  }

  class Store {
    const clusterName: string
    const client: Client
    /** `EpochStoreEpochMetaDataFormat::BUFFER_LEN_MAX`. */
    const bufferLen: nat
    /** `LOGID_MAX`. */
    const logidMax: nat
    var shuttingDown: bool

    constructor(clusterName: string, client: Client, bufferLen: nat, logidMax: nat)
      requires clusterName != []
      ensures this.clusterName == clusterName && this.client == client
      ensures this.bufferLen == bufferLen && this.logidMax == logidMax && !shuttingDown
    {
      this.clusterName := clusterName;
      this.client := client;
      this.bufferLen := bufferLen;
      this.logidMax := logidMax;
      shuttingDown := false;
    }

    /** The destructor: from here on SHUTDOWN completions are dropped. */
    method Shutdown()
      modifies this
      ensures shuttingDown
    {
      shuttingDown := true;
    }

    /** The callback of `readTable`. */
    static method ReadFrom(q: QueryResult) returns (r: ReadResult)
      requires WellFormedRead(q)
      ensures r == ReadResultOf(q)
    {
      var error := q.error;
      if error == [] {
        if q.values == [] {
          r := ReadResult(NOT_FOUND, NOTFOUND, [], 0);
        } else {
          var value := Hex2Str(ToStr(q.values[0][0]));
          r := ReadResult([], OK, value, ToNumber(q.values[0][1]));
        }
      } else {
        var st := if Text.MismatchReachesEnd(NO_SUCH_TABLE, error) then NOTFOUND else Status.FAILED;
        r := ReadResult(error, st, [], 0);
      }
    }

    /** readTable. */
    method ReadTable(req: Request) returns (r: ReadResult)
      requires PathSplits(req)
      ensures r == ReadTableSpec(client.server.tables, client.server.reachable, TableOf(clusterName, req), RowKey(req))
    {
      var (logid, column) := SplitZnodePath(req.znodePath([])).value;
      var table := TablePrefix(clusterName) + column;
      var q := SelectRow(table, column, logid);
      var res := client.Query([q]);
      r := ReadFrom(res.results[0]);
    }

    /** writeTable: the update conditional on the version that was read. */
    method WriteTable(req: Request, value: Bytes, version: nat) returns (st: Status)
      requires PathSplits(req)
      modifies client.server
      ensures client.server.reachable == old(client.server.reachable)
      ensures old(client.server.reachable) ==>
                (client.server.tables, st) ==
                WriteTableSpec(old(client.server.tables), TableOf(clusterName, req), RowKey(req), value, version)
      ensures !old(client.server.reachable) ==> client.server.tables == old(client.server.tables) && st == Status.FAILED
    {
      var (logid, column) := SplitZnodePath(req.znodePath([])).value;
      var table := TablePrefix(clusterName) + column;
      var hex := Str2Hex(value);
      ghost var ts := client.server.tables;
      var res := client.Execute([Update(table, LOGID_COLUMN, column, logid, hex, version + 1, version)], true);
      st := WriteStatus(res.results[0]);
      if old(client.server.reachable) {
        WriteRun(ts, table, column, logid, value, version);
      } else {
        assert res.results[0].error == CONNECTION_ERROR;
      }
    }

    /** The status loop of `provisionLogRows`' callback: FAILED on the first error. */
    static method ProvisionStatus(results: seq<ExecResult>) returns (st: Status)
      ensures st == OK <==> forall i :: 0 <= i < |results| ==> results[i].error == []
      ensures st != OK ==> st == Status.FAILED
    {
      st := OK;
      var i := 0;
      while i < |results|
        invariant 0 <= i <= |results|
        invariant forall j :: 0 <= j < i ==> results[j].error == []
      {
        if results[i].error != [] {
          st := Status.FAILED;
          break;
        }
        i := i + 1;
      }
    }

    /** provisionLogRows: three tables created if missing and three rows inserted, in one transaction. */
    method ProvisionLogRows(req: Request, value: Bytes) returns (st: Status)
      modifies client.server
      ensures client.server.reachable == old(client.server.reachable)
      ensures old(client.server.reachable) ==>
                (client.server.tables, st) ==
                ProvisionSpec(old(client.server.tables), TablePrefix(clusterName), Text.Decimal(req.logid), value)
      ensures !old(client.server.reachable) ==> client.server.tables == old(client.server.tables) && st == Status.FAILED
    {
      var prefix := TablePrefix(clusterName);
      var logid := Text.Decimal(req.logid);
      var hex := Str2Hex(value);
      ghost var ts := client.server.tables;
      var res := client.Execute(ProvisionStmts(prefix, logid, hex), true);
      st := ProvisionStatus(res.results);
      if old(client.server.reachable) {
        ProvisionRun(ts, prefix, logid, value);
      } else {
        assert res.results[0].error == CONNECTION_ERROR;
      }
    }

    /** onReadTableComplete. */
    method OnReadTableComplete(req: Request, md: LogMetaData, read: ReadResult) returns (posted: Option<Completion>)
      requires PathSplits(req)
      modifies client.server
      ensures client.server.reachable == old(client.server.reachable)
      ensures (client.server.tables, posted) ==
              CompleteSpec(old(client.server.tables), old(client.server.reachable), clusterName, req, md, read,
                           bufferLen, shuttingDown)
    {
      var decision := Plan(req, md, read, bufferLen);
      match decision
      case Finish(st, m) =>
        posted := PostRequestCompletion(st, m, shuttingDown);
      case Provision(v, m) =>
        var st := ProvisionLogRows(req, v);
        posted := PostRequestCompletion(st, m, shuttingDown);
      case Modify(v, m) =>
        var st := WriteTable(req, v, read.version);
        posted := PostRequestCompletion(st, m, shuttingDown);
    }

    /** runRequest: read the request's row, then complete as above. */
    method RunRequest(req: Request) returns (posted: Option<Completion>)
      requires PathSplits(req)
      modifies client.server
      ensures client.server.reachable == old(client.server.reachable)
      ensures (client.server.tables, posted) ==
              RequestSpec(old(client.server.tables), old(client.server.reachable), clusterName, req, bufferLen,
                          shuttingDown)
    {
      var read := ReadTable(req);
      posted := OnReadTableComplete(req, ForNewLog(req.logid), read);
    }

    /**
     * setLastCleanEpoch: a tail record that is invalid or carries an offset
     * within its epoch is refused with INVALID_PARAM and -1; otherwise the
     * request runs.
     */
    method SetLastCleanEpoch(req: Request, tailRecordValid: bool, tailContainsOffsetWithinEpoch: bool)
      returns (rc: int, err: Status, posted: Option<Completion>)
      requires PathSplits(req)
      modifies client.server
      ensures !tailRecordValid || tailContainsOffsetWithinEpoch ==>
                rc == -1 && err == INVALID_PARAM && posted.None? && client.server.tables == old(client.server.tables)
      ensures client.server.reachable == old(client.server.reachable)
      ensures tailRecordValid && !tailContainsOffsetWithinEpoch ==>
                rc == 0 && err == OK &&
                (client.server.tables, posted) ==
                RequestSpec(old(client.server.tables), old(client.server.reachable), clusterName, req, bufferLen,
                            shuttingDown)
    {
      if !tailRecordValid || tailContainsOffsetWithinEpoch {
        return -1, INVALID_PARAM, None;
      }
      posted := RunRequest(req);
      rc, err := 0, OK;
    }

    /**
     * createOrUpdateMetaData: only data log ids are accepted, that is
     * LOGID_INVALID < logid <= LOGID_MAX; others are refused with INVALID_PARAM.
     */
    method CreateOrUpdateMetaData(req: Request) returns (rc: int, err: Status, posted: Option<Completion>)
      requires PathSplits(req)
      modifies client.server
      ensures req.logid == 0 || req.logid > logidMax ==>
                rc == -1 && err == INVALID_PARAM && posted.None? && client.server.tables == old(client.server.tables)
      ensures client.server.reachable == old(client.server.reachable)
      ensures 0 < req.logid <= logidMax ==>
                rc == 0 && err == OK &&
                (client.server.tables, posted) ==
                RequestSpec(old(client.server.tables), old(client.server.reachable), clusterName, req, bufferLen,
                            shuttingDown)
    {
      if req.logid == 0 || req.logid > logidMax {
        return -1, INVALID_PARAM, None;
      }
      posted := RunRequest(req);
      rc, err := 0, OK;
    }
  }

  /** The conditional update, run in a transaction of its own, has the effect WriteTableSpec states. */
  lemma WriteRun(ts: Tables, table: string, column: string, logid: string, value: Bytes, version: nat)
    ensures var r := Run(ts, [Update(table, LOGID_COLUMN, column, logid, ToHex(value), version + 1, version)], true);
            |r.1| == 1 && (r.0, WriteStatus(AsExecResult(r.1[0]))) == WriteTableSpec(ts, table, logid, value, version)
  {
    var stmts := [Update(table, LOGID_COLUMN, column, logid, ToHex(value), version + 1, version)];
    assert stmts[1..] == [];
    var r := RunUntilFailure(ts, stmts);
    var (t1, o) := Step(ts, stmts[0]);
    assert RunUntilFailure(t1, stmts[1..]) == (t1, []);
    assert !o.Failed? ==> r.0 == t1;
    assert !o.Failed? ==> r.1 == [o];
    if table !in ts {
      assert r == (ts, [Failed(NoSuchTable(table))]) && r.1[0].Failed?;
      assert NoSuchTable(table) != [];
    } else if logid in ts[table] && ts[table][logid].version == version {
      assert r == (ts[table := ts[table][logid := Row(ToHex(value), version + 1)]], [Done(1)]);
      assert !AnyFailed(r.1);
    } else {
      assert r == (ts, [Done(0)]);
      assert !AnyFailed(r.1);
    }
  }

  /** One statement of a transaction: a failure ends it, otherwise the rest runs on the new tables. */
  lemma RunUntilFailureStep(ts: Tables, stmts: seq<Stmt>)
    requires stmts != []
    ensures var (t1, o) := Step(ts, stmts[0]);
            var rest := RunUntilFailure(t1, stmts[1..]);
            RunUntilFailure(ts, stmts) == if o.Failed? then (t1, [o]) else (rest.0, [o] + rest.1)
  {
  }

  /** A statement followed by more: the run takes its step, then goes on unless it failed. */
  lemma RunCons(ts: Tables, st: Stmt, rest: seq<Stmt>)
    ensures var (t1, o) := Step(ts, st);
            RunUntilFailure(ts, [st] + rest) ==
              if o.Failed? then (t1, [o]) else (RunUntilFailure(t1, rest).0, [o] + RunUntilFailure(t1, rest).1)
  {
    assert ([st] + rest)[0] == st && ([st] + rest)[1..] == rest;
  }

  /** The results of the three inserts on tables that exist: a run of successes up to the first duplicate. */
  function InsertOutcomes(c: Tables, t1: string, t2: string, t3: string, logid: string, hex: string)
    : (Tables, seq<Outcome>)
    requires t1 in c && t2 in c && t3 in c
  {
    var d1 := c[t1 := c[t1][logid := Row(hex, 0)]];
    var d2 := d1[t2 := c[t2][logid := Row([], 0)]];
    var d3 := d2[t3 := c[t3][logid := Row([], 0)]];
    if logid in c[t1] then (c, [Failed(UniqueFailed(t1, LOGID_COLUMN))])
    else if logid in c[t2] then (d1, [Done(1), Failed(UniqueFailed(t2, LOGID_COLUMN))])
    else if logid in c[t3] then (d2, [Done(1), Done(1), Failed(UniqueFailed(t3, LOGID_COLUMN))])
    else (d3, [Done(1), Done(1), Done(1)])
  }

  lemma InsertsRunOutcomes(c: Tables, t1: string, t2: string, t3: string, logid: string, hex: string)
    requires t1 in c && t2 in c && t3 in c && t1 != t2 && t1 != t3 && t2 != t3
    ensures RunUntilFailure(c, [Insert(t1, LOGID_COLUMN, SEQUENCER, logid, hex, 0),
                                Insert(t2, LOGID_COLUMN, LCE, logid, [], 0),
                                Insert(t3, LOGID_COLUMN, METADATALOG_LCE, logid, [], 0)])
            == InsertOutcomes(c, t1, t2, t3, logid, hex)
  {
    var i1 := Insert(t1, LOGID_COLUMN, SEQUENCER, logid, hex, 0);
    var i2 := Insert(t2, LOGID_COLUMN, LCE, logid, [], 0);
    var i3 := Insert(t3, LOGID_COLUMN, METADATALOG_LCE, logid, [], 0);
    assert [i1, i2, i3] == [i1] + ([i2] + ([i3] + []));
    var d1 := c[t1 := c[t1][logid := Row(hex, 0)]];
    var d2 := d1[t2 := c[t2][logid := Row([], 0)]];
    var d3 := d2[t3 := c[t3][logid := Row([], 0)]];
    RunCons(c, i1, [i2] + ([i3] + []));
    if logid in c[t1] {
      assert Step(c, i1) == (c, Failed(UniqueFailed(t1, LOGID_COLUMN)));
    } else {
      assert Step(c, i1) == (d1, Done(1));
      assert d1[t2] == c[t2] && t2 in d1;
      RunCons(d1, i2, [i3] + []);
      if logid in c[t2] {
        assert Step(d1, i2) == (d1, Failed(UniqueFailed(t2, LOGID_COLUMN)));
        assert [Done(1)] + [Failed(UniqueFailed(t2, LOGID_COLUMN))] == [Done(1), Failed(UniqueFailed(t2, LOGID_COLUMN))];
      } else {
        assert Step(d1, i2) == (d2, Done(1));
        assert d2[t3] == c[t3] && t3 in d2;
        RunCons(d2, i3, []);
        if logid in c[t3] {
          assert Step(d2, i3) == (d2, Failed(UniqueFailed(t3, LOGID_COLUMN)));
          assert [Done(1)] + ([Done(1)] + [Failed(UniqueFailed(t3, LOGID_COLUMN))])
              == [Done(1), Done(1), Failed(UniqueFailed(t3, LOGID_COLUMN))];
        } else {
          assert Step(d2, i3) == (d3, Done(1));
          assert RunUntilFailure(d3, []) == (d3, []);
          assert [Done(1)] + ([Done(1)] + ([Done(1)] + [])) == [Done(1), Done(1), Done(1)];
        }
      }
    }
  }

  /** The three inserts of a provisioning, once the tables exist: all succeed, or the first duplicate fails. */
  lemma InsertsRun(c: Tables, t1: string, t2: string, t3: string, logid: string, hex: string)
    requires t1 in c && t2 in c && t3 in c && t1 != t2 && t1 != t3 && t2 != t3
    ensures var r := RunUntilFailure(c, [Insert(t1, LOGID_COLUMN, SEQUENCER, logid, hex, 0),
                                         Insert(t2, LOGID_COLUMN, LCE, logid, [], 0),
                                         Insert(t3, LOGID_COLUMN, METADATALOG_LCE, logid, [], 0)]);
            var clash := logid in c[t1] || logid in c[t2] || logid in c[t3];
            (AnyFailed(r.1) <==> clash) &&
            (forall i :: 0 <= i < |r.1| && r.1[i].Failed? ==> r.1[i].message != []) &&
            (!clash ==> r.0 == c[t1 := c[t1][logid := Row(hex, 0)]][t2 := c[t2][logid := Row([], 0)]]
                                [t3 := c[t3][logid := Row([], 0)]])
  {
    InsertsRunOutcomes(c, t1, t2, t3, logid, hex);
    var r := InsertOutcomes(c, t1, t2, t3, logid, hex);
    if logid in c[t1] {
      assert r.1[0].Failed?;
    } else if logid in c[t2] {
      assert r.1[1].Failed?;
    } else if logid in c[t3] {
      assert r.1[2].Failed?;
    }
  }

  /** Three `create table if not exists` succeed and leave every table in place. */
  lemma CreatesRun(ts: Tables, s1: Stmt, s2: Stmt, s3: Stmt, rest: seq<Stmt>)
    requires s1.CreateTable? && s2.CreateTable? && s3.CreateTable?
    ensures var c := WithTable(WithTable(WithTable(ts, s1.table), s2.table), s3.table);
            var r := RunUntilFailure(c, rest);
            RunUntilFailure(ts, [s1, s2, s3] + rest) == (r.0, [Done(0), Done(0), Done(0)] + r.1)
  {
    var c1 := WithTable(ts, s1.table);
    var c2 := WithTable(c1, s2.table);
    var c3 := WithTable(c2, s3.table);
    assert [s1, s2, s3] + rest == [s1] + ([s2] + ([s3] + rest));
    RunCons(ts, s1, [s2] + ([s3] + rest));
    RunCons(c1, s2, [s3] + rest);
    RunCons(c2, s3, rest);
    var r := RunUntilFailure(c3, rest);
    assert [Done(0)] + ([Done(0)] + ([Done(0)] + r.1)) == [Done(0), Done(0), Done(0)] + r.1;
  }

  /** Leading successes do not change whether a transaction failed. */
  lemma AnyFailedAfterDone(pre: seq<Outcome>, outs: seq<Outcome>)
    requires forall i :: 0 <= i < |pre| ==> pre[i].Done?
    ensures AnyFailed(pre + outs) <==> AnyFailed(outs)
  {
    if AnyFailed(outs) {
      var i :| 0 <= i < |outs| && outs[i].Failed?;
      assert (pre + outs)[i + |pre|] == outs[i];
    }
    if AnyFailed(pre + outs) {
      var i :| 0 <= i < |pre + outs| && (pre + outs)[i].Failed?;
      assert outs[i - |pre|] == (pre + outs)[i];
    }
  }

  /** With every failure message non-empty, a transaction failed exactly when some result carries an error. */
  lemma AnyFailedErrors(outs: seq<Outcome>)
    requires forall i :: 0 <= i < |outs| && outs[i].Failed? ==> outs[i].message != []
    ensures AnyFailed(outs) <==> !forall i :: 0 <= i < |outs| ==> AsExecResult(outs[i]).error == []
  {
    if AnyFailed(outs) {
      var i :| 0 <= i < |outs| && outs[i].Failed?;
      assert AsExecResult(outs[i]).error != [];
    }
  }

  /** The six provisioning statements, run in one transaction, have the effect ProvisionSpec states. */
  lemma ProvisionRun(ts: Tables, prefix: string, logid: string, value: Bytes)
    ensures var r := Run(ts, ProvisionStmts(prefix, logid, ToHex(value)), true);
            var spec := ProvisionSpec(ts, prefix, logid, value);
            r.0 == spec.0 &&
            (spec.1 == OK <==> forall i :: 0 <= i < |r.1| ==> AsExecResult(r.1[i]).error == [])
  {
    var t1, t2, t3 := prefix + SEQUENCER, prefix + LCE, prefix + METADATALOG_LCE;
    assert t1 != t2 && t1 != t3 && t2 != t3 by {
      assert |t1| != |t2| && |t1| != |t3| && |t2| != |t3|;
    }
    var hex := ToHex(value);
    assert ProvisionStmts(prefix, logid, hex) ==
           [CreateTable(t1, LOGID_COLUMN, true, SEQUENCER),
            CreateTable(t2, LOGID_COLUMN, true, LCE),
            CreateTable(t3, LOGID_COLUMN, true, METADATALOG_LCE)] +
           [Insert(t1, LOGID_COLUMN, SEQUENCER, logid, hex, 0),
            Insert(t2, LOGID_COLUMN, LCE, logid, [], 0),
            Insert(t3, LOGID_COLUMN, METADATALOG_LCE, logid, [], 0)];
    ProvisionRunOn(ts, t1, t2, t3, logid, hex);
  }

  /** ProvisionRun for any three distinct tables. */
  lemma ProvisionRunOn(ts: Tables, t1: string, t2: string, t3: string, logid: string, hex: string)
    requires t1 != t2 && t1 != t3 && t2 != t3
    ensures var r := Run(ts, [CreateTable(t1, LOGID_COLUMN, true, SEQUENCER),
                              CreateTable(t2, LOGID_COLUMN, true, LCE),
                              CreateTable(t3, LOGID_COLUMN, true, METADATALOG_LCE)] +
                             [Insert(t1, LOGID_COLUMN, SEQUENCER, logid, hex, 0),
                              Insert(t2, LOGID_COLUMN, LCE, logid, [], 0),
                              Insert(t3, LOGID_COLUMN, METADATALOG_LCE, logid, [], 0)], true);
            var spec := ProvisionOn(ts, t1, t2, t3, logid, hex);
            r.0 == spec.0 &&
            (spec.1 == OK <==> forall i :: 0 <= i < |r.1| ==> AsExecResult(r.1[i]).error == [])
  {
    var s1, s2, s3 := CreateTable(t1, LOGID_COLUMN, true, SEQUENCER),
                      CreateTable(t2, LOGID_COLUMN, true, LCE),
                      CreateTable(t3, LOGID_COLUMN, true, METADATALOG_LCE);
    var inserts := [Insert(t1, LOGID_COLUMN, SEQUENCER, logid, hex, 0),
                    Insert(t2, LOGID_COLUMN, LCE, logid, [], 0),
                    Insert(t3, LOGID_COLUMN, METADATALOG_LCE, logid, [], 0)];
    CreatesRun(ts, s1, s2, s3, inserts);
    var c := WithTable(WithTable(WithTable(ts, t1), t2), t3);
    var rest := RunUntilFailure(c, inserts);
    InsertsRun(c, t1, t2, t3, logid, hex);
    TransactionAfterCreates(ts, [s1, s2, s3] + inserts, rest);
  }

  /**
   * A transaction whose first three statements succeed without effect on
   * the outcome: it is rolled back exactly when the rest failed, and then
   * some result carries an error.
   */
  lemma TransactionAfterCreates(ts: Tables, stmts: seq<Stmt>, rest: (Tables, seq<Outcome>))
    requires RunUntilFailure(ts, stmts) == (rest.0, [Done(0), Done(0), Done(0)] + rest.1)
    requires forall i :: 0 <= i < |rest.1| && rest.1[i].Failed? ==> rest.1[i].message != []
    ensures Run(ts, stmts, true).0 == if AnyFailed(rest.1) then ts else rest.0
    ensures AnyFailed(rest.1) <==> !forall i :: 0 <= i < |Run(ts, stmts, true).1| ==>
                                      AsExecResult(Run(ts, stmts, true).1[i]).error == []
  {
    var outs := [Done(0), Done(0), Done(0)] + rest.1;
    AnyFailedAfterDone([Done(0), Done(0), Done(0)], rest.1);
    AnyFailedErrors(outs);
  }

  /** A successful conditional write is read back: the value written, at the next version. */
  lemma ReadAfterWrite(ts: Tables, table: string, logid: string, value: Bytes, version: nat)
    requires WriteTableSpec(ts, table, logid, value, version).1 == OK
    ensures ReadTableSpec(WriteTableSpec(ts, table, logid, value, version).0, true, table, logid)
            == ReadResult([], OK, value, version + 1)
  {
    FromHexToHex(value);
  }

  /** A write that does not succeed leaves every table as it was. */
  lemma FailedWriteChangesNothing(ts: Tables, table: string, logid: string, value: Bytes, version: nat)
    ensures WriteTableSpec(ts, table, logid, value, version).1 != OK ==>
            WriteTableSpec(ts, table, logid, value, version).0 == ts
    ensures WriteTableSpec(ts, table, logid, value, version).1 == OK <==>
            table in ts && logid in ts[table] && ts[table][logid].version == version
  {
  }

  /**
   * After a successful provisioning, the epoch metadata reads back as the
   * value at version 0 and both last clean epochs read back empty at version 0.
   */
  lemma ReadAfterProvision(ts: Tables, prefix: string, logid: string, value: Bytes)
    requires ProvisionSpec(ts, prefix, logid, value).1 == OK
    ensures var ts1 := ProvisionSpec(ts, prefix, logid, value).0;
            ReadTableSpec(ts1, true, prefix + SEQUENCER, logid) == ReadResult([], OK, value, 0) &&
            ReadTableSpec(ts1, true, prefix + LCE, logid) == ReadResult([], OK, [], 0) &&
            ReadTableSpec(ts1, true, prefix + METADATALOG_LCE, logid) == ReadResult([], OK, [], 0)
  {
    var t1, t2, t3 := prefix + SEQUENCER, prefix + LCE, prefix + METADATALOG_LCE;
    assert t1 != t2 && t1 != t3 && t2 != t3 by {
      assert |t1| != |t2| && |t1| != |t3| && |t2| != |t3|;
    }
    FromHexToHex(value);
    assert FromHex([]) == [];
  }

  /**
   * A request whose path names its log by the decimal log id, and one of the
   * three records, reads a row provisioning creates.
   */
  predicate PathNamesLog(req: Request)
  {
    PathSplits(req) && RowKey(req) == Text.Decimal(req.logid) &&
    SplitZnodePath(req.znodePath([])).value.1 in {SEQUENCER, LCE, METADATALOG_LCE}
  }

  /**
   * After a successful provisioning, such a request's own read finds its
   * row at version 0: the value for the epoch metadata, empty for the last
   * clean epochs.
   */
  lemma RequestReadsProvisionedRow(ts: Tables, clusterName: string, req: Request, value: Bytes)
    requires PathNamesLog(req)
    requires ProvisionSpec(ts, TablePrefix(clusterName), Text.Decimal(req.logid), value).1 == OK
    ensures var ts1 := ProvisionSpec(ts, TablePrefix(clusterName), Text.Decimal(req.logid), value).0;
            var r := ReadTableSpec(ts1, true, TableOf(clusterName, req), RowKey(req));
            r.st == OK && r.version == 0 &&
            r.value == if SplitZnodePath(req.znodePath([])).value.1 == SEQUENCER then value else []
  {
    ReadAfterProvision(ts, TablePrefix(clusterName), Text.Decimal(req.logid), value);
  }

  /** A provisioning that fails leaves every table as it was, and it fails exactly when a row exists. */
  lemma ProvisionAllOrNothing(ts: Tables, prefix: string, logid: string, value: Bytes)
    ensures var (ts1, st) := ProvisionSpec(ts, prefix, logid, value);
            (st != OK ==> ts1 == ts) &&
            (st == OK <==> forall t :: t in {prefix + SEQUENCER, prefix + LCE, prefix + METADATALOG_LCE} && t in ts
                                       ==> logid !in ts[t])
  {
  }

  /** Writers that all read the same version, applied in turn. */
  function WriteAll(ts: Tables, table: string, logid: string, values: seq<Bytes>, version: nat): (r: (Tables, seq<Status>))
    ensures |r.1| == |values|
  {
    if values == [] then (ts, [])
    else
      var (ts1, st) := WriteTableSpec(ts, table, logid, values[0], version);
      var (ts2, sts) := WriteAll(ts1, table, logid, values[1..], version);
      (ts2, [st] + sts)
  }

  function CountOk(sts: seq<Status>): nat
  {
    if sts == [] then 0 else (if sts[0] == OK then 1 else 0) + CountOk(sts[1..])
  }

  /**
   * The compare-and-swap: of any number of writers that read the same
   * version, at most one succeeds; once one has, the row is at the next
   * version and every later writer gets AGAIN.
   */
  lemma {:induction false} AtMostOneWriterWins(ts: Tables, table: string, logid: string, values: seq<Bytes>, version: nat)
    ensures CountOk(WriteAll(ts, table, logid, values, version).1) <= 1
    decreases |values|
  {
    if values != [] {
      var (ts1, st) := WriteTableSpec(ts, table, logid, values[0], version);
      AtMostOneWriterWins(ts1, table, logid, values[1..], version);
      if st == OK {
        LosersGetAgain(ts1, table, logid, values[1..], version);
      }
    }
  }

  /** Once the row has moved past `version`, every writer holding `version` gets AGAIN and changes nothing. */
  lemma {:induction false} LosersGetAgain(ts: Tables, table: string, logid: string, values: seq<Bytes>, version: nat)
    requires table in ts && logid in ts[table] && ts[table][logid].version != version
    ensures WriteAll(ts, table, logid, values, version).0 == ts
    ensures forall i :: 0 <= i < |values| ==> WriteAll(ts, table, logid, values, version).1[i] == AGAIN
    ensures CountOk(WriteAll(ts, table, logid, values, version).1) == 0
    decreases |values|
  {
    if values != [] {
      assert WriteTableSpec(ts, table, logid, values[0], version) == (ts, AGAIN);
      LosersGetAgain(ts, table, logid, values[1..], version);
    }
  }
}
