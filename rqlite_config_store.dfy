/**
 * The versioned config store kept in rqlite (RqliteVersionedConfigStore.cpp).
 * A key "<table>/<row>" names a row of a table with columns key, value (the
 * hex of the config value) and version (the row version, 0 when the row is
 * created). Config values carry a version of their own, which the store reads
 * with the extraction function it was built with. A read-modify-write reads
 * the row, lets the caller's mutator produce the new value, and writes it back
 * conditional on the row version read; a missing row is inserted, and a row
 * inserted concurrently makes the insert fail.
 */
module RqliteConfigStore {
  import opened Errors
  import opened Wrappers
  import opened HexCodec
  import opened Json
  import Text
  import opened RqliteServer
  import opened RqliteClient

  const KEY_COLUMN: string := "key"
  const VALUE_COLUMN: string := "value"
  const NO_TABLE_ERROR: string := "no such table"
  const ROW_EXISTS_ERROR: string := "UNIQUE constraint failed"

  /** `splitKey`: the table and the row of a key; a key that does not split into two items fails the `ld_check`. */
  function SplitKey(key: string): (r: Option<(string, string)>)
    ensures r.Some? <==> |Text.GetlineSplit(key, '/')| == 2
  {
    var items := Text.GetlineSplit(key, '/');
    if |items| == 2 then Some((items[0], items[1])) else None
  }

  lemma SplitKeyRoundTrip(table: string, row: string)
    requires table != [] && row != [] && '/' !in table && '/' !in row
    ensures SplitKey(table + "/" + row) == Some((table, row))
  {
    var xs := [table, row];
    assert Text.Join(xs, '/') == table + "/" + row by {
      assert Text.Join(xs[1..], '/') == row;
    }
    Text.GetlineSplitJoin(xs, '/');
  }

  /**
   * `matchError`: `std::mismatch` of the candidate against the error's
   * characters, which stops at the error's terminating NUL at the latest
   * since no candidate contains one; true when the candidate runs out first.
   */
  function MatchError(error: string, candidate: string): (r: bool)
    requires '\0' !in candidate
    ensures r <==> candidate <= error
  {
    Text.MismatchReachesEnd(candidate, error)
  }

  function NoTable(error: string): (r: bool)
    ensures r <==> NO_TABLE_ERROR <= error
  {
    MatchError(error, NO_TABLE_ERROR)
  }

  /** `toStatus` of a select's result. */
  function ToStatus(q: QueryResult): (st: Status)
    ensures st == OK <==> q.error == [] && q.values != []
    ensures st == NOTFOUND <==> (q.error == [] && q.values == []) || (q.error != [] && NO_TABLE_ERROR <= q.error)
    ensures st == Status.FAILED <==> q.error != [] && !(NO_TABLE_ERROR <= q.error)
  {
    if q.error == [] then
      if q.values == [] then NOTFOUND else OK
    else if NoTable(q.error) then NOTFOUND
    else Status.FAILED
  }

  /** What the row reads as, stated directly over the database. */
  datatype RowRead = RowRead(st: Status, value: Bytes, version: nat)

  function ReadRow(ts: Tables, reachable: bool, table: string, rowKey: string): RowRead
  {
    if !reachable then RowRead(Status.FAILED, [], 0)
    else if table !in ts || rowKey !in ts[table] then RowRead(NOTFOUND, [], 0)
    else RowRead(OK, FromHex(ts[table][rowKey].value), ts[table][rowKey].version)
  }

  function RowSelect(table: string, rowKey: string): Select
  {
    Select(table, KEY_COLUMN, VALUE_COLUMN, true, rowKey)
  }

  /** The statements `writeModifiedValueNew` sends (without a transaction). */
  function NewRowStmts(table: string, rowKey: string, hex: string): seq<Stmt>
  {
    [CreateTable(table, KEY_COLUMN, false, VALUE_COLUMN), Insert(table, KEY_COLUMN, VALUE_COLUMN, rowKey, hex, 0)]
  }

  /** `writeModifiedValue`'s status for the update's result. */
  function UpdateStatus(r: ExecResult): (st: Status)
    ensures st == OK <==> r.error == [] && r.rowsAffected == 1
    ensures st == VERSION_MISMATCH <==> r.error == [] && r.rowsAffected == 0
    ensures st == Status.FAILED <==> r.error != []
    ensures st in {OK, VERSION_MISMATCH, Status.FAILED, INTERNAL}
  {
    if r.error != [] then Status.FAILED
    else if r.rowsAffected == 0 then VERSION_MISMATCH
    else if r.rowsAffected == 1 then OK
    else INTERNAL
  }

  /**
   * `writeModifiedValueNew`'s status, as the source writes it: it tests the
   * insert's error but matches "UNIQUE constraint failed" against the error of
   * the create, and it reads a second result that a request which did not
   * reach the server does not have.
   */
  function InsertStatusAsWritten(results: seq<ExecResult>): Status
    requires |results| >= 2
  {
    if results[1].error != [] then
      if MatchError(results[0].error, ROW_EXISTS_ERROR) then VERSION_MISMATCH else Status.FAILED
    else if results[1].rowsAffected == 1 then OK
    else INTERNAL
  }

  /**
   * The status as intended: the insert's own error decides, so a row
   * inserted by someone else since the read is VERSION_MISMATCH; a request
   * that did not reach the server is FAILED.
   */
  function InsertStatus(results: seq<ExecResult>): (st: Status)
    ensures |results| < 2 ==> st == Status.FAILED
    ensures |results| >= 2 ==>
              (st == VERSION_MISMATCH <==> results[1].error != [] && ROW_EXISTS_ERROR <= results[1].error) &&
              (st == OK <==> results[1].error == [] && results[1].rowsAffected == 1)
  {
    if |results| < 2 then Status.FAILED
    else if results[1].error != [] then
      if MatchError(results[1].error, ROW_EXISTS_ERROR) then VERSION_MISMATCH else Status.FAILED
    else if results[1].rowsAffected == 1 then OK
    else INTERNAL
  }

  /** The conditional update stated directly over the tables. */
  function WriteRowSpec(ts: Tables, table: string, rowKey: string, value: Bytes, rowVersion: nat): (Tables, Status)
  {
    if table !in ts then (ts, Status.FAILED)
    else if rowKey in ts[table] && ts[table][rowKey].version == rowVersion then
      (ts[table := ts[table][rowKey := Row(ToHex(value), rowVersion + 1)]], OK)
    else (ts, VERSION_MISMATCH)
  }

  /** The insert of a new row stated directly over the tables; the table is created either way. */
  function InsertRowSpec(ts: Tables, table: string, rowKey: string, value: Bytes): (Tables, Status)
  {
    var created := WithTable(ts, table);
    if rowKey in created[table] then (created, VERSION_MISMATCH)
    else (created[table := created[table][rowKey := Row(ToHex(value), 0)]], OK)
  }

  /** What the mutator receives: nothing exactly when the row was not found. */
  function MutatorArg(read: RowRead): (arg: Option<Bytes>)
    ensures arg.None? <==> read.st == NOTFOUND
    ensures arg.Some? ==> arg.value == read.value
  {
    if read.st == NOTFOUND then None else Some(read.value)
  }

  /**
   * A read-modify-write stated directly over the database: the tables after
   * it, the status, the version the write callback receives (the new value's
   * own version on success, else 0) and the value it receives.
   */
  function RmwSpec(ts: Tables, reachable: bool, key: string, mutate: Option<Bytes> -> (Status, Bytes),
                   extractVersion: Bytes -> Option<nat>): (Tables, Status, nat, Bytes)
    requires SplitKey(key).Some?
  {
    var (table, rowKey) := SplitKey(key).value;
    var read := ReadRow(ts, reachable, table, rowKey);
    if read.st != OK && read.st != NOTFOUND then (ts, read.st, 0, [])
    else
      var (mst, writeValue) := mutate(MutatorArg(read));
      if mst != OK then (ts, mst, 0, writeValue)
      else if extractVersion(writeValue).None? then (ts, INVALID_PARAM, 0, [])
      else
        var (ts1, st) := if read.st == OK then WriteRowSpec(ts, table, rowKey, writeValue, read.version)
                         else InsertRowSpec(ts, table, rowKey, writeValue);
        (ts1, st, if st == OK then extractVersion(writeValue).value else 0, [])
  }

  class ConfigStore {
    const client: Client
    const extractVersion: Bytes -> Option<nat>
    var shutdownSignaled: bool
    /** Set once shutdown has let go of the rqlite client. */
    var shutdownCompleted: bool

    constructor(extractVersion: Bytes -> Option<nat>, client: Client)
      ensures this.extractVersion == extractVersion && this.client == client
      ensures !shutdownSignaled && !shutdownCompleted
    {
      this.extractVersion := extractVersion;
      this.client := client;
      shutdownSignaled := false;
      shutdownCompleted := false;
    }

    /** shutdown: signals, then lets go of the client. */
    method Shutdown()
      modifies this
      ensures shutdownSignaled && shutdownCompleted
    {
      shutdownSignaled := true;
      shutdownCompleted := true;
    }

    /** getValueAndVersion: the hex-decoded value column and the version column of the only row. */
    static method GetValueAndVersion(q: QueryResult) returns (value: Bytes, version: nat)
      requires |q.values| == 1 && |q.values[0]| == 3
      ensures value == FromHex(ToStr(q.values[0][1])) && version == ToNumber(q.values[0][2])
    {
      value := Hex2Str(ToStr(q.values[0][1]));
      version := ToNumber(q.values[0][2]);
    }

    /** The select of a key's row, and its result. */
    method ReadRowOf(table: string, rowKey: string) returns (q: QueryResult)
      ensures ToStatus(q) == ReadRow(client.server.tables, client.server.reachable, table, rowKey).st
      ensures ToStatus(q) == OK ==>
                (|q.values| == 1 && |q.values[0]| == 3 &&
                 FromHex(ToStr(q.values[0][1])) == ReadRow(client.server.tables, true, table, rowKey).value &&
                 ToNumber(q.values[0][2]) == ReadRow(client.server.tables, true, table, rowKey).version)
    {
      var res := client.Query([RowSelect(table, rowKey)]);
      q := res.results[0];
    }

    /**
     * getConfig: a failed read passes its status through; with a base
     * version, a value whose version cannot be extracted is BADMSG and one
     * whose version is not above the base is UPTODATE.
     */
    method GetConfig(key: string, baseVersion: Option<nat>) returns (st: Status, value: Bytes)
      requires SplitKey(key).Some? && !shutdownCompleted
      ensures var (table, rowKey) := SplitKey(key).value;
              var read := ReadRow(client.server.tables, client.server.reachable, table, rowKey);
              (read.st != OK ==> st == read.st && value == []) &&
              (read.st == OK && baseVersion.None? ==> st == OK && value == read.value) &&
              (read.st == OK && baseVersion.Some? ==>
                 (extractVersion(read.value).None? ==> st == BADMSG && value == []) &&
                 (extractVersion(read.value).Some? && extractVersion(read.value).value <= baseVersion.value ==>
                    st == UPTODATE && value == []) &&
                 (extractVersion(read.value).Some? && extractVersion(read.value).value > baseVersion.value ==>
                    st == OK && value == read.value))
    {
      var (table, rowKey) := SplitKey(key).value;
      var q := ReadRowOf(table, rowKey);
      var status := ToStatus(q);
      if status != OK {
        return status, [];
      }
      var current, _ := GetValueAndVersion(q);
      if baseVersion.Some? {
        var currentVersion := extractVersion(current);
        if currentVersion.None? {
          return BADMSG, [];
        }
        if currentVersion.value <= baseVersion.value {
          return UPTODATE, [];
        }
      }
      st, value := OK, current;
    }

    /** getLatestConfig: getConfig without a base version. */
    method GetLatestConfig(key: string) returns (st: Status, value: Bytes)
      requires SplitKey(key).Some? && !shutdownCompleted
      ensures var (table, rowKey) := SplitKey(key).value;
              var read := ReadRow(client.server.tables, client.server.reachable, table, rowKey);
              st == read.st && value == read.value
    {
      st, value := GetConfig(key, None);
    }

    /** writeModifiedValue: the update conditional on the row version read. */
    method WriteModifiedValue(key: string, writeValue: Bytes, newVersion: nat, rowVersion: nat)
      returns (st: Status, version: nat)
      requires SplitKey(key).Some?
      modifies client.server
      ensures client.server.reachable == old(client.server.reachable)
      ensures shutdownSignaled ==> st == SHUTDOWN && version == 0 && client.server.tables == old(client.server.tables)
      ensures !shutdownSignaled && old(client.server.reachable) ==>
                var (table, rowKey) := SplitKey(key).value;
                (client.server.tables, st) == WriteRowSpec(old(client.server.tables), table, rowKey, writeValue, rowVersion) &&
                version == (if st == OK then newVersion else 0)
      ensures !shutdownSignaled && !old(client.server.reachable) ==>
                st == Status.FAILED && version == 0 && client.server.tables == old(client.server.tables)
    {
      if shutdownSignaled {
        return SHUTDOWN, 0;
      }
      var (table, rowKey) := SplitKey(key).value;
      var hex := Str2Hex(writeValue);
      ghost var ts := client.server.tables;
      var stmt := Update(table, KEY_COLUMN, VALUE_COLUMN, rowKey, hex, rowVersion + 1, rowVersion);
      var res := client.Execute([stmt], false);
      st := UpdateStatus(res.results[0]);
      version := if st == OK then newVersion else 0;
      if old(client.server.reachable) {
        RunEachOne(ts, stmt);
        if table !in ts {
          assert NoSuchTable(table) != [];
        }
      } else {
        assert res.results[0].error == CONNECTION_ERROR;
      }
    }

    /** writeModifiedValueNew: create the table if needed and insert the row at version 0. */
    method WriteModifiedValueNew(key: string, writeValue: Bytes, newVersion: nat)
      returns (st: Status, version: nat)
      requires SplitKey(key).Some?
      modifies client.server
      ensures client.server.reachable == old(client.server.reachable)
      ensures shutdownSignaled ==> st == SHUTDOWN && version == 0 && client.server.tables == old(client.server.tables)
      ensures !shutdownSignaled && old(client.server.reachable) ==>
                var (table, rowKey) := SplitKey(key).value;
                (client.server.tables, st) == InsertRowSpec(old(client.server.tables), table, rowKey, writeValue) &&
                version == (if st == OK then newVersion else 0)
      ensures !shutdownSignaled && !old(client.server.reachable) ==>
                st == Status.FAILED && version == 0 && client.server.tables == old(client.server.tables)
    {
      if shutdownSignaled {
        return SHUTDOWN, 0;
      }
      var (table, rowKey) := SplitKey(key).value;
      var hex := Str2Hex(writeValue);
      ghost var ts := client.server.tables;
      var res := client.Execute(NewRowStmts(table, rowKey, hex), false);
      st := InsertStatus(res.results);
      version := if st == OK then newVersion else 0;
      if old(client.server.reachable) {
        NewRowRun(ts, table, rowKey, writeValue);
      }
    }

    /**
     * readModifyWriteConfig: after shutdown every call is SHUTDOWN; otherwise
     * the read, the mutator, the version extraction and the write back.
     */
    method ReadModifyWriteConfig(key: string, mutate: Option<Bytes> -> (Status, Bytes))
      returns (st: Status, version: nat, value: Bytes)
      requires SplitKey(key).Some?
      modifies client.server
      ensures client.server.reachable == old(client.server.reachable)
      ensures shutdownSignaled ==>
                st == SHUTDOWN && version == 0 && value == [] && client.server.tables == old(client.server.tables)
      ensures !shutdownSignaled ==>
                (client.server.tables, st, version, value) ==
                RmwSpec(old(client.server.tables), old(client.server.reachable), key, mutate, extractVersion)
    {
      if shutdownSignaled {
        return SHUTDOWN, 0, [];
      }
      var (table, rowKey) := SplitKey(key).value;
      var q := ReadRowOf(table, rowKey);
      var status := ToStatus(q);
      if status != OK && status != NOTFOUND {
        return status, 0, [];
      }
      var current: Option<Bytes> := None;
      var rowVersion := 0;
      if status != NOTFOUND {
        var v, rv := GetValueAndVersion(q);
        current, rowVersion := Some(v), rv;
      }
      var (mutatorSt, writeValue) := mutate(current);
      if mutatorSt != OK {
        return mutatorSt, 0, writeValue;
      }
      var extracted := extractVersion(writeValue);
      if extracted.None? {
        return INVALID_PARAM, 0, [];
      }
      var newVersion := extracted.value;
      if status != NOTFOUND {
        st, version := WriteModifiedValue(key, writeValue, newVersion, rowVersion);
      } else {
        st, version := WriteModifiedValueNew(key, writeValue, newVersion);
      }
      value := [];
    }
  }

  /** The create and the insert, run one by one, have the effect InsertRowSpec states and the status InsertStatus reads. */
  lemma NewRowRun(ts: Tables, table: string, rowKey: string, value: Bytes)
    ensures var r := RunEach(ts, NewRowStmts(table, rowKey, ToHex(value)));
            (r.0, InsertStatus(AsExecResults(r.1))) == InsertRowSpec(ts, table, rowKey, value)
  {
    var stmts := NewRowStmts(table, rowKey, ToHex(value));
    RunEachTwo(ts, stmts[0], stmts[1]);
    if rowKey in WithTable(ts, table)[table] {
      assert ROW_EXISTS_ERROR <= UniqueFailed(table, KEY_COLUMN);
    }
  }

  lemma RunEachOne(ts: Tables, a: Stmt)
    ensures RunEach(ts, [a]) == (Step(ts, a).0, [Step(ts, a).1])
  {
    assert [a][1..] == [];
    var (t1, o) := Step(ts, a);
    assert RunEach(t1, []) == (t1, []);
    assert [o] + [] == [o];
  }

  lemma RunEachTwo(ts: Tables, a: Stmt, b: Stmt)
    ensures var (t1, o1) := Step(ts, a);
            var (t2, o2) := Step(t1, b);
            RunEach(ts, [a, b]) == (t2, [o1, o2])
  {
    assert [a, b][1..] == [b];
    var (t1, o1) := Step(ts, a);
    RunEachOne(t1, b);
    assert [o1] + [Step(t1, b).1] == [o1, Step(t1, b).1];
  }

  /**
   * The row is read back after a successful read-modify-write: the new value,
   * at the next row version (or at version 0 for a new row), and the callback
   * receives the new value's own version.
   */
  lemma RmwReadsBack(ts: Tables, key: string, mutate: Option<Bytes> -> (Status, Bytes),
                     extractVersion: Bytes -> Option<nat>)
    requires SplitKey(key).Some?
    requires RmwSpec(ts, true, key, mutate, extractVersion).1 == OK
    ensures var (table, rowKey) := SplitKey(key).value;
            var read := ReadRow(ts, true, table, rowKey);
            var writeValue := mutate(MutatorArg(read)).1;
            var (ts1, _, version, _) := RmwSpec(ts, true, key, mutate, extractVersion);
            ReadRow(ts1, true, table, rowKey) ==
              RowRead(OK, writeValue, if read.st == OK then read.version + 1 else 0) &&
            extractVersion(writeValue) == Some(version)
  {
    var (table, rowKey) := SplitKey(key).value;
    var read := ReadRow(ts, true, table, rowKey);
    FromHexToHex(mutate(MutatorArg(read)).1);
  }

  /**
   * Nothing is written unless the read found the row or its absence, the
   * mutator succeeded and the new value's version could be extracted.
   */
  lemma RmwWritesOnlyAfterMutation(ts: Tables, reachable: bool, key: string, mutate: Option<Bytes> -> (Status, Bytes),
                                   extractVersion: Bytes -> Option<nat>)
    requires SplitKey(key).Some?
    ensures var (table, rowKey) := SplitKey(key).value;
            var read := ReadRow(ts, reachable, table, rowKey);
            var (mst, writeValue) := mutate(MutatorArg(read));
            var (ts1, st, version, value) := RmwSpec(ts, reachable, key, mutate, extractVersion);
            (ts1 != ts ==> (read.st == OK || read.st == NOTFOUND) && mst == OK && extractVersion(writeValue).Some?) &&
            ((read.st == OK || read.st == NOTFOUND) && mst != OK ==> st == mst && value == writeValue && ts1 == ts) &&
            ((read.st == OK || read.st == NOTFOUND) && mst == OK && extractVersion(writeValue).None? ==>
               st == INVALID_PARAM && ts1 == ts) &&
            (st != OK ==> version == 0)
  {
    var (table, rowKey) := SplitKey(key).value;
    var read := ReadRow(ts, reachable, table, rowKey);
    if read.st == OK || read.st == NOTFOUND {
      var (mst, writeValue) := mutate(MutatorArg(read));
      if mst == OK && extractVersion(writeValue).Some? {
        assert RmwSpec(ts, reachable, key, mutate, extractVersion).2 ==
               (if RmwSpec(ts, reachable, key, mutate, extractVersion).1 == OK then extractVersion(writeValue).value else 0);
      }
    }
  }

  /**
   * The version of the new value is never checked against the current one:
   * with the row unchanged since the read, a mutation whose value carries a
   * smaller version is written all the same.
   */
  lemma NonIncreasingVersionIsWritten(ts: Tables, key: string, mutate: Option<Bytes> -> (Status, Bytes),
                                      extractVersion: Bytes -> Option<nat>)
    requires SplitKey(key).Some?
    requires var (table, rowKey) := SplitKey(key).value;
             var read := ReadRow(ts, true, table, rowKey);
             read.st == OK && mutate(MutatorArg(read)).0 == OK && extractVersion(mutate(MutatorArg(read)).1).Some?
    ensures RmwSpec(ts, true, key, mutate, extractVersion).1 == OK
  {
  }

  /** Of two writers that read the same row version, once the first has succeeded the second gets VERSION_MISMATCH. */
  lemma SecondUpdateMismatches(ts: Tables, table: string, rowKey: string, v1: Bytes, v2: Bytes, rowVersion: nat)
    requires WriteRowSpec(ts, table, rowKey, v1, rowVersion).1 == OK
    ensures var ts1 := WriteRowSpec(ts, table, rowKey, v1, rowVersion).0;
            WriteRowSpec(ts1, table, rowKey, v2, rowVersion) == (ts1, VERSION_MISMATCH)
  {
  }

  /** Of two writers that both found the row missing, once the first has inserted it the second gets VERSION_MISMATCH. */
  lemma SecondInsertMismatches(ts: Tables, table: string, rowKey: string, v1: Bytes, v2: Bytes)
    requires InsertRowSpec(ts, table, rowKey, v1).1 == OK
    ensures var ts1 := InsertRowSpec(ts, table, rowKey, v1).0;
            InsertRowSpec(ts1, table, rowKey, v2) == (ts1, VERSION_MISMATCH)
  {
  }

  /**
   * A row inserted by someone else between the read and the insert: the
   * create succeeds with no error and the insert fails on the unique key. As
   * written the store reports FAILED; corrected it reports VERSION_MISMATCH.
   */
  lemma ConcurrentInsertReportedAsFailed(ts: Tables, table: string, rowKey: string, value: Bytes)
    requires table in ts && rowKey in ts[table]
    ensures var results := AsExecResults(RunEach(ts, NewRowStmts(table, rowKey, ToHex(value))).1);
            |results| == 2 &&
            InsertStatusAsWritten(results) == Status.FAILED &&
            InsertStatus(results) == VERSION_MISMATCH
  {
    var stmts := NewRowStmts(table, rowKey, ToHex(value));
    RunEachTwo(ts, stmts[0], stmts[1]);
    var outs := RunEach(ts, stmts).1;
    assert outs == [Done(0), Failed(UniqueFailed(table, KEY_COLUMN))];
    assert ROW_EXISTS_ERROR <= UniqueFailed(table, KEY_COLUMN);
    assert !(ROW_EXISTS_ERROR <= []);
  }

  /**
   * A request that does not reach the server delivers a single result, so
   * the second result the source reads does not exist; corrected, the
   * status is FAILED.
   */
  lemma ConnectionErrorHasOneResult()
    ensures |ConnectionErrorExec.results| == 1
    ensures InsertStatus(ConnectionErrorExec.results) == Status.FAILED
  {
  }
}
