/**
 * The rqlite database both rqlite-backed stores talk to over HTTP, reduced to
 * what they rely on. Every table the stores create has three columns: a text
 * key (`logid` or `key`), a text value (the hex-encoded payload) and an
 * integer `version`. A table is therefore a map from key to (value, version).
 *
 * The SQL statements are kept as structured values. `Sql` renders each one as
 * the text the stores format. Executing them is the SQLite behaviour the
 * stores rely on:
 *   - `create table if not exists` is a no-op on an existing table;
 *   - `insert` fails with "UNIQUE constraint failed" on a duplicate key;
 *   - `update ... where version = v` touches 0 or 1 rows;
 *   - a statement on a missing table fails with "no such table".
 * A transactional request stops at the first failing statement and rolls
 * back everything before it.
 */
module RqliteServer {
  import opened Json
  import Text

  datatype Row = Row(value: string, version: nat)

  type Table = map<string, Row>

  type Tables = map<string, Table>

  /** The statements the stores send to `/db/execute`. */
  datatype Stmt =
    | CreateTable(table: string, keyColumn: string, uniqueKey: bool, valueColumn: string)
    | Insert(table: string, keyColumn: string, valueColumn: string, key: string, value: string, version: nat)
    | Update(table: string, keyColumn: string, valueColumn: string, key: string, value: string,
             newVersion: nat, expected: nat)

  /** A `select [key,] value, version from table where key = ...` sent to `/db/query`. */
  datatype Select = Select(table: string, keyColumn: string, valueColumn: string, withKey: bool, key: string)

  /** The outcome of one executed statement. */
  datatype Outcome = Done(rowsAffected: nat) | Failed(message: string)

  /** The outcome of one select: its rows (each a list of cells), or an error. */
  datatype QueryOutcome = Rows(rows: seq<seq<Json>>) | QueryFailed(message: string)

  /** The SQL text of a statement, as the stores format it. */
  function Sql(s: Stmt): string
  {
    match s
    case CreateTable(t, k, u, c) =>
      "create table if not exists " + t + "(" + k + " text " + (if u then "unique " else "") +
      "primary key, " + c + " text, version integer) strict"
    case Insert(t, k, c, key, v, ver) =>
      "insert into " + t + " (" + k + ", " + c + ", version) values ('" + key + "', '" + v + "', " +
      Text.Decimal(ver) + ") "
    case Update(t, k, c, key, v, nv, ev) =>
      "update " + t + " set " + c + " = '" + v + "', version = " + Text.Decimal(nv) +
      " where " + k + " = '" + key + "' and version = " + Text.Decimal(ev)
  }

  function SelectSql(q: Select): string
  {
    "select " + (if q.withKey then q.keyColumn + ", " else "") + q.valueColumn +
    ", version from " + q.table + " where " + q.keyColumn + " = '" + q.key + "'"
  }

  function NoSuchTable(table: string): string
  {
    "no such table: " + table
  }

  function UniqueFailed(table: string, keyColumn: string): string
  {
    "UNIQUE constraint failed: " + table + "." + keyColumn
  }

  /** The tables with `t` created empty if it is missing (`CREATE TABLE IF NOT EXISTS`). */
  function WithTable(ts: Tables, t: string): (r: Tables)
    ensures t in r && r.Keys == ts.Keys + {t}
    ensures forall u :: u in ts ==> r[u] == ts[u]
  {
    if t in ts then ts else ts[t := map[]]
  }

  /** One statement applied to the tables. */
  function Step(ts: Tables, s: Stmt): (Tables, Outcome)
  {
    match s
    case CreateTable(t, _, _, _) =>
      (WithTable(ts, t), Done(0))
    case Insert(t, k, _, key, v, ver) =>
      if t !in ts then (ts, Failed(NoSuchTable(t)))
      else if key in ts[t] then (ts, Failed(UniqueFailed(t, k)))
      else (ts[t := ts[t][key := Row(v, ver)]], Done(1))
    case Update(t, _, _, key, v, nv, ev) =>
      if t !in ts then (ts, Failed(NoSuchTable(t)))
      else if key in ts[t] && ts[t][key].version == ev then (ts[t := ts[t][key := Row(v, nv)]], Done(1))
      else (ts, Done(0))
  }

  /** Statements run one after another, each whatever the others did. */
  function RunEach(ts: Tables, stmts: seq<Stmt>): (r: (Tables, seq<Outcome>))
    ensures |r.1| == |stmts|
    decreases |stmts|
  {
    if stmts == [] then (ts, [])
    else
      var (t1, o) := Step(ts, stmts[0]);
      var (t2, os) := RunEach(t1, stmts[1..]);
      (t2, [o] + os)
  }

  /** Statements run until the first failure, which ends the run. */
  function RunUntilFailure(ts: Tables, stmts: seq<Stmt>): (r: (Tables, seq<Outcome>))
    ensures |r.1| <= |stmts|
    decreases |stmts|
  {
    if stmts == [] then (ts, [])
    else
      var (t1, o) := Step(ts, stmts[0]);
      if o.Failed? then (t1, [o])
      else
        var (t2, os) := RunUntilFailure(t1, stmts[1..]);
        (t2, [o] + os)
  }

  predicate AnyFailed(outs: seq<Outcome>)
  {
    exists i :: 0 <= i < |outs| && outs[i].Failed?
  }

  /** A request: with `?transaction` a failure rolls the whole request back. */
  function Run(ts: Tables, stmts: seq<Stmt>, tx: bool): (Tables, seq<Outcome>)
  {
    if tx then
      var (t1, outs) := RunUntilFailure(ts, stmts);
      (if AnyFailed(outs) then ts else t1, outs)
    else RunEach(ts, stmts)
  }

  /** The rows a select returns: none, or the one row with the key. */
  function RunSelect(ts: Tables, q: Select): QueryOutcome
  {
    if q.table !in ts then QueryFailed(NoSuchTable(q.table))
    else if q.key in ts[q.table] then
      var row := ts[q.table][q.key];
      Rows([(if q.withKey then [JString(q.key)] else []) + [JString(row.value), JNumber(row.version)]])
    else Rows([])
  }

  function EncodeOutcome(o: Outcome): Json
  {
    match o
    case Done(n) =>
      JObject([Member("last_insert_id", JNumber(0)), Member("rows_affected", JNumber(n)), Member("time", JNumber(0))])
    case Failed(m) => JObject([Member("error", JString(m))])
  }

  /** The JSON body of a `/db/execute` reply. */
  function ExecuteReply(outs: seq<Outcome>): Json
  {
    JObject([Member("results", JArray(seq(|outs|, i requires 0 <= i < |outs| => EncodeOutcome(outs[i])))),
             Member("time", JNumber(0))])
  }

  function Columns(q: Select): seq<string>
  {
    (if q.withKey then [q.keyColumn] else []) + [q.valueColumn, "version"]
  }

  function Types(q: Select): seq<string>
  {
    (if q.withKey then ["text"] else []) + ["text", "integer"]
  }

  function Strings(ss: seq<string>): seq<Json>
  {
    seq(|ss|, i requires 0 <= i < |ss| => JString(ss[i]))
  }

  /** One select's entry in a `/db/query` reply; rqlite leaves out "values" when there is no row. */
  function EncodeQueryOutcome(q: Select, o: QueryOutcome): Json
  {
    match o
    case QueryFailed(m) => JObject([Member("error", JString(m))])
    case Rows(rows) =>
      JObject([Member("columns", JArray(Strings(Columns(q)))), Member("types", JArray(Strings(Types(q))))] +
              (if rows == [] then []
               else [Member("values", JArray(seq(|rows|, i requires 0 <= i < |rows| => JArray(rows[i]))))]) +
              [Member("time", JNumber(0))])
  }

  /** The JSON body of a `/db/query` reply. */
  function QueryReply(ts: Tables, qs: seq<Select>): Json
  {
    JObject([Member("results", JArray(seq(|qs|, i requires 0 <= i < |qs| => EncodeQueryOutcome(qs[i], RunSelect(ts, qs[i]))))),
             Member("time", JNumber(0))])
  }

  /** The HTTP status of a request the server could not be reached for. */
  const UNAVAILABLE: int := 503

  /** The rqlite cluster behind the HTTP endpoint; `reachable` is whether requests get through. */
  class Database {
    var tables: Tables
    var reachable: bool

    constructor(reachable: bool)
      ensures tables == map[] && this.reachable == reachable
    {
      tables := map[];
      this.reachable := reachable;
    }

    /** POST /db/execute. */
    method Execute(stmts: seq<Stmt>, tx: bool) returns (status: int, reply: Json)
      modifies this
      ensures reachable == old(reachable)
      ensures old(reachable) ==> status == 200 && tables == Run(old(tables), stmts, tx).0 &&
                                 reply == ExecuteReply(Run(old(tables), stmts, tx).1)
      ensures !old(reachable) ==> status == UNAVAILABLE && tables == old(tables)
    {
      if reachable {
        var r := Run(tables, stmts, tx);
        tables := r.0;
        status, reply := 200, ExecuteReply(r.1);
      } else {
        status, reply := UNAVAILABLE, JNull;
      }
    }

    /** POST /db/query. */
    method Query(qs: seq<Select>) returns (status: int, reply: Json)
      ensures reachable ==> status == 200 && reply == QueryReply(tables, qs)
      ensures !reachable ==> status == UNAVAILABLE
    {
      if reachable {
        status, reply := 200, QueryReply(tables, qs);
      } else {
        status, reply := UNAVAILABLE, JNull;
      }
    }
  }
}
