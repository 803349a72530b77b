/**
 * The HTTP client of rqlite (RqliteClient.cpp): it serializes SQL statements
 * into the JSON request body, posts them to `/db/execute` or `/db/query`, and
 * decodes the JSON reply into one result per statement. A reply other than
 * HTTP 200 becomes a single result whose error is "connection error". The
 * caller's callback is invoked exactly once either way, which the sequential
 * model shows as the single value each call returns.
 */
module RqliteClient {
  import opened Json
  import opened Wrappers
  import Text
  import RqliteServer

  /** `ExecuteResults::Result`; `last_insert_id` and `time` start at 0 here. */
  datatype ExecResult = ExecResult(error: string, lastInsertId: nat, rowsAffected: nat, time: nat)

  datatype ExecuteResults = ExecuteResults(results: seq<ExecResult>, time: nat)

  /** `QueryResults::Result`. */
  datatype QueryResult = QueryResult(error: string, columns: seq<string>, types: seq<string>,
                                     values: seq<seq<Json>>, time: nat)

  datatype QueryResults = QueryResults(results: seq<QueryResult>, time: nat)

  const CONNECTION_ERROR: string := "connection error"

  const NewExecResult: ExecResult := ExecResult([], 0, 0, 0)

  const NewQueryResult: QueryResult := QueryResult([], [], [], [], 0)

  // ---------------------------------------------------------------------------
  // Request body

  function Quote(s: string): string
  {
    "\"" + s + "\""
  }

  function Quoted(xs: seq<string>): (qs: seq<string>)
    ensures |qs| == |xs|
  {
    seq(|xs|, i requires 0 <= i < |xs| => Quote(xs[i]))
  }

  /** The body `serializeStmts` produces: a JSON array of the statements, quoted but not escaped. */
  function StmtsBody(stmts: seq<string>): string
  {
    "[" + Text.Join(Quoted(stmts), ',') + "]"
  }

  /** serializeStmts. */
  method SerializeStmts(stmts: seq<string>) returns (body: string)
    ensures body == StmtsBody(stmts)
  {
    body := "[";
    var isFirst := true;
    var i := 0;
    while i < |stmts|
      invariant 0 <= i <= |stmts|
      invariant isFirst <==> i == 0
      invariant body == "[" + Text.Join(Quoted(stmts[..i]), ',')
    {
      assert Quoted(stmts[..i + 1]) == Quoted(stmts[..i]) + [Quote(stmts[i])];
      Text.JoinSnoc(Quoted(stmts[..i]), Quote(stmts[i]), ',');
      if !isFirst {
        body := body + ",";
      } else {
        isFirst := false;
      }
      body := body + Quote(stmts[i]);
      i := i + 1;
    }
    assert stmts[..i] == stmts;
    body := body + "]";
  }

  /** Reads a body back as a JSON array of strings without escapes; rqlite's side of the request. */
  function ParseStmts(body: string): Option<seq<string>>
  {
    if |body| < 2 || body[0] != '[' || body[|body| - 1] != ']' then None
    else if |body| == 2 then Some([])
    else ParseItems(body[1..|body| - 1])
  }

  function ParseItems(s: string): Option<seq<string>>
    decreases |s|
  {
    if |s| < 2 || s[0] != '"' || '"' !in s[1..] then None
    else
      var j := 1 + Text.IndexOf(s[1..], '"');
      if j + 1 == |s| then Some([s[1..j]])
      else if s[j + 1] != ',' then None
      else
        match ParseItems(s[j + 2..])
        case None => None
        case Some(rest) => Some([s[1..j]] + rest)
  }

  /** One quoted item, then either the end or a comma and the rest. */
  lemma ParseItemsQuoted(x: string, tail: string)
    requires '"' !in x
    requires tail == [] || tail[0] == ','
    ensures tail == [] ==> ParseItems(Quote(x) + tail) == Some([x])
    ensures tail != [] ==> ParseItems(Quote(x) + tail) ==
                           (match ParseItems(tail[1..]) case None => None case Some(rest) => Some([x] + rest))
  {
    var s := Quote(x) + tail;
    assert s[1..] == x + ['"'] + tail;
    Text.IndexOfAfterFree(x, '"', tail);
    var j := 1 + |x|;
    assert s[1..j] == x;
    if tail != [] {
      assert s[j + 1] == ',';
      assert s[j + 2..] == tail[1..];
    }
  }

  lemma {:induction false} ParseItemsJoin(xs: seq<string>)
    requires |xs| > 0 && Text.NoneContains(xs, '"')
    ensures ParseItems(Text.Join(Quoted(xs), ',')) == Some(xs)
    decreases |xs|
  {
    if |xs| == 1 {
      assert Text.Join(Quoted(xs), ',') == Quote(xs[0]) + [];
      ParseItemsQuoted(xs[0], []);
      assert xs == [xs[0]];
    } else {
      assert Quoted(xs)[1..] == Quoted(xs[1..]);
      var tail := [','] + Text.Join(Quoted(xs[1..]), ',');
      assert Text.Join(Quoted(xs), ',') == Quote(xs[0]) + tail;
      assert tail[1..] == Text.Join(Quoted(xs[1..]), ',');
      ParseItemsJoin(xs[1..]);
      ParseItemsQuoted(xs[0], tail);
      assert [xs[0]] + xs[1..] == xs;
    }
  }

  /** The body carries the statements intact whenever none contains a double quote. */
  lemma ParseSerialized(stmts: seq<string>)
    requires Text.NoneContains(stmts, '"')
    ensures ParseStmts(StmtsBody(stmts)) == Some(stmts)
  {
    var body := StmtsBody(stmts);
    if stmts != [] {
      ParseItemsJoin(stmts);
      assert body[1..|body| - 1] == Text.Join(Quoted(stmts), ',');
    }
  }

  // ---------------------------------------------------------------------------
  // Reply of /db/execute

  /** One key of one result object; an unknown key makes the whole extraction fail. */
  function ExecField(r: ExecResult, m: Member): Option<ExecResult>
  {
    if m.key == "error" then Some(r.(error := ToStr(m.value)))
    else if m.key == "last_insert_id" then Some(r.(lastInsertId := ToNumber(m.value)))
    else if m.key == "rows_affected" then Some(r.(rowsAffected := ToNumber(m.value)))
    else if m.key == "time" then Some(r.(time := ToNumber(m.value)))
    else None
  }

  function DecodeExecFields(fs: seq<Member>, r: ExecResult): Option<ExecResult>
    decreases |fs|
  {
    if fs == [] then Some(r)
    else
      match ExecField(r, fs[0])
      case None => None
      case Some(r1) => DecodeExecFields(fs[1..], r1)
  }

  /** The elements of "results", appended to `acc`; false when one had an unknown key. */
  function DecodeExecElems(es: seq<Json>, acc: seq<ExecResult>): (bool, seq<ExecResult>)
    decreases |es|
  {
    if es == [] then (true, acc)
    else
      match DecodeExecFields(Members(es[0]), NewExecResult)
      case None => (false, acc)
      case Some(r) => DecodeExecElems(es[1..], acc + [r])
  }

  /** The return code and the results `extractExecuteResults` leaves for a reply object's members. */
  function DecodeExecTop(ms: seq<Member>, acc: ExecuteResults): (int, ExecuteResults)
    decreases |ms|
  {
    if ms == [] then (0, acc)
    else if ms[0].key == "time" then DecodeExecTop(ms[1..], acc.(time := ToNumber(ms[0].value)))
    else if ms[0].key == "results" then
      var (ok, rs) := DecodeExecElems(Children(ms[0].value), acc.results);
      if ok then DecodeExecTop(ms[1..], acc.(results := rs)) else (-1, acc.(results := rs))
    else DecodeExecTop(ms[1..], acc)
  }

  /** The inner loop of extractExecuteResults over one result object. */
  method ExtractExecResult(fields: seq<Member>) returns (ok: bool, r: ExecResult)
    ensures ok <==> DecodeExecFields(fields, NewExecResult).Some?
    ensures ok ==> r == DecodeExecFields(fields, NewExecResult).value
  {
    r := NewExecResult;
    var i := 0;
    while i < |fields|
      invariant 0 <= i <= |fields|
      invariant DecodeExecFields(fields[i..], r) == DecodeExecFields(fields, NewExecResult)
    {
      var m := fields[i];
      if m.key == "error" {
        r := r.(error := ToStr(m.value));
      } else if m.key == "last_insert_id" {
        r := r.(lastInsertId := ToNumber(m.value));
      } else if m.key == "rows_affected" {
        r := r.(rowsAffected := ToNumber(m.value));
      } else if m.key == "time" {
        r := r.(time := ToNumber(m.value));
      } else {
        return false, r;
      }
      i := i + 1;
    }
    ok := true;
  }

  /** extractExecuteResults: `results` is both input and output. */
  method ExtractExecuteResults(o: Json, results: ExecuteResults) returns (rc: int, out: ExecuteResults)
    requires o.JObject?
    ensures (rc, out) == DecodeExecTop(o.members, results)
  {
    var ms := o.members;
    out := results;
    var i := 0;
    while i < |ms|
      invariant 0 <= i <= |ms|
      invariant DecodeExecTop(ms[i..], out) == DecodeExecTop(ms, results)
    {
      var m := ms[i];
      if m.key == "time" {
        out := out.(time := ToNumber(m.value));
      } else if m.key == "results" {
        var es := Children(m.value);
        ghost var before := out;
        var j := 0;
        while j < |es|
          invariant 0 <= j <= |es|
          invariant out == before.(results := out.results)
          invariant DecodeExecElems(es[j..], out.results) == DecodeExecElems(es, before.results)
        {
          var ok, r := ExtractExecResult(Members(es[j]));
          if !ok {
            return -1, out;
          }
          out := out.(results := out.results + [r]);
          j := j + 1;
        }
      }
      i := i + 1;
    }
    rc := 0;
  }

  /** What a statement's outcome reads as once it has been through the reply. */
  function AsExecResult(o: RqliteServer.Outcome): ExecResult
  {
    match o
    case Done(n) => ExecResult([], 0, n, 0)
    case Failed(m) => ExecResult(m, 0, 0, 0)
  }

  function AsExecResults(outs: seq<RqliteServer.Outcome>): (rs: seq<ExecResult>)
    ensures |rs| == |outs|
    ensures forall i :: 0 <= i < |outs| ==> rs[i] == AsExecResult(outs[i])
  {
    seq(|outs|, i requires 0 <= i < |outs| => AsExecResult(outs[i]))
  }

  /** One encoded outcome decodes to the result it stands for. */
  lemma DecodeEncodedOutcome(o: RqliteServer.Outcome)
    ensures DecodeExecFields(Members(RqliteServer.EncodeOutcome(o)), NewExecResult) == Some(AsExecResult(o))
  {
    var fs := Members(RqliteServer.EncodeOutcome(o));
    match o
    case Done(n) =>
      var r1 := NewExecResult.(lastInsertId := 0);
      var r2 := r1.(rowsAffected := n);
      assert DecodeExecFields(fs, NewExecResult) == DecodeExecFields(fs[1..], r1);
      assert DecodeExecFields(fs[1..], r1) == DecodeExecFields(fs[2..], r2);
      assert DecodeExecFields(fs[2..], r2) == DecodeExecFields(fs[3..], r2.(time := 0));
      assert fs[3..] == [];
    case Failed(m) =>
      assert fs[1..] == [];
  }

  /** Elements that each decode to a result decode, in order, to all of them. */
  lemma {:induction false} DecodeExecElemsAll(es: seq<Json>, rs: seq<ExecResult>, acc: seq<ExecResult>)
    requires |es| == |rs|
    requires forall i :: 0 <= i < |es| ==> DecodeExecFields(Members(es[i]), NewExecResult) == Some(rs[i])
    ensures DecodeExecElems(es, acc) == (true, acc + rs)
    decreases |es|
  {
    if es == [] {
      assert acc + rs == acc;
    } else {
      DecodeExecElemsAll(es[1..], rs[1..], acc + [rs[0]]);
      assert acc + [rs[0]] + rs[1..] == acc + rs;
    }
  }

  /** Decoding the reply rqlite sends gives back one result per statement, in order. */
  lemma ExecuteReplyRoundTrip(outs: seq<RqliteServer.Outcome>)
    ensures DecodeExecTop(RqliteServer.ExecuteReply(outs).members, ExecuteResults([], 0))
            == (0, ExecuteResults(AsExecResults(outs), 0))
  {
    var ms := RqliteServer.ExecuteReply(outs).members;
    var es := seq(|outs|, i requires 0 <= i < |outs| => RqliteServer.EncodeOutcome(outs[i]));
    forall i | 0 <= i < |es|
      ensures DecodeExecFields(Members(es[i]), NewExecResult) == Some(AsExecResults(outs)[i])
    {
      DecodeEncodedOutcome(outs[i]);
    }
    DecodeExecElemsAll(es, AsExecResults(outs), []);
    assert [] + AsExecResults(outs) == AsExecResults(outs);
    assert Children(ms[0].value) == es;
    var acc := ExecuteResults(AsExecResults(outs), 0);
    assert DecodeExecTop(ms, ExecuteResults([], 0)) == DecodeExecTop(ms[1..], acc);
    assert DecodeExecTop(ms[1..], acc) == DecodeExecTop(ms[2..], acc);
    assert ms[2..] == [];
  }

  /**
   * A result object with an unknown key fails the extraction; the results
   * already pushed are those of the objects before it.
   */
  lemma {:induction false} UnknownKeyFails(es: seq<Json>, acc: seq<ExecResult>, k: nat)
    requires k < |es|
    requires DecodeExecElems(es[..k], acc).0
    requires DecodeExecFields(Members(es[k]), NewExecResult).None?
    ensures DecodeExecElems(es, acc) == (false, DecodeExecElems(es[..k], acc).1)
    decreases k
  {
    if k == 0 {
      assert DecodeExecElems(es, acc) == (false, acc);
    } else {
      var r := DecodeExecFields(Members(es[0]), NewExecResult);
      assert es[..k][0] == es[0];
      assert es[..k][1..] == es[1..][..k - 1];
      assert DecodeExecElems(es[..k], acc) == DecodeExecElems(es[1..][..k - 1], acc + [r.value]);
      UnknownKeyFails(es[1..], acc + [r.value], k - 1);
    }
  }

  // ---------------------------------------------------------------------------
  // Reply of /db/query

  function StringsOf(js: seq<Json>): (ss: seq<string>)
    ensures |ss| == |js|
  {
    seq(|js|, i requires 0 <= i < |js| => ToStr(js[i]))
  }

  function RowsOf(js: seq<Json>): (rows: seq<seq<Json>>)
    ensures |rows| == |js|
  {
    seq(|js|, i requires 0 <= i < |js| => Children(js[i]))
  }

  function QueryField(r: QueryResult, m: Member): Option<QueryResult>
  {
    if m.key == "error" then Some(r.(error := ToStr(m.value)))
    else if m.key == "columns" then Some(r.(columns := StringsOf(Children(m.value))))
    else if m.key == "types" then Some(r.(types := StringsOf(Children(m.value))))
    else if m.key == "values" then Some(r.(values := RowsOf(Children(m.value))))
    else if m.key == "time" then Some(r.(time := ToNumber(m.value)))
    else None
  }

  function DecodeQueryFields(fs: seq<Member>, r: QueryResult): Option<QueryResult>
    decreases |fs|
  {
    if fs == [] then Some(r)
    else
      match QueryField(r, fs[0])
      case None => None
      case Some(r1) => DecodeQueryFields(fs[1..], r1)
  }

  function DecodeQueryElems(es: seq<Json>, acc: seq<QueryResult>): (bool, seq<QueryResult>)
    decreases |es|
  {
    if es == [] then (true, acc)
    else
      match DecodeQueryFields(Members(es[0]), NewQueryResult)
      case None => (false, acc)
      case Some(r) => DecodeQueryElems(es[1..], acc + [r])
  }

  /** The return code and the results `extractQueryResults` leaves for a reply object's members. */
  function DecodeQueryTop(ms: seq<Member>, acc: QueryResults): (int, QueryResults)
    decreases |ms|
  {
    if ms == [] then (0, acc)
    else if ms[0].key == "time" then DecodeQueryTop(ms[1..], acc.(time := ToNumber(ms[0].value)))
    else if ms[0].key == "results" then
      var (ok, rs) := DecodeQueryElems(Children(ms[0].value), acc.results);
      if ok then DecodeQueryTop(ms[1..], acc.(results := rs)) else (-1, acc.(results := rs))
    else DecodeQueryTop(ms[1..], acc)
  }

  /** The loops over "columns" and "types". */
  method CollectStrings(js: seq<Json>) returns (ss: seq<string>)
    ensures ss == StringsOf(js)
  {
    ss := [];
    var i := 0;
    while i < |js|
      invariant 0 <= i <= |js|
      invariant ss == StringsOf(js[..i])
    {
      ss := ss + [ToStr(js[i])];
      i := i + 1;
    }
    assert js[..i] == js;
  }

  /** The nested loops over "values": one row of cells per element. */
  method CollectRows(js: seq<Json>) returns (rows: seq<seq<Json>>)
    ensures rows == RowsOf(js)
  {
    rows := [];
    var i := 0;
    while i < |js|
      invariant 0 <= i <= |js|
      invariant rows == RowsOf(js[..i])
    {
      var cells := Children(js[i]);
      var row := [];
      var j := 0;
      while j < |cells|
        invariant 0 <= j <= |cells|
        invariant row == cells[..j]
      {
        row := row + [cells[j]];
        j := j + 1;
      }
      assert cells[..j] == cells;
      rows := rows + [row];
      i := i + 1;
    }
    assert js[..i] == js;
  }

  method ExtractQueryResult(fields: seq<Member>) returns (ok: bool, r: QueryResult)
    ensures ok <==> DecodeQueryFields(fields, NewQueryResult).Some?
    ensures ok ==> r == DecodeQueryFields(fields, NewQueryResult).value
  {
    r := NewQueryResult;
    var i := 0;
    while i < |fields|
      invariant 0 <= i <= |fields|
      invariant DecodeQueryFields(fields[i..], r) == DecodeQueryFields(fields, NewQueryResult)
    {
      var m := fields[i];
      if m.key == "error" {
        r := r.(error := ToStr(m.value));
      } else if m.key == "columns" {
        var columns := CollectStrings(Children(m.value));
        r := r.(columns := columns);
      } else if m.key == "types" {
        var types := CollectStrings(Children(m.value));
        r := r.(types := types);
      } else if m.key == "values" {
        var values := CollectRows(Children(m.value));
        r := r.(values := values);
      } else if m.key == "time" {
        r := r.(time := ToNumber(m.value));
      } else {
        return false, r;
      }
      i := i + 1;
    }
    ok := true;
  }

  /** extractQueryResults: `results` is both input and output. */
  method ExtractQueryResults(o: Json, results: QueryResults) returns (rc: int, out: QueryResults)
    requires o.JObject?
    ensures (rc, out) == DecodeQueryTop(o.members, results)
  {
    var ms := o.members;
    out := results;
    var i := 0;
    while i < |ms|
      invariant 0 <= i <= |ms|
      invariant DecodeQueryTop(ms[i..], out) == DecodeQueryTop(ms, results)
    {
      var m := ms[i];
      if m.key == "time" {
        out := out.(time := ToNumber(m.value));
      } else if m.key == "results" {
        var es := Children(m.value);
        ghost var before := out;
        var j := 0;
        while j < |es|
          invariant 0 <= j <= |es|
          invariant out == before.(results := out.results)
          invariant DecodeQueryElems(es[j..], out.results) == DecodeQueryElems(es, before.results)
        {
          var ok, r := ExtractQueryResult(Members(es[j]));
          if !ok {
            return -1, out;
          }
          out := out.(results := out.results + [r]);
          j := j + 1;
        }
      }
      i := i + 1;
    }
    rc := 0;
  }

  /** What a select's outcome reads as once it has been through the reply. */
  function AsQueryResult(q: RqliteServer.Select, o: RqliteServer.QueryOutcome): QueryResult
  {
    match o
    case Rows(rows) => QueryResult([], RqliteServer.Columns(q), RqliteServer.Types(q), rows, 0)
    case QueryFailed(m) => QueryResult(m, [], [], [], 0)
  }

  function AsQueryResults(ts: RqliteServer.Tables, qs: seq<RqliteServer.Select>): (rs: seq<QueryResult>)
    ensures |rs| == |qs|
    ensures forall i :: 0 <= i < |qs| ==> rs[i] == AsQueryResult(qs[i], RqliteServer.RunSelect(ts, qs[i]))
  {
    seq(|qs|, i requires 0 <= i < |qs| => AsQueryResult(qs[i], RqliteServer.RunSelect(ts, qs[i])))
  }

  lemma DecodeEncodedSelect(q: RqliteServer.Select, o: RqliteServer.QueryOutcome)
    ensures DecodeQueryFields(Members(RqliteServer.EncodeQueryOutcome(q, o)), NewQueryResult) == Some(AsQueryResult(q, o))
  {
    match o
    case QueryFailed(m) =>
      var fs := Members(RqliteServer.EncodeQueryOutcome(q, o));
      assert fs[1..] == [];
    case Rows(rows) =>
      DecodeEncodedRows(q, rows);
  }

  /** The entry of a select that returned rows: columns, types, the rows when there are any, and the time. */
  lemma DecodeEncodedRows(q: RqliteServer.Select, rows: seq<seq<Json>>)
    ensures DecodeQueryFields(Members(RqliteServer.EncodeQueryOutcome(q, RqliteServer.Rows(rows))), NewQueryResult)
            == Some(AsQueryResult(q, RqliteServer.Rows(rows)))
  {
    var fs := Members(RqliteServer.EncodeQueryOutcome(q, RqliteServer.Rows(rows)));
    var cols := RqliteServer.Columns(q);
    var types := RqliteServer.Types(q);
    assert StringsOf(Children(JArray(RqliteServer.Strings(cols)))) == cols;
    assert StringsOf(Children(JArray(RqliteServer.Strings(types)))) == types;
    var r2 := NewQueryResult.(columns := cols).(types := types);
    assert DecodeQueryFields(fs, NewQueryResult) == DecodeQueryFields(fs[2..], r2);
    if rows == [] {
      assert DecodeQueryFields(fs[2..], r2) == DecodeQueryFields(fs[3..], r2.(time := 0));
      assert fs[3..] == [];
    } else {
      var vs := JArray(seq(|rows|, i requires 0 <= i < |rows| => JArray(rows[i])));
      assert RowsOf(Children(vs)) == rows;
      var r3 := r2.(values := rows);
      assert DecodeQueryFields(fs[2..], r2) == DecodeQueryFields(fs[3..], r3);
      assert DecodeQueryFields(fs[3..], r3) == DecodeQueryFields(fs[4..], r3.(time := 0));
      assert fs[4..] == [];
    }
  }

  lemma {:induction false} DecodeQueryElemsAll(es: seq<Json>, rs: seq<QueryResult>, acc: seq<QueryResult>)
    requires |es| == |rs|
    requires forall i :: 0 <= i < |es| ==> DecodeQueryFields(Members(es[i]), NewQueryResult) == Some(rs[i])
    ensures DecodeQueryElems(es, acc) == (true, acc + rs)
    decreases |es|
  {
    if es == [] {
      assert acc + rs == acc;
    } else {
      DecodeQueryElemsAll(es[1..], rs[1..], acc + [rs[0]]);
      assert acc + [rs[0]] + rs[1..] == acc + rs;
    }
  }

  /** Decoding the reply rqlite sends gives back one result per select, in order. */
  lemma QueryReplyRoundTrip(ts: RqliteServer.Tables, qs: seq<RqliteServer.Select>)
    ensures DecodeQueryTop(RqliteServer.QueryReply(ts, qs).members, QueryResults([], 0))
            == (0, QueryResults(AsQueryResults(ts, qs), 0))
  {
    var ms := RqliteServer.QueryReply(ts, qs).members;
    var es := seq(|qs|, i requires 0 <= i < |qs| => RqliteServer.EncodeQueryOutcome(qs[i], RqliteServer.RunSelect(ts, qs[i])));
    forall i | 0 <= i < |es|
      ensures DecodeQueryFields(Members(es[i]), NewQueryResult) == Some(AsQueryResults(ts, qs)[i])
    {
      DecodeEncodedSelect(qs[i], RqliteServer.RunSelect(ts, qs[i]));
    }
    DecodeQueryElemsAll(es, AsQueryResults(ts, qs), []);
    assert [] + AsQueryResults(ts, qs) == AsQueryResults(ts, qs);
    assert Children(ms[0].value) == es;
    var acc := QueryResults(AsQueryResults(ts, qs), 0);
    assert DecodeQueryTop(ms, QueryResults([], 0)) == DecodeQueryTop(ms[1..], acc);
    assert DecodeQueryTop(ms[1..], acc) == DecodeQueryTop(ms[2..], acc);
    assert ms[2..] == [];
  }

  // ---------------------------------------------------------------------------
  // The client

  function SqlTexts(stmts: seq<RqliteServer.Stmt>): seq<string>
  {
    seq(|stmts|, i requires 0 <= i < |stmts| => RqliteServer.Sql(stmts[i]))
  }

  /** The results a caller receives when the request did not get a 200 reply. */
  const ConnectionErrorExec: ExecuteResults := ExecuteResults([NewExecResult.(error := CONNECTION_ERROR)], 0)

  const ConnectionErrorQuery: QueryResults := QueryResults([NewQueryResult.(error := CONNECTION_ERROR)], 0)

  class Client {
    const server: RqliteServer.Database

    constructor(server: RqliteServer.Database)
      ensures this.server == server
    {
      this.server := server;
    }

    /**
     * execute: the results the callback receives. Statements reach the server
     * only when it is reachable, and then each yields one result.
     */
    method Execute(stmts: seq<RqliteServer.Stmt>, enableTx: bool) returns (res: ExecuteResults)
      modifies server
      ensures server.reachable == old(server.reachable)
      ensures old(server.reachable) ==>
                server.tables == RqliteServer.Run(old(server.tables), stmts, enableTx).0 &&
                res == ExecuteResults(AsExecResults(RqliteServer.Run(old(server.tables), stmts, enableTx).1), 0)
      ensures !old(server.reachable) ==> server.tables == old(server.tables) && res == ConnectionErrorExec
    {
      var status, reply := server.Execute(stmts, enableTx);
      if status == 200 {
        var rc;
        ExecuteReplyRoundTrip(RqliteServer.Run(old(server.tables), stmts, enableTx).1);
        rc, res := ExtractExecuteResults(reply, ExecuteResults([], 0));
      } else {
        res := ConnectionErrorExec;
      }
    }

    /** query: the results the callback receives; a query changes nothing. */
    method Query(qs: seq<RqliteServer.Select>) returns (res: QueryResults)
      ensures server.reachable ==> res == QueryResults(AsQueryResults(server.tables, qs), 0)
      ensures !server.reachable ==> res == ConnectionErrorQuery
    {
      var status, reply := server.Query(qs);
      if status == 200 {
        var rc;
        QueryReplyRoundTrip(server.tables, qs);
        rc, res := ExtractQueryResults(reply, QueryResults([], 0));
      } else {
        res := ConnectionErrorQuery;
      }
    }
  }
}
