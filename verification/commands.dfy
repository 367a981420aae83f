/** The two Tauri commands, `execute_sql` and `query_sql`. Connecting,
    running the statement and reading the result stream belong to the
    driver, so they come in as parameters: `connect` is the connection
    outcome (`None` when it succeeded, else the error text), and
    `execute`/`query` give the driver's answer for the prepared statement. */
module Commands {
  import opened Wrappers
  import Json
  import Placeholders
  import Params
  import Rows

  /** The statement text and parameters handed to the driver. */
  datatype Prepared = Prepared(sql: string, params: seq<Params.SqlParam>)

  /** What the driver's stream yields: the items read, then either the end
      (`None`) or the error text that stopped it. */
  datatype Stream = Stream(items: seq<Rows.QueryItem>, failure: Option<string>)

  /** The preparation both commands do alike: the placeholder rewrite for as
      many passes as there are parameters, and one driver parameter per JSON
      value. */
  function Prepare(sql: string, params: seq<Json.Value>): (p: Prepared)
    ensures p.sql == Placeholders.Numbered(sql, 1, |params|)
    ensures |p.params| == |params|
    ensures forall k :: 0 <= k < |params| ==> p.params[k] == Params.JsonToSqlParam(params[k])
  {
    Placeholders.RewriteIsNumbered(sql, |params|);
    Prepared(Placeholders.Rewrite(sql, |params|), Params.ToSqlParams(params))
  }

  /** `rows_affected().first().cloned().unwrap_or(0)`. */
  function FirstOrZero(counts: seq<nat>): (n: nat)
    ensures |counts| > 0 ==> n == counts[0]
    ensures |counts| == 0 ==> n == 0
  {
    if |counts| > 0 then counts[0] else 0
  }

  function ExecuteSql(sql: string, params: seq<Json.Value>, connect: Option<string>,
                      execute: Prepared -> Result<seq<nat>, string>): (r: Result<nat, string>)
    ensures connect.Some? ==> r == Failure(connect.value)
    ensures connect.None? && execute(Prepare(sql, params)).Failure? ==> r == Failure(execute(Prepare(sql, params)).error)
    ensures connect.None? && execute(Prepare(sql, params)).Success? ==>
      r == Success(FirstOrZero(execute(Prepare(sql, params)).value))
  {
    if connect.Some? then Failure(connect.value)
    else
      match execute(Prepare(sql, params))
      case Failure(e) => Failure(e)
      case Success(counts) => Success(FirstOrZero(counts))
  }

  function QuerySql(sql: string, params: seq<Json.Value>, connect: Option<string>,
                    query: Prepared -> Result<Stream, string>): (r: Result<Json.Value, string>)
    ensures connect.Some? ==> r == Failure(connect.value)
    ensures connect.None? && query(Prepare(sql, params)).Failure? ==> r == Failure(query(Prepare(sql, params)).error)
    ensures connect.None? && query(Prepare(sql, params)).Success? && query(Prepare(sql, params)).value.failure.Some? ==>
      r == Failure(query(Prepare(sql, params)).value.failure.value)
    ensures r.Success? <==> connect.None? && query(Prepare(sql, params)).Success? && query(Prepare(sql, params)).value.failure.None?
    ensures r.Success? ==> r.value == Json.Array(Rows.Objects(Rows.RowsOf(query(Prepare(sql, params)).value.items)))
  {
    if connect.Some? then Failure(connect.value)
    else
      match query(Prepare(sql, params))
      case Failure(e) => Failure(e)
      case Success(stream) =>
        if stream.failure.Some? then Failure(stream.failure.value)
        else
          Success(Json.Array(Rows.QueryRows(stream.items)))
  }
}
