/** The driver parameters built from the JSON values the front end sends
    (`json_to_sql_param`). */
module Params {
  import opened Wrappers
  import Json
  import Columns

  /** What the boxed `ToSql` value holds. `F64(n)` stands for the binary64
      value `Number::as_f64` gives for `n`; that rounding is not modelled.
      `NullStr` is a typed `NULL` (`Option::<String>::None`). */
  datatype SqlParam = Str(s: string) | I64(i: int) | F64(n: Json.Num) | Bool(b: bool) | NullStr

  function JsonToSqlParam(v: Json.Value): (p: SqlParam)
    ensures p.Str? <==> v.String?
    ensures p.Str? ==> p.s == v.s
    ensures p.I64? <==> v.Number? && Json.AsI64(v.n).Some?
    ensures p.I64? ==> Json.I64Min <= p.i <= Json.I64Max && p.i == v.n.i
    ensures p.F64? <==> v.Number? && Json.AsI64(v.n).None?
    ensures p.F64? ==> p.n == v.n
    ensures p.Bool? <==> v.Bool?
    ensures p.Bool? ==> p.b == v.b
    ensures p.NullStr? <==> v.Null? || v.Array? || v.Object?
  {
    match v
    case String(s) => Str(s)
    case Number(n) =>
      (match Json.AsI64(n)
       case Some(i) => I64(i)
       case None => F64(n))
    case Bool(b) => Bool(b)
    case _ => NullStr
  }

  /** The parameter list: one parameter per value, in order. */
  function ToSqlParams(values: seq<Json.Value>): (ps: seq<SqlParam>)
    ensures |ps| == |values|
    ensures forall k :: 0 <= k < |values| ==> ps[k] == JsonToSqlParam(values[k])
  {
    if |values| == 0 then [] else [JsonToSqlParam(values[0])] + ToSqlParams(values[1..])
  }

  /** A value read from a column and sent back as a parameter keeps its
      kind: integers as `I64` of the same value, bits as `Bool`, text and
      GUIDs as `Str`, and `NULL` as a typed null. */
  lemma ColumnRoundTrip(c: Columns.ColumnData)
    ensures Columns.IntegerOf(c).Some? ==> JsonToSqlParam(Columns.ColumnToJson(c)) == I64(Columns.IntegerOf(c).value)
    ensures Columns.TextOf(c).Some? ==> JsonToSqlParam(Columns.ColumnToJson(c)) == Str(Columns.TextOf(c).value)
    ensures c.Bit? && c.bit.Some? ==> JsonToSqlParam(Columns.ColumnToJson(c)) == Bool(c.bit.value)
    ensures !Columns.HasValue(c) ==> JsonToSqlParam(Columns.ColumnToJson(c)) == NullStr
  {
  }
}
