/** The part of `serde_json::Value` the SQL bridge produces and consumes.
    A `Num` is either an integer (serde_json keeps these as `u64` or `i64`)
    or a finite binary64 float carried as its bit pattern; the float's value
    is never computed here. */
module Json {
  import opened Wrappers

  const I64Min: int := -0x8000_0000_0000_0000
  const I64Max: int := 0x7FFF_FFFF_FFFF_FFFF

  /** An IEEE 754 binary64 value, as its 64-bit pattern. */
  datatype Float64 = Float64(bits: bv64)

  /** Finite unless the 11-bit exponent field is all ones (infinity or NaN). */
  predicate IsFinite(f: Float64) {
    (f.bits >> 52) & 0x7FF != 0x7FF
  }

  datatype Num = IntNum(i: int) | FloatNum(f: Float64)

  datatype Value =
    | Null
    | Bool(b: bool)
    | Number(n: Num)
    | String(s: string)
    | Array(elems: seq<Value>)
    | Object(fields: map<string, Value>)

  /** `Number::as_i64`: an integer in the signed 64-bit range; a float or an
      integer above `i64::MAX` gives `None`. */
  function AsI64(n: Num): (r: Option<int>)
    ensures r.Some? ==> I64Min <= r.value <= I64Max
    ensures r.Some? <==> n.IntNum? && I64Min <= n.i <= I64Max
    ensures r.Some? ==> r.value == n.i
  {
    match n
    case IntNum(i) => if I64Min <= i <= I64Max then Some(i) else None
    case FloatNum(_) => None
  }

  /** `json!(f)` for a float: a number when finite, `Null` otherwise. */
  function FromFloat(f: Float64): (v: Value)
    ensures v.Null? <==> !IsFinite(f)
    ensures IsFinite(f) ==> v == Number(FloatNum(f))
  {
    if IsFinite(f) then Number(FloatNum(f)) else Null
  }
}
