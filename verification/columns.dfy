/** One column value as the tiberius driver hands it over, and its
    conversion to JSON (`column_to_json`). Each typed variant carries an
    `Option`: `None` is SQL `NULL`. */
module Columns {
  import opened Wrappers
  import Hex
  import Json

  type byte = Hex.byte
  type i16 = x: int | -0x8000 <= x <= 0x7FFF
  type i32 = x: int | -0x8000_0000 <= x <= 0x7FFF_FFFF
  type i64 = x: int | Json.I64Min <= x <= Json.I64Max

  /** A GUID: sixteen bytes. */
  type Uuid = b: seq<byte> | |b| == 16 witness seq(16, _ => 0)

  /** Driver column types the conversion does not single out. */
  datatype OtherType = Numeric | Xml | DateTime | SmallDateTime | Time | Date | DateTime2 | DateTimeOffset

  datatype ColumnData =
    | U8(tinyint: Option<byte>)
    | I16(smallint: Option<i16>)
    | I32(integer: Option<i32>)
    | I64(bigint: Option<i64>)
    | F32(single: Option<Json.Float64>)  // the f32, widened exactly to binary64
    | F64(double: Option<Json.Float64>)
    | Bit(bit: Option<bool>)
    | String(text: Option<string>)
    | Guid(guid: Option<Uuid>)
    | Binary(bytes: Option<seq<byte>>)
    | Other(ty: OtherType)

  /** The integer a `U8`/`I16`/`I32`/`I64` column holds, if any. */
  function IntegerOf(c: ColumnData): Option<int>
  {
    match c
    case U8(Some(i)) => Some(i)
    case I16(Some(i)) => Some(i)
    case I32(Some(i)) => Some(i)
    case I64(Some(i)) => Some(i)
    case _ => None
  }

  /** The text a `String` or `Guid` column holds, if any. */
  function TextOf(c: ColumnData): Option<string>
  {
    match c
    case String(Some(s)) => Some(s)
    case Guid(Some(g)) => Some(Hyphenated(g))
    case _ => None
  }

  /** The `uuid` crate's display form: 32 lower-case hex digits in groups of
      8-4-4-4-12, bytes in order. */
  function Hyphenated(g: Uuid): (s: string)
    ensures |s| == 36
    ensures s[8] == '-' && s[13] == '-' && s[18] == '-' && s[23] == '-'
    ensures forall j :: 0 <= j < 36 && j != 8 && j != 13 && j != 18 && j != 23 ==> Hex.IsLowerHex(s[j])
  {
    Hex.Encode(g[..4]) + "-" + Hex.Encode(g[4..6]) + "-" + Hex.Encode(g[6..8]) + "-"
      + Hex.Encode(g[8..10]) + "-" + Hex.Encode(g[10..])
  }

  /** The hex digits of a display form, hyphens removed. */
  function Digits(s: string): string
    requires |s| == 36
  {
    s[..8] + s[9..13] + s[14..18] + s[19..23] + s[24..]
  }

  /** Reads the display form back. */
  function ParseUuid(s: string): Option<Uuid>
  {
    if |s| == 36 && s[8] == '-' && s[13] == '-' && s[18] == '-' && s[23] == '-' then
      match Hex.Decode(Digits(s))
      case Some(b) => Some(b)
      case None => None
    else None
  }

  lemma DigitsOfJoin(a: string, b: string, c: string, d: string, e: string)
    requires |a| == 8 && |b| == 4 && |c| == 4 && |d| == 4 && |e| == 12
    ensures Digits(a + "-" + b + "-" + c + "-" + d + "-" + e) == a + b + c + d + e
  {
  }

  lemma EncodeGroups(g: Uuid)
    ensures Hex.Encode(g) == Hex.Encode(g[..4]) + Hex.Encode(g[4..6]) + Hex.Encode(g[6..8])
      + Hex.Encode(g[8..10]) + Hex.Encode(g[10..])
  {
    Hex.EncodeAppend(g[..4], g[4..6]);
    assert g[..4] + g[4..6] == g[..6];
    Hex.EncodeAppend(g[..6], g[6..8]);
    assert g[..6] + g[6..8] == g[..8];
    Hex.EncodeAppend(g[..8], g[8..10]);
    assert g[..8] + g[8..10] == g[..10];
    Hex.EncodeAppend(g[..10], g[10..]);
    assert g[..10] + g[10..] == g;
  }

  lemma UuidRoundTrip(g: Uuid)
    ensures ParseUuid(Hyphenated(g)) == Some(g)
  {
    DigitsOfJoin(Hex.Encode(g[..4]), Hex.Encode(g[4..6]), Hex.Encode(g[6..8]), Hex.Encode(g[8..10]), Hex.Encode(g[10..]));
    EncodeGroups(g);
    Hex.DecodeEncode(g);
  }

  /** `column_to_json`. Floats that are not finite become `Null`, as
      serde_json's `json!` does. */
  function ColumnToJson(c: ColumnData): (v: Json.Value)
    ensures !v.Array? && !v.Object?
  {
    match c
    case Binary(Some(b)) => Json.String(Hex.Encode(b))
    case Bit(Some(b)) => Json.Bool(b)
    case U8(Some(i)) => Json.Number(Json.IntNum(i))
    case I16(Some(i)) => Json.Number(Json.IntNum(i))
    case I32(Some(i)) => Json.Number(Json.IntNum(i))
    case I64(Some(i)) => Json.Number(Json.IntNum(i))
    case F32(Some(f)) => Json.FromFloat(f)
    case F64(Some(f)) => Json.FromFloat(f)
    case String(Some(s)) => Json.String(s)
    case Guid(Some(g)) => Json.String(Hyphenated(g))
    case _ => Json.Null
  }

  /** Whether the column carries a value JSON can represent: a present payload
      of a listed type, and for floats a finite one. */
  predicate HasValue(c: ColumnData)
  {
    match c
    case U8(o) => o.Some?
    case I16(o) => o.Some?
    case I32(o) => o.Some?
    case I64(o) => o.Some?
    case F32(o) => o.Some? && Json.IsFinite(o.value)
    case F64(o) => o.Some? && Json.IsFinite(o.value)
    case Bit(o) => o.Some?
    case String(o) => o.Some?
    case Guid(o) => o.Some?
    case Binary(o) => o.Some?
    case Other(_) => false
  }

  /** SQL `NULL`, the unlisted types and non-finite floats, and nothing else,
      give JSON `null`. */
  lemma NullIffNoValue(c: ColumnData)
    ensures ColumnToJson(c).Null? <==> !HasValue(c)
  {
  }

  /** Integer columns give a JSON integer of the same value, and no other
      column gives a JSON integer. */
  lemma IntegerPreserved(c: ColumnData, i: int)
    ensures ColumnToJson(c) == Json.Number(Json.IntNum(i)) <==> IntegerOf(c) == Some(i)
  {
  }

  /** Only a present `Bit` gives a JSON boolean, the same one. */
  lemma BoolPreserved(c: ColumnData, b: bool)
    ensures ColumnToJson(c) == Json.Bool(b) <==> c == Bit(Some(b))
  {
  }

  /** Text columns keep their text; a GUID gives its display form. */
  lemma TextPreserved(c: ColumnData)
    requires TextOf(c).Some?
    ensures ColumnToJson(c) == Json.String(TextOf(c).value)
  {
  }

  /** A present `Binary` column gives lower-case hex: two digits per byte,
      high nibble first, from which the bytes can be read back. */
  lemma BinaryAsHex(b: seq<byte>)
    ensures ColumnToJson(Binary(Some(b))).String?
    ensures |ColumnToJson(Binary(Some(b))).s| == 2 * |b|
    ensures forall j :: 0 <= j < 2 * |b| ==> Hex.IsLowerHex(ColumnToJson(Binary(Some(b))).s[j])
    ensures Hex.Decode(ColumnToJson(Binary(Some(b))).s) == Some(b)
  {
    Hex.DecodeEncode(b);
  }

  /** A present `Guid` column gives a string that reads back as the same GUID. */
  lemma GuidAsText(g: Uuid)
    ensures ColumnToJson(Guid(Some(g))).String?
    ensures ParseUuid(ColumnToJson(Guid(Some(g))).s) == Some(g)
  {
    UuidRoundTrip(g);
  }
}
