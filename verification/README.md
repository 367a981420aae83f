# SQL bridge of the project-maker desktop app, modelled in Dafny

The desktop app's Rust side exposes two Tauri commands, `execute_sql` and
`query_sql`, that run a statement against SQL Server through the tiberius
driver. Around the driver calls they do four pure value transformations,
and this project models those and proves properties of them:

- **Placeholder rewrite** (`placeholders.dfy`): the front end writes
  positional `?` placeholders; both commands run `n` passes of
  `replacen('?', "@p{i}", 1)` for `n` parameters, turning them into SQL
  Server's `@p1 … @pn`. `Placeholders.Rewrite` keeps the pass structure;
  `Placeholders.Numbered` is an independent left-to-right reading, and the
  lemmas prove them equal and derive the numbering, the untouched surplus
  `?`s and the survivors' count. A `?` inside a quoted SQL literal is
  rewritten like any other, as in the code. The decimal form of `i` is
  `decimal.dfy`.
- **Column to JSON** (`columns.dfy`, `hex.dfy`, `json.dfy`):
  `column_to_json` maps each driver column value to a `serde_json` value;
  binary data becomes lower-case hex, GUIDs their hyphenated text.
- **JSON to driver parameter** (`params.dfy`): `json_to_sql_param`, applied
  to every parameter in order.
- **Rows to objects** (`rows.dfy`): the `query_sql` loop that keeps the row
  items of the result stream and turns each row into an object from column
  name to converted value, a repeated name keeping the later column.
- **The commands** (`commands.dfy`): `execute_sql` and `query_sql` with the
  connection, the statement execution and the result stream supplied as
  parameters, so that their error paths and results can be stated.

`wrappers.dfy` holds the `Option`/`Result` types used throughout.

## Model

| member | source | states |
|---|---|---|
| Hex.Encode | src-tauri/src/db.rs:29 | `hex::encode` gives two characters per byte, all from `0-9a-f` |
| Hex.EncodeAt | src-tauri/src/db.rs:29 | byte `i` is written at positions `2i` (high nibble) and `2i+1` (low nibble), so bytes keep their order |
| Hex.DecodeEncode | src-tauri/src/db.rs:29 | reading the hex text of a byte string back gives the same bytes, so no information is lost |
| Hex.EncodeDecode | src-tauri/src/db.rs:29 | any text that reads back as bytes is exactly the hex of those bytes: the encoding is onto the well-formed hex strings |
| Hex.EncodeInjective | src-tauri/src/db.rs:29 | different byte strings give different hex |
| Decimal.Show | src-tauri/src/db.rs:70 | the `{}` form of the pass number is a non-empty run of decimal digits without a leading zero |
| Decimal.ParseShow | src-tauri/src/db.rs:70 | the digits of the pass number read back as that number |
| Placeholders.ReplaceFirstAt | src-tauri/src/db.rs:70 | `replacen(c, rep, 1)` replaces exactly the first `c` and keeps the text before and after it |
| Placeholders.ReplaceFirst | src-tauri/src/db.rs:70 | models `replacen(c, rep, 1)`; it has no contract of its own, and its behaviour is stated by `Placeholders.ReplaceFirstAt` and `Placeholders.ReplaceFirstAbsent` |
| Placeholders.ReplaceFirstAbsent | src-tauri/src/db.rs:70 | `replacen` on text without the character leaves it unchanged |
| Placeholders.PlaceholderNoMark | src-tauri/src/db.rs:70 | the inserted name holds no `?`, so a later pass cannot consume it |
| Placeholders.PlaceholderForm | src-tauri/src/db.rs:70 | the inserted name is `@p` followed by decimal digits that read back as the pass number |
| Placeholders.PlaceholderInjective | src-tauri/src/db.rs:70 | different pass numbers insert different names |
| Placeholders.Placeholder | src-tauri/src/db.rs:70 | models `format!("@p{}", i)`; it has no contract of its own, and its behaviour is stated by `Placeholders.PlaceholderNoMark`, `Placeholders.PlaceholderForm` and `Placeholders.PlaceholderInjective` |
| Placeholders.RewriteFrom | src-tauri/src/db.rs:69-71 | models the remaining passes `i..=n` of the loop, each a `replacen` of the first `?`; its behaviour is stated by `Placeholders.RewriteFromNumbered` and `Placeholders.PassStep` |
| Placeholders.Rewrite | src-tauri/src/db.rs:68-71 | models the whole rewrite loop for `n` parameters; its behaviour is stated by `Placeholders.RewriteIsNumbered` and the `Placeholders.Rewrite…` lemmas below |
| Placeholders.PassStep | src-tauri/src/db.rs:69-70 | one more pass replaces the next original `?`, because earlier passes inserted no `?` |
| Placeholders.RewriteFromNumbered | src-tauri/src/db.rs:69-71 | running passes `i..=n` on the text already numbered for `i-1` parameters gives the text numbered for `n` |
| Placeholders.RewriteIsNumbered | src-tauri/src/db.rs:68-71 | the `n` passes equal the left-to-right scan that numbers the first `n` `?`s 1, 2, … and copies everything else |
| Placeholders.RewriteIthMark | src-tauri/src/db.rs:68-71 | for `1 <= i <= n`, the `i`-th `?` from the left becomes `@p<i>`, with the text before and after it rewritten in place |
| Placeholders.RewriteMarkBeyond | src-tauri/src/db.rs:69-70 | a `?` with `n` or more `?`s before it, and all text after it, is left as it was |
| Placeholders.RewriteRemainingMarks | src-tauri/src/db.rs:69-70 | with `k` `?`s and `n` parameters exactly `max(0, k-n)` `?`s remain |
| Placeholders.RewriteNoParams | src-tauri/src/db.rs:68-71 | with no parameters the statement text is unchanged |
| Placeholders.RewriteNoMarks | src-tauri/src/db.rs:68-71 | a statement without `?` is unchanged for any number of parameters |
| Placeholders.NumberedAppend | src-tauri/src/db.rs:68-71 | the rewrite of a concatenation is the rewrite of each part, numbering continuing across the boundary |
| Placeholders.AfterIs | src-tauri/src/db.rs:69-70 | after reading a prefix the next number to hand out has advanced once per `?`, stopping one past `n` |
| Json.AsI64 | src-tauri/src/db.rs:47 | a number yields an `i64` exactly when it is an integer within the signed 64-bit range, and then the same integer |
| Json.FromFloat | src-tauri/src/db.rs:35-36 | `json!` of a float is a number carrying that float when it is finite and `null` otherwise |
| Columns.ColumnToJson | src-tauri/src/db.rs:27-41 | a column never becomes a JSON array or object |
| Columns.NullIffNoValue | src-tauri/src/db.rs:27-41 | the JSON is `null` exactly for SQL `NULL`, for the types not listed, and for non-finite floats |
| Columns.IntegerPreserved | src-tauri/src/db.rs:31-34 | a JSON integer `i` comes exactly from a present `U8`/`I16`/`I32`/`I64` column holding `i` |
| Columns.BoolPreserved | src-tauri/src/db.rs:30 | a JSON boolean `b` comes exactly from a present `Bit` column holding `b` |
| Columns.TextPreserved | src-tauri/src/db.rs:37-38 | a present string column keeps its text; a GUID gives its display text |
| Columns.BinaryAsHex | src-tauri/src/db.rs:29 | a present binary column gives a string of length `2·|b|` over `0-9a-f` that reads back as the same bytes |
| Columns.Hyphenated | src-tauri/src/db.rs:38 | a GUID's text is 36 characters, hyphens at 8, 13, 18 and 23, lower-case hex elsewhere |
| Columns.UuidRoundTrip | src-tauri/src/db.rs:38 | the GUID text reads back as the same sixteen bytes |
| Columns.GuidAsText | src-tauri/src/db.rs:38 | a present GUID column gives a string that reads back as the same GUID |
| Params.JsonToSqlParam | src-tauri/src/db.rs:43-58 | a string parameter exactly for a JSON string, with the same text; `i64` exactly for numbers that fit it, taking precedence over `f64`; `f64` for the other numbers; a boolean for a boolean; a typed `NULL` exactly for `null`, arrays and objects |
| Params.ToSqlParams | src-tauri/src/db.rs:73 | one parameter per JSON value, same length and order |
| Params.ColumnRoundTrip | src-tauri/src/db.rs:27-57 | a value read from a column and sent back as a parameter keeps its kind and value: integers as `i64`, bits as booleans, text and GUIDs as strings, `NULL` as a typed null |
| Rows.InsertColumns | src-tauri/src/db.rs:117-119 | models the `for (name, data) in … zip` loop of `map.insert`; its behaviour is stated by `Rows.InsertColumnsKeys`, `Rows.InsertColumnsKeeps` and `Rows.InsertColumnsLastWins` |
| Rows.InsertColumnsKeys | src-tauri/src/db.rs:115-119 | after the insert loop the object's keys are the earlier keys plus every name the zip reaches |
| Rows.InsertColumnsKeeps | src-tauri/src/db.rs:117-119 | a key none of the zipped names mentions keeps its value |
| Rows.InsertColumnsLastWins | src-tauri/src/db.rs:117-119 | a repeated column name maps to the converted value of its last column |
| Rows.RowToObject | src-tauri/src/db.rs:114-120 | models the object built for one row; its behaviour is stated by `Rows.RowObjectKeys` and `Rows.RowObjectLastWins` |
| Rows.RowObjectKeys | src-tauri/src/db.rs:114-120 | a row's object has exactly the column names the zip of names and values reaches as keys |
| Rows.RowObjectLastWins | src-tauri/src/db.rs:116-120 | each key of a row's object maps to the converted value of the last column with that name |
| Rows.CollectRows | src-tauri/src/db.rs:109-124 | models the `while let` loop pushing onto `rows`; its behaviour is stated by `Rows.CollectRowsAppends` |
| Rows.CollectRowsAppends | src-tauri/src/db.rs:107-124 | the stream loop appends to what it holds one object per row item, in stream order, and nothing for other items |
| Rows.QueryRows | src-tauri/src/db.rs:107-127 | the result array is the objects of the stream's rows, in stream order |
| Rows.QueryRowsShape | src-tauri/src/db.rs:107-127 | the array has as many elements as the stream has rows, the `k`-th being the `k`-th row's object |
| Rows.SkipsMetadata | src-tauri/src/db.rs:113-123 | a non-row item anywhere in the stream does not change the result |
| Rows.QueryRowsAppend | src-tauri/src/db.rs:109-124 | the result for a stream is the result for its first part followed by the result for the rest |
| Commands.Prepare | src-tauri/src/db.rs:68-73 | the driver gets the text with the first `|params|` `?`s numbered left to right and one converted parameter per value in order; `query_sql` repeats the same code at lines 94-99, so both commands prepare alike |
| Commands.FirstOrZero | src-tauri/src/db.rs:81 | the affected-row count is the driver's first count, or 0 when it reports none |
| Commands.ExecuteSql | src-tauri/src/db.rs:61-84 | a connection error or an execution error is returned as the error text; otherwise the first affected-row count, or 0 |
| Commands.QuerySql | src-tauri/src/db.rs:87-128 | succeeds exactly when connecting, querying and reading the whole stream succeed, with an array of the rows' objects in stream order; any error is returned as its text and the rows read so far are dropped |

## Left out

- Connecting (`connect`, `src-tauri/src/db.rs:17-25`), TCP/TLS, and the tiberius `Client` calls: network I/O and a foreign driver. Their outcomes are parameters of `Commands.ExecuteSql` and `Commands.QuerySql`.
- The value of `rows_affected()`: it comes from the driver, so it is a parameter; only the first-or-zero choice is modelled.
- Async/await and the `try_next` stream plumbing: the stream is a given sequence of items, optionally ended by an error.
- `println!` logging.
- Params.JsonToSqlParam: the `Box::new(0i64)` fallback after `as_f64` (`src-tauri/src/db.rs:51-53`) is not modelled, because serde_json's `as_f64` returns a value for every number in its default build, so that branch is never taken.
- Params.JsonToSqlParam: the `f64` a non-`i64` number is rounded to is not computed; the parameter carries the JSON number it stands for.
- Json.FromFloat: floats are bit patterns; their values, and the exact widening of an `F32` column to `f64`, are not modelled. Only finiteness is read, from the exponent field of IEEE 754 binary64.
- Columns.ColumnToJson: the payloads of `Numeric`, `Xml` and the date/time column types are not modelled, because all of them convert to `null`.
- The byte order tiberius uses when it reads a GUID off the wire belongs to the driver; the model starts from the GUID's sixteen bytes.
- serde_json integers are held as `u64` or `i64`; `Json.IntNum` is an unbounded integer, and `Json.AsI64` reads the signed 64-bit range the same way.
- Key order inside a JSON object (serde_json's `Map`) is not modelled: objects are Dafny maps.
- Serialising the results back to the front end, and Tauri's command plumbing.
- `src-tauri/src/lib.rs`: `greet` is a one-line `format!`, and `run` is application and plugin configuration with fixed connection settings.
