/** Turning the driver's result stream into the JSON array `query_sql`
    returns: every row becomes an object from column name to converted
    value, every other stream item is skipped. */
module Rows {
  import Json
  import Columns

  datatype Row = Row(names: seq<string>, data: seq<Columns.ColumnData>)

  /** An item of the driver's result stream. */
  datatype QueryItem = RowItem(row: Row) | Metadata(columns: seq<string>)

  function Min(a: nat, b: nat): nat {
    if a <= b then a else b
  }

  /** The names the zip of `names` and `data` reaches. */
  function Zipped(names: seq<string>, data: seq<Columns.ColumnData>): seq<string>
  {
    names[..Min(|names|, |data|)]
  }

  /** Whether `j` is the last position of `names[j]` among the zipped names. */
  predicate IsLast(names: seq<string>, z: nat, j: nat)
    requires j < z <= |names|
  {
    forall j' :: j < j' < z ==> names[j'] != names[j]
  }

  /** The loop over `names.zip(data)` that inserts each converted value into
      `m`; a later insert of the same name overwrites an earlier one. */
  function InsertColumns(m: map<string, Json.Value>, names: seq<string>, data: seq<Columns.ColumnData>): map<string, Json.Value>
    decreases |names|
  {
    if |names| == 0 || |data| == 0 then m
    else InsertColumns(m[names[0] := Columns.ColumnToJson(data[0])], names[1..], data[1..])
  }

  /** The keys after the loop: those of `m` and every zipped name. */
  lemma {:induction false} InsertColumnsKeys(m: map<string, Json.Value>, names: seq<string>, data: seq<Columns.ColumnData>)
    ensures InsertColumns(m, names, data).Keys == m.Keys + set k | k in Zipped(names, data)
    decreases |names|
  {
    if |names| > 0 && |data| > 0 {
      InsertColumnsKeys(m[names[0] := Columns.ColumnToJson(data[0])], names[1..], data[1..]);
      assert Zipped(names, data) == [names[0]] + Zipped(names[1..], data[1..]);
    }
  }

  /** Keys of `m` that no zipped name mentions keep their value. */
  lemma {:induction false} InsertColumnsKeeps(m: map<string, Json.Value>, names: seq<string>, data: seq<Columns.ColumnData>, k: string)
    requires k in m && k !in Zipped(names, data)
    ensures k in InsertColumns(m, names, data) && InsertColumns(m, names, data)[k] == m[k]
    decreases |names|
  {
    if |names| > 0 && |data| > 0 {
      assert Zipped(names, data) == [names[0]] + Zipped(names[1..], data[1..]);
      InsertColumnsKeeps(m[names[0] := Columns.ColumnToJson(data[0])], names[1..], data[1..], k);
    }
  }

  /** A zipped name maps to the converted value of its last position. */
  lemma {:induction false} InsertColumnsLastWins(m: map<string, Json.Value>, names: seq<string>, data: seq<Columns.ColumnData>, j: nat)
    requires j < Min(|names|, |data|)
    requires IsLast(names, Min(|names|, |data|), j)
    ensures names[j] in InsertColumns(m, names, data)
    ensures InsertColumns(m, names, data)[names[j]] == Columns.ColumnToJson(data[j])
    decreases |names|
  {
    var m' := m[names[0] := Columns.ColumnToJson(data[0])];
    var z := Min(|names|, |data|);
    if j == 0 {
      assert names[0] !in Zipped(names[1..], data[1..]) by {
        assert forall i :: 0 <= i < z - 1 ==> names[1..][i] == names[i + 1] != names[0];
      }
      InsertColumnsKeeps(m', names[1..], data[1..], names[0]);
    } else {
      assert IsLast(names[1..], z - 1, j - 1) by {
        assert forall i :: j - 1 < i < z - 1 ==> names[1..][i] == names[i + 1];
      }
      InsertColumnsLastWins(m', names[1..], data[1..], j - 1);
    }
  }

  /** The object one row becomes. */
  function RowToObject(row: Row): map<string, Json.Value>
  {
    InsertColumns(map[], row.names, row.data)
  }

  /** The object of a row has exactly the zipped column names as keys. */
  lemma RowObjectKeys(row: Row)
    ensures RowToObject(row).Keys == set k | k in Zipped(row.names, row.data)
  {
    InsertColumnsKeys(map[], row.names, row.data);
  }

  /** Each key maps to the converted value of the last column with that
      name. */
  lemma RowObjectLastWins(row: Row, j: nat)
    requires j < Min(|row.names|, |row.data|)
    requires IsLast(row.names, Min(|row.names|, |row.data|), j)
    ensures row.names[j] in RowToObject(row)
    ensures RowToObject(row)[row.names[j]] == Columns.ColumnToJson(row.data[j])
  {
    InsertColumnsLastWins(map[], row.names, row.data, j);
  }

  /** Reference: the rows of the stream, in stream order. */
  function RowsOf(items: seq<QueryItem>): (rs: seq<Row>)
    ensures |rs| <= |items|
  {
    if |items| == 0 then []
    else (if items[0].RowItem? then [items[0].row] else []) + RowsOf(items[1..])
  }

  /** Reference: one object per row, in order. */
  function Objects(rows: seq<Row>): seq<Json.Value>
  {
    if |rows| == 0 then [] else [Json.Object(RowToObject(rows[0]))] + Objects(rows[1..])
  }

  lemma {:induction false} ObjectsIndex(rows: seq<Row>)
    ensures |Objects(rows)| == |rows|
    ensures forall k :: 0 <= k < |rows| ==> Objects(rows)[k] == Json.Object(RowToObject(rows[k]))
  {
    if |rows| > 0 {
      ObjectsIndex(rows[1..]);
    }
  }

  /** The `while let` loop over the stream, pushing onto `acc`. */
  function CollectRows(items: seq<QueryItem>, acc: seq<Json.Value>): seq<Json.Value>
  {
    if |items| == 0 then acc
    else if items[0].RowItem? then CollectRows(items[1..], acc + [Json.Object(RowToObject(items[0].row))])
    else CollectRows(items[1..], acc)
  }

  /** The loop appends one object per row item to what it already holds. */
  lemma {:induction false} CollectRowsAppends(items: seq<QueryItem>, acc: seq<Json.Value>)
    ensures CollectRows(items, acc) == acc + Objects(RowsOf(items))
  {
    if |items| == 0 {
      assert acc + [] == acc;
    } else {
      CollectRowsAppends(items[1..], if items[0].RowItem? then acc + [Json.Object(RowToObject(items[0].row))] else acc);
      if items[0].RowItem? {
        var rs := RowsOf(items[1..]);
        assert RowsOf(items) == [items[0].row] + rs;
        var o := Json.Object(RowToObject(items[0].row));
        assert Objects([items[0].row] + rs) == [o] + Objects(rs) by {
          assert ([items[0].row] + rs)[1..] == rs;
        }
        assert (acc + [o]) + Objects(rs) == acc + ([o] + Objects(rs));
      } else {
        assert RowsOf(items) == [] + RowsOf(items[1..]);
        assert [] + RowsOf(items[1..]) == RowsOf(items[1..]);
      }
    }
  }

  /** The rows array of a whole stream: one object per row item, in stream
      order, nothing for other items. */
  function QueryRows(items: seq<QueryItem>): (vals: seq<Json.Value>)
    ensures vals == Objects(RowsOf(items))
  {
    CollectRowsAppends(items, []);
    CollectRows(items, [])
  }

  lemma {:induction false} RowsOfAppend(a: seq<QueryItem>, b: seq<QueryItem>)
    ensures RowsOf(a + b) == RowsOf(a) + RowsOf(b)
  {
    if |a| == 0 {
      assert a + b == b;
    } else {
      var head := if a[0].RowItem? then [a[0].row] else [];
      assert (a + b)[0] == a[0];
      assert (a + b)[1..] == a[1..] + b;
      calc {
        RowsOf(a + b);
        head + RowsOf(a[1..] + b);
        { RowsOfAppend(a[1..], b); }
        head + (RowsOf(a[1..]) + RowsOf(b));
        (head + RowsOf(a[1..])) + RowsOf(b);
        RowsOf(a) + RowsOf(b);
      }
    }
  }

  /** Stream items other than rows leave the result unchanged wherever they
      occur. */
  lemma SkipsMetadata(a: seq<QueryItem>, b: seq<QueryItem>, cols: seq<string>)
    ensures QueryRows(a + [Metadata(cols)] + b) == QueryRows(a + b)
  {
    RowsOfAppend(a + [Metadata(cols)], b);
    RowsOfAppend(a, [Metadata(cols)]);
    RowsOfAppend(a, b);
    assert RowsOf([Metadata(cols)]) == [] by {
      assert [Metadata(cols)][1..] == [];
    }
    assert RowsOf(a) + [] == RowsOf(a);
  }

  /** The result for a stream is the result for its first part followed by
      the result for the rest. */
  lemma QueryRowsAppend(a: seq<QueryItem>, b: seq<QueryItem>)
    ensures QueryRows(a + b) == QueryRows(a) + QueryRows(b)
  {
    RowsOfAppend(a, b);
    ObjectsAppend(RowsOf(a), RowsOf(b));
  }

  lemma {:induction false} ObjectsAppend(a: seq<Row>, b: seq<Row>)
    ensures Objects(a + b) == Objects(a) + Objects(b)
  {
    if |a| == 0 {
      assert a + b == b;
    } else {
      assert (a + b)[1..] == a[1..] + b;
      ObjectsAppend(a[1..], b);
    }
  }

  /** The array has one object per row item, the `k`-th being the object of
      the `k`-th row in stream order. */
  lemma QueryRowsShape(items: seq<QueryItem>)
    ensures |QueryRows(items)| == |RowsOf(items)|
    ensures forall k :: 0 <= k < |RowsOf(items)| ==> QueryRows(items)[k] == Json.Object(RowToObject(RowsOf(items)[k]))
  {
    ObjectsIndex(RowsOf(items));
  }
}
