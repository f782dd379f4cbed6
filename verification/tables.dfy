/** Column-named tables, as pandas data frames and `datasets` datasets both
    present them: an ordered list of distinct column names and a sequence of
    rows, each row a map from every column name to its value.
 */
module Tables {
  import opened Outcomes

  type Row<V> = map<string, V>

  datatype Table<V> = Table(columns: seq<string>, rows: seq<Row<V>>)

  predicate Distinct<T(==)>(s: seq<T>) {
    forall i, j :: 0 <= i < j < |s| ==> s[i] != s[j]
  }

  function Names(columns: seq<string>): set<string> {
    set c | c in columns
  }

  /** Column names are distinct and every row has exactly the table's columns. */
  predicate WellFormed<V>(t: Table<V>) {
    && Distinct(t.columns)
    && forall n :: 0 <= n < |t.rows| ==> t.rows[n].Keys == Names(t.columns)
  }

  /** The columns of `columns` that are not in `drop`, in their order. */
  function Without(columns: seq<string>, drop: set<string>): (r: seq<string>)
    ensures forall c :: c in r <==> c in columns && c !in drop
    ensures Distinct(columns) ==> Distinct(r)
  {
    if columns == [] then []
    else if columns[0] in drop then Without(columns[1..], drop)
    else
      var tail := Without(columns[1..], drop);
      var r := [columns[0]] + tail;
      assert Distinct(columns) ==> Distinct(r) by {
        if Distinct(columns) {
          assert forall c :: c in columns[1..] ==> c != columns[0];
          assert columns[0] !in tail;
          assert forall i :: 1 <= i < |r| ==> r[i] == tail[i - 1];
        }
      }
      r
  }

  /** `remove_columns(names)`: fails naming the absent columns when any
      requested column is not in the table; otherwise every row loses exactly
      those columns and keeps the rest. */
  function RemoveColumns<V>(t: Table<V>, names: seq<string>): (r: Result<Table<V>>)
    requires WellFormed(t)
    ensures r.Err? <==> exists c :: c in names && c !in t.columns
    ensures r.Err? ==> r.error == ColumnsNotInDataset(Names(names) - Names(t.columns))
    ensures r.Ok? ==> && WellFormed(r.value)
                      && Names(r.value.columns) == Names(t.columns) - Names(names)
                      && |r.value.rows| == |t.rows|
                      && forall n, c :: 0 <= n < |t.rows| && c in r.value.rows[n] ==>
                           c in t.rows[n] && r.value.rows[n][c] == t.rows[n][c]
    ensures r.Ok? ==> forall n :: 0 <= n < |t.rows| ==> r.value.rows[n] == t.rows[n] - Names(names)
  {
    var missing := Names(names) - Names(t.columns);
    if missing != {} then
      assert exists c :: c in names && c !in t.columns by {
        var c :| c in missing;
      }
      Err(ColumnsNotInDataset(missing))
    else
      var drop := Names(names);
      forall c | c in names ensures c in t.columns {
        assert c in Names(names);
        assert c !in missing;
      }
      var columns := Without(t.columns, drop);
      assert Names(columns) == Names(t.columns) - drop;
      var rows := seq(|t.rows|, n requires 0 <= n < |t.rows| => t.rows[n] - drop);
      assert forall n :: 0 <= n < |rows| ==> rows[n].Keys == Names(columns);
      Ok(Table(columns, rows))
  }

  /** `columns` with `from` replaced by `to` in the same position. */
  function Replace(columns: seq<string>, from: string, to: string): (r: seq<string>)
    ensures |r| == |columns|
    ensures forall i :: 0 <= i < |columns| ==> r[i] == if columns[i] == from then to else columns[i]
  {
    seq(|columns|, i requires 0 <= i < |columns| => if columns[i] == from then to else columns[i])
  }

  /** A row with the value under `from` moved to `to`. */
  function RenameKey<V>(row: Row<V>, from: string, to: string): Row<V>
    requires from in row
  {
    (row - {from})[to := row[from]]
  }

  /** `rename_column(from, to)`: fails when `from` is not a column or `to`
      already is one; otherwise the column keeps its position and its values
      under its new name, and no other column changes. */
  function RenameColumn<V>(t: Table<V>, from: string, to: string): (r: Result<Table<V>>)
    requires WellFormed(t)
    ensures r.Ok? <==> from in t.columns && to !in t.columns
    ensures from !in t.columns ==> r == Err(ColumnsNotInDataset({from}))
    ensures from in t.columns && to in t.columns ==> r == Err(ColumnAlreadyExists(to))
    ensures r.Ok? ==> && WellFormed(r.value)
                      && Names(r.value.columns) == Names(t.columns) - {from} + {to}
                      && |r.value.rows| == |t.rows|
                      && forall n :: 0 <= n < |t.rows| ==>
                           && r.value.rows[n][to] == t.rows[n][from]
                           && forall c :: c in t.rows[n] && c != from ==> r.value.rows[n][c] == t.rows[n][c]
    ensures r.Ok? ==> forall n :: 0 <= n < |t.rows| ==> from in t.rows[n] && r.value.rows[n] == RenameKey(t.rows[n], from, to)
  {
    if from !in t.columns then Err(ColumnsNotInDataset({from}))
    else if to in t.columns then Err(ColumnAlreadyExists(to))
    else
      var columns := Replace(t.columns, from, to);
      assert Names(columns) == Names(t.columns) - {from} + {to} by {
        forall c | c in Names(t.columns) - {from} + {to} ensures c in Names(columns) {
          if c == to {
            var i :| 0 <= i < |t.columns| && t.columns[i] == from;
            assert columns[i] == to;
          } else {
            var i :| 0 <= i < |t.columns| && t.columns[i] == c;
            assert columns[i] == c;
          }
        }
      }
      var rows := seq(|t.rows|, n requires 0 <= n < |t.rows| => RenameKey(t.rows[n], from, to));
      Ok(Table(columns, rows))
  }

  /** `t[name] = values`: a new column is appended at the end, an existing
      one keeps its position; every row gets its value and nothing else
      changes. */
  function SetColumn<V>(t: Table<V>, name: string, values: seq<V>): (r: Table<V>)
    requires WellFormed(t) && |values| == |t.rows|
    ensures WellFormed(r) && |r.rows| == |t.rows|
    ensures t.columns <= r.columns && Names(r.columns) == Names(t.columns) + {name}
    ensures forall n :: 0 <= n < |t.rows| ==> r.rows[n][name] == values[n]
    ensures forall n, c :: 0 <= n < |t.rows| && c in t.rows[n] && c != name ==> r.rows[n][c] == t.rows[n][c]
  {
    var columns := if name in t.columns then t.columns else t.columns + [name];
    assert Names(columns) == Names(t.columns) + {name};
    Table(columns, seq(|t.rows|, n requires 0 <= n < |t.rows| => t.rows[n][name := values[n]]))
  }
}
