/** The table-level half of `DataStandardization`: `process_dataframe`,
    which adds one standardized column per configured text column, and the
    projection / inner join / key drop of `load_and_prepare_data`.
 */
module DataFrames {
  import opened Outcomes
  import opened Tables
  import opened Standardization

  /** The names of the derived columns, `c + suffix` for every text column. */
  function DerivedNames(textColumns: seq<string>, suffix: string): set<string> {
    set c | c in textColumns :: c + suffix
  }

  /** Appending the same suffix to two names keeps them apart. */
  lemma SuffixInjective(a: string, b: string, suffix: string)
    requires a + suffix == b + suffix
    ensures a == b
  {
    assert |a| == |b|;
    assert a == (a + suffix)[..|a|];
    assert b == (b + suffix)[..|b|];
  }

  /** The standardized values of column `c`, one per row. */
  function StandardizedColumn(std: Standardizer, df: Table<Cell>, c: string): (values: seq<Cell>)
    requires WellFormed(df) && c in df.columns
    ensures |values| == |df.rows|
    ensures forall n :: 0 <= n < |df.rows| ==> values[n] == Str(StandardizeText(std, df.rows[n][c]))
  {
    seq(|df.rows|, n requires 0 <= n < |df.rows| => Str(StandardizeText(std, df.rows[n][c])))
  }

  /** `j` is the first text column the input lacks. */
  predicate FirstMissing(textColumns: seq<string>, columns: seq<string>, j: int) {
    && 0 <= j < |textColumns|
    && textColumns[j] !in columns
    && forall k :: 0 <= k < j ==> textColumns[k] in columns
  }

  /** `process_dataframe(df, suffix)`: works on a copy; for each configured
      text column in turn, raises naming it when the input lacks it, and
      otherwise writes its standardized values to column `c + suffix`
      (appended at the end unless a column of that name already exists). */
  method ProcessDataFrame(std: Standardizer, textColumns: seq<string>, df: Table<Cell>, suffix: string)
    returns (r: Result<Table<Cell>>)
    requires WellFormed(df)
    ensures r.Err? <==> exists c :: c in textColumns && c !in df.columns
    ensures r.Err? ==> exists j :: FirstMissing(textColumns, df.columns, j) && r.error == MissingTextColumn(textColumns[j])
    ensures r.Ok? ==> Standardized(std, textColumns, df, suffix, r.value)
  {
    var t := df;
    var i := 0;
    ProcessedStart(std, textColumns, df, suffix);
    while i < |textColumns|
      invariant 0 <= i <= |textColumns|
      invariant Processed(std, textColumns[..i], df, suffix, t)
    {
      var c := textColumns[i];
      if c !in df.columns {
        MissingFound(std, textColumns, df, suffix, t, i);
        return Err(MissingTextColumn(c));
      }
      assert textColumns[..i + 1] == textColumns[..i] + [c];
      t := AddStandardized(std, textColumns[..i], c, textColumns[..i + 1], df, suffix, t);
      i := i + 1;
    }
    assert textColumns[..i] == textColumns;
    ProcessedAll(std, textColumns, df, suffix, t);
    return Ok(t);
  }

  /** Before the loop the copy is the input, with nothing done yet. */
  lemma ProcessedStart(std: Standardizer, textColumns: seq<string>, df: Table<Cell>, suffix: string)
    requires WellFormed(df)
    ensures Processed(std, textColumns[..0], df, suffix, df)
  {
    assert textColumns[..0] == [];
    assert DerivedNames([], suffix) == {};
  }

  /** Stopping at the first absent text column `i` is the promised error. */
  lemma MissingFound(std: Standardizer, textColumns: seq<string>, df: Table<Cell>, suffix: string, t: Table<Cell>, i: nat)
    requires i < |textColumns| && textColumns[i] !in df.columns
    requires Processed(std, textColumns[..i], df, suffix, t)
    ensures FirstMissing(textColumns, df.columns, i)
    ensures exists c :: c in textColumns && c !in df.columns
  {
    assert forall k :: 0 <= k < i ==> textColumns[k] == textColumns[..i][k];
  }

  /** `t` is the result `process_dataframe` promises: the input's columns
      first, in order, then the derived ones; every text column's standardized
      values under its suffixed name; every other input column unchanged. */
  predicate Standardized(std: Standardizer, textColumns: seq<string>, df: Table<Cell>, suffix: string, t: Table<Cell>)
    requires WellFormed(df)
  {
    && WellFormed(t)
    && df.columns <= t.columns
    && Names(t.columns) == Names(df.columns) + DerivedNames(textColumns, suffix)
    && |t.rows| == |df.rows|
    && (forall n, c :: 0 <= n < |df.rows| && c in textColumns && c in df.columns ==>
          t.rows[n][c + suffix] == Str(StandardizeText(std, df.rows[n][c])))
    && (forall n, c :: 0 <= n < |df.rows| && c in df.columns && c !in DerivedNames(textColumns, suffix) ==>
          t.rows[n][c] == df.rows[n][c])
  }

  /** The loop's description once every text column is done is the
      promised result. */
  lemma ProcessedAll(std: Standardizer, textColumns: seq<string>, df: Table<Cell>, suffix: string, t: Table<Cell>)
    requires WellFormed(df)
    requires Processed(std, textColumns, df, suffix, t)
    ensures Standardized(std, textColumns, df, suffix, t)
    ensures forall c :: c in textColumns ==> c in df.columns
  {
    forall n, c | 0 <= n < |df.rows| && c in textColumns
      ensures c in df.rows[n] && c + suffix in t.rows[n]
      ensures t.rows[n][c + suffix] == Str(StandardizeText(std, df.rows[n][c]))
    {
      var k :| 0 <= k < |textColumns| && textColumns[k] == c;
    }
  }

  /** `t` is `df` with the columns of `done` standardized under their
      suffixed names and every other column of `df` untouched. */
  predicate Processed(std: Standardizer, done: seq<string>, df: Table<Cell>, suffix: string, t: Table<Cell>) {
    && WellFormed(t) && |t.rows| == |df.rows|
    && (forall k :: 0 <= k < |done| ==> done[k] in df.columns)
    && df.columns <= t.columns
    && Names(t.columns) == Names(df.columns) + DerivedNames(done, suffix)
    && (forall n, k :: 0 <= n < |df.rows| && 0 <= k < |done| ==>
          && done[k] in df.rows[n] && done[k] + suffix in t.rows[n]
          && t.rows[n][done[k] + suffix] == Str(StandardizeText(std, df.rows[n][done[k]])))
    && (forall n, c :: 0 <= n < |df.rows| && c in df.columns && c !in DerivedNames(done, suffix) ==>
          && c in df.rows[n] && c in t.rows[n]
          && t.rows[n][c] == df.rows[n][c])
  }

  /** One pass of the loop: writes the standardized values of `c` to
      `c + suffix`, which keeps the loop's description with `c` done. */
  method AddStandardized(std: Standardizer, done: seq<string>, c: string, next: seq<string>, df: Table<Cell>,
                         suffix: string, before: Table<Cell>) returns (t: Table<Cell>)
    requires WellFormed(df) && c in df.columns && next == done + [c]
    requires Processed(std, done, df, suffix, before)
    ensures Processed(std, next, df, suffix, t)
  {
    t := SetColumn(before, c + suffix, StandardizedColumn(std, df, c));
    assert DerivedNames(next, suffix) == DerivedNames(done, suffix) + {c + suffix};
    StepDerived(std, done, c, df, suffix, before, t);
    StepUntouched(std, done, c, df, suffix, before, t);
  }

  /** The newly written column and the earlier derived ones hold their
      standardized values. */
  lemma StepDerived(std: Standardizer, done: seq<string>, c: string, df: Table<Cell>, suffix: string,
                    before: Table<Cell>, t: Table<Cell>)
    requires WellFormed(df) && c in df.columns
    requires Processed(std, done, df, suffix, before)
    requires t == SetColumn(before, c + suffix, StandardizedColumn(std, df, c))
    ensures var next := done + [c];
      forall n, k :: 0 <= n < |df.rows| && 0 <= k < |next| ==>
        && next[k] in df.rows[n] && next[k] + suffix in t.rows[n]
        && t.rows[n][next[k] + suffix] == Str(StandardizeText(std, df.rows[n][next[k]]))
  {
    var next := done + [c];
    forall n, k | 0 <= n < |df.rows| && 0 <= k < |next|
      ensures && next[k] in df.rows[n] && next[k] + suffix in t.rows[n]
              && t.rows[n][next[k] + suffix] == Str(StandardizeText(std, df.rows[n][next[k]]))
    {
      assert df.rows[n].Keys == Names(df.columns);
      if next[k] + suffix == c + suffix {
        SuffixInjective(next[k], c, suffix);
      } else {
        assert next[k] == done[k];
        assert next[k] + suffix in before.rows[n];
      }
    }
  }

  /** The columns of the input that are not derived names keep their values. */
  lemma StepUntouched(std: Standardizer, done: seq<string>, c: string, df: Table<Cell>, suffix: string,
                      before: Table<Cell>, t: Table<Cell>)
    requires WellFormed(df) && c in df.columns
    requires Processed(std, done, df, suffix, before)
    requires t == SetColumn(before, c + suffix, StandardizedColumn(std, df, c))
    requires DerivedNames(done + [c], suffix) == DerivedNames(done, suffix) + {c + suffix}
    ensures forall n, x :: 0 <= n < |df.rows| && x in df.columns && x !in DerivedNames(done + [c], suffix) ==>
      && x in df.rows[n] && x in t.rows[n]
      && t.rows[n][x] == df.rows[n][x]
  {
  }

  /** Index pairs `(i, j)` with `j >= from` whose transcript row `j` carries
      the merge-key value `k` of main row `i`. */
  function RowMatches(i: nat, k: Cell, transcripts: seq<Row<Cell>>, key: string, from: nat): (ps: seq<(nat, nat)>)
    requires forall j :: 0 <= j < |transcripts| ==> key in transcripts[j]
    ensures Distinct(ps)
    ensures forall p :: p in ps ==> p.0 == i && from <= p.1 < |transcripts| && transcripts[p.1][key] == k
    ensures forall j :: from <= j < |transcripts| && transcripts[j][key] == k ==> (i, j) in ps
    decreases |transcripts| - from
  {
    if from >= |transcripts| then []
    else
      var tail := RowMatches(i, k, transcripts, key, from + 1);
      if transcripts[from][key] == k then
        var ps := [(i, from)] + tail;
        assert forall x :: 1 <= x < |ps| ==> ps[x] == tail[x - 1];
        ps
      else tail
  }

  /** All matching index pairs for main rows `i >= from`, main row by main row. */
  function JoinPairs(main: seq<Row<Cell>>, transcripts: seq<Row<Cell>>, key: string, from: nat): (ps: seq<(nat, nat)>)
    requires forall i :: 0 <= i < |main| ==> key in main[i]
    requires forall j :: 0 <= j < |transcripts| ==> key in transcripts[j]
    ensures Distinct(ps)
    ensures forall p :: p in ps ==>
      from <= p.0 < |main| && p.1 < |transcripts| && main[p.0][key] == transcripts[p.1][key]
    ensures forall i, j :: from <= i < |main| && 0 <= j < |transcripts| && main[i][key] == transcripts[j][key] ==>
      (i, j) in ps
    decreases |main| - from
  {
    if from >= |main| then []
    else
      var head := RowMatches(from, main[from][key], transcripts, key, 0);
      var tail := JoinPairs(main, transcripts, key, from + 1);
      var ps := head + tail;
      assert Distinct(ps) by {
        forall x, y | 0 <= x < y < |ps| ensures ps[x] != ps[y] {
          if y < |head| {
          } else if x >= |head| {
            assert ps[x] == tail[x - |head|] && ps[y] == tail[y - |head|];
          } else {
            assert ps[x] in head && ps[y] == tail[y - |head|];
            assert ps[y] in tail;
          }
        }
      }
      ps
  }

  /** The joined row: the projected main fields and the transcript fields,
      without the merge key. Columns the two sides share besides the key are
      renamed by pandas and are not modelled; here the main side's value is kept. */
  function Combine(main: Row<Cell>, transcript: Row<Cell>, key: string): Row<Cell> {
    (transcript + main) - {key}
  }

  function Project(row: Row<Cell>, fields: seq<string>): Row<Cell>
    requires forall c :: c in fields ==> c in row
  {
    map c | c in Names(fields) :: row[c]
  }

  /** `pairs` lists, once each, exactly the index pairs of main and
      transcript rows with equal merge keys, and row `p` of `rows` is the
      joined row of pair `p`: the main row's relevant fields and the
      transcript row's other fields, without the key. */
  ghost predicate JoinedBy(main: seq<Row<Cell>>, transcripts: seq<Row<Cell>>, fields: seq<string>,
                           transcriptColumns: seq<string>, key: string,
                           pairs: seq<(nat, nat)>, rows: seq<Row<Cell>>)
    requires forall i :: 0 <= i < |main| ==> key in main[i] && forall c :: c in fields ==> c in main[i]
    requires forall j :: 0 <= j < |transcripts| ==>
      key in transcripts[j] && forall c :: c in transcriptColumns ==> c in transcripts[j]
  {
    && |pairs| == |rows|
    && Distinct(pairs)
    && (forall i, j ::
          (0 <= i < |main| && 0 <= j < |transcripts| && main[i][key] == transcripts[j][key])
          ==> (i, j) in pairs)
    && forall p :: 0 <= p < |pairs| ==>
         && pairs[p].0 < |main| && pairs[p].1 < |transcripts|
         && main[pairs[p].0][key] == transcripts[pairs[p].1][key]
         && key !in rows[p]
         && (forall c :: c in fields && c != key ==> c in rows[p] && rows[p][c] == main[pairs[p].0][c])
         && (forall c :: c in transcriptColumns && c != key && c !in fields ==>
               c in rows[p] && rows[p][c] == transcripts[pairs[p].1][c])
  }

  /** `rows` is the inner join of `main` and `transcripts` on `key` with the
      key dropped. The order of the rows is left to pandas. */
  ghost predicate IsInnerJoin(main: seq<Row<Cell>>, transcripts: seq<Row<Cell>>, fields: seq<string>,
                              transcriptColumns: seq<string>, key: string, rows: seq<Row<Cell>>)
    requires forall i :: 0 <= i < |main| ==> key in main[i] && forall c :: c in fields ==> c in main[i]
    requires forall j :: 0 <= j < |transcripts| ==>
      key in transcripts[j] && forall c :: c in transcriptColumns ==> c in transcripts[j]
  {
    exists pairs: seq<(nat, nat)> :: JoinedBy(main, transcripts, fields, transcriptColumns, key, pairs, rows)
  }

  /** What one joined row holds. */
  lemma CombineFacts(mainRow: Row<Cell>, transcriptRow: Row<Cell>, fields: seq<string>,
                     transcriptColumns: seq<string>, key: string)
    requires key in mainRow && forall c :: c in fields ==> c in mainRow
    requires forall c :: c in transcriptColumns ==> c in transcriptRow
    ensures var row := Combine(Project(mainRow, fields), transcriptRow, key);
      && key !in row
      && (forall c :: c in fields && c != key ==> c in row && row[c] == mainRow[c])
      && (forall c :: c in transcriptColumns && c != key && c !in fields ==> c in row && row[c] == transcriptRow[c])
  {
  }

  /** The joined rows, built from the matching index pairs in main-row order. */
  function JoinRows(main: seq<Row<Cell>>, transcripts: seq<Row<Cell>>, fields: seq<string>,
                    transcriptColumns: seq<string>, key: string): (rows: seq<Row<Cell>>)
    requires key in fields
    requires forall i :: 0 <= i < |main| ==> key in main[i] && forall c :: c in fields ==> c in main[i]
    requires forall j :: 0 <= j < |transcripts| ==>
      key in transcripts[j] && forall c :: c in transcriptColumns ==> c in transcripts[j]
    ensures IsInnerJoin(main, transcripts, fields, transcriptColumns, key, rows)
    ensures (forall j :: 0 <= j < |transcripts| ==> transcripts[j].Keys == Names(transcriptColumns)) ==>
      forall p :: 0 <= p < |rows| ==> rows[p].Keys == Names(fields) + Names(transcriptColumns) - {key}
  {
    var projected := seq(|main|, i requires 0 <= i < |main| => Project(main[i], fields));
    assert forall i :: 0 <= i < |main| ==> projected[i][key] == main[i][key];
    var pairs := JoinPairs(projected, transcripts, key, 0);
    var rows := CombinePairs(projected, transcripts, key, pairs);
    PairsJoined(main, transcripts, fields, transcriptColumns, key, projected, pairs, rows);
    assert forall p :: 0 <= p < |pairs| ==> pairs[p] in pairs;
    rows
  }

  /** The joined row of every index pair. */
  function CombinePairs(projected: seq<Row<Cell>>, transcripts: seq<Row<Cell>>, key: string,
                        pairs: seq<(nat, nat)>): (rows: seq<Row<Cell>>)
    requires forall p :: p in pairs ==> p.0 < |projected| && p.1 < |transcripts|
    ensures |rows| == |pairs|
    ensures forall p :: 0 <= p < |pairs| ==>
      rows[p] == Combine(projected[pairs[p].0], transcripts[pairs[p].1], key)
  {
    seq(|pairs|, p requires 0 <= p < |pairs| =>
      assert pairs[p] in pairs;
      Combine(projected[pairs[p].0], transcripts[pairs[p].1], key))
  }

  /** Combining the matching pairs of the projected rows is the inner join. */
  lemma PairsJoined(main: seq<Row<Cell>>, transcripts: seq<Row<Cell>>, fields: seq<string>,
                    transcriptColumns: seq<string>, key: string,
                    projected: seq<Row<Cell>>, pairs: seq<(nat, nat)>, rows: seq<Row<Cell>>)
    requires key in fields
    requires forall i :: 0 <= i < |main| ==> key in main[i] && forall c :: c in fields ==> c in main[i]
    requires forall j :: 0 <= j < |transcripts| ==>
      key in transcripts[j] && forall c :: c in transcriptColumns ==> c in transcripts[j]
    requires |projected| == |main| && forall i :: 0 <= i < |main| ==> projected[i] == Project(main[i], fields)
    requires forall i :: 0 <= i < |main| ==> key in projected[i] && projected[i][key] == main[i][key]
    requires pairs == JoinPairs(projected, transcripts, key, 0)
    requires forall p :: p in pairs ==> p.0 < |projected| && p.1 < |transcripts|
    requires rows == CombinePairs(projected, transcripts, key, pairs)
    ensures JoinedBy(main, transcripts, fields, transcriptColumns, key, pairs, rows)
  {
    assert forall p :: 0 <= p < |pairs| ==> pairs[p] in pairs;
    forall p | 0 <= p < |pairs|
      ensures var row := rows[p]; var i := pairs[p].0; var j := pairs[p].1;
        && key !in row
        && (forall c :: c in fields && c != key ==> c in row && row[c] == main[i][c])
        && (forall c :: c in transcriptColumns && c != key && c !in fields ==> c in row && row[c] == transcripts[j][c])
    {
      CombineFacts(main[pairs[p].0], transcripts[pairs[p].1], fields, transcriptColumns, key);
    }
  }

  /** `load_and_prepare_data` after the two CSV reads: project the main table
      onto the relevant fields (a `KeyError` listing the absent ones if any
      is missing), inner-join it with the transcripts on the merge key (a
      `KeyError` if either side lacks it), and drop the key. Every joined row
      has exactly the result's columns; they are distinct, so the result is
      a well-formed table, unless the relevant fields repeat a name. */
  function LoadAndPrepare(main: Table<Cell>, transcripts: Table<Cell>, fields: seq<string>, key: string): (r: Result<Table<Cell>>)
    requires WellFormed(main) && WellFormed(transcripts)
    ensures r.Ok? <==> (forall c :: c in fields ==> c in main.columns) && key in fields && key in transcripts.columns
    ensures (exists c :: c in fields && c !in main.columns) ==>
      r == Err(ColumnsNotInFrame(Without(fields, Names(main.columns))))
    ensures (forall c :: c in fields ==> c in main.columns) && (key !in fields || key !in transcripts.columns) ==>
      r == Err(ColumnsNotInFrame([key]))
    ensures r.Ok? ==>
      && key !in r.value.columns
      && Names(r.value.columns) == Names(fields) + Names(transcripts.columns) - {key}
      && (forall n :: 0 <= n < |r.value.rows| ==> r.value.rows[n].Keys == Names(r.value.columns))
      && IsInnerJoin(main.rows, transcripts.rows, fields, transcripts.columns, key, r.value.rows)
    ensures r.Ok? && Distinct(fields) ==> WellFormed(r.value)
  {
    if exists c :: c in fields && c !in main.columns then
      Err(ColumnsNotInFrame(Without(fields, Names(main.columns))))
    else if key !in fields || key !in transcripts.columns then
      Err(ColumnsNotInFrame([key]))
    else
      var columns := JoinedColumns(fields, transcripts.columns, key);
      Ok(Table(columns, JoinRows(main.rows, transcripts.rows, fields, transcripts.columns, key)))
  }

  /** The columns of the joined table: the relevant fields, then the
      transcript columns that are not among them, both without the key. */
  function JoinedColumns(fields: seq<string>, transcriptColumns: seq<string>, key: string): (columns: seq<string>)
    ensures Names(columns) == Names(fields) + Names(transcriptColumns) - {key}
    ensures Distinct(fields) && Distinct(transcriptColumns) ==> Distinct(columns)
  {
    var front := Without(fields, {key});
    var back := Without(transcriptColumns, Names(fields) + {key});
    var columns := front + back;
    assert Distinct(fields) && Distinct(transcriptColumns) ==> Distinct(columns) by {
      if Distinct(fields) && Distinct(transcriptColumns) {
        forall i, j | 0 <= i < j < |columns| ensures columns[i] != columns[j] {
          if i < |front| && j >= |front| {
            assert columns[i] in front && columns[j] in back;
          } else if i >= |front| {
            assert columns[i] == back[i - |front|] && columns[j] == back[j - |front|];
          }
        }
      }
    }
    columns
  }
}
