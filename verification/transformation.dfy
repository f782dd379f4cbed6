/** `DataTransformation`: builds the train/validation/test split dictionary
    from the standardized CSV, encodes it for a sequence-to-sequence model,
    samples it, and guards its saving. The CSV reader, the library's
    `train_test_split`, its seeded shuffle and the tokenizer are parameters;
    what is verified is the stage's own logic on top of them.
 */
module Transformation {
  import opened Outcomes
  import opened Tables
  import opened Tokenization

  /** A dataset cell: the loaded CSV holds text or nulls, the encoder adds
      id lists (one per row when batched, a list of lists when not). */
  datatype Value = Null | Text(s: string) | Ints(ids: seq<int>) | IntRows(rows: seq<seq<int>>)

  type Dataset = Table<Value>

  datatype NamedSplit = NamedSplit(name: string, data: Dataset)

  /** A `DatasetDict`: named splits in insertion order. */
  type DatasetDict = seq<NamedSplit>

  function SplitNames(d: DatasetDict): (names: seq<string>)
    ensures |names| == |d| && forall i :: 0 <= i < |d| ==> names[i] == d[i].name
  {
    seq(|d|, i requires 0 <= i < |d| => d[i].name)
  }

  predicate WellFormedDict(d: DatasetDict) {
    && Distinct(SplitNames(d))
    && forall i :: 0 <= i < |d| ==> WellFormed(d[i].data)
  }

  // ---------------------------------------------------------------------
  // Loading: schema gate, column drop and rename, two-stage split

  const RequiredFeatures: seq<string> := ["transcript_standardized", "description_standardized", "title_standardized"]
  const UnneededColumns: seq<string> := ["description", "tags", "title", "ratings", "transcript"]
  const CanonicalNames: set<string> := {"text", "summary", "title"}

  /** `row` is `loaded` with the unneeded columns gone and the three
      standardized columns under their canonical names; nothing else differs. */
  predicate Canonicalized(loaded: Row<Value>, row: Row<Value>) {
    && row.Keys == loaded.Keys - Names(UnneededColumns) - Names(RequiredFeatures) + CanonicalNames
    && "transcript_standardized" in loaded && row["text"] == loaded["transcript_standardized"]
    && "description_standardized" in loaded && row["summary"] == loaded["description_standardized"]
    && "title_standardized" in loaded && row["title"] == loaded["title_standardized"]
    && forall c :: c in row && c !in CanonicalNames ==> c in loaded && row[c] == loaded[c]
  }

  /** The configured name lists as sets. */
  lemma NameLiterals()
    ensures Names(RequiredFeatures) == {"transcript_standardized", "description_standardized", "title_standardized"}
    ensures Names(UnneededColumns) == {"description", "tags", "title", "ratings", "transcript"}
    ensures Names(RequiredFeatures + UnneededColumns) == Names(RequiredFeatures) + Names(UnneededColumns)
  {
  }

  /** The schema assertion, `remove_columns` and the three renames of
      `load_data_into_DatasetDict`, applied to the loaded `train` split. */
  function Canonicalize(loaded: Dataset): (r: Result<Dataset>)
    requires WellFormed(loaded)
    ensures !(Names(RequiredFeatures) <= Names(loaded.columns)) ==>
      r == Err(MissingRequiredFeatures(RequiredFeatures))
    ensures Names(RequiredFeatures) <= Names(loaded.columns) && !(Names(UnneededColumns) <= Names(loaded.columns)) ==>
      r == Err(ColumnsNotInDataset(Names(UnneededColumns) - Names(loaded.columns)))
    ensures Names(RequiredFeatures + UnneededColumns) <= Names(loaded.columns) && "text" in loaded.columns ==>
      r == Err(ColumnAlreadyExists("text"))
    ensures Names(RequiredFeatures + UnneededColumns) <= Names(loaded.columns) && "text" !in loaded.columns
              && "summary" in loaded.columns ==>
      r == Err(ColumnAlreadyExists("summary"))
    ensures r.Ok? <==> && Names(RequiredFeatures + UnneededColumns) <= Names(loaded.columns)
                       && "text" !in loaded.columns && "summary" !in loaded.columns
    ensures r.Ok? ==> && WellFormed(r.value)
                      && Names(r.value.columns)
                           == Names(loaded.columns) - Names(UnneededColumns) - Names(RequiredFeatures) + CanonicalNames
                      && |r.value.rows| == |loaded.rows|
                      && forall n :: 0 <= n < |loaded.rows| ==> Canonicalized(loaded.rows[n], r.value.rows[n])
  {
    NameLiterals();
    if !(Names(RequiredFeatures) <= Names(loaded.columns)) then
      Err(MissingRequiredFeatures(RequiredFeatures))
    else
      var dropped :- RemoveColumns(loaded, UnneededColumns);
      DroppedFacts(loaded, dropped);
      var c :- Rename(dropped);
      assert forall n :: 0 <= n < |loaded.rows| ==> Canonicalized(loaded.rows[n], c.rows[n]) by {
        forall n | 0 <= n < |loaded.rows| ensures Canonicalized(loaded.rows[n], c.rows[n]) {
          assert dropped.rows[n] == loaded.rows[n] - Names(UnneededColumns);
          assert loaded.rows[n].Keys == Names(loaded.columns);
          CanonicalRow(loaded.rows[n]);
        }
      }
      Ok(c)
  }

  /** What the drop leaves when every required feature is present. */
  lemma DroppedFacts(loaded: Dataset, dropped: Dataset)
    requires WellFormed(loaded) && Names(RequiredFeatures) <= Names(loaded.columns)
    requires RemoveColumns(loaded, UnneededColumns) == Ok(dropped)
    ensures WellFormed(dropped) && Names(RequiredFeatures) <= Names(dropped.columns)
    ensures "title" !in dropped.columns
    ensures "text" in dropped.columns <==> "text" in loaded.columns
    ensures "summary" in dropped.columns <==> "summary" in loaded.columns
    ensures Names(dropped.columns) == Names(loaded.columns) - Names(UnneededColumns)
  {
    DropSpares();
    assert "title" !in Names(dropped.columns);
    assert "text" in Names(dropped.columns) <==> "text" in Names(loaded.columns);
    assert "summary" in Names(dropped.columns) <==> "summary" in Names(loaded.columns);
  }

  /** The drop list spares the required features and the names the renames
      introduce, except "title", which it drops. */
  lemma DropSpares()
    ensures Names(RequiredFeatures) !! Names(UnneededColumns)
    ensures "text" !in Names(UnneededColumns) && "summary" !in Names(UnneededColumns)
    ensures "title" in Names(UnneededColumns)
  {
    NameLiterals();
  }

  /** The three renames, on one row. */
  function RenameRow(row: Row<Value>): Row<Value>
    requires Names(RequiredFeatures) <= row.Keys
  {
    NameLiterals();
    var a := RenameKey(row, "transcript_standardized", "text");
    var b := RenameKey(a, "description_standardized", "summary");
    RenameKey(b, "title_standardized", "title")
  }

  /** Dropping the unneeded columns from a loaded row and renaming the rest
      canonicalizes it. */
  lemma CanonicalRow(row: Row<Value>)
    requires Names(RequiredFeatures) <= row.Keys
    ensures Canonicalized(row, RenameRow(row - Names(UnneededColumns)))
  {
    CanonicalKeys(row);
    CanonicalValues(row);
  }

  /** The keys part of `Canonicalized`. */
  lemma CanonicalKeys(row: Row<Value>)
    requires Names(RequiredFeatures) <= row.Keys
    ensures RenameRow(row - Names(UnneededColumns)).Keys
              == row.Keys - Names(UnneededColumns) - Names(RequiredFeatures) + CanonicalNames
  {
    NameLiterals();
  }

  /** The values part of `Canonicalized`. */
  lemma CanonicalValues(row: Row<Value>)
    requires Names(RequiredFeatures) <= row.Keys
    ensures var r := RenameRow(row - Names(UnneededColumns));
      && "transcript_standardized" in row && "text" in r && r["text"] == row["transcript_standardized"]
      && "description_standardized" in row && "summary" in r && r["summary"] == row["description_standardized"]
      && "title_standardized" in row && "title" in r && r["title"] == row["title_standardized"]
      && forall c :: c in r && c !in CanonicalNames ==> c in row && r[c] == row[c]
  {
    NameLiterals();
  }

  /** The three `rename_column` calls. */
  function Rename(t: Dataset): (r: Result<Dataset>)
    requires WellFormed(t) && Names(RequiredFeatures) <= Names(t.columns) && "title" !in t.columns
    ensures "text" in t.columns ==> r == Err(ColumnAlreadyExists("text"))
    ensures "text" !in t.columns && "summary" in t.columns ==> r == Err(ColumnAlreadyExists("summary"))
    ensures r.Ok? <==> "text" !in t.columns && "summary" !in t.columns
    ensures r.Ok? ==> && WellFormed(r.value)
                      && Names(r.value.columns) == Names(t.columns) - Names(RequiredFeatures) + CanonicalNames
                      && |r.value.rows| == |t.rows|
                      && forall n :: 0 <= n < |t.rows| ==>
                           Names(RequiredFeatures) <= t.rows[n].Keys && r.value.rows[n] == RenameRow(t.rows[n])
  {
    NameLiterals();
    assert "transcript_standardized" in Names(t.columns);
    var a :- RenameColumn(t, "transcript_standardized", "text");
    FirstRenamed(t, a);
    var b :- RenameColumn(a, "description_standardized", "summary");
    SecondRenamed(a, b);
    assert RenameColumn(b, "title_standardized", "title").Ok?;
    var c := RenameColumn(b, "title_standardized", "title").value;
    RenamedNames(Names(t.columns), Names(a.columns), Names(b.columns), Names(c.columns));
    RenamedRows(t, a, b, c);
    Ok(c)
  }

  /** After the first rename the other two features are still there and
      "summary" is a column exactly when it was before. */
  lemma FirstRenamed(t: Dataset, a: Dataset)
    requires Names(RequiredFeatures) <= Names(t.columns) && "title" !in t.columns
    requires Names(a.columns) == Names(t.columns) - {"transcript_standardized"} + {"text"}
    ensures "summary" in a.columns <==> "summary" in t.columns
    ensures "description_standardized" in a.columns && "title_standardized" in a.columns
    ensures "title" !in a.columns
  {
    NameLiterals();
    assert "summary" in Names(a.columns) <==> "summary" in Names(t.columns);
    assert "description_standardized" in Names(a.columns);
    assert "title_standardized" in Names(a.columns);
    assert "title" !in Names(a.columns);
  }

  /** After the second rename the title feature is still there and
      "title" is still free. */
  lemma SecondRenamed(a: Dataset, b: Dataset)
    requires WellFormed(a) && "title_standardized" in a.columns && "title" !in a.columns
    requires RenameColumn(a, "description_standardized", "summary") == Ok(b)
    ensures WellFormed(b) && "title_standardized" in b.columns && "title" !in b.columns
  {
    assert "title_standardized" in Names(b.columns);
    assert "title" !in Names(b.columns);
  }

  /** The three renames act row by row. */
  lemma RenamedRows(t: Dataset, a: Dataset, b: Dataset, c: Dataset)
    requires WellFormed(t) && Names(RequiredFeatures) <= Names(t.columns)
    requires RenameColumn(t, "transcript_standardized", "text") == Ok(a)
    requires RenameColumn(a, "description_standardized", "summary") == Ok(b)
    requires RenameColumn(b, "title_standardized", "title") == Ok(c)
    ensures |c.rows| == |t.rows|
    ensures forall n :: 0 <= n < |t.rows| ==>
      Names(RequiredFeatures) <= t.rows[n].Keys && c.rows[n] == RenameRow(t.rows[n])
  {
    forall n | 0 <= n < |t.rows|
      ensures Names(RequiredFeatures) <= t.rows[n].Keys && c.rows[n] == RenameRow(t.rows[n])
    {
      assert t.rows[n].Keys == Names(t.columns);
      assert a.rows[n] == RenameKey(t.rows[n], "transcript_standardized", "text");
      assert b.rows[n] == RenameKey(a.rows[n], "description_standardized", "summary");
    }
  }

  /** The column names after the three renames. */
  lemma RenamedNames(d: set<string>, a: set<string>, b: set<string>, c: set<string>)
    requires a == d - {"transcript_standardized"} + {"text"}
    requires b == a - {"description_standardized"} + {"summary"}
    requires c == b - {"title_standardized"} + {"title"}
    ensures c == d - Names(RequiredFeatures) + CanonicalNames
  {
    NameLiterals();
  }

  /** The two parts `train_test_split(test_size=pct/100)` returns. */
  datatype SplitPair = SplitPair(train: seq<Row<Value>>, test: seq<Row<Value>>)

  /** The library's random split of a non-empty row list, called with the
      test percentage. */
  type Splitter = (seq<Row<Value>>, nat) -> SplitPair

  /** The split partitions its input: every row lands in exactly one part. */
  ghost predicate Partitions(split: Splitter) {
    forall rows, pct {:trigger split(rows, pct)} ::
      multiset(split(rows, pct).train) + multiset(split(rows, pct).test) == multiset(rows)
  }

  /** The library's part sizes: `ceil(pct/100 * n)` test rows, the rest train. */
  function TestSize(n: nat, pct: nat): nat {
    (pct * n + 99) / 100
  }

  /** The split gives its parts the library's sizes. */
  ghost predicate SizedAsLibrary(split: Splitter) {
    forall rows, pct {:trigger split(rows, pct)} ::
      TestSize(|rows|, pct) <= |rows| ==>
        && |split(rows, pct).test| == TestSize(|rows|, pct)
        && |split(rows, pct).train| == |rows| - TestSize(|rows|, pct)
  }

  /** `train_test_split` raises when its train part would be empty, which
      happens when the test part takes every row of a non-empty input. */
  predicate TrainWouldBeEmpty(n: nat, pct: nat) {
    n > 0 && TestSize(n, pct) >= n
  }

  const TestPercent: nat := 20
  const ValidationPercent: nat := 10

  /** `train_test_split(test_size=pct/100)`: an empty input returns two
      empty parts, an input the train part would get nothing of raises, and
      otherwise the splitter divides the rows. */
  function TrainTestSplit(rows: seq<Row<Value>>, pct: nat, split: Splitter): (r: Result<SplitPair>)
    ensures r.Err? <==> TrainWouldBeEmpty(|rows|, pct)
    ensures r.Err? ==> r.error == EmptyTrainPart(|rows|, pct)
    ensures rows == [] ==> r == Ok(SplitPair([], []))
    ensures rows != [] && r.Ok? ==> r.value == split(rows, pct)
    ensures r.Ok? && Partitions(split) ==> multiset(r.value.train) + multiset(r.value.test) == multiset(rows)
  {
    if rows == [] then Ok(SplitPair([], []))
    else if TestSize(|rows|, pct) >= |rows| then Err(EmptyTrainPart(|rows|, pct))
    else Ok(split(rows, pct))
  }

  /** With the test shares used here, a split fails on exactly one row. */
  lemma TrainEmptyOnlyOnOneRow(n: nat)
    ensures TrainWouldBeEmpty(n, TestPercent) <==> n == 1
    ensures TrainWouldBeEmpty(n, ValidationPercent) <==> n == 1
  {
    if n >= 2 {
      assert TestPercent * n + 99 < 100 * n;
      assert ValidationPercent * n + 99 < 100 * n;
    }
  }

  /** The two-stage split of lines 47-59: test is carved from all rows
      first, and train and validation share out only what remains; the
      result has exactly the keys `train`, `validation` and `test`. Either
      stage raises when its train part would be empty. */
  function SplitThree(all: Dataset, split: Splitter): (r: Result<DatasetDict>)
    ensures var first := TrainTestSplit(all.rows, TestPercent, split);
      r.Err? <==> first.Err? || TrainWouldBeEmpty(|first.value.train|, ValidationPercent)
    ensures r.Ok? ==>
      var first := TrainTestSplit(all.rows, TestPercent, split).value;
      && SplitNames(r.value) == ["train", "validation", "test"]
      && (forall i :: 0 <= i < |r.value| ==> r.value[i].data.columns == all.columns)
      && r.value[2].data.rows == first.test
      && (Partitions(split) ==>
            && multiset(r.value[0].data.rows) + multiset(r.value[1].data.rows) == multiset(first.train)
            && multiset(r.value[0].data.rows) + multiset(r.value[1].data.rows) + multiset(r.value[2].data.rows)
                 == multiset(all.rows))
  {
    var first :- TrainTestSplit(all.rows, TestPercent, split);
    var second :- TrainTestSplit(first.train, ValidationPercent, split);
    var d := [ NamedSplit("train", Table(all.columns, second.train)),
               NamedSplit("validation", Table(all.columns, second.test)),
               NamedSplit("test", Table(all.columns, first.test)) ];
    assert SplitNames(d) == ["train", "validation", "test"];
    Ok(d)
  }

  /** With the library's part sizes, the two-stage split fails exactly on a
      dataset of one or two rows: one row leaves the first train part
      empty, and two rows leave one row for the second split. */
  lemma SplitThreeFailsOnTinyInputs(all: Dataset, split: Splitter)
    requires SizedAsLibrary(split)
    ensures SplitThree(all, split).Err? <==> |all.rows| == 1 || |all.rows| == 2
  {
    var n := |all.rows|;
    TrainEmptyOnlyOnOneRow(n);
    var first := TrainTestSplit(all.rows, TestPercent, split);
    if first.Ok? && n > 0 {
      assert TestSize(n, TestPercent) <= n;
      assert |first.value.train| == n - TestSize(n, TestPercent);
      TrainEmptyOnlyOnOneRow(|first.value.train|);
      if n >= 3 {
        assert TestPercent * n + 99 < 100 * (n - 1);
      }
    }
  }

  /** `load_data_into_DatasetDict`: the schema gate, drop and renames, then
      the two-stage split of the canonical table. */
  function LoadDatasetDict(loaded: Dataset, split: Splitter): (r: Result<DatasetDict>)
    requires WellFormed(loaded)
    ensures Canonicalize(loaded).Err? ==> r == Err(Canonicalize(loaded).error)
    ensures Canonicalize(loaded).Ok? ==> r == SplitThree(Canonicalize(loaded).value, split)
  {
    match Canonicalize(loaded)
    case Err(e) => Err(e)
    case Ok(all) => SplitThree(all, split)
  }

  /** With a splitter sized as the library sizes its parts, a table that
      passes the schema gate fails to load exactly when it has one or two
      rows. */
  lemma LoadFailsOnTinyInputs(loaded: Dataset, split: Splitter)
    requires WellFormed(loaded)
    requires SizedAsLibrary(split)
    requires Canonicalize(loaded).Ok?
    ensures LoadDatasetDict(loaded, split).Err? <==> |loaded.rows| == 1 || |loaded.rows| == 2
  {
    SplitThreeFailsOnTinyInputs(Canonicalize(loaded).value, split);
  }

  // ---------------------------------------------------------------------
  // Encoding one batch

  /** A batch field: one value (an unbatched example) or one value per row
      (a batch). */
  datatype Field = Scalar(value: Value) | Column(values: seq<Value>)

  /** The mapping the encoder receives: its keys in order and their fields. */
  datatype Batch = Batch(keys: seq<string>, fields: map<string, Field>)

  /** The `labels` of an encoding: a flat id list for a single summary, one
      padded row per summary for a list of them. */
  datatype Labels = FlatLabels(ids: seq<int>) | BatchLabels(rows: seq<seq<int>>)

  datatype ModelInputs = ModelInputs(inputIds: seq<seq<int>>, attentionMask: seq<seq<int>>, labels: Labels)

  /** The configured input prefix and the pretrained tokenizer. */
  datatype Preprocessor = Preprocessor(prefix: string, tok: Tokenizer)

  const InputCap: nat := 1024
  const LabelCap: nat := 128

  predicate AllText(vs: seq<Value>) {
    forall i :: 0 <= i < |vs| ==> vs[i].Text?
  }

  function Texts(vs: seq<Value>): (ts: seq<string>)
    requires AllText(vs)
    ensures |ts| == |vs| && forall i :: 0 <= i < |vs| ==> ts[i] == vs[i].s
  {
    seq(|vs|, i requires 0 <= i < |vs| => vs[i].s)
  }

  /** What `for doc in batch[key]` iterates over: the strings of a column, or
      the one-character strings of a single string (iterating a `str`
      yields its characters). An empty list iterates to nothing; anything
      else makes `prefix + doc` fail. */
  function Documents(f: Field, key: string): (r: Result<seq<string>>)
    ensures f.Column? ==> (r.Ok? <==> AllText(f.values))
    ensures f.Column? && r.Ok? ==> r.value == Texts(f.values)
    ensures f.Scalar? && f.value.Text? ==>
      && r.Ok? && |r.value| == |f.value.s|
      && forall i :: 0 <= i < |f.value.s| ==> r.value[i] == [f.value.s[i]]
    ensures r.Err? ==> r.error == NotText(key)
  {
    match f
    case Column(vs) => if AllText(vs) then Ok(Texts(vs)) else Err(NotText(key))
    case Scalar(Text(s)) => Ok(seq(|s|, i requires 0 <= i < |s| => [s[i]]))
    case Scalar(Ints(ids)) => if ids == [] then Ok([]) else Err(NotText(key))
    case Scalar(IntRows(rows)) => if rows == [] then Ok([]) else Err(NotText(key))
    case Scalar(Null) => Err(NotText(key))
  }

  /** `tokenizer(text_target=summary, padding=True, max_length=128,
      truncation=True)["input_ids"]`: a single string encodes flat and
      unpadded, a list of strings as a padded batch. */
  function EncodeLabels(tok: Tokenizer, f: Field): (r: Result<Labels>)
    ensures f.Scalar? && f.value.Text? ==> r == Ok(FlatLabels(tok.encode(f.value.s, LabelCap)))
    ensures f.Column? ==> (r.Ok? <==> AllText(f.values))
    ensures f.Column? && r.Ok? ==> && r.value.BatchLabels?
                                   && r.value.rows == EncodeBatch(tok, Texts(f.values), LabelCap).inputIds
    ensures r.Err? ==> r.error == NotText("summary")
  {
    match f
    case Column(vs) =>
      if AllText(vs) then Ok(BatchLabels(EncodeBatch(tok, Texts(vs), LabelCap).inputIds))
      else Err(NotText("summary"))
    case Scalar(Text(s)) => Ok(FlatLabels(tok.encode(s, LabelCap)))
    case Scalar(Ints(ids)) => if ids == [] then Ok(BatchLabels([])) else Err(NotText("summary"))
    case Scalar(IntRows(rows)) => if rows == [] then Ok(BatchLabels([])) else Err(NotText("summary"))
    case Scalar(Null) => Err(NotText("summary"))
  }

  /** `_preprocess_single_split`: fails listing the batch's keys when `text`
      or `summary` is missing; otherwise encodes `prefix + doc` for every
      document in order (capped at 1024), takes `labels` from the summary
      encoding (capped at 128), and fails on the first field that is not
      text. */
  function PreprocessSingle(p: Preprocessor, b: Batch): (r: Result<ModelInputs>)
    ensures "text" !in b.fields || "summary" !in b.fields ==> r == Err(BatchKeysMissing(b.keys))
    ensures "text" in b.fields && "summary" in b.fields ==>
      && (Documents(b.fields["text"], "text").Err? ==> r == Err(NotText("text")))
      && (r.Ok? <==> Documents(b.fields["text"], "text").Ok? && EncodeLabels(p.tok, b.fields["summary"]).Ok?)
      && (r.Ok? ==> r.value.labels == EncodeLabels(p.tok, b.fields["summary"]).value)
    ensures r.Ok? ==>
      var docs := Documents(b.fields["text"], "text").value;
      && |r.value.inputIds| == |docs| && |r.value.attentionMask| == |docs|
      && forall i :: 0 <= i < |docs| ==>
           var enc := p.tok.encode(p.prefix + docs[i], InputCap);
           && |r.value.inputIds[i]| == |r.value.attentionMask[i]|
           && Strip(r.value.inputIds[i], r.value.attentionMask[i]) == enc
           && |enc| <= |r.value.inputIds[i]| && r.value.inputIds[i][..|enc|] == enc
           && PaddedAfter(r.value.inputIds[i], |enc|, p.tok.padId)
           && MaskMarks(r.value.attentionMask[i], |enc|)
           && (HonoursCap(p.tok) ==> |r.value.inputIds[i]| <= InputCap)
  {
    if "text" !in b.fields || "summary" !in b.fields then Err(BatchKeysMissing(b.keys))
    else
      var docs :- Documents(b.fields["text"], "text");
      var inputs := seq(|docs|, i requires 0 <= i < |docs| => p.prefix + docs[i]);
      var enc := EncodeBatch(p.tok, inputs, InputCap);
      var labels :- EncodeLabels(p.tok, b.fields["summary"]);
      Ok(ModelInputs(enc.inputIds, enc.attentionMask, labels))
  }

  /** Under truncation, no label row is longer than 128. */
  lemma LabelsWithinCap(tok: Tokenizer, f: Field)
    requires HonoursCap(tok) && EncodeLabels(tok, f).Ok?
    ensures match EncodeLabels(tok, f).value
      case FlatLabels(ids) => |ids| <= LabelCap
      case BatchLabels(rows) => forall i :: 0 <= i < |rows| ==> |rows[i]| <= LabelCap
  {
    if f.Scalar? && f.value.Text? {
      assert |tok.encode(f.value.s, LabelCap)| <= LabelCap;
    }
  }

  // ---------------------------------------------------------------------
  // Mapping the encoder over the splits

  const EncodedColumns: seq<string> := ["input_ids", "attention_mask", "labels"]

  /** The columns of a split after the encoder's outputs are added. */
  function EncodedColumnsOf(columns: seq<string>): (r: seq<string>)
    ensures Names(r) == Names(columns) + Names(EncodedColumns)
    ensures Distinct(columns) ==> Distinct(r)
  {
    var added := Without(EncodedColumns, Names(columns));
    assert Distinct(EncodedColumns);
    var r := columns + added;
    assert Names(r) == Names(columns) + Names(EncodedColumns);
    assert Distinct(columns) ==> Distinct(r) by {
      if Distinct(columns) {
        forall i, j | 0 <= i < j < |r| ensures r[i] != r[j] {
          if j >= |columns| && i < |columns| {
            assert r[j] in added;
          }
        }
      }
    }
    r
  }

  /** One row as an unbatched `map` hands it to the encoder. */
  function RowBatch(columns: seq<string>, row: Row<Value>): Batch {
    Batch(columns, map c | c in row :: Scalar(row[c]))
  }

  function LabelValue(l: Labels): Value {
    match l
    case FlatLabels(ids) => Ints(ids)
    case BatchLabels(rows) => IntRows(rows)
  }

  /** An unbatched `map` stores the encoder's whole output in the row. */
  function WithEncoding(row: Row<Value>, mi: ModelInputs): (out: Row<Value>)
    ensures out.Keys == row.Keys + Names(EncodedColumns)
    ensures forall c :: c in row && c !in Names(EncodedColumns) ==> out[c] == row[c]
  {
    row["input_ids" := IntRows(mi.inputIds)]["attention_mask" := IntRows(mi.attentionMask)]["labels" := LabelValue(mi.labels)]
  }

  /** One row through the encoder, its output stored in the row. */
  function UnbatchedRow(p: Preprocessor, columns: seq<string>, row: Row<Value>): (r: Result<Row<Value>>)
    ensures r.Ok? ==> && r.value.Keys == row.Keys + Names(EncodedColumns)
                      && forall c :: c in row && c !in Names(EncodedColumns) ==> r.value[c] == row[c]
  {
    var mi :- PreprocessSingle(p, RowBatch(columns, row));
    Ok(WithEncoding(row, mi))
  }

  /** Maps a per-row function over rows in order, the first failure
      aborting the map. */
  function MapRows(rows: seq<Row<Value>>, f: Row<Value> -> Result<Row<Value>>): (r: Result<seq<Row<Value>>>)
    ensures r.Ok? <==> forall n :: 0 <= n < |rows| ==> f(rows[n]).Ok?
    ensures r.Ok? ==> && |r.value| == |rows|
                      && forall n :: 0 <= n < |rows| ==> r.value[n] == f(rows[n]).value
  {
    if rows == [] then Ok([])
    else
      var head :- f(rows[0]);
      var rest :- MapRows(rows[1..], f);
      assert forall n :: 1 <= n < |rows| ==> rows[n] == rows[1..][n - 1];
      Ok([head] + rest)
  }

  /** `dataset[split].map(self._preprocess_single_split)` over the rows of a
      split, without `batched=True`: one encoder call per row, the first
      failure aborting the map. */
  function MapUnbatched(p: Preprocessor, columns: seq<string>, rows: seq<Row<Value>>): (r: Result<seq<Row<Value>>>)
    ensures r.Ok? <==> forall n :: 0 <= n < |rows| ==> UnbatchedRow(p, columns, rows[n]).Ok?
    ensures r.Ok? ==> && |r.value| == |rows|
                      && forall n :: 0 <= n < |rows| ==> r.value[n] == UnbatchedRow(p, columns, rows[n]).value
  {
    MapRows(rows, row => UnbatchedRow(p, columns, row))
  }

  /** One split through the unbatched map; a map over no rows returns the
      split unchanged. */
  function SplitUnbatched(p: Preprocessor, t: Dataset): (r: Result<Dataset>)
    requires WellFormed(t)
    ensures |t.rows| == 0 ==> r == Ok(t)
    ensures r.Ok? ==> WellFormed(r.value) && |r.value.rows| == |t.rows|
    ensures |t.rows| > 0 ==> (r.Ok? <==> MapUnbatched(p, t.columns, t.rows).Ok?)
    ensures |t.rows| > 0 && r.Ok? ==> && r.value.columns == EncodedColumnsOf(t.columns)
                                      && r.value.rows == MapUnbatched(p, t.columns, t.rows).value
  {
    if |t.rows| == 0 then Ok(t)
    else
      var rows :- MapUnbatched(p, t.columns, t.rows);
      UnbatchedWellFormed(p, t, rows);
      Ok(Table(EncodedColumnsOf(t.columns), rows))
  }

  /** Every row of an unbatched map has the split's columns plus the
      encoder's. */
  lemma UnbatchedWellFormed(p: Preprocessor, t: Dataset, rows: seq<Row<Value>>)
    requires WellFormed(t) && MapUnbatched(p, t.columns, t.rows) == Ok(rows)
    ensures WellFormed(Table(EncodedColumnsOf(t.columns), rows))
  {
    var columns := EncodedColumnsOf(t.columns);
    forall n | 0 <= n < |rows| ensures rows[n].Keys == Names(columns) {
      assert rows[n] == UnbatchedRow(p, t.columns, t.rows[n]).value;
    }
  }

  datatype Data = DictOf(splits: DatasetDict) | BatchOf(batch: Batch)

  datatype Processed = ProcessedSplits(splits: DatasetDict) | ProcessedBatch(inputs: ModelInputs)

  /** Maps a per-split function over a split dictionary in order, failing at
      the first split that fails; names stay as they are. */
  function MapSplits(d: DatasetDict, f: Dataset --> Result<Dataset>): (r: Result<DatasetDict>)
    requires forall i :: 0 <= i < |d| ==> f.requires(d[i].data)
    ensures r.Ok? <==> forall i :: 0 <= i < |d| ==> f(d[i].data).Ok?
    ensures r.Ok? ==> && SplitNames(r.value) == SplitNames(d)
                      && forall i :: 0 <= i < |d| ==> r.value[i].data == f(d[i].data).value
  {
    var i := FirstFailing(d, f);
    if i < |d| then Err(f(d[i].data).error)
    else
      var out := seq(|d|, k requires 0 <= k < |d| => NamedSplit(d[k].name, f(d[k].data).value));
      assert SplitNames(out) == SplitNames(d);
      Ok(out)
  }

  /** Index of the first split `f` fails on, or the number of splits. */
  function FirstFailing(d: DatasetDict, f: Dataset --> Result<Dataset>): (i: nat)
    requires forall k :: 0 <= k < |d| ==> f.requires(d[k].data)
    ensures i <= |d|
    ensures forall k :: 0 <= k < i ==> f(d[k].data).Ok?
    ensures i < |d| ==> f(d[i].data).Err?
  {
    if d == [] then 0
    else if f(d[0].data).Err? then 0
    else
      var rest := FirstFailing(d[1..], f);
      assert forall k :: 1 <= k < |d| ==> d[k] == d[1..][k - 1];
      1 + rest
  }

  /** What a loop that assigns into the dictionary it was given leaves
      behind: the call's result, and the argument as the caller sees it
      afterwards, with its splits replaced up to the one that failed. */
  datatype InPlace = InPlace(result: Result<DatasetDict>, argument: DatasetDict)

  /** `for split in d: d[split] = f(d[split])` from split `i` on, `d` being
      the dictionary as updated so far: splits before `i` are already
      replaced, the rest are replaced in order until `f` fails on one. On
      success the result is the argument itself. */
  function UpdateFrom(d: DatasetDict, i: nat, f: NamedSplit --> Result<Dataset>): (s: InPlace)
    requires i <= |d|
    requires forall j :: i <= j < |d| ==> f.requires(d[j])
    ensures SplitNames(s.argument) == SplitNames(d)
    ensures forall j :: 0 <= j < i ==> s.argument[j] == d[j]
    ensures s.result.Ok? ==> s.result.value == s.argument
    ensures s.result.Ok? <==> forall j :: i <= j < |d| ==> f(d[j]).Ok?
    ensures s.result.Ok? ==> forall j :: i <= j < |d| ==> s.argument[j].data == f(d[j]).value
    ensures s.result.Err? ==> exists j :: i <= j < |d| && StopsAt(d, i, j, f, s.result.error, s.argument)
    decreases |d| - i
  {
    if i == |d| then InPlace(Ok(d), d)
    else
      var r := f(d[i]);
      if r.Err? then
        assert StopsAt(d, i, i, f, r.error, d);
        InPlace(Err(r.error), d)
      else
        var next := d[i := NamedSplit(d[i].name, r.value)];
        assert SplitNames(next) == SplitNames(d);
        assert forall j :: i < j < |d| ==> next[j] == d[j];
        var s := UpdateFrom(next, i + 1, f);
        assert s.argument[i] == next[i];
        assert s.result.Err? ==> exists j :: i <= j < |d| && StopsAt(d, i, j, f, s.result.error, s.argument) by {
          if s.result.Err? {
            var j :| i + 1 <= j < |next| && StopsAt(next, i + 1, j, f, s.result.error, s.argument);
            StopsLater(d, i, j, f, s.result.error, s.argument);
          }
        }
        s
  }

  /** The update from split `i` on stopped at split `j`: it is the first
      split `f` fails on, the error is `f`'s, the splits from `i` up to it
      are replaced in the argument and the rest are untouched. */
  ghost predicate StopsAt(d: DatasetDict, i: nat, j: nat, f: NamedSplit --> Result<Dataset>,
                          error: Error, argument: DatasetDict)
    requires i <= j < |d| && |argument| == |d|
    requires forall m :: i <= m < |d| ==> f.requires(d[m])
  {
    && f(d[j]).Err?
    && error == f(d[j]).error
    && (forall m :: i <= m < j ==> f(d[m]).Ok? && argument[m].data == f(d[m]).value)
    && (forall m :: j <= m < |d| ==> argument[m] == d[m])
  }

  /** A stop after split `i` was replaced is a stop from `i` on. */
  lemma StopsLater(d: DatasetDict, i: nat, j: nat, f: NamedSplit --> Result<Dataset>,
                   error: Error, argument: DatasetDict)
    requires i < j < |d| && |argument| == |d|
    requires forall m :: i <= m < |d| ==> f.requires(d[m])
    requires f(d[i]).Ok? && argument[i].data == f(d[i]).value
    requires StopsAt(d[i := NamedSplit(d[i].name, f(d[i]).value)], i + 1, j, f, error, argument)
    ensures StopsAt(d, i, j, f, error, argument)
  {
    var next := d[i := NamedSplit(d[i].name, f(d[i]).value)];
    assert forall m :: i < m < |d| ==> next[m] == d[m];
  }

  /** The unbatched `map` of one named split. */
  function Unbatched(p: Preprocessor): NamedSplit --> Result<Dataset> {
    (split: NamedSplit) requires WellFormed(split.data) => SplitUnbatched(p, split.data)
  }

  /** The call's result and its argument afterwards. */
  datatype Preprocessing = Preprocessing(result: Result<Processed>, argument: Data)

  /** `preprocess_function` as written: every split of a split dictionary
      is mapped WITHOUT `batched=True`, so every row's `text` reaches the
      encoder as one string, and the mapped split is assigned back into the
      caller's dictionary before the next split is mapped, so a failure
      leaves the earlier splits replaced. Anything else is treated as one
      batch and left as it is. */
  function PreprocessFunction(p: Preprocessor, data: Data): (c: Preprocessing)
    requires data.DictOf? ==> WellFormedDict(data.splits)
    ensures data.BatchOf? ==> c.argument == data
    ensures data.BatchOf? ==> (c.result.Ok? <==> PreprocessSingle(p, data.batch).Ok?)
    ensures data.BatchOf? && c.result.Ok? ==> c.result.value == ProcessedBatch(PreprocessSingle(p, data.batch).value)
    ensures data.DictOf? ==> c.argument.DictOf? && SplitNames(c.argument.splits) == SplitNames(data.splits)
    ensures data.DictOf? ==> (c.result.Ok? <==>
      forall i :: 0 <= i < |data.splits| ==> SplitUnbatched(p, data.splits[i].data).Ok?)
    ensures data.DictOf? && c.result.Ok? ==>
      && c.result.value == ProcessedSplits(c.argument.splits)
      && WellFormedDict(c.argument.splits)
      && forall i :: 0 <= i < |data.splits| ==>
           c.argument.splits[i].data == SplitUnbatched(p, data.splits[i].data).value
    ensures data.DictOf? && c.result.Err? ==>
      exists j :: 0 <= j < |data.splits| && StopsAt(data.splits, 0, j, Unbatched(p), c.result.error, c.argument.splits)
  {
    match data
    case BatchOf(b) =>
      Preprocessing(match PreprocessSingle(p, b) case Ok(mi) => Ok(ProcessedBatch(mi)) case Err(e) => Err(e), data)
    case DictOf(d) =>
      var s := UpdateFrom(d, 0, Unbatched(p));
      match s.result
      case Err(e) => Preprocessing(Err(e), DictOf(s.argument))
      case Ok(splits) =>
        assert WellFormedDict(splits) by {
          forall i | 0 <= i < |d| ensures WellFormed(splits[i].data) {
            assert splits[i].data == Unbatched(p)(d[i]).value;
          }
        }
        Preprocessing(Ok(ProcessedSplits(splits)), DictOf(s.argument))
  }

  /** The discrepancy: a row whose text is a string of `k` characters gets
      `k` encodings, one per character, instead of one for the document. */
  lemma UnbatchedEncodesCharacters(p: Preprocessor, columns: seq<string>, rows: seq<Row<Value>>, n: nat)
    requires n < |rows| && "text" in rows[n] && rows[n]["text"].Text?
    ensures MapUnbatched(p, columns, rows).Ok? ==>
      var out := MapUnbatched(p, columns, rows).value[n];
      var text := rows[n]["text"].s;
      && "input_ids" in out && out["input_ids"].IntRows?
      && "attention_mask" in out && out["attention_mask"].IntRows?
      && |out["input_ids"].rows| == |text| == |out["attention_mask"].rows|
      && forall k :: 0 <= k < |text| ==>
           && |out["input_ids"].rows[k]| == |out["attention_mask"].rows[k]|
           && Strip(out["input_ids"].rows[k], out["attention_mask"].rows[k])
                == p.tok.encode(p.prefix + [text[k]], InputCap)
  {
    if MapUnbatched(p, columns, rows).Ok? {
      assert MapUnbatched(p, columns, rows).value[n] == UnbatchedRow(p, columns, rows[n]).value;
      RowEncodesCharacters(p, columns, rows[n]);
    }
  }

  /** `UnbatchedEncodesCharacters` for one row. */
  lemma RowEncodesCharacters(p: Preprocessor, columns: seq<string>, row: Row<Value>)
    requires "text" in row && row["text"].Text?
    requires UnbatchedRow(p, columns, row).Ok?
    ensures var out := UnbatchedRow(p, columns, row).value;
      var text := row["text"].s;
      && "input_ids" in out && out["input_ids"].IntRows?
      && "attention_mask" in out && out["attention_mask"].IntRows?
      && |out["input_ids"].rows| == |text| == |out["attention_mask"].rows|
      && forall k :: 0 <= k < |text| ==>
           && |out["input_ids"].rows[k]| == |out["attention_mask"].rows[k]|
           && Strip(out["input_ids"].rows[k], out["attention_mask"].rows[k])
                == p.tok.encode(p.prefix + [text[k]], InputCap)
  {
    var b := RowBatch(columns, row);
    assert b.fields["text"] == Scalar(row["text"]);
    var mi := PreprocessSingle(p, b).value;
    var out := UnbatchedRow(p, columns, row).value;
    assert out == WithEncoding(row, mi);
    assert out["input_ids"] == IntRows(mi.inputIds);
    assert out["attention_mask"] == IntRows(mi.attentionMask);
  }

  /** A concrete witness: the two-character document "ab" yields two
      encodings under the map as written. */
  lemma TwoCharactersTwoEncodings(p: Preprocessor)
    ensures var row := map["text" := Text("ab"), "summary" := Text("s")];
      && MapUnbatched(p, ["text", "summary"], [row]).Ok?
      && |MapUnbatched(p, ["text", "summary"], [row]).value[0]["input_ids"].rows| == 2
  {
    var row := map["text" := Text("ab"), "summary" := Text("s")];
    var b := RowBatch(["text", "summary"], row);
    assert b.fields["text"] == Scalar(Text("ab"));
    assert b.fields["summary"] == Scalar(Text("s"));
    assert PreprocessSingle(p, b).Ok?;
    UnbatchedEncodesCharacters(p, ["text", "summary"], [row], 0);
  }

  // The corrected map: batches of rows, each field a column.

  /** A batch of rows as a batched `map` hands it to the encoder. */
  function ColumnBatch(columns: seq<string>, rows: seq<Row<Value>>): Batch {
    Batch(columns, map c | c in columns ::
      Column(seq(|rows|, k requires 0 <= k < |rows| => if c in rows[k] then rows[k][c] else Null)))
  }

  /** A row of the batched result: its own text encoded and padded on the
      right with the pad id (the mask is 1 on exactly the real tokens and 0
      on the padding), its own summary's encoding as `labels` padded with
      the pad id, and every other column kept. */
  predicate Encoded(p: Preprocessor, row: Row<Value>, out: Row<Value>) {
    && "text" in row && row["text"].Text? && "summary" in row && row["summary"].Text?
    && out.Keys == row.Keys + Names(EncodedColumns)
    && (forall c :: c in row && c !in Names(EncodedColumns) ==> out[c] == row[c])
    && out["input_ids"].Ints? && out["attention_mask"].Ints? && out["labels"].Ints?
    && var ids, mask, labels := out["input_ids"].ids, out["attention_mask"].ids, out["labels"].ids;
       var enc := p.tok.encode(p.prefix + row["text"].s, InputCap);
       var lab := p.tok.encode(row["summary"].s, LabelCap);
       && |ids| == |mask| && Strip(ids, mask) == enc && |enc| <= |ids| && ids[..|enc|] == enc
       && PaddedAfter(ids, |enc|, p.tok.padId) && MaskMarks(mask, |enc|)
       && |lab| <= |labels| && labels[..|lab|] == lab
       && PaddedAfter(labels, |lab|, p.tok.padId)
  }

  /** Both encodings of a batched row respect their caps. */
  predicate WithinCaps(out: Row<Value>) {
    && ("input_ids" in out && out["input_ids"].Ints? ==> |out["input_ids"].ids| <= InputCap)
    && ("labels" in out && out["labels"].Ints? ==> |out["labels"].ids| <= LabelCap)
  }

  predicate RowsReady(rows: seq<Row<Value>>) {
    forall n :: 0 <= n < |rows| ==>
      "text" in rows[n] && rows[n]["text"].Text? && "summary" in rows[n] && rows[n]["summary"].Text?
  }

  /** `out` is `rows` with every row encoded. */
  predicate AllEncoded(p: Preprocessor, rows: seq<Row<Value>>, out: seq<Row<Value>>) {
    |out| == |rows| && forall n :: 0 <= n < |rows| ==> Encoded(p, rows[n], out[n])
  }

  predicate AllWithinCaps(out: seq<Row<Value>>) {
    forall n :: 0 <= n < |out| ==> WithinCaps(out[n])
  }

  /** Row `k` of a batch with the batch's `k`-th encodings stored in it. */
  function BatchedRow(row: Row<Value>, mi: ModelInputs, k: nat): Row<Value>
    requires mi.labels.BatchLabels? && k < |mi.inputIds| && k < |mi.attentionMask| && k < |mi.labels.rows|
  {
    row["input_ids" := Ints(mi.inputIds[k])]["attention_mask" := Ints(mi.attentionMask[k])]
       ["labels" := Ints(mi.labels.rows[k])]
  }

  /** One batch of a batched `map`: every row gets its own encoding. */
  function EncodeChunk(p: Preprocessor, columns: seq<string>, rows: seq<Row<Value>>): (r: Result<seq<Row<Value>>>)
    requires forall n :: 0 <= n < |rows| ==> rows[n].Keys == Names(columns)
    ensures ("text" !in columns || "summary" !in columns) ==> r == Err(BatchKeysMissing(columns))
    ensures r.Ok? <==> "text" in columns && "summary" in columns && RowsReady(rows)
    ensures r.Ok? ==> AllEncoded(p, rows, r.value)
    ensures r.Ok? && HonoursCap(p.tok) ==> AllWithinCaps(r.value)
  {
    var b := ColumnBatch(columns, rows);
    if "text" in columns && "summary" in columns then
      ChunkFields(columns, rows);
      var mi :- PreprocessSingle(p, b);
      ChunkRows(p, columns, rows, mi);
      Ok(StoreEncodings(p, rows, mi))
    else
      Err(BatchKeysMissing(columns))
  }

  /** The batch's `k`-th encodings encode row `k`, for every row. */
  ghost predicate BatchEncodes(p: Preprocessor, rows: seq<Row<Value>>, mi: ModelInputs) {
    && mi.labels.BatchLabels?
    && |rows| <= |mi.inputIds| && |rows| <= |mi.attentionMask| && |rows| <= |mi.labels.rows|
    && forall n :: 0 <= n < |rows| ==>
         && Encoded(p, rows[n], BatchedRow(rows[n], mi, n))
         && (HonoursCap(p.tok) ==> WithinCaps(BatchedRow(rows[n], mi, n)))
  }

  /** The rows of a batch with the batch's encodings stored back row by row. */
  function StoreEncodings(p: Preprocessor, rows: seq<Row<Value>>, mi: ModelInputs): (out: seq<Row<Value>>)
    requires BatchEncodes(p, rows, mi)
    ensures AllEncoded(p, rows, out)
    ensures HonoursCap(p.tok) ==> AllWithinCaps(out)
  {
    seq(|rows|, k requires 0 <= k < |rows| => BatchedRow(rows[k], mi, k))
  }

  /** `ChunkRow` for every row of the batch. */
  lemma ChunkRows(p: Preprocessor, columns: seq<string>, rows: seq<Row<Value>>, mi: ModelInputs)
    requires forall k :: 0 <= k < |rows| ==> rows[k].Keys == Names(columns)
    requires "text" in columns && "summary" in columns
    requires PreprocessSingle(p, ColumnBatch(columns, rows)) == Ok(mi)
    ensures BatchEncodes(p, rows, mi)
  {
    if rows != [] {
      ChunkRow(p, columns, rows, mi, |rows| - 1);
    }
    forall n | 0 <= n < |rows|
      ensures && Encoded(p, rows[n], BatchedRow(rows[n], mi, n))
              && (HonoursCap(p.tok) ==> WithinCaps(BatchedRow(rows[n], mi, n)))
    {
      ChunkRow(p, columns, rows, mi, n);
    }
  }

  /** The `text` and `summary` fields of a batch are the rows' values, in
      order, and they are text exactly when every row's are. */
  lemma ChunkFields(columns: seq<string>, rows: seq<Row<Value>>)
    requires forall n :: 0 <= n < |rows| ==> rows[n].Keys == Names(columns)
    requires "text" in columns && "summary" in columns
    ensures "text" in Names(columns) && "summary" in Names(columns)
    ensures forall k :: 0 <= k < |rows| ==> "text" in rows[k] && "summary" in rows[k]
    ensures var b := ColumnBatch(columns, rows);
      && "text" in b.fields && "summary" in b.fields
      && b.fields["text"].Column? && b.fields["summary"].Column?
      && |b.fields["text"].values| == |rows| && |b.fields["summary"].values| == |rows|
      && (forall k :: 0 <= k < |rows| ==> b.fields["text"].values[k] == rows[k]["text"])
      && (forall k :: 0 <= k < |rows| ==> b.fields["summary"].values[k] == rows[k]["summary"])
      && (AllText(b.fields["text"].values) && AllText(b.fields["summary"].values) <==> RowsReady(rows))
  {
  }

  /** Row `n` of a batch's result carries row `n`'s own encodings. */
  lemma ChunkRow(p: Preprocessor, columns: seq<string>, rows: seq<Row<Value>>, mi: ModelInputs, n: nat)
    requires forall k :: 0 <= k < |rows| ==> rows[k].Keys == Names(columns)
    requires "text" in columns && "summary" in columns
    requires PreprocessSingle(p, ColumnBatch(columns, rows)) == Ok(mi)
    requires n < |rows|
    ensures mi.labels.BatchLabels? && n < |mi.inputIds| && n < |mi.attentionMask| && n < |mi.labels.rows|
    ensures Encoded(p, rows[n], BatchedRow(rows[n], mi, n))
    ensures HonoursCap(p.tok) ==> WithinCaps(BatchedRow(rows[n], mi, n))
  {
    ChunkInputs(p, columns, rows, mi, n);
    ChunkLabels(p, columns, rows, mi, n);
    EncodedFromParts(p, rows[n], mi.inputIds[n], mi.attentionMask[n], mi.labels.rows[n]);
  }

  /** A text row with encodings of its text and summary stored in it is
      `Encoded`. */
  lemma EncodedFromParts(p: Preprocessor, row: Row<Value>, ids: seq<int>, mask: seq<int>, labels: seq<int>)
    requires "text" in row && row["text"].Text? && "summary" in row && row["summary"].Text?
    requires var enc := p.tok.encode(p.prefix + row["text"].s, InputCap);
      && |ids| == |mask| && Strip(ids, mask) == enc && |enc| <= |ids| && ids[..|enc|] == enc
      && PaddedAfter(ids, |enc|, p.tok.padId) && MaskMarks(mask, |enc|)
    requires var lab := p.tok.encode(row["summary"].s, LabelCap);
      && |lab| <= |labels| && labels[..|lab|] == lab
      && PaddedAfter(labels, |lab|, p.tok.padId)
    ensures var out := row["input_ids" := Ints(ids)]["attention_mask" := Ints(mask)]["labels" := Ints(labels)];
      && Encoded(p, row, out)
      && (|ids| <= InputCap && |labels| <= LabelCap ==> WithinCaps(out))
  {
    var out := row["input_ids" := Ints(ids)]["attention_mask" := Ints(mask)]["labels" := Ints(labels)];
    assert Names(EncodedColumns) == {"input_ids", "attention_mask", "labels"};
    assert out.Keys == row.Keys + Names(EncodedColumns);
  }

  /** The input ids and mask of batch row `n` encode `prefix` plus row `n`'s text. */
  lemma ChunkInputs(p: Preprocessor, columns: seq<string>, rows: seq<Row<Value>>, mi: ModelInputs, n: nat)
    requires forall k :: 0 <= k < |rows| ==> rows[k].Keys == Names(columns)
    requires "text" in columns && "summary" in columns
    requires PreprocessSingle(p, ColumnBatch(columns, rows)) == Ok(mi)
    requires n < |rows|
    ensures "text" in rows[n] && rows[n]["text"].Text?
    ensures n < |mi.inputIds| && n < |mi.attentionMask|
    ensures var enc := p.tok.encode(p.prefix + rows[n]["text"].s, InputCap);
      && |mi.inputIds[n]| == |mi.attentionMask[n]|
      && Strip(mi.inputIds[n], mi.attentionMask[n]) == enc
      && |enc| <= |mi.inputIds[n]| && mi.inputIds[n][..|enc|] == enc
      && PaddedAfter(mi.inputIds[n], |enc|, p.tok.padId) && MaskMarks(mi.attentionMask[n], |enc|)
      && (HonoursCap(p.tok) ==> |mi.inputIds[n]| <= InputCap)
  {
    var b := ColumnBatch(columns, rows);
    ChunkFields(columns, rows);
    var docs := Documents(b.fields["text"], "text").value;
    assert docs == Texts(b.fields["text"].values);
    assert docs[n] == rows[n]["text"].s;
  }

  /** The labels of batch row `n` are row `n`'s summary encoding, padded. */
  lemma ChunkLabels(p: Preprocessor, columns: seq<string>, rows: seq<Row<Value>>, mi: ModelInputs, n: nat)
    requires forall k :: 0 <= k < |rows| ==> rows[k].Keys == Names(columns)
    requires "text" in columns && "summary" in columns
    requires PreprocessSingle(p, ColumnBatch(columns, rows)) == Ok(mi)
    requires n < |rows|
    ensures "summary" in rows[n] && rows[n]["summary"].Text?
    ensures mi.labels.BatchLabels? && n < |mi.labels.rows|
    ensures var lab := p.tok.encode(rows[n]["summary"].s, LabelCap);
      && |lab| <= |mi.labels.rows[n]| && mi.labels.rows[n][..|lab|] == lab
      && PaddedAfter(mi.labels.rows[n], |lab|, p.tok.padId)
      && (HonoursCap(p.tok) ==> |mi.labels.rows[n]| <= LabelCap)
  {
    var b := ColumnBatch(columns, rows);
    ChunkFields(columns, rows);
    var summaries := b.fields["summary"].values;
    assert Texts(summaries)[n] == rows[n]["summary"].s;
    assert mi.labels.rows == EncodeBatch(p.tok, Texts(summaries), LabelCap).inputIds;
  }

  lemma ReadySplit(rows: seq<Row<Value>>, k: nat)
    requires k <= |rows|
    ensures RowsReady(rows) <==> RowsReady(rows[..k]) && RowsReady(rows[k..])
  {
    assert forall n :: 0 <= n < k ==> rows[n] == rows[..k][n];
    assert forall n :: k <= n < |rows| ==> rows[n] == rows[k..][n - k];
  }

  lemma EncodedConcat(p: Preprocessor, rows: seq<Row<Value>>, k: nat, head: seq<Row<Value>>, tail: seq<Row<Value>>)
    requires k <= |rows|
    requires AllEncoded(p, rows[..k], head) && AllEncoded(p, rows[k..], tail)
    ensures AllEncoded(p, rows, head + tail)
  {
    forall n | 0 <= n < |rows| ensures Encoded(p, rows[n], (head + tail)[n]) {
      if n < k {
        assert rows[n] == rows[..k][n];
      } else {
        assert rows[n] == rows[k..][n - k];
      }
    }
  }

  lemma WithinConcat(head: seq<Row<Value>>, tail: seq<Row<Value>>)
    ensures AllWithinCaps(head) && AllWithinCaps(tail) ==> AllWithinCaps(head + tail)
  {
    if AllWithinCaps(head) && AllWithinCaps(tail) {
      forall n | 0 <= n < |head + tail| ensures WithinCaps((head + tail)[n]) {
        if n >= |head| {
          assert (head + tail)[n] == tail[n - |head|];
        }
      }
    }
  }

  /** `dataset[split].map(f, batched=True, batch_size=size)`: consecutive
      batches of `size` rows (the last one shorter), the first failing batch
      aborting the map. */
  function MapBatched(p: Preprocessor, columns: seq<string>, rows: seq<Row<Value>>, size: nat): (r: Result<seq<Row<Value>>>)
    requires size >= 1
    requires forall n :: 0 <= n < |rows| ==> rows[n].Keys == Names(columns)
    ensures r.Ok? <==> |rows| == 0 || ("text" in columns && "summary" in columns && RowsReady(rows))
    ensures |rows| > 0 && ("text" !in columns || "summary" !in columns) ==> r == Err(BatchKeysMissing(columns))
    decreases |rows|
  {
    if rows == [] then Ok([])
    else
      var k := if size < |rows| then size else |rows|;
      ReadySplit(rows, k);
      var head :- EncodeChunk(p, columns, rows[..k]);
      var tail :- MapBatched(p, columns, rows[k..], size);
      Ok(head + tail)
  }

  /** A successful batched map encodes every row with its own document,
      within the caps when the tokenizer truncates: each batch does so for
      its rows, and the batches' results are concatenated in order. */
  lemma {:induction false} BatchedEncodes(p: Preprocessor, columns: seq<string>, rows: seq<Row<Value>>, size: nat)
    requires size >= 1
    requires forall n :: 0 <= n < |rows| ==> rows[n].Keys == Names(columns)
    requires MapBatched(p, columns, rows, size).Ok?
    ensures AllEncoded(p, rows, MapBatched(p, columns, rows, size).value)
    ensures HonoursCap(p.tok) ==> AllWithinCaps(MapBatched(p, columns, rows, size).value)
    decreases |rows|
  {
    if rows != [] {
      var k := if size < |rows| then size else |rows|;
      var head := EncodeChunk(p, columns, rows[..k]).value;
      var tail := MapBatched(p, columns, rows[k..], size).value;
      assert MapBatched(p, columns, rows, size).value == head + tail;
      BatchedEncodes(p, columns, rows[k..], size);
      EncodedConcat(p, rows, k, head, tail);
      WithinConcat(head, tail);
    }
  }

  /** One split through the batched map. */
  function SplitBatched(p: Preprocessor, t: Dataset, size: nat): (r: Result<Dataset>)
    requires WellFormed(t) && size >= 1
    ensures |t.rows| == 0 ==> r == Ok(t)
    ensures r.Ok? <==> |t.rows| == 0 || ("text" in t.columns && "summary" in t.columns && RowsReady(t.rows))
    ensures r.Ok? ==> WellFormed(r.value) && AllEncoded(p, t.rows, r.value.rows)
    ensures |t.rows| > 0 && r.Ok? ==> r.value.columns == EncodedColumnsOf(t.columns)
    ensures r.Ok? && HonoursCap(p.tok) ==> AllWithinCaps(r.value.rows)
  {
    if |t.rows| == 0 then Ok(t)
    else
      var rows :- MapBatched(p, t.columns, t.rows, size);
      BatchedEncodes(p, t.columns, t.rows, size);
      var out := Table(EncodedColumnsOf(t.columns), rows);
      assert WellFormed(out) by {
        forall n | 0 <= n < |rows| ensures rows[n].Keys == Names(out.columns) {
          assert Encoded(p, t.rows[n], rows[n]);
        }
      }
      Ok(out)
  }

  /** The default batch size of a batched `map`. */
  const DefaultBatchSize: nat := 1000

  /** `preprocess_function` as evidently intended: a split dictionary is
      mapped with `batched=True`, so each row gets exactly one encoding of
      its own document, within the caps when the tokenizer truncates. */
  function PreprocessSplits(p: Preprocessor, d: DatasetDict, size: nat): (r: Result<DatasetDict>)
    requires WellFormedDict(d) && size >= 1
    ensures r.Ok? <==> forall i :: 0 <= i < |d| ==>
      |d[i].data.rows| == 0 || ("text" in d[i].data.columns && "summary" in d[i].data.columns && RowsReady(d[i].data.rows))
    ensures r.Ok? ==> && SplitNames(r.value) == SplitNames(d)
                      && WellFormedDict(r.value)
                      && forall i :: 0 <= i < |d| ==> AllEncoded(p, d[i].data.rows, r.value[i].data.rows)
    ensures r.Ok? && HonoursCap(p.tok) ==> forall i :: 0 <= i < |d| ==> AllWithinCaps(r.value[i].data.rows)
  {
    MapSplits(d, t requires WellFormed(t) => SplitBatched(p, t, size))
  }

  /** `tokenize_dataset`: `dataset.map(self.preprocess_function,
      batched=True)` hands each batch of each split to the batch branch of
      `preprocess_function`, which is the corrected map above. */
  function TokenizeDataset(p: Preprocessor, d: DatasetDict): (r: Result<DatasetDict>)
    requires WellFormedDict(d)
    ensures r.Ok? <==> forall i :: 0 <= i < |d| ==>
      |d[i].data.rows| == 0 || ("text" in d[i].data.columns && "summary" in d[i].data.columns && RowsReady(d[i].data.rows))
    ensures r.Ok? ==> && SplitNames(r.value) == SplitNames(d)
                      && WellFormedDict(r.value)
                      && forall i :: 0 <= i < |d| ==> AllEncoded(p, d[i].data.rows, r.value[i].data.rows)
    ensures r.Ok? && HonoursCap(p.tok) ==> forall i :: 0 <= i < |d| ==> AllWithinCaps(r.value[i].data.rows)
  {
    PreprocessSplits(p, d, DefaultBatchSize)
  }

  // ---------------------------------------------------------------------
  // Sampling

  /** `shuffle(seed=seed)` on a split's rows. */
  type Shuffler = (seq<Row<Value>>, int) -> seq<Row<Value>>

  /** The shuffle is a permutation. */
  ghost predicate Permutes(shuffle: Shuffler) {
    forall rows, seed {:trigger shuffle(rows, seed)} :: multiset(shuffle(rows, seed)) == multiset(rows)
  }

  const SampleSeed: int := 42

  /** `shuffle(seed=42).select(range(n))`: an empty split comes back as it
      is, a negative size selects nothing, and a size beyond a non-empty
      split fails. */
  function SampleSplit(t: Dataset, n: int, shuffle: Shuffler): (r: Option<Dataset>)
    ensures r.Some? <==> t.rows == [] || n <= |shuffle(t.rows, SampleSeed)|
    ensures t.rows == [] ==> r == Some(t)
    ensures r.Some? ==> && r.value.columns == t.columns
                        && (Permutes(shuffle) ==> multiset(r.value.rows) <= multiset(t.rows))
    ensures r.Some? && t.rows != [] ==> && |r.value.rows| == SampleSize(n)
                                        && r.value.rows <= shuffle(t.rows, SampleSeed)
  {
    var shuffled := shuffle(t.rows, SampleSeed);
    if t.rows == [] then Some(t)
    else if n > |shuffled| then None
    else
      var taken := if n < 0 then [] else shuffled[..n];
      assert multiset(taken) <= multiset(shuffled) by {
        assert shuffled == taken + shuffled[|taken|..];
      }
      Some(Table(t.columns, taken))
  }

  function SampleSize(n: int): nat {
    if n < 0 then 0 else n
  }

  /** One split of `data_sample_loader`: its sample, or the `IndexError` of
      a split shorter than the sample size. */
  function SampleNamed(n: int, shuffle: Shuffler, split: NamedSplit): (r: Result<Dataset>)
    ensures r.Ok? <==> SampleSplit(split.data, n, shuffle).Some?
    ensures r.Ok? ==> r.value == SampleSplit(split.data, n, shuffle).value
    ensures r.Err? ==> r.error == SampleTooLarge(split.name, SampleSize(n))
  {
    match SampleSplit(split.data, n, shuffle)
    case None => Err(SampleTooLarge(split.name, SampleSize(n)))
    case Some(t) => Ok(t)
  }

  /** Sampling stopped at split `j`: it is the first split too short for
      the sample, the error names it, the splits before it are sampled in
      the argument and the rest are untouched. */
  ghost predicate FailsAt(d: DatasetDict, j: nat, n: int, shuffle: Shuffler, s: InPlace)
    requires j < |d| && |s.argument| == |d|
  {
    && SampleSplit(d[j].data, n, shuffle).None?
    && s.result == Err(SampleTooLarge(d[j].name, SampleSize(n)))
    && (forall m :: 0 <= m < j ==>
          (SampleSplit(d[m].data, n, shuffle).Some?
           && s.argument[m].data == SampleSplit(d[m].data, n, shuffle).value))
    && (forall m :: j <= m < |d| ==> s.argument[m] == d[m])
  }

  /** `data_sample_loader`: every non-empty split becomes the first `n`
      rows of its seed-42 shuffle under the same name, written into the
      argument itself, and an empty split stays as it is; a non-empty split
      shorter than `n` fails the call, leaving the splits before it already
      sampled. */
  function SampleLoader(d: DatasetDict, n: int, shuffle: Shuffler): (s: InPlace)
    ensures SplitNames(s.argument) == SplitNames(d)
    ensures s.result.Ok? ==> s.result.value == s.argument
    ensures s.result.Ok? <==>
      forall j :: 0 <= j < |d| ==> d[j].data.rows == [] || n <= |shuffle(d[j].data.rows, SampleSeed)|
    ensures s.result.Ok? ==> forall j :: 0 <= j < |d| ==>
      && s.argument[j].data.columns == d[j].data.columns
      && (Permutes(shuffle) ==> multiset(s.argument[j].data.rows) <= multiset(d[j].data.rows))
      && (d[j].data.rows == [] ==> s.argument[j].data == d[j].data)
      && (d[j].data.rows != [] ==>
            && |s.argument[j].data.rows| == SampleSize(n)
            && s.argument[j].data.rows <= shuffle(d[j].data.rows, SampleSeed))
    ensures s.result.Err? ==> exists j :: 0 <= j < |d| && FailsAt(d, j, n, shuffle, s)
  {
    var f := (split: NamedSplit) => SampleNamed(n, shuffle, split);
    var s := UpdateFrom(d, 0, f);
    assert s.result.Err? ==> exists j :: 0 <= j < |d| && FailsAt(d, j, n, shuffle, s) by {
      if s.result.Err? {
        var j :| 0 <= j < |d| && StopsAt(d, 0, j, f, s.result.error, s.argument);
        assert FailsAt(d, j, n, shuffle, s);
      }
    }
    s
  }

  // ---------------------------------------------------------------------
  // Saving

  /** `os.path.join(directory, name)`: an absolute name replaces the
      directory; otherwise one separator is inserted unless the directory is
      empty or already ends in one. */
  function PathJoin(directory: string, name: string): (path: string)
    ensures |name| <= |path| && path[|path| - |name|..] == name
    ensures |name| > 0 && name[0] == '/' ==> path == name
    ensures (|name| == 0 || name[0] != '/') ==> directory <= path
  {
    if |name| > 0 && name[0] == '/' then name
    else if directory == [] || directory[|directory| - 1] == '/' then directory + name
    else directory + "/" + name
  }

  /** `save_dataset` up to the write itself: the path is built before the
      type guard, so a missing name fails first; anything but a split
      dictionary is refused. */
  function SaveTarget(outputDir: string, data: Data, name: Option<string>): (r: Result<string>)
    ensures name.None? ==> r == Err(NoDatasetName)
    ensures name.Some? && !data.DictOf? ==> r == Err(NotADatasetDict)
    ensures r.Ok? <==> name.Some? && data.DictOf?
    ensures r.Ok? ==> r.value == PathJoin(outputDir, name.value)
  {
    match name
    case None => Err(NoDatasetName)
    case Some(n) =>
      var path := PathJoin(outputDir, n);
      if !data.DictOf? then Err(NotADatasetDict) else Ok(path)
  }
}
