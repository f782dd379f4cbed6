/** The validation gate of `DataValidation`: a file-existence check, a
    required-columns check, and the status log both append to. The log file
    is modelled as the sequence of status entries written to it; the
    timestamps are left out.
 */
module Validation {
  import opened Outcomes
  import opened Tables

  datatype ValidationConfig = ValidationConfig(requiredFiles: seq<string>, requiredColumns: seq<string>)

  /** One JSON object appended to the status file. */
  datatype StatusEntry =
    | FilesStatus(passed: bool, requiredFiles: seq<string>, filesFound: map<string, bool>)
    | ColumnsStatus(passed: bool, requiredColumns: seq<string>,
                    columnsFoundIn: map<string, seq<string>>,
                    missingColumns: map<string, seq<string>>)

  /** A `DataValidation` instance: its configuration and the contents of its
      status file. */
  datatype Gate = Gate(config: ValidationConfig, log: seq<StatusEntry>)

  /** The result of one check together with the gate after it. */
  datatype Step<T> = Step(result: T, gate: Gate)

  /** The constructor truncates the status file. */
  function Open(config: ValidationConfig, previousLog: seq<StatusEntry>): (g: Gate)
    ensures g.config == config && g.log == []
  {
    Gate(config, [])
  }

  /** The status entry of the file check, given the listing of the
      ingestion directory. */
  function FilesReport(config: ValidationConfig, listing: seq<string>): (e: StatusEntry)
    ensures e.FilesStatus? && e.requiredFiles == config.requiredFiles
    ensures e.filesFound.Keys == Names(config.requiredFiles)
    ensures forall f :: f in e.filesFound ==> (e.filesFound[f] <==> f in listing)
    ensures e.passed <==> forall f :: f in config.requiredFiles ==> f in listing
  {
    var found := map f | f in config.requiredFiles :: f in listing;
    FilesStatus(forall f :: f in found ==> found[f], config.requiredFiles, found)
  }

  /** `validate_all_files_exist`: the listing is of the hard-coded directory
      `artifacts/data_ingestion`, independent of the directory the column
      check reads. Appends exactly one entry. */
  function CheckFiles(g: Gate, listing: seq<string>): (s: Step<StatusEntry>)
    ensures s.result == FilesReport(g.config, listing)
    ensures s.gate == g.(log := g.log + [s.result])
  {
    var e := FilesReport(g.config, listing);
    Step(e, g.(log := g.log + [e]))
  }

  /** The required files, in configured order, whose header row (as read
      from the unzip directory) contains `column`. */
  function FoundIn(files: seq<string>, headers: map<string, seq<string>>, column: string): (r: seq<string>)
    ensures forall f :: f in r <==> f in files && f in headers && column in headers[f]
    ensures |files| == 1 ==> r == if files[0] in headers && column in headers[files[0]] then files else []
  {
    if files == [] then []
    else
      var last := files[|files| - 1];
      FoundIn(files[..|files| - 1], headers, column)
        + (if last in headers && column in headers[last] then [last] else [])
  }

  /** `FoundIn` distributes over concatenation: with its effect on one file
      this fixes the result as the matching files in configured order. */
  lemma {:induction false} FoundInAppend(a: seq<string>, b: seq<string>, headers: map<string, seq<string>>, column: string)
    ensures FoundIn(a + b, headers, column) == FoundIn(a, headers, column) + FoundIn(b, headers, column)
    decreases |b|
  {
    if b == [] {
      assert a + b == a;
    } else {
      var init := b[..|b| - 1];
      var last := b[|b| - 1];
      var tail := if last in headers && column in headers[last] then [last] else [];
      assert (a + b)[..|a + b| - 1] == a + init;
      FoundInAppend(a, init, headers, column);
      assert FoundIn(a + b, headers, column) == FoundIn(a, headers, column) + FoundIn(init, headers, column) + tail;
    }
  }

  function Repeat(f: string, k: nat): (r: seq<string>)
    ensures |r| == k && forall i :: 0 <= i < k ==> r[i] == f
  {
    seq(k, _ => f)
  }

  /** Every element of `fs` repeated `k` times in place. */
  function Stutter(fs: seq<string>, k: nat): (r: seq<string>)
    ensures |r| == |fs| * k
    ensures k > 0 ==> forall f :: f in r <==> f in fs
    ensures k == 1 ==> r == fs
  {
    if fs == [] then []
    else
      var init := fs[..|fs| - 1];
      var tail := Repeat(fs[|fs| - 1], k);
      assert k > 0 ==> tail[0] == fs[|fs| - 1];
      assert forall x :: x in tail ==> x == fs[|fs| - 1];
      assert fs == init + [fs[|fs| - 1]];
      Stutter(init, k) + tail
  }

  function Count(columns: seq<string>, c: string): nat {
    multiset(columns)[c]
  }

  /** Index of the first required file with no readable header, or the
      number of files when all are readable. */
  function FirstUnreadable(files: seq<string>, headers: map<string, seq<string>>): (i: nat)
    ensures i <= |files|
    ensures forall k :: 0 <= k < i ==> files[k] in headers
    ensures i < |files| ==> files[i] !in headers
  {
    if files == [] || files[0] !in headers then 0
    else 1 + FirstUnreadable(files[1..], headers)
  }

  /** The status entry of the column check. The source appends a file once
      for every occurrence of a column in `required_columns`, so a column
      listed twice collects each file twice. */
  function ColumnsReport(config: ValidationConfig, headers: map<string, seq<string>>): Result<StatusEntry> {
    var files := config.requiredFiles;
    var columns := config.requiredColumns;
    var i := FirstUnreadable(files, headers);
    if i < |files| then Err(UnreadableFile(files[i]))
    else
      var found := FoundMap(files, columns, headers);
      Ok(ColumnsStatus(|Unfound(found)| == 0, columns, found, Unfound(found)))
  }

  /** `columns_found_in` once every file has been read. */
  function FoundMap(files: seq<string>, columns: seq<string>, headers: map<string, seq<string>>): map<string, seq<string>> {
    map c | c in columns :: Stutter(FoundIn(files, headers, c), Count(columns, c))
  }

  /** `missing_columns`: the entries of `columns_found_in` with no file. */
  function Unfound(found: map<string, seq<string>>): map<string, seq<string>> {
    map c | c in found && found[c] == [] :: found[c]
  }

  /** When every required file is readable, no read fails. */
  lemma {:induction false} AllReadable(files: seq<string>, headers: map<string, seq<string>>)
    requires forall k :: 0 <= k < |files| ==> files[k] in headers
    ensures FirstUnreadable(files, headers) == |files|
  {
    if files != [] {
      AllReadable(files[1..], headers);
    }
  }

  lemma StutterSnoc(fs: seq<string>, f: string, k: nat)
    ensures Stutter(fs + [f], k) == Stutter(fs, k) + Repeat(f, k)
  {
    var s := fs + [f];
    assert s[..|s| - 1] == fs;
  }

  lemma FoundInSnoc(files: seq<string>, i: nat, headers: map<string, seq<string>>, c: string)
    requires i < |files|
    ensures FoundIn(files[..i + 1], headers, c)
         == FoundIn(files[..i], headers, c)
              + (if files[i] in headers && c in headers[files[i]] then [files[i]] else [])
  {
    assert files[..i + 1][..i] == files[..i];
  }

  /** Reading one more file extends each column's list by that file, once
      per occurrence of the column, when its header holds the column. */
  lemma FoundInStep(files: seq<string>, i: nat, headers: map<string, seq<string>>, c: string, k: nat)
    requires i < |files| && files[i] in headers
    ensures Stutter(FoundIn(files[..i + 1], headers, c), k)
         == Stutter(FoundIn(files[..i], headers, c), k)
              + (if c in headers[files[i]] then Repeat(files[i], k) else [])
  {
    FoundInSnoc(files, i, headers, c);
    var prior := FoundIn(files[..i], headers, c);
    if c in headers[files[i]] {
      StutterSnoc(prior, files[i], k);
    } else {
      assert prior + [] == prior;
    }
  }

  /** The inner loop of `validate_all_required_fields_exist`: one file's
      header against every required column. */
  method ScanFile(found: map<string, seq<string>>, columns: seq<string>, f: string, header: seq<string>)
    returns (out: map<string, seq<string>>)
    requires found.Keys == Names(columns)
    ensures out.Keys == Names(columns)
    ensures forall c :: c in out ==>
      out[c] == found[c] + (if c in header then Repeat(f, Count(columns, c)) else [])
  {
    out := found;
    var j := 0;
    assert columns[..0] == [];
    while j < |columns|
      invariant 0 <= j <= |columns|
      invariant Tallied(found, out, columns, columns[..j], f, header)
    {
      out := TallyColumn(found, out, columns, j, f, header);
      j := j + 1;
    }
    assert columns[..j] == columns;
  }

  /** `out` is `found` with `f` appended to the entry of every column of
      `header` once per occurrence of that column in `done`. */
  predicate Tallied(found: map<string, seq<string>>, out: map<string, seq<string>>, columns: seq<string>,
                    done: seq<string>, f: string, header: seq<string>) {
    && found.Keys == Names(columns) && out.Keys == Names(columns)
    && forall c :: c in out ==>
         out[c] == found[c] + (if c in header then Repeat(f, Count(done, c)) else [])
  }

  /** One pass of the inner loop: the file is appended to column `j`'s
      entry when its header has that column. */
  method TallyColumn(found: map<string, seq<string>>, before: map<string, seq<string>>, columns: seq<string>,
                     j: nat, f: string, header: seq<string>) returns (after: map<string, seq<string>>)
    requires j < |columns|
    requires Tallied(found, before, columns, columns[..j], f, header)
    ensures Tallied(found, after, columns, columns[..j + 1], f, header)
  {
    var c := columns[j];
    after := before;
    if c in header {
      after := before[c := before[c] + [f]];
    }
    TallyStep(found, before, after, columns, j, f, header);
  }

  /** One pass of the inner loop keeps `Tallied` with one more column. */
  lemma TallyStep(found: map<string, seq<string>>, before: map<string, seq<string>>, after: map<string, seq<string>>,
                  columns: seq<string>, j: nat, f: string, header: seq<string>)
    requires j < |columns|
    requires Tallied(found, before, columns, columns[..j], f, header)
    requires after == if columns[j] in header then before[columns[j] := before[columns[j]] + [f]] else before
    ensures Tallied(found, after, columns, columns[..j + 1], f, header)
  {
    var c := columns[j];
    assert columns[..j + 1] == columns[..j] + [c];
    assert c in Names(columns);
    if c in header {
      assert Repeat(f, Count(columns[..j], c)) + [f] == Repeat(f, Count(columns[..j + 1], c));
    }
  }

  /** `found` holds, for every required column, the files among `files`
      whose header contains it. */
  predicate Scanned(found: map<string, seq<string>>, files: seq<string>, headers: map<string, seq<string>>, columns: seq<string>) {
    && found.Keys == Names(columns)
    && forall c :: c in found ==> found[c] == Stutter(FoundIn(files, headers, c), Count(columns, c))
  }

  /** One pass of the outer loop keeps `Scanned` with one more file. */
  lemma ScanStep(before: map<string, seq<string>>, after: map<string, seq<string>>,
                 files: seq<string>, i: nat, headers: map<string, seq<string>>, columns: seq<string>)
    requires i < |files| && files[i] in headers
    requires Scanned(before, files[..i], headers, columns)
    requires after.Keys == Names(columns)
    requires forall c :: c in after ==>
      after[c] == before[c] + (if c in headers[files[i]] then Repeat(files[i], Count(columns, c)) else [])
    ensures Scanned(after, files[..i + 1], headers, columns)
  {
    forall c | c in after
      ensures after[c] == Stutter(FoundIn(files[..i + 1], headers, c), Count(columns, c))
    {
      FoundInStep(files, i, headers, c, Count(columns, c));
    }
  }

  /** Before any file is read, every required column has an empty entry. */
  lemma ScanStart(files: seq<string>, headers: map<string, seq<string>>, columns: seq<string>)
    ensures Scanned(map c | c in columns :: [], files[..0], headers, columns)
  {
    assert files[..0] == [];
  }

  /** Having scanned every file, `found` is `columns_found_in`. */
  lemma ScannedAll(found: map<string, seq<string>>, files: seq<string>, headers: map<string, seq<string>>, columns: seq<string>)
    requires Scanned(found, files, headers, columns)
    ensures found == FoundMap(files, columns, headers)
  {
  }

  /** The nested loops of `validate_all_required_fields_exist` compute the
      entry `ColumnsReport` describes, or fail at the first unreadable file. */
  method ScanColumns(config: ValidationConfig, headers: map<string, seq<string>>) returns (r: Result<StatusEntry>)
    ensures r == ColumnsReport(config, headers)
  {
    var files := config.requiredFiles;
    var columns := config.requiredColumns;
    var found: map<string, seq<string>> := map c | c in columns :: [];
    var i := 0;
    ScanStart(files, headers, columns);
    while i < |files|
      invariant 0 <= i <= |files|
      invariant forall k :: 0 <= k < i ==> files[k] in headers
      invariant Scanned(found, files[..i], headers, columns)
    {
      var f := files[i];
      if f !in headers {
        ReportUnreadable(config, headers, i);
        return Err(UnreadableFile(f));
      }
      ghost var before := found;
      found := ScanFile(found, columns, f, headers[f]);
      ScanStep(before, found, files, i, headers, columns);
      i := i + 1;
    }
    assert files[..i] == files;
    ScannedAll(found, files, headers, columns);
    ReportReadable(config, headers);
    var missing := Unfound(found);
    return Ok(ColumnsStatus(|missing| == 0, columns, found, missing));
  }

  /** The report of a scan that stops at the unreadable file `i`. */
  lemma ReportUnreadable(config: ValidationConfig, headers: map<string, seq<string>>, i: nat)
    requires i < |config.requiredFiles| && config.requiredFiles[i] !in headers
    requires forall k :: 0 <= k < i ==> config.requiredFiles[k] in headers
    ensures ColumnsReport(config, headers) == Err(UnreadableFile(config.requiredFiles[i]))
  {
    assert FirstUnreadable(config.requiredFiles, headers) == i;
  }

  /** The report of a scan that reads every file. */
  lemma ReportReadable(config: ValidationConfig, headers: map<string, seq<string>>)
    requires forall k :: 0 <= k < |config.requiredFiles| ==> config.requiredFiles[k] in headers
    ensures var found := FoundMap(config.requiredFiles, config.requiredColumns, headers);
      ColumnsReport(config, headers) == Ok(ColumnsStatus(|Unfound(found)| == 0, config.requiredColumns, found, Unfound(found)))
  {
    AllReadable(config.requiredFiles, headers);
  }

  /** `validate_all_required_fields_exist`: appends exactly one entry when
      every required file is readable, and propagates the read error (with
      the log untouched) otherwise. */
  function CheckColumns(g: Gate, headers: map<string, seq<string>>): (r: Result<Step<StatusEntry>>)
    ensures r.Err? <==> ColumnsReport(g.config, headers).Err?
    ensures r.Ok? ==> && r.value.result == ColumnsReport(g.config, headers).value
                      && r.value.gate == g.(log := g.log + [r.value.result])
  {
    var e :- ColumnsReport(g.config, headers);
    Ok(Step(e, g.(log := g.log + [e])))
  }

  /** `validate`: the column check runs only when the file check passed.
      The gate is returned on every path, the read failure included: the
      file check's entry is already in the status file when `read_csv`
      raises. */
  function Validate(g: Gate, listing: seq<string>, headers: map<string, seq<string>>): (s: Step<Result<bool>>)
    ensures s.gate.config == g.config
    ensures var files := FilesReport(g.config, listing);
      !files.passed ==> s == Step(Ok(false), g.(log := g.log + [files]))
    ensures var files := FilesReport(g.config, listing);
      files.passed ==>
        && (s.result.Err? <==> exists f :: f in g.config.requiredFiles && f !in headers)
        && (s.result.Err? ==> && s.result == ColumnsReport(g.config, headers).PropagateFailure()
                              && s.gate.log == g.log + [files])
        && (s.result.Ok? ==> && |s.gate.log| == |g.log| + 2
                             && s.gate.log[..|g.log| + 1] == g.log + [files]
                             && s.gate.log[|g.log| + 1] == ColumnsReport(g.config, headers).value
                             && s.gate.log[|g.log| + 1].ColumnsStatus?
                             && s.result.value == s.gate.log[|g.log| + 1].passed)
  {
    var files := CheckFiles(g, listing);
    if !files.result.passed then Step(Ok(false), files.gate)
    else
      match CheckColumns(files.gate, headers)
      case Err(e) => Step(Err(e), files.gate)
      case Ok(columns) =>
        assert (g.log + [files.result]) + [columns.result] == g.log + [files.result, columns.result];
        Step(Ok(columns.result.passed), columns.gate)
  }

  /** With every required file readable, the column check yields an
      entry whose `columns_found_in[c]` names exactly the required files
      whose header holds `c`, in configured order when `c` is listed once. */
  lemma ColumnsFoundVerdict(config: ValidationConfig, headers: map<string, seq<string>>)
    requires forall f :: f in config.requiredFiles ==> f in headers
    ensures ColumnsReport(config, headers).Ok?
    ensures var e := ColumnsReport(config, headers).value;
      && e.ColumnsStatus?
      && e.columnsFoundIn.Keys == Names(config.requiredColumns)
      && (forall c, f :: c in config.requiredColumns ==>
            (f in e.columnsFoundIn[c] <==> f in config.requiredFiles && c in headers[f]))
      && (forall c :: c in config.requiredColumns && Count(config.requiredColumns, c) == 1 ==>
            e.columnsFoundIn[c] == FoundIn(config.requiredFiles, headers, c))
  {
    var files, columns := config.requiredFiles, config.requiredColumns;
    AllReadable(files, headers);
    FoundMapMembers(files, columns, headers);
  }

  /** With every required file readable, `missing_columns` holds exactly
      the required columns found in no file, and the check passes exactly
      when every required column is found somewhere. */
  lemma ColumnsMissingVerdict(config: ValidationConfig, headers: map<string, seq<string>>)
    requires forall f :: f in config.requiredFiles ==> f in headers
    ensures ColumnsReport(config, headers).Ok?
    ensures var e := ColumnsReport(config, headers).value;
      && e.ColumnsStatus?
      && (forall c :: c in e.missingColumns <==>
            c in config.requiredColumns && forall f :: f in config.requiredFiles ==> c !in headers[f])
      && (e.passed <==> forall c :: c in config.requiredColumns ==>
            exists f :: f in config.requiredFiles && c in headers[f])
  {
    var files, columns := config.requiredFiles, config.requiredColumns;
    AllReadable(files, headers);
    UnfoundFacts(files, columns, headers);
  }

  /** `missing_columns` holds the required columns no file has, and is
      empty exactly when every required column is found somewhere. */
  lemma UnfoundFacts(files: seq<string>, columns: seq<string>, headers: map<string, seq<string>>)
    requires forall f :: f in files ==> f in headers
    ensures var missing := Unfound(FoundMap(files, columns, headers));
      && (forall c :: c in missing <==> c in columns && forall f :: f in files ==> c !in headers[f])
      && (|missing| == 0 <==> forall c :: c in columns ==> exists f :: f in files && c in headers[f])
  {
    var missing := Unfound(FoundMap(files, columns, headers));
    FoundMapEmpty(files, columns, headers);
    if |missing| == 0 {
      forall c | c in columns
        ensures exists f :: f in files && c in headers[f]
      {
        assert c !in missing;
      }
    } else {
      var c :| c in missing;
    }
  }

  /** A required column's entry lists the files that have it. */
  lemma FoundMapMembers(files: seq<string>, columns: seq<string>, headers: map<string, seq<string>>)
    requires forall f :: f in files ==> f in headers
    ensures var found := FoundMap(files, columns, headers);
      && found.Keys == Names(columns)
      && (forall c, f :: c in columns ==> (f in found[c] <==> f in files && c in headers[f]))
      && (forall c :: c in columns && Count(columns, c) == 1 ==> found[c] == FoundIn(files, headers, c))
  {
    forall c | c in columns
      ensures Count(columns, c) > 0
    {
    }
  }

  /** A required column's entry is empty exactly when no file has it. */
  lemma FoundMapEmpty(files: seq<string>, columns: seq<string>, headers: map<string, seq<string>>)
    requires forall f :: f in files ==> f in headers
    ensures var found := FoundMap(files, columns, headers);
      forall c :: c in columns ==> (found[c] == [] <==> forall f :: f in files ==> c !in headers[f])
  {
    var found := FoundMap(files, columns, headers);
    FoundMapMembers(files, columns, headers);
    forall c | c in columns
      ensures found[c] == [] <==> forall f :: f in files ==> c !in headers[f]
    {
      if found[c] != [] {
        assert found[c][0] in found[c];
      }
    }
  }

  /** A check never removes entries: whatever the gate's inputs, and
      whether `validate` returns or raises, the earlier log is a prefix of
      the new one, which holds one more entry after a failed file check or
      a read failure and two after the column check. */
  lemma LogOnlyGrows(g: Gate, listing: seq<string>, headers: map<string, seq<string>>)
    ensures var s := Validate(g, listing, headers);
      && g.log <= s.gate.log
      && |s.gate.log| - |g.log| == (if s.result.Ok? && FilesReport(g.config, listing).passed then 2 else 1)
  {
    var s := Validate(g, listing, headers);
    if s.result.Ok? && FilesReport(g.config, listing).passed {
      assert g.log <= s.gate.log[..|g.log| + 1];
    }
  }

  /** The two checks read different directories: with the required file
      listed in the ingestion directory but absent from the unzip
      directory, the file check passes, logs its entry, and `validate`
      then fails on the read. */
  lemma DirectoriesCanDisagree()
    ensures var g := Open(ValidationConfig(["a.csv"], ["id"]), []);
      && FilesReport(g.config, ["a.csv"]).passed
      && Validate(g, ["a.csv"], map[]) == Step(Err(UnreadableFile("a.csv")), g.(log := [FilesReport(g.config, ["a.csv"])]))
  {
    var g := Open(ValidationConfig(["a.csv"], ["id"]), []);
    assert FirstUnreadable(["a.csv"], map[]) == 0;
  }
}
