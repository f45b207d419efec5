/**
 * The fetch -> validate -> group -> persist pipeline of `ApiService`.
 *
 * The HTTP call and the disk are not modelled: `FetchData` receives the
 * parsed list of raw records, and the storage is a value `FileSystem` from a
 * path to the rows of the CSV file stored there, which `SaveData` receives and
 * returns. Whether a write succeeds at the operating-system level is an oracle
 * `io`, indexed by the position of the row in the input.
 */
module ApiService {
  import opened Wrappers
  import opened Schemas
  import opened Decimal

  /** Header row of every CSV file, and the order of the values in its data row. */
  const CsvFieldnames: seq<string> := ["userId", "id", "title", "completed"]

  /** Path to the rows (each a sequence of field strings) of the CSV file stored there. */
  type FileSystem = map<string, seq<seq<string>>>

  /** How one attempt to open and write a file ends at the operating-system level. */
  datatype WriteAttempt =
    | Completes
    | FailsBeforeOpen                              // e.g. missing directory, no permission
    | FailsAfterOpen(partial: seq<seq<string>>)    // truncated by `open`, then the write fails

  /** The storage after a run of `save_data` and its two counters. */
  datatype SaveOutcome = SaveOutcome(files: FileSystem, saved: nat, failed: nat)

  // ---------------------------------------------------------------------------
  // Validation filter (`fetch_data`)
  // ---------------------------------------------------------------------------

  /** The rows of the records that validate, in input order. */
  function ValidRows(records: seq<Value>): seq<Row>
    decreases |records|
  {
    if records == [] then []
    else
      var last := records[|records| - 1];
      ValidRows(records[..|records| - 1]) + (match Validate(last) case Some(row) => [row] case None => [])
  }

  /** The number of records that do not validate. */
  function InvalidCount(records: seq<Value>): nat
    decreases |records|
  {
    if records == [] then 0
    else InvalidCount(records[..|records| - 1]) + (if Validate(records[|records| - 1]).None? then 1 else 0)
  }

  lemma {:induction false} ValidRowsLength(records: seq<Value>)
    ensures |ValidRows(records)| + InvalidCount(records) == |records|
    decreases |records|
  {
    if records != [] {
      ValidRowsLength(records[..|records| - 1]);
    }
  }

  /** Filtering distributes over concatenation: a bad record never stops the records after it. */
  lemma {:induction false} ValidRowsAppend(a: seq<Value>, b: seq<Value>)
    ensures ValidRows(a + b) == ValidRows(a) + ValidRows(b)
    decreases |b|
  {
    if b == [] {
      assert a + b == a;
    } else {
      var b' := b[..|b| - 1];
      assert (a + b)[..|a + b| - 1] == a + b';
      assert (a + b)[|a + b| - 1] == b[|b| - 1];
      ValidRowsAppend(a, b');
    }
  }

  lemma ValidRowsSingleton(v: Value)
    ensures ValidRows([v]) == match Validate(v) case Some(row) => [row] case None => []
  {
    assert [v][..0] == [];
  }

  /** A record that validates lands in the result right after the rows of the records before it. */
  lemma ValidRecordKept(records: seq<Value>, i: int)
    requires 0 <= i < |records| && Validate(records[i]).Some?
    ensures |ValidRows(records[..i])| < |ValidRows(records)|
    ensures ValidRows(records)[|ValidRows(records[..i])|] == Validate(records[i]).value
  {
    assert records == records[..i] + [records[i]] + records[i + 1..];
    ValidRowsAppend(records[..i] + [records[i]], records[i + 1..]);
    ValidRowsAppend(records[..i], [records[i]]);
    ValidRowsSingleton(records[i]);
  }

  /** A record that does not validate is skipped and contributes nothing. */
  lemma InvalidRecordSkipped(records: seq<Value>, i: int)
    requires 0 <= i < |records| && Validate(records[i]).None?
    ensures ValidRows(records) == ValidRows(records[..i]) + ValidRows(records[i + 1..])
  {
    var before, after := records[..i], records[i + 1..];
    assert records == (before + [records[i]]) + after;
    ValidRowsAppend(before + [records[i]], after);
    ValidRowsAppend(before, [records[i]]);
    ValidRowsSingleton(records[i]);
    assert ValidRows(before + [records[i]]) == ValidRows(before);
  }

  /** Every row in the result is the validation of some input record. */
  lemma {:induction false} ValidRowsSound(records: seq<Value>)
    ensures forall row :: row in ValidRows(records) ==>
      exists i :: 0 <= i < |records| && Validate(records[i]) == Some(row)
    decreases |records|
  {
    if records != [] {
      var prefix := records[..|records| - 1];
      ValidRowsSound(prefix);
      forall row | row in ValidRows(records)
        ensures exists i :: 0 <= i < |records| && Validate(records[i]) == Some(row)
      {
        if row in ValidRows(prefix) {
          var i :| 0 <= i < |prefix| && Validate(prefix[i]) == Some(row);
          assert records[i] == prefix[i];
        } else {
          assert Validate(records[|records| - 1]) == Some(row);
        }
      }
    }
  }

  /** When every record validates, the result is all of them, position by position. */
  lemma {:induction false} AllValidKept(records: seq<Value>)
    requires forall i :: 0 <= i < |records| ==> Validate(records[i]).Some?
    ensures |ValidRows(records)| == |records|
    ensures forall i :: 0 <= i < |records| ==> ValidRows(records)[i] == Validate(records[i]).value
    decreases |records|
  {
    if records != [] {
      var prefix := records[..|records| - 1];
      assert forall i :: 0 <= i < |prefix| ==> prefix[i] == records[i];
      AllValidKept(prefix);
    }
  }

  // ---------------------------------------------------------------------------
  // Grouping (`_group_data`)
  // ---------------------------------------------------------------------------

  /** The ids that occur in `rows`. */
  function IdsOf(rows: seq<Row>): set<int> {
    set row | row in rows :: row.id
  }

  /** The rows with id `k`, in input order. */
  function WithId(rows: seq<Row>, k: int): seq<Row>
    decreases |rows|
  {
    if rows == [] then []
    else (if rows[0].id == k then [rows[0]] else []) + WithId(rows[1..], k)
  }

  /** The intended grouping: one key per id that occurs, holding the rows with that id in order. */
  function Grouped(rows: seq<Row>): map<int, seq<Row>> {
    map k | k in IdsOf(rows) :: WithId(rows, k)
  }

  /** Selecting by id distributes over concatenation, so arrival order is kept within a group. */
  lemma {:induction false} WithIdAppend(a: seq<Row>, b: seq<Row>, k: int)
    ensures WithId(a + b, k) == WithId(a, k) + WithId(b, k)
    decreases |a|
  {
    if a == [] {
      assert a + b == b;
    } else {
      assert (a + b)[1..] == a[1..] + b;
      WithIdAppend(a[1..], b, k);
    }
  }

  /** A group holds only rows with its id, and a row with that id is in the group. */
  lemma {:induction false} WithIdMembers(rows: seq<Row>, k: int)
    ensures forall row :: row in WithId(rows, k) <==> row in rows && row.id == k
    decreases |rows|
  {
    if rows != [] {
      WithIdMembers(rows[1..], k);
      assert rows == [rows[0]] + rows[1..];
    }
  }

  /** An id that does not occur has no rows. */
  lemma {:induction false} WithIdAbsent(rows: seq<Row>, k: int)
    requires k !in IdsOf(rows)
    ensures WithId(rows, k) == []
    decreases |rows|
  {
    if rows != [] {
      assert rows[0] in rows;
      assert IdsOf(rows[1..]) <= IdsOf(rows) by {
        assert forall r :: r in rows[1..] ==> r in rows;
      }
      WithIdAbsent(rows[1..], k);
    }
  }

  lemma GroupedSnoc(rows: seq<Row>, row: Row)
    ensures var g := Grouped(rows);
      Grouped(rows + [row]) == g[row.id := (if row.id in g then g[row.id] else []) + [row]]
  {
    var g := Grouped(rows);
    var g' := g[row.id := (if row.id in g then g[row.id] else []) + [row]];
    assert IdsOf(rows + [row]) == IdsOf(rows) + {row.id} by {
      assert forall r :: r in rows + [row] <==> r in rows || r == row;
    }
    forall k | k in IdsOf(rows + [row])
      ensures WithId(rows + [row], k) == g'[k]
    {
      WithIdAppend(rows, [row], k);
      assert WithId([row], k) == (if row.id == k then [row] else []) by {
        assert [row][1..] == [];
      }
      if k == row.id && row.id !in g {
        WithIdAbsent(rows, k);
      }
    }
  }

  lemma HasKey(g: map<int, seq<Row>>)
    requires g.Keys != {}
    ensures exists k :: k in g.Keys
  {
    if forall k :: k !in g.Keys {
      assert false;
    }
  }

  /** The sum of the lengths of the groups. */
  ghost function TotalRows(g: map<int, seq<Row>>): nat
    decreases |g|
  {
    if g.Keys == {} then 0
    else
      HasKey(g);
      var k :| k in g.Keys;
      assert |g - {k}| < |g| by {
        assert (g - {k}).Keys == g.Keys - {k};
      }
      |g[k]| + TotalRows(g - {k})
  }

  lemma {:induction false} TotalRowsRemove(g: map<int, seq<Row>>, k: int)
    requires k in g
    ensures TotalRows(g) == |g[k]| + TotalRows(g - {k})
    decreases |g|
  {
    var k' :| k' in g && TotalRows(g) == |g[k']| + TotalRows(g - {k'});
    if k' != k {
      assert (g - {k'}).Keys == g.Keys - {k'};
      assert (g - {k}).Keys == g.Keys - {k};
      TotalRowsRemove(g - {k'}, k);
      TotalRowsRemove(g - {k}, k');
      assert (g - {k'}) - {k} == (g - {k}) - {k'};
    }
  }

  /** No row is dropped or duplicated: the group lengths sum to the input length. */
  lemma {:induction false} GroupedSizes(rows: seq<Row>)
    ensures TotalRows(Grouped(rows)) == |rows|
    decreases |rows|
  {
    if rows != [] {
      var prefix, row := rows[..|rows| - 1], rows[|rows| - 1];
      assert rows == prefix + [row];
      GroupedSizes(prefix);
      GroupedSnoc(prefix, row);
      var g := Grouped(prefix);
      var g' := Grouped(rows);
      TotalRowsRemove(g', row.id);
      assert g' - {row.id} == g - {row.id};
      if row.id in g {
        TotalRowsRemove(g, row.id);
      } else {
        assert g - {row.id} == g;
      }
    }
  }

  /** The keys are exactly the ids in the input, and each group is non-empty and holds only its id. */
  lemma GroupedKeys(rows: seq<Row>)
    ensures forall k :: k in Grouped(rows) <==> exists i :: 0 <= i < |rows| && rows[i].id == k
    ensures forall k :: k in Grouped(rows) ==>
      |Grouped(rows)[k]| > 0 && forall row :: row in Grouped(rows)[k] ==> row in rows && row.id == k
  {
    forall k | k in Grouped(rows)
      ensures |Grouped(rows)[k]| > 0 && forall row :: row in Grouped(rows)[k] ==> row in rows && row.id == k
    {
      WithIdMembers(rows, k);
      var row :| row in rows && row.id == k;
      assert row in WithId(rows, k);
    }
    forall k | exists i :: 0 <= i < |rows| && rows[i].id == k
      ensures k in Grouped(rows)
    {
      var i :| 0 <= i < |rows| && rows[i].id == k;
      assert rows[i] in rows;
    }
  }

  // ---------------------------------------------------------------------------
  // Persistence (`save_data`)
  // ---------------------------------------------------------------------------

  /** `{date}_{id}.csv`. */
  function FileName(date: string, id: int): string {
    date + "_" + IntToString(id) + ".csv"
  }

  /** `Path(dir, name)`. */
  function JoinPath(dir: string, name: string): string {
    dir + "/" + name
  }

  /** The file a row is written to. */
  function TargetPath(dir: string, date: string, row: Row): string {
    JoinPath(dir, FileName(date, row.id))
  }

  /** The files the rows are written to. */
  function TargetPaths(dir: string, date: string, rows: seq<Row>): set<string> {
    set row | row in rows :: TargetPath(dir, date, row)
  }

  /** The text of one field of a row: `str` of its value, so `True`/`False` for `completed`. */
  function FieldText(row: Row, name: string): string
    requires name in CsvFieldnames
  {
    if name == "userId" then IntToString(row.userId)
    else if name == "id" then IntToString(row.id)
    else if name == "title" then row.title
    else if row.completed then "True" else "False"
  }

  /** The data row: the row's values in the order of the header. */
  function CsvRecord(row: Row): seq<string> {
    seq(|CsvFieldnames|, i requires 0 <= i < |CsvFieldnames| => FieldText(row, CsvFieldnames[i]))
  }

  /** What a written file holds: the header, then the data row. */
  function CsvContents(row: Row): seq<seq<string>> {
    [CsvFieldnames, CsvRecord(row)]
  }

  /** How a reader of the file recovers a row from its data row (`int` for numbers, `True` for true). */
  function ReadCsvRecord(line: seq<string>): Option<Row> {
    if |line| != 4 || line[3] !in ["True", "False"] then None
    else
      var userId :- ParseInt(line[0]);
      var id :- ParseInt(line[1]);
      Some(Row(userId, id, line[2], line[3] == "True"))
  }

  /** A written file has exactly two rows: the header and the row's values, which read back as the row. */
  lemma WrittenFileContents(row: Row)
    ensures |CsvContents(row)| == 2
    ensures CsvContents(row)[0] == ["userId", "id", "title", "completed"]
    ensures |CsvContents(row)[1]| == 4
    ensures ReadCsvRecord(CsvContents(row)[1]) == Some(row)
  {
    var line := CsvRecord(row);
    assert line[3] == (if row.completed then "True" else "False");
    IntToStringRoundTrip(row.userId);
    IntToStringRoundTrip(row.id);
  }

  lemma MiddleEqual(p: string, x: string, y: string, s: string)
    requires p + x + s == p + y + s
    ensures x == y
  {
    assert |x| == |y|;
    assert (p + x + s)[|p|..|p| + |x|] == x;
    assert (p + y + s)[|p|..|p| + |y|] == y;
  }

  /** Rows with different ids are written to different files. */
  lemma TargetPathInjective(dir: string, date: string, a: Row, b: Row)
    ensures TargetPath(dir, date, a) == TargetPath(dir, date, b) ==> a.id == b.id
  {
    if TargetPath(dir, date, a) == TargetPath(dir, date, b) {
      var p := dir + "/" + date + "_";
      assert TargetPath(dir, date, a) == p + IntToString(a.id) + ".csv";
      assert TargetPath(dir, date, b) == p + IntToString(b.id) + ".csv";
      MiddleEqual(p, IntToString(a.id), IntToString(b.id), ".csv");
      IntToStringInjective(a.id, b.id);
    }
  }

  /** Every file of `before` is in `after` with the same contents. */
  predicate Extends(after: FileSystem, before: FileSystem) {
    forall p :: p in before ==> p in after && after[p] == before[p]
  }

  lemma SubtractMore(m1: FileSystem, m2: FileSystem, a: set<string>, b: set<string>)
    requires a <= b && m1 - a == m2 - a
    ensures m1 - b == m2 - b
  {
    forall p | p !in b
      ensures (p in m1 <==> p in m2) && (p in m1 ==> m1[p] == m2[p])
    {
      assert p in m1 <==> p in m1 - a;
      assert p in m2 <==> p in m2 - a;
      if p in m1 {
        assert (m1 - a)[p] == m1[p];
        assert (m2 - a)[p] == m2[p];
      }
    }
  }

  /**
   * One iteration of the loop of `save_data`: the row is counted once, only
   * its target may change, and an existing target is left alone unless
   * overriding is on.
   */
  function SaveRow(overrideFiles: bool, target: string, contents: seq<seq<string>>,
                   attempt: WriteAttempt, st: SaveOutcome): (r: SaveOutcome)
    ensures r.saved + r.failed == st.saved + st.failed + 1
    ensures st.files.Keys <= r.files.Keys
    ensures r.files - {target} == st.files - {target}
    ensures !overrideFiles ==> Extends(r.files, st.files)
  {
    if !overrideFiles && target in st.files then st.(failed := st.failed + 1)
    else
      match attempt
      case Completes => st.(files := st.files[target := contents], saved := st.saved + 1)
      case FailsBeforeOpen => st.(failed := st.failed + 1)
      case FailsAfterOpen(partial) => st.(files := st.files[target := partial], failed := st.failed + 1)
  }

  /**
   * The whole loop of `save_data` over `rows`, from storage `fs` and both
   * counters at zero. Every row is counted exactly once, files only ever
   * appear, an existing file survives when overriding is off, and no path
   * other than the rows' targets is touched.
   */
  function SaveRows(overrideFiles: bool, dir: string, date: string, fs: FileSystem,
                    rows: seq<Row>, io: nat -> WriteAttempt): (out: SaveOutcome)
    ensures out.saved + out.failed == |rows|
    ensures fs.Keys <= out.files.Keys
    ensures !overrideFiles ==> Extends(out.files, fs)
    ensures out.files - TargetPaths(dir, date, rows) == fs - TargetPaths(dir, date, rows)
    decreases |rows|
  {
    if rows == [] then SaveOutcome(fs, 0, 0)
    else
      var last := |rows| - 1;
      assert TargetPaths(dir, date, rows[..last]) <= TargetPaths(dir, date, rows) by {
        assert forall row :: row in rows[..last] ==> row in rows;
      }
      var target := TargetPath(dir, date, rows[last]);
      assert target in TargetPaths(dir, date, rows);
      var before := SaveRows(overrideFiles, dir, date, fs, rows[..last], io);
      var after := SaveRow(overrideFiles, target, CsvContents(rows[last]), io(last), before);
      SubtractMore(after.files, before.files, {target}, TargetPaths(dir, date, rows));
      SubtractMore(before.files, fs, TargetPaths(dir, date, rows[..last]), TargetPaths(dir, date, rows));
      after
  }

  /** The state after the first `i` rows. */
  function SavedPrefix(overrideFiles: bool, dir: string, date: string, fs: FileSystem,
                       rows: seq<Row>, io: nat -> WriteAttempt, i: nat): SaveOutcome
    requires i <= |rows|
  {
    SaveRows(overrideFiles, dir, date, fs, rows[..i], io)
  }

  lemma SaveRowsStep(overrideFiles: bool, dir: string, date: string, fs: FileSystem,
                     rows: seq<Row>, io: nat -> WriteAttempt, i: nat)
    requires i < |rows|
    ensures SavedPrefix(overrideFiles, dir, date, fs, rows, io, i + 1)
      == SaveRow(overrideFiles, TargetPath(dir, date, rows[i]), CsvContents(rows[i]), io(i),
                 SavedPrefix(overrideFiles, dir, date, fs, rows, io, i))
  {
    assert rows[..i + 1][..i] == rows[..i];
  }

  /** With overriding off, a row whose file already exists counts as failed and changes nothing. */
  lemma ExistingFileCountsAsFailed(dir: string, date: string, fs: FileSystem,
                                   rows: seq<Row>, io: nat -> WriteAttempt, i: nat)
    requires i < |rows| && TargetPath(dir, date, rows[i]) in fs
    ensures var before := SavedPrefix(false, dir, date, fs, rows, io, i);
      var after := SavedPrefix(false, dir, date, fs, rows, io, i + 1);
      after == before.(failed := before.failed + 1)
  {
    SaveRowsStep(false, dir, date, fs, rows, io, i);
  }

  /** With overriding on, a completed write (re)writes the row's file whether or not it existed. */
  lemma OverrideRewrites(dir: string, date: string, fs: FileSystem,
                         rows: seq<Row>, io: nat -> WriteAttempt, i: nat)
    requires i < |rows| && io(i) == Completes
    ensures var before := SavedPrefix(true, dir, date, fs, rows, io, i);
      var after := SavedPrefix(true, dir, date, fs, rows, io, i + 1);
      after == before.(files := before.files[TargetPath(dir, date, rows[i]) := CsvContents(rows[i])],
                       saved := before.saved + 1)
  {
    SaveRowsStep(true, dir, date, fs, rows, io, i);
  }

  /** Files only appear as the loop goes on. */
  lemma {:induction false} SavedKeysGrow(overrideFiles: bool, dir: string, date: string, fs: FileSystem,
                                         rows: seq<Row>, io: nat -> WriteAttempt, i: nat, j: nat)
    requires i <= j <= |rows|
    ensures SavedPrefix(overrideFiles, dir, date, fs, rows, io, i).files.Keys
         <= SavedPrefix(overrideFiles, dir, date, fs, rows, io, j).files.Keys
    decreases j - i
  {
    if i < j {
      SavedKeysGrow(overrideFiles, dir, date, fs, rows, io, i, j - 1);
      SaveRowsStep(overrideFiles, dir, date, fs, rows, io, j - 1);
    }
  }

  /**
   * With overriding off, once a row's write got as far as opening its file,
   * every later row with the same id counts as failed and changes nothing.
   */
  lemma DuplicateIdFailsWithoutOverride(dir: string, date: string, fs: FileSystem,
                                        rows: seq<Row>, io: nat -> WriteAttempt, i: nat, j: nat)
    requires i < j < |rows| && rows[i].id == rows[j].id && io(i) != FailsBeforeOpen
    ensures var before := SavedPrefix(false, dir, date, fs, rows, io, j);
      var after := SavedPrefix(false, dir, date, fs, rows, io, j + 1);
      after == before.(failed := before.failed + 1)
  {
    var target := TargetPath(dir, date, rows[i]);
    SaveRowsStep(false, dir, date, fs, rows, io, i);
    assert target in SavedPrefix(false, dir, date, fs, rows, io, i + 1).files;
    SavedKeysGrow(false, dir, date, fs, rows, io, i + 1, j);
    SaveRowsStep(false, dir, date, fs, rows, io, j);
  }

  /** A file written for row `i` keeps its contents when no later row has the same id. */
  lemma {:induction false} LastWriteKept(overrideFiles: bool, dir: string, date: string, fs: FileSystem,
                                         rows: seq<Row>, io: nat -> WriteAttempt, i: nat, n: nat)
    requires i < n <= |rows|
    requires forall j :: i < j < n ==> rows[j].id != rows[i].id
    requires var after := SavedPrefix(overrideFiles, dir, date, fs, rows, io, i + 1);
      TargetPath(dir, date, rows[i]) in after.files && after.files[TargetPath(dir, date, rows[i])] == CsvContents(rows[i])
    ensures var final := SavedPrefix(overrideFiles, dir, date, fs, rows, io, n);
      TargetPath(dir, date, rows[i]) in final.files && final.files[TargetPath(dir, date, rows[i])] == CsvContents(rows[i])
    decreases n - i
  {
    if n > i + 1 {
      var target, other := TargetPath(dir, date, rows[i]), TargetPath(dir, date, rows[n - 1]);
      LastWriteKept(overrideFiles, dir, date, fs, rows, io, i, n - 1);
      SaveRowsStep(overrideFiles, dir, date, fs, rows, io, n - 1);
      TargetPathInjective(dir, date, rows[i], rows[n - 1]);
      var before := SavedPrefix(overrideFiles, dir, date, fs, rows, io, n - 1).files;
      var after := SavedPrefix(overrideFiles, dir, date, fs, rows, io, n).files;
      assert after - {other} == before - {other};
      assert target in before - {other} && (before - {other})[target] == CsvContents(rows[i]);
    }
  }

  /** With overriding on and every write completing, every row is saved and none fails. */
  lemma {:induction false} EveryRowSavedWithOverride(dir: string, date: string, fs: FileSystem,
                                                     rows: seq<Row>, io: nat -> WriteAttempt)
    requires forall i :: 0 <= i < |rows| ==> io(i) == Completes
    ensures SaveRows(true, dir, date, fs, rows, io).saved == |rows|
    ensures SaveRows(true, dir, date, fs, rows, io).failed == 0
    decreases |rows|
  {
    if rows != [] {
      EveryRowSavedWithOverride(dir, date, fs, rows[..|rows| - 1], io);
    }
  }

  /**
   * A full run with overriding on, every write completing and distinct ids:
   * each row has its own file, holding the header and that row's values.
   */
  lemma EveryRowHasItsFile(dir: string, date: string, fs: FileSystem,
                           rows: seq<Row>, io: nat -> WriteAttempt)
    requires forall i :: 0 <= i < |rows| ==> io(i) == Completes
    requires forall i, j :: 0 <= i < j < |rows| ==> rows[i].id != rows[j].id
    ensures forall i :: 0 <= i < |rows| ==>
      var final := SaveRows(true, dir, date, fs, rows, io);
      TargetPath(dir, date, rows[i]) in final.files && final.files[TargetPath(dir, date, rows[i])] == CsvContents(rows[i])
  {
    forall i | 0 <= i < |rows|
      ensures var final := SaveRows(true, dir, date, fs, rows, io);
        TargetPath(dir, date, rows[i]) in final.files && final.files[TargetPath(dir, date, rows[i])] == CsvContents(rows[i])
    {
      OverrideRewrites(dir, date, fs, rows, io, i);
      LastWriteKept(true, dir, date, fs, rows, io, i, |rows|);
      assert rows[..|rows|] == rows;
    }
  }

  // ---------------------------------------------------------------------------
  // The service
  // ---------------------------------------------------------------------------

  class ApiService {
    const url: string
    const persistentPath: string
    const overrideFiles: bool

    constructor (url: string, path: string, overrideFiles: bool := false)
      ensures this.url == url && persistentPath == path && this.overrideFiles == overrideFiles
    {
      this.url := url;
      this.persistentPath := path;
      this.overrideFiles := overrideFiles;
    }

    /** `fetch_data` after the HTTP call: validate each record, keep the rows that validate. */
    method FetchData(records: seq<Value>) returns (result: seq<Row>)
      ensures result == ValidRows(records)
      ensures |result| == |records| - InvalidCount(records)
    {
      result := [];
      for i := 0 to |records|
        invariant result == ValidRows(records[..i])
      {
        assert records[..i + 1][..i] == records[..i];
        match Validate(records[i]) {
          case Some(row) => result := result + [row];
          case None =>      // ValidationError: logged and skipped
        }
      }
      assert records[..|records|] == records;
      ValidRowsLength(records);
    }

    /** The directory `save_data` writes to: `path` unless it is absent or empty. */
    function StorageDir(path: Option<string>): (dir: string)
      ensures path.Some? && path.value != "" ==> dir == path.value
      ensures path == None || path == Some("") ==> dir == persistentPath
    {
      if path == None || path.value == "" then persistentPath else path.value
    }

    /** `save_data`: one file per row; an existing file is a failure unless overriding is on. */
    method SaveData(data: seq<Row>, path: Option<string>, date: string, fs: FileSystem, io: nat -> WriteAttempt)
      returns (files: FileSystem, saved: nat, failed: nat)
      ensures SaveOutcome(files, saved, failed) == SaveRows(overrideFiles, StorageDir(path), date, fs, data, io)
      ensures saved + failed == |data|
      ensures !overrideFiles ==> Extends(files, fs)
      ensures files - TargetPaths(StorageDir(path), date, data) == fs - TargetPaths(StorageDir(path), date, data)
    {
      var dir := StorageDir(path);
      files, saved, failed := fs, 0, 0;
      var groupedById := GroupData(data);   // computed, then not used, as in the source
      for i := 0 to |data|
        invariant SaveOutcome(files, saved, failed) == SaveRows(overrideFiles, dir, date, fs, data[..i], io)
      {
        assert data[..i + 1][..i] == data[..i];
        var row := data[i];
        var filePath := JoinPath(dir, FileName(date, row.id));
        if !overrideFiles && filePath in files {
          failed := failed + 1;     // FileExistsError
        } else {
          match io(i) {
            case Completes =>
              files := files[filePath := CsvContents(row)];
              saved := saved + 1;
            case FailsBeforeOpen =>
              failed := failed + 1;
            case FailsAfterOpen(partial) =>
              files := files[filePath := partial];
              failed := failed + 1;
          }
        }
      }
      assert data[..|data|] == data;
    }

    /** `run`: fetch, then save to the configured directory. */
    method Run(records: seq<Value>, date: string, fs: FileSystem, io: nat -> WriteAttempt)
      returns (files: FileSystem, saved: nat, failed: nat)
      ensures SaveOutcome(files, saved, failed)
        == SaveRows(overrideFiles, persistentPath, date, fs, ValidRows(records), io)
      ensures saved + failed == |records| - InvalidCount(records)
    {
      var data := FetchData(records);
      files, saved, failed := SaveData(data, None, date, fs, io);
    }

    /** `_group_data`: append each row to the list of its id, creating the list on first sight. */
    method GroupData(data: seq<Row>) returns (grouped: map<int, seq<Row>>)
      ensures grouped == Grouped(data)
    {
      grouped := map[];
      for i := 0 to |data|
        invariant grouped == Grouped(data[..i])
      {
        var row := data[i];
        var group := if row.id in grouped then grouped[row.id] else [];
        grouped := grouped[row.id := group + [row]];
        GroupedSnoc(data[..i], row);
        assert data[..i + 1] == data[..i] + [row];
      }
      assert data[..|data|] == data;
    }
  }
}
