/** The pure checks of the workflow integrity tester
    (test_annotation_workflow.py): the `log.csv` header and row checks, the
    `./` normalisation of session paths, the duplicate and sequential
    report-number checks, the deleted-markup filters over a session's
    markup log (CSV and XLSX) and the summary totals of the deletion
    report, and the command-line rules.

    A `csv.DictReader` row enters as the cells the tests read from it, each
    `row.get(column, default)` already applied; the directory walk, file
    existence and the `glob` checks are left to the caller. */
module Integrity {
  import opened PyText
  import opened Assoc
  import XlsxExit

  /** The `Report` and `Path` cells of a `log.csv` row. */
  datatype Row = Row(report: string, path: string)

  /** The stripped Report cell of a row. */
  function Report(row: Row): string {
    Strip(row.report)
  }

  /** The stripped Report cells, in order. */
  function Reports(rows: seq<Row>): (rs: seq<string>)
    ensures |rs| == |rows|
    ensures forall i :: 0 <= i < |rows| ==> rs[i] == Report(rows[i])
  {
    seq(|rows|, i requires 0 <= i < |rows| => Report(rows[i]))
  }

  /** The stripped Path cells, in order. */
  function Paths(rows: seq<Row>): (ps: seq<string>)
    ensures |ps| == |rows|
    ensures forall i :: 0 <= i < |rows| ==> ps[i] == Strip(rows[i].path)
  {
    seq(|rows|, i requires 0 <= i < |rows| => Strip(rows[i].path))
  }

  /** `Select(keep, xs)`: the elements of `xs` whose flag is set, in
      order, as a list comprehension with a condition builds them. */
  function Select<T>(keep: seq<bool>, xs: seq<T>): (out: seq<T>)
    requires |keep| == |xs|
    ensures |out| <= |xs|
    decreases |xs|
  {
    if |xs| == 0 then [] else (if keep[0] then [xs[0]] else []) + Select(keep[1..], xs[1..])
  }

  /** A selection holds every flagged element and nothing else. */
  lemma {:induction false} SelectContents<T>(keep: seq<bool>, xs: seq<T>)
    requires |keep| == |xs|
    ensures forall i :: 0 <= i < |xs| && keep[i] ==> xs[i] in Select(keep, xs)
    ensures forall x :: x in Select(keep, xs) ==> exists i :: 0 <= i < |xs| && keep[i] && xs[i] == x
    decreases |xs|
  {
    if |xs| > 0 {
      SelectContents(keep[1..], xs[1..]);
      var rest := Select(keep[1..], xs[1..]);
      assert Select(keep, xs) == (if keep[0] then [xs[0]] else []) + rest;
      forall i | 1 <= i < |xs| && keep[i] ensures xs[i] in rest {
        assert keep[1..][i - 1] == keep[i] && xs[1..][i - 1] == xs[i];
      }
      forall x | x in rest ensures exists i :: 0 <= i < |xs| && keep[i] && xs[i] == x {
        var i :| 0 <= i < |xs[1..]| && keep[1..][i] && xs[1..][i] == x;
        assert keep[i + 1] && xs[i + 1] == x;
      }
    }
  }

  // ---------------------------------------------------------------------
  // Header and rows
  // ---------------------------------------------------------------------

  const LogHeader: seq<string> := ["Report", "Path", "Done"]

  /** `test_log_csv_format`: three columns, then each name in its place. */
  function HeaderOk(header: seq<string>): (ok: bool)
    ensures ok <==> header == LogHeader
  {
    |header| == 3 && header[0] == "Report" && header[1] == "Path" && header[2] == "Done"
  }

  /** `s.isdigit()` scanned left to right (ASCII digits only). */
  function DigitString(s: string): (ok: bool)
    ensures ok <==> IsDigits(s)
    decreases |s|
  {
    if |s| == 0 then false
    else if |s| == 1 then IsAsciiDigit(s[0])
    else
      assert forall i :: 1 <= i < |s| ==> s[i] == s[1..][i - 1];
      IsAsciiDigit(s[0]) && DigitString(s[1..])
  }

  /** `test_log_csv_entries_valid` on the stripped cells of one row. */
  predicate CellsValid(report: string, path: string) {
    DigitString(report) && path != ""
  }

  predicate RowValid(row: Row) {
    CellsValid(Report(row), Strip(row.path))
  }

  /** The scan from position `from` over the stripped cells. */
  function FirstInvalidFrom(reports: seq<string>, paths: seq<string>, from: nat): (r: Option<nat>)
    requires from <= |reports| == |paths|
    ensures r.None? <==> forall i :: from <= i < |reports| ==> CellsValid(reports[i], paths[i])
    ensures r.Some? ==> from + 2 <= r.value < |reports| + 2 && !CellsValid(reports[r.value - 2], paths[r.value - 2])
    ensures r.Some? ==> forall i :: from <= i < r.value - 2 ==> CellsValid(reports[i], paths[i])
    decreases |reports| - from
  {
    if from == |reports| then None
    else if !CellsValid(reports[from], paths[from]) then Some(from + 2)
    else FirstInvalidFrom(reports, paths, from + 1)
  }

  /** The row number (counted from 2, after the header) at which
      `test_log_csv_entries_valid` stops, `None` when every row passes. */
  function FirstInvalid(rows: seq<Row>): (r: Option<nat>)
    ensures r.None? <==> forall i :: 0 <= i < |rows| ==> RowValid(rows[i])
    ensures r.Some? ==> 2 <= r.value < |rows| + 2 && !RowValid(rows[r.value - 2])
    ensures r.Some? ==> forall i :: 0 <= i < r.value - 2 ==> RowValid(rows[i])
  {
    FirstInvalidFrom(Reports(rows), Paths(rows), 0)
  }

  /** A valid row has a report number `int()` accepts and a non-empty
      path. */
  lemma {:induction false} ValidRowFields(row: Row)
    requires RowValid(row)
    ensures ParseInt(Report(row)).Some? && |Strip(row.path)| > 0
  {
  }

  // ---------------------------------------------------------------------
  // Paths
  // ---------------------------------------------------------------------

  /** `if path.startswith('./'): path = path[2:]` */
  function NormalizePath(p: string): (q: string)
    ensures StartsWith(p, "./") ==> "./" + q == p
    ensures !StartsWith(p, "./") ==> q == p
  {
    if StartsWith(p, "./") then p[2..] else p
  }

  /** The normalisation removes exactly one `./`: it undoes prefixing, so a
      path that starts with `././` keeps one. */
  lemma {:induction false} NormalizePrefixed(q: string)
    ensures NormalizePath("./" + q) == q
    ensures StartsWith(q, "./") ==> StartsWith(NormalizePath("./" + q), "./")
  {
    assert ("./" + q)[..2] == "./";
  }

  /** The normalised paths of `log.csv`, in order. */
  function LogPaths(rows: seq<Row>): (paths: seq<string>)
    ensures |paths| == |rows|
    ensures forall i :: 0 <= i < |rows| ==> paths[i] == NormalizePath(Strip(rows[i].path))
  {
    var ps := Paths(rows);
    seq(|rows|, i requires 0 <= i < |rows| => NormalizePath(ps[i]))
  }

  /** `test_all_scanning_sessions_in_log`: every session directory found
      on disk is listed. */
  function SessionsListed(sessions: seq<string>, paths: seq<string>): (ok: bool)
    ensures ok <==> forall i :: 0 <= i < |sessions| ==> sessions[i] in paths
    decreases |sessions|
  {
    if |sessions| == 0 then true
    else
      assert forall i :: 1 <= i < |sessions| ==> sessions[i] == sessions[1..][i - 1];
      sessions[0] in paths && SessionsListed(sessions[1..], paths)
  }

  // ---------------------------------------------------------------------
  // Duplicate report numbers
  // ---------------------------------------------------------------------

  /** `xs.count(x)` */
  function Count(xs: seq<string>, x: string): nat
    decreases |xs|
  {
    if |xs| == 0 then 0 else (if xs[0] == x then 1 else 0) + Count(xs[1..], x)
  }

  /** A value at two positions is counted at least twice. */
  lemma {:induction false} CountTwice(xs: seq<string>, i: nat, j: nat)
    requires i < j < |xs| && xs[i] == xs[j]
    ensures Count(xs, xs[i]) >= 2
    decreases |xs|
  {
    if i == 0 {
      CountPresent(xs[1..], j - 1);
    } else {
      CountTwice(xs[1..], i - 1, j - 1);
    }
  }

  lemma {:induction false} CountPresent(xs: seq<string>, i: nat)
    requires i < |xs|
    ensures Count(xs, xs[i]) >= 1
    decreases |xs|
  {
    if i > 0 {
      CountPresent(xs[1..], i - 1);
    }
  }

  /** In a sequence without repeats every element is counted once. */
  lemma {:induction false} CountDistinct(xs: seq<string>, x: string)
    requires forall i, j :: 0 <= i < j < |xs| ==> xs[i] != xs[j]
    ensures Count(xs, x) <= 1
    decreases |xs|
  {
    if |xs| > 0 {
      CountDistinct(xs[1..], x);
      if xs[0] == x {
        CountAbsent(xs[1..], x);
      }
    }
  }

  lemma {:induction false} CountAbsent(xs: seq<string>, x: string)
    requires x !in xs
    ensures Count(xs, x) == 0
    decreases |xs|
  {
    if |xs| > 0 {
      CountAbsent(xs[1..], x);
    }
  }

  /** `set(num for num in xs if xs.count(num) > 1)` */
  function Duplicates(xs: seq<string>): set<string> {
    set i | 0 <= i < |xs| && Count(xs, xs[i]) > 1 :: xs[i]
  }

  /** `test_no_duplicate_reports` */
  predicate NoDuplicates(rows: seq<Row>) {
    |Duplicates(Reports(rows))| == 0
  }

  /** The duplicate check passes exactly when the stripped report strings
      are pairwise distinct. */
  lemma {:induction false} NoDuplicatesIff(rows: seq<Row>)
    ensures NoDuplicates(rows) <==>
      forall i, j :: 0 <= i < j < |rows| ==> Report(rows[i]) != Report(rows[j])
  {
    var xs := Reports(rows);
    if forall i, j :: 0 <= i < j < |xs| ==> xs[i] != xs[j] {
      forall i | 0 <= i < |xs| ensures Count(xs, xs[i]) <= 1 {
        CountDistinct(xs, xs[i]);
      }
      assert Duplicates(xs) == {};
    } else {
      var i, j :| 0 <= i < j < |xs| && xs[i] == xs[j];
      CountTwice(xs, i, j);
      assert xs[i] in Duplicates(xs);
    }
  }

  // ---------------------------------------------------------------------
  // Sequential report numbers
  // ---------------------------------------------------------------------

  /** `int(report)` for every stripped report that `isdigit()`, in order. */
  function ReportNumbers(reports: seq<string>): (nums: seq<nat>)
    ensures |nums| <= |reports|
  {
    var keep := seq(|reports|, i requires 0 <= i < |reports| => DigitString(reports[i]));
    var values: seq<nat> := seq(|reports|, i requires 0 <= i < |reports| => if DigitString(reports[i]) then DigitsValue(reports[i]) else 0);
    Select(keep, values)
  }

  /** The numbers are those of the all-digit reports. */
  lemma {:induction false} ReportNumbersContents(reports: seq<string>)
    ensures forall i :: 0 <= i < |reports| && IsDigits(reports[i]) ==> DigitsValue(reports[i]) in ReportNumbers(reports)
    ensures forall x :: x in ReportNumbers(reports) ==>
      exists i :: 0 <= i < |reports| && IsDigits(reports[i]) && DigitsValue(reports[i]) == x
  {
    var keep := seq(|reports|, i requires 0 <= i < |reports| => DigitString(reports[i]));
    var values: seq<nat> := seq(|reports|, i requires 0 <= i < |reports| => if DigitString(reports[i]) then DigitsValue(reports[i]) else 0);
    SelectContents(keep, values);
    forall i | 0 <= i < |reports| && IsDigits(reports[i])
      ensures DigitsValue(reports[i]) in ReportNumbers(reports)
    {
      assert keep[i] && values[i] == DigitsValue(reports[i]);
    }
    forall x | x in ReportNumbers(reports)
      ensures exists i :: 0 <= i < |reports| && IsDigits(reports[i]) && DigitsValue(reports[i]) == x
    {
      var i :| 0 <= i < |values| && keep[i] && values[i] == x;
    }
  }

  predicate Sorted(xs: seq<nat>) {
    forall i, j :: 0 <= i < j < |xs| ==> xs[i] <= xs[j]
  }

  /** Every element of `ys` is one of `xs` or `x`. */
  lemma {:induction false} InsertBound(x: nat, xs: seq<nat>, ys: seq<nat>, lo: nat)
    requires multiset(ys) == multiset(xs) + multiset{x}
    requires lo <= x && forall k :: 0 <= k < |xs| ==> lo <= xs[k]
    ensures forall k :: 0 <= k < |ys| ==> lo <= ys[k]
  {
    forall k | 0 <= k < |ys| ensures lo <= ys[k] {
      assert ys[k] in multiset(ys);
      if ys[k] != x {
        assert ys[k] in multiset(xs);
        var j :| 0 <= j < |xs| && xs[j] == ys[k];
      }
    }
  }

  /** Inserting into a sorted sequence keeps it sorted and adds exactly
      the one element. */
  function Insert(x: nat, xs: seq<nat>): (r: seq<nat>)
    requires Sorted(xs)
    ensures Sorted(r) && multiset(r) == multiset(xs) + multiset{x}
    decreases |xs|
  {
    if |xs| == 0 || x <= xs[0] then [x] + xs
    else
      var rest := Insert(x, xs[1..]);
      assert xs == [xs[0]] + xs[1..];
      InsertBound(x, xs[1..], rest, xs[0]);
      [xs[0]] + rest
  }

  /** `list.sort()` on the numbers: a sorted permutation. */
  function Sort(xs: seq<nat>): (r: seq<nat>)
    ensures Sorted(r) && multiset(r) == multiset(xs)
    decreases |xs|
  {
    if |xs| == 0 then []
    else
      assert xs == [xs[0]] + xs[1..];
      Insert(xs[0], Sort(xs[1..]))
  }

  /** The first element of a non-empty sorted sequence is its least. */
  lemma {:induction false} SortedHead(a: seq<nat>, v: nat)
    requires Sorted(a) && v in multiset(a)
    ensures a[0] <= v
  {
    var i :| 0 <= i < |a| && a[i] == v;
  }

  /** Two sorted sequences with the same elements are equal, so the sort
      is determined by the multiset it sorts. */
  lemma {:induction false} SortedUnique(a: seq<nat>, b: seq<nat>)
    requires Sorted(a) && Sorted(b) && multiset(a) == multiset(b)
    ensures a == b
    decreases |a|
  {
    assert |a| == |multiset(a)| == |multiset(b)| == |b|;
    if |a| > 0 {
      assert a[0] in multiset(a) && b[0] in multiset(b);
      SortedHead(a, b[0]);
      SortedHead(b, a[0]);
      assert a[0] == b[0];
      MultisetTail(a);
      MultisetTail(b);
      SortedTail(a);
      SortedTail(b);
      SortedUnique(a[1..], b[1..]);
      assert a == [a[0]] + a[1..] && b == [b[0]] + b[1..];
    }
  }

  lemma {:induction false} MultisetTail(a: seq<nat>)
    requires |a| > 0
    ensures multiset(a[1..]) == multiset(a) - multiset{a[0]}
  {
    assert a == [a[0]] + a[1..];
  }

  lemma {:induction false} SortedTail(a: seq<nat>)
    requires Sorted(a) && |a| > 0
    ensures Sorted(a[1..])
  {
    forall i, j | 0 <= i < j < |a| - 1 ensures a[1..][i] <= a[1..][j] {
      assert a[1..][i] == a[i + 1] && a[1..][j] == a[j + 1];
    }
  }

  /** `list(range(1, n + 1))` */
  function Range(n: nat): (r: seq<nat>)
    ensures |r| == n
    ensures forall i :: 0 <= i < n ==> r[i] == i + 1
  {
    seq(n, i requires 0 <= i < n => i + 1)
  }

  datatype Verdict = Skipped | Passed | Failed

  /** `test_report_numbers_are_sequential`: skipped without numbers; else
      the sorted numbers must start at 1 and be exactly `1..n`. */
  function SequentialCheck(rows: seq<Row>): Verdict {
    var nums := Sort(ReportNumbers(Reports(rows)));
    if |nums| == 0 then Skipped
    else if nums[0] != 1 then Failed
    else if nums == Range(|nums|) then Passed
    else Failed
  }

  /** Elements of a sequence without repeats occur once. */
  lemma {:induction false} DistinctOnce(xs: seq<nat>, v: nat)
    requires forall i, j :: 0 <= i < j < |xs| ==> xs[i] != xs[j]
    ensures multiset(xs)[v] <= 1
    decreases |xs|
  {
    if |xs| > 0 {
      assert xs == [xs[0]] + xs[1..];
      DistinctOnce(xs[1..], v);
      if xs[0] == v {
        assert v !in xs[1..];
      }
    }
  }

  /** A value at two positions occurs at least twice. */
  lemma {:induction false} RepeatTwice(xs: seq<nat>, i: nat, j: nat)
    requires i < j < |xs| && xs[i] == xs[j]
    ensures multiset(xs)[xs[i]] >= 2
  {
    assert xs == xs[..j] + [xs[j]] + xs[j + 1..];
    assert xs[i] in xs[..j];
  }

  /** The test passes exactly when the report numbers are a permutation
      of `1..n`, `n` being how many there are. */
  lemma {:induction false} SequentialIff(rows: seq<Row>)
    ensures var nums := ReportNumbers(Reports(rows));
      SequentialCheck(rows) == Passed <==> |nums| > 0 && multiset(nums) == multiset(Range(|nums|))
  {
    var nums := ReportNumbers(Reports(rows));
    var sorted := Sort(nums);
    var n := |nums|;
    assert |sorted| == |multiset(sorted)| == n;
    if n > 0 && multiset(nums) == multiset(Range(n)) {
      assert Sorted(Range(n));
      SortedUnique(sorted, Range(n));
    }
  }

  /** A permutation of `1..n` has distinct elements, all in `1..n`, one
      of them `n`. */
  lemma {:induction false} PermutationOfRange(nums: seq<nat>)
    requires |nums| > 0 && multiset(nums) == multiset(Range(|nums|))
    ensures forall i, j :: 0 <= i < j < |nums| ==> nums[i] != nums[j]
    ensures forall i :: 0 <= i < |nums| ==> 1 <= nums[i] <= |nums|
    ensures |nums| in nums
  {
    var n := |nums|;
    var range := Range(n);
    forall i, j | 0 <= i < j < n ensures nums[i] != nums[j] {
      if nums[i] == nums[j] {
        RepeatTwice(nums, i, j);
        DistinctOnce(range, nums[i]);
        assert false;
      }
    }
    forall i | 0 <= i < n ensures 1 <= nums[i] <= n {
      assert nums[i] in multiset(range);
    }
    assert range[n - 1] == n;
    assert n in multiset(nums);
  }

  /** A passing check means the numbers are distinct, lie in `1..n`, and
      reach `n`. */
  lemma {:induction false} SequentialPass(rows: seq<Row>)
    requires SequentialCheck(rows) == Passed
    ensures var nums := ReportNumbers(Reports(rows));
      && (forall i, j :: 0 <= i < j < |nums| ==> nums[i] != nums[j])
      && (forall i :: 0 <= i < |nums| ==> 1 <= nums[i] <= |nums|)
      && |nums| in nums
  {
    SequentialIff(rows);
    PermutationOfRange(ReportNumbers(Reports(rows)));
  }

  // ---------------------------------------------------------------------
  // Deleted markups
  // ---------------------------------------------------------------------

  /** One deleted markup of the report: file name, description and the
      `deleted_at` text. Cells of the XLSX log may be empty (`None`). */
  datatype DeletedMarkup = DeletedMarkup(filename: XlsxExit.Cell, description: XlsxExit.Cell, deletedAt: string)

  /** The cells of a `markup_log.csv` row the tester reads: `filename`
      (default `unknown`), `content` and `deleted_at` (default empty). */
  datatype MarkupRow = MarkupRow(filename: string, content: string, deletedAt: string)

  /** The stripped `deleted_at` of a markup row. */
  function CsvStamp(row: MarkupRow): string {
    Strip(row.deletedAt)
  }

  /** `if deleted_at and deleted_at != 'None'` */
  predicate CsvDeleted(row: MarkupRow) {
    CsvStamp(row) != "" && CsvStamp(row) != "None"
  }

  /** `content[:100]` */
  function Prefix100(s: string): (p: string)
    ensures |p| <= 100 && |p| <= |s| && p == s[..|p|]
    ensures |s| <= 100 ==> p == s
  {
    if |s| <= 100 then s else s[..100]
  }

  function CsvMarkup(row: MarkupRow): DeletedMarkup {
    DeletedMarkup(Some(row.filename), Some(Prefix100(row.content)), CsvStamp(row))
  }

  /** The CSV branch of `test_log_deleted_markups`: the deleted rows, in
      order. */
  function CsvDeletedMarkups(rows: seq<MarkupRow>): (out: seq<DeletedMarkup>)
    ensures |out| <= |rows|
  {
    Select(seq(|rows|, i requires 0 <= i < |rows| => CsvDeleted(rows[i])),
           seq(|rows|, i requires 0 <= i < |rows| => CsvMarkup(rows[i])))
  }

  /** The CSV filter reports every row with a real `deleted_at` and
      nothing else; each report has at most 100 characters of
      description. */
  lemma {:induction false} CsvDeletedContents(rows: seq<MarkupRow>)
    ensures forall i :: 0 <= i < |rows| && CsvDeleted(rows[i]) ==> CsvMarkup(rows[i]) in CsvDeletedMarkups(rows)
    ensures forall m :: m in CsvDeletedMarkups(rows) ==>
      exists i :: 0 <= i < |rows| && CsvDeleted(rows[i]) && m == CsvMarkup(rows[i])
    ensures forall m :: m in CsvDeletedMarkups(rows) ==>
      m.deletedAt != "" && m.deletedAt != "None" && m.description.Some? && |m.description.value| <= 100
  {
    var keep := seq(|rows|, i requires 0 <= i < |rows| => CsvDeleted(rows[i]));
    var markups := seq(|rows|, i requires 0 <= i < |rows| => CsvMarkup(rows[i]));
    SelectContents(keep, markups);
    forall i | 0 <= i < |rows| && CsvDeleted(rows[i])
      ensures CsvMarkup(rows[i]) in CsvDeletedMarkups(rows)
    {
      assert keep[i] && markups[i] == CsvMarkup(rows[i]);
    }
    forall m | m in CsvDeletedMarkups(rows)
      ensures exists i :: 0 <= i < |rows| && CsvDeleted(rows[i]) && m == CsvMarkup(rows[i])
      ensures m.deletedAt != "" && m.deletedAt != "None" && m.description.Some? && |m.description.value| <= 100
    {
      var i :| 0 <= i < |markups| && keep[i] && markups[i] == m;
    }
  }

  /** `if deleted_at and str(deleted_at).strip() and str(deleted_at) != 'None'` */
  predicate XlsxDeleted(c: XlsxExit.Cell) {
    XlsxExit.Truthy(c) && Strip(c.value) != "" && c.value != "None"
  }

  /** The columns the XLSX branch reads: `deleted_at`, `new_filename`
      (column 0 when absent) and `report_content` (column 1 when absent). */
  datatype Columns = Columns(deletedAt: nat, filename: nat, reportContent: nat)

  function ColumnOr(headers: Dict<XlsxExit.Cell, nat>, name: string, default: nat): nat {
    match Lookup(headers, Some(name))
    case Some(c) => c
    case None => default
  }

  /** A cell by column, or `default` past the end of the row. */
  function CellOr(row: seq<XlsxExit.Cell>, col: nat, default: XlsxExit.Cell): (c: XlsxExit.Cell)
    ensures col < |row| ==> c == row[col]
    ensures col >= |row| ==> c == default
  {
    if col < |row| then row[col] else default
  }

  /** Whether the XLSX row loop reports a non-empty row: its first cell is
      truthy and its `deleted_at` cell passes the test. */
  predicate ScanListed(row: seq<XlsxExit.Cell>, cols: Columns) {
    |row| > 0 && XlsxExit.Truthy(row[0]) && XlsxDeleted(CellOr(row, cols.deletedAt, None))
  }

  /** The report for a row: its file name (`unknown` past the row's end),
      its report content (empty past the end) and its `deleted_at` text. */
  function ScanMarkup(row: seq<XlsxExit.Cell>, cols: Columns): DeletedMarkup {
    var stamp := CellOr(row, cols.deletedAt, None);
    DeletedMarkup(CellOr(row, cols.filename, Some("unknown")), CellOr(row, cols.reportContent, Some("")),
                  if stamp.Some? then stamp.value else "")
  }

  /** The XLSX row loop: rows with a falsy first cell are skipped; an empty
      row raises `IndexError`, which ends the loop and keeps what was found
      before it. */
  function XlsxScan(rows: seq<seq<XlsxExit.Cell>>, cols: Columns): (out: seq<DeletedMarkup>)
    ensures |out| <= |rows|
    ensures forall m :: m in out ==> m.deletedAt != "" && Strip(m.deletedAt) != "" && m.deletedAt != "None"
    decreases |rows|
  {
    if |rows| == 0 || |rows[0]| == 0 then []
    else (if ScanListed(rows[0], cols) then [ScanMarkup(rows[0], cols)] else []) + XlsxScan(rows[1..], cols)
  }

  /** The index of the first empty row, where the row loop stops; `|rows|`
      when there is none. */
  function FirstEmpty(rows: seq<seq<XlsxExit.Cell>>): (n: nat)
    ensures n <= |rows|
    ensures n < |rows| ==> |rows[n]| == 0
    ensures forall i :: 0 <= i < n ==> |rows[i]| > 0
    decreases |rows|
  {
    if |rows| == 0 || |rows[0]| == 0 then 0 else FirstEmpty(rows[1..]) + 1
  }

  /** For each row, whether the row loop would report it. */
  function ScanFlags(rows: seq<seq<XlsxExit.Cell>>, cols: Columns): (f: seq<bool>)
    ensures |f| == |rows|
    ensures forall i :: 0 <= i < |rows| ==> f[i] == ScanListed(rows[i], cols)
  {
    seq(|rows|, i requires 0 <= i < |rows| => ScanListed(rows[i], cols))
  }

  /** For each row, the report the row loop would make of it. */
  function ScanMarkups(rows: seq<seq<XlsxExit.Cell>>, cols: Columns): (m: seq<DeletedMarkup>)
    ensures |m| == |rows|
    ensures forall i :: 0 <= i < |rows| ==> m[i] == ScanMarkup(rows[i], cols)
  {
    seq(|rows|, i requires 0 <= i < |rows| => ScanMarkup(rows[i], cols))
  }

  /** The row loop reports, in order, exactly the listed rows before the
      first empty row. */
  lemma {:induction false} XlsxScanSelects(rows: seq<seq<XlsxExit.Cell>>, cols: Columns)
    ensures var prefix := rows[..FirstEmpty(rows)];
      XlsxScan(rows, cols) == Select(ScanFlags(prefix, cols), ScanMarkups(prefix, cols))
    decreases |rows|
  {
    var prefix := rows[..FirstEmpty(rows)];
    if |prefix| > 0 {
      var tail := rows[1..];
      XlsxScanSelects(tail, cols);
      var tailPrefix := tail[..FirstEmpty(tail)];
      assert prefix[1..] == tailPrefix;
      assert ScanFlags(prefix, cols)[1..] == ScanFlags(tailPrefix, cols);
      assert ScanMarkups(prefix, cols)[1..] == ScanMarkups(tailPrefix, cols);
    }
  }

  /** Every listed row before the first empty row is reported, with its
      file name, description and stamp. */
  lemma {:induction false} XlsxScanComplete(rows: seq<seq<XlsxExit.Cell>>, cols: Columns)
    ensures forall i :: 0 <= i < FirstEmpty(rows) && ScanListed(rows[i], cols) ==>
      ScanMarkup(rows[i], cols) in XlsxScan(rows, cols)
  {
    var prefix := rows[..FirstEmpty(rows)];
    var keep := ScanFlags(prefix, cols);
    var marks := ScanMarkups(prefix, cols);
    XlsxScanSelects(rows, cols);
    SelectContents(keep, marks);
    forall i | 0 <= i < |prefix| && ScanListed(rows[i], cols)
      ensures ScanMarkup(rows[i], cols) in Select(keep, marks)
    {
      assert prefix[i] == rows[i] && keep[i];
    }
  }

  /** Every report comes from a listed row before the first empty row. */
  lemma {:induction false} XlsxScanSound(rows: seq<seq<XlsxExit.Cell>>, cols: Columns)
    ensures forall m :: m in XlsxScan(rows, cols) ==>
      exists i :: 0 <= i < FirstEmpty(rows) && ScanListed(rows[i], cols) && m == ScanMarkup(rows[i], cols)
  {
    var prefix := rows[..FirstEmpty(rows)];
    var keep := ScanFlags(prefix, cols);
    var marks := ScanMarkups(prefix, cols);
    XlsxScanSelects(rows, cols);
    SelectContents(keep, marks);
    forall m | m in XlsxScan(rows, cols)
      ensures exists i :: 0 <= i < FirstEmpty(rows) && ScanListed(rows[i], cols) && m == ScanMarkup(rows[i], cols)
    {
      assert m in Select(keep, marks);
      var i :| 0 <= i < |marks| && keep[i] && marks[i] == m;
      assert prefix[i] == rows[i];
      assert ScanListed(rows[i], cols) && m == ScanMarkup(rows[i], cols);
    }
  }

  /** The XLSX branch of `test_log_deleted_markups`: nothing without a
      `deleted_at` header. */
  function XlsxDeletedMarkups(sheet: XlsxExit.Sheet): (out: seq<DeletedMarkup>)
    ensures Some("deleted_at") !in sheet.header ==> out == []
  {
    var headers := XlsxExit.HeaderIndex(sheet.header);
    match Lookup(headers, Some("deleted_at"))
    case None => []
    case Some(dc) =>
      XlsxScan(sheet.rows, Columns(dc, ColumnOr(headers, "new_filename", 0), ColumnOr(headers, "report_content", 1)))
  }

  /** The deletions the tester should find in a written log: the entries
      whose `deleted_at` passes its test, in order. */
  function StampedEntries(log: XlsxExit.Log): (out: seq<DeletedMarkup>)
    decreases |log|
  {
    if |log| == 0 then []
    else
      var rest := StampedEntries(log[1..]);
      if XlsxDeleted(log[0].1.deletedAt) then [Stamp(log[0])] + rest else rest
  }

  /** The deletion reported for a stamped entry: its report content as
      stored, so an empty one reads as `None`. */
  function Stamp(item: (string, XlsxExit.Entry)): (m: DeletedMarkup)
    requires XlsxDeleted(item.1.deletedAt)
  {
    DeletedMarkup(Some(item.0), XlsxExit.Stored(item.1.reportContent), item.1.deletedAt.value)
  }

  /** One written row as the XLSX row loop reads it. */
  lemma {:induction false} ScanWrittenStep(log: XlsxExit.Log)
    requires XlsxExit.NamedKeys(log) && |log| > 0
    ensures var rows := XlsxExit.WrittenRows(log);
      && rows[1..] == XlsxExit.WrittenRows(log[1..])
      && XlsxScan(rows, Columns(4, 0, 1)) ==
        (if XlsxDeleted(log[0].1.deletedAt) then [Stamp(log[0])] else [])
        + XlsxScan(rows[1..], Columns(4, 0, 1))
  {
    var rows := XlsxExit.WrittenRows(log);
    var (k, e) := log[0];
    assert rows[0] == XlsxExit.OutputRow(k, e);
    assert rows[0][0] == Some(k) && k != "";
    assert CellOr(rows[0], 4, None) == XlsxExit.Stored(e.deletedAt);
    assert rows[1..] == XlsxExit.WrittenRows(log[1..]);
  }

  lemma {:induction false} ScanWritten(log: XlsxExit.Log)
    requires XlsxExit.NamedKeys(log)
    ensures XlsxScan(XlsxExit.WrittenRows(log), Columns(4, 0, 1)) == StampedEntries(log)
    decreases |log|
  {
    if |log| > 0 {
      ScanWrittenStep(log);
      assert XlsxExit.NamedKeys(log[1..]) by {
        assert forall i :: 1 <= i < |log| ==> log[1..][i - 1] == log[i];
      }
      ScanWritten(log[1..]);
    }
  }

  /** Read back by the tester, the sheet the XLSX exit routine writes
      reports every entry whose `deleted_at` is a real timestamp, under its
      file name and with its stored report content (`None` for an empty
      one), in log order. */
  lemma {:induction false} XlsxDeletedOfWritten(log: XlsxExit.Log)
    requires XlsxExit.NamedKeys(log) && |log| > 0
    ensures XlsxDeletedMarkups(XlsxExit.OutputSheet(log).value) == StampedEntries(log)
  {
    XlsxExit.OutputColumns();
    assert Some("new_filename") !in Keys(XlsxExit.HeaderIndex(XlsxExit.OutputHeader));
    ScanWritten(log);
  }

  // ---------------------------------------------------------------------
  // The deletion report
  // ---------------------------------------------------------------------

  /** One report as the tester visits it, with the deletions found. */
  datatype Session = Session(workflow: string, reportNumber: string, sessionPath: string, deleted: seq<DeletedMarkup>)

  /** An entry of `DELETED_MARKUPS_LOG`. */
  datatype ReportDeletions = ReportDeletions(
    workflow: string, reportNumber: string, sessionPath: string, deleted: seq<DeletedMarkup>, totalDeleted: nat)

  /** `if deleted_markups: DELETED_MARKUPS_LOG.append({...})` over the
      visited reports. */
  function Collect(sessions: seq<Session>): (log: seq<ReportDeletions>)
    ensures |log| <= |sessions|
    ensures forall i :: 0 <= i < |log| ==> |log[i].deleted| > 0 && log[i].totalDeleted == |log[i].deleted|
    decreases |sessions|
  {
    if |sessions| == 0 then []
    else
      var s := sessions[0];
      var rest := Collect(sessions[1..]);
      if |s.deleted| > 0 then [ReportDeletions(s.workflow, s.reportNumber, s.sessionPath, s.deleted, |s.deleted|)] + rest
      else rest
  }

  /** `sum(item['total_deleted'] for item in DELETED_MARKUPS_LOG)` */
  function TotalDeleted(log: seq<ReportDeletions>): nat
    decreases |log|
  {
    if |log| == 0 then 0 else log[0].totalDeleted + TotalDeleted(log[1..])
  }

  /** The deletions found over all visited reports. */
  function Found(sessions: seq<Session>): nat
    decreases |sessions|
  {
    if |sessions| == 0 then 0 else |sessions[0].deleted| + Found(sessions[1..])
  }

  /** The summary total counts every deletion found, and a report is
      recorded exactly when it has one. */
  lemma {:induction false} CollectTotal(sessions: seq<Session>)
    ensures TotalDeleted(Collect(sessions)) == Found(sessions)
    ensures |Collect(sessions)| == 0 <==> forall i :: 0 <= i < |sessions| ==> |sessions[i].deleted| == 0
    decreases |sessions|
  {
    if |sessions| > 0 {
      CollectTotal(sessions[1..]);
      assert forall i :: 1 <= i < |sessions| ==> sessions[i] == sessions[1..][i - 1];
      var log := Collect(sessions);
      if |sessions[0].deleted| > 0 {
        assert log[1..] == Collect(sessions[1..]);
      }
    }
  }

  /** The summary of `write_deleted_markups_log` and `_json`: reports with
      deletions and total deletions; no file when nothing was found. */
  function Summary(log: seq<ReportDeletions>): (r: Option<(nat, nat)>)
    ensures r.None? <==> |log| == 0
  {
    if |log| == 0 then None else Some((|log|, TotalDeleted(log)))
  }

  /** Each recorded report counts at least one deletion. */
  lemma {:induction false} TotalAtLeast(log: seq<ReportDeletions>)
    requires forall i :: 0 <= i < |log| ==> log[i].totalDeleted > 0
    ensures TotalDeleted(log) >= |log|
    decreases |log|
  {
    if |log| > 0 {
      TotalAtLeast(log[1..]);
    }
  }

  /** Over the visited reports, the summary exists exactly when some
      deletion was found; it then counts every deletion found, and no more
      reports than deletions. */
  lemma {:induction false} SummaryOfCollect(sessions: seq<Session>)
    ensures var r := Summary(Collect(sessions));
      (r.None? <==> forall i :: 0 <= i < |sessions| ==> |sessions[i].deleted| == 0)
      && (r.Some? ==> r.value.1 == Found(sessions) && r.value.0 <= r.value.1)
  {
    CollectTotal(sessions);
    TotalAtLeast(Collect(sessions));
  }

  // ---------------------------------------------------------------------
  // Command line
  // ---------------------------------------------------------------------

  datatype Args = Args(directory: Option<string>, workflow: Option<string>, verbose: bool, quiet: bool)

  /** An option counts as given when its text is truthy. */
  predicate Given(o: Option<string>) {
    o.Some? && o.value != ""
  }

  /** `if args.directory and args.workflow:` exits with an error. */
  predicate Conflicting(a: Args) {
    Given(a.directory) && Given(a.workflow)
  }

  /** Quiet wins over verbose; the default is 1. */
  function Verbosity(a: Args): (v: nat)
    ensures v <= 2
    ensures v == 0 <==> a.quiet
    ensures v == 2 <==> !a.quiet && a.verbose
    ensures v == 1 <==> !a.quiet && !a.verbose
  {
    if a.quiet then 0 else if a.verbose then 2 else 1
  }

  /** The start-up checks of the test runner: conflicting options exit with
      an error (`None`); otherwise the run goes ahead at the chosen
      verbosity. Whether the named directories exist is a file-system
      question and not part of this function. */
  function Validate(a: Args): (r: Option<nat>)
    ensures r.None? <==> Given(a.directory) && Given(a.workflow)
    ensures r.Some? ==> r.value == Verbosity(a)
    ensures r.Some? ==> (r.value == 0 <==> a.quiet)
  {
    if Conflicting(a) then None else Some(Verbosity(a))
  }
}
