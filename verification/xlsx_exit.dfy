/** The exit routine of the macOS XLSX workflow (`onAppExit` in
    annotation_mac_xlsx/auto_script.py). The markup log is a worksheet read
    by header name; a node is matched to an existing row by its stripped
    name, or else gets a fresh `point_`, `line_` or `roi_` file name by node
    class; a save that raises `OSError` is routed to a separate error
    workbook; rows no node claimed are tombstoned.

    Worksheet cells are text or empty (`None`). An exception that escapes
    the routine (a missing header, a row too short for a header's column,
    a node class with no type yet) is `Abort`. */
module XlsxExit {
  import opened PyText
  import opened Assoc
  import opened Numbering

  type Cell = Option<string>

  /** Python truthiness of a cell: neither empty nor the empty string. */
  predicate Truthy(c: Cell) {
    c.Some? && c.value != ""
  }

  /** A value, or an exception that ends the routine. */
  datatype Outcome<T> = Done(value: T) | Abort

  /** One row of the markup log, keyed by file name. */
  datatype Entry = Entry(reportContent: Cell, originalFilename: Cell, createdAt: Cell, deletedAt: Cell)

  type Log = Dict<string, Entry>

  /** Every key of the log is a non-empty file name: rows are only kept
      under a truthy first cell. */
  predicate NamedKeys(log: Log) {
    forall i :: 0 <= i < |log| ==> log[i].0 != ""
  }

  /** A row of the error workbook: the log fields and the node's JSON. */
  datatype ErrorRecord = ErrorRecord(entry: Entry, jsonContent: string)

  type ErrorLog = Dict<string, ErrorRecord>

  /** The active sheet of the stored workbook: its first row and the rows
      below it. */
  datatype Sheet = Sheet(header: seq<Cell>, rows: seq<seq<Cell>>)

  // ---------------------------------------------------------------------
  // Loading
  // ---------------------------------------------------------------------

  /** `{cell.value: idx for idx, cell in enumerate(ws[1])}`: a header that
      appears twice maps to its later column. */
  function HeaderIndex(header: seq<Cell>): (h: Dict<Cell, nat>)
    ensures DistinctKeys(h)
    ensures Keys(h) == set i | 0 <= i < |header| :: header[i]
  {
    var entries: seq<(Cell, nat)> := seq(|header|, i requires 0 <= i < |header| => (header[i], i));
    assert forall i :: 0 <= i < |header| ==> entries[i].0 == header[i];
    DictDisplay(entries)
  }

  /** The column of a header is the last column that carries it. */
  lemma {:induction false} HeaderIndexLast(header: seq<Cell>, i: nat)
    requires i < |header|
    requires forall j :: i < j < |header| ==> header[j] != header[i]
    ensures Lookup(HeaderIndex(header), header[i]) == Some(i)
  {
    var entries: seq<(Cell, nat)> := seq(|header|, k requires 0 <= k < |header| => (header[k], k));
    DisplayGet(entries, i);
  }

  /** `row[headers[name]]`: `KeyError` for a missing header and
      `IndexError` for a short row both escape. */
  function Field(row: seq<Cell>, headers: Dict<Cell, nat>, name: string): (r: Outcome<Cell>)
    ensures r.Done? <==> Some(name) in Keys(headers) && Get(headers, Some(name)) < |row|
  {
    match Lookup(headers, Some(name))
    case None => Abort
    case Some(col) => if col < |row| then Done(row[col]) else Abort
  }

  /** The entry a row reads as. */
  function RowEntry(row: seq<Cell>, headers: Dict<Cell, nat>): (r: Outcome<Entry>)
    ensures r.Done? <==>
      && Field(row, headers, "report_content").Done?
      && Field(row, headers, "original_filename").Done?
      && Field(row, headers, "created_at").Done?
      && Field(row, headers, "deleted_at").Done?
  {
    match (Field(row, headers, "report_content"), Field(row, headers, "original_filename"),
           Field(row, headers, "created_at"), Field(row, headers, "deleted_at"))
    case (Done(a), Done(b), Done(c), Done(d)) => Done(Entry(a, b, c, d))
    case _ => Abort
  }

  /** A row that the loading loop would fail on. */
  predicate RowFails(row: seq<Cell>, headers: Dict<Cell, nat>) {
    |row| == 0 || (Truthy(row[0]) && RowEntry(row, headers).Abort?)
  }

  /** The names of the rows the loading loop keeps. */
  function LoadedNames(rows: seq<seq<Cell>>): set<string> {
    set i | 0 <= i < |rows| && |rows[i]| > 0 && Truthy(rows[i][0]) :: rows[i][0].value
  }

  /** The loading loop: a row whose first cell is falsy is skipped; any
      other row is assigned under its first cell, overwriting an earlier
      row with the same name in place. */
  function LoadRows(acc: Log, rows: seq<seq<Cell>>, headers: Dict<Cell, nat>): (r: Outcome<Log>)
    requires DistinctKeys(acc) && NamedKeys(acc)
    ensures r.Done? ==> DistinctKeys(r.value) && NamedKeys(r.value)
    decreases |rows|
  {
    if |rows| == 0 then Done(acc)
    else
      var row := rows[0];
      if |row| == 0 then Abort
      else if !Truthy(row[0]) then
        LoadRows(acc, rows[1..], headers)
      else
        match RowEntry(row, headers)
        case Abort => Abort
        case Done(e) =>
          PutGet(acc, row[0].value, e);
          assert NamedKeys(Put(acc, row[0].value, e));
          LoadRows(Put(acc, row[0].value, e), rows[1..], headers)
  }

  /** Some row fails. */
  predicate SomeRowFails(rows: seq<seq<Cell>>, headers: Dict<Cell, nat>) {
    exists i :: 0 <= i < |rows| && RowFails(rows[i], headers)
  }

  /** A row list fails when its first row or one of the rest fails. */
  lemma {:induction false} SomeRowFailsCons(rows: seq<seq<Cell>>, headers: Dict<Cell, nat>)
    requires |rows| > 0
    ensures SomeRowFails(rows, headers) <==> RowFails(rows[0], headers) || SomeRowFails(rows[1..], headers)
  {
    if SomeRowFails(rows[1..], headers) {
      var i :| 0 <= i < |rows[1..]| && RowFails(rows[1..][i], headers);
      assert rows[i + 1] == rows[1..][i];
    }
    if SomeRowFails(rows, headers) && !RowFails(rows[0], headers) {
      var i :| 0 <= i < |rows| && RowFails(rows[i], headers);
      assert rows[1..][i - 1] == rows[i];
    }
  }

  /** The kept names of a row list: the first row's name, when it is kept,
      and the kept names of the rest. */
  lemma {:induction false} LoadedNamesCons(rows: seq<seq<Cell>>)
    requires |rows| > 0
    ensures LoadedNames(rows)
      == (if |rows[0]| > 0 && Truthy(rows[0][0]) then {rows[0][0].value} else {}) + LoadedNames(rows[1..])
  {
    var head: set<string> := if |rows[0]| > 0 && Truthy(rows[0][0]) then {rows[0][0].value} else {};
    forall n ensures n in LoadedNames(rows) <==> n in head + LoadedNames(rows[1..]) {
      if n in LoadedNames(rows) {
        var i :| 0 <= i < |rows| && |rows[i]| > 0 && Truthy(rows[i][0]) && rows[i][0].value == n;
        if i > 0 { assert rows[1..][i - 1] == rows[i]; }
      }
      if n in LoadedNames(rows[1..]) {
        var i :| 0 <= i < |rows[1..]| && |rows[1..][i]| > 0 && Truthy(rows[1..][i][0]) && rows[1..][i][0].value == n;
        assert rows[i + 1] == rows[1..][i];
      }
    }
  }

  /** The loading loop fails exactly when some row fails. */
  lemma {:induction false} LoadRowsAbort(acc: Log, rows: seq<seq<Cell>>, headers: Dict<Cell, nat>)
    requires DistinctKeys(acc) && NamedKeys(acc)
    ensures LoadRows(acc, rows, headers).Abort? <==> SomeRowFails(rows, headers)
    decreases |rows|
  {
    if |rows| > 0 {
      SomeRowFailsCons(rows, headers);
      var row := rows[0];
      if |row| > 0 && Truthy(row[0]) && RowEntry(row, headers).Done? {
        var e := RowEntry(row, headers).value;
        LoadRowsStep(acc, rows, headers, e);
        LoadRowsAbort(Put(acc, row[0].value, e), rows[1..], headers);
      } else if |row| > 0 && !Truthy(row[0]) {
        LoadRowsAbort(acc, rows[1..], headers);
      }
    }
  }

  /** A load that succeeds adds the names of the kept rows to the keys it
      started with. */
  lemma {:induction false} LoadRowsKeys(acc: Log, rows: seq<seq<Cell>>, headers: Dict<Cell, nat>)
    requires DistinctKeys(acc) && NamedKeys(acc)
    ensures var r := LoadRows(acc, rows, headers);
      r.Done? ==> Keys(r.value) == Keys(acc) + LoadedNames(rows)
    decreases |rows|
  {
    if |rows| > 0 {
      LoadedNamesCons(rows);
      var row := rows[0];
      if |row| > 0 && Truthy(row[0]) && RowEntry(row, headers).Done? {
        var e := RowEntry(row, headers).value;
        LoadRowsStep(acc, rows, headers, e);
        PutGet(acc, row[0].value, e);
        LoadRowsKeys(Put(acc, row[0].value, e), rows[1..], headers);
      } else if |row| > 0 && !Truthy(row[0]) {
        LoadRowsKeys(acc, rows[1..], headers);
      }
    }
  }

  /** Loading `markup_log.xlsx`; `None` when the file does not exist. */
  function Load(sheet: Option<Sheet>): (r: Outcome<Log>)
    ensures r.Done? ==> DistinctKeys(r.value) && NamedKeys(r.value)
  {
    match sheet
    case None => Done([])
    case Some(s) => LoadRows([], s.rows, HeaderIndex(s.header))
  }

  // ---------------------------------------------------------------------
  // The node loop
  // ---------------------------------------------------------------------

  /** How `saveNode` went: it returned (whatever it returned), or it raised
      `OSError`, in which case `extract_markup_content` supplied the JSON. */
  datatype SaveResult = Written | RaisedOSError(jsonContent: string)

  /** A markup node as the exit routine sees it. */
  datatype MarkupNode = MarkupNode(name: string, className: string, result: SaveResult)


  /** The loop's variables: the log, the error table, `max_number`,
      `current_filenames` and `markup_type`, which keeps its value from one
      iteration to the next. */
  datatype State = State(log: Log, errors: ErrorLog, maxNumber: nat, current: set<string>, markupType: Option<string>)

  /** Both tables are dictionaries and no log key carries a number above
      `maxNumber`. */
  predicate Numbered(st: State) {
    DistinctKeys(st.log) && NamedKeys(st.log) && DistinctKeys(st.errors) && Bounded(KeyList(st.log), st.maxNumber)
  }

  /** Whether a log key belongs to a node name: the key without `.json`. */
  predicate Matches(key: string, name: string) {
    Replace(key, JsonSuffix, "") == name
  }

  /** The first log position at or after `from` whose key matches `name`. */
  function MatchFrom(log: Log, name: string, from: nat): (r: Option<nat>)
    requires from <= |log|
    ensures r.Some? ==> from <= r.value < |log| && Matches(log[r.value].0, name)
    ensures r.Some? ==> forall j :: from <= j < r.value ==> !Matches(log[j].0, name)
    ensures r.None? ==> forall j :: from <= j < |log| ==> !Matches(log[j].0, name)
    decreases |log| - from
  {
    if from == |log| then None
    else if Matches(log[from].0, name) then Some(from)
    else MatchFrom(log, name, from + 1)
  }

  /** `for fname in markup_log.keys(): if fname.replace(".json", "") == node_name: ... break` */
  function MatchIndex(log: Log, name: string): (r: Option<nat>)
    ensures r.Some? ==> r.value < |log| && Matches(log[r.value].0, name)
    ensures r.Some? ==> forall j :: 0 <= j < r.value ==> !Matches(log[j].0, name)
    ensures r.None? ==> forall j :: 0 <= j < |log| ==> !Matches(log[j].0, name)
  {
    MatchFrom(log, name, 0)
  }

  /** The `markup_type` chain: `None` for a class it does not name. */
  function TypeOf(className: string): (t: Option<string>)
    ensures t.Some? ==> t.value == "point" || t.value == "line" || t.value == "roi"
  {
    if className == "vtkMRMLMarkupsFiducialNode" then Some("point")
    else if className == "vtkMRMLMarkupsLineNode" then Some("line")
    else if className == "vtkMRMLMarkupsROINode" then Some("roi")
    else None
  }

  /** The log entry of a newly saved node; the error record uses it too. */
  function NewEntry(name: string, now: string): Entry {
    Entry(Some(name), None, Some(now), None)
  }

  /** The existing key a node reuses: the first matching key, if it is
      truthy (`if existing_file:`). */
  function Existing(log: Log, name: string): (r: Option<string>)
    ensures r.Some? ==> r.value in Keys(log) && r.value != "" && Matches(r.value, name)
    ensures r.Some? ==> forall j :: 0 <= j < |log| && log[j].0 != r.value ==> !Matches(log[j].0, name) || exists k :: 0 <= k < j && Matches(log[k].0, name)
    ensures r.None? && name != "" ==> forall j :: 0 <= j < |log| ==> !Matches(log[j].0, name)
  {
    match MatchIndex(log, name)
    case Some(i) => if log[i].0 != "" then Some(log[i].0) else None
    case None => None
  }

  /** The error record of a node whose save raised `OSError`. */
  function Failure(name: string, now: string, result: SaveResult): ErrorRecord
    requires result.RaisedOSError?
  {
    ErrorRecord(NewEntry(name, now), result.jsonContent)
  }

  /** A node whose name matches a truthy key: the log is left alone and
      only a failed save is noted, in the error table. */
  function SaveExisting(st: State, key: string, name: string, result: SaveResult, now: string): (r: State)
    requires Numbered(st) && key in Keys(st.log)
    ensures Numbered(r) && r.log == st.log && r.maxNumber == st.maxNumber && r.markupType == st.markupType
    ensures r.current == st.current + {key}
    ensures result.Written? ==> r.errors == st.errors
    ensures result.RaisedOSError? ==> key in Keys(r.errors) && Get(r.errors, key) == Failure(name, now, result)
  {
    if result.RaisedOSError? then
      PutGet(st.errors, key, Failure(name, now, result));
      State(st.log, Put(st.errors, key, Failure(name, now, result)), st.maxNumber, st.current + {key}, st.markupType)
    else
      State(st.log, st.errors, st.maxNumber, st.current + {key}, st.markupType)
  }

  /** A node with no usable match: a fresh name of type `t` numbered one
      above the maximum, logged if the save went through. */
  function SaveFresh(st: State, t: string, name: string, result: SaveResult, now: string): (r: (State, Choice))
    requires Numbered(st)
    ensures Numbered(r.0) && r.1.Fresh? && r.0.current == st.current + {r.1.name}
    ensures r.1.name !in Keys(st.log)
    ensures r.1.number == st.maxNumber + 1 == r.0.maxNumber
    ensures r.1.name == FreshName(t, r.1.number) && r.0.markupType == Some(t)
    ensures result.Written? ==> r.0.log == st.log + [(r.1.name, NewEntry(name, now))] && r.0.errors == st.errors
    ensures result.RaisedOSError? ==>
      r.0.log == st.log && r.1.name in Keys(r.0.errors) && Get(r.0.errors, r.1.name) == Failure(name, now, result)
  {
    var number := st.maxNumber + 1;
    var key := FreshName(t, number);
    FreshNameNumber(t, number);
    FreshNameIsNew(t, number, KeyList(st.log));
    if result.Written? then
      var log := st.log + [(key, NewEntry(name, now))];
      assert DistinctKeys(log) && Bounded(KeyList(log), number) by {
        assert forall i :: 0 <= i < |st.log| ==> log[i] == st.log[i];
      }
      (State(log, st.errors, number, st.current + {key}, Some(t)), Fresh(key, number))
    else
      PutGet(st.errors, key, Failure(name, now, result));
      (State(st.log, Put(st.errors, key, Failure(name, now, result)), number, st.current + {key}, Some(t)), Fresh(key, number))
  }

  /** The type a fresh name is built from: the node's own, or else the one
      left over from the last fresh name (`None` before any). */
  function NextType(st: State, className: string): (t: Option<string>)
    ensures TypeOf(className).Some? ==> t == TypeOf(className)
    ensures TypeOf(className).None? ==> t == st.markupType
  {
    if TypeOf(className).Some? then TypeOf(className) else st.markupType
  }

  /** One pass of the node loop on the stripped node name; `Abort` for the
      `NameError` of an unknown class before any type was set. */
  function SaveNode(st: State, node: MarkupNode, now: string): (r: Outcome<(State, Choice)>)
    requires Numbered(st)
    ensures r.Done? ==> Numbered(r.value.0)
    ensures r.Done? ==> r.value.0.current == st.current + {r.value.1.name}
    ensures r.Abort? <==> Existing(st.log, Strip(node.name)).None? && NextType(st, node.className).None?
    ensures r.Done? ==> (r.value.1.Reused? <==> Existing(st.log, Strip(node.name)).Some?)
    ensures r.Done? && r.value.1.Reused? ==>
      && r.value.1.name == Existing(st.log, Strip(node.name)).value
      && r.value.0.log == st.log && r.value.0.maxNumber == st.maxNumber
    ensures r.Done? && r.value.1.Fresh? ==>
      && r.value.1.name !in Keys(st.log)
      && r.value.1.number == st.maxNumber + 1 == r.value.0.maxNumber
      && r.value.0.markupType == NextType(st, node.className)
      && r.value.1.name == FreshName(NextType(st, node.className).value, r.value.1.number)
    ensures r.Done? && r.value.1.Fresh? && node.result.Written? ==>
      r.value.0.log == st.log + [(r.value.1.name, NewEntry(Strip(node.name), now))]
    ensures r.Done? && node.result.RaisedOSError? ==>
      && r.value.0.log == st.log
      && r.value.1.name in Keys(r.value.0.errors)
      && Get(r.value.0.errors, r.value.1.name) == Failure(Strip(node.name), now, node.result)
    ensures r.Done? && node.result.Written? ==> r.value.0.errors == st.errors
  {
    var name := Strip(node.name);
    match Existing(st.log, name)
    case Some(key) => Done((SaveExisting(st, key, name, node.result, now), Reused(key)))
    case None =>
      match NextType(st, node.className)
      case None => Abort
      case Some(t) => Done(SaveFresh(st, t, name, node.result, now))
  }

  /** A fresh name carries its number after the last underscore and
      starts with the markup type and an underscore. */
  lemma {:induction false} SaveNodeFresh(st: State, node: MarkupNode, now: string)
    requires Numbered(st)
    ensures var r := SaveNode(st, node, now);
      r.Done? && r.value.1.Fresh? ==>
        && TrailingNumber(r.value.1.name) == Some(r.value.1.number)
        && StartsWith(r.value.1.name, NextType(st, node.className).value + "_")
  {
    var r := SaveNode(st, node, now);
    if r.Done? && r.value.1.Fresh? {
      var t := NextType(st, node.className).value;
      FreshNameNumber(t, r.value.1.number);
      assert r.value.1.name[..|t| + 1] == t + "_";
    }
  }

  /** The node loop, in scene order; it stops at the first `Abort`. */
  function SaveAll(st: State, nodes: seq<MarkupNode>, now: string): (r: Outcome<(State, seq<Choice>)>)
    requires Numbered(st)
    ensures r.Done? ==> Numbered(r.value.0) && |r.value.1| == |nodes| && st.maxNumber <= r.value.0.maxNumber
    ensures r.Done? ==> |st.log| <= |r.value.0.log| && forall i :: 0 <= i < |st.log| ==> r.value.0.log[i] == st.log[i]
    decreases |nodes|
  {
    if |nodes| == 0 then Done((st, []))
    else
      match SaveNode(st, nodes[0], now)
      case Abort => Abort
      case Done((next, c)) =>
        match SaveAll(next, nodes[1..], now)
        case Abort => Abort
        case Done((last, cs)) => Done((last, [c] + cs))
  }

  /** A finished loop over a non-empty scene is a finished first step
      followed by a finished loop over the rest. */
  lemma {:induction false} SaveAllCons(st: State, nodes: seq<MarkupNode>, now: string)
    requires Numbered(st) && |nodes| > 0 && SaveAll(st, nodes, now).Done?
    ensures SaveNode(st, nodes[0], now).Done?
    ensures var (next, c) := SaveNode(st, nodes[0], now).value;
      && SaveAll(next, nodes[1..], now).Done?
      && SaveAll(st, nodes, now).value.0 == SaveAll(next, nodes[1..], now).value.0
      && SaveAll(st, nodes, now).value.1 == [c] + SaveAll(next, nodes[1..], now).value.1
  {
  }

  /** Once some type is set, or when every class is known, the loop cannot
      abort: the `NameError` needs an unknown class before any fresh name. */
  lemma {:induction false} SaveAllDone(st: State, nodes: seq<MarkupNode>, now: string)
    requires Numbered(st)
    requires st.markupType.Some? || forall i :: 0 <= i < |nodes| ==> TypeOf(nodes[i].className).Some?
    ensures SaveAll(st, nodes, now).Done?
    decreases |nodes|
  {
    if |nodes| > 0 {
      var r := SaveNode(st, nodes[0], now);
      assert r.Done?;
      var next := r.value.0;
      assert next.markupType.Some? || forall i :: 0 <= i < |nodes[1..]| ==> TypeOf(nodes[1..][i].className).Some? by {
        if st.markupType.None? {
          assert forall i :: 0 <= i < |nodes[1..]| ==> nodes[1..][i] == nodes[i + 1];
        }
      }
      SaveAllDone(next, nodes[1..], now);
      SaveAllStepDone(st, nodes, now);
    }
  }

  /** A first step and a rest that both finish make a finished loop. */
  lemma {:induction false} SaveAllStepDone(st: State, nodes: seq<MarkupNode>, now: string)
    requires Numbered(st) && |nodes| > 0 && SaveNode(st, nodes[0], now).Done?
    requires SaveAll(SaveNode(st, nodes[0], now).value.0, nodes[1..], now).Done?
    ensures SaveAll(st, nodes, now).Done?
  {
  }

  /** Fresh names are never keys of the loaded log, carry the number they
      were given, and are numbered from one above the starting maximum up
      to the final one. */
  lemma {:induction false} SaveAllFresh(st: State, nodes: seq<MarkupNode>, now: string)
    requires Numbered(st)
    ensures var r := SaveAll(st, nodes, now);
      r.Done? ==> forall i :: 0 <= i < |r.value.1| ==> FreshWithin(r.value.1[i], Keys(st.log), st.maxNumber, r.value.0.maxNumber)
    decreases |nodes|
  {
    var r := SaveAll(st, nodes, now);
    if |nodes| > 0 && r.Done? {
      SaveAllCons(st, nodes, now);
      var (next, c) := SaveNode(st, nodes[0], now).value;
      SaveNodeFresh(st, nodes[0], now);
      SaveAllFresh(next, nodes[1..], now);
      assert Keys(st.log) <= Keys(next.log) by {
        forall k | k in Keys(st.log) ensures k in Keys(next.log) {
          var i :| 0 <= i < |st.log| && st.log[i].0 == k;
          assert next.log[i].0 == k;
        }
      }
      FreshWithinCons(c, SaveAll(next, nodes[1..], now).value.1, Keys(st.log), Keys(next.log),
        st.maxNumber, next.maxNumber, r.value.0.maxNumber);
    }
  }

  /** Fresh numbers strictly increase in scene order, so no two fresh names
      of one run coincide. */
  lemma {:induction false} SaveAllIncreasing(st: State, nodes: seq<MarkupNode>, now: string)
    requires Numbered(st)
    ensures var r := SaveAll(st, nodes, now);
      r.Done? ==> Increasing(r.value.1)
    decreases |nodes|
  {
    var r := SaveAll(st, nodes, now);
    if |nodes| > 0 && r.Done? {
      SaveAllCons(st, nodes, now);
      var (next, c) := SaveNode(st, nodes[0], now).value;
      SaveAllIncreasing(next, nodes[1..], now);
      SaveAllFresh(next, nodes[1..], now);
      IncreasingCons(c, SaveAll(next, nodes[1..], now).value.1, Keys(next.log), next.maxNumber, r.value.0.maxNumber);
    }
  }

  /** The names a run of choices uses. */
  function Names(cs: seq<Choice>): (names: set<string>)
    ensures forall i :: 0 <= i < |cs| ==> cs[i].name in names
    ensures forall k :: k in names ==> exists i :: 0 <= i < |cs| && cs[i].name == k
    decreases |cs|
  {
    if |cs| == 0 then {} else {cs[0].name} + Names(cs[1..])
  }

  /** The names the loop claims: `current_filenames` grows by the chosen
      names and nothing else. */
  lemma {:induction false} SaveAllClaims(st: State, nodes: seq<MarkupNode>, now: string)
    requires Numbered(st)
    ensures var r := SaveAll(st, nodes, now);
      r.Done? ==> r.value.0.current == st.current + Names(r.value.1)
    decreases |nodes|
  {
    var r := SaveAll(st, nodes, now);
    if |nodes| > 0 && r.Done? {
      SaveAllCons(st, nodes, now);
      var next := SaveNode(st, nodes[0], now).value.0;
      SaveAllClaims(next, nodes[1..], now);
    }
  }

  /** The log entry a fresh, successfully saved node adds. */
  function Added(node: MarkupNode, c: Choice, now: string): Log {
    if c.Fresh? && node.result.Written? then [(c.name, NewEntry(Strip(node.name), now))] else []
  }

  /** The log entries the loop appends: one per fresh name whose save went
      through, in scene order. */
  function Logged(nodes: seq<MarkupNode>, cs: seq<Choice>, now: string): (added: Log)
    requires |nodes| == |cs|
    ensures |added| <= |nodes|
    decreases |nodes|
  {
    if |nodes| == 0 then [] else Added(nodes[0], cs[0], now) + Logged(nodes[1..], cs[1..], now)
  }

  /** `Logged` holds the entry of every fresh, saved node. */
  lemma {:induction false} LoggedComplete(nodes: seq<MarkupNode>, cs: seq<Choice>, now: string)
    requires |nodes| == |cs|
    ensures forall i :: 0 <= i < |cs| && cs[i].Fresh? && nodes[i].result.Written? ==>
      (cs[i].name, NewEntry(Strip(nodes[i].name), now)) in Logged(nodes, cs, now)
    decreases |nodes|
  {
    if |nodes| > 0 {
      LoggedComplete(nodes[1..], cs[1..], now);
      var rest := Logged(nodes[1..], cs[1..], now);
      assert Logged(nodes, cs, now) == Added(nodes[0], cs[0], now) + rest;
      forall i | 1 <= i < |cs| && cs[i].Fresh? && nodes[i].result.Written?
        ensures (cs[i].name, NewEntry(Strip(nodes[i].name), now)) in rest
      {
        assert nodes[1..][i - 1] == nodes[i] && cs[1..][i - 1] == cs[i];
      }
    }
  }

  /** `e` is the entry some node adds. */
  predicate AddedBy(nodes: seq<MarkupNode>, cs: seq<Choice>, now: string, e: (string, Entry))
    requires |nodes| == |cs|
  {
    exists i :: 0 <= i < |cs| && Added(nodes[i], cs[i], now) == [e]
  }

  /** Everything in `Logged` is the entry of some fresh, saved node. */
  lemma {:induction false} LoggedSound(nodes: seq<MarkupNode>, cs: seq<Choice>, now: string)
    requires |nodes| == |cs|
    ensures forall e :: e in Logged(nodes, cs, now) ==> AddedBy(nodes, cs, now, e)
    decreases |nodes|
  {
    if |nodes| > 0 {
      LoggedSound(nodes[1..], cs[1..], now);
      var first := Added(nodes[0], cs[0], now);
      var rest := Logged(nodes[1..], cs[1..], now);
      assert Logged(nodes, cs, now) == first + rest;
      forall e | e in first + rest ensures AddedBy(nodes, cs, now, e) {
        if e in first {
          assert first == [e];
        } else {
          assert AddedBy(nodes[1..], cs[1..], now, e);
          var i :| 0 <= i < |cs[1..]| && Added(nodes[1..][i], cs[1..][i], now) == [e];
          assert nodes[1..][i] == nodes[i + 1] && cs[1..][i] == cs[i + 1];
        }
      }
    }
  }

  lemma {:induction false} ConcatAssoc<T>(a: seq<T>, b: seq<T>, c: seq<T>)
    ensures (a + b) + c == a + (b + c)
  {
  }

  /** The loop leaves every loaded entry as it was and appends exactly the
      fresh names whose save went through. */
  lemma {:induction false} SaveAllLog(st: State, nodes: seq<MarkupNode>, now: string)
    requires Numbered(st)
    ensures var r := SaveAll(st, nodes, now);
      r.Done? ==> r.value.0.log == st.log + Logged(nodes, r.value.1, now)
    decreases |nodes|
  {
    var r := SaveAll(st, nodes, now);
    if |nodes| > 0 && r.Done? {
      SaveAllCons(st, nodes, now);
      var (next, c) := SaveNode(st, nodes[0], now).value;
      SaveAllLog(next, nodes[1..], now);
      var cs := r.value.1;
      assert cs[1..] == SaveAll(next, nodes[1..], now).value.1;
      var added := Added(nodes[0], c, now);
      var later := Logged(nodes[1..], cs[1..], now);
      assert next.log == st.log + added;
      assert Logged(nodes, cs, now) == added + later;
      calc {
        r.value.0.log;
        next.log + later;
        (st.log + added) + later;
        { ConcatAssoc(st.log, added, later); }
        st.log + (added + later);
      }
    }
  }

  /** The names of the nodes whose save raised `OSError`. */
  function Failed(nodes: seq<MarkupNode>, cs: seq<Choice>): (names: set<string>)
    requires |nodes| == |cs|
    ensures forall i :: 0 <= i < |cs| && nodes[i].result.RaisedOSError? ==> cs[i].name in names
    ensures forall k :: k in names ==> exists i :: 0 <= i < |cs| && nodes[i].result.RaisedOSError? && cs[i].name == k
    decreases |nodes|
  {
    if |nodes| == 0 then {}
    else
      var rest := Failed(nodes[1..], cs[1..]);
      assert forall i :: 1 <= i < |cs| ==> nodes[1..][i - 1] == nodes[i] && cs[1..][i - 1] == cs[i];
      (if nodes[0].result.RaisedOSError? then {cs[0].name} else {}) + rest
  }

  /** The error table gains exactly the names of the failed saves. */
  lemma {:induction false} SaveAllErrors(st: State, nodes: seq<MarkupNode>, now: string)
    requires Numbered(st)
    ensures var r := SaveAll(st, nodes, now);
      r.Done? ==> Keys(r.value.0.errors) == Keys(st.errors) + Failed(nodes, r.value.1)
    decreases |nodes|
  {
    var r := SaveAll(st, nodes, now);
    if |nodes| > 0 && r.Done? {
      SaveAllCons(st, nodes, now);
      var (next, c) := SaveNode(st, nodes[0], now).value;
      SaveAllErrors(next, nodes[1..], now);
      assert r.value.1[1..] == SaveAll(next, nodes[1..], now).value.1;
      assert Keys(next.errors) == Keys(st.errors) + (if nodes[0].result.RaisedOSError? then {c.name} else {}) by {
        if nodes[0].result.RaisedOSError? {
          var rec := Failure(Strip(nodes[0].name), now, nodes[0].result);
          PutGet(st.errors, c.name, rec);
        }
      }
    }
  }

  /** The starting state: the loaded log, its highest trailing number, no
      claims, no error and no type yet. */
  function Start(log: Log): (st: State)
    requires DistinctKeys(log) && NamedKeys(log)
    ensures Numbered(st) && st.log == log && st.errors == [] && st.current == {} && st.markupType.None?
  {
    State(log, [], MaxNumber(KeyList(log)), {}, None)
  }

  // ---------------------------------------------------------------------
  // Deletion
  // ---------------------------------------------------------------------

  /** Whether the deletion loop stamps an entry: its name was not claimed,
      removing its file did not raise, and it has no truthy `deleted_at`. */
  predicate Stamped(key: string, e: Entry, current: set<string>, removeErrors: set<string>) {
    key !in current && key !in removeErrors && !Truthy(e.deletedAt)
  }

  /** The deletion loop over `set(markup_log.keys()) - current_filenames`;
      `removeErrors` are the names whose `os.remove` raised, which skips the
      stamp. */
  function Tombstone(log: Log, current: set<string>, removeErrors: set<string>, now: string): (r: Log)
    ensures |r| == |log| && Keys(r) == Keys(log)
    ensures forall i :: 0 <= i < |log| ==> r[i].0 == log[i].0
    ensures forall i :: 0 <= i < |log| && Stamped(log[i].0, log[i].1, current, removeErrors) ==>
      r[i].1 == log[i].1.(deletedAt := Some(now))
    ensures forall i :: 0 <= i < |log| && !Stamped(log[i].0, log[i].1, current, removeErrors) ==>
      r[i] == log[i]
  {
    var r := seq(|log|, i requires 0 <= i < |log| =>
      if Stamped(log[i].0, log[i].1, current, removeErrors) then (log[i].0, log[i].1.(deletedAt := Some(now)))
      else log[i]);
    assert Keys(r) == Keys(log) by {
      assert forall i :: 0 <= i < |log| ==> r[i].0 == log[i].0;
    }
    r
  }

  /** With a non-empty timestamp a second deletion pass changes nothing:
      every entry it would stamp already carries a truthy `deleted_at`. */
  lemma {:induction false} TombstoneStable(log: Log, current: set<string>, removeErrors: set<string>, now: string, later: string)
    requires now != ""
    ensures var once := Tombstone(log, current, removeErrors, now);
      Tombstone(once, current, removeErrors, later) == once
  {
    var once := Tombstone(log, current, removeErrors, now);
    var twice := Tombstone(once, current, removeErrors, later);
    forall i | 0 <= i < |once| ensures twice[i] == once[i] {
      if Stamped(log[i].0, log[i].1, current, removeErrors) {
        assert !Stamped(once[i].0, once[i].1, current, removeErrors);
      }
    }
  }

  // ---------------------------------------------------------------------
  // Writing
  // ---------------------------------------------------------------------

  const OutputHeader: seq<Cell> :=
    [Some("filename"), Some("report_content"), Some("original_filename"), Some("created_at"), Some("deleted_at")]

  /** How `wb.save` stores a value: openpyxl writes an empty string as a
      blank cell, which reads back as `None`; any other value is kept. So
      storing never changes a cell's truthiness. */
  function Stored(c: Cell): (s: Cell)
    ensures s.None? <==> !Truthy(c)
    ensures Truthy(c) ==> s == c
    ensures Truthy(s) == Truthy(c)
  {
    if c == Some("") then None else c
  }

  /** An entry as it reads back after being stored. */
  function StoredEntry(e: Entry): Entry {
    Entry(Stored(e.reportContent), Stored(e.originalFilename), Stored(e.createdAt), Stored(e.deletedAt))
  }

  /** A log as it reads back after being stored: same keys in the same
      order, every cell stored. */
  function StoredLog(log: Log): (r: Log)
    ensures |r| == |log|
    ensures forall i :: 0 <= i < |log| ==> r[i] == (log[i].0, StoredEntry(log[i].1))
  {
    seq(|log|, i requires 0 <= i < |log| => (log[i].0, StoredEntry(log[i].1)))
  }

  /** An entry holding an empty-string cell. */
  predicate HasEmptyText(e: Entry) {
    e.reportContent == Some("") || e.originalFilename == Some("")
    || e.createdAt == Some("") || e.deletedAt == Some("")
  }

  /** Storing changes a log exactly when some entry holds an empty-string
      cell; storing twice is storing once. */
  lemma {:induction false} StoredLogIdentity(log: Log)
    ensures StoredLog(log) == log <==> forall i :: 0 <= i < |log| ==> !HasEmptyText(log[i].1)
    ensures StoredLog(StoredLog(log)) == StoredLog(log)
  {
    if StoredLog(log) == log {
      forall i | 0 <= i < |log| ensures !HasEmptyText(log[i].1) {
        assert StoredLog(log)[i] == log[i];
      }
    }
    if forall i :: 0 <= i < |log| ==> !HasEmptyText(log[i].1) {
      assert forall i :: 0 <= i < |log| ==> StoredLog(log)[i] == log[i];
    }
    assert forall i :: 0 <= i < |log| ==> StoredLog(StoredLog(log))[i] == StoredLog(log)[i];
  }

  /** The sheet row of one log entry, as stored. */
  function OutputRow(key: string, e: Entry): (row: seq<Cell>)
    ensures |row| == |OutputHeader|
  {
    [Stored(Some(key)), Stored(e.reportContent), Stored(e.originalFilename), Stored(e.createdAt), Stored(e.deletedAt)]
  }

  /** The "Markup Log" sheet, header first. `wb.save` sits inside the row
      loop, so an empty log writes nothing and leaves the old file as it
      was: `None`. */
  function OutputSheet(log: Log): (sheet: Option<Sheet>)
    ensures sheet.None? <==> |log| == 0
    ensures sheet.Some? ==> sheet.value.header == OutputHeader && |sheet.value.rows| == |log|
    ensures sheet.Some? ==> forall i :: 0 <= i < |log| ==> sheet.value.rows[i] == OutputRow(log[i].0, log[i].1)
  {
    if |log| == 0 then None
    else Some(Sheet(OutputHeader, WrittenRows(log)))
  }

  /** The written header puts each field at its own column. */
  lemma {:induction false} OutputColumns()
    ensures Lookup(HeaderIndex(OutputHeader), Some("report_content")) == Some(1)
    ensures Lookup(HeaderIndex(OutputHeader), Some("original_filename")) == Some(2)
    ensures Lookup(HeaderIndex(OutputHeader), Some("created_at")) == Some(3)
    ensures Lookup(HeaderIndex(OutputHeader), Some("deleted_at")) == Some(4)
  {
    var h := OutputHeader;
    HeaderIndexLast(h, 1);
    HeaderIndexLast(h, 2);
    HeaderIndexLast(h, 3);
    HeaderIndexLast(h, 4);
  }

  /** Reading a written row by the written header gives back its stored
      entry. */
  lemma {:induction false} OutputRowEntry(key: string, e: Entry)
    ensures RowEntry(OutputRow(key, e), HeaderIndex(OutputHeader)) == Done(StoredEntry(e))
  {
    OutputColumns();
  }

  /** A concatenation of logs with distinct keys keeps the second log's
      first key out of the first log. */
  lemma {:induction false} ConcatFreshKey(acc: Log, log: Log)
    requires DistinctKeys(acc + log) && |log| > 0
    ensures log[0].0 !in Keys(acc)
  {
    forall j | 0 <= j < |acc| ensures acc[j].0 != log[0].0 {
      assert (acc + log)[j] == acc[j] && (acc + log)[|acc|] == log[0];
    }
  }

  /** One kept row of the loading loop. */
  lemma {:induction false} LoadRowsStep(acc: Log, rows: seq<seq<Cell>>, headers: Dict<Cell, nat>, e: Entry)
    requires DistinctKeys(acc) && NamedKeys(acc)
    requires |rows| > 0 && |rows[0]| > 0 && Truthy(rows[0][0]) && RowEntry(rows[0], headers) == Done(e)
    ensures DistinctKeys(Put(acc, rows[0][0].value, e)) && NamedKeys(Put(acc, rows[0][0].value, e))
    ensures LoadRows(acc, rows, headers) == LoadRows(Put(acc, rows[0][0].value, e), rows[1..], headers)
  {
    PutGet(acc, rows[0][0].value, e);
  }

  /** The rows the "Markup Log" sheet holds for a log. */
  function WrittenRows(log: Log): (rows: seq<seq<Cell>>)
    ensures |rows| == |log|
    ensures forall i :: 0 <= i < |log| ==> rows[i] == OutputRow(log[i].0, log[i].1)
  {
    seq(|log|, i requires 0 <= i < |log| => OutputRow(log[i].0, log[i].1))
  }

  /** Loading written rows whose names are new appends their stored
      entries. */
  lemma {:induction false} LoadWrittenRows(acc: Log, log: Log)
    requires DistinctKeys(acc) && NamedKeys(acc) && DistinctKeys(acc + log) && NamedKeys(acc + log)
    ensures LoadRows(acc, WrittenRows(log), HeaderIndex(OutputHeader)) == Done(acc + StoredLog(log))
    decreases |log|
  {
    if |log| > 0 {
      var (k, e) := log[0];
      var acc' := acc + [(k, StoredEntry(e))];
      ConcatFreshKey(acc, log);
      ConcatHead(acc, log);
      assert k != "";
      WrittenRowsTail(log);
      OutputRowEntry(k, e);
      LoadRowsStep(acc, WrittenRows(log), HeaderIndex(OutputHeader), StoredEntry(e));
      MoveHead(acc, log, StoredEntry(e));
      LoadWrittenRows(acc', log[1..]);
      StoredLogCons(log);
      ConcatAssoc(acc, [(k, StoredEntry(e))], StoredLog(log[1..]));
    } else {
      assert acc + StoredLog(log) == acc;
    }
  }

  /** Moving the first pair of `log`, with a new value, to the end of `acc`
      keeps the keys of the concatenation as they were. */
  lemma {:induction false} MoveHead(acc: Log, log: Log, v: Entry)
    requires |log| > 0 && DistinctKeys(acc + log) && NamedKeys(acc + log)
    ensures var acc' := acc + [(log[0].0, v)];
      DistinctKeys(acc' + log[1..]) && NamedKeys(acc' + log[1..])
  {
    var acc' := acc + [(log[0].0, v)];
    assert forall i :: 0 <= i < |acc' + log[1..]| ==> (acc' + log[1..])[i].0 == (acc + log)[i].0;
  }

  lemma {:induction false} StoredLogCons(log: Log)
    requires |log| > 0
    ensures StoredLog(log) == [(log[0].0, StoredEntry(log[0].1))] + StoredLog(log[1..])
  {
  }

  /** The rows written for a log's tail are the tail of its rows. */
  lemma {:induction false} WrittenRowsTail(log: Log)
    requires |log| > 0
    ensures WrittenRows(log)[0] == OutputRow(log[0].0, log[0].1)
    ensures WrittenRows(log)[1..] == WrittenRows(log[1..])
  {
  }

  /** The written "Markup Log" sheet reads back as the log it was written
      from, with every empty-string cell read as `None`. */
  lemma {:induction false} OutputReadBack(log: Log)
    requires DistinctKeys(log) && NamedKeys(log) && |log| > 0
    ensures Load(OutputSheet(log)) == Done(StoredLog(log))
  {
    LoadWrittenRows([], log);
    assert [] + log == log;
    assert [] + StoredLog(log) == StoredLog(log);
  }

  const ErrorHeader: seq<Cell> :=
    [Some("filename"), Some("report_content"), Some("original_filename"), Some("created_at"), Some("deleted_at"),
     Some("json_content")]

  /** `re.sub(r'[:]', '-', now_str) + "_error.xlsx"` */
  function ErrorFileName(now: string): (name: string)
    ensures ':' !in name
    ensures |name| == |now| + |"_error.xlsx"| && EndsWith(name, "_error.xlsx")
    ensures forall i :: 0 <= i < |now| ==> name[i] == if now[i] == ':' then '-' else now[i]
  {
    SubstCharSingle(now, ':', '-');
    var name := SubstChar(now, ':', "-") + "_error.xlsx";
    assert name[|now|..] == "_error.xlsx";
    name
  }

  /** The sheet row of one error record. */
  function ErrorRow(key: string, e: ErrorRecord): (row: seq<Cell>)
    ensures |row| == |ErrorHeader|
  {
    OutputRow(key, e.entry) + [Stored(Some(e.jsonContent))]
  }

  /** The "Markup Errors" workbook: written only when some save failed,
      under a name taken from the timestamp. */
  function ErrorBook(errors: ErrorLog, now: string): (book: Option<(string, Sheet)>)
    ensures book.None? <==> |errors| == 0
    ensures book.Some? ==> book.value.0 == ErrorFileName(now) && book.value.1.header == ErrorHeader
    ensures book.Some? ==> |book.value.1.rows| == |errors|
    ensures book.Some? ==> forall i :: 0 <= i < |errors| ==> book.value.1.rows[i] == ErrorRow(errors[i].0, errors[i].1)
  {
    if |errors| == 0 then None
    else Some((ErrorFileName(now), Sheet(ErrorHeader, seq(|errors|, i requires 0 <= i < |errors| => ErrorRow(errors[i].0, errors[i].1)))))
  }

  // ---------------------------------------------------------------------
  // The whole routine
  // ---------------------------------------------------------------------

  /** The node loop from the loaded log, then the deletion loop over the
      names it did not claim: the log to write and the error table. */
  function Reconcile(log: Log, nodes: seq<MarkupNode>, removeErrors: set<string>, now: string): (r: Outcome<(Log, ErrorLog)>)
    requires DistinctKeys(log) && NamedKeys(log)
    ensures r.Done? ==> DistinctKeys(r.value.0) && NamedKeys(r.value.0) && DistinctKeys(r.value.1)
    ensures r.Done? <==> SaveAll(Start(log), nodes, now).Done?
  {
    match SaveAll(Start(log), nodes, now)
    case Abort => Abort
    case Done((fin, cs)) =>
      var out := Tombstone(fin.log, fin.current, removeErrors, now);
      assert DistinctKeys(out) && NamedKeys(out) by {
        assert forall i :: 0 <= i < |out| ==> out[i].0 == fin.log[i].0;
      }
      Done((out, fin.errors))
  }

  /** Entries whose names are all claimed pass the deletion loop
      unchanged. */
  lemma {:induction false} TombstoneClaimed(log: Log, added: Log, current: set<string>, removeErrors: set<string>, now: string)
    requires forall j :: 0 <= j < |added| ==> added[j].0 in current
    ensures Tombstone(log + added, current, removeErrors, now) == Tombstone(log, current, removeErrors, now) + added
  {
    var whole := log + added;
    var out := Tombstone(whole, current, removeErrors, now);
    var left := Tombstone(log, current, removeErrors, now);
    forall i | 0 <= i < |out| ensures out[i] == (left + added)[i] {
      if i >= |log| {
        assert whole[i] == added[i - |log|];
      } else {
        assert whole[i] == log[i];
      }
    }
  }

  /** Every appended entry carries a name the loop chose. */
  lemma {:induction false} LoggedNames(nodes: seq<MarkupNode>, cs: seq<Choice>, now: string)
    requires |nodes| == |cs|
    ensures forall j :: 0 <= j < |Logged(nodes, cs, now)| ==> Logged(nodes, cs, now)[j].0 in Names(cs)
  {
    LoggedSound(nodes, cs, now);
    var added := Logged(nodes, cs, now);
    forall j | 0 <= j < |added| ensures added[j].0 in Names(cs) {
      var e := added[j];
      assert e in added && AddedBy(nodes, cs, now, e);
      var i :| 0 <= i < |cs| && Added(nodes[i], cs[i], now) == [e];
    }
  }

  /** The log written at exit is the loaded log, tombstoned where no node
      claimed its name, followed by the entries of the fresh names whose
      save went through; those new entries are never tombstoned. */
  lemma {:induction false} ReconcileLog(log: Log, nodes: seq<MarkupNode>, removeErrors: set<string>, now: string)
    requires DistinctKeys(log) && NamedKeys(log)
    ensures var r := Reconcile(log, nodes, removeErrors, now);
      var s := SaveAll(Start(log), nodes, now);
      r.Done? ==> r.value.0 == Tombstone(log, Names(s.value.1), removeErrors, now) + Logged(nodes, s.value.1, now)
  {
    var s := SaveAll(Start(log), nodes, now);
    if s.Done? {
      var (fin, cs) := s.value;
      SaveAllLog(Start(log), nodes, now);
      SaveAllClaims(Start(log), nodes, now);
      LoggedNames(nodes, cs, now);
      assert fin.current == Names(cs);
      TombstoneClaimed(log, Logged(nodes, cs, now), fin.current, removeErrors, now);
    }
  }

  /** The error table names exactly the nodes whose save raised `OSError`. */
  lemma {:induction false} ReconcileErrors(log: Log, nodes: seq<MarkupNode>, removeErrors: set<string>, now: string)
    requires DistinctKeys(log) && NamedKeys(log)
    ensures var r := Reconcile(log, nodes, removeErrors, now);
      var s := SaveAll(Start(log), nodes, now);
      r.Done? ==> Keys(r.value.1) == Failed(nodes, s.value.1)
  {
    SaveAllErrors(Start(log), nodes, now);
  }

  /** What the routine leaves behind: the "Markup Log" sheet (`None` when
      nothing was saved) and the error workbook (`None` when no save
      failed). */
  datatype ExitFiles = ExitFiles(markupLog: Option<Sheet>, errorBook: Option<(string, Sheet)>)

  /** `onAppExit`: `sheet` is the stored "Markup Log" sheet, `None` when the
      file does not exist; `removeErrors` are the unclaimed names whose file
      removal raised. */
  function Exit(sheet: Option<Sheet>, nodes: seq<MarkupNode>, removeErrors: set<string>, now: string): (r: Outcome<ExitFiles>)
    ensures r.Done? ==> Load(sheet).Done? && Reconcile(Load(sheet).value, nodes, removeErrors, now).Done?
    ensures r.Done? ==>
      && (r.value.markupLog.None? <==> |Reconcile(Load(sheet).value, nodes, removeErrors, now).value.0| == 0)
      && (r.value.errorBook.None? <==> |Reconcile(Load(sheet).value, nodes, removeErrors, now).value.1| == 0)
  {
    match Load(sheet)
    case Abort => Abort
    case Done(log) =>
      match Reconcile(log, nodes, removeErrors, now)
      case Abort => Abort
      case Done((out, errors)) => Done(ExitFiles(OutputSheet(out), ErrorBook(errors, now)))
  }

  /** The sheet written at exit loads, at the next exit, as the log it was
      written from, with every empty-string cell read as `None`. */
  lemma {:induction false} ExitReadBack(sheet: Option<Sheet>, nodes: seq<MarkupNode>, removeErrors: set<string>, now: string)
    ensures var r := Exit(sheet, nodes, removeErrors, now);
      r.Done? && r.value.markupLog.Some? ==>
        Load(r.value.markupLog) == Done(StoredLog(Reconcile(Load(sheet).value, nodes, removeErrors, now).value.0))
  {
    var r := Exit(sheet, nodes, removeErrors, now);
    if r.Done? && r.value.markupLog.Some? {
      OutputReadBack(Reconcile(Load(sheet).value, nodes, removeErrors, now).value.0);
    }
  }

  /** A sheet that loads and a scene of known node classes never abort. */
  lemma {:induction false} ExitDone(sheet: Option<Sheet>, nodes: seq<MarkupNode>, removeErrors: set<string>, now: string)
    requires Load(sheet).Done?
    requires forall i :: 0 <= i < |nodes| ==> TypeOf(nodes[i].className).Some?
    ensures Exit(sheet, nodes, removeErrors, now).Done?
  {
    SaveAllDone(Start(Load(sheet).value), nodes, now);
  }
}
