/** The CSV markup log shared by the macOS and Windows CSV workflows
    (`markup_log.csv`), and the two steps of the exit routine that both
    workflows perform identically: recording a saved markup and marking
    vanished markups as deleted. Also the rewrite of the Done column of the
    session log (`log.csv`). */
module MarkupCsv {
  import opened PyText
  import opened Assoc

  /** One row of the markup log, keyed by file name. */
  datatype Entry = Entry(createdAt: string, content: string, deletedAt: string)

  type Log = Dict<string, Entry>

  const Header: string := "filename,created_at,content,deleted_at"

  // ---------------------------------------------------------------------
  // Reading the log
  // ---------------------------------------------------------------------

  /** `line.strip().split(",", 3)`, kept when it has four parts: exactly
      when the stripped line holds at least three commas. */
  function ParseLine(line: string): (r: Option<(string, Entry)>)
    ensures r.Some? <==> ThreeCommas(Strip(line))
    ensures r.Some? ==>
      && ',' !in r.value.0 && ',' !in r.value.1.createdAt && ',' !in r.value.1.content
      && Join([r.value.0, r.value.1.createdAt, r.value.1.content, r.value.1.deletedAt], ',') == Strip(line)
  {
    var s := Strip(line);
    var parts := SplitN(s, ',', 3);
    CommasCut(s);
    if |parts| >= 4 then
      FourParts(s, parts);
      FieldsCommas(parts[0], parts[1], parts[2], parts[3]);
      Some((parts[0], Entry(parts[1], parts[2], parts[3])))
    else None
  }

  /** The string holds at least three commas. */
  predicate ThreeCommas(s: string) {
    exists i, j, k :: 0 <= i < j < k < |s| && s[i] == ',' && s[j] == ',' && s[k] == ','
  }

  lemma {:induction false} CommasCut(s: string)
    ensures ThreeCommas(s) ==> |SplitN(s, ',', 3)| == 4
  {
    if ThreeCommas(s) {
      var i, j, k :| 0 <= i < j < k < |s| && s[i] == ',' && s[j] == ',' && s[k] == ',';
      SplitNThreeCuts(s, ',', i, j, k);
    }
  }

  lemma {:induction false} FieldsCommas(a: string, b: string, c: string, d: string)
    ensures ThreeCommas(Join([a, b, c, d], ','))
  {
    var s := Join([a, b, c, d], ',');
    JoinFourSeparators(a, b, c, d, ',');
    assert s[|a|] == ',' && s[|a| + |b| + 1] == ',' && s[|a| + |b| + |c| + 2] == ',';
  }

  lemma {:induction false} FourParts(s: string, parts: seq<string>)
    requires parts == SplitN(s, ',', 3) && |parts| >= 4
    ensures ',' !in parts[0] && ',' !in parts[1] && ',' !in parts[2]
    ensures Join([parts[0], parts[1], parts[2], parts[3]], ',') == s
  {
    Four(parts);
  }

  lemma {:induction false} Four<T>(xs: seq<T>)
    requires 4 <= |xs| <= 4
    ensures xs == [xs[0], xs[1], xs[2], xs[3]]
  {
  }

  /** Each line parsed on its own. */
  function ParseAll(lines: seq<string>): (rows: seq<Option<(string, Entry)>>)
    ensures |rows| == |lines|
    ensures forall i :: 0 <= i < |lines| ==> rows[i] == ParseLine(lines[i])
  {
    seq(|lines|, i requires 0 <= i < |lines| => ParseLine(lines[i]))
  }

  /** The loading loop: every row that parsed is assigned into the log, a
      repeated file name overwriting the earlier row in place, and lines
      that did not parse are skipped. */
  function ParseRows(acc: Log, rows: seq<Option<(string, Entry)>>): (log: Log)
    requires DistinctKeys(acc)
    ensures DistinctKeys(log)
    ensures Keys(acc) <= Keys(log)
    ensures forall i :: 0 <= i < |rows| && rows[i].Some? ==> rows[i].value.0 in Keys(log)
    decreases |rows|
  {
    if |rows| == 0 then acc
    else
      match rows[0]
      case Some(row) =>
        PutGet(acc, row.0, row.1);
        var log := ParseRows(Put(acc, row.0, row.1), rows[1..]);
        assert forall i :: 1 <= i < |rows| ==> rows[i] == rows[1..][i - 1];
        log
      case None =>
        var log := ParseRows(acc, rows[1..]);
        assert forall i :: 1 <= i < |rows| ==> rows[i] == rows[1..][i - 1];
        log
  }

  /** The keys of the rows that parsed. */
  function RowKeys(rows: seq<Option<(string, Entry)>>): set<string> {
    set i | 0 <= i < |rows| && rows[i].Some? :: rows[i].value.0
  }

  lemma {:induction false} RowKeysCons(rows: seq<Option<(string, Entry)>>)
    requires |rows| > 0
    ensures RowKeys(rows) == (if rows[0].Some? then {rows[0].value.0} else {}) + RowKeys(rows[1..])
  {
    var rest := rows[1..];
    forall k | k in RowKeys(rows) ensures k in RowKeys(rest) || (rows[0].Some? && k == rows[0].value.0) {
      var i :| 0 <= i < |rows| && rows[i].Some? && rows[i].value.0 == k;
      if i > 0 { assert rest[i - 1] == rows[i]; }
    }
    forall k | k in RowKeys(rest) ensures k in RowKeys(rows) {
      var i :| 0 <= i < |rest| && rest[i].Some? && rest[i].value.0 == k;
      assert rows[i + 1] == rest[i];
    }
  }

  /** The entry of the last parsed row named `k`, the one a later assignment
      of the loading loop cannot overwrite. */
  function LastRow(rows: seq<Option<(string, Entry)>>, k: string): Option<Entry>
    decreases |rows|
  {
    if |rows| == 0 then None
    else match LastRow(rows[1..], k)
      case Some(e) => Some(e)
      case None => if rows[0].Some? && rows[0].value.0 == k then Some(rows[0].value.1) else None
  }

  /** A key has a last row exactly when some row that parsed names it. */
  lemma {:induction false} LastRowIn(rows: seq<Option<(string, Entry)>>, k: string)
    ensures LastRow(rows, k).Some? <==> k in RowKeys(rows)
    decreases |rows|, 1
  {
    if |rows| > 0 {
      RowKeysCons(rows);
      LastRowIn(rows[1..], k);
    }
  }

  /** The last row is a parsed row of `k` and no later row parsed to `k`. */
  lemma {:induction false} LastRowIsLast(rows: seq<Option<(string, Entry)>>, k: string)
    ensures var r := LastRow(rows, k);
      r.Some? ==> exists i :: (0 <= i < |rows| && rows[i] == Some((k, r.value))
        && forall j :: i < j < |rows| ==> rows[j].None? || rows[j].value.0 != k)
    decreases |rows|
  {
    if |rows| > 0 {
      var rest := rows[1..];
      LastRowIsLast(rest, k);
      if LastRow(rest, k).Some? {
        var i :| 0 <= i < |rest| && rest[i] == Some((k, LastRow(rest, k).value))
          && forall j :: i < j < |rest| ==> rest[j].None? || rest[j].value.0 != k;
        assert rows[i + 1] == rest[i];
        forall j | i + 1 < j < |rows| ensures rows[j].None? || rows[j].value.0 != k {
          assert rows[j] == rest[j - 1];
        }
      } else if rows[0].Some? && rows[0].value.0 == k {
        LastRowIn(rest, k);
        forall j | 0 < j < |rows| ensures rows[j].None? || rows[j].value.0 != k {
          assert rows[j] == rest[j - 1];
          assert rest[j - 1].Some? ==> rest[j - 1].value.0 in RowKeys(rest);
        }
      }
    }
  }

  /** The keys of `acc` keep their positions at the front of `log`. */
  predicate KeepsPlaces(acc: Log, log: Log) {
    |acc| <= |log| && forall i :: 0 <= i < |acc| ==> log[i].0 == acc[i].0
  }

  /** Each key named by a parsed row holds its last row's entry. */
  predicate HoldsLastRows(log: Log, rows: seq<Option<(string, Entry)>>) {
    forall k :: k in RowKeys(rows) ==> k in Keys(log) && LastRow(rows, k) == Some(Get(log, k))
  }

  /** Each key of `acc` that no row names keeps its entry. */
  predicate KeepsUnnamed(acc: Log, rows: seq<Option<(string, Entry)>>, log: Log) {
    forall k :: k in Keys(acc) && k !in RowKeys(rows) ==> k in Keys(log) && Get(log, k) == Get(acc, k)
  }

  /** What loading leaves: the earlier keys in their places, followed by
      the new keys; each key a row names holds its last row's entry, and
      every other key keeps its earlier entry. */
  lemma {:induction false} ParseRowsContents(acc: Log, rows: seq<Option<(string, Entry)>>)
    requires DistinctKeys(acc)
    ensures Keys(ParseRows(acc, rows)) == Keys(acc) + RowKeys(rows)
    ensures KeepsPlaces(acc, ParseRows(acc, rows))
    ensures HoldsLastRows(ParseRows(acc, rows), rows)
    ensures KeepsUnnamed(acc, rows, ParseRows(acc, rows))
    decreases |rows|
  {
    if |rows| > 0 {
      var rest := rows[1..];
      RowKeysCons(rows);
      match rows[0]
      case Some(row) =>
        var next := Put(acc, row.0, row.1);
        PutGet(acc, row.0, row.1);
        ParseRowsContents(next, rest);
        var log := ParseRows(next, rest);
        assert ParseRows(acc, rows) == log;
        LastRowsStep(rows, row, log);
        UnnamedStep(acc, rows, row, log);
      case None =>
        ParseRowsContents(acc, rest);
        assert ParseRows(acc, rows) == ParseRows(acc, rest);
        forall k | k in RowKeys(rows) ensures LastRow(rows, k) == LastRow(rest, k) {
          LastRowIn(rest, k);
        }
    }
  }

  lemma {:induction false} LastRowsStep(rows: seq<Option<(string, Entry)>>, row: (string, Entry), log: Log)
    requires |rows| > 0 && rows[0] == Some(row)
    requires RowKeys(rows) == {row.0} + RowKeys(rows[1..])
    requires HoldsLastRows(log, rows[1..])
    requires row.0 in Keys(log) && (row.0 !in RowKeys(rows[1..]) ==> Get(log, row.0) == row.1)
    ensures HoldsLastRows(log, rows)
  {
    forall k | k in RowKeys(rows) ensures k in Keys(log) && LastRow(rows, k) == Some(Get(log, k)) {
      LastRowIn(rows[1..], k);
    }
  }

  lemma {:induction false} UnnamedStep(acc: Log, rows: seq<Option<(string, Entry)>>, row: (string, Entry), log: Log)
    requires DistinctKeys(acc) && |rows| > 0 && rows[0] == Some(row)
    requires RowKeys(rows) == {row.0} + RowKeys(rows[1..])
    requires KeepsUnnamed(Put(acc, row.0, row.1), rows[1..], log)
    ensures KeepsUnnamed(acc, rows, log)
  {
    forall k | k in Keys(acc) && k !in RowKeys(rows) ensures k in Keys(log) && Get(log, k) == Get(acc, k) {
      PutOther(acc, row.0, row.1, k);
    }
  }

  /** Loading `markup_log.csv`: every line after the first is a candidate
      row; the header line is never read as data. */
  function ParseLog(text: string): (log: Log)
    ensures DistinctKeys(log)
  {
    var lines := ReadLines(text);
    if |lines| == 0 then [] else ParseRows([], ParseAll(lines[1..]))
  }

  // ---------------------------------------------------------------------
  // Writing the log
  // ---------------------------------------------------------------------

  /** `f"{fname},{created_at},\"{content}\",{deleted_at}"` */
  function FormatLine(key: string, e: Entry): string {
    key + "," + e.createdAt + ",\"" + e.content + "\"," + e.deletedAt
  }

  function Rows(log: Log): string
    decreases |log|
  {
    if |log| == 0 then "" else FormatLine(log[0].0, log[0].1) + "\n" + Rows(log[1..])
  }

  /** The lines `Rows` writes, each with its terminator. */
  function RowLines(log: Log): (lines: seq<string>)
    ensures |lines| == |log|
    ensures forall i :: 0 <= i < |log| ==> lines[i] == FormatLine(log[i].0, log[i].1) + "\n"
    decreases |log|
  {
    if |log| == 0 then [] else [FormatLine(log[0].0, log[0].1) + "\n"] + RowLines(log[1..])
  }

  /** The whole file: header line, then one line per entry in insertion order. */
  function SerializeLog(log: Log): (text: string)
    ensures StartsWith(text, Header + "\n")
  {
    Header + "\n" + Rows(log)
  }

  /** The fields can be written and read back: the first three hold no
      comma, none holds a line terminator (`\n` or `\r`), and the line
      neither starts nor ends with whitespace that `strip` would remove. */
  predicate Writable(key: string, e: Entry) {
    && ',' !in key && ',' !in e.createdAt && ',' !in e.content
    && '\n' !in key && '\n' !in e.createdAt && '\n' !in e.content && '\n' !in e.deletedAt
    && '\r' !in key && '\r' !in e.createdAt && '\r' !in e.content && '\r' !in e.deletedAt
    && (|key| == 0 || !IsSpace(key[0]))
    && (|e.deletedAt| == 0 || !IsSpace(e.deletedAt[|e.deletedAt| - 1]))
  }

  predicate AllWritable(log: Log) {
    forall i :: 0 <= i < |log| ==> Writable(log[i].0, log[i].1)
  }

  /** Reading back wraps the content in one pair of double quotes. */
  function Quote(e: Entry): Entry {
    e.(content := "\"" + e.content + "\"")
  }

  function QuoteAll(log: Log): (r: Log)
    ensures |r| == |log|
    ensures forall i :: 0 <= i < |log| ==> r[i] == (log[i].0, Quote(log[i].1))
    decreases |log|
  {
    if |log| == 0 then [] else [(log[0].0, Quote(log[0].1))] + QuoteAll(log[1..])
  }

  lemma {:induction false} QuoteAllKeys(log: Log)
    requires DistinctKeys(log)
    ensures DistinctKeys(QuoteAll(log))
  {
    var q := QuoteAll(log);
    forall i, j | 0 <= i < j < |q| ensures q[i].0 != q[j].0 {
      assert q[i].0 == log[i].0 && q[j].0 == log[j].0;
    }
  }

  /** A written line reads back as the same file name, creation time and
      deletion time, with the content quoted once more. */
  lemma {:induction false} LineRoundTrip(key: string, e: Entry)
    requires Writable(key, e)
    ensures ParseLine(FormatLine(key, e) + "\n") == Some((key, Quote(e)))
  {
    StripFormatLine(key, e);
    SplitFormatLine(key, e);
  }

  /** `strip` takes exactly the terminator off a written line. */
  lemma {:induction false} StripFormatLine(key: string, e: Entry)
    requires Writable(key, e)
    ensures Strip(FormatLine(key, e) + "\n") == FormatLine(key, e)
  {
    var line := FormatLine(key, e);
    assert line == key + (",") + (e.createdAt + ",\"" + e.content + "\"," + e.deletedAt);
    assert line[0] == (if |key| > 0 then key[0] else ',');
    if |e.deletedAt| == 0 {
      assert line[|line| - 1] == ',';
    } else {
      assert line[|line| - 1] == e.deletedAt[|e.deletedAt| - 1];
    }
    StripLine(line);
  }

  /** A written line splits at its first three commas into the four
      fields, the content with its quotes. */
  lemma {:induction false} SplitFormatLine(key: string, e: Entry)
    requires Writable(key, e)
    ensures SplitN(FormatLine(key, e), ',', 3) == [key, e.createdAt, Quote(e).content, e.deletedAt]
  {
    var q := Quote(e).content;
    assert ',' !in q;
    assert FormatLine(key, e) == key + [','] + (e.createdAt + [','] + (q + [','] + e.deletedAt));
    SplitN3(key, e.createdAt, q, e.deletedAt, ',');
  }

  lemma {:induction false} ReadRows(log: Log)
    requires AllWritable(log)
    ensures ReadLines(Rows(log)) == RowLines(log)
    decreases |log|
  {
    if |log| > 0 {
      var line := FormatLine(log[0].0, log[0].1);
      assert '\n' !in "\"" && '\r' !in "\"";
      assert '\n' !in line && '\r' !in line;
      ReadLinesCons(line, Rows(log[1..]));
      ReadRows(log[1..]);
    }
  }

  /** The rows a written log parses into: every line parses, as its entry
      with the content quoted. */
  lemma {:induction false} ParseRowLines(log: Log)
    requires AllWritable(log)
    ensures ParseAll(RowLines(log)) == SomeRows(QuoteAll(log))
  {
    forall i | 0 <= i < |log|
      ensures ParseAll(RowLines(log))[i] == SomeRows(QuoteAll(log))[i]
    {
      LineRoundTrip(log[i].0, log[i].1);
    }
  }

  function SomeRows(log: Log): (rows: seq<Option<(string, Entry)>>)
    ensures |rows| == |log|
    ensures forall i :: 0 <= i < |log| ==> rows[i] == Some(log[i])
  {
    seq(|log|, i requires 0 <= i < |log| => Some(log[i]))
  }

  /** Assigning rows with fresh, distinct keys appends them in order. */
  lemma {:induction false} ParseFreshRows(acc: Log, log: Log)
    requires DistinctKeys(acc) && DistinctKeys(log)
    requires Keys(acc) !! Keys(log)
    ensures ParseRows(acc, SomeRows(log)) == acc + log
    decreases |log|
  {
    if |log| > 0 {
      var rest := log[1..];
      var acc' := acc + [log[0]];
      FreshTail(acc, log);
      assert Put(acc, log[0].0, log[0].1) == acc';
      assert SomeRows(log)[1..] == SomeRows(rest);
      ParseFreshRows(acc', rest);
      assert SomeRows(log)[0] == Some(log[0]);
      assert ParseRows(acc, SomeRows(log)) == ParseRows(acc', SomeRows(rest));
      AppendShift(acc, log);
    }
  }

  lemma {:induction false} AppendShift<T>(a: seq<T>, b: seq<T>)
    requires |b| > 0
    ensures (a + [b[0]]) + b[1..] == a + b
  {
    assert b == [b[0]] + b[1..];
  }

  /** Moving the first fresh row into the accumulator keeps the keys apart. */
  lemma {:induction false} FreshTail<K, V>(acc: Dict<K, V>, log: Dict<K, V>)
    requires DistinctKeys(acc) && DistinctKeys(log) && |log| > 0
    requires Keys(acc) !! Keys(log)
    ensures log[0].0 !in Keys(acc)
    ensures DistinctKeys(acc + [log[0]]) && DistinctKeys(log[1..])
    ensures Keys(acc + [log[0]]) !! Keys(log[1..])
  {
    var rest := log[1..];
    var acc' := acc + [log[0]];
    assert log[0].0 in Keys(log);
    assert forall i :: 0 <= i < |rest| ==> rest[i] == log[i + 1];
    forall k | k in Keys(rest) ensures k in Keys(log) && k != log[0].0 {
      var i :| 0 <= i < |rest| && rest[i].0 == k;
      assert rest[i] == log[i + 1];
    }
    forall k | k in Keys(acc') ensures k in Keys(acc) || k == log[0].0 {
      var i :| 0 <= i < |acc'| && acc'[i].0 == k;
      if i < |acc| { assert acc[i].0 == k; }
    }
    forall i, j | 0 <= i < j < |acc'| ensures acc'[i].0 != acc'[j].0 {
      if j == |acc| { assert acc[i].0 in Keys(acc); }
    }
  }

  /** The header is a single line. */
  lemma {:induction false} HeaderOneLine()
    ensures '\n' !in Header && '\r' !in Header
  {
  }

  /** Writing the log and reading it back gives the same keys in the same
      order, with the same creation and deletion times; only the content
      gains a pair of double quotes. */
  lemma {:induction false} LogRoundTrip(log: Log)
    requires DistinctKeys(log) && AllWritable(log)
    ensures ParseLog(SerializeLog(log)) == QuoteAll(log)
  {
    var text := SerializeLog(log);
    HeaderOneLine();
    ReadLinesCons(Header, Rows(log));
    ReadRows(log);
    ParseRowLines(log);
    QuoteAllKeys(log);
    ParseFreshRows([], QuoteAll(log));
  }

  /** So each exit that re-reads and re-writes an untouched entry adds
      another pair of quotes around its content. */
  lemma {:induction false} QuotesAccumulate(log: Log)
    requires DistinctKeys(log) && AllWritable(log)
    ensures ParseLog(SerializeLog(ParseLog(SerializeLog(log)))) == QuoteAll(QuoteAll(log))
  {
    LogRoundTrip(log);
    var once := QuoteAll(log);
    QuoteAllKeys(log);
    assert AllWritable(once) by {
      forall i | 0 <= i < |once| ensures Writable(once[i].0, once[i].1) {
        assert Writable(log[i].0, log[i].1);
        assert ',' !in "\"" && '\n' !in "\"" && '\r' !in "\"";
      }
    }
    LogRoundTrip(once);
  }

  /** A key holding a lone `\r` does not read back: the reader ends the
      line at the `\r`, and the piece before it, which has no comma, is
      dropped as a malformed row. */
  lemma {:induction false} CarriageReturnKeyDropped(a: string, b: string, e: Entry)
    requires '\n' !in a && '\r' !in a && ',' !in a && |b| > 0 && b[0] != '\n'
    ensures var lines := ReadLines(FormatLine(a + "\r" + b, e) + "\n");
      |lines| > 0 && lines[0] == a + "\n" && ParseLine(lines[0]).None?
  {
    var rest := FormatLine(b, e) + "\n";
    FormatLineSplit(a + "\r", b, e);
    assert FormatLine(a + "\r" + b, e) + "\n" == a + "\r" + rest;
    ReadLinesCarriageReturn(a, rest);
    assert ',' !in a + "\n";
    CommaFreeLineSkipped(a + "\n");
  }

  lemma {:induction false} FormatLineSplit(a: string, b: string, e: Entry)
    ensures FormatLine(a + b, e) == a + FormatLine(b, e)
  {
    var tail := "," + e.createdAt + ",\"" + e.content + "\"," + e.deletedAt;
    assert FormatLine(a + b, e) == (a + b) + tail;
    assert FormatLine(b, e) == b + tail;
  }

  /** A line without a comma has fewer than four fields and is skipped. */
  lemma {:induction false} CommaFreeLineSkipped(line: string)
    requires ',' !in line
    ensures ParseLine(line).None?
  {
    StripWithin(line);
    assert SplitN(Strip(line), ',', 3) == [Strip(line)];
  }

  // ---------------------------------------------------------------------
  // The Done column of the session log
  // ---------------------------------------------------------------------

  /** `"True" if len(final_markup_nodes) > 0 else ""` */
  function DoneStatus(nodeCount: nat): (s: string)
    ensures s == "True" <==> nodeCount > 0
    ensures s == "" <==> nodeCount == 0
  {
    if nodeCount > 0 then "True" else ""
  }

  /** `while len(parts) < 3: parts.append("")`, then `parts[2] = done`. */
  function SetDone(parts: seq<string>, done: string): (r: seq<string>)
    ensures |r| == if |parts| < 3 then 3 else |parts|
    ensures r[2] == done
    ensures forall j :: 0 <= j < |r| && j != 2 ==> r[j] == (if j < |parts| then parts[j] else "")
  {
    var padded := if |parts| < 3 then parts + seq(3 - |parts|, _ => "") else parts;
    padded[2 := done]
  }

  function RewriteLine(line: string, report: string, done: string): string {
    if StartsWith(line, report + ",") then Join(SetDone(Split(Strip(line), ','), done), ',') + "\n"
    else line
  }

  /** The rewrite of `log.csv`: one output line per input line; lines not
      starting with `<report>,` are copied verbatim; the matching lines are
      re-split on commas, padded to three fields, and get `True` (some
      markup exists) or the empty string (none) in the third field, all
      other fields kept. */
  function RewriteReportLog(lines: seq<string>, report: string, nodeCount: nat): (r: seq<string>)
    ensures |r| == |lines|
    ensures forall i :: 0 <= i < |lines| && !StartsWith(lines[i], report + ",") ==> r[i] == lines[i]
    ensures forall i :: 0 <= i < |lines| && StartsWith(lines[i], report + ",") ==>
      EndsWith(r[i], "\n") && RewrittenFields(lines[i], r[i], DoneStatus(nodeCount))
  {
    var done := DoneStatus(nodeCount);
    assert ',' !in done;
    var r := seq(|lines|, i requires 0 <= i < |lines| => RewriteLine(lines[i], report, done));
    assert forall i :: 0 <= i < |lines| && StartsWith(lines[i], report + ",") ==>
      EndsWith(r[i], "\n") && RewrittenFields(lines[i], r[i], done) by {
      forall i | 0 <= i < |lines| && StartsWith(lines[i], report + ",")
        ensures EndsWith(r[i], "\n") && RewrittenFields(lines[i], r[i], done)
      {
        RewriteLineFields(lines[i], report, done);
      }
    }
    r
  }

  /** The fields of the rewritten line, split on commas, are those of the
      stripped input line, padded to three, with `done` third. */
  ghost predicate RewrittenFields(line: string, out: string, done: string)
    requires |out| > 0
  {
    var before := Split(Strip(line), ',');
    var after := Split(out[..|out| - 1], ',');
    && |after| == (if |before| < 3 then 3 else |before|)
    && after[2] == done
    && (forall j :: 0 <= j < |after| && j != 2 ==> after[j] == (if j < |before| then before[j] else ""))
  }

  lemma {:induction false} RewriteLineFields(line: string, report: string, done: string)
    requires StartsWith(line, report + ",") && ',' !in done
    ensures EndsWith(RewriteLine(line, report, done), "\n")
    ensures RewrittenFields(line, RewriteLine(line, report, done), done)
  {
    var parts := SetDone(Split(Strip(line), ','), done);
    var joined := Join(parts, ',');
    var out := joined + "\n";
    assert out[..|out| - 1] == joined;
    SplitJoin(parts, ',');
  }
}
