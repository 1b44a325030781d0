/** The exit routine of the macOS CSV workflow (`onAppExit` in
    annotation_mac/auto_script.py), with the host application's answers as
    inputs: each markup node is its name and the outcome of saving it.

    Each node's file name is either an existing log key equal to the encoded
    name plus `.json`, or a fresh `<encoded>_<max + 1>.json`; the save is
    recorded in the log; keys no node claimed are tombstoned; the log is
    written back. */
module MacExit {
  import opened PyText
  import opened Assoc
  import opened FilenameCodec
  import opened Numbering
  import opened MarkupCsv
  import opened LogUpdate

  /** A markup node as the exit routine sees it. */
  datatype MarkupNode = MarkupNode(name: string, outcome: SaveOutcome)

  /** The loop's variables: the log and `max_number`. (`current_filenames`
      is the set of names the loop claims, `Claimed` of its saves.) */
  datatype State = State(log: Log, maxNumber: nat)

  /** The log is a dictionary and no key carries a number above `maxNumber`. */
  predicate Numbered(st: State) {
    DistinctKeys(st.log) && Bounded(KeyList(st.log), st.maxNumber)
  }

  /** `for fname in markup_log.keys(): if fname == target: existing_file = fname; break` */
  function FindKey(log: Log, target: string): (r: Option<string>)
    ensures r.Some? <==> target in Keys(log)
    ensures r.Some? ==> r.value == target
    decreases |log|
  {
    if |log| == 0 then None
    else
      KeysCons(log);
      if log[0].0 == target then Some(log[0].0) else FindKey(log[1..], target)
  }

  /** Naming a node: reuse `<encoded>.json` when the log has it (the
      `if existing_file:` test, which a key ending in `.json` always passes),
      otherwise number a fresh name one above `maxNumber`. */
  function Choose(log: Log, maxNumber: nat, name: string): (c: Choice)
    ensures c.Reused? <==> Encode(name) + JsonSuffix in Keys(log)
    ensures c.Reused? ==> c.name == Encode(name) + JsonSuffix
    ensures c.Fresh? ==> c.number == maxNumber + 1 && StartsWith(c.name, Encode(name) + "_")
  {
    var encoded := Encode(name);
    var numbered := Fresh(FreshName(encoded, maxNumber + 1), maxNumber + 1);
    assert FreshName(encoded, maxNumber + 1)[..|encoded| + 1] == encoded + "_";
    match FindKey(log, encoded + JsonSuffix)
    case Some(existing) => if existing != "" then Reused(existing) else numbered
    case None => numbered
  }

  /** A fresh name is not yet a key, and its trailing number is the number
      it was given. */
  lemma {:induction false} ChooseFresh(st: State, name: string)
    requires Numbered(st)
    ensures var c := Choose(st.log, st.maxNumber, name);
      c.Fresh? ==> c.name !in Keys(st.log) && TrailingNumber(c.name) == Some(st.maxNumber + 1)
  {
    var encoded := Encode(name);
    FreshNameNumber(encoded, st.maxNumber + 1);
    FreshNameIsNew(encoded, st.maxNumber + 1, KeyList(st.log));
  }

  /** Recording a save under a chosen name keeps every trailing number
      within the new maximum. */
  lemma {:induction false} RecordBounded(st: State, c: Choice, outcome: SaveOutcome, now: string)
    requires Numbered(st)
    requires c.Fresh? ==> TrailingNumber(c.name) == Some(c.number) && st.maxNumber <= c.number
    requires c.Reused? ==> c.name in Keys(st.log)
    ensures Bounded(KeyList(RecordSave(st.log, c.name, outcome, now)), if c.Fresh? then c.number else st.maxNumber)
  {
    var log := RecordSave(st.log, c.name, outcome, now);
    var maxNumber := if c.Fresh? then c.number else st.maxNumber;
    forall i | 0 <= i < |log| && TrailingNumber(KeyList(log)[i]).Some?
      ensures TrailingNumber(KeyList(log)[i]).value <= maxNumber
    {
      if i < |st.log| {
        assert KeyList(log)[i] == KeyList(st.log)[i];
      } else {
        assert log[i].0 == c.name;
      }
    }
  }

  /** One pass of the node loop. */
  function SaveNode(st: State, node: MarkupNode, now: string): (r: (State, Choice))
    requires Numbered(st)
    ensures Numbered(r.0)
    ensures r.1 == Choose(st.log, st.maxNumber, node.name)
    ensures r.1.Fresh? ==> r.1.name !in Keys(st.log) && TrailingNumber(r.1.name) == Some(r.1.number)
    ensures r.0.maxNumber == if r.1.Fresh? then r.1.number else st.maxNumber
    ensures r.0.log == RecordSave(st.log, r.1.name, node.outcome, now)
  {
    var c := Choose(st.log, st.maxNumber, node.name);
    var maxNumber := if c.Fresh? then c.number else st.maxNumber;
    var log := RecordSave(st.log, c.name, node.outcome, now);
    ChooseFresh(st, node.name);
    RecordBounded(st, c, node.outcome, now);
    (State(log, maxNumber), c)
  }

  /** The node loop, in scene order. */
  function SaveAll(st: State, nodes: seq<MarkupNode>, now: string): (r: (State, seq<Choice>))
    requires Numbered(st)
    ensures Numbered(r.0) && |r.1| == |nodes|
    ensures st.maxNumber <= r.0.maxNumber
    decreases |nodes|
  {
    if |nodes| == 0 then (st, [])
    else
      var (next, c) := SaveNode(st, nodes[0], now);
      var (last, cs) := SaveAll(next, nodes[1..], now);
      (last, [c] + cs)
  }

  /** The node loop as (file name, save outcome) pairs, in scene order. */
  function Saves(nodes: seq<MarkupNode>, cs: seq<Choice>): (saves: seq<Save>)
    requires |nodes| == |cs|
    ensures |saves| == |nodes|
    ensures forall i :: 0 <= i < |nodes| ==> saves[i] == (cs[i].name, nodes[i].outcome)
  {
    seq(|nodes|, i requires 0 <= i < |nodes| => (cs[i].name, nodes[i].outcome))
  }

  /** The loop's effect on the log is that of recording its saves in order,
      so the properties of `RecordAll` hold of it. */
  lemma {:induction false} SaveAllRecords(st: State, nodes: seq<MarkupNode>, now: string)
    requires Numbered(st)
    ensures SaveAll(st, nodes, now).0.log == RecordAll(st.log, Saves(nodes, SaveAll(st, nodes, now).1), now)
    decreases |nodes|
  {
    if |nodes| > 0 {
      var (next, c) := SaveNode(st, nodes[0], now);
      SaveAllRecords(next, nodes[1..], now);
      var cs := SaveAll(st, nodes, now).1;
      assert cs[1..] == SaveAll(next, nodes[1..], now).1;
      assert Saves(nodes, cs)[1..] == Saves(nodes[1..], cs[1..]);
    }
  }

  /** The log keys only grow along the loop. */
  lemma {:induction false} SaveNodeKeys(st: State, node: MarkupNode, now: string)
    requires Numbered(st)
    ensures Keys(st.log) <= Keys(SaveNode(st, node, now).0.log)
  {
    var next := SaveNode(st, node, now).0;
    forall k | k in Keys(st.log) ensures k in Keys(next.log) {
      var i :| 0 <= i < |st.log| && st.log[i].0 == k;
      assert next.log[i].0 == k;
    }
  }

  /** Fresh names are never existing keys, carry the number they were given,
      and are numbered from one above the starting maximum up to the final
      one. */
  lemma {:induction false} SaveAllFresh(st: State, nodes: seq<MarkupNode>, now: string)
    requires Numbered(st)
    ensures var r := SaveAll(st, nodes, now);
      forall i :: 0 <= i < |r.1| ==> FreshWithin(r.1[i], Keys(st.log), st.maxNumber, r.0.maxNumber)
    decreases |nodes|
  {
    if |nodes| > 0 {
      var (next, c) := SaveNode(st, nodes[0], now);
      SaveAllCons(st, nodes, now);
      SaveAllFresh(next, nodes[1..], now);
      SaveNodeKeys(st, nodes[0], now);
      var rest := SaveAll(next, nodes[1..], now);
      FreshWithinCons(c, rest.1, Keys(st.log), Keys(next.log), st.maxNumber, next.maxNumber, rest.0.maxNumber);
    }
  }

  /** Fresh numbers strictly increase in scene order. */
  lemma {:induction false} SaveAllIncreasing(st: State, nodes: seq<MarkupNode>, now: string)
    requires Numbered(st)
    ensures Increasing(SaveAll(st, nodes, now).1)
    decreases |nodes|
  {
    if |nodes| > 0 {
      var (next, c) := SaveNode(st, nodes[0], now);
      SaveAllCons(st, nodes, now);
      SaveAllIncreasing(next, nodes[1..], now);
      SaveAllFresh(next, nodes[1..], now);
      var rest := SaveAll(next, nodes[1..], now);
      IncreasingCons(c, rest.1, Keys(next.log), next.maxNumber, rest.0.maxNumber);
    }
  }

  /** Fresh names within one run are pairwise distinct. */
  lemma {:induction false} FreshNamesDistinct(st: State, nodes: seq<MarkupNode>, now: string)
    requires Numbered(st)
    ensures var cs := SaveAll(st, nodes, now).1;
      forall i, j :: 0 <= i < j < |cs| && cs[i].Fresh? && cs[j].Fresh? ==> cs[i].name != cs[j].name
  {
    SaveAllFresh(st, nodes, now);
    SaveAllIncreasing(st, nodes, now);
    var r := SaveAll(st, nodes, now);
    forall i, j | 0 <= i < j < |r.1| && r.1[i].Fresh? && r.1[j].Fresh? ensures r.1[i].name != r.1[j].name {
      assert FreshWithin(r.1[i], Keys(st.log), st.maxNumber, r.0.maxNumber);
      assert FreshWithin(r.1[j], Keys(st.log), st.maxNumber, r.0.maxNumber);
    }
  }

  /** The loop's choices: the first node's, then the rest from the state
      it leaves. */
  lemma {:induction false} SaveAllCons(st: State, nodes: seq<MarkupNode>, now: string)
    requires Numbered(st) && |nodes| > 0
    ensures var (next, c) := SaveNode(st, nodes[0], now);
      && SaveAll(st, nodes, now).1 == [c] + SaveAll(next, nodes[1..], now).1
      && SaveAll(st, nodes, now).0 == SaveAll(next, nodes[1..], now).0
  {
  }

  /** A node's file name is its encoded name: plus `.json` when reused,
      plus an underscore and a number when fresh. */
  predicate NamedAfter(node: MarkupNode, c: Choice) {
    && (c.Reused? ==> c.name == Encode(node.name) + JsonSuffix)
    && (c.Fresh? ==> StartsWith(c.name, Encode(node.name) + "_"))
  }

  /** The inductive step of `SaveAllReused`, over the loop's values alone. */
  lemma {:induction false} NamedAfterCons(nodes: seq<MarkupNode>, c: Choice, rest: seq<Choice>)
    requires |nodes| == |rest| + 1 && NamedAfter(nodes[0], c)
    requires forall i :: 0 <= i < |rest| ==> NamedAfter(nodes[1..][i], rest[i])
    ensures forall i :: 0 <= i < |nodes| ==> NamedAfter(nodes[i], ([c] + rest)[i])
  {
    forall i | 0 <= i < |nodes| ensures NamedAfter(nodes[i], ([c] + rest)[i]) {
      if i > 0 { assert nodes[i] == nodes[1..][i - 1] && ([c] + rest)[i] == rest[i - 1]; }
    }
  }

  /** An existing key is reused only when it is the node's encoded name plus
      `.json`, and a fresh name starts with the encoded name. */
  lemma {:induction false} SaveAllReused(st: State, nodes: seq<MarkupNode>, now: string)
    requires Numbered(st)
    ensures var cs := SaveAll(st, nodes, now).1;
      forall i :: 0 <= i < |cs| ==> NamedAfter(nodes[i], cs[i])
    decreases |nodes|
  {
    if |nodes| > 0 {
      var (next, c) := SaveNode(st, nodes[0], now);
      SaveAllCons(st, nodes, now);
      SaveAllReused(next, nodes[1..], now);
      NamedAfterCons(nodes, c, SaveAll(next, nodes[1..], now).1);
    }
  }

  /** The starting state: the loaded log and its highest trailing number. */
  function Start(log: Log): (st: State)
    requires DistinctKeys(log)
    ensures Numbered(st) && st.log == log
  {
    State(log, MaxNumber(KeyList(log)))
  }

  /** The names the nodes claim, in scene order. */
  function Claims(log: Log, nodes: seq<MarkupNode>, now: string): (cs: seq<Choice>)
    requires DistinctKeys(log)
    ensures |cs| == |nodes|
  {
    SaveAll(Start(log), nodes, now).1
  }

  /** The markup log the exit routine writes back: the node loop, then the
      deletion loop over the names the loop did not claim. */
  function ExitReconcile(log: Log, nodes: seq<MarkupNode>, removeErrors: set<string>, now: string): (r: Log)
    requires DistinctKeys(log)
    ensures DistinctKeys(r)
  {
    var fin := SaveAll(Start(log), nodes, now).0;
    var saves := Saves(nodes, Claims(log, nodes, now));
    SaveAllRecords(Start(log), nodes, now);
    TombstoneKeys(fin.log, Claimed(saves), removeErrors, now);
    Tombstone(fin.log, Claimed(saves), removeErrors, now)
  }

  /** That log is the shared reconciliation of the loop's saves. */
  lemma {:induction false} ExitReconcileIsShared(log: Log, nodes: seq<MarkupNode>, removeErrors: set<string>, now: string)
    requires DistinctKeys(log)
    ensures ExitReconcile(log, nodes, removeErrors, now)
      == Reconcile(log, Saves(nodes, Claims(log, nodes, now)), removeErrors, now)
  {
    SaveAllRecords(Start(log), nodes, now);
  }

  /** The whole exit-time rewrite of `markup_log.csv`: `None` when the file
      did not exist, which starts from an empty log. */
  function ExitLog(text: Option<string>, nodes: seq<MarkupNode>, removeErrors: set<string>, now: string): (out: string)
    ensures StartsWith(out, Header + "\n")
  {
    var log := if text.Some? then ParseLog(text.value) else [];
    SerializeLog(ExitReconcile(log, nodes, removeErrors, now))
  }
}
