/** The exit routine of the Windows CSV workflow (`onAppExit` in
    annotation_windows/auto_script.py), with the host application's answers
    as inputs: each markup node is its name, its node id and the outcome of
    saving it. Unlike the macOS workflow, the file name is derived from the
    node alone, with no numbering. */
module WindowsExit {
  import opened PyText
  import opened Assoc
  import opened MarkupCsv
  import opened LogUpdate

  /** A markup node as the exit routine sees it. */
  datatype MarkupNode = MarkupNode(name: string, id: string, outcome: SaveOutcome)

  /** Names containing this already carry their node id. */
  const Marker: string := "_vtkMRMLMarkups"

  /** The file name of a node: its name, followed by `_` and its id unless
      the name contains `Marker`, with every space made an underscore, and
      `.json` appended. */
  function SafeName(name: string, id: string): (s: string)
    ensures EndsWith(s, ".json") && ' ' !in s
    ensures |s| == (if HasSub(name, Marker) then |name| else |name| + 1 + |id|) + 5
    ensures forall i :: 0 <= i < |name| ==> s[i] == (if name[i] == ' ' then '_' else name[i])
    ensures !HasSub(name, Marker) ==>
      s[|name|] == '_' && forall j :: 0 <= j < |id| ==> s[|name| + 1 + j] == (if id[j] == ' ' then '_' else id[j])
  {
    var stem := Stem(name, id);
    ReplaceChar(stem, ' ', "_");
    SubstCharSingle(stem, ' ', '_');
    Replace(stem, " ", "_") + ".json"
  }

  /** A node's name, followed by `_` and its id unless the name contains
      `Marker`. */
  function Stem(name: string, id: string): (stem: string)
    ensures |stem| == if HasSub(name, Marker) then |name| else |name| + 1 + |id|
    ensures forall i :: 0 <= i < |name| ==> stem[i] == name[i]
    ensures !HasSub(name, Marker) ==> stem[|name|] == '_' && forall j :: 0 <= j < |id| ==> stem[|name| + 1 + j] == id[j]
  {
    if !HasSub(name, Marker) then name + "_" + id else name
  }

  /** The node loop as (file name, save outcome) pairs, in scene order. */
  function Saves(nodes: seq<MarkupNode>): (saves: seq<Save>)
    ensures |saves| == |nodes|
    ensures forall i :: 0 <= i < |nodes| ==> saves[i] == (SafeName(nodes[i].name, nodes[i].id), nodes[i].outcome)
  {
    seq(|nodes|, i requires 0 <= i < |nodes| => (SafeName(nodes[i].name, nodes[i].id), nodes[i].outcome))
  }

  /** The whole exit-time rewrite of `markup_log.csv`: `None` when the file
      did not exist, which starts from an empty log. */
  function ExitLog(text: Option<string>, nodes: seq<MarkupNode>, removeErrors: set<string>, now: string): (out: string)
    ensures StartsWith(out, Header + "\n")
  {
    var log := if text.Some? then ParseLog(text.value) else [];
    SerializeLog(Reconcile(log, Saves(nodes), removeErrors, now))
  }

  /** A comma in a node's name survives into its file name, so the row
      written for it does not read back under the same key: the reader cuts
      the key at the first comma. */
  lemma {:induction false} CommaNameNotReadBack(name: string, id: string, e: Entry)
    requires ',' in name
    ensures var key := SafeName(name, id);
      ParseLine(FormatLine(key, e) + "\n").None? || ParseLine(FormatLine(key, e) + "\n").value.0 != key
  {
    var key := SafeName(name, id);
    var i :| 0 <= i < |name| && name[i] == ',';
    assert key[i] == ',';
  }
}
