/** The two steps of the exit routine that the macOS and Windows CSV
    workflows perform identically (annotation_mac/auto_script.py and
    annotation_windows/auto_script.py): recording each node's save in the
    markup log, then marking every logged file that no node claimed as
    deleted. The workflows differ only in how they name a node's file, so
    here the nodes arrive already named, as (file name, save outcome) pairs
    in scene order. */
module LogUpdate {
  import opened PyText
  import opened Assoc
  import opened MarkupCsv

  /** What `saveNode` and the read-back of the saved file produced: the
      JSON text, or nothing when the save reported failure or raised. */
  datatype SaveOutcome = Saved(json: string) | NotSaved

  /** `json.dumps(...).replace("\n", "").replace(",", ";")`: the JSON text
      with every line break deleted and then every comma made `;`,
      character by character. The stored content holds no comma and no line
      break, and every other character comes from the JSON text. */
  function SanitizeContent(json: string): (c: string)
    ensures c == SubstChar(SubstChar(json, '\n', ""), ',', ";")
    ensures ',' !in c && '\n' !in c
    ensures forall x :: x in c ==> x == ';' || (x in json && x != ',' && x != '\n')
  {
    ReplaceChar(json, '\n', "");
    var noBreaks := Replace(json, "\n", "");
    ReplaceChar(noBreaks, ',', ";");
    Replace(noBreaks, ",", ";")
  }

  /** The `if saveNode(...)` block: a new file name gets an entry created
      now; an existing one has its content refreshed and its deletion
      cleared; a failed save changes nothing. */
  function RecordSave(log: Log, path: string, outcome: SaveOutcome, now: string): (r: Log)
    requires DistinctKeys(log)
    ensures DistinctKeys(r)
    ensures |log| <= |r| <= |log| + 1
    ensures forall i :: 0 <= i < |log| ==> r[i].0 == log[i].0
    ensures |r| == |log| + 1 ==> r[|log|].0 == path && path !in Keys(log) && r[|log|].1.createdAt == now
    ensures forall i :: 0 <= i < |log| ==> r[i].1.createdAt == log[i].1.createdAt
    ensures forall i :: 0 <= i < |log| && log[i].0 != path ==> r[i] == log[i]
    ensures forall i :: 0 <= i < |r| && r[i].0 == path && outcome.Saved? ==>
      r[i].1.content == SanitizeContent(outcome.json) && r[i].1.deletedAt == ""
    ensures outcome.NotSaved? ==> r == log
    ensures outcome.Saved? ==> Keys(r) == Keys(log) + {path}
    ensures outcome.Saved? && path !in Keys(log) ==>
      Get(r, path) == Entry(now, SanitizeContent(outcome.json), "")
    ensures outcome.Saved? && path in Keys(log) ==>
      Get(r, path) == Entry(Get(log, path).createdAt, SanitizeContent(outcome.json), "")
    ensures forall k :: k in Keys(log) && k != path ==> k in Keys(r) && Get(r, k) == Get(log, k)
  {
    match outcome
    case NotSaved => log
    case Saved(json) => RecordContent(log, path, SanitizeContent(json), now)
  }

  /** A successful save of `path` storing content `c`. */
  function RecordContent(log: Log, path: string, c: string, now: string): (r: Log)
    requires DistinctKeys(log)
    ensures DistinctKeys(r)
    ensures |log| <= |r| <= |log| + 1
    ensures forall i :: 0 <= i < |log| ==> r[i].0 == log[i].0
    ensures |r| == |log| + 1 ==> r[|log|].0 == path && path !in Keys(log) && r[|log|].1.createdAt == now
    ensures forall i :: 0 <= i < |log| ==> r[i].1.createdAt == log[i].1.createdAt
    ensures forall i :: 0 <= i < |log| && log[i].0 != path ==> r[i] == log[i]
    ensures forall i :: 0 <= i < |r| && r[i].0 == path ==> r[i].1.content == c && r[i].1.deletedAt == ""
    ensures Keys(r) == Keys(log) + {path}
    ensures path !in Keys(log) ==> Get(r, path) == Entry(now, c, "")
    ensures path in Keys(log) ==> Get(r, path) == Entry(Get(log, path).createdAt, c, "")
    ensures forall k :: k in Keys(log) && k != path ==> k in Keys(r) && Get(r, k) == Get(log, k)
  {
    var e := if path in Keys(log) then Get(log, path).(content := c, deletedAt := "") else Entry(now, c, "");
    PutGet(log, path, e);
    forall k | k in Keys(log) && k != path ensures Get(Put(log, path, e), k) == Get(log, k) {
      PutOther(log, path, e, k);
    }
    Put(log, path, e)
  }

  /** The deletion loop: every logged file not written this run is removed
      and, if its removal did not raise and it had no deletion time yet,
      stamped with `now`. Nothing is ever dropped from the log. */
  function Tombstone(log: Log, current: set<string>, removeErrors: set<string>, now: string): (r: Log)
    ensures |r| == |log|
    ensures forall i :: 0 <= i < |log| ==>
      && r[i].0 == log[i].0
      && r[i].1.createdAt == log[i].1.createdAt
      && r[i].1.content == log[i].1.content
      && (log[i].0 in current ==> r[i].1 == log[i].1)
      && (log[i].1.deletedAt != "" ==> r[i].1 == log[i].1)
      && (log[i].0 in removeErrors ==> r[i] == log[i])
      && (log[i].0 !in current && log[i].0 !in removeErrors && log[i].1.deletedAt == "" ==> r[i].1.deletedAt == now)
  {
    MapValues(log, (k: string, e: Entry) =>
      if k !in current && k !in removeErrors && e.deletedAt == "" then e.(deletedAt := now) else e)
  }

  lemma {:induction false} TombstoneKeys(log: Log, current: set<string>, removeErrors: set<string>, now: string)
    ensures Keys(Tombstone(log, current, removeErrors, now)) == Keys(log)
    ensures DistinctKeys(log) ==> DistinctKeys(Tombstone(log, current, removeErrors, now))
  {
    MapValuesKeys(log, (k: string, e: Entry) =>
      if k !in current && k !in removeErrors && e.deletedAt == "" then e.(deletedAt := now) else e);
  }

  /** One node of the loop: the file name it claims and how its save went. */
  type Save = (string, SaveOutcome)

  /** The node loop's effect on the log. */
  function RecordAll(log: Log, saves: seq<Save>, now: string): (r: Log)
    requires DistinctKeys(log)
    ensures DistinctKeys(r)
    decreases |saves|
  {
    if |saves| == 0 then log
    else RecordAll(RecordSave(log, saves[0].0, saves[0].1, now), saves[1..], now)
  }

  /** `current_filenames`: every claimed name, saved or not. */
  function Claimed(saves: seq<Save>): set<string> {
    set i | 0 <= i < |saves| :: saves[i].0
  }

  /** The names whose save succeeded. */
  function SavedPaths(saves: seq<Save>): set<string> {
    set i | 0 <= i < |saves| && saves[i].1.Saved? :: saves[i].0
  }

  lemma {:induction false} SavesCons(saves: seq<Save>)
    requires |saves| > 0
    ensures Claimed(saves) == {saves[0].0} + Claimed(saves[1..])
    ensures SavedPaths(saves) == (if saves[0].1.Saved? then {saves[0].0} else {}) + SavedPaths(saves[1..])
  {
    forall x | x in Claimed(saves) ensures x == saves[0].0 || x in Claimed(saves[1..]) {
      var i :| 0 <= i < |saves| && saves[i].0 == x;
      if i > 0 { assert saves[1..][i - 1].0 == x; }
    }
    forall x | x in SavedPaths(saves)
      ensures (saves[0].1.Saved? && x == saves[0].0) || x in SavedPaths(saves[1..])
    {
      var i :| 0 <= i < |saves| && saves[i].1.Saved? && saves[i].0 == x;
      if i > 0 { assert saves[1..][i - 1] == saves[i]; }
    }
    forall x | x in SavedPaths(saves[1..]) ensures x in SavedPaths(saves) {
      var i :| 0 <= i < |saves| - 1 && saves[1..][i].1.Saved? && saves[1..][i].0 == x;
      assert saves[i + 1] == saves[1..][i];
    }
  }

  // Properties relating the log before and after, each named once.

  /** The keys afterwards are the old keys, in their old positions, and
      `added`: nothing is removed. */
  predicate KeepsKeys(before: Log, after: Log, added: set<string>) {
    && Keys(after) == Keys(before) + added
    && |before| <= |after|
    && (forall i :: 0 <= i < |before| ==> after[i].0 == before[i].0)
  }

  /** Old entries keep their creation times; added entries are created now. */
  predicate CreationTimes(before: Log, after: Log, now: string) {
    && |before| <= |after|
    && (forall j :: 0 <= j < |before| ==> after[j].1.createdAt == before[j].1.createdAt)
    && (forall j :: |before| <= j < |after| ==> after[j].1.createdAt == now)
  }

  /** Old entries whose names are not in `touched` are unchanged. */
  predicate Untouched(before: Log, after: Log, touched: set<string>) {
    && |before| <= |after|
    && (forall j :: 0 <= j < |before| && before[j].0 !in touched ==> after[j] == before[j])
  }

  /** Every entry named in `saved` has no deletion time. */
  predicate Cleared(after: Log, saved: set<string>) {
    forall j :: 0 <= j < |after| && after[j].0 in saved ==> after[j].1.deletedAt == ""
  }

  lemma {:induction false} RecordAllKeys(log: Log, saves: seq<Save>, now: string)
    requires DistinctKeys(log)
    ensures KeepsKeys(log, RecordAll(log, saves, now), SavedPaths(saves))
    decreases |saves|
  {
    if |saves| > 0 {
      var next := RecordSave(log, saves[0].0, saves[0].1, now);
      RecordAllKeys(next, saves[1..], now);
      SavesCons(saves);
    }
  }

  lemma {:induction false} RecordAllCreated(log: Log, saves: seq<Save>, now: string)
    requires DistinctKeys(log)
    ensures CreationTimes(log, RecordAll(log, saves, now), now)
    decreases |saves|
  {
    if |saves| > 0 {
      var next := RecordSave(log, saves[0].0, saves[0].1, now);
      RecordAllCreated(next, saves[1..], now);
    }
  }

  /** An old entry whose name no successful save claimed is left exactly as
      it was. */
  lemma {:induction false} RecordAllUntouched(log: Log, saves: seq<Save>, now: string)
    requires DistinctKeys(log)
    ensures Untouched(log, RecordAll(log, saves, now), SavedPaths(saves))
    decreases |saves|
  {
    if |saves| > 0 {
      var next := RecordSave(log, saves[0].0, saves[0].1, now);
      RecordAllUntouched(next, saves[1..], now);
      SavesCons(saves);
    }
  }

  /** Every entry a successful save claimed ends with no deletion time. */
  lemma {:induction false} RecordAllCleared(log: Log, saves: seq<Save>, now: string)
    requires DistinctKeys(log)
    ensures Cleared(RecordAll(log, saves, now), SavedPaths(saves))
    decreases |saves|
  {
    if |saves| > 0 {
      var next := RecordSave(log, saves[0].0, saves[0].1, now);
      var r := RecordAll(log, saves, now);
      RecordAllCleared(next, saves[1..], now);
      RecordAllUntouched(next, saves[1..], now);
      RecordAllKeys(next, saves[1..], now);
      SavesCons(saves);
      forall j | 0 <= j < |r| && r[j].0 in SavedPaths(saves) ensures r[j].1.deletedAt == "" {
        var k := r[j].0;
        if k !in SavedPaths(saves[1..]) {
          assert saves[0].1.Saved? && k == saves[0].0;
          assert k in Keys(next);
          var j' :| 0 <= j' < |next| && next[j'].0 == k;
          assert r[j'] == next[j'];
          assert j' == j;
        }
      }
    }
  }

  /** The log the exit routine writes back: every save recorded, then every
      logged name no node claimed tombstoned. `removeErrors` are the names
      whose file removal raised, which skips their tombstone. */
  function Reconcile(log: Log, saves: seq<Save>, removeErrors: set<string>, now: string): (r: Log)
    requires DistinctKeys(log)
    ensures DistinctKeys(r)
  {
    var saved := RecordAll(log, saves, now);
    TombstoneKeys(saved, Claimed(saves), removeErrors, now);
    Tombstone(saved, Claimed(saves), removeErrors, now)
  }

  /** The keys are the old ones, in their old positions, plus the names
      successfully saved; nothing is removed. */
  lemma {:induction false} ReconcileKeys(log: Log, saves: seq<Save>, removeErrors: set<string>, now: string)
    requires DistinctKeys(log)
    ensures KeepsKeys(log, Reconcile(log, saves, removeErrors, now), SavedPaths(saves))
  {
    var saved := RecordAll(log, saves, now);
    RecordAllKeys(log, saves, now);
    TombstoneKeys(saved, Claimed(saves), removeErrors, now);
  }

  /** Every successfully saved name ends with no deletion time. */
  lemma {:induction false} ReconcileCleared(log: Log, saves: seq<Save>, removeErrors: set<string>, now: string)
    requires DistinctKeys(log)
    ensures Cleared(Reconcile(log, saves, removeErrors, now), SavedPaths(saves))
  {
    var saved := RecordAll(log, saves, now);
    RecordAllCleared(log, saves, now);
    var r := Reconcile(log, saves, removeErrors, now);
    assert SavedPaths(saves) <= Claimed(saves);
    forall i | 0 <= i < |r| && r[i].0 in SavedPaths(saves) ensures r[i].1.deletedAt == "" {
      assert r[i].0 == saved[i].0 && r[i].0 in Claimed(saves);
    }
  }

  /** Creation times never change, and entries added this run are created
      now with no deletion time. */
  lemma {:induction false} ReconcileCreated(log: Log, saves: seq<Save>, removeErrors: set<string>, now: string)
    requires DistinctKeys(log)
    ensures CreationTimes(log, Reconcile(log, saves, removeErrors, now), now)
    ensures var r := Reconcile(log, saves, removeErrors, now);
      forall i :: |log| <= i < |r| ==> r[i].1.deletedAt == ""
  {
    var saved := RecordAll(log, saves, now);
    var r := Reconcile(log, saves, removeErrors, now);
    RecordAllCreated(log, saves, now);
    ReconcileCleared(log, saves, removeErrors, now);
    forall i | |log| <= i < |r| ensures r[i].1.deletedAt == "" {
      SavedAddition(log, saves, now, i);
      assert r[i].0 == saved[i].0;
    }
  }

  /** An entry past the old log's end was added by a successful save. */
  lemma {:induction false} SavedAddition(log: Log, saves: seq<Save>, now: string, i: nat)
    requires DistinctKeys(log)
    requires |log| <= i < |RecordAll(log, saves, now)|
    ensures RecordAll(log, saves, now)[i].0 in SavedPaths(saves)
  {
    var saved := RecordAll(log, saves, now);
    RecordAllKeys(log, saves, now);
    assert saved[i].0 in Keys(saved);
  }

  /** An old entry that no node claimed keeps its content and an earlier
      deletion time, and is otherwise stamped now; if its file removal
      raised, it is left exactly as it was. */
  predicate TombstonedUnclaimed(before: Log, after: Log, claimed: set<string>, removeErrors: set<string>, now: string) {
    && |before| <= |after|
    && forall i :: 0 <= i < |before| && before[i].0 !in claimed ==>
      && after[i].1.content == before[i].1.content
      && (before[i].1.deletedAt != "" ==> after[i].1.deletedAt == before[i].1.deletedAt)
      && (before[i].1.deletedAt == "" && before[i].0 !in removeErrors ==> after[i].1.deletedAt == now)
      && (before[i].0 in removeErrors ==> after[i] == before[i])
  }

  lemma {:induction false} ReconcileUnclaimed(log: Log, saves: seq<Save>, removeErrors: set<string>, now: string)
    requires DistinctKeys(log)
    ensures TombstonedUnclaimed(log, Reconcile(log, saves, removeErrors, now), Claimed(saves), removeErrors, now)
  {
    RecordAllUntouched(log, saves, now);
    assert SavedPaths(saves) <= Claimed(saves);
  }

  /** An old entry claimed only by nodes whose save failed is left exactly
      as it was: neither refreshed nor tombstoned. */
  lemma {:induction false} ReconcileFailedSave(log: Log, saves: seq<Save>, removeErrors: set<string>, now: string)
    requires DistinctKeys(log)
    ensures Untouched(log, Reconcile(log, saves, removeErrors, now), SavedPaths(saves) + (Keys(log) - Claimed(saves)))
  {
    RecordAllUntouched(log, saves, now);
  }

  /** The JSON of the last successful save of `k` in the loop, if any. */
  function LastSaved(saves: seq<Save>, k: string): Option<string>
    decreases |saves|
  {
    if |saves| == 0 then None
    else match LastSaved(saves[1..], k)
      case Some(json) => Some(json)
      case None => if saves[0].0 == k && saves[0].1.Saved? then Some(saves[0].1.json) else None
  }

  /** A name has a last successful save exactly when some save of it
      succeeded. */
  lemma {:induction false} LastSavedIn(saves: seq<Save>, k: string)
    ensures LastSaved(saves, k).Some? <==> k in SavedPaths(saves)
    decreases |saves|
  {
    if |saves| > 0 {
      SavesCons(saves);
      LastSavedIn(saves[1..], k);
    }
  }

  /** The last successful save is one of the loop's saves of `k`, and no
      later save of `k` succeeded. */
  lemma {:induction false} LastSavedIsLast(saves: seq<Save>, k: string)
    ensures var r := LastSaved(saves, k);
      r.Some? ==> exists i :: (0 <= i < |saves| && saves[i] == (k, Saved(r.value))
        && forall j :: i < j < |saves| ==> saves[j].0 != k || saves[j].1.NotSaved?)
    decreases |saves|
  {
    if |saves| > 0 {
      var rest := saves[1..];
      LastSavedIsLast(rest, k);
      if LastSaved(rest, k).Some? {
        var i :| 0 <= i < |rest| && rest[i] == (k, Saved(LastSaved(rest, k).value))
          && forall j :: i < j < |rest| ==> rest[j].0 != k || rest[j].1.NotSaved?;
        assert saves[i + 1] == rest[i];
        forall j | i + 1 < j < |saves| ensures saves[j].0 != k || saves[j].1.NotSaved? {
          assert saves[j] == rest[j - 1];
        }
      } else if saves[0].0 == k && saves[0].1.Saved? {
        LastSavedIn(rest, k);
        forall j | 0 < j < |saves| ensures saves[j].0 != k || saves[j].1.NotSaved? {
          assert saves[j] == rest[j - 1];
          assert rest[j - 1].1.Saved? ==> rest[j - 1].0 in SavedPaths(rest);
        }
      }
    }
  }

  /** Every entry of `k` holds `content`. */
  predicate HoldsContent(after: Log, k: string, content: string) {
    forall j :: 0 <= j < |after| && after[j].0 == k ==> after[j].1.content == content
  }

  /** After the node loop, every entry of a name saved in it holds the
      sanitised JSON of that name's last successful save. */
  lemma {:induction false} RecordAllContent(log: Log, saves: seq<Save>, now: string, k: string)
    requires DistinctKeys(log) && LastSaved(saves, k).Some?
    ensures HoldsContent(RecordAll(log, saves, now), k, SanitizeContent(LastSaved(saves, k).value))
    decreases |saves|
  {
    var next := RecordSave(log, saves[0].0, saves[0].1, now);
    var rest := saves[1..];
    var r := RecordAll(log, saves, now);
    assert r == RecordAll(next, rest, now);
    if LastSaved(rest, k).Some? {
      RecordAllContent(next, rest, now, k);
    } else {
      LastSavedIn(rest, k);
      RecordAllUntouched(next, rest, now);
      RecordAllKeys(next, rest, now);
      forall j | 0 <= j < |r| && r[j].0 == k
        ensures r[j].1.content == SanitizeContent(saves[0].1.json)
      {
        assert j < |next|;
        assert next[j].0 == k && r[j] == next[j];
      }
    }
  }

  /** Every name saved successfully in the loop ends up with the sanitised
      JSON of its last successful save as its content. */
  lemma {:induction false} ReconcileContent(log: Log, saves: seq<Save>, removeErrors: set<string>, now: string, k: string)
    requires DistinctKeys(log) && k in SavedPaths(saves)
    ensures LastSaved(saves, k).Some?
    ensures HoldsContent(Reconcile(log, saves, removeErrors, now), k, SanitizeContent(LastSaved(saves, k).value))
  {
    LastSavedIn(saves, k);
    RecordAllContent(log, saves, now, k);
    var saved := RecordAll(log, saves, now);
    var r := Reconcile(log, saves, removeErrors, now);
    assert r == Tombstone(saved, Claimed(saves), removeErrors, now);
    forall j | 0 <= j < |r| && r[j].0 == k
      ensures r[j].1.content == SanitizeContent(LastSaved(saves, k).value)
    {
      assert saved[j].0 == k;
    }
  }
}
