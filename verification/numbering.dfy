/** Numbering of new markup files, shared by the macOS CSV and macOS XLSX
    workflows: the trailing number of a log key is the integer after its
    last underscore once every `.json` is removed, and a new file is named
    `<base>_<max + 1>.json` from the largest such number. */
module Numbering {
  import opened PyText

  const JsonSuffix: string := ".json"

  /** `int(key.replace(".json", "").split("_")[-1])`, `None` for the
      `ValueError` case. */
  function TrailingNumber(key: string): Option<int> {
    var parts := Split(Replace(key, JsonSuffix, ""), '_');
    ParseInt(parts[|parts| - 1])
  }

  /** Every parseable trailing number among `keys` is at most `m`. */
  predicate Bounded(keys: seq<string>, m: int) {
    forall i :: 0 <= i < |keys| && TrailingNumber(keys[i]).Some? ==> TrailingNumber(keys[i]).value <= m
  }

  /** The `max_number` loop over already parsed numbers: starts at 0,
      skips the unparseable ones, and keeps the largest seen. */
  function MaxOf(ns: seq<Option<int>>): (m: nat)
    ensures forall i :: 0 <= i < |ns| && ns[i].Some? ==> ns[i].value <= m
    ensures m == 0 || exists i :: 0 <= i < |ns| && ns[i] == Some(m)
    decreases |ns|
  {
    if |ns| == 0 then 0
    else
      var front := ns[..|ns| - 1];
      var m := MaxOf(front);
      var t := ns[|ns| - 1];
      assert forall i :: 0 <= i < |front| ==> front[i] == ns[i];
      if t.Some? && t.value > m then t.value else m
  }

  /** The `max_number` loop over the log keys: the largest parseable
      trailing number, or 0. */
  function MaxNumber(keys: seq<string>): (m: nat)
    ensures Bounded(keys, m)
    ensures m == 0 || exists i :: 0 <= i < |keys| && TrailingNumber(keys[i]) == Some(m)
  {
    var ns := seq(|keys|, i requires 0 <= i < |keys| => TrailingNumber(keys[i]));
    assert forall i :: 0 <= i < |keys| ==> ns[i] == TrailingNumber(keys[i]);
    MaxOf(ns)
  }

  /** `f"{base}_{number}.json"` */
  function FreshName(base: string, number: nat): (name: string)
    ensures EndsWith(name, JsonSuffix)
  {
    base + "_" + NatToString(number) + JsonSuffix
  }

  /** Removing a pattern from the end of a string that holds no copy of
      its first character leaves the string. */
  lemma {:induction false} ReplaceTrailing(a: string, p: string)
    requires |p| > 0 && p[0] !in a
    ensures Replace(a + p, p, "") == a
  {
    ReplaceSkip(a, p, p, "");
    assert p[..|p|] == p && p[|p|..] == "";
    assert Replace(p, p, "") == "";
  }

  /** The digits of a number hold neither `.` nor `_`. */
  lemma {:induction false} DigitsPlain(number: nat)
    ensures '.' !in NatToString(number) && '_' !in NatToString(number)
  {
    var digits := NatToString(number);
    assert forall i :: 0 <= i < |digits| ==> IsAsciiDigit(digits[i]);
  }

  /** Removing `.json` from a fresh name leaves the base's own removal,
      the underscore and the digits: the removal cannot reach across the
      underscore, and the digits hold no `.`. */
  lemma {:induction false} FreshNameStem(base: string, number: nat)
    ensures Replace(FreshName(base, number), JsonSuffix, "")
      == Replace(base, JsonSuffix, "") + "_" + NatToString(number)
  {
    var head := "_" + NatToString(number);
    var tail := head + JsonSuffix;
    assert FreshName(base, number) == base + tail;
    DigitsPlain(number);
    assert JsonSuffix[0] !in head;
    ReplaceTrailing(head, JsonSuffix);
    assert tail[0] == '_';
    ReplaceConcat(base, tail, JsonSuffix, "");
  }

  /** The trailing number of a fresh name is the number it was built from,
      whatever the base. */
  lemma {:induction false} FreshNameNumber(base: string, number: nat)
    ensures TrailingNumber(FreshName(base, number)) == Some(number)
  {
    var digits := NatToString(number);
    var stem := Replace(base, JsonSuffix, "");
    FreshNameStem(base, number);
    DigitsPlain(number);
    SplitAt(stem, digits, '_');
    SplitSingle(digits, '_');
    ParseNatToString(number);
  }

  /** A fresh name numbered above every parseable trailing number among
      `keys` is none of them. */
  lemma {:induction false} FreshNameIsNew(base: string, number: nat, keys: seq<string>)
    requires Bounded(keys, number - 1)
    ensures FreshName(base, number) !in keys
  {
    FreshNameNumber(base, number);
  }

  /** In particular, one above `MaxNumber(keys)` is new. */
  lemma {:induction false} FreshAboveMaxIsNew(base: string, keys: seq<string>)
    ensures FreshName(base, MaxNumber(keys) + 1) !in keys
  {
    FreshNameIsNew(base, MaxNumber(keys) + 1, keys);
  }

  /** The file name chosen for a node: an existing key, or a fresh name and
      the number it carries. */
  datatype Choice = Reused(name: string) | Fresh(name: string, number: nat)

  /** A fresh choice is not among `keys`, carries its number, and that
      number lies in `lo + 1 .. hi`. */
  predicate FreshWithin(c: Choice, keys: set<string>, lo: nat, hi: nat) {
    c.Fresh? ==> c.name !in keys && TrailingNumber(c.name) == Some(c.number) && lo < c.number <= hi
  }

  /** A choice followed by choices that are fresh above its maximum: the
      inductive step of the naming loops. */
  lemma {:induction false} FreshWithinCons(c: Choice, rest: seq<Choice>, keys0: set<string>, keys1: set<string>, lo: nat, mid: nat, hi: nat)
    requires keys0 <= keys1 && lo <= mid <= hi
    requires FreshWithin(c, keys0, lo, mid)
    requires forall i :: 0 <= i < |rest| ==> FreshWithin(rest[i], keys1, mid, hi)
    ensures forall i :: 0 <= i < |[c] + rest| ==> FreshWithin(([c] + rest)[i], keys0, lo, hi)
  {
    forall i | 0 <= i < |[c] + rest| ensures FreshWithin(([c] + rest)[i], keys0, lo, hi) {
      if i > 0 { assert ([c] + rest)[i] == rest[i - 1]; }
    }
  }

  /** Fresh numbers strictly increase in scene order. */
  predicate Increasing(cs: seq<Choice>) {
    forall i, j :: 0 <= i < j < |cs| && cs[i].Fresh? && cs[j].Fresh? ==> cs[i].number < cs[j].number
  }

  /** Prepending a choice numbered at most `mid` to increasing choices
      numbered above `mid` keeps them increasing. */
  lemma {:induction false} IncreasingCons(c: Choice, rest: seq<Choice>, keys: set<string>, mid: nat, hi: nat)
    requires c.Fresh? ==> c.number <= mid
    requires forall i :: 0 <= i < |rest| ==> FreshWithin(rest[i], keys, mid, hi)
    requires Increasing(rest)
    ensures Increasing([c] + rest)
  {
    var cs := [c] + rest;
    forall i, j | 0 <= i < j < |cs| && cs[i].Fresh? && cs[j].Fresh? ensures cs[i].number < cs[j].number {
      assert cs[j] == rest[j - 1];
      assert FreshWithin(rest[j - 1], keys, mid, hi);
      if i > 0 { assert cs[i] == rest[i - 1]; }
    }
  }
}
