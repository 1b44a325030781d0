/** The subset of Python's `str` behaviour the annotation scripts rely on:
    `strip`, `startswith`, `in`, `replace`, `split` (with and without a
    split limit), `",".join`, `readlines`, `isdigit` and `int(...)`.
    Every function mirrors the CPython semantics for the inputs the scripts
    give it; the simplifications are stated where they are made. */
module PyText {

  datatype Option<T> = None | Some(value: T)

  // ---------------------------------------------------------------------
  // Whitespace and strip
  // ---------------------------------------------------------------------

  /** Characters `str.isspace()` accepts, which `strip()` removes: the
      ASCII and Latin-1 whitespace, the Unicode space separators, and the
      line and paragraph separators. */
  predicate IsSpace(c: char) {
    c == ' ' || c == '\t' || c == '\n' || c == '\r' || c == '\U{B}' || c == '\U{C}'
    || c == '\U{1C}' || c == '\U{1D}' || c == '\U{1E}' || c == '\U{1F}'
    || c == '\U{85}' || c == '\U{A0}' || c == '\U{1680}'
    || ('\U{2000}' <= c <= '\U{200A}')
    || c == '\U{2028}' || c == '\U{2029}' || c == '\U{202F}' || c == '\U{205F}' || c == '\U{3000}'
  }

  function LStrip(s: string): (r: string)
    ensures |r| <= |s|
    ensures |r| == 0 || !IsSpace(r[0])
    ensures r == s[|s| - |r|..]
    ensures forall i :: 0 <= i < |s| - |r| ==> IsSpace(s[i])
  {
    if |s| > 0 && IsSpace(s[0]) then LStrip(s[1..]) else s
  }

  function RStrip(s: string): (r: string)
    ensures |r| <= |s|
    ensures |r| == 0 || !IsSpace(r[|r| - 1])
    ensures r == s[..|r|]
    ensures forall i :: |r| <= i < |s| ==> IsSpace(s[i])
  {
    if |s| > 0 && IsSpace(s[|s| - 1]) then RStrip(s[..|s| - 1]) else s
  }

  /** `s.strip()`: drops whitespace from both ends, so the result neither
      starts nor ends with whitespace, and a string that already does
      neither is returned unchanged. */
  function Strip(s: string): (r: string)
    ensures |r| <= |s|
    ensures |r| == 0 || (!IsSpace(r[0]) && !IsSpace(r[|r| - 1]))
    ensures (|s| == 0 || (!IsSpace(s[0]) && !IsSpace(s[|s| - 1]))) ==> r == s
  {
    RStrip(LStrip(s))
  }

  /** Stripping keeps a slice of the string, so it adds no character. */
  lemma {:induction false} StripWithin(s: string)
    ensures forall x :: x in Strip(s) ==> x in s
  {
    var l := LStrip(s);
    var r := RStrip(l);
    forall x | x in r ensures x in s {
      var i :| 0 <= i < |r| && r[i] == x;
      assert r[i] == l[i];
      assert l[i] == s[|s| - |l| + i];
    }
  }

  /** Stripping a line whose only trailing whitespace is its terminator
      gives the line without the terminator. */
  lemma {:induction false} StripLine(s: string)
    requires |s| > 0 && !IsSpace(s[0]) && !IsSpace(s[|s| - 1])
    ensures Strip(s + "\n") == s
  {
    var t := s + "\n";
    assert t[|t| - 1] == '\n';
    assert t[..|t| - 1] == s;
    assert LStrip(t) == t;
    assert RStrip(t) == RStrip(s);
  }

  // ---------------------------------------------------------------------
  // Prefixes and substrings
  // ---------------------------------------------------------------------

  /** `s.startswith(p)` */
  predicate StartsWith(s: string, p: string) {
    |p| <= |s| && s[..|p|] == p
  }

  /** `s.endswith(p)` */
  predicate EndsWith(s: string, p: string) {
    |p| <= |s| && s[|s| - |p|..] == p
  }

  /** `p in s`: `p` occurs somewhere in `s` (the empty string occurs everywhere). */
  predicate HasSub(s: string, p: string)
    decreases |s|
  {
    if |p| == 0 then true
    else if |s| < |p| then false
    else s[..|p|] == p || HasSub(s[1..], p)
  }

  lemma {:induction false} HasSubAt(s: string, p: string, i: nat)
    requires i + |p| <= |s| && s[i..i + |p|] == p
    ensures HasSub(s, p)
    decreases i
  {
    if |p| > 0 && i > 0 {
      assert s[1..][i - 1..i - 1 + |p|] == s[i..i + |p|];
      HasSubAt(s[1..], p, i - 1);
    }
  }

  /** A one-character pattern occurs iff the character does. */
  lemma {:induction false} HasSubChar(s: string, c: char)
    ensures HasSub(s, [c]) <==> c in s
    decreases |s|
  {
    if |s| > 0 {
      HasSubChar(s[1..], c);
      assert s == [s[0]] + s[1..];
    }
  }

  // ---------------------------------------------------------------------
  // str.replace
  // ---------------------------------------------------------------------

  /** `s.replace(p, q)`: scan from the left, replacing each occurrence of
      `p` that does not overlap an earlier replaced one. Every call site in
      the scripts uses a non-empty literal pattern. */
  function Replace(s: string, p: string, q: string): (r: string)
    requires |p| > 0
    decreases |s|
  {
    if |s| < |p| then s
    else if s[..|p|] == p then q + Replace(s[|p|..], p, q)
    else [s[0]] + Replace(s[1..], p, q)
  }

  /** A string without the pattern is returned unchanged. */
  lemma {:induction false} ReplaceAbsent(s: string, p: string, q: string)
    requires |p| > 0
    ensures !HasSub(s, p) ==> Replace(s, p, q) == s
    decreases |s|
  {
    if |s| >= |p| && !HasSub(s, p) {
      ReplaceAbsent(s[1..], p, q);
      assert s == [s[0]] + s[1..];
    }
  }

  /** Replacement splits over a concatenation when no occurrence of the
      pattern can straddle the seam, because the right part starts with a
      character the pattern does not contain. */
  lemma {:induction false} ReplaceConcat(a: string, b: string, p: string, q: string)
    requires |p| > 0 && |b| > 0 && b[0] !in p
    ensures Replace(a + b, p, q) == Replace(a, p, q) + Replace(b, p, q)
    decreases |a|
  {
    if |a| == 0 {
      assert a + b == b;
    } else if |a + b| < |p| {
      assert Replace(a + b, p, q) == a + b;
    } else if |a| >= |p| && (a + b)[..|p|] == p {
      ReplaceConcatMatch(a, b, p, q);
    } else if |a| >= |p| {
      ReplaceConcatStep(a, b, p, q);
    } else {
      ReplaceConcatShort(a, b, p, q);
    }
  }

  /** The case of `ReplaceConcat` where the pattern matches at the front. */
  lemma {:induction false} ReplaceConcatMatch(a: string, b: string, p: string, q: string)
    requires |p| > 0 && |b| > 0 && b[0] !in p && |a| > 0
    requires |a| >= |p| && (a + b)[..|p|] == p
    ensures Replace(a + b, p, q) == Replace(a, p, q) + Replace(b, p, q)
    decreases |a|, 0
  {
    var ab := a + b;
    assert a[..|p|] == p;
    assert ab[|p|..] == a[|p|..] + b;
    ReplaceConcat(a[|p|..], b, p, q);
  }

  /** The case of `ReplaceConcat` where the scan moves one character on
      inside a left part long enough to hold the pattern. */
  lemma {:induction false} ReplaceConcatStep(a: string, b: string, p: string, q: string)
    requires |p| > 0 && |b| > 0 && b[0] !in p
    requires |a| >= |p| && a[..|p|] != p
    ensures Replace(a + b, p, q) == Replace(a, p, q) + Replace(b, p, q)
    decreases |a|, 0
  {
    ReplaceNoMatchConcat(a, b, p, q);
    ReplaceNoMatch(a, p, q);
    ReplaceConcat(a[1..], b, p, q);
    ConsAssoc(a[0], Replace(a[1..], p, q), Replace(b, p, q));
  }

  /** Moving the head of a non-empty right part across a concatenation. */
  lemma {:induction false} ConcatHead<T>(a: seq<T>, xs: seq<T>)
    requires |xs| > 0
    ensures (a + xs)[|a|] == xs[0] && (a + [xs[0]]) + xs[1..] == a + xs
  {
  }

  lemma {:induction false} ConsAssoc<T>(h: T, x: seq<T>, y: seq<T>)
    ensures [h] + (x + y) == ([h] + x) + y
  {
  }

  /** A left part that does not start with the pattern makes the scan
      copy its first character. */
  lemma {:induction false} ReplaceNoMatchConcat(a: string, b: string, p: string, q: string)
    requires |p| > 0 && |a| >= |p| && a[..|p|] != p
    ensures Replace(a + b, p, q) == [a[0]] + Replace(a[1..] + b, p, q)
  {
    var ab := a + b;
    assert ab[..|p|] == a[..|p|];
    assert ab[1..] == a[1..] + b;
    ReplaceNoMatch(ab, p, q);
  }

  /** Where the pattern does not match at the front, the scan copies one
      character and moves on. */
  lemma {:induction false} ReplaceNoMatch(s: string, p: string, q: string)
    requires |p| > 0 && |s| >= |p| && s[..|p|] != p
    ensures Replace(s, p, q) == [s[0]] + Replace(s[1..], p, q)
  {
  }

  /** The case of `ReplaceConcat` where the left part is shorter than the
      pattern, so every window reaching into it also covers `b[0]`. */
  lemma {:induction false} ReplaceConcatShort(a: string, b: string, p: string, q: string)
    requires |p| > 0 && |b| > 0 && b[0] !in p
    requires 0 < |a| < |p| <= |a + b|
    ensures Replace(a + b, p, q) == Replace(a, p, q) + Replace(b, p, q)
    decreases |a|, 0
  {
    var ab := a + b;
    assert ab[..|p|][|a|] == b[0];
    assert ab[..|p|] != p;
    assert ab[1..] == a[1..] + b;
    assert Replace(ab, p, q) == [a[0]] + Replace(a[1..] + b, p, q);
    ReplaceConcat(a[1..], b, p, q);
    assert Replace(a, p, q) == a;
    assert Replace(a[1..], p, q) == a[1..];
    assert a == [a[0]] + a[1..];
  }

  /** A left part that never contains the pattern's first character is
      copied verbatim. */
  lemma {:induction false} ReplaceSkip(a: string, b: string, p: string, q: string)
    requires |p| > 0 && p[0] !in a
    ensures Replace(a + b, p, q) == a + Replace(b, p, q)
    decreases |a|
  {
    var ab := a + b;
    if |a| > 0 {
      if |ab| < |p| {
        assert Replace(b, p, q) == b;
      } else {
        assert ab[..|p|][0] == a[0];
        assert ab[1..] == a[1..] + b;
        ReplaceSkip(a[1..], b, p, q);
      }
    } else {
      assert ab == b;
    }
  }

  /** Replacing a one-character pattern substitutes every occurrence. */
  function SubstChar(s: string, c: char, q: string): (r: string)
    ensures c !in q ==> c !in r
    ensures forall x :: x in r ==> x in s || x in q
    ensures c !in s ==> r == s
  {
    if |s| == 0 then ""
    else (if s[0] == c then q else [s[0]]) + SubstChar(s[1..], c, q)
  }

  lemma {:induction false} ReplaceChar(s: string, c: char, q: string)
    ensures Replace(s, [c], q) == SubstChar(s, c, q)
    decreases |s|
  {
    if |s| > 0 {
      ReplaceChar(s[1..], c, q);
      assert s[..1] == [s[0]];
      assert s[1..] == s[|[c]|..];
    }
  }

  /** Substituting a single character maps the string character by character. */
  lemma {:induction false} SubstCharSingle(s: string, c: char, d: char)
    ensures |SubstChar(s, c, [d])| == |s|
    ensures forall i :: 0 <= i < |s| ==> SubstChar(s, c, [d])[i] == (if s[i] == c then d else s[i])
    decreases |s|
  {
    if |s| > 0 {
      SubstCharSingle(s[1..], c, d);
      var r := SubstChar(s, c, [d]);
      assert r == [if s[0] == c then d else s[0]] + SubstChar(s[1..], c, [d]);
      forall i | 0 <= i < |s| ensures r[i] == (if s[i] == c then d else s[i]) {
        if i > 0 { assert s[i] == s[1..][i - 1]; }
      }
    }
  }

  // ---------------------------------------------------------------------
  // split / join
  // ---------------------------------------------------------------------

  /** `s.split(sep)` for a one-character separator: the maximal
      separator-free pieces, so there is always one more piece than there
      are separators. */
  function Split(s: string, sep: char): (parts: seq<string>)
    ensures |parts| >= 1
    ensures forall i :: 0 <= i < |parts| ==> sep !in parts[i]
    decreases |s|
  {
    if |s| == 0 then [""]
    else
      var rest := Split(s[1..], sep);
      if s[0] == sep then [""] + rest
      else [[s[0]] + rest[0]] + rest[1..]
  }

  /** `sep.join(parts)` */
  function Join(parts: seq<string>, sep: char): (s: string)
    decreases |parts|
  {
    if |parts| == 0 then ""
    else if |parts| == 1 then parts[0]
    else parts[0] + [sep] + Join(parts[1..], sep)
  }

  lemma {:induction false} JoinSplit(s: string, sep: char)
    ensures Join(Split(s, sep), sep) == s
    decreases |s|
  {
    if |s| > 0 {
      JoinSplit(s[1..], sep);
      var rest := Split(s[1..], sep);
      if s[0] == sep {
        assert s == [sep] + s[1..];
      } else {
        assert s == [s[0]] + s[1..];
        if |rest| > 1 {
          assert ([[s[0]] + rest[0]] + rest[1..])[1..] == rest[1..];
        }
      }
    }
  }

  lemma {:induction false} SplitSingle(s: string, sep: char)
    requires sep !in s
    ensures Split(s, sep) == [s]
    decreases |s|
  {
    if |s| > 0 {
      SplitSingle(s[1..], sep);
      assert s == [s[0]] + s[1..];
    }
  }

  /** Splitting at a separator concatenates the pieces of both sides. */
  lemma {:induction false} SplitAt(a: string, b: string, sep: char)
    ensures Split(a + [sep] + b, sep) == Split(a, sep) + Split(b, sep)
    decreases |a|
  {
    var s := a + [sep] + b;
    if |a| == 0 {
      assert s[1..] == b;
    } else {
      assert s[1..] == a[1..] + [sep] + b;
      SplitAt(a[1..], b, sep);
    }
  }

  /** Splitting the join of separator-free pieces gives the pieces back. */
  lemma {:induction false} SplitJoin(parts: seq<string>, sep: char)
    requires |parts| >= 1
    requires forall i :: 0 <= i < |parts| ==> sep !in parts[i]
    ensures Split(Join(parts, sep), sep) == parts
    decreases |parts|
  {
    if |parts| == 1 {
      SplitSingle(parts[0], sep);
    } else {
      SplitJoin(parts[1..], sep);
      SplitSingle(parts[0], sep);
      SplitAt(parts[0], Join(parts[1..], sep), sep);
      assert parts == [parts[0]] + parts[1..];
    }
  }

  /** Position of the first occurrence of `c` in `s`. */
  function IndexOf(s: string, c: char): (i: nat)
    requires c in s
    ensures i < |s| && s[i] == c && c !in s[..i]
  {
    if s[0] == c then 0
    else
      var j := IndexOf(s[1..], c);
      assert s[..j + 1] == [s[0]] + s[1..][..j];
      j + 1
  }

  lemma {:induction false} IndexOfConcat(a: string, b: string, c: char)
    requires c !in a
    ensures c in a + [c] + b && IndexOf(a + [c] + b, c) == |a|
  {
    var s := a + [c] + b;
    assert s[|a|] == c;
    assert s[..|a|] == a;
  }

  /** `s.split(sep, n)`: at most `n` splits, the remainder kept whole. */
  function SplitN(s: string, sep: char, n: nat): (parts: seq<string>)
    ensures 1 <= |parts| <= n + 1
    ensures Join(parts, sep) == s
    ensures forall i :: 0 <= i < |parts| - 1 ==> sep !in parts[i]
    decreases n
  {
    if n == 0 || sep !in s then [s]
    else
      var i := IndexOf(s, sep);
      var rest := SplitN(s[i + 1..], sep, n - 1);
      assert s == s[..i] + [sep] + s[i + 1..];
      JoinCons(s[..i], rest, sep);
      assert forall j :: 1 <= j < |rest| + 1 ==> ([s[..i]] + rest)[j] == rest[j - 1];
      [s[..i]] + rest
  }

  /** A separator at `p` splits the string at its first separator, which
      lies at `p` or earlier. */
  lemma {:induction false} FirstSeparator(s: string, sep: char, p: nat)
      returns (head: string, tail: string)
    requires p < |s| && s[p] == sep
    ensures sep !in head && |head| <= p
    ensures s == head + [sep] + tail && tail == s[|head| + 1..]
  {
    assert sep in s;
    var x := IndexOf(s, sep);
    head, tail := s[..x], s[x + 1..];
    assert s == head + [sep] + tail;
  }

  /** A string with three separators is three separator-free fields, each
      followed by a separator, and the rest. */
  lemma {:induction false} ThreeSeparators(s: string, sep: char, i: nat, j: nat, k: nat)
      returns (a: string, b: string, c: string, d: string)
    requires i < j < k < |s| && s[i] == sep && s[j] == sep && s[k] == sep
    ensures sep !in a && sep !in b && sep !in c
    ensures s == a + [sep] + (b + [sep] + (c + [sep] + d))
  {
    var t, u;
    a, t := FirstSeparator(s, sep, i);
    assert t[j - |a| - 1] == s[j];
    b, u := FirstSeparator(t, sep, j - |a| - 1);
    assert u[k - |a| - |b| - 2] == s[k];
    c, d := FirstSeparator(u, sep, k - |a| - |b| - 2);
  }

  /** With three separators in the string, `split(sep, 3)` makes all three
      cuts. */
  lemma {:induction false} SplitNThreeCuts(s: string, sep: char, i: nat, j: nat, k: nat)
    requires i < j < k < |s| && s[i] == sep && s[j] == sep && s[k] == sep
    ensures |SplitN(s, sep, 3)| == 4
  {
    var a, b, c, d := ThreeSeparators(s, sep, i, j, k);
    SplitN3(a, b, c, d, sep);
  }

  /** Splitting `a + sep + b` once more after a separator-free head. */
  lemma {:induction false} SplitNCons(a: string, b: string, sep: char, n: nat)
    requires n > 0 && sep !in a
    ensures SplitN(a + [sep] + b, sep, n) == [a] + SplitN(b, sep, n - 1)
  {
    var s := a + [sep] + b;
    IndexOfConcat(a, b, sep);
    assert s[..|a|] == a;
    assert s[|a| + 1..] == b;
  }

  /** Joining a piece in front of a non-empty list of pieces. */
  lemma {:induction false} JoinCons(a: string, rest: seq<string>, sep: char)
    requires |rest| > 0
    ensures Join([a] + rest, sep) == a + [sep] + Join(rest, sep)
  {
    assert ([a] + rest)[1..] == rest;
  }

  /** Joining four fields puts a separator after each of the first three. */
  lemma {:induction false} JoinFourSeparators(a: string, b: string, c: string, d: string, sep: char)
    ensures Join([a, b, c, d], sep) == a + [sep] + (b + [sep] + (c + [sep] + d))
    ensures var s := Join([a, b, c, d], sep);
      && |a| + |b| + |c| + 2 < |s|
      && s[|a|] == sep && s[|a| + |b| + 1] == sep && s[|a| + |b| + |c| + 2] == sep
  {
    assert [a, b, c, d] == [a] + [b, c, d];
    assert [b, c, d] == [b] + [c, d];
    assert [c, d] == [c] + [d];
    JoinCons(a, [b, c, d], sep);
    JoinCons(b, [c, d], sep);
    JoinCons(c, [d], sep);
  }

  /** Three separators after separator-free fields split into four. */
  lemma {:induction false} SplitN3(a: string, b: string, c: string, d: string, sep: char)
    requires sep !in a && sep !in b && sep !in c
    ensures SplitN(a + [sep] + (b + [sep] + (c + [sep] + d)), sep, 3) == [a, b, c, d]
  {
    var r2 := c + [sep] + d;
    var r1 := b + [sep] + r2;
    SplitNCons(c, d, sep, 1);
    SplitNCons(b, r2, sep, 2);
    SplitNCons(a, r1, sep, 3);
    assert SplitN(d, sep, 0) == [d];
    Cons4(a, b, c, d);
  }

  lemma {:induction false} Cons4<T>(a: T, b: T, c: T, d: T)
    ensures [a] + ([b] + ([c] + [d])) == [a, b, c, d]
  {
  }

  // ---------------------------------------------------------------------
  // readlines
  // ---------------------------------------------------------------------

  /** A line terminator under Python's universal newlines. */
  predicate IsLineEnd(c: char) {
    c == '\n' || c == '\r'
  }

  /** Position of the first line terminator in `s`, or `|s|` when there is
      none. */
  function LineBreak(s: string): (i: nat)
    ensures i <= |s|
    ensures forall j :: 0 <= j < i ==> !IsLineEnd(s[j])
    ensures i < |s| ==> IsLineEnd(s[i])
    decreases |s|
  {
    if |s| == 0 || IsLineEnd(s[0]) then 0 else LineBreak(s[1..]) + 1
  }

  /** `f.readlines()` on a file opened in text mode: a line ends at `\n`,
      at `\r\n` or at a lone `\r`, and each terminator is handed back as
      `\n`; a final piece without a terminator is kept when non-empty. */
  function ReadLines(text: string): (lines: seq<string>)
    ensures forall i :: 0 <= i < |lines| ==> |lines[i]| > 0
    decreases |text|
  {
    if |text| == 0 then []
    else
      var i := LineBreak(text);
      if i == |text| then [text]
      else
        var next := if text[i] == '\r' && i + 1 < |text| && text[i + 1] == '\n' then i + 2 else i + 1;
        [text[..i] + "\n"] + ReadLines(text[next..])
  }

  /** The first terminator of `a + [c] + b` is the `c` after `a`. */
  lemma {:induction false} LineBreakConcat(a: string, c: char, b: string)
    requires IsLineEnd(c) && '\n' !in a && '\r' !in a
    ensures LineBreak(a + [c] + b) == |a|
    decreases |a|
  {
    var s := a + [c] + b;
    if |a| > 0 {
      assert s[1..] == a[1..] + [c] + b;
      LineBreakConcat(a[1..], c, b);
    }
  }

  lemma {:induction false} ReadLinesCons(a: string, b: string)
    requires '\n' !in a && '\r' !in a
    ensures ReadLines(a + "\n" + b) == [a + "\n"] + ReadLines(b)
  {
    var t := a + "\n" + b;
    LineBreakConcat(a, '\n', b);
    assert t[..|a|] == a;
    assert t[|a| + 1..] == b;
  }

  /** A lone `\r` ends a line too, so text holding one reads back as two
      lines. */
  lemma {:induction false} ReadLinesCarriageReturn(a: string, b: string)
    requires '\n' !in a && '\r' !in a && |b| > 0 && b[0] != '\n'
    ensures ReadLines(a + "\r" + b) == [a + "\n"] + ReadLines(b)
  {
    var t := a + "\r" + b;
    LineBreakConcat(a, '\r', b);
    assert t[|a|] == '\r' && t[|a| + 1] == b[0];
    assert t[..|a|] == a;
    assert t[|a| + 1..] == b;
  }

  // ---------------------------------------------------------------------
  // Digits and int()
  // ---------------------------------------------------------------------

  predicate IsAsciiDigit(c: char) {
    '0' <= c <= '9'
  }

  /** `s.isdigit()`, for ASCII digits: non-empty and all digits. */
  predicate IsDigits(s: string) {
    |s| > 0 && forall i :: 0 <= i < |s| ==> IsAsciiDigit(s[i])
  }

  function DigitValue(c: char): (d: nat)
    requires IsAsciiDigit(c)
    ensures d < 10
  {
    (c as int) - ('0' as int)
  }

  /** Decimal value of a digit string. */
  function DigitsValue(s: string): (v: nat)
    requires forall i :: 0 <= i < |s| ==> IsAsciiDigit(s[i])
    decreases |s|
  {
    if |s| == 0 then 0
    else DigitsValue(s[..|s| - 1]) * 10 + DigitValue(s[|s| - 1])
  }

  /** `int(s)` on a `str`: an optional sign and at least one ASCII digit;
      anything else is the `ValueError` case, `None` here. */
  function ParseInt(s: string): (r: Option<int>)
    ensures r.Some? <==> (IsDigits(s) || (|s| > 1 && (s[0] == '+' || s[0] == '-') && IsDigits(s[1..])))
    ensures IsDigits(s) ==> r == Some(DigitsValue(s))
  {
    if IsDigits(s) then Some(DigitsValue(s))
    else if |s| > 1 && s[0] == '+' && IsDigits(s[1..]) then Some(DigitsValue(s[1..]))
    else if |s| > 1 && s[0] == '-' && IsDigits(s[1..]) then Some(0 - DigitsValue(s[1..]))
    else None
  }

  function DigitChar(d: nat): (c: char)
    requires d < 10
    ensures IsAsciiDigit(c) && DigitValue(c) == d
  {
    (('0' as int) + d) as char
  }

  /** `str(n)` for a natural number. */
  function NatToString(n: nat): (s: string)
    ensures IsDigits(s)
    decreases n
  {
    if n < 10 then [DigitChar(n)]
    else NatToString(n / 10) + [DigitChar(n % 10)]
  }

  /** `int(str(n)) == n`. */
  lemma {:induction false} ParseNatToString(n: nat)
    ensures ParseInt(NatToString(n)) == Some(n)
    ensures DigitsValue(NatToString(n)) == n
    decreases n
  {
    var s := NatToString(n);
    if n < 10 {
      assert s[..0] == "";
      assert DigitsValue(s) == n;
    } else {
      ParseNatToString(n / 10);
      assert s[..|s| - 1] == NatToString(n / 10);
    }
  }
}
