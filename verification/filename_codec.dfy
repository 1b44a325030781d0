/** The filename sanitiser of the macOS CSV workflow: `encode_filename`
    replaces each character that is unsafe in a file name or a CSV field by
    a three-character code `_X_`, and `decode_filename` replaces the codes
    back. Both are written in the source as a dictionary literal whose
    entries are applied one after another with `str.replace`. */
module FilenameCodec {
  import opened PyText
  import opened Assoc

  // ---------------------------------------------------------------------
  // The tables, as the dictionary literals evaluate them
  // ---------------------------------------------------------------------

  /** The `replacements` literal of `encode_filename`, entries as written:
      the double quote appears twice, first with `_W_` and then with `_E_`. */
  const EncodeEntries: seq<(string, string)> := [
    ("/", "_S_"), ("\\", "_B_"), (":", "_C_"), ("*", "_A_"), ("?", "_Q_"),
    ("\"", "_W_"), ("<", "_L_"), (">", "_G_"), ("|", "_P_"), ("\0", "_N_"),
    (" ", "_U_"), (",", "_Z_"), ("\"", "_E_")]

  /** The `replacements` literal of `decode_filename`. */
  const DecodeEntries: seq<(string, string)> := [
    ("_S_", "/"), ("_B_", "\\"), ("_C_", ":"), ("_A_", "*"), ("_Q_", "?"),
    ("_W_", "\""), ("_L_", "<"), ("_G_", ">"), ("_P_", "|"), ("_N_", "\0"),
    ("_U_", " "), ("_Z_", ","), ("_E_", "\"")]

  const EncodeTable: Dict<string, string> := DictDisplay(EncodeEntries)
  const DecodeTable: Dict<string, string> := DictDisplay(DecodeEntries)

  /** The encoding dictionary has twelve entries, and the double quote sits
      in sixth place with the later value `_E_`. */
  lemma {:induction false} EncodeTableContents()
    ensures EncodeTable == [
      ("/", "_S_"), ("\\", "_B_"), (":", "_C_"), ("*", "_A_"), ("?", "_Q_"),
      ("\"", "_E_"), ("<", "_L_"), (">", "_G_"), ("|", "_P_"), ("\0", "_N_"),
      (" ", "_U_"), (",", "_Z_")]
  {
    var e := EncodeEntries;
    assert DictDisplay(e[..0]) == [];
    var d1 := DictDisplay(e[..1]);
    assert e[..1][..0] == e[..0];
    var d12 := DictDisplay(e[..12]);
    assert d12 == e[..12] by {
      DisplayFresh(e[..12]);
    }
    assert e[..13][..12] == e[..12];
    assert e[12].0 == d12[5].0;
    assert e[12].0 in Keys(d12);
  }

  lemma {:induction false} DecodeTableContents()
    ensures DecodeTable == DecodeEntries
  {
    DisplayFresh(DecodeEntries);
  }

  // ---------------------------------------------------------------------
  // The two functions, as the source computes them
  // ---------------------------------------------------------------------

  predicate NonEmptyPatterns(table: Dict<string, string>) {
    forall i :: 0 <= i < |table| ==> |table[i].0| > 0
  }

  /** `for old, new in table.items(): s = s.replace(old, new)` */
  function ReplaceEach(s: string, table: Dict<string, string>): (r: string)
    requires NonEmptyPatterns(table)
    ensures (forall i :: 0 <= i < |table| ==> !HasSub(s, table[i].0)) ==> r == s
    decreases |table|
  {
    if |table| == 0 then s
    else
      ReplaceAbsent(s, table[0].0, table[0].1);
      ReplaceEach(Replace(s, table[0].0, table[0].1), table[1..])
  }

  /** `encode_filename(name)` */
  function Encode(name: string): string {
    EncodeTableContents();
    ReplaceEach(name, EncodeTable)
  }

  /** `decode_filename(encoded_name)` */
  function Decode(encoded: string): string {
    DecodeTableContents();
    ReplaceEach(encoded, DecodeTable)
  }

  // ---------------------------------------------------------------------
  // Reference definition: a per-character substitution
  // ---------------------------------------------------------------------

  /** The characters the encoder removes. */
  predicate Unsafe(c: char) {
    c == '/' || c == '\\' || c == ':' || c == '*' || c == '?' || c == '"'
    || c == '<' || c == '>' || c == '|' || c == '\0' || c == ' ' || c == ','
  }

  /** The code written for one character. */
  function CodeOf(c: char): (r: string)
    ensures Unsafe(c) ==> |r| == 3 && r[0] == '_' && r[2] == '_' && 'A' <= r[1] <= 'Z'
    ensures !Unsafe(c) ==> r == [c]
  {
    match c
    case '/' => "_S_"
    case '\\' => "_B_"
    case ':' => "_C_"
    case '*' => "_A_"
    case '?' => "_Q_"
    case '"' => "_E_"
    case '<' => "_L_"
    case '>' => "_G_"
    case '|' => "_P_"
    case '\0' => "_N_"
    case ' ' => "_U_"
    case ',' => "_Z_"
    case _ => [c]
  }

  function EncodeChars(s: string): (r: string)
    ensures forall i :: 0 <= i < |r| ==> !Unsafe(r[i])
    ensures (forall i :: 0 <= i < |s| ==> !Unsafe(s[i])) ==> r == s
    decreases |s|
  {
    if |s| == 0 then ""
    else
      var r := CodeOf(s[0]) + EncodeChars(s[1..]);
      assert s == [s[0]] + s[1..];
      r
  }

  lemma {:induction false} EncodeCharsConcat(a: string, b: string)
    ensures EncodeChars(a + b) == EncodeChars(a) + EncodeChars(b)
    decreases |a|
  {
    if |a| > 0 {
      assert (a + b)[1..] == a[1..] + b;
      EncodeCharsConcat(a[1..], b);
    } else {
      assert a + b == b;
    }
  }

  // ---------------------------------------------------------------------
  // The sequential replacements are the per-character substitution
  // ---------------------------------------------------------------------

  /** Substitution by a table of one-character keys: each character is
      replaced by the value of the first entry naming it, if any. */
  function LookupChar(c: char, table: Dict<string, string>): string
    decreases |table|
  {
    if |table| == 0 then [c]
    else if table[0].0 == [c] then table[0].1
    else LookupChar(c, table[1..])
  }

  function SubstTable(s: string, table: Dict<string, string>): string
    decreases |s|
  {
    if |s| == 0 then "" else LookupChar(s[0], table) + SubstTable(s[1..], table)
  }

  lemma {:induction false} SubstTableConcat(a: string, b: string, table: Dict<string, string>)
    ensures SubstTable(a + b, table) == SubstTable(a, table) + SubstTable(b, table)
    decreases |a|
  {
    if |a| > 0 {
      assert (a + b)[1..] == a[1..] + b;
      SubstTableConcat(a[1..], b, table);
    } else {
      assert a + b == b;
    }
  }

  /** A string none of whose characters is a key is left alone. */
  lemma {:induction false} SubstTableNoKeys(s: string, table: Dict<string, string>)
    requires forall i, x :: 0 <= i < |table| && x in s ==> table[i].0 != [x]
    ensures SubstTable(s, table) == s
    decreases |s|
  {
    if |s| > 0 {
      assert LookupChar(s[0], table) == [s[0]] by {
        LookupMiss(s[0], table);
      }
      SubstTableNoKeys(s[1..], table);
      assert s == [s[0]] + s[1..];
    }
  }

  lemma {:induction false} LookupMiss(c: char, table: Dict<string, string>)
    requires forall i :: 0 <= i < |table| ==> table[i].0 != [c]
    ensures LookupChar(c, table) == [c]
    decreases |table|
  {
    if |table| > 0 {
      LookupMiss(c, table[1..]);
    }
  }

  /** Keys are single characters, and no value contains a later key. */
  predicate CharTable(table: Dict<string, string>) {
    && (forall i :: 0 <= i < |table| ==> |table[i].0| == 1)
    && (forall i, j, x :: 0 <= i < j < |table| && x in table[i].1 ==> table[j].0 != [x])
  }

  /** Substituting the head entry first and then the rest of the table is
      the same as substituting the whole table at once. */
  lemma {:induction false} SubstHeadThenRest(s: string, table: Dict<string, string>)
    requires |table| > 0 && CharTable(table)
    ensures SubstTable(SubstChar(s, table[0].0[0], table[0].1), table[1..]) == SubstTable(s, table)
    decreases |s|
  {
    if |s| > 0 {
      var c := table[0].0[0];
      assert table[0].0 == [c];
      var head := if s[0] == c then table[0].1 else [s[0]];
      SubstTableConcat(head, SubstChar(s[1..], c, table[0].1), table[1..]);
      SubstHeadThenRest(s[1..], table);
      if s[0] == c {
        SubstTableNoKeys(table[0].1, table[1..]);
      } else {
        assert SubstTable(head, table[1..]) == LookupChar(s[0], table[1..]) + SubstTable("", table[1..]);
      }
    }
  }

  lemma {:induction false} ReplaceEachIsSubst(s: string, table: Dict<string, string>)
    requires CharTable(table)
    ensures NonEmptyPatterns(table) && ReplaceEach(s, table) == SubstTable(s, table)
    decreases |table|
  {
    if |table| == 0 {
      SubstTableNoKeys(s, table);
    } else {
      var c := table[0].0[0];
      assert table[0].0 == [c];
      ReplaceChar(s, c, table[0].1);
      assert CharTable(table[1..]);
      ReplaceEachIsSubst(SubstChar(s, c, table[0].1), table[1..]);
      SubstHeadThenRest(s, table);
    }
  }

  /** Every key of the encoding table is one unsafe character and every
      code is made of safe ones. */
  lemma {:induction false} EncodeTableShape()
    ensures forall i :: 0 <= i < |EncodeTable| ==> |EncodeTable[i].0| == 1 && Unsafe(EncodeTable[i].0[0])
    ensures forall i :: 0 <= i < |EncodeTable| ==> forall x :: x in EncodeTable[i].1 ==> !Unsafe(x)
  {
    EncodeKeysUnsafe();
    EncodeCodesSafe();
  }

  lemma {:induction false} EncodeKeysUnsafe()
    ensures forall i :: 0 <= i < |EncodeTable| ==> |EncodeTable[i].0| == 1 && Unsafe(EncodeTable[i].0[0])
  {
    EncodeTableKeys();
    forall i | 0 <= i < |EncodeKeys| ensures Unsafe(EncodeKeys[i]) {
    }
  }

  lemma {:induction false} EncodeCodesSafe()
    ensures forall i :: 0 <= i < |EncodeTable| ==> forall x :: x in EncodeTable[i].1 ==> !Unsafe(x)
  {
    EncodeTableKeys();
    EncodeKeysUnsafe();
    forall i | 0 <= i < |EncodeTable| ensures forall x :: x in EncodeTable[i].1 ==> !Unsafe(x) {
      CodeSafe(EncodeKeys[i]);
    }
  }

  /** The code of an unsafe character is made of safe ones. */
  lemma {:induction false} CodeSafe(c: char)
    requires Unsafe(c)
    ensures forall x :: x in CodeOf(c) ==> !Unsafe(x)
  {
    var code := CodeOf(c);
    forall x | x in code ensures !Unsafe(x) {
      var k :| 0 <= k < 3 && code[k] == x;
    }
  }

  lemma {:induction false} EncodeTableIsCharTable()
    ensures CharTable(EncodeTable)
  {
    EncodeTableShape();
    var t := EncodeTable;
    forall i, j, x | 0 <= i < j < |t| && x in t[i].1 ensures t[j].0 != [x] {
      assert !Unsafe(x) && Unsafe(t[j].0[0]);
    }
  }

  /** Lookup finds the first entry naming the character. */
  lemma {:induction false} LookupAt(c: char, table: Dict<string, string>, i: nat)
    requires i < |table| && table[i].0 == [c]
    requires forall j :: 0 <= j < i ==> table[j].0 != [c]
    ensures LookupChar(c, table) == table[i].1
    decreases i
  {
    if i > 0 {
      LookupAt(c, table[1..], i - 1);
    }
  }

  lemma {:induction false} LookupEncodeTable(c: char)
    ensures LookupChar(c, EncodeTable) == CodeOf(c)
  {
    EncodeTableContents();
    var t := EncodeTable;
    if !Unsafe(c) {
      forall i | 0 <= i < |t| ensures t[i].0 != [c] {
        assert t[i].0[0] != c;
      }
      LookupMiss(c, t);
    } else {
      LookupEncodeUnsafe(c);
    }
  }

  /** The keys of the encoding table, in order. */
  const EncodeKeys: string := "/\\:*?\"<>|\0 ,"

  /** Row `j` of the encoding table maps the `j`-th key to its code. */
  lemma {:induction false} EncodeTableKeys()
    ensures |EncodeTable| == |EncodeKeys|
    ensures forall j :: 0 <= j < |EncodeKeys| ==>
      EncodeTable[j].0 == [EncodeKeys[j]] && EncodeTable[j].1 == CodeOf(EncodeKeys[j])
  {
    EncodeTableContents();
  }

  /** Every unsafe character is a key, at its first occurrence. */
  lemma {:induction false} UnsafeIsKey(c: char) returns (i: nat)
    requires Unsafe(c)
    ensures i < |EncodeKeys| && EncodeKeys[i] == c
    ensures forall j :: 0 <= j < i ==> EncodeKeys[j] != c
  {
    var k := EncodeKeys;
    i := if c == '/' then 0 else if c == '\\' then 1 else if c == ':' then 2 else if c == '*' then 3
      else if c == '?' then 4 else if c == '"' then 5 else if c == '<' then 6 else if c == '>' then 7
      else if c == '|' then 8 else if c == '\0' then 9 else if c == ' ' then 10 else 11;
  }

  /** Lookup in a table of one-character keys finds the first row whose key
      is the character. */
  lemma {:induction false} LookupKeyed(c: char, table: Dict<string, string>, keys: string, i: nat)
    requires |table| == |keys| && forall j :: 0 <= j < |keys| ==> table[j].0 == [keys[j]]
    requires i < |keys| && keys[i] == c && forall j :: 0 <= j < i ==> keys[j] != c
    ensures LookupChar(c, table) == table[i].1
  {
    forall j | 0 <= j < i ensures table[j].0 != [c] {
      assert table[j].0[0] != [c][0];
    }
    LookupAt(c, table, i);
  }

  /** The unsafe characters, each at its own row of the table. */
  lemma {:induction false} LookupEncodeUnsafe(c: char)
    requires Unsafe(c)
    ensures LookupChar(c, EncodeTable) == CodeOf(c)
  {
    EncodeTableKeys();
    var i := UnsafeIsKey(c);
    LookupKeyed(c, EncodeTable, EncodeKeys, i);
  }

  lemma {:induction false} SubstEncodeTable(s: string)
    ensures SubstTable(s, EncodeTable) == EncodeChars(s)
    decreases |s|
  {
    if |s| > 0 {
      LookupEncodeTable(s[0]);
      SubstEncodeTable(s[1..]);
    }
  }

  /** `encode_filename` is the per-character substitution `EncodeChars`,
      although the source writes it as twelve successive replacements. */
  lemma {:induction false} EncodeIsPerCharacter(name: string)
    ensures Encode(name) == EncodeChars(name)
  {
    EncodeTableIsCharTable();
    ReplaceEachIsSubst(name, EncodeTable);
    SubstEncodeTable(name);
  }

  // ---------------------------------------------------------------------
  // Properties of the encoder
  // ---------------------------------------------------------------------

  /** The encoded name contains none of `/ \ : * ? " < > |`, NUL, space or
      comma, and a name without them is returned unchanged. */
  lemma {:induction false} EncodeSafe(name: string)
    ensures forall i :: 0 <= i < |Encode(name)| ==> !Unsafe(Encode(name)[i])
    ensures (forall i :: 0 <= i < |name| ==> !Unsafe(name[i])) ==> Encode(name) == name
  {
    EncodeIsPerCharacter(name);
  }

  /** Encoding twice is encoding once. */
  lemma {:induction false} EncodeIdempotent(name: string)
    ensures Encode(Encode(name)) == Encode(name)
  {
    EncodeSafe(name);
    EncodeSafe(Encode(name));
  }

  /** The later dictionary entry wins: a double quote becomes `_E_`. */
  lemma {:induction false} EncodeQuote()
    ensures Encode("\"") == "_E_"
  {
    EncodeIsPerCharacter("\"");
  }

  /** No code contains `W`, so `_W_` can only appear in an encoded name
      when a `W` was already in the input. */
  lemma {:induction false} EncodeKeepsW(name: string)
    ensures 'W' in EncodeChars(name) <==> 'W' in name
    decreases |name|
  {
    if |name| > 0 {
      EncodeKeepsW(name[1..]);
      assert name == [name[0]] + name[1..];
    }
  }

  lemma {:induction false} EncodeNeverIntroducesW(name: string)
    ensures 'W' in Encode(name) <==> 'W' in name
  {
    EncodeIsPerCharacter(name);
    EncodeKeepsW(name);
  }

  // ---------------------------------------------------------------------
  // Properties of the decoder and of the round trip
  // ---------------------------------------------------------------------

  /** Entries whose pattern does not occur leave the string alone. */
  lemma {:induction false} ReplaceEachSkip(s: string, table: Dict<string, string>, n: nat)
    requires NonEmptyPatterns(table) && n <= |table|
    requires forall i :: 0 <= i < n ==> !HasSub(s, table[i].0)
    ensures ReplaceEach(s, table) == ReplaceEach(s, table[n..])
    decreases n
  {
    if n > 0 {
      ReplaceAbsent(s, table[0].0, table[0].1);
      ReplaceEachSkip(s, table[1..], n - 1);
      assert table[1..][n - 1..] == table[n..];
    }
  }

  /** A string shorter than every pattern is left alone. */
  lemma {:induction false} ReplaceEachShort(s: string, table: Dict<string, string>)
    requires NonEmptyPatterns(table)
    requires forall i :: 0 <= i < |table| ==> |s| < |table[i].0|
    ensures ReplaceEach(s, table) == s
  {
  }

  /** Every decoding pattern is a three-character code `_X_`, and every
      replacement a single character. */
  lemma {:induction false} DecodeEntriesShape()
    ensures forall i :: 0 <= i < |DecodeEntries| ==>
      |DecodeEntries[i].0| == 3 && DecodeEntries[i].0[0] == '_' && DecodeEntries[i].0[2] == '_'
      && |DecodeEntries[i].1| == 1
  {
  }

  /** Between strings of equal length, occurrence is equality. */
  lemma {:induction false} HasSubSameLength(s: string, p: string)
    requires |s| == |p| > 0
    ensures HasSub(s, p) <==> s == p
  {
    assert s[..|p|] == s;
    assert |s[1..]| < |p|;
  }

  /** Replacing through a table of three-character codes turns a lone code
      into its value: the entries before it do not occur, and the
      one-character result is shorter than every later code. */
  lemma {:induction false} LoneCode(t: Dict<string, string>, code: string, n: nat)
    requires forall i :: 0 <= i < |t| ==> |t[i].0| == 3 && |t[i].1| == 1
    requires n < |t| && code == t[n].0
    requires forall i :: 0 <= i < n ==> t[i].0 != code
    ensures NonEmptyPatterns(t) && ReplaceEach(code, t) == t[n].1
  {
    var v := t[n].1;
    forall i | 0 <= i < n ensures !HasSub(code, t[i].0) {
      HasSubSameLength(code, t[i].0);
    }
    ReplaceEachSkip(code, t, n);
    assert code[..3] == code && code[3..] == "";
    assert Replace(code, code, v) == v + Replace("", code, v);
    assert t[n..][1..] == t[n + 1..];
    assert ReplaceEach(code, t[n..]) == ReplaceEach(v, t[n + 1..]);
    ReplaceEachShort(v, t[n + 1..]);
  }

  lemma {:induction false} DecodeLoneCode(code: string, n: nat)
    requires n < |DecodeEntries| && code == DecodeEntries[n].0
    requires forall i :: 0 <= i < n ==> DecodeEntries[i].0 != code
    ensures Decode(code) == DecodeEntries[n].1
  {
    DecodeTableContents();
    DecodeEntriesShape();
    LoneCode(DecodeEntries, code, n);
  }

  /** Both `_W_` and `_E_` decode to a double quote. */
  lemma {:induction false} DecodeQuoteCodes()
    ensures Decode("_W_") == "\"" && Decode("_E_") == "\""
  {
    DecodeLoneCode("_W_", 5);
    DecodeLoneCode("_E_", 12);
  }

  /** The round trip holds for names that contain no unsafe character and
      no code: then neither direction changes anything. */
  lemma {:induction false} RoundTripPlain(name: string)
    requires forall i :: 0 <= i < |name| ==> !Unsafe(name[i])
    requires forall i :: 0 <= i < |DecodeEntries| ==> !HasSub(name, DecodeEntries[i].0)
    ensures Decode(Encode(name)) == name
  {
    EncodeSafe(name);
    DecodeTableContents();
  }

  /** The round trip fails on `*S:`: it encodes to `_A_S_C_`, in which the
      decoder first finds the `_S_` in the middle. */
  lemma {:induction false} RoundTripCounterexample()
    ensures Encode("*S:") == "_A_S_C_"
    ensures Decode("_A_S_C_") == "_A/C_"
    ensures Decode(Encode("*S:")) != "*S:"
  {
    EncodeStarSColon();
    DecodeTableContents();
    DecodeEntriesShape();
    SlashFirst(DecodeEntries);
  }

  lemma {:induction false} EncodeStarSColon()
    ensures Encode("*S:") == "_A_S_C_"
  {
    EncodeIsPerCharacter("*S:");
    EncodeCharsCons('*', "S:");
    EncodeCharsCons('S', ":");
    EncodeCharsCons(':', "");
    assert ['*'] + "S:" == "*S:" && ['S'] + ":" == "S:" && [':'] + "" == ":";
  }

  lemma {:induction false} EncodeCharsCons(c: char, rest: string)
    ensures EncodeChars([c] + rest) == CodeOf(c) + EncodeChars(rest)
  {
    assert ([c] + rest)[1..] == rest;
  }

  /** Any table of codes that replaces `_S_` first sends `_A_S_C_` to `_A/C_`. */
  lemma {:induction false} SlashFirst(t: Dict<string, string>)
    requires |t| > 0 && t[0] == ("_S_", "/")
    requires forall i :: 0 <= i < |t| ==> |t[i].0| == 3 && t[i].0[0] == '_' && t[i].0[2] == '_'
    ensures NonEmptyPatterns(t) && ReplaceEach("_A_S_C_", t) == "_A/C_"
  {
    var s := "_A_S_C_";
    assert Replace("C_", "_S_", "/") == "C_";
    assert s[2..][3..] == "C_";
    assert Replace(s[2..], "_S_", "/") == "/C_";
    assert s[1..][1..] == s[2..];
    assert Replace(s[1..], "_S_", "/") == "A/C_";
    assert Replace(s, "_S_", "/") == "_A/C_";
    var r := "_A/C_";
    forall i | 0 <= i < |t[1..]| ensures !HasSub(r, t[1..][i].0) {
      NoCodeIn(r, t[1..][i].0);
    }
  }

  /** `_A/C_` holds no code: no window of three characters starts and ends
      with an underscore. */
  lemma {:induction false} NoCodeIn(r: string, code: string)
    requires r == "_A/C_" && |code| == 3 && code[0] == '_' && code[2] == '_'
    ensures !HasSub(r, code)
  {
    var r1 := r[1..];
    var r2 := r1[1..];
    var r3 := r2[1..];
    assert r3 == "C_";
    assert !HasSub(r3, code);
    assert r2[..3][0] == '/';
    assert !HasSub(r2, code);
    assert r1[..3][2] == 'C';
    assert !HasSub(r1, code);
    assert r[..3][2] == '/';
  }

  // ---------------------------------------------------------------------
  // A decoder that inverts the encoder
  // ---------------------------------------------------------------------

  /** The character a code letter stands for. */
  function CodeLetter(x: char): Option<char> {
    match x
    case 'S' => Some('/')
    case 'B' => Some('\\')
    case 'C' => Some(':')
    case 'A' => Some('*')
    case 'Q' => Some('?')
    case 'W' => Some('"')
    case 'L' => Some('<')
    case 'G' => Some('>')
    case 'P' => Some('|')
    case 'N' => Some('\0')
    case 'U' => Some(' ')
    case 'Z' => Some(',')
    case 'E' => Some('"')
    case _ => None
  }

  /** Decodes in one left-to-right pass, so a code is recognised only where
      the encoder could have written one. */
  function ScanDecode(s: string): string
    decreases |s|
  {
    if |s| >= 3 && s[0] == '_' && s[2] == '_' && CodeLetter(s[1]).Some? then
      [CodeLetter(s[1]).value] + ScanDecode(s[3..])
    else if |s| == 0 then ""
    else [s[0]] + ScanDecode(s[1..])
  }

  /** The one-pass decoder reads one character's code back as that
      character. */
  lemma {:induction false} ScanDecodeCode(c: char, rest: string)
    requires c != '_'
    ensures ScanDecode(CodeOf(c) + rest) == [c] + ScanDecode(rest)
  {
    var s := CodeOf(c) + rest;
    if Unsafe(c) {
      assert s[0] == '_' && s[2] == '_' && s[1] == CodeOf(c)[1];
      assert CodeLetter(CodeOf(c)[1]) == Some(c);
      assert s[3..] == rest;
    } else {
      assert s[0] == c && s[1..] == rest;
    }
  }

  /** The one-pass decoder inverts the per-character encoding of every
      string without an underscore. */
  lemma {:induction false} ScanDecodeChars(name: string)
    requires '_' !in name
    ensures ScanDecode(EncodeChars(name)) == name
    decreases |name|
  {
    if |name| > 0 {
      assert '_' !in name[1..];
      ScanDecodeChars(name[1..]);
      ScanDecodeCode(name[0], EncodeChars(name[1..]));
      assert name == [name[0]] + name[1..];
    }
  }

  /** The one-pass decoder inverts the encoder on every name without an
      underscore, `*S:` included. */
  lemma {:induction false} ScanDecodeRoundTrip(name: string)
    requires '_' !in name
    ensures ScanDecode(Encode(name)) == name
  {
    EncodeIsPerCharacter(name);
    ScanDecodeChars(name);
  }
}
