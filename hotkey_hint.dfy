/** `getHotKeyHint`: turns a key-combination code such as "ctrl+shift+s"
    into the text shown to the user — "Ctrl + Shift + S" on most platforms,
    "⌃\u2009⇧\u2009S" on a Mac (glyphs, each followed by a thin space). */
module HotKeyHint {
  import opened Strings
  import opened Env

  /** The user's overrides as an ordered association list of (key, value)
      pairs, in the order `for...in` enumerates them: the value is the code
      the application uses, the key the code the user binds to it. */
  type Overrides = seq<(string, string)>

  /** What a call returns, or the `TypeError` it throws when a `+`-separated
      token is empty (`part[0]` is `undefined` there). */
  datatype Outcome = Returns(hint: string) | ThrowsTypeError

  // ---------------------------------------------------------------------
  // Reverse override lookup

  /** The position of the first override whose value is `code`, if any. */
  function FirstMatch(overrides: Overrides, code: string): (r: Option<nat>)
    ensures r.Some? ==> r.value < |overrides| && overrides[r.value].1 == code
    ensures r.Some? ==> forall j :: 0 <= j < r.value ==> overrides[j].1 != code
    ensures r.None? <==> forall j :: 0 <= j < |overrides| ==> overrides[j].1 != code
  {
    if |overrides| == 0 then None
    else if overrides[0].1 == code then Some(0)
    else
      match FirstMatch(overrides[1..], code)
      case None =>
        assert forall j :: 1 <= j < |overrides| ==> overrides[j] == overrides[1..][j - 1];
        None
      case Some(i) =>
        assert forall j :: 1 <= j <= i + 1 ==> overrides[j] == overrides[1..][j - 1];
        Some(i + 1)
  }

  /** The code the hint is built from: the key of the first override whose
      value is `code`, or `code` itself when no value matches. */
  function Resolve(overrides: Overrides, code: string): (r: string)
    ensures (forall j :: 0 <= j < |overrides| ==> overrides[j].1 != code) ==> r == code
    ensures (exists j :: 0 <= j < |overrides| && overrides[j].1 == code) ==>
              exists j :: 0 <= j < |overrides| && overrides[j] == (r, code)
  {
    match FirstMatch(overrides, code)
    case Some(i) => overrides[i].0
    case None => code
  }

  /** The lookup loop: scan the overrides in order and stop at the first
      whose value is `code`. */
  method ResolveCode(code: string, overrides: Overrides) returns (realCode: string)
    ensures realCode == Resolve(overrides, code)
  {
    realCode := code;
    var i := 0;
    while i < |overrides|
      invariant 0 <= i <= |overrides|
      invariant realCode == code
      invariant forall j :: 0 <= j < i ==> overrides[j].1 != code
    {
      if overrides[i].1 == code {
        realCode := overrides[i].0;
        break;
      }
      i := i + 1;
    }
  }

  /** The first matching override wins: overrides listed after it never
      change the result. */
  lemma {:induction false} ResolveFirstWins(overrides: Overrides, later: Overrides, code: string)
    requires exists j :: 0 <= j < |overrides| && overrides[j].1 == code
    ensures Resolve(overrides + later, code) == Resolve(overrides, code)
  {
    var all := overrides + later;
    var i := FirstMatch(overrides, code).value;
    assert all[i] == overrides[i];
    assert forall j :: 0 <= j < i ==> all[j] == overrides[j];
  }

  /** When no override's value is `code`, the overrides change nothing: the
      code resolves to itself, as with no overrides at all. */
  lemma ResolveNoMatch(overrides: Overrides, code: string)
    requires forall j :: 0 <= j < |overrides| ==> overrides[j].1 != code
    ensures Resolve(overrides, code) == code == Resolve([], code)
  {
  }

  // ---------------------------------------------------------------------
  // Tokens and title case

  /** `part[0].toUpperCase() + part.slice(1)` for a non-empty token. */
  function TitleCase(part: string): (r: string)
    requires |part| > 0
    ensures |r| == |part| && r[1..] == part[1..]
    ensures LowerChar(r[0]) == LowerChar(part[0]) && !('a' <= r[0] <= 'z')
  {
    [UpperChar(part[0])] + part[1..]
  }

  /** `parts.map(TitleCase)`, or `None` for the `TypeError` thrown at the
      first empty part. */
  function TitleCaseAll(parts: seq<string>): (r: Option<seq<string>>)
    ensures r.None? <==> exists i :: 0 <= i < |parts| && parts[i] == ""
    ensures r.Some? ==> |r.value| == |parts|
    ensures r.Some? ==> forall i :: 0 <= i < |parts| ==>
              |r.value[i]| == |parts[i]| > 0 &&
              r.value[i][0] == UpperChar(parts[i][0]) &&
              r.value[i][1..] == parts[i][1..]
  {
    if |parts| == 0 then Some([])
    else if parts[0] == "" then None
    else
      match TitleCaseAll(parts[1..])
      case None =>
        assert forall i :: 1 <= i < |parts| ==> parts[i] == parts[1..][i - 1];
        None
      case Some(rest) =>
        var r := [TitleCase(parts[0])] + rest;
        assert forall i :: 1 <= i < |parts| ==> parts[i] == parts[1..][i - 1] && r[i] == rest[i - 1];
        Some(r)
  }

  /** `parts.map(TitleCase)` for parts that are all non-empty. */
  function TitleCaseEach(parts: seq<string>): seq<string>
    requires forall i :: 0 <= i < |parts| ==> parts[i] != ""
  {
    if parts == [] then [] else [TitleCase(parts[0])] + TitleCaseEach(parts[1..])
  }

  /** Without empty parts, title-casing cannot throw, and is `map` of TitleCase. */
  lemma {:induction false} TitleCaseAllIsMap(parts: seq<string>)
    requires forall i :: 0 <= i < |parts| ==> parts[i] != ""
    ensures TitleCaseAll(parts) == Some(TitleCaseEach(parts))
    decreases |parts|
  {
    if |parts| > 0 {
      TitleCaseAllIsMap(parts[1..]);
    }
  }

  /** The tokens of a code: `code.split('+')`, title-cased. */
  function PrettyParts(code: string): (r: Option<seq<string>>)
    ensures r.None? <==> HasEmptyToken(Split(code, '+'))
    ensures r.Some? ==> |r.value| == |Split(code, '+')|
  {
    TitleCaseAll(Split(code, '+'))
  }

  /** Some token is empty. */
  predicate HasEmptyToken(parts: seq<string>)
  {
    exists i :: 0 <= i < |parts| && parts[i] == ""
  }

  /** A code built from non-empty tokens without '+' yields those tokens, title-cased. */
  lemma PrettyPartsOfJoin(tokens: seq<string>)
    requires |tokens| >= 1
    requires forall i :: 0 <= i < |tokens| ==> tokens[i] != "" && '+' !in tokens[i]
    ensures PrettyParts(Join(tokens, "+")) == Some(TitleCaseEach(tokens))
  {
    SplitJoin(tokens, '+');
    TitleCaseAllIsMap(tokens);
  }

  /** Title-casing maps no character to '+', so title-cased tokens stay free of '+'. */
  lemma PrettyPartsHaveNoPlus(code: string)
    requires PrettyParts(code).Some?
    ensures forall i :: 0 <= i < |PrettyParts(code).value| ==> '+' !in PrettyParts(code).value[i]
  {
    var parts := Split(code, '+');
    var pretty := PrettyParts(code).value;
    forall i | 0 <= i < |pretty| ensures '+' !in pretty[i] {
      var t, p := pretty[i], parts[i];
      assert p[0] in p;
      forall j | 0 <= j < |t| ensures t[j] != '+' {
        if j > 0 {
          assert t[j] == t[1..][j - 1] == p[1..][j - 1] == p[j];
        }
      }
    }
  }

  /** Whether "++" occurs in a non-empty string: at its start, or in its tail. */
  lemma ContainsDoublePlus(s: string)
    requires |s| > 0
    ensures Contains(s, "++") <==> OccursAt(s, "++", 0) || Contains(s[1..], "++")
  {
    if Contains(s, "++") {
      var j :| 0 <= j <= |s| && OccursAt(s, "++", j);
      if j > 0 {
        OccursAtShift(s, "++", j - 1);
      }
    }
    if Contains(s[1..], "++") {
      var j :| 0 <= j <= |s[1..]| && OccursAt(s[1..], "++", j);
      OccursAtShift(s, "++", j);
    }
  }

  /** The first token is empty exactly when the code is empty or starts with '+'. */
  lemma FirstTokenEmptyIff(code: string)
    ensures Split(code, '+')[0] == "" <==> code == "" || code[0] == '+'
  {
    if |code| > 0 && code[0] != '+' {
      assert Split(code, '+')[0] == [code[0]] + Split(code[1..], '+')[0];
    }
  }

  /** Some token after the first is empty. */
  predicate LaterEmpty(parts: seq<string>)
  {
    exists i :: 1 <= i < |parts| && parts[i] == ""
  }

  /** An empty token put in front: the old first token becomes a later one. */
  lemma LaterEmptyAfterEmpty(rest: seq<string>)
    requires |rest| >= 1
    ensures LaterEmpty([""] + rest) <==> rest[0] == "" || LaterEmpty(rest)
  {
    var parts := [""] + rest;
    if rest[0] == "" {
      assert parts[1] == "";
    }
    if LaterEmpty(rest) {
      var i :| 1 <= i < |rest| && rest[i] == "";
      assert parts[i + 1] == "";
    }
    if LaterEmpty(parts) {
      var i :| 1 <= i < |parts| && parts[i] == "";
      assert rest[i - 1] == "";
    }
  }

  /** A character glued to the first token leaves the later tokens as they are. */
  lemma LaterEmptyAfterMerge(c: char, rest: seq<string>)
    requires |rest| >= 1
    ensures LaterEmpty([[c] + rest[0]] + rest[1..]) <==> LaterEmpty(rest)
  {
    var parts := [[c] + rest[0]] + rest[1..];
    assert forall i :: 1 <= i < |parts| ==> parts[i] == rest[i];
  }

  /** A token after the first is empty exactly when the code ends with '+'
      or has two '+' in a row. */
  lemma {:induction false} LaterEmptyTokenIff(code: string)
    ensures LaterEmpty(Split(code, '+')) <==>
            ((|code| > 0 && code[|code| - 1] == '+') || Contains(code, "++"))
    decreases |code|
  {
    var parts := Split(code, '+');
    if |code| == 0 {
      assert parts == [""];
    } else {
      var tail := code[1..];
      var rest := Split(tail, '+');
      if code[0] == '+' {
        assert parts == [""] + rest;
        LaterEmptyAfterEmpty(rest);
      } else {
        assert parts == [[code[0]] + rest[0]] + rest[1..];
        LaterEmptyAfterMerge(code[0], rest);
      }
      if |tail| == 0 {
        assert rest == [""];
        assert !Contains(code, "++") by {
          forall j | 0 <= j <= |code| ensures !OccursAt(code, "++", j) {
          }
        }
      } else {
        LaterEmptyTokenIff(tail);
        FirstTokenEmptyIff(tail);
        ContainsDoublePlus(code);
        assert code[|code| - 1] == tail[|tail| - 1];
        assert OccursAt(code, "++", 0) <==> code[0] == '+' && tail[0] == '+' by {
          assert code[0..2] == [code[0], tail[0]];
        }
      }
    }
  }

  /** The code has an empty token, and the call throws, exactly when the code
      is empty, starts or ends with '+', or has two '+' in a row. */
  lemma EmptyTokenIff(code: string)
    ensures (exists i :: 0 <= i < |Split(code, '+')| && Split(code, '+')[i] == "") <==>
            (code == "" || code[0] == '+' || code[|code| - 1] == '+' || Contains(code, "++"))
  {
    var parts := Split(code, '+');
    LaterEmptyTokenIff(code);
    FirstTokenEmptyIff(code);
    if parts[0] == "" {
      assert 0 < |parts|;
    }
    if exists i :: 0 <= i < |parts| && parts[i] == "" {
      var i :| 0 <= i < |parts| && parts[i] == "";
      assert i == 0 || LaterEmpty(parts);
    }
    if LaterEmpty(parts) {
      var i :| 1 <= i < |parts| && parts[i] == "";
      assert 0 <= i < |parts|;
    }
  }

  // ---------------------------------------------------------------------
  // Platform

  /** `window.navigator.platform.indexOf('Mac') === 0`: the Mac branch is
      taken exactly when the platform starts with "Mac". */
  function IsMac(window: Window): (r: bool)
    ensures r <==> |window.navigator.platform| >= 3 && window.navigator.platform[..3] == "Mac"
  {
    var p := window.navigator.platform;
    assert |p| >= 3 && p[..3] == "Mac" ==> OccursAt(p, "Mac", 0);
    IndexOf(p, "Mac") == 0
  }

  // ---------------------------------------------------------------------
  // Mac glyphs

  const CommandGlyph: char := '\U{2318}'  // ⌘
  const ShiftGlyph: char := '\U{21E7}'    // ⇧
  const OptionGlyph: char := '\U{2325}'   // ⌥
  const ControlGlyph: char := '\U{2303}'  // ⌃
  /** U+2009 THIN SPACE, which each rewrite puts after its glyph. */
  const ThinSpace: char := '\U{2009}'

  /** The keyword's first character does not occur again inside it, so two
      occurrences of the keyword cannot overlap. */
  predicate HeadUnrepeated(k: string)
  {
    |k| > 0 && forall j :: 0 < j < |k| ==> k[j] != k[0]
  }

  /** The four modifier names are one line each and cannot overlap themselves. */
  lemma Keywords()
    ensures SingleLine("Meta") && SingleLine("Shift") && SingleLine("Alt") && SingleLine("Ctrl")
    ensures HeadUnrepeated("Meta") && HeadUnrepeated("Shift") && HeadUnrepeated("Alt") && HeadUnrepeated("Ctrl")
  {
  }

  /** The characters at which a regular expression's `.` stops matching. */
  predicate IsLineTerminator(c: char)
  {
    c == '\n' || c == '\r' || c == '\U{2028}' || c == '\U{2029}'
  }

  predicate SingleLine(s: string)
  {
    forall i :: 0 <= i < |s| ==> !IsLineTerminator(s[i])
  }

  /** The length of the first line of `s`: the index of its first line
      terminator, or |s| if there is none. */
  function LineEnd(s: string): (n: nat)
    ensures n <= |s| && SingleLine(s[..n])
    ensures n < |s| ==> IsLineTerminator(s[n])
  {
    if |s| == 0 || IsLineTerminator(s[0]) then 0
    else
      var n := 1 + LineEnd(s[1..]);
      assert forall i :: 1 <= i < n ==> s[..n][i] == s[1..][..n - 1][i - 1];
      n
  }

  /** `s.replace(/(.*)K(.*)/, 'G\u2009$1$2')`. The first match starts at the
      beginning of the first line that contains `k` and spans that line; the
      greedy `(.*)` puts `k`'s last occurrence in the line at the split. The
      match is replaced by the glyph, a thin space and the line without that `k`. */
  function Replace(s: string, k: string, glyph: char): (r: string)
    requires SingleLine(k)
    ensures |r| == |s| || |r| == |s| + 2 - |k|
    decreases |s|
  {
    var n := LineEnd(s);
    match LastIndexOf(s[..n], k)
    case Some(i) => [glyph, ThinSpace] + s[..i] + s[i + |k|..n] + s[n..]
    case None => if n == |s| then s else s[..n + 1] + Replace(s[n + 1..], k, glyph)
  }

  /** A rewrite whose keyword does not occur leaves the string unchanged. */
  lemma {:induction false} ReplaceAbsent(s: string, k: string, glyph: char)
    requires SingleLine(k)
    requires !Contains(s, k)
    ensures Replace(s, k, glyph) == s
    decreases |s|
  {
    var n := LineEnd(s);
    AbsentFromPrefix(s, k, n);
    assert LastIndexOf(s[..n], k).None?;
    if n < |s| {
      var rest := s[n + 1..];
      TakeDrop(s, n + 1);
      AbsentFromSuffix(s, k, n + 1);
      ReplaceAbsent(rest, k, glyph);
    }
  }

  lemma TakeDrop(s: string, m: nat)
    requires m <= |s|
    ensures s[..m] + s[m..] == s
  {
  }

  lemma NoneInPrefix(s: string, k: string, n: nat)
    requires n <= |s| && !Contains(s[..n], k)
    ensures forall j :: 0 <= j && j + |k| <= n ==> !OccursAt(s, k, j)
  {
    forall j | 0 <= j && j + |k| <= n ensures !OccursAt(s, k, j) {
      OccursAtPrefix(s, k, n, j);
    }
  }

  lemma AbsentFromPrefix(s: string, k: string, n: nat)
    requires n <= |s| && !Contains(s, k)
    ensures !Contains(s[..n], k)
  {
    forall j | 0 <= j && j + |k| <= n ensures !OccursAt(s[..n], k, j) {
      OccursAtPrefix(s, k, n, j);
    }
  }

  lemma AbsentFromSuffix(s: string, k: string, m: nat)
    requires m <= |s| && !Contains(s, k)
    ensures !Contains(s[m..], k)
  {
    var rest := s[m..];
    forall j | 0 <= j && j + |k| <= |rest| ensures !OccursAt(rest, k, j) {
      assert rest[j..j + |k|] == s[m + j..m + j + |k|];
      assert !OccursAt(s, k, m + j);
    }
  }

  /** On a single line that contains the keyword, the rewrite deletes the
      keyword's last occurrence and puts the glyph and a thin space at the very
      front of the string. */
  lemma ReplaceSingleLine(s: string, k: string, glyph: char, i: nat)
    requires SingleLine(k) && SingleLine(s)
    requires OccursAt(s, k, i)
    requires forall j :: i < j ==> !OccursAt(s, k, j)
    ensures Replace(s, k, glyph) == [glyph, ThinSpace] + s[..i] + s[i + |k|..]
  {
    var n := LineEnd(s);
    assert n == |s|;
    assert s[..n] == s;
    var r := LastIndexOf(s, k);
    assert r.Some? by { assert Contains(s, k); }
    assert r.value == i;
  }

  /** The first line of `line + [t] + rest` is `line` when `t` ends it. */
  lemma {:induction false} LineEndOf(line: string, t: char, rest: string)
    requires SingleLine(line) && IsLineTerminator(t)
    ensures LineEnd(line + [t] + rest) == |line|
    decreases |line|
  {
    var s := line + [t] + rest;
    if |line| > 0 {
      assert s[0] == line[0];
      assert s[1..] == line[1..] + [t] + rest;
      LineEndOf(line[1..], t, rest);
    }
  }

  /** Over several lines: a first line without the keyword is kept as it is,
      terminator included, and the rewrite goes on in the lines after it. */
  lemma ReplaceEarlierLine(line: string, t: char, rest: string, k: string, glyph: char)
    requires SingleLine(k) && SingleLine(line) && IsLineTerminator(t)
    requires !Contains(line, k)
    ensures Replace(line + [t] + rest, k, glyph) == line + [t] + Replace(rest, k, glyph)
  {
    var s := line + [t] + rest;
    var n := |line|;
    LineEndOf(line, t, rest);
    assert s[..n] == line;
    assert s[..n + 1] == line + [t] && s[n + 1..] == rest;
  }

  /** Over several lines: in the first line that holds the keyword, its last
      occurrence there goes and the glyph and a thin space are put at the
      start of that line; the lines after it are kept, even where they hold
      the keyword too. */
  lemma ReplaceFirstLine(line: string, t: char, rest: string, k: string, glyph: char, i: nat)
    requires SingleLine(k) && SingleLine(line) && IsLineTerminator(t)
    requires OccursAt(line, k, i) && forall j :: i < j ==> !OccursAt(line, k, j)
    ensures Replace(line + [t] + rest, k, glyph) ==
            [glyph, ThinSpace] + line[..i] + line[i + |k|..] + [t] + rest
  {
    var s := line + [t] + rest;
    var n := |line|;
    LineEndOf(line, t, rest);
    LastOccurrence(line, k, i);
    LineSlices(line, t, rest, i, i + |k|);
    ReplaceAtLine(s, k, glyph, n, i);
  }

  /** The rewrite where the first line of `s` ends at `n` and holds its last
      occurrence of `k` at `i`. */
  lemma ReplaceAtLine(s: string, k: string, glyph: char, n: nat, i: nat)
    requires SingleLine(k) && n == LineEnd(s) && LastIndexOf(s[..n], k) == Some(i)
    ensures i + |k| <= n && Replace(s, k, glyph) == [glyph, ThinSpace] + s[..i] + s[i + |k|..n] + s[n..]
  {
  }

  lemma LastOccurrence(s: string, k: string, i: nat)
    requires OccursAt(s, k, i) && forall j :: i < j ==> !OccursAt(s, k, j)
    ensures LastIndexOf(s, k) == Some(i)
  {
    assert Contains(s, k);
  }

  lemma LineSlices(line: string, t: char, rest: string, i: nat, m: nat)
    requires i <= m <= |line|
    ensures var s := line + [t] + rest;
            s[..|line|] == line && s[..i] == line[..i] && s[m..|line|] == line[m..] &&
            s[|line|..] == [t] + rest
  {
  }

  /** A rewrite that fires removes one occurrence of the keyword and adds a
      glyph and a thin space: the text grows by 2 - |k|. */
  lemma {:induction false} ReplaceLength(s: string, k: string, glyph: char)
    requires SingleLine(k)
    ensures Contains(s, k) ==> |Replace(s, k, glyph)| == |s| - |k| + 2
    ensures !Contains(s, k) ==> Replace(s, k, glyph) == s
    decreases |s|
  {
    if !Contains(s, k) {
      ReplaceAbsent(s, k, glyph);
    } else {
      var n := LineEnd(s);
      match LastIndexOf(s[..n], k)
      case Some(i) =>
        ReplaceAtLine(s, k, glyph, n, i);
      case None =>
        OccurrenceAfterLine(s, k, n);
        ReplaceLength(s[n + 1..], k, glyph);
        ReplaceBeyondLine(s, k, glyph, n);
    }
  }

  /** The rewrite where the first line of `s` ends at `n`, before the end of
      `s`, and does not hold `k`. */
  lemma ReplaceBeyondLine(s: string, k: string, glyph: char, n: nat)
    requires SingleLine(k) && n == LineEnd(s) && n < |s| && LastIndexOf(s[..n], k).None?
    ensures Replace(s, k, glyph) == s[..n + 1] + Replace(s[n + 1..], k, glyph)
  {
  }

  /** When `s` contains `k` but its first line does not, there is a further
      line, and the occurrence lies after the first line's terminator. */
  lemma OccurrenceAfterLine(s: string, k: string, n: nat)
    requires SingleLine(k) && Contains(s, k)
    requires n == LineEnd(s) && LastIndexOf(s[..n], k).None?
    ensures n < |s| && Contains(s[n + 1..], k)
  {
    OccurrenceBeyond(s, k, n);
  }

  /** The same, for any position `n` where `s` ends or has a line terminator. */
  lemma OccurrenceBeyond(s: string, k: string, n: nat)
    requires SingleLine(k) && Contains(s, k)
    requires n <= |s| && (n < |s| ==> IsLineTerminator(s[n])) && !Contains(s[..n], k)
    ensures n < |s| && Contains(s[n + 1..], k)
  {
    var j :| 0 <= j <= |s| && OccursAt(s, k, j);
    NoneInPrefix(s, k, n);
    OccurrenceStartsAfter(s, k, n, j);
    OccursAtDrop(s, k, n + 1, j);
    assert 0 <= j - (n + 1) <= |s[n + 1..]|;
  }

  /** An occurrence of a single-line `k` that ends past position `n`, where
      `s` ends or has a line terminator, starts past `n`. */
  lemma OccurrenceStartsAfter(s: string, k: string, n: nat, j: int)
    requires SingleLine(k) && OccursAt(s, k, j) && n < j + |k|
    requires n <= |s| && (n < |s| ==> IsLineTerminator(s[n]))
    ensures n < j
  {
    assert forall i :: j <= i < j + |k| ==> s[i] == s[j..j + |k|][i - j];
  }

  /** The four rewrites of the Mac branch, in the order they are applied:
      Meta, Shift, Alt, Ctrl. Each puts its glyph in front of those placed
      before it, so the glyphs read in the reverse order. */
  function MacHint(parts: seq<string>): (r: string)
    ensures |r| <= |Join(parts, "")|
  {
    Keywords();
    var joined := Join(parts, "");
    var meta := Replace(joined, "Meta", CommandGlyph);
    var shift := Replace(meta, "Shift", ShiftGlyph);
    var alt := Replace(shift, "Alt", OptionGlyph);
    Replace(alt, "Ctrl", ControlGlyph)
  }

  /** The hint for an already resolved code. It throws exactly when the code
      has an empty token: it is empty, starts or ends with '+', or has two
      '+' in a row — whatever the platform. */
  function Format(window: Window, realCode: string): (r: Outcome)
    ensures r == ThrowsTypeError <==>
            (realCode == "" || realCode[0] == '+' || realCode[|realCode| - 1] == '+' || Contains(realCode, "++"))
  {
    EmptyTokenIff(realCode);
    match PrettyParts(realCode)
    case None => ThrowsTypeError
    case Some(parts) =>
      if IsMac(window) then Returns(MacHint(parts)) else Returns(Join(parts, " + "))
  }

  /** `getHotKeyHint(window, code, overrides)`: the override lookup loop,
      then the pure formatting of the resolved code. */
  method GetHotKeyHint(window: Window, code: string, overrides: Overrides) returns (r: Outcome)
    ensures r == Format(window, Resolve(overrides, code))
  {
    var realCode := ResolveCode(code, overrides);
    r := Format(window, realCode);
  }

  /** Off the Mac, splitting the hint on " + " gives back the title-cased
      tokens, in order: each token keeps its length and its characters after
      the first, and has its first character upper-cased. */
  lemma NonMacRoundTrip(window: Window, realCode: string)
    requires !IsMac(window)
    requires Format(window, realCode).Returns?
    ensures var tokens := Split(realCode, '+');
            var parts := SplitOn(Format(window, realCode).hint, " + ");
            |parts| == |tokens| &&
            forall i :: 0 <= i < |tokens| ==>
              |parts[i]| == |tokens[i]| > 0 &&
              parts[i][0] == UpperChar(tokens[i][0]) && parts[i][1..] == tokens[i][1..]
  {
    var pretty := PrettyParts(realCode).value;
    PrettyPartsHaveNoPlus(realCode);
    SplitOnJoinSpacedPlus(pretty);
  }

  /** With no modifier keyword anywhere in the joined tokens, the Mac hint
      is the tokens run together. */
  lemma MacHintNoModifier(parts: seq<string>)
    requires NoModifier(Join(parts, ""))
    ensures MacHint(parts) == Join(parts, "")
  {
    Keywords();
    var joined := Join(parts, "");
    ReplaceAbsent(joined, "Meta", CommandGlyph);
    var meta := Replace(joined, "Meta", CommandGlyph);
    ReplaceAbsent(meta, "Shift", ShiftGlyph);
    var shift := Replace(meta, "Shift", ShiftGlyph);
    ReplaceAbsent(shift, "Alt", OptionGlyph);
    var alt := Replace(shift, "Alt", OptionGlyph);
    ReplaceAbsent(alt, "Ctrl", ControlGlyph);
  }

  lemma JoinThree(a: string, b: string, c: string, sep: string)
    ensures Join([a, b, c], sep) == a + sep + b + sep + c
  {
    assert [a, b, c][1..] == [b, c];
    assert [b, c][1..] == [c];
    assert Join([b, c], sep) == b + sep + c;
    assert a + sep + (b + sep + c) == a + sep + b + sep + c;
  }

  lemma TitleCaseEachTwo(a: string, b: string)
    requires a != "" && b != ""
    ensures TitleCaseEach([a, b]) == [TitleCase(a), TitleCase(b)]
  {
    assert [a, b][1..] == [b];
    assert [b][1..] == [];
    assert TitleCaseEach([b]) == [TitleCase(b)] + TitleCaseEach([]);
  }

  lemma TitleCaseEachThree(a: string, b: string, c: string)
    requires a != "" && b != "" && c != ""
    ensures TitleCaseEach([a, b, c]) == [TitleCase(a), TitleCase(b), TitleCase(c)]
  {
    assert [a, b, c][1..] == [b, c];
    TitleCaseEachTwo(b, c);
  }

  /** The tokens of "ctrl+shift+s", title-cased. */
  lemma NonMacParts(code: string)
    requires code == "ctrl+shift+s"
    ensures PrettyParts(code) == Some(["Ctrl", "Shift", "S"])
  {
    var tokens := ["ctrl", "shift", "s"];
    JoinThree("ctrl", "shift", "s", "+");
    assert Join(tokens, "+") == code;
    PrettyPartsOfJoin(tokens);
    TitleCaseEachThree("ctrl", "shift", "s");
    assert TitleCase("ctrl") == "Ctrl" && TitleCase("shift") == "Shift" && TitleCase("s") == "S";
  }

  /** "ctrl+shift+s" off the Mac reads "Ctrl + Shift + S". */
  lemma NonMacExample(w: Window, code: string)
    requires w.navigator.platform == "Win32" && code == "ctrl+shift+s"
    ensures Format(w, code) == Returns("Ctrl + Shift + S")
  {
    assert !IsMac(w) by {
      assert w.navigator.platform[..3][0] == 'W';
    }
    NonMacParts(code);
    NonMacHint(["Ctrl", "Shift", "S"]);
  }

  lemma NonMacHint(parts: seq<string>)
    requires parts == ["Ctrl", "Shift", "S"]
    ensures Join(parts, " + ") == "Ctrl + Shift + S"
  {
    JoinThree("Ctrl", "Shift", "S", " + ");
  }

  /** A keyword that does not occur in `key` and whose first character is not
      among `pre`'s characters from `from` on occurs in `pre + key` at no
      position from `from` on. */
  lemma NoOccurrenceFrom(pre: string, key: string, k: string, from: nat)
    requires |k| > 0 && !Contains(key, k)
    requires forall j :: from <= j < |pre| ==> pre[j] != k[0]
    ensures forall j :: from <= j ==> !OccursAt(pre + key, k, j)
  {
    var s := pre + key;
    forall j | from <= j && j + |k| <= |s| ensures !OccursAt(s, k, j) {
      if j < |pre| {
        assert s[j..j + |k|][0] == pre[j];
      } else {
        assert s[j..j + |k|] == key[j - |pre|..j - |pre| + |k|];
        assert !OccursAt(key, k, j - |pre|);
      }
    }
  }

  /** The rewrite of `pre + key` where `pre` ends with the keyword and that
      is its last occurrence: the keyword goes, the glyph comes first. */
  lemma ReplaceAfterPrefix(pre: string, key: string, k: string, glyph: char)
    requires |k| > 0 && SingleLine(k) && SingleLine(pre) && SingleLine(key)
    requires |pre| >= |k| && pre[|pre| - |k|..] == k
    requires forall j :: |pre| - |k| < j < |pre| ==> pre[j] != k[0]
    requires !Contains(key, k)
    ensures Replace(pre + key, k, glyph) == [glyph, ThinSpace] + pre[..|pre| - |k|] + key
  {
    var s := pre + key;
    var i := |pre| - |k|;
    SingleLineConcat(pre, key);
    assert s[i..i + |k|] == pre[i..];
    NoOccurrenceFrom(pre, key, k, i + 1);
    ReplaceSingleLine(s, k, glyph, i);
    assert s[..i] == pre[..i] && s[i + |k|..] == key;
  }

  /** The rewrite of `pre + key` where neither part holds the keyword. */
  lemma ReplaceNowhere(pre: string, key: string, k: string, glyph: char)
    requires |k| > 0 && SingleLine(k) && !Contains(key, k)
    requires forall j :: 0 <= j < |pre| ==> pre[j] != k[0]
    ensures Replace(pre + key, k, glyph) == pre + key
  {
    NoOccurrenceFrom(pre, key, k, 0);
    ReplaceAbsent(pre + key, k, glyph);
  }

  /** No modifier keyword occurs in `key`. */
  predicate NoModifier(key: string)
  {
    !Contains(key, "Meta") && !Contains(key, "Shift") && !Contains(key, "Alt") && !Contains(key, "Ctrl")
  }

  /** The rewrite of `pre + k + key` when `k` does not occur in `key` and
      cannot overlap itself: that `k` is the last occurrence, so it goes and
      the glyph comes first. */
  lemma ReplaceKeyword(pre: string, k: string, key: string, glyph: char)
    requires SingleLine(k) && HeadUnrepeated(k)
    requires SingleLine(pre) && SingleLine(key) && !Contains(key, k)
    ensures Replace(pre + k + key, k, glyph) == [glyph, ThinSpace] + pre + key
  {
    var p := pre + k;
    assert p[|p| - |k|..] == k;
    assert forall j :: |p| - |k| < j < |p| ==> p[j] == k[j - |pre|];
    SingleLineConcat(pre, k);
    ReplaceAfterPrefix(p, key, k, glyph);
    assert p[..|p| - |k|] == pre;
  }

  lemma SingleLineConcat(a: string, b: string)
    requires SingleLine(a) && SingleLine(b)
    ensures SingleLine(a + b)
  {
    forall i | |a| <= i < |a + b| ensures !IsLineTerminator((a + b)[i]) {
      assert (a + b)[i] == b[i - |a|];
    }
  }

  /** "Meta" followed by a key: the command glyph, a thin space, the key. */
  lemma MacHintCommand(parts: seq<string>, key: string)
    requires parts == ["Meta", key]
    requires SingleLine(key) && NoModifier(key)
    ensures MacHint(parts) == [CommandGlyph, ThinSpace] + key
  {
    Keywords();
    var m := parts[0];
    assert parts[1..] == [key];
    assert Join(parts, "") == m + key;
    assert "" + m + key == m + key;
    ReplaceKeyword("", m, key, CommandGlyph);
    var pre := [CommandGlyph, ThinSpace];
    assert [CommandGlyph, ThinSpace] + "" + key == pre + key;
    CommandPrefix(pre);
    ReplaceNowhere(pre, key, "Shift", ShiftGlyph);
    ReplaceNowhere(pre, key, "Alt", OptionGlyph);
    ReplaceNowhere(pre, key, "Ctrl", ControlGlyph);
  }

  /** The command glyph and its thin space start none of the later keywords. */
  lemma CommandPrefix(pre: string)
    requires pre == [CommandGlyph, ThinSpace]
    ensures forall j :: 0 <= j < |pre| ==> pre[j] != "Shift"[0] && pre[j] != "Alt"[0] && pre[j] != "Ctrl"[0]
  {
  }

  lemma JoinModifiers(parts: seq<string>, key: string)
    requires |parts| == 5 && parts[4] == key
    ensures Join(parts, "") == parts[0] + parts[1] + parts[2] + parts[3] + key
  {
    var c, a, s, m := parts[0], parts[1], parts[2], parts[3];
    assert parts[1..][1..][1..][1..] == [key];
    JoinRunTogether(parts[1..][1..][1..]);
    JoinRunTogether(parts[1..][1..]);
    JoinRunTogether(parts[1..]);
    JoinRunTogether(parts);
    Assoc5(c, a, s, m, key);
  }

  /** With an empty separator, a join is the first part followed by the join of the rest. */
  lemma JoinRunTogether(parts: seq<string>)
    requires |parts| >= 2
    ensures Join(parts, "") == parts[0] + Join(parts[1..], "")
  {
  }

  lemma Assoc5(c: string, a: string, s: string, m: string, key: string)
    ensures c + (a + (s + (m + key))) == c + a + s + m + key
  {
  }

  /** The rewrite of `glyphs + (pre + k) + key`: as `ReplaceKeyword`, with the
      text before `k` given in two pieces. */
  lemma ReplaceKeywordAfter(glyphs: string, pre: string, k: string, key: string, glyph: char)
    requires SingleLine(glyphs) && SingleLine(pre)
    requires SingleLine(k) && HeadUnrepeated(k)
    requires SingleLine(key) && !Contains(key, k)
    ensures Replace(glyphs + (pre + k) + key, k, glyph) == [glyph, ThinSpace] + glyphs + pre + key
  {
    SingleLineConcat(glyphs, pre);
    Regroup(glyphs, pre, k, key);
    ReplaceKeyword(glyphs + pre, k, key, glyph);
  }

  lemma Regroup(glyphs: string, pre: string, k: string, key: string)
    ensures glyphs + (pre + k) + key == glyphs + pre + k + key
  {
  }

  /** The Meta and Shift rewrites of `c + a + s + m + key`. */
  lemma ReplaceMetaShift(c: string, a: string, s: string, m: string, key: string)
    requires SingleLine(c) && SingleLine(a) && SingleLine(key)
    requires SingleLine(s) && HeadUnrepeated(s) && !Contains(key, s)
    requires SingleLine(m) && HeadUnrepeated(m) && !Contains(key, m)
    ensures Replace(Replace(c + a + s + m + key, m, CommandGlyph), s, ShiftGlyph) ==
            [ShiftGlyph, ThinSpace] + [CommandGlyph, ThinSpace] + (c + a) + key
  {
    var g1: string := [CommandGlyph, ThinSpace];
    SingleLineConcat(c, a);
    SingleLineConcat(c + a, s);
    ReplaceKeyword(c + a + s, m, key, CommandGlyph);
    ReplaceKeywordAfter(g1, c + a, s, key, ShiftGlyph);
  }

  /** The Alt and Ctrl rewrites of what the Meta and Shift rewrites left. */
  lemma ReplaceAltCtrl(glyphs: string, c: string, a: string, key: string)
    requires SingleLine(glyphs) && SingleLine(key)
    requires SingleLine(a) && HeadUnrepeated(a) && !Contains(key, a)
    requires SingleLine(c) && HeadUnrepeated(c) && !Contains(key, c)
    ensures Replace(Replace(glyphs + (c + a) + key, a, OptionGlyph), c, ControlGlyph) ==
            [ControlGlyph, ThinSpace] + ([OptionGlyph, ThinSpace] + glyphs) + key
  {
    ReplaceKeywordAfter(glyphs, c, a, key, OptionGlyph);
    var g3: string := [OptionGlyph, ThinSpace];
    SingleLineConcat(g3, glyphs);
    ReplaceKeyword(g3 + glyphs, c, key, ControlGlyph);
  }

  /** "Ctrl", "Alt", "Shift", "Meta" followed by a key: the rewrites, applied
      in the order Meta, Shift, Alt, Ctrl, each put their glyph in front, so
      the glyphs read ⌃ ⌥ ⇧ ⌘ — the order of the tokens. */
  lemma MacHintStacking(parts: seq<string>, key: string)
    requires parts == ["Ctrl", "Alt", "Shift", "Meta", key]
    requires SingleLine(key) && NoModifier(key)
    ensures MacHint(parts) ==
            [ControlGlyph, ThinSpace, OptionGlyph, ThinSpace, ShiftGlyph, ThinSpace, CommandGlyph, ThinSpace] + key
  {
    Keywords();
    var c, a, s, m := parts[0], parts[1], parts[2], parts[3];
    JoinModifiers(parts, key);
    assert MacHint(parts) ==
           Replace(Replace(Replace(Replace(c + a + s + m + key, m, CommandGlyph), s, ShiftGlyph), a, OptionGlyph), c, ControlGlyph);
    ReplaceMetaShift(c, a, s, m, key);
    var glyphs: string := [ShiftGlyph, ThinSpace] + [CommandGlyph, ThinSpace];
    GlyphOrder(glyphs);
    ReplaceAltCtrl(glyphs, c, a, key);
  }

  lemma GlyphOrder(glyphs: string)
    requires glyphs == [ShiftGlyph, ThinSpace] + [CommandGlyph, ThinSpace]
    ensures SingleLine(glyphs)
    ensures [ControlGlyph, ThinSpace] + ([OptionGlyph, ThinSpace] + glyphs) ==
            [ControlGlyph, ThinSpace, OptionGlyph, ThinSpace, ShiftGlyph, ThinSpace, CommandGlyph, ThinSpace]
  {
  }

  /** Two occurrences of keywords whose first letters occur only at their
      own heads do not overlap. */
  lemma NoOverlap(s: string, k: string, k2: string, i: int, p: int)
    requires |k| > 0 && |k2| > 0 && k[0] !in k2 && k2[0] !in k
    requires OccursAt(s, k, i) && OccursAt(s, k2, p)
    ensures p + |k2| <= i || i + |k| <= p
  {
    assert forall x :: i <= x < i + |k| ==> s[x] == s[i..i + |k|][x - i];
    assert forall x :: p <= x < p + |k2| ==> s[x] == s[p..p + |k2|][x - p];
  }

  /** A rewrite for `k` keeps every other keyword `k2` that cannot overlap it. */
  lemma ReplaceKeepsOther(s: string, k: string, glyph: char, k2: string)
    requires SingleLine(s) && SingleLine(k) && |k| > 0 && |k2| > 0
    requires k[0] !in k2 && k2[0] !in k
    requires Contains(s, k2)
    ensures Contains(Replace(s, k, glyph), k2)
  {
    if !Contains(s, k) {
      ReplaceAbsent(s, k, glyph);
    } else {
      var i := LastIndexOf(s, k).value;
      CutKeepsOther(s, k, glyph, k2, i);
      ReplaceSingleLine(s, k, glyph, i);
    }
  }

  /** Cutting an occurrence of `k` keeps every occurrence of `k2`. */
  lemma CutKeepsOther(s: string, k: string, glyph: char, k2: string, i: nat)
    requires |k| > 0 && |k2| > 0 && k[0] !in k2 && k2[0] !in k
    requires OccursAt(s, k, i) && Contains(s, k2)
    ensures Contains([glyph, ThinSpace] + s[..i] + s[i + |k|..], k2)
  {
    var p :| 0 <= p <= |s| && OccursAt(s, k2, p);
    NoOverlap(s, k, k2, i, p);
    CutKeeps(s, glyph, i, |k|, k2, p);
  }

  /** A piece of `s` that ends before the cut `[i, i + m)` is found two
      places later once the cut is replaced by two characters in front. */
  lemma SliceBeforeCut(s: string, glyph: char, i: nat, m: nat, p: nat, len: nat)
    requires i + m <= |s| && p + len <= i
    ensures var r := [glyph, ThinSpace] + s[..i] + s[i + m..];
            p + 2 + len <= |r| && r[p + 2..p + 2 + len] == s[p..p + len]
  {
    var r := [glyph, ThinSpace] + s[..i] + s[i + m..];
    assert forall y :: p <= y < p + len ==> r[y + 2] == s[y];
  }

  /** A piece of `s` that starts after the cut `[i, i + m)` moves by 2 - m. */
  lemma SliceAfterCut(s: string, glyph: char, i: nat, m: nat, p: nat, len: nat)
    requires i + m <= p && p + len <= |s|
    ensures var r := [glyph, ThinSpace] + s[..i] + s[i + m..];
            0 <= p + 2 - m && p + 2 - m + len <= |r| && r[p + 2 - m..p + 2 - m + len] == s[p..p + len]
  {
    var r := [glyph, ThinSpace] + s[..i] + s[i + m..];
    assert forall y :: p <= y < p + len ==> r[y + 2 - m] == s[y];
  }

  /** Cutting `[i, i + m)` out of `s` and putting two characters in front
      keeps an occurrence of `k2` that lies wholly before or after the cut. */
  lemma CutKeeps(s: string, glyph: char, i: nat, m: nat, k2: string, p: nat)
    requires i + m <= |s| && OccursAt(s, k2, p)
    requires p + |k2| <= i || i + m <= p
    ensures Contains([glyph, ThinSpace] + s[..i] + s[i + m..], k2)
  {
    var r := [glyph, ThinSpace] + s[..i] + s[i + m..];
    if p + |k2| <= i {
      SliceBeforeCut(s, glyph, i, m, p, |k2|);
      assert OccursAt(r, k2, p + 2);
    } else {
      SliceAfterCut(s, glyph, i, m, p, |k2|);
      assert OccursAt(r, k2, p + 2 - m);
    }
  }

  /** Cutting `[i, i + len)` out of a line and putting a glyph and a thin
      space in front gives a line two characters longer than what is left,
      which starts with the glyph, the thin space and the text before `m`. */
  lemma CutShape(s: string, glyph: char, i: nat, len: nat, m: nat)
    requires SingleLine(s) && !IsLineTerminator(glyph) && i + len <= |s| && m <= i
    ensures var r := [glyph, ThinSpace] + s[..i] + s[i + len..];
            SingleLine(r) && |r| == |s| + 2 - len && r[..m + 2] == [glyph, ThinSpace] + s[..m]
  {
    var r := [glyph, ThinSpace] + s[..i] + s[i + len..];
    assert forall x :: 2 <= x < i + 2 ==> r[x] == s[x - 2];
    assert forall x :: i + 2 <= x < |r| ==> r[x] == s[x - 2 + len];
    assert r[..m + 2] == [glyph, ThinSpace] + s[..m];
  }

  /** One rewrite of a line that holds `k`, where `k`'s first letter does
      not occur before `m`: the result is still one line, |k| - 2 shorter,
      and starts with the glyph, a thin space and the first `m` characters. */
  lemma RewriteStage(s: string, k: string, glyph: char, m: nat)
    requires SingleLine(s) && SingleLine(k) && |k| > 0 && Contains(s, k) && !IsLineTerminator(glyph)
    requires m <= |s| && forall j :: 0 <= j < m ==> s[j] != k[0]
    ensures var r := Replace(s, k, glyph);
            SingleLine(r) && |r| == |s| + 2 - |k| && |r| >= m + 2 && r[..m + 2] == [glyph, ThinSpace] + s[..m]
  {
    var i := LastIndexOf(s, k).value;
    StageShape(s, k, glyph, m, i);
    ReplaceSingleLine(s, k, glyph, i);
  }

  lemma StageShape(s: string, k: string, glyph: char, m: nat, i: nat)
    requires SingleLine(s) && |k| > 0 && OccursAt(s, k, i) && !IsLineTerminator(glyph)
    requires m <= |s| && forall j :: 0 <= j < m ==> s[j] != k[0]
    ensures var r := [glyph, ThinSpace] + s[..i] + s[i + |k|..];
            SingleLine(r) && |r| == |s| + 2 - |k| && |r| >= m + 2 && r[..m + 2] == [glyph, ThinSpace] + s[..m]
  {
    assert s[i] == s[i..i + |k|][0];
    CutShape(s, glyph, i, |k|, m);
  }

  /** The first letters of the four keywords occur in no other keyword. */
  lemma KeywordInitials()
    ensures "Meta"[0] !in "Shift" && "Meta"[0] !in "Alt" && "Meta"[0] !in "Ctrl"
    ensures "Shift"[0] !in "Meta" && "Shift"[0] !in "Alt" && "Shift"[0] !in "Ctrl"
    ensures "Alt"[0] !in "Meta" && "Alt"[0] !in "Shift" && "Alt"[0] !in "Ctrl"
    ensures "Ctrl"[0] !in "Meta" && "Ctrl"[0] !in "Shift" && "Ctrl"[0] !in "Alt"
  {
  }

  /** A string that starts with `pre` has no `c` before |pre| when `pre` has none. */
  lemma PrefixAvoids(s: string, pre: string, c: char)
    requires |pre| <= |s| && s[..|pre|] == pre && c !in pre
    ensures forall j :: 0 <= j < |pre| ==> s[j] != c
  {
    assert forall j :: 0 <= j < |pre| ==> s[j] == pre[j];
  }

  /** Whatever order the modifiers come in, a one-line code that names all
      four gets the glyphs ⌃ ⌥ ⇧ ⌘ at its front, each followed by a thin
      space: every rewrite puts its glyph in front of those already placed,
      rather than where its keyword stood. The four keywords go, so the hint
      is eight characters shorter than the tokens run together. */
  lemma MacHintFront(parts: seq<string>)
    requires var joined := Join(parts, "");
             SingleLine(joined) && Contains(joined, "Meta") && Contains(joined, "Shift") &&
             Contains(joined, "Alt") && Contains(joined, "Ctrl")
    ensures |MacHint(parts)| == |Join(parts, "")| - 8 >= 8
    ensures MacHint(parts)[..8] ==
            [ControlGlyph, ThinSpace, OptionGlyph, ThinSpace, ShiftGlyph, ThinSpace, CommandGlyph, ThinSpace]
  {
    Keywords();
    var j0 := Join(parts, "");
    var j1 := Replace(j0, "Meta", CommandGlyph);
    MetaStage(j0);
    var j2 := Replace(j1, "Shift", ShiftGlyph);
    ShiftStage(j1);
    var j3 := Replace(j2, "Alt", OptionGlyph);
    AltStage(j2);
    var j4 := Replace(j3, "Ctrl", ControlGlyph);
    CtrlStage(j3);
    assert MacHint(parts) == j4;
  }

  /** The Meta rewrite of a line holding all four keywords. */
  lemma MetaStage(j0: string)
    requires SingleLine(j0) && Contains(j0, "Meta") && Contains(j0, "Shift") &&
             Contains(j0, "Alt") && Contains(j0, "Ctrl")
    ensures var j1 := Replace(j0, "Meta", CommandGlyph);
            SingleLine(j1) && |j1| == |j0| - 2 && |j1| >= 2 && j1[..2] == [CommandGlyph, ThinSpace] &&
            Contains(j1, "Shift") && Contains(j1, "Alt") && Contains(j1, "Ctrl")
  {
    Keywords();
    KeywordInitials();
    ReplaceKeepsOther(j0, "Meta", CommandGlyph, "Shift");
    ReplaceKeepsOther(j0, "Meta", CommandGlyph, "Alt");
    ReplaceKeepsOther(j0, "Meta", CommandGlyph, "Ctrl");
    RewriteStage(j0, "Meta", CommandGlyph, 0);
  }

  /** The Shift rewrite of what the Meta rewrite left. */
  lemma ShiftStage(j1: string)
    requires SingleLine(j1) && |j1| >= 2 && j1[..2] == [CommandGlyph, ThinSpace]
    requires Contains(j1, "Shift") && Contains(j1, "Alt") && Contains(j1, "Ctrl")
    ensures var j2 := Replace(j1, "Shift", ShiftGlyph);
            SingleLine(j2) && |j2| == |j1| - 3 && |j2| >= 4 &&
            j2[..4] == [ShiftGlyph, ThinSpace, CommandGlyph, ThinSpace] &&
            Contains(j2, "Alt") && Contains(j2, "Ctrl")
  {
    Keywords();
    KeywordInitials();
    PrefixAvoids(j1, [CommandGlyph, ThinSpace], 'S');
    ReplaceKeepsOther(j1, "Shift", ShiftGlyph, "Alt");
    ReplaceKeepsOther(j1, "Shift", ShiftGlyph, "Ctrl");
    RewriteStage(j1, "Shift", ShiftGlyph, 2);
  }

  /** The Alt rewrite of what the Meta and Shift rewrites left. */
  lemma AltStage(j2: string)
    requires SingleLine(j2) && |j2| >= 4 && j2[..4] == [ShiftGlyph, ThinSpace, CommandGlyph, ThinSpace]
    requires Contains(j2, "Alt") && Contains(j2, "Ctrl")
    ensures var j3 := Replace(j2, "Alt", OptionGlyph);
            SingleLine(j3) && |j3| == |j2| - 1 && |j3| >= 6 &&
            j3[..6] == [OptionGlyph, ThinSpace, ShiftGlyph, ThinSpace, CommandGlyph, ThinSpace] &&
            Contains(j3, "Ctrl")
  {
    Keywords();
    KeywordInitials();
    PrefixAvoids(j2, [ShiftGlyph, ThinSpace, CommandGlyph, ThinSpace], 'A');
    ReplaceKeepsOther(j2, "Alt", OptionGlyph, "Ctrl");
    RewriteStage(j2, "Alt", OptionGlyph, 4);
  }

  /** The Ctrl rewrite, last of the four. */
  lemma CtrlStage(j3: string)
    requires SingleLine(j3) && |j3| >= 6
    requires j3[..6] == [OptionGlyph, ThinSpace, ShiftGlyph, ThinSpace, CommandGlyph, ThinSpace]
    requires Contains(j3, "Ctrl")
    ensures var j4 := Replace(j3, "Ctrl", ControlGlyph);
            |j4| == |j3| - 2 && |j4| >= 8 &&
            j4[..8] == [ControlGlyph, ThinSpace, OptionGlyph, ThinSpace, ShiftGlyph, ThinSpace, CommandGlyph, ThinSpace]
  {
    Keywords();
    PrefixAvoids(j3, [OptionGlyph, ThinSpace, ShiftGlyph, ThinSpace, CommandGlyph, ThinSpace], 'C');
    RewriteStage(j3, "Ctrl", ControlGlyph, 6);
  }

  /** "MacIntel" is a Mac platform. */
  lemma MacIntelIsMac(w: Window)
    requires w.navigator.platform == "MacIntel"
    ensures IsMac(w)
  {
    assert w.navigator.platform[..3] == "Mac";
  }

  /** The key "S" is one line and names no modifier. */
  lemma PlainKey(key: string)
    requires key == "S"
    ensures SingleLine(key) && NoModifier(key)
  {
  }

  /** "meta+s" on a Mac reads ⌘, a thin space, S. */
  lemma MacExample(w: Window, code: string)
    requires w.navigator.platform == "MacIntel" && code == "meta+s"
    ensures Format(w, code) == Returns([CommandGlyph, ThinSpace, 'S'])
  {
    MacIntelIsMac(w);
    CommandParts(code);
    CommandHint(PrettyParts(code).value);
  }

  /** The tokens of "meta+s", title-cased. */
  lemma CommandParts(code: string)
    requires code == "meta+s"
    ensures PrettyParts(code) == Some(["Meta", "S"])
  {
    var tokens := ["meta", "s"];
    assert Join(tokens, "+") == code;
    PrettyPartsOfJoin(tokens);
    TitleCaseEachTwo("meta", "s");
    assert TitleCase("meta") == "Meta" && TitleCase("s") == "S";
  }

  lemma CommandHint(parts: seq<string>)
    requires parts == ["Meta", "S"]
    ensures MacHint(parts) == [CommandGlyph, ThinSpace, 'S']
  {
    var key := "S";
    PlainKey(key);
    MacHintCommand(parts, key);
  }

  lemma StackingJoinTokens(tokens: seq<string>)
    requires tokens == ["ctrl", "alt", "shift", "meta", "s"]
    ensures Join(tokens, "+") == "ctrl+alt+shift+meta+s"
  {
    JoinThree("shift", "meta", "s", "+");
    assert tokens[2..] == ["shift", "meta", "s"];
    assert Join(tokens[1..], "+") == "alt+" + Join(tokens[2..], "+");
    assert Join(tokens, "+") == "ctrl+" + Join(tokens[1..], "+");
  }

  lemma StackingTitleCase(tokens: seq<string>)
    requires tokens == ["ctrl", "alt", "shift", "meta", "s"]
    ensures TitleCaseEach(tokens) == ["Ctrl", "Alt", "Shift", "Meta", "S"]
  {
    TitleCaseEachTwo("meta", "s");
    TitleCaseEachThree("shift", "meta", "s");
    assert tokens[2..] == ["shift", "meta", "s"];
    assert tokens[1..][1..] == tokens[2..];
    assert TitleCase("ctrl") == "Ctrl" && TitleCase("alt") == "Alt" && TitleCase("shift") == "Shift";
    assert TitleCase("meta") == "Meta" && TitleCase("s") == "S";
  }

  /** The tokens of "ctrl+alt+shift+meta+s", title-cased. */
  lemma StackingParts(code: string)
    requires code == "ctrl+alt+shift+meta+s"
    ensures PrettyParts(code) == Some(["Ctrl", "Alt", "Shift", "Meta", "S"])
  {
    var tokens := ["ctrl", "alt", "shift", "meta", "s"];
    StackingJoinTokens(tokens);
    PrettyPartsOfJoin(tokens);
    StackingTitleCase(tokens);
  }

  lemma StackingHint(parts: seq<string>)
    requires parts == ["Ctrl", "Alt", "Shift", "Meta", "S"]
    ensures MacHint(parts) == [ControlGlyph, ThinSpace, OptionGlyph, ThinSpace, ShiftGlyph, ThinSpace, CommandGlyph, ThinSpace, 'S']
  {
    var key := "S";
    PlainKey(key);
    MacHintStacking(parts, key);
  }

  lemma StackingFormat(w: Window, code: string)
    requires IsMac(w) && PrettyParts(code) == Some(["Ctrl", "Alt", "Shift", "Meta", "S"])
    ensures Format(w, code) == Returns([ControlGlyph, ThinSpace, OptionGlyph, ThinSpace, ShiftGlyph, ThinSpace, CommandGlyph, ThinSpace, 'S'])
  {
    StackingHint(PrettyParts(code).value);
  }

  /** "ctrl+alt+shift+meta+s" on a Mac reads ⌃ ⌥ ⇧ ⌘ S, each glyph followed
      by a thin space. */
  lemma MacStackingExample(w: Window, code: string)
    requires w.navigator.platform == "MacIntel" && code == "ctrl+alt+shift+meta+s"
    ensures Format(w, code) ==
            Returns([ControlGlyph, ThinSpace, OptionGlyph, ThinSpace, ShiftGlyph, ThinSpace, CommandGlyph, ThinSpace, 'S'])
  {
    MacIntelIsMac(w);
    StackingParts(code);
    StackingFormat(w, code);
  }
}
