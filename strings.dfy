/** The JavaScript string primitives the core uses — `indexOf`, `includes`,
    `split`, `join`, `toUpperCase`/`toLowerCase` of one character — over `seq<char>`. */
module Strings {

  datatype Option<+T> = None | Some(value: T)

  /** `k` occurs in `s` starting at index `i`. */
  predicate OccursAt(s: string, k: string, i: int)
  {
    0 <= i && i + |k| <= |s| && s[i..i + |k|] == k
  }

  /** `s.includes(k)`. */
  predicate Contains(s: string, k: string)
  {
    exists i | 0 <= i <= |s| :: OccursAt(s, k, i)
  }

  lemma OccursAtShift(s: string, k: string, j: int)
    requires |s| > 0 && 0 <= j
    ensures OccursAt(s[1..], k, j) <==> OccursAt(s, k, j + 1)
  {
    if 0 <= j && j + |k| <= |s| - 1 {
      assert s[1..][j..j + |k|] == s[j + 1..j + 1 + |k|];
    }
  }

  lemma OccursAtPrefix(s: string, k: string, n: nat, j: int)
    requires n <= |s|
    requires j + |k| <= n
    ensures OccursAt(s[..n], k, j) <==> OccursAt(s, k, j)
  {
    if 0 <= j {
      assert s[..n][j..j + |k|] == s[j..j + |k|];
    }
  }

  /** Occurrences in a suffix are occurrences in the whole string, shifted. */
  lemma OccursAtDrop(s: string, k: string, m: nat, i: int)
    requires m <= |s| && m <= i
    ensures OccursAt(s[m..], k, i - m) <==> OccursAt(s, k, i)
  {
    if i + |k| <= |s| {
      assert s[m..][i - m..i - m + |k|] == s[i..i + |k|];
    }
  }

  /** `s.indexOf(k)`: the first index at which `k` occurs in `s`, or -1. */
  function IndexOf(s: string, k: string): (r: int)
    ensures r == -1 || OccursAt(s, k, r)
    ensures r == -1 <==> !Contains(s, k)
    ensures forall j :: 0 <= j < r ==> !OccursAt(s, k, j)
    decreases |s|
  {
    if |k| <= |s| && s[..|k|] == k then
      assert OccursAt(s, k, 0);
      0
    else if |s| == 0 then -1
    else
      var r := IndexOf(s[1..], k);
      assert forall j :: 0 <= j ==> (OccursAt(s[1..], k, j) <==> OccursAt(s, k, j + 1)) by {
        forall j | 0 <= j ensures OccursAt(s[1..], k, j) <==> OccursAt(s, k, j + 1) {
          OccursAtShift(s, k, j);
        }
      }
      assert !OccursAt(s, k, 0);
      if r == -1 then
        assert forall j :: !OccursAt(s, k, j) by {
          forall j ensures !OccursAt(s, k, j) {
            if 1 <= j { assert !OccursAt(s[1..], k, j - 1); }
          }
        }
        -1
      else
        assert OccursAt(s, k, r + 1);
        assert forall j :: 1 <= j < r + 1 ==> !OccursAt(s, k, j) by {
          forall j | 1 <= j < r + 1 ensures !OccursAt(s, k, j) {
            assert !OccursAt(s[1..], k, j - 1);
          }
        }
        r + 1
  }

  /** The last index at which `k` occurs in `s`, if any: where the greedy
      `(.*)` before `k` in a regular expression stops. */
  function LastIndexOf(s: string, k: string): (r: Option<nat>)
    ensures r.Some? ==> OccursAt(s, k, r.value)
    ensures r.Some? ==> forall j :: r.value < j ==> !OccursAt(s, k, j)
    ensures r.None? <==> !Contains(s, k)
    decreases |s|
  {
    if |k| <= |s| && s[|s| - |k|..] == k then
      assert OccursAt(s, k, |s| - |k|);
      Some(|s| - |k|)
    else if |s| == 0 then None
    else
      var r := LastIndexOf(s[..|s| - 1], k);
      assert forall j :: j + |k| <= |s| - 1 ==> (OccursAt(s[..|s| - 1], k, j) <==> OccursAt(s, k, j)) by {
        forall j | j + |k| <= |s| - 1 ensures OccursAt(s[..|s| - 1], k, j) <==> OccursAt(s, k, j) {
          OccursAtPrefix(s, k, |s| - 1, j);
        }
      }
      assert !OccursAt(s, k, |s| - |k|);
      if r.None? then
        assert forall j :: !OccursAt(s, k, j) by {
          forall j ensures !OccursAt(s, k, j) {
            if j + |k| <= |s| - 1 { assert !OccursAt(s[..|s| - 1], k, j); }
          }
        }
        r
      else
        assert OccursAt(s, k, r.value);
        r
  }

  /** ASCII `toUpperCase` of one character; every other character is kept. */
  function UpperChar(c: char): char
  {
    if 'a' <= c <= 'z' then (c as int - 32) as char else c
  }

  /** ASCII `toLowerCase` of one character; every other character is kept. */
  function LowerChar(c: char): char
  {
    if 'A' <= c <= 'Z' then (c as int + 32) as char else c
  }

  /** `s.toLowerCase()`, character by character: no ASCII capital is left. */
  function Lower(s: string): (r: string)
    ensures |r| == |s|
    ensures forall i :: 0 <= i < |s| ==> r[i] == LowerChar(s[i])
    ensures forall i :: 0 <= i < |r| ==> !('A' <= r[i] <= 'Z')
  {
    seq(|s|, i requires 0 <= i < |s| => LowerChar(s[i]))
  }

  /** `s.split(sep)` for a one-character separator: the maximal runs between
      separators, including the empty ones at either end and between two
      adjacent separators. */
  function Split(s: string, sep: char): (parts: seq<string>)
    ensures |parts| >= 1
    ensures forall i :: 0 <= i < |parts| ==> sep !in parts[i]
    decreases |s|
  {
    if |s| == 0 then [""]
    else
      var rest := Split(s[1..], sep);
      if s[0] == sep then [""] + rest
      else [[s[0]] + rest[0]] + rest[1..]
  }

  /** The sum of the lengths of `parts`. */
  function TotalLength(parts: seq<string>): nat
  {
    if |parts| == 0 then 0 else |parts[0]| + TotalLength(parts[1..])
  }

  /** `parts.join(sep)`: every part, with one separator between two neighbours. */
  function Join(parts: seq<string>, sep: string): string
  {
    if |parts| == 0 then ""
    else if |parts| == 1 then parts[0]
    else parts[0] + sep + Join(parts[1..], sep)
  }

  /** A join is as long as its parts together, plus one separator between
      each two neighbours. */
  lemma {:induction false} JoinLength(parts: seq<string>, sep: string)
    requires |parts| > 0
    ensures |Join(parts, sep)| == TotalLength(parts) + (|parts| - 1) * |sep|
  {
    if |parts| > 1 {
      JoinLength(parts[1..], sep);
    }
  }

  /** `s.split(sep)` for a separator string: cut at the first occurrence of
      `sep`, then go on after it. */
  function SplitOn(s: string, sep: string): (parts: seq<string>)
    requires |sep| > 0
    ensures |parts| >= 1
    decreases |s|
  {
    var i := IndexOf(s, sep);
    if i == -1 then [s] else [s[..i]] + SplitOn(s[i + |sep|..], sep)
  }

  /** Splitting on a character and joining with that character gives back the string. */
  lemma {:induction false} JoinSplit(s: string, sep: char)
    ensures Join(Split(s, sep), [sep]) == s
    decreases |s|
  {
    if |s| > 0 {
      var rest := Split(s[1..], sep);
      JoinSplit(s[1..], sep);
      if s[0] == sep {
        assert Split(s, sep) == [""] + rest;
        assert Join([""] + rest, [sep]) == "" + [sep] + Join(rest, [sep]);
        assert [s[0]] + s[1..] == s;
      } else {
        var parts := Split(s, sep);
        assert parts == [[s[0]] + rest[0]] + rest[1..];
        if |rest| == 1 {
          assert parts == [[s[0]] + rest[0]];
          assert Join(rest, [sep]) == rest[0];
        } else {
          assert parts[1..] == rest[1..];
          assert Join(rest, [sep]) == rest[0] + [sep] + Join(rest[1..], [sep]);
        }
        assert [s[0]] + s[1..] == s;
      }
    }
  }

  /** Joining separator-free parts with a character and splitting on it gives back the parts. */
  lemma {:induction false} SplitJoin(parts: seq<string>, sep: char)
    requires |parts| >= 1
    requires forall i :: 0 <= i < |parts| ==> sep !in parts[i]
    ensures Split(Join(parts, [sep]), sep) == parts
    decreases |parts|, |parts[0]|
  {
    var p := parts[0];
    if |p| == 0 {
      if |parts| == 1 {
        assert Join(parts, [sep]) == "";
      } else {
        var rest := Join(parts[1..], [sep]);
        assert Join(parts, [sep]) == [sep] + rest;
        assert ([sep] + rest)[1..] == rest;
        SplitJoin(parts[1..], sep);
        assert parts == [""] + parts[1..];
      }
    } else {
      var tail := [p[1..]] + parts[1..];
      NoSepInTail(parts, sep);
      SplitJoin(tail, sep);
      JoinFirstChar(parts, sep);
      var rest := Split(Join(tail, [sep]), sep);
      assert Split(Join(parts, [sep]), sep) == [[p[0]] + rest[0]] + rest[1..];
      HeadTail(p);
      HeadTail(parts);
    }
  }

  lemma NoSepInTail(parts: seq<string>, sep: char)
    requires |parts| >= 1 && |parts[0]| > 0
    requires forall i :: 0 <= i < |parts| ==> sep !in parts[i]
    ensures var tail := [parts[0][1..]] + parts[1..];
            forall i :: 0 <= i < |tail| ==> sep !in tail[i]
  {
    var p := parts[0];
    var tail := [p[1..]] + parts[1..];
    forall i | 0 <= i < |tail| ensures sep !in tail[i] {
      if i == 0 {
        assert forall c :: c in p[1..] ==> c in p;
      } else {
        assert tail[i] == parts[i];
      }
    }
  }

  /** Joining parts whose first part is non-empty starts with that part's
      first character, followed by the join with that character removed. */
  lemma JoinFirstChar(parts: seq<string>, sep: char)
    requires |parts| >= 1 && |parts[0]| > 0
    ensures var tail := [parts[0][1..]] + parts[1..];
            Join(parts, [sep]) == [parts[0][0]] + Join(tail, [sep])
  {
    var p := parts[0];
    var tail := [p[1..]] + parts[1..];
    assert tail[0] == p[1..] && tail[1..] == parts[1..];
    HeadTail(p);
    if |parts| > 1 {
      ConsAssoc(p[0], p[1..], [sep], Join(parts[1..], [sep]));
    }
  }

  lemma HeadTail<T>(p: seq<T>)
    requires |p| > 0
    ensures p == [p[0]] + p[1..]
  {
  }

  lemma ConsAssoc(c: char, x: string, y: string, z: string)
    ensures [c] + x + y + z == [c] + (x + y + z)
  {
  }

  /** In `p + " + " + rest` with no '+' in `p`, the first " + " is the one after `p`. */
  lemma IndexOfSpacedPlus(p: string, rest: string)
    requires '+' !in p
    ensures IndexOf(p + " + " + rest, " + ") == |p|
  {
    var s := p + " + " + rest;
    assert s[|p|..|p| + 3] == " + ";
    assert OccursAt(s, " + ", |p|);
    forall j | 0 <= j < |p| ensures !OccursAt(s, " + ", j) {
      assert s[j..j + 3][1] == s[j + 1];
      if j + 1 < |p| {
        assert s[j + 1] == p[j + 1] && p[j + 1] in p;
      } else {
        assert s[j + 1] == ' ';
      }
    }
  }

  /** A string without '+' holds no " + ". */
  lemma NoSpacedPlus(p: string)
    requires '+' !in p
    ensures IndexOf(p, " + ") == -1
  {
    forall j | 0 <= j && j + 3 <= |p| ensures !OccursAt(p, " + ", j) {
      assert p[j..j + 3][1] == p[j + 1] && p[j + 1] in p;
    }
  }

  /** Joining parts that contain no '+' with " + " and splitting on " + "
      gives back the parts: every " + " in the joined text is a separator. */
  lemma {:induction false} SplitOnJoinSpacedPlus(parts: seq<string>)
    requires |parts| >= 1
    requires forall i :: 0 <= i < |parts| ==> '+' !in parts[i]
    ensures SplitOn(Join(parts, " + "), " + ") == parts
    decreases |parts|
  {
    var p := parts[0];
    var s := Join(parts, " + ");
    if |parts| == 1 {
      NoSpacedPlus(p);
    } else {
      var rest := Join(parts[1..], " + ");
      assert s == p + " + " + rest;
      IndexOfSpacedPlus(p, rest);
      assert s[..|p|] == p;
      assert s[|p| + 3..] == rest;
      assert SplitOn(s, " + ") == [p] + SplitOn(rest, " + ");
      assert forall k :: 0 <= k < |parts[1..]| ==> '+' !in parts[1..][k] by {
        forall k | 0 <= k < |parts[1..]| ensures '+' !in parts[1..][k] {
          assert parts[1..][k] == parts[k + 1];
        }
      }
      SplitOnJoinSpacedPlus(parts[1..]);
      assert parts == [p] + parts[1..];
    }
  }
}
