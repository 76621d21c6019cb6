/** The handful of Python `str` operations the system's parsers are built from:
    `strip`, `startswith`, `in`, `split(sep, 1)`, `split(sep)`, `splitlines`
    and `replace`, each with the semantics CPython gives it. */
module Strings {

  import opened Wrappers

  /** `str.isspace` for one character: the characters CPython's `str.strip()`
      removes when called without arguments. */
  predicate IsSpace(c: char) {
    var n := c as int;
    n == 0x20 || 0x09 <= n <= 0x0D || 0x1C <= n <= 0x1F || n == 0x85 || n == 0xA0
    || n == 0x1680 || 0x2000 <= n <= 0x200A || n == 0x2028 || n == 0x2029
    || n == 0x202F || n == 0x205F || n == 0x3000
  }

  /** The characters at which `str.splitlines` ends a line ("\r\n" counts once). */
  predicate IsLineBreak(c: char) {
    var n := c as int;
    0x0A <= n <= 0x0D || 0x1C <= n <= 0x1E || n == 0x85 || n == 0x2028 || n == 0x2029
  }

  /** Number of leading characters of `s` satisfying `p`. */
  function LeadCount(s: string, p: char -> bool): (n: nat)
    ensures n <= |s|
    ensures forall k :: 0 <= k < n ==> p(s[k])
    ensures n < |s| ==> !p(s[n])
  {
    if |s| > 0 && p(s[0]) then 1 + LeadCount(s[1..], p) else 0
  }

  /** Number of trailing characters of `s` satisfying `p`. */
  function TrailCount(s: string, p: char -> bool): (n: nat)
    ensures n <= |s|
    ensures forall k :: |s| - n <= k < |s| ==> p(s[k])
    ensures n < |s| ==> !p(s[|s| - 1 - n])
  {
    if |s| > 0 && p(s[|s| - 1]) then 1 + TrailCount(s[..|s| - 1], p) else 0
  }

  /** `s.strip(chars)`: the longest infix of `s` obtained by removing
      characters satisfying `p` from both ends. */
  function StripBy(s: string, p: char -> bool): (r: string)
    ensures |r| <= |s|
    ensures r == [] || (!p(r[0]) && !p(r[|r| - 1]))
    ensures LeadCount(s, p) + |r| <= |s| && r == s[LeadCount(s, p)..LeadCount(s, p) + |r|]
    ensures forall k :: LeadCount(s, p) + |r| <= k < |s| ==> p(s[k])
    ensures r == [] <==> forall k :: 0 <= k < |s| ==> p(s[k])
  {
    var l := LeadCount(s, p);
    var t := TrailCount(s[l..], p);
    assert forall k :: l + (|s| - l - t) <= k < |s| ==> s[k] == s[l..][k - l];
    s[l..|s| - t]
  }

  /** Stripping removes only characters satisfying `p`: any other character
      is in the result exactly when it is in `s`. */
  lemma StripByKeeps(s: string, p: char -> bool, c: char)
    requires !p(c)
    ensures c in StripBy(s, p) <==> c in s
  {
    var r, l := StripBy(s, p), LeadCount(s, p);
    if c in s {
      var k :| 0 <= k < |s| && s[k] == c;
      assert l <= k < l + |r|;
      assert r[k - l] == c;
    }
  }

  /** Stripping adds no character: the result is an infix of `s`. */
  lemma StripBySubset(s: string, p: char -> bool, c: char)
    requires c !in s
    ensures c !in StripBy(s, p)
  {
    var r, l := StripBy(s, p), LeadCount(s, p);
    assert forall k :: 0 <= k < |r| ==> r[k] == s[l + k];
  }

  /** A character absent from `s` is absent from every suffix of it. */
  lemma AbsentFromSuffix(s: string, i: nat, c: char)
    requires i <= |s| && c !in s
    ensures c !in s[i..]
  {
    assert forall k :: 0 <= k < |s| - i ==> s[i..][k] == s[i + k];
  }

  /** `s.strip()`. */
  function Strip(s: string): string {
    StripBy(s, IsSpace)
  }

  /** A string with nothing to strip is left as it is. */
  lemma StripByNoop(s: string, p: char -> bool)
    requires s == [] || (!p(s[0]) && !p(s[|s| - 1]))
    ensures StripBy(s, p) == s
  {
    if s != [] {
      assert LeadCount(s, p) == 0;
      assert TrailCount(s, p) == 0;
    }
  }

  /** Stripping twice is stripping once. */
  lemma StripByIdempotent(s: string, p: char -> bool)
    ensures StripBy(StripBy(s, p), p) == StripBy(s, p)
  {
    StripByNoop(StripBy(s, p), p);
  }

  lemma StripIdempotent(s: string)
    ensures Strip(Strip(s)) == Strip(s)
  {
    StripByIdempotent(s, IsSpace);
  }

  /** `s.startswith(prefix)`. */
  predicate StartsWith(s: string, prefix: string) {
    |prefix| <= |s| && s[..|prefix|] == prefix
  }

  /** `pat` occurs in `s` starting at index `i`. */
  predicate OccursAt(s: string, pat: string, i: nat) {
    i + |pat| <= |s| && s[i..i + |pat|] == pat
  }

  /** `pat in s`. */
  predicate Contains(s: string, pat: string) {
    exists i: nat :: i <= |s| && OccursAt(s, pat, i)
  }

  /** An occurrence after the first index is an occurrence in the tail. */
  lemma OccursShift(s: string, pat: string, j: nat)
    requires 0 < j && |s| > 0
    ensures OccursAt(s, pat, j) <==> OccursAt(s[1..], pat, j - 1)
  {
    if j + |pat| <= |s| {
      assert s[1..][j - 1..j - 1 + |pat|] == s[j..j + |pat|];
    }
  }

  /** `s.find(pat)`, as an option: the first index at which `pat` occurs. */
  function FindFirst(s: string, pat: string): (r: Option<nat>)
    ensures r.Some? ==> OccursAt(s, pat, r.value)
    ensures r.Some? ==> forall j: nat :: j < r.value ==> !OccursAt(s, pat, j)
    ensures r.None? <==> !Contains(s, pat)
    decreases |s|
  {
    if |s| < |pat| then None
    else if s[..|pat|] == pat then
      assert OccursAt(s, pat, 0);
      Some(0)
    else
      assert !OccursAt(s, pat, 0);
      assert forall j: nat :: 0 < j ==> (OccursAt(s, pat, j) <==> OccursAt(s[1..], pat, j - 1)) by {
        forall j: nat | 0 < j {
          OccursShift(s, pat, j);
        }
      }
      match FindFirst(s[1..], pat)
      case None =>
        assert forall j: nat :: !OccursAt(s, pat, j) by {
          forall j: nat ensures !OccursAt(s, pat, j) {
            if 0 < j <= |s| {
              assert !OccursAt(s[1..], pat, j - 1);
            }
          }
        }
        None
      case Some(i) =>
        assert OccursAt(s, pat, i + 1);
        assert i + 1 <= |s|;
        Some(i + 1)
  }

  /** `s.split(sep, 1)` when it yields two parts: the text before the first
      occurrence of `sep` and everything after it; `None` when `sep` does not
      occur (Python then yields one part). */
  function SplitOnce(s: string, sep: string): (r: Option<(string, string)>)
    requires |sep| > 0
    ensures r.None? <==> !Contains(s, sep)
    ensures r.Some? ==> s == r.value.0 + sep + r.value.1
    ensures r.Some? ==> !Contains(r.value.0, sep)
    ensures r.Some? ==> forall j: nat :: j < |r.value.0| ==> !OccursAt(s, sep, j)
  {
    match FindFirst(s, sep)
    case None => None
    case Some(i) =>
      var before, after := s[..i], s[i + |sep|..];
      assert s == before + sep + after by {
        assert s == s[..i] + s[i..i + |sep|] + s[i + |sep|..];
      }
      assert !Contains(before, sep) by {
        forall j: nat | OccursAt(before, sep, j) ensures false {
          assert j < i;
          assert before[j..j + |sep|] == s[j..j + |sep|];
          assert OccursAt(s, sep, j);
        }
      }
      Some((before, after))
  }

  /** The first index in `s` of a character satisfying `p`, or `|s|`. */
  function FirstWhere(s: string, p: char -> bool): (i: nat)
    ensures i <= |s|
    ensures forall k :: 0 <= k < i ==> !p(s[k])
    ensures i < |s| ==> p(s[i])
  {
    if |s| == 0 || p(s[0]) then 0 else 1 + FirstWhere(s[1..], p)
  }

  /** The first index of `c` in `s`, or `|s|`. */
  function IndexOf(s: string, c: char): (i: nat)
    ensures i <= |s|
    ensures c !in s[..i]
    ensures i < |s| ==> s[i] == c
  {
    if |s| == 0 || s[0] == c then 0
    else
      var i := 1 + IndexOf(s[1..], c);
      assert s[..i] == [s[0]] + s[1..][..i - 1];
      i
  }

  /** Joins `parts` with the separator `sep` between consecutive parts. */
  function JoinWith(parts: seq<string>, sep: char): string {
    if |parts| == 0 then ""
    else if |parts| == 1 then parts[0]
    else parts[0] + [sep] + JoinWith(parts[1..], sep)
  }

  /** `s.split(sep)` for a one-character separator: the pieces between
      separators, which contain no separator and join back to `s`. */
  function SplitOn(s: string, sep: char): (parts: seq<string>)
    ensures |parts| >= 1
    ensures forall k :: 0 <= k < |parts| ==> sep !in parts[k]
    ensures JoinWith(parts, sep) == s
    ensures (|parts| == 1) <==> sep !in s
    decreases |s|
  {
    var i := IndexOf(s, sep);
    if i == |s| then
      assert s[..i] == s;
      [s]
    else
      var rest := SplitOn(s[i + 1..], sep);
      SplitOnStep(s, sep, i, rest);
      [s[..i]] + rest
  }

  /** One separator step of `SplitOn`: the text before the separator, then
      the pieces of the text after it. */
  lemma SplitOnStep(s: string, sep: char, i: nat, rest: seq<string>)
    requires i < |s| && s[i] == sep && sep !in s[..i]
    requires |rest| >= 1
    requires forall k :: 0 <= k < |rest| ==> sep !in rest[k]
    requires JoinWith(rest, sep) == s[i + 1..]
    ensures forall k :: 0 <= k < |[s[..i]] + rest| ==> sep !in ([s[..i]] + rest)[k]
    ensures JoinWith([s[..i]] + rest, sep) == s
  {
    var head := s[..i];
    var parts := [head] + rest;
    assert parts[1..] == rest;
    assert s == head + [sep] + s[i + 1..];
  }

  /** The first part of a split is the text before the first separator;
      the other parts are the split of the text after it. */
  lemma SplitOnFirst(s: string, sep: char)
    ensures SplitOn(s, sep)[0] == s[..IndexOf(s, sep)]
    ensures IndexOf(s, sep) < |s| ==> SplitOn(s, sep)[1..] == SplitOn(s[IndexOf(s, sep) + 1..], sep)
  {
    if IndexOf(s, sep) == |s| {
      assert s[..|s|] == s;
    }
  }

  /** `s.splitlines()`: the lines of `s` without their line breaks; a final
      line break does not start an empty line, and the empty string has no
      lines. */
  function SplitLines(s: string): (lines: seq<string>)
    ensures forall k, c :: 0 <= k < |lines| && c in lines[k] ==> !IsLineBreak(c)
    ensures lines == [] <==> s == []
    ensures s != [] ==> lines[0] == s[..FirstWhere(s, IsLineBreak)]
    decreases |s|
  {
    if s == [] then []
    else
      var i := FirstWhere(s, IsLineBreak);
      if i == |s| then [s]
      else
        var next := if s[i] == '\r' && i + 1 < |s| && s[i + 1] == '\n' then i + 2 else i + 1;
        [s[..i]] + SplitLines(s[next..])
  }

  /** The first index where `p` holds is the index before which it never does. */
  lemma FirstWhereAt(s: string, p: char -> bool, i: nat)
    requires i < |s| && p(s[i])
    requires forall k :: 0 <= k < i ==> !p(s[k])
    ensures FirstWhere(s, p) == i
  {
    var j := FirstWhere(s, p);
    assert j < |s| ==> p(s[j]);
  }

  /** A text without line breaks is one line. */
  lemma SplitLinesSingle(s: string)
    requires s != []
    requires forall c :: c in s ==> !IsLineBreak(c)
    ensures SplitLines(s) == [s]
  {
  }

  /** A line ended by a one-character break (a `\r` not followed by `\n`,
      or any other break) is followed by the lines of the rest. */
  lemma SplitLinesAtBreak(line: string, b: char, rest: string)
    requires forall c :: c in line ==> !IsLineBreak(c)
    requires IsLineBreak(b)
    requires b == '\r' ==> rest == [] || rest[0] != '\n'
    ensures SplitLines(line + [b] + rest) == [line] + SplitLines(rest)
  {
    var s := line + [b] + rest;
    forall k | 0 <= k < |line|
      ensures !IsLineBreak(s[k])
    {
      assert s[k] == line[k] && line[k] in line;
    }
    FirstWhereAt(s, IsLineBreak, |line|);
    assert s[..|line|] == line;
    assert s[|line| + 1..] == rest;
  }

  /** A line ended by `\r\n` is followed by the lines of the rest: the pair
      counts as one break. */
  lemma SplitLinesAtCrLf(line: string, rest: string)
    requires forall c :: c in line ==> !IsLineBreak(c)
    ensures SplitLines(line + "\r\n" + rest) == [line] + SplitLines(rest)
  {
    var s := line + "\r\n" + rest;
    forall k | 0 <= k < |line|
      ensures !IsLineBreak(s[k])
    {
      assert s[k] == line[k] && line[k] in line;
    }
    assert s[|line|] == '\r' && s[|line| + 1] == '\n';
    FirstWhereAt(s, IsLineBreak, |line|);
    assert s[..|line|] == line;
    assert s[|line| + 2..] == rest;
  }

  /** `s.replace(pat, rep)`: every non-overlapping occurrence of `pat`, scanned
      from the left, replaced by `rep`. */
  function ReplaceAll(s: string, pat: string, rep: string): string
    requires |pat| > 0
    decreases |s|
  {
    if |s| < |pat| then s
    else if s[..|pat|] == pat then rep + ReplaceAll(s[|pat|..], pat, rep)
    else [s[0]] + ReplaceAll(s[1..], pat, rep)
  }

  /** A string without an occurrence of `pat` is left as it is. */
  lemma {:induction false} ReplaceAbsent(s: string, pat: string, rep: string)
    requires |pat| > 0 && !Contains(s, pat)
    ensures ReplaceAll(s, pat, rep) == s
    decreases |s|
  {
    if |s| >= |pat| {
      assert !OccursAt(s, pat, 0);
      assert !Contains(s[1..], pat) by {
        forall j: nat | OccursAt(s[1..], pat, j) ensures false {
          assert s[1..][j..j + |pat|] == s[j + 1..j + 1 + |pat|];
          assert OccursAt(s, pat, j + 1);
        }
      }
      ReplaceAbsent(s[1..], pat, rep);
    }
  }

  /** When the only occurrence of `pat` in `s + pat` is the final one,
      replacing `pat` swaps just that suffix. */
  lemma {:induction false} ReplaceSuffix(s: string, pat: string, rep: string)
    requires |pat| > 0
    requires forall i: nat :: i < |s| ==> !OccursAt(s + pat, pat, i)
    ensures ReplaceAll(s + pat, pat, rep) == s + rep
    decreases |s|
  {
    if s == [] {
      assert s + pat == pat;
      assert ReplaceAll(pat[|pat|..], pat, rep) == [];
    } else {
      var u := s + pat;
      assert !OccursAt(u, pat, 0);
      assert u[1..] == s[1..] + pat;
      forall i: nat | i < |s[1..]| ensures !OccursAt(s[1..] + pat, pat, i) {
        assert (s[1..] + pat)[i..i + |pat|] == u[i + 1..i + 1 + |pat|];
        assert !OccursAt(u, pat, i + 1);
      }
      ReplaceSuffix(s[1..], pat, rep);
      assert [s[0]] + (s[1..] + rep) == s + rep;
    }
  }
}
