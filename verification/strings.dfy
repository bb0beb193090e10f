/** Python string primitives used by the pipeline, restricted to ASCII:
    whitespace (`str.isspace`, the regex class `\s`), substring search (`in`,
    `re.search` on a literal), `strip`, `lower`, `split` on one character and
    `join`. */
module Strings {
  import opened Wrappers

  /** `str.isspace()` and `\s` on ASCII: tab, line feed, vertical tab, form
      feed, carriage return, the four information separators and space. */
  predicate IsSpace(c: char) {
    var n := c as int;
    (9 <= n <= 13) || (28 <= n <= 32)
  }

  predicate AllSpace(s: string) {
    forall i :: 0 <= i < |s| ==> IsSpace(s[i])
  }

  predicate NoSpace(s: string) {
    forall i :: 0 <= i < |s| ==> !IsSpace(s[i])
  }

  predicate StartsWith(s: string, p: string) {
    |p| <= |s| && s[..|p|] == p
  }

  predicate EndsWith(s: string, p: string) {
    |p| <= |s| && s[|s| - |p|..] == p
  }

  /** `t` occurs in `s` starting at index `i`. */
  predicate OccursAt(s: string, t: string, i: nat) {
    i + |t| <= |s| && s[i..i + |t|] == t
  }

  /** Python's `t in s` for strings. */
  predicate Contains(s: string, t: string) {
    exists i: nat | i <= |s| :: OccursAt(s, t, i)
  }

  /** The first occurrence of `t` in `s` at or after `from`. */
  function FindFrom(s: string, t: string, from: nat): (r: Option<nat>)
    ensures r.Some? ==> from <= r.value && OccursAt(s, t, r.value)
    ensures forall j: nat :: from <= j && (r.None? || j < r.value) ==> !OccursAt(s, t, j)
    decreases |s| - from
  {
    if |s| < from + |t| then None
    else if s[from..from + |t|] == t then Some(from)
    else if from < |s| then FindFrom(s, t, from + 1)
    else None
  }


  /** The leftmost occurrence of `key` at or after `from` at which
      `capture` yields a value: how `re.search` settles on a pattern that
      opens with a literal key. */
  function FirstCapture<T>(s: string, key: string, from: nat, capture: nat -> Option<T>): (r: Option<nat>)
    ensures r.Some? ==> from <= r.value && OccursAt(s, key, r.value) && capture(r.value).Some?
    ensures forall j: nat :: from <= j && (r.None? || j < r.value) && OccursAt(s, key, j) ==> capture(j).None?
    decreases |s| + 1 - from
  {
    match FindFrom(s, key, from)
    case None => None
    case Some(i) => if capture(i).Some? then Some(i) else FirstCapture(s, key, i + 1, capture)
  }

  /** `s.find(t)`, as an option. */
  function Find(s: string, t: string): (r: Option<nat>)
    ensures r.Some? <==> Contains(s, t)
    ensures r.Some? ==> OccursAt(s, t, r.value)
    ensures r.Some? ==> forall j: nat :: j < r.value ==> !OccursAt(s, t, j)
  {
    var r := FindFrom(s, t, 0);
    assert r.Some? ==> OccursAt(s, t, r.value);
    r
  }

  /** An occurrence of a string contains every character of it. */
  lemma ContainsCharacters(s: string, t: string, c: char)
    requires Contains(s, t) && c in t
    ensures c in s
  {
    var i: nat :| i <= |s| && OccursAt(s, t, i);
    var k :| 0 <= k < |t| && t[k] == c;
    assert s[i + k] == s[i..i + |t|][k];
  }

  /** Substring is transitive: an occurrence inside an occurrence. */
  lemma ContainsTransitive(a: string, b: string, c: string)
    requires Contains(a, b) && Contains(b, c)
    ensures Contains(a, c)
  {
    var i: nat :| i <= |a| && OccursAt(a, b, i);
    var j: nat :| j <= |b| && OccursAt(b, c, j);
    forall k | 0 <= k < |c|
      ensures a[i + j + k] == c[k]
    {
      assert c[k] == b[j + k] == a[i + j + k];
    }
    assert a[i + j..i + j + |c|] == c;
    assert OccursAt(a, c, i + j);
  }

  /** The end of the maximal run of whitespace starting at `i`. */
  function SkipSpace(s: string, i: nat): (j: nat)
    requires i <= |s|
    ensures i <= j <= |s|
    ensures forall k :: i <= k < j ==> IsSpace(s[k])
    ensures j == |s| || !IsSpace(s[j])
    decreases |s| - i
  {
    if i < |s| && IsSpace(s[i]) then SkipSpace(s, i + 1) else i
  }

  /** A run of whitespace from `a` that stops at `b` is what skipping
      whitespace from `a` passes over. */
  lemma {:induction false} SkipSpaceIs(s: string, a: nat, b: nat)
    requires a <= b <= |s|
    requires forall k :: a <= k < b ==> IsSpace(s[k])
    requires b == |s| || !IsSpace(s[b])
    ensures SkipSpace(s, a) == b
    decreases b - a
  {
    if a < b {
      SkipSpaceIs(s, a + 1, b);
    }
  }

  /** The end of the maximal run of non-whitespace starting at `i`. */
  function SkipNonSpace(s: string, i: nat): (j: nat)
    requires i <= |s|
    ensures i <= j <= |s|
    ensures forall k :: i <= k < j ==> !IsSpace(s[k])
    ensures j == |s| || IsSpace(s[j])
    decreases |s| - i
  {
    if i < |s| && !IsSpace(s[i]) then SkipNonSpace(s, i + 1) else i
  }

  /** The index of the first line feed at or after `i`, or `|s|`: where a
      regex `.` run starting at `i` must stop. */
  function LineEnd(s: string, i: nat): (j: nat)
    requires i <= |s|
    ensures i <= j <= |s|
    ensures forall k :: i <= k < j ==> s[k] != '\n'
    ensures j == |s| || s[j] == '\n'
    decreases |s| - i
  {
    if i < |s| && s[i] != '\n' then LineEnd(s, i + 1) else i
  }

  /** `s.rstrip()` */
  function StripEnd(s: string): (r: string)
    ensures StartsWith(s, r)
    ensures AllSpace(s[|r|..])
    ensures |r| == 0 || !IsSpace(r[|r| - 1])
  {
    if |s| > 0 && IsSpace(s[|s| - 1]) then
      var r := StripEnd(s[..|s| - 1]);
      assert s[..|s| - 1][|r|..] + [s[|s| - 1]] == s[|r|..];
      r
    else s
  }

  /** Neither starts nor ends with whitespace: what `strip` leaves. */
  predicate Trimmed(s: string) {
    |s| == 0 || (!IsSpace(s[0]) && !IsSpace(s[|s| - 1]))
  }

  /** `s.strip()`: the result is the middle of `s` after its leading run of
      whitespace and before a trailing one, and neither starts nor ends with
      whitespace. */
  function Strip(s: string): (r: string)
    ensures |r| == 0 || (!IsSpace(r[0]) && !IsSpace(r[|r| - 1]))
    ensures var i := SkipSpace(s, 0);
      i + |r| <= |s| && r == s[i..i + |r|] && AllSpace(s[i + |r|..])
  {
    var i := SkipSpace(s, 0);
    var r := StripEnd(s[i..]);
    assert s[i..i + |r|] == s[i..][..|r|];
    assert s[i + |r|..] == s[i..][|r|..];
    r
  }

  /** Stripping adds no character. */
  lemma StripKeepsOut(s: string, c: char)
    requires c !in s
    ensures c !in Strip(s)
  {
  }

  /** Stripping text that has no surrounding whitespace changes nothing. */
  lemma StripUnchanged(s: string)
    requires |s| == 0 || (!IsSpace(s[0]) && !IsSpace(s[|s| - 1]))
    ensures Strip(s) == s
  {
    assert SkipSpace(s, 0) == 0;
    assert s[0..] == s;
  }

  /** Stripping ignores leading whitespace. */
  lemma StripAfterSpace(s: string, i: nat)
    requires i <= |s| && forall k :: 0 <= k < i ==> IsSpace(s[k])
    ensures Strip(s[i..]) == Strip(s)
  {
    SkipSpaceFrom(s, i);
    assert s[i..][SkipSpace(s[i..], 0)..] == s[SkipSpace(s, 0)..];
  }

  /** Skipping whitespace from inside a run of whitespace reaches the same end. */
  lemma SkipSpaceFrom(s: string, i: nat)
    requires i <= |s| && forall k :: 0 <= k < i ==> IsSpace(s[k])
    ensures SkipSpace(s[i..], 0) + i == SkipSpace(s, 0)
  {
    var j := SkipSpace(s[i..], 0);
    var m := SkipSpace(s, 0);
    assert forall k :: i <= k < i + j ==> IsSpace(s[k]) by {
      forall k | i <= k < i + j ensures IsSpace(s[k]) { assert s[k] == s[i..][k - i]; }
    }
    if i + j < |s| { assert s[i + j] == s[i..][j]; }
  }


  function LowerChar(c: char): (r: char)
    ensures 'A' <= c <= 'Z' ==> 'a' <= r <= 'z' && r as int == c as int + 32
    ensures !('A' <= c <= 'Z') ==> r == c
  {
    if 'A' <= c <= 'Z' then (c as int + 32) as char else c
  }

  /** `s.lower()` on ASCII: only the letters A-Z change. */
  function ToLower(s: string): (r: string)
    ensures |r| == |s|
    ensures forall i :: 0 <= i < |s| ==> r[i] == LowerChar(s[i])
  {
    seq(|s|, i requires 0 <= i < |s| => LowerChar(s[i]))
  }

  /** Two strings that differ at most in ASCII letter case. */
  predicate SameIgnoringCase(a: string, b: string) {
    |a| == |b| && forall i :: 0 <= i < |a| ==> LowerChar(a[i]) == LowerChar(b[i])
  }

  lemma SameIgnoringCaseLower(a: string, b: string)
    requires SameIgnoringCase(a, b)
    ensures ToLower(a) == ToLower(b)
  {
  }

  /** The first index of `c` at or after `i`. */
  function IndexOfChar(s: string, c: char, i: nat): (r: Option<nat>)
    requires i <= |s|
    ensures r.Some? ==> i <= r.value < |s| && s[r.value] == c
    ensures forall k :: i <= k < |s| && (r.None? || k < r.value) ==> s[k] != c
    decreases |s| - i
  {
    if i == |s| then None
    else if s[i] == c then Some(i)
    else IndexOfChar(s, c, i + 1)
  }

  /** `"".join(parts)` */
  function Concat(parts: seq<string>): string
  {
    if |parts| == 0 then "" else parts[0] + Concat(parts[1..])
  }

  /** `sep.join(parts)` */
  function Join(sep: string, parts: seq<string>): string
  {
    if |parts| == 0 then ""
    else if |parts| == 1 then parts[0]
    else parts[0] + sep + Join(sep, parts[1..])
  }

  /** Joining adds no character that neither the separator nor any piece
      holds. */
  lemma {:induction false} JoinKeepsOut(sep: string, parts: seq<string>, c: char)
    requires c !in sep && forall i :: 0 <= i < |parts| ==> c !in parts[i]
    ensures c !in Join(sep, parts)
    decreases |parts|
  {
    if |parts| > 1 {
      JoinKeepsOut(sep, parts[1..], c);
    }
  }

  /** `s.split(c)`: pieces free of `c` that joined with `c` give back `s`. */
  function Split(s: string, c: char): (parts: seq<string>)
    ensures |parts| >= 1
    ensures forall i :: 0 <= i < |parts| ==> c !in parts[i]
    ensures Join([c], parts) == s
    decreases |s|
  {
    match IndexOfChar(s, c, 0)
    case None => [s]
    case Some(i) =>
      var rest := Split(s[i + 1..], c);
      var parts := [s[..i]] + rest;
      assert parts[1..] == rest;
      assert s == s[..i] + [c] + s[i + 1..];
      parts
  }

  /** The first piece of `s.split(c)` is the text before the first `c`. */
  lemma SplitHead(s: string, c: char)
    ensures IndexOfChar(s, c, 0).None? ==> Split(s, c)[0] == s
    ensures IndexOfChar(s, c, 0).Some? ==> Split(s, c)[0] == s[..IndexOfChar(s, c, 0).value]
  {
  }



  /** Splitting undoes joining, when no piece holds the separator. */
  lemma {:induction false} SplitJoin(parts: seq<string>, c: char)
    requires |parts| >= 1
    requires forall i :: 0 <= i < |parts| ==> c !in parts[i]
    ensures Split(Join([c], parts), c) == parts
    decreases |parts|
  {
    var s := Join([c], parts);
    if |parts| == 1 {
      assert IndexOfChar(s, c, 0).None?;
    } else {
      var tail := Join([c], parts[1..]);
      assert s == parts[0] + [c] + tail;
      var n := |parts[0]|;
      assert s[n] == c;
      assert forall k :: 0 <= k < n ==> s[k] == parts[0][k];
      assert IndexOfChar(s, c, 0) == Some(n);
      assert s[..n] == parts[0];
      assert s[n + 1..] == tail;
      SplitJoin(parts[1..], c);
      assert [parts[0]] + parts[1..] == parts;
    }
  }
}
