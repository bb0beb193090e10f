/** The line-level part of the document extractor (`ingestion/pdf_parser.py`):
    parameter and field bullets, the rate limit, the base URL, and the
    assembly of the record from the blocks the section patterns cut out of
    the document text. The extractor is forgiving: no input makes it fail. */
module Extraction {
  import opened Wrappers
  import opened Strings
  import opened OrderedMaps
  import opened Sequences
  import opened Records

  /** The one model name the extractor recognises in a parameter bullet. */
  const AddressObject := "Address Object"
  const AuthHeader := "Authorization"
  const AuthFormat := "Bearer <YOUR_API_KEY>"
  const RateLimitLabel := "Rate Limit:"
  const NoRateLimit := "Not specified"
  const BaseUrlLabel := "Base URL:"

  // ---------------------------------------------------------------------
  // The bullet pattern `([a-z_]+)\s*\((.*?)\):\s*(.*)`, matched at the start
  // ---------------------------------------------------------------------

  predicate IsNameChar(c: char) {
    'a' <= c <= 'z' || c == '_'
  }

  /** A parameter or field name: a non-empty run of `[a-z_]`. */
  predicate IsName(s: string) {
    |s| > 0 && forall i :: 0 <= i < |s| ==> IsNameChar(s[i])
  }

  /** The end of the maximal run of name characters starting at `i`. */
  function NameEnd(s: string, i: nat): (j: nat)
    requires i <= |s|
    ensures i <= j <= |s|
    ensures forall k :: i <= k < j ==> IsNameChar(s[k])
    ensures j == |s| || !IsNameChar(s[j])
    decreases |s| - i
  {
    if i < |s| && IsNameChar(s[i]) then NameEnd(s, i + 1) else i
  }

  /** `):` stands at `k`. */
  predicate CloserAt(s: string, k: nat) {
    k + 1 < |s| && s[k] == ')' && s[k + 1] == ':'
  }

  /** `t` holds no `):`. */
  predicate NoCloser(t: string) {
    forall k: nat | k < |t| :: !CloserAt(t, k)
  }

  /** The lazy `(.*?)\):` from `j`: the first `):` at or after `j`, provided
      no line feed comes before it (`.` does not match a line feed). */
  function CloseParen(s: string, j: nat): (r: Option<nat>)
    requires j <= |s|
    ensures r.Some? ==> j <= r.value && CloserAt(s, r.value)
    ensures r.Some? ==> forall k :: j <= k < r.value ==> s[k] != '\n'
    ensures r.Some? ==> forall k :: j <= k < r.value ==> !CloserAt(s, k)
    decreases |s| - j
  {
    if CloserAt(s, j) then Some(j)
    else if j < |s| && s[j] != '\n' then CloseParen(s, j + 1)
    else None
  }

  /** Where the groups of a match start and stop: the name is
      `s[..nameEnd]`, the parenthesis opens at `open`, `):` stands at
      `close`, and the description is `s[descStart..descEnd]`. */
  datatype Cuts = Cuts(nameEnd: nat, open: nat, close: nat, descStart: nat, descEnd: nat)

  /** The cut points of a match of the bullet pattern, position by position:
      name characters, whitespace, `(`, type-info up to the first `):` on the
      line, whitespace, and the description up to the end of the line. */
  predicate ValidCuts(s: string, c: Cuts) {
    && 0 < c.nameEnd <= c.open < c.close && c.close + 2 <= c.descStart <= c.descEnd <= |s|
    && (forall i :: 0 <= i < c.nameEnd ==> IsNameChar(s[i]))
    && (forall i :: c.nameEnd <= i < c.open ==> IsSpace(s[i]))
    && s[c.open] == '('
    && (forall i :: c.open < i < c.close ==> s[i] != '\n')
    && (forall i :: c.open < i < c.close ==> !CloserAt(s, i))
    && CloserAt(s, c.close)
    && (forall i :: c.close + 2 <= i < c.descStart ==> IsSpace(s[i]))
    && (c.descStart == |s| || !IsSpace(s[c.descStart]))
    && (forall i :: c.descStart <= i < c.descEnd ==> s[i] != '\n')
    && (c.descEnd == |s| || s[c.descEnd] == '\n')
  }

  /** The regex engine's walk over the pattern: maximal name, maximal
      whitespace, the parenthesis, the lazy group, maximal whitespace, the
      rest of the line. */
  function ScanEntry(s: string): Option<Cuts>
  {
    var n := NameEnd(s, 0);
    if n == 0 then None
    else
      var p := SkipSpace(s, n);
      if p == |s| || s[p] != '(' then None
      else
        match CloseParen(s, p + 1)
        case None => None
        case Some(k) =>
          var d := SkipSpace(s, k + 2);
          Some(Cuts(n, p, k, d, LineEnd(s, d)))
  }

  /** The scan only reports valid cut points. */
  lemma ScanEntrySound(s: string)
    requires ScanEntry(s).Some?
    ensures ValidCuts(s, ScanEntry(s).value)
  {
  }

  /** The cut points of a match are unique, and the scan finds them. */
  lemma ScanEntryComplete(s: string, c: Cuts)
    requires ValidCuts(s, c)
    ensures ScanEntry(s) == Some(c)
  {
    assert !IsNameChar(s[c.nameEnd]) by {
      if c.nameEnd < c.open { assert IsSpace(s[c.nameEnd]); }
    }
    NameEndIs(s, 0, c.nameEnd);
    SkipSpaceIs(s, c.nameEnd, c.open);
    CloseParenIs(s, c.open + 1, c.close);
    SkipSpaceIs(s, c.close + 2, c.descStart);
    LineEndIs(s, c.descStart, c.descEnd);
    ScanEntryAt(s, c);
  }

  /** The scan read off the scanning functions' results. */
  lemma ScanEntryAt(s: string, c: Cuts)
    requires 0 < c.nameEnd && NameEnd(s, 0) == c.nameEnd
    requires SkipSpace(s, c.nameEnd) == c.open && c.open < |s| && s[c.open] == '('
    requires CloseParen(s, c.open + 1) == Some(c.close)
    requires SkipSpace(s, c.close + 2) == c.descStart && LineEnd(s, c.descStart) == c.descEnd
    ensures ScanEntry(s) == Some(c)
  {
  }

  lemma NameEndIs(s: string, a: nat, b: nat)
    requires a <= b <= |s| && forall i :: a <= i < b ==> IsNameChar(s[i])
    requires b == |s| || !IsNameChar(s[b])
    ensures NameEnd(s, a) == b
  {
  }

  lemma LineEndIs(s: string, a: nat, b: nat)
    requires a <= b <= |s| && forall i :: a <= i < b ==> s[i] != '\n'
    requires b == |s| || s[b] == '\n'
    ensures LineEnd(s, a) == b
  {
  }

  /** The lazy group stops at the first `):` when there is no line feed and
      no earlier `):` before it. */
  lemma {:induction false} CloseParenIs(s: string, a: nat, k: nat)
    requires a <= k && CloserAt(s, k)
    requires forall i :: a <= i < k ==> s[i] != '\n'
    requires forall i :: a <= i < k ==> !CloserAt(s, i)
    ensures CloseParen(s, a) == Some(k)
    decreases k - a
  {
    if a < k {
      CloseParenIs(s, a + 1, k);
    }
  }

  /** The three groups of a successful match. */
  datatype EntryMatch = EntryMatch(name: string, typeInfo: string, description: string)

  /** The groups cut out at `c`. */
  function Groups(s: string, c: Cuts): EntryMatch
    requires ValidCuts(s, c)
  {
    EntryMatch(s[..c.nameEnd], s[c.open + 1..c.close], s[c.descStart..c.descEnd])
  }

  /** `re.match(r'([a-z_]+)\s*\((.*?)\):\s*(.*)', s)` */
  function MatchEntry(s: string): Option<EntryMatch>
  {
    match ScanEntry(s)
    case None => None
    case Some(c) => ScanEntrySound(s); Some(Groups(s, c))
  }

  /** The layout the bullet pattern describes: a name, whitespace, the
      parenthesised type-info closed by its first `):`, whitespace, and the
      description running to the end of the line; `rest` is what follows. */
  predicate Layout(s: string, m: EntryMatch, gap: string, gap2: string, rest: string) {
    && s == Glued(m, gap, gap2, rest)
    && Shape(m, gap, gap2, rest)
  }

  /** The pieces of the layout, laid end to end. */
  function Glued(m: EntryMatch, gap: string, gap2: string, rest: string): string {
    Concat([m.name, gap, "(", m.typeInfo, "):", gap2, m.description, rest])
  }

  /** The pieces of the layout, appended one after the other. */
  lemma GluedPieces(m: EntryMatch, gap: string, gap2: string, rest: string)
    ensures Glued(m, gap, gap2, rest) ==
      m.name + (gap + ("(" + (m.typeInfo + ("):" + (gap2 + (m.description + rest))))))
  {
    var ps := [m.name, gap, "(", m.typeInfo, "):", gap2, m.description, rest];
    assert Concat(ps[7..]) == rest by { assert ps[7..][1..] == []; }
    assert Concat(ps[6..]) == m.description + rest by { assert ps[6..][1..] == ps[7..]; }
    assert Concat(ps[5..]) == gap2 + Concat(ps[6..]) by { assert ps[5..][1..] == ps[6..]; }
    assert Concat(ps[4..]) == "):" + Concat(ps[5..]) by { assert ps[4..][1..] == ps[5..]; }
    assert Concat(ps[3..]) == m.typeInfo + Concat(ps[4..]) by { assert ps[3..][1..] == ps[4..]; }
    assert Concat(ps[2..]) == "(" + Concat(ps[3..]) by { assert ps[2..][1..] == ps[3..]; }
    assert Concat(ps[1..]) == gap + Concat(ps[2..]) by { assert ps[1..][1..] == ps[2..]; }
  }

  /** What each piece of the layout must look like. */
  predicate Shape(m: EntryMatch, gap: string, gap2: string, rest: string) {
    && IsName(m.name) && AllSpace(gap) && AllSpace(gap2)
    && '\n' !in m.typeInfo && NoCloser(m.typeInfo)
    && '\n' !in m.description
    && (if |m.description| == 0 then rest == []
        else !IsSpace(m.description[0]) && (rest == [] || rest[0] == '\n'))
  }

  /** Every match has the layout of the pattern. */
  lemma MatchEntrySound(s: string) returns (gap: string, gap2: string, rest: string)
    requires MatchEntry(s).Some?
    ensures Layout(s, MatchEntry(s).value, gap, gap2, rest)
  {
    var c := ScanEntry(s).value;
    ScanEntrySound(s);
    LayoutOfCuts(s, c);
    gap, gap2, rest := s[c.nameEnd..c.open], s[c.close + 2..c.descStart], s[c.descEnd..];
  }

  /** Every text with the layout of the pattern matches, with exactly those
      groups: the pattern is deterministic. */
  lemma MatchEntryComplete(s: string, m: EntryMatch, gap: string, gap2: string, rest: string)
    requires Layout(s, m, gap, gap2, rest)
    ensures MatchEntry(s) == Some(m)
  {
    var c := LayoutCuts(s, m, gap, gap2, rest);
    ScanEntryComplete(s, c);
  }

  /** The groups of a match: a name, and type-info and description that
      stay on one line, the type-info holding no `):`. */
  lemma MatchEntryGroups(s: string)
    requires MatchEntry(s).Some?
    ensures IsName(MatchEntry(s).value.name)
    ensures '\n' !in MatchEntry(s).value.typeInfo && NoCloser(MatchEntry(s).value.typeInfo)
    ensures '\n' !in MatchEntry(s).value.description
  {
    var c := ScanEntry(s).value;
    ScanEntrySound(s);
    CutsSlices(s, c);
  }

  /** The slices between valid cut points have the properties of the groups. */
  lemma CutsSlices(s: string, c: Cuts)
    requires ValidCuts(s, c)
    ensures IsName(s[..c.nameEnd]) && AllSpace(s[c.nameEnd..c.open])
    ensures '\n' !in s[c.open + 1..c.close] && NoCloser(s[c.open + 1..c.close])
    ensures AllSpace(s[c.close + 2..c.descStart]) && '\n' !in s[c.descStart..c.descEnd]
  {
    var t := s[c.open + 1..c.close];
    forall j: nat | j < |t| && CloserAt(t, j)
      ensures false
    {
      assert s[c.open + 1 + j] == t[j] && s[c.open + 1 + j + 1] == t[j + 1];
      assert CloserAt(s, c.open + 1 + j);
    }
  }

  /** Slices cut at valid points have the layout of the pattern. */
  lemma LayoutOfCuts(s: string, c: Cuts)
    requires ValidCuts(s, c)
    ensures Layout(s, Groups(s, c), s[c.nameEnd..c.open], s[c.close + 2..c.descStart], s[c.descEnd..])
  {
    CutsSlices(s, c);
    LayoutOfPieces(s, Groups(s, c), c.nameEnd, c.open, c.close, c.descStart, c.descEnd);
  }

  /** The properties of the slices of a text cut at `n`, `p`, `k`, `d`
      and `e` that the layout needs. */
  predicate PieceFacts(s: string, n: nat, p: nat, k: nat, d: nat, e: nat) {
    && n <= p < k && k + 2 <= d <= e <= |s|
    && s[p] == '(' && s[k] == ')' && s[k + 1] == ':'
    && IsName(s[..n]) && AllSpace(s[n..p]) && AllSpace(s[k + 2..d])
    && '\n' !in s[p + 1..k] && NoCloser(s[p + 1..k]) && '\n' !in s[d..e]
    && (d == |s| || !IsSpace(s[d])) && (e == |s| || s[e] == '\n')
  }

  /** The same, from the properties of the slices alone. */
  lemma LayoutOfPieces(s: string, m: EntryMatch, n: nat, p: nat, k: nat, d: nat, e: nat)
    requires PieceFacts(s, n, p, k, d, e)
    requires m == EntryMatch(s[..n], s[p + 1..k], s[d..e])
    ensures Layout(s, m, s[n..p], s[k + 2..d], s[e..])
  {
    PiecesConcat(s, n, p, k, d, e);
    GluedPieces(m, s[n..p], s[k + 2..d], s[e..]);
    if d < e {
      assert s[d..e][0] == s[d];
    }
    if e < |s| {
      assert s[e..][0] == s[e];
    }
  }

  /** A text cut at `n <= p < k` and `k + 2 <= d <= e`, with `(` at `p` and
      `):` at `k`, is the concatenation of its pieces. */
  lemma PiecesConcat(s: string, n: nat, p: nat, k: nat, d: nat, e: nat)
    requires n <= p < k && k + 2 <= d <= e <= |s|
    requires s[p] == '(' && s[k] == ')' && s[k + 1] == ':'
    ensures s == s[..n] + (s[n..p] + ("(" + (s[p + 1..k] + ("):" + (s[k + 2..d] + (s[d..e] + s[e..]))))))
  {
    var t := s[d..e] + s[e..];
    Glue(s, d, e, s[e..]);
    Glue(s, k + 2, d, t);
    t := s[k + 2..d] + t;
    Glue(s, k, k + 2, t);
    CloserSlice(s, k);
    t := "):" + t;
    Glue(s, p + 1, k, t);
    t := s[p + 1..k] + t;
    Glue(s, p, p + 1, t);
    OpenSlice(s, p);
    t := "(" + t;
    Glue(s, n, p, t);
    t := s[n..p] + t;
    GlueFront(s, n, t);
  }

  /** The prefix of `s` up to `n` followed by the suffix from `n`. */
  lemma GlueFront(s: string, n: nat, rest: string)
    requires n <= |s| && rest == s[n..]
    ensures s[..n] + rest == s
  {
  }

  lemma OpenSlice(s: string, p: nat)
    requires p < |s| && s[p] == '('
    ensures s[p..p + 1] == "("
  {
  }

  lemma CloserSlice(s: string, k: nat)
    requires k + 1 < |s| && s[k] == ')' && s[k + 1] == ':'
    ensures s[k..k + 2] == "):"
  {
  }

  /** The piece of `s` from `a` to `b` followed by the suffix from `b`. */
  lemma Glue(s: string, a: nat, b: nat, rest: string)
    requires a <= b <= |s| && rest == s[b..]
    ensures s[a..b] + rest == s[a..]
  {
  }

  /** The cut points of a text with the layout of the pattern. */
  lemma LayoutCuts(s: string, m: EntryMatch, gap: string, gap2: string, rest: string) returns (c: Cuts)
    requires Layout(s, m, gap, gap2, rest)
    ensures ValidCuts(s, c) && Groups(s, c) == m
  {
    GluedPieces(m, gap, gap2, rest);
    c := ConcatCuts(s, m, gap, gap2, rest);
    CutsOfPieces(s, c, m, gap, gap2, rest);
    GroupsOfPieces(s, c, m, gap, gap2, rest);
  }

  /** Position by position, `name + gap + "(" + typeInfo + "):" + gap2 +
      description + rest`, cut at `c`. */
  predicate PiecesAt(s: string, c: Cuts, m: EntryMatch, gap: string, gap2: string, rest: string) {
    && c.nameEnd == |m.name| && c.open == c.nameEnd + |gap| && c.close == c.open + 1 + |m.typeInfo|
    && c.descStart == c.close + 2 + |gap2| && c.descEnd == c.descStart + |m.description|
    && c.descEnd + |rest| == |s|
    && (forall i :: 0 <= i < c.nameEnd ==> s[i] == m.name[i])
    && (forall i :: c.nameEnd <= i < c.open ==> s[i] == gap[i - c.nameEnd])
    && s[c.open] == '('
    && (forall i :: c.open < i < c.close ==> s[i] == m.typeInfo[i - c.open - 1])
    && s[c.close] == ')' && s[c.close + 1] == ':'
    && (forall i :: c.close + 2 <= i < c.descStart ==> s[i] == gap2[i - c.close - 2])
    && (forall i :: c.descStart <= i < c.descEnd ==> s[i] == m.description[i - c.descStart])
    && (forall i :: c.descEnd <= i < |s| ==> s[i] == rest[i - c.descEnd])
  }

  lemma ConcatCuts(s: string, m: EntryMatch, gap: string, gap2: string, rest: string) returns (c: Cuts)
    requires s == m.name + (gap + ("(" + (m.typeInfo + ("):" + (gap2 + (m.description + rest))))))
    ensures PiecesAt(s, c, m, gap, gap2, rest)
  {
    var n := |m.name|;
    var p := n + |gap|;
    var k := p + 1 + |m.typeInfo|;
    var d := k + 2 + |gap2|;
    c := Cuts(n, p, k, d, d + |m.description|);
  }

  /** Pieces of the right shape sit at valid cut points. */
  lemma CutsOfPieces(s: string, c: Cuts, m: EntryMatch, gap: string, gap2: string, rest: string)
    requires PiecesAt(s, c, m, gap, gap2, rest) && Shape(m, gap, gap2, rest)
    ensures ValidCuts(s, c)
  {
    forall i | c.open < i < c.close ensures !CloserAt(s, i) {
      if i + 1 < c.close {
        assert !CloserAt(m.typeInfo, i - c.open - 1);
      }
    }
    if c.descStart < c.descEnd {
      assert s[c.descStart] == m.description[0];
    }
    if c.descEnd < |s| {
      assert s[c.descEnd] == rest[0];
    }
  }

  /** The groups cut out of the pieces are the pieces. */
  lemma GroupsOfPieces(s: string, c: Cuts, m: EntryMatch, gap: string, gap2: string, rest: string)
    requires PiecesAt(s, c, m, gap, gap2, rest)
    ensures s[..c.nameEnd] == m.name && s[c.open + 1..c.close] == m.typeInfo
    ensures s[c.descStart..c.descEnd] == m.description
  {
  }

  // ---------------------------------------------------------------------
  // Parameter and field bullets
  // ---------------------------------------------------------------------

  /** `'- ' in line and '(' in line`: only such lines are looked at. */
  predicate IsBulletCandidate(line: string) {
    Contains(line, "- ") && '(' in line
  }

  /** `line.strip()`, then a leading "- " dropped. */
  function CleanBullet(line: string): string {
    var t := Strip(line);
    if StartsWith(t, "- ") then t[2..] else t
  }

  /** The match of one line of a parameter or field list, if it has one. */
  function MatchBullet(line: string): (r: Option<EntryMatch>)
    ensures r.Some? ==> IsBulletCandidate(line)
    ensures r.Some? ==> IsName(r.value.name)
    ensures r.Some? ==> '\n' !in r.value.typeInfo && NoCloser(r.value.typeInfo) && '\n' !in r.value.description
  {
    if !IsBulletCandidate(line) then None
    else
      var t := CleanBullet(line);
      match MatchEntry(t)
      case None => None
      case Some(m) => MatchEntryGroups(t); Some(m)
  }

  /** A candidate line whose cleaned text has the layout of the pattern
      yields exactly the groups of that layout; a cleaned text without the
      layout yields nothing. */
  lemma MatchBulletLayout(line: string, m: EntryMatch, gap: string, gap2: string, rest: string)
    requires IsBulletCandidate(line) && Layout(CleanBullet(line), m, gap, gap2, rest)
    ensures MatchBullet(line) == Some(m)
  {
    MatchEntryComplete(CleanBullet(line), m, gap, gap2, rest);
  }

  /** The text before the first comma (all of it when there is none). */
  function BeforeComma(s: string): (r: string)
    ensures ',' !in r
    ensures StartsWith(s, r)
    ensures |r| < |s| ==> s[|r|] == ','
  {
    match IndexOfChar(s, ',', 0)
    case None => s
    case Some(i) => s[..i]
  }

  /** A matched parameter bullet as a parameter record: required exactly when
      "required" occurs in the lower-cased type-info; the type is the
      type-info up to its first comma, stripped; the model reference is
      "Address Object" exactly when that phrase occurs in the type-info or
      the description, and absent otherwise. */
  function ToParameter(m: EntryMatch): (p: Parameter)
    ensures p.name == m.name && p.description == m.description
    ensures p.required <==> Contains(ToLower(m.typeInfo), "required")
    ensures p.typ == Strip(BeforeComma(m.typeInfo)) && ',' !in p.typ
    ensures p.modelReference.Some? <==> Contains(m.typeInfo, AddressObject) || Contains(m.description, AddressObject)
    ensures p.modelReference.Some? ==> p.modelReference.value == AddressObject
  {
    SplitHead(m.typeInfo, ',');
    StripKeepsOut(BeforeComma(m.typeInfo), ',');
    var modelRef := if Contains(m.description, AddressObject) || Contains(m.typeInfo, AddressObject)
      then Some(AddressObject) else None;
    Parameter(m.name, Strip(Split(m.typeInfo, ',')[0]), Contains(ToLower(m.typeInfo), "required"),
      m.description, modelRef)
  }

  /** One line of `_extract_parameters`. */
  function ParseParameterLine(line: string): (r: Option<Parameter>)
    ensures r.Some? <==> MatchBullet(line).Some?
    ensures !IsBulletCandidate(line) ==> r.None?
    ensures r.Some? ==> r.value == ToParameter(MatchBullet(line).value)
    ensures r.Some? ==> IsName(r.value.name) && ',' !in r.value.typ && '\n' !in r.value.description
  {
    match MatchBullet(line)
    case None => None
    case Some(m) => Some(ToParameter(m))
  }

  /** One line of `_extract_model_fields`: the whole type-info is the type. */
  function ParseFieldLine(line: string): (r: Option<Field>)
    ensures r.Some? <==> MatchBullet(line).Some?
    ensures !IsBulletCandidate(line) ==> r.None?
    ensures r.Some? ==> var m := MatchBullet(line).value;
      r.value == Field(m.name, m.typeInfo, m.description)
    ensures r.Some? ==> IsName(r.value.name) && NoCloser(r.value.typ) && '\n' !in r.value.typ
  {
    match MatchBullet(line)
    case None => None
    case Some(m) => Some(Field(m.name, m.typeInfo, m.description))
  }

  /** `_extract_parameters`: the parameters of the matching lines, in line
      order, at most one per line. */
  function ExtractParameters(text: string): (ps: seq<Parameter>)
    ensures |ps| <= |Split(text, '\n')|
    ensures forall i :: 0 <= i < |ps| ==> IsName(ps[i].name) && ',' !in ps[i].typ
    ensures forall i :: 0 <= i < |ps| ==> ps[i].modelReference.Some? ==> ps[i].modelReference.value == AddressObject
  {
    var lines := Split(text, '\n');
    var ps := FilterMap(lines, ParseParameterLine);
    FilterMapOrigins(lines, ParseParameterLine);
    ps
  }

  /** `_extract_model_fields`: the fields of the matching lines, in line
      order, at most one per line. */
  function ExtractModelFields(text: string): (fs: seq<Field>)
    ensures |fs| <= |Split(text, '\n')|
    ensures forall i :: 0 <= i < |fs| ==> IsName(fs[i].name) && NoCloser(fs[i].typ)
  {
    var lines := Split(text, '\n');
    var fs := FilterMap(lines, ParseFieldLine);
    FilterMapOrigins(lines, ParseFieldLine);
    fs
  }

  /** The parameters are exactly those of the lines that match, in the
      order of the lines. */
  lemma ExtractParametersByLine(text: string)
    ensures var lines := Split(text, '\n');
      var ps := ExtractParameters(text);
      var o := Origins(lines, ParseParameterLine);
      && |o| == |ps| && Increasing(o)
      && (forall i :: 0 <= i < |ps| ==> o[i] < |lines| && ParseParameterLine(lines[o[i]]) == Some(ps[i]))
      && (forall j :: 0 <= j < |lines| && ParseParameterLine(lines[j]).Some? ==> j in o)
  {
    FilterMapOrigins(Split(text, '\n'), ParseParameterLine);
  }

  /** The fields are exactly those of the lines that match, in the order
      of the lines. */
  lemma ExtractModelFieldsByLine(text: string)
    ensures var lines := Split(text, '\n');
      var fs := ExtractModelFields(text);
      var o := Origins(lines, ParseFieldLine);
      && |o| == |fs| && Increasing(o)
      && (forall i :: 0 <= i < |fs| ==> o[i] < |lines| && ParseFieldLine(lines[o[i]]) == Some(fs[i]))
      && (forall j :: 0 <= j < |lines| && ParseFieldLine(lines[j]).Some? ==> j in o)
  {
    FilterMapOrigins(Split(text, '\n'), ParseFieldLine);
  }

  // ---------------------------------------------------------------------
  // Rate limit and base URL
  // ---------------------------------------------------------------------

  /** `_extract_rate_limit`: after the first "Rate Limit:", whitespace is
      skipped (line feeds included) and the rest of that line is taken,
      stripped; "Not specified" when the label is absent. */
  function ExtractRateLimit(text: string): (r: string)
    ensures !Contains(text, RateLimitLabel) ==> r == NoRateLimit
    ensures Contains(text, RateLimitLabel) ==>
      '\n' !in r && (|r| == 0 || (!IsSpace(r[0]) && !IsSpace(r[|r| - 1])))
  {
    match Find(text, RateLimitLabel)
    case None => NoRateLimit
    case Some(i) =>
      var d := SkipSpace(text, i + |RateLimitLabel|);
      var e := LineEnd(text, d);
      StripKeepsOut(text[d..e], '\n');
      Strip(text[d..e])
  }

  /** When the label's own line carries a value, that value, stripped, is
      the rate limit. */
  lemma ExtractRateLimitOnLine(text: string)
    requires Contains(text, RateLimitLabel)
    ensures var a := Find(text, RateLimitLabel).value + |RateLimitLabel|;
      var rest := text[a..LineEnd(text, a)];
      !AllSpace(rest) ==> ExtractRateLimit(text) == Strip(rest)
  {
    var a := Find(text, RateLimitLabel).value + |RateLimitLabel|;
    var rest := text[a..LineEnd(text, a)];
    if !AllSpace(rest) {
      ValueOnLine(text, a);
    }
  }

  /** Skipping whitespace from `a` stays on `a`'s line when that line holds
      a non-space character after `a`; the stripped remainders agree. */
  lemma ValueOnLine(text: string, a: nat)
    requires a <= |text| && !AllSpace(text[a..LineEnd(text, a)])
    ensures var d := SkipSpace(text, a);
      Strip(text[d..LineEnd(text, d)]) == Strip(text[a..LineEnd(text, a)])
  {
    var d, e := SkipOnLine(text, a);
    StripSliceAfterSpace(text, a, d, e);
  }

  lemma SkipOnLine(text: string, a: nat) returns (d: nat, e: nat)
    requires a <= |text| && !AllSpace(text[a..LineEnd(text, a)])
    ensures e == LineEnd(text, a) && d == SkipSpace(text, a) && d <= e && LineEnd(text, d) == e
  {
    e := LineEnd(text, a);
    var rest := text[a..e];
    d := SkipSpace(text, a);
    var q :| 0 <= q < |rest| && !IsSpace(rest[q]);
    assert !IsSpace(text[a + q]);
    LineEndIs(text, d, e);
  }

  lemma StripSliceAfterSpace(text: string, a: nat, d: nat, e: nat)
    requires a <= d <= e <= |text| && forall k :: a <= k < d ==> IsSpace(text[k])
    ensures Strip(text[d..e]) == Strip(text[a..e])
  {
    SliceSpacePrefix(text, a, d, e);
    SliceOfSlice(text, a, d, e);
    StripAfterSpace(text[a..e], d - a);
  }

  lemma SliceSpacePrefix(text: string, a: nat, d: nat, e: nat)
    requires a <= d <= e <= |text| && forall k :: a <= k < d ==> IsSpace(text[k])
    ensures forall k :: 0 <= k < d - a ==> IsSpace(text[a..e][k])
  {
  }

  lemma SliceOfSlice(text: string, a: nat, d: nat, e: nat)
    requires a <= d <= e <= |text|
    ensures text[a..e][d - a..] == text[d..e]
  {
  }

  /** A whitespace-free run opening with a URL scheme: what
      `https?://[^\s]+` needs after the scheme is at least one character. */
  predicate IsUrl(u: string) {
    (StartsWith(u, "http://") && |u| > 7) || (StartsWith(u, "https://") && |u| > 8)
  }

  /** `https?://[^\s]+` matched at the start of `u`: the whole leading run of
      non-whitespace, when it is a URL (the `+` is greedy). */
  function UrlPrefix(u: string): (r: Option<string>)
    ensures r.Some? ==> IsUrl(r.value) && NoSpace(r.value) && StartsWith(u, r.value)
    ensures r.Some? ==> |r.value| == |u| || IsSpace(u[|r.value|])
  {
    var run := u[..SkipNonSpace(u, 0)];
    if IsUrl(run) then Some(run) else None
  }

  /** The same test read off `u` itself: it opens with "http://" or
      "https://" and a non-whitespace character follows the scheme. */
  lemma UrlPrefixMeans(u: string)
    ensures UrlPrefix(u).Some? <==>
      (StartsWith(u, "http://") && |u| > 7 && !IsSpace(u[7]))
      || (StartsWith(u, "https://") && |u| > 8 && !IsSpace(u[8]))
  {
    assert NoSpace("http://") && NoSpace("https://");
    SchemeRun(u, "http://");
    SchemeRun(u, "https://");
  }

  /** A run of non-whitespace opens with a whitespace-free scheme and goes on
      past it exactly when the text does. */
  lemma SchemeRun(u: string, scheme: string)
    requires NoSpace(scheme)
    ensures var run := u[..SkipNonSpace(u, 0)];
      (StartsWith(run, scheme) && |run| > |scheme|) <==>
      (StartsWith(u, scheme) && |u| > |scheme| && !IsSpace(u[|scheme|]))
  {
    var e := SkipNonSpace(u, 0);
    var run := u[..e];
    if StartsWith(u, scheme) && |u| > |scheme| && !IsSpace(u[|scheme|]) {
      assert forall j :: 0 <= j < |scheme| ==> !IsSpace(u[j]) by {
        forall j | 0 <= j < |scheme| ensures !IsSpace(u[j]) { assert u[j] == scheme[j]; }
      }
      assert e > |scheme|;
      assert run[..|scheme|] == u[..|scheme|];
    }
    if StartsWith(run, scheme) && |run| > |scheme| {
      assert u[..|scheme|] == run[..|scheme|];
      assert u[|scheme|] == run[|scheme|];
    }
  }

  /** The URL captured when the search matches at a label at `i`: `\s*`
      skips the whitespace after the label, then the URL pattern must match
      there. Nothing is captured where no whole label fits. */
  function UrlAfter(s: string, i: nat): Option<string>
  {
    if i + |BaseUrlLabel| <= |s| then UrlPrefix(s[SkipSpace(s, i + |BaseUrlLabel|)..]) else None
  }

  /** "Base URL:" occurs at `i` and a URL follows it after optional
      whitespace: the search pattern can match at `i`. */
  predicate UrlAfterLabel(s: string, i: nat) {
    OccursAt(s, BaseUrlLabel, i) && UrlAfter(s, i).Some?
  }

  /** What the search captures at each position of `text`. */
  function Capture(text: string): nat -> Option<string> {
    (i: nat) => UrlAfter(text, i)
  }

  /** `re.search(r'Base URL:\s*(https?://[^\s]+)', text)`: the URL after the
      first label that is followed by one; "" (the initial value) when no
      label is. */
  function ExtractBaseUrl(text: string): (r: string)
    ensures r == "" <==> forall i: nat :: !UrlAfterLabel(text, i)
    ensures r != "" ==> IsUrl(r) && NoSpace(r)
  {
    match FirstCapture(text, BaseUrlLabel, 0, Capture(text))
    case None => NoBaseUrl(text); ""
    case Some(i) => FoundBaseUrl(text, i); UrlAfter(text, i).value
  }

  /** The search takes the leftmost label that is followed by a URL. */
  lemma ExtractBaseUrlLeftmost(text: string, i: nat)
    requires UrlAfterLabel(text, i)
    requires forall j: nat :: j < i ==> !UrlAfterLabel(text, j)
    ensures ExtractBaseUrl(text) == UrlAfter(text, i).value
  {
    match FirstCapture(text, BaseUrlLabel, 0, Capture(text))
    case None =>
      NoBaseUrl(text);
      assert false;
    case Some(k) =>
      FoundBaseUrl(text, k);
      assert k == i;
  }

  lemma NoBaseUrl(text: string)
    requires FirstCapture(text, BaseUrlLabel, 0, Capture(text)).None?
    ensures forall i: nat :: !UrlAfterLabel(text, i)
  {
    forall i: nat | OccursAt(text, BaseUrlLabel, i) ensures UrlAfter(text, i).None? {
      CaptureAt(text, i);
    }
  }

  lemma FoundBaseUrl(text: string, i: nat)
    requires FirstCapture(text, BaseUrlLabel, 0, Capture(text)) == Some(i)
    ensures UrlAfterLabel(text, i)
    ensures forall j: nat :: j < i ==> !UrlAfterLabel(text, j)
  {
    CaptureAt(text, i);
    forall j: nat | j < i && OccursAt(text, BaseUrlLabel, j) ensures UrlAfter(text, j).None? {
      CaptureAt(text, j);
    }
  }

  lemma CaptureAt(text: string, i: nat)
    ensures Capture(text)(i) == UrlAfter(text, i)
  {
  }

  // ---------------------------------------------------------------------
  // Assembling the record
  // ---------------------------------------------------------------------

  /** The five captures of one endpoint block: name, method, path,
      description, and the remaining text holding the parameter list. */
  datatype EndpointBlock = EndpointBlock(name: string, verb: string, path: string, description: string, body: string)

  /** The two captures of one model block: its name and its field list. */
  datatype ModelBlock = ModelBlock(name: string, body: string)

  /** An endpoint as the extractor leaves it: its four texts stripped, its
      parameters with well-formed names, comma-free types and, when they
      name a model, the address model. */
  predicate Cleaned(ep: Endpoint) {
    && Trimmed(ep.name) && Trimmed(ep.verb) && Trimmed(ep.path) && Trimmed(ep.description)
    && forall i :: 0 <= i < |ep.parameters| ==>
         && IsName(ep.parameters[i].name) && ',' !in ep.parameters[i].typ
         && (ep.parameters[i].modelReference.Some? ==> ep.parameters[i].modelReference.value == AddressObject)
  }

  /** One endpoint block: the captures stripped, the parameter list
      extracted from the body. */
  function EndpointOf(b: EndpointBlock): (ep: Endpoint)
    ensures Cleaned(ep)
    ensures ep.name == Strip(b.name) && ep.verb == Strip(b.verb) && ep.path == Strip(b.path)
    ensures ep.description == Strip(b.description)
    ensures ep.parameters == ExtractParameters(b.body)
  {
    Endpoint(Strip(b.name), Strip(b.verb), Strip(b.path), Strip(b.description), ExtractParameters(b.body))
  }

  /** One model block: the name stripped, the field list extracted from the
      body. */
  function ModelOf(b: ModelBlock): (m: Model)
    ensures Trimmed(m.name) && m.name == Strip(b.name)
    ensures m.fields == ExtractModelFields(b.body)
  {
    Model(Strip(b.name), ExtractModelFields(b.body))
  }

  /** The `(name, model)` assignments of the model loop, in block order. */
  function ModelPairs(blocks: seq<ModelBlock>): (pairs: seq<(string, Model)>)
    ensures |pairs| == |blocks|
    ensures forall i :: 0 <= i < |blocks| ==> pairs[i] == (Strip(blocks[i].name), ModelOf(blocks[i]))
  {
    seq(|blocks|, i requires 0 <= i < |blocks| => (Strip(blocks[i].name), ModelOf(blocks[i])))
  }

  /** The models dictionary: one entry per distinct stripped model name,
      holding the fields of the last block of that name, stored under its
      own name. */
  function CollectModels(blocks: seq<ModelBlock>): (ms: OMap<string, Model>)
    ensures UniqueKeys(ms)
    ensures forall i :: 0 <= i < |blocks| && (forall j :: i < j < |blocks| ==> Strip(blocks[j].name) != Strip(blocks[i].name)) ==>
      Get(ms, Strip(blocks[i].name)) == Some(ModelOf(blocks[i]))
    ensures forall k :: Get(ms, k).Some? <==> exists i :: 0 <= i < |blocks| && Strip(blocks[i].name) == k
    ensures forall i :: 0 <= i < |ms| ==> ms[i].1.name == ms[i].0
  {
    CollectLast(blocks);
    CollectKeysAll(blocks);
    CollectNamedAll(blocks);
    FromPairs(ModelPairs(blocks))
  }

  /** The last block of a name decides its model. */
  lemma CollectLast(blocks: seq<ModelBlock>)
    ensures forall i :: 0 <= i < |blocks| && (forall j :: i < j < |blocks| ==> Strip(blocks[j].name) != Strip(blocks[i].name)) ==>
      Get(FromPairs(ModelPairs(blocks)), Strip(blocks[i].name)) == Some(ModelOf(blocks[i]))
  {
    var pairs := ModelPairs(blocks);
    forall i | 0 <= i < |blocks| && (forall j :: i < j < |blocks| ==> Strip(blocks[j].name) != Strip(blocks[i].name))
      ensures Get(FromPairs(pairs), Strip(blocks[i].name)) == Some(ModelOf(blocks[i]))
    {
      FromPairsLast(pairs, i);
    }
  }

  lemma CollectKeysAll(blocks: seq<ModelBlock>)
    ensures forall k :: Get(FromPairs(ModelPairs(blocks)), k).Some? <==> exists i :: 0 <= i < |blocks| && Strip(blocks[i].name) == k
  {
    forall k ensures Get(FromPairs(ModelPairs(blocks)), k).Some? <==> exists i :: 0 <= i < |blocks| && Strip(blocks[i].name) == k {
      CollectKeys(blocks, k);
    }
  }

  lemma CollectNamedAll(blocks: seq<ModelBlock>)
    ensures forall i :: 0 <= i < |FromPairs(ModelPairs(blocks))| ==>
      FromPairs(ModelPairs(blocks))[i].1.name == FromPairs(ModelPairs(blocks))[i].0
  {
    forall i | 0 <= i < |FromPairs(ModelPairs(blocks))|
      ensures FromPairs(ModelPairs(blocks))[i].1.name == FromPairs(ModelPairs(blocks))[i].0
    {
      CollectNamed(blocks, i);
    }
  }

  /** A name is bound exactly when some block has it, once stripped. */
  lemma CollectKeys(blocks: seq<ModelBlock>, k: string)
    ensures Get(FromPairs(ModelPairs(blocks)), k).Some? <==> exists i :: 0 <= i < |blocks| && Strip(blocks[i].name) == k
  {
    var pairs := ModelPairs(blocks);
    FromPairsKeys(pairs, k);
    if Get(FromPairs(pairs), k).Some? {
      var i :| 0 <= i < |pairs| && pairs[i].0 == k;
    }
    if exists i :: 0 <= i < |blocks| && Strip(blocks[i].name) == k {
      var i :| 0 <= i < |blocks| && Strip(blocks[i].name) == k;
      assert pairs[i].0 == k;
    }
  }

  /** Every model is stored under its own name. */
  lemma CollectNamed(blocks: seq<ModelBlock>, i: nat)
    requires i < |FromPairs(ModelPairs(blocks))|
    ensures FromPairs(ModelPairs(blocks))[i].1.name == FromPairs(ModelPairs(blocks))[i].0
  {
    var pairs := ModelPairs(blocks);
    var ms := FromPairs(pairs);
    GetAt(ms, i);
    FromPairsFrom(pairs, ms[i].0);
    var x :| 0 <= x < |pairs| && pairs[x] == (ms[i].0, ms[i].1);
  }

  /** The endpoint loop: one cleaned endpoint per block, in block order. */
  function EndpointsOf(blocks: seq<EndpointBlock>): (eps: seq<Endpoint>)
    ensures |eps| == |blocks|
    ensures forall i :: 0 <= i < |blocks| ==> Cleaned(eps[i])
    ensures forall i :: 0 <= i < |blocks| ==>
      && eps[i].name == Strip(blocks[i].name) && eps[i].path == Strip(blocks[i].path)
      && eps[i].parameters == ExtractParameters(blocks[i].body)
  {
    seq(|blocks|, i requires 0 <= i < |blocks| => EndpointOf(blocks[i]))
  }

  /** `_parse_content`, with the section patterns' captures as inputs: the
      authentication span (absent when the document has no
      "Authentication" label), the endpoint blocks and the model blocks. */
  function ParseContent(text: string, authSpan: Option<string>, endpoints: seq<EndpointBlock>, models: seq<ModelBlock>): (r: ApiRecord)
    ensures r.baseUrl == ExtractBaseUrl(text)
    ensures r.authentication.Some? <==> authSpan.Some?
    ensures r.authentication.Some? ==>
      r.authentication.value == Authentication(AuthHeader, AuthFormat, ExtractRateLimit(authSpan.value))
    ensures |r.endpoints| == |endpoints|
    ensures forall i :: 0 <= i < |endpoints| ==> Cleaned(r.endpoints[i])
    ensures forall i :: 0 <= i < |endpoints| ==>
      && r.endpoints[i].name == Strip(endpoints[i].name) && r.endpoints[i].path == Strip(endpoints[i].path)
      && r.endpoints[i].parameters == ExtractParameters(endpoints[i].body)
    ensures forall k :: Get(r.models, k).Some? <==> exists i :: 0 <= i < |models| && Strip(models[i].name) == k
    ensures forall i :: 0 <= i < |r.models| ==> r.models[i].1.name == r.models[i].0
    ensures forall i :: 0 <= i < |models| && (forall j :: i < j < |models| ==> Strip(models[j].name) != Strip(models[i].name)) ==>
      Get(r.models, Strip(models[i].name)) == Some(ModelOf(models[i]))
  {
    var auth := match authSpan
      case None => None
      case Some(span) => Some(Authentication(AuthHeader, AuthFormat, ExtractRateLimit(span)));
    ApiRecord(ExtractBaseUrl(text), auth, EndpointsOf(endpoints), CollectModels(models))
  }
}
