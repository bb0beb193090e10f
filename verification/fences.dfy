/** The clean-up of a model reply in `llm/gemini_client.py`: the reply is
    stripped, a leading Markdown code fence (with or without the `json`
    tag) and a trailing one are cut off, and the remainder is handed on only
    if it parses as JSON. The JSON parser is a parameter. */
module Fences {
  import opened Wrappers
  import opened Strings

  const Fence := "```"
  const JsonFence := "```json"

  /** `r` is a contiguous piece of `s`. */
  predicate Infix(r: string, s: string) {
    exists a: nat, b: nat :: a <= b <= |s| && r == s[a..b]
  }

  lemma InfixTransitive(r: string, s: string, t: string)
    requires Infix(r, s) && Infix(s, t)
    ensures Infix(r, t)
  {
    var a: nat, b: nat :| a <= b <= |s| && r == s[a..b];
    var c: nat, d: nat :| c <= d <= |t| && s == t[c..d];
    var u := t[c + a..c + b];
    forall k | 0 <= k < |r|
      ensures r[k] == u[k]
    {
      assert r[k] == s[a + k];
      assert s[a + k] == t[c + a + k];
    }
    assert r == u;
  }

  /** `re.sub(r'^' + tag + r'\s*', '', t)` for a tag free of regex
      operators: the anchored pattern matches at most once, and `\s*` takes
      the whole run of whitespace after the tag. The text splits into the
      tag, a run of whitespace, and a result that does not start with
      whitespace. */
  function DropLeading(t: string, tag: string): (r: string)
    ensures !StartsWith(t, tag) ==> r == t
    ensures StartsWith(t, tag) ==>
      && |tag| + |r| <= |t|
      && t == tag + t[|tag|..|t| - |r|] + r
      && AllSpace(t[|tag|..|t| - |r|])
      && (r == [] || !IsSpace(r[0]))
    ensures Infix(r, t)
  {
    if StartsWith(t, tag) then
      var k := SkipSpace(t, |tag|);
      assert t == t[..|tag|] + t[|tag|..k] + t[k..];
      assert t[k..] == t[k..|t|];
      t[k..]
    else
      assert t == t[0..|t|];
      t
  }

  /** Where the fence of `\s*```$` starts, if the pattern can match: `$`
      holds at the end of the text and also just before a final line
      feed. */
  function TrailingFence(s: string): (r: Option<nat>)
    ensures r.Some? ==> r.value + 3 <= |s| && s[r.value..r.value + 3] == Fence
    ensures r.Some? ==> r.value + 3 == |s| || (r.value + 4 == |s| && s[|s| - 1] == '\n')
    ensures r.None? <==> !EndsWith(s, Fence) && !EndsWith(s, Fence + "\n")
  {
    if EndsWith(s, Fence) then Some(|s| - 3)
    else if EndsWith(s, Fence + "\n") then
      assert s[|s| - 4..|s| - 1] == (Fence + "\n")[..3];
      Some(|s| - 4)
    else None
  }

  /** The start of the run of whitespace that ends at `j`. */
  function SpaceBefore(s: string, j: nat): (i: nat)
    requires j <= |s|
    ensures i <= j
    ensures forall k :: i <= k < j ==> IsSpace(s[k])
    ensures i == 0 || !IsSpace(s[i - 1])
    decreases j
  {
    if j > 0 && IsSpace(s[j - 1]) then SpaceBefore(s, j - 1) else j
  }

  /** `s` is `head`, a run of whitespace, a fence and what `$` allows after
      it; `head` does not end in whitespace, so the run is the longest. */
  predicate FenceSplit(s: string, head: string, ws: string, tail: string) {
    && s == head + ws + Fence + tail
    && AllSpace(ws)
    && (head == [] || !IsSpace(head[|head| - 1]))
    && (tail == [] || tail == "\n")
  }

  /** `re.sub(r'\s*```$', '', s)`. The leftmost match starts at the
      beginning of the whitespace run before the one fence `$` allows, and
      no second match can follow it. */
  function DropTrailing(s: string): (r: string)
    ensures TrailingFence(s).None? ==> r == s
    ensures TrailingFence(s).Some? ==>
      exists head, ws, tail :: FenceSplit(s, head, ws, tail) && r == head + tail
    ensures (s == [] || s[|s| - 1] != '\n') ==> StartsWith(s, r)
  {
    match TrailingFence(s)
    case None => s
    case Some(j) =>
      var i := SpaceBefore(s, j);
      var head, ws, tail := s[..i], s[i..j], s[j + 3..];
      assert s == head + ws + s[j..j + 3] + tail;
      assert FenceSplit(s, head, ws, tail);
      head + tail
  }

  /** The result of the trailing cut is determined by any split of the
      text around a final fence. */
  lemma DropTrailingSplit(s: string, head: string, ws: string, tail: string)
    requires FenceSplit(s, head, ws, tail)
    ensures DropTrailing(s) == head + tail
  {
    var j := |head| + |ws|;
    assert s == (head + ws) + (Fence + tail);
    assert s[j..] == Fence + tail;
    TrailingFenceAt(s, j, tail);
    SpaceBeforeIs(s, |head|, j);
    assert s[..|head|] == head;
    assert s[j + 3..] == tail;
  }

  lemma TrailingFenceAt(s: string, j: nat, tail: string)
    requires j <= |s| && s[j..] == Fence + tail
    requires tail == [] || tail == "\n"
    ensures TrailingFence(s) == Some(j)
  {
    if tail != [] {
      assert s[|s| - 1] == '\n';
      assert s[|s| - 4..] == Fence + "\n";
    }
  }

  lemma SpaceBeforeIs(s: string, i: nat, j: nat)
    requires i <= j <= |s|
    requires forall k :: i <= k < j ==> IsSpace(s[k])
    requires i == 0 || !IsSpace(s[i - 1])
    ensures SpaceBefore(s, j) == i
    decreases j
  {
    if i < j {
      SpaceBeforeIs(s, i, j - 1);
    }
  }

  /** The clean-up at the start of `generate_json`: strip, cut a leading fence tagged
      `json`, then a leading bare fence, then a trailing fence. */
  function StripFences(reply: string): (r: string)
    ensures Infix(r, reply)
  {
    CutsInfix(reply);
    DropTrailing(DropLeading(DropLeading(Strip(reply), JsonFence), Fence))
  }

  lemma CutsInfix(reply: string)
    ensures Infix(DropTrailing(DropLeading(DropLeading(Strip(reply), JsonFence), Fence)), reply)
  {
    var t0 := Strip(reply);
    var t1 := DropLeading(t0, JsonFence);
    var t2 := DropLeading(t1, Fence);
    StrippedInfix(reply);
    InfixTransitive(t1, t0, reply);
    InfixTransitive(t2, t1, reply);
    DropLeadingEnd(t0, JsonFence);
    DropLeadingEnd(t1, Fence);
    var r := DropTrailing(t2);
    assert Infix(r, t2) by {
      assert r == t2[0..|r|];
    }
    InfixTransitive(r, t2, reply);
  }

  lemma StrippedInfix(s: string)
    ensures Infix(Strip(s), s)
  {
    var i := SkipSpace(s, 0);
    assert Strip(s) == s[i..i + |Strip(s)|];
  }

  /** The leading cut keeps the last character of a non-empty result. */
  lemma DropLeadingEnd(t: string, tag: string)
    ensures var r := DropLeading(t, tag);
      r == [] || (t != [] && r[|r| - 1] == t[|t| - 1])
  {
  }

  /** A reply with no surrounding whitespace that neither opens nor closes
      with a fence comes back unchanged. */
  lemma StripFencesUnchanged(reply: string)
    requires reply == [] || (!IsSpace(reply[0]) && !IsSpace(reply[|reply| - 1]))
    requires !StartsWith(reply, Fence) && !EndsWith(reply, Fence)
    ensures StripFences(reply) == reply
  {
    StripUnchanged(reply);
    assert JsonFence[..3] == Fence;
    assert !EndsWith(reply, Fence + "\n");
  }

  /** Stripping a text that has no surrounding whitespace, with whitespace
      around it, gives the text. */
  lemma StripPadded(o1: string, m: string, o2: string)
    requires AllSpace(o1) && AllSpace(o2)
    requires |m| > 0 && !IsSpace(m[0]) && !IsSpace(m[|m| - 1])
    ensures Strip(o1 + m + o2) == m
  {
    var s := o1 + m + o2;
    assert s[|o1|] == m[0];
    SkipSpaceIs(s, 0, |o1|);
    assert s[|o1| + |m| - 1] == m[|m| - 1];
    assert forall k :: |o1| + |m| <= k < |s| ==> s[k] == o2[k - |o1| - |m|];
    assert s[|o1|..|o1| + |m|] == m;
  }

  /** A JSON text that does not open with a backtick or a `j` (no JSON
      value does), wrapped in a fence with or without the `json` tag, with
      any whitespace inside and outside the fence, comes back as it was. */
  lemma StripFencesWrapped(o1: string, tag: string, w1: string, body: string, w2: string, o2: string)
    requires tag == JsonFence || tag == Fence
    requires AllSpace(o1) && AllSpace(w1) && AllSpace(w2) && AllSpace(o2)
    requires |body| > 0 && !IsSpace(body[0]) && !IsSpace(body[|body| - 1])
    requires body[0] != '`' && body[0] != 'j'
    ensures StripFences(o1 + tag + w1 + body + w2 + Fence + o2) == body
  {
    var t1 := body + w2 + Fence;
    var m := tag + w1 + t1;
    assert o1 + tag + w1 + body + w2 + Fence + o2 == o1 + m + o2;
    StripPadded(o1, m, o2);
    LeadingOfWrapped(tag, w1, t1);
    TrailingOfWrapped(body, w2);
  }

  /** The two leading cuts remove exactly the opening fence and the
      whitespace after it. */
  lemma LeadingOfWrapped(tag: string, w1: string, t1: string)
    requires tag == JsonFence || tag == Fence
    requires AllSpace(w1)
    requires |t1| > 0 && !IsSpace(t1[0]) && t1[0] != '`' && t1[0] != 'j'
    ensures DropLeading(DropLeading(tag + w1 + t1, JsonFence), Fence) == t1
  {
    var m := tag + w1 + t1;
    DropLeadingIs(m, tag, w1, t1);
    if tag == Fence {
      assert m[3] == if |w1| == 0 then t1[0] else w1[0];
      assert !StartsWith(m, JsonFence);
    }
    assert !StartsWith(t1, Fence);
  }

  /** The leading cut of a text made of the tag, whitespace and a rest that
      does not start with whitespace gives the rest. */
  lemma DropLeadingIs(t: string, tag: string, w: string, rest: string)
    requires t == tag + w + rest && AllSpace(w)
    requires rest == [] || !IsSpace(rest[0])
    ensures DropLeading(t, tag) == rest
  {
    assert t[..|tag|] == tag;
    assert forall k :: |tag| <= k < |tag| + |w| ==> t[k] == w[k - |tag|];
    if rest != [] {
      assert t[|tag| + |w|] == rest[0];
    }
    SkipSpaceIs(t, |tag|, |tag| + |w|);
    assert t[|tag| + |w|..] == rest;
  }

  /** The trailing cut removes exactly the closing fence and the whitespace
      before it. */
  lemma TrailingOfWrapped(body: string, w2: string)
    requires AllSpace(w2)
    requires |body| > 0 && !IsSpace(body[|body| - 1])
    ensures DropTrailing(body + w2 + Fence) == body
  {
    assert body + w2 + Fence + [] == body + w2 + Fence;
    assert FenceSplit(body + w2 + Fence, body, w2, []);
    DropTrailingSplit(body + w2 + Fence, body, w2, []);
  }

  /** A reply fenced with the `json` tag, as models tend to send it. */
  lemma StripFencesExample(reply: string)
    requires reply == "```json\n{\"a\":1}\n```"
    ensures StripFences(reply) == "{\"a\":1}"
  {
    var tag, w1, body, w2 := reply[..7], reply[7..8], reply[8..15], reply[15..16];
    assert tag == JsonFence && body == "{\"a\":1}" && reply[16..] == Fence;
    assert AllSpace(w1) && AllSpace(w2) && AllSpace([]);
    assert reply == [] + tag + w1 + body + w2 + reply[16..] + [];
    StripFencesWrapped([], tag, w1, body, w2, []);
  }

  /** `generate_json` after the clean-up: the cleaned text is returned when it parses as JSON;
      otherwise the call raises, reporting the cleaned text. */
  function GenerateJson<J>(reply: string, parse: string -> Option<J>): (r: Result<string, string>)
    ensures r.Success? <==> parse(StripFences(reply)).Some?
    ensures r.Success? ==> r.value == StripFences(reply) && Infix(r.value, reply) && parse(r.value).Some?
    ensures r.Failure? ==> r.error == StripFences(reply)
  {
    var text := StripFences(reply);
    if parse(text).Some? then Success(text) else Failure(text)
  }
}
