/** `pipeline/generate_api_call.py`: the schema of the resolved endpoint is
    rendered one line per parameter, embedded in a fixed prompt together
    with the user's request, the language model's reply is cleaned and
    parsed, and the request descriptor is assembled from the graph's
    endpoint details. The language model is a parameter (a function from
    prompt to reply), and so is the JSON parser. */
module Synthesis {
  import opened Wrappers
  import opened Strings
  import opened OrderedMaps
  import opened Records
  import opened Graphs
  import opened Projection
  import opened Queries
  import opened RoundTrip
  import opened Fences

  /** How an f-string shows an optional text: Python writes `None` for a
      null. */
  function Show(v: Option<string>): string {
    match v
    case None => "None"
    case Some(s) => s
  }

  function Qualifier(required: bool): (q: string)
    ensures |q| == 8
  {
    if required then "required" else "optional"
  }

  /** One field of a model parameter, `name (type)`. */
  function FieldText(f: FieldPair): string {
    Show(f.0) + " (" + Show(f.1) + ")"
  }

  function FieldTexts(fields: OMap<Option<string>, Option<string>>): (ts: seq<string>)
    ensures |ts| == |fields|
    ensures forall i :: 0 <= i < |fields| ==> ts[i] == FieldText(fields[i])
  {
    seq(|fields|, i requires 0 <= i < |fields| => FieldText(fields[i]))
  }

  const ObjectPrefix := "object with fields ["

  /** What follows the qualifier: the field list of a model parameter, the
      type of any other. */
  function Shape(e: Entry): string {
    match e.model
    case Some(info) => FieldList(info.fields)
    case None => e.typ
  }

  /** The bracketed field list of a model parameter: each field as
      `name (type)`, in the order of the field map, separated by ", ". */
  function FieldList(fields: OMap<Option<string>, Option<string>>): string {
    ObjectPrefix + Join(", ", FieldTexts(fields)) + "]"
  }

  /** The line `generate_api_call` writes for one schema entry: `- `, the
      parameter's name, ` (`, `required` exactly when the entry is required
      and `optional` otherwise, `): `, and then nothing but the parameter's
      type or, for a model parameter, the bracketed list of its fields. */
  function RenderEntry(name: string, e: Entry): (line: string)
    ensures StartsWith(line, "- " + name + " (")
    ensures OccursAt(line, "required", |name| + 4) <==> e.required
    ensures OccursAt(line, "optional", |name| + 4) <==> !e.required
    ensures OccursAt(line, "): ", |name| + 12)
    ensures e.model.None? ==> |line| == |name| + 15 + |e.typ| && EndsWith(line, "): " + e.typ)
    ensures e.model.Some? ==>
      |line| == |name| + 15 + |FieldList(e.model.value.fields)| && EndsWith(line, FieldList(e.model.value.fields))
  {
    EntryLayout(name, e);
    "- " + name + " (" + Qualifier(e.required) + "): " + Shape(e)
  }

  /** Where the qualifier, the colon and the rest sit on an entry's line. */
  lemma EntryLayout(name: string, e: Entry)
    ensures var line := "- " + name + " (" + Qualifier(e.required) + "): " + Shape(e);
      && |line| == |name| + 15 + |Shape(e)|
      && line[|name| + 4..|name| + 12] == Qualifier(e.required)
      && line[|name| + 12..|name| + 15] == "): "
      && line[|name| + 12..] == "): " + Shape(e)
      && line[|name| + 15..] == Shape(e)
  {
    var head := "- " + name + " (";
    var line := head + Qualifier(e.required) + "): " + Shape(e);
    assert line == (head + Qualifier(e.required)) + ("): " + Shape(e));
    assert line == (head + Qualifier(e.required) + "): ") + Shape(e);
  }

  /** Every field of a model parameter appears on its line as
      `name (type)`. */
  lemma RenderEntryFields(name: string, e: Entry, i: nat)
    requires e.model.Some? && i < |e.model.value.fields|
    ensures Contains(RenderEntry(name, e), FieldText(e.model.value.fields[i]))
  {
    var ts := FieldTexts(e.model.value.fields);
    var j := Join(", ", ts);
    var fl := FieldList(e.model.value.fields);
    var line := RenderEntry(name, e);
    JoinContains(", ", ts, i);
    assert OccursAt(fl, j, |ObjectPrefix|);
    OccursInSuffix(line, fl, j, |ObjectPrefix|);
    assert Contains(line, j);
    ContainsTransitive(line, j, ts[i]);
  }

  /** An occurrence inside a suffix is an occurrence in the whole text. */
  lemma OccursInSuffix(s: string, t: string, u: string, a: nat)
    requires EndsWith(s, t) && OccursAt(t, u, a)
    ensures OccursAt(s, u, |s| - |t| + a)
  {
    var k := |s| - |t|;
    forall m | 0 <= m < |u| ensures s[k + a + m] == u[m] {
      assert s[k + a + m] == s[k..][a + m] == t[a + m];
    }
  }

  /** Every piece occurs in the joined text. */
  lemma {:induction false} JoinContains(sep: string, parts: seq<string>, i: nat)
    requires i < |parts|
    ensures Contains(Join(sep, parts), parts[i])
    decreases |parts|
  {
    var s := Join(sep, parts);
    if |parts| == 1 {
      assert OccursAt(s, parts[0], 0);
    } else if i == 0 {
      assert s == parts[0] + (sep + Join(sep, parts[1..]));
      assert OccursAt(s, parts[0], 0);
    } else {
      var rest := Join(sep, parts[1..]);
      var k := |parts[0]| + |sep|;
      assert s == (parts[0] + sep) + rest;
      assert s[k..k + |rest|] == rest;
      assert OccursAt(s, rest, k);
      JoinContains(sep, parts[1..], i - 1);
      ContainsTransitive(s, rest, parts[i]);
    }
  }

  /** The lines of a schema, in its order. */
  function SchemaLines(s: OMap<string, Entry>): (lines: seq<string>)
    ensures |lines| == |s|
    ensures forall i :: 0 <= i < |s| ==> lines[i] == RenderEntry(s[i].0, s[i].1)
  {
    seq(|s|, i requires 0 <= i < |s| => RenderEntry(s[i].0, s[i].1))
  }

  /** The schema text of the prompt: the entries' lines joined by line
      feeds, in schema order. */
  function RenderSchema(s: OMap<string, Entry>): (text: string)
    ensures s == [] ==> text == ""
  {
    Join("\n", SchemaLines(s))
  }

  /** No part of an entry holds a line feed, so its line holds none. */
  predicate SingleLine(name: string, e: Entry) {
    && '\n' !in name && '\n' !in e.typ
    && (e.model.Some? ==> forall i :: 0 <= i < |e.model.value.fields| ==>
          '\n' !in FieldText(e.model.value.fields[i]))
  }

  lemma SingleLineEntry(name: string, e: Entry)
    requires SingleLine(name, e)
    ensures '\n' !in RenderEntry(name, e)
  {
    assert '\n' !in Shape(e) by {
      if e.model.Some? {
        var j := Join(", ", FieldTexts(e.model.value.fields));
        JoinKeepsOut(", ", FieldTexts(e.model.value.fields), '\n');
        assert Shape(e) == ObjectPrefix + j + "]";
        assert '\n' !in ObjectPrefix;
      }
    }
    assert '\n' !in Qualifier(e.required);
    var head := "- " + name + " (";
    assert '\n' !in head;
    assert RenderEntry(name, e) == head + Qualifier(e.required) + "): " + Shape(e);
  }

  /** The rendered schema splits back into one line per entry, in the
      schema's order, each opening with its parameter's name. */
  lemma RenderSchemaLines(s: OMap<string, Entry>)
    requires |s| > 0
    requires forall i :: 0 <= i < |s| ==> SingleLine(s[i].0, s[i].1)
    ensures var lines := Split(RenderSchema(s), '\n');
      && |lines| == |s|
      && forall i :: 0 <= i < |s| ==> lines[i] == RenderEntry(s[i].0, s[i].1) && StartsWith(lines[i], "- " + s[i].0 + " (")
  {
    var lines := SchemaLines(s);
    forall i | 0 <= i < |lines| ensures '\n' !in lines[i] {
      SingleLineEntry(s[i].0, s[i].1);
    }
    SplitJoin(lines, '\n');
  }

  /** The fixed text of `generate_api_call`'s prompt around the schema and the request. */
  const PromptHead := "\nYou are given an API schema derived from a graph database.\n\nSchema (STRICT):\n"
  const PromptRules := "\n\nRules (MANDATORY):\n"
    + "- dest_address MUST be an object with keys: street, city, country_code\n"
    + "- service_code MUST be one of: EXP, STD\n"
    + "- Do NOT return arrays for objects\n"
    + "- Do NOT invent new keys\n"
    + "- Return ONLY valid JSON, no markdown, no explanations\n"
    + "\nUser request:\n"
  const PromptTail := "\n\nReturn only the JSON object for the request body.\n"

  /** Five pieces laid end to end: each sits right after the one before. */
  function Frame(x1: string, x2: string, x3: string, x4: string, x5: string): (p: string)
    ensures |p| == |x1| + |x2| + |x3| + |x4| + |x5|
    ensures StartsWith(p, x1)
    ensures OccursAt(p, x2, |x1|)
    ensures OccursAt(p, x3, |x1| + |x2|)
    ensures OccursAt(p, x4, |x1| + |x2| + |x3|)
    ensures EndsWith(p, x5)
  {
    var p := x1 + x2 + x3 + x4 + x5;
    var a := |x1|;
    var b := a + |x2|;
    var c := b + |x3|;
    var d := c + |x4|;
    assert p[..a] == x1 && p[a..b] == x2 && p[b..c] == x3 && p[c..d] == x4 && p[d..] == x5;
    p
  }

  /** The prompt of `generate_api_call`: the fixed header, the schema, the fixed
      rules, the user's request and the fixed closing line, in that order
      and nothing else. */
  function BuildPrompt(schemaText: string, intent: string): (p: string)
    ensures |p| == |PromptHead| + |schemaText| + |PromptRules| + |intent| + |PromptTail|
    ensures StartsWith(p, PromptHead)
    ensures OccursAt(p, schemaText, |PromptHead|)
    ensures OccursAt(p, PromptRules, |PromptHead| + |schemaText|)
    ensures OccursAt(p, intent, |PromptHead| + |schemaText| + |PromptRules|)
    ensures EndsWith(p, PromptTail)
  {
    Frame(PromptHead, schemaText, PromptRules, intent, PromptTail)
  }

  /** The prompt the pipeline sends for an intent, given the graph. */
  function PromptFor(intent: string, g: Graph): string {
    BuildPrompt(RenderSchema(GetEndpointSchema(g, FindEndpoint(intent))), intent)
  }

  /** The prompt carries the user's request and the rendered schema. */
  lemma PromptCarries(intent: string, g: Graph)
    ensures Contains(PromptFor(intent, g), intent)
    ensures Contains(PromptFor(intent, g), RenderSchema(GetEndpointSchema(g, FindEndpoint(intent))))
  {
    BuiltPromptCarries(RenderSchema(GetEndpointSchema(g, FindEndpoint(intent))), intent);
  }

  lemma BuiltPromptCarries(schemaText: string, intent: string)
    ensures Contains(BuildPrompt(schemaText, intent), intent) && Contains(BuildPrompt(schemaText, intent), schemaText)
  {
    var p := BuildPrompt(schemaText, intent);
    assert OccursAt(p, intent, |PromptHead| + |schemaText| + |PromptRules|);
    assert OccursAt(p, schemaText, |PromptHead|);
  }

  /** The request descriptor `generate_api_call` returns; `body` is the
      parsed JSON value. */
  datatype Descriptor<J> = Descriptor(url: string, verb: string, headers: OMap<string, string>, body: J)

  /** How the call can fail: the cleaned reply is not JSON (the error
      raised in `generate_json` propagates), or the intent resolved to no
      endpoint with details (subscripting `None` raises). */
  datatype CallError = InvalidJson(text: string) | UnresolvedEndpoint

  /** The end of `generate_api_call` once the reply has been checked: a reply that is not
      JSON is reported first; otherwise the details must exist, and the
      descriptor takes the URL and method from them, binds the
      authentication header alone to its format, and carries the parsed
      reply. */
  function Assemble<J>(details: Option<Details>, checked: Result<string, string>, parse: string -> Option<J>)
    : (r: Result<Descriptor<J>, CallError>)
    requires checked.Success? ==> parse(checked.value).Some?
    ensures checked.Failure? ==> r == Failure(InvalidJson(checked.error))
    ensures checked.Success? && details.None? ==> r == Failure(UnresolvedEndpoint)
    ensures checked.Success? && details.Some? ==> r.Success?
    ensures r.Success? ==>
      && checked.Success? && details.Some?
      && parse(checked.value) == Some(r.value.body)
      && r.value.url == details.value.url && r.value.verb == details.value.verb
      && Keys(r.value.headers) == [details.value.authHeader]
      && Get(r.value.headers, details.value.authHeader) == Some(details.value.authFormat)
  {
    match checked
    case Failure(text) => Failure(InvalidJson(text))
    case Success(text) =>
      match details
      case None => Failure(UnresolvedEndpoint)
      case Some(d) => Success(Descriptor(d.url, d.verb, [(d.authHeader, d.authFormat)], parse(text).value))
  }

  /** `generate_api_call`. The reply is checked before the details are
      used, so an unresolved intent still costs a model call, and a reply
      that is not JSON is reported even then. */
  function GenerateApiCall<J>(intent: string, g: Graph, model: string -> string, parse: string -> Option<J>)
    : (r: Result<Descriptor<J>, CallError>)
    ensures var text := StripFences(model(PromptFor(intent, g)));
      && (r.Failure? && r.error.InvalidJson? <==> parse(text).None?)
      && (r.Failure? && r.error.UnresolvedEndpoint? <==>
            parse(text).Some? && GetEndpointDetails(g, FindEndpoint(intent)).None?)
      && (r.Success? ==> parse(text) == Some(r.value.body))
  {
    var details := GetEndpointDetails(g, FindEndpoint(intent));
    Assemble(details, GenerateJson(model(PromptFor(intent, g)), parse), parse)
  }

  /** An intent that mentions neither shipping nor delivery resolves to no
      endpoint: its prompt carries the empty schema and the call fails
      whatever the model replies. */
  lemma UnresolvedIntent<J>(intent: string, g: Graph, model: string -> string, parse: string -> Option<J>)
    requires !Contains(ToLower(intent), "ship") && !Contains(ToLower(intent), "deliver")
    ensures PromptFor(intent, g) == BuildPrompt("", intent)
    ensures GenerateApiCall(intent, g, model, parse).Failure?
  {
  }

  /** End to end: after projecting a record with an authentication section
      in which endpoint `j` is the first with the shipments path, an intent
      about shipping or delivery whose reply parses yields the base URL
      followed by that path, the endpoint's method, the single
      authentication header and the parsed reply. */
  lemma GenerateAfterBuild<J>(rec: ApiRecord, g: Graph, j: nat, intent: string,
                              model: string -> string, parse: string -> Option<J>)
    requires rec.authentication.Some? && FirstWithPath(rec.endpoints, j, ShipmentsPath)
    requires Contains(ToLower(intent), "ship") || Contains(ToLower(intent), "deliver")
    requires var built := BuildGraph(rec, g).graph;
      parse(StripFences(model(PromptFor(intent, built)))).Some?
    ensures var built := BuildGraph(rec, g).graph;
      var auth := rec.authentication.value;
      GenerateApiCall(intent, built, model, parse) ==
        Success(Descriptor(rec.baseUrl + ShipmentsPath, rec.endpoints[j].verb, [(auth.header, auth.format)],
                           parse(StripFences(model(PromptFor(intent, built)))).value))
  {
    DetailsOfEndpoint(rec, g, j, ShipmentsPath);
  }
}
