/** The read side of the graph (`graph/queries.py`): resolving an intent to
    an endpoint path, the endpoint's call details, and its parameter
    schema. */
module Queries {
  import opened Wrappers
  import opened Strings
  import opened OrderedMaps
  import opened Graphs
  import opened Sequences

  /** The one endpoint the keyword lookup knows. */
  const ShipmentsPath := "/shipments/create"

  const Keywords: seq<string> := ["ship", "shipping", "deliver"]

  /** `any(k in text for k in ks)` */
  predicate AnyIn(text: string, ks: seq<string>) {
    |ks| > 0 && (Contains(text, ks[0]) || AnyIn(text, ks[1..]))
  }

  /** `find_endpoint`: the shipments path when the lower-cased intent
      mentions shipping or delivery; "shipping" adds nothing to "ship". */
  function FindEndpoint(intent: string): (r: Option<string>)
    ensures r.Some? <==> Contains(ToLower(intent), "ship") || Contains(ToLower(intent), "deliver")
    ensures r.Some? ==> r.value == ShipmentsPath
  {
    var low := ToLower(intent);
    ShippingMentionsShip(low);
    KeywordsMean(low);
    if AnyIn(low, Keywords) then Some(ShipmentsPath) else None
  }

  /** The keyword test spelled out. */
  lemma KeywordsMean(text: string)
    ensures AnyIn(text, Keywords) <==>
      Contains(text, "ship") || Contains(text, "shipping") || Contains(text, "deliver")
  {
    var ks := Keywords;
    assert ks[1..] == ["shipping", "deliver"] && ks[1..][1..] == ["deliver"] && ks[1..][1..][1..] == [];
    assert !AnyIn(text, []);
    assert AnyIn(text, ["deliver"]) <==> Contains(text, "deliver");
    assert AnyIn(text, ["shipping", "deliver"]) <==> Contains(text, "shipping") || Contains(text, "deliver");
  }

  /** Every text that mentions "shipping" mentions "ship". */
  lemma ShippingMentionsShip(text: string)
    ensures Contains(text, "shipping") ==> Contains(text, "ship")
  {
    if Contains(text, "shipping") {
      assert OccursAt("shipping", "ship", 0);
      ContainsTransitive(text, "shipping", "ship");
    }
  }

  /** Intents that differ only in letter case resolve alike. */
  lemma FindEndpointIgnoresCase(a: string, b: string)
    requires SameIgnoringCase(a, b)
    ensures FindEndpoint(a) == FindEndpoint(b)
  {
    SameIgnoringCaseLower(a, b);
  }

  /** What `get_endpoint_details` returns. */
  datatype Details = Details(url: string, verb: string, authHeader: string, authFormat: string, description: string)

  /** `d` is what a row pairing API node `a` with Endpoint node `e` of the
      path gives: the URL is the base URL followed by the path, the rest is
      copied. */
  predicate DetailsFrom(g: Graph, a: int, e: int, path: string, d: Details) {
    && 0 <= a < |g.nodes| && 0 <= e < |g.nodes|
    && g.nodes[a].ApiNode? && g.nodes[e].EndpointNode? && g.nodes[e].path == path
    && d == Details(g.nodes[a].baseUrl + path, g.nodes[e].verb,
                    g.nodes[a].authHeader, g.nodes[a].authFormat, g.nodes[e].description)
  }

  /** `get_endpoint_details`: the first row of the API node paired with an
      Endpoint node of the path. A missing path (Python's None) matches no
      node, as a null property never compares equal. */
  function GetEndpointDetails(g: Graph, path: Option<string>): (r: Option<Details>)
    ensures r.None? <==>
      || path.None?
      || (forall i :: 0 <= i < |g.nodes| ==> !g.nodes[i].ApiNode?)
      || (forall i :: 0 <= i < |g.nodes| ==> !Matches(g.nodes[i], EndpointWithPath(path.value)))
    ensures r.Some? ==> path.Some? && (exists a, e :: DetailsFrom(g, a, e, path.value, r.value))
  {
    if path.None? then None
    else
      match (FirstFrom(g.nodes, AnyApi, 0), FirstFrom(g.nodes, EndpointWithPath(path.value), 0))
      case (Some(a), Some(e)) =>
        var api := g.nodes[a];
        var ep := g.nodes[e];
        var d := Details(api.baseUrl + ep.path, ep.verb, api.authHeader, api.authFormat, ep.description);
        assert DetailsFrom(g, a, e, path.value, d);
        Some(d)
      case _ => None
  }

  /** A collected `{name: f.name, type: f.type}` map; Cypher's null is
      `None`. */
  type FieldPair = (Option<string>, Option<string>)

  /** The implicit grouping key of the schema query: everything it returns
      besides the collected fields. */
  datatype Key = Key(param: string, typ: string, required: bool, modelName: Option<string>)

  /** A key carries the properties of Parameter node `p`. */
  predicate KeyOf(k: Key, p: Node) {
    p.ParameterNode? && k.param == p.name && k.typ == p.typ && k.required == p.required
  }

  /** One row before aggregation: a parameter and one optional model field. */
  datatype RawRow = RawRow(key: Key, field: FieldPair)

  /** One row of the schema query. */
  datatype Row = Row(param: string, typ: string, required: bool, modelName: Option<string>, fields: seq<FieldPair>)

  /** The targets of `src`'s `rel` relationships that carry label `lab`, in
      relationship order. */
  function Targets(g: Graph, src: nat, rel: Rel, lab: string): (ts: seq<nat>)
    ensures forall t :: t in ts ==> t < |g.nodes| && LabelOf(g.nodes[t]) == lab
  {
    var f: Edge -> Option<nat> := (e: Edge) =>
      if e.src == src && e.rel == rel && e.dst < |g.nodes| && LabelOf(g.nodes[e.dst]) == lab then Some(e.dst) else None;
    var ts: seq<nat> := FilterMap<Edge, nat>(g.edges, f);
    assert forall t :: t in ts ==> t < |g.nodes| && LabelOf(g.nodes[t]) == lab by {
      forall t | t in ts ensures t < |g.nodes| && LabelOf(g.nodes[t]) == lab {
        FilterMapMembers<Edge, nat>(g.edges, f, t);
        var e :| e in g.edges && f(e) == Some(t);
      }
    }
    ts
  }

  lemma TargetsMembers(g: Graph, src: nat, rel: Rel, lab: string, t: nat)
    ensures t in Targets(g, src, rel, lab) <==>
      t < |g.nodes| && LabelOf(g.nodes[t]) == lab && Edge(src, rel, t) in g.edges
  {
    var f: Edge -> Option<nat> := (e: Edge) =>
      if e.src == src && e.rel == rel && e.dst < |g.nodes| && LabelOf(g.nodes[e.dst]) == lab then Some(e.dst) else None;
    FilterMapMembers<Edge, nat>(g.edges, f, t);
    if t < |g.nodes| && LabelOf(g.nodes[t]) == lab && Edge(src, rel, t) in g.edges {
      assert f(Edge(src, rel, t)) == Some(t);
    }
  }

  /** The rows `OPTIONAL MATCH (p)-[:IS_TYPE]->(m:Model)-[:HAS_FIELD]->(f:Field)`
      yields for Parameter node `pi`: one per model field reached, or a
      single row of nulls when there is none. */
  function ParamRows(g: Graph, pi: nat): (rows: seq<RawRow>)
    ensures pi < |g.nodes| && g.nodes[pi].ParameterNode? ==>
      |rows| > 0 && forall x :: x in rows ==> KeyOf(x.key, g.nodes[pi])
  {
    if pi < |g.nodes| && g.nodes[pi].ParameterNode? then
      var p := g.nodes[pi];
      var pairs := ParamPairs(g, pi);
      if |pairs| == 0 then [RawRow(Key(p.name, p.typ, p.required, None), (None, None))]
      else seq(|pairs|, k requires 0 <= k < |pairs| => FieldRow(g, p, pairs[k].0, pairs[k].1))
    else []
  }

  /** The (model, field) node pairs reached from model node `m`: `m`
      itself with each of its Field targets. */
  function ModelFieldPairs(g: Graph, m: nat): (pairs: seq<(nat, nat)>)
    ensures forall x :: x in pairs <==> x.0 == m && x.1 in Targets(g, m, HasField, "Field")
  {
    var fs := Targets(g, m, HasField, "Field");
    var pairs := seq(|fs|, k requires 0 <= k < |fs| => (m, fs[k]));
    assert forall x :: x in pairs ==> x.0 == m && x.1 in fs;
    assert forall f :: f in fs ==> (m, f) in pairs by {
      forall f | f in fs ensures (m, f) in pairs {
        var k :| 0 <= k < |fs| && fs[k] == f;
        assert pairs[k] == (m, f);
      }
    }
    pairs
  }

  /** The (model, field) node pairs the optional match reaches from
      Parameter node `pi`, model by model. */
  function ParamPairs(g: Graph, pi: nat): seq<(nat, nat)> {
    ConcatMap(Targets(g, pi, IsType, "Model"), (m: nat) => ModelFieldPairs(g, m))
  }

  /** A pair is reached exactly when its model is a type of the parameter
      and its field a field of that model. */
  lemma ParamPairsMembers(g: Graph, pi: nat, x: (nat, nat))
    ensures x in ParamPairs(g, pi) <==>
      x.0 in Targets(g, pi, IsType, "Model") && x.1 in Targets(g, x.0, HasField, "Field")
  {
    ConcatMapMembers<nat, (nat, nat)>(Targets(g, pi, IsType, "Model"), (m: nat) => ModelFieldPairs(g, m), x);
  }

  /** The row of a parameter reaching field node `f` through model node `m`. */
  function FieldRow(g: Graph, p: Node, m: nat, f: nat): (x: RawRow)
    requires p.ParameterNode?
    ensures KeyOf(x.key, p)
  {
    var mname := if m < |g.nodes| && g.nodes[m].ModelNode? then Some(g.nodes[m].name) else None;
    RawRow(Key(p.name, p.typ, p.required, mname), FieldOf(g, f))
  }

  /** `{name: f.name, type: f.type}` for node `f`; nulls when it is not a
      Field node. */
  function FieldOf(g: Graph, f: nat): FieldPair {
    if f < |g.nodes| && g.nodes[f].FieldNode? then (Some(g.nodes[f].name), Some(g.nodes[f].typ)) else (None, None)
  }

  /** `MATCH (e:Endpoint {path:$path}) MATCH (e)-[:ACCEPTS]->(p:Parameter)`
      followed by the optional match, before aggregation. */
  function RawRows(g: Graph, path: string): seq<RawRow> {
    ConcatMap(MatchAll(g, EndpointWithPath(path)), (e: nat) => EndpointRows(g, e))
  }

  /** The raw rows of one Endpoint node. */
  function EndpointRows(g: Graph, e: nat): seq<RawRow> {
    ConcatMap(Targets(g, e, Accepts, "Parameter"), (pi: nat) => ParamRows(g, pi))
  }

  /** Aggregation by key: `collect` gathers the fields of every raw row
      with the same key, keys in order of first appearance. */
  function Group(raws: seq<RawRow>): (m: OMap<Key, seq<FieldPair>>)
    ensures UniqueKeys(m)
  {
    if |raws| == 0 then []
    else
      var m := Group(raws[..|raws| - 1]);
      var x := raws[|raws| - 1];
      var prev := match Get(m, x.key) case Some(fs) => fs case None => [];
      Put(m, x.key, prev + [x.field])
  }

  /** Some raw row has key `k`. */
  ghost predicate HasKey(raws: seq<RawRow>, k: Key) {
    exists x :: x in raws && x.key == k
  }

  /** The groups are exactly the keys of the raw rows. */
  lemma {:induction false} GroupKeys(raws: seq<RawRow>, k: Key)
    ensures k in Keys(Group(raws)) <==> HasKey(raws, k)
  {
    if |raws| > 0 {
      GroupKeys(raws[..|raws| - 1], k);
      HasKeySnoc(raws, k);
    }
  }

  lemma HasKeySnoc(raws: seq<RawRow>, k: Key)
    requires |raws| > 0
    ensures HasKey(raws, k) <==> HasKey(raws[..|raws| - 1], k) || raws[|raws| - 1].key == k
  {
    var init := raws[..|raws| - 1];
    assert raws == init + [raws[|raws| - 1]];
    assert forall x :: x in raws <==> x in init || x == raws[|raws| - 1];
  }

  /** The rows of `get_endpoint_schema`'s query. */
  function SchemaRows(g: Graph, path: string): (rows: seq<Row>)
    ensures var m := Group(RawRows(g, path));
      |rows| == |m| && forall i :: 0 <= i < |m| ==> rows[i] == Row(m[i].0.param, m[i].0.typ, m[i].0.required, m[i].0.modelName, m[i].1)
  {
    var m := Group(RawRows(g, path));
    seq(|m|, i requires 0 <= i < |m| =>
      Row(m[i].0.param, m[i].0.typ, m[i].0.required, m[i].0.modelName, m[i].1))
  }

  /** What a parameter's model contributes to its schema entry. */
  datatype ModelInfo = ModelInfo(name: Option<string>, fields: OMap<Option<string>, Option<string>>)

  /** A schema entry: `{"type", "required"}` and, for a parameter whose
      model has fields, `"model"` and `"fields"`. */
  datatype Entry = Entry(typ: string, required: bool, model: Option<ModelInfo>)

  /** The model test of `get_endpoint_schema`'s loop: a row names a model when its collected list is
      non-empty and the first collected name is not null. */
  predicate NamesModel(r: Row) {
    |r.fields| > 0 && r.fields[0].0.Some?
  }

  /** The entry of one row. */
  function EntryOf(r: Row): (e: Entry)
    ensures e.typ == r.typ && e.required == r.required
    ensures e.model.Some? <==> NamesModel(r)
    ensures e.model.Some? ==> e.model.value.name == r.modelName && UniqueKeys(e.model.value.fields)
  {
    if NamesModel(r) then Entry(r.typ, r.required, Some(ModelInfo(r.modelName, FromPairs(r.fields))))
    else Entry(r.typ, r.required, None)
  }

  /** The loop of `get_endpoint_schema`: each row's entry is assigned under its
      parameter name, so a later row replaces an earlier one. */
  function SchemaOf(rows: seq<Row>): (s: OMap<string, Entry>)
    ensures UniqueKeys(s)
  {
    FromPairs(seq(|rows|, i requires 0 <= i < |rows| => (rows[i].param, EntryOf(rows[i]))))
  }

  /** `get_endpoint_schema` */
  function GetEndpointSchema(g: Graph, path: Option<string>): (s: OMap<string, Entry>)
    ensures UniqueKeys(s)
    ensures path.None? ==> s == []
  {
    match path
    case None => []
    case Some(p) => SchemaOf(SchemaRows(g, p))
  }

  /** A Parameter node the query reaches: the target of an ACCEPTS
      relationship from an Endpoint node with the path. */
  predicate Accepted(g: Graph, path: string, pi: nat) {
    && pi < |g.nodes| && g.nodes[pi].ParameterNode?
    && exists e :: 0 <= e < |g.nodes| && Matches(g.nodes[e], EndpointWithPath(path)) && Edge(e, Accepts, pi) in g.edges
  }

  /** A raw row comes from a reached Parameter node, and every reached
      Parameter node gives one. */
  lemma RawRowsFrom(g: Graph, path: string, x: RawRow)
    ensures x in RawRows(g, path) <==> exists pi: nat :: Accepted(g, path, pi) && x in ParamRows(g, pi)
  {
    if x in RawRows(g, path) {
      var pi := RawRowSource(g, path, x);
    }
    if exists pi: nat :: Accepted(g, path, pi) && x in ParamRows(g, pi) {
      var pi: nat :| Accepted(g, path, pi) && x in ParamRows(g, pi);
      RawRowOfSource(g, path, pi, x);
    }
  }

  lemma RawRowSource(g: Graph, path: string, x: RawRow) returns (pi: nat)
    requires x in RawRows(g, path)
    ensures Accepted(g, path, pi) && x in ParamRows(g, pi)
  {
    var eps := MatchAll(g, EndpointWithPath(path));
    ConcatMapMembers<nat, RawRow>(eps, (e: nat) => EndpointRows(g, e), x);
    var e :| e in eps && x in EndpointRows(g, e);
    EndpointRowsFrom(g, e, x);
    pi :| pi < |g.nodes| && g.nodes[pi].ParameterNode? && Edge(e, Accepts, pi) in g.edges && x in ParamRows(g, pi);
  }

  lemma RawRowOfSource(g: Graph, path: string, pi: nat, x: RawRow)
    requires Accepted(g, path, pi) && x in ParamRows(g, pi)
    ensures x in RawRows(g, path)
  {
    var eps := MatchAll(g, EndpointWithPath(path));
    var e :| 0 <= e < |g.nodes| && Matches(g.nodes[e], EndpointWithPath(path)) && Edge(e, Accepts, pi) in g.edges;
    EndpointRowsFrom(g, e, x);
    ConcatMapMembers<nat, RawRow>(eps, (e: nat) => EndpointRows(g, e), x);
  }

  lemma EndpointRowsFrom(g: Graph, e: nat, x: RawRow)
    ensures x in EndpointRows(g, e) <==>
      exists pi: nat :: pi < |g.nodes| && g.nodes[pi].ParameterNode? && Edge(e, Accepts, pi) in g.edges && x in ParamRows(g, pi)
  {
    if x in EndpointRows(g, e) {
      var pi := EndpointRowSource(g, e, x);
    }
    if exists pi: nat :: pi < |g.nodes| && g.nodes[pi].ParameterNode? && Edge(e, Accepts, pi) in g.edges && x in ParamRows(g, pi) {
      var pi: nat :| pi < |g.nodes| && g.nodes[pi].ParameterNode? && Edge(e, Accepts, pi) in g.edges && x in ParamRows(g, pi);
      EndpointRowOfSource(g, e, pi, x);
    }
  }

  lemma EndpointRowSource(g: Graph, e: nat, x: RawRow) returns (pi: nat)
    requires x in EndpointRows(g, e)
    ensures pi < |g.nodes| && g.nodes[pi].ParameterNode? && Edge(e, Accepts, pi) in g.edges && x in ParamRows(g, pi)
  {
    var ts := Targets(g, e, Accepts, "Parameter");
    ConcatMapMembers<nat, RawRow>(ts, (pi: nat) => ParamRows(g, pi), x);
    pi :| pi in ts && x in ParamRows(g, pi);
    TargetsMembers(g, e, Accepts, "Parameter", pi);
  }

  lemma EndpointRowOfSource(g: Graph, e: nat, pi: nat, x: RawRow)
    requires pi < |g.nodes| && g.nodes[pi].ParameterNode? && Edge(e, Accepts, pi) in g.edges && x in ParamRows(g, pi)
    ensures x in EndpointRows(g, e)
  {
    var ts := Targets(g, e, Accepts, "Parameter");
    TargetsMembers(g, e, Accepts, "Parameter", pi);
    ConcatMapMembers<nat, RawRow>(ts, (pi: nat) => ParamRows(g, pi), x);
  }

  /** The pairs the schema loop assigns, in row order. */
  function Assignments(rows: seq<Row>): (pairs: seq<(string, Entry)>)
    ensures |pairs| == |rows|
    ensures forall i :: 0 <= i < |rows| ==> pairs[i] == (rows[i].param, EntryOf(rows[i]))
  {
    seq(|rows|, i requires 0 <= i < |rows| => (rows[i].param, EntryOf(rows[i])))
  }

  /** The schema has an entry for a name exactly when some row carries it. */
  lemma SchemaKeys(rows: seq<Row>, n: string)
    ensures Get(SchemaOf(rows), n).Some? <==> exists i :: 0 <= i < |rows| && rows[i].param == n
  {
    var pairs := Assignments(rows);
    assert SchemaOf(rows) == FromPairs(pairs);
    FromPairsKeys(pairs, n);
  }

  /** When several rows share a parameter name, the last one's entry wins. */
  lemma SchemaLastWins(rows: seq<Row>, i: nat)
    requires i < |rows|
    requires forall j :: i < j < |rows| ==> rows[j].param != rows[i].param
    ensures Get(SchemaOf(rows), rows[i].param) == Some(EntryOf(rows[i]))
  {
    var pairs := Assignments(rows);
    assert SchemaOf(rows) == FromPairs(pairs);
    FromPairsLast(pairs, i);
  }

  /** Every schema entry is the entry of a row of that name. */
  lemma SchemaEntryFrom(rows: seq<Row>, n: string)
    ensures Get(SchemaOf(rows), n).Some? ==>
      exists i :: 0 <= i < |rows| && rows[i].param == n && EntryOf(rows[i]) == Get(SchemaOf(rows), n).value
  {
    var pairs := Assignments(rows);
    assert SchemaOf(rows) == FromPairs(pairs);
    FromPairsFrom(pairs, n);
    if Get(SchemaOf(rows), n).Some? {
      var i :| 0 <= i < |pairs| && pairs[i] == (n, Get(SchemaOf(rows), n).value);
      assert rows[i].param == n;
    }
  }

  /** The field map of an entry binds exactly the collected names, each to
      the type of the last field of that name. */
  lemma EntryFields(r: Row, n: Option<string>)
    requires NamesModel(r)
    ensures var fs := EntryOf(r).model.value.fields;
      Get(fs, n).Some? <==> exists j :: 0 <= j < |r.fields| && r.fields[j].0 == n
    ensures var fs := EntryOf(r).model.value.fields;
      forall j :: 0 <= j < |r.fields| && r.fields[j].0 == n && (forall j' :: j < j' < |r.fields| ==> r.fields[j'].0 != n) ==>
        Get(fs, n) == Some(r.fields[j].1)
  {
    FromPairsKeys(r.fields, n);
    forall j | 0 <= j < |r.fields| && r.fields[j].0 == n && (forall j' :: j < j' < |r.fields| ==> r.fields[j'].0 != n)
      ensures Get(FromPairs(r.fields), n) == Some(r.fields[j].1)
    {
      FromPairsLast(r.fields, j);
    }
  }

  /** The rows carry exactly the names of the reached Parameter nodes. */
  lemma SchemaRowsParams(g: Graph, path: string, n: string)
    ensures (exists i :: 0 <= i < |SchemaRows(g, path)| && SchemaRows(g, path)[i].param == n) <==>
      exists pi: nat :: Accepted(g, path, pi) && g.nodes[pi].name == n
  {
    var rows := SchemaRows(g, path);
    if exists i :: 0 <= i < |rows| && rows[i].param == n {
      var i :| 0 <= i < |rows| && rows[i].param == n;
      RowFrom(g, path, i);
    }
    if exists pi: nat :: Accepted(g, path, pi) && g.nodes[pi].name == n {
      var pi: nat :| Accepted(g, path, pi) && g.nodes[pi].name == n;
      RowOf(g, path, pi);
    }
  }

  /** Each row's key is that of a reached Parameter node. */
  lemma RowFrom(g: Graph, path: string, i: nat)
    requires i < |SchemaRows(g, path)|
    ensures exists pi: nat :: Accepted(g, path, pi) && KeyOf(Group(RawRows(g, path))[i].0, g.nodes[pi])
    ensures SchemaRows(g, path)[i].param == Group(RawRows(g, path))[i].0.param
  {
    var raws := RawRows(g, path);
    var m := Group(raws);
    var k := m[i].0;
    assert Keys(m)[i] == k;
    GroupKeys(raws, k);
    var x :| x in raws && x.key == k;
    RawRowsFrom(g, path, x);
  }

  /** Each reached Parameter node has a row of its name. */
  lemma RowOf(g: Graph, path: string, pi: nat)
    requires Accepted(g, path, pi)
    ensures exists i :: 0 <= i < |SchemaRows(g, path)| && SchemaRows(g, path)[i].param == g.nodes[pi].name
  {
    var raws := RawRows(g, path);
    var m := Group(raws);
    var x := ParamRows(g, pi)[0];
    RawRowsFrom(g, path, x);
    GroupKeys(raws, x.key);
    var i :| 0 <= i < |m| && Keys(m)[i] == x.key;
    assert SchemaRows(g, path)[i].param == g.nodes[pi].name;
  }

  /** `get_endpoint_schema` has an entry for a name exactly when a Parameter
      node of that name hangs off an Endpoint node with the path; an
      unknown path, or an endpoint without ACCEPTS relationships, gives the
      empty schema. */
  lemma GetEndpointSchemaNames(g: Graph, path: string, n: string)
    ensures Get(GetEndpointSchema(g, Some(path)), n).Some? <==>
      exists pi: nat :: Accepted(g, path, pi) && g.nodes[pi].name == n
  {
    SchemaKeys(SchemaRows(g, path), n);
    SchemaRowsParams(g, path, n);
  }

  lemma GetEndpointSchemaEmpty(g: Graph, path: string)
    ensures GetEndpointSchema(g, Some(path)) == [] <==> forall pi: nat :: !Accepted(g, path, pi)
  {
    var s := GetEndpointSchema(g, Some(path));
    NothingBound(s);
    forall n ensures Get(s, n).Some? <==> exists pi: nat :: Accepted(g, path, pi) && g.nodes[pi].name == n {
      GetEndpointSchemaNames(g, path, n);
    }
    if exists pi: nat :: Accepted(g, path, pi) {
      var pi: nat :| Accepted(g, path, pi);
      assert Get(s, g.nodes[pi].name).Some?;
    }
  }

  /** A Parameter node of name `n` with the entry's type and flag. */
  predicate Carries(p: Node, n: string, e: Entry) {
    p == ParameterNode(n, e.typ, e.required)
  }

  /** Every schema entry carries the type and required flag stored on a
      Parameter node of that name reached from the path. */
  lemma GetEndpointSchemaEntry(g: Graph, path: string, n: string)
    ensures var s := GetEndpointSchema(g, Some(path));
      Get(s, n).Some? ==> exists pi: nat :: Accepted(g, path, pi) && Carries(g.nodes[pi], n, Get(s, n).value)
  {
    var rows := SchemaRows(g, path);
    var s := GetEndpointSchema(g, Some(path));
    SchemaEntryFrom(rows, n);
    if Get(s, n).Some? {
      var i :| 0 <= i < |rows| && rows[i].param == n && EntryOf(rows[i]) == Get(s, n).value;
      RowFrom(g, path, i);
    }
  }

  /** The rows of a Parameter node typed by the single model node `mi`,
      which has fields, are one per field of `mi`. */
  lemma ParamRowTyped(g: Graph, pi: nat, mi: nat, x: RawRow)
    requires pi < |g.nodes| && g.nodes[pi].ParameterNode?
    requires mi in Targets(g, pi, IsType, "Model")
    requires forall m :: m in Targets(g, pi, IsType, "Model") ==> m == mi
    requires |Targets(g, mi, HasField, "Field")| > 0
    ensures x in ParamRows(g, pi) <==>
      exists t :: t in Targets(g, mi, HasField, "Field") && x == FieldRow(g, g.nodes[pi], mi, t)
  {
    var fs := Targets(g, mi, HasField, "Field");
    var pairs := ParamPairs(g, pi);
    var rows := ParamRows(g, pi);
    ParamPairsMembers(g, pi, (mi, fs[0]));
    assert rows == seq(|pairs|, k requires 0 <= k < |pairs| => FieldRow(g, g.nodes[pi], pairs[k].0, pairs[k].1));
    if x in rows {
      var k :| 0 <= k < |pairs| && rows[k] == x;
      ParamPairsMembers(g, pi, pairs[k]);
    }
    if exists t :: t in fs && x == FieldRow(g, g.nodes[pi], mi, t) {
      var t :| t in fs && x == FieldRow(g, g.nodes[pi], mi, t);
      ParamPairsMembers(g, pi, (mi, t));
      var k :| 0 <= k < |pairs| && pairs[k] == (mi, t);
      assert rows[k] == x;
    }
  }

  /** `collect` gathers under a key exactly the fields of the raw rows with
      that key. */
  lemma {:induction false} GroupValue(raws: seq<RawRow>, k: Key, fp: FieldPair)
    ensures Get(Group(raws), k).Some? ==> (fp in Get(Group(raws), k).value <==> RawRow(k, fp) in raws)
  {
    if |raws| > 0 {
      var init := raws[..|raws| - 1];
      var last := raws[|raws| - 1];
      assert raws == init + [last];
      GroupValue(init, k, fp);
      GroupKeys(init, k);
      if last.key == k && Get(Group(init), k).None? {
        assert RawRow(k, fp) !in init;
      }
    }
  }

  /** Every reached Parameter node of name `k.param` carries the type and
      flag of `k` and has the Model node `mi`, named `k.modelName` and with
      fields, as its only type. */
  ghost predicate TypedUniformly(g: Graph, path: string, k: Key, mi: nat) {
    && k.modelName.Some? && mi < |g.nodes| && g.nodes[mi] == ModelNode(k.modelName.value)
    && |Targets(g, mi, HasField, "Field")| > 0
    && forall pi: nat :: Accepted(g, path, pi) && g.nodes[pi].name == k.param ==>
         && g.nodes[pi] == ParameterNode(k.param, k.typ, k.required)
         && mi in Targets(g, pi, IsType, "Model")
         && forall m :: m in Targets(g, pi, IsType, "Model") ==> m == mi
  }

  /** Under uniform typing, a raw row of the name has key `k` and one of the
      fields of `mi`. */
  lemma RawRowTyped(g: Graph, path: string, k: Key, mi: nat, x: RawRow)
    requires TypedUniformly(g, path, k, mi) && x in RawRows(g, path) && x.key.param == k.param
    ensures x.key == k && exists t :: t in Targets(g, mi, HasField, "Field") && x.field == FieldOf(g, t)
  {
    var pi := RawRowSource(g, path, x);
    ParamRowTyped(g, pi, mi, x);
  }

  /** Under uniform typing, every field of `mi` gives a raw row of key `k`. */
  lemma FieldRowReached(g: Graph, path: string, k: Key, mi: nat, pi: nat, t: nat)
    requires TypedUniformly(g, path, k, mi) && Accepted(g, path, pi) && g.nodes[pi].name == k.param
    requires t in Targets(g, mi, HasField, "Field")
    ensures RawRow(k, FieldOf(g, t)) in RawRows(g, path)
  {
    ParamRowTyped(g, pi, mi, FieldRow(g, g.nodes[pi], mi, t));
    RawRowOfSource(g, path, pi, FieldRow(g, g.nodes[pi], mi, t));
  }

  /** Under uniform typing, the key `k` collects exactly the fields of `mi`. */
  lemma GroupedTyped(g: Graph, path: string, k: Key, mi: nat, pi: nat, fp: FieldPair)
    requires TypedUniformly(g, path, k, mi) && Accepted(g, path, pi) && g.nodes[pi].name == k.param
    ensures Get(Group(RawRows(g, path)), k).Some?
    ensures fp in Get(Group(RawRows(g, path)), k).value <==>
      exists t :: t in Targets(g, mi, HasField, "Field") && fp == FieldOf(g, t)
  {
    var raws := RawRows(g, path);
    var fs := Targets(g, mi, HasField, "Field");
    FieldRowReached(g, path, k, mi, pi, fs[0]);
    GroupKeys(raws, k);
    GroupValue(raws, k, fp);
    if RawRow(k, fp) in raws {
      RawRowTyped(g, path, k, mi, RawRow(k, fp));
    }
    if exists t :: t in fs && fp == FieldOf(g, t) {
      var t :| t in fs && fp == FieldOf(g, t);
      FieldRowReached(g, path, k, mi, pi, t);
    }
  }

  /** Under uniform typing, the schema row of the name is the group of `k`. */
  lemma SchemaRowTyped(g: Graph, path: string, k: Key, mi: nat, pi: nat) returns (i: nat)
    requires TypedUniformly(g, path, k, mi) && Accepted(g, path, pi) && g.nodes[pi].name == k.param
    ensures var rows := SchemaRows(g, path);
      && i < |rows| && rows[i].param == k.param
      && Get(GetEndpointSchema(g, Some(path)), k.param) == Some(EntryOf(rows[i]))
      && Get(Group(RawRows(g, path)), k).Some?
      && rows[i] == Row(k.param, k.typ, k.required, k.modelName, Get(Group(RawRows(g, path)), k).value)
  {
    var m := Group(RawRows(g, path));
    var rows := SchemaRows(g, path);
    GetEndpointSchemaNames(g, path, k.param);
    SchemaEntryFrom(rows, k.param);
    i :| 0 <= i < |rows| && rows[i].param == k.param &&
      EntryOf(rows[i]) == Get(GetEndpointSchema(g, Some(path)), k.param).value;
    GroupKeyTyped(g, path, k, mi, i);
    GetAt(m, i);
  }

  /** Under uniform typing, the only group of the name is that of `k`. */
  lemma GroupKeyTyped(g: Graph, path: string, k: Key, mi: nat, i: nat)
    requires TypedUniformly(g, path, k, mi)
    requires i < |Group(RawRows(g, path))| && Group(RawRows(g, path))[i].0.param == k.param
    ensures Group(RawRows(g, path))[i].0 == k
  {
    var raws := RawRows(g, path);
    var m := Group(raws);
    assert Keys(m)[i] == m[i].0;
    GroupKeys(raws, m[i].0);
    var x :| x in raws && x.key == m[i].0;
    RawRowTyped(g, path, k, mi, x);
  }

  /** A row whose collected fields are exactly those of the Field nodes
      `fts`, of which there is one at least, names a model, and its field
      map binds exactly their names. */
  lemma RowFieldsTyped(g: Graph, row: Row, fts: seq<nat>, fk: Option<string>)
    requires |fts| > 0 && forall t :: t in fts ==> t < |g.nodes| && g.nodes[t].FieldNode?
    requires forall fp :: fp in row.fields <==> exists t :: t in fts && fp == FieldOf(g, t)
    ensures NamesModel(row)
    ensures Get(FromPairs(row.fields), fk).Some? <==> exists t :: t in fts && fk == Some(g.nodes[t].name)
  {
    assert FieldOf(g, fts[0]) in row.fields;
    assert row.fields[0] in row.fields;
    var t0 :| t0 in fts && row.fields[0] == FieldOf(g, t0);
    FromPairsKeys(row.fields, fk);
    CarriedFields(g, row.fields, fts, fk);
  }

  /** Pairs that are exactly those of the Field nodes `fts` carry exactly
      their names. */
  lemma CarriedFields(g: Graph, fields: seq<FieldPair>, fts: seq<nat>, fk: Option<string>)
    requires forall t :: t in fts ==> t < |g.nodes| && g.nodes[t].FieldNode?
    requires forall fp :: fp in fields <==> exists t :: t in fts && fp == FieldOf(g, t)
    ensures Carried(fields, fk) <==> exists t :: t in fts && fk == Some(g.nodes[t].name)
  {
    if Carried(fields, fk) {
      var j :| 0 <= j < |fields| && fields[j].0 == fk;
      assert fields[j] in fields;
    }
    if exists t :: t in fts && fk == Some(g.nodes[t].name) {
      var t :| t in fts && fk == Some(g.nodes[t].name);
      assert FieldOf(g, t) in fields;
      var j :| 0 <= j < |fields| && fields[j] == FieldOf(g, t);
    }
  }

  /** When every Parameter node of a name reached from the path has the same
      type and flag, and one Model node with fields as its only type, the
      schema entry of that name carries the type and flag, names the model,
      and binds exactly the names of the model's Field nodes. */
  lemma SchemaTyped(g: Graph, path: string, k: Key, mi: nat, pi: nat, fk: Option<string>)
    requires TypedUniformly(g, path, k, mi) && Accepted(g, path, pi) && g.nodes[pi].name == k.param
    ensures var s := GetEndpointSchema(g, Some(path));
      && Get(s, k.param).Some?
      && Get(s, k.param).value.typ == k.typ && Get(s, k.param).value.required == k.required
      && Get(s, k.param).value.model.Some? && Get(s, k.param).value.model.value.name == k.modelName
      && (Get(Get(s, k.param).value.model.value.fields, fk).Some? <==>
            exists t :: t in Targets(g, mi, HasField, "Field") && fk == Some(g.nodes[t].name))
  {
    var fs := Targets(g, mi, HasField, "Field");
    var i := SchemaRowTyped(g, path, k, mi, pi);
    var row := SchemaRows(g, path)[i];
    forall fp ensures fp in row.fields <==> exists t :: t in fs && fp == FieldOf(g, t) {
      GroupedTyped(g, path, k, mi, pi, fp);
    }
    forall t | t in fs ensures t < |g.nodes| && g.nodes[t].FieldNode? {
    }
    RowFieldsTyped(g, row, fs, fk);
  }
}
