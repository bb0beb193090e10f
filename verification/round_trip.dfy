/** What the read side of the graph gives back after a projection: the
    queries of `graph/queries.py` run against the graph `build_graph` of
    `ingestion/graph_builder.py` leaves behind. */
module RoundTrip {
  import opened Wrappers
  import opened OrderedMaps
  import opened Records
  import opened Extraction
  import opened Graphs
  import opened Projection
  import opened Provenance
  import opened Queries

  /** The details query pairs the first API node with the first Endpoint
      node of the path. */
  lemma DetailsOfFirst(g: Graph, path: string, api: Node, ep: Node)
    requires FirstMatch(g.nodes, AnyApi) == Some(api)
    requires FirstMatch(g.nodes, EndpointWithPath(path)) == Some(ep)
    ensures GetEndpointDetails(g, Some(path)) ==
      Some(Details(api.baseUrl + ep.path, ep.verb, api.authHeader, api.authFormat, ep.description))
  {
  }

  /** `j` is the first endpoint of the record with path `path`. */
  predicate FirstWithPath(eps: seq<Endpoint>, j: int, path: string) {
    && 0 <= j < |eps| && eps[j].path == path
    && forall j' :: 0 <= j' < j ==> eps[j'].path != path
  }

  predicate HasPath(eps: seq<Endpoint>, path: string) {
    exists j :: 0 <= j < |eps| && eps[j].path == path
  }

  /** In a projected graph the first API node is the record's, and the
      first Endpoint node of a path is that of the first endpoint record
      with the path. */
  lemma BuiltFirsts(rec: ApiRecord, g: Graph, path: string)
    requires rec.authentication.Some?
    ensures var r := BuildGraph(rec, g).graph;
      var auth := rec.authentication.value;
      && FirstMatch(r.nodes, AnyApi) == Some(ApiNode(rec.baseUrl, auth.header, auth.format))
      && FirstMatch(r.nodes, EndpointWithPath(path)) == FirstMatch(EndpointNodes(rec.endpoints), EndpointWithPath(path))
  {
    var r := BuildGraph(rec, g).graph;
    BuildGraphNodes(rec, g);
    FirstMatchIs(r.nodes, AnyApi, 0);
    FirstMatchOfLabel(r.nodes, EndpointWithPath(path));
  }

  /** After a projection with an authentication section, a path has details
      exactly when some endpoint of the record has it. Without an
      authentication section the graph is left empty and no path has
      details. */
  lemma DetailsAfterBuild(rec: ApiRecord, g: Graph, path: string)
    ensures rec.authentication.None? ==> GetEndpointDetails(BuildGraph(rec, g).graph, Some(path)).None?
    ensures rec.authentication.Some? ==>
      (GetEndpointDetails(BuildGraph(rec, g).graph, Some(path)).Some? <==> HasPath(rec.endpoints, path))
  {
    if rec.authentication.Some? {
      var ens := EndpointNodes(rec.endpoints);
      BuiltFirsts(rec, g, path);
      if HasPath(rec.endpoints, path) {
        var j :| 0 <= j < |rec.endpoints| && rec.endpoints[j].path == path;
        assert Matches(ens[j], EndpointWithPath(path));
      }
    }
  }

  /** The details of a path after a projection are the base URL followed by
      the path, the header convention, and the method and description of
      the first endpoint with that path. */
  lemma DetailsOfEndpoint(rec: ApiRecord, g: Graph, j: nat, path: string)
    requires rec.authentication.Some? && FirstWithPath(rec.endpoints, j, path)
    ensures GetEndpointDetails(BuildGraph(rec, g).graph, Some(path)) ==
      Some(Details(rec.baseUrl + path, rec.endpoints[j].verb, rec.authentication.value.header,
                   rec.authentication.value.format, rec.endpoints[j].description))
  {
    var auth := rec.authentication.value;
    var ens := EndpointNodes(rec.endpoints);
    BuiltFirsts(rec, g, path);
    FirstMatchIs(ens, EndpointWithPath(path), j);
    DetailsOfFirst(BuildGraph(rec, g).graph, path, ApiNode(rec.baseUrl, auth.header, auth.format), ens[j]);
  }

  /** After a projection with an authentication section, every parameter of
      an endpoint is a key of the schema of the endpoint's path (together
      with the parameters of any other endpoint sharing the path). Without
      one, every schema is empty. */
  lemma SchemaAfterBuild(rec: ApiRecord, g: Graph, path: string)
    ensures rec.authentication.None? ==> GetEndpointSchema(BuildGraph(rec, g).graph, Some(path)) == []
    ensures rec.authentication.Some? ==>
      forall j, i :: 0 <= j < |rec.endpoints| && 0 <= i < |rec.endpoints[j].parameters| && rec.endpoints[j].path == path ==>
        Get(GetEndpointSchema(BuildGraph(rec, g).graph, Some(path)), rec.endpoints[j].parameters[i].name).Some?
  {
    var r := BuildGraph(rec, g).graph;
    if rec.authentication.None? {
      GetEndpointSchemaEmpty(r, path);
    }
    forall j, i | 0 <= j < |rec.endpoints| && 0 <= i < |rec.endpoints[j].parameters| &&
        rec.authentication.Some? && rec.endpoints[j].path == path
      ensures Get(GetEndpointSchema(r, Some(path)), rec.endpoints[j].parameters[i].name).Some?
    {
      ParameterInSchema(rec, g, j, i);
    }
  }

  /** One parameter of one endpoint reaches the schema of the endpoint's
      path. */
  lemma ParameterInSchema(rec: ApiRecord, g: Graph, j: nat, i: nat)
    requires rec.authentication.Some? && j < |rec.endpoints| && i < |rec.endpoints[j].parameters|
    ensures var ep := rec.endpoints[j];
      Get(GetEndpointSchema(BuildGraph(rec, g).graph, Some(ep.path)), ep.parameters[i].name).Some?
  {
    var r := BuildGraph(rec, g).graph;
    var ep := rec.endpoints[j];
    var p := ep.parameters[i];
    BuildGraphAttached(rec, g, j, i);
    var k :| 0 <= k < |r.edges| && r.edges[k].rel == Accepts &&
      r.edges[k].src < |r.nodes| && r.nodes[r.edges[k].src] == EndpointNodeOf(ep) &&
      r.edges[k].dst < |r.nodes| && r.nodes[r.edges[k].dst] == ParameterNodeOf(p);
    var e := r.edges[k].src;
    var pi := r.edges[k].dst;
    assert r.edges[k] == Edge(e, Accepts, pi);
    assert Matches(r.nodes[e], EndpointWithPath(ep.path));
    assert Accepted(r, ep.path, pi);
    GetEndpointSchemaNames(r, ep.path, p.name);
  }

  /** After a projection with an authentication section, a name has a schema
      entry for a path exactly when some endpoint with the path has a
      parameter of that name. */
  lemma SchemaKeysAfterBuild(rec: ApiRecord, g: Graph, path: string, n: string)
    requires rec.authentication.Some?
    ensures Get(GetEndpointSchema(BuildGraph(rec, g).graph, Some(path)), n).Some? <==>
      exists p :: ParamOfPath(rec.endpoints, path, p) && p.name == n
  {
    var s := GetEndpointSchema(BuildGraph(rec, g).graph, Some(path));
    if Get(s, n).Some? {
      var p := SchemaEntrySource(rec, g, path, n);
    }
    if exists p :: ParamOfPath(rec.endpoints, path, p) && p.name == n {
      var p :| ParamOfPath(rec.endpoints, path, p) && p.name == n;
      var ep :| ep in rec.endpoints && ep.path == path && p in ep.parameters;
      var j :| 0 <= j < |rec.endpoints| && rec.endpoints[j] == ep;
      var i :| 0 <= i < |ep.parameters| && ep.parameters[i] == p;
      ParameterInSchema(rec, g, j, i);
    }
  }

  /** After a projection, every schema entry of a path carries the type and
      required flag of a parameter of that name of an endpoint with the
      path. */
  lemma SchemaEntrySource(rec: ApiRecord, g: Graph, path: string, n: string) returns (p: Parameter)
    requires rec.authentication.Some?
    requires Get(GetEndpointSchema(BuildGraph(rec, g).graph, Some(path)), n).Some?
    ensures var e := Get(GetEndpointSchema(BuildGraph(rec, g).graph, Some(path)), n).value;
      ParamOfPath(rec.endpoints, path, p) && p.name == n && p.typ == e.typ && p.required == e.required
  {
    var r := BuildGraph(rec, g).graph;
    var e := Get(GetEndpointSchema(r, Some(path)), n).value;
    BuildGraphFrom(rec, g);
    GetEndpointSchemaEntry(r, path, n);
    var pi: nat :| Accepted(r, path, pi) && Carries(r.nodes[pi], n, e);
    var x :| 0 <= x < |r.nodes| && Matches(r.nodes[x], EndpointWithPath(path)) && Edge(x, Accepts, pi) in r.edges;
    EdgeFromIn(r, rec.endpoints, Values(rec.models), Edge(x, Accepts, pi));
    p :| ParamOfPath(rec.endpoints, path, p) && r.nodes[pi] == ParameterNodeOf(p) &&
      (p.modelReference.Some? ==> LinksFrom(r, pi, IsType, ModelNode(p.modelReference.value)));
  }

  /** The parameters of name `p.name` of the endpoints with path `path` have
      the type and required flag of `p`. */
  ghost predicate SameShape(eps: seq<Endpoint>, path: string, p: Parameter) {
    forall q :: ParamOfPath(eps, path, q) && q.name == p.name ==> q.typ == p.typ && q.required == p.required
  }

  /** The parameters of name `p.name` of the endpoints with path `path` refer
      to the model `p` refers to. */
  ghost predicate SameModel(eps: seq<Endpoint>, path: string, p: Parameter) {
    forall q :: ParamOfPath(eps, path, q) && q.name == p.name ==> q.modelReference == p.modelReference
  }

  /** Every parameter of name `p.name`, on any endpoint, that refers to a
      model refers to the one `p` refers to. */
  ghost predicate OneModel(eps: seq<Endpoint>, p: Parameter) {
    forall q :: ParamOf(eps, q) && q.name == p.name && q.modelReference.Some? ==> q.modelReference == p.modelReference
  }

  /** Some model of name `m` has a field. */
  ghost predicate HasFields(ms: seq<Model>, m: string) {
    exists md, f :: md in ms && md.name == m && f in md.fields
  }

  /** The type and required flag of a parameter round-trip through the
      projection and the schema query, provided the parameters of its name
      of the endpoints with its path agree on them. */
  lemma SchemaTypeAfterBuild(rec: ApiRecord, g: Graph, path: string, p: Parameter)
    requires rec.authentication.Some? && ParamOfPath(rec.endpoints, path, p) && SameShape(rec.endpoints, path, p)
    ensures var e := Get(GetEndpointSchema(BuildGraph(rec, g).graph, Some(path)), p.name);
      e.Some? && e.value.typ == p.typ && e.value.required == p.required
  {
    SchemaKeysAfterBuild(rec, g, path, p.name);
    var q := SchemaEntrySource(rec, g, path, p.name);
  }

  /** The fields of model node `mi` are those of the models of its name. */
  lemma FieldTargets(rec: ApiRecord, g: Graph, mi: nat, fk: Option<string>)
    requires rec.authentication.Some?
    requires mi < |BuildGraph(rec, g).graph.nodes| && BuildGraph(rec, g).graph.nodes[mi].ModelNode?
    ensures var r := BuildGraph(rec, g).graph;
      (exists t :: t in Targets(r, mi, HasField, "Field") && fk == Some(r.nodes[t].name)) <==>
      exists md, f :: md in Values(rec.models) && md.name == r.nodes[mi].name && f in md.fields && fk == Some(f.name)
  {
    var r := BuildGraph(rec, g).graph;
    var ms := Values(rec.models);
    if exists t :: t in Targets(r, mi, HasField, "Field") && fk == Some(r.nodes[t].name) {
      var t :| t in Targets(r, mi, HasField, "Field") && fk == Some(r.nodes[t].name);
      FieldTargetFrom(rec, g, mi, t);
    }
    if exists md, f :: md in ms && md.name == r.nodes[mi].name && f in md.fields && fk == Some(f.name) {
      var md, f :| md in ms && md.name == r.nodes[mi].name && f in md.fields && fk == Some(f.name);
      var g2 := BuiltFromModels(rec, g);
      var t := FieldTargetOf(g2, ms, mi, md, f);
    }
  }

  /** A Field target of a Model node is a field of a model of its name. */
  lemma FieldTargetFrom(rec: ApiRecord, g: Graph, mi: nat, t: nat)
    requires rec.authentication.Some? && t in Targets(BuildGraph(rec, g).graph, mi, HasField, "Field")
    requires mi < |BuildGraph(rec, g).graph.nodes| && BuildGraph(rec, g).graph.nodes[mi].ModelNode?
    ensures var r := BuildGraph(rec, g).graph;
      exists md, f :: md in Values(rec.models) && md.name == r.nodes[mi].name && f in md.fields && r.nodes[t] == FieldNodeOf(f)
  {
    var r := BuildGraph(rec, g).graph;
    BuildGraphFrom(rec, g);
    TargetsMembers(r, mi, HasField, "Field", t);
    EdgeFromIn(r, rec.endpoints, Values(rec.models), Edge(mi, HasField, t));
  }

  /** Every field of a model hangs off the Model node of its name once the
      models are added to a graph holding that node. */
  lemma FieldTargetOf(g2: Graph, ms: seq<Model>, mi: nat, md: Model, f: Field) returns (t: nat)
    requires md in ms && f in md.fields
    requires mi < |AddModels(g2, ms).nodes| && AddModels(g2, ms).nodes[mi] == ModelNode(md.name)
    ensures t in Targets(AddModels(g2, ms), mi, HasField, "Field") && AddModels(g2, ms).nodes[t] == FieldNodeOf(f)
  {
    var r := AddModels(g2, ms);
    AddModelsAdds(g2, ms);
    assert LabelOf(r.nodes[mi]) != "Field";
    var j :| 0 <= j < |ms| && ms[j] == md;
    var fi :| 0 <= fi < |md.fields| && md.fields[fi] == f;
    AddModelsLinks(g2, ms, j, fi, mi);
    var k :| 0 <= k < |r.edges| && r.edges[k].src == mi && r.edges[k].rel == HasField &&
      r.edges[k].dst < |r.nodes| && r.nodes[r.edges[k].dst] == FieldNodeOf(f);
    t := r.edges[k].dst;
    assert r.edges[k] == Edge(mi, HasField, t);
    TargetsMembers(r, mi, HasField, "Field", t);
  }

  /** A projected graph is the graph of the endpoints with the models'
      fields added. */
  lemma BuiltFromModels(rec: ApiRecord, g: Graph) returns (g2: Graph)
    requires rec.authentication.Some?
    ensures BuildGraph(rec, g).graph == AddModels(g2, Values(rec.models))
  {
    var auth := rec.authentication.value;
    g2 := AddEndpoints(Create(Empty, ApiNode(rec.baseUrl, auth.header, auth.format)), rec.endpoints);
  }

  /** In a graph whose relationships record the endpoints `eps`, and under
      the agreement conditions, every Parameter node of `p`'s name reached
      from the path carries `p`'s type and flag and has the Model node `mi`
      of `p`'s model as its only type. */
  lemma ReachedTyped(r: Graph, eps: seq<Endpoint>, ms: seq<Model>, path: string, p: Parameter, mi: nat, pi: nat)
    requires EdgesFrom(r, eps, ms) && ModelsUnique(r) && p.modelReference.Some?
    requires SameShape(eps, path, p) && SameModel(eps, path, p) && OneModel(eps, p)
    requires mi < |r.nodes| && r.nodes[mi] == ModelNode(p.modelReference.value)
    requires Accepted(r, path, pi) && r.nodes[pi].name == p.name
    ensures r.nodes[pi] == ParameterNodeOf(p)
    ensures mi in Targets(r, pi, IsType, "Model")
    ensures forall m :: m in Targets(r, pi, IsType, "Model") ==> m == mi
  {
    var x :| 0 <= x < |r.nodes| && Matches(r.nodes[x], EndpointWithPath(path)) && Edge(x, Accepts, pi) in r.edges;
    EdgeFromIn(r, eps, ms, Edge(x, Accepts, pi));
    var q :| ParamOfPath(eps, path, q) && r.nodes[pi] == ParameterNodeOf(q) &&
      (q.modelReference.Some? ==> LinksFrom(r, pi, IsType, ModelNode(q.modelReference.value)));
    var k :| 0 <= k < |r.edges| && r.edges[k].src == pi && r.edges[k].rel == IsType &&
      r.edges[k].dst < |r.nodes| && r.nodes[r.edges[k].dst] == ModelNode(p.modelReference.value);
    ModelsUniqueAt(r, mi, r.edges[k].dst);
    assert r.edges[k] == Edge(pi, IsType, mi);
    TargetsMembers(r, pi, IsType, "Model", mi);
    OnlyType(r, eps, ms, p, mi, pi);
  }

  /** When every parameter of `p`'s name that names a model names `p`'s,
      a Parameter node of that name has no type but that model's node. */
  lemma OnlyType(r: Graph, eps: seq<Endpoint>, ms: seq<Model>, p: Parameter, mi: nat, pi: nat)
    requires EdgesFrom(r, eps, ms) && ModelsUnique(r) && p.modelReference.Some? && OneModel(eps, p)
    requires mi < |r.nodes| && r.nodes[mi] == ModelNode(p.modelReference.value)
    requires pi < |r.nodes| && r.nodes[pi].ParameterNode? && r.nodes[pi].name == p.name
    ensures forall m :: m in Targets(r, pi, IsType, "Model") ==> m == mi
  {
    forall m | m in Targets(r, pi, IsType, "Model") ensures m == mi {
      TargetsMembers(r, pi, IsType, "Model", m);
      EdgeFromIn(r, eps, ms, Edge(pi, IsType, m));
      ModelsUniqueAt(r, mi, m);
    }
  }

  /** A referenced model's fields round-trip through the projection and the
      schema query: when the parameters of `p`'s name of the endpoints with
      its path agree on type, flag and model, every parameter of that name
      that names a model names `p`'s, and a model of that name has fields,
      the schema entry carries `p`'s type and flag, names the model, and
      binds exactly the names of the fields of the models of that name. */
  lemma SchemaFieldsAfterBuild(rec: ApiRecord, g: Graph, path: string, p: Parameter, fk: Option<string>)
    requires rec.authentication.Some? && ParamOfPath(rec.endpoints, path, p) && p.modelReference.Some?
    requires SameShape(rec.endpoints, path, p) && SameModel(rec.endpoints, path, p) && OneModel(rec.endpoints, p)
    requires HasFields(Values(rec.models), p.modelReference.value)
    ensures var e := Get(GetEndpointSchema(BuildGraph(rec, g).graph, Some(path)), p.name);
      && e.Some? && e.value.typ == p.typ && e.value.required == p.required
      && e.value.model.Some? && e.value.model.value.name == p.modelReference
      && (Get(e.value.model.value.fields, fk).Some? <==>
            exists md, f :: md in Values(rec.models) && md.name == p.modelReference.value && f in md.fields && fk == Some(f.name))
  {
    var r := BuildGraph(rec, g).graph;
    var m := p.modelReference.value;
    var pi, mi := ReachedParameter(rec, g, path, p);
    var k := Key(p.name, p.typ, p.required, p.modelReference);
    var md, f :| md in Values(rec.models) && md.name == m && f in md.fields;
    var g2 := BuiltFromModels(rec, g);
    var t := FieldTargetOf(g2, Values(rec.models), mi, md, f);
    BuildGraphFrom(rec, g);
    BuildGraphShape(rec, g);
    forall pj: nat | Accepted(r, path, pj) && r.nodes[pj].name == k.param
      ensures r.nodes[pj] == ParameterNode(k.param, k.typ, k.required)
      ensures mi in Targets(r, pj, IsType, "Model")
      ensures forall m' :: m' in Targets(r, pj, IsType, "Model") ==> m' == mi
    {
      ReachedTyped(r, rec.endpoints, Values(rec.models), path, p, mi, pj);
    }
    assert TypedUniformly(r, path, k, mi);
    SchemaTyped(r, path, k, mi, pi, fk);
    FieldTargets(rec, g, mi, fk);
  }

  /** The Parameter node of a parameter of an endpoint with the path, and
      the Model node it is typed by. */
  lemma ReachedParameter(rec: ApiRecord, g: Graph, path: string, p: Parameter) returns (pi: nat, mi: nat)
    requires rec.authentication.Some? && ParamOfPath(rec.endpoints, path, p) && p.modelReference.Some?
    requires SameModel(rec.endpoints, path, p)
    ensures var r := BuildGraph(rec, g).graph;
      && Accepted(r, path, pi) && r.nodes[pi].name == p.name
      && mi < |r.nodes| && r.nodes[mi] == ModelNode(p.modelReference.value)
  {
    var r := BuildGraph(rec, g).graph;
    var eps := rec.endpoints;
    BuildGraphFrom(rec, g);
    var x;
    x, pi := AcceptedNode(rec, g, path, p);
    EdgeFromIn(r, eps, Values(rec.models), Edge(x, Accepts, pi));
    var q :| ParamOfPath(eps, path, q) && r.nodes[pi] == ParameterNodeOf(q) &&
      (q.modelReference.Some? ==> LinksFrom(r, pi, IsType, ModelNode(q.modelReference.value)));
    var kt :| 0 <= kt < |r.edges| && r.edges[kt].src == pi && r.edges[kt].rel == IsType &&
      r.edges[kt].dst < |r.nodes| && r.nodes[r.edges[kt].dst] == ModelNode(p.modelReference.value);
    mi := r.edges[kt].dst;
  }

  /** A parameter of an endpoint with the path has a Parameter node hanging
      off an Endpoint node with the path. */
  lemma AcceptedNode(rec: ApiRecord, g: Graph, path: string, p: Parameter) returns (x: nat, pi: nat)
    requires rec.authentication.Some? && ParamOfPath(rec.endpoints, path, p)
    ensures var r := BuildGraph(rec, g).graph;
      && x < |r.nodes| && Matches(r.nodes[x], EndpointWithPath(path)) && Edge(x, Accepts, pi) in r.edges
      && Accepted(r, path, pi) && r.nodes[pi] == ParameterNodeOf(p)
  {
    var r := BuildGraph(rec, g).graph;
    var eps := rec.endpoints;
    var ep :| ep in eps && ep.path == path && p in ep.parameters;
    var j :| 0 <= j < |eps| && eps[j] == ep;
    var i :| 0 <= i < |ep.parameters| && ep.parameters[i] == p;
    BuildGraphAttached(rec, g, j, i);
    var k :| 0 <= k < |r.edges| && r.edges[k].rel == Accepts &&
      r.edges[k].src < |r.nodes| && r.nodes[r.edges[k].src] == EndpointNodeOf(ep) &&
      r.edges[k].dst < |r.nodes| && r.nodes[r.edges[k].dst] == ParameterNodeOf(p);
    x := r.edges[k].src;
    pi := r.edges[k].dst;
    assert r.edges[k] == Edge(x, Accepts, pi);
  }

  /** A parsed endpoint refers to no model but "Address Object". */
  lemma ParsedReference(rec: ApiRecord, q: Parameter)
    requires forall i :: 0 <= i < |rec.endpoints| ==> Cleaned(rec.endpoints[i])
    requires ParamOf(rec.endpoints, q) && q.modelReference.Some?
    ensures q.modelReference == Some(AddressObject)
  {
    var e :| e in rec.endpoints && q in e.parameters;
    var j :| 0 <= j < |rec.endpoints| && rec.endpoints[j] == e;
    var i :| 0 <= i < |e.parameters| && e.parameters[i] == q;
    assert Cleaned(rec.endpoints[j]);
  }

  /** A parsed record refers to the "Address Object" model only, so its
      projection holds at most one Model node, of that name. */
  lemma ParsedModels(text: string, authSpan: Option<string>, endpoints: seq<EndpointBlock>, models: seq<ModelBlock>, g: Graph)
    ensures ReferencedModels(ParseContent(text, authSpan, endpoints, models).endpoints) <= {AddressObject}
    ensures var rec := ParseContent(text, authSpan, endpoints, models);
      rec.authentication.Some? ==> ModelsFrom(BuildGraph(rec, g).graph, {AddressObject})
  {
    var rec := ParseContent(text, authSpan, endpoints, models);
    forall m | m in ReferencedModels(rec.endpoints) ensures m == AddressObject {
      var e, q :| e in rec.endpoints && q in e.parameters && q.modelReference == Some(m);
      ParsedReference(rec, q);
    }
    if rec.authentication.Some? {
      BuildGraphShape(rec, g);
    }
  }

  /** Parse, project and query: for a document with an authentication
      section, a parameter of an endpoint with the path that names the
      "Address Object" model gets a schema entry with its type and flag,
      the model's name, and exactly the names of the model's fields,
      provided the parameters of its name of the endpoints with that path
      agree on type, flag and model and the model has fields. */
  lemma ParsedSchemaFields(text: string, authSpan: Option<string>, endpoints: seq<EndpointBlock>, models: seq<ModelBlock>,
                           g: Graph, path: string, p: Parameter, fk: Option<string>)
    requires authSpan.Some?
    requires var rec := ParseContent(text, authSpan, endpoints, models);
      && ParamOfPath(rec.endpoints, path, p) && p.modelReference.Some?
      && SameShape(rec.endpoints, path, p) && SameModel(rec.endpoints, path, p)
      && HasFields(Values(rec.models), AddressObject)
    ensures var rec := ParseContent(text, authSpan, endpoints, models);
      var e := Get(GetEndpointSchema(BuildGraph(rec, g).graph, Some(path)), p.name);
      && e.Some? && e.value.typ == p.typ && e.value.required == p.required
      && e.value.model.Some? && e.value.model.value.name == Some(AddressObject)
      && (Get(e.value.model.value.fields, fk).Some? <==>
            exists md, f :: md in Values(rec.models) && md.name == AddressObject && f in md.fields && fk == Some(f.name))
  {
    var rec := ParseContent(text, authSpan, endpoints, models);
    assert ParamOf(rec.endpoints, p);
    ParsedReference(rec, p);
    forall q | ParamOf(rec.endpoints, q) && q.name == p.name && q.modelReference.Some?
      ensures q.modelReference == p.modelReference
    {
      ParsedReference(rec, q);
    }
    SchemaFieldsAfterBuild(rec, g, path, p, fk);
  }
}
