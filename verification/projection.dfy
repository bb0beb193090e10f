/** `build_graph` (`ingestion/graph_builder.py`) as a pure transformer of
    the abstract graph. Each `session.run` becomes one graph operation; a
    statement whose MATCH binds several rows acts once per row. */
module Projection {
  import opened Wrappers
  import opened OrderedMaps
  import opened Records
  import opened Graphs

  /** What a projection leaves behind. Without an authentication section the
      clear has already run when looking up its header raises. */
  datatype Outcome = Completed(graph: Graph) | MissingAuthentication(graph: Graph)

  /** One CREATE per matched row: a fresh copy of `child` for each parent,
      linked from that parent by `rel`. */
  function CreateLinked(g: Graph, parents: seq<nat>, rel: Rel, child: Node): (r: Graph)
    ensures |r.nodes| == |g.nodes| + |parents| && |r.edges| == |g.edges| + |parents|
    ensures Extends(g, r)
    ensures forall i :: |g.nodes| <= i < |r.nodes| ==> r.nodes[i] == child
    ensures forall k :: 0 <= k < |parents| ==> r.edges[|g.edges| + k] == Edge(parents[k], rel, |g.nodes| + k)
    decreases |parents|
  {
    if |parents| == 0 then g
    else
      var g1 := Graph(g.nodes + [child], g.edges + [Edge(parents[0], rel, |g.nodes|)]);
      var r := CreateLinked(g1, parents[1..], rel, child);
      assert r.edges[|g.edges|] == Edge(parents[0], rel, |g.nodes|);
      r
  }

  /** The edges `(s)-[rel]->(d)` for every row `s` of `srcs` and `d` of
      `dsts`, row by row. */
  function Product(srcs: seq<nat>, rel: Rel, dsts: seq<nat>): (es: seq<Edge>)
  {
    if |srcs| == 0 then []
    else seq(|dsts|, j requires 0 <= j < |dsts| => Edge(srcs[0], rel, dsts[j])) + Product(srcs[1..], rel, dsts)
  }

  /** `MATCH (p:Parameter {name: pname}) MERGE (m:Model {name: mname})
      CREATE (p)-[:IS_TYPE]->(m)`: every Parameter node of that name, from
      any endpoint, gets an IS_TYPE edge to the merged model. With no such
      parameter there is no row, and not even the merge happens. */
  function LinkModel(g: Graph, pname: string, mname: string): (r: Graph)
  {
    var ps := MatchAll(g, ParameterWithName(pname));
    if |ps| == 0 then g
    else
      var (g1, ms) := MergeModel(g, mname);
      Graph(g1.nodes, g1.edges + Product(ps, IsType, ms))
  }

  /** One parameter of an endpoint: a Parameter node for every Endpoint
      node with the endpoint's path, and the model link when the parameter
      names a model. */
  function AddParameter(g: Graph, path: string, p: Parameter): (r: Graph)
  {
    var g1 := CreateLinked(g, MatchAll(g, EndpointWithPath(path)), Accepts, ParameterNode(p.name, p.typ, p.required));
    match p.modelReference
    case None => g1
    case Some(m) => LinkModel(g1, p.name, m)
  }

  function AddParameters(g: Graph, path: string, ps: seq<Parameter>): (r: Graph)
    decreases |ps|
  {
    if |ps| == 0 then g
    else AddParameters(AddParameter(g, path, ps[0]), path, ps[1..])
  }

  /** The Endpoint node of an endpoint record. */
  function EndpointNodeOf(ep: Endpoint): Node {
    EndpointNode(ep.name, ep.path, ep.verb, ep.description)
  }

  function AddEndpoint(g: Graph, ep: Endpoint): (r: Graph)
  {
    AddParameters(Create(g, EndpointNodeOf(ep)), ep.path, ep.parameters)
  }

  function AddEndpoints(g: Graph, eps: seq<Endpoint>): (r: Graph)
    decreases |eps|
  {
    if |eps| == 0 then g
    else AddEndpoints(AddEndpoint(g, eps[0]), eps[1..])
  }

  /** `MATCH (m:Model {name: mname}) CREATE (f:Field ...) CREATE
      (m)-[:HAS_FIELD]->(f)` for each field in turn: a model without a
      Model node gets nothing. */
  function AddFields(g: Graph, name: string, fs: seq<Field>): (r: Graph)
    decreases |fs|
  {
    if |fs| == 0 then g
    else
      var g1 := CreateLinked(g, MatchAll(g, ModelWithName(name)), HasField, FieldNodeOf(fs[0]));
      AddFields(g1, name, fs[1..])
  }

  function AddModels(g: Graph, ms: seq<Model>): (r: Graph)
    decreases |ms|
  {
    if |ms| == 0 then g
    else AddModels(AddFields(g, ms[0].name, ms[0].fields), ms[1..])
  }

  /** `build_graph`: clear the store, then the API node, the endpoints with
      their parameters and model links, and the fields of the models in the
      order of the models dictionary. */
  function BuildGraph(rec: ApiRecord, g: Graph): (r: Outcome)
    ensures r.MissingAuthentication? <==> rec.authentication.None?
    ensures r.MissingAuthentication? ==> r.graph == Empty
  {
    var g0 := ClearAll(g);
    match rec.authentication
    case None => MissingAuthentication(g0)
    case Some(auth) =>
      var g1 := Create(g0, ApiNode(rec.baseUrl, auth.header, auth.format));
      var g2 := AddEndpoints(g1, rec.endpoints);
      Completed(AddModels(g2, Values(rec.models)))
  }

  /** The relationships of a product are exactly the pairs of a source row
      and a target row. */
  lemma {:induction false} ProductMembers(srcs: seq<nat>, rel: Rel, dsts: seq<nat>, e: Edge)
    ensures e in Product(srcs, rel, dsts) <==> e.rel == rel && e.src in srcs && e.dst in dsts
    decreases |srcs|
  {
    if |srcs| > 0 {
      ProductMembers(srcs[1..], rel, dsts, e);
      var head := seq(|dsts|, j requires 0 <= j < |dsts| => Edge(srcs[0], rel, dsts[j]));
      assert Product(srcs, rel, dsts) == head + Product(srcs[1..], rel, dsts);
      assert e in head <==> e.rel == rel && e.src == srcs[0] && e.dst in dsts by {
        if e.rel == rel && e.src == srcs[0] && e.dst in dsts {
          var j :| 0 <= j < |dsts| && dsts[j] == e.dst;
          assert head[j] == e;
        }
      }
      assert srcs == [srcs[0]] + srcs[1..];
    }
  }

  lemma AddsOnlyWeaken(g: Graph, r: Graph, small: set<string>, large: set<string>)
    requires AddsOnly(g, r, small) && small <= large
    ensures AddsOnly(g, r, large)
  {
  }

  /** Linking a model adds at most its Model node, and only IS_TYPE
      relationships. */
  lemma LinkModelAdds(g: Graph, pname: string, mname: string)
    ensures AddsOnly(g, LinkModel(g, pname, mname), {"Model"})
  {
  }

  lemma AddParameterAdds(g: Graph, path: string, p: Parameter)
    ensures AddsOnly(g, AddParameter(g, path, p), {"Parameter", "Model"})
  {
    var g1 := CreateLinked(g, MatchAll(g, EndpointWithPath(path)), Accepts, ParameterNode(p.name, p.typ, p.required));
    assert AddsOnly(g, g1, {"Parameter", "Model"});
    if p.modelReference.Some? {
      LinkModelAdds(g1, p.name, p.modelReference.value);
      AddsOnlyWeaken(g1, AddParameter(g, path, p), {"Model"}, {"Parameter", "Model"});
      AddsOnlyTransitive(g, g1, AddParameter(g, path, p), {"Parameter", "Model"});
    }
  }

  lemma {:induction false} AddParametersAdds(g: Graph, path: string, ps: seq<Parameter>)
    ensures AddsOnly(g, AddParameters(g, path, ps), {"Parameter", "Model"})
    decreases |ps|
  {
    if |ps| > 0 {
      var g1 := AddParameter(g, path, ps[0]);
      AddParameterAdds(g, path, ps[0]);
      AddParametersAdds(g1, path, ps[1..]);
      AddsOnlyTransitive(g, g1, AddParameters(g, path, ps), {"Parameter", "Model"});
    }
  }

  lemma AddEndpointAdds(g: Graph, ep: Endpoint)
    ensures AddsOnly(g, AddEndpoint(g, ep), {"Endpoint", "Parameter", "Model"})
  {
    var g1 := Create(g, EndpointNodeOf(ep));
    AddParametersAdds(g1, ep.path, ep.parameters);
    AddsOnlyWeaken(g, g1, {"Endpoint"}, {"Endpoint", "Parameter", "Model"});
    AddsOnlyWeaken(g1, AddEndpoint(g, ep), {"Parameter", "Model"}, {"Endpoint", "Parameter", "Model"});
    AddsOnlyTransitive(g, g1, AddEndpoint(g, ep), {"Endpoint", "Parameter", "Model"});
  }

  lemma {:induction false} AddEndpointsAdds(g: Graph, eps: seq<Endpoint>)
    ensures AddsOnly(g, AddEndpoints(g, eps), {"Endpoint", "Parameter", "Model"})
    decreases |eps|
  {
    if |eps| > 0 {
      var g1 := AddEndpoint(g, eps[0]);
      AddEndpointAdds(g, eps[0]);
      AddEndpointsAdds(g1, eps[1..]);
      AddsOnlyTransitive(g, g1, AddEndpoints(g, eps), {"Endpoint", "Parameter", "Model"});
    }
  }

  lemma {:induction false} AddFieldsAdds(g: Graph, name: string, fs: seq<Field>)
    ensures AddsOnly(g, AddFields(g, name, fs), {"Field"})
    decreases |fs|
  {
    if |fs| > 0 {
      var g1 := CreateLinked(g, MatchAll(g, ModelWithName(name)), HasField, FieldNodeOf(fs[0]));
      AddFieldsStep(g, name, fs);
      AddFieldsAdds(g1, name, fs[1..]);
      AddsOnlyTransitive(g, g1, AddFields(g, name, fs), {"Field"});
    }
  }

  /** The first field's CREATE adds Field nodes only, and the rest of the
      loop runs on its result. */
  lemma AddFieldsStep(g: Graph, name: string, fs: seq<Field>)
    requires |fs| > 0
    ensures var g1 := CreateLinked(g, MatchAll(g, ModelWithName(name)), HasField, FieldNodeOf(fs[0]));
      AddsOnly(g, g1, {"Field"}) && AddFields(g, name, fs) == AddFields(g1, name, fs[1..])
  {
    assert LabelOf(FieldNodeOf(fs[0])) == "Field";
  }

  lemma {:induction false} AddModelsAdds(g: Graph, ms: seq<Model>)
    ensures AddsOnly(g, AddModels(g, ms), {"Field"})
    decreases |ms|
  {
    if |ms| > 0 {
      var g1 := AddFields(g, ms[0].name, ms[0].fields);
      AddFieldsAdds(g, ms[0].name, ms[0].fields);
      AddModelsAdds(g1, ms[1..]);
      AddsOnlyTransitive(g, g1, AddModels(g, ms), {"Field"});
    }
  }

  /** Creating linked copies keeps a graph valid when every parent has the
      label the relationship starts from and the child the one it ends at. */
  lemma CreateLinkedValid(g: Graph, parents: seq<nat>, rel: Rel, child: Node)
    requires Valid(g)
    requires forall k :: 0 <= k < |parents| ==> parents[k] < |g.nodes| && Joins(rel, g.nodes[parents[k]], child)
    ensures Valid(CreateLinked(g, parents, rel, child))
  {
    var r := CreateLinked(g, parents, rel, child);
    forall k | |g.edges| <= k < |r.edges| ensures EdgeOk(r, r.edges[k]) {
      var j := k - |g.edges|;
      assert r.edges[|g.edges| + j] == Edge(parents[j], rel, |g.nodes| + j);
      assert r.nodes[parents[j]] == g.nodes[parents[j]];
    }
    ValidGrows(g, r);
  }

  lemma LinkModelValid(g: Graph, pname: string, mname: string)
    requires Valid(g)
    ensures Valid(LinkModel(g, pname, mname))
  {
    var ps := MatchAll(g, ParameterWithName(pname));
    if |ps| > 0 {
      var (g1, ms) := MergeModel(g, mname);
      var prod := Product(ps, IsType, ms);
      var r := Graph(g1.nodes, g.edges + prod);
      assert forall k :: 0 <= k < |ps| ==> g1.nodes[ps[k]] == g.nodes[ps[k]];
      ProductOk(r, ps, ms);
      AppendEdgesValid(g, g1.nodes, prod);
    }
  }

  /** IS_TYPE relationships from Parameter nodes to Model nodes are well
      formed. */
  lemma ProductOk(h: Graph, ps: seq<nat>, ms: seq<nat>)
    requires forall k :: 0 <= k < |ps| ==> ps[k] < |h.nodes| && h.nodes[ps[k]].ParameterNode?
    requires forall k :: 0 <= k < |ms| ==> ms[k] < |h.nodes| && h.nodes[ms[k]].ModelNode?
    ensures forall e :: e in Product(ps, IsType, ms) ==> EdgeOk(h, e)
  {
    forall e | e in Product(ps, IsType, ms) ensures EdgeOk(h, e) {
      ProductMembers(ps, IsType, ms, e);
    }
  }

  lemma AddParameterValid(g: Graph, path: string, p: Parameter)
    requires Valid(g)
    ensures Valid(AddParameter(g, path, p))
  {
    var g1 := CreateLinked(g, MatchAll(g, EndpointWithPath(path)), Accepts, ParameterNode(p.name, p.typ, p.required));
    CreateLinkedValid(g, MatchAll(g, EndpointWithPath(path)), Accepts, ParameterNode(p.name, p.typ, p.required));
    if p.modelReference.Some? {
      LinkModelValid(g1, p.name, p.modelReference.value);
    }
  }

  lemma {:induction false} AddParametersValid(g: Graph, path: string, ps: seq<Parameter>)
    requires Valid(g)
    ensures Valid(AddParameters(g, path, ps))
    decreases |ps|
  {
    if |ps| > 0 {
      AddParameterValid(g, path, ps[0]);
      AddParametersValid(AddParameter(g, path, ps[0]), path, ps[1..]);
    }
  }

  lemma {:induction false} AddEndpointsValid(g: Graph, eps: seq<Endpoint>)
    requires Valid(g)
    ensures Valid(AddEndpoints(g, eps))
    decreases |eps|
  {
    if |eps| > 0 {
      var g1 := Create(g, EndpointNodeOf(eps[0]));
      ValidGrows(g, g1);
      AddParametersValid(g1, eps[0].path, eps[0].parameters);
      AddEndpointsValid(AddEndpoint(g, eps[0]), eps[1..]);
    }
  }

  lemma {:induction false} AddFieldsValid(g: Graph, name: string, fs: seq<Field>)
    requires Valid(g)
    ensures Valid(AddFields(g, name, fs))
    decreases |fs|
  {
    if |fs| > 0 {
      var parents := MatchAll(g, ModelWithName(name));
      CreateLinkedValid(g, parents, HasField, FieldNodeOf(fs[0]));
      AddFieldsStep(g, name, fs);
      AddFieldsValid(CreateLinked(g, parents, HasField, FieldNodeOf(fs[0])), name, fs[1..]);
    }
  }

  lemma {:induction false} AddModelsValid(g: Graph, ms: seq<Model>)
    requires Valid(g)
    ensures Valid(AddModels(g, ms))
    decreases |ms|
  {
    if |ms| > 0 {
      AddFieldsValid(g, ms[0].name, ms[0].fields);
      AddModelsValid(AddFields(g, ms[0].name, ms[0].fields), ms[1..]);
    }
  }

  /** Every model a parameter refers to is in `names`. */
  predicate RefsIn(ps: seq<Parameter>, names: set<string>) {
    forall p :: p in ps && p.modelReference.Some? ==> p.modelReference.value in names
  }

  /** The model names the parameters of the endpoints refer to. */
  function ReferencedModels(eps: seq<Endpoint>): (names: set<string>)
    ensures forall j :: 0 <= j < |eps| ==> RefsIn(eps[j].parameters, names)
  {
    set e, p | e in eps && p in e.parameters && p.modelReference.Some? :: p.modelReference.value
  }

  lemma LinkModelModels(g: Graph, pname: string, mname: string, names: set<string>)
    requires ModelsFrom(g, names) && mname in names
    ensures ModelsFrom(LinkModel(g, pname, mname), names)
  {
  }

  lemma AddParameterModels(g: Graph, path: string, p: Parameter, names: set<string>)
    requires ModelsFrom(g, names) && RefsIn([p], names)
    ensures ModelsFrom(AddParameter(g, path, p), names)
  {
    var g1 := CreateLinked(g, MatchAll(g, EndpointWithPath(path)), Accepts, ParameterNode(p.name, p.typ, p.required));
    ModelsFromWithout(g, g1, {"Parameter"}, names);
    if p.modelReference.Some? {
      LinkModelModels(g1, p.name, p.modelReference.value, names);
    }
  }

  lemma {:induction false} AddParametersModels(g: Graph, path: string, ps: seq<Parameter>, names: set<string>)
    requires ModelsFrom(g, names) && RefsIn(ps, names)
    ensures ModelsFrom(AddParameters(g, path, ps), names)
    decreases |ps|
  {
    if |ps| > 0 {
      assert ps[0] in ps;
      AddParameterModels(g, path, ps[0], names);
      assert forall p :: p in ps[1..] ==> p in ps;
      AddParametersModels(AddParameter(g, path, ps[0]), path, ps[1..], names);
    }
  }

  lemma {:induction false} AddEndpointsModels(g: Graph, eps: seq<Endpoint>, names: set<string>)
    requires ModelsFrom(g, names)
    requires forall j :: 0 <= j < |eps| ==> RefsIn(eps[j].parameters, names)
    ensures ModelsFrom(AddEndpoints(g, eps), names)
    decreases |eps|
  {
    if |eps| > 0 {
      var g1 := Create(g, EndpointNodeOf(eps[0]));
      ModelsFromWithout(g, g1, {"Endpoint"}, names);
      AddParametersModels(g1, eps[0].path, eps[0].parameters, names);
      AddEndpointsModels(AddEndpoint(g, eps[0]), eps[1..], names);
    }
  }

  /** The Endpoint nodes of a list of endpoint records, in order. */
  function EndpointNodes(eps: seq<Endpoint>): (ns: seq<Node>)
    ensures |ns| == |eps|
    ensures forall j :: 0 <= j < |eps| ==> ns[j] == EndpointNodeOf(eps[j])
  {
    seq(|eps|, j requires 0 <= j < |eps| => EndpointNodeOf(eps[j]))
  }

  /** An endpoint adds exactly its own Endpoint node. */
  lemma AddEndpointEndpoints(g: Graph, ep: Endpoint)
    ensures OfLabel(AddEndpoint(g, ep).nodes, "Endpoint") == OfLabel(g.nodes, "Endpoint") + [EndpointNodeOf(ep)]
  {
    var n := EndpointNodeOf(ep);
    var g1 := Create(g, n);
    var r := AddParameters(g1, ep.path, ep.parameters);
    assert AddEndpoint(g, ep) == r;
    assert OfLabel(g1.nodes, "Endpoint") == OfLabel(g.nodes, "Endpoint") + [n] by {
      assert g1.nodes == g.nodes + [n];
      OfLabelSnoc(g.nodes, n, "Endpoint");
    }
    assert OfLabel(r.nodes, "Endpoint") == OfLabel(g1.nodes, "Endpoint") by {
      AddParametersAdds(g1, ep.path, ep.parameters);
      OfLabelUnchanged(g1, r, {"Parameter", "Model"}, "Endpoint");
    }
  }

  lemma {:induction false} AddEndpointsEndpoints(g: Graph, eps: seq<Endpoint>)
    ensures OfLabel(AddEndpoints(g, eps).nodes, "Endpoint") == OfLabel(g.nodes, "Endpoint") + EndpointNodes(eps)
    decreases |eps|
  {
    if |eps| > 0 {
      var g1 := AddEndpoint(g, eps[0]);
      var a := OfLabel(g.nodes, "Endpoint");
      var b := OfLabel(g1.nodes, "Endpoint");
      AddEndpointEndpoints(g, eps[0]);
      AddEndpointsEndpoints(g1, eps[1..]);
      assert AddEndpoints(g, eps) == AddEndpoints(g1, eps[1..]);
      EndpointNodesCons(eps);
      AppendCons(a, EndpointNodeOf(eps[0]), EndpointNodes(eps[1..]), EndpointNodes(eps));
    }
  }

  lemma EndpointNodesCons(eps: seq<Endpoint>)
    requires |eps| > 0
    ensures EndpointNodes(eps) == [EndpointNodeOf(eps[0])] + EndpointNodes(eps[1..])
  {
  }

  lemma AppendCons<T>(a: seq<T>, x: T, rest: seq<T>, whole: seq<T>)
    requires whole == [x] + rest
    ensures (a + [x]) + rest == a + whole
  {
  }

  /** The projected graph holds exactly one API node, first, carrying the
      base URL and the header convention, and one Endpoint node per endpoint
      record, in record order. */
  lemma BuildGraphNodes(rec: ApiRecord, g: Graph)
    requires rec.authentication.Some?
    ensures var r := BuildGraph(rec, g).graph;
      var api := ApiNode(rec.baseUrl, rec.authentication.value.header, rec.authentication.value.format);
      && |r.nodes| > 0 && r.nodes[0] == api
      && OfLabel(r.nodes, "API") == [api]
      && OfLabel(r.nodes, "Endpoint") == EndpointNodes(rec.endpoints)
  {
    var auth := rec.authentication.value;
    var api := ApiNode(rec.baseUrl, auth.header, auth.format);
    var g1 := Create(Empty, api);
    var g2 := AddEndpoints(g1, rec.endpoints);
    var g3 := AddModels(g2, Values(rec.models));
    assert BuildGraph(rec, g).graph == g3;
    assert g1.nodes == [api];
    AddEndpointsAdds(g1, rec.endpoints);
    AddModelsAdds(g2, Values(rec.models));
    ApiSelection(g1, g2, g3, api);
    EndpointSelection(g1, g2, g3, api, rec.endpoints);
  }

  lemma ApiSelection(g1: Graph, g2: Graph, g3: Graph, api: Node)
    requires g1.nodes == [api] && api.ApiNode?
    requires AddsOnly(g1, g2, {"Endpoint", "Parameter", "Model"}) && AddsOnly(g2, g3, {"Field"})
    ensures |g3.nodes| > 0 && g3.nodes[0] == api && OfLabel(g3.nodes, "API") == [api]
  {
    OfLabelSingle(api, "API");
    OfLabelUnchanged(g1, g2, {"Endpoint", "Parameter", "Model"}, "API");
    OfLabelUnchanged(g2, g3, {"Field"}, "API");
  }

  lemma EndpointSelection(g1: Graph, g2: Graph, g3: Graph, api: Node, eps: seq<Endpoint>)
    requires g1.nodes == [api] && api.ApiNode?
    requires g2 == AddEndpoints(g1, eps) && AddsOnly(g2, g3, {"Field"})
    ensures OfLabel(g3.nodes, "Endpoint") == EndpointNodes(eps)
  {
    OfLabelSingle(api, "Endpoint");
    AddEndpointsEndpoints(g1, eps);
    OfLabelUnchanged(g2, g3, {"Field"}, "Endpoint");
  }

  /** Every relationship of the projected graph joins nodes of the labels
      its type connects; there is one Model node per referenced model name
      at most, and none for a model no parameter refers to, so such a model
      never gets a HAS_FIELD relationship. */
  lemma BuildGraphShape(rec: ApiRecord, g: Graph)
    requires rec.authentication.Some?
    ensures var r := BuildGraph(rec, g).graph;
      && Valid(r)
      && ModelsFrom(r, ReferencedModels(rec.endpoints))
      && forall k :: 0 <= k < |r.edges| && r.edges[k].rel == HasField ==>
           r.nodes[r.edges[k].src].ModelNode? && r.nodes[r.edges[k].src].name in ReferencedModels(rec.endpoints)
  {
    var auth := rec.authentication.value;
    var names := ReferencedModels(rec.endpoints);
    var g1 := Create(Empty, ApiNode(rec.baseUrl, auth.header, auth.format));
    var g2 := AddEndpoints(g1, rec.endpoints);
    var g3 := AddModels(g2, Values(rec.models));
    assert BuildGraph(rec, g).graph == g3;
    ValidGrows(Empty, g1);
    AddEndpointsValid(g1, rec.endpoints);
    AddModelsValid(g2, Values(rec.models));
    assert ModelsFrom(g1, names);
    AddEndpointsModels(g1, rec.endpoints, names);
    AddModelsAdds(g2, Values(rec.models));
    ModelsFromWithout(g2, g3, {"Field"}, names);
    forall k | 0 <= k < |g3.edges| && g3.edges[k].rel == HasField
      ensures g3.nodes[g3.edges[k].src].ModelNode? && g3.nodes[g3.edges[k].src].name in names
    {
      assert EdgeOk(g3, g3.edges[k]);
    }
  }

  /** The projection depends only on the record: the previous contents of
      the store never survive, so projecting twice leaves what projecting
      once did. */
  lemma BuildGraphIdempotent(rec: ApiRecord, g: Graph, h: Graph)
    ensures BuildGraph(rec, g) == BuildGraph(rec, h)
    ensures BuildGraph(rec, BuildGraph(rec, g).graph) == BuildGraph(rec, g)
  {
  }

  /** The Parameter node a parameter record becomes. */
  function ParameterNodeOf(p: Parameter): Node {
    ParameterNode(p.name, p.typ, p.required)
  }

  /** Every Parameter node with the linked name, from whichever endpoint,
      gets an IS_TYPE relationship of its own to a Model node of the
      referenced name. */
  lemma LinkModelLinks(g: Graph, pname: string, mname: string, i: nat)
    requires i < |g.nodes| && Matches(g.nodes[i], ParameterWithName(pname))
    ensures LinksFrom(LinkModel(g, pname, mname), i, IsType, ModelNode(mname))
    ensures Linked(LinkModel(g, pname, mname), g.nodes[i], IsType, ModelNode(mname))
  {
    var ps := MatchAll(g, ParameterWithName(pname));
    var merged := MergeModel(g, mname);
    var g1, ms := merged.0, merged.1;
    var prod := Product(ps, IsType, ms);
    var r := Graph(g1.nodes, g1.edges + prod);
    assert LinkModel(g, pname, mname) == r;
    var e := Edge(i, IsType, ms[0]);
    assert e in prod by {
      ProductMembers(ps, IsType, ms, e);
    }
    var k :| 0 <= k < |prod| && prod[k] == e;
    assert g1.nodes[i] == g.nodes[i];
    assert g1.nodes[ms[0]] == ModelNode(mname);
    assert r.edges[|g1.edges| + k] == e;
    LinksFromAt(r, |g1.edges| + k, i, IsType, ModelNode(mname));
    LinksFromLinked(r, i, IsType, ModelNode(mname));
  }

  /** Linking a model adds only IS_TYPE relationships, each from a
      Parameter node of the linked name to the Model node of the referenced
      name; with no such parameter the graph is unchanged. */
  lemma LinkModelOnly(g: Graph, pname: string, mname: string)
    ensures var r := LinkModel(g, pname, mname);
      forall k :: |g.edges| <= k < |r.edges| ==>
        && r.edges[k].rel == IsType
        && r.edges[k].src < |g.nodes| && Matches(g.nodes[r.edges[k].src], ParameterWithName(pname))
        && r.edges[k].dst < |r.nodes| && r.nodes[r.edges[k].dst] == ModelNode(mname)
    ensures (forall i :: 0 <= i < |g.nodes| ==> !Matches(g.nodes[i], ParameterWithName(pname))) ==>
      LinkModel(g, pname, mname) == g
  {
    var ps := MatchAll(g, ParameterWithName(pname));
    if |ps| > 0 {
      var (g1, ms) := MergeModel(g, mname);
      var prod := Product(ps, IsType, ms);
      var r := Graph(g1.nodes, g1.edges + prod);
      assert LinkModel(g, pname, mname) == r;
      forall k | |g.edges| <= k < |r.edges|
        ensures r.edges[k].rel == IsType && r.edges[k].src < |g.nodes|
        ensures Matches(g.nodes[r.edges[k].src], ParameterWithName(pname))
        ensures r.edges[k].dst < |r.nodes| && r.nodes[r.edges[k].dst] == ModelNode(mname)
      {
        assert r.edges[k] == prod[k - |g.edges|];
        ProductMembers(ps, IsType, ms, r.edges[k]);
      }
      assert g.nodes[ps[0]].ParameterNode?;
    }
  }

  /** A new Parameter node `x` for the parameter hangs off Endpoint node
      `e` by ACCEPTS and, when the parameter names a model, has an IS_TYPE
      relationship of its own to that model's node. */
  predicate NewParameterAt(g: Graph, r: Graph, e: nat, p: Parameter, x: nat) {
    && |g.nodes| <= x < |r.nodes| && r.nodes[x] == ParameterNodeOf(p)
    && Edge(e, Accepts, x) in r.edges
    && (p.modelReference.Some? ==> LinksFrom(r, x, IsType, ModelNode(p.modelReference.value)))
  }

  /** A parameter's statements: the ACCEPTS copies, then the model link,
      which keeps them and types every copy by the parameter's model. */
  lemma AddParameterSplit(g: Graph, path: string, p: Parameter, x: nat)
    requires |g.nodes| <= x < |g.nodes| + |MatchAll(g, EndpointWithPath(path))|
    ensures Extends(CreateLinked(g, MatchAll(g, EndpointWithPath(path)), Accepts, ParameterNodeOf(p)), AddParameter(g, path, p))
    ensures p.modelReference.Some? ==> LinksFrom(AddParameter(g, path, p), x, IsType, ModelNode(p.modelReference.value))
  {
    var g1 := CreateLinked(g, MatchAll(g, EndpointWithPath(path)), Accepts, ParameterNodeOf(p));
    if p.modelReference.Some? {
      LinkModelAdds(g1, p.name, p.modelReference.value);
      LinkModelLinks(g1, p.name, p.modelReference.value, x);
    }
  }

  /** Every Endpoint node with the endpoint's path gets a Parameter node of
      its own for the parameter, linked by ACCEPTS and typed by the
      parameter's model when it names one. */
  lemma AddParameterAccepts(g: Graph, path: string, p: Parameter, e: nat)
    requires e < |g.nodes| && Matches(g.nodes[e], EndpointWithPath(path))
    ensures exists x: nat :: NewParameterAt(g, AddParameter(g, path, p), e, p, x)
    ensures Attached(AddParameter(g, path, p), g.nodes[e], p)
  {
    var parents := MatchAll(g, EndpointWithPath(path));
    var k :| 0 <= k < |parents| && parents[k] == e;
    AddParameterSplit(g, path, p, |g.nodes| + k);
    AcceptedAt(g, AddParameter(g, path, p), path, p, k);
  }

  /** The `k`-th Endpoint node with the path, in any extension `r` of the
      ACCEPTS copies that types the `k`-th copy by the parameter's model. */
  lemma AcceptedAt(g: Graph, r: Graph, path: string, p: Parameter, k: nat)
    requires k < |MatchAll(g, EndpointWithPath(path))|
    requires Extends(CreateLinked(g, MatchAll(g, EndpointWithPath(path)), Accepts, ParameterNodeOf(p)), r)
    requires p.modelReference.Some? ==> LinksFrom(r, |g.nodes| + k, IsType, ModelNode(p.modelReference.value))
    ensures MatchAll(g, EndpointWithPath(path))[k] < |g.nodes|
    ensures NewParameterAt(g, r, MatchAll(g, EndpointWithPath(path))[k], p, |g.nodes| + k)
    ensures Attached(r, g.nodes[MatchAll(g, EndpointWithPath(path))[k]], p)
  {
    var parents := MatchAll(g, EndpointWithPath(path));
    var g1 := CreateLinked(g, parents, Accepts, ParameterNodeOf(p));
    var e, x := parents[k], |g.nodes| + k;
    assert r.edges[|g.edges| + k] == g1.edges[|g.edges| + k] == Edge(e, Accepts, x);
    assert r.nodes[x] == g1.nodes[x] == ParameterNodeOf(p);
    assert r.nodes[e] == g.nodes[e];
    LinkedAt(r, |g.edges| + k, g.nodes[e], Accepts, ParameterNodeOf(p));
    if p.modelReference.Some? {
      LinksFromLinked(r, x, IsType, ModelNode(p.modelReference.value));
    }
  }

  /** Every ACCEPTS relationship `r` has beyond those of `g` starts at an
      Endpoint node of `g` with the path and ends at a copy of `child`. */
  predicate AcceptsFrom(g: Graph, r: Graph, path: string, child: Node) {
    forall k :: |g.edges| <= k < |r.edges| && r.edges[k].rel == Accepts ==>
      && r.edges[k].src < |g.nodes| && Matches(g.nodes[r.edges[k].src], EndpointWithPath(path))
      && r.edges[k].dst < |r.nodes| && r.nodes[r.edges[k].dst] == child
  }

  /** The ACCEPTS relationships a parameter adds all start at an Endpoint
      node with the endpoint's path and end at the parameter's node. */
  lemma AddParameterAcceptsOnly(g: Graph, path: string, p: Parameter)
    ensures AcceptsFrom(g, AddParameter(g, path, p), path, ParameterNodeOf(p))
  {
    var parents := MatchAll(g, EndpointWithPath(path));
    var g1 := CreateLinked(g, parents, Accepts, ParameterNodeOf(p));
    CreatedAccepts(g, parents, path, ParameterNodeOf(p));
    match p.modelReference
    case None =>
    case Some(m) =>
      var r := LinkModel(g1, p.name, m);
      LinkModelOnly(g1, p.name, m);
      LinkModelAdds(g1, p.name, m);
      AcceptsKept(g, g1, r, path, ParameterNodeOf(p));
  }

  /** The relationships created for matched Endpoint nodes start at those
      nodes and end at the new copies. */
  lemma CreatedAccepts(g: Graph, parents: seq<nat>, path: string, child: Node)
    requires forall k :: 0 <= k < |parents| ==> parents[k] < |g.nodes| && Matches(g.nodes[parents[k]], EndpointWithPath(path))
    ensures AcceptsFrom(g, CreateLinked(g, parents, Accepts, child), path, child)
  {
    var g1 := CreateLinked(g, parents, Accepts, child);
    forall k | |g.edges| <= k < |g1.edges| && g1.edges[k].rel == Accepts
      ensures g1.edges[k].src < |g.nodes| && Matches(g.nodes[g1.edges[k].src], EndpointWithPath(path))
      ensures g1.edges[k].dst < |g1.nodes| && g1.nodes[g1.edges[k].dst] == child
    {
      var j := k - |g.edges|;
      assert k == |g.edges| + j;
      assert g1.edges[k] == Edge(parents[j], Accepts, |g.nodes| + j);
      assert parents[j] < |g.nodes| && Matches(g.nodes[parents[j]], EndpointWithPath(path));
      assert g1.nodes[|g.nodes| + j] == child;
    }
  }

  /** ACCEPTS relationships survive a step that only adds IS_TYPE ones. */
  lemma AcceptsKept(g: Graph, g1: Graph, r: Graph, path: string, child: Node)
    requires Extends(g1, r) && |g.edges| <= |g1.edges|
    requires AcceptsFrom(g, g1, path, child)
    requires forall k :: |g1.edges| <= k < |r.edges| ==> r.edges[k].rel == IsType
    ensures AcceptsFrom(g, r, path, child)
  {
    forall k | |g.edges| <= k < |r.edges| && r.edges[k].rel == Accepts
      ensures r.edges[k].src < |g.nodes| && Matches(g.nodes[r.edges[k].src], EndpointWithPath(path))
      ensures r.edges[k].dst < |r.nodes| && r.nodes[r.edges[k].dst] == child
    {
      assert k < |g1.edges|;
      assert r.edges[k] == g1.edges[k];
    }
  }

  /** A parameter hangs off an Endpoint node by ACCEPTS and, when it names a
      model, reaches that model's node by IS_TYPE. */
  predicate Attached(g: Graph, en: Node, p: Parameter) {
    && Linked(g, en, Accepts, ParameterNodeOf(p))
    && (p.modelReference.Some? ==> Linked(g, ParameterNodeOf(p), IsType, ModelNode(p.modelReference.value)))
  }

  lemma AttachedExtends(g: Graph, r: Graph, en: Node, p: Parameter)
    requires Attached(g, en, p) && Extends(g, r)
    ensures Attached(r, en, p)
  {
    LinkedExtends(g, r, en, Accepts, ParameterNodeOf(p));
    if p.modelReference.Some? {
      LinkedExtends(g, r, ParameterNodeOf(p), IsType, ModelNode(p.modelReference.value));
    }
  }

  lemma {:induction false} AddParametersAttached(g: Graph, path: string, ps: seq<Parameter>, e: nat, i: nat)
    requires e < |g.nodes| && Matches(g.nodes[e], EndpointWithPath(path)) && i < |ps|
    ensures Attached(AddParameters(g, path, ps), g.nodes[e], ps[i])
    decreases |ps|
  {
    var g1 := AddParameter(g, path, ps[0]);
    var r := AddParameters(g1, path, ps[1..]);
    assert AddParameters(g, path, ps) == r;
    AddParameterAdds(g, path, ps[0]);
    assert g1.nodes[e] == g.nodes[e];
    if i == 0 {
      AddParameterAccepts(g, path, ps[0], e);
      AddParametersAdds(g1, path, ps[1..]);
      AttachedExtends(g1, r, g.nodes[e], ps[0]);
    } else {
      AddParametersAttached(g1, path, ps[1..], e, i - 1);
      assert ps[1..][i - 1] == ps[i];
    }
  }

  lemma {:induction false} AddEndpointsAttached(g: Graph, eps: seq<Endpoint>, j: nat, i: nat)
    requires j < |eps| && i < |eps[j].parameters|
    ensures Attached(AddEndpoints(g, eps), EndpointNodeOf(eps[j]), eps[j].parameters[i])
    decreases |eps|
  {
    var g1 := AddEndpoint(g, eps[0]);
    var r := AddEndpoints(g1, eps[1..]);
    assert AddEndpoints(g, eps) == r;
    if j == 0 {
      var gc := Create(g, EndpointNodeOf(eps[0]));
      AddParametersAttached(gc, eps[0].path, eps[0].parameters, |g.nodes|, i);
      AddEndpointsAdds(g1, eps[1..]);
      AttachedExtends(g1, r, EndpointNodeOf(eps[0]), eps[0].parameters[i]);
    } else {
      AddEndpointsAttached(g1, eps[1..], j - 1, i);
    }
  }

  /** Every parameter of every endpoint record is attached to its
      endpoint's node in the projected graph, and typed by the model it
      names. */
  lemma BuildGraphAttached(rec: ApiRecord, g: Graph, j: nat, i: nat)
    requires rec.authentication.Some? && j < |rec.endpoints| && i < |rec.endpoints[j].parameters|
    ensures Attached(BuildGraph(rec, g).graph, EndpointNodeOf(rec.endpoints[j]), rec.endpoints[j].parameters[i])
  {
    var auth := rec.authentication.value;
    var g1 := Create(Empty, ApiNode(rec.baseUrl, auth.header, auth.format));
    var g2 := AddEndpoints(g1, rec.endpoints);
    var g3 := AddModels(g2, Values(rec.models));
    assert BuildGraph(rec, g).graph == g3;
    AddEndpointsAttached(g1, rec.endpoints, j, i);
    AddModelsAdds(g2, Values(rec.models));
    AttachedExtends(g2, g3, EndpointNodeOf(rec.endpoints[j]), rec.endpoints[j].parameters[i]);
  }

  /** The Field node a field record becomes. */
  function FieldNodeOf(f: Field): Node {
    FieldNode(f.name, f.typ)
  }

  /** The fields of a model with no Model node are dropped: the MATCH binds
      no row. */
  lemma {:induction false} AddFieldsNoModel(g: Graph, name: string, fs: seq<Field>)
    requires forall i :: 0 <= i < |g.nodes| ==> !Matches(g.nodes[i], ModelWithName(name))
    ensures AddFields(g, name, fs) == g
    decreases |fs|
  {
    if |fs| > 0 {
      MatchAllNone(g, ModelWithName(name));
      AddFieldsNoModel(g, name, fs[1..]);
    }
  }

  /** Each parent of a CREATE is linked to a copy of the child. */
  lemma CreatedLinks(g: Graph, parents: seq<nat>, rel: Rel, child: Node, m: nat)
    requires m in parents
    ensures LinksFrom(CreateLinked(g, parents, rel, child), m, rel, child)
  {
    var g1 := CreateLinked(g, parents, rel, child);
    var k :| 0 <= k < |parents| && parents[k] == m;
    assert g1.edges[|g.edges| + k] == Edge(m, rel, |g.nodes| + k);
    assert g1.nodes[|g.nodes| + k] == child;
    LinksFromAt(g1, |g.edges| + k, m, rel, child);
  }

  /** Every field of a model hangs off every Model node of that name, each
      Model node by a relationship of its own. */
  lemma {:induction false} AddFieldsLinks(g: Graph, name: string, fs: seq<Field>, m: nat, j: nat)
    requires m < |g.nodes| && Matches(g.nodes[m], ModelWithName(name)) && j < |fs|
    ensures LinksFrom(AddFields(g, name, fs), m, HasField, FieldNodeOf(fs[j]))
    decreases |fs|
  {
    var parents := MatchAll(g, ModelWithName(name));
    var g1 := CreateLinked(g, parents, HasField, FieldNodeOf(fs[0]));
    var r := AddFields(g1, name, fs[1..]);
    assert AddFields(g, name, fs) == r;
    assert g1.nodes[m] == g.nodes[m];
    if j == 0 {
      FirstFieldLinks(g, name, fs, m);
    } else {
      AddFieldsLinks(g1, name, fs[1..], m, j - 1);
      assert fs[1..][j - 1] == fs[j];
    }
  }

  /** The first field hangs off every Model node of the name. */
  lemma FirstFieldLinks(g: Graph, name: string, fs: seq<Field>, m: nat)
    requires m < |g.nodes| && Matches(g.nodes[m], ModelWithName(name)) && |fs| > 0
    ensures LinksFrom(AddFields(CreateLinked(g, MatchAll(g, ModelWithName(name)), HasField, FieldNodeOf(fs[0])), name, fs[1..]), m, HasField, FieldNodeOf(fs[0]))
  {
    var g1 := CreateLinked(g, MatchAll(g, ModelWithName(name)), HasField, FieldNodeOf(fs[0]));
    CreatedLinks(g, MatchAll(g, ModelWithName(name)), HasField, FieldNodeOf(fs[0]), m);
    AddFieldsAdds(g1, name, fs[1..]);
    LinksFromExtends(g1, AddFields(g1, name, fs[1..]), m, HasField, FieldNodeOf(fs[0]));
  }

  lemma {:induction false} AddModelsLinks(g: Graph, ms: seq<Model>, j: nat, f: nat, m: nat)
    requires j < |ms| && f < |ms[j].fields| && m < |g.nodes| && g.nodes[m] == ModelNode(ms[j].name)
    ensures LinksFrom(AddModels(g, ms), m, HasField, FieldNodeOf(ms[j].fields[f]))
    decreases |ms|
  {
    var g1 := AddFields(g, ms[0].name, ms[0].fields);
    var r := AddModels(g1, ms[1..]);
    assert AddModels(g, ms) == r;
    AddFieldsAdds(g, ms[0].name, ms[0].fields);
    if j == 0 {
      AddFieldsLinks(g, ms[0].name, ms[0].fields, m, f);
      AddModelsAdds(g1, ms[1..]);
      LinksFromExtends(g1, r, m, HasField, FieldNodeOf(ms[0].fields[f]));
    } else {
      assert g1.nodes[m] == g.nodes[m];
      AddModelsLinks(g1, ms[1..], j - 1, f, m);
    }
  }

  /** A model some parameter refers to gets every one of its fields in the
      projected graph. */
  lemma BuildGraphFields(rec: ApiRecord, g: Graph, j: nat, f: nat)
    requires rec.authentication.Some? && j < |rec.models| && f < |rec.models[j].1.fields|
    requires rec.models[j].1.name in ReferencedModels(rec.endpoints)
    ensures Linked(BuildGraph(rec, g).graph, ModelNode(rec.models[j].1.name), HasField, FieldNodeOf(rec.models[j].1.fields[f]))
  {
    var auth := rec.authentication.value;
    var md := rec.models[j].1;
    var g1 := Create(Empty, ApiNode(rec.baseUrl, auth.header, auth.format));
    var g2 := AddEndpoints(g1, rec.endpoints);
    var ms := Values(rec.models);
    assert BuildGraph(rec, g).graph == AddModels(g2, ms);
    var je, ip := Referrer(rec.endpoints, md.name);
    var p := rec.endpoints[je].parameters[ip];
    AddEndpointsAttached(g1, rec.endpoints, je, ip);
    assert Linked(g2, ParameterNodeOf(p), IsType, ModelNode(md.name));
    var k :| 0 <= k < |g2.edges| && g2.edges[k].rel == IsType &&
      g2.edges[k].src < |g2.nodes| && g2.nodes[g2.edges[k].src] == ParameterNodeOf(p) &&
      g2.edges[k].dst < |g2.nodes| && g2.nodes[g2.edges[k].dst] == ModelNode(md.name);
    var m := g2.edges[k].dst;
    AddModelsLinks(g2, ms, j, f, m);
    AddModelsAdds(g2, ms);
    LinksFromLinked(AddModels(g2, ms), m, HasField, FieldNodeOf(md.fields[f]));
  }

  /** A referenced model is named by some parameter of some endpoint. */
  lemma Referrer(eps: seq<Endpoint>, name: string) returns (j: nat, i: nat)
    requires name in ReferencedModels(eps)
    ensures j < |eps| && i < |eps[j].parameters| && eps[j].parameters[i].modelReference == Some(name)
  {
    var e, p :| e in eps && p in e.parameters && p.modelReference == Some(name);
    j :| 0 <= j < |eps| && eps[j] == e;
    i :| 0 <= i < |e.parameters| && e.parameters[i] == p;
  }
}
