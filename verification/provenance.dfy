/** Where each relationship of a projected graph comes from: the entries of
    the record whose statements in `build_graph`
    (`ingestion/graph_builder.py`) created it. These are the facts the
    schema query reads back. */
module Provenance {
  import opened Wrappers
  import opened OrderedMaps
  import opened Records
  import opened Graphs
  import opened Projection

  /** `p` is a parameter of some endpoint with path `path`. */
  ghost predicate ParamOfPath(eps: seq<Endpoint>, path: string, p: Parameter) {
    exists e :: e in eps && e.path == path && p in e.parameters
  }

  /** `p` is a parameter of some endpoint. */
  ghost predicate ParamOf(eps: seq<Endpoint>, p: Parameter) {
    exists e :: e in eps && p in e.parameters
  }

  /** What a relationship records about the endpoints `eps` and models `ms`:
      an ACCEPTS runs from an Endpoint node to the Parameter node of a
      parameter of an endpoint with that node's path, a Parameter node
      typed by the parameter's model when it names one; an IS_TYPE runs from
      a Parameter node to the Model node of a model that some parameter of
      that name refers to; a HAS_FIELD runs from a Model node to the Field
      node of a field of a model of that name. */
  ghost predicate EdgeFrom(g: Graph, eps: seq<Endpoint>, ms: seq<Model>, e: Edge) {
    && e.src < |g.nodes| && e.dst < |g.nodes|
    && match e.rel
       case Accepts =>
         && g.nodes[e.src].EndpointNode?
         && exists p :: ParamOfPath(eps, g.nodes[e.src].path, p) && g.nodes[e.dst] == ParameterNodeOf(p) &&
              (p.modelReference.Some? ==> LinksFrom(g, e.dst, IsType, ModelNode(p.modelReference.value)))
       case IsType =>
         && g.nodes[e.src].ParameterNode? && g.nodes[e.dst].ModelNode?
         && exists p :: ParamOf(eps, p) && p.name == g.nodes[e.src].name && p.modelReference == Some(g.nodes[e.dst].name)
       case HasField =>
         && g.nodes[e.src].ModelNode?
         && exists md, f :: md in ms && f in md.fields && md.name == g.nodes[e.src].name && g.nodes[e.dst] == FieldNodeOf(f)
  }

  ghost predicate EdgesFrom(g: Graph, eps: seq<Endpoint>, ms: seq<Model>) {
    forall k :: 0 <= k < |g.edges| ==> EdgeFrom(g, eps, ms, g.edges[k])
  }

  /** What a relationship of the graph records. */
  lemma EdgeFromIn(g: Graph, eps: seq<Endpoint>, ms: seq<Model>, e: Edge)
    requires EdgesFrom(g, eps, ms) && e in g.edges
    ensures EdgeFrom(g, eps, ms, e)
  {
    var k :| 0 <= k < |g.edges| && g.edges[k] == e;
  }

  lemma EdgeFromExtends(g: Graph, r: Graph, eps: seq<Endpoint>, ms: seq<Model>, e: Edge)
    requires EdgeFrom(g, eps, ms, e) && Extends(g, r)
    ensures EdgeFrom(r, eps, ms, e)
  {
    if e.rel == Accepts {
      var p :| ParamOfPath(eps, g.nodes[e.src].path, p) && g.nodes[e.dst] == ParameterNodeOf(p) &&
        (p.modelReference.Some? ==> LinksFrom(g, e.dst, IsType, ModelNode(p.modelReference.value)));
      if p.modelReference.Some? {
        LinksFromExtends(g, r, e.dst, IsType, ModelNode(p.modelReference.value));
      }
    }
  }

  /** An extension keeps what the old relationships record. */
  lemma EdgesFromGrows(g: Graph, r: Graph, eps: seq<Endpoint>, ms: seq<Model>)
    requires EdgesFrom(g, eps, ms) && Extends(g, r)
    requires forall k :: |g.edges| <= k < |r.edges| ==> EdgeFrom(r, eps, ms, r.edges[k])
    ensures EdgesFrom(r, eps, ms)
  {
    forall k | 0 <= k < |g.edges| ensures EdgeFrom(r, eps, ms, r.edges[k]) {
      EdgeFromExtends(g, r, eps, ms, g.edges[k]);
    }
  }

  /** The relationships one parameter adds: ACCEPTS from the Endpoint nodes
      of its path, IS_TYPE from the Parameter nodes of its name. */
  lemma AddParameterFrom(g: Graph, eps: seq<Endpoint>, ms: seq<Model>, path: string, p: Parameter)
    requires EdgesFrom(g, eps, ms) && ParamOfPath(eps, path, p)
    ensures EdgesFrom(AddParameter(g, path, p), eps, ms)
  {
    var g1 := CreateLinked(g, MatchAll(g, EndpointWithPath(path)), Accepts, ParameterNodeOf(p));
    var r := AddParameter(g, path, p);
    AcceptsAllFrom(g, eps, ms, path, p);
    if p.modelReference.Some? {
      LinkModelAdds(g1, p.name, p.modelReference.value);
      LinkModelFrom(g1, eps, ms, p);
    }
    forall k | |g.edges| <= k < |r.edges| ensures EdgeFrom(r, eps, ms, r.edges[k]) {
      if k >= |g1.edges| {
        assert p.modelReference.Some?;
      }
    }
    EdgesFromGrows(g, r, eps, ms);
  }

  /** The ACCEPTS relationships a parameter adds. */
  lemma AcceptsAllFrom(g: Graph, eps: seq<Endpoint>, ms: seq<Model>, path: string, p: Parameter)
    requires ParamOfPath(eps, path, p)
    ensures var g1 := CreateLinked(g, MatchAll(g, EndpointWithPath(path)), Accepts, ParameterNodeOf(p));
      var r := AddParameter(g, path, p);
      |g1.edges| <= |r.edges| &&
      forall k :: |g.edges| <= k < |g1.edges| ==> EdgeFrom(r, eps, ms, r.edges[k])
  {
    var parents := MatchAll(g, EndpointWithPath(path));
    var g1 := CreateLinked(g, parents, Accepts, ParameterNodeOf(p));
    var r := AddParameter(g, path, p);
    if p.modelReference.Some? {
      LinkModelAdds(g1, p.name, p.modelReference.value);
    }
    forall k | |g.edges| <= k < |g1.edges| ensures EdgeFrom(r, eps, ms, r.edges[k]) {
      AddParameterSplit(g, path, p, |g.nodes| + (k - |g.edges|));
      AcceptFrom(g, r, eps, ms, path, p, k - |g.edges|);
    }
  }

  /** The `j`-th ACCEPTS relationship a parameter adds, in any extension
      `r` that types the new Parameter node by the parameter's model. */
  lemma AcceptFrom(g: Graph, r: Graph, eps: seq<Endpoint>, ms: seq<Model>, path: string, p: Parameter, j: nat)
    requires ParamOfPath(eps, path, p) && j < |MatchAll(g, EndpointWithPath(path))|
    requires Extends(CreateLinked(g, MatchAll(g, EndpointWithPath(path)), Accepts, ParameterNodeOf(p)), r)
    requires p.modelReference.Some? ==> LinksFrom(r, |g.nodes| + j, IsType, ModelNode(p.modelReference.value))
    ensures |g.edges| + j < |r.edges|
    ensures EdgeFrom(r, eps, ms, r.edges[|g.edges| + j])
  {
    var parents := MatchAll(g, EndpointWithPath(path));
    var g1 := CreateLinked(g, parents, Accepts, ParameterNodeOf(p));
    var x := |g.nodes| + j;
    assert r.edges[|g.edges| + j] == g1.edges[|g.edges| + j] == Edge(parents[j], Accepts, x);
    assert r.nodes[parents[j]] == g.nodes[parents[j]];
    assert r.nodes[x] == g1.nodes[x] == ParameterNodeOf(p);
    AcceptEdgeFrom(r, eps, ms, p, Edge(parents[j], Accepts, x));
  }

  /** An ACCEPTS relationship from an Endpoint node of a path to the node of
      a parameter of that path, typed by its model, records it. */
  lemma AcceptEdgeFrom(r: Graph, eps: seq<Endpoint>, ms: seq<Model>, p: Parameter, e: Edge)
    requires e.rel == Accepts && e.src < |r.nodes| && e.dst < |r.nodes|
    requires r.nodes[e.src].EndpointNode? && ParamOfPath(eps, r.nodes[e.src].path, p)
    requires r.nodes[e.dst] == ParameterNodeOf(p)
    requires p.modelReference.Some? ==> LinksFrom(r, e.dst, IsType, ModelNode(p.modelReference.value))
    ensures EdgeFrom(r, eps, ms, e)
  {
  }

  /** The IS_TYPE relationships linking a parameter's model add. */
  lemma LinkModelFrom(g: Graph, eps: seq<Endpoint>, ms: seq<Model>, p: Parameter)
    requires ParamOf(eps, p) && p.modelReference.Some?
    ensures var r := LinkModel(g, p.name, p.modelReference.value);
      forall k :: |g.edges| <= k < |r.edges| ==> EdgeFrom(r, eps, ms, r.edges[k])
  {
    var r := LinkModel(g, p.name, p.modelReference.value);
    LinkModelAdds(g, p.name, p.modelReference.value);
    LinkModelOnly(g, p.name, p.modelReference.value);
    forall k | |g.edges| <= k < |r.edges| ensures EdgeFrom(r, eps, ms, r.edges[k]) {
      var e := r.edges[k];
      assert r.nodes[e.src] == g.nodes[e.src];
    }
  }

  lemma {:induction false} AddParametersFrom(g: Graph, eps: seq<Endpoint>, ms: seq<Model>, path: string, ps: seq<Parameter>)
    requires EdgesFrom(g, eps, ms) && forall p :: p in ps ==> ParamOfPath(eps, path, p)
    ensures EdgesFrom(AddParameters(g, path, ps), eps, ms)
    decreases |ps|
  {
    if |ps| > 0 {
      assert ps[0] in ps;
      AddParameterFrom(g, eps, ms, path, ps[0]);
      assert forall p :: p in ps[1..] ==> p in ps;
      AddParametersFrom(AddParameter(g, path, ps[0]), eps, ms, path, ps[1..]);
    }
  }

  lemma {:induction false} AddEndpointsFrom(g: Graph, eps: seq<Endpoint>, ms: seq<Model>, es: seq<Endpoint>)
    requires EdgesFrom(g, eps, ms) && forall e :: e in es ==> e in eps
    ensures EdgesFrom(AddEndpoints(g, es), eps, ms)
    decreases |es|
  {
    if |es| > 0 {
      var ep := es[0];
      var g1 := Create(g, EndpointNodeOf(ep));
      EdgesFromGrows(g, g1, eps, ms);
      assert ep in eps;
      assert forall p :: p in ep.parameters ==> ParamOfPath(eps, ep.path, p);
      AddParametersFrom(g1, eps, ms, ep.path, ep.parameters);
      assert forall e :: e in es[1..] ==> e in es;
      AddEndpointsFrom(AddEndpoint(g, ep), eps, ms, es[1..]);
    }
  }

  /** The relationships a model's fields add: HAS_FIELD from the Model
      nodes of its name. */
  lemma {:induction false} AddFieldsFrom(g: Graph, eps: seq<Endpoint>, ms: seq<Model>, md: Model, fs: seq<Field>)
    requires EdgesFrom(g, eps, ms) && md in ms && forall f :: f in fs ==> f in md.fields
    ensures EdgesFrom(AddFields(g, md.name, fs), eps, ms)
    decreases |fs|
  {
    if |fs| > 0 {
      var g1 := CreateLinked(g, MatchAll(g, ModelWithName(md.name)), HasField, FieldNodeOf(fs[0]));
      assert fs[0] in fs;
      FieldEdgesFrom(g, eps, ms, md, fs[0]);
      assert forall f :: f in fs[1..] ==> f in fs;
      AddFieldsFrom(g1, eps, ms, md, fs[1..]);
    }
  }

  /** The HAS_FIELD relationships one field of a model adds. */
  lemma FieldEdgesFrom(g: Graph, eps: seq<Endpoint>, ms: seq<Model>, md: Model, f: Field)
    requires EdgesFrom(g, eps, ms) && md in ms && f in md.fields
    ensures EdgesFrom(CreateLinked(g, MatchAll(g, ModelWithName(md.name)), HasField, FieldNodeOf(f)), eps, ms)
  {
    var parents := MatchAll(g, ModelWithName(md.name));
    var g1 := CreateLinked(g, parents, HasField, FieldNodeOf(f));
    forall k | |g.edges| <= k < |g1.edges| ensures EdgeFrom(g1, eps, ms, g1.edges[k]) {
      var j := k - |g.edges|;
      assert g1.edges[|g.edges| + j] == Edge(parents[j], HasField, |g.nodes| + j);
      assert g1.nodes[parents[j]] == g.nodes[parents[j]];
      assert g1.nodes[|g.nodes| + j] == FieldNodeOf(f);
    }
    EdgesFromGrows(g, g1, eps, ms);
  }

  lemma {:induction false} AddModelsFrom(g: Graph, eps: seq<Endpoint>, ms: seq<Model>, mds: seq<Model>)
    requires EdgesFrom(g, eps, ms) && forall md :: md in mds ==> md in ms
    ensures EdgesFrom(AddModels(g, mds), eps, ms)
    decreases |mds|
  {
    if |mds| > 0 {
      assert mds[0] in mds;
      AddFieldsFrom(g, eps, ms, mds[0], mds[0].fields);
      assert forall md :: md in mds[1..] ==> md in mds;
      AddModelsFrom(AddFields(g, mds[0].name, mds[0].fields), eps, ms, mds[1..]);
    }
  }

  /** Every relationship of a projected graph records an endpoint's
      parameter, a parameter's model reference, or a model's field. */
  lemma BuildGraphFrom(rec: ApiRecord, g: Graph)
    requires rec.authentication.Some?
    ensures EdgesFrom(BuildGraph(rec, g).graph, rec.endpoints, Values(rec.models))
  {
    var auth := rec.authentication.value;
    var ms := Values(rec.models);
    var g1 := Create(Empty, ApiNode(rec.baseUrl, auth.header, auth.format));
    var g2 := AddEndpoints(g1, rec.endpoints);
    assert BuildGraph(rec, g).graph == AddModels(g2, ms);
    AddEndpointsFrom(g1, rec.endpoints, ms, rec.endpoints);
    AddModelsFrom(g2, rec.endpoints, ms, ms);
  }
}
