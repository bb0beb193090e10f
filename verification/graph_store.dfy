/** An in-memory labelled property graph: the part of the Neo4j store the
    projection writes and the queries read. A node is identified by its
    position in `nodes`; relationships are kept in creation order and, as
    with Cypher's CREATE, the same relationship may be recorded twice. */
module Graphs {
  import opened Wrappers
  import opened Sequences

  /** The five node labels with their properties. */
  datatype Node =
    | ApiNode(baseUrl: string, authHeader: string, authFormat: string)
    | EndpointNode(name: string, path: string, verb: string, description: string)
    | ParameterNode(name: string, typ: string, required: bool)
    | ModelNode(name: string)
    | FieldNode(name: string, typ: string)

  /** The three relationship types. */
  datatype Rel = Accepts | IsType | HasField

  datatype Edge = Edge(src: nat, rel: Rel, dst: nat)

  datatype Graph = Graph(nodes: seq<Node>, edges: seq<Edge>)

  const Empty := Graph([], [])

  /** The Cypher label of a node. */
  function LabelOf(n: Node): string {
    match n
    case ApiNode(_, _, _) => "API"
    case EndpointNode(_, _, _, _) => "Endpoint"
    case ParameterNode(_, _, _) => "Parameter"
    case ModelNode(_) => "Model"
    case FieldNode(_, _) => "Field"
  }

  /** The labels a relationship type connects: ACCEPTS runs from an
      Endpoint to a Parameter, IS_TYPE from a Parameter to a Model, and
      HAS_FIELD from a Model to a Field. */
  predicate Joins(rel: Rel, a: Node, b: Node) {
    match rel
    case Accepts => a.EndpointNode? && b.ParameterNode?
    case IsType => a.ParameterNode? && b.ModelNode?
    case HasField => a.ModelNode? && b.FieldNode?
  }

  /** A relationship joins two existing nodes of the labels its type
      connects. */
  predicate EdgeOk(g: Graph, e: Edge) {
    e.src < |g.nodes| && e.dst < |g.nodes| && Joins(e.rel, g.nodes[e.src], g.nodes[e.dst])
  }

  predicate Valid(g: Graph) {
    forall k :: 0 <= k < |g.edges| ==> EdgeOk(g, g.edges[k])
  }

  /** `r` keeps every node and relationship of `g` where it was, and may
      append more: nothing is ever deleted or changed except by clearing. */
  predicate Extends(g: Graph, r: Graph) {
    && |g.nodes| <= |r.nodes| && |g.edges| <= |r.edges|
    && (forall i :: 0 <= i < |g.nodes| ==> r.nodes[i] == g.nodes[i])
    && (forall k :: 0 <= k < |g.edges| ==> r.edges[k] == g.edges[k])
  }

  /** `r` extends `g` with nodes whose labels are all in `labels`. */
  predicate AddsOnly(g: Graph, r: Graph, labels: set<string>) {
    Extends(g, r) && forall i :: |g.nodes| <= i < |r.nodes| ==> LabelOf(r.nodes[i]) in labels
  }

  lemma ExtendsTransitive(a: Graph, b: Graph, c: Graph)
    requires Extends(a, b) && Extends(b, c)
    ensures Extends(a, c)
  {
  }

  /** An extension is the original nodes followed by the new ones. */
  lemma ExtendsSplit(g: Graph, r: Graph)
    requires Extends(g, r)
    ensures r.nodes == g.nodes + r.nodes[|g.nodes|..]
  {
  }

  lemma AddsOnlyTransitive(a: Graph, b: Graph, c: Graph, labels: set<string>)
    requires AddsOnly(a, b, labels) && AddsOnly(b, c, labels)
    ensures AddsOnly(a, c, labels)
  {
  }

  /** An extension whose new relationships are well formed is valid when
      the original was: old relationships keep their endpoints. */
  lemma ValidGrows(g: Graph, r: Graph)
    requires Valid(g) && Extends(g, r)
    requires forall k :: |g.edges| <= k < |r.edges| ==> EdgeOk(r, r.edges[k])
    ensures Valid(r)
  {
    forall k | 0 <= k < |r.edges| ensures EdgeOk(r, r.edges[k]) {
      if k < |g.edges| {
        var e := g.edges[k];
        assert EdgeOk(g, e);
        assert r.nodes[e.src] == g.nodes[e.src] && r.nodes[e.dst] == g.nodes[e.dst];
      }
    }
  }

  /** Relationships appended to a valid graph whose nodes were only added
      to keep it valid when each of them is well formed. */
  lemma AppendEdgesValid(g: Graph, nodes: seq<Node>, es: seq<Edge>)
    requires Valid(g) && Extends(g, Graph(nodes, g.edges))
    requires forall e :: e in es ==> EdgeOk(Graph(nodes, g.edges + es), e)
    ensures Valid(Graph(nodes, g.edges + es))
  {
    var r := Graph(nodes, g.edges + es);
    forall k | |g.edges| <= k < |r.edges| ensures EdgeOk(r, r.edges[k]) {
      assert r.edges[k] == es[k - |g.edges|];
    }
    ValidGrows(g, r);
  }

  /** Every Model node carries one of the given names, and no two carry the
      same one. */
  predicate ModelsFrom(g: Graph, names: set<string>) {
    && ModelsUnique(g)
    && forall i :: 0 <= i < |g.nodes| && g.nodes[i].ModelNode? ==> g.nodes[i].name in names
  }

  /** Adding no Model node keeps the Model nodes as they were. */
  lemma ModelsFromWithout(g: Graph, r: Graph, labels: set<string>, names: set<string>)
    requires AddsOnly(g, r, labels) && "Model" !in labels && ModelsFrom(g, names)
    ensures ModelsFrom(r, names)
  {
    assert forall i :: |g.nodes| <= i < |r.nodes| ==> !r.nodes[i].ModelNode? by {
      forall i | |g.nodes| <= i < |r.nodes| ensures !r.nodes[i].ModelNode? {
        assert LabelOf(r.nodes[i]) in labels;
      }
    }
  }

  /** `MATCH (n) DETACH DELETE n`: every node goes, and every relationship
      with it. */
  function ClearAll(g: Graph): (r: Graph)
    ensures |r.nodes| == 0 && |r.edges| == 0
  {
    Empty
  }

  /** `CREATE (n)`: the new node gets the next identity. */
  function Create(g: Graph, n: Node): (r: Graph)
    ensures AddsOnly(g, r, {LabelOf(n)})
    ensures |r.nodes| == |g.nodes| + 1 && r.nodes[|g.nodes|] == n && r.edges == g.edges
  {
    Graph(g.nodes + [n], g.edges)
  }

  /** The node patterns the projection and the queries match on. */
  datatype Pattern =
    | AnyApi
    | EndpointWithPath(path: string)
    | ParameterWithName(name: string)
    | ModelWithName(name: string)

  predicate Matches(n: Node, p: Pattern) {
    match p
    case AnyApi => n.ApiNode?
    case EndpointWithPath(path) => n.EndpointNode? && n.path == path
    case ParameterWithName(name) => n.ParameterNode? && n.name == name
    case ModelWithName(name) => n.ModelNode? && n.name == name
  }

  /** `MATCH (n:Label {key: value})` from node `from` on: the identities of
      the matching nodes, in node order. */
  function MatchFrom(nodes: seq<Node>, p: Pattern, from: nat): (ids: seq<nat>)
    requires from <= |nodes|
    ensures forall k :: 0 <= k < |ids| ==> from <= ids[k] < |nodes| && Matches(nodes[ids[k]], p)
    ensures forall i :: from <= i < |nodes| && Matches(nodes[i], p) ==> i in ids
    ensures Increasing(ids)
    decreases |nodes| - from
  {
    if from == |nodes| then []
    else
      var rest := MatchFrom(nodes, p, from + 1);
      if Matches(nodes[from], p) then [from] + rest else rest
  }

  /** `MATCH (n:Label {key: value})`: every matching node, once, in node
      order. */
  function MatchAll(g: Graph, p: Pattern): (ids: seq<nat>)
    ensures forall k :: 0 <= k < |ids| ==> ids[k] < |g.nodes| && Matches(g.nodes[ids[k]], p)
    ensures forall i :: 0 <= i < |g.nodes| && Matches(g.nodes[i], p) ==> i in ids
    ensures Increasing(ids)
  {
    MatchFrom(g.nodes, p, 0)
  }

  /** A pattern binds no row exactly when no node matches it. */
  lemma MatchAllNone(g: Graph, p: Pattern)
    ensures MatchAll(g, p) == [] <==> forall i :: 0 <= i < |g.nodes| ==> !Matches(g.nodes[i], p)
  {
    var ids := MatchAll(g, p);
    if ids != [] {
      assert Matches(g.nodes[ids[0]], p);
    }
  }

  /** Matching in an extension of a graph finds the old matches first. */
  lemma MatchAllExtends(g: Graph, r: Graph, p: Pattern)
    requires Extends(g, r)
    ensures forall i :: 0 <= i < |g.nodes| && Matches(g.nodes[i], p) ==> i in MatchAll(r, p)
  {
    forall i | 0 <= i < |g.nodes| && Matches(g.nodes[i], p) ensures i in MatchAll(r, p) {
      assert r.nodes[i] == g.nodes[i];
    }
  }

  /** At most one Model node per name. */
  predicate ModelsUnique(g: Graph) {
    forall i, j :: 0 <= i < j < |g.nodes| && g.nodes[i].ModelNode? && g.nodes[j].ModelNode? ==>
      g.nodes[i].name != g.nodes[j].name
  }

  /** Under unique Model names, equal Model nodes are the same node. */
  lemma ModelsUniqueAt(g: Graph, a: nat, b: nat)
    requires ModelsUnique(g) && a < |g.nodes| && b < |g.nodes|
    requires g.nodes[a].ModelNode? && g.nodes[b] == g.nodes[a]
    ensures a == b
  {
  }

  /** `MERGE (m:Model {name: name})`: binds every existing Model node of
      that name, or creates one when there is none. */
  function MergeModel(g: Graph, name: string): (r: (Graph, seq<nat>))
    ensures |r.1| > 0
    ensures forall k :: 0 <= k < |r.1| ==> r.1[k] < |r.0.nodes| && r.0.nodes[r.1[k]] == ModelNode(name)
    ensures AddsOnly(g, r.0, {"Model"}) && r.0.edges == g.edges
    ensures |r.0.nodes| <= |g.nodes| + 1
    ensures forall i :: |g.nodes| <= i < |r.0.nodes| ==> r.0.nodes[i] == ModelNode(name)
    ensures |r.0.nodes| == |g.nodes| + 1 <==> forall i :: 0 <= i < |g.nodes| ==> g.nodes[i] != ModelNode(name)
    ensures ModelsUnique(g) ==> ModelsUnique(r.0) && |r.1| == 1
  {
    var ids := MatchAll(g, ModelWithName(name));
    if |ids| > 0 then
      assert g.nodes[ids[0]] == ModelNode(name);
      assert |ids| > 1 ==> ids[0] < ids[1] && g.nodes[ids[1]] == ModelNode(name);
      assert ModelsUnique(g) ==> |ids| == 1;
      (g, ids)
    else
      (Create(g, ModelNode(name)), [|g.nodes|])
  }

  /** The nodes with a given label, in node order. */
  function OfLabel(nodes: seq<Node>, lab: string): seq<Node>
  {
    if |nodes| == 0 then []
    else
      var last := nodes[|nodes| - 1];
      OfLabel(nodes[..|nodes| - 1], lab) + (if LabelOf(last) == lab then [last] else [])
  }

  /** Selecting by label distributes over appending nodes. */
  lemma {:induction false} OfLabelAppend(a: seq<Node>, b: seq<Node>, lab: string)
    ensures OfLabel(a + b, lab) == OfLabel(a, lab) + OfLabel(b, lab)
    decreases |b|
  {
    if |b| > 0 {
      var n := |b| - 1;
      assert (a + b)[..|a + b| - 1] == a + b[..n];
      OfLabelAppend(a, b[..n], lab);
    } else {
      assert a + b == a;
    }
  }

  /** Nodes of other labels contribute nothing to a label's selection. */
  lemma {:induction false} OfLabelNone(nodes: seq<Node>, lab: string)
    requires forall i :: 0 <= i < |nodes| ==> LabelOf(nodes[i]) != lab
    ensures OfLabel(nodes, lab) == []
  {
    if |nodes| > 0 {
      OfLabelNone(nodes[..|nodes| - 1], lab);
    }
  }

  /** An extension that adds no node of a label leaves that label's
      selection as it was. */
  lemma OfLabelUnchanged(g: Graph, r: Graph, labels: set<string>, lab: string)
    requires AddsOnly(g, r, labels) && lab !in labels
    ensures OfLabel(r.nodes, lab) == OfLabel(g.nodes, lab)
  {
    var rest := r.nodes[|g.nodes|..];
    ExtendsSplit(g, r);
    OfLabelAppend(g.nodes, rest, lab);
    assert forall i :: 0 <= i < |rest| ==> LabelOf(rest[i]) in labels by {
      forall i | 0 <= i < |rest| ensures LabelOf(rest[i]) in labels {
        assert rest[i] == r.nodes[|g.nodes| + i];
      }
    }
    OfLabelNone(rest, lab);
  }

  /** Appending one node adds it to its own label's selection only. */
  lemma OfLabelSnoc(nodes: seq<Node>, n: Node, lab: string)
    ensures OfLabel(nodes + [n], lab) == OfLabel(nodes, lab) + (if LabelOf(n) == lab then [n] else [])
  {
    assert (nodes + [n])[..|nodes|] == nodes;
  }

  /** A single node is selected by its own label and by no other. */
  lemma OfLabelSingle(n: Node, lab: string)
    ensures OfLabel([n], lab) == if LabelOf(n) == lab then [n] else []
  {
    assert [n][..0] == [];
  }

  /** Some node equal to `a` is joined to some node equal to `b` by a
      `rel` relationship. */
  predicate Linked(g: Graph, a: Node, rel: Rel, b: Node) {
    exists k :: 0 <= k < |g.edges| && g.edges[k].rel == rel &&
      g.edges[k].src < |g.nodes| && g.nodes[g.edges[k].src] == a &&
      g.edges[k].dst < |g.nodes| && g.nodes[g.edges[k].dst] == b
  }

  /** The relationship at position `k` links its two nodes. */
  lemma LinkedAt(g: Graph, k: nat, a: Node, rel: Rel, b: Node)
    requires k < |g.edges| && g.edges[k].rel == rel
    requires g.edges[k].src < |g.nodes| && g.nodes[g.edges[k].src] == a
    requires g.edges[k].dst < |g.nodes| && g.nodes[g.edges[k].dst] == b
    ensures Linked(g, a, rel, b)
  {
  }

  /** An appended relationship links its two nodes. */
  lemma LinkedAppended(g: Graph, es: seq<Edge>, k: nat, a: Node, b: Node)
    requires k < |es| && es[k].src < |g.nodes| && g.nodes[es[k].src] == a
    requires es[k].dst < |g.nodes| && g.nodes[es[k].dst] == b
    ensures Linked(Graph(g.nodes, g.edges + es), a, es[k].rel, b)
  {
    LinkedAt(Graph(g.nodes, g.edges + es), |g.edges| + k, a, es[k].rel, b);
  }

  /** A relationship, once created, stays. */
  lemma LinkedExtends(g: Graph, r: Graph, a: Node, rel: Rel, b: Node)
    requires Linked(g, a, rel, b) && Extends(g, r)
    ensures Linked(r, a, rel, b)
  {
    var k :| 0 <= k < |g.edges| && g.edges[k].rel == rel &&
      g.edges[k].src < |g.nodes| && g.nodes[g.edges[k].src] == a &&
      g.edges[k].dst < |g.nodes| && g.nodes[g.edges[k].dst] == b;
    assert r.edges[k] == g.edges[k];
  }

  /** Node `i` itself has a `rel` relationship to some node equal to `b`. */
  predicate LinksFrom(g: Graph, i: nat, rel: Rel, b: Node) {
    exists k :: 0 <= k < |g.edges| && g.edges[k].src == i && g.edges[k].rel == rel &&
      g.edges[k].dst < |g.nodes| && g.nodes[g.edges[k].dst] == b
  }

  /** The relationship at position `k` leaves node `i`. */
  lemma LinksFromAt(g: Graph, k: nat, i: nat, rel: Rel, b: Node)
    requires k < |g.edges| && g.edges[k].src == i && g.edges[k].rel == rel
    requires g.edges[k].dst < |g.nodes| && g.nodes[g.edges[k].dst] == b
    ensures LinksFrom(g, i, rel, b)
  {
  }

  lemma LinksFromExtends(g: Graph, r: Graph, i: nat, rel: Rel, b: Node)
    requires LinksFrom(g, i, rel, b) && Extends(g, r)
    ensures LinksFrom(r, i, rel, b)
  {
    var k :| 0 <= k < |g.edges| && g.edges[k].src == i && g.edges[k].rel == rel &&
      g.edges[k].dst < |g.nodes| && g.nodes[g.edges[k].dst] == b;
    assert r.edges[k] == g.edges[k];
    LinksFromAt(r, k, i, rel, b);
  }

  /** A relationship leaving a node links that node's value. */
  lemma LinksFromLinked(g: Graph, i: nat, rel: Rel, b: Node)
    requires LinksFrom(g, i, rel, b) && i < |g.nodes|
    ensures Linked(g, g.nodes[i], rel, b)
  {
    var k :| 0 <= k < |g.edges| && g.edges[k].src == i && g.edges[k].rel == rel &&
      g.edges[k].dst < |g.nodes| && g.nodes[g.edges[k].dst] == b;
    LinkedAt(g, k, g.nodes[i], rel, b);
  }

  /** The first node, from `from` on, that matches a pattern. */
  function FirstFrom(nodes: seq<Node>, p: Pattern, from: nat): (r: Option<nat>)
    requires from <= |nodes|
    ensures r.Some? ==> from <= r.value < |nodes| && Matches(nodes[r.value], p)
    ensures forall i :: from <= i < |nodes| && (r.None? || i < r.value) ==> !Matches(nodes[i], p)
    decreases |nodes| - from
  {
    if from == |nodes| then None
    else if Matches(nodes[from], p) then Some(from)
    else FirstFrom(nodes, p, from + 1)
  }

  /** The first row a single-node MATCH yields, when node order is the
      row order. */
  function FirstMatch(nodes: seq<Node>, p: Pattern): (r: Option<Node>)
    ensures r.Some? ==> Matches(r.value, p)
    ensures r.None? <==> forall i :: 0 <= i < |nodes| ==> !Matches(nodes[i], p)
  {
    match FirstFrom(nodes, p, 0)
    case None => None
    case Some(i) => Some(nodes[i])
  }

  /** The first match is the matching node no other match precedes. */
  lemma FirstMatchIs(nodes: seq<Node>, p: Pattern, i: nat)
    requires i < |nodes| && Matches(nodes[i], p)
    requires forall j :: 0 <= j < i ==> !Matches(nodes[j], p)
    ensures FirstMatch(nodes, p) == Some(nodes[i])
  {
    var r := FirstFrom(nodes, p, 0);
    assert r.Some?;
    assert !(r.value < i) && !(i < r.value);
  }

  /** The label a pattern requires. */
  function PatternLabel(p: Pattern): string {
    match p
    case AnyApi => "API"
    case EndpointWithPath(_) => "Endpoint"
    case ParameterWithName(_) => "Parameter"
    case ModelWithName(_) => "Model"
  }

  /** Looking for a pattern among all nodes or among the nodes of its label
      finds the same node. */
  lemma {:induction false} FirstMatchOfLabel(nodes: seq<Node>, p: Pattern)
    ensures FirstMatch(nodes, p) == FirstMatch(OfLabel(nodes, PatternLabel(p)), p)
  {
    if |nodes| > 0 {
      var n := |nodes| - 1;
      var init := nodes[..n];
      FirstMatchOfLabel(init, p);
      assert nodes == init + [nodes[n]];
      FirstMatchSnoc(init, nodes[n], p);
      OfLabelSnoc(init, nodes[n], PatternLabel(p));
      var sel := OfLabel(init, PatternLabel(p));
      if LabelOf(nodes[n]) == PatternLabel(p) {
        FirstMatchSnoc(sel, nodes[n], p);
      } else {
        assert !Matches(nodes[n], p);
        assert sel + [] == sel;
      }
    }
  }

  /** Appending a node changes the first match only when there was none. */
  lemma FirstMatchSnoc(a: seq<Node>, x: Node, p: Pattern)
    ensures FirstMatch(a + [x], p) ==
      if FirstMatch(a, p).Some? then FirstMatch(a, p) else if Matches(x, p) then Some(x) else None
  {
    var b := a + [x];
    assert forall j :: 0 <= j < |a| ==> b[j] == a[j];
    match FirstFrom(a, p, 0)
    case Some(i) => FirstMatchIs(b, p, i);
    case None =>
      if Matches(x, p) {
        FirstMatchIs(b, p, |a|);
      }
  }
}
