/**
 * The graph preparation as a whole: pick the node and link lists out of the
 * dataset, infer links when none are supplied, compute the affiliation
 * lists, give every node an id, index the nodes and resolve the link
 * endpoints. Fetching the dataset is not modelled: the parsed JSON is the
 * input, and the random ids are the parameter `randomId`.
 */
module Prepare {
  import opened Js
  import opened Records
  import opened PairScan
  import opened Inference
  import opened NodeIndex
  import opened Affiliations

  /** The parsed dataset: an object with any of the fields `nodes`,
      `authors`, `links` and `edges` (each `None` when missing or falsy), or
      a bare array of author records. */
  datatype Dataset =
    | Object(nodes: Option<seq<NodeRecord>>, authors: Option<seq<NodeRecord>>,
             links: Option<seq<Link>>, edges: Option<seq<Link>>)
    | Array(records: seq<NodeRecord>)

  /** The one failure modelled: an object with neither `nodes` nor
      `authors` makes `nodes` the object itself, and `nodes.map` throws a
      `TypeError`. List entries are JSON objects, so the `TypeError` a
      `null` entry would raise does not arise here. */
  datatype Failure = NodesNotAnArray

  datatype Result<T> = Ok(value: T) | Err(failure: Failure)

  /** What the rendering receives. */
  datatype Graph = Graph(
    nodes: seq<NodeRecord>,
    links: seq<Link>,
    nodeById: map<Val, nat>,
    colorDomain: seq<Val>,
    legend: seq<Val>)

  /** Line 8: `data.nodes || data.authors || data`, `None` when the result is
      not an array. An array, even an empty one, is truthy. */
  function NodeList(data: Dataset): Option<seq<NodeRecord>> {
    match data
    case Array(records) => Some(records)
    case Object(nodes, authors, _, _) => if nodes.Some? then nodes else authors
  }

  /** Line 9: `data.links || data.edges || []`; an array has no `links`
      field. */
  function SuppliedLinks(data: Dataset): seq<Link> {
    match data
    case Array(_) => []
    case Object(_, _, links, edges) =>
      if links.Some? then links.value else if edges.Some? then edges.value else []
  }

  /** Lines 12-27: the supplied list, replaced by the inferred one when it
      is empty. */
  function ChosenLinks(nodes: seq<NodeRecord>, supplied: seq<Link>): seq<Link> {
    if |supplied| == 0 then InferredLinks(nodes) else supplied
  }

  /** The prepared graph, or the failure. */
  function Prepared(data: Dataset, randomId: nat -> string): Result<Graph> {
    match NodeList(data)
    case None => Err(NodesNotAnArray)
    case Some(nodes) =>
      var byId := IndexOf(AssignedIds(nodes, randomId));
      Ok(Graph(WithAssignedIds(nodes, randomId),
               ResolveAll(ChosenLinks(nodes, SuppliedLinks(data)), byId),
               byId, ColorDomain(nodes), Legend(nodes)))
  }

  /** Lines 8-50 and 162, in the order the script runs them; the node and
      link records are updated in place. */
  method PrepareGraph(data: Dataset, randomId: nat -> string) returns (r: Result<Graph>)
    ensures r == Prepared(data, randomId)
  {
    var list := NodeList(data);
    if list.None? {
      return Err(NodesNotAnArray);
    }
    var nodes := list.value;
    var links := SuppliedLinks(data);
    if |links| == 0 {
      links := InferLinks(nodes);
    }
    assert links == ChosenLinks(nodes, SuppliedLinks(data));
    var colorDomain := ColorDomain(nodes);
    var normalized, resolved, nodeById := IndexAndResolve(nodes, links, randomId);
    var legend := Legend(normalized);
    LegendIgnoresIds(nodes, randomId);
    r := Ok(Graph(normalized, resolved, nodeById, colorDomain, legend));
  }

  /** The id assignment at line 44 leaves affiliations alone, so the legend
      built after it (line 162) lists what the colour domain was cut from
      before it (line 38). */
  lemma LegendIgnoresIds(nodes: seq<NodeRecord>, randomId: nat -> string)
    ensures Legend(WithAssignedIds(nodes, randomId)) == Legend(nodes)
  {
    KeysIgnoreIds(WithAssignedIds(nodes, randomId), nodes);
  }

  // ---------------------------------------------------------------------
  // Properties

  /** The preparation fails exactly when the dataset is an object with
      neither a `nodes` nor an `authors` array. */
  lemma FailsOnlyWithoutNodeArray(data: Dataset, randomId: nat -> string)
    ensures Prepared(data, randomId).Err? <==> data.Object? && data.nodes.None? && data.authors.None?
  {
  }

  /** Supplied links are kept: no inference runs, the list keeps its length
      and order, and each link only has its endpoints resolved. */
  lemma SuppliedLinksKept(data: Dataset, randomId: nat -> string)
    requires NodeList(data).Some? && |SuppliedLinks(data)| > 0
    ensures var g := Prepared(data, randomId).value;
      |g.links| == |SuppliedLinks(data)| &&
      forall k :: 0 <= k < |g.links| ==>
        g.links[k] == ResolveLink(SuppliedLinks(data)[k], g.nodeById) &&
        g.links[k].value == SuppliedLinks(data)[k].value
  {
  }

  /** Without supplied links the graph carries the inferred ones: one per
      positive-score pair, in (i, j) order, each weighted 1..3. */
  lemma InferredWhenNoneSupplied(data: Dataset, randomId: nat -> string, k: nat)
    requires NodeList(data).Some? && |SuppliedLinks(data)| == 0
    requires k < |InferredPairs(NodeList(data).value)|
    ensures var nodes, g := NodeList(data).value, Prepared(data, randomId).value;
      var p := InferredPairs(nodes)[k];
      |g.links| == |InferredPairs(nodes)| &&
      p.i < p.j < |nodes| && Score(nodes[p.i], nodes[p.j]) > 0 &&
      g.links[k] == ResolveLink(PairLink(nodes[p.i], p.i, nodes[p.j], p.j), g.nodeById) &&
      g.links[k].value == Some(Num(Score(nodes[p.i], nodes[p.j])))
  {
    var nodes := NodeList(data).value;
    InferredLinksBound(nodes);
    InferredLinkAt(nodes, k);
    ImagesAt(nodes, Linked, PairLink, k);
  }

  /** Every node of the prepared graph has a non-null id and the index holds
      exactly those ids. Resolving an endpoint against that index yields a
      reference to the LAST node whose id equals the endpoint's raw value,
      or, when no node carries that value, the endpoint unchanged. */
  lemma PreparedResolution(data: Dataset, randomId: nat -> string, e: Endpoint)
    requires NodeList(data).Some?
    ensures var g := Prepared(data, randomId).value;
      var r := ResolveEndpoint(e, g.nodeById);
      (forall m :: 0 <= m < |g.nodes| ==> g.nodes[m].id.Some? && g.nodes[m].id.value != Null) &&
      (forall v :: v in g.nodeById <==> exists m :: 0 <= m < |g.nodes| && g.nodes[m].id == Some(v)) &&
      (e.Raw? && e.v.Some? && (exists m :: 0 <= m < |g.nodes| && g.nodes[m].id == e.v) ==>
        r.NodeRef? && r.index < |g.nodes| && g.nodes[r.index].id == e.v &&
        forall m :: r.index < m < |g.nodes| ==> g.nodes[m].id != e.v) &&
      (!(e.Raw? && e.v.Some? && exists m :: 0 <= m < |g.nodes| && g.nodes[m].id == e.v) ==> r == e)
  {
    var nodes := NodeList(data).value;
    IndexedNodes(nodes, randomId);
    ResolvedToNode(nodes, randomId, e);
  }
}
