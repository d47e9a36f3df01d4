/**
 * The id index and link resolution that run before the simulation starts:
 * every node receives an id (`n.id ?? n.name ?? <random id>`), a `Map` from id
 * to node is filled in node order, and each link endpoint that names an
 * indexed id is replaced by a reference to that node.
 *
 * A node reference is its position in the node array: the records come from
 * JSON, so no two positions hold the same object.
 */
module NodeIndex {
  import opened Js
  import opened Records

  /** The id line 44 gives a node. It is never `null`; it is the node's own
      id when that is neither `null` nor missing, even when it is `0` or `""`
      (which `||` would have dropped), and otherwise the name, then the
      random id drawn for the node. */
  function AssignedId(n: NodeRecord, randomId: string): (r: Val)
    ensures r != Null
    ensures n.id.Some? && n.id.value != Null ==> r == n.id.value
    ensures (n.id.None? || n.id == Some(Null)) && n.name.Some? && n.name.value != Null ==> r == n.name.value
    ensures (n.id.None? || n.id == Some(Null)) && (n.name.None? || n.name == Some(Null)) ==> r == Str(randomId)
  {
    Coalesce(n.id, Coalesce(n.name, Str(randomId)))
  }

  /** The ids assigned to the nodes, position by position; `randomId(k)` stands
      for the random id drawn when node k has neither id nor name. */
  function AssignedIds(nodes: seq<NodeRecord>, randomId: nat -> string): (r: seq<Val>)
    ensures |r| == |nodes|
  {
    seq(|nodes|, k requires 0 <= k < |nodes| => AssignedId(nodes[k], randomId(k)))
  }

  /** The nodes after line 44: only the `id` field changes. */
  function WithAssignedIds(nodes: seq<NodeRecord>, randomId: nat -> string): (r: seq<NodeRecord>)
    ensures |r| == |nodes|
  {
    seq(|nodes|, k requires 0 <= k < |nodes| => nodes[k].(id := Some(AssignedId(nodes[k], randomId(k)))))
  }

  /** The `Map` after `nodeById.set(id, node)` for each id in order: a later
      entry with the same id replaces an earlier one. */
  function IndexOf(ids: seq<Val>): map<Val, nat>
    decreases |ids|
  {
    if ids == [] then map[] else IndexOf(ids[..|ids| - 1])[ids[|ids| - 1] := |ids| - 1]
  }

  /** `nodeById.get(e) || e`: an endpoint naming an indexed id becomes a
      reference to that node; anything else is left as it is. */
  function ResolveEndpoint(e: Endpoint, nodeById: map<Val, nat>): Endpoint {
    match e
    case Raw(Some(v)) => if v in nodeById then NodeRef(nodeById[v]) else e
    case _ => e
  }

  /** Lines 48-49 applied to one link. */
  function ResolveLink(l: Link, nodeById: map<Val, nat>): Link {
    l.(source := ResolveEndpoint(l.source, nodeById), target := ResolveEndpoint(l.target, nodeById))
  }

  /** Lines 47-50 on a whole list. */
  function ResolveAll(links: seq<Link>, nodeById: map<Val, nat>): (r: seq<Link>)
    ensures |r| == |links|
  {
    seq(|links|, k requires 0 <= k < |links| => ResolveLink(links[k], nodeById))
  }

  // ---------------------------------------------------------------------
  // The loops

  /** Lines 42-46: `nodes.forEach(n => { n.id = ...; nodeById.set(n.id, n) })`. */
  method IndexNodes(nodes: array<NodeRecord>, randomId: nat -> string) returns (nodeById: map<Val, nat>)
    modifies nodes
    ensures nodes[..] == WithAssignedIds(old(nodes[..]), randomId)
    ensures nodeById == IndexOf(AssignedIds(old(nodes[..]), randomId))
  {
    ghost var original := nodes[..];
    ghost var ids := AssignedIds(original, randomId);
    nodeById := map[];
    var k := 0;
    while k < nodes.Length
      invariant 0 <= k <= nodes.Length
      invariant forall m :: 0 <= m < k ==> nodes[m] == WithAssignedIds(original, randomId)[m]
      invariant forall m :: k <= m < nodes.Length ==> nodes[m] == original[m]
      invariant nodeById == IndexOf(ids[..k])
    {
      var n := nodes[k];
      var id := Coalesce(n.id, Coalesce(n.name, Str(randomId(k))));
      nodes[k] := n.(id := Some(id));
      nodeById := nodeById[id := k];
      assert ids[..k + 1][..k] == ids[..k];
      k := k + 1;
    }
    assert ids[..k] == ids;
  }

  /** Lines 47-50: `links.forEach(l => { l.source = ...; l.target = ... })`,
      each link record updated in place. */
  method ResolveLinks(links: array<Link>, nodeById: map<Val, nat>)
    modifies links
    ensures forall k :: 0 <= k < links.Length ==> links[k] == ResolveLink(old(links[k]), nodeById)
  {
    var k := 0;
    while k < links.Length
      invariant 0 <= k <= links.Length
      invariant forall m :: 0 <= m < k ==> links[m] == ResolveLink(old(links[m]), nodeById)
      invariant forall m :: k <= m < links.Length ==> links[m] == old(links[m])
    {
      var l := links[k];
      var source := if l.source.Raw? && l.source.v.Some? && l.source.v.value in nodeById
        then NodeRef(nodeById[l.source.v.value]) else l.source;
      var target := if l.target.Raw? && l.target.v.Some? && l.target.v.value in nodeById
        then NodeRef(nodeById[l.target.v.value]) else l.target;
      links[k] := l.(source := source, target := target);
      k := k + 1;
    }
  }

  /** Lines 42-50 together: the node records receive their ids and are
      indexed, then the link records are resolved against the index. The
      records are copied into arrays that the two loops update in place. */
  method IndexAndResolve(nodes: seq<NodeRecord>, links: seq<Link>, randomId: nat -> string)
    returns (normalized: seq<NodeRecord>, resolved: seq<Link>, nodeById: map<Val, nat>)
    ensures normalized == WithAssignedIds(nodes, randomId)
    ensures nodeById == IndexOf(AssignedIds(nodes, randomId))
    ensures resolved == ResolveAll(links, nodeById)
  {
    var nodeArray := new NodeRecord[|nodes|](k requires 0 <= k < |nodes| => nodes[k]);
    assert nodeArray[..] == nodes;
    nodeById := IndexNodes(nodeArray, randomId);
    var linkArray := new Link[|links|](k requires 0 <= k < |links| => links[k]);
    assert linkArray[..] == links;
    ResolveLinks(linkArray, nodeById);
    normalized, resolved := nodeArray[..], linkArray[..];
  }

  // ---------------------------------------------------------------------
  // Properties

  /** After the index is built, its keys are exactly the assigned ids, and
      each key maps to the LAST position carrying that id. */
  lemma {:induction false} IndexLastWins(ids: seq<Val>)
    ensures forall v :: v in IndexOf(ids) <==> v in ids
    ensures forall v :: v in IndexOf(ids) ==>
      IndexOf(ids)[v] < |ids| && ids[IndexOf(ids)[v]] == v &&
      forall k :: IndexOf(ids)[v] < k < |ids| ==> ids[k] != v
    decreases |ids|
  {
    if ids != [] {
      var init := ids[..|ids| - 1];
      IndexLastWins(init);
      forall v ensures v in IndexOf(ids) <==> v in ids {
        assert v in ids <==> v in init || v == ids[|ids| - 1] by {
          assert ids == init + [ids[|ids| - 1]];
        }
      }
    }
  }

  /** Of two nodes sharing an id, the earlier one is left without an index
      entry: the index points at the later one. */
  lemma DuplicateIdShadowed(ids: seq<Val>, k: nat, l: nat)
    requires k < l < |ids| && ids[k] == ids[l]
    ensures ids[k] in IndexOf(ids) && IndexOf(ids)[ids[k]] != k && IndexOf(ids)[ids[k]] >= l
  {
    IndexLastWins(ids);
  }

  /** Resolution against the index: an endpoint whose raw value is an
      assigned id becomes a reference to the last node carrying that id;
      any other endpoint is left unchanged. */
  lemma ResolveAgainstIndex(ids: seq<Val>, e: Endpoint)
    ensures e.Raw? && e.v.Some? && e.v.value in ids ==>
      var r := ResolveEndpoint(e, IndexOf(ids));
      r.NodeRef? && r.index < |ids| && ids[r.index] == e.v.value &&
      forall k :: r.index < k < |ids| ==> ids[k] != e.v.value
    ensures !(e.Raw? && e.v.Some? && e.v.value in ids) ==> ResolveEndpoint(e, IndexOf(ids)) == e
  {
    IndexLastWins(ids);
  }

  /** Every node leaves line 44 with a non-null id, and the index holds
      exactly those ids. */
  lemma IndexedNodes(nodes: seq<NodeRecord>, randomId: nat -> string)
    ensures var ns := WithAssignedIds(nodes, randomId);
      (forall k :: 0 <= k < |ns| ==> ns[k].id.Some? && ns[k].id.value != Null) &&
      forall v :: v in IndexOf(AssignedIds(nodes, randomId)) <==>
        exists k :: 0 <= k < |ns| && ns[k].id == Some(v)
  {
    var ns, ids := WithAssignedIds(nodes, randomId), AssignedIds(nodes, randomId);
    IndexLastWins(ids);
    assert forall k :: 0 <= k < |ns| ==> ns[k].id == Some(ids[k]);
    forall v ensures v in ids <==> exists k :: 0 <= k < |ns| && ns[k].id == Some(v) {
      if v in ids {
        var k :| 0 <= k < |ids| && ids[k] == v;
        assert ns[k].id == Some(v);
      }
    }
  }

  /** After resolution against the index of the normalised nodes, an
      endpoint is a reference to the LAST node whose id equals its raw
      value, or, when no node carries that value, the endpoint unchanged. */
  lemma ResolvedToNode(nodes: seq<NodeRecord>, randomId: nat -> string, e: Endpoint)
    ensures var ns, r := WithAssignedIds(nodes, randomId), ResolveEndpoint(e, IndexOf(AssignedIds(nodes, randomId)));
      (e.Raw? && e.v.Some? && (exists k :: 0 <= k < |ns| && ns[k].id == e.v) ==>
        r.NodeRef? && r.index < |ns| && ns[r.index].id == e.v &&
        forall k :: r.index < k < |ns| ==> ns[k].id != e.v) &&
      (!(e.Raw? && e.v.Some? && exists k :: 0 <= k < |ns| && ns[k].id == e.v) ==> r == e)
  {
    var ns, ids := WithAssignedIds(nodes, randomId), AssignedIds(nodes, randomId);
    ResolveAgainstIndex(ids, e);
    assert forall k :: 0 <= k < |ns| ==> ns[k].id == Some(ids[k]);
    if e.Raw? && e.v.Some? && exists k :: 0 <= k < |ns| && ns[k].id == e.v {
      var k :| 0 <= k < |ns| && ns[k].id == e.v;
      assert ids[k] == e.v.value;
    }
  }

  /** Resolution changes only the endpoints; the weight and every other
      link field stay as they were. */
  lemma ResolveLinkKeepsValue(l: Link, nodeById: map<Val, nat>)
    ensures ResolveLink(l, nodeById).value == l.value
    ensures l.source.NodeRef? ==> ResolveLink(l, nodeById).source == l.source
    ensures l.target.NodeRef? ==> ResolveLink(l, nodeById).target == l.target
  {
  }
}
