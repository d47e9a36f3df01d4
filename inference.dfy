/**
 * Edge inference: when the dataset supplies no links, every unordered pair
 * of author records (i, j) with i < j is scored on shared affiliation and
 * co-authorship, and each pair with a positive score becomes a link.
 *
 * `InferredPairs` (which pairs, in which order) and `InferredLinks` (the
 * links built for them) are the specification, instances of the pair scan;
 * the methods `ScorePair`, `InferRow` and `InferLinks` are the loops that
 * build the list, proved equal to it.
 */
module Inference {
  import opened Js
  import opened Records
  import opened PairScan

  /** Both records carry a truthy affiliation, and they are the same value. */
  predicate SharedAffiliation(a: NodeRecord, b: NodeRecord) {
    Truthy(a.affiliation) && Truthy(b.affiliation) && a.affiliation == b.affiliation
  }

  /** `a.coauthors && Array.isArray(a.coauthors) && a.coauthors.includes(id)` */
  predicate ListsCoauthor(a: NodeRecord, id: Option<Val>) {
    a.coauthors.Some? && Includes(a.coauthors.value, id)
  }

  function Indicator(c: bool): nat {
    if c then 1 else 0
  }

  /** The score of a pair: one point per test that holds. */
  function Score(a: NodeRecord, b: NodeRecord): nat {
    Indicator(SharedAffiliation(a, b)) + Indicator(ListsCoauthor(a, b.id)) + Indicator(ListsCoauthor(b, a.id))
  }

  /** The test the loops apply to a pair: a positive score. */
  predicate Linked(a: NodeRecord, b: NodeRecord) {
    Score(a, b) > 0
  }

  /** The link emitted for records a and b at positions i and j:
      `{source: a.id || i, target: b.id || j, value: score}`. */
  function PairLink(a: NodeRecord, i: nat, b: NodeRecord, j: nat): Link {
    Link(Raw(Some(Or(a.id, Num(i)))), Raw(Some(Or(b.id, Num(j)))), Some(Num(Score(a, b))))
  }

  /** Every pair the inference links, in the order the loops visit them. */
  function InferredPairs(nodes: seq<NodeRecord>): seq<Pair> {
    Kept(nodes, Linked)
  }

  /** The link list the inference builds. */
  function InferredLinks(nodes: seq<NodeRecord>): seq<Link> {
    Images(nodes, Linked, PairLink)
  }

  // ---------------------------------------------------------------------
  // The loops

  /** Lines 20-23: the running score of one pair, one point per test. */
  method ScorePair(a: NodeRecord, b: NodeRecord) returns (score: nat)
    ensures score == Score(a, b)
    ensures score <= 3
  {
    score := 0;
    if Truthy(a.affiliation) && Truthy(b.affiliation) && a.affiliation == b.affiliation {
      score := score + 1;
    }
    if a.coauthors.Some? && Includes(a.coauthors.value, b.id) {
      score := score + 1;
    }
    if b.coauthors.Some? && Includes(b.coauthors.value, a.id) {
      score := score + 1;
    }
  }

  /** Lines 18-25: the inner loop over the partners j of record i, pushing
      one link per positive-score pair onto `tmpLinks`. */
  method InferRow(nodes: seq<NodeRecord>, i: nat, tmpLinks: seq<Link>) returns (out: seq<Link>)
    requires i < |nodes|
    ensures out == tmpLinks + RowImages(nodes, Linked, PairLink, i, |nodes|)
  {
    out := tmpLinks;
    var j := i + 1;
    while j < |nodes|
      invariant i + 1 <= j <= |nodes|
      invariant out == tmpLinks + RowImages(nodes, Linked, PairLink, i, j)
    {
      var a, b := nodes[i], nodes[j];
      var score := ScorePair(a, b);
      if score > 0 {
        out := out + [Link(Raw(Some(Or(a.id, Num(i)))), Raw(Some(Or(b.id, Num(j)))), Some(Num(score)))];
      }
      j := j + 1;
    }
  }

  /** Lines 16-27: the outer loop over every record i; the result is the
      list then assigned to `links`. */
  method InferLinks(nodes: seq<NodeRecord>) returns (links: seq<Link>)
    ensures links == InferredLinks(nodes)
  {
    var tmpLinks: seq<Link> := [];
    var i := 0;
    while i < |nodes|
      invariant 0 <= i <= |nodes|
      invariant tmpLinks == ImagesBefore(nodes, Linked, PairLink, i)
    {
      tmpLinks := InferRow(nodes, i, tmpLinks);
      i := i + 1;
    }
    links := tmpLinks;
  }

  // ---------------------------------------------------------------------
  // What the inferred list holds

  /** A pair is linked exactly when i < j < n and its score is positive:
      pairs scoring 0 produce nothing. */
  lemma InferredPairsExact(nodes: seq<NodeRecord>, p: Pair)
    ensures p in InferredPairs(nodes) <==> p.i < p.j < |nodes| && Score(nodes[p.i], nodes[p.j]) > 0
  {
    KeptExact(nodes, Linked, p);
  }

  /** The loops visit each unordered pair once, with i < j, and the output is
      in lexicographic (i, j) order, so no pair is linked twice. */
  lemma InferredPairsOrdered(nodes: seq<NodeRecord>)
    ensures forall k, l :: 0 <= k < l < |InferredPairs(nodes)| ==>
      LexLess(InferredPairs(nodes)[k], InferredPairs(nodes)[l])
    ensures forall k, l :: 0 <= k < l < |InferredPairs(nodes)| ==>
      InferredPairs(nodes)[k] != InferredPairs(nodes)[l]
  {
    KeptOrdered(nodes, Linked);
  }

  /** At most n(n-1)/2 links, one per unordered pair. */
  lemma InferredLinksBound(nodes: seq<NodeRecord>)
    ensures |InferredLinks(nodes)| == |InferredPairs(nodes)| <= |nodes| * (|nodes| - 1) / 2
  {
    KeptBound(nodes, Linked);
    ImagesBeforeAt(nodes, Linked, PairLink, |nodes|);
  }

  /** Link k of the inferred list is the link of pair k: its source is
      `a.id` when that is truthy and the index i otherwise, its target `b.id`
      or j likewise, and its value is the pair's score, the sum of three
      indicators, which lies in 1..3. */
  lemma InferredLinkAt(nodes: seq<NodeRecord>, k: nat)
    requires k < |InferredPairs(nodes)|
    ensures |InferredLinks(nodes)| == |InferredPairs(nodes)|
    ensures var p, l := InferredPairs(nodes)[k], InferredLinks(nodes)[k];
      && p.i < p.j < |nodes|
      && l.source == Raw(Some(if Truthy(nodes[p.i].id) then nodes[p.i].id.value else Num(p.i)))
      && l.target == Raw(Some(if Truthy(nodes[p.j].id) then nodes[p.j].id.value else Num(p.j)))
      && l.value == Some(Num(
           Indicator(SharedAffiliation(nodes[p.i], nodes[p.j]))
         + Indicator(ListsCoauthor(nodes[p.i], nodes[p.j].id))
         + Indicator(ListsCoauthor(nodes[p.j], nodes[p.i].id))))
      && 1 <= l.value.value.n <= 3
  {
    ImagesAt(nodes, Linked, PairLink, k);
    InferredPairsExact(nodes, InferredPairs(nodes)[k]);
  }

  /** Every inferred link's value is a number between 1 and 3. */
  lemma InferredValuesInRange(nodes: seq<NodeRecord>)
    ensures forall l :: l in InferredLinks(nodes) ==>
      l.value.Some? && l.value.value.Num? && 1 <= l.value.value.n <= 3
  {
    forall l | l in InferredLinks(nodes)
      ensures l.value.Some? && l.value.value.Num? && 1 <= l.value.value.n <= 3
    {
      var k :| 0 <= k < |InferredLinks(nodes)| && InferredLinks(nodes)[k] == l;
      InferredLinksBound(nodes);
      InferredLinkAt(nodes, k);
    }
  }

  /** A record with no truthy affiliation and no coauthors array, whose id no
      other record lists, is never linked. */
  lemma IsolatedNodeUnlinked(nodes: seq<NodeRecord>, x: nat)
    requires x < |nodes|
    requires !Truthy(nodes[x].affiliation) && nodes[x].coauthors.None?
    requires forall y :: 0 <= y < |nodes| ==> !ListsCoauthor(nodes[y], nodes[x].id)
    ensures forall p :: p in InferredPairs(nodes) ==> p.i != x && p.j != x
  {
    forall p | p in InferredPairs(nodes) ensures p.i != x && p.j != x {
      InferredPairsExact(nodes, p);
    }
  }
}
