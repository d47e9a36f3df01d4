/**
 * The affiliation lists: `Array.from(new Set(nodes.map(d => d.affiliation
 * || 'Unknown')))`, the legend (line 162), and its first 20 entries, the
 * domain of the colour scale (line 38).
 */
module Affiliations {
  import opened Js
  import opened Records

  /** How many affiliations the colour domain keeps (`.slice(0, 20)`). */
  const DomainCap: nat := 20

  /** The key under which a node is listed: its affiliation when truthy,
      `'Unknown'` when it is missing, `null` or empty. */
  function AffiliationKey(n: NodeRecord): (r: Val)
    ensures Truthy(n.affiliation) ==> Some(r) == n.affiliation
    ensures !Truthy(n.affiliation) ==> r == Str("Unknown")
  {
    Or(n.affiliation, Str("Unknown"))
  }

  /** `nodes.map(d => d.affiliation || 'Unknown')` */
  function Keys(nodes: seq<NodeRecord>): (r: seq<Val>)
    ensures |r| == |nodes|
    ensures forall k :: 0 <= k < |nodes| ==> r[k] == AffiliationKey(nodes[k])
  {
    if nodes == [] then [] else Keys(nodes[..|nodes| - 1]) + [AffiliationKey(nodes[|nodes| - 1])]
  }

  /** `Array.from(new Set(xs))`: a `Set` iterates in insertion order and
      ignores a value it already holds. The result holds the values of xs
      and nothing else. */
  function Distinct<T(==,!new)>(xs: seq<T>): (r: seq<T>)
    ensures forall x :: x in r <==> x in xs
    decreases |xs|
  {
    if xs == [] then []
    else
      var d := Distinct(xs[..|xs| - 1]);
      if xs[|xs| - 1] in d then d else d + [xs[|xs| - 1]]
  }

  /** `xs.slice(0, n)` */
  function Take<T>(xs: seq<T>, n: nat): (r: seq<T>)
    ensures |r| <= n && |r| <= |xs|
    ensures |xs| <= n ==> r == xs
    ensures r == xs[..|r|]
  {
    if |xs| <= n then xs else xs[..n]
  }

  /** The position where x first occurs in xs. */
  function FirstIndex<T(==)>(xs: seq<T>, x: T): (r: nat)
    requires x in xs
    ensures r < |xs| && xs[r] == x && x !in xs[..r]
    decreases |xs|
  {
    var init := xs[..|xs| - 1];
    if x in init then FirstIndex(init, x) else |xs| - 1
  }

  /** The legend's list of affiliations (line 162). */
  function Legend(nodes: seq<NodeRecord>): seq<Val> {
    Distinct(Keys(nodes))
  }

  /** The colour scale's domain (line 38). */
  function ColorDomain(nodes: seq<NodeRecord>): seq<Val> {
    Take(Legend(nodes), DomainCap)
  }

  // ---------------------------------------------------------------------
  // Properties

  /** The deduplicated list holds each value once, in the order of the
      values' first occurrences. */
  lemma {:induction false} DistinctSpec<T(!new)>(xs: seq<T>)
    ensures forall k, l :: 0 <= k < l < |Distinct(xs)| ==> Distinct(xs)[k] != Distinct(xs)[l]
    ensures forall k, l :: 0 <= k < l < |Distinct(xs)| ==>
      FirstIndex(xs, Distinct(xs)[k]) < FirstIndex(xs, Distinct(xs)[l])
    decreases |xs|
  {
    if xs != [] {
      var init, last := xs[..|xs| - 1], xs[|xs| - 1];
      assert xs == init + [last];
      DistinctSpec(init);
      var d := Distinct(init);
      forall x | x in init ensures FirstIndex(xs, x) == FirstIndex(init, x) {
      }
      if last !in d {
        forall k | 0 <= k < |d| ensures FirstIndex(xs, d[k]) < FirstIndex(xs, last) {
          assert d[k] in init;
        }
      }
    }
  }

  /** Both lists hold only node keys, and each key once. */
  lemma ListsDuplicateFree(nodes: seq<NodeRecord>)
    ensures forall k, l :: 0 <= k < l < |Legend(nodes)| ==> Legend(nodes)[k] != Legend(nodes)[l]
    ensures forall k, l :: 0 <= k < l < |ColorDomain(nodes)| ==> ColorDomain(nodes)[k] != ColorDomain(nodes)[l]
    ensures forall x :: x in ColorDomain(nodes) ==> x in Legend(nodes)
  {
    DistinctSpec(Keys(nodes));
  }

  /** The legend lists exactly the keys of the nodes, in the order in which
      each first appears. */
  lemma LegendContents(nodes: seq<NodeRecord>)
    ensures forall x :: x in Legend(nodes) <==> exists k :: 0 <= k < |nodes| && AffiliationKey(nodes[k]) == x
    ensures forall k, l :: 0 <= k < l < |Legend(nodes)| ==>
      FirstIndex(Keys(nodes), Legend(nodes)[k]) < FirstIndex(Keys(nodes), Legend(nodes)[l])
  {
    var keys := Keys(nodes);
    DistinctSpec(keys);
    forall x ensures x in Legend(nodes) <==> exists k :: 0 <= k < |nodes| && AffiliationKey(nodes[k]) == x {
      if x in keys {
        var k :| 0 <= k < |keys| && keys[k] == x;
        assert AffiliationKey(nodes[k]) == x;
      }
    }
  }

  /** The colour domain is the legend's first entries, at most 20 of them;
      with 20 or fewer distinct keys it is the whole legend, so it holds
      every node's key. */
  lemma ColorDomainCapped(nodes: seq<NodeRecord>)
    ensures |ColorDomain(nodes)| <= DomainCap
    ensures ColorDomain(nodes) == Legend(nodes)[..|ColorDomain(nodes)|]
    ensures |Legend(nodes)| > DomainCap ==> |ColorDomain(nodes)| == DomainCap
    ensures |Legend(nodes)| <= DomainCap ==>
      forall k :: 0 <= k < |nodes| ==> AffiliationKey(nodes[k]) in ColorDomain(nodes)
  {
    LegendContents(nodes);
  }

  /** The id assignment at line 44 leaves affiliations alone, so the legend
      built after it (line 162) agrees with the list built before it
      (line 38). */
  lemma KeysIgnoreIds(a: seq<NodeRecord>, b: seq<NodeRecord>)
    requires |a| == |b|
    requires forall k :: 0 <= k < |a| ==> a[k].affiliation == b[k].affiliation
    ensures Keys(a) == Keys(b) && Legend(a) == Legend(b)
  {
  }
}
