/**
 * Worked scenarios: small datasets run through the model, each with the
 * outcome stated exactly.
 */
module Scenarios {
  import opened Js
  import opened Records
  import opened PairScan
  import opened Inference
  import opened NodeIndex
  import opened Affiliations
  import opened Prepare

  /** An author record with an id, an affiliation and, when given, a
      coauthors array. */
  function Author(id: string, affiliation: string, coauthors: Option<seq<Val>>): NodeRecord {
    NodeRecord(Some(Str(id)), None, Some(Str(affiliation)), coauthors)
  }

  function IdLink(source: string, target: string, value: int): Link {
    Link(Raw(Some(Str(source))), Raw(Some(Str(target))), Some(Num(value)))
  }

  /** Two authors at "X" and one at "Y", no coauthors: the only link joins
      the two "X" authors, with weight 1. */
  lemma SharedAffiliationOnly()
    ensures InferredLinks([Author("A", "X", None), Author("B", "X", None), Author("C", "Y", None)])
      == [IdLink("A", "B", 1)]
  {
    var nodes := [Author("A", "X", None), Author("B", "X", None), Author("C", "Y", None)];
    assert Score(nodes[0], nodes[1]) == 1;
    assert Score(nodes[0], nodes[2]) == 0;
    assert Score(nodes[1], nodes[2]) == 0;
    assert RowImages(nodes, Linked, PairLink, 0, 3) == [IdLink("A", "B", 1)];
    assert RowImages(nodes, Linked, PairLink, 1, 3) == [];
    assert RowImages(nodes, Linked, PairLink, 2, 3) == [];
  }

  /** A lists B as coauthor, B lists nobody, different affiliations: one link
      of weight 1, whichever of the two comes first. */
  lemma OneSidedCoauthorship()
    ensures InferredLinks([Author("A", "X", Some([Str("B")])), Author("B", "Y", None)]) == [IdLink("A", "B", 1)]
    ensures InferredLinks([Author("B", "Y", None), Author("A", "X", Some([Str("B")]))]) == [IdLink("B", "A", 1)]
  {
    var ab := [Author("A", "X", Some([Str("B")])), Author("B", "Y", None)];
    assert Score(ab[0], ab[1]) == 1;
    assert RowImages(ab, Linked, PairLink, 0, 2) == [IdLink("A", "B", 1)];
    assert RowImages(ab, Linked, PairLink, 1, 2) == [];
    var ba := [Author("B", "Y", None), Author("A", "X", Some([Str("B")]))];
    assert Score(ba[0], ba[1]) == 1;
    assert RowImages(ba, Linked, PairLink, 0, 2) == [IdLink("B", "A", 1)];
    assert RowImages(ba, Linked, PairLink, 1, 2) == [];
  }

  /** Mutual coauthors at the same affiliation score all three points. */
  lemma MutualCoauthorsSameAffiliation()
    ensures InferredLinks([Author("A", "X", Some([Str("B")])), Author("B", "X", Some([Str("A")]))]) == [IdLink("A", "B", 3)]
  {
    var nodes := [Author("A", "X", Some([Str("B")])), Author("B", "X", Some([Str("A")]))];
    assert Score(nodes[0], nodes[1]) == 3;
    assert RowImages(nodes, Linked, PairLink, 0, 2) == [IdLink("A", "B", 3)];
    assert RowImages(nodes, Linked, PairLink, 1, 2) == [];
  }

  function NameOnly(name: string, affiliation: string): NodeRecord {
    NodeRecord(None, Some(Str(name)), Some(Str(affiliation)), None)
  }

  /** Two name-only records at the same affiliation, with no links
      supplied: the inferred link names them by position (`a.id || i`). */
  lemma NameOnlyRecordsLinkedByPosition()
    ensures InferredLinks([NameOnly("A", "X"), NameOnly("B", "X")])
      == [Link(Raw(Some(Num(0))), Raw(Some(Num(1))), Some(Num(1)))]
  {
    var nodes := [NameOnly("A", "X"), NameOnly("B", "X")];
    assert Score(nodes[0], nodes[1]) == 1;
    assert RowImages(nodes, Linked, PairLink, 0, 2) == [Link(Raw(Some(Num(0))), Raw(Some(Num(1))), Some(Num(1)))];
    assert RowImages(nodes, Linked, PairLink, 1, 2) == [];
  }

  /** Line 44 gives the same two records their names as ids, so resolution
      finds neither endpoint of that link: it keeps the raw indices 0 and 1. */
  lemma NameOnlyRecordsStayUnresolved(randomId: nat -> string)
    ensures var byId := IndexOf(AssignedIds([NameOnly("A", "X"), NameOnly("B", "X")], randomId));
      var l := Link(Raw(Some(Num(0))), Raw(Some(Num(1))), Some(Num(1)));
      byId == map[Str("A") := 0, Str("B") := 1] && ResolveLink(l, byId) == l
  {
    var nodes := [NameOnly("A", "X"), NameOnly("B", "X")];
    var ids := AssignedIds(nodes, randomId);
    assert AssignedId(nodes[0], randomId(0)) == Str("A") && AssignedId(nodes[1], randomId(1)) == Str("B");
    assert ids == [Str("A"), Str("B")];
    assert ids[..1] == [Str("A")] && [Str("A")][..0] == [];
  }

  /** Two records with the same id: the index keeps the second, and a link
      naming that id is attached to it. */
  lemma DuplicateIdLastWins(randomId: nat -> string)
    ensures var nodes := [Author("A", "X", None), Author("A", "Y", None), Author("C", "Y", None)];
      var byId := IndexOf(AssignedIds(nodes, randomId));
      byId == map[Str("A") := 1, Str("C") := 2] &&
      ResolveLink(IdLink("A", "C", 2), byId) == Link(NodeRef(1), NodeRef(2), Some(Num(2)))
  {
    var nodes := [Author("A", "X", None), Author("A", "Y", None), Author("C", "Y", None)];
    var ids := AssignedIds(nodes, randomId);
    assert AssignedId(nodes[0], randomId(0)) == Str("A") && AssignedId(nodes[1], randomId(1)) == Str("A");
    assert AssignedId(nodes[2], randomId(2)) == Str("C");
    assert ids == [Str("A"), Str("A"), Str("C")];
    assert ids[..2] == [Str("A"), Str("A")] && ids[..2][..1] == [Str("A")] && [Str("A")][..0] == [];
    assert IndexOf(ids[..2]) == map[Str("A") := 1];
  }

  /** The legend lists each affiliation once, in first-occurrence order, with
      missing and empty affiliations under "Unknown". */
  lemma LegendOrder()
    ensures Legend([
      NodeRecord(None, None, Some(Str("X")), None),
      NodeRecord(None, None, None, None),
      NodeRecord(None, None, Some(Str("")), None),
      NodeRecord(None, None, Some(Str("X")), None),
      NodeRecord(None, None, Some(Str("Y")), None)]) == [Str("X"), Str("Unknown"), Str("Y")]
  {
    var nodes := [
      NodeRecord(None, None, Some(Str("X")), None),
      NodeRecord(None, None, None, None),
      NodeRecord(None, None, Some(Str("")), None),
      NodeRecord(None, None, Some(Str("X")), None),
      NodeRecord(None, None, Some(Str("Y")), None)];
    var x, u, y := Str("X"), Str("Unknown"), Str("Y");
    assert Keys(nodes) == [x, u, u, x, y];
    assert [x, u, u, x, y][..4] == [x, u, u, x];
    assert [x, u, u, x][..3] == [x, u, u];
    assert [x, u, u][..2] == [x, u];
    assert [x, u][..1] == [x];
    assert [x][..0] == [];
    assert Distinct([x]) == [x];
    assert Distinct([x, u]) == [x, u];
    assert Distinct([x, u, u]) == [x, u];
    assert Distinct([x, u, u, x]) == [x, u];
  }
}
