/**
 * The records the visualisation works on: author nodes and the links
 * between them, as they come out of the JSON dataset.
 */
module Records {
  import opened Js

  /** An author record. `coauthors` is `None` when the field is missing or
      is not an array (`Array.isArray` fails); `title` and `radius` play no
      part in the data preparation and are not kept. */
  datatype NodeRecord = NodeRecord(
    id: Option<Val>,
    name: Option<Val>,
    affiliation: Option<Val>,
    coauthors: Option<seq<Val>>)

  /** A link endpoint: the raw JSON value (an id, an index, or `undefined`),
      or, once resolved, a reference to the node at that position of the
      node array. */
  datatype Endpoint = Raw(v: Option<Val>) | NodeRef(index: nat)

  /** A link record; `value` is the weight (the score for an inferred link). */
  datatype Link = Link(source: Endpoint, target: Endpoint, value: Option<Val>)
}
