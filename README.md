# Author graph: data preparation

`script.js` draws a force-directed graph of authors. Before any drawing it
prepares the data, and that preparation is what this project models and
proves things about:

- **Dataset shape** (`script.js:8-9`). The node list is `data.nodes ||
  data.authors || data`. The supplied link list is `data.links || data.edges
  || []`.
- **Edge inference** (`script.js:12-28`). When the supplied link list is
  empty, every pair of records `(i, j)` with `i < j` is scored. One point is
  given for a shared truthy affiliation, one if `a.coauthors` contains
  `b.id`, and one if `b.coauthors` contains `a.id`. A pair with a positive
  score becomes the link `{source: a.id || i, target: b.id || j, value:
  score}`.
- **Affiliation lists** (`script.js:38`, `script.js:162`). These are the
  distinct values of `affiliation || 'Unknown'`, in first-occurrence order.
  The colour domain keeps the first 20; the legend keeps them all.
- **Id index and link resolution** (`script.js:42-50`). Every node gets the
  id `id ?? name ?? <random id>`. A `Map` from id to node is filled in node
  order. Then each link endpoint found in the map is replaced by that node.

JavaScript value semantics are kept explicitly (module `Js`):

- A JSON scalar is a `Val`, and a missing field is `None`.
- `||` drops `undefined`, `null`, `false`, `0` and `""`. `??` drops only
  `undefined` and `null`.
- `includes` never finds `undefined`, but it can find `null`.

A node reference is the node's position in the node array. The dataset
comes from JSON, so no two positions hold the same object.

The modules follow the script's structure:

- `Js` holds the value semantics.
- `Records` holds the node and link records.
- `PairScan` is the shape of the nested `for` loops, written once over any
  element type.
- `Inference` holds the scoring loops, proved equal to a specification
  function.
- `NodeIndex` holds the id assignment, the `Map`, and the in-place resolution
  loops over arrays.
- `Affiliations` holds the two lists.
- `Prepare` holds the whole pipeline as one method, proved equal to a
  specification function.
- `Scenarios` holds small worked datasets.

`Scenarios.NameOnlyRecordsLinkedByPosition` and
`Scenarios.NameOnlyRecordsStayUnresolved` prove one consequence of the code
as written. Take records that carry a name but no id, linked by inference.
Their inferred endpoints are their positions (`a.id || i`). Line 44, however,
gives them their names as ids. So resolution leaves those endpoints as raw
numbers, or it attaches them to whichever node happens to have that number
as its id.

A node id is any non-null value, including `0` and `""` (line 44 uses
`??`). `'Unknown'` only stands in inside the two lists (lines 38 and 162);
the node's own `affiliation` field is never changed.

## Model

| member | source | states |
|---|---|---|
| Js.Or | script.js:24 | the or-operator yields the field itself when it is truthy, and the fallback otherwise |
| Js.Coalesce | script.js:44 | the nullish-coalescing operator yields the field itself unless it is `undefined` or `null`, and the fallback otherwise |
| PairScan.RowPairs | script.js:17-18 | the inner loop for row `i` below `j` keeps at most `j - i - 1` pairs |
| PairScan.RowPairsExact | script.js:17-24 | row `i` holds `(i, k)` exactly when `i < k < j` and the test accepts the pair |
| PairScan.RowPairsSound | script.js:17-24 | every pair in row `i` starts at `i`, has `i < k`, and is accepted |
| PairScan.PairsBeforeSound | script.js:16-24 | every pair kept by the first `i` rows starts below `i`, has `i < j < n`, and is accepted |
| PairScan.PairsBeforeComplete | script.js:16-24 | every accepted pair with `p.i < i` and `p.i < p.j < n` is kept by the first `i` rows |
| PairScan.KeptExact | script.js:16-24 | a pair is kept exactly when `i < j < n` and the test accepts it |
| PairScan.RowPairsOrdered | script.js:17-18 | a row comes out in increasing `j`, every `j` below the row's bound |
| PairScan.PairsBeforeOrdered | script.js:16-18 | the first `i` rows come out in strictly increasing lexicographic order |
| PairScan.KeptOrdered | script.js:16-18 | all kept pairs are in strictly increasing `(i, j)` order, so none repeats |
| PairScan.PairsBeforeBound | script.js:16-18 | the first `i` rows keep at most `Triangle(n) - Triangle(n - i)` pairs |
| PairScan.KeptBound | script.js:16-18 | at most `n(n-1)/2` pairs are kept |
| PairScan.RowImagesAt | script.js:17-24 | the values pushed by row `i` are, position by position, the values of that row's pairs |
| PairScan.ImagesBeforeAt | script.js:16-24 | the values pushed by the first `i` rows are, position by position, the values of their pairs |
| PairScan.ImagesAt | script.js:16-24 | value `k` of the list is the value of kept pair `k`, and there is one value per kept pair |
| Inference.ScorePair | script.js:20-23 | the running score of a pair is the sum of its three indicators, at most 3 |
| Inference.InferRow | script.js:17-25 | the inner loop appends exactly row `i`'s links to `tmpLinks` |
| Inference.InferLinks | script.js:16-27 | the nested loops build exactly the links of the kept pairs, in visiting order |
| Inference.InferredPairsExact | script.js:20-24 | a pair is linked exactly when `i < j < n` and its score is positive; zero-score pairs produce nothing |
| Inference.InferredPairsOrdered | script.js:16-18 | linked pairs come out in lexicographic `(i, j)` order, each unordered pair at most once |
| Inference.InferredLinksBound | script.js:16-24 | one link per linked pair, and at most `n(n-1)/2` links |
| Inference.InferredLinkAt | script.js:24 | link `k` has source `a.id` if truthy, else `i`, and target `b.id` if truthy, else `j`; its value is the sum of the three indicators and lies in 1..3 |
| Inference.InferredValuesInRange | script.js:20-24 | every inferred link's value is a number from 1 to 3 |
| Inference.IsolatedNodeUnlinked | script.js:20-24 | a record is never linked if it has no truthy affiliation, no coauthors array, and an id no one lists |
| NodeIndex.AssignedId | script.js:44 | the new id is never `null`; it is the own id if present (even `0` or `""`), else the name, else the random id |
| NodeIndex.AssignedIds | script.js:42-45 | one id per node |
| NodeIndex.WithAssignedIds | script.js:42-45 | one record per node, only its `id` changed |
| NodeIndex.ResolveAll | script.js:47-50 | resolution keeps the number of links |
| NodeIndex.IndexNodes | script.js:42-46 | the loop rewrites every node's id in place and leaves the `Map` equal to the index of the assigned ids |
| NodeIndex.ResolveLinks | script.js:47-50 | the loop replaces every link, in place, by its resolved form |
| NodeIndex.IndexAndResolve | script.js:42-50 | the nodes come back with their assigned ids, the `Map` is the index of those ids, and each link comes back resolved against that index |
| NodeIndex.IndexLastWins | script.js:43-46 | the index keys are exactly the assigned ids, and each maps to the last position carrying it |
| NodeIndex.DuplicateIdShadowed | script.js:43-46 | of two nodes sharing an id, the earlier one is never the one the index points at |
| NodeIndex.IndexedNodes | script.js:43-46 | after line 44 every node has a non-null id, and the index holds exactly those ids |
| NodeIndex.ResolveAgainstIndex | script.js:47-50 | an endpoint whose raw value is an assigned id becomes a reference to the last node with that id; any other endpoint is unchanged |
| NodeIndex.ResolvedToNode | script.js:47-50 | as above, stated against the normalised node records |
| NodeIndex.ResolveLinkKeepsValue | script.js:47-50 | resolution leaves `value` and existing references unchanged |
| Affiliations.AffiliationKey | script.js:38 | the key is the affiliation when truthy, else `'Unknown'` |
| Affiliations.Keys | script.js:38 | one key per node, in node order |
| Affiliations.Distinct | script.js:38 | the set-dedup holds exactly the values of its input |
| Affiliations.Take | script.js:38 | `slice(0, n)` is a prefix of length at most `n`, and the whole list when it is that short |
| Affiliations.DistinctSpec | script.js:38 | the set-dedup has no duplicates and keeps first-occurrence order |
| Affiliations.ListsDuplicateFree | script.js:38 | the legend and the colour domain have no duplicates, and the domain draws only on the legend |
| Affiliations.LegendContents | script.js:162 | the legend lists exactly the nodes' keys, in first-occurrence order |
| Affiliations.ColorDomainCapped | script.js:38 | the colour domain is a prefix of the legend of at most 20 entries, exactly 20 when there are more, and holds every node's key when there are 20 or fewer |
| Affiliations.KeysIgnoreIds | script.js:162 | records that differ only outside `affiliation` have the same keys and legend |
| Prepare.PrepareGraph | script.js:8-50 | the steps, run in the script's order, give the failure when there is no node array; otherwise they give the graph of normalised nodes, chosen links resolved against the index, the index itself, the colour domain and the legend |
| Prepare.LegendIgnoresIds | script.js:162 | the legend built after line 44 equals the one built from the original records |
| Prepare.FailsOnlyWithoutNodeArray | script.js:8 | preparation fails exactly when the dataset is an object without `nodes` and `authors` |
| Prepare.SuppliedLinksKept | script.js:12-27 | with a non-empty supplied list, no inference runs; the links keep their number, order and values, and only their endpoints are resolved |
| Prepare.InferredWhenNoneSupplied | script.js:12-27 | with no supplied links, link `k` is the resolved link of inferred pair `k`, weighted by its score |
| Prepare.PreparedResolution | script.js:42-50 | every prepared node has a non-null id, the index holds exactly those ids, and an endpoint resolves to the last node carrying its value, or else stays as it was |
| Scenarios.SharedAffiliationOnly | script.js:16-27 | two authors at "X" and one at "Y" give exactly one link, A–B with weight 1 |
| Scenarios.OneSidedCoauthorship | script.js:21-24 | a one-sided coauthor listing gives one link of weight 1 in either record order |
| Scenarios.MutualCoauthorsSameAffiliation | script.js:20-24 | mutual coauthors at the same affiliation score 3 |
| Scenarios.NameOnlyRecordsLinkedByPosition | script.js:24 | name-only records are linked by their positions `0` and `1` |
| Scenarios.NameOnlyRecordsStayUnresolved | script.js:44-49 | those positions are not ids after line 44, so neither endpoint resolves |
| Scenarios.DuplicateIdLastWins | script.js:43-49 | with two records of id "A", the index and a link naming "A" point at the second |
| Scenarios.LegendOrder | script.js:162 | keys X, missing, "", X, Y give the legend X, Unknown, Y |

## Left out

- Fetching and parsing `data/authors.json` (line 5) is I/O. The model starts from the parsed dataset.
- The d3 and DOM work is foreign library code: SVG, link and node rendering, tooltips, the info panel, the colour scale and its Tableau-10 palette, the legend's DOM items, the force simulation, sliders, reset, resize and drag (lines 31-37, 39, 52-158, 161-194).
- `Math.random().toString(36).slice(2,9)` (line 44) is nondeterministic. It is the parameter `randomId(k)` for node `k`, and nothing is assumed about it.
- The `idIndex` map built at line 14 is never read, so it is not modelled.
- The `!links` test at line 12 is always false, because `links` is always truthy there (`data.links || data.edges || []`). Only the emptiness test is modelled.
- Numbers are integers. Floating point, `NaN` and `-0` are not modelled, so `===`, `includes`, `Set` and `Map` all compare values with Dafny equality.
- Field values that are objects or arrays (other than `coauthors` and the dataset's lists) are not modelled, because `Val` is a JSON scalar. The same goes for truthy non-array values in `nodes`, `authors`, `links`, `edges` or `coauthors`: a non-array `coauthors` is treated like a missing one.
- Supplied link endpoints that are already objects are not modelled; a supplied endpoint is a scalar or missing.
- Record fields that play no part in the preparation (`title`, `radius`, extra link fields) are not kept.
- Two array positions holding the same record object (aliasing) cannot come from JSON, so they are not modelled.
- The `TypeError` thrown by `nodes.map` (line 14 or 38) is the one failure modelled, `NodesNotAnArray`; which line throws it is not modelled.
- Entries of the node and link lists are assumed to be JSON objects. A `null` entry throws a `TypeError` at line 14, 38 or 48, and primitive entries are not modelled.
