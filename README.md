# KGML pathway graph construction, modelled in Dafny

This project models the core of a small KEGG pathway parser. The parser
turns a KGML document (KEGG's XML format for pathway diagrams) into a
directed graph of pathway entries and can then query that graph.

- **Graph construction (`KGML2Graph`).** It chooses the allowed entry types,
  then walks the entries in order. It keeps each entry whose type is allowed,
  strips one trailing `...` from the entry's display name, and records
  `nodes[id] = (name, title, type)`. It adds a graph node keyed by the
  title, holding `type` and `xy`. It then walks the relations: each endpoint
  id is resolved through `nodes`, and the edge between the two titles is
  added. An endpoint that is not in `nodes` fails the whole call.
- **Plot file name.** A title becomes a file name by replacing each `/` with
  `-`.
- **Pathway queries.** `get_genes` builds the subgraph induced on the gene
  nodes: its title gets the suffix ` (genes)` and its `labels` table maps each
  gene node to its record. `neighbors_labels(n)` maps `n`'s `label` to the
  labels of its successors.

The pathway class derives from a networkx `DiGraph`. Here it is a standalone
structure (module `DiGraph`):
- a node table from node key to attribute record;
- for each node, the list of its successors, without repetitions, kept in
  the order the edges were added.

Its operations have the effect of the networkx 1.x ones on node and edge
sets:
- `add_node` on an existing node merges the new data into the old record;
- `add_edge` adds a missing endpoint with an empty record and adds the
  successor unless it is already there (the model appends it at the end);
- `subgraph` keeps the records of the nodes it keeps and the edges between
  them (the model keeps their successors in the same relative order).

The attribute record has three optional fields: `kind` (the `type`
attribute), `xy` and `nodeLabel` (the `label` attribute). With all three
optional, the model captures the `KeyError` of `get_genes` on an untyped
node and of `neighbors_labels` on an unlabelled one. It also captures that
`KGML2Graph` never sets `label`.

Modules:
- `Wrappers` (`wrappers.dfy`): `Option` and `Result`.
- `DiGraph` (`digraph.dfy`): the graph value and its operations.
- `KeggPathway` (`kegg_pathway.dfy`): the pathway class with
  `add_node`, `add_edge`, `get_genes` and `neighbors_labels`, plus
  the pure gene-subgraph definitions and lemmas.
- `ParseKgml` (`parse_kgml.dfy`): the input records, the specification
  functions of `KGML2Graph`, and the imperative method `Kgml2Graph`.
  The method uses the same two loops as the source and is proved equal
  to the specification function `Parse`.

The lemmas about `Parse` state what the construction guarantees: node set,
id table, edge set, no dangling edges, and when it fails.

The model follows the code on these points:
- **Edge endpoints.** Edges and nodes are keyed by the normalised display
  title, not by entry id. Entries sharing a title collapse into one node,
  which keeps the type and coordinates of the last of them.
- **Entry name.** `name` is stored whole, not cut to its first identifier.
- **Title suffix.** The ` (genes)` suffix is appended on every call of
  `get_genes`, so a second call doubles it; nothing guards against that.
- **Repeated ids.** A repeated entry id is not an error. The later entry
  overwrites `nodes[id]` (the check at `parse_KGML.py:74-75` is commented
  out).
- **Default allow-list.** It is chosen by the `filetype` argument, not by the
  document's organism attribute.
- **Filtering.** It happens while reading entries, so a relation to a
  filtered-out entry fails the call. There is no lenient mode.
- **Reactions.** They are not parsed. The returned `genes` list and
  `reactions` map are always empty.
- **Labels table.** `KGML2Graph` leaves the graph's `labels` table empty.

## Model

| member | source | states |
|---|---|---|
| `DiGraph.MergeLaws` | keggparser/KeggPathway.py:62-63 | the record update of a re-added node: empty data changes nothing, the same data a second time changes nothing more, and fully present data replaces the old record |
| `DiGraph.AddNodeAgain` | keggparser/KeggPathway.py:62-63 | re-adding a node with the data it was just given leaves the graph unchanged |
| `DiGraph.AddNode` | keggparser/KeggPathway.py:62-63 | adds the node if new (no successors), else merges the data; keeps the graph valid, adds exactly that key, changes no edge and no other record |
| `DiGraph.AddEdge` | parse_KGML.py:97 | keeps the graph valid; the nodes become the old ones plus both endpoints; the edges become the old ones plus exactly (u, v) |
| `DiGraph.AddEdgeKeeps` | parse_KGML.py:97 | `add_edge` keeps every existing record; a created endpoint gets an empty record; v is appended to u's successors unless present; other successor lists are unchanged |
| `DiGraph.Filter` | keggparser/KeggPathway.py:87 | keeps exactly the successors that lie in the kept set, never adds a repetition, never grows |
| `DiGraph.FilterFilter` | keggparser/KeggPathway.py:87 | filtering by a then by b is filtering by their intersection |
| `DiGraph.Induced` | keggparser/KeggPathway.py:87 | the induced subgraph is valid; its nodes are the kept nodes with unchanged records; an edge survives iff both endpoints are kept; each kept successor list is the old one restricted to the kept nodes, in the same relative order |
| `DiGraph.InducedInduced` | keggparser/KeggPathway.py:81-87 | inducing on a and then on b equals inducing once on a ∩ b |
| `KeggPathway.GeneGraph` | keggparser/KeggPathway.py:79-87 | the graph of the gene subgraph is valid (no dangling edges) |
| `KeggPathway.GenesTitle` | keggparser/KeggPathway.py:88 | the subgraph title is the original title followed by exactly ` (genes)` |
| `KeggPathway.GenesTitleTwice` | keggparser/KeggPathway.py:88 | a second application appends the suffix again, so the title changes |
| `KeggPathway.GeneGraphNodes` | keggparser/KeggPathway.py:79-84 | the gene subgraph's nodes are exactly the nodes whose `type` is `gene`, each with its original record |
| `KeggPathway.GeneGraphEdges` | keggparser/KeggPathway.py:87 | an edge is in the gene subgraph iff it is in the graph and both endpoints are gene nodes |
| `KeggPathway.GeneKeysOfGeneGraph` | keggparser/KeggPathway.py:81-87 | the gene subgraph has the same gene nodes as the graph, and every node of it has a `type` |
| `KeggPathway.GeneGraphIdempotent` | keggparser/KeggPathway.py:81-87 | `get_genes` of the gene subgraph succeeds and gives back the identical graph: nodes, records and successor lists |
| `KeggPathway.LabelsOf` | keggparser/KeggPathway.py:109 | succeeds iff every listed node has a `label`, giving their labels in order; otherwise fails with `KeyError` on the first unlabelled node |
| `KeggPathway.KeggPathway.constructor` | keggparser/KeggPathway.py:59-61 | a new pathway is empty and valid, with empty title and its own empty labels table |
| `KeggPathway.KeggPathway.AddNode` | keggparser/KeggPathway.py:62-63 | the graph becomes `DiGraph.AddNode` of the old graph; title and labels are unchanged; `data` defaults to the empty record, as `data=None` does |
| `KeggPathway.KeggPathway.AddEdge` | parse_KGML.py:97 | the graph becomes `DiGraph.AddEdge` of the old graph; title and labels are unchanged |
| `KeggPathway.KeggPathway.Subgraph` | keggparser/KeggPathway.py:87 | a fresh pathway holding the induced graph, with a new instance's empty title and labels |
| `KeggPathway.KeggPathway.GetGenes` | keggparser/KeggPathway.py:65-90 | fails iff some node has no `type`, naming such a node; otherwise returns a fresh pathway whose graph is the gene subgraph, whose title is the suffixed title and whose labels table maps each gene node to its record; the original is unchanged |
| `KeggPathway.KeggPathway.NeighborsLabels` | keggparser/KeggPathway.py:92-110 | an absent node fails with an unknown-node error. Otherwise it fails on the first unlabelled successor, then on an unlabelled `n`. On success: a map whose only key is `label(n)`, mapped to the successors' labels in successor order |
| `KeggPathway.NeighborsLabelsNeedLabels` | keggparser/KeggPathway.py:108-110 | on a pathway where no node carries `label` (as every graph `KGML2Graph` builds), `neighbors_labels` always fails |
| `ParseKgml.AllowedTypes` | parse_KGML.py:53-58 | the allowed types are {gene, compound, map} for filetype `organism` or `o`, otherwise {ortholog, map, compound}; a non-empty `filter_by` replaces them entirely |
| `ParseKgml.StripEllipsis` | parse_KGML.py:86-87 | a name ending in `...` loses exactly those three characters; any other name, including one shorter than three, is unchanged |
| `ParseKgml.StripEllipsisOnce` | parse_KGML.py:82-87 | only one marker is stripped: any `t + "..."` becomes `t`, even when `t` itself ends in `...` |
| `ParseKgml.StripEllipsisExamples` | parse_KGML.py:82-87 | `ALG2...` becomes `ALG2`, `ALG2......` becomes `ALG2...`, `ALG2` and `..` stay |
| `ParseKgml.SanitizeTitle` | parse_KGML.py:104 | the file name has the title's length, has no `/`, and equals the title except that each `/` is `-` |
| `ParseKgml.SanitizeTitleKeeps` | parse_KGML.py:104 | a title without `/` is its own file name |
| `ParseKgml.EntryIds` | parse_KGML.py:70-89 | the `nodes` table after the entry pass records only entries of an allowed type; its exact keys and records are stated by `EntryPassIds` |
| `ParseKgml.EntryGraph` | parse_KGML.py:66-90 | the graph after the entry pass is valid (no dangling successor); its node set and records are stated by `EntryPassNodes` |
| `ParseKgml.EntryPassIds` | parse_KGML.py:70-89 | `nodes` has exactly the ids of allowed entries; a repeated id holds the record of its last allowed entry |
| `ParseKgml.EntryPassNodes` | parse_KGML.py:70-90 | the graph nodes are exactly the normalised titles of allowed entries; entries sharing a title make one node holding the last one's type and coordinates |
| `ParseKgml.EntryPassNoEdges` | parse_KGML.py:66-90 | the entry pass adds no edge |
| `ParseKgml.EntryPassSkipsRejected` | parse_KGML.py:70-71 | an entry whose type is not allowed changes neither `nodes` nor the graph, wherever it stands in the document |
| `ParseKgml.Link` | parse_KGML.py:95-97 | a resolved relation keeps the graph valid |
| `ParseKgml.RelationPass` | parse_KGML.py:94-97 | a successful relation pass leaves a valid graph |
| `ParseKgml.RelationPassOutcome` | parse_KGML.py:94-97 | the relation pass succeeds iff every endpoint is in `nodes`; otherwise it fails on the first bad relation, naming `entry1` if missing, else `entry2` |
| `ParseKgml.RelationPassEdges` | parse_KGML.py:94-97 | on success the node table is unchanged and the edges are the old ones plus (title(e1), title(e2)) for each relation |
| `ParseKgml.Parse` | parse_KGML.py:46-99 | a successful construction yields a valid graph: every edge endpoint is a node; `filetype` defaults to `organism` and `filterBy` to empty, as in the source's signature |
| `ParseKgml.ParseDefaultTypes` | parse_KGML.py:18-58 | called with the default arguments, every node of a constructed graph is a gene, a compound or a map |
| `ParseKgml.ParseOutcome` | parse_KGML.py:53-97 | construction succeeds iff every relation endpoint is the id of an allowed entry; on failure the reported id is a relation endpoint that is not such an id |
| `ParseKgml.ParseGraph` | parse_KGML.py:63-97 | on success: the title is the document's; nodes are exactly the allowed titles; ids exactly the allowed ids; edges exactly the relations' title pairs; no dangling edge; every node has an allowed type and coordinates and no label |
| `ParseKgml.ParseThenQueries` | parse_KGML.py:89-90 | every node of a constructed graph has a `type` (so `get_genes` succeeds) and none has a `label` |
| `ParseKgml.Kgml2Graph` | parse_KGML.py:18-99 | the two loops over a fresh pathway succeed iff `Parse` does, with the same error; on success the graph, title and id table equal `Parse`'s, the labels table is empty, and `genes` and `reactions` are empty |

## Left out

- XML reading (`ET.parse`, `getiterator`, `find`): the document is given as already-extracted entry and relation records in document order. A missing `graphics` element or attribute (an `AttributeError`/`KeyError` in the source) therefore cannot occur.
- The `int(...)` conversion of the `x`/`y` strings: coordinates are given as integers.
- The returned XML `tree`: the model returns graph, `nodes`, `genes` and `reactions` only.
- `logging` calls.
- `plot_starlike` drawing and saving, and `convert_to_gml`: these are pylab and networkx I/O. Only the `/`→`-` file-name rule is modelled.
- The command-line entry point (`__main__`, argparse).
- The order of `nodes()` and `edges()` that the doctests and tests assert comes from networkx iteration: only node and edge sets are modelled.
- Successor order: the model keeps each node's successors in the order the edges were added, which is what an insertion-ordered dictionary gives. The source runs on Python 2, where networkx's successor dictionaries iterate in hash order; that order is not modelled. So the order of the list `neighbors_labels` returns, and of the successor lists in `DiGraph.Induced`, `DiGraph.AddEdgeKeeps` and `KeggPathway.KeggPathway.NeighborsLabels`, is the model's, not Python 2's.
- Node keys are strings. networkx accepts any hashable key (the `neighbors_labels` doctest uses the integers 1 and 2), but every graph the parser builds is keyed by entry titles.
- networkx's predecessor map, edge data dictionaries and graph attribute dictionary: nothing in the core reads them.
- Aliasing: the subgraph's records and `labels` values are the same dictionary objects as the original's in networkx. The model copies values, so mutating one record through the other pathway is not captured.
- The class-level shared defaults `title`, `labels` and `reactions`: each instance gets its own fields. The `reactions` field is never used by the core, so it is not a field of the class.
- `__repr__`, the stub root-level `KeggPathway.py`, and `setup.py`.
- `KeggPathway.KeggPathway.GetGenes`: when several nodes lack a `type`, the model reports one of them but not necessarily the first in networkx iteration order, because node order is not modelled.
