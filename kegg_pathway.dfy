/**
 * A KEGG pathway: a directed graph whose nodes carry attribute records,
 * plus a title and a labels table, with the gene-subgraph and the
 * neighbour-label queries.
 */
module KeggPathway {
  import opened Wrappers
  import opened DiGraph

  /** The lookups of the pathway queries that fail: an absent node
      (networkx `NetworkXError`) or an absent attribute (`KeyError`). */
  datatype PathwayError =
    | UnknownNode(key: string)
    | MissingAttribute(key: string, attr: string)

  /** The nodes whose `type` attribute is `gene`. */
  ghost function GeneKeys(g: Graph): set<string> {
    set k | k in g.node && g.node[k].kind == Some("gene")
  }

  /** Every node has a `type` attribute, so reading it never fails. */
  ghost predicate AllTyped(g: Graph) {
    forall k :: k in g.node ==> g.node[k].kind.Some?
  }

  /** The graph of the gene subgraph: induced on the gene nodes. */
  ghost function GeneGraph(g: Graph): (r: Graph)
    requires Valid(g)
    ensures Valid(r)
  {
    Induced(g, GeneKeys(g))
  }

  /** The title of the gene subgraph: the suffix is added on every call. */
  function GenesTitle(title: string): (r: string)
    ensures |r| == |title| + 8
    ensures r[..|title|] == title && r[|title|..] == " (genes)"
  {
    title + " (genes)"
  }

  /** A second call adds the suffix again: nothing guards against it. */
  lemma GenesTitleTwice(title: string)
    ensures GenesTitle(GenesTitle(title)) == title + " (genes) (genes)"
    ensures GenesTitle(GenesTitle(title)) != GenesTitle(title)
  {
  }

  /** The gene subgraph has exactly the gene nodes, with their records. */
  lemma GeneGraphNodes(g: Graph)
    requires Valid(g)
    ensures forall k :: k in GeneGraph(g).node <==> k in g.node && g.node[k].kind == Some("gene")
    ensures forall k :: k in GeneGraph(g).node ==> GeneGraph(g).node[k] == g.node[k]
  {
  }

  /** An edge is kept in the gene subgraph iff both endpoints are genes. */
  lemma GeneGraphEdges(g: Graph)
    requires Valid(g)
    ensures forall u, v :: HasEdge(GeneGraph(g), u, v) <==>
      HasEdge(g, u, v) && g.node[u].kind == Some("gene") && g.node[v].kind == Some("gene")
  {
  }

  /** The gene nodes of the gene subgraph are the gene nodes of the graph. */
  lemma GeneKeysOfGeneGraph(g: Graph)
    requires Valid(g)
    ensures GeneKeys(GeneGraph(g)) == GeneKeys(g)
    ensures AllTyped(GeneGraph(g))
  {
    var h := GeneGraph(g);
    forall k | k in h.node ensures h.node[k] == g.node[k] && k in GeneKeys(g) {
    }
  }

  /** Taking the gene subgraph of a gene subgraph succeeds and gives back
      the same graph: same nodes, same records, same successor lists. */
  lemma {:induction false} GeneGraphIdempotent(g: Graph)
    requires Valid(g)
    ensures AllTyped(GeneGraph(g))
    ensures GeneGraph(GeneGraph(g)) == GeneGraph(g)
  {
    GeneKeysOfGeneGraph(g);
    InducedInduced(g, GeneKeys(g), GeneKeys(g));
    assert GeneKeys(g) * GeneKeys(g) == GeneKeys(g);
  }

  /** `ms[i]` is the first of the nodes `ms` without a `label` attribute. */
  ghost predicate FirstUnlabelled(g: Graph, ms: seq<string>, i: int)
    requires forall i :: 0 <= i < |ms| ==> ms[i] in g.node
  {
    && 0 <= i < |ms|
    && g.node[ms[i]].nodeLabel.None?
    && forall j :: 0 <= j < i ==> g.node[ms[j]].nodeLabel.Some?
  }

  /** The labels of the nodes `ms`, in order; fails at the first node that
      has no `label` attribute. */
  function LabelsOf(g: Graph, ms: seq<string>): (r: Result<seq<string>, PathwayError>)
    requires forall i :: 0 <= i < |ms| ==> ms[i] in g.node
    ensures r.Success? <==> forall i :: 0 <= i < |ms| ==> g.node[ms[i]].nodeLabel.Some?
    ensures r.Success? ==> (|r.value| == |ms| &&
      forall i :: 0 <= i < |ms| ==> r.value[i] == g.node[ms[i]].nodeLabel.value)
    ensures r.Failure? ==> exists i :: FirstUnlabelled(g, ms, i) && r.error == MissingAttribute(ms[i], "label")
  {
    if ms == [] then Success([])
    else match g.node[ms[0]].nodeLabel
      case None => Failure(MissingAttribute(ms[0], "label"))
      case Some(l) =>
        match LabelsOf(g, ms[1..])
        case Failure(e) =>
          assert forall i :: 0 <= i < |ms| - 1 ==> ms[1..][i] == ms[i + 1];
          Failure(e)
        case Success(ls) => Success([l] + ls)
  }

  class KeggPathway {
    var title: string
    /** The node attribute table. */
    var node: map<string, Attr>
    /** The successor lists. */
    var succ: map<string, seq<string>>
    var labels: map<string, Attr>

    /** The graph the node table and successor map stand for. */
    function View(): Graph
      reads this
    {
      Graph(node, succ)
    }

    ghost predicate Valid()
      reads this
    {
      DiGraph.Valid(View())
    }

    /** A new pathway has no nodes, an empty title and an empty labels
        table; each pathway owns its own tables. */
    constructor ()
      ensures Valid() && View() == Empty
      ensures title == "" && labels == map[]
    {
      title := "";
      node := map[];
      succ := map[];
      labels := map[];
    }

    method AddNode(n: string, data: Attr := NoAttr)
      requires Valid()
      modifies this
      ensures Valid()
      ensures View() == DiGraph.AddNode(old(View()), n, data)
      ensures title == old(title) && labels == old(labels)
    {
      var g := DiGraph.AddNode(View(), n, data);
      node, succ := g.node, g.succ;
    }

    method AddEdge(u: string, v: string)
      requires Valid()
      modifies this
      ensures Valid()
      ensures View() == DiGraph.AddEdge(old(View()), u, v)
      ensures title == old(title) && labels == old(labels)
    {
      var g := DiGraph.AddEdge(View(), u, v);
      node, succ := g.node, g.succ;
    }

    /** networkx `subgraph`: a new pathway holding the graph induced on
        `keep`, with the default title and labels of a new instance. */
    method Subgraph(keep: set<string>) returns (h: KeggPathway)
      requires Valid()
      ensures fresh(h) && h.Valid()
      ensures h.View() == Induced(View(), keep)
      ensures h.title == "" && h.labels == map[]
    {
      h := new KeggPathway();
      var g := Induced(View(), keep);
      h.node, h.succ := g.node, g.succ;
    }

    /** `get_genes`: the subgraph induced on the gene nodes, titled with
        the suffix " (genes)", whose labels table maps each gene node to
        its record. Reading the `type` of a node that has none fails. */
    method GetGenes() returns (r: Result<KeggPathway, PathwayError>)
      requires Valid()
      ensures r.Success? <==> AllTyped(View())
      ensures r.Failure? ==> (r.error.MissingAttribute? && r.error.attr == "type" &&
        r.error.key in node && node[r.error.key].kind.None?)
      ensures r.Success? ==> fresh(r.value) && r.value.Valid()
      ensures r.Success? ==> r.value.View() == GeneGraph(View())
      ensures r.Success? ==> r.value.title == GenesTitle(title)
      ensures r.Success? ==> r.value.labels == r.value.node
      ensures unchanged(this)
    {
      var genes: set<string> := {};
      var geneLabels: map<string, Attr> := map[];
      var rest := node.Keys;
      while rest != {}
        invariant rest <= node.Keys
        invariant forall k :: k in node && k !in rest ==> node[k].kind.Some?
        invariant genes == set k | k in node && k !in rest && node[k].kind == Some("gene")
        invariant geneLabels == map k | k in genes :: node[k]
        decreases rest
      {
        var n :| n in rest;
        if node[n].kind.None? {
          return Failure(MissingAttribute(n, "type"));
        }
        if node[n].kind == Some("gene") {
          genes := genes + {n};
          geneLabels := geneLabels[n := node[n]];
        }
        rest := rest - {n};
      }
      assert genes == GeneKeys(View());
      var sub := Subgraph(genes);
      sub.title := GenesTitle(title);
      sub.labels := geneLabels;
      r := Success(sub);
    }

    /** `neighbors_labels(n)`: a map with the single key `label(n)`, whose
        value lists the labels of n's successors in successor order. */
    function NeighborsLabels(n: string): (r: Result<map<string, seq<string>>, PathwayError>)
      reads this
      requires Valid()
      ensures n !in node ==> r == Failure(UnknownNode(n))
      ensures r.Success? <==> (n in node && node[n].nodeLabel.Some? &&
        forall i :: 0 <= i < |succ[n]| ==> node[succ[n][i]].nodeLabel.Some?)
      ensures n in node && r.Failure? ==>
        || (exists i :: FirstUnlabelled(View(), succ[n], i) && r.error == MissingAttribute(succ[n][i], "label"))
        || ((forall i :: 0 <= i < |succ[n]| ==> node[succ[n][i]].nodeLabel.Some?) &&
            r.error == MissingAttribute(n, "label"))
      ensures r.Success? ==> r.value.Keys == {node[n].nodeLabel.value}
      ensures r.Success? ==> var ls := r.value[node[n].nodeLabel.value];
        |ls| == |succ[n]| && forall i :: 0 <= i < |ls| ==> ls[i] == node[succ[n][i]].nodeLabel.value
    {
      if n !in node then Failure(UnknownNode(n))
      else match LabelsOf(View(), succ[n])
        case Failure(e) => Failure(e)
        case Success(ls) =>
          match node[n].nodeLabel
          case None => Failure(MissingAttribute(n, "label"))
          case Some(l) => Success(map[l := ls])
    }
  }

  /** On a pathway whose nodes carry no `label` attribute (as every graph
      built from a KGML document), `neighbors_labels` always fails. */
  lemma NeighborsLabelsNeedLabels(p: KeggPathway, n: string)
    requires p.Valid()
    requires forall k :: k in p.node ==> p.node[k].nodeLabel.None?
    ensures p.NeighborsLabels(n).Failure?
  {
  }
}
