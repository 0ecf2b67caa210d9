/**
 * A standalone directed graph with the effect on nodes, records and edges
 * of the networkx 1.x `DiGraph` operations the pathway code relies on: a
 * table of node attribute records and, for every node, its successors kept
 * as an ordered set in insertion order (networkx's own iteration order is
 * not modelled).
 */
module DiGraph {
  import opened Wrappers

  /** The attribute record of one node. Every field may be absent, as in a
      networkx node data dictionary: `kind` is the KGML entry `type`. */
  datatype Attr = Attr(kind: Option<string>, xy: Option<(int, int)>, nodeLabel: Option<string>)

  /** The record of a node created by `add_edge` for a missing endpoint. */
  const NoAttr: Attr := Attr(None, None, None)

  datatype Graph = Graph(node: map<string, Attr>, succ: map<string, seq<string>>)

  const Empty: Graph := Graph(map[], map[])

  predicate NoDup(s: seq<string>) {
    forall i, j :: 0 <= i < j < |s| ==> s[i] != s[j]
  }

  /** Structural invariant: the successor map has exactly the nodes as keys,
      successor lists have no repetitions, and no edge dangles. */
  ghost predicate Valid(g: Graph) {
    && g.node.Keys == g.succ.Keys
    && (forall u :: u in g.succ ==> NoDup(g.succ[u]))
    && (forall u, v :: u in g.succ && v in g.succ[u] ==> v in g.node)
  }

  /** `g` has the directed edge from `u` to `v`. */
  predicate HasEdge(g: Graph, u: string, v: string) {
    u in g.succ && v in g.succ[u]
  }

  /** networkx `dict.update` of an existing node's data: present fields of
      `upd` replace those of `prev`, absent ones keep `prev`'s. */
  function Merge(prev: Attr, upd: Attr): Attr {
    Attr(if upd.kind.Some? then upd.kind else prev.kind,
         if upd.xy.Some? then upd.xy else prev.xy,
         if upd.nodeLabel.Some? then upd.nodeLabel else prev.nodeLabel)
  }

  /** `add_node(n, data)`: a new node gets `data` and no successors; an
      existing node has `data` merged into its record. */
  function AddNode(g: Graph, n: string, data: Attr): (r: Graph)
    requires Valid(g)
    ensures Valid(r)
    ensures r.node.Keys == g.node.Keys + {n}
    ensures forall x, y :: HasEdge(r, x, y) <==> HasEdge(g, x, y)
    ensures r.node[n] == if n in g.node then Merge(g.node[n], data) else data
    ensures forall k :: k in g.node && k != n ==> r.node[k] == g.node[k]
    ensures forall k :: k in g.succ ==> r.succ[k] == g.succ[k]
  {
    if n in g.node then
      Graph(g.node[n := Merge(g.node[n], data)], g.succ)
    else
      var r := Graph(g.node[n := data], g.succ[n := []]);
      assert forall u, v :: u in r.succ && v in r.succ[u] ==> u in g.succ && v in g.succ[u];
      r
  }

  /** Merging in an empty record changes nothing, merging the same data a
      second time changes nothing more, and a record with every field
      present replaces the old one outright. */
  lemma MergeLaws(prev: Attr, upd: Attr)
    ensures Merge(prev, NoAttr) == prev
    ensures Merge(Merge(prev, upd), upd) == Merge(prev, upd)
    ensures upd.kind.Some? && upd.xy.Some? && upd.nodeLabel.Some? ==> Merge(prev, upd) == upd
  {
  }

  /** Re-adding a node with the data it was just given leaves the graph as
      it is. */
  lemma AddNodeAgain(g: Graph, n: string, data: Attr)
    requires Valid(g)
    ensures AddNode(AddNode(g, n, data), n, data) == AddNode(g, n, data)
  {
  }

  /** `s` extended by `v` as an ordered set: appended unless already present. */
  function Append(s: seq<string>, v: string): (r: seq<string>)
    ensures forall x :: x in r <==> x in s || x == v
    ensures NoDup(s) ==> NoDup(r)
    ensures v in s ==> r == s
    ensures v !in s ==> |r| == |s| + 1 && r[..|s|] == s && r[|s|] == v
  {
    if v in s then s else s + [v]
  }

  /** `add_edge(u, v)`: missing endpoints are added with an empty record,
      and `v` is appended to `u`'s successors unless it is already one. */
  function AddEdge(g: Graph, u: string, v: string): (r: Graph)
    requires Valid(g)
    ensures Valid(r)
    ensures r.node.Keys == g.node.Keys + {u, v}
    ensures forall x, y :: HasEdge(r, x, y) <==> HasEdge(g, x, y) || (x == u && y == v)
  {
    var g2 := AddNode(AddNode(g, u, NoAttr), v, NoAttr);
    Graph(g2.node, g2.succ[u := Append(g2.succ[u], v)])
  }

  /** `add_edge` leaves every existing record and every other successor
      list as it was, and gives a created endpoint an empty record. */
  lemma AddEdgeKeeps(g: Graph, u: string, v: string)
    requires Valid(g)
    ensures forall k :: k in g.node ==> AddEdge(g, u, v).node[k] == g.node[k]
    ensures forall k :: k in AddEdge(g, u, v).node && k !in g.node ==> AddEdge(g, u, v).node[k] == NoAttr
    ensures u in g.succ ==> AddEdge(g, u, v).succ[u] == Append(g.succ[u], v)
    ensures forall k :: k in g.succ && k != u ==> AddEdge(g, u, v).succ[k] == g.succ[k]
  {
  }

  /** The elements of `s` that lie in `keep`, in their order in `s`. */
  function Filter(s: seq<string>, keep: set<string>): (r: seq<string>)
    ensures forall x :: x in r <==> x in s && x in keep
    ensures NoDup(s) ==> NoDup(r)
    ensures |r| <= |s|
  {
    if s == [] then []
    else
      var rest := Filter(s[1..], keep);
      assert NoDup(s) ==> s[0] !in s[1..];
      if s[0] in keep then [s[0]] + rest else rest
  }

  lemma {:induction false} FilterFilter(s: seq<string>, a: set<string>, b: set<string>)
    ensures Filter(Filter(s, a), b) == Filter(s, a * b)
  {
    if s != [] {
      FilterFilter(s[1..], a, b);
      if s[0] in a {
        assert Filter(s, a) == [s[0]] + Filter(s[1..], a);
        assert Filter(s, a)[1..] == Filter(s[1..], a);
      }
    }
  }

  /** The subgraph induced on `keep`: the nodes of `g` in `keep` with their
      records, and the edges of `g` between two such nodes, in the same
      successor order. */
  function Induced(g: Graph, keep: set<string>): (r: Graph)
    requires Valid(g)
    ensures Valid(r)
    ensures r.node.Keys == g.node.Keys * keep
    ensures forall k :: k in r.node ==> r.node[k] == g.node[k]
    ensures forall k :: k in r.succ ==> r.succ[k] == Filter(g.succ[k], keep)
    ensures forall x, y :: HasEdge(r, x, y) <==> HasEdge(g, x, y) && x in keep && y in keep
  {
    Graph(map k | k in g.node && k in keep :: g.node[k],
          map k | k in g.succ && k in keep :: Filter(g.succ[k], keep))
  }

  /** Inducing twice is inducing once on the intersection. */
  lemma InducedInduced(g: Graph, a: set<string>, b: set<string>)
    requires Valid(g)
    ensures Induced(Induced(g, a), b) == Induced(g, a * b)
  {
    InducedInducedNode(g, a, b);
    InducedInducedSucc(g, a, b);
  }

  lemma InducedInducedNode(g: Graph, a: set<string>, b: set<string>)
    requires Valid(g)
    ensures Induced(Induced(g, a), b).node == Induced(g, a * b).node
  {
    var ga := Induced(g, a);
    assert ga.node == map k | k in g.node && k in a :: g.node[k];
    assert Induced(ga, b).node == map k | k in ga.node && k in b :: ga.node[k];
    RestrictTwice(g.node, a, b);
  }

  /** Restricting a map's keys twice is restricting once to the intersection. */
  lemma RestrictTwice(m: map<string, Attr>, a: set<string>, b: set<string>)
    ensures (var ma := map k | k in m && k in a :: m[k];
             map k | k in ma && k in b :: ma[k]) == map k | k in m && k in a * b :: m[k]
  {
  }

  lemma InducedInducedSucc(g: Graph, a: set<string>, b: set<string>)
    requires Valid(g)
    ensures Induced(Induced(g, a), b).succ == Induced(g, a * b).succ
  {
    var ga := Induced(g, a);
    var l := Induced(ga, b).succ;
    var r := Induced(g, a * b).succ;
    forall k | k in l ensures k in r && l[k] == r[k] {
      assert l[k] == Filter(ga.succ[k], b);
      FilterFilter(g.succ[k], a, b);
    }
  }
}
