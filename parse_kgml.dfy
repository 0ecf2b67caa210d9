/**
 * Construction of a pathway graph from the entries and relations of a
 * KGML document (the XML is taken as already read into records).
 *
 * The entry pass keeps the entries whose type is allowed, strips one
 * trailing "..." from each display name, records id -> (name, title,
 * type) and adds a graph node keyed by the title. The relation pass
 * resolves both endpoints of each relation through the id table and adds
 * the edge between their titles; an endpoint that is not in the table
 * fails the whole construction.
 */
module ParseKgml {
  import opened Wrappers
  import opened DiGraph
  import KeggPathway

  /** A KGML `entry` element with the attributes of its `graphics` child. */
  datatype Entry = Entry(id: string, name: string, kind: string, graphicsName: string, x: int, y: int)

  /** A KGML `relation` element: the ids of its two entries. */
  datatype Relation = Relation(entry1: string, entry2: string)

  /** A KGML document: the root's title, its entries and its relations. */
  datatype Document = Document(title: string, entries: seq<Entry>, relations: seq<Relation>)

  /** The value of the id table: (name, title, type). */
  datatype EntryRecord = EntryRecord(name: string, title: string, kind: string)

  /** A reaction: its substrates and products. */
  datatype Reaction = Reaction(substrates: seq<string>, products: seq<string>)

  /** Looking up a relation endpoint that is not in the id table. */
  datatype ParseError = UnresolvedReference(id: string)

  // ---------------------------------------------------------------------
  // Allow-list and display-name normalisation

  /** The entry types kept: a non-empty `filterBy` replaces the default of
      the file type entirely; an empty one leaves the default. */
  function AllowedTypes(filetype: string, filterBy: seq<string>): (r: seq<string>)
    ensures filterBy != [] ==> r == filterBy
    ensures filterBy == [] && (filetype == "organism" || filetype == "o") ==>
      r == ["gene", "compound", "map"]
    ensures filterBy == [] && filetype != "organism" && filetype != "o" ==>
      r == ["ortholog", "map", "compound"]
  {
    var default := if filetype in ["organism", "o"] then ["gene", "compound", "map"]
                   else ["ortholog", "map", "compound"];
    if filterBy != [] then filterBy else default
  }

  /** The display name ends with the truncation marker "...". (A name
      shorter than three characters cannot end with it.) */
  predicate HasEllipsis(t: string) {
    |t| >= 3 && t[|t| - 3..] == "..."
  }

  /** The display name with one trailing "..." removed. */
  function StripEllipsis(t: string): (r: string)
    ensures HasEllipsis(t) ==> r + "..." == t
    ensures !HasEllipsis(t) ==> r == t
  {
    if HasEllipsis(t) then t[..|t| - 3] else t
  }

  /** Exactly one marker is removed, whatever precedes it. */
  lemma StripEllipsisOnce(t: string)
    ensures StripEllipsis(t + "...") == t
  {
    assert HasEllipsis(t + "...");
  }

  lemma StripEllipsisExamples()
    ensures StripEllipsis("ALG2...") == "ALG2"
    ensures StripEllipsis("ALG2......") == "ALG2..."
    ensures StripEllipsis("ALG2") == "ALG2"
    ensures StripEllipsis("..") == ".."
  {
    StripEllipsisOnce("ALG2");
    StripEllipsisOnce("ALG2...");
  }

  /** The PNG file name of a plot: the title with every '/' made '-'. */
  function SanitizeTitle(title: string): (r: string)
    ensures |r| == |title|
    ensures forall i :: 0 <= i < |r| ==> r[i] == if title[i] == '/' then '-' else title[i]
    ensures '/' !in r
  {
    if title == [] then []
    else [if title[0] == '/' then '-' else title[0]] + SanitizeTitle(title[1..])
  }

  /** A title without '/' is its own file name. */
  lemma {:induction false} SanitizeTitleKeeps(title: string)
    requires '/' !in title
    ensures SanitizeTitle(title) == title
  {
    if title != [] {
      SanitizeTitleKeeps(title[1..]);
    }
  }

  // ---------------------------------------------------------------------
  // The entry pass

  function Title(e: Entry): string {
    StripEllipsis(e.graphicsName)
  }

  function Record(e: Entry): EntryRecord {
    EntryRecord(e.name, Title(e), e.kind)
  }

  /** The node data `{'type': ..., 'xy': (x, y)}` of an accepted entry. */
  function NodeData(e: Entry): Attr {
    Attr(Some(e.kind), Some((e.x, e.y)), None)
  }

  /** The id table after the entry pass over `es`: each accepted entry
      sets `nodes[id]`. */
  function EntryIds(es: seq<Entry>, allowed: seq<string>): (r: map<string, EntryRecord>)
    ensures forall k :: k in r ==> r[k].kind in allowed
    decreases |es|
  {
    if es == [] then map[]
    else
      var ids, e := EntryIds(es[..|es| - 1], allowed), es[|es| - 1];
      if e.kind in allowed then ids[e.id := Record(e)] else ids
  }

  /** The graph after the entry pass over `es`: each accepted entry adds
      (or updates) the node keyed by its title. */
  function EntryGraph(es: seq<Entry>, allowed: seq<string>): (r: Graph)
    ensures Valid(r)
    decreases |es|
  {
    if es == [] then Empty
    else
      var g, e := EntryGraph(es[..|es| - 1], allowed), es[|es| - 1];
      if e.kind in allowed then DiGraph.AddNode(g, Title(e), NodeData(e)) else g
  }

  ghost predicate Accepted(es: seq<Entry>, allowed: seq<string>, i: int) {
    0 <= i < |es| && es[i].kind in allowed
  }

  /** `es[i]` is the last accepted entry with its id. */
  ghost predicate LastWithId(es: seq<Entry>, allowed: seq<string>, i: int) {
    Accepted(es, allowed, i) &&
    forall j :: i < j < |es| && es[j].kind in allowed ==> es[j].id != es[i].id
  }

  /** `es[i]` is the last accepted entry with its title. */
  ghost predicate LastWithTitle(es: seq<Entry>, allowed: seq<string>, i: int) {
    Accepted(es, allowed, i) &&
    forall j :: i < j < |es| && es[j].kind in allowed ==> Title(es[j]) != Title(es[i])
  }

  ghost function AcceptedIds(es: seq<Entry>, allowed: seq<string>): set<string> {
    set i | 0 <= i < |es| && es[i].kind in allowed :: es[i].id
  }

  ghost function AcceptedTitles(es: seq<Entry>, allowed: seq<string>): set<string> {
    set i | 0 <= i < |es| && es[i].kind in allowed :: Title(es[i])
  }

  /** One more entry keeps `i` the last with its id, unless that entry is
      accepted with the same id. */
  lemma LastWithIdExtend(p: seq<Entry>, e: Entry, allowed: seq<string>, i: int)
    requires LastWithId(p, allowed, i)
    requires !(e.kind in allowed && e.id == p[i].id)
    ensures LastWithId(p + [e], allowed, i)
  {
    var es := p + [e];
    forall j | i < j < |es| && es[j].kind in allowed ensures es[j].id != es[i].id {
      if j < |p| { assert es[j] == p[j]; }
    }
  }

  /** The id table holds the accepted ids; a repeated id holds the record
      of its last accepted entry (later entries overwrite earlier ones). */
  lemma {:induction false} EntryPassIds(es: seq<Entry>, allowed: seq<string>)
    ensures forall k :: k in EntryIds(es, allowed) <==>
      exists i :: Accepted(es, allowed, i) && es[i].id == k
    ensures forall k :: k in EntryIds(es, allowed) ==>
      exists i :: LastWithId(es, allowed, i) && es[i].id == k && EntryIds(es, allowed)[k] == Record(es[i])
    decreases |es|
  {
    if es != [] {
      var p, e := es[..|es| - 1], es[|es| - 1];
      assert es == p + [e];
      EntryPassIds(p, allowed);
      var prev := EntryIds(p, allowed);
      var ids := EntryIds(es, allowed);
      assert ids == if e.kind in allowed then prev[e.id := Record(e)] else prev;
      forall k | k in ids
        ensures exists i :: LastWithId(es, allowed, i) && es[i].id == k && ids[k] == Record(es[i])
      {
        if e.kind in allowed && e.id == k {
          assert LastWithId(es, allowed, |es| - 1);
        } else {
          assert k in prev && ids[k] == prev[k];
          var i :| LastWithId(p, allowed, i) && p[i].id == k && prev[k] == Record(p[i]);
          LastWithIdExtend(p, e, allowed, i);
        }
      }
      forall k | exists i :: Accepted(es, allowed, i) && es[i].id == k
        ensures k in ids
      {
        var i :| Accepted(es, allowed, i) && es[i].id == k;
        if i < |p| {
          assert Accepted(p, allowed, i);
        }
      }
    }
  }

  /** One more entry keeps `i` the last with its title, unless that entry
      is accepted with the same title. */
  lemma LastWithTitleExtend(p: seq<Entry>, e: Entry, allowed: seq<string>, i: int)
    requires LastWithTitle(p, allowed, i)
    requires !(e.kind in allowed && Title(e) == Title(p[i]))
    ensures LastWithTitle(p + [e], allowed, i)
  {
    var es := p + [e];
    forall j | i < j < |es| && es[j].kind in allowed ensures Title(es[j]) != Title(es[i]) {
      if j < |p| { assert es[j] == p[j]; }
    }
  }

  /** The graph's nodes are the titles of the accepted entries; entries
      sharing a title collapse into one node, which holds the type and
      coordinates of the last of them. */
  lemma {:induction false} EntryPassNodes(es: seq<Entry>, allowed: seq<string>)
    ensures forall t :: t in EntryGraph(es, allowed).node <==>
      exists i :: Accepted(es, allowed, i) && Title(es[i]) == t
    ensures forall t :: t in EntryGraph(es, allowed).node ==>
      exists i :: LastWithTitle(es, allowed, i) && Title(es[i]) == t &&
        EntryGraph(es, allowed).node[t] == NodeData(es[i])
    decreases |es|
  {
    if es != [] {
      var p, e := es[..|es| - 1], es[|es| - 1];
      assert es == p + [e];
      EntryPassNodes(p, allowed);
      var prev := EntryGraph(p, allowed);
      var g := EntryGraph(es, allowed);
      assert g == if e.kind in allowed then DiGraph.AddNode(prev, Title(e), NodeData(e)) else prev;
      var node := g.node;
      forall t | t in node
        ensures exists i :: LastWithTitle(es, allowed, i) && Title(es[i]) == t && node[t] == NodeData(es[i])
      {
        if e.kind in allowed && Title(e) == t {
          if t in prev.node {
            var i :| LastWithTitle(p, allowed, i) && Title(p[i]) == t && prev.node[t] == NodeData(p[i]);
            assert node[t] == Merge(NodeData(p[i]), NodeData(e));
            MergeLaws(NodeData(p[i]), NodeData(e));
          }
          assert LastWithTitle(es, allowed, |es| - 1);
        } else {
          assert t in prev.node && node[t] == prev.node[t];
          var i :| LastWithTitle(p, allowed, i) && Title(p[i]) == t && prev.node[t] == NodeData(p[i]);
          LastWithTitleExtend(p, e, allowed, i);
        }
      }
      forall t | exists i :: Accepted(es, allowed, i) && Title(es[i]) == t
        ensures t in node
      {
        var i :| Accepted(es, allowed, i) && Title(es[i]) == t;
        if i < |p| {
          assert Accepted(p, allowed, i);
        }
      }
    }
  }

  /** The entry pass adds no edges. */
  lemma {:induction false} EntryPassNoEdges(es: seq<Entry>, allowed: seq<string>)
    ensures forall u, v :: !HasEdge(EntryGraph(es, allowed), u, v)
    decreases |es|
  {
    if es != [] {
      EntryPassNoEdges(es[..|es| - 1], allowed);
    }
  }

  /** An entry whose type is not allowed contributes nothing, wherever it
      stands: neither to the id table nor to the graph. */
  lemma {:induction false} EntryPassSkipsRejected(a: seq<Entry>, e: Entry, b: seq<Entry>, allowed: seq<string>)
    requires e.kind !in allowed
    ensures EntryIds(a + [e] + b, allowed) == EntryIds(a + b, allowed)
    ensures EntryGraph(a + [e] + b, allowed) == EntryGraph(a + b, allowed)
    decreases |b|
  {
    if b == [] {
      assert (a + [e])[..|a|] == a;
      assert a + [e] + b == a + [e];
      assert a + b == a;
    } else {
      var b', x := b[..|b| - 1], b[|b| - 1];
      EntryPassSkipsRejected(a, e, b', allowed);
      assert (a + [e] + b)[..|a + [e] + b| - 1] == a + [e] + b';
      assert (a + b)[..|a + b| - 1] == a + b';
    }
  }

  // ---------------------------------------------------------------------
  // The relation pass

  /** One relation: resolve `entry1`, then `entry2`, then add the edge
      between their titles. */
  function Link(ids: map<string, EntryRecord>, g: Graph, rel: Relation): (r: Result<Graph, ParseError>)
    requires Valid(g)
    ensures r.Success? ==> Valid(r.value)
  {
    if rel.entry1 !in ids then Failure(UnresolvedReference(rel.entry1))
    else if rel.entry2 !in ids then Failure(UnresolvedReference(rel.entry2))
    else Success(DiGraph.AddEdge(g, ids[rel.entry1].title, ids[rel.entry2].title))
  }

  /** The graph after linking the relations `rs` in order, or the error of
      the first relation that does not resolve. */
  function RelationPass(ids: map<string, EntryRecord>, g: Graph, rs: seq<Relation>): (r: Result<Graph, ParseError>)
    requires Valid(g)
    ensures r.Success? ==> Valid(r.value)
    decreases |rs|
  {
    if rs == [] then Success(g)
    else match Link(ids, g, rs[0])
      case Failure(e) => Failure(e)
      case Success(g') => RelationPass(ids, g', rs[1..])
  }

  /** Both endpoints of every relation are in the id table. */
  ghost predicate Resolvable(ids: map<string, EntryRecord>, rs: seq<Relation>) {
    forall i :: 0 <= i < |rs| ==> rs[i].entry1 in ids && rs[i].entry2 in ids
  }

  /** `rs[i]` is the first relation with an endpoint not in the id table. */
  ghost predicate FirstUnresolved(ids: map<string, EntryRecord>, rs: seq<Relation>, i: int) {
    && 0 <= i < |rs|
    && (rs[i].entry1 !in ids || rs[i].entry2 !in ids)
    && forall j :: 0 <= j < i ==> rs[j].entry1 in ids && rs[j].entry2 in ids
  }

  /** The error a relation with an unresolved endpoint raises: `entry1` is
      looked up first. */
  function Unresolved(ids: map<string, EntryRecord>, rel: Relation): ParseError {
    if rel.entry1 !in ids then UnresolvedReference(rel.entry1) else UnresolvedReference(rel.entry2)
  }

  /** Some relation of `rs` links title `u` to title `v`. */
  ghost predicate Links(ids: map<string, EntryRecord>, rs: seq<Relation>, u: string, v: string)
    requires Resolvable(ids, rs)
  {
    exists i :: 0 <= i < |rs| && ids[rs[i].entry1].title == u && ids[rs[i].entry2].title == v
  }

  /** The relation pass succeeds iff every endpoint resolves; otherwise it
      fails at the first relation that does not. */
  lemma {:induction false} RelationPassOutcome(ids: map<string, EntryRecord>, g: Graph, rs: seq<Relation>)
    requires Valid(g)
    ensures RelationPass(ids, g, rs).Success? <==> Resolvable(ids, rs)
    ensures RelationPass(ids, g, rs).Failure? ==>
      exists i :: FirstUnresolved(ids, rs, i) && RelationPass(ids, g, rs).error == Unresolved(ids, rs[i])
    decreases |rs|
  {
    if rs != [] {
      var rel, rest := rs[0], rs[1..];
      ResolvableCons(ids, rs);
      if rel.entry1 in ids && rel.entry2 in ids {
        var g' := Link(ids, g, rel).value;
        assert RelationPass(ids, g, rs) == RelationPass(ids, g', rest);
        RelationPassOutcome(ids, g', rest);
        if RelationPass(ids, g', rest).Failure? {
          var i :| FirstUnresolved(ids, rest, i) && RelationPass(ids, g', rest).error == Unresolved(ids, rest[i]);
          FirstUnresolvedCons(ids, rs, i);
        }
      } else {
        assert RelationPass(ids, g, rs) == Failure(Unresolved(ids, rel));
        assert FirstUnresolved(ids, rs, 0);
      }
    }
  }

  lemma ResolvableCons(ids: map<string, EntryRecord>, rs: seq<Relation>)
    requires rs != []
    ensures Resolvable(ids, rs) <==>
      rs[0].entry1 in ids && rs[0].entry2 in ids && Resolvable(ids, rs[1..])
  {
    if rs[0].entry1 in ids && rs[0].entry2 in ids && Resolvable(ids, rs[1..]) {
      forall j | 0 < j < |rs| ensures rs[j].entry1 in ids && rs[j].entry2 in ids {
        assert rs[j] == rs[1..][j - 1];
      }
    }
  }

  lemma FirstUnresolvedCons(ids: map<string, EntryRecord>, rs: seq<Relation>, i: int)
    requires rs != [] && rs[0].entry1 in ids && rs[0].entry2 in ids
    requires FirstUnresolved(ids, rs[1..], i)
    ensures FirstUnresolved(ids, rs, i + 1) && rs[i + 1] == rs[1..][i]
  {
    forall j | 0 < j < i + 1 ensures rs[j].entry1 in ids && rs[j].entry2 in ids {
      assert rs[j] == rs[1..][j - 1];
    }
  }

  /** When the relation pass succeeds on a graph that already holds every
      title of the id table, the nodes and their records are unchanged and
      the edges are the old ones plus one per relation, title to title. */
  lemma {:induction false} RelationPassEdges(ids: map<string, EntryRecord>, g: Graph, rs: seq<Relation>)
    requires Valid(g)
    requires Resolvable(ids, rs)
    requires forall k :: k in ids ==> ids[k].title in g.node
    ensures RelationPass(ids, g, rs).Success?
    ensures RelationPass(ids, g, rs).value.node == g.node
    ensures forall u, v :: HasEdge(RelationPass(ids, g, rs).value, u, v) <==>
      HasEdge(g, u, v) || Links(ids, rs, u, v)
    decreases |rs|
  {
    if rs != [] {
      var rel := rs[0];
      var u0, v0 := ids[rel.entry1].title, ids[rel.entry2].title;
      var g' := DiGraph.AddEdge(g, u0, v0);
      AddEdgeKeeps(g, u0, v0);
      assert g'.node == g.node;
      assert Resolvable(ids, rs[1..]) by {
        forall i | 0 <= i < |rs[1..]| ensures rs[1..][i].entry1 in ids && rs[1..][i].entry2 in ids {
          assert rs[1..][i] == rs[i + 1];
        }
      }
      RelationPassEdges(ids, g', rs[1..]);
      var r := RelationPass(ids, g, rs).value;
      forall u, v ensures HasEdge(r, u, v) <==> HasEdge(g, u, v) || Links(ids, rs, u, v) {
        if Links(ids, rs[1..], u, v) {
          var i :| 0 <= i < |rs[1..]| && ids[rs[1..][i].entry1].title == u && ids[rs[1..][i].entry2].title == v;
          assert rs[1..][i] == rs[i + 1];
        }
        if Links(ids, rs, u, v) {
          var i :| 0 <= i < |rs| && ids[rs[i].entry1].title == u && ids[rs[i].entry2].title == v;
          if i > 0 {
            assert rs[i] == rs[1..][i - 1];
            assert Links(ids, rs[1..], u, v);
          }
        }
      }
    }
  }

  // ---------------------------------------------------------------------
  // The whole construction

  /** What the construction yields: the title, the graph and the id table. */
  datatype Parsed = Parsed(title: string, graph: Graph, ids: map<string, EntryRecord>)

  /** The construction as a function of its inputs. */
  function Parse(doc: Document, filetype: string := "organism", filterBy: seq<string> := []): (r: Result<Parsed, ParseError>)
    ensures r.Success? ==> Valid(r.value.graph)
  {
    var allowed := AllowedTypes(filetype, filterBy);
    var ids := EntryIds(doc.entries, allowed);
    match RelationPass(ids, EntryGraph(doc.entries, allowed), doc.relations)
    case Failure(e) => Failure(e)
    case Success(g) => Success(Parsed(doc.title, g, ids))
  }

  /** The construction succeeds iff every relation's two endpoints are ids
      of accepted entries; a relation naming an entry that was filtered
      out, or no entry at all, fails the whole call. */
  lemma ParseOutcome(doc: Document, filetype: string, filterBy: seq<string>)
    ensures Parse(doc, filetype, filterBy).Success? <==>
      forall i :: 0 <= i < |doc.relations| ==>
        doc.relations[i].entry1 in AcceptedIds(doc.entries, AllowedTypes(filetype, filterBy)) &&
        doc.relations[i].entry2 in AcceptedIds(doc.entries, AllowedTypes(filetype, filterBy))
    ensures Parse(doc, filetype, filterBy).Failure? ==>
      exists i :: 0 <= i < |doc.relations| &&
        Parse(doc, filetype, filterBy).error.id in {doc.relations[i].entry1, doc.relations[i].entry2} &&
        Parse(doc, filetype, filterBy).error.id !in AcceptedIds(doc.entries, AllowedTypes(filetype, filterBy))
  {
    var allowed := AllowedTypes(filetype, filterBy);
    var ids := EntryIds(doc.entries, allowed);
    EntryPassIds(doc.entries, allowed);
    assert ids.Keys == AcceptedIds(doc.entries, allowed) by {
      forall k | k in AcceptedIds(doc.entries, allowed) ensures k in ids {
        var i :| 0 <= i < |doc.entries| && doc.entries[i].kind in allowed && doc.entries[i].id == k;
        assert Accepted(doc.entries, allowed, i);
      }
    }
    RelationPassOutcome(ids, EntryGraph(doc.entries, allowed), doc.relations);
  }

  /** A successful construction keeps the title, has as nodes exactly the
      titles of the accepted entries, each typed with an allowed type, as
      ids exactly the ids of the accepted entries, as edges exactly the
      title pairs of the relations, and no dangling edge. */
  lemma ParseGraph(doc: Document, filetype: string, filterBy: seq<string>)
    requires Parse(doc, filetype, filterBy).Success?
    ensures var p := Parse(doc, filetype, filterBy).value;
      && p.title == doc.title
      && p.graph.node.Keys == AcceptedTitles(doc.entries, AllowedTypes(filetype, filterBy))
      && p.ids.Keys == AcceptedIds(doc.entries, AllowedTypes(filetype, filterBy))
      && Resolvable(p.ids, doc.relations)
      && (forall u, v :: HasEdge(p.graph, u, v) <==> Links(p.ids, doc.relations, u, v))
      && (forall u, v :: HasEdge(p.graph, u, v) ==> u in p.graph.node && v in p.graph.node)
      && (forall t :: t in p.graph.node ==>
            p.graph.node[t].kind.Some? && p.graph.node[t].kind.value in AllowedTypes(filetype, filterBy) &&
            p.graph.node[t].xy.Some? && p.graph.node[t].nodeLabel.None?)
  {
    var allowed := AllowedTypes(filetype, filterBy);
    var ids, g0 := EntryIds(doc.entries, allowed), EntryGraph(doc.entries, allowed);
    EntryPassIds(doc.entries, allowed);
    EntryPassNodes(doc.entries, allowed);
    EntryPassNoEdges(doc.entries, allowed);
    RelationPassOutcome(ids, g0, doc.relations);
    forall k | k in ids ensures ids[k].title in g0.node {
      var i :| LastWithId(doc.entries, allowed, i) && doc.entries[i].id == k && ids[k] == Record(doc.entries[i]);
      assert Accepted(doc.entries, allowed, i);
    }
    RelationPassEdges(ids, g0, doc.relations);
    var p := Parse(doc, filetype, filterBy).value;
    assert p.graph.node == g0.node;
    assert p.graph.node.Keys == AcceptedTitles(doc.entries, allowed) by {
      forall t | t in AcceptedTitles(doc.entries, allowed) ensures t in g0.node {
        var i :| 0 <= i < |doc.entries| && doc.entries[i].kind in allowed && Title(doc.entries[i]) == t;
        assert Accepted(doc.entries, allowed, i);
      }
    }
    assert p.ids.Keys == AcceptedIds(doc.entries, allowed) by {
      forall k | k in AcceptedIds(doc.entries, allowed) ensures k in ids {
        var i :| 0 <= i < |doc.entries| && doc.entries[i].kind in allowed && doc.entries[i].id == k;
        assert Accepted(doc.entries, allowed, i);
      }
    }
    forall t | t in p.graph.node
      ensures p.graph.node[t].kind.Some? && p.graph.node[t].kind.value in allowed
      ensures p.graph.node[t].xy.Some? && p.graph.node[t].nodeLabel.None?
    {
      var i :| LastWithTitle(doc.entries, allowed, i) && Title(doc.entries[i]) == t &&
        g0.node[t] == NodeData(doc.entries[i]);
    }
  }

  /** A constructed graph has a `type` on every node but a `label` on
      none: `get_genes` succeeds on it and `neighbors_labels` fails. */
  lemma ParseThenQueries(doc: Document, filetype: string, filterBy: seq<string>)
    requires Parse(doc, filetype, filterBy).Success?
    ensures KeggPathway.AllTyped(Parse(doc, filetype, filterBy).value.graph)
    ensures forall t :: t in Parse(doc, filetype, filterBy).value.graph.node ==>
      Parse(doc, filetype, filterBy).value.graph.node[t].nodeLabel.None?
  {
    ParseGraph(doc, filetype, filterBy);
  }

  /** Called with the default arguments, the construction keeps the
      organism allow-list: every node is a gene, a compound or a map. */
  lemma ParseDefaultTypes(doc: Document)
    requires Parse(doc).Success?
    ensures forall t :: t in Parse(doc).value.graph.node ==>
      Parse(doc).value.graph.node[t].kind in {Some("gene"), Some("compound"), Some("map")}
  {
    ParseGraph(doc, "organism", []);
  }

  /** The result of `KGML2Graph`: the graph, the id table, the gene list
      and the reaction table. */
  datatype Output = Output(
    graph: KeggPathway.KeggPathway,
    nodes: map<string, EntryRecord>,
    genes: seq<string>,
    reactions: map<string, Reaction>)

  /** `KGML2Graph`: the entry pass, then the relation pass, on a new
      pathway. The gene list and the reaction table are returned empty. */
  method Kgml2Graph(doc: Document, filetype: string := "organism", filterBy: seq<string> := [])
    returns (r: Result<Output, ParseError>)
    ensures r.Success? <==> Parse(doc, filetype, filterBy).Success?
    ensures r.Failure? ==> r.error == Parse(doc, filetype, filterBy).error
    ensures r.Success? ==> fresh(r.value.graph) && r.value.graph.Valid()
    ensures r.Success? ==> var p := Parse(doc, filetype, filterBy).value;
      && r.value.graph.title == p.title
      && r.value.graph.View() == p.graph
      && r.value.nodes == p.ids
    ensures r.Success? ==> r.value.graph.labels == map[]
    ensures r.Success? ==> r.value.genes == [] && r.value.reactions == map[]
  {
    var graph := new KeggPathway.KeggPathway();
    var nodes: map<string, EntryRecord> := map[];
    var genes: seq<string> := [];
    var reactions: map<string, Reaction> := map[];
    var entriestype := AllowedTypes(filetype, filterBy);
    graph.title := doc.title;

    var i := 0;
    while i < |doc.entries|
      invariant 0 <= i <= |doc.entries|
      invariant graph.Valid()
      invariant nodes == EntryIds(doc.entries[..i], entriestype)
      invariant graph.View() == EntryGraph(doc.entries[..i], entriestype)
      invariant graph.title == doc.title && graph.labels == map[]
    {
      var el := doc.entries[i];
      if el.kind in entriestype {
        var nodeTitle := StripEllipsis(el.graphicsName);
        nodes := nodes[el.id := EntryRecord(el.name, nodeTitle, el.kind)];
        graph.AddNode(nodeTitle, Attr(Some(el.kind), Some((el.x, el.y)), None));
      }
      assert doc.entries[..i + 1][..i] == doc.entries[..i];
      i := i + 1;
    }
    assert doc.entries[..i] == doc.entries;
    ghost var built := graph.View();

    var j := 0;
    while j < |doc.relations|
      invariant 0 <= j <= |doc.relations|
      invariant graph.Valid()
      invariant RelationPass(nodes, built, doc.relations) == RelationPass(nodes, graph.View(), doc.relations[j..])
      invariant graph.title == doc.title && graph.labels == map[]
    {
      var rel := doc.relations[j];
      if rel.entry1 !in nodes {
        return Failure(UnresolvedReference(rel.entry1));
      }
      if rel.entry2 !in nodes {
        return Failure(UnresolvedReference(rel.entry2));
      }
      graph.AddEdge(nodes[rel.entry1].title, nodes[rel.entry2].title);
      assert doc.relations[j..][1..] == doc.relations[j + 1..];
      j := j + 1;
    }
    r := Success(Output(graph, nodes, genes, reactions));
  }
}
