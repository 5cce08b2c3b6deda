/**
 The part of the diagram model the filter works on: nodes with a mutable
 `hidden` flag, directed edges that refer to their endpoints by id, the
 graph's flat list of children, and the index that resolves an id to an
 element. On top of that, the relation "there is an edge from a to b whose
 endpoints both resolve to nodes", paths along it, and the set of nodes the
 filter is meant to leave visible.
 */
module GraphModel {

  datatype Option<T> = None | Some(value: T)

  /** A dependency. The filter only ever writes `hidden`. */
  class Node {
    const id: string
    const name: string
    var hidden: bool

    constructor (id: string, name: string, hidden: bool)
      ensures this.id == id && this.name == name && this.hidden == hidden
    {
      this.id := id;
      this.name := name;
      this.hidden := hidden;
    }
  }

  /** A dependency relation from the node with id `sourceId` to the node with
      id `targetId`. Edges are never changed by the filter. */
  datatype Edge = Edge(id: string, sourceId: string, targetId: string)

  /** An element of the graph's children or of the index: `isNode` holds of
      `NodeEl`s, `isEdge` of `EdgeEl`s; any other kind of element (a label,
      a port) is `OtherEl`, and the filter passes over it. */
  datatype Element = NodeEl(node: Node) | EdgeEl(edge: Edge) | OtherEl(id: string)

  datatype Graph = Graph(children: seq<Element>)

  /** The model index: element by id. */
  type Index = map<string, Element>

  /** `index.getById(id)` followed by `isNode`: the node stored under `id`,
      or nothing when the id is absent or names an edge. */
  function Resolve(index: Index, id: string): Option<Node> {
    if id in index && index[id].NodeEl? then Some(index[id].node) else None
  }

  /** The nodes among the graph's children. */
  function NodesOf(g: Graph): set<Node> {
    set i | 0 <= i < |g.children| && g.children[i].NodeEl? :: g.children[i].node
  }

  function NodeIds(g: Graph): set<string> {
    set n | n in NodesOf(g) :: n.id
  }

  /** The nodes currently shown. */
  ghost function Visible(g: Graph): set<Node>
    reads NodesOf(g)
  {
    set n | n in NodesOf(g) && !n.hidden
  }

  /** The index was built from the graph: every node of the graph is stored
      under its own id, and every node the index returns is one of the
      graph's. (Node ids are therefore unique.) */
  ghost predicate Consistent(g: Graph, index: Index) {
    && (forall n :: n in NodesOf(g) ==> n.id in index && index[n.id] == NodeEl(n))
    && (forall id :: id in index && index[id].NodeEl? ==> index[id].node in NodesOf(g))
  }

  /** Under `Consistent`, a lookup that finds a node finds one of the
      graph's nodes. */
  lemma ResolvedInGraph(g: Graph, index: Index, id: string)
    requires Consistent(g, index)
    ensures Resolve(index, id).Some? ==> Resolve(index, id).value in NodesOf(g)
  {
  }

  /** Under `Consistent`, looking up the id of any node of the graph finds
      that very node. */
  lemma ResolveOwnId(g: Graph, index: Index, n: Node)
    requires Consistent(g, index) && n in NodesOf(g)
    ensures Resolve(index, n.id) == Some(n)
  {
  }

  lemma NodeOfChild(g: Graph, i: int)
    requires 0 <= i < |g.children| && g.children[i].NodeEl?
    ensures g.children[i].node in NodesOf(g)
  {
  }

  /** The edges among `cs` whose target resolves to `n`, in order. */
  function EdgesInto(cs: seq<Element>, index: Index, n: Node): seq<Edge> {
    if cs == [] then []
    else
      var last := cs[|cs| - 1];
      EdgesInto(cs[..|cs| - 1], index, n)
      + (if last.EdgeEl? && Resolve(index, last.edge.targetId) == Some(n) then [last.edge] else [])
  }

  /** `EdgesInto` holds exactly the edges of `cs` that point at `n`. */
  lemma {:induction false} EdgesIntoIff(cs: seq<Element>, index: Index, n: Node, e: Edge)
    ensures e in EdgesInto(cs, index, n) <==> EdgeEl(e) in cs && Resolve(index, e.targetId) == Some(n)
  {
    if cs != [] {
      var init := cs[..|cs| - 1];
      EdgesIntoIff(init, index, n, e);
      assert cs == init + [cs[|cs| - 1]];
    }
  }

  /** The number of node elements among `cs`. */
  function NodeCount(cs: seq<Element>): nat {
    if cs == [] then 0
    else NodeCount(cs[..|cs| - 1]) + (if cs[|cs| - 1].NodeEl? then 1 else 0)
  }

  /** The number of node elements among `cs` whose name `accept` accepts. */
  function MatchCount(cs: seq<Element>, accept: string -> bool): nat {
    if cs == [] then 0
    else
      var last := cs[|cs| - 1];
      MatchCount(cs[..|cs| - 1], accept) + (if last.NodeEl? && accept(last.node.name) then 1 else 0)
  }

  /** Every node element of `cs` has a name `accept` accepts. */
  predicate AllMatch(cs: seq<Element>, accept: string -> bool) {
    forall i :: 0 <= i < |cs| && cs[i].NodeEl? ==> accept(cs[i].node.name)
  }

  /** The two counters of the first pass agree exactly when every node
      matched. */
  lemma {:induction false} MatchCountIff(cs: seq<Element>, accept: string -> bool)
    ensures MatchCount(cs, accept) <= NodeCount(cs)
    ensures MatchCount(cs, accept) == NodeCount(cs) <==> AllMatch(cs, accept)
  {
    if cs != [] {
      var init := cs[..|cs| - 1];
      MatchCountIff(init, accept);
      if AllMatch(cs, accept) {
        assert AllMatch(init, accept) by {
          forall i | 0 <= i < |init| && init[i].NodeEl? ensures accept(init[i].node.name) {
            assert init[i] == cs[i];
          }
        }
      } else if AllMatch(init, accept) {
        forall i | 0 <= i < |init| ensures init[i] == cs[i] { }
      }
    }
  }

  /** There is an edge from `a` to `b` among the graph's children whose two
      endpoints resolve through the index to those nodes. */
  ghost predicate Step(g: Graph, index: Index, a: Node, b: Node) {
    exists e :: EdgeEl(e) in g.children
                && Resolve(index, e.sourceId) == Some(a) && Resolve(index, e.targetId) == Some(b)
  }

  /** A non-empty sequence of ids that all resolve to nodes, each node with
      an edge to the next. */
  ghost predicate IsPath(g: Graph, index: Index, p: seq<string>) {
    && |p| > 0
    && (forall i :: 0 <= i < |p| ==> Resolve(index, p[i]).Some?)
    && (forall i :: 0 <= i < |p| - 1 ==>
          Step(g, index, Resolve(index, p[i]).value, Resolve(index, p[i + 1]).value))
  }

  /** `n` leads to a match: from `n` there is a path (possibly of no edges)
      to a node whose name `accept` accepts. */
  ghost predicate ReachesMatch(g: Graph, index: Index, accept: string -> bool, n: Node) {
    exists p :: IsPath(g, index, p) && Resolve(index, p[0]) == Some(n)
                && accept(Resolve(index, p[|p| - 1]).value.name)
  }

  /** `node.hidden = false`: shows one node of the graph. */
  method Show(g: Graph, n: Node)
    requires n in NodesOf(g)
    modifies n
    ensures !n.hidden
    ensures Visible(g) == old(Visible(g)) + {n}
  {
    n.hidden := false;
  }

  /** The nodes the filter must leave visible. */
  ghost function FilteredView(g: Graph, index: Index, accept: string -> bool): set<Node> {
    set n | n in NodesOf(g) && ReachesMatch(g, index, accept, n)
  }

  /** A node that matches leads to a match: the path of no edges. */
  lemma MatchReaches(g: Graph, index: Index, accept: string -> bool, n: Node)
    requires Consistent(g, index) && n in NodesOf(g) && accept(n.name)
    ensures ReachesMatch(g, index, accept, n)
  {
    assert IsPath(g, index, [n.id]);
  }

  /** A node with an edge to a node that leads to a match leads to it too. */
  lemma StepBackReaches(g: Graph, index: Index, accept: string -> bool, s: Node, n: Node)
    requires Consistent(g, index) && s in NodesOf(g)
    requires Step(g, index, s, n) && ReachesMatch(g, index, accept, n)
    ensures ReachesMatch(g, index, accept, s)
  {
    var p :| IsPath(g, index, p) && Resolve(index, p[0]) == Some(n)
             && accept(Resolve(index, p[|p| - 1]).value.name);
    var q := [s.id] + p;
    assert forall i :: 0 < i < |q| ==> q[i] == p[i - 1];
    assert IsPath(g, index, q);
  }

  /** `children` with the edge `e` inserted at position `i`. */
  function InsertEdge(g: Graph, i: int, e: Edge): (g': Graph)
    requires 0 <= i <= |g.children|
    ensures |g'.children| == |g.children| + 1 && g'.children[i] == EdgeEl(e)
    ensures forall j :: 0 <= j < i ==> g'.children[j] == g.children[j]
    ensures forall j :: i < j < |g'.children| ==> g'.children[j] == g.children[j - 1]
  {
    Graph(g.children[..i] + [EdgeEl(e)] + g.children[i..])
  }

  /** An edge with an endpoint that does not resolve to a node adds no step,
      wherever it is inserted among the children. */
  lemma DanglingStepIff(g: Graph, i: int, index: Index, e: Edge, a: Node, b: Node)
    requires 0 <= i <= |g.children|
    requires Resolve(index, e.sourceId).None? || Resolve(index, e.targetId).None?
    ensures Step(InsertEdge(g, i, e), index, a, b) <==> Step(g, index, a, b)
  {
    var g' := InsertEdge(g, i, e);
    if Step(g', index, a, b) {
      var d :| EdgeEl(d) in g'.children
               && Resolve(index, d.sourceId) == Some(a) && Resolve(index, d.targetId) == Some(b);
      var j :| 0 <= j < |g'.children| && g'.children[j] == EdgeEl(d);
      assert j != i;
      if j < i {
        assert g.children[j] == EdgeEl(d);
      } else {
        assert g.children[j - 1] == EdgeEl(d);
      }
    }
    if Step(g, index, a, b) {
      var d :| EdgeEl(d) in g.children
               && Resolve(index, d.sourceId) == Some(a) && Resolve(index, d.targetId) == Some(b);
      var j :| 0 <= j < |g.children| && g.children[j] == EdgeEl(d);
      if j < i {
        assert g'.children[j] == EdgeEl(d);
      } else {
        assert g'.children[j + 1] == EdgeEl(d);
      }
    }
  }

  /** Inserting such an edge anywhere among the children changes neither the
      nodes nor the set of nodes the filter must leave visible. */
  lemma DanglingEdgeIgnored(g: Graph, i: int, index: Index, accept: string -> bool, e: Edge)
    requires 0 <= i <= |g.children|
    requires Resolve(index, e.sourceId).None? || Resolve(index, e.targetId).None?
    ensures NodesOf(InsertEdge(g, i, e)) == NodesOf(g)
    ensures FilteredView(InsertEdge(g, i, e), index, accept) == FilteredView(g, index, accept)
  {
    var g' := InsertEdge(g, i, e);
    assert NodesOf(g') == NodesOf(g) by {
      forall n | n in NodesOf(g') ensures n in NodesOf(g) {
        var j :| 0 <= j < |g'.children| && g'.children[j].NodeEl? && g'.children[j].node == n;
        if j < i {
          assert g.children[j] == g'.children[j];
        } else {
          assert g.children[j - 1] == g'.children[j];
        }
      }
      forall n | n in NodesOf(g) ensures n in NodesOf(g') {
        var j :| 0 <= j < |g.children| && g.children[j].NodeEl? && g.children[j].node == n;
        if j < i {
          assert g'.children[j] == g.children[j];
        } else {
          assert g'.children[j + 1] == g.children[j];
        }
      }
    }
    forall p ensures IsPath(g', index, p) <==> IsPath(g, index, p) {
      forall k | 0 <= k < |p| - 1 && Resolve(index, p[k]).Some? && Resolve(index, p[k + 1]).Some?
        ensures Step(g', index, Resolve(index, p[k]).value, Resolve(index, p[k + 1]).value)
            <==> Step(g, index, Resolve(index, p[k]).value, Resolve(index, p[k + 1]).value)
      {
        DanglingStepIff(g, i, index, e, Resolve(index, p[k]).value, Resolve(index, p[k + 1]).value);
      }
    }
    forall n ensures ReachesMatch(g', index, accept, n) <==> ReachesMatch(g, index, accept, n) {
      if ReachesMatch(g', index, accept, n) {
        var p :| IsPath(g', index, p) && Resolve(index, p[0]) == Some(n)
                 && accept(Resolve(index, p[|p| - 1]).value.name);
        assert IsPath(g, index, p);
      }
      if ReachesMatch(g, index, accept, n) {
        var p :| IsPath(g, index, p) && Resolve(index, p[0]) == Some(n)
                 && accept(Resolve(index, p[|p| - 1]).value.name);
        assert IsPath(g', index, p);
      }
    }
  }
}
