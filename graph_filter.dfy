/**
 `DependencyGraphFilter`: holds the name predicate compiled from the filter
 text and, on `Refresh`, hides every node that neither matches it nor leads
 to a node that does. The first pass sets each node's flag from the
 predicate; the second walks edges backwards, depth first, from every
 visible node and shows each node it reaches, marking node ids so that no
 node is expanded twice.
 */
module GraphFilter {
  import opened NameFilter
  import opened GraphModel

  /** `incoming.get(n) || []` */
  function IncomingOf(incoming: map<Node, seq<Edge>>, n: Node): seq<Edge> {
    if n in incoming then incoming[n] else []
  }

  /** `incoming` maps each node that is the target of some edge to those
      edges, in the order of the graph's children, and has no other keys. */
  ghost predicate IncomingExact(g: Graph, index: Index, incoming: map<Node, seq<Edge>>) {
    && (forall n :: n in incoming ==> incoming[n] == EdgesInto(g.children, index, n) != [])
    && (forall n :: n in NodesOf(g) && EdgesInto(g.children, index, n) != [] ==> n in incoming)
  }

  // The invariant of the backward search. A node is finished once it is
  // marked and no longer on the search stack; every finished node has every
  // incoming edge's source (when it resolves to a node) visible and marked.

  ghost predicate SourceDone(index: Index, e: Edge, mark: set<string>, vis: set<Node>) {
    match Resolve(index, e.sourceId)
    case None => true
    case Some(s) => s in vis && s.id in mark
  }

  ghost predicate SourcesDone(index: Index, es: seq<Edge>, mark: set<string>, vis: set<Node>) {
    forall e :: e in es ==> SourceDone(index, e, mark, vis)
  }

  ghost predicate Closed(g: Graph, index: Index, n: Node, mark: set<string>, vis: set<Node>) {
    SourcesDone(index, EdgesInto(g.children, index, n), mark, vis)
  }

  ghost predicate AllClosed(g: Graph, index: Index, mark: set<string>, stack: set<string>, vis: set<Node>) {
    forall n {:trigger Closed(g, index, n, mark, vis)} ::
      n in NodesOf(g) && n.id in mark && n.id !in stack ==> Closed(g, index, n, mark, vis)
  }

  /** Every visible node leads to a match. */
  ghost predicate Sound(g: Graph, index: Index, accept: string -> bool, vis: set<Node>) {
    forall n {:trigger ReachesMatch(g, index, accept, n)} :: n in vis ==> ReachesMatch(g, index, accept, n)
  }

  lemma SourcesDoneMonotone(index: Index, es: seq<Edge>, mark: set<string>, vis: set<Node>,
                            mark': set<string>, vis': set<Node>)
    requires SourcesDone(index, es, mark, vis) && mark <= mark' && vis <= vis'
    ensures SourcesDone(index, es, mark', vis')
  {
    forall e | e in es ensures SourceDone(index, e, mark', vis') {
      assert SourceDone(index, e, mark, vis);
    }
  }

  lemma AllClosedMonotone(g: Graph, index: Index, mark: set<string>, stack: set<string>,
                          vis: set<Node>, vis': set<Node>)
    requires AllClosed(g, index, mark, stack, vis) && vis <= vis'
    ensures AllClosed(g, index, mark, stack, vis')
  {
    forall n | n in NodesOf(g) && n.id in mark && n.id !in stack
      ensures Closed(g, index, n, mark, vis')
    {
      assert Closed(g, index, n, mark, vis);
      SourcesDoneMonotone(index, EdgesInto(g.children, index, n), mark, vis, mark, vis');
    }
  }

  /** Once the search has finished every marked node, visibility is closed
      backwards along paths: if the end of a path is visible and marked, so
      is its start. */
  lemma {:induction false} ClosedPathVisible(g: Graph, index: Index, mark: set<string>,
                                             vis: set<Node>, p: seq<string>)
    requires Consistent(g, index) && AllClosed(g, index, mark, {}, vis)
    requires IsPath(g, index, p)
    requires Resolve(index, p[|p| - 1]).value in vis && Resolve(index, p[|p| - 1]).value.id in mark
    ensures Resolve(index, p[0]).value in vis && Resolve(index, p[0]).value.id in mark
    decreases |p|
  {
    if |p| > 1 {
      var rest := p[1..];
      assert IsPath(g, index, rest) by {
        assert forall i :: 0 <= i < |rest| ==> rest[i] == p[i + 1];
      }
      ClosedPathVisible(g, index, mark, vis, rest);
      var a, b := Resolve(index, p[0]).value, Resolve(index, p[1]).value;
      assert Step(g, index, a, b);
      var e :| EdgeEl(e) in g.children
               && Resolve(index, e.sourceId) == Some(a) && Resolve(index, e.targetId) == Some(b);
      EdgesIntoIff(g.children, index, b, e);
      ResolvedInGraph(g, index, p[1]);
      assert Closed(g, index, b, mark, vis);
      assert SourceDone(index, e, mark, vis);
    }
  }

  /** Completeness of the search: when every matching node is visible and
      marked and every marked node is finished, every node that leads to a
      match is visible. */
  lemma ClosedShowsFilteredView(g: Graph, index: Index, accept: string -> bool,
                                mark: set<string>, vis: set<Node>)
    requires Consistent(g, index) && AllClosed(g, index, mark, {}, vis)
    requires forall n :: n in NodesOf(g) && accept(n.name) ==> n in vis && n.id in mark
    ensures FilteredView(g, index, accept) <= vis
  {
    forall n | n in FilteredView(g, index, accept) ensures n in vis {
      var p :| IsPath(g, index, p) && Resolve(index, p[0]) == Some(n)
               && accept(Resolve(index, p[|p| - 1]).value.name);
      ResolvedInGraph(g, index, p[|p| - 1]);
      ClosedPathVisible(g, index, mark, vis, p);
    }
  }

  lemma SubsetCard(a: set<string>, b: set<string>)
    requires a <= b
    ensures |a| <= |b|
  {
    assert b == a + (b - a);
    assert a * (b - a) == {};
  }

  /** Marking one more id of `ids` leaves fewer of them unmarked. */
  lemma UnmarkedShrinks(ids: set<string>, mark: set<string>, mark': set<string>, x: string)
    requires x in ids && x !in mark && mark + {x} <= mark'
    ensures |ids - mark'| < |ids - mark|
  {
    var left := (ids - mark) - {x};
    assert ids - mark == left + {x};
    SubsetCard(ids - mark', left);
  }

  /** Marking more never leaves more unmarked. */
  lemma UnmarkedMonotone(ids: set<string>, mark: set<string>, mark': set<string>)
    requires mark <= mark'
    ensures |ids - mark'| <= |ids - mark|
  {
    SubsetCard(ids - mark', ids - mark);
  }

  /** The ids newly marked by consecutive phases add up. */
  lemma NewlyMarkedAdd(m0: set<string>, m1: set<string>, m2: set<string>)
    requires m0 <= m1 <= m2
    ensures |m2 - m0| == |m2 - m1| + |m1 - m0|
  {
    assert m2 - m0 == (m2 - m1) + (m1 - m0);
    assert (m2 - m1) * (m1 - m0) == {};
  }

  /** Showing the source `s` of an edge into a visible node keeps the search
      invariant: finished nodes stay finished and `s` leads to a match. */
  lemma ShowSource(g: Graph, index: Index, accept: string -> bool, mark: set<string>,
                   stack: set<string>, vis: set<Node>, node: Node, edge: Edge, s: Node)
    requires Consistent(g, index) && node in vis
    requires AllClosed(g, index, mark, stack, vis) && Sound(g, index, accept, vis)
    requires edge in EdgesInto(g.children, index, node) && Resolve(index, edge.sourceId) == Some(s)
    ensures AllClosed(g, index, mark, stack, vis + {s}) && Sound(g, index, accept, vis + {s})
  {
    AllClosedMonotone(g, index, mark, stack, vis, vis + {s});
    EdgesIntoIff(g.children, index, node, edge);
    assert Step(g, index, s, node);
    ResolvedInGraph(g, index, edge.sourceId);
    StepBackReaches(g, index, accept, s, node);
  }

  /** Marking `x` and pushing it on the stack keeps every finished node
      finished. */
  lemma StartNode(g: Graph, index: Index, mark: set<string>, stack: set<string>,
                  vis: set<Node>, x: string)
    requires AllClosed(g, index, mark, stack, vis)
    ensures AllClosed(g, index, mark + {x}, stack + {x}, vis)
  {
    forall n | n in NodesOf(g) && n.id in mark + {x} && n.id !in stack + {x}
      ensures Closed(g, index, n, mark + {x}, vis)
    {
      assert Closed(g, index, n, mark, vis);
      SourcesDoneMonotone(index, EdgesInto(g.children, index, n), mark, vis, mark + {x}, vis);
    }
  }

  /** A node whose incoming sources are all done is finished: it can leave
      the search stack. */
  lemma FinishNode(g: Graph, index: Index, mark: set<string>, stack: set<string>,
                   vis: set<Node>, node: Node)
    requires Consistent(g, index) && node in NodesOf(g)
    requires AllClosed(g, index, mark, stack + {node.id}, vis)
    requires Closed(g, index, node, mark, vis)
    ensures AllClosed(g, index, mark, stack, vis)
  {
  }

  lemma SourcesDoneSnoc(index: Index, es: seq<Edge>, k: nat, mark: set<string>, vis: set<Node>)
    requires k < |es| && SourcesDone(index, es[..k], mark, vis) && SourceDone(index, es[k], mark, vis)
    ensures SourcesDone(index, es[..k + 1], mark, vis)
  {
    assert es[..k + 1] == es[..k] + [es[k]];
  }

  /** Every node element of `cs` whose name `accept` accepts has its id in
      `mark`. */
  ghost predicate MatchesMarked(cs: seq<Element>, accept: string -> bool, mark: set<string>) {
    forall j :: 0 <= j < |cs| && cs[j].NodeEl? && accept(cs[j].node.name) ==> cs[j].node.id in mark
  }

  lemma MatchesMarkedSnoc(cs: seq<Element>, i: int, accept: string -> bool, mark: set<string>, mark': set<string>)
    requires 0 <= i < |cs| && MatchesMarked(cs[..i], accept, mark) && mark <= mark'
    requires cs[i].NodeEl? && accept(cs[i].node.name) ==> cs[i].node.id in mark'
    ensures MatchesMarked(cs[..i + 1], accept, mark')
  {
    var next := cs[..i + 1];
    forall j | 0 <= j < |next| && next[j].NodeEl? && accept(next[j].node.name)
      ensures next[j].node.id in mark'
    {
      if j < i {
        assert next[j] == cs[..i][j];
      }
    }
  }

  /** Every matching node of the graph, not just every matching child
      element, has its id in `mark`. */
  lemma MatchesMarkedNodes(g: Graph, accept: string -> bool, mark: set<string>)
    requires MatchesMarked(g.children, accept, mark)
    ensures forall n :: n in NodesOf(g) && accept(n.name) ==> n.id in mark
  {
    forall n | n in NodesOf(g) && accept(n.name) ensures n.id in mark {
      var j :| 0 <= j < |g.children| && g.children[j].NodeEl? && g.children[j].node == n;
    }
  }

  /** When the two counters of the first pass agree, every node matches,
      so every node must stay visible. */
  lemma AllMatchView(g: Graph, index: Index, accept: string -> bool)
    requires Consistent(g, index)
    requires MatchCount(g.children, accept) == NodeCount(g.children)
    ensures forall n :: n in NodesOf(g) ==> accept(n.name)
    ensures FilteredView(g, index, accept) == NodesOf(g)
  {
    MatchCountIff(g.children, accept);
    forall n | n in NodesOf(g) ensures accept(n.name) && ReachesMatch(g, index, accept, n) {
      var i :| 0 <= i < |g.children| && g.children[i].NodeEl? && g.children[i].node == n;
      MatchReaches(g, index, accept, n);
    }
  }

  /** The visible set is `FilteredView` exactly when each node's flag says
      whether it leads to a match. */
  lemma VisibleIff(g: Graph, index: Index, accept: string -> bool)
    requires Visible(g) == FilteredView(g, index, accept)
    ensures forall n :: n in NodesOf(g) ==> (!n.hidden <==> ReachesMatch(g, index, accept, n))
  {
    forall n | n in NodesOf(g) ensures !n.hidden <==> ReachesMatch(g, index, accept, n) {
      assert n in Visible(g) <==> !n.hidden;
      assert n in FilteredView(g, index, accept) <==> ReachesMatch(g, index, accept, n);
    }
  }

  class DependencyGraphFilter {
    var nameFilter: string -> bool

    constructor ()
      ensures forall name :: nameFilter(name)
    {
      nameFilter := (name: string) => true;
    }

    /** Replaces the predicate by the one compiled from `text`. */
    method SetFilter(text: string)
      modifies this
      ensures nameFilter == Compile(text)
    {
      nameFilter := Compile(text);
    }

    /** Shows exactly the nodes that match `nameFilter` or lead to a node
        that does along edges whose endpoints resolve to nodes; only the
        nodes' `hidden` flags change. */
    method Refresh(g: Graph, index: Index)
      requires Consistent(g, index)
      modifies NodesOf(g)
      ensures forall n :: n in NodesOf(g) ==> (!n.hidden <==> ReachesMatch(g, index, nameFilter, n))
      ensures Visible(g) == FilteredView(g, index, nameFilter)
    {
      var nodeCount, visibleCount := ApplyNameFilter(g);
      if visibleCount == nodeCount {
        AllMatchView(g, index, nameFilter);
        assert Visible(g) == NodesOf(g);
      } else {
        ghost var expansions := RestoreAncestors(g, index);
      }
      VisibleIff(g, index, nameFilter);
    }

    /** The first pass: every node is hidden exactly when its name does not
        match; returns the number of node elements and of matching ones. */
    method ApplyNameFilter(g: Graph) returns (nodeCount: nat, visibleCount: nat)
      modifies NodesOf(g)
      ensures forall n :: n in NodesOf(g) ==> n.hidden == !nameFilter(n.name)
      ensures nodeCount == NodeCount(g.children)
      ensures visibleCount == MatchCount(g.children, nameFilter)
    {
      nodeCount, visibleCount := 0, 0;
      var i := 0;
      while i < |g.children|
        invariant 0 <= i <= |g.children|
        invariant nodeCount == NodeCount(g.children[..i])
        invariant visibleCount == MatchCount(g.children[..i], nameFilter)
        invariant forall j :: 0 <= j < i && g.children[j].NodeEl? ==>
                    g.children[j].node.hidden == !nameFilter(g.children[j].node.name)
      {
        var element := g.children[i];
        assert g.children[..i + 1][..i] == g.children[..i];
        if element.NodeEl? {
          NodeOfChild(g, i);
          var visible := nameFilter(element.node.name);
          element.node.hidden := !visible;
          nodeCount := nodeCount + 1;
          if visible {
            visibleCount := visibleCount + 1;
          }
        }
        i := i + 1;
      }
      assert g.children[..i] == g.children;
    }

    /** The second pass: from every node the first pass left visible, shows
        every node that leads to it. Flags only ever go from hidden to
        shown. As a ghost, returns the number of expansions of `Dfs` past
        its mark test: at most one per node id. */
    method RestoreAncestors(g: Graph, index: Index) returns (ghost expansions: nat)
      requires Consistent(g, index)
      requires forall n :: n in NodesOf(g) ==> n.hidden == !nameFilter(n.name)
      modifies NodesOf(g)
      ensures old(Visible(g)) <= Visible(g)
      ensures Visible(g) == FilteredView(g, index, nameFilter)
      ensures expansions <= |NodeIds(g)|
    {
      ghost var accept := nameFilter;
      var incoming := CreateIncomingMap(g, index);
      var dfsMark: set<string> := {};
      expansions := 0;
      ghost var vis := Visible(g);
      forall n | n in vis ensures ReachesMatch(g, index, accept, n) {
        MatchReaches(g, index, accept, n);
      }
      var i := 0;
      while i < |g.children|
        invariant 0 <= i <= |g.children|
        invariant vis == Visible(g)
        invariant forall n :: n in NodesOf(g) && accept(n.name) ==> n in vis
        invariant AllClosed(g, index, dfsMark, {}, vis)
        invariant Sound(g, index, accept, vis)
        invariant MatchesMarked(g.children[..i], accept, dfsMark)
        invariant dfsMark <= NodeIds(g)
        invariant expansions == |dfsMark|
      {
        var element := g.children[i];
        ghost var mark0 := dfsMark;
        if element.NodeEl? {
          NodeOfChild(g, i);
          if !element.node.hidden {
            ghost var more;
            dfsMark, more := Dfs(g, index, incoming, element.node, dfsMark, {}, accept);
            vis := Visible(g);
            NewlyMarkedAdd({}, mark0, dfsMark);
            expansions := expansions + more;
          }
        }
        MatchesMarkedSnoc(g.children, i, accept, mark0, dfsMark);
        i := i + 1;
      }
      assert g.children[..i] == g.children;
      MatchesMarkedNodes(g, accept, dfsMark);
      ClosedShowsFilteredView(g, index, accept, dfsMark, vis);
      SubsetCard(dfsMark, NodeIds(g));
    }

    /** Maps each node to the edges among the graph's children whose target
        resolves to it, in order: `incoming.get(n) || []` is exactly
        `EdgesInto(g.children, index, n)`. */
    method CreateIncomingMap(g: Graph, index: Index) returns (incoming: map<Node, seq<Edge>>)
      ensures forall n :: n in incoming <==> EdgesInto(g.children, index, n) != []
      ensures forall n :: n in incoming ==> incoming[n] == EdgesInto(g.children, index, n)
    {
      incoming := map[];
      var i := 0;
      while i < |g.children|
        invariant 0 <= i <= |g.children|
        invariant forall n :: n in incoming <==> EdgesInto(g.children[..i], index, n) != []
        invariant forall n :: n in incoming ==> incoming[n] == EdgesInto(g.children[..i], index, n)
      {
        var element := g.children[i];
        assert g.children[..i + 1][..i] == g.children[..i];
        if element.EdgeEl? {
          var target := Resolve(index, element.edge.targetId);
          if target.Some? {
            var t := target.value;
            if t in incoming {
              incoming := incoming[t := incoming[t] + [element.edge]];
            } else {
              incoming := incoming[t := [element.edge]];
            }
          }
        }
        i := i + 1;
      }
      assert g.children[..i] == g.children;
    }

    /** Expands `node` unless its id is marked: marks it, and for every
        incoming edge whose source resolves to a node, shows that node and
        expands it. `stack` holds the ids of the expansions in progress
        around this call. Returns the new mark set and, as a ghost, how many
        nodes this call expanded: exactly the number it newly marked. */
    method Dfs(g: Graph, index: Index, incoming: map<Node, seq<Edge>>, node: Node,
               mark: set<string>, ghost stack: set<string>, ghost accept: string -> bool)
      returns (mark': set<string>, ghost expanded: nat)
      requires Consistent(g, index) && IncomingExact(g, index, incoming)
      requires node in NodesOf(g) && !node.hidden
      requires stack <= mark
      requires AllClosed(g, index, mark, stack, Visible(g))
      requires Sound(g, index, accept, Visible(g))
      modifies NodesOf(g)
      decreases |NodeIds(g) - mark|, 1
      ensures mark <= mark' && node.id in mark' && mark' - mark <= NodeIds(g)
      ensures node.id in mark ==> mark' == mark && Visible(g) == old(Visible(g))
      ensures expanded == |mark' - mark|
      ensures old(Visible(g)) <= Visible(g)
      ensures AllClosed(g, index, mark', stack, Visible(g))
      ensures Sound(g, index, accept, Visible(g))
    {
      if node.id in mark {
        return mark, 0;
      }
      StartNode(g, index, mark, stack, Visible(g), node.id);
      assert node.id in NodeIds(g);
      UnmarkedShrinks(NodeIds(g), mark, mark + {node.id}, node.id);
      var edges := IncomingOf(incoming, node);
      assert edges == EdgesInto(g.children, index, node);
      ghost var more;
      mark', more := ExpandSources(g, index, incoming, node, edges, mark + {node.id}, stack + {node.id}, accept);
      NewlyMarkedAdd(mark, mark + {node.id}, mark');
      expanded := more + 1;
      FinishNode(g, index, mark', stack, Visible(g), node);
    }

    /** The loop of `dfs` over the edges into `node`, whose id is marked and
        on the stack: afterwards every one of those edges whose source
        resolves to a node has that source visible and marked. */
    method ExpandSources(g: Graph, index: Index, incoming: map<Node, seq<Edge>>, node: Node,
                         edges: seq<Edge>, mark: set<string>, ghost stack: set<string>,
                         ghost accept: string -> bool)
      returns (mark': set<string>, ghost expanded: nat)
      requires Consistent(g, index) && IncomingExact(g, index, incoming)
      requires node in Visible(g) && edges == EdgesInto(g.children, index, node)
      requires stack <= mark
      requires AllClosed(g, index, mark, stack, Visible(g))
      requires Sound(g, index, accept, Visible(g))
      modifies NodesOf(g)
      decreases |NodeIds(g) - mark| + 1, 0
      ensures mark <= mark' && mark' - mark <= NodeIds(g)
      ensures expanded == |mark' - mark|
      ensures old(Visible(g)) <= Visible(g)
      ensures AllClosed(g, index, mark', stack, Visible(g))
      ensures Sound(g, index, accept, Visible(g))
      ensures SourcesDone(index, edges, mark', Visible(g))
    {
      mark', expanded := mark, 0;
      ghost var vis := Visible(g);
      var k := 0;
      while k < |edges|
        invariant 0 <= k <= |edges|
        invariant mark <= mark' && mark' - mark <= NodeIds(g)
        invariant expanded == |mark' - mark|
        invariant vis == Visible(g) && old(Visible(g)) <= vis && node in vis
        invariant AllClosed(g, index, mark', stack, vis)
        invariant Sound(g, index, accept, vis)
        invariant SourcesDone(index, edges[..k], mark', vis)
      {
        ghost var vis0, mark0 := vis, mark';
        UnmarkedMonotone(NodeIds(g), mark, mark');
        ghost var more;
        mark', more := VisitSource(g, index, incoming, node, edges[k], mark', stack, accept);
        vis := Visible(g);
        NewlyMarkedAdd(mark, mark0, mark');
        expanded := expanded + more;
        SourcesDoneMonotone(index, edges[..k], mark0, vis0, mark', vis);
        SourcesDoneSnoc(index, edges, k, mark', vis);
        k := k + 1;
      }
      assert edges[..k] == edges;
    }

    /** One iteration of the loop over the edges into `node`: when
        the edge's source resolves to a node, shows that node and expands
        it; otherwise does nothing. Afterwards the edge's source, if any, is
        visible and marked. */
    method VisitSource(g: Graph, index: Index, incoming: map<Node, seq<Edge>>, node: Node,
                       edge: Edge, mark: set<string>, ghost stack: set<string>, ghost accept: string -> bool)
      returns (mark': set<string>, ghost expanded: nat)
      requires Consistent(g, index) && IncomingExact(g, index, incoming)
      requires node in Visible(g) && edge in EdgesInto(g.children, index, node)
      requires stack <= mark
      requires AllClosed(g, index, mark, stack, Visible(g))
      requires Sound(g, index, accept, Visible(g))
      modifies NodesOf(g)
      decreases |NodeIds(g) - mark|, 2
      ensures mark <= mark' && mark' - mark <= NodeIds(g)
      ensures expanded == |mark' - mark|
      ensures old(Visible(g)) <= Visible(g)
      ensures AllClosed(g, index, mark', stack, Visible(g))
      ensures Sound(g, index, accept, Visible(g))
      ensures SourceDone(index, edge, mark', Visible(g))
      ensures Resolve(index, edge.sourceId).None? ==> mark' == mark && expanded == 0 && Visible(g) == old(Visible(g))
    {
      var source := Resolve(index, edge.sourceId);
      if source.Some? {
        var s := source.value;
        ResolvedInGraph(g, index, edge.sourceId);
        ghost var vis0 := Visible(g);
        Show(g, s);
        ShowSource(g, index, accept, mark, stack, vis0, node, edge, s);
        mark', expanded := Dfs(g, index, incoming, s, mark, stack, accept);
      } else {
        mark', expanded := mark, 0;
      }
    }
  }
}
