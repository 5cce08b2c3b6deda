# Dependency graph filter

This project models `DependencyGraphFilter` from the depgraph-navigator
diagram view, which shows a package's dependency graph. A user types filter
text. `setFilter` compiles the text into a predicate on node names:

- the text is trimmed;
- a leading and a trailing space ask for an exact match;
- a leading space alone asks for a prefix match;
- a trailing space alone asks for a suffix match;
- any other text is a substring search;
- empty text accepts every name.

`refresh` then hides or shows every node of the graph in two passes:

1. Pass 1 sets each node's `hidden` flag from the predicate.
2. Pass 2 runs only when some node was hidden. It builds the map from each
   node to its incoming edges. Then it searches backwards, depth first, from
   every visible node. Each source node it reaches becomes visible again, and
   a shared mark set keeps any node from being expanded twice.

The result: a node stays visible exactly when it matches, or when a directed
path leads from it to a node that matches.

Files:

- `name_filter.dfy` (module `NameFilter`) covers the text language. It
  defines `String.prototype.trim`, `startsWith`, `endsWith` and `indexOf` on
  `seq<char>`, plus `Compile`, the predicate `setFilter` installs. Lemmas
  characterise each branch of `Compile`.
- `graph_model.dfy` (module `GraphModel`) holds the data the filter works on:
  - `Node`, a class with the mutable `hidden` flag;
  - `Edge`, a value with `sourceId` and `targetId`;
  - `Element`, the tagged variant `isNode`/`isEdge` tell apart;
  - `Graph`, the flat children list;
  - `Index`, map-based: `getById` followed by `isNode` is `Resolve`.

  It also defines the relation the filter navigates. `Step(a, b)` holds when
  some edge's endpoints resolve to `a` and `b`. `IsPath` is a path of such
  steps, written as a sequence of ids. `ReachesMatch` says a path leads to a
  match, and `FilteredView` is the set of nodes that must stay visible.
- `graph_filter.dfy` (module `GraphFilter`) holds the class
  `DependencyGraphFilter`:
  - its field `nameFilter`;
  - `SetFilter`;
  - `Refresh`, split into `ApplyNameFilter` (pass 1) and `RestoreAncestors`
    (pass 2);
  - `CreateIncomingMap`;
  - the recursive `Dfs`;
  - the invariants that prove the search shows exactly `FilteredView`.

The top-level methods (`SetFilter`, `ApplyNameFilter`, `CreateIncomingMap`,
`RestoreAncestors`, `Refresh`) and `Show` specify their new state against a
function of their inputs. The three search methods (`Dfs`, `ExpandSources`,
`VisitSource`) only bound theirs: marks only grow and flags only go from
hidden to shown. They also keep the invariants `AllClosed` and `Sound`, from
which `RestoreAncestors` derives its exact result. The central results:

- `Refresh` leaves node `n` visible iff `ReachesMatch(g, index, nameFilter, n)`.
- `CreateIncomingMap` returns exactly `EdgesInto` for every node.
- `Dfs` terminates on cycles and self-loops. Its measure is the number of
  unmarked node ids.

`Refresh`'s postcondition fixes every flag as a function of the graph, the
index and the predicate alone. A second `Refresh` with the same filter
therefore leaves the same flags: the operation is idempotent.

## Model

| member | source | states |
|---|---|---|
| NameFilter.IsWhitespace | depgraph-navigator/src/browser/graph/graph-filter.ts:20 | definition (no contract): the characters `trim()` removes, the ECMAScript WhiteSpace and LineTerminator code points |
| NameFilter.Trim | depgraph-navigator/src/browser/graph/graph-filter.ts:20 | definition (no contract): `text.trim()` is `TrimIn` for the class `IsWhitespace`, so the properties stated for `TrimIn` and `TrimPadded` are those of `trim()` |
| NameFilter.TrimIn | depgraph-navigator/src/browser/graph/graph-filter.ts:20 | the result is an infix of the text with only characters of the given class removed on each side, it neither starts nor ends with such a character, and it is empty exactly when the whole text is of that class; `Trim` is this with the whitespace class |
| NameFilter.TrimPadded | depgraph-navigator/src/browser/graph/graph-filter.ts:20 | trimming whitespace, then a core that neither starts nor ends with whitespace, then whitespace, gives back exactly the core |
| NameFilter.IndexOfFrom | depgraph-navigator/src/browser/graph/graph-filter.ts:30 | the result is -1 or the first position at or after `from` where the needle occurs; it is -1 exactly when there is no such position |
| NameFilter.Compile | depgraph-navigator/src/browser/graph/graph-filter.ts:19-31 | definition (no contract): the predicate `setFilter` installs, branch for branch in the order of the source; what each branch accepts is stated by the `Compile…` lemmas below |
| NameFilter.StartsWith | depgraph-navigator/src/browser/graph/graph-filter.ts:23-26 | definition (no contract): `s.startsWith(p)`, the first `|p|` characters of `s` are `p`; `StartsWithIff` characterises it |
| NameFilter.EndsWith | depgraph-navigator/src/browser/graph/graph-filter.ts:23-28 | definition (no contract): `s.endsWith(p)`, the last `|p|` characters of `s` are `p`; `EndsWithIff` characterises it |
| NameFilter.IndexOf | depgraph-navigator/src/browser/graph/graph-filter.ts:30 | definition (no contract): `s.indexOf(t)`, which is `IndexOfFrom` from position 0; `IndexOfIff` characterises it |
| NameFilter.StartsWithIff | depgraph-navigator/src/browser/graph/graph-filter.ts:26 | `startsWith(p)` holds exactly when the string is `p` followed by something |
| NameFilter.EndsWithIff | depgraph-navigator/src/browser/graph/graph-filter.ts:28 | `endsWith(p)` holds exactly when the string is something followed by `p` |
| NameFilter.IndexOfIff | depgraph-navigator/src/browser/graph/graph-filter.ts:30 | `indexOf(t) >= 0` exactly when `t` is an infix of the string |
| NameFilter.CompileAcceptsAllIff | depgraph-navigator/src/browser/graph/graph-filter.ts:20-22 | the compiled predicate accepts every name if and only if the text is empty or all whitespace |
| NameFilter.CompileExact | depgraph-navigator/src/browser/graph/graph-filter.ts:23-24 | text with a space at both ends accepts exactly the name equal to the trimmed text; the exact test takes precedence over the prefix and suffix tests |
| NameFilter.CompilePrefix | depgraph-navigator/src/browser/graph/graph-filter.ts:25-26 | text with a leading space only accepts exactly the names that begin with the trimmed text |
| NameFilter.CompileSuffix | depgraph-navigator/src/browser/graph/graph-filter.ts:27-28 | text with a trailing space only accepts exactly the names that end with the trimmed text |
| NameFilter.CompileSubstring | depgraph-navigator/src/browser/graph/graph-filter.ts:29-30 | all other non-blank text accepts exactly the names that contain the trimmed text, case-sensitively |
| GraphModel.Resolve | depgraph-navigator/src/browser/graph/graph-filter.ts:90-91 | definition (no contract): `index.getById(id)` followed by `isNode`, the node stored under `id`, or nothing when the id is absent or names another kind of element |
| GraphModel.ResolvedInGraph | depgraph-navigator/src/browser/graph/graph-filter.ts:90-91 | for an index built from the graph, `getById` followed by `isNode` only ever yields one of the graph's nodes; this restates the second half of the index assumption `Consistent` as a fact about the lookup |
| GraphModel.ResolveOwnId | depgraph-navigator/src/browser/graph/graph-filter.ts:67-68 | for an index built from the graph, looking up the id of any of its nodes yields that very node; this restates the first half of the index assumption `Consistent` as a fact about the lookup |
| GraphModel.EdgesIntoIff | depgraph-navigator/src/browser/graph/graph-filter.ts:65-76 | the edges collected for a node are exactly the graph's edges whose target id resolves to that node |
| GraphModel.MatchCountIff | depgraph-navigator/src/browser/graph/graph-filter.ts:42-48 | the count of matching nodes never exceeds the count of nodes, and the two are equal exactly when every node matches |
| GraphModel.MatchReaches | depgraph-navigator/src/browser/graph/graph-filter.ts:40-41 | a node whose name matches must stay visible (the path with no edges) |
| GraphModel.StepBackReaches | depgraph-navigator/src/browser/graph/graph-filter.ts:89-93 | the source of an edge into a node that must stay visible must stay visible too |
| GraphModel.DanglingStepIff | depgraph-navigator/src/browser/graph/graph-filter.ts:67-68 | an edge whose source or target does not resolve to a node, inserted at any position among the children, adds no step between nodes |
| GraphModel.DanglingEdgeIgnored | depgraph-navigator/src/browser/graph/graph-filter.ts:90-91 | inserting such an edge at any position among the children changes neither the nodes nor the set of nodes that must stay visible |
| GraphModel.Show | depgraph-navigator/src/browser/graph/graph-filter.ts:92 | the shown node is visible afterwards and the visible set grows by exactly that node |
| GraphFilter.IncomingOf | depgraph-navigator/src/browser/graph/graph-filter.ts:89 | definition (no contract): `incoming.get(node)`, or the empty list when the node has no entry; with `IncomingExact` it equals `EdgesInto` for every node, as `Dfs` asserts |
| GraphFilter.AllMatchView | depgraph-navigator/src/browser/graph/graph-filter.ts:47-48 | when the two counters of the first pass agree, every node matches and every node must stay visible, so returning early is correct |
| GraphFilter.VisibleIff | depgraph-navigator/src/browser/graph/graph-filter.ts:33-60 | once the visible set is `FilteredView`, each node is visible exactly when it leads to a match |
| GraphFilter.MatchesMarkedNodes | depgraph-navigator/src/browser/graph/graph-filter.ts:55-57 | once pass 2 has started a search from every matching child element, every matching node of the graph is marked |
| GraphFilter.ClosedPathVisible | depgraph-navigator/src/browser/graph/graph-filter.ts:86-94 | once the search has finished every marked node, and the last node of a path is visible and marked, then so is its first node |
| GraphFilter.ClosedShowsFilteredView | depgraph-navigator/src/browser/graph/graph-filter.ts:55-59 | once the search has finished from every matching node, every node that must stay visible is visible |
| GraphFilter.UnmarkedShrinks | depgraph-navigator/src/browser/graph/graph-filter.ts:86-88 | marking an unmarked node id strictly shrinks the set of unmarked ids, which is why `dfs` terminates on cycles |
| GraphFilter.DependencyGraphFilter.constructor | depgraph-navigator/src/browser/graph/graph-filter.ts:17 | the initial predicate accepts every name |
| GraphFilter.DependencyGraphFilter.SetFilter | depgraph-navigator/src/browser/graph/graph-filter.ts:19-31 | the stored predicate becomes the one compiled from the text; nothing else changes |
| GraphFilter.DependencyGraphFilter.Refresh | depgraph-navigator/src/browser/graph/graph-filter.ts:33-60 | afterwards a node is visible if and only if it matches or has a path of resolvable edges to a node that matches; the visible set equals `FilteredView` |
| GraphFilter.DependencyGraphFilter.ApplyNameFilter | depgraph-navigator/src/browser/graph/graph-filter.ts:34-46 | every node is hidden exactly when its name is rejected; it returns the number of node elements and the number of matching ones |
| GraphFilter.DependencyGraphFilter.RestoreAncestors | depgraph-navigator/src/browser/graph/graph-filter.ts:50-59 | starting from the pass-1 flags, it only makes nodes visible and ends with exactly `FilteredView` visible; the number of expansions is at most the number of node ids |
| GraphFilter.DependencyGraphFilter.CreateIncomingMap | depgraph-navigator/src/browser/graph/graph-filter.ts:62-80 | a node is a key exactly when some edge's target resolves to it, and its entry lists exactly those edges in children order; edges whose target does not resolve are skipped |
| GraphFilter.DependencyGraphFilter.Dfs | depgraph-navigator/src/browser/graph/graph-filter.ts:82-96 | a marked node returns at once with nothing changed; otherwise the node ends marked, flags only go from hidden to shown, every visible node still leads to a match, every finished node has all resolvable sources visible and marked, and the number of expansions equals the number of newly marked ids |
| GraphFilter.DependencyGraphFilter.ExpandSources | depgraph-navigator/src/browser/graph/graph-filter.ts:89-95 | after the loop over the edges into the node, the source of each of them that resolves to a node is visible and marked; marks only grow, flags only go from hidden to shown, and visible nodes still lead to a match |
| GraphFilter.DependencyGraphFilter.VisitSource | depgraph-navigator/src/browser/graph/graph-filter.ts:90-94 | an edge whose source resolves to a node leaves that node visible and marked; an edge whose source does not resolve changes nothing |

## Left out

- Dependency injection (`@injectable`) and the diagram framework around the class are not modelled. The same goes for the graph view code that calls `setFilter` and `refresh`: graph-views.tsx is not part of this model.
- The index is a map from id to element. `Consistent` requires it to hold exactly the graph's nodes, each under its own id. In the original, the index is built from the same graph by the framework, and the model takes that as a precondition of `Refresh`.
- Only the `hidden` flag of a node is mutable. The graph's children list and its edges are values, so they provably cannot change. Nodes are compared by reference (`Node` is a class), which matches the `Map` keyed by node objects.
- The mark table `{ [id: string]: boolean }` is a `set<string>` that `Dfs` receives and returns, rather than an object shared by reference. The model starts from an empty set, but the original starts from a plain `{}` object, and properties inherited from `Object.prototype` are truthy there. So for a node whose id is `constructor`, `__proto__`, `toString`, `valueOf`, `hasOwnProperty` or another such name, `mark[node.id]` holds before any marking and `dfs` returns without expanding the node. Its ancestors are then shown only when another path reaches them. For graphs with such ids the original does not establish the property proved of `Refresh` (visible exactly when leading to a match); the model proves it for the evidently intended empty mark table.
- Trimming uses the ECMAScript WhiteSpace and LineTerminator characters. Strings are Dafny strings of Unicode characters, not JavaScript's UTF-16 code units, so surrogate pairs are not modelled. No normalisation is done.
- `dfs` is modelled by three mutually recursive methods: `Dfs` (the mark test and marking), `ExpandSources` (its loop over the incoming edges) and `VisitSource` (one iteration of that loop). The split keeps each proof small; the behaviour is that of the one function.
- The name predicate is passed to the search as a ghost parameter `accept`, so that its invariant can say that every visible node leads to a match. The original reads it from the object; the predicate does not change during `refresh`.
- Dfs: requires its node to be visible. Both call sites guarantee this: pass 2 starts only from visible nodes, and `dfs` shows a source before recursing into it.
- RestoreAncestors: the bound on expansions is a ghost result. The model has no cost counter of its own.
- The short-circuit in `refresh` (all nodes matched, so no map is built) is modelled as a branch of `Refresh`. Its effect is stated only through `Refresh`'s postcondition: every node is visible.
