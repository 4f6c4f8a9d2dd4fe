/** When the measured depth is that of the longest path: exactly when some longest path is
    the depth-first path to its last node, and always on trees. */
module ClosureDepth {
  import opened Basics
  import opened WitCapability
  import opened ClosureWalk
  import opened WasmClosure

  // ------------------------------------------------------------------ depth-first paths

  /** The stack at the first visit of each node, the node included. */
  type Stacks = map<string, seq<string>>

  function DfsStacks(adj: Adjacency, stacks: Stacks, path: seq<string>, id: string): (r: Stacks)
    requires Closed(adj) && id in adj && stacks.Keys <= adj.Keys
    ensures stacks.Keys <= r.Keys <= adj.Keys
    decreases adj.Keys - stacks.Keys, 0
  {
    if id in stacks then stacks
    else
      assert id in adj.Keys - stacks.Keys && id !in adj.Keys - stacks[id := path + [id]].Keys;
      DfsStacksAll(adj, stacks[id := path + [id]], path + [id], adj[id])
  }

  function DfsStacksAll(adj: Adjacency, stacks: Stacks, path: seq<string>, next: seq<string>): (r: Stacks)
    requires Closed(adj) && stacks.Keys <= adj.Keys
    requires forall i :: 0 <= i < |next| ==> next[i] in adj
    ensures stacks.Keys <= r.Keys <= adj.Keys
    decreases adj.Keys - stacks.Keys, |next| + 1
  {
    if next == [] then stacks
    else
      DfsStacksAll(adj, DfsStacks(adj, stacks, path, next[0]), path, next[1..])
  }

  ghost function DepthFirstPaths(adj: Adjacency, entry: string): Stacks
    requires Closed(adj) && entry in adj
  {
    DfsStacks(adj, map[], [], entry)
  }

  /** The path is the depth-first path to its last node. */
  ghost predicate IsDepthFirst(adj: Adjacency, entry: string, p: seq<string>)
    requires Closed(adj) && entry in adj
  {
    |p| > 0 && p[|p| - 1] in DepthFirstPaths(adj, entry) && DepthFirstPaths(adj, entry)[p[|p| - 1]] == p
  }

  /** No path from the entry has more nodes. */
  ghost predicate IsLongest(adj: Adjacency, entry: string, p: seq<string>) {
    PathFrom(adj, entry, p) && forall q :: PathFrom(adj, entry, q) ==> |q| <= |p|
  }

  // ------------------------------------------------------------------ the walk measures exactly these

  predicate Longest(stacks: Stacks, n: nat) {
    && (forall k :: k in stacks ==> |stacks[k]| <= n)
    && (n == 0 || exists k :: k in stacks && |stacks[k]| == n)
  }

  /** The stacks of the nodes visited so far; the measured depth is that of the longest. */
  ghost predicate Measures(stacks: Stacks, state: map<string, Visit>, maxDepth: nat) {
    stacks.Keys == state.Keys && Longest(stacks, maxDepth)
  }

  lemma PushMeasures(stacks: Stacks, state: map<string, Visit>, maxDepth: nat, path: seq<string>, id: string)
    requires Measures(stacks, state, maxDepth) && id !in state
    ensures Measures(stacks[id := path + [id]], state[id := Visiting], Max(maxDepth, |path| + 1))
  {
    var s := stacks[id := path + [id]];
    if |path| + 1 <= maxDepth {
      var k :| k in stacks && |stacks[k]| == maxDepth;
      assert k in s && |s[k]| == maxDepth;
    } else {
      assert id in s && |s[id]| == |path| + 1;
    }
  }

  lemma {:induction false} DfsMeasures(
    adj: Adjacency, stacks: Stacks, state: map<string, Visit>, maxDepth: nat, path: seq<string>, id: string)
    requires Closed(adj) && id in adj && state.Keys <= adj.Keys && Measures(stacks, state, maxDepth)
    ensures var r := Dfs(adj, state, maxDepth, id, |path| + 1);
            r.ok ==> Measures(DfsStacks(adj, stacks, path, id), r.state, r.maxDepth)
    decreases adj.Keys - state.Keys, 0
  {
    if id !in state {
      PushMeasures(stacks, state, maxDepth, path, id);
      assert id in adj.Keys - state.Keys && id !in adj.Keys - state[id := Visiting].Keys;
      DfsAllMeasures(adj, stacks[id := path + [id]], state[id := Visiting], Max(maxDepth, |path| + 1), path + [id],
                     adj[id]);
      FinishedIsVisited(adj, state[id := Visiting], Max(maxDepth, |path| + 1), adj[id], |path| + 2, id);
    }
  }

  /** Finishing a visited node adds no key. */
  lemma FinishedIsVisited(adj: Adjacency, state: map<string, Visit>, maxDepth: nat, next: seq<string>, depth: nat,
                          id: string)
    requires Closed(adj) && state.Keys <= adj.Keys && forall i :: 0 <= i < |next| ==> next[i] in adj
    requires id in state
    ensures var r := DfsAll(adj, state, maxDepth, next, depth);
            Finish(r, id).state.Keys == r.state.Keys
  {
    var r := DfsAll(adj, state, maxDepth, next, depth);
    assert id in r.state.Keys;
  }

  lemma {:induction false} DfsAllMeasures(
    adj: Adjacency, stacks: Stacks, state: map<string, Visit>, maxDepth: nat, path: seq<string>, next: seq<string>)
    requires Closed(adj) && state.Keys <= adj.Keys && Measures(stacks, state, maxDepth)
    requires forall i :: 0 <= i < |next| ==> next[i] in adj
    ensures var r := DfsAll(adj, state, maxDepth, next, |path| + 1);
            r.ok ==> Measures(DfsStacksAll(adj, stacks, path, next), r.state, r.maxDepth)
    decreases adj.Keys - state.Keys, |next| + 1
  {
    if next != [] {
      DfsMeasures(adj, stacks, state, maxDepth, path, next[0]);
      var r := Dfs(adj, state, maxDepth, next[0], |path| + 1);
      if r.ok {
        DfsAllMeasures(adj, DfsStacks(adj, stacks, path, next[0]), r.state, r.maxDepth, path, next[1..]);
      }
    }
  }

  ghost predicate StacksReach(adj: Adjacency, entry: string, stacks: Stacks) {
    forall k :: k in stacks ==> PathFrom(adj, entry, stacks[k]) && stacks[k][|stacks[k]| - 1] == k
  }

  lemma {:induction false} DfsStacksReach(adj: Adjacency, entry: string, stacks: Stacks, path: seq<string>, id: string)
    requires Closed(adj) && id in adj && stacks.Keys <= adj.Keys && StacksReach(adj, entry, stacks)
    requires path != [] ==> PathFrom(adj, entry, path)
    requires Enters(adj, entry, path, id)
    ensures StacksReach(adj, entry, DfsStacks(adj, stacks, path, id))
    decreases adj.Keys - stacks.Keys, 0
  {
    if id !in stacks {
      PathExtends(adj, entry, path, id);
      assert id in adj.Keys - stacks.Keys && id !in adj.Keys - stacks[id := path + [id]].Keys;
      DfsStacksAllReach(adj, entry, stacks[id := path + [id]], path + [id], adj[id]);
    }
  }

  lemma {:induction false} DfsStacksAllReach(adj: Adjacency, entry: string, stacks: Stacks, path: seq<string>,
                                             next: seq<string>)
    requires Closed(adj) && stacks.Keys <= adj.Keys && StacksReach(adj, entry, stacks)
    requires PathFrom(adj, entry, path)
    requires forall i :: 0 <= i < |next| ==> next[i] in adj && Enters(adj, entry, path, next[i])
    ensures StacksReach(adj, entry, DfsStacksAll(adj, stacks, path, next))
    decreases adj.Keys - stacks.Keys, |next| + 1
  {
    if next != [] {
      DfsStacksReach(adj, entry, stacks, path, next[0]);
      DfsStacksAllReach(adj, entry, DfsStacks(adj, stacks, path, next[0]), path, next[1..]);
    }
  }

  /** The measured depth is the length of the longest depth-first path. */
  lemma WalkMeasuresDepthFirst(adj: Adjacency, entry: string)
    requires Closed(adj) && entry in adj && WholeWalk(adj, entry).ok
    ensures Longest(DepthFirstPaths(adj, entry), WholeWalk(adj, entry).maxDepth)
    ensures StacksReach(adj, entry, DepthFirstPaths(adj, entry))
  {
    DfsMeasures(adj, map[], map[], 0, [], entry);
    DfsStacksReach(adj, entry, map[], [], entry);
  }

  ghost predicate HasDepthFirstLongerThan(adj: Adjacency, entry: string, n: int)
    requires Closed(adj) && entry in adj
  {
    exists p :: IsDepthFirst(adj, entry, p) && |p| > n
  }

  lemma MeasuresDepthFirst(adj: Adjacency, entry: string, n: int)
    requires Closed(adj) && entry in adj && WholeWalk(adj, entry).ok
    ensures WholeWalk(adj, entry).maxDepth > n <==> HasDepthFirstLongerThan(adj, entry, n)
  {
    var stacks, depth := DepthFirstPaths(adj, entry), WholeWalk(adj, entry).maxDepth;
    WalkMeasuresDepthFirst(adj, entry);
    EntryPath(adj, entry);
    MeasuredDepth(adj, entry, [entry]);
    if depth > n {
      var k :| k in stacks && |stacks[k]| == depth;
      assert IsDepthFirst(adj, entry, stacks[k]);
    }
  }

  /** The validator answers BUDGET_EXCEEDED exactly when, world, ABI and integrity passing, a
      count is over budget, or no cycle is reachable and some depth-first path has more nodes
      than the depth budget. */
  lemma BudgetExactly(g: Graph, m: Matrix)
    ensures FailureCode(g, m) == Some(WASM_CLOSURE_BUDGET_EXCEEDED) <==>
            && g.world == m.world && g.hostABI == m.hostABI && GraphOk(g)
            && (|| |g.nodes| > g.budget.maxNodes || |g.edges| > g.budget.maxEdges
                || (&& !CycleReachable(AdjacencyOf(g), g.entryNodeId)
                    && Closed(AdjacencyOf(g)) && g.entryNodeId in AdjacencyOf(g)
                    && HasDepthFirstLongerThan(AdjacencyOf(g), g.entryNodeId, g.budget.maxDepth)))
  {
    InterfaceCodesDiffer(g, m);
    if GraphOk(g) {
      AdjacencyIsClosed(g);
      WalkFindsCycles(AdjacencyOf(g), g.entryNodeId);
      if WholeWalk(AdjacencyOf(g), g.entryNodeId).ok {
        MeasuresDepthFirst(AdjacencyOf(g), g.entryNodeId, g.budget.maxDepth);
      }
    }
  }

  /** The measured depth is the length of the longest path if and only if some longest path
      is the depth-first path to its last node. */
  lemma MeasuresLongestIff(adj: Adjacency, entry: string, longest: seq<string>)
    requires Closed(adj) && entry in adj && WholeWalk(adj, entry).ok && IsLongest(adj, entry, longest)
    ensures WholeWalk(adj, entry).maxDepth <= |longest|
    ensures WholeWalk(adj, entry).maxDepth == |longest| <==>
            exists p :: IsLongest(adj, entry, p) && IsDepthFirst(adj, entry, p)
  {
    var stacks, depth := DepthFirstPaths(adj, entry), WholeWalk(adj, entry).maxDepth;
    WalkMeasuresDepthFirst(adj, entry);
    if p :| IsLongest(adj, entry, p) && IsDepthFirst(adj, entry, p) {
      assert |p| == |longest|;
    }
    if depth > 0 {
      var k :| k in stacks && |stacks[k]| == depth;
      if depth == |longest| {
        assert IsLongest(adj, entry, stacks[k]) && IsDepthFirst(adj, entry, stacks[k]);
      }
    }
  }

  // ------------------------------------------------------------------ one in-edge per node

  /** No two different nodes point to one node. */
  ghost predicate OneParent(adj: Adjacency) {
    forall a, b, t :: a in adj && b in adj && t in adj[a] && t in adj[b] ==> a == b
  }

  lemma NeverBackAtEntry(adj: Adjacency, entry: string, p: seq<string>)
    requires !CycleReachable(adj, entry) && PathFrom(adj, entry, p)
    ensures |p| > 1 ==> p[|p| - 1] != entry
  {
    assert !IsLasso(adj, entry, p);
  }

  /** Then a node is reached by one path only, unless a cycle is reachable. */
  lemma {:induction false} PathIsUnique(adj: Adjacency, entry: string, p: seq<string>, q: seq<string>)
    requires OneParent(adj) && !CycleReachable(adj, entry)
    requires PathFrom(adj, entry, p) && PathFrom(adj, entry, q) && p[|p| - 1] == q[|q| - 1]
    ensures p == q
    decreases |p|
  {
    if |p| == 1 || |q| == 1 {
      NeverBackAtEntry(adj, entry, p);
      NeverBackAtEntry(adj, entry, q);
    } else {
      var a, b := p[|p| - 2], q[|q| - 2];
      assert p[|p| - 1] in adj[a] && q[|q| - 1] in adj[b];
      PathIsUnique(adj, entry, p[..|p| - 1], q[..|q| - 1]);
      assert p == p[..|p| - 1] + [p[|p| - 1]] && q == q[..|q| - 1] + [q[|q| - 1]];
    }
  }

  /** Then no path is longer than the measured depth. */
  lemma TreeDepthIsLongest(adj: Adjacency, entry: string, p: seq<string>)
    requires Closed(adj) && entry in adj && WholeWalk(adj, entry).ok && OneParent(adj) && PathFrom(adj, entry, p)
    ensures |p| <= WholeWalk(adj, entry).maxDepth
  {
    WalkFindsCycles(adj, entry);
    MeasuredDepth(adj, entry, p);
    var q :| PathFrom(adj, entry, q) && q[|q| - 1] == p[|p| - 1] && |q| <= WholeWalk(adj, entry).maxDepth;
    PathIsUnique(adj, entry, p, q);
  }

  ghost predicate HasPathLongerThan(adj: Adjacency, entry: string, n: int) {
    exists p :: PathFrom(adj, entry, p) && |p| > n
  }

  /** On such a graph the validator answers BUDGET_EXCEEDED exactly when, world, ABI and
      integrity passing, a count is over budget, or no cycle is reachable and some path has
      more nodes than the depth budget. */
  lemma BudgetExactlyOnTrees(g: Graph, m: Matrix)
    requires GraphOk(g) ==> OneParent(AdjacencyOf(g))
    ensures FailureCode(g, m) == Some(WASM_CLOSURE_BUDGET_EXCEEDED) <==>
            && g.world == m.world && g.hostABI == m.hostABI && GraphOk(g)
            && (|| |g.nodes| > g.budget.maxNodes || |g.edges| > g.budget.maxEdges
                || (!CycleReachable(AdjacencyOf(g), g.entryNodeId)
                    && HasPathLongerThan(AdjacencyOf(g), g.entryNodeId, g.budget.maxDepth)))
  {
    InterfaceCodesDiffer(g, m);
    if GraphOk(g) {
      AdjacencyIsClosed(g);
      WalkFindsCycles(AdjacencyOf(g), g.entryNodeId);
      if WholeWalk(AdjacencyOf(g), g.entryNodeId).ok {
        DepthStepIsExact(AdjacencyOf(g), g.entryNodeId, g.budget.maxDepth);
      }
    }
  }

  lemma DepthStepIsExact(adj: Adjacency, entry: string, n: int)
    requires Closed(adj) && entry in adj && WholeWalk(adj, entry).ok && OneParent(adj)
    ensures WholeWalk(adj, entry).maxDepth > n <==> HasPathLongerThan(adj, entry, n)
  {
    EntryPath(adj, entry);
    MeasuredDepth(adj, entry, [entry]);
    forall p | PathFrom(adj, entry, p) ensures |p| <= WholeWalk(adj, entry).maxDepth {
      TreeDepthIsLongest(adj, entry, p);
    }
  }

  // ------------------------------------------------------------------ a graph accepted beyond its depth budget

  function PlainNode(id: string, interfaces: seq<Occurrence>): Node {
    Node(id, Component, interfaces, [], [], [])
  }

  /** Four components; the third is entered from the first before the second reaches it. */
  function ShortcutGraph(m: Matrix): Graph {
    var root := Occurrence(m.requiredRootExport.package, m.requiredRootExport.iface, Export, "t", None);
    Graph(m.world, m.hostABI, "a",
          [PlainNode("a", [root]), PlainNode("b", []), PlainNode("c", []), PlainNode("d", [])],
          [Edge("a", "c"), Edge("a", "b"), Edge("b", "c"), Edge("c", "d")],
          [], Budget(4, 4, 3))
  }

  function ShortcutNext(id: string): seq<string> {
    if id == "a" then ["c", "b"] else if id == "b" then ["c"] else if id == "c" then ["d"] else []
  }

  lemma ShortcutTargets(m: Matrix, id: string)
    ensures Targets(ShortcutGraph(m).edges, id) == ShortcutNext(id)
  {
    var es := ShortcutGraph(m).edges;
    assert es[..3] == [Edge("a", "c"), Edge("a", "b"), Edge("b", "c")];
    assert es[..3][..2] == [Edge("a", "c"), Edge("a", "b")];
    assert es[..3][..2][..1] == [Edge("a", "c")];
    assert es[..3][..2][..1][..0] == [];
    assert Targets(es[..3][..2][..1], id) == if id == "a" then ["c"] else [];
    assert Targets(es[..3][..2], id) == if id == "a" then ["c", "b"] else [];
  }

  lemma ShortcutIds(m: Matrix)
    ensures Ids(ShortcutGraph(m).nodes) == {"a", "b", "c", "d"}
  {
    var nodes := ShortcutGraph(m).nodes;
    assert nodes[0].id == "a" && nodes[1].id == "b" && nodes[2].id == "c" && nodes[3].id == "d";
  }

  lemma ShortcutIsOk(m: Matrix)
    ensures GraphOk(ShortcutGraph(m))
  {
    ShortcutIds(m);
  }

  /** A graph with these ids and targets has this adjacency. */
  lemma AdjacencyFrom(g: Graph, adj: Adjacency, next: string -> seq<string>)
    requires Ids(g.nodes) == adj.Keys
    requires forall id :: id in adj ==> adj[id] == next(id)
    requires forall id :: Targets(g.edges, id) == next(id)
    ensures AdjacencyOf(g) == adj
  {
  }

  lemma ShortcutAdjacency(m: Matrix)
    ensures AdjacencyOf(ShortcutGraph(m)) == map["a" := ["c", "b"], "b" := ["c"], "c" := ["d"], "d" := []]
  {
    var adj: Adjacency := map["a" := ["c", "b"], "b" := ["c"], "c" := ["d"], "d" := []];
    ShortcutIds(m);
    forall id ensures Targets(ShortcutGraph(m).edges, id) == ShortcutNext(id) {
      ShortcutTargets(m, id);
    }
    AdjacencyFrom(ShortcutGraph(m), adj, ShortcutNext);
  }

  lemma PlainNodeHasNoCode(g: Graph, m: Matrix, n: Node)
    requires n.interfaces == [] && n.kind == Component
    ensures NodeCode(g, m, n).None? && RawCode(n, Translated(g.nodes)).None?
  {
  }

  lemma RootNodeHasNoCode(g: Graph, m: Matrix, n: Node, root: Occurrence)
    requires n.interfaces == [root] && n.kind == Component
    requires GrammarOk(root) && root.direction == Export && root.iface != "store"
    ensures NodeCode(g, m, n).None? && RawCode(n, Translated(g.nodes)).None?
  {
    assert OccurrenceCode(g, m, n.id, root).None?;
    NodeCodes(g, m, n);
  }

  /** A graph of components without interfaces under an entry with the root export passes
      every step after the structure. */
  lemma PlainGraphPasses(g: Graph, m: Matrix, root: Occurrence)
    requires |g.nodes| > 0 && g.declaredHostImports == [] && IdsOk(g.nodes) && g.entryNodeId == g.nodes[0].id
    requires g.nodes[0].interfaces == [root] && g.nodes[0].kind == Component
    requires forall i :: 0 < i < |g.nodes| ==> g.nodes[i].interfaces == [] && g.nodes[i].kind == Component
    requires root.package == m.requiredRootExport.package && root.iface == m.requiredRootExport.iface
    requires GrammarOk(root) && root.direction == Export && root.iface != "store"
    ensures InterfaceCode(g, m).None?
  {
    var rawCode, nodeCode := (n: Node) => RawCode(n, Translated(g.nodes)), (n: Node) => NodeCode(g, m, n);
    forall i | 0 <= i < |g.nodes| ensures nodeCode(g.nodes[i]).None? && rawCode(g.nodes[i]).None? {
      if i == 0 { RootNodeHasNoCode(g, m, g.nodes[0], root); } else { PlainNodeHasNoCode(g, m, g.nodes[i]); }
    }
    FirstOfIsFirst(g.nodes, rawCode);
    FirstOfIsFirst(g.nodes, nodeCode);
    RootIsExported(g, m, root);
    forall c ensures c !in Discovered(g, g.nodes) { DiscoveredIs(g, g.nodes, c); }
    assert Discovered(g, g.nodes) == {};
  }

  lemma RootIsExported(g: Graph, m: Matrix, root: Occurrence)
    requires |g.nodes| > 0 && IdsOk(g.nodes) && g.entryNodeId == g.nodes[0].id && g.nodes[0].interfaces == [root]
    requires root.package == m.requiredRootExport.package && root.iface == m.requiredRootExport.iface
             && root.direction == Export
    ensures EntryExportsOk(g, m)
  {
    var es := g.nodes[0].interfaces;
    assert es[0].direction == Export;
    assert ExportKeys(es) == {WasmInterfaceKey(root.package, root.iface)};
  }

  /** The whole validator accepts this graph although a path has more nodes than the depth
      budget, under any matrix whose root export is a well-formed name other than a store. */
  lemma AcceptedBeyondDepth(m: Matrix)
    requires MatrixOk(m) && IsWitName(m.requiredRootExport.iface) && m.requiredRootExport.iface != "store"
    ensures var g := ShortcutGraph(m);
            FailureCode(g, m).None? && HasPathLongerThan(AdjacencyOf(g), g.entryNodeId, g.budget.maxDepth)
  {
    var g := ShortcutGraph(m);
    ShortcutAdjacency(m);
    ShortcutIsOk(m);
    PlainGraphPasses(g, m, g.nodes[0].interfaces[0]);
    AdjacencyIsClosed(g);
    LongerPathGoesUnmeasured();
    var p :| PathFrom(AdjacencyOf(g), "a", p) && |p| == 4;
  }
}
