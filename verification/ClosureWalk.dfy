/** The depth-first walk of the closure validator: it finds a cycle exactly when one is
    reachable from the entry, and measures the depth of first visits. */
module ClosureWalk {
  type Adjacency = map<string, seq<string>>

  datatype Visit = Visiting | Done

  /** Whether no cycle was met, the visit states, and the greatest depth so far. */
  datatype Walk = Walk(ok: bool, state: map<string, Visit>, maxDepth: nat)

  predicate Closed(adj: Adjacency) {
    forall n, i :: n in adj && 0 <= i < |adj[n]| ==> adj[n][i] in adj
  }

  // ------------------------------------------------------------------ paths

  ghost predicate IsPath(adj: Adjacency, p: seq<string>) {
    && (forall i :: 0 <= i < |p| ==> p[i] in adj)
    && forall i, j :: 0 <= i && j == i + 1 && j < |p| ==> p[j] in adj[p[i]]
  }

  ghost predicate PathFrom(adj: Adjacency, entry: string, p: seq<string>) {
    |p| > 0 && IsPath(adj, p) && p[0] == entry
  }

  /** A path from the entry whose last node was passed before. */
  ghost predicate IsLasso(adj: Adjacency, entry: string, p: seq<string>) {
    PathFrom(adj, entry, p) && exists i :: 0 <= i < |p| - 1 && p[i] == p[|p| - 1]
  }

  ghost predicate CycleReachable(adj: Adjacency, entry: string) {
    exists p :: IsLasso(adj, entry, p)
  }

  ghost predicate HasPathOfLength(adj: Adjacency, entry: string, n: nat) {
    exists p :: PathFrom(adj, entry, p) && |p| == n
  }

  /** Some path with at most `n` nodes leads from the entry to the node. */
  ghost predicate ReachedWithin(adj: Adjacency, entry: string, id: string, n: nat) {
    exists p :: PathFrom(adj, entry, p) && p[|p| - 1] == id && |p| <= n
  }

  // ------------------------------------------------------------------ the walk

  function Max(a: nat, b: nat): nat { if a < b then b else a }

  function Dfs(adj: Adjacency, state: map<string, Visit>, maxDepth: nat, id: string, depth: nat): (r: Walk)
    requires Closed(adj) && id in adj && state.Keys <= adj.Keys
    ensures state.Keys <= r.state.Keys <= adj.Keys
    decreases adj.Keys - state.Keys, 0
  {
    if id in state then Walk(state[id] == Done, state, maxDepth)
    else
      assert id in adj.Keys - state.Keys && id !in adj.Keys - state[id := Visiting].Keys;
      Finish(DfsAll(adj, state[id := Visiting], Max(maxDepth, depth), adj[id], depth + 1), id)
  }

  /** A node whose targets are all walked is done; a failed walk stops as it is. */
  function Finish(r: Walk, id: string): Walk {
    if r.ok then Walk(true, r.state[id := Done], r.maxDepth) else r
  }

  function DfsAll(adj: Adjacency, state: map<string, Visit>, maxDepth: nat, next: seq<string>, depth: nat): (r: Walk)
    requires Closed(adj) && state.Keys <= adj.Keys
    requires forall i :: 0 <= i < |next| ==> next[i] in adj
    ensures state.Keys <= r.state.Keys <= adj.Keys
    decreases adj.Keys - state.Keys, |next| + 1
  {
    if next == [] then Walk(true, state, maxDepth)
    else
      var r := Dfs(adj, state, maxDepth, next[0], depth);
      if !r.ok then r
      else
        DfsAll(adj, r.state, r.maxDepth, next[1..], depth)
  }

  lemma DfsAllStep(adj: Adjacency, state: map<string, Visit>, maxDepth: nat, next: seq<string>, i: nat, depth: nat)
    requires Closed(adj) && state.Keys <= adj.Keys && i < |next|
    requires forall k :: 0 <= k < |next| ==> next[k] in adj
    ensures var r := Dfs(adj, state, maxDepth, next[i], depth);
            DfsAll(adj, state, maxDepth, next[i..], depth) ==
            if !r.ok then r else DfsAll(adj, r.state, r.maxDepth, next[i + 1..], depth)
  {
    assert next[i..][0] == next[i] && next[i..][1..] == next[i + 1..];
  }

  /** The walker as the source runs it: a visit map and a running maximum, updated in place. */
  class Walker {
    const adjacency: Adjacency
    var visitState: map<string, Visit>
    var maxDepth: nat

    constructor (adjacency: Adjacency)
      ensures this.adjacency == adjacency && visitState == map[] && maxDepth == 0
    {
      this.adjacency := adjacency;
      visitState := map[];
      maxDepth := 0;
    }

    method HasNoCycle(nodeId: string, depth: nat) returns (ok: bool)
      requires Closed(adjacency) && nodeId in adjacency && visitState.Keys <= adjacency.Keys
      modifies this
      ensures visitState.Keys <= adjacency.Keys
      ensures Walk(ok, visitState, maxDepth) == Dfs(adjacency, old(visitState), old(maxDepth), nodeId, depth)
      decreases adjacency.Keys - visitState.Keys, 0
    {
      if nodeId in visitState {
        return visitState[nodeId] == Done;
      }
      ghost var left := adjacency.Keys - visitState.Keys;
      visitState := visitState[nodeId := Visiting];
      if depth > maxDepth {
        maxDepth := depth;
      }
      assert nodeId in left && nodeId !in adjacency.Keys - visitState.Keys;
      ok := NoneHasCycle(adjacency[nodeId], depth + 1);
      if ok {
        visitState := visitState[nodeId := Done];
      }
    }

    /** The loop over the targets of one node. */
    method NoneHasCycle(next: seq<string>, depth: nat) returns (ok: bool)
      requires Closed(adjacency) && visitState.Keys <= adjacency.Keys
      requires forall i :: 0 <= i < |next| ==> next[i] in adjacency
      modifies this
      ensures visitState.Keys <= adjacency.Keys
      ensures Walk(ok, visitState, maxDepth) == DfsAll(adjacency, old(visitState), old(maxDepth), next, depth)
      decreases adjacency.Keys - visitState.Keys, 1
    {
      ghost var start, top := visitState, maxDepth;
      var i := 0;
      while i < |next|
        invariant 0 <= i <= |next|
        invariant start.Keys <= visitState.Keys <= adjacency.Keys
        invariant DfsAll(adjacency, start, top, next, depth) ==
                  DfsAll(adjacency, visitState, maxDepth, next[i..], depth)
      {
        DfsAllStep(adjacency, visitState, maxDepth, next, i, depth);
        var fine := HasNoCycle(next[i], depth);
        if !fine {
          return false;
        }
        i := i + 1;
      }
      ok := true;
    }
  }

  // ------------------------------------------------------------------ what the walk knows

  /** `path` is the stack of nodes being visited; `order` lists finished nodes, each after all
      it points to. */
  ghost predicate WalkInv(
    adj: Adjacency, entry: string, state: map<string, Visit>, maxDepth: nat, path: seq<string>, order: seq<string>)
  {
    && (path != [] ==> PathFrom(adj, entry, path))
    && Marked(state, Visiting, path) && Marked(state, Done, order)
    && OrderOk(adj, order)
    && VisitsReached(adj, entry, state, maxDepth)
    && DepthIsReal(adj, entry, maxDepth)
  }

  ghost predicate Marked(state: map<string, Visit>, v: Visit, nodes: seq<string>) {
    forall n :: n in state && state[n] == v <==> n in nodes
  }

  ghost predicate OrderOk(adj: Adjacency, order: seq<string>) {
    forall i :: 0 <= i < |order| ==> order[i] in adj && FinishedBefore(adj[order[i]], order[..i])
  }

  predicate FinishedBefore(next: seq<string>, earlier: seq<string>) {
    forall t :: t in next ==> t in earlier
  }

  ghost predicate VisitsReached(adj: Adjacency, entry: string, state: map<string, Visit>, maxDepth: nat) {
    forall n :: n in state ==> ReachedWithin(adj, entry, n, maxDepth)
  }

  ghost predicate DepthIsReal(adj: Adjacency, entry: string, maxDepth: nat) {
    maxDepth == 0 || HasPathOfLength(adj, entry, maxDepth)
  }

  /** The node can be entered from the top of the stack. */
  ghost predicate Enters(adj: Adjacency, entry: string, path: seq<string>, id: string) {
    if path == [] then id == entry else path[|path| - 1] in adj && id in adj[path[|path| - 1]]
  }

  lemma PathExtends(adj: Adjacency, entry: string, path: seq<string>, id: string)
    requires path != [] ==> PathFrom(adj, entry, path)
    requires id in adj && Enters(adj, entry, path, id)
    ensures PathFrom(adj, entry, path + [id])
  {
  }

  lemma MetOnTheStack(adj: Adjacency, entry: string, path: seq<string>, id: string)
    requires path != [] ==> PathFrom(adj, entry, path)
    requires id in adj && Enters(adj, entry, path, id) && id in path
    ensures CycleReachable(adj, entry)
  {
    PathExtends(adj, entry, path, id);
    var i :| 0 <= i < |path| && path[i] == id;
    var p := path + [id];
    assert p[i] == p[|p| - 1];
    assert IsLasso(adj, entry, p);
  }

  lemma PushKeeps(
    adj: Adjacency, entry: string, state: map<string, Visit>, maxDepth: nat, path: seq<string>, order: seq<string>,
    id: string)
    requires WalkInv(adj, entry, state, maxDepth, path, order)
    requires id in adj && id !in state && Enters(adj, entry, path, id)
    ensures WalkInv(adj, entry, state[id := Visiting], Max(maxDepth, |path| + 1), path + [id], order)
  {
    PathExtends(adj, entry, path, id);
    var p := path + [id];
    assert p[|p| - 1] == id && |p| == |path| + 1;
    assert HasPathOfLength(adj, entry, |path| + 1);
    var s := state[id := Visiting];
    forall n | n in s ensures ReachedWithin(adj, entry, n, Max(maxDepth, |path| + 1)) {
      if n in state {
        assert ReachedWithin(adj, entry, n, maxDepth);
        var q :| PathFrom(adj, entry, q) && q[|q| - 1] == n && |q| <= maxDepth;
      }
    }
    assert id !in path && id !in order;
  }

  lemma PopKeeps(
    adj: Adjacency, entry: string, state: map<string, Visit>, maxDepth: nat, path: seq<string>, order: seq<string>,
    id: string)
    requires WalkInv(adj, entry, state, maxDepth, path + [id], order)
    requires id in adj && id !in path && FinishedBefore(adj[id], order)
    ensures WalkInv(adj, entry, state[id := Done], maxDepth, path, order + [id])
  {
    var p := path + [id];
    assert id in p;
    if path != [] {
      assert forall i :: 0 <= i < |path| ==> path[i] == p[i];
    }
    var o := order + [id];
    forall i | 0 <= i < |o| ensures o[i] in adj && FinishedBefore(adj[o[i]], o[..i]) {
      if i < |order| { assert o[..i] == order[..i]; } else { assert o[..i] == order; }
    }
    forall n ensures n in state[id := Done] && state[id := Done][n] == Visiting <==> n in path {
      assert n in p <==> n in path || n == id;
    }
    forall n ensures n in state[id := Done] && state[id := Done][n] == Done <==> n in o {
      assert n in o <==> n in order || n == id;
    }
  }

  /** What a walk from the top of the stack leaves: more finished nodes, or a cycle. */
  ghost predicate Kept(
    adj: Adjacency, entry: string, r: Walk, path: seq<string>, order: seq<string>, after: seq<string>,
    next: seq<string>)
  {
    if r.ok then order <= after && FinishedBefore(next, after) && WalkInv(adj, entry, r.state, r.maxDepth, path, after)
    else CycleReachable(adj, entry)
  }

  lemma {:induction false} DfsKeeps(
    adj: Adjacency, entry: string, state: map<string, Visit>, maxDepth: nat, id: string,
    path: seq<string>, order: seq<string>) returns (after: seq<string>)
    requires Closed(adj) && id in adj && state.Keys <= adj.Keys
    requires WalkInv(adj, entry, state, maxDepth, path, order) && Enters(adj, entry, path, id)
    ensures Kept(adj, entry, Dfs(adj, state, maxDepth, id, |path| + 1), path, order, after, [id])
    decreases adj.Keys - state.Keys, 1
  {
    if id !in state {
      after := FreshKeeps(adj, entry, state, maxDepth, id, path, order);
    } else {
      after := order;
      if state[id] == Visiting { MetOnTheStack(adj, entry, path, id); }
    }
  }

  lemma {:induction false} FreshKeeps(
    adj: Adjacency, entry: string, state: map<string, Visit>, maxDepth: nat, id: string,
    path: seq<string>, order: seq<string>) returns (after: seq<string>)
    requires Closed(adj) && id in adj && id !in state && state.Keys <= adj.Keys
    requires WalkInv(adj, entry, state, maxDepth, path, order) && Enters(adj, entry, path, id)
    ensures Kept(adj, entry, Finish(DfsAll(adj, state[id := Visiting], Max(maxDepth, |path| + 1), adj[id],
                                           |path| + 2), id),
                 path, order, after, [id])
    decreases adj.Keys - state.Keys, 0
  {
    PushKeeps(adj, entry, state, maxDepth, path, order, id);
    after := DfsAllKeeps(adj, entry, state[id := Visiting], Max(maxDepth, |path| + 1), adj[id], path + [id], order);
    after := FinishKeeps(
      adj, entry, DfsAll(adj, state[id := Visiting], Max(maxDepth, |path| + 1), adj[id], |path| + 2), id, path, order,
      after);
  }

  lemma FinishKeeps(
    adj: Adjacency, entry: string, r: Walk, id: string, path: seq<string>, order: seq<string>, mid: seq<string>)
    returns (after: seq<string>)
    requires id in adj && id !in path && Kept(adj, entry, r, path + [id], order, mid, adj[id])
    ensures Kept(adj, entry, Finish(r, id), path, order, after, [id])
  {
    after := mid;
    if r.ok {
      PopKeeps(adj, entry, r.state, r.maxDepth, path, mid, id);
      after := mid + [id];
    }
  }

  lemma {:induction false} DfsAllKeeps(
    adj: Adjacency, entry: string, state: map<string, Visit>, maxDepth: nat, next: seq<string>,
    path: seq<string>, order: seq<string>) returns (after: seq<string>)
    requires Closed(adj) && state.Keys <= adj.Keys && path != []
    requires forall i :: 0 <= i < |next| ==> next[i] in adj && Enters(adj, entry, path, next[i])
    requires WalkInv(adj, entry, state, maxDepth, path, order)
    ensures Kept(adj, entry, DfsAll(adj, state, maxDepth, next, |path| + 1), path, order, after, next)
    decreases adj.Keys - state.Keys, |next| + 2
  {
    after := order;
    if next != [] {
      var mid := DfsKeeps(adj, entry, state, maxDepth, next[0], path, order);
      var r := Dfs(adj, state, maxDepth, next[0], |path| + 1);
      if r.ok {
        after := DfsAllKeeps(adj, entry, r.state, r.maxDepth, next[1..], path, mid);
        assert next[0] in [next[0]];
      }
    }
  }

  // ------------------------------------------------------------------ exactness

  /** A path from a finished node stays among nodes finished before it. */
  lemma {:induction false} PathDescends(adj: Adjacency, order: seq<string>, p: seq<string>, i: nat, j: nat, k: nat)
    requires OrderOk(adj, order) && IsPath(adj, p) && i < j < |p| && k < |order| && p[i] == order[k]
    ensures p[j] in order[..k]
    decreases j - i
  {
    assert p[i + 1] in order[..k];
    if i + 1 < j {
      var m :| 0 <= m < k && order[m] == p[i + 1];
      PathDescends(adj, order, p, i + 1, j, m);
      var x :| 0 <= x < m && order[..m][x] == p[j];
      assert order[..k][x] == p[j];
    }
  }

  lemma {:induction false} FirstPosition(s: seq<string>, x: string) returns (k: nat)
    requires x in s
    ensures k < |s| && s[k] == x && x !in s[..k]
  {
    k := 0;
    while s[k] != x
      invariant k < |s| && x !in s[..k] && x in s
      decreases |s| - k
    {
      assert s == s[..k + 1] + s[k + 1..];
      k := k + 1;
    }
  }

  lemma OrderedHasNoLasso(adj: Adjacency, entry: string, order: seq<string>, p: seq<string>)
    requires OrderOk(adj, order) && entry in order
    ensures !IsLasso(adj, entry, p)
  {
    if PathFrom(adj, entry, p) {
      var e := FirstPosition(order, entry);
      forall i | 0 <= i < |p| - 1 ensures p[i] != p[|p| - 1] {
        if i > 0 { PathDescends(adj, order, p, 0, i, e); }
        assert p[i] in order;
        var k := FirstPosition(order, p[i]);
        PathDescends(adj, order, p, i, |p| - 1, k);
      }
    }
  }

  ghost function WholeWalk(adj: Adjacency, entry: string): Walk
    requires Closed(adj) && entry in adj
  {
    Dfs(adj, map[], 0, entry, 1)
  }

  /** The walk fails exactly when a cycle is reachable from the entry. */
  lemma WalkFindsCycles(adj: Adjacency, entry: string)
    requires Closed(adj) && entry in adj
    ensures WholeWalk(adj, entry).ok <==> !CycleReachable(adj, entry)
  {
    var order := DfsKeeps(adj, entry, map[], 0, entry, [], []);
    if WholeWalk(adj, entry).ok {
      assert entry in [entry];
      forall p ensures !IsLasso(adj, entry, p) { OrderedHasNoLasso(adj, entry, order, p); }
    }
  }

  /** The measured depth is that of a real path, and every node any path reaches is reached
      by one no longer than it. */
  lemma MeasuredDepth(adj: Adjacency, entry: string, p: seq<string>)
    requires Closed(adj) && entry in adj && WholeWalk(adj, entry).ok && PathFrom(adj, entry, p)
    ensures HasPathOfLength(adj, entry, WholeWalk(adj, entry).maxDepth)
    ensures ReachedWithin(adj, entry, p[|p| - 1], WholeWalk(adj, entry).maxDepth)
  {
    var order := DfsKeeps(adj, entry, map[], 0, entry, [], []);
    var r := WholeWalk(adj, entry);
    assert ReachedWithin(adj, entry, entry, r.maxDepth);
    var e := FirstPosition(order, entry);
    if |p| > 1 { PathDescends(adj, order, p, 0, |p| - 1, e); }
    assert p[|p| - 1] in order;
  }

  /** But a longer path may go unmeasured, because a finished node is not walked again. */
  lemma LongerPathGoesUnmeasured()
    ensures var adj: Adjacency := map["a" := ["c", "b"], "b" := ["c"], "c" := ["d"], "d" := []];
            && Closed(adj) && WholeWalk(adj, "a").ok && WholeWalk(adj, "a").maxDepth == 3
            && HasPathOfLength(adj, "a", 4)
  {
    var adj: Adjacency := map["a" := ["c", "b"], "b" := ["c"], "c" := ["d"], "d" := []];
    assert PathFrom(adj, "a", ["a", "b", "c", "d"]);
    var s1: map<string, Visit> := map["a" := Visiting];
    var s2 := s1["c" := Visiting];
    var s3 := s2["d" := Visiting];
    assert Dfs(adj, s2, 2, "d", 3) == Walk(true, s3["d" := Done], 3);
    var t := s3["d" := Done];
    assert DfsAll(adj, t, 3, [], 3) == Walk(true, t, 3);
    assert ["d"][1..] == [];
    assert DfsAll(adj, s2, 2, ["d"], 3) == Walk(true, t, 3);
    assert Dfs(adj, s1, 1, "c", 2) == Walk(true, t["c" := Done], 3);
    var u := t["c" := Done];
    var v := u["b" := Visiting];
    assert Dfs(adj, v, 3, "c", 3) == Walk(true, v, 3);
    assert ["c"][1..] == [];
    assert DfsAll(adj, v, 3, ["c"], 3) == Walk(true, v, 3);
    assert Dfs(adj, u, 3, "b", 2) == Walk(true, v["b" := Done], 3);
    assert ["b"][1..] == [];
    assert DfsAll(adj, u, 3, ["b"], 2) == Walk(true, v["b" := Done], 3);
    assert ["c", "b"][1..] == ["b"];
    assert DfsAll(adj, s1, 1, ["c", "b"], 2) == Walk(true, v["b" := Done], 3);
  }
}
