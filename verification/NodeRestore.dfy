/** The multi-directory swap of a node restore: every destination is replaced by its staged
    tree, or every destination is put back, at whatever call a failure strikes. */
module NodeRestore {

  type Path = seq<string>

  datatype Node = Directory | File(content: seq<bv8>)

  /** Everything the file system holds, by path. */
  type Tree = map<Path, Node>

  // ------------------------------------------------------------------ trees

  /** What lies under a path, by relative path. */
  function Relative(t: Tree, p: Path): set<Path> {
    set q | q in t && p <= q :: q[|p|..]
  }

  /** The subtree at a path. */
  function Sub(t: Tree, p: Path): Tree {
    map r | r in Relative(t, p) && p + r in t :: t[p + r]
  }

  /** Something is there: `exists` or `lstat` sees it. */
  predicate Exists(t: Tree, p: Path) {
    exists q :: q in t && p <= q
  }

  function Without(t: Tree, p: Path): Tree {
    map q | q in t && !(p <= q) :: t[q]
  }

  function Carried(t: Tree, from: Path, to: Path): Tree {
    map q | q in (set r | r in Relative(t, from) :: to + r) && to <= q && from + q[|to|..] in t :: t[from + q[|to|..]]
  }

  lemma CarriedAt(t: Tree, from: Path, to: Path, q: Path)
    ensures q in Carried(t, from, to) <==> to <= q && from + q[|to|..] in t
  {
    if to <= q && from + q[|to|..] in t {
      assert (from + q[|to|..])[|from|..] == q[|to|..];
      assert q[|to|..] in Relative(t, from);
      assert q == to + q[|to|..];
    }
  }

  /** Moves a whole subtree; what stood at the target is replaced. */
  function Moved(t: Tree, from: Path, to: Path): Tree {
    Without(Without(t, from), to) + Carried(t, from, to)
  }

  function Dirname(p: Path): Path { if p == [] then [] else p[..|p| - 1] }

  /** A directory and all its missing ancestors. */
  function Made(t: Tree, p: Path): Tree {
    t + map n | 0 <= n <= |p| && p[..n] !in t :: p[..n] := Directory
  }

  predicate Unrelated(a: Path, b: Path) { !(a <= b) && !(b <= a) }

  lemma SubAt(t: Tree, p: Path, r: Path)
    ensures r in Sub(t, p) <==> p + r in t
    ensures r in Sub(t, p) ==> Sub(t, p)[r] == t[p + r]
  {
    assert (p + r)[|p|..] == r;
  }

  lemma ExistsIffSub(t: Tree, p: Path)
    ensures Exists(t, p) <==> Sub(t, p) != map[]
  {
    if q :| q in t && p <= q {
      assert q == p + q[|p|..];
      assert q[|p|..] in Sub(t, p);
    }
  }

  lemma SameSub(t: Tree, p: Path, u: Tree, o: Path)
    requires forall r :: (p + r in t <==> o + r in u) && (p + r in t ==> t[p + r] == u[o + r])
    ensures Sub(t, p) == Sub(u, o)
  {
    forall r ensures (r in Sub(t, p) <==> r in Sub(u, o)) && (r in Sub(t, p) ==> Sub(t, p)[r] == Sub(u, o)[r]) {
      SubAt(t, p, r);
      SubAt(u, o, r);
    }
  }

  lemma EmptySub(t: Tree, p: Path)
    requires forall r :: p + r !in t
    ensures Sub(t, p) == map[]
  {
    forall r ensures r !in Sub(t, p) { SubAt(t, p, r); }
  }

  lemma PrefixesMeet(a: Path, b: Path, q: Path)
    requires a <= q && b <= q
    ensures a <= b || b <= a
  {
    if |a| <= |b| {
      assert b[..|a|] == q[..|a|] == a;
    } else {
      assert a[..|b|] == q[..|b|] == b;
    }
  }

  lemma MovedAt(t: Tree, from: Path, to: Path, q: Path)
    requires Unrelated(from, to)
    ensures to <= q ==> (q in Moved(t, from, to) <==> from + q[|to|..] in t)
    ensures to <= q && q in Moved(t, from, to) ==> Moved(t, from, to)[q] == t[from + q[|to|..]]
    ensures !(to <= q) && from <= q ==> q !in Moved(t, from, to)
    ensures !(to <= q) && !(from <= q) ==> (q in Moved(t, from, to) <==> q in t)
    ensures !(to <= q) && !(from <= q) && q in t ==> Moved(t, from, to)[q] == t[q]
  {
    CarriedAt(t, from, to, q);
  }

  /** A move carries the subtree over, empties its source and leaves unrelated subtrees. */
  lemma MovedSubs(t: Tree, from: Path, to: Path, x: Path)
    requires Unrelated(from, to)
    ensures Sub(Moved(t, from, to), to) == Sub(t, from)
    ensures Sub(Moved(t, from, to), from) == map[]
    ensures Unrelated(x, from) && Unrelated(x, to) ==> Sub(Moved(t, from, to), x) == Sub(t, x)
  {
    var u := Moved(t, from, to);
    forall r ensures (to + r in u <==> from + r in t) && (to + r in u ==> u[to + r] == t[from + r]) {
      MovedAt(t, from, to, to + r);
      assert (to + r)[|to|..] == r;
    }
    SameSub(u, to, t, from);
    forall r ensures from + r !in u {
      MovedAt(t, from, to, from + r);
      if to <= from + r { PrefixesMeet(to, from, from + r); }
    }
    EmptySub(u, from);
    if Unrelated(x, from) && Unrelated(x, to) {
      forall r ensures (x + r in u <==> x + r in t) && (x + r in u ==> u[x + r] == t[x + r]) {
        MovedAt(t, from, to, x + r);
        if to <= x + r { PrefixesMeet(to, x, x + r); }
        if from <= x + r { PrefixesMeet(from, x, x + r); }
      }
      SameSub(u, x, t, x);
    }
  }

  lemma WithoutSubs(t: Tree, p: Path, x: Path)
    ensures Sub(Without(t, p), p) == map[]
    ensures Unrelated(x, p) ==> Sub(Without(t, p), x) == Sub(t, x)
  {
    EmptySub(Without(t, p), p);
    if Unrelated(x, p) {
      forall r ensures x + r in Without(t, p) <==> x + r in t {
        if p <= x + r { PrefixesMeet(p, x, x + r); }
      }
      SameSub(Without(t, p), x, t, x);
    }
  }

  lemma PrefixOfPrefix(x: Path, r: Path, p: Path, n: nat)
    requires n <= |p|
    ensures p[..n] == x + r ==> x <= p
  {
  }

  lemma MadeSubs(t: Tree, p: Path, x: Path)
    requires !(x <= p)
    ensures Sub(Made(t, p), x) == Sub(t, x)
  {
    forall r ensures (x + r in Made(t, p) <==> x + r in t) && (x + r in t ==> Made(t, p)[x + r] == t[x + r]) {
      forall n | 0 <= n <= |p| ensures p[..n] != x + r { PrefixOfPrefix(x, r, p, n); }
    }
    SameSub(Made(t, p), x, t, x);
  }

  // ------------------------------------------------------------------ input and output

  /** The parent of a path is there. */
  predicate ParentThere(t: Tree, p: Path) { p == [] || Dirname(p) in t }

  /** A rename replaces a file by a file and an empty directory by a directory, nothing else. */
  predicate CanReplace(t: Tree, from: Path, to: Path) {
    || !Exists(t, to)
    || (Relative(t, to) == {[]} && to in t && from in t && t[from].Directory? == t[to].Directory?)
  }

  /** No call from `a` to before `b` failed. */
  ghost predicate NoFault(fails: set<nat>, a: nat, b: nat) {
    a <= b && forall n :: a <= n < b ==> n !in fails
  }

  /** Of the calls from `a` to before `b` the last failed, and no other. */
  ghost predicate LastFailed(fails: set<nat>, a: nat, b: nat) {
    a < b && b - 1 in fails && NoFault(fails, a, b - 1)
  }

  lemma OneMoreCall(fails: set<nat>, a: nat, b: nat)
    requires NoFault(fails, a, b)
    ensures if b in fails then LastFailed(fails, a, b + 1) else NoFault(fails, a, b + 1)
  {
  }

  lemma MoreCalls(fails: set<nat>, a: nat, b: nat, c: nat)
    requires NoFault(fails, a, b)
    ensures NoFault(fails, b, c) ==> NoFault(fails, a, c)
    ensures LastFailed(fails, b, c) ==> LastFailed(fails, a, c)
  {
  }

  lemma FaultsOfBoth(fails: set<nat>, a: nat, b: nat, c: nat)
    requires a <= b <= c
    ensures NoFault(fails, a, c) ==> NoFault(fails, a, b) && NoFault(fails, b, c)
  {
  }

  /** Any call may fail and then changes nothing; `fails` holds the numbers of the calls that
      do, besides those the file system refuses. */
  class BackupIO {
    const fails: set<nat>
    var tree: Tree
    var calls: nat

    constructor (fails: set<nat>, tree: Tree)
      ensures this.fails == fails && this.tree == tree && calls == 0
    {
      this.fails, this.tree, calls := fails, tree, 0;
    }

    method Mkdir(p: Path) returns (ok: bool)
      modifies this
      ensures ok == (old(calls) !in fails) && calls == old(calls) + 1
      ensures tree == if ok then Made(old(tree), p) else old(tree)
    {
      ok := calls !in fails;
      calls := calls + 1;
      if ok { tree := Made(tree, p); }
    }

    method Rename(from: Path, to: Path) returns (ok: bool)
      modifies this
      ensures ok == (old(calls) !in fails && Exists(old(tree), from) && ParentThere(old(tree), to)
                     && CanReplace(old(tree), from, to))
      ensures calls == old(calls) + 1
      ensures tree == if ok then Moved(old(tree), from, to) else old(tree)
    {
      ok := calls !in fails && Exists(tree, from) && ParentThere(tree, to) && CanReplace(tree, from, to);
      calls := calls + 1;
      if ok { tree := Moved(tree, from, to); }
    }

    method Rm(p: Path) returns (ok: bool)
      modifies this
      ensures ok == (old(calls) !in fails) && calls == old(calls) + 1
      ensures tree == if ok then Without(old(tree), p) else old(tree)
    {
      ok := calls !in fails;
      calls := calls + 1;
      if ok { tree := Without(tree, p); }
    }
  }

  // ------------------------------------------------------------------ swaps

  datatype Target = Target(stagedPath: Path, destination: Path)

  datatype Swap = Swap(
    stagedPath: Path,
    destination: Path,
    previousPath: Path,
    hadExisting: bool,
    previousMoved: bool,
    stagedMoved: bool)

  function PreviousPath(destination: Path, transactionId: string): Path {
    if destination == [] then [".restore-old-" + transactionId]
    else Dirname(destination) + [destination[|destination| - 1] + ".restore-old-" + transactionId]
  }

  function SwapOf(t: Tree, e: Target, transactionId: string): Swap {
    Swap(e.stagedPath, e.destination, PreviousPath(e.destination, transactionId), Exists(t, e.destination), false,
         false)
  }

  predicate Apart(a: Swap, b: Swap) {
    && Unrelated(a.destination, b.destination) && Unrelated(a.destination, b.stagedPath)
    && Unrelated(a.destination, b.previousPath) && Unrelated(a.stagedPath, b.stagedPath)
    && Unrelated(a.stagedPath, b.previousPath) && Unrelated(a.previousPath, b.previousPath)
    && Unrelated(a.stagedPath, b.destination) && Unrelated(a.previousPath, b.destination)
    && Unrelated(a.previousPath, b.stagedPath)
  }

  predicate OwnPathsApart(s: Swap) {
    Unrelated(s.destination, s.stagedPath) && Unrelated(s.destination, s.previousPath)
      && Unrelated(s.stagedPath, s.previousPath)
  }

  /** Distinct destinations, staged trees and old copies, none inside another. */
  predicate AllApart(swaps: seq<Swap>) {
    && (forall i :: 0 <= i < |swaps| ==> OwnPathsApart(swaps[i]))
    && forall i, k :: 0 <= i < |swaps| && 0 <= k < |swaps| && i != k ==> Apart(swaps[i], swaps[k])
  }

  /** Where one swap stands, against the tree before the transaction. */
  predicate Stands(t0: Tree, t: Tree, s: Swap) {
    && s.hadExisting == Exists(t0, s.destination)
    && (s.previousMoved ==> s.hadExisting)
    && (s.stagedMoved ==> s.previousMoved == s.hadExisting)
    && Sub(t, s.previousPath) == (if s.previousMoved then Sub(t0, s.destination) else map[])
    && (if s.stagedMoved then Sub(t, s.destination) == Sub(t0, s.stagedPath) && Sub(t, s.stagedPath) == map[]
        else Sub(t, s.stagedPath) == Sub(t0, s.stagedPath)
             && Sub(t, s.destination) == (if s.previousMoved then map[] else Sub(t0, s.destination)))
  }

  /** The destination is exactly what it was and no old copy is left. */
  predicate Restored(t0: Tree, t: Tree, s: Swap) {
    Sub(t, s.destination) == Sub(t0, s.destination) && Sub(t, s.previousPath) == map[]
  }

  /** The destination holds the staged tree and no old copy is left. */
  predicate Replaced(t0: Tree, t: Tree, s: Swap) {
    Sub(t, s.destination) == Sub(t0, s.stagedPath) && Sub(t, s.previousPath) == map[] && Sub(t, s.stagedPath) == map[]
  }

  /** What the destination held is still held, there or in the old copy. */
  predicate NotLost(t0: Tree, t: Tree, s: Swap) {
    Sub(t, s.destination) == Sub(t0, s.destination) || Sub(t, s.previousPath) == Sub(t0, s.destination)
  }

  predicate SamePaths(a: Swap, b: Swap) {
    a.destination == b.destination && a.stagedPath == b.stagedPath && a.previousPath == b.previousPath
  }

  lemma StandsNotLost(t0: Tree, t: Tree, s: Swap)
    requires Stands(t0, t, s)
    ensures NotLost(t0, t, s)
  {
    ExistsIffSub(t0, s.destination);
  }

  /** Three subtrees decide where a swap stands. */
  predicate SameSubs(t: Tree, u: Tree, s: Swap) {
    && Sub(t, s.destination) == Sub(u, s.destination)
    && Sub(t, s.stagedPath) == Sub(u, s.stagedPath)
    && Sub(t, s.previousPath) == Sub(u, s.previousPath)
  }

  lemma MovedElsewhere(t: Tree, from: Path, to: Path, s: Swap)
    requires Unrelated(from, to)
    requires Unrelated(s.destination, from) && Unrelated(s.destination, to)
    requires Unrelated(s.stagedPath, from) && Unrelated(s.stagedPath, to)
    requires Unrelated(s.previousPath, from) && Unrelated(s.previousPath, to)
    ensures SameSubs(t, Moved(t, from, to), s)
  {
    MovedSubs(t, from, to, s.destination);
    MovedSubs(t, from, to, s.stagedPath);
    MovedSubs(t, from, to, s.previousPath);
  }

  lemma RemovedElsewhere(t: Tree, p: Path, s: Swap)
    requires Unrelated(s.destination, p) && Unrelated(s.stagedPath, p) && Unrelated(s.previousPath, p)
    ensures SameSubs(t, Without(t, p), s)
  {
    WithoutSubs(t, p, s.destination);
    WithoutSubs(t, p, s.stagedPath);
    WithoutSubs(t, p, s.previousPath);
  }

  lemma DirnamePrefix(x: Path, p: Path)
    requires p != []
    ensures x <= Dirname(p) ==> x <= p && x != p
  {
  }

  /** Making the parent of one destination changes no subtree of any swap. */
  lemma MadeElsewhere(t: Tree, swaps: seq<Swap>, i: nat, k: nat)
    requires AllApart(swaps) && i < |swaps| && k < |swaps|
    ensures SameSubs(t, Made(t, Dirname(swaps[i].destination)), swaps[k])
  {
    var p, s := swaps[i].destination, swaps[k];
    assert p != [] by { assert OwnPathsApart(swaps[i]); assert [] <= swaps[i].stagedPath; }
    if i != k { assert Apart(swaps[i], s); } else { assert OwnPathsApart(s); }
    DirnamePrefix(s.destination, p);
    DirnamePrefix(s.stagedPath, p);
    DirnamePrefix(s.previousPath, p);
    MadeSubs(t, Dirname(p), s.destination);
    MadeSubs(t, Dirname(p), s.stagedPath);
    MadeSubs(t, Dirname(p), s.previousPath);
  }

  // ------------------------------------------------------------------ steps of the transaction

  ghost predicate AllStand(t0: Tree, t: Tree, swaps: seq<Swap>) {
    forall i :: 0 <= i < |swaps| ==> Stands(t0, t, swaps[i])
  }

  predicate SameSwaps(a: seq<Swap>, b: seq<Swap>) {
    |a| == |b| && forall i :: 0 <= i < |a| ==> SamePaths(a[i], b[i])
  }

  lemma ApartKept(a: seq<Swap>, b: seq<Swap>)
    requires AllApart(a) && SameSwaps(a, b)
    ensures AllApart(b)
  {
    forall i | 0 <= i < |b| ensures OwnPathsApart(b[i]) { assert OwnPathsApart(a[i]) && SamePaths(a[i], b[i]); }
    forall i, k | 0 <= i < |b| && 0 <= k < |b| && i != k ensures Apart(b[i], b[k]) {
      assert Apart(a[i], a[k]) && SamePaths(a[i], b[i]) && SamePaths(a[k], b[k]);
    }
  }

  lemma StandsWithSameSubs(t0: Tree, t: Tree, u: Tree, s: Swap)
    requires Stands(t0, t, s) && SameSubs(t, u, s)
    ensures Stands(t0, u, s)
  {
  }

  lemma MadeKeeps(t0: Tree, t: Tree, swaps: seq<Swap>, i: nat)
    requires AllApart(swaps) && AllStand(t0, t, swaps) && i < |swaps|
    ensures AllStand(t0, Made(t, Dirname(swaps[i].destination)), swaps)
  {
    forall k | 0 <= k < |swaps| ensures Stands(t0, Made(t, Dirname(swaps[i].destination)), swaps[k]) {
      MadeElsewhere(t, swaps, i, k);
      StandsWithSameSubs(t0, t, Made(t, Dirname(swaps[i].destination)), swaps[k]);
    }
  }

  /** Moving between two paths of one swap leaves all the others standing. */
  lemma OthersStand(t0: Tree, t: Tree, u: Tree, swaps: seq<Swap>, i: nat, from: Path, to: Path)
    requires AllApart(swaps) && AllStand(t0, t, swaps) && i < |swaps| && Unrelated(from, to) && u == Moved(t, from, to)
    requires from == swaps[i].destination || from == swaps[i].stagedPath || from == swaps[i].previousPath
    requires to == swaps[i].destination || to == swaps[i].stagedPath || to == swaps[i].previousPath
    ensures forall k :: 0 <= k < |swaps| && k != i ==> Stands(t0, u, swaps[k])
  {
    forall k | 0 <= k < |swaps| && k != i ensures Stands(t0, u, swaps[k]) {
      assert Apart(swaps[k], swaps[i]);
      MovedElsewhere(t, from, to, swaps[k]);
      StandsWithSameSubs(t0, t, u, swaps[k]);
    }
  }

  lemma BackUpKeeps(t0: Tree, t: Tree, swaps: seq<Swap>, i: nat)
    requires AllApart(swaps) && AllStand(t0, t, swaps) && i < |swaps|
    requires swaps[i].hadExisting && !swaps[i].previousMoved && !swaps[i].stagedMoved
    ensures AllStand(t0, Moved(t, swaps[i].destination, swaps[i].previousPath),
                     swaps[i := swaps[i].(previousMoved := true)])
  {
    var s := swaps[i];
    var u := Moved(t, s.destination, s.previousPath);
    assert OwnPathsApart(s);
    MovedSubs(t, s.destination, s.previousPath, s.stagedPath);
    OthersStand(t0, t, u, swaps, i, s.destination, s.previousPath);
    assert Stands(t0, t, s);
    assert Stands(t0, u, s.(previousMoved := true));
  }

  lemma SwapInKeeps(t0: Tree, t: Tree, swaps: seq<Swap>, i: nat)
    requires AllApart(swaps) && AllStand(t0, t, swaps) && i < |swaps|
    requires swaps[i].previousMoved == swaps[i].hadExisting && !swaps[i].stagedMoved
    ensures AllStand(t0, Moved(t, swaps[i].stagedPath, swaps[i].destination),
                     swaps[i := swaps[i].(stagedMoved := true)])
  {
    var s := swaps[i];
    var u := Moved(t, s.stagedPath, s.destination);
    assert OwnPathsApart(s);
    MovedSubs(t, s.stagedPath, s.destination, s.previousPath);
    OthersStand(t0, t, u, swaps, i, s.stagedPath, s.destination);
    assert Stands(t0, t, s);
    assert Stands(t0, u, s.(stagedMoved := true));
  }

  // ------------------------------------------------------------------ rollback

  datatype Outcome = Done | RolledBack | RollbackFailed | CleanupFailed

  /** Swaps before `n` still stand; from `n` on each is put back, or at least not lost. */
  ghost predicate Undone(t0: Tree, t: Tree, swaps: seq<Swap>, n: nat, clean: bool) {
    && (forall i :: 0 <= i < |swaps| && i < n ==> Stands(t0, t, swaps[i]))
    && forall i :: n <= i < |swaps| ==> NotLost(t0, t, swaps[i]) && (clean ==> Restored(t0, t, swaps[i]))
  }

  lemma UndoneElsewhere(t0: Tree, t: Tree, u: Tree, swaps: seq<Swap>, j: nat, clean: bool)
    requires j < |swaps| && Undone(t0, t, swaps, j + 1, clean)
    requires OnlySwap(swaps, j, t, u) && NotLost(t0, u, swaps[j])
    ensures Undone(t0, u, swaps, j, clean && Restored(t0, u, swaps[j]))
  {
    forall i | 0 <= i < |swaps| && i < j ensures Stands(t0, u, swaps[i]) {
      StandsWithSameSubs(t0, t, u, swaps[i]);
    }
    forall i | j <= i < |swaps|
      ensures NotLost(t0, u, swaps[i]) && (clean && Restored(t0, u, swaps[j]) ==> Restored(t0, u, swaps[i]))
    {
      if i > j { assert SameSubs(t, u, swaps[i]); }
    }
  }

  lemma RemoveOthers(t: Tree, swaps: seq<Swap>, j: nat, p: Path)
    requires AllApart(swaps) && j < |swaps| && (p == swaps[j].destination || p == swaps[j].previousPath)
    ensures forall k :: 0 <= k < |swaps| && k != j ==> SameSubs(t, Without(t, p), swaps[k])
  {
    forall k | 0 <= k < |swaps| && k != j ensures SameSubs(t, Without(t, p), swaps[k]) {
      assert Apart(swaps[k], swaps[j]);
      RemovedElsewhere(t, p, swaps[k]);
    }
  }

  lemma MoveOthers(t: Tree, swaps: seq<Swap>, j: nat)
    requires AllApart(swaps) && j < |swaps|
    ensures forall k :: 0 <= k < |swaps| && k != j ==>
              SameSubs(t, Moved(t, swaps[j].previousPath, swaps[j].destination), swaps[k])
  {
    forall k | 0 <= k < |swaps| && k != j
      ensures SameSubs(t, Moved(t, swaps[j].previousPath, swaps[j].destination), swaps[k])
    {
      assert Apart(swaps[k], swaps[j]) && OwnPathsApart(swaps[j]);
      MovedElsewhere(t, swaps[j].previousPath, swaps[j].destination, swaps[k]);
    }
  }

  /** The staged tree is out of the way again; the old copy is where it was. */
  predicate Emptied(t0: Tree, t: Tree, s: Swap) {
    && Sub(t, s.destination) == (if s.hadExisting && !s.previousMoved then Sub(t0, s.destination) else map[])
    && Sub(t, s.previousPath) == (if s.previousMoved then Sub(t0, s.destination) else map[])
    && s.hadExisting == Exists(t0, s.destination) && (s.previousMoved ==> s.hadExisting)
  }

  /** What one undo step changes: its own swap only, and nothing elsewhere. */
  ghost predicate OnlySwap(swaps: seq<Swap>, j: nat, t: Tree, u: Tree) {
    (forall k :: 0 <= k < |swaps| && k != j ==> SameSubs(t, u, swaps[k])) && KeptElsewhere(swaps, t, u)
  }

  lemma NothingMoved(swaps: seq<Swap>, j: nat, t: Tree)
    ensures OnlySwap(swaps, j, t, t)
  {
  }

  lemma RemovedOnlySwap(t: Tree, swaps: seq<Swap>, j: nat, p: Path)
    requires AllApart(swaps) && j < |swaps| && (p == swaps[j].destination || p == swaps[j].previousPath)
    ensures OnlySwap(swaps, j, t, Without(t, p))
  {
    RemoveOthers(t, swaps, j, p);
    WithoutKeepsElsewhere(swaps, t, j, p);
  }

  lemma PutBackOnlySwap(t: Tree, swaps: seq<Swap>, j: nat)
    requires AllApart(swaps) && j < |swaps|
    ensures OnlySwap(swaps, j, t, Moved(t, swaps[j].previousPath, swaps[j].destination))
  {
    assert OwnPathsApart(swaps[j]);
    MoveOthers(t, swaps, j);
    MovedKeepsElsewhere(swaps, t, j, swaps[j].previousPath, swaps[j].destination);
  }

  lemma RemovedIsEmptied(t0: Tree, t: Tree, s: Swap)
    requires OwnPathsApart(s) && Stands(t0, t, s)
    ensures s.stagedMoved ==> Emptied(t0, Without(t, s.destination), s)
    ensures !(s.stagedMoved && Exists(t, s.destination)) ==> Emptied(t0, t, s)
  {
    WithoutSubs(t, s.destination, s.previousPath);
    ExistsIffSub(t, s.destination);
    ExistsIffSub(t0, s.destination);
  }

  lemma PutBackRestores(t0: Tree, t: Tree, s: Swap)
    requires OwnPathsApart(s) && Emptied(t0, t, s)
    ensures s.previousMoved ==> Restored(t0, Moved(t, s.previousPath, s.destination), s)
    ensures !(s.previousMoved && Exists(t, s.previousPath)) ==> Restored(t0, t, s)
    ensures NotLost(t0, t, s)
  {
    MovedSubs(t, s.previousPath, s.destination, s.stagedPath);
    ExistsIffSub(t, s.previousPath);
    ExistsIffSub(t0, s.destination);
  }

  method RemoveStaged(io: BackupIO, swaps: seq<Swap>, j: nat, ghost t0: Tree) returns (ok: bool)
    requires j < |swaps| && AllApart(swaps) && Stands(t0, io.tree, swaps[j])
    modifies io
    ensures OnlySwap(swaps, j, old(io.tree), io.tree)
    ensures if ok then Emptied(t0, io.tree, swaps[j]) else io.tree == old(io.tree)
    ensures old(io.calls) <= io.calls && (!ok ==> old(io.calls) < io.calls && old(io.calls) in io.fails)
  {
    assert OwnPathsApart(swaps[j]);
    RemovedIsEmptied(t0, io.tree, swaps[j]);
    RemovedOnlySwap(io.tree, swaps, j, swaps[j].destination);
    NothingMoved(swaps, j, io.tree);
    ok := true;
    if swaps[j].stagedMoved && Exists(io.tree, swaps[j].destination) {
      ok := io.Rm(swaps[j].destination);
    }
  }

  method PutBack(io: BackupIO, swaps: seq<Swap>, j: nat, ghost t0: Tree) returns (ok: bool)
    requires j < |swaps| && AllApart(swaps) && Emptied(t0, io.tree, swaps[j])
    requires swaps[j].previousMoved ==> ParentThere(io.tree, swaps[j].destination)
    modifies io
    ensures OnlySwap(swaps, j, old(io.tree), io.tree)
    ensures NotLost(t0, io.tree, swaps[j]) && (ok ==> Restored(t0, io.tree, swaps[j]))
    ensures old(io.calls) <= io.calls && (!ok ==> old(io.calls) < io.calls && old(io.calls) in io.fails)
  {
    assert OwnPathsApart(swaps[j]);
    if swaps[j].previousMoved { EmptyTarget(io.tree, swaps[j].previousPath, swaps[j].destination); }
    PutBackRestores(t0, io.tree, swaps[j]);
    PutBackOnlySwap(io.tree, swaps, j);
    NothingMoved(swaps, j, io.tree);
    ok := true;
    if swaps[j].previousMoved && Exists(io.tree, swaps[j].previousPath) {
      ok := io.Rename(swaps[j].previousPath, swaps[j].destination);
    }
  }

  lemma OnlySwapTwice(swaps: seq<Swap>, j: nat, t: Tree, u: Tree, v: Tree)
    requires OnlySwap(swaps, j, t, u) && OnlySwap(swaps, j, u, v)
    ensures OnlySwap(swaps, j, t, v)
  {
    KeptTwice(swaps, t, u, v);
    forall k | 0 <= k < |swaps| && k != j ensures SameSubs(t, v, swaps[k]) {
      assert SameSubs(t, u, swaps[k]) && SameSubs(u, v, swaps[k]);
    }
  }

  /** One swap put back; only a failing call of its own leaves it undone, and then not lost. */
  method UndoSwap(io: BackupIO, swaps: seq<Swap>, j: nat, ghost t0: Tree) returns (ok: bool)
    requires j < |swaps| && AllApart(swaps) && Stands(t0, io.tree, swaps[j])
    requires swaps[j].previousMoved ==> ParentThere(io.tree, swaps[j].destination)
    modifies io
    ensures OnlySwap(swaps, j, old(io.tree), io.tree)
    ensures NotLost(t0, io.tree, swaps[j]) && (ok ==> Restored(t0, io.tree, swaps[j]))
    ensures old(io.calls) <= io.calls && (NoFault(io.fails, old(io.calls), io.calls) ==> ok)
  {
    StandsNotLost(t0, io.tree, swaps[j]);
    ok := RemoveStaged(io, swaps, j, t0);
    if ok {
      ghost var mid := io.tree;
      ParentKept(swaps, old(io.tree), mid, j);
      ok := PutBack(io, swaps, j, t0);
      OnlySwapTwice(swaps, j, old(io.tree), mid, io.tree);
    }
  }

  method UndoOneMore(io: BackupIO, swaps: seq<Swap>, j: nat, clean: bool, ghost t0: Tree) returns (still: bool)
    requires j < |swaps| && AllApart(swaps) && Undone(t0, io.tree, swaps, j + 1, clean)
    requires swaps[j].previousMoved ==> ParentThere(io.tree, swaps[j].destination)
    modifies io
    ensures Undone(t0, io.tree, swaps, j, still)
    ensures KeptElsewhere(swaps, old(io.tree), io.tree)
    ensures old(io.calls) <= io.calls && (clean && NoFault(io.fails, old(io.calls), io.calls) ==> still)
  {
    var ok := UndoSwap(io, swaps, j, t0);
    UndoneElsewhere(t0, old(io.tree), io.tree, swaps, j, clean);
    still := clean && ok;
  }

  /** Every swap put back, the last one first; it succeeds unless a call of its own fails. */
  method RollbackRestore(io: BackupIO, swaps: seq<Swap>, ghost t0: Tree) returns (outcome: Outcome)
    requires AllApart(swaps) && AllStand(t0, io.tree, swaps) && CanGoBack(io.tree, swaps)
    modifies io
    ensures outcome == RolledBack || outcome == RollbackFailed
    ensures outcome == RolledBack ==> forall i :: 0 <= i < |swaps| ==> Restored(t0, io.tree, swaps[i])
    ensures forall i :: 0 <= i < |swaps| ==> NotLost(t0, io.tree, swaps[i])
    ensures KeptElsewhere(swaps, old(io.tree), io.tree)
    ensures old(io.calls) <= io.calls && (NoFault(io.fails, old(io.calls), io.calls) ==> outcome == RolledBack)
  {
    var clean := true;
    var j := |swaps|;
    while j > 0
      invariant 0 <= j <= |swaps|
      invariant Undone(t0, io.tree, swaps, j, clean)
      invariant KeptElsewhere(swaps, old(io.tree), io.tree)
      invariant old(io.calls) <= io.calls && (NoFault(io.fails, old(io.calls), io.calls) ==> clean)
    {
      j := j - 1;
      ghost var before, called := io.tree, io.calls;
      ParentKept(swaps, old(io.tree), before, j);
      assert old(ReturnAt(io.tree, swaps, j));
      clean := UndoOneMore(io, swaps, j, clean, t0);
      FaultsOfBoth(io.fails, old(io.calls), called, io.calls);
      KeptTwice(swaps, old(io.tree), before, io.tree);
    }
    outcome := if clean then RolledBack else RollbackFailed;
  }

  // ------------------------------------------------------------------ everything else

  /** The path lies under no path of the transaction. */
  predicate Elsewhere(swaps: seq<Swap>, q: Path) {
    forall i :: 0 <= i < |swaps| ==>
      !(swaps[i].destination <= q) && !(swaps[i].stagedPath <= q) && !(swaps[i].previousPath <= q)
  }

  predicate IsParent(swaps: seq<Swap>, q: Path) {
    exists i :: 0 <= i < |swaps| && q <= Dirname(swaps[i].destination)
  }

  /** Elsewhere everything stays as it is; only parent directories may be added. */
  ghost predicate KeptElsewhere(swaps: seq<Swap>, t: Tree, u: Tree) {
    forall q :: Elsewhere(swaps, q) ==> KeptAt(swaps, t, u, q)
  }

  predicate KeptAt(swaps: seq<Swap>, t: Tree, u: Tree, q: Path) {
    && (q in t ==> q in u && u[q] == t[q])
    && (q in u && q !in t ==> u[q] == Directory && IsParent(swaps, q))
  }

  lemma KeptTwice(swaps: seq<Swap>, t: Tree, u: Tree, v: Tree)
    requires KeptElsewhere(swaps, t, u) && KeptElsewhere(swaps, u, v)
    ensures KeptElsewhere(swaps, t, v)
  {
  }

  lemma ElsewhereSame(a: seq<Swap>, b: seq<Swap>, t: Tree, u: Tree)
    requires SameSwaps(a, b) && KeptElsewhere(a, t, u)
    ensures KeptElsewhere(b, t, u)
  {
    forall q ensures Elsewhere(a, q) <==> Elsewhere(b, q) {
      assert forall i :: 0 <= i < |a| ==> SamePaths(a[i], b[i]);
    }
    forall q | IsParent(a, q) ensures IsParent(b, q) {
      var i :| 0 <= i < |a| && q <= Dirname(a[i].destination);
      assert SamePaths(a[i], b[i]);
    }
  }

  lemma WithoutKeepsElsewhere(swaps: seq<Swap>, t: Tree, j: nat, p: Path)
    requires j < |swaps| && (p == swaps[j].destination || p == swaps[j].previousPath)
    ensures KeptElsewhere(swaps, t, Without(t, p))
  {
  }

  lemma MovedKeepsElsewhere(swaps: seq<Swap>, t: Tree, j: nat, from: Path, to: Path)
    requires j < |swaps| && Unrelated(from, to)
    requires from == swaps[j].destination || from == swaps[j].stagedPath || from == swaps[j].previousPath
    requires to == swaps[j].destination || to == swaps[j].stagedPath || to == swaps[j].previousPath
    ensures KeptElsewhere(swaps, t, Moved(t, from, to))
  {
    forall q | Elsewhere(swaps, q) ensures (q in t <==> q in Moved(t, from, to))
      && (q in t ==> Moved(t, from, to)[q] == t[q]) {
      MovedAt(t, from, to, q);
    }
  }

  lemma MadeKeepsElsewhere(swaps: seq<Swap>, t: Tree, j: nat)
    requires j < |swaps|
    ensures KeptElsewhere(swaps, t, Made(t, Dirname(swaps[j].destination)))
  {
    var p := Dirname(swaps[j].destination);
    forall n | 0 <= n <= |p| ensures IsParent(swaps, p[..n]) {
      assert p[..n] <= Dirname(swaps[j].destination);
    }
  }

  // ------------------------------------------------------------------ parents

  /** The parent of a destination is a path no move of the transaction touches. */
  lemma ParentIsElsewhere(swaps: seq<Swap>, j: nat)
    requires AllApart(swaps) && j < |swaps|
    ensures swaps[j].destination != [] && Elsewhere(swaps, Dirname(swaps[j].destination))
  {
    var p := swaps[j].destination;
    assert OwnPathsApart(swaps[j]);
    assert [] <= swaps[j].stagedPath;
    forall i | 0 <= i < |swaps|
      ensures !(swaps[i].destination <= Dirname(p)) && !(swaps[i].stagedPath <= Dirname(p))
              && !(swaps[i].previousPath <= Dirname(p))
    {
      if i != j { assert Apart(swaps[i], swaps[j]); }
      DirnamePrefix(swaps[i].destination, p);
      DirnamePrefix(swaps[i].stagedPath, p);
      DirnamePrefix(swaps[i].previousPath, p);
    }
  }

  predicate ParentAt(t: Tree, swaps: seq<Swap>, k: nat)
    requires k < |swaps|
  {
    ParentThere(t, swaps[k].destination)
  }

  predicate ParentsThere(t: Tree, swaps: seq<Swap>, n: int) {
    forall k :: 0 <= k < |swaps| && k < n ==> ParentAt(t, swaps, k)
  }

  /** What was moved aside can be renamed back. */
  predicate CanGoBack(t: Tree, swaps: seq<Swap>) {
    forall k :: 0 <= k < |swaps| ==> ReturnAt(t, swaps, k)
  }

  predicate ReturnAt(t: Tree, swaps: seq<Swap>, k: nat)
    requires k < |swaps|
  {
    swaps[k].previousMoved ==> ParentAt(t, swaps, k)
  }

  lemma ParentKept(swaps: seq<Swap>, t: Tree, u: Tree, k: nat)
    requires AllApart(swaps) && k < |swaps| && KeptElsewhere(swaps, t, u)
    ensures ParentThere(t, swaps[k].destination) ==> ParentThere(u, swaps[k].destination)
  {
    ParentIsElsewhere(swaps, k);
  }

  lemma ParentsKept(swaps: seq<Swap>, t: Tree, u: Tree, n: int)
    requires AllApart(swaps) && KeptElsewhere(swaps, t, u)
    ensures ParentsThere(t, swaps, n) ==> ParentsThere(u, swaps, n)
  {
    forall k | 0 <= k < |swaps| ensures ParentAt(t, swaps, k) ==> ParentAt(u, swaps, k) {
      ParentKept(swaps, t, u, k);
    }
  }

  lemma MadeIsThere(t: Tree, p: Path)
    ensures ParentThere(Made(t, Dirname(p)), p)
  {
    var d := Dirname(p);
    assert d[..|d|] == d;
  }

  /** The old copy stands beside its destination. */
  predicate Beside(s: Swap) {
    s.previousPath != [] && Dirname(s.previousPath) == Dirname(s.destination)
  }

  predicate AllBeside(swaps: seq<Swap>) {
    forall i :: 0 <= i < |swaps| ==> Beside(swaps[i])
  }

  lemma EmptyTarget(t: Tree, from: Path, to: Path)
    requires Sub(t, to) == map[]
    ensures CanReplace(t, from, to)
  {
    ExistsIffSub(t, to);
  }

  // ------------------------------------------------------------------ the swap of all directories

  function SwapsOf(t: Tree, entries: seq<Target>, transactionId: string): (r: seq<Swap>)
    ensures |r| == |entries|
  {
    seq(|entries|, i requires 0 <= i < |entries| => SwapOf(t, entries[i], transactionId))
  }

  /** The transaction's own paths are apart and its backup names are free. */
  ghost predicate Prepared(t: Tree, plan: seq<Swap>) {
    AllApart(plan) && forall i :: 0 <= i < |plan| ==> Sub(t, plan[i].previousPath) == map[]
  }

  ghost predicate Progress(t0: Tree, t: Tree, plan: seq<Swap>, swaps: seq<Swap>) {
    SameSwaps(plan, swaps) && AllApart(swaps) && AllStand(t0, t, swaps) && KeptElsewhere(swaps, t0, t)
  }

  lemma Started(t: Tree, entries: seq<Target>, transactionId: string)
    requires Prepared(t, SwapsOf(t, entries, transactionId))
    ensures Progress(t, t, SwapsOf(t, entries, transactionId), SwapsOf(t, entries, transactionId))
  {
    var plan := SwapsOf(t, entries, transactionId);
    forall i | 0 <= i < |plan| ensures Stands(t, t, plan[i]) {
      assert plan[i] == SwapOf(t, entries[i], transactionId);
    }
  }

  /** Swaps before `i` are aside if they had anything, the others untouched. */
  predicate AsideUpTo(swaps: seq<Swap>, i: int) {
    forall k :: 0 <= k < |swaps| ==> !swaps[k].stagedMoved && swaps[k].previousMoved == (k < i && swaps[k].hadExisting)
  }

  /** Before destination `i` moves aside. */
  ghost predicate MovingAside(t0: Tree, t: Tree, plan: seq<Swap>, swaps: seq<Swap>, i: int) {
    Progress(t0, t, plan, swaps) && ParentsThere(t, swaps, i) && AsideUpTo(swaps, i)
  }

  /** First every destination aside, each with its parent made. */
  method MoveAside(io: BackupIO, plan: seq<Swap>, ghost t0: Tree) returns (ok: bool, swaps: seq<Swap>)
    requires Progress(t0, io.tree, plan, plan) && AsideUpTo(plan, 0) && AllBeside(plan)
    modifies io
    ensures Progress(t0, io.tree, plan, swaps) && CanGoBack(io.tree, swaps)
    ensures ok ==> AsideUpTo(swaps, |swaps|) && ParentsThere(io.tree, swaps, |swaps|)
    ensures if ok then NoFault(io.fails, old(io.calls), io.calls) else LastFailed(io.fails, old(io.calls), io.calls)
  {
    swaps := plan;
    var i := 0;
    while i < |swaps|
      invariant 0 <= i <= |swaps| && MovingAside(t0, io.tree, plan, swaps, i)
      invariant NoFault(io.fails, old(io.calls), io.calls)
    {
      ghost var called := io.calls;
      ok, swaps := MoveNextAside(io, plan, swaps, i, t0);
      MoreCalls(io.fails, old(io.calls), called, io.calls);
      if !ok {
        return;
      }
      i := i + 1;
    }
    AsideCanGoBack(io.tree, swaps, i);
    ok := true;
  }

  lemma OneMoreParent(before: seq<Swap>, swaps: seq<Swap>, t: Tree, i: nat)
    requires i < |before| && SameSwaps(before, swaps) && ParentsThere(t, before, i)
             && ParentThere(t, before[i].destination)
    ensures ParentsThere(t, swaps, i + 1)
  {
    forall k | 0 <= k <= i ensures ParentAt(t, swaps, k) {
      assert SamePaths(before[k], swaps[k]);
      assert k < i ==> ParentAt(t, before, k);
    }
  }

  lemma AsideCanGoBack(t: Tree, swaps: seq<Swap>, i: int)
    requires ParentsThere(t, swaps, i) && AsideUpTo(swaps, i)
    ensures CanGoBack(t, swaps)
  {
  }

  method MoveNextAside(io: BackupIO, plan: seq<Swap>, before: seq<Swap>, i: nat, ghost t0: Tree)
    returns (ok: bool, swaps: seq<Swap>)
    requires i < |before| && MovingAside(t0, io.tree, plan, before, i) && AllBeside(plan)
    modifies io
    ensures Progress(t0, io.tree, plan, swaps) && CanGoBack(io.tree, swaps) && |swaps| == |before|
    ensures ok ==> MovingAside(t0, io.tree, plan, swaps, i + 1)
    ensures if ok then NoFault(io.fails, old(io.calls), io.calls) else LastFailed(io.fails, old(io.calls), io.calls)
  {
    ok, swaps := MoveOneAside(io, plan, before, i, t0);
    ParentsKept(before, old(io.tree), io.tree, i);
    if ok {
      OneMoreAside(before, swaps, i);
      OneMoreParent(before, swaps, io.tree, i);
      AsideCanGoBack(io.tree, swaps, i + 1);
    } else {
      AsideCanGoBack(io.tree, swaps, i);
    }
  }

  lemma OneMoreAside(before: seq<Swap>, swaps: seq<Swap>, i: nat)
    requires i < |before| && AsideUpTo(before, i)
    requires swaps == if before[i].hadExisting then before[i := before[i].(previousMoved := true)] else before
    ensures AsideUpTo(swaps, i + 1)
  {
  }

  method MakeParent(io: BackupIO, plan: seq<Swap>, swaps: seq<Swap>, i: nat, ghost t0: Tree) returns (ok: bool)
    requires Progress(t0, io.tree, plan, swaps) && i < |swaps|
    modifies io
    ensures Progress(t0, io.tree, plan, swaps) && KeptElsewhere(swaps, old(io.tree), io.tree)
    ensures ok ==> ParentThere(io.tree, swaps[i].destination)
    ensures io.calls == old(io.calls) + 1 && ok == (old(io.calls) !in io.fails)
  {
    MadeKeeps(t0, io.tree, swaps, i);
    MadeKeepsElsewhere(swaps, io.tree, i);
    NothingMoved(swaps, i, io.tree);
    MadeIsThere(io.tree, swaps[i].destination);
    ok := io.Mkdir(Dirname(swaps[i].destination));
    if ok { KeptTwice(swaps, t0, old(io.tree), io.tree); }
  }

  method MoveOneAside(io: BackupIO, plan: seq<Swap>, before: seq<Swap>, i: nat, ghost t0: Tree)
    returns (ok: bool, swaps: seq<Swap>)
    requires Progress(t0, io.tree, plan, before) && i < |before| && !before[i].previousMoved && !before[i].stagedMoved
    requires AllBeside(plan)
    modifies io
    ensures Progress(t0, io.tree, plan, swaps) && KeptElsewhere(before, old(io.tree), io.tree)
    ensures swaps == if ok && before[i].hadExisting then before[i := before[i].(previousMoved := true)] else before
    ensures ok ==> ParentThere(io.tree, before[i].destination)
    ensures if ok then NoFault(io.fails, old(io.calls), io.calls) else LastFailed(io.fails, old(io.calls), io.calls)
  {
    swaps := before;
    ok := MakeParent(io, plan, before, i, t0);
    OneMoreCall(io.fails, old(io.calls), old(io.calls));
    if ok && before[i].hadExisting {
      OneMoreCall(io.fails, old(io.calls), io.calls);
      ghost var made := io.tree;
      ok, swaps := BackUp(io, plan, before, i, t0);
      ParentKept(before, made, io.tree, i);
      KeptTwice(before, old(io.tree), made, io.tree);
    }
  }

  lemma BesideHasParent(t: Tree, plan: seq<Swap>, swaps: seq<Swap>, i: nat)
    requires AllApart(swaps) && AllBeside(plan) && SameSwaps(plan, swaps) && i < |swaps|
    ensures ParentThere(t, swaps[i].destination) ==> ParentThere(t, swaps[i].previousPath)
  {
    assert SamePaths(plan[i], swaps[i]) && Beside(plan[i]);
    ParentIsElsewhere(swaps, i);
  }

  method BackUp(io: BackupIO, plan: seq<Swap>, before: seq<Swap>, i: nat, ghost t0: Tree)
      returns (ok: bool, swaps: seq<Swap>)
    requires Progress(t0, io.tree, plan, before) && i < |before|
    requires before[i].hadExisting && !before[i].previousMoved && !before[i].stagedMoved
    requires AllBeside(plan) && ParentThere(io.tree, before[i].destination)
    modifies io
    ensures Progress(t0, io.tree, plan, swaps) && KeptElsewhere(before, old(io.tree), io.tree)
    ensures swaps == if ok then before[i := before[i].(previousMoved := true)] else before
    ensures io.calls == old(io.calls) + 1 && ok == (old(io.calls) !in io.fails)
  {
    var s := before[i];
    assert OwnPathsApart(s) && Stands(t0, io.tree, s);
    BesideHasParent(io.tree, plan, before, i);
    EmptyTarget(io.tree, s.destination, s.previousPath);
    NothingMoved(before, i, io.tree);
    ExistsIffSub(io.tree, s.destination);
    ExistsIffSub(t0, s.destination);
    BackUpKeeps(t0, io.tree, before, i);
    MovedKeepsElsewhere(before, io.tree, i, s.destination, s.previousPath);
    ghost var was := io.tree;
    ok := io.Rename(s.destination, s.previousPath);
    swaps := before;
    if ok {
      KeptTwice(before, t0, was, io.tree);
      swaps := before[i := s.(previousMoved := true)];
      ApartKept(before, swaps);
      ElsewhereSame(before, swaps, t0, io.tree);
    }
  }

  predicate StagedUpTo(t0: Tree, plan: seq<Swap>, n: int) {
    forall i :: 0 <= i < |plan| && i < n ==> Exists(t0, plan[i].stagedPath)
  }

  predicate AllStaged(t0: Tree, plan: seq<Swap>) { StagedUpTo(t0, plan, |plan|) }

  /** Old copies are aside, staged trees before `i` in place. */
  predicate InUpTo(swaps: seq<Swap>, i: int) {
    forall k :: 0 <= k < |swaps| ==> swaps[k].previousMoved == swaps[k].hadExisting && swaps[k].stagedMoved == (k < i)
  }

  lemma OneMoreIn(before: seq<Swap>, swaps: seq<Swap>, i: nat)
    requires i < |before| && InUpTo(before, i) && swaps == before[i := before[i].(stagedMoved := true)]
    ensures InUpTo(swaps, i + 1)
  {
  }

  /** The last call, and no earlier one, failed, or it found its staged tree missing. */
  ghost predicate StoppedSwap(fails: set<nat>, a: nat, b: nat, t0: Tree, plan: seq<Swap>) {
    a < b && NoFault(fails, a, b - 1) && (b - 1 in fails || !AllStaged(t0, plan))
  }

  lemma ParentsStay(before: seq<Swap>, swaps: seq<Swap>, t: Tree, u: Tree)
    requires AllApart(before) && KeptElsewhere(before, t, u) && SameSwaps(before, swaps)
    requires ParentsThere(t, before, |before|)
    ensures ParentsThere(u, swaps, |swaps|) && CanGoBack(u, swaps)
  {
    forall k | 0 <= k < |swaps| ensures ParentAt(u, swaps, k) {
      assert ParentAt(t, before, k);
      ParentKept(before, t, u, k);
      assert SamePaths(before[k], swaps[k]);
    }
  }

  /** Before staged tree `i` moves in. */
  ghost predicate MovingIn(t0: Tree, t: Tree, plan: seq<Swap>, swaps: seq<Swap>, i: int) {
    && Progress(t0, t, plan, swaps) && ParentsThere(t, swaps, |swaps|) && CanGoBack(t, swaps)
    && StagedUpTo(t0, plan, i) && InUpTo(swaps, i)
  }

  /** Then every staged tree in. */
  method MoveIn(io: BackupIO, plan: seq<Swap>, start: seq<Swap>, ghost t0: Tree) returns (ok: bool, swaps: seq<Swap>)
    requires Progress(t0, io.tree, plan, start)
    requires AsideUpTo(start, |start|) && ParentsThere(io.tree, start, |start|)
    modifies io
    ensures Progress(t0, io.tree, plan, swaps) && CanGoBack(io.tree, swaps)
    ensures ok ==> InUpTo(swaps, |swaps|)
    ensures ok ==> NoFault(io.fails, old(io.calls), io.calls) && AllStaged(t0, plan)
    ensures !ok ==> StoppedSwap(io.fails, old(io.calls), io.calls, t0, plan)
    ensures old(io.calls) <= io.calls
  {
    swaps := start;
    var i := 0;
    while i < |swaps|
      invariant 0 <= i <= |swaps| && MovingIn(t0, io.tree, plan, swaps, i)
      invariant NoFault(io.fails, old(io.calls), io.calls)
    {
      ghost var called := io.calls;
      ok, swaps := MoveOneIn(io, plan, swaps, i, t0);
      OneMoreCall(io.fails, old(io.calls), called);
      if !ok {
        return;
      }
      i := i + 1;
    }
    ok := true;
  }

  method MoveOneIn(io: BackupIO, plan: seq<Swap>, before: seq<Swap>, i: nat, ghost t0: Tree)
      returns (ok: bool, swaps: seq<Swap>)
    requires i < |before| && MovingIn(t0, io.tree, plan, before, i)
    modifies io
    ensures Progress(t0, io.tree, plan, swaps) && CanGoBack(io.tree, swaps) && |swaps| == |before|
    ensures ok ==> MovingIn(t0, io.tree, plan, swaps, i + 1)
    ensures io.calls == old(io.calls) + 1
    ensures ok ==> old(io.calls) !in io.fails
    ensures !ok ==> old(io.calls) in io.fails || !AllStaged(t0, plan)
  {
    assert ParentAt(io.tree, before, i);
    ok, swaps := SwapIn(io, plan, before, i, t0);
    ParentsStay(before, swaps, old(io.tree), io.tree);
    if ok { OneMoreIn(before, swaps, i); }
  }

  lemma StagedStillThere(t0: Tree, t: Tree, s: Swap)
    requires Stands(t0, t, s) && !s.stagedMoved
    ensures Exists(t, s.stagedPath) == Exists(t0, s.stagedPath)
  {
    ExistsIffSub(t, s.stagedPath);
    ExistsIffSub(t0, s.stagedPath);
  }

  lemma DestinationIsFree(t0: Tree, t: Tree, s: Swap)
    requires Stands(t0, t, s) && s.previousMoved == s.hadExisting && !s.stagedMoved
    ensures Sub(t, s.destination) == map[]
  {
    ExistsIffSub(t0, s.destination);
  }

  method SwapIn(io: BackupIO, plan: seq<Swap>, before: seq<Swap>, i: nat, ghost t0: Tree)
      returns (ok: bool, swaps: seq<Swap>)
    requires Progress(t0, io.tree, plan, before) && i < |before|
    requires before[i].previousMoved == before[i].hadExisting && !before[i].stagedMoved
    requires ParentThere(io.tree, before[i].destination)
    modifies io
    ensures Progress(t0, io.tree, plan, swaps) && KeptElsewhere(before, old(io.tree), io.tree)
    ensures swaps == if ok then before[i := before[i].(stagedMoved := true)] else before
    ensures io.calls == old(io.calls) + 1 && ok == (old(io.calls) !in io.fails && Exists(t0, plan[i].stagedPath))
  {
    var s := before[i];
    assert OwnPathsApart(s) && SamePaths(plan[i], s);
    DestinationIsFree(t0, io.tree, s);
    EmptyTarget(io.tree, s.stagedPath, s.destination);
    NothingMoved(before, i, io.tree);
    StagedStillThere(t0, io.tree, s);
    SwapInKeeps(t0, io.tree, before, i);
    MovedKeepsElsewhere(before, io.tree, i, s.stagedPath, s.destination);
    ghost var was := io.tree;
    ok := io.Rename(s.stagedPath, s.destination);
    swaps := before;
    if ok {
      KeptTwice(before, t0, was, io.tree);
      swaps := before[i := s.(stagedMoved := true)];
      ApartKept(before, swaps);
      ElsewhereSame(before, swaps, t0, io.tree);
    }
  }

  predicate InPlace(t0: Tree, t: Tree, s: Swap) {
    Sub(t, s.destination) == Sub(t0, s.stagedPath) && Sub(t, s.stagedPath) == map[]
  }

  /** Swaps before `n` are cleaned up, the others still stand with their staged tree in. */
  ghost predicate CleanedUpTo(t0: Tree, t: Tree, swaps: seq<Swap>, n: nat) {
    && (forall k :: 0 <= k < |swaps| && k < n ==> Replaced(t0, t, swaps[k]))
    && forall k :: n <= k < |swaps| ==> Stands(t0, t, swaps[k]) && swaps[k].stagedMoved
  }

  lemma CleanedStep(t0: Tree, t: Tree, u: Tree, swaps: seq<Swap>, i: nat)
    requires i < |swaps| && CleanedUpTo(t0, t, swaps, i) && OnlySwap(swaps, i, t, u) && Replaced(t0, u, swaps[i])
    ensures CleanedUpTo(t0, u, swaps, i + 1)
  {
    forall k | 0 <= k < i ensures Replaced(t0, u, swaps[k]) {
      assert SameSubs(t, u, swaps[k]) && Replaced(t0, t, swaps[k]);
    }
    forall k | i < k < |swaps| ensures Stands(t0, u, swaps[k]) { StandsWithSameSubs(t0, t, u, swaps[k]); }
  }

  lemma CleanedInPlace(t0: Tree, t: Tree, swaps: seq<Swap>, n: nat)
    requires CleanedUpTo(t0, t, swaps, n)
    ensures forall k :: 0 <= k < |swaps| ==> InPlace(t0, t, swaps[k])
  {
    forall k | 0 <= k < |swaps| ensures InPlace(t0, t, swaps[k]) {
      if k < n { assert Replaced(t0, t, swaps[k]); } else { assert Stands(t0, t, swaps[k]); }
    }
  }

  /** Last the old copies away. */
  method RemoveOld(io: BackupIO, swaps: seq<Swap>, ghost t0: Tree) returns (ok: bool)
    requires AllApart(swaps) && CleanedUpTo(t0, io.tree, swaps, 0)
    modifies io
    ensures forall i :: 0 <= i < |swaps| ==> InPlace(t0, io.tree, swaps[i])
    ensures ok ==> forall i :: 0 <= i < |swaps| ==> Replaced(t0, io.tree, swaps[i])
    ensures KeptElsewhere(swaps, old(io.tree), io.tree)
    ensures if ok then NoFault(io.fails, old(io.calls), io.calls) else LastFailed(io.fails, old(io.calls), io.calls)
  {
    var i := 0;
    while i < |swaps|
      invariant 0 <= i <= |swaps| && KeptElsewhere(swaps, old(io.tree), io.tree)
      invariant CleanedUpTo(t0, io.tree, swaps, i)
      invariant NoFault(io.fails, old(io.calls), io.calls)
    {
      ghost var before, called := io.tree, io.calls;
      ok := RemoveOneOld(io, swaps, i, t0);
      OneMoreCall(io.fails, old(io.calls), called);
      KeptTwice(swaps, old(io.tree), before, io.tree);
      if !ok {
        CleanedInPlace(t0, io.tree, swaps, i);
        return;
      }
      CleanedStep(t0, before, io.tree, swaps, i);
      i := i + 1;
    }
    CleanedInPlace(t0, io.tree, swaps, i);
    ok := true;
  }

  lemma OldRemoved(t0: Tree, t: Tree, s: Swap)
    requires OwnPathsApart(s) && Stands(t0, t, s) && s.stagedMoved
    ensures Replaced(t0, Without(t, s.previousPath), s)
    ensures !(s.previousMoved && Exists(t, s.previousPath)) ==> Replaced(t0, t, s)
  {
    WithoutSubs(t, s.previousPath, s.destination);
    WithoutSubs(t, s.previousPath, s.stagedPath);
    ExistsIffSub(t, s.previousPath);
  }

  method RemoveOneOld(io: BackupIO, swaps: seq<Swap>, i: nat, ghost t0: Tree) returns (ok: bool)
    requires AllApart(swaps) && i < |swaps| && Stands(t0, io.tree, swaps[i]) && swaps[i].stagedMoved
    modifies io
    ensures ok ==> Replaced(t0, io.tree, swaps[i])
    ensures !ok ==> io.tree == old(io.tree)
    ensures OnlySwap(swaps, i, old(io.tree), io.tree)
    ensures ok ==> io.calls == old(io.calls) || (io.calls == old(io.calls) + 1 && old(io.calls) !in io.fails)
    ensures !ok ==> io.calls == old(io.calls) + 1 && old(io.calls) in io.fails
  {
    assert OwnPathsApart(swaps[i]);
    OldRemoved(t0, io.tree, swaps[i]);
    RemovedOnlySwap(io.tree, swaps, i, swaps[i].previousPath);
    NothingMoved(swaps, i, io.tree);
    ok := true;
    if swaps[i].previousMoved && Exists(io.tree, swaps[i].previousPath) {
      ok := io.Rm(swaps[i].previousPath);
    }
  }

  lemma PlanIsBeside(t: Tree, entries: seq<Target>, transactionId: string)
    requires AllApart(SwapsOf(t, entries, transactionId))
    ensures AllBeside(SwapsOf(t, entries, transactionId))
  {
    var plan := SwapsOf(t, entries, transactionId);
    forall i | 0 <= i < |plan| ensures Beside(plan[i]) {
      ParentIsElsewhere(plan, i);
      var d := entries[i].destination;
      assert PreviousPath(d, transactionId)[..|d| - 1] == Dirname(d);
    }
  }

  /** What each outcome says of the destinations. */
  predicate OutcomeHolds(t0: Tree, t: Tree, plan: seq<Swap>, outcome: Outcome) {
    match outcome
    case Done => forall i :: 0 <= i < |plan| ==> Replaced(t0, t, plan[i])
    case RolledBack => forall i :: 0 <= i < |plan| ==> Restored(t0, t, plan[i])
    case RollbackFailed => forall i :: 0 <= i < |plan| ==> NotLost(t0, t, plan[i])
    case CleanupFailed => forall i :: 0 <= i < |plan| ==> InPlace(t0, t, plan[i])
  }

  /** All or nothing: done, every destination holds its staged tree and no old copy is left;
      rolled back, every destination is exactly what it was; and if the rollback itself
      failed, no destination's old contents are lost. Nothing else changes, but for parent
      directories.  Done means every staged tree was there and no call failed; a rollback
      starts at call `undo`, right behind the first call that failed or found its staged tree
      missing, and succeeds unless a call from there on fails. */
  method ReplaceDirectories(io: BackupIO, entries: seq<Target>, transactionId: string)
    returns (outcome: Outcome, ghost undo: nat)
    requires Prepared(io.tree, SwapsOf(io.tree, entries, transactionId))
    modifies io
    ensures var plan := SwapsOf(old(io.tree), entries, transactionId);
            OutcomeHolds(old(io.tree), io.tree, plan, outcome) && KeptElsewhere(plan, old(io.tree), io.tree)
    ensures var staged := AllStaged(old(io.tree), SwapsOf(old(io.tree), entries, transactionId));
            match outcome
            case Done => staged && NoFault(io.fails, old(io.calls), io.calls)
            case CleanupFailed => staged && LastFailed(io.fails, old(io.calls), io.calls)
            case RolledBack => old(io.calls) < undo && NoFault(io.fails, old(io.calls), undo - 1)
                               && (undo - 1 in io.fails || !staged)
            case RollbackFailed => old(io.calls) < undo && NoFault(io.fails, old(io.calls), undo - 1)
                                   && (undo - 1 in io.fails || !staged)
                                   && undo <= io.calls && !NoFault(io.fails, undo, io.calls)
    ensures AllStaged(old(io.tree), SwapsOf(old(io.tree), entries, transactionId)) ==>
              (forall n :: old(io.calls) <= n ==> n !in io.fails) ==> outcome == Done
  {
    ghost var t0 := io.tree;
    var plan := SwapsOf(io.tree, entries, transactionId);
    Started(t0, entries, transactionId);
    PlanIsBeside(t0, entries, transactionId);
    var ok, swaps := MoveAside(io, plan, t0);
    if ok {
      ok, swaps := MoveIn(io, plan, swaps, t0);
    }
    undo := io.calls;
    ghost var mid := io.tree;
    if !ok {
      outcome := RollbackRestore(io, swaps, t0);
    } else {
      ok := RemoveOld(io, swaps, t0);
      outcome := if ok then Done else CleanupFailed;
    }
    KeptTwice(swaps, t0, mid, io.tree);
    SamePlan(t0, io.tree, plan, swaps);
    ElsewhereSame(swaps, plan, t0, io.tree);
  }

  lemma SamePlan(t0: Tree, t: Tree, plan: seq<Swap>, swaps: seq<Swap>)
    requires SameSwaps(plan, swaps)
    ensures SameSwaps(swaps, plan)
    ensures forall i :: 0 <= i < |plan| ==>
              && Replaced(t0, t, plan[i]) == Replaced(t0, t, swaps[i])
              && Restored(t0, t, plan[i]) == Restored(t0, t, swaps[i])
              && NotLost(t0, t, plan[i]) == NotLost(t0, t, swaps[i])
              && InPlace(t0, t, plan[i]) == InPlace(t0, t, swaps[i])
  {
    forall i | 0 <= i < |plan| ensures SamePaths(plan[i], swaps[i]) {}
  }
}
