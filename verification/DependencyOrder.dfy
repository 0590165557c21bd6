/**
 Kahn's algorithm with the declaration order as priority, on a graph whose nodes are declaration
 positions: g[i] holds the positions that i depends on.
 */
module DependencyOrder {
  import opened Outcomes
  import opened SeqSets

  type Graph = seq<set<nat>>

  predicate Closed(g: Graph) { forall i, d :: 0 <= i < |g| && d in g[i] ==> d < |g| }

  predicate Ready(g: Graph, placed: set<nat>, i: nat) { i < |g| && i !in placed && g[i] <= placed }

  /** The least ready node from `i` on. */
  function FirstReady(g: Graph, placed: set<nat>, i: nat): (r: Option<nat>)
    requires i <= |g|
    ensures r.Some? ==> i <= r.value && Ready(g, placed, r.value) && forall j :: i <= j < r.value ==> !Ready(g, placed, j)
    ensures r.None? ==> forall j :: i <= j ==> !Ready(g, placed, j)
    decreases |g| - i
  {
    if i == |g| then None else if Ready(g, placed, i) then Some(i) else FirstReady(g, placed, i + 1)
  }

  /** Repeatedly places the earliest node whose dependencies are all placed. */
  function Greedy(g: Graph, placed: set<nat>): (order: seq<nat>)
    ensures forall i :: 0 <= i < |order| ==> order[i] < |g|
    decreases Below(|g|) - placed
  {
    match FirstReady(g, placed, 0)
    case None => []
    case Some(k) => [k] + Greedy(g, placed + {k})
  }

  // ---------------------------------------------------------------- least topological order

  /** `t` places each node after its dependencies, starting from `placed`. */
  predicate Topological(g: Graph, placed: set<nat>, t: seq<nat>)
    decreases |t|
  {
    t == [] || (Ready(g, placed, t[0]) && Topological(g, placed + {t[0]}, t[1..]))
  }

  /** `t` places every node. */
  predicate Covers(g: Graph, placed: set<nat>, t: seq<nat>) { Below(|g|) <= placed + Elements(t) }

  lemma {:induction false} GreedyTopological(g: Graph, placed: set<nat>)
    ensures Topological(g, placed, Greedy(g, placed))
    decreases Below(|g|) - placed
  {
    var first := FirstReady(g, placed, 0);
    if first.Some? { GreedyTopological(g, placed + {first.value}); }
  }

  predicate LexLeq(a: seq<nat>, b: seq<nat>) {
    a == [] || (b != [] && (a[0] < b[0] || (a[0] == b[0] && LexLeq(a[1..], b[1..]))))
  }

  lemma ElementsCons<T>(x: T, s: seq<T>)
    ensures Elements([x] + s) == {x} + Elements(s)
  {
  }

  lemma {:induction false} GreedyIsLeast(g: Graph, placed: set<nat>, t: seq<nat>)
    requires Topological(g, placed, t) && Covers(g, placed, t)
    ensures LexLeq(Greedy(g, placed), t)
    decreases |t|
  {
    var first := FirstReady(g, placed, 0);
    if first.Some? {
      var k := first.value;
      assert k in Below(|g|) - placed;
      assert t != [];
      if t[0] == k {
        assert t == [k] + t[1..];
        ElementsCons(k, t[1..]);
        GreedyIsLeast(g, placed + {k}, t[1..]);
      }
    }
  }

  lemma DistinctCons<T>(x: T, s: seq<T>)
    requires Distinct(s) && x !in Elements(s)
    ensures Distinct([x] + s)
  {
  }

  lemma {:induction false} TopologicalDistinct(g: Graph, placed: set<nat>, t: seq<nat>)
    requires Topological(g, placed, t)
    ensures Distinct(t) && Elements(t) !! placed && Elements(t) <= Below(|g|)
    decreases |t|
  {
    if t != [] {
      var rest := t[1..];
      TopologicalDistinct(g, placed + {t[0]}, rest);
      assert t == [t[0]] + rest;
      ElementsCons(t[0], rest);
      assert t[0] !in Elements(rest);
      DistinctCons(t[0], rest);
    }
  }

  /** A topological sequence places each node after all its dependencies. */
  lemma {:induction false} TopologicalDependencies(g: Graph, placed: set<nat>, t: seq<nat>, i: nat)
    requires Topological(g, placed, t) && i < |t|
    ensures t[i] < |g| && g[t[i]] <= placed + Elements(t[..i])
    decreases |t|
  {
    if i > 0 {
      TopologicalDependencies(g, placed + {t[0]}, t[1..], i - 1);
      assert t[..i] == [t[0]] + t[1..][..i - 1];
      ElementsCons(t[0], t[1..][..i - 1]);
    }
  }

  /** A sequence of distinct nodes is full exactly when it covers all of them. */
  lemma FullWhenCovering(n: nat, t: seq<nat>)
    requires Distinct(t) && Elements(t) <= Below(n)
    ensures |t| == n <==> Below(n) <= Elements(t)
  {
    DistinctCount(t);
    SubsetCount(Elements(t), Below(n));
    if Below(n) <= Elements(t) { assert Elements(t) == Below(n); }
  }

  lemma GreedyFull(g: Graph)
    ensures |Greedy(g, {})| == |g| <==> Covers(g, {}, Greedy(g, {}))
  {
    hide Greedy, Topological, Elements, Below;
    var t := Greedy(g, {});
    GreedyTopological(g, {});
    TopologicalDistinct(g, {}, t);
    FullWhenCovering(|g|, t);
    assert {} + Elements(t) == Elements(t);
  }

  // ---------------------------------------------------------------- cycles

  /** Each node of `c` depends on the next one, and the last on the first. */
  predicate Cycle(g: Graph, c: seq<nat>) {
    && c != [] && (forall k :: 0 <= k < |c| ==> c[k] < |g|)
    && forall k :: 0 <= k < |c| ==> c[if k + 1 < |c| then k + 1 else 0] in g[c[k]]
  }

  ghost predicate HasCycle(g: Graph) { exists c: seq<nat> :: Cycle(g, c) }

  /** No node of a cycle is ever placed. */
  lemma {:induction false} CycleNeverPlaced(g: Graph, placed: set<nat>, c: seq<nat>)
    requires Cycle(g, c) && Elements(c) !! placed
    ensures Elements(Greedy(g, placed)) !! Elements(c)
    decreases Below(|g|) - placed
  {
    var first := FirstReady(g, placed, 0);
    if first.Some? {
      var f := first.value;
      forall j | 0 <= j < |c| ensures c[j] != f {
        assert c[if j + 1 < |c| then j + 1 else 0] in Elements(c);
      }
      CycleNeverPlaced(g, placed + {f}, c);
      ElementsCons(f, Greedy(g, placed + {f}));
    }
  }

  /** A walk that keeps stepping to an unplaced dependency. */
  ghost function Walk(g: Graph, placed: set<nat>, i: nat, len: nat): (w: seq<nat>)
    requires FirstReady(g, placed, 0).None? && Closed(g) && i < |g| && i !in placed
    ensures |w| == len + 1 && w[0] == i && forall k :: 0 <= k <= len ==> w[k] < |g|
    ensures forall k :: 0 <= k < len ==> w[k + 1] in g[w[k]]
    decreases len
  {
    if len == 0 then [i]
    else
      assert !Ready(g, placed, i);
      var next :| next in g[i] && next !in placed;
      [i] + Walk(g, placed, next, len - 1)
  }

  lemma StuckHasCycle(g: Graph, placed: set<nat>, i: nat)
    requires FirstReady(g, placed, 0).None? && Closed(g) && i < |g| && i !in placed
    ensures HasCycle(g)
  {
    var w := Walk(g, placed, i, |g|);
    var a, b := Pigeonhole(w, |g|);
    var c := w[a..b];
    forall k | 0 <= k < |c| ensures c[if k + 1 < |c| then k + 1 else 0] in g[c[k]] {
      assert c[k] == w[a + k] && w[a + k + 1] in g[w[a + k]];
    }
    assert Cycle(g, c);
  }

  /** After the greedy order nothing is ready. */
  lemma {:induction false} GreedyEnds(g: Graph, placed: set<nat>)
    ensures FirstReady(g, placed + Elements(Greedy(g, placed)), 0).None?
    decreases Below(|g|) - placed
  {
    var first := FirstReady(g, placed, 0);
    if first.Some? {
      var f := first.value;
      var rest := Greedy(g, placed + {f});
      GreedyEnds(g, placed + {f});
      ElementsCons(f, rest);
      assert placed + {f} + Elements(rest) == placed + Elements(Greedy(g, placed));
    } else {
      assert placed + Elements<nat>([]) == placed;
    }
  }

  /** The order is complete exactly when the graph has no cycle, a self-dependency included. */
  lemma CompleteExactlyWithoutCycle(g: Graph)
    requires Closed(g)
    ensures |Greedy(g, {})| == |g| <==> !HasCycle(g)
  {
    var t := Greedy(g, {});
    GreedyFull(g);
    hide Greedy;
    assert {} + Elements(t) == Elements(t);
    if HasCycle(g) {
      var c: seq<nat> :| Cycle(g, c);
      CycleNeverPlaced(g, {}, c);
      assert c[0] in Elements(c) && c[0] in Below(|g|);
    }
    if !Covers(g, {}, t) {
      GreedyEnds(g, {});
      var i :| i in Below(|g|) && i !in Elements(t);
      StuckHasCycle(g, Elements(t), i);
    }
  }

  // ---------------------------------------------------------------- the algorithm

  /** The first `k` nodes that depend on `n`, in declaration order. */
  function Dependents(g: Graph, n: nat, k: nat): (ds: seq<nat>)
    requires k <= |g|
    ensures forall x :: x in ds <==> 0 <= x < k && n in g[x]
    ensures Distinct(ds)
  {
    if k == 0 then [] else Dependents(g, n, k - 1) + if n in g[k - 1] then [k - 1] else []
  }

  predicate DependentsUpTo(g: Graph, dependents: seq<seq<nat>>, k: nat)
    requires k <= |g|
  {
    |dependents| == |g| && forall n :: 0 <= n < |g| ==> dependents[n] == Dependents(g, n, k)
  }

  /** Lists node `k` under each of its dependencies. */
  method AddEdges(g: Graph, k: nat, before: seq<seq<nat>>) returns (dependents: seq<seq<nat>>, count: nat)
    requires Closed(g) && k < |g| && DependentsUpTo(g, before, k)
    ensures DependentsUpTo(g, dependents, k + 1) && count == |g[k]|
  {
    dependents, count := before, 0;
    var todo := g[k];
    while todo != {}
      invariant todo <= g[k] && count == |g[k]| - |todo| && |dependents| == |g|
      invariant forall n :: 0 <= n < |g| ==> dependents[n] == Dependents(g, n, k) + if n in g[k] && n !in todo then [k] else []
      decreases todo
    {
      var d :| d in todo;
      count := count + 1;
      dependents := dependents[d := dependents[d] + [k]];
      todo := todo - {d};
    }
    forall n | 0 <= n < |g| ensures dependents[n] == Dependents(g, n, k + 1) {
      assert Dependents(g, n, k) + [] == Dependents(g, n, k);
    }
  }

  /** Unplaced nodes count their unplaced dependencies; placed nodes have none left. */
  ghost predicate Progress(g: Graph, placed: set<nat>, indegree: seq<int>) {
    && |indegree| == |g|
    && (forall i :: 0 <= i < |g| && i !in placed ==> indegree[i] == |g[i] - placed|)
    && (forall i :: 0 <= i < |g| && i in placed ==> g[i] <= placed)
  }

  ghost predicate ReadyList(g: Graph, placed: set<nat>, ready: seq<nat>) {
    Distinct(ready) && forall k: nat :: k in ready <==> Ready(g, placed, k)
  }

  lemma OneLess(deps: set<nat>, placed: set<nat>, n: nat)
    requires n in deps && n !in placed
    ensures |deps - (placed + {n})| == |deps - placed| - 1
    ensures |deps - placed| == 1 <==> deps <= placed + {n}
  {
    var left := deps - (placed + {n});
    assert deps - placed == left + {n};
    if deps <= placed + {n} { assert left == {}; }
    if left == {} { assert deps <= placed + {n}; }
  }

  /** Tables while the dependents of `next` in `done` have been released. */
  ghost predicate Releasing(g: Graph, placed: set<nat>, next: nat, done: seq<nat>, indegree: seq<int>, ready: seq<nat>) {
    && |indegree| == |g| && Distinct(ready)
    && (forall i :: 0 <= i < |g| && i !in placed ==> indegree[i] == |g[i] - placed| - if i in done then 1 else 0)
    && forall k: nat :: k in ready <==> || (k != next && Ready(g, placed, k))
                                        || (k in done && k < |g| && g[k] <= placed + {next})
  }

  lemma ReleaseOne(g: Graph, placed: set<nat>, next: nat, done: seq<nat>, k: nat, indegree: seq<int>, ready: seq<nat>)
    requires next !in placed && k < |g| && k !in placed && k !in done && next in g[k]
    requires Releasing(g, placed, next, done, indegree, ready)
    ensures |indegree| == |g|
    ensures var remaining := indegree[k] - 1;
            Releasing(g, placed, next, done + [k], indegree[k := remaining], if remaining == 0 then ready + [k] else ready)
  {
    OneLess(g[k], placed, next);
    assert k !in ready;
  }

  lemma ReleaseEnds(g: Graph, placed: set<nat>, next: nat, before: seq<int>, indegree: seq<int>, ready: seq<nat>)
    requires Ready(g, placed, next) && Progress(g, placed, before)
    requires Releasing(g, placed, next, Dependents(g, next, |g|), indegree, ready)
    ensures Progress(g, placed + {next}, indegree) && ReadyList(g, placed + {next}, ready)
  {
    forall i | 0 <= i < |g| && i !in placed + {next} ensures indegree[i] == |g[i] - (placed + {next})| {
      if next in g[i] { OneLess(g[i], placed, next); } else { assert g[i] - (placed + {next}) == g[i] - placed; }
    }
  }

  /** The ready nodes other than the one being placed. */
  ghost predicate OthersReady(g: Graph, placed: set<nat>, next: nat, ready: seq<nat>) {
    Distinct(ready) && forall k: nat :: k in ready <==> k != next && Ready(g, placed, k)
  }

  lemma ReleaseStarts(g: Graph, placed: set<nat>, next: nat, indegree: seq<int>, ready: seq<nat>)
    requires Progress(g, placed, indegree) && OthersReady(g, placed, next, ready)
    ensures |indegree| == |g| && Releasing(g, placed, next, [], indegree, ready)
  {
  }

  lemma ReadyUnplaced(g: Graph, placed: set<nat>, next: nat)
    requires Ready(g, placed, next)
    ensures next !in placed
  {
  }

  lemma DependentWaits(g: Graph, placed: set<nat>, next: nat, indegree: seq<int>, p: nat)
    requires Ready(g, placed, next) && Progress(g, placed, indegree) && p < |Dependents(g, next, |g|)|
    ensures var ds := Dependents(g, next, |g|);
            ds[p] < |g| && ds[p] !in placed && ds[p] !in ds[..p] && next in g[ds[p]]
  {
    var ds := Dependents(g, next, |g|);
    assert ds[p] in ds;
  }

  /** Releases every node that waited for `next`. */
  method Release(g: Graph, ghost placed: set<nat>, next: nat, dependents: seq<nat>, indegree0: seq<int>, ready0: seq<nat>)
    returns (indegree: seq<int>, ready: seq<nat>)
    requires Ready(g, placed, next) && Progress(g, placed, indegree0) && dependents == Dependents(g, next, |g|)
    requires OthersReady(g, placed, next, ready0)
    ensures Progress(g, placed + {next}, indegree) && ReadyList(g, placed + {next}, ready)
  {
    hide Releasing, Dependents, Progress, OthersReady, ReadyList, Ready, Distinct;
    indegree, ready := indegree0, ready0;
    ReleaseStarts(g, placed, next, indegree, ready);
    for p := 0 to |dependents|
      invariant Releasing(g, placed, next, dependents[..p], indegree, ready)
    {
      DependentWaits(g, placed, next, indegree0, p);
      var k := dependents[p];
      ReadyUnplaced(g, placed, next);
      ReleaseOne(g, placed, next, dependents[..p], k, indegree, ready);
      assert dependents[..p + 1] == dependents[..p] + [k];
      var remaining := indegree[k] - 1;
      indegree := indegree[k := remaining];
      if remaining == 0 { ready := ready + [k]; }
    }
    assert dependents[..|dependents|] == dependents;
    ReleaseEnds(g, placed, next, indegree0, indegree, ready);
  }

  predicate Ascending(s: seq<nat>) { |s| <= 1 || (s[0] <= s[1] && Ascending(s[1..])) }

  function Insert(x: nat, s: seq<nat>): seq<nat> {
    if s == [] || x <= s[0] then [x] + s else [s[0]] + Insert(x, s[1..])
  }

  function Sort(s: seq<nat>): seq<nat> { if s == [] then [] else Insert(s[0], Sort(s[1..])) }

  lemma {:induction false} InsertSorts(x: nat, s: seq<nat>)
    requires Ascending(s)
    ensures Ascending(Insert(x, s)) && multiset(Insert(x, s)) == multiset(s) + multiset{x}
  {
    if s != [] && x > s[0] {
      InsertSorts(x, s[1..]);
      assert s == [s[0]] + s[1..];
      var r := Insert(x, s[1..]);
      assert ([s[0]] + r)[1..] == r;
    } else {
      assert ([x] + s)[1..] == s;
    }
  }

  lemma {:induction false} SortSorts(s: seq<nat>)
    ensures Ascending(Sort(s)) && multiset(Sort(s)) == multiset(s)
  {
    if s != [] {
      SortSorts(s[1..]);
      InsertSorts(s[0], Sort(s[1..]));
      assert s == [s[0]] + s[1..];
    }
  }

  lemma {:induction false} AscendingHead(s: seq<nat>, k: nat)
    requires Ascending(s) && k < |s|
    ensures s[0] <= s[k]
  {
    if k > 0 { AscendingHead(s[1..], k - 1); }
  }

  lemma SortedHead(ready: seq<nat>)
    requires ready != [] && Distinct(ready)
    ensures var sorted := Sort(ready);
            && |sorted| == |ready| && sorted[0] in ready && Distinct(sorted[1..])
            && (forall k :: k in sorted[1..] <==> k in ready && k != sorted[0])
            && (forall k :: k in ready ==> sorted[0] <= k)
  {
    var sorted := Sort(ready);
    SortSorts(ready);
    hide Sort;
    assert |sorted| == |multiset(sorted)| == |ready|;
    SameElements(ready, sorted);
    KeysDistinctPermute(ready, sorted, (k: nat) => k);
    assert sorted == [sorted[0]] + sorted[1..];
    forall k | k in ready ensures sorted[0] <= k {
      var i :| 0 <= i < |sorted| && sorted[i] == k;
      AscendingHead(sorted, i);
    }
  }

  /** Sorting the ready list and shifting it takes the least ready node and leaves the others. */
  lemma LeastIsFirst(g: Graph, placed: set<nat>, ready: seq<nat>)
    requires ready != [] && ReadyList(g, placed, ready)
    ensures |Sort(ready)| == |ready| && FirstReady(g, placed, 0) == Some(Sort(ready)[0])
    ensures OthersReady(g, placed, Sort(ready)[0], Sort(ready)[1..])
  {
    SortedHead(ready);
    hide Sort;
    var first := FirstReady(g, placed, 0);
    assert Ready(g, placed, Sort(ready)[0]);
    assert first.value in ready;
  }

  lemma GreedyStep(g: Graph, placed: set<nat>, order: seq<nat>, next: nat)
    requires FirstReady(g, placed, 0) == Some(next)
    ensures order + Greedy(g, placed) == order + [next] + Greedy(g, placed + {next})
    ensures next in Below(|g|) - placed && Ready(g, placed, next) && next < |g|
  {
  }

  lemma GreedyStops(g: Graph, placed: set<nat>)
    requires ReadyList(g, placed, [])
    ensures Greedy(g, placed) == []
  {
    assert forall k: nat :: !Ready(g, placed, k);
  }

  method Tables(g: Graph) returns (indegree: seq<int>, dependents: seq<seq<nat>>)
    requires Closed(g)
    ensures |indegree| == |g| && forall i :: 0 <= i < |g| ==> indegree[i] == |g[i]|
    ensures DependentsUpTo(g, dependents, |g|)
  {
    indegree, dependents := [], seq(|g|, _ => []);
    for k := 0 to |g|
      invariant |indegree| == k && forall i :: 0 <= i < k ==> indegree[i] == |g[i]|
      invariant DependentsUpTo(g, dependents, k)
    {
      var count;
      dependents, count := AddEdges(g, k, dependents);
      indegree := indegree + [count];
    }
  }

  method InitiallyReady(g: Graph, indegree: seq<int>) returns (ready: seq<nat>)
    requires |indegree| == |g| && forall i :: 0 <= i < |g| ==> indegree[i] == |g[i]|
    ensures Progress(g, {}, indegree) && ReadyList(g, {}, ready)
  {
    ready := [];
    for i := 0 to |g|
      invariant Distinct(ready) && forall k: nat :: k in ready <==> k < i && indegree[k] == 0
    {
      if indegree[i] == 0 { ready := ready + [i]; }
    }
    forall i | 0 <= i < |g| ensures indegree[i] == |g[i] - {}| { assert g[i] - {} == g[i]; }
  }

  /** The loop: sort the ready nodes, place the first, release its dependents. */
  method Kahn(g: Graph) returns (order: seq<nat>)
    requires Closed(g)
    ensures order == Greedy(g, {})
  {
    hide Sort, Progress, Dependents, Greedy, ReadyList, OthersReady, FirstReady, Ready;
    var indegree, dependents := Tables(g);
    var ready := InitiallyReady(g, indegree);
    ghost var placed: set<nat> := {};
    order := [];
    assert [] + Greedy(g, {}) == Greedy(g, {});
    while ready != []
      invariant Progress(g, placed, indegree) && ReadyList(g, placed, ready)
      invariant Greedy(g, {}) == order + Greedy(g, placed)
      decreases Below(|g|) - placed
    {
      LeastIsFirst(g, placed, ready);
      var sorted := Sort(ready);
      var next := sorted[0];
      ready := sorted[1..];
      GreedyStep(g, placed, order, next);
      indegree, ready := Release(g, placed, next, dependents[next], indegree, ready);
      order := order + [next];
      placed := placed + {next};
    }
    GreedyStops(g, placed);
    assert order + [] == order;
  }
}
