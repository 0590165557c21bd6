/** The Pareto frontier over replayed configurations: fewer tokens and fewer calls are better. */
module Frontier {
  import opened Outcomes

  datatype Score = Score(config: int, tokens: real, calls: nat, truncations: nat)

  predicate AtMost(a: Score, b: Score) { a.tokens < b.tokens || (a.tokens == b.tokens && a.calls <= b.calls) }

  /** `a` is at least as good as `b` on both axes. */
  predicate Covers(a: Score, b: Score) { a.tokens <= b.tokens && a.calls <= b.calls }

  predicate Clean(r: Score, maxTruncations: nat, maxTokens: Option<real>) { r.truncations <= maxTruncations && (maxTokens.Some? ==> r.tokens <= maxTokens.value) }

  function Filter(results: seq<Score>, maxTruncations: nat, maxTokens: Option<real>): (out: seq<Score>)
    ensures forall r :: r in out <==> r in results && Clean(r, maxTruncations, maxTokens)
  {
    if results == [] then []
    else (if Clean(results[0], maxTruncations, maxTokens) then [results[0]] else []) + Filter(results[1..], maxTruncations, maxTokens)
  }

  predicate Ascending(s: seq<Score>) { forall i, j :: 0 <= i < j < |s| ==> AtMost(s[i], s[j]) }

  /** Stable insertion sort by tokens, then calls. */
  function Insert(r: Score, s: seq<Score>): (out: seq<Score>)
    requires Ascending(s)
    ensures Ascending(out) && forall x :: x in out <==> x == r || x in s
  {
    if s == [] || AtMost(r, s[0]) then [r] + s
    else
      var tail := Insert(r, s[1..]);
      assert s == [s[0]] + s[1..];
      assert forall x <- tail :: AtMost(s[0], x);
      [s[0]] + tail
  }

  function Sort(s: seq<Score>): (out: seq<Score>)
    ensures Ascending(out) && forall x :: x in out <==> x in s
  {
    if s == [] then [] else assert s == [s[0]] + s[1..]; Insert(s[0], Sort(s[1..]))
  }

  /** Strictly more tokens buy strictly fewer calls. */
  predicate Trade(s: seq<Score>) { forall i, j :: 0 <= i < j < |s| ==> s[i].tokens < s[j].tokens && s[i].calls > s[j].calls }

  predicate CoversAll(s: seq<Score>, others: seq<Score>) { forall r <- others :: exists f <- s :: Covers(f, r) }

  predicate SameScore(a: Score, b: Score) { a.tokens == b.tokens && a.calls == b.calls }

  /** The results that score like `k`, in order. */
  function Like(s: seq<Score>, k: Score): seq<Score> {
    if s == [] then [] else (if SameScore(s[0], k) then [s[0]] else []) + Like(s[1..], k)
  }

  lemma {:induction false} LikeConcat(a: seq<Score>, b: seq<Score>, k: Score)
    ensures Like(a + b, k) == Like(a, k) + Like(b, k)
  {
    if a == [] {
      assert a + b == b;
    } else {
      assert (a + b)[1..] == a[1..] + b;
      LikeConcat(a[1..], b, k);
    }
  }

  lemma {:induction false} InsertStable(r: Score, s: seq<Score>, k: Score)
    requires Ascending(s)
    ensures Like(Insert(r, s), k) == Like([r] + s, k)
  {
    if s != [] && !AtMost(r, s[0]) {
      InsertStable(r, s[1..], k);
      var tail := Insert(r, s[1..]);
      assert ([s[0]] + tail)[1..] == tail && ([r] + s)[1..] == s && ([r] + s[1..])[1..] == s[1..];
    }
  }

  /** Sorting is stable: results with equal scores keep their order. */
  lemma {:induction false} SortStable(s: seq<Score>, k: Score)
    ensures Like(Sort(s), k) == Like(s, k)
  {
    if s != [] {
      SortStable(s[1..], k);
      InsertStable(s[0], Sort(s[1..]), k);
      var sorted := Sort(s[1..]);
      assert ([s[0]] + sorted)[1..] == sorted;
    }
  }

  /** The first of the results that score like it. */
  predicate First(f: Score, s: seq<Score>) { Like(s, f) != [] && Like(s, f)[0] == f }

  lemma {:induction false} LikeIsEmpty(s: seq<Score>, k: Score)
    requires forall x <- s :: !SameScore(x, k)
    ensures Like(s, k) == []
  {
    if s != [] {
      assert s[0] in s;
      LikeIsEmpty(s[1..], k);
    }
  }

  lemma FirstGrows(f: Score, s: seq<Score>, r: Score)
    requires First(f, s)
    ensures First(f, s + [r])
  {
    LikeConcat(s, [r], f);
  }

  lemma FirstNew(s: seq<Score>, r: Score)
    requires forall x <- s :: !SameScore(x, r)
    ensures First(r, s + [r])
  {
    LikeConcat(s, [r], r);
    LikeIsEmpty(s, r);
  }

  /** `pareto`. */
  method Pareto(results: seq<Score>, maxTruncations: nat, maxTokens: Option<real>) returns (frontier: seq<Score>)
    ensures forall f <- frontier :: f in results && Clean(f, maxTruncations, maxTokens)
    ensures Trade(frontier)
    ensures CoversAll(frontier, Filter(results, maxTruncations, maxTokens))
    ensures forall f <- frontier :: First(f, Filter(results, maxTruncations, maxTokens))
  {
    var clean := Sort(Filter(results, maxTruncations, maxTokens));
    hide Trade, CoversAll, Sort, Filter, Clean, Ascending, First;
    frontier := [];
    FrontierStart(clean);
    for i := 0 to |clean|
      invariant Prefix(clean, i, frontier)
    {
      var best := if frontier == [] then clean[i].calls + 1 else frontier[|frontier| - 1].calls;
      FrontierStep(clean, i, frontier);
      if clean[i].calls < best { frontier := frontier + [clean[i]]; }
    }
    FrontierEnd(clean, frontier, Filter(results, maxTruncations, maxTokens));
    forall f <- frontier ensures First(f, Filter(results, maxTruncations, maxTokens)) {
      FirstUnsorted(f, Filter(results, maxTruncations, maxTokens));
    }
  }

  lemma FirstUnsorted(f: Score, s: seq<Score>)
    requires First(f, Sort(s))
    ensures First(f, s)
  {
    SortStable(s, f);
  }

  /** The frontier of the scores seen so far. */
  predicate FrontierOf(seen: seq<Score>, frontier: seq<Score>) {
    (forall f <- frontier :: f in seen && First(f, seen)) && Trade(frontier) && CoversAll(frontier, seen)
  }

  predicate Prefix(clean: seq<Score>, i: nat, frontier: seq<Score>)
    requires i <= |clean|
  {
    FrontierOf(clean[..i], frontier)
  }

  lemma FrontierStart(clean: seq<Score>)
    ensures Prefix(clean, 0, [])
  {
  }

  lemma FrontierEnd(clean: seq<Score>, frontier: seq<Score>, unsorted: seq<Score>)
    requires Prefix(clean, |clean|, frontier) && forall x :: x in clean <==> x in unsorted
    ensures Trade(frontier) && CoversAll(frontier, unsorted) && forall f <- frontier :: f in unsorted && First(f, clean)
  {
    assert clean[..|clean|] == clean;
  }

  /** A score with fewer calls than the last of the frontier extends it; any other is covered by that last one. */
  lemma FrontierStep(clean: seq<Score>, i: nat, frontier: seq<Score>)
    requires Ascending(clean) && i < |clean| && Prefix(clean, i, frontier)
    ensures frontier == [] || clean[i].calls < frontier[|frontier| - 1].calls ==> Prefix(clean, i + 1, frontier + [clean[i]])
    ensures frontier != [] && clean[i].calls >= frontier[|frontier| - 1].calls ==> Prefix(clean, i + 1, frontier)
  {
    var r, seen := clean[i], clean[..i];
    assert clean[..i + 1] == seen + [r];
    if frontier != [] { LastIsCheaper(clean, i, frontier); }
    hide Ascending, AtMost, FrontierOf;
    if frontier == [] || r.calls < frontier[|frontier| - 1].calls {
      FrontierExtends(seen, frontier, r);
    } else {
      FrontierKeeps(seen, frontier, r);
    }
  }

  lemma FrontierExtends(seen: seq<Score>, frontier: seq<Score>, r: Score)
    requires FrontierOf(seen, frontier)
    requires frontier != [] ==> var last := frontier[|frontier| - 1]; last.tokens < r.tokens && r.calls < last.calls
    ensures FrontierOf(seen + [r], frontier + [r])
  {
    hide First, Trade, CoversAll;
    forall f <- frontier ensures First(f, seen + [r]) { FirstGrows(f, seen, r); }
    NoneLike(frontier, seen, r);
    FirstNew(seen, r);
    TradeExtends(frontier, r);
    CoversMore(frontier, seen, r);
  }

  lemma FrontierKeeps(seen: seq<Score>, frontier: seq<Score>, r: Score)
    requires FrontierOf(seen, frontier) && frontier != [] && Covers(frontier[|frontier| - 1], r)
    ensures FrontierOf(seen + [r], frontier)
  {
    hide First, Trade, CoversAll;
    forall f <- frontier ensures First(f, seen + [r]) { FirstGrows(f, seen, r); }
    CoversOneMore(frontier, seen, r);
  }

  /** A score with fewer calls than the whole frontier is new. */
  lemma NoneLike(frontier: seq<Score>, others: seq<Score>, r: Score)
    requires Trade(frontier) && CoversAll(frontier, others) && (frontier != [] ==> r.calls < frontier[|frontier| - 1].calls)
    ensures forall x <- others :: !SameScore(x, r)
  {
    forall x <- others ensures !SameScore(x, r) {
      var f :| f in frontier && Covers(f, x);
      var i :| 0 <= i < |frontier| && frontier[i] == f;
      assert i < |frontier| - 1 ==> frontier[i].calls > frontier[|frontier| - 1].calls;
    }
  }

  lemma LastIsCheaper(clean: seq<Score>, i: nat, frontier: seq<Score>)
    requires Ascending(clean) && i < |clean| && frontier != [] && forall f <- frontier :: f in clean[..i]
    ensures AtMost(frontier[|frontier| - 1], clean[i])
    ensures frontier[|frontier| - 1].tokens <= clean[i].tokens
    ensures clean[i].calls < frontier[|frontier| - 1].calls ==> frontier[|frontier| - 1].tokens < clean[i].tokens
  {
    var last := frontier[|frontier| - 1];
    assert last in clean[..i];
    var k :| 0 <= k < i && clean[k] == last;
    assert AtMost(clean[k], clean[i]);
  }

  lemma TradeExtends(frontier: seq<Score>, r: Score)
    requires Trade(frontier)
    requires frontier != [] ==> var last := frontier[|frontier| - 1]; last.tokens < r.tokens && r.calls < last.calls
    ensures Trade(frontier + [r])
  {
    forall i | 0 <= i < |frontier| ensures frontier[i].tokens < r.tokens && frontier[i].calls > r.calls {
      var last := frontier[|frontier| - 1];
      assert i < |frontier| - 1 ==> frontier[i].tokens < last.tokens && frontier[i].calls > last.calls;
    }
  }

  lemma CoversMore(frontier: seq<Score>, others: seq<Score>, r: Score)
    requires CoversAll(frontier, others)
    ensures CoversAll(frontier + [r], others + [r])
  {
    var more := frontier + [r];
    forall x <- others + [r] ensures exists f <- more :: Covers(f, x) {
      if x in others {
        var f :| f in frontier && Covers(f, x);
        assert f in more;
      } else {
        assert r in more && Covers(r, x);
      }
    }
  }

  lemma CoversOneMore(frontier: seq<Score>, others: seq<Score>, r: Score)
    requires CoversAll(frontier, others) && frontier != [] && Covers(frontier[|frontier| - 1], r)
    ensures CoversAll(frontier, others + [r])
  {
    assert frontier[|frontier| - 1] in frontier;
  }

  /** No clean result beats a member of such a list: whatever is at least as good scores the same. */
  lemma FrontierIsOptimal(frontier: seq<Score>, clean: seq<Score>, f: Score, r: Score)
    requires Trade(frontier) && CoversAll(frontier, clean) && f in frontier && r in clean && Covers(r, f)
    ensures r.tokens == f.tokens && r.calls == f.calls
  {
    var g :| g in frontier && Covers(g, r);
    var i :| 0 <= i < |frontier| && frontier[i] == f;
    var j :| 0 <= j < |frontier| && frontier[j] == g;
    assert i == j;
  }
}
