/** The repeat detector of the edit statistics: the longest run of lines that occurs again further down. */
module LongestRepeat {
  import opened Outcomes

  /** Lines i..i+k and j..j+k are equal and do not overlap. */
  predicate CommonRun(block: seq<string>, i: nat, j: nat, k: nat) {
    i + k <= j && j + k <= |block| && block[i..i + k] == block[j..j + k]
  }

  lemma CommonAt(block: seq<string>, i: nat, j: nat, k: nat, m: nat)
    requires CommonRun(block, i, j, m) && k < m
    ensures block[i + k] == block[j + k]
  {
    assert block[i..i + m][k] == block[j..j + m][k];
  }

  /** Extends a common run as far as it goes. */
  function RunFrom(block: seq<string>, i: nat, j: nat, k: nat): nat
    requires i + k <= j && j + k <= |block|
    decreases |block| - (j + k)
  {
    if i + k < j && j + k < |block| && block[i + k] == block[j + k] then RunFrom(block, i, j, k + 1) else k
  }

  lemma {:induction false} RunFromIsLongest(block: seq<string>, i: nat, j: nat, k: nat)
    requires CommonRun(block, i, j, k)
    ensures k <= RunFrom(block, i, j, k) && CommonRun(block, i, j, RunFrom(block, i, j, k))
    ensures forall m: nat | CommonRun(block, i, j, m) :: m <= RunFrom(block, i, j, k)
    decreases |block| - (j + k)
  {
    if i + k < j && j + k < |block| && block[i + k] == block[j + k] {
      assert block[i..i + k + 1] == block[i..i + k] + [block[i + k]];
      assert block[j..j + k + 1] == block[j..j + k] + [block[j + k]];
      RunFromIsLongest(block, i, j, k + 1);
    } else {
      forall m: nat | CommonRun(block, i, j, m) ensures m <= k {
        if m > k { CommonAt(block, i, j, k, m); }
      }
    }
  }

  function Run(block: seq<string>, i: nat, j: nat): nat {
    if i <= j <= |block| then RunFrom(block, i, j, 0) else 0
  }

  /** The run the detector measures is the longest common run of the two positions. */
  lemma RunIsLongest(block: seq<string>, i: nat, j: nat)
    requires i <= j <= |block|
    ensures CommonRun(block, i, j, Run(block, i, j))
    ensures forall m: nat | CommonRun(block, i, j, m) :: m <= Run(block, i, j)
  {
    RunFromIsLongest(block, i, j, 0);
  }

  method RunLength(block: seq<string>, i: nat, j: nat) returns (k: nat)
    requires i <= j <= |block|
    ensures k == Run(block, i, j) && i + k <= j && j + k <= |block|
  {
    k := 0;
    while i + k < j && j + k < |block| && block[i + k] == block[j + k]
      invariant i + k <= j && j + k <= |block|
      invariant Run(block, i, j) == RunFrom(block, i, j, k)
    {
      k := k + 1;
    }
  }

  function Meaningful(lines: seq<string>, meaningful: string -> bool): (n: nat)
    ensures n <= |lines|
  {
    if lines == [] then 0
    else Meaningful(lines[..|lines| - 1], meaningful) + if meaningful(lines[|lines| - 1]) then 1 else 0
  }

  function Max(a: int, b: int): int { if a >= b then a else b }

  /** The longest common run at i and j is long enough and at least half meaningful. */
  predicate Qualifies(block: seq<string>, minLen: nat, meaningful: string -> bool, i: nat, j: nat) {
    && i < j <= |block|
    && var k := Run(block, i, j);
       k >= minLen && i + k <= |block| && Meaningful(block[i..i + k], meaningful) >= Max((k + 1) / 2, 2)
  }

  /** `best` is the greatest qualifying run among the pairs in `seen`, at its earliest start. */
  ghost predicate Best(block: seq<string>, minLen: nat, meaningful: string -> bool,
                       seen: (nat, nat) -> bool, best: Option<(nat, nat)>) {
    && (best.None? ==> forall i: nat, j: nat :: seen(i, j) ==> !Qualifies(block, minLen, meaningful, i, j))
    && (best.Some? ==>
          && (exists j: nat :: seen(best.value.0, j) && Qualifies(block, minLen, meaningful, best.value.0, j)
                               && Run(block, best.value.0, j) == best.value.1)
          && forall i: nat, j: nat :: seen(i, j) && Qualifies(block, minLen, meaningful, i, j) ==>
               Run(block, i, j) <= best.value.1 && (Run(block, i, j) == best.value.1 ==> best.value.0 <= i))
  }

  /** Pairs the two loops have visited once they stand at (i, j). */
  ghost function Before(i: nat, j: nat): (nat, nat) -> bool { (a: nat, b: nat) => a < i || (a == i && b < j) }

  ghost function Every(): (nat, nat) -> bool { (a: nat, b: nat) => true }

  /** A pair qualifies only inside the ranges the loops cover. */
  lemma QualifiesInRange(block: seq<string>, minLen: nat, meaningful: string -> bool, i: nat, j: nat)
    requires Qualifies(block, minLen, meaningful, i, j)
    ensures i + minLen <= j && j + minLen <= |block|
  {
    RunIsLongest(block, i, j);
  }

  lemma BestStep(block: seq<string>, minLen: nat, meaningful: string -> bool, i: nat, j: nat, best: Option<(nat, nat)>, next: Option<(nat, nat)>)
    requires Best(block, minLen, meaningful, Before(i, j), best) && (best.Some? ==> best.value.0 <= i)
    requires if Qualifies(block, minLen, meaningful, i, j) && (best.None? || Run(block, i, j) > best.value.1)
             then next == Some((i, Run(block, i, j))) else next == best
    ensures Best(block, minLen, meaningful, Before(i, j + 1), next)
  {
    hide Qualifies, Run;
    if next != best {
      assert Before(i, j + 1)(i, j);
    } else if best.Some? {
      var w: nat :| Before(i, j)(best.value.0, w) && Qualifies(block, minLen, meaningful, best.value.0, w) && Run(block, best.value.0, w) == best.value.1;
      assert Before(i, j + 1)(best.value.0, w);
    }
  }

  /** Moving to a wider set of pairs adds nothing when no further pair qualifies. */
  lemma BestWiden(block: seq<string>, minLen: nat, meaningful: string -> bool,
                  seen: (nat, nat) -> bool, wider: (nat, nat) -> bool, best: Option<(nat, nat)>)
    requires Best(block, minLen, meaningful, seen, best)
    requires forall i: nat, j: nat :: seen(i, j) ==> wider(i, j)
    requires forall i: nat, j: nat :: wider(i, j) && Qualifies(block, minLen, meaningful, i, j) ==> seen(i, j)
    ensures Best(block, minLen, meaningful, wider, best)
  {
    hide Qualifies, Run;
    if best.Some? {
      var w: nat :| seen(best.value.0, w) && Qualifies(block, minLen, meaningful, best.value.0, w) && Run(block, best.value.0, w) == best.value.1;
      assert wider(best.value.0, w);
    }
  }

  /** The inner loop: all partners of position i. */
  method ScanRow(block: seq<string>, minLen: nat, meaningful: string -> bool, i: nat, start: Option<(nat, nat)>)
    returns (best: Option<(nat, nat)>)
    requires i + minLen <= |block| && (start.Some? ==> start.value.0 < i)
    requires Best(block, minLen, meaningful, Before(i, 0), start)
    ensures best.Some? ==> best.value.0 <= i
    ensures Best(block, minLen, meaningful, Before(i + 1, 0), best)
  {
    hide Qualifies, Best, Run, Meaningful, Before;
    best := start;
    SkipTo(block, minLen, meaningful, i, best);
    var j := i + minLen;
    while j < |block| - minLen + 1
      invariant i + minLen <= j
      invariant best.Some? ==> best.value.0 <= i
      invariant Best(block, minLen, meaningful, Before(i, j), best)
      decreases |block| - j
    {
      var k := RunLength(block, i, j);
      ghost var before := best;
      if k >= minLen && Meaningful(block[i..i + k], meaningful) >= Max((k + 1) / 2, 2) {
        if best.None? || k > best.value.1 { best := Some((i, k)); }
      }
      PairQualifies(block, minLen, meaningful, i, j, k);
      BestStep(block, minLen, meaningful, i, j, before, best);
      j := j + 1;
    }
    EndRow(block, minLen, meaningful, i, j, best);
  }

  /** `find_longest_repeat`: an early exit for short blocks, then every start in turn. */
  method FindLongestRepeat(block: seq<string>, minLen: nat, meaningful: string -> bool) returns (best: Option<(nat, nat)>)
    ensures Best(block, minLen, meaningful, Every(), best)
  {
    hide Qualifies, Best, Before, Every;
    best := None;
    if |block| < 2 * minLen {
      TooShort(block, minLen, meaningful);
      return;
    }
    StartBest(block, minLen, meaningful);
    for i := 0 to |block| - minLen + 1
      invariant best.Some? ==> best.value.0 < i
      invariant Best(block, minLen, meaningful, Before(i, 0), best)
    {
      best := ScanRow(block, minLen, meaningful, i, best);
    }
    EndAll(block, minLen, meaningful, best);
  }

  lemma TooShort(block: seq<string>, minLen: nat, meaningful: string -> bool)
    requires |block| < 2 * minLen
    ensures Best(block, minLen, meaningful, Every(), None)
  {
    forall i: nat, j: nat ensures !Qualifies(block, minLen, meaningful, i, j) {
      if Qualifies(block, minLen, meaningful, i, j) { QualifiesInRange(block, minLen, meaningful, i, j); }
    }
  }

  lemma StartBest(block: seq<string>, minLen: nat, meaningful: string -> bool)
    ensures Best(block, minLen, meaningful, Before(0, 0), None)
  {
  }

  lemma PairQualifies(block: seq<string>, minLen: nat, meaningful: string -> bool, i: nat, j: nat, k: nat)
    requires i <= j <= |block| && k == Run(block, i, j) && i + k <= j
    ensures Qualifies(block, minLen, meaningful, i, j) <==>
            i < j && k >= minLen && Meaningful(block[i..i + k], meaningful) >= Max((k + 1) / 2, 2)
    ensures i == j ==> Meaningful(block[i..i + k], meaningful) < Max((k + 1) / 2, 2)
  {
  }

  lemma SkipTo(block: seq<string>, minLen: nat, meaningful: string -> bool, i: nat, best: Option<(nat, nat)>)
    requires Best(block, minLen, meaningful, Before(i, 0), best)
    ensures Best(block, minLen, meaningful, Before(i, i + minLen), best)
  {
    forall a: nat, b: nat | Before(i, i + minLen)(a, b) && Qualifies(block, minLen, meaningful, a, b) ensures Before(i, 0)(a, b) {
      QualifiesInRange(block, minLen, meaningful, a, b);
    }
    BestWiden(block, minLen, meaningful, Before(i, 0), Before(i, i + minLen), best);
  }

  lemma EndRow(block: seq<string>, minLen: nat, meaningful: string -> bool, i: nat, j: nat, best: Option<(nat, nat)>)
    requires Best(block, minLen, meaningful, Before(i, j), best) && j + minLen > |block|
    ensures Best(block, minLen, meaningful, Before(i + 1, 0), best)
  {
    forall a: nat, b: nat | Before(i + 1, 0)(a, b) && Qualifies(block, minLen, meaningful, a, b) ensures Before(i, j)(a, b) {
      QualifiesInRange(block, minLen, meaningful, a, b);
    }
    BestWiden(block, minLen, meaningful, Before(i, j), Before(i + 1, 0), best);
  }

  lemma EndAll(block: seq<string>, minLen: nat, meaningful: string -> bool, best: Option<(nat, nat)>)
    requires |block| >= minLen && Best(block, minLen, meaningful, Before(|block| - minLen + 1, 0), best)
    ensures Best(block, minLen, meaningful, Every(), best)
  {
    var seen := Before(|block| - minLen + 1, 0);
    forall a: nat, b: nat | Every()(a, b) && Qualifies(block, minLen, meaningful, a, b) ensures seen(a, b) {
      QualifiesInRange(block, minLen, meaningful, a, b);
    }
    BestWiden(block, minLen, meaningful, seen, Every(), best);
  }
}
