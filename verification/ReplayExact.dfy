/** What the replay of one pair returns, keeps and pays, in terms of the request, the file and the caps alone. */
module ReplayExact {
  import opened Outcomes
  import opened Intervals
  import opened ReplayPair

  // ---------------------------------------------------------------- the range of one read

  /** The first line a read returns: the requested one, a missing or zero start counting as one. */
  function FirstLine(intent: Intent): int {
    if intent.Lines? && intent.start.Some? && intent.start.value != 0 then intent.start.value else 1
  }

  /** `n` lines from the first are within the request; without an end it asks for the default page. */
  predicate Asked(intent: Intent, n: int, cfg: Config) {
    match intent
    case Bare => n <= cfg.defaultPage
    case Lines(_, Some(end)) => FirstLine(intent) + n - 1 <= end
    case Lines(_, None) => n <= cfg.defaultPage
    case _ => true
  }

  /** A read may return `n` lines: within the request, the file, the line cap and the byte cap, which allow one line at least. */
  predicate MayReturn(intent: Intent, n: int, fs: FileStats, cfg: Config) {
    && Asked(intent, n, cfg)
    && (FirstLine(intent) + n - 1 <= fs.sizeLines || FirstLine(intent) + n - 1 <= 1)
    && n <= cfg.lineCap
    && (fs.byteLines.Some? ==> n <= fs.byteLines.value || n <= 1)
  }

  /**
   A read of a range, a page or the whole file returns the longest range from its first line that it may return,
   and one line when it may return none; other reads return no range.
   */
  lemma ReturnedIsLongest(rc: ReadCall, fs: FileStats, cfg: Config)
    ensures Returned(rc, fs, cfg).None? <==> rc.intent.Conflicts? || rc.intent.Other?
    ensures Returned(rc, fs, cfg).Some? ==>
            var (start, end) := Returned(rc, fs, cfg).value;
            var n := end - start + 1;
            && start == FirstLine(rc.intent) && n >= 1
            && (n > 1 ==> MayReturn(rc.intent, n, fs, cfg))
            && forall m :: m > n ==> !MayReturn(rc.intent, m, fs, cfg)
  {
  }

  // ---------------------------------------------------------------- phase one

  /** Tokens a line costs: a bare read of a file long enough to be summarised pays 0.35 of the verbatim rate. */
  function Rate(rc: ReadCall, fs: FileStats, cfg: Config): real {
    if rc.intent.Bare? && 0 <= cfg.summarizeMin <= fs.sizeLines then 0.35 * fs.tokensPerLine else fs.tokensPerLine
  }

  function Lines(iv: Interval): int { iv.1 - iv.0 + 1 }

  /** The call returns a line that none before it returned. */
  predicate Brings(before: seq<ReadCall>, rc: ReadCall, fs: FileStats, cfg: Config) {
    && Returned(rc, fs, cfg).Some?
    && !(Range(Returned(rc, fs, cfg).value.0, Returned(rc, fs, cfg).value.1) <= Delivered(before, fs, cfg))
  }

  function Bill(calls: seq<ReadCall>, fs: FileStats, cfg: Config): real {
    if calls == [] then 0.0
    else
      var before, rc := calls[..|calls| - 1], calls[|calls| - 1];
      Bill(before, fs, cfg) + if Brings(before, rc, fs, cfg) then Lines(Returned(rc, fs, cfg).value) as real * Rate(rc, fs, cfg) else 0.0
  }

  function Bringing(calls: seq<ReadCall>, fs: FileStats, cfg: Config): nat {
    if calls == [] then 0
    else
      var before, rc := calls[..|calls| - 1], calls[|calls| - 1];
      Bringing(before, fs, cfg) + if Brings(before, rc, fs, cfg) then 1 else 0
  }

  lemma CostIs(rc: ReadCall, fs: FileStats, cfg: Config)
    requires Returned(rc, fs, cfg).Some?
    ensures var iv := Returned(rc, fs, cfg).value;
            Cost(iv.0, iv.1, fs, rc.intent.Bare?, cfg) == Lines(iv) as real * Rate(rc, fs, cfg)
  {
    hide Returned;
    ReturnedIsLongest(rc, fs, cfg);
    var n, t := Lines(Returned(rc, fs, cfg).value) as real, fs.tokensPerLine;
    assert n * (0.35 * t) == (n * t) * 0.35;
  }

  /** Phase one keeps exactly the calls that bring a new line, and charges each its whole range at its rate. */
  lemma {:induction false} PhaseOneExactly(calls: seq<ReadCall>, fs: FileStats, cfg: Config)
    ensures PhaseOne(calls, fs, cfg).tokens == Bill(calls, fs, cfg) && PhaseOne(calls, fs, cfg).kept == Bringing(calls, fs, cfg)
  {
    hide Returned, Cost, Merge, Rate, Lines, Delivered, Covered, Canonical;
    if calls != [] {
      var before, rc := calls[..|calls| - 1], calls[|calls| - 1];
      PhaseOneExactly(before, fs, cfg);
      PhaseOneDelivers(before, fs, cfg);
      if Returned(rc, fs, cfg).Some? {
        var iv := Returned(rc, fs, cfg).value;
        CostIs(rc, fs, cfg);
        assert iv.0 <= iv.1 by { ReturnedIsLongest(rc, fs, cfg); }
        ContainmentIsInclusion(PhaseOne(before, fs, cfg).covered, iv.0, iv.1);
      }
    }
  }

  // ---------------------------------------------------------------- phase two

  /** Non-empty, and the next one starts at least one line after the end. */
  predicate Apart(ivs: seq<Interval>) {
    && NonEmpty(ivs) && forall i, j :: 0 <= i < j < |ivs| ==> ivs[i].1 + 1 < ivs[j].0
  }

  lemma {:induction false} ApartIsCanonical(ivs: seq<Interval>)
    ensures Canonical(ivs) <==> Apart(ivs)
  {
    if ivs != [] {
      var rest := ivs[1..];
      ApartIsCanonical(rest);
      if Canonical(ivs) {
        forall i, j | 0 <= i < j < |ivs| ensures ivs[i].1 + 1 < ivs[j].0 {
          assert ivs[j] == rest[j - 1] && rest[0].0 <= rest[j - 1].0 by { if j > 1 { assert rest[0].1 + 1 < rest[j - 1].0; } }
          if i > 0 { assert ivs[i] == rest[i - 1]; }
        }
        forall i | 0 <= i < |ivs| ensures ivs[i].0 <= ivs[i].1 { if i > 0 { assert ivs[i] == rest[i - 1]; } }
      }
      if Apart(ivs) {
        assert forall i :: 0 <= i < |rest| ==> rest[i] == ivs[i + 1];
        assert Apart(rest);
      }
    }
  }

  lemma ApartConcat(p: seq<Interval>, q: seq<Interval>)
    requires Apart(p) && Apart(q) && forall x, y :: x in p && y in q ==> x.1 + 1 < y.0
    ensures Apart(p + q)
  {
    forall i, j | 0 <= i < j < |p + q| ensures (p + q)[i].1 + 1 < (p + q)[j].0 {
      if i < |p| { assert p[i] in p; }
      if j >= |p| { assert q[j - |p|] in q; }
    }
  }

  /** Every piece lies in one of the intervals. */
  predicate Inside(pieces: seq<Interval>, lo: int, hi: int) { forall q <- pieces :: lo <= q.0 && q.1 <= hi }

  lemma CutOneApart(p: Interval, ls: int, le: int)
    requires p.0 <= p.1 && ls <= le
    ensures Apart(CutOne(p, ls, le)) && Inside(CutOne(p, ls, le), p.0, p.1)
  {
  }

  lemma {:induction false} CutAllApart(out: seq<Interval>, ls: int, le: int, lo: int, hi: int)
    requires Apart(out) && Inside(out, lo, hi) && ls <= le
    ensures Apart(CutAll(out, ls, le)) && Inside(CutAll(out, ls, le), lo, hi)
  {
    if out != [] {
      var p, rest := out[0], out[1..];
      assert p in out && forall q <- rest :: q in out;
      assert forall i :: 0 <= i < |rest| ==> rest[i] == out[i + 1];
      assert Inside(rest, p.1 + 2, hi) by {
        forall q <- rest ensures p.1 + 2 <= q.0 { var i :| 0 <= i < |rest| && rest[i] == q; }
      }
      CutOneApart(p, ls, le);
      CutAllApart(rest, ls, le, p.1 + 2, hi);
      hide CutOne, CutAll;
      CutAllIs(out, ls, le);
      JoinApart(CutOne(p, ls, le), CutAll(rest, ls, le), lo, hi, p);
    }
  }

  lemma CutAllIs(out: seq<Interval>, ls: int, le: int)
    requires out != []
    ensures CutAll(out, ls, le) == CutOne(out[0], ls, le) + CutAll(out[1..], ls, le)
  {
    hide CutOne;
  }

  lemma JoinApart(head: seq<Interval>, tail: seq<Interval>, lo: int, hi: int, p: Interval)
    requires Apart(head) && Apart(tail) && Inside(head, p.0, p.1) && Inside(tail, p.1 + 2, hi) && lo <= p.0 <= p.1 <= hi
    ensures Apart(head + tail) && Inside(head + tail, lo, hi)
  {
    ApartConcat(head, tail);
  }

  lemma {:induction false} SubtractApart(out: seq<Interval>, ivs: seq<Interval>, lo: int, hi: int)
    requires Apart(out) && Inside(out, lo, hi) && NonEmpty(ivs)
    ensures Apart(SubtractFrom(out, ivs)) && Inside(SubtractFrom(out, ivs), lo, hi)
    decreases |ivs|
  {
    hide CutAll, Apart, Inside;
    if ivs != [] && out != [] {
      assert ivs[0].0 <= ivs[0].1;
      CutAllApart(out, ivs[0].0, ivs[0].1, lo, hi);
      SubtractApart(CutAll(out, ivs[0].0, ivs[0].1), ivs[1..], lo, hi);
    }
  }

  lemma {:induction false} GapsApart(needs: seq<Interval>, covered: seq<Interval>, hi: int)
    requires Apart(needs) && NonEmpty(covered) && forall q <- needs :: q.1 <= hi
    ensures Apart(GapsFrom(needs, covered))
    ensures needs != [] ==> Inside(GapsFrom(needs, covered), needs[0].0, hi)
  {
    if needs != [] {
      var p, rest := needs[0], needs[1..];
      assert p in needs && forall q <- rest :: q in needs;
      assert forall i :: 0 <= i < |rest| ==> rest[i] == needs[i + 1];
      assert Apart([p]) && Inside([p], p.0, p.1);
      SubtractApart([p], covered, p.0, p.1);
      GapsApart(rest, covered, hi);
      assert Inside(GapsFrom(rest, covered), p.1 + 2, hi);
      hide SubtractFrom, GapsFrom;
      GapsIs(needs, covered);
      JoinApart(SubtractFrom([p], covered), GapsFrom(rest, covered), p.0, hi, p);
    }
  }

  lemma GapsIs(needs: seq<Interval>, covered: seq<Interval>)
    requires needs != []
    ensures GapsFrom(needs, covered) == SubtractFrom([needs[0]], covered) + GapsFrom(needs[1..], covered)
  {
    hide SubtractFrom;
  }

  lemma {:induction false} Bound(ivs: seq<Interval>) returns (hi: int)
    ensures forall q <- ivs :: q.1 <= hi
  {
    hi := 0;
    if ivs != [] {
      var h := Bound(ivs[1..]);
      hi := Max(h, ivs[0].1);
      assert ivs == [ivs[0]] + ivs[1..];
    }
  }

  /** The gaps are the maximal runs of missing lines: the one canonical list of them. */
  lemma GapsAreRuns(calls: seq<ReadCall>, fs: FileStats, cfg: Config, runs: seq<Interval>)
    requires Canonical(runs) && Covered(runs) == Missing(calls, fs, cfg)
    ensures Gaps(calls, fs, cfg) == runs
  {
    hide Merge, PhaseOne, Delivered, Observed, Canonical, Missing, GapsFrom, Apart;
    var p, needs := PhaseOne(calls, fs, cfg), Merge(Observed(calls));
    PhaseOneDelivers(calls, fs, cfg);
    CanonicalNonEmpty(p.covered);
    MergeIsUnion(Observed(calls));
    ApartIsCanonical(needs);
    var hi := Bound(needs);
    GapsApart(needs, p.covered, hi);
    ApartIsCanonical(Gaps(calls, fs, cfg));
    GapsAreMissing(calls, fs, cfg);
    CanonicalUnique(Gaps(calls, fs, cfg), runs);
  }

  /** The fewest chunks of at most `cap` lines that hold `n` lines. */
  function Fewest(n: int, cap: int): (k: nat)
    requires cap >= 1
    ensures n > 0 ==> (k - 1) * cap < n <= k * cap
    ensures n <= 0 ==> k == 0
    decreases n
  {
    if n <= 0 then 0
    else
      var k := Fewest(n - cap, cap);
      assert (k + 1) * cap == k * cap + cap && (n > cap ==> (k - 1) * cap == k * cap - cap);
      k + 1
  }

  lemma {:induction false} ChunksAreFewest(s: int, e: int, cap: int)
    requires cap >= 1 && s <= e
    ensures |ChunksFrom(s, e, cap)| == Fewest(e - s + 1, cap)
    decreases e - s
  {
    if s + cap - 1 < e {
      ChunksAreFewest(s + cap, e, cap);
    } else {
      assert ChunksFrom(e + 1, e, cap) == [];
    }
  }

  function FewestChunks(runs: seq<Interval>, cap: int): int
    requires cap >= 1 || runs == []
  {
    if runs == [] then 0 else Fewest(Lines(runs[0]), cap) + FewestChunks(runs[1..], cap)
  }

  lemma {:induction false} ChunkAllCount(runs: seq<Interval>, cap: int)
    requires (cap >= 1 || runs == []) && NonEmpty(runs)
    ensures |ChunkAll(runs, cap)| == FewestChunks(runs, cap)
  {
    hide ChunksFrom, Fewest;
    if runs != [] {
      ChunksAreFewest(runs[0].0, runs[0].1, cap);
      ChunkAllCount(runs[1..], cap);
    }
  }

  /** Lines one read may return at most, whatever it asks for. */
  function CapLines(fs: FileStats, cfg: Config): int {
    match fs.byteLines
    case None => cfg.lineCap
    case Some(n) => if n < 1 then Min(cfg.lineCap, 1) else Min(cfg.lineCap, n)
  }

  /** Each maximal run of missing lines is read in the fewest chunks the caps allow, and in no more roundtrips. */
  lemma ShortfallIsFewest(calls: seq<ReadCall>, fs: FileStats, cfg: Config, runs: seq<Interval>)
    requires Ends(calls, fs, cfg) && Canonical(runs) && Covered(runs) == Missing(calls, fs, cfg)
    ensures CapLines(fs, cfg) >= 1 || runs == []
    ensures |Shortfall(calls, fs, cfg)| == FewestChunks(runs, CapLines(fs, cfg))
  {
    GapsAreRuns(calls, fs, cfg, runs);
    GapsAreMissing(calls, fs, cfg);
    CanonicalNonEmpty(runs);
    assert CapOf(fs, cfg) == CapLines(fs, cfg);
    hide *;
    ChunkAllCount(runs, CapOf(fs, cfg));
    ShortfallIs(calls, fs, cfg);
  }

  lemma ShortfallIs(calls: seq<ReadCall>, fs: FileStats, cfg: Config)
    requires Ends(calls, fs, cfg)
    ensures CapOf(fs, cfg) >= 1 || Gaps(calls, fs, cfg) == []
    ensures Shortfall(calls, fs, cfg) == ChunkAll(Gaps(calls, fs, cfg), CapOf(fs, cfg))
  {
    hide ChunkAll, Gaps;
    GapsAreMissing(calls, fs, cfg);
  }
}