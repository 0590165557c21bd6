/**
 The two-phase replay of one (session, file) pair: observed calls under a candidate configuration,
 then synthetic chunks for every line the agent received and the configuration did not deliver.
 */
module ReplayPair {
  import opened Outcomes
  import opened Intervals

  datatype Intent = Bare | Lines(start: Option<int>, end: Option<int>) | Raw | Conflicts | Other

  datatype ReadCall = ReadCall(intent: Intent, actual: Option<Interval>)

  /** `byteLines` is the byte cap turned into lines, when a bytes-per-line estimate exists. */
  datatype FileStats = FileStats(sizeLines: int, tokensPerLine: real, byteLines: Option<int>)

  datatype Config = Config(defaultPage: int, lineCap: int, summarizeMin: int)

  const ROUNDTRIP_OVERHEAD := 200.0

  /** `effective_returned`. */
  function Returned(rc: ReadCall, fs: FileStats, cfg: Config): (r: Option<Interval>)
    ensures r.Some? ==> r.value.0 <= r.value.1
    ensures r.None? <==> rc.intent.Conflicts? || rc.intent.Other?
  {
    var size := Max(fs.sizeLines, 1);
    match rc.intent
    case Bare => Some(Bounded(1, cfg.defaultPage, size, fs, cfg))
    case Lines(from, to) =>
      var start := if from.Some? && from.value != 0 then from.value else 1;
      Some(Bounded(start, if to.Some? then to.value else start + cfg.defaultPage - 1, size, fs, cfg))
    case Raw => Some(Bounded(1, size, size, fs, cfg))
    case _ => None
  }

  function Bounded(start: int, wanted: int, size: int, fs: FileStats, cfg: Config): (r: Interval)
    ensures r.0 == start && start <= r.1 && (r.1 == start || r.1 <= Min(wanted, Min(size, start + cfg.lineCap - 1)))
  {
    var end := Min(wanted, Min(size, start + cfg.lineCap - 1));
    var end := if fs.byteLines.Some? then Min(end, start + Max(1, fs.byteLines.value) - 1) else end;
    (start, if end < start then start else end)
  }

  /** `cost_of_chunk`. */
  function Cost(start: int, end: int, fs: FileStats, bare: bool, cfg: Config): real {
    var raw := Max(end - start + 1, 0) as real * fs.tokensPerLine;
    if bare && cfg.summarizeMin >= 0 && fs.sizeLines >= cfg.summarizeMin then raw * 0.35 else raw
  }

  // ---------------------------------------------------------------- subtraction

  /** Non-empty intervals in strictly increasing order; neighbours may touch. */
  predicate Ordered(ivs: seq<Interval>) {
    ivs == [] || (ivs[0].0 <= ivs[0].1 && (|ivs| > 1 ==> ivs[0].1 < ivs[1].0) && Ordered(ivs[1..]))
  }

  function CutOne(p: Interval, ls: int, le: int): seq<Interval> {
    if le < p.0 || ls > p.1 then [p]
    else (if ls > p.0 then [(p.0, ls - 1)] else []) + (if le < p.1 then [(le + 1, p.1)] else [])
  }

  function CutAll(out: seq<Interval>, ls: int, le: int): seq<Interval> {
    if out == [] then [] else CutOne(out[0], ls, le) + CutAll(out[1..], ls, le)
  }

  function SubtractFrom(out: seq<Interval>, ivs: seq<Interval>): seq<Interval>
    decreases |ivs|
  {
    if ivs == [] || out == [] then out else SubtractFrom(CutAll(out, ivs[0].0, ivs[0].1), ivs[1..])
  }

  /** The inner loop of `subtract`: cuts one interval out of every piece. */
  method CutPieces(out: seq<Interval>, ls: int, le: int) returns (pieces: seq<Interval>)
    ensures pieces == CutAll(out, ls, le)
  {
    pieces := [];
    assert out[0..] == out;
    CutAllEnd(ls, le);
    hide CutAll;
    for k := 0 to |out|
      invariant CutAll(out, ls, le) == pieces + CutAll(out[k..], ls, le)
    {
      var (a, b) := out[k];
      CutAllStep(pieces, out, k, ls, le);
      var left: seq<Interval> := [];
      if le < a || ls > b {
        left := [(a, b)];
      } else {
        if ls > a { left := [(a, ls - 1)]; }
        if le < b { left := left + [(le + 1, b)]; }
      }
      assert left == CutOne(out[k], ls, le);
      pieces := pieces + left;
    }
    assert out[|out|..] == [] && pieces + [] == pieces;
  }

  lemma CutAllStep(pieces: seq<Interval>, out: seq<Interval>, k: nat, ls: int, le: int)
    requires k < |out|
    ensures pieces + CutAll(out[k..], ls, le) == pieces + CutOne(out[k], ls, le) + CutAll(out[k + 1..], ls, le)
  {
    hide CutOne;
    assert out[k..][1..] == out[k + 1..];
  }

  lemma CutAllEnd(ls: int, le: int)
    ensures CutAll([], ls, le) == []
  {
  }

  /** `subtract`: cuts every interval of the list out of [s, e], stopping early when nothing is left. */
  method Subtract(s: int, e: int, ivs: seq<Interval>) returns (out: seq<Interval>)
    ensures out == SubtractFrom([(s, e)], ivs)
  {
    hide CutAll;
    out := [(s, e)];
    assert ivs[0..] == ivs;
    for i := 0 to |ivs|
      invariant SubtractFrom([(s, e)], ivs) == SubtractFrom(out, ivs[i..])
    {
      if out == [] { break; }
      assert ivs[i..][1..] == ivs[i + 1..];
      out := CutPieces(out, ivs[i].0, ivs[i].1);
    }
  }

  lemma CutOneFacts(p: Interval, ls: int, le: int)
    requires p.0 <= p.1 && ls <= le
    ensures Ordered(CutOne(p, ls, le)) && Covered(CutOne(p, ls, le)) == Range(p.0, p.1) - Range(ls, le)
    ensures forall q <- CutOne(p, ls, le) :: p.0 <= q.0 && q.1 <= p.1
  {
    var c := CutOne(p, ls, le);
    if |c| > 0 { assert c == [c[0]] + c[1..]; CoveredCons(c[0], c[1..]); }
    if |c| > 1 { assert c[1..] == [c[1]]; CoveredCons(c[1], []); }
  }

  /** Two ordered lists, the second entirely after the first, make an ordered list. */
  lemma {:induction false} OrderedConcat(p: seq<Interval>, q: seq<Interval>, cut: int)
    requires Ordered(p) && Ordered(q)
    requires (forall x <- p :: x.1 <= cut) && (forall y <- q :: cut < y.0)
    ensures Ordered(p + q)
    decreases |p|
  {
    if p == [] {
      assert p + q == q;
    } else {
      assert p == [p[0]] + p[1..];
      OrderedConcat(p[1..], q, cut);
      assert (p + q)[1..] == p[1..] + q;
      if |p| == 1 && q != [] { assert (p + q)[1] == q[0]; }
    }
  }

  lemma {:induction false} OrderedAfter(ivs: seq<Interval>, k: nat)
    requires Ordered(ivs) && k < |ivs|
    ensures ivs[0].0 <= ivs[k].0 && ivs[k].0 <= ivs[k].1 && (k > 0 ==> ivs[0].1 < ivs[k].0)
  {
    if k > 0 { OrderedAfter(ivs[1..], k - 1); }
  }

  lemma {:induction false} CutAllFacts(out: seq<Interval>, ls: int, le: int)
    requires Ordered(out) && ls <= le
    ensures Ordered(CutAll(out, ls, le)) && Covered(CutAll(out, ls, le)) == Covered(out) - Range(ls, le)
    ensures out != [] ==> forall q <- CutAll(out, ls, le) :: out[0].0 <= q.0 && q.1 <= out[|out| - 1].1
    decreases |out|
  {
    if out != [] {
      var head, tail := CutOne(out[0], ls, le), CutAll(out[1..], ls, le);
      CutOneFacts(out[0], ls, le);
      CutAllFacts(out[1..], ls, le);
      if |out| > 1 {
        OrderedAfter(out, |out| - 1);
        OrderedAfter(out, 1);
      }
      forall q <- head ensures q.0 <= q.1 {
        var i :| 0 <= i < |head| && head[i] == q;
        OrderedAfter(head, i);
      }
      OrderedConcat(head, tail, out[0].1);
      CoveredConcat(head, tail);
    }
  }

  lemma {:induction false} SubtractFacts(out: seq<Interval>, ivs: seq<Interval>, lo: int, hi: int)
    requires Ordered(out) && NonEmpty(ivs) && forall q <- out :: lo <= q.0 && q.1 <= hi
    ensures Ordered(SubtractFrom(out, ivs)) && Covered(SubtractFrom(out, ivs)) == Covered(out) - Covered(ivs)
    ensures forall q <- SubtractFrom(out, ivs) :: lo <= q.0 && q.1 <= hi
    decreases |ivs|
  {
    hide CutAll, Ordered;
    if ivs != [] && out != [] {
      assert ivs[0].0 <= ivs[0].1;
      CutAllFacts(out, ivs[0].0, ivs[0].1);
      SubtractFacts(CutAll(out, ivs[0].0, ivs[0].1), ivs[1..], lo, hi);
    }
  }

  /** Subtraction is exact set difference, in order and without empty pieces. */
  lemma SubtractIsDifference(s: int, e: int, ivs: seq<Interval>)
    requires s <= e && NonEmpty(ivs)
    ensures Ordered(SubtractFrom([(s, e)], ivs))
    ensures Covered(SubtractFrom([(s, e)], ivs)) == Range(s, e) - Covered(ivs)
  {
    SubtractFacts([(s, e)], ivs, s, e);
    CoveredCons((s, e), []);
  }

  // ---------------------------------------------------------------- chunks

  function CapOf(fs: FileStats, cfg: Config): int {
    if fs.byteLines.Some? then Min(cfg.lineCap, Max(1, fs.byteLines.value)) else cfg.lineCap
  }

  function ChunksFrom(s: int, e: int, cap: int): seq<Interval>
    requires cap >= 1 || s > e
    decreases e - s
  {
    if s > e then [] else [(s, Min(s + cap - 1, e))] + ChunksFrom(Min(s + cap - 1, e) + 1, e, cap)
  }

  /** `chunk_range`; with a cap below one the loop over a range with lines would not end. */
  method ChunkRange(s: int, e: int, fs: FileStats, cfg: Config) returns (out: seq<Interval>)
    requires cfg.lineCap >= 1 || s > e
    ensures CapOf(fs, cfg) >= 1 || s > e
    ensures out == ChunksFrom(s, e, CapOf(fs, cfg))
  {
    var cap := cfg.lineCap;
    if fs.byteLines.Some? { cap := Min(cap, Max(1, fs.byteLines.value)); }
    out := [];
    var cur := s;
    NoChunks(s, e, cap);
    hide ChunksFrom;
    while cur <= e
      invariant cap >= 1 || s > e
      invariant cap >= 1 || cur > e
      invariant ChunksFrom(s, e, cap) == out + ChunksFrom(cur, e, cap)
      decreases e - cur
    {
      ChunkTurn(out, cur, e, cap);
      var end := Min(cur + cap - 1, e);
      out := out + [(cur, end)];
      cur := end + 1;
    }
    NoChunks(cur, e, cap);
    assert out + [] == out;
  }

  lemma NoChunks(s: int, e: int, cap: int)
    requires cap >= 1 || s > e
    ensures s > e ==> ChunksFrom(s, e, cap) == []
  {
  }

  lemma ChunkTurn(out: seq<Interval>, cur: int, e: int, cap: int)
    requires cap >= 1 && cur <= e
    ensures var end := Min(cur + cap - 1, e); out + ChunksFrom(cur, e, cap) == out + [(cur, end)] + ChunksFrom(end + 1, e, cap)
  {
    var end := Min(cur + cap - 1, e);
    var rest := ChunksFrom(end + 1, e, cap);
    assert ChunksFrom(cur, e, cap) == [(cur, end)] + rest;
    hide ChunksFrom;
    assert out + ([(cur, end)] + rest) == out + [(cur, end)] + rest;
  }

  function LineCount(ivs: seq<Interval>): nat {
    if ivs == [] then 0 else Max(ivs[0].1 - ivs[0].0 + 1, 0) + LineCount(ivs[1..])
  }

  predicate Capped(ivs: seq<Interval>, cap: int) { forall q <- ivs :: 1 <= q.1 - q.0 + 1 <= cap }

  /** Chunks partition their range, in order, each within the cap. */
  lemma {:induction false} ChunksPartition(s: int, e: int, cap: int)
    requires cap >= 1
    ensures var c := ChunksFrom(s, e, cap);
            Ordered(c) && Capped(c, cap) && Covered(c) == Range(s, e) && forall q <- c :: s <= q.0 && q.1 <= e
    decreases e - s
  {
    if s <= e {
      var mid := Min(s + cap - 1, e);
      var rest := ChunksFrom(mid + 1, e, cap);
      ChunksPartition(mid + 1, e, cap);
      CoveredCons((s, mid), rest);
      assert Range(s, e) == Range(s, mid) + Range(mid + 1, e);
      assert ([(s, mid)] + rest)[1..] == rest;
    } else {
      assert Range(s, e) == {};
    }
  }

  /** In an ordered list no line is counted twice. */
  lemma {:induction false} OrderedCounts(ivs: seq<Interval>)
    requires Ordered(ivs)
    ensures LineCount(ivs) == |Covered(ivs)|
  {
    if ivs != [] {
      OrderedCounts(ivs[1..]);
      RangeCount(ivs[0].0, ivs[0].1);
      assert Range(ivs[0].0, ivs[0].1) !! Covered(ivs[1..]) by {
        forall x <- Covered(ivs[1..]) ensures ivs[0].1 < x { OrderedStart(ivs[1..], x); }
      }
    }
  }

  lemma {:induction false} OrderedStart(ivs: seq<Interval>, x: int)
    requires Ordered(ivs) && x in Covered(ivs)
    ensures ivs != [] && ivs[0].0 <= x
  {
    if x !in Range(ivs[0].0, ivs[0].1) { OrderedStart(ivs[1..], x); }
  }

  // ---------------------------------------------------------------- phase one

  datatype Phase = Phase(covered: seq<Interval>, tokens: real, kept: nat)

  predicate Fits(iv: Interval, ivs: seq<Interval>) { exists i :: 0 <= i < |ivs| && ivs[i].0 <= iv.0 && ivs[i].1 >= iv.1 }

  /** One observed call: dropped when already covered, otherwise charged and folded in. */
  function PhaseStep(p: Phase, rc: ReadCall, fs: FileStats, cfg: Config): Phase {
    match Returned(rc, fs, cfg)
    case None => p
    case Some(iv) =>
      if Fits(iv, p.covered) then p
      else Phase(Merge(p.covered + [iv]), p.tokens + Cost(iv.0, iv.1, fs, rc.intent.Bare?, cfg), p.kept + 1)
  }

  function PhaseOne(calls: seq<ReadCall>, fs: FileStats, cfg: Config): Phase {
    if calls == [] then Phase([], 0.0, 0)
    else PhaseStep(PhaseOne(calls[..|calls| - 1], fs, cfg), calls[|calls| - 1], fs, cfg)
  }

  /** Lines the configuration would return for any of the calls. */
  function Delivered(calls: seq<ReadCall>, fs: FileStats, cfg: Config): set<int> {
    if calls == [] then {}
    else
      var r := Returned(calls[|calls| - 1], fs, cfg);
      Delivered(calls[..|calls| - 1], fs, cfg) + if r.Some? then Range(r.value.0, r.value.1) else {}
  }

  /** Dropping covered calls loses nothing: coverage is everything the calls would return. */
  lemma {:induction false} PhaseOneDelivers(calls: seq<ReadCall>, fs: FileStats, cfg: Config)
    ensures Canonical(PhaseOne(calls, fs, cfg).covered)
    ensures Covered(PhaseOne(calls, fs, cfg).covered) == Delivered(calls, fs, cfg)
  {
    if calls != [] {
      var p := PhaseOne(calls[..|calls| - 1], fs, cfg);
      var r := Returned(calls[|calls| - 1], fs, cfg);
      PhaseOneDelivers(calls[..|calls| - 1], fs, cfg);
      hide Returned, Cost, Merge;
      if r.Some? {
        ContainmentIsInclusion(p.covered, r.value.0, r.value.1);
        CanonicalNonEmpty(p.covered);
        MergeIsUnion(p.covered + [r.value]);
        CoveredConcat(p.covered, [r.value]);
        CoveredCons(r.value, []);
      }
    }
  }

  /** Ranges the agent actually received. */
  function Observed(calls: seq<ReadCall>): (r: seq<Interval>)
    ensures NonEmpty(r)
  {
    if calls == [] then []
    else
      var last := calls[|calls| - 1].actual;
      Observed(calls[..|calls| - 1]) + if last.Some? && last.value.1 >= last.value.0 then [last.value] else []
  }

  // ---------------------------------------------------------------- phase two

  function GapsFrom(needs: seq<Interval>, covered: seq<Interval>): seq<Interval> {
    if needs == [] then [] else SubtractFrom([needs[0]], covered) + GapsFrom(needs[1..], covered)
  }

  function ChunkAll(gaps: seq<Interval>, cap: int): seq<Interval>
    requires cap >= 1 || gaps == []
  {
    if gaps == [] then [] else ChunksFrom(gaps[0].0, gaps[0].1, cap) + ChunkAll(gaps[1..], cap)
  }

  lemma {:induction false} GapsFacts(needs: seq<Interval>, covered: seq<Interval>)
    requires Canonical(needs) && NonEmpty(covered)
    ensures Ordered(GapsFrom(needs, covered)) && Covered(GapsFrom(needs, covered)) == Covered(needs) - Covered(covered)
    ensures forall q <- GapsFrom(needs, covered) :: needs != [] && needs[0].0 <= q.0
  {
    if needs != [] {
      var head, tail := SubtractFrom([needs[0]], covered), GapsFrom(needs[1..], covered);
      SubtractFacts([needs[0]], covered, needs[0].0, needs[0].1);
      CoveredCons(needs[0], []);
      GapsFacts(needs[1..], covered);
      hide SubtractFrom;
      OrderedConcat(head, tail, needs[0].1);
      CoveredConcat(head, tail);
    }
  }

  lemma {:induction false} ChunkAllFacts(gaps: seq<Interval>, cap: int)
    requires Ordered(gaps) && (cap >= 1 || gaps == [])
    ensures Ordered(ChunkAll(gaps, cap)) && Capped(ChunkAll(gaps, cap), cap)
    ensures Covered(ChunkAll(gaps, cap)) == Covered(gaps)
    ensures forall q <- ChunkAll(gaps, cap) :: gaps != [] && gaps[0].0 <= q.0
  {
    if gaps != [] {
      var head, tail := ChunksFrom(gaps[0].0, gaps[0].1, cap), ChunkAll(gaps[1..], cap);
      ChunksPartition(gaps[0].0, gaps[0].1, cap);
      ChunkAllFacts(gaps[1..], cap);
      hide ChunksFrom;
      OrderedConcat(head, tail, gaps[0].1);
      CoveredConcat(head, tail);
    }
  }

  function Missing(calls: seq<ReadCall>, fs: FileStats, cfg: Config): set<int> {
    Covered(Observed(calls)) - Delivered(calls, fs, cfg)
  }

  /** The chunk loop ends: every chunk has a line, or there is nothing to chunk. */
  predicate Ends(calls: seq<ReadCall>, fs: FileStats, cfg: Config) { cfg.lineCap >= 1 || Missing(calls, fs, cfg) == {} }

  function Gaps(calls: seq<ReadCall>, fs: FileStats, cfg: Config): seq<Interval> {
    GapsFrom(Merge(Observed(calls)), PhaseOne(calls, fs, cfg).covered)
  }

  lemma GapsAreMissing(calls: seq<ReadCall>, fs: FileStats, cfg: Config)
    ensures Canonical(PhaseOne(calls, fs, cfg).covered) && Ordered(Gaps(calls, fs, cfg))
    ensures Covered(Gaps(calls, fs, cfg)) == Missing(calls, fs, cfg)
    ensures Missing(calls, fs, cfg) == {} <==> Gaps(calls, fs, cfg) == []
    ensures Ends(calls, fs, cfg) ==> CapOf(fs, cfg) >= 1 || Gaps(calls, fs, cfg) == []
  {
    hide Merge, PhaseOne, GapsFrom, Delivered, Observed;
    var p, needs := PhaseOne(calls, fs, cfg), Merge(Observed(calls));
    PhaseOneDelivers(calls, fs, cfg);
    CanonicalNonEmpty(p.covered);
    MergeIsUnion(Observed(calls));
    GapsFacts(needs, p.covered);
    OrderedEmpty(Gaps(calls, fs, cfg));
  }

  lemma OrderedEmpty(ivs: seq<Interval>)
    requires Ordered(ivs)
    ensures Covered(ivs) == {} <==> ivs == []
  {
    if ivs != [] { assert ivs[0].0 in Covered(ivs); }
  }

  /** Synthetic chunks of phase two. */
  function Shortfall(calls: seq<ReadCall>, fs: FileStats, cfg: Config): seq<Interval>
    requires Ends(calls, fs, cfg)
  {
    GapsAreMissing(calls, fs, cfg);
    ChunkAll(Gaps(calls, fs, cfg), CapOf(fs, cfg))
  }

  /**
   Phase two charges exactly the lines the agent received and phase one did not deliver, each line
   once, in chunks within the cap.
   */
  lemma ShortfallIsExact(calls: seq<ReadCall>, fs: FileStats, cfg: Config)
    requires Ends(calls, fs, cfg)
    ensures var chunks := Shortfall(calls, fs, cfg);
            && Ordered(chunks) && Capped(chunks, CapOf(fs, cfg))
            && Covered(chunks) == Missing(calls, fs, cfg)
            && LineCount(chunks) == |Missing(calls, fs, cfg)|
  {
    hide Gaps, Missing, ChunkAll, CapOf, Ends, Ordered;
    GapsAreMissing(calls, fs, cfg);
    ChunkAllFacts(Gaps(calls, fs, cfg), CapOf(fs, cfg));
    OrderedCounts(Shortfall(calls, fs, cfg));
  }

  lemma CapPositive(fs: FileStats, cfg: Config)
    requires cfg.lineCap >= 1
    ensures CapOf(fs, cfg) >= 1
  {
  }

  // ---------------------------------------------------------------- the replay

  /** Token cost and roundtrips of a list of verbatim chunks. */
  function Charge(chunks: seq<Interval>, fs: FileStats): real {
    LineCount(chunks) as real * fs.tokensPerLine + ROUNDTRIP_OVERHEAD * |chunks| as real
  }

  lemma Scale(x: real, y: real, z: real)
    ensures (x + y) * z == x * z + y * z
  {
  }

  lemma ChargeCons(iv: Interval, rest: seq<Interval>, fs: FileStats, cfg: Config)
    ensures Charge([iv] + rest, fs) == Cost(iv.0, iv.1, fs, false, cfg) + ROUNDTRIP_OVERHEAD + Charge(rest, fs)
  {
    assert ([iv] + rest)[1..] == rest;
    var n := Max(iv.1 - iv.0 + 1, 0);
    assert LineCount([iv] + rest) as real == n as real + LineCount(rest) as real;
    Scale(n as real, LineCount(rest) as real, fs.tokensPerLine);
  }

  lemma {:induction false} ChargeConcat(p: seq<Interval>, q: seq<Interval>, fs: FileStats, cfg: Config)
    ensures Charge(p + q, fs) == Charge(p, fs) + Charge(q, fs)
    decreases |p|
  {
    hide Charge, Cost;
    if p == [] {
      assert p + q == q;
      ChargeNone(fs);
    } else {
      assert p == [p[0]] + p[1..] && p + q == [p[0]] + (p[1..] + q);
      ChargeCons(p[0], p[1..], fs, cfg);
      ChargeCons(p[0], p[1..] + q, fs, cfg);
      ChargeConcat(p[1..], q, fs, cfg);
    }
  }

  lemma ChargeNone(fs: FileStats)
    ensures Charge([], fs) == 0.0
  {
  }

  /** Charges the chunks of one gap and appends them to the coverage. */
  method ChargeChunks(chunks: seq<Interval>, fs: FileStats, cfg: Config, total0: real, kept0: nat, covered0: seq<Interval>)
    returns (total: real, kept: nat, covered: seq<Interval>)
    ensures total == total0 + Charge(chunks, fs) && kept == kept0 + |chunks| && covered == covered0 + chunks
  {
    hide Charge, Cost;
    total, kept, covered := total0, kept0, covered0;
    assert chunks[0..] == chunks;
    for i := 0 to |chunks|
      invariant total + Charge(chunks[i..], fs) == total0 + Charge(chunks, fs)
      invariant kept == kept0 + i && covered == covered0 + chunks[..i]
    {
      assert chunks[i..] == [chunks[i]] + chunks[i + 1..];
      ChargeCons(chunks[i], chunks[i + 1..], fs, cfg);
      total := total + Cost(chunks[i].0, chunks[i].1, fs, false, cfg);
      total := total + ROUNDTRIP_OVERHEAD;
      kept := kept + 1;
      covered := covered + [chunks[i]];
    }
    ChargeNone(fs);
    assert chunks[|chunks|..] == [] && chunks[..|chunks|] == chunks;
  }

  /** The first loop: every observed call under the configuration. */
  method FirstPhase(calls: seq<ReadCall>, fs: FileStats, cfg: Config)
    returns (total: real, kept: nat, covered: seq<Interval>, needed: seq<Interval>)
    ensures var p := PhaseOne(calls, fs, cfg);
            covered == p.covered && kept == p.kept && total == p.tokens + ROUNDTRIP_OVERHEAD * kept as real
    ensures needed == Observed(calls)
  {
    hide Returned, Cost, Merge;
    total, kept, covered, needed := 0.0, 0, [], [];
    for i := 0 to |calls|
      invariant var p := PhaseOne(calls[..i], fs, cfg);
                covered == p.covered && kept == p.kept && total == p.tokens + ROUNDTRIP_OVERHEAD * kept as real
      invariant needed == Observed(calls[..i])
    {
      var rc := calls[i];
      assert calls[..i + 1][..i] == calls[..i];
      if rc.actual.Some? && rc.actual.value.1 >= rc.actual.value.0 { needed := needed + [rc.actual.value]; }
      var ret := Returned(rc, fs, cfg);
      if ret.None? { continue; }
      var (s, e) := ret.value;
      var drop := Contained(s, e, covered);
      if drop { continue; }
      total := total + Cost(s, e, fs, rc.intent.Bare?, cfg);
      total := total + ROUNDTRIP_OVERHEAD;
      kept := kept + 1;
      covered := MergeIntervals(covered + [(s, e)]);
    }
    assert calls[..|calls|] == calls;
  }

  method FindGaps(needs: seq<Interval>, covered: seq<Interval>) returns (gaps: seq<Interval>)
    ensures gaps == GapsFrom(needs, covered)
  {
    hide SubtractFrom;
    gaps := [];
    assert needs[0..] == needs;
    for i := 0 to |needs|
      invariant GapsFrom(needs, covered) == gaps + GapsFrom(needs[i..], covered)
    {
      assert needs[i..][1..] == needs[i + 1..];
      var more := Subtract(needs[i].0, needs[i].1, covered);
      gaps := gaps + more;
    }
    assert needs[|needs|..] == [];
  }

  /** The second loop: chunks for every gap, the coverage merged after each gap. */
  method FillGaps(gaps: seq<Interval>, fs: FileStats, cfg: Config, total0: real, kept0: nat, covered0: seq<Interval>)
    returns (total: real, kept: nat, covered: seq<Interval>)
    requires (cfg.lineCap >= 1 || gaps == []) && Ordered(gaps) && Canonical(covered0)
    ensures CapOf(fs, cfg) >= 1 || gaps == []
    ensures var chunks := ChunkAll(gaps, CapOf(fs, cfg));
            && total == total0 + Charge(chunks, fs) && kept == kept0 + |chunks|
            && Canonical(covered) && Covered(covered) == Covered(covered0) + Covered(gaps)
  {
    hide Charge, Merge, Ordered, CapOf;
    var cap := CapOf(fs, cfg);
    total, kept, covered := total0, kept0, covered0;
    if gaps == [] {
      ChargeNone(fs);
      return;
    }
    CapPositive(fs, cfg);
    assert gaps[0..] == gaps;
    for i := 0 to |gaps|
      invariant Ordered(gaps[i..]) && Canonical(covered)
      invariant total + Charge(ChunkAll(gaps[i..], cap), fs) == total0 + Charge(ChunkAll(gaps, cap), fs)
      invariant kept + |ChunkAll(gaps[i..], cap)| == kept0 + |ChunkAll(gaps, cap)|
      invariant Covered(covered) + Covered(gaps[i..]) == Covered(covered0) + Covered(gaps)
    {
      GapStep(gaps[i..], covered, fs, cfg);
      assert gaps[i..][1..] == gaps[i + 1..];
      var chunks := ChunkRange(gaps[i].0, gaps[i].1, fs, cfg);
      total, kept, covered := ChargeChunks(chunks, fs, cfg, total, kept, covered);
      covered := MergeIntervals(covered);
    }
    ChargeNone(fs);
    assert gaps[|gaps|..] == [];
  }

  lemma GapStep(gaps: seq<Interval>, covered: seq<Interval>, fs: FileStats, cfg: Config)
    requires cfg.lineCap >= 1 && gaps != [] && Ordered(gaps) && Canonical(covered) && CapOf(fs, cfg) >= 1
    ensures var cap := CapOf(fs, cfg);
            var chunks := ChunksFrom(gaps[0].0, gaps[0].1, cap);
            && Ordered(gaps[1..])
            && Charge(ChunkAll(gaps, cap), fs) == Charge(chunks, fs) + Charge(ChunkAll(gaps[1..], cap), fs)
            && |ChunkAll(gaps, cap)| == |chunks| + |ChunkAll(gaps[1..], cap)|
            && Canonical(Merge(covered + chunks))
            && Covered(Merge(covered + chunks)) + Covered(gaps[1..]) == Covered(covered) + Covered(gaps)
  {
    hide Charge, Merge, CapOf, ChunksFrom;
    var cap := CapOf(fs, cfg);
    var chunks := ChunksFrom(gaps[0].0, gaps[0].1, cap);
    ChunksPartition(gaps[0].0, gaps[0].1, cap);
    ChargeConcat(chunks, ChunkAll(gaps[1..], cap), fs, cfg);
    CanonicalNonEmpty(covered);
    forall i | 0 <= i < |chunks| ensures chunks[i].0 <= chunks[i].1 { OrderedAfter(chunks, i); }
    MergeIsUnion(covered + chunks);
    CoveredConcat(covered, chunks);
  }

  /** What the second loop adds to coverage and to the total. */
  lemma ShortfallCompletes(calls: seq<ReadCall>, fs: FileStats, cfg: Config)
    requires Ends(calls, fs, cfg)
    ensures var p, gaps := PhaseOne(calls, fs, cfg), Gaps(calls, fs, cfg);
            && Canonical(p.covered) && Ordered(gaps) && (cfg.lineCap >= 1 || gaps == [])
            && Covered(p.covered) + Covered(gaps) == Delivered(calls, fs, cfg) + Covered(Observed(calls))
            && Charge(Shortfall(calls, fs, cfg), fs)
               == |Missing(calls, fs, cfg)| as real * fs.tokensPerLine + ROUNDTRIP_OVERHEAD * |Shortfall(calls, fs, cfg)| as real
  {
    hide PhaseOne, Observed, Delivered, Gaps, ChunkAll, Covered, CapOf, Canonical, Ordered, Shortfall, LineCount;
    PhaseOneDelivers(calls, fs, cfg);
    GapsAreMissing(calls, fs, cfg);
    ShortfallIsExact(calls, fs, cfg);
  }

  /**
   `replay_pair`, wherever it ends. The coverage it ends with is everything the configuration delivers united
   with everything the agent received; phase two pays each missing line once at the verbatim rate; and the
   total is token cost plus the roundtrip overhead of every kept call.
   */
  method ReplayCalls(calls: seq<ReadCall>, fs: FileStats, cfg: Config)
    returns (total: real, kept: nat, covered: seq<Interval>)
    requires Ends(calls, fs, cfg)
    ensures Canonical(covered) && Covered(covered) == Delivered(calls, fs, cfg) + Covered(Observed(calls))
    ensures kept == PhaseOne(calls, fs, cfg).kept + |Shortfall(calls, fs, cfg)|
    ensures total == PhaseOne(calls, fs, cfg).tokens + |Missing(calls, fs, cfg)| as real * fs.tokensPerLine
                     + ROUNDTRIP_OVERHEAD * kept as real
  {
    hide PhaseOne, Observed, Delivered, Merge, GapsFrom, ChunkAll, Covered, CapOf, Canonical, Ordered, Missing, LineCount, Charge, Ends;
    var needed;
    total, kept, covered, needed := FirstPhase(calls, fs, cfg);
    needed := MergeIntervals(needed);
    var gaps := FindGaps(needed, covered);
    ShortfallCompletes(calls, fs, cfg);
    total, kept, covered := FillGaps(gaps, fs, cfg, total, kept, covered);
  }

  // ---------------------------------------------------------------- no free savings

  /** Cheapest price of a delivered line: the verbatim rate, or the summarised one where summaries can occur. */
  function FloorRate(fs: FileStats, cfg: Config): real {
    if cfg.summarizeMin >= 0 && fs.sizeLines >= cfg.summarizeMin then fs.tokensPerLine * 0.35 else fs.tokensPerLine
  }

  /** The price of `n` lines at one rate. */
  function Price(n: nat, rate: real): real { n as real * rate }

  lemma PriceAdds(m: nat, n: nat, rate: real)
    ensures Price(m + n, rate) == Price(m, rate) + Price(n, rate)
  {
  }

  lemma PriceGrows(m: nat, n: nat, rate: real)
    requires m <= n && rate >= 0.0
    ensures Price(m, rate) <= Price(n, rate)
  {
  }

  lemma FloorIsLower(n: nat, fs: FileStats, cfg: Config)
    requires fs.tokensPerLine >= 0.0
    ensures FloorRate(fs, cfg) >= 0.0 && Price(n, FloorRate(fs, cfg)) <= Price(n, fs.tokensPerLine)
  {
    var t := fs.tokensPerLine;
    assert n as real * t >= 0.0;
    assert n as real * (t * 0.35) == (n as real * t) * 0.35;
  }

  lemma CostFloor(iv: Interval, fs: FileStats, bare: bool, cfg: Config)
    requires fs.tokensPerLine >= 0.0 && iv.0 <= iv.1
    ensures Cost(iv.0, iv.1, fs, bare, cfg) >= Price(iv.1 - iv.0 + 1, FloorRate(fs, cfg))
  {
    var n, t := (iv.1 - iv.0 + 1) as real, fs.tokensPerLine;
    FloorIsLower(iv.1 - iv.0 + 1, fs, cfg);
    assert n * (t * 0.35) == (n * t) * 0.35;
  }

  lemma AddsAtMost(lines: set<int>, iv: Interval, rate: real)
    requires iv.0 <= iv.1 && rate >= 0.0
    ensures Price(|lines + Range(iv.0, iv.1)|, rate) <= Price(|lines|, rate) + Price(iv.1 - iv.0 + 1, rate)
  {
    hide Price;
    RangeCount(iv.0, iv.1);
    var n := iv.1 - iv.0 + 1;
    PriceGrows(|lines + Range(iv.0, iv.1)|, |lines| + n, rate);
    PriceAdds(|lines|, n, rate);
  }

  /** Phase one pays for every line it delivers. */
  lemma {:induction false} PhaseOnePays(calls: seq<ReadCall>, fs: FileStats, cfg: Config)
    requires fs.tokensPerLine >= 0.0
    ensures PhaseOne(calls, fs, cfg).tokens >= Price(|Delivered(calls, fs, cfg)|, FloorRate(fs, cfg))
  {
    hide Returned, Cost, Merge, FloorRate, Covered, Canonical, Fits, Price;
    if calls == [] {
      assert Delivered(calls, fs, cfg) == {};
      PriceAdds(0, 0, FloorRate(fs, cfg));
    } else {
      var init, last := calls[..|calls| - 1], calls[|calls| - 1];
      PhaseOnePays(init, fs, cfg);
      StepPays(init, last, fs, cfg);
      hide PhaseStep;
    }
  }

  lemma StepPays(init: seq<ReadCall>, last: ReadCall, fs: FileStats, cfg: Config)
    requires fs.tokensPerLine >= 0.0
    ensures var r, p, d := Returned(last, fs, cfg), PhaseOne(init, fs, cfg), Delivered(init, fs, cfg);
            var more := if r.Some? then Range(r.value.0, r.value.1) else {};
            Price(|d + more|, FloorRate(fs, cfg)) - Price(|d|, FloorRate(fs, cfg)) <= PhaseStep(p, last, fs, cfg).tokens - p.tokens
  {
    hide Returned, Cost, Merge, FloorRate, Covered, Canonical, Price, PhaseOne, Delivered;
    var r, p, d := Returned(last, fs, cfg), PhaseOne(init, fs, cfg), Delivered(init, fs, cfg);
    PhaseOneDelivers(init, fs, cfg);
    if r.Some? {
      ContainmentIsInclusion(p.covered, r.value.0, r.value.1);
      FloorIsLower(0, fs, cfg);
      CostFloor(r.value, fs, last.intent.Bare?, cfg);
      AddsAtMost(d, r.value, FloorRate(fs, cfg));
      if Fits(r.value, p.covered) { assert d + Range(r.value.0, r.value.1) == d; }
    } else {
      assert d + {} == d;
    }
  }

  /**
   No configuration gets lines for free: the tokens of both phases pay for everything the configuration
   delivers and everything the agent received, at no less than the cheapest rate.
   */
  lemma NoFreeSavings(calls: seq<ReadCall>, fs: FileStats, cfg: Config)
    requires fs.tokensPerLine >= 0.0
    ensures PhaseOne(calls, fs, cfg).tokens + Price(|Missing(calls, fs, cfg)|, fs.tokensPerLine)
            >= Price(|Delivered(calls, fs, cfg) + Covered(Observed(calls))|, FloorRate(fs, cfg))
  {
    hide PhaseOne, Observed, Covered, Delivered, Price, FloorRate;
    PhaseOnePays(calls, fs, cfg);
    var d, o, m := Delivered(calls, fs, cfg), Covered(Observed(calls)), Missing(calls, fs, cfg);
    assert d + o == d + m && d !! m;
    PriceAdds(|d|, |m|, FloorRate(fs, cfg));
    FloorIsLower(|m|, fs, cfg);
  }
}
