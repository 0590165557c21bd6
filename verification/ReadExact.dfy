/** What a paid read delivers and costs, and what the report adds up, in terms of calls and outcomes alone. */
module ReadExact {
  import opened Outcomes
  import opened Intervals
  import opened ReadReplay

  // ---------------------------------------------------------------- one read

  /** First line of a request. */
  function From(call: ReadCall): int {
    match call.kind
    case Explicit(s, _) => s
    case Open(s) => s
    case _ => 1
  }

  /** Lines a request names; without an end it asks for the default page. */
  function Wanted(call: ReadCall, cfg: Config): int {
    if call.kind.Explicit? then if call.kind.end >= call.kind.start then call.kind.end - call.kind.start + 1 else 1
    else cfg.default
  }

  /** A read may start at `x`: in the file, and no further before its request than the leading context. */
  predicate MayStart(call: ReadCall, x: int, cfg: Config) { x >= 1 && (From(call) > 1 ==> x >= From(call) - cfg.leading) }

  /** It may deliver `n` lines from `start`: no more than the cap, and no more than context and request. */
  predicate MayDeliver(call: ReadCall, start: int, n: int, cfg: Config) {
    n <= cfg.maxLines && n <= From(call) - start + Wanted(call, cfg) + if call.kind.Explicit? then cfg.trailing else 0
  }

  /**
   For every configuration a bounded read starts at the first line it may start at, and delivers as many lines
   from there as it may; only unbounded kinds deliver no interval.
   */
  lemma DeliveredIsLongest(call: ReadCall, cfg: Config)
    ensures DeliveredBy(call, cfg).None? <==> call.kind.Unbounded?
    ensures DeliveredBy(call, cfg).Some? ==>
            var (start, end) := DeliveredBy(call, cfg).value;
            var n := end - start + 1;
            && MayStart(call, start, cfg) && (forall x :: x < start ==> !MayStart(call, x, cfg))
            && MayDeliver(call, start, n, cfg) && (forall m :: m > n ==> !MayDeliver(call, start, m, cfg))
  {
  }

  /** A request runs from its first line to its end, or over the default page. */
  lemma RequestedIs(call: ReadCall, cfg: Config)
    ensures Requested(call, cfg).None? <==> call.kind.Unbounded?
    ensures Requested(call, cfg).Some? ==>
            && Requested(call, cfg).value.0 == From(call)
            && Requested(call, cfg).value.1 == if call.kind.Explicit? then call.kind.end else From(call) + cfg.default - 1
  {
  }

  function Least(x: real, y: real): real { if x <= y then x else y }

  /** Byte budget of a read of `n` lines: 50 KiB, or 512 bytes a line. */
  function Budget(n: int): int { if n * 512 > 51200 then n * 512 else 51200 }

  lemma BudgetIs(n: int)
    ensures ByteBudget(n) == Budget(n)
  {
  }

  function Tokens(call: ReadCall, n: int): real { call.tokenPerLine * n as real }

  lemma TokensAre(call: ReadCall, n: int)
    ensures LineTokens(call, n) == Tokens(call, n)
  {
  }

  /** Tokens charged for `n` lines: those of the lines, but no more than a quarter of the byte budget. */
  function Charged(call: ReadCall, n: int): real { Least(Tokens(call, n), Budget(n) as real / 4.0) }

  lemma QuarterBudget(tokens: real, budget: real)
    ensures tokens * 4.0 > budget <==> tokens > budget / 4.0
  {
  }

  /**
   A call is skipped exactly when it is not the group's first and its request is covered; a bounded read costs its
   arguments and the charged tokens of its lines; other reads cost arguments and result.
   */
  lemma CostExactly(call: ReadCall, first: bool, covered: seq<Interval>, cfg: Config)
    ensures var o := Judge(call, first, covered, cfg);
            && (call.kind.Unbounded? ==> o == PaidRaw((call.argTokens + call.resultTokens) as real))
            && (!call.kind.Unbounded? ==>
                  var req, got := Requested(call, cfg).value, DeliveredBy(call, cfg).value;
                  var n := got.1 - got.0 + 1;
                  && (o.Skipped? <==> !first && IsCovered(covered, req.0, req.1))
                  && (o.PaidBounded? <==> !o.Skipped?)
                  && (o.PaidBounded? ==> o.cost == call.argTokens as real + Charged(call, n))
                  && (o.PaidBounded? ==> (o.limited <==> Tokens(call, n) > Budget(n) as real / 4.0)))
  {
    if DeliveredBy(call, cfg).Some? && Requested(call, cfg).Some? {
      var got := DeliveredBy(call, cfg).value;
      var n := got.1 - got.0 + 1;
      hide IsCovered, CountsTruncated, LineTokens, Tokens, ByteBudget, Budget, DeliveredBy, Requested;
      BudgetIs(n);
      TokensAre(call, n);
      QuarterBudget(Tokens(call, n), Budget(n) as real);
    }
  }

  // ---------------------------------------------------------------- sums over outcomes

  function SumOf(trace: seq<Outcome>, f: Outcome -> real): real {
    if trace == [] then 0.0 else SumOf(trace[..|trace| - 1], f) + f(trace[|trace| - 1])
  }

  function CountOf(trace: seq<Outcome>, p: Outcome -> bool): nat {
    if trace == [] then 0 else CountOf(trace[..|trace| - 1], p) + if p(trace[|trace| - 1]) then 1 else 0
  }

  function CostOf(o: Outcome): real { if o.Skipped? then 0.0 else o.cost }

  function RawCost(o: Outcome): real { if o.PaidRaw? then o.cost else 0.0 }

  predicate IsPaid(o: Outcome) { !o.Skipped? }

  predicate IsRaw(o: Outcome) { o.PaidRaw? }

  predicate IsSkipped(o: Outcome) { o.Skipped? }

  predicate IsTruncated(o: Outcome) { o.PaidBounded? && o.truncated }

  predicate IsLimited(o: Outcome) { o.PaidBounded? && o.limited }

  /** Every counter is the sum or the number it is named after. */
  lemma {:induction false} CountersExactly(trace: seq<Outcome>)
    ensures Total(trace) == Sums(SumOf(trace, CostOf), CountOf(trace, IsPaid), CountOf(trace, IsSkipped), CountOf(trace, IsTruncated),
                                 CountOf(trace, IsLimited), SumOf(trace, RawCost), CountOf(trace, IsRaw))
  {
    if trace != [] { CountersExactly(trace[..|trace| - 1]); }
  }

  // ---------------------------------------------------------------- the report

  /** Outcomes of all calls of the groups that satisfy `p`, in order. */
  function OutcomesOf(groups: seq<seq<ReadCall>>, cfg: Config, p: seq<ReadCall> -> bool): seq<Outcome> {
    if groups == [] then []
    else
      var g := groups[|groups| - 1];
      OutcomesOf(groups[..|groups| - 1], cfg, p) + if p(g) then Trace(g, cfg) else []
  }

  function GroupsWith(groups: seq<seq<ReadCall>>, p: seq<ReadCall> -> bool): nat {
    if groups == [] then 0 else GroupsWith(groups[..|groups| - 1], p) + if p(groups[|groups| - 1]) then 1 else 0
  }

  predicate Any(g: seq<ReadCall>) { true }

  predicate DefaultFirst(g: seq<ReadCall>) { g != [] && g[0].kind.Default? }

  predicate SingleSelector(g: seq<ReadCall>) { SelectorFirst(g) && |g| == 1 }

  /** Groups that start with a selector and pay for one bounded read. */
  function OneReadGroups(groups: seq<seq<ReadCall>>, cfg: Config): nat { GroupsWith(groups, OneRead(cfg)) }

  function OneRead(cfg: Config): seq<ReadCall> -> bool { g => SelectorFirst(g) && BoundedReads(Trace(g, cfg)) == 1 }

  lemma {:induction false} TotalConcat(a: seq<Outcome>, b: seq<Outcome>)
    ensures Total(a + b) == Plus(Total(a), Total(b))
  {
    if b == [] {
      assert a + b == a;
    } else {
      var s := a + b;
      assert s[..|s| - 1] == a + b[..|b| - 1];
      TotalConcat(a, b[..|b| - 1]);
    }
  }

  /** The report: all calls, those of groups that start with a selector, and those of groups that start with a default read. */
  predicate Reports(r: Report, groups: seq<seq<ReadCall>>, cfg: Config) {
    && r.all == Total(OutcomesOf(groups, cfg, Any))
    && r.selector == Total(OutcomesOf(groups, cfg, SelectorFirst))
    && r.default == Total(OutcomesOf(groups, cfg, DefaultFirst))
    && r.selectorGroups == GroupsWith(groups, SelectorFirst)
    && r.singleCall == GroupsWith(groups, SingleSelector)
    && r.firstCovered == OneReadGroups(groups, cfg)
  }

  lemma OutcomesSnoc(groups: seq<seq<ReadCall>>, cfg: Config, p: seq<ReadCall> -> bool)
    requires groups != []
    ensures var init, g := groups[..|groups| - 1], groups[|groups| - 1];
            Total(OutcomesOf(groups, cfg, p))
            == if p(g) then Plus(Total(OutcomesOf(init, cfg, p)), Total(Trace(g, cfg))) else Total(OutcomesOf(init, cfg, p))
  {
    hide Trace, Total, Plus;
    var init, g := groups[..|groups| - 1], groups[|groups| - 1];
    TotalConcat(OutcomesOf(init, cfg, p), Trace(g, cfg));
    assert OutcomesOf(init, cfg, p) + [] == OutcomesOf(init, cfg, p);
  }

  lemma GroupsSnoc(groups: seq<seq<ReadCall>>, p: seq<ReadCall> -> bool)
    requires groups != []
    ensures GroupsWith(groups, p) == GroupsWith(groups[..|groups| - 1], p) + if p(groups[|groups| - 1]) then 1 else 0
  {
  }

  lemma ExpectedSnoc(groups: seq<seq<ReadCall>>, cfg: Config)
    requires AllStarted(groups) && groups != []
    ensures var g := groups[|groups| - 1];
            Expected(groups, cfg) == AddGroup(Expected(groups[..|groups| - 1], cfg), g, Total(Trace(g, cfg)), BoundedReads(Trace(g, cfg)) == 1)
  {
    hide Trace, Total, BoundedReads, AddGroup;
  }

  lemma OneReadIs(cfg: Config, g: seq<ReadCall>)
    ensures OneRead(cfg)(g) == (SelectorFirst(g) && BoundedReads(Trace(g, cfg)) == 1)
  {
    hide Trace, BoundedReads, SelectorFirst;
  }

  /** The replay's report is exactly these sums. */
  lemma {:induction false} ReportExactly(groups: seq<seq<ReadCall>>, cfg: Config)
    requires AllStarted(groups)
    ensures Reports(Expected(groups, cfg), groups, cfg)
  {
    if groups != [] {
      hide Trace, Total, BoundedReads, OutcomesOf, GroupsWith, Expected, Plus, OneRead, SelectorFirst;
      var init, g := groups[..|groups| - 1], groups[|groups| - 1];
      ReportExactly(init, cfg);
      ExpectedSnoc(groups, cfg);
      OutcomesSnoc(groups, cfg, Any);
      OutcomesSnoc(groups, cfg, SelectorFirst);
      OutcomesSnoc(groups, cfg, DefaultFirst);
      GroupsSnoc(groups, SelectorFirst);
      GroupsSnoc(groups, SingleSelector);
      GroupsSnoc(groups, OneRead(cfg));
      OneReadIs(cfg, g);
    }
  }
}
