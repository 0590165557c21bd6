/**
 The counterfactual replay of read calls per (session, file) group: which calls a configuration still
 pays for, which it avoids because their lines were already delivered, and the counters it reports.
 */
module ReadReplay {
  import opened Outcomes
  import opened Intervals

  /** `Unbounded` stands for the raw, conflicts and other kinds, none of which has a line interval. */
  datatype Kind = Explicit(start: nat, end: nat) | Open(start: nat) | Default | Unbounded

  datatype ReadCall = ReadCall(kind: Kind, argTokens: nat, resultTokens: nat, tokenPerLine: real)

  datatype Config = Config(default: int, maxLines: int, leading: int, trailing: int)

  const MAX_BYTES := 50 * 1024

  /** `requested_interval`. */
  function Requested(call: ReadCall, cfg: Config): Option<Interval> {
    match call.kind
    case Explicit(s, e) => Some((s, e))
    case Open(s) => Some((s, s + cfg.default - 1))
    case Default => Some((1, cfg.default))
    case Unbounded => None
  }

  /** First line a bounded read starts at: the request's, moved up by the leading context. */
  function StartOf(s: int, cfg: Config): int { if s > 1 then Max(1, s - cfg.leading) else 1 }

  /** `delivered_interval`. */
  function DeliveredBy(call: ReadCall, cfg: Config): (r: Option<Interval>)
    ensures r.Some? <==> Requested(call, cfg).Some?
  {
    match call.kind
    case Explicit(s, e) =>
      var start := StartOf(s, cfg);
      var lines := Min(Max(1, e - s + 1) + (s - start) + cfg.trailing, cfg.maxLines);
      Some((start, start + lines - 1))
    case Open(s) =>
      var start := StartOf(s, cfg);
      var lines := Min(cfg.default + (s - start), cfg.maxLines);
      Some((start, start + lines - 1))
    case Default => Some((1, Min(cfg.default, cfg.maxLines)))
    case Unbounded => None
  }

  /** What happens to one call. */
  datatype Outcome = Skipped | PaidRaw(cost: real) | PaidBounded(cost: real, truncated: bool, limited: bool)

  /** Python's `x or y` on line numbers. */
  function Or(x: nat, y: nat): nat { if x != 0 then x else y }

  /** Whether a paid call is counted as a truncation. */
  predicate CountsTruncated(call: ReadCall, lines: int, cfg: Config) {
    && call.kind.Explicit? && lines >= cfg.maxLines
    && Max(1, Or(Or(call.kind.end, call.kind.start), 1) - Or(call.kind.start, 1) + 1) + cfg.leading + cfg.trailing > cfg.maxLines
  }

  function LineTokens(call: ReadCall, lines: int): real { call.tokenPerLine * lines as real }

  function ByteBudget(lines: int): int { Max(MAX_BYTES, lines * 512) }

  function Judge(call: ReadCall, first: bool, covered: seq<Interval>, cfg: Config): Outcome {
    match (Requested(call, cfg), DeliveredBy(call, cfg))
    case (Some(req), Some(got)) =>
      if !first && IsCovered(covered, req.0, req.1) then Skipped
      else
        var lines := got.1 - got.0 + 1;
        var limited := LineTokens(call, lines) * 4.0 > ByteBudget(lines) as real;
        var lineTokens := if limited then ByteBudget(lines) as real / 4.0 else LineTokens(call, lines);
        PaidBounded(call.argTokens as real + lineTokens, CountsTruncated(call, lines, cfg), limited)
    case _ => PaidRaw((call.argTokens + call.resultTokens) as real)
  }

  /** Coverage held after a group's first calls. */
  function Coverage(calls: seq<ReadCall>, cfg: Config): seq<Interval> {
    if calls == [] then []
    else
      var before := Coverage(calls[..|calls| - 1], cfg);
      Extend(calls[|calls| - 1], |calls| == 1, before, cfg)
  }

  function Extend(call: ReadCall, first: bool, before: seq<Interval>, cfg: Config): seq<Interval> {
    if Judge(call, first, before, cfg).PaidBounded? && DeliveredBy(call, cfg).Some?
    then var got := DeliveredBy(call, cfg).value; AddFrom(before, got.0, got.1, false)
    else before
  }

  /** The outcome of every call of a group, in order. */
  function Trace(calls: seq<ReadCall>, cfg: Config): (r: seq<Outcome>)
    ensures |r| == |calls|
  {
    if calls == [] then []
    else
      var init := calls[..|calls| - 1];
      Trace(init, cfg) + [Judge(calls[|calls| - 1], |calls| == 1, Coverage(init, cfg), cfg)]
  }

  /** Lines handed out by the calls of a group that were paid for. */
  function DeliveredLines(calls: seq<ReadCall>, cfg: Config): set<int> {
    if calls == [] then {}
    else
      var init, last := calls[..|calls| - 1], calls[|calls| - 1];
      DeliveredLines(init, cfg)
      + if Judge(last, |calls| == 1, Coverage(init, cfg), cfg).PaidBounded? && DeliveredBy(last, cfg).Some?
        then Range(DeliveredBy(last, cfg).value.0, DeliveredBy(last, cfg).value.1) else {}
  }

  // ---------------------------------------------------------------- coverage

  lemma DeliveryStart(call: ReadCall, cfg: Config)
    requires DeliveredBy(call, cfg).Some?
    ensures 1 <= DeliveredBy(call, cfg).value.0
  {
  }

  /** For every configuration, the interval list holds only delivered lines, none below line one. */
  lemma {:induction false} CoverageIsSound(calls: seq<ReadCall>, cfg: Config)
    ensures Covered(Coverage(calls, cfg)) <= DeliveredLines(calls, cfg)
    ensures forall x <- DeliveredLines(calls, cfg) :: 1 <= x
  {
    if calls != [] {
      var init, last := calls[..|calls| - 1], calls[|calls| - 1];
      CoverageIsSound(init, cfg);
      hide Judge, AddFrom, DeliveredBy;
      if DeliveredBy(last, cfg).Some? {
        var got := DeliveredBy(last, cfg).value;
        DeliveryStart(last, cfg);
        AddWithin(Coverage(init, cfg), got.0, got.1, false);
      }
    }
  }

  /** An interval of negative length at line one: no test on real lines ever stops at it. */
  predicate Inert(iv: Interval) { iv.0 == 1 && iv.1 < 0 }

  /** Deliveries that cannot hide others: inert, or short of one line by at most two. */
  predicate TameDelivery(iv: Interval) { 1 <= iv.0 && (Inert(iv) || iv.0 <= iv.1 + 2) }

  predicate Tame(calls: seq<ReadCall>, cfg: Config) {
    forall c <- calls :: DeliveredBy(c, cfg).Some? ==> TameDelivery(DeliveredBy(c, cfg).value)
  }

  predicate FromOne(ivs: seq<Interval>) { forall i :: 0 <= i < |ivs| ==> 1 <= ivs[i].0 }

  /** Inert intervals first, then a spaced list. */
  predicate Fronted(ivs: seq<Interval>) {
    if ivs != [] && Inert(ivs[0]) then Fronted(ivs[1..]) else Spaced(ivs) && FromOne(ivs)
  }

  lemma {:induction false} SpacedIsFronted(ivs: seq<Interval>)
    requires Spaced(ivs) && FromOne(ivs)
    ensures Fronted(ivs)
  {
    if ivs != [] && Inert(ivs[0]) { SpacedIsFronted(ivs[1..]); }
  }

  /** A delivery is inserted behind the inert front. */
  lemma {:induction false} FrontedAdd(ivs: seq<Interval>, s: int, e: int)
    requires Fronted(ivs) && TameDelivery((s, e))
    ensures Fronted(AddFrom(ivs, s, e, false)) && Covered(AddFrom(ivs, s, e, false)) == Covered(ivs) + Range(s, e)
  {
    if ivs != [] && Inert(ivs[0]) {
      FrontedAdd(ivs[1..], s, e);
      var rest := AddFrom(ivs[1..], s, e, false);
      assert AddFrom(ivs, s, e, false) == [ivs[0]] + rest;
      CoveredCons(ivs[0], rest);
      assert ([ivs[0]] + rest)[1..] == rest;
    } else if Inert((s, e)) {
      InertFirst(ivs, s, e);
    } else {
      AddSpaced(ivs, s, e);
      AddCovers(ivs, s, e);
      AddFromOne(ivs, s, e, false);
      SpacedIsFronted(AddFrom(ivs, s, e, false));
    }
  }

  lemma InertFirst(ivs: seq<Interval>, s: int, e: int)
    requires Spaced(ivs) && FromOne(ivs) && (ivs != [] ==> !Inert(ivs[0])) && Inert((s, e))
    ensures AddFrom(ivs, s, e, false) == [(s, e)] + ivs
    ensures Fronted([(s, e)] + ivs) && Covered([(s, e)] + ivs) == Covered(ivs) + Range(s, e)
  {
    if ivs != [] {
      InertPlaced(ivs[1..], s, e) by { TailStarts(ivs); }
      assert [(s, e)] + [ivs[0]] + ivs[1..] == [(s, e)] + ivs;
    }
    CoveredCons((s, e), ivs);
    assert ([(s, e)] + ivs)[1..] == ivs;
  }

  lemma TailStarts(ivs: seq<Interval>)
    requires Spaced(ivs) && FromOne(ivs) && ivs != [] && !Inert(ivs[0])
    ensures Spaced(ivs[1..]) && FromOne(ivs[1..]) && (|ivs| > 1 ==> 2 <= ivs[1].0)
  {
  }

  lemma {:induction false} InertPlaced(ivs: seq<Interval>, s: int, e: int)
    requires Spaced(ivs) && FromOne(ivs) && (ivs != [] ==> 2 <= ivs[0].0) && Inert((s, e))
    ensures AddFrom(ivs, s, e, true) == ivs
  {
    if ivs != [] {
      InertPlaced(ivs[1..], s, e) by { TailStarts(ivs); }
      assert ivs == [ivs[0]] + ivs[1..];
    }
  }

  lemma {:induction false} AddFromOne(ivs: seq<Interval>, s: int, e: int, placed: bool)
    requires FromOne(ivs) && 1 <= s
    ensures FromOne(AddFrom(ivs, s, e, placed))
  {
    if ivs != [] {
      var (a, b) := ivs[0];
      AddFromOne(ivs[1..], if b + 1 < s || e + 1 < a then s else Min(s, a), if b + 1 < s || e + 1 < a then e else Max(e, b),
                 if b + 1 >= s && e + 1 < a then true else placed);
    }
  }

  /** Behind an inert front the early exit is still set inclusion, for targets in the file. */
  lemma {:induction false} FrontedInclusion(ivs: seq<Interval>, s: int, e: int)
    requires Fronted(ivs) && 1 <= s <= e
    ensures IsCovered(ivs, s, e) <==> Range(s, e) <= Covered(ivs)
  {
    if ivs != [] && Inert(ivs[0]) {
      FrontedInclusion(ivs[1..], s, e);
      assert Range(ivs[0].0, ivs[0].1) == {};
    } else {
      ContainmentIsInclusion(ivs, s, e);
    }
  }

  /** Then the interval list denotes exactly the delivered lines. */
  lemma {:induction false} CoverageIsDelivered(calls: seq<ReadCall>, cfg: Config)
    requires Tame(calls, cfg)
    ensures Fronted(Coverage(calls, cfg)) && Covered(Coverage(calls, cfg)) == DeliveredLines(calls, cfg)
  {
    if calls != [] {
      var init, last := calls[..|calls| - 1], calls[|calls| - 1];
      CoverageIsDelivered(init, cfg);
      hide Judge, AddFrom, DeliveredBy, Fronted, TameDelivery;
      if DeliveredBy(last, cfg).Some? {
        var got := DeliveredBy(last, cfg).value;
        assert last in calls;
        FrontedAdd(Coverage(init, cfg), got.0, got.1);
      }
    }
  }

  lemma {:induction false} IsCoveredSound(ivs: seq<Interval>, s: int, e: int)
    requires IsCovered(ivs, s, e)
    ensures Range(s, e) <= Covered(ivs)
  {
    if !(ivs[0].0 <= s && e <= ivs[0].1) { IsCoveredSound(ivs[1..], s, e); }
  }

  /**
   A call after the first is avoided only when every line it asks for has been delivered by the paid calls
   before it in its group, whatever the configuration; and whenever it asks for something that has been
   delivered, provided no delivery can hide others.
   */
  lemma SkippedExactlyWhenDelivered(before: seq<ReadCall>, call: ReadCall, cfg: Config)
    requires before != [] && Requested(call, cfg).Some?
    ensures var req := Requested(call, cfg).value;
            var skipped := Judge(call, false, Coverage(before, cfg), cfg).Skipped?;
            && (skipped ==> Range(req.0, req.1) <= DeliveredLines(before, cfg))
            && (Tame(before, cfg) && req.0 <= req.1 && Range(req.0, req.1) <= DeliveredLines(before, cfg) ==> skipped)
  {
    hide DeliveredLines, Coverage, Covered, Requested, DeliveredBy, Tame, Fronted;
    var req := Requested(call, cfg).value;
    var ivs := Coverage(before, cfg);
    CoverageIsSound(before, cfg);
    if IsCovered(ivs, req.0, req.1) { IsCoveredSound(ivs, req.0, req.1); }
    if Tame(before, cfg) && req.0 <= req.1 && Range(req.0, req.1) <= DeliveredLines(before, cfg) {
      assert req.0 in Range(req.0, req.1);
      CoverageIsDelivered(before, cfg);
      FrontedInclusion(ivs, req.0, req.1);
    }
  }

  /** Configurations under which no delivery can hide others, or nothing is ever delivered. */
  predicate NeverHides(cfg: Config) {
    cfg.maxLines <= 0 || (cfg.leading + cfg.trailing >= -2 && cfg.default + cfg.leading >= -1)
  }

  lemma NeverHidesIsTame(calls: seq<ReadCall>, cfg: Config)
    requires NeverHides(cfg) && cfg.maxLines > 0
    ensures Tame(calls, cfg)
  {
    forall c <- calls ensures DeliveredBy(c, cfg).Some? ==> TameDelivery(DeliveredBy(c, cfg).value) {
      if DeliveredBy(c, cfg).Some? { OneTame(c, cfg); }
    }
  }

  lemma OneTame(call: ReadCall, cfg: Config)
    requires NeverHides(cfg) && cfg.maxLines > 0 && DeliveredBy(call, cfg).Some?
    ensures TameDelivery(DeliveredBy(call, cfg).value)
  {
  }

  lemma {:induction false} NothingDelivered(calls: seq<ReadCall>, cfg: Config)
    requires cfg.maxLines <= 0
    ensures DeliveredLines(calls, cfg) == {}
  {
    hide Judge, Coverage;
    if calls != [] {
      NothingDelivered(calls[..|calls| - 1], cfg);
      var last := calls[|calls| - 1];
      if DeliveredBy(last, cfg).Some? { assert Range(DeliveredBy(last, cfg).value.0, DeliveredBy(last, cfg).value.1) == {}; }
    }
  }

  /** A call, after others, whose request is not empty and was delivered, is skipped. */
  predicate SkipsWhatWasDelivered(before: seq<ReadCall>, call: ReadCall, cfg: Config) {
    var req := Requested(call, cfg);
    before != [] && req.Some? && req.value.0 <= req.value.1 && Range(req.value.0, req.value.1) <= DeliveredLines(before, cfg)
    ==> Judge(call, false, Coverage(before, cfg), cfg).Skipped?
  }

  // ---- a group that fails under every other configuration

  function Magnitude(x: int): nat { if x < 0 then -x else x }

  /** Where the hiding read starts: far enough from line one for any context. */
  function HidingStart(cfg: Config): nat { Magnitude(cfg.leading) + 4 }

  /** A read that delivers at most minus two lines from there. */
  function HidingRead(cfg: Config): ReadCall {
    var s := HidingStart(cfg) + cfg.leading;
    ReadCall(if cfg.default + cfg.leading <= -2 then Open(s) else Explicit(s, s), 0, 0, 1.0)
  }

  /** A read that delivers lines from one line above it. */
  function HiddenRead(cfg: Config): ReadCall {
    var s := HidingStart(cfg) - 1 + cfg.leading;
    ReadCall(Explicit(s, s + Magnitude(cfg.leading) + Magnitude(cfg.trailing) + 1), 0, 0, 1.0)
  }

  /** The request for just that line. */
  function HiddenLine(cfg: Config): ReadCall { ReadCall(Explicit(HidingStart(cfg) - 1, HidingStart(cfg) - 1), 0, 0, 1.0) }

  lemma HidingDeliveries(cfg: Config)
    requires !NeverHides(cfg)
    ensures var a := HidingStart(cfg);
            && DeliveredBy(HidingRead(cfg), cfg).Some? && DeliveredBy(HiddenRead(cfg), cfg).Some?
            && DeliveredBy(HidingRead(cfg), cfg).value.0 == a && DeliveredBy(HidingRead(cfg), cfg).value.1 <= a - 3
            && DeliveredBy(HiddenRead(cfg), cfg).value.0 == a - 1 <= DeliveredBy(HiddenRead(cfg), cfg).value.1
            && Requested(HiddenRead(cfg), cfg).Some? && Requested(HiddenRead(cfg), cfg).value.0 <= Requested(HiddenRead(cfg), cfg).value.1
  {
  }

  lemma FirstIsAlwaysPaid(call: ReadCall, cfg: Config)
    requires DeliveredBy(call, cfg).Some?
    ensures Judge(call, true, [], cfg).PaidBounded? && Extend(call, true, [], cfg) == [DeliveredBy(call, cfg).value]
  {
  }

  lemma HiddenIsPaid(call: ReadCall, iv: Interval, cfg: Config)
    requires Requested(call, cfg).Some? && DeliveredBy(call, cfg).Some? && iv.1 < iv.0
    requires Requested(call, cfg).value.0 <= Requested(call, cfg).value.1
    ensures Judge(call, false, [iv], cfg).PaidBounded?
  {
    var req := Requested(call, cfg).value;
    assert [iv][1..] == [];
    assert !IsCovered([iv], req.0, req.1);
  }

  /** After both reads the line has been delivered, and the early exit never gets to it. */
  lemma HiddenLineIsPaid(cfg: Config)
    requires !NeverHides(cfg)
    ensures !SkipsWhatWasDelivered([HidingRead(cfg), HiddenRead(cfg)], HiddenLine(cfg), cfg)
  {
    var c1, c2, a := HidingRead(cfg), HiddenRead(cfg), HidingStart(cfg);
    var before := [c1, c2];
    HidingDeliveries(cfg);
    var iv, got := DeliveredBy(c1, cfg).value, DeliveredBy(c2, cfg).value;
    FirstIsAlwaysPaid(c1, cfg);
    HiddenIsPaid(c2, iv, cfg);
    assert before[..1] == [c1] && [c1][..0] == [] && before[1] == c2 && [c1][0] == c1;
    HidesInOrder(iv, got, a);
    hide Judge, DeliveredBy, HidingRead, HiddenRead, HidingStart, AddFrom, IsCovered;
    assert Coverage([c1], cfg) == [iv];
    assert Coverage(before, cfg) == [iv, got];
    assert a - 1 in DeliveredLines(before, cfg);
    NotSkipped(HiddenLine(cfg), [iv, got], a - 1, cfg);
  }

  lemma HidesInOrder(iv: Interval, got: Interval, a: int)
    requires iv.0 == a && iv.1 <= a - 3 && got.0 == a - 1
    ensures AddFrom([iv], got.0, got.1, false) == [iv, got] && !IsCovered([iv, got], a - 1, a - 1)
  {
  }

  lemma NotSkipped(call: ReadCall, ivs: seq<Interval>, x: nat, cfg: Config)
    requires call.kind == Explicit(x, x) && !IsCovered(ivs, x, x)
    ensures !Judge(call, false, ivs, cfg).Skipped? && Requested(call, cfg) == Some((x, x))
  {
  }

  /**
   Exactly when skipping is complete, decided for every configuration: every later call whose lines have been
   delivered is skipped, in every group, if and only if no delivery can hide others.
   */
  lemma SkippingCompleteExactly(cfg: Config)
    ensures NeverHides(cfg) <==> forall before, call :: SkipsWhatWasDelivered(before, call, cfg)
  {
    if NeverHides(cfg) {
      forall before, call ensures SkipsWhatWasDelivered(before, call, cfg) {
        NeverHidesSkips(before, call, cfg);
      }
    } else {
      HiddenLineIsPaid(cfg);
    }
  }

  lemma NeverHidesSkips(before: seq<ReadCall>, call: ReadCall, cfg: Config)
    requires NeverHides(cfg)
    ensures SkipsWhatWasDelivered(before, call, cfg)
  {
    hide Judge, Coverage, DeliveredLines, DeliveredBy, Requested;
    var req := Requested(call, cfg);
    if before != [] && req.Some? && req.value.0 <= req.value.1 && Range(req.value.0, req.value.1) <= DeliveredLines(before, cfg) {
      assert req.value.0 in Range(req.value.0, req.value.1);
      if cfg.maxLines > 0 {
        NeverHidesIsTame(before, cfg);
        SkippedExactlyWhenDelivered(before, call, cfg);
      } else {
        NothingDelivered(before, cfg);
      }
    }
  }

  lemma {:induction false} DeliveredGrows(calls: seq<ReadCall>, k: nat, cfg: Config)
    requires k <= |calls|
    ensures DeliveredLines(calls[..k], cfg) <= DeliveredLines(calls, cfg)
    decreases |calls|
  {
    hide Judge, Coverage, DeliveredBy;
    if k < |calls| {
      var init := calls[..|calls| - 1];
      assert init[..k] == calls[..k];
      DeliveredGrows(init, k, cfg);
    } else {
      assert calls[..k] == calls;
    }
  }

  lemma {:induction false} TraceAt(calls: seq<ReadCall>, k: nat, cfg: Config)
    requires k < |calls|
    ensures Trace(calls, cfg)[k] == Judge(calls[k], k == 0, Coverage(calls[..k], cfg), cfg)
    decreases |calls|
  {
    hide Judge, Coverage;
    if k < |calls| - 1 {
      var init := calls[..|calls| - 1];
      assert init[..k] == calls[..k];
      TraceAt(init, k, cfg);
    }
  }

  // ---------------------------------------------------------------- truncation

  /** Lines put before a request as leading context. */
  function Lead(call: ReadCall, cfg: Config): int
    requires call.kind.Explicit?
  {
    call.kind.start - StartOf(call.kind.start, cfg)
  }

  /** The call's own request is within what the call delivers. */
  predicate DeliversItself(call: ReadCall, cfg: Config)
    requires call.kind.Explicit?
  {
    var got := DeliveredBy(call, cfg).value;
    Range(call.kind.start, call.kind.end) <= Range(got.0, got.1)
  }

  predicate Counted(call: ReadCall, cfg: Config)
    requires call.kind.Explicit?
  {
    var got := DeliveredBy(call, cfg).value;
    CountsTruncated(call, got.1 - got.0 + 1, cfg)
  }

  /**
   For every configuration, a paid explicit read delivers its own request exactly when it starts at line one
   or later, no context is negative where it matters, and request and leading context fit the cap.
   */
  lemma OwnDeliveryExactly(call: ReadCall, cfg: Config)
    requires call.kind.Explicit? && call.kind.start <= call.kind.end
    ensures var s, e := call.kind.start, call.kind.end;
            DeliversItself(call, cfg) <==>
              s >= 1 && (s == 1 || cfg.leading >= 0) && cfg.trailing >= 0 && e - s + 1 + Lead(call, cfg) <= cfg.maxLines
  {
    var s, e := call.kind.start, call.kind.end;
    assert s in Range(s, e) && e in Range(s, e);
  }

  /** Exactly the arithmetic under which a read delivers its own request. */
  predicate Fits(call: ReadCall, cfg: Config)
    requires call.kind.Explicit?
  {
    var s, n := call.kind.start, call.kind.end - call.kind.start + 1;
    s >= 1 && (s == 1 || cfg.leading >= 0) && cfg.trailing >= 0 && n + Lead(call, cfg) <= cfg.maxLines
  }

  /** The length the counter assumes for a request, in which line zero has no place. */
  function AssumedLength(call: ReadCall): int
    requires call.kind.Explicit?
  {
    if call.kind.start == 0 then Max(1, call.kind.end) else call.kind.end - call.kind.start + 1
  }

  /** Exactly the arithmetic under which a read is counted. */
  predicate Reaches(call: ReadCall, cfg: Config)
    requires call.kind.Explicit?
  {
    var n := call.kind.end - call.kind.start + 1;
    n + Lead(call, cfg) + cfg.trailing >= cfg.maxLines && AssumedLength(call) + cfg.leading + cfg.trailing > cfg.maxLines
  }

  /** A read that is counted although it delivers its request: only context was cut. */
  predicate Harmless(call: ReadCall, cfg: Config)
    requires call.kind.Explicit?
  {
    Fits(call, cfg) && Reaches(call, cfg)
  }

  /** A read that does not deliver its request and is not counted. */
  predicate Missed(call: ReadCall, cfg: Config)
    requires call.kind.Explicit?
  {
    !Fits(call, cfg) && !Reaches(call, cfg)
  }

  /**
   Exactly when the counter is wrong about a paid explicit read, for every configuration and line zero
   included: when the read is harmless or missed. With non-negative contexts none in the file is missed.
   */
  lemma CounterWrongExactly(call: ReadCall, cfg: Config)
    requires call.kind.Explicit? && call.kind.start <= call.kind.end
    ensures (Counted(call, cfg) <==> DeliversItself(call, cfg)) <==> Harmless(call, cfg) || Missed(call, cfg)
    ensures Harmless(call, cfg) <==> Counted(call, cfg) && DeliversItself(call, cfg)
    ensures Missed(call, cfg) <==> !Counted(call, cfg) && !DeliversItself(call, cfg)
    ensures cfg.leading >= 0 && cfg.trailing >= 0 && call.kind.start >= 1 ==> !Missed(call, cfg)
  {
    OwnDeliveryExactly(call, cfg);
    hide DeliversItself;
  }

  predicate ExplicitCovered(calls: seq<ReadCall>, lines: set<int>) {
    forall c <- calls :: c.kind.Explicit? && c.kind.start <= c.kind.end ==> Range(c.kind.start, c.kind.end) <= lines
  }

  /** No explicit request names line zero, which a `:0-9` selector does. */
  predicate StartsInFile(calls: seq<ReadCall>) {
    forall c <- calls :: c.kind.Explicit? && c.kind.start <= c.kind.end ==> c.kind.start >= 1
  }

  /**
   When a group counts no truncation, all its explicit requests were delivered exactly when none of
   them names line zero.
   */
  lemma NoTruncationExactly(group: seq<ReadCall>, cfg: Config)
    requires Trustworthy(cfg) && Total(Trace(group, cfg)).truncations == 0
    ensures ExplicitCovered(group, DeliveredLines(group, cfg)) <==> StartsInFile(group)
  {
    hide Judge, DeliveredBy, DeliveredLines, Trace, Total, Trustworthy;
    CoverageIsSound(group, cfg);
    forall c | c in group && c.kind.Explicit? && c.kind.start <= c.kind.end
      ensures Range(c.kind.start, c.kind.end) <= DeliveredLines(group, cfg) <==> c.kind.start >= 1
    {
      var k :| 0 <= k < |group| && group[k] == c;
      assert c.kind.start in Range(c.kind.start, c.kind.end);
      if c.kind.start >= 1 { ExplicitDelivered(group, k, cfg); }
    }
  }

  /** Configurations under which an uncounted explicit read delivers its request. */
  predicate Trustworthy(cfg: Config) {
    || (cfg.leading >= 0 && cfg.trailing >= 0)
    || (1 + cfg.leading + cfg.trailing > cfg.maxLines && (cfg.leading < 0 || cfg.maxLines <= 1 + cfg.trailing))
  }

  lemma UncountedDelivers(call: ReadCall, cfg: Config)
    requires Trustworthy(cfg) && call.kind.Explicit? && 1 <= call.kind.start <= call.kind.end && !Counted(call, cfg)
    ensures DeliversItself(call, cfg)
  {
    OwnDeliveryExactly(call, cfg);
    hide DeliversItself;
  }

  /** Two groups, one of which fails under any configuration that is not trustworthy. */
  function Probe(cfg: Config): seq<ReadCall> {
    [ReadCall(if cfg.leading < 0 then Explicit(2, 2) else Explicit(1, 1), 0, 0, 1.0)]
  }

  lemma ProbeFails(cfg: Config)
    requires !Trustworthy(cfg)
    ensures Total(Trace(Probe(cfg), cfg)).truncations == 0 && StartsInFile(Probe(cfg))
    ensures !ExplicitCovered(Probe(cfg), DeliveredLines(Probe(cfg), cfg))
  {
    var group := Probe(cfg);
    var call := group[0];
    OwnDeliveryExactly(call, cfg);
    ExplicitOutcome(call, true, [], cfg);
    SingleCall(call, cfg);
  }

  lemma SingleCall(call: ReadCall, cfg: Config)
    requires call.kind.Explicit?
    ensures Trace([call], cfg) == [Judge(call, true, [], cfg)]
    ensures Total(Trace([call], cfg)).truncations == if Counted(call, cfg) then 1 else 0
    ensures var got := DeliveredBy(call, cfg).value; DeliveredLines([call], cfg) == Range(got.0, got.1)
  {
    ExplicitOutcome(call, true, [], cfg);
    var o := Judge(call, true, [], cfg);
    hide Judge, DeliveredBy, CountsTruncated;
    assert [call][..0] == [] && [o][..0] == [];
    assert Trace([call], cfg) == [o];
  }

  /**
   The promise that a replay without truncations covers the explicit requests of every group whose requests
   name lines of the file, decided for every configuration, negative ones included.
   */
  lemma TrustedExactly(cfg: Config)
    ensures Trustworthy(cfg) <==>
            forall group :: Total(Trace(group, cfg)).truncations == 0 && StartsInFile(group) ==> ExplicitCovered(group, DeliveredLines(group, cfg))
  {
    if Trustworthy(cfg) {
      forall group | Total(Trace(group, cfg)).truncations == 0 && StartsInFile(group) ensures ExplicitCovered(group, DeliveredLines(group, cfg)) {
        NoTruncationExactly(group, cfg);
      }
    } else {
      ProbeFails(cfg);
    }
  }

  lemma ExplicitDelivered(group: seq<ReadCall>, k: nat, cfg: Config)
    requires Trustworthy(cfg) && Total(Trace(group, cfg)).truncations == 0 && k < |group|
    requires group[k].kind.Explicit? && 1 <= group[k].kind.start <= group[k].kind.end
    ensures Range(group[k].kind.start, group[k].kind.end) <= DeliveredLines(group, cfg)
  {
    hide Judge, DeliveredBy, Coverage, Trace, Total, Range, Trustworthy, CountsTruncated;
    var call, before := group[k], group[..k];
    TraceAt(group, k, cfg);
    NoneTruncated(Trace(group, cfg), k);
    ExplicitOutcome(call, k == 0, Coverage(before, cfg), cfg);
    if Judge(call, k == 0, Coverage(before, cfg), cfg).Skipped? {
      SkippedExactlyWhenDelivered(before, call, cfg);
      DeliveredGrows(group, k, cfg);
    } else {
      UncountedDelivers(call, cfg);
      DeliveredGrows(group, k + 1, cfg);
      assert group[..k + 1][..k] == before;
    }
  }

  lemma ExplicitOutcome(call: ReadCall, first: bool, covered: seq<Interval>, cfg: Config)
    requires call.kind.Explicit?
    ensures var o, got := Judge(call, first, covered, cfg), DeliveredBy(call, cfg).value;
            (o.Skipped? && !first) || (o.PaidBounded? && o.truncated == CountsTruncated(call, got.1 - got.0 + 1, cfg))
  {
  }

  lemma {:induction false} NoneTruncated(trace: seq<Outcome>, k: nat)
    requires Total(trace).truncations == 0 && k < |trace|
    ensures trace[k].PaidBounded? ==> !trace[k].truncated
  {
    if k < |trace| - 1 { NoneTruncated(trace[..|trace| - 1], k); }
  }

  /** The count is not exact: only trailing context was cut here, and it still counts. */
  lemma TruncationMayBeHarmless()
    ensures var cfg := Config(1, 5, 0, 3);
            var group := [ReadCall(Explicit(1, 3), 0, 0, 1.0)];
            Total(Trace(group, cfg)).truncations == 1 && ExplicitCovered(group, DeliveredLines(group, cfg))
  {
    SingleCall(ReadCall(Explicit(1, 3), 0, 0, 1.0), Config(1, 5, 0, 3));
  }

  /** A `:0-9` selector under the current settings: nothing is counted, and line zero is not delivered. */
  lemma LineZeroIsLost()
    ensures var cfg := Config(500, 3000, 3, 3);
            var group := [ReadCall(Explicit(0, 9), 0, 0, 1.0)];
            && Trustworthy(cfg) && Total(Trace(group, cfg)).truncations == 0
            && !ExplicitCovered(group, DeliveredLines(group, cfg))
  {
    var cfg := Config(500, 3000, 3, 3);
    var call := ReadCall(Explicit(0, 9), 0, 0, 1.0);
    SingleCall(call, cfg);
    assert 0 in Range(0, 9);
    assert call in [call];
  }

  /** Paid explicit calls of a group that a predicate holds of. */
  function PaidWhere(calls: seq<ReadCall>, cfg: Config, p: ReadCall -> bool): nat {
    if calls == [] then 0
    else
      var init, last := calls[..|calls| - 1], calls[|calls| - 1];
      PaidWhere(init, cfg, p)
      + Flag(last.kind.Explicit? && Judge(last, |calls| == 1, Coverage(init, cfg), cfg).PaidBounded? && p(last))
  }

  /** Every explicit request has a line, as the selector parser makes them. */
  predicate AllRanges(calls: seq<ReadCall>) { forall c <- calls :: c.kind.Explicit? ==> c.kind.start <= c.kind.end }

  /**
   What a group's counter counts, for every configuration: the paid explicit reads that do not deliver their
   own request, plus the harmless ones, less the missed ones.
   */
  lemma {:induction false} CounterCounts(calls: seq<ReadCall>, cfg: Config)
    requires AllRanges(calls)
    ensures Total(Trace(calls, cfg)).truncations + PaidWhere(calls, cfg, (c: ReadCall) => c.kind.Explicit? && Missed(c, cfg))
         == PaidWhere(calls, cfg, (c: ReadCall) => c.kind.Explicit? && !DeliversItself(c, cfg))
          + PaidWhere(calls, cfg, (c: ReadCall) => c.kind.Explicit? && Harmless(c, cfg))
  {
    if calls != [] {
      var init, last := calls[..|calls| - 1], calls[|calls| - 1];
      CounterCounts(init, cfg);
      TraceSnoc(calls, cfg);
      JudgeTruncated(last, |calls| == 1, Coverage(init, cfg), cfg);
      assert last in calls;
      hide Judge, Trace, DeliversItself, Harmless, Missed, Counted, Coverage;
      if last.kind.Explicit? { CounterWrongExactly(last, cfg); }
    }
  }

  lemma TraceSnoc(calls: seq<ReadCall>, cfg: Config)
    requires calls != []
    ensures var init, last := calls[..|calls| - 1], calls[|calls| - 1];
            Total(Trace(calls, cfg)) == Count(Total(Trace(init, cfg)), Judge(last, |calls| == 1, Coverage(init, cfg), cfg))
  {
    hide Judge, Coverage, Count;
    var t := Trace(calls, cfg);
    assert t[..|t| - 1] == Trace(calls[..|calls| - 1], cfg);
  }

  lemma JudgeTruncated(call: ReadCall, first: bool, covered: seq<Interval>, cfg: Config)
    ensures var o := Judge(call, first, covered, cfg);
            && (call.kind.Explicit? && o.PaidBounded? ==> o.truncated == Counted(call, cfg))
            && (!call.kind.Explicit? && o.PaidBounded? ==> !o.truncated)
  {
  }

  // ---------------------------------------------------------------- counters

  datatype Sums = Sums(tokens: real, calls: nat, skipped: nat, truncations: nat, bytesLimited: nat, rawTokens: real, rawCalls: nat)

  const NOTHING := Sums(0.0, 0, 0, 0, 0, 0.0, 0)

  function Flag(b: bool): nat { if b then 1 else 0 }

  function Count(t: Sums, o: Outcome): Sums {
    match o
    case Skipped => t.(skipped := t.skipped + 1)
    case PaidRaw(cost) => t.(tokens := t.tokens + cost, calls := t.calls + 1, rawTokens := t.rawTokens + cost, rawCalls := t.rawCalls + 1)
    case PaidBounded(cost, truncated, limited) =>
      t.(tokens := t.tokens + cost, calls := t.calls + 1, truncations := t.truncations + Flag(truncated),
         bytesLimited := t.bytesLimited + Flag(limited))
  }

  function Total(trace: seq<Outcome>): Sums {
    if trace == [] then NOTHING else Count(Total(trace[..|trace| - 1]), trace[|trace| - 1])
  }

  /** Paid reads of a line interval. */
  function BoundedReads(trace: seq<Outcome>): nat {
    if trace == [] then 0 else BoundedReads(trace[..|trace| - 1]) + Flag(trace[|trace| - 1].PaidBounded?)
  }

  /** Every call is either paid for or skipped; paid calls are raw or bounded. */
  lemma {:induction false} PaidPlusSkipped(trace: seq<Outcome>)
    ensures Total(trace).calls + Total(trace).skipped == |trace|
    ensures Total(trace).calls == Total(trace).rawCalls + BoundedReads(trace)
  {
    if trace != [] { PaidPlusSkipped(trace[..|trace| - 1]); }
  }

  // ---------------------------------------------------------------- first-covered groups

  /** What the source tests: the first delivery alone covers every later request with an interval. */
  predicate FirstCovers(group: seq<ReadCall>, cfg: Config)
    requires group != [] && DeliveredBy(group[0], cfg).Some?
  {
    var got := DeliveredBy(group[0], cfg).value;
    forall k :: 1 <= k < |group| && Requested(group[k], cfg).Some?
      ==> IsCovered([got], Requested(group[k], cfg).value.0, Requested(group[k], cfg).value.1)
  }

  predicate SelectorFirst(group: seq<ReadCall>) { group != [] && (group[0].kind.Explicit? || group[0].kind.Open?) }

  lemma {:induction false} FirstCoversTrace(calls: seq<ReadCall>, cfg: Config)
    requires SelectorFirst(calls)
    ensures FirstCovers(calls, cfg) <==> BoundedReads(Trace(calls, cfg)) == 1
    ensures BoundedReads(Trace(calls, cfg)) >= 1
    ensures FirstCovers(calls, cfg) ==> Coverage(calls, cfg) == [DeliveredBy(calls[0], cfg).value]
    decreases |calls|
  {
    var init, last := calls[..|calls| - 1], calls[|calls| - 1];
    var trace := Trace(calls, cfg);
    assert trace[..|trace| - 1] == Trace(init, cfg);
    var o := trace[|trace| - 1];
    assert o == Judge(last, |calls| == 1, Coverage(init, cfg), cfg);
    if |calls| == 1 {
      FirstIsPaid(last, cfg);
    } else {
      FirstCoversTrace(init, cfg);
      assert FirstCovers(calls, cfg) <==> FirstCovers(init, cfg) && CoveredByFirst(calls, cfg) by { hide *; LastJoins(calls, cfg); }
      LastOutcome(last, Coverage(init, cfg), cfg);
      hide Judge, DeliveredBy, Requested, AddFrom, IsCovered, FirstCovers;
    }
  }

  /** The last call of the list is within the first delivery. */
  predicate CoveredByFirst(calls: seq<ReadCall>, cfg: Config)
    requires calls != [] && DeliveredBy(calls[0], cfg).Some?
  {
    var r := Requested(calls[|calls| - 1], cfg);
    r.Some? ==> IsCovered([DeliveredBy(calls[0], cfg).value], r.value.0, r.value.1)
  }

  lemma LastJoins(calls: seq<ReadCall>, cfg: Config)
    requires |calls| > 1 && DeliveredBy(calls[0], cfg).Some?
    ensures FirstCovers(calls, cfg) <==> FirstCovers(calls[..|calls| - 1], cfg) && CoveredByFirst(calls, cfg)
  {
    hide DeliveredBy, Requested, IsCovered;
    var init := calls[..|calls| - 1];
    assert forall k :: 0 <= k < |init| ==> init[k] == calls[k];
  }

  lemma LastOutcome(call: ReadCall, covered: seq<Interval>, cfg: Config)
    ensures var o, r := Judge(call, false, covered, cfg), Requested(call, cfg);
            && (o.PaidBounded? <==> r.Some? && !IsCovered(covered, r.value.0, r.value.1))
            && (!o.PaidBounded? ==> Extend(call, false, covered, cfg) == covered)
  {
    hide AddFrom, IsCovered;
  }

  lemma FirstIsPaid(call: ReadCall, cfg: Config)
    requires call.kind.Explicit? || call.kind.Open?
    ensures Judge(call, true, [], cfg).PaidBounded? && Extend(call, true, [], cfg) == [DeliveredBy(call, cfg).value]
  {
  }

  /**
   A group that starts with a selector is counted as covered by its first read exactly when it pays for
   one bounded read.
   */
  lemma FirstCoveredExactly(group: seq<ReadCall>, cfg: Config)
    requires SelectorFirst(group)
    ensures FirstCovers(group, cfg) || |group| == 1 <==> BoundedReads(Trace(group, cfg)) == 1
  {
    FirstCoversTrace(group, cfg);
  }

  // ---------------------------------------------------------------- the replay

  /** The inner check over the later calls of a group. */
  method LaterCovered(group: seq<ReadCall>, cfg: Config) returns (r: bool)
    requires group != [] && DeliveredBy(group[0], cfg).Some?
    ensures r == FirstCovers(group, cfg)
  {
    hide DeliveredBy, Requested, IsCovered;
    var got := DeliveredBy(group[0], cfg).value;
    for k := 1 to |group|
      invariant FirstCovers(group[..k], cfg)
    {
      var req := Requested(group[k], cfg);
      ghost var next := group[..k + 1];
      LastJoins(next, cfg) by { assert next[0] == group[0]; }
      assert next[..k] == group[..k];
      if req.Some? {
        var inside := IsCoveredScan([got], req.value.0, req.value.1);
        if !inside { return false; }
      }
    }
    return true;
  }

  /** One call of a group against the coverage so far. */
  method ReplayCall(call: ReadCall, idx: nat, coverage: seq<Interval>, cfg: Config, t0: Sums)
    returns (t: Sums, covered: seq<Interval>)
    ensures t == Count(t0, Judge(call, idx == 0, coverage, cfg)) && covered == Extend(call, idx == 0, coverage, cfg)
  {
    hide IsCovered, AddFrom, ByteBudget, CountsTruncated;
    t, covered := t0, coverage;
    var req := Requested(call, cfg);
    var delivered := DeliveredBy(call, cfg);
    if req.None? || delivered.None? {
      var cost := (call.argTokens + call.resultTokens) as real;
      t := t.(tokens := t.tokens + cost, calls := t.calls + 1, rawTokens := t.rawTokens + cost, rawCalls := t.rawCalls + 1);
      return;
    }
    var inside := IsCoveredScan(coverage, req.value.0, req.value.1);
    if idx > 0 && inside {
      t := t.(skipped := t.skipped + 1);
      return;
    }
    var lines := delivered.value.1 - delivered.value.0 + 1;
    if CountsTruncated(call, lines, cfg) { t := t.(truncations := t.truncations + 1); }
    var lineTokens := LineTokens(call, lines);
    if lineTokens * 4.0 > ByteBudget(lines) as real {
      t := t.(bytesLimited := t.bytesLimited + 1);
      lineTokens := ByteBudget(lines) as real / 4.0;
    }
    t := t.(tokens := t.tokens + (call.argTokens as real + lineTokens), calls := t.calls + 1);
    covered := AddInterval(coverage, delivered.value);
  }

  /** The calls of one group in order. */
  method ReplayGroup(group: seq<ReadCall>, cfg: Config) returns (t: Sums, firstCovered: bool)
    requires group != []
    ensures t == Total(Trace(group, cfg))
    ensures firstCovered == (SelectorFirst(group) && BoundedReads(Trace(group, cfg)) == 1)
  {
    hide Judge, Extend, Count, DeliveredBy, FirstCovers, BoundedReads;
    t := NOTHING;
    var coverage: seq<Interval> := [];
    for idx := 0 to |group|
      invariant t == Total(Trace(group[..idx], cfg)) && coverage == Coverage(group[..idx], cfg)
    {
      assert group[..idx + 1][..idx] == group[..idx];
      var trace := Trace(group[..idx + 1], cfg);
      assert trace[..idx] == Trace(group[..idx], cfg);
      t, coverage := ReplayCall(group[idx], idx, coverage, cfg, t);
    }
    assert group[..|group|] == group;
    firstCovered := false;
    if SelectorFirst(group) {
      FirstCoveredExactly(group, cfg);
      var all := LaterCovered(group, cfg) by { SelectorDelivers(group[0], cfg); }
      firstCovered := all || |group| == 1;
    }
  }

  lemma SelectorDelivers(call: ReadCall, cfg: Config)
    requires call.kind.Explicit? || call.kind.Open?
    ensures DeliveredBy(call, cfg).Some?
  {
  }

  datatype Report = Report(all: Sums, selector: Sums, selectorGroups: nat, singleCall: nat, firstCovered: nat, default: Sums)

  function Plus(a: Sums, b: Sums): Sums {
    Sums(a.tokens + b.tokens, a.calls + b.calls, a.skipped + b.skipped, a.truncations + b.truncations,
         a.bytesLimited + b.bytesLimited, a.rawTokens + b.rawTokens, a.rawCalls + b.rawCalls)
  }

  /** A group exists only because a call was put in it. */
  predicate AllStarted(groups: seq<seq<ReadCall>>) { forall i :: 0 <= i < |groups| ==> groups[i] != [] }

  /** The report a list of groups calls for, counted on the outcome of every call. */
  function Expected(groups: seq<seq<ReadCall>>, cfg: Config): Report
    requires AllStarted(groups)
  {
    if groups == [] then Report(NOTHING, NOTHING, 0, 0, 0, NOTHING)
    else
      var g := groups[|groups| - 1];
      AddGroup(Expected(groups[..|groups| - 1], cfg), g, Total(Trace(g, cfg)), BoundedReads(Trace(g, cfg)) == 1)
  }

  function AddGroup(r: Report, g: seq<ReadCall>, t: Sums, oneRead: bool): Report
    requires g != []
  {
    var first := SelectorFirst(g);
    Report(
      Plus(r.all, t),
      if first then Plus(r.selector, t) else r.selector,
      r.selectorGroups + Flag(first),
      r.singleCall + Flag(first && |g| == 1),
      r.firstCovered + Flag(first && oneRead),
      if g[0].kind.Default? then Plus(r.default, t) else r.default)
  }

  predicate Balanced(r: Report, calls: nat, groups: nat) {
    && r.all.calls + r.all.skipped == calls
    && r.selector.calls + r.default.calls <= r.all.calls && r.selector.skipped + r.default.skipped <= r.all.skipped
    && r.singleCall <= r.firstCovered <= r.selectorGroups <= groups
  }

  lemma AddGroupBalances(r: Report, calls: nat, groups: nat, g: seq<ReadCall>, t: Sums, oneRead: bool)
    requires Balanced(r, calls, groups) && g != [] && t.calls + t.skipped == |g|
    requires SelectorFirst(g) && |g| == 1 ==> oneRead
    ensures Balanced(AddGroup(r, g, t, oneRead), calls + |g|, groups + 1)
  {
  }

  function CallCount(groups: seq<seq<ReadCall>>): nat {
    if groups == [] then 0 else CallCount(groups[..|groups| - 1]) + |groups[|groups| - 1]|
  }

  /** Over all groups, paid plus skipped calls are all calls, and no group is counted twice. */
  lemma {:induction false} Conservation(groups: seq<seq<ReadCall>>, cfg: Config)
    requires AllStarted(groups)
    ensures Balanced(Expected(groups, cfg), CallCount(groups), |groups|)
  {
    if groups != [] {
      var n := |groups| - 1;
      var g := groups[n];
      Conservation(groups[..n], cfg);
      PaidPlusSkipped(Trace(g, cfg));
      if SelectorFirst(g) && |g| == 1 { FirstCoveredExactly(g, cfg); }
      hide Trace, Total, BoundedReads, SelectorFirst, Balanced, AddGroup;
      AddGroupBalances(Expected(groups[..n], cfg), CallCount(groups[..n]), n, g, Total(Trace(g, cfg)), BoundedReads(Trace(g, cfg)) == 1);
    }
  }

  /** `replay`. */
  method Replay(groups: seq<seq<ReadCall>>, cfg: Config) returns (r: Report)
    requires AllStarted(groups)
    ensures r == Expected(groups, cfg)
    ensures r.all.calls + r.all.skipped == CallCount(groups)
  {
    hide Trace, Total, BoundedReads;
    r := Report(NOTHING, NOTHING, 0, 0, 0, NOTHING);
    for i := 0 to |groups|
      invariant r == Expected(groups[..i], cfg)
    {
      var group := groups[i];
      assert groups[..i + 1][..i] == groups[..i];
      var t, firstCovered := ReplayGroup(group, cfg);
      r := r.(all := Plus(r.all, t));
      if SelectorFirst(group) {
        r := r.(selector := Plus(r.selector, t), selectorGroups := r.selectorGroups + 1);
        if |group| == 1 { r := r.(singleCall := r.singleCall + 1); }
        if firstCovered { r := r.(firstCovered := r.firstCovered + 1); }
      } else if group[0].kind.Default? {
        r := r.(default := Plus(r.default, t));
      }
    }
    assert groups[..|groups|] == groups;
    Conservation(groups, cfg);
  }
}
