/**
 Publishing one retained tarball against an eventually consistent registry: a small machine over
 tarball reads, registry observations, one `npm publish` and the sleeps of the visibility loop.
 */
module PublishPackage {
  import opened Outcomes
  import opened ReleaseRecords

  /** What one registry observation can come back with. */
  datatype Observed =
    | Absent                  // the version is not visible
    | Seen(o: Observation)
    | Lagging                 // the latest tag is missing or behind: worth retrying after a publish
    | Broken                  // any other error

  datatype Event = ReadTarball(ok: bool) | Observe(result: Observed) | Publish(ok: bool) | Sleep

  datatype Stage =
    | Start | Looking | Publishing | Raced | Waiting(attempt: nat) | Sleeping(attempt: nat)
    | Finished(o: Observation) | Failed

  function Settle(record: Record, o: Observation): Stage { if Exact(record, o) then Finished(o) else Failed }

  /** The stage after an event, or None when the publisher does not do that next. */
  function Advance(record: Record, retries: int, stage: Stage, event: Event): Option<Stage> {
    match (stage, event)
    case (Start, ReadTarball(ok)) => Some(if ok then Looking else Failed)
    case (Looking, Observe(r)) =>
      Some(match r case Absent => Publishing case Seen(o) => Settle(record, o) case _ => Failed)
    case (Publishing, Publish(ok)) => Some(if ok then Waiting(0) else Raced)
    case (Raced, Observe(r)) => Some(if r.Seen? then Settle(record, r.o) else Failed)
    case (Waiting(attempt), Observe(r)) =>
      Some(match r
           case Seen(o) => Settle(record, o)
           case Broken => Failed
           case _ => if attempt < retries then Sleeping(attempt) else Failed)
    case (Sleeping(attempt), Sleep) => Some(Waiting(attempt + 1))
    case _ => None
  }

  function Follow(record: Record, retries: int, stage: Stage, events: seq<Event>): Option<Stage>
    decreases |events|
  {
    if events == [] then Some(stage)
    else
      match Advance(record, retries, stage, events[0])
      case None => None
      case Some(next) => Follow(record, retries, next, events[1..])
  }

  lemma {:induction false} FollowSnoc(record: Record, retries: int, stage: Stage, events: seq<Event>, last: Event)
    requires Follow(record, retries, stage, events).Some?
    ensures Follow(record, retries, stage, events + [last])
         == Advance(record, retries, Follow(record, retries, stage, events).value, last)
    decreases |events|
  {
    if events == [] {
      assert [last][1..] == [];
    } else {
      assert (events + [last])[1..] == events[1..] + [last];
      FollowSnoc(record, retries, Advance(record, retries, stage, events[0]).value, events[1..], last);
    }
  }

  function Count(events: seq<Event>, p: Event -> bool): nat {
    if events == [] then 0 else (if p(events[0]) then 1 else 0) + Count(events[1..], p)
  }

  predicate IsPublish(e: Event) { e.Publish? }

  predicate IsObserve(e: Event) { e.Observe? }

  predicate IsSleep(e: Event) { e.Sleep? }

  function Pos(n: int): nat { if n > 0 then n else 0 }

  /** Most publishes, observations and sleeps that can still follow a stage. */
  function PublishesLeft(stage: Stage): nat { if stage.Start? || stage.Looking? || stage.Publishing? then 1 else 0 }

  function ObservationsLeft(retries: int, stage: Stage): nat {
    match stage
    case Start => Pos(retries) + 2
    case Looking => Pos(retries) + 2
    case Publishing => Pos(retries) + 1
    case Raced => 1
    case Waiting(a) => Pos(retries - a) + 1
    case Sleeping(a) => Pos(retries - a - 1) + 1
    case _ => 0
  }

  function SleepsLeft(retries: int, stage: Stage): nat {
    match stage
    case Waiting(a) => Pos(retries - a)
    case Sleeping(a) => Pos(retries - a - 1) + 1
    case Start => Pos(retries)
    case Looking => Pos(retries)
    case Publishing => Pos(retries)
    case _ => 0
  }

  /** Reached only with retries to spare. */
  predicate WithinRetries(retries: int, stage: Stage) { stage.Sleeping? ==> stage.attempt < retries }

  lemma {:induction false} Bounds(record: Record, retries: int, stage: Stage, events: seq<Event>)
    requires WithinRetries(retries, stage) && Follow(record, retries, stage, events).Some?
    ensures Count(events, IsPublish) <= PublishesLeft(stage)
    ensures Count(events, IsObserve) <= ObservationsLeft(retries, stage)
    ensures Count(events, IsSleep) <= SleepsLeft(retries, stage)
    decreases |events|
  {
    if events != [] { Bounds(record, retries, Advance(record, retries, stage, events[0]).value, events[1..]); }
  }

  /**
   For every registry behaviour the publisher publishes at most once, observes at most retries + 2
   times and sleeps at most `retries` times (a negative setting counts as none).
   */
  lemma PublisherIsBounded(record: Record, retries: int, events: seq<Event>)
    requires Follow(record, retries, Start, events).Some?
    ensures Count(events, IsPublish) <= 1
    ensures Count(events, IsObserve) <= Pos(retries) + 2
    ensures Count(events, IsSleep) <= Pos(retries)
  {
    Bounds(record, retries, Start, events);
  }

  predicate Early(stage: Stage) { stage.Start? || stage.Looking? }

  /** After the first two events no stage returns to the beginning, and only Publishing can publish. */
  lemma {:induction false} NoPublishLater(record: Record, retries: int, stage: Stage, events: seq<Event>, k: nat)
    requires Follow(record, retries, stage, events).Some? && k < |events| && events[k].Publish?
    requires !Early(stage)
    ensures stage.Publishing? && k == 0
    decreases |events|
  {
    if k > 0 { NoPublishLater(record, retries, Advance(record, retries, stage, events[0]).value, events[1..], k - 1); }
  }

  /** A publish happens only as the third event, right after the tarball was read and the version was absent. */
  lemma PublishesOnlyWhenAbsent(record: Record, retries: int, events: seq<Event>, k: nat)
    requires Follow(record, retries, Start, events).Some? && k < |events| && events[k].Publish?
    ensures k == 2 && events[0] == ReadTarball(true) && events[1] == Observe(Absent)
  {
    var s1 := Advance(record, retries, Start, events[0]).value;
    if k > 0 && s1.Looking? {
      assert events[1..][0] == events[1];
      if k > 1 {
        var s2 := Advance(record, retries, s1, events[1]).value;
        assert events[1..][1..] == events[2..] && events[2..][k - 2] == events[k];
        NoPublishLater(record, retries, s2, events[2..], k - 2);
      }
    }
  }

  lemma NothingAfterTheEnd(record: Record, retries: int, stage: Stage, events: seq<Event>)
    requires stage.Finished? || stage.Failed?
    requires Follow(record, retries, stage, events).Some?
    ensures events == []
  {
  }

  /** The publisher ends with an observation only if the last event showed exactly that, and it is exact. */
  lemma {:induction false} FinishesOnlyExact(record: Record, retries: int, stage: Stage, events: seq<Event>, o: Observation)
    requires Follow(record, retries, stage, events) == Some(Finished(o)) && !stage.Finished?
    ensures events != [] && events[|events| - 1] == Observe(Seen(o)) && Exact(record, o)
    decreases |events|
  {
    var next := Advance(record, retries, stage, events[0]).value;
    if next.Finished? {
      NothingAfterTheEnd(record, retries, next, events[1..]);
    } else {
      FinishesOnlyExact(record, retries, next, events[1..], o);
    }
  }

  /** An error other than registry lag is never retried: it is the last event and the publisher fails. */
  lemma {:induction false} NeverRetriesBroken(record: Record, retries: int, stage: Stage, events: seq<Event>, k: nat)
    requires Follow(record, retries, stage, events).Some? && k < |events| && events[k] == Observe(Broken)
    ensures k == |events| - 1 && Follow(record, retries, stage, events) == Some(Failed)
    decreases |events|
  {
    var next := Advance(record, retries, stage, events[0]).value;
    if k == 0 {
      NothingAfterTheEnd(record, retries, next, events[1..]);
    } else {
      NeverRetriesBroken(record, retries, next, events[1..], k - 1);
    }
  }

  /** The run so far: its stage and how often it observed and slept. */
  ghost predicate Trace(record: Record, retries: int, events: seq<Event>, stage: Stage, observations: nat, sleeps: nat) {
    && Follow(record, retries, Start, events) == Some(stage)
    && observations == Count(events, IsObserve) && sleeps == Count(events, IsSleep)
  }

  lemma TraceStep(record: Record, retries: int, events: seq<Event>, stage: Stage, observations: nat, sleeps: nat, event: Event)
    requires Trace(record, retries, events, stage, observations, sleeps) && Advance(record, retries, stage, event).Some?
    ensures Trace(record, retries, events + [event], Advance(record, retries, stage, event).value,
                  observations + (if event.Observe? then 1 else 0), sleeps + (if event.Sleep? then 1 else 0))
  {
    FollowSnoc(record, retries, Start, events, event);
    CountSnoc(events, event, IsObserve);
    CountSnoc(events, event, IsSleep);
  }

  /** The k-th observation shows the package exactly as expected. */
  predicate ShowsAt(record: Record, observe: nat -> Observed, k: nat) { observe(k).Seen? && Exact(record, observe(k).o) }

  /** The version may still become visible. */
  predicate Transient(o: Observed) { o.Lagging? || o.Absent? }

  /** After the publish the package shows in time: within the retries, and nothing but transient answers before. */
  predicate Appears(record: Record, retries: int, observe: nat -> Observed) {
    exists k | 1 <= k <= Pos(retries) + 1 :: ShowsAt(record, observe, k) && forall j | 1 <= j < k :: Transient(observe(j))
  }

  /** What it takes for the publisher to finish. */
  predicate Succeeds(record: Record, retries: int, tarballOk: bool, observe: nat -> Observed, publishOk: bool) {
    && tarballOk
    && (|| ShowsAt(record, observe, 0)
        || (observe(0).Absent? && if publishOk then Appears(record, retries, observe) else ShowsAt(record, observe, 1)))
  }

  /**
   `publishRetainedPackage` as it runs. The environment is an oracle: the k-th observation returns
   observe(k), the publish exits with publishOk.
   */
  method PublishRetained(record: Record, retries: int, tarballOk: bool, observe: nat -> Observed, publishOk: bool)
    returns (result: Option<Observation>, observations: nat, sleeps: nat, ghost events: seq<Event>)
    ensures Follow(record, retries, Start, events) == Some(if result.Some? then Finished(result.value) else Failed)
    ensures observations <= Pos(retries) + 2 && sleeps <= Pos(retries)
    ensures result.Some? ==> Exact(record, result.value) && observations > 0 && observe(observations - 1) == Seen(result.value)
    ensures result.Some? <==> Succeeds(record, retries, tarballOk, observe, publishOk)
  {
    events, observations, sleeps := [], 0, 0;
    assert Trace(record, retries, events, Start, 0, 0);
    hide Follow, Trace, Exact, Count;

    TraceStep(record, retries, events, Start, 0, 0, ReadTarball(tarballOk));
    events := events + [ReadTarball(tarballOk)];
    if !tarballOk { result := End(record, retries, events, Failed, 0, 0); return; }

    var existing := observe(0);
    TraceStep(record, retries, events, Looking, 0, 0, Observe(existing));
    events, observations := events + [Observe(existing)], 1;
    if !existing.Absent? {
      var stage := if existing.Seen? then Settle(record, existing.o) else Failed;
      result := End(record, retries, events, stage, 1, 0);
      return;
    }

    TraceStep(record, retries, events, Publishing, 1, 0, Event.Publish(publishOk));
    events := events + [Event.Publish(publishOk)];
    if !publishOk {
      var raced := observe(1);
      TraceStep(record, retries, events, Raced, 1, 0, Observe(raced));
      events, observations := events + [Observe(raced)], 2;
      var stage := if raced.Seen? then Settle(record, raced.o) else Failed;
      result := End(record, retries, events, stage, 2, 0);
      return;
    }

    result, observations, sleeps, events := AwaitVisible(record, retries, observe, events);
  }

  /** The loop after a successful publish: observes until the version shows or the retries are spent. */
  method AwaitVisible(record: Record, retries: int, observe: nat -> Observed, ghost before: seq<Event>)
    returns (result: Option<Observation>, observations: nat, sleeps: nat, ghost events: seq<Event>)
    requires Trace(record, retries, before, Waiting(0), 1, 0)
    ensures Follow(record, retries, Start, events) == Some(if result.Some? then Finished(result.value) else Failed)
    ensures observations <= Pos(retries) + 2 && sleeps <= Pos(retries)
    ensures result.Some? ==> Exact(record, result.value) && observations > 0 && observe(observations - 1) == Seen(result.value)
    ensures result.Some? <==> Appears(record, retries, observe)
  {
    hide Follow, Trace, Exact, Count;
    events, observations, sleeps := before, 1, 0;
    var attempt := 0;
    while true
      invariant Trace(record, retries, events, Waiting(attempt), observations, sleeps)
      invariant observations == attempt + 1 && attempt <= Pos(retries)
      invariant forall j | 1 <= j <= attempt :: Transient(observe(j))
      decreases Pos(retries) - attempt
    {
      var observed := observe(observations);
      TraceStep(record, retries, events, Waiting(attempt), observations, sleeps, Observe(observed));
      events, observations := events + [Observe(observed)], observations + 1;
      if attempt < retries && (observed.Lagging? || observed.Absent?) {
        TraceStep(record, retries, events, Sleeping(attempt), observations, sleeps, Sleep);
        events, sleeps := events + [Sleep], sleeps + 1;
        attempt := attempt + 1;
        continue;
      }
      var stage := if observed.Seen? then Settle(record, observed.o) else Failed;
      result := End(record, retries, events, stage, observations, sleeps);
      AppearsNow(record, retries, observe, attempt);
      return;
    }
  }

  /** At the first answer after which the publisher does not wait, this answer decides. */
  lemma AppearsNow(record: Record, retries: int, observe: nat -> Observed, attempt: nat)
    requires attempt <= Pos(retries) && forall j | 1 <= j <= attempt :: Transient(observe(j))
    requires !(attempt < retries && Transient(observe(attempt + 1)))
    ensures Appears(record, retries, observe) <==> ShowsAt(record, observe, attempt + 1)
  {
    hide Exact;
    if k :| 1 <= k <= Pos(retries) + 1 && ShowsAt(record, observe, k) && forall j | 1 <= j < k :: Transient(observe(j)) {
      assert !Transient(observe(k));
    }
  }

  method End(record: Record, retries: int, ghost events: seq<Event>, stage: Stage, ghost observations: nat, ghost sleeps: nat)
    returns (result: Option<Observation>)
    requires stage.Finished? || stage.Failed?
    requires Trace(record, retries, events, stage, observations, sleeps)
    ensures Follow(record, retries, Start, events) == Some(if result.Some? then Finished(result.value) else Failed)
    ensures result.Some? <==> stage.Finished?
    ensures observations <= Pos(retries) + 2 && sleeps <= Pos(retries)
    ensures result.Some? ==> Exact(record, result.value) && result.value == stage.o
  {
    PublisherIsBounded(record, retries, events);
    result := if stage.Finished? then Some(stage.o) else None;
    if result.Some? { FinishesOnlyExact(record, retries, Start, events, result.value); }
  }

  lemma {:induction false} CountSnoc(events: seq<Event>, last: Event, p: Event -> bool)
    ensures Count(events + [last], p) == Count(events, p) + if p(last) then 1 else 0
  {
    if events == [] {
      assert [last][1..] == [];
    } else {
      assert (events + [last])[1..] == events[1..] + [last];
      CountSnoc(events[1..], last, p);
    }
  }
}
