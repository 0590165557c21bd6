/**
 The `latest` tag over whole runs: a run moves it backwards only through a stale answer, and exactly when
 such an answer is there to be shown for a package the run can get to.
 */
module PublishTags {
  import opened Outcomes
  import opened Versions
  import opened ReleaseRecords
  import opened SeqSets
  import opened PublicationPlan
  import opened PublishPackage
  import opened ReleaseEvidence
  import opened PublishRun
  import opened PublishResume
  import RegistryView

  predicate Newer(tag: Tag, version: string) { tag.Some? && !RegistryView.AtLeast(version, tag.value) }

  /** The tag of a package was on a version and is now not known to be at least that version. */
  predicate Backwards(before: Tag, after: Tag) {
    before.Some? && before != after && (after.None? || !RegistryView.AtLeast(after.value, before.value))
  }

  /** The current tag is newer than the release, and an older value that allows a publish is still shown. */
  predicate Trap(w: World, r: Record) {
    r.name !in w.registry && Newer(Current(w, r.name), r.version) && exists tag <- Shown(w, r.name) :: Passes(tag, r.version)
  }

  /** The current package of the run can still be finished in this run. */
  predicate Finishes(w: World, plan: seq<Record>)
    requires w.process.OnPackage? && w.process.index < |plan|
  {
    var r := plan[w.process.index];
    match w.process.stage
    case Finished(_) => true
    case Start => Completable(w, r)
    case Looking => Completable(w, r)
    case Publishing => r.name in w.registry ==> Completable(w, r)
    case Raced => Settled(w, r)
    case Waiting(_) => Settled(w, r)
    case Sleeping(_) => Settled(w, r)
    case Failed => false
  }

  /** A new run gets to package `i`: each one before it can be settled, or is the absent one being published. */
  predicate NewRunGets(w: World, plan: seq<Record>, i: nat) {
    forall j :: 0 <= j < i && j < |plan| ==> Completable(w, plan[j]) || Committed(w, plan, j)
  }

  /** The current run is at package `i` and has yet to look at it. */
  predicate IsAt(w: World, i: nat) {
    w.process.OnPackage? && w.process.index == i && (w.process.stage.Start? || w.process.stage.Looking?)
  }

  /** The current run gets to package `i` from an earlier one. */
  predicate RunGets(w: World, plan: seq<Record>, i: nat) {
    w.process.OnPackage? && w.process.index < i && i < |plan| && Finishes(w, plan) && CompletableIn(w, plan, w.process.index + 1, i)
  }

  /**
   A package whose publication would move the tag backwards and that this tool can get to: a trap that a new
   run or the current one reaches, or the package already being published past a newer tag.
   */
  predicate Endangered(w: World, plan: seq<Record>, i: nat)
    requires i < |plan|
  {
    || (Trap(w, plan[i]) && (NewRunGets(w, plan, i) || IsAt(w, i) || RunGets(w, plan, i)))
    || (Committed(w, plan, i) && Newer(Current(w, plan[i].name), plan[i].version))
  }

  // ---------------------------------------------------------------- danger comes from danger

  lemma NewRunBack(rel: Release, plan: seq<Record>, w: World, s: Step, i: nat)
    requires PlanOf(rel) == Ok(plan) && DistinctNames(plan) && Enabled(rel, w, s) && Own(s)
    requires NewRunGets(Apply(rel, w, s), plan, i)
    ensures NewRunGets(w, plan, i)
  {
    hide PlanOf, Completable, Committed, DistinctNames, Enabled, Apply;
    var w' := Apply(rel, w, s);
    forall j | 0 <= j < i && j < |plan| ensures Completable(w, plan[j]) || Committed(w, plan, j) {
      if Completable(w', plan[j]) {
        CompletableBack(rel, plan, w, s, j);
      } else {
        CommittedBack(rel, plan, w, s, j);
      }
    }
  }

  lemma CompletableBack(rel: Release, plan: seq<Record>, w: World, s: Step, j: nat)
    requires PlanOf(rel) == Ok(plan) && DistinctNames(plan) && Enabled(rel, w, s) && Own(s) && j < |plan|
    requires Completable(Apply(rel, w, s), plan[j])
    ensures Completable(w, plan[j]) || Committed(w, plan, j)
  {
    hide PlanOf, Completable, Committed, DistinctNames, Enabled, Apply;
    if s.Work? && s.event.Publish? {
      PublishStep(rel, w, s, j);
    } else {
      QuietStep(rel, w, s);
      FewerCompletable(w, Apply(rel, w, s), plan[j]);
    }
  }

  lemma CommittedBack(rel: Release, plan: seq<Record>, w: World, s: Step, j: nat)
    requires PlanOf(rel) == Ok(plan) && Enabled(rel, w, s) && Own(s) && j < |plan| && Committed(Apply(rel, w, s), plan, j)
    ensures Completable(w, plan[j]) || Committed(w, plan, j)
  {
    NoLongerCommitted(rel, plan, w, s, j);
    hide PlanOf, Completable, Committed, Enabled, Apply;
    CommitWasCompletable(rel, w, s, j);
  }

  lemma NoLongerCommitted(rel: Release, plan: seq<Record>, w: World, s: Step, j: nat)
    requires PlanOf(rel) == Ok(plan) && Enabled(rel, w, s) && Own(s) && j < |plan| && Committed(Apply(rel, w, s), plan, j)
    ensures !(s.Work? && s.event.Publish?)
  {
    hide PlanOf, RegistryView.Look, Truthful, Exact, CreateFinal, ValidExpected, Shown;
  }

  /** Packages the step does not work on keep what they need. */
  lemma OthersBack(rel: Release, plan: seq<Record>, w: World, s: Step, low: nat, i: nat)
    requires PlanOf(rel) == Ok(plan) && DistinctNames(plan) && Enabled(rel, w, s) && Own(s)
    requires w.process.OnPackage? ==> w.process.index < low
    requires CompletableIn(Apply(rel, w, s), plan, low, i)
    ensures CompletableIn(w, plan, low, i)
  {
    hide PlanOf, Completable, DistinctNames, Enabled, Apply;
    forall j | low <= j < i && j < |plan| ensures Completable(w, plan[j]) { CompletableBack(rel, plan, w, s, j); }
  }

  /** A run that can come to package `i` after a step could come to it, or start anew for it, before. */
  lemma RunBack(rel: Release, plan: seq<Record>, w: World, s: Step, i: nat)
    requires PlanOf(rel) == Ok(plan) && DistinctNames(plan) && Enabled(rel, w, s) && Own(s) && i < |plan|
    requires var w' := Apply(rel, w, s); IsAt(w', i) || RunGets(w', plan, i)
    ensures NewRunGets(w, plan, i) || IsAt(w, i) || RunGets(w, plan, i)
  {
    if s.Begin? {
      BeginBack(rel, plan, w, i);
    } else if s.NextPackage? {
      NextBack(rel, plan, w, i);
    } else {
      SameIndex(rel, plan, w, s);
      var w' := Apply(rel, w, s);
      if RunGets(w', plan, i) {
        FinishesBack(rel, plan, w, s);
        OthersBack(rel, plan, w, s, w.process.index + 1, i);
      } else {
        AtBack(rel, plan, w, s, i);
      }
    }
  }

  lemma BeginBack(rel: Release, plan: seq<Record>, w: World, i: nat)
    requires PlanOf(rel) == Ok(plan) && Enabled(rel, w, Begin) && i < |plan|
    requires var w' := Apply(rel, w, Begin); IsAt(w', i) || RunGets(w', plan, i)
    ensures NewRunGets(w, plan, i)
  {
    hide PlanOf, ValidExpected, Passes;
    var w' := Apply(rel, w, Begin);
    assert forall n :: Shown(w', n) == Shown(w, n);
  }

  lemma NextBack(rel: Release, plan: seq<Record>, w: World, i: nat)
    requires PlanOf(rel) == Ok(plan) && Enabled(rel, w, NextPackage) && i < |plan|
    requires var w' := Apply(rel, w, NextPackage); IsAt(w', i) || RunGets(w', plan, i)
    ensures RunGets(w, plan, i)
  {
    hide PlanOf, Passes;
    var w' := Apply(rel, w, NextPackage);
    assert forall n :: Shown(w', n) == Shown(w, n);
  }

  /** Every other step that leaves a run in progress works on the same package. */
  lemma SameIndex(rel: Release, plan: seq<Record>, w: World, s: Step)
    requires PlanOf(rel) == Ok(plan) && Enabled(rel, w, s) && Own(s) && !s.Begin? && !s.NextPackage?
    requires Apply(rel, w, s).process.OnPackage?
    ensures w.process.OnPackage? && w.process.index == Apply(rel, w, s).process.index
    ensures s.Look? || s.Work? || (s.Forget? && Apply(rel, w, s).process == w.process)
  {
    hide PlanOf, Advance, RegistryView.Look, Truthful, Exact, CreateFinal, Shown;
  }

  lemma AtBack(rel: Release, plan: seq<Record>, w: World, s: Step, i: nat)
    requires PlanOf(rel) == Ok(plan) && Enabled(rel, w, s) && (s.Look? || s.Work? || s.Forget?) && w.process.OnPackage?
    requires IsAt(Apply(rel, w, s), i)
    ensures IsAt(w, i)
  {
    hide PlanOf, RegistryView.Look, Truthful, Exact, Shown;
  }

  /** What finishes after a step could finish before it. */
  lemma FinishesBack(rel: Release, plan: seq<Record>, w: World, s: Step)
    requires PlanOf(rel) == Ok(plan) && DistinctNames(plan) && Enabled(rel, w, s) && (s.Look? || s.Work? || s.Forget?)
    requires w.process.OnPackage? && Apply(rel, w, s).process.OnPackage? && Apply(rel, w, s).process.index == w.process.index < |plan|
    requires s.Forget? ==> Apply(rel, w, s).process == w.process
    requires Finishes(Apply(rel, w, s), plan)
    ensures Finishes(w, plan)
  {
    hide Enabled, Apply, Completable, Settled, PlanOf, DistinctNames, Fewer;
    var w', r := Apply(rel, w, s), plan[w.process.index];
    if s.Look? {
      LookFinishesBack(rel, plan, w, s.answer);
    } else if s.Work? && s.event.Publish? {
      PublishFinishesBack(rel, plan, w, s);
    } else {
      QuietStep(rel, w, s);
      QuietFinishes(rel, plan, w, s);
      if Completable(w', r) { FewerCompletable(w, w', r); }
      if Settled(w', r) { FewerSettled(w, w', r); }
    }
  }

  lemma FewerSettled(w: World, w': World, r: Record)
    requires Fewer(w, w') && Settled(w', r)
    ensures Settled(w, r)
  {
    hide Shown;
  }

  /** Reading the tarball, sleeping and forgetting leave the package needing what it needed. */
  lemma QuietFinishes(rel: Release, plan: seq<Record>, w: World, s: Step)
    requires PlanOf(rel) == Ok(plan) && Enabled(rel, w, s) && ((s.Work? && !s.event.Publish?) || s.Forget?)
    requires w.process.OnPackage? && Apply(rel, w, s).process.OnPackage?
    ensures var p, p' := w.process.stage, Apply(rel, w, s).process.stage;
            p == p' || (p.Start? && p'.Looking?) || (p.Sleeping? && p'.Waiting?) || p'.Failed?
    ensures Apply(rel, w, s).registry == w.registry
  {
    hide PlanOf, RegistryView.Look, Truthful, Exact, Shown;
  }

  lemma LookFinishesBack(rel: Release, plan: seq<Record>, w: World, a: Answer)
    requires PlanOf(rel) == Ok(plan) && Enabled(rel, w, PublishRun.Look(a)) && w.process.index < |plan|
    requires Finishes(Apply(rel, w, PublishRun.Look(a)), plan)
    ensures Finishes(w, plan)
  {
    hide PlanOf, RegistryView.Look, Truthful, Exact, Shown, Passes;
    var w', r := Apply(rel, w, PublishRun.Look(a)), plan[w.process.index];
    SameLook(w, w', r);
    var seen := RegistryView.Look(r, a);
    if seen.Seen? {
      ExactHolds(w, r, a);
    } else if seen.Absent? && r.name !in w.registry {
      AbsentWasCompletable(w, r, a);
    }
  }

  lemma PublishFinishesBack(rel: Release, plan: seq<Record>, w: World, s: Step)
    requires PlanOf(rel) == Ok(plan) && Enabled(rel, w, s) && s.Work? && s.event.Publish? && w.process.index < |plan|
    requires Finishes(Apply(rel, w, s), plan)
    ensures Finishes(w, plan)
  {
    hide PlanOf, Exact, Passes;
    var w', r := Apply(rel, w, s), plan[w.process.index];
    assert r.name in w.registry ==> Shown(w', r.name) == Shown(w, r.name);
  }

  lemma TrapBack(rel: Release, plan: seq<Record>, w: World, s: Step, i: nat)
    requires PlanOf(rel) == Ok(plan) && DistinctNames(plan) && Enabled(rel, w, s) && Own(s) && i < |plan|
    requires Trap(Apply(rel, w, s), plan[i])
    ensures Trap(w, plan[i])
  {
    CurrentStays(rel, plan, w, s, i);
    hide PlanOf, Completable, Committed, DistinctNames, Enabled, Apply, Newer, Passes, Shown, Current;
  }

  /** For a package that stays absent, a step keeps the current tag and shows nothing new. */
  lemma CurrentStays(rel: Release, plan: seq<Record>, w: World, s: Step, i: nat)
    requires PlanOf(rel) == Ok(plan) && DistinctNames(plan) && Enabled(rel, w, s) && Own(s) && i < |plan|
    requires plan[i].name !in Apply(rel, w, s).registry
    ensures plan[i].name !in w.registry && Current(Apply(rel, w, s), plan[i].name) == Current(w, plan[i].name)
    ensures forall tag <- Shown(Apply(rel, w, s), plan[i].name) :: tag in Shown(w, plan[i].name)
  {
    hide PlanOf, RegistryView.Look, Truthful, Exact, CreateFinal, ValidExpected, Advance;
    var w', n := Apply(rel, w, s), plan[i].name;
    if s.Forget? && s.name == n {
      assert Shown(w', n) == Shown(w, n)[1..];
    } else {
      assert Shown(w', n) == Shown(w, n);
    }
  }

  /** Only a look makes an absent package the one published next. */
  lemma CommitFromLook(rel: Release, plan: seq<Record>, w: World, s: Step, i: nat)
    requires PlanOf(rel) == Ok(plan) && Enabled(rel, w, s) && Own(s) && i < |plan|
    requires Committed(Apply(rel, w, s), plan, i) && !Committed(w, plan, i)
    ensures IsAt(w, i)
  {
    hide PlanOf, RegistryView.Look, Truthful, Exact, CreateFinal, ValidExpected, Shown;
  }

  lemma CompletableAbsent(w: World, r: Record)
    requires Completable(w, r) && r.name !in w.registry && Newer(Current(w, r.name), r.version)
    ensures Trap(w, r)
  {
    hide Newer, Passes, Shown, Current;
  }

  lemma EndangeredBack(rel: Release, plan: seq<Record>, w: World, s: Step, i: nat)
    requires PlanOf(rel) == Ok(plan) && DistinctNames(plan) && Enabled(rel, w, s) && Own(s) && i < |plan|
    requires Endangered(Apply(rel, w, s), plan, i)
    ensures Endangered(w, plan, i)
  {
    hide PlanOf, DistinctNames, Enabled, Apply, Newer, Current, Trap, NewRunGets, IsAt, RunGets, Completable;
    var w', r := Apply(rel, w, s), plan[i];
    if Trap(w', r) && (NewRunGets(w', plan, i) || IsAt(w', i) || RunGets(w', plan, i)) {
      TrapBack(rel, plan, w, s, i);
      if NewRunGets(w', plan, i) {
        NewRunBack(rel, plan, w, s, i);
      } else {
        RunBack(rel, plan, w, s, i);
      }
    } else {
      CurrentStays(rel, plan, w, s, i);
      if !Committed(w, plan, i) {
        CommitFromLook(rel, plan, w, s, i);
        CommittedBack(rel, plan, w, s, i);
        CompletableAbsent(w, r);
      }
    }
  }

  // ---------------------------------------------------------------- steps backwards

  /** A step of this tool changes a current tag only by publishing an absent package. */
  lemma OnlyPublishMoves(rel: Release, plan: seq<Record>, w: World, s: Step, n: string)
    requires PlanOf(rel) == Ok(plan) && Enabled(rel, w, s) && Own(s) && Current(w, n) != Current(Apply(rel, w, s), n)
    ensures w.process.OnPackage? && w.process.index < |plan| && w.process.stage.Publishing?
    ensures var r := plan[w.process.index]; r.name == n && n !in w.registry && Current(Apply(rel, w, s), n) == Some(r.version)
  {
    hide PlanOf, RegistryView.Look, Truthful, Exact, CreateFinal, ValidExpected;
    var w' := Apply(rel, w, s);
    assert Shown(w', n) == Shown(w, n)[1..] || Shown(w', n) == Shown(w, n) || (s.Work? && s.event.Publish?);
  }

  /** So it moves a tag backwards only where the package in hand is endangered. */
  lemma BackwardsIsEndangered(rel: Release, plan: seq<Record>, w: World, s: Step, n: string)
    requires PlanOf(rel) == Ok(plan) && Enabled(rel, w, s) && Own(s) && Backwards(Current(w, n), Current(Apply(rel, w, s), n))
    ensures exists i :: 0 <= i < |plan| && plan[i].name == n && Endangered(w, plan, i)
  {
    OnlyPublishMoves(rel, plan, w, s, n);
    hide PlanOf, Enabled, Apply, RegistryView.AtLeast, Completable, Current, Trap;
    assert Endangered(w, plan, w.process.index);
  }

  lemma {:induction false} RunEndangered(rel: Release, plan: seq<Record>, w: World, steps: seq<Step>, i: nat)
    requires PlanOf(rel) == Ok(plan) && DistinctNames(plan) && AllOwn(steps) && Execute(rel, w, steps).Some? && i < |plan|
    requires Endangered(Execute(rel, w, steps).value, plan, i)
    ensures Endangered(w, plan, i)
    decreases |steps|
  {
    hide PlanOf, DistinctNames, Enabled, Apply, Endangered;
    if steps != [] {
      assert AllOwn(steps[1..]);
      RunEndangered(rel, plan, Apply(rel, w, steps[0]), steps[1..], i);
      EndangeredBack(rel, plan, w, steps[0], i);
    }
  }

  /** Some run of this tool reaches a step that moves the tag of `n` backwards. */
  ghost predicate MovesBack(rel: Release, w: World, n: string) {
    exists mid, s :: Leads(rel, w, mid) && Own(s) && Enabled(rel, mid, s) && Backwards(Current(mid, n), Current(Apply(rel, mid, s), n))
  }

  lemma MovesBackNeedsDanger(rel: Release, plan: seq<Record>, w: World, n: string)
    requires PlanOf(rel) == Ok(plan) && DistinctNames(plan) && MovesBack(rel, w, n)
    ensures exists i :: 0 <= i < |plan| && plan[i].name == n && Endangered(w, plan, i)
  {
    hide PlanOf, DistinctNames, Execute, Enabled, Apply, Backwards, Endangered, Current;
    var mid, s :| Leads(rel, w, mid) && Own(s) && Enabled(rel, mid, s) && Backwards(Current(mid, n), Current(Apply(rel, mid, s), n));
    var steps :| AllOwn(steps) && Execute(rel, w, steps) == Some(mid);
    BackwardsIsEndangered(rel, plan, mid, s, n);
    var i :| 0 <= i < |plan| && plan[i].name == n && Endangered(mid, plan, i);
    RunEndangered(rel, plan, w, steps, i);
  }

  // ---------------------------------------------------------------- and danger is real

  lemma SpringsTrap(rel: Release, plan: seq<Record>, mid: World, i: nat)
    requires PlanOf(rel) == Ok(plan) && i < |plan| && Committed(mid, plan, i) && StableVersion(plan[i].version)
    requires Newer(Current(mid, plan[i].name), plan[i].version)
    ensures Enabled(rel, mid, Work(Event.Publish(true), true))
    ensures Backwards(Current(mid, plan[i].name), Current(Apply(rel, mid, Work(Event.Publish(true), true)), plan[i].name))
  {
    hide PlanOf, StableVersion, RegistryView.AtLeast, Enabled, Apply, Current, Committed;
    NotNewerThanItself(plan[i].version);
    PublishShows(rel, plan, mid, i);
  }

  lemma PublishShows(rel: Release, plan: seq<Record>, mid: World, i: nat)
    requires PlanOf(rel) == Ok(plan) && i < |plan| && Committed(mid, plan, i)
    ensures Enabled(rel, mid, Work(Event.Publish(true), true))
    ensures Current(Apply(rel, mid, Work(Event.Publish(true), true)), plan[i].name) == Some(plan[i].version)
  {
    hide PlanOf;
    var w' := Apply(rel, mid, Work(Event.Publish(true), true));
    assert Shown(w', plan[i].name)[|Shown(w', plan[i].name)| - 1] == Some(plan[i].version);
  }

  lemma NotNewerThanItself(version: string)
    requires StableVersion(version)
    ensures RegistryView.AtLeast(version, version)
  {
    CompareIsTotalOrder(version, version, version);
  }

  /** A run that is about to look at a trap springs it with the answer that shows the older value. */
  lemma AtSprings(rel: Release, plan: seq<Record>, from: World, w: World, i: nat)
    requires Ready(rel, plan) && Leads(rel, from, w) && i < |plan| && IsAt(w, i) && Trap(w, plan[i])
    ensures MovesBack(rel, from, plan[i].name)
  {
    hide PlanOf, Leads, ValidExpected, StableVersion, DistinctNames, RegistryView.Look, Truthful, Passes, LowerHex, Exact, Newer;
    var r := plan[i];
    assert r in plan;
    var w1 := w;
    if w.process.stage.Start? { w1 := WorkOnce(rel, from, w, ReadTarball(true), false); }
    SameLook(w, w1, r);
    var tag :| tag in Shown(w, r.name) && Passes(tag, r.version);
    PassingIsAbsent(w1, r, tag);
    var mid := LookOnce(rel, from, w1, Missing(tag));
    SameLook(w1, mid, r);
    SpringsTrap(rel, plan, mid, i);
  }

  lemma UntouchedTrap(w: World, w': World, r: Record)
    requires Untouched(w, w', r.name) && Trap(w, r)
    ensures Trap(w', r)
  {
    hide Shown, Newer, Passes;
  }

  /** From the start of some package, a run settles the ones before the trap and springs it. */
  lemma RunSprings(rel: Release, plan: seq<Record>, from: World, w: World, i: nat)
    requires Ready(rel, plan) && Leads(rel, from, w) && i < |plan| && Trap(w, plan[i])
    requires w.process.OnPackage? && w.process.stage == Start && w.process.index <= i && CompletableIn(w, plan, w.process.index, i)
    ensures MovesBack(rel, from, plan[i].name)
  {
    hide PlanOf, Leads, ValidExpected, StableVersion, DistinctNames, Completable, Settled, LowerHex, Trap, MovesBack, Untouched;
    var w' := PackagesSettle(rel, plan, from, w, w.process.index, i);
    UntouchedTrap(w, w', plan[i]);
    AtSprings(rel, plan, from, w', i);
  }

  lemma NewRunSprings(rel: Release, plan: seq<Record>, from: World, w: World, i: nat)
    requires Ready(rel, plan) && Leads(rel, from, w) && i < |plan| && Trap(w, plan[i]) && CompletableIn(w, plan, 0, i)
    ensures MovesBack(rel, from, plan[i].name)
  {
    hide PlanOf, Leads, ValidExpected, StableVersion, DistinctNames, LowerHex, Trap, MovesBack, Completable;
    LeadsStep(rel, from, w, Stop);
    var stopped := Apply(rel, w, Stop);
    LeadsStep(rel, from, stopped, Begin);
    var begun := Apply(rel, stopped, Begin);
    SameBefore(w, begun, plan, i);
    UntouchedTrap(w, begun, plan[i]);
    RunSprings(rel, plan, from, begun, i);
  }

  lemma SameBefore(w: World, w': World, plan: seq<Record>, i: nat)
    requires w'.registry == w.registry && w'.tags == w.tags && CompletableIn(w, plan, 0, i)
    ensures CompletableIn(w', plan, 0, i) && forall n :: Untouched(w, w', n)
  {
    hide Passes;
    forall j | 0 <= j < i && j < |plan| ensures Completable(w', plan[j]) { SameLook(w, w', plan[j]); }
  }

  /** With the absent package in hand published first, a new run gets to the trap. */
  lemma CommittedSprings(rel: Release, plan: seq<Record>, w: World, i: nat)
    requires Ready(rel, plan) && i < |plan| && Trap(w, plan[i]) && NewRunGets(w, plan, i)
    requires w.process.OnPackage? && w.process.index < i && Committed(w, plan, w.process.index)
    ensures MovesBack(rel, w, plan[i].name)
  {
    hide PlanOf, Leads, ValidExpected, StableVersion, LowerHex, Trap, MovesBack, Passes;
    var k := w.process.index;
    LeadsHere(rel, w);
    var next := WorkOnce(rel, w, w, Event.Publish(true), true);
    forall j | 0 <= j < |plan| && j != k ensures Untouched(w, next, plan[j].name) {
      assert plan[j].name != plan[k].name;
    }
    UntouchedTrap(w, next, plan[i]);
    forall j | 0 <= j < i ensures Completable(next, plan[j]) {
      if j != k { UntouchedCompletable(w, next, plan[j]); }
    }
    NewRunSprings(rel, plan, w, next, i);
  }

  lemma UntouchedCompletable(w: World, w': World, r: Record)
    requires Untouched(w, w', r.name) && Completable(w, r)
    ensures Completable(w', r)
  {
    hide Shown, Passes;
  }

  /** Finishing the current package in this run. */
  lemma CurrentFinishes(rel: Release, plan: seq<Record>, from: World, w: World) returns (w': World)
    requires Ready(rel, plan) && Leads(rel, from, w) && w.process.OnPackage? && w.process.index < |plan| && Finishes(w, plan)
    ensures Leads(rel, from, w') && w'.process.OnPackage? && w'.process.index == w.process.index + 1 && w'.process.stage == Start
    ensures forall j :: w.process.index < j < |plan| ==> Untouched(w, w', plan[j].name)
  {
    hide PlanOf, Leads, ValidExpected, StableVersion, LowerHex, Completable, Past, DistinctNames, Settled, Shown;
    var r, k := plan[w.process.index], w.process.index;
    PastNext(w, r);
    PastUntouched(w, plan, k, k + 1);
    match w.process.stage
    case Start =>
      PackageSettles(rel, plan, from, w);
      w' := Past(w, r);
    case Looking =>
      LookSettles(rel, plan, from, w);
      w' := Past(w, r);
    case Publishing =>
      if r.name in w.registry {
        PresentIsSettled(w, r);
        var w1 := WorkOnce(rel, from, w, Event.Publish(true), false);
        SameSettle(w, w1, r);
        w' := WaitingFinishes(rel, plan, from, w1);
        SameSettle(w, w', r);
      } else {
        PublishSettles(rel, plan, from, w);
        w' := Past(w, r);
      }
    case Sleeping(_) =>
      var w1 := WorkOnce(rel, from, w, Sleep, false);
      SameSettle(w, w1, r);
      w' := WaitingFinishes(rel, plan, from, w1);
      SameSettle(w, w', r);
    case Finished(_) =>
      LeadsStep(rel, from, w, NextPackage);
      w' := Apply(rel, w, NextPackage);
      SameSettle(w, w', r);
    case _ =>
      w' := WaitingFinishes(rel, plan, from, w);
  }

  lemma PresentIsSettled(w: World, r: Record)
    requires Completable(w, r) && r.name in w.registry
    ensures Settled(w, r)
  {
    hide Shown;
  }

  lemma SameSettle(w: World, w': World, r: Record)
    requires w'.registry == w.registry && w'.tags == w.tags
    ensures (Settled(w, r) ==> Settled(w', r)) && forall n :: Untouched(w, w', n)
  {
  }

  lemma WaitingFinishes(rel: Release, plan: seq<Record>, from: World, w: World) returns (w': World)
    requires Ready(rel, plan) && Leads(rel, from, w) && w.process.OnPackage? && w.process.index < |plan|
    requires (w.process.stage.Waiting? || w.process.stage.Raced?) && Settled(w, plan[w.process.index])
    ensures Leads(rel, from, w') && w'.process.OnPackage? && w'.process.index == w.process.index + 1 && w'.process.stage == Start
    ensures w'.registry == w.registry && w'.tags == w.tags && forall n :: Untouched(w, w', n)
  {
    hide PlanOf, Leads, ValidExpected, StableVersion, LowerHex, DistinctNames, Exact, RegistryView.Look, Truthful, Settled;
    var r := plan[w.process.index];
    assert r in plan;
    SettledIsSeen(w, r);
    var w1 := LookOnce(rel, from, w, PublishResume.Expected(r));
    LeadsStep(rel, from, w1, NextPackage);
    w' := Apply(rel, w1, NextPackage);
    SameSettle(w, w', r);
  }

  lemma CurrentSprings(rel: Release, plan: seq<Record>, w: World, i: nat)
    requires Ready(rel, plan) && i < |plan| && Trap(w, plan[i]) && RunGets(w, plan, i)
    ensures MovesBack(rel, w, plan[i].name)
  {
    hide PlanOf, Leads, ValidExpected, StableVersion, LowerHex, Completable, DistinctNames, Trap, MovesBack, Finishes, Untouched;
    var k := w.process.index;
    LeadsHere(rel, w);
    var w' := CurrentFinishes(rel, plan, w, w);
    UntouchedTrap(w, w', plan[i]);
    forall j | k + 1 <= j < i ensures Completable(w', plan[j]) { UntouchedCompletable(w, w', plan[j]); }
    RunSprings(rel, plan, w, w', i);
  }

  lemma DangerIsReal(rel: Release, plan: seq<Record>, w: World, i: nat)
    requires Ready(rel, plan) && i < |plan| && Endangered(w, plan, i)
    ensures MovesBack(rel, w, plan[i].name)
  {
    hide PlanOf, Leads, ValidExpected, LowerHex, DistinctNames, Trap, RunGets, IsAt, Completable;
    LeadsHere(rel, w);
    if Committed(w, plan, i) && Newer(Current(w, plan[i].name), plan[i].version) {
      assert plan[i] in plan;
      SpringsTrap(rel, plan, w, i);
    } else if IsAt(w, i) {
      AtSprings(rel, plan, w, w, i);
    } else if RunGets(w, plan, i) {
      CurrentSprings(rel, plan, w, i);
    } else if w.process.OnPackage? && w.process.index < i && Committed(w, plan, w.process.index) {
      CommittedSprings(rel, plan, w, i);
    } else {
      NewRunSprings(rel, plan, w, w, i);
    }
  }

  /**
   Exactly when this tool can move `latest` backwards without another publisher, from any point of any run:
   when some planned package is absent under a newer current tag while an answer may still show an older one,
   and the current run or a new one can get to it; or when a package is about to be published past a newer tag.
   */
  lemma RegressesExactly(rel: Release, w: World, n: string)
    requires ValidExpected(rel.contract, rel.expected) && PlanOf(rel).Ok? && LowerHex(rel.digest, 64)
    ensures MovesBack(rel, w, n) <==>
            exists i :: 0 <= i < |PlanOf(rel).value| && PlanOf(rel).value[i].name == n && Endangered(w, PlanOf(rel).value, i)
  {
    PlanIsReady(rel);
    hide PlanOf, ValidExpected, LowerHex, StableVersion, DistinctNames, MovesBack, Endangered;
    var plan := PlanOf(rel).value;
    if MovesBack(rel, w, n) { MovesBackNeedsDanger(rel, plan, w, n); }
    if i :| 0 <= i < |plan| && plan[i].name == n && Endangered(w, plan, i) { DangerIsReal(rel, plan, w, i); }
  }

  /** The failing input: a first package whose tag has just moved on, with the older value still shown. */
  lemma StaleTagMovesBack(rel: Release, older: string, newer: string)
    requires ValidExpected(rel.contract, rel.expected) && PlanOf(rel).Ok? && LowerHex(rel.digest, 64) && PlanOf(rel).value != []
    requires var v := PlanOf(rel).value[0].version; Passes(Some(older), v) && Newer(Some(newer), v)
    ensures var n := PlanOf(rel).value[0].name;
            var w := World(map[], map[n := [Some(older), Some(newer)]], Stopped, {}, None);
            Reachable(rel, w) && MovesBack(rel, w, n)
  {
    hide PlanOf, ValidExpected, LowerHex, MovesBack, Passes, Newer;
    var plan := PlanOf(rel).value;
    var n := plan[0].name;
    var w := World(map[], map[n := [Some(older), Some(newer)]], Stopped, {}, None);
    assert Initial(w) && Execute(rel, w, []) == Some(w);
    assert Shown(w, n) == [Some(older), Some(newer)];
    assert Some(older) in Shown(w, n) && Current(w, n) == Some(newer);
    assert Endangered(w, plan, 0);
    RegressesExactly(rel, w, n);
  }

  /** Once the registry shows only current tags, no new run moves `latest` backwards until another publisher intervenes. */
  lemma SettledTagsNeverRegress(rel: Release, w: World, n: string)
    requires ValidExpected(rel.contract, rel.expected) && PlanOf(rel).Ok? && LowerHex(rel.digest, 64) && w.process.Stopped?
    requires forall r <- PlanOf(rel).value :: |Shown(w, r.name)| == 1
    ensures !MovesBack(rel, w, n)
  {
    hide PlanOf, ValidExpected, LowerHex, MovesBack, Shown, Trap, NewRunGets;
    RegressesExactly(rel, w, n);
    var plan := PlanOf(rel).value;
    forall i | 0 <= i < |plan| ensures !Endangered(w, plan, i) {
      assert plan[i] in plan;
      OneTagIsNoTrap(w, plan[i]);
    }
  }

  lemma OneTagIsNoTrap(w: World, r: Record)
    requires |Shown(w, r.name)| == 1
    ensures !Trap(w, r)
  {
    hide Shown, RegistryView.AtLeast;
  }
}
