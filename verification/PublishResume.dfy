/**
 Resumption: from any point of any run, exactly when can this tool still finish on its own? The answer is
 in the registry: the bytes it holds at the release version and the `latest` tags it still shows.
 */
module PublishResume {
  import opened Outcomes
  import opened Versions
  import opened ReleaseRecords
  import opened SeqSets
  import opened PublicationPlan
  import opened PublishPackage
  import opened ReleaseEvidence
  import opened PublishRun
  import RegistryView

  ghost predicate AllOwn(steps: seq<Step>) { forall i :: 0 <= i < |steps| ==> Own(steps[i]) }

  /** Steps of this tool and of a registry that catches up lead from one world to another. */
  ghost predicate Leads(rel: Release, w: World, w': World) {
    exists steps :: AllOwn(steps) && Execute(rel, w, steps) == Some(w')
  }

  lemma LeadsHere(rel: Release, w: World)
    ensures Leads(rel, w, w)
  {
    assert AllOwn([]) && Execute(rel, w, []) == Some(w);
  }

  lemma {:induction false} ExecuteConcat(rel: Release, w: World, a: seq<Step>, b: seq<Step>)
    requires Execute(rel, w, a).Some?
    ensures Execute(rel, w, a + b) == Execute(rel, Execute(rel, w, a).value, b)
    decreases |a|
  {
    hide Enabled, Apply;
    if a == [] {
      assert a + b == b;
    } else {
      assert (a + b)[1..] == a[1..] + b;
      ExecuteConcat(rel, Apply(rel, w, a[0]), a[1..], b);
    }
  }

  lemma OneStep(rel: Release, w: World, s: Step)
    requires Enabled(rel, w, s)
    ensures Execute(rel, w, [s]) == Some(Apply(rel, w, s))
  {
    hide Enabled, Apply;
    assert [s][1..] == [];
  }

  lemma LeadsMore(rel: Release, w: World, mid: World, s: Step, next: World)
    requires Leads(rel, w, mid) && Own(s) && Execute(rel, mid, [s]) == Some(next)
    ensures Leads(rel, w, next)
  {
    hide Execute, Own;
    var steps :| AllOwn(steps) && Execute(rel, w, steps) == Some(mid);
    ExecuteConcat(rel, w, steps, [s]);
    assert AllOwn(steps + [s]);
  }

  /** One more step. */
  lemma LeadsStep(rel: Release, w: World, mid: World, s: Step)
    requires Leads(rel, w, mid) && Enabled(rel, mid, s) && Own(s)
    ensures Leads(rel, w, Apply(rel, mid, s))
  {
    hide Enabled, Apply, Execute, Own, Leads;
    OneStep(rel, mid, s);
    LeadsMore(rel, w, mid, s, Apply(rel, mid, s));
  }

  // ---------------------------------------------------------------- the condition

  /** A tag value that lets an absent version be published: none, or a strictly older stable version. */
  predicate Passes(tag: Tag, version: string) { tag.None? || (tag.value != version && RegistryView.AtLeast(version, tag.value)) }

  /**
   A package this tool can settle: present with the expected bytes and a visible tag on the release, or
   absent with a visible tag that is not newer.
   */
  predicate Completable(w: World, r: Record) {
    if r.name in w.registry then w.registry[r.name] == ArtifactOf(r) && Some(r.version) in Shown(w, r.name)
    else exists tag <- Shown(w, r.name) :: Passes(tag, r.version)
  }

  /** The running process has already looked at this absent package and publishes it next. */
  predicate Committed(w: World, plan: seq<Record>, i: nat)
    requires i < |plan|
  {
    w.process.OnPackage? && w.process.index == i && w.process.stage.Publishing? && plan[i].name !in w.registry
  }

  /** Everything that still has to be looked at can be settled. */
  predicate Open(w: World, plan: seq<Record>) {
    if w.process.OnSweep? then forall i :: w.process.index <= i < |plan| ==> Completable(w, plan[i])
    else forall i :: 0 <= i < |plan| ==> Completable(w, plan[i]) || Committed(w, plan, i)
  }

  // ---------------------------------------------------------------- finishing needs it

  lemma SeenWasCompletable(w: World, r: Record, a: Answer)
    requires Truthful(w, r, a) && RegistryView.Look(r, a).Seen?
    ensures Completable(w, r)
  {
    hide Truthful, RegistryView.Look, Shown;
    ExactHolds(w, r, a);
  }

  lemma AbsentWasCompletable(w: World, r: Record, a: Answer)
    requires Truthful(w, r, a) && RegistryView.Look(r, a).Absent? && r.name !in w.registry
    ensures Completable(w, r)
  {
    RegistryView.AbsentExactly(r, a);
    hide RegistryView.Look, Shown, Compare;
  }

  /** The same packages in the same registry, with fewer tag values shown. */
  ghost predicate Fewer(w: World, w': World) {
    w'.registry == w.registry && forall n :: forall tag <- Shown(w', n) :: tag in Shown(w, n)
  }

  lemma FewerCompletable(w: World, w': World, r: Record)
    requires Fewer(w, w') && Completable(w', r)
    ensures Completable(w, r)
  {
    hide Shown, Passes;
  }

  lemma QuietStep(rel: Release, w: World, s: Step)
    requires Enabled(rel, w, s) && Own(s) && !(s.Work? && s.event.Publish?)
    ensures Fewer(w, Apply(rel, w, s))
  {
    hide PlanOf, Advance, CreateFinal, Truthful, RegistryView.Look, Exact, ValidExpected;
    if s.Forget? {
      var w' := Apply(rel, w, s);
      assert Shown(w', s.name) == Shown(w, s.name)[1..];
    }
  }

  /** Only a look that allows it makes an absent package the one published next. */
  lemma CommitWasCompletable(rel: Release, w: World, s: Step, i: nat)
    requires Enabled(rel, w, s) && Own(s) && PlanOf(rel).Ok? && i < |PlanOf(rel).value|
    requires Committed(Apply(rel, w, s), PlanOf(rel).value, i) && !(s.Work? && s.event.Publish?)
    ensures Completable(w, PlanOf(rel).value[i]) || Committed(w, PlanOf(rel).value, i)
  {
    hide PlanOf, CreateFinal, Truthful, RegistryView.Look, Exact, ValidExpected, Completable, Shown;
    if s.Look? { AbsentWasCompletable(w, PlanOf(rel).value[i], s.answer); }
  }

  lemma PublishStep(rel: Release, w: World, s: Step, i: nat)
    requires s.Work? && s.event.Publish? && Enabled(rel, w, s) && DistinctNames(PlanOf(rel).value)
    requires i < |PlanOf(rel).value| && Completable(Apply(rel, w, s), PlanOf(rel).value[i])
    ensures Completable(w, PlanOf(rel).value[i]) || Committed(w, PlanOf(rel).value, i)
  {
    hide PlanOf, Passes, Exact;
    var plan, k := PlanOf(rel).value, w.process.index;
    assert i != k ==> plan[i].name != plan[k].name;
  }

  /** A step of this tool never opens what was closed. */
  lemma OpenBack(rel: Release, w: World, s: Step)
    requires Enabled(rel, w, s) && Own(s) && PlanOf(rel).Ok? && Open(Apply(rel, w, s), PlanOf(rel).value)
    ensures Open(w, PlanOf(rel).value)
  {
    PlanDistinct(rel);
    hide PlanOf, Advance, CreateFinal, Truthful, RegistryView.Look, Exact, ValidExpected, Completable, DistinctNames, Shown;
    var w', plan := Apply(rel, w, s), PlanOf(rel).value;
    if s.Work? && s.event.Publish? {
      PublishOpens(rel, w, s);
    } else {
      QuietStep(rel, w, s);
      forall i | 0 <= i < |plan| && (w.process.OnSweep? ==> w.process.index <= i)
        ensures Completable(w, plan[i]) || Committed(w, plan, i)
      {
        if Completable(w', plan[i]) {
          FewerCompletable(w, w', plan[i]);
        } else if w'.process.OnSweep? && i < w'.process.index {
          SweptWasCompletable(rel, w, s, i);
        } else {
          CommitWasCompletable(rel, w, s, i);
        }
      }
    }
  }

  lemma PublishOpens(rel: Release, w: World, s: Step)
    requires s.Work? && s.event.Publish? && Enabled(rel, w, s) && DistinctNames(PlanOf(rel).value)
    requires Open(Apply(rel, w, s), PlanOf(rel).value)
    ensures Open(w, PlanOf(rel).value)
  {
    hide PlanOf, Completable, DistinctNames, Shown, Exact;
    var w', plan := Apply(rel, w, s), PlanOf(rel).value;
    forall i | 0 <= i < |plan| ensures Completable(w, plan[i]) || Committed(w, plan, i) {
      assert Completable(w', plan[i]);
      PublishStep(rel, w, s, i);
    }
  }

  lemma SweptWasCompletable(rel: Release, w: World, s: Step, i: nat)
    requires Enabled(rel, w, s) && Own(s) && PlanOf(rel).Ok? && i < |PlanOf(rel).value|
    requires Apply(rel, w, s).process.OnSweep? && i < Apply(rel, w, s).process.index && (w.process.OnSweep? ==> w.process.index <= i)
    ensures Completable(w, PlanOf(rel).value[i])
  {
    hide PlanOf, Advance, CreateFinal, Truthful, RegistryView.Look, Exact, ValidExpected, Completable, Shown;
    SeenWasCompletable(w, PlanOf(rel).value[i], s.answer);
  }

  lemma {:induction false} FinishingNeedsOpen(rel: Release, w: World, steps: seq<Step>)
    requires AllOwn(steps) && Execute(rel, w, steps).Some? && w.final.None? && Execute(rel, w, steps).value.final.Some?
    requires PlanOf(rel).Ok?
    ensures Open(w, PlanOf(rel).value)
    decreases |steps|
  {
    hide Enabled, Apply, Open, PlanOf;
    var s := steps[0];
    var next := Apply(rel, w, s);
    assert AllOwn(steps[1..]);
    if next.final.Some? {
      WritingIsOpen(rel, w, s);
    } else {
      FinishingNeedsOpen(rel, next, steps[1..]);
      OpenBack(rel, w, s);
    }
  }

  lemma WritingIsOpen(rel: Release, w: World, s: Step)
    requires Enabled(rel, w, s) && w.final.None? && Apply(rel, w, s).final.Some? && PlanOf(rel).Ok?
    ensures Open(w, PlanOf(rel).value)
  {
    hide PlanOf, Advance, CreateFinal, Truthful, RegistryView.Look, Exact, ValidExpected, Completable, Shown;
    assert s.Finalize?;
  }

  // ---------------------------------------------------------------- and is enough

  /** A package in place: the expected bytes, and a tag on the release that an answer may show. */
  predicate Settled(w: World, r: Record) { Holds(w, r) && Some(r.version) in Shown(w, r.name) }

  predicate SettledAll(w: World, plan: seq<Record>, from: nat, bound: nat) {
    forall i :: from <= i < bound && i < |plan| ==> Settled(w, plan[i])
  }

  predicate CompletableIn(w: World, plan: seq<Record>, low: nat, bound: nat) {
    forall i :: low <= i < bound && i < |plan| ==> Completable(w, plan[i])
  }

  predicate CompletableAll(w: World, plan: seq<Record>) { CompletableIn(w, plan, 0, |plan|) }

  /** A well-formed release and its plan. */
  predicate Ready(rel: Release, plan: seq<Record>) {
    && ValidExpected(rel.contract, rel.expected) && PlanOf(rel) == Ok(plan) && LowerHex(rel.digest, 64)
    && DistinctNames(plan) && forall r <- plan :: StableVersion(r.version)
  }

  lemma PlanIsReady(rel: Release)
    requires ValidExpected(rel.contract, rel.expected) && PlanOf(rel).Ok? && LowerHex(rel.digest, 64)
    ensures Ready(rel, PlanOf(rel).value)
  {
    PlanDistinct(rel);
    hide Plan, StableVersion, ValidRecord, LowerHex, DistinctNames;
    PlanNames(ConfigOf(rel), rel.expected.packages);
    forall r <- PlanOf(rel).value ensures StableVersion(r.version) {
      assert r in rel.expected.packages;
      var i :| 0 <= i < |rel.expected.packages| && rel.expected.packages[i] == r;
    }
  }

  /** The answer that shows a package as expected. */
  function Expected(r: Record): Answer {
    RegistryView.Answer(
      RegistryView.Tagged(r.version, r.expectedSri, ""),
      RegistryView.Target(r.expectedSri, "", Some(RegistryView.Content(r.tarballSha512, r.manifestSha256, r.dependencies))))
  }

  function Found(r: Record): Observation {
    Observation(r.expectedSri, r.tarballSha512, r.manifestSha256, r.dependencies, Some(r.version))
  }

  lemma SettledIsSeen(w: World, r: Record)
    requires Settled(w, r) && StableVersion(r.version)
    ensures Truthful(w, r, Expected(r)) && RegistryView.Look(r, Expected(r)) == Observed.Seen(Found(r)) && Exact(r, Found(r))
  {
    hide Shown;
    RegistryView.SeenExactly(r, Expected(r));
    hide Compare, StableVersion;
  }

  /** The answer that shows only a tag value. */
  function Missing(tag: Tag): Answer {
    RegistryView.Answer(if tag.None? then RegistryView.NoTag else RegistryView.Tagged(tag.value, "", ""), RegistryView.NoTarget)
  }

  lemma PassingIsAbsent(w: World, r: Record, tag: Tag)
    requires tag in Shown(w, r.name) && Passes(tag, r.version)
    ensures Truthful(w, r, Missing(tag)) && RegistryView.Look(r, Missing(tag)) == Absent
  {
    hide Shown, Compare;
  }

  lemma WorkOnce(rel: Release, from: World, w: World, event: Event, landed: bool) returns (w': World)
    requires Leads(rel, from, w) && Enabled(rel, w, Work(event, landed))
    ensures Leads(rel, from, w') && w' == Apply(rel, w, Work(event, landed))
  {
    hide Enabled, Apply, Leads;
    LeadsStep(rel, from, w, Work(event, landed));
    w' := Apply(rel, w, Work(event, landed));
  }

  lemma LookOnce(rel: Release, from: World, w: World, answer: Answer) returns (w': World)
    requires Leads(rel, from, w) && Enabled(rel, w, PublishRun.Look(answer))
    ensures Leads(rel, from, w') && w' == Apply(rel, w, PublishRun.Look(answer))
  {
    hide Enabled, Apply, Leads;
    LeadsStep(rel, from, w, PublishRun.Look(answer));
    w' := Apply(rel, w, PublishRun.Look(answer));
  }

  /** The world with package `i` settled and the run moved past it. */
  function Past(w: World, r: Record): World
    requires w.process.OnPackage?
  {
    var p := w.process;
    Publishes(w, r).(
      process := OnPackage(p.index + 1, Start, p.observed[r.name := Found(r)]),
      ours := if r.name in w.registry then w.ours else w.ours + {r.name})
  }

  /** One package: looked at and skipped when present, looked at, published and looked at when absent. */
  lemma PackageSettles(rel: Release, plan: seq<Record>, from: World, w: World)
    requires Ready(rel, plan) && Leads(rel, from, w) && w.process.OnPackage? && w.process.stage == Start
    requires w.process.index < |plan| && Completable(w, plan[w.process.index])
    ensures Leads(rel, from, Past(w, plan[w.process.index]))
  {
    hide PlanOf, Leads, ValidExpected, Exact, DistinctNames, StableVersion, RegistryView.Look, Truthful, Passes;
    var w1 := WorkOnce(rel, from, w, ReadTarball(true), false);
    LookSettles(rel, plan, from, w1);
  }

  /** The same, once the tarball has been read. */
  lemma LookSettles(rel: Release, plan: seq<Record>, from: World, w: World)
    requires Ready(rel, plan) && Leads(rel, from, w) && w.process.OnPackage? && w.process.stage == Looking
    requires w.process.index < |plan| && Completable(w, plan[w.process.index])
    ensures Leads(rel, from, Past(w, plan[w.process.index]))
  {
    hide PlanOf, Leads, ValidExpected, Exact, DistinctNames, StableVersion, RegistryView.Look, Truthful, Shown, Passes;
    var r := plan[w.process.index];
    if r.name in w.registry {
      SettledIsSeen(w, r);
      var w2 := LookOnce(rel, from, w, Expected(r));
      LeadsStep(rel, from, w2, NextPackage);
    } else {
      var tag :| tag in Shown(w, r.name) && Passes(tag, r.version);
      PassingIsAbsent(w, r, tag);
      var w2 := LookOnce(rel, from, w, Missing(tag));
      SameLook(w, w2, r);
      PublishSettles(rel, plan, from, w2);
      SamePast(w, w2, r);
    }
  }

  lemma SamePast(w: World, w2: World, r: Record)
    requires w.process.OnPackage? && w2.process.OnPackage? && w2 == w.(process := w.process.(stage := w2.process.stage))
    ensures Past(w2, r) == Past(w, r)
  {
  }

  /** The same, once an absent package is about to be published. */
  lemma PublishSettles(rel: Release, plan: seq<Record>, from: World, w: World)
    requires Ready(rel, plan) && Leads(rel, from, w) && w.process.OnPackage? && w.process.stage == Publishing
    requires w.process.index < |plan| && plan[w.process.index].name !in w.registry
    ensures Leads(rel, from, Past(w, plan[w.process.index]))
  {
    hide PlanOf, Leads, ValidExpected, Exact, DistinctNames, StableVersion, RegistryView.Look, Truthful, Shown;
    var r := plan[w.process.index];
    var w3 := WorkOnce(rel, from, w, Event.Publish(true), true);
    var mid := w.(process := w3.process);
    SameLook(w, mid, r);
    PublishedIsSettled(mid, w3, r);
    SettledIsSeen(w3, r);
    var w4 := LookOnce(rel, from, w3, Expected(r));
    LeadsStep(rel, from, w4, NextPackage);
  }

  lemma SameLook(w: World, w': World, r: Record)
    requires w'.tags == w.tags
    ensures Shown(w', r.name) == Shown(w, r.name)
  {
  }

  lemma PublishedIsSettled(w: World, w': World, r: Record)
    requires r.name !in w.registry && w'.registry == Publishes(w, r).registry && w'.tags == Publishes(w, r).tags
    ensures Settled(w', r)
  {
  }

  lemma PastKeeps(w: World, plan: seq<Record>, low: nat, bound: nat)
    requires DistinctNames(plan) && w.process.OnPackage? && low <= w.process.index < bound <= |plan|
    requires CompletableIn(w, plan, low, bound) && SettledAll(w, plan, low, w.process.index)
    ensures var w' := Past(w, plan[w.process.index]);
            CompletableIn(w', plan, low, bound) && SettledAll(w', plan, low, w.process.index + 1)
  {
    var i := w.process.index;
    var w' := Past(w, plan[i]);
    hide Passes, Past, Settled;
    forall j | low <= j < bound ensures Completable(w', plan[j]) && (j <= i ==> Settled(w', plan[j])) {
      assert j != i ==> plan[j].name != plan[i].name;
      OnePast(w, w', plan[i], plan[j]);
    }
  }

  lemma OnePast(w: World, w': World, r: Record, q: Record)
    requires w.process.OnPackage? && w' == Past(w, r) && Completable(w, q) && Completable(w, r) && (q.name == r.name ==> q == r)
    ensures Completable(w', q) && (Settled(w, q) || q == r ==> Settled(w', q))
  {
    hide Passes;
    assert q.name != r.name ==> Shown(w', q.name) == Shown(w, q.name);
  }

  lemma FirstCompletable(w: World, plan: seq<Record>, low: nat, i: nat, bound: nat)
    requires CompletableIn(w, plan, low, bound) && low <= i < bound <= |plan|
    ensures Completable(w, plan[i])
  {
  }

  lemma PastNext(w: World, r: Record)
    requires w.process.OnPackage?
    ensures var p := Past(w, r).process; p.OnPackage? && p.stage == Start && p.index == w.process.index + 1
  {
  }

  /** Neither bytes nor tags of the package changed. */
  predicate Untouched(w: World, w': World, n: string) {
    && (n in w'.registry <==> n in w.registry) && (n in w.registry && n in w'.registry ==> w'.registry[n] == w.registry[n])
    && Shown(w', n) == Shown(w, n)
  }

  lemma PastUntouched(w: World, plan: seq<Record>, i: nat, bound: nat)
    requires w.process.OnPackage? && i < bound <= |plan| && DistinctNames(plan)
    ensures forall j :: bound <= j < |plan| ==> Untouched(w, Past(w, plan[i]), plan[j].name)
  {
    forall j | bound <= j < |plan| ensures Untouched(w, Past(w, plan[i]), plan[j].name) {
      assert plan[i].name != plan[j].name;
    }
  }

  /** The remaining packages before position `bound`; each one settled has its tag on the release. */
  lemma {:induction false} PackagesSettle(rel: Release, plan: seq<Record>, from: World, w: World, low: nat, bound: nat) returns (w': World)
    requires Ready(rel, plan) && Leads(rel, from, w) && bound <= |plan| && CompletableIn(w, plan, low, bound)
    requires w.process.OnPackage? && w.process.stage == Start && low <= w.process.index <= bound
    requires SettledAll(w, plan, low, w.process.index)
    ensures Leads(rel, from, w') && w'.process.OnPackage? && w'.process.index == bound && w'.process.stage == Start
    ensures SettledAll(w', plan, low, bound)
    ensures forall j :: bound <= j < |plan| ==> Untouched(w, w', plan[j].name)
    decreases bound - w.process.index
  {
    hide PlanOf, Leads, CompletableIn, SettledAll, ValidExpected, StableVersion, Past, DistinctNames, Shown;
    if w.process.index == bound {
      w' := w;
    } else {
      var i := w.process.index;
      FirstCompletable(w, plan, low, i, bound);
      PackageSettles(rel, plan, from, w);
      PastKeeps(w, plan, low, bound);
      PastNext(w, plan[i]);
      PastUntouched(w, plan, i, bound);
      w' := PackagesSettle(rel, plan, from, Past(w, plan[i]), low, bound);
    }
  }

  /** One package of the sweep. */
  lemma SweepOne(rel: Release, plan: seq<Record>, from: World, w: World) returns (next: World)
    requires Ready(rel, plan) && Leads(rel, from, w) && w.process.OnSweep? && w.process.index < |plan|
    requires SettledAll(w, plan, w.process.index, |plan|)
    requires PublishRun.Seen(w, plan, w.process.index, w.process.observed)
    ensures Leads(rel, from, next) && next.process.OnSweep? && next.process.index == w.process.index + 1
    ensures SettledAll(next, plan, w.process.index + 1, |plan|)
    ensures PublishRun.Seen(next, plan, w.process.index + 1, next.process.observed)
  {
    hide PlanOf, Leads, ValidExpected, Exact, PublishRun.Seen, DistinctNames, StableVersion, RegistryView.Look, Truthful, Shown;
    var i := w.process.index;
    var r := plan[i];
    assert r in plan && Settled(w, r);
    SettledIsSeen(w, r);
    LeadsStep(rel, from, w, Sweep(Expected(r)));
    next := Apply(rel, w, Sweep(Expected(r)));
    SeenStep(w, plan, i, w.process.observed, Found(r));
    GrownSeen(w, next, plan, i + 1, w.process.observed[r.name := Found(r)]);
    forall j | i < j < |plan| ensures Settled(next, plan[j]) { SameLook(w, next, plan[j]); }
  }

  lemma SeenFits(w: World, plan: seq<Record>, n: nat, observed: map<string, Observation>)
    requires PublishRun.Seen(w, plan, n, observed)
    ensures n <= |plan|
  {
  }

  /** The rest of a sweep over settled packages, and the evidence at its end. */
  lemma {:induction false} SweepFinishes(rel: Release, plan: seq<Record>, from: World, w: World) returns (w': World)
    requires Ready(rel, plan) && Leads(rel, from, w) && w.process.OnSweep?
    requires SettledAll(w, plan, w.process.index, |plan|)
    requires PublishRun.Seen(w, plan, w.process.index, w.process.observed)
    ensures Leads(rel, from, w') && w'.final.Some?
    decreases |plan| - w.process.index
  {
    hide PlanOf, Leads, ValidExpected, StableVersion, DistinctNames, SettledAll, PublishRun.Seen, CreateFinal, LowerHex;
    SeenFits(w, plan, w.process.index, w.process.observed);
    if w.process.index == |plan| {
      SeenWhole(w, plan, w.process.observed);
      SweepFinalizes(rel, w.process.observed);
      CreateFinalExactly(rel.contract, rel.expected, rel.digest, w.process.observed);
      LeadsStep(rel, from, w, Finalize);
      w' := Apply(rel, w, Finalize);
    } else {
      var next := SweepOne(rel, plan, from, w);
      SeenFits(next, plan, next.process.index, next.process.observed);
      w' := SweepFinishes(rel, plan, from, next);
    }
  }

  /** A new run over completable packages finishes. */
  lemma NewRunFinishes(rel: Release, plan: seq<Record>, from: World, w: World) returns (w': World)
    requires Ready(rel, plan) && Leads(rel, from, w) && CompletableAll(w, plan)
    ensures Leads(rel, from, w') && w'.final.Some?
  {
    hide PlanOf, Leads, ValidExpected, StableVersion, DistinctNames, Completable, Settled, LowerHex;
    LeadsStep(rel, from, w, Stop);
    var stopped := Apply(rel, w, Stop);
    LeadsStep(rel, from, stopped, Begin);
    var begun := Apply(rel, stopped, Begin);
    SameCompletable(w, begun, plan);
    var done := PackagesSettle(rel, plan, from, begun, 0, |plan|);
    LeadsStep(rel, from, done, NextPackage);
    var sweeping := Apply(rel, done, NextPackage);
    SameSettled(done, sweeping, plan, 0);
    NothingSeen(sweeping, plan);
    w' := SweepFinishes(rel, plan, from, sweeping);
  }

  lemma SameCompletable(w: World, w': World, plan: seq<Record>)
    requires w'.registry == w.registry && w'.tags == w.tags && CompletableAll(w, plan)
    ensures CompletableAll(w', plan)
  {
    hide Passes;
    forall i | 0 <= i < |plan| ensures Completable(w', plan[i]) { SameLook(w, w', plan[i]); }
  }

  lemma SameSettled(w: World, w': World, plan: seq<Record>, from: nat)
    requires w'.registry == w.registry && w'.tags == w.tags && SettledAll(w, plan, from, |plan|)
    ensures SettledAll(w', plan, from, |plan|)
  {
    forall i | from <= i < |plan| ensures Settled(w', plan[i]) { SameLook(w, w', plan[i]); }
  }

  lemma NothingSeen(w: World, plan: seq<Record>)
    ensures PublishRun.Seen(w, plan, 0, map[])
  {
  }

  /** The package in hand is published first; then everything is completable. */
  lemma CommitLands(rel: Release, plan: seq<Record>, w: World) returns (next: World)
    requires Ready(rel, plan) && w.process.OnPackage? && w.process.index < |plan|
    requires Committed(w, plan, w.process.index) && Open(w, plan)
    ensures Leads(rel, w, next) && CompletableAll(next, plan)
  {
    hide PlanOf, ValidExpected, StableVersion, Leads, Passes;
    var i := w.process.index;
    LeadsHere(rel, w);
    next := WorkOnce(rel, w, w, Event.Publish(true), true);
    forall j | 0 <= j < |plan| ensures Completable(next, plan[j]) {
      assert j != i ==> plan[j].name != plan[i].name;
      assert j != i ==> Shown(next, plan[j].name) == Shown(w, plan[j].name);
    }
  }

  lemma OpenFinishes(rel: Release, plan: seq<Record>, w: World)
    requires Ready(rel, plan) && Reachable(rel, w) && Open(w, plan)
    ensures exists w' :: Leads(rel, w, w') && w'.final.Some?
  {
    ReachableInv(rel, w);
    hide PlanOf, Leads, ValidExpected, StableVersion, DistinctNames, Completable, OursOk, FinalOk, Reachable, Ready, PublishRun.Seen;
    LeadsHere(rel, w);
    if w.process.OnSweep? {
      OpenSweepSettled(rel, plan, w);
      var w' := SweepFinishes(rel, plan, w, w);
    } else if w.process.OnPackage? && w.process.index < |plan| && Committed(w, plan, w.process.index) {
      var next := CommitLands(rel, plan, w);
      var w' := NewRunFinishes(rel, plan, w, next);
    } else {
      var w' := NewRunFinishes(rel, plan, w, w);
    }
  }

  lemma OpenSweepSettled(rel: Release, plan: seq<Record>, w: World)
    requires PlanOf(rel) == Ok(plan) && ProcessOk(rel, w) && w.process.OnSweep? && Open(w, plan)
    ensures SettledAll(w, plan, w.process.index, |plan|)
  {
    hide PlanOf, Passes, Shown, PublishRun.Seen, ValidExpected;
  }

  /**
   Resumable exactly. In every reachable state of a well-formed release without final evidence, this tool
   can still produce it without help from another publisher if and only if every package it has yet to look
   at is either present with the expected bytes and shown under the tag, or absent with a shown tag that is
   not newer, or the absent one already being published.
   */
  lemma ResumableExactly(rel: Release, w: World)
    requires ValidExpected(rel.contract, rel.expected) && PlanOf(rel).Ok? && LowerHex(rel.digest, 64)
    requires Reachable(rel, w) && w.final.None?
    ensures (exists w' :: Leads(rel, w, w') && w'.final.Some?) <==> Open(w, PlanOf(rel).value)
  {
    PlanIsReady(rel);
    hide PlanOf, Open, Ready, Reachable, ValidExpected, LowerHex, Execute;
    if Open(w, PlanOf(rel).value) { OpenFinishes(rel, PlanOf(rel).value, w); }
    if w' :| Leads(rel, w, w') && w'.final.Some? {
      var steps :| AllOwn(steps) && Execute(rel, w, steps) == Some(w');
      FinishingNeedsOpen(rel, w, steps);
    }
  }

  /**
   A newer tag stops every run: when all tag values shown for a planned package are newer than the release,
   no new run ever finishes, though every byte in the registry may be as expected.
   */
  lemma NewerTagStopsEveryRun(rel: Release, w: World, i: nat)
    requires ValidExpected(rel.contract, rel.expected) && PlanOf(rel).Ok? && LowerHex(rel.digest, 64)
    requires Reachable(rel, w) && w.final.None? && w.process.Stopped? && i < |PlanOf(rel).value|
    requires forall tag <- Shown(w, PlanOf(rel).value[i].name) :: tag.Some? && !RegistryView.AtLeast(PlanOf(rel).value[i].version, tag.value)
    ensures !exists w' :: Leads(rel, w, w') && w'.final.Some?
  {
    PlanIsReady(rel);
    hide PlanOf, Reachable, ValidExpected, LowerHex, Leads, Completable, StableVersion, DistinctNames, Shown, RegistryView.AtLeast;
    ResumableExactly(rel, w);
    var plan := PlanOf(rel).value;
    assert plan[i] in plan;
    NewerNotCompletable(w, plan[i]);
  }

  /** All packages in the registry as expected, and every tag already on another version. */
  function Overtaken(plan: seq<Record>, newer: string): World {
    World(HeldBy(plan), TagsOn(plan, newer), Stopped, {}, None)
  }

  function HeldBy(plan: seq<Record>): (m: map<string, Artifact>)
    ensures DistinctNames(plan) ==> forall r <- plan :: r.name in m && m[r.name] == ArtifactOf(r)
  {
    if plan == [] then map[]
    else
      var init, last := plan[..|plan| - 1], plan[|plan| - 1];
      assert plan == init + [last];
      HeldBy(init)[last.name := ArtifactOf(last)]
  }

  function TagsOn(plan: seq<Record>, newer: string): (m: map<string, seq<Tag>>)
    ensures forall r <- plan :: r.name in m && m[r.name] == [Some(newer)]
  {
    if plan == [] then map[]
    else
      var init, last := plan[..|plan| - 1], plan[|plan| - 1];
      assert plan == init + [last];
      TagsOn(init, newer)[last.name := [Some(newer)]]
  }

  /** Expected bytes are not enough: with the tags on a newer version the registry holds everything and no run finishes. */
  lemma BytesAreNotEnough(rel: Release, newer: string)
    requires ValidExpected(rel.contract, rel.expected) && PlanOf(rel).Ok? && LowerHex(rel.digest, 64)
    requires PlanOf(rel).value != [] && !RegistryView.AtLeast(PlanOf(rel).value[0].version, newer)
    ensures var w := Overtaken(PlanOf(rel).value, newer);
            Reachable(rel, w) && HoldsAll(w, PlanOf(rel).value) && !exists w' :: Leads(rel, w, w') && w'.final.Some?
  {
    PlanIsReady(rel);
    hide PlanOf, ValidExpected, LowerHex, Leads, StableVersion, Reachable, RegistryView.AtLeast, DistinctNames;
    var plan := PlanOf(rel).value;
    OvertakenFacts(rel, plan, newer);
    hide Overtaken, HoldsAll;
    NewerTagStopsEveryRun(rel, Overtaken(plan, newer), 0);
  }

  lemma OvertakenFacts(rel: Release, plan: seq<Record>, newer: string)
    requires DistinctNames(plan) && plan != []
    ensures var w := Overtaken(plan, newer);
            Reachable(rel, w) && HoldsAll(w, plan) && w.process.Stopped? && w.final.None? && Shown(w, plan[0].name) == [Some(newer)]
  {
    var w := Overtaken(plan, newer);
    hide HeldBy, TagsOn, Enabled, Apply;
    assert Initial(w) && Execute(rel, w, []) == Some(w);
    assert plan[0] in plan;
  }

  lemma NewerNotCompletable(w: World, r: Record)
    requires StableVersion(r.version)
    requires forall tag <- Shown(w, r.name) :: tag.Some? && !RegistryView.AtLeast(r.version, tag.value)
    ensures !Completable(w, r)
  {
    RegistryView.CompareNeedsStable(r.version, r.version);
    CompareIsTotalOrder(r.version, r.version, r.version);
    hide Compare, StableVersion, Shown;
  }
}
