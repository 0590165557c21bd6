/**
 Whole publication runs: the packages of the plan in order, then a sweep that reads every package
 again, then final evidence. Runs may stop anywhere and be started again; the registry keeps
 versions immutable, shows them late, and may receive versions from elsewhere at any time.
 */
module PublishRun {
  import opened Outcomes
  import opened Versions
  import opened ReleaseRecords
  import opened SeqSets
  import opened PublicationPlan
  import opened PublishPackage
  import opened ReleaseEvidence
  import RegistryView

  type Answer = RegistryView.Answer

  /** The immutable content of a published version. */
  datatype Artifact = Artifact(sri: string, tarballSha512: string, manifestSha256: string, dependencies: map<string, string>)

  function ArtifactOf(r: Record): Artifact { Artifact(r.expectedSri, r.tarballSha512, r.manifestSha256, r.dependencies) }

  /** What a release runs with: contract, publish configuration, expected evidence, its digest, retry setting. */
  datatype Release = Release(contract: Contract, packages: seq<string>, expected: Expected, digest: string, retries: int)

  function ConfigOf(rel: Release): Config { Config(rel.contract.definitions, rel.packages) }

  function PlanOf(rel: Release): Result<seq<Record>, PlanError> { Plan(ConfigOf(rel), rel.expected.packages) }

  datatype Process =
    | Stopped
    | OnPackage(index: nat, stage: Stage, observed: map<string, Observation>)
    | OnSweep(index: nat, observed: map<string, Observation>)

  /** A value of a package's `latest` tag; `None` when it has no tag. */
  type Tag = Option<string>

  /**
   `registry` holds the bytes of each package at the release version. `tags` holds, oldest first, the
   values of `latest` that an answer may still show; the last one is current. `ours` are the packages
   this tool ran `npm publish` for; `final` is the evidence file.
   */
  datatype World = World(
    registry: map<string, Artifact>, tags: map<string, seq<Tag>>, process: Process, ours: set<string>, final: Option<Final>)

  datatype Step =
    | Begin
    | Work(event: Event, landed: bool)   // tarball read, publish or sleep; landed: a publish took effect
    | Look(answer: Answer)               // one registry observation of the current package
    | NextPackage
    | Sweep(answer: Answer)
    | Finalize
    | Stop                               // crash, error exit or cancellation, at any point
    | Forget(name: string)               // the oldest tag value stops being shown
    | Elsewhere(name: string, artifact: Artifact)   // another publisher lands the same version
    | Retag(name: string, tag: Tag)      // another publisher moves the tag, as by releasing another version

  /** Steps of this tool and of the registry catching up; the others belong to other publishers. */
  predicate Own(s: Step) { !s.Elsewhere? && !s.Retag? }

  function Shown(w: World, name: string): (r: seq<Tag>)
    ensures r != []
  {
    if name in w.tags && w.tags[name] != [] then w.tags[name] else [None]
  }

  function Current(w: World, name: string): Tag { Shown(w, name)[|Shown(w, name)| - 1] }

  /**
   A registry answer may be late or an error, but it shows only a current or older tag, and a version it
   shows is the version it holds.
   */
  predicate Truthful(w: World, r: Record, a: Answer) {
    && (a.latest.NoTag? ==> None in Shown(w, r.name))
    && (a.latest.Tagged? ==> Some(a.latest.version) in Shown(w, r.name))
    && (a.latest.Tagged? && a.latest.version == r.version ==>
          && r.name in w.registry && a.latest.sri == w.registry[r.name].sri
          && (a.target.Target? ==> a.latest.url == a.target.url))
    && (a.target.Target? ==> r.name in w.registry && a.target.sri == w.registry[r.name].sri)
    && (a.target.Target? && a.target.content.Some? ==>
          var c, b := a.target.content.value, w.registry[r.name];
          c == RegistryView.Content(b.tarballSha512, b.manifestSha256, b.dependencies))
  }

  function Land(registry: map<string, Artifact>, name: string, a: Artifact): map<string, Artifact> {
    if name in registry then registry else registry[name := a]
  }

  /** The current package of a run. */
  function PackageAt(rel: Release, i: nat): Record
    requires PlanOf(rel).Ok? && i < |PlanOf(rel).value|
  {
    PlanOf(rel).value[i]
  }

  predicate Enabled(rel: Release, w: World, s: Step) {
    match s
    case Begin => w.process.Stopped? && ValidExpected(rel.contract, rel.expected) && PlanOf(rel).Ok?
    case Work(event, _) =>
      && !event.Observe? && w.process.OnPackage? && PlanOf(rel).Ok? && w.process.index < |PlanOf(rel).value|
      && Advance(PackageAt(rel, w.process.index), rel.retries, w.process.stage, event).Some?
    case Look(answer) =>
      && w.process.OnPackage? && PlanOf(rel).Ok? && w.process.index < |PlanOf(rel).value|
      && Truthful(w, PackageAt(rel, w.process.index), answer)
      && var r := PackageAt(rel, w.process.index);
         Advance(r, rel.retries, w.process.stage, Observe(RegistryView.Look(r, answer))).Some?
    case NextPackage =>
      && w.process.OnPackage? && PlanOf(rel).Ok?
      && (w.process.index < |PlanOf(rel).value| ==> w.process.stage.Finished?)
    case Sweep(answer) =>
      && w.process.OnSweep? && PlanOf(rel).Ok? && w.process.index < |PlanOf(rel).value|
      && Truthful(w, PackageAt(rel, w.process.index), answer)
    case Finalize => w.process.OnSweep? && PlanOf(rel).Ok? && w.process.index == |PlanOf(rel).value|
    case Stop => true
    case Forget(name) => |Shown(w, name)| > 1
    case Elsewhere(_, _) => true
    case Retag(_, _) => true
  }

  /** A publish that took effect adds the version and moves the tag to it. */
  function Publishes(w: World, r: Record): World {
    if r.name in w.registry then w
    else w.(registry := w.registry[r.name := ArtifactOf(r)], tags := w.tags[r.name := Shown(w, r.name) + [Some(r.version)]])
  }

  function Apply(rel: Release, w: World, s: Step): World
    requires Enabled(rel, w, s)
  {
    match s
    case Begin => w.(process := OnPackage(0, Start, map[]))
    case Work(event, landed) =>
      var r := PackageAt(rel, w.process.index);
      var w' := w.(process := w.process.(stage := Advance(r, rel.retries, w.process.stage, event).value));
      if !event.Publish? then w' else (if landed then Publishes(w', r) else w').(ours := w.ours + {r.name})
    case Look(answer) =>
      var r := PackageAt(rel, w.process.index);
      w.(process := w.process.(stage := Advance(r, rel.retries, w.process.stage, Observe(RegistryView.Look(r, answer))).value))
    case NextPackage =>
      if w.process.index < |PlanOf(rel).value| then
        var r := PackageAt(rel, w.process.index);
        w.(process := OnPackage(w.process.index + 1, Start, w.process.observed[r.name := w.process.stage.o]))
      else w.(process := OnSweep(0, map[]))
    case Sweep(answer) =>
      var r := PackageAt(rel, w.process.index);
      var result := RegistryView.Look(r, answer);
      if result.Seen? && Exact(r, result.o) then
        w.(process := OnSweep(w.process.index + 1, w.process.observed[r.name := result.o]))
      else w.(process := Stopped)
    case Finalize =>
      var f := CreateFinal(rel.contract, rel.expected, rel.digest, w.process.observed);
      w.(process := Stopped, final := if f.Ok? then Some(f.value) else w.final)
    case Stop => w.(process := Stopped)
    case Forget(name) => w.(tags := w.tags[name := Shown(w, name)[1..]])
    case Elsewhere(name, artifact) => w.(registry := Land(w.registry, name, artifact))
    case Retag(name, tag) => w.(tags := w.tags[name := Shown(w, name) + [tag]])
  }

  function Execute(rel: Release, w: World, steps: seq<Step>): Option<World>
    decreases |steps|
  {
    if steps == [] then Some(w)
    else if !Enabled(rel, w, steps[0]) then None
    else Execute(rel, Apply(rel, w, steps[0]), steps[1..])
  }

  /** Any registry, before this tool has run. */
  predicate Initial(w: World) { w.process.Stopped? && w.ours == {} && w.final.None? }

  // ---------------------------------------------------------------- the invariant

  /** The registry holds exactly the expected bytes of `r`. */
  predicate Holds(w: World, r: Record) { r.name in w.registry && w.registry[r.name] == ArtifactOf(r) }

  predicate HoldsAll(w: World, records: seq<Record>) { forall i :: 0 <= i < |records| ==> Holds(w, records[i]) }

  /** Exactly the first `n` planned packages were observed in this run, each exact and in the registry. */
  ghost predicate Seen(w: World, plan: seq<Record>, n: nat, observed: map<string, Observation>) {
    && n <= |plan| && observed.Keys == NameSet(plan[..n])
    && forall i :: 0 <= i < n ==> plan[i].name in observed && Exact(plan[i], observed[plan[i].name]) && Holds(w, plan[i])
  }

  ghost predicate ProcessOk(rel: Release, w: World) {
    match w.process
    case Stopped => true
    case OnPackage(i, stage, observed) =>
      && ValidExpected(rel.contract, rel.expected) && PlanOf(rel).Ok? && i <= |PlanOf(rel).value|
      && Seen(w, PlanOf(rel).value, i, observed)
      && (stage.Finished? ==> i < |PlanOf(rel).value| && Exact(PlanOf(rel).value[i], stage.o) && Holds(w, PlanOf(rel).value[i]))
    case OnSweep(i, observed) =>
      && ValidExpected(rel.contract, rel.expected) && PlanOf(rel).Ok? && i <= |PlanOf(rel).value|
      && Seen(w, PlanOf(rel).value, i, observed) && HoldsAll(w, PlanOf(rel).value)
  }

  /** Everything planned before a package this tool published is in the registry as expected. */
  ghost predicate OursOk(rel: Release, w: World) {
    forall n <- w.ours :: PlanOf(rel).Ok? && exists i :: PublishedAt(w, PlanOf(rel).value, n, i)
  }

  ghost predicate PublishedAt(w: World, plan: seq<Record>, n: string, i: nat) {
    i < |plan| && plan[i].name == n && HoldsAll(w, plan[..i])
  }

  ghost predicate FinalOk(rel: Release, w: World) {
    w.final.Some? ==>
      && PlanOf(rel).Ok? && HoldsAll(w, PlanOf(rel).value)
      && w.final.value == FinalOf(rel.expected, rel.digest)
      && Accepted(rel.contract, rel.expected, w.final.value, Some(rel.digest))
  }

  ghost predicate Inv(rel: Release, w: World) { ProcessOk(rel, w) && OursOk(rel, w) && FinalOk(rel, w) }

  // ---------------------------------------------------------------- every step keeps it

  /** Versions in the registry never change and never disappear. */
  lemma StepImmutable(rel: Release, w: World, s: Step)
    requires Enabled(rel, w, s)
    ensures forall n <- w.registry :: n in Apply(rel, w, s).registry && Apply(rel, w, s).registry[n] == w.registry[n]
  {
    hide PlanOf, Advance, CreateFinal, Truthful, RegistryView.Look, Shown;
  }

  ghost predicate Grown(w: World, w': World) {
    forall n <- w.registry :: n in w'.registry && w'.registry[n] == w.registry[n]
  }

  lemma GrownHolds(w: World, w': World, records: seq<Record>)
    requires Grown(w, w') && HoldsAll(w, records)
    ensures HoldsAll(w', records)
  {
  }

  lemma GrownSeen(w: World, w': World, plan: seq<Record>, n: nat, observed: map<string, Observation>)
    requires Grown(w, w') && Seen(w, plan, n, observed)
    ensures Seen(w', plan, n, observed)
  {
  }

  /** What a truthful answer shows, the registry holds: an exact look means the expected bytes are there. */
  lemma ExactHolds(w: World, r: Record, a: Answer)
    requires Truthful(w, r, a) && RegistryView.Look(r, a).Seen?
    ensures Holds(w, r) && Some(r.version) in Shown(w, r.name) && Exact(r, RegistryView.Look(r, a).o)
  {
    RegistryView.SeenExactly(r, a);
    hide Shown, Exact, RegistryView.Look, StableVersion;
  }

  lemma SeenStep(w: World, plan: seq<Record>, n: nat, observed: map<string, Observation>, o: Observation)
    requires Seen(w, plan, n, observed) && n < |plan| && DistinctNames(plan) && Exact(plan[n], o) && Holds(w, plan[n])
    ensures Seen(w, plan, n + 1, observed[plan[n].name := o])
  {
    hide Exact;
    assert plan[..n + 1] == plan[..n] + [plan[n]];
    assert NameSet(plan[..n + 1]) == NameSet(plan[..n]) + {plan[n].name};
  }

  lemma PlanDistinct(rel: Release)
    requires PlanOf(rel).Ok?
    ensures DistinctNames(PlanOf(rel).value)
  {
    var plan := PlanOf(rel).value;
    forall i, j | 0 <= i < j < |plan| ensures plan[i].name != plan[j].name {
      DependenciesComeFirst(ConfigOf(rel), rel.expected.packages, j);
      assert plan[i] == plan[..j][i];
    }
  }

  lemma WorkStage(rel: Release, w: World, event: Event, r: Record)
    requires w.process.OnPackage? && Advance(r, rel.retries, w.process.stage, event).Some? && !event.Observe?
    ensures !Advance(r, rel.retries, w.process.stage, event).value.Finished?
  {
    hide Exact;
  }

  lemma LookStage(rel: Release, w: World, a: Answer, r: Record)
    requires w.process.OnPackage? && Truthful(w, r, a)
    requires Advance(r, rel.retries, w.process.stage, Observe(RegistryView.Look(r, a))).Some?
    ensures var next := Advance(r, rel.retries, w.process.stage, Observe(RegistryView.Look(r, a))).value;
            next.Finished? ==> Exact(r, next.o) && Holds(w, r)
  {
    hide Exact, RegistryView.Look, Truthful, Holds;
    var next := Advance(r, rel.retries, w.process.stage, Observe(RegistryView.Look(r, a))).value;
    if next.Finished? { ExactHolds(w, r, a); }
  }

  lemma StepProcess(rel: Release, w: World, s: Step)
    requires Inv(rel, w) && Enabled(rel, w, s)
    ensures ProcessOk(rel, Apply(rel, w, s))
  {
    hide PlanOf, Advance, CreateFinal, Exact, ValidExpected, ProcessOk, FinalOk, OursOk, Seen, RegistryView.Look, Truthful, Shown;
    StepImmutable(rel, w, s);
    var w' := Apply(rel, w, s);
    match s
    case Begin => BeginStage(rel, w);
    case Work(event, _) =>
      WorkStage(rel, w, event, PackageAt(rel, w.process.index));
      StageMoves(rel, w, w', w'.process.stage);
    case Look(answer) =>
      LookStage(rel, w, answer, PackageAt(rel, w.process.index));
      StageMoves(rel, w, w', w'.process.stage);
    case NextPackage => NextStage(rel, w);
    case Sweep(answer) => PlanDistinct(rel); SweepStage(rel, w, answer);
    case Finalize => NothingRuns(rel, w');
    case Stop => NothingRuns(rel, w');
    case Forget(_) => ProcessStays(rel, w, w');
    case Elsewhere(_, _) => ProcessStays(rel, w, w');
    case Retag(_, _) => ProcessStays(rel, w, w');
  }

  lemma NothingRuns(rel: Release, w: World)
    requires w.process.Stopped?
    ensures ProcessOk(rel, w)
  {
  }

  lemma BeginStage(rel: Release, w: World)
    requires Enabled(rel, w, Begin)
    ensures ProcessOk(rel, Apply(rel, w, Begin))
  {
    hide PlanOf, ValidExpected, Exact;
  }

  lemma ProcessStays(rel: Release, w: World, w': World)
    requires ProcessOk(rel, w) && Grown(w, w') && w'.process == w.process
    ensures ProcessOk(rel, w')
  {
    hide PlanOf, Exact, ValidExpected, Seen;
    if !w.process.Stopped? {
      GrownSeen(w, w', PlanOf(rel).value, w.process.index, w.process.observed);
      if w.process.OnSweep? { GrownHolds(w, w', PlanOf(rel).value); }
    }
  }

  /** A stage may change to any stage that does not claim more than the registry holds. */
  lemma StageMoves(rel: Release, w: World, w': World, stage: Stage)
    requires ProcessOk(rel, w) && Grown(w, w') && w.process.OnPackage? && w'.process == w.process.(stage := stage)
    requires w.process.index < |PlanOf(rel).value|
    requires stage.Finished? ==> Exact(PlanOf(rel).value[w.process.index], stage.o) && Holds(w, PlanOf(rel).value[w.process.index])
    ensures ProcessOk(rel, w')
  {
    hide PlanOf, Exact, ValidExpected, Seen;
    GrownSeen(w, w', PlanOf(rel).value, w.process.index, w.process.observed);
  }

  lemma NextStage(rel: Release, w: World)
    requires ProcessOk(rel, w) && Enabled(rel, w, NextPackage)
    ensures ProcessOk(rel, Apply(rel, w, NextPackage))
  {
    hide PlanOf, Exact, ValidExpected, NameSet;
    var plan, i := PlanOf(rel).value, w.process.index;
    PlanDistinct(rel);
    if i < |plan| {
      SeenStep(w, plan, i, w.process.observed, w.process.stage.o);
      GrownSeen(w, Apply(rel, w, NextPackage), plan, i + 1, w.process.observed[plan[i].name := w.process.stage.o]);
    } else {
      assert plan[..0] == [];
      assert NameSet([]) == {} by { NoNames(); }
    }
  }

  lemma NoNames()
    ensures NameSet([]) == {}
  {
  }

  lemma SweepStage(rel: Release, w: World, a: Answer)
    requires Inv(rel, w) && Enabled(rel, w, Sweep(a)) && DistinctNames(PlanOf(rel).value)
    ensures ProcessOk(rel, Apply(rel, w, Sweep(a)))
  {
    hide PlanOf, Exact, ValidExpected, FinalOk, OursOk, RegistryView.Look, Truthful, DistinctNames;
    var plan, i := PlanOf(rel).value, w.process.index;
    var result := RegistryView.Look(plan[i], a);
    if result.Seen? {
      ExactHolds(w, plan[i], a);
      SeenStep(w, plan, i, w.process.observed, result.o);
      GrownSeen(w, Apply(rel, w, Sweep(a)), plan, i + 1, w.process.observed[plan[i].name := result.o]);
      GrownHolds(w, Apply(rel, w, Sweep(a)), plan);
    }
  }

  lemma StepOurs(rel: Release, w: World, s: Step)
    requires Inv(rel, w) && Enabled(rel, w, s)
    ensures OursOk(rel, Apply(rel, w, s))
  {
    hide PlanOf, Advance, CreateFinal, Exact, ValidExpected, FinalOk, RegistryView.Look, Truthful, Shown;
    StepImmutable(rel, w, s);
    var w' := Apply(rel, w, s);
    forall n <- w'.ours ensures PlanOf(rel).Ok? && exists i :: PublishedAt(w', PlanOf(rel).value, n, i) {
      var plan := PlanOf(rel).value;
      if n in w.ours {
        var i :| PublishedAt(w, plan, n, i);
        assert PublishedAt(w', plan, n, i);
      } else {
        assert PublishedAt(w', plan, n, w.process.index);
      }
    }
  }

  /** A completed sweep makes final evidence, and it is the echo of the expected evidence. */
  lemma SweepFinalizes(rel: Release, observed: map<string, Observation>)
    requires PlanOf(rel).Ok? && ValidExpected(rel.contract, rel.expected)
    requires observed.Keys == NameSet(PlanOf(rel).value)
    requires forall r <- PlanOf(rel).value :: r.name in observed && Exact(r, observed[r.name])
    ensures AllExact(rel.expected.packages, observed) && observed.Keys <= NamesOf(rel.contract.definitions)
  {
    hide Exact, Plan, ValidRecord;
    var plan, records := PlanOf(rel).value, rel.expected.packages;
    PlanNames(ConfigOf(rel), records);
    PlanRecords(ConfigOf(rel), records);
    forall i | 0 <= i < |records|
      ensures records[i].name in observed && Classify(records[i], Some(observed[records[i].name])) == Skip
    {
      assert records[i] in plan;
      ExactSkips(records[i], observed[records[i].name]);
    }
    forall n <- observed ensures n in NamesOf(rel.contract.definitions) {
      assert n in NameSet(records);
      var i :| 0 <= i < |records| && records[i].name == n;
      assert rel.contract.definitions[i] in rel.contract.definitions;
    }
  }

  lemma SeenWhole(w: World, plan: seq<Record>, observed: map<string, Observation>)
    requires Seen(w, plan, |plan|, observed)
    ensures observed.Keys == NameSet(plan) && forall r <- plan :: r.name in observed && Exact(r, observed[r.name])
  {
    hide Exact;
    assert plan[..|plan|] == plan;
  }

  lemma ExactSkips(r: Record, o: Observation)
    requires Exact(r, o)
    ensures Classify(r, Some(o)) == Skip
  {
  }

  lemma StepFinal(rel: Release, w: World, s: Step)
    requires Inv(rel, w) && Enabled(rel, w, s)
    ensures FinalOk(rel, Apply(rel, w, s))
  {
    hide PlanOf, Advance, CreateFinal, Exact, ValidExpected, Accepted, OursOk, RegistryView.Look, Truthful, Shown;
    StepImmutable(rel, w, s);
    var w' := Apply(rel, w, s);
    if w'.final != w.final {
      CreateFinalExactly(rel.contract, rel.expected, rel.digest, w.process.observed);
      CreatedIsAccepted(rel.contract, rel.expected, rel.digest, w.process.observed);
    }
  }

  lemma {:induction false} ExecuteKeeps(rel: Release, w: World, steps: seq<Step>)
    requires Inv(rel, w) && Execute(rel, w, steps).Some?
    ensures Inv(rel, Execute(rel, w, steps).value) && Grown(w, Execute(rel, w, steps).value)
    decreases |steps|
  {
    hide Enabled, Apply, ProcessOk, OursOk, FinalOk;
    if steps != [] {
      StepImmutable(rel, w, steps[0]);
      StepProcess(rel, w, steps[0]);
      StepOurs(rel, w, steps[0]);
      StepFinal(rel, w, steps[0]);
      ExecuteKeeps(rel, Apply(rel, w, steps[0]), steps[1..]);
    }
  }

  // ---------------------------------------------------------------- main results

  /** Reached from any registry by any steps: stops, restarts and other publishers included. */
  ghost predicate Reachable(rel: Release, w: World) {
    exists w0, steps :: Initial(w0) && Execute(rel, w0, steps) == Some(w)
  }

  lemma ReachableInv(rel: Release, w: World)
    requires Reachable(rel, w)
    ensures Inv(rel, w)
  {
    var w0, steps :| Initial(w0) && Execute(rel, w0, steps) == Some(w);
    ExecuteKeeps(rel, w0, steps);
  }

  /** In this run, `n` was observed as exactly its expected evidence, and the registry holds it. */
  ghost predicate ObservedExactly(rel: Release, w: World, n: string)
    requires PlanOf(rel).Ok? && w.process.OnPackage?
  {
    exists r :: r in PlanOf(rel).value && r.name == n && n in w.process.observed
                && Exact(r, w.process.observed[n]) && Holds(w, r)
  }

  /**
   Whenever any run reaches `npm publish` for a package, each of its internal dependencies was
   already observed in that same run as exactly the expected evidence, and the registry holds it.
   */
  lemma PublishAfterDependencies(rel: Release, w: World, event: Event, landed: bool)
    requires Reachable(rel, w) && Enabled(rel, w, Work(event, landed)) && event.Publish?
    ensures forall n <- PlanOf(rel).value[w.process.index].dependencies :: ObservedExactly(rel, w, n)
  {
    hide Advance, Exact, ValidExpected, OursOk, FinalOk, Plan, Reachable;
    ReachableInv(rel, w);
    var plan, i := PlanOf(rel).value, w.process.index;
    DependenciesComeFirst(ConfigOf(rel), rel.expected.packages, i);
    forall n <- plan[i].dependencies ensures ObservedExactly(rel, w, n) {
      assert n in NameSet(plan[..i]);
      var j :| 0 <= j < i && plan[..i][j].name == n;
      assert plan[j] in plan;
    }
  }

  /**
   At every point, every package this tool ever published has all its dependencies in the registry
   as expected, and so has every package planned before it.
   */
  lemma PublishedAreClosed(rel: Release, w: World, n: string)
    requires Reachable(rel, w) && n in w.ours
    ensures PlanOf(rel).Ok? && exists i :: ClosedAt(w, PlanOf(rel).value, n, i)
  {
    hide Plan, PlanOf, ProcessOk, FinalOk, Reachable, ClosedAt, PublishedAt;
    ReachableInv(rel, w);
    var i :| PublishedAt(w, PlanOf(rel).value, n, i);
    PublishedIsClosed(rel, w, n, i);
  }

  /** `n` is planned at `i`, its dependencies are planned earlier, and all earlier ones are in the registry. */
  ghost predicate ClosedAt(w: World, plan: seq<Record>, n: string, i: nat) {
    && PublishedAt(w, plan, n, i)
    && forall d <- plan[i].dependencies :: exists j :: 0 <= j < i && plan[j].name == d && Holds(w, plan[j])
  }

  lemma PublishedIsClosed(rel: Release, w: World, n: string, i: nat)
    requires PlanOf(rel).Ok? && PublishedAt(w, PlanOf(rel).value, n, i)
    ensures ClosedAt(w, PlanOf(rel).value, n, i)
  {
    hide Plan, Holds;
    var plan := PlanOf(rel).value;
    DependenciesComeFirst(ConfigOf(rel), rel.expected.packages, i);
    forall d <- plan[i].dependencies ensures exists j :: 0 <= j < i && plan[j].name == d && Holds(w, plan[j]) {
      assert d in NameSet(plan[..i]);
      var j :| 0 <= j < i && plan[..i][j].name == d;
      assert plan[j].name == d && Holds(w, plan[..i][j]);
    }
  }

  /**
   A sweep that reaches the end always yields final evidence, given a well-formed digest; it is the
   same document in every run, verification accepts it, and the registry then holds every package.
   */
  lemma CompletedRunIsVerified(rel: Release, w: World)
    requires Reachable(rel, w) && Enabled(rel, w, Finalize) && LowerHex(rel.digest, 64)
    ensures var w' := Apply(rel, w, Finalize);
            && w'.final == Some(FinalOf(rel.expected, rel.digest))
            && Accepted(rel.contract, rel.expected, w'.final.value, Some(rel.digest))
            && HoldsAll(w', PlanOf(rel).value)
  {
    hide Reachable, Exact, ValidExpected, OursOk, FinalOk, PlanOf, CreateFinal, Accepted, LowerHex, AllExact, Seen, HoldsAll, FinalOf;
    ReachableInv(rel, w);
    SeenWhole(w, PlanOf(rel).value, w.process.observed);
    SweepFinalizes(rel, w.process.observed);
    CreateFinalExactly(rel.contract, rel.expected, rel.digest, w.process.observed);
    CreatedIsAccepted(rel.contract, rel.expected, rel.digest, w.process.observed);
    GrownHolds(w, Apply(rel, w, Finalize), PlanOf(rel).value);
  }

  /** Final evidence, once written, stays true: the registry still holds every package as it says. */
  lemma FinalEvidenceStaysTrue(rel: Release, w: World)
    requires Reachable(rel, w) && w.final.Some?
    ensures PlanOf(rel).Ok? && HoldsAll(w, PlanOf(rel).value)
    ensures w.final.value == FinalOf(rel.expected, rel.digest)
    ensures Accepted(rel.contract, rel.expected, w.final.value, Some(rel.digest))
  {
    ReachableInv(rel, w);
  }
}
