/**
 A serialised plan is accepted by its own loader: unique keys and identities, the same tasks back, and
 emitted flags that the aggregate check expects.
 */
module PlanLoading {
  import opened Outcomes
  import opened SeqSets
  import opened Base64Url
  import opened TaskPlan

  /** One task as the plan file holds it. */
  datatype Stored = Stored(
    key: string, identity: string, description: string, command: seq<string>, cwd: Option<string>,
    capabilities: Capabilities, phase: Phase)

  /** One element of `serializeTasks`. */
  function Serialize(t: Task): Stored {
    Stored(t.key, Identity(t), t.description, t.command, Some(CwdText(t)), CapabilitiesOf(t),
           if t.phase.Some? then t.phase.value else LegacyTask)
  }

  /** `deserializeTask`, for a value of the right shape. */
  function Deserialize(s: Stored): Result<Task, PlanError> {
    if s.identity == "" then Err(BadIdentity)
    else if s.cwd.Some? && s.cwd.value != "." && NormalizePath(s.cwd.value).None? then Err(BadPath)
    else Ok(Task(s.key, Some(s.identity), s.description, s.command, s.cwd, Some(s.capabilities), Some(s.phase)))
  }

  /** The task with everything its key and place imply written out. */
  function Canonical(t: Task): Task {
    Task(t.key, Some(Identity(t)), t.description, t.command, Some(CwdText(t)), Some(CapabilitiesOf(t)),
         Some(if t.phase.Some? then t.phase.value else LegacyTask))
  }

  /** Directories the loader lets through. */
  predicate Loadable(t: Task) { CwdText(t) == "." || NormalizePath(CwdText(t)).Some? }

  /** Loading a stored task gives its canonical form exactly when its directory is loadable. */
  lemma LoadsBack(t: Task)
    requires Identity(t) != ""
    ensures Deserialize(Serialize(t)) == if Loadable(t) then Ok(Canonical(t)) else Err(BadPath)
  {
    hide NormalizePath, StableIdentity, CapabilitiesOf;
  }

  /** The canonical form is a fixed point: storing and describing it again says the same. */
  lemma CanonicalIsStable(t: Task)
    ensures Serialize(Canonical(t)) == Serialize(t) && Canonical(Canonical(t)) == Canonical(t)
    ensures Describe(Canonical(t)) == Describe(t).(cwd := Some(CwdText(t)))
  {
    hide StableIdentity;
  }

  function SerializeAll(plan: seq<Task>): seq<Stored> { seq(|plan|, i requires 0 <= i < |plan| => Serialize(plan[i])) }

  function CanonicalAll(plan: seq<Task>): seq<Task> { seq(|plan|, i requires 0 <= i < |plan| => Canonical(plan[i])) }

  function DeserializeAll(stored: seq<Stored>): Result<seq<Task>, PlanError> {
    if stored == [] then Ok([])
    else
      match DeserializeAll(stored[..|stored| - 1])
      case Err(e) => Err(e)
      case Ok(init) =>
        match Deserialize(stored[|stored| - 1])
        case Err(e) => Err(e)
        case Ok(last) => Ok(init + [last])
  }

  /** The task list `loadCanonicalPlan` returns. */
  function Load(stored: seq<Stored>): Result<seq<Task>, PlanError> {
    match DeserializeAll(stored)
    case Err(e) => Err(e)
    case Ok(tasks) =>
      if KeysDistinct(tasks, (t: Task) => t.key) && KeysDistinct(tasks, (t: Task) => t.identity) then Ok(tasks) else Err(Duplicate)
  }

  lemma {:induction false} DeserializeBack(plan: seq<Task>)
    requires forall t <- plan :: Identity(t) != ""
    ensures DeserializeAll(SerializeAll(plan)) == if forall t <- plan :: Loadable(t) then Ok(CanonicalAll(plan)) else Err(BadPath)
  {
    hide Serialize, Deserialize, Canonical, Loadable, Identity;
    if plan != [] {
      var init, last := plan[..|plan| - 1], plan[|plan| - 1];
      assert plan == init + [last];
      DeserializeBack(init);
      LoadsBack(last);
      StoredInit(plan);
      hide SerializeAll, CanonicalAll;
      assert (forall t <- plan :: Loadable(t)) <==> (forall t <- init :: Loadable(t)) && Loadable(last);
    } else {
      assert CanonicalAll(plan) == [];
    }
  }

  lemma StoredInit(plan: seq<Task>)
    requires plan != []
    ensures var n, stored := |plan| - 1, SerializeAll(plan);
            && |stored| == n + 1 && stored[..n] == SerializeAll(plan[..n]) && stored[n] == Serialize(plan[n])
            && CanonicalAll(plan) == CanonicalAll(plan[..n]) + [Canonical(plan[n])]
  {
    hide Serialize, Canonical;
  }

  // ---------------------------------------------------------------- unique keys and identities

  lemma ConcatDistinct<K>(a: seq<Task>, b: seq<Task>, key: Task -> K)
    requires KeysDistinct(a, key) && KeysDistinct(b, key) && forall x, y :: x in a && y in b ==> key(x) != key(y)
    ensures KeysDistinct(a + b, key)
  {
    forall i, j | 0 <= i < j < |a + b| ensures key((a + b)[i]) != key((a + b)[j]) {
      if i < |a| <= j { assert a[i] in a && b[j - |a|] in b; }
    }
  }

  lemma {:induction false} FilteredDistinct<K>(legacy: seq<Task>, key: Task -> K)
    requires KeysDistinct(legacy, key)
    ensures KeysDistinct(WithoutNative(legacy), key)
  {
    if legacy != [] {
      var init, last := legacy[..|legacy| - 1], legacy[|legacy| - 1];
      FilteredDistinct(init, key);
      forall x <- WithoutNative(init) ensures key(x) != key(last) {
        var i :| 0 <= i < |init| && init[i] == x;
        assert legacy[i] == x;
      }
    }
  }

  /** Selected units: some of the inventory's, none twice. */
  predicate SelectedTs(ts: seq<TsUnit>, inv: Inventory) { Distinct(ts) && forall u <- ts :: u in inv.typescript }

  predicate SelectedCargo(units: seq<CargoUnit>, inv: Inventory) { Distinct(units) && forall u <- units :: u in inv.cargo }

  lemma SelectedIds<T, K>(selected: seq<T>, all: seq<T>, key: T -> K)
    requires Distinct(selected) && KeysDistinct(all, key) && forall u <- selected :: u in all
    ensures KeysDistinct(selected, key)
  {
    forall i, j | 0 <= i < j < |selected| ensures key(selected[i]) != key(selected[j]) {
      assert selected[i] in all && selected[j] in all;
    }
  }

  /** The family of a key and of an identity, read off their first characters. */
  function Family(key: string): nat {
    if StartsWith(key, "ts-build:") then 1 else if StartsWith(key, "cargo-build:") then 2 else if NativeBuildKey(key) then 3 else 0
  }

  predicate InFamily(t: Task, family: nat, initials: set<char>) {
    Family(t.key) == family && Identity(t) != "" && Identity(t)[0] in initials
  }

  predicate Unique(plan: seq<Task>) {
    KeysDistinct(plan, (t: Task) => t.key) && KeysDistinct(plan, (t: Task) => Identity(t))
  }

  lemma JoinFamilies(a: seq<Task>, b: seq<Task>, families: set<nat>, f: nat, initials: set<char>, more: set<char>)
    requires Unique(a) && Unique(b) && f !in families && initials !! more
    requires forall x <- a :: Family(x.key) in families && Identity(x) != "" && Identity(x)[0] in initials
    requires forall y <- b :: InFamily(y, f, more)
    ensures Unique(a + b)
    ensures forall x <- a + b :: Family(x.key) in families + {f} && Identity(x) != "" && Identity(x)[0] in initials + more
  {
    hide Family, Identity;
    ConcatDistinct(a, b, (t: Task) => t.key);
    ConcatDistinct(a, b, (t: Task) => Identity(t));
  }

  lemma LegacyUnique(legacy: seq<Task>)
    requires (forall t <- legacy :: Legacy(t)) && KeysDistinct(legacy, (t: Task) => t.key)
    ensures Unique(WithoutNative(legacy)) && forall t <- WithoutNative(legacy) :: InFamily(t, 0, {'l'})
  {
    var kept := WithoutNative(legacy);
    FilteredDistinct(legacy, (t: Task) => t.key);
    forall i, j | 0 <= i < j < |kept| ensures Identity(kept[i]) != Identity(kept[j]) {
      assert kept[i] in legacy && kept[j] in legacy;
      if Identity(kept[i]) == Identity(kept[j]) {
        StableIdentityInjective("legacy", kept[i].key, CwdText(kept[i]), kept[j].key, CwdText(kept[j]));
      }
    }
    forall t <- kept ensures InFamily(t, 0, {'l'}) { assert Identity(t)[0] == 'l'; }
  }

  lemma TsUnique(ts: seq<TsUnit>, inv: Inventory)
    requires ValidInventory(inv) && SelectedTs(ts, inv)
    ensures Unique(TsTasks(ts)) && forall t <- TsTasks(ts) :: InFamily(t, 1, {'t'})
  {
    var id := (u: TsUnit) => u.id;
    SelectedIds(ts, inv.typescript, id);
    var tasks := TsTasks(ts);
    forall i, j | 0 <= i < j < |ts| ensures Identity(tasks[i]) != Identity(tasks[j]) && tasks[i].key != tasks[j].key {
      assert id(ts[i]) != id(ts[j]);
      var p, q := StableIdentity("ts", ts[i].id, ts[i].dir), StableIdentity("ts", ts[j].id, ts[j].dir);
      if p == q { StableIdentityInjective("ts", ts[i].id, ts[i].dir, ts[j].id, ts[j].dir); }
      PrefixKeeps("ts-build:", p, q);
    }
    forall t <- tasks ensures InFamily(t, 1, {'t'}) { assert Identity(t)[0] == 't'; }
  }

  lemma PrefixKeeps(prefix: string, p: string, q: string)
    ensures prefix + p == prefix + q ==> p == q
  {
    assert (prefix + p)[|prefix|..] == p && (prefix + q)[|prefix|..] == q;
  }

  lemma CargoUnique(units: seq<CargoUnit>, inv: Inventory)
    requires ValidInventory(inv) && SelectedCargo(units, inv)
    ensures CargoTasks(units, inv).Ok?
    ensures Unique(CargoTasks(units, inv).value) && forall t <- CargoTasks(units, inv).value :: InFamily(t, 2, {'c', 'e'})
  {
    var tasks := CargoTasks(units, inv).value;
    if exists u <- units :: Ambiguous(u.name, inv.cargo) {
      EmergencyFamily();
    } else {
      var id := (u: CargoUnit) => u.id;
      SelectedIds(units, inv.cargo, id);
      forall i, j | 0 <= i < j < |units| ensures Identity(tasks[i]) != Identity(tasks[j]) && tasks[i].key != tasks[j].key {
        assert id(units[i]) != id(units[j]);
        var p, q := StableIdentity("cargo", units[i].id, units[i].manifestPath), StableIdentity("cargo", units[j].id, units[j].manifestPath);
        if p == q { StableIdentityInjective("cargo", units[i].id, units[i].manifestPath, units[j].id, units[j].manifestPath); }
        PrefixKeeps("cargo-build:", p, q);
      }
      forall t <- tasks ensures InFamily(t, 2, {'c', 'e'}) { CargoFamily(t, units); }
    }
  }

  lemma EmergencyFamily()
    ensures InFamily(EMERGENCY, 2, {'c', 'e'})
  {
    assert EMERGENCY_KEY[0] == 'c';
    assert StartsWith(EMERGENCY_KEY, "cargo-build:");
  }

  lemma CargoFamily(t: Task, units: seq<CargoUnit>)
    requires exists u <- units :: t == CargoTask(u)
    ensures InFamily(t, 2, {'c', 'e'})
  {
    assert t.key[0] == 'c' && Identity(t)[0] == 'c';
    assert StartsWith(t.key, "cargo-build:");
  }

  /** For a valid inventory the plan exists, and no two of its tasks share a key or an identity. */
  lemma PlanIsUnique(legacy: seq<Task>, ts: seq<TsUnit>, units: seq<CargoUnit>, inv: Inventory)
    requires (forall t <- legacy :: Legacy(t)) && KeysDistinct(legacy, (t: Task) => t.key)
    requires ValidInventory(inv) && SelectedTs(ts, inv) && SelectedCargo(units, inv)
    ensures AppendBuildTasks(legacy, ts, units, inv).Ok?
    ensures Unique(AppendBuildTasks(legacy, ts, units, inv).value)
    ensures forall t <- AppendBuildTasks(legacy, ts, units, inv).value :: Identity(t) != ""
  {
    LegacyUnique(legacy);
    TsUnique(ts, inv);
    CargoUnique(units, inv);
    ProducerFamily();
    hide ValidInventory, SelectedTs, SelectedCargo, WithoutNative, TsTasks, CargoTasks, NeedsProducer, Legacy;
    JoinPlan(WithoutNative(legacy), NeedsProducer(legacy, ts, CargoTasks(units, inv).value, inv), TsTasks(ts), CargoTasks(units, inv).value);
  }

  lemma JoinPlan(a: seq<Task>, needed: bool, c: seq<Task>, d: seq<Task>)
    requires Unique(a) && Unique(c) && Unique(d) && InFamily(PRODUCER, 3, {'n'})
    requires (forall t <- a :: InFamily(t, 0, {'l'})) && (forall t <- c :: InFamily(t, 1, {'t'})) && forall t <- d :: InFamily(t, 2, {'c', 'e'})
    ensures var plan := a + (if needed then [PRODUCER] else []) + c + d; Unique(plan) && forall t <- plan :: Identity(t) != ""
  {
    var b := if needed then [PRODUCER] else [];
    assert Unique(b);
    hide Family, Identity, Unique;
    JoinFamilies(a, b, {0}, 3, {'l'}, {'n'});
    JoinFamilies(a + b, c, {0, 3}, 1, {'l', 'n'}, {'t'});
    JoinFamilies(a + b + c, d, {0, 3, 1}, 2, {'l', 'n', 't'}, {'c', 'e'});
  }

  lemma ProducerFamily()
    ensures InFamily(PRODUCER, 3, {'n'})
  {
    assert NATIVE_KEY[0] == 'n' && "ts-build:"[0] == 't' && "cargo-build:"[0] == 'c';
  }

  // ---------------------------------------------------------------- the loader

  lemma CanonicalUnique(plan: seq<Task>)
    requires Unique(plan)
    ensures KeysDistinct(CanonicalAll(plan), (t: Task) => t.key) && KeysDistinct(CanonicalAll(plan), (t: Task) => t.identity)
  {
    hide Identity;
    var key, identity := (t: Task) => t.key, (t: Task) => Identity(t);
    forall i, j | 0 <= i < j < |plan|
      ensures CanonicalAll(plan)[i].key != CanonicalAll(plan)[j].key && CanonicalAll(plan)[i].identity != CanonicalAll(plan)[j].identity
    {
      assert key(plan[i]) != key(plan[j]) && identity(plan[i]) != identity(plan[j]);
    }
  }

  /**
   For a valid inventory, storing a plan and loading it gives the same tasks in canonical form exactly
   when every legacy task that is kept runs in a directory the loader accepts.
   */
  lemma LoaderAcceptsExactly(legacy: seq<Task>, ts: seq<TsUnit>, units: seq<CargoUnit>, inv: Inventory)
    requires (forall t <- legacy :: Legacy(t)) && KeysDistinct(legacy, (t: Task) => t.key)
    requires ValidInventory(inv) && SelectedTs(ts, inv) && SelectedCargo(units, inv)
    requires AppendBuildTasks(legacy, ts, units, inv).Ok?
    ensures var plan := AppendBuildTasks(legacy, ts, units, inv).value;
            Load(SerializeAll(plan)) == if forall t <- WithoutNative(legacy) :: Loadable(t) then Ok(CanonicalAll(plan)) else Err(BadPath)
  {
    var plan := AppendBuildTasks(legacy, ts, units, inv).value;
    var cargo := CargoTasks(units, inv).value;
    PlanIsUnique(legacy, ts, units, inv);
    CanonicalUnique(plan);
    DeserializeBack(plan);
    CargoTaskShape(units, inv);
    BuildTasksLoad(ts, cargo, inv);
    hide CargoTasks, WithoutNative, NeedsProducer, TsTasks, Loadable, ValidInventory, Unique, CanonicalAll, SerializeAll, DeserializeAll;
    assert (forall t <- plan :: Loadable(t)) <==> (forall t <- WithoutNative(legacy) :: Loadable(t)) by {
      PlanParts(legacy, ts, units, inv);
    }
    LoadFrom(plan);
  }

  const DOTTED := "old../app"

  lemma DottedIsUnsafe()
    ensures DOTTED != "." && NormalizePath(DOTTED).None?
  {
    UnsafeWhen(DOTTED, 3);
  }

  lemma UnsafeWhen(s: string, i: nat)
    requires '\\' !in s && |s| > 2 && s[0] != '.' && i + 3 <= |s| && s[i] == '.' && s[i + 1] == '.' && s[i + 2] == '/'
    ensures NormalizePath(s).None?
  {
    SlashedIsIdentity(s);
    DotsAt(s, i);
    hide Parts, Slashed, Contains;
    assert !StartsWith(s, "./") by { assert |s| > 0 && s[..2][0] == s[0]; }
  }

  lemma DotsAt(s: string, i: nat)
    requires i + 3 <= |s| && s[i] == '.' && s[i + 1] == '.' && s[i + 2] == '/'
    ensures Contains(s, "../")
  {
    assert s[i..][..3] == "../";
  }

  /** A real directory that the loader refuses: one whose name ends in two dots and that has another inside it. */
  lemma DottedDirectoryIsRefused(legacy: seq<Task>, ts: seq<TsUnit>, units: seq<CargoUnit>, inv: Inventory, t: Task)
    requires (forall t <- legacy :: Legacy(t)) && KeysDistinct(legacy, (t: Task) => t.key)
    requires ValidInventory(inv) && SelectedTs(ts, inv) && SelectedCargo(units, inv)
    requires AppendBuildTasks(legacy, ts, units, inv).Ok?
    requires t in WithoutNative(legacy) && t.cwd == Some(DOTTED)
    ensures Load(SerializeAll(AppendBuildTasks(legacy, ts, units, inv).value)) == Err(BadPath)
  {
    DottedIsUnsafe();
    hide NormalizePath, DOTTED, AppendBuildTasks, ValidInventory, SelectedTs, SelectedCargo, WithoutNative, Load, SerializeAll, Legacy;
    assert !Loadable(t);
    LoaderAcceptsExactly(legacy, ts, units, inv);
  }

  lemma LoadFrom(plan: seq<Task>)
    requires KeysDistinct(CanonicalAll(plan), (t: Task) => t.key) && KeysDistinct(CanonicalAll(plan), (t: Task) => t.identity)
    requires DeserializeAll(SerializeAll(plan)) == Err(BadPath) || DeserializeAll(SerializeAll(plan)) == Ok(CanonicalAll(plan))
    ensures Load(SerializeAll(plan)) == DeserializeAll(SerializeAll(plan))
  {
    hide CanonicalAll, SerializeAll, DeserializeAll, KeysDistinct;
  }

  lemma PlanParts(legacy: seq<Task>, ts: seq<TsUnit>, units: seq<CargoUnit>, inv: Inventory)
    requires AppendBuildTasks(legacy, ts, units, inv).Ok?
    ensures forall t <- WithoutNative(legacy) :: t in AppendBuildTasks(legacy, ts, units, inv).value
    ensures forall t <- AppendBuildTasks(legacy, ts, units, inv).value ::
      t in WithoutNative(legacy) || t == PRODUCER || t in TsTasks(ts) || t in CargoTasks(units, inv).value
  {
    hide WithoutNative, TsTasks, CargoTasks, NeedsProducer;
  }

  /** A task of the plan builds the unit in its own directory under its stable identity. */
  predicate BuildsTs(plan: seq<Task>, u: TsUnit) {
    exists t <- plan :: t.identity == Some(StableIdentity("ts", u.id, u.dir)) && t.cwd == Some(u.dir) && t.phase == Some(TsBuild)
  }

  predicate BuildsCargo(plan: seq<Task>, u: CargoUnit) {
    exists t <- plan :: t.phase == Some(CargoBuild) && t.cwd == Some(".")
      && (t.command == ["cargo", "build", "--workspace"] || t.command == ["cargo", "build", "--package", u.name])
  }

  /** Nothing selected is lost: every unit is built, and every legacy task that does not build the addon is kept. */
  lemma NothingIsDropped(legacy: seq<Task>, ts: seq<TsUnit>, units: seq<CargoUnit>, inv: Inventory)
    requires AppendBuildTasks(legacy, ts, units, inv).Ok?
    ensures var plan := AppendBuildTasks(legacy, ts, units, inv).value;
            && (forall t <- legacy :: NativeBuildKey(t.key) || t in plan)
            && (forall u <- ts :: BuildsTs(plan, u)) && (forall u <- units :: BuildsCargo(plan, u))
  {
    hide NeedsProducer, StableIdentity, NativeBuildKey, Ambiguous;
    var plan := AppendBuildTasks(legacy, ts, units, inv).value;
    var cargo := CargoTasks(units, inv).value;
    forall u <- ts ensures BuildsTs(plan, u) {
      var i :| 0 <= i < |ts| && ts[i] == u;
      assert TsTasks(ts)[i] == TsTask(u);
      assert TsTask(u) in plan;
    }
    forall u <- units ensures BuildsCargo(plan, u) {
      var i :| 0 <= i < |units| && units[i] == u;
      if cargo == [EMERGENCY] {
        assert cargo[0] in plan;
      } else {
        assert cargo[i] == CargoTask(u);
        assert cargo[i] in plan;
      }
    }
  }

  lemma BuildTasksLoad(ts: seq<TsUnit>, cargo: seq<Task>, inv: Inventory)
    requires ValidInventory(inv) && SelectedTs(ts, inv) && forall t <- cargo :: t.cwd == Some(".")
    ensures Loadable(PRODUCER) && (forall t <- TsTasks(ts) :: Loadable(t)) && forall t <- cargo :: Loadable(t)
  {
    hide NormalizePath, KeysDistinct, Ambiguous;
    forall t <- TsTasks(ts) ensures Loadable(t) {
      var i :| 0 <= i < |ts| && t == TsTask(ts[i]);
      assert ts[i] in inv.typescript;
      assert NormalizePath(ts[i].dir) == Some(ts[i].dir);
    }
  }

  // ---------------------------------------------------------------- flags

  datatype Flags = Flags(hasNative: bool, hasTasks: bool)

  predicate SomeBuild(plan: seq<Task>, native: bool) { exists t <- plan :: Describe(t).nativeBuild == native }

  /** The flags emitted beside the plan: shards are the descriptors that do not build the native addon. */
  function Emitted(plan: seq<Task>): Flags { Flags(SomeBuild(plan, true), SomeBuild(plan, false)) }

  predicate Produces(t: Task) { t.capabilities.Some? && t.capabilities.value.nativeProducer }

  predicate SomeProduces(tasks: seq<Task>, native: bool) { exists t <- tasks :: Produces(t) == native }

  /** `validatePlanCapabilities` lets the flags through. */
  predicate CapabilitiesAccepted(tasks: seq<Task>, flags: Flags, mode: string) {
    (mode == "pr" || mode == "push") && flags.hasNative == SomeProduces(tasks, true) && flags.hasTasks == SomeProduces(tasks, false)
  }

  lemma CanonicalAgrees(t: Task)
    ensures var c := Canonical(t).capabilities.value;
            && Canonical(t).capabilities.Some? && Canonical(t).key == t.key
            && c.nativeProducer == Describe(t).nativeBuild && c.rust == Describe(t).rust
            && c.nextest == Describe(t).nextest && c.nativeConsumer == Describe(t).native
  {
  }

  lemma SameBuilds(plan: seq<Task>, native: bool)
    ensures SomeBuild(plan, native) <==> SomeProduces(CanonicalAll(plan), native)
  {
    var loaded := CanonicalAll(plan);
    forall i | 0 <= i < |plan| ensures Produces(loaded[i]) == Describe(plan[i]).nativeBuild { CanonicalAgrees(plan[i]); }
    hide Describe, Canonical, Produces;
    if SomeBuild(plan, native) {
      var i :| 0 <= i < |plan| && Describe(plan[i]).nativeBuild == native;
      assert loaded[i] in loaded;
    }
    if SomeProduces(loaded, native) {
      var i :| 0 <= i < |loaded| && Produces(loaded[i]) == native;
      assert plan[i] in plan;
    }
  }

  /** For every plan, the emitted flags are the ones the loaded plan calls for. */
  lemma FlagsAreAccepted(plan: seq<Task>, mode: string)
    ensures CapabilitiesAccepted(CanonicalAll(plan), Emitted(plan), mode) <==> mode == "pr" || mode == "push"
  {
    SameBuilds(plan, true);
    SameBuilds(plan, false);
  }

  function Find(tasks: seq<Task>, key: string): Option<Task> {
    if tasks == [] then None else if tasks[0].key == key then Some(tasks[0]) else Find(tasks[1..], key)
  }

  lemma {:induction false} FindUnique(tasks: seq<Task>, i: nat)
    requires i < |tasks| && KeysDistinct(tasks, (t: Task) => t.key)
    ensures Find(tasks, tasks[i].key) == Some(tasks[i])
  {
    var key := (t: Task) => t.key;
    if i > 0 {
      assert key(tasks[0]) != key(tasks[i]);
      assert forall j, k :: 0 <= j < k < |tasks[1..]| ==> key(tasks[1..][j]) != key(tasks[1..][k]);
      FindUnique(tasks[1..], i - 1);
    }
  }

  /** Every shard finds its own task in the loaded plan, with the capabilities its matrix entry announced. */
  lemma MatrixAgrees(plan: seq<Task>, i: nat)
    requires Unique(plan) && i < |plan|
    ensures var e, found := Describe(plan[i]), Find(CanonicalAll(plan), Describe(plan[i]).key);
            && found == Some(Canonical(plan[i]))
            && found.value.capabilities.Some?
            && found.value.capabilities.value.(nativeProducer := false) == Capabilities(e.rust, e.nextest, e.native, false)
  {
    CanonicalUnique(plan);
    CanonicalAgrees(plan[i]);
    FindUnique(CanonicalAll(plan), i);
  }
}
