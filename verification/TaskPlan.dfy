/**
 Assembly of an affected-path plan: legacy tasks, the single native producer, TypeScript and Cargo
 build tasks; and the serialised form that shards load again.
 */
module TaskPlan {
  import opened Outcomes
  import opened SeqSets
  import opened Base64Url
  import Utf16

  datatype Capabilities = Capabilities(rust: bool, nextest: bool, nativeConsumer: bool, nativeProducer: bool)

  datatype Phase = LegacyTask | NativeProducer | TsBuild | CargoBuild

  /** `cwd` is relative to the repository root, with "." for the root itself. */
  datatype Task = Task(
    key: string, identity: Option<string>, description: string, command: seq<string>, cwd: Option<string>,
    capabilities: Option<Capabilities>, phase: Option<Phase>)

  predicate StartsWith(s: string, prefix: string) { |prefix| <= |s| && s[..|prefix|] == prefix }

  const NATIVE_KEY := "native-linux-x64"

  predicate NativeBuildKey(key: string) { key == "native-build" || key == NATIVE_KEY }

  /** `taskNeedsNative`. */
  predicate NeedsNative(key: string) {
    || key == "root-test" || key == "root-check" || key == "check:@gajae-code/coding-agent" || key == "cli-smoke"
    || key == "runtime-check" || key == "wrapper-version" || key == "deep-interview-definitions"
    || key == "deep-interview-runtime" || key == "bridge-client-sdk-package-smoke" || StartsWith(key, "test:")
  }

  predicate RustTestKey(key: string) { key == "rust-test" || StartsWith(key, "rust-test:partition-") }

  predicate NeedsRust(key: string) {
    || key == "rust-check" || RustTestKey(key) || key == "ci-selftest" || key == "ci-dry-run"
    || key == "affected-selftest" || key == "affected-dry-run"
  }

  const PRODUCER := Task(
    NATIVE_KEY, Some("native:linux-x64:baseline-modern"), "Build linux x64 native addons",
    ["bash", "-lc", "TARGET_VARIANTS=\"baseline modern\" bun scripts/ci-build-native.ts"], Some("."),
    Some(Capabilities(true, false, false, true)), Some(NativeProducer))

  // ---------------------------------------------------------------- inventory

  datatype TsUnit = TsUnit(id: string, name: string, dir: string, nativeConsumer: bool, nativeProducer: bool)

  datatype CargoUnit = CargoUnit(id: string, name: string, manifestPath: string, nativeAddonSource: bool)

  /** `emergency` says whether the inventory has the workspace build for ambiguous Cargo names. */
  datatype Inventory = Inventory(typescript: seq<TsUnit>, cargo: seq<CargoUnit>, emergency: bool)

  /** The name is carried by two supported units. */
  predicate Ambiguous(name: string, supported: seq<CargoUnit>) {
    exists i, j :: 0 <= i < j < |supported| && supported[i].name == name && supported[j].name == name
  }

  /** `requiresCargoWorkspaceEmergency`. */
  method RequiresCargoWorkspaceEmergency(selected: seq<CargoUnit>, supported: seq<CargoUnit>) returns (r: bool)
    ensures r == exists u <- selected :: Ambiguous(u.name, supported)
  {
    var counts: map<string, nat> := map[];
    for i := 0 to |supported|
      invariant forall name :: Counted(counts, name) == NameCount(supported[..i], name)
    {
      var name := supported[i].name;
      assert supported[..i + 1][..i] == supported[..i];
      counts := counts[name := Counted(counts, name) + 1];
    }
    assert supported[..|supported|] == supported;
    r := exists u <- selected :: Counted(counts, u.name) > 1;
    forall name ensures Counted(counts, name) > 1 <==> Ambiguous(name, supported) { CountAmbiguous(supported, name); }
  }

  function Counted(counts: map<string, nat>, name: string): nat { if name in counts then counts[name] else 0 }

  function NameCount(units: seq<CargoUnit>, name: string): nat {
    if units == [] then 0 else NameCount(units[..|units| - 1], name) + if units[|units| - 1].name == name then 1 else 0
  }

  lemma {:induction false} CountPositive(units: seq<CargoUnit>, name: string)
    ensures NameCount(units, name) > 0 <==> exists i :: 0 <= i < |units| && units[i].name == name
  {
    if units != [] {
      var init := units[..|units| - 1];
      CountPositive(init, name);
      if i :| 0 <= i < |init| && init[i].name == name { assert units[i].name == name; }
    }
  }

  lemma {:induction false} CountAmbiguous(units: seq<CargoUnit>, name: string)
    ensures NameCount(units, name) > 1 <==> Ambiguous(name, units)
  {
    if units != [] {
      var init, last := units[..|units| - 1], |units| - 1;
      CountAmbiguous(init, name);
      CountPositive(init, name);
      if Ambiguous(name, init) {
        var i, j :| 0 <= i < j < |init| && init[i].name == name && init[j].name == name;
        assert units[i].name == name && units[j].name == name;
      }
      if i :| 0 <= i < |init| && init[i].name == name { assert units[i].name == name; }
      if Ambiguous(name, units) {
        var i, j :| 0 <= i < j < |units| && units[i].name == name && units[j].name == name;
        assert init[i].name == name;
        if j < last { assert init[j].name == name; }
      }
    }
  }

  /** `assertInventory`, for units whose directories passed the path check. */
  predicate ValidInventory(inv: Inventory) {
    && KeysDistinct(inv.typescript, (u: TsUnit) => u.id)
    && KeysDistinct(inv.typescript, (u: TsUnit) => u.name)
    && KeysDistinct(inv.typescript, (u: TsUnit) => u.dir)
    && KeysDistinct(inv.cargo, (u: CargoUnit) => u.id)
    && KeysDistinct(inv.cargo, (u: CargoUnit) => u.manifestPath)
    && (exists u <- inv.cargo :: u.nativeAddonSource)
    && (forall u <- inv.cargo :: u.nativeAddonSource ==> u.id == "pi-natives")
    && ((exists u <- inv.cargo :: Ambiguous(u.name, inv.cargo)) ==> inv.emergency)
    && (forall u <- inv.typescript :: NormalizePath(u.dir) == Some(u.dir))
  }

  // ---------------------------------------------------------------- inventory paths

  function Slashed(s: string): (r: string)
    ensures |r| == |s| && '\\' !in r
  {
    if s == "" then "" else [if s[0] == '\\' then '/' else s[0]] + Slashed(s[1..])
  }

  /** `split("/")`: never empty. */
  function Parts(s: string): (r: seq<string>)
    ensures r != []
  {
    if s == "" then [""]
    else
      var rest := Parts(s[1..]);
      if s[0] == '/' then [""] + rest else [[s[0]] + rest[0]] + rest[1..]
  }

  predicate Contains(s: string, part: string) { exists i :: 0 <= i <= |s| && StartsWith(s[i..], part) }

  /** `normalizeInventoryPath`; `None` stands for the error. */
  function NormalizePath(value: string): Option<string> {
    var slashed := Slashed(value);
    var n := if StartsWith(slashed, "./") then slashed[2..] else slashed;
    if n == "" || StartsWith(n, "/") || Contains(n, "../") || (exists part <- Parts(n) :: part == "" || part == ".") then None
    else Some(n)
  }

  lemma {:induction false} SlashedIsIdentity(s: string)
    requires '\\' !in s
    ensures Slashed(s) == s
  {
    if s != "" {
      SlashedIsIdentity(s[1..]);
      assert s == [s[0]] + s[1..];
    }
  }

  lemma DotFirst(s: string)
    requires StartsWith(s, "./")
    ensures "." in Parts(s)
  {
    assert s[0] == '.' && s[1] == '/';
    assert s[1..][0] == '/';
    assert Parts(s[1..])[0] == "";
    assert Parts(s)[0] == ['.'];
  }

  /** A normalised path normalises to itself, so what the inventory accepts the plan loader accepts. */
  lemma NormalizeIdempotent(value: string)
    requires NormalizePath(value).Some?
    ensures NormalizePath(NormalizePath(value).value) == NormalizePath(value)
  {
    var n := NormalizePath(value).value;
    SlashedIsIdentity(n);
    if StartsWith(n, "./") { DotFirst(n); }
  }

  // ---------------------------------------------------------------- identities

  /** `stableIdentity`. */
  function StableIdentity(domain: string, id: string, location: string): (r: string)
    ensures StartsWith(r, domain)
  {
    domain + ":" + ToBase64Url(id) + ":" + ToBase64Url(location)
  }

  lemma ColonSplits(a: string, x: string, b: string, y: string)
    requires ':' !in a && ':' !in b && a + ":" + x == b + ":" + y
    ensures a == b
  {
    var s, t := a + ":" + x, b + ":" + y;
    assert s[|a|] == ':' && t[|b|] == ':';
    assert (forall i :: 0 <= i < |b| ==> t[i] == b[i]) && forall i :: 0 <= i < |a| ==> s[i] == a[i];
    assert a == s[..|a|] && b == t[..|b|];
  }

  /** Within one domain an identity determines the id and the location. */
  lemma StableIdentityInjective(domain: string, id: string, location: string, id': string, location': string)
    requires StableIdentity(domain, id, location) == StableIdentity(domain, id', location')
    ensures id == id' && location == location'
  {
    var a, x, b, y := ToBase64Url(id), ToBase64Url(location), ToBase64Url(id'), ToBase64Url(location');
    hide ToBase64Url;
    var d := domain + ":";
    assert StableIdentity(domain, id, location) == d + (a + ":" + x);
    assert StableIdentity(domain, id', location') == d + (b + ":" + y);
    assert (d + (a + ":" + x))[|d|..] == a + ":" + x && (d + (b + ":" + y))[|d|..] == b + ":" + y;
    ColonSplits(a, x, b, y);
    assert (a + ":" + x)[|a| + 1..] == x && (b + ":" + y)[|b| + 1..] == y;
    ToBase64UrlInjective(id, id');
    ToBase64UrlInjective(location, location');
  }

  function UnitIdentity(domain: string, id: Utf16.Text, location: Utf16.Text): string {
    StableIdentity(domain, Utf16.Scalars(id), Utf16.Scalars(location))
  }

  /** On texts of 16-bit units an identity belongs to one id and location exactly when both are plain. */
  lemma IdentifiesExactly(domain: string, id: Utf16.Text, location: Utf16.Text)
    ensures (forall id', location' :: UnitIdentity(domain, id', location') == UnitIdentity(domain, id, location) ==> id' == id && location' == location)
       <==> Utf16.Plain(id) && Utf16.Plain(location)
  {
    hide StableIdentity, Utf16.Scalars, Utf16.Plain;
    Utf16.ScalarsTellApartExactly(id);
    Utf16.ScalarsTellApartExactly(location);
    if !Utf16.Plain(id) {
      var other: Utf16.Text :| Utf16.Scalars(other) == Utf16.Scalars(id) && other != id;
      assert UnitIdentity(domain, other, location) == UnitIdentity(domain, id, location);
    } else if !Utf16.Plain(location) {
      var other: Utf16.Text :| Utf16.Scalars(other) == Utf16.Scalars(location) && other != location;
      assert UnitIdentity(domain, id, other) == UnitIdentity(domain, id, location);
    } else {
      forall id', location' | UnitIdentity(domain, id', location') == UnitIdentity(domain, id, location) ensures id' == id && location' == location {
        StableIdentityInjective(domain, Utf16.Scalars(id'), Utf16.Scalars(location'), Utf16.Scalars(id), Utf16.Scalars(location));
        Utf16.PlainApart(id, id');
        Utf16.PlainApart(location, location');
      }
    }
  }

  function CwdText(t: Task): string { if t.cwd.Some? then t.cwd.value else "." }

  /** `canonicalTaskIdentity`. */
  function Identity(t: Task): string {
    if t.identity.Some? then t.identity.value else StableIdentity("legacy", t.key, CwdText(t))
  }

  // ---------------------------------------------------------------- plan assembly

  function TsTask(u: TsUnit): Task {
    var identity := StableIdentity("ts", u.id, u.dir);
    Task("ts-build:" + identity, Some(identity), "Build " + u.name, ["bun", "run", "build"], Some(u.dir),
         Some(Capabilities(false, false, u.nativeConsumer, u.nativeProducer)), Some(TsBuild))
  }

  function CargoTask(u: CargoUnit): Task {
    var identity := StableIdentity("cargo", u.id, u.manifestPath);
    Task("cargo-build:" + identity, Some(identity), "Build Cargo crate " + u.name, ["cargo", "build", "--package", u.name],
         Some("."), Some(Capabilities(true, false, false, false)), Some(CargoBuild))
  }

  const EMERGENCY_KEY := "cargo-build:emergency:workspace"

  const EMERGENCY := Task(
    EMERGENCY_KEY, Some("emergency:cargo-workspace:root"), "Build Cargo workspace", ["cargo", "build", "--workspace"], Some("."),
    Some(Capabilities(true, false, false, false)), Some(CargoBuild))

  function TsTasks(units: seq<TsUnit>): seq<Task> { seq(|units|, i requires 0 <= i < |units| => TsTask(units[i])) }

  datatype PlanError = MissingEmergency | BadIdentity | BadPath | Duplicate

  /** Tasks for the selected Cargo units: one each, or one workspace build when a selected name is ambiguous. */
  function CargoTasks(selected: seq<CargoUnit>, inv: Inventory): Result<seq<Task>, PlanError> {
    if exists u <- selected :: Ambiguous(u.name, inv.cargo) then
      if inv.emergency then Ok([EMERGENCY]) else Err(MissingEmergency)
    else Ok(seq(|selected|, i requires 0 <= i < |selected| => CargoTask(selected[i])))
  }

  function WithoutNative(legacy: seq<Task>): (r: seq<Task>)
    ensures forall t :: t in r <==> t in legacy && !NativeBuildKey(t.key)
  {
    if legacy == [] then []
    else
      var rest := WithoutNative(legacy[..|legacy| - 1]);
      var last := legacy[|legacy| - 1];
      assert legacy == legacy[..|legacy| - 1] + [last];
      if NativeBuildKey(last.key) then rest else rest + [last]
  }

  predicate NeedsProducer(legacy: seq<Task>, ts: seq<TsUnit>, cargo: seq<Task>, inv: Inventory) {
    || (exists t <- legacy :: NativeBuildKey(t.key) || NeedsNative(t.key))
    || (exists u <- ts :: u.nativeConsumer || u.nativeProducer)
    || (exists u <- inv.cargo :: u.nativeAddonSource && exists t <- cargo ::
          (inv.emergency && t.key == EMERGENCY_KEY) || t.identity == Some(StableIdentity("cargo", u.id, u.manifestPath)))
  }

  /** `appendBuildTasks`, once the changed paths have selected the build units. */
  function AppendBuildTasks(legacy: seq<Task>, ts: seq<TsUnit>, units: seq<CargoUnit>, inv: Inventory): Result<seq<Task>, PlanError> {
    match CargoTasks(units, inv)
    case Err(e) => Err(e)
    case Ok(cargo) =>
      Ok(WithoutNative(legacy) + (if NeedsProducer(legacy, ts, cargo, inv) then [PRODUCER] else []) + TsTasks(ts) + cargo)
  }

  /** A task as the legacy planners add it. */
  predicate Legacy(t: Task) {
    && t.identity.None? && t.capabilities.None? && t.phase.None?
    && !StartsWith(t.key, "ts-build:") && !StartsWith(t.key, "cargo-build:")
  }

  // ---------------------------------------------------------------- descriptors

  datatype Entry = Entry(
    key: string, identity: string, description: string, command: seq<string>, cwd: Option<string>,
    native: bool, rust: bool, nextest: bool, nativeBuild: bool)

  /** Capabilities a task has, or those its key implies. */
  function CapabilitiesOf(t: Task): Capabilities {
    if t.capabilities.Some? then t.capabilities.value
    else Capabilities(NeedsRust(t.key), RustTestKey(t.key), NeedsNative(t.key), NativeBuildKey(t.key))
  }

  /** One descriptor of `describeTasks`. */
  function Describe(t: Task): Entry {
    var c := CapabilitiesOf(t);
    Entry(t.key, Identity(t), t.description, t.command, t.cwd, c.nativeConsumer, c.rust, c.nextest, c.nativeProducer)
  }

  /** The plan's one task with the native key is the producer itself. */
  predicate OneProducer(plan: seq<Task>) {
    exists i :: 0 <= i < |plan| && plan[i] == PRODUCER && forall j :: 0 <= j < |plan| && plan[j].key == NATIVE_KEY ==> j == i
  }

  lemma OtherKeys(plan: seq<Task>, legacy: seq<Task>, ts: seq<TsUnit>, cargo: seq<Task>)
    requires forall t <- cargo :: StartsWith(t.key, "cargo-build:")
    ensures forall t <- WithoutNative(legacy) :: t.key != NATIVE_KEY
    ensures forall t <- TsTasks(ts) :: t.key != NATIVE_KEY
    ensures forall t <- cargo :: t.key != NATIVE_KEY
  {
    forall t <- TsTasks(ts) ensures t.key[0] == 't' { }
    forall t <- cargo ensures t.key[0] == 'c' { assert t.key[0] == "cargo-build:"[0]; }
    assert NATIVE_KEY[0] == 'n';
  }

  lemma CargoTaskShape(units: seq<CargoUnit>, inv: Inventory)
    requires CargoTasks(units, inv).Ok?
    ensures forall t <- CargoTasks(units, inv).value ::
      StartsWith(t.key, "cargo-build:") && t.capabilities == Some(Capabilities(true, false, false, false)) && t.cwd == Some(".")
  {
    assert StartsWith(EMERGENCY_KEY, "cargo-build:");
  }

  /**
   A plan with any task that its descriptor marks as a native consumer holds the native producer, once;
   whether the producer is there is decided by NeedsProducer alone.
   */
  lemma ConsumersHaveOneProducer(legacy: seq<Task>, ts: seq<TsUnit>, units: seq<CargoUnit>, inv: Inventory)
    requires (forall t <- legacy :: Legacy(t)) && AppendBuildTasks(legacy, ts, units, inv).Ok?
    ensures var plan := AppendBuildTasks(legacy, ts, units, inv).value;
            var cargo := CargoTasks(units, inv).value;
            && ((exists t <- plan :: Describe(t).native) ==> OneProducer(plan))
            && (NeedsProducer(legacy, ts, cargo, inv) <==> OneProducer(plan))
            && (!NeedsProducer(legacy, ts, cargo, inv) ==> forall t <- plan :: t.key != NATIVE_KEY)
  {
    var plan := AppendBuildTasks(legacy, ts, units, inv).value;
    var cargo := CargoTasks(units, inv).value;
    CargoTaskShape(units, inv);
    OtherKeys(plan, legacy, ts, cargo);
    ProducerPlace(WithoutNative(legacy), NeedsProducer(legacy, ts, cargo, inv), TsTasks(ts), cargo);
    if t :| t in plan && Describe(t).native { ConsumerNeedsProducer(legacy, ts, cargo, inv, t); }
  }

  lemma ProducerPlace(a: seq<Task>, needed: bool, c: seq<Task>, d: seq<Task>)
    requires (forall t <- a :: t.key != NATIVE_KEY) && (forall t <- c :: t.key != NATIVE_KEY) && (forall t <- d :: t.key != NATIVE_KEY)
    ensures var plan := a + (if needed then [PRODUCER] else []) + c + d;
            (needed <==> OneProducer(plan)) && (!needed ==> forall t <- plan :: t.key != NATIVE_KEY)
  {
    var plan := a + (if needed then [PRODUCER] else []) + c + d;
    assert PRODUCER.key == NATIVE_KEY;
    if needed {
      assert plan[|a|] == PRODUCER;
      assert forall j :: 0 <= j < |plan| && j != |a| ==> plan[j] in a || plan[j] in c || plan[j] in d;
    }
  }

  lemma ConsumerNeedsProducer(legacy: seq<Task>, ts: seq<TsUnit>, cargo: seq<Task>, inv: Inventory, t: Task)
    requires forall x <- legacy :: Legacy(x)
    requires forall x <- cargo :: x.capabilities == Some(Capabilities(true, false, false, false))
    requires t in WithoutNative(legacy) || t == PRODUCER || t in TsTasks(ts) || t in cargo
    requires Describe(t).native
    ensures NeedsProducer(legacy, ts, cargo, inv)
  {
    if t in TsTasks(ts) {
      var i :| 0 <= i < |ts| && t == TsTask(ts[i]);
      assert ts[i].nativeConsumer;
    } else if t in WithoutNative(legacy) {
      assert t in legacy && NeedsNative(t.key);
    }
  }
}
