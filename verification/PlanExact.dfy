/** What an affected-path plan holds and when, in terms of the selected units and legacy tasks alone. */
module PlanExact {
  import opened Outcomes
  import opened SeqSets
  import opened Base64Url
  import opened TaskPlan
  import opened PlanLoading

  // ---------------------------------------------------------------- the native producer

  lemma SameUnit(u: CargoUnit, v: CargoUnit, inv: Inventory)
    requires KeysDistinct(inv.cargo, (x: CargoUnit) => x.id) && u in inv.cargo && v in inv.cargo
    requires StableIdentity("cargo", u.id, u.manifestPath) == StableIdentity("cargo", v.id, v.manifestPath)
    ensures u == v
  {
    StableIdentityInjective("cargo", u.id, u.manifestPath, v.id, v.manifestPath);
    KeyDetermines(inv.cargo, (x: CargoUnit) => x.id, u, v);
  }

  lemma NotEmergency(u: CargoUnit)
    ensures CargoTask(u).key != EMERGENCY_KEY
  {
    var identity := StableIdentity("cargo", u.id, u.manifestPath);
    hide StableIdentity;
    assert StartsWith(identity, "cargo");
    var key := "cargo-build:" + identity;
    assert key[12] == identity[0] == identity[..5][0] == 'c';
    assert EMERGENCY_KEY[12] == 'e';
  }

  predicate AnyAmbiguous(units: seq<CargoUnit>, inv: Inventory) { exists u <- units :: Ambiguous(u.name, inv.cargo) }

  /** What makes the plan need native addons, on the units and legacy tasks themselves. */
  predicate NativeWanted(legacy: seq<Task>, ts: seq<TsUnit>, units: seq<CargoUnit>, inv: Inventory) {
    || (exists t <- legacy :: NativeBuildKey(t.key) || NeedsNative(t.key))
    || (exists u <- ts :: u.nativeConsumer || u.nativeProducer)
    || AnyAmbiguous(units, inv)
    || (exists u <- units :: u.nativeAddonSource)
  }

  lemma CargoWants(units: seq<CargoUnit>, inv: Inventory)
    requires ValidInventory(inv) && SelectedCargo(units, inv) && CargoTasks(units, inv).Ok?
    ensures var cargo := CargoTasks(units, inv).value;
            (exists u <- inv.cargo :: u.nativeAddonSource && exists t <- cargo ::
               (inv.emergency && t.key == EMERGENCY_KEY) || t.identity == Some(StableIdentity("cargo", u.id, u.manifestPath)))
            <==> AnyAmbiguous(units, inv) || exists u <- units :: u.nativeAddonSource
  {
    hide StableIdentity, Ambiguous, NormalizePath;
    var cargo := CargoTasks(units, inv).value;
    if AnyAmbiguous(units, inv) {
      var u :| u in inv.cargo && u.nativeAddonSource;
      assert cargo[0] == EMERGENCY;
    } else {
      forall i | 0 <= i < |units| ensures cargo[i].key != EMERGENCY_KEY { NotEmergency(units[i]); }
      if u :| u in units && u.nativeAddonSource {
        var i :| 0 <= i < |units| && units[i] == u;
        assert cargo[i].identity == Some(StableIdentity("cargo", u.id, u.manifestPath));
        assert cargo[i] in cargo;
      }
      forall u, t | u in inv.cargo && u.nativeAddonSource && t in cargo && t.identity == Some(StableIdentity("cargo", u.id, u.manifestPath))
        ensures u in units
      {
        var i :| 0 <= i < |cargo| && cargo[i] == t;
        SameUnit(u, units[i], inv);
      }
    }
  }

  /**
   A plan holds the native producer, once, exactly when a legacy task builds or needs the addon, a selected
   TypeScript unit consumes or produces it, a selected Cargo unit is its source, or the Cargo workspace is built whole.
   */
  lemma ProducerExactly(legacy: seq<Task>, ts: seq<TsUnit>, units: seq<CargoUnit>, inv: Inventory)
    requires (forall t <- legacy :: Legacy(t)) && ValidInventory(inv) && SelectedCargo(units, inv)
    requires AppendBuildTasks(legacy, ts, units, inv).Ok?
    ensures OneProducer(AppendBuildTasks(legacy, ts, units, inv).value) <==> NativeWanted(legacy, ts, units, inv)
  {
    ConsumersHaveOneProducer(legacy, ts, units, inv);
    CargoWants(units, inv);
    hide OneProducer, Ambiguous, ValidInventory, StableIdentity, Legacy, AnyAmbiguous, NeedsNative, NativeBuildKey, CargoTasks;
  }

  // ---------------------------------------------------------------- nothing else

  predicate IsTsBuild(t: Task, u: TsUnit) { t.phase == Some(TsBuild) && t.cwd == Some(u.dir) && t.command == ["bun", "run", "build"] }

  predicate IsCargoBuild(t: Task, u: CargoUnit) { t.phase == Some(CargoBuild) && t.cwd == Some(".") && t.command == ["cargo", "build", "--package", u.name] }

  /** What a task of a plan can be; the whole workspace is built only for an ambiguous name. */
  predicate Expected(t: Task, legacy: seq<Task>, ts: seq<TsUnit>, units: seq<CargoUnit>, inv: Inventory) {
    || (t in legacy && !NativeBuildKey(t.key)) || t == PRODUCER
    || (exists u <- ts :: IsTsBuild(t, u))
    || (if AnyAmbiguous(units, inv) then t == EMERGENCY else exists u <- units :: IsCargoBuild(t, u))
  }

  /** A plan holds nothing but kept legacy tasks, the producer and one build for each selected unit. */
  lemma NothingIsAdded(legacy: seq<Task>, ts: seq<TsUnit>, units: seq<CargoUnit>, inv: Inventory)
    requires AppendBuildTasks(legacy, ts, units, inv).Ok?
    ensures var plan := AppendBuildTasks(legacy, ts, units, inv).value;
            && (forall t <- plan :: Expected(t, legacy, ts, units, inv))
            && |plan| == |WithoutNative(legacy)| + (if NeedsProducer(legacy, ts, CargoTasks(units, inv).value, inv) then 1 else 0)
                         + |ts| + (if AnyAmbiguous(units, inv) then 1 else |units|)
  {
    hide StableIdentity, Ambiguous, NeedsProducer, NativeBuildKey;
    var plan := AppendBuildTasks(legacy, ts, units, inv).value;
    var cargo := CargoTasks(units, inv).value;
    forall t <- plan ensures Expected(t, legacy, ts, units, inv) {
      if t in TsTasks(ts) {
        var i :| 0 <= i < |ts| && TsTasks(ts)[i] == t;
        assert IsTsBuild(t, ts[i]);
      } else if t in cargo && !AnyAmbiguous(units, inv) {
        var i :| 0 <= i < |cargo| && cargo[i] == t;
        assert IsCargoBuild(t, units[i]);
      }
    }
  }

  /** What the descriptor of every task of a plan announces, by the kind of task. */
  lemma AnnouncedAs(t: Task, u: TsUnit, v: CargoUnit)
    ensures Legacy(t) ==>
            var d := Describe(t);
            && (d.key, d.description, d.command, d.cwd) == (t.key, t.description, t.command, t.cwd)
            && d.identity == StableIdentity("legacy", t.key, if t.cwd.Some? then t.cwd.value else ".")
            && (d.native <==> NeedsNative(t.key)) && (d.nativeBuild <==> t.key == "native-build" || t.key == "native-linux-x64")
            && (d.nextest <==> RustTestKey(t.key)) && (d.nextest ==> d.rust)
    ensures var d := Describe(TsTask(u)); (d.native, d.nativeBuild, d.rust, d.nextest) == (u.nativeConsumer, u.nativeProducer, false, false)
    ensures var d := Describe(CargoTask(v)); (d.native, d.nativeBuild, d.rust, d.nextest) == (false, false, true, false)
    ensures var d := Describe(PRODUCER); (d.native, d.nativeBuild, d.rust, d.nextest) == (false, true, true, false)
    ensures var d := Describe(EMERGENCY); (d.native, d.nativeBuild, d.rust, d.nextest) == (false, false, true, false)
  {
    hide StableIdentity, NeedsNative, RustTestKey;
  }

  // ---------------------------------------------------------------- inventory paths

  /** The path with slashes for backslashes. */
  function WithSlashes(s: string): string { seq(|s|, i requires 0 <= i < |s| => if s[i] == '\\' then '/' else s[i]) }

  lemma {:induction false} SlashedIs(s: string)
    ensures Slashed(s) == WithSlashes(s)
  {
    if s != "" {
      SlashedIs(s[1..]);
      assert WithSlashes(s) == [WithSlashes(s)[0]] + WithSlashes(s[1..]);
    }
  }

  function Joined(parts: seq<string>): string {
    if parts == [] then "" else if |parts| == 1 then parts[0] else parts[0] + "/" + Joined(parts[1..])
  }

  predicate NoSlash(parts: seq<string>) { forall i :: 0 <= i < |parts| ==> '/' !in parts[i] }

  predicate EndsInDots(s: string) { |s| >= 2 && s[|s| - 2] == '.' && s[|s| - 1] == '.' }

  lemma {:induction false} PartsFirst(p: string, rest: string)
    requires '/' !in p
    ensures Parts(p + "/" + rest) == [p] + Parts(rest) && Parts(p) == [p]
  {
    var s := p + "/" + rest;
    if p == "" {
      assert s[0] == '/' && s[1..] == rest;
    } else {
      PartsFirst(p[1..], rest);
      assert s[0] == p[0] && s[1..] == p[1..] + "/" + rest;
      assert [s[0]] + p[1..] == p;
    }
  }

  lemma {:induction false} PartsOfJoined(parts: seq<string>)
    requires parts != [] && NoSlash(parts)
    ensures Parts(Joined(parts)) == parts
  {
    PartsFirst(parts[0], Joined(parts[1..]));
    if |parts| > 1 {
      PartsOfJoined(parts[1..]);
      assert parts == [parts[0]] + parts[1..];
    } else {
      assert parts == [parts[0]];
    }
  }

  lemma {:induction false} JoinedParts(s: string)
    ensures Joined(Parts(s)) == s && NoSlash(Parts(s))
  {
    if s != "" {
      var rest := Parts(s[1..]);
      JoinedParts(s[1..]);
      assert s == [s[0]] + s[1..];
      if s[0] == '/' {
        assert ([""] + rest)[1..] == rest;
        assert "" + "/" + Joined(rest) == s;
      } else {
        var all := [[s[0]] + rest[0]] + rest[1..];
        assert all[1..] == rest[1..];
        if |rest| > 1 { assert [s[0]] + (rest[0] + "/" + Joined(rest[1..])) == ([s[0]] + rest[0]) + "/" + Joined(rest[1..]); }
      }
    }
  }

  /** "../" stands at this index. */
  predicate DotsAt(s: string, i: int) { 0 <= i && i + 3 <= |s| && s[i] == '.' && s[i + 1] == '.' && s[i + 2] == '/' }

  lemma ContainsIs(s: string)
    ensures Contains(s, "../") <==> exists i :: DotsAt(s, i)
  {
    forall i | 0 <= i <= |s| ensures StartsWith(s[i..], "../") <==> DotsAt(s, i) {
      if i + 3 <= |s| { assert s[i..][..3] == [s[i], s[i + 1], s[i + 2]]; }
    }
  }

  lemma DotsInFirst(p: string, rest: string)
    requires '/' !in p
    ensures (exists i :: DotsAt(p + "/" + rest, i)) <==> EndsInDots(p) || exists i :: DotsAt(rest, i)
    ensures !exists i :: DotsAt(p, i)
  {
    var s, n := p + "/" + rest, |p| + 1;
    assert forall i :: 0 <= i < |p| ==> s[i] == p[i];
    assert forall i :: 0 <= i < |rest| ==> s[n + i] == rest[i];
    if i :| DotsAt(s, i) {
      if i >= n { assert DotsAt(rest, i - n); } else { assert i + 2 == |p|; }
    }
    if EndsInDots(p) { assert DotsAt(s, |p| - 2); }
    if i :| DotsAt(rest, i) { assert DotsAt(s, n + i); }
  }

  lemma {:induction false} DotsInParts(parts: seq<string>)
    requires parts != [] && NoSlash(parts)
    ensures (exists i :: DotsAt(Joined(parts), i)) <==> exists k :: 0 <= k < |parts| - 1 && EndsInDots(parts[k])
  {
    DotsInFirst(parts[0], Joined(parts[1..]));
    hide DotsAt, EndsInDots;
    if |parts| > 1 {
      var rest := parts[1..];
      DotsInParts(rest);
      assert forall k :: 0 <= k < |rest| ==> rest[k] == parts[k + 1];
      assert Joined(parts) == parts[0] + "/" + Joined(rest);
      if k :| 0 <= k < |parts| - 1 && EndsInDots(parts[k]) {
        if k > 0 { assert EndsInDots(rest[k - 1]); }
      }
      if k :| 0 <= k < |rest| - 1 && EndsInDots(rest[k]) { assert EndsInDots(parts[k + 1]); }
    }
  }

  /** Parts that are neither empty nor ".", and end in two dots only in last place. */
  predicate GoodParts(parts: seq<string>) {
    && parts != [] && NoSlash(parts)
    && (forall i :: 0 <= i < |parts| ==> parts[i] != "" && parts[i] != ".")
    && forall i :: 0 <= i < |parts| - 1 ==> !EndsInDots(parts[i])
  }

  function Cut(s: string): string { if |s| >= 2 && s[0] == '.' && s[1] == '/' then s[2..] else s }

  /** The normal form: slashes for backslashes, a leading "./" dropped; refused unless its parts are good. */
  lemma NormalizesExactly(value: string)
    ensures var n := Cut(WithSlashes(value));
            NormalizePath(value) == if exists parts :: GoodParts(parts) && n == Joined(parts) then Some(n) else None
  {
    SlashedIs(value);
    var slashed := WithSlashes(value);
    var n := Cut(slashed);
    assert StartsWith(slashed, "./") <==> |slashed| >= 2 && slashed[0] == '.' && slashed[1] == '/';
    JoinedParts(n);
    ContainsIs(n);
    DotsInParts(Parts(n));
    hide Contains, Joined, DotsAt, EndsInDots, Slashed;
    if NormalizePath(value).Some? {
      PartsGood(Parts(n));
    }
    if parts :| GoodParts(parts) && n == Joined(parts) {
      PartsOfJoined(parts);
      FirstPart(parts);
    }
  }

  lemma PartsGood(parts: seq<string>)
    requires parts != [] && NoSlash(parts) && !(exists part <- parts :: part == "" || part == ".")
    requires !exists k :: 0 <= k < |parts| - 1 && EndsInDots(parts[k])
    ensures GoodParts(parts)
  {
    hide EndsInDots;
    forall i | 0 <= i < |parts| ensures parts[i] != "" && parts[i] != "." { assert parts[i] in parts; }
  }

  lemma FirstPart(parts: seq<string>)
    requires GoodParts(parts)
    ensures Joined(parts) != "" && Joined(parts)[0] != '/'
    ensures !exists part <- parts :: part == "" || part == "."
  {
    assert parts[0] != "" && '/' !in parts[0];
    assert Joined(parts)[0] == parts[0][0];
  }
}
