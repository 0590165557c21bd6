/** Exactly which evidence the planner accepts, and which order it gives, in terms of configuration and records alone. */
module PlanAcceptance {
  import opened Outcomes
  import opened Versions
  import opened ReleaseRecords
  import opened SeqSets
  import opened DependencyOrder
  import opened PublicationPlan
  import opened ReleaseEvidence

  // ---------------------------------------------------------------- what a plan needs

  /** The last definition of the directory has this name. */
  predicate Defines(definitions: seq<Definition>, dir: string, name: string) {
    exists i :: 0 <= i < |definitions| && DefinesAt(definitions, dir, name, i)
  }

  predicate DefinesAt(definitions: seq<Definition>, dir: string, name: string, i: nat) {
    i < |definitions| && definitions[i] == Definition(dir, name) && forall j :: i < j < |definitions| ==> definitions[j].dir != dir
  }

  predicate Matches(cfg: Config, r: Record, dir: string) { r.dir == dir && Defines(cfg.definitions, dir, r.name) }

  predicate HasRecord(cfg: Config, records: seq<Record>, dir: string) { exists r <- records :: Matches(cfg, r, dir) }

  /** One record for each published package, in its directory and under its name, and no other. */
  predicate Complete(cfg: Config, records: seq<Record>) {
    && (forall i :: 0 <= i < |cfg.packages| ==> HasRecord(cfg, records, cfg.packages[i]))
    && (forall r <- records :: r.dir in cfg.packages && Matches(cfg, r, r.dir))
  }

  predicate OneVersion(records: seq<Record>) { forall r, s :: r in records && s in records ==> r.version == s.version }

  /** Every dependency is a public package pinned to the release and has a record. */
  predicate Settled(cfg: Config, records: seq<Record>, r: Record) {
    && StableVersion(r.version)
    && forall n <- r.dependencies :: n in NamesOf(cfg.definitions) && r.dependencies[n] == r.version && n in NameSet(records)
  }

  /** Each record of `c` depends on the next one, and the last on the first. */
  predicate RecordCycle(records: seq<Record>, c: seq<Record>) {
    && c != [] && (forall k :: 0 <= k < |c| ==> c[k] in records)
    && forall k :: 0 <= k < |c| ==> c[if k + 1 < |c| then k + 1 else 0].name in c[k].dependencies
  }

  predicate Publishable(cfg: Config, records: seq<Record>) {
    && multiset(cfg.packages) == multiset(DirsOf(cfg.definitions)) && Distinct(cfg.packages)
    && DistinctNames(records) && records != [] && Complete(cfg, records)
    && OneVersion(records) && forall r <- records :: Settled(cfg, records, r)
  }

  // ---------------------------------------------------------------- declared records

  lemma {:induction false} NameForIs(definitions: seq<Definition>, dir: string, name: string)
    ensures NameFor(definitions, dir) == Some(name) <==> Defines(definitions, dir, name)
    ensures NameFor(definitions, dir).None? ==> forall i :: 0 <= i < |definitions| ==> definitions[i].dir != dir
  {
    if definitions != [] {
      var init, last := definitions[..|definitions| - 1], definitions[|definitions| - 1];
      NameForIs(init, dir, name);
      if last.dir == dir {
        if last.name == name { assert DefinesAt(definitions, dir, name, |definitions| - 1); }
      } else {
        forall i: nat ensures DefinesAt(init, dir, name, i) <==> DefinesAt(definitions, dir, name, i) { DefinedEarlier(definitions, dir, name, i); }
      }
    }
  }

  lemma DefinedEarlier(definitions: seq<Definition>, dir: string, name: string, i: nat)
    requires definitions != [] && definitions[|definitions| - 1].dir != dir
    ensures DefinesAt(definitions[..|definitions| - 1], dir, name, i) <==> DefinesAt(definitions, dir, name, i)
  {
    var init := definitions[..|definitions| - 1];
    assert forall j :: 0 <= j < |init| ==> init[j] == definitions[j];
  }

  lemma SameName(records: seq<Record>, r: Record, s: Record)
    requires DistinctNames(records) && r in records && s in records && r.name == s.name
    ensures r == s
  {
    FindIsUnique(records, r);
    FindIsUnique(records, s);
  }

  /** A package that is not used yet has its record. */
  predicate Free(cfg: Config, records: seq<Record>, dir: string, used: set<string>) {
    exists r <- records :: Matches(cfg, r, dir) && r.name !in used
  }

  predicate AllFree(cfg: Config, records: seq<Record>, dirs: seq<string>, used: set<string>) {
    forall i :: 0 <= i < |dirs| ==> Free(cfg, records, dirs[i], used)
  }

  /** The first step of the declaration loop. */
  lemma FirstDeclared(cfg: Config, records: seq<Record>, dir: string, used: set<string>)
    requires DistinctNames(records)
    ensures var name := NameFor(cfg.definitions, dir);
            Free(cfg, records, dir, used) <==>
              && name.Some? && name.value !in used && Find(records, name.value).Some? && Find(records, name.value).value.dir == dir
  {
    var name := NameFor(cfg.definitions, dir);
    if name.Some? {
      NameForIs(cfg.definitions, dir, name.value);
      var found := Find(records, name.value);
      if found.Some? && found.value.dir == dir && name.value !in used { assert Matches(cfg, found.value, dir); }
    }
    if Free(cfg, records, dir, used) {
      var r :| r in records && Matches(cfg, r, dir) && r.name !in used;
      NameForIs(cfg.definitions, dir, r.name);
      FindIsUnique(records, r);
    }
  }

  lemma {:induction false} DeclaredExactly(cfg: Config, records: seq<Record>, dirs: seq<string>, used: set<string>)
    requires DistinctNames(records)
    ensures Declared(cfg, records, dirs, used).Ok? <==> Distinct(dirs) && AllFree(cfg, records, dirs, used)
    decreases |dirs|
  {
    hide Free, DistinctNames;
    if dirs != [] {
      var dir, rest := dirs[0], dirs[1..];
      FirstDeclared(cfg, records, dir, used);
      assert dirs == [dir] + rest;
      if Free(cfg, records, dir, used) {
        var name := NameFor(cfg.definitions, dir).value;
        DeclaredExactly(cfg, records, rest, used + {name});
        FreeAfter(cfg, records, dir, name, rest, used);
      }
    }
  }

  /** With distinct names, the rest is free of the first package's name exactly when it does not repeat its directory. */
  lemma FreeAfter(cfg: Config, records: seq<Record>, dir: string, name: string, rest: seq<string>, used: set<string>)
    requires DistinctNames(records) && NameFor(cfg.definitions, dir) == Some(name) && Free(cfg, records, dir, used)
    ensures Distinct([dir] + rest) && AllFree(cfg, records, [dir] + rest, used) <==> Distinct(rest) && AllFree(cfg, records, rest, used + {name})
  {
    hide DistinctNames, Matches;
    var all := [dir] + rest;
    assert all[0] == dir && all[1..] == rest && forall i :: 0 <= i < |rest| ==> all[i + 1] == rest[i];
    forall i | 0 <= i < |rest|
      ensures Free(cfg, records, rest[i], used + {name}) <==> rest[i] != dir && Free(cfg, records, rest[i], used)
    {
      FreeOf(cfg, records, dir, name, rest[i], used);
    }
  }

  lemma FreeOf(cfg: Config, records: seq<Record>, dir: string, name: string, other: string, used: set<string>)
    requires DistinctNames(records) && NameFor(cfg.definitions, dir) == Some(name) && Free(cfg, records, dir, used)
    ensures Free(cfg, records, other, used + {name}) <==> other != dir && Free(cfg, records, other, used)
  {
    hide DistinctNames, NameFor, Defines;
    var first :| first in records && Matches(cfg, first, dir) && first.name !in used;
    NameForIs(cfg.definitions, dir, first.name);
    if Free(cfg, records, other, used + {name}) {
      var r :| r in records && Matches(cfg, r, other) && r.name !in used + {name};
      NameForIs(cfg.definitions, other, r.name);
    }
    if other != dir && Free(cfg, records, other, used) {
      var r :| r in records && Matches(cfg, r, other) && r.name !in used;
      if r.name == name { SameName(records, r, first); }
    }
  }

  lemma {:induction false} EdgesExactly(cfg: Config, decl: seq<Record>, version: string, k: nat)
    requires k <= |decl|
    ensures CheckEdges(cfg, decl, version, k).None? <==>
            forall i :: k <= i < |decl| ==> AllPinned(cfg.definitions, decl[i].dependencies, version) && decl[i].dependencies.Keys <= NameSet(decl)
    decreases |decl| - k
  {
    hide AllPinned, NameSet;
    if k < |decl| { EdgesExactly(cfg, decl, version, k + 1); }
  }

  /** Once all packages are declared, the declared records are exactly the evidence if none is left over. */
  lemma DeclaredAre(cfg: Config, records: seq<Record>, decl: seq<Record>)
    requires DistinctNames(records) && Declared(cfg, records, cfg.packages, {}) == Ok(decl)
    ensures forall r <- decl :: r in records && r.dir in cfg.packages && Matches(cfg, r, r.dir)
    ensures NameSet(records) <= NameSet(decl) <==> forall r <- records :: r in decl
    ensures (forall r <- records :: r in decl) <==> Complete(cfg, records)
  {
    hide DistinctNames, Declared, Defines;
    DeclaredExactly(cfg, records, cfg.packages, {});
    forall r <- decl ensures r in records && r.dir in cfg.packages && Matches(cfg, r, r.dir) {
      var i :| 0 <= i < |decl| && decl[i] == r;
      DeclaredMatches(cfg, records, cfg.packages, {}, i);
    }
    forall r <- records | NameSet(records) <= NameSet(decl) ensures r in decl {
      assert r.name in NameSet(decl);
      var s :| s in decl && s.name == r.name;
      SameName(records, r, s);
    }
    if Complete(cfg, records) {
      forall r <- records ensures r in decl {
        var i :| 0 <= i < |cfg.packages| && cfg.packages[i] == r.dir;
        assert decl[i].dir == cfg.packages[i] && decl[i] in decl;
        NameForIs(cfg.definitions, r.dir, r.name);
        NameForIs(cfg.definitions, r.dir, decl[i].name);
        SameName(records, r, decl[i]);
      }
    }
    if forall r <- records :: r in decl {
      forall i | 0 <= i < |cfg.packages| ensures HasRecord(cfg, records, cfg.packages[i]) {
        assert decl[i] in decl && decl[i].dir == cfg.packages[i];
      }
    }
  }

  lemma {:induction false} DeclaredMatches(cfg: Config, records: seq<Record>, dirs: seq<string>, used: set<string>, i: nat)
    requires Declared(cfg, records, dirs, used).Ok? && i < |dirs|
    ensures Matches(cfg, Declared(cfg, records, dirs, used).value[i], dirs[i])
    decreases |dirs|
  {
    hide Declared, Matches, DistinctNames, NameSet;
    var head, name := DeclaredHead(cfg, records, dirs, used);
    if i > 0 { DeclaredMatches(cfg, records, dirs[1..], used + {name}, i - 1); }
  }

  lemma DeclaredHead(cfg: Config, records: seq<Record>, dirs: seq<string>, used: set<string>) returns (head: Record, name: string)
    requires Declared(cfg, records, dirs, used).Ok? && dirs != []
    ensures Matches(cfg, head, dirs[0])
    ensures var rest := Declared(cfg, records, dirs[1..], used + {name});
            rest.Ok? && Declared(cfg, records, dirs, used).value == [head] + rest.value
  {
    hide Defines, DistinctNames, NameFor, NameSet;
    name := NameFor(cfg.definitions, dirs[0]).value;
    head := Find(records, name).value;
    NameForIs(cfg.definitions, dirs[0], name);
  }

  // ---------------------------------------------------------------- acceptance

  /** The evidence and the declared records are the same records. */
  ghost predicate Same(records: seq<Record>, decl: seq<Record>) { forall r :: r in records <==> r in decl }

  lemma CompleteIsFree(cfg: Config, records: seq<Record>)
    requires Complete(cfg, records)
    ensures AllFree(cfg, records, cfg.packages, {})
  {
    forall i | 0 <= i < |cfg.packages| ensures Free(cfg, records, cfg.packages[i], {}) {
      var r :| r in records && Matches(cfg, r, cfg.packages[i]);
    }
  }

  lemma VersionsAgree(cfg: Config, records: seq<Record>, decl: seq<Record>)
    requires Same(records, decl) && decl != []
    ensures (exists r <- decl :: r.version != decl[0].version) <==> !OneVersion(records)
  {
    assert decl[0] in decl;
  }

  lemma SettledExactly(cfg: Config, records: seq<Record>, decl: seq<Record>)
    requires Same(records, decl) && decl != [] && OneVersion(records)
    ensures CheckEdges(cfg, decl, decl[0].version, 0).None? <==> forall r <- records :: Settled(cfg, records, r)
  {
    hide CheckEdges, StableVersion;
    var version := decl[0].version;
    EdgesExactly(cfg, decl, version, 0);
    assert decl[0] in decl && NameSet(decl) == NameSet(records);
    forall i | 0 <= i < |decl|
      ensures AllPinned(cfg.definitions, decl[i].dependencies, version) && decl[i].dependencies.Keys <= NameSet(decl) <==> Settled(cfg, records, decl[i])
    {
      assert decl[i] in decl;
      assert decl[i].version == version;
    }
  }

  lemma DeclareIs(cfg: Config, records: seq<Record>)
    ensures var d := Declared(cfg, records, cfg.packages, {});
            (Declare(cfg, records).Ok? <==>
               && multiset(cfg.packages) == multiset(DirsOf(cfg.definitions)) && DistinctNames(records) && d.Ok?
               && NameSet(records) <= NameSet(d.value) && d.value != []
               && !(exists r <- d.value :: r.version != d.value[0].version) && CheckEdges(cfg, d.value, d.value[0].version, 0).None?)
            && (Declare(cfg, records).Ok? ==> Declare(cfg, records) == d)
  {
    hide Declared, CheckEdges, DistinctNames, NameSet;
  }

  /** With every package declared, the other checks pass exactly on complete, uniform and settled evidence. */
  lemma ChecksExactly(cfg: Config, records: seq<Record>, decl: seq<Record>)
    requires DistinctNames(records) && Declared(cfg, records, cfg.packages, {}) == Ok(decl)
    ensures (&& NameSet(records) <= NameSet(decl) && decl != []
             && !(exists r <- decl :: r.version != decl[0].version) && CheckEdges(cfg, decl, decl[0].version, 0).None?)
       <==> records != [] && Complete(cfg, records) && OneVersion(records) && forall r <- records :: Settled(cfg, records, r)
    ensures Complete(cfg, records) ==> Same(records, decl)
  {
    DeclaredAre(cfg, records, decl);
    hide Declared, CheckEdges, DistinctNames, Complete, OneVersion, Settled, NameSet, Matches;
    if Complete(cfg, records) {
      SameEmpty(records, decl);
      if decl != [] {
        VersionsAgree(cfg, records, decl);
        if OneVersion(records) { SettledExactly(cfg, records, decl); }
      }
    }
  }

  lemma SameEmpty(records: seq<Record>, decl: seq<Record>)
    requires Same(records, decl)
    ensures records == [] <==> decl == []
  {
    if records != [] { assert records[0] in records; }
    if decl != [] { assert decl[0] in decl; }
  }

  /** The planner's checks before ordering pass exactly on publishable evidence. */
  lemma DeclareExactly(cfg: Config, records: seq<Record>)
    ensures Declare(cfg, records).Ok? <==> Publishable(cfg, records)
    ensures Publishable(cfg, records) ==> Same(records, Declare(cfg, records).value)
                                          && Declare(cfg, records) == Declared(cfg, records, cfg.packages, {})
  {
    hide Declare, Declared, CheckEdges, DistinctNames, Complete, OneVersion, Settled, NameSet, AllFree, Distinct, Same;
    DeclareIs(cfg, records);
    if DistinctNames(records) {
      DeclaredExactly(cfg, records, cfg.packages, {});
      if Complete(cfg, records) { CompleteIsFree(cfg, records); }
      var d := Declared(cfg, records, cfg.packages, {});
      if d.Ok? { ChecksExactly(cfg, records, d.value); }
    }
  }

  lemma CycleOfRecords(records: seq<Record>, decl: seq<Record>, c: seq<nat>)
    requires Same(records, decl) && Cycle(GraphOf(decl), c)
    ensures RecordCycle(records, Select(decl, c))
  {
    hide GraphOf;
    var s := Select(decl, c);
    forall k | 0 <= k < |s|
      ensures s[k] in records && s[if k + 1 < |s| then k + 1 else 0].name in s[k].dependencies
    {
      var n := if k + 1 < |c| then k + 1 else 0;
      assert c[n] in GraphOf(decl)[c[k]];
      assert decl[c[k]] in decl;
    }
  }

  function Position(decl: seq<Record>, r: Record): (k: nat)
    requires r in decl
    ensures k < |decl| && decl[k] == r
  {
    if decl[0] == r then 0 else Position(decl[1..], r) + 1
  }

  lemma CycleOfPositions(records: seq<Record>, decl: seq<Record>, c: seq<Record>)
    requires Same(records, decl) && RecordCycle(records, c)
    ensures HasCycle(GraphOf(decl))
  {
    hide GraphOf, Position;
    var p: seq<nat> := seq(|c|, k requires 0 <= k < |c| => Position(decl, c[k]));
    forall k | 0 <= k < |p| ensures p[k] < |decl| && p[if k + 1 < |p| then k + 1 else 0] in GraphOf(decl)[p[k]] {
      var n := if k + 1 < |c| then k + 1 else 0;
      assert c[n].name in c[k].dependencies;
      assert decl[p[n]] == c[n] && decl[p[k]] == c[k];
    }
    assert Cycle(GraphOf(decl), p);
  }

  /**
   Exactly the evidence that is planned: the publish configuration equals the public packages without repetition,
   each package has its record and there is no other, all share one stable version, every dependency is pinned
   to it and has a record, and no records depend on each other in a circle.
   */
  lemma PlanAcceptedExactly(cfg: Config, records: seq<Record>)
    ensures Plan(cfg, records).Ok? <==> Publishable(cfg, records) && !exists c :: RecordCycle(records, c)
  {
    hide Declare, Publishable, Same, Cycle, RecordCycle, GraphOf, Greedy;
    DeclareExactly(cfg, records);
    if Publishable(cfg, records) {
      var decl := Declare(cfg, records).value;
      CompleteExactlyWithoutCycle(GraphOf(decl));
      if HasCycle(GraphOf(decl)) {
        var c: seq<nat> :| Cycle(GraphOf(decl), c);
        CycleOfRecords(records, decl, c);
      }
      if c :| RecordCycle(records, c) { CycleOfPositions(records, decl, c); }
    }
  }

  // ---------------------------------------------------------------- the order

  /** `r` is not placed yet and all it depends on is. */
  predicate ReadyNext(records: seq<Record>, done: seq<Record>, r: Record) {
    r in records && r !in done && r.dependencies.Keys <= NameSet(done)
  }

  lemma {:induction false} GreedyPicks(g: Graph, placed: set<nat>, i: nat)
    requires i < |Greedy(g, placed)|
    ensures var order := Greedy(g, placed);
            forall j :: Ready(g, placed + Elements(order[..i]), j) ==> order[i] <= j
    decreases i
  {
    var k := FirstReady(g, placed, 0).value;
    var rest := Greedy(g, placed + {k});
    var order := [k] + rest;
    if i == 0 {
      assert placed + Elements(order[..0]) == placed;
    } else {
      GreedyPicks(g, placed + {k}, i - 1);
      assert order[..i] == [k] + rest[..i - 1];
      ElementsCons(k, rest[..i - 1]);
      assert placed + Elements(order[..i]) == placed + {k} + Elements(rest[..i - 1]);
    }
  }

  /** A record ready to be placed stands at a ready position. */
  lemma ReadyPosition(records: seq<Record>, decl: seq<Record>, order: seq<nat>, r: Record, k: nat)
    requires Same(records, decl) && DistinctNames(decl) && (forall j :: 0 <= j < |order| ==> order[j] < |decl|)
    requires ReadyNext(records, Select(decl, order), r) && k < |decl| && decl[k] == r
    ensures Ready(GraphOf(decl), {} + Elements(order), k)
  {
    hide GraphOf;
    var done := Select(decl, order);
    forall i | 0 <= i < |order| ensures order[i] != k {
      assert done[i] == decl[order[i]] && done[i] in done;
    }
    forall d <- GraphOf(decl)[k] ensures d in Elements(order) {
      assert decl[d].name in NameSet(done);
      var i :| 0 <= i < |done| && done[i].name == decl[d].name;
      assert decl[order[i]].name == decl[d].name;
    }
  }

  /**
   The order of a plan, step by step: among the records not placed yet whose dependencies all are, the one whose
   directory is configured first comes next.
   */
  lemma PlanPicksEarliest(cfg: Config, records: seq<Record>, i: nat, a: nat, r: Record, b: nat)
    requires Plan(cfg, records).Ok? && i < |Plan(cfg, records).value|
    requires a < |cfg.packages| && cfg.packages[a] == Plan(cfg, records).value[i].dir
    requires ReadyNext(records, Plan(cfg, records).value[..i], r) && b < |cfg.packages| && cfg.packages[b] == r.dir
    ensures a <= b
  {
    PlanAcceptedExactly(cfg, records);
    DeclareExactly(cfg, records);
    var decl, order := PlanOrder(cfg, records);
    hide *;
    DeclaredDirs(cfg, records, decl);
    PicksEarliest(cfg.packages, records, decl, order, i, a, r, b);
  }

  lemma PicksEarliest(dirs: seq<string>, records: seq<Record>, decl: seq<Record>, order: seq<nat>, i: nat, a: nat, r: Record, b: nat)
    requires Same(records, decl) && DistinctNames(decl) && order == Greedy(GraphOf(decl), {})
    requires |decl| == |dirs| && Distinct(dirs) && forall k :: 0 <= k < |decl| ==> decl[k].dir == dirs[k]
    requires i < |order| && a < |dirs| && dirs[a] == Select(decl, order)[i].dir
    requires ReadyNext(records, Select(decl, order)[..i], r) && b < |dirs| && dirs[b] == r.dir
    ensures a <= b
  {
    hide GraphOf, Greedy, Same, DistinctNames, ReadyNext;
    assert Select(decl, order)[..i] == Select(decl, order[..i]);
    var k := PositionOf(records, decl, r, Select(decl, order[..i]));
    assert dirs[order[i]] == dirs[a] && dirs[k] == dirs[b];
    ReadyPosition(records, decl, order[..i], r, k);
    GreedyPicks(GraphOf(decl), {}, i);
  }

  lemma PositionOf(records: seq<Record>, decl: seq<Record>, r: Record, done: seq<Record>) returns (k: nat)
    requires Same(records, decl) && ReadyNext(records, done, r)
    ensures k < |decl| && decl[k] == r
  {
    k := Position(decl, r);
  }

  lemma DeclaredDirs(cfg: Config, records: seq<Record>, decl: seq<Record>)
    requires Publishable(cfg, records) && Declared(cfg, records, cfg.packages, {}) == Ok(decl)
    ensures |decl| == |cfg.packages| && Distinct(cfg.packages) && forall k :: 0 <= k < |decl| ==> decl[k].dir == cfg.packages[k]
  {
    hide Declared;
  }

  /** A plan is the evidence in another order: the same records, each once, dependencies first. */
  lemma PlanIsPermutation(cfg: Config, records: seq<Record>)
    requires Plan(cfg, records).Ok?
    ensures var p := Plan(cfg, records).value;
            && DistinctNames(p) && (forall r :: r in p <==> r in records)
            && forall i :: 0 <= i < |p| ==> p[i].dependencies.Keys <= NameSet(p[..i])
  {
    hide Plan, NameSet;
    var p := Plan(cfg, records).value;
    PlanNames(cfg, records);
    PlanRecords(cfg, records);
    forall i | 0 <= i < |p| ensures p[i].dependencies.Keys <= NameSet(p[..i]) && p[i].name !in NameSet(p[..i]) {
      DependenciesComeFirst(cfg, records, i);
    }
    forall i, j | 0 <= i < j < |p| ensures p[i].name != p[j].name { NamedBefore(p, i, j); }
  }

  lemma NamedBefore(p: seq<Record>, i: nat, j: nat)
    requires i < j < |p|
    ensures p[i].name in NameSet(p[..j])
  {
    assert p[..j][i] == p[i];
  }

  // ---------------------------------------------------------------- validated evidence

  lemma {:induction false} DirForIs(definitions: seq<Definition>, name: string, i: nat)
    requires i < |definitions| && definitions[i].name == name && KeysDistinct(definitions, (d: Definition) => d.name)
    ensures DirFor(definitions, name) == Some(definitions[i].dir)
  {
    var n := |definitions| - 1;
    var key := (d: Definition) => d.name;
    if i < n {
      assert key(definitions[i]) != key(definitions[n]);
      var init := definitions[..n];
      assert forall a, b :: 0 <= a < b < n ==> key(init[a]) != key(init[b]);
      DirForIs(init, name, i);
    }
  }

  lemma DirsDistinct(definitions: seq<Definition>, packages: seq<string>)
    requires KeysDistinct(definitions, (d: Definition) => d.dir) && multiset(packages) == multiset(DirsOf(definitions))
    ensures Distinct(packages)
  {
    var dirs := DirsOf(definitions);
    var key := (d: Definition) => d.dir;
    forall i, j | 0 <= i < j < |dirs| ensures dirs[i] != dirs[j] { assert key(definitions[i]) != key(definitions[j]); }
    KeysDistinctPermute(dirs, packages, (d: string) => d);
    forall i, j | 0 <= i < j < |packages| ensures packages[i] != packages[j] {
      var same := (d: string) => d;
      assert same(packages[i]) != same(packages[j]);
    }
  }

  lemma RecordMatches(c: Contract, e: Expected, i: nat)
    requires ValidExpected(c, e) && i < |e.packages|
    requires KeysDistinct(c.definitions, (d: Definition) => d.name) && KeysDistinct(c.definitions, (d: Definition) => d.dir)
    ensures e.packages[i].dir == c.definitions[i].dir && Defines(c.definitions, c.definitions[i].dir, e.packages[i].name)
  {
    hide StableVersion, LowerHex, CheckDependencies;
    assert ValidRecord(c, e.packages[i]);
    DirForIs(c.definitions, c.definitions[i].name, i);
    var key := (d: Definition) => d.dir;
    assert forall j :: i < j < |c.definitions| ==> key(c.definitions[i]) != key(c.definitions[j]);
    assert DefinesAt(c.definitions, c.definitions[i].dir, e.packages[i].name, i);
  }

  lemma RecordSettled(c: Contract, e: Expected, packages: seq<string>, i: nat)
    requires ValidExpected(c, e) && i < |e.packages|
    ensures Settled(Config(c.definitions, packages), e.packages, e.packages[i])
  {
    hide StableVersion, LowerHex, DirFor;
    var r := e.packages[i];
    assert ValidRecord(c, r);
    forall n <- r.dependencies ensures n in NamesOf(c.definitions) && r.dependencies[n] == r.version && n in NameSet(e.packages) {
      assert Pinned(c.definitions, r.dependencies, r.version, n);
      var j :| 0 <= j < |c.definitions| && c.definitions[j].name == n;
      assert e.packages[j].name == n;
    }
  }

  /**
   Evidence that validates, for a contract without repeated names or directories and its publish configuration, can
   be refused by the planner for one reason only: its packages depend on each other in a circle.
   */
  lemma ValidEvidenceIsPlanned(c: Contract, e: Expected, packages: seq<string>)
    requires ValidExpected(c, e) && c.definitions != []
    requires KeysDistinct(c.definitions, (d: Definition) => d.name) && KeysDistinct(c.definitions, (d: Definition) => d.dir)
    requires multiset(packages) == multiset(DirsOf(c.definitions))
    ensures Plan(Config(c.definitions, packages), e.packages).Ok? <==> !exists cycle :: RecordCycle(e.packages, cycle)
  {
    var cfg := Config(c.definitions, packages);
    DirsDistinct(c.definitions, packages);
    SameElements(packages, DirsOf(c.definitions));
    ValidNames(c, e);
    SameSize(c, e);
    assert forall d :: d in packages <==> d in DirsOf(c.definitions);
    hide *;
    forall i | 0 <= i < |e.packages| ensures Settled(cfg, e.packages, e.packages[i]) && Matches(cfg, e.packages[i], c.definitions[i].dir) {
      RecordSettled(c, e, packages, i);
      RecordMatches(c, e, i);
    }
    AllRecords(c, e, cfg);
    PlanAcceptedExactly(cfg, e.packages);
    assert Publishable(cfg, e.packages) by { hide *; IsPublishable(c, e, cfg); }
  }

  lemma SameSize(c: Contract, e: Expected)
    requires ValidExpected(c, e)
    ensures |e.packages| == |c.definitions|
    ensures OneVersion(e.packages)
  {
    hide ValidRecord, StableVersion, LowerHex;
  }

  lemma IsPublishable(c: Contract, e: Expected, cfg: Config)
    requires cfg.definitions == c.definitions && multiset(cfg.packages) == multiset(DirsOf(c.definitions)) && Distinct(cfg.packages)
    requires DistinctNames(e.packages) && e.packages != [] && Complete(cfg, e.packages)
    requires OneVersion(e.packages) && forall r <- e.packages :: Settled(cfg, e.packages, r)
    ensures Publishable(cfg, e.packages)
  {
    hide DistinctNames, Complete, OneVersion, Settled, Distinct;
  }

  lemma ValidNames(c: Contract, e: Expected)
    requires ValidExpected(c, e) && KeysDistinct(c.definitions, (d: Definition) => d.name)
    ensures DistinctNames(e.packages)
  {
    var key := (d: Definition) => d.name;
    hide ValidRecord, StableVersion, LowerHex;
    forall i, j | 0 <= i < j < |e.packages| ensures e.packages[i].name != e.packages[j].name {
      assert key(c.definitions[i]) != key(c.definitions[j]);
    }
  }

  lemma AllRecords(c: Contract, e: Expected, cfg: Config)
    requires |e.packages| == |c.definitions| && cfg.definitions == c.definitions
    requires forall i :: 0 <= i < |e.packages| ==> Settled(cfg, e.packages, e.packages[i]) && Matches(cfg, e.packages[i], c.definitions[i].dir)
    requires forall d :: d in cfg.packages <==> d in DirsOf(c.definitions)
    ensures Complete(cfg, e.packages) && forall r <- e.packages :: Settled(cfg, e.packages, r)
  {
    hide Settled, Defines;
    forall k | 0 <= k < |cfg.packages| ensures HasRecord(cfg, e.packages, cfg.packages[k]) {
      assert cfg.packages[k] in DirsOf(c.definitions);
      var i :| 0 <= i < |c.definitions| && DirsOf(c.definitions)[i] == cfg.packages[k];
      assert e.packages[i] in e.packages;
    }
    forall r <- e.packages ensures r.dir in cfg.packages && Matches(cfg, r, r.dir) && Settled(cfg, e.packages, r) {
      var i :| 0 <= i < |e.packages| && e.packages[i] == r;
      assert DirsOf(c.definitions)[i] == r.dir;
    }
  }

  /** A record is that of its definition, at the release version, with consistent digests and pinned public dependencies. */
  predicate RecordFits(c: Contract, d: Definition, version: string, r: Record) {
    && r.name == d.name && r.dir == d.dir && r.version == version
    && LowerHex(r.tarballSha512, 128) && r.expectedSri == c.sriOf(r.tarballSha512) && LowerHex(r.manifestSha256, 64)
    && r.unpackedSize <= 9007199254740991 && r.fileCount <= 9007199254740991
    && forall n <- r.dependencies :: n in NamesOf(c.definitions) && r.dependencies[n] == version
  }

  /** For a contract without repeated names, evidence validates exactly when it fits the contract definition by definition. */
  lemma ValidExactly(c: Contract, e: Expected)
    requires KeysDistinct(c.definitions, (d: Definition) => d.name)
    ensures ValidExpected(c, e) <==>
            && LowerHex(e.sourceCommit, 40) && StableVersion(e.releaseVersion) && |e.packages| == |c.definitions|
            && forall i :: 0 <= i < |e.packages| ==> RecordFits(c, c.definitions[i], e.releaseVersion, e.packages[i])
  {
    hide StableVersion, LowerHex;
    if |e.packages| == |c.definitions| {
      forall i | 0 <= i < |e.packages|
        ensures RecordFits(c, c.definitions[i], e.releaseVersion, e.packages[i]) && StableVersion(e.releaseVersion)
                <==> ValidRecord(c, e.packages[i]) && e.packages[i].name == c.definitions[i].name && e.packages[i].version == e.releaseVersion
      {
        DirForIs(c.definitions, c.definitions[i].name, i);
        PinnedExactly(c.definitions, e.packages[i]);
        hide CheckDependencies, DirFor, NamesOf;
      }
      hide RecordFits, ValidRecord;
    }
  }

  lemma PinnedExactly(definitions: seq<Definition>, r: Record)
    ensures CheckDependencies(definitions, r.dependencies, r.version).None? <==>
            StableVersion(r.version) && forall n <- r.dependencies :: n in NamesOf(definitions) && r.dependencies[n] == r.version
  {
    hide StableVersion, CheckDependencies;
    forall n <- r.dependencies ensures Pinned(definitions, r.dependencies, r.version, n) <==> n in NamesOf(definitions) && r.dependencies[n] == r.version { }
  }
}
