/**
 The publication plan: evidence records are matched with the declared packages, then ordered by
 Kahn's algorithm with the declaration order as priority.
 */
module PublicationPlan {
  import opened Outcomes
  import opened ReleaseRecords
  import opened SeqSets
  import opened DependencyOrder

  datatype Config = Config(definitions: seq<Definition>, packages: seq<string>)

  datatype PlanError =
    | BadConfiguration | DuplicateRecord | NoDefinition | DuplicateDeclaration | MissingRecord | WrongDirectory
    | UnexpectedRecord | NoRecords | MixedVersions | BadDependency(error: DependencyError) | AbsentDependency
    | DependencyCycle

  // ---------------------------------------------------------------- declared records

  function DirsOf(definitions: seq<Definition>): (r: seq<string>)
    ensures |r| == |definitions| && forall i :: 0 <= i < |r| ==> r[i] == definitions[i].dir
  {
    seq(|definitions|, i requires 0 <= i < |definitions| => definitions[i].dir)
  }

  predicate DistinctNames(records: seq<Record>) {
    forall i, j :: 0 <= i < j < |records| ==> records[i].name != records[j].name
  }

  function NameSet(records: seq<Record>): set<string> { set r <- records :: r.name }

  /** Name declared for a directory; a later definition of the same directory replaces an earlier one. */
  function NameFor(definitions: seq<Definition>, dir: string): Option<string> {
    if definitions == [] then None
    else
      var last := definitions[|definitions| - 1];
      if last.dir == dir then Some(last.name) else NameFor(definitions[..|definitions| - 1], dir)
  }

  function Find(records: seq<Record>, name: string): (r: Option<Record>)
    ensures r.Some? <==> name in NameSet(records)
    ensures r.Some? ==> r.value in records && r.value.name == name
  {
    if records == [] then None
    else if records[0].name == name then Some(records[0])
    else
      assert records == [records[0]] + records[1..];
      Find(records[1..], name)
  }

  /** Records of the declared packages in declaration order. */
  function Declared(cfg: Config, records: seq<Record>, dirs: seq<string>, used: set<string>)
    : (r: Result<seq<Record>, PlanError>)
    ensures r.Ok? ==> DistinctNames(r.value) && NameSet(r.value) !! used
    ensures r.Ok? ==> |r.value| == |dirs| && forall i :: 0 <= i < |dirs| ==> r.value[i].dir == dirs[i] && r.value[i] in records
  {
    if dirs == [] then Ok([])
    else
      var name := NameFor(cfg.definitions, dirs[0]);
      if name.None? then Err(NoDefinition)
      else if name.value in used then Err(DuplicateDeclaration)
      else
        var record := Find(records, name.value);
        if record.None? then Err(MissingRecord)
        else if record.value.dir != dirs[0] then Err(WrongDirectory)
        else
          var rest :- Declared(cfg, records, dirs[1..], used + {name.value});
          assert forall i :: 0 <= i < |rest| ==> rest[i].name in NameSet(rest);
          Ok([record.value] + rest)
  }

  function CheckEdges(cfg: Config, decl: seq<Record>, version: string, k: nat): (r: Option<PlanError>)
    requires k <= |decl|
    ensures r.None? ==> forall i :: k <= i < |decl| ==> decl[i].dependencies.Keys <= NameSet(decl)
    decreases |decl| - k
  {
    if k == |decl| then None
    else
      var bad := CheckDependencies(cfg.definitions, decl[k].dependencies, version);
      if bad.Some? then Some(BadDependency(bad.value))
      else if !(decl[k].dependencies.Keys <= NameSet(decl)) then Some(AbsentDependency)
      else CheckEdges(cfg, decl, version, k + 1)
  }

  /** Every check the planner makes before ordering. */
  function Declare(cfg: Config, records: seq<Record>): (r: Result<seq<Record>, PlanError>)
    ensures r.Ok? ==> DistinctNames(r.value) && DependenciesDeclared(r.value)
    ensures r.Ok? ==> |r.value| > 0 && NameSet(records) == NameSet(r.value)
  {
    if multiset(cfg.packages) != multiset(DirsOf(cfg.definitions)) then Err(BadConfiguration)
    else if !DistinctNames(records) then Err(DuplicateRecord)
    else
      var decl :- Declared(cfg, records, cfg.packages, {});
      if !(NameSet(records) <= NameSet(decl)) then Err(UnexpectedRecord)
      else if decl == [] then Err(NoRecords)
      else if exists r <- decl :: r.version != decl[0].version then Err(MixedVersions)
      else
        var bad := CheckEdges(cfg, decl, decl[0].version, 0);
        if bad.Some? then Err(bad.value) else Ok(decl)
  }

  predicate DependenciesDeclared(decl: seq<Record>) {
    forall i :: 0 <= i < |decl| ==> decl[i].dependencies.Keys <= NameSet(decl)
  }

  // ---------------------------------------------------------------- the order

  /** Edges between declaration positions. */
  function GraphOf(decl: seq<Record>): (g: Graph)
    ensures |g| == |decl| && Closed(g)
    ensures forall i, j :: 0 <= i < |decl| && 0 <= j < |decl| ==> (j in g[i] <==> decl[j].name in decl[i].dependencies)
  {
    seq(|decl|, i requires 0 <= i < |decl| => set j: nat | j < |decl| && decl[j].name in decl[i].dependencies)
  }

  function Select(decl: seq<Record>, order: seq<nat>): (r: seq<Record>)
    requires forall i :: 0 <= i < |order| ==> order[i] < |decl|
    ensures |r| == |order| && forall i :: 0 <= i < |order| ==> r[i] == decl[order[i]]
  {
    seq(|order|, i requires 0 <= i < |order| => decl[order[i]])
  }

  /** `planExpectedEvidencePublication`. */
  function Plan(cfg: Config, records: seq<Record>): Result<seq<Record>, PlanError> {
    var decl :- Declare(cfg, records);
    var order := Greedy(GraphOf(decl), {});
    if |order| != |decl| then Err(DependencyCycle) else Ok(Select(decl, order))
  }

  /** The planner as it runs, with the tables of Kahn's algorithm. */
  method PlanPublication(cfg: Config, records: seq<Record>) returns (r: Result<seq<Record>, PlanError>)
    ensures r == Plan(cfg, records)
  {
    hide Declare, Greedy;
    var decl :- Declare(cfg, records);
    var order := Kahn(GraphOf(decl));
    if |order| != |decl| { return Err(DependencyCycle); }
    return Ok(Select(decl, order));
  }

  // ---------------------------------------------------------------- main results

  /** Once the other checks pass, the plan is refused exactly when the dependency graph has a cycle. */
  lemma RefusedExactlyOnCycle(cfg: Config, records: seq<Record>)
    requires Declare(cfg, records).Ok?
    ensures Plan(cfg, records) == Err(DependencyCycle) <==> HasCycle(GraphOf(Declare(cfg, records).value))
  {
    hide Declare, Greedy, HasCycle;
    CompleteExactlyWithoutCycle(GraphOf(Declare(cfg, records).value));
  }

  /**
   The plan lists every declared record once, each after all its dependencies, and it is the
   lexicographically least such order by declaration position.
   */
  lemma PlanIsLeastTopological(cfg: Config, records: seq<Record>)
    requires Plan(cfg, records).Ok?
    ensures var decl := Declare(cfg, records).value;
            var g := GraphOf(decl);
            var order := Greedy(g, {});
            && Plan(cfg, records).value == Select(decl, order)
            && Topological(g, {}, order) && Covers(g, {}, order)
            && (forall t | Topological(g, {}, t) && Covers(g, {}, t) :: LexLeq(order, t))
  {
    var decl := Declare(cfg, records).value;
    var g := GraphOf(decl);
    hide Declare, Greedy, Topological, Covers, LexLeq;
    GreedyTopological(g, {});
    GreedyFull(g);
    forall t | Topological(g, {}, t) && Covers(g, {}, t) ensures LexLeq(Greedy(g, {}), t) {
      GreedyIsLeast(g, {}, t);
    }
  }

  /** In a plan, every dependency of a package is an earlier package, and no package appears twice. */
  lemma DependenciesComeFirst(cfg: Config, records: seq<Record>, i: nat)
    requires Plan(cfg, records).Ok? && i < |Plan(cfg, records).value|
    ensures var plan := Plan(cfg, records).value;
            plan[i].dependencies.Keys <= NameSet(plan[..i]) && plan[i].name !in NameSet(plan[..i])
  {
    hide Declare, Greedy, Topological, GraphOf, Plan, Select, NameSet, Elements, Distinct;
    var decl, order := PlanOrder(cfg, records);
    TopologicalDistinct(GraphOf(decl), {}, order);
    TopologicalDependencies(GraphOf(decl), {}, order, i);
    assert Plan(cfg, records).value[..i] == Select(decl, order[..i]);
    SelectFacts(decl, order, i);
  }

  /** The pieces a successful plan is made of. */
  lemma PlanOrder(cfg: Config, records: seq<Record>) returns (decl: seq<Record>, order: seq<nat>)
    requires Plan(cfg, records).Ok?
    ensures Declare(cfg, records) == Ok(decl) && DistinctNames(decl) && DependenciesDeclared(decl)
    ensures order == Greedy(GraphOf(decl), {}) && |order| == |decl| && Topological(GraphOf(decl), {}, order)
    ensures Plan(cfg, records).value == Select(decl, order)
  {
    decl := Declare(cfg, records).value;
    order := Greedy(GraphOf(decl), {});
    hide Declare, Greedy, Topological;
    GreedyTopological(GraphOf(decl), {});
  }

  lemma SelectFacts(decl: seq<Record>, order: seq<nat>, i: nat)
    requires DistinctNames(decl) && DependenciesDeclared(decl) && Distinct(order)
    requires forall j :: 0 <= j < |order| ==> order[j] < |decl|
    requires i < |order| && GraphOf(decl)[order[i]] <= {} + Elements(order[..i])
    ensures decl[order[i]].dependencies.Keys <= NameSet(Select(decl, order[..i]))
    ensures decl[order[i]].name !in NameSet(Select(decl, order[..i]))
  {
    var head := Select(decl, order[..i]);
    forall n <- decl[order[i]].dependencies ensures n in NameSet(head) {
      assert n in NameSet(decl);
      var j :| 0 <= j < |decl| && decl[j].name == n;
      assert j in order[..i];
      var k :| 0 <= k < i && order[..i][k] == j;
      assert head[k] in head;
    }
  }

  /** A plan names exactly the packages of the evidence. */
  lemma PlanNames(cfg: Config, records: seq<Record>)
    requires Plan(cfg, records).Ok?
    ensures NameSet(Plan(cfg, records).value) == NameSet(records)
    ensures forall r <- Plan(cfg, records).value :: r in records
  {
    hide Declare, Greedy, Topological, GraphOf, Plan, Select, NameSet, Elements, Below;
    var decl, order := PlanOrder(cfg, records);
    DeclareFacts(cfg, records);
    GreedyFull(GraphOf(decl));
    assert {} + Elements(order) == Elements(order);
    SelectCovers(decl, order);
  }

  lemma SelectCovers(decl: seq<Record>, order: seq<nat>)
    requires (forall j :: 0 <= j < |order| ==> order[j] < |decl|) && Below(|decl|) <= Elements(order)
    ensures NameSet(Select(decl, order)) == NameSet(decl) && forall r <- Select(decl, order) :: r in decl
  {
    SelectMembers(decl, order);
    hide Select, Elements, Below;
  }

  lemma SelectMembers(decl: seq<Record>, order: seq<nat>)
    requires (forall j :: 0 <= j < |order| ==> order[j] < |decl|) && Below(|decl|) <= Elements(order)
    ensures (forall r <- decl :: r in Select(decl, order)) && forall r <- Select(decl, order) :: r in decl
  {
    var plan := Select(decl, order);
    forall i: nat | i < |decl| ensures decl[i] in plan {
      assert i in Below(|decl|);
      assert i in Elements(order);
      var k :| 0 <= k < |order| && order[k] == i;
      assert plan[k] == decl[i];
    }
  }

  /** Every evidence record is in the plan. */
  lemma PlanRecords(cfg: Config, records: seq<Record>)
    requires Plan(cfg, records).Ok?
    ensures forall r <- records :: r in Plan(cfg, records).value
  {
    PlanNames(cfg, records);
    RecordsDistinct(cfg, records);
    hide Plan, DistinctNames;
    var plan := Plan(cfg, records).value;
    forall r <- records ensures r in plan {
      assert r.name in NameSet(plan);
      var p :| p in plan && p.name == r.name;
      FindIsUnique(records, r);
      FindIsUnique(records, p);
    }
  }

  lemma RecordsDistinct(cfg: Config, records: seq<Record>)
    requires Plan(cfg, records).Ok?
    ensures DistinctNames(records)
  {
  }

  lemma DeclareFacts(cfg: Config, records: seq<Record>)
    requires Declare(cfg, records).Ok?
    ensures var decl := Declare(cfg, records).value;
            NameSet(records) == NameSet(decl) && forall r <- decl :: r in records
  {
  }

  // ---------------------------------------------------------------- independence of record order

  lemma {:induction false} FindIsUnique(records: seq<Record>, r: Record)
    requires DistinctNames(records) && r in records
    ensures Find(records, r.name) == Some(r)
  {
    if records[0] != r {
      assert records == [records[0]] + records[1..];
      FindIsUnique(records[1..], r);
    }
  }

  lemma SameFind(a: seq<Record>, b: seq<Record>, name: string)
    requires DistinctNames(a) && DistinctNames(b) && forall r :: r in a <==> r in b
    ensures Find(a, name) == Find(b, name)
  {
    if Find(a, name).Some? { FindIsUnique(b, Find(a, name).value); }
    if Find(b, name).Some? { FindIsUnique(a, Find(b, name).value); }
  }

  lemma {:induction false} SameDeclared(cfg: Config, a: seq<Record>, b: seq<Record>, dirs: seq<string>, used: set<string>)
    requires DistinctNames(a) && DistinctNames(b) && forall r :: r in a <==> r in b
    ensures Declared(cfg, a, dirs, used) == Declared(cfg, b, dirs, used)
    decreases |dirs|
  {
    if dirs != [] {
      var name := NameFor(cfg.definitions, dirs[0]);
      if name.Some? {
        SameFind(a, b, name.value);
        SameDeclared(cfg, a, b, dirs[1..], used + {name.value});
      }
    }
  }

  /** The plan, or the kind of refusal, does not depend on the order of the evidence records. */
  lemma PlanIgnoresRecordOrder(cfg: Config, a: seq<Record>, b: seq<Record>)
    requires multiset(a) == multiset(b)
    ensures Plan(cfg, a) == Plan(cfg, b)
  {
    hide Plan, Declare;
    SameElements(a, b);
    assert NameSet(a) == NameSet(b);
    DistinctNamesPermute(a, b);
    DistinctNamesPermute(b, a);
    SameDeclare(cfg, a, b);
    SamePlan(cfg, a, b);
  }

  lemma DistinctNamesPermute(a: seq<Record>, b: seq<Record>)
    requires multiset(a) == multiset(b)
    ensures DistinctNames(a) ==> DistinctNames(b)
  {
    if DistinctNames(a) { KeysDistinctPermute(a, b, (r: Record) => r.name); }
  }

  lemma SameDeclare(cfg: Config, a: seq<Record>, b: seq<Record>)
    requires (forall r :: r in a <==> r in b) && (DistinctNames(a) <==> DistinctNames(b)) && NameSet(a) == NameSet(b)
    ensures Declare(cfg, a) == Declare(cfg, b)
  {
    hide CheckEdges, DistinctNames, NameSet;
    if DistinctNames(a) { SameDeclared(cfg, a, b, cfg.packages, {}); }
  }

  lemma SamePlan(cfg: Config, a: seq<Record>, b: seq<Record>)
    requires Declare(cfg, a) == Declare(cfg, b)
    ensures Plan(cfg, a) == Plan(cfg, b)
  {
  }
}
