/**
 The two worklist closures of the affected-path planner: workspace packages that depend on a selected
 package, and Cargo units over reverse path dependencies. Both return the least closed set.
 */
module DependentClosure {
  import opened Outcomes
  import opened SeqSets

  type Name = string

  /** For a name, the names that a worklist adds after it. */
  type Successors = Name -> set<Name>

  predicate Closed(s: set<Name>, next: Successors) { forall m <- s :: next(m) <= s }

  /** The smallest closed set that contains the start. */
  ghost predicate LeastClosed(r: set<Name>, start: set<Name>, next: Successors) {
    start <= r && Closed(r, next) && forall t :: start <= t && Closed(t, next) ==> r <= t
  }

  /** Between two rounds: everything selected is forced, and only queued names still have work to do. */
  ghost predicate Working(selected: set<Name>, queue: seq<Name>, start: set<Name>, next: Successors) {
    && start <= selected && Elements(queue) <= selected
    && (forall m <- selected :: m in queue || next(m) <= selected)
    && (forall t :: start <= t && Closed(t, next) ==> selected <= t)
  }

  lemma WorkStarts(queue: seq<Name>, start: set<Name>, next: Successors)
    requires Elements(queue) == start
    ensures Working(start, queue, start, next)
  {
    assert forall m <- start :: m in Elements(queue);
  }

  lemma WorkEnds(selected: set<Name>, start: set<Name>, next: Successors)
    requires Working(selected, [], start, next)
    ensures LeastClosed(selected, start, next)
  {
  }

  lemma WorkAdvances(selected: set<Name>, queue: seq<Name>, added: seq<Name>, start: set<Name>, next: Successors)
    requires queue != [] && Working(selected, queue, start, next) && Elements(added) == next(queue[0]) - selected
    ensures Working(selected + Elements(added), queue[1..] + added, start, next)
  {
    var wider, rest := selected + Elements(added), queue[1..] + added;
    assert queue[0] in Elements(queue);
    forall m | m in wider ensures m in rest || next(m) <= wider {
      if m in Elements(added) {
        assert m in added;
      } else if m in queue {
        if m != queue[0] { assert m in queue[1..]; }
      }
    }
    forall t | start <= t && Closed(t, next) ensures wider <= t {
      assert selected <= t && queue[0] in t;
      assert next(queue[0]) <= t;
    }
    forall m | m in Elements(rest) ensures m in wider {
      if m in queue[1..] { assert m in Elements(queue); }
    }
  }

  // ---------------------------------------------------------------- workspace packages

  /** `dependencies` holds one table per manifest scope that is present. */
  datatype Package = Package(name: Name, dir: string, dependencies: seq<map<Name, string>>)

  function NameSet(packages: seq<Package>): set<Name> { set p <- packages :: p.name }

  predicate StartsWith(s: string, prefix: string) { |prefix| <= |s| && s[..|prefix|] == prefix }

  /** One scope declares the name with a non-empty version that names the workspace, or names a workspace member. */
  predicate Declares(scope: map<Name, string>, dependency: Name, workspace: set<Name>) {
    dependency in scope && scope[dependency] != "" && (StartsWith(scope[dependency], "workspace:") || dependency in workspace)
  }

  predicate DependsOn(p: Package, dependency: Name, workspace: set<Name>) {
    exists scope <- p.dependencies :: Declares(scope, dependency, workspace)
  }

  /** `dependsOnWorkspace`. */
  method DependsOnWorkspace(p: Package, dependency: Name, workspace: set<Name>) returns (r: bool)
    ensures r == DependsOn(p, dependency, workspace)
  {
    for i := 0 to |p.dependencies|
      invariant forall j :: 0 <= j < i ==> !Declares(p.dependencies[j], dependency, workspace)
    {
      if Declares(p.dependencies[i], dependency, workspace) { return true; }
    }
    return false;
  }

  /** Names of the packages that depend on `m`; an empty name is skipped by the worklist. */
  function Dependents(packages: seq<Package>, workspace: set<Name>, m: Name): set<Name> {
    if m == "" then {} else set p <- packages | DependsOn(p, m, workspace) :: p.name
  }

  function DependentsOf(packages: seq<Package>): Successors {
    m => Dependents(packages, NameSet(packages), m)
  }

  /** Every table entry is filed under its own name and was offered by one of the two lists. */
  predicate Filed(selected: map<Name, Package>, touched: seq<Package>, packages: seq<Package>) {
    forall m <- selected :: selected[m].name == m && (selected[m] in touched || selected[m] in packages)
  }

  /** One pass over the packages for the name at the head of the queue. */
  method AddDependents(selected0: map<Name, Package>, touched: seq<Package>, packages: seq<Package>, current: Name)
    returns (selected: map<Name, Package>, added: seq<Name>)
    requires Filed(selected0, touched, packages) && current != ""
    ensures Filed(selected, touched, packages)
    ensures Scanned(selected0.Keys, selected.Keys, added, DependentsOf(packages)(current))
  {
    hide DependsOn, Dependents, NameSet, Elements, Filed;
    var workspace := NameSet(packages);
    selected, added := selected0, [];
    ScanStarts(packages, workspace, current, selected0.Keys);
    for i := 0 to |packages|
      invariant Filed(selected, touched, packages)
      invariant Scanned(selected0.Keys, selected.Keys, added, Dependents(packages[..i], workspace, current))
    {
      var candidate := packages[i];
      DependentsStep(packages, i, workspace, current);
      ScanStep(selected0.Keys, selected.Keys, added, Dependents(packages[..i], workspace, current), candidate.name);
      if candidate.name in selected { continue; }
      var depends := DependsOnWorkspace(candidate, current, workspace);
      if depends {
        FiledPut(selected, touched, packages, candidate);
        selected := selected[candidate.name := candidate];
        added := added + [candidate.name];
      }
    }
    assert packages[..|packages|] == packages;
  }

  /** The names added so far are the dependents seen so far that were not selected before. */
  predicate Scanned(before: set<Name>, selected: set<Name>, added: seq<Name>, seen: set<Name>) {
    Elements(added) == seen - before && selected == before + Elements(added)
  }

  lemma ScanStarts(packages: seq<Package>, workspace: set<Name>, current: Name, before: set<Name>)
    ensures Scanned(before, before, [], Dependents(packages[..0], workspace, current))
  {
  }

  lemma ScanStep(before: set<Name>, selected: set<Name>, added: seq<Name>, seen: set<Name>, m: Name)
    requires Scanned(before, selected, added, seen)
    ensures Scanned(before, selected, added, seen + {})
    ensures m in selected ==> Scanned(before, selected, added, seen + {m})
    ensures m !in selected ==> Scanned(before, selected + {m}, added + [m], seen + {m})
  {
    ElementsPush(added, m);
    assert seen + {} == seen;
  }

  lemma FiledPut(selected: map<Name, Package>, touched: seq<Package>, packages: seq<Package>, p: Package)
    requires Filed(selected, touched, packages) && p in packages
    ensures Filed(selected[p.name := p], touched, packages)
  {
  }

  lemma DependentsStep(packages: seq<Package>, i: nat, workspace: set<Name>, current: Name)
    requires i < |packages| && current != ""
    ensures Dependents(packages[..i + 1], workspace, current)
         == Dependents(packages[..i], workspace, current) + if DependsOn(packages[i], current, workspace) then {packages[i].name} else {}
  {
    hide DependsOn;
    assert packages[..i + 1] == packages[..i] + [packages[i]];
  }

  lemma ElementsPush<T>(s: seq<T>, x: T)
    ensures Elements(s + [x]) == Elements(s) + {x}
  {
  }

  lemma Shrinks(universe: set<Name>, before: set<Name>, after: set<Name>, added: seq<Name>)
    requires added != [] && after == before + Elements(added) && Elements(added) <= universe - before
    ensures |universe - after| < |universe - before|
  {
    assert added[0] in Elements(added);
    SubsetCount(universe - after, universe - before);
  }

  /** JavaScript's `new Map(list.map(p => [p.name, p]))`: later entries win. */
  function Table(list: seq<Package>): (r: map<Name, Package>)
    ensures r.Keys == NameSet(list) && forall m <- r :: r[m].name == m && r[m] in list
  {
    if list == [] then map[]
    else
      assert list == list[..|list| - 1] + [list[|list| - 1]];
      Table(list[..|list| - 1])[list[|list| - 1].name := list[|list| - 1]]
  }

  function Names(list: seq<Package>): (r: seq<Name>)
    ensures Elements(r) == NameSet(list)
  {
    if list == [] then []
    else
      var init, last := list[..|list| - 1], list[|list| - 1];
      assert list == init + [last];
      ElementsPush(Names(init), last.name);
      Names(init) + [last.name]
  }

  /**
   `expandWithDependents`, for every graph, cycles and repeated names included: the names of the result
   are the least set that contains the touched names and every dependent of a member.
   */
  method ExpandWithDependents(touched: seq<Package>, packages: seq<Package>) returns (selected: map<Name, Package>)
    ensures Filed(selected, touched, packages)
    ensures LeastClosed(selected.Keys, NameSet(touched), DependentsOf(packages))
  {
    hide Working, LeastClosed, Filed, NameSet, Dependents, DependentsOf, Elements;
    selected := Table(touched);
    TableFiled(touched, packages);
    var queue := Names(touched);
    ghost var start, next := NameSet(touched), DependentsOf(packages);
    WorkStarts(queue, start, next);
    while queue != []
      invariant Filed(selected, touched, packages) && Working(selected.Keys, queue, start, next)
      decreases |NameSet(packages) - selected.Keys|, |queue|
    {
      var current := queue[0];
      var wider, added := selected, [];
      if current != "" {
        wider, added := AddDependents(selected, touched, packages, current);
      } else {
        NoDependents(packages, selected.Keys);
      }
      RoundAdvances(packages, selected.Keys, wider.Keys, queue, added, start);
      selected, queue := wider, queue[1..] + added;
    }
    WorkEnds(selected.Keys, start, next);
  }

  lemma TableFiled(touched: seq<Package>, packages: seq<Package>)
    ensures Filed(Table(touched), touched, packages)
  {
  }

  /** One round keeps the invariant and either selects a new name or shortens the queue. */
  lemma RoundAdvances(packages: seq<Package>, before: set<Name>, after: set<Name>, queue: seq<Name>, added: seq<Name>, start: set<Name>)
    requires queue != [] && Working(before, queue, start, DependentsOf(packages))
    requires Scanned(before, after, added, DependentsOf(packages)(queue[0]))
    ensures Working(after, queue[1..] + added, start, DependentsOf(packages))
    ensures if added == [] then after == before else |NameSet(packages) - after| < |NameSet(packages) - before|
  {
    WorkAdvances(before, queue, added, start, DependentsOf(packages));
    hide Working;
    if added != [] {
      assert DependentsOf(packages)(queue[0]) <= NameSet(packages);
      Shrinks(NameSet(packages), before, after, added);
    }
  }

  lemma NoDependents(packages: seq<Package>, before: set<Name>)
    ensures Scanned(before, before, [], DependentsOf(packages)(""))
  {
  }

  /** The order the result is sorted by: any total preorder on directories. */
  ghost predicate Preorder(leq: (string, string) -> bool) {
    (forall a, b :: leq(a, b) || leq(b, a)) && forall a, b, c :: leq(a, b) && leq(b, c) ==> leq(a, c)
  }

  ghost predicate SortedBy(s: seq<Package>, leq: (string, string) -> bool) {
    forall i, j :: 0 <= i < j < |s| ==> leq(s[i].dir, s[j].dir)
  }

  function InsertBy(p: Package, s: seq<Package>, leq: (string, string) -> bool): (r: seq<Package>)
    ensures multiset(r) == multiset(s) + multiset{p}
  {
    if s == [] || leq(p.dir, s[0].dir) then [p] + s
    else
      assert s == [s[0]] + s[1..];
      [s[0]] + InsertBy(p, s[1..], leq)
  }

  lemma {:induction false} InsertSorts(p: Package, s: seq<Package>, leq: (string, string) -> bool)
    requires Preorder(leq) && SortedBy(s, leq)
    ensures SortedBy(InsertBy(p, s, leq), leq)
  {
    if s == [] {
    } else if leq(p.dir, s[0].dir) {
      assert forall j :: 0 <= j < |s| ==> leq(p.dir, s[j].dir);
    } else {
      InsertSorts(p, s[1..], leq);
      var tail := InsertBy(p, s[1..], leq);
      forall j | 0 <= j < |tail| ensures leq(s[0].dir, tail[j].dir) {
        assert tail[j] in multiset(tail);
        if tail[j] != p { assert tail[j] in s[1..]; }
      }
    }
  }

  /** `expandWithDependents` with its final sort: the selected packages, each once, in directory order. */
  method ExpandSorted(touched: seq<Package>, packages: seq<Package>, leq: (string, string) -> bool) returns (r: seq<Package>)
    requires Preorder(leq)
    ensures LeastClosed(NameSet(r), NameSet(touched), DependentsOf(packages)) && SortedBy(r, leq)
    ensures |r| == |NameSet(r)| && forall p <- r :: p in touched || p in packages
  {
    hide LeastClosed, DependentsOf, Preorder, SortedBy, Filed, Sorting, InsertBy;
    var selected := ExpandWithDependents(touched, packages);
    var rest := selected.Keys;
    r := [];
    SortingStarts(selected, leq);
    while rest != {}
      invariant Sorting(selected, rest, r) && SortedBy(r, leq) && rest <= selected.Keys
      decreases rest
    {
      var m :| m in rest;
      FiledName(selected, touched, packages, m);
      SortingStep(selected, rest, r, m, leq);
      r, rest := InsertBy(selected[m], r, leq), rest - {m};
    }
    SortingEnds(selected, r, touched, packages);
  }

  /** The list holds the table's packages whose names are no longer waiting, each once. */
  predicate Sorting(selected: map<Name, Package>, rest: set<Name>, r: seq<Package>) {
    && rest <= selected.Keys && NameSet(r) + rest == selected.Keys && NameSet(r) !! rest
    && |r| + |rest| == |selected.Keys| && forall p <- r :: p.name in selected && selected[p.name] == p
  }

  lemma SortingStarts(selected: map<Name, Package>, leq: (string, string) -> bool)
    ensures Sorting(selected, selected.Keys, []) && SortedBy([], leq)
  {
  }

  lemma FiledName(selected: map<Name, Package>, touched: seq<Package>, packages: seq<Package>, m: Name)
    requires Filed(selected, touched, packages) && m in selected
    ensures selected[m].name == m
  {
  }

  lemma SortingStep(selected: map<Name, Package>, rest: set<Name>, r: seq<Package>, m: Name, leq: (string, string) -> bool)
    requires Sorting(selected, rest, r) && SortedBy(r, leq) && m in rest && m in selected && selected[m].name == m && Preorder(leq)
    ensures Sorting(selected, rest - {m}, InsertBy(selected[m], r, leq)) && SortedBy(InsertBy(selected[m], r, leq), leq)
  {
    hide InsertBy, SortedBy, Preorder, NameSet;
    InsertSorts(selected[m], r, leq);
    InsertNames(selected[m], r, leq);
    assert |rest - {m}| == |rest| - 1;
  }

  lemma SortingEnds(selected: map<Name, Package>, r: seq<Package>, touched: seq<Package>, packages: seq<Package>)
    requires Sorting(selected, {}, r) && Filed(selected, touched, packages)
    ensures NameSet(r) == selected.Keys && |r| == |NameSet(r)| && forall p <- r :: p in touched || p in packages
  {
  }

  lemma InsertNames(p: Package, s: seq<Package>, leq: (string, string) -> bool)
    ensures var r := InsertBy(p, s, leq);
            |r| == |s| + 1 && NameSet(r) == NameSet(s) + {p.name} && forall q :: q in r <==> q == p || q in s
  {
    var r := InsertBy(p, s, leq);
    assert forall q :: q in r <==> q in multiset(r);
    assert forall q :: q in s <==> q in multiset(s);
    assert |multiset(r)| == |r| && |multiset(s)| == |s|;
  }

  /** With unique names, a table filed from the workspace holds exactly the workspace packages it names. */
  lemma SelectedPackages(selected: map<Name, Package>, touched: seq<Package>, packages: seq<Package>)
    requires Filed(selected, touched, packages) && (forall p <- touched :: p in packages)
    requires forall p, q :: p in packages && q in packages && p.name == q.name ==> p == q
    ensures selected.Values == set p <- packages | p.name in selected
  {
    var chosen := set p <- packages | p.name in selected;
    forall p <- selected.Values ensures p in chosen {
      var m :| m in selected && selected[m] == p;
    }
    forall p <- chosen ensures p in selected.Values {
      assert selected[p.name] in packages && selected[p.name].name == p.name;
    }
  }

  // ---------------------------------------------------------------- Cargo units

  datatype Unit = Unit(id: Name, manifestPath: string)

  /** One metadata package: its id, and the units its path dependencies resolve to. */
  datatype Entry = Entry(packageId: string, dependencies: seq<Name>)

  type Reverse = map<Name, seq<string>>

  function Listed(reverse: Reverse, unit: Name): seq<string> { if unit in reverse then reverse[unit] else [] }

  /** Package ids with a path dependency on the unit. */
  function Users(entries: seq<Entry>, unit: Name): set<string> { set e <- entries | unit in e.dependencies :: e.packageId }

  /** Reverse edges of one metadata package. */
  method AddReverse(reverse0: Reverse, entry: Entry) returns (reverse: Reverse)
    ensures forall unit ::
      Elements(Listed(reverse, unit)) == Elements(Listed(reverse0, unit)) + if unit in entry.dependencies then {entry.packageId} else {}
  {
    reverse := reverse0;
    for i := 0 to |entry.dependencies|
      invariant forall unit ::
        Elements(Listed(reverse, unit)) == Elements(Listed(reverse0, unit)) + if unit in entry.dependencies[..i] then {entry.packageId} else {}
    {
      var d := entry.dependencies[i];
      ElementsPush(Listed(reverse, d), entry.packageId);
      reverse := reverse[d := Listed(reverse, d) + [entry.packageId]];
    }
    assert entry.dependencies[..|entry.dependencies|] == entry.dependencies;
  }

  method ReverseEdges(entries: seq<Entry>) returns (reverse: Reverse)
    ensures forall unit :: Elements(Listed(reverse, unit)) == Users(entries, unit)
  {
    reverse := map[];
    for i := 0 to |entries|
      invariant forall unit :: Elements(Listed(reverse, unit)) == Users(entries[..i], unit)
    {
      reverse := AddReverse(reverse, entries[i]);
      forall unit ensures Users(entries[..i + 1], unit) == Users(entries[..i], unit) + if unit in entries[i].dependencies then {entries[i].packageId} else {} {
        assert entries[..i + 1] == entries[..i] + [entries[i]];
      }
    }
    assert entries[..|entries|] == entries;
  }

  /** Units whose package has a path dependency on the unit. */
  function DependentUnits(entries: seq<Entry>, byPackage: map<string, Unit>): Successors {
    (unit: Name) => if unit == "" then {} else set p <- Users(entries, unit) | p in byPackage :: byPackage[p].id
  }

  predicate UnitsFiled(selected: map<Name, Unit>, initial: seq<Unit>, byPackage: map<string, Unit>) {
    forall m <- selected :: selected[m].id == m && (selected[m] in initial || selected[m] in byPackage.Values)
  }

  /** Units reached through a list of package ids. */
  function Owners(ids: seq<string>, byPackage: map<string, Unit>): set<Name> {
    set p <- ids | p in byPackage :: byPackage[p].id
  }

  method AddOwners(selected0: map<Name, Unit>, initial: seq<Unit>, ids: seq<string>, byPackage: map<string, Unit>)
    returns (selected: map<Name, Unit>, added: seq<Name>)
    requires UnitsFiled(selected0, initial, byPackage)
    ensures UnitsFiled(selected, initial, byPackage)
    ensures Scanned(selected0.Keys, selected.Keys, added, Owners(ids, byPackage))
  {
    hide Owners, Elements;
    selected, added := selected0, [];
    NoOwners(ids, byPackage, selected0.Keys);
    for i := 0 to |ids|
      invariant UnitsFiled(selected, initial, byPackage)
      invariant Scanned(selected0.Keys, selected.Keys, added, Owners(ids[..i], byPackage))
    {
      OwnersStep(ids, i, byPackage);
      ScanStep(selected0.Keys, selected.Keys, added, Owners(ids[..i], byPackage), if ids[i] in byPackage then byPackage[ids[i]].id else "");
      if ids[i] in byPackage && byPackage[ids[i]].id !in selected {
        var unit := byPackage[ids[i]];
        selected := selected[unit.id := unit];
        added := added + [unit.id];
      }
    }
    assert ids[..|ids|] == ids;
  }

  lemma NoOwners(ids: seq<string>, byPackage: map<string, Unit>, before: set<Name>)
    ensures Scanned(before, before, [], Owners(ids[..0], byPackage))
  {
  }

  lemma OwnersStep(ids: seq<string>, i: nat, byPackage: map<string, Unit>)
    requires i < |ids|
    ensures Owners(ids[..i + 1], byPackage) == Owners(ids[..i], byPackage) + if ids[i] in byPackage then {byPackage[ids[i]].id} else {}
  {
    assert ids[..i + 1] == ids[..i] + [ids[i]];
  }

  function UnitTable(list: seq<Unit>): (r: map<Name, Unit>)
    ensures r.Keys == (set u <- list :: u.id) && forall m <- r :: r[m].id == m && r[m] in list
  {
    if list == [] then map[]
    else
      assert list == list[..|list| - 1] + [list[|list| - 1]];
      UnitTable(list[..|list| - 1])[list[|list| - 1].id := list[|list| - 1]]
  }

  /** The keys of a table in some order. */
  method KeyList(keys: set<Name>) returns (r: seq<Name>)
    ensures Elements(r) == keys
  {
    r := [];
    var rest := keys;
    while rest != {}
      invariant Elements(r) + rest == keys
    {
      var k :| k in rest;
      ElementsPush(r, k);
      r, rest := r + [k], rest - {k};
    }
  }

  /**
   The closure of `expandCargoDependents`: the least set of unit ids that contains the initial units
   and every unit with a path dependency on a member.
   */
  method ExpandCargoDependents(initial: seq<Unit>, entries: seq<Entry>, byPackage: map<string, Unit>)
    returns (selected: map<Name, Unit>)
    ensures UnitsFiled(selected, initial, byPackage)
    ensures LeastClosed(selected.Keys, set u <- initial :: u.id, DependentUnits(entries, byPackage))
  {
    hide Working, LeastClosed, UnitsFiled, DependentUnits, Elements, Owners, Users, Scanned;
    var reverse := ReverseEdges(entries);
    selected := UnitTable(initial);
    UnitTableFiled(initial, byPackage);
    var queue := KeyList(selected.Keys);
    ghost var start, next := set u <- initial :: u.id, DependentUnits(entries, byPackage);
    WorkStarts(queue, start, next);
    while queue != []
      invariant UnitsFiled(selected, initial, byPackage) && Working(selected.Keys, queue, start, next)
      decreases |AllUnits(byPackage) - selected.Keys|, |queue|
    {
      var current := queue[0];
      var wider, added := selected, [];
      UnitRound(entries, byPackage, Listed(reverse, current), current, selected.Keys);
      if current != "" {
        wider, added := AddOwners(selected, initial, Listed(reverse, current), byPackage);
      }
      UnitRoundAdvances(entries, byPackage, selected.Keys, wider.Keys, queue, added, start);
      selected, queue := wider, queue[1..] + added;
    }
    WorkEnds(selected.Keys, start, next);
  }

  function AllUnits(byPackage: map<string, Unit>): set<Name> { set p <- byPackage :: byPackage[p].id }

  lemma UnitTableFiled(initial: seq<Unit>, byPackage: map<string, Unit>)
    ensures UnitsFiled(UnitTable(initial), initial, byPackage)
  {
  }

  lemma UnitRound(entries: seq<Entry>, byPackage: map<string, Unit>, ids: seq<string>, current: Name, before: set<Name>)
    requires Elements(ids) == Users(entries, current)
    ensures current == "" ==> Scanned(before, before, [], DependentUnits(entries, byPackage)(current))
    ensures current != "" ==> DependentUnits(entries, byPackage)(current) == Owners(ids, byPackage)
  {
    assert forall p :: p in ids <==> p in Elements(ids);
  }

  lemma UnitRoundAdvances(entries: seq<Entry>, byPackage: map<string, Unit>, before: set<Name>, after: set<Name>, queue: seq<Name>, added: seq<Name>, start: set<Name>)
    requires queue != [] && Working(before, queue, start, DependentUnits(entries, byPackage))
    requires Scanned(before, after, added, DependentUnits(entries, byPackage)(queue[0]))
    ensures Working(after, queue[1..] + added, start, DependentUnits(entries, byPackage))
    ensures if added == [] then after == before else |AllUnits(byPackage) - after| < |AllUnits(byPackage) - before|
  {
    WorkAdvances(before, queue, added, start, DependentUnits(entries, byPackage));
    hide Working;
    if added != [] {
      assert DependentUnits(entries, byPackage)(queue[0]) <= AllUnits(byPackage);
      Shrinks(AllUnits(byPackage), before, after, added);
    }
  }
}
