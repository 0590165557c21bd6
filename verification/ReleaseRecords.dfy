/** The evidence records of a stable release and their per-record checks. */
module ReleaseRecords {
  import opened Outcomes
  import opened Versions
  import opened SeqSets

  datatype Definition = Definition(dir: string, name: string)

  datatype Record = Record(
    dir: string, name: string, version: string,
    tarballSha512: string, expectedSri: string, manifestSha256: string,
    unpackedSize: nat, fileCount: nat, dependencies: map<string, string>)

  datatype Observation = Observation(
    sri: string, tarballSha512: string, manifestSha256: string,
    dependencies: map<string, string>, latestVersion: Option<string>)

  datatype Verdict = Publish | Skip | Conflict

  /** `classifyRegistryObservation`. */
  function Classify(expected: Record, observation: Option<Observation>): Verdict {
    match observation
    case None => Publish
    case Some(o) =>
      if o.sri == expected.expectedSri && o.tarballSha512 == expected.tarballSha512
         && o.manifestSha256 == expected.manifestSha256 && o.dependencies == expected.dependencies
      then Skip else Conflict
  }

  /** `assertExactRegistryObservation`: true when it does not throw. */
  predicate Exact(record: Record, o: Observation) {
    && o.latestVersion.Some?
    && Compare(o.latestVersion.value, record.version).Some?
    && Compare(o.latestVersion.value, record.version).value >= 0
    && o.latestVersion.value == record.version && Classify(record, Some(o)) == Skip
  }

  /** What it takes to be exact: a stable version, the expected bytes, and the tag on the version. */
  lemma ExactExactly(record: Record, o: Observation)
    ensures Exact(record, o) <==>
            StableVersion(record.version)
            && o == Observation(record.expectedSri, record.tarballSha512, record.manifestSha256, record.dependencies, Some(record.version))
  {
    hide StableVersion;
    if StableVersion(record.version) { CompareIsTotalOrder(record.version, record.version, record.version); }
  }

  function NamesOf(definitions: seq<Definition>): set<string> { set d <- definitions :: d.name }

  datatype DependencyError = NotStable | UnknownDependency | InexactDependency

  // ---------------------------------------------------------------- text order

  lemma {:induction false} TextTotal(a: string, b: string)
    ensures a == b || TextLess(a, b) || TextLess(b, a)
    ensures !(TextLess(a, b) && TextLess(b, a))
  {
    if a != "" && b != "" && a[0] == b[0] {
      TextTotal(a[1..], b[1..]);
      assert a == [a[0]] + a[1..] && b == [b[0]] + b[1..];
    }
  }

  lemma {:induction false} TextTransitive(a: string, b: string, c: string)
    requires TextLess(a, b) && TextLess(b, c)
    ensures TextLess(a, c)
  {
    if a != "" && a[0] == b[0] && b[0] == c[0] { TextTransitive(a[1..], b[1..], c[1..]); }
  }

  predicate LeastOf(x: string, s: set<string>) { x in s && forall y <- s :: !TextLess(y, x) }

  lemma {:induction false} LeastExists(s: set<string>) returns (x: string)
    requires s != {}
    ensures LeastOf(x, s)
    decreases |s|
  {
    x :| x in s;
    var rest := s - {x};
    TextTotal(x, x);
    if rest == {} {
      assert s == {x};
    } else {
      var y := LeastExists(rest);
      var first := x;
      if TextLess(y, x) { x := y; }
      forall z <- s ensures !TextLess(z, x) {
        TextTotal(z, x);
        if z == first && x == y { TextTotal(first, y); }
        if z in rest && x == first && TextLess(z, x) {
          TextTotal(z, y);
          if z != y { TextTransitive(y, z, x); }
        }
      }
    }
  }

  lemma LeastUnique(x: string, y: string, s: set<string>)
    requires LeastOf(x, s) && LeastOf(y, s)
    ensures x == y
  {
    TextTotal(x, y);
  }

  lemma LeastFacts(s: set<string>)
    requires s != {}
    ensures exists x :: x in s && LeastOf(x, s)
    ensures forall x, y :: LeastOf(x, s) && LeastOf(y, s) ==> x == y
  {
    var x := LeastExists(s);
    forall x, y | LeastOf(x, s) && LeastOf(y, s) ensures x == y { LeastUnique(x, y, s); }
  }

  /** The first of a set of names in text order. */
  function Least(s: set<string>): (r: string)
    requires s != {}
    ensures LeastOf(r, s)
  {
    LeastFacts(s);
    var x :| x in s && LeastOf(x, s);
    x
  }

  /** `Object.keys(…).sort()`. */
  method SortNames(names: set<string>) returns (r: seq<string>)
    ensures Elements(r) == names && forall i, j :: 0 <= i < j < |r| ==> TextLess(r[i], r[j])
  {
    r := [];
    var rest := names;
    while rest != {}
      invariant Elements(r) + rest == names && (forall x <- r :: x !in rest)
      invariant forall i, j :: 0 <= i < j < |r| ==> TextLess(r[i], r[j])
      invariant forall x, y :: x in r && y in rest ==> TextLess(x, y)
      decreases rest
    {
      var x := Least(rest);
      forall y | y in rest && y != x ensures TextLess(x, y) { TextTotal(x, y); }
      assert Elements(r + [x]) == Elements(r) + {x};
      r, rest := r + [x], rest - {x};
    }
  }

  // ---------------------------------------------------------------- dependencies

  /** The dependency is a public package, pinned to the release. */
  predicate Pinned(definitions: seq<Definition>, deps: map<string, string>, version: string, n: string)
    requires n in deps
  {
    n in NamesOf(definitions) && deps[n] == version
  }

  predicate AllPinned(definitions: seq<Definition>, deps: map<string, string>, version: string) {
    StableVersion(version) && forall n <- deps :: Pinned(definitions, deps, version, n)
  }

  function Unpinned(definitions: seq<Definition>, deps: map<string, string>, version: string): set<string> {
    set n <- deps | !Pinned(definitions, deps, version, n)
  }

  /** The error of the first dependency, in text order, that is not a public package pinned to the release. */
  function CheckDependencies(definitions: seq<Definition>, deps: map<string, string>, version: string)
    : (r: Option<DependencyError>)
    ensures r.None? <==> AllPinned(definitions, deps, version)
  {
    var bad := Unpinned(definitions, deps, version);
    if !StableVersion(version) then Some(NotStable)
    else if bad == {} then
      assert forall n <- deps :: Pinned(definitions, deps, version, n) by { assert forall n <- deps :: n !in bad; }
      None
    else if Least(bad) in NamesOf(definitions) then Some(InexactDependency)
    else Some(UnknownDependency)
  }

  /**
   `assertExactInternalReleaseDependencies`: the loop over the sorted names throws for the first one that is
   unknown or not pinned, and passes exactly when the version is stable and every dependency is a public
   package at that version.
   */
  method AssertExactDependencies(definitions: seq<Definition>, deps: map<string, string>, version: string)
    returns (r: Option<DependencyError>)
    ensures r == CheckDependencies(definitions, deps, version)
    ensures r.None? <==> AllPinned(definitions, deps, version)
  {
    if !StableVersion(version) { return Some(NotStable); }
    var names := SortNames(deps.Keys);
    ghost var bad := Unpinned(definitions, deps, version);
    for k := 0 to |names|
      invariant forall j :: 0 <= j < k ==> names[j] !in bad
    {
      var n := names[k];
      assert n in Elements(names);
      if n !in NamesOf(definitions) || deps[n] != version {
        FirstIsLeast(names, k, bad, deps.Keys);
        return Some(if n !in NamesOf(definitions) then UnknownDependency else InexactDependency);
      }
    }
    assert forall n <- deps :: n in Elements(names);
    return None;
  }

  lemma FirstIsLeast(names: seq<string>, k: nat, bad: set<string>, keys: set<string>)
    requires k < |names| && names[k] in bad && bad <= keys && Elements(names) == keys
    requires (forall j :: 0 <= j < k ==> names[j] !in bad) && forall i, j :: 0 <= i < j < |names| ==> TextLess(names[i], names[j])
    ensures bad != {} && Least(bad) == names[k]
  {
    forall y <- bad ensures !TextLess(y, names[k]) {
      assert y in Elements(names);
      var j :| 0 <= j < |names| && names[j] == y;
      TextTotal(y, names[k]);
      assert j > k ==> TextLess(names[k], names[j]);
    }
    LeastUnique(Least(bad), names[k], bad);
  }
}
