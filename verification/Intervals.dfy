/**
 Sets of lines as lists of inclusive intervals: the sort-and-merge form of one replay script and the
 one-pass insertion of the other, both denoting unions of lines.
 */
module Intervals {
  type Interval = (int, int)

  predicate Within(a: int, x: int, b: int) { a <= x <= b }

  function Range(a: int, b: int): (r: set<int>)
    ensures forall x :: x in r <==> a <= x <= b
  {
    set x: int | a <= x <= b && Within(a, x, b)
  }

  lemma {:induction false} RangeCount(a: int, b: int)
    ensures |Range(a, b)| == if a <= b then b - a + 1 else 0
    decreases b - a
  {
    if a <= b {
      RangeCount(a, b - 1);
      assert Range(a, b) == Range(a, b - 1) + {b};
    } else {
      assert Range(a, b) == {};
    }
  }

  function Covered(ivs: seq<Interval>): set<int> {
    if ivs == [] then {} else Range(ivs[0].0, ivs[0].1) + Covered(ivs[1..])
  }

  /** Sorted, disjoint, non-adjacent and without empty intervals. */
  predicate Canonical(ivs: seq<Interval>): (r: bool)
    ensures r ==> Spaced(ivs)
  {
    ivs == [] || (ivs[0].0 <= ivs[0].1 && (|ivs| > 1 ==> ivs[0].1 + 1 < ivs[1].0) && Canonical(ivs[1..]))
  }

  /** Sorted with a gap of at least one line between neighbours; an interval may fall short of one line by up to two. */
  predicate Spaced(ivs: seq<Interval>) {
    ivs == [] || (ivs[0].0 <= ivs[0].1 + 2 && (|ivs| > 1 ==> ivs[0].1 + 1 < ivs[1].0) && Spaced(ivs[1..]))
  }

  predicate NonEmpty(ivs: seq<Interval>) { forall i :: 0 <= i < |ivs| ==> ivs[i].0 <= ivs[i].1 }

  function Min(a: int, b: int): int { if a <= b then a else b }

  function Max(a: int, b: int): int { if a >= b then a else b }

  // ---------------------------------------------------------------- canonical lists

  /** Everything in a spaced list starts at or after its first start. */
  lemma {:induction false} SpacedStart(ivs: seq<Interval>, x: int)
    requires Spaced(ivs) && x in Covered(ivs)
    ensures ivs != [] && ivs[0].0 <= x
  {
    if x !in Range(ivs[0].0, ivs[0].1) { SpacedStart(ivs[1..], x); }
  }

  lemma SpacedTail(ivs: seq<Interval>, x: int)
    requires Spaced(ivs) && ivs != [] && x in Covered(ivs[1..])
    ensures ivs[0].1 + 1 < x
  {
    SpacedStart(ivs[1..], x);
  }

  lemma FirstIsCovered(ivs: seq<Interval>)
    requires Canonical(ivs) && ivs != []
    ensures ivs[0].0 in Covered(ivs)
  {
  }

  /** A set of lines has only one canonical list. */
  lemma {:induction false} CanonicalUnique(p: seq<Interval>, q: seq<Interval>)
    requires Canonical(p) && Canonical(q) && Covered(p) == Covered(q)
    ensures p == q
    decreases |p|
  {
    if p == [] {
      if q != [] { FirstIsCovered(q); }
    } else {
      assert p[0].0 in Covered(q);
      SpacedStart(q, p[0].0);
      assert q[0].0 in Covered(p);
      SpacedStart(p, q[0].0);
      SameEnd(p, q);
      SameEnd(q, p);
      assert Covered(p[1..]) == Covered(q[1..]) by {
        forall x ensures x in Covered(p[1..]) <==> x in Covered(q[1..]) {
          if x in Covered(p[1..]) { SpacedTail(p, x); assert x in Covered(p); }
          if x in Covered(q[1..]) { SpacedTail(q, x); assert x in Covered(q); }
        }
      }
      CanonicalUnique(p[1..], q[1..]);
      assert p == [p[0]] + p[1..] && q == [q[0]] + q[1..];
    }
  }

  lemma SameEnd(p: seq<Interval>, q: seq<Interval>)
    requires Canonical(p) && Canonical(q) && Covered(p) == Covered(q) && p != [] && q != [] && p[0].0 == q[0].0
    ensures p[0].1 <= q[0].1
  {
    if q[0].1 < p[0].1 {
      var x := q[0].1 + 1;
      assert x in Covered(p);
      assert x in Covered(q[1..]);
      SpacedTail(q, x);
    }
  }

  // ---------------------------------------------------------------- insertion

  /** The one-pass insertion after the intervals already passed: `placed` once the item has been emitted. */
  function AddFrom(ivs: seq<Interval>, s: int, e: int, placed: bool): seq<Interval> {
    if ivs == [] then (if placed then [] else [(s, e)])
    else
      var (a, b) := ivs[0];
      if b + 1 < s then [(a, b)] + AddFrom(ivs[1..], s, e, placed)
      else if e + 1 < a then (if placed then [] else [(s, e)]) + [(a, b)] + AddFrom(ivs[1..], s, e, true)
      else AddFrom(ivs[1..], Min(s, a), Max(e, b), placed)
  }

  /** `add_interval`. */
  method AddInterval(intervals: seq<Interval>, item: Interval) returns (out: seq<Interval>)
    ensures out == AddFrom(intervals, item.0, item.1, false)
  {
    hide AddFrom;
    out := [];
    var (s, e) := item;
    var placed := false;
    assert intervals[0..] == intervals;
    for i := 0 to |intervals|
      invariant AddFrom(intervals, item.0, item.1, false) == out + AddFrom(intervals[i..], s, e, placed)
    {
      var (a, b) := intervals[i];
      AddTurn(out, intervals, i, s, e, placed);
      if b + 1 < s {
        out := out + [(a, b)];
      } else if e + 1 < a {
        if !placed {
          out := out + [(s, e)];
          placed := true;
        }
        out := out + [(a, b)];
      } else {
        s := Min(s, a);
        e := Max(e, b);
      }
    }
    AddLast(out, intervals[|intervals|..], s, e, placed);
    if !placed { out := out + [(s, e)]; }
  }

  /** One turn of the insertion loop. */
  lemma AddTurn(out: seq<Interval>, intervals: seq<Interval>, i: nat, s: int, e: int, placed: bool)
    requires i < |intervals|
    ensures var (a, b) := intervals[i];
            var rest := intervals[i + 1..];
            out + AddFrom(intervals[i..], s, e, placed)
              == if b + 1 < s then out + [(a, b)] + AddFrom(rest, s, e, placed)
                 else if e + 1 < a then (if placed then out else out + [(s, e)]) + [(a, b)] + AddFrom(rest, s, e, true)
                 else out + AddFrom(rest, Min(s, a), Max(e, b), placed)
  {
    var (a, b) := intervals[i];
    var rest := intervals[i + 1..];
    assert intervals[i..][0] == intervals[i] && intervals[i..][1..] == rest;
    if b + 1 < s {
      Regroup(out, [], [(a, b)], AddFrom(rest, s, e, placed));
    } else if e + 1 < a {
      Regroup(out, if placed then [] else [(s, e)], [(a, b)], AddFrom(rest, s, e, true));
    }
  }

  lemma Regroup(a: seq<Interval>, b: seq<Interval>, c: seq<Interval>, d: seq<Interval>)
    ensures a + (b + c + d) == a + b + c + d && a + (c + d) == a + c + d && a + [] == a
  {
  }

  lemma AddLast(out: seq<Interval>, rest: seq<Interval>, s: int, e: int, placed: bool)
    requires rest == []
    ensures out + AddFrom(rest, s, e, placed) == if placed then out else out + [(s, e)]
  {
    assert out + [] == out;
  }

  /** Once emitted before a spaced rest, the item changes nothing more. */
  lemma {:induction false} AddPlaced(ivs: seq<Interval>, s: int, e: int)
    requires Spaced(ivs) && s <= e + 2 && (ivs != [] ==> e + 1 < ivs[0].0)
    ensures AddFrom(ivs, s, e, true) == ivs
  {
    if ivs != [] {
      AddPlaced(ivs[1..], s, e);
      assert ivs == [ivs[0]] + ivs[1..];
    }
  }

  lemma RangeJoin(s: int, e: int, a: int, b: int)
    requires a <= e + 1 && s <= b + 1
    ensures Range(Min(s, a), Max(e, b)) == Range(s, e) + Range(a, b)
  {
  }

  lemma CoveredCons(iv: Interval, ivs: seq<Interval>)
    ensures Covered([iv] + ivs) == Range(iv.0, iv.1) + Covered(ivs)
  {
    assert ([iv] + ivs)[1..] == ivs;
  }

  /** Prepending an interval that ends early enough keeps a list canonical. */
  lemma CanonicalCons(iv: Interval, ivs: seq<Interval>)
    requires Canonical(ivs) && iv.0 <= iv.1 && (ivs != [] ==> iv.1 + 1 < ivs[0].0)
    ensures Canonical([iv] + ivs)
  {
    assert ([iv] + ivs)[1..] == ivs;
  }

  /** The three ways one interval of the list meets the item. */
  lemma AddUnfold(ivs: seq<Interval>, s: int, e: int)
    requires Spaced(ivs) && s <= e + 2 && ivs != []
    ensures var (a, b) := ivs[0];
            AddFrom(ivs, s, e, false)
              == if b + 1 < s then [(a, b)] + AddFrom(ivs[1..], s, e, false)
                 else if e + 1 < a then [(s, e)] + ivs
                 else AddFrom(ivs[1..], Min(s, a), Max(e, b), false)
  {
    var (a, b) := ivs[0];
    if b + 1 >= s && e + 1 < a {
      AddPlaced(ivs[1..], s, e);
      assert [(s, e)] + [(a, b)] + ivs[1..] == [(s, e)] + ivs;
    }
  }

  lemma {:induction false} AddCanonical(ivs: seq<Interval>, s: int, e: int)
    requires Canonical(ivs) && s <= e
    ensures Canonical(AddFrom(ivs, s, e, false)) && AddFrom(ivs, s, e, false) != []
    ensures AddFrom(ivs, s, e, false)[0].0 == if ivs == [] then s else Min(s, ivs[0].0)
  {
    if ivs == [] {
      CanonicalCons((s, e), []);
    } else {
      AddUnfold(ivs, s, e);
      hide AddFrom;
      var (a, b) := ivs[0];
      if b + 1 < s {
        AddCanonical(ivs[1..], s, e);
        CanonicalCons((a, b), AddFrom(ivs[1..], s, e, false));
      } else if e + 1 < a {
        CanonicalCons((s, e), ivs);
      } else {
        AddCanonical(ivs[1..], Min(s, a), Max(e, b));
      }
    }
  }

  lemma {:induction false} AddSpaced(ivs: seq<Interval>, s: int, e: int)
    requires Spaced(ivs) && s <= e + 2
    ensures Spaced(AddFrom(ivs, s, e, false)) && AddFrom(ivs, s, e, false) != []
    ensures AddFrom(ivs, s, e, false)[0].0 == if ivs == [] then s else Min(s, ivs[0].0)
  {
    if ivs != [] {
      AddUnfold(ivs, s, e);
      hide AddFrom;
      var (a, b) := ivs[0];
      if b + 1 < s {
        AddSpaced(ivs[1..], s, e);
        assert ([(a, b)] + AddFrom(ivs[1..], s, e, false))[1..] == AddFrom(ivs[1..], s, e, false);
      } else if e + 1 < a {
        assert ([(s, e)] + ivs)[1..] == ivs;
      } else {
        AddSpaced(ivs[1..], Min(s, a), Max(e, b));
      }
    }
  }

  lemma {:induction false} AddCovers(ivs: seq<Interval>, s: int, e: int)
    requires Spaced(ivs) && s <= e + 2
    ensures Covered(AddFrom(ivs, s, e, false)) == Covered(ivs) + Range(s, e)
  {
    if ivs == [] {
      CoveredCons((s, e), []);
    } else {
      AddUnfold(ivs, s, e);
      var (a, b) := ivs[0];
      hide Range, AddFrom;
      if b + 1 < s {
        AddCovers(ivs[1..], s, e);
        CoveredCons((a, b), AddFrom(ivs[1..], s, e, false));
      } else if e + 1 < a {
        CoveredCons((s, e), ivs);
      } else {
        AddCovers(ivs[1..], Min(s, a), Max(e, b));
        RangeJoin(s, e, a, b);
      }
    }
  }

  /** Insertion into any list, of any item, adds no line but the item's. */
  lemma {:induction false} AddWithin(ivs: seq<Interval>, s: int, e: int, placed: bool)
    ensures Covered(AddFrom(ivs, s, e, placed)) <= Covered(ivs) + Range(s, e)
  {
    if ivs == [] {
      if !placed { CoveredCons((s, e), []); }
    } else {
      var (a, b) := ivs[0];
      hide Range;
      if b + 1 < s {
        AddWithin(ivs[1..], s, e, placed);
        CoveredCons((a, b), AddFrom(ivs[1..], s, e, placed));
      } else if e + 1 < a {
        AddWithin(ivs[1..], s, e, true);
        var rest := AddFrom(ivs[1..], s, e, true);
        CoveredCons((a, b), rest);
        if !placed {
          CoveredCons((s, e), [(a, b)] + rest);
          assert [(s, e)] + [(a, b)] + rest == [(s, e)] + ([(a, b)] + rest);
        } else {
          assert [] + [(a, b)] + rest == [(a, b)] + rest;
        }
      } else {
        AddWithin(ivs[1..], Min(s, a), Max(e, b), placed);
        RangeJoin(s, e, a, b);
      }
    }
  }

  /** Insertion into a canonical list keeps it canonical and denotes the union. */
  lemma AddIsUnion(ivs: seq<Interval>, s: int, e: int)
    requires Canonical(ivs) && s <= e
    ensures Canonical(AddFrom(ivs, s, e, false))
    ensures Covered(AddFrom(ivs, s, e, false)) == Covered(ivs) + Range(s, e)
  {
    AddCanonical(ivs, s, e);
    AddCovers(ivs, s, e);
  }

  // ---------------------------------------------------------------- sort and merge

  predicate PairLeq(p: Interval, q: Interval) { p.0 < q.0 || (p.0 == q.0 && p.1 <= q.1) }

  function InsertPair(p: Interval, s: seq<Interval>): seq<Interval> {
    if s == [] || PairLeq(p, s[0]) then [p] + s else [s[0]] + InsertPair(p, s[1..])
  }

  function SortPairs(s: seq<Interval>): seq<Interval> { if s == [] then [] else InsertPair(s[0], SortPairs(s[1..])) }

  predicate StartsAscend(s: seq<Interval>) { |s| <= 1 || (s[0].0 <= s[1].0 && StartsAscend(s[1..])) }

  lemma {:induction false} InsertPairFacts(p: Interval, s: seq<Interval>)
    requires StartsAscend(s) && NonEmpty(s) && p.0 <= p.1
    ensures StartsAscend(InsertPair(p, s)) && NonEmpty(InsertPair(p, s))
    ensures Covered(InsertPair(p, s)) == Covered(s) + Range(p.0, p.1)
  {
    if s == [] || PairLeq(p, s[0]) {
      CoveredCons(p, s);
      assert ([p] + s)[1..] == s;
    } else {
      InsertPairFacts(p, s[1..]);
      assert s == [s[0]] + s[1..];
      var r := InsertPair(p, s[1..]);
      CoveredCons(s[0], r);
      assert ([s[0]] + r)[1..] == r;
    }
  }

  lemma {:induction false} SortPairsFacts(s: seq<Interval>)
    requires NonEmpty(s)
    ensures StartsAscend(SortPairs(s)) && NonEmpty(SortPairs(s)) && Covered(SortPairs(s)) == Covered(s)
    ensures SortPairs(s) == [] <==> s == []
  {
    if s != [] {
      SortPairsFacts(s[1..]);
      InsertPairFacts(s[0], SortPairs(s[1..]));
      assert s == [s[0]] + s[1..];
    }
  }

  /** Folds the rest of a sorted list into the last interval (ls, le). */
  function MergeFrom(ls: int, le: int, rest: seq<Interval>): seq<Interval>
    decreases |rest|
  {
    if rest == [] then [(ls, le)]
    else
      var (s, e) := rest[0];
      if s <= le + 1 then MergeFrom(ls, Max(le, e), rest[1..]) else [(ls, le)] + MergeFrom(s, e, rest[1..])
  }

  function Merge(ivs: seq<Interval>): seq<Interval> {
    var sorted := SortPairs(ivs);
    if sorted == [] then [] else MergeFrom(sorted[0].0, sorted[0].1, sorted[1..])
  }

  /** `merge`: sorts, then keeps extending the last interval of the output. */
  method MergeIntervals(ivs: seq<Interval>) returns (out: seq<Interval>)
    ensures out == Merge(ivs)
  {
    var sorted := SortPairs(ivs);
    if sorted == [] { return []; }
    out := [sorted[0]];
    assert sorted[1..][0..] == sorted[1..];
    for i := 1 to |sorted|
      invariant out != []
      invariant Merge(ivs) == out[..|out| - 1] + MergeFrom(out[|out| - 1].0, out[|out| - 1].1, sorted[i..])
    {
      var (s, e) := sorted[i];
      assert sorted[i..][1..] == sorted[i + 1..];
      var (ls, le) := out[|out| - 1];
      if s <= le + 1 {
        out := out[..|out| - 1] + [(ls, Max(le, e))];
      } else {
        out := out + [(s, e)];
      }
    }
    assert sorted[|sorted|..] == [];
    assert out == out[..|out| - 1] + [out[|out| - 1]];
  }

  lemma {:induction false} MergeFromIsUnion(ls: int, le: int, rest: seq<Interval>)
    requires ls <= le && NonEmpty(rest) && StartsAscend(rest) && (rest != [] ==> ls <= rest[0].0)
    ensures Canonical(MergeFrom(ls, le, rest)) && MergeFrom(ls, le, rest) != [] && MergeFrom(ls, le, rest)[0].0 == ls
    ensures Covered(MergeFrom(ls, le, rest)) == Range(ls, le) + Covered(rest)
    decreases |rest|
  {
    if rest == [] {
      CoveredCons((ls, le), []);
      CanonicalCons((ls, le), []);
    } else {
      var (s, e) := rest[0];
      if s <= le + 1 {
        MergeFromIsUnion(ls, Max(le, e), rest[1..]);
        RangeJoin(ls, le, s, e);
      } else {
        MergeFromIsUnion(s, e, rest[1..]);
        CoveredCons((ls, le), MergeFrom(s, e, rest[1..]));
        CanonicalCons((ls, le), MergeFrom(s, e, rest[1..]));
      }
    }
  }

  /** Merging non-empty intervals gives the canonical list of their union. */
  lemma MergeIsUnion(ivs: seq<Interval>)
    requires NonEmpty(ivs)
    ensures Canonical(Merge(ivs)) && Covered(Merge(ivs)) == Covered(ivs)
  {
    SortPairsFacts(ivs);
    var sorted := SortPairs(ivs);
    if sorted != [] {
      assert sorted == [sorted[0]] + sorted[1..];
      MergeFromIsUnion(sorted[0].0, sorted[0].1, sorted[1..]);
    }
  }

  lemma {:induction false} CoveredConcat(p: seq<Interval>, q: seq<Interval>)
    ensures Covered(p + q) == Covered(p) + Covered(q)
  {
    if p == [] {
      assert p + q == q;
    } else {
      assert (p + q)[1..] == p[1..] + q;
      CoveredConcat(p[1..], q);
    }
  }

  lemma {:induction false} CanonicalNonEmpty(ivs: seq<Interval>)
    requires Canonical(ivs)
    ensures NonEmpty(ivs)
  {
    if ivs != [] {
      CanonicalNonEmpty(ivs[1..]);
      assert ivs == [ivs[0]] + ivs[1..];
    }
  }

  /** The two implementations agree: one-pass insertion is sort-and-merge of the list plus the item. */
  lemma AddEqualsMerge(ivs: seq<Interval>, item: Interval)
    requires Canonical(ivs) && item.0 <= item.1
    ensures AddFrom(ivs, item.0, item.1, false) == Merge(ivs + [item])
  {
    hide AddFrom, Merge;
    CanonicalNonEmpty(ivs);
    AddIsUnion(ivs, item.0, item.1);
    MergeIsUnion(ivs + [item]);
    CoveredConcat(ivs, [item]);
    CoveredCons(item, []);
    CanonicalUnique(AddFrom(ivs, item.0, item.1, false), Merge(ivs + [item]));
  }

  // ---------------------------------------------------------------- containment

  /** `contained`. */
  method Contained(s: int, e: int, ivs: seq<Interval>) returns (r: bool)
    ensures r <==> exists i :: 0 <= i < |ivs| && ivs[i].0 <= s && ivs[i].1 >= e
  {
    for i := 0 to |ivs|
      invariant forall j :: 0 <= j < i ==> !(ivs[j].0 <= s && ivs[j].1 >= e)
    {
      if ivs[i].0 <= s && ivs[i].1 >= e { return true; }
    }
    return false;
  }

  function IsCovered(ivs: seq<Interval>, s: int, e: int): bool {
    if ivs == [] then false
    else if ivs[0].0 <= s && e <= ivs[0].1 then true
    else if ivs[0].0 > s then false
    else IsCovered(ivs[1..], s, e)
  }

  /** `is_covered`, which gives up at the first interval that starts after the target. */
  method IsCoveredScan(ivs: seq<Interval>, s: int, e: int) returns (r: bool)
    ensures r == IsCovered(ivs, s, e)
  {
    assert ivs[0..] == ivs;
    for i := 0 to |ivs|
      invariant IsCovered(ivs, s, e) == IsCovered(ivs[i..], s, e)
    {
      assert ivs[i..][1..] == ivs[i + 1..];
      if ivs[i].0 <= s && e <= ivs[i].1 { return true; }
      if ivs[i].0 > s { return false; }
    }
    return false;
  }

  /** On a spaced list both containment tests are set inclusion of a non-empty target. */
  lemma {:induction false} ContainmentIsInclusion(ivs: seq<Interval>, s: int, e: int)
    requires Spaced(ivs) && s <= e
    ensures IsCovered(ivs, s, e) <==> Range(s, e) <= Covered(ivs)
    ensures (exists i :: 0 <= i < |ivs| && ivs[i].0 <= s && ivs[i].1 >= e) <==> Range(s, e) <= Covered(ivs)
  {
    if ivs == [] {
      assert s in Range(s, e);
    } else {
      var (a, b) := ivs[0];
      var tail := ivs[1..];
      ContainmentIsInclusion(tail, s, e);
      assert s in Range(s, e) && e in Range(s, e);
      if a <= s && e <= b {
        assert Range(s, e) <= Range(a, b);
      } else {
        NotInFirst(ivs, s, e);
        assert (exists i :: 0 <= i < |ivs| && ivs[i].0 <= s && ivs[i].1 >= e)
          <==> (exists i :: 0 <= i < |tail| && tail[i].0 <= s && tail[i].1 >= e) by {
          if i :| 0 <= i < |ivs| && ivs[i].0 <= s && ivs[i].1 >= e { assert tail[i - 1] == ivs[i]; }
          if i :| 0 <= i < |tail| && tail[i].0 <= s && tail[i].1 >= e { assert ivs[i + 1] == tail[i]; }
        }
        if a > s { assert !(Range(s, e) <= Covered(tail)) by { if s in Covered(tail) { SpacedTail(ivs, s); } } }
      }
    }
  }

  /** A target that does not fit the first interval is covered exactly when the others cover it. */
  lemma NotInFirst(ivs: seq<Interval>, s: int, e: int)
    requires Spaced(ivs) && ivs != [] && s <= e && !(ivs[0].0 <= s && e <= ivs[0].1)
    ensures Range(s, e) <= Covered(ivs) <==> Range(s, e) <= Covered(ivs[1..])
  {
    var (a, b) := ivs[0];
    if Range(s, e) <= Covered(ivs) {
      forall x <- Range(s, e) ensures x in Covered(ivs[1..]) {
        assert s in Covered(ivs);
        SpacedStart(ivs, s);
        if s <= b {
          assert b + 1 in Range(s, e);
          assert b + 1 in Covered(ivs[1..]);
          SpacedTail(ivs, b + 1);
        }
      }
    }
  }
}
