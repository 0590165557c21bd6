/** The paths the tar reader accepts, as lists of segments. */
module TarPaths {
  import opened Outcomes
  import opened Utf8
  import opened TarFormat

  predicate PlainSegment(s: Bytes) {
    s != [] && s != [DOT] && s != [DOT, DOT] && SLASH !in s && BACKSLASH !in s && NUL !in s
  }

  predicate AllPlain(segments: seq<Bytes>) { forall s <- segments :: PlainSegment(s) }

  function Joined(segments: seq<Bytes>): Bytes {
    if segments == [] then []
    else if |segments| == 1 then segments[0]
    else segments[0] + [SLASH] + Joined(segments[1..])
  }

  lemma FirstSlash(head: Bytes, rest: Bytes)
    requires SLASH !in head
    ensures IndexOf(head, SLASH, 0) == |head| && IndexOf(head + [SLASH] + rest, SLASH, 0) == |head|
  {
    var s := head + [SLASH] + rest;
    assert forall i :: 0 <= i < |head| ==> s[i] == head[i];
    assert s[|head|] == SLASH;
  }

  lemma {:induction false} SafeHasSegments(s: Bytes) returns (segments: seq<Bytes>)
    requires SafeSegments(s) && BACKSLASH !in s && NUL !in s
    ensures segments != [] && AllPlain(segments) && Joined(segments) == s
    ensures segments[0] == s[..IndexOf(s, SLASH, 0)]
    decreases |s|
  {
    hide *;
    var k := IndexOf(s, SLASH, 0);
    FirstSegment(s, k);
    if k == |s| {
      segments := [s[..k]];
      OneSegment(s[..k]);
    } else {
      var rest := SafeHasSegments(s[k + 1..]);
      segments := [s[..k]] + rest;
      JoinedCons(s[..k], rest);
    }
  }

  /** Up to the first slash stands a plain segment, and what follows is safe again. */
  lemma FirstSegment(s: Bytes, k: nat)
    requires SafeSegments(s) && BACKSLASH !in s && NUL !in s && k == IndexOf(s, SLASH, 0)
    ensures PlainSegment(s[..k]) && (k == |s| ==> s[..k] == s)
    ensures k < |s| ==> SafeSegments(s[k + 1..]) && BACKSLASH !in s[k + 1..] && NUL !in s[k + 1..] && s == s[..k] + [SLASH] + s[k + 1..]
  {
    hide IndexOf;
    NotBefore(s, SLASH, k);
    Lacks(s, BACKSLASH, k);
    Lacks(s, NUL, k);
    if k < |s| { CutAt(s, k); } else { assert s[..k] == s; }
    hide SafeSegments;
  }

  lemma Lacks(s: Bytes, b: byte, k: nat)
    requires b !in s && k <= |s|
    ensures b !in s[..k] && (k < |s| ==> b !in s[k + 1..])
  {
  }

  lemma NotBefore(s: Bytes, b: byte, k: nat)
    requires k <= |s| && forall i :: 0 <= i < k ==> s[i] != b
    ensures b !in s[..k]
  {
  }

  lemma CutAt(s: Bytes, k: nat)
    requires k < |s|
    ensures s == s[..k] + [s[k]] + s[k + 1..]
  {
  }

  lemma OneSegment(head: Bytes)
    requires PlainSegment(head)
    ensures AllPlain([head]) && Joined([head]) == head
  {
  }

  lemma JoinedCons(head: Bytes, rest: seq<Bytes>)
    requires rest != [] && PlainSegment(head) && AllPlain(rest)
    ensures AllPlain([head] + rest) && Joined([head] + rest) == head + [SLASH] + Joined(rest)
  {
    hide PlainSegment;
    assert ([head] + rest)[1..] == rest;
  }

  lemma {:induction false} SegmentsAreSafe(segments: seq<Bytes>)
    requires segments != [] && AllPlain(segments)
    ensures var s := Joined(segments);
            && SafeSegments(s) && BACKSLASH !in s && NUL !in s && s != [] && s[|s| - 1] != SLASH
  {
    var head := segments[0];
    assert PlainSegment(head);
    if |segments| == 1 {
      FirstSlash(head, []);
      assert head[..|head|] == head;
    } else {
      var rest := Joined(segments[1..]);
      SegmentsAreSafe(segments[1..]);
      FirstSlash(head, rest);
      var s := head + [SLASH] + rest;
      assert s[..|head|] == head && s[|head| + 1..] == rest;
    }
  }

  function Under(segments: seq<Bytes>, trailing: bool): Bytes {
    Joined([PACKAGE] + segments) + if trailing then [SLASH] else []
  }

  lemma PackagePlain(segments: seq<Bytes>)
    ensures AllPlain([PACKAGE] + segments) <==> AllPlain(segments)
  {
    assert PlainSegment(PACKAGE);
  }

  lemma UnderIsSafe(segments: seq<Bytes>, trailing: bool)
    requires AllPlain(segments)
    ensures SafePath(Under(segments, trailing))
  {
    hide SafeSegments, PlainSegment;
    PackagePlain(segments);
    var all := [PACKAGE] + segments;
    SegmentsAreSafe(all);
    assert all[1..] == segments;
    var path := Under(segments, trailing);
    if trailing { assert path[..|path| - 1] == Joined(all); } else { assert path == Joined(all); }
    if segments == [] {
      assert all == [PACKAGE] && Joined(all) == PACKAGE;
    } else {
      assert PACKAGE + [SLASH] <= Joined(all);
    }
  }

  lemma SafeIsUnder(path: Bytes) returns (segments: seq<Bytes>, trailing: bool)
    requires SafePath(path)
    ensures AllPlain(segments) && path == Under(segments, trailing)
  {
    hide SafeSegments, PlainSegment;
    trailing := path != [] && path[|path| - 1] == SLASH;
    var p := if trailing then path[..|path| - 1] else path;
    var all := SafeHasSegments(p);
    PackageFirst(p);
    segments := all[1..];
    assert all == [PACKAGE] + segments;
    PackagePlain(segments);
    if !trailing { assert Joined(all) + [] == path; }
  }

  lemma PackageFirst(p: Bytes)
    requires p == PACKAGE || PACKAGE + [SLASH] <= p
    ensures p[..IndexOf(p, SLASH, 0)] == PACKAGE
  {
    if p == PACKAGE {
      FirstSlash(p, []);
    } else {
      assert p == PACKAGE + [SLASH] + p[8..];
      FirstSlash(PACKAGE, p[8..]);
    }
  }

  /**
   Exactly the paths the reader takes: the package directory, or segments under it that are neither empty nor
   "." nor ".." and hold no slash, backslash or NUL, with at most one trailing slash.
   */
  lemma SafePathExactly(path: Bytes)
    ensures SafePath(path) <==> exists segments, trailing :: AllPlain(segments) && path == Under(segments, trailing)
  {
    hide SafePath, AllPlain, Under;
    if SafePath(path) { var segments, trailing := SafeIsUnder(path); }
    if segments, trailing :| AllPlain(segments) && path == Under(segments, trailing) { UnderIsSafe(segments, trailing); }
  }
}
