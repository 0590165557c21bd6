/** What canonicalizing a package tarball keeps, and exactly when it is a fixed point. */
module TarCanonical {
  import opened Outcomes
  import opened Utf8
  import opened TarFormat
  import opened TarRoundTrip
  import SeqSets

  // ---------------------------------------------------------------- ordering by path bytes

  lemma {:induction false} LeqTotal(a: Bytes, b: Bytes)
    ensures BytesLeq(a, b) || BytesLeq(b, a)
    ensures BytesLeq(a, b) && BytesLeq(b, a) ==> a == b
  {
    if a != [] && b != [] && a[0] == b[0] {
      LeqTotal(a[1..], b[1..]);
      assert a == [a[0]] + a[1..] && b == [b[0]] + b[1..];
    }
  }

  lemma {:induction false} LeqTransitive(a: Bytes, b: Bytes, c: Bytes)
    requires BytesLeq(a, b) && BytesLeq(b, c)
    ensures BytesLeq(a, c)
  {
    if a != [] && a[0] == b[0] && b[0] == c[0] { LeqTransitive(a[1..], b[1..], c[1..]); }
  }

  /** At `k` the texts differ first, and `a` has the smaller byte. */
  predicate SmallerAt(a: Bytes, b: Bytes, k: nat) { k < |a| && k < |b| && a[..k] == b[..k] && a[k] < b[k] }

  lemma SmallerCons(x: byte, a: Bytes, b: Bytes, k: nat)
    ensures SmallerAt([x] + a, [x] + b, k + 1) <==> SmallerAt(a, b, k)
  {
    if k < |a| && k < |b| {
      assert ([x] + a)[..k + 1] == [x] + a[..k] && ([x] + b)[..k + 1] == [x] + b[..k];
      assert ([x] + a[..k])[1..] == a[..k] && ([x] + b[..k])[1..] == b[..k];
    }
  }

  /** The order is that of the first differing byte, a prefix coming first. */
  lemma {:induction false} LeqExactly(a: Bytes, b: Bytes)
    ensures BytesLeq(a, b) <==> a <= b || exists k | 0 <= k < |a| :: SmallerAt(a, b, k)
  {
    if a != [] && b != [] {
      if a[0] == b[0] {
        var s, t := a[1..], b[1..];
        assert a == [a[0]] + s && b == [a[0]] + t;
        LeqExactly(s, t);
        forall k: nat ensures SmallerAt(a, b, k + 1) <==> SmallerAt(s, t, k) { SmallerCons(a[0], s, t, k); }
        assert !SmallerAt(a, b, 0);
        if k :| 0 <= k < |a| && SmallerAt(a, b, k) { assert SmallerAt(s, t, k - 1); }
        if k :| 0 <= k < |s| && SmallerAt(s, t, k) { assert SmallerAt(a, b, k + 1); }
      } else {
        assert SmallerAt(a, b, 0) <==> a[0] < b[0];
      }
    }
  }

  predicate SortedByPath(es: seq<Entry>) {
    forall i, j :: 0 <= i < j < |es| ==> BytesLeq(es[i].path, es[j].path)
  }

  lemma {:induction false} InsertKeeps(e: Entry, es: seq<Entry>)
    ensures multiset(InsertByPath(e, es)) == multiset(es) + multiset{e}
  {
    if es != [] && !BytesLeq(e.path, es[0].path) {
      InsertKeeps(e, es[1..]);
      assert es == [es[0]] + es[1..];
    }
  }

  lemma {:induction false} InsertSorted(e: Entry, es: seq<Entry>)
    requires SortedByPath(es)
    ensures SortedByPath(InsertByPath(e, es))
  {
    if es == [] || BytesLeq(e.path, es[0].path) {
      forall j | 0 <= j < |es| ensures BytesLeq(e.path, es[j].path) {
        if j > 0 { LeqTransitive(e.path, es[0].path, es[j].path); }
      }
    } else {
      var tail := InsertByPath(e, es[1..]);
      InsertSorted(e, es[1..]);
      InsertKeeps(e, es[1..]);
      LeqTotal(e.path, es[0].path);
      forall j | 0 <= j < |tail| ensures BytesLeq(es[0].path, tail[j].path) {
        assert tail[j] in multiset(tail);
      }
    }
  }

  lemma {:induction false} InsertSum(e: Entry, es: seq<Entry>, f: Entry -> nat)
    ensures SumBy(InsertByPath(e, es), f) == SumBy(es, f) + f(e)
  {
    hide SumBy;
    if es == [] || BytesLeq(e.path, es[0].path) {
      SumConcat([e], es, f);
      SumOne(e, f);
    } else {
      InsertSum(e, es[1..], f);
      assert es == [es[0]] + es[1..];
      SumConcat([es[0]], InsertByPath(e, es[1..]), f);
      SumConcat([es[0]], es[1..], f);
    }
  }

  lemma {:induction false} SortSorts(es: seq<Entry>)
    ensures SortedByPath(SortByPath(es))
    ensures multiset(SortByPath(es)) == multiset(es)
  {
    if es != [] {
      SortSorts(es[1..]);
      InsertSorted(es[0], SortByPath(es[1..]));
      InsertKeeps(es[0], SortByPath(es[1..]));
      assert es == [es[0]] + es[1..];
    }
  }

  lemma {:induction false} SortSum(es: seq<Entry>, f: Entry -> nat)
    ensures SumBy(SortByPath(es), f) == SumBy(es, f)
  {
    if es != [] {
      SortSum(es[1..], f);
      InsertSum(es[0], SortByPath(es[1..]), f);
      assert es == [es[0]] + es[1..];
      SumConcat([es[0]], es[1..], f);
      SumOne(es[0], f);
    }
  }

  /** The heads of two path-sorted lists of the same distinct members agree. */
  lemma SameHead(a: seq<Entry>, b: seq<Entry>)
    requires SortedByPath(a) && SortedByPath(b) && multiset(a) == multiset(b) && DistinctPaths(a)
    requires a != [] && b != []
    ensures a[0] == b[0]
  {
    assert a[0] in multiset(b) && b[0] in multiset(a);
    var i :| 0 <= i < |b| && b[i] == a[0];
    var j :| 0 <= j < |a| && a[j] == b[0];
    LeqTotal(a[0].path, b[0].path);
  }

  /** Two path-sorted lists of the same distinct members are the same list. */
  lemma {:induction false} SortedUnique(a: seq<Entry>, b: seq<Entry>)
    requires SortedByPath(a) && SortedByPath(b) && multiset(a) == multiset(b) && DistinctPaths(a)
    ensures a == b
  {
    hide BytesLeq;
    assert |a| == |multiset(a)| == |b|;
    if a != [] {
      SameHead(a, b);
      RemoveHead(a);
      RemoveHead(b);
      SortedUnique(a[1..], b[1..]);
    }
  }

  lemma RemoveHead(a: seq<Entry>)
    requires a != []
    ensures a == [a[0]] + a[1..] && multiset(a[1..]) == multiset(a) - multiset{a[0]}
  {
    assert a == [a[0]] + a[1..];
  }

  lemma DistinctPermutes(a: seq<Entry>, b: seq<Entry>)
    requires multiset(a) == multiset(b) && DistinctPaths(a)
    ensures DistinctPaths(b)
  {
    SeqSets.KeysDistinctPermute(a, b, (e: Entry) => e.path);
  }

  /** Sorting keeps a list admissible. */
  lemma SortAdmissible(es: seq<Entry>, limits: Limits)
    requires Admissible(es, limits)
    ensures Admissible(SortByPath(es), limits)
  {
    var s := SortByPath(es);
    SortSorts(es);
    SortSum(es, FileUnit);
    SortSum(es, PayloadSize);
    DistinctPermutes(es, s);
    forall e <- s ensures Acceptable(e, limits) { assert e in multiset(es); }
  }

  // ---------------------------------------------------------------- what the reader returns

  /**
   The reader only ever extends its list, every list it returns is admissible, and the bytes it
   consumed are at least the canonical length of the members it added plus the terminator.
   */
  lemma {:induction false} ReaderSound(tar: Bytes, limits: Limits, offset: nat, pending: Option<Bytes>, entries: seq<Entry>)
    requires offset <= |tar| && Admissible(entries, limits) && (pending.Some? ==> Valid(pending.value))
    ensures var r := ReadFrom(tar, limits, offset, pending, entries);
            r.Ok? ==> && entries <= r.value && Admissible(r.value, limits)
                      && |tar| - offset >= SumBy(r.value, MemberLength) - SumBy(entries, MemberLength) + 1024
    decreases |tar| - offset
  {
    hide Admissible, Admit, ReadMember, SumBy;
    if offset + BLOCK <= |tar| && !IsZero(tar[offset..offset + BLOCK]) && ReadMember(tar, limits, offset).Ok? {
      var m := ReadMember(tar, limits, offset).value;
      if m.typ == TYPE_PAX || m.typ == TYPE_PAX_GLOBAL {
        var p := PaxPath(m.data, 0, None);
        if p.Ok? { ReaderSound(tar, limits, m.next, if p.value.Some? then p.value else pending, entries); }
      } else if m.typ == TYPE_GNU_LONG {
        var p := GnuLongPath(m.data);
        if p.Ok? { ReaderSound(tar, limits, m.next, Some(p.value), entries); }
      } else {
        var a := Admit(tar[offset..offset + BLOCK], m, pending, limits,
                       PathsOf(entries), FileCount(entries), FileBytes(entries));
        if a.Ok? {
          AdmitSound(tar[offset..offset + BLOCK], m, pending, limits, entries);
          ReaderSound(tar, limits, m.next, None, entries + [a.value]);
        }
      }
    }
  }

  lemma AdmitSound(h: HeaderBlock, m: Member, pending: Option<Bytes>, limits: Limits, entries: seq<Entry>)
    requires Admissible(entries, limits) && (pending.Some? ==> Valid(pending.value))
    requires Valid(m.name) && Valid(m.prefix) && |m.data| <= limits.maxEntryBytes
    ensures var a := Admit(h, m, pending, limits, PathsOf(entries), FileCount(entries), FileBytes(entries));
            a.Ok? ==> && Admissible(entries + [a.value], limits)
                      && SumBy(entries + [a.value], MemberLength)
                         == SumBy(entries, MemberLength) + BLOCK + PaddedSize(|m.data|)
  {
    hide SumBy, SafePath, Valid, ParseOctal;
    var a := Admit(h, m, pending, limits, PathsOf(entries), FileCount(entries), FileBytes(entries));
    if a.Ok? {
      var e := a.value;
      JoinValid(m.prefix, m.name);
      SumConcat(entries, [e], FileUnit);
      SumConcat(entries, [e], PayloadSize);
      SumConcat(entries, [e], MemberLength);
      SumOne(e, FileUnit);
      SumOne(e, PayloadSize);
      SumOne(e, MemberLength);
    }
  }

  lemma JoinValid(prefix: Bytes, name: Bytes)
    requires Valid(prefix) && Valid(name)
    ensures Valid(JoinPath(prefix, name))
  {
    assert Valid([SLASH]);
    ValidConcat(prefix, [SLASH]);
    ValidConcat(prefix + [SLASH], name);
  }

  // ---------------------------------------------------------------- main results

  predicate AllBomFree(es: seq<Entry>) { forall e <- es :: BomFree(e.path) }

  predicate FitsUstar(es: seq<Entry>) { forall e <- es :: Writable(e) }

  lemma {:induction false} MembersLength(es: seq<Entry>)
    requires FitsUstar(es)
    ensures |AllMembers(es)| == SumBy(es, MemberLength)
  {
    hide Writable, MemberBytes;
    if es != [] {
      MembersLength(es[1..]);
      assert es == [es[0]] + es[1..];
      SumConcat([es[0]], es[1..], MemberLength);
      SumOne(es[0], MemberLength);
    }
  }

  lemma SortedMembers(es: seq<Entry>)
    ensures forall e :: e in es <==> e in SortByPath(es)
  {
    SortSorts(es);
    SeqSets.SameElements(es, SortByPath(es));
  }

  /** The writer succeeds exactly on lists that fit ustar, and writes the sorted members and two zero blocks. */
  lemma CanonicalTarIs(es: seq<Entry>)
    ensures CanonicalTar(es).Ok? <==> FitsUstar(es)
    ensures FitsUstar(es) ==> && FitsUstar(SortByPath(es))
                              && CanonicalTar(es).value == AllMembers(SortByPath(es)) + Zeros(1024)
                              && |CanonicalTar(es).value| == SumBy(es, MemberLength) + 1024
  {
    SortedMembers(es);
    if FitsUstar(es) {
      MembersLength(SortByPath(es));
      SortSum(es, MemberLength);
    }
  }

  /** A path fits ustar exactly when it is short or has a slash that leaves two short halves. */
  lemma WritableWhen(e: Entry)
    ensures Writable(e) <==>
            && (|e.path| <= 100 || exists k :: k > 0 && Fits(e.path, k))
            && PayloadSize(e) < Pow8(11)
  {
    FitsOctalBelow(PayloadSize(e), 11);
  }

  lemma RereadPath(e: Entry)
    requires SafePath(e.path) && Writable(e)
    ensures PathLength(Reread(e)) <= PathLength(e)
    ensures !BomFree(e.path) ==> PathLength(Reread(e)) < PathLength(e)
  {
    hide SafePath, SplitUstarPath;
    SafePathFacts(e.path);
    SplitJoins(e.path);
  }

  lemma {:induction false} RereadShrinks(es: seq<Entry>)
    requires forall e <- es :: Valid(e.path) && SafePath(e.path)
    requires FitsUstar(es)
    ensures SumBy(RereadAll(es), PathLength) <= SumBy(es, PathLength)
    ensures !AllBomFree(es) ==> SumBy(RereadAll(es), PathLength) < SumBy(es, PathLength)
  {
    hide Valid, SafePath, Writable, BomFree, Reread;
    if es != [] {
      var init, last := es[..|es| - 1], es[|es| - 1];
      RereadShrinks(init);
      assert RereadAll(es)[..|es| - 1] == RereadAll(init);
      RereadPath(last);
      assert es == init + [last];
    }
  }

  function PathLength(e: Entry): nat { |e.path| }

  lemma RereadSame(es: seq<Entry>)
    requires RereadAll(es) == es && FitsUstar(es) && forall e <- es :: Valid(e.path) && SafePath(e.path)
    ensures AllBomFree(es)
  {
    RereadShrinks(es);
  }

  /**
   Round trip. For every list the reader can return and ustar can hold, within the unpacked limit,
   reading the canonical tar gives exactly the list sorted by path bytes -- if and only if no split
   name starts with a byte order mark.
   */
  lemma RoundTrip(es: seq<Entry>, limits: Limits)
    requires ValidLimits(limits) && Admissible(es, limits) && FitsUstar(es)
    requires SumBy(es, MemberLength) + 1024 <= limits.maxUnpackedBytes
    ensures CanonicalTar(es).Ok?
    ensures ReadTar(CanonicalTar(es).value, limits) == Ok(SortByPath(es)) <==> AllBomFree(es)
  {
    hide Writable, Acceptable, BomFree, ReadFrom, SumBy;
    var sorted := SortByPath(es);
    CanonicalTarIs(es);
    SortedMembers(es);
    SortAdmissible(es, limits);
    var tar := CanonicalTar(es).value;
    assert tar[0..] == tar;
    ReadMembersRereads(tar, limits, 0, [], sorted);
    assert [] + RereadAll(sorted) == RereadAll(sorted) && [] + sorted == sorted;
    if AllBomFree(es) {
      ReadMembersBack(tar, limits, 0, [], sorted);
    } else if ReadTar(tar, limits) == Ok(sorted) {
      forall e <- sorted ensures Valid(e.path) && SafePath(e.path) { AcceptablePath(e, limits); }
      RereadSame(sorted);
    }
  }

  lemma AcceptablePath(e: Entry, limits: Limits)
    requires Acceptable(e, limits)
    ensures Valid(e.path) && SafePath(e.path)
  {
  }

  /** Every list the reader returns is admissible, and its canonical tar is no longer than the input. */
  lemma ReaderOutput(tar: Bytes, limits: Limits)
    requires ReadTar(tar, limits).Ok?
    ensures var es := ReadTar(tar, limits).value;
            Admissible(es, limits) && SumBy(es, MemberLength) + 1024 <= |tar| <= limits.maxUnpackedBytes
  {
    ReaderSound(tar, limits, 0, None, []);
  }

  lemma CanonicalizeNeverLengthens(tar: Bytes, limits: Limits)
    requires Canonicalize(tar, limits).Ok?
    ensures |Canonicalize(tar, limits).value| <= |tar|
  {
    hide ReadTar, SortByPath, WriteMembers;
    ReaderOutput(tar, limits);
    CanonicalTarIs(ReadTar(tar, limits).value);
  }

  /** The canonical bytes do not depend on the order of the members. */
  lemma CanonicalOrderFree(a: seq<Entry>, b: seq<Entry>)
    requires multiset(a) == multiset(b) && DistinctPaths(a)
    ensures CanonicalTar(a) == CanonicalTar(b)
  {
    SortSorts(a);
    SortSorts(b);
    DistinctPermutes(a, SortByPath(a));
    SortedUnique(SortByPath(a), SortByPath(b));
  }

  lemma HeaderInjective(a: Entry, b: Entry, limits: Limits)
    requires Writable(a) && Writable(b) && Acceptable(a, limits) && Acceptable(b, limits)
    requires HeaderOf(a) == HeaderOf(b)
    ensures a.path == b.path && a.mode == b.mode && a.isFile == b.isFile && |a.data| == |b.data|
  {
    hide HeaderOf, Valid, SafePath, ParseOctal, RawString, HeaderSum, SplitUstarPath;
    SafePathFacts(a.path);
    SafePathFacts(b.path);
    HeaderReadsAs(a);
    HeaderReadsAs(b);
    SplitJoins(a.path);
    SplitJoins(b.path);
  }

  lemma MemberInjective(tar: Bytes, offset: nat, a: Entry, b: Entry, limits: Limits)
    requires Writable(a) && Writable(b) && Acceptable(a, limits) && Acceptable(b, limits)
    requires offset + |MemberBytes(a)| <= |tar| && offset + |MemberBytes(b)| <= |tar|
    requires tar[offset..offset + |MemberBytes(a)|] == MemberBytes(a)
    requires tar[offset..offset + |MemberBytes(b)|] == MemberBytes(b)
    ensures a == b
  {
    hide HeaderOf, Valid, SafePath, SplitUstarPath, MemberBytes;
    MemberLayout(tar, offset, a);
    MemberLayout(tar, offset, b);
    HeaderInjective(a, b, limits);
  }

  /** Different lists of members have different canonical streams. */
  lemma {:induction false} StreamInjective(tar: Bytes, offset: nat, a: seq<Entry>, b: seq<Entry>, limits: Limits)
    requires FitsUstar(a) && FitsUstar(b)
    requires forall e :: e in a || e in b ==> Acceptable(e, limits)
    requires offset <= |tar|
    requires tar[offset..] == AllMembers(a) + Zeros(1024) && tar[offset..] == AllMembers(b) + Zeros(1024)
    ensures a == b
    decreases |a|
  {
    hide Acceptable, Writable, MemberBytes;
    if a != [] && b != [] {
      var n := StreamStep(tar, offset, a);
      var k := StreamStep(tar, offset, b);
      MemberInjective(tar, offset, a[0], b[0], limits);
      StreamInjective(tar, offset + n, a[1..], b[1..], limits);
      assert a == [a[0]] + a[1..] && b == [b[0]] + b[1..];
    }
  }

  /**
   Idempotence. Canonicalizing a canonical tar changes nothing -- if and only if no split name of
   the members starts with a byte order mark.
   */
  lemma CanonicalizeIdempotent(tar: Bytes, limits: Limits)
    requires Canonicalize(tar, limits).Ok?
    ensures var c := Canonicalize(tar, limits).value;
            Canonicalize(c, limits) == Ok(c) <==> AllBomFree(ReadTar(tar, limits).value)
  {
    hide ReadTar, CanonicalTar, SumBy, BomFree, Writable, Acceptable;
    var es := ReadTar(tar, limits).value;
    var sorted := SortByPath(es);
    var c := Canonicalize(tar, limits).value;
    ReaderOutput(tar, limits);
    ReadTarLimits(tar, limits);
    CanonicalTarIs(es);
    RoundTrip(es, limits);
    if AllBomFree(es) {
      SortSorts(es);
      CanonicalOrderFree(es, sorted);
    } else if Canonicalize(c, limits) == Ok(c) {
      IdempotentOnlyBomFree(es, c, limits);
    }
  }

  lemma ReadTarLimits(tar: Bytes, limits: Limits)
    requires ReadTar(tar, limits).Ok?
    ensures ValidLimits(limits)
  {
  }

  lemma IdempotentOnlyBomFree(es: seq<Entry>, c: Bytes, limits: Limits)
    requires Admissible(es, limits) && FitsUstar(es) && CanonicalTar(es) == Ok(c)
    requires ReadTar(c, limits).Ok? && CanonicalTar(ReadTar(c, limits).value) == Ok(c)
    ensures AllBomFree(es)
  {
    hide CanonicalTar, SumBy, BomFree, Writable, Acceptable, ReadFrom, AllMembers;
    var sorted, es' := SortByPath(es), ReadTar(c, limits).value;
    var sorted' := SortByPath(es');
    SortAdmissible(es, limits);
    ReaderOutput(c, limits);
    SortAdmissible(es', limits);
    CanonicalTarIs(es);
    CanonicalTarIs(es');
    assert c[0..] == c;
    StreamInjective(c, 0, sorted, sorted', limits);
    ReadMembersRereads(c, limits, 0, [], sorted);
    assert [] + RereadAll(sorted) == RereadAll(sorted);
    SortSum(es', PathLength);
    forall e <- sorted ensures Valid(e.path) && SafePath(e.path) { AcceptablePath(e, limits); }
    RereadShrinks(sorted);
    SortedMembers(es);
  }

  // ---------------------------------------------------------------- inspection

  const MANIFEST_PATH: Bytes := PACKAGE + [SLASH] + [0x70, 0x61, 0x63, 0x6B, 0x61, 0x67, 0x65, 0x2E, 0x6A, 0x73, 0x6F, 0x6E]

  predicate IsManifest(e: Entry) { e.path == MANIFEST_PATH && e.isFile }

  function FindManifest(es: seq<Entry>): (r: Option<Bytes>)
    ensures r.Some? <==> exists e :: e in es && IsManifest(e)
    ensures r.Some? ==> exists e :: e in es && IsManifest(e) && e.data == r.value
  {
    if es == [] then None
    else if IsManifest(es[0]) then Some(es[0].data)
    else
      assert es == [es[0]] + es[1..];
      FindManifest(es[1..])
  }

  datatype Inspection = Inspection(manifestBytes: Bytes, unpackedSize: nat, fileCount: nat)

  /** `inspectPackageTarball` below the gzip layer, without the JSON manifest checks. */
  function Inspect(es: seq<Entry>): Option<Inspection> {
    match FindManifest(es)
    case None => None
    case Some(bytes) => Some(Inspection(bytes, FileBytes(es), FileCount(es)))
  }

  /** No two members of the list are told apart only by a mark that the reader drops. */
  predicate RereadsApart(es: seq<Entry>) { forall a, b :: a in es && b in es && a != b ==> Reread(a).path != Reread(b).path }

  predicate RereadsSafe(es: seq<Entry>) { forall e <- es :: SafePath(Reread(e).path) }

  lemma {:induction false} RereadSum(es: seq<Entry>, f: Entry -> nat)
    requires forall e <- es :: f(Reread(e)) == f(e)
    ensures SumBy(RereadAll(es), f) == SumBy(es, f)
  {
    hide Reread;
    if es != [] {
      var n := |es| - 1;
      assert RereadAll(es)[..n] == RereadAll(es[..n]);
      RereadSum(es[..n], f);
      assert es[n] in es;
    }
  }

  lemma RereadDistinct(es: seq<Entry>)
    requires DistinctPaths(es)
    ensures DistinctPaths(RereadAll(es)) <==> RereadsApart(es)
  {
    hide Reread;
    var rs := RereadAll(es);
    if RereadsApart(es) {
      forall i, j | 0 <= i < j < |rs| ensures rs[i].path != rs[j].path {
        assert es[i] in es && es[j] in es && es[i] != es[j];
      }
    }
    if DistinctPaths(rs) {
      forall a, b | a in es && b in es && a != b ensures Reread(a).path != Reread(b).path {
        var i :| 0 <= i < |es| && es[i] == a;
        var j :| 0 <= j < |es| && es[j] == b;
        assert rs[i].path == Reread(a).path && rs[j].path == Reread(b).path;
      }
    }
  }

  lemma RereadSafeAll(es: seq<Entry>)
    ensures AllSafe(RereadAll(es)) <==> RereadsSafe(es)
  {
    hide Reread, SafePath;
    var rs := RereadAll(es);
    forall i | 0 <= i < |es| ensures rs[i] in rs && es[i] in es { }
    if AllSafe(rs) {
      forall e <- es ensures SafePath(Reread(e).path) {
        var i :| 0 <= i < |es| && es[i] == e;
        assert rs[i] in rs;
      }
    }
  }

  /**
   Exactly when a canonical tar reads back: the paths its headers decode to are safe and distinct. What is
   read is then the sorted list with those paths.
   */
  lemma ReadsBackExactly(es: seq<Entry>, limits: Limits)
    requires ValidLimits(limits) && Admissible(es, limits) && FitsUstar(es)
    requires SumBy(es, MemberLength) + 1024 <= limits.maxUnpackedBytes
    ensures CanonicalTar(es).Ok?
    ensures var r := ReadTar(CanonicalTar(es).value, limits);
            && (r.Ok? <==> RereadsSafe(es) && RereadsApart(es))
            && (r.Ok? ==> r.value == RereadAll(SortByPath(es)))
  {
    hide Writable, Acceptable, ReadTar, SumBy, RereadsSafe, RereadsApart, AllMembers, CanonicalTar, Admissible;
    var sorted := SortByPath(es);
    CanonicalTarIs(es);
    SortedMembers(es);
    SortAdmissible(es, limits);
    SortedReadsBack(sorted, CanonicalTar(es).value, limits);
    SameRereads(es, sorted);
  }

  lemma SortedReadsBack(sorted: seq<Entry>, tar: Bytes, limits: Limits)
    requires ValidLimits(limits) && Admissible(sorted, limits) && FitsUstar(sorted)
    requires |tar| <= limits.maxUnpackedBytes && tar == AllMembers(sorted) + Zeros(1024)
    ensures var r := ReadTar(tar, limits);
            && (r.Ok? <==> RereadsSafe(sorted) && RereadsApart(sorted))
            && (r.Ok? ==> r.value == RereadAll(sorted))
  {
    hide Writable, Acceptable, ReadFrom, SumBy, Reread, AllMembers, RereadsSafe, RereadsApart, AllSafe;
    assert tar[0..] == tar;
    RereadCounts(sorted, limits);
    assert [] + RereadAll(sorted) == RereadAll(sorted);
    ReadMembersRereads(tar, limits, 0, [], sorted);
    ReadMembersExactly(tar, limits, 0, [], sorted);
    RereadDistinct(sorted);
    RereadSafeAll(sorted);
  }

  lemma SameRereads(a: seq<Entry>, b: seq<Entry>)
    requires forall e :: e in a <==> e in b
    ensures RereadsSafe(a) <==> RereadsSafe(b)
    ensures RereadsApart(a) <==> RereadsApart(b)
  {
    hide Reread, SafePath;
  }

  lemma RereadCounts(sorted: seq<Entry>, limits: Limits)
    requires Admissible(sorted, limits)
    ensures WithinCounts(limits, [], RereadAll(sorted)) && DistinctPaths([])
  {
    assert [] + RereadAll(sorted) == RereadAll(sorted);
    RereadSum(sorted, FileUnit);
    RereadSum(sorted, PayloadSize);
  }

  /** A dropped mark never makes or unmakes a manifest: only a path of more than a hundred bytes can lose one. */
  lemma RereadManifest(e: Entry)
    requires SafePath(e.path) && Writable(e)
    ensures IsManifest(Reread(e)) <==> IsManifest(e)
    ensures Reread(e).data == e.data
  {
    hide SafePath, ToOctal;
    SafePathFacts(e.path);
    SplitJoins(e.path);
    assert |MANIFEST_PATH| == 20;
  }

  lemma {:induction false} RereadFindManifest(es: seq<Entry>)
    requires forall e <- es :: SafePath(e.path) && Writable(e)
    ensures FindManifest(RereadAll(es)) == FindManifest(es)
  {
    hide SafePath, Writable, Reread, IsManifest;
    if es != [] {
      assert RereadAll(es)[1..] == RereadAll(es[1..]);
      assert es[0] in es;
      RereadManifest(es[0]);
      RereadFindManifest(es[1..]);
    }
  }

  /**
   Whenever the canonical tar reads back -- exactly when the decoded paths are safe and distinct -- inspection
   reports the same manifest bytes, unpacked size and file count as for the original.
   */
  lemma CanonicalizeKeepsInspection(tar: Bytes, limits: Limits)
    requires Canonicalize(tar, limits).Ok?
    ensures var es, c := ReadTar(tar, limits).value, Canonicalize(tar, limits).value;
            && (ReadTar(c, limits).Ok? <==> RereadsSafe(es) && RereadsApart(es))
            && (ReadTar(c, limits).Ok? ==> Inspect(ReadTar(c, limits).value) == Inspect(es))
  {
    hide ReadTar, CanonicalTar, SumBy, BomFree, Writable, Acceptable, IsManifest, Reread, SafePath, FindManifest;
    var es := ReadTar(tar, limits).value;
    var sorted := SortByPath(es);
    ReaderOutput(tar, limits);
    ReadTarLimits(tar, limits);
    CanonicalTarIs(es);
    ReadsBackExactly(es, limits);
    SortAdmissible(es, limits);
    SortSum(es, FileUnit);
    SortSum(es, PayloadSize);
    RereadTotals(sorted);
    SortedMembers(es);
    ManifestUnique(es, sorted);
    forall e <- sorted ensures SafePath(e.path) { AcceptablePath(e, limits); }
    RereadFindManifest(sorted);
  }

  lemma RereadTotals(es: seq<Entry>)
    ensures FileCount(RereadAll(es)) == FileCount(es) && FileBytes(RereadAll(es)) == FileBytes(es)
  {
    RereadSum(es, FileUnit);
    RereadSum(es, PayloadSize);
  }

  lemma ManifestUnique(a: seq<Entry>, b: seq<Entry>)
    requires DistinctPaths(a) && forall e :: e in a <==> e in b
    ensures FindManifest(a) == FindManifest(b)
  {
    if FindManifest(a).Some? {
      var x :| x in a && IsManifest(x) && x.data == FindManifest(a).value;
      var y :| y in b && IsManifest(y) && y.data == FindManifest(b).value;
      assert y in a;
    }
  }

  // ---------------------------------------------------------------- the mark that is lost

  function Letters(n: nat): (r: Bytes)
    ensures |r| == n && forall i :: 0 <= i < n ==> r[i] == 0x61
  {
    seq(n, _ => 0x61)
  }

  function PathTo(tail: Bytes): Bytes { PACKAGE + [SLASH] + tail }

  function MarkedPath(n: nat): Bytes { PathTo(BOM + Letters(n)) }

  /**
   A member whose 100-byte split name starts with a byte order mark does not survive: the canonical
   tar of this one-file list reads back as something else.
   */
  lemma MarkedNameIsLost(limits: Limits)
    requires ValidLimits(limits) && limits.maxUnpackedBytes >= 1536
    ensures var e := Entry(MarkedPath(97), 0x1A4, true, []);
            && Admissible([e], limits) && FitsUstar([e]) && CanonicalTar([e]).Ok?
            && ReadTar(CanonicalTar([e]).value, limits) != Ok([e])
  {
    MarkedValid(97);
    PairMember(BOM + Letters(97), limits);
    MarkedSplit(BOM + Letters(97));
    assert BOM <= BOM + Letters(97);
    hide Valid, SafePath, SplitUstarPath, SumBy, CanonicalTar, SortByPath, ReadFrom, PathTo, ToOctal;
    assert EmptyFile(BOM + Letters(97)) == Entry(MarkedPath(97), 0x1A4, true, []);
    LostWhenMarked(Entry(MarkedPath(97), 0x1A4, true, []), limits);
  }

  lemma LostWhenMarked(e: Entry, limits: Limits)
    requires ValidLimits(limits) && limits.maxUnpackedBytes >= 1536
    requires Acceptable(e, limits) && Writable(e) && e.isFile && e.data == [] && !BomFree(e.path)
    ensures Admissible([e], limits) && FitsUstar([e]) && CanonicalTar([e]).Ok?
    ensures ReadTar(CanonicalTar([e]).value, limits) != Ok([e])
  {
    hide Acceptable, Writable, BomFree, SumBy, CanonicalTar, ReadTar;
    SumOne(e, FileUnit);
    SumOne(e, PayloadSize);
    SumOne(e, MemberLength);
    assert [e][1..] == [] && SortByPath([]) == [];
    assert SortByPath([e]) == [e];
    RoundTrip([e], limits);
  }

  /** Bytes of the tails used here: the mark and one letter. */
  predicate Plain(tail: Bytes) { forall i :: 0 <= i < |tail| ==> tail[i] == 0xEF || tail[i] == 0xBB || tail[i] == 0xBF || tail[i] == 0x61 }

  lemma TailValid(tail: Bytes)
    requires Valid(tail)
    ensures Valid(PathTo(tail))
  {
    AsciiValid(PACKAGE + [SLASH]);
    ValidConcat(PACKAGE + [SLASH], tail);
  }

  lemma MarkedValid(n: nat)
    ensures Valid(Letters(n)) && Valid(BOM + Letters(n))
  {
    AsciiValid(Letters(n));
    assert Scalar(BOM) == 3 && BOM[3..] == [];
    ValidConcat(BOM, Letters(n));
  }

  lemma TailBytes(tail: Bytes)
    ensures var path := PathTo(tail);
            && |path| == 8 + |tail| && path[8..] == tail && path[..7] == PACKAGE && path[7] == SLASH
            && forall i :: 8 <= i < |path| ==> path[i] == tail[i - 8]
  {
  }

  lemma MarkedSafe(tail: Bytes)
    requires Plain(tail) && |tail| >= 3
    ensures SafePath(PathTo(tail))
  {
    var path := PathTo(tail);
    TailBytes(tail);
    hide PathTo;
    assert SafeSegments(tail) by {
      assert IndexOf(tail, SLASH, 0) == |tail|;
      assert tail[..|tail|] == tail;
    }
    assert forall i :: 0 <= i < 7 ==> path[i] == path[..7][i] != SLASH;
    assert IndexOf(path, SLASH, 0) == 7;
    assert path[|path| - 1] != SLASH;
  }

  lemma MarkedSplit(tail: Bytes)
    requires Plain(tail) && 93 <= |tail| <= 100
    ensures SplitUstarPath(PathTo(tail)) == Some(UstarPath(tail, PACKAGE))
  {
    var path := PathTo(tail);
    TailBytes(tail);
    hide PathTo;
    assert Fits(path, 7);
    assert SplitPoint(path, |path| - 1) == 7;
  }

  /**
   Two members that differ only by a mark in the split name: both can be read and written, and the reader
   refuses their canonical tar because both come back under one path.
   */
  lemma MarkedPairIsRefused(limits: Limits)
    requires ValidLimits(limits) && limits.maxUnpackedBytes >= 2048 && limits.maxFileCount >= 2
    ensures var es := [EmptyFile(BOM + Letters(97)), EmptyFile(Letters(97))];
            Admissible(es, limits) && FitsUstar(es) && CanonicalTar(es).Ok? && ReadTar(CanonicalTar(es).value, limits).Err?
  {
    hide EmptyFile, Acceptable, Writable, Reread, CanonicalTar, ReadTar, Valid, Admissible, FitsUstar;
    MarkedValid(97);
    PairMember(BOM + Letters(97), limits);
    PairMember(Letters(97), limits);
    PairRereads(BOM + Letters(97), Letters(97));
    PairRefused(EmptyFile(BOM + Letters(97)), EmptyFile(Letters(97)), limits);
  }

  /** An empty file under the package directory. */
  function EmptyFile(tail: Bytes): Entry { Entry(PathTo(tail), 0x1A4, true, []) }

  lemma PairRefused(a: Entry, b: Entry, limits: Limits)
    requires ValidLimits(limits) && limits.maxUnpackedBytes >= 2048 && limits.maxFileCount >= 2
    requires Acceptable(a, limits) && Acceptable(b, limits) && Writable(a) && Writable(b)
    requires a.isFile && b.isFile && a.data == [] && b.data == [] && a.path != b.path && Reread(a).path == Reread(b).path
    ensures Admissible([a, b], limits) && FitsUstar([a, b]) && CanonicalTar([a, b]).Ok? && ReadTar(CanonicalTar([a, b]).value, limits).Err?
  {
    hide Acceptable, Writable, Reread, CanonicalTar, ReadTar, SumBy, RereadsSafe;
    PairCounts(a, b);
    assert a in [a, b] && b in [a, b];
    ReadsBackExactly([a, b], limits);
  }

  lemma PairMember(tail: Bytes, limits: Limits)
    requires Plain(tail) && 93 <= |tail| <= 100 && Valid(tail) && ValidLimits(limits)
    ensures var e := EmptyFile(tail); Acceptable(e, limits) && Writable(e) && e.isFile && e.data == []
  {
    hide Valid, SafePath, SplitUstarPath, PathTo, Plain;
    TailValid(tail);
    MarkedSafe(tail);
    MarkedSplit(tail);
    FitsOctalBelow(0, 11);
    Pow8Values();
  }

  lemma PairRereads(marked: Bytes, plain: Bytes)
    requires marked == BOM + plain && plain == Letters(97)
    ensures EmptyFile(marked).path != EmptyFile(plain).path && Reread(EmptyFile(marked)).path == Reread(EmptyFile(plain)).path
  {
    MarkedSplit(marked);
    MarkedSplit(plain);
    assert |PathTo(marked)| != |PathTo(plain)|;
    hide SplitUstarPath, PathTo;
    assert plain[..3][0] == 0x61;
    assert StripBom(marked) == plain && StripBom(plain) == plain;
  }

  lemma PairCounts(a: Entry, b: Entry)
    requires a.isFile && b.isFile && a.data == [] && b.data == []
    ensures FileCount([a, b]) == 2 && FileBytes([a, b]) == 0 && SumBy([a, b], MemberLength) == 1024
  {
    assert [a, b] == [a] + [b];
    SumConcat([a], [b], FileUnit);
    SumConcat([a], [b], PayloadSize);
    SumConcat([a], [b], MemberLength);
    SumOne(a, FileUnit);
    SumOne(b, FileUnit);
    SumOne(a, PayloadSize);
    SumOne(b, PayloadSize);
    SumOne(a, MemberLength);
    SumOne(b, MemberLength);
  }

  lemma {:induction false} AsciiValid(s: Bytes)
    requires forall i :: 0 <= i < |s| ==> s[i] < 0x80
    ensures Valid(s)
  {
    if s != [] { AsciiValid(s[1..]); }
  }
}
