/**
 The reader and the canonical writer of `TarFormat` undo each other, up to the byte order mark that
 the fatal decoder drops from the front of a split member name.
 */
module TarRoundTrip {
  import opened Outcomes
  import opened Utf8
  import opened TarFormat

  // ---------------------------------------------------------------- fields of a written header

  lemma {:induction false} TrimEndDrops(digits: Bytes, trailer: Bytes, p: byte -> bool)
    requires digits != [] && !p(digits[|digits| - 1])
    requires forall i :: 0 <= i < |trailer| ==> p(trailer[i])
    ensures TrimEnd(digits + trailer, p) == digits
  {
    var s := digits + trailer;
    if trailer == [] {
      assert s == digits;
    } else {
      assert s[..|s| - 1] == digits + trailer[..|trailer| - 1];
      TrimEndDrops(digits, trailer[..|trailer| - 1], p);
    }
  }

  /** An octal field followed by NULs and spaces reads back as its value. */
  lemma ParseOctalField(digits: Bytes, trailer: Bytes)
    requires digits != [] && OctalDigits(digits) && OctalValue(digits) <= MAX_SAFE_INTEGER
    requires forall i :: 0 <= i < |trailer| ==> NulOrSpace(trailer[i])
    ensures ParseOctal(digits + trailer) == Some(OctalValue(digits))
  {
    assert Ascii(digits + trailer) == digits + trailer;
    TrimEndDrops(digits, trailer, NulOrSpace);
    assert digits + [] == digits;
    TrimEndDrops(digits, [], Whitespace);
    assert TrimStart(digits, Whitespace) == digits;
  }

  lemma ParsePadded(v: nat, n: nat, trailer: Bytes)
    requires 1 <= n && FitsOctal(v, n) && v <= MAX_SAFE_INTEGER
    requires forall i :: 0 <= i < |trailer| ==> NulOrSpace(trailer[i])
    ensures ParseOctal(PadStart(ToOctal(v), n) + trailer) == Some(v)
  {
    PadStartOctal(ToOctal(v), n);
    ParseOctalField(PadStart(ToOctal(v), n), trailer);
  }

  predicate NoNul(s: Bytes) { forall i :: 0 <= i < |s| ==> s[i] != NUL }

  /** A NUL-free string written over zeros, or filling its field, is what the field holds. */
  lemma RawStringIs(h: HeaderBlock, off: nat, len: nat, s: Bytes)
    requires off + len < BLOCK && |s| <= len && NoNul(s)
    requires h[off..off + |s|] == s
    requires |s| < len ==> h[off + |s|] == NUL
    ensures RawString(h, off, len) == s
  {
    forall i | off <= i < off + |s| ensures h[i] != NUL { assert h[i] == s[i - off]; }
  }

  ghost predicate BlankFields(h: HeaderBlock, p: UstarPath, mode: nat, size: nat, typ: byte) {
    && |p.name| <= 100 && |p.prefix| <= 155
    && h[0..|p.name|] == p.name && (|p.name| < 100 ==> h[|p.name|] == NUL)
    && h[345..345 + |p.prefix|] == p.prefix && (|p.prefix| < 155 ==> h[345 + |p.prefix|] == NUL)
    && h[100..108] == PadStart(ToOctal(mode), 7) + [NUL]
    && h[124..136] == PadStart(ToOctal(size), 11) + [NUL]
    && h[156] == typ
  }

  lemma BlankHeaderFields(p: UstarPath, mode: nat, size: nat, typ: byte)
    requires |p.name| <= 100 && |p.prefix| <= 155 && FitsOctal(mode, 7) && FitsOctal(size, 11)
    ensures BlankFields(BlankHeader(p, mode, size, typ), p, mode, size, typ)
    ensures BlankHeader(p, mode, size, typ)[148..156] == Spaces(8)
  {
    hide ToOctal;
    ZeroFits();
    PadStartOctal(ToOctal(mode), 7);
    PadStartOctal(ToOctal(0), 7);
    PadStartOctal(ToOctal(0), 11);
    PadStartOctal(ToOctal(size), 11);
  }

  /** What the reader finds in a header whose blank form has the given fields. */
  ghost predicate ReadsAs(h: HeaderBlock, p: UstarPath, mode: nat, size: nat, typ: byte) {
    && RawString(h, 0, 100) == p.name && RawString(h, 345, 155) == p.prefix
    && ParseOctal(h[100..108]) == Some(mode)
    && ParseOctal(h[124..136]) == Some(size)
    && h[156] == typ
    && ParseOctal(h[148..156]) == Some(HeaderSum(h))
  }

  lemma ChecksumReads(b: HeaderBlock)
    requires b[148..156] == Spaces(8)
    ensures |ChecksumField(SumBytes(b))| == 8
    ensures var h := Splice(b, 148, ChecksumField(SumBytes(b)));
            ParseOctal(h[148..156]) == Some(HeaderSum(h))
  {
    ChecksumFits(b);
    var h := Splice(b, 148, ChecksumField(SumBytes(b)));
    assert forall i :: 148 <= i < 156 ==> b[i] == b[148..156][i - 148];
    assert Splice(h, 148, Spaces(8)) == b;
    assert h[148..156] == ChecksumField(SumBytes(b));
    SumBound(b);
    ParsePadded(SumBytes(b), 6, [NUL, SPACE]);
  }

  lemma StringsRead(b: HeaderBlock, c: Bytes, p: UstarPath, mode: nat, size: nat, typ: byte)
    requires |c| == 8 && BlankFields(b, p, mode, size, typ) && NoNul(p.name) && NoNul(p.prefix)
    ensures var h := Splice(b, 148, c);
            RawString(h, 0, 100) == p.name && RawString(h, 345, 155) == p.prefix
  {
    var h := Splice(b, 148, c);
    assert h[0..|p.name|] == b[0..|p.name|];
    assert h[345..345 + |p.prefix|] == b[345..345 + |p.prefix|];
    RawStringIs(h, 0, 100, p.name);
    RawStringIs(h, 345, 155, p.prefix);
  }

  lemma NumbersRead(b: HeaderBlock, c: Bytes, p: UstarPath, mode: nat, size: nat, typ: byte)
    requires |c| == 8 && BlankFields(b, p, mode, size, typ)
    requires FitsOctal(mode, 7) && FitsOctal(size, 11)
    ensures var h := Splice(b, 148, c);
            ParseOctal(h[100..108]) == Some(mode) && ParseOctal(h[124..136]) == Some(size)
  {
    var h := Splice(b, 148, c);
    assert h[100..108] == b[100..108];
    assert h[124..136] == b[124..136];
    FitsOctalBelow(mode, 7);
    FitsOctalBelow(size, 11);
    Pow8Values();
    ParsePadded(mode, 7, [NUL]);
    ParsePadded(size, 11, [NUL]);
  }

  lemma Pow8Values()
    ensures Pow8(7) == 2097152 && Pow8(11) == 8589934592
  {
    assert Pow8(3) == 512;
    assert Pow8(6) == 512 * 512;
    assert Pow8(9) == 512 * 512 * 512;
  }

  function TypeByte(e: Entry): byte { if e.isFile then TYPE_FILE else TYPE_DIRECTORY }

  lemma HeaderReadsAs(e: Entry)
    requires Writable(e) && NoNul(e.path)
    ensures ReadsAs(HeaderOf(e), SplitUstarPath(e.path).value, e.mode % 512, PayloadSize(e), TypeByte(e))
  {
    ModeFits(e.mode);
    SealedReadsAs(SplitUstarPath(e.path).value, e.mode % 512, PayloadSize(e), TypeByte(e));
  }

  lemma SealedReadsAs(p: UstarPath, mode: nat, size: nat, typ: byte)
    requires |p.name| <= 100 && |p.prefix| <= 155 && NoNul(p.name) && NoNul(p.prefix)
    requires FitsOctal(mode, 7) && FitsOctal(size, 11)
    ensures ReadsAs(Sealed(BlankHeader(p, mode, size, typ)), p, mode, size, typ)
  {
    BlankHeaderFields(p, mode, size, typ);
    var b := BlankHeader(p, mode, size, typ);
    ChecksumReads(b);
    var c := ChecksumField(SumBytes(b));
    StringsRead(b, c, p, mode, size, typ);
    NumbersRead(b, c, p, mode, size, typ);
  }

  // ---------------------------------------------------------------- one written member read back

  /** What the reader guarantees of a single entry. */
  predicate Acceptable(e: Entry, limits: Limits) {
    && Valid(e.path) && SafePath(e.path) && SafeMode(e.mode)
    && |e.data| <= limits.maxEntryBytes && (!e.isFile ==> e.data == [])
  }

  predicate DistinctPaths(es: seq<Entry>) {
    forall i, j :: 0 <= i < j < |es| ==> es[i].path != es[j].path
  }

  /** Every list of entries the reader can return. */
  predicate Admissible(es: seq<Entry>, limits: Limits) {
    && (forall e <- es :: Acceptable(e, limits))
    && DistinctPaths(es)
    && FileCount(es) <= limits.maxFileCount && FileBytes(es) <= limits.maxUnpackedBytes
  }

  /** The path splits so that its name part does not start with a byte order mark. */
  predicate BomFree(path: Bytes) {
    SplitUstarPath(path).Some? ==> !(BOM <= SplitUstarPath(path).value.name)
  }

  /** The entry with the path that a written header decodes to. */
  function Reread(e: Entry): Entry {
    match SplitUstarPath(e.path)
    case None => e
    case Some(p) => e.(path := JoinPath(p.prefix, StripBom(p.name)))
  }

  lemma SafePathFacts(path: Bytes)
    requires SafePath(path)
    ensures path != [] && path[0] == PACKAGE[0] && NoNul(path)
  {
    var p := if path[|path| - 1] == SLASH then path[..|path| - 1] else path;
    assert p[0] == PACKAGE[0];
    forall i | 0 <= i < |path| ensures path[i] != NUL {
      if i < |p| { assert path[i] == p[i]; }
    }
  }

  /** The two halves of a split path are its prefix and name around one slash. */
  lemma SplitJoins(path: Bytes)
    requires path != [] && path[0] == PACKAGE[0] && NoNul(path) && SplitUstarPath(path).Some?
    ensures var p := SplitUstarPath(path).value;
            && |p.name| <= 100 && |p.prefix| <= 155 && NoNul(p.name) && NoNul(p.prefix)
            && JoinPath(p.prefix, p.name) == path
            && (p.prefix == [] || p.prefix[0] == PACKAGE[0])
  {
    if |path| > 100 {
      var k := SplitPoint(path, |path| - 1);
      assert path == path[..k] + [SLASH] + path[k + 1..];
    }
  }

  lemma SplitValid(path: Bytes)
    requires Valid(path) && path != [] && path[0] == PACKAGE[0] && NoNul(path) && SplitUstarPath(path).Some?
    ensures var p := SplitUstarPath(path).value;
            && Decode(p.name) == Some(StripBom(p.name)) && Decode(p.prefix) == Some(p.prefix) && StripBom(p.prefix) == p.prefix
  {
    SplitJoins(path);
    var p := SplitUstarPath(path).value;
    if p.prefix == [] {
      assert p.name == path;
    } else {
      ValidSplit(p.prefix, SLASH, p.name);
    }
  }

  lemma ReadMemberAs(tar: Bytes, limits: Limits, offset: nat, h: HeaderBlock, p: UstarPath, mode: nat, size: nat, typ: byte)
    requires offset + BLOCK + PaddedSize(size) <= |tar| && tar[offset..offset + BLOCK] == h
    requires ReadsAs(h, p, mode, size, typ) && size <= limits.maxEntryBytes
    requires Decode(p.name) == Some(StripBom(p.name)) && Decode(p.prefix) == Some(StripBom(p.prefix))
    ensures ReadMember(tar, limits, offset)
         == Ok(Member(StripBom(p.name), StripBom(p.prefix), typ, tar[offset + BLOCK..offset + BLOCK + size],
                      offset + BLOCK + PaddedSize(size)))
  {
    hide ParseOctal, HeaderSum, RawString, Decode, StripBom, PaddedSize;
  }

  function WrittenMember(e: Entry, next: nat): Member
    requires Writable(e)
  {
    var p := SplitUstarPath(e.path).value;
    Member(StripBom(p.name), p.prefix, TypeByte(e), e.data, next)
  }

  lemma SubSlice(s: Bytes, offset: nat, n: nat, lo: nat, hi: nat)
    requires offset + n <= |s| && lo <= hi <= n
    ensures s[offset..offset + n][lo..hi] == s[offset + lo..offset + hi]
  {
    var t := s[offset..offset + n][lo..hi];
    assert forall i :: 0 <= i < |t| ==> t[i] == s[offset + lo + i];
  }

  lemma MemberLayout(tar: Bytes, offset: nat, e: Entry)
    requires Writable(e) && (!e.isFile ==> e.data == [])
    requires offset + |MemberBytes(e)| <= |tar|
    requires tar[offset..offset + |MemberBytes(e)|] == MemberBytes(e)
    ensures tar[offset..offset + BLOCK] == HeaderOf(e)
    ensures tar[offset + BLOCK..offset + BLOCK + |e.data|] == e.data
  {
    hide HeaderOf, Zeros;
    var m := MemberBytes(e);
    assert m[0..BLOCK] == HeaderOf(e);
    SubSlice(tar, offset, |m|, 0, BLOCK);
    assert m[BLOCK..BLOCK + |e.data|] == e.data;
    SubSlice(tar, offset, |m|, BLOCK, BLOCK + |e.data|);
  }

  lemma ReadWritten(tar: Bytes, limits: Limits, offset: nat, e: Entry)
    requires Writable(e) && Acceptable(e, limits)
    requires offset + |MemberBytes(e)| <= |tar|
    requires tar[offset..offset + |MemberBytes(e)|] == MemberBytes(e)
    ensures ReadMember(tar, limits, offset) == Ok(WrittenMember(e, offset + |MemberBytes(e)|))
  {
    hide HeaderOf, Valid, Decode, StripBom, SafePath, ReadsAs, ReadMember, SplitUstarPath;
    SafePathFacts(e.path);
    SplitValid(e.path);
    HeaderReadsAs(e);
    MemberLayout(tar, offset, e);
    ReadMemberAs(tar, limits, offset, HeaderOf(e), SplitUstarPath(e.path).value, e.mode % 512, PayloadSize(e), TypeByte(e));
  }

  // ---------------------------------------------------------------- the whole stream

  lemma {:induction false} SumConcat(a: seq<Entry>, b: seq<Entry>, f: Entry -> nat)
    ensures SumBy(a + b, f) == SumBy(a, f) + SumBy(b, f)
  {
    if b == [] {
      assert a + b == a;
    } else {
      var s := a + b;
      assert s[..|s| - 1] == a + b[..|b| - 1];
      SumConcat(a, b[..|b| - 1], f);
    }
  }

  lemma SumOne(e: Entry, f: Entry -> nat)
    ensures SumBy([e], f) == f(e)
  {
    assert [e][..0] == [];
  }

  function RereadAll(es: seq<Entry>): (r: seq<Entry>)
    ensures |r| == |es|
    ensures forall i :: 0 <= i < |es| ==> r[i] == Reread(es[i])
  {
    seq(|es|, i requires 0 <= i < |es| => Reread(es[i]))
  }

  /** `e` neither repeats a path of `done` nor exceeds the limits after it. */
  predicate HasRoom(limits: Limits, done: seq<Entry>, e: Entry) {
    && e.path !in PathsOf(done)
    && (e.isFile ==> FileCount(done) + 1 <= limits.maxFileCount)
    && (e.isFile ==> FileBytes(done) + |e.data| <= limits.maxUnpackedBytes)
  }

  /** In an admissible list, an entry is admissible after the ones before it. */
  lemma AdmissibleAt(limits: Limits, done: seq<Entry>, e: Entry, rest: seq<Entry>)
    requires Admissible(done + [e] + rest, limits)
    ensures HasRoom(limits, done, e)
  {
    hide SumBy, Acceptable;
    var all := done + [e] + rest;
    SumConcat(done + [e], rest, FileUnit);
    SumConcat(done + [e], rest, PayloadSize);
    SumConcat(done, [e], FileUnit);
    SumConcat(done, [e], PayloadSize);
    SumOne(e, FileUnit);
    SumOne(e, PayloadSize);
    assert all[|done|] == e;
    assert forall i :: 0 <= i < |done| ==> all[i] == done[i];
  }

  lemma AdmitWritten(limits: Limits, done: seq<Entry>, e: Entry, next: nat)
    requires Writable(e) && Acceptable(e, limits)
    ensures var r := Admit(HeaderOf(e), WrittenMember(e, next), None, limits,
                           PathsOf(done), FileCount(done), FileBytes(done));
            && (r.Ok? <==> SafePath(Reread(e).path) && HasRoom(limits, done, Reread(e)))
            && (r.Ok? ==> r.value == Reread(e))
            && (BomFree(e.path) ==> Reread(e) == e)
  {
    hide HeaderOf, Valid, SafeSegments, ParseOctal, RawString, HeaderSum, SplitUstarPath, FileCount, FileBytes, PathsOf;
    SafePathFacts(e.path);
    SplitJoins(e.path);
    HeaderReadsAs(e);
    var h := HeaderOf(e);
    assert ParseOctal(h[100..108]) == Some(e.mode);
  }

  /** Unfolds the reader over one written member. */
  lemma ReadStep(tar: Bytes, limits: Limits, offset: nat, done: seq<Entry>, e: Entry)
    requires Writable(e) && Acceptable(e, limits)
    requires offset + |MemberBytes(e)| <= |tar|
    requires tar[offset..offset + |MemberBytes(e)|] == MemberBytes(e)
    ensures var next := offset + |MemberBytes(e)|;
            var a := Admit(HeaderOf(e), WrittenMember(e, next), None, limits,
                           PathsOf(done), FileCount(done), FileBytes(done));
            ReadFrom(tar, limits, offset, None, done)
              == if a.Err? then Err(a.error) else ReadFrom(tar, limits, next, None, done + [a.value])
  {
    hide HeaderOf, Valid, SafePath, Admit, ReadMember, FileCount, FileBytes, MemberBytes, SplitUstarPath;
    ReadWritten(tar, limits, offset, e);
    MemberLayout(tar, offset, e);
    assert !IsZero(HeaderOf(e)) by {
      SafePathFacts(e.path);
      HeaderReadsAs(e);
      assert HeaderOf(e)[156] != NUL;
    }
  }

  lemma ReadEnd(tar: Bytes, limits: Limits, offset: nat, done: seq<Entry>)
    requires offset <= |tar| && tar[offset..] == Zeros(1024)
    ensures ReadFrom(tar, limits, offset, None, done) == Ok(done)
  {
    assert tar[offset..offset + BLOCK] == tar[offset..][..BLOCK];
    assert tar[offset..offset + 1024] == tar[offset..];
    assert tar[offset + 1024..] == [];
  }

  /** Cuts the first member off a written stream. */
  lemma StreamStep(tar: Bytes, offset: nat, rest: seq<Entry>) returns (n: nat)
    requires rest != [] && forall e <- rest :: Writable(e)
    requires offset <= |tar| && tar[offset..] == AllMembers(rest) + Zeros(1024)
    ensures n == |MemberBytes(rest[0])| && offset + n <= |tar|
    ensures tar[offset..offset + n] == MemberBytes(rest[0])
    ensures tar[offset + n..] == AllMembers(rest[1..]) + Zeros(1024)
  {
    hide MemberBytes, Writable, Zeros;
    n := |MemberBytes(rest[0])|;
    var tail := AllMembers(rest[1..]) + Zeros(1024);
    assert tar[offset..] == MemberBytes(rest[0]) + tail;
    assert tar[offset..offset + n] == tar[offset..][..n];
    assert tar[offset + n..] == tar[offset..][n..];
  }

  lemma ReadOne(tar: Bytes, limits: Limits, offset: nat, done: seq<Entry>, rest: seq<Entry>) returns (next: nat)
    requires rest != [] && forall e <- rest :: Writable(e) && Acceptable(e, limits)
    requires offset <= |tar| && tar[offset..] == AllMembers(rest) + Zeros(1024)
    ensures next <= |tar| && tar[next..] == AllMembers(rest[1..]) + Zeros(1024)
    ensures var r := ReadFrom(tar, limits, offset, None, done);
            var r' := ReadFrom(tar, limits, next, None, done + [Reread(rest[0])]);
            && (r.Ok? ==> r == r' && SafePath(Reread(rest[0]).path) && HasRoom(limits, done, Reread(rest[0])))
            && (SafePath(Reread(rest[0]).path) && HasRoom(limits, done, Reread(rest[0])) ==> r == r')
            && (BomFree(rest[0].path) ==> Reread(rest[0]) == rest[0])
  {
    hide AllMembers, Acceptable, Writable, Admit, ReadFrom, WrittenMember, FileCount, FileBytes, MemberBytes, HeaderOf, Reread, BomFree, PathsOf, HasRoom, SafePath;
    var n := StreamStep(tar, offset, rest);
    next := offset + n;
    ReadStep(tar, limits, offset, done, rest[0]);
    AdmitWritten(limits, done, rest[0], next);
  }

  /** Reading written members appends their reread forms, if it succeeds. */
  lemma {:induction false} ReadMembersRereads(tar: Bytes, limits: Limits, offset: nat, done: seq<Entry>, rest: seq<Entry>)
    requires forall e <- rest :: Writable(e) && Acceptable(e, limits)
    requires offset <= |tar| && tar[offset..] == AllMembers(rest) + Zeros(1024)
    ensures var r := ReadFrom(tar, limits, offset, None, done); r.Ok? ==> r.value == done + RereadAll(rest)
    decreases |rest|
  {
    hide Acceptable, Writable, ReadFrom, Reread, BomFree, HasRoom, MemberBytes;
    if rest == [] {
      assert [] + Zeros(1024) == Zeros(1024);
      ReadEnd(tar, limits, offset, done);
      assert done + RereadAll(rest) == done;
    } else {
      var next := ReadOne(tar, limits, offset, done, rest);
      ReadMembersRereads(tar, limits, next, done + [Reread(rest[0])], rest[1..]);
      assert done + [Reread(rest[0])] + RereadAll(rest[1..]) == done + RereadAll(rest);
    }
  }

  lemma AcceptableSafe(e: Entry, limits: Limits)
    requires Acceptable(e, limits)
    ensures SafePath(e.path)
  {
  }

  /** The list, read after `done`, stays within the counting limits. */
  predicate WithinCounts(limits: Limits, done: seq<Entry>, xs: seq<Entry>) {
    FileCount(done + xs) <= limits.maxFileCount && FileBytes(done + xs) <= limits.maxUnpackedBytes
  }

  predicate AllSafe(xs: seq<Entry>) { forall x <- xs :: SafePath(x.path) }

  /** Written members read back exactly when their reread paths are safe and distinct. */
  lemma {:induction false} ReadMembersExactly(tar: Bytes, limits: Limits, offset: nat, done: seq<Entry>, rest: seq<Entry>)
    requires forall e <- rest :: Writable(e) && Acceptable(e, limits)
    requires offset <= |tar| && tar[offset..] == AllMembers(rest) + Zeros(1024)
    requires DistinctPaths(done) && WithinCounts(limits, done, RereadAll(rest))
    ensures ReadFrom(tar, limits, offset, None, done).Ok? <==> AllSafe(RereadAll(rest)) && DistinctPaths(done + RereadAll(rest))
    decreases |rest|
  {
    hide Acceptable, Writable, ReadFrom, Reread, BomFree, HasRoom, MemberBytes, WithinCounts, SafePath, AllMembers, AllSafe, DistinctPaths, RereadAll;
    if rest == [] {
      NoMembers();
      assert [] + Zeros(1024) == Zeros(1024);
      ReadEnd(tar, limits, offset, done);
      NoRereads(rest);
      assert done + [] == done;
    } else {
      var x, xs := Reread(rest[0]), RereadAll(rest[1..]);
      RereadCons(rest);
      assert done + [x] + xs == done + ([x] + xs);
      var next := ReadOne(tar, limits, offset, done, rest);
      RoomExactly(limits, done, x, xs);
      if SafePath(x.path) && x.path !in PathsOf(done) {
        DistinctSnoc(done, x);
        ReadMembersExactly(tar, limits, next, done + [x], rest[1..]);
      } else {
        NotDistinct(done, x, xs);
      }
    }
  }

  lemma NoRereads(es: seq<Entry>)
    requires es == []
    ensures RereadAll(es) == [] && AllSafe(RereadAll(es))
  {
  }

  lemma RereadCons(es: seq<Entry>)
    requires es != []
    ensures RereadAll(es) == [Reread(es[0])] + RereadAll(es[1..])
    ensures AllSafe(RereadAll(es)) <==> SafePath(Reread(es[0]).path) && AllSafe(RereadAll(es[1..]))
  {
    hide Reread, SafePath;
  }

  lemma NoMembers()
    ensures AllMembers([]) == []
  {
  }

  lemma RoomExactly(limits: Limits, done: seq<Entry>, x: Entry, xs: seq<Entry>)
    requires WithinCounts(limits, done, [x] + xs)
    ensures HasRoom(limits, done, x) <==> x.path !in PathsOf(done)
    ensures WithinCounts(limits, done + [x], xs)
  {
    hide SumBy;
    assert done + ([x] + xs) == done + [x] + xs;
    SumConcat(done + [x], xs, FileUnit);
    SumConcat(done + [x], xs, PayloadSize);
    SumConcat(done, [x], FileUnit);
    SumConcat(done, [x], PayloadSize);
    SumOne(x, FileUnit);
    SumOne(x, PayloadSize);
  }

  lemma DistinctSnoc(done: seq<Entry>, x: Entry)
    requires DistinctPaths(done) && x.path !in PathsOf(done)
    ensures DistinctPaths(done + [x])
  {
    forall i | 0 <= i < |done| ensures done[i].path != x.path { assert done[i] in done; }
  }

  lemma NotDistinct(done: seq<Entry>, x: Entry, xs: seq<Entry>)
    ensures x.path in PathsOf(done) ==> !DistinctPaths(done + [x] + xs)
  {
    var all := done + [x] + xs;
    if x.path in PathsOf(done) {
      var i :| 0 <= i < |done| && done[i].path == x.path;
      assert all[i] == done[i] && all[|done|] == x;
    }
  }

  /** Reading written members gives them back when the whole list is admissible and free of marks. */
  lemma {:induction false} ReadMembersBack(tar: Bytes, limits: Limits, offset: nat, done: seq<Entry>, rest: seq<Entry>)
    requires forall e <- rest :: Writable(e) && Acceptable(e, limits) && BomFree(e.path)
    requires offset <= |tar| && tar[offset..] == AllMembers(rest) + Zeros(1024)
    requires Admissible(done + rest, limits)
    ensures ReadFrom(tar, limits, offset, None, done) == Ok(done + rest)
    decreases |rest|
  {
    hide Acceptable, Writable, ReadFrom, Reread, BomFree, HasRoom, Admissible, MemberBytes;
    if rest == [] {
      assert [] + Zeros(1024) == Zeros(1024);
      ReadEnd(tar, limits, offset, done);
      assert done + rest == done;
    } else {
      assert done + [rest[0]] + rest[1..] == done + rest;
      AdmissibleAt(limits, done, rest[0], rest[1..]);
      var next := ReadOne(tar, limits, offset, done, rest);
      assert SafePath(rest[0].path) by { AcceptableSafe(rest[0], limits); }
      ReadMembersBack(tar, limits, next, done + [rest[0]], rest[1..]);
    }
  }

  /** The fields no reader checks: owner, time, magic, version, link name and device are fixed. */
  lemma HeaderIsUstar(e: Entry)
    requires Writable(e)
    ensures UstarFields(HeaderOf(e))
  {
    var p, size := SplitUstarPath(e.path).value, PayloadSize(e);
    ModeFits(e.mode);
    BlankIsUstar(p, e.mode % 512, size, TypeByte(e));
    var b := BlankHeader(p, e.mode % 512, size, TypeByte(e));
    ChecksumFits(b);
    KeepsUstar(b, ChecksumField(SumBytes(b)));
  }

  ghost predicate OwnerFields(h: HeaderBlock) {
    h[108..116] == OctalField(0, 8) && h[116..124] == OctalField(0, 8) && h[136..148] == OctalField(0, 12)
  }

  ghost predicate MagicFields(h: HeaderBlock) { h[257..263] == USTAR + [NUL] && h[263..265] == USTAR_VERSION }

  ghost predicate EmptyFields(h: HeaderBlock) { IsZero(h[157..257]) && IsZero(h[265..345]) && IsZero(h[500..512]) }

  ghost predicate UstarFields(h: HeaderBlock) { OwnerFields(h) && MagicFields(h) && EmptyFields(h) }

  lemma ZeroFits()
    ensures |ToOctal(0)| == 1
  {
  }

  lemma BlankOwner(p: UstarPath, mode: nat, size: nat, typ: byte)
    requires |p.name| <= 100 && |p.prefix| <= 155 && FitsOctal(mode, 7) && FitsOctal(size, 11)
    ensures OwnerFields(BlankHeader(p, mode, size, typ))
  {
    hide ToOctal, IsZero;
    ZeroFits();
    PadStartOctal(ToOctal(mode), 7);
    PadStartOctal(ToOctal(0), 7);
    PadStartOctal(ToOctal(0), 11);
    PadStartOctal(ToOctal(size), 11);
  }

  lemma BlankMagic(p: UstarPath, mode: nat, size: nat, typ: byte)
    requires |p.name| <= 100 && |p.prefix| <= 155 && FitsOctal(mode, 7) && FitsOctal(size, 11)
    ensures MagicFields(BlankHeader(p, mode, size, typ))
  {
    hide ToOctal, IsZero;
    ZeroFits();
    PadStartOctal(ToOctal(mode), 7);
    PadStartOctal(ToOctal(0), 7);
    PadStartOctal(ToOctal(0), 11);
    PadStartOctal(ToOctal(size), 11);
  }

  lemma BlankEmpty(p: UstarPath, mode: nat, size: nat, typ: byte)
    requires |p.name| <= 100 && |p.prefix| <= 155 && FitsOctal(mode, 7) && FitsOctal(size, 11)
    ensures EmptyFields(BlankHeader(p, mode, size, typ))
  {
    hide ToOctal;
    ZeroFits();
    PadStartOctal(ToOctal(mode), 7);
    PadStartOctal(ToOctal(0), 7);
    PadStartOctal(ToOctal(0), 11);
    PadStartOctal(ToOctal(size), 11);
  }

  lemma BlankIsUstar(p: UstarPath, mode: nat, size: nat, typ: byte)
    requires |p.name| <= 100 && |p.prefix| <= 155 && FitsOctal(mode, 7) && FitsOctal(size, 11)
    ensures UstarFields(BlankHeader(p, mode, size, typ))
  {
    hide BlankHeader, OwnerFields, MagicFields, EmptyFields;
    BlankOwner(p, mode, size, typ);
    BlankMagic(p, mode, size, typ);
    BlankEmpty(p, mode, size, typ);
  }

  lemma KeepsUstar(b: HeaderBlock, c: Bytes)
    requires |c| == 8 && UstarFields(b)
    ensures UstarFields(Splice(b, 148, c))
  {
    var h := Splice(b, 148, c);
    assert h[108..116] == b[108..116] && h[116..124] == b[116..124] && h[136..148] == b[136..148];
    assert h[257..263] == b[257..263] && h[263..265] == b[263..265];
    assert h[157..257] == b[157..257] && h[265..345] == b[265..345] && h[500..512] == b[500..512];
  }

  // ---------------------------------------------------------------- the checksum

  lemma {:induction false} SumUpdate(s: Bytes, k: nat, b: byte)
    requires k < |s|
    ensures SumBytes(s[k := b]) == SumBytes(s) - s[k] + b
  {
    var n := |s| - 1;
    if k == n {
      assert s[k := b][..n] == s[..n];
    } else {
      assert s[k := b][..n] == s[..n][k := b];
      SumUpdate(s[..n], k, b);
    }
  }

  lemma {:induction false} SumParts(a: Bytes, b: Bytes)
    ensures SumBytes(a + b) == SumBytes(a) + SumBytes(b)
  {
    if b == [] {
      assert a + b == a;
    } else {
      assert (a + b)[..|a + b| - 1] == a + b[..|b| - 1];
      SumParts(a, b[..|b| - 1]);
    }
  }

  lemma {:induction false} SumSpaces(n: nat)
    ensures SumBytes(Spaces(n)) == 32 * n
  {
    if n > 0 {
      assert Spaces(n)[..n - 1] == Spaces(n - 1);
      SumSpaces(n - 1);
    }
  }

  /** The checksum is the sum of all bytes, with 32 for each of its own eight. */
  lemma HeaderSumIs(h: HeaderBlock)
    ensures HeaderSum(h) == SumBytes(h[..148]) + 32 * 8 + SumBytes(h[156..])
  {
    assert Splice(h, 148, Spaces(8)) == h[..148] + Spaces(8) + h[156..];
    SumParts(h[..148] + Spaces(8), h[156..]);
    SumParts(h[..148], Spaces(8));
    SumSpaces(8);
  }

  /** A written header with any one byte outside the checksum changed is refused. */
  lemma CorruptHeaderIsRefused(tar: Bytes, limits: Limits, offset: nat, blank: HeaderBlock, k: nat, b: byte)
    requires blank[148..156] == Spaces(8) && k < BLOCK && !(148 <= k < 156) && b != Sealed(blank)[k]
    requires offset + BLOCK <= |tar| && tar[offset..offset + BLOCK] == Sealed(blank)[k := b]
    ensures ReadMember(tar, limits, offset) == Err(BadChecksum)
  {
    var h := Sealed(blank);
    var damaged: HeaderBlock := h[k := b];
    ChecksumReads(blank);
    assert damaged[148..156] == h[148..156];
    assert Splice(damaged, 148, Spaces(8)) == Splice(h, 148, Spaces(8))[k := b];
    SumUpdate(Splice(h, 148, Spaces(8)), k, b);
    hide ParseOctal, SumBytes, RawString, Decode;
  }
}
