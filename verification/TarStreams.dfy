/**
 Tar streams with path extensions: any sequence of members, each behind any number of PAX, global PAX and GNU
 long-path headers, written out as bytes; and exactly when and as what the reader accepts them.
 */
module TarStreams {
  import opened Outcomes
  import opened Utf8
  import opened TarFormat
  import opened TarExtensions
  import opened TarRoundTrip

  // ---------------------------------------------------------------- one header with its payload

  /** What a writer puts in a header beside type and size. */
  datatype Head = Head(name: UstarPath, mode: nat)

  predicate GoodHead(h: Head) {
    && |h.name.name| <= 100 && |h.name.prefix| <= 155 && NoNul(h.name.name) && NoNul(h.name.prefix)
    && Valid(h.name.name) && Valid(h.name.prefix) && FitsOctal(h.mode, 7)
  }

  predicate GoodData(data: Bytes, limits: Limits) { FitsOctal(|data|, 11) && |data| <= limits.maxEntryBytes }

  function Raw(h: Head, typ: byte, data: Bytes, limits: Limits): (b: Bytes)
    requires GoodHead(h) && GoodData(data, limits)
    ensures |b| == BLOCK + PaddedSize(|data|)
  {
    Sealed(BlankHeader(h.name, h.mode, |data|, typ)) + data + Zeros(PaddedSize(|data|) - |data|)
  }

  /** The bytes `b` stand at `offset`. */
  ghost predicate At(tar: Bytes, offset: nat, b: Bytes) { offset + |b| <= |tar| && tar[offset..offset + |b|] == b }

  lemma AtParts(tar: Bytes, offset: nat, a: Bytes, b: Bytes)
    requires At(tar, offset, a + b)
    ensures At(tar, offset, a) && At(tar, offset + |a|, b)
  {
    SubSlice(tar, offset, |a + b|, 0, |a|);
    SubSlice(tar, offset, |a + b|, |a|, |a + b|);
    assert (a + b)[0..|a|] == a && (a + b)[|a|..|a + b|] == b;
  }

  lemma SealedNotZero(blank: HeaderBlock)
    ensures !IsZero(Sealed(blank))
  {
    ChecksumFits(blank);
    PadStartOctal(ToOctal(SumBytes(blank)), 6);
    hide ToOctal, SumBytes, PadStart;
    assert ChecksumField(SumBytes(blank))[0] >= 0x30;
    assert Sealed(blank)[148] == ChecksumField(SumBytes(blank))[0];
  }

  lemma RawReads(tar: Bytes, limits: Limits, offset: nat, h: Head, typ: byte, data: Bytes)
    requires GoodHead(h) && GoodData(data, limits) && At(tar, offset, Raw(h, typ, data, limits))
    ensures !IsZero(tar[offset..offset + BLOCK]) && ParseOctal(tar[offset..offset + BLOCK][100..108]) == Some(h.mode)
    ensures ReadMember(tar, limits, offset)
         == Ok(Member(StripBom(h.name.name), StripBom(h.name.prefix), typ, data, offset + |Raw(h, typ, data, limits)|))
  {
    hide Sealed, BlankHeader, Valid, StripBom, ReadMember, IsZero, ParseOctal, RawString, HeaderSum;
    var blank := BlankHeader(h.name, h.mode, |data|, typ);
    AtParts(tar, offset, Sealed(blank) + data, Zeros(PaddedSize(|data|) - |data|));
    AtParts(tar, offset, Sealed(blank), data);
    SealedNotZero(blank);
    SealedReadsAs(h.name, h.mode, |data|, typ);
    DecodeValid(h.name.name);
    DecodeValid(h.name.prefix);
    ReadMemberAs(tar, limits, offset, Sealed(blank), h.name, h.mode, |data|, typ);
  }

  // ---------------------------------------------------------------- path extensions

  datatype Kind =
    | Pax(attrs: seq<Attribute>)
    | GlobalPax(attrs: seq<Attribute>)
    | GnuLong(text: Bytes, tail: Bytes)

  datatype Extension = Extension(head: Head, kind: Kind)

  function KindType(k: Kind): byte {
    match k
    case Pax(_) => TYPE_PAX
    case GlobalPax(_) => TYPE_PAX_GLOBAL
    case GnuLong(_, _) => TYPE_GNU_LONG
  }

  function Payload(k: Kind): Bytes { if k.GnuLong? then k.text + k.tail else Header(k.attrs) }

  predicate GoodExtension(x: Extension, limits: Limits) {
    && GoodHead(x.head) && GoodData(Payload(x.kind), limits)
    && (if x.kind.GnuLong? then Valid(x.kind.text) && NUL !in x.kind.text && (x.kind.tail != [] ==> x.kind.tail[0] == NUL)
        else AllWellFormed(x.kind.attrs))
  }

  function WithoutNewline(t: Bytes): Bytes { if t != [] && t[|t| - 1] == NEWLINE then t[..|t| - 1] else t }

  /** The path an extension announces. */
  function Announced(x: Extension): Option<Bytes> {
    match x.kind
    case Pax(attrs) => LastPath(attrs, None)
    case GlobalPax(_) => None
    case GnuLong(text, _) => Some(WithoutNewline(StripBom(text)))
  }

  /** A global header must not carry a path. */
  predicate Refused(x: Extension) { x.kind.GlobalPax? && LastPath(x.kind.attrs, None).Some? }

  function ExtensionBytes(x: Extension, limits: Limits): Bytes
    requires GoodExtension(x, limits)
  {
    Raw(x.head, KindType(x.kind), Payload(x.kind), limits)
  }

  predicate AllGood(xs: seq<Extension>, limits: Limits) { forall x <- xs :: GoodExtension(x, limits) }

  function ExtensionsBytes(xs: seq<Extension>, limits: Limits): Bytes
    requires AllGood(xs, limits)
  {
    if xs == [] then [] else
      assert xs[0] in xs;
      ExtensionBytes(xs[0], limits) + ExtensionsBytes(xs[1..], limits)
  }

  /** The path announced last. */
  function LastAnnounced(xs: seq<Extension>): Option<Bytes> {
    if xs == [] then None else Or(Announced(xs[|xs| - 1]), LastAnnounced(xs[..|xs| - 1]))
  }

  function Or<T>(a: Option<T>, b: Option<T>): Option<T> { if a.Some? then a else b }

  lemma {:induction false} LastAnnouncedCons(x: Extension, xs: seq<Extension>)
    ensures LastAnnounced([x] + xs) == Or(LastAnnounced(xs), Announced(x))
  {
    var all := [x] + xs;
    if xs == [] {
      assert all[..0] == [];
    } else {
      assert all[..|all| - 1] == [x] + xs[..|xs| - 1];
      LastAnnouncedCons(x, xs[..|xs| - 1]);
    }
  }

  /** The state the reader is in at an offset. */
  function Here(tar: Bytes, limits: Limits, offset: nat, pending: Option<Bytes>, done: seq<Entry>): Result<seq<Entry>, TarError> {
    if offset <= |tar| then ReadFrom(tar, limits, offset, pending, done) else Err(MissingTerminator)
  }

  lemma PayloadReads(k: Kind)
    requires if k.GnuLong? then Valid(k.text) && NUL !in k.text && (k.tail != [] ==> k.tail[0] == NUL) else AllWellFormed(k.attrs)
    ensures k.GnuLong? ==> GnuLongPath(Payload(k)) == Ok(WithoutNewline(StripBom(k.text)))
    ensures !k.GnuLong? ==> PaxPath(Payload(k), 0, None) == Ok(LastPath(k.attrs, None))
  {
    hide Valid, PaxPath, GnuLongPath, AllWellFormed, StripBom;
    if k.GnuLong? {
      GnuReads(k.text, k.tail);
    } else {
      assert Payload(k)[0..] == Header(k.attrs);
      PaxReads(Payload(k), 0, None, k.attrs);
    }
  }

  /** Reading one extension only changes the pending path. */
  lemma ExtensionReads(tar: Bytes, limits: Limits, offset: nat, pending: Option<Bytes>, done: seq<Entry>, x: Extension)
    requires GoodExtension(x, limits) && At(tar, offset, ExtensionBytes(x, limits))
    ensures Here(tar, limits, offset, pending, done)
         == if Refused(x) then Err(GlobalPaxPath)
            else Here(tar, limits, offset + |ExtensionBytes(x, limits)|, Or(Announced(x), pending), done)
  {
    hide Raw, GoodHead, GoodData, ReadMember, IsZero, PaxPath, GnuLongPath, LastPath, AllWellFormed, Valid, StripBom, Payload, ParseOctal, Header, WithoutNewline;
    RawReads(tar, limits, offset, x.head, KindType(x.kind), Payload(x.kind));
    PayloadReads(x.kind);
  }

  predicate NoneRefused(xs: seq<Extension>) { forall x <- xs :: !Refused(x) }

  lemma {:induction false} ExtensionsRead(tar: Bytes, limits: Limits, offset: nat, pending: Option<Bytes>, done: seq<Entry>, xs: seq<Extension>)
    requires AllGood(xs, limits) && At(tar, offset, ExtensionsBytes(xs, limits))
    ensures Here(tar, limits, offset, pending, done)
         == if !NoneRefused(xs) then Err(GlobalPaxPath)
            else Here(tar, limits, offset + |ExtensionsBytes(xs, limits)|, Or(LastAnnounced(xs), pending), done)
    decreases |xs|
  {
    hide GoodExtension, ExtensionBytes, Refused, Announced, Here;
    if xs != [] {
      var x, rest := xs[0], xs[1..];
      assert xs == [x] + rest && x in xs;
      LastAnnouncedCons(x, rest);
      AtParts(tar, offset, ExtensionBytes(x, limits), ExtensionsBytes(rest, limits));
      ExtensionReads(tar, limits, offset, pending, done, x);
      if !Refused(x) {
        ExtensionsRead(tar, limits, offset + |ExtensionBytes(x, limits)|, Or(Announced(x), pending), done, rest);
      }
    }
  }

  // ---------------------------------------------------------------- members behind extensions

  datatype Packed = Packed(extensions: seq<Extension>, head: Head, typ: byte, data: Bytes)

  predicate GoodPacked(p: Packed, limits: Limits) {
    && AllGood(p.extensions, limits) && GoodHead(p.head) && GoodData(p.data, limits)
    && p.typ != TYPE_PAX && p.typ != TYPE_PAX_GLOBAL && p.typ != TYPE_GNU_LONG
  }

  function PackedBytes(p: Packed, limits: Limits): Bytes
    requires GoodPacked(p, limits)
  {
    ExtensionsBytes(p.extensions, limits) + Raw(p.head, p.typ, p.data, limits)
  }

  /** The path announced last before the member, or else the one in its own header. */
  function PathOf(p: Packed): Bytes {
    match LastAnnounced(p.extensions)
    case Some(path) => path
    case None =>
      var prefix, name := StripBom(p.head.name.prefix), StripBom(p.head.name.name);
      if prefix == [] then name else prefix + [SLASH] + name
  }

  function EntryOf(p: Packed): Entry { Entry(PathOf(p), p.head.mode, p.typ == NUL || p.typ == TYPE_FILE, p.data) }

  /** What a member must be on its own to be accepted. */
  predicate Sound(p: Packed) {
    && NoneRefused(p.extensions) && SafePath(PathOf(p)) && SafeMode(p.head.mode)
    && (p.typ == NUL || p.typ == TYPE_FILE || (p.typ == TYPE_DIRECTORY && p.data == []))
  }

  /** The reader takes one packed member exactly when it is sound and has room, under its own path. */
  lemma PackedReads(tar: Bytes, limits: Limits, offset: nat, done: seq<Entry>, p: Packed)
    requires GoodPacked(p, limits) && At(tar, offset, PackedBytes(p, limits))
    ensures var here := Here(tar, limits, offset, None, done);
            && (here.Ok? ==> Sound(p) && HasRoom(limits, done, EntryOf(p)))
            && (Sound(p) && HasRoom(limits, done, EntryOf(p)) ==>
                  here == Here(tar, limits, offset + |PackedBytes(p, limits)|, None, done + [EntryOf(p)]))
  {
    hide AllGood, GoodHead, GoodData, Here, NoneRefused, LastAnnounced, Raw, SafePath, StripBom, ExtensionsBytes, HasRoom;
    AtParts(tar, offset, ExtensionsBytes(p.extensions, limits), Raw(p.head, p.typ, p.data, limits));
    ExtensionsRead(tar, limits, offset, None, done, p.extensions);
    if NoneRefused(p.extensions) {
      MemberReads(tar, limits, offset + |ExtensionsBytes(p.extensions, limits)|, LastAnnounced(p.extensions), done, p);
    }
  }

  lemma MemberReads(tar: Bytes, limits: Limits, offset: nat, pending: Option<Bytes>, done: seq<Entry>, p: Packed)
    requires GoodPacked(p, limits) && At(tar, offset, Raw(p.head, p.typ, p.data, limits))
    requires pending == LastAnnounced(p.extensions) && NoneRefused(p.extensions)
    ensures var here := Here(tar, limits, offset, pending, done);
            && (here.Ok? ==> Sound(p) && HasRoom(limits, done, EntryOf(p)))
            && (Sound(p) && HasRoom(limits, done, EntryOf(p)) ==>
                  here == Here(tar, limits, offset + |Raw(p.head, p.typ, p.data, limits)|, None, done + [EntryOf(p)]))
  {
    hide AllGood, GoodHead, GoodData, NoneRefused, LastAnnounced, Raw, SafePath, StripBom, ReadMember, IsZero, ParseOctal, FileCount, FileBytes, PathsOf;
    RawReads(tar, limits, offset, p.head, p.typ, p.data);
  }

  // ---------------------------------------------------------------- whole streams

  predicate AllPacked(ps: seq<Packed>, limits: Limits) { forall p <- ps :: GoodPacked(p, limits) }

  function AllBytes(ps: seq<Packed>, limits: Limits): Bytes
    requires AllPacked(ps, limits)
  {
    if ps == [] then [] else
      assert ps[0] in ps;
      PackedBytes(ps[0], limits) + AllBytes(ps[1..], limits)
  }

  /** Members, extensions behind the last of them, and whatever follows. */
  function StreamBytes(ps: seq<Packed>, closing: seq<Extension>, tail: Bytes, limits: Limits): Bytes
    requires AllPacked(ps, limits) && AllGood(closing, limits)
  {
    AllBytes(ps, limits) + (ExtensionsBytes(closing, limits) + tail)
  }

  /** What follows does not start with another header: it is too short for one, or starts with a zero block. */
  predicate NoHeader(tail: Bytes) { |tail| < BLOCK || IsZero(tail[..BLOCK]) }

  /** At least two zero blocks, and nothing but zeros. */
  predicate Terminates(tail: Bytes) { |tail| >= 1024 && IsZero(tail) }

  function Entries(ps: seq<Packed>): (es: seq<Entry>)
    ensures |es| == |ps| && forall i :: 0 <= i < |ps| ==> es[i] == EntryOf(ps[i])
  {
    seq(|ps|, i requires 0 <= i < |ps| => EntryOf(ps[i]))
  }

  predicate AllSound(ps: seq<Packed>) { forall p <- ps :: Sound(p) }

  predicate Together(es: seq<Entry>, limits: Limits) {
    DistinctPaths(es) && FileCount(es) <= limits.maxFileCount && FileBytes(es) <= limits.maxUnpackedBytes
  }

  lemma TogetherSnoc(limits: Limits, done: seq<Entry>, e: Entry)
    requires Together(done, limits)
    ensures HasRoom(limits, done, e) <==> Together(done + [e], limits)
  {
    hide SumBy;
    SumConcat(done, [e], FileUnit);
    SumConcat(done, [e], PayloadSize);
    SumOne(e, FileUnit);
    SumOne(e, PayloadSize);
    if e.path in PathsOf(done) {
      assert done + [e] + [] == done + [e];
      NotDistinct(done, e, []);
    } else {
      DistinctSnoc(done, e);
    }
  }

  lemma TogetherPrefix(limits: Limits, es: seq<Entry>, rest: seq<Entry>)
    requires Together(es + rest, limits)
    ensures Together(es, limits)
  {
    hide SumBy;
    SumConcat(es, rest, FileUnit);
    SumConcat(es, rest, PayloadSize);
    forall i, j | 0 <= i < j < |es| ensures es[i].path != es[j].path {
      assert (es + rest)[i] == es[i] && (es + rest)[j] == es[j];
    }
  }

  lemma EntriesCons(ps: seq<Packed>, done: seq<Entry>)
    requires ps != []
    ensures done + Entries(ps) == (done + [EntryOf(ps[0])]) + Entries(ps[1..])
    ensures AllSound(ps) <==> Sound(ps[0]) && AllSound(ps[1..])
  {
    hide EntryOf, Sound;
    assert ps == [ps[0]] + ps[1..];
  }

  lemma {:induction false} MembersRead(tar: Bytes, limits: Limits, offset: nat, done: seq<Entry>, ps: seq<Packed>)
    requires AllPacked(ps, limits) && At(tar, offset, AllBytes(ps, limits)) && Together(done, limits)
    ensures var here := Here(tar, limits, offset, None, done);
            && (here.Ok? ==> AllSound(ps) && Together(done + Entries(ps), limits))
            && (AllSound(ps) && Together(done + Entries(ps), limits) ==>
                  here == Here(tar, limits, offset + |AllBytes(ps, limits)|, None, done + Entries(ps)))
    decreases |ps|
  {
    hide GoodPacked, PackedBytes, EntryOf, Sound, Here, HasRoom, Together;
    if ps == [] {
      assert done + Entries(ps) == done;
    } else {
      var p, rest := ps[0], ps[1..];
      assert p in ps;
      AtParts(tar, offset, PackedBytes(p, limits), AllBytes(rest, limits));
      PackedReads(tar, limits, offset, done, p);
      TogetherSnoc(limits, done, EntryOf(p));
      EntriesCons(ps, done);
      hide AllBytes, Entries, AllSound;
      if Together(done + Entries(ps), limits) { TogetherPrefix(limits, done + [EntryOf(p)], Entries(rest)); }
      if Sound(p) && HasRoom(limits, done, EntryOf(p)) {
        AllBytesCons(ps, limits);
        MembersRead(tar, limits, offset + |PackedBytes(p, limits)|, done + [EntryOf(p)], rest);
      }
    }
  }

  lemma AllBytesCons(ps: seq<Packed>, limits: Limits)
    requires AllPacked(ps, limits) && ps != []
    ensures ps[0] in ps && AllBytes(ps, limits) == PackedBytes(ps[0], limits) + AllBytes(ps[1..], limits)
  {
    hide GoodPacked, PackedBytes;
  }

  lemma TailRead(tar: Bytes, limits: Limits, offset: nat, pending: Option<Bytes>, done: seq<Entry>, tail: Bytes)
    requires offset <= |tar| && tar[offset..] == tail && NoHeader(tail)
    ensures Here(tar, limits, offset, pending, done).Ok? <==> Terminates(tail) && pending.None?
    ensures Here(tar, limits, offset, pending, done).Ok? ==> Here(tar, limits, offset, pending, done).value == done
  {
    if offset + BLOCK <= |tar| {
      assert forall i :: offset <= i < |tar| ==> tar[i] == tail[i - offset];
      assert tar[offset..offset + BLOCK] == tail[..BLOCK];
      if offset + 1024 <= |tar| {
        assert tar[offset..offset + 1024] == tail[..1024] && tar[offset + 1024..] == tail[1024..];
        ZeroParts(tail);
      }
    }
  }

  lemma ZeroParts(tail: Bytes)
    requires |tail| >= 1024
    ensures IsZero(tail) <==> IsZero(tail[..1024]) && IsZero(tail[1024..])
  {
    if IsZero(tail[..1024]) && IsZero(tail[1024..]) {
      forall i | 0 <= i < |tail| ensures tail[i] == 0 {
        if i < 1024 { assert tail[..1024][i] == 0; } else { assert tail[1024..][i - 1024] == 0; }
      }
    }
  }

  /**
   Exactly when the reader accepts a written stream, and as what: every member is sound on its own, their paths
   are distinct and their counts within the limits, no path is announced behind the last member, and only zeros
   follow, two blocks at least. Each member is read under the path announced last before it, or under its own,
   with its mode and data.
   */
  lemma StreamReadsExactly(ps: seq<Packed>, closing: seq<Extension>, tail: Bytes, limits: Limits)
    requires ValidLimits(limits) && AllPacked(ps, limits) && AllGood(closing, limits) && NoHeader(tail)
    requires |StreamBytes(ps, closing, tail, limits)| <= limits.maxUnpackedBytes
    ensures var r := ReadTar(StreamBytes(ps, closing, tail, limits), limits);
            && (r.Ok? <==> && AllSound(ps) && Together(Entries(ps), limits)
                           && NoneRefused(closing) && LastAnnounced(closing).None? && Terminates(tail))
            && (r.Ok? ==> r.value == Entries(ps))
  {
    hide GoodPacked, GoodExtension, AllBytes, ExtensionsBytes, Sound, NoneRefused, LastAnnounced, Together, ReadFrom, AllPacked, AllGood, NoHeader, Terminates;
    var tar := StreamBytes(ps, closing, tail, limits);
    var members, last := AllBytes(ps, limits), ExtensionsBytes(closing, limits);
    var end := |members| + |last|;
    assert tar[0..0 + |tar|] == tar;
    AtParts(tar, 0, members, last + tail);
    AtParts(tar, |members|, last, tail);
    assert tar[end..] == tail;
    assert [] + Entries(ps) == Entries(ps);
    NoneYet(limits);
    MembersRead(tar, limits, 0, [], ps);
    ExtensionsRead(tar, limits, |members|, None, Entries(ps), closing);
    TailRead(tar, limits, end, LastAnnounced(closing), Entries(ps), tail);
  }

  lemma NoneYet(limits: Limits)
    ensures Together([], limits)
  {
  }

  // ---------------------------------------------------------------- any list, announced by extensions

  /** `value.toString()`. */
  function ToDecimal(v: nat): (s: Bytes)
    ensures |s| >= 1 && (forall i :: 0 <= i < |s| ==> 0x30 <= s[i] < 0x3A) && DecimalValue(s) == v
    ensures v > 0 ==> s[0] != 0x30
  {
    if v < 10 then
      assert DecimalValue([0x30 + v]) == DecimalValue([]) * 10 + v;
      [0x30 + v]
    else
      var s := ToDecimal(v / 10) + [0x30 + v % 10];
      assert s[..|s| - 1] == ToDecimal(v / 10);
      s
  }

  lemma {:induction false} DigitsGrow(m: nat, n: nat)
    requires m <= n
    ensures |ToDecimal(m)| <= |ToDecimal(n)|
  {
    if m >= 10 { DigitsGrow(m / 10, n / 10); }
  }

  lemma {:induction false} DigitsFew(n: nat)
    requires n >= 2
    ensures |ToDecimal(n)| <= n / 2
  {
    if n >= 20 { DigitsFew(n / 10); }
  }

  /** The length of a PAX record with `k` bytes behind its length, which counts its own digits too. */
  function RecordLength(k: nat, d: nat): (n: nat)
    requires k >= 1 && 1 <= d <= |ToDecimal(k + d)|
    ensures n == k + |ToDecimal(n)|
    decreases k - d
  {
    if |ToDecimal(k + d)| == d then k + d
    else
      DigitsGrow(k + d, k + d + 1);
      DigitsFew(k + d);
      RecordLength(k, d + 1)
  }

  function PathAttribute(path: Bytes): Attribute {
    Attribute(ToDecimal(RecordLength(|path| + 7, 1)), PATH_KEY, path)
  }

  lemma AsciiDigits(s: Bytes)
    requires forall i :: 0 <= i < |s| ==> s[i] < 128
    ensures Ascii(s) == s
  {
  }

  lemma PathAttributeReads(path: Bytes)
    requires Valid(path) && |RecordBytes(PathAttribute(path))| <= MAX_SAFE_INTEGER
    ensures AllWellFormed([PathAttribute(path)]) && LastPath([PathAttribute(path)], None) == Some(StripBom(path))
    ensures Header([PathAttribute(path)]) == RecordBytes(PathAttribute(path))
  {
    hide Valid, StripBom, Ascii, DecimalValue;
    var a := PathAttribute(path);
    AsciiDigits(a.digits);
    AsciiDigits(PATH_KEY);
    assert SPACE !in a.digits && EQUALS !in a.key;
    assert |RecordBytes(a)| == RecordLength(|path| + 7, 1);
    assert [a][1..] == [];
    assert WellFormed(a);
    assert RecordBytes(a) + Header([]) == RecordBytes(a);
  }

  /** The header of an announced member, and of its announcement, names something else. */
  const PLACEHOLDER := UstarPath([0x78], [])

  function Announcement(path: Bytes, gnu: bool): Extension {
    Extension(Head(PLACEHOLDER, 0), if gnu then GnuLong(path + [NEWLINE], []) else Pax([PathAttribute(path)]))
  }

  function Announce(e: Entry, gnu: bool): Packed {
    Packed([Announcement(e.path, gnu)], Head(PLACEHOLDER, e.mode), TypeByte(e), e.data)
  }

  function AnnounceAll(es: seq<Entry>, gnu: bool): (ps: seq<Packed>)
    ensures |ps| == |es| && forall i :: 0 <= i < |es| ==> ps[i] == Announce(es[i], gnu)
  {
    seq(|es|, i requires 0 <= i < |es| => Announce(es[i], gnu))
  }

  /** Path and data are small enough to be announced and stored. */
  predicate Announceable(e: Entry, gnu: bool, limits: Limits) {
    GoodData(e.data, limits) && GoodData(Payload(Announcement(e.path, gnu).kind), limits)
  }

  lemma AnnouncementGood(path: Bytes, gnu: bool, limits: Limits)
    requires Valid(path) && SafePath(path) && GoodData(Payload(Announcement(path, gnu).kind), limits) && ValidLimits(limits)
    ensures GoodExtension(Announcement(path, gnu), limits)
    ensures !Refused(Announcement(path, gnu)) && Announced(Announcement(path, gnu)) == Some(path)
  {
    hide SafePath, Valid, StripBom, LastPath, AllWellFormed, PathAttribute, RecordBytes;
    PlaceholderGood(0);
    SafePathFacts(path);
    NoMark(path);
    if gnu {
      NewlineAdded(path);
    } else {
      HeaderOne(PathAttribute(path));
      PathAttributeReads(path);
    }
  }

  lemma HeaderOne(a: Attribute)
    ensures Header([a]) == RecordBytes(a)
  {
    hide RecordBytes;
    assert [a][1..] == [];
    assert RecordBytes(a) + Header([]) == RecordBytes(a);
  }

  lemma PlaceholderGood(mode: nat)
    requires mode <= 0x1FF
    ensures GoodHead(Head(PLACEHOLDER, mode))
  {
    FitsOctalBelow(mode, 7);
    Pow8Values();
    assert PLACEHOLDER.name[1..] == [];
  }

  lemma NoMark(path: Bytes)
    requires path != [] && path[0] == PACKAGE[0]
    ensures StripBom(path) == path && StripBom(path + [NEWLINE]) == path + [NEWLINE]
  {
    assert (path + [NEWLINE])[0] == path[0] != BOM[0];
  }

  lemma NewlineAdded(path: Bytes)
    requires Valid(path) && NoNul(path)
    ensures Valid(path + [NEWLINE]) && NUL !in path + [NEWLINE] && WithoutNewline(path + [NEWLINE]) == path
  {
    assert [NEWLINE][1..] == [];
    ValidConcat(path, [NEWLINE]);
    assert (path + [NEWLINE])[..|path|] == path;
  }

  lemma AnnounceReads(e: Entry, gnu: bool, limits: Limits)
    requires ValidLimits(limits) && Acceptable(e, limits) && Announceable(e, gnu, limits)
    ensures GoodPacked(Announce(e, gnu), limits) && Sound(Announce(e, gnu)) && EntryOf(Announce(e, gnu)) == e
  {
    hide SafePath, Valid, Announcement, GoodExtension, GoodHead, GoodData, Refused, Announced;
    AnnouncementGood(e.path, gnu, limits);
    PlaceholderGood(e.mode);
    var x := Announcement(e.path, gnu);
    assert [x][..0] == [];
    assert LastAnnounced([x]) == Some(e.path);
  }

  lemma EndOfStream(none: seq<Extension>)
    requires none == []
    ensures NoHeader(Zeros(1024)) && Terminates(Zeros(1024)) && LastAnnounced(none).None?
  {
  }

  /**
   Every list the reader can return -- whatever the length of its paths -- is read back from the stream that
   announces each path in a PAX header or a GNU long-path member.
   */
  lemma AnnouncedReadsBack(es: seq<Entry>, gnu: bool, limits: Limits)
    requires ValidLimits(limits) && Admissible(es, limits) && forall e <- es :: Announceable(e, gnu, limits)
    ensures AllPacked(AnnounceAll(es, gnu), limits)
    ensures var tar := StreamBytes(AnnounceAll(es, gnu), [], Zeros(1024), limits);
            |tar| <= limits.maxUnpackedBytes ==> ReadTar(tar, limits) == Ok(es)
  {
    hide Acceptable, Announceable, GoodPacked, Sound, EntryOf, Announce, StreamBytes, ReadTar;
    var ps := AnnounceAll(es, gnu);
    forall i | 0 <= i < |ps| ensures GoodPacked(ps[i], limits) && Sound(ps[i]) && EntryOf(ps[i]) == es[i] {
      assert es[i] in es;
      AnnounceReads(es[i], gnu, limits);
    }
    assert Entries(ps) == es;
    EndOfStream([]);
    if |StreamBytes(ps, [], Zeros(1024), limits)| <= limits.maxUnpackedBytes { StreamReadsExactly(ps, [], Zeros(1024), limits); }
  }
}
