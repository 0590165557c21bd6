/**
 The ustar layer of the release evidence: the reader of package tarballs and the writer of
 canonical ones, as byte-level functions. The format is the "ustar Interchange Format" part of the
 `pax` utility's EXTENDED DESCRIPTION in IEEE Std 1003.1-2017. Gzip is outside the model: a tar
 here is the unpacked byte stream.
 */
module TarFormat {
  import opened Outcomes
  import opened Utf8

  datatype Entry = Entry(path: Bytes, mode: nat, isFile: bool, data: Bytes)

  datatype Limits = Limits(maxUnpackedBytes: nat, maxEntryBytes: nat, maxFileCount: nat)

  datatype TarError =
    | BadLimits | UnpackedTooLarge | MissingTerminator | ShortTerminator | DataAfterTerminator
    | DanglingExtension | BadOctal | BadUtf8 | BadChecksum | EntryTooLarge | Truncated
    | BadPax | GlobalPaxPath | UnsafePath | UnsafeMode | UnsupportedType | DirectoryWithData
    | DuplicateMember | TooManyFiles | TooMuchData | PathTooLong | SizeTooLarge

  const MAX_SAFE_INTEGER: nat := 0x1F_FFFF_FFFF_FFFF
  const BLOCK: nat := 512
  const NUL: byte := 0
  const SPACE: byte := 0x20
  const SLASH: byte := 0x2F
  const BACKSLASH: byte := 0x5C
  const NEWLINE: byte := 0x0A
  const EQUALS: byte := 0x3D
  const DOT: byte := 0x2E
  const ZERO_DIGIT: byte := 0x30
  const TYPE_FILE: byte := 0x30
  const TYPE_DIRECTORY: byte := 0x35
  const TYPE_PAX: byte := 0x78
  const TYPE_PAX_GLOBAL: byte := 0x67
  const TYPE_GNU_LONG: byte := 0x4C
  // "package", "path", "ustar" and "00"
  const PACKAGE: Bytes := [0x70, 0x61, 0x63, 0x6B, 0x61, 0x67, 0x65]
  const PATH_KEY: Bytes := [0x70, 0x61, 0x74, 0x68]
  const USTAR: Bytes := [0x75, 0x73, 0x74, 0x61, 0x72]
  const USTAR_VERSION: Bytes := [0x30, 0x30]

  function Zeros(n: nat): (z: Bytes)
    ensures |z| == n && forall i :: 0 <= i < n ==> z[i] == 0
  {
    seq(n, _ => 0)
  }

  predicate IsZero(s: Bytes) { forall i :: 0 <= i < |s| ==> s[i] == 0 }

  /** First index of `b` in `s` at or after `from`, or |s| when there is none. */
  function IndexOf(s: Bytes, b: byte, from: nat): (k: nat)
    requires from <= |s|
    ensures from <= k <= |s|
    ensures k < |s| ==> s[k] == b
    ensures forall i :: from <= i < k ==> s[i] != b
    decreases |s| - from
  {
    if from == |s| || s[from] == b then from else IndexOf(s, b, from + 1)
  }

  // ---------------------------------------------------------------- octal fields

  /** `toString("ascii")`, which clears the top bit of every byte. */
  function Ascii(s: Bytes): (r: Bytes)
    ensures |r| == |s| && forall i :: 0 <= i < |s| ==> r[i] == s[i] % 128
  {
    seq(|s|, i requires 0 <= i < |s| => s[i] % 128)
  }

  predicate NulOrSpace(b: byte) { b == NUL || b == SPACE }

  predicate Whitespace(b: byte) { 9 <= b <= 13 || b == SPACE }

  function TrimEnd(s: Bytes, p: byte -> bool): Bytes {
    if s != [] && p(s[|s| - 1]) then TrimEnd(s[..|s| - 1], p) else s
  }

  function TrimStart(s: Bytes, p: byte -> bool): Bytes {
    if s != [] && p(s[0]) then TrimStart(s[1..], p) else s
  }

  predicate OctalDigits(s: Bytes) { forall i :: 0 <= i < |s| ==> 0x30 <= s[i] < 0x38 }

  function OctalValue(s: Bytes): nat
    requires OctalDigits(s)
  {
    if s == [] then 0 else OctalValue(s[..|s| - 1]) * 8 + (s[|s| - 1] - 0x30)
  }

  function ParseOctal(field: Bytes): Option<nat> {
    var raw := TrimStart(TrimEnd(TrimEnd(Ascii(field), NulOrSpace), Whitespace), Whitespace);
    if raw == [] then Some(0)
    else if !OctalDigits(raw) || OctalValue(raw) > MAX_SAFE_INTEGER then None
    else Some(OctalValue(raw))
  }

  /** `value.toString(8)`. */
  function ToOctal(v: nat): (s: Bytes)
    ensures |s| >= 1 && OctalDigits(s) && OctalValue(s) == v
  {
    if v < 8 then
      assert OctalValue([0x30 + v]) == OctalValue([]) * 8 + v;
      [0x30 + v]
    else
      var s := ToOctal(v / 8) + [0x30 + v % 8];
      assert s[..|s| - 1] == ToOctal(v / 8);
      s
  }

  function PadStart(s: Bytes, n: nat): Bytes
    decreases n - |s|
  {
    if |s| < n then PadStart([ZERO_DIGIT] + s, n) else s
  }

  // ---------------------------------------------------------------- header reading

  type HeaderBlock = h: Bytes | |h| == BLOCK witness Zeros(BLOCK)

  /** Bytes of the string field at `off`, up to its NUL or its full width. */
  function RawString(h: HeaderBlock, off: nat, len: nat): Bytes
    requires off + len <= BLOCK
  {
    var end := IndexOf(h, NUL, off);
    h[off..if end > off + len then off + len else end]
  }

  function SumBytes(s: Bytes): nat {
    if s == [] then 0 else SumBytes(s[..|s| - 1]) + s[|s| - 1]
  }

  /** The checksum counts its own eight bytes as spaces. */
  function HeaderSum(h: HeaderBlock): nat {
    SumBytes(Splice(h, 148, Spaces(8)))
  }

  function Spaces(n: nat): (z: Bytes)
    ensures |z| == n && forall i :: 0 <= i < n ==> z[i] == SPACE
  {
    seq(n, _ => SPACE)
  }

  /** `h` with `b` written at `off`. */
  function Splice(h: Bytes, off: nat, b: Bytes): (r: Bytes)
    requires off + |b| <= |h|
    ensures |r| == |h|
    ensures forall i :: 0 <= i < |h| ==> r[i] == if off <= i < off + |b| then b[i - off] else h[i]
  {
    seq(|h|, i requires 0 <= i < |h| => if off <= i < off + |b| then b[i - off] else h[i])
  }

  function PaddedSize(size: nat): (p: nat)
    ensures size <= p < size + BLOCK && p % BLOCK == 0
  {
    (size + 511) / 512 * 512
  }

  /** The writer's padding rounds up to the same block as the reader's. */
  lemma PaddingCompletes(size: nat)
    ensures size + (512 - size % 512) % 512 == PaddedSize(size)
  {
    var q, r := size / 512, size % 512;
    assert size == 512 * q + r;
    if r == 0 {
      assert (size + 511) / 512 == q;
    } else {
      assert (size + 511) / 512 == q + 1;
    }
  }

  /** One raw member: decoded header strings, declared size, type byte, payload and next offset. */
  datatype Member = Member(name: Bytes, prefix: Bytes, typ: byte, data: Bytes, next: nat)

  function ReadMember(tar: Bytes, limits: Limits, offset: nat): (r: Result<Member, TarError>)
    requires offset + BLOCK <= |tar|
    ensures r.Ok? ==> offset + BLOCK + PaddedSize(|r.value.data|) == r.value.next <= |tar|
    ensures r.Ok? ==> |r.value.data| <= limits.maxEntryBytes
    ensures r.Ok? ==> Valid(r.value.name) && Valid(r.value.prefix)
  {
    var h: HeaderBlock := tar[offset..offset + BLOCK];
    var stored := ParseOctal(h[148..156]);
    if stored.None? then Err(BadOctal)
    else if stored.value != HeaderSum(h) then Err(BadChecksum)
    else
      var name := Decode(RawString(h, 0, 100));
      var prefix := Decode(RawString(h, 345, 155));
      var size := ParseOctal(h[124..136]);
      if name.None? || prefix.None? then Err(BadUtf8)
      else if size.None? then Err(BadOctal)
      else if size.value > limits.maxEntryBytes then Err(EntryTooLarge)
      else
        var start := offset + BLOCK;
        var next := start + PaddedSize(size.value);
        if next > |tar| then Err(Truncated)
        else Ok(Member(name.value, prefix.value, h[156], tar[start..start + size.value], next))
  }

  // ---------------------------------------------------------------- path extensions

  predicate DecimalText(s: Bytes) {
    s != [] && 0x31 <= s[0] < 0x3A && forall i :: 0 <= i < |s| ==> 0x30 <= s[i] < 0x3A
  }

  function DecimalValue(s: Bytes): nat
    requires forall i :: 0 <= i < |s| ==> 0x30 <= s[i] < 0x3A
  {
    if s == [] then 0 else DecimalValue(s[..|s| - 1]) * 10 + (s[|s| - 1] - 0x30)
  }

  /** Where the record at `offset` holds its key and value, and where it ends. */
  function PaxSpan(data: Bytes, offset: nat): (r: Option<(nat, nat)>)
    requires offset < |data|
    ensures r.Some? ==> offset < r.value.0 < r.value.1 <= |data|
  {
    var space := IndexOf(data, SPACE, offset);
    if space == |data| then None
    else
      var text := Ascii(data[offset..space]);
      if !DecimalText(text) || DecimalValue(text) > MAX_SAFE_INTEGER then None
      else
        var end := offset + DecimalValue(text);
        if end > |data| || end <= space + 1 then None else Some((space + 1, end))
  }

  function KeyValue(record: Bytes): (r: Option<(Bytes, Bytes)>)
    requires record != []
    ensures r.Some? ==> Valid(r.value.1)
  {
    var eq := IndexOf(record, EQUALS, 0);
    if record[|record| - 1] != NEWLINE || eq == 0 || eq == |record| then None
    else
      var value := Decode(record[eq + 1..|record| - 1]);
      if value.None? then None else Some((record[..eq], value.value))
  }

  /** The `path` attribute of a PAX header, the last one winning; other attributes are only checked. */
  function PaxPath(data: Bytes, offset: nat, found: Option<Bytes>): (r: Result<Option<Bytes>, TarError>)
    requires offset <= |data|
    requires found.Some? ==> Valid(found.value)
    ensures r.Ok? && r.value.Some? ==> Valid(r.value.value)
    decreases |data| - offset
  {
    if offset == |data| then Ok(found)
    else
      match PaxSpan(data, offset)
      case None => Err(BadPax)
      case Some((start, end)) =>
        match KeyValue(data[start..end])
        case None => Err(BadPax)
        case Some((key, value)) => PaxPath(data, end, if Ascii(key) == PATH_KEY then Some(value) else found)
  }

  function GnuLongPath(data: Bytes): (r: Result<Bytes, TarError>)
    ensures r.Ok? ==> Valid(r.value)
  {
    var text := Decode(data[..IndexOf(data, NUL, 0)]);
    if text.None? then Err(BadUtf8)
    else if text.value != [] && text.value[|text.value| - 1] == NEWLINE then
      var cut := text.value[..|text.value| - 1];
      assert cut + [NEWLINE] + [] == text.value;
      ValidSplit(cut, NEWLINE, []);
      Ok(cut)
    else Ok(text.value)
  }

  // ---------------------------------------------------------------- admission of a member

  /** Every "/"-separated segment of `s` is neither empty nor "." nor "..". */
  predicate SafeSegments(s: Bytes)
    decreases |s|
  {
    var k := IndexOf(s, SLASH, 0);
    && k > 0 && s[..k] != [DOT] && s[..k] != [DOT, DOT]
    && (k < |s| ==> SafeSegments(s[k + 1..]))
  }

  predicate SafePath(path: Bytes) {
    var p := if path != [] && path[|path| - 1] == SLASH then path[..|path| - 1] else path;
    && (p == PACKAGE || PACKAGE + [SLASH] <= p)
    && BACKSLASH !in p && NUL !in p
    && SafeSegments(p)
  }

  predicate SafeMode(mode: nat) { mode <= 0x1FF && mode / 2 % 2 == 0 }

  function JoinPath(prefix: Bytes, name: Bytes): Bytes {
    if prefix == [] then name else prefix + [SLASH] + name
  }

  function MemberPath(m: Member, pending: Option<Bytes>): Bytes {
    if pending.Some? then pending.value else JoinPath(m.prefix, m.name)
  }

  /** Checks a file or directory member against the paths, file count and bytes seen so far. */
  function Admit(h: HeaderBlock, m: Member, pending: Option<Bytes>, limits: Limits,
                 seen: set<Bytes>, fileCount: nat, fileBytes: nat): Result<Entry, TarError>
  {
    var path := MemberPath(m, pending);
    var mode := ParseOctal(h[100..108]);
    var isFile := m.typ == NUL || m.typ == TYPE_FILE;
    if !SafePath(path) then Err(UnsafePath)
    else if mode.None? then Err(BadOctal)
    else if !SafeMode(mode.value) then Err(UnsafeMode)
    else if !isFile && m.typ != TYPE_DIRECTORY then Err(UnsupportedType)
    else if !isFile && |m.data| != 0 then Err(DirectoryWithData)
    else if path in seen then Err(DuplicateMember)
    else if isFile && fileCount + 1 > limits.maxFileCount then Err(TooManyFiles)
    else if isFile && fileBytes + |m.data| > limits.maxUnpackedBytes then Err(TooMuchData)
    else Ok(Entry(path, mode.value, isFile, m.data))
  }

  // ---------------------------------------------------------------- the reader

  function PathsOf(es: seq<Entry>): set<Bytes> { set e <- es :: e.path }

  function SumBy(es: seq<Entry>, f: Entry -> nat): nat {
    if es == [] then 0 else SumBy(es[..|es| - 1], f) + f(es[|es| - 1])
  }

  function FileUnit(e: Entry): nat { if e.isFile then 1 else 0 }

  function PayloadSize(e: Entry): nat { if e.isFile then |e.data| else 0 }

  function FileCount(es: seq<Entry>): nat { SumBy(es, FileUnit) }

  function FileBytes(es: seq<Entry>): nat { SumBy(es, PayloadSize) }

  function ReadTerminator(tar: Bytes, offset: nat, pending: Option<Bytes>, entries: seq<Entry>)
    : Result<seq<Entry>, TarError>
    requires offset <= |tar|
  {
    if pending.Some? then Err(DanglingExtension)
    else if offset + 1024 > |tar| || !IsZero(tar[offset..offset + 1024]) then Err(ShortTerminator)
    else if !IsZero(tar[offset + 1024..]) then Err(DataAfterTerminator)
    else Ok(entries)
  }

  function ReadFrom(tar: Bytes, limits: Limits, offset: nat, pending: Option<Bytes>, entries: seq<Entry>)
    : Result<seq<Entry>, TarError>
    requires offset <= |tar|
    decreases |tar| - offset
  {
    if offset + BLOCK > |tar| then Err(MissingTerminator)
    else if IsZero(tar[offset..offset + BLOCK]) then ReadTerminator(tar, offset, pending, entries)
    else
      var m :- ReadMember(tar, limits, offset);
      if m.typ == TYPE_PAX || m.typ == TYPE_PAX_GLOBAL then
        var p :- PaxPath(m.data, 0, None);
        if m.typ == TYPE_PAX_GLOBAL && p.Some? then Err(GlobalPaxPath)
        else ReadFrom(tar, limits, m.next, if p.Some? then p else pending, entries)
      else if m.typ == TYPE_GNU_LONG then
        var p :- GnuLongPath(m.data);
        ReadFrom(tar, limits, m.next, Some(p), entries)
      else
        var e :- Admit(tar[offset..offset + BLOCK], m, pending, limits,
                       PathsOf(entries), FileCount(entries), FileBytes(entries));
        ReadFrom(tar, limits, m.next, None, entries + [e])
  }

  predicate ValidLimits(limits: Limits) {
    && 0 < limits.maxUnpackedBytes <= MAX_SAFE_INTEGER
    && 0 < limits.maxEntryBytes <= limits.maxUnpackedBytes
    && 0 < limits.maxFileCount <= MAX_SAFE_INTEGER
  }

  function ReadTar(tar: Bytes, limits: Limits): Result<seq<Entry>, TarError> {
    if !ValidLimits(limits) then Err(BadLimits)
    else if |tar| > limits.maxUnpackedBytes then Err(UnpackedTooLarge)
    else ReadFrom(tar, limits, 0, None, [])
  }

  // ---------------------------------------------------------------- the canonical writer

  datatype UstarPath = UstarPath(name: Bytes, prefix: Bytes)

  predicate Fits(path: Bytes, index: nat) {
    index < |path| && path[index] == SLASH && index <= 155 && |path| - index - 1 <= 100
  }

  /** Rightmost usable split point of `path` in 1..index, or 0 when there is none. */
  function SplitPoint(path: Bytes, index: nat): (k: nat)
    requires index < |path|
    ensures k <= index
    ensures k > 0 ==> Fits(path, k)
    ensures forall i :: k < i <= index ==> !Fits(path, i)
  {
    if index == 0 || Fits(path, index) then index else SplitPoint(path, index - 1)
  }

  function SplitUstarPath(path: Bytes): Option<UstarPath> {
    if |path| <= 100 then Some(UstarPath(path, []))
    else
      var k := SplitPoint(path, |path| - 1);
      if k == 0 then None else Some(UstarPath(path[k + 1..], path[..k]))
  }

  function OctalField(v: nat, len: nat): Bytes
    requires len > 0
  {
    PadStart(ToOctal(v), len - 1) + [NUL]
  }

  predicate FitsOctal(v: nat, digits: nat) { |ToOctal(v)| <= digits }

  function Pow8(n: nat): nat { if n == 0 then 1 else 8 * Pow8(n - 1) }

  /** A number fits an octal field exactly when it is below the field's power of eight. */
  lemma {:induction false} FitsOctalBelow(v: nat, digits: nat)
    requires digits >= 1
    ensures FitsOctal(v, digits) <==> v < Pow8(digits)
  {
    if digits == 1 {
      assert Pow8(1) == 8 * Pow8(0);
    } else if v >= 8 {
      FitsOctalBelow(v / 8, digits - 1);
    } else {
      Pow8AtLeast(digits);
    }
  }

  lemma {:induction false} Pow8AtLeast(n: nat)
    requires n >= 1
    ensures Pow8(n) >= 8
  {
    if n > 1 { Pow8AtLeast(n - 1); }
  }

  lemma {:induction false} PadStartOctal(s: Bytes, n: nat)
    requires |s| <= n && OctalDigits(s)
    ensures |PadStart(s, n)| == n && OctalDigits(PadStart(s, n))
    ensures OctalValue(PadStart(s, n)) == OctalValue(s)
    decreases n - |s|
  {
    if |s| < n {
      LeadingZero(s);
      PadStartOctal([ZERO_DIGIT] + s, n);
    }
  }

  lemma {:induction false} LeadingZero(s: Bytes)
    requires OctalDigits(s)
    ensures OctalValue([ZERO_DIGIT] + s) == OctalValue(s)
  {
    var t := [ZERO_DIGIT] + s;
    if s == [] {
      assert t[..|t| - 1] == [];
    } else {
      assert t[..|t| - 1] == [ZERO_DIGIT] + s[..|s| - 1];
      LeadingZero(s[..|s| - 1]);
    }
  }

  /** The header with its checksum bytes still blank. */
  function BlankHeader(p: UstarPath, mode: nat, size: nat, typ: byte): (h: HeaderBlock)
    requires |p.name| <= 100 && |p.prefix| <= 155 && FitsOctal(mode, 7) && FitsOctal(size, 11)
  {
    PadStartOctal(ToOctal(mode), 7);
    PadStartOctal(ToOctal(0), 7);
    PadStartOctal(ToOctal(0), 11);
    PadStartOctal(ToOctal(size), 11);
    var h := Splice(Zeros(BLOCK), 0, p.name);
    var h := Splice(h, 100, OctalField(mode, 8));
    var h := Splice(h, 108, OctalField(0, 8));
    var h := Splice(h, 116, OctalField(0, 8));
    var h := Splice(h, 124, OctalField(size, 12));
    var h := Splice(h, 136, OctalField(0, 12));
    var h := Splice(h, 148, Spaces(8));
    var h := Splice(h, 156, [typ]);
    var h := Splice(h, 257, USTAR);
    var h := Splice(h, 263, USTAR_VERSION);
    Splice(h, 345, p.prefix)
  }

  function ChecksumField(sum: nat): Bytes { PadStart(ToOctal(sum), 6) + [NUL, SPACE] }

  lemma {:induction false} SumBound(s: Bytes)
    ensures SumBytes(s) <= 255 * |s|
  {
    if s != [] { SumBound(s[..|s| - 1]); }
  }

  lemma ChecksumFits(h: HeaderBlock)
    ensures FitsOctal(SumBytes(h), 6)
    ensures |ChecksumField(SumBytes(h))| == 8
  {
    SumBound(h);
    FitsOctalBelow(SumBytes(h), 6);
    assert Pow8(6) == 262144 by { assert Pow8(3) == 512; }
    PadStartOctal(ToOctal(SumBytes(h)), 6);
  }

  /** The header with its checksum filled in. */
  function Sealed(blank: HeaderBlock): HeaderBlock {
    ChecksumFits(blank);
    Splice(blank, 148, ChecksumField(SumBytes(blank)))
  }

  predicate Writable(e: Entry) {
    SplitUstarPath(e.path).Some? && FitsOctal(PayloadSize(e), 11)
  }

  lemma ModeFits(mode: nat)
    ensures FitsOctal(mode % 512, 7)
  {
    FitsOctalBelow(mode % 512, 7);
    assert Pow8(3) == 512;
    assert Pow8(6) == 512 * Pow8(3);
  }

  function HeaderOf(e: Entry): (h: HeaderBlock)
    requires Writable(e)
  {
    ModeFits(e.mode);
    var h := BlankHeader(SplitUstarPath(e.path).value, e.mode % 512, PayloadSize(e),
                         if e.isFile then TYPE_FILE else TYPE_DIRECTORY);
    Sealed(h)
  }

  function MemberLength(e: Entry): nat { BLOCK + PaddedSize(PayloadSize(e)) }

  function MemberBytes(e: Entry): (b: Bytes)
    requires Writable(e)
    ensures |b| == MemberLength(e)
  {
    PaddingCompletes(|e.data|);
    if e.isFile then HeaderOf(e) + e.data + Zeros((512 - |e.data| % 512) % 512) else HeaderOf(e)
  }

  function AllMembers(es: seq<Entry>): Bytes
    requires forall e <- es :: Writable(e)
  {
    if es == [] then [] else MemberBytes(es[0]) + AllMembers(es[1..])
  }

  /** `Buffer.compare(a, b) <= 0`. */
  predicate BytesLeq(a: Bytes, b: Bytes) {
    a == [] || (b != [] && (a[0] < b[0] || (a[0] == b[0] && BytesLeq(a[1..], b[1..]))))
  }

  function InsertByPath(e: Entry, es: seq<Entry>): seq<Entry> {
    if es == [] || BytesLeq(e.path, es[0].path) then [e] + es
    else [es[0]] + InsertByPath(e, es[1..])
  }

  function SortByPath(es: seq<Entry>): seq<Entry> {
    if es == [] then [] else InsertByPath(es[0], SortByPath(es[1..]))
  }

  function WriteError(e: Entry): TarError {
    if SplitUstarPath(e.path).None? then PathTooLong else SizeTooLarge
  }

  /** The members of `ordered`, or the error of the first one that does not fit ustar. */
  function WriteMembers(ordered: seq<Entry>): (r: Result<Bytes, TarError>)
    ensures r.Ok? <==> forall e <- ordered :: Writable(e)
    ensures r.Ok? ==> r.value == AllMembers(ordered)
  {
    if ordered == [] then Ok([])
    else if !Writable(ordered[0]) then Err(WriteError(ordered[0]))
    else
      assert ordered == [ordered[0]] + ordered[1..];
      var rest :- WriteMembers(ordered[1..]);
      Ok(MemberBytes(ordered[0]) + rest)
  }

  function CanonicalTar(es: seq<Entry>): Result<Bytes, TarError> {
    var members :- WriteMembers(SortByPath(es));
    Ok(members + Zeros(1024))
  }

  /** `canonicalizePackageTarball` below the gzip layer. */
  function Canonicalize(tar: Bytes, limits: Limits): Result<Bytes, TarError> {
    var es :- ReadTar(tar, limits);
    CanonicalTar(es)
  }
}
