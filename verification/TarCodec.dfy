/**
 The imperative reader and writer of the release evidence: an offset loop with a set of seen paths,
 and a header buffer that is filled in place. Each method is proved against `TarFormat`.
 */
module TarCodec {
  import opened Outcomes
  import opened Utf8
  import opened TarFormat
  import TarExtensions

  /** The stored checksum's counterpart: all bytes, the checksum field itself counted as spaces. */
  method Checksum(header: HeaderBlock) returns (sum: nat)
    ensures sum == HeaderSum(header)
  {
    ghost var blanked := Splice(header, 148, Spaces(8));
    sum := 0;
    for index := 0 to BLOCK
      invariant sum == SumBytes(blanked[..index])
    {
      assert blanked[..index + 1][..index] == blanked[..index];
      sum := sum + if 148 <= index < 156 then SPACE else header[index];
    }
    assert blanked[..BLOCK] == blanked;
  }

  /** One turn of the reader down to the payload: checksum, strings, size and bounds, in the source's order. */
  method TakeMember(tar: Bytes, limits: Limits, offset: nat) returns (r: Result<Member, TarError>)
    requires offset + BLOCK <= |tar|
    ensures r == ReadMember(tar, limits, offset)
  {
    hide ParseOctal, HeaderSum, RawString, Decode, PaddedSize;
    var header: HeaderBlock := tar[offset..offset + BLOCK];
    var stored := ParseOctal(header[148..156]);
    if stored.None? { return Err(BadOctal); }
    var sum := Checksum(header);
    if stored.value != sum { return Err(BadChecksum); }
    var name, prefix := Decode(RawString(header, 0, 100)), Decode(RawString(header, 345, 155));
    if name.None? || prefix.None? { return Err(BadUtf8); }
    var size := ParseOctal(header[124..136]);
    if size.None? { return Err(BadOctal); }
    if size.value > limits.maxEntryBytes { return Err(EntryTooLarge); }
    var start := offset + BLOCK;
    var next := start + PaddedSize(size.value);
    if next > |tar| { return Err(Truncated); }
    return Ok(Member(name.value, prefix.value, header[156], tar[start..start + size.value], next));
  }

  method WriteTarString(header: array<byte>, offset: nat, length: nat, value: Bytes) returns (ok: bool)
    requires offset + length <= header.Length
    modifies header
    ensures ok <==> |value| <= length
    ensures header[..] == if ok then Splice(old(header[..]), offset, value) else old(header[..])
  {
    ok := |value| <= length;
    if !ok { return; }
    ghost var before := header[..];
    for i := 0 to |value|
      invariant header[..] == Splice(before, offset, value[..i])
    {
      header[offset + i] := value[i];
      assert header[..] == Splice(before, offset, value[..i])[offset + i := value[i]];
    }
    assert value[..|value|] == value;
  }

  method WriteTarOctal(header: array<byte>, offset: nat, length: nat, value: nat) returns (ok: bool)
    requires length > 1 && offset + length <= header.Length
    modifies header
    ensures ok <==> FitsOctal(value, length - 1)
    ensures ok ==> |OctalField(value, length)| == length
    ensures header[..] == if ok then Splice(old(header[..]), offset, OctalField(value, length)) else old(header[..])
  {
    var encoded := ToOctal(value);
    if |encoded| > length - 1 { return false; }
    PadStartOctal(encoded, length - 1);
    ghost var before := header[..];
    var padded := PadStart(encoded, length - 1);
    ok := WriteTarString(header, offset, length - 1, padded);
    header[offset + length - 1] := 0;
    assert header[..] == Splice(before, offset, padded + [NUL]);
  }

  /** Scans the path from its end for a usable slash. */
  method SplitPath(path: Bytes) returns (r: Option<UstarPath>)
    ensures r == SplitUstarPath(path)
  {
    if |path| <= 100 { return Some(UstarPath(path, [])); }
    var index := |path| - 1;
    while index > 0
      invariant 0 <= index < |path|
      invariant SplitPoint(path, |path| - 1) == SplitPoint(path, index)
    {
      if path[index] == SLASH {
        var prefix, name := path[..index], path[index + 1..];
        if |prefix| <= 155 && |name| <= 100 { return Some(UstarPath(name, prefix)); }
      }
      index := index - 1;
    }
    return None;
  }

  /** Fills a zeroed header buffer field by field, leaving the checksum blank. */
  method FillHeader(header: array<byte>, p: UstarPath, mode: nat, size: nat, typ: byte)
    requires header.Length == BLOCK && header[..] == Zeros(BLOCK)
    requires |p.name| <= 100 && |p.prefix| <= 155 && FitsOctal(mode, 7) && FitsOctal(size, 11)
    modifies header
    ensures header[..] == BlankHeader(p, mode, size, typ)
  {
    hide Splice, Zeros, Spaces, OctalField, ToOctal;
    FitsOctalBelow(0, 7);
    FitsOctalBelow(0, 11);
    Pow8AtLeast(7);
    Pow8AtLeast(11);
    var ok := WriteTarString(header, 0, 100, p.name);
    ok := WriteTarOctal(header, 100, 8, mode);
    ok := WriteTarOctal(header, 108, 8, 0);
    ok := WriteTarOctal(header, 116, 8, 0);
    ok := WriteTarOctal(header, 124, 12, size);
    ok := WriteTarOctal(header, 136, 12, 0);
    ok := WriteTarString(header, 148, 8, Spaces(8));
    ok := WriteTarString(header, 156, 1, [typ]);
    ok := WriteTarString(header, 257, 6, USTAR);
    ok := WriteTarString(header, 263, 2, USTAR_VERSION);
    ok := WriteTarString(header, 345, 155, p.prefix);
  }

  method Total(header: array<byte>) returns (sum: nat)
    ensures sum == SumBytes(header[..])
  {
    sum := 0;
    for i := 0 to header.Length
      invariant sum == SumBytes(header[..i])
    {
      assert header[..i + 1][..i] == header[..i];
      sum := sum + header[i];
    }
    assert header[..header.Length] == header[..];
  }

  method CanonicalHeader(e: Entry) returns (r: Result<array<byte>, TarError>)
    ensures r.Ok? <==> Writable(e)
    ensures r.Err? ==> r.error == WriteError(e)
    ensures r.Ok? ==> r.value.Length == BLOCK && fresh(r.value) && r.value[..] == HeaderOf(e)
  {
    hide Splice, BlankHeader, ToOctal;
    var split := SplitPath(e.path);
    if split.None? { return Err(PathTooLong); }
    var size := if e.isFile then |e.data| else 0;
    if !FitsOctal(size, 11) { return Err(SizeTooLarge); }
    ModeFits(e.mode);
    var header := new byte[BLOCK](_ => 0);
    assert header[..] == Zeros(BLOCK);
    FillHeader(header, split.value, e.mode % 512, size, if e.isFile then TYPE_FILE else TYPE_DIRECTORY);
    ChecksumFits(header[..]);
    var checksum := Total(header);
    var ok := WriteTarString(header, 148, 8, ChecksumField(checksum));
    return Ok(header);
  }

  method WriteMember(e: Entry) returns (r: Result<Bytes, TarError>)
    ensures r == if Writable(e) then Ok(MemberBytes(e)) else Err(WriteError(e))
  {
    hide HeaderOf, Writable, WriteError, Zeros;
    var h := CanonicalHeader(e);
    if h.Err? { return Err(h.error); }
    var output := h.value[..];
    if e.isFile {
      output := output + e.data;
      output := output + Zeros((512 - |e.data| % 512) % 512);
    }
    return Ok(output);
  }

  /** Writes the sorted members, their padding and two zero blocks. */
  method CreateCanonicalTar(es: seq<Entry>) returns (r: Result<Bytes, TarError>)
    ensures r == CanonicalTar(es)
  {
    hide Writable, WriteError, MemberBytes, Zeros, SortByPath;
    var ordered := SortByPath(es);
    var output: Bytes := [];
    assert ordered[0..] == ordered;
    PrependUnit(WriteMembers(ordered));
    for i := 0 to |ordered|
      invariant WriteMembers(ordered) == Prepend(output, WriteMembers(ordered[i..]))
    {
      assert ordered[i..][0] == ordered[i] && ordered[i..][1..] == ordered[i + 1..];
      var m :- WriteMember(ordered[i]);
      PrependStep(output, m, WriteMembers(ordered[i + 1..]));
      output := output + m;
    }
    assert Prepend(output, WriteMembers([])) == Ok(output) by { assert output + [] == output; }
    return Ok(output + Zeros(1024));
  }

  lemma PrependUnit(tail: Result<Bytes, TarError>)
    ensures Prepend([], tail) == tail
  {
    if tail.Ok? { assert [] + tail.value == tail.value; }
  }

  ghost function Prepend(head: Bytes, tail: Result<Bytes, TarError>): Result<Bytes, TarError> {
    if tail.Ok? then Ok(head + tail.value) else tail
  }

  lemma PrependStep(a: Bytes, b: Bytes, tail: Result<Bytes, TarError>)
    ensures Prepend(a, Prepend(b, tail)) == Prepend(a + b, tail)
  {
    if tail.Ok? { assert a + (b + tail.value) == (a + b) + tail.value; }
  }

  /** The offset loop over the members of a tar stream. */
  method ParseTarEntries(tar: Bytes, limits: Limits) returns (r: Result<seq<Entry>, TarError>)
    ensures r == ReadTar(tar, limits)
  {
    hide ReadMember, Admit, PaxPath, GnuLongPath, ReadTerminator, IsZero, ReadFrom, PathsOf, FileCount, FileBytes;
    if !ValidLimits(limits) { return Err(BadLimits); }
    if |tar| > limits.maxUnpackedBytes { return Err(UnpackedTooLarge); }
    var entries: seq<Entry>, seen: set<Bytes>, pending: Option<Bytes> := [], {}, None;
    var fileBytes, fileCount, offset := 0, 0, 0;
    NothingRead();
    while offset + BLOCK <= |tar|
      invariant offset <= |tar|
      invariant seen == PathsOf(entries) && fileCount == FileCount(entries) && fileBytes == FileBytes(entries)
      invariant ReadTar(tar, limits) == ReadFrom(tar, limits, offset, pending, entries)
      decreases |tar| - offset
    {
      OneTurn(tar, limits, offset, pending, entries);
      var header := tar[offset..offset + BLOCK];
      if IsZero(header) { return ReadTerminator(tar, offset, pending, entries); }
      var taken := TakeMember(tar, limits, offset);
      var m :- taken;
      if m.typ == TYPE_PAX || m.typ == TYPE_PAX_GLOBAL {
        var pax := TarExtensions.ParsePaxPath(m.data);
        var p :- pax;
        if m.typ == TYPE_PAX_GLOBAL && p.Some? { return Err(GlobalPaxPath); }
        if m.typ == TYPE_PAX && p.Some? { pending := p; }
        offset := m.next;
        continue;
      }
      if m.typ == TYPE_GNU_LONG {
        var p :- GnuLongPath(m.data);
        pending := Some(p);
        offset := m.next;
        continue;
      }
      var e :- Admit(header, m, pending, limits, seen, fileCount, fileBytes);
      Admitted(entries, e);
      pending := None;
      if e.isFile {
        fileCount := fileCount + 1;
        fileBytes := fileBytes + |e.data|;
      }
      seen := seen + {e.path};
      entries := entries + [e];
      offset := m.next;
    }
    TooShort(tar, limits, offset, pending, entries);
    return Err(MissingTerminator);
  }

  lemma NothingRead()
    ensures PathsOf([]) == {} && FileCount([]) == 0 && FileBytes([]) == 0
  {
  }

  lemma Admitted(entries: seq<Entry>, e: Entry)
    ensures PathsOf(entries + [e]) == PathsOf(entries) + {e.path}
    ensures FileCount(entries + [e]) == FileCount(entries) + if e.isFile then 1 else 0
    ensures FileBytes(entries + [e]) == FileBytes(entries) + if e.isFile then |e.data| else 0
  {
    assert (entries + [e])[..|entries|] == entries;
  }

  lemma TooShort(tar: Bytes, limits: Limits, offset: nat, pending: Option<Bytes>, entries: seq<Entry>)
    requires offset <= |tar| < offset + BLOCK
    ensures ReadFrom(tar, limits, offset, pending, entries) == Err(MissingTerminator)
  {
  }

  /** One turn of the reader: what is left to read after the member at `offset`. */
  lemma OneTurn(tar: Bytes, limits: Limits, offset: nat, pending: Option<Bytes>, entries: seq<Entry>)
    requires offset + BLOCK <= |tar|
    ensures var here, header := ReadFrom(tar, limits, offset, pending, entries), tar[offset..offset + BLOCK];
            if IsZero(header) then here == ReadTerminator(tar, offset, pending, entries)
            else
              match ReadMember(tar, limits, offset)
              case Err(error) => here == Err(error)
              case Ok(m) =>
                if m.typ == TYPE_PAX || m.typ == TYPE_PAX_GLOBAL then
                  match PaxPath(m.data, 0, None)
                  case Err(error) => here == Err(error)
                  case Ok(p) =>
                    here == if m.typ == TYPE_PAX_GLOBAL && p.Some? then Err(GlobalPaxPath)
                            else ReadFrom(tar, limits, m.next, if p.Some? then p else pending, entries)
                else if m.typ == TYPE_GNU_LONG then
                  match GnuLongPath(m.data)
                  case Err(error) => here == Err(error)
                  case Ok(p) => here == ReadFrom(tar, limits, m.next, Some(p), entries)
                else
                  match Admit(header, m, pending, limits, PathsOf(entries), FileCount(entries), FileBytes(entries))
                  case Err(error) => here == Err(error)
                  case Ok(e) => here == ReadFrom(tar, limits, m.next, None, entries + [e])
  {
    hide ReadMember, Admit, PaxPath, GnuLongPath, ReadTerminator, IsZero, PathsOf, FileCount, FileBytes;
  }
}
