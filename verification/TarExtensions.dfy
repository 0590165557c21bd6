/**
 Path extensions of the tar reader, against independent definitions: a PAX header is a concatenation of
 length-prefixed records, and a GNU long path is text up to a NUL with at most one final newline dropped.
 */
module TarExtensions {
  import opened Outcomes
  import opened Utf8
  import opened TarFormat

  /** One PAX record: decimal length, key and value. */
  datatype Attribute = Attribute(digits: Bytes, key: Bytes, value: Bytes)

  function RecordBytes(a: Attribute): Bytes { a.digits + [SPACE] + a.key + [EQUALS] + a.value + [NEWLINE] }

  /** The length counts the whole record, itself included; text is compared with the top bits cleared. */
  predicate WellFormed(a: Attribute) {
    && SPACE !in a.digits && DecimalText(Ascii(a.digits))
    && DecimalValue(Ascii(a.digits)) == |RecordBytes(a)| <= MAX_SAFE_INTEGER
    && a.key != [] && EQUALS !in a.key && Valid(a.value)
  }

  predicate AllWellFormed(attrs: seq<Attribute>) { forall a <- attrs :: WellFormed(a) }

  function Header(attrs: seq<Attribute>): Bytes { if attrs == [] then [] else RecordBytes(attrs[0]) + Header(attrs[1..]) }

  /** The value of the last `path` attribute, or what was found before. */
  function LastPath(attrs: seq<Attribute>, found: Option<Bytes>): Option<Bytes> {
    if attrs == [] then found
    else LastPath(attrs[1..], if Ascii(attrs[0].key) == PATH_KEY then Some(StripBom(attrs[0].value)) else found)
  }

  lemma IndexAfter(s: Bytes, b: byte, from: nat, k: nat)
    requires from <= k < |s| && s[k] == b && forall i :: from <= i < k ==> s[i] != b
    ensures IndexOf(s, b, from) == k
  {
  }

  function Body(a: Attribute): Bytes { a.key + [EQUALS] + a.value + [NEWLINE] }

  lemma BodyReads(a: Attribute)
    requires a.key != [] && EQUALS !in a.key && Valid(a.value)
    ensures KeyValue(Body(a)) == Some((a.key, StripBom(a.value)))
  {
    hide Valid, StripBom;
    var b := Body(a);
    IndexAfter(b, EQUALS, 0, |a.key|);
    assert b[..|a.key|] == a.key && b[|a.key| + 1..|b| - 1] == a.value;
    DecodeValid(a.value);
  }

  lemma RecordIs(a: Attribute)
    ensures RecordBytes(a) == a.digits + [SPACE] + Body(a)
  {
  }

  lemma SpanReads(data: Bytes, offset: nat, a: Attribute)
    requires SPACE !in a.digits && DecimalText(Ascii(a.digits)) && DecimalValue(Ascii(a.digits)) == |a.digits| + 1 + |Body(a)| <= MAX_SAFE_INTEGER
    requires offset + |a.digits| + 1 + |Body(a)| <= |data|
    requires data[offset..offset + |a.digits|] == a.digits && data[offset + |a.digits|] == SPACE
    ensures PaxSpan(data, offset) == Some((offset + |a.digits| + 1, offset + |a.digits| + 1 + |Body(a)|))
  {
    hide DecimalText, DecimalValue, Ascii;
    var n := |a.digits|;
    assert forall i :: 0 <= i < n ==> data[offset + i] == a.digits[i];
    assert forall i :: offset <= i < offset + n ==> data[i] == a.digits[i - offset];
    IndexAfter(data, SPACE, offset, offset + n);
  }

  lemma RecordParts(data: Bytes, offset: nat, a: Attribute)
    requires offset + |RecordBytes(a)| <= |data| && data[offset..offset + |RecordBytes(a)|] == RecordBytes(a)
    ensures var n, r := |a.digits|, |RecordBytes(a)|;
            && r == n + 1 + |Body(a)| && data[offset..offset + n] == a.digits && data[offset + n] == SPACE
            && data[offset + n + 1..offset + r] == Body(a)
  {
    var n, r := |a.digits|, RecordBytes(a);
    RecordIs(a);
    hide Body, RecordBytes;
    assert forall i :: 0 <= i < |r| ==> data[offset + i] == r[i];
    assert r[..n] == a.digits && r[n] == SPACE && r[n + 1..] == Body(a);
    assert data[offset..offset + n] == r[..n];
    assert data[offset + n + 1..offset + |r|] == r[n + 1..];
  }

  lemma PaxUnfold(data: Bytes, offset: nat, found: Option<Bytes>, start: nat, end: nat, key: Bytes, value: Bytes)
    requires offset < |data| && (found.Some? ==> Valid(found.value)) && Valid(value) && offset < start < end <= |data|
    requires PaxSpan(data, offset) == Some((start, end)) && KeyValue(data[start..end]) == Some((key, value))
    ensures PaxPath(data, offset, found) == PaxPath(data, end, if Ascii(key) == PATH_KEY then Some(value) else found)
  {
    hide PaxSpan, KeyValue, Valid, Ascii;
  }

  lemma StrippedValid(s: Bytes)
    requires Valid(s)
    ensures Valid(StripBom(s))
  {
    DecodeValid(s);
  }

  /** The reader takes one well-formed record off the front. */
  lemma PaxStep(data: Bytes, offset: nat, found: Option<Bytes>, a: Attribute)
    requires WellFormed(a) && (found.Some? ==> Valid(found.value))
    requires offset + |RecordBytes(a)| <= |data| && data[offset..offset + |RecordBytes(a)|] == RecordBytes(a)
    ensures Valid(StripBom(a.value)) && |RecordBytes(a)| > 0
    ensures PaxPath(data, offset, found)
         == PaxPath(data, offset + |RecordBytes(a)|, if Ascii(a.key) == PATH_KEY then Some(StripBom(a.value)) else found)
  {
    hide PaxPath, DecimalText, DecimalValue, Ascii, Valid, StripBom, RecordBytes, Body, KeyValue, PaxSpan;
    RecordParts(data, offset, a);
    SpanReads(data, offset, a);
    BodyReads(a);
    StrippedValid(a.value);
    var n := |a.digits| + 1;
    PaxUnfold(data, offset, found, offset + n, offset + n + |Body(a)|, a.key, StripBom(a.value));
  }

  lemma DecodeValid(s: Bytes)
    requires Valid(s)
    ensures Decode(s) == Some(StripBom(s))
  {
  }

  lemma HeaderFront(data: Bytes, offset: nat, attrs: seq<Attribute>)
    requires offset <= |data| && attrs != [] && data[offset..] == Header(attrs)
    ensures var n := |RecordBytes(attrs[0])|;
            offset + n <= |data| && data[offset..offset + n] == RecordBytes(attrs[0]) && data[offset + n..] == Header(attrs[1..])
  {
    hide RecordBytes;
    var r, rest := RecordBytes(attrs[0]), Header(attrs[1..]);
    assert data[offset..] == r + rest;
    assert data[offset..offset + |r|] == (r + rest)[..|r|] && data[offset + |r|..] == (r + rest)[|r|..];
  }

  lemma PaxEnds(data: Bytes, found: Option<Bytes>)
    requires found.Some? ==> Valid(found.value)
    ensures PaxPath(data, |data|, found) == Ok(found)
  {
    hide Valid;
  }

  /** Every well-formed PAX header is accepted, and gives its last path. */
  lemma {:induction false} PaxReads(data: Bytes, offset: nat, found: Option<Bytes>, attrs: seq<Attribute>)
    requires offset <= |data| && data[offset..] == Header(attrs) && AllWellFormed(attrs) && (found.Some? ==> Valid(found.value))
    ensures PaxPath(data, offset, found) == Ok(LastPath(attrs, found))
    decreases |attrs|
  {
    hide RecordBytes, WellFormed, PaxPath, Ascii, StripBom, Valid;
    if attrs == [] {
      assert offset == |data|;
      PaxEnds(data, found);
    } else {
      hide Header;
      HeaderFront(data, offset, attrs);
      PaxStep(data, offset, found, attrs[0]);
      PaxReads(data, offset + |RecordBytes(attrs[0])|,
               if Ascii(attrs[0].key) == PATH_KEY then Some(StripBom(attrs[0].value)) else found, attrs[1..]);
    }
  }

  /** What the reader accepts is a well-formed header. */
  lemma {:induction false} PaxAcceptsOnlyHeaders(data: Bytes, offset: nat, found: Option<Bytes>) returns (attrs: seq<Attribute>)
    requires offset <= |data| && (found.Some? ==> Valid(found.value)) && PaxPath(data, offset, found).Ok?
    ensures AllWellFormed(attrs) && Header(attrs) == data[offset..]
    decreases |data| - offset
  {
    hide PaxPath, PaxSpan, KeyValue, WellFormed, RecordBytes, Valid, Ascii;
    attrs := [];
    if offset < |data| {
      var end, next := PaxAdvances(data, offset, found);
      var rest := PaxAcceptsOnlyHeaders(data, end, next);
      var a := FirstRecord(data, offset);
      attrs := [a] + rest;
      assert attrs[1..] == rest;
      assert data[offset..] == data[offset..end] + data[end..];
    }
  }

  lemma PaxAdvances(data: Bytes, offset: nat, found: Option<Bytes>) returns (end: nat, next: Option<Bytes>)
    requires offset < |data| && (found.Some? ==> Valid(found.value)) && PaxPath(data, offset, found).Ok?
    ensures PaxSpan(data, offset).Some? && end == PaxSpan(data, offset).value.1 && offset < end <= |data|
    ensures KeyValue(data[PaxSpan(data, offset).value.0..end]).Some?
    ensures (next.Some? ==> Valid(next.value)) && PaxPath(data, end, next).Ok?
  {
    hide PaxSpan, KeyValue, Valid, Ascii;
    var (start, stop) := PaxSpan(data, offset).value;
    var (key, value) := KeyValue(data[start..stop]).value;
    end, next := stop, if Ascii(key) == PATH_KEY then Some(value) else found;
  }

  lemma FirstRecord(data: Bytes, offset: nat) returns (a: Attribute)
    requires offset < |data| && PaxSpan(data, offset).Some?
    requires KeyValue(data[PaxSpan(data, offset).value.0..PaxSpan(data, offset).value.1]).Some?
    ensures WellFormed(a) && RecordBytes(a) == data[offset..PaxSpan(data, offset).value.1]
  {
    var (start, end) := PaxSpan(data, offset).value;
    var digits := data[offset..start - 1];
    var key, value := BodyParts(data[start..end]);
    hide KeyValue, Valid;
    a := Attribute(digits, key, value);
    var space := IndexOf(data, SPACE, offset);
    assert digits == data[offset..space];
    hide DecimalText, DecimalValue, Ascii;
    RecordIs(a);
    Join(data, offset, start, end);
    hide RecordBytes;
  }

  lemma BodyParts(record: Bytes) returns (key: Bytes, value: Bytes)
    requires record != [] && KeyValue(record).Some?
    ensures key != [] && EQUALS !in key && Valid(value) && record == key + [EQUALS] + value + [NEWLINE]
  {
    var eq := IndexOf(record, EQUALS, 0);
    key, value := record[..eq], record[eq + 1..|record| - 1];
    hide Valid, IndexOf, KeyValue;
    Cut(record, eq);
  }

  lemma Cut(record: Bytes, eq: nat)
    requires eq < |record| - 1
    ensures record == record[..eq] + [record[eq]] + record[eq + 1..|record| - 1] + [record[|record| - 1]]
  {
  }

  lemma Join(data: Bytes, offset: nat, start: nat, end: nat)
    requires offset < start <= end <= |data|
    ensures data[offset..end] == data[offset..start - 1] + [data[start - 1]] + data[start..end]
  {
  }

  /** The record loop of `parsePaxAttributes`, keeping the one attribute the reader uses. */
  method ParsePaxPath(data: Bytes) returns (r: Result<Option<Bytes>, TarError>)
    ensures r == PaxPath(data, 0, None)
  {
    hide PaxSpan, KeyValue, Ascii, Valid;
    var offset: nat, found: Option<Bytes> := 0, None;
    while offset < |data|
      invariant offset <= |data| && (found.Some? ==> Valid(found.value))
      invariant PaxPath(data, 0, None) == PaxPath(data, offset, found)
      decreases |data| - offset
    {
      var span := PaxSpan(data, offset);
      if span.None? { return Err(BadPax); }
      var pair := KeyValue(data[span.value.0..span.value.1]);
      if pair.None? { return Err(BadPax); }
      if Ascii(pair.value.0) == PATH_KEY { found := Some(pair.value.1); }
      offset := span.value.1;
    }
    return Ok(found);
  }

  /** A PAX header is accepted exactly when it is a concatenation of well-formed records. */
  lemma PaxAcceptsExactly(data: Bytes)
    ensures PaxPath(data, 0, None).Ok? <==> exists attrs :: AllWellFormed(attrs) && Header(attrs) == data
  {
    assert data[0..] == data;
    if PaxPath(data, 0, None).Ok? { var attrs := PaxAcceptsOnlyHeaders(data, 0, None); }
    if attrs :| AllWellFormed(attrs) && Header(attrs) == data { PaxReads(data, 0, None, attrs); }
  }

  /** A GNU long path is the text before the first NUL, without a leading mark and one final newline. */
  lemma GnuReads(path: Bytes, tail: Bytes)
    requires Valid(path) && NUL !in path && (tail != [] ==> tail[0] == NUL)
    ensures GnuLongPath(path + tail) == Ok(var t := StripBom(path); if t != [] && t[|t| - 1] == NEWLINE then t[..|t| - 1] else t)
  {
    var data := path + tail;
    if tail != [] {
      IndexAfter(data, NUL, 0, |path|);
    } else {
      assert data == path;
      assert IndexOf(data, NUL, 0) == |data|;
    }
    assert data[..|path|] == path;
    DecodeValid(path);
  }
}
