/**
 The fatal UTF-8 decoder of the release scripts, seen at the byte level: text is kept as its
 UTF-8 bytes, decoding checks well-formedness and drops one leading byte order mark.
 */
module Utf8 {
  import opened Outcomes

  type byte = x: int | 0 <= x < 256
  type Bytes = seq<byte>

  predicate Continuation(b: byte) { 0x80 <= b < 0xC0 }

  /** Length of the scalar value that starts `s`, or 0 when `s` does not start with one. */
  function Scalar(s: Bytes): (n: nat)
    ensures n <= |s| && n <= 4
    ensures forall i :: 1 <= i < n ==> Continuation(s[i])
  {
    if |s| == 0 then 0
    else if s[0] < 0x80 then 1
    else if 0xC2 <= s[0] < 0xE0 then
      if |s| >= 2 && Continuation(s[1]) then 2 else 0
    else if 0xE0 <= s[0] < 0xF0 then
      if |s| >= 3 && Continuation(s[1]) && Continuation(s[2])
         && (s[0] == 0xE0 ==> s[1] >= 0xA0) && (s[0] == 0xED ==> s[1] < 0xA0) then 3 else 0
    else if 0xF0 <= s[0] < 0xF5 then
      if |s| >= 4 && Continuation(s[1]) && Continuation(s[2]) && Continuation(s[3])
         && (s[0] == 0xF0 ==> s[1] >= 0x90) && (s[0] == 0xF4 ==> s[1] < 0x90) then 4 else 0
    else 0
  }

  predicate Valid(s: Bytes)
    decreases |s|
  {
    s == [] || (Scalar(s) > 0 && Valid(s[Scalar(s)..]))
  }

  const BOM: Bytes := [0xEF, 0xBB, 0xBF]

  function StripBom(s: Bytes): Bytes {
    if BOM <= s then s[3..] else s
  }

  /** `new TextDecoder("utf-8", { fatal: true }).decode(s)`. */
  function Decode(s: Bytes): (r: Option<Bytes>)
    ensures r.Some? ==> Valid(r.value)
  {
    if Valid(s) then
      assert BOM <= s ==> Scalar(s) == 3;
      Some(StripBom(s))
    else None
  }

  /** Well-formed text stays well-formed under concatenation, and a well-formed head can be cut off. */
  lemma {:induction false} ValidConcat(a: Bytes, b: Bytes)
    requires Valid(a)
    ensures Valid(a + b) <==> Valid(b)
    decreases |a|
  {
    if a == [] {
      assert a + b == b;
    } else {
      var n := Scalar(a);
      assert Scalar(a + b) == n;
      assert (a + b)[n..] == a[n..] + b;
      ValidConcat(a[n..], b);
    }
  }

  /** Cutting well-formed text at an ASCII byte leaves two well-formed halves. */
  lemma {:induction false} ValidSplit(a: Bytes, c: byte, b: Bytes)
    requires c < 0x80
    requires Valid(a + [c] + b)
    ensures Valid(a) && Valid(b)
    decreases |a|
  {
    var s := a + [c] + b;
    var n := Scalar(s);
    if a == [] {
      assert n == 1 && s[1..] == b;
    } else {
      assert s[|a|] == c && !Continuation(c);
      assert forall i :: 0 <= i < n ==> s[i] == a[i];
      assert Scalar(a) == n;
      assert s[n..] == a[n..] + [c] + b;
      ValidSplit(a[n..], c, b);
    }
  }
}
