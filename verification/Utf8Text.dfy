/** The byte strings the fatal decoder takes are exactly the UTF-8 encodings of texts. */
module Utf8Text {
  import opened Utf8
  import opened Base64Url

  lemma ScalarOfChar(c: char, rest: Bytes)
    ensures Scalar(EncodeChar(c) + rest) == |EncodeChar(c)|
  {
    var n, s := c as int, EncodeChar(c) + rest;
    assert 0 <= n < 0xD800 || 0xE000 <= n < 0x110000;
    assert forall i :: 0 <= i < |EncodeChar(c)| ==> s[i] == EncodeChar(c)[i];
    if 0x800 <= n < 0x10000 {
      Digits64(n);
    } else if n >= 0x10000 {
      Digits64(n);
      Digits64(n / 64);
    }
  }

  lemma Digits64(n: nat)
    ensures n == n / 64 / 64 * 4096 + n / 64 % 64 * 64 + n % 64
  {
    assert n == n / 64 * 64 + n % 64 && n / 64 == n / 64 / 64 * 64 + n / 64 % 64;
  }

  lemma Compose2(a: int, b: int)
    requires 0 <= b < 64 && 0 <= a
    ensures (a * 64 + b) / 64 == a && (a * 64 + b) % 64 == b
  {
  }

  lemma Two(a: nat, b: nat) returns (c: char)
    requires 2 <= a < 32 && b < 64
    ensures EncodeChar(c) == [0xC0 + a, 0x80 + b]
  {
    Compose2(a, b);
    c := (a * 64 + b) as char;
  }

  lemma Three(a: nat, b: nat, d: nat) returns (c: char)
    requires a < 16 && b < 64 && d < 64 && (a == 0 ==> b >= 32) && (a == 13 ==> b < 32)
    ensures EncodeChar(c) == [0xE0 + a, 0x80 + b, 0x80 + d]
  {
    Compose2(a * 64 + b, d);
    Compose2(a, b);
    c := ((a * 64 + b) * 64 + d) as char;
  }

  lemma Four(a: nat, b: nat, d: nat, e: nat) returns (c: char)
    requires a < 5 && b < 64 && d < 64 && e < 64 && (a == 0 ==> b >= 16) && (a == 4 ==> b < 16)
    ensures EncodeChar(c) == [0xF0 + a, 0x80 + b, 0x80 + d, 0x80 + e]
  {
    Compose2((a * 64 + b) * 64 + d, e);
    Compose2(a * 64 + b, d);
    Compose2(a, b);
    c := (((a * 64 + b) * 64 + d) * 64 + e) as char;
  }

  lemma CharOfScalar(s: Bytes) returns (c: char)
    requires Scalar(s) > 0
    ensures EncodeChar(c) == s[..Scalar(s)]
  {
    var k := Scalar(s);
    if k == 1 {
      c := s[0] as char;
      return;
    }
    hide EncodeChar;
    var at := (i: int) requires 0 <= i < |s| => s[i] as int;
    if k == 2 {
      c := Two(at(0) - 0xC0, at(1) - 0x80);
    } else if k == 3 {
      c := Three(at(0) - 0xE0, at(1) - 0x80, at(2) - 0x80);
    } else {
      c := Four(at(0) - 0xF0, at(1) - 0x80, at(2) - 0x80, at(3) - 0x80);
    }
  }

  lemma {:induction false} EncodedIsValid(t: string)
    ensures Valid(Encode(t))
  {
    if t != "" {
      var head, rest := EncodeChar(t[0]), Encode(t[1..]);
      hide EncodeChar, Scalar;
      ScalarOfChar(t[0], rest);
      EncodedIsValid(t[1..]);
      assert (head + rest)[|head|..] == rest;
    }
  }

  lemma {:induction false} ValidIsEncoded(s: Bytes) returns (t: string)
    requires Valid(s)
    ensures Encode(t) == s
    decreases |s|
  {
    hide *;
    if s == [] {
      t := "";
      EncodeNothing();
    } else {
      ValidFirst(s);
      var c := CharOfScalar(s);
      var rest := ValidIsEncoded(s[Scalar(s)..]);
      t := [c] + rest;
      EncodeCons(c, rest);
      assert s == s[..Scalar(s)] + s[Scalar(s)..];
    }
  }

  lemma EncodeNothing()
    ensures Encode("") == []
  {
  }

  lemma ValidFirst(s: Bytes)
    requires Valid(s) && s != []
    ensures Scalar(s) > 0 && Valid(s[Scalar(s)..])
  {
    hide Scalar;
  }

  lemma EncodeCons(c: char, rest: string)
    ensures Encode([c] + rest) == EncodeChar(c) + Encode(rest)
  {
    hide EncodeChar;
    assert ([c] + rest)[1..] == rest;
  }

  /** Well-formed bytes are the encodings of texts, each of exactly one. */
  lemma ValidExactly(s: Bytes)
    ensures Valid(s) <==> exists t :: Encode(t) == s
  {
    hide Valid, Encode;
    if Valid(s) { var t := ValidIsEncoded(s); }
    if t :| Encode(t) == s { EncodedIsValid(t); }
  }
}
