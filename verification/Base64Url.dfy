/** The text encoding behind stable task identities: UTF-8, then unpadded base64url. Both are injective. */
module Base64Url {
  import opened Utf8
  import Utf16

  // ---------------------------------------------------------------- UTF-8

  function EncodeChar(c: char): (r: Bytes)
    ensures 1 <= |r| <= 4
  {
    var n := c as int;
    if n < 0x80 then [n]
    else if n < 0x800 then [0xC0 + n / 64, 0x80 + n % 64]
    else if n < 0x10000 then [0xE0 + n / 64 / 64, 0x80 + n / 64 % 64, 0x80 + n % 64]
    else [0xF0 + n / 64 / 64 / 64, 0x80 + n / 64 / 64 % 64, 0x80 + n / 64 % 64, 0x80 + n % 64]
  }

  function Encode(s: string): Bytes { if s == "" then [] else EncodeChar(s[0]) + Encode(s[1..]) }

  /** The first byte tells how many bytes a character takes. */
  function Width(b: byte): nat { if b < 0x80 then 1 else if b < 0xE0 then 2 else if b < 0xF0 then 3 else 4 }

  lemma CharWidth(c: char)
    ensures |EncodeChar(c)| == Width(EncodeChar(c)[0])
  {
  }

  /** Number a character's bytes stand for. */
  function Value(p: Bytes): int
    requires 1 <= |p| <= 4
  {
    var at := (i: int) requires 0 <= i < |p| => p[i] as int;
    if |p| == 1 then at(0)
    else if |p| == 2 then (at(0) - 0xC0) * 64 + (at(1) - 0x80)
    else if |p| == 3 then ((at(0) - 0xE0) * 64 + (at(1) - 0x80)) * 64 + (at(2) - 0x80)
    else (((at(0) - 0xF0) * 64 + (at(1) - 0x80)) * 64 + (at(2) - 0x80)) * 64 + (at(3) - 0x80)
  }

  lemma ValueOfChar(c: char)
    ensures Value(EncodeChar(c)) == c as int
  {
    var n := c as int;
    var p := EncodeChar(c);
    assert n < 0x110000;
    assert n >= 0x10000 ==> p[0] as int - 0xF0 == n / 64 / 64 / 64;
  }

  lemma CharInjective(c: char, d: char)
    requires EncodeChar(c) == EncodeChar(d)
    ensures c == d
  {
    hide EncodeChar, Value;
    ValueOfChar(c);
    ValueOfChar(d);
  }

  lemma {:induction false} EncodeInjective(s: string, t: string)
    requires Encode(s) == Encode(t)
    ensures s == t
  {
    if s != "" && t != "" {
      var p, q := EncodeChar(s[0]), EncodeChar(t[0]);
      CharWidth(s[0]);
      CharWidth(t[0]);
      hide EncodeChar;
      assert Encode(s)[0] == p[0] && Encode(t)[0] == q[0];
      assert p == Encode(s)[..|p|] && q == Encode(t)[..|p|];
      CharInjective(s[0], t[0]);
      assert Encode(s[1..]) == Encode(s)[|p|..] && Encode(t[1..]) == Encode(t)[|p|..];
      EncodeInjective(s[1..], t[1..]);
      assert s == [s[0]] + s[1..] && t == [t[0]] + t[1..];
    }
  }

  // ---------------------------------------------------------------- base64url

  type Sextet = x: int | 0 <= x < 64

  function Digit(x: Sextet): (c: char)
    ensures c != ':'
  {
    if x < 26 then 'A' + x as char
    else if x < 52 then 'a' + (x - 26) as char
    else if x < 62 then '0' + (x - 52) as char
    else if x == 62 then '-'
    else '_'
  }

  lemma DigitInjective(x: Sextet, y: Sextet)
    requires Digit(x) == Digit(y)
    ensures x == y
  {
  }

  function Sextets(b: Bytes): seq<Sextet> {
    if |b| == 0 then []
    else if |b| == 1 then [b[0] / 4, b[0] % 4 * 16]
    else if |b| == 2 then [b[0] / 4, b[0] % 4 * 16 + b[1] / 16, b[1] % 16 * 4]
    else [b[0] / 4, b[0] % 4 * 16 + b[1] / 16, b[1] % 16 * 4 + b[2] / 64, b[2] % 64] + Sextets(b[3..])
  }

  lemma {:induction false} SextetCount(b: Bytes)
    ensures |Sextets(b)| == |b| / 3 * 4 + (if |b| % 3 == 0 then 0 else |b| % 3 + 1)
  {
    if |b| >= 3 { SextetCount(b[3..]); }
  }

  lemma SextetLength(a: Bytes, b: Bytes)
    requires |Sextets(a)| == |Sextets(b)|
    ensures |a| == |b|
  {
    SextetCount(a);
    SextetCount(b);
  }

  lemma TripleInjective(a: seq<byte>, b: seq<byte>)
    requires |a| >= 3 && |b| >= 3
    requires a[0] / 4 == b[0] / 4 && a[0] % 4 * 16 + a[1] / 16 == b[0] % 4 * 16 + b[1] / 16
    requires a[1] % 16 * 4 + a[2] / 64 == b[1] % 16 * 4 + b[2] / 64 && a[2] % 64 == b[2] % 64
    ensures a[0] == b[0] && a[1] == b[1] && a[2] == b[2]
  {
  }

  lemma {:induction false} SextetsInjective(a: Bytes, b: Bytes)
    requires Sextets(a) == Sextets(b)
    ensures a == b
  {
    SextetLength(a, b);
    var p, q := Sextets(a), Sextets(b);
    if |a| >= 3 {
      assert p[0] == q[0] && p[1] == q[1] && p[2] == q[2] && p[3] == q[3];
      TripleInjective(a, b);
      assert Sextets(a[3..]) == p[4..] && Sextets(b[3..]) == q[4..];
      SextetsInjective(a[3..], b[3..]);
      assert a == a[..3] + a[3..] && b == b[..3] + b[3..];
    } else if |a| == 2 {
      assert p[0] == q[0] && p[1] == q[1] && p[2] == q[2];
    } else if |a| == 1 {
      assert p[0] == q[0] && p[1] == q[1];
    }
  }

  /** The number whose digits these are. */
  function InBase(base: int, digits: seq<int>): int {
    if digits == [] then 0 else InBase(base, digits[..|digits| - 1]) * base + digits[|digits| - 1]
  }

  lemma TwoDigits(base: int, a: int, b: int)
    ensures InBase(base, [a, b]) == a * base + b
  {
    assert [a, b][..1] == [a];
    OneDigit(base, a);
  }

  lemma ThreeDigits(base: int, a: int, b: int, c: int)
    ensures InBase(base, [a, b, c]) == (a * base + b) * base + c
  {
    assert [a, b, c][..2] == [a, b];
    TwoDigits(base, a, b);
  }

  lemma FourDigits(base: int, a: int, b: int, c: int, d: int)
    ensures InBase(base, [a, b, c, d]) == ((a * base + b) * base + c) * base + d
  {
    assert [a, b, c, d][..3] == [a, b, c];
    ThreeDigits(base, a, b, c);
  }

  /** The bits are kept in order: a group of bytes and its digits are the same number, an incomplete one filled up with zero bits. */
  lemma SextetsKeepBits(b: Bytes)
    requires b != []
    ensures var x := Sextets(b);
            && (|b| >= 3 ==> |x| >= 4 && x[4..] == Sextets(b[3..])
                             && InBase(64, [x[0], x[1], x[2], x[3]]) == InBase(256, [b[0], b[1], b[2]]))
            && (|b| == 2 ==> |x| == 3 && InBase(64, [x[0], x[1], x[2]]) == InBase(256, [b[0], b[1]]) * 4)
            && (|b| == 1 ==> |x| == 2 && InBase(64, [x[0], x[1]]) == InBase(256, [b[0]]) * 16)
  {
    hide InBase;
    var x := Sextets(b);
    if |b| >= 3 {
      FourDigits(64, x[0], x[1], x[2], x[3]);
      ThreeDigits(256, b[0], b[1], b[2]);
    } else if |b| == 2 {
      ThreeDigits(64, x[0], x[1], x[2]);
      TwoDigits(256, b[0], b[1]);
    } else {
      TwoDigits(64, x[0], x[1]);
      OneDigit(256, b[0]);
    }
  }

  lemma OneDigit(base: int, a: int)
    ensures InBase(base, [a]) == a
  {
    assert [a][..0] == [];
    assert InBase(base, []) * base == 0;
  }

  /** `toBase64Url`. */
  function ToBase64Url(s: string): (r: string)
    ensures ':' !in r
  {
    var x := Sextets(Encode(s));
    seq(|x|, i requires 0 <= i < |x| => Digit(x[i]))
  }

  /** Different texts never share an encoding, and no encoding contains the separator of identities. */
  lemma ToBase64UrlInjective(s: string, t: string)
    requires ToBase64Url(s) == ToBase64Url(t)
    ensures s == t
  {
    var x, y := Sextets(Encode(s)), Sextets(Encode(t));
    hide Sextets, Encode;
    assert |x| == |ToBase64Url(s)| && |y| == |ToBase64Url(t)|;
    forall i | 0 <= i < |x| ensures x[i] == y[i] {
      assert ToBase64Url(s)[i] == Digit(x[i]) && ToBase64Url(t)[i] == Digit(y[i]);
      DigitInjective(x[i], y[i]);
    }
    SextetsInjective(Encode(s), Encode(t));
    EncodeInjective(s, t);
  }

  /** A text of 16-bit units is the only one with its encoding exactly when it is plain. */
  lemma EncodedApartExactly(u: Utf16.Text)
    ensures (forall v: Utf16.Text :: ToBase64Url(Utf16.Scalars(v)) == ToBase64Url(Utf16.Scalars(u)) ==> v == u) <==> Utf16.Plain(u)
  {
    hide ToBase64Url, Utf16.Scalars, Utf16.Plain;
    Utf16.ScalarsTellApartExactly(u);
    if Utf16.Plain(u) {
      forall v: Utf16.Text | ToBase64Url(Utf16.Scalars(v)) == ToBase64Url(Utf16.Scalars(u)) ensures v == u {
        ToBase64UrlInjective(Utf16.Scalars(v), Utf16.Scalars(u));
        Utf16.PlainApart(u, v);
      }
    }
  }
}
