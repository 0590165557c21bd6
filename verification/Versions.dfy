/**
 Stable release versions, compared as digit strings without converting them to numbers. The order is
 the one of section 11 of Semantic Versioning 2.0.0 for versions without pre-release parts.
 */
module Versions {
  import opened Outcomes

  predicate IsDigit(c: char) { '0' <= c <= '9' }

  predicate Digits(s: string) { forall i :: 0 <= i < |s| ==> IsDigit(s[i]) }

  /** `0|[1-9]\d*`. */
  predicate NumericIdentifier(s: string) { s == "0" || (s != "" && Digits(s) && s[0] != '0') }

  function Split(s: string, c: char): (parts: seq<string>)
    ensures |parts| >= 1
    decreases |s|
  {
    if s == "" then [""]
    else
      var rest := Split(s[1..], c);
      if s[0] == c then [""] + rest else [[s[0]] + rest[0]] + rest[1..]
  }

  predicate StableVersion(v: string) {
    var parts := Split(v, '.');
    |parts| == 3 && forall i :: 0 <= i < 3 ==> NumericIdentifier(parts[i])
  }

  predicate TextLess(a: string, b: string) {
    if a == "" then b != ""
    else b != "" && (a[0] < b[0] || (a[0] == b[0] && TextLess(a[1..], b[1..])))
  }

  function CompareNumericIdentifiers(left: string, right: string): int {
    if |left| != |right| then (if |left| < |right| then -1 else 1)
    else if TextLess(left, right) then -1
    else if TextLess(right, left) then 1
    else 0
  }

  /** `compareStableVersions`: None for the error on a version that is not stable. */
  method CompareStableVersions(left: string, right: string) returns (r: Option<int>)
    ensures r == Compare(left, right)
  {
    if !StableVersion(left) || !StableVersion(right) { return None; }
    var l, r' := Split(left, '.'), Split(right, '.');
    for index := 0 to |l|
      invariant Compare(left, right) == Some(CompareParts(l[index..], r'[index..]))
    {
      var comparison := CompareNumericIdentifiers(l[index], r'[index]);
      if comparison != 0 { return Some(comparison); }
      assert l[index..][1..] == l[index + 1..] && r'[index..][1..] == r'[index + 1..];
    }
    return Some(0);
  }

  function CompareParts(l: seq<string>, r: seq<string>): int
    requires |l| == |r|
  {
    if l == [] then 0
    else
      var c := CompareNumericIdentifiers(l[0], r[0]);
      if c != 0 then c else CompareParts(l[1..], r[1..])
  }

  function Compare(left: string, right: string): Option<int> {
    if !StableVersion(left) || !StableVersion(right) then None
    else Some(CompareParts(Split(left, '.'), Split(right, '.')))
  }

  // ---------------------------------------------------------------- values

  function Value(s: string): nat
    requires Digits(s)
  {
    if s == "" then 0 else Value(s[..|s| - 1]) * 10 + (s[|s| - 1] as int - '0' as int)
  }

  function Pow10(n: nat): nat { if n == 0 then 1 else 10 * Pow10(n - 1) }

  lemma {:induction false} ValueBounds(s: string)
    requires Digits(s)
    ensures Value(s) < Pow10(|s|)
    ensures s != "" && s[0] != '0' ==> Value(s) >= Pow10(|s| - 1)
  {
    if s != "" {
      var init := s[..|s| - 1];
      ValueBounds(init);
      if |s| > 1 { assert init[0] == s[0]; }
    }
  }

  lemma {:induction false} Pow10Grows(m: nat, n: nat)
    requires m <= n
    ensures Pow10(m) <= Pow10(n)
  {
    if m < n { Pow10Grows(m, n - 1); }
  }

  /** The leading digit weighs more than everything after it. */
  lemma {:induction false} ValueHead(s: string)
    requires s != "" && Digits(s)
    ensures Value(s) == (s[0] as int - '0' as int) * Pow10(|s| - 1) + Value(s[1..])
  {
    if |s| == 1 {
      assert s[..0] == "" && s[1..] == "";
    } else {
      var init, tail := s[..|s| - 1], s[1..];
      ValueHead(init);
      assert init[1..] == tail[..|tail| - 1] && init[0] == s[0];
      TenTimes(s[0] as int - '0' as int, Pow10(|s| - 2));
    }
  }

  lemma TenTimes(d: int, p: nat)
    ensures 10 * (d * p) == d * (10 * p)
  {
  }

  lemma {:induction false} TextLessIsValueLess(a: string, b: string)
    requires |a| == |b| && Digits(a) && Digits(b)
    ensures TextLess(a, b) <==> Value(a) < Value(b)
    ensures Value(a) == Value(b) ==> a == b
  {
    if a != "" {
      ValueHead(a);
      ValueHead(b);
      ValueBounds(a[1..]);
      ValueBounds(b[1..]);
      TextLessIsValueLess(a[1..], b[1..]);
      var p, x, y := Pow10(|a| - 1), a[0] as int - '0' as int, b[0] as int - '0' as int;
      if x < y { Scaled(x, y, p); } else if y < x { Scaled(y, x, p); }
      assert a == [a[0]] + a[1..] && b == [b[0]] + b[1..];
    }
  }

  lemma Scaled(x: int, y: int, p: nat)
    requires x + 1 <= y
    ensures x * p + p <= y * p
  {
    var d := y - x - 1;
    assert d * p >= 0;
    assert (x + 1 + d) * p == x * p + p + d * p;
  }

  function Sign(a: int, b: int): int { if a < b then -1 else if a > b then 1 else 0 }

  /** Length-then-text order on digit strings without leading zeros is the order of their values. */
  lemma CompareIdentifiersByValue(a: string, b: string)
    requires NumericIdentifier(a) && NumericIdentifier(b)
    ensures CompareNumericIdentifiers(a, b) == Sign(Value(a), Value(b))
    ensures CompareNumericIdentifiers(a, b) == 0 <==> a == b
  {
    if |a| == |b| {
      TextLessIsValueLess(a, b);
      TextLessIsValueLess(b, a);
    } else if |a| < |b| {
      ShorterIsLess(a, b);
    } else {
      ShorterIsLess(b, a);
    }
  }

  lemma ShorterIsLess(a: string, b: string)
    requires NumericIdentifier(a) && NumericIdentifier(b) && |a| < |b|
    ensures Value(a) < Value(b)
  {
    ValueBounds(a);
    ValueBounds(b);
    Pow10Grows(|a|, |b| - 1);
  }

  /** The three numbers of a stable version. */
  function Numbers(v: string): (nat, nat, nat)
    requires StableVersion(v)
  {
    var p := Split(v, '.');
    (Value(p[0]), Value(p[1]), Value(p[2]))
  }

  function LexSign(a: (int, int, int), b: (int, int, int)): int {
    if a.0 != b.0 then Sign(a.0, b.0) else if a.1 != b.1 then Sign(a.1, b.1) else Sign(a.2, b.2)
  }

  /** The comparison is lexicographic order of the numeric components, whatever their length. */
  lemma CompareByNumbers(a: string, b: string)
    requires StableVersion(a) && StableVersion(b)
    ensures Compare(a, b) == Some(LexSign(Numbers(a), Numbers(b)))
  {
    hide CompareNumericIdentifiers, Value, Split, NumericIdentifier;
    var l, r := Split(a, '.'), Split(b, '.');
    CompareIdentifiersByValue(l[0], r[0]);
    CompareIdentifiersByValue(l[1], r[1]);
    CompareIdentifiersByValue(l[2], r[2]);
    assert l[1..][0] == l[1] && r[1..][0] == r[1] && l[1..][1..] == l[2..] && r[1..][1..] == r[2..];
    assert l[2..][0] == l[2] && r[2..][0] == r[2] && l[2..][1..] == [] && r[2..][1..] == [];
    assert CompareParts(l[2..], r[2..]) == CompareNumericIdentifiers(l[2], r[2]);
    assert CompareParts(l[1..], r[1..])
        == if l[1] == r[1] then CompareNumericIdentifiers(l[2], r[2]) else CompareNumericIdentifiers(l[1], r[1]);
  }

  function Join(parts: seq<string>, c: char): string {
    if parts == [] then "" else if |parts| == 1 then parts[0] else parts[0] + [c] + Join(parts[1..], c)
  }

  lemma {:induction false} JoinSplit(s: string, c: char)
    ensures Join(Split(s, c), c) == s
    decreases |s|
  {
    if s != "" {
      var rest := Split(s[1..], c);
      JoinSplit(s[1..], c);
      if s[0] == c {
        assert ([""] + rest)[1..] == rest;
        assert "" + [c] + Join(rest, c) == s;
      } else {
        var parts := [[s[0]] + rest[0]] + rest[1..];
        assert parts[1..] == rest[1..];
        if |rest| > 1 {
          assert [s[0]] + rest[0] + [c] + Join(rest[1..], c) == [s[0]] + (rest[0] + [c] + Join(rest[1..], c));
        }
      }
    }
  }

  /** The comparison is a total order on stable versions: equal only on equal text, antisymmetric, transitive. */
  lemma CompareIsTotalOrder(a: string, b: string, c: string)
    requires StableVersion(a) && StableVersion(b) && StableVersion(c)
    ensures Compare(a, b) == Some(0) <==> a == b
    ensures Compare(a, b).value == -Compare(b, a).value
    ensures Compare(a, b).value <= 0 && Compare(b, c).value <= 0 ==> Compare(a, c).value <= 0
  {
    CompareByNumbers(a, b);
    CompareByNumbers(b, a);
    CompareByNumbers(b, c);
    CompareByNumbers(a, c);
    hide CompareNumericIdentifiers, Value, Split, NumericIdentifier, CompareParts, Compare, Numbers, StableVersion;
    if Compare(a, b) == Some(0) { NumbersInjective(a, b); }
  }

  /** Without leading zeros, equal numbers mean equal text. */
  lemma NumbersInjective(a: string, b: string)
    requires StableVersion(a) && StableVersion(b) && Numbers(a) == Numbers(b)
    ensures a == b
  {
    hide CompareNumericIdentifiers, Value, Split, NumericIdentifier;
    var l, r := Split(a, '.'), Split(b, '.');
    CompareIdentifiersByValue(l[0], r[0]);
    CompareIdentifiersByValue(l[1], r[1]);
    CompareIdentifiersByValue(l[2], r[2]);
    assert l == [l[0], l[1], l[2]] && r == [r[0], r[1], r[2]];
    JoinSplit(a, '.');
    JoinSplit(b, '.');
  }

  // ---------------------------------------------------------------- which texts are stable versions

  /** The decimal text of a number. */
  function Decimal(n: nat): (s: string)
    ensures Digits(s) && s != "" && Value(s) == n
    ensures NumericIdentifier(s)
  {
    if n < 10 then
      assert Value([('0' as int + n) as char]) == Value("") * 10 + n;
      [('0' as int + n) as char]
    else
      var s := Decimal(n / 10) + [('0' as int + n % 10) as char];
      assert s[..|s| - 1] == Decimal(n / 10);
      NotZero(Decimal(n / 10));
      s
  }

  lemma NotZero(s: string)
    requires NumericIdentifier(s) && Value(s) > 0
    ensures s[0] != '0'
  {
    assert Value("0") == 0 by { assert "0"[..0] == ""; }
  }

  /** A numeric identifier is the decimal text of its value. */
  lemma IdentifierIsDecimal(s: string)
    requires NumericIdentifier(s)
    ensures Digits(s) && Decimal(Value(s)) == s
  {
    CompareIdentifiersByValue(s, Decimal(Value(s)));
  }

  lemma {:induction false} SplitFirst(a: string, rest: string, c: char)
    requires c !in a
    ensures Split(a + [c] + rest, c) == [a] + Split(rest, c)
    ensures Split(a, c) == [a]
  {
    var s := a + [c] + rest;
    if a == "" {
      assert s[0] == c && s[1..] == rest;
    } else {
      SplitFirst(a[1..], rest, c);
      assert s[0] == a[0] && s[1..] == a[1..] + [c] + rest;
      assert [s[0]] + a[1..] == a;
    }
  }

  function Dotted(a: nat, b: nat, c: nat): string { Decimal(a) + "." + (Decimal(b) + "." + Decimal(c)) }

  lemma DottedSplits(a: nat, b: nat, c: nat)
    ensures Split(Dotted(a, b, c), '.') == [Decimal(a), Decimal(b), Decimal(c)]
  {
    hide Decimal, Split;
    var x, y, z := Decimal(a), Decimal(b), Decimal(c);
    assert '.' !in x && '.' !in y && '.' !in z;
    SplitFirst(x, y + "." + z, '.');
    SplitFirst(y, z, '.');
    SplitFirst(z, "", '.');
    assert Split(Dotted(a, b, c), '.') == [x] + Split(y + "." + z, '.');
    assert Split(y + "." + z, '.') == [y] + Split(z, '.');
    assert [x] + ([y] + [z]) == [x, y, z];
  }

  lemma ThreeParts(v: string)
    requires StableVersion(v)
    ensures v == Dotted(Numbers(v).0, Numbers(v).1, Numbers(v).2)
  {
    hide Value, Split, Decimal, NumericIdentifier;
    var p := Split(v, '.');
    JoinSplit(v, '.');
    IdentifierIsDecimal(p[0]);
    IdentifierIsDecimal(p[1]);
    IdentifierIsDecimal(p[2]);
    var rest := p[1..];
    assert rest[1..] == [p[2]];
    assert Join(rest, '.') == p[1] + ['.'] + p[2];
    assert Join(p, '.') == p[0] + ['.'] + (p[1] + ['.'] + p[2]);
    assert Numbers(v) == (Value(p[0]), Value(p[1]), Value(p[2]));
  }

  /** Stable versions are exactly three decimal numbers with dots between, whose numbers those are. */
  lemma StableVersionExactly(v: string)
    ensures StableVersion(v) <==> exists a: nat, b: nat, c: nat :: v == Dotted(a, b, c)
    ensures forall a: nat, b: nat, c: nat :: v == Dotted(a, b, c) ==> StableVersion(v) && Numbers(v) == (a, b, c)
  {
    hide Decimal, Dotted, Split;
    if StableVersion(v) { ThreeParts(v); }
    forall a: nat, b: nat, c: nat | v == Dotted(a, b, c) ensures StableVersion(v) && Numbers(v) == (a, b, c) { DottedSplits(a, b, c); }
  }

  /** Text order is that of the first differing character, a prefix coming first. */
  lemma {:induction false} TextLessExactly(a: string, b: string)
    ensures TextLess(a, b) <==> a < b || exists k | 0 <= k < |a| :: LessAt(a, b, k)
  {
    if a != "" && b != "" {
      if a[0] == b[0] {
        var s, t := a[1..], b[1..];
        assert a == [a[0]] + s && b == [a[0]] + t;
        TextLessExactly(s, t);
        forall k: nat ensures LessAt(a, b, k + 1) <==> LessAt(s, t, k) { LessCons(a[0], s, t, k); }
        assert !LessAt(a, b, 0);
        if k :| 0 <= k < |a| && LessAt(a, b, k) { assert LessAt(s, t, k - 1); }
        if k :| 0 <= k < |s| && LessAt(s, t, k) { assert LessAt(a, b, k + 1); }
      } else {
        assert LessAt(a, b, 0) <==> a[0] < b[0];
      }
    }
  }

  /** At `k` the texts differ first, and `a` has the smaller character. */
  predicate LessAt(a: string, b: string, k: nat) { k < |a| && k < |b| && a[..k] == b[..k] && a[k] < b[k] }

  lemma LessCons(x: char, a: string, b: string, k: nat)
    ensures LessAt([x] + a, [x] + b, k + 1) <==> LessAt(a, b, k)
  {
    if k < |a| && k < |b| {
      assert ([x] + a)[..k + 1] == [x] + a[..k] && ([x] + b)[..k + 1] == [x] + b[..k];
      assert ([x] + a[..k])[1..] == a[..k] && ([x] + b[..k])[1..] == b[..k];
    }
  }
}
