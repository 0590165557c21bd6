/**
 Strings as the scripts hold them, sequences of 16-bit units, and the characters an encoder takes from them:
 a surrogate without its partner becomes the replacement character.
 */
module Utf16 {
  type Unit = x: int | 0 <= x < 0x10000
  type Text = seq<Unit>

  const REPLACEMENT: char := '\U{FFFD}'

  predicate High(x: Unit) { 0xD800 <= x < 0xDC00 }

  predicate Low(x: Unit) { 0xDC00 <= x < 0xE000 }

  predicate Paired(u: Text) { |u| >= 2 && High(u[0]) && Low(u[1]) }

  function PairChar(high: Unit, low: Unit): char
    requires High(high) && Low(low)
  {
    (0x10000 + (high - 0xD800) * 0x400 + (low - 0xDC00)) as char
  }

  function UnitChar(x: Unit): char { if High(x) || Low(x) then REPLACEMENT else x as char }

  /** The characters an encoder sees. */
  function Scalars(u: Text): string {
    if u == [] then ""
    else if Paired(u) then [PairChar(u[0], u[1])] + Scalars(u[2..])
    else [UnitChar(u[0])] + Scalars(u[1..])
  }

  /** Neither a surrogate without its partner nor a replacement character. */
  predicate PlainAt(u: Text, i: nat)
    requires i < |u|
  {
    && u[i] != 0xFFFD
    && (High(u[i]) ==> i + 1 < |u| && Low(u[i + 1]))
    && (Low(u[i]) ==> i > 0 && High(u[i - 1]))
  }

  predicate Plain(u: Text) { forall i :: 0 <= i < |u| ==> PlainAt(u, i) }

  /** The units of a character. */
  function CharUnits(c: char): Text {
    var n := c as int;
    if n < 0x10000 then [n] else [0xD800 + (n - 0x10000) / 0x400, 0xDC00 + (n - 0x10000) % 0x400]
  }

  function Units(s: string): Text { if s == "" then [] else CharUnits(s[0]) + Units(s[1..]) }

  lemma PairUnits(high: Unit, low: Unit)
    requires High(high) && Low(low)
    ensures CharUnits(PairChar(high, low)) == [high, low] && PairChar(high, low) != REPLACEMENT
  {
  }

  /** Behind a whole character, being plain does not depend on what came before. */
  lemma PlainTail(u: Text, n: nat)
    requires 0 < n <= |u| && !High(u[n - 1])
    ensures Plain(u) <==> Plain(u[n..]) && forall i :: 0 <= i < n ==> PlainAt(u, i)
  {
    var t := u[n..];
    forall i | 0 <= i < |t| ensures PlainAt(t, i) <==> PlainAt(u, n + i) {
      assert t[i] == u[n + i];
    }
    if Plain(t) && forall i :: 0 <= i < n ==> PlainAt(u, i) {
      forall i | 0 <= i < |u| ensures PlainAt(u, i) {
        if i >= n { assert PlainAt(t, i - n); }
      }
    }
  }

  /** The replacement character is seen exactly where it was written or a surrogate stands alone. */
  lemma {:induction false} PlainExactly(u: Text)
    ensures Plain(u) <==> REPLACEMENT !in Scalars(u)
    decreases |u|
  {
    if u != [] {
      if Paired(u) {
        PairUnits(u[0], u[1]);
        PlainTail(u, 2);
        PlainExactly(u[2..]);
      } else if High(u[0]) || Low(u[0]) || u[0] == 0xFFFD {
        assert Scalars(u)[0] == REPLACEMENT && !PlainAt(u, 0);
      } else {
        PlainTail(u, 1);
        PlainExactly(u[1..]);
        assert UnitChar(u[0]) != REPLACEMENT;
      }
    }
  }

  /** A plain text is given back by its characters. */
  lemma {:induction false} PlainRoundTrip(u: Text)
    requires REPLACEMENT !in Scalars(u)
    ensures Units(Scalars(u)) == u
    decreases |u|
  {
    if u != [] {
      var s := Scalars(u);
      if Paired(u) {
        PairUnits(u[0], u[1]);
        assert s[1..] == Scalars(u[2..]);
        PlainRoundTrip(u[2..]);
        assert u == [u[0], u[1]] + u[2..];
      } else {
        assert s[0] == UnitChar(u[0]) && s[1..] == Scalars(u[1..]);
        PlainRoundTrip(u[1..]);
        assert u == [u[0]] + u[1..];
      }
    }
  }

  /** Another text with the same characters, when there is one. */
  function Twin(u: Text): Text {
    if u == [] then []
    else if Paired(u) then u[..2] + Twin(u[2..])
    else if u[0] == 0xFFFD then [0xDC00] + u[1..]
    else if High(u[0]) || Low(u[0]) then [0xFFFD] + u[1..]
    else [u[0]] + Twin(u[1..])
  }

  lemma {:induction false} TwinLooksAlike(u: Text)
    requires REPLACEMENT in Scalars(u)
    ensures Twin(u) != u && Scalars(Twin(u)) == Scalars(u)
    decreases |u|
  {
    if Paired(u) {
      PairUnits(u[0], u[1]);
      TwinLooksAlike(u[2..]);
      assert Twin(u)[2..] == Twin(u[2..]) && Twin(u)[0] == u[0] && Twin(u)[1] == u[1];
    } else if u[0] == 0xFFFD || High(u[0]) || Low(u[0]) {
      assert Twin(u)[1..] == u[1..] && Twin(u)[0] != u[0];
    } else {
      assert UnitChar(u[0]) != REPLACEMENT;
      TwinLooksAlike(u[1..]);
      assert Twin(u)[1..] == Twin(u[1..]) && Twin(u)[0] == u[0];
    }
  }

  /** A text is the only one with its characters exactly when it is plain. */
  lemma ScalarsTellApartExactly(u: Text)
    ensures (forall v: Text :: Scalars(v) == Scalars(u) ==> v == u) <==> Plain(u)
  {
    PlainExactly(u);
    hide Scalars, Plain, Twin;
    if Plain(u) {
      forall v: Text | Scalars(v) == Scalars(u) ensures v == u { PlainApart(u, v); }
    } else {
      TwinLooksAlike(u);
    }
  }

  lemma PlainApart(u: Text, v: Text)
    requires Plain(u) && Scalars(v) == Scalars(u)
    ensures v == u
  {
    PlainExactly(u);
    PlainRoundTrip(u);
    PlainRoundTrip(v);
  }
}
