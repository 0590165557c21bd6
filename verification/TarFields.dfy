/** Which bytes the tar reader takes as a number. */
module TarFields {
  import opened Outcomes
  import opened Utf8
  import opened TarFormat
  import opened TarRoundTrip

  predicate All(s: Bytes, p: byte -> bool) { forall i :: 0 <= i < |s| ==> p(s[i]) }

  /** Octal digits between white space, with NULs and spaces behind. */
  predicate Spells(text: Bytes, lead: Bytes, digits: Bytes, space: Bytes, fill: Bytes) {
    && text == lead + digits + space + fill
    && All(lead, Whitespace) && OctalDigits(digits) && All(space, Whitespace) && All(fill, NulOrSpace)
  }

  lemma {:induction false} TrimEndSplits(s: Bytes, p: byte -> bool) returns (tail: Bytes)
    ensures s == TrimEnd(s, p) + tail && All(tail, p)
  {
    tail := [];
    if s != [] && p(s[|s| - 1]) {
      var rest := TrimEndSplits(s[..|s| - 1], p);
      tail := rest + [s[|s| - 1]];
    }
  }

  lemma {:induction false} TrimStartSplits(s: Bytes, p: byte -> bool) returns (head: Bytes)
    ensures s == head + TrimStart(s, p) && All(head, p)
  {
    head := [];
    if s != [] && p(s[0]) {
      var rest := TrimStartSplits(s[1..], p);
      head := [s[0]] + rest;
    }
  }

  lemma {:induction false} TrimEndOver(core: Bytes, tail: Bytes, p: byte -> bool)
    requires All(tail, p)
    ensures TrimEnd(core + tail, p) == TrimEnd(core, p)
  {
    var s := core + tail;
    if tail == [] {
      assert s == core;
    } else {
      assert s[..|s| - 1] == core + tail[..|tail| - 1];
      TrimEndOver(core, tail[..|tail| - 1], p);
    }
  }

  lemma {:induction false} TrimStartOver(head: Bytes, core: Bytes, p: byte -> bool)
    requires All(head, p)
    ensures TrimStart(head + core, p) == TrimStart(core, p)
  {
    if head == [] {
      assert head + core == core;
    } else {
      assert (head + core)[1..] == head[1..] + core;
      TrimStartOver(head[1..], core, p);
    }
  }

  /** What is cut off the end of `core + tail` leaves the core alone when it ends in another byte. */
  lemma {:induction false} TrimEndStops(core: Bytes, tail: Bytes, p: byte -> bool) returns (k: nat)
    requires core != [] && !p(core[|core| - 1])
    ensures k <= |tail| && TrimEnd(core + tail, p) == core + tail[..k]
  {
    var s := core + tail;
    k := |tail|;
    if tail == [] {
      assert s == core && core + tail[..0] == core;
    } else if p(s[|s| - 1]) {
      assert s[..|s| - 1] == core + tail[..|tail| - 1];
      k := TrimEndStops(core, tail[..|tail| - 1], p);
      assert tail[..|tail| - 1][..k] == tail[..k];
    } else {
      assert tail[..k] == tail;
    }
  }

  function Trimmed(text: Bytes): Bytes { TrimStart(TrimEnd(TrimEnd(text, NulOrSpace), Whitespace), Whitespace) }

  lemma ParseIs(field: Bytes)
    ensures var raw := Trimmed(Ascii(field));
            ParseOctal(field) == if OctalDigits(raw) && OctalValue(raw) <= MAX_SAFE_INTEGER then Some(OctalValue(raw)) else None
  {
  }

  lemma {:induction false} AllSpace(s: Bytes)
    requires All(s, Whitespace)
    ensures TrimEnd(s, Whitespace) == []
  {
    if s != [] { AllSpace(s[..|s| - 1]); }
  }

  lemma {:induction false} TrimEndPrefix(s: Bytes, p: byte -> bool) returns (k: nat)
    ensures k <= |s| && TrimEnd(s, p) == s[..k]
  {
    k := |s|;
    if s != [] && p(s[|s| - 1]) {
      k := TrimEndPrefix(s[..|s| - 1], p);
      assert s[..|s| - 1][..k] == s[..k];
    } else {
      assert s[..k] == s;
    }
  }

  lemma SpellsTrims(text: Bytes, lead: Bytes, digits: Bytes, space: Bytes, fill: Bytes)
    requires Spells(text, lead, digits, space, fill)
    ensures Trimmed(text) == digits
  {
    hide TrimEnd, TrimStart;
    var core := lead + digits + space;
    TrimEndOver(core, fill, NulOrSpace);
    if digits == [] {
      assert core == lead + space;
      var k := TrimEndPrefix(core, NulOrSpace);
      AllSpace(core[..k]);
      NothingLeft();
    } else {
      DigitsStop(digits);
      var full := lead + digits;
      assert full[|full| - 1] == digits[|digits| - 1];
      var k := TrimEndStops(full, space, NulOrSpace);
      TrimEndOver(full, space[..k], Whitespace);
      var j := TrimEndStops(full, [], Whitespace);
      assert full + [] == full && full + [][..j] == full;
      TrimStartOver(lead, digits, Whitespace);
      assert TrimStart(digits, Whitespace) == digits by { NoLead(digits); }
    }
  }

  lemma NothingLeft()
    ensures TrimStart([], Whitespace) == []
  {
  }

  lemma DigitsStop(digits: Bytes)
    requires OctalDigits(digits) && digits != []
    ensures var d := digits[|digits| - 1]; !NulOrSpace(d) && !Whitespace(d)
  {
  }

  lemma NoLead(digits: Bytes)
    requires OctalDigits(digits) && digits != []
    ensures TrimStart(digits, Whitespace) == digits
  {
  }

  lemma TrimmedSpells(text: Bytes) returns (lead: Bytes, space: Bytes, fill: Bytes)
    requires OctalDigits(Trimmed(text))
    ensures Spells(text, lead, Trimmed(text), space, fill)
  {
    hide TrimEnd, TrimStart;
    fill := TrimEndSplits(text, NulOrSpace);
    var a := TrimEnd(text, NulOrSpace);
    space := TrimEndSplits(a, Whitespace);
    var b := TrimEnd(a, Whitespace);
    lead := TrimStartSplits(b, Whitespace);
  }

  /**
   A field is read as a number exactly when, its top bits cleared, it is octal digits between white space with
   NULs and spaces behind, and the value is a safe integer; no digits at all count as zero.
   */
  lemma ParseOctalExactly(field: Bytes, v: nat)
    ensures ParseOctal(field) == Some(v) <==>
            v <= MAX_SAFE_INTEGER
            && exists lead, digits, space, fill :: Spells(Ascii(field), lead, digits, space, fill) && OctalValue(digits) == v
  {
    ParseIs(field);
    hide Trimmed, Ascii, ParseOctal;
    if ParseOctal(field) == Some(v) {
      var lead, space, fill := TrimmedSpells(Ascii(field));
    }
    if lead, digits, space, fill :| Spells(Ascii(field), lead, digits, space, fill) && OctalValue(digits) == v {
      SpellsTrims(Ascii(field), lead, digits, space, fill);
    }
  }
}
