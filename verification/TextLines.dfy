/** Python's line splitting with kept terminators, and the whitespace it strips. */
module TextLines {
  /** Characters that end a line; a carriage return takes a following line feed with it. */
  predicate Terminator(c: char) {
    || c == '\n' || c == '\r' || c == '\U{000B}' || c == '\U{000C}' || c == '\U{001C}' || c == '\U{001D}' || c == '\U{001E}'
    || c == '\U{0085}' || c == '\U{2028}' || c == '\U{2029}'
  }

  predicate Space(c: char) {
    || Terminator(c) || c == '\t' || c == ' ' || c == '\U{001F}' || c == '\U{00A0}' || c == '\U{1680}'
    || ('\U{2000}' <= c <= '\U{200A}') || c == '\U{202F}' || c == '\U{205F}' || c == '\U{3000}'
  }

  predicate Blank(s: string) { forall c <- s :: Space(c) }

  predicate StartsWith(s: string, prefix: string) { |prefix| <= |s| && s[..|prefix|] == prefix }

  /** Length of the first line, terminator included. */
  function LineLength(text: string): (n: nat)
    ensures n <= |text| && (text != "" ==> n > 0)
  {
    if text == "" then 0
    else if text[0] == '\r' && |text| > 1 && text[1] == '\n' then 2
    else if Terminator(text[0]) then 1
    else 1 + LineLength(text[1..])
  }

  /** `splitlines(keepends=True)`. */
  function SplitLines(text: string): (r: seq<string>)
    ensures forall line <- r :: line != ""
  {
    if text == "" then [] else [text[..LineLength(text)]] + SplitLines(text[LineLength(text)..])
  }

  function Join(lines: seq<string>): string { if lines == [] then "" else lines[0] + Join(lines[1..]) }

  /** Offset at which the first `k` lines end. */
  function EndOf(lines: seq<string>, k: nat): (n: nat)
    requires k <= |lines|
  {
    if k == 0 then 0 else EndOf(lines, k - 1) + |lines[k - 1]|
  }

  lemma EndOfNext(lines: seq<string>, k: nat)
    requires k < |lines|
    ensures EndOf(lines, 0) == 0 && EndOf(lines, k + 1) == EndOf(lines, k) + |lines[k]|
  {
  }

  lemma {:induction false} LineLengthOfPrefix(text: string, m: nat)
    requires LineLength(text) <= m <= |text|
    ensures LineLength(text[..m]) == LineLength(text)
  {
    if text != "" {
      var short := text[..m];
      assert short[0] == text[0];
      if text[0] == '\r' && |text| > 1 && text[1] == '\n' {
        assert short[1] == '\n';
      } else if !Terminator(text[0]) {
        assert short[1..] == text[1..][..m - 1];
        LineLengthOfPrefix(text[1..], m - 1);
      }
    }
  }

  lemma {:induction false} EndOfTail(lines: seq<string>, k: nat)
    requires 0 < k <= |lines|
    ensures EndOf(lines, k) == |lines[0]| + EndOf(lines[1..], k - 1)
  {
    if k > 1 {
      EndOfTail(lines, k - 1);
      assert lines[1..][k - 2] == lines[k - 1];
    }
  }

  /** Cutting a text at the end of its `k`-th line leaves its first `k` lines. */
  lemma {:induction false} SplitPrefix(text: string, k: nat)
    requires k <= |SplitLines(text)|
    ensures EndOf(SplitLines(text), k) <= |text|
    ensures SplitLines(text[..EndOf(SplitLines(text), k)]) == SplitLines(text)[..k]
    decreases |text|, k
  {
    if k > 0 {
      assert text != "";
      hide SplitLines, LineLength, EndOf;
      var head, tail := text[..LineLength(text)], text[LineLength(text)..];
      assert text == head + tail;
      SplitCons(head, tail);
      PrefixCons(head, tail, k);
    }
  }

  lemma {:induction false} PrefixCons(head: string, tail: string, k: nat)
    requires head != "" && LineLength(head + tail) == |head| && 0 < k <= 1 + |SplitLines(tail)|
    requires SplitLines(head + tail) == [head] + SplitLines(tail)
    ensures EndOf(SplitLines(head + tail), k) <= |head| + |tail|
    ensures SplitLines((head + tail)[..EndOf(SplitLines(head + tail), k)]) == SplitLines(head + tail)[..k]
    decreases |tail|, k
  {
    hide SplitLines, LineLength, EndOf;
    EndOfTail(SplitLines(head + tail), k);
    SplitPrefix(tail, k - 1);
    var m := EndOf(SplitLines(tail), k - 1);
    CutCons(head, tail, m);
    FirstOfCons(head, SplitLines(tail), k);
  }

  lemma FirstOfCons(head: string, lines: seq<string>, k: nat)
    requires 0 < k <= 1 + |lines|
    ensures ([head] + lines)[1..] == lines && ([head] + lines)[..k] == [head] + lines[..k - 1]
  {
  }

  /** Cutting behind the first line cuts the rest. */
  lemma CutCons(head: string, tail: string, m: nat)
    requires head != "" && LineLength(head + tail) == |head| && m <= |tail|
    ensures SplitLines((head + tail)[..|head| + m]) == [head] + SplitLines(tail[..m])
  {
    hide SplitLines, LineLength;
    LineLengthOfPrefix(head + tail, |head| + m);
    assert (head + tail)[..|head| + m] == head + tail[..m];
    SplitCons(head, tail[..m]);
  }

  lemma SplitCons(head: string, tail: string)
    requires head != "" && LineLength(head + tail) == |head|
    ensures SplitLines(head + tail) == [head] + SplitLines(tail)
  {
    hide LineLength;
    var text := head + tail;
    assert text[..|head|] == head && text[|head|..] == tail;
  }

  /** One terminator ends the line, a carriage return with its line feed counting as one. */
  predicate EndsOnce(line: string) {
    && line != "" && Terminator(line[|line| - 1])
    && forall j :: 0 <= j < |line| - 1 && Terminator(line[j]) ==> j == |line| - 2 && line[j] == '\r' && line[j + 1] == '\n'
  }

  predicate EndsWithReturn(line: string) { line != "" && line[|line| - 1] == '\r' }

  predicate NoTerminator(line: string) { forall j :: 0 <= j < |line| ==> !Terminator(line[j]) }

  /** The first line ends at the first terminator of the text, or with the text. */
  lemma {:induction false} FirstLineIs(text: string)
    requires text != ""
    ensures var n := LineLength(text);
            && (EndsOnce(text[..n]) || (n == |text| && NoTerminator(text)))
            && (n < |text| && text[n - 1] == '\r' ==> text[n] != '\n')
  {
    var n := LineLength(text);
    if !Terminator(text[0]) {
      if |text| == 1 {
        assert text[1..] == "";
      } else {
        var rest := text[1..];
        FirstLineIs(rest);
        assert forall j :: 0 < j < |text| ==> text[j] == rest[j - 1];
        assert forall j :: 0 < j < n ==> text[..n][j] == rest[..n - 1][j - 1];
      }
    }
  }

  /** Every line ends at its first terminator; only the last may have none, and no cut divides a pair. */
  lemma {:induction false} LinesExactly(text: string, i: nat)
    requires i < |SplitLines(text)|
    ensures var lines := SplitLines(text);
            && (EndsOnce(lines[i]) || (i == |lines| - 1 && NoTerminator(lines[i])))
            && (i + 1 < |lines| && EndsWithReturn(lines[i]) ==> !StartsWith(lines[i + 1], "\n"))
    decreases |text|
  {
    var n, lines := LineLength(text), SplitLines(text);
    var rest := text[n..];
    assert lines == [text[..n]] + SplitLines(rest);
    hide LineLength;
    FirstLineIs(text);
    hide Terminator;
    if i > 0 {
      LinesExactly(rest, i - 1);
    } else {
      if rest != "" { FirstChar(rest); }
      if n == |text| { assert rest == "" && text[..n] == text; }
    }
  }

  lemma FirstChar(text: string)
    requires text != ""
    ensures SplitLines(text) != [] && SplitLines(text)[0] != "" && SplitLines(text)[0][0] == text[0]
  {
  }

  lemma {:induction false} EndOfAll(text: string)
    ensures EndOf(SplitLines(text), |SplitLines(text)|) == |text|
  {
    if text != "" {
      var lines, n := SplitLines(text), LineLength(text);
      assert lines[1..] == SplitLines(text[n..]);
      EndOfTail(lines, |lines|);
      EndOfAll(text[n..]);
    }
  }

  lemma {:induction false} EndOfPositive(lines: seq<string>, k: nat)
    requires k <= |lines| && forall line <- lines :: line != ""
    ensures EndOf(lines, k) > 0 <==> k > 0
  {
    if k > 0 {
      EndOfPositive(lines, k - 1);
      assert lines[k - 1] in lines;
    }
  }

  // ---------------------------------------------------------------- leading whitespace

  /** The text without leading whitespace starts with three dashes. */
  predicate DashesAfterSpace(text: string) {
    if text != "" && Space(text[0]) then DashesAfterSpace(text[1..]) else StartsWith(text, "---")
  }

  lemma {:induction false} DashesGrow(a: string, b: string)
    requires DashesAfterSpace(a)
    ensures DashesAfterSpace(a + b)
  {
    if a != "" && Space(a[0]) {
      DashesGrow(a[1..], b);
      assert (a + b)[1..] == a[1..] + b;
    } else {
      assert (a + b)[..3] == a[..3];
    }
  }

  lemma {:induction false} DashesAfterBlank(a: string, b: string)
    requires Blank(a) && StartsWith(b, "---")
    ensures DashesAfterSpace(a + b)
  {
    if a == "" {
      assert a + b == b && b[0] == '-';
    } else {
      DashesAfterBlank(a[1..], b);
      assert (a + b)[1..] == a[1..] + b;
    }
  }

  /** The lines of a text join back to it. */
  lemma {:induction false} JoinSplit(text: string)
    ensures Join(SplitLines(text)) == text
  {
    if text != "" {
      var n := LineLength(text);
      JoinSplit(text[n..]);
      assert SplitLines(text)[1..] == SplitLines(text[n..]);
      assert text == text[..n] + text[n..];
    }
  }

  lemma {:induction false} JoinPush(lines: seq<string>, last: string)
    ensures Join(lines + [last]) == Join(lines) + last
  {
    if lines == [] {
      assert [last][1..] == [];
    } else {
      assert (lines + [last])[1..] == lines[1..] + [last];
      JoinPush(lines[1..], last);
    }
  }
}
