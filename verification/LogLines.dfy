/** Lines of an append-only log, as iterating over a binary file yields them. */
module LogLines {
  import opened Utf8

  const NEWLINE: byte := 0x0A

  /** Length of the first line of `b`, its newline included. */
  function LineEnd(b: Bytes): (k: nat)
    requires b != []
    ensures 0 < k <= |b|
    ensures forall i :: 0 <= i < k - 1 ==> b[i] != NEWLINE
    ensures b[k - 1] == NEWLINE || k == |b|
  {
    if b[0] == NEWLINE || |b| == 1 then 1 else 1 + LineEnd(b[1..])
  }

  function Lines(b: Bytes): seq<Bytes>
    decreases |b|
  {
    if b == [] then [] else [b[..LineEnd(b)]] + Lines(b[LineEnd(b)..])
  }

  /** `b` ends with a complete line. */
  predicate AtBoundary(b: Bytes) { b == [] || b[|b| - 1] == NEWLINE }

  lemma {:induction false} LineEndPrefix(a: Bytes, b: Bytes)
    requires a != [] && AtBoundary(a)
    ensures LineEnd(a + b) == LineEnd(a) && AtBoundary(a[LineEnd(a)..])
  {
    var k, n := LineEnd(a), LineEnd(a + b);
    assert a[k - 1] == NEWLINE;
    assert (a + b)[k - 1] == NEWLINE;
    assert forall i :: 0 <= i < k ==> (a + b)[i] == a[i];
  }

  lemma LinesUnfold(b: Bytes)
    ensures b == [] ==> Lines(b) == []
    ensures b != [] ==> Lines(b) == [b[..LineEnd(b)]] + Lines(b[LineEnd(b)..])
  {
  }

  /** Cutting a log at a line boundary cuts its lines in two. */
  lemma {:induction false} LinesConcat(a: Bytes, b: Bytes)
    requires AtBoundary(a)
    ensures Lines(a + b) == Lines(a) + Lines(b)
    decreases |a|
  {
    hide Lines, LineEnd;
    LinesUnfold(a);
    if a == [] {
      assert a + b == b;
    } else {
      var k := LineEnd(a);
      LineEndPrefix(a, b);
      LinesUnfold(a + b);
      assert (a + b)[..k] == a[..k];
      assert (a + b)[k..] == a[k..] + b;
      LinesConcat(a[k..], b);
    }
  }
}
