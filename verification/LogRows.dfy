/** What every table of a rebuilt log holds, row by row, in terms of the decoded lines of the log alone. */
module LogRows {
  import opened Outcomes
  import opened Utf8
  import opened LogLines
  import opened LogSync
  import opened LogTables

  // ---------------------------------------------------------------- the last of several

  /** The value at the greatest position below `n` that has one. */
  function Last<T>(f: nat -> Option<T>, n: nat): Option<T> {
    if n == 0 then None else if f(n - 1).Some? then f(n - 1) else Last(f, n - 1)
  }

  lemma {:induction false} LastSame<T>(f: nat -> Option<T>, g: nat -> Option<T>, n: nat)
    requires forall i: nat | i < n :: f(i) == g(i)
    ensures Last(f, n) == Last(g, n)
  {
    if n > 0 { LastSame(f, g, n - 1); }
  }

  /** It is the value at some position, and no later position has one. */
  lemma {:induction false} LastIs<T>(f: nat -> Option<T>, n: nat)
    ensures Last(f, n).None? <==> forall i: nat | i < n :: f(i).None?
    ensures Last(f, n).Some? ==> exists i: nat | i < n :: f(i) == Last(f, n) && forall j: nat | i < j < n :: f(j).None?
  {
    if n > 0 && f(n - 1).None? { LastIs(f, n - 1); }
  }

  // ---------------------------------------------------------------- what a decoded line says

  function NameOf(raw: string): string { if raw != "" then raw else "<unknown>" }

  /** Tokens of a text, none for the empty one. */
  function Weight(c: Codec, text: string): nat { if text != "" then c.tokens(text) else 0 }

  function EventAt(c: Codec, lines: seq<Bytes>, i: nat): Option<Event> { if i < |lines| then c.decode(lines[i]) else None }

  function CallsIn(e: Option<Event>): seq<ToolCall> { if e.Some? && e.value.Assistant? then e.value.calls else [] }

  function ResultOn(c: Codec, e: Option<Event>, id: string): Option<ResultRow> {
    match e
    case Some(ToolResult(entryId, ts, callId, rawName, text, isError)) =>
      if callId == id then Some(ResultRow(entryId, NameOf(rawName), rawName, ts, text, Weight(c, text), isError)) else None
    case _ => None
  }

  function AssistantOn(c: Codec, e: Option<Event>): Option<AssistantRow> {
    match e
    case Some(Assistant(entryId, ts, model, _, text, thinking)) =>
      if text == "" && thinking == "" then None
      else Some(AssistantRow(entryId, ts, model, text, thinking, Weight(c, text), Weight(c, thinking)))
    case _ => None
  }

  function UserOn(c: Codec, e: Option<Event>): Option<UserRow> {
    match e
    case Some(User(entryId, ts, text)) => if text == "" then None else Some(UserRow(entryId, ts, text, Weight(c, text)))
    case _ => None
  }

  /** The `j`-th call of a line, when it has this id. */
  function CallOf(c: Codec, e: Option<Event>, j: nat, id: string): Option<CallRow> {
    if j < |CallsIn(e)| && CallsIn(e)[j].callId == id then
      var call, m := CallsIn(e)[j], e.value;
      Some(CallRow(m.entryId, NameOf(call.rawName), call.rawName, m.ts, m.model, call.argJson, Weight(c, call.argJson)))
    else None
  }

  predicate IsEdit(e: Option<Event>, j: nat, id: string) {
    j < |CallsIn(e)| && CallsIn(e)[j].callId == id && CallsIn(e)[j].rawName == "edit"
  }

  /** Line, time and input length of an edit call. */
  function EditOf(c: Codec, e: Option<Event>, i: nat, j: nat, id: string): Option<(nat, int, nat)> {
    if IsEdit(e, j, id) then Some((i, e.value.ts, c.edit(CallsIn(e)[j].argJson).rawLength)) else None
  }

  /** Its section number `s`. */
  function SectionOf(c: Codec, e: Option<Event>, i: nat, j: nat, id: string, s: nat): Option<SectionRow> {
    if IsEdit(e, j, id) && s < |c.edit(CallsIn(e)[j].argJson).sections| then
      Some(SectionRow(i, c.edit(CallsIn(e)[j].argJson).sections[s], EDIT_PARSER_VERSION))
    else None
  }

  /** Success and warnings of an edit result. */
  function OutcomeOn(c: Codec, e: Option<Event>, id: string): Option<(bool, seq<string>)> {
    match e
    case Some(ToolResult(_, _, callId, rawName, text, _)) =>
      if callId == id && rawName == "edit" then Some((c.success(text), if c.success(text) then c.warnings(text) else [])) else None
    case _ => None
  }

  // per line, in the order of its calls

  function CallsAt(c: Codec, e: Option<Event>, id: string): nat -> Option<CallRow> { (j: nat) => CallOf(c, e, j, id) }

  function EditsAt(c: Codec, e: Option<Event>, i: nat, id: string): nat -> Option<(nat, int, nat)> { (j: nat) => EditOf(c, e, i, j, id) }

  function SectionsAt(c: Codec, e: Option<Event>, i: nat, id: string, s: nat): nat -> Option<SectionRow> {
    (j: nat) => SectionOf(c, e, i, j, id, s)
  }

  function CallOn(c: Codec, e: Option<Event>, id: string): Option<CallRow> { Last(CallsAt(c, e, id), |CallsIn(e)|) }

  function EditOn(c: Codec, e: Option<Event>, i: nat, id: string): Option<(nat, int, nat)> { Last(EditsAt(c, e, i, id), |CallsIn(e)|) }

  function SectionOn(c: Codec, e: Option<Event>, i: nat, id: string, s: nat): Option<SectionRow> {
    Last(SectionsAt(c, e, i, id, s), |CallsIn(e)|)
  }

  // per log, in the order of its lines

  function EditsIn(c: Codec, lines: seq<Bytes>, id: string): nat -> Option<(nat, int, nat)> {
    (i: nat) => EditOn(c, EventAt(c, lines, i), i, id)
  }

  function SectionsIn(c: Codec, lines: seq<Bytes>, id: string, s: nat): nat -> Option<SectionRow> {
    (i: nat) => SectionOn(c, EventAt(c, lines, i), i, id, s)
  }

  function OutcomesIn(c: Codec, lines: seq<Bytes>, id: string): nat -> Option<(bool, seq<string>)> {
    (i: nat) => OutcomeOn(c, EventAt(c, lines, i), id)
  }

  function LastEdit(c: Codec, lines: seq<Bytes>, id: string): Option<(nat, int, nat)> { Last(EditsIn(c, lines, id), |lines|) }

  function LastSection(c: Codec, lines: seq<Bytes>, id: string, s: nat): Option<SectionRow> { Last(SectionsIn(c, lines, id, s), |lines|) }

  function LastOutcome(c: Codec, lines: seq<Bytes>, id: string): Option<(bool, seq<string>)> { Last(OutcomesIn(c, lines, id), |lines|) }

  // ---------------------------------------------------------------- rows collected in turn

  lemma {:induction false} LastRowConcat<K, V>(a: seq<(K, V)>, b: seq<(K, V)>, k: K)
    ensures LastRow(a + b, k) == Coalesce(LastRow(b, k), LastRow(a, k))
  {
    if b == [] {
      assert a + b == a;
    } else {
      assert (a + b)[..|a + b| - 1] == a + b[..|b| - 1];
      LastRowConcat(a, b[..|b| - 1], k);
    }
  }

  lemma LastRowSnoc<K, V>(all: seq<(K, V)>, a: seq<(K, V)>, b: seq<(K, V)>, k: K, f: nat -> Option<V>, n: nat)
    requires all == a + b && LastRow(a, k) == Last(f, n) && LastRow(b, k) == f(n)
    ensures LastRow(all, k) == Last(f, n + 1)
  {
    hide LastRow;
    LastRowConcat(a, b, k);
  }

  lemma LastRowOne<K, V>(row: (K, V), k: K)
    ensures LastRow([row], k) == if row.0 == k then Some(row.1) else None
  {
    assert [row][..0] == [];
  }

  lemma {:induction false} LastStubConcat(a: seq<Stub>, b: seq<Stub>, k: string)
    ensures LastStub(a + b, k) == Coalesce(LastStub(b, k), LastStub(a, k))
  {
    if b == [] {
      assert a + b == a;
    } else {
      assert (a + b)[..|a + b| - 1] == a + b[..|b| - 1];
      LastStubConcat(a, b[..|b| - 1], k);
    }
  }

  lemma {:induction false} LastVerdictConcat(a: seq<Verdict>, b: seq<Verdict>, k: string)
    ensures LastVerdict(a + b, k) == Coalesce(LastVerdict(b, k), LastVerdict(a, k))
  {
    if b == [] {
      assert a + b == a;
    } else {
      assert (a + b)[..|a + b| - 1] == a + b[..|b| - 1];
      LastVerdictConcat(a, b[..|b| - 1], k);
    }
  }

  /** The rows of the first `n + 1` lines are those of the first `n` and those of the next. */
  lemma ParseSnoc(c: Codec, lines: seq<Bytes>, n: nat)
    requires n < |lines|
    ensures var all, init, last := ParseLines(c, lines[..n + 1], 0), ParseLines(c, lines[..n], 0), LineBatch(c, lines[n], n);
            && all.calls == init.calls + last.calls && all.results == init.results + last.results
            && all.assistants == init.assistants + last.assistants && all.users == init.users + last.users
            && all.stubs == init.stubs + last.stubs && all.verdicts == init.verdicts + last.verdicts
            && all.sections == init.sections + last.sections
  {
    hide ParseLines, LineBatch;
    var one := [lines[n]];
    assert lines[..n + 1] == lines[..n] + one;
    ParseConcat(c, lines[..n], one, 0);
    ParseOne(c, lines[n], n);
  }

  lemma ParseOne(c: Codec, raw: Bytes, line: nat)
    ensures ParseLines(c, [raw], line) == LineBatch(c, raw, line)
  {
    hide LineBatch;
    assert [raw][1..] == [];
    AppendAssociative(LineBatch(c, raw, line), EMPTY_BATCH, EMPTY_BATCH);
  }

  // ---------------------------------------------------------------- one call

  lemma CallBatchRows(c: Codec, e: Event, i: nat, j: nat, id: string, at: nat)
    requires e.Assistant? && j < |e.calls|
    ensures LastRow(CallBatch(c, e, i, e.calls[j]).calls, (id, at)) == if at == i then CallOf(c, Some(e), j, id) else None
  {
    var call := e.calls[j];
    var row := CallRow(e.entryId, NameOf(call.rawName), call.rawName, e.ts, e.model, call.argJson, Weight(c, call.argJson));
    LastRowOne(((call.callId, i), row), (id, at));
  }

  function EditStub(id: string, x: Option<(nat, int, nat)>): Option<Stub> {
    match x
    case None => None
    case Some((line, ts, rawLength)) => Some(Stub(id, line, ts, rawLength))
  }

  lemma CallBatchStubs(c: Codec, e: Event, i: nat, j: nat, id: string)
    requires e.Assistant? && j < |e.calls|
    ensures LastStub(CallBatch(c, e, i, e.calls[j]).stubs, id) == EditStub(id, EditOf(c, Some(e), i, j, id))
  {
    var b := CallBatch(c, e, i, e.calls[j]);
    if b.stubs != [] { assert b.stubs[..0] == []; }
  }

  lemma {:induction false} SectionRowsAt(rows: seq<(LineKey, SectionRow)>, n: nat, callId: string, line: nat, sections: seq<string>, id: string, s: nat)
    requires rows == SectionRows(callId, line, sections) && n <= |rows|
    ensures LastRow(rows[..n], (id, s)) == if id == callId && s < n then Some(SectionRow(line, sections[s], EDIT_PARSER_VERSION)) else None
    decreases n
  {
    if n > 0 {
      assert rows[..n][..n - 1] == rows[..n - 1];
      SectionRowsAt(rows, n - 1, callId, line, sections, id, s);
    }
  }

  lemma CallBatchSections(c: Codec, e: Event, i: nat, j: nat, id: string, s: nat)
    requires e.Assistant? && j < |e.calls|
    ensures LastRow(CallBatch(c, e, i, e.calls[j]).sections, (id, s)) == SectionOf(c, Some(e), i, j, id, s)
  {
    var call := e.calls[j];
    if call.rawName == "edit" {
      var sections := c.edit(call.argJson).sections;
      var rows := SectionRows(call.callId, i, sections);
      hide SectionRows;
      assert rows[..|rows|] == rows;
      SectionRowsAt(rows, |rows|, call.callId, i, sections, id, s);
    }
  }

  // ---------------------------------------------------------------- the calls of one line

  lemma CallsSnoc(c: Codec, e: Event, i: nat, k: nat)
    requires e.Assistant? && k < |e.calls|
    ensures var all, init, last := CallBatches(c, e, i, e.calls[..k + 1]), CallBatches(c, e, i, e.calls[..k]), CallBatch(c, e, i, e.calls[k]);
            all.calls == init.calls + last.calls && all.stubs == init.stubs + last.stubs && all.sections == init.sections + last.sections
  {
    hide CallBatch;
    assert e.calls[..k + 1][..k] == e.calls[..k];
  }

  lemma {:induction false} CallsRows(c: Codec, e: Event, i: nat, k: nat, id: string, at: nat)
    requires e.Assistant? && k <= |e.calls|
    ensures LastRow(CallBatches(c, e, i, e.calls[..k]).calls, (id, at)) == if at == i then Last(CallsAt(c, Some(e), id), k) else None
  {
    hide *;
    if k == 0 {
      NoCalls(c, e, i);
    } else {
      CallsSnoc(c, e, i, k - 1);
      CallBatchRows(c, e, i, k - 1, id, at);
      CallsRows(c, e, i, k - 1, id, at);
      var init, last := CallBatches(c, e, i, e.calls[..k - 1]).calls, CallBatch(c, e, i, e.calls[k - 1]).calls;
      CallsAtIs(c, Some(e), k - 1, id);
      if at == i {
        LastRowSnoc(init + last, init, last, (id, at), CallsAt(c, Some(e), id), k - 1);
      } else {
        LastRowNone(init, last, (id, at));
      }
    }
  }

  lemma NoCalls(c: Codec, e: Event, i: nat)
    requires e.Assistant?
    ensures var b := CallBatches(c, e, i, e.calls[..0]);
            && (forall k :: LastRow(b.calls, k) == None) && (forall id :: LastStub(b.stubs, id) == None)
            && forall k :: LastRow(b.sections, k) == None
    ensures forall f: nat -> Option<CallRow> :: Last(f, 0) == None
    ensures forall f: nat -> Option<(nat, int, nat)> :: Last(f, 0) == None
    ensures forall f: nat -> Option<SectionRow> :: Last(f, 0) == None
    ensures forall id :: EditStub(id, None) == None
  {
  }

  lemma CallsAtIs(c: Codec, e: Option<Event>, j: nat, id: string)
    ensures CallsAt(c, e, id)(j) == CallOf(c, e, j, id)
  {
  }

  lemma LastRowNone<K, V>(a: seq<(K, V)>, b: seq<(K, V)>, k: K)
    requires LastRow(a, k).None? && LastRow(b, k).None?
    ensures LastRow(a + b, k).None?
  {
    hide LastRow;
    LastRowConcat(a, b, k);
  }

  lemma {:induction false} CallsStubs(c: Codec, e: Event, i: nat, k: nat, id: string)
    requires e.Assistant? && k <= |e.calls|
    ensures LastStub(CallBatches(c, e, i, e.calls[..k]).stubs, id) == EditStub(id, Last(EditsAt(c, Some(e), i, id), k))
  {
    hide *;
    if k == 0 {
      NoCalls(c, e, i);
    } else {
      CallsSnoc(c, e, i, k - 1);
      CallBatchStubs(c, e, i, k - 1, id);
      CallsStubs(c, e, i, k - 1, id);
      var init, last := CallBatches(c, e, i, e.calls[..k - 1]).stubs, CallBatch(c, e, i, e.calls[k - 1]).stubs;
      EditsAtIs(c, Some(e), i, k - 1, id);
      LastStubSnoc(init, last, id, EditsAt(c, Some(e), i, id), k - 1);
    }
  }

  lemma EditsAtIs(c: Codec, e: Option<Event>, i: nat, j: nat, id: string)
    ensures EditsAt(c, e, i, id)(j) == EditOf(c, e, i, j, id)
  {
  }

  lemma LastStubSnoc(a: seq<Stub>, b: seq<Stub>, id: string, f: nat -> Option<(nat, int, nat)>, n: nat)
    requires LastStub(a, id) == EditStub(id, Last(f, n)) && LastStub(b, id) == EditStub(id, f(n))
    ensures LastStub(a + b, id) == EditStub(id, Last(f, n + 1))
  {
    hide LastStub;
    LastStubConcat(a, b, id);
  }

  lemma {:induction false} CallsSections(c: Codec, e: Event, i: nat, k: nat, id: string, s: nat)
    requires e.Assistant? && k <= |e.calls|
    ensures LastRow(CallBatches(c, e, i, e.calls[..k]).sections, (id, s)) == Last(SectionsAt(c, Some(e), i, id, s), k)
  {
    hide *;
    if k == 0 {
      NoCalls(c, e, i);
    } else {
      CallsSnoc(c, e, i, k - 1);
      CallBatchSections(c, e, i, k - 1, id, s);
      CallsSections(c, e, i, k - 1, id, s);
      var init, last := CallBatches(c, e, i, e.calls[..k - 1]).sections, CallBatch(c, e, i, e.calls[k - 1]).sections;
      SectionsAtIs(c, Some(e), i, k - 1, id, s);
      LastRowSnoc(init + last, init, last, (id, s), SectionsAt(c, Some(e), i, id, s), k - 1);
    }
  }

  lemma SectionsAtIs(c: Codec, e: Option<Event>, i: nat, j: nat, id: string, s: nat)
    ensures SectionsAt(c, e, i, id, s)(j) == SectionOf(c, e, i, j, id, s)
  {
  }

  // ---------------------------------------------------------------- one line

  lemma {:induction false} CallsOnlyCalls(c: Codec, e: Event, i: nat, calls: seq<ToolCall>)
    requires e.Assistant?
    ensures var b := CallBatches(c, e, i, calls); b.results == [] && b.assistants == [] && b.users == [] && b.verdicts == []
  {
    if calls != [] { CallsOnlyCalls(c, e, i, calls[..|calls| - 1]); }
  }

  function Verdicts(id: string, x: Option<(bool, seq<string>)>): Option<Verdict> {
    match x
    case None => None
    case Some((success, warnings)) => Some(Verdict(id, success, warnings))
  }

  lemma SameTexts(c: Codec)
    ensures (forall text :: TokensOf(c, text) == Weight(c, text)) && forall raw :: ToolName(raw) == NameOf(raw)
  {
  }

  lemma LastRowOnly<K, V>(rows: seq<(K, V)>, x: Option<(K, V)>, k: K)
    requires rows == if x.Some? then [x.value] else []
    ensures LastRow(rows, k) == if x.Some? && x.value.0 == k then Some(x.value.1) else None
  {
    if x.Some? { assert rows[..0] == []; }
  }

  /** The rows one line adds to the tables with at most one row a line. */
  lemma LineBatchIs(c: Codec, raw: Bytes, i: nat)
    ensures var b, e := LineBatch(c, raw, i), c.decode(raw);
            && b.results == (if e.Some? && e.value.ToolResult? then [((e.value.callId, i), ResultOn(c, e, e.value.callId).value)] else [])
            && b.assistants == (if AssistantOn(c, e).Some? then [(i, AssistantOn(c, e).value)] else [])
            && b.users == (if UserOn(c, e).Some? then [(i, UserOn(c, e).value)] else [])
  {
    SameTexts(c);
    hide CallBatches, TokensOf, Weight, ToolName, NameOf;
    var e := c.decode(raw);
    if e.Some? && e.value.Assistant? { CallsOnlyCalls(c, e.value, i, e.value.calls); }
  }

  lemma LineVerdicts(c: Codec, raw: Bytes, i: nat, id: string)
    ensures LastVerdict(LineBatch(c, raw, i).verdicts, id) == Verdicts(id, OutcomeOn(c, c.decode(raw), id))
  {
    hide CallBatches, TokensOf;
    var b, e := LineBatch(c, raw, i), c.decode(raw);
    if e.Some? && e.value.Assistant? { CallsOnlyCalls(c, e.value, i, e.value.calls); }
    if b.verdicts != [] { assert b.verdicts[..0] == []; }
  }

  /** The tables with at most one row a line. */
  lemma LineRows(c: Codec, raw: Bytes, i: nat, id: string, at: nat)
    ensures var b, e := LineBatch(c, raw, i), c.decode(raw);
            && LastRow(b.results, (id, at)) == (if at == i then ResultOn(c, e, id) else None)
            && LastRow(b.assistants, at) == (if at == i then AssistantOn(c, e) else None)
            && LastRow(b.users, at) == (if at == i then UserOn(c, e) else None)
            && LastVerdict(b.verdicts, id) == Verdicts(id, OutcomeOn(c, e, id))
  {
    LineBatchIs(c, raw, i);
    LineVerdicts(c, raw, i, id);
    hide LineBatch, LastRow, AssistantOn, UserOn, LastVerdict, OutcomeOn, Weight, NameOf;
    var b, e := LineBatch(c, raw, i), c.decode(raw);
    LastRowOnly(b.results, if e.Some? && e.value.ToolResult? then Some(((e.value.callId, i), ResultOn(c, e, e.value.callId).value)) else None, (id, at));
    LastRowOnly(b.assistants, if AssistantOn(c, e).Some? then Some((i, AssistantOn(c, e).value)) else None, at);
    LastRowOnly(b.users, if UserOn(c, e).Some? then Some((i, UserOn(c, e).value)) else None, at);
  }

  /** The tables with a row for each call. */
  lemma LineCalls(c: Codec, raw: Bytes, i: nat, id: string, at: nat, s: nat)
    ensures var b, e := LineBatch(c, raw, i), c.decode(raw);
            && LastRow(b.calls, (id, at)) == (if at == i then CallOn(c, e, id) else None)
            && LastStub(b.stubs, id) == EditStub(id, EditOn(c, e, i, id))
            && LastRow(b.sections, (id, s)) == SectionOn(c, e, i, id, s)
  {
    hide CallBatches, CallsAt, EditsAt, SectionsAt;
    var e := c.decode(raw);
    if e.Some? && e.value.Assistant? {
      var calls := e.value.calls;
      assert calls[..|calls|] == calls;
      CallsRows(c, e.value, i, |calls|, id, at);
      CallsStubs(c, e.value, i, |calls|, id);
      CallsSections(c, e.value, i, |calls|, id, s);
    }
  }

  // ---------------------------------------------------------------- the whole log

  /** Rows keyed by line. */
  ghost predicate LineTables(c: Codec, lines: seq<Bytes>, n: nat, id: string, at: nat)
    requires n <= |lines|
  {
    var b, e := ParseLines(c, lines[..n], 0), EventAt(c, lines, at);
    && LastRow(b.results, (id, at)) == (if at < n then ResultOn(c, e, id) else None)
    && LastRow(b.assistants, at) == (if at < n then AssistantOn(c, e) else None)
    && LastRow(b.users, at) == (if at < n then UserOn(c, e) else None)
    && LastRow(b.calls, (id, at)) == (if at < n then CallOn(c, e, id) else None)
  }

  /** Rows keyed by call. */
  ghost predicate CallTables(c: Codec, lines: seq<Bytes>, n: nat, id: string, s: nat)
    requires n <= |lines|
  {
    var b := ParseLines(c, lines[..n], 0);
    && LastStub(b.stubs, id) == EditStub(id, Last(EditsIn(c, lines, id), n))
    && LastVerdict(b.verdicts, id) == Verdicts(id, Last(OutcomesIn(c, lines, id), n))
    && LastRow(b.sections, (id, s)) == Last(SectionsIn(c, lines, id, s), n)
  }

  lemma {:induction false} LineTablesHold(c: Codec, lines: seq<Bytes>, n: nat, id: string, at: nat)
    requires n <= |lines|
    ensures LineTables(c, lines, n, id, at)
  {
    hide ParseLines, LineBatch, LastRow, ResultOn, AssistantOn, UserOn, CallOn, LastVerdict;
    if n == 0 {
      NoLines(c, lines);
    } else {
      LineTablesHold(c, lines, n - 1, id, at);
      ParseSnoc(c, lines, n - 1);
      LineRows(c, lines[n - 1], n - 1, id, at);
      LineCalls(c, lines[n - 1], n - 1, id, at, 0);
      var init, last := ParseLines(c, lines[..n - 1], 0), LineBatch(c, lines[n - 1], n - 1);
      LastRowConcat(init.results, last.results, (id, at));
      LastRowConcat(init.assistants, last.assistants, at);
      LastRowConcat(init.users, last.users, at);
      LastRowConcat(init.calls, last.calls, (id, at));
    }
  }

  lemma LogAtIs(c: Codec, lines: seq<Bytes>, i: nat, id: string, s: nat)
    requires i < |lines|
    ensures var e := c.decode(lines[i]);
            && EditsIn(c, lines, id)(i) == EditOn(c, e, i, id) && OutcomesIn(c, lines, id)(i) == OutcomeOn(c, e, id)
            && SectionsIn(c, lines, id, s)(i) == SectionOn(c, e, i, id, s)
  {
    hide EditOn, SectionOn, OutcomeOn;
  }

  lemma LastVerdictSnoc(a: seq<Verdict>, b: seq<Verdict>, id: string, f: nat -> Option<(bool, seq<string>)>, n: nat)
    requires LastVerdict(a, id) == Verdicts(id, Last(f, n)) && LastVerdict(b, id) == Verdicts(id, f(n))
    ensures LastVerdict(a + b, id) == Verdicts(id, Last(f, n + 1))
  {
    hide LastVerdict;
    LastVerdictConcat(a, b, id);
  }

  lemma {:induction false} CallTablesHold(c: Codec, lines: seq<Bytes>, n: nat, id: string, s: nat)
    requires n <= |lines|
    ensures CallTables(c, lines, n, id, s)
  {
    hide ParseLines, LineBatch, LastRow, LastStub, LastVerdict, EditsIn, OutcomesIn, SectionsIn, EditOn, SectionOn, OutcomeOn, EditStub, Verdicts, Last;
    if n == 0 {
      NoLines(c, lines);
      NoneLast(id);
    } else {
      CallTablesHold(c, lines, n - 1, id, s);
      ParseSnoc(c, lines, n - 1);
      LineRows(c, lines[n - 1], n - 1, id, 0);
      LineCalls(c, lines[n - 1], n - 1, id, 0, s);
      LogAtIs(c, lines, n - 1, id, s);
      var init, last := ParseLines(c, lines[..n - 1], 0), LineBatch(c, lines[n - 1], n - 1);
      LastStubSnoc(init.stubs, last.stubs, id, EditsIn(c, lines, id), n - 1);
      LastVerdictSnoc(init.verdicts, last.verdicts, id, OutcomesIn(c, lines, id), n - 1);
      LastRowSnoc(init.sections + last.sections, init.sections, last.sections, (id, s), SectionsIn(c, lines, id, s), n - 1);
    }
  }

  lemma NoneLast(id: string)
    ensures forall f: nat -> Option<(nat, int, nat)> :: Last(f, 0) == None
    ensures forall f: nat -> Option<(bool, seq<string>)> :: Last(f, 0) == None
    ensures forall f: nat -> Option<SectionRow> :: Last(f, 0) == None
    ensures EditStub(id, None) == None && Verdicts(id, None) == None
  {
  }

  lemma NoLines(c: Codec, lines: seq<Bytes>)
    ensures ParseLines(c, lines[..0], 0) == EMPTY_BATCH
    ensures (forall k :: LastRow(EMPTY_BATCH.results, k) == None) && (forall k :: LastRow(EMPTY_BATCH.assistants, k) == None)
    ensures (forall k :: LastRow(EMPTY_BATCH.users, k) == None) && (forall k :: LastRow(EMPTY_BATCH.calls, k) == None)
    ensures forall k :: LastRow(EMPTY_BATCH.sections, k) == None
    ensures (forall k :: LastStub([], k) == None) && (forall k :: LastVerdict([], k) == None)
  {
  }

  // ---------------------------------------------------------------- the rows of a rebuilt log

  /** Each result, assistant and user row is that of its own line, and each call row that of the line's last call of its id. */
  lemma LineRowsExactly(c: Codec, content: Bytes, id: string, at: nat)
    ensures var t, e := Rebuild(c, content), EventAt(c, Lines(content), at);
            && Lookup(t.results, (id, at)) == ResultOn(c, e, id)
            && Lookup(t.assistants, at) == AssistantOn(c, e)
            && Lookup(t.users, at) == UserOn(c, e)
            && Lookup(t.calls, (id, at)) == CallOn(c, e, id)
  {
    hide ParseLines, LastRow, ResultOn, AssistantOn, UserOn, CallOn, PutAll, PutStubs, PutVerdicts, Lines;
    var lines := Lines(content);
    var b := ParseLines(c, lines, 0);
    assert lines[..|lines|] == lines;
    LineTablesHold(c, lines, |lines|, id, at);
    LastRowWins(NO_TABLES.results, b.results, (id, at));
    LastRowWins(NO_TABLES.assistants, b.assistants, at);
    LastRowWins(NO_TABLES.users, b.users, at);
    LastRowWins(NO_TABLES.calls, b.calls, (id, at));
    NoRowsBeyond(c, id);
  }

  lemma NoRowsBeyond(c: Codec, id: string)
    ensures ResultOn(c, None, id) == None && AssistantOn(c, None) == None && UserOn(c, None) == None && CallOn(c, None, id) == None
  {
  }

  /**
   The edit row of an id: there is one exactly when the log holds an edit call or an edit result of that id; line,
   time and length are those of the last edit call, success and warnings those of the last edit result.
   */
  lemma EditRowExactly(c: Codec, content: Bytes, id: string)
    ensures var row, lines := Lookup(Rebuild(c, content).edits, id), Lines(content);
            var call, outcome := LastEdit(c, lines, id), LastOutcome(c, lines, id);
            && (row.Some? <==> call.Some? || outcome.Some?)
            && (row.Some? ==>
                  && (row.value.line, row.value.ts, row.value.rawLength) == (if call.Some? then call.value else (0, 0, 0))
                  && row.value.success == (if outcome.Some? then Some(outcome.value.0) else None)
                  && row.value.warnings == (if outcome.Some? then outcome.value.1 else [])
                  && row.value.parser == EDIT_PARSER_VERSION)
  {
    hide ParseLines, Write, LastStub, LastVerdict, Lines, EditsIn, OutcomesIn, SectionsIn, Last;
    var lines := Lines(content);
    assert lines[..|lines|] == lines;
    CallTablesHold(c, lines, |lines|, id, 0);
    EditRowIsPaired(ParseLines(c, lines, 0), id);
  }

  /** A section row is that of the last edit call of its id that has a section with its number. */
  lemma SectionRowsExactly(c: Codec, content: Bytes, id: string, s: nat)
    ensures Lookup(Rebuild(c, content).sections, (id, s)) == LastSection(c, Lines(content), id, s)
  {
    hide ParseLines, LastRow, PutAll, PutStubs, PutVerdicts, Lines, EditsIn, OutcomesIn, SectionsIn, Last;
    var lines := Lines(content);
    assert lines[..|lines|] == lines;
    CallTablesHold(c, lines, |lines|, id, s);
    LastRowWins(NO_TABLES.sections, ParseLines(c, lines, 0).sections, (id, s));
  }
}
