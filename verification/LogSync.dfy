/**
 Incremental ingestion of one session log: rows are parsed from a byte offset and a line count, and
 upserted into tables. The JSON decoder, the tokenizer and the edit parsers are parameters.
 */
module LogSync {
  import opened Outcomes
  import opened Utf8
  import opened LogLines

  // ---------------------------------------------------------------- events and rows

  datatype Meta = Meta(
    uuid: Option<string>, version: Option<int>, title: Option<string>, cwd: Option<string>, startedAt: Option<int>)

  const NO_META := Meta(None, None, None, None, None)

  datatype ToolCall = ToolCall(callId: string, rawName: string, argJson: string)

  /** A decoded log line; anything the ingester ignores is `Other`. */
  datatype Event =
    | Session(meta: Meta)
    | Assistant(entryId: string, ts: int, model: string, calls: seq<ToolCall>, text: string, thinking: string)
    | ToolResult(entryId: string, ts: int, callId: string, rawName: string, text: string, isError: bool)
    | User(entryId: string, ts: int, text: string)
    | Other

  datatype EditInput = EditInput(rawLength: nat, sections: seq<string>)

  /**
   Everything the ingester calls out to: `decode` gives None for blank and malformed lines; `raises` marks
   lines that decode to something other than an object, on which the parser throws.
   */
  datatype Codec = Codec(
    decode: Bytes -> Option<Event>, raises: Bytes -> bool, tokens: string -> nat, edit: string -> EditInput,
    success: string -> bool, warnings: string -> seq<string>)

  datatype CallRow = CallRow(entryId: string, toolName: string, rawName: string, ts: int, model: string, argJson: string, tokens: nat)
  datatype ResultRow = ResultRow(entryId: string, toolName: string, rawName: string, ts: int, text: string, tokens: nat, isError: bool)
  datatype AssistantRow = AssistantRow(entryId: string, ts: int, model: string, text: string, thinking: string, textTokens: nat, thinkingTokens: nat)
  datatype UserRow = UserRow(entryId: string, ts: int, text: string, tokens: nat)
  datatype EditRow = EditRow(line: nat, ts: int, rawLength: nat, success: Option<bool>, warnings: seq<string>, parser: nat)
  datatype SectionRow = SectionRow(line: nat, section: string, parser: nat)

  /** A call seen without its result, and a result seen for a call. */
  datatype Stub = Stub(callId: string, line: nat, ts: int, rawLength: nat)
  datatype Verdict = Verdict(callId: string, success: bool, warnings: seq<string>)

  const EDIT_PARSER_VERSION: nat := 4

  type LineKey = (string, nat)

  /** The rows collected from one stretch of lines, in order. */
  datatype Batch = Batch(
    calls: seq<(LineKey, CallRow)>, results: seq<(LineKey, ResultRow)>,
    assistants: seq<(nat, AssistantRow)>, users: seq<(nat, UserRow)>,
    stubs: seq<Stub>, verdicts: seq<Verdict>, sections: seq<(LineKey, SectionRow)>, meta: Option<Meta>)

  const EMPTY_BATCH := Batch([], [], [], [], [], [], [], None)

  function Append(a: Batch, b: Batch): Batch {
    Batch(a.calls + b.calls, a.results + b.results, a.assistants + b.assistants, a.users + b.users,
          a.stubs + b.stubs, a.verdicts + b.verdicts, a.sections + b.sections,
          if b.meta.Some? then b.meta else a.meta)
  }

  function ToolName(raw: string): string { if raw == "" then "<unknown>" else raw }

  function TokensOf(c: Codec, text: string): nat { if text == "" then 0 else c.tokens(text) }

  function SectionRows(callId: string, line: nat, sections: seq<string>): (rows: seq<(LineKey, SectionRow)>)
    ensures |rows| == |sections|
  {
    seq(|sections|, i requires 0 <= i < |sections| => ((callId, i), SectionRow(line, sections[i], EDIT_PARSER_VERSION)))
  }

  function CallBatch(c: Codec, e: Event, line: nat, call: ToolCall): Batch
    requires e.Assistant?
  {
    var name := ToolName(call.rawName);
    var row := CallRow(e.entryId, name, call.rawName, e.ts, e.model, call.argJson, TokensOf(c, call.argJson));
    var b := EMPTY_BATCH.(calls := [((call.callId, line), row)]);
    if name != "edit" then b
    else
      var input := c.edit(call.argJson);
      b.(stubs := [Stub(call.callId, line, e.ts, input.rawLength)],
         sections := SectionRows(call.callId, line, input.sections))
  }

  function CallBatches(c: Codec, e: Event, line: nat, calls: seq<ToolCall>): Batch
    requires e.Assistant?
  {
    if calls == [] then EMPTY_BATCH
    else Append(CallBatches(c, e, line, calls[..|calls| - 1]), CallBatch(c, e, line, calls[|calls| - 1]))
  }

  /** Rows of one decoded line. */
  function EventBatch(c: Codec, e: Event, line: nat): Batch {
    match e
    case Session(meta) => if line == 0 then EMPTY_BATCH.(meta := Some(meta)) else EMPTY_BATCH
    case Assistant(entryId, ts, model, calls, text, thinking) =>
      var b := CallBatches(c, e, line, calls);
      if text == "" && thinking == "" then b
      else b.(assistants := b.assistants + [(line, AssistantRow(entryId, ts, model, text, thinking, TokensOf(c, text), TokensOf(c, thinking)))])
    case ToolResult(entryId, ts, callId, rawName, text, isError) =>
      var name := ToolName(rawName);
      var b := EMPTY_BATCH.(results := [((callId, line), ResultRow(entryId, name, rawName, ts, text, TokensOf(c, text), isError))]);
      if name != "edit" then b
      else b.(verdicts := [Verdict(callId, c.success(text), if c.success(text) then c.warnings(text) else [])])
    case User(entryId, ts, text) =>
      if text == "" then EMPTY_BATCH else EMPTY_BATCH.(users := [(line, UserRow(entryId, ts, text, TokensOf(c, text)))])
    case Other => EMPTY_BATCH
  }

  function LineBatch(c: Codec, raw: Bytes, line: nat): Batch {
    match c.decode(raw)
    case None => EMPTY_BATCH
    case Some(e) => EventBatch(c, e, line)
  }

  function ParseLines(c: Codec, lines: seq<Bytes>, line: nat): Batch {
    if lines == [] then EMPTY_BATCH
    else Append(LineBatch(c, lines[0], line), ParseLines(c, lines[1..], line + 1))
  }

  // ---------------------------------------------------------------- tables

  datatype Tables = Tables(
    calls: map<LineKey, CallRow>, results: map<LineKey, ResultRow>,
    assistants: map<nat, AssistantRow>, users: map<nat, UserRow>,
    edits: map<string, EditRow>, sections: map<LineKey, SectionRow>)

  const NO_TABLES := Tables(map[], map[], map[], map[], map[], map[])

  /** INSERT OR REPLACE of every row in order. */
  function PutAll<K, V>(m: map<K, V>, rows: seq<(K, V)>): map<K, V>
    decreases |rows|
  {
    if rows == [] then m else PutAll(m[rows[0].0 := rows[0].1], rows[1..])
  }

  /** The stub upsert keeps success and warnings of a row that already has them. */
  function PutStub(m: map<string, EditRow>, s: Stub): map<string, EditRow> {
    if s.callId in m then
      m[s.callId := m[s.callId].(line := s.line, ts := s.ts, rawLength := s.rawLength, parser := EDIT_PARSER_VERSION)]
    else m[s.callId := EditRow(s.line, s.ts, s.rawLength, None, [], EDIT_PARSER_VERSION)]
  }

  /** The result upsert keeps position and length of a row that already has them. */
  function PutVerdict(m: map<string, EditRow>, v: Verdict): map<string, EditRow> {
    if v.callId in m then
      m[v.callId := m[v.callId].(success := Some(v.success), warnings := v.warnings, parser := EDIT_PARSER_VERSION)]
    else m[v.callId := EditRow(0, 0, 0, Some(v.success), v.warnings, EDIT_PARSER_VERSION)]
  }

  function PutStubs(m: map<string, EditRow>, stubs: seq<Stub>): map<string, EditRow>
    decreases |stubs|
  {
    if stubs == [] then m else PutStubs(PutStub(m, stubs[0]), stubs[1..])
  }

  function PutVerdicts(m: map<string, EditRow>, verdicts: seq<Verdict>): map<string, EditRow>
    decreases |verdicts|
  {
    if verdicts == [] then m else PutVerdicts(PutVerdict(m, verdicts[0]), verdicts[1..])
  }

  /** All stubs of a batch go in before all its results. */
  function Write(t: Tables, b: Batch): Tables {
    Tables(PutAll(t.calls, b.calls), PutAll(t.results, b.results),
           PutAll(t.assistants, b.assistants), PutAll(t.users, b.users),
           PutVerdicts(PutStubs(t.edits, b.stubs), b.verdicts), PutAll(t.sections, b.sections))
  }

  /** One full rebuild of `content`. */
  function Rebuild(c: Codec, content: Bytes): Tables { Write(NO_TABLES, ParseLines(c, Lines(content), 0)) }

  // ---------------------------------------------------------------- batches compose

  lemma AppendAssociative(a: Batch, b: Batch, d: Batch)
    ensures Append(Append(a, b), d) == Append(a, Append(b, d))
    ensures Append(EMPTY_BATCH, a) == a && Append(a, EMPTY_BATCH) == a
  {
  }

  lemma {:induction false} ParseConcat(c: Codec, a: seq<Bytes>, b: seq<Bytes>, line: nat)
    ensures ParseLines(c, a + b, line) == Append(ParseLines(c, a, line), ParseLines(c, b, line + |a|))
    decreases |a|
  {
    hide LineBatch, Append;
    if a == [] {
      assert a + b == b;
      AppendAssociative(ParseLines(c, b, line), EMPTY_BATCH, EMPTY_BATCH);
    } else {
      assert (a + b)[1..] == a[1..] + b;
      ParseConcat(c, a[1..], b, line + 1);
      AppendAssociative(LineBatch(c, a[0], line), ParseLines(c, a[1..], line + 1), ParseLines(c, b, line + |a|));
    }
  }

  lemma {:induction false} PutConcat<K, V>(m: map<K, V>, a: seq<(K, V)>, b: seq<(K, V)>)
    ensures PutAll(m, a + b) == PutAll(PutAll(m, a), b)
    decreases |a|
  {
    if a == [] {
      assert a + b == b;
    } else {
      assert (a + b)[1..] == a[1..] + b;
      PutConcat(m[a[0].0 := a[0].1], a[1..], b);
    }
  }

  lemma {:induction false} StubsConcat(m: map<string, EditRow>, a: seq<Stub>, b: seq<Stub>)
    ensures PutStubs(m, a + b) == PutStubs(PutStubs(m, a), b)
    decreases |a|
  {
    if a == [] {
      assert a + b == b;
    } else {
      assert (a + b)[1..] == a[1..] + b;
      StubsConcat(PutStub(m, a[0]), a[1..], b);
    }
  }

  lemma {:induction false} VerdictsConcat(m: map<string, EditRow>, a: seq<Verdict>, b: seq<Verdict>)
    ensures PutVerdicts(m, a + b) == PutVerdicts(PutVerdicts(m, a), b)
    decreases |a|
  {
    if a == [] {
      assert a + b == b;
    } else {
      assert (a + b)[1..] == a[1..] + b;
      VerdictsConcat(PutVerdict(m, a[0]), a[1..], b);
    }
  }

  /** The two upserts of `ss_edit_calls` commute, on the same call and on different ones. */
  lemma UpsertsCommute(m: map<string, EditRow>, s: Stub, v: Verdict)
    ensures PutVerdict(PutStub(m, s), v) == PutStub(PutVerdict(m, v), s)
  {
    var a, b := PutVerdict(PutStub(m, s), v), PutStub(PutVerdict(m, v), s);
    assert a.Keys == b.Keys;
    forall k <- a ensures a[k] == b[k] {
    }
  }

  lemma {:induction false} StubPastVerdicts(m: map<string, EditRow>, s: Stub, verdicts: seq<Verdict>)
    ensures PutVerdicts(PutStub(m, s), verdicts) == PutStub(PutVerdicts(m, verdicts), s)
    decreases |verdicts|
  {
    if verdicts != [] {
      UpsertsCommute(m, s, verdicts[0]);
      StubPastVerdicts(PutVerdict(m, verdicts[0]), s, verdicts[1..]);
    }
  }

  lemma {:induction false} StubsPastVerdicts(m: map<string, EditRow>, stubs: seq<Stub>, verdicts: seq<Verdict>)
    ensures PutVerdicts(PutStubs(m, stubs), verdicts) == PutStubs(PutVerdicts(m, verdicts), stubs)
    decreases |stubs|
  {
    if stubs != [] {
      StubPastVerdicts(m, stubs[0], verdicts);
      StubsPastVerdicts(PutStub(m, stubs[0]), stubs[1..], verdicts);
    }
  }

  /** Writing two batches one after the other is writing their concatenation. */
  lemma WriteConcat(t: Tables, a: Batch, b: Batch)
    ensures Write(Write(t, a), b) == Write(t, Append(a, b))
  {
    PutConcat(t.calls, a.calls, b.calls);
    PutConcat(t.results, a.results, b.results);
    PutConcat(t.assistants, a.assistants, b.assistants);
    PutConcat(t.users, a.users, b.users);
    PutConcat(t.sections, a.sections, b.sections);
    var stubbed := PutStubs(t.edits, a.stubs);
    StubsConcat(t.edits, a.stubs, b.stubs);
    VerdictsConcat(PutStubs(stubbed, b.stubs), a.verdicts, b.verdicts);
    StubsPastVerdicts(stubbed, b.stubs, a.verdicts);
  }

  /** Resuming at a line boundary and writing the rest is one rebuild of the whole. */
  lemma ResumeIsRebuild(c: Codec, a: Bytes, b: Bytes)
    requires AtBoundary(a)
    ensures Write(Rebuild(c, a), ParseLines(c, Lines(b), |Lines(a)|)) == Rebuild(c, a + b)
  {
    hide Write, ParseLines, Lines, Append;
    LinesConcat(a, b);
    ParseConcat(c, Lines(a), Lines(b), 0);
    WriteConcat(NO_TABLES, ParseLines(c, Lines(a), 0), ParseLines(c, Lines(b), |Lines(a)|));
  }

  // ---------------------------------------------------------------- the cursor

  datatype SessionRow = SessionRow(meta: Meta, mtime: int, size: nat, offset: nat, lines: nat, parser: nat)

  function Coalesce<T>(new_: Option<T>, old_: Option<T>): Option<T> { if new_.Some? then new_ else old_ }

  function CoalesceMeta(n: Meta, o: Meta): Meta {
    Meta(Coalesce(n.uuid, o.uuid), Coalesce(n.version, o.version), Coalesce(n.title, o.title),
         Coalesce(n.cwd, o.cwd), Coalesce(n.startedAt, o.startedAt))
  }

  datatype Decision = Skip | Parse(rebuild: bool, offset: nat, line: nat)

  /** `decide_action` once the file's size and modification time are known. */
  function Decide(row: Option<SessionRow>, full: bool, size: nat, mtime: int): Decision {
    if full || row.None? then Parse(true, 0, 0)
    else
      var r := row.value;
      if r.parser < EDIT_PARSER_VERSION then Parse(true, 0, 0)
      else if size == r.size && mtime <= r.mtime then Skip
      else if size < r.offset then Parse(true, 0, 0)
      else if size == r.offset && mtime > r.mtime then Parse(true, 0, 0)
      else Parse(false, r.offset, r.lines)
  }

  /** Reading from `offset` to the end of the file; nothing when the file is shorter. */
  function Rest(content: Bytes, offset: nat): Bytes { if offset <= |content| then content[offset..] else [] }

  /** No line makes the parser throw. */
  predicate Readable(c: Codec, lines: seq<Bytes>) { forall raw <- lines :: !c.raises(raw) }

  /** `parse_file`: iterates over raw lines, advancing the byte offset and the line count; a throw loses the batch. */
  method ParseFile(c: Codec, content: Bytes, startOffset: nat, startLine: nat)
    returns (ok: bool, batch: Batch, offset: nat, line: nat)
    ensures ok <==> Readable(c, Lines(Rest(content, startOffset)))
    ensures ok ==> batch == ParseLines(c, Lines(Rest(content, startOffset)), startLine)
    ensures ok ==> offset == startOffset + |Rest(content, startOffset)|
    ensures ok ==> line == startLine + |Lines(Rest(content, startOffset))|
  {
    ok, batch, offset, line := true, EMPTY_BATCH, startOffset, startLine;
    hide *;
    ReadingStarts(c, content, startOffset, startLine);
    while offset < |content|
      invariant Reading(c, content, startOffset, startLine, batch, offset, line)
      decreases |content| - offset
    {
      var tail := content[offset..];
      var k := LineEnd(tail);
      var raw := tail[..k];
      ReadingStep(c, content, startOffset, startLine, batch, offset, line);
      if c.raises(raw) { return false, EMPTY_BATCH, offset, line; }
      batch := Append(batch, LineBatch(c, raw, line));
      offset := offset + k;
      line := line + 1;
    }
    ReadingEnds(c, content, startOffset, startLine, batch, offset, line);
  }

  /** Between two lines: the batch so far followed by what is left is the whole batch, and no line has thrown. */
  ghost predicate Reading(c: Codec, content: Bytes, startOffset: nat, startLine: nat, batch: Batch, offset: nat, line: nat) {
    var all, left := Lines(Rest(content, startOffset)), Lines(Rest(content, offset));
    && startOffset <= offset && (offset <= |content| || offset == startOffset)
    && ParseLines(c, all, startLine) == Append(batch, ParseLines(c, left, line))
    && line + |left| == startLine + |all|
    && (Readable(c, all) <==> Readable(c, left))
  }

  lemma ReadingStarts(c: Codec, content: Bytes, startOffset: nat, startLine: nat)
    ensures Reading(c, content, startOffset, startLine, EMPTY_BATCH, startOffset, startLine)
  {
    AppendAssociative(ParseLines(c, Lines(Rest(content, startOffset)), startLine), EMPTY_BATCH, EMPTY_BATCH);
    hide ParseLines, Lines, Append, Rest, Readable;
  }

  lemma ReadingStep(c: Codec, content: Bytes, startOffset: nat, startLine: nat, batch: Batch, offset: nat, line: nat)
    requires Reading(c, content, startOffset, startLine, batch, offset, line) && offset < |content|
    ensures var tail := content[offset..];
            var raw := tail[..LineEnd(tail)];
            && raw != []
            && (c.raises(raw) ==> !Readable(c, Lines(Rest(content, startOffset))))
            && (!c.raises(raw) ==> Reading(c, content, startOffset, startLine, Append(batch, LineBatch(c, raw, line)), offset + |raw|, line + 1))
  {
    hide ParseLines, LineBatch, Append, LineEnd, Lines, Readable, Rest;
    var tail := content[offset..];
    RestStep(content, offset, LineEnd(tail));
    ReadableStep(c, tail);
    ParseStep(c, batch, tail, line);
  }

  lemma RestStep(content: Bytes, offset: nat, k: nat)
    requires offset + k <= |content|
    ensures Rest(content, offset) == content[offset..] && content[offset..][k..] == Rest(content, offset + k)
  {
  }

  lemma ReadingEnds(c: Codec, content: Bytes, startOffset: nat, startLine: nat, batch: Batch, offset: nat, line: nat)
    requires Reading(c, content, startOffset, startLine, batch, offset, line) && offset >= |content|
    ensures Readable(c, Lines(Rest(content, startOffset)))
    ensures batch == ParseLines(c, Lines(Rest(content, startOffset)), startLine)
    ensures offset == startOffset + |Rest(content, startOffset)|
    ensures line == startLine + |Lines(Rest(content, startOffset))|
  {
    assert Rest(content, offset) == [];
    ParseEnd(c, batch, line);
    NothingRaises(c);
    hide ParseLines, Append, Lines, Readable;
  }

  lemma ReadableStep(c: Codec, tail: Bytes)
    requires tail != []
    ensures Readable(c, Lines(tail)) <==> !c.raises(tail[..LineEnd(tail)]) && Readable(c, Lines(tail[LineEnd(tail)..]))
  {
    LinesUnfold(tail);
    hide Lines, LineEnd;
  }

  lemma NothingRaises(c: Codec)
    ensures Readable(c, [])
  {
  }

  lemma ParseStep(c: Codec, batch: Batch, tail: Bytes, line: nat)
    requires tail != []
    ensures Append(batch, ParseLines(c, Lines(tail), line))
         == Append(Append(batch, LineBatch(c, tail[..LineEnd(tail)], line)), ParseLines(c, Lines(tail[LineEnd(tail)..]), line + 1))
    ensures |Lines(tail)| == 1 + |Lines(tail[LineEnd(tail)..])|
  {
    hide LineBatch;
    assert Lines(tail)[1..] == Lines(tail[LineEnd(tail)..]);
    AppendAssociative(batch, LineBatch(c, tail[..LineEnd(tail)], line), ParseLines(c, Lines(tail[LineEnd(tail)..]), line + 1));
  }

  lemma ParseEnd(c: Codec, batch: Batch, line: nat)
    ensures Append(batch, ParseLines(c, Lines([]), line)) == batch && Lines([]) == []
  {
  }

  /**
   One pass over the file: its size and time when the decision is made, its size and time when the
   parser opens it, and the bytes the parser reads to the end.
   */
  datatype Pass = Pass(full: bool, size: nat, mtime: int, openSize: nat, openMtime: int, content: Bytes)

  datatype Db = Db(session: Option<SessionRow>, tables: Tables)

  function MetaOrNone(m: Option<Meta>): Meta { if m.Some? then m.value else NO_META }

  function UpsertSession(row: Option<SessionRow>, meta: Meta, mtime: int, size: nat, offset: nat, lines: nat): SessionRow {
    SessionRow(if row.Some? then CoalesceMeta(meta, row.value.meta) else meta, mtime, size, offset, lines, EDIT_PARSER_VERSION)
  }

  /** What one pass does to the database when its parse succeeds. */
  function Sync(c: Codec, db: Db, pass: Pass): Db {
    match Decide(db.session, pass.full, pass.size, pass.mtime)
    case Skip => db
    case Parse(rebuild, offset, line) =>
      var rest := Rest(pass.content, offset);
      var batch := ParseLines(c, Lines(rest), line);
      Db(Some(UpsertSession(db.session, MetaOrNone(batch.meta), pass.openMtime, pass.openSize, offset + |rest|, line + |Lines(rest)|)),
         Write(if rebuild then NO_TABLES else db.tables, batch))
  }

  /** The part of the file this pass parses holds a line that makes the parser throw. */
  predicate Throws(c: Codec, db: Db, pass: Pass) {
    var d := Decide(db.session, pass.full, pass.size, pass.mtime);
    d.Parse? && !Readable(c, Lines(Rest(pass.content, d.offset)))
  }

  /** One pass: a parse that throws writes nothing. */
  function SyncPass(c: Codec, db: Db, pass: Pass): Db { if Throws(c, db, pass) then db else Sync(c, db, pass) }

  /** The database as the sync script updates it. */
  class Store {
    var session: Option<SessionRow>
    var tables: Tables

    function Contents(): Db
      reads this
    {
      Db(session, tables)
    }

    /** `write_records`: one transaction over all tables and the session row. */
    method WriteRecords(rebuild: bool, batch: Batch, mtime: int, size: nat, offset: nat, lines: nat)
      modifies this
      ensures tables == Write(if rebuild then NO_TABLES else old(tables), batch)
      ensures session == Some(UpsertSession(old(session), MetaOrNone(batch.meta), mtime, size, offset, lines))
    {
      if rebuild { tables := NO_TABLES; }
      tables := tables.(calls := PutAll(tables.calls, batch.calls));
      tables := tables.(results := PutAll(tables.results, batch.results));
      tables := tables.(assistants := PutAll(tables.assistants, batch.assistants));
      tables := tables.(users := PutAll(tables.users, batch.users));
      tables := tables.(edits := PutStubs(tables.edits, batch.stubs));
      tables := tables.(edits := PutVerdicts(tables.edits, batch.verdicts));
      tables := tables.(sections := PutAll(tables.sections, batch.sections));
      session := Some(UpsertSession(session, MetaOrNone(batch.meta), mtime, size, offset, lines));
    }

    method SyncFile(c: Codec, pass: Pass)
      modifies this
      ensures Contents() == SyncPass(c, old(Contents()), pass)
    {
      var decision := Decide(session, pass.full, pass.size, pass.mtime);
      if decision.Skip? { return; }
      var ok, batch, offset, line := ParseFile(c, pass.content, decision.offset, decision.line);
      if !ok { return; }
      WriteRecords(decision.rebuild, batch, pass.openMtime, pass.openSize, offset, line);
    }
  }
}
