/** Histories of syncs over a growing log agree with one rebuild of what they have read. */
module LogHistory {
  import opened Outcomes
  import opened Utf8
  import opened LogLines
  import opened LogSync

  // ---------------------------------------------------------------- session metadata

  /** Metadata carried by the first line, if it is a session header. */
  function FirstMeta(c: Codec, content: Bytes): Meta { MetaOrNone(ParseLines(c, Lines(content), 0).meta) }

  lemma {:induction false} CallsHaveNoMeta(c: Codec, e: Event, line: nat, calls: seq<ToolCall>)
    requires e.Assistant?
    ensures CallBatches(c, e, line, calls).meta.None?
  {
    if calls != [] { CallsHaveNoMeta(c, e, line, calls[..|calls| - 1]); }
  }

  lemma LineMeta(c: Codec, raw: Bytes, line: nat)
    requires line > 0
    ensures LineBatch(c, raw, line).meta.None?
  {
    var e := c.decode(raw);
    if e.Some? && e.value.Assistant? { CallsHaveNoMeta(c, e.value, line, e.value.calls); }
  }

  lemma {:induction false} LaterLinesHaveNoMeta(c: Codec, lines: seq<Bytes>, line: nat)
    requires line > 0
    ensures ParseLines(c, lines, line).meta.None?
    decreases |lines|
  {
    if lines != [] {
      LineMeta(c, lines[0], line);
      LaterLinesHaveNoMeta(c, lines[1..], line + 1);
    }
  }

  /** The metadata of a log is that of its first line when it is a session header, and nothing otherwise. */
  lemma FirstMetaIs(c: Codec, content: Bytes)
    ensures var lines := Lines(content);
            FirstMeta(c, content) == if lines != [] && c.decode(lines[0]).Some? && c.decode(lines[0]).value.Session?
                                     then c.decode(lines[0]).value.meta else NO_META
  {
    hide Lines;
    var lines := Lines(content);
    if lines != [] {
      LaterLinesHaveNoMeta(c, lines[1..], 1);
      var e := c.decode(lines[0]);
      if e.Some? && e.value.Assistant? { CallsHaveNoMeta(c, e.value, 0, e.value.calls); }
    }
  }

  /** A log that only grows keeps its first line's metadata. */
  lemma MetaIsStable(c: Codec, a: Bytes, b: Bytes)
    requires AtBoundary(a) && a != []
    ensures FirstMeta(c, a + b) == FirstMeta(c, a)
    ensures ParseLines(c, Lines(b), |Lines(a)|).meta.None?
  {
    hide LineBatch, Lines, ParseLines;
    LinesConcat(a, b);
    ParseConcat(c, Lines(a), Lines(b), 0);
    LinesUnfold(a);
    LaterLinesHaveNoMeta(c, Lines(b), |Lines(a)|);
  }

  /** Every known field of `m` agrees with `target`. */
  predicate Fits(m: Meta, target: Meta) {
    && (m.uuid.Some? ==> m.uuid == target.uuid) && (m.version.Some? ==> m.version == target.version)
    && (m.title.Some? ==> m.title == target.title) && (m.cwd.Some? ==> m.cwd == target.cwd)
    && (m.startedAt.Some? ==> m.startedAt == target.startedAt)
  }

  // ---------------------------------------------------------------- the invariant

  /** The database describes exactly `synced`, whole lines of the log. */
  ghost predicate Good(c: Codec, db: Db, synced: Bytes) {
    && AtBoundary(synced) && db.tables == Rebuild(c, synced)
    && db.session.Some?
    && var r := db.session.value;
       r.offset == |synced| && r.lines == |Lines(synced)| && r.size <= r.offset
       && r.parser == EDIT_PARSER_VERSION && r.meta == FirstMeta(c, synced)
  }

  /** Never synced, or synced by an older parser. */
  predicate Unsynced(db: Db) { db.session.None? || db.session.value.parser < EDIT_PARSER_VERSION }

  /** A database still to be rebuilt: its tables may hold anything, its metadata does not contradict the log's. */
  ghost predicate Outdated(c: Codec, db: Db, content: Bytes) {
    Unsynced(db) && (db.session.Some? ==> Fits(db.session.value.meta, FirstMeta(c, content)))
  }

  /** The log has only grown since `synced`, and the pass reads whole lines. */
  predicate Extends(synced: Bytes, pass: Pass) {
    && synced <= pass.content && |synced| <= pass.size <= pass.openSize <= |pass.content|
    && AtBoundary(pass.content)
  }

  lemma RebuildPass(c: Codec, db: Db, pass: Pass)
    requires Extends([], pass) && Decide(db.session, pass.full, pass.size, pass.mtime) == Parse(true, 0, 0)
    requires db.session.Some? ==> Fits(db.session.value.meta, FirstMeta(c, pass.content))
    ensures Good(c, Sync(c, db, pass), pass.content)
  {
    hide Write, ParseLines, Lines, Decide;
    assert pass.content[0..] == pass.content;
  }

  lemma GoodFits(c: Codec, synced: Bytes, pass: Pass)
    requires Extends(synced, pass) && AtBoundary(synced)
    ensures Fits(FirstMeta(c, synced), FirstMeta(c, pass.content))
  {
    if synced == [] {
      LinesUnfold([]);
      assert FirstMeta(c, []) == NO_META;
    } else {
      assert pass.content == synced + pass.content[|synced|..];
      MetaIsStable(c, synced, pass.content[|synced|..]);
    }
  }

  lemma ResumePass(c: Codec, db: Db, synced: Bytes, pass: Pass)
    requires Good(c, db, synced) && Extends(synced, pass)
    requires Decide(db.session, pass.full, pass.size, pass.mtime) == Parse(false, |synced|, |Lines(synced)|)
    ensures Good(c, Sync(c, db, pass), pass.content)
  {
    hide Write, ParseLines, Lines, Decide;
    var rest := pass.content[|synced|..];
    assert pass.content == synced + rest;
    ResumeIsRebuild(c, synced, rest);
    LinesConcat(synced, rest);
    if synced == [] {
      LinesUnfold([]);
      assert rest == pass.content;
      assert FirstMeta(c, []) == NO_META by { EmptyMeta(c); }
    } else {
      MetaIsStable(c, synced, rest);
    }
  }

  lemma EmptyMeta(c: Codec)
    ensures FirstMeta(c, []) == NO_META
  {
    LinesUnfold([]);
  }

  /** What the database describes after a pass. */
  function Synced(db: Db, synced: Bytes, pass: Pass): Bytes {
    if Decide(db.session, pass.full, pass.size, pass.mtime).Skip? then synced else pass.content
  }

  /** Every pass keeps the database right, and leaves in it everything that was in the log when the pass began. */
  lemma PassKeeps(c: Codec, db: Db, synced: Bytes, pass: Pass)
    requires Good(c, db, synced) && Extends(synced, pass)
    ensures Good(c, Sync(c, db, pass), Synced(db, synced, pass))
    ensures |Synced(db, synced, pass)| >= pass.size
  {
    hide Rebuild, FirstMeta, Lines, ParseLines, Write;
    var d := Decide(db.session, pass.full, pass.size, pass.mtime);
    if d.Parse? {
      if d.rebuild {
        GoodFits(c, synced, pass);
        RebuildPass(c, db, pass);
      } else {
        ResumePass(c, db, synced, pass);
      }
    }
  }

  /**
   What a parsed file is remembered by: the next pass skips it exactly when its size is the one seen at the open
   and its time no later, resumes where the parse ended when it has grown since, and rebuilds it when it is
   shorter than what was parsed or was touched without growing.
   */
  lemma NextPass(c: Codec, db: Db, pass: Pass, size: nat, mtime: int)
    requires !Throws(c, db, pass) && Decide(db.session, pass.full, pass.size, pass.mtime).Parse?
    ensures var after := SyncPass(c, db, pass).session;
            var d := Decide(after, false, size, mtime);
            && (d.Skip? <==> size == pass.openSize && mtime <= pass.openMtime)
            && (size > after.value.offset && !d.Skip? ==> d == Parse(false, after.value.offset, after.value.lines))
            && (size < after.value.offset && !d.Skip? ==> d == Parse(true, 0, 0))
            && (size == after.value.offset && mtime > pass.openMtime ==> d == Parse(true, 0, 0))
            && (size == after.value.offset && mtime <= pass.openMtime && !d.Skip? ==> d == Parse(false, after.value.offset, after.value.lines))
  {
    hide Write, ParseLines, Lines, Readable;
  }

  /** A full pass, and any pass over rows of an older parser, rebuilds a readable log whatever the database holds. */
  lemma FullPassRebuilds(c: Codec, db: Db, pass: Pass)
    requires (pass.full || Unsynced(db)) && Readable(c, Lines(pass.content))
    ensures SyncPass(c, db, pass).tables == Rebuild(c, pass.content)
    ensures var r := SyncPass(c, db, pass).session;
            r.Some? && r.value.offset == |pass.content| && r.value.lines == |Lines(pass.content)| && r.value.parser == EDIT_PARSER_VERSION
  {
    hide Write, ParseLines, Lines, Readable;
    assert pass.content[0..] == pass.content;
  }

  // ---------------------------------------------------------------- histories

  function Run(c: Codec, db: Db, passes: seq<Pass>): Db {
    if passes == [] then db else SyncPass(c, Run(c, db, passes[..|passes| - 1]), passes[|passes| - 1])
  }

  /** No pass sees a line that makes the parser throw. */
  predicate AllReadable(c: Codec, passes: seq<Pass>) {
    forall i :: 0 <= i < |passes| ==> Readable(c, Lines(passes[i].content))
  }

  lemma ReadableRest(c: Codec, a: Bytes, content: Bytes)
    requires AtBoundary(a) && a <= content
    ensures Readable(c, Lines(content)) ==> Readable(c, Lines(content[|a|..]))
    ensures !Readable(c, Lines(content[|a|..])) ==> !Readable(c, Lines(content))
  {
    hide Lines;
    assert content == a + content[|a|..];
    LinesConcat(a, content[|a|..]);
  }

  /** Over a readable log no pass throws. */
  lemma ReadablePass(c: Codec, db: Db, synced: Bytes, pass: Pass)
    requires Good(c, db, synced) && Extends(synced, pass) && Readable(c, Lines(pass.content))
    ensures SyncPass(c, db, pass) == Sync(c, db, pass)
  {
    hide Sync, Lines, Rebuild, FirstMeta, Readable;
    ReadableRest(c, synced, pass.content);
    assert pass.content[0..] == pass.content;
  }

  /**
   A line that decodes to something other than an object freezes its file: from any good state, however the
   log grows and however often it is synced, the database stays as it was.
   */
  lemma {:induction false} ThrowingLineFreezes(c: Codec, db: Db, synced: Bytes, passes: seq<Pass>)
    requires Good(c, db, synced)
    requires forall i :: 0 <= i < |passes| ==> Extends(synced, passes[i]) && !Readable(c, Lines(passes[i].content[|synced|..]))
    ensures Run(c, db, passes) == db
    decreases |passes|
  {
    hide Sync, Lines, Rebuild, FirstMeta, Readable;
    if passes != [] {
      var last := passes[|passes| - 1];
      ThrowingLineFreezes(c, db, synced, passes[..|passes| - 1]);
      ReadableRest(c, synced, last.content);
      assert last.content[0..] == last.content;
      if Decide(db.session, last.full, last.size, last.mtime).Skip? { SkipKeeps(c, db, last); }
    }
  }

  /** A log in which the first pass already meets such a line is never stored, however often it is synced. */
  lemma {:induction false} ThrowingLogIsNeverStored(c: Codec, db: Db, passes: seq<Pass>)
    requires Unsynced(db)
    requires forall i :: 0 <= i < |passes| ==> !Readable(c, Lines(passes[i].content))
    ensures Run(c, db, passes) == db
    decreases |passes|
  {
    hide Sync, Lines, Readable;
    if passes != [] {
      var last := passes[|passes| - 1];
      ThrowingLogIsNeverStored(c, db, passes[..|passes| - 1]);
      assert last.content[0..] == last.content;
    }
  }

  lemma SkipKeeps(c: Codec, db: Db, pass: Pass)
    requires Decide(db.session, pass.full, pass.size, pass.mtime).Skip?
    ensures Sync(c, db, pass) == db
  {
  }

  /** Each pass sees a log of whole lines that extends what every earlier pass could read. */
  predicate Growing(passes: seq<Pass>) {
    && (forall i :: 0 <= i < |passes| ==> Extends([], passes[i]))
    && (forall i :: 0 < i < |passes| ==> passes[i - 1].content <= passes[i].content && |passes[i - 1].content| <= passes[i].size)
  }

  lemma {:induction false} HistoryIsGood(c: Codec, db: Db, passes: seq<Pass>) returns (synced: Bytes)
    requires passes != [] && Growing(passes) && AllReadable(c, passes) && Outdated(c, db, passes[0].content)
    ensures Good(c, Run(c, db, passes), synced)
    ensures synced <= passes[|passes| - 1].content && |synced| >= passes[|passes| - 1].size
    decreases |passes|
  {
    hide Good, Fits, Sync, SyncPass, Readable, Lines, FirstMeta, Extends;
    var last := passes[|passes| - 1];
    var before := passes[..|passes| - 1];
    if before == [] {
      FirstIsGood(c, db, last);
      NoPasses(c, db);
      synced := last.content;
    } else {
      var s := HistoryIsGood(c, db, before);
      assert before[|before| - 1] == passes[|passes| - 2];
      synced := NextIsGood(c, Run(c, db, before), s, passes[|passes| - 2].content, last);
    }
  }

  lemma FirstIsGood(c: Codec, db: Db, pass: Pass)
    requires Outdated(c, db, pass.content) && Extends([], pass) && Readable(c, Lines(pass.content))
    ensures Good(c, SyncPass(c, db, pass), pass.content) && |pass.content| >= pass.size
  {
    hide Good, Fits, Sync, SyncPass, Readable, Lines, FirstMeta;
    RebuildPass(c, db, pass);
    FirstReadable(c, db, pass);
  }

  lemma NextIsGood(c: Codec, db: Db, synced: Bytes, seen: Bytes, pass: Pass) returns (next: Bytes)
    requires Good(c, db, synced) && synced <= seen && seen <= pass.content && |seen| <= pass.size
    requires Extends([], pass) && Readable(c, Lines(pass.content))
    ensures Good(c, SyncPass(c, db, pass), next) && next <= pass.content && |next| >= pass.size
  {
    PrefixTrans(synced, seen, pass.content);
    hide Good, Sync, SyncPass, Readable, Lines;
    PassKeeps(c, db, synced, pass);
    ReadablePass(c, db, synced, pass);
    next := Synced(db, synced, pass);
  }

  lemma FirstReadable(c: Codec, db: Db, pass: Pass)
    requires Decide(db.session, pass.full, pass.size, pass.mtime) == Parse(true, 0, 0) && Readable(c, Lines(pass.content))
    ensures SyncPass(c, db, pass) == Sync(c, db, pass)
  {
    hide Sync, Lines, Readable;
    assert pass.content[0..] == pass.content;
  }

  lemma GoodBoundary(c: Codec, db: Db, s: Bytes)
    requires Good(c, db, s)
    ensures AtBoundary(s)
  {
  }

  lemma PrefixTrans(a: Bytes, b: Bytes, d: Bytes)
    requires a <= b && b <= d
    ensures a <= d
  {
  }

  /**
   However often a log is grown and synced at line boundaries -- starting from nothing or from an
   older parser's rows, with any mixture of skips, rebuilds and resumes, and with the log growing
   during a pass -- the database equals one full rebuild of what has been read, and when the last
   pass saw the whole log, that is the whole log.
   */
  lemma HistoryIsOneRebuild(c: Codec, db: Db, passes: seq<Pass>)
    requires passes != [] && Growing(passes) && AllReadable(c, passes) && Outdated(c, db, passes[0].content)
    ensures var last := passes[|passes| - 1];
            var after := Run(c, db, passes);
            && after.session.Some? && last.size <= after.session.value.offset <= |last.content|
            && after.tables == Rebuild(c, last.content[..after.session.value.offset])
            && after.session.value.lines == |Lines(last.content[..after.session.value.offset])|
            && after.session.value.meta == FirstMeta(c, last.content[..after.session.value.offset])
            && (last.size == |last.content| ==> after.tables == Rebuild(c, last.content))
  {
    var last := passes[|passes| - 1];
    var synced := HistoryIsGood(c, db, passes);
    hide Run, Rebuild, FirstMeta, Lines, Growing, Outdated, AllReadable;
    assert last.content[..|synced|] == synced;
    if last.size == |last.content| { assert synced == last.content; }
  }

  lemma {:induction false} RunConcat(c: Codec, db: Db, a: seq<Pass>, b: seq<Pass>)
    ensures Run(c, db, a + b) == Run(c, Run(c, db, a), b)
  {
    hide SyncPass;
    if b == [] {
      assert a + b == a;
    } else {
      assert (a + b)[..|a + b| - 1] == a + b[..|b| - 1];
      RunConcat(c, db, a, b[..|b| - 1]);
    }
  }

  lemma ThrowsBeyond(c: Codec, synced: Bytes, seen: Bytes, content: Bytes)
    requires AtBoundary(synced) && AtBoundary(seen) && synced <= seen && seen <= content && !Readable(c, Lines(content[|seen|..]))
    ensures !Readable(c, Lines(content[|synced|..]))
  {
    hide Lines, Readable;
    var rest := content[|synced|..];
    var a := seen[|synced|..];
    assert a <= rest && rest[|a|..] == content[|seen|..];
    ReadableRest(c, a, rest);
  }

  /** What a history has seen of its log. */
  function Seen(passes: seq<Pass>): Bytes { if passes == [] then [] else passes[|passes| - 1].content }

  /**
   A history that runs into a throwing line, in its first pass or in a later one, ends with the database of
   the passes before it.
   */
  lemma HistoryStopsAtThrow(c: Codec, db: Db, before: seq<Pass>, after: seq<Pass>)
    requires Growing(before) && AllReadable(c, before)
    requires if before == [] then Unsynced(db) else Outdated(c, db, before[0].content)
    requires forall i :: 0 <= i < |after| ==> Extends(Seen(before), after[i]) && !Readable(c, Lines(after[i].content[|Seen(before)|..]))
    ensures Run(c, db, before + after) == Run(c, db, before)
  {
    hide Run, Lines, Readable, Growing, AllReadable, Outdated, Unsynced, FirstMeta;
    if before == [] {
      assert Run(c, db, before) == db by { NoPasses(c, db); }
      FromTheStart(c, after);
      ThrowingLogIsNeverStored(c, db, after);
      assert before + after == after;
    } else {
      LaterThrowStops(c, db, before, after);
    }
  }

  lemma NoPasses(c: Codec, db: Db)
    ensures Run(c, db, []) == db
  {
  }

  lemma FromTheStart(c: Codec, passes: seq<Pass>)
    requires forall i :: 0 <= i < |passes| ==> !Readable(c, Lines(passes[i].content[0..]))
    ensures forall i :: 0 <= i < |passes| ==> !Readable(c, Lines(passes[i].content))
  {
    hide Readable, Lines;
    forall i | 0 <= i < |passes| ensures !Readable(c, Lines(passes[i].content)) {
      assert passes[i].content[0..] == passes[i].content;
    }
  }

  lemma LaterThrowStops(c: Codec, db: Db, before: seq<Pass>, after: seq<Pass>)
    requires before != [] && Growing(before) && AllReadable(c, before) && Outdated(c, db, before[0].content)
    requires forall i :: 0 <= i < |after| ==> Extends(Seen(before), after[i]) && !Readable(c, Lines(after[i].content[|Seen(before)|..]))
    ensures Run(c, db, before + after) == Run(c, db, before)
  {
    var seen := Seen(before);
    var synced := HistoryIsGood(c, db, before);
    GoodBoundary(c, Run(c, db, before), synced);
    hide Lines, Readable, Run, Good, AllReadable, Outdated;
    RunConcat(c, db, before, after);
    forall i | 0 <= i < |after| ensures Extends(synced, after[i]) && !Readable(c, Lines(after[i].content[|synced|..])) {
      PrefixTrans(synced, seen, after[i].content);
      ThrowsBeyond(c, synced, seen, after[i].content);
    }
    ThrowingLineFreezes(c, Run(c, db, before), synced, after);
  }

  /** Every metadata value the old row holds is given again by the new one. */
  predicate Supersedes(n: Meta, o: Meta) {
    && (o.uuid.Some? ==> n.uuid.Some?) && (o.version.Some? ==> n.version.Some?) && (o.title.Some? ==> n.title.Some?)
    && (o.cwd.Some? ==> n.cwd.Some?) && (o.startedAt.Some? ==> n.startedAt.Some?)
  }

  const NO_DATABASE := Db(None, NO_TABLES)

  /**
   When a pass rebuilds a file it already has a row for -- replaced, shortened or touched -- the tables are
   those of a first sync; the whole database is, exactly when the new log's metadata leaves none of the old
   row's columns to be kept.
   */
  lemma RebuildIsFreshExactly(c: Codec, db: Db, pass: Pass)
    requires db.session.Some? && Decide(db.session, pass.full, pass.size, pass.mtime) == Parse(true, 0, 0)
    ensures Sync(c, db, pass).tables == Sync(c, NO_DATABASE, pass).tables == Rebuild(c, pass.content)
    ensures Sync(c, db, pass) == Sync(c, NO_DATABASE, pass) <==> Supersedes(FirstMeta(c, pass.content), db.session.value.meta)
  {
    hide Write, ParseLines, Lines;
    assert pass.content[0..] == pass.content;
    var n, o := FirstMeta(c, pass.content), db.session.value.meta;
    assert CoalesceMeta(n, o) == n <==> Supersedes(n, o);
  }

  /** A log replaced by an empty one keeps the title of the log that is gone. */
  lemma ReplacedLogKeepsItsTitle(c: Codec, title: string)
    ensures var db := Db(Some(SessionRow(NO_META.(title := Some(title)), 0, 10, 10, 1, EDIT_PARSER_VERSION)), NO_TABLES);
            var after := Sync(c, db, Pass(false, 0, 1, 0, 1, []));
            after.tables == Rebuild(c, []) && after.session.Some? && after.session.value.meta.title == Some(title)
  {
  }

  // ---------------------------------------------------------------- why passes must end at line boundaries

  /** Decodes exactly the line `target`, as a user message. */
  function Only(target: Bytes): Codec {
    Codec((raw: Bytes) => if raw == target then Some(User("", 0, "x")) else None, _ => false,
          (s: string) => 1, (s: string) => EditInput(0, []), (s: string) => true, (s: string) => [])
  }

  /** Under that decoder the user table holds the positions of that line. */
  lemma {:induction false} OnlyUsers(target: Bytes, t: Tables, lines: seq<Bytes>, line: nat, k: nat)
    ensures k in Write(t, ParseLines(Only(target), lines, line)).users <==>
            k in t.users || OccursAt(target, lines, line, k)
    decreases |lines|
  {
    hide Write, Only, LineBatch, Append, ParseLines, OccursAt;
    if lines == [] {
      OnlyNone(target, t, line, k);
    } else {
      var c := Only(target);
      var head, tail := LineBatch(c, lines[0], line), ParseLines(c, lines[1..], line + 1);
      ParseHead(c, lines, line);
      WriteConcat(t, head, tail);
      OnlyUsers(target, Write(t, head), lines[1..], line + 1, k);
      OnlyOne(target, t, lines[0], line);
      AtShifted(target, lines, line, k);
    }
  }

  lemma OnlyNone(target: Bytes, t: Tables, line: nat, k: nat)
    ensures Write(t, ParseLines(Only(target), [], line)).users == t.users && !OccursAt(target, [], line, k)
  {
  }

  lemma ParseHead(c: Codec, lines: seq<Bytes>, line: nat)
    requires lines != []
    ensures ParseLines(c, lines, line) == Append(LineBatch(c, lines[0], line), ParseLines(c, lines[1..], line + 1))
  {
    hide LineBatch, Append;
  }

  /** The line is `target` at position `k` of a log whose first line has number `line`. */
  predicate OccursAt(target: Bytes, lines: seq<Bytes>, line: nat, k: nat) { line <= k < line + |lines| && lines[k - line] == target }

  lemma AtShifted(target: Bytes, lines: seq<Bytes>, line: nat, k: nat)
    requires lines != []
    ensures OccursAt(target, lines, line, k) <==> (k == line && lines[0] == target) || OccursAt(target, lines[1..], line + 1, k)
  {
  }

  lemma OnlyOne(target: Bytes, t: Tables, raw: Bytes, line: nat)
    ensures Write(t, LineBatch(Only(target), raw, line)).users
         == if raw == target then t.users[line := UserRow("", 0, "x", 1)] else t.users
  {
    var head := LineBatch(Only(target), raw, line);
    var rows: seq<(nat, UserRow)> := if raw == target then [(line, UserRow("", 0, "x", 1))] else [];
    assert head.users == rows;
    if raw == target { assert rows[1..] == []; }
    assert PutAll(t.users, rows) == if raw == target then t.users[line := UserRow("", 0, "x", 1)] else t.users;
  }

  lemma {:induction false} LastLine(a: Bytes)
    requires !AtBoundary(a)
    ensures Lines(a) != [] && Lines(a)[|Lines(a)| - 1] != [] && !AtBoundary(Lines(a)[|Lines(a)| - 1])
    ensures Lines(a + [NEWLINE]) == Lines(a)[..|Lines(a)| - 1] + [Lines(a)[|Lines(a)| - 1] + [NEWLINE]]
    decreases |a|
  {
    hide Lines, LineEnd;
    var k, b := LineEnd(a), a + [NEWLINE];
    LinesUnfold(a);
    LinesUnfold(b);
    LinesUnfold([]);
    if k == |a| {
      assert a[..k] == a && a[k..] == [] && Lines(a) == [a];
      EndOfLast(a);
      assert b[..|b|] == b && b[|b|..] == [];
    } else {
      assert AtBoundary(a[..k]);
      assert a == a[..k] + a[k..] && b == a[..k] + (a[k..] + [NEWLINE]);
      LinesConcat(a[..k], a[k..]);
      LinesConcat(a[..k], a[k..] + [NEWLINE]);
      LastLine(a[k..]);
      var x, y := Lines(a[..k]), Lines(a[k..]);
      assert Lines(a) == x + y;
      assert (x + y)[..|x + y| - 1] == x + y[..|y| - 1];
    }
  }

  lemma {:induction false} EndOfLast(a: Bytes)
    requires a != [] && LineEnd(a) == |a| && !AtBoundary(a)
    ensures LineEnd(a + [NEWLINE]) == |a| + 1
  {
    var b, n := a + [NEWLINE], LineEnd(a + [NEWLINE]);
    assert forall i :: 0 <= i < |a| ==> b[i] == a[i];
    assert forall i :: 0 <= i < |a| ==> a[i] != NEWLINE;
  }

  /**
   Resuming agrees with a rebuild for every decoder and every continuation exactly when the earlier
   sync stopped at a line boundary: a sync taken mid-line loses that line.
   */
  lemma BoundaryIsNeeded(a: Bytes)
    ensures AtBoundary(a) <==>
            forall c: Codec, b: Bytes :: Write(Rebuild(c, a), ParseLines(c, Lines(b), |Lines(a)|)) == Rebuild(c, a + b)
  {
    if AtBoundary(a) {
      forall c: Codec, b: Bytes ensures Write(Rebuild(c, a), ParseLines(c, Lines(b), |Lines(a)|)) == Rebuild(c, a + b) {
        ResumeIsRebuild(c, a, b);
      }
    } else {
      MidLineLosesTheLine(a);
    }
  }

  lemma MidLineLosesTheLine(a: Bytes)
    requires !AtBoundary(a)
    ensures Lines(a) != []
    ensures var c := Only(Lines(a)[|Lines(a)| - 1] + [NEWLINE]);
            Write(Rebuild(c, a), ParseLines(c, Lines([NEWLINE]), |Lines(a)|)) != Rebuild(c, a + [NEWLINE])
  {
    LastLine(a);
    var n := |Lines(a)|;
    var frag := Lines(a)[n - 1];
    var target := frag + [NEWLINE];
    var c, k := Only(target), n - 1;
    LinesUnfold([NEWLINE]);
    LinesUnfold([]);
    assert Lines([NEWLINE]) == [[NEWLINE]] by { assert [NEWLINE][..1] == [NEWLINE] && [NEWLINE][1..] == []; }
    hide Write, ParseLines, Lines, Only;
    OnlyUsers(target, NO_TABLES, Lines(a), 0, k);
    OnlyUsers(target, Rebuild(c, a), [[NEWLINE]], n, k);
    OnlyUsers(target, NO_TABLES, Lines(a + [NEWLINE]), 0, k);
    assert frag != target by { assert |target| == |frag| + 1; }
  }
}
