/**
 The two line-driven parsers that find how much of an edit input is a complete prefix, and the decision
 to cut a contaminated tail there. The line patterns are parameters: every claim holds for any of them.
 */
module EditBoundary {
  import opened Outcomes
  import opened TextLines

  datatype Section = Section(target: string, ops: nat, payload: nat, deleted: nat)

  /** What the patterns of the hashline format say about one line. */
  datatype Look = Look(begin: bool, end: bool, header: Option<string>, insert: bool, replace: Option<nat>)

  datatype OldReplace = OldReplace(swaps: bool, lines: nat, tail: bool)

  /** What the patterns of the legacy format say about one line; `marker` is a leaked tool marker. */
  datatype OldLook = OldLook(marker: bool, target: string, delete: Option<nat>, replace: Option<OldReplace>)

  datatype Patterns = Patterns(look: string -> Look, legacy: string -> OldLook, looseTail: bool)

  predicate Sigil(line: string) { line != "" && (line[0] == '«' || line[0] == '»' || line[0] == '≔' || line[0] == '§') }

  // ---------------------------------------------------------------- the hashline machine

  /** `kept` is the number of lines up to the accepted end. */
  datatype State = State(sections: seq<Section>, kept: nat, needs: bool, allowed: bool, saw: bool, seen: bool)

  const START := State([], 0, false, false, false, false)

  /** A step reads line number `n` (counted from one) or stops before it. */
  datatype Step<S> = Next(state: S) | Stop

  function Bump(sections: seq<Section>, ops: nat, payload: nat, deleted: nat): (r: seq<Section>)
    requires sections != []
    ensures |r| == |sections|
  {
    var c := sections[|sections| - 1];
    sections[|sections| - 1 := c.(ops := c.ops + ops, payload := c.payload + payload, deleted := c.deleted + deleted)]
  }

  function Read(s: State, line: string, n: nat, look: Look): Step<State> {
    if !s.seen && Blank(line) then Next(s.(kept := n))
    else
      var s := s.(seen := true);
      var open := s.needs && !s.saw;
      if look.begin || look.end then
        if open then Stop else Next(s.(kept := n, allowed := false))
      else if look.header.Some? then
        if open then Stop
        else Next(s.(sections := s.sections + [Section(look.header.value, 0, 0, 0)], kept := n, needs := false, allowed := false, saw := false))
      else if s.sections == [] then Stop
      else if s.allowed && !Sigil(line) then
        Next(s.(sections := Bump(s.sections, 0, 1, 0), kept := n, saw := true, needs := false))
      else if Blank(line) then
        if open then Stop else Next(s.(kept := n, allowed := false, needs := false, saw := false))
      else if open then Stop
      else if look.insert then Next(Inserted(s))
      else if look.replace.Some? then
        Next(s.(sections := Bump(s.sections, 1, 0, look.replace.value), kept := n, needs := false, allowed := true, saw := false))
      else Stop
  }

  /** An insert operation is counted at once but accepted only with its first payload line. */
  function Inserted(s: State): State
    requires s.sections != []
  {
    s.(sections := Bump(s.sections, 1, 0, 0), needs := true, allowed := true, saw := false)
  }

  /** State after reading lines until the first stop; `done` once a line has stopped the parser. */
  datatype Progress<S> = Progress(state: S, done: bool)

  function After(lines: seq<string>, look: string -> Look): Progress<State> {
    if lines == [] then Progress(START, false)
    else
      var before := After(lines[..|lines| - 1], look);
      var line := lines[|lines| - 1];
      if before.done then before
      else
        match Read(before.state, line, |lines|, look(line))
        case Stop => Progress(before.state, true)
        case Next(s) => Progress(s, false)
  }

  /** A counted insert still waits for its payload. */
  predicate Pending(s: State) { s.needs && !s.saw }

  /** Nothing has happened before the first line with content. */
  predicate Fresh(s: State) { !s.seen ==> s.sections == [] && !s.needs }

  /** Reading one more line either accepts everything so far or opens an insert. */
  lemma ReadFacts(s: State, line: string, n: nat, look: Look)
    requires Read(s, line, n, look).Next? && Fresh(s)
    ensures var t := Read(s, line, n, look).state;
            && Fresh(t)
            && (|| (t.kept == n && !Pending(t) && |s.sections| <= |t.sections|)
                || (!Pending(s) && s.seen && s.sections != [] && t == Inserted(s)))
  {
  }

  /** Where a run stands relative to the end it has accepted. */
  predicate Stands(p: Progress<State>, accepted: Progress<State>, n: nat) {
    && !accepted.done && accepted.state.kept == p.state.kept && !Pending(accepted.state)
    && (if Pending(p.state) then accepted.state.seen && accepted.state.sections != [] && p.state == Inserted(accepted.state)
        else p.state == accepted.state)
    && (!p.done ==> n == p.state.kept + if Pending(p.state) then 1 else 0)
    && Fresh(p.state)
  }

  /** Stopping at the accepted end leaves the parser in the state it reports, except for one open insert. */
  lemma {:induction false} AcceptedPrefix(lines: seq<string>, look: string -> Look)
    ensures var p := After(lines, look); p.state.kept <= |lines| && Stands(p, After(lines[..p.state.kept], look), |lines|)
  {
    hide Read, Bump;
    if lines != [] {
      var n := |lines|;
      var init, line := lines[..n - 1], lines[n - 1];
      var before, p := After(init, look), After(lines, look);
      AcceptedPrefix(init, look);
      assert lines[..before.state.kept] == init[..before.state.kept];
      if !before.done {
        var step := Read(before.state, line, n, look(line));
        if step.Next? {
          ReadFacts(before.state, line, n, look(line));
          if step.state.kept == n && !Pending(step.state) {
            assert lines[..n] == lines;
          } else {
            assert init[..n - 1] == init;
          }
        }
      }
    }
  }

  /** A shorter run has no more sections. */
  lemma {:induction false} SectionsGrow(lines: seq<string>, k: nat, look: string -> Look)
    requires k <= |lines|
    ensures |After(lines[..k], look).state.sections| <= |After(lines, look).state.sections|
    decreases |lines|
  {
    var n := |lines|;
    if k == n {
      assert lines[..k] == lines;
    } else {
      var init, line := lines[..n - 1], lines[n - 1];
      assert init[..k] == lines[..k];
      SectionsGrow(init, k, look);
      var before := After(init, look);
      AcceptedPrefix(init, look);
      if !before.done && Read(before.state, line, n, look(line)).Next? { ReadFacts(before.state, line, n, look(line)); }
    }
  }

  // ---------------------------------------------------------------- the legacy machine

  datatype OldState = OldState(sections: seq<Section>, kept: nat, inPayload: bool)

  const OLD_START := OldState([], 0, false)

  predicate StartsAny(line: string) { StartsWith(line, "-") || StartsWith(line, " ") || StartsWith(line, "\\") }

  function ReadOld(s: OldState, line: string, n: nat, look: OldLook, looseTail: bool): Step<OldState> {
    if looseTail && look.marker && s.sections != [] && s.sections[|s.sections| - 1].ops > 0 then Stop
    else if StartsWith(line, "---") then
      if look.target == "" then Stop else Next(OldState(s.sections + [Section(look.target, 0, 0, 0)], n, false))
    else if s.sections == [] then
      if Blank(line) then Next(s.(kept := n)) else Stop
    else if StartsWith(line, "+++") then Next(s.(kept := n, inPayload := false))
    else if StartsWith(line, "@@") then Next(OldState(Bump(s.sections, 1, 0, 0), n, true))
    else if look.delete.Some? then Next(OldState(Bump(s.sections, 1, 0, look.delete.value), n, false))
    else if look.replace.Some? then
      var r := look.replace.value;
      Next(OldState(Bump(s.sections, 1, if r.tail then 1 else 0, if r.swaps then r.lines else 0), n, true))
    else if StartsWith(line, "+") then Next(OldState(Bump(s.sections, 0, 1, 0), n, true))
    else if s.inPayload && StartsAny(line) then
      Next(s.(sections := Bump(s.sections, 0, 0, if StartsWith(line, "-") then 1 else 0), kept := n))
    else if s.inPayload then Next(s.(sections := Bump(s.sections, 0, 1, 0), kept := n))
    else if Blank(line) then Next(s.(kept := n))
    else Stop
  }

  function AfterOld(lines: seq<string>, p: Patterns): Progress<OldState> {
    if lines == [] then Progress(OLD_START, false)
    else
      var before := AfterOld(lines[..|lines| - 1], p);
      var line := lines[|lines| - 1];
      if before.done then before
      else
        match ReadOld(before.state, line, |lines|, p.legacy(line), p.looseTail)
        case Stop => Progress(before.state, true)
        case Next(s) => Progress(s, false)
  }

  lemma ReadOldFacts(s: OldState, line: string, n: nat, look: OldLook, looseTail: bool)
    requires ReadOld(s, line, n, look, looseTail).Next?
    ensures var t := ReadOld(s, line, n, look, looseTail).state;
            && t.kept == n
            && (s.sections == [] ==> if t.sections == [] then Blank(line) else StartsWith(line, "---"))
            && (s.sections != [] ==> t.sections != [])
  {
  }

  /** Every line the legacy machine reads is accepted, so stopping there changes nothing. */
  lemma {:induction false} OldPrefix(lines: seq<string>, p: Patterns)
    ensures var r := AfterOld(lines, p);
            && r.state.kept <= |lines| && (!r.done ==> r.state.kept == |lines|)
            && AfterOld(lines[..r.state.kept], p) == Progress(r.state, false)
  {
    if lines == [] {
      assert lines[..0] == [];
    } else {
      var n := |lines|;
      var init, line := lines[..n - 1], lines[n - 1];
      OldSnoc(lines, p);
      hide AfterOld, ReadOld;
      var before := AfterOld(init, p);
      OldPrefix(init, p);
      assert lines[..before.state.kept] == init[..before.state.kept] && lines[..n] == lines;
      if !before.done && ReadOld(before.state, line, n, p.legacy(line), p.looseTail).Next? {
        ReadOldFacts(before.state, line, n, p.legacy(line), p.looseTail);
      }
    }
  }

  lemma OldSnoc(lines: seq<string>, p: Patterns)
    requires lines != []
    ensures var n := |lines|;
            var before, line := AfterOld(lines[..n - 1], p), lines[n - 1];
            var step := ReadOld(before.state, line, n, p.legacy(line), p.looseTail);
            AfterOld(lines, p) == if before.done then before else if step.Next? then Progress(step.state, false) else Progress(before.state, true)
  {
    hide ReadOld;
  }

  /** Before its first section the legacy machine passes only blank lines. */
  lemma {:induction false} OldStartsWithDashes(lines: seq<string>, p: Patterns)
    ensures var r := AfterOld(lines, p);
            if r.state.sections == [] then r.done || Blank(Join(lines)) else DashesAfterSpace(Join(lines))
  {
    if lines != [] {
      var n := |lines|;
      var init, line := lines[..n - 1], lines[n - 1];
      var before := AfterOld(init, p);
      assert lines == init + [line];
      JoinPush(init, line);
      OldStartsWithDashes(init, p);
      if !before.done && ReadOld(before.state, line, n, p.legacy(line), p.looseTail).Next? {
        ReadOldFacts(before.state, line, n, p.legacy(line), p.looseTail);
      }
      hide ReadOld;
      if before.state.sections != [] {
        DashesGrow(Join(init), line);
      } else if !before.done && StartsWith(line, "---") {
        DashesAfterBlank(Join(init), line);
      }
    }
  }

  // ---------------------------------------------------------------- boundaries

  /** `missing`: the last insert has no payload. */
  datatype Boundary = Boundary(ok: bool, end: nat, missing: bool, sections: seq<Section>)

  predicate Falls(text: string, p: Patterns) {
    After(SplitLines(text), p.look).state.sections == [] && DashesAfterSpace(text)
  }

  lemma KeptFits(lines: seq<string>, p: Patterns)
    ensures After(lines, p.look).state.kept <= |lines| && AfterOld(lines, p).state.kept <= |lines|
  {
    AcceptedPrefix(lines, p.look);
    OldPrefix(lines, p);
  }

  /** `parse_edit_boundary`, with its fallback to `parse_legacy_diff_boundary`. */
  function Parse(text: string, p: Patterns): Boundary {
    var lines := SplitLines(text);
    KeptFits(lines, p);
    if Falls(text, p) then
      var s := AfterOld(lines, p).state;
      Boundary(EndOf(lines, s.kept) > 0 && s.sections != [], EndOf(lines, s.kept), false, s.sections)
    else
      var s := After(lines, p.look).state;
      Boundary(EndOf(lines, s.kept) > 0 && s.sections != [], EndOf(lines, s.kept), Pending(s), s.sections)
  }

  lemma {:induction false} StoppedStays(lines: seq<string>, i: nat, look: string -> Look)
    requires i <= |lines| && After(lines[..i], look).done
    ensures After(lines, look) == After(lines[..i], look)
    decreases |lines|
  {
    if i < |lines| {
      assert lines[..|lines| - 1][..i] == lines[..i];
      StoppedStays(lines[..|lines| - 1], i, look);
    } else {
      assert lines[..i] == lines;
    }
  }

  lemma {:induction false} OldStoppedStays(lines: seq<string>, i: nat, p: Patterns)
    requires i <= |lines| && AfterOld(lines[..i], p).done
    ensures AfterOld(lines, p) == AfterOld(lines[..i], p)
    decreases |lines|
  {
    if i < |lines| {
      assert lines[..|lines| - 1][..i] == lines[..i];
      OldStoppedStays(lines[..|lines| - 1], i, p);
    } else {
      assert lines[..i] == lines;
    }
  }

  /** The run after its first `i` lines. */
  ghost function At(lines: seq<string>, i: nat, look: string -> Look): Progress<State>
    requires i <= |lines|
  {
    After(lines[..i], look)
  }

  ghost function OldAt(lines: seq<string>, i: nat, p: Patterns): Progress<OldState>
    requires i <= |lines|
  {
    AfterOld(lines[..i], p)
  }

  lemma Ends(lines: seq<string>, p: Patterns)
    ensures At(lines, 0, p.look) == Progress(START, false) && At(lines, |lines|, p.look) == After(lines, p.look)
    ensures OldAt(lines, 0, p) == Progress(OLD_START, false) && OldAt(lines, |lines|, p) == AfterOld(lines, p)
    ensures EndOf(lines, 0) == 0
  {
    assert lines[..0] == [] && lines[..|lines|] == lines;
  }

  lemma ReadNext(lines: seq<string>, i: nat, look: string -> Look)
    requires i < |lines| && !At(lines, i, look).done
    ensures var s := At(lines, i, look).state;
            match Read(s, lines[i], i + 1, look(lines[i]))
            case Stop => After(lines, look) == Progress(s, true)
            case Next(t) => At(lines, i + 1, look) == Progress(t, false)
  {
    assert lines[..i + 1][..i] == lines[..i];
    if After(lines[..i + 1], look).done { StoppedStays(lines, i + 1, look); }
  }

  lemma ReadOldNext(lines: seq<string>, i: nat, p: Patterns)
    requires i < |lines| && !OldAt(lines, i, p).done
    ensures var s := OldAt(lines, i, p).state;
            match ReadOld(s, lines[i], i + 1, p.legacy(lines[i]), p.looseTail)
            case Stop => AfterOld(lines, p) == Progress(s, true)
            case Next(t) => OldAt(lines, i + 1, p) == Progress(t, false)
  {
    assert lines[..i + 1][..i] == lines[..i];
    if AfterOld(lines[..i + 1], p).done { OldStoppedStays(lines, i + 1, p); }
  }

  /** One turn of the line loop of `parse_edit_boundary`: `stop` is its break, `advance` its new end. */
  method ReadHashline(line: string, n: nat, l: Look, s: State)
    returns (stop: bool, advance: bool, sections: seq<Section>, needs: bool, allowed: bool, saw: bool, seen: bool)
    ensures Read(s, line, n, l) == if stop then Stop else Next(State(sections, if advance then n else s.kept, needs, allowed, saw, seen))
  {
    hide Blank, Sigil;
    stop, advance := false, true;
    sections, needs, allowed, saw, seen := s.sections, s.needs, s.allowed, s.saw, s.seen;
    if !seen && Blank(line) { return; }
    seen := true;
    if l.begin || l.end {
      if needs && !saw { stop := true; return; }
      allowed := false;
      return;
    }
    if l.header.Some? {
      if needs && !saw { stop := true; return; }
      sections := sections + [Section(l.header.value, 0, 0, 0)];
      needs, allowed, saw := false, false, false;
      return;
    }
    if sections == [] { stop := true; return; }
    if allowed && !Sigil(line) {
      sections := Bump(sections, 0, 1, 0);
      saw, needs := true, false;
      return;
    }
    if Blank(line) {
      if needs && !saw { stop := true; return; }
      allowed, needs, saw := false, false, false;
      return;
    }
    if needs && !saw { stop := true; return; }
    if l.insert {
      sections := Bump(sections, 1, 0, 0);
      needs, allowed, saw, advance := true, true, false, false;
      return;
    }
    if l.replace.Some? {
      sections := Bump(sections, 1, 0, l.replace.value);
      needs, allowed, saw := false, true, false;
      return;
    }
    stop := true;
  }

  /** The line loop of `parse_edit_boundary`. */
  method ScanHashlines(lines: seq<string>, p: Patterns)
    returns (sections: seq<Section>, parsedEnd: nat, missing: bool)
    ensures var s := After(lines, p.look).state;
            s.kept <= |lines| && sections == s.sections && parsedEnd == EndOf(lines, s.kept) && missing == Pending(s)
  {
    hide After, Read, EndOf, At, Pending, OldAt, AfterOld, ReadOld;
    KeptFits(lines, p);
    Ends(lines, p);
    var s, end := START, 0;
    parsedEnd := 0;
    for i := 0 to |lines|
      invariant At(lines, i, p.look) == Progress(s, false)
      invariant s.kept <= i && parsedEnd == EndOf(lines, s.kept) && end == EndOf(lines, i)
    {
      ReadNext(lines, i, p.look);
      EndOfNext(lines, i);
      end := end + |lines[i]|;
      var stop, advance, now, needs, allowed, saw, seen := ReadHashline(lines[i], i + 1, p.look(lines[i]), s);
      if stop { return s.sections, parsedEnd, Pending(s); }
      s := State(now, if advance then i + 1 else s.kept, needs, allowed, saw, seen);
      if advance { parsedEnd := end; }
    }
    return s.sections, parsedEnd, Pending(s);
  }

  /** One turn of the line loop of `parse_legacy_diff_boundary`. */
  method ReadLegacyLine(line: string, n: nat, l: OldLook, looseTail: bool, s: OldState)
    returns (stop: bool, sections: seq<Section>, inPayload: bool)
    ensures ReadOld(s, line, n, l, looseTail) == if stop then Stop else Next(OldState(sections, n, inPayload))
  {
    hide Blank, StartsWith, StartsAny;
    stop, sections, inPayload := false, s.sections, s.inPayload;
    if looseTail && l.marker && sections != [] && sections[|sections| - 1].ops > 0 { stop := true; return; }
    if StartsWith(line, "---") {
      if l.target == "" { stop := true; return; }
      sections := sections + [Section(l.target, 0, 0, 0)];
      inPayload := false;
      return;
    }
    if sections == [] {
      stop := !Blank(line);
      return;
    }
    if StartsWith(line, "+++") || StartsWith(line, "@@") {
      if StartsWith(line, "@@") && !StartsWith(line, "+++") {
        sections, inPayload := Bump(sections, 1, 0, 0), true;
      } else {
        inPayload := false;
      }
      return;
    }
    if l.delete.Some? {
      sections, inPayload := Bump(sections, 1, 0, l.delete.value), false;
      return;
    }
    if l.replace.Some? {
      var r := l.replace.value;
      sections := Bump(sections, 1, if r.tail then 1 else 0, if r.swaps then r.lines else 0);
      inPayload := true;
      return;
    }
    if StartsWith(line, "+") {
      sections, inPayload := Bump(sections, 0, 1, 0), true;
    } else if inPayload && StartsAny(line) {
      sections := Bump(sections, 0, 0, if StartsWith(line, "-") then 1 else 0);
    } else if inPayload {
      sections := Bump(sections, 0, 1, 0);
    } else {
      stop := !Blank(line);
    }
  }

  /** The line loop of `parse_legacy_diff_boundary`. */
  method ScanLegacy(lines: seq<string>, p: Patterns) returns (sections: seq<Section>, parsedEnd: nat)
    ensures var s := AfterOld(lines, p).state;
            s.kept <= |lines| && sections == s.sections && parsedEnd == EndOf(lines, s.kept)
  {
    hide After, AfterOld, ReadOld, EndOf, OldAt, At;
    KeptFits(lines, p);
    Ends(lines, p);
    var s := OLD_START;
    parsedEnd := 0;
    for i := 0 to |lines|
      invariant OldAt(lines, i, p) == Progress(s, false)
      invariant s.kept == i && parsedEnd == EndOf(lines, i)
    {
      ReadOldNext(lines, i, p);
      EndOfNext(lines, i);
      var stop, now, inPayload := ReadLegacyLine(lines[i], i + 1, p.legacy(lines[i]), p.looseTail, s);
      if stop { return s.sections, parsedEnd; }
      s := OldState(now, i + 1, inPayload);
      parsedEnd := parsedEnd + |lines[i]|;
    }
    return s.sections, parsedEnd;
  }

  /** `parse_edit_boundary`. */
  method ParseEditBoundary(text: string, p: Patterns) returns (b: Boundary)
    ensures b == Parse(text, p)
  {
    var lines := SplitLines(text);
    var sections, parsedEnd, missing := ScanHashlines(lines, p);
    if sections == [] && DashesAfterSpace(text) {
      var oldSections, oldEnd := ScanLegacy(lines, p);
      return Boundary(oldEnd > 0 && oldSections != [], oldEnd, false, oldSections);
    }
    b := Boundary(parsedEnd > 0 && sections != [], parsedEnd, missing, sections);
  }

  /** The second list is the first with the last section's open insert taken back. */
  predicate WithoutLastInsert(a: seq<Section>, b: seq<Section>) { b != [] && a == Bump(b, 1, 0, 0) }

  lemma HashlineReparse(text: string, p: Patterns)
    requires Parse(text, p).ok && !Falls(text, p)
    ensures var b := Parse(text, p);
            && b.end <= |text|
            && var c := Parse(text[..b.end], p);
               c.ok && c.end == b.end && !c.missing && if b.missing then WithoutLastInsert(b.sections, c.sections) else c.sections == b.sections
  {
    var lines := SplitLines(text);
    var s := After(lines, p.look).state;
    AcceptedPrefix(lines, p.look);
    SplitPrefix(text, s.kept);
    EndOfAgrees(lines, s.kept);
    var cut := text[..EndOf(lines, s.kept)];
    assert SplitLines(cut) == lines[..s.kept];
    hide After, SplitLines, EndOf, DashesAfterSpace;
  }

  lemma {:induction false} EndOfAgrees(lines: seq<string>, k: nat)
    requires k <= |lines|
    ensures EndOf(lines[..k], k) == EndOf(lines, k)
    decreases k
  {
    if k > 0 {
      EndOfAgrees(lines, k - 1);
      EndOfAgrees(lines[..k], k - 1);
      assert lines[..k][..k - 1] == lines[..k - 1];
    }
  }

  lemma LegacyReparse(text: string, p: Patterns)
    requires Parse(text, p).ok && Falls(text, p)
    ensures var b := Parse(text, p); b.end <= |text| && Parse(text[..b.end], p) == b
  {
    var lines := SplitLines(text);
    var s := AfterOld(lines, p).state;
    OldPrefix(lines, p);
    SplitPrefix(text, s.kept);
    EndOfAgrees(lines, s.kept);
    var cut := text[..EndOf(lines, s.kept)];
    assert SplitLines(cut) == lines[..s.kept];
    SectionsGrow(lines, s.kept, p.look);
    OldStartsWithDashes(lines[..s.kept], p);
    JoinSplit(cut);
    hide After, AfterOld, SplitLines, EndOf, DashesAfterSpace;
    assert Falls(cut, p);
  }

  function Ops(sections: seq<Section>): nat {
    if sections == [] then 0 else Ops(sections[..|sections| - 1]) + sections[|sections| - 1].ops
  }

  function Payload(sections: seq<Section>): nat {
    if sections == [] then 0 else Payload(sections[..|sections| - 1]) + sections[|sections| - 1].payload
  }

  function Deleted(sections: seq<Section>): nat {
    if sections == [] then 0 else Deleted(sections[..|sections| - 1]) + sections[|sections| - 1].deleted
  }

  function Files(sections: seq<Section>): seq<string> {
    if sections == [] then [] else Files(sections[..|sections| - 1]) + [sections[|sections| - 1].target]
  }

  lemma BumpTotals(b: seq<Section>)
    requires b != []
    ensures var a := Bump(b, 1, 0, 0);
            Files(a) == Files(b) && Payload(a) == Payload(b) && Deleted(a) == Deleted(b) && Ops(a) == Ops(b) + 1
  {
    var a, n := Bump(b, 1, 0, 0), |b| - 1;
    assert a[..n] == b[..n];
  }

  /**
   Parsing the accepted prefix of an accepted input again accepts all of it, with the same files, payload
   lines and deleted lines; it loses one operation exactly when the input ended in an insert without payload.
   */
  lemma AcceptedPrefixIsStable(text: string, p: Patterns)
    requires Parse(text, p).ok
    ensures var b := Parse(text, p);
            && b.end <= |text|
            && var c := Parse(text[..b.end], p);
               && c.ok && c.end == b.end && !c.missing
               && Files(c.sections) == Files(b.sections)
               && Payload(c.sections) == Payload(b.sections) && Deleted(c.sections) == Deleted(b.sections)
               && Ops(c.sections) + (if b.missing then 1 else 0) == Ops(b.sections)
  {
    if Falls(text, p) {
      LegacyReparse(text, p);
      LegacyComplete(text, p);
    } else {
      HashlineReparse(text, p);
      var c := Parse(text[..Parse(text, p).end], p);
      if Parse(text, p).missing { BumpTotals(c.sections); }
    }
  }

  lemma LegacyComplete(text: string, p: Patterns)
    requires Falls(text, p)
    ensures !Parse(text, p).missing
  {
  }

  // ---------------------------------------------------------------- sanitising

  datatype Signal = Signal(start: nat, end: nat)

  datatype Action = Allow | SanitizeTail | AbortReplay

  /** `action_for_tool` on an edit input. */
  function ActionFor(signals: seq<Signal>, b: Boundary): (r: Action)
    ensures r == SanitizeTail ==> b.ok && forall s <- signals :: b.end <= s.start
  {
    if signals == [] then Allow
    else if b.ok && forall s <- signals :: s.start >= b.end then SanitizeTail
    else AbortReplay
  }

  /** Signals found in a text lie inside it; otherwise detection is unconstrained. */
  type Detector = (string, Option<nat>) -> seq<Signal>

  ghost predicate Sound(detect: Detector) {
    forall text, end :: forall s <- detect(text, end) :: s.start < |text|
  }

  function Detected(text: string, detect: Detector, p: Patterns): seq<Signal> {
    var b := Parse(text, p);
    detect(text, if b.ok then Some(b.end) else None)
  }

  function Decide(text: string, detect: Detector, p: Patterns): Action { ActionFor(Detected(text, detect, p), Parse(text, p)) }

  lemma EndFits(text: string, p: Patterns)
    ensures Parse(text, p).end <= |text|
  {
    var lines := SplitLines(text);
    KeptFits(lines, p);
    SplitPrefix(text, After(lines, p.look).state.kept);
    SplitPrefix(text, AfterOld(lines, p).state.kept);
  }

  /** The text that is replayed: cut at the accepted end when the tail is sanitised. */
  function Cleaned(text: string, detect: Detector, p: Patterns): string {
    EndFits(text, p);
    if Decide(text, detect, p) == SanitizeTail then text[..Parse(text, p).end] else text
  }

  /**
   Exactly when a text is cut, and where: some signal was found and all of them start at or behind the end of an
   accepted edit, and then at that end. A text without signals is allowed, any other is refused.
   */
  lemma CutsExactly(text: string, detect: Detector, p: Patterns)
    ensures var found, b := Detected(text, detect, p), Parse(text, p);
            var tail := found != [] && b.ok && forall i :: 0 <= i < |found| ==> b.end <= found[i].start;
            && (Decide(text, detect, p) == Allow <==> found == [])
            && (Decide(text, detect, p) == AbortReplay <==> found != [] && !tail)
            && b.end <= |text| && Cleaned(text, detect, p) == if tail then text[..b.end] else text
  {
    hide Parse;
    EndFits(text, p);
    var found, b := Detected(text, detect, p), Parse(text, p);
    forall s <- found ensures exists i :: 0 <= i < |found| && found[i] == s { }
    assert forall i :: 0 <= i < |found| ==> found[i] in found;
  }

  /** An accepted end at the end of the text leaves no tail for a signal to be in. */
  lemma FoundInside(text: string, detect: Detector, p: Patterns)
    requires Sound(detect) && Parse(text, p).end == |text|
    ensures Decide(text, detect, p) != SanitizeTail
  {
    hide Parse;
    var found := Detected(text, detect, p);
    if found != [] { assert found[0] in found; }
  }

  /**
   Sanitising removes a suffix that holds every signal, keeps an accepted edit, and is done once: the
   cleaned text is never sanitised again and cleans to itself.
   */
  lemma SanitizingIsIdempotent(text: string, detect: Detector, p: Patterns)
    requires Sound(detect)
    ensures var clean := Cleaned(text, detect, p);
            && Cleaned(clean, detect, p) == clean
            && (Decide(text, detect, p) == SanitizeTail ==>
                  && Parse(clean, p).ok && Decide(clean, detect, p) != SanitizeTail
                  && forall s <- Detected(text, detect, p) :: |clean| <= s.start)
  {
    hide Parse;
    if Decide(text, detect, p) == SanitizeTail {
      AcceptedPrefixIsStable(text, p);
      var clean := text[..Parse(text, p).end];
      assert Parse(clean, p).end == |clean|;
      FoundInside(clean, detect, p);
    }
  }
}
