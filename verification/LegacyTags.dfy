/** What the legacy edit parser reports, without its state: the same reading of tags for the older format. */
module LegacyTags {
  import opened Outcomes
  import opened TextLines
  import opened EditBoundary
  import EditTags

  // ---------------------------------------------------------------- tags of the legacy format

  /**
   `Mark` is a "+++" line and `Hunk` an "@@" line; a replacement carries the lines it swaps out, if it does, and
   whether it has payload on its own line.
   */
  datatype Tag =
    | Skip | Head(target: string) | Mark | Hunk | Delete(lines: nat) | Replace(swapped: nat, inline: bool)
    | Added | Removed | Context | Raw | Gap

  predicate HasHead(tags: seq<Tag>) { exists t <- tags :: t.Head? }

  predicate IsOperation(t: Tag) { t.Hunk? || t.Delete? || t.Replace? }

  /** The section at the end has an operation. */
  predicate HasOperation(tags: seq<Tag>) {
    tags != [] && (IsOperation(tags[|tags| - 1]) || (!tags[|tags| - 1].Head? && HasOperation(tags[..|tags| - 1])))
  }

  /** Payload may follow: the line before opened it or is payload itself. */
  predicate TakesPayload(tags: seq<Tag>) {
    && tags != []
    && var t := tags[|tags| - 1];
       t.Hunk? || t.Replace? || t.Added? || t.Removed? || t.Context? || t.Raw?
  }

  function Swapped(r: OldReplace): nat { if r.swaps then r.lines else 0 }

  /** `tag` is right for `line` after tagged lines. */
  predicate Right(tags: seq<Tag>, line: string, tag: Tag, look: OldLook, looseTail: bool) {
    && !(looseTail && look.marker && HasHead(tags) && HasOperation(tags))
    && if StartsWith(line, "---") then look.target != "" && tag == Head(look.target)
       else if !HasHead(tags) then Blank(line) && tag.Skip?
       else if StartsWith(line, "+++") then tag.Mark?
       else if StartsWith(line, "@@") then tag.Hunk?
       else if look.delete.Some? then tag == Delete(look.delete.value)
       else if look.replace.Some? then tag == Replace(Swapped(look.replace.value), look.replace.value.tail)
       else if StartsWith(line, "+") then tag.Added?
       else if TakesPayload(tags) then
         if StartsWith(line, "-") then tag.Removed?
         else if StartsWith(line, " ") || StartsWith(line, "\\") then tag.Context?
         else tag.Raw?
       else Blank(line) && tag.Gap?
  }

  predicate Fits(lines: seq<string>, tags: seq<Tag>, p: Patterns) {
    && |tags| == |lines|
    && forall i :: 0 <= i < |lines| ==> Right(tags[..i], lines[i], tags[i], p.legacy(lines[i]), p.looseTail)
  }

  /** A section for each head, with the operations, payload lines and deleted lines up to the next one. */
  function SectionsOf(tags: seq<Tag>): seq<Section> {
    if tags == [] then [] else With(SectionsOf(tags[..|tags| - 1]), tags[|tags| - 1])
  }

  function With(so: seq<Section>, tag: Tag): seq<Section> {
    match tag
    case Head(target) => so + [Section(target, 0, 0, 0)]
    case Hunk => EditTags.Add(so, 1, 0, 0)
    case Delete(lines) => EditTags.Add(so, 1, 0, lines)
    case Replace(swapped, inline) => EditTags.Add(so, 1, if inline then 1 else 0, swapped)
    case Added => EditTags.Add(so, 0, 1, 0)
    case Raw => EditTags.Add(so, 0, 1, 0)
    case Removed => EditTags.Add(so, 0, 0, 1)
    case _ => so
  }

  // ---------------------------------------------------------------- the machine follows the tags

  predicate Agrees(s: OldState, tags: seq<Tag>) {
    && s.sections == SectionsOf(tags) && (s.sections != [] <==> HasHead(tags)) && s.kept == |tags|
    && s.inPayload == TakesPayload(tags)
    && (s.sections != [] ==> (s.sections[|s.sections| - 1].ops > 0 <==> HasOperation(tags)))
    && (s.sections == [] ==> !s.inPayload)
  }

  lemma SnocFacts(tags: seq<Tag>, tag: Tag)
    ensures HasHead(tags + [tag]) <==> HasHead(tags) || tag.Head?
    ensures TakesPayload(tags + [tag]) <==> tag.Hunk? || tag.Replace? || tag.Added? || tag.Removed? || tag.Context? || tag.Raw?
    ensures HasOperation(tags + [tag]) <==> IsOperation(tag) || (!tag.Head? && HasOperation(tags))
    ensures SectionsOf(tags + [tag]) == With(SectionsOf(tags), tag)
  {
    hide With;
    var all := tags + [tag];
    assert all[..|all| - 1] == tags;
    assert forall t :: t in all <==> t in tags || t == tag;
  }

  lemma BumpLast(so: seq<Section>, ops: nat, payload: nat, deleted: nat)
    requires so != []
    ensures var b := Bump(so, ops, payload, deleted);
            b != [] && b == EditTags.Add(so, ops, payload, deleted) && b[|b| - 1].ops == so[|so| - 1].ops + ops
  {
    EditTags.AddIsBump(so, ops, payload, deleted);
  }

  /** A right tag and the machine's step agree. */
  lemma TaggedStep(s: OldState, tags: seq<Tag>, line: string, tag: Tag, look: OldLook, looseTail: bool)
    requires Agrees(s, tags) && Right(tags, line, tag, look, looseTail)
    ensures ReadOld(s, line, |tags| + 1, look, looseTail).Next?
    ensures Agrees(ReadOld(s, line, |tags| + 1, look, looseTail).state, tags + [tag])
  {
    SnocFacts(tags, tag);
    hide Blank, StartsWith, SectionsOf, HasHead, HasOperation, TakesPayload, Bump, EditTags.Add;
    if s.sections != [] {
      var so := s.sections;
      match tag
      case Hunk => BumpLast(so, 1, 0, 0);
      case Delete(n) => BumpLast(so, 1, 0, n);
      case Replace(swapped, inline) => BumpLast(so, 1, if inline then 1 else 0, swapped);
      case Added => BumpLast(so, 0, 1, 0);
      case Raw => BumpLast(so, 0, 1, 0);
      case Removed => BumpLast(so, 0, 0, 1);
      case Context => BumpLast(so, 0, 0, 0); AddNothing(so);
      case _ =>
    }
  }

  lemma AddNothing(so: seq<Section>)
    requires so != []
    ensures EditTags.Add(so, 0, 0, 0) == so
  {
  }

  /** A line the machine reads has a right tag. */
  lemma StepIsTagged(s: OldState, tags: seq<Tag>, line: string, look: OldLook, looseTail: bool) returns (tag: Tag)
    requires Agrees(s, tags) && ReadOld(s, line, |tags| + 1, look, looseTail).Next?
    ensures Right(tags, line, tag, look, looseTail)
  {
    hide Blank, StartsWith, SectionsOf, HasHead, HasOperation, TakesPayload, Bump;
    if StartsWith(line, "---") { return Head(look.target); }
    if s.sections == [] { return Skip; }
    if StartsWith(line, "+++") { return Mark; }
    if StartsWith(line, "@@") { return Hunk; }
    if look.delete.Some? { return Delete(look.delete.value); }
    if look.replace.Some? { return Replace(Swapped(look.replace.value), look.replace.value.tail); }
    if StartsWith(line, "+") { return Added; }
    if s.inPayload {
      if StartsWith(line, "-") { return Removed; }
      if StartsWith(line, " ") || StartsWith(line, "\\") { return Context; }
      return Raw;
    }
    return Gap;
  }

  lemma FitsInit(lines: seq<string>, tags: seq<Tag>, p: Patterns)
    requires lines != [] && |tags| == |lines|
    ensures var n := |lines| - 1;
            Fits(lines, tags, p) <==> Fits(lines[..n], tags[..n], p) && Right(tags[..n], lines[n], tags[n], p.legacy(lines[n]), p.looseTail)
  {
    hide Right;
    var n := |lines| - 1;
    var init, first := lines[..n], tags[..n];
    forall i | 0 <= i < n ensures first[..i] == tags[..i] && init[i] == lines[i] && first[i] == tags[i] { }
  }

  lemma NothingRead(p: Patterns)
    ensures AfterOld([], p) == Progress(OLD_START, false) && Agrees(OLD_START, [])
  {
  }

  lemma RunSnoc(lines: seq<string>, p: Patterns)
    requires lines != [] && !AfterOld(lines[..|lines| - 1], p).done
    ensures var n, s := |lines| - 1, AfterOld(lines[..|lines| - 1], p).state;
            var step := ReadOld(s, lines[n], |lines|, p.legacy(lines[n]), p.looseTail);
            AfterOld(lines, p) == if step.Next? then Progress(step.state, false) else Progress(s, true)
  {
    hide ReadOld;
  }

  /** Tagged lines are read to their end, with the counts of their tags. */
  lemma {:induction false} TaggedRun(lines: seq<string>, tags: seq<Tag>, p: Patterns)
    requires Fits(lines, tags, p)
    ensures !AfterOld(lines, p).done && Agrees(AfterOld(lines, p).state, tags)
  {
    SameLength(lines, tags, p);
    hide *;
    if lines == [] {
      NothingRead(p);
      assert tags == [];
    } else {
      var n := |lines| - 1;
      FitsInit(lines, tags, p);
      TaggedRun(lines[..n], tags[..n], p);
      TaggedNext(lines, tags, p);
    }
  }

  lemma TaggedNext(lines: seq<string>, tags: seq<Tag>, p: Patterns)
    requires lines != [] && |tags| == |lines|
    requires var n := |lines| - 1;
             && !AfterOld(lines[..n], p).done && Agrees(AfterOld(lines[..n], p).state, tags[..n])
             && Right(tags[..n], lines[n], tags[n], p.legacy(lines[n]), p.looseTail)
    ensures !AfterOld(lines, p).done && Agrees(AfterOld(lines, p).state, tags)
  {
    hide *;
    var n := |lines| - 1;
    var init, s := tags[..n], AfterOld(lines[..n], p).state;
    assert |init| + 1 == |lines| && init + [tags[n]] == tags;
    RunSnoc(lines, p);
    TaggedStep(s, init, lines[n], tags[n], p.legacy(lines[n]), p.looseTail);
  }

  lemma {:induction false} RunIsTagged(lines: seq<string>, p: Patterns) returns (tags: seq<Tag>)
    requires !AfterOld(lines, p).done
    ensures Fits(lines, tags, p)
  {
    tags := [];
    if lines != [] {
      hide Right, Agrees, ReadOld, Fits;
      var n := |lines| - 1;
      var init := RunIsTagged(lines[..n], p);
      TaggedRun(lines[..n], init, p);
      SameLength(lines[..n], init, p);
      var tag := StepIsTagged(AfterOld(lines[..n], p).state, init, lines[n], p.legacy(lines[n]), p.looseTail);
      tags := init + [tag];
      assert tags[..n] == init;
      FitsInit(lines, tags, p);
    }
  }

  lemma SameLength(lines: seq<string>, tags: seq<Tag>, p: Patterns)
    requires Fits(lines, tags, p)
    ensures |tags| == |lines|
  {
  }

  // ---------------------------------------------------------------- the boundary

  /** The tags fit the first lines, and no more lines than these can be tagged. */
  ghost predicate Longest(lines: seq<string>, tags: seq<Tag>, p: Patterns) {
    && |tags| <= |lines| && Fits(lines[..|tags|], tags, p)
    && forall j, more :: |tags| < j <= |lines| ==> !Fits(lines[..j], more, p)
  }

  lemma {:induction false} LongestExists(lines: seq<string>, p: Patterns) returns (tags: seq<Tag>)
    ensures Longest(lines, tags, p)
    decreases |lines|
  {
    assert lines[..|lines|] == lines;
    if !AfterOld(lines, p).done {
      tags := RunIsTagged(lines, p);
      SameLength(lines, tags, p);
    } else {
      var n := |lines| - 1;
      tags := LongestExists(lines[..n], p);
      assert lines[..n][..|tags|] == lines[..|tags|];
      forall j, more | |tags| < j <= |lines| ensures !Fits(lines[..j], more, p) {
        if j == |lines| {
          if Fits(lines, more, p) { TaggedRun(lines, more, p); }
        } else {
          assert lines[..j] == lines[..n][..j];
        }
      }
    }
  }

  /** The machine stops where the tags end. */
  lemma StopsAfterLongest(lines: seq<string>, tags: seq<Tag>, p: Patterns)
    requires Longest(lines, tags, p)
    ensures Agrees(AfterOld(lines, p).state, tags)
  {
    hide Agrees, Fits, ReadOld;
    var m := |tags|;
    TaggedRun(lines[..m], tags, p);
    if m < |lines| {
      var next := lines[..m + 1];
      assert next[..m] == lines[..m];
      if !AfterOld(next, p).done {
        var more := RunIsTagged(next, p);
      }
      OldStoppedStays(lines, m + 1, p);
    } else {
      assert lines[..m] == lines;
    }
  }

  /**
   The boundary of every text the legacy parser gets: the end of the longest run of lines that can be tagged, and
   the sections their tags count.
   */
  lemma BoundaryExactly(text: string, p: Patterns, tags: seq<Tag>)
    requires Falls(text, p) && Longest(SplitLines(text), tags, p)
    ensures Parse(text, p) == Boundary(HasHead(tags), EndOf(SplitLines(text), |tags|), false, SectionsOf(tags))
  {
    hide After, SplitLines, EndOf, DashesAfterSpace, Fits, SectionsOf, HasHead, HasOperation, TakesPayload, Falls;
    var lines := SplitLines(text);
    StopsAfterLongest(lines, tags, p);
    KeptFits(lines, p);
    EndOfPositive(lines, |tags|);
    if HasHead(tags) { HeadIsSome(tags); }
  }

  lemma HeadIsSome(tags: seq<Tag>)
    requires HasHead(tags)
    ensures tags != []
  {
  }
}
