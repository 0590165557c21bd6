/**
 What the two edit boundary parsers report, without their state: every line gets a tag that is right next to
 the tags before it, and the boundary is read off the longest run of lines that can be tagged.
 */
module EditTags {
  import opened Outcomes
  import opened TextLines
  import opened EditBoundary

  // ---------------------------------------------------------------- tags of the hashline format

  /** `Skip` is a blank line before all content, `Gap` one between operations; `Replace` carries its deleted lines, `Body` is payload. */
  datatype Tag = Skip | Mark | Head(target: string) | Gap | Insert | Replace(deleted: nat) | Body

  predicate IsOperation(l: Tag) { l.Insert? || l.Replace? }

  predicate AllBlank(lines: seq<string>) { forall line <- lines :: Blank(line) }

  predicate HasHead(tags: seq<Tag>) { exists l <- tags :: l.Head? }

  /** Payload may follow: the line before is an operation or payload. */
  predicate TakesPayload(tags: seq<Tag>) {
    tags != [] && (IsOperation(tags[|tags| - 1]) || tags[|tags| - 1].Body?)
  }

  /** The line before is an insert, which must have payload. */
  predicate AwaitsPayload(tags: seq<Tag>) { tags != [] && tags[|tags| - 1].Insert? }

  /** `tag` is right for `line` after tagged lines. */
  predicate Right(before: seq<string>, tags: seq<Tag>, line: string, tag: Tag, look: Look) {
    if AllBlank(before) && Blank(line) then tag.Skip?
    else if look.begin || look.end then tag.Mark? && !AwaitsPayload(tags)
    else if look.header.Some? then tag == Head(look.header.value) && !AwaitsPayload(tags)
    else
      && HasHead(tags)
      && if TakesPayload(tags) && !Sigil(line) then tag.Body?
         else
           && !AwaitsPayload(tags)
           && match tag
              case Gap => Blank(line)
              case Insert => !Blank(line) && look.insert
              case Replace(n) => !Blank(line) && !look.insert && look.replace == Some(n)
              case _ => false
  }

  predicate Fits(lines: seq<string>, tags: seq<Tag>, look: string -> Look) {
    && |tags| == |lines|
    && forall i :: 0 <= i < |lines| ==> Right(lines[..i], tags[..i], lines[i], tags[i], look(lines[i]))
  }

  /** A section for each head, with the operations, payload lines and deleted lines up to the next one. */
  function SectionsOf(tags: seq<Tag>): seq<Section> {
    if tags == [] then [] else With(SectionsOf(tags[..|tags| - 1]), tags[|tags| - 1])
  }

  function With(so: seq<Section>, tag: Tag): seq<Section> {
    match tag
    case Head(target) => so + [Section(target, 0, 0, 0)]
    case Insert => Add(so, 1, 0, 0)
    case Replace(deleted) => Add(so, 1, 0, deleted)
    case Body => Add(so, 0, 1, 0)
    case _ => so
  }

  /** Adds to the counts of the last section. */
  function Add(so: seq<Section>, ops: nat, payload: nat, deleted: nat): seq<Section> {
    if so == [] then []
    else
      var last := so[|so| - 1];
      so[..|so| - 1] + [Section(last.target, last.ops + ops, last.payload + payload, last.deleted + deleted)]
  }

  // ---------------------------------------------------------------- the machine follows the tags

  /** The machine's state after lines with these labels. */
  predicate Agrees(s: State, lines: seq<string>, tags: seq<Tag>) {
    && s.sections == SectionsOf(tags) && (s.sections != [] <==> HasHead(tags))
    && (s.seen <==> !AllBlank(lines)) && s.allowed == TakesPayload(tags) && Pending(s) == AwaitsPayload(tags)
    && s.kept == |lines| - (if AwaitsPayload(tags) then 1 else 0) && (!s.seen ==> !s.allowed && !Pending(s) && s.sections == [])
  }

  lemma AddIsBump(so: seq<Section>, ops: nat, payload: nat, deleted: nat)
    requires so != []
    ensures Add(so, ops, payload, deleted) == Bump(so, ops, payload, deleted)
  {
  }

  lemma SnocFacts(lines: seq<string>, tags: seq<Tag>, line: string, tag: Tag)
    ensures AllBlank(lines + [line]) <==> AllBlank(lines) && Blank(line)
    ensures HasHead(tags + [tag]) <==> HasHead(tags) || tag.Head?
    ensures TakesPayload(tags + [tag]) <==> IsOperation(tag) || tag.Body?
    ensures AwaitsPayload(tags + [tag]) <==> tag.Insert?
    ensures SectionsOf(tags + [tag]) == With(SectionsOf(tags), tag)
  {
    hide Blank, With;
    var all := tags + [tag];
    assert all[..|all| - 1] == tags;
    assert forall l :: l in all <==> l in tags || l == tag;
    assert forall l :: l in lines + [line] <==> l in lines || l == line;
  }

  /** A right tag and the machine's step agree. */
  lemma TaggedStep(s: State, lines: seq<string>, tags: seq<Tag>, line: string, tag: Tag, look: Look)
    requires Agrees(s, lines, tags) && Right(lines, tags, line, tag, look)
    ensures Read(s, line, |lines| + 1, look).Next?
    ensures Agrees(Read(s, line, |lines| + 1, look).state, lines + [line], tags + [tag])
  {
    SnocFacts(lines, tags, line, tag);
    hide Blank, Sigil, SectionsOf, HasHead, AllBlank, TakesPayload, AwaitsPayload, Add, Bump;
    if s.sections != [] {
      AddIsBump(s.sections, 1, 0, 0);
      AddIsBump(s.sections, 0, 1, 0);
      if tag.Replace? { AddIsBump(s.sections, 1, 0, tag.deleted); }
    }
  }

  /** A line the machine reads has a right tag. */
  lemma StepIsTagged(s: State, lines: seq<string>, tags: seq<Tag>, line: string, look: Look) returns (tag: Tag)
    requires Agrees(s, lines, tags) && Read(s, line, |lines| + 1, look).Next?
    ensures Right(lines, tags, line, tag, look)
  {
    hide Blank, Sigil, SectionsOf, HasHead, AllBlank, TakesPayload, AwaitsPayload, Bump;
    var open := Pending(s);
    if !s.seen && Blank(line) { return Skip; }
    if look.begin || look.end { return Mark; }
    if look.header.Some? { return Head(look.header.value); }
    assert s.sections != [];
    if s.allowed && !Sigil(line) { return Body; }
    assert !open;
    if Blank(line) { return Gap; }
    if look.insert { return Insert; }
    return Replace(look.replace.value);
  }

  lemma FitsInit(lines: seq<string>, tags: seq<Tag>, look: string -> Look)
    requires lines != [] && |tags| == |lines|
    ensures var n := |lines| - 1;
            Fits(lines, tags, look) <==> Fits(lines[..n], tags[..n], look) && Right(lines[..n], tags[..n], lines[n], tags[n], look(lines[n]))
  {
    hide Right;
    var n := |lines| - 1;
    var init, first := lines[..n], tags[..n];
    forall i | 0 <= i < n ensures init[..i] == lines[..i] && first[..i] == tags[..i] && init[i] == lines[i] && first[i] == tags[i] { }
  }

  /** Tagged lines are read to their end, with the counts of their tags. */
  lemma {:induction false} TaggedRun(lines: seq<string>, tags: seq<Tag>, look: string -> Look)
    requires Fits(lines, tags, look)
    ensures !After(lines, look).done && Agrees(After(lines, look).state, lines, tags)
  {
    if lines == [] {
      assert tags == [];
    } else {
      var n := |lines| - 1;
      FitsInit(lines, tags, look);
      hide Fits, Right, Agrees, Read;
      TaggedRun(lines[..n], tags[..n], look);
      TaggedStep(After(lines[..n], look).state, lines[..n], tags[..n], lines[n], tags[n], look(lines[n]));
      assert lines[..n] + [lines[n]] == lines && tags[..n] + [tags[n]] == tags;
    }
  }

  lemma {:induction false} RunIsTagged(lines: seq<string>, look: string -> Look) returns (tags: seq<Tag>)
    requires !After(lines, look).done
    ensures Fits(lines, tags, look)
  {
    tags := [];
    if lines != [] {
      hide Right, Agrees, Read, Fits;
      var n := |lines| - 1;
      var init := RunIsTagged(lines[..n], look);
      TaggedRun(lines[..n], init, look);
      var tag := StepIsTagged(After(lines[..n], look).state, lines[..n], init, lines[n], look(lines[n]));
      tags := init + [tag];
      SameLength(lines[..n], init, look);
      assert tags[..n] == init;
      FitsInit(lines, tags, look);
    }
  }

  lemma SameLength(lines: seq<string>, tags: seq<Tag>, look: string -> Look)
    requires Fits(lines, tags, look)
    ensures |tags| == |lines|
  {
  }

  // ---------------------------------------------------------------- the boundary

  /** The tags fit the first lines, and no more lines than these can be tagged. */
  ghost predicate Longest(lines: seq<string>, tags: seq<Tag>, look: string -> Look) {
    && |tags| <= |lines| && Fits(lines[..|tags|], tags, look)
    && forall j, more :: |tags| < j <= |lines| ==> !Fits(lines[..j], more, look)
  }

  lemma {:induction false} LongestExists(lines: seq<string>, look: string -> Look) returns (tags: seq<Tag>)
    ensures Longest(lines, tags, look)
    decreases |lines|
  {
    assert lines[..|lines|] == lines;
    if !After(lines, look).done {
      tags := RunIsTagged(lines, look);
      SameLength(lines, tags, look);
    } else {
      var n := |lines| - 1;
      tags := LongestExists(lines[..n], look);
      assert lines[..n][..|tags|] == lines[..|tags|];
      forall j, more | |tags| < j <= |lines| ensures !Fits(lines[..j], more, look) {
        if j == |lines| {
          if Fits(lines, more, look) { TaggedRun(lines, more, look); }
        } else {
          assert lines[..j] == lines[..n][..j];
        }
      }
    }
  }

  /** The machine stops where the tags end. */
  lemma StopsAfterLongest(lines: seq<string>, tags: seq<Tag>, look: string -> Look)
    requires Longest(lines, tags, look)
    ensures Agrees(After(lines, look).state, lines[..|tags|], tags)
  {
    hide Agrees, Fits, Read;
    var m := |tags|;
    TaggedRun(lines[..m], tags, look);
    if m < |lines| {
      var next := lines[..m + 1];
      assert next[..m] == lines[..m];
      if !After(next, look).done {
        var more := RunIsTagged(next, look);
      }
      StoppedStays(lines, m + 1, look);
    } else {
      assert lines[..m] == lines;
    }
  }

  /**
   The boundary of every text. Of the longest run of lines that can be tagged, the end is that of the last line,
   or of the line before a final insert that still awaits payload; the sections count the tagged operations,
   payload lines and deleted lines. Without any section, text that starts with dashes goes to the legacy parser.
   */
  lemma BoundaryExactly(text: string, p: Patterns, tags: seq<Tag>)
    requires Longest(SplitLines(text), tags, p.look)
    ensures Falls(text, p) <==> !HasHead(tags) && DashesAfterSpace(text)
    ensures !Falls(text, p) ==>
            var k := |tags| - (if AwaitsPayload(tags) then 1 else 0);
            Parse(text, p) == Boundary(k > 0 && HasHead(tags), EndOf(SplitLines(text), k), AwaitsPayload(tags), SectionsOf(tags))
  {
    hide After, SplitLines, EndOf, DashesAfterSpace, Fits, SectionsOf, HasHead, TakesPayload, AllBlank;
    var lines := SplitLines(text);
    StopsAfterLongest(lines, tags, p.look);
    KeptFits(lines, p);
    EndOfPositive(lines, |tags| - (if AwaitsPayload(tags) then 1 else 0));
  }

  /** A text all of whose lines can be tagged, with a section and without an open insert, is accepted to its end. */
  lemma TaggedTextIsAccepted(text: string, p: Patterns, tags: seq<Tag>)
    requires Fits(SplitLines(text), tags, p.look) && HasHead(tags) && !AwaitsPayload(tags)
    ensures Parse(text, p) == Boundary(true, |text|, false, SectionsOf(tags))
  {
    hide *;
    WholeIsLongest(SplitLines(text), tags, p.look);
    BoundaryExactly(text, p, tags);
    SameLength(SplitLines(text), tags, p.look);
    EndOfAll(text);
    assert tags != [] by { HeadIsSome(tags); }
  }

  lemma HeadIsSome(tags: seq<Tag>)
    requires HasHead(tags)
    ensures tags != []
  {
  }

  lemma WholeIsLongest(lines: seq<string>, tags: seq<Tag>, look: string -> Look)
    requires Fits(lines, tags, look)
    ensures Longest(lines, tags, look)
  {
    SameLength(lines, tags, look);
    hide Fits;
    assert lines[..|lines|] == lines;
  }

  // ---------------------------------------------------------------- totals

  function Operations(tags: seq<Tag>): nat {
    if tags == [] then 0 else Operations(tags[..|tags| - 1]) + if IsOperation(tags[|tags| - 1]) then 1 else 0
  }

  function PayloadLines(tags: seq<Tag>): nat {
    if tags == [] then 0 else PayloadLines(tags[..|tags| - 1]) + if tags[|tags| - 1].Body? then 1 else 0
  }

  function DeletedLines(tags: seq<Tag>): nat {
    if tags == [] then 0 else DeletedLines(tags[..|tags| - 1]) + if tags[|tags| - 1].Replace? then tags[|tags| - 1].deleted else 0
  }

  function Targets(tags: seq<Tag>): seq<string> {
    if tags == [] then [] else Targets(tags[..|tags| - 1]) + if tags[|tags| - 1].Head? then [tags[|tags| - 1].target] else []
  }

  lemma AddTotals(so: seq<Section>, ops: nat, payload: nat, deleted: nat)
    requires so != []
    ensures var a := Add(so, ops, payload, deleted);
            && Ops(a) == Ops(so) + ops && Payload(a) == Payload(so) + payload
            && Deleted(a) == Deleted(so) + deleted && Files(a) == Files(so)
  {
    var a := Add(so, ops, payload, deleted);
    assert a[..|a| - 1] == so[..|so| - 1];
  }

  lemma HeadTotals(so: seq<Section>, target: string)
    ensures var a := so + [Section(target, 0, 0, 0)];
            && Ops(a) == Ops(so) && Payload(a) == Payload(so) && Deleted(a) == Deleted(so) && Files(a) == Files(so) + [target]
  {
    var a := so + [Section(target, 0, 0, 0)];
    assert a[..|a| - 1] == so;
  }

  lemma WithTotals(so: seq<Section>, tag: Tag)
    requires so != [] || tag.Head? || tag.Skip? || tag.Mark?
    ensures var a := With(so, tag);
            && Ops(a) == Ops(so) + (if IsOperation(tag) then 1 else 0) && Payload(a) == Payload(so) + (if tag.Body? then 1 else 0)
            && Deleted(a) == Deleted(so) + (if tag.Replace? then tag.deleted else 0)
            && Files(a) == Files(so) + if tag.Head? then [tag.target] else []
  {
    hide Ops, Payload, Deleted, Files, Add;
    if tag.Head? {
      HeadTotals(so, tag.target);
    } else if so != [] {
      AddTotals(so, 1, 0, 0);
      AddTotals(so, 0, 1, 0);
      if tag.Replace? { AddTotals(so, 1, 0, tag.deleted); }
      assert Files(so) + [] == Files(so);
    }
  }

  /** In tagged lines every operation, payload line and deleted line is counted once, and every head is a file. */
  lemma {:induction false} TotalsExactly(lines: seq<string>, tags: seq<Tag>, look: string -> Look)
    requires Fits(lines, tags, look)
    ensures var so := SectionsOf(tags);
            && Ops(so) == Operations(tags) && Payload(so) == PayloadLines(tags)
            && Deleted(so) == DeletedLines(tags) && Files(so) == Targets(tags)
  {
    if tags != [] {
      var n := |tags| - 1;
      CountsSnoc(tags);
      hide *;
      SameLength(lines, tags, look);
      FitsInit(lines, tags, look);
      TotalsExactly(lines[..n], tags[..n], look);
      CountsAfterHead(lines[..n], tags[..n], lines[n], tags[n], look);
      SectionsSnoc(tags);
      WithTotals(SectionsOf(tags[..n]), tags[n]);
    }
  }

  lemma CountsSnoc(tags: seq<Tag>)
    requires tags != []
    ensures var init, tag := tags[..|tags| - 1], tags[|tags| - 1];
            && Operations(tags) == Operations(init) + (if IsOperation(tag) then 1 else 0)
            && PayloadLines(tags) == PayloadLines(init) + (if tag.Body? then 1 else 0)
            && DeletedLines(tags) == DeletedLines(init) + (if tag.Replace? then tag.deleted else 0)
            && Targets(tags) == Targets(init) + if tag.Head? then [tag.target] else []
  {
  }

  lemma CountsAfterHead(lines: seq<string>, tags: seq<Tag>, line: string, tag: Tag, look: string -> Look)
    requires Fits(lines, tags, look) && Right(lines, tags, line, tag, look(line))
    ensures SectionsOf(tags) != [] || tag.Head? || tag.Skip? || tag.Mark?
  {
    hide After, SectionsOf, Fits, HasHead, AllBlank, TakesPayload, Sigil, Blank;
    TaggedRun(lines, tags, look);
  }

  lemma SectionsSnoc(tags: seq<Tag>)
    requires tags != []
    ensures SectionsOf(tags) == With(SectionsOf(tags[..|tags| - 1]), tags[|tags| - 1])
  {
  }
}
