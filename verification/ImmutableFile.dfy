/**
 The write-once file protocol as a state machine: every writer creates its own temporary file, fills
 it chunk by chunk, claims the destination with a hard link, and on EEXIST reads the destination and
 compares. Writers interleave freely and may fail or crash between any two steps.
 */
module ImmutableFile {
  import opened Outcomes
  import opened Utf8

  type Writer = nat
  type Inode = nat

  datatype Phase =
    | Idle
    | Writing(inode: Inode, written: nat)  // temporary file open
    | Closed(inode: Inode)                 // temporary file complete, about to link
    | Reading(inode: Inode, got: Bytes)    // link reported EEXIST, reading the destination
    | Cleaning(inode: Inode, ok: bool)     // about to remove the temporary name
    | Done(ok: bool)
    | Left(ok: bool)                       // removing the temporary name failed: an error, whatever came before
    | Crashed(named: bool)

  datatype Disk = Disk(inodes: map<Inode, Bytes>, dest: Option<Inode>, temps: map<Writer, Inode>)

  datatype State = State(disk: Disk, phases: map<Writer, Phase>)

  datatype Action =
    | Open(w: Writer, inode: Inode)
    | OpenFails(w: Writer)
    | Write(w: Writer, count: nat)
    | WriteFails(w: Writer)
    | Close(w: Writer)
    | Link(w: Writer)
    | LinkFails(w: Writer)
    | Read(w: Writer, count: nat)
    | ReadFails(w: Writer)
    | Compare(w: Writer)
    | Remove(w: Writer)
    | RemoveFails(w: Writer)
    | Crash(w: Writer)

  /** Bytes each writer was asked to store. */
  type Jobs = map<Writer, Bytes>

  function Init(jobs: Jobs): State {
    State(Disk(map[], None, map[]), map w | w in jobs :: Idle)
  }

  function DestBytes(d: Disk): Option<Bytes> {
    if d.dest.Some? && d.dest.value in d.inodes then Some(d.inodes[d.dest.value]) else None
  }

  function Goto(s: State, w: Writer, p: Phase): State { s.(phases := s.phases[w := p]) }

  /** The call has returned or thrown. */
  predicate Finished(p: Phase) { p.Done? || p.Left? }

  /** The writer's temporary name exists. */
  predicate HasName(p: Phase) { p.Writing? || p.Closed? || p.Reading? || p.Cleaning? || p.Left? || (p.Crashed? && p.named) }

  predicate Enabled(jobs: Jobs, s: State, a: Action) {
    && a.w in jobs && a.w in s.phases
    && var p := s.phases[a.w];
       match a
       case Open(_, inode) => p.Idle? && inode !in s.disk.inodes
       case OpenFails(_) => p.Idle?
       case Write(w, count) => p.Writing? && p.inode in s.disk.inodes && p.written + count <= |jobs[w]|
       case WriteFails(_) => p.Writing?
       case Close(w) => p.Writing? && p.written == |jobs[w]|
       case Link(_) => p.Closed?
       case LinkFails(_) => p.Closed?
       case Read(_, count) => p.Reading? && DestBytes(s.disk).Some? && |p.got| + count <= |DestBytes(s.disk).value|
       case ReadFails(_) => p.Reading?
       case Compare(_) => p.Reading? && DestBytes(s.disk).Some? && |p.got| == |DestBytes(s.disk).value|
       case Remove(_) => p.Cleaning?
       case RemoveFails(_) => p.Cleaning?
       case Crash(_) => !Finished(p) && !p.Crashed?
  }

  function Apply(jobs: Jobs, s: State, a: Action): State
    requires Enabled(jobs, s, a)
  {
    var d, p := s.disk, s.phases[a.w];
    match a
    case Open(w, inode) =>
      Goto(s.(disk := d.(inodes := d.inodes[inode := []], temps := d.temps[w := inode])), w, Writing(inode, 0))
    case OpenFails(w) => Goto(s, w, Done(false))
    case Write(w, count) =>
      var chunk := jobs[w][p.written..p.written + count];
      Goto(s.(disk := d.(inodes := d.inodes[p.inode := d.inodes[p.inode] + chunk])), w, Writing(p.inode, p.written + count))
    case WriteFails(w) => Goto(s, w, Cleaning(p.inode, false))
    case Close(w) => Goto(s, w, Closed(p.inode))
    case Link(w) =>
      if d.dest.None? then Goto(s.(disk := d.(dest := Some(p.inode))), w, Cleaning(p.inode, true))
      else Goto(s, w, Reading(p.inode, []))
    case LinkFails(w) => Goto(s, w, Cleaning(p.inode, false))
    case Read(w, count) =>
      Goto(s, w, Reading(p.inode, p.got + DestBytes(d).value[|p.got|..|p.got| + count]))
    case ReadFails(w) => Goto(s, w, Cleaning(p.inode, false))
    case Compare(w) => Goto(s, w, Cleaning(p.inode, p.got == jobs[w]))
    case Remove(w) => Goto(s.(disk := d.(temps := d.temps - {w})), w, Done(p.ok))
    case RemoveFails(w) => Goto(s, w, Left(p.ok))
    case Crash(w) => Goto(s, w, Crashed(HasName(p)))
  }

  /** The state after a run of actions, or None when some action was not enabled. */
  function Run(jobs: Jobs, s: State, acts: seq<Action>): Option<State>
    decreases |acts|
  {
    if acts == [] then Some(s)
    else if !Enabled(jobs, s, acts[0]) then None
    else Run(jobs, Apply(jobs, s, acts[0]), acts[1..])
  }

  // ---------------------------------------------------------------- the invariant

  ghost predicate PhaseOk(job: Bytes, d: Disk, p: Phase) {
    match p
    case Writing(i, n) => n <= |job| && i in d.inodes && d.inodes[i] == job[..n] && d.dest != Some(i)
    case Closed(i) => i in d.inodes && d.inodes[i] == job && d.dest != Some(i)
    case Reading(_, got) => DestBytes(d).Some? && got <= DestBytes(d).value
    case Cleaning(_, ok) => ok ==> DestBytes(d) == Some(job)
    case Done(ok) => ok ==> DestBytes(d) == Some(job)
    case Left(ok) => ok ==> DestBytes(d) == Some(job)
    case _ => true
  }

  predicate Holds(p: Phase, i: Inode) { (p.Writing? || p.Closed?) && p.inode == i }

  ghost predicate Inv(jobs: Jobs, s: State) {
    && s.phases.Keys == jobs.Keys
    && (forall w <- jobs :: PhaseOk(jobs[w], s.disk, s.phases[w]))
    && (forall v <- jobs, w <- jobs, i: Inode :: Holds(s.phases[v], i) && Holds(s.phases[w], i) ==> v == w)
    && (s.disk.dest.Some? ==> s.disk.dest.value in s.disk.inodes && exists w <- jobs :: s.disk.inodes[s.disk.dest.value] == jobs[w])
    && (forall w <- jobs :: w in s.disk.temps <==> HasName(s.phases[w]))
  }

  lemma InitInv(jobs: Jobs)
    ensures Inv(jobs, Init(jobs))
  {
  }

  /** The files on disk change only by a new inode, or by the acting writer's own temporary. */
  lemma StepDisk(jobs: Jobs, s: State, a: Action)
    requires Inv(jobs, s) && Enabled(jobs, s, a)
    ensures var d, d' := s.disk, Apply(jobs, s, a).disk;
            && (forall i <- d.inodes :: i in d'.inodes && (d'.inodes[i] == d.inodes[i] || Holds(s.phases[a.w], i)))
            && (d.dest.Some? ==> d'.dest == d.dest && DestBytes(d').Some? && DestBytes(d') == DestBytes(d))
            && (d'.dest != d.dest ==> d'.dest.Some? && Holds(s.phases[a.w], d'.dest.value) && d'.inodes == d.inodes)
  {
    assert PhaseOk(jobs[a.w], s.disk, s.phases[a.w]);
  }

  /** The acting writer's own phase stays right. */
  lemma StepActor(jobs: Jobs, s: State, a: Action)
    requires Inv(jobs, s) && Enabled(jobs, s, a)
    ensures PhaseOk(jobs[a.w], Apply(jobs, s, a).disk, Apply(jobs, s, a).phases[a.w])
  {
    assert PhaseOk(jobs[a.w], s.disk, s.phases[a.w]);
    match a
    case Write(w, count) =>
      var n := s.phases[w].written;
      assert jobs[w][..n] + jobs[w][n..n + count] == jobs[w][..n + count];
    case Close(w) =>
      assert jobs[w][..|jobs[w]|] == jobs[w];
    case Read(w, count) =>
      var b, n := DestBytes(s.disk).value, |s.phases[w].got|;
      assert b[..n] + b[n..n + count] == b[..n + count];
    case Compare(w) =>
      var b, got := DestBytes(s.disk).value, s.phases[w].got;
      assert got == b[..|b|] == b;
    case _ =>
  }

  /** Every other writer's phase stays right. */
  lemma StepOther(jobs: Jobs, s: State, a: Action, v: Writer)
    requires Inv(jobs, s) && Enabled(jobs, s, a) && v in jobs && v != a.w
    ensures Apply(jobs, s, a).phases[v] == s.phases[v]
    ensures PhaseOk(jobs[v], Apply(jobs, s, a).disk, s.phases[v])
  {
    StepDisk(jobs, s, a);
    assert PhaseOk(jobs[v], s.disk, s.phases[v]);
    var p := s.phases[v];
    if p.Writing? || p.Closed? { assert Holds(p, p.inode); }
  }

  /** No two writers hold the same inode open. */
  lemma StepHolds(jobs: Jobs, s: State, a: Action, v: Writer, w: Writer, i: Inode)
    requires Inv(jobs, s) && Enabled(jobs, s, a) && v in jobs && w in jobs
    requires Holds(Apply(jobs, s, a).phases[v], i) && Holds(Apply(jobs, s, a).phases[w], i)
    ensures v == w
  {
    assert PhaseOk(jobs[v], s.disk, s.phases[v]) && PhaseOk(jobs[w], s.disk, s.phases[w]);
    assert a.Open? || (Holds(s.phases[v], i) && Holds(s.phases[w], i));
  }

  /** Temporary names come and go with the phases. */
  lemma StepNames(jobs: Jobs, s: State, a: Action, w: Writer)
    requires Inv(jobs, s) && Enabled(jobs, s, a) && w in jobs
    ensures Apply(jobs, s, a).phases.Keys == jobs.Keys
    ensures w in Apply(jobs, s, a).disk.temps <==> HasName(Apply(jobs, s, a).phases[w])
  {
    hide PhaseOk;
  }

  /** What is linked is a complete file. */
  lemma StepDest(jobs: Jobs, s: State, a: Action)
    requires Inv(jobs, s) && Enabled(jobs, s, a)
    ensures var d' := Apply(jobs, s, a).disk;
            d'.dest.Some? ==> d'.dest.value in d'.inodes && exists w <- jobs :: d'.inodes[d'.dest.value] == jobs[w]
  {
    StepDisk(jobs, s, a);
    assert PhaseOk(jobs[a.w], s.disk, s.phases[a.w]);
    var s' := Apply(jobs, s, a);
    if a.Link? && s.disk.dest.None? { assert s'.disk.inodes[s'.disk.dest.value] == jobs[a.w]; }
  }

  /** Every step keeps the invariant and never changes a destination that exists. */
  lemma StepKeeps(jobs: Jobs, s: State, a: Action)
    requires Inv(jobs, s) && Enabled(jobs, s, a)
    ensures Inv(jobs, Apply(jobs, s, a))
    ensures DestBytes(s.disk).Some? ==> DestBytes(Apply(jobs, s, a).disk) == DestBytes(s.disk)
  {
    var s' := Apply(jobs, s, a);
    StepNames(jobs, s, a, a.w);
    StepDisk(jobs, s, a);
    StepDest(jobs, s, a);
    hide Apply, PhaseOk, Holds, HasName;
    forall w <- jobs ensures PhaseOk(jobs[w], s'.disk, s'.phases[w]) {
      if w == a.w { StepActor(jobs, s, a); } else { StepOther(jobs, s, a, w); }
    }
    forall w <- jobs ensures w in s'.disk.temps <==> HasName(s'.phases[w]) { StepNames(jobs, s, a, w); }
    forall v <- jobs, w <- jobs, i: Inode | Holds(s'.phases[v], i) && Holds(s'.phases[w], i) ensures v == w {
      StepHolds(jobs, s, a, v, w, i);
    }
  }

  lemma {:induction false} RunKeeps(jobs: Jobs, s: State, acts: seq<Action>)
    requires Inv(jobs, s) && Run(jobs, s, acts).Some?
    ensures var s' := Run(jobs, s, acts).value;
            Inv(jobs, s') && (DestBytes(s.disk).Some? ==> DestBytes(s'.disk) == DestBytes(s.disk))
    decreases |acts|
  {
    hide Inv, Enabled, Apply;
    if acts != [] {
      StepKeeps(jobs, s, acts[0]);
      RunKeeps(jobs, Apply(jobs, s, acts[0]), acts[1..]);
    }
  }

  // ---------------------------------------------------------------- main results

  ghost predicate Reachable(jobs: Jobs, s: State) {
    exists acts :: Run(jobs, Init(jobs), acts) == Some(s)
  }

  lemma ReachableInv(jobs: Jobs, s: State)
    requires Reachable(jobs, s)
    ensures Inv(jobs, s)
  {
    var acts :| Run(jobs, Init(jobs), acts) == Some(s);
    InitInv(jobs);
    RunKeeps(jobs, Init(jobs), acts);
  }

  /** In every reachable state the destination is absent or holds one writer's complete bytes. */
  lemma DestinationIsComplete(jobs: Jobs, s: State)
    requires Reachable(jobs, s)
    ensures DestBytes(s.disk).None? <==> s.disk.dest.None?
    ensures DestBytes(s.disk).Some? ==> exists w <- jobs :: DestBytes(s.disk).value == jobs[w]
  {
    ReachableInv(jobs, s);
  }

  /** Once the destination has appeared, no continuation of the run changes it. */
  lemma DestinationNeverChanges(jobs: Jobs, s: State, acts: seq<Action>)
    requires Reachable(jobs, s) && DestBytes(s.disk).Some? && Run(jobs, s, acts).Some?
    ensures DestBytes(Run(jobs, s, acts).value.disk) == DestBytes(s.disk)
  {
    ReachableInv(jobs, s);
    RunKeeps(jobs, s, acts);
  }

  /** A writer that succeeded finds its own bytes there; so any two that succeeded had equal bytes. */
  lemma SuccessesAgree(jobs: Jobs, s: State, v: Writer, w: Writer)
    requires Reachable(jobs, s) && v in s.phases && w in s.phases
    requires s.phases[v] == Done(true) && s.phases[w] == Done(true)
    ensures v in jobs && w in jobs && DestBytes(s.disk) == Some(jobs[v]) && jobs[v] == jobs[w]
  {
    ReachableInv(jobs, s);
    assert PhaseOk(jobs[v], s.disk, s.phases[v]) && PhaseOk(jobs[w], s.disk, s.phases[w]);
  }

  /** The comparison after EEXIST reads the whole destination, and refuses exactly on different bytes. */
  lemma CompareIsExact(jobs: Jobs, s: State, w: Writer)
    requires Reachable(jobs, s) && Enabled(jobs, s, Compare(w))
    ensures Apply(jobs, s, Compare(w)).phases[w].ok <==> DestBytes(s.disk) == Some(jobs[w])
  {
    ReachableInv(jobs, s);
    assert PhaseOk(jobs[w], s.disk, s.phases[w]);
    var b, got := DestBytes(s.disk).value, s.phases[w].got;
    assert got == b[..|b|] == b;
  }

  /**
   Exactly the writers whose last step failed leave a temporary name: a finished writer has none if and only
   if its removal did not throw, so none that succeeded has one; a crashed one has it once it was opened.
   */
  lemma NamesLeftExactly(jobs: Jobs, s: State, w: Writer)
    requires Reachable(jobs, s) && w in s.phases
    ensures Finished(s.phases[w]) ==> (w in s.disk.temps <==> s.phases[w].Left?)
    ensures s.phases[w] == Done(true) ==> w !in s.disk.temps
    ensures s.phases[w].Crashed? ==> (w in s.disk.temps <==> s.phases[w].named)
  {
    ReachableInv(jobs, s);
  }

  /** A writer can fail at the very end: its link stood, its removal threw, and the destination holds its bytes. */
  lemma FailedWriterMayHavePublished(jobs: Jobs, w: Writer)
    requires w in jobs
    ensures exists s :: Reachable(jobs, s) && w in s.phases && s.phases[w] == Left(true) && DestBytes(s.disk) == Some(jobs[w]) && w in s.disk.temps
  {
    var n := |jobs[w]|;
    var s0 := Init(jobs);
    var s1 := Apply(jobs, s0, Open(w, 0));
    var s2 := Apply(jobs, s1, Write(w, n));
    var s3 := Apply(jobs, s2, Close(w));
    var s4 := Apply(jobs, s3, Link(w));
    var s5 := Apply(jobs, s4, RemoveFails(w));
    assert [] + jobs[w][0..n] == jobs[w];
    hide Enabled, Apply;
    Runs(jobs, s4, RemoveFails(w), []);
    Runs(jobs, s3, Link(w), [RemoveFails(w)]);
    Runs(jobs, s2, Close(w), [Link(w), RemoveFails(w)]);
    Runs(jobs, s1, Write(w, n), [Close(w), Link(w), RemoveFails(w)]);
    Runs(jobs, s0, Open(w, 0), [Write(w, n), Close(w), Link(w), RemoveFails(w)]);
    assert Reachable(jobs, s5);
  }

  lemma Runs(jobs: Jobs, s: State, a: Action, rest: seq<Action>)
    requires Enabled(jobs, s, a)
    ensures Run(jobs, s, [a] + rest) == Run(jobs, Apply(jobs, s, a), rest)
    ensures Run(jobs, s, []) == Some(s) && Run(jobs, Apply(jobs, s, a), []) == Some(Apply(jobs, s, a))
  {
    hide Enabled, Apply;
    assert ([a] + rest)[1..] == rest;
  }

  /** Steps a writer has left when nothing fails. */
  function Remaining(jobs: Jobs, s: State, w: Writer): nat
    requires w in jobs && w in s.phases
  {
    match s.phases[w]
    case Idle => 6
    case Writing(_, n) => if n < |jobs[w]| then 5 else 4
    case Closed(_) => 3
    case Reading(_, got) => if DestBytes(s.disk).Some? && |got| < |DestBytes(s.disk).value| then 2 else 1
    case Cleaning(_, _) => 0
    case _ => 0
  }

  /**
   No writer waits for another: in every reachable state a writer that is neither finished nor
   crashed has a step of its own that brings it closer to the end, whatever the others are doing.
   */
  lemma WritersNeverWait(jobs: Jobs, s: State, w: Writer)
    requires Reachable(jobs, s) && w in s.phases && !Finished(s.phases[w]) && !s.phases[w].Crashed?
    ensures w in jobs && exists a :: Advances(jobs, s, w, a)
  {
    ReachableInv(jobs, s);
    assert PhaseOk(jobs[w], s.disk, s.phases[w]);
    hide Inv, Reachable, PhaseOk;
    CanAdvance(jobs, s, w);
  }

  ghost predicate Advances(jobs: Jobs, s: State, w: Writer, a: Action)
    requires w in jobs && w in s.phases
  {
    && a.w == w && !a.Crash? && Enabled(jobs, s, a)
    && (Apply(jobs, s, a).phases[w].Done? || Remaining(jobs, Apply(jobs, s, a), w) < Remaining(jobs, s, w))
  }

  /** The next step of a writer when nothing fails. */
  ghost function NextAction(jobs: Jobs, s: State, w: Writer): Action
    requires w in jobs && w in s.phases && PhaseOk(jobs[w], s.disk, s.phases[w])
  {
    match s.phases[w]
    case Idle => Open(w, Above(s.disk.inodes.Keys))
    case Writing(_, n) => if n < |jobs[w]| then Write(w, |jobs[w]| - n) else Close(w)
    case Closed(_) => Link(w)
    case Reading(_, got) => if |got| < |DestBytes(s.disk).value| then Read(w, |DestBytes(s.disk).value| - |got|) else Compare(w)
    case _ => Remove(w)
  }

  lemma CanAdvance(jobs: Jobs, s: State, w: Writer)
    requires w in jobs && w in s.phases && PhaseOk(jobs[w], s.disk, s.phases[w])
    requires !Finished(s.phases[w]) && !s.phases[w].Crashed?
    ensures exists a :: Advances(jobs, s, w, a)
  {
    assert Advances(jobs, s, w, NextAction(jobs, s, w));
  }

  /** The writer is on its way, nothing of it has failed, and the destination does not hold other bytes. */
  ghost predicate OnCourse(jobs: Jobs, s: State, w: Writer) {
    && w in jobs && w in s.phases && !Finished(s.phases[w]) && !s.phases[w].Crashed?
    && (s.phases[w].Cleaning? ==> s.phases[w].ok)
    && (DestBytes(s.disk).None? || DestBytes(s.disk) == Some(jobs[w]))
  }

  lemma NextEnabled(jobs: Jobs, s: State, w: Writer)
    requires OnCourse(jobs, s, w) && PhaseOk(jobs[w], s.disk, s.phases[w])
    ensures var a := NextAction(jobs, s, w); a.w == w && Enabled(jobs, s, a)
  {
  }

  lemma NextOnCourse(jobs: Jobs, s: State, w: Writer)
    requires OnCourse(jobs, s, w) && PhaseOk(jobs[w], s.disk, s.phases[w]) && Enabled(jobs, s, NextAction(jobs, s, w))
    requires var t := Apply(jobs, s, NextAction(jobs, s, w));
             && (DestBytes(s.disk).Some? ==> DestBytes(t.disk) == DestBytes(s.disk))
             && w in t.phases && PhaseOk(jobs[w], t.disk, t.phases[w])
    ensures var t := Apply(jobs, s, NextAction(jobs, s, w));
            if s.phases[w].Cleaning? then t.phases[w] == Done(true)
            else OnCourse(jobs, t, w) && Remaining(jobs, t, w) < Remaining(jobs, s, w)
  {
    hide Enabled;
  }

  lemma CourseStep(jobs: Jobs, s: State, w: Writer) returns (a: Action)
    requires Inv(jobs, s) && OnCourse(jobs, s, w)
    ensures a.w == w && Enabled(jobs, s, a)
    ensures var t := Apply(jobs, s, a);
            w in t.phases && if s.phases[w].Cleaning? then t.phases[w] == Done(true) else OnCourse(jobs, t, w) && Remaining(jobs, t, w) < Remaining(jobs, s, w)
  {
    assert PhaseOk(jobs[w], s.disk, s.phases[w]);
    a := NextAction(jobs, s, w);
    NextEnabled(jobs, s, w);
    StepDisk(jobs, s, a);
    StepActor(jobs, s, a);
    StepNames(jobs, s, a, w);
    hide Inv, Enabled, Apply, OnCourse, Remaining, PhaseOk, NextAction;
    NextOnCourse(jobs, s, w);
  }

  lemma {:induction false} CourseEnds(jobs: Jobs, s: State, w: Writer) returns (acts: seq<Action>)
    requires Inv(jobs, s) && OnCourse(jobs, s, w)
    ensures Alone(acts, w) && Run(jobs, s, acts).Some?
    ensures w in Run(jobs, s, acts).value.phases && Run(jobs, s, acts).value.phases[w] == Done(true)
    decreases Remaining(jobs, s, w)
  {
    var a := CourseStep(jobs, s, w);
    StepKeeps(jobs, s, a);
    hide Inv, Enabled, Apply, OnCourse, Remaining;
    var t := Apply(jobs, s, a);
    if s.phases[w].Cleaning? {
      acts := [a] + [];
      Runs(jobs, s, a, []);
    } else {
      var rest := CourseEnds(jobs, t, w);
      acts := [a] + rest;
      Runs(jobs, s, a, rest);
    }
  }

  predicate Alone(acts: seq<Action>, w: Writer) { forall i :: 0 <= i < |acts| ==> acts[i].w == w }

  /** The writer can succeed from here by steps of its own. */
  ghost predicate CanSucceed(jobs: Jobs, s: State, w: Writer) {
    exists acts :: Alone(acts, w) && Run(jobs, s, acts).Some?
                   && w in Run(jobs, s, acts).value.phases && Run(jobs, s, acts).value.phases[w] == Done(true)
  }

  /** A writer that has not started can succeed on its own exactly when the destination is absent or already holds its bytes. */
  lemma SucceedsExactly(jobs: Jobs, s: State, w: Writer)
    requires Reachable(jobs, s) && w in jobs && w in s.phases && s.phases[w].Idle?
    ensures CanSucceed(jobs, s, w) <==> DestBytes(s.disk).None? || DestBytes(s.disk) == Some(jobs[w])
  {
    ReachableInv(jobs, s);
    if DestBytes(s.disk).None? || DestBytes(s.disk) == Some(jobs[w]) { var acts := CourseEnds(jobs, s, w); }
    if CanSucceed(jobs, s, w) {
      var acts :| Alone(acts, w) && Run(jobs, s, acts).Some?
                  && w in Run(jobs, s, acts).value.phases && Run(jobs, s, acts).value.phases[w] == Done(true);
      RunKeeps(jobs, s, acts);
      var t := Run(jobs, s, acts).value;
      assert PhaseOk(jobs[w], t.disk, t.phases[w]);
    }
  }

  ghost function Above(s: set<Inode>): (n: Inode)
    ensures forall x <- s :: x < n
  {
    if s == {} then 0
    else
      var x :| x in s;
      var rest := Above(s - {x});
      assert forall y <- s :: y == x || y in s - {x};
      if rest > x then rest else x + 1
  }
}
