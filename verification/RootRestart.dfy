/**
 * Halting root shells (kernel/syscall.c). A root shell frees its pid, enables interrupts, and only
 * then asks for a pid for the shell that replaces it. Its scheduler flag is never cleared, so from
 * then on the halted shell is a ghost: scheduled, but not live. Everything else goes on meanwhile,
 * other root shells halting included.
 */
module RootRestart {
  import opened Sequences
  import opened Scheduler
  import opened Processes

  // ----- the transition system with root halts -----

  /** The kernel state, and the root shells that have halted and not been replaced under their own pid. */
  datatype World = World(s: State, gone: set<nat>)

  datatype Move = Do(e: Event) | HaltRoot

  /** Halt of a root shell up to the point where interrupts are enabled again. */
  function FreeRoot(s: State): State
    requires Sized(s.t)
  {
    s.(t := FreePid(s.t, s.t.running))
  }

  /** The event makes pid `p` a process, taking over the PCB and the kernel stack of that pid. */
  predicate Commits(e: Event, p: nat) { Concludes(e, p) && e.loaded }

  /**
   * A root shell halts from user mode. Halting moves its stack pointer over its saved user context, so
   * from then on it is followed in the kernel only: it starts a shell, for itself or for the keyboard,
   * but executes no program and does not halt again.
   */
  ghost predicate Allowed(w: World, m: Move) {
    Sized(w.s.t) && (w.gone != {} ==> w.s.t.running != 0) &&
    match m
    case HaltRoot => w.s.t.running != 0 && w.s.t.running !in w.gone && w.s.t.parent[w.s.t.running] == None && Idle(w.s)
    case Do(e) => Enabled(w.s, e) && !(e.BeginExecute? && w.s.t.running in w.gone)
  }

  /** The allocations in flight for `r`, other than of `r` itself, have nobody left to conclude them. */
  function Orphaned(s: State, r: nat): State {
    s.(pending := map q | q in s.pending ::
         if s.pending[q].ByShell? && s.pending[q].owner == r && q != r then ByShell(0, s.pending[q].term)
         else s.pending[q])
  }

  /** A commit to the pid of a halted shell ends what that shell was still doing. */
  ghost function After(w: World, m: Move): World
    requires Allowed(w, m)
  {
    match m
    case HaltRoot => World(FreeRoot(w.s), w.gone + {w.s.t.running})
    case Do(e) =>
      if (e.EndExecute? || e.EndShell?) && e.loaded && e.pid in w.gone then
        OrphanedEnabled(w.s, e, e.pid);
        World(Step(Orphaned(w.s, e.pid), e), w.gone - {e.pid})
      else World(Step(w.s, e), w.gone)
  }

  lemma OrphanedEnabled(s: State, e: Event, r: nat)
    requires Enabled(s, e) && Commits(e, r) && s.t.running != 0
    ensures Enabled(Orphaned(s, r), e)
  {
  }

  ghost predicate IsCourse(w: World, ms: seq<Move>)
    decreases |ms|
  {
    ms == [] || (Allowed(w, ms[0]) && IsCourse(After(w, ms[0]), ms[1..]))
  }

  ghost function Course(w: World, ms: seq<Move>): World
    requires IsCourse(w, ms)
    decreases |ms|
  {
    if ms == [] then w else Course(After(w, ms[0]), ms[1..])
  }

  // ----- the haunted tables -----

  /** The flags with all of `g` set. */
  function Marked(inUse: seq<bool>, g: set<nat>): (r: seq<bool>)
    ensures |r| == |inUse| && forall i: nat :: i < |r| ==> r[i] == (inUse[i] || i in g)
  {
    seq(|inUse|, i requires 0 <= i < |inUse| => inUse[i] || i in g)
  }

  /** The state as it would be had the ghosts neither been freed nor handed out again. */
  function Mark(s: State, g: set<nat>): State {
    s.(t := s.t.(inUse := Marked(s.t.inUse, g)), pending := s.pending - g)
  }

  /** `r` is scheduled and not live; if it is being handed out again, then to a scheduled process or to nobody. */
  ghost predicate Ghost(s: State, r: nat)
    requires Sized(s.t)
  {
    && 1 <= r < MAX_PID && s.t.sched[r] && s.t.parent[r] == None && (s.t.inUse[r] <==> r in s.pending)
    && (r in s.pending ==> HeldBy(s, s.pending[r]))
    && forall q :: q in s.pending ==> s.pending[q] != ByExecute(r)
  }

  ghost predicate HeldBy(s: State, o: Origin)
    requires Sized(s.t)
  {
    && ((o.ByShell? && o.owner == 0) || (o.owner < MAX_PID && s.t.sched[o.owner]))
    && (o.ByShell? ==> o.term < NR_TERM)
  }

  /** Nothing is wrong but the ghosts. */
  ghost predicate Haunted(w: World) {
    Sized(w.s.t) && (forall r :: r in w.gone ==> Ghost(w.s, r)) && Represented(Mark(w.s, w.gone))
  }

  lemma ScheduledIsLive(s: State, cs: seq<Chain>, p: nat)
    requires Represents(s, cs) && p < MAX_PID && s.t.sched[p]
    ensures 1 <= p && Live(s, p)
  {
    LiveIsMember(s, cs, p);
    var i :| Top(cs, i, p);
    assert At(cs, i, |cs[i].pids| - 1, p);
  }

  /** The ghosts are exactly the scheduled pids that are not live. */
  lemma GhostsAre(w: World, r: nat)
    requires Haunted(w) && r < MAX_PID
    ensures r in w.gone <==> w.s.t.sched[r] && !Live(w.s, r)
  {
    var cs: seq<Chain> :| Represents(Mark(w.s, w.gone), cs);
    if w.s.t.sched[r] { ScheduledIsLive(Mark(w.s, w.gone), cs, r); }
  }

  lemma RunningScheduled(w: World)
    requires Haunted(w) && (w.s.t.running != 0 || w.gone != {})
    ensures w.s.t.running != 0 && w.s.t.sched[w.s.t.running]
  {
    var cs: seq<Chain> :| Represents(Mark(w.s, w.gone), cs);
    if w.gone != {} {
      var r :| r in w.gone;
      assert Ghost(w.s, r);
      var i :| Top(cs, i, r);
      assert cs != [];
    }
  }

  lemma UnmarkedSame(s: State)
    ensures Mark(s, {}) == s
  {
    assert Marked(s.t.inUse, {}) == s.t.inUse;
    assert s.pending - {} == s.pending;
  }

  /** With nothing wrong but ghosts, the tables represent chains exactly when every scheduled pid is live. */
  lemma HauntedIff(w: World)
    requires Haunted(w)
    ensures Represented(w.s) <==> forall r: nat :: r < MAX_PID && w.s.t.sched[r] ==> Live(w.s, r)
    ensures Represented(w.s) <==> w.gone == {}
  {
    if w.gone == {} {
      UnmarkedSame(w.s);
    } else {
      var r :| r in w.gone;
      assert Ghost(w.s, r);
      GhostsAre(w, r);
    }
    if Represented(w.s) {
      var cs: seq<Chain> :| Represents(w.s, cs);
      forall r: nat | r < MAX_PID && w.s.t.sched[r] ensures Live(w.s, r) { ScheduledIsLive(w.s, cs, r); }
    }
  }

  // ----- moves that lay no ghost -----

  lemma LowestFreeMarked(inUse: seq<bool>, g: set<nat>)
    requires 1 <= |inUse| && (LowestFree(inUse, 1).Some? ==> LowestFree(inUse, 1).value !in g)
    ensures LowestFree(Marked(inUse, g), 1) == LowestFree(inUse, 1)
  {
  }

  lemma AllocateMarked(s: State, o: Origin, g: set<nat>)
    requires Sized(s.t)
    ensures Mark(Allocate(s, o), g) ==
            if LowestFree(s.t.inUse, 1).Some? && LowestFree(s.t.inUse, 1).value in g then Mark(s, g)
            else Allocate(Mark(s, g), o)
  {
    match LowestFree(s.t.inUse, 1)
    case None => LowestFreeMarked(s.t.inUse, g);
    case Some(q) =>
      if q in g {
        assert Marked(s.t.inUse[q := true], g) == Marked(s.t.inUse, g);
        assert s.pending[q := o] - g == s.pending - g;
      } else {
        LowestFreeMarked(s.t.inUse, g);
        assert Marked(s.t.inUse[q := true], g) == Marked(s.t.inUse, g)[q := true];
        assert s.pending[q := o] - g == (s.pending - g)[q := o];
      }
  }

  lemma StepRepresented(s: State, e: Event)
    requires Represented(s) && Enabled(s, e)
    ensures Represented(Step(s, e))
  {
    var cs :| Represents(s, cs);
    StepKeeps(s, cs, e);
  }

  lemma AllocateRepresented(s: State, o: Origin, g: set<nat>, started: set<nat>)
    requires Sized(s.t) && Represented(Mark(s, g))
    requires o.owner == s.t.running && (o.ByExecute? ==> s.t.running != 0) && (o.ByShell? ==> o.term < NR_TERM)
    ensures Represented(Mark(Allocate(s, o), g).(started := started))
  {
    AllocateMarked(s, o, g);
    var cs: seq<Chain> :| Represents(Mark(s, g), cs);
    assert Represents(Mark(s, g).(started := started), cs);
    AllocateKeeps(Mark(s, g), cs, o);
    assert Represents(Allocate(Mark(s, g), o).(started := started), cs);
  }

  /** An event that neither allocates nor concludes a ghost does to the marked state what it does to the real one. */
  lemma MarkCommutes(s: State, e: Event, g: set<nat>)
    requires Sized(s.t) && Enabled(s, e) && !e.BeginExecute? && !e.BeginShell?
    requires forall r :: r in g ==> !Concludes(e, r) && !(e.Halt? && s.t.running == r)
    ensures Enabled(Mark(s, g), e) && Mark(Step(s, e), g) == Step(Mark(s, g), e)
  {
    match e
    case EndExecute(q, loaded) =>
      assert Concludes(e, q);
      assert s.pending - {q} - g == s.pending - g - {q};
      if !loaded { assert Marked(s.t.inUse[q := false], g) == Marked(s.t.inUse, g)[q := false]; }
    case EndShell(q, loaded) =>
      assert Concludes(e, q);
      assert s.pending - {q} - g == s.pending - g - {q};
      if !loaded { assert Marked(s.t.inUse[q := false], g) == Marked(s.t.inUse, g)[q := false]; }
    case Halt =>
      assert Marked(s.t.inUse[s.t.running := false], g) == Marked(s.t.inUse, g)[s.t.running := false];
    case Tick =>
  }

  /** Giving up a ghost's pid again changes nothing about the marked state. */
  lemma AbortMarked(s: State, e: Event, g: set<nat>, r: nat)
    requires Sized(s.t) && Enabled(s, e) && r in g && Concludes(e, r) && !e.loaded
    ensures Mark(Step(s, e), g) == Mark(s, g)
  {
    assert Marked(s.t.inUse[r := false], g) == Marked(s.t.inUse, g);
    assert s.pending - {r} - g == s.pending - g;
  }

  /** The event commits nobody to a ghost's pid. */
  ghost predicate LaysNone(w: World, e: Event) {
    forall r :: r in w.gone ==> !Commits(e, r)
  }

  lemma StepMarked(w: World, e: Event)
    requires Haunted(w) && Allowed(w, Do(e)) && LaysNone(w, e)
    ensures Represented(Mark(Step(w.s, e), w.gone))
  {
    if e.BeginExecute? {
      AllocateRepresented(w.s, ByExecute(w.s.t.running), w.gone, w.s.started);
    } else if e.BeginShell? {
      AllocateRepresented(w.s, ByShell(w.s.t.running, e.term), w.gone, w.s.started + {e.term});
    } else if r :| r in w.gone && Concludes(e, r) {
      AbortMarked(w.s, e, w.gone, r);
    } else {
      forall r | r in w.gone ensures !(e.Halt? && w.s.t.running == r) { assert Ghost(w.s, r); }
      MarkCommutes(w.s, e, w.gone);
      StepRepresented(Mark(w.s, w.gone), e);
    }
  }

  lemma StepGhostTables(w: World, e: Event, r: nat)
    requires Haunted(w) && Allowed(w, Do(e)) && LaysNone(w, e) && r in w.gone
    ensures var s' := Step(w.s, e);
            1 <= r < MAX_PID && s'.t.sched[r] && s'.t.parent[r] == None && (s'.t.inUse[r] <==> r in s'.pending)
  {
    assert Ghost(w.s, r) && !Commits(e, r);
  }

  lemma StepGhostPending(w: World, e: Event, r: nat)
    requires Haunted(w) && Allowed(w, Do(e)) && LaysNone(w, e) && r in w.gone
    ensures var s' := Step(w.s, e);
            && (r in s'.pending ==> HeldBy(s', s'.pending[r]))
            && forall q :: q in s'.pending ==> s'.pending[q] != ByExecute(r)
  {
    assert Ghost(w.s, r) && !Commits(e, r);
    RunningScheduled(w);
  }

  lemma StepGhost(w: World, e: Event, r: nat)
    requires Haunted(w) && Allowed(w, Do(e)) && LaysNone(w, e) && r in w.gone
    ensures Ghost(Step(w.s, e), r)
  {
    StepGhostTables(w, e, r);
    StepGhostPending(w, e, r);
  }

  lemma HaltRootHaunts(w: World)
    requires Haunted(w) && Allowed(w, HaltRoot)
    ensures Haunted(After(w, HaltRoot))
  {
    var p, w' := w.s.t.running, After(w, HaltRoot);
    RunningScheduled(w);
    GhostsAre(w, p);
    assert Live(w.s, p);
    assert Marked(w'.s.t.inUse, w'.gone) == Marked(w.s.t.inUse, w.gone);
    assert w'.s.pending - w'.gone == w.s.pending - w.gone;
    forall r | r in w'.gone ensures Ghost(w'.s, r) {
      if r != p { assert Ghost(w.s, r); }
    }
  }

  // ----- commits to a ghost's pid -----

  function Drop(cs: seq<Chain>, k: nat): seq<Chain>
    requires k < |cs|
  {
    cs[..k] + cs[k + 1..]
  }

  lemma DropAt(cs: seq<Chain>, k: nat, i: int, j: int, r: nat)
    requires k < |cs|
    ensures At(Drop(cs, k), i, j, r) <==> At(cs, if i < k then i else i + 1, j, r)
    ensures Top(Drop(cs, k), i, r) <==> Top(cs, if i < k then i else i + 1, r)
  {
  }

  /** Dropping a chain of one drops its process and nothing else. */
  lemma DropMembers(cs: seq<Chain>, k: nat, p: nat, r: nat)
    requires Shape(cs) && k < |cs| && cs[k].pids == [p]
    ensures Member(Drop(cs, k), r) <==> Member(cs, r) && r != p
    ensures IsTop(Drop(cs, k), r) <==> IsTop(cs, r) && r != p
  {
    assert At(cs, k, 0, p);
    if Member(cs, r) && r != p {
      var i, j :| At(cs, i, j, r);
      DropAt(cs, k, if i < k then i else i - 1, j, r);
    }
    if IsTop(cs, r) && r != p {
      var i :| Top(cs, i, r);
      DropAt(cs, k, if i < k then i else i - 1, 0, r);
    }
    if Member(Drop(cs, k), r) {
      var i, j :| At(Drop(cs, k), i, j, r);
      DropAt(cs, k, i, j, r);
    }
    if IsTop(Drop(cs, k), r) {
      var i :| Top(Drop(cs, k), i, r);
      DropAt(cs, k, i, 0, r);
      assert At(cs, if i < k then i else i + 1, |cs[if i < k then i else i + 1].pids| - 1, r);
    }
  }

  lemma DropShape(t: Tables, cs: seq<Chain>, k: nat)
    requires Sized(t) && Shape(cs) && Linked(t, cs) && k < |cs|
    ensures Shape(Drop(cs, k)) && Linked(t, Drop(cs, k))
  {
    forall i, j, r: nat | At(Drop(cs, k), i, j, r) ensures At(cs, if i < k then i else i + 1, j, r) {
      DropAt(cs, k, i, j, r);
    }
  }

  /** A root shell that is scheduled is alone in its chain. */
  lemma RootAlone(s: State, cs: seq<Chain>, p: nat) returns (k: nat)
    requires Represents(s, cs) && 1 <= p < MAX_PID && s.t.sched[p] && s.t.parent[p] == None
    ensures k < |cs| && cs[k].pids == [p]
  {
    var i :| Top(cs, i, p);
    k := i;
    assert At(cs, k, |cs[k].pids| - 1, p);
  }

  /** The state with `r` taken off the schedule. */
  function Laid(s: State, r: nat): State
    requires r < |s.t.sched|
  {
    s.(t := s.t.(sched := s.t.sched[r := false]))
  }

  /** The state in which a commit to `r` happens, the other ghosts marked. */
  function Before(w: World, r: nat): State {
    Mark(Orphaned(w.s, r), w.gone - {r})
  }

  /** It differs from the marked state in the allocation of `r`, and in the orphans. */
  lemma BeforeIs(w: World, r: nat)
    requires Haunted(w) && r in w.gone && r in w.s.pending
    ensures var m, m0 := Before(w, r), Mark(w.s, w.gone);
            && m.t == m0.t && m.pending.Keys == m0.pending.Keys + {r} && m.pending[r] == w.s.pending[r]
            && forall q :: q in m0.pending ==>
                 m.pending[q] == if m0.pending[q].ByShell? && m0.pending[q].owner == r
                                 then ByShell(0, m0.pending[q].term) else m0.pending[q]
  {
    assert Ghost(w.s, r);
    assert Marked(w.s.t.inUse, w.gone - {r}) == Marked(w.s.t.inUse, w.gone);
  }

  lemma LaidScheduled(t: Tables, cs: seq<Chain>, k: nat, r: nat)
    requires Sized(t) && Shape(cs) && Scheduled(t, cs) && k < |cs| && cs[k].pids == [r] && r < MAX_PID
    requires t.running != r
    ensures Scheduled(t.(sched := t.sched[r := false]), Drop(cs, k))
  {
    assert At(cs, k, 0, r);
    forall x: nat ensures IsTop(Drop(cs, k), x) <==> IsTop(cs, x) && x != r { DropMembers(cs, k, r, x); }
  }

  /** The accounts after `r` has left the chains for the allocations, its own allocations orphaned. */
  lemma AccountedWithout(m0: State, m: State, cs: seq<Chain>, cs': seq<Chain>, r: nat)
    requires Sized(m0.t) && Sized(m.t) && Accounted(m0, cs) && m.t.inUse == m0.t.inUse && 1 <= r < MAX_PID
    requires forall x: nat ::
               (Member(cs', x) <==> Member(cs, x) && x != r) && (IsTop(cs', x) <==> IsTop(cs, x) && x != r)
    requires m.pending.Keys == m0.pending.Keys + {r} && m.t.inUse[r]
    requires forall q :: q in m0.pending && q != r ==>
               (m0.pending[q].ByShell? && m.pending[q] == ByShell(0, m0.pending[q].term))
               || (m.pending[q] == m0.pending[q] && m0.pending[q].owner != r)
    requires (m.pending[r].ByShell? && m.pending[r].owner == 0) || IsTop(cs', m.pending[r].owner)
    requires m.pending[r].ByShell? ==> m.pending[r].term < NR_TERM
    ensures Accounted(m, cs')
  {
  }

  lemma LaidAccounted(w: World, cs: seq<Chain>, k: nat, r: nat)
    requires Haunted(w) && r in w.gone && r in w.s.pending && w.s.pending[r].owner != r
    requires Represents(Mark(w.s, w.gone), cs) && k < |cs| && cs[k].pids == [r]
    ensures Sized(Before(w, r).t) && Accounted(Laid(Before(w, r), r), Drop(cs, k))
  {
    BeforeIs(w, r);
    assert Ghost(w.s, r);
    forall x: nat
      ensures Member(Drop(cs, k), x) <==> Member(cs, x) && x != r
      ensures IsTop(Drop(cs, k), x) <==> IsTop(cs, x) && x != r
    {
      DropMembers(cs, k, r, x);
    }
    NoProgram(w, r);
    AccountedWithout(Mark(w.s, w.gone), Laid(Before(w, r), r), cs, Drop(cs, k), r);
  }

  /** What a ghost owns are shells. */
  lemma NoProgram(w: World, r: nat)
    requires Haunted(w) && r in w.gone
    ensures forall q :: q in Mark(w.s, w.gone).pending && Mark(w.s, w.gone).pending[q].owner == r ==>
              Mark(w.s, w.gone).pending[q].ByShell?
  {
    assert Ghost(w.s, r);
    forall q | q in Mark(w.s, w.gone).pending && Mark(w.s, w.gone).pending[q].owner == r
      ensures Mark(w.s, w.gone).pending[q].ByShell?
    {
      assert q in w.s.pending && w.s.pending[q] != ByExecute(r);
    }
  }

  /** Another process takes the pid: the ghost's chain is dropped. */
  lemma TakenRepresented(w: World, e: Event, r: nat)
    requires Haunted(w) && Allowed(w, Do(e)) && r in w.gone && Commits(e, r) && w.s.t.running != r
    ensures Enabled(Before(w, r), e) && Represented(Step(Before(w, r), e))
  {
    OrphanedEnabled(w.s, e, r);
    MarkCommutes(Orphaned(w.s, r), e, w.gone - {r});
    var cs: seq<Chain> :| Represents(Mark(w.s, w.gone), cs);
    assert Ghost(w.s, r);
    BeforeIs(w, r);
    var m := Before(w, r);
    var k := RootAlone(Mark(w.s, w.gone), cs, r);
    DropShape(m.t, cs, k);
    LaidScheduled(m.t, cs, k, r);
    LaidAccounted(w, cs, k, r);
    assert Represents(Laid(m, r), Drop(cs, k));
    StepRepresented(Laid(m, r), e);
    LaidSame(m, e, r);
  }

  lemma LaidSame(m: State, e: Event, r: nat)
    requires Enabled(m, e) && Commits(e, r) && m.t.running != r
    ensures Enabled(Laid(m, r), e) && Step(Laid(m, r), e) == Step(m, e)
  {
    assert m.t.sched[r := false][r := true] == m.t.sched[r := true];
  }

  lemma RetermedTables(t: Tables, cs: seq<Chain>, k: nat, r: nat, u: nat)
    requires Sized(t) && Shape(cs) && Linked(t, cs) && Scheduled(t, cs) && k < |cs| && cs[k].pids == [r]
    requires u < NR_TERM && r < MAX_PID
    ensures var cs', t' := cs[k := Chain(u, [r])], t.(term := t.term[r := u]);
            Shape(cs') && Linked(t', cs') && Scheduled(t', cs')
    ensures forall x: nat :: (Member(cs[k := Chain(u, [r])], x) <==> Member(cs, x))
              && (IsTop(cs[k := Chain(u, [r])], x) <==> IsTop(cs, x))
  {
    var cs' := cs[k := Chain(u, [r])];
    assert At(cs, k, 0, r);
    forall i, j, x: nat ensures At(cs', i, j, x) <==> At(cs, i, j, x) {}
    forall i, x: nat ensures Top(cs', i, x) <==> Top(cs, i, x) {}
    SameMembers(cs, cs');
  }

  /** The shell itself takes its pid back, for its own terminal or for one the keyboard asked for. */
  lemma RegainedRepresented(w: World, e: Event, r: nat)
    requires Haunted(w) && Allowed(w, Do(e)) && r in w.gone && Commits(e, r) && w.s.t.running == r
    ensures Enabled(Before(w, r), e) && Represented(Step(Before(w, r), e))
  {
    OrphanedEnabled(w.s, e, r);
    MarkCommutes(Orphaned(w.s, r), e, w.gone - {r});
    var cs: seq<Chain> :| Represents(Mark(w.s, w.gone), cs);
    assert Ghost(w.s, r);
    BeforeIs(w, r);
    var m := Before(w, r);
    var k := RootAlone(Mark(w.s, w.gone), cs, r);
    var u := m.pending[r].term;
    RetermedTables(m.t, cs, k, r, u);
    assert Step(m, e).t == m.t.(term := m.t.term[r := u]) by {
      assert m.t.sched[r := true] == m.t.sched && m.t.parent[r := None] == m.t.parent;
    }
    RegainedAccounted(w, cs, k, r, Step(m, e));
    assert Represents(Step(m, e), cs[k := Chain(u, [r])]);
  }

  /** The accounts with some allocations orphaned. */
  lemma AccountedSame(m0: State, m: State, cs: seq<Chain>, cs': seq<Chain>)
    requires Sized(m0.t) && Sized(m.t) && Accounted(m0, cs) && m.t.inUse == m0.t.inUse
    requires forall x: nat :: (Member(cs', x) <==> Member(cs, x)) && (IsTop(cs', x) <==> IsTop(cs, x))
    requires m.pending.Keys == m0.pending.Keys
    requires forall q :: q in m0.pending ==>
               m.pending[q] == m0.pending[q]
               || (m0.pending[q].ByShell? && m.pending[q] == ByShell(0, m0.pending[q].term))
    ensures Accounted(m, cs')
  {
  }

  lemma RegainedAccounted(w: World, cs: seq<Chain>, k: nat, r: nat, m': State)
    requires Haunted(w) && r in w.gone && r in w.s.pending && w.s.pending[r].ByShell?
    requires Represents(Mark(w.s, w.gone), cs) && k < |cs| && cs[k].pids == [r] && w.s.pending[r].term < NR_TERM
    requires Sized(m'.t) && m'.t.inUse == Before(w, r).t.inUse && m'.pending == Before(w, r).pending - {r}
    ensures Accounted(m', cs[k := Chain(w.s.pending[r].term, [r])])
  {
    BeforeIs(w, r);
    RetermedTables(Before(w, r).t, cs, k, r, w.s.pending[r].term);
    AccountedSame(Mark(w.s, w.gone), m', cs, cs[k := Chain(w.s.pending[r].term, [r])]);
  }

  lemma SameMembers(cs: seq<Chain>, cs': seq<Chain>)
    requires forall i, j, x: nat :: At(cs', i, j, x) <==> At(cs, i, j, x)
    requires forall i, x: nat :: Top(cs', i, x) <==> Top(cs, i, x)
    ensures forall x: nat :: (Member(cs', x) <==> Member(cs, x)) && (IsTop(cs', x) <==> IsTop(cs, x))
  {
    forall x: nat ensures Member(cs', x) <==> Member(cs, x) {
      if Member(cs, x) { var i, j :| At(cs, i, j, x); assert At(cs', i, j, x); }
      if Member(cs', x) { var i, j :| At(cs', i, j, x); assert At(cs, i, j, x); }
    }
    forall x: nat ensures IsTop(cs', x) <==> IsTop(cs, x) {
      if IsTop(cs, x) { var i :| Top(cs, i, x); assert Top(cs', i, x); }
      if IsTop(cs', x) { var i :| Top(cs', i, x); assert Top(cs, i, x); }
    }
  }

  lemma OtherGhost(w: World, e: Event, r: nat, x: nat)
    requires Haunted(w) && Allowed(w, Do(e)) && r in w.gone && Commits(e, r) && x in w.gone && x != r
    ensures Enabled(Orphaned(w.s, r), e) && Ghost(Step(Orphaned(w.s, r), e), x)
  {
    OrphanedEnabled(w.s, e, r);
    assert Ghost(w.s, x) && Ghost(w.s, r);
    RunningScheduled(w);
  }

  /** A commit to its pid lays the ghost, whoever commits, and leaves the others. */
  lemma CommitLays(w: World, e: Event, r: nat)
    requires Haunted(w) && Allowed(w, Do(e)) && r in w.gone && Commits(e, r)
    ensures Haunted(After(w, Do(e))) && After(w, Do(e)).gone == w.gone - {r}
  {
    OrphanedEnabled(w.s, e, r);
    MarkCommutes(Orphaned(w.s, r), e, w.gone - {r});
    if w.s.t.running == r { RegainedRepresented(w, e, r); } else { TakenRepresented(w, e, r); }
    forall x | x in w.gone - {r} ensures Ghost(Step(Orphaned(w.s, r), e), x) { OtherGhost(w, e, r, x); }
  }

  // ----- whole courses -----

  /** Every move keeps the tables in order but for the ghosts. */
  lemma AfterHaunted(w: World, m: Move)
    requires Haunted(w) && Allowed(w, m)
    ensures Haunted(After(w, m))
  {
    match m
    case HaltRoot => HaltRootHaunts(w);
    case Do(e) =>
      if r :| r in w.gone && Commits(e, r) {
        CommitLays(w, e, r);
      } else {
        StepMarked(w, e);
        forall r | r in w.gone ensures Ghost(Step(w.s, e), r) { StepGhost(w, e, r); }
        assert After(w, m) == World(Step(w.s, e), w.gone) by {
          if (e.EndExecute? || e.EndShell?) && e.loaded { assert Commits(e, e.pid); }
        }
      }
  }

  lemma {:induction false} CourseHaunted(w: World, ms: seq<Move>)
    requires Haunted(w) && IsCourse(w, ms)
    ensures Haunted(Course(w, ms))
    decreases |ms|
  {
    if ms != [] {
      AfterHaunted(w, ms[0]);
      CourseHaunted(After(w, ms[0]), ms[1..]);
    }
  }

  /** `w` is the end of some course from boot. */
  ghost predicate Reached(w: World) {
    exists ms :: IsCourse(World(Boot(), {}), ms) && Course(World(Boot(), {}), ms) == w
  }

  /**
   * Over every course from boot, with root halts among everything else: the tables represent chains of
   * processes, and so are safe, exactly when every scheduled pid is live.
   */
  lemma ReachedIff(w: World)
    requires Reached(w)
    ensures Haunted(w)
    ensures Represented(w.s) <==> forall r: nat :: r < MAX_PID && w.s.t.sched[r] ==> Live(w.s, r)
  {
    BootRepresented();
    var boot := World(Boot(), {});
    UnmarkedSame(boot.s);
    var ms :| IsCourse(boot, ms) && Course(boot, ms) == w;
    CourseHaunted(boot, ms);
    HauntedIff(w);
  }

  // ----- one restart -----

  /** No move of the course commits anybody to `p`, which would take over its PCB and its stack. */
  ghost predicate Spared(ms: seq<Move>, p: nat) {
    forall i :: 0 <= i < |ms| ==> ms[i].Do? ==> !Commits(ms[i].e, p)
  }

  lemma {:induction false} SparedGone(w: World, ms: seq<Move>, p: nat)
    requires IsCourse(w, ms) && Spared(ms, p) && p in w.gone
    ensures p in Course(w, ms).gone
    decreases |ms|
  {
    if ms != [] {
      if ms[0].Do? { assert !Commits(ms[0].e, p); }
      SparedGone(After(w, ms[0]), ms[1..], p);
    }
  }

  /** A new shell that asks in state `s` is given `p`. */
  ghost predicate Regains(s: State, p: nat)
    requires Sized(s.t) && p < MAX_PID
  {
    !s.t.inUse[p] && forall r :: 1 <= r < p ==> s.t.inUse[r]
  }

  /** Every scheduled pid but `p` is live. */
  ghost predicate OthersLive(s: State, p: nat)
    requires Sized(s.t)
  {
    forall r: nat :: r < MAX_PID && r != p && s.t.sched[r] ==> Live(s, r)
  }

  lemma OthersLiveIff(w: World, p: nat)
    requires Haunted(w)
    ensures OthersLive(w.s, p) <==> w.gone <= {p}
  {
    forall r: nat | r < MAX_PID ensures r in w.gone <==> w.s.t.sched[r] && !Live(w.s, r) { GhostsAre(w, r); }
    forall r | r in w.gone ensures r < MAX_PID { assert Ghost(w.s, r); }
  }

  /**
   * Root shell `p` halts in `w`. After any course `ms` that leaves it its stack, other root halts and
   * their restarts included, it asks for a pid for its terminal and is given `q`; after any further
   * such course the new shell is committed. Then the tables represent chains if and only if, when it
   * asked, `p` was free and all lower pids in use, so that it regained its own pid, and, when it was
   * committed, every other scheduled pid was live.
   */
  lemma RestartIff(w: World, ms: seq<Move>, ms': seq<Move>, p: nat, q: nat, term: nat, w2: World, w4: World)
    requires Haunted(w) && Allowed(w, HaltRoot) && p == w.s.t.running
    requires IsCourse(After(w, HaltRoot), ms) && Spared(ms, p) && w2 == Course(After(w, HaltRoot), ms)
    requires w2.s.t.running == p && Allowed(w2, Do(BeginShell(term))) && LowestFree(w2.s.t.inUse, 1) == Some(q)
    requires IsCourse(After(w2, Do(BeginShell(term))), ms') && Spared(ms', p)
    requires w4 == Course(After(w2, Do(BeginShell(term))), ms') && Allowed(w4, Do(EndShell(q, true)))
    ensures Haunted(w2) && Haunted(w4) && (q == p <==> Regains(w2.s, p))
    ensures Represented(After(w4, Do(EndShell(q, true))).s) <==> Regains(w2.s, p) && OthersLive(w4.s, p)
  {
    AskedBy(w, ms, p);
    AfterHaunted(w2, Do(BeginShell(term)));
    GoesOn(After(w2, Do(BeginShell(term))), ms', p);
    AskIff(w2, p, q);
    CommitIff(w4, p, q);
  }

  lemma GoesOn(w: World, ms: seq<Move>, p: nat)
    requires Haunted(w) && p in w.gone && IsCourse(w, ms) && Spared(ms, p)
    ensures Haunted(Course(w, ms)) && p in Course(w, ms).gone
  {
    CourseHaunted(w, ms);
    SparedGone(w, ms, p);
  }

  lemma AskedBy(w: World, ms: seq<Move>, p: nat)
    requires Haunted(w) && Allowed(w, HaltRoot) && p == w.s.t.running
    requires IsCourse(After(w, HaltRoot), ms) && Spared(ms, p)
    ensures Haunted(Course(After(w, HaltRoot), ms)) && p in Course(After(w, HaltRoot), ms).gone
  {
    AfterHaunted(w, HaltRoot);
    GoesOn(After(w, HaltRoot), ms, p);
  }

  lemma AskIff(w: World, p: nat, q: nat)
    requires Haunted(w) && p in w.gone && LowestFree(w.s.t.inUse, 1) == Some(q)
    ensures p < MAX_PID && (q == p <==> Regains(w.s, p))
  {
    assert Ghost(w.s, p);
  }

  lemma CommitIff(w: World, p: nat, q: nat)
    requires Haunted(w) && p in w.gone && Allowed(w, Do(EndShell(q, true)))
    ensures Represented(After(w, Do(EndShell(q, true))).s) <==> q == p && OthersLive(w.s, p)
  {
    AfterHaunted(w, Do(EndShell(q, true)));
    HauntedIff(After(w, Do(EndShell(q, true))));
    OthersLiveIff(w, p);
  }

  /** No root shell halts in the course. */
  ghost predicate NoHalts(ms: seq<Move>) { forall i :: 0 <= i < |ms| ==> ms[i].Do? }

  lemma {:induction false} NoHaltsGone(w: World, ms: seq<Move>)
    requires IsCourse(w, ms) && NoHalts(ms)
    ensures Course(w, ms).gone <= w.gone
    decreases |ms|
  {
    if ms != [] { NoHaltsGone(After(w, ms[0]), ms[1..]); }
  }

  /** If no other root shell is or goes down, regaining the pid is all that counts. */
  lemma RestartAloneIff(w: World, ms: seq<Move>, ms': seq<Move>, p: nat, q: nat, term: nat, w2: World, w4: World)
    requires Haunted(w) && w.gone == {} && Allowed(w, HaltRoot) && p == w.s.t.running
    requires IsCourse(After(w, HaltRoot), ms) && Spared(ms, p) && w2 == Course(After(w, HaltRoot), ms)
    requires w2.s.t.running == p && Allowed(w2, Do(BeginShell(term))) && LowestFree(w2.s.t.inUse, 1) == Some(q)
    requires IsCourse(After(w2, Do(BeginShell(term))), ms') && Spared(ms', p)
    requires w4 == Course(After(w2, Do(BeginShell(term))), ms') && Allowed(w4, Do(EndShell(q, true)))
    requires NoHalts(ms) && NoHalts(ms')
    ensures Sized(w2.s.t) && p < MAX_PID
    ensures Represented(After(w4, Do(EndShell(q, true))).s) <==> Regains(w2.s, p)
  {
    RestartIff(w, ms, ms', p, q, term, w2, w4);
    NoHaltsGone(After(w, HaltRoot), ms);
    NoHaltsGone(After(w2, Do(BeginShell(term))), ms');
    OthersLiveIff(w4, p);
  }

  // ----- lost restarts -----

  /** Pid `q` is allocated for a shell that nobody is left to start. */
  ghost predicate Nobodys(w: World, q: nat) {
    w.s.t.running != 0 && q in w.s.pending && w.s.pending[q].ByShell? && w.s.pending[q].owner == 0
  }

  /**
   * Whoever is committed to the pid of a halted shell, another process, or a keyboard shell nested in
   * the halted one, that pid is no ghost any more: it is the new process. The restart is lost with the
   * stack, and what it had been allocated belongs to nobody.
   */
  lemma LostRestart(w: World, e: Event, p: nat)
    requires Haunted(w) && p in w.gone && Allowed(w, Do(e)) && Commits(e, p)
    ensures var w' := After(w, Do(e));
            && Haunted(w') && w'.gone == w.gone - {p} && Live(w'.s, p) && w'.s.t.running == p
            && (w.gone == {p} ==> Represented(w'.s))
            && forall q :: q in w.s.pending && q != p && w.s.pending[q].owner == p ==> Nobodys(w', q)
  {
    CommitLays(w, e, p);
    HauntedIff(After(w, Do(e)));
    assert Ghost(w.s, p);
    forall q | q in w.s.pending && q != p && w.s.pending[q].owner == p ensures w.s.pending[q].ByShell? {
      assert w.s.pending[q] != ByExecute(p);
    }
  }

  lemma PendingInUse(w: World, q: nat)
    requires Haunted(w) && q in w.s.pending
    ensures q < MAX_PID && w.s.t.inUse[q]
  {
    var cs: seq<Chain> :| Represents(Mark(w.s, w.gone), cs);
    if q in w.gone { assert Ghost(w.s, q); } else { assert q in Mark(w.s, w.gone).pending; }
  }

  lemma NobodysKept(s: State, e: Event, q: nat)
    requires Enabled(s, e) && s.t.running != 0 && q in s.pending && s.pending[q].ByShell? && s.pending[q].owner == 0
    requires q < MAX_PID && s.t.inUse[q]
    ensures q in Step(s, e).pending && Step(s, e).pending[q] == s.pending[q]
  {
  }

  lemma NobodysStep(w: World, m: Move, q: nat)
    requires Haunted(w) && Allowed(w, m) && Nobodys(w, q)
    ensures Nobodys(After(w, m), q)
  {
    PendingInUse(w, q);
    StaysUp(w, m);
    if m.Do? {
      var e := m.e;
      if (e.EndExecute? || e.EndShell?) && e.loaded && e.pid in w.gone {
        assert Ghost(w.s, e.pid);
        OrphanedEnabled(w.s, e, e.pid);
        NobodysKept(Orphaned(w.s, e.pid), e, q);
      } else {
        NobodysKept(w.s, e, q);
      }
    }
  }

  /** Once a process runs, one always does. */
  lemma StaysUp(w: World, m: Move)
    requires Haunted(w) && Allowed(w, m) && w.s.t.running != 0
    ensures After(w, m).s.t.running != 0
  {
    RunningScheduled(w);
    assert w.s.t.running in Ready(w.s.t.sched);
    NextIsNext(w.s.t.sched, w.s.t.running);
    var cs: seq<Chain> :| Represents(Mark(w.s, w.gone), cs);
    if w.s.t.sched[Next(w.s.t.sched, w.s.t.running)] {
      ScheduledIsLive(Mark(w.s, w.gone), cs, Next(w.s.t.sched, w.s.t.running));
    }
    if m == Do(Halt) {
      assert Represents(Mark(w.s, w.gone), cs);
      HaltsToProcess(Mark(w.s, w.gone), cs);
    }
  }

  lemma HaltsToProcess(s: State, cs: seq<Chain>)
    requires Represents(s, cs) && s.t.running != 0 && s.t.parent[s.t.running].Some?
    ensures s.t.parent[s.t.running].value != 0
  {
    var k :| Top(cs, k, s.t.running);
    assert At(cs, k, |cs[k].pids| - 1, s.t.running);
    assert At(cs, k, |cs[k].pids| - 2, cs[k].pids[|cs[k].pids| - 2]);
  }

  /** A pid allocated to nobody is in use for ever: no later course frees it. */
  lemma {:induction false} LeakedForever(w: World, ms: seq<Move>, q: nat)
    requires Haunted(w) && Nobodys(w, q) && IsCourse(w, ms)
    ensures var w' := Course(w, ms); Haunted(w') && q < MAX_PID && w'.s.t.inUse[q] && !Live(w'.s, q)
    decreases |ms|
  {
    PendingInUse(w, q);
    if ms != [] {
      NobodysStep(w, ms[0], q);
      AfterHaunted(w, ms[0]);
      LeakedForever(After(w, ms[0]), ms[1..], q);
    }
  }

  // ----- the restart without interruption -----

  /** `s` is about to halt a root shell, and all is well: a root process runs in user mode. */
  ghost predicate HaltsRoot(s: State) {
    Represented(s) && s.t.running != 0 && s.t.parent[s.t.running] == None && Idle(s)
  }

  lemma HaltsRootWorld(s: State)
    requires HaltsRoot(s)
    ensures Haunted(World(s, {})) && Allowed(World(s, {}), HaltRoot)
    ensures After(World(s, {}), HaltRoot) == World(FreeRoot(s), {s.t.running})
  {
    UnmarkedSame(s);
  }

  /** The shell asks right away for its terminal, and is committed right away. */
  ghost function Restarted(s: State, q: nat): World
    requires HaltsRoot(s) && LowestFree(FreeRoot(s).t.inUse, 1) == Some(q)
  {
    RestartEnabled(s, q);
    After(After(World(FreeRoot(s), {s.t.running}), Do(BeginShell(s.t.term[s.t.running]))), Do(EndShell(q, true)))
  }

  lemma RestartEnabled(s: State, q: nat)
    requires HaltsRoot(s) && LowestFree(FreeRoot(s).t.inUse, 1) == Some(q)
    ensures var w, m := World(FreeRoot(s), {s.t.running}), Do(BeginShell(s.t.term[s.t.running]));
            Allowed(w, m) && Allowed(After(w, m), Do(EndShell(q, true)))
  {
    var cs: seq<Chain> :| Represents(s, cs);
    var i :| Top(cs, i, s.t.running);
    assert At(cs, i, |cs[i].pids| - 1, s.t.running);
  }

  lemma RestartSame(s: State)
    requires HaltsRoot(s) && LowestFree(FreeRoot(s).t.inUse, 1) == Some(s.t.running)
    ensures Restarted(s, s.t.running).s.t == s.t
  {
    RestartEnabled(s, s.t.running);
    var t', p := Restarted(s, s.t.running).s.t, s.t.running;
    var cs: seq<Chain> :| Represents(s, cs);
    var i :| Top(cs, i, p);
    assert At(cs, i, |cs[i].pids| - 1, p);
    assert t'.inUse == s.t.inUse && t'.sched == s.t.sched && t'.parent == s.t.parent && t'.term == s.t.term;
  }

  lemma RestartLeaves(s: State, q: nat)
    requires HaltsRoot(s) && LowestFree(FreeRoot(s).t.inUse, 1) == Some(q) && q != s.t.running
    ensures !Safe(Restarted(s, q).s)
  {
    RestartEnabled(s, q);
    var cs: seq<Chain> :| Represents(s, cs);
    var i :| Top(cs, i, s.t.running);
    assert Restarted(s, q).s.t.sched[s.t.running] && !Restarted(s, q).s.t.inUse[s.t.running];
  }

  /**
   * Without interruption there always is a pid for the new shell, and the state is safe exactly when
   * every lower pid was in use before the halt; then the tables are back as they were. Otherwise the
   * freed pid stays scheduled.
   */
  lemma RestartRootSafe(s: State) returns (q: nat)
    requires HaltsRoot(s)
    ensures LowestFree(FreeRoot(s).t.inUse, 1) == Some(q)
    ensures Safe(Restarted(s, q).s) <==> forall r :: 1 <= r < s.t.running ==> s.t.inUse[r]
    ensures Safe(Restarted(s, q).s) ==> Restarted(s, q).s.t == s.t
  {
    assert !FreeRoot(s).t.inUse[s.t.running];
    q := LowestFree(FreeRoot(s).t.inUse, 1).value;
    if q == s.t.running {
      RestartSame(s);
      RestartRepresented(s);
    } else {
      RestartLeaves(s, q);
    }
  }

  lemma RestartRepresented(s: State)
    requires HaltsRoot(s) && LowestFree(FreeRoot(s).t.inUse, 1) == Some(s.t.running)
    ensures Safe(Restarted(s, s.t.running).s)
  {
    var p, w1 := s.t.running, World(FreeRoot(s), {s.t.running});
    HaltsRootWorld(s);
    AfterHaunted(World(s, {}), HaltRoot);
    RestartEnabled(s, p);
    AfterHaunted(w1, Do(BeginShell(s.t.term[p])));
    LostRestart(After(w1, Do(BeginShell(s.t.term[p]))), EndShell(p, true), p);
    var cs :| Represents(Restarted(s, p).s, cs);
    RepresentsSafe(Restarted(s, p).s, cs);
  }

  // ----- the ways it goes wrong -----

  /** Exactly the pids below `n`, bar pid 0, are in use, and no allocation is in flight. */
  ghost predicate Filled(s: State, n: nat) {
    Sized(s.t) && s.pending == map[] && forall p: nat :: p < MAX_PID ==> (s.t.inUse[p] <==> 1 <= p < n)
  }

  lemma StartShell(s: State, n: nat, term: nat) returns (s': State)
    requires Reachable(s, true) && Filled(s, n) && 1 <= n < MAX_PID && term < NR_TERM && term !in s.started
    ensures Reachable(s', true) && Filled(s', n + 1) && s'.started == s.started + {term}
    ensures s'.t.running == n && s'.t.sched == s.t.sched[n := true]
    ensures s'.t.parent == s.t.parent[n := None] && s'.t.term == s.t.term[n := term]
  {
    s' := Follow(s, BeginShell(term));
    assert s'.t.inUse[n] && s'.pending.Keys == {n};
    s' := Follow(s', EndShell(n, true));
  }

  lemma StartProgram(s: State, n: nat) returns (s': State)
    requires Reachable(s, true) && Filled(s, n) && 1 <= n < MAX_PID && s.t.running != 0
    ensures Reachable(s', true) && Filled(s', n + 1) && s'.started == s.started
    ensures s'.t.running == n && s'.t.sched == s.t.sched[n := true][s.t.running := false]
    ensures s'.t.parent == s.t.parent[n := Some(s.t.running)]
  {
    s' := Follow(s, BeginExecute);
    assert s'.t.inUse[n] && s'.pending.Keys == {n};
    s' := Follow(s', EndExecute(n, true));
  }

  lemma Follow(s: State, e: Event) returns (s': State)
    requires Reachable(s, true) && Enabled(s, e) && (e.BeginShell? ==> e.term !in s.started)
    ensures s' == Step(s, e) && Reachable(s', true)
  {
    s' := Step(s, e);
    var es :| IsRun(Boot(), es, true) && Run(Boot(), es, true) == s;
    RunExtend(Boot(), es, e, true);
    assert IsRun(Boot(), es + [e], true);
  }

  lemma {:induction false} RunExtend(s: State, es: seq<Event>, e: Event, guarded: bool)
    requires IsRun(s, es, guarded) && Enabled(Run(s, es, guarded), e)
    requires guarded && e.BeginShell? ==> e.term !in Run(s, es, guarded).started
    ensures IsRun(s, es + [e], guarded) && Run(s, es + [e], guarded) == Step(Run(s, es, guarded), e)
    decreases |es|
  {
    if es == [] {
      assert es + [e] == [e] && [e][1..] == [];
      assert IsRun(Step(s, e), [], guarded);
    } else {
      assert (es + [e])[1..] == es[1..] + [e];
      RunExtend(Step(s, es[0]), es[1..], e, guarded);
    }
  }

  lemma NextIs(sched: Flags, cur: nat, q: nat)
    requires cur < MAX_PID && q < MAX_PID && sched[q]
    requires forall r: nat :: r < MAX_PID && sched[r] ==> Gap(cur, q) <= Gap(cur, r)
    ensures Next(sched, cur) == q
  {
    assert q in Ready(sched);
    NextIsNext(sched, cur);
    assert IsNext(sched, cur, q);
  }

  /** Shell 1 on terminal 0 runs program 2 when shell 3 is started on terminal 1. */
  lemma TwoTerminals() returns (s: State)
    ensures Reachable(s, true) && Filled(s, 4) && s.t.running == 3
    ensures s.t.parent[2] == Some(1) && s.t.parent[3] == None
    ensures forall p: nat :: p < MAX_PID ==> (s.t.sched[p] <==> p == 2 || p == 3)
  {
    assert IsRun(Boot(), [], true) && Run(Boot(), [], true) == Boot();
    s := StartShell(Boot(), 1, 0);
    s := StartProgram(s, 2);
    s := StartShell(s, 3, 1);
  }

  /** A guarded run leads to a root halt whose restart, even uninterrupted, leaves a free pid scheduled. */
  lemma RestartRootCanFail() returns (s: State, q: nat)
    ensures Reachable(s, true) && HaltsRoot(s) && LowestFree(FreeRoot(s).t.inUse, 1) == Some(q)
    ensures !Safe(Restarted(s, q).s)
  {
    s := TwoTerminals();
    NextIs(s.t.sched, 3, 2);
    s := Follow(s, Tick);
    s := Follow(s, Halt);
    NextIs(s.t.sched, 1, 3);
    s := Follow(s, Tick);
    assert s.t.running == 3 && !s.t.inUse[2];
    ReachableRepresented(s, true);
    q := RestartRootSafe(s);
  }

  /** Shells 1 and 2 on terminals 0 and 1, shell 1 running. */
  lemma TwoShells() returns (s: State)
    ensures Reachable(s, true) && TwoUp(s)
  {
    assert IsRun(Boot(), [], true) && Run(Boot(), [], true) == Boot();
    s := StartShell(Boot(), 1, 0);
    s := StartShell(s, 2, 1);
    s := BackTo(s, 1);
  }

  lemma BackTo(s: State, p: nat) returns (s': State)
    requires Reachable(s, true) && Filled(s, 3) && p < MAX_PID && p != 0 && s.t.parent[p] == None
    requires s.t.running < MAX_PID && s.t.sched[p]
    requires forall r: nat :: r < MAX_PID && s.t.sched[r] ==> r == p || r == s.t.running
    ensures Reachable(s', true) && HaltsRoot(s') && s' == s.(t := s.t.(running := p))
  {
    NextIs(s.t.sched, s.t.running, p);
    s' := Follow(s, Tick);
    ReachableRepresented(s', true);
  }

  lemma {:induction false} CourseExtend(w: World, ms: seq<Move>, m: Move)
    requires IsCourse(w, ms) && Allowed(Course(w, ms), m)
    ensures IsCourse(w, ms + [m]) && Course(w, ms + [m]) == After(Course(w, ms), m)
    decreases |ms|
  {
    if ms == [] {
      assert ms + [m] == [m] && [m][1..] == [];
      assert IsCourse(After(w, m), []);
    } else {
      assert (ms + [m])[1..] == ms[1..] + [m];
      CourseExtend(After(w, ms[0]), ms[1..], m);
    }
  }

  /** Two shells, 1 and 2, and nothing else; shell 1 runs. */
  ghost predicate TwoUp(s: State) {
    && HaltsRoot(s) && Filled(s, 3) && s.t.running == 1 && s.t.term[1] == 0
    && s.t.parent[2] == None && forall p: nat :: p < MAX_PID ==> (s.t.sched[p] <==> p == 1 || p == 2)
  }

  /** While shell 1 is restarting, shell 2 is given its pid for a program. */
  lemma PidTaken(w1: World) returns (ms: seq<Move>)
    requires Sized(w1.s.t) && w1.gone == {1} && w1.s.t.running == 1 && w1.s.pending == map[]
    requires forall p: nat :: p < MAX_PID ==> (w1.s.t.sched[p] <==> p == 1 || p == 2)
    requires forall p: nat :: p < MAX_PID ==> (w1.s.t.inUse[p] <==> p == 2)
    ensures IsCourse(w1, ms) && Spared(ms, 1) && NoHalts(ms)
    ensures var w2 := Course(w1, ms);
            && Sized(w2.s.t) && w2.gone == {1} && w2.s.t.running == 1 && w2.s.t.sched == w1.s.t.sched
            && w2.s.pending == map[1 := ByExecute(2)]
            && forall p: nat :: p < MAX_PID ==> (w2.s.t.inUse[p] <==> p == 1 || p == 2)
  {
    ms := [];
    NextIs(w1.s.t.sched, 1, 2);
    CourseExtend(w1, ms, Do(Tick));
    ms := ms + [Do(Tick)];
    CourseExtend(w1, ms, Do(BeginExecute));
    ms := ms + [Do(BeginExecute)];
    assert Course(w1, ms).s.pending == map[1 := ByExecute(2)];
    NextIs(w1.s.t.sched, 2, 1);
    CourseExtend(w1, ms, Do(Tick));
    ms := ms + [Do(Tick)];
  }

  /** Shell 1 becomes shell 3. */
  lemma AnotherPid(w2: World)
    requires Sized(w2.s.t) && w2.gone == {1} && w2.s.t.running == 1 && w2.s.pending == map[1 := ByExecute(2)]
    requires forall p: nat :: p < MAX_PID ==> (w2.s.t.sched[p] <==> p == 1 || p == 2)
    requires forall p: nat :: p < MAX_PID ==> (w2.s.t.inUse[p] <==> p == 1 || p == 2)
    ensures Allowed(w2, Do(BeginShell(0))) && LowestFree(w2.s.t.inUse, 1) == Some(3)
    ensures Allowed(After(w2, Do(BeginShell(0))), Do(EndShell(3, true)))
    ensures var w5 := After(After(w2, Do(BeginShell(0))), Do(EndShell(3, true)));
            && Sized(w5.s.t) && w5.gone == {1} && w5.s.t.running == 3 && w5.s.pending == map[1 := ByExecute(2)]
            && forall p: nat :: p < MAX_PID ==> (w5.s.t.sched[p] <==> 1 <= p <= 3)
  {
    assert w2.s.t.inUse[1] && w2.s.t.inUse[2] && !w2.s.t.inUse[3];
    assert w2.s.pending[3 := ByShell(1, 0)] - {3} == w2.s.pending;
  }

  lemma ProgramFails(w5: World) returns (ms: seq<Move>)
    requires Sized(w5.s.t) && w5.gone == {1} && w5.s.t.running == 3 && w5.s.pending == map[1 := ByExecute(2)]
    requires forall p: nat :: p < MAX_PID ==> (w5.s.t.sched[p] <==> 1 <= p <= 3)
    ensures IsCourse(w5, ms) && !Safe(Course(w5, ms).s)
  {
    ms := [];
    NextIs(w5.s.t.sched, 3, 1);
    CourseExtend(w5, ms, Do(Tick));
    ms := ms + [Do(Tick)];
    NextIs(w5.s.t.sched, 1, 2);
    CourseExtend(w5, ms, Do(Tick));
    ms := ms + [Do(Tick)];
    CourseExtend(w5, ms, Do(EndExecute(1, false)));
    ms := ms + [Do(EndExecute(1, false))];
    assert Course(w5, ms).s.t.sched[1] && !Course(w5, ms).s.t.inUse[1];
  }

  /** A scheduled pid that is not live belongs to no chain. */
  lemma GhostUnrepresented(s: State, p: nat)
    requires Sized(s.t) && p < MAX_PID && s.t.sched[p] && !Live(s, p)
    ensures !Represented(s)
  {
    if Represented(s) {
      var cs: seq<Chain> :| Represents(s, cs);
      ScheduledIsLive(s, cs, p);
    }
  }

  /** Shell `p` halted in `s`; after the course `ms` it asks, in `w2`, is given `q`, and is committed, to `w5`. */
  ghost predicate Comeback(s: State, ms: seq<Move>, p: nat, q: nat, w2: World, w5: World) {
    && HaltsRoot(s) && p == s.t.running && IsCourse(World(FreeRoot(s), {p}), ms) && Spared(ms, p)
    && w2 == Course(World(FreeRoot(s), {p}), ms) && w2.s.t.running == p
    && var ask, commit := Do(BeginShell(s.t.term[p])), Do(EndShell(q, true));
       Allowed(w2, ask) && Allowed(After(w2, ask), commit) && w5 == After(After(w2, ask), commit)
  }

  /**
   * Interrupted, the restart also fails where it would have been safe otherwise: when shell 1 halts it
   * could regain its pid, but by the time it asks that has been given away. It becomes shell 3; and
   * when the other program does not load, pid 1 is left free and scheduled.
   */
  lemma RestartRace() returns (s: State, ms: seq<Move>, w2: World, w5: World, ms': seq<Move>)
    ensures Reachable(s, true) && Comeback(s, ms, 1, 3, w2, w5) && NoHalts(ms)
    ensures LowestFree(FreeRoot(s).t.inUse, 1) == Some(1) && Safe(Restarted(s, 1).s)
    ensures !Represented(w5.s) && IsCourse(w5, ms') && !Safe(Course(w5, ms').s)
  {
    s := TwoShells();
    var q := RestartRootSafe(s);
    assert !FreeRoot(s).t.inUse[1];
    ms := PidTaken(World(FreeRoot(s), {1}));
    w2 := Course(World(FreeRoot(s), {1}), ms);
    AnotherPid(w2);
    w5 := After(After(w2, Do(BeginShell(0))), Do(EndShell(3, true)));
    GhostUnrepresented(w5.s, 1);
    ms' := ProgramFails(w5);
  }

  /**
   * And it fails when another root shell is down: shells 1 and 2 both halt before shell 1 asks. It
   * regains its pid, but pid 2 is free and still scheduled when it is committed.
   */
  lemma TwoHalts() returns (s: State, ms: seq<Move>, w2: World, w5: World)
    ensures Reachable(s, true) && Comeback(s, ms, 1, 1, w2, w5)
    ensures Sized(w2.s.t) && Regains(w2.s, 1) && !Represented(w5.s) && !Safe(w5.s)
  {
    s := TwoShells();
    ms := BothHalt(s);
    w2 := Course(World(FreeRoot(s), {1}), ms);
    FirstRegains(w2);
    w5 := After(After(w2, Do(BeginShell(0))), Do(EndShell(1, true)));
    GhostUnrepresented(w5.s, 2);
  }

  lemma BothHalt(s: State) returns (ms: seq<Move>)
    requires TwoUp(s)
    ensures IsCourse(World(FreeRoot(s), {1}), ms) && Spared(ms, 1)
    ensures var w2 := Course(World(FreeRoot(s), {1}), ms);
            && Sized(w2.s.t) && w2.gone == {1, 2} && w2.s.t.running == 1 && w2.s.pending == map[]
            && w2.s.t.sched == s.t.sched && forall p: nat :: p < MAX_PID ==> !w2.s.t.inUse[p]
  {
    var w1 := World(FreeRoot(s), {1});
    ms := [];
    NextIs(s.t.sched, 1, 2);
    CourseExtend(w1, ms, Do(Tick));
    ms := ms + [Do(Tick)];
    CourseExtend(w1, ms, HaltRoot);
    ms := ms + [HaltRoot];
    NextIs(s.t.sched, 2, 1);
    CourseExtend(w1, ms, Do(Tick));
    ms := ms + [Do(Tick)];
  }

  lemma FirstRegains(w2: World)
    requires Sized(w2.s.t) && w2.gone == {1, 2} && w2.s.t.running == 1 && w2.s.pending == map[]
    requires w2.s.t.sched[2] && forall p: nat :: p < MAX_PID ==> !w2.s.t.inUse[p]
    ensures Regains(w2.s, 1) && Allowed(w2, Do(BeginShell(0))) && LowestFree(w2.s.t.inUse, 1) == Some(1)
    ensures Allowed(After(w2, Do(BeginShell(0))), Do(EndShell(1, true)))
    ensures var w5 := After(After(w2, Do(BeginShell(0))), Do(EndShell(1, true)));
            Sized(w5.s.t) && w5.s.t.sched[2] && !Live(w5.s, 2) && !Safe(w5.s)
  {
    assert !w2.s.t.inUse[1];
    var w5 := After(After(w2, Do(BeginShell(0))), Do(EndShell(1, true)));
    assert w5.s.t.sched[2] && !w5.s.t.inUse[2];
  }
}
