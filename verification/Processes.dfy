/**
 * Process lifecycle: pid allocation (kernel/tasks.c), execute, halt and shell start
 * (kernel/syscall.c), and the scheduler tick, as one transition system.
 *
 * A pid is allocated outside the critical section, so ticks and other processes may run between
 * the allocation and its commit or abort; everything between cli and the final iret is one step.
 */
module Processes {
  import opened Sequences
  import opened Scheduler

  const NR_TERM: nat := 4

  /** The kernel's tables: pid_usage, sched, and the parent and term fields of each PCB. */
  datatype Tables = Tables(
    inUse: seq<bool>, sched: seq<bool>, parent: seq<Option<nat>>, term: seq<nat>, running: nat)

  /** Which system call, made on behalf of which process, is holding an allocated pid. */
  datatype Origin = ByExecute(owner: nat) | ByShell(owner: nat, term: nat)

  /**
   * `pending` holds the pids allocated but not yet committed or aborted. `started` holds the
   * terminals whose root shell has been requested (shell_active; for terminal 0, the boot call).
   * `running == 0` is the boot context, which is not a process.
   */
  datatype State = State(t: Tables, pending: map<nat, Origin>, started: set<nat>)

  datatype Event =
    | BeginExecute
    | EndExecute(pid: nat, loaded: bool)
    | BeginShell(term: nat)
    | EndShell(pid: nat, loaded: bool)
    | Halt
    | Tick

  /** The event commits or aborts the allocation of `p`. */
  predicate Concludes(e: Event, p: nat) { (e.EndExecute? || e.EndShell?) && e.pid == p }

  ghost predicate Sized(t: Tables) {
    |t.inUse| == |t.sched| == |t.parent| == |t.term| == MAX_PID && t.running < MAX_PID
  }

  // ----- operations on the tables -----

  /** The lowest free pid at or above `from`. */
  function LowestFree(inUse: seq<bool>, from: nat): (r: Option<nat>)
    requires from <= |inUse|
    ensures r.Some? ==> from <= r.value < |inUse| && !inUse[r.value]
                        && forall p :: from <= p < r.value ==> inUse[p]
    ensures r.None? ==> forall p :: from <= p < |inUse| ==> inUse[p]
    decreases |inUse| - from
  {
    if from == |inUse| then None
    else if !inUse[from] then Some(from)
    else LowestFree(inUse, from + 1)
  }

  /** The critical section of execute once the program is loaded. */
  function CommitExecute(t: Tables, q: nat): Tables
    requires Sized(t) && q < MAX_PID
  {
    t.(sched := t.sched[q := true][t.running := false],
       parent := t.parent[q := Some(t.running)],
       term := t.term[q := t.term[t.running]],
       running := q)
  }

  /** The critical section of init_shell once the shell is loaded; the caller stays scheduled. */
  function CommitShell(t: Tables, q: nat, term: nat): Tables
    requires Sized(t) && q < MAX_PID
  {
    t.(sched := t.sched[q := true], parent := t.parent[q := None], term := t.term[q := term], running := q)
  }

  function FreePid(t: Tables, q: nat): Tables
    requires Sized(t) && q < MAX_PID
  {
    t.(inUse := t.inUse[q := false])
  }

  /** Halt of a process that has a parent: the parent takes its place. */
  function HaltChild(t: Tables, up: nat): Tables
    requires Sized(t) && up < MAX_PID
  {
    t.(inUse := t.inUse[t.running := false],
       sched := t.sched[up := true][t.running := false],
       running := up)
  }

  // ----- the transition system -----

  ghost predicate Idle(s: State) {
    forall q :: q in s.pending ==> s.pending[q].owner != s.t.running
  }

  ghost predicate Enabled(s: State, e: Event) {
    Sized(s.t) &&
    match e
    case BeginExecute => s.t.running != 0 && Idle(s)
    case EndExecute(q, _) => q < MAX_PID && q in s.pending && s.pending[q] == ByExecute(s.t.running)
                             && forall r :: r in s.pending && r != q ==> s.pending[r].owner != s.t.running
    case BeginShell(term) => term < NR_TERM
    case EndShell(q, _) => q < MAX_PID && q in s.pending && s.pending[q].ByShell?
                           && s.pending[q].owner == s.t.running
    case Halt => s.t.running != 0 && Idle(s) && s.t.parent[s.t.running].Some?
                 && s.t.parent[s.t.running].value < MAX_PID
    case Tick => true
  }

  function Allocate(s: State, o: Origin): State
    requires Sized(s.t)
  {
    match LowestFree(s.t.inUse, 1)
    case None => s
    case Some(q) => s.(t := s.t.(inUse := s.t.inUse[q := true]), pending := s.pending[q := o])
  }

  ghost function Step(s: State, e: Event): State
    requires Enabled(s, e)
  {
    match e
    case BeginExecute => Allocate(s, ByExecute(s.t.running))
    case EndExecute(q, loaded) =>
      s.(t := if loaded then CommitExecute(s.t, q) else FreePid(s.t, q), pending := s.pending - {q})
    case BeginShell(term) => Allocate(s, ByShell(s.t.running, term)).(started := s.started + {term})
    case EndShell(q, loaded) =>
      s.(t := if loaded then CommitShell(s.t, q, s.pending[q].term) else FreePid(s.t, q),
         pending := s.pending - {q})
    case Halt => s.(t := HaltChild(s.t, s.t.parent[s.t.running].value))
    case Tick => s.(t := s.t.(running := Next(s.t.sched, s.t.running)))
  }

  /**
   * `es` can happen from `s`. In a guarded run a root shell is only ever requested for a terminal
   * that has none, as the boot code and the shell_active check of the keyboard handler ensure.
   */
  ghost predicate IsRun(s: State, es: seq<Event>, guarded: bool)
    decreases |es|
  {
    es == [] ||
    (Enabled(s, es[0]) && (guarded && es[0].BeginShell? ==> es[0].term !in s.started)
     && IsRun(Step(s, es[0]), es[1..], guarded))
  }

  ghost function Run(s: State, es: seq<Event>, guarded: bool): State
    requires IsRun(s, es, guarded)
    decreases |es|
  {
    if es == [] then s else Run(Step(s, es[0]), es[1..], guarded)
  }

  /** `s` is the end of some run from boot. */
  ghost predicate Reachable(s: State, guarded: bool) {
    exists es :: IsRun(Boot(), es, guarded) && Run(Boot(), es, guarded) == s
  }

  /** After init_tasks and scheduling_init: nothing allocated, nothing scheduled, boot code running. */
  function Boot(): State {
    State(Tables(seq(MAX_PID, i => false), seq(MAX_PID, i => false), seq(MAX_PID, i => None),
                 seq(MAX_PID, i => 0), 0), map[], {})
  }

  // ----- what the lifecycle is meant to guarantee -----

  /** Committed: allocated, and the system call that allocated it has finished. */
  ghost predicate Live(s: State, p: nat) {
    p < |s.t.inUse| && s.t.inUse[p] && p !in s.pending
  }

  ghost predicate HasLiveChild(s: State, p: nat)
    requires Sized(s.t)
  {
    exists c: nat :: c < MAX_PID && Live(s, c) && s.t.parent[c] == Some(p)
  }

  /** The `n`-th ancestor of `p`, following parent pointers. */
  function Ancestor(t: Tables, p: nat, n: nat): Option<nat> {
    if n == 0 then Some(p)
    else match Ancestor(t, p, n - 1)
      case Some(a) => if a < |t.parent| then t.parent[a] else None
      case None => None
  }

  ghost predicate Safe(s: State) {
    && Sized(s.t)
    && (forall p: nat :: p < MAX_PID && s.t.sched[p] ==> s.t.inUse[p])
    && (s.t.running != 0 ==> s.t.sched[s.t.running])
    && (forall p: nat :: p < MAX_PID && Live(s, p) ==> (s.t.sched[p] <==> !HasLiveChild(s, p)))
    && (forall p: nat :: p < MAX_PID && Live(s, p) && s.t.parent[p].Some? ==>
          Live(s, s.t.parent[p].value) && s.t.term[s.t.parent[p].value] == s.t.term[p])
    && (forall p: nat, n: nat :: Live(s, p) && n > 0 ==> Ancestor(s.t, p, n) != Some(p))
  }

  // ----- the reference: one stack of processes per root shell -----

  /** A root shell, the program it executed, the program that one executed, and so on. */
  datatype Chain = Chain(term: nat, pids: seq<nat>)

  ghost predicate At(cs: seq<Chain>, i: int, j: int, p: nat) {
    0 <= i < |cs| && 0 <= j < |cs[i].pids| && cs[i].pids[j] == p
  }

  ghost predicate Member(cs: seq<Chain>, p: nat) {
    exists i, j :: At(cs, i, j, p)
  }

  /** `p` is on top of chain `i`. */
  ghost predicate Top(cs: seq<Chain>, i: int, p: nat) {
    0 <= i < |cs| && At(cs, i, |cs[i].pids| - 1, p)
  }

  ghost predicate IsTop(cs: seq<Chain>, p: nat) {
    exists i :: Top(cs, i, p)
  }

  ghost predicate Shape(cs: seq<Chain>) {
    && (forall i :: 0 <= i < |cs| ==> |cs[i].pids| > 0 && cs[i].term < NR_TERM)
    && (forall i, j, p: nat :: At(cs, i, j, p) ==> 1 <= p < MAX_PID)
    && (forall i, j, i', j', p: nat :: At(cs, i, j, p) && At(cs, i', j', p) ==> i == i' && j == j')
  }

  /** Every process of a chain has its predecessor as parent and the chain's terminal. */
  ghost predicate Linked(t: Tables, cs: seq<Chain>)
    requires Sized(t) && Shape(cs)
  {
    forall i, j, p: nat :: At(cs, i, j, p) ==>
      t.parent[p] == (if j == 0 then None else Some(cs[i].pids[j - 1])) && t.term[p] == cs[i].term
  }

  ghost predicate Scheduled(t: Tables, cs: seq<Chain>)
    requires Sized(t)
  {
    && (forall p: nat :: p < MAX_PID ==> (t.sched[p] <==> IsTop(cs, p)))
    && (if t.running == 0 then cs == [] else IsTop(cs, t.running))
  }

  ghost predicate Accounted(s: State, cs: seq<Chain>)
    requires Sized(s.t)
  {
    && (forall p: nat :: p < MAX_PID ==> (s.t.inUse[p] <==> Member(cs, p) || p in s.pending))
    && (forall q :: q in s.pending ==> 1 <= q < MAX_PID && !Member(cs, q))
    && (forall q :: q in s.pending ==>
          (s.pending[q].ByShell? && s.pending[q].owner == 0) || IsTop(cs, s.pending[q].owner))
    && (forall q :: q in s.pending && s.pending[q].ByShell? ==> s.pending[q].term < NR_TERM)
  }

  ghost predicate Represents(s: State, cs: seq<Chain>) {
    Sized(s.t) && Shape(cs) && Linked(s.t, cs) && Scheduled(s.t, cs) && Accounted(s, cs)
  }

  function Push(cs: seq<Chain>, i: nat, q: nat): seq<Chain>
    requires i < |cs|
  {
    cs[i := Chain(cs[i].term, cs[i].pids + [q])]
  }

  function Pop(cs: seq<Chain>, i: nat): seq<Chain>
    requires i < |cs| && |cs[i].pids| > 0
  {
    cs[i := Chain(cs[i].term, cs[i].pids[..|cs[i].pids| - 1])]
  }

  /** The chain whose top is `p`. */
  function TopIndex(cs: seq<Chain>, p: nat): (i: nat)
    ensures i <= |cs|
  {
    if cs == [] || (cs[0].pids != [] && cs[0].pids[|cs[0].pids| - 1] == p) then 0 else 1 + TopIndex(cs[1..], p)
  }

  lemma {:induction false} TopIndexFinds(cs: seq<Chain>, p: nat)
    requires IsTop(cs, p)
    ensures Top(cs, TopIndex(cs, p), p)
  {
    var i :| Top(cs, i, p);
    if TopIndex(cs, p) != 0 {
      assert Top(cs[1..], i - 1, p);
      TopIndexFinds(cs[1..], p);
    }
  }

  /** What each event does to the chains: execute pushes, halt pops, a shell start adds a chain. */
  ghost function ChainStep(cs: seq<Chain>, s: State, e: Event): (r: seq<Chain>)
    requires Enabled(s, e) && Represents(s, cs)
  {
    var i := TopIndex(cs, s.t.running);
    match e
    case EndExecute(q, true) => if i < |cs| then Push(cs, i, q) else cs
    case EndShell(q, true) => cs + [Chain(s.pending[q].term, [q])]
    case Halt => if i < |cs| then Pop(cs, i) else cs
    case _ => cs
  }

  // ----- one step -----

  lemma AllocateKeeps(s: State, cs: seq<Chain>, o: Origin)
    requires Represents(s, cs)
    requires (o.ByShell? && o.owner == 0) || IsTop(cs, o.owner)
    requires o.ByShell? ==> o.term < NR_TERM
    ensures Represents(Allocate(s, o), cs)
  {
  }

  lemma ReleaseKeeps(s: State, cs: seq<Chain>, q: nat)
    requires Represents(s, cs) && q in s.pending
    ensures Represents(s.(t := FreePid(s.t, q), pending := s.pending - {q}), cs)
  {
  }

  lemma PushAt(cs: seq<Chain>, k: nat, q: nat)
    requires k < |cs|
    ensures forall i, j, p: nat :: At(Push(cs, k, q), i, j, p) <==>
              At(cs, i, j, p) || (i == k && j == |cs[k].pids| && p == q)
    ensures forall i, p: nat :: Top(Push(cs, k, q), i, p) <==> if i == k then p == q else Top(cs, i, p)
  {
  }

  lemma ExecuteLinks(s: State, cs: seq<Chain>, q: nat, k: nat)
    requires Represents(s, cs) && Enabled(s, EndExecute(q, true)) && Top(cs, k, s.t.running)
    ensures Shape(Push(cs, k, q)) && Linked(CommitExecute(s.t, q), Push(cs, k, q))
  {
    PushAt(cs, k, q);
  }

  lemma ExecuteSchedules(s: State, cs: seq<Chain>, q: nat, k: nat)
    requires Represents(s, cs) && Enabled(s, EndExecute(q, true)) && Top(cs, k, s.t.running)
    ensures Scheduled(CommitExecute(s.t, q), Push(cs, k, q))
  {
    var t', cs' := CommitExecute(s.t, q), Push(cs, k, q);
    PushAt(cs, k, q);
    assert Top(cs', k, q);
    forall p: nat | p < MAX_PID ensures t'.sched[p] <==> IsTop(cs', p) {
      if t'.sched[p] && p != q {
        var i :| Top(cs, i, p);
        assert Top(cs', i, p);
      }
    }
  }

  lemma ExecuteOwners(s: State, cs: seq<Chain>, q: nat, k: nat, r: nat)
    requires Represents(s, cs) && Enabled(s, EndExecute(q, true)) && Top(cs, k, s.t.running)
    requires r in s.pending && r != q && !(s.pending[r].ByShell? && s.pending[r].owner == 0)
    ensures IsTop(Push(cs, k, q), s.pending[r].owner)
  {
    PushAt(cs, k, q);
    var i :| Top(cs, i, s.pending[r].owner);
    assert Top(Push(cs, k, q), i, s.pending[r].owner);
  }

  lemma ExecuteAccounts(s: State, cs: seq<Chain>, q: nat, k: nat)
    requires Represents(s, cs) && Enabled(s, EndExecute(q, true)) && Top(cs, k, s.t.running)
    ensures Accounted(Step(s, EndExecute(q, true)), Push(cs, k, q))
  {
    var s', cs' := Step(s, EndExecute(q, true)), Push(cs, k, q);
    forall p: nat ensures Member(cs', p) <==> Member(cs, p) || p == q { PushMember(cs, k, q, p); }
    forall r | r in s'.pending && !(s'.pending[r].ByShell? && s'.pending[r].owner == 0)
      ensures IsTop(cs', s'.pending[r].owner)
    {
      ExecuteOwners(s, cs, q, k, r);
    }
  }

  lemma PushMember(cs: seq<Chain>, k: nat, q: nat, p: nat)
    requires k < |cs|
    ensures Member(Push(cs, k, q), p) <==> Member(cs, p) || p == q
  {
    PushAt(cs, k, q);
    if Member(cs, p) {
      var i, j :| At(cs, i, j, p);
      assert At(Push(cs, k, q), i, j, p);
    }
    if p == q { assert At(Push(cs, k, q), k, |cs[k].pids|, p); }
  }

  lemma ExecuteKeeps(s: State, cs: seq<Chain>, q: nat, k: nat)
    requires Represents(s, cs) && Enabled(s, EndExecute(q, true)) && Top(cs, k, s.t.running)
    ensures Represents(Step(s, EndExecute(q, true)), Push(cs, k, q))
  {
    ExecuteLinks(s, cs, q, k);
    ExecuteSchedules(s, cs, q, k);
    ExecuteAccounts(s, cs, q, k);
  }

  lemma NewAt(cs: seq<Chain>, c: Chain, q: nat)
    requires c.pids == [q]
    ensures forall i, j, p: nat :: At(cs + [c], i, j, p) <==> At(cs, i, j, p) || (i == |cs| && j == 0 && p == q)
    ensures forall i, p: nat :: Top(cs + [c], i, p) <==> Top(cs, i, p) || (i == |cs| && p == q)
  {
  }

  lemma ShellLinks(s: State, cs: seq<Chain>, q: nat)
    requires Represents(s, cs) && Enabled(s, EndShell(q, true))
    ensures var term := s.pending[q].term; var cs' := cs + [Chain(term, [q])];
            Shape(cs') && Linked(CommitShell(s.t, q, term), cs') && Scheduled(CommitShell(s.t, q, term), cs')
  {
    var c := Chain(s.pending[q].term, [q]);
    var cs' := cs + [c];
    NewAt(cs, c, q);
    assert Top(cs', |cs|, q);
    forall i, p: nat | Top(cs, i, p) ensures IsTop(cs', p) { assert Top(cs', i, p); }
  }

  lemma ShellAccounts(s: State, cs: seq<Chain>, q: nat)
    requires Represents(s, cs) && Enabled(s, EndShell(q, true))
    ensures Accounted(Step(s, EndShell(q, true)), cs + [Chain(s.pending[q].term, [q])])
  {
    var c := Chain(s.pending[q].term, [q]);
    var cs' := cs + [c];
    NewAt(cs, c, q);
    forall i, p: nat | Top(cs, i, p) ensures IsTop(cs', p) { assert Top(cs', i, p); }
    forall i, j, p: nat | At(cs, i, j, p) ensures Member(cs', p) { assert At(cs', i, j, p); }
    assert At(cs', |cs|, 0, q);
  }

  lemma ShellKeeps(s: State, cs: seq<Chain>, q: nat)
    requires Represents(s, cs) && Enabled(s, EndShell(q, true))
    ensures Represents(Step(s, EndShell(q, true)), cs + [Chain(s.pending[q].term, [q])])
  {
    ShellLinks(s, cs, q);
    ShellAccounts(s, cs, q);
  }

  lemma PopAt(cs: seq<Chain>, k: nat)
    requires k < |cs| && |cs[k].pids| > 1
    ensures forall i, j, p: nat :: At(Pop(cs, k), i, j, p) <==>
              At(cs, i, j, p) && !(i == k && j == |cs[k].pids| - 1)
    ensures forall i, p: nat :: Top(Pop(cs, k), i, p) <==>
              if i == k then p == cs[k].pids[|cs[k].pids| - 2] else Top(cs, i, p)
  {
  }

  lemma HaltKeeps(s: State, cs: seq<Chain>, k: nat)
    requires Represents(s, cs) && Enabled(s, Halt) && Top(cs, k, s.t.running)
    ensures |cs[k].pids| > 1
    ensures Represents(Step(s, Halt), Pop(cs, k))
  {
    var s', cs' := Step(s, Halt), Pop(cs, k);
    var n := |cs[k].pids|;
    var up := cs[k].pids[n - 2];
    assert At(cs, k, n - 1, s.t.running);
    assert At(cs, k, n - 2, up);
    PopAt(cs, k);
    assert Top(cs', k, up);
    forall p: nat | p < MAX_PID ensures s'.t.sched[p] <==> IsTop(cs', p) {
      if s'.t.sched[p] && p != up {
        var i :| Top(cs, i, p);
        assert Top(cs', i, p);
      }
    }
    forall r | r in s'.pending && !(s'.pending[r].ByShell? && s'.pending[r].owner == 0)
      ensures IsTop(cs', s'.pending[r].owner)
    {
      var i :| Top(cs, i, s.pending[r].owner);
      assert Top(cs', i, s.pending[r].owner);
    }
    forall p: nat | p < MAX_PID && p != s.t.running && Member(cs, p) ensures Member(cs', p) {
      var i, j :| At(cs, i, j, p);
      assert At(cs', i, j, p);
    }
  }

  /** Each event carries a represented state to a represented state, changing the chains as ChainStep says. */
  lemma StepKeeps(s: State, cs: seq<Chain>, e: Event)
    requires Represents(s, cs) && Enabled(s, e)
    ensures Represents(Step(s, e), ChainStep(cs, s, e))
  {
    if s.t.running != 0 { TopIndexFinds(cs, s.t.running); }
    var k := TopIndex(cs, s.t.running);
    match e
    case BeginExecute => AllocateKeeps(s, cs, ByExecute(s.t.running));
    case BeginShell(term) => AllocateKeeps(s, cs, ByShell(s.t.running, term));
    case EndExecute(q, loaded) => if loaded { ExecuteKeeps(s, cs, q, k); } else { ReleaseKeeps(s, cs, q); }
    case EndShell(q, loaded) => if loaded { ShellKeeps(s, cs, q); } else { ReleaseKeeps(s, cs, q); }
    case Halt => HaltKeeps(s, cs, k);
    case Tick => TickKeeps(s, cs);
  }

  lemma TickKeeps(s: State, cs: seq<Chain>)
    requires Represents(s, cs)
    ensures Represents(Step(s, Tick), cs)
  {
    if Ready(s.t.sched) != {} {
      NextIsNext(s.t.sched, s.t.running);
    }
  }

  // ----- whole runs -----

  ghost predicate Represented(s: State) {
    exists cs :: Represents(s, cs)
  }

  lemma BootRepresented()
    ensures Represents(Boot(), [])
  {
  }

  lemma {:induction false} RunKeeps(s: State, es: seq<Event>, guarded: bool)
    requires Represented(s) && IsRun(s, es, guarded)
    ensures Represented(Run(s, es, guarded))
    decreases |es|
  {
    if es != [] {
      var cs: seq<Chain> :| Represents(s, cs);
      StepKeeps(s, cs, es[0]);
      RunKeeps(Step(s, es[0]), es[1..], guarded);
    }
  }

  lemma ReachableRepresented(s: State, guarded: bool)
    requires Reachable(s, guarded)
    ensures Represented(s)
  {
    BootRepresented();
    var es :| IsRun(Boot(), es, guarded) && Run(Boot(), es, guarded) == s;
    RunKeeps(Boot(), es, guarded);
  }

  // ----- from chains to safety -----

  lemma LiveIsMember(s: State, cs: seq<Chain>, p: nat)
    requires Represents(s, cs)
    ensures Live(s, p) <==> Member(cs, p)
  {
  }

  lemma {:induction false} AncestorInChain(t: Tables, cs: seq<Chain>, i: nat, j: nat, n: nat)
    requires Sized(t) && Shape(cs) && Linked(t, cs)
    requires i < |cs| && j < |cs[i].pids|
    ensures Ancestor(t, cs[i].pids[j], n) == if n <= j then Some(cs[i].pids[j - n]) else None
  {
    if n > 0 {
      AncestorInChain(t, cs, i, j, n - 1);
      if n - 1 <= j { assert At(cs, i, j - (n - 1), cs[i].pids[j - (n - 1)]); }
    }
  }

  lemma Acyclic(s: State, cs: seq<Chain>, p: nat, n: nat)
    requires Represents(s, cs) && Live(s, p) && n > 0
    ensures Ancestor(s.t, p, n) != Some(p)
  {
    LiveIsMember(s, cs, p);
    var i, j :| At(cs, i, j, p);
    AncestorInChain(s.t, cs, i, j, n);
    if n <= j { assert At(cs, i, j - n, cs[i].pids[j - n]); }
  }

  /** A live process is scheduled exactly when it is the last of its chain, that is, childless. */
  lemma ScheduledIffChildless(s: State, cs: seq<Chain>, p: nat)
    requires Represents(s, cs) && p < MAX_PID && Live(s, p)
    ensures s.t.sched[p] <==> !HasLiveChild(s, p)
  {
    LiveIsMember(s, cs, p);
    var i, j :| At(cs, i, j, p);
    if j + 1 < |cs[i].pids| {
      var c := cs[i].pids[j + 1];
      assert At(cs, i, j + 1, c);
      LiveIsMember(s, cs, c);
      assert HasLiveChild(s, p);
    } else {
      assert Top(cs, i, p);
      if HasLiveChild(s, p) {
        var c: nat :| c < MAX_PID && Live(s, c) && s.t.parent[c] == Some(p);
        LiveIsMember(s, cs, c);
        var i', j' :| At(cs, i', j', c);
        assert At(cs, i', j' - 1, p);
      }
    }
  }

  lemma ParentLive(s: State, cs: seq<Chain>, p: nat)
    requires Represents(s, cs) && p < MAX_PID && Live(s, p) && s.t.parent[p].Some?
    ensures Live(s, s.t.parent[p].value) && s.t.term[s.t.parent[p].value] == s.t.term[p]
  {
    LiveIsMember(s, cs, p);
    var i, j :| At(cs, i, j, p);
    assert At(cs, i, j - 1, cs[i].pids[j - 1]);
    LiveIsMember(s, cs, cs[i].pids[j - 1]);
  }

  lemma RepresentsSafe(s: State, cs: seq<Chain>)
    requires Represents(s, cs)
    ensures Safe(s)
  {
    forall p: nat | p < MAX_PID && s.t.sched[p] ensures s.t.inUse[p] {
      var i :| Top(cs, i, p);
      assert At(cs, i, |cs[i].pids| - 1, p);
    }
    forall p: nat | p < MAX_PID && Live(s, p) ensures s.t.sched[p] <==> !HasLiveChild(s, p) {
      ScheduledIffChildless(s, cs, p);
    }
    forall p: nat | p < MAX_PID && Live(s, p) && s.t.parent[p].Some?
      ensures Live(s, s.t.parent[p].value) && s.t.term[s.t.parent[p].value] == s.t.term[p]
    {
      ParentLive(s, cs, p);
    }
    forall p: nat, n: nat | Live(s, p) && n > 0 ensures Ancestor(s.t, p, n) != Some(p) {
      Acyclic(s, cs, p, n);
    }
  }

  /** Every state reachable from boot, under every interleaving, is safe. */
  lemma ReachableSafe(s: State, guarded: bool)
    requires Reachable(s, guarded)
    ensures Safe(s)
  {
    ReachableRepresented(s, guarded);
    var cs: seq<Chain> :| Represents(s, cs);
    RepresentsSafe(s, cs);
  }

  /** A halt always hands the processor to a live, until then suspended, process of the same terminal. */
  lemma HaltResumesLive(s: State, guarded: bool)
    requires Reachable(s, guarded) && Enabled(s, Halt)
    ensures var up := s.t.parent[s.t.running].value; var s' := Step(s, Halt);
            && Live(s, up) && !s.t.sched[up] && s.t.term[up] == s.t.term[s.t.running]
            && Live(s', up) && s'.t.running == up && s'.t.sched[up] && !Live(s', s.t.running)
  {
    ReachableRepresented(s, guarded);
    var cs: seq<Chain> :| Represents(s, cs);
    var k :| Top(cs, k, s.t.running);
    assert At(cs, k, |cs[k].pids| - 1, s.t.running);
    LiveIsMember(s, cs, s.t.running);
    RepresentsSafe(s, cs);
    assert HasLiveChild(s, s.t.parent[s.t.running].value);
  }

  // ----- execute waits for its program -----

  /** A live process keeps its pid and its parent through every event but its own halt. */
  lemma ChildStays(s: State, cs: seq<Chain>, e: Event, q: nat)
    requires Represents(s, cs) && Enabled(s, e) && Live(s, q) && !(e.Halt? && s.t.running == q)
    ensures Live(Step(s, e), q) && Step(s, e).t.parent[q] == s.t.parent[q]
  {
    LiveIsMember(s, cs, q);
    StepKeeps(s, cs, e);
    var i, j :| At(cs, i, j, q);
  }

  /** Somewhere in the run, `q` halts. */
  ghost predicate Halts(s: State, es: seq<Event>, q: nat, guarded: bool)
    requires IsRun(s, es, guarded)
    decreases |es|
  {
    es != [] && ((es[0].Halt? && s.t.running == q) || Halts(Step(s, es[0]), es[1..], q, guarded))
  }

  /**
   * Execute does not return before the program it started is done: once `q` is a live child of
   * `p`, no run gets back to `p` without a halt of `q` in it.
   */
  lemma {:induction false} ExecuteWaits(s: State, es: seq<Event>, p: nat, q: nat, guarded: bool)
    requires Represented(s) && IsRun(s, es, guarded) && Live(s, q) && s.t.parent[q] == Some(p)
    requires Run(s, es, guarded).t.running == p
    ensures Halts(s, es, q, guarded)
    decreases |es|
  {
    var cs :| Represents(s, cs);
    RepresentsSafe(s, cs);
    assert HasLiveChild(s, p);
    if es != [] && !(es[0].Halt? && s.t.running == q) {
      ChildStays(s, cs, es[0], q);
      StepKeeps(s, cs, es[0]);
      ExecuteWaits(Step(s, es[0]), es[1..], p, q, guarded);
    }
  }

  // ----- counting -----

  ghost function Pids(cs: seq<Chain>): set<nat> {
    if cs == [] then {} else Elements(cs[0].pids) + Pids(cs[1..])
  }

  /** The sum of the chain lengths. */
  function TotalLength(cs: seq<Chain>): nat {
    if cs == [] then 0 else |cs[0].pids| + TotalLength(cs[1..])
  }

  lemma {:induction false} PidsMember(cs: seq<Chain>, p: nat)
    ensures p in Pids(cs) <==> Member(cs, p)
  {
    if cs != [] {
      PidsMember(cs[1..], p);
      if Member(cs, p) {
        var i, j :| At(cs, i, j, p);
        if i > 0 { assert At(cs[1..], i - 1, j, p); }
      }
      if Member(cs[1..], p) {
        var i, j :| At(cs[1..], i, j, p);
        assert At(cs, i + 1, j, p);
      }
      if p in cs[0].pids {
        var j :| 0 <= j < |cs[0].pids| && cs[0].pids[j] == p;
        assert At(cs, 0, j, p);
      }
    }
  }

  lemma ShapeTail(cs: seq<Chain>)
    requires Shape(cs) && cs != []
    ensures Shape(cs[1..])
  {
    forall i, j, p: nat | At(cs[1..], i, j, p) ensures At(cs, i + 1, j, p) {}
  }

  lemma {:induction false} PidsCount(cs: seq<Chain>)
    requires Shape(cs)
    ensures |Pids(cs)| == TotalLength(cs)
  {
    if cs != [] {
      ShapeTail(cs);
      PidsCount(cs[1..]);
      var ps := cs[0].pids;
      forall i, j | 0 <= i < j < |ps| ensures ps[i] != ps[j] {
        assert At(cs, 0, i, ps[i]) && At(cs, 0, j, ps[j]);
      }
      DistinctCount(ps);
      forall p | p in Elements(ps) ensures p !in Pids(cs[1..]) {
        PidsMember(cs[1..], p);
        var j :| 0 <= j < |ps| && ps[j] == p;
        assert At(cs, 0, j, p);
        if Member(cs[1..], p) {
          var i', j' :| At(cs[1..], i', j', p);
          assert At(cs, i' + 1, j', p);
        }
      }
    }
  }

  function InUse(t: Tables): set<nat>
    requires |t.inUse| == MAX_PID
  {
    set p: nat | p < MAX_PID && t.inUse[p]
  }

  /** Pids in use are the processes of all chains plus the allocations in flight. */
  lemma InUseCount(s: State, cs: seq<Chain>)
    requires Represents(s, cs)
    ensures |InUse(s.t)| == TotalLength(cs) + |s.pending|
  {
    PidsCount(cs);
    forall p: nat ensures p in Pids(cs) <==> Member(cs, p) { PidsMember(cs, p); }
    forall p | p in Pids(cs) ensures p in InUse(s.t) {
      var i, j :| At(cs, i, j, p);
    }
    assert InUse(s.t) == Pids(cs) + s.pending.Keys;
    assert |s.pending.Keys| == |s.pending|;
  }

  function Tops(cs: seq<Chain>): (r: seq<nat>)
    requires forall i :: 0 <= i < |cs| ==> cs[i].pids != []
  {
    seq(|cs|, i requires 0 <= i < |cs| => cs[i].pids[|cs[i].pids| - 1])
  }

  function Roots(cs: seq<Chain>): (r: seq<nat>)
    requires forall i :: 0 <= i < |cs| ==> cs[i].pids != []
  {
    seq(|cs|, i requires 0 <= i < |cs| => cs[i].pids[0])
  }

  /** As many pids are scheduled as there are chains. */
  lemma ReadyCount(s: State, cs: seq<Chain>)
    requires Represents(s, cs)
    ensures |Ready(s.t.sched)| == |cs|
  {
    var ts := Tops(cs);
    forall i | 0 <= i < |cs| ensures Top(cs, i, ts[i]) {}
    forall i, j | 0 <= i < j < |ts| ensures ts[i] != ts[j] {
      assert Top(cs, i, ts[i]) && Top(cs, j, ts[j]);
    }
    forall p | p in Ready(s.t.sched) ensures p in ts {
      var i :| Top(cs, i, p);
      assert ts[i] == p;
    }
    assert Elements(ts) == Ready(s.t.sched);
    DistinctCount(ts);
  }

  /** Live processes without a parent. */
  ghost function RootShells(s: State): set<nat>
    requires Sized(s.t)
  {
    set p: nat | p < MAX_PID && Live(s, p) && s.t.parent[p] == None
  }

  lemma RootCount(s: State, cs: seq<Chain>)
    requires Represents(s, cs)
    ensures |RootShells(s)| == |cs|
  {
    var rs := Roots(cs);
    forall i | 0 <= i < |cs| ensures At(cs, i, 0, rs[i]) {}
    forall i, j | 0 <= i < j < |rs| ensures rs[i] != rs[j] {
      assert At(cs, i, 0, rs[i]) && At(cs, j, 0, rs[j]);
    }
    forall p | p in RootShells(s) ensures p in rs {
      LiveIsMember(s, cs, p);
      var i, j :| At(cs, i, j, p);
      assert rs[i] == p;
    }
    forall p | p in rs ensures p in RootShells(s) {
      var i :| 0 <= i < |rs| && rs[i] == p;
      assert At(cs, i, 0, p);
      LiveIsMember(s, cs, p);
    }
    assert Elements(rs) == RootShells(s);
    DistinctCount(rs);
  }

  // ----- one chain per terminal -----

  /** Every chain and every shell being started has a terminal of its own. */
  ghost predicate OwnTerminals(s: State, cs: seq<Chain>) {
    && (forall i :: 0 <= i < |cs| ==> cs[i].term in s.started)
    && (forall i, j :: 0 <= i < j < |cs| ==> cs[i].term != cs[j].term)
    && (forall q :: q in s.pending && s.pending[q].ByShell? ==>
          s.pending[q].term in s.started && forall i :: 0 <= i < |cs| ==> cs[i].term != s.pending[q].term)
    && (forall q, r :: q in s.pending && r in s.pending && q != r && s.pending[q].ByShell? && s.pending[r].ByShell?
          ==> s.pending[q].term != s.pending[r].term)
  }

  /** Losing allocations and changing chains without changing their terminals takes nothing away. */
  lemma SameTerminals(s: State, cs: seq<Chain>, s': State, cs': seq<Chain>)
    requires OwnTerminals(s, cs) && s.started <= s'.started
    requires |cs| == |cs'| && forall i :: 0 <= i < |cs| ==> cs[i].term == cs'[i].term
    requires forall q :: q in s'.pending ==> q in s.pending && s'.pending[q] == s.pending[q]
    ensures OwnTerminals(s', cs')
  {
  }

  lemma ShellTerminal(s: State, cs: seq<Chain>, s': State, q: nat, c: Chain)
    requires OwnTerminals(s, cs) && s.started == s'.started
    requires q in s.pending && s.pending[q].ByShell? && c.term == s.pending[q].term
    requires s'.pending == s.pending - {q}
    ensures OwnTerminals(s', cs + [c])
  {
  }

  lemma AllocateTerminal(s: State, cs: seq<Chain>, o: Origin, started: set<nat>)
    requires Sized(s.t) && OwnTerminals(s, cs)
    requires started == if o.ByShell? then s.started + {o.term} else s.started
    requires o.ByShell? ==> o.term !in s.started
    ensures OwnTerminals(Allocate(s, o).(started := started), cs)
  {
  }

  lemma StepOwnTerminals(s: State, cs: seq<Chain>, e: Event)
    requires Represents(s, cs) && Enabled(s, e) && OwnTerminals(s, cs)
    requires e.BeginShell? ==> e.term !in s.started
    ensures OwnTerminals(Step(s, e), ChainStep(cs, s, e))
  {
    match e
    case BeginExecute => AllocateTerminal(s, cs, ByExecute(s.t.running), s.started);
    case BeginShell(term) => AllocateTerminal(s, cs, ByShell(s.t.running, term), s.started + {term});
    case EndShell(q, true) => ShellTerminal(s, cs, Step(s, e), q, Chain(s.pending[q].term, [q]));
    case _ => SameTerminals(s, cs, Step(s, e), ChainStep(cs, s, e));
  }

  ghost predicate OneChainEach(s: State) {
    exists cs :: Represents(s, cs) && OwnTerminals(s, cs)
  }

  lemma {:induction false} GuardedRunKeeps(s: State, es: seq<Event>)
    requires OneChainEach(s) && IsRun(s, es, true)
    ensures OneChainEach(Run(s, es, true))
    decreases |es|
  {
    if es != [] {
      var cs :| Represents(s, cs) && OwnTerminals(s, cs);
      StepKeeps(s, cs, es[0]);
      StepOwnTerminals(s, cs, es[0]);
      GuardedRunKeeps(Step(s, es[0]), es[1..]);
    }
  }

  lemma ChainsBounded(s: State, cs: seq<Chain>)
    requires Represents(s, cs) && OwnTerminals(s, cs)
    ensures |cs| <= NR_TERM
  {
    var ts := seq(|cs|, i requires 0 <= i < |cs| => cs[i].term);
    DistinctCount(ts);
    SubsetCount(Elements(ts), {0, 1, 2, 3});
  }

  lemma SubsetCount<T>(a: set<T>, b: set<T>)
    requires a <= b
    ensures |a| <= |b|
  {
    assert b == a + (b - a);
  }

  /**
   * In every guarded run the live processes of each terminal form a single chain, from one root
   * shell to one scheduled leaf. So the scheduled pids are as many as the root shells, at most
   * four, and the pids in use are the chain lengths plus the allocations in flight.
   */
  lemma GuardedReachable(s: State) returns (cs: seq<Chain>)
    requires Reachable(s, true)
    ensures Represents(s, cs) && OwnTerminals(s, cs)
    ensures |Ready(s.t.sched)| == |RootShells(s)| == |cs| <= NR_TERM
    ensures |InUse(s.t)| == TotalLength(cs) + |s.pending|
  {
    assert Represents(Boot(), []) && OwnTerminals(Boot(), []);
    var es :| IsRun(Boot(), es, true) && Run(Boot(), es, true) == s;
    GuardedRunKeeps(Boot(), es);
    cs :| Represents(s, cs) && OwnTerminals(s, cs);
    ReadyCount(s, cs);
    RootCount(s, cs);
    ChainsBounded(s, cs);
    InUseCount(s, cs);
  }
}
