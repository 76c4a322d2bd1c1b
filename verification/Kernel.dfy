/**
 * The kernel's own tables, updated in place as tasks.c, scheduling.c and syscall.c update them.
 * Each method is tied to the table operation the transition system of module Processes uses.
 */
module Kernel {
  import opened Sequences
  import opened Scheduler
  import opened Processes

  class KernelTables {
    const pidUsage: array<bool>
    const sched: array<bool>
    const parent: array<Option<nat>>
    const term: array<nat>
    var running: nat

    ghost predicate Valid()
      reads this
    {
      pidUsage.Length == sched.Length == parent.Length == term.Length == MAX_PID
      && pidUsage != sched && running < MAX_PID
    }

    ghost function Repr(): set<object> {
      {this, pidUsage, sched, parent, term}
    }

    ghost function View(): (t: Tables)
      reads this, Repr()
      requires Valid()
      ensures Sized(t)
    {
      Tables(pidUsage[..], sched[..], parent[..], term[..], running)
    }

    /** Boot: init_tasks and scheduling_init. */
    constructor ()
      ensures Valid() && fresh(Repr() - {this})
      ensures View() == Boot().t
    {
      var usage, ready := new bool[MAX_PID], new bool[MAX_PID];
      pidUsage, sched := usage, ready;
      parent := new Option<nat>[MAX_PID](i => None);
      term := new nat[MAX_PID](i => 0);
      running := 0;
      new;
      pidUsage[0] := false;
      var i := 1;
      while i < MAX_PID
        invariant 1 <= i <= MAX_PID
        invariant forall p :: 0 <= p < i ==> !pidUsage[p]
        invariant forall p :: 0 <= p < MAX_PID ==> parent[p] == None && term[p] == 0
        modifies pidUsage
      {
        pidUsage[i] := false;
        i := i + 1;
      }
      i := 0;
      while i < MAX_PID
        invariant 0 <= i <= MAX_PID
        invariant forall p :: 0 <= p < MAX_PID ==> !pidUsage[p]
        invariant forall p :: 0 <= p < i ==> !sched[p]
        invariant forall p :: 0 <= p < MAX_PID ==> parent[p] == None && term[p] == 0
        modifies sched
      {
        sched[i] := false;
        i := i + 1;
      }
    }

    method PidNew() returns (pid: int)
      requires Valid()
      modifies pidUsage
      ensures Valid()
      ensures match LowestFree(old(View().inUse), 1)
              case None => pid == -1 && View() == old(View())
              case Some(q) => pid == q && View() == old(View()).(inUse := old(View().inUse)[q := true])
    {
      var i := 1;
      while i < MAX_PID
        invariant 1 <= i <= MAX_PID
        invariant pidUsage[..] == old(pidUsage[..])
        invariant LowestFree(pidUsage[..], 1) == LowestFree(pidUsage[..], i)
      {
        if !pidUsage[i] {
          pidUsage[i] := true;
          return i;
        }
        i := i + 1;
      }
      return -1;
    }

    method PidFree(pid: nat)
      requires Valid() && pid < MAX_PID
      modifies pidUsage
      ensures Valid() && View() == FreePid(old(View()), pid)
    {
      pidUsage[pid] := false;
    }

    method ScheduleTask(pid: nat)
      requires Valid() && pid < MAX_PID
      modifies sched
      ensures Valid() && View() == old(View()).(sched := old(View().sched)[pid := true])
    {
      sched[pid] := true;
    }

    method UnscheduleTask(pid: nat)
      requires Valid() && pid < MAX_PID
      modifies sched
      ensures Valid() && View() == old(View()).(sched := old(View().sched)[pid := false])
    {
      sched[pid] := false;
    }

    /** The critical section of execute; `loaded` is whether the loader found an entry point. */
    method ExecuteSection(pid: nat, loaded: bool) returns (code: int)
      requires Valid() && pid < MAX_PID
      modifies Repr()
      ensures Valid()
      ensures code == if loaded then 0 else -1
      ensures View() == if loaded then CommitExecute(old(View()), pid) else FreePid(old(View()), pid)
    {
      if !loaded {
        PidFree(pid);
        return -1;
      }
      ScheduleTask(pid);
      UnscheduleTask(running);
      term[pid] := term[running];
      parent[pid] := Some(running);
      running := pid;
      return 0;
    }

    /** The critical section of init_shell for terminal `t`. */
    method InitShellSection(pid: nat, t: nat, loaded: bool) returns (code: int)
      requires Valid() && pid < MAX_PID
      modifies Repr()
      ensures Valid()
      ensures code == if loaded then 0 else -1
      ensures View() == if loaded then CommitShell(old(View()), pid, t) else FreePid(old(View()), pid)
    {
      if !loaded {
        PidFree(pid);
        return -1;
      }
      ScheduleTask(pid);
      parent[pid] := None;
      term[pid] := t;
      running := pid;
      return 0;
    }

    /**
     * Halt, up to the point where interrupts are enabled again. For a root shell that is after its pid
     * is freed; `restart` then names the terminal it goes on to start a new shell for.
     */
    method HaltCurrent() returns (restart: Option<nat>)
      requires Valid() && 1 <= running
      requires parent[running].Some? ==> parent[running].value < MAX_PID
      modifies Repr()
      ensures Valid()
      ensures match old(View()).parent[old(running)]
              case Some(up) => View() == HaltChild(old(View()), up) && restart == None
              case None => View() == FreePid(old(View()), old(running)) && restart == Some(old(View()).term[running])
    {
      match parent[running]
      case None =>
        PidFree(running);
        return Some(term[running]);
      case Some(up) =>
        PidFree(running);
        ScheduleTask(up);
        UnscheduleTask(running);
        running := up;
        return None;
    }

    /** A tick. The redirection of the next process's video page is not part of it. */
    method Tick()
      requires Valid()
      modifies this`running
      ensures Valid()
      ensures View() == old(View()).(running := Next(old(View()).sched, old(running)))
    {
      var none, next := PickNext(sched, running);
      if none { return; }
      running := next;
    }
  }
}
