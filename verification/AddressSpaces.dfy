/**
 * Processes and their address spaces together: the critical sections of execute and init_shell set
 * up the page directory of the pid they commit (kernel/syscall.c), so at all times every live
 * process has its program where it should be, and apart from all others.
 */
module AddressSpaces {
  import opened Sequences
  import opened Scheduler
  import opened Processes
  import Paging

  /** Only a commit brings a process to life. */
  lemma LiveAfterStep(s: State, e: Event, p: nat)
    requires Enabled(s, e) && Live(Step(s, e), p)
    ensures Live(s, p) || Concludes(e, p)
  {
  }

  lemma {:induction false} LiveWasCommitted(s: State, es: seq<Event>, p: nat, guarded: bool)
    requires IsRun(s, es, guarded) && Live(Run(s, es, guarded), p)
    ensures Live(s, p) || exists i :: 0 <= i < |es| && Concludes(es[i], p)
    decreases |es|
  {
    if es != [] {
      LiveWasCommitted(Step(s, es[0]), es[1..], p, guarded);
      if Live(Step(s, es[0]), p) {
        LiveAfterStep(s, es[0], p);
      } else {
        var i :| 0 <= i < |es[1..]| && Concludes(es[1..][i], p);
        assert Concludes(es[i + 1], p);
      }
    }
  }

  /**
   * The paging operations of a run: one paging_allocate for every commit or abort, which comes after it
   * in the same critical section, and any others besides.
   */
  ghost predicate Accompanies(ops: seq<Paging.Op>, es: seq<Event>) {
    && (forall i :: 0 <= i < |ops| ==> Paging.Proper(ops[i]))
    && (forall i, p: nat :: 0 <= i < |es| && Concludes(es[i], p) ==> Paging.AllocateOp(p) in ops)
  }

  lemma LiveIsAllocated(es: seq<Event>, ops: seq<Paging.Op>, p: nat, guarded: bool, boot: State)
    requires boot == Boot() && IsRun(boot, es, guarded) && Accompanies(ops, es) && Live(Run(boot, es, guarded), p)
    ensures 1 <= p < MAX_PID && Paging.AllocateOp(p) in ops
  {
    LiveWasCommitted(boot, es, p, guarded);
    ReachableRepresented(Run(boot, es, guarded), guarded);
    var cs :| Represents(Run(boot, es, guarded), cs);
    LiveIsMember(Run(boot, es, guarded), cs, p);
  }

  /**
   * After every run from boot, with any video mappings in between, the program area of every live
   * process is its own 4 MB image and the kernel is out of its reach.
   */
  lemma LiveProgramsInPlace(es: seq<Event>, ops: seq<Paging.Op>, p: nat, guarded: bool, boot: State,
                            l: Paging.Layout, k: nat, a: Paging.Access)
    requires boot == Boot() && IsRun(boot, es, guarded) && Accompanies(ops, es) && Live(Run(boot, es, guarded), p)
    requires Paging.Apart(l) && k < 0x40_0000
    ensures 1 <= p < MAX_PID
    ensures var t := Paging.ApplyAll(Paging.Initial(l), l, ops);
            && Paging.Walk(t, l, p, 0x800_0000 + k, a) == Some((p + 1) * 0x40_0000 + k)
            && Paging.Walk(t, l, p, 0x40_0000 + k, a) == if a.user then None else Some(0x40_0000 + k)
  {
    LiveIsAllocated(es, ops, p, guarded, boot);
    Paging.EveryRun(l, ops, p, k, a);
  }

  /** And no two live processes share a user page from 4 MB up. */
  lemma LiveProgramsApart(es: seq<Event>, ops: seq<Paging.Op>, p: nat, q: nat, guarded: bool, boot: State,
                          l: Paging.Layout, va: nat, vb: nat, a: Paging.Access, b: Paging.Access)
    requires boot == Boot() && IsRun(boot, es, guarded) && Accompanies(ops, es)
    requires Live(Run(boot, es, guarded), p) && Live(Run(boot, es, guarded), q) && p != q
    requires Paging.Apart(l) && a.user && b.user
    ensures 1 <= p < MAX_PID && 1 <= q < MAX_PID
    ensures var t := Paging.ApplyAll(Paging.Initial(l), l, ops);
            var pa, pb := Paging.Walk(t, l, p, va, a), Paging.Walk(t, l, q, vb, b);
            pa.Some? && pa == pb ==> pa.value < 0x40_0000
  {
    LiveIsAllocated(es, ops, p, guarded, boot);
    LiveIsAllocated(es, ops, q, guarded, boot);
    Paging.EveryRunIsolates(l, ops, p, q, va, vb, a, b);
  }
}
