/**
 * Where process control blocks and kernel stacks lie (kernel/pcb.c, kernel/tasks.h): 8 KB blocks
 * counted down from 8 MB, a PCB at the bottom of each and a stack growing down from its top. This is
 * what lets the kernel find the running process from its stack pointer alone.
 */
module Pcb {

  /** get_pcb, in 32-bit arithmetic. */
  function GetPcb(pid: bv32): bv32 {
    (0x0080_0000 - 1 - 0x2000 * pid) & (!0x2000 + 1)
  }

  /** pcb_process, for a given stack pointer. */
  function PcbProcess(esp: bv32): bv32 { esp & 0xFFFF_E000 }

  /** The KERNEL_STACK macro. */
  function KernelStack(pid: bv32): bv32 { 0x0080_0000 - 0x2000 * pid - 4 }

  /** The pids whose block lies in the kernel's 4 MB to 8 MB. */
  predicate InKernel(pid: bv32) { pid < 512 }

  ghost predicate InBlock(pid: bv32, a: bv32) { GetPcb(pid) <= a <= GetPcb(pid) + 0x1FFF }

  lemma BlockAddress(pid: bv32)
    requires InKernel(pid)
    ensures GetPcb(pid) == 0x007F_E000 - 0x2000 * pid
    ensures 0x0040_0000 <= GetPcb(pid) <= 0x007F_E000
  {
  }

  /** A stack pointer identifies the process exactly as long as it stays inside that process's block. */
  lemma StackIdentifies(pid: bv32, esp: bv32)
    requires InKernel(pid)
    ensures PcbProcess(esp) == GetPcb(pid) <==> InBlock(pid, esp)
  {
    BlockAddress(pid);
    var base := GetPcb(pid);
    assert base & 0x1FFF == 0 by { assert base == 0x007F_E000 - 0x2000 * pid; }
    Masked(base, esp);
  }

  lemma Masked(base: bv32, esp: bv32)
    requires base & 0x1FFF == 0 && base <= 0x007F_E000
    ensures esp & 0xFFFF_E000 == base <==> base <= esp <= base + 0x1FFF
  {
  }

  /** The stack execute gives a new process is the one the TSS gets later, and lies in the block of its PCB. */
  lemma StackTop(pid: bv32)
    requires InKernel(pid)
    ensures KernelStack(pid) == GetPcb(pid) + 0x2000 - 4
    ensures PcbProcess(KernelStack(pid)) == GetPcb(pid)
  {
  }

  /** Blocks of different pids have no address in common. */
  lemma BlocksDisjoint(p: bv32, q: bv32, a: bv32)
    requires InKernel(p) && InKernel(q) && InBlock(p, a) && InBlock(q, a)
    ensures p == q
  {
    StackIdentifies(p, a);
    StackIdentifies(q, a);
    BlockAddress(p);
    BlockAddress(q);
  }
}
