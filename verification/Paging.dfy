/**
 * Address spaces (kernel/paging.c): one page directory and one video page table per pid, and the
 * two-level translation of section 4.3 of volume 3A of the Intel SDM that the processor applies.
 */
module Paging {
  import opened Sequences
  import opened Scheduler
  import opened Arithmetic

  /** A directory or table entry; the flags the kernel always leaves zero are not kept. */
  datatype Entry = Entry(present: bool, writable: bool, user: bool, large: bool, global: bool, frame: nat)

  function Absent(): Entry { Entry(false, false, false, false, false, 0) }

  datatype Tables = Tables(dirs: seq<seq<Entry>>, boot: seq<Entry>, user: seq<Entry>, video: seq<seq<Entry>>)

  /** The page frames the linker gives the static tables; those of the video tables are consecutive. */
  datatype Layout = Layout(boot: nat, user: nat, video: nat)

  ghost predicate Apart(l: Layout) {
    l.boot != l.user && !(l.video <= l.boot < l.video + MAX_PID) && !(l.video <= l.user < l.video + MAX_PID)
  }

  ghost predicate Sized(t: Tables) {
    && |t.dirs| == |t.video| == MAX_PID && |t.boot| == |t.user| == 1024
    && forall p :: 0 <= p < MAX_PID ==> |t.dirs[p]| == |t.video[p]| == 1024
  }

  // ----- translation -----

  /** The page table in a frame, if there is one. */
  function TableAt(t: Tables, l: Layout, frame: nat): Option<seq<Entry>>
    requires Sized(t)
  {
    if frame == l.boot then Some(t.boot)
    else if frame == l.user then Some(t.user)
    else if l.video <= frame < l.video + MAX_PID then Some(t.video[frame - l.video])
    else None
  }

  /** Who touches a page, and whether it is a store. */
  datatype Access = Access(user: bool, write: bool)

  /** The kernel leaves write protection of its own stores off (CR0.WP). */
  predicate Permits(e: Entry, a: Access) {
    e.present && (a.user ==> e.user) && (a.user && a.write ==> e.writable)
  }

  /** The physical address of a virtual one in the directory of `pid`, or None for a page fault. */
  function Walk(t: Tables, l: Layout, pid: nat, va: nat, a: Access): Option<nat>
    requires Sized(t) && pid < MAX_PID
  {
    var pde := t.dirs[pid][va / 0x40_0000 % 1024];
    if !Permits(pde, a) then None
    else if pde.large then Some(pde.frame / 1024 * 0x40_0000 + va % 0x40_0000)
    else match TableAt(t, l, pde.frame)
      case None => None
      case Some(table) =>
        if |table| != 1024 then None
        else
          var pte := table[va / 0x1000 % 1024];
          if !Permits(pte, a) then None else Some(pte.frame * 0x1000 + va % 0x1000)
  }

  // ----- the operations -----

  const VIDEO: nat := 0xB8

  function Kernel(): Entry { Entry(true, true, false, true, true, 0x400) }

  function Image(pid: nat): Entry { Entry(true, true, true, true, false, (pid + 1) * 1024) }

  function Table(frame: nat): Entry { Entry(true, true, true, false, false, frame) }

  /** paging_init on tables that are all zero. */
  function Initial(l: Layout): (t: Tables)
    ensures Sized(t)
  {
    var zero := seq<Entry>(1024, i => Absent());
    var dir := seq<Entry>(1024, i requires 0 <= i < 1024 =>
                 if i == 0 then Entry(true, false, false, false, false, l.boot)
                 else if i == 1 then Kernel()
                 else Entry(false, true, false, false, false, i * 1024));
    Tables(seq(MAX_PID, p => zero)[0 := dir],
           seq<Entry>(1024, i requires 0 <= i < 1024 => Entry(i == VIDEO, false, false, false, false, i)),
           seq<Entry>(1024, i requires 0 <= i < 1024 => Entry(i == VIDEO, true, true, false, false, i)),
           seq(MAX_PID, p => zero))
  }

  /** paging_allocate. */
  function Allocate(t: Tables, l: Layout, pid: nat): (r: Tables)
    requires Sized(t)
    ensures Sized(r)
  {
    if pid >= MAX_PID then t
    else t.(dirs := t.dirs[pid := t.dirs[pid][0 := Table(l.user)][1 := Kernel()][32 := Image(pid)]])
  }

  /** The video table of a pid that has just asked for the video page. */
  function FreshVideo(): (v: seq<Entry>)
    ensures |v| == 1024
    ensures forall i :: 0 <= i < 1024 ==>
              v[i] == Entry(i == VIDEO, true, i == VIDEO, false, false, if i == VIDEO then VIDEO else 0)
  {
    seq<Entry>(1024, i requires 0 <= i < 1024 =>
      Entry(i == VIDEO, true, i == VIDEO, false, false, if i == VIDEO then VIDEO else 0))
  }

  /** paging_map_video. */
  function MapVideo(t: Tables, l: Layout, pid: nat): (r: Tables)
    requires Sized(t)
    ensures Sized(r)
  {
    if pid >= MAX_PID then t
    else t.(video := t.video[pid := FreshVideo()],
            dirs := t.dirs[pid := t.dirs[pid][31 := Table(l.video + pid)]])
  }

  /** update_video_paging: the frame number is masked to ten bits. */
  function UpdateVideo(t: Tables, pid: nat, addr: nat): (r: Tables)
    requires Sized(t) && pid < MAX_PID
    ensures Sized(r)
  {
    var e := t.video[pid][VIDEO].(frame := addr / 0x1000 % 1024);
    t.(video := t.video[pid := t.video[pid][VIDEO := e]])
  }

  // ----- what every sequence of operations keeps -----

  ghost predicate AbsentOr(e: Entry, shape: Entry) { !e.present || e == shape }

  /** The directory of a pid maps the low tables, the kernel, its video table, its own image, and no more. */
  ghost predicate DirOk(d: seq<Entry>, l: Layout, pid: nat) {
    && |d| == 1024
    && AbsentOr(d[0], Table(l.user)) && AbsentOr(d[1], Kernel())
    && AbsentOr(d[31], Table(l.video + pid)) && AbsentOr(d[32], Image(pid))
    && forall i :: 2 <= i < 1024 && i != 31 && i != 32 ==> !d[i].present
  }

  /** The boot directory maps its own low table and the kernel, and no more. */
  ghost predicate BootDir(d: seq<Entry>, l: Layout) {
    && |d| == 1024 && d[0] == Entry(true, false, false, false, false, l.boot) && d[1] == Kernel()
    && forall i :: 2 <= i < 1024 ==> !d[i].present
  }

  /** Only the video page is mapped, if that. */
  ghost predicate VideoOnly(table: seq<Entry>, page: Entry) {
    && |table| == 1024 && AbsentOr(table[VIDEO], page)
    && forall i :: 0 <= i < 1024 && i != VIDEO ==> !table[i].present
  }

  /** A page of user memory, which programs may read and write. */
  function Page(frame: nat): Entry { Entry(true, true, true, false, false, frame) }

  ghost predicate LowTable(table: seq<Entry>, page: Entry) { VideoOnly(table, page) && table[VIDEO] == page }

  /** A video table, in use exactly if the directory has it, points below 4 MB. */
  ghost predicate VideoOk(t: Tables, pid: nat)
    requires Sized(t) && pid < MAX_PID
  {
    && t.video[pid][VIDEO].frame < 1024 && VideoOnly(t.video[pid], Page(t.video[pid][VIDEO].frame))
    && (t.dirs[pid][31].present <==> t.video[pid][VIDEO].present)
  }

  ghost predicate Inv(t: Tables, l: Layout) {
    && Sized(t) && Apart(l) && LowTable(t.user, Page(VIDEO))
    && LowTable(t.boot, Entry(true, false, false, false, false, VIDEO)) && BootDir(t.dirs[0], l)
    && forall p :: 1 <= p < MAX_PID ==> DirOk(t.dirs[p], l, p) && VideoOk(t, p)
  }

  datatype Op = AllocateOp(pid: nat) | MapVideoOp(pid: nat) | UpdateVideoOp(pid: nat, addr: nat)

  /** The kernel's pids start at 1; the scheduler updates video pages of existing pids only. */
  ghost predicate Proper(op: Op) { op.pid != 0 && (op.UpdateVideoOp? ==> op.pid < MAX_PID) }

  ghost function Apply(t: Tables, l: Layout, op: Op): (r: Tables)
    requires Sized(t) && Proper(op)
    ensures Sized(r)
  {
    match op
    case AllocateOp(pid) => Allocate(t, l, pid)
    case MapVideoOp(pid) => MapVideo(t, l, pid)
    case UpdateVideoOp(pid, addr) => UpdateVideo(t, pid, addr)
  }

  ghost function ApplyAll(t: Tables, l: Layout, ops: seq<Op>): (r: Tables)
    requires Sized(t) && forall i :: 0 <= i < |ops| ==> Proper(ops[i])
    ensures Sized(r)
    decreases |ops|
  {
    if ops == [] then t else ApplyAll(Apply(t, l, ops[0]), l, ops[1..])
  }

  lemma InitialInv(l: Layout)
    requires Apart(l)
    ensures Inv(Initial(l), l)
  {
  }

  lemma ApplyInv(t: Tables, l: Layout, op: Op)
    requires Inv(t, l) && Proper(op)
    ensures Inv(Apply(t, l, op), l)
  {
  }

  /** The directory of `pid` has been set up by paging_allocate. */
  ghost predicate Allocated(t: Tables, l: Layout, pid: nat) {
    Sized(t) && pid < MAX_PID &&
    t.dirs[pid][0] == Table(l.user) && t.dirs[pid][1] == Kernel() && t.dirs[pid][32] == Image(pid)
  }

  lemma ApplyAllocated(t: Tables, l: Layout, op: Op, pid: nat)
    requires Sized(t) && Proper(op) && 1 <= pid < MAX_PID
    ensures Allocated(t, l, pid) || op == AllocateOp(pid) ==> Allocated(Apply(t, l, op), l, pid)
  {
  }

  lemma {:induction false} ApplyAllKeeps(t: Tables, l: Layout, ops: seq<Op>, pid: nat)
    requires Inv(t, l) && (forall i :: 0 <= i < |ops| ==> Proper(ops[i])) && 1 <= pid < MAX_PID
    ensures Inv(ApplyAll(t, l, ops), l)
    ensures Allocated(t, l, pid) || AllocateOp(pid) in ops ==> Allocated(ApplyAll(t, l, ops), l, pid)
    decreases |ops|
  {
    if ops != [] {
      ApplyInv(t, l, ops[0]);
      ApplyAllocated(t, l, ops[0], pid);
      ApplyAllKeeps(Apply(t, l, ops[0]), l, ops[1..], pid);
      assert forall op :: op in ops ==> op == ops[0] || op in ops[1..];
    }
  }

  // ----- what the processes can reach -----

  ghost predicate InImage(pid: nat, pa: nat) { (pid + 1) * 0x40_0000 <= pa < (pid + 2) * 0x40_0000 }

  /** An allocated directory sends the program area to the image of its pid, and the kernel to itself. */
  lemma WalkAllocated(t: Tables, l: Layout, pid: nat, k: nat, a: Access)
    requires Allocated(t, l, pid) && k < 0x40_0000
    ensures Walk(t, l, pid, 0x800_0000 + k, a) == Some((pid + 1) * 0x40_0000 + k)
    ensures Walk(t, l, pid, 0x40_0000 + k, a) == if a.user then None else Some(0x40_0000 + k)
  {
  }

  /** Whatever user code can reach lies in its own image or below 4 MB. */
  lemma WalkConfined(t: Tables, l: Layout, pid: nat, va: nat, a: Access)
    requires Inv(t, l) && 1 <= pid < MAX_PID && a.user && Walk(t, l, pid, va, a).Some?
    ensures var pa := Walk(t, l, pid, va, a).value; InImage(pid, pa) || pa < 0x40_0000
  {
  }

  /** Over every sequence of operations from paging_init: program area and kernel, for reads and writes alike. */
  lemma EveryRun(l: Layout, ops: seq<Op>, pid: nat, k: nat, a: Access)
    requires Apart(l) && (forall i :: 0 <= i < |ops| ==> Proper(ops[i]))
    requires 1 <= pid < MAX_PID && AllocateOp(pid) in ops && k < 0x40_0000
    ensures var t := ApplyAll(Initial(l), l, ops);
            && Walk(t, l, pid, 0x800_0000 + k, a) == Some((pid + 1) * 0x40_0000 + k)
            && Walk(t, l, pid, 0x40_0000 + k, a) == if a.user then None else Some(0x40_0000 + k)
  {
    InitialInv(l);
    ApplyAllKeeps(Initial(l), l, ops, pid);
    WalkAllocated(ApplyAll(Initial(l), l, ops), l, pid, k, a);
  }

  /** Two processes meet only below 4 MB, and neither reaches the kernel's 4 to 8 MB. */
  lemma EveryRunIsolates(l: Layout, ops: seq<Op>, p: nat, q: nat, va: nat, vb: nat, a: Access, b: Access)
    requires Apart(l) && (forall i :: 0 <= i < |ops| ==> Proper(ops[i]))
    requires 1 <= p < MAX_PID && 1 <= q < MAX_PID && p != q && a.user && b.user
    ensures var t := ApplyAll(Initial(l), l, ops);
            var pa, pb := Walk(t, l, p, va, a), Walk(t, l, q, vb, b);
            && (pa.Some? ==> !(0x40_0000 <= pa.value < 0x80_0000))
            && (pa.Some? && pa == pb ==> pa.value < 0x40_0000)
  {
    InitialInv(l);
    ApplyAllKeeps(Initial(l), l, ops, p);
    var t := ApplyAll(Initial(l), l, ops);
    if Walk(t, l, p, va, a).Some? { WalkConfined(t, l, p, va, a); }
    if Walk(t, l, q, vb, b).Some? { WalkConfined(t, l, q, vb, b); }
  }

  /** Allocating a directory opens the kernel to user code exactly for pid 0, which is never handed out. */
  lemma AllocateExposesKernel(t: Tables, l: Layout, pid: nat, a: Access)
    requires Inv(t, l) && pid < MAX_PID && a.user
    ensures (exists va: nat :: var pa := Walk(Allocate(t, l, pid), l, pid, va, a);
               pa.Some? && 0x40_0000 <= pa.value < 0x80_0000) <==> pid == 0
  {
    var t' := Allocate(t, l, pid);
    if pid == 0 {
      WalkAllocated(t', l, 0, 0, a);
      assert Walk(t', l, pid, 0x800_0000 + 0, a) == Some(0x40_0000);
    } else {
      ApplyInv(t, l, AllocateOp(pid));
      forall va: nat | Walk(t', l, pid, va, a).Some?
        ensures !(0x40_0000 <= Walk(t', l, pid, va, a).value < 0x80_0000)
      {
        WalkConfined(t', l, pid, va, a);
      }
    }
  }

  // ----- every address -----

  /** The virtual page of the user's video memory, the one below the program area. */
  const VIDEO_PAGE: nat := 0x7CB_8000

  /** Page and offset of a 32-bit address, and the two indices of the walk. */
  lemma Indices(va: nat)
    requires va < 0x1_0000_0000
    ensures va / 0x40_0000 % 1024 == va / 0x40_0000
    ensures va / 0x1000 % 1024 == va % 0x40_0000 / 0x1000
    ensures va == va / 0x40_0000 * 0x40_0000 + va % 0x40_0000 / 0x1000 * 0x1000 + va % 0x1000
  {
    Split(va);
  }

  lemma Split(va: nat)
    ensures va / 0x1000 == va / 0x40_0000 * 1024 + va % 0x40_0000 / 0x1000
    ensures va % 0x1000 == va % 0x40_0000 % 0x1000
  {
  }

  /** What a process reaches, address by address: `video` is where its video page leads, if it has one. */
  function Reached(pid: nat, video: Option<nat>, va: nat, a: Access): Option<nat> {
    if 0x800_0000 <= va < 0x840_0000 then Some((pid + 1) * 0x40_0000 + (va - 0x800_0000))
    else if 0x40_0000 <= va < 0x80_0000 then if a.user then None else Some(va)
    else if 0xB_8000 <= va < 0xB_9000 then Some(va)
    else if VIDEO_PAGE <= va < VIDEO_PAGE + 0x1000 && video.Some? then Some(video.value + (va - VIDEO_PAGE))
    else None
  }

  /** Where the video page of a pid leads. */
  function VideoOf(t: Tables, pid: nat): Option<nat>
    requires Sized(t) && pid < MAX_PID
  {
    if t.dirs[pid][31].present then Some(t.video[pid][VIDEO].frame * 0x1000) else None
  }

  /** Nothing else is mapped: the walk of every address of an allocated directory. */
  lemma WalkIs(t: Tables, l: Layout, pid: nat, va: nat, a: Access)
    requires Inv(t, l) && Allocated(t, l, pid) && 1 <= pid && va < 0x1_0000_0000
    ensures Walk(t, l, pid, va, a) == Reached(pid, VideoOf(t, pid), va, a)
  {
    Indices(va);
  }

  /** The boot directory maps the kernel and the video page to themselves, for the kernel alone. */
  lemma WalkBoot(t: Tables, l: Layout, va: nat, a: Access)
    requires Inv(t, l) && va < 0x1_0000_0000
    ensures Walk(t, l, 0, va, a) ==
            if !a.user && (0x40_0000 <= va < 0x80_0000 || 0xB_8000 <= va < 0xB_9000) then Some(va) else None
  {
    Indices(va);
  }

  // ----- the video page -----

  /** The address is made of high bits, a page address below 4 MB, and an offset. */
  ghost predicate Composed(addr: nat, high: nat, m: nat, low: nat) {
    m % 0x1000 == 0 && m < 0x40_0000 && low < 0x1000 && addr == high * 0x40_0000 + m + low
  }

  /** `m` is the page address that agrees with `addr` in bits 12 to 21, the ones the update keeps. */
  ghost predicate LowPage(addr: nat, m: nat) {
    exists high: nat, low: nat :: Composed(addr, high, m, low)
  }

  lemma LowPageIs(addr: nat, m: nat)
    requires LowPage(addr, m)
    ensures addr / 0x1000 % 1024 * 0x1000 == m
  {
    var high: nat, low: nat :| Composed(addr, high, m, low);
    var f := m / 0x1000;
    assert m == f * 0x1000 && f < 1024;
    DivisionUnique(addr, 0x1000, high * 1024 + f, low);
    DivisionUnique(high * 1024 + f, 1024, high, f);
  }

  /** An update moves the video page of a pid that has one, and of no other. */
  lemma UpdateMoves(t: Tables, l: Layout, pid: nat, addr: nat, m: nat, p: nat)
    requires Inv(t, l) && 1 <= pid < MAX_PID && p < MAX_PID && LowPage(addr, m)
    ensures Inv(UpdateVideo(t, pid, addr), l)
    ensures VideoOf(UpdateVideo(t, pid, addr), p) ==
            if p == pid && VideoOf(t, pid).Some? then Some(m) else VideoOf(t, p)
  {
    ApplyInv(t, l, UpdateVideoOp(pid, addr));
    LowPageIs(addr, m);
  }

  /**
   * After an update the video page leads to the page that agrees with the address in bits 12 to 21; every
   * other page of that process, and every page of every other one, leads where it did.
   */
  lemma UpdateWalks(t: Tables, l: Layout, pid: nat, addr: nat, m: nat, p: nat, va: nat, a: Access)
    requires Inv(t, l) && 1 <= pid < MAX_PID && LowPage(addr, m) && p < MAX_PID && va < 0x1_0000_0000
    requires VideoOf(t, pid).Some?
    ensures Walk(UpdateVideo(t, pid, addr), l, p, va, a) ==
            if p == pid && VIDEO_PAGE <= va < VIDEO_PAGE + 0x1000 then Some(m + (va - VIDEO_PAGE))
            else Walk(t, l, p, va, a)
  {
    Indices(va);
    LowPageIs(addr, m);
  }

  /** So it leads to the address it was given exactly when that lies below 4 MB. */
  lemma UpdateReachesIff(t: Tables, l: Layout, pid: nat, addr: nat, k: nat, a: Access)
    requires Inv(t, l) && 1 <= pid < MAX_PID && VideoOf(t, pid).Some? && k < 0x1000
    ensures Walk(UpdateVideo(t, pid, addr), l, pid, VIDEO_PAGE + k, a) == Some(addr / 0x1000 * 0x1000 + k) <==>
            addr < 0x40_0000
  {
    var m := addr % 0x40_0000 / 0x1000 * 0x1000;
    assert Composed(addr, addr / 0x40_0000, m, addr % 0x1000) by { Split(addr); }
    UpdateWalks(t, l, pid, addr, m, pid, VIDEO_PAGE + k, a);
    Split(addr);
  }

  /** The operation decides where the video page of `pid` leads. */
  predicate Redirects(op: Op, pid: nat) { !op.AllocateOp? && op.pid == pid }

  lemma ApplyVideo(t: Tables, l: Layout, op: Op, pid: nat)
    requires Inv(t, l) && Proper(op) && 1 <= pid < MAX_PID
    ensures !Redirects(op, pid) ==> VideoOf(Apply(t, l, op), pid) == VideoOf(t, pid)
    ensures op == MapVideoOp(pid) ==> VideoOf(Apply(t, l, op), pid) == Some(0xB_8000)
    ensures VideoOf(t, pid).Some? ==> VideoOf(Apply(t, l, op), pid).Some?
    ensures VideoOf(t, pid).None? && op != MapVideoOp(pid) ==> VideoOf(Apply(t, l, op), pid).None?
  {
  }

  lemma {:induction false} ApplyAllVideo(t: Tables, l: Layout, ops: seq<Op>, pid: nat)
    requires Inv(t, l) && (forall i :: 0 <= i < |ops| ==> Proper(ops[i])) && 1 <= pid < MAX_PID
    ensures VideoOf(ApplyAll(t, l, ops), pid).Some? <==> VideoOf(t, pid).Some? || MapVideoOp(pid) in ops
    ensures (forall i :: 0 <= i < |ops| ==> !Redirects(ops[i], pid)) ==>
              VideoOf(ApplyAll(t, l, ops), pid) == VideoOf(t, pid)
    decreases |ops|
  {
    if ops != [] {
      ApplyInv(t, l, ops[0]);
      ApplyVideo(t, l, ops[0], pid);
      ApplyAllVideo(Apply(t, l, ops[0]), l, ops[1..], pid);
      assert forall op :: op in ops <==> op == ops[0] || op in ops[1..];
    }
  }

  lemma InitialVideo(l: Layout, pid: nat)
    requires pid < MAX_PID
    ensures VideoOf(Initial(l), pid) == None
  {
  }

  /**
   * Over every sequence of operations from paging_init, for every allocated pid and every 32-bit address:
   * a process has its image, the kernel, the low video page, its own video page if it has asked for
   * one, which lies below 4 MB, and nothing else.
   */
  lemma EveryWalk(l: Layout, ops: seq<Op>, pid: nat, va: nat, a: Access)
    requires Apart(l) && (forall i :: 0 <= i < |ops| ==> Proper(ops[i]))
    requires 1 <= pid < MAX_PID && AllocateOp(pid) in ops && va < 0x1_0000_0000
    ensures var t := ApplyAll(Initial(l), l, ops);
            && Walk(t, l, pid, va, a) == Reached(pid, VideoOf(t, pid), va, a)
            && (VideoOf(t, pid).Some? <==> MapVideoOp(pid) in ops)
            && (VideoOf(t, pid).Some? ==> VideoOf(t, pid).value % 0x1000 == 0 && VideoOf(t, pid).value < 0x40_0000)
  {
    InitialInv(l);
    InitialVideo(l, pid);
    ApplyAllKeeps(Initial(l), l, ops, pid);
    ApplyAllVideo(Initial(l), l, ops, pid);
    WalkIs(ApplyAll(Initial(l), l, ops), l, pid, va, a);
  }

  lemma {:induction false} ApplyAllAppend(t: Tables, l: Layout, x: seq<Op>, y: seq<Op>)
    requires Sized(t) && (forall i :: 0 <= i < |x| ==> Proper(x[i])) && (forall i :: 0 <= i < |y| ==> Proper(y[i]))
    ensures ApplyAll(t, l, x + y) == ApplyAll(ApplyAll(t, l, x), l, y)
    decreases |x|
  {
    if x == [] {
      assert x + y == y;
    } else {
      assert (x + y)[0] == x[0] && (x + y)[1..] == x[1..] + y;
      ApplyAllAppend(Apply(t, l, x[0]), l, x[1..], y);
    }
  }

  /** The video page leads where the last request or update for its pid has put it. */
  lemma LastRedirect(l: Layout, before: seq<Op>, op: Op, after: seq<Op>, pid: nat, m: nat)
    requires Apart(l) && 1 <= pid < MAX_PID
    requires forall i :: 0 <= i < |before| ==> Proper(before[i])
    requires forall i :: 0 <= i < |after| ==> Proper(after[i])
    requires Proper(op) && Redirects(op, pid) && (forall i :: 0 <= i < |after| ==> !Redirects(after[i], pid))
    requires op.MapVideoOp? ==> m == 0xB_8000
    requires op.UpdateVideoOp? ==> MapVideoOp(pid) in before && LowPage(op.addr, m)
    ensures VideoOf(ApplyAll(Initial(l), l, before + ([op] + after)), pid) == Some(m)
  {
    InitialInv(l);
    var t := ApplyAll(Initial(l), l, before);
    ApplyAllKeeps(Initial(l), l, before, pid);
    ApplyAllVideo(Initial(l), l, before, pid);
    ApplyAllAppend(Initial(l), l, before, [op] + after);
    assert ([op] + after)[0] == op && ([op] + after)[1..] == after;
    ApplyInv(t, l, op);
    ApplyAllVideo(Apply(t, l, op), l, after, pid);
    if op.UpdateVideoOp? { UpdateMoves(t, l, pid, op.addr, m, pid); } else { ApplyVideo(t, l, op, pid); }
  }
}
