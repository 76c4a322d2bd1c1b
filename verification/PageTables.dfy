/** The static page directories and tables of kernel/paging.c, filled in place. */
module PageTables {
  import opened Sequences
  import opened Scheduler
  import opened Paging

  class Memory {
    const layout: Layout
    const dirs: seq<array<Entry>>
    const boot: array<Entry>
    const user: array<Entry>
    const video: seq<array<Entry>>

    ghost predicate Valid() {
      && |dirs| == |video| == MAX_PID && boot.Length == user.Length == 1024 && boot != user
      && (forall p :: 0 <= p < MAX_PID ==> dirs[p].Length == video[p].Length == 1024)
      && (forall p :: 0 <= p < MAX_PID ==> dirs[p] != boot && dirs[p] != user && video[p] != boot && video[p] != user)
      && (forall p, q :: 0 <= p < MAX_PID && 0 <= q < MAX_PID ==> dirs[p] != video[q])
      && (forall p, q :: 0 <= p < q < MAX_PID ==> dirs[p] != dirs[q] && video[p] != video[q])
    }

    ghost predicate Shows(t: Tables)
      reads boot, user, dirs, video
    {
      && Valid() && Sized(t) && t.boot == boot[..] && t.user == user[..]
      && forall p :: 0 <= p < MAX_PID ==> t.dirs[p] == dirs[p][..] && t.video[p] == video[p][..]
    }

    constructor (layout: Layout, dirs: seq<array<Entry>>, boot: array<Entry>, user: array<Entry>,
                 video: seq<array<Entry>>)
      requires |dirs| == |video| == MAX_PID
      ensures this.layout == layout && this.dirs == dirs && this.boot == boot && this.user == user
      ensures this.video == video
    {
      this.layout, this.dirs, this.boot, this.user, this.video := layout, dirs, boot, user, video;
    }

    /** The first loop of paging_init: every low page, of which only the video page is present. */
    method FillLow(table: array<Entry>, shared: bool)
      requires table.Length == 1024
      modifies table
      ensures forall i :: 0 <= i < 1024 ==> table[i] == Entry(i == VIDEO, shared, shared, false, false, i)
    {
      var i := 0;
      while i < 1024
        invariant 0 <= i <= 1024
        invariant forall k :: 0 <= k < i ==> table[k] == Entry(false, shared, shared, false, false, k)
      {
        table[i] := Entry(false, shared, shared, false, false, i);
        i := i + 1;
      }
      table[VIDEO] := table[VIDEO].(present := true);
    }

    method FillBootDirectory(dir: array<Entry>)
      requires dir.Length == 1024
      modifies dir
      ensures forall i :: 0 <= i < 1024 ==>
                dir[i] == if i == 0 then Entry(true, false, false, false, false, layout.boot)
                          else if i == 1 then Kernel() else Entry(false, true, false, false, false, i * 1024)
    {
      dir[0] := Entry(true, false, false, false, false, layout.boot);
      dir[1] := Kernel();
      var i := 2;
      while i < 1024
        invariant 2 <= i <= 1024
        invariant dir[0] == Entry(true, false, false, false, false, layout.boot) && dir[1] == Kernel()
        invariant forall k :: 2 <= k < i ==> dir[k] == Entry(false, true, false, false, false, k * 1024)
      {
        dir[i] := Entry(false, true, false, false, false, i * 1024);
        i := i + 1;
      }
    }

    /** paging_init, on tables that start out zero. */
    method Init()
      requires Valid()
      requires forall p, i :: 0 <= p < MAX_PID && 0 <= i < 1024 ==> dirs[p][i] == Absent() && video[p][i] == Absent()
      modifies boot, user, dirs[0]
      ensures Shows(Initial(layout))
    {
      FillLow(boot, false);
      FillLow(user, true);
      FillBootDirectory(dirs[0]);
      assert boot[..] == Initial(layout).boot && user[..] == Initial(layout).user;
      assert dirs[0][..] == Initial(layout).dirs[0];
      forall p | 0 <= p < MAX_PID
        ensures dirs[p][..] == Initial(layout).dirs[p] && video[p][..] == Initial(layout).video[p]
      {
      }
    }

    /** paging_allocate. */
    method AllocateFor(pid: nat, ghost t: Tables) returns (code: int)
      requires Shows(t)
      modifies if pid < MAX_PID then {dirs[pid]} else {}
      ensures Shows(Allocate(t, layout, pid)) && code == if pid < MAX_PID then 0 else -1
    {
      if pid >= MAX_PID { return -1; }
      dirs[pid][0] := Table(layout.user);
      dirs[pid][1] := Kernel();
      dirs[pid][32] := Image(pid);
      return 0;
    }

    method FillVideo(table: array<Entry>)
      requires table.Length == 1024
      modifies table
      ensures table[..] == FreshVideo()
    {
      var i := 0;
      while i < 1024
        invariant 0 <= i <= 1024
        invariant forall k :: 0 <= k < i ==> table[k] == Entry(false, true, false, false, false, 0)
      {
        table[i] := Entry(false, true, false, false, false, 0);
        i := i + 1;
      }
      table[VIDEO] := table[VIDEO].(frame := VIDEO, present := true, user := true);
    }

    /** paging_map_video; `start` is the address handed back to the program. */
    method MapVideoFor(pid: nat, ghost t: Tables) returns (code: int, start: nat)
      requires Shows(t)
      modifies if pid < MAX_PID then {dirs[pid], video[pid]} else {}
      ensures Shows(MapVideo(t, layout, pid)) && code == (if pid < MAX_PID then 0 else -1)
      ensures start == VIDEO_PAGE
      ensures pid < MAX_PID && Apart(layout) ==>
                forall a :: Walk(MapVideo(t, layout, pid), layout, pid, start, a) == Some(VIDEO * 0x1000)
    {
      start := 0x7C0_0000 + VIDEO * 0x1000;
      if pid >= MAX_PID { return -1, start; }
      FillVideo(video[pid]);
      dirs[pid][31] := Table(layout.video + pid);
      return 0, start;
    }

    /** update_video_paging. */
    method UpdateVideoFor(pid: nat, addr: nat, ghost t: Tables)
      requires Shows(t) && pid < MAX_PID
      modifies video[pid]
      ensures Shows(UpdateVideo(t, pid, addr))
    {
      video[pid][VIDEO] := video[pid][VIDEO].(frame := addr / 0x1000 % 1024);
    }
  }
}
