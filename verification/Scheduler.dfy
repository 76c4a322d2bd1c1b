/** The round-robin choice made by each PIT tick (kernel/scheduling.c). */
module Scheduler {
  import opened Sequences
  import opened Arithmetic

  const MAX_PID: nat := 16

  /** One flag per pid: `sched[p]` is set when `p` may be given the processor. */
  type Flags = s: seq<bool> | |s| == MAX_PID witness seq(MAX_PID, i => false)

  /** The set of schedulable pids. */
  function Ready(sched: Flags): (r: set<nat>) {
    set p: nat | p < MAX_PID && sched[p]
  }

  /** The pid `d` steps above `a`, wrapping at MAX_PID. */
  function Up(a: nat, d: nat): (p: nat)
    requires a < MAX_PID && d <= MAX_PID
    ensures p < MAX_PID
  {
    if a + d < MAX_PID then a + d else a + d - MAX_PID
  }

  /** How many steps upward, wrapping at MAX_PID, lead from `a` to `b`; a full turn when they are equal. */
  function Gap(a: nat, b: nat): (g: nat)
    requires a < MAX_PID && b < MAX_PID
    ensures 1 <= g <= MAX_PID
    ensures Up(a, g) == b
  {
    if a < b then b - a else b + MAX_PID - a
  }

  /** `q` is the first ready pid met when walking upward from `cur`, `cur` itself coming last. */
  ghost predicate IsNext(sched: Flags, cur: nat, q: nat)
    requires cur < MAX_PID
  {
    q < MAX_PID && sched[q] &&
    forall r: nat :: r < MAX_PID && sched[r] ==> Gap(cur, q) <= Gap(cur, r)
  }

  /** The first ready pid at `d` or more steps above `cur`, if there is one within a full turn. */
  function SearchFrom(sched: Flags, cur: nat, d: nat): (q: nat)
    requires cur < MAX_PID && 1 <= d <= MAX_PID
    ensures q < MAX_PID
    decreases MAX_PID - d
  {
    if d == MAX_PID || sched[Up(cur, d)] then Up(cur, d)
    else SearchFrom(sched, cur, d + 1)
  }

  function Next(sched: Flags, cur: nat): (q: nat)
    requires cur < MAX_PID
    ensures q < MAX_PID
  {
    if Ready(sched) == {} then cur else SearchFrom(sched, cur, 1)
  }

  lemma GapUnique(a: nat, b: nat, d: nat)
    requires a < MAX_PID && b < MAX_PID && 1 <= d <= MAX_PID && Up(a, d) == b
    ensures Gap(a, b) == d
  {
  }

  lemma GapInjective(a: nat, b: nat, c: nat)
    requires a < MAX_PID && b < MAX_PID && c < MAX_PID && Gap(a, b) == Gap(a, c)
    ensures b == c
  {
  }

  lemma {:induction false} SearchFromIsNext(sched: Flags, cur: nat, d: nat)
    requires cur < MAX_PID && 1 <= d <= MAX_PID
    requires Ready(sched) != {}
    requires forall r: nat :: r < MAX_PID && sched[r] ==> Gap(cur, r) >= d
    ensures IsNext(sched, cur, SearchFrom(sched, cur, d))
    decreases MAX_PID - d
  {
    var here := Up(cur, d);
    GapUnique(cur, here, d);
    if d == MAX_PID {
      var p :| p in Ready(sched);
      GapInjective(cur, p, here);
    } else if !sched[here] {
      forall r: nat | r < MAX_PID && sched[r] ensures Gap(cur, r) >= d + 1 {
        if Gap(cur, r) == d { GapInjective(cur, r, here); }
      }
      SearchFromIsNext(sched, cur, d + 1);
    }
  }

  /** Whenever anything is ready, the tick chooses the first ready pid cyclically after the current one. */
  lemma NextIsNext(sched: Flags, cur: nat)
    requires cur < MAX_PID && Ready(sched) != {}
    ensures IsNext(sched, cur, Next(sched, cur))
    ensures forall q: nat :: IsNext(sched, cur, q) ==> q == Next(sched, cur)
  {
    SearchFromIsNext(sched, cur, 1);
    forall q: nat | IsNext(sched, cur, q) ensures q == Next(sched, cur) {
      GapInjective(cur, q, Next(sched, cur));
    }
  }

  /** A tick that does not choose a waiting ready pid brings the turn strictly closer to it. */
  lemma TickApproaches(sched: Flags, cur: nat, q: nat)
    requires cur < MAX_PID && q < MAX_PID && sched[q]
    ensures var n := Next(sched, cur);
            n < MAX_PID && (n == q || Gap(n, q) < Gap(cur, q))
  {
    assert q in Ready(sched);
    NextIsNext(sched, cur);
    var n := Next(sched, cur);
    if n != q {
      if Gap(cur, q) == Gap(cur, n) { GapInjective(cur, q, n); }
      GapShift(cur, n, q);
    }
  }

  /** Distances measured from a pid passed on the way. */
  lemma GapShift(a: nat, m: nat, b: nat)
    requires a < MAX_PID && m < MAX_PID && b < MAX_PID
    ensures Gap(m, b) == if Gap(a, b) > Gap(a, m) then Gap(a, b) - Gap(a, m)
                         else Gap(a, b) + MAX_PID - Gap(a, m)
  {
  }

  // ----- fairness -----

  /** The ready pids at most `d` steps above `cur`, nearest first. */
  function Turns(sched: Flags, cur: nat, d: nat): (ts: seq<nat>)
    requires cur < MAX_PID && d <= MAX_PID
  {
    if d == 0 then []
    else
      var p := Up(cur, d);
      Turns(sched, cur, d - 1) + if sched[p] then [p] else []
  }

  ghost predicate Ascending(cur: nat, ts: seq<nat>)
    requires cur < MAX_PID && forall i :: 0 <= i < |ts| ==> ts[i] < MAX_PID
  {
    forall i, j :: 0 <= i < j < |ts| ==> Gap(cur, ts[i]) < Gap(cur, ts[j])
  }

  /** `ts` lists the ready pids at most `d` steps above `cur`, nearest first. */
  ghost predicate ListsReady(sched: Flags, cur: nat, d: nat, ts: seq<nat>)
    requires cur < MAX_PID
  {
    && (forall i :: 0 <= i < |ts| ==> ts[i] < MAX_PID && sched[ts[i]] && Gap(cur, ts[i]) <= d)
    && (forall p: nat :: p < MAX_PID && sched[p] && Gap(cur, p) <= d ==> p in ts)
    && Ascending(cur, ts)
  }

  lemma ListsOneMore(sched: Flags, cur: nat, d: nat, ts: seq<nat>, p: nat)
    requires cur < MAX_PID && 1 <= d <= MAX_PID && p == Up(cur, d) && ListsReady(sched, cur, d - 1, ts)
    ensures ListsReady(sched, cur, d, ts + if sched[p] then [p] else [])
  {
    GapUnique(cur, p, d);
    forall q: nat | q < MAX_PID && Gap(cur, q) == d ensures q == p { GapInjective(cur, q, p); }
  }

  lemma {:induction false} TurnsListReady(sched: Flags, cur: nat, d: nat)
    requires cur < MAX_PID && d <= MAX_PID
    ensures ListsReady(sched, cur, d, Turns(sched, cur, d))
  {
    if d > 0 {
      TurnsListReady(sched, cur, d - 1);
      ListsOneMore(sched, cur, d, Turns(sched, cur, d - 1), Up(cur, d));
    }
  }

  /** One full turn from `cur` visits every ready pid exactly once. */
  lemma FullTurn(sched: Flags, cur: nat)
    requires cur < MAX_PID
    ensures var ts := Turns(sched, cur, MAX_PID);
            && |ts| == |Ready(sched)|
            && Distinct(ts)
            && Elements(ts) == Ready(sched)
  {
    TurnsListReady(sched, cur, MAX_PID);
    var ts := Turns(sched, cur, MAX_PID);
    assert Elements(ts) == Ready(sched);
    DistinctCount(ts);
  }

  /** The pid running after `n` ticks during which the ready set does not change. */
  function Ticks(sched: Flags, cur: nat, n: nat): (p: nat)
    requires cur < MAX_PID
    ensures p < MAX_PID
  {
    if n == 0 then cur else Next(sched, Ticks(sched, cur, n - 1))
  }

  /** Successive entries of the turn list are successive choices, and the last leads back to the first. */
  lemma TurnsAreNext(sched: Flags, cur: nat, i: nat, k: nat)
    requires cur < MAX_PID
    requires i < |Turns(sched, cur, MAX_PID)|
    requires k == if i + 1 < |Turns(sched, cur, MAX_PID)| then i + 1 else 0
    ensures var ts := Turns(sched, cur, MAX_PID);
            ts[i] < MAX_PID && Next(sched, ts[i]) == ts[k]
  {
    TurnsListReady(sched, cur, MAX_PID);
    var ts := Turns(sched, cur, MAX_PID);
    assert ts[i] in Ready(sched);
    forall r: nat | r < MAX_PID && sched[r] ensures Gap(ts[i], ts[k]) <= Gap(ts[i], r) {
      var j :| 0 <= j < |ts| && ts[j] == r;
      SuccessorNearest(cur, ts, i, k, j);
    }
    NextIsNext(sched, ts[i]);
    assert IsNext(sched, ts[i], ts[k]);
  }

  lemma SuccessorNearest(cur: nat, ts: seq<nat>, i: nat, k: nat, j: nat)
    requires cur < MAX_PID && forall x :: 0 <= x < |ts| ==> ts[x] < MAX_PID
    requires Ascending(cur, ts) && i < |ts| && j < |ts|
    requires k == if i + 1 < |ts| then i + 1 else 0
    ensures Gap(ts[i], ts[k]) <= Gap(ts[i], ts[j])
  {
  }

  lemma FirstTurn(sched: Flags, cur: nat)
    requires cur < MAX_PID && Ready(sched) != {}
    ensures |Turns(sched, cur, MAX_PID)| > 0
    ensures Next(sched, cur) == Turns(sched, cur, MAX_PID)[0]
  {
    FullTurn(sched, cur);
    TurnsListReady(sched, cur, MAX_PID);
    var ts := Turns(sched, cur, MAX_PID);
    forall r: nat | r < MAX_PID && sched[r] ensures Gap(cur, ts[0]) <= Gap(cur, r) {
      var j :| 0 <= j < |ts| && ts[j] == r;
      if 0 < j { assert Gap(cur, ts[0]) < Gap(cur, ts[j]); }
    }
    NextIsNext(sched, cur);
    assert IsNext(sched, cur, ts[0]);
  }

  /** The schedule is periodic: the ticks walk round the turn list, again and again. */
  lemma {:induction false} TicksCycle(sched: Flags, cur: nat, n: nat)
    requires cur < MAX_PID && Ready(sched) != {}
    ensures |Turns(sched, cur, MAX_PID)| > 0
    ensures var ts := Turns(sched, cur, MAX_PID); Ticks(sched, cur, n + 1) == ts[Cycle(n, |ts|)]
  {
    FirstTurn(sched, cur);
    var ts := Turns(sched, cur, MAX_PID);
    if n == 0 {
      assert Ticks(sched, cur, 1) == Next(sched, Ticks(sched, cur, 0));
    } else {
      TicksCycle(sched, cur, n - 1);
      TurnsAreNext(sched, cur, Cycle(n - 1, |ts|), Cycle(n, |ts|));
    }
  }

  lemma CircleCovers(ts: seq<nat>, m: nat, q: nat) returns (n: nat)
    requires q in ts
    ensures m <= n < m + |ts| && ts[Cycle(n, |ts|)] == q
  {
    var k := |ts|;
    var j: nat :| j < k && ts[j] == q;
    var d := if Cycle(m, k) <= j then j - Cycle(m, k) else j + k - Cycle(m, k);
    CycleAfter(m, d, k);
    n := m + d;
  }

  lemma CircleDistinct(ts: seq<nat>, a: nat, b: nat)
    requires Distinct(ts) && a < b < a + |ts|
    ensures ts[Cycle(a, |ts|)] != ts[Cycle(b, |ts|)]
  {
    CycleAfter(a, b - a, |ts|);
  }

  /** Every ready pid gets a turn within any k consecutive ticks, k being the number of ready pids. */
  lemma RunsWithinRound(sched: Flags, cur: nat, m: nat, q: nat) returns (n: nat)
    requires cur < MAX_PID && q in Ready(sched)
    ensures m < n <= m + |Ready(sched)| && Ticks(sched, cur, n) == q
  {
    FullTurn(sched, cur);
    assert q in Elements(Turns(sched, cur, MAX_PID));
    n := CircleCovers(Turns(sched, cur, MAX_PID), m, q);
    TicksCycle(sched, cur, n);
    n := n + 1;
  }

  /** No pid gets two turns within k consecutive ticks. */
  lemma NoRepeatWithinRound(sched: Flags, cur: nat, a: nat, b: nat)
    requires cur < MAX_PID && Ready(sched) != {}
    requires a < b < a + |Ready(sched)|
    ensures Ticks(sched, cur, a + 1) != Ticks(sched, cur, b + 1)
  {
    FullTurn(sched, cur);
    CircleDistinct(Turns(sched, cur, MAX_PID), a, b);
    TicksCycle(sched, cur, a);
    TicksCycle(sched, cur, b);
  }

  /** The pids run by the `k` ticks after tick `m`. */
  function Round(sched: Flags, cur: nat, m: nat, k: nat): (ps: seq<nat>)
    requires cur < MAX_PID
    ensures |ps| == k
  {
    if k == 0 then [] else Round(sched, cur, m, k - 1) + [Ticks(sched, cur, m + k)]
  }

  lemma {:induction false} RoundAt(sched: Flags, cur: nat, m: nat, k: nat, i: nat)
    requires cur < MAX_PID && i < k
    ensures Round(sched, cur, m, k)[i] == Ticks(sched, cur, m + i + 1)
  {
    var earlier, last := Round(sched, cur, m, k - 1), Ticks(sched, cur, m + k);
    assert Round(sched, cur, m, k) == earlier + [last];
    if i < k - 1 { RoundAt(sched, cur, m, k - 1, i); }
  }

  lemma RoundCovers(sched: Flags, cur: nat, m: nat, q: nat)
    requires cur < MAX_PID && q in Ready(sched)
    ensures q in Round(sched, cur, m, |Ready(sched)|)
  {
    var n := RunsWithinRound(sched, cur, m, q);
    RoundAt(sched, cur, m, |Ready(sched)|, n - m - 1);
  }

  lemma RoundReady(sched: Flags, cur: nat, m: nat, i: nat)
    requires cur < MAX_PID && i < |Ready(sched)|
    ensures Round(sched, cur, m, |Ready(sched)|)[i] in Ready(sched)
  {
    RoundAt(sched, cur, m, |Ready(sched)|, i);
    TickRunsReady(sched, cur, m + i);
  }

  /** With a fixed ready set of size k, ANY k consecutive ticks run each ready pid exactly once. */
  lemma EachOncePerRound(sched: Flags, cur: nat, m: nat)
    requires cur < MAX_PID && Ready(sched) != {}
    ensures Distinct(Round(sched, cur, m, |Ready(sched)|))
    ensures Elements(Round(sched, cur, m, |Ready(sched)|)) == Ready(sched)
  {
    var ps := Round(sched, cur, m, |Ready(sched)|);
    forall i, j | 0 <= i < j < |ps| ensures ps[i] != ps[j] { RoundDiffers(sched, cur, m, i, j); }
    forall q | q in Ready(sched) ensures q in ps { RoundCovers(sched, cur, m, q); }
    forall i | 0 <= i < |ps| ensures ps[i] in Ready(sched) { RoundReady(sched, cur, m, i); }
  }

  lemma RoundDiffers(sched: Flags, cur: nat, m: nat, i: nat, j: nat)
    requires cur < MAX_PID && i < j < |Ready(sched)|
    ensures Round(sched, cur, m, |Ready(sched)|)[i] != Round(sched, cur, m, |Ready(sched)|)[j]
  {
    RoundAt(sched, cur, m, |Ready(sched)|, i);
    RoundAt(sched, cur, m, |Ready(sched)|, j);
    NoRepeatWithinRound(sched, cur, m + i, m + j);
  }

  lemma TickRunsReady(sched: Flags, cur: nat, n: nat)
    requires cur < MAX_PID && Ready(sched) != {}
    ensures Ticks(sched, cur, n + 1) in Ready(sched)
  {
    NextIsNext(sched, Ticks(sched, cur, n));
  }

  /** Stepping with `%`, as the tick handler does, is stepping with Up. */
  lemma UpSucc(cur: nat, d: nat)
    requires cur < MAX_PID && d < MAX_PID
    ensures (Up(cur, d) + 1) % MAX_PID == Up(cur, d + 1)
  {
  }

  /**
   * The search loops of the tick handler. `none` reports the early return taken when nothing is
   * scheduled; otherwise `next` is the pid switched to.
   */
  method PickNext(sched: array<bool>, cur: nat) returns (none: bool, next: nat)
    requires sched.Length == MAX_PID && cur < MAX_PID
    ensures none <==> Ready(sched[..]) == {}
    ensures next == Next(sched[..], cur)
    ensures !none ==> IsNext(sched[..], cur, next)
  {
    next := cur;
    var i := 0;
    while i < MAX_PID && !sched[i]
      invariant 0 <= i <= MAX_PID
      invariant forall p :: 0 <= p < i ==> !sched[p]
    {
      i := i + 1;
    }
    none := i == MAX_PID;
    if none { return; }
    assert i in Ready(sched[..]);
    ghost var d := 1;
    UpSucc(cur, 0);
    i := (cur + 1) % MAX_PID;
    while i != cur
      invariant 1 <= d <= MAX_PID && i == Up(cur, d)
      invariant next == cur
      invariant SearchFrom(sched[..], cur, 1) == SearchFrom(sched[..], cur, d)
      decreases MAX_PID - d
    {
      if sched[i] {
        next := i;
        break;
      }
      UpSucc(cur, d);
      i := (i + 1) % MAX_PID;
      d := d + 1;
    }
    NextIsNext(sched[..], cur);
  }
}
