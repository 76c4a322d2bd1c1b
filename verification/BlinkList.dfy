/** The blink routines as they run (fish/blink.S, fish/fish.c), on the pool itself. */
module BlinkList {
  import opened Blink

  class Blinker {
    const pool: array<Node>
    var head: Ptr
    ghost var order: seq<nat>

    ghost function View(): Heap
      reads this, pool
    {
      Heap(pool[..], head)
    }

    ghost predicate Valid()
      reads this, pool
    {
      Tidy(View(), order)
    }

    ghost function List(): seq<Char>
      reads this, pool
      requires Valid()
    {
      Chars(View(), order)
    }

    /** A zeroed pool and an empty list. */
    constructor ()
      ensures Valid() && List() == [] && fresh(pool)
    {
      pool := new Node[POOL](i => Zero());
      head := Null;
      order := [];
    }

    /** mp1_malloc: the first slot whose location is zero. */
    method Malloc() returns (p: Ptr)
      requires pool.Length == POOL
      ensures p == FirstFree(pool[..], 0)
    {
      var i := 0;
      while i < POOL
        invariant 0 <= i <= POOL
        invariant FirstFree(pool[..], 0) == FirstFree(pool[..], i)
      {
        if pool[i].glyph.location == 0 { return Slot(i); }
        i := i + 1;
      }
      return Null;
    }

    /** mp1_ioctl_add. Only location zero, which the source does not refuse, spoils the list. */
    method Add(c: Char) returns (code: int)
      requires Valid()
      modifies this, pool
      ensures View() == AddTo(old(View()), c).0 && (code == 0) == AddTo(old(View()), c).1
      ensures code == 0 || code == -1
      ensures c.location != 0 ==> Valid() && List() == Added(old(List()), c).0 && (code == 0) == Added(old(List()), c).1
    {
      if c.location >= 2000 { return -1; }
      var p := Malloc();
      if p.Null? { FreeIff(View(), order); return -1; }
      if c.location != 0 { AddTidy(View(), order, c); }
      pool[p.i] := Node(c.(timing := Started(c.timing)), head);
      head := p;
      order := [p.i] + order;
      return 0;
    }

    /** mp1_find_helper: the first character of the list at a location. */
    method Find(loc: int) returns (p: Ptr, ghost k: nat)
      requires Valid()
      ensures k == FirstAt(List(), loc) && p == PtrAt(order, FirstAt(List(), loc))
    {
      ghost var cs := List();
      p, k := head, 0;
      while p.Slot? && pool[p.i].glyph.location != loc
        invariant k <= |order| && p == PtrAt(order, k)
        invariant forall i :: 0 <= i < k ==> cs[i].location != loc
        decreases |order| - k
      {
        assert p.i == order[k];
        p := pool[p.i].next;
        k := k + 1;
      }
      FirstAtIs(cs, loc, k);
    }

    /** The walk to the link that leads to `target`: Null stands for the list head. */
    method FindPrev(target: nat, ghost k: nat) returns (prev: Ptr)
      requires Valid() && k < |order| && order[k] == target
      ensures prev == if k == 0 then Null else Slot(order[k - 1])
    {
      prev := Null;
      var cur := head;
      ghost var i := 0;
      while cur != Slot(target)
        invariant i <= k && cur == PtrAt(order, i) && prev == (if i == 0 then Null else Slot(order[i - 1]))
        decreases k - i
      {
        prev := cur;
        cur := pool[cur.i].next;
        i := i + 1;
      }
    }

    /** Take entry `k`, which `prev` leads to, out of the list and clear its slot. */
    method Unlink(p: nat, prev: Ptr, ghost k: nat)
      requires Valid() && k < |order| && p == order[k] && prev == if k == 0 then Null else Slot(order[k - 1])
      modifies this, pool
      ensures View() == Unlinked(old(View()), old(order), k) && order == Without(old(order), k)
    {
      var next := pool[p].next;
      if prev.Null? {
        head := next;
      } else {
        pool[prev.i] := pool[prev.i].(next := next);
      }
      pool[p] := Zero();
      order := Without(order, k);
    }

    /** The body of mp1_ioctl_remove, for a 16-bit location. */
    method RemoveAt(loc: int) returns (code: int)
      requires Valid()
      modifies this, pool
      ensures Valid() && code == (if Removed(old(List()), loc).1 then 0 else -1)
      ensures List() == Removed(old(List()), loc).0
    {
      var p, k := Find(loc);
      if p.Null? { return -1; }
      var prev := FindPrev(p.i, k);
      UnlinkTidy(View(), order, k);
      UnlinkChars(View(), order, k);
      Unlink(p.i, prev, k);
      return 0;
    }

    /** mp1_ioctl_remove: the low half of the argument counts. */
    method Remove(arg: nat) returns (code: int)
      requires Valid()
      modifies this, pool
      ensures Valid() && code == (if Removed(old(List()), arg % 0x10000).1 then 0 else -1)
      ensures List() == Removed(old(List()), arg % 0x10000).0
    {
      code := RemoveAt(arg % 0x10000);
    }

    /** The body of mp1_ioctl_sync, for two 16-bit locations. */
    method SyncAt(from: int, to: int) returns (code: int)
      requires Valid()
      modifies pool
      ensures Valid()
      ensures var r := Synced(old(List()), from, to); List() == r.0 && code == if r.1 then 0 else -1
    {
      var p, i := Find(from);
      if p.Null? { return -1; }
      var q, j := Find(to);
      if q.Null? { return -1; }
      SyncTidy(View(), order, i, j);
      pool[q.i] := Node(pool[q.i].glyph.(timing := pool[p.i].glyph.timing), pool[q.i].next);
      return 0;
    }

    /** mp1_ioctl_sync: the high half of the argument names the model, the low half the follower. */
    method Sync(arg: nat) returns (code: int)
      requires Valid()
      modifies pool
      ensures Valid()
      ensures var r := Synced(old(List()), arg / 0x10000 % 0x10000, arg % 0x10000);
              List() == r.0 && code == if r.1 then 0 else -1
    {
      code := SyncAt(arg / 0x10000 % 0x10000, arg % 0x10000);
    }

    /** mp1_rtc_tasklet: one tick for every character of the list. */
    method RtcTick()
      requires Valid()
      modifies pool
      ensures Valid() && List() == Ticked(old(List()))
    {
      var p := head;
      ghost var k, h := 0, View();
      while p.Slot?
        invariant pool.Length == POOL && k <= |order| && p == PtrAt(order, k)
        invariant PartTicked(h, pool[..], order, k)
        decreases |order| - k
      {
        assert p.i == order[k];
        PartTickedStep(h, pool[..], order, k);
        pool[p.i] := TickedNode(pool[p.i]);
        p := pool[p.i].next;
        k := k + 1;
      }
      TickTidy(h, View(), order);
    }

    /** One operation. */
    method Do(op: Op)
      requires Valid() && (op.AddOp? ==> op.c.location != 0)
      modifies this, pool
      ensures Valid() && List() == Apply(old(List()), op)
    {
      var code;
      match op
      case AddOp(c) => code := Add(c);
      case RemoveOp(loc) => code := RemoveAt(loc);
      case SyncOp(from, to) => code := SyncAt(from, to);
      case TickOp => RtcTick();
    }

    /** A whole run of operations, none of which adds location zero. */
    method Replay(ops: seq<Op>)
      requires Valid() && forall i :: 0 <= i < |ops| ==> ops[i].AddOp? ==> ops[i].c.location != 0
      modifies this, pool
      ensures Valid() && List() == ApplyAll(old(List()), ops)
    {
      var n := 0;
      ghost var cs := List();
      assert ops[0..] == ops;
      while n < |ops|
        invariant n <= |ops| && Valid() && ApplyAll(List(), ops[n..]) == ApplyAll(cs, ops)
      {
        ApplyNext(List(), ops, n);
        Do(ops[n]);
        n := n + 1;
      }
      assert ops[n..] == [];
    }
  }

  lemma ApplyNext(cs: seq<Char>, ops: seq<Op>, n: nat)
    requires n < |ops|
    ensures ApplyAll(cs, ops[n..]) == ApplyAll(Apply(cs, ops[n]), ops[n + 1..])
  {
    assert ops[n..][0] == ops[n] && ops[n..][1..] == ops[n + 1..];
  }

  function TickedNode(n: Node): Node {
    n.(glyph := n.glyph.(timing := Tick(n.glyph.timing)))
  }

  predicate SameButTiming(m: Node, n: Node) {
    m.next == n.next && m.glyph.location == n.glyph.location
  }

  /** The first `k` characters of the list have had their tick. */
  ghost predicate PartTicked(h: Heap, pool: seq<Node>, order: seq<nat>, k: nat)
    requires IsList(h, order)
  {
    && |pool| == POOL && k <= |order|
    && (forall s: nat :: s < POOL ==> SameButTiming(h.pool[s], pool[s]))
    && (forall i :: 0 <= i < k ==> pool[order[i]] == TickedNode(h.pool[order[i]]))
    && (forall i :: k <= i < |order| ==> pool[order[i]] == h.pool[order[i]])
  }

  lemma PartTickedStep(h: Heap, pool: seq<Node>, order: seq<nat>, k: nat)
    requires IsList(h, order) && k < |order| && PartTicked(h, pool, order, k)
    ensures PartTicked(h, pool[order[k] := TickedNode(pool[order[k]])], order, k + 1)
    ensures pool[order[k]].next == PtrAt(order, k + 1)
  {
  }

  /** Changing nothing but timings, and characters shown, keeps the list tidy. */
  lemma SameShapeTidy(h: Heap, h': Heap, order: seq<nat>)
    requires Tidy(h, order) && |h'.pool| == POOL && h'.head == h.head
    requires forall s: nat :: s < POOL ==> SameButTiming(h.pool[s], h'.pool[s])
    ensures Tidy(h', order)
  {
  }

  lemma TickTidy(h: Heap, h': Heap, order: seq<nat>)
    requires Tidy(h, order) && h'.head == h.head && PartTicked(h, h'.pool, order, |order|)
    ensures Tidy(h', order) && Chars(h', order) == Ticked(Chars(h, order))
  {
  }

  lemma SyncTidy(h: Heap, order: seq<nat>, i: nat, j: nat)
    requires Tidy(h, order) && i < |order| && j < |order|
    ensures var c := h.pool[order[j]].glyph.(timing := h.pool[order[i]].glyph.timing);
            var h' := h.(pool := h.pool[order[j] := Node(c, h.pool[order[j]].next)]);
            Tidy(h', order) && Chars(h', order) == Chars(h, order)[j := c]
  {
    var c := h.pool[order[j]].glyph.(timing := h.pool[order[i]].glyph.timing);
    var h' := h.(pool := h.pool[order[j] := Node(c, h.pool[order[j]].next)]);
    SameShapeTidy(h, h', order);
    forall k | 0 <= k < |order| ensures Chars(h', order)[k] == Chars(h, order)[j := c][k] {
      if k != j { assert order[k] != order[j]; }
    }
  }
}
