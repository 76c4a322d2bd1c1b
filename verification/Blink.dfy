/**
 * The blinking characters of the fish program: a linked list (fish/blink.S) threaded through a
 * static pool of 2000 slots in which a zero location marks a free slot (fish/fish.c).
 */
module Blink {
  import opened Sequences
  import opened Bytes
  import opened Arithmetic

  const POOL: nat := 2000

  type u16 = x: int | 0 <= x < 0x10000

  /** The fields that drive the blinking; bit 0 of `status` says the character is on. */
  datatype Timing = Timing(onLength: u16, offLength: u16, countdown: u16, status: u16)

  datatype Char = Char(location: u16, onChar: byte, offChar: byte, timing: Timing)

  datatype Ptr = Null | Slot(i: nat)

  datatype Node = Node(glyph: Char, next: Ptr)

  function Zero(): Node { Node(Char(0, 0, 0, Timing(0, 0, 0, 0)), Null) }

  // ----- one character over time -----

  predicate On(t: Timing) { t.status % 2 == 1 }

  /** 16-bit decrement, and the signed comparison with zero that follows it. */
  function Decremented(c: u16): u16 { if c == 0 then 0xFFFF else c - 1 }

  predicate Positive(c: u16) { 0 < c < 0x8000 }

  function Tick(t: Timing): Timing {
    var c := Decremented(t.countdown);
    if Positive(c) then t.(countdown := c)
    else if On(t) then t.(countdown := t.offLength, status := t.status - 1)
    else t.(countdown := t.onLength, status := t.status + 1)
  }

  function Ticks(t: Timing, n: nat): Timing {
    if n == 0 then t else Tick(Ticks(t, n - 1))
  }

  /** As mp1_ioctl_add starts it. */
  function Started(t: Timing): Timing { t.(status := 1, countdown := t.onLength) }

  /** How many ticks a phase of the given length lasts: a length the countdown cannot hold lasts one. */
  function Lasts(length: u16): (n: nat)
    ensures 1 <= n <= 0x8000
  {
    if 1 <= length <= 0x8000 then length else 1
  }

  /** Timing `t` is `r` ticks into the cycle that starts when the character is switched on. */
  ghost predicate InPhase(t: Timing, r: nat) {
    var on := Lasts(t.onLength);
    if r < on then t.status == 1 && t.countdown == (if r == 0 then t.onLength else on - r)
    else t.status == 0 && t.countdown == (if r == on then t.offLength else on + Lasts(t.offLength) - r)
  }

  lemma TickAdvances(t: Timing, r: nat)
    requires r < Lasts(t.onLength) + Lasts(t.offLength) && InPhase(t, r)
    ensures InPhase(Tick(t), if r + 1 == Lasts(t.onLength) + Lasts(t.offLength) then 0 else r + 1)
    ensures Tick(t).onLength == t.onLength && Tick(t).offLength == t.offLength
  {
  }

  lemma {:induction false} TicksInPhase(t: Timing, n: nat)
    requires t == Started(t)
    ensures var t' := Ticks(t, n);
            && t'.onLength == t.onLength && t'.offLength == t.offLength
            && InPhase(t', Cycle(n, Lasts(t.onLength) + Lasts(t.offLength)))
  {
    if n > 0 {
      TicksInPhase(t, n - 1);
      TickAdvances(Ticks(t, n - 1), Cycle(n - 1, Lasts(t.onLength) + Lasts(t.offLength)));
    }
  }

  /**
   * A character just added is on after `n` ticks exactly when `n` modulo its period falls into the
   * on phase: for every `n` and all sixteen-bit lengths.
   */
  lemma OnIff(t: Timing, n: nat)
    ensures On(Ticks(Started(t), n)) <==> n % (Lasts(t.onLength) + Lasts(t.offLength)) < Lasts(t.onLength)
  {
    TicksInPhase(Started(t), n);
    var _ := CycleIsRemainder(n, Lasts(t.onLength) + Lasts(t.offLength));
  }

  // ----- the list in the pool -----

  /** The static pool and the list head. */
  datatype Heap = Heap(pool: seq<Node>, head: Ptr)

  function PtrAt(order: seq<nat>, i: nat): Ptr {
    if i < |order| then Slot(order[i]) else Null
  }

  /** `order` lists the slots reached from the head: no slot twice, and a Null at the end. */
  ghost predicate IsList(h: Heap, order: seq<nat>) {
    && |h.pool| == POOL && h.head == PtrAt(order, 0) && Distinct(order)
    && (forall i :: 0 <= i < |order| ==> order[i] < POOL)
    && (forall i :: 0 <= i < |order| ==> h.pool[order[i]].next == PtrAt(order, i + 1))
  }

  /** The slots in use, by the allocator's test, are exactly the listed ones. */
  ghost predicate Exact(h: Heap, order: seq<nat>)
    requires |h.pool| == POOL
  {
    forall s: nat :: s < POOL ==> (h.pool[s].glyph.location != 0 <==> s in order)
  }

  ghost predicate Tidy(h: Heap, order: seq<nat>) { IsList(h, order) && Exact(h, order) }

  /** What the list says, head first. */
  ghost function Chars(h: Heap, order: seq<nat>): (cs: seq<Char>)
    requires IsList(h, order)
    ensures |cs| == |order|
    ensures forall i :: 0 <= i < |order| ==> cs[i] == h.pool[order[i]].glyph
  {
    seq(|order|, i requires 0 <= i < |order| => h.pool[order[i]].glyph)
  }

  /** The first free slot at or above `from`. */
  function FirstFree(pool: seq<Node>, from: nat): (p: Ptr)
    requires from <= |pool|
    ensures p.Slot? ==> from <= p.i < |pool| && pool[p.i].glyph.location == 0
    ensures p.Slot? ==> forall s :: from <= s < p.i ==> pool[s].glyph.location != 0
    ensures p.Null? ==> forall s :: from <= s < |pool| ==> pool[s].glyph.location != 0
    decreases |pool| - from
  {
    if from == |pool| then Null
    else if pool[from].glyph.location == 0 then Slot(from)
    else FirstFree(pool, from + 1)
  }

  /** mp1_ioctl_add: the heap afterwards and whether it succeeded. */
  function AddTo(h: Heap, c: Char): (Heap, bool) {
    var free := FirstFree(h.pool, 0);
    if c.location >= 2000 || free.Null? then (h, false)
    else (Heap(h.pool[free.i := Node(c.(timing := Started(c.timing)), h.head)], free), true)
  }

  lemma {:induction false} CountBelow(s: set<nat>, n: nat)
    requires forall x :: x in s ==> x < n
    ensures |s| <= n
    ensures |s| == n ==> forall x: nat :: x < n ==> x in s
  {
    if n > 0 {
      CountBelow(s - {n - 1}, n - 1);
      if n - 1 in s { assert |s| == |s - {n - 1}| + 1; } else { assert s - {n - 1} == s; }
    } else {
      assert s == {};
    }
  }

  lemma {:induction false} RangeCount(s: set<nat>, n: nat)
    requires forall x: nat :: x < n ==> x in s
    ensures |s| >= n
  {
    if n > 0 {
      RangeCount(s - {n - 1}, n - 1);
      assert |s| == |s - {n - 1}| + 1;
    }
  }

  /** The pool has a free slot exactly when fewer than 2000 are listed. */
  lemma FreeIff(h: Heap, order: seq<nat>)
    requires Tidy(h, order)
    ensures |order| <= POOL
    ensures FirstFree(h.pool, 0).Null? <==> |order| == POOL
  {
    DistinctCount(order);
    CountBelow(Elements(order), POOL);
    if FirstFree(h.pool, 0).Null? {
      forall x: nat | x < POOL ensures x in Elements(order) { assert h.pool[x].glyph.location != 0; }
      RangeCount(Elements(order), POOL);
    } else {
      var s := FirstFree(h.pool, 0).i;
      assert s !in order;
      assert s !in Elements(order);
    }
  }

  lemma CharsInFront(h: Heap, order: seq<nat>, s: nat, c: Char)
    requires IsList(h, order) && s < POOL && s !in order
    ensures IsList(Heap(h.pool[s := Node(c, h.head)], Slot(s)), [s] + order)
    ensures Chars(Heap(h.pool[s := Node(c, h.head)], Slot(s)), [s] + order) == [c] + Chars(h, order)
  {
  }

  /** An add of a location from 1 to 1999 puts the character, switched on, at the head of the list. */
  lemma AddTidy(h: Heap, order: seq<nat>, c: Char)
    requires Tidy(h, order) && c.location != 0
    ensures var (h', ok) := AddTo(h, c);
            var order' := if ok then [h'.head.i] + order else order;
            && (ok <==> c.location < 2000 && |order| < POOL)
            && Tidy(h', order')
            && Chars(h', order') ==
               if ok then [c.(timing := Started(c.timing))] + Chars(h, order) else Chars(h, order)
  {
    FreeIff(h, order);
    var (h', ok) := AddTo(h, c);
    if ok {
      assert h'.head.i !in order;
      CharsInFront(h, order, h'.head.i, c.(timing := Started(c.timing)));
      assert Exact(h', [h'.head.i] + order);
    }
  }

  lemma AddZeroUntidy(h: Heap, c: Char, order: seq<nat>)
    requires |h.pool| == POOL && c.location == 0 && AddTo(h, c).1 && IsList(AddTo(h, c).0, order)
    ensures !Exact(AddTo(h, c).0, order)
  {
  }

  /** The list stays tidy exactly when the location is not zero or nothing was added. */
  lemma AddTidyIff(h: Heap, order: seq<nat>, c: Char)
    requires Tidy(h, order)
    ensures (exists order' :: Tidy(AddTo(h, c).0, order')) <==> c.location != 0 || |order| == POOL
  {
    FreeIff(h, order);
    var (h', ok) := AddTo(h, c);
    if !ok {
      assert Tidy(h', order);
    } else if c.location != 0 {
      AddTidy(h, order, c);
      assert Tidy(h', [h'.head.i] + order);
    } else {
      forall order' | IsList(h', order') ensures !Exact(h', order') { AddZeroUntidy(h, c, order'); }
    }
  }

  lemma NoSelfLoop(h: Heap, order: seq<nat>)
    requires IsList(h, order) && h.head.Slot?
    ensures h.pool[h.head.i].next != h.head
  {
  }

  /** Adding location zero twice ties a knot: the head's next is the head, and no walk ends. */
  lemma AddZeroTwice(h: Heap, order: seq<nat>, c: Char, d: Char)
    requires Tidy(h, order) && |order| < POOL && c.location == 0 && d.location == 0
    ensures forall order' :: !IsList(AddTo(AddTo(h, c).0, d).0, order')
  {
    FreeIff(h, order);
    var h1 := AddTo(h, c).0;
    FirstFreeAgain(h.pool, h1.pool, 0, h1.head.i);
    var h2 := AddTo(h1, d).0;
    assert h2.head == h1.head && h2.pool[h1.head.i].next == h1.head;
    forall order' ensures !IsList(h2, order') {
      if IsList(h2, order') { NoSelfLoop(h2, order'); }
    }
  }

  lemma {:induction false} FirstFreeAgain(pool: seq<Node>, pool': seq<Node>, from: nat, s: nat)
    requires from <= |pool| && FirstFree(pool, from) == Slot(s)
    requires |pool'| == |pool| && pool'[s].glyph.location == 0
    requires forall k :: 0 <= k < |pool| && k != s ==> pool'[k] == pool[k]
    ensures FirstFree(pool', from) == Slot(s)
    decreases |pool| - from
  {
    if pool[from].glyph.location != 0 { FirstFreeAgain(pool, pool', from + 1, s); }
  }

  // ----- the other operations, on the list of characters -----

  /** The first character at a location, or the length of the list. */
  function FirstAt(cs: seq<Char>, loc: int): (k: nat)
    ensures k <= |cs| && (k < |cs| ==> cs[k].location == loc)
    ensures forall i :: 0 <= i < k ==> cs[i].location != loc
  {
    if cs == [] || cs[0].location == loc then 0 else 1 + FirstAt(cs[1..], loc)
  }

  lemma {:induction false} FirstAtIs(cs: seq<Char>, loc: int, k: nat)
    requires k <= |cs| && (k < |cs| ==> cs[k].location == loc)
    requires forall i :: 0 <= i < k ==> cs[i].location != loc
    ensures FirstAt(cs, loc) == k
  {
  }

  function Without<T>(s: seq<T>, k: nat): seq<T>
    requires k < |s|
  {
    s[..k] + s[k + 1..]
  }

  function Added(cs: seq<Char>, c: Char): (seq<Char>, bool) {
    if c.location >= 2000 || |cs| >= POOL then (cs, false) else ([c.(timing := Started(c.timing))] + cs, true)
  }

  function Removed(cs: seq<Char>, loc: int): (seq<Char>, bool) {
    var k := FirstAt(cs, loc);
    if k < |cs| then (Without(cs, k), true) else (cs, false)
  }

  /** The second character takes over lengths, countdown and status of the first. */
  function Synced(cs: seq<Char>, from: int, to: int): (seq<Char>, bool) {
    var i, j := FirstAt(cs, from), FirstAt(cs, to);
    if i < |cs| && j < |cs| then (cs[j := cs[j].(timing := cs[i].timing)], true) else (cs, false)
  }

  /** The first entry at a location. */
  ghost predicate FirstMatch(cs: seq<Char>, loc: int, k: nat) {
    k < |cs| && cs[k].location == loc && forall i :: 0 <= i < k ==> cs[i].location != loc
  }

  ghost predicate Occurs(cs: seq<Char>, loc: int) {
    exists i :: 0 <= i < |cs| && cs[i].location == loc
  }

  lemma FirstMatchIs(cs: seq<Char>, loc: int)
    ensures Occurs(cs, loc) <==> FirstAt(cs, loc) < |cs|
    ensures forall k: nat :: FirstMatch(cs, loc, k) <==> k == FirstAt(cs, loc) && k < |cs|
  {
  }

  /**
   * A remove succeeds exactly when the location occurs. Then the first entry there is gone: those before
   * it keep their places, those behind it move up. Otherwise nothing changes.
   */
  lemma RemovedIs(cs: seq<Char>, loc: int)
    ensures var (cs', ok) := Removed(cs, loc);
            && (ok <==> Occurs(cs, loc)) && (!ok ==> cs' == cs)
            && forall k: nat :: FirstMatch(cs, loc, k) ==>
                 |cs'| == |cs| - 1 && forall i :: 0 <= i < |cs'| ==> cs'[i] == if i < k then cs[i] else cs[i + 1]
  {
    FirstMatchIs(cs, loc);
  }

  /**
   * A sync succeeds exactly when both locations occur. Then only the first entry at the second one
   * changes, and of that only the timing, which becomes that of the first entry at the first one.
   */
  lemma SyncedIs(cs: seq<Char>, from: int, to: int)
    ensures var (cs', ok) := Synced(cs, from, to);
            && (ok <==> Occurs(cs, from) && Occurs(cs, to)) && (!ok ==> cs' == cs) && |cs'| == |cs|
            && forall i: nat, j: nat :: FirstMatch(cs, from, i) && FirstMatch(cs, to, j) ==>
                 && (forall k :: 0 <= k < |cs| && k != j ==> cs'[k] == cs[k])
                 && cs'[j].timing == cs[i].timing && cs'[j].location == to
                 && cs'[j].onChar == cs[j].onChar && cs'[j].offChar == cs[j].offChar
  {
    FirstMatchIs(cs, from);
    FirstMatchIs(cs, to);
  }

  function Ticked(cs: seq<Char>): (r: seq<Char>)
    ensures |r| == |cs| && forall i :: 0 <= i < |cs| ==> r[i] == cs[i].(timing := Tick(cs[i].timing))
  {
    seq(|cs|, i requires 0 <= i < |cs| => cs[i].(timing := Tick(cs[i].timing)))
  }

  // ----- unlinking -----

  /** The heap with entry `k` of the list unlinked and its slot cleared. */
  function Unlinked(h: Heap, order: seq<nat>, k: nat): Heap
    requires IsList(h, order) && k < |order|
  {
    var next := h.pool[order[k]].next;
    if k == 0 then Heap(h.pool[order[k] := Zero()], next)
    else
      var p := order[k - 1];
      Heap(h.pool[p := h.pool[p].(next := next)][order[k] := Zero()], h.head)
  }

  lemma WithoutAt<T>(s: seq<T>, k: nat)
    requires k < |s|
    ensures |Without(s, k)| == |s| - 1
    ensures forall i :: 0 <= i < |s| - 1 ==> Without(s, k)[i] == if i < k then s[i] else s[i + 1]
  {
  }

  lemma WithoutMembers(order: seq<nat>, k: nat)
    requires Distinct(order) && k < |order|
    ensures Distinct(Without(order, k))
    ensures forall s :: s in Without(order, k) <==> s in order && s != order[k]
  {
  }

  /** The cell of another slot: only the predecessor's link changes. */
  lemma UnlinkedCell(h: Heap, order: seq<nat>, k: nat, j: nat)
    requires IsList(h, order) && k < |order| && j < |order| && j != k
    ensures Unlinked(h, order, k).pool[order[j]] ==
            h.pool[order[j]].(next := PtrAt(order, if j + 1 == k then k + 1 else j + 1))
  {
  }

  lemma WithoutPtr(order: seq<nat>, k: nat, i: nat, j: nat)
    requires k < |order| && i < |order| - 1 && j == if i < k then i else i + 1
    ensures |Without(order, k)| == |order| - 1 && Without(order, k)[i] == order[j]
    ensures PtrAt(Without(order, k), i + 1) == PtrAt(order, if j + 1 == k then k + 1 else j + 1)
  {
  }

  lemma UnlinkedNext(h: Heap, order: seq<nat>, k: nat, i: nat)
    requires IsList(h, order) && k < |order| && i < |order| - 1
    ensures |Without(order, k)| == |order| - 1 && Without(order, k)[i] < POOL
    ensures Unlinked(h, order, k).pool[Without(order, k)[i]].next == PtrAt(Without(order, k), i + 1)
    ensures Unlinked(h, order, k).pool[Without(order, k)[i]].glyph == Without(Chars(h, order), k)[i]
  {
    var j := if i < k then i else i + 1;
    WithoutPtr(order, k, i, j);
    WithoutAt(Chars(h, order), k);
    UnlinkedCell(h, order, k, j);
  }

  lemma UnlinkIsList(h: Heap, order: seq<nat>, k: nat)
    requires IsList(h, order) && k < |order|
    ensures IsList(Unlinked(h, order, k), Without(order, k))
  {
    var h', o := Unlinked(h, order, k), Without(order, k);
    WithoutMembers(order, k);
    assert h'.head == PtrAt(o, 0) by {
      WithoutAt(order, k);
      assert h.pool[order[0]].next == PtrAt(order, 0 + 1);
    }
    forall i | 0 <= i < |o| ensures o[i] < POOL && h'.pool[o[i]].next == PtrAt(o, i + 1) {
      UnlinkedNext(h, order, k, i);
    }
  }

  lemma UnlinkChars(h: Heap, order: seq<nat>, k: nat)
    requires IsList(h, order) && k < |order|
    ensures IsList(Unlinked(h, order, k), Without(order, k))
    ensures Chars(Unlinked(h, order, k), Without(order, k)) == Without(Chars(h, order), k)
  {
    UnlinkIsList(h, order, k);
    var h', o := Unlinked(h, order, k), Without(order, k);
    forall i | 0 <= i < |o| ensures Chars(h', o)[i] == Without(Chars(h, order), k)[i] {
      UnlinkedNext(h, order, k, i);
    }
  }

  lemma UnlinkTidy(h: Heap, order: seq<nat>, k: nat)
    requires Tidy(h, order) && k < |order|
    ensures Tidy(Unlinked(h, order, k), Without(order, k))
  {
    UnlinkIsList(h, order, k);
    WithoutMembers(order, k);
    var h' := Unlinked(h, order, k);
    assert order[k] in order;
    forall s: nat | s < POOL && s != order[k] ensures h'.pool[s].glyph == h.pool[s].glyph {
      if k > 0 && s == order[k - 1] { assert h'.pool[s].glyph == h.pool[s].glyph; }
    }
  }

  // ----- whole runs -----

  datatype Op = AddOp(c: Char) | RemoveOp(loc: int) | SyncOp(from: int, to: int) | TickOp

  function Apply(cs: seq<Char>, op: Op): seq<Char> {
    match op
    case AddOp(c) => Added(cs, c).0
    case RemoveOp(loc) => Removed(cs, loc).0
    case SyncOp(from, to) => Synced(cs, from, to).0
    case TickOp => Ticked(cs)
  }

  /** Where character `i` is afterwards; None if it was removed or synchronised to another. */
  function Where(cs: seq<Char>, op: Op, i: nat): Option<nat>
    requires i < |cs|
  {
    match op
    case AddOp(c) => Some(if Added(cs, c).1 then i + 1 else i)
    case RemoveOp(loc) =>
      var k := FirstAt(cs, loc);
      if i == k then None else Some(if i < k then i else i - 1)
    case SyncOp(from, to) => if Synced(cs, from, to).1 && FirstAt(cs, to) == i then None else Some(i)
    case TickOp => Some(i)
  }

  lemma TrackStep(cs: seq<Char>, op: Op, i: nat)
    requires i < |cs| && Where(cs, op, i).Some?
    ensures var j := Where(cs, op, i).value;
            j < |Apply(cs, op)| && Apply(cs, op)[j] ==
              if op.TickOp? then cs[i].(timing := Tick(cs[i].timing)) else cs[i]
  {
    match op
    case AddOp(c) =>
    case RemoveOp(loc) => TrackRemove(cs, loc, FirstAt(cs, loc), i);
    case SyncOp(from, to) =>
    case TickOp =>
  }

  lemma TrackRemove(cs: seq<Char>, loc: int, k: nat, i: nat)
    requires i < |cs| && i != k && k == FirstAt(cs, loc)
    ensures var j := if i < k then i else i - 1;
            j < |Removed(cs, loc).0| && Removed(cs, loc).0[j] == cs[i]
  {
  }

  function ApplyAll(cs: seq<Char>, ops: seq<Op>): seq<Char>
    decreases |ops|
  {
    if ops == [] then cs else ApplyAll(Apply(cs, ops[0]), ops[1..])
  }

  function WhereAll(cs: seq<Char>, ops: seq<Op>, i: nat): Option<nat>
    requires i < |cs|
    decreases |ops|
  {
    if ops == [] then Some(i)
    else match Where(cs, ops[0], i)
      case None => None
      case Some(j) => if j < |Apply(cs, ops[0])| then WhereAll(Apply(cs, ops[0]), ops[1..], j) else None
  }

  function TickCount(ops: seq<Op>): nat {
    if ops == [] then 0 else (if ops[0].TickOp? then 1 else 0) + TickCount(ops[1..])
  }

  lemma {:induction false} TicksFirst(t: Timing, n: nat)
    ensures Ticks(Tick(t), n) == Ticks(t, n + 1)
  {
    if n > 0 { TicksFirst(t, n - 1); }
  }

  /** Through any run, a character that is neither removed nor synchronised just counts the ticks. */
  lemma {:induction false} Undisturbed(cs: seq<Char>, ops: seq<Op>, i: nat)
    requires i < |cs| && WhereAll(cs, ops, i).Some?
    ensures var j := WhereAll(cs, ops, i).value;
            && j < |ApplyAll(cs, ops)| && ApplyAll(cs, ops)[j].location == cs[i].location
            && ApplyAll(cs, ops)[j].timing == Ticks(cs[i].timing, TickCount(ops))
    decreases |ops|
  {
    if ops != [] {
      TrackStep(cs, ops[0], i);
      Undisturbed(Apply(cs, ops[0]), ops[1..], Where(cs, ops[0], i).value);
      TicksFirst(cs[i].timing, TickCount(ops[1..]));
    }
  }

  /** So a character blinks with its own period, whatever happens to the others. */
  lemma BlinksInRun(cs: seq<Char>, ops: seq<Op>, i: nat, t: Timing, n: nat)
    requires i < |cs| && WhereAll(cs, ops, i).Some? && cs[i].timing == Started(t) && n == TickCount(ops)
    ensures WhereAll(cs, ops, i).value < |ApplyAll(cs, ops)|
    ensures On(ApplyAll(cs, ops)[WhereAll(cs, ops, i).value].timing) <==>
            n % (Lasts(t.onLength) + Lasts(t.offLength)) < Lasts(t.onLength)
  {
    Undisturbed(cs, ops, i);
    OnIff(t, n);
  }

  /** After a sync the two characters stay in step until one of them is synchronised again or removed. */
  lemma InStep(cs: seq<Char>, from: int, to: int, ops: seq<Op>)
    requires Synced(cs, from, to).1
    requires var cs', i, j := Synced(cs, from, to).0, FirstAt(cs, from), FirstAt(cs, to);
             WhereAll(cs', ops, i).Some? && WhereAll(cs', ops, j).Some?
    ensures var cs', i, j := Synced(cs, from, to).0, FirstAt(cs, from), FirstAt(cs, to);
            var a, b := WhereAll(cs', ops, i).value, WhereAll(cs', ops, j).value;
            && a < |ApplyAll(cs', ops)| && b < |ApplyAll(cs', ops)|
            && ApplyAll(cs', ops)[a].timing == ApplyAll(cs', ops)[b].timing
  {
    var cs' := Synced(cs, from, to).0;
    Undisturbed(cs', ops, FirstAt(cs, from));
    Undisturbed(cs', ops, FirstAt(cs, to));
  }

  // ----- removing what was added -----

  /** The operation names no character at `loc`. */
  predicate Elsewhere(op: Op, loc: int) {
    match op
    case AddOp(c) => c.location != loc
    case RemoveOp(l) => l != loc
    case SyncOp(from, to) => from != loc && to != loc
    case TickOp => true
  }

  function AddCount(ops: seq<Op>): nat {
    if ops == [] then 0 else (if ops[0].AddOp? then 1 else 0) + AddCount(ops[1..])
  }

  function Inserted<T>(s: seq<T>, j: nat, x: T): (r: seq<T>)
    requires j <= |s|
    ensures |r| == |s| + 1
    ensures forall i :: 0 <= i < |r| ==> r[i] == if i < j then s[i] else if i == j then x else s[i - 1]
  {
    s[..j] + [x] + s[j..]
  }

  lemma WithoutInserted<T>(s: seq<T>, j: nat, x: T, k: nat)
    requires j <= |s| && k < |s|
    ensures Without(Inserted(s, j, x), if k < j then k else k + 1) ==
            Inserted(Without(s, k), if k < j then j - 1 else j, x)
  {
    var a, b := Without(Inserted(s, j, x), if k < j then k else k + 1), Without(s, k);
    WithoutAt(s, k);
    WithoutAt(Inserted(s, j, x), if k < j then k else k + 1);
    var c := Inserted(b, if k < j then j - 1 else j, x);
    assert |a| == |c| && forall i :: 0 <= i < |a| ==> a[i] == c[i];
  }

  lemma WithoutItself<T>(s: seq<T>, j: nat, x: T)
    requires j <= |s|
    ensures Without(Inserted(s, j, x), j) == s
  {
    WithoutAt(Inserted(s, j, x), j);
  }

  lemma FirstAtInserted(cs: seq<Char>, j: nat, x: Char, loc: int)
    requires j <= |cs| && x.location != loc
    ensures FirstAt(Inserted(cs, j, x), loc) == if FirstAt(cs, loc) < j then FirstAt(cs, loc) else FirstAt(cs, loc) + 1
  {
    var k := FirstAt(cs, loc);
    FirstAtIs(Inserted(cs, j, x), loc, if k < j then k else k + 1);
  }

  /** Nothing in front of entry `j` is at `loc`. */
  ghost predicate ClearBefore(cs: seq<Char>, j: nat, loc: int) {
    j <= |cs| && forall i :: 0 <= i < j ==> cs[i].location != loc
  }

  lemma RemoveClear(cs: seq<Char>, j: nat, loc: int, k: nat)
    requires ClearBefore(cs, j, loc) && k < |cs|
    ensures ClearBefore(Without(cs, k), if k < j then j - 1 else j, loc)
  {
    WithoutAt(cs, k);
  }

  lemma RemoveInserted(cs: seq<Char>, j: nat, x: Char, loc: int)
    requires ClearBefore(cs, j, x.location) && x.location != loc
    ensures ClearBefore(Removed(cs, loc).0, if FirstAt(cs, loc) < j then j - 1 else j, x.location)
    ensures Removed(Inserted(cs, j, x), loc).0 ==
            Inserted(Removed(cs, loc).0, if FirstAt(cs, loc) < j then j - 1 else j, x)
  {
    var k := FirstAt(cs, loc);
    var k' := if k < j then k else k + 1;
    assert FirstAt(Inserted(cs, j, x), loc) == k' by { FirstAtInserted(cs, j, x, loc); }
    if k < |cs| {
      RemoveClear(cs, j, x.location, k);
      assert Removed(cs, loc).0 == Without(cs, k);
      assert Removed(Inserted(cs, j, x), loc).0 == Without(Inserted(cs, j, x), k');
      WithoutInserted(cs, j, x, k);
    }
  }

  lemma UpdateInserted<T>(s: seq<T>, j: nat, x: T, k: nat, y: T)
    requires j <= |s| && k < |s|
    ensures Inserted(s, j, x)[if k < j then k else k + 1] == s[k]
    ensures Inserted(s, j, x)[if k < j then k else k + 1 := y] == Inserted(s[k := y], j, x)
  {
  }

  lemma SyncInserted(cs: seq<Char>, j: nat, x: Char, from: int, to: int)
    requires ClearBefore(cs, j, x.location) && x.location != from && x.location != to
    ensures ClearBefore(Synced(cs, from, to).0, j, x.location)
    ensures Synced(Inserted(cs, j, x), from, to).0 == Inserted(Synced(cs, from, to).0, j, x)
  {
    FirstAtInserted(cs, j, x, from);
    FirstAtInserted(cs, j, x, to);
    var a, b := FirstAt(cs, from), FirstAt(cs, to);
    if a < |cs| && b < |cs| {
      UpdateInserted(cs, j, x, a, cs[a]);
      UpdateInserted(cs, j, x, b, cs[b].(timing := cs[a].timing));
    }
  }

  lemma AddInserted(cs: seq<Char>, j: nat, x: Char, c: Char)
    requires ClearBefore(cs, j, x.location) && c.location != x.location && |cs| + 1 < POOL
    ensures var j' := if Added(cs, c).1 then j + 1 else j;
            && ClearBefore(Added(cs, c).0, j', x.location)
            && Added(Inserted(cs, j, x), c).0 == Inserted(Added(cs, c).0, j', x)
  {
  }

  lemma TickInserted(cs: seq<Char>, j: nat, x: Char)
    requires ClearBefore(cs, j, x.location)
    ensures ClearBefore(Ticked(cs), j, x.location)
    ensures Ticked(Inserted(cs, j, x)) == Inserted(Ticked(cs), j, x.(timing := Tick(x.timing)))
  {
  }

  /** An operation that names other locations works beside entry `j` as it would without it. */
  lemma ApplyInserted(cs: seq<Char>, j: nat, x: Char, op: Op) returns (j': nat, x': Char)
    requires ClearBefore(cs, j, x.location) && Elsewhere(op, x.location) && (op.AddOp? ==> |cs| + 1 < POOL)
    ensures x'.location == x.location && ClearBefore(Apply(cs, op), j', x.location)
    ensures Apply(Inserted(cs, j, x), op) == Inserted(Apply(cs, op), j', x')
    ensures |Apply(cs, op)| <= |cs| + if op.AddOp? then 1 else 0
  {
    j', x' := j, x;
    match op
    case AddOp(c) =>
      AddInserted(cs, j, x, c);
      j' := if Added(cs, c).1 then j + 1 else j;
    case RemoveOp(l) =>
      RemoveInserted(cs, j, x, l);
      j' := if FirstAt(cs, l) < j then j - 1 else j;
    case SyncOp(from, to) => SyncInserted(cs, j, x, from, to);
    case TickOp =>
      TickInserted(cs, j, x);
      x' := x.(timing := Tick(x.timing));
  }

  lemma {:induction false} RunInserted(cs: seq<Char>, j: nat, x: Char, ops: seq<Op>) returns (j': nat, x': Char)
    requires ClearBefore(cs, j, x.location) && |cs| + AddCount(ops) < POOL
    requires forall i :: 0 <= i < |ops| ==> Elsewhere(ops[i], x.location)
    ensures x'.location == x.location && ClearBefore(ApplyAll(cs, ops), j', x.location)
    ensures ApplyAll(Inserted(cs, j, x), ops) == Inserted(ApplyAll(cs, ops), j', x')
    decreases |ops|
  {
    j', x' := j, x;
    if ops != [] {
      j', x' := ApplyInserted(cs, j, x, ops[0]);
      j', x' := RunInserted(Apply(cs, ops[0]), j', x', ops[1..]);
    }
  }

  lemma RemoveItself(cs: seq<Char>, j: nat, x: Char)
    requires ClearBefore(cs, j, x.location)
    ensures Removed(Inserted(cs, j, x), x.location) == (cs, true)
  {
    FirstAtIs(Inserted(cs, j, x), x.location, j);
    WithoutItself(cs, j, x);
  }

  lemma {:induction false} ApplyAllAppend(cs: seq<Char>, a: seq<Op>, b: seq<Op>)
    ensures ApplyAll(cs, a + b) == ApplyAll(ApplyAll(cs, a), b)
    decreases |a|
  {
    if a == [] {
      assert a + b == b;
    } else {
      assert (a + b)[0] == a[0] && (a + b)[1..] == a[1..] + b;
      ApplyAllAppend(Apply(cs, a[0]), a[1..], b);
    }
  }

  /**
   * A remove undoes an add: whatever is done to other locations in between, and as long as the pool
   * does not fill up, the list ends up as if the character had never been added.
   */
  lemma RemoveUndoesAdd(cs: seq<Char>, c: Char, ops: seq<Op>)
    requires Added(cs, c).1 && |cs| + AddCount(ops) < POOL
    requires forall i :: 0 <= i < |ops| ==> Elsewhere(ops[i], c.location)
    ensures ApplyAll(cs, [AddOp(c)] + ops + [RemoveOp(c.location)]) == ApplyAll(cs, ops)
  {
    var x := c.(timing := Started(c.timing));
    assert Added(cs, c).0 == Inserted(cs, 0, x);
    var j, x' := RunInserted(cs, 0, x, ops);
    RemoveItself(ApplyAll(cs, ops), j, x');
    ApplyAllAppend(cs, [AddOp(c)] + ops, [RemoveOp(c.location)]);
    ApplyAllAppend(cs, [AddOp(c)], ops);
    ApplyOne(cs, AddOp(c));
    ApplyOne(ApplyAll(Added(cs, c).0, ops), RemoveOp(c.location));
  }

  lemma ApplyOne(cs: seq<Char>, op: Op)
    ensures ApplyAll(cs, [op]) == Apply(cs, op)
  {
  }
}
