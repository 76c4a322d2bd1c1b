/**
 * The terminal driver itself (drivers/termios.c): one video memory, four back buffers, and the
 * routines that write whichever of them a terminal currently owns.
 */
module Termios {
  import opened Sequences
  import opened Bytes
  import opened TermScreen
  import opened TermInput
  import opened Terminals

  /** term_data_t. */
  class TermData {
    const screenBuf: array<Cell>
    const inBuf: array<byte>
    var curX: int
    var curY: int
    var inIndex: int
    var inEnd: int
    var inRets: int
    var isActive: bool

    constructor ()
      ensures IsNew(this) && fresh(screenBuf) && fresh(inBuf) && (inBuf as object) != screenBuf
    {
      var s := new Cell[2000](i => 0);
      var b := new byte[IN_BUF_SIZE](i => 0);
      screenBuf, inBuf := s, b;
      curX, curY, inIndex, inEnd, inRets, isActive := 0, 0, 0, 0, 0, false;
      new;
      assert screenBuf[..] == Zeroed().screen.cells;
    }

    ghost predicate Valid()
      reads this
    {
      screenBuf.Length == 2000 && inBuf.Length == IN_BUF_SIZE && 0 <= inIndex <= inEnd <= IN_BUF_SIZE
    }

    ghost function Pending(): (l: Line)
      reads this, inBuf
      requires Valid()
      ensures Editable(l)
    {
      Line(inBuf[..inEnd], inIndex, inRets)
    }

    /** The buffer part of input_process_key; `ok` is false where a delete would reach outside the buffer. */
    method EditLine(key: byte) returns (modified: bool, ok: bool)
      requires Valid()
      modifies this`inIndex, this`inEnd, this`inRets, inBuf
      ensures Valid() && (ok <==> InBounds(old(Pending()), key))
      ensures ok ==> modified == Modifies(old(Pending()), key) && Pending() == Accept(old(Pending()), key)
    {
      modified := false;
      ok := key != DELETE || inIndex == inEnd || (inIndex != 0 && inEnd != IN_BUF_SIZE);
      if ok { modified := Edit(key); }
    }

    method Edit(key: byte) returns (modified: bool)
      requires Valid() && InBounds(Pending(), key)
      modifies this`inIndex, this`inEnd, this`inRets, inBuf
      ensures Valid() && modified == Modifies(old(Pending()), key) && Pending() == Accept(old(Pending()), key)
    {
      modified := false;
      if key == BACKSPACE {
        if inIndex != 0 {
          CloseGap(inBuf, inIndex - 1, inEnd - 1, inEnd);
          inIndex := inIndex - 1;
          inEnd := inEnd - 1;
          modified := true;
        }
      } else if key == DELETE {
        if inIndex < inEnd {
          CloseGap(inBuf, inIndex - 1, inEnd, inEnd);
          inEnd := inEnd - 1;
          modified := true;
        }
      } else if key != NUL && inEnd < IN_BUF_SIZE {
        Insert(key);
        modified := true;
      }
    }

    method Insert(key: byte)
      requires Valid() && key != BACKSPACE && key != DELETE && key != NUL && inEnd < IN_BUF_SIZE
      modifies this`inIndex, this`inEnd, this`inRets, inBuf
      ensures Valid() && Pending() == Accept(old(Pending()), key)
    {
      ghost var was := inBuf[..];
      inEnd := inEnd + 1;
      inIndex := inIndex + 1;
      OpenGap(inBuf, inIndex - 1, inEnd - 1);
      inBuf[inIndex - 1] := key;
      Inserted(was, inBuf[..], inIndex - 1, inEnd - 1, key);
      if key == NEWLINE { inRets := inRets + 1; }
    }

    /** The bookkeeping after a read has taken `n` bytes. */
    method Consume(n: nat, returned: nat)
      requires Valid() && n <= inIndex
      modifies this`inIndex, this`inEnd, this`inRets
      ensures Valid() && inEnd == old(inEnd) - n && inIndex == old(inIndex) - n && inRets == old(inRets) - returned
    {
      inEnd := inEnd - n;
      inIndex := inIndex - n;
      inRets := inRets - returned;
    }

    method FlushInput()
      requires Valid()
      modifies this`inIndex, this`inEnd, this`inRets, inBuf
      ensures Valid() && Pending() == Empty() && forall k :: 0 <= k < IN_BUF_SIZE ==> inBuf[k] == 0
    {
      var i := 0;
      while i < IN_BUF_SIZE
        invariant 0 <= i <= IN_BUF_SIZE
        invariant forall k :: 0 <= k < i ==> inBuf[k] == 0
        modifies inBuf
      {
        inBuf[i] := 0;
        i := i + 1;
      }
      inIndex := 0;
      inEnd := 0;
      inRets := 0;
    }
  }

  /** No two terminals share a buffer. */
  ghost predicate Separate(terms: seq<TermData>) {
    forall t, u :: 0 <= t < |terms| && 0 <= u < |terms| && t != u ==>
      && terms[t] != terms[u] && terms[t].screenBuf != terms[u].screenBuf && terms[t].inBuf != terms[u].inBuf
      && (terms[t].inBuf as object) != terms[u].screenBuf
  }

  /** terminal_init, over whatever video memory holds: four zeroed terminals, the first active. */
  method TerminalInit(video: array<Cell>) returns (d: Driver)
    requires video.Length == 2000
    ensures fresh(d) && d.Valid() && d.video == video && d.active == d.terms[0]
    ensures forall t :: 0 <= t < 4 ==> !d.terms[t].isActive && d.terms[t].Pending() == Empty()
    ensures forall t :: 1 <= t < 4 ==> d.TermOf(d.terms[t]) == Zeroed()
  {
    var terms: seq<TermData> := [];
    while |terms| < 4
      invariant |terms| <= 4 && Separate(terms)
      invariant forall t :: 0 <= t < |terms| ==> IsNew(terms[t])
      invariant forall t :: 0 <= t < |terms| ==>
                  && fresh(terms[t]) && fresh(terms[t].screenBuf) && fresh(terms[t].inBuf)
                  && (terms[t].inBuf as object) != terms[t].screenBuf
    {
      var td := new TermData();
      terms := terms + [td];
    }
    d := new Driver(video, terms);
  }

  ghost predicate IsNew(td: TermData)
    reads td, td.screenBuf, td.inBuf
  {
    td.Valid() && Term(Screen(td.screenBuf[..], td.curX, td.curY), td.Pending()) == Zeroed() && !td.isActive
  }

  class Driver {
    const video: array<Cell>
    const terms: seq<TermData>
    var active: TermData

    /** Terminals over video memory, the first of them active. */
    constructor (video: array<Cell>, terms: seq<TermData>)
      requires |terms| == 4
      ensures this.video == video && this.terms == terms && active == terms[0]
    {
      this.video, this.terms, active := video, terms, terms[0];
    }

    // ----- drawing on one terminal -----

    /** `td` is a terminal whose buffers are its own. */
    ghost predicate Drawable(td: TermData)
      reads td
    {
      && td.Valid() && video.Length == 2000 && td.screenBuf != video
      && (td.inBuf as object) != td.screenBuf && (td.inBuf as object) != video
    }

    /** Where a terminal draws: video memory if it is active, its back buffer otherwise. */
    ghost function Buf(td: TermData): array<Cell>
      reads this
    {
      if td == active then video else td.screenBuf
    }

    ghost function Owned(td: TermData): set<object>
      reads this
    {
      {td, Buf(td), td.inBuf}
    }

    ghost function ScreenOf(td: TermData): (s: Screen)
      reads this, td, Buf(td)
    {
      Screen(Buf(td)[..], td.curX, td.curY)
    }

    ghost function TermOf(td: TermData): (r: Term)
      reads this, td, Buf(td), td.inBuf
      requires td.Valid()
    {
      Term(ScreenOf(td), td.Pending())
    }

    method Putc(td: TermData, c: byte, x: int, y: int)
      requires Drawable(td) && 0 <= y * 80 + x < 2000
      modifies Buf(td)
      ensures Buf(td)[..] == old(Buf(td)[..])[y * 80 + x := Paint(c)]
    {
      if td == active {
        video[y * 80 + x] := Paint(c);
      } else {
        td.screenBuf[y * 80 + x] := Paint(c);
      }
    }

    method Getc(td: TermData, x: int, y: int) returns (c: byte)
      requires Drawable(td) && 0 <= y * 80 + x < 2000
      ensures c == Glyph(Buf(td)[y * 80 + x])
    {
      if td == active {
        c := Glyph(video[y * 80 + x]);
      } else {
        c := Glyph(td.screenBuf[y * 80 + x]);
      }
    }

    /** Row `y` takes the characters of the row below; the rows above it already have. */
    method RaiseRow(td: TermData, y: nat, ghost was: seq<Cell>)
      requires Drawable(td) && y < 24 && |was| == 2000
      requires Buf(td)[..] == Shifted(was, 0, y * 80, 80)
      modifies Buf(td)
      ensures Buf(td)[..] == Shifted(was, 0, (y + 1) * 80, 80)
    {
      var x := 0;
      while x < 80
        invariant 0 <= x <= 80
        invariant Buf(td)[..] == Shifted(was, 0, y * 80 + x, 80)
        modifies Buf(td)
      {
        ShiftedStep(was, 0, y * 80 + x, 80);
        var c := Getc(td, x, y + 1);
        Putc(td, c, x, y);
        x := x + 1;
      }
    }

    method BlankLastRow(td: TermData)
      requires Drawable(td)
      modifies Buf(td)
      ensures Buf(td)[..] == Cleared(old(Buf(td)[..]), 1920, 2000)
    {
      ghost var was := Buf(td)[..];
      NothingDone(was, 1920, 0);
      var x := 0;
      while x < 80
        invariant 0 <= x <= 80
        invariant Buf(td)[..] == Cleared(was, 1920, 1920 + x)
        modifies Buf(td)
      {
        ClearedStep(was, 1920, 1920 + x);
        Putc(td, SPACE, x, 24);
        x := x + 1;
      }
    }

    /** terminal_scroll_up. */
    method ScrollUp(td: TermData)
      requires Drawable(td)
      modifies Buf(td), td`curY
      ensures Drawable(td) && td.curY == old(td.curY) - 1
      ensures Buf(td)[..] == Scrolled(old(Buf(td)[..]))
    {
      ghost var was := Buf(td)[..];
      NothingDone(was, 0, 80);
      var y := 0;
      while y < 24
        invariant 0 <= y <= 24
        invariant Buf(td)[..] == Shifted(was, 0, y * 80, 80)
        modifies Buf(td)
      {
        RaiseRow(td, y, was);
        y := y + 1;
      }
      BlankLastRow(td);
      td.curY := td.curY - 1;
    }

    method ClearScreen(td: TermData)
      requires Drawable(td)
      modifies Buf(td)
      ensures Buf(td)[..] == Blank().cells
    {
      ghost var was := Buf(td)[..];
      NothingDone(was, 0, 0);
      var i := 0;
      while i < 2000
        invariant 0 <= i <= 2000
        invariant Buf(td)[..] == Cleared(was, 0, i)
        modifies Buf(td)
      {
        ClearedStep(was, 0, i);
        Putc(td, SPACE, i % 80, i / 80);
        i := i + 1;
      }
    }

    /** terminal_clear: the screen, the pending input and the cursor. */
    method Clear(td: TermData)
      requires Drawable(td)
      modifies Buf(td), td`curX, td`curY, td`inIndex, td`inEnd, td`inRets, td.inBuf
      ensures Drawable(td) && TermOf(td) == Fresh()
    {
      ClearScreen(td);
      td.FlushInput();
      td.curX := 0;
      td.curY := 0;
    }

    // ----- terminal_handle_key -----

    /** Move to the start of the next line, scrolling at the bottom. */
    method NextLine(td: TermData)
      requires Drawable(td) && OnScreen(ScreenOf(td))
      modifies Buf(td), td`curX, td`curY
      ensures Drawable(td) && ScreenOf(td) == LineFeed(old(ScreenOf(td)))
    {
      if td.curY == 24 { ScrollUp(td); }
      td.curY := td.curY + 1;
      td.curX := 0;
    }

    method TypeChar(td: TermData, c: byte)
      requires Drawable(td) && OnScreen(ScreenOf(td))
      modifies Buf(td), td`curX, td`curY
      ensures Drawable(td) && ScreenOf(td) == Type(old(ScreenOf(td)), c)
    {
      Putc(td, c, td.curX, td.curY);
      if td.curX == 79 {
        NextLine(td);
      } else {
        td.curX := td.curX + 1;
      }
    }

    /** Columns `from` up to `to` of row `y` each take the character on their right. */
    method ShiftRow(td: TermData, y: nat, from: nat, to: nat)
      requires Drawable(td) && y < 25 && from <= to < 80
      modifies Buf(td)
      ensures Buf(td)[..] == Shifted(old(Buf(td)[..]), y * 80 + from, y * 80 + to, 1)
    {
      ghost var was := Buf(td)[..];
      NothingDone(was, y * 80 + from, 1);
      var i := from;
      while i < to
        invariant from <= i <= to
        invariant Buf(td)[..] == Shifted(was, y * 80 + from, y * 80 + i, 1)
        modifies Buf(td)
      {
        ShiftedStep(was, y * 80 + from, y * 80 + i, 1);
        var c := Getc(td, i + 1, y);
        Putc(td, c, i, y);
        i := i + 1;
      }
    }

    method EraseBack(td: TermData)
      requires Drawable(td) && OnScreen(ScreenOf(td)) && Backspaced(ScreenOf(td)).Some?
      modifies Buf(td), td`curX, td`curY
      ensures Drawable(td) && Some(ScreenOf(td)) == Backspaced(old(ScreenOf(td)))
    {
      if td.curX == 0 && td.curY != 0 {
        td.curY := td.curY - 1;
        td.curX := 79;
        Putc(td, SPACE, td.curX, td.curY);
      } else {
        td.curX := td.curX - 1;
        CloseRow(td, td.curY, td.curX);
      }
    }

    /** The cells right of column `x` move one to the left; the last column becomes blank. */
    method CloseRow(td: TermData, y: nat, x: nat)
      requires Drawable(td) && y < 25 && x < 80
      modifies Buf(td)
      ensures Buf(td)[..] ==
              Shifted(old(Buf(td)[..]), y * 80 + x, y * 80 + 79, 1)[y * 80 + 79 := Paint(SPACE)]
    {
      ShiftRow(td, y, x, 79);
      Putc(td, SPACE, 79, y);
    }

    method EraseForward(td: TermData)
      requires Drawable(td) && OnScreen(ScreenOf(td)) && Deleted(ScreenOf(td)).Some?
      modifies Buf(td)
      ensures Some(ScreenOf(td)) == Deleted(old(ScreenOf(td)))
    {
      var i := td.curX;
      if i < 24 {
        ShiftRow(td, td.curY, i, 24);
        i := 24;
      }
      Putc(td, SPACE, i + 1, td.curY);
    }

    /**
     * terminal_handle_key. Where the source would store outside the screen, from the origin or from the
     * last cell, the model stops with `ok` false.
     */
    method Handle(td: TermData, k: Key) returns (ok: bool)
      requires Drawable(td) && OnScreen(ScreenOf(td))
      modifies Buf(td), td`curX, td`curY, td`inIndex, td`inEnd, td`inRets, td.inBuf
      ensures Drawable(td) && (ok <==> HandleKey(old(ScreenOf(td)), k).Some?)
      ensures ok ==> Some(TermOf(td)) == Display(old(TermOf(td)), k)
      ensures !ok ==> TermOf(td) == old(TermOf(td))
    {
      if k.ascii == BACKSPACE {
        if td.curX == 0 && td.curY == 0 { return false; }
        EraseBack(td);
      } else if k.ascii == DELETE {
        if td.curX == 79 && td.curY == 24 { return false; }
        EraseForward(td);
      } else if k.ascii == NEWLINE {
        NextLine(td);
      } else if k.ascii == TAB {
        var x := (td.curX / 8 + 1) * 8;
        if x >= 79 { NextLine(td); } else { td.curX := x; }
      } else if k.control {
        if k.ascii == 108 { Clear(td); }
      } else if k.alt {
      } else if k.ascii != NUL {
        TypeChar(td, k.ascii);
      } else if k.scancode == 0xFF {
        TypeChar(td, SPACE);
      }
      return true;
    }

    /** terminal_write, for a process on terminal `td`: the number of bytes written. */
    method Write(td: TermData, bytes: seq<byte>) returns (n: nat, ok: bool)
      requires Drawable(td) && OnScreen(ScreenOf(td))
      modifies Buf(td), td`curX, td`curY, td`inIndex, td`inEnd, td`inRets, td.inBuf
      ensures Drawable(td) && td.Pending() == old(td.Pending()) && n <= |bytes|
      ensures ok <==> HandleKeys(old(ScreenOf(td)), Stream(bytes)).Some?
      ensures ok ==> n == |bytes|
      ensures Some(ScreenOf(td)) == HandleKeys(old(ScreenOf(td)), Stream(bytes)[..n])
    {
      n := 0;
      ghost var ks, s0 := Stream(bytes), ScreenOf(td);
      assert ks[0..] == ks && ks[..0] == [];
      while n < |bytes|
        invariant n <= |bytes| && Drawable(td) && td.Pending() == old(td.Pending()) && OnScreen(ScreenOf(td))
        invariant HandleKeys(ScreenOf(td), ks[n..]) == HandleKeys(s0, ks)
        invariant Some(ScreenOf(td)) == HandleKeys(s0, ks[..n])
      {
        OneMoreKey(s0, ks, n, ScreenOf(td));
        ok := Handle(td, Written(bytes[n]));
        if !ok { return; }
        n := n + 1;
      }
      assert ks[n..] == [] && ks[..n] == ks;
      ok := true;
    }

    /** input_process_key: edit the active terminal's line, then echo. */
    method InputKey(k: Key) returns (ok: bool)
      requires Drawable(active) && OnScreen(ScreenOf(active))
      modifies Buf(active), active`curX, active`curY, active`inIndex, active`inEnd, active`inRets, active.inBuf
      ensures Drawable(active)
      ensures !active.isActive ==> ok && TermOf(active) == old(TermOf(active))
      ensures active.isActive ==>
                (ok <==> InBounds(old(active.Pending()), k.ascii) && Press(old(TermOf(active)), k).Some?)
      ensures active.isActive && ok ==> Some(TermOf(active)) == Press(old(TermOf(active)), k)
    {
      if !active.isActive { return true; }
      var modified;
      modified, ok := active.EditLine(k.ascii);
      if !ok { return; }
      if modified {
        ok := Handle(active, k);
      } else {
        ok := Handle(active, k.(ascii := NUL));
      }
    }

    // ----- four terminals -----

    ghost predicate Valid()
      reads this, terms
    {
      && |terms| == 4 && active in terms && Separate(terms)
      && forall t :: 0 <= t < 4 ==> Drawable(terms[t])
    }

    /** terminal_switch: save video memory in the old terminal's buffer, load the new one's. */
    method Switch(n: nat)
      requires Valid() && n < 4
      modifies this, video, active.screenBuf, active, terms[n]
      ensures Valid() && active == terms[n]
      ensures forall t :: 0 <= t < 4 ==> TermOf(terms[t]) == old(TermOf(terms[t]))
      ensures old(active) != terms[n] ==> terms[n].isActive && !old(active).isActive
      ensures old(active) == terms[n] ==> terms[n].isActive == old(terms[n].isActive)
    {
      var term := terms[n];
      if term == active { return; }
      CopyCells(active.screenBuf, video);
      CopyCells(video, term.screenBuf);
      active.isActive := false;
      term.isActive := true;
      active := term;
    }

    ghost function Footprint(): set<object>
      reads this
    {
      if |terms| == 4 then Owned(terms[0]) + Owned(terms[1]) + Owned(terms[2]) + Owned(terms[3]) else {}
    }

    ghost predicate Shows(m: Tty)
      reads this, terms, Footprint()
    {
      && Valid() && Good(m) && terms[m.active] == active
      && forall t :: 0 <= t < 4 ==> m.terms[t] == TermOf(terms[t]) && m.lit[t] == terms[t].isActive
    }

    /** Nothing about any other terminal has changed. */
    twostate predicate OthersKept(t: nat)
      reads this, terms, Footprint()
    {
      && old(Valid()) && Valid() && active == old(active)
      && forall u :: 0 <= u < 4 && u != t ==>
           TermOf(terms[u]) == old(TermOf(terms[u])) && terms[u].isActive == old(terms[u].isActive)
    }

    /** InputKey, with what it leaves alone spelt out. */
    method KeyAlone(ghost t: nat, k: Key) returns (ok: bool)
      requires Valid() && t < 4 && active == terms[t]
      requires OnScreen(ScreenOf(active)) && InBounds(active.Pending(), k.ascii)
      modifies Owned(active)
      ensures OthersKept(t) && terms[t].isActive == old(terms[t].isActive)
      ensures !terms[t].isActive ==> ok && TermOf(terms[t]) == old(TermOf(terms[t]))
      ensures terms[t].isActive ==> (ok <==> Press(old(TermOf(terms[t])), k).Some?)
      ensures terms[t].isActive && ok ==> TermOf(terms[t]) == Press(old(TermOf(terms[t])), k).value
    {
      ok := InputKey(k);
    }

    method OnKey(k: Key, ghost m: Tty) returns (ok: bool)
      requires Shows(m)
      modifies Owned(active)
      ensures ok <==> Step(m, KeyEvent(k)).Some?
      ensures ok ==> Shows(Step(m, KeyEvent(k)).value)
    {
      KeyStep(m, k);
      ok := KeyAlone(m.active, k);
    }

    method OnSwitch(t: nat, ghost m: Tty)
      requires t < 4 && Shows(m)
      modifies this, video, active.screenBuf, active, terms[t]
      ensures Shows(Step(m, SwitchEvent(t)).value)
    {
      Switch(t);
    }

    method WriteAlone(t: nat, bytes: seq<byte>) returns (n: nat, ok: bool)
      requires Valid() && t < 4 && OnScreen(ScreenOf(terms[t]))
      modifies Owned(terms[t])
      ensures OthersKept(t) && terms[t].isActive == old(terms[t].isActive)
      ensures ok <==> HandleKeys(old(ScreenOf(terms[t])), Stream(bytes)).Some?
      ensures ok ==> n == |bytes|
      ensures ok ==> TermOf(terms[t]) ==
                     old(TermOf(terms[t])).(screen := HandleKeys(old(ScreenOf(terms[t])), Stream(bytes)).value)
    {
      n, ok := Write(terms[t], bytes);
      assert ok ==> Stream(bytes)[..n] == Stream(bytes);
    }

    method OnWrite(t: nat, bytes: seq<byte>, ghost m: Tty) returns (n: nat, ok: bool)
      requires t < 4 && Shows(m)
      modifies Owned(terms[t])
      ensures ok <==> Step(m, WriteEvent(t, bytes)).Some?
      ensures ok ==> n == |bytes| && Shows(Step(m, WriteEvent(t, bytes)).value)
    {
      WriteStep(m, t, bytes);
      n, ok := WriteAlone(t, bytes);
    }

    /** terminal_open; the user count is always zero, so it always clears. */
    method Open(t: nat)
      requires Valid() && t < 4
      modifies Owned(terms[t])
      ensures OthersKept(t) && TermOf(terms[t]) == Fresh() && terms[t].isActive
    {
      var td := terms[t];
      Clear(td);
      td.FlushInput();
      td.isActive := true;
    }

    /** The boot code's terminal_open(0) after terminal_init: whatever was on the screen, the machine boots. */
    method Start()
      requires Valid() && active == terms[0] && forall t :: 1 <= t < 4 ==> TermOf(terms[t]) == Zeroed()
      requires forall t :: 0 <= t < 4 ==> !terms[t].isActive
      modifies Owned(terms[0])
      ensures Shows(Boot())
    {
      Open(0);
      BootReady(Boot());
    }

    method OnOpen(t: nat, ghost m: Tty)
      requires t < 4 && Shows(m)
      modifies Owned(terms[t])
      ensures Shows(Step(m, OpenEvent(t)).value)
    {
      OpenStep(m, t);
      Open(t);
    }

    method ReadAlone(t: nat, ghost a: nat, buf: array<byte>, len: int) returns (n: nat)
      requires Valid() && t < 4 && a < 4 && active == terms[a]
      requires IsStack(terms[t].Pending()) && terms[t].inRets != 0 && len <= buf.Length
      requires forall u :: 0 <= u < 4 ==> (buf as object) !in Owned(terms[u])
      modifies buf, terms[t], active.inBuf
      ensures Valid()
      ensures n == ReadCount(old(terms[t].Pending()).content, len)
      ensures forall k :: 0 <= k < n ==> buf[k] == old(terms[t].Pending()).content[k]
      ensures forall u :: 0 <= u < 4 ==>
                ScreenOf(terms[u]) == old(ScreenOf(terms[u])) && terms[u].isActive == old(terms[u].isActive)
      ensures forall u :: 0 <= u < 4 && u != t && u != a ==> terms[u].Pending() == old(terms[u].Pending())
      ensures t == a ==> terms[t].Pending() == Drain(old(terms[t].Pending()), len)
      ensures t != a ==> terms[t].Pending() == DrainInactive(old(terms[t].Pending()), len)
                         && terms[a].Pending() == Overlay(old(terms[a].Pending()), old(terms[t].Pending()), len)
    {
      n := ReadLine(terms[t], active, buf, len);
    }

    method OnRead(t: nat, buf: array<byte>, len: int, ghost m: Tty) returns (n: nat)
      requires t < 4 && Shows(m) && m.terms[t].line.rets != 0 && len <= buf.Length
      requires forall u :: 0 <= u < 4 ==> (buf as object) !in Owned(terms[u])
      modifies buf, terms[t], active.inBuf
      ensures Shows(Step(m, ReadEvent(t, len)).value)
      ensures n == ReadCount(m.terms[t].line.content, len)
      ensures forall k :: 0 <= k < n ==> buf[k] == m.terms[t].line.content[k]
    {
      ReadStep(m, t, len);
      n := ReadAlone(t, m.active, buf, len);
    }
  }

  /** Handling the next key of a stream. */
  lemma OneMoreKey(s0: Screen, ks: seq<Key>, n: nat, s: Screen)
    requires OnScreen(s0) && OnScreen(s) && n < |ks| && HandleKeys(s0, ks[..n]) == Some(s)
    ensures HandleKeys(s, ks[n..]) == match HandleKey(s, ks[n])
                                      case None => None
                                      case Some(s') => HandleKeys(s', ks[n + 1..])
    ensures HandleKeys(s0, ks[..n + 1]) == HandleKey(s, ks[n])
  {
    assert ks[n..][0] == ks[n] && ks[n..][1..] == ks[n + 1..];
    assert ks[..n + 1] == ks[..n] + [ks[n]];
    HandleKeysAppend(s0, ks[..n], [ks[n]]);
    assert [ks[n]][1..] == [];
  }

  method CopyCells(to: array<Cell>, from: array<Cell>)
    requires to.Length == from.Length && to != from
    modifies to
    ensures to[..] == old(from[..])
  {
    var i := 0;
    while i < to.Length
      invariant 0 <= i <= to.Length
      invariant forall k :: 0 <= k < i ==> to[k] == from[k]
    {
      to[i] := from[i];
      i := i + 1;
    }
  }

  /** The copy loop of terminal_read: stops at the end of the data, at `len`, or after a newline. */
  method TakeLine(src: array<byte>, end: nat, buf: array<byte>, len: int) returns (i: nat, returned: nat)
    requires end <= src.Length && len <= buf.Length && buf != src
    modifies buf
    ensures i == ReadCount(src[..end], len) && returned == Returned(src[..end], len)
    ensures forall k :: 0 <= k < buf.Length ==> buf[k] == if k < i then src[k] else old(buf[k])
  {
    i, returned := 0, 0;
    while i < end && i < len
      invariant i <= end && (i == 0 || i <= len)
      invariant forall k :: 0 <= k < i ==> buf[k] == src[k] && src[k] != NEWLINE
      invariant forall k :: i <= k < buf.Length ==> buf[k] == old(buf[k])
    {
      buf[i] := src[i];
      i := i + 1;
      if buf[i - 1] == NEWLINE {
        returned := 1;
        break;
      }
    }
    ReadStops(src[..end], len);
    assert StopsAt(src[..end], len, i);
  }

  /** The rest of `src`, from `i` to `end`, is copied to the start of `dst`, which may be `src` itself. */
  method MoveRest(dst: array<byte>, src: array<byte>, i: nat, end: nat)
    requires i <= end <= src.Length && end - i <= dst.Length
    modifies dst
    ensures forall k :: 0 <= k < dst.Length ==> dst[k] == if k < end - i then old(src[i + k]) else old(dst[k])
  {
    var j := 0;
    while i + j < end
      invariant 0 <= j <= end - i
      invariant forall k :: 0 <= k < j ==> dst[k] == old(src[i + k])
      invariant forall k :: j <= k < dst.Length ==> dst[k] == old(dst[k])
    {
      dst[j] := src[i + j];
      j := j + 1;
    }
  }

  /**
   * terminal_read by a process on terminal `td` while `act` is the active one, from where its spin
   * on inRets ends. The remainder is always moved into the buffer of `act`.
   */
  method ReadLine(td: TermData, act: TermData, buf: array<byte>, len: int) returns (n: nat)
    requires td.Valid() && act.Valid() && (td == act || td.inBuf != act.inBuf)
    requires IsStack(td.Pending()) && td.inRets != 0 && len <= buf.Length && buf != td.inBuf && buf != act.inBuf
    modifies buf, td`inIndex, td`inEnd, td`inRets, act.inBuf
    ensures td.Valid() && act.Valid()
    ensures n == ReadCount(old(td.Pending()).content, len)
    ensures forall k :: 0 <= k < buf.Length ==> buf[k] == if k < n then old(td.Pending()).content[k] else old(buf[k])
    ensures td == act ==> td.Pending() == Drain(old(td.Pending()), len)
    ensures td != act ==> td.Pending() == DrainInactive(old(td.Pending()), len)
                          && act.Pending() == Overlay(old(act.Pending()), old(td.Pending()), len)
  {
    ghost var l := td.Pending();
    var returned;
    n, returned := TakeLine(td.inBuf, td.inEnd, buf, len);
    Settle(td, act, n, returned, l.content[n..]);
  }

  /** The remainder of `td` after `n` bytes moves to the front of the buffer of `act`. */
  method Settle(td: TermData, act: TermData, n: nat, returned: nat, ghost rest: seq<byte>)
    requires td.Valid() && act.Valid() && (td == act || td.inBuf != act.inBuf)
    requires n <= td.inIndex && rest == td.Pending().content[n..]
    modifies td`inIndex, td`inEnd, td`inRets, act.inBuf
    ensures td.Valid() && act.Valid() && (td != act ==> act.inEnd == old(act.inEnd))
    ensures td.inIndex == old(td.inIndex) - n && td.inRets == old(td.inRets) - returned
    ensures td == act ==> td.Pending().content == rest
    ensures td != act ==>
              && td.Pending().content == old(td.Pending()).content[..|rest|]
              && act.Pending() == old(act.Pending()).(content :=
                   if |rest| <= act.inEnd then rest + old(act.Pending()).content[|rest|..] else rest[..act.inEnd])
  {
    ghost var was, over, end := td.inBuf[..], act.inBuf[..], td.inEnd;
    MoveRest(act.inBuf, td.inBuf, n, td.inEnd);
    td.Consume(n, returned);
    if td == act {
      MovedDown(was, td.inBuf[..], n, end);
    } else {
      MovedOver(over, act.inBuf[..], rest, act.inEnd);
      assert td.inBuf[..] == was;
    }
  }

  lemma MovedDown(was: seq<byte>, now: seq<byte>, n: nat, end: nat)
    requires n <= end <= |was| == |now|
    requires forall k :: 0 <= k < end - n ==> now[k] == was[n + k]
    ensures now[..end - n] == was[..end][n..]
  {
  }

  lemma MovedOver(was: seq<byte>, now: seq<byte>, rest: seq<byte>, end: nat)
    requires end <= |was| == |now| && |rest| <= |was|
    requires forall k :: 0 <= k < |was| ==> now[k] == if k < |rest| then rest[k] else was[k]
    ensures now[..end] == if |rest| <= end then rest + was[..end][|rest|..] else rest[..end]
  {
  }

  /** Cells `from` up to `to` each take their right neighbour, so cell `from` is gone. */
  method CloseGap(b: array<byte>, from: nat, to: nat, ghost end: nat)
    requires from <= to < b.Length && from < end <= to + 1 <= end + 1
    modifies b
    ensures b[..end - 1] == old(b[..end])[..from] + old(b[..end])[from + 1..]
  {
    ghost var was := b[..];
    var i := from;
    while i < to
      invariant from <= i <= to
      invariant forall k :: 0 <= k < from ==> b[k] == was[k]
      invariant forall k :: from < k <= i ==> b[k - 1] == was[k]
      invariant forall k :: i <= k < b.Length ==> b[k] == was[k]
    {
      b[i] := b[i + 1];
      i := i + 1;
    }
    forall k | from <= k < end - 1 ensures b[k] == was[k + 1] { assert b[(k + 1) - 1] == was[k + 1]; }
  }

  /** The upward shift for an insertion at `at`: it repeats the displaced character up to `end`. */
  method OpenGap(b: array<byte>, at: nat, end: nat)
    requires at <= end < b.Length
    modifies b
    ensures forall k :: 0 <= k < b.Length ==> b[k] == if at < k <= end then old(b[at]) else old(b[k])
  {
    ghost var was := b[..];
    var i := at + 1;
    while i < end + 1
      invariant at + 1 <= i <= end + 1
      invariant forall k :: 0 <= k <= at ==> b[k] == was[k]
      invariant forall k :: at < k < i ==> b[k] == was[at]
      invariant forall k :: i <= k < b.Length ==> b[k] == was[k]
    {
      b[i] := b[i - 1];
      i := i + 1;
    }
  }

  /** What the gap and the store amount to on the pending bytes. */
  lemma Inserted(was: seq<byte>, now: seq<byte>, at: nat, end: nat, key: byte)
    requires at <= end < |was| == |now|
    requires forall k :: 0 <= k < at ==> now[k] == was[k]
    requires now[at] == key
    requires forall k :: at < k <= end ==> now[k] == was[at]
    ensures now[..end + 1] == was[..end][..at] + [key] + Smear(was[..end][at..])
  {
  }
}
