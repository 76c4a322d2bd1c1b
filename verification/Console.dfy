/**
 * The kernel's own console (lib/lib.c), a second scrolling writer to the same video memory, and
 * how far it agrees with the terminal driver. The two byte stores that make up a cell (character,
 * then attribute) are one store here.
 */
module Console {
  import opened Sequences
  import opened Bytes
  import opened TermScreen

  /** A character with attribute 7. */
  function Lettered(c: byte): (r: Cell)
    ensures r / 256 == 7 && Glyph(r) == c
  {
    0x700 + c
  }

  /** Rows move up unchanged, attributes included; the last row becomes blank. */
  function Raised(cells: seq<Cell>): (r: seq<Cell>)
    requires |cells| == 2000
    ensures |r| == 2000
  {
    cells[80..] + seq<Cell>(80, i => Lettered(SPACE))
  }

  /** putc. */
  function ConsolePut(s: Screen, c: byte): (r: Screen)
    requires OnScreen(s)
    ensures OnScreen(r)
  {
    var newline := c == NEWLINE || c == RETURN;
    var cells := if newline then s.cells else s.cells[80 * s.y + s.x := Lettered(c)];
    if !newline && s.x < 79 then Screen(cells, s.x + 1, s.y)
    else if s.y == 24 then Screen(Raised(cells), 0, 24)
    else Screen(cells, 0, s.y + 1)
  }

  function ConsolePuts(s: Screen, cs: seq<byte>): (r: Screen)
    requires OnScreen(s)
    ensures OnScreen(r)
    decreases |cs|
  {
    if cs == [] then s else ConsolePuts(ConsolePut(s, cs[0]), cs[1..])
  }

  // ----- the code -----

  class VideoConsole {
    const video: array<Cell>
    var screenX: int
    var screenY: int

    ghost predicate Valid()
      reads this
    {
      video.Length == 2000 && 0 <= screenX < 80 && 0 <= screenY < 25
    }

    ghost function View(): Screen
      reads this, video
    {
      Screen(video[..], screenX, screenY)
    }

    constructor (video: array<Cell>)
      requires video.Length == 2000
      ensures Valid() && this.video == video && screenX == screenY == 0
    {
      this.video, screenX, screenY := video, 0, 0;
    }

    method VerticalScroll()
      requires video.Length == 2000
      modifies this, video
      ensures Valid() && View() == Screen(Raised(old(video[..])), 0, 24)
    {
      ghost var was := video[..];
      var i := 0;
      while i < 1920
        invariant 0 <= i <= 1920
        invariant forall k :: 0 <= k < i ==> video[k] == was[k + 80]
        invariant forall k :: i <= k < 2000 ==> video[k] == was[k]
        invariant i > 0 ==> screenX == 0 && screenY == 24
      {
        video[i] := video[i + 80];
        screenX := 0;
        screenY := 24;
        i := i + 1;
      }
      while i < 2000
        invariant 1920 <= i <= 2000
        invariant forall k :: 0 <= k < 1920 ==> video[k] == was[k + 80]
        invariant forall k :: 1920 <= k < i ==> video[k] == Lettered(SPACE)
        invariant screenX == 0 && screenY == 24
      {
        video[i] := Lettered(SPACE);
        i := i + 1;
      }
      assert video[..] == Raised(was);
    }

    method Putc(c: byte)
      requires Valid()
      modifies this, video
      ensures Valid() && View() == ConsolePut(old(View()), c)
    {
      if c == NEWLINE || c == RETURN {
        screenY := screenY + 1;
        screenX := 0;
      } else {
        video[80 * screenY + screenX] := Lettered(c);
        screenX := screenX + 1;
        if screenX == 80 { screenY := screenY + 1; }
        screenX := screenX % 80;
        if screenY != 25 {
          screenY := screenY + screenX / 80;
        } else {
          VerticalScroll();
        }
      }
      if screenY == 25 { VerticalScroll(); }
    }

    method Puts(cs: seq<byte>) returns (n: nat)
      requires Valid() && NUL !in cs
      modifies this, video
      ensures Valid() && n == |cs| && View() == ConsolePuts(old(View()), cs)
    {
      n := 0;
      assert cs[0..] == cs;
      while n < |cs|
        invariant n <= |cs| && Valid()
        invariant ConsolePuts(View(), cs[n..]) == ConsolePuts(old(View()), cs)
      {
        assert cs[n..][0] == cs[n] && cs[n..][1..] == cs[n + 1..];
        Putc(cs[n]);
        n := n + 1;
      }
      assert cs[n..] == [];
    }
  }

  // ----- agreement with the terminal driver -----

  /** A cell as the terminal driver writes it: attribute 7, or 0xFF for characters from 128 on. */
  predicate Native(c: Cell) { c / 256 == if c % 256 < 128 then 7 else 0xFF }

  /** Copying a cell through its character, as the terminal driver scrolls, keeps exactly the native ones. */
  lemma NativeIs(c: Cell)
    ensures Native(c) <==> c == Paint(Glyph(c))
  {
  }

  ghost predicate AllNative(s: Screen) {
    forall k :: 0 <= k < |s.cells| ==> Native(s.cells[k])
  }

  /** 7-bit characters that both writers treat as one printed cell, or as a new line. */
  predicate Common(c: byte) {
    0 < c < 127 && c != BACKSPACE && c != TAB && c != RETURN
  }

  /** A new line is the same for both exactly when no scrolling is due or every surviving cell is native. */
  lemma NewlineAgrees(s: Screen)
    requires OnScreen(s)
    ensures HandleKey(s, Written(NEWLINE)) == Some(ConsolePut(s, NEWLINE)) <==>
            (s.y == 24 ==> forall k :: 80 <= k < 2000 ==> Native(s.cells[k]))
  {
    if s.y == 24 {
      var a, b := Scrolled(s.cells), Raised(s.cells);
      if a == b {
        forall k | 80 <= k < 2000 ensures Native(s.cells[k]) { assert a[k - 80] == b[k - 80]; }
      }
      if forall k :: 80 <= k < 2000 ==> Native(s.cells[k]) {
        forall k | 0 <= k < 2000 ensures a[k] == b[k] {}
        assert a == b;
      }
    }
  }

  lemma CommonAgrees(s: Screen, c: byte)
    requires OnScreen(s) && AllNative(s) && Common(c)
    ensures HandleKey(s, Written(c)) == Some(ConsolePut(s, c)) && AllNative(ConsolePut(s, c))
  {
    if c == NEWLINE {
      NewlineAgrees(s);
    } else {
      var cells := s.cells[80 * s.y + s.x := Lettered(c)];
      assert cells == s.cells[s.y * 80 + s.x := Paint(c)];
      assert AllNative(s.(cells := cells));
      if s.x == 79 { NewlineAgrees(s.(cells := cells)); }
    }
  }

  /** The two writers agree on a byte, on every screen of native cells, exactly when it is a common one. */
  lemma AgreeIffCommon(c: byte)
    ensures Common(c) <==>
            forall s :: OnScreen(s) && AllNative(s) ==> HandleKey(s, Written(c)) == Some(ConsolePut(s, c))
  {
    if Common(c) {
      forall s | OnScreen(s) && AllNative(s) ensures HandleKey(s, Written(c)) == Some(ConsolePut(s, c)) {
        CommonAgrees(s, c);
      }
    } else {
      var s := Blank();
      assert OnScreen(s) && AllNative(s);
      assert ConsolePut(s, c).cells[0] == if c == RETURN then Paint(SPACE) else Lettered(c);
      assert HandleKey(s, Written(c)) != Some(ConsolePut(s, c));
    }
  }

  /** From equal native screens, every string of common bytes leaves equal screens and cursors. */
  lemma {:induction false} StringsAgree(s: Screen, cs: seq<byte>)
    requires OnScreen(s) && AllNative(s) && forall i :: 0 <= i < |cs| ==> Common(cs[i])
    ensures HandleKeys(s, Stream(cs)) == Some(ConsolePuts(s, cs))
    decreases |cs|
  {
    if cs != [] {
      CommonAgrees(s, cs[0]);
      assert Stream(cs)[1..] == Stream(cs[1..]);
      StringsAgree(ConsolePut(s, cs[0]), cs[1..]);
    }
  }

  // ----- what the console shows -----

  /** The unbounded page a string is put on: lines of 80, and every byte but the two line ends has a cell. */
  function ConsolePage(cs: seq<byte>): (text: seq<byte>) {
    if cs == [] then []
    else
      var c, text := cs[|cs| - 1], ConsolePage(cs[..|cs| - 1]);
      if c == NEWLINE || c == RETURN then PadTo(text, 80) else text + [c]
  }

  function LetteredWindow(t: Tape): (r: seq<Cell>)
    ensures |r| == 2000
    ensures forall k :: 0 <= k < 2000 ==> r[k] == Lettered(TapeAt(t, 80 * t.top + k))
  {
    seq<Cell>(2000, k requires 0 <= k < 2000 => Lettered(TapeAt(t, 80 * t.top + k)))
  }

  /** The 25 lines from `top` on in attribute 7, with the cursor at the end of the text. */
  function ConsoleShow(t: Tape): (s: Screen)
    requires Fits(t)
    ensures OnScreen(s)
  {
    Screen(LetteredWindow(t), |t.text| % 80, |t.text| / 80 - t.top)
  }

  lemma WindowRaised(t: Tape, t': Tape)
    requires t'.top == t.top + 1 && |t.text| <= 80 * (t.top + 25)
    requires forall m: nat :: TapeAt(t', m) == TapeAt(t, m)
    ensures LetteredWindow(t') == Raised(LetteredWindow(t))
  {
  }

  lemma LineEndShown(t: Tape, c: byte)
    requires Fits(t) && (c == NEWLINE || c == RETURN)
    ensures var t' := Extend(t, PadTo(t.text, 80)); Fits(t') && ConsolePut(ConsoleShow(t), c) == ConsoleShow(t')
  {
    var t' := Extend(t, PadTo(t.text, 80));
    PadLength(|t.text|, 80);
    assert forall m: nat :: TapeAt(t', m) == TapeAt(t, m);
    if t'.top == t.top { assert LetteredWindow(t') == LetteredWindow(t); } else { WindowRaised(t, t'); }
  }

  lemma WindowLettered(t: Tape, u: Tape, c: byte)
    requires Fits(t) && u == t.(text := t.text + [c])
    ensures var s := ConsoleShow(t); LetteredWindow(u) == s.cells[80 * s.y + s.x := Lettered(c)]
  {
  }

  lemma LetterShown(t: Tape, c: byte)
    requires Fits(t) && c != NEWLINE && c != RETURN
    ensures var t' := Extend(t, t.text + [c]); Fits(t') && ConsolePut(ConsoleShow(t), c) == ConsoleShow(t')
  {
    var u, t' := t.(text := t.text + [c]), Extend(t, t.text + [c]);
    WindowLettered(t, u, c);
    if t'.top != t.top { WindowRaised(u, t'); }
  }

  lemma {:induction false} PutsLast(s: Screen, cs: seq<byte>)
    requires OnScreen(s) && cs != []
    ensures ConsolePuts(s, cs) == ConsolePut(ConsolePuts(s, cs[..|cs| - 1]), cs[|cs| - 1])
    decreases |cs|
  {
    if |cs| > 1 {
      PutsLast(ConsolePut(s, cs[0]), cs[1..]);
      assert cs[1..][..|cs| - 2] == cs[..|cs| - 1][1..];
    } else {
      assert cs[1..] == [];
    }
  }

  /** The page gets longer by no more than one line. */
  lemma PageGrows(text: seq<byte>, text': seq<byte>)
    requires |text| <= |text'| && |text'| / 80 <= |text| / 80 + 1
    ensures Fits(LastLines(text)) && Extend(LastLines(text), text') == LastLines(text')
  {
  }

  /**
   * Whatever string is put on a blank screen, of whatever bytes and however long, the console shows the
   * last 25 lines of the page it makes.
   */
  lemma {:induction false} PutsShowLastLines(cs: seq<byte>)
    ensures Fits(LastLines(ConsolePage(cs)))
    ensures ConsolePuts(Blank(), cs) == ConsoleShow(LastLines(ConsolePage(cs)))
  {
    if cs == [] {
      BlankShown();
    } else {
      var n := |cs| - 1;
      PutsShowLastLines(cs[..n]);
      PutsLast(Blank(), cs);
      PutLast(ConsolePage(cs[..n]), cs[n]);
    }
  }

  lemma BlankShown()
    ensures Fits(LastLines([])) && ConsoleShow(LastLines([])) == Blank()
  {
    assert ConsoleShow(LastLines([])).cells == Blank().cells;
  }

  lemma PutLast(text: seq<byte>, c: byte)
    requires Fits(LastLines(text))
    ensures var text' := if c == NEWLINE || c == RETURN then PadTo(text, 80) else text + [c];
            Fits(LastLines(text')) && ConsolePut(ConsoleShow(LastLines(text)), c) == ConsoleShow(LastLines(text'))
  {
    if c == NEWLINE || c == RETURN {
      PadLength(|text|, 80);
      PageGrows(text, PadTo(text, 80));
      LineEndShown(LastLines(text), c);
    } else {
      PageGrows(text, text + [c]);
      LetterShown(LastLines(text), c);
    }
  }
}
