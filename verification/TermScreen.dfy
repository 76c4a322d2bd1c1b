/**
 * What a virtual terminal shows (drivers/termios.c): an 80x25 screen with a scrolling cursor,
 * and the typewriter tape it is a window on. A cell is 16 bits, attribute above character.
 */
module TermScreen {
  import opened Sequences
  import opened Bytes

  type Cell = c: int | 0 <= c < 0x10000

  /** The cell stored for a character: attribute 7, or'ed with the sign-extended char. */
  function Paint(c: byte): (r: Cell)
    ensures Glyph(r) == c
  {
    if c < 128 then 0x700 + c else 0xFF00 + c
  }

  function Glyph(c: Cell): byte { c % 256 }

  /** 25 rows of 80 cells, and the cursor. */
  datatype Screen = Screen(cells: seq<Cell>, x: int, y: int)

  ghost predicate OnScreen(s: Screen) {
    |s.cells| == 2000 && 0 <= s.x < 80 && 0 <= s.y < 25
  }

  /** A key as the keyboard handler or a write delivers it. */
  datatype Key = Key(ascii: byte, scancode: byte, control: bool, alt: bool)

  /** A written byte, which carries scancode 0xFF and no modifiers. */
  function Written(c: byte): Key { Key(c, 0xFF, false, false) }

  function Blank(): Screen {
    Screen(seq(2000, i => Paint(SPACE)), 0, 0)
  }

  // ----- the screen, as the driver changes it -----

  /** Cells `from` up to but not including `to` each take the character `d` cells further on. */
  function Shifted(cells: seq<Cell>, from: nat, to: nat, d: nat): (r: seq<Cell>)
    requires from <= to && to + d <= |cells|
    ensures |r| == |cells|
    ensures forall k :: 0 <= k < |r| ==> r[k] == if from <= k < to then Paint(Glyph(cells[k + d])) else cells[k]
  {
    cells[..from]
    + seq<Cell>(to - from, k requires 0 <= k < to - from => Paint(Glyph(cells[from + k + d])))
    + cells[to..]
  }

  /** Cells `from` up to but not including `to` become blank. */
  function Cleared(cells: seq<Cell>, from: nat, to: nat): (r: seq<Cell>)
    requires from <= to <= |cells|
    ensures |r| == |cells|
    ensures forall k :: 0 <= k < |r| ==> r[k] == if from <= k < to then Paint(SPACE) else cells[k]
  {
    cells[..from] + seq<Cell>(to - from, k => Paint(SPACE)) + cells[to..]
  }

  /** Every row takes the characters of the row below; the last row becomes blank. */
  function Scrolled(cells: seq<Cell>): (r: seq<Cell>)
    requires |cells| == 2000
    ensures |r| == 2000
    ensures forall k :: 0 <= k < 2000 ==> r[k] == if k < 1920 then Paint(Glyph(cells[k + 80])) else Paint(SPACE)
  {
    Cleared(Shifted(cells, 0, 1920, 80), 1920, 2000)
  }

  /** Extending a shift or a clear by one cell is one store. */
  lemma ShiftedStep(cells: seq<Cell>, from: nat, i: nat, d: nat)
    requires from <= i && i + 1 + d <= |cells|
    ensures Shifted(cells, from, i, d)[i + d] == cells[i + d]
    ensures Shifted(cells, from, i, d)[i := Paint(Glyph(cells[i + d]))] == Shifted(cells, from, i + 1, d)
  {
  }

  lemma ClearedStep(cells: seq<Cell>, from: nat, i: nat)
    requires from <= i < |cells|
    ensures Cleared(cells, from, i)[i := Paint(SPACE)] == Cleared(cells, from, i + 1)
  {
  }

  lemma NothingDone(cells: seq<Cell>, from: nat, d: nat)
    requires from + d <= |cells|
    ensures Shifted(cells, from, from, d) == cells && Cleared(cells, from, from) == cells
  {
  }

  function LineFeed(s: Screen): Screen
    requires |s.cells| == 2000
  {
    if s.y == 24 then Screen(Scrolled(s.cells), 0, 24) else Screen(s.cells, 0, s.y + 1)
  }

  function Type(s: Screen, c: byte): Screen
    requires OnScreen(s)
  {
    var s' := s.(cells := s.cells[s.y * 80 + s.x := Paint(c)]);
    if s.x == 79 then LineFeed(s') else s'.(x := s.x + 1)
  }

  function Tabbed(s: Screen): Screen
    requires OnScreen(s)
  {
    var x := (s.x / 8 + 1) * 8;
    if x >= 79 then LineFeed(s) else s.(x := x)
  }

  /** None: the source stores outside the screen (one cell before it, from the origin). */
  function Backspaced(s: Screen): Option<Screen>
    requires OnScreen(s)
  {
    if s.x == 0 && s.y != 0 then
      Some(Screen(s.cells[(s.y - 1) * 80 + 79 := Paint(SPACE)], 79, s.y - 1))
    else if s.x == 0 then None
    else
      Some(Screen(Shifted(s.cells, s.y * 80 + s.x - 1, s.y * 80 + 79, 1)[s.y * 80 + 79 := Paint(SPACE)], s.x - 1, s.y))
  }

  /**
   * Delete shifts columns up to 24 only, then blanks the column after the last one it reached;
   * None: that cell is past the end of the screen.
   */
  function Deleted(s: Screen): Option<Screen>
    requires OnScreen(s)
  {
    if s.x < 24 then
      Some(s.(cells := Shifted(s.cells, s.y * 80 + s.x, s.y * 80 + 24, 1)[s.y * 80 + 25 := Paint(SPACE)]))
    else if s.y * 80 + s.x + 1 == 2000 then None
    else Some(s.(cells := s.cells[s.y * 80 + s.x + 1 := Paint(SPACE)]))
  }

  /** The characters of a row. */
  function Text(cells: seq<Cell>, y: nat): (r: seq<byte>)
    requires |cells| == 2000 && y < 25
    ensures |r| == 80 && forall x :: 0 <= x < 80 ==> r[x] == Glyph(cells[80 * y + x])
  {
    seq<byte>(80, x requires 0 <= x < 80 => Glyph(cells[80 * y + x]))
  }

  /** No cell outside row `y` has changed. */
  ghost predicate OnlyRow(a: seq<Cell>, b: seq<Cell>, y: nat) {
    |a| == |b| && forall k :: 0 <= k < |a| && !(80 * y <= k < 80 * y + 80) ==> a[k] == b[k]
  }

  /** On every screen, whatever is on it: backspace takes the character before the cursor out of its row. */
  lemma BackspacedText(s: Screen)
    requires OnScreen(s) && s.x > 0
    ensures Backspaced(s).Some? && Backspaced(s).value.x == s.x - 1 && Backspaced(s).value.y == s.y
    ensures OnlyRow(s.cells, Backspaced(s).value.cells, s.y)
    ensures var row := Text(s.cells, s.y);
            Text(Backspaced(s).value.cells, s.y) == row[..s.x - 1] + row[s.x..] + [SPACE]
  {
    var row, cells := Text(s.cells, s.y), Backspaced(s).value.cells;
    var want := row[..s.x - 1] + row[s.x..] + [SPACE];
    forall x | 0 <= x < 80 ensures Text(cells, s.y)[x] == want[x] {
      assert cells[80 * s.y + x] ==
             if x == 79 then Paint(SPACE)
             else if s.x - 1 <= x then Paint(Glyph(s.cells[80 * s.y + x + 1])) else s.cells[80 * s.y + x];
    }
  }

  /** In the first column it blanks the end of the row above, and fails in the first row. */
  lemma BackspacedUp(s: Screen)
    requires OnScreen(s) && s.x == 0
    ensures Backspaced(s).None? <==> s.y == 0
    ensures Backspaced(s).Some? ==>
              && Backspaced(s).value.x == 79 && Backspaced(s).value.y == s.y - 1 && |Backspaced(s).value.cells| == 2000
              && forall k :: 0 <= k < 2000 ==>
                   Backspaced(s).value.cells[k] == if k == 80 * s.y - 1 then 0x720 else s.cells[k]
  {
  }

  /**
   * On every screen: left of column 24, delete takes the character under the cursor out of the first 25
   * columns, doubling the one in column 24, and blanks column 25.
   */
  lemma DeletedText(s: Screen)
    requires OnScreen(s) && s.x < 24
    ensures Deleted(s).Some? && Deleted(s).value.x == s.x && Deleted(s).value.y == s.y
    ensures |Deleted(s).value.cells| == 2000 && OnlyRow(s.cells, Deleted(s).value.cells, s.y)
    ensures forall x :: 0 <= x < 80 ==>
              Text(Deleted(s).value.cells, s.y)[x] ==
              if s.x <= x < 24 then Text(s.cells, s.y)[x + 1] else if x == 25 then SPACE else Text(s.cells, s.y)[x]
  {
  }

  /** From there on it blanks the next cell, of the next row if need be, and fails in the last one. */
  lemma DeletedFar(s: Screen)
    requires OnScreen(s) && s.x >= 24
    ensures Deleted(s).None? <==> s.x == 79 && s.y == 24
    ensures Deleted(s).Some? ==>
              && Deleted(s).value.x == s.x && Deleted(s).value.y == s.y && |Deleted(s).value.cells| == 2000
              && forall k :: 0 <= k < 2000 ==>
                   Deleted(s).value.cells[k] == if k == 80 * s.y + s.x + 1 then 0x720 else s.cells[k]
  {
  }

  /** terminal_handle_key on the screen and cursor. */
  function HandleKey(s: Screen, k: Key): (r: Option<Screen>)
    requires OnScreen(s)
    ensures r.Some? ==> OnScreen(r.value)
  {
    if k.ascii == BACKSPACE then Backspaced(s)
    else if k.ascii == DELETE then Deleted(s)
    else if k.ascii == NEWLINE then Some(LineFeed(s))
    else if k.ascii == TAB then Some(Tabbed(s))
    else if k.control then Some(if Clears(k) then Blank() else s)
    else if k.alt then Some(s)
    else if k.ascii != NUL then Some(Type(s, k.ascii))
    else if k.scancode == 0xFF then Some(Type(s, SPACE))
    else Some(s)
  }

  /** Control-L. */
  predicate Clears(k: Key) { k.control && k.ascii == 108 }

  // ----- the tape: text that is only ever extended or erased at its end -----

  /** Everything typed since the last clear, blanks included; `top` counts the lines scrolled away. */
  datatype Tape = Tape(text: seq<byte>, top: nat)

  ghost predicate Fits(t: Tape) {
    80 * t.top <= |t.text| && |t.text| / 80 < t.top + 25
  }

  function Blanks(n: nat): (r: seq<byte>)
    ensures |r| == n
  {
    seq(n, i => SPACE)
  }

  /** Text padded with blanks to the next multiple of `unit`. */
  function PadTo(text: seq<byte>, unit: nat): (r: seq<byte>)
    requires unit > 0
  {
    text + Blanks(unit - |text| % unit)
  }

  /** Lines scroll away only when the cursor needs a 26th line. */
  function Extend(t: Tape, text: seq<byte>): Tape {
    Tape(text, if |text| / 80 >= t.top + 25 then |text| / 80 - 24 else t.top)
  }

  function TapeKey(t: Tape, k: Key): Option<Tape> {
    if k.ascii == BACKSPACE then
      if |t.text| == 80 * t.top || t.text == [] then None else Some(t.(text := t.text[..|t.text| - 1]))
    else if k.ascii == DELETE then
      if |t.text| % 80 == 79 && |t.text| / 80 == t.top + 24 then None else Some(t)
    else if k.ascii == NEWLINE then Some(Extend(t, PadTo(t.text, 80)))
    else if k.ascii == TAB then Some(Extend(t, PadTo(t.text, 8)))
    else if k.control then Some(if Clears(k) then Tape([], 0) else t)
    else if k.alt then Some(t)
    else if k.ascii != NUL then Some(Extend(t, t.text + [k.ascii]))
    else if k.scancode == 0xFF then Some(Extend(t, t.text + [SPACE]))
    else Some(t)
  }

  /** The character at absolute position `m` of the tape. */
  function TapeAt(t: Tape, m: nat): byte {
    if m < |t.text| then t.text[m] else SPACE
  }

  function Window(t: Tape): (r: seq<Cell>)
    ensures |r| == 2000
    ensures forall k :: 0 <= k < 2000 ==> r[k] == Paint(TapeAt(t, 80 * t.top + k))
  {
    seq<Cell>(2000, k requires 0 <= k < 2000 => Paint(TapeAt(t, 80 * t.top + k)))
  }

  /** The 25 lines from `top` on, blank beyond the text, with the cursor at the end of the text. */
  function Show(t: Tape): (s: Screen)
    requires Fits(t)
    ensures OnScreen(s)
  {
    Screen(Window(t), |t.text| % 80, |t.text| / 80 - t.top)
  }

  // ----- the driver shows the tape -----

  lemma ShowTyped(t: Tape, c: byte)
    requires Fits(t)
    ensures Fits(Extend(t, t.text + [c]))
    ensures Show(Extend(t, t.text + [c])) == Type(Show(t), c)
  {
    var u := t.(text := t.text + [c]);
    var cells := Show(t).cells[Show(t).y * 80 + Show(t).x := Paint(c)];
    assert Window(u) == cells;
    if |u.text| / 80 >= t.top + 25 { ScrolledFull(u, Extend(t, u.text)); }
  }

  /** A tape whose last line has just been filled scrolls by one line. */
  lemma ScrolledFull(t: Tape, t': Tape)
    requires t'.top == t.top + 1 && |t.text| <= 80 * (t.top + 25)
    requires forall m: nat :: TapeAt(t', m) == TapeAt(t, m)
    ensures Window(t') == Scrolled(Window(t))
  {
  }

  lemma ShowPadded(t: Tape, unit: nat)
    requires Fits(t) && (unit == 8 || unit == 80)
    ensures Fits(Extend(t, PadTo(t.text, unit)))
    ensures Show(Extend(t, PadTo(t.text, unit))) == if unit == 8 then Tabbed(Show(t)) else LineFeed(Show(t))
  {
    var t' := Extend(t, PadTo(t.text, unit));
    PadLength(|t.text|, unit);
    assert forall m: nat :: TapeAt(t', m) == TapeAt(t, m);
    if t'.top == t.top { assert Window(t') == Window(t); } else { ScrolledFull(t, t'); }
  }

  lemma PadLength(n: nat, unit: nat)
    requires unit == 8 || unit == 80
    ensures var n' := n + (unit - n % unit);
            if unit == 8 && (n % 80 / 8 + 1) * 8 < 79 then n' / 80 == n / 80 && n' % 80 == (n % 80 / 8 + 1) * 8
            else n' / 80 == n / 80 + 1 && n' % 80 == 0
  {
  }

  lemma ShowBackspaced(t: Tape)
    requires Fits(t)
    ensures |t.text| == 80 * t.top || t.text == [] ==> Backspaced(Show(t)) == None
    ensures !(|t.text| == 80 * t.top || t.text == []) ==>
              var t' := t.(text := t.text[..|t.text| - 1]); Fits(t') && Backspaced(Show(t)) == Some(Show(t'))
  {
    if !(|t.text| == 80 * t.top || t.text == []) {
      var t' := t.(text := t.text[..|t.text| - 1]);
      var a, b := Show(t'), Backspaced(Show(t)).value;
      assert a.x == b.x && a.y == b.y;
      assert a.cells == b.cells;
    }
  }

  lemma ShowDeleted(t: Tape)
    requires Fits(t)
    ensures Deleted(Show(t)) ==
            if |t.text| % 80 == 79 && |t.text| / 80 == t.top + 24 then None else Some(Show(t))
  {
    if !(|t.text| % 80 == 79 && |t.text| / 80 == t.top + 24) {
      assert Deleted(Show(t)).value.cells == Show(t).cells;
    }
  }

  /** One key: the screen stays the window on the tape, and leaves its bounds exactly when the tape says so. */
  lemma KeyShowsTape(t: Tape, k: Key)
    requires Fits(t)
    ensures match TapeKey(t, k)
            case None => HandleKey(Show(t), k) == None
            case Some(t') => Fits(t') && HandleKey(Show(t), k) == Some(Show(t'))
  {
    if k.ascii == BACKSPACE { ShowBackspaced(t); }
    else if k.ascii == DELETE { ShowDeleted(t); }
    else if k.ascii == NEWLINE { ShowPadded(t, 80); }
    else if k.ascii == TAB { ShowPadded(t, 8); }
    else if !k.control && !k.alt { ShowTyped(t, if k.ascii == NUL then SPACE else k.ascii); }
    else { assert Show(Tape([], 0)).cells == Blank().cells; }
  }

  // ----- whole streams -----

  /** The screen after a stream of keys; None once a key has stored outside the screen. */
  function HandleKeys(s: Screen, ks: seq<Key>): (r: Option<Screen>)
    requires OnScreen(s)
    ensures r.Some? ==> OnScreen(r.value)
    decreases |ks|
  {
    if ks == [] then Some(s)
    else match HandleKey(s, ks[0])
      case None => None
      case Some(s') => HandleKeys(s', ks[1..])
  }

  lemma {:induction false} HandleKeysAppend(s: Screen, a: seq<Key>, b: seq<Key>)
    requires OnScreen(s)
    ensures HandleKeys(s, a + b) == match HandleKeys(s, a)
                                    case None => None
                                    case Some(s') => HandleKeys(s', b)
    decreases |a|
  {
    if a == [] {
      assert a + b == b;
    } else {
      assert (a + b)[0] == a[0] && (a + b)[1..] == a[1..] + b;
      match HandleKey(s, a[0])
      case None =>
      case Some(s') => HandleKeysAppend(s', a[1..], b);
    }
  }

  function TapeKeys(t: Tape, ks: seq<Key>): Option<Tape>
    decreases |ks|
  {
    if ks == [] then Some(t)
    else match TapeKey(t, ks[0])
      case None => None
      case Some(t') => TapeKeys(t', ks[1..])
  }

  /** For EVERY stream of keys the screen is the window on the tape, for as long as it stays in bounds. */
  lemma {:induction false} StreamShowsTape(t: Tape, ks: seq<Key>)
    requires Fits(t)
    ensures match TapeKeys(t, ks)
            case None => HandleKeys(Show(t), ks) == None
            case Some(t') => Fits(t') && HandleKeys(Show(t), ks) == Some(Show(t'))
    decreases |ks|
  {
    if ks != [] {
      KeyShowsTape(t, ks[0]);
      match TapeKey(t, ks[0])
      case None =>
      case Some(t') => StreamShowsTape(t', ks[1..]);
    }
  }

  lemma BlankShowsEmpty()
    ensures Fits(Tape([], 0)) && Show(Tape([], 0)) == Blank()
  {
  }

  /** Bytes that only ever move the cursor forward. */
  predicate Forward(c: byte) { c != BACKSPACE && c != DELETE }

  /** The unbounded page a byte stream is written on: lines of 80, tab stops every 8, nothing scrolled. */
  function Page(cs: seq<byte>): (text: seq<byte>) {
    if cs == [] then []
    else
      var c, text := cs[|cs| - 1], Page(cs[..|cs| - 1]);
      if c == NEWLINE then PadTo(text, 80)
      else if c == TAB then PadTo(text, 8)
      else if c == NUL then text + [SPACE]
      else text + [c]
  }

  /** Exactly as many lines scrolled away as do not fit on the screen. */
  function LastLines(text: seq<byte>): Tape {
    Tape(text, if |text| / 80 < 25 then 0 else |text| / 80 - 24)
  }

  function Stream(cs: seq<byte>): (ks: seq<Key>)
    ensures |ks| == |cs| && forall i :: 0 <= i < |cs| ==> ks[i] == Written(cs[i])
  {
    seq(|cs|, i requires 0 <= i < |cs| => Written(cs[i]))
  }

  lemma {:induction false} TapeKeysLast(t: Tape, ks: seq<Key>)
    requires ks != []
    ensures TapeKeys(t, ks) == match TapeKeys(t, ks[..|ks| - 1])
                               case None => None
                               case Some(t') => TapeKey(t', ks[|ks| - 1])
    decreases |ks|
  {
    if |ks| > 1 {
      match TapeKey(t, ks[0])
      case None =>
      case Some(t') =>
        TapeKeysLast(t', ks[1..]);
        assert ks[1..][..|ks| - 2] == ks[..|ks| - 1][1..];
    } else {
      assert ks[1..] == [];
    }
  }

  lemma {:induction false} TapeOfStream(cs: seq<byte>)
    requires forall i :: 0 <= i < |cs| ==> Forward(cs[i])
    ensures TapeKeys(Tape([], 0), Stream(cs)) == Some(LastLines(Page(cs)))
  {
    if cs != [] {
      var n := |cs| - 1;
      TapeOfStream(cs[..n]);
      TapeKeysLast(Tape([], 0), Stream(cs));
      assert Stream(cs)[..n] == Stream(cs[..n]);
      var text := Page(cs[..n]);
      PadLength(|text|, 8);
      PadLength(|text|, 80);
      assert TapeKey(LastLines(text), Written(cs[n])).value == LastLines(Page(cs));
    }
  }

  /**
   * Whatever forward bytes are written to a cleared terminal, and however many, it shows the last
   * 25 lines of the page they make, with the cursor on the screen at the end of the text.
   */
  lemma WriteShowsLastLines(cs: seq<byte>)
    requires forall i :: 0 <= i < |cs| ==> Forward(cs[i])
    ensures Fits(LastLines(Page(cs)))
    ensures HandleKeys(Blank(), Stream(cs)) == Some(Show(LastLines(Page(cs))))
  {
    BlankShowsEmpty();
    TapeOfStream(cs);
    StreamShowsTape(Tape([], 0), Stream(cs));
  }
}
