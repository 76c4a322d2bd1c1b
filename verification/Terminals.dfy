/**
 * Four virtual terminals, one of them active (drivers/termios.c), as a machine over their logical
 * contents; and what its runs have in common with four terminals that never hear of each other.
 */
module Terminals {
  import opened Sequences
  import opened Bytes
  import opened TermScreen
  import opened TermInput

  datatype Term = Term(screen: Screen, line: Line)

  ghost predicate Proper(t: Term) { OnScreen(t.screen) && IsStack(t.line) }

  function Fresh(): Term { Term(Blank(), Empty()) }

  // ----- one terminal -----

  /** terminal_handle_key; control-L drops the pending input along with the screen. */
  function Display(t: Term, k: Key): (r: Option<Term>)
    requires OnScreen(t.screen)
    ensures r.Some? ==> OnScreen(r.value.screen)
  {
    match HandleKey(t.screen, k)
    case None => None
    case Some(s) => Some(Term(s, if Clears(k) then Empty() else t.line))
  }

  /** input_process_key: edit the line, then echo the key if it changed the line. */
  function Press(t: Term, k: Key): (r: Option<Term>)
    requires OnScreen(t.screen) && Editable(t.line) && InBounds(t.line, k.ascii)
    ensures r.Some? ==> OnScreen(r.value.screen)
  {
    Display(t.(line := Accept(t.line, k.ascii)), if Modifies(t.line, k.ascii) then k else k.(ascii := NUL))
  }

  /** Backspace, delete, newline and tab are handled before the control key is looked at. */
  predicate Ordinary(c: byte) { c != BACKSPACE && c != DELETE && c != NEWLINE && c != TAB }

  /**
   * Control-L (108), as long as it still fits the line, leaves a blank screen and an empty line. No other
   * key held with control changes the screen, though the line takes it; the four that are handled
   * before work as without control.
   */
  lemma ControlKey(t: Term, k: Key)
    requires Proper(t) && k.control
    ensures Editable(t.line) && InBounds(t.line, k.ascii)
    ensures k.ascii == 108 && |t.line.content| < 128 ==>
              && Press(t, k).Some? && Press(t, k).value.line == Line([], 0, 0)
              && var s := Press(t, k).value.screen;
                 s.x == s.y == 0 && |s.cells| == 2000 && forall i :: 0 <= i < 2000 ==> s.cells[i] == 0x720
    ensures Ordinary(k.ascii) && !(k.ascii == 108 && |t.line.content| < 128) ==>
              && Press(t, k).Some? && Press(t, k).value.screen == t.screen
              && Press(t, k).value.line.content ==
                 if k.ascii == NUL || |t.line.content| == 128 then t.line.content else t.line.content + [k.ascii]
    ensures !Ordinary(k.ascii) && Modifies(t.line, k.ascii) ==> Press(t, k) == Press(t, k.(control := false))
  {
    AcceptIsStack(t.line, k.ascii);
  }

  datatype TermEvent = Pressed(k: Key) | Wrote(bytes: seq<byte>) | Reads(len: int) | Opened

  /** None: a key stored outside the screen. */
  ghost function TermStep(t: Term, e: TermEvent): (r: Option<Term>)
    requires Proper(t)
  {
    match e
    case Pressed(k) => AcceptIsStack(t.line, k.ascii); Press(t, k)
    case Wrote(bytes) =>
      (match HandleKeys(t.screen, Stream(bytes))
       case None => None
       case Some(s) => Some(t.(screen := s)))
    case Reads(len) => Some(if t.line.rets == 0 then t else t.(line := Drain(t.line, len)))
    case Opened => Some(Fresh())
  }

  lemma TermStepProper(t: Term, e: TermEvent)
    requires Proper(t)
    ensures TermStep(t, e).Some? ==> Proper(TermStep(t, e).value)
  {
  }

  ghost function TermRun(t: Term, es: seq<TermEvent>): (r: Option<Term>)
    requires Proper(t)
    ensures r.Some? ==> Proper(r.value)
    decreases |es|
  {
    if es == [] then Some(t)
    else
      TermStepProper(t, es[0]);
      match TermStep(t, es[0])
      case None => None
      case Some(t') => TermRun(t', es[1..])
  }

  // ----- four terminals -----

  /** `lit[t]` is the is_active flag of terminal `t`. */
  datatype Tty = Tty(terms: seq<Term>, active: nat, lit: seq<bool>)

  ghost predicate Good(m: Tty) {
    |m.terms| == |m.lit| == 4 && m.active < 4 && forall t :: 0 <= t < 4 ==> Proper(m.terms[t])
  }

  datatype Event =
    | KeyEvent(k: Key)
    | WriteEvent(term: nat, bytes: seq<byte>)
    | ReadEvent(term: nat, len: int)
    | SwitchEvent(term: nat)
    | OpenEvent(term: nat)

  ghost predicate Addressed(e: Event) { e.KeyEvent? || e.term < 4 }

  function ReadFrom(m: Tty, t: nat, len: int): Tty
    requires |m.terms| == 4 && m.active < 4 && t < 4
  {
    var l := m.terms[t].line;
    if l.rets == 0 then m
    else if t == m.active then m.(terms := m.terms[t := m.terms[t].(line := Drain(l, len))])
    else
      var a := m.terms[m.active];
      m.(terms := m.terms[m.active := a.(line := Overlay(a.line, l, len))]
                         [t := m.terms[t].(line := DrainInactive(l, len))])
  }

  ghost function One(m: Tty, t: nat, e: TermEvent): Option<Tty>
    requires Good(m) && t < 4
  {
    match TermStep(m.terms[t], e)
    case None => None
    case Some(u) => Some(m.(terms := m.terms[t := u]))
  }

  ghost function Step(m: Tty, e: Event): (r: Option<Tty>)
    requires Good(m) && Addressed(e)
  {
    match e
    case KeyEvent(k) => if !m.lit[m.active] then Some(m) else One(m, m.active, Pressed(k))
    case WriteEvent(t, bytes) => One(m, t, Wrote(bytes))
    case ReadEvent(t, len) => Some(ReadFrom(m, t, len))
    case SwitchEvent(t) =>
      Some(if t == m.active then m else m.(active := t, lit := m.lit[m.active := false][t := true]))
    case OpenEvent(t) =>
      (match One(m, t, Opened) case None => None case Some(m') => Some(m'.(lit := m.lit[t := true])))
  }

  lemma StepGood(m: Tty, e: Event)
    requires Good(m) && Addressed(e)
    ensures Step(m, e).Some? ==> Good(Step(m, e).value)
    ensures Step(m, e).Some? && m.lit[m.active] ==> Step(m, e).value.lit[Step(m, e).value.active]
  {
    match e
    case KeyEvent(k) => TermStepProper(m.terms[m.active], Pressed(k));
    case WriteEvent(t, bytes) => TermStepProper(m.terms[t], Wrote(bytes));
    case _ =>
  }

  /** Exactly the active terminal is marked as drawn to the display. */
  ghost predicate LitIsActive(m: Tty)
    requires Good(m)
  {
    forall t :: 0 <= t < 4 ==> (m.lit[t] <==> t == m.active)
  }

  /** An event keeps the marks right exactly when it does not open a terminal in the background. */
  lemma LitIff(m: Tty, e: Event)
    requires Good(m) && Addressed(e) && LitIsActive(m) && Step(m, e).Some?
    ensures Good(Step(m, e).value)
    ensures LitIsActive(Step(m, e).value) <==> !(e.OpenEvent? && e.term != m.active)
  {
    StepGood(m, e);
    if e.OpenEvent? { assert Step(m, e).value.lit[e.term]; }
  }

  /** `m'` is `m` with terminal `t` replaced by `u`. */
  ghost predicate Replaced(m: Tty, m': Tty, t: nat, u: Term) {
    && Good(m) && Good(m') && t < 4 && m'.active == m.active
    && m'.terms[t] == u && forall v :: 0 <= v < 4 && v != t ==> m'.terms[v] == m.terms[v]
  }

  lemma WriteStep(m: Tty, t: nat, bytes: seq<byte>)
    requires Good(m) && t < 4
    ensures var r, s := Step(m, WriteEvent(t, bytes)), HandleKeys(m.terms[t].screen, Stream(bytes));
            && (r.Some? <==> s.Some?)
            && (r.Some? ==> r.value.lit == m.lit && Replaced(m, r.value, t, m.terms[t].(screen := s.value)))
  {
    StepGood(m, WriteEvent(t, bytes));
  }

  lemma OpenStep(m: Tty, t: nat)
    requires Good(m) && t < 4
    ensures var r := Step(m, OpenEvent(t));
            r.Some? && r.value.lit == m.lit[t := true] && Replaced(m, r.value, t, Fresh())
  {
  }

  lemma KeyStep(m: Tty, k: Key)
    requires Good(m)
    ensures InBounds(m.terms[m.active].line, k.ascii)
    ensures !m.lit[m.active] ==> Step(m, KeyEvent(k)) == Some(m)
    ensures var r, u := Step(m, KeyEvent(k)), Press(m.terms[m.active], k);
            m.lit[m.active] ==>
              (r.Some? <==> u.Some?) && (r.Some? ==> r.value.lit == m.lit && Replaced(m, r.value, m.active, u.value))
  {
    AcceptIsStack(m.terms[m.active].line, k.ascii);
    StepGood(m, KeyEvent(k));
  }

  lemma ReadStep(m: Tty, t: nat, len: int)
    requires Good(m) && t < 4 && m.terms[t].line.rets != 0
    ensures var m', l := Step(m, ReadEvent(t, len)).value, m.terms[t].line;
            && Good(m') && m'.active == m.active && m'.lit == m.lit
            && m'.terms[t] == m.terms[t].(line := if t == m.active then Drain(l, len) else DrainInactive(l, len))
            && (t != m.active ==>
                  m'.terms[m.active] == m.terms[m.active].(line := Overlay(m.terms[m.active].line, l, len)))
            && forall v :: 0 <= v < 4 && v != t && v != m.active ==> m'.terms[v] == m.terms[v]
  {
    StepGood(m, ReadEvent(t, len));
  }

  ghost function Run(m: Tty, es: seq<Event>): (r: Option<Tty>)
    requires Good(m) && forall i :: 0 <= i < |es| ==> Addressed(es[i])
    ensures r.Some? ==> Good(r.value)
    decreases |es|
  {
    if es == [] then Some(m)
    else
      StepGood(m, es[0]);
      match Step(m, es[0])
      case None => None
      case Some(m') => Run(m', es[1..])
  }

  /** A terminal as terminal_init leaves it: zeroed, never opened. */
  function Zeroed(): Term { Term(Screen(seq(2000, i => 0), 0, 0), Empty()) }

  /** After terminal_init and the boot code's terminal_open(0). */
  function Boot(): Tty {
    Tty([Fresh(), Zeroed(), Zeroed(), Zeroed()], 0, [true, false, false, false])
  }

  // ----- independence -----

  function Active(e: Event, active: nat): nat {
    if e.SwitchEvent? then e.term else active
  }

  /** What terminal `t` gets to see of an event. */
  function Seen(e: Event, active: nat, t: nat): seq<TermEvent> {
    match e
    case KeyEvent(k) => if t == active then [Pressed(k)] else []
    case WriteEvent(u, bytes) => if t == u then [Wrote(bytes)] else []
    case ReadEvent(u, len) => if t == u then [Reads(len)] else []
    case SwitchEvent(_) => []
    case OpenEvent(u) => if t == u then [Opened] else []
  }

  function Project(es: seq<Event>, active: nat, t: nat): seq<TermEvent>
    decreases |es|
  {
    if es == [] then [] else Seen(es[0], active, t) + Project(es[1..], Active(es[0], active), t)
  }

  /**
   * A read by a process on the active terminal; or one that is still spinning; or one by a background
   * process that drains its own buffer.
   */
  ghost predicate Harmless(m: Tty, e: Event)
    requires Good(m) && Addressed(e)
  {
    e.ReadEvent? ==>
      e.term == m.active || m.terms[e.term].line.rets == 0 || Drains(m.terms[e.term].line, e.len)
  }

  /** Every read of the run is harmless when it happens. */
  ghost predicate Orderly(m: Tty, es: seq<Event>)
    requires Good(m) && forall i :: 0 <= i < |es| ==> Addressed(es[i])
    decreases |es|
  {
    es == [] ||
    (Harmless(m, es[0]) &&
     (StepGood(m, es[0]);
      match Step(m, es[0]) case None => true case Some(m') => Orderly(m', es[1..])))
  }

  lemma ReadSeen(m: Tty, u: nat, len: int, t: nat)
    requires Good(m) && t < 4 && u < 4 && Harmless(m, ReadEvent(u, len))
    ensures ReadFrom(m, u, len).terms[t] ==
            if t == u && m.terms[u].line.rets != 0 then m.terms[u].(line := Drain(m.terms[u].line, len)) else m.terms[t]
  {
    if u != m.active && m.terms[u].line.rets != 0 {
      DrainedHarmless(m.terms[u].line, m.terms[m.active].line, len);
    }
  }

  lemma StepSeen(m: Tty, e: Event, t: nat)
    requires Good(m) && Addressed(e) && m.lit[m.active] && t < 4 && Harmless(m, e)
    requires Step(m, e).Some?
    ensures Step(m, e).value.active == Active(e, m.active)
    ensures Seen(e, m.active, t) == [] ==> Step(m, e).value.terms[t] == m.terms[t]
    ensures |Seen(e, m.active, t)| <= 1
    ensures Seen(e, m.active, t) != [] ==>
              TermStep(m.terms[t], Seen(e, m.active, t)[0]) == Some(Step(m, e).value.terms[t])
  {
    if e.ReadEvent? { ReadSeen(m, e.term, e.len, t); }
  }

  /**
   * In every run whose reads are harmless, each terminal ends up exactly as a terminal
   * alone would that is handed its own keys, writes, reads and opens: switching is invisible and
   * nothing done to one terminal shows on another.
   */
  lemma {:induction false} Independent(m: Tty, es: seq<Event>, t: nat)
    requires Good(m) && m.lit[m.active] && t < 4
    requires forall i :: 0 <= i < |es| ==> Addressed(es[i])
    requires Orderly(m, es) && Run(m, es).Some?
    ensures TermRun(m.terms[t], Project(es, m.active, t)) == Some(Run(m, es).value.terms[t])
    decreases |es|
  {
    if es != [] {
      var m' := Step(m, es[0]).value;
      StepGood(m, es[0]);
      StepSeen(m, es[0], t);
      Independent(m', es[1..], t);
      var seen, rest := Seen(es[0], m.active, t), Project(es[1..], m'.active, t);
      if seen == [] {
        assert seen + rest == rest;
      } else {
        assert (seen + rest)[0] == seen[0] && (seen + rest)[1..] == rest;
      }
    }
  }

  // ----- what one terminal shows: the tape -----

  /** A terminal that keeps its whole tape instead of a screen. */
  datatype Sheet = Sheet(tape: Tape, line: Line)

  ghost predicate Neat(w: Sheet) { Fits(w.tape) && IsStack(w.line) }

  ghost function Screened(w: Sheet): Term
    requires Fits(w.tape)
  {
    Term(Show(w.tape), w.line)
  }

  function SheetKey(w: Sheet, k: Key): Option<Sheet> {
    match TapeKey(w.tape, k)
    case None => None
    case Some(t) => Some(Sheet(t, if Clears(k) then Empty() else w.line))
  }

  ghost function SheetStep(w: Sheet, e: TermEvent): Option<Sheet>
    requires Neat(w)
  {
    match e
    case Pressed(k) =>
      AcceptIsStack(w.line, k.ascii);
      SheetKey(w.(line := Accept(w.line, k.ascii)), if Modifies(w.line, k.ascii) then k else k.(ascii := NUL))
    case Wrote(bytes) =>
      (match TapeKeys(w.tape, Stream(bytes)) case None => None case Some(t) => Some(w.(tape := t)))
    case Reads(len) => Some(if w.line.rets == 0 then w else w.(line := Drain(w.line, len)))
    case Opened => Some(Sheet(Tape([], 0), Empty()))
  }

  lemma SheetStepShown(w: Sheet, e: TermEvent)
    requires Neat(w)
    ensures match SheetStep(w, e)
            case None => TermStep(Screened(w), e) == None
            case Some(w') => Neat(w') && TermStep(Screened(w), e) == Some(Screened(w'))
  {
    match e
    case Pressed(k) =>
      AcceptIsStack(w.line, k.ascii);
      KeyShowsTape(w.tape, if Modifies(w.line, k.ascii) then k else k.(ascii := NUL));
    case Wrote(bytes) => StreamShowsTape(w.tape, Stream(bytes));
    case Reads(len) =>
    case Opened => BlankShowsEmpty();
  }

  ghost function SheetRun(w: Sheet, es: seq<TermEvent>): (r: Option<Sheet>)
    requires Neat(w)
    ensures r.Some? ==> Neat(r.value)
    decreases |es|
  {
    if es == [] then Some(w)
    else
      SheetStepShown(w, es[0]);
      match SheetStep(w, es[0])
      case None => None
      case Some(w') => SheetRun(w', es[1..])
  }

  /** Through keys, echo, writes, clears and reopenings the screen is the window on the tape. */
  lemma {:induction false} SheetRunShown(w: Sheet, es: seq<TermEvent>)
    requires Neat(w)
    ensures TermRun(Screened(w), es) == match SheetRun(w, es)
                                        case None => None
                                        case Some(w') => Some(Screened(w'))
    decreases |es|
  {
    if es != [] {
      SheetStepShown(w, es[0]);
      match SheetStep(w, es[0])
      case None =>
      case Some(w') => SheetRunShown(w', es[1..]);
    }
  }

  // ----- what one terminal delivers: the ledger -----

  /** What an event means to the input buffer; a control-L is typed, and then wipes the line. */
  function Trace(l: Line, e: TermEvent): seq<LineEvent> {
    match e
    case Pressed(k) => [Typed(k.ascii)] + if Clears(k) && Modifies(l, k.ascii) then [Reset] else []
    case Wrote(_) => []
    case Reads(len) => [Read(len)]
    case Opened => [Reset]
  }

  lemma StepTraced(t: Term, e: TermEvent, d: seq<byte>)
    requires Proper(t) && TermStep(t, e).Some?
    ensures Play(Session(t.line, d), Trace(t.line, e)).line == TermStep(t, e).value.line
  {
    var s, es := Session(t.line, d), Trace(t.line, e);
    match e
    case Pressed(k) =>
      AcceptIsStack(t.line, k.ascii);
      PlayTyped(s, k.ascii, Clears(k) && Modifies(t.line, k.ascii));
    case Wrote(_) =>
    case Reads(len) => PlayOne(s, Read(len));
    case Opened => PlayOne(s, Reset);
  }

  lemma PlayOne(s: Session, e: LineEvent)
    requires IsStack(s.line)
    ensures Play(s, [e]) == Happen(s, e)
  {
  }

  lemma PlayTyped(s: Session, key: byte, wiped: bool)
    requires IsStack(s.line)
    ensures Play(s, [Typed(key)] + if wiped then [Reset] else []) ==
            if wiped then Session(Empty(), s.delivered) else Happen(s, Typed(key))
  {
    HappenIsStack(s, Typed(key));
    var es := [Typed(key)] + if wiped then [Reset] else [];
    if wiped {
      assert es[1..] == [Reset];
      PlayOne(Happen(s, Typed(key)), Reset);
    } else {
      assert es == [Typed(key)];
      PlayOne(s, Typed(key));
    }
  }

  ghost function TraceRun(t: Term, es: seq<TermEvent>): seq<LineEvent>
    requires Proper(t)
    decreases |es|
  {
    if es == [] then []
    else
      TermStepProper(t, es[0]);
      Trace(t.line, es[0]) + match TermStep(t, es[0])
                             case None => []
                             case Some(t') => TraceRun(t', es[1..])
  }

  lemma {:induction false} PlayAppend(s: Session, a: seq<LineEvent>, b: seq<LineEvent>)
    requires IsStack(s.line)
    ensures Play(s, a + b) == Play(Play(s, a), b)
    decreases |a|
  {
    if a == [] {
      assert a + b == b;
    } else {
      HappenIsStack(s, a[0]);
      assert (a + b)[1..] == a[1..] + b;
      PlayAppend(Happen(s, a[0]), a[1..], b);
    }
  }

  lemma {:induction false} RunTraced(t: Term, es: seq<TermEvent>, d: seq<byte>)
    requires Proper(t) && TermRun(t, es).Some?
    ensures Play(Session(t.line, d), TraceRun(t, es)).line == TermRun(t, es).value.line
    decreases |es|
  {
    if es != [] {
      TermStepProper(t, es[0]);
      StepTraced(t, es[0], d);
      var t' := TermStep(t, es[0]).value;
      var s' := Play(Session(t.line, d), Trace(t.line, es[0]));
      PlayAppend(Session(t.line, d), Trace(t.line, es[0]), TraceRun(t', es[1..]));
      RunTraced(t', es[1..], s'.delivered);
      assert s' == Session(t'.line, s'.delivered);
    }
  }

  // ----- all four -----

  /** A fresh terminal shows an empty tape and agrees with an empty ledger. */
  lemma FreshReady(w: Sheet)
    requires w == Sheet(Tape([], 0), Empty())
    ensures Neat(w) && Fresh() == Screened(w) && Proper(Fresh())
    ensures Agrees(Session(Fresh().line, []), Ledger([], 0, 0))
  {
  }

  /** Terminal 0 is fresh from boot; the others from the OpenEvent that starts their shell. */
  lemma BootReady(m: Tty)
    requires m == Boot()
    ensures Good(m) && m.lit[m.active] && m.terms[0] == Fresh()
  {
  }

  /** After every run with harmless reads, each terminal shows the window on its own tape. */
  lemma EveryScreen(m: Tty, es: seq<Event>, t: nat, w: Sheet)
    requires Good(m) && m.lit[m.active] && t < 4
    requires forall i :: 0 <= i < |es| ==> Addressed(es[i])
    requires Orderly(m, es) && Run(m, es).Some?
    requires Neat(w) && m.terms[t] == Screened(w)
    ensures var w' := SheetRun(w, Project(es, m.active, t));
            w'.Some? && Run(m, es).value.terms[t] == Screened(w'.value)
  {
    Independent(m, es, t);
    SheetRunShown(w, Project(es, m.active, t));
  }

  /** After every run with harmless reads, each terminal has delivered what its own ledger records. */
  lemma EveryDelivery(m: Tty, es: seq<Event>, t: nat, d: seq<byte>, b: Ledger)
    requires Good(m) && m.lit[m.active] && t < 4
    requires forall i :: 0 <= i < |es| ==> Addressed(es[i])
    requires Orderly(m, es) && Run(m, es).Some?
    requires Agrees(Session(m.terms[t].line, d), b)
    ensures var trace := TraceRun(m.terms[t], Project(es, m.active, t));
            var s := Play(Session(m.terms[t].line, d), trace);
            && s.line == Run(m, es).value.terms[t].line
            && s.delivered + s.line.content == RecordAll(b, trace).text
            && s.delivered == RecordAll(b, trace).text[..RecordAll(b, trace).frozen]
            && s.line.rets == Newlines(s.line.content) + RecordAll(b, trace).erased
  {
    Independent(m, es, t);
    RunTraced(m.terms[t], Project(es, m.active, t), d);
    SessionIsLedger(Session(m.terms[t].line, d), b, TraceRun(m.terms[t], Project(es, m.active, t)));
  }

  // ----- a background read that is not harmless -----

  /** An ordinary key: it goes into the line and onto the screen. */
  lemma KeyTyped(m: Tty, c: byte)
    requires Good(m) && m.lit[m.active] && |m.terms[m.active].line.content| < IN_BUF_SIZE
    requires c != BACKSPACE && c != DELETE && c != NUL
    ensures var r := Step(m, KeyEvent(Key(c, 0, false, false)));
            && r.Some? && Good(r.value) && r.value.active == m.active && r.value.lit == m.lit
            && var l, l' := m.terms[m.active].line, r.value.terms[m.active].line;
               l'.content == l.content + [c] && l'.rets == l.rets + if c == NEWLINE then 1 else 0
  {
    AcceptIsStack(m.terms[m.active].line, c);
    StepGood(m, KeyEvent(Key(c, 0, false, false)));
  }

  lemma {:induction false} RunExtend(m: Tty, es: seq<Event>, e: Event)
    requires Good(m) && (forall i :: 0 <= i < |es| ==> Addressed(es[i])) && Addressed(e)
    requires Run(m, es).Some?
    ensures Run(m, es + [e]) == Step(Run(m, es).value, e)
    ensures Orderly(m, es) && Harmless(Run(m, es).value, e) ==> Orderly(m, es + [e])
    decreases |es|
  {
    StepGood(Run(m, es).value, e);
    if es == [] {
      assert es + [e] == [e] && [e][1..] == [];
    } else {
      StepGood(m, es[0]);
      assert (es + [e])[0] == es[0] && (es + [e])[1..] == es[1..] + [e];
      RunExtend(Step(m, es[0]).value, es[1..], e);
    }
  }

  /** The events `es` leave the text `cs` pending on the active terminal. */
  ghost predicate LeavesPending(m: Tty, es: seq<Event>, cs: seq<byte>) {
    && Good(m) && (forall i :: 0 <= i < |es| ==> Addressed(es[i])) && Run(m, es).Some? && Orderly(m, es)
    && var m' := Run(m, es).value;
       && m'.active == m.active && m'.lit == m.lit && m'.terms[m.active].line.content == cs
       && m'.terms[m.active].line.rets == Newlines(cs)
  }

  lemma OneMoreTyped(m: Tty, es: seq<Event>, cs: seq<byte>, c: byte)
    requires LeavesPending(m, es, cs) && m.lit[m.active] && |cs| < IN_BUF_SIZE
    requires c != BACKSPACE && c != DELETE && c != NUL
    ensures LeavesPending(m, es + [KeyEvent(Key(c, 0, false, false))], cs + [c])
  {
    KeyTyped(Run(m, es).value, c);
    RunExtend(m, es, KeyEvent(Key(c, 0, false, false)));
    NewlinesPush(cs, c);
  }

  /** Typing a text of at most 128 ordinary keys leaves it pending. */
  lemma {:induction false} TextTyped(m: Tty, cs: seq<byte>) returns (es: seq<Event>)
    requires Good(m) && m.lit[m.active] && m.terms[m.active].line == Empty() && |cs| <= IN_BUF_SIZE
    requires forall i :: 0 <= i < |cs| ==> cs[i] != BACKSPACE && cs[i] != DELETE && cs[i] != NUL
    ensures LeavesPending(m, es, cs)
  {
    if cs == [] {
      es := [];
    } else {
      var n := |cs| - 1;
      es := TextTyped(m, cs[..n]);
      OneMoreTyped(m, es, cs[..n], cs[n]);
      es := es + [KeyEvent(Key(cs[n], 0, false, false))];
      assert cs[..n] + [cs[n]] == cs;
    }
  }

  /**
   * Two lines typed on terminal 0, a switch to terminal 1, and a read on terminal 0: it returns the
   * first line, but the first line is also what it leaves. Alone, the terminal would have kept the second.
   */
  lemma BackgroundReadRepeats(m: Tty) returns (es: seq<Event>)
    requires m == Boot()
    ensures Good(m) && forall i :: 0 <= i < |es| ==> Addressed(es[i])
    ensures Run(m, es).Some? && Run(m, es).value.terms[0].line.content == [97, NEWLINE]
    ensures var alone := TermRun(m.terms[0], Project(es, 0, 0));
            alone.Some? && alone.value.line.content == [98, NEWLINE]
  {
    BootReady(m);
    var cs := [97, NEWLINE, 98, NEWLINE];
    es := TextTyped(m, cs);
    RunExtend(m, es, SwitchEvent(1));
    es := es + [SwitchEvent(1)];
    var m5 := Run(m, es).value;
    Independent(m, es, 0);
    RunExtend(m, es, ReadEvent(0, 10));
    ProjectExtend(es, ReadEvent(0, 10), 0, 0);
    var mine := Project(es, 0, 0);
    es := es + [ReadEvent(0, 10)];
    TermRunExtend(m.terms[0], mine, Reads(10));
    FirstOfTwo(m5.terms[0].line, cs);
  }

  lemma FirstOfTwo(l: Line, cs: seq<byte>)
    requires cs == [97, NEWLINE, 98, NEWLINE] && l.content == cs && l.rets == Newlines(cs)
    ensures l.rets != 0 && DrainInactive(l, 10).content == [97, NEWLINE] && Drain(l, 10).content == [98, NEWLINE]
  {
    assert cs[1..][0] == NEWLINE;
    assert ReadCount(cs, 10) == 2;
    assert cs[..2] == [97, NEWLINE] && cs[2..] == [98, NEWLINE];
  }

  lemma {:induction false} ProjectExtend(es: seq<Event>, e: Event, active: nat, t: nat)
    ensures exists a :: Project(es + [e], active, t) == Project(es, active, t) + Seen(e, a, t)
    decreases |es|
  {
    if es == [] {
      assert es + [e] == [e] && [e][1..] == [];
      assert Project([e], active, t) == Seen(e, active, t) + [];
      assert Project(es + [e], active, t) == Project(es, active, t) + Seen(e, active, t);
    } else {
      assert (es + [e])[0] == es[0] && (es + [e])[1..] == es[1..] + [e];
      ProjectExtend(es[1..], e, Active(es[0], active), t);
      var a :| Project(es[1..] + [e], Active(es[0], active), t) ==
               Project(es[1..], Active(es[0], active), t) + Seen(e, a, t);
      Associative(Seen(es[0], active, t), Project(es[1..], Active(es[0], active), t), Seen(e, a, t));
      assert Project(es + [e], active, t) == Project(es, active, t) + Seen(e, a, t);
    }
  }

  lemma {:induction false} TermRunExtend(t: Term, es: seq<TermEvent>, e: TermEvent)
    requires Proper(t) && TermRun(t, es).Some?
    ensures TermRun(t, es + [e]) == TermStep(TermRun(t, es).value, e)
    decreases |es|
  {
    TermStepProper(TermRun(t, es).value, e);
    if es == [] {
      assert es + [e] == [e] && [e][1..] == [];
    } else {
      TermStepProper(t, es[0]);
      assert (es + [e])[0] == es[0] && (es + [e])[1..] == es[1..] + [e];
      TermRunExtend(TermStep(t, es[0]).value, es[1..], e);
    }
  }
}
