/** The line-editing input buffer of a terminal (drivers/termios.c) and the reads that drain it. */
module TermInput {
  import opened Bytes

  const IN_BUF_SIZE: nat := 128

  /** in_buf up to in_dat_end, in_dat_index and in_dat_nr_ret. */
  datatype Line = Line(content: seq<byte>, index: int, rets: int)

  function Empty(): Line { Line([], 0, 0) }

  ghost predicate Editable(l: Line) {
    0 <= l.index <= |l.content| <= IN_BUF_SIZE
  }

  // ----- the operations, for any position of the index -----

  /** Whether the key changes the buffer, and so is echoed as itself. */
  predicate Modifies(l: Line, key: byte) {
    if key == BACKSPACE then l.index != 0
    else if key == DELETE then l.index < |l.content|
    else key != NUL && |l.content| < IN_BUF_SIZE
  }

  /** Delete inside the line shifts from the cell before the index through the one after the end. */
  ghost predicate InBounds(l: Line, key: byte) {
    key == DELETE && l.index < |l.content| ==> 0 < l.index && |l.content| < IN_BUF_SIZE
  }

  /**
   * input_process_key on the buffer. An insertion before the end overwrites everything from there
   * on with the one character it displaced, because the source shifts upward in place.
   */
  function Accept(l: Line, key: byte): (r: Line)
    requires Editable(l) && InBounds(l, key)
    ensures Editable(r)
  {
    if !Modifies(l, key) then l
    else if key == BACKSPACE then
      Line(l.content[..l.index - 1] + l.content[l.index..], l.index - 1, l.rets)
    else if key == DELETE then
      Line(l.content[..l.index - 1] + l.content[l.index..], l.index, l.rets)
    else
      Line(l.content[..l.index] + [key] + Smear(l.content[l.index..]), l.index + 1,
           if key == NEWLINE then l.rets + 1 else l.rets)
  }

  function Smear(s: seq<byte>): (r: seq<byte>)
    ensures |r| == |s|
  {
    if s == [] then [] else seq(|s|, i => s[0])
  }

  /** How many bytes a read of at most `len` takes: it stops after a newline. */
  function ReadCount(content: seq<byte>, len: int): (n: nat)
    ensures n <= |content| && (n == 0 || n <= len)
  {
    if len <= 0 || content == [] then 0
    else if content[0] == NEWLINE then 1
    else 1 + ReadCount(content[1..], len - 1)
  }

  /** `n` bytes: no more than `len`, a newline only in the last place, and no fewer than these rules allow. */
  ghost predicate StopsAt(content: seq<byte>, len: int, n: nat) {
    && n <= |content| && (n == 0 || n <= len)
    && (forall i :: 0 <= i < n - 1 ==> content[i] != NEWLINE)
    && (n < |content| && n < len ==> n > 0 && content[n - 1] == NEWLINE)
  }

  /** A read returns min(len, pending, first newline + 1) bytes. */
  lemma {:induction false} ReadStops(content: seq<byte>, len: int)
    ensures StopsAt(content, len, ReadCount(content, len))
    ensures forall n: nat :: StopsAt(content, len, n) ==> n == ReadCount(content, len)
  {
    if len > 0 && content != [] && content[0] != NEWLINE {
      ReadStops(content[1..], len - 1);
      forall n: nat | StopsAt(content, len, n) ensures n == ReadCount(content, len) {
        assert StopsAt(content[1..], len - 1, n - 1);
      }
    }
  }

  function Newlines(s: seq<byte>): (n: nat) {
    if s == [] then 0 else Newlines(s[..|s| - 1]) + if s[|s| - 1] == NEWLINE then 1 else 0
  }

  /** The newlines among the bytes taken: at most one, the last. */
  function Returned(content: seq<byte>, len: int): (n: nat) {
    var i := ReadCount(content, len);
    if i > 0 && content[i - 1] == NEWLINE then 1 else 0
  }

  /** terminal_read by a process on the active terminal, once its spin on in_dat_nr_ret is over. */
  function Drain(l: Line, len: int): (r: Line) {
    var i := ReadCount(l.content, len);
    Line(l.content[i..], l.index - i, l.rets - Returned(l.content, len))
  }

  /**
   * terminal_read by a process whose terminal is not the active one: the rest of the reader's
   * buffer is copied down into the ACTIVE terminal's buffer, over whatever is pending there.
   */
  function DrainInactive(l: Line, len: int): (r: Line) {
    var i := ReadCount(l.content, len);
    Drain(l, len).(content := l.content[..|l.content| - i])
  }

  function Overlay(active: Line, l: Line, len: int): (r: Line) {
    var rest := l.content[ReadCount(l.content, len)..];
    active.(content := if |rest| <= |active.content| then rest + active.content[|rest|..]
                       else rest[..|active.content|])
  }

  // ----- the buffer is a bounded stack -----

  ghost predicate IsStack(l: Line) {
    l.index == |l.content| <= IN_BUF_SIZE
  }

  /** At the end of the line delete and the shifts do nothing: keys push and pop. */
  lemma AcceptIsStack(l: Line, key: byte)
    requires IsStack(l)
    ensures Editable(l) && InBounds(l, key) && IsStack(Accept(l, key))
    ensures Accept(l, key).content ==
            if key == BACKSPACE then l.content[..if |l.content| > 0 then |l.content| - 1 else 0]
            else if key == DELETE || key == NUL || |l.content| == IN_BUF_SIZE then l.content
            else l.content + [key]
  {
  }

  /**
   * Wherever the index stands, backspace takes back what has just been typed exactly when everything
   * from the index on is one character repeated, as at the end of the line.
   */
  lemma BackspaceUndoesIff(l: Line, key: byte)
    requires Editable(l) && key != BACKSPACE && key != DELETE && Modifies(l, key)
    ensures var l' := Accept(Accept(l, key), BACKSPACE);
            && l'.index == l.index && |l'.content| == |l.content| && l'.content[..l.index] == l.content[..l.index]
            && (l'.content == l.content <==>
                forall i :: l.index <= i < |l.content| ==> l.content[i] == l.content[l.index])
            && l'.rets == l.rets + if key == NEWLINE then 1 else 0
  {
    var typed := Accept(l, key).content;
    assert typed == l.content[..l.index] + [key] + Smear(l.content[l.index..]);
    var left := Accept(Accept(l, key), BACKSPACE).content;
    assert left == l.content[..l.index] + Smear(l.content[l.index..]);
    forall i | l.index <= i < |l.content| ensures left[i] == l.content[l.index] {
      assert left[i] == Smear(l.content[l.index..])[i - l.index];
    }
  }

  /** Inside the line, delete erases the same character as backspace, the one before the index, and stays. */
  lemma DeleteIsBackspace(l: Line)
    requires Editable(l) && InBounds(l, DELETE) && l.index < |l.content|
    ensures Accept(l, DELETE) == Accept(l, BACKSPACE).(index := l.index)
  {
  }

  // ----- runs -----

  datatype LineEvent = Typed(key: byte) | Read(len: int) | Reset

  /** The buffer together with everything reads have returned so far. */
  datatype Session = Session(line: Line, delivered: seq<byte>)

  /** A read while the return count is zero is still spinning: nothing happens yet. */
  ghost function Happen(s: Session, e: LineEvent): Session
    requires IsStack(s.line)
  {
    match e
    case Typed(key) => AcceptIsStack(s.line, key); s.(line := Accept(s.line, key))
    case Read(len) =>
      if s.line.rets == 0 then s
      else Session(Drain(s.line, len), s.delivered + s.line.content[..ReadCount(s.line.content, len)])
    case Reset => s.(line := Empty())
  }

  lemma HappenIsStack(s: Session, e: LineEvent)
    requires IsStack(s.line)
    ensures IsStack(Happen(s, e).line)
  {
  }

  /**
   * The reference: one ever-growing text. The first `frozen` bytes have been read and can no longer
   * be erased; `erased` counts newlines taken back by backspace since the last reset.
   */
  datatype Ledger = Ledger(text: seq<byte>, frozen: nat, erased: nat)

  ghost predicate Sound(b: Ledger) { b.frozen <= |b.text| }

  function Record(b: Ledger, e: LineEvent): (r: Ledger)
    requires Sound(b)
    ensures Sound(r)
  {
    match e
    case Typed(key) =>
      if key == BACKSPACE then
        if |b.text| == b.frozen then b
        else Ledger(b.text[..|b.text| - 1], b.frozen,
                    if b.text[|b.text| - 1] == NEWLINE then b.erased + 1 else b.erased)
      else if key == DELETE || key == NUL || |b.text| - b.frozen == IN_BUF_SIZE then b
      else b.(text := b.text + [key])
    case Read(len) =>
      var pending := b.text[b.frozen..];
      if Newlines(pending) + b.erased == 0 then b else b.(frozen := b.frozen + ReadCount(pending, len))
    case Reset => Ledger(b.text[..b.frozen], b.frozen, 0)
  }

  /** What was read, followed by what is pending, is the text; the return count is exact. */
  ghost predicate Agrees(s: Session, b: Ledger) {
    && Sound(b) && IsStack(s.line)
    && s.delivered == b.text[..b.frozen]
    && s.line.content == b.text[b.frozen..]
    && s.line.rets == Newlines(s.line.content) + b.erased
  }

  lemma NewlinesPush(s: seq<byte>, c: byte)
    ensures Newlines(s + [c]) == Newlines(s) + if c == NEWLINE then 1 else 0
  {
  }

  lemma {:induction false} NewlinesSplit(a: seq<byte>, b: seq<byte>)
    ensures Newlines(a + b) == Newlines(a) + Newlines(b)
  {
    if b == [] {
      assert a + b == a;
    } else {
      var n := |b| - 1;
      NewlinesSplit(a, b[..n]);
      assert a + b == (a + b[..n]) + [b[n]];
      NewlinesPush(a + b[..n], b[n]);
    }
  }

  lemma {:induction false} NoNewlines(s: seq<byte>)
    requires forall i :: 0 <= i < |s| ==> s[i] != NEWLINE
    ensures Newlines(s) == 0
  {
    if s != [] { NoNewlines(s[..|s| - 1]); }
  }

  lemma ReturnedCounts(content: seq<byte>, len: int)
    ensures Newlines(content[..ReadCount(content, len)]) == Returned(content, len)
  {
    var i := ReadCount(content, len);
    ReadStops(content, len);
    if i > 0 {
      NoNewlines(content[..i - 1]);
      assert content[..i] == content[..i - 1] + [content[i - 1]];
      NewlinesPush(content[..i - 1], content[i - 1]);
    }
  }

  lemma NewlinesLast(s: seq<byte>)
    requires s != []
    ensures Newlines(s) == Newlines(s[..|s| - 1]) + if s[|s| - 1] == NEWLINE then 1 else 0
  {
  }

  lemma DropLast(text: seq<byte>, frozen: nat)
    requires frozen < |text|
    ensures text[..|text| - 1][frozen..] == text[frozen..][..|text| - frozen - 1]
    ensures text[..|text| - 1][..frozen] == text[..frozen]
    ensures text[frozen..][|text| - frozen - 1] == text[|text| - 1]
  {
  }

  lemma ErasedAgrees(s: Session, b: Ledger)
    requires Agrees(s, b)
    ensures Agrees(Happen(s, Typed(BACKSPACE)), Record(b, Typed(BACKSPACE)))
  {
    AcceptIsStack(s.line, BACKSPACE);
    if s.line.content != [] {
      NewlinesLast(s.line.content);
      DropLast(b.text, b.frozen);
    }
  }

  lemma PushedAgrees(s: Session, b: Ledger, key: byte)
    requires Agrees(s, b) && key != BACKSPACE
    ensures Agrees(Happen(s, Typed(key)), Record(b, Typed(key)))
  {
    AcceptIsStack(s.line, key);
    NewlinesPush(s.line.content, key);
    assert (b.text + [key])[b.frozen..] == b.text[b.frozen..] + [key];
    assert (b.text + [key])[..b.frozen] == b.text[..b.frozen];
  }

  lemma DrainCounts(l: Line, len: int)
    ensures Newlines(Drain(l, len).content) == Newlines(l.content) - Returned(l.content, len)
  {
    var c := l.content;
    var i := ReadCount(c, len);
    assert c == c[..i] + c[i..];
    NewlinesSplit(c[..i], c[i..]);
    ReturnedCounts(c, len);
  }

  lemma Regroup(text: seq<byte>, frozen: nat, i: nat)
    requires frozen + i <= |text|
    ensures text[..frozen + i] == text[..frozen] + text[frozen..][..i]
    ensures text[frozen + i..] == text[frozen..][i..]
  {
  }

  lemma ReadAgrees(s: Session, b: Ledger, len: int)
    requires Agrees(s, b)
    ensures Agrees(Happen(s, Read(len)), Record(b, Read(len)))
  {
    DrainCounts(s.line, len);
    Regroup(b.text, b.frozen, ReadCount(s.line.content, len));
  }

  lemma StepAgrees(s: Session, b: Ledger, e: LineEvent)
    requires Agrees(s, b)
    ensures Agrees(Happen(s, e), Record(b, e))
  {
    match e
    case Typed(key) => if key == BACKSPACE { ErasedAgrees(s, b); } else { PushedAgrees(s, b, key); }
    case Read(len) => ReadAgrees(s, b, len);
    case Reset =>
  }

  ghost function Play(s: Session, es: seq<LineEvent>): (r: Session)
    requires IsStack(s.line)
    ensures IsStack(r.line)
    decreases |es|
  {
    if es == [] then s else HappenIsStack(s, es[0]); Play(Happen(s, es[0]), es[1..])
  }

  function RecordAll(b: Ledger, es: seq<LineEvent>): (r: Ledger)
    requires Sound(b)
    ensures Sound(r)
    decreases |es|
  {
    if es == [] then b else RecordAll(Record(b, es[0]), es[1..])
  }

  lemma {:induction false} PlayAgrees(s: Session, b: Ledger, es: seq<LineEvent>)
    requires Agrees(s, b)
    ensures Agrees(Play(s, es), RecordAll(b, es))
    decreases |es|
  {
    if es != [] {
      StepAgrees(s, b, es[0]);
      PlayAgrees(Happen(s, es[0]), Record(b, es[0]), es[1..]);
    }
  }

  lemma Rejoin(s: Session, b: Ledger)
    requires Agrees(s, b)
    ensures s.delivered + s.line.content == b.text && s.delivered == b.text[..b.frozen]
    ensures s.line.index == |s.line.content| <= IN_BUF_SIZE
    ensures s.line.rets == Newlines(s.line.content) + b.erased
  {
  }

  /**
   * Over every interleaving of keys, reads and resets, from an empty buffer or any that agrees with
   * its history: the bytes read so far followed by the bytes pending are the accepted keystrokes,
   * backspace having removed only bytes not yet read; the buffer is a stack of at most 128 bytes;
   * and the return count is the pending newlines plus the newlines erased.
   */
  lemma SessionIsLedger(s0: Session, b0: Ledger, es: seq<LineEvent>)
    requires Agrees(s0, b0)
    ensures var s, b := Play(s0, es), RecordAll(b0, es);
            && s.delivered + s.line.content == b.text && s.delivered == b.text[..b.frozen]
            && s.line.index == |s.line.content| <= IN_BUF_SIZE
            && s.line.rets == Newlines(s.line.content) + b.erased
  {
    PlayAgrees(s0, b0, es);
    Rejoin(Play(s0, es), RecordAll(b0, es));
  }

  // ----- reading from a terminal that is not active -----

  /** The read leaves both terminals as a read of the reader's own buffer would. */
  ghost predicate ReadsOwn(reader: Line, active: Line, len: int) {
    DrainInactive(reader, len) == Drain(reader, len) && Overlay(active, reader, len) == active
  }

  /**
   * What a read from a terminal that is not active leaves behind. The bytes it did not take overwrite as
   * many at the front of the active line, which keeps its length; the reader keeps the number of bytes
   * left, but they are the first it had, some of which it has just returned.
   */
  lemma InactiveReadLeaves(reader: Line, active: Line, len: int)
    ensures var i := ReadCount(reader.content, len);
            var left, line, own := |reader.content| - i, Overlay(active, reader, len), DrainInactive(reader, len);
            && |line.content| == |active.content| && line.index == active.index && line.rets == active.rets
            && (forall k :: 0 <= k < |line.content| ==>
                  line.content[k] == if k < left then reader.content[i + k] else active.content[k])
            && |own.content| == left && (forall k :: 0 <= k < left ==> own.content[k] == reader.content[k])
            && own.index == reader.index - i && own.rets == reader.rets - Newlines(reader.content[..i])
  {
    ReturnedCounts(reader.content, len);
  }

  /** The copy loop of the read has nothing to copy: the read takes everything that is pending. */
  predicate Drains(reader: Line, len: int) { ReadCount(reader.content, len) == |reader.content| }

  lemma DrainedHarmless(reader: Line, active: Line, len: int)
    requires Drains(reader, len)
    ensures ReadsOwn(reader, active, len)
  {
    assert reader.content[..0] == reader.content[|reader.content|..];
    assert [] + active.content[0..] == active.content;
  }

  /**
   * A read from a terminal that is not active does no harm, whatever the active one holds, exactly
   * when it drains its own buffer.
   */
  lemma InactiveReadExact(reader: Line, len: int)
    ensures (forall active: Line :: IsStack(active) ==> ReadsOwn(reader, active, len)) <==> Drains(reader, len)
  {
    if Drains(reader, len) {
      forall active: Line ensures ReadsOwn(reader, active, len) { DrainedHarmless(reader, active, len); }
    } else {
      var rest := reader.content[ReadCount(reader.content, len)..];
      var other: byte := if rest[0] == NUL then SPACE else NUL;
      var active := Line([other], 1, 0);
      assert Overlay(active, reader, len).content[0] == rest[0];
      assert IsStack(active) && !ReadsOwn(reader, active, len);
    }
  }
}
