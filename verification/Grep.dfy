/**
 * The line searcher of the grep program (syscalls/ece391grep.c): one 1024-byte buffer is refilled
 * from the file, and a line cut off at its end is carried over to its front.
 */
module Grep {
  import opened Sequences
  import opened Bytes
  import opened FileSystem

  const COLON: byte := 58

  // ----- what is to be printed -----

  /** The pattern occurs in the line. No line holds the empty pattern. */
  ghost predicate Contains(line: seq<byte>, pat: seq<byte>) {
    exists i :: OccursAt(line, pat, i)
  }

  ghost predicate OccursAt(line: seq<byte>, pat: seq<byte>, i: int) {
    pat != [] && 0 <= i <= |line| - |pat| && line[i..i + |pat|] == pat
  }

  /** The output for one line. */
  ghost function Entry(name: seq<byte>, pat: seq<byte>, line: seq<byte>): seq<byte> {
    if Contains(line, pat) then name + [COLON] + line + [NEWLINE] else []
  }

  /** The entries of some lines, in order. */
  ghost function Entries(name: seq<byte>, pat: seq<byte>, lines: seq<seq<byte>>): seq<byte> {
    if lines == [] then []
    else Entries(name, pat, lines[..|lines| - 1]) + Entry(name, pat, lines[|lines| - 1])
  }

  /** The lines of a text that goes on from an unfinished line. A last line needs no newline. */
  function LinesFrom(cur: seq<byte>, t: seq<byte>): seq<seq<byte>>
    decreases |t|
  {
    if t == [] then Lone(cur)
    else if t[0] == NEWLINE then [cur] + LinesFrom([], t[1..])
    else LinesFrom(cur + [t[0]], t[1..])
  }

  /**
   * The pieces a text comes in when no piece may be longer than 1024 bytes: a longer line is cut
   * there. Empty pieces are left out.
   */
  function CutsFrom(cur: seq<byte>, t: seq<byte>): seq<seq<byte>>
    decreases |t|
  {
    if t == [] then Lone(cur)
    else if t[0] == NEWLINE then Lone(cur) + CutsFrom([], t[1..])
    else if |cur| >= 1024 then Lone(cur) + CutsFrom([t[0]], t[1..])
    else CutsFrom(cur + [t[0]], t[1..])
  }

  function Lone(line: seq<byte>): seq<seq<byte>> {
    if line == [] then [] else [line]
  }

  /** Everything grep prints about a file. */
  ghost function Report(name: seq<byte>, pat: seq<byte>, t: seq<byte>): seq<byte> {
    Entries(name, pat, CutsFrom([], t))
  }

  // ----- entries -----

  lemma {:induction false} EntriesAppend(name: seq<byte>, pat: seq<byte>, a: seq<seq<byte>>, b: seq<seq<byte>>)
    ensures Entries(name, pat, a + b) == Entries(name, pat, a) + Entries(name, pat, b)
  {
    if b == [] {
      assert a + b == a;
    } else {
      var n := |b| - 1;
      EntriesAppend(name, pat, a, b[..n]);
      assert (a + b)[..|a + b| - 1] == a + b[..n] && (a + b)[|a + b| - 1] == b[n];
      Associative(Entries(name, pat, a), Entries(name, pat, b[..n]), Entry(name, pat, b[n]));
    }
  }

  lemma EntriesLone(name: seq<byte>, pat: seq<byte>, line: seq<byte>)
    ensures Entries(name, pat, Lone(line)) == Entry(name, pat, line)
    ensures Entries(name, pat, [line]) == Entry(name, pat, line)
  {
  }

  /** One more line done: its entry joins the output, and it leaves what is still to do. */
  lemma Grown(name: seq<byte>, pat: seq<byte>, total: seq<seq<byte>>, done: seq<seq<byte>>, line: seq<byte>,
              left: seq<seq<byte>>, next: seq<seq<byte>>)
    requires total == done + left && left == Lone(line) + next
    ensures total == (done + Lone(line)) + next
    ensures Entries(name, pat, done + Lone(line)) == Entries(name, pat, done) + Entry(name, pat, line)
  {
    EntriesLone(name, pat, line);
    EntriesAppend(name, pat, done, Lone(line));
    Associative(done, Lone(line), next);
  }

  /** Every line fits the 1024-byte buffer. */
  ghost predicate Fit(lines: seq<seq<byte>>) {
    forall i :: 0 <= i < |lines| ==> |lines[i]| <= 1024
  }

  lemma FitTail(line: seq<byte>, lines: seq<seq<byte>>)
    requires Fit([line] + lines)
    ensures |line| <= 1024 && Fit(lines)
  {
    assert ([line] + lines)[0] == line;
    forall i | 0 <= i < |lines| ensures |lines[i]| <= 1024 { assert ([line] + lines)[i + 1] == lines[i]; }
  }

  /** An unfinished line is part of the first line. */
  lemma {:induction false} FirstLineFits(cur: seq<byte>, t: seq<byte>)
    requires Fit(LinesFrom(cur, t))
    ensures |cur| <= 1024 && (t != [] && t[0] != NEWLINE ==> |cur| < 1024)
    decreases |t|
  {
    if t == [] {
      if cur != [] { assert LinesFrom(cur, t)[0] == cur; }
    } else if t[0] == NEWLINE {
      FitTail(cur, LinesFrom([], t[1..]));
    } else {
      FirstLineFits(cur + [t[0]], t[1..]);
    }
  }

  function NonEmpty(lines: seq<seq<byte>>): seq<seq<byte>> {
    if lines == [] then [] else Lone(lines[0]) + NonEmpty(lines[1..])
  }

  lemma {:induction false} CutsAreLines(cur: seq<byte>, t: seq<byte>)
    requires Fit(LinesFrom(cur, t))
    ensures CutsFrom(cur, t) == NonEmpty(LinesFrom(cur, t))
    decreases |t|
  {
    FirstLineFits(cur, t);
    if t != [] && t[0] == NEWLINE {
      FitTail(cur, LinesFrom([], t[1..]));
      CutsAreLines([], t[1..]);
      assert ([cur] + LinesFrom([], t[1..]))[1..] == LinesFrom([], t[1..]);
    } else if t != [] {
      CutsAreLines(cur + [t[0]], t[1..]);
    } else {
      assert NonEmpty([cur]) == Lone(cur) + NonEmpty([cur][1..]);
    }
  }

  lemma {:induction false} CutsFit(cur: seq<byte>, t: seq<byte>)
    requires |cur| <= 1024
    ensures Fit(CutsFrom(cur, t))
    decreases |t|
  {
    if t != [] {
      CutsFit(if t[0] == NEWLINE then [] else if |cur| >= 1024 then [t[0]] else cur + [t[0]], t[1..]);
    }
  }

  lemma {:induction false} NonEmptyFit(lines: seq<seq<byte>>)
    requires Fit(NonEmpty(lines))
    ensures Fit(lines)
  {
    if lines != [] {
      var all := Lone(lines[0]) + NonEmpty(lines[1..]);
      forall i | 0 <= i < |NonEmpty(lines[1..])| ensures |NonEmpty(lines[1..])[i]| <= 1024 {
        assert NonEmpty(lines[1..])[i] == all[i + |Lone(lines[0])|];
      }
      NonEmptyFit(lines[1..]);
      if lines[0] != [] { assert all[0] == lines[0]; }
      forall i | 0 < i < |lines| ensures |lines[i]| <= 1024 { assert lines[i] == lines[1..][i - 1]; }
    }
  }

  /** The pieces searched are the lines of the file, empty ones aside, exactly when every line fits the buffer. */
  lemma CutsAreLinesIff(t: seq<byte>)
    ensures CutsFrom([], t) == NonEmpty(LinesFrom([], t)) <==> Fit(LinesFrom([], t))
  {
    if Fit(LinesFrom([], t)) {
      CutsAreLines([], t);
    } else if CutsFrom([], t) == NonEmpty(LinesFrom([], t)) {
      CutsFit([], t);
      NonEmptyFit(LinesFrom([], t));
    }
  }

  lemma {:induction false} EntriesNonEmpty(name: seq<byte>, pat: seq<byte>, lines: seq<seq<byte>>)
    ensures Entries(name, pat, NonEmpty(lines)) == Entries(name, pat, lines)
  {
    if lines != [] {
      EntriesNonEmpty(name, pat, lines[1..]);
      EntriesLone(name, pat, lines[0]);
      EntriesAppend(name, pat, Lone(lines[0]), NonEmpty(lines[1..]));
      EntriesAppend(name, pat, [lines[0]], lines[1..]);
      assert [lines[0]] + lines[1..] == lines;
    }
  }

  /** When every line fits the buffer, the report is the entry of every line, in order. */
  lemma ReportIsEntries(name: seq<byte>, pat: seq<byte>, t: seq<byte>)
    requires Fit(LinesFrom([], t))
    ensures Report(name, pat, t) == Entries(name, pat, LinesFrom([], t))
  {
    CutsAreLines([], t);
    EntriesNonEmpty(name, pat, LinesFrom([], t));
  }

  // ----- what the output says, read line by line -----

  /** Lines, each ended by a newline. */
  function Ended(lines: seq<seq<byte>>): seq<byte> {
    if lines == [] then [] else lines[0] + [NEWLINE] + Ended(lines[1..])
  }

  lemma {:induction false} LinesGather(cur: seq<byte>, x: seq<byte>, t: seq<byte>)
    requires Unbroken(x)
    ensures LinesFrom(cur, x + t) == LinesFrom(cur + x, t)
    decreases |x|
  {
    if x == [] {
      assert x + t == t && cur + x == cur;
    } else {
      assert (x + t)[0] == x[0] && (x + t)[1..] == x[1..] + t;
      assert cur + [x[0]] + x[1..] == cur + x;
      LinesGather(cur + [x[0]], x[1..], t);
    }
  }

  /** Splitting a text into lines undoes putting it together from them, with or without a last newline. */
  lemma {:induction false} LinesOfEnded(lines: seq<seq<byte>>, last: seq<byte>)
    requires (forall i :: 0 <= i < |lines| ==> Unbroken(lines[i])) && Unbroken(last)
    ensures LinesFrom([], Ended(lines) + last) == lines + Lone(last)
  {
    if lines == [] {
      assert [] + last == last == last + [];
      LinesGather([], last, []);
      assert lines + Lone(last) == Lone(last);
    } else {
      var rest := Ended(lines[1..]) + last;
      assert Ended(lines) + last == lines[0] + ([NEWLINE] + rest);
      LinesGather([], lines[0], [NEWLINE] + rest);
      assert [] + lines[0] == lines[0] && ([NEWLINE] + rest)[1..] == rest;
      LinesOfEnded(lines[1..], last);
      assert lines == [lines[0]] + lines[1..];
      Associative([lines[0]], lines[1..], Lone(last));
    }
  }

  /** The lines that hold the pattern. */
  ghost function Matching(lines: seq<seq<byte>>, pat: seq<byte>): seq<seq<byte>> {
    if lines == [] then []
    else (if Contains(lines[0], pat) then [lines[0]] else []) + Matching(lines[1..], pat)
  }

  /** The output is one line for each of `found`, in order: the name, a colon, and what was found. */
  ghost predicate Tells(out: seq<byte>, name: seq<byte>, found: seq<seq<byte>>) {
    && |LinesFrom([], out)| == |found|
    && forall i :: 0 <= i < |found| ==> LinesFrom([], out)[i] == name + [COLON] + found[i]
  }

  function Prefixed(name: seq<byte>, lines: seq<seq<byte>>): (r: seq<seq<byte>>)
    ensures |r| == |lines| && forall i :: 0 <= i < |lines| ==> r[i] == name + [COLON] + lines[i]
  {
    seq(|lines|, i requires 0 <= i < |lines| => name + [COLON] + lines[i])
  }

  lemma {:induction false} EntriesEnded(name: seq<byte>, pat: seq<byte>, lines: seq<seq<byte>>)
    ensures Entries(name, pat, lines) == Ended(Prefixed(name, Matching(lines, pat)))
  {
    if lines == [] {
      assert Prefixed(name, Matching(lines, pat)) == [];
    } else {
      var rest := Matching(lines[1..], pat);
      EntriesEnded(name, pat, lines[1..]);
      assert lines == [lines[0]] + lines[1..];
      EntriesAppend(name, pat, [lines[0]], lines[1..]);
      EntriesLone(name, pat, lines[0]);
      if Contains(lines[0], pat) {
        var all := Prefixed(name, [lines[0]] + rest);
        assert all[0] == name + [COLON] + lines[0] && all[1..] == Prefixed(name, rest);
      } else {
        assert [] + rest == rest;
      }
    }
  }

  lemma {:induction false} MatchingUnbroken(lines: seq<seq<byte>>, pat: seq<byte>)
    requires AllUnbroken(lines)
    ensures AllUnbroken(Matching(lines, pat))
  {
    if lines != [] {
      forall i | 0 <= i < |lines[1..]| ensures Unbroken(lines[1..][i]) { assert lines[1..][i] == lines[i + 1]; }
      MatchingUnbroken(lines[1..], pat);
      assert Unbroken(lines[0]);
    }
  }

  ghost predicate AllUnbroken(lines: seq<seq<byte>>) {
    forall i :: 0 <= i < |lines| ==> Unbroken(lines[i])
  }

  /** Read line by line, the entries of any lines are the name, a colon and the line, for those that match. */
  lemma EntriesTell(name: seq<byte>, pat: seq<byte>, lines: seq<seq<byte>>)
    requires Unbroken(name) && AllUnbroken(lines)
    ensures Tells(Entries(name, pat, lines), name, Matching(lines, pat))
  {
    var found := Matching(lines, pat);
    MatchingUnbroken(lines, pat);
    EntriesEnded(name, pat, lines);
    var all := Prefixed(name, found);
    forall i | 0 <= i < |all| ensures Unbroken(all[i]) { assert Unbroken(found[i]); }
    LinesOfEnded(all, []);
    assert Ended(all) + [] == Ended(all) && all + Lone([]) == all;
  }

  lemma {:induction false} LinesUnbroken(cur: seq<byte>, t: seq<byte>)
    requires Unbroken(cur)
    ensures AllUnbroken(LinesFrom(cur, t))
    decreases |t|
  {
    if t != [] {
      LinesUnbroken(if t[0] == NEWLINE then [] else cur + [t[0]], t[1..]);
    }
  }

  lemma {:induction false} CutsUnbroken(cur: seq<byte>, t: seq<byte>)
    requires Unbroken(cur)
    ensures AllUnbroken(CutsFrom(cur, t))
    decreases |t|
  {
    if t != [] {
      CutsUnbroken(if t[0] == NEWLINE then [] else if |cur| >= 1024 then [t[0]] else cur + [t[0]], t[1..]);
    }
  }

  /**
   * What grep is for: when every line fits the buffer, its output read line by line is, in order, the
   * name, a colon and the line, for exactly the lines of the file that hold the pattern.
   */
  lemma ReportTells(name: seq<byte>, pat: seq<byte>, t: seq<byte>)
    requires Unbroken(name) && Fit(LinesFrom([], t))
    ensures Tells(Report(name, pat, t), name, Matching(LinesFrom([], t), pat))
  {
    ReportIsEntries(name, pat, t);
    LinesUnbroken([], t);
    EntriesTell(name, pat, LinesFrom([], t));
  }

  // ----- cutting a text up step by step -----

  ghost predicate Unbroken(line: seq<byte>) {
    forall i :: 0 <= i < |line| ==> line[i] != NEWLINE
  }

  lemma {:induction false} CutsGather(cur: seq<byte>, x: seq<byte>, t: seq<byte>)
    requires Unbroken(x) && |cur| + |x| <= 1024
    ensures CutsFrom(cur, x + t) == CutsFrom(cur + x, t)
    decreases |x|
  {
    if x == [] {
      assert x + t == t && cur + x == cur;
    } else {
      assert (x + t)[0] == x[0] && (x + t)[1..] == x[1..] + t;
      assert cur + [x[0]] + x[1..] == cur + x;
      CutsGather(cur + [x[0]], x[1..], t);
    }
  }

  /** A line that ends in a newline. */
  lemma CutsLine(line: seq<byte>, t: seq<byte>)
    requires Unbroken(line) && |line| <= 1024
    ensures CutsFrom([], line + ([NEWLINE] + t)) == Lone(line) + CutsFrom([], t)
  {
    CutsGather([], line, [NEWLINE] + t);
    assert [] + line == line;
    assert ([NEWLINE] + t)[1..] == t;
  }

  /** A full buffer without a newline, or the last line of the file. */
  lemma CutsFull(piece: seq<byte>, t: seq<byte>)
    requires Unbroken(piece) && |piece| <= 1024 && (|piece| == 1024 || t == [])
    ensures CutsFrom([], piece + t) == Lone(piece) + CutsFrom([], t)
  {
    CutsGather([], piece, t);
    assert [] + piece == piece;
    if t != [] && t[0] != NEWLINE { assert [] + [t[0]] == [t[0]]; }
  }

  // ----- the string routines of the support library, on the buffer -----

  /** The bytes from `from` up to `to` form a C string that ends at `to`. */
  ghost predicate IsString(s: seq<byte>, from: int, to: int) {
    0 <= from <= to < |s| && s[to] == NUL && forall k :: from <= k < to ==> s[k] != NUL
  }

  /** strncmp(data + at, pat, strlen(pat)) == 0, for a pattern that is not empty. */
  method Matches(data: array<byte>, at: nat, pat: seq<byte>, ghost end: nat) returns (same: bool)
    requires pat != [] && NUL !in pat && IsString(data[..], at, end)
    ensures same <==> OccursAt(data[at..end], pat, 0)
  {
    var i := 0;
    while data[at + i] == pat[i]
      invariant 0 <= i < |pat| && at + i <= end
      invariant forall k :: 0 <= k < i ==> data[at..end][k] == pat[k]
      decreases |pat| - i
    {
      assert at + i < end;
      i := i + 1;
      if i == |pat| {
        assert data[at..end][0..0 + |pat|] == pat;
        return true;
      }
    }
    Differs(data[at..end], pat, 0, i);
    return false;
  }

  /** fdputs(1, data + from): what it writes. */
  method StringAt(data: array<byte>, from: nat, ghost end: nat) returns (s: seq<byte>)
    requires IsString(data[..], from, end)
    ensures s == data[from..end]
  {
    var i := from;
    while data[i] != NUL
      invariant from <= i <= end
      decreases end - i
    {
      i := i + 1;
    }
    return data[from..i];
  }

  /** strcpy(data, data + from). */
  method CopyDown(data: array<byte>, from: nat, ghost end: nat)
    requires 0 < from && IsString(data[..], from, end)
    modifies data
    ensures data[..end - from] == old(data[from..end])
    ensures forall k :: end - from < k < data.Length ==> data[k] == old(data[k])
  {
    var i := 0;
    while data[from + i] != NUL
      invariant 0 <= i <= end - from
      invariant forall k :: 0 <= k < i ==> data[k] == old(data[from..end])[k]
      invariant forall k :: i <= k < data.Length ==> data[k] == old(data[k])
      decreases end - from - i
    {
      assert i < end - from;
      data[i] := data[from + i];
      i := i + 1;
    }
    data[i] := NUL;
  }

  // ----- do_one_file -----

  /** The search of one line, which has been made a C string. */
  method SearchLine(data: array<byte>, start: nat, end: nat, pat: seq<byte>) returns (found: bool)
    requires NUL !in pat && IsString(data[..], start, end)
    ensures found <==> Contains(data[start..end], pat)
  {
    var first := if pat == [] then NUL else pat[0];
    var check := start;
    while check < end
      invariant start <= check <= end
      invariant forall i :: 0 <= i < check - start ==> !OccursAt(data[start..end], pat, i)
    {
      assert data[..][check] != NUL;
      if first == data[check] {
        var same := Matches(data, check, pat, end);
        OccursShifted(data[start..end], pat, check - start);
        assert data[start..end][check - start..] == data[check..end];
        if same { return true; }
      } else {
        Differs(data[start..end], pat, check - start, 0);
      }
      check := check + 1;
    }
    return false;
  }

  lemma OccursShifted(line: seq<byte>, pat: seq<byte>, i: nat)
    requires i <= |line|
    ensures OccursAt(line[i..], pat, 0) <==> OccursAt(line, pat, i)
  {
  }

  lemma Differs(line: seq<byte>, pat: seq<byte>, at: nat, i: nat)
    requires pat == [] || (i < |pat| && (at + i < |line| ==> line[at + i] != pat[i]))
    ensures !OccursAt(line, pat, at)
  {
  }

  /** The buffer holds no NUL below `last`. */
  ghost predicate Clean(data: array<byte>, last: int)
    reads data
  {
    data.Length == 1025 && 0 <= last <= 1024 && forall k :: 0 <= k < last ==> data[k] != NUL
  }

  /** The search and the printing of one line, up to and including the NUL put at its end. */
  method DoLine(data: array<byte>, start: nat, end: nat, name: seq<byte>, pat: seq<byte>) returns (out: seq<byte>)
    requires data.Length == 1025 && start <= end <= 1024 && NUL !in pat
    requires forall k :: start <= k < end ==> data[k] != NUL
    modifies data
    ensures out == Entry(name, pat, old(data[start..end]))
    ensures forall k :: 0 <= k < 1025 ==> data[k] == if k == end then NUL else old(data[k])
  {
    data[end] := NUL;
    assert data[start..end] == old(data[start..end]);
    out := [];
    var found := SearchLine(data, start, end, pat);
    if found {
      var line := StringAt(data, start, end);
      out := name + [COLON] + line + [NEWLINE];
    }
  }

  /** The text from `start` on. */
  ghost function From(text: seq<byte>, start: nat): seq<byte> {
    if start <= |text| then text[start..] else []
  }

  /** The buffer still holds `text` from `start` on. */
  ghost predicate Holds(data: array<byte>, text: seq<byte>, start: int)
    reads data
  {
    && data.Length == 1025 && |text| <= 1024 && 0 <= start
    && forall k :: start <= k < |text| ==> data[k] == text[k] && text[k] != NUL
  }

  /** From `start` to the first newline below `last`, or to `last`. */
  method FindEnd(data: array<byte>, start: nat, last: nat, ghost text: seq<byte>) returns (end: nat)
    requires |text| == last && start <= last && Holds(data, text, start)
    ensures start <= end <= last && Unbroken(text[start..end]) && (end < last ==> text[end] == NEWLINE)
    ensures start < end == last ==> text[last - 1] != NEWLINE
  {
    end := start;
    while end < last && data[end] != NEWLINE
      invariant start <= end <= last
      invariant forall k :: start <= k < end ==> text[k] != NEWLINE
    {
      end := end + 1;
    }
  }

  lemma Recompose(text: seq<byte>, rest: seq<byte>, start: nat, end: nat)
    requires start <= end <= |text|
    ensures end < |text| && text[end] == NEWLINE ==>
              From(text, start) + rest == text[start..end] + ([NEWLINE] + (From(text, end + 1) + rest))
    ensures end == |text| ==> From(text, start) == text[start..end] && From(text, end + 1) + rest == rest
  {
  }

  /** Taking the line from `start` to `end` leaves the text from `end + 1` on. */
  lemma Advance(text: seq<byte>, rest: seq<byte>, start: nat, end: nat)
    requires start <= end <= |text| <= 1024 && Unbroken(text[start..end])
    requires end < |text| ==> text[end] == NEWLINE
    requires end == |text| ==> |text| - start == 1024 || rest == []
    ensures CutsFrom([], From(text, start) + rest) ==
            Lone(text[start..end]) + CutsFrom([], From(text, end + 1) + rest)
  {
    Recompose(text, rest, start, end);
    if end < |text| {
      CutsLine(text[start..end], From(text, end + 1) + rest);
    } else {
      CutsFull(text[start..end], rest);
    }
  }

  /** What is printed and what is still to come make up the whole. */
  ghost predicate Balanced(total: seq<seq<byte>>, done: seq<seq<byte>>, text: seq<byte>, rest: seq<byte>) {
    total == done + CutsFrom([], text + rest)
  }

  /** One turn of the inner loop for a line that is complete. */
  method PrintLine(data: array<byte>, start: nat, end: nat, name: seq<byte>, pat: seq<byte>,
                   ghost text: seq<byte>, ghost rest: seq<byte>,
                   ghost total: seq<seq<byte>>, ghost done: seq<seq<byte>>)
    returns (out: seq<byte>, ghost more: seq<seq<byte>>)
    requires start <= end <= |text| && Holds(data, text, start) && Unbroken(text[start..end]) && NUL !in pat
    requires end < |text| ==> text[end] == NEWLINE
    requires end == |text| ==> |text| - start == 1024 || rest == []
    requires Balanced(total, done, From(text, start), rest)
    modifies data
    ensures Holds(data, text, end + 1) && data[1024] == if end == 1024 then NUL else old(data[1024])
    ensures Entries(name, pat, more) == Entries(name, pat, done) + out
    ensures Balanced(total, more, From(text, end + 1), rest)
  {
    Advance(text, rest, start, end);
    Grown(name, pat, total, done, text[start..end], CutsFrom([], From(text, start) + rest),
          CutsFrom([], From(text, end + 1) + rest));
    assert data[start..end] == text[start..end];
    out := DoLine(data, start, end, name, pat);
    more := done + Lone(text[start..end]);
  }

  /**
   * The inner loop: print what is complete in the buffer, and return how many bytes are carried
   * over at its front. A buffer that was not filled has the end of the file in it. A newline in the
   * extra cell makes the end of a full buffer the end of a line, and is then wiped out.
   */
  method ScanBuffer(data: array<byte>, last: nat, cnt: nat, name: seq<byte>, pat: seq<byte>, ghost rest: seq<byte>)
    returns (out: seq<byte>, carried: nat, ghost done: seq<seq<byte>>)
    requires Clean(data, last) && NUL !in pat && (cnt == 0 ==> last < 1024)
    requires last < 1024 || data[1024] == NEWLINE ==> rest == []
    modifies data
    ensures Clean(data, carried) && carried < 1024 && (cnt == 0 ==> carried == 0)
    ensures data[1024] == NEWLINE ==> old(data[1024]) == NEWLINE
    ensures old(data[1024]) == NEWLINE && last == 1024 ==>
              carried == 0 && (data[1024] == NEWLINE <==> old(data[1023]) == NEWLINE)
    ensures out == Entries(name, pat, done)
    ensures Balanced(CutsFrom([], old(data[..last]) + rest), done, data[..carried], rest)
  {
    ghost var text := data[..last];
    ghost var total := CutsFrom([], text + rest);
    var start := 0;
    out, done := [], [];
    assert From(text, 0) == text;
    while true
      invariant start <= last && (start == 0 || start < last) && data[1024] == old(data[1024])
      invariant Holds(data, text, start)
      invariant out == Entries(name, pat, done) && Balanced(total, done, From(text, start), rest)
      decreases last - start
    {
      var end := FindEnd(data, start, last, text);
      if data[end] != NEWLINE && cnt != 0 && start != 0 {
        carried := Carry(data, start, end, text);
        return;
      }
      var entry;
      entry, done := PrintLine(data, start, end, name, pat, text, rest, total, done);
      out := out + entry;
      start := end + 1;
      if start >= last {
        assert From(text, start) == data[..0];
        carried := 0;
        return;
      }
    }
  }

  /** Move an unfinished line to the front of the buffer. */
  method Carry(data: array<byte>, start: nat, end: nat, ghost text: seq<byte>) returns (carried: nat)
    requires 0 < start <= end == |text| && Holds(data, text, start)
    modifies data
    ensures carried == end - start && Clean(data, carried) && data[..carried] == From(text, start)
    ensures data[1024] == NEWLINE ==> old(data[1024]) == NEWLINE
  {
    data[end] := NUL;
    ghost var line := data[start..end];
    assert line == From(text, start);
    CopyDown(data, start, end);
    carried := end - start;
    assert forall k :: 0 <= k < carried ==> data[k] == line[k] && line[k] == text[start + k];
  }

  /** The refill of the buffer behind the carried bytes. */
  method Refill(f: OpenFile, data: array<byte>, last: nat) returns (cnt: nat)
    requires f.Valid() && f.inUse && Clean(data, last) && last < 1024 && NUL !in f.file
    modifies f`position, data
    ensures f.Valid() && f.position == old(f.position) + cnt && data[1024] == old(data[1024])
    ensures Clean(data, last + cnt) && (last + cnt < 1024 ==> f.position == |f.file|)
    ensures data[..last + cnt] == old(data[..last]) + f.file[old(f.position)..f.position]
    ensures data[..last + cnt] + f.file[f.position..] == old(data[..last]) + f.file[old(f.position)..]
  {
    ghost var pos, carry := f.position, data[..last];
    var r := f.Read(data, last, 1024 - last);
    cnt := r;
    assert data[..last] == carry;
    assert data[..last + cnt] == carry + f.file[pos..f.position];
    assert f.file[pos..] == f.file[pos..f.position] + f.file[f.position..];
    Associative(carry, f.file[pos..f.position], f.file[f.position..]);
    assert forall k :: last <= k < last + cnt ==> data[k] == f.file[pos + (k - last)];
  }

  // ----- the extra cell of the buffer -----

  /**
   * The pieces searched when the extra cell happens to hold a newline at the start: the first full
   * buffer that does not end in a newline is cut at its end, whatever the length of its last line.
   */
  function StaleCuts(t: seq<byte>): seq<seq<byte>>
    decreases |t|
  {
    if |t| < 1024 then CutsFrom([], t)
    else CutsFrom([], t[..1024]) + if t[1023] == NEWLINE then StaleCuts(t[1024..]) else CutsFrom([], t[1024..])
  }

  /** The pieces completed by a text, and the one left open at its end. */
  function Feed(cur: seq<byte>, a: seq<byte>): (seq<seq<byte>>, seq<byte>)
    decreases |a|
  {
    if a == [] then ([], cur)
    else if a[0] == NEWLINE then (Lone(cur) + Feed([], a[1..]).0, Feed([], a[1..]).1)
    else if |cur| >= 1024 then (Lone(cur) + Feed([a[0]], a[1..]).0, Feed([a[0]], a[1..]).1)
    else Feed(cur + [a[0]], a[1..])
  }

  lemma {:induction false} FeedSplit(cur: seq<byte>, a: seq<byte>, b: seq<byte>)
    ensures CutsFrom(cur, a + b) == Feed(cur, a).0 + CutsFrom(Feed(cur, a).1, b)
    decreases |a|
  {
    if a == [] {
      assert a + b == b;
    } else {
      assert (a + b)[0] == a[0] && (a + b)[1..] == a[1..] + b;
      var next := if a[0] == NEWLINE then [] else if |cur| >= 1024 then [a[0]] else cur + [a[0]];
      FeedSplit(next, a[1..], b);
      Associative(Lone(cur), Feed(next, a[1..]).0, CutsFrom(Feed(next, a[1..]).1, b));
    }
  }

  /** What is left open: everything, if there was no newline; nothing, exactly after a newline. */
  lemma {:induction false} FeedOpen(cur: seq<byte>, a: seq<byte>)
    requires |cur| + |a| <= 1024
    ensures |Feed(cur, a).1| <= |cur| + |a|
    ensures |Feed(cur, a).1| == |cur| + |a| <==> Unbroken(a)
    ensures a != [] ==> (Feed(cur, a).1 == [] <==> a[|a| - 1] == NEWLINE)
    decreases |a|
  {
    if a != [] {
      var next := if a[0] == NEWLINE then [] else cur + [a[0]];
      FeedOpen(next, a[1..]);
      assert Unbroken(a) <==> a[0] != NEWLINE && Unbroken(a[1..]) by {
        if a[0] != NEWLINE && Unbroken(a[1..]) {
          forall i | 0 < i < |a| ensures a[i] != NEWLINE { assert a[i] == a[1..][i - 1]; }
        }
      }
    }
  }

  lemma {:induction false} FirstPieceGrows(cur: seq<byte>, t: seq<byte>)
    requires cur != []
    ensures CutsFrom(cur, t) != [] && |CutsFrom(cur, t)[0]| >= |cur|
    decreases |t|
  {
    if t != [] && t[0] != NEWLINE && |cur| < 1024 { FirstPieceGrows(cur + [t[0]], t[1..]); }
  }

  /** Cutting between `open` and `b` changes nothing exactly when they were going to be cut there anyway. */
  lemma CutHereIff(open: seq<byte>, b: seq<byte>)
    requires open != [] && |open| <= 1024
    ensures Lone(open) + CutsFrom([], b) == CutsFrom(open, b) <==>
            b == [] || b[0] == NEWLINE || |open| == 1024
  {
    if b != [] && b[0] != NEWLINE {
      assert [] + [b[0]] == [b[0]];
      if |open| < 1024 {
        FirstPieceGrows(open + [b[0]], b[1..]);
        assert (Lone(open) + CutsFrom([], b))[0] == open;
      }
    }
  }

  /**
   * The first full buffer that does not end in a newline ends the file, or is followed by a newline,
   * or is a single line.
   */
  predicate Harmless(t: seq<byte>)
    decreases |t|
  {
    |t| < 1024 ||
    (if t[1023] == NEWLINE then Harmless(t[1024..])
     else |t| == 1024 || t[1024] == NEWLINE || NEWLINE !in t[..1024])
  }

  lemma SamePrefix(f: seq<seq<byte>>, a: seq<seq<byte>>, b: seq<seq<byte>>)
    ensures f + a == f + b <==> a == b
  {
    if f + a == f + b { assert a == (f + a)[|f|..] && b == (f + b)[|f|..]; }
  }

  /** A newline in the extra cell leaves the pieces searched as they should be exactly for such files. */
  lemma {:induction false} StaleIff(t: seq<byte>)
    ensures StaleCuts(t) == CutsFrom([], t) <==> Harmless(t)
    decreases |t|
  {
    if |t| >= 1024 {
      var a, b := t[..1024], t[1024..];
      assert t == a + b && a == a + [];
      var (done, open) := Feed([], a);
      FeedSplit([], a, b);
      FeedSplit([], a, []);
      FeedOpen([], a);
      assert CutsFrom([], a) == done + Lone(open) && CutsFrom([], t) == done + CutsFrom(open, b);
      if t[1023] == NEWLINE {
        StaleIff(b);
        SamePrefix(done, StaleCuts(b), CutsFrom([], b));
      } else {
        Associative(done, Lone(open), CutsFrom([], b));
        SamePrefix(done, Lone(open) + CutsFrom([], b), CutsFrom(open, b));
        CutHereIff(open, b);
      }
    }
  }

  lemma {:induction false} StaleUnbroken(t: seq<byte>)
    ensures AllUnbroken(StaleCuts(t))
    decreases |t|
  {
    if |t| < 1024 {
      CutsUnbroken([], t);
    } else {
      CutsUnbroken([], t[..1024]);
      CutsUnbroken([], t[1024..]);
      StaleUnbroken(t[1024..]);
    }
  }

  /** What is still to be searched, with `carry` in the buffer and `rest` in the file. */
  ghost function ToDo(stale: bool, carry: seq<byte>, rest: seq<byte>): seq<seq<byte>> {
    if stale && carry == [] then StaleCuts(rest) else CutsFrom([], carry + rest)
  }

  /** One turn of the outer loop: refill, print what is complete, carry the rest. */
  method Turn(f: OpenFile, data: array<byte>, last: nat, name: seq<byte>, pat: seq<byte>)
    returns (cnt: nat, out: seq<byte>, carried: nat, ghost done: seq<seq<byte>>)
    requires f.Valid() && f.inUse && Clean(data, last) && last < 1024 && NUL !in f.file && NUL !in pat
    requires data[1024] == NEWLINE ==> last == 0 || f.position == |f.file|
    modifies f`position, data
    ensures f.Valid() && f.position == old(f.position) + cnt && (cnt == 0 ==> f.position == |f.file|)
    ensures Clean(data, carried) && carried < 1024 && (cnt == 0 ==> carried == 0)
    ensures data[1024] == NEWLINE ==> carried == 0 || f.position == |f.file|
    ensures out == Entries(name, pat, done)
    ensures ToDo(old(data[1024]) == NEWLINE, old(data[..last]), f.file[old(f.position)..]) ==
            done + ToDo(data[1024] == NEWLINE, data[..carried], f.file[f.position..])
  {
    ghost var stale, carry, rest := data[1024] == NEWLINE, data[..last], f.file[f.position..];
    cnt := Refill(f, data, last);
    ghost var later := f.file[f.position..];
    ghost var cut := stale && last + cnt == 1024;
    if cut {
      assert last == 0 && data[..1024] == rest[..1024] && later == rest[1024..];
    }
    out, carried, done := ScanBuffer(data, last + cnt, cnt, name, pat, if cut then [] else later);
    if cut {
      assert data[..carried] == [];
      CutAtEnd(rest, done, data[1024] == NEWLINE);
    } else {
      PlainTurn(stale, carry, rest, done, data[1024] == NEWLINE, data[..carried], later);
    }
  }

  /** A full buffer with a newline behind it. */
  lemma CutAtEnd(rest: seq<byte>, done: seq<seq<byte>>, stale: bool)
    requires |rest| >= 1024 && (stale <==> rest[1023] == NEWLINE)
    requires Balanced(CutsFrom([], rest[..1024] + []), done, [], [])
    ensures ToDo(true, [], rest) == done + ToDo(stale, [], rest[1024..])
  {
    assert rest[..1024] + [] == rest[..1024];
    assert [] + rest[1024..] == rest[1024..];
  }

  /** Any other buffer: if there is a newline in the extra cell, the file has come to its end. */
  lemma PlainTurn(stale: bool, carry: seq<byte>, rest: seq<byte>, done: seq<seq<byte>>, stale': bool,
                  carry': seq<byte>, later: seq<byte>)
    requires Balanced(CutsFrom([], carry + rest), done, carry', later)
    requires stale ==> later == [] && (carry == [] ==> |rest| < 1024)
    requires stale' ==> stale
    ensures ToDo(stale, carry, rest) == done + ToDo(stale', carry', later)
  {
    if carry == [] { assert carry + rest == rest; }
    if carry' == [] { assert carry' + later == later; }
  }

  /** The pieces do_one_file searches, in order. */
  ghost function Searched(stale: bool, t: seq<byte>): seq<seq<byte>> {
    if stale then StaleCuts(t) else CutsFrom([], t)
  }

  /** No line is cut: every line fits the buffer, and the extra cell does no harm. */
  ghost predicate Whole(stale: bool, t: seq<byte>) { Fit(LinesFrom([], t)) && (stale ==> Harmless(t)) }

  /** What the printed entries tell about the pieces, and about the lines if these are what was searched. */
  lemma SearchedTells(name: seq<byte>, pat: seq<byte>, stale: bool, t: seq<byte>)
    requires Unbroken(name)
    ensures Tells(Entries(name, pat, Searched(stale, t)), name, Matching(Searched(stale, t), pat))
    ensures Whole(stale, t) ==> Tells(Entries(name, pat, Searched(stale, t)), name, Matching(LinesFrom([], t), pat))
  {
    StaleUnbroken(t);
    CutsUnbroken([], t);
    EntriesTell(name, pat, Searched(stale, t));
    StaleIff(t);
    if Whole(stale, t) { ReportTells(name, pat, t); }
  }

  /** The outer loop. */
  method SearchFile(f: OpenFile, name: seq<byte>, pat: seq<byte>, data: array<byte>) returns (out: seq<byte>)
    requires f.Valid() && f.inUse && f.position == 0 && NUL !in f.file && NUL !in pat && data.Length == 1025
    modifies f`position, data
    ensures out == Entries(name, pat, Searched(old(data[1024]) == NEWLINE, f.file))
  {
    out := [];
    var last := 0;
    ghost var total := Searched(data[1024] == NEWLINE, f.file);
    ghost var done, left := [], total;
    assert data[..0] + f.file[0..] == f.file && f.file[0..] == f.file;
    while true
      invariant f.Valid() && f.inUse && Clean(data, last) && last < 1024
      invariant data[1024] == NEWLINE ==> last == 0 || f.position == |f.file|
      invariant out == Entries(name, pat, done)
      invariant total == done + left && left == ToDo(data[1024] == NEWLINE, data[..last], f.file[f.position..])
      decreases |f.file| - f.position
    {
      var cnt, printed;
      ghost var more;
      cnt, printed, last, more := Turn(f, data, last, name, pat);
      EntriesAppend(name, pat, done, more);
      left := ToDo(data[1024] == NEWLINE, data[..last], f.file[f.position..]);
      Associative(done, more, left);
      out, done := out + printed, done + more;
      if cnt == 0 {
        assert data[..last] == [] && f.file[f.position..] == [];
        assert total == done;
        return;
      }
    }
  }

  /**
   * do_one_file on an open file without NUL bytes: whatever the uninitialised buffer held before, it
   * stops, having printed the entries of exactly the pieces searched. That is the report on the
   * file unless the buffer's extra last cell happened to hold a newline. Read line by line, it names
   * the pieces that hold the pattern, and these are lines of the file if all lines fit the buffer.
   */
  method DoOneFile(f: OpenFile, name: seq<byte>, pat: seq<byte>, data: array<byte>)
    returns (out: seq<byte>, code: int)
    requires f.Valid() && f.position == 0 && NUL !in f.file && NUL !in pat && data.Length == 1025
    modifies f`position, data
    ensures f.inUse ==> code == 0 && out == Entries(name, pat, Searched(old(data[1024]) == NEWLINE, f.file))
    ensures f.inUse && old(data[1024]) != NEWLINE ==> out == Report(name, pat, f.file)
    ensures f.inUse && Unbroken(name) ==>
              Tells(out, name, Matching(Searched(old(data[1024]) == NEWLINE, f.file), pat))
    ensures f.inUse && Unbroken(name) && Whole(old(data[1024]) == NEWLINE, f.file) ==>
              Tells(out, name, Matching(LinesFrom([], f.file), pat))
    ensures !f.inUse ==> code == -1 && out == []
  {
    if !f.inUse { return [], -1; }
    if Unbroken(name) { SearchedTells(name, pat, data[1024] == NEWLINE, f.file); }
    out := SearchFile(f, name, pat, data);
    code := 0;
  }
}
