/**
 * Commands and their arguments (kernel/syscall.c): execute splits a command at its first space into
 * a file name and an argument string, keeps the latter in the PCB, and getargs hands it to the child.
 */
module Command {
  import opened Sequences
  import opened Bytes

  /** The index of the first space, or the length. */
  function FirstSpace(cmd: seq<byte>): (k: nat)
    ensures k <= |cmd|
  {
    if cmd == [] || cmd[0] == SPACE then 0 else 1 + FirstSpace(cmd[1..])
  }

  lemma {:induction false} FirstSpaceFound(cmd: seq<byte>)
    ensures var k := FirstSpace(cmd);
            (k < |cmd| ==> cmd[k] == SPACE) && forall i :: 0 <= i < k ==> cmd[i] != SPACE
  {
    if cmd != [] && cmd[0] != SPACE {
      FirstSpaceFound(cmd[1..]);
      forall i | 0 < i < FirstSpace(cmd) ensures cmd[i] != SPACE { assert cmd[i] == cmd[1..][i - 1]; }
    }
  }

  /** The C string at the start of a buffer: everything before the first NUL, or all of it. */
  function CString(s: seq<byte>): (r: seq<byte>)
    ensures |r| <= |s|
  {
    if s == [] || s[0] == NUL then [] else [s[0]] + CString(s[1..])
  }

  lemma {:induction false} CStringIs(s: seq<byte>, n: nat)
    requires n < |s| && s[n] == NUL && forall i :: 0 <= i < n ==> s[i] != NUL
    ensures CString(s) == s[..n]
  {
    if n > 0 {
      CStringIs(s[1..], n - 1);
      assert s[..n] == [s[0]] + s[1..][..n - 1];
    }
  }

  /** Overrun: the loop stores outside one of its two buffers. */
  datatype Outcome = Parsed(name: seq<byte>, args: seq<byte>) | Refused | Overrun

  /**
   * What the parse loop makes of a command. Without a space the argument buffer is never filled: it
   * holds what was there before, `stale`, up to a NUL stored at the command's length less one.
   */
  function Split(cmd: seq<byte>, stale: seq<byte>): (r: Outcome)
    requires |stale| == 128
  {
    var k := FirstSpace(cmd);
    if k > 32 then Refused
    else if k == 32 then Overrun
    else if k < |cmd| then
      if |cmd| - k - 1 > 127 then Overrun else Parsed(cmd[..k], cmd[k + 1..])
    else if k == 0 then Overrun
    else Parsed(cmd, CString(stale[..k - 1]))
  }

  /**
   * The command can be put together again from name and arguments exactly when it has a space, at
   * most 31 bytes before it and at most 127 after it.
   */
  lemma RecoverableIff(cmd: seq<byte>, stale: seq<byte>)
    requires |stale| == 128
    ensures var r := Split(cmd, stale);
            (r.Parsed? && r.name + [SPACE] + r.args == cmd) <==>
            (FirstSpace(cmd) < |cmd| && FirstSpace(cmd) <= 31 && |cmd| - FirstSpace(cmd) - 1 <= 127)
  {
    var k := FirstSpace(cmd);
    FirstSpaceFound(cmd);
    if k < |cmd| {
      Rejoined(cmd, k);
    } else {
      assert Split(cmd, stale).Parsed? ==> |Split(cmd, stale).name| == |cmd|;
    }
  }

  lemma Rejoined(cmd: seq<byte>, k: nat)
    requires k < |cmd| && cmd[k] == SPACE
    ensures cmd[..k] + [SPACE] + cmd[k + 1..] == cmd
  {
  }

  lemma {:induction false} FirstSpaceAfter(name: seq<byte>, rest: seq<byte>)
    requires SPACE !in name && rest != [] && rest[0] == SPACE
    ensures FirstSpace(name + rest) == |name|
    decreases |name|
  {
    if name == [] {
      assert name + rest == rest;
    } else {
      assert (name + rest)[1..] == name[1..] + rest;
      FirstSpaceAfter(name[1..], rest);
    }
  }

  /** Name, space, arguments: both parts come back as they were, whatever the buffers held. */
  lemma SplitJoined(name: seq<byte>, args: seq<byte>, stale: seq<byte>)
    requires |stale| == 128 && SPACE !in name && |name| <= 31 && |args| <= 127
    ensures Split(name + [SPACE] + args, stale) == Parsed(name, args)
  {
    var cmd := name + [SPACE] + args;
    assert cmd == name + ([SPACE] + args);
    FirstSpaceAfter(name, [SPACE] + args);
    assert cmd[..|name|] == name && cmd[|name| + 1..] == args;
  }

  /** Two different commands of that form cannot end up with the same name and arguments. */
  lemma SplitInjective(c: seq<byte>, d: seq<byte>, stale: seq<byte>)
    requires |stale| == 128 && FirstSpace(c) < |c| && FirstSpace(d) < |d|
    requires Split(c, stale).Parsed? && Split(c, stale) == Split(d, stale)
    ensures c == d
  {
    RecoverableIff(c, stale);
    RecoverableIff(d, stale);
  }

  /** When a command is refused, and when the loop runs over one of its buffers. */
  lemma SplitFailsIff(cmd: seq<byte>, stale: seq<byte>)
    requires |stale| == 128
    ensures Split(cmd, stale).Refused? <==> |cmd| > 32 && forall i :: 0 <= i <= 32 ==> cmd[i] != SPACE
    ensures Split(cmd, stale).Overrun? <==>
            || cmd == []
            || (|cmd| >= 32 && (|cmd| > 32 ==> cmd[32] == SPACE) && forall i :: 0 <= i < 32 ==> cmd[i] != SPACE)
            || exists k: nat ::
                 k < 32 && |cmd| > k + 128 && cmd[k] == SPACE && forall i :: 0 <= i < k ==> cmd[i] != SPACE
  {
    FirstSpaceFound(cmd);
    var k := FirstSpace(cmd);
    if k < 32 && |cmd| > k + 128 { assert cmd[k] == SPACE && forall i :: 0 <= i < k ==> cmd[i] != SPACE; }
  }

  lemma {:induction false} FirstSpaceNone(cmd: seq<byte>)
    requires SPACE !in cmd
    ensures FirstSpace(cmd) == |cmd|
  {
    if cmd != [] { FirstSpaceNone(cmd[1..]); }
  }

  /**
   * A command without a space keeps its name, and is given as arguments whatever string its argument
   * buffer happened to begin with, up to one byte less than its own length.
   */
  lemma StaleArguments(cmd: seq<byte>, left: seq<byte>, stale: seq<byte>)
    requires SPACE !in cmd && 1 <= |cmd| <= 31
    requires |stale| == 128 && NUL !in left && left + [NUL] <= stale
    ensures Split(cmd, stale) == Parsed(cmd, if |left| < |cmd| then left else left[..|cmd| - 1])
  {
    FirstSpaceNone(cmd);
    var n := |cmd| - 1;
    assert forall i :: 0 <= i < |left| ==> stale[i] == left[i];
    assert stale[|left|] == NUL;
    if |left| < n {
      CStringIs(stale[..n], |left|);
      assert stale[..n][..|left|] == left;
    } else {
      CStringAll(stale[..n]);
      assert stale[..n] == left[..n];
    }
  }

  lemma {:induction false} CStringAll(s: seq<byte>)
    requires NUL !in s
    ensures CString(s) == s
  {
    if s != [] { CStringAll(s[1..]); }
  }

  // ----- the code -----

  /** The command as a C string: `cmd` and then a NUL. */
  function At(cmd: seq<byte>, i: nat): byte
    requires i <= |cmd|
  {
    if i < |cmd| then cmd[i] else NUL
  }

  /** The parse loop. Where the source would store outside a buffer the model stops with `ok` false. */
  method ParseCommand(cmd: seq<byte>, fname: array<byte>, fargs: array<byte>) returns (code: int, ok: bool)
    requires NUL !in cmd && fname.Length == 32 && fargs.Length == 128 && fname != fargs
    modifies fname, fargs
    ensures ok <==> !Split(cmd, old(fargs[..])).Overrun?
    ensures ok ==> code == if Split(cmd, old(fargs[..])).Refused? then -1 else 0
    ensures ok && code == 0 ==> Split(cmd, old(fargs[..])) == Parsed(CString(fname[..]), CString(fargs[..]))
  {
    ghost var k, stale := FirstSpace(cmd), fargs[..];
    FirstSpaceFound(cmd);
    var i, nameLength, flag := 0, 0, false;
    while At(cmd, i) != NUL
      invariant 0 <= i <= |cmd|
      invariant !flag ==> nameLength == 0 && i <= k && i <= 32 && fargs[..] == stale
      invariant flag ==> nameLength == k && k < i && k <= 31 && i - k - 1 <= 128 && fname[k] == NUL
      invariant forall j :: 0 <= j < i && j < k ==> fname[j] == cmd[j]
      invariant flag ==> forall j :: 0 <= j < i - k - 1 ==> fargs[j] == cmd[k + 1 + j]
      decreases |cmd| - i
    {
      if cmd[i] == SPACE && !flag {
        if i >= 32 { return 0, false; }
        flag := true;
        nameLength := i;
        fname[i] := NUL;
      } else if flag {
        if i - nameLength - 1 >= 128 { return 0, false; }
        fargs[i - nameLength - 1] := cmd[i];
      } else if i >= 32 {
        return -1, true;
      } else {
        fname[i] := cmd[i];
      }
      i := i + 1;
    }
    if i - nameLength - 1 < 0 || i - nameLength - 1 >= 128 { return 0, false; }
    fargs[i - nameLength - 1] := NUL;
    if !flag {
      if i >= 32 { return 0, false; }
      fname[i] := NUL;
    }
    Finish(cmd, k, stale, fname[..], fargs[..]);
    return 0, true;
  }

  /** What the filled buffers hold as C strings. */
  lemma Finish(cmd: seq<byte>, k: nat, stale: seq<byte>, fname: seq<byte>, fargs: seq<byte>)
    requires NUL !in cmd && k == FirstSpace(cmd) && k <= 31 && |fname| == 32 && |fargs| == |stale| == 128
    requires fname[k] == NUL && forall j :: 0 <= j < k ==> fname[j] == cmd[j]
    requires k < |cmd| ==> |cmd| - k - 1 <= 127 && fargs[|cmd| - k - 1] == NUL
                           && forall j :: 0 <= j < |cmd| - k - 1 ==> fargs[j] == cmd[k + 1 + j]
    requires k == |cmd| ==> k > 0 && fargs == stale[k - 1 := NUL]
    ensures Split(cmd, stale) == Parsed(CString(fname), CString(fargs))
  {
    assert CString(fname) == cmd[..k] by {
      CStringIs(fname, k);
      assert fname[..k] == cmd[..k];
    }
    if k < |cmd| {
      assert CString(fargs) == cmd[k + 1..] by { FinishArgs(cmd[k + 1..], fargs); }
    } else {
      assert cmd[..k] == cmd;
      CStringCut(stale, fargs, k - 1);
    }
  }

  lemma FinishArgs(args: seq<byte>, fargs: seq<byte>)
    requires NUL !in args && |args| < |fargs| && fargs[|args|] == NUL
    requires forall j :: 0 <= j < |args| ==> fargs[j] == args[j]
    ensures CString(fargs) == args
  {
    CStringIs(fargs, |args|);
    assert fargs[..|args|] == args;
  }

  lemma {:induction false} CStringCut(s: seq<byte>, t: seq<byte>, n: nat)
    requires n < |s| == |t| && t == s[n := NUL]
    ensures CString(t) == CString(s[..n])
  {
    if n == 0 {
      assert s[..0] == [];
    } else if s[0] != NUL {
      assert t[1..] == s[1..][n - 1 := NUL];
      CStringCut(s[1..], t[1..], n - 1);
      assert s[..n][1..] == s[1..][..n - 1];
    }
  }

  // ----- the PCB and getargs -----

  const ARGS_SIZE: nat := 100

  /** What getargs does: None is -1, otherwise the bytes stored through the caller's pointer. */
  function GetArgs(args: seq<byte>, nbytes: int): (r: Option<seq<byte>>)
    requires -0x8000_0000 <= nbytes < 0x8000_0000
  {
    if nbytes == 0 then None
    else if |args| > AsUnsigned(nbytes) then None
    else Some(args + [NUL])
  }

  /** The string length is unsigned, so the comparison with a negative size is unsigned too. */
  function AsUnsigned(n: int): nat
    requires -0x8000_0000 <= n < 0x8000_0000
  {
    if n < 0 then n + 0x1_0000_0000 else n
  }

  /**
   * A size of zero, or a positive one below the length, is refused. There is a success that stays within
   * the caller's buffer exactly when the size exceeds the length; at equality one byte is stored past it.
   * A negative size is never refused.
   */
  lemma GetArgsFitsIff(args: seq<byte>, nbytes: int)
    requires -0x8000_0000 <= nbytes < 0x8000_0000 && |args| < ARGS_SIZE
    ensures GetArgs(args, nbytes).None? <==> nbytes == 0 || 0 < nbytes < |args|
    ensures (GetArgs(args, nbytes).Some? && |GetArgs(args, nbytes).value| <= nbytes) <==> nbytes > |args|
    ensures GetArgs(args, nbytes).Some? && |GetArgs(args, nbytes).value| > nbytes <==>
            (nbytes == |args| && nbytes != 0) || nbytes < 0
  {
  }

  /** Where the arguments of a command end up: with the child, nowhere, or outside a buffer on the way. */
  datatype Arrival = Arrives(args: seq<byte>) | Rejected | Overruns

  /** The parse loop, the strcpy into the PCB's field, and the child's getargs into a buffer of `nbytes`. */
  function Arrive(cmd: seq<byte>, stale: seq<byte>, nbytes: int): (r: Arrival)
    requires |stale| == 128 && -0x8000_0000 <= nbytes < 0x8000_0000
  {
    match Split(cmd, stale)
    case Refused => Rejected
    case Overrun => Overruns
    case Parsed(_, args) =>
      if |args| >= ARGS_SIZE then Overruns
      else match GetArgs(args, nbytes)
        case None => Rejected
        case Some(stored) => if |stored| > nbytes then Overruns else Arrives(CString(stored))
  }

  lemma {:induction false} CStringWhole(s: seq<byte>)
    requires NUL !in s
    ensures CString(s + [NUL]) == s
  {
    CStringIs(s + [NUL], |s|);
    assert (s + [NUL])[..|s|] == s;
  }

  /**
   * What follows the first space of a command reaches the child, whole and inside every buffer on the
   * way, if and only if at most 31 bytes precede the space, at most 99 follow it, and the child asks
   * for more than that many. Nothing reaches it, and nothing is overrun, if and only if more than 32
   * precede it, or the child asks for none or for fewer than there are.
   */
  lemma ArgsArriveIff(cmd: seq<byte>, stale: seq<byte>, nbytes: int)
    requires |stale| == 128 && NUL !in cmd && FirstSpace(cmd) < |cmd| && -0x8000_0000 <= nbytes < 0x8000_0000
    ensures var k := FirstSpace(cmd); var args, r := cmd[k + 1..], Arrive(cmd, stale, nbytes);
            && (r == Arrives(args) <==> k <= 31 && |args| < ARGS_SIZE && |args| < nbytes)
            && (r == Rejected <==>
                k > 32 || (k <= 31 && |args| < ARGS_SIZE && (nbytes == 0 || 0 < nbytes < |args|)))
            && (r.Arrives? ==> r.args == args)
  {
    var args := cmd[FirstSpace(cmd) + 1..];
    CStringWhole(args);
  }

  /** strcpy up to and including the NUL at `n`; `ok` is false if that does not fit. */
  method Strcpy(dst: array<byte>, src: array<byte>, ghost n: nat) returns (ok: bool)
    requires dst != src && n < src.Length
    requires src[n] == NUL && forall i :: 0 <= i < n ==> src[i] != NUL
    modifies dst
    ensures ok <==> n < dst.Length
    ensures ok ==> forall i :: 0 <= i < dst.Length ==> dst[i] == if i <= n then src[i] else old(dst[i])
  {
    var i := 0;
    while src[i] != NUL
      invariant 0 <= i <= n && i <= dst.Length
      invariant forall j :: 0 <= j < dst.Length ==> dst[j] == if j < i then src[j] else old(dst[j])
      decreases n - i
    {
      if i == dst.Length { return false; }
      dst[i] := src[i];
      i := i + 1;
    }
    if i == dst.Length { return false; }
    dst[i] := NUL;
    return true;
  }

  /** The arguments of a process, as its PCB keeps them. */
  class ArgsField {
    const args: array<byte>
    ghost var length: nat

    ghost predicate Valid()
      reads this, args
    {
      args.Length == ARGS_SIZE && length < ARGS_SIZE && args[length] == NUL
      && forall i :: 0 <= i < length ==> args[i] != NUL
    }

    constructor ()
      ensures Valid() && CString(args[..]) == []
    {
      args := new byte[ARGS_SIZE](i => NUL);
      length := 0;
    }

    /** The strcpy in execute, of an argument string of length `n`. */
    method Store(fargs: array<byte>, ghost n: nat) returns (ok: bool)
      requires args.Length == ARGS_SIZE && fargs != args && n < fargs.Length
      requires fargs[n] == NUL && forall i :: 0 <= i < n ==> fargs[i] != NUL
      modifies this`length, args
      ensures ok <==> n < ARGS_SIZE
      ensures ok ==> Valid() && CString(args[..]) == CString(fargs[..])
    {
      ok := Strcpy(args, fargs, n);
      if !ok { return; }
      length := n;
      CStringIs(args[..], n);
      CStringIs(fargs[..], n);
      assert args[..][..n] == fargs[..][..n];
    }

    /** syscall_getargs; `ok` is false if the string and its NUL do not fit the caller's buffer. */
    method Get(buf: array<byte>, nbytes: int) returns (code: int, ok: bool)
      requires Valid() && buf != args && -0x8000_0000 <= nbytes < 0x8000_0000
      modifies buf
      ensures code == if GetArgs(CString(args[..]), nbytes).None? then -1 else 0
      ensures code == -1 ==> ok && buf[..] == old(buf[..])
      ensures code == 0 ==> (ok <==> |GetArgs(CString(args[..]), nbytes).value| <= buf.Length)
      ensures code == 0 && ok ==> CString(buf[..]) == CString(args[..])
    {
      CStringIs(args[..], length);
      if nbytes == 0 { return -1, true; }
      var n := 0;
      while args[n] != NUL
        invariant 0 <= n <= length
        decreases length - n
      {
        n := n + 1;
      }
      if n > AsUnsigned(nbytes) { return -1, true; }
      code := 0;
      ok := Strcpy(buf, args, n);
      if !ok { return; }
      CStringIs(buf[..], n);
      assert buf[..][..n] == args[..][..n];
    }
  }
}
