/** Number printing (lib/lib.c): itoa with its in-place reversal, and the %x, %#x, %u and %d cases of printf. */
module Numbers {
  import opened Bytes
  import opened Arithmetic

  const ZERO: byte := 48
  const MINUS: byte := 45

  ghost predicate Radix(r: int) { 2 <= r <= 36 }

  /** The entry of itoa's lookup table: 0 to 9, then A to Z. */
  function Digit(d: nat): (c: byte)
    requires d < 36
  {
    if d < 10 then 48 + d else 55 + d
  }

  predicate IsDigit(c: byte, radix: nat) {
    (48 <= c < 58 && c - 48 < radix) || (65 <= c < 91 && c - 55 < radix)
  }

  /** What a digit stands for. */
  function Value(c: byte): nat {
    if 48 <= c < 58 then c - 48 else if 65 <= c < 91 then c - 55 else 0
  }

  /** The number a string of digits denotes. */
  function Parse(s: seq<byte>, radix: nat): nat {
    if s == [] then 0 else Parse(s[..|s| - 1], radix) * radix + Value(s[|s| - 1])
  }

  /** Quotient and remainder by repeated subtraction, which keeps division by a variable out of the proofs. */
  function Quotient(v: nat, radix: nat): (q: nat)
    requires radix >= 2
    ensures q <= v / 2 && (v > 0 ==> q < v)
  {
    if v < radix then 0 else 1 + Quotient(v - radix, radix)
  }

  function Remainder(v: nat, radix: nat): (r: nat)
    requires radix >= 2
    ensures r < radix && (v < radix ==> r == v)
  {
    if v < radix then v else Remainder(v - radix, radix)
  }

  lemma {:induction false} Recombined(v: nat, radix: nat)
    requires radix >= 2
    ensures v == Quotient(v, radix) * radix + Remainder(v, radix)
  {
    if v >= radix {
      Recombined(v - radix, radix);
      assert Quotient(v, radix) * radix == Quotient(v - radix, radix) * radix + radix;
    }
  }

  /** They are what the processor's division computes. */
  lemma {:induction false} DivisionIs(v: nat, radix: nat)
    requires radix >= 2
    ensures v / radix == Quotient(v, radix) && v % radix == Remainder(v, radix)
  {
    Recombined(v, radix);
    DivisionUnique(v, radix, Quotient(v, radix), Remainder(v, radix));
  }

  method DivideBy(v: nat, radix: nat) returns (q: nat, r: nat)
    requires radix >= 2
    ensures q == Quotient(v, radix) && r == Remainder(v, radix)
  {
    DivisionIs(v, radix);
    q, r := v / radix, v % radix;
  }

  /** The digits of a positive number, lowest place first, as the conversion loop produces them. */
  function LowFirst(v: nat, radix: nat): (s: seq<byte>)
    requires Radix(radix)
  {
    if v == 0 then [] else [Digit(Remainder(v, radix))] + LowFirst(Quotient(v, radix), radix)
  }

  function Reversed(s: seq<byte>): (r: seq<byte>)
    ensures |r| == |s|
  {
    if s == [] then [] else Reversed(s[1..]) + [s[0]]
  }

  /** The numeral itoa leaves in the buffer. */
  function Numeral(v: nat, radix: nat): (s: seq<byte>)
    requires Radix(radix)
  {
    if v == 0 then [ZERO] else Reversed(LowFirst(v, radix))
  }

  // ----- numerals denote -----

  lemma {:induction false} ParseReversed(v: nat, radix: nat)
    requires Radix(radix)
    ensures Parse(Reversed(LowFirst(v, radix)), radix) == v
  {
    if v > 0 {
      Recombined(v, radix);
      ParseReversed(Quotient(v, radix), radix);
      var high := Reversed(LowFirst(Quotient(v, radix), radix));
      var s := high + [Digit(Remainder(v, radix))];
      assert LowFirst(v, radix)[1..] == LowFirst(Quotient(v, radix), radix);
      assert Reversed(LowFirst(v, radix)) == s;
      assert s[..|s| - 1] == high;
    }
  }

  lemma {:induction false} LowFirstDigits(v: nat, radix: nat)
    requires Radix(radix)
    ensures forall i :: 0 <= i < |LowFirst(v, radix)| ==> IsDigit(LowFirst(v, radix)[i], radix)
    ensures v > 0 ==> |LowFirst(v, radix)| > 0 && LowFirst(v, radix)[|LowFirst(v, radix)| - 1] != ZERO
  {
    if v > 0 {
      LowFirstDigits(Quotient(v, radix), radix);
    }
  }

  function Pow2(n: nat): nat { if n == 0 then 1 else 2 * Pow2(n - 1) }

  lemma {:induction false} LowFirstLength(v: nat, radix: nat, n: nat)
    requires Radix(radix) && v < Pow2(n)
    ensures |LowFirst(v, radix)| <= n
  {
    if v > 0 {
      LowFirstLength(Quotient(v, radix), radix, n - 1);
    }
  }

  lemma {:induction false} ReversedAt(s: seq<byte>, k: nat)
    requires k < |s|
    ensures Reversed(s)[k] == s[|s| - 1 - k]
  {
    if k < |s| - 1 { ReversedAt(s[1..], k); }
  }

  lemma Pow2Of32()
    ensures Pow2(32) == 0x1_0000_0000
  {
    assert Pow2(8) == 256;
    assert Pow2(16) == 0x1_0000;
    assert Pow2(24) == 0x100_0000;
  }

  lemma NumeralShape(v: nat, radix: nat)
    requires Radix(radix) && v < 0x1_0000_0000
    ensures var s := Numeral(v, radix);
            1 <= |s| <= 32 && (forall i :: 0 <= i < |s| ==> IsDigit(s[i], radix)) && (v > 0 ==> s[0] != ZERO)
  {
    if v > 0 {
      LowFirstDigits(v, radix);
      Pow2Of32();
      LowFirstLength(v, radix, 32);
      var low := LowFirst(v, radix);
      forall i | 0 <= i < |low| ensures Reversed(low)[i] == low[|low| - 1 - i] { ReversedAt(low, i); }
    }
  }

  /**
   * For every 32-bit value and radix 2 to 36 the numeral reads back as the value, consists of digits
   * of the radix, has no leading zero unless it is "0" itself, and has at most 32 digits.
   */
  lemma NumeralDenotes(v: nat, radix: nat)
    requires Radix(radix) && v < 0x1_0000_0000
    ensures var s := Numeral(v, radix);
            && Parse(s, radix) == v && 1 <= |s| <= 32
            && (forall i :: 0 <= i < |s| ==> IsDigit(s[i], radix))
            && (v > 0 ==> s[0] != ZERO)
  {
    NumeralShape(v, radix);
    if v == 0 {
      assert [ZERO][..0] == [];
    } else {
      ParseReversed(v, radix);
    }
  }

  // ----- the code -----

  /** strlen(buf + at). */
  method Strlen(buf: array<byte>, at: nat, ghost end: nat) returns (n: nat)
    requires at <= end < buf.Length && buf[end] == NUL && forall k :: at <= k < end ==> buf[k] != NUL
    ensures at + n == end
  {
    n := 0;
    while buf[at + n] != NUL
      invariant at + n <= end
      decreases end - n
    {
      n := n + 1;
    }
  }

  /** The loop of strrev: exchange the cells from both ends of `buf[at..at + n]`. */
  method SwapEnds(buf: array<byte>, at: nat, n: nat)
    requires at + n <= buf.Length
    modifies buf
    ensures forall k :: at <= k < at + n ==> buf[k] == old(buf[at + (at + n) - 1 - k])
    ensures forall k :: 0 <= k < buf.Length && !(at <= k < at + n) ==> buf[k] == old(buf[k])
  {
    ghost var was, end := buf[..], at + n;
    var i: int, j: int := 0, n - 1;
    while i < j
      invariant 0 <= i <= n && j == n - 1 - i && i <= j + 2
      invariant forall k :: at <= k < at + i ==> buf[k] == was[at + end - 1 - k]
      invariant forall k :: end - i <= k < end ==> buf[k] == was[at + end - 1 - k]
      invariant forall k :: at + i <= k < end - i ==> buf[k] == was[k]
      invariant forall k :: 0 <= k < buf.Length && !(at <= k < end) ==> buf[k] == was[k]
    {
      var tmp := buf[at + j];
      buf[at + j] := buf[at + i];
      buf[at + i] := tmp;
      i := i + 1;
      j := j - 1;
    }
  }

  /** strrev(buf + at), in place. */
  method Strrev(buf: array<byte>, at: nat, ghost end: nat)
    requires at <= end < buf.Length && buf[end] == NUL && forall k :: at <= k < end ==> buf[k] != NUL
    modifies buf
    ensures buf[at..end] == Reversed(old(buf[at..end]))
    ensures forall k :: 0 <= k < buf.Length && !(at <= k < end) ==> buf[k] == old(buf[k])
  {
    ghost var was := buf[at..end];
    var n := Strlen(buf, at, end);
    SwapEnds(buf, at, n);
    forall k | 0 <= k < n ensures buf[at..end][k] == Reversed(was)[k] {
      ReversedAt(was, k);
      assert buf[at + k] == was[n - 1 - k];
    }
  }

  /** The conversion loop: the digits, lowest place first. */
  method WriteLow(value: nat, buf: array<byte>, at: nat, radix: nat) returns (len: nat)
    requires Radix(radix) && at + |LowFirst(value, radix)| <= buf.Length
    modifies buf
    ensures len == |LowFirst(value, radix)|
    ensures forall k :: at <= k < at + len ==> buf[k] == LowFirst(value, radix)[k - at]
    ensures forall k :: 0 <= k < buf.Length && !(at <= k < at + len) ==> buf[k] == old(buf[k])
  {
    ghost var all := LowFirst(value, radix);
    ghost var left := all;
    var rest: nat := value;
    len := 0;
    while rest > 0
      invariant len <= |all| && left == all[len..] && left == LowFirst(rest, radix)
      invariant forall k :: at <= k < at + len ==> buf[k] == all[k - at]
      invariant forall k :: 0 <= k < buf.Length && !(at <= k < at + len) ==> buf[k] == old(buf[k])
      decreases rest
    {
      var q, r := DivideBy(rest, radix);
      assert left[0] == all[len] && left[1..] == all[len + 1..];
      buf[at + len] := Digit(r);
      len := len + 1;
      rest := q;
      left := left[1..];
    }
  }

  /** itoa for a value that is not zero: the digits backwards, a NUL, and the reversal. */
  method ItoaPositive(value: nat, buf: array<byte>, at: nat, radix: nat) returns (len: nat)
    requires 0 < value && Radix(radix) && at + |LowFirst(value, radix)| < buf.Length
    modifies buf
    ensures len == |Numeral(value, radix)| && buf[at..at + len] == Numeral(value, radix) && buf[at + len] == NUL
    ensures forall k :: 0 <= k < buf.Length && !(at <= k <= at + len) ==> buf[k] == old(buf[k])
  {
    ghost var low := LowFirst(value, radix);
    LowFirstDigits(value, radix);
    len := WriteLow(value, buf, at, radix);
    buf[at + len] := NUL;
    forall k | at <= k < at + len ensures buf[k] != NUL { assert IsDigit(low[k - at], radix); }
    assert buf[at..at + len] == low;
    Strrev(buf, at, at + len);
  }

  /** itoa(value, buf + at, radix); the length of the numeral is also returned, for the proofs of its callers. */
  method Itoa(value: nat, buf: array<byte>, at: nat, radix: nat) returns (ghost n: nat)
    requires value < 0x1_0000_0000 && Radix(radix) && at + 33 <= buf.Length
    modifies buf
    ensures n == |Numeral(value, radix)| && 1 <= n <= 32
    ensures forall k :: at <= k < at + n ==> buf[k] == Numeral(value, radix)[k - at] && buf[k] != NUL
    ensures buf[at + n] == NUL
    ensures forall k :: 0 <= k < buf.Length && !(at <= k <= at + n) ==> buf[k] == old(buf[k])
  {
    ghost var numeral := Numeral(value, radix);
    NumeralShape(value, radix);
    if value == 0 {
      buf[at] := ZERO;
      buf[at + 1] := NUL;
      return 1;
    }
    var len := ItoaPositive(value, buf, at, radix);
    forall k | at <= k < at + len ensures buf[k] == numeral[k - at] { assert buf[k] == buf[at..at + len][k - at]; }
    return len;
  }

  // ----- printf -----

  method StringAt(buf: array<byte>, at: nat, ghost end: nat) returns (s: seq<byte>)
    requires at <= end < buf.Length && buf[end] == NUL && forall k :: at <= k < end ==> buf[k] != NUL
    ensures s == buf[at..end]
  {
    var n := Strlen(buf, at, end);
    return buf[at..at + n];
  }

  ghost predicate Digits(s: seq<byte>, radix: nat) {
    forall i :: 0 <= i < |s| ==> IsDigit(s[i], radix)
  }

  /** The %x and %u cases: a plain numeral. */
  method PrintUnsigned(value: nat, radix: nat) returns (out: seq<byte>)
    requires value < 0x1_0000_0000 && Radix(radix)
    ensures out == Numeral(value, radix) && Parse(out, radix) == value && Digits(out, radix)
  {
    NumeralDenotes(value, radix);
    var buf := new byte[64](i => NUL);
    ghost var n := Itoa(value, buf, 0, radix);
    out := PrintJoined(buf, 0, [], Numeral(value, radix));
  }

  function Zeros(n: nat): (z: seq<byte>)
    ensures |z| == n && forall i :: 0 <= i < n ==> z[i] == ZERO
  {
    if n == 0 then [] else Zeros(n - 1) + [ZERO]
  }

  lemma {:induction false} ParseZeros(z: nat, s: seq<byte>, radix: nat)
    ensures Parse(Zeros(z) + s, radix) == Parse(s, radix)
    decreases z + |s|
  {
    var t := Zeros(z) + s;
    if s != [] {
      assert t[..|t| - 1] == Zeros(z) + s[..|s| - 1];
      ParseZeros(z, s[..|s| - 1], radix);
    } else if z > 0 {
      assert t == Zeros(z) && t[..|t| - 1] == Zeros(z - 1) + s;
      ParseZeros(z - 1, s, radix);
    }
  }

  function Pow16(n: nat): nat { if n == 0 then 1 else 16 * Pow16(n - 1) }

  lemma {:induction false} HexLength(v: nat, n: nat)
    requires v < Pow16(n)
    ensures |LowFirst(v, 16)| <= n
  {
    if v > 0 {
      DivisionIs(v, 16);
      HexLength(Quotient(v, 16), n - 1);
    }
  }

  /** A 32-bit value has a hexadecimal numeral of at most eight digits; padded to eight it means the same. */
  lemma HexPadded(v: nat)
    requires v < 0x1_0000_0000
    ensures var s := Numeral(v, 16);
            |s| <= 8 && Digits(Zeros(8 - |s|) + s, 16) && Parse(Zeros(8 - |s|) + s, 16) == v
  {
    NumeralDenotes(v, 16);
    assert Pow16(4) == 0x1_0000;
    assert Pow16(8) == 0x1_0000_0000;
    HexLength(v, 8);
    ParseZeros(8 - |Numeral(v, 16)|, Numeral(v, 16), 16);
  }

  /** The %#x case: always eight hexadecimal digits, and they denote the value. */
  method PrintHex8(value: nat) returns (out: seq<byte>)
    requires value < 0x1_0000_0000
    ensures |out| == 8 && Digits(out, 16) && Parse(out, 16) == value
  {
    HexPadded(value);
    var buf := new byte[64](i => NUL);
    ghost var n := Itoa(value, buf, 8, 16);
    out := PadFront(buf, Numeral(value, 16));
  }

  /** Zeros in front of the string at index 8, so that eight characters are printed. */
  method PadFront(buf: array<byte>, ghost numeral: seq<byte>) returns (out: seq<byte>)
    requires buf.Length == 64 && |numeral| <= 8 && buf[8 + |numeral|] == NUL
    requires forall k :: 8 <= k < 8 + |numeral| ==> buf[k] == numeral[k - 8] && buf[k] != NUL
    modifies buf
    ensures out == Zeros(8 - |numeral|) + numeral
  {
    ghost var n := |numeral|;
    var start := Strlen(buf, 8, 8 + n);
    var i := start;
    while i < 8
      invariant start <= i <= 8
      invariant forall k :: start <= k < i ==> buf[k] == ZERO
      invariant forall k :: 8 <= k < 8 + n ==> buf[k] == numeral[k - 8] && buf[k] != NUL
      invariant buf[8 + n] == NUL
    {
      buf[i] := ZERO;
      i := i + 1;
    }
    out := StringAt(buf, start, 8 + n);
  }

  /** The number a decimal string with an optional minus sign denotes. */
  function ParseSigned(s: seq<byte>): int {
    if s != [] && s[0] == MINUS then 0 - Parse(s[1..], 10) else Parse(s, 10)
  }

  /** Negation of a 32-bit integer, taken as unsigned: at the minimum it wraps to itself, 0x80000000. */
  function NegatedUnsigned(value: int): nat
    requires -0x8000_0000 <= value < 0
  {
    (0x1_0000_0000 - (value + 0x1_0000_0000)) % 0x1_0000_0000
  }

  lemma SignedReads(value: int)
    requires -0x8000_0000 <= value < 0x8000_0000
    ensures value < 0 ==> ParseSigned([MINUS] + Numeral(-value, 10)) == value
    ensures value >= 0 ==> ParseSigned(Numeral(value, 10)) == value
  {
    if value < 0 {
      NumeralDenotes(-value, 10);
      assert ([MINUS] + Numeral(-value, 10))[1..] == Numeral(-value, 10);
    } else {
      NumeralDenotes(value, 10);
    }
  }

  /** The %d case: what is printed reads back as the value, for every 32-bit integer. */
  method PrintSigned(value: int) returns (out: seq<byte>)
    requires -0x8000_0000 <= value < 0x8000_0000
    ensures ParseSigned(out) == value
    ensures out == if value < 0 then [MINUS] + Numeral(-value, 10) else Numeral(value, 10)
  {
    SignedReads(value);
    var buf := new byte[36](i => NUL);
    if value < 0 {
      buf[0] := MINUS;
      assert buf[..1] == [MINUS] && NegatedUnsigned(value) == -value;
      out := PrintBehind(buf, 1, NegatedUnsigned(value));
    } else {
      out := PrintBehind(buf, 0, value);
      assert [] + Numeral(value, 10) == Numeral(value, 10);
    }
  }

  /** The decimal numeral behind the first `at` characters of the buffer, and all of it printed. */
  method PrintBehind(buf: array<byte>, at: nat, value: nat) returns (out: seq<byte>)
    requires buf.Length == 36 && at <= 1 && value < 0x1_0000_0000 && (at == 1 ==> buf[0] != NUL)
    modifies buf
    ensures out == old(buf[..at]) + Numeral(value, 10)
  {
    ghost var prefix := buf[..at];
    ghost var n := Itoa(value, buf, at, 10);
    out := PrintJoined(buf, at, prefix, Numeral(value, 10));
  }

  method PrintJoined(buf: array<byte>, at: nat, ghost prefix: seq<byte>, ghost numeral: seq<byte>)
    returns (out: seq<byte>)
    requires at + |numeral| < buf.Length && prefix == buf[..at] && NUL !in prefix && buf[at + |numeral|] == NUL
    requires forall k :: at <= k < at + |numeral| ==> buf[k] == numeral[k - at] && buf[k] != NUL
    ensures out == prefix + numeral
  {
    assert forall k :: 0 <= k < at ==> buf[k] == prefix[k];
    out := StringAt(buf, 0, at + |numeral|);
  }
}
