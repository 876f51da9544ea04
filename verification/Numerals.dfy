/** Numerals of machine words (student-distrib/lib.c, syscalls/ece391support.c). */
module Numerals {
  import opened Bytes

  const ZERO: Byte := 48

  /** The entry of the lookup table for a digit: 0-9, then A-Z. */
  function Digit(d: nat): Byte
    requires d < 36
  {
    if d < 10 then 48 + d else 55 + d
  }

  /** The lookup table. */
  lemma DigitTable(d: nat)
    requires d < 36
    ensures Digit(d) == "0123456789ABCDEFGHIJKLMNOPQRSTUVWXYZ"[d] as int
  {
  }

  /** What a character counts for as a digit; 36 for one that is not. */
  function DigitValue(b: Byte): nat {
    if 48 <= b < 58 then b - 48 else if 65 <= b < 91 then b - 55 else 36
  }

  predicate Radix(radix: nat) {
    2 <= radix <= 36
  }

  /** The digits of a value, highest first; none for 0. */
  function Digits(value: nat, radix: nat): seq<Byte>
    requires Radix(radix)
  {
    if value == 0 then [] else Digits(value / radix, radix) + [Digit(value % radix)]
  }

  function Numeral(value: nat, radix: nat): seq<Byte>
    requires Radix(radix)
  {
    if value == 0 then [ZERO] else Digits(value, radix)
  }

  /** The value of a string of digits. */
  function Evaluated(s: seq<Byte>, radix: nat): nat {
    if s == [] then 0 else Evaluated(s[..|s| - 1], radix) * radix + DigitValue(s[|s| - 1])
  }

  predicate AllDigits(s: seq<Byte>, radix: nat) {
    forall i :: 0 <= i < |s| ==> DigitValue(s[i]) < radix
  }

  /** A string of digits with no zero in front, other than 0 itself. */
  predicate Proper(s: seq<Byte>, radix: nat) {
    s != [] && AllDigits(s, radix) && (s[0] == ZERO ==> |s| == 1)
  }

  lemma {:induction false} DigitsEvaluate(value: nat, radix: nat)
    requires 2 <= radix <= 36
    ensures var s := Digits(value, radix);
      AllDigits(s, radix) && Evaluated(s, radix) == value && (s != [] ==> s[0] != ZERO) && (s == [] <==> value == 0)
  {
    if value != 0 {
      Shrinks(value, radix);
      DigitsEvaluate(value / radix, radix);
      LowestDigit(value, radix);
      var q, d := value / radix, value % radix;
      if q == 0 { assert q * radix == 0; }
      hide Digits, Evaluated;
      EvaluatedMore(Digits(q, radix), Digit(d), radix);
    }
  }

  lemma LowestDigit(value: nat, radix: nat)
    requires Radix(radix) && value > 0 && 0 <= value / radix < value && 0 <= value % radix < radix
    ensures Digits(value, radix) == Digits(value / radix, radix) + [Digit(value % radix)]
  {
  }

  lemma EvaluatedMore(s: seq<Byte>, b: Byte, radix: nat)
    ensures Evaluated(s + [b], radix) == Evaluated(s, radix) * radix + DigitValue(b)
  {
  }

  lemma Shrinks(v: nat, radix: nat)
    requires Radix(radix) && v > 0
    ensures 0 <= v / radix < v && 0 <= v % radix < radix && v == v / radix * radix + v % radix
  {
  }

  lemma {:induction false} DigitsAreUnique(s: seq<Byte>, radix: nat)
    requires Radix(radix) && AllDigits(s, radix) && (s != [] ==> s[0] != ZERO)
    ensures Digits(Evaluated(s, radix), radix) == s && (s != [] ==> Evaluated(s, radix) > 0)
  {
    if s != [] {
      var t, d := s[..|s| - 1], DigitValue(s[|s| - 1]);
      DigitsAreUnique(t, radix);
      Appended(Evaluated(t, radix), d, radix);
      assert t != [] ==> t[0] == s[0];
      assert Digit(d) == s[|s| - 1] && s == t + [s[|s| - 1]];
    }
  }

  lemma Appended(v: nat, d: nat, radix: nat)
    requires d < radix
    ensures (v * radix + d) / radix == v && (v * radix + d) % radix == d
    ensures v > 0 || d > 0 ==> v * radix + d > 0
  {
    ModIs(v * radix + d, radix, v, d);
    if v > 0 { Times(radix, 1, v); }
  }

  lemma QuotientBelow(value: nat, radix: nat, p: nat)
    requires radix > 0 && value < radix * p
    ensures value / radix < p
  {
  }

  /** The numeral of a value is the one string of digits without a leading zero that evaluates to it. */
  lemma NumeralIsUnique(s: seq<Byte>, value: nat, radix: nat)
    requires 2 <= radix <= 36
    ensures Proper(s, radix) && Evaluated(s, radix) == value <==> s == Numeral(value, radix)
  {
    DigitsEvaluate(value, radix);
    if Proper(s, radix) && Evaluated(s, radix) == value {
      if s[0] == ZERO {
        assert s == [ZERO];
      } else {
        DigitsAreUnique(s, radix);
      }
    }
  }

  function Power(base: nat, n: nat): nat {
    if n == 0 then 1 else base * Power(base, n - 1)
  }

  lemma {:induction false} DigitsFit(value: nat, radix: nat, n: nat)
    requires Radix(radix) && value < Power(radix, n)
    ensures |Digits(value, radix)| <= n
    decreases n
  {
    if n == 0 {
      assert value == 0;
    } else if value != 0 {
      QuotientBelow(value, radix, Power(radix, n - 1));
      DigitsFit(value / radix, radix, n - 1);
    }
  }

  lemma {:induction false} PowersGrow(radix: nat, n: nat)
    requires Radix(radix)
    ensures Power(2, n) <= Power(radix, n)
  {
    if n > 0 {
      PowersGrow(radix, n - 1);
      Times(radix, Power(2, n - 1), Power(radix, n - 1));
      Times(Power(2, n - 1), 2, radix);
    }
  }

  /** A word has at most 32 digits, and at most 8 in base 16. */
  lemma WordsFit(value: U32, radix: nat)
    requires 2 <= radix <= 36
    ensures 1 <= |Numeral(value, radix)| <= 32 && |Numeral(value, 16)| <= 8
  {
    DigitsEvaluate(value, radix);
    assert Power(2, 8) == 256;
    assert Power(2, 16) == 65536;
    assert Power(2, 24) == 16777216;
    assert Power(2, 32) == TWO_32;
    PowersGrow(radix, 32);
    DigitsFit(value, radix, 32);
    assert Power(16, 4) == 65536;
    assert Power(16, 8) == TWO_32;
    DigitsFit(value, 16, 8);
  }

  // ---- writing a numeral into a buffer ----

  function Reversed(s: seq<Byte>): (r: seq<Byte>)
    ensures |r| == |s|
  {
    seq(|s|, i requires 0 <= i < |s| => s[|s| - 1 - i])
  }

  /** `strlen` of the string at `at`. */
  method Strlen(buf: array<Byte>, at: nat) returns (n: nat)
    requires at <= buf.Length && NUL in buf[at..]
    ensures n == IndexOf(buf[at..], NUL) && at + n < buf.Length
  {
    ghost var end := IndexOf(buf[at..], NUL);
    assert end < |buf[at..]|;
    n := 0;
    while buf[at + n] != NUL
      invariant n <= end
      decreases end - n
    {
      assert buf[at..][n] == buf[at + n];
      n := n + 1;
    }
    assert buf[at..][n] == buf[at + n];
  }

  /** `strrev`: reverses the string at `at` in place. */
  method Strrev(buf: array<Byte>, at: nat)
    requires at <= buf.Length && NUL in buf[at..]
    modifies buf
    ensures buf[..] == Splice(old(buf[..]), at, Reversed(old(CString(buf[at..]))))
  {
    hide Reversed, Splice, IndexOf;
    var n := Strlen(buf, at);
    assert CString(buf[at..]) == buf[..][at..at + n];
    var beg: nat, end: int := 0, n as int - 1;
    while beg < end
      invariant 0 <= beg <= n && beg + end + 1 == n && beg <= end + 1
      invariant forall i :: 0 <= i < buf.Length && !(at <= i < at + beg) && !(at + end < i < at + n) ==>
        buf[i] == old(buf[i])
      invariant forall i :: at <= i < at + beg || at + end < i < at + n ==> buf[i] == old(buf[2 * at + n - 1 - i])
    {
      var tmp := buf[at + end];
      buf[at + end] := buf[at + beg];
      buf[at + beg] := tmp;
      beg := beg + 1;
      end := end - 1;
    }
    ReversedIs(old(buf[..]), buf[..], at, n);
  }

  lemma ReversedIs(was: seq<Byte>, now: seq<Byte>, at: nat, n: nat)
    requires at + n <= |was| == |now|
    requires forall i :: 0 <= i < |was| && !(at <= i < at + n) ==> now[i] == was[i]
    requires forall i :: at <= i < at + n ==> now[i] == was[2 * at + n - 1 - i]
    ensures now == Splice(was, at, Reversed(was[at..at + n]))
  {
  }

  /** The digits of a value, lowest first. */
  ghost function EmittedDigits(value: nat, radix: nat): seq<Byte>
    requires Radix(radix)
  {
    Reversed(Digits(value, radix))
  }

  /** The loop of `itoa`: the digits, lowest first. */
  method EmitDigits(value: U32, buf: array<Byte>, at: nat, radix: nat) returns (newbuf: nat)
    requires Radix(radix) && value > 0 && at + |Digits(value, radix)| < buf.Length
    modifies buf
    ensures newbuf == at + |Digits(value, radix)|
    ensures buf[..] == Splice(old(buf[..]), at, EmittedDigits(value, radix))
  {
    hide Splice, Digits, Reversed, Digit;
    var newval: nat;
    newbuf, newval := at, value;
    ghost var emitted: seq<Byte> := [];
    SpliceNothing(buf[..], at);
    NothingEmitted(value, radix);
    while newval > 0
      invariant newbuf == at + |emitted| && at + |emitted| + |Digits(newval, radix)| < buf.Length
      invariant Digits(value, radix) == Digits(newval, radix) + Reversed(emitted)
      invariant buf[..] == Splice(old(buf[..]), at, emitted)
      decreases newval
    {
      Shrinks(newval, radix);
      LowestDigit(newval, radix);
      var i := newval % radix;
      EmittedMore(Digits(value, radix), Digits(newval / radix, radix), Digit(i), emitted);
      SpliceOneMore(old(buf[..]), at, emitted, Digit(i));
      buf[newbuf] := Digit(i);
      emitted := emitted + [Digit(i)];
      newbuf := newbuf + 1;
      newval := newval / radix;
    }
    AllEmitted(value, radix, emitted);
  }

  lemma NothingEmitted(value: nat, radix: nat)
    requires Radix(radix)
    ensures Digits(value, radix) == Digits(value, radix) + Reversed([])
  {
  }

  lemma AllEmitted(value: nat, radix: nat, emitted: seq<Byte>)
    requires Radix(radix) && Digits(value, radix) == Digits(0, radix) + Reversed(emitted)
    ensures emitted == EmittedDigits(value, radix) && |emitted| == |Digits(value, radix)|
  {
  }

  lemma ReversedTwice(s: seq<Byte>)
    ensures Reversed(Reversed(s)) == s
  {
  }

  /** `itoa`: writes the digits lowest first, ends the string and reverses it. */
  method Itoa(value: U32, buf: array<Byte>, at: nat, radix: nat)
    requires 2 <= radix <= 36 && at + |Numeral(value, radix)| < buf.Length
    modifies buf
    ensures buf[..] == Splice(old(buf[..]), at, Numeral(value, radix) + [NUL])
  {
    if value == 0 {
      ZeroEmitted(buf[..], at, radix);
      buf[at] := 48;
      buf[at + 1] := 0;
      return;
    }
    DigitsEvaluate(value, radix);
    hide Splice, Digits, Reversed, CString;
    ghost var emitted := EmittedDigits(value, radix);
    var newbuf := EmitDigits(value, buf, at, radix);
    SpliceOneMore(old(buf[..]), at, emitted, NUL);
    buf[newbuf] := NUL;
    EmittedAreDigits(value, radix);
    StringEmitted(old(buf[..]), at, emitted, radix);
    ReversedTwice(Digits(value, radix));
    Strrev(buf, at);
  }

  lemma EmittedAreDigits(value: nat, radix: nat)
    requires Radix(radix)
    ensures var e := EmittedDigits(value, radix); AllDigits(e, radix) && |e| == |Digits(value, radix)|
  {
    DigitsEvaluate(value, radix);
  }

  lemma ZeroEmitted(was: seq<Byte>, at: nat, radix: nat)
    requires Radix(radix) && at + 1 < |was|
    ensures Splice(was, at, Numeral(0, radix) + [NUL]) == was[at := 48][at + 1 := 0]
  {
  }

  lemma EmittedMore(whole: seq<Byte>, left: seq<Byte>, b: Byte, emitted: seq<Byte>)
    requires whole == left + [b] + Reversed(emitted)
    ensures whole == left + Reversed(emitted + [b])
  {
  }

  lemma SpliceOneMore(was: seq<Byte>, at: nat, s: seq<Byte>, b: Byte)
    requires at + |s| < |was|
    ensures Splice(was, at, s)[at + |s| := b] == Splice(was, at, s + [b])
  {
  }

  lemma StringEmitted(was: seq<Byte>, at: nat, s: seq<Byte>, radix: nat)
    requires at + |s| < |was| && AllDigits(s, radix) && Radix(radix)
    ensures var m := Splice(was, at, s + [NUL]);
      NUL in m[at..] && CString(m[at..]) == s
      && Splice(m, at, Reversed(s)) == Splice(was, at, Reversed(s) + [NUL])
  {
    var m := Splice(was, at, s + [NUL]);
    assert m[at..][|s|] == NUL && m[at..][..|s|] == s;
    CStringIs(m[at..], |s|);
  }

  lemma PaddedString(m: seq<Byte>, start: nat, s: seq<Byte>, radix: nat)
    requires Radix(radix) && start <= 8 && 8 + |s| < |m| && (forall i :: start <= i < 8 ==> m[i] == ZERO)
    requires m[8..8 + |s|] == s && m[8 + |s|] == NUL && AllDigits(s, radix)
    ensures var r := CString(m[start..]);
      |r| == 8 - start + |s| && AllDigits(r, radix) && Evaluated(r, radix) == Evaluated(s, radix)
  {
    var r := m[start..8 + |s|];
    assert m[start..][..|r|] == r && m[start..][|r|] == NUL;
    assert forall i :: 8 <= i < 8 + |s| ==> m[i] == s[i - 8];
    CStringIs(m[start..], |r|);
    assert r == m[start..8] + s;
    ZerosInFront(m[start..8], s, radix);
  }

  lemma {:induction false} ZerosInFront(zeros: seq<Byte>, s: seq<Byte>, radix: nat)
    requires forall i :: 0 <= i < |zeros| ==> zeros[i] == ZERO
    ensures Evaluated(zeros + s, radix) == Evaluated(s, radix)
    decreases |zeros| + |s|
  {
    if s != [] {
      assert (zeros + s)[..|zeros| + |s| - 1] == zeros + s[..|s| - 1];
      ZerosInFront(zeros, s[..|s| - 1], radix);
    } else if zeros != [] {
      assert zeros + s == zeros && zeros[..|zeros| - 1] + [] == zeros[..|zeros| - 1];
      ZerosInFront(zeros[..|zeros| - 1], [], radix);
    }
  }

  /** `%#x`: the string shown for a word has exactly 8 digits of base 16, and evaluates to the word. */
  method Hexadecimal(value: U32) returns (shown: seq<Byte>)
    ensures |shown| == 8 && AllDigits(shown, 16) && Evaluated(shown, 16) == value
  {
    hide Numeral, Splice, Evaluated;
    var convBuf := new Byte[64](_ => 0);
    WordsFit(value, 16);
    NumeralIsUnique(Numeral(value, 16), value, 16);
    ghost var numeral := Numeral(value, 16);
    StringStored(convBuf[..], 8, numeral);
    Itoa(value, convBuf, 8, 16);
    assert convBuf[8..] == convBuf[..][8..];
    var start := Strlen(convBuf, 8);
    var i := start;
    ghost var written := convBuf[8..];
    while i < 8
      invariant start <= i <= 8
      invariant forall j :: start <= j < i ==> convBuf[j] == ZERO
      invariant convBuf[8..] == written
    {
      convBuf[i] := ZERO;
      i := i + 1;
    }
    assert convBuf[..][8..8 + |numeral|] == written[..|numeral|];
    PaddedString(convBuf[..], start, numeral, 16);
    assert convBuf[start..] == convBuf[..][start..];
    shown := CString(convBuf[start..]);
  }

  lemma StringStored(was: seq<Byte>, at: nat, s: seq<Byte>)
    requires at + |s| < |was| && AllDigits(s, 16)
    ensures var m := Splice(was, at, s + [NUL]);
      && NUL in m[at..] && IndexOf(m[at..], NUL) == |s|
      && m[at..][..|s|] == s && m[at..][|s|] == NUL
  {
    var m := Splice(was, at, s + [NUL]);
    assert m[at..][..|s|] == s && m[at..][|s|] == NUL;
    assert forall i :: 0 <= i < |s| ==> m[at..][i] == s[i];
    IndexOfIs(m[at..], NUL, |s|);
  }
}
