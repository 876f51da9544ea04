/** The elapsed time shown in the status bar (student-distrib/terminal.c). */
module Clock {
  import opened Bytes

  function DigitAt(t: seq<Byte>, i: nat): int
    requires i < |t|
  {
    t[i] as int - 48
  }

  /** The time "mm:ss" in seconds. */
  function Seconds(t: seq<Byte>): int
    requires |t| == 5
  {
    600 * DigitAt(t, 0) + 60 * DigitAt(t, 1) + 10 * DigitAt(t, 3) + DigitAt(t, 4)
  }

  /** Every digit is in its range. */
  predicate InRange(t: seq<Byte>) {
    && |t| == 5 && t[2] == 58
    && 0 <= DigitAt(t, 0) < 6 && 0 <= DigitAt(t, 1) < 10 && 0 <= DigitAt(t, 3) < 6 && 0 <= DigitAt(t, 4) < 10
  }

  class SystemTime {
    const sysTime: array<Byte>
    ghost var calls: nat

    /** After any number of calls the digits are in range and show that many seconds, starting over every hour. */
    ghost predicate Valid()
      reads this, sysTime
    {
      sysTime.Length == 5 && InRange(sysTime[..]) && Seconds(sysTime[..]) == calls % 3600
    }

    constructor ()
      ensures Valid() && calls == 0 && fresh(sysTime)
    {
      sysTime := new Byte[5](i => if i == 2 then 58 else 48);
      calls := 0;
    }

    /** `get_system_time`. */
    method Advance()
      requires Valid()
      modifies this, sysTime
      ensures Valid() && calls == old(calls) + 1
      ensures sysTime[..] == TimeAt(calls % 3600)
    {
      hide TimeAt;
      var sec1Flag, sec2Flag, min1Flag := false, false, false;
      sysTime[4] := sysTime[4] + 1;
      if sysTime[4] > 57 {
        sysTime[4] := 48;
        sec1Flag := true;
      }
      if sec1Flag {
        sysTime[3] := sysTime[3] + 1;
        if sysTime[3] > 53 {
          sysTime[3] := 48;
          sec2Flag := true;
        }
      }
      if sec2Flag {
        sysTime[1] := sysTime[1] + 1;
        if sysTime[1] > 57 {
          sysTime[1] := 48;
          min1Flag := true;
        }
      }
      if min1Flag {
        sysTime[0] := sysTime[0] + 1;
        if sysTime[0] > 53 {
          sysTime[0] := 48;
          sysTime[1] := 48;
          sysTime[3] := 48;
          sysTime[4] := 48;
        }
      }
      SecondsPass(calls);
      calls := calls + 1;
      TheReading(sysTime[..], calls % 3600);
    }
  }

  lemma SecondsPass(n: nat)
    ensures (n + 1) % 3600 == if n % 3600 == 3599 then 0 else n % 3600 + 1
  {
  }

  /** The time after `n` seconds within the hour. */
  function TimeAt(n: nat): seq<Byte>
    requires n < 3600
  {
    [48 + n / 600, 48 + n / 60 % 10, 58, 48 + n / 10 % 6, 48 + n % 10]
  }

  lemma TheReading(t: seq<Byte>, n: nat)
    requires n < 3600
    ensures InRange(t) && Seconds(t) == n <==> t == TimeAt(n)
  {
    OneReading(t, n);
  }

  /** Digits in range that count up to `n` seconds are the one reading for `n`: its minutes and its seconds, in two
      decimal digits each. */
  lemma OneReading(t: seq<Byte>, n: nat)
    requires n < 3600
    ensures InRange(t) && Seconds(t) == n
      <==> t == [48 + n / 600, 48 + n / 60 % 10, 58, 48 + n / 10 % 6, 48 + n % 10]
  {
    TimeAtShows(n);
    if InRange(t) && Seconds(t) == n {
      ReadingIs(t, n);
    }
    hide InRange, Seconds;
  }

  lemma ReadingIs(t: seq<Byte>, n: nat)
    requires n < 3600 && InRange(t) && Seconds(t) == n
    ensures t == [48 + n / 600, 48 + n / 60 % 10, 58, 48 + n / 10 % 6, 48 + n % 10]
  {
    DigitsOfTime(DigitAt(t, 0), DigitAt(t, 1), DigitAt(t, 3), DigitAt(t, 4), n);
    assert [t[0], t[1], t[2], t[3], t[4]] == t;
  }

  lemma TimeAtShows(n: nat)
    requires n < 3600
    ensures var t := [48 + n / 600, 48 + n / 60 % 10, 58, 48 + n / 10 % 6, 48 + n % 10];
      InRange(t) && Seconds(t) == n
  {
    var q, d := n / 10, n % 10;
    var m, c := q / 6, q % 6;
    assert m == n / 60 && m / 10 == n / 600;
    assert n == 600 * (m / 10) + 60 * (m % 10) + 10 * c + d;
  }

  lemma DigitsOfTime(a: nat, b: nat, c: nat, d: nat, n: nat)
    requires b < 10 && c < 6 && d < 10 && n == 600 * a + 60 * b + 10 * c + d
    ensures n / 600 == a && n / 60 % 10 == b && n / 10 % 6 == c && n % 10 == d
  {
    assert n / 60 == 10 * a + b && n / 10 == 60 * a + 6 * b + c;
  }
}
