/** Bytes, machine words and C strings, shared by every component. */
module Bytes {

  datatype Option<+T> = None | Some(value: T)

  type Byte = b: int | 0 <= b < 256

  const TWO_32: int := 0x1_0000_0000

  /** A C `uint32_t`. */
  type U32 = w: int | 0 <= w < TWO_32

  const NUL: Byte := 0
  const NEWLINE: Byte := 10
  const RETURN: Byte := 13
  const SPACE: Byte := 32

  function Min(a: int, b: int): int {
    if a <= b then a else b
  }

  /** `b` does not occur in `s`. */
  predicate Free(s: seq<Byte>, b: Byte) {
    forall i :: 0 <= i < |s| ==> s[i] != b
  }

  /** Index of the first `b` in `s`, or |s|. */
  function IndexOf(s: seq<Byte>, b: Byte): (k: nat)
    ensures k <= |s|
    ensures forall i :: 0 <= i < k ==> s[i] != b
    ensures k < |s| ==> s[k] == b
  {
    if s == [] || s[0] == b then 0 else 1 + IndexOf(s[1..], b)
  }

  /** A message of a program. */
  function Ascii(s: string): (r: seq<Byte>)
    requires forall i :: 0 <= i < |s| ==> 0 < s[i] as int < 128
    ensures Free(r, NUL)
  {
    seq<Byte>(|s|, i requires 0 <= i < |s| => s[i] as int)
  }

  /** `IndexOf` is the only index with its properties. */
  lemma IndexOfIs(s: seq<Byte>, b: Byte, k: nat)
    requires k <= |s| && (forall i :: 0 <= i < k ==> s[i] != b) && (k < |s| ==> s[k] == b)
    ensures IndexOf(s, b) == k
  {
  }

  /** The C string stored at the start of `s`: its bytes before the first NUL. */
  function CString(s: seq<Byte>): (r: seq<Byte>)
    ensures Free(r, NUL)
  {
    s[..IndexOf(s, NUL)]
  }

  lemma CStringIs(s: seq<Byte>, length: nat)
    requires length < |s| && s[length] == NUL && Free(s[..length], NUL)
    ensures CString(s) == s[..length]
  {
  }

  /** The parts, with `sep` between each two. */
  function JoinedBy(parts: seq<seq<Byte>>, sep: Byte): seq<Byte> {
    if parts == [] then []
    else if |parts| == 1 then parts[0]
    else parts[0] + [sep] + JoinedBy(parts[1..], sep)
  }

  lemma {:induction false} JoinedPlus(a: seq<seq<Byte>>, b: seq<seq<Byte>>, sep: Byte)
    requires a != [] && b != []
    ensures JoinedBy(a + b, sep) == JoinedBy(a, sep) + [sep] + JoinedBy(b, sep)
    decreases |a|
  {
    if |a| == 1 {
      assert (a + b)[1..] == b;
    } else {
      assert (a + b)[1..] == a[1..] + b;
      JoinedPlus(a[1..], b, sep);
    }
  }

  /** Parts free of the separator are determined by the joined text. */
  lemma {:induction false} PartsAreUnique(a: seq<seq<Byte>>, b: seq<seq<Byte>>, sep: Byte)
    requires a != [] && b != [] && JoinedBy(a, sep) == JoinedBy(b, sep)
    requires forall i :: 0 <= i < |a| ==> Free(a[i], sep)
    requires forall i :: 0 <= i < |b| ==> Free(b[i], sep)
    ensures a == b
    decreases |a|
  {
    FirstPart(a, sep);
    FirstPart(b, sep);
    if |a| > 1 {
      PartsAreUnique(a[1..], b[1..], sep);
    }
    assert a == [a[0]] + a[1..] && b == [b[0]] + b[1..];
  }

  lemma FirstPart(parts: seq<seq<Byte>>, sep: Byte)
    requires parts != [] && Free(parts[0], sep)
    ensures var t, n := JoinedBy(parts, sep), |parts[0]|;
      && IndexOf(t, sep) == n <= |t| && t[..n] == parts[0] && (|parts| == 1 <==> n == |t|)
      && (n < |t| ==> t[n + 1..] == JoinedBy(parts[1..], sep))
  {
    var t := JoinedBy(parts, sep);
    assert t[..|parts[0]|] == parts[0];
    IndexOfIs(t, sep, |parts[0]|);
  }

  lemma Times(p: nat, x: int, y: int)
    requires x <= y
    ensures p * x <= p * y
  {
  }

  /** Quotient and remainder are unique. */
  lemma ModIs(a: nat, p: nat, q: nat, r: nat)
    requires p > 0 && a == p * q + r && r < p
    ensures a / p == q && a % p == r
  {
    var d, m := a / p, a % p;
    if d > q {
      Times(p, q + 1, d);
    } else if d < q {
      Times(p, d + 1, q);
    }
  }

  /** `s` with the bytes `b` stored from index `at` on. */
  function Splice(s: seq<Byte>, at: nat, b: seq<Byte>): (r: seq<Byte>)
    requires at + |b| <= |s|
    ensures |r| == |s|
  {
    s[..at] + b + s[at + |b|..]
  }

  lemma SpliceAt(s: seq<Byte>, at: nat, b: seq<Byte>, i: nat)
    requires at + |b| <= |s| && i < |s|
    ensures Splice(s, at, b)[i] == if at <= i < at + |b| then b[i - at] else s[i]
  {
  }

  lemma SpliceNothing(s: seq<Byte>, at: nat)
    requires at <= |s|
    ensures Splice(s, at, []) == s
  {
  }

  lemma SpliceTwice(s: seq<Byte>, at: nat, a: seq<Byte>, b: seq<Byte>)
    requires at + |a| + |b| <= |s|
    ensures Splice(Splice(s, at, a), at + |a|, b) == Splice(s, at, a + b)
  {
  }

  lemma {:induction false} SubsetSize(a: set<nat>, b: set<nat>)
    requires a <= b
    ensures |a| <= |b|
  {
    if a != {} {
      var x :| x in a;
      SubsetSize(a - {x}, b - {x});
    }
  }
}
