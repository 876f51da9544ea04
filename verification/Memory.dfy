/** Word-at-a-time fills and copies of memory (student-distrib/lib.c). */
module Memory {
  import opened Bytes

  // ---- double words ----

  /** The double word stored at `at`, least significant byte first. */
  function Dword(m: seq<Byte>, at: nat): U32
    requires at + 4 <= |m|
  {
    m[at] as int + 256 * m[at + 1] as int + 65536 * m[at + 2] as int + 16777216 * m[at + 3] as int
  }

  function DwordBytes(d: U32): seq<Byte> {
    [d % 256, d / 256 % 256, d / 65536 % 256, d / 16777216]
  }

  lemma BytesOfDword(m: seq<Byte>, at: nat)
    requires at + 4 <= |m|
    ensures DwordBytes(Dword(m, at)) == m[at..at + 4]
  {
    var a, b, c, d := m[at], m[at + 1], m[at + 2], m[at + 3];
    Digits(a, b, c, d);
  }

  lemma Digits(a: Byte, b: Byte, c: Byte, d: Byte)
    ensures DwordBytes(a + 256 * b + 65536 * c + 16777216 * d) == [a, b, c, d]
  {
    var w := a + 256 * b + 65536 * c + 16777216 * d;
    ModIs(w, 256, b + 256 * c + 65536 * d, a);
    ModIs(b + 256 * c + 65536 * d, 256, c + 256 * d, b);
    ModIs(w, 65536, c + 256 * d, a + 256 * b);
    ModIs(c + 256 * d, 256, d, c);
    ModIs(w, 16777216, d, a + 256 * b + 65536 * c);
  }

  method StoreDword(mem: array<Byte>, at: nat, d: U32)
    requires at + 4 <= mem.Length
    modifies mem
    ensures mem[..] == Splice(old(mem[..]), at, DwordBytes(d))
  {
    mem[at] := d % 256;
    mem[at + 1] := d / 256 % 256;
    mem[at + 2] := d / 65536 % 256;
    mem[at + 3] := d / 16777216;
  }

  // ---- copying forward, byte by byte up to alignment and double word by double word after it ----

  /** How many bytes `memcpy` moves at once. */
  function Chunk(dest: nat, n: nat): nat {
    if dest % 4 != 0 || n < 4 then 1 else 4
  }

  /** `n` bytes from `src` to `dest`, all at once. */
  function Moved(m: seq<Byte>, dest: nat, src: nat, n: nat): (r: seq<Byte>)
    requires dest + n <= |m| && src + n <= |m|
    ensures |r| == |m|
  {
    Splice(m, dest, m[src..src + n])
  }

  /** The memory after `memcpy`. */
  function Copied(m: seq<Byte>, dest: nat, src: nat, n: nat): (r: seq<Byte>)
    requires dest + n <= |m| && src + n <= |m|
    ensures |r| == |m|
    decreases n
  {
    if n == 0 then m
    else
      var k := Chunk(dest, n);
      Copied(Moved(m, dest, src, k), dest + k, src + k, n - k)
  }

  ghost predicate Clear(m: seq<Byte>) {
    forall i :: 0 <= i < |m| ==> m[i] == 0
  }

  lemma MovedAt(m: seq<Byte>, dest: nat, src: nat, n: nat, i: nat)
    requires dest + n <= |m| && src + n <= |m| && i < |m|
    ensures Moved(m, dest, src, n)[i] == if dest <= i < dest + n then m[src + i - dest] else m[i]
  {
  }

  lemma MovedIs(m: seq<Byte>, r: seq<Byte>, dest: nat, src: nat, n: nat)
    requires dest + n <= |m| == |r| && src + n <= |m|
    requires forall i :: 0 <= i < |m| && !(dest <= i < dest + n) ==> r[i] == m[i]
    requires forall i :: dest <= i < dest + n ==> r[i] == m[src + i - dest]
    ensures r == Moved(m, dest, src, n)
  {
  }

  /** `memcpy` is as good as moving all bytes at once, whatever the memory holds. */
  ghost predicate CopyIsExact(length: nat, dest: nat, src: nat, n: nat)
    requires dest + n <= length && src + n <= length
  {
    forall m: seq<Byte> :: |m| == length ==> Copied(m, dest, src, n) == Moved(m, dest, src, n)
  }

  /** The destination starts inside the source, after its first byte. */
  predicate Clobbers(dest: nat, src: nat, n: nat) {
    src < dest < src + n
  }

  /** `memcpy` fails exactly on destinations that start inside the source after its first byte, save that a single
      aligned double word is copied whole. */
  lemma CopyIsExactUnlessItClobbers(length: nat, dest: nat, src: nat, n: nat)
    requires dest + n <= length && src + n <= length
    ensures CopyIsExact(length, dest, src, n) <==> !(src < dest < src + n) || (n == 4 && dest % 4 == 0)
  {
    if !Clobbers(dest, src, n) {
      forall m: seq<Byte> | |m| == length
        ensures Copied(m, dest, src, n) == Moved(m, dest, src, n)
      {
        CopyIsMove(m, dest, src, n);
      }
    } else if n == 4 && dest % 4 == 0 {
      forall m: seq<Byte> | |m| == length
        ensures Copied(m, dest, src, n) == Moved(m, dest, src, n)
      {
        CopiedFirst(m, dest, src, n);
        assert Copied(Moved(m, dest, src, 4), dest + 4, src + 4, 0) == Moved(m, dest, src, 4);
      }
    } else {
      var j := if Chunk(dest, n) == 4 && dest - src < 4 then 4 else dest - src;
      CopyLosesByte(length, dest, src, n, j);
    }
  }

  lemma {:induction false} CopyIsMove(m: seq<Byte>, dest: nat, src: nat, n: nat)
    requires dest + n <= |m| && src + n <= |m| && !Clobbers(dest, src, n)
    ensures Copied(m, dest, src, n) == Moved(m, dest, src, n)
    decreases n
  {
    hide Copied, Moved;
    if n == 0 {
      CopiedNothing(m, dest, src);
    } else {
      var k := Chunk(dest, n);
      CopiedFirst(m, dest, src, n);
      MovedInTwo(m, dest, src, k, n);
      CopyIsMove(Moved(m, dest, src, k), dest + k, src + k, n - k);
    }
  }

  lemma MovedInTwo(m: seq<Byte>, dest: nat, src: nat, k: nat, n: nat)
    requires dest + n <= |m| && src + n <= |m| && !Clobbers(dest, src, n) && k <= n
    ensures Moved(Moved(m, dest, src, k), dest + k, src + k, n - k) == Moved(m, dest, src, n)
  {
    hide Moved, Splice;
    var m' := Moved(m, dest, src, k);
    var two, one := Moved(m', dest + k, src + k, n - k), Moved(m, dest, src, n);
    forall i | 0 <= i < |m|
      ensures two[i] == one[i]
    {
      MovedAt(m, dest, src, n, i);
      MovedAt(m', dest + k, src + k, n - k, i);
      MovedAt(m, dest, src, k, i);
      if dest + k <= i < dest + n { MovedAt(m, dest, src, k, src + i - dest); }
    }
  }

  lemma CopiedFirst(m: seq<Byte>, dest: nat, src: nat, n: nat)
    requires 0 < n && dest + n <= |m| && src + n <= |m|
    ensures Chunk(dest, n) <= n
    ensures var k := Chunk(dest, n); Copied(m, dest, src, n) == Copied(Moved(m, dest, src, k), dest + k, src + k, n - k)
  {
  }

  lemma CopiedNothing(m: seq<Byte>, dest: nat, src: nat)
    requires dest <= |m| && src <= |m|
    ensures Copied(m, dest, src, 0) == m == Moved(m, dest, src, 0)
  {
    assert m[src..src] == [];
  }

  /** A memory that is clear but for one byte. */
  function Single(length: nat, at: nat): (m: seq<Byte>)
    ensures |m| == length && forall i :: 0 <= i < length ==> m[i] == if i == at then 1 else 0
  {
    seq(length, i => if i == at then 1 else 0)
  }

  /** A memory with a single byte set, at the `j`-th of the source, that the first chunk overwrites before it is read.
      */
  lemma CopyLosesByte(length: nat, dest: nat, src: nat, n: nat, j: nat)
    requires dest + n <= length && src + n <= length && Chunk(dest, n) <= j < n
    requires src < dest <= src + j < dest + Chunk(dest, n)
    ensures !CopyIsExact(length, dest, src, n)
  {
    hide Copied, Moved, CopyIsExact;
    var m := Single(length, src + j);
    LosesByte(m, dest, src, n, j);
    MovedAt(m, dest, src, n, dest + j);
    CopyDiffers(m, dest, src, n);
  }

  lemma CopyDiffers(m: seq<Byte>, dest: nat, src: nat, n: nat)
    requires dest + n <= |m| && src + n <= |m| && Copied(m, dest, src, n) != Moved(m, dest, src, n)
    ensures !CopyIsExact(|m|, dest, src, n)
  {
  }

  lemma LosesByte(m: seq<Byte>, dest: nat, src: nat, n: nat, j: nat)
    requires dest + n <= |m| && src + n <= |m| && Chunk(dest, n) <= j < n
    requires src < dest <= src + j < dest + Chunk(dest, n) && m == Single(|m|, src + j)
    ensures Copied(m, dest, src, n)[dest + j] == 0
  {
    var k := Chunk(dest, n);
    var m' := Moved(m, dest, src, k);
    CopiedFirst(m, dest, src, n);
    hide Copied, Moved, Single, Chunk, Splice;
    forall i | 0 <= i < |m|
      ensures m'[i] == 0
    {
      MovedAt(m, dest, src, k, i);
    }
    CopyKeepsClear(m', dest + k, src + k, n - k);
  }

  lemma {:induction false} CopyKeepsClear(m: seq<Byte>, dest: nat, src: nat, n: nat)
    requires dest + n <= |m| && src + n <= |m| && Clear(m)
    ensures Clear(Copied(m, dest, src, n))
    decreases n
  {
    if n > 0 {
      var k := Chunk(dest, n);
      CopyKeepsClear(Moved(m, dest, src, k), dest + k, src + k, n - k);
    }
  }

  // ---- the routines ----

  /** `n` bytes from `s` on set to `c`. */
  function Filled(m: seq<Byte>, s: nat, c: Byte, n: nat): (r: seq<Byte>)
    requires s + n <= |m|
    ensures |r| == |m|
  {
    Splice(m, s, seq(n, _ => c))
  }

  /** Exactly the `n` bytes from `s` on hold the low byte of the argument. */
  lemma FilledAt(m: seq<Byte>, s: nat, c: int, n: nat, i: nat)
    requires s + n <= |m| && i < |m|
    ensures Filled(m, s, c % 256, n)[i] == if s <= i < s + n then c % 256 else m[i]
  {
  }

  /** `memset`: bytes up to alignment, then double words, then the rest. */
  method Memset(mem: array<Byte>, s: nat, c: int, n: nat)
    requires s + n <= mem.Length
    modifies mem
    ensures mem[..] == Filled(old(mem[..]), s, c % 256, n)
  {
    var al: Byte := c % 256;
    var edi: nat, ecx: nat := s, n;
    while ecx != 0 && edi % 4 != 0
      invariant s <= edi && edi + ecx == s + n
      invariant forall i :: 0 <= i < mem.Length ==> mem[i] == if s <= i < edi then al else old(mem[i])
      decreases ecx
    {
      mem[edi] := al;
      edi := edi + 1;
      ecx := ecx - 1;
    }
    var edx: nat := ecx % 4;
    ecx := ecx / 4;
    Digits(al, al, al, al);
    while ecx != 0
      invariant s <= edi && edi + 4 * ecx + edx == s + n
      invariant forall i :: 0 <= i < mem.Length ==> mem[i] == if s <= i < edi then al else old(mem[i])
      decreases ecx
    {
      ghost var was := mem[..];
      StoreDword(mem, edi, al + 256 * al + 65536 * al + 16777216 * al);
      forall i | 0 <= i < mem.Length
        ensures mem[i] == if edi <= i < edi + 4 then al else was[i]
      {
        assert mem[i] == mem[..][i];
      }
      edi := edi + 4;
      ecx := ecx - 1;
    }
    while edx != 0
      invariant s <= edi && edi + edx == s + n
      invariant forall i :: 0 <= i < mem.Length ==> mem[i] == if s <= i < edi then al else old(mem[i])
      decreases edx
    {
      mem[edi] := al;
      edi := edi + 1;
      edx := edx - 1;
    }
  }

  /** The first loop: bytes until the destination is aligned. */
  method AlignDestination(mem: array<Byte>, dest: nat, src: nat, n: nat) returns (edi: nat, esi: nat, ecx: nat)
    requires dest + n <= mem.Length && src + n <= mem.Length
    modifies mem
    ensures edi + ecx == dest + n && esi + ecx == src + n && (ecx == 0 || edi % 4 == 0)
    ensures Copied(mem[..], edi, esi, ecx) == Copied(old(mem[..]), dest, src, n)
  {
    hide Moved, Copied;
    edi, esi, ecx := dest, src, n;
    while ecx != 0 && edi % 4 != 0
      invariant edi + ecx == dest + n && esi + ecx == src + n
      invariant Copied(mem[..], edi, esi, ecx) == Copied(old(mem[..]), dest, src, n)
      decreases ecx
    {
      CopiedFirst(mem[..], edi, esi, ecx);
      CopyByte(mem, edi, esi);
      edi, esi, ecx := edi + 1, esi + 1, ecx - 1;
    }
  }

  method CopyByte(mem: array<Byte>, edi: nat, esi: nat)
    requires edi < mem.Length && esi < mem.Length
    modifies mem
    ensures mem[..] == Moved(old(mem[..]), edi, esi, 1)
  {
    mem[edi] := mem[esi];
  }

  method CopyDword(mem: array<Byte>, edi: nat, esi: nat)
    requires edi + 4 <= mem.Length && esi + 4 <= mem.Length
    modifies mem
    ensures mem[..] == Moved(old(mem[..]), edi, esi, 4)
  {
    BytesOfDword(mem[..], esi);
    var d := Dword(mem[..], esi);
    hide Dword, DwordBytes;
    StoreDword(mem, edi, d);
  }

  /** The second loop, `rep movsl`; `left` bytes come after it. */
  method CopyDwords(mem: array<Byte>, dest: nat, src: nat, count: nat, ghost left: nat)
    requires dest + 4 * count + left <= mem.Length && src + 4 * count + left <= mem.Length
    requires count != 0 ==> dest % 4 == 0
    modifies mem
    ensures Copied(mem[..], dest + 4 * count, src + 4 * count, left)
         == Copied(old(mem[..]), dest, src, 4 * count + left)
  {
    hide Moved, Copied;
    var ecx, edi, esi := count, dest, src;
    while ecx != 0
      invariant 0 <= ecx <= count && edi == dest + 4 * (count - ecx) && esi == src + 4 * (count - ecx)
      invariant Copied(mem[..], edi, esi, 4 * ecx + left) == Copied(old(mem[..]), dest, src, 4 * count + left)
      decreases ecx
    {
      CopiedFirst(mem[..], edi, esi, 4 * ecx + left);
      CopyDword(mem, edi, esi);
      edi, esi, ecx := edi + 4, esi + 4, ecx - 1;
    }
  }

  /** The third loop: the last bytes. */
  method CopyRest(mem: array<Byte>, dest: nat, src: nat, count: nat)
    requires dest + count <= mem.Length && src + count <= mem.Length && count < 4
    modifies mem
    ensures mem[..] == Copied(old(mem[..]), dest, src, count)
  {
    hide Moved, Copied;
    var edx, edi, esi := count, dest, src;
    while edx != 0
      invariant 0 <= edx <= count && edi == dest + (count - edx) && esi == src + (count - edx)
      invariant Copied(mem[..], edi, esi, edx) == Copied(old(mem[..]), dest, src, count)
      decreases edx
    {
      CopiedFirst(mem[..], edi, esi, edx);
      CopyByte(mem, edi, esi);
      edi, esi, edx := edi + 1, esi + 1, edx - 1;
    }
    CopiedNothing(mem[..], edi, esi);
  }

  /** `memcpy`: bytes up to alignment of the destination, then double words, then the rest. */
  method Memcpy(mem: array<Byte>, dest: nat, src: nat, n: nat)
    requires dest + n <= mem.Length && src + n <= mem.Length
    modifies mem
    ensures mem[..] == Copied(old(mem[..]), dest, src, n)
    ensures !Clobbers(dest, src, n) ==> mem[..] == Moved(old(mem[..]), dest, src, n)
  {
    hide Moved, Copied, Clobbers;
    if !Clobbers(dest, src, n) { CopyIsMove(mem[..], dest, src, n); }
    var edi: nat, esi: nat, ecx: nat := AlignDestination(mem, dest, src, n);
    var dwords, edx := ecx / 4, ecx % 4;
    assert ecx == 4 * dwords + edx;
    CopyDwords(mem, edi, esi, dwords, edx);
    CopyRest(mem, edi + 4 * dwords, esi + 4 * dwords, edx);
  }

  /** `memmove`: forward when the source is not below the destination, backward from the last byte when it is. Every
      overlap is copied right. */
  method Memmove(mem: array<Byte>, dest: nat, src: nat, n: nat)
    requires dest + n <= mem.Length && src + n <= mem.Length
    modifies mem
    ensures mem[..] == Moved(old(mem[..]), dest, src, n)
  {
    hide Moved;
    var ecx: nat := n;
    if src >= dest {
      var esi: nat, edi: nat := src, dest;
      while ecx != 0
        invariant edi + ecx == dest + n && esi + ecx == src + n
        invariant forall i :: 0 <= i < mem.Length && !(dest <= i < edi) ==> mem[i] == old(mem[i])
        invariant forall i :: dest <= i < edi ==> mem[i] == old(mem[src + i - dest])
        decreases ecx
      {
        mem[edi] := mem[esi];
        edi, esi, ecx := edi + 1, esi + 1, ecx - 1;
      }
    } else {
      var esi, edi := src + n - 1, dest + n - 1;
      while ecx != 0
        invariant edi == dest + ecx - 1 && esi == src + ecx - 1
        invariant forall i :: 0 <= i < mem.Length && !(edi < i < dest + n) ==> mem[i] == old(mem[i])
        invariant forall i :: edi < i < dest + n ==> mem[i] == old(mem[src + i - dest])
        decreases ecx
      {
        mem[edi] := mem[esi];
        edi, esi, ecx := edi - 1, esi - 1, ecx - 1;
      }
    }
    MovedIs(old(mem[..]), mem[..], dest, src, n);
  }
}
