/** Enumerating the directory by repeated reads of 32 bytes (syscalls/ece391ls.c). The 33-byte buffer of the program is
    modelled with the stack memory behind it, because names of 31 and 32 bytes reach it. */
module Listing {
  import opened Bytes
  import opened FileSystem
  import FT = FileTable

  const REQUEST := 32

  // ---- which entries are listed ----

  /** The names of all entries. */
  function Names(es: seq<Dentry>): (r: seq<seq<Byte>>)
    ensures |r| == |es|
  {
    if es == [] then [] else [CString(es[0].name)] + Names(es[1..])
  }

  /** The names a loop reaches that stops at the first read returning 0. */
  function Listed(es: seq<Dentry>): seq<seq<Byte>> {
    if es == [] || CString(es[0].name) == [] then [] else [CString(es[0].name)] + Listed(es[1..])
  }

  /** The loop lists every entry, once and in order, exactly when no entry has an empty name. */
  lemma {:induction false} ListsEverything(es: seq<Dentry>)
    ensures Listed(es) == Names(es) <==> forall i :: 0 <= i < |es| ==> CString(es[i].name) != []
  {
    if es != [] {
      var rest := es[1..];
      ListsEverything(rest);
      assert forall i :: 0 <= i < |rest| ==> rest[i] == es[i + 1];
      if CString(es[0].name) != [] {
        assert Names(es)[1..] == Names(rest) && Listed(es)[1..] == Listed(rest);
        assert (forall i :: 0 <= i < |rest| ==> CString(rest[i].name) != [])
          ==> forall i :: 1 <= i < |es| ==> CString(es[i].name) != [] by {
          assert forall i :: 1 <= i < |es| ==> es[i] == rest[i - 1];
        }
      }
    }
  }

  /** The names listed are those of the entries before the first that has none. */
  lemma {:induction false} ListedAre(es: seq<Dentry>, i: nat)
    ensures |Listed(es)| <= |es| && (|Listed(es)| < |es| ==> CString(es[|Listed(es)|].name) == [])
    ensures i < |Listed(es)| ==> Listed(es)[i] == CString(es[i].name) != []
  {
    if es != [] {
      ListedAre(es[1..], if i == 0 then 0 else i - 1);
    }
  }

  // ---- what one turn of the loop does to the stack ----

  /** The stack after a 32-byte read of a name. */
  function AfterRead(stack: seq<Byte>, name: seq<Byte>): (r: seq<Byte>)
    requires |name| == NAME_SIZE < |stack|
    ensures |r| == |stack|
  {
    Splice(stack, 0, CopiedName(name))
  }

  /** The length that read reports: that of the string then at the start of the buffer. */
  function Count(stack: seq<Byte>, name: seq<Byte>): (cnt: nat)
    requires |name| == NAME_SIZE < |stack|
    ensures cnt <= |stack|
  {
    IndexOf(AfterRead(stack, name), NUL)
  }

  /** The stack after the newline is stored behind the name. */
  function AfterLine(stack: seq<Byte>, name: seq<Byte>): (r: seq<Byte>)
    requires |name| == NAME_SIZE < |stack| && Count(stack, name) < |stack|
    ensures |r| == |stack|
  {
    AfterRead(stack, name)[Count(stack, name) := NEWLINE]
  }

  /** How often NUL occurs. */
  function Nuls(s: seq<Byte>): nat {
    if s == [] then 0 else (if s[0] == NUL then 1 else 0) + Nuls(s[1..])
  }

  /** The memory behind the name holds more than `n` NULs. */
  predicate Roomy(stack: seq<Byte>, n: nat) {
    |stack| > NAME_SIZE + 1 && Nuls(stack[NAME_SIZE..]) > n
  }

  /** A name shorter than 32 bytes is reported with its length; a name that fills all 32 only if byte 32 is a NUL. */
  lemma CountIsLength(stack: seq<Byte>, name: seq<Byte>)
    requires |name| == NAME_SIZE < |stack|
    ensures Count(stack, name) == |CString(name)| <==> |CString(name)| < NAME_SIZE || stack[NAME_SIZE] == NUL
    ensures |CString(name)| <= Count(stack, name)
    ensures AfterRead(stack, name)[..|CString(name)|] == CString(name)
  {
    var now, n := AfterRead(stack, name), |CString(name)|;
    assert forall i :: 0 <= i < NAME_SIZE ==> now[i] == if i < n then CString(name)[i] else NUL;
    assert forall i :: NAME_SIZE <= i < |stack| ==> now[i] == stack[i];
    hide AfterRead;
    if n < NAME_SIZE || stack[NAME_SIZE] == NUL { IndexOfIs(now, NUL, n); }
  }

  /** A line is clean when it is the name and a newline: always up to 30 bytes, with 31 if byte 32 is a NUL, with 32 if
      bytes 32 and 33 are. */
  lemma CleanLine(stack: seq<Byte>, name: seq<Byte>)
    requires |name| == NAME_SIZE < |stack| - 1 && Count(stack, name) < |stack|
    ensures CString(AfterLine(stack, name)) == CString(name) + [NEWLINE]
      <==> (|CString(name)| >= 31 ==> stack[32] == NUL) && (|CString(name)| == 32 ==> stack[33] == NUL)
    ensures CString(name) <= CString(AfterLine(stack, name))
  {
    var line, n, cnt := AfterLine(stack, name), |CString(name)|, Count(stack, name);
    CountIsLength(stack, name);
    assert line[..n] == CString(name) && line[cnt] == NEWLINE;
    assert forall i :: NAME_SIZE <= i < |stack| && i != cnt ==> line[i] == stack[i];
    assert n + 1 < NAME_SIZE ==> line[n + 1] == NUL;
    var k := IndexOf(line, NUL);
    assert forall i :: 0 <= i < n ==> line[i] == line[..n][i];
    assert k >= n;
    hide AfterLine;
    LineIs(line, n, cnt, k);
  }

  lemma LineIs(line: seq<Byte>, n: nat, cnt: nat, k: nat)
    requires n <= cnt < |line| && n + 1 < |line| && line[cnt] == NEWLINE && k == IndexOf(line, NUL) && k >= n
    requires n < cnt ==> forall i :: n <= i < cnt ==> line[i] != NUL
    ensures CString(line) == line[..n] + [NEWLINE] <==> cnt == n && line[n + 1] == NUL
    ensures line[..n] <= CString(line)
  {
    if cnt == n && line[n + 1] == NUL {
      assert forall i :: 0 <= i < n ==> line[i] != NUL;
      IndexOfIs(line, NUL, n + 1);
    } else if cnt == n {
      assert k != n + 1;
    }
  }

  lemma {:induction false} FirstNul(s: seq<Byte>)
    requires Nuls(s) > 0
    ensures IndexOf(s, NUL) < |s| && Nuls(s[IndexOf(s, NUL) := NEWLINE]) == Nuls(s) - 1
    decreases |s|
  {
    if s[0] != NUL {
      FirstNul(s[1..]);
      var k := IndexOf(s[1..], NUL);
      assert s[k + 1 := NEWLINE][1..] == s[1..][k := NEWLINE];
    } else {
      assert s[0 := NEWLINE][1..] == s[1..];
    }
  }

  /** A turn of the loop stays inside the memory and uses up at most one NUL of it; it uses up byte 32 with a name that
      fills 32 bytes, and no other byte that a later line depends on. */
  lemma TurnKeepsRoom(stack: seq<Byte>, name: seq<Byte>, n: nat)
    requires |name| == NAME_SIZE && Roomy(stack, n + 1)
    ensures Count(stack, name) < |stack|
    ensures var r := AfterLine(stack, name);
      && Roomy(r, n)
      && (r[32] == NUL <==> stack[32] == NUL && |CString(name)| < NAME_SIZE)
      && (|CString(name)| < NAME_SIZE ==> r[33] == stack[33])
  {
    var now, cnt := AfterRead(stack, name), Count(stack, name);
    var tail := stack[NAME_SIZE..];
    CountIsLength(stack, name);
    FirstNul(tail);
    var k := IndexOf(tail, NUL);
    assert now[NAME_SIZE..] == tail && now[NAME_SIZE + k] == NUL;
    assert cnt <= NAME_SIZE + k;
    if cnt < NAME_SIZE {
      assert now[cnt := NEWLINE][NAME_SIZE..] == tail;
      assert |CString(name)| == cnt by { IndexOfInside(name, now, cnt); }
    } else {
      IndexBehind(now, tail, cnt);
      assert now[cnt := NEWLINE][NAME_SIZE..] == tail[k := NEWLINE];
    }
  }

  lemma IndexOfInside(name: seq<Byte>, now: seq<Byte>, cnt: nat)
    requires |name| == NAME_SIZE < |now| && now[..NAME_SIZE] == CopiedName(name) && cnt == IndexOf(now, NUL) < NAME_SIZE
    ensures |CString(name)| == cnt
  {
    var n := |CString(name)|;
    assert forall i :: 0 <= i < NAME_SIZE ==> now[i] == CopiedName(name)[i];
    assert forall i :: 0 <= i < n ==> now[i] == CString(name)[i];
    if n < NAME_SIZE { IndexOfIs(now, NUL, n); }
  }

  lemma IndexBehind(now: seq<Byte>, tail: seq<Byte>, cnt: nat)
    requires |now| > NAME_SIZE && tail == now[NAME_SIZE..] && cnt == IndexOf(now, NUL) && cnt >= NAME_SIZE
    ensures IndexOf(tail, NUL) == cnt - NAME_SIZE
  {
    IndexOfIs(tail, NUL, cnt - NAME_SIZE);
  }

  // ---- the whole listing ----

  predicate Sized(es: seq<Dentry>) {
    forall i :: 0 <= i < |es| ==> |es[i].name| == NAME_SIZE
  }

  /** The lines ls prints for these entries, until it stops. */
  function Printed(stack: seq<Byte>, es: seq<Dentry>): seq<seq<Byte>>
    requires Sized(es) && Roomy(stack, |es|)
    decreases |es|
  {
    if es == [] || CString(es[0].name) == [] then []
    else
      TurnKeepsRoom(stack, es[0].name, |es| - 1);
      var after := AfterLine(stack, es[0].name);
      [CString(after)] + Printed(after, es[1..])
  }

  /** Some entry before the `i`-th has a name that fills 32 bytes. */
  predicate FullNameBefore(es: seq<Dentry>, i: nat)
    requires i <= |es|
  {
    exists j :: 0 <= j < i && |CString(es[j].name)| == NAME_SIZE
  }

  /** ls prints one line for each name it reaches, and a line starts with the name. It is the name and nothing else
      exactly when the name has at most 30 bytes, or no name before it has 32 and byte 32 of the stack (and for 32
      bytes, byte 33) started as a NUL. */
  lemma {:induction false} CleanLines(stack: seq<Byte>, es: seq<Dentry>, i: nat)
    requires Sized(es) && Roomy(stack, |es|) && i < |Listed(es)|
    ensures |Listed(es)| <= |es| && |Printed(stack, es)| == |Listed(es)|
    ensures var name, line := CString(es[i].name), Printed(stack, es)[i];
      && Listed(es)[i] == name <= line
      && (line == name + [NEWLINE] <==>
          |name| <= 30 || (!FullNameBefore(es, i) && stack[32] == NUL && (|name| == 32 ==> stack[33] == NUL)))
    decreases |es|
  {
    hide AfterRead, AfterLine, Count;
    TurnKeepsRoom(stack, es[0].name, |es| - 1);
    CleanLine(stack, es[0].name);
    var rest, after := es[1..], AfterLine(stack, es[0].name);
    LinesForNames(after, rest);
    if i > 0 {
      CleanLines(after, rest, i - 1);
      FullNameFirst(es, i);
    }
  }

  lemma {:induction false} LinesForNames(stack: seq<Byte>, es: seq<Dentry>)
    requires Sized(es) && Roomy(stack, |es|)
    ensures |Printed(stack, es)| == |Listed(es)| <= |es|
    decreases |es|
  {
    if es != [] && CString(es[0].name) != [] {
      TurnKeepsRoom(stack, es[0].name, |es| - 1);
      LinesForNames(AfterLine(stack, es[0].name), es[1..]);
    }
  }

  lemma FullNameFirst(es: seq<Dentry>, i: nat)
    requires 0 < i <= |es|
    ensures FullNameBefore(es, i) <==> |CString(es[0].name)| == NAME_SIZE || FullNameBefore(es[1..], i - 1)
  {
    var rest := es[1..];
    if j :| 0 <= j < i && |CString(es[j].name)| == NAME_SIZE {
      if j > 0 { assert |CString(rest[j - 1].name)| == NAME_SIZE; }
    }
    if j :| 0 <= j < i - 1 && |CString(rest[j].name)| == NAME_SIZE {
      assert |CString(es[j + 1].name)| == NAME_SIZE;
    }
  }

  // ---- the program ----

  function Concatenated(lines: seq<seq<Byte>>): seq<Byte> {
    if lines == [] then [] else lines[0] + Concatenated(lines[1..])
  }

  lemma {:induction false} ConcatenatedMore(lines: seq<seq<Byte>>, line: seq<Byte>)
    ensures Concatenated(lines + [line]) == Concatenated(lines) + line
    decreases |lines|
  {
    if lines == [] {
      assert [line][1..] == [] && lines + [line] == [line];
    } else {
      assert (lines + [line])[1..] == lines[1..] + [line];
      ConcatenatedMore(lines[1..], line);
    }
  }

  lemma EntriesAreSized(table: FT.FileTable)
    requires table.Valid()
    ensures Sized(table.img.entries)
  {
  }

  lemma NameFits(stack: seq<Byte>, es: seq<Dentry>, k: nat)
    requires k < |es| && Sized(es) && Roomy(stack, |es| - k)
    ensures |es[k].name| == NAME_SIZE < |stack| && Count(stack, es[k].name) < |stack|
    ensures Count(stack, es[k].name) == 0 <==> CString(es[k].name) == []
  {
    CountIsLength(stack, es[k].name);
    TurnKeepsRoom(stack, es[k].name, |es| - k - 1);
  }

  lemma StoredAtStart(stack: seq<Byte>, es: seq<Dentry>, k: nat)
    requires k <= |es| && Sized(es) && Roomy(stack, |es| - k)
    ensures |Taken(es, k)| <= |stack|
    ensures if k < |es| then
        && |es[k].name| == NAME_SIZE < |stack| && Splice(stack, 0, Taken(es, k)) == AfterRead(stack, es[k].name)
        && IndexOf(AfterRead(stack, es[k].name), NUL) == Count(stack, es[k].name)
      else Taken(es, k) == [] && Splice(stack, 0, Taken(es, k)) == stack
  {
    if k == |es| { SpliceNothing(stack, 0); }
  }

  lemma NothingConcatenated()
    ensures Concatenated([]) == []
  {
  }

  lemma PrintedNext(stack: seq<Byte>, es: seq<Dentry>, k: nat, cnt: nat, after: seq<Byte>)
    requires k < |es| && Sized(es) && Roomy(stack, |es| - k)
    requires CString(es[k].name) != [] && cnt == Count(stack, es[k].name) < |stack|
    requires after == AfterRead(stack, es[k].name)[cnt := NEWLINE]
    ensures Roomy(after, |es| - k - 1)
    ensures Printed(stack, es[k..]) == [CString(after)] + Printed(after, es[k + 1..])
  {
    TurnKeepsRoom(stack, es[k].name, |es| - k - 1);
    assert es[k..][1..] == es[k + 1..];
  }

  /** At the end of the directory, or at an entry without a name, nothing more is printed. */
  lemma PrintedLast(stack: seq<Byte>, es: seq<Dentry>, k: nat)
    requires k <= |es| && Sized(es) && Roomy(stack, |es| - k)
    requires k < |es| ==> CString(es[k].name) == []
    ensures Printed(stack, es[k..]) == []
  {
  }

  /** The loop of ls: reads a name, ends it with a newline and prints it, until a read returns 0. */
  method ListDirectory(table: FT.FileTable, fd: nat, stack: array<Byte>) returns (ghost lines: seq<seq<Byte>>)
    requires table.Valid() && fd in table.handles && table.handles[fd] == FT.Directory(0)
    requires Roomy(stack[..], |table.img.entries|)
    modifies table.slots, table`handles, table`console, stack
    ensures table.Valid() && lines == Printed(old(stack[..]), table.img.entries)
    ensures table.console == old(table.console) + Concatenated(lines)
    ensures table.handles == old(table.handles)[fd := FT.Directory(Min(|lines| + 1, |table.img.entries|))]
  {
    hide *;
    EntriesAreSized(table);
    NothingConcatenated();
    ghost var es, k, was, log, m := table.img.entries, 0, stack[..], table.console, table.handles;
    lines := [];
    assert es[0..] == es && [] + Printed(was, es) == Printed(was, es) && m[fd := m[fd]] == m;
    ghost var rest := es;
    while true
      invariant table.Valid() && k <= |es| && rest == es[k..] && Sized(rest) && |lines| == k
      invariant table.handles == m[fd := FT.Directory(k)] && table.console == log + Concatenated(lines)
      invariant Roomy(stack[..], |es| - k) && lines + Printed(stack[..], rest) == Printed(was, es)
      decreases |es| - k
    {
      var more;
      ghost var line;
      more, line := Turn(table, fd, stack, k);
      if !more { break; }
      ConcatenatedMore(lines, line);
      k, rest := k + 1, es[k + 1..];
      Associates(lines, line, Printed(stack[..], rest));
      lines := lines + [line];
    }
    assert lines + [] == lines;
  }

  lemma Associates(lines: seq<seq<Byte>>, line: seq<Byte>, rest: seq<seq<Byte>>)
    ensures lines + ([line] + rest) == lines + [line] + rest
  {
  }

  /** One turn of the loop: whether it goes on, and the line printed. */
  method Turn(table: FT.FileTable, fd: nat, stack: array<Byte>, ghost k: nat)
    returns (more: bool, ghost line: seq<Byte>)
    requires table.Valid() && fd in table.handles && table.handles[fd] == FT.Directory(k) && k <= |table.img.entries|
    requires Roomy(stack[..], |table.img.entries| - k) && Sized(table.img.entries)
    modifies table.slots, table`handles, table`console, stack
    ensures table.Valid()
    ensures table.handles == old(table.handles)[fd := FT.Directory(Min(k + 1, |table.img.entries|))]
    ensures var es := table.img.entries;
      if more then
        && k < |es| && Roomy(stack[..], |es| - k - 1) && table.console == old(table.console) + line
        && Min(k + 1, |es|) == k + 1 && Sized(es[k + 1..])
        && Printed(old(stack[..]), es[k..]) == [line] + Printed(stack[..], es[k + 1..])
      else table.console == old(table.console) && Printed(old(stack[..]), es[k..]) == []
  {
    hide FT.FileTable.Valid, Roomy, CString, AfterRead, Count, Printed;
    ghost var es, was := table.img.entries, stack[..];
    var cnt := NextName(table, fd, stack, k);
    if cnt == 0 {
      PrintedLast(was, es, k);
      return false, [];
    }
    PrintName(table, stack, cnt);
    PrintedNext(was, es, k, cnt, stack[..]);
    return true, CString(stack[..]);
  }

  /** One read of the loop. */
  method NextName(table: FT.FileTable, fd: nat, stack: array<Byte>, ghost k: nat) returns (cnt: int)
    requires table.Valid() && fd in table.handles && table.handles[fd] == FT.Directory(k) && k <= |table.img.entries|
    requires Roomy(stack[..], |table.img.entries| - k)
    modifies table.slots, table`handles, stack
    ensures table.Valid()
    ensures table.handles == old(table.handles)[fd := FT.Directory(Min(k + 1, |table.img.entries|))]
    ensures var es, was := table.img.entries, old(stack[..]);
      if k < |es| then
        && |es[k].name| == NAME_SIZE && cnt == Count(was, es[k].name) && stack[..] == AfterRead(was, es[k].name)
        && cnt < stack.Length && (cnt == 0 <==> CString(es[k].name) == [])
      else cnt == 0
  {
    hide *;
    ghost var es, was := table.img.entries, stack[..];
    DirectoryStep(table, fd, k);
    if k < |es| { NameFits(was, es, k); }
    StoredAtStart(was, es, k);
    cnt := table.Read(fd, stack, 0, REQUEST);
    assert stack[0..] == stack[..];
  }

  lemma DirectoryStep(table: FT.FileTable, fd: nat, k: nat)
    requires table.Valid() && fd in table.handles && table.handles[fd] == FT.Directory(k) && k <= |table.img.entries|
    ensures fd != 0 && REQUEST < FT.TWO_31 && Sized(table.img.entries)
    ensures var es := table.img.entries;
      && FT.Step(table.img, table.handles, FT.Event.Read(fd, REQUEST))
         == (table.handles[fd := FT.Directory(Min(k + 1, |es|))], FT.Data(Taken(es, k)))
      && table.Stored(fd, REQUEST) == Taken(es, k)
  {
    hide CopiedName, Image.Content;
    assert FT.DirBytes(table.img, k, REQUEST) == Taken(table.img.entries, k);
  }

  /** The bytes a read of 32 bytes takes from entry `k`. */
  function Taken(es: seq<Dentry>, k: nat): seq<Byte>
    requires Sized(es)
  {
    if k < |es| then CopiedName(es[k].name) else []
  }

  /** The rest of a turn: the newline and the write. */
  method PrintName(table: FT.FileTable, stack: array<Byte>, cnt: nat)
    requires table.Valid() && cnt < stack.Length
    modifies table`console, stack
    ensures table.Valid() && stack[..] == old(stack[..])[cnt := NEWLINE]
    ensures table.console == old(table.console) + CString(stack[..])
  {
    stack[cnt] := NEWLINE;
    var _ := table.Write(1, stack[..], cnt + 1);
  }

  // ---- the whole program ----

  const DOT: seq<Byte> := [46]    // "."

  function OpenFailed(): (r: seq<Byte>)
    ensures Free(r, NUL)
  {
    Ascii("directory open failed\n")
  }

  /** The name "." is not there, or an entry of type 1. */
  ghost predicate ListsDirectory(img: Image)
    requires img.WellFormed()
  {
    Lookup(img.entries, DOT).None? || Lookup(img.entries, DOT).value.fileType == 1
  }

  lemma DotFound(table: FT.FileTable)
    requires table.Valid()
    ensures table.img.WellFormed() && Sized(table.img.entries) && Free(DOT, NUL) && DOT == [46]
    ensures var es := table.img.entries;
      Lookup(es, DOT).Some? <==> exists i :: 0 <= i < |es| && CString(es[i].name) == [46]
  {
    ShortNameIsFound(table.img.entries, DOT);
  }

  /** What opening "." does to the table. */
  lemma OpeningDot(img: Image, m: FT.Handles)
    requires img.WellFormed() && ListsDirectory(img)
    ensures var (m', reply) := FT.Step(img, m, FT.Open(DOT));
      if reply.Opened? then m' == m[reply.fd := FT.Directory(0)] else m' == m
    ensures FT.Step(img, m, FT.Open(DOT)).1.Opened?
      <==> Lookup(img.entries, DOT).Some? && exists fd: nat :: fd < 8 && fd !in m
  {
    hide Lookup, Image.Content;
    var fd := FT.LowestFree(m, 0);
    if fd < 8 { assert fd !in m; }
  }

  /** ls: opens the directory and lists it from its first entry on, or says that it cannot, when there is no entry "."
      or no descriptor to spare. */
  method Ls(table: FT.FileTable, stack: array<Byte>) returns (r: int, ghost lines: seq<seq<Byte>>)
    requires table.Valid() && ListsDirectory(table.img) && Roomy(stack[..], |table.img.entries|)
    requires Sized(table.img.entries)
    modifies table.slots, table`handles, table`console, stack
    ensures table.Valid()
    ensures var m, es := old(table.handles), table.img.entries;
      if (exists i :: 0 <= i < |es| && CString(es[i].name) == [46]) && (exists fd: nat :: fd < 8 && fd !in m) then
        && r == 0 && lines == Printed(old(stack[..]), es) && table.console == old(table.console) + Concatenated(lines)
      else r == 2 && table.console == old(table.console) + OpenFailed() && table.handles == m
  {
    hide *;
    DotFound(table);
    OpeningDot(table.img, table.handles);
    var fd := table.Open(DOT);
    if fd == -1 {
      table.Put(OpenFailed());
      return 2, [];
    }
    lines := ListDirectory(table, fd, stack);
    r := 0;
  }
}
