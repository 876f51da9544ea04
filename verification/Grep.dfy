/** The line search of the grep program (syscalls/ece391grep.c): a 1024-byte window over a file read through the
    descriptor table. */
module Grep {
  import opened Bytes
  import opened FileSystem
  import FT = FileTable

  const WINDOW := 1024
  const COLON: Byte := 58

  // ---- what is searched ----

  /** The lines of a text. A newline at the very end does not start another line. */
  function Lines(text: seq<Byte>): seq<seq<Byte>> {
    if text == [] then []
    else
      var e := IndexOf(text, NEWLINE);
      [text[..e]] + (if e == |text| then [] else Lines(text[e + 1..]))
  }

  /** The pieces the window hands to the search: lines, cut every 1024 bytes. */
  function Pieces(text: seq<Byte>): seq<seq<Byte>> {
    if text == [] then []
    else
      var e := IndexOf(text, NEWLINE);
      if e < WINDOW then [text[..e]] + (if e == |text| then [] else Pieces(text[e + 1..]))
      else [text[..WINDOW]] + Pieces(text[WINDOW..])
  }

  /** `s` occurs in `line` at `k`. */
  predicate OccursAt(line: seq<Byte>, s: seq<Byte>, k: nat) {
    k + |s| <= |line| && forall i :: 0 <= i < |s| ==> line[k + i] == s[i]
  }

  predicate Contains(line: seq<Byte>, s: seq<Byte>) {
    exists k: nat :: k <= |line| && OccursAt(line, s, k)
  }

  /** The program's own match: it compares the pattern's first character as a signed `char` with an unsigned byte, and
      only at positions inside the line. */
  predicate Matches(line: seq<Byte>, s: seq<Byte>) {
    s != [] && s[0] < 128 && Contains(line, s)
  }

  function Select(lines: seq<seq<Byte>>, s: seq<Byte>): seq<seq<Byte>> {
    if lines == [] then []
    else (if Contains(lines[0], s) then [lines[0]] else []) + Select(lines[1..], s)
  }

  function Selected(lines: seq<seq<Byte>>, s: seq<Byte>): seq<seq<Byte>> {
    if s != [] && s[0] < 128 then Select(lines, s) else []
  }

  /** What is printed for the reported lines. */
  function Report(fname: seq<Byte>, lines: seq<seq<Byte>>): seq<Byte> {
    if lines == [] then []
    else fname + [COLON] + lines[0] + [NEWLINE] + Report(fname, lines[1..])
  }

  /** What the program prints for one piece. */
  function Line(fname: seq<Byte>, s: seq<Byte>, piece: seq<Byte>): seq<Byte> {
    if Matches(piece, s) then fname + [COLON] + piece + [NEWLINE] else []
  }

  /** What the program prints for a whole text. */
  function Printed(fname: seq<Byte>, s: seq<Byte>, text: seq<Byte>): seq<Byte> {
    Report(fname, Selected(Pieces(text), s))
  }

  // ---- the program ----

  function OpenFailed(): (r: seq<Byte>)
    ensures Free(r, NUL)
  {
    Ascii("file open failed\n")
  }

  /** A byte read through a `const char*`. */
  function Signed(b: Byte): int {
    if b < 128 then b else b - 256
  }

  /** Character `i` of a C string given without its NUL. */
  function CharAt(s: seq<Byte>, i: nat): Byte
    requires i <= |s|
  {
    if i < |s| then s[i] else NUL
  }

  /** `ece391_strncmp` of the C string at `data + at`, whose NUL is at `end`, with the pattern, over its length. */
  method StrNCmp(data: array<Byte>, at: nat, end: nat, s: seq<Byte>) returns (r: int)
    requires at <= end < data.Length && data[end] == NUL && Free(data[at..end], NUL) && Free(s, NUL)
    ensures r == 0 <==> OccursAt(data[at..end], s, 0)
  {
    if |s| == 0 { return 0; }
    var i, n := 0, |s|;
    while data[at + i] == CharAt(s, i)
      invariant 0 <= i < |s| && n == |s| - i && at + i <= end
      invariant forall j :: 0 <= j < i ==> data[at + j] == s[j]
      decreases n
    {
      n := n - 1;
      if data[at + i] == NUL || n == 0 { return 0; }
      i := i + 1;
    }
    r := data[at + i] - CharAt(s, i);
  }

  /** The four writes that report the line `data[start..end]`. */
  method PrintLine(table: FT.FileTable, fname: seq<Byte>, data: array<Byte>, start: nat, end: nat)
    requires table.Valid() && Free(fname, NUL)
    requires start <= end < data.Length && data[end] == NUL && Free(data[start..end], NUL)
    modifies table`console
    ensures table.Valid()
    ensures table.console == old(table.console) + (fname + [COLON] + data[start..end] + [NEWLINE])
  {
    hide FT.FileTable.Valid, CString;
    assert data[start..][..end - start] == data[start..end];
    CStringIs(data[start..], end - start);
    table.Put(fname);
    table.Put([COLON]);
    table.Put(CString(data[start..]));
    table.Put([NEWLINE]);
  }

  /** The search of one line, `data[start..end]`, ended by a NUL: prints it if the pattern occurs in it. */
  method SearchLine(table: FT.FileTable, s: seq<Byte>, fname: seq<Byte>, data: array<Byte>, start: nat, end: nat)
    requires table.Valid() && Free(s, NUL) && Free(fname, NUL)
    requires start <= end < data.Length && data[end] == NUL && Free(data[start..end], NUL)
    modifies table`console
    ensures table.Valid()
    ensures table.console == old(table.console) + Line(fname, s, data[start..end])
  {
    hide FT.FileTable.Valid;
    ghost var line := data[start..end];
    var check := start;
    while check < end
      invariant start <= check <= end
      invariant table.Valid() && table.console == old(table.console) && data[start..end] == line
      invariant s != [] && s[0] < 128 ==> forall k: nat :: k < check - start ==> !OccursAt(line, s, k)
    {
      if Signed(CharAt(s, 0)) == data[check] {
        var order := StrNCmp(data, check, end, s);
        OccursFrom(line, s, check - start);
        assert data[check..end] == line[check - start..];
        if order == 0 {
          assert Matches(line, s);
          PrintLine(table, fname, data, start, end);
          return;
        }
      }
      check := check + 1;
    }
  }

  /** Matching at `k` is matching at the front of what follows. */
  lemma OccursFrom(line: seq<Byte>, s: seq<Byte>, k: nat)
    requires k <= |line|
    ensures OccursAt(line, s, k) <==> OccursAt(line[k..], s, 0)
  {
  }

  /** The scan for the next newline in the filled part of the window. */
  method LineEnd(data: array<Byte>, start: nat, last: nat) returns (end: nat)
    requires start <= last <= data.Length
    ensures start <= end <= last && Free(data[start..end], NEWLINE) && (end < last ==> data[end] == NEWLINE)
  {
    end := start;
    while end < last && data[end] != NEWLINE
      invariant start <= end <= last && forall i :: start <= i < end ==> data[i] != NEWLINE
    {
      end := end + 1;
    }
  }

  /** `ece391_strcpy (data, data + start)`: moves the C string at `start`, of `length` bytes, to the front. */
  method CopyDown(data: array<Byte>, start: nat, ghost length: nat)
    requires 0 < start && start + length < data.Length
    requires data[start + length] == NUL && Free(data[start..start + length], NUL)
    modifies data
    ensures data[..length] == old(data[start..start + length])
    ensures forall i :: length < i < data.Length ==> data[i] == old(data[i])
  {
    var i := 0;
    ghost var was := data[..];
    assert forall k :: start <= k < start + length ==> was[k] == data[start..start + length][k - start];
    while true
      invariant 0 <= i <= length
      invariant forall k :: 0 <= k < i ==> data[k] == was[start + k]
      invariant forall k :: i <= k < data.Length ==> data[k] == was[k]
      decreases length - i
    {
      data[i] := data[start + i];
      if data[i] == NUL { break; }
      i := i + 1;
    }
  }

  /** Searches the filled window line by line. What is left of a line that may go on is moved to the front. */
  method ScanWindow(table: FT.FileTable, s: seq<Byte>, fname: seq<Byte>, data: array<Byte>, last: nat, cnt: nat,
                    ghost rest: seq<Byte>) returns (left: nat)
    requires table.Valid() && Free(s, NUL) && Free(fname, NUL)
    requires data.Length == WINDOW + 1 && last <= WINDOW && data[WINDOW] != NEWLINE && Free(data[..last], NUL)
    requires last < WINDOW ==> rest == []
    requires cnt == 0 ==> last < WINDOW
    modifies table`console, data
    ensures table.Valid() && left < WINDOW && data[WINDOW] != NEWLINE && Free(data[..left], NUL)
    ensures cnt == 0 ==> left == 0
    ensures table.console + Printed(fname, s, data[..left] + rest)
      == old(table.console) + Printed(fname, s, old(data[..last]) + rest)
  {
    hide FT.FileTable.Valid, Printed;
    ghost var was, goal := data[..last], table.console + Printed(fname, s, data[..last] + rest);
    var start := 0;
    while true
      invariant 0 <= start && (start == 0 || start < last)
      invariant table.Valid() && data[WINDOW] != NEWLINE && forall i :: start <= i < last ==> data[i] == was[i]
      invariant table.console + Printed(fname, s, was[start..] + rest) == goal
      decreases last - start
    {
      var end := LineEnd(data, start, last);
      if data[end] != NEWLINE && cnt != 0 && start != 0 {
        data[end] := NUL;
        CopyDown(data, start, last - start);
        assert data[..last - start] == was[start..];
        return last - start;
      }
      assert data[start..end] == was[start..end];
      SearchPiece(table, s, fname, data, start, end, was, rest);
      start := end + 1;
      if start >= last {
        assert data[..0] == After(was, end);
        return 0;
      }
    }
  }

  /** What follows the line that ends at `end`. */
  function After(was: seq<Byte>, end: nat): seq<Byte>
    requires end <= |was|
  {
    if end < |was| then was[end + 1..] else []
  }

  /** Ends the line `data[start..end]` with a NUL, in place of its newline if it has one, and searches it. */
  method SearchPiece(table: FT.FileTable, s: seq<Byte>, fname: seq<Byte>, data: array<Byte>, start: nat, end: nat,
                     ghost was: seq<Byte>, ghost rest: seq<Byte>)
    requires table.Valid() && Free(s, NUL) && Free(fname, NUL) && Free(was, NUL)
    requires start <= end <= |was| <= WINDOW < data.Length && Free(was[start..end], NEWLINE)
    requires if end < |was| then was[end] == NEWLINE else rest == [] || (start == 0 && |was| == WINDOW)
    requires forall i :: start <= i < |was| ==> data[i] == was[i]
    modifies table`console, data
    ensures table.Valid() && data[end] == NUL
    ensures forall i :: 0 <= i < data.Length && i != end ==> data[i] == old(data[i])
    ensures table.console + Printed(fname, s, After(was, end) + rest)
      == old(table.console) + Printed(fname, s, was[start..] + rest)
  {
    hide FT.FileTable.Valid, Printed;
    data[end] := NUL;
    assert data[start..end] == was[start..end];
    SearchLine(table, s, fname, data, start, end);
    OneLine(fname, s, was, start, end, rest);
  }

  /** What searching the line `was[start..end]` leaves to be printed. */
  lemma OneLine(fname: seq<Byte>, s: seq<Byte>, was: seq<Byte>, start: nat, end: nat, rest: seq<Byte>)
    requires start <= end <= |was| <= WINDOW && Free(was[start..end], NEWLINE)
    requires if end < |was| then was[end] == NEWLINE else rest == [] || (start == 0 && |was| == WINDOW)
    ensures Printed(fname, s, was[start..] + rest)
      == Line(fname, s, was[start..end]) + Printed(fname, s, After(was, end) + rest)
  {
    hide Printed, Line;
    var text := was[start..] + rest;
    if end < |was| {
      assert text[..end - start] == was[start..end] && text[end - start + 1..] == was[end + 1..] + rest;
      PrintedLine(fname, s, text, end - start);
    } else if |was| - start < WINDOW {
      assert text == was[start..end] && [] + rest == [];
      PrintedLast(fname, s, text);
      PrintedNothing(fname, s);
    } else {
      assert text[..WINDOW] == was[start..end] && text[WINDOW..] == [] + rest;
      PrintedFull(fname, s, text);
    }
  }

  /** Opening `fname` gives a text file: a regular file without NUL bytes. */
  ghost predicate OpensText(img: Image, fname: seq<Byte>)
    requires img.WellFormed()
  {
    var h := FT.Fresh(img, fname);
    h.Some? ==> h.value.File? && Free(h.value.content, NUL)
  }

  /** The search of one file. `data` is the window on the stack with whatever it holds on entry; the byte after the
      window must not happen to be a newline. */
  method DoOneFile(table: FT.FileTable, s: seq<Byte>, fname: seq<Byte>, data: array<Byte>) returns (r: int)
    requires table.Valid() && Free(s, NUL) && Free(fname, NUL) && OpensText(table.img, fname)
    requires data.Length == WINDOW + 1 && data[WINDOW] != NEWLINE
    modifies table, table.slots, data
    ensures table.Valid() && table.handles == old(table.handles)
    ensures var (m, reply) := FT.Step(table.img, old(table.handles), FT.Open(fname));
      if reply.Opened? then
        && reply.fd in m && m[reply.fd].File?
        && r == 0 && table.console == old(table.console) + Printed(fname, s, m[reply.fd].content)
      else r == -1 && table.console == old(table.console) + OpenFailed()
  {
    assert 0 in table.handles && 1 in table.handles && table.img.WellFormed();
    ghost var content := OpeningText(table.img, table.handles, fname);
    hide *;
    var fd := table.Open(fname);
    if fd == -1 {
      table.Put(OpenFailed());
      return -1;
    }
    PutBack(old(table.handles), fd, FT.File(content, 0));
    r := SearchAndClose(table, s, fname, data, fd, content);
  }

  /** What opening a text file does to the table. */
  lemma OpeningText(img: Image, m: FT.Handles, fname: seq<Byte>) returns (content: seq<Byte>)
    requires img.WellFormed() && OpensText(img, fname) && 0 in m && 1 in m
    ensures Free(content, NUL)
    ensures var (m', reply) := FT.Step(img, m, FT.Open(fname));
      if reply.Opened? then
        2 <= reply.fd && reply.fd !in m && m' == m[reply.fd := FT.File(content, 0)]
      else m' == m
  {
    hide Lookup, Image.Content;
    content := if FT.Fresh(img, fname).Some? then FT.Fresh(img, fname).value.content else [];
  }

  lemma PutBack(m: FT.Handles, fd: nat, h: FT.Handle)
    requires fd !in m
    ensures m[fd := h] - {fd} == m
  {
  }

  /** The rest of the search, once the file is open. */
  method SearchAndClose(table: FT.FileTable, s: seq<Byte>, fname: seq<Byte>, data: array<Byte>, fd: nat,
                        ghost content: seq<Byte>) returns (r: int)
    requires table.Valid() && Free(s, NUL) && Free(fname, NUL) && Free(content, NUL)
    requires 2 <= fd && fd in table.handles && table.handles[fd] == FT.File(content, 0)
    requires data.Length == WINDOW + 1 && data[WINDOW] != NEWLINE
    modifies table, table.slots, data
    ensures table.Valid() && table.handles == old(table.handles) - {fd}
    ensures r == 0 && table.console == old(table.console) + Printed(fname, s, content)
  {
    hide FT.FileTable.Valid, Printed;
    SearchAll(table, s, fname, data, fd, content);
    r := table.Close(fd);
  }

  /** The read loop. No read fails, because the descriptor is open and the request is not negative. */
  method SearchAll(table: FT.FileTable, s: seq<Byte>, fname: seq<Byte>, data: array<Byte>, fd: nat,
                   ghost content: seq<Byte>)
    requires table.Valid() && Free(s, NUL) && Free(fname, NUL) && Free(content, NUL)
    requires fd in table.handles && table.handles[fd] == FT.File(content, 0) && fd != 0
    requires data.Length == WINDOW + 1 && data[WINDOW] != NEWLINE
    modifies table, table.slots, data
    ensures table.Valid() && table.handles == old(table.handles)[fd := FT.File(content, |content|)]
    ensures table.console == old(table.console) + Printed(fname, s, content)
  {
    hide FT.FileTable.Valid, Printed;
    var last := 0;
    ghost var pos, goal := 0, table.console + Printed(fname, s, content);
    assert data[..0] + content[0..] == content;
    while true
      invariant table.Valid() && table.handles == old(table.handles)[fd := FT.File(content, pos)]
      invariant pos <= |content| && 0 <= last < WINDOW && data[WINDOW] != NEWLINE && Free(data[..last], NUL)
      invariant table.console + Printed(fname, s, data[..last] + content[pos..]) == goal
      decreases |content| - pos
    {
      var cnt := Refill(table, data, fd, last, content, pos);
      pos := pos + cnt;
      last := ScanWindow(table, s, fname, data, last + cnt, cnt, content[pos..]);
      if cnt == 0 { break; }
    }
    PrintedNothing(fname, s);
    assert data[..0] + content[|content|..] == [];
  }

  /** The read that fills the window behind the `last` bytes it holds; it falls short only at the end of the file. */
  method Refill(table: FT.FileTable, data: array<Byte>, fd: nat, last: nat, ghost content: seq<Byte>, ghost pos: nat)
    returns (cnt: nat)
    requires table.Valid() && fd in table.handles && table.handles[fd] == FT.File(content, pos) && fd != 0
    requires data.Length == WINDOW + 1 && last < WINDOW && pos <= |content|
    requires Free(data[..last], NUL) && Free(content, NUL)
    modifies table.slots, table`handles, data
    ensures table.Valid() && last + cnt <= WINDOW && pos + cnt <= |content|
    ensures table.handles == old(table.handles)[fd := FT.File(content, pos + cnt)]
    ensures last + cnt < WINDOW ==> pos + cnt == |content|
    ensures data[..last + cnt] + content[pos + cnt..] == old(data[..last]) + content[pos..]
    ensures Free(data[..last + cnt], NUL) && data[WINDOW] == old(data[WINDOW])
  {
    hide FT.FileTable.Valid, Slice, Splice, IndexOf, Free;
    Refilled(data[..], last, content, pos);
    cnt := table.Read(fd, data, last, WINDOW - last);
  }

  /** What the window holds once the slice at `pos` is stored behind its first `last` bytes. */
  lemma Refilled(was: seq<Byte>, last: nat, content: seq<Byte>, pos: nat)
    requires last < WINDOW && |was| == WINDOW + 1 && pos <= |content|
    requires Free(was[..last], NUL) && Free(content, NUL)
    ensures var bytes := Slice(content, pos, WINDOW - last);
      var now := Splice(was, last, bytes);
      && last + |bytes| <= WINDOW && pos + |bytes| <= |content|
      && (last + |bytes| < WINDOW ==> pos + |bytes| == |content|)
      && now[..last + |bytes|] + content[pos + |bytes|..] == was[..last] + content[pos..]
      && Free(now[..last + |bytes|], NUL) && now[WINDOW] == was[WINDOW]
  {
  }

  lemma PrintedCons(fname: seq<Byte>, s: seq<Byte>, piece: seq<Byte>, rest: seq<seq<Byte>>)
    ensures Report(fname, Selected([piece] + rest, s)) == Line(fname, s, piece) + Report(fname, Selected(rest, s))
  {
    var all, selected := [piece] + rest, Selected(rest, s);
    assert all[1..] == rest;
    if Matches(piece, s) {
      assert Selected(all, s) == [piece] + selected;
      assert ([piece] + selected)[1..] == selected;
    } else {
      assert Selected(all, s) == selected;
    }
  }

  /** Pieces of a text that starts with a line of `e` bytes. */
  lemma PiecesAt(text: seq<Byte>, e: nat)
    requires e <= |text| && text != [] && (forall i :: 0 <= i < e ==> text[i] != NEWLINE)
    requires e < |text| ==> text[e] == NEWLINE
    ensures Pieces(text) ==
      if e < WINDOW then [text[..e]] + (if e == |text| then [] else Pieces(text[e + 1..]))
      else [text[..WINDOW]] + Pieces(text[WINDOW..])
  {
  }

  lemma PrintedLine(fname: seq<Byte>, s: seq<Byte>, text: seq<Byte>, e: nat)
    requires e < |text| && e < WINDOW && text[e] == NEWLINE && Free(text[..e], NEWLINE)
    ensures Printed(fname, s, text) == Line(fname, s, text[..e]) + Printed(fname, s, text[e + 1..])
  {
    PiecesAt(text, e);
    hide Pieces, Selected, Report;
    PrintedCons(fname, s, text[..e], Pieces(text[e + 1..]));
  }

  lemma PrintedLast(fname: seq<Byte>, s: seq<Byte>, text: seq<Byte>)
    requires |text| < WINDOW && Free(text, NEWLINE)
    ensures Printed(fname, s, text) == Line(fname, s, text)
  {
    if text != [] {
      PiecesAt(text, |text|);
      assert Pieces(text) == [text] + [] by { assert text[..|text|] == text; }
      PrintedCons(fname, s, text, []);
    }
  }

  lemma PrintedNothing(fname: seq<Byte>, s: seq<Byte>)
    ensures Printed(fname, s, []) == []
  {
  }

  lemma PrintedFull(fname: seq<Byte>, s: seq<Byte>, text: seq<Byte>)
    requires |text| >= WINDOW && Free(text[..WINDOW], NEWLINE)
    ensures Printed(fname, s, text) == Line(fname, s, text[..WINDOW]) + Printed(fname, s, text[WINDOW..])
  {
    hide Pieces, Selected, Report, IndexOf;
    var e := IndexOf(text, NEWLINE);
    assert forall i :: 0 <= i < WINDOW ==> text[i] == text[..WINDOW][i];
    assert e < |text| ==> text[e] == NEWLINE;
    PiecesAt(text, e);
    PrintedCons(fname, s, text[..WINDOW], Pieces(text[WINDOW..]));
  }

  // ---- lines, pieces and reports in terms of the text ----

  /** The lines, with newlines between them, are the text, but for a newline at its very end; no line holds one. */
  lemma LinesAreText(text: seq<Byte>)
    ensures forall l <- Lines(text) :: Free(l, 10)
    ensures text == [] <==> Lines(text) == []
    ensures text != [] ==>
      text == JoinedBy(Lines(text), 10) + if text[|text| - 1] == 10 then [10] else []
  {
    LinesJoined(text);
    hide Lines;
    forall l, i | l in Lines(text) && 0 <= i < |l|
      ensures l[i] != 10
    {
      LinesAreParts(text, l, i);
    }
  }

  lemma {:induction false} LinesJoined(text: seq<Byte>)
    ensures text == [] <==> Lines(text) == []
    ensures text != [] ==>
      text == JoinedBy(Lines(text), 10) + if text[|text| - 1] == 10 then [10] else []
    decreases |text|
  {
    hide Lines, JoinedBy;
    if text == [] {
      NoLines();
    } else {
      var e := IndexOf(text, NEWLINE);
      LinesAt(text, e);
      hide IndexOf;
      assert [text[..e]] + [] == [text[..e]];
      FirstJoined(text[..e], if e == |text| then [] else Lines(text[e + 1..]));
      if e < |text| {
        assert text == text[..e] + [10] + text[e + 1..];
        LinesJoined(text[e + 1..]);
      }
    }
  }

  lemma NoLines()
    ensures Lines([]) == []
  {
  }

  lemma FirstJoined(line: seq<Byte>, rest: seq<seq<Byte>>)
    ensures JoinedBy([line] + rest, 10) == if rest == [] then line else line + [10] + JoinedBy(rest, 10)
  {
    assert ([line] + rest)[1..] == rest;
  }

  /** A line of any length is handed over in pieces of 1024 bytes and a rest. */
  lemma {:induction false} LineInPieces(line: seq<Byte>, i: nat)
    requires Free(line, 10) && i < |Pieces(line)|
    ensures 1024 * (|Pieces(line)| - 1) < |line| <= 1024 * |Pieces(line)|
    ensures 1024 * i < |line|
    ensures Pieces(line)[i] == line[1024 * i..if 1024 * (i + 1) <= |line| then 1024 * (i + 1) else |line|]
    decreases |line|
  {
    hide Pieces;
    NothingCut();
    if line != [] {
      PiecesAt(line, |line|);
      if |line| < WINDOW {
        assert line[..|line|] == line;
      } else {
        var rest := line[WINDOW..];
        if rest != [] {
          PiecesRemain(rest);
          LineInPieces(rest, if i == 0 then 0 else i - 1);
        }
        if i > 0 {
          var from, to := 1024 * i, if 1024 * (i + 1) <= |line| then 1024 * (i + 1) else |line|;
          assert Pieces(line)[i] == Pieces(rest)[i - 1] == rest[from - 1024..to - 1024] == line[from..to];
        }
      }
    }
  }

  lemma NothingCut()
    ensures Pieces([]) == []
  {
  }

  lemma PiecesRemain(text: seq<Byte>)
    requires text != []
    ensures Pieces(text) != []
  {
  }

  /** A newline ends a piece; after a multiple of 1024 bytes it is a piece of its own, which is empty. */
  lemma {:induction false} NewlineEndsPiece(line: seq<Byte>, rest: seq<Byte>)
    requires Free(line, 10)
    ensures Pieces(line + [10] + rest) == Pieces(line) + (if |line| % 1024 == 0 then [[]] else []) + Pieces(rest)
    decreases |line|
  {
    hide Pieces;
    NothingCut();
    if |line| < WINDOW {
      ShortLineEnds(line, rest);
    } else {
      LongLineEnds(line, rest);
      NewlineEndsPiece(line[WINDOW..], rest);
    }
  }

  lemma ShortLineEnds(line: seq<Byte>, rest: seq<Byte>)
    requires Free(line, 10) && |line| < WINDOW
    ensures Pieces(line + [10] + rest) == [line] + Pieces(rest) && (line != [] ==> Pieces(line) == [line])
  {
    hide Pieces;
    var text := line + [10] + rest;
    assert text[|line|] == 10 && forall i :: 0 <= i < |line| ==> text[i] == line[i];
    PiecesAt(text, |line|);
    assert text[..|line|] == line && text[|line| + 1..] == rest;
    if line != [] {
      PiecesAt(line, |line|);
      assert line[..|line|] == line;
    }
  }

  lemma LongLineEnds(line: seq<Byte>, rest: seq<Byte>)
    requires Free(line, 10) && |line| >= WINDOW
    ensures Pieces(line + [10] + rest) == [line[..WINDOW]] + Pieces(line[WINDOW..] + [10] + rest)
    ensures Pieces(line) == [line[..WINDOW]] + Pieces(line[WINDOW..])
  {
    hide Pieces;
    var text := line + [10] + rest;
    assert text[|line|] == 10 && forall i :: 0 <= i < |line| ==> text[i] == line[i];
    PiecesAt(text, |line|);
    PiecesAt(line, |line|);
    assert text[..WINDOW] == line[..WINDOW] && text[WINDOW..] == line[WINDOW..] + [10] + rest;
  }

  /** The lines selected are those that hold the pattern somewhere, in order. */
  lemma {:induction false} SelectGrows(lines: seq<seq<Byte>>, line: seq<Byte>, s: seq<Byte>)
    ensures Select([], s) == []
    ensures Select(lines + [line], s) == Select(lines, s) +
      if exists before, after :: before + s + after == line then [line] else []
    decreases |lines|
  {
    ContainsIs(line, s);
    if lines == [] {
      assert lines + [line] == [line] && [line][1..] == [];
      assert Select([line], s) == (if Contains(line, s) then [line] else []) + Select([], s);
    } else {
      assert (lines + [line])[1..] == lines[1..] + [line];
      SelectGrows(lines[1..], line, s);
    }
  }

  lemma ContainsIs(line: seq<Byte>, s: seq<Byte>)
    ensures Contains(line, s) <==> exists before, after :: before + s + after == line
  {
    if Contains(line, s) {
      var k: nat :| k <= |line| && OccursAt(line, s, k);
      assert line[..k] + s + line[k + |s|..] == line;
    }
    if before, after :| before + s + after == line {
      assert forall i :: 0 <= i < |s| ==> line[|before| + i] == s[i];
      assert OccursAt(line, s, |before|);
    }
  }

  /** Each line is reported behind the file name and a colon, and ended by a newline. */
  lemma {:induction false} ReportGrows(fname: seq<Byte>, lines: seq<seq<Byte>>, line: seq<Byte>)
    ensures Report(fname, []) == []
    ensures Report(fname, lines + [line]) == Report(fname, lines) + fname + [58] + line + [10]
    decreases |lines|
  {
    hide Report;
    ReportFirst(fname, line, []);
    if lines == [] {
      assert lines + [line] == [line] + [];
    } else {
      var rest := lines[1..];
      assert lines == [lines[0]] + rest && lines + [line] == [lines[0]] + (rest + [line]);
      ReportFirst(fname, lines[0], rest);
      ReportFirst(fname, lines[0], rest + [line]);
      ReportGrows(fname, rest, line);
    }
  }

  lemma ReportFirst(fname: seq<Byte>, line: seq<Byte>, rest: seq<seq<Byte>>)
    ensures Report(fname, [line] + rest) == fname + [58] + line + [10] + Report(fname, rest)
    ensures Report(fname, []) == []
  {
    assert ([line] + rest)[1..] == rest;
  }

  // ---- how far the output is the lines that contain the pattern ----

  /** A line the window does not cut, or one without any byte a pattern can start with. */
  predicate Harmless(line: seq<Byte>) {
    |line| <= WINDOW || forall i :: 0 <= i < |line| ==> line[i] >= 128
  }

  function Hit(line: seq<Byte>, s: seq<Byte>): seq<seq<Byte>> {
    if Contains(line, s) then [line] else []
  }

  lemma SelectCons(line: seq<Byte>, lines: seq<seq<Byte>>, s: seq<Byte>)
    ensures Select([line] + lines, s) == Hit(line, s) + Select(lines, s)
  {
  }

  /** Lines of a text that starts with a line of `e` bytes. */
  lemma LinesAt(text: seq<Byte>, e: nat)
    requires e <= |text| && text != [] && (forall i :: 0 <= i < e ==> text[i] != NEWLINE)
    requires e < |text| ==> text[e] == NEWLINE
    ensures Lines(text) == [text[..e]] + (if e == |text| then [] else Lines(text[e + 1..]))
  {
    IndexOfIs(text, NEWLINE, e);
  }

  lemma NoHit(line: seq<Byte>, s: seq<Byte>)
    requires s != [] && s[0] < 128 && forall i :: 0 <= i < |line| ==> line[i] >= 128
    ensures Hit(line, s) == []
  {
  }

  lemma {:induction false} CutIsHarmless(text: seq<Byte>, s: seq<Byte>)
    requires s != [] && s[0] < 128 && forall l <- Lines(text) :: Harmless(l)
    ensures Select(Pieces(text), s) == Select(Lines(text), s)
    decreases |text|
  {
    if text != [] {
      var e := IndexOf(text, NEWLINE);
      var after := if e == |text| then [] else Lines(text[e + 1..]);
      LinesAt(text, e);
      assert Harmless(text[..e]) && forall l <- after :: Harmless(l) by {
        assert Lines(text)[0] == text[..e] && forall l <- after :: l in Lines(text);
      }
      if e < WINDOW {
        if e < |text| { CutIsHarmless(text[e + 1..], s); }
        ShortFirst(text, s, e, after);
      } else {
        if WINDOW < |text| {
          TailLines(text, e, after);
          assert Harmless(text[..e][WINDOW..]);
        }
        CutIsHarmless(text[WINDOW..], s);
        LongFirst(text, s, e, after);
      }
    }
  }

  lemma ShortFirst(text: seq<Byte>, s: seq<Byte>, e: nat, after: seq<seq<Byte>>)
    requires e <= |text| && e < WINDOW && text != [] && (forall i :: 0 <= i < e ==> text[i] != NEWLINE)
    requires e < |text| ==> text[e] == NEWLINE
    requires after == if e == |text| then [] else Lines(text[e + 1..])
    requires e < |text| ==> Select(Pieces(text[e + 1..]), s) == Select(after, s)
    ensures Select(Pieces(text), s) == Select(Lines(text), s)
  {
    LinesAt(text, e);
    PiecesAt(text, e);
    hide Lines, Pieces, Hit;
    SelectCons(text[..e], after, s);
    SelectCons(text[..e], if e == |text| then [] else Pieces(text[e + 1..]), s);
  }

  lemma LongFirst(text: seq<Byte>, s: seq<Byte>, e: nat, after: seq<seq<Byte>>)
    requires s != [] && s[0] < 128 && WINDOW <= e <= |text| && (forall i :: 0 <= i < e ==> text[i] != NEWLINE)
    requires e < |text| ==> text[e] == NEWLINE
    requires after == (if e == |text| then [] else Lines(text[e + 1..])) && Harmless(text[..e])
    requires Select(Pieces(text[WINDOW..]), s) == Select(Lines(text[WINDOW..]), s)
    ensures Select(Pieces(text), s) == Select(Lines(text), s)
  {
    var first := text[..e];
    var head, tail := first[..WINDOW], first[WINDOW..];
    assert text[..WINDOW] == head && (|text| == WINDOW ==> after == [] && tail == [] == text[WINDOW..]);
    hide *;
    LinesAt(text, e);
    PiecesAt(text, e);
    SelectCons(first, after, s);
    SelectCons(head, Pieces(text[WINDOW..]), s);
    CutLine(first, s);
    NothingLeft(s);
    if WINDOW < |text| {
      TailLines(text, e, after);
      SelectCons(tail, after, s);
    }
    Associates(Hit(head, s), Hit(tail, s), Select(after, s));
  }

  lemma Associates(a: seq<seq<Byte>>, b: seq<seq<Byte>>, c: seq<seq<Byte>>)
    ensures (a + b) + c == a + (b + c)
  {
  }

  lemma NothingLeft(s: seq<Byte>)
    requires s != []
    ensures Hit([], s) == [] && Pieces([]) == [] && Select([], s) == []
  {
  }

  /** What follows the first window of a long line: the rest of that line, then the other lines. */
  lemma TailLines(text: seq<Byte>, e: nat, after: seq<seq<Byte>>)
    requires WINDOW <= e <= |text| && WINDOW < |text| && (forall i :: 0 <= i < e ==> text[i] != NEWLINE)
    requires e < |text| ==> text[e] == NEWLINE
    requires after == if e == |text| then [] else Lines(text[e + 1..])
    ensures Lines(text[WINDOW..]) == [text[..e][WINDOW..]] + after
  {
    var tail := text[WINDOW..];
    hide *;
    assert tail[..e - WINDOW] == text[..e][WINDOW..];
    if e < |text| {
      assert tail[e - WINDOW + 1..] == text[e + 1..];
    }
    LinesAt(tail, e - WINDOW);
  }

  lemma CutLine(line: seq<Byte>, s: seq<Byte>)
    requires s != [] && s[0] < 128 && Harmless(line) && |line| >= WINDOW
    ensures Hit(line, s) == Hit(line[..WINDOW], s) + Hit(line[WINDOW..], s)
  {
    if |line| == WINDOW {
      assert line[..WINDOW] == line && line[WINDOW..] == [];
      assert Hit([], s) == [];
    } else {
      NoHit(line, s);
      NoHit(line[..WINDOW], s);
      NoHit(line[WINDOW..], s);
    }
  }

  lemma {:induction false} PiecesAreShort(text: seq<Byte>)
    ensures forall p <- Pieces(text) :: |p| <= WINDOW
    decreases |text|
  {
    if text != [] {
      var e := IndexOf(text, NEWLINE);
      PiecesAt(text, e);
      hide Pieces, IndexOf;
      if e < WINDOW {
        if e < |text| { PiecesAreShort(text[e + 1..]); }
      } else {
        PiecesAreShort(text[WINDOW..]);
      }
    }
  }

  lemma {:induction false} SelectIsFilter(lines: seq<seq<Byte>>, s: seq<Byte>, l: seq<Byte>)
    ensures l in Select(lines, s) <==> l in lines && Contains(l, s)
  {
    if lines != [] {
      SelectIsFilter(lines[1..], s, l);
    }
  }

  /** What a reader of the documentation expects for pattern `s`. */
  predicate Faithful(text: seq<Byte>, s: seq<Byte>) {
    Selected(Pieces(text), s) == Select(Lines(text), s)
  }

  /** For a given file: every pattern that starts with an ASCII character reports exactly the lines containing it, in
      order, if and only if no line that has an ASCII character is longer than the window. */
  lemma FaithfulForFile(text: seq<Byte>)
    requires Free(text, NUL)
    ensures (forall s :: s != [] && s[0] < 128 && Free(s, NUL) ==> Faithful(text, s))
      <==> forall l <- Lines(text) :: |l| <= 1024 || forall i :: 0 <= i < |l| ==> l[i] >= 128
  {
    assert forall l :: Harmless(l) <==> |l| <= 1024 || forall i :: 0 <= i < |l| ==> l[i] >= 128;
    hide Select, Selected, Lines, Pieces, Harmless, Free;
    forall s: seq<Byte> | s != [] && s[0] < 128
      ensures (forall l <- Lines(text) :: Harmless(l)) ==> Faithful(text, s)
    {
      if forall l <- Lines(text) :: Harmless(l) { CutIsFaithful(text, s); }
    }
    if l :| l in Lines(text) && !Harmless(l) {
      var b := LongLineIsLost(text, l);
    }
  }

  lemma CutIsFaithful(text: seq<Byte>, s: seq<Byte>)
    requires s != [] && s[0] < 128 && forall l <- Lines(text) :: Harmless(l)
    ensures Faithful(text, s)
  {
    CutIsHarmless(text, s);
  }

  /** A line that is cut and holds an ASCII character is not among the lines reported for that character. */
  lemma LongLineIsLost(text: seq<Byte>, l: seq<Byte>) returns (b: Byte)
    requires Free(text, NUL) && l in Lines(text) && !Harmless(l)
    ensures b < 128 && Free([b], NUL) && !Faithful(text, [b])
  {
    var i :| 0 <= i < |l| && l[i] < 128;
    b := l[i];
    LinesAreParts(text, l, i);
    assert OccursAt(l, [b], i) && Contains(l, [b]);
    SelectIsFilter(Lines(text), [b], l);
    SelectIsFilter(Pieces(text), [b], l);
    PiecesAreShort(text);
    assert l in Select(Lines(text), [b]) && l !in Select(Pieces(text), [b]);
  }

  /** Bytes of lines are bytes of the text, and not newlines. */
  lemma {:induction false} LinesAreParts(text: seq<Byte>, l: seq<Byte>, i: nat)
    requires l in Lines(text) && i < |l|
    ensures l[i] in text && l[i] != NEWLINE
    decreases |text|
  {
    var e := IndexOf(text, NEWLINE);
    LinesAt(text, e);
    hide Lines, IndexOf;
    if l == text[..e] {
      assert text[i] == l[i];
    } else {
      LinesAreParts(text[e + 1..], l, i);
      assert forall b <- text[e + 1..] :: b in text;
    }
  }

  /** For a given pattern: every file whose lines fit the window has its matching lines reported exactly, if and only if
      the pattern is not empty and starts with an ASCII character, or cannot occur in such a line at all. */
  lemma FaithfulForPattern(s: seq<Byte>)
    requires Free(s, NUL)
    ensures (forall text :: Free(text, NUL) && (forall l <- Lines(text) :: |l| <= 1024) ==> Faithful(text, s))
      <==> (s != [] && s[0] < 128) || !Free(s, 10) || |s| > 1024
  {
    if s != [] && s[0] < 128 {
      forall text | Free(text, NUL) && forall l <- Lines(text) :: |l| <= WINDOW
        ensures Faithful(text, s)
      {
        CutIsHarmless(text, s);
      }
    } else if !Free(s, NEWLINE) || |s| > WINDOW {
      forall text | Free(text, NUL) && forall l <- Lines(text) :: |l| <= WINDOW
        ensures Faithful(text, s)
      {
        NeverOccurs(text, s);
      }
    } else {
      var text: seq<Byte> := if s == [] then [SPACE] else s;
      LinesAt(text, |text|);
      assert Lines(text) == [text] + [] by { assert text[..|text|] == text; }
      assert OccursAt(text, s, 0) && Contains(text, s);
      SelectCons(text, [], s);
      assert !Faithful(text, s);
    }
  }

  lemma NeverOccurs(text: seq<Byte>, s: seq<Byte>)
    requires !Free(s, NEWLINE) || |s| > WINDOW
    requires forall l <- Lines(text) :: |l| <= WINDOW
    ensures Select(Lines(text), s) == []
  {
    var selected := Select(Lines(text), s);
    if selected != [] {
      SelectIsFilter(Lines(text), s, selected[0]);
      PatternOfLine(text, selected[0], s);
    }
  }

  /** A pattern that occurs in a line has no newline and is no longer than the line. */
  lemma PatternOfLine(text: seq<Byte>, l: seq<Byte>, s: seq<Byte>)
    requires l in Lines(text) && Contains(l, s)
    ensures Free(s, NEWLINE) && |s| <= |l|
  {
    var k: nat :| OccursAt(l, s, k);
    assert OccursAt(l, s, k);
    forall i | 0 <= i < |s|
      ensures s[i] != NEWLINE
    {
      LinesAreParts(text, l, k + i);
    }
  }

}
