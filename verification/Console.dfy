/** The console grid as a window on the history of its output (student-distrib/lib.c, student-distrib/buffer.c). */
module Console {
  import opened Bytes

  const COLS := 80
  const ROWS := 24
  const SCREEN := 1920    // ROWS * COLS
  const CELLS := 2000     // with the row of the status bar

  /** One cell of a terminal's buffer. */
  datatype Node = Node(x: int, y: int, mo: Byte, printed: bool)

  // ---- what was printed, and what a row shows of it ----

  /** The lines printed so far; the last one is still being written. */
  type History = seq<seq<Byte>>

  predicate EndsLine(c: Byte) {
    c == NEWLINE || c == RETURN
  }

  /** The history after one more character. */
  function Written(h: History, c: Byte): (r: History)
    requires h != []
    ensures r != []
  {
    if EndsLine(c) then h + [[]] else h[|h| - 1 := h[|h| - 1] + [c]]
  }

  function WrittenAll(h: History, s: seq<Byte>): (r: History)
    requires h != []
    ensures r != []
    decreases |s|
  {
    if s == [] then h else WrittenAll(Written(h, s[0]), s[1..])
  }

  /** The lines of a history, with newlines between them, are the text that was written, with every carriage return
      taken for a newline; no line holds either of the two. */
  lemma HistoryIsText(s: seq<Byte>)
    ensures var h := WrittenAll([[]], s);
      && (forall i :: 0 <= i < |h| ==> Free(h[i], 10) && Free(h[i], 13))
      && |JoinedBy(h, 10)| == |s|
      && forall i :: 0 <= i < |s| ==> JoinedBy(h, 10)[i] == if s[i] == 13 then 10 else s[i]
  {
    IsHistory(s);
  }

  lemma IsHistory(s: seq<Byte>)
    ensures IsHistoryOf(WrittenAll([[]], s), s)
  {
    assert JoinedBy([[]], 10) == [];
    TextGrows([[]], [], s);
    assert [] + s == s;
  }

  /** The lines are those of the text. */
  ghost predicate IsHistoryOf(lines: seq<seq<Byte>>, s: seq<Byte>) {
    && lines != [] && (forall i :: 0 <= i < |lines| ==> Free(lines[i], 10) && Free(lines[i], 13))
    && |JoinedBy(lines, 10)| == |s|
    && forall i :: 0 <= i < |s| ==> JoinedBy(lines, 10)[i] == if s[i] == 13 then 10 else s[i]
  }

  lemma {:induction false} TextGrows(h: History, t: seq<Byte>, s: seq<Byte>)
    requires IsHistoryOf(h, t)
    ensures IsHistoryOf(WrittenAll(h, s), t + s)
    decreases |s|
  {
    if s == [] {
      assert t + s == t;
    } else {
      CharacterWritten(h, t, s[0]);
      TextGrows(Written(h, s[0]), t + [s[0]], s[1..]);
      assert t + [s[0]] + s[1..] == t + s;
    }
  }

  lemma CharacterWritten(h: History, t: seq<Byte>, c: Byte)
    requires IsHistoryOf(h, t)
    ensures IsHistoryOf(Written(h, c), t + [c])
  {
    var last, h' := |h| - 1, Written(h, c);
    if EndsLine(c) {
      JoinedPlus(h, [[]], 10);
      assert JoinedBy(h', 10) == JoinedBy(h, 10) + [10];
    } else {
      assert h == h[..last] + [h[last]] && h' == h[..last] + [h[last] + [c]];
      if last > 0 {
        JoinedPlus(h[..last], [h[last]], 10);
        JoinedPlus(h[..last], [h[last] + [c]], 10);
      }
      assert JoinedBy(h', 10) == JoinedBy(h, 10) + [c];
    }
  }

  lemma HistoryIsUnique(lines: seq<seq<Byte>>, s: seq<Byte>)
    requires IsHistoryOf(lines, s)
    ensures lines == WrittenAll([[]], s)
  {
    IsHistory(s);
    assert JoinedBy(lines, 10) == JoinedBy(WrittenAll([[]], s), 10);
    PartsAreUnique(lines, WrittenAll([[]], s), 10);
  }

  /** The text determines the lines. */
  lemma LinesAreUnique(lines: seq<seq<Byte>>, s: seq<Byte>)
    requires lines != [] && forall i :: 0 <= i < |lines| ==> Free(lines[i], 10) && Free(lines[i], 13)
    requires |JoinedBy(lines, 10)| == |s|
      && forall i :: 0 <= i < |s| ==> JoinedBy(lines, 10)[i] == if s[i] == 13 then 10 else s[i]
    ensures lines == WrittenAll([[]], s)
  {
    HistoryIsUnique(lines, s);
  }

  /** The character last written in column `col` by a line that starts over in column 0 after every 80 characters. */
  function LastIn(line: seq<Byte>, col: nat): Byte {
    if line == [] then SPACE
    else if (|line| - 1) % 80 == col then line[|line| - 1]
    else LastIn(line[..|line| - 1], col)
  }

  /** What a row shows in column `col`. Ending a line blanks the column its next character would go to. */
  function RowCell(line: seq<Byte>, ended: bool, col: nat): Byte {
    if ended && col == |line| % 80 then SPACE else LastIn(line, col)
  }

  /** The row of the grid that the last line is written in. */
  function LastRow(h: History): int {
    Min(|h| - 1, ROWS - 1)
  }

  /** What cell `i` of the screen shows: the last 24 lines from the top, then blank rows. */
  function HistoryCell(h: History, i: nat): Byte
    requires h != [] && i < SCREEN
  {
    var row, y := i / 80, LastRow(h);
    if row > y then SPACE else RowCell(h[|h| - 1 - y + row], row < y, i % 80)
  }

  /** A cell as the screen shows it. */
  function Shown(mo: Byte): Byte {
    if mo == NEWLINE then SPACE else mo
  }

  /** A terminal's buffer and the cursor in it. */
  datatype Grid = Grid(cells: seq<Node>, x: nat, y: nat)

  ghost predicate Within(g: Grid) {
    |g.cells| == CELLS && g.x < COLS && g.y < ROWS
  }

  /** The buffer and the cursor stand for the history. */
  ghost predicate Shows(g: Grid, h: History) {
    && |g.cells| == CELLS && h != []
    && g.x == |h[|h| - 1]| % 80 && g.y == LastRow(h)
    && forall i :: 0 <= i < SCREEN ==> Shown(g.cells[i].mo) == HistoryCell(h, i)
  }

  // ---- the 79-column limit ----

  /** The row shows the line left-aligned and padded with blanks. */
  predicate ShowsLine(line: seq<Byte>, ended: bool) {
    forall col :: 0 <= col < COLS ==> RowCell(line, ended, col) == if col < |line| then line[col] else SPACE
  }

  /** Every line of `n` characters is shown in full exactly when it leaves the row a column for its end: up to 79
      characters once it has ended, up to 80 before. */
  lemma RowsShowShortLines(n: nat, ended: bool)
    ensures (forall line: seq<Byte> :: |line| == n ==> ShowsLine(line, ended)) <==> n <= if ended then 79 else 80
  {
    if n <= if ended then 79 else 80 {
      forall line: seq<Byte>, col | |line| == n && 0 <= col < COLS
        ensures RowCell(line, ended, col) == if col < |line| then line[col] else SPACE
      {
        LastInShort(line, col);
      }
    } else {
      var line: seq<Byte> := seq(n, i => if i == 0 then 65 else 66);
      FirstIsLost(line);
      assert RowCell(line, ended, 0) != line[0];
      assert !ShowsLine(line, ended);
    }
  }

  lemma {:induction false} LastInShort(line: seq<Byte>, col: nat)
    requires |line| <= COLS && col < COLS
    ensures LastIn(line, col) == if col < |line| then line[col] else SPACE
  {
    if line != [] {
      LastInShort(line[..|line| - 1], col);
    }
  }

  /** A row shows in each column the last character of the line whose position is that column modulo 80. */
  lemma {:induction false} LastInIs(line: seq<Byte>, col: nat, k: nat)
    requires col < 80
    ensures (forall i :: 0 <= i < |line| ==> i % 80 != col) ==> LastIn(line, col) == 32
    ensures k < |line| <= k + 80 && k % 80 == col ==> LastIn(line, col) == line[k]
  {
    if line != [] && (|line| - 1) % 80 != col {
      LastInIs(line[..|line| - 1], col, k);
    }
  }

  lemma {:induction false} FirstIsLost(line: seq<Byte>)
    requires |line| >= COLS && line[0] == 65 && forall i :: 1 <= i < |line| ==> line[i] == 66
    ensures |line| > COLS ==> LastIn(line, 0) == 66
  {
    if |line| > COLS && (|line| - 1) % 80 != 0 {
      FirstIsLost(line[..|line| - 1]);
    }
  }

  // ---- one character, on the cells ----

  /** The cells after everything has moved up by a row. */
  function Scrolled(cells: seq<Node>): (r: seq<Node>)
    requires |cells| == CELLS
    ensures |r| == CELLS
  {
    seq(CELLS, i requires 0 <= i < CELLS =>
      if i < SCREEN - COLS then cells[i].(mo := Shown(cells[i + COLS].mo))
      else if i < SCREEN then cells[i].(mo := SPACE)
      else cells[i])
  }

  /** The cell under the cursor, and the grid once it holds `n`. */
  function Under(g: Grid): Node
    requires Within(g)
  {
    g.cells[80 * g.y + g.x]
  }

  function Stored(g: Grid, n: Node): seq<Node>
    requires Within(g)
  {
    g.cells[80 * g.y + g.x := n]
  }

  /** `put_cout` on a terminal's buffer. */
  function Put(g: Grid, c: Byte): (r: Grid)
    requires Within(g)
    ensures Within(r)
  {
    if EndsLine(c) then
      var cells := Stored(g, Under(g).(mo := NEWLINE));
      if g.y != ROWS - 1 then Grid(cells, 0, g.y + 1) else Grid(Scrolled(cells), 0, ROWS - 1)
    else
      Grid(Stored(g, Under(g).(mo := c, printed := true)), (g.x + 1) % 80, g.y)
  }

  function PutAll(g: Grid, s: seq<Byte>): (r: Grid)
    requires Within(g)
    ensures Within(r)
    decreases |s|
  {
    if s == [] then g else PutAll(Put(g, s[0]), s[1..])
  }

  lemma CharacterShows(g: Grid, h: History, c: Byte)
    requires Within(g) && Shows(g, h) && !EndsLine(c)
    ensures Shows(Put(g, c), Written(h, c))
  {
  }

  /** Ending a line blanks the cell under the cursor. */
  lemma NewlineShows(g: Grid, h: History, i: nat)
    requires Within(g) && Shows(g, h) && i < SCREEN
    ensures Shown(Stored(g, Under(g).(mo := NEWLINE))[i].mo)
         == if i / 80 <= g.y then RowCell(h[|h| - 1 - g.y + i / 80], true, i % 80) else SPACE
  {
  }

  lemma NextLineShows(g: Grid, h: History, c: Byte)
    requires Within(g) && Shows(g, h) && EndsLine(c) && g.y < ROWS - 1
    ensures Shows(Put(g, c), Written(h, c))
  {
  }

  lemma ScrollShows(g: Grid, h: History, c: Byte)
    requires Within(g) && Shows(g, h) && EndsLine(c) && g.y == ROWS - 1
    ensures Shows(Put(g, c), Written(h, c))
  {
    var h' := h + [[]];
    forall i | 0 <= i < SCREEN
      ensures Shown(Put(g, c).cells[i].mo) == HistoryCell(h', i)
    {
      if i < SCREEN - COLS {
        NewlineShows(g, h, i + COLS);
        assert (i + COLS) / 80 == i / 80 + 1 && (i + COLS) % 80 == i % 80;
        assert h'[|h'| - ROWS + i / 80] == h[|h| - ROWS + (i / 80 + 1)];
      } else {
        assert i / 80 == ROWS - 1 && h'[|h'| - 1] == [];
      }
    }
  }

  /** Every character keeps the grid a window on the history. */
  lemma PutShows(g: Grid, h: History, c: Byte)
    requires Within(g) && Shows(g, h)
    ensures Shows(Put(g, c), Written(h, c))
  {
    if !EndsLine(c) {
      CharacterShows(g, h, c);
    } else if g.y < ROWS - 1 {
      NextLineShows(g, h, c);
    } else {
      ScrollShows(g, h, c);
    }
  }

  lemma {:induction false} OutputShows(g: Grid, h: History, s: seq<Byte>)
    requires Within(g) && Shows(g, h)
    ensures Shows(PutAll(g, s), WrittenAll(h, s))
    decreases |s|
  {
    if s != [] {
      PutShows(g, h, s[0]);
      OutputShows(Put(g, s[0]), Written(h, s[0]), s[1..]);
    }
  }

  /** The buffer after `reset_buf`. */
  predicate Blank(cells: seq<Node>) {
    |cells| == CELLS && forall i :: 0 <= i < CELLS ==> cells[i] == Node(i % 80, i / 80, SPACE, false)
  }

  lemma BlankShows(cells: seq<Node>)
    requires Blank(cells)
    ensures var g := Grid(cells, 0, 0); Within(g) && Shows(g, [[]]) && NewlinesEnd(g, [[]])
    ensures Stands(cells, Cursor(0, 0, 0, 0), [[]])
  {
  }

  /** The text split at its newlines and carriage returns. If no line has more than 79 characters, the one being written
      included, the grid shows the last 24 of them in order, each left-aligned in its row and padded with blanks. */
  lemma ScreenIsLastLines(blank: seq<Node>, s: seq<Byte>, lines: seq<seq<Byte>>, row: nat, col: nat)
    requires Blank(blank) && row < 24 && col < 80
    requires lines != []
      && forall i :: 0 <= i < |lines| ==> |lines[i]| <= 79 && Free(lines[i], 10) && Free(lines[i], 13)
    requires |JoinedBy(lines, 10)| == |s|
      && forall i :: 0 <= i < |s| ==> JoinedBy(lines, 10)[i] == if s[i] == 13 then 10 else s[i]
    ensures var g := PutAll(Grid(blank, 0, 0), s);
      && g.y == Min(|lines|, 24) - 1 && g.x == |lines[|lines| - 1]|
      && var mo := g.cells[80 * row + col].mo;
      (if mo == 10 then 32 else mo)
      == if row > g.y then 32
         else var line := lines[|lines| - 1 - g.y + row]; if col < |line| then line[col] else 32
  {
    hide *;
    LinesAreUnique(lines, s);
    BlankShows(blank);
    OutputShows(Grid(blank, 0, 0), [[]], s);
    ShownIsLastLines(PutAll(Grid(blank, 0, 0), s), lines, row, col);
  }

  lemma ShownIsLastLines(g: Grid, h: History, row: nat, col: nat)
    requires Shows(g, h) && row < 24 && col < 80 && forall i :: 0 <= i < |h| ==> |h[i]| <= 79
    ensures |g.cells| == 2000 && h != [] && g.y == Min(|h|, 24) - 1 && g.x == |h[|h| - 1]|
    ensures var mo := g.cells[80 * row + col].mo;
      (if mo == 10 then 32 else mo)
      == if row > g.y then 32 else var line := h[|h| - 1 - g.y + row]; if col < |line| then line[col] else 32
  {
    hide LastIn;
    var i := 80 * row + col;
    assert i / 80 == row && i % 80 == col;
    assert Shown(g.cells[i].mo) == HistoryCell(h, i);
    if row <= g.y {
      LastInShort(h[|h| - 1 - g.y + row], col);
    }
  }

  // ---- the screen ----

  /** Newlines stand exactly where lines have ended, until the first scroll. */
  ghost predicate NewlinesEnd(g: Grid, h: History)
    requires |g.cells| == CELLS
  {
    forall i :: 0 <= i < SCREEN ==> (g.cells[i].mo == NEWLINE <==> EndsAt(h, i))
  }

  /** A line other than the last has ended at cell `i`, and nothing has scrolled. */
  predicate EndsAt(h: History, i: nat) {
    |h| <= 24 && i / 80 < |h| - 1 && i % 80 == |h[i / 80]| % 80
  }

  lemma PutKeepsNewlines(g: Grid, h: History, c: Byte)
    requires Within(g) && Shows(g, h) && NewlinesEnd(g, h)
    ensures NewlinesEnd(Put(g, c), Written(h, c))
  {
    forall i | 0 <= i < SCREEN
      ensures Put(g, c).cells[i].mo == NEWLINE <==> EndsAt(Written(h, c), i)
    {
      assert i / 80 == g.y <==> 80 * g.y <= i < 80 * g.y + 80;
      if i / 80 == g.y { assert i % 80 == i - 80 * g.y; }
    }
  }

  lemma {:induction false} OutputKeepsNewlines(g: Grid, h: History, s: seq<Byte>)
    requires Within(g) && Shows(g, h) && NewlinesEnd(g, h)
    ensures NewlinesEnd(PutAll(g, s), WrittenAll(h, s))
    decreases |s|
  {
    if s != [] {
      PutShows(g, h, s[0]);
      PutKeepsNewlines(g, h, s[0]);
      OutputKeepsNewlines(Put(g, s[0]), Written(h, s[0]), s[1..]);
    }
  }

  /** The characters on the screen after `printb`: a newline leaves what was there. */
  function Repainted(video: seq<Byte>, cells: seq<Node>): (r: seq<Byte>)
    requires |video| == |cells| == CELLS
    ensures |r| == CELLS
  {
    seq(CELLS, i requires 0 <= i < CELLS => if i < SCREEN && cells[i].mo != NEWLINE then cells[i].mo else video[i])
  }

  /** Rows 0 to 23 of the screen show the history. */
  ghost predicate Displays(video: seq<Byte>, h: History) {
    |video| == CELLS && h != [] && forall i :: 0 <= i < SCREEN ==> video[i] == HistoryCell(h, i)
  }

  ghost predicate ShortLines(h: History) {
    forall line <- h :: |line| <= 79
  }

  /** No line goes away, those that have ended stay as they are, and the last one only gets longer. */
  lemma {:induction false} LinesStay(h: History, s: seq<Byte>)
    requires h != []
    ensures |h| <= |WrittenAll(h, s)| && h[|h| - 1] <= WrittenAll(h, s)[|h| - 1]
    ensures forall j :: 0 <= j < |h| - 1 ==> WrittenAll(h, s)[j] == h[j]
    decreases |s|
  {
    if s != [] { LinesStay(Written(h, s[0]), s[1..]); }
  }

  /** The output does not end the line that was being written, or scrolls, or ends that line in a column that was blank
      before. */
  predicate KeepsUp(h: History, s: seq<Byte>)
    requires h != []
  {
    var h', last := WrittenAll(h, s), |h| - 1;
    LinesStay(h, s);
    |h'| > 24 || |h'| == |h| || LastIn(h[last], |h'[last]| % 80) == SPACE
  }

  /** A write leaves the screen showing the history exactly when its newline for the line being written goes to a column
      that was blank before the write, or is scrolled away: under a newline the screen keeps what it showed. */
  lemma WriteDisplaysExactly(video: seq<Byte>, g: Grid, h: History, s: seq<Byte>)
    requires Within(g) && Shows(g, h) && NewlinesEnd(g, h) && Displays(video, h)
    ensures Displays(Repainted(video, PutAll(g, s).cells), WrittenAll(h, s)) <==> KeepsUp(h, s)
  {
    var cells, h' := PutAll(g, s).cells, WrittenAll(h, s);
    OutputShows(g, h, s);
    OutputKeepsNewlines(g, h, s);
    if KeepsUp(h, s) {
      forall i | 0 <= i < SCREEN
        ensures Repainted(video, cells)[i] == HistoryCell(h', i)
      {
        assert Shown(cells[i].mo) == HistoryCell(h', i);
        if EndsAt(h', i) { BlankBeforeNewline(h, s, i); }
      }
    } else {
      StaleCell(h, s);
      var i := 80 * (|h| - 1) + |h'[|h| - 1]| % 80;
      assert Repainted(video, cells)[i] == video[i];
    }
  }

  /** Where a line has ended by the end of such output, nothing was shown before it. */
  lemma BlankBeforeNewline(h: History, s: seq<Byte>, i: nat)
    requires h != [] && i < SCREEN && EndsAt(WrittenAll(h, s), i) && KeepsUp(h, s)
    ensures HistoryCell(h, i) == SPACE
  {
    LinesStay(h, s);
    var row, h' := i / 80, WrittenAll(h, s);
    if row < |h| - 1 { assert h'[row] == h[row]; }
  }

  /** For any other output, the cell in which the line ends, and which the screen keeps. */
  lemma StaleCell(h: History, s: seq<Byte>)
    requires h != [] && !KeepsUp(h, s)
    ensures var h' := WrittenAll(h, s);
      && |h| <= 24 && |h| <= |h'| && 0 <= 80 * (|h| - 1) + |h'[|h| - 1]| % 80 < SCREEN
      && var i := 80 * (|h| - 1) + |h'[|h| - 1]| % 80;
      EndsAt(h', i) && HistoryCell(h, i) != SPACE && HistoryCell(h', i) == SPACE
  {
    LinesStay(h, s);
    var h' := WrittenAll(h, s);
    var i := 80 * (|h| - 1) + |h'[|h| - 1]| % 80;
    assert i / 80 == |h| - 1 && i % 80 == |h'[|h| - 1]| % 80;
  }

  /** The screen shows a history of lines below 80 characters when its rows are the last 24 lines, each left-aligned and
      padded with blanks, and only then. */
  lemma DisplayIsLastLines(video: seq<Byte>, h: History)
    requires |video| == 2000 && h != [] && forall i :: 0 <= i < |h| ==> |h[i]| <= 79
    ensures Displays(video, h) <==>
      forall i :: 0 <= i < 1920 ==>
        video[i] ==
          if i / 80 >= |h| then 32
          else
            var line := h[if |h| <= 24 then i / 80 else |h| - 24 + i / 80];
            if i % 80 < |line| then line[i % 80] else 32
  {
    hide LastIn;
    forall i | 0 <= i < SCREEN
      ensures HistoryCell(h, i) ==
        if i / 80 >= |h| then 32
        else
          var line := h[if |h| <= 24 then i / 80 else |h| - 24 + i / 80];
          if i % 80 < |line| then line[i % 80] else 32
    {
      var row, y := i / 80, LastRow(h);
      if row <= y { LastInShort(h[|h| - 1 - y + row], i % 80); }
    }
  }

  lemma ShortLinesKeepUp(h: History, s: seq<Byte>)
    requires h != [] && ShortLines(WrittenAll(h, s))
    ensures KeepsUp(h, s)
  {
    hide WrittenAll, LastIn;
    LinesStay(h, s);
    var line := WrittenAll(h, s)[|h| - 1];
    assert line in WrittenAll(h, s);
    LastInShort(h[|h| - 1], |line|);
  }

  /** While lines stay below 80 characters, every write leaves the screen showing the history. */
  lemma WriteDisplays(video: seq<Byte>, g: Grid, h: History, s: seq<Byte>)
    requires Within(g) && Shows(g, h) && NewlinesEnd(g, h) && Displays(video, h)
    requires forall line <- WrittenAll(h, s) :: |line| <= 79
    ensures Displays(Repainted(video, PutAll(g, s).cells), WrittenAll(h, s))
  {
    hide Shows, NewlinesEnd, KeepsUp, Repainted, PutAll, WrittenAll, HistoryCell;
    ShortLinesKeepUp(h, s);
    WriteDisplaysExactly(video, g, h, s);
  }

  /** A line of any characters but spaces, written to a blank screen and ended by a second write, is shown right exactly
      when it has fewer than 80 of them: the newline of a longer one is stored on a character, which stays on the
      screen. */
  lemma LateNewlineStays(blank: seq<Node>, video: seq<Byte>, line: seq<Byte>)
    requires Blank(blank) && Displays(video, [[]])
    requires forall i :: 0 <= i < |line| ==> !EndsLine(line[i]) && line[i] != SPACE
    ensures var first := PutAll(Grid(blank, 0, 0), line);
      Displays(Repainted(Repainted(video, first.cells), PutAll(first, [NEWLINE]).cells), [line, []]) <==> |line| < 80
  {
    hide Blank, Repainted, Shows, NewlinesEnd, PutAll, Put, WrittenAll, Written, KeepsUp, HistoryCell, LastIn;
    var g := Grid(blank, 0, 0);
    BlankShows(blank);
    var first := PutAll(g, line);
    LineWritten([], line);
    assert [] + line == line;
    OutputShows(g, [[]], line);
    OutputKeepsNewlines(g, [[]], line);
    FirstLineKeepsUp(line);
    WriteDisplaysExactly(video, g, [[]], line);
    NewlineKeepsUp(line);
    WriteDisplaysExactly(Repainted(video, first.cells), first, [line], [NEWLINE]);
  }

  lemma FirstLineKeepsUp(line: seq<Byte>)
    requires WrittenAll([[]], line) == [line]
    ensures KeepsUp([[]], line)
  {
  }

  lemma NewlineKeepsUp(line: seq<Byte>)
    requires forall i :: 0 <= i < |line| ==> !EndsLine(line[i]) && line[i] != SPACE
    ensures WrittenAll([line], [NEWLINE]) == [line, []] && (KeepsUp([line], [NEWLINE]) <==> |line| < 80)
  {
    assert Written([line], NEWLINE) == [line, []];
    assert WrittenAll([line, []], []) == [line, []] && [NEWLINE][1..] == [];
    LastInBlank(line, |line| % 80);
  }

  /** Writing characters that end no line makes the line longer. */
  lemma {:induction false} LineWritten(start: seq<Byte>, line: seq<Byte>)
    requires forall i :: 0 <= i < |line| ==> !EndsLine(line[i])
    ensures WrittenAll([start], line) == [start + line]
    decreases |line|
  {
    if line == [] {
      assert start + line == start;
    } else {
      assert Written([start], line[0]) == [start + [line[0]]];
      LineWritten(start + [line[0]], line[1..]);
      assert start + line == start + [line[0]] + line[1..];
    }
  }

  lemma {:induction false} LastInBlank(line: seq<Byte>, col: nat)
    requires col < 80 && forall i :: 0 <= i < |line| ==> line[i] != SPACE
    ensures LastIn(line, col) == SPACE <==> |line| <= col
  {
    if line != [] { LastInBlank(line[..|line| - 1], col); }
  }

  // ---- three terminals that take turns ----

  datatype Event = Output(s: seq<Byte>) | Switch(to: nat)

  datatype Terminals = Terminals(histories: seq<History>, active: nat)

  ghost predicate Three(t: Terminals) {
    |t.histories| == 3 && t.active < 3 && forall k :: 0 <= k < 3 ==> t.histories[k] != []
  }

  function Step(t: Terminals, e: Event): (r: Terminals)
    requires Three(t) && (e.Switch? ==> e.to < 3)
    ensures Three(r)
  {
    match e
    case Output(s) => t.(histories := t.histories[t.active := WrittenAll(t.histories[t.active], s)])
    case Switch(to) => t.(active := to)
  }

  ghost predicate Switches(es: seq<Event>) {
    forall e <- es :: e.Switch? ==> e.to < 3
  }

  function Run(t: Terminals, es: seq<Event>): (r: Terminals)
    requires Three(t) && Switches(es)
    ensures Three(r)
    decreases |es|
  {
    if es == [] then t else Run(Step(t, es[0]), es[1..])
  }

  /** What terminal `k` was given while it was the active one. */
  function Given(active: nat, es: seq<Event>, k: nat): seq<Byte>
    decreases |es|
  {
    if es == [] then []
    else match es[0]
      case Output(s) => (if active == k then s else []) + Given(active, es[1..], k)
      case Switch(to) => Given(to, es[1..], k)
  }

  /** However output and switching interleave, a terminal's history is that of its own output alone. */
  lemma {:induction false} TerminalsAreIndependent(t: Terminals, es: seq<Event>, k: nat)
    requires Three(t) && Switches(es) && k < 3
    ensures Run(t, es).histories[k] == WrittenAll(t.histories[k], Given(t.active, es, k))
    decreases |es|
  {
    if es != [] {
      var t' := Step(t, es[0]);
      TerminalsAreIndependent(t', es[1..], k);
      if es[0].Output? && t.active == k {
        WrittenTogether(t.histories[k], es[0].s, Given(t.active, es[1..], k));
      } else if es[0].Output? {
        assert [] + Given(t.active, es[1..], k) == Given(t.active, es[1..], k);
      }
    }
  }

  lemma {:induction false} WrittenTogether(h: History, s: seq<Byte>, t: seq<Byte>)
    requires h != []
    ensures WrittenAll(h, s + t) == WrittenAll(WrittenAll(h, s), t)
    decreases |s|
  {
    if s == [] {
      assert s + t == t;
    } else {
      assert (s + t)[1..] == s[1..] + t;
      WrittenTogether(Written(h, s[0]), s[1..], t);
    }
  }

  // ---- the globals, the buffers and the screen ----

  /** What `terminal_switch` saves of a terminal. */
  datatype Cursor = Cursor(line: nat, limit: nat, x: nat, y: nat)

  /** Every cell knows its place, and none holds a carriage return. */
  ghost predicate Placed(cells: seq<Node>) {
    forall i :: 0 <= i < |cells| ==> cells[i].x == i % 80 && cells[i].y == i / 80 && cells[i].mo != RETURN
  }

  lemma PutPlaced(g: Grid, c: Byte)
    requires Within(g) && Placed(g.cells)
    ensures Placed(Put(g, c).cells)
  {
    hide Scrolled;
    if EndsLine(c) && g.y == ROWS - 1 { ScrolledPlaced(Stored(g, Under(g).(mo := NEWLINE))); }
  }

  lemma ScrolledPlaced(cells: seq<Node>)
    requires |cells| == CELLS && Placed(cells)
    ensures Placed(Scrolled(cells))
  {
  }

  /** The terminal with these cells and this cursor stands for the history. */
  ghost predicate Stands(cells: seq<Node>, c: Cursor, h: History) {
    var g := Grid(cells, c.x, c.y);
    Within(g) && Placed(cells) && Shows(g, h) && NewlinesEnd(g, h) && c.line == c.limit == |h[|h| - 1]|
  }

  lemma StandsParts(cells: seq<Node>, c: Cursor, h: History)
    requires Stands(cells, c, h)
    ensures |cells| == CELLS && c.x < COLS && c.y < ROWS && c.line == c.limit && h != [] && Placed(cells)
    ensures forall i :: 0 <= i < SCREEN ==> Shown(cells[i].mo) == HistoryCell(h, i)
  {
  }

  lemma PutStands(cells: seq<Node>, c: Cursor, h: History, b: Byte, c': Cursor)
    requires Stands(cells, c, h)
    requires c'.line == c'.limit == (if EndsLine(b) then 0 else c.line + 1)
    requires var r := Put(Grid(cells, c.x, c.y), b); c'.x == r.x && c'.y == r.y
    ensures Stands(Put(Grid(cells, c.x, c.y), b).cells, c', Written(h, b))
  {
    PutShows(Grid(cells, c.x, c.y), h, b);
    PutKeepsNewlines(Grid(cells, c.x, c.y), h, b);
    PutPlaced(Grid(cells, c.x, c.y), b);
    LastLineGrows(h, b);
  }

  lemma LastLineGrows(h: History, c: Byte)
    requires h != []
    ensures var r := Written(h, c); |r[|r| - 1]| == if EndsLine(c) then 0 else |h[|h| - 1]| + 1
  {
  }

  /** The counters after some output: characters since the last newline, or since they were started. */
  function Counted(n: nat, s: seq<Byte>): nat
    decreases |s|
  {
    if s == [] then n else Counted(if EndsLine(s[0]) then 0 else n + 1, s[1..])
  }

  lemma NothingPut(g: Grid, n: nat)
    requires Within(g)
    ensures PutAll(g, []) == g && Counted(n, []) == n
  {
  }

  lemma {:induction false} PutOneMore(g: Grid, s: seq<Byte>, i: nat, n: nat)
    requires Within(g) && i < |s|
    ensures PutAll(g, s[..i + 1]) == Put(PutAll(g, s[..i]), s[i])
    ensures Counted(n, s[..i + 1]) == if EndsLine(s[i]) then 0 else Counted(n, s[..i]) + 1
    decreases i
  {
    if i > 0 {
      assert s[1..][..i - 1] == s[..i][1..] && s[1..][..i] == s[..i + 1][1..];
      PutOneMore(Put(g, s[0]), s[1..], i - 1, if EndsLine(s[0]) then 0 else n + 1);
    }
  }

  lemma {:induction false} OutputStands(cells: seq<Node>, c: Cursor, h: History, s: seq<Byte>, c': Cursor)
    requires Stands(cells, c, h) && c'.line == c'.limit == Counted(c.line, s)
    requires var r := PutAll(Grid(cells, c.x, c.y), s); c'.x == r.x && c'.y == r.y
    ensures Stands(PutAll(Grid(cells, c.x, c.y), s).cells, c', WrittenAll(h, s))
    decreases |s|
  {
    if s != [] {
      var g := Put(Grid(cells, c.x, c.y), s[0]);
      var n := if EndsLine(s[0]) then 0 else c.line + 1;
      PutStands(cells, c, h, s[0], Cursor(n, n, g.x, g.y));
      hide Stands;
      OutputStands(g.cells, Cursor(n, n, g.x, g.y), Written(h, s[0]), s[1..], c');
    }
  }

  lemma WriteKeepsDisplay(video: seq<Byte>, cells: seq<Node>, c: Cursor, h: History, s: seq<Byte>)
    requires Stands(cells, c, h) && |video| == CELLS
    ensures h != [] && |WrittenAll(h, s)| > 0
    ensures var g, h' := Grid(cells, c.x, c.y), WrittenAll(h, s);
      && (Displays(video, h) ==> (Displays(Repainted(video, PutAll(g, s).cells), h') <==> KeepsUp(h, s)))
      && (ShortLines(h') ==> KeepsUp(h, s))
  {
    hide KeepsUp, ShortLines, Repainted;
    if Displays(video, h) { WriteDisplaysExactly(video, Grid(cells, c.x, c.y), h, s); }
    if ShortLines(WrittenAll(h, s)) { ShortLinesKeepUp(h, s); }
  }

  // ---- writing to a terminal in the background ----

  /** How many lines some output ends. */
  function Ends(s: seq<Byte>): nat {
    if s == [] then 0 else (if EndsLine(s[0]) then 1 else 0) + Ends(s[1..])
  }

  lemma {:induction false} CountedFrom(n: nat, s: seq<Byte>)
    ensures Counted(n, s) == if Ends(s) == 0 then n + |s| else Counted(0, s)
    decreases |s|
  {
    if s != [] {
      CountedFrom(if EndsLine(s[0]) then 0 else n + 1, s[1..]);
      CountedFrom(if EndsLine(s[0]) then 0 else 1, s[1..]);
    }
  }

  /** Where output leaves the cursor does not depend on the cells. */
  lemma {:induction false} CursorMoves(g: Grid, n: nat, s: seq<Byte>)
    requires Within(g) && g.x == n % 80
    ensures PutAll(g, s).x == Counted(n, s) % 80 && PutAll(g, s).y == Min(g.y + Ends(s), ROWS - 1)
    decreases |s|
  {
    if s != [] {
      CursorMoves(Put(g, s[0]), if EndsLine(s[0]) then 0 else n + 1, s[1..]);
    }
  }

  lemma {:induction false} HistoryGrows(h: History, s: seq<Byte>)
    requires h != []
    ensures var r := WrittenAll(h, s);
      |r| == |h| + Ends(s) && |r[|r| - 1]| == Counted(|h[|h| - 1]|, s)
    decreases |s|
  {
    if s != [] { HistoryGrows(Written(h, s[0]), s[1..]); }
  }

  /** A history determines the cursor. */
  lemma CursorIsUnique(cells: seq<Node>, a: Cursor, cells': seq<Node>, b: Cursor, h: History)
    requires Stands(cells, a, h) && Stands(cells', b, h)
    ensures a == b
  {
  }

  /** The cursors of the terminals when the one in use is kept for `terminal`. */
  function Saved(saved: seq<Cursor>, inUse: Cursor, terminal: nat, k: nat): Cursor
    requires k < |saved|
  {
    if k == terminal then inUse else saved[k]
  }

  lemma SavedFor(saved: seq<Cursor>, inUse: Cursor, active: nat, terminal: nat)
    requires |saved| == 3 && active < 3 && terminal < 3
    ensures (forall k :: 0 <= k < 3 ==> Saved(saved, inUse, terminal, k) == Saved(saved, inUse, active, k))
      <==> terminal == active || saved[terminal] == saved[active] == inUse
  {
    if forall k :: 0 <= k < 3 ==> Saved(saved, inUse, terminal, k) == Saved(saved, inUse, active, k) {
      assert Saved(saved, inUse, terminal, terminal) == Saved(saved, inUse, active, terminal);
      assert Saved(saved, inUse, terminal, active) == Saved(saved, inUse, active, active);
    }
  }

  lemma BlankRepainted(video: seq<Byte>, cells: seq<Node>, h: History)
    requires |video| == |cells| == CELLS && h != [] && forall i :: 0 <= i < CELLS ==> video[i] == SPACE
    requires forall i :: 0 <= i < SCREEN ==> Shown(cells[i].mo) == HistoryCell(h, i)
    ensures var r := Repainted(video, cells);
      Displays(r, h) && forall i :: SCREEN <= i < CELLS ==> r[i] == SPACE
  {
    hide HistoryCell;
  }

  lemma StandsOnlyWith(cells: seq<Node>, a: Cursor, b: Cursor, h: History)
    requires Stands(cells, a, h)
    ensures Stands(cells, b, h) <==> a == b
    ensures a.x < COLS && a.y < ROWS
  {
  }

  /** The output is empty, or it ends a line while both cursors are in the last row, and leaves both behind as many
      characters of their line as they were. */
  predicate Undisturbed(active: Cursor, other: Cursor, s: seq<Byte>) {
    s == [] || (Ends(s) > 0 && active.y == other.y == ROWS - 1 && active.line == other.line == Counted(0, s))
  }

  /** Output to a terminal in the background goes to its cells at the active terminal's cursor. Both terminals stand for
      their histories afterwards exactly when it leaves them undisturbed. */
  lemma BackgroundWrite(cells: seq<Node>, a: Cursor, h: History, cells': seq<Node>, b: Cursor, h': History,
                        s: seq<Byte>, a': Cursor)
    requires Stands(cells, a, h) && Stands(cells', b, h') && Within(Grid(cells', a.x, a.y))
    requires var g := PutAll(Grid(cells', a.x, a.y), s);
      a' == Cursor(Counted(a.line, s), Counted(a.limit, s), g.x, g.y)
    ensures Stands(cells, a', h) && Stands(PutAll(Grid(cells', a.x, a.y), s).cells, b, WrittenAll(h', s))
      <==> Undisturbed(a, b, s)
  {
    hide Placed, Shows, NewlinesEnd, PutAll, WrittenAll, Counted, Ends;
    CursorFacts(cells, a, h);
    CursorFacts(cells', b, h');
    CountedFrom(a.line, s);
    CountedFrom(b.line, s);
    CursorMoves(Grid(cells', a.x, a.y), a.line, s);
    HistoryGrows(h', s);
    NothingPut(Grid(cells', a.x, a.y), a.line);
    if s == [] {
      NothingWritten(h');
    } else if Undisturbed(a, b, s) {
      OutputStands(cells', b, h', s, b);
      assert a' == a;
    } else if Stands(cells, a', h) && Stands(PutAll(Grid(cells', a.x, a.y), s).cells, b, WrittenAll(h', s)) {
      CursorIsUnique(cells, a, cells, a', h);
      CursorFacts(PutAll(Grid(cells', a.x, a.y), s).cells, b, WrittenAll(h', s));
    }
  }

  lemma NothingWritten(h: History)
    requires h != []
    ensures WrittenAll(h, []) == h
  {
  }

  lemma CursorFacts(cells: seq<Node>, c: Cursor, h: History)
    requires Stands(cells, c, h)
    ensures h != [] && c.line == c.limit == |h[|h| - 1]| && c.x == c.line % 80 && c.y == Min(|h| - 1, ROWS - 1)
    ensures Within(Grid(cells, c.x, c.y))
  {
  }

  class Screens {
    const screens: seq<array<Node>>
    const components: array<Cursor>
    const video: array<Byte>
    var bufX: nat
    var bufY: nat
    var lineCount: nat
    var limit: nat
    var screenX: nat
    var screenY: nat
    var screenNum: nat
    ghost var terminals: Terminals

    ghost predicate Layout()
      reads this, screens
    {
      && |screens| == 3 && (forall j, k :: 0 <= j < k < 3 ==> screens[j] != screens[k])
      && (forall k :: 0 <= k < 3 ==> screens[k].Length == CELLS)
      && components.Length == 3 && video.Length == CELLS
      && screenNum < 3 && bufX < COLS && bufY < ROWS
    }

    /** The cursor of terminal `k`: in the globals while it is active, saved otherwise. */
    ghost function CursorOf(k: nat): Cursor
      requires k < 3 && components.Length == 3
      reads this, components
    {
      if k == screenNum then Cursor(lineCount, limit, bufX, bufY) else components[k]
    }

    ghost predicate Valid()
      reads this, screens, components
    {
      && Layout() && Three(terminals) && terminals.active == screenNum
      && Stands(screens[0][..], CursorOf(0), terminals.histories[0])
      && Stands(screens[1][..], CursorOf(1), terminals.histories[1])
      && Stands(screens[2][..], CursorOf(2), terminals.histories[2])
    }

    constructor ()
      ensures Valid() && terminals == Terminals([[[]], [[]], [[]]], 0) && Displays(video[..], [[]])
      ensures fresh(components) && fresh(video) && forall k :: 0 <= k < 3 ==> fresh(screens[k])
    {
      hide Blank, Stands, HistoryCell;
      var s0, s1, s2 := new Node[CELLS], new Node[CELLS], new Node[CELLS];
      screens := [s0, s1, s2];
      components := new Cursor[3](_ => Cursor(0, 0, 0, 0));
      video := new Byte[CELLS](_ => SPACE);
      bufX, bufY, lineCount, limit, screenX, screenY, screenNum := 0, 0, 0, 0, 0, 0, 0;
      terminals := Terminals([[[]], [[]], [[]]], 0);
      new;
      ResetBuf(s0);
      ResetBuf(s1);
      ResetBuf(s2);
      BlankShows(s0[..]);
      BlankShows(s1[..]);
      BlankShows(s2[..]);
    }

    /** `reset_buf`. */
    method ResetBuf(buf: array<Node>)
      requires buf.Length == CELLS
      modifies buf, `bufX, `bufY
      ensures Blank(buf[..]) && bufX == 0 && bufY == 0
    {
      var i, x, y := 0, 0, 0;
      while i < (ROWS + 1) * COLS
        invariant 0 <= i <= 2000 && x == i % 80 && y == i / 80
        invariant forall j :: 0 <= j < i ==> buf[j] == Node(j % 80, j / 80, SPACE, false)
      {
        buf[i] := Node(x, y, SPACE, false);
        if x != COLS - 1 {
          x := x + 1;
        } else {
          x := 0;
          y := y + 1;
        }
        i := i + 1;
      }
      bufX := 0;
      bufY := 0;
    }

    /** `scroll_buf`: moves every row up by one, in place. */
    method ScrollBuf(buf: array<Node>)
      requires buf.Length == CELLS
      modifies buf, `bufX, `bufY
      ensures buf[..] == Scrolled(old(buf[..])) && bufX == 0 && bufY == ROWS - 1
    {
      var i := COLS;
      while i < COLS * ROWS
        invariant 80 <= i <= 1920
        invariant forall j :: 0 <= j < i - 80 ==> buf[j] == old(buf[j]).(mo := Shown(old(buf[j + 80]).mo))
        invariant forall j :: i - 80 <= j < CELLS ==> buf[j] == old(buf[j])
      {
        if buf[i].mo != NEWLINE {
          buf[i - COLS] := buf[i - COLS].(mo := buf[i].mo);
        } else {
          buf[i - COLS] := buf[i - COLS].(mo := SPACE);
        }
        i := i + 1;
      }
      i := COLS * (ROWS - 1);
      while i < COLS * ROWS
        invariant 1840 <= i <= 1920 && (i > 1840 ==> bufX == 0 && bufY == ROWS - 1)
        invariant forall j :: 0 <= j < 1840 ==> buf[j] == old(buf[j]).(mo := Shown(old(buf[j + 80]).mo))
        invariant forall j :: 1840 <= j < i ==> buf[j] == old(buf[j]).(mo := SPACE)
        invariant forall j :: i <= j < CELLS ==> buf[j] == old(buf[j])
      {
        buf[i] := buf[i].(mo := SPACE);
        bufX := 0;
        bufY := ROWS - 1;
        i := i + 1;
      }
    }

    /** `put_cout`: one character into a terminal's buffer, at the cursor in the globals. */
    method PutCout(c: Byte, buffer: array<Node>)
      requires buffer.Length == CELLS && bufX < COLS && bufY < ROWS
      modifies buffer, `bufX, `bufY, `lineCount, `limit, `screenX, `screenY
      ensures Grid(buffer[..], bufX, bufY) == Put(old(Grid(buffer[..], bufX, bufY)), c)
      ensures lineCount == (if EndsLine(c) then 0 else old(lineCount) + 1)
      ensures limit == if EndsLine(c) then 0 else old(limit) + 1
    {
      hide Scrolled;
      if c == NEWLINE || c == RETURN {
        buffer[COLS * bufY + bufX] := buffer[COLS * bufY + bufX].(mo := NEWLINE);
        bufX := 0;
        if bufY != ROWS - 1 {
          bufY := bufY + 1;
        } else {
          ScrollBuf(buffer);
        }
        screenY := screenY + 1;
        screenX := 0;
        lineCount := 0;
        limit := 0;
      } else {
        var at := COLS * bufY + bufX;
        buffer[at] := buffer[at].(mo := c);
        buffer[at] := buffer[at].(printed := true);
        bufX := bufX + 1;
        limit := limit + 1;
        lineCount := lineCount + 1;
        bufX := bufX % 80;
        bufY := (bufY + bufX / 80) % 24;
      }
    }

    /** `print_helper`, down to `putc`: shows a character at a place of the screen, except a newline. */
    method PrintHelper(input: Byte, x: nat, y: nat)
      requires x < COLS && y < ROWS && input != RETURN && video.Length == CELLS
      modifies video, `screenX, `screenY
      ensures video[..] == if input == NEWLINE then old(video[..]) else old(video[..])[80 * y + x := input]
    {
      screenX := x;
      screenY := y;
      if input != NEWLINE {
        video[COLS * screenY + screenX] := input;
        screenX := screenX + 1;
        screenX := screenX % 80;
        screenY := (screenY + screenX / 80) % 24;
      }
    }

    /** `printb`: shows a terminal's buffer; a newline leaves on the screen what was there. */
    method PrintB(buf: array<Node>)
      requires buf.Length == video.Length == CELLS && Placed(buf[..])
      modifies video, `screenX, `screenY
      ensures video[..] == Repainted(old(video[..]), buf[..])
    {
      var i := 0;
      while i < ROWS * COLS
        invariant 0 <= i <= 1920
        invariant forall j :: 0 <= j < i ==> video[j] == if buf[j].mo == NEWLINE then old(video[j]) else buf[j].mo
        invariant forall j :: i <= j < CELLS ==> video[j] == old(video[j])
      {
        assert buf[..][i] == buf[i];
        assert 80 * (i / 80) + i % 80 == i;
        PrintHelper(buf[i].mo, buf[i].x, buf[i].y);
        i := i + 1;
      }
    }

    /** `clear`. */
    method Clear()
      requires video.Length == CELLS
      modifies video
      ensures forall i :: 0 <= i < CELLS ==> video[i] == SPACE
    {
      var i := 0;
      while i < (ROWS + 1) * COLS
        invariant 0 <= i <= 2000
        invariant forall j :: 0 <= j < i ==> video[j] == SPACE
      {
        video[i] := SPACE;
        i := i + 1;
      }
    }

    /** One character to the active terminal. */
    method PutNext(c: Byte)
      requires Valid()
      modifies this, screens[screenNum]
      ensures Valid() && screenNum == old(screenNum)
      ensures var t := old(terminals); var k := t.active;
        terminals == t.(histories := t.histories[k := Written(t.histories[k], c)])
      ensures forall k :: 0 <= k < 3 && k != screenNum ==> screens[k][..] == old(screens[k][..])
    {
      hide Stands, Put, Written;
      var k := screenNum;
      ghost var cells, cursor, h := screens[k][..], CursorOf(k), terminals.histories[k];
      StandsParts(cells, cursor, h);
      PutCout(c, screens[k]);
      PutStands(cells, cursor, h, c, CursorOf(k));
      terminals := terminals.(histories := terminals.histories[k := Written(h, c)]);
    }

    /** `terminal_write`: the characters of a C string into the buffer of the terminal the file names, at the cursor
        in the globals, then the active terminal's buffer to the screen. On the active terminal that extends its
        history, and the screen goes on showing it exactly when it keeps up with the output. A terminal in the
        background and the active one survive exactly when the output leaves both undisturbed. */
    method TerminalWrite(filePos: nat, buf: seq<Byte>, counter: int) returns (r: int)
      requires Valid() && filePos < 3 && NUL in buf
      modifies this, screens[filePos], video
      ensures r == counter && screenNum == old(screenNum) && screens[screenNum].Length == CELLS == video.Length
      ensures bufX < COLS && bufY < ROWS && |old(terminals.histories)| == 3
      ensures Grid(screens[filePos][..], bufX, bufY)
           == PutAll(old(Grid(screens[filePos][..], bufX, bufY)), CString(buf))
      ensures video[..] == Repainted(old(video[..]), screens[screenNum][..])
      ensures var h := old(terminals.histories)[filePos];
        h != [] && terminals.active == screenNum
        && terminals.histories == old(terminals.histories)[filePos := WrittenAll(h, CString(buf))]
      ensures filePos == screenNum ==> terminals == Step(old(terminals), Output(CString(buf)))
      ensures Valid() <==>
        (filePos == screenNum || Undisturbed(old(CursorOf(screenNum)), old(CursorOf(filePos)), CString(buf)))
      ensures var h := old(terminals.histories[screenNum]);
        filePos == screenNum && old(Displays(video[..], terminals.histories[screenNum])) ==>
          (Displays(video[..], terminals.histories[screenNum]) <==> h != [] && KeepsUp(h, CString(buf)))
      ensures (filePos == screenNum && old(Displays(video[..], terminals.histories[screenNum]))
        && ShortLines(terminals.histories[screenNum])) ==> Displays(video[..], terminals.histories[screenNum])
    {
      hide Stands, ShortLines, Displays, PutAll, WrittenAll, Repainted, Counted, CString, HistoryCell, KeepsUp, Ends;
      hide Undisturbed;
      ghost var s, k, h, c := CString(buf), filePos, terminals.histories[filePos], CursorOf(screenNum);
      ghost var cells, shown, active := screens[k][..], video[..], screens[screenNum][..];
      StandsParts(cells, CursorOf(k), h);
      StandsParts(active, c, terminals.histories[screenNum]);
      ghost var b := CursorOf(k);
      WriteString(filePos, buf);
      ghost var c' := CursorOf(screenNum);
      if filePos == screenNum {
        OutputStands(cells, c, h, s, c');
        StandsParts(screens[k][..], c', WrittenAll(h, s));
      } else {
        BackgroundWrite(active, c, terminals.histories[screenNum], cells, b, h, s, c');
      }
      terminals := terminals.(histories := terminals.histories[k := WrittenAll(h, s)]);
      PrintB(screens[screenNum]);
      if filePos == screenNum { WriteKeepsDisplay(shown, cells, c, h, s); }
      r := counter;
    }

    /** The loop of `terminal_write`. */
    method WriteString(filePos: nat, buf: seq<Byte>)
      requires Layout() && filePos < 3 && NUL in buf
      modifies `bufX, `bufY, `lineCount, `limit, `screenX, `screenY, screens[filePos]
      ensures bufX < COLS && bufY < ROWS
      ensures Grid(screens[filePos][..], bufX, bufY)
           == PutAll(old(Grid(screens[filePos][..], bufX, bufY)), CString(buf))
      ensures lineCount == Counted(old(lineCount), CString(buf)) && limit == Counted(old(limit), CString(buf))
    {
      hide Put, PutAll, Counted;
      var i := 0;
      ghost var s, g := CString(buf), Grid(screens[filePos][..], bufX, bufY);
      NothingPut(g, lineCount);
      NothingPut(g, limit);
      assert s[..0] == [];
      while i < IndexOf(buf, NUL)
        invariant 0 <= i <= |s| && bufX < COLS && bufY < ROWS
        invariant Grid(screens[filePos][..], bufX, bufY) == PutAll(g, s[..i])
        invariant lineCount == Counted(old(lineCount), s[..i]) && limit == Counted(old(limit), s[..i])
      {
        PutOneMore(g, s, i, old(lineCount));
        PutOneMore(g, s, i, old(limit));
        PutCout(buf[i], screens[filePos]);
        i := i + 1;
      }
      assert s[..i] == s;
    }

    /** The copies `terminal_switch` makes between the globals and the saved cursors. */
    method MoveCursor(newScreen: nat, oldScreen: nat)
      requires components.Length == 3 && newScreen < 3 && oldScreen < 3
      modifies `lineCount, `limit, `bufX, `bufY, components
      ensures components[..] == old(components[..])[oldScreen := old(Cursor(lineCount, limit, bufX, bufY))]
      ensures Cursor(lineCount, limit, bufX, bufY) == components[newScreen]
    {
      components[oldScreen] := Cursor(lineCount, limit, bufX, bufY);
      lineCount := components[newScreen].line;
      limit := components[newScreen].limit;
      bufX := components[newScreen].x;
      bufY := components[newScreen].y;
    }

    /** `terminal_switch`: rows 0 to 23 of the screen show the new terminal's history, above a blank row. Called with
        the active terminal as the old one, it leaves every terminal its cursor; with another one, exactly when the
        saved cursors of both are the same as the cursor in use, which it saves for the wrong terminal. */
    method TerminalSwitch(newScreen: nat, oldScreen: nat)
      requires Valid() && newScreen < 3 && oldScreen < 3
      modifies this, components, video
      ensures screenNum == newScreen && components.Length == 3
      ensures terminals == Terminals(old(terminals.histories), newScreen)
      ensures Valid() <==>
        (oldScreen == old(screenNum) || old(components[oldScreen] == components[screenNum] == CursorOf(screenNum)))
      ensures Valid() ==> forall k :: 0 <= k < 3 ==> CursorOf(k) == old(CursorOf(k))
      ensures |terminals.histories| == 3 && Displays(video[..], terminals.histories[newScreen])
      ensures forall i :: SCREEN <= i < CELLS ==> video[i] == SPACE
    {
      hide Stands, Displays, Repainted, HistoryCell, Shown;
      ghost var c0, c1, c2 := CursorOf(0), CursorOf(1), CursorOf(2);
      ghost var h, saved, inUse, active := terminals.histories, components[..], CursorOf(screenNum), screenNum;
      StandsParts(screens[newScreen][..], CursorOf(newScreen), h[newScreen]);
      MoveCursor(newScreen, oldScreen);
      Clear();
      BlankRepainted(video[..], screens[newScreen][..], h[newScreen]);
      PrintB(screens[newScreen]);
      screenNum := newScreen;
      terminals := terminals.(active := newScreen);
      SavedFor(saved, inUse, active, oldScreen);
      assert forall k :: 0 <= k < 3 ==> CursorOf(k) == components[..][k] == Saved(saved, inUse, oldScreen, k);
      StandsOnlyWith(screens[0][..], c0, CursorOf(0), h[0]);
      StandsOnlyWith(screens[1][..], c1, CursorOf(1), h[1]);
      StandsOnlyWith(screens[2][..], c2, CursorOf(2), h[2]);
    }
  }
}
