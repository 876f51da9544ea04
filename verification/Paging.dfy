/** Page directories and page tables (student-distrib/paging.c, student-distrib/paging.h), and the walk the processor
    does over them: section 4.3, 32-bit paging, of the Intel 64 and IA-32 Software Developer's Manual, volume 3A. */
module Paging {
  import opened Bytes

  const NUM_PD := 7
  const NUM_PT := 7
  const ENTRIES := 1024

  const VIDEO_MEM := 0xB8000
  const KERNEL_MEM := 0x400000
  const USER_VID := 0x07CB8000
  const PGRM_IMG := 0x08048000
  const PAGE1 := 0x800000

  // ---- entries and their bits ----

  /** A directory or table entry. Bit 7 is the page size in a directory entry and the attribute index in a table
      entry; bit 6 is reserved in a directory entry and the dirty flag in a table entry. */
  datatype Entry = Entry(present: bool, readWrite: bool, userSuper: bool, writeThrough: bool, cacheDisabled: bool,
                         accessed: bool, bit6: bool, bit7: bool, global: bool, avail: nat, base: nat)

  const EMPTY := Entry(false, false, false, false, false, false, false, false, false, 0, 0)

  /** Fields in the width the structure gives them. */
  predicate Fits(e: Entry) {
    e.avail < 8 && e.base < 0x100000
  }

  function Bit(b: bool): (r: nat)
    ensures r < 2 && (r == 1 <==> b)
  {
    if b then 1 else 0
  }

  /** A value and how many values its bit field can hold. */
  datatype Field = Field(value: nat, size: nat)

  function Flag(b: bool): Field {
    Field(Bit(b), 2)
  }

  /** Bit fields packed into a word, the first one lowest. */
  function Packed(fields: seq<Field>): nat {
    if fields == [] then 0 else fields[0].value + fields[0].size * Packed(fields[1..])
  }

  /** The bit fields of an entry. */
  function FieldsOf(e: Entry): seq<Field> {
    [Flag(e.present), Flag(e.readWrite), Flag(e.userSuper), Flag(e.writeThrough), Flag(e.cacheDisabled),
     Flag(e.accessed), Flag(e.bit6), Flag(e.bit7), Flag(e.global), Field(e.avail, 8), Field(e.base, 0x100000)]
  }

  /** The 32-bit word the processor sees for an entry. */
  function Word(e: Entry): nat {
    Packed(FieldsOf(e))
  }

  // What the processor reads out of a word.
  predicate IsPresent(w: nat) { w % 2 == 1 }
  predicate IsWritable(w: nat) { w / 2 % 2 == 1 }
  predicate IsUser(w: nat) { w / 4 % 2 == 1 }
  predicate IsLarge(w: nat) { w / 128 % 2 == 1 }
  function FrameOf(w: nat): nat { w / 4096 * 4096 }
  function LargeFrameOf(w: nat): nat { w / 0x400000 * 0x400000 }

  /** The processor reads back the fields that were set. */
  lemma WordFields(e: Entry)
    requires Fits(e)
    ensures Word(e) < TWO_32
    ensures IsPresent(Word(e)) == e.present && IsWritable(Word(e)) == e.readWrite
    ensures IsUser(Word(e)) == e.userSuper && IsLarge(Word(e)) == e.bit7
    ensures FrameOf(Word(e)) == e.base * 4096 && LargeFrameOf(Word(e)) == e.base / 1024 * 0x400000
  {
    hide *;
    WordBits(e);
    WordLarge(e);
    WordFrames(e);
  }

  lemma PackedFrom(fields: seq<Field>, i: nat, value: nat, size: nat)
    requires i < |fields| && fields[i] == Field(value, size)
    ensures Packed(fields[i..]) == value + size * Packed(fields[i + 1..])
  {
  }

  lemma HighFields(e: Entry)
    ensures Packed(FieldsOf(e)[7..]) == Bit(e.bit7) + 2 * Bit(e.global) + 4 * e.avail + 32 * e.base
  {
    var f := FieldsOf(e);
    assert f[11..] == [] && Packed([]) == 0;
    hide Packed, Bit;
    PackedFrom(f, 10, e.base, 0x100000);
    PackedFrom(f, 9, e.avail, 8);
    PackedFrom(f, 8, Bit(e.global), 2);
    PackedFrom(f, 7, Bit(e.bit7), 2);
  }

  lemma MiddleFields(e: Entry)
    ensures Packed(FieldsOf(e)[3..]) == Bit(e.writeThrough) + 2 * Bit(e.cacheDisabled) + 4 * Bit(e.accessed)
      + 8 * Bit(e.bit6) + 16 * Packed(FieldsOf(e)[7..])
  {
    var f := FieldsOf(e);
    hide Packed, Bit;
    PackedFrom(f, 6, Bit(e.bit6), 2);
    PackedFrom(f, 5, Bit(e.accessed), 2);
    PackedFrom(f, 4, Bit(e.cacheDisabled), 2);
    PackedFrom(f, 3, Bit(e.writeThrough), 2);
  }

  lemma LowFields(e: Entry)
    ensures Word(e) == Bit(e.present) + 2 * Bit(e.readWrite) + 4 * Bit(e.userSuper) + 8 * Packed(FieldsOf(e)[3..])
  {
    var f := FieldsOf(e);
    assert f[0..] == f;
    hide Packed, Bit;
    PackedFrom(f, 2, Bit(e.userSuper), 2);
    PackedFrom(f, 1, Bit(e.readWrite), 2);
    PackedFrom(f, 0, Bit(e.present), 2);
  }

  lemma WordIs(e: Entry)
    ensures Word(e) == Bit(e.present) + 2 * Bit(e.readWrite) + 4 * Bit(e.userSuper) + 8 * Bit(e.writeThrough)
      + 16 * Bit(e.cacheDisabled) + 32 * Bit(e.accessed) + 64 * Bit(e.bit6) + 128 * Bit(e.bit7)
      + 256 * Bit(e.global) + 512 * e.avail + 4096 * e.base
  {
    hide *;
    LowFields(e);
    MiddleFields(e);
    HighFields(e);
  }

  function Above7(e: Entry): nat {
    Bit(e.global) + 2 * e.avail + 16 * e.base
  }

  function From3(e: Entry): nat {
    Bit(e.writeThrough) + 2 * Bit(e.cacheDisabled) + 4 * Bit(e.accessed) + 8 * Bit(e.bit6)
  }

  lemma WordBits(e: Entry)
    ensures IsPresent(Word(e)) == e.present && IsWritable(Word(e)) == e.readWrite && IsUser(Word(e)) == e.userSuper
  {
    WordIs(e);
    hide Bit, Word;
    LowBits(Word(e), Bit(e.present), Bit(e.readWrite), Bit(e.userSuper),
            From3(e) + 16 * (Bit(e.bit7) + 2 * Above7(e)));
  }

  lemma WordLarge(e: Entry)
    ensures IsLarge(Word(e)) == e.bit7
  {
    WordIs(e);
    hide Bit, Word;
    HighBits(Word(e), Bit(e.present) + 2 * Bit(e.readWrite) + 4 * Bit(e.userSuper) + 8 * From3(e),
             Bit(e.bit7), Above7(e));
  }

  lemma WordFrames(e: Entry)
    requires Fits(e)
    ensures Word(e) < TWO_32
    ensures FrameOf(Word(e)) == e.base * 4096 && LargeFrameOf(Word(e)) == e.base / 1024 * 0x400000
  {
    WordIs(e);
    hide Bit, Word;
    Frames(Word(e), Bit(e.present) + 2 * Bit(e.readWrite) + 4 * Bit(e.userSuper) + 8 * From3(e)
      + 128 * Bit(e.bit7) + 256 * (Bit(e.global) + 2 * e.avail), e.base);
  }

  lemma LowBits(w: nat, b0: nat, b1: nat, b2: nat, rest: nat)
    requires w == b0 + 2 * b1 + 4 * b2 + 8 * rest && b0 < 2 && b1 < 2 && b2 < 2
    ensures w % 2 == b0 && w / 2 % 2 == b1 && w / 4 % 2 == b2
  {
    assert w / 2 == b1 + 2 * (b2 + 2 * rest) && w / 4 == b2 + 2 * rest;
  }

  lemma HighBits(w: nat, low: nat, b: nat, rest: nat)
    requires w == low + 128 * (b + 2 * rest) && low < 128 && b < 2
    ensures w / 128 % 2 == b
  {
  }

  lemma Frames(w: nat, low: nat, base: nat)
    requires w == low + 4096 * base && low < 4096
    ensures w / 4096 == base && w / 0x400000 == base / 1024
  {
  }

  // ---- the walk ----

  datatype Translation = NotPresent | Unmodelled | Mapped(pa: nat, user: bool, writable: bool)

  /** Translates `va` through the directory `pd`. The page tables lie one after the other from `tableBase` on; a
      directory entry that points anywhere else leads out of the model. */
  function Walk(pd: seq<nat>, tableBase: nat, tables: seq<seq<nat>>, va: U32): Translation
    requires |pd| == ENTRIES && forall t <- tables :: |t| == ENTRIES
  {
    var pde := pd[va / 0x400000];
    if !IsPresent(pde) then NotPresent
    else if IsLarge(pde) then Mapped(LargeFrameOf(pde) + va % 0x400000, IsUser(pde), IsWritable(pde))
    else if FrameOf(pde) < tableBase || FrameOf(pde) - tableBase >= 4096 * |tables| then Unmodelled
    else
      var pte := tables[(FrameOf(pde) - tableBase) / 4096][va / 0x1000 % 1024];
      if !IsPresent(pte) then NotPresent
      else Mapped(FrameOf(pte) + va % 0x1000, IsUser(pde) && IsUser(pte), IsWritable(pde) && IsWritable(pte))
  }

  // ---- what the macros set ----

  function SetPde4MBPage(e: Entry, addr: U32): Entry {
    e.(base := addr / 0x400000 * 0x400, bit7 := true, accessed := false, present := true)
  }

  function SetPde4KBTable(e: Entry, addr: U32): Entry {
    e.(base := addr / 0x1000, bit7 := false, accessed := false, present := true)
  }

  function SetPte(e: Entry, addr: U32): Entry {
    e.(base := addr / 0x1000, accessed := false, present := true)
  }

  // Address splitting.
  function PdeOffset(addr: U32): nat { addr / 0x400000 }
  function PteOffset(addr: U32): nat { addr / 0x1000 % 1024 }

  // ---- the abstract state ----

  /** Which directories map the program window and the user video page, which one `cur_PD` points at, and where the
      linker put the page tables. */
  datatype State = State(tableBase: nat, loaded: set<nat>, vid: set<nat>, cur: nat)

  /** The page tables are aligned and part of the kernel's 4 MB page. */
  predicate Placed(tableBase: nat) {
    tableBase % 4096 == 0 && KERNEL_MEM <= tableBase && tableBase + NUM_PT * 4096 <= PAGE1
  }

  predicate Sound(st: State) {
    Placed(st.tableBase) && st.cur < NUM_PD
  }

  /** The physical frame of a program. */
  function ProgramFrame(pid: nat): nat {
    PAGE1 + pid * 0x400000
  }

  const PLAIN := EMPTY.(readWrite := true)

  /** What entry `i` of directory `k` holds. */
  function PdeFor(st: State, k: nat, i: nat): Entry
    requires Sound(st) && k < NUM_PD
  {
    if i == 0 then SetPde4KBTable(PLAIN.(global := true), st.tableBase)
    else if i == 1 then SetPde4MBPage(PLAIN.(global := true), KERNEL_MEM)
    else if i == 31 && k in st.vid then SetPde4KBTable(PLAIN.(userSuper := true), st.tableBase + 4096)
    else if i == 32 && k in st.loaded then SetPde4MBPage(PLAIN.(userSuper := true), ProgramFrame(k))
    else EMPTY
  }

  /** What entry `j` of page table `t` holds. */
  function PteFor(st: State, t: nat, j: nat): Entry {
    if t == 0 && j == 0xB8 then SetPte(PLAIN.(global := true), VIDEO_MEM)
    else if t == 1 && j == 0xB8 && st.vid != {} then SetPte(PLAIN.(userSuper := true), VIDEO_MEM)
    else EMPTY
  }

  ghost function DirectoryOf(st: State, k: nat): (r: seq<nat>)
    requires Sound(st) && k < NUM_PD
    ensures |r| == ENTRIES
  {
    seq(ENTRIES, i requires 0 <= i < ENTRIES => Word(PdeFor(st, k, i)))
  }

  ghost function TableOf(st: State, t: nat): (r: seq<nat>)
    ensures |r| == ENTRIES
  {
    seq(ENTRIES, j requires 0 <= j < ENTRIES => Word(PteFor(st, t, j)))
  }

  ghost function TablesOf(st: State): (r: seq<seq<nat>>)
    ensures |r| == NUM_PT && forall t <- r :: |t| == ENTRIES
  {
    seq(NUM_PT, t requires 0 <= t < NUM_PT => TableOf(st, t))
  }

  predicate InRange(va: nat, start: nat, size: nat) {
    start <= va < start + size
  }

  /** The memory map of process `k`: the kernel page and the VGA page as they are, for the kernel only; its program
      window and its view of the VGA page, if it has them; and nothing else. */
  function MemoryMap(st: State, k: nat, va: U32): Translation {
    if InRange(va, VIDEO_MEM, 0x1000) then Mapped(va, false, true)
    else if InRange(va, KERNEL_MEM, 0x400000) then Mapped(va, false, true)
    else if k in st.loaded && InRange(va, 0x8000000, 0x400000) then
      Mapped(ProgramFrame(k) + (va - 0x8000000), true, true)
    else if k in st.vid && InRange(va, USER_VID, 0x1000) then Mapped(VIDEO_MEM + (va - USER_VID), true, true)
    else NotPresent
  }

  ghost function Translate(st: State, k: nat, va: U32): Translation
    requires Sound(st) && k < NUM_PD
  {
    Walk(DirectoryOf(st, k), st.tableBase, TablesOf(st), va)
  }

  /** The processor's walk over any of the seven directories gives that process's memory map. */
  lemma TranslationIsMemoryMap(st: State, k: nat, va: U32)
    requires Sound(st) && k < NUM_PD
    ensures Translate(st, k, va) == MemoryMap(st, k, va)
  {
    hide Packed, FieldsOf;
    var i, j := va / 0x400000, va / 0x1000 % 1024;
    MapByIndex(st, k, va, i, j, va % 0x1000);
    DirectoryWords(st, k, i);
    if i == 0 || (i == 31 && k in st.vid) {
      TableWords(st, if i == 0 then 0 else 1, j);
    }
    hide Word, PdeFor, PteFor, MemoryMap, IsPresent, IsLarge, IsUser, IsWritable, FrameOf, LargeFrameOf;
  }

  /** The same in numbers. The VGA page at 0xB8000 and the kernel page at 4 MB are mapped as they are; the window at
      128 MB of process `k` leads to the 4 MB from 8 MB + `k` * 4 MB on, its user video page to the VGA page. */
  lemma TranslationInNumbers(st: State, k: nat, va: U32)
    requires Sound(st) && k < 7
    ensures Translate(st, k, va) ==
      if 0xB8000 <= va < 0xB9000 || 0x400000 <= va < 0x800000 then Mapped(va, false, true)
      else if 0x8000000 <= va < 0x8400000 && k in st.loaded then
        Mapped(0x800000 + 0x400000 * k + (va - 0x8000000), true, true)
      else if 0x7CB8000 <= va < 0x7CB9000 && k in st.vid then Mapped(0xB8000 + (va - 0x7CB8000), true, true)
      else NotPresent
  {
    hide Translate;
    TranslationIsMemoryMap(st, k, va);
  }

  /** Once all seven directories are loaded, their windows tile the 28 MB behind the kernel page: every physical address
      there is reached from exactly one of them, at exactly one offset, the directories in ascending order. */
  lemma WindowsTileMemory(st: State, pa: nat, k: nat, o: nat)
    requires Sound(st) && st.loaded == {0, 1, 2, 3, 4, 5, 6} && 0x800000 <= pa < 0x2400000
    requires k < 7 && o < 0x400000
    ensures Translate(st, k, 0x8000000 + o) == Mapped(pa, true, true)
      <==> k == pa / 0x400000 - 2 && o == pa % 0x400000
  {
    hide Translate;
    TranslationInNumbers(st, k, 0x8000000 + o);
    hide *;
    assert 0x800000 + 0x400000 * k + o == pa <==> k == pa / 0x400000 - 2 && o == pa % 0x400000;
  }

  /** What the processor reads out of a directory entry. */
  lemma DirectoryWords(st: State, k: nat, i: nat)
    requires Sound(st) && k < NUM_PD
    ensures var w := Word(PdeFor(st, k, i));
      var program, video := i == 32 && k in st.loaded, i == 31 && k in st.vid;
      && IsPresent(w) == (i <= 1 || program || video) && IsLarge(w) == (i == 1 || program)
      && (IsPresent(w) ==> IsWritable(w)) && IsUser(w) == (program || video)
      && (i == 0 ==> FrameOf(w) == st.tableBase) && (video ==> FrameOf(w) == st.tableBase + 4096)
      && (i == 1 ==> LargeFrameOf(w) == KERNEL_MEM) && (program ==> LargeFrameOf(w) == ProgramFrame(k))
  {
    hide Packed, FieldsOf;
    var e := PdeFor(st, k, i);
    assert Fits(e);
    WordFields(e);
    hide Word, IsPresent, IsLarge, IsUser, IsWritable, FrameOf, LargeFrameOf;
  }

  /** What the processor reads out of a page table entry. */
  lemma TableWords(st: State, t: nat, j: nat)
    ensures var w := Word(PteFor(st, t, j));
      var kernel, user := t == 0 && j == 0xB8, t == 1 && j == 0xB8 && st.vid != {};
      && IsPresent(w) == (kernel || user) && IsUser(w) == user
      && (IsPresent(w) ==> IsWritable(w) && FrameOf(w) == VIDEO_MEM)
  {
    WordFields(PteFor(st, t, j));
    hide Word, IsPresent, IsLarge, IsUser, IsWritable, FrameOf, LargeFrameOf;
  }

  /** The memory map in terms of the indices of an address. */
  lemma MapByIndex(st: State, k: nat, va: U32, i: nat, j: nat, o: nat)
    requires i == va / 0x400000 && j == va / 0x1000 % 1024 && o == va % 0x1000
    ensures MemoryMap(st, k, va) ==
      if i == 0 then (if j == 0xB8 then Mapped(VIDEO_MEM + o, false, true) else NotPresent)
      else if i == 1 then Mapped(KERNEL_MEM + va % 0x400000, false, true)
      else if i == 31 && k in st.vid && j == 0xB8 then Mapped(VIDEO_MEM + o, true, true)
      else if i == 32 && k in st.loaded then Mapped(ProgramFrame(k) + va % 0x400000, true, true)
      else NotPresent
  {
  }

  /** The raw words. In every directory, the page table of the VGA page (global, writable, present) and the kernel's
      global 4 MB page; where they are mapped, the user page table and the program's 4 MB page, both for user mode; and
      zero everywhere else. Of the tables, one entry in each of the first two. */
  lemma RawWords(st: State, k: nat, i: nat, t: nat)
    requires Sound(st) && k < 7 && i < 1024 && t < 7
    ensures DirectoryOf(st, k)[i] ==
      if i == 0 then st.tableBase + 0x103
      else if i == 1 then 0x400183
      else if i == 31 && k in st.vid then st.tableBase + 0x1007
      else if i == 32 && k in st.loaded then 0x800087 + 0x400000 * k
      else 0
    ensures TableOf(st, t)[i] ==
      if i == 0xB8 && t == 0 then 0xB8103 else if i == 0xB8 && t == 1 && st.vid != {} then 0xB8007 else 0
  {
    hide Packed, FieldsOf;
    var q := st.tableBase / 4096;
    assert st.tableBase == 4096 * q;
    WordIs(PdeFor(st, k, i));
    WordIs(PteFor(st, t, i));
    hide Word;
  }

  // ---- whole runs ----

  datatype Call = TaskMemInit(pid: U32) | UserVidmap

  function Step(st: State, c: Call): State {
    match c
    case TaskMemInit(pid) => if pid >= NUM_PD then st else st.(loaded := st.loaded + {pid}, cur := pid)
    case UserVidmap => st.(vid := st.vid + {st.cur})
  }

  function Initial(tableBase: nat): State {
    State(tableBase, {}, {}, 0)
  }

  function Run(tableBase: nat, cs: seq<Call>): (st: State)
    requires Placed(tableBase)
    ensures Sound(st) && st.tableBase == tableBase
  {
    if cs == [] then Initial(tableBase) else Step(Run(tableBase, cs[..|cs| - 1]), cs[|cs| - 1])
  }

  /** After initialisation and any sequence of calls, every directory translates every address as its memory map says. A
      program window is mapped in exactly the directories `task_mem_init` was called for, and the user video page in
      exactly those that `cur_PD` pointed at when `user_vidmap` was called. */
  lemma MapAfterAnyRun(tableBase: nat, cs: seq<Call>, k: nat, va: U32)
    requires Placed(tableBase) && k < NUM_PD
    ensures var st := Run(tableBase, cs);
      && Translate(st, k, va) == MemoryMap(st, k, va)
      && (k in st.loaded <==> TaskMemInit(k) in cs)
      && (k in st.vid <==> exists i :: 0 <= i < |cs| && cs[i] == UserVidmap && Run(tableBase, cs[..i]).cur == k)
  {
    hide Translate, MemoryMap, Sound, Run;
    TranslationIsMemoryMap(Run(tableBase, cs), k, va);
    MappedAfterRun(tableBase, cs, k);
  }

  lemma {:induction false} MappedAfterRun(tableBase: nat, cs: seq<Call>, k: nat)
    requires Placed(tableBase) && k < NUM_PD
    ensures k in Run(tableBase, cs).loaded <==> TaskMemInit(k) in cs
    ensures k in Run(tableBase, cs).vid
      <==> exists i :: 0 <= i < |cs| && cs[i] == UserVidmap && Run(tableBase, cs[..i]).cur == k
    decreases |cs|
  {
    if cs != [] {
      var last := |cs| - 1;
      MappedAfterRun(tableBase, cs[..last], k);
      assert cs == cs[..last] + [cs[last]];
      assert forall i :: 0 <= i < last ==> cs[..last][..i] == cs[..i];
      if cs[last] == UserVidmap && Run(tableBase, cs[..last]).cur == k {
        assert cs[last] == UserVidmap;
      }
    }
  }

  /** Whatever a program can reach is its own frame or the VGA page, so two programs share no other memory, and none
      reaches the kernel page. */
  lemma ProgramsAreIsolated(st: State, k: nat, k': nat, va: U32, va': U32)
    requires Sound(st) && k < NUM_PD && k' < NUM_PD
    requires Translate(st, k, va).Mapped? && Translate(st, k, va).user
    ensures var pa := Translate(st, k, va).pa;
      && (InRange(pa, ProgramFrame(k), 0x400000) || InRange(pa, VIDEO_MEM, 0x1000))
      && !InRange(pa, KERNEL_MEM, 0x400000)
      && (k != k' && Translate(st, k', va').Mapped? && Translate(st, k', va').user && Translate(st, k', va').pa == pa
          ==> InRange(pa, VIDEO_MEM, 0x1000))
  {
    TranslationIsMemoryMap(st, k, va);
    TranslationIsMemoryMap(st, k', va');
  }

  /** The address `user_vidmap` returns works in directory `k` exactly when `k` is the directory `cur_PD` points at or
      had the page already. */
  lemma VidmapServesCurrent(st: State, k: nat)
    requires Sound(st) && k < NUM_PD
    ensures Translate(Step(st, UserVidmap), k, USER_VID) == Mapped(VIDEO_MEM, true, true)
      <==> k == st.cur || k in st.vid
  {
    TranslationIsMemoryMap(Step(st, UserVidmap), k, USER_VID);
    hide Translate;
  }

  /** `cur_PD` is the directory of the last program loaded, not the one in use: after process 0 runs process 1 and that
      one halts, a call of `user_vidmap` by process 0 maps the page for process 1 only. */
  lemma VidmapAfterChild(tableBase: nat)
    requires Placed(tableBase)
    ensures var after := Run(tableBase, [TaskMemInit(0), TaskMemInit(1), UserVidmap]);
      Translate(after, 0, USER_VID) == NotPresent && Translate(after, 1, USER_VID) == Mapped(VIDEO_MEM, true, true)
  {
    hide Translate;
    assert Run(tableBase, []) == Initial(tableBase);
    hide Run;
    var one := RunNext(tableBase, [], TaskMemInit(0));
    assert [] + [TaskMemInit(0)] == [TaskMemInit(0)];
    var two := RunNext(tableBase, [TaskMemInit(0)], TaskMemInit(1));
    assert [TaskMemInit(0)] + [TaskMemInit(1)] == [TaskMemInit(0), TaskMemInit(1)];
    var after := RunNext(tableBase, [TaskMemInit(0), TaskMemInit(1)], UserVidmap);
    assert [TaskMemInit(0), TaskMemInit(1)] + [UserVidmap] == [TaskMemInit(0), TaskMemInit(1), UserVidmap];
    assert after.vid == {1};
    TranslationIsMemoryMap(after, 0, USER_VID);
    TranslationIsMemoryMap(after, 1, USER_VID);
  }

  lemma RunNext(tableBase: nat, cs: seq<Call>, c: Call) returns (st: State)
    requires Placed(tableBase)
    ensures st == Run(tableBase, cs + [c]) == Step(Run(tableBase, cs), c)
  {
    assert (cs + [c])[..|cs|] == cs;
    st := Run(tableBase, cs + [c]);
  }

  // ---- the tables in memory ----

  class PageTables {
    const pd: array2<Entry>
    const pt: array2<Entry>
    const programPage: array<nat>
    const tableBase: nat
    var curPD: nat
    ghost var state: State

    ghost predicate Valid()
      reads this, pd, pt, programPage
    {
      && Sound(state) && state.tableBase == tableBase && state.cur == curPD
      && pd.Length0 == NUM_PD && pd.Length1 == ENTRIES && pt.Length0 == NUM_PT && pt.Length1 == ENTRIES && pd != pt
      && programPage.Length == NUM_PD && (forall k :: 0 <= k < NUM_PD ==> programPage[k] == ProgramFrame(k))
      && (forall k, i :: 0 <= k < NUM_PD && 0 <= i < ENTRIES ==> pd[k, i] == PdeFor(state, k, i))
      && (forall t, j :: 0 <= t < NUM_PT && 0 <= j < ENTRIES ==> pt[t, j] == PteFor(state, t, j))
    }

    /** `init_paging`, on static storage that holds anything. */
    constructor (tableBase: nat)
      requires Placed(tableBase)
      ensures Valid() && state == Initial(tableBase) && fresh(pd) && fresh(pt) && fresh(programPage)
      ensures pd.Length0 == pt.Length0 == 7 && pd.Length1 == pt.Length1 == 1024 && curPD == 0
    {
      this.tableBase := tableBase;
      pd := new Entry[NUM_PD, ENTRIES];
      pt := new Entry[NUM_PT, ENTRIES];
      programPage := new nat[NUM_PD];
      curPD := 0;
      state := Initial(tableBase);
      new;
      var i := 0;
      while i < NUM_PD
        invariant 0 <= i <= NUM_PD && forall k :: 0 <= k < i ==> programPage[k] == ProgramFrame(k)
        modifies programPage
      {
        programPage[i] := PAGE1 + i * 0x400000;
        i := i + 1;
      }
      InitPd();
      InitVideoPt();
    }

    method InitPd()
      requires pd.Length0 == NUM_PD && pd.Length1 == ENTRIES && Placed(tableBase) && state == Initial(tableBase)
      modifies pd
      ensures forall k, i :: 0 <= k < NUM_PD && 0 <= i < ENTRIES ==> pd[k, i] == PdeFor(state, k, i)
    {
      var i := 0;
      while i < ENTRIES
        invariant 0 <= i <= ENTRIES && forall n :: 0 <= n < i ==> pd[0, n] == EMPTY
      {
        pd[0, i] := EMPTY;
        i := i + 1;
      }
      pd[0, PdeOffset(VIDEO_MEM)] := SetPde4KBTable(EMPTY.(global := true, readWrite := true), tableBase);
      pd[0, PdeOffset(KERNEL_MEM)] := SetPde4MBPage(EMPTY.(global := true, readWrite := true), KERNEL_MEM);
      var j := 1;
      while j < NUM_PD
        invariant 1 <= j <= NUM_PD
        invariant forall k, n :: 0 <= k < j && 0 <= n < ENTRIES ==> pd[k, n] == PdeFor(state, k, n)
      {
        i := 0;
        while i < ENTRIES
          invariant 0 <= i <= ENTRIES && forall n :: 0 <= n < i ==> pd[j, n] == pd[0, n]
          invariant forall k, n :: 0 <= k < j && 0 <= n < ENTRIES ==> pd[k, n] == PdeFor(state, k, n)
        {
          pd[j, i] := pd[0, i];
          i := i + 1;
        }
        j := j + 1;
      }
    }

    method InitVideoPt()
      requires pt.Length0 == NUM_PT && pt.Length1 == ENTRIES && state == Initial(tableBase)
      modifies pt
      ensures forall t, j :: 0 <= t < NUM_PT && 0 <= j < ENTRIES ==> pt[t, j] == PteFor(state, t, j)
    {
      var i := 0;
      while i < NUM_PT
        invariant 0 <= i <= NUM_PT && forall t, n :: 0 <= t < i && 0 <= n < ENTRIES ==> pt[t, n] == EMPTY
      {
        var j := 0;
        while j < ENTRIES
          invariant 0 <= j <= ENTRIES && forall n :: 0 <= n < j ==> pt[i, n] == EMPTY
          invariant forall t, n :: 0 <= t < i && 0 <= n < ENTRIES ==> pt[t, n] == EMPTY
        {
          pt[i, j] := EMPTY;
          j := j + 1;
        }
        i := i + 1;
      }
      pt[0, PteOffset(VIDEO_MEM)] := SetPte(EMPTY.(global := true, readWrite := true), VIDEO_MEM);
    }

    /** Maps a 4 MB page in the directory `cur_PD` points at. */
    method Map4MBPage(virt: U32, phys: U32, userSuper: bool, readWrite: bool)
      requires curPD < NUM_PD && pd.Length0 == NUM_PD && pd.Length1 == ENTRIES
      modifies pd
      ensures pd[curPD, PdeOffset(virt)] ==
        SetPde4MBPage(EMPTY.(userSuper := userSuper, readWrite := readWrite), phys)
      ensures forall k, i :: 0 <= k < NUM_PD && 0 <= i < ENTRIES && (k != curPD || i != PdeOffset(virt)) ==>
        pd[k, i] == old(pd[k, i])
    {
      pd[curPD, PdeOffset(virt)] := SetPde4MBPage(EMPTY.(userSuper := userSuper, readWrite := readWrite), phys);
    }

    /** Returns the directory of process `pid`, or nothing. */
    method InitTask(pid: U32) returns (r: Option<nat>)
      requires Valid()
      modifies this, pd
      ensures Valid() && state == Step(old(state), TaskMemInit(pid))
      ensures r == if pid < 7 then Some(pid) else None
      ensures pid >= 7 ==> state == old(state)
    {
      if pid > 6 { return None; }
      curPD := pid;
      Map4MBPage(PGRM_IMG, programPage[pid], true, true);
      state := Step(state, TaskMemInit(pid));
      r := Some(curPD);
    }

    /** The processor's translation of one access, over the tables as they are in memory. */
    method Access(k: nat, va: U32) returns (t: Translation)
      requires Valid() && k < NUM_PD
      ensures t == MemoryMap(state, k, va)
    {
      var directory := seq(ENTRIES,
        i requires 0 <= i < ENTRIES && k < pd.Length0 && i < pd.Length1 reads pd => Word(pd[k, i]));
      var tables := seq(NUM_PT, t requires 0 <= t < NUM_PT && NUM_PT <= pt.Length0 && ENTRIES <= pt.Length1 reads pt =>
        seq(ENTRIES, j requires 0 <= j < ENTRIES && NUM_PT <= pt.Length0 && ENTRIES <= pt.Length1 reads pt =>
          Word(pt[t, j])));
      assert directory == DirectoryOf(state, k);
      assert forall n :: 0 <= n < NUM_PT ==> tables[n] == TableOf(state, n);
      assert tables == TablesOf(state);
      TranslationIsMemoryMap(state, k, va);
      t := Walk(directory, tableBase, tables, va);
    }

    method Vidmap() returns (va: U32)
      requires Valid()
      modifies this, pd, pt
      ensures Valid() && state == Step(old(state), UserVidmap) && va == 0x7CB8000
    {
      var j := PteOffset(USER_VID);
      if !pt[1, j].present {
        pt[1, j] := SetPte(EMPTY.(userSuper := true, readWrite := true), VIDEO_MEM);
      }
      var i := PdeOffset(USER_VID);
      if !pd[curPD, i].present {
        pd[curPD, i] := SetPde4KBTable(EMPTY.(userSuper := true, readWrite := true), tableBase + 4096);
      }
      state := Step(state, UserVidmap);
      va := USER_VID;
    }
  }
}
