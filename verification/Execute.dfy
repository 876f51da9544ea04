/** The whole `execute` call (student-distrib/systemcalls.c): from the command's program in the file system to a running
    process with its image in memory. */
module Execute {
  import opened Bytes
  import opened FileSystem
  import L = Loader
  import M = Memory
  import P = Paging
  import T = Processes

  const MAGIC: seq<Byte> := [0x7F, 0x45, 0x4C, 0x46]
  const ENTRY_FIELD := 24

  datatype Result = TooMany | Refused | Faults | Running(pid: nat, entry: U32)

  /** Four bytes read from `at` into a buffer that held `was`: a shorter file leaves the rest of the buffer as it was.
      */
  function FourBytes(content: seq<Byte>, at: nat, was: seq<Byte>): (r: seq<Byte>)
    requires |was| == 4
    ensures |r| == 4
  {
    Splice(was, 0, Slice(content, at, 4))
  }

  /** The address of the first instruction of an executable of this name, if there is one. The two buffers on the stack
      count where the file is too short. */
  ghost function EntryOf(img: Image, fname: seq<Byte>, elfCheck: seq<Byte>, bufTemp: seq<Byte>): Option<U32>
    requires img.WellFormed() && |elfCheck| == 4 == |bufTemp|
  {
    match Lookup(img.entries, fname)
    case None => None
    case Some(d) =>
      if d.inode < |img.inodes| && FourBytes(img.Content(img.inodes[d.inode]), 0, elfCheck) == MAGIC
      then Some(M.Dword(FourBytes(img.Content(img.inodes[d.inode]), ENTRY_FIELD, bufTemp), 0))
      else None
  }

  /** Reads four bytes of a file; fails for an inode number that is none. */
  method ReadFour(img: Image, inode: U32, offset: U32, buf: array<Byte>) returns (ok: bool)
    requires img.WellFormed() && buf.Length == 4 && offset <= ENTRY_FIELD
    modifies buf
    ensures ok <==> inode < |img.inodes|
    ensures ok ==> buf[..] == FourBytes(img.Content(img.inodes[inode]), offset, old(buf[..]))
    ensures !ok ==> buf[..] == old(buf[..])
  {
    hide *;
    FourDelivered(img, inode, offset, buf[..]);
    var r := ReadData(img, inode, offset, buf, 0, 4);
    ok := r != Failure;
  }

  lemma FourDelivered(img: Image, inode: U32, offset: U32, was: seq<Byte>)
    requires img.WellFormed() && |was| == 4 && offset <= ENTRY_FIELD
    ensures img.Shaped() && 4 < TWO_32 && |Delivered(img, inode, offset, 4)| <= 4
    ensures Outcome(img, inode, offset, 4) == Failure <==> inode >= |img.inodes|
    ensures Splice(was, 0, Delivered(img, inode, offset, 4)) ==
      if inode < |img.inodes| then FourBytes(img.Content(img.inodes[inode]), offset, was) else was
  {
    if inode < |img.inodes| {
      ReadIsSlice(img, inode, offset, 4);
    } else {
      SpliceNothing(was, 0);
    }
  }

  /** The executable check and the entry address. */
  method Check(img: Image, fname: seq<Byte>, elfCheck: array<Byte>, bufTemp: array<Byte>) returns (entry: Option<U32>)
    requires img.WellFormed() && Free(fname, NUL) && elfCheck.Length == 4 == bufTemp.Length && elfCheck != bufTemp
    modifies elfCheck, bufTemp
    ensures entry == EntryOf(img, fname, old(elfCheck[..]), old(bufTemp[..]))
  {
    hide FourBytes, Lookup, M.Dword, Image.Content;
    var d := ReadDentryByName(img, fname);
    if d.None? { return None; }
    var ok := ReadFour(img, d.value.inode, 0, elfCheck);
    if !ok { return None; }
    if !(elfCheck[0] == 0x7F && elfCheck[1] == 0x45 && elfCheck[2] == 0x4C && elfCheck[3] == 0x46) {
      assert elfCheck[..] != MAGIC;
      return None;
    }
    assert elfCheck[..] == MAGIC;
    ok := ReadFour(img, d.value.inode, ENTRY_FIELD, bufTemp);
    if !ok { return None; }
    entry := Some(M.Dword(bufTemp[..], 0));
  }

  /** What `execute` returns with process slot `slot` to be had. */
  ghost function ResultOf(slot: nat, entry: Option<U32>, image: Option<seq<Byte>>): Result {
    if slot == T.SLOTS then TooMany
    else if entry.None? then Refused
    else
      match L.ResultFor(image)
      case Failed => Refused
      case PageFault => Faults
      case Loaded => Running(slot, entry.value)
  }

  /** A program runs exactly when a slot is free, its name is that of a regular file which fits the window behind
      0x8048000, and the file starts with the four magic bytes; what is missing of them in a shorter file is taken from
      the stack. It starts at the address stored in bytes 24 to 27 of the file. With no slot free there are too many
      processes, a file that is too long ends in a page fault, and everything else is refused. */
  lemma RunsExactly(img: Image, fname: seq<Byte>, elfCheck: seq<Byte>, bufTemp: seq<Byte>, slot: nat)
    requires img.WellFormed() && |elfCheck| == 4 == |bufTemp| && slot <= 7
    ensures var r := ResultOf(slot, EntryOf(img, fname, elfCheck, bufTemp), L.ImageOf(img, fname));
      && (r.TooMany? <==> slot == 7)
      && match Lookup(img.entries, fname)
         case None => slot < 7 ==> r.Refused?
         case Some(d) =>
           if d.fileType != 2 || d.inode >= |img.inodes| then slot < 7 ==> r.Refused?
           else
             var c := img.Content(img.inodes[d.inode]);
             var magic := (if |c| >= 4 then c[..4] else c + elfCheck[|c|..]) == [0x7F, 0x45, 0x4C, 0x46];
             && (r.Running? <==> slot < 7 && magic && |c| <= 0x3B8000)
             && (r.Faults? <==> slot < 7 && magic && |c| > 0x3B8000)
             && (r.Running? ==> r.pid == slot)
             && (r.Running? && |c| >= 28 ==>
                   r.entry == c[24] as int + 256 * c[25] as int + 65536 * c[26] as int + 16777216 * c[27] as int)
  {
    hide Image.Content, Lookup, FourBytes;
    var image := L.ImageOf(img, fname);
    if image.Some? {
      FourBytesAre(image.value, 0, elfCheck);
      FourBytesAre(image.value, 24, bufTemp);
    }
  }

  lemma FourBytesAre(content: seq<Byte>, at: nat, was: seq<Byte>)
    requires |was| == 4
    ensures |content| >= at + 4 ==> FourBytes(content, at, was) == content[at..at + 4]
    ensures at == 0 && |content| < 4 ==> FourBytes(content, at, was) == content + was[|content|..]
  {
  }

  /** `execute`: takes a slot, checks the program, maps and loads its image, and fills in the process. */
  method ExecuteProgram(img: Image, fname: seq<Byte>, processes: T.ProcessTable, tables: P.PageTables,
                        phys: array<Byte>, elfCheck: array<Byte>, bufTemp: array<Byte>)
    returns (r: Result)
    requires img.WellFormed() && Free(fname, NUL) && processes.Valid() && tables.Valid()
    requires P.ProgramFrame(P.NUM_PD) <= phys.Length && elfCheck.Length == 4 == bufTemp.Length
    requires elfCheck != bufTemp && elfCheck != phys && bufTemp != phys
    modifies processes, processes.blocks, tables, tables.pd, phys, elfCheck, bufTemp
    ensures processes.Valid() && tables.Valid()
    ensures var slot := T.FreeSlot(old(processes.table), 0);
      var entry := EntryOf(img, fname, old(elfCheck[..]), old(bufTemp[..]));
      && r == ResultOf(slot, entry, L.ImageOf(img, fname))
      && processes.table == T.Step(old(processes.table), T.Call.Execute(r.Running?))
      && (slot == T.SLOTS || entry.None? ==> tables.state == old(tables.state) && phys[..] == old(phys[..]))
      && (slot < T.SLOTS && entry.Some? ==>
            && tables.state == P.Step(old(tables.state), P.TaskMemInit(slot))
            && L.Effect(old(phys[..]), phys[..], slot, L.ImageOf(img, fname)))
  {
    hide T.WellFormed, T.Match, T.MarksAre, T.Step, T.FreeSlot, P.PageTables.Valid, P.Step;
    hide EntryOf, L.Effect, L.ImageOf;
    var slot := processes.FindSlot();
    var entry: Option<U32> := None;
    var loaded := L.Failed;
    if slot < 7 {
      entry := Check(img, fname, elfCheck, bufTemp);
      if entry.Some? { loaded := L.LoadProgram(img, fname, tables, slot, phys); }
    }
    var result := processes.Execute(entry.Some? && loaded == L.Loaded);
    if slot == 7 { return TooMany; }
    if entry.None? || loaded == L.Failed { return Refused; }
    r := if loaded == L.PageFault then Faults else Running(result.pid, entry.value);
  }
}
