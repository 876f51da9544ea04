/** Loading a program image through the page tables into its physical frame (student-distrib/filesys.c,
    student-distrib/systemcalls.c). */
module Loader {
  import opened Bytes
  import opened FileSystem
  import P = Paging

  /** How a load ends. A page fault ends it inside the copy. */
  datatype LoadResult = Loaded | Failed | PageFault

  /** Where an image lies in its 4 MB window, and what is left for it there. */
  const IMAGE_OFFSET := 0x48000
  const IMAGE_ROOM := 0x400000 - 0x48000

  /** The content of the regular file `program_load` reads for this name. */
  ghost function ImageOf(img: Image, fname: seq<Byte>): Option<seq<Byte>>
    requires img.WellFormed()
  {
    match Lookup(img.entries, fname)
    case Some(d) =>
      if d.fileType == REGULAR_FILE && d.inode < |img.inodes| then Some(img.Content(img.inodes[d.inode])) else None
    case None => None
  }

  /** An image is loaded exactly when there is one and it fits behind its offset in the 4 MB window. */
  function ResultFor(image: Option<seq<Byte>>): LoadResult {
    if image.None? then Failed else if |image.value| <= IMAGE_ROOM then Loaded else PageFault
  }

  /** Memory after a load: the image in its place in the process's frame, as far as the 4 MB window goes, and nothing
      else changed. */
  ghost predicate Effect(was: seq<Byte>, now: seq<Byte>, k: nat, image: Option<seq<Byte>>) {
    var base := P.ProgramFrame(k) + IMAGE_OFFSET;
    && |now| == |was| && base + IMAGE_ROOM <= |was|
    && match image
       case None => now == was
       case Some(content) => now == Splice(was, base, content[..Min(|content|, IMAGE_ROOM)])
  }

  ghost predicate Ready(tables: P.PageTables, k: nat, phys: array<Byte>)
    reads tables, tables.pd, tables.pt, tables.programPage
  {
    tables.Valid() && k < P.NUM_PD && k in tables.state.loaded && P.ProgramFrame(P.NUM_PD) <= phys.Length
  }

  /** Copies the file `fname` to the program image address of the process whose directory is `k`, a block at a time. */
  method ProgramLoad(img: Image, fname: seq<Byte>, tables: P.PageTables, k: nat, phys: array<Byte>)
    returns (r: LoadResult)
    requires img.WellFormed() && Free(fname, NUL) && Ready(tables, k, phys)
    modifies phys
    ensures r == ResultFor(ImageOf(img, fname)) && Effect(old(phys[..]), phys[..], k, ImageOf(img, fname))
  {
    var d := ReadDentryByName(img, fname);
    if d.None? || d.value.fileType != REGULAR_FILE { return Failed; }
    if d.value.inode >= |img.inodes| {
      SpliceNothing(phys[..], 0);
      var first := ReadData(img, d.value.inode, 0, phys, 0, BLOCK_SIZE);
      assert first == Failure;
      return Failed;
    }
    r := CopyImage(img, d.value.inode, tables, k, phys, img.Content(img.inodes[d.value.inode]));
  }

  /** The inode holds `content`. */
  ghost predicate Holds(img: Image, inode: U32, content: seq<Byte>) {
    img.WellFormed() && inode < |img.inodes| && content == img.Content(img.inodes[inode])
  }

  /** The read loop of `program_load`: each read stores at the address one read further on. */
  method CopyImage(img: Image, inode: U32, tables: P.PageTables, k: nat, phys: array<Byte>, ghost content: seq<Byte>)
    returns (r: LoadResult)
    requires Holds(img, inode, content) && Ready(tables, k, phys)
    modifies phys
    ensures r == ResultFor(Some(content)) && Effect(old(phys[..]), phys[..], k, Some(content))
  {
    hide *;
    ghost var was := phys[..];
    RoomInMemory(tables, k, phys);
    r := CopyLoop(img, inode, tables, k, phys, content);
    StoredImage(was, k, content);
  }

  lemma RoomInMemory(tables: P.PageTables, k: nat, phys: array<Byte>)
    requires Ready(tables, k, phys)
    ensures 0 <= IMAGE_ROOM && P.ProgramFrame(k) + 0x400000 <= phys.Length
  {
  }

  /** Memory once the first `offset` bytes of an image are stored. */
  ghost function Stored(was: seq<Byte>, k: nat, content: seq<Byte>, offset: nat): seq<Byte>
    requires offset <= |content| && offset <= IMAGE_ROOM && P.ProgramFrame(k) + 0x400000 <= |was|
  {
    Splice(was, P.ProgramFrame(k) + IMAGE_OFFSET, content[..offset])
  }

  method CopyLoop(img: Image, inode: U32, tables: P.PageTables, k: nat, phys: array<Byte>, ghost content: seq<Byte>)
    returns (r: LoadResult)
    requires Holds(img, inode, content) && Ready(tables, k, phys)
    modifies phys
    ensures r == ResultFor(Some(content)) && P.ProgramFrame(k) + 0x400000 <= phys.Length && 0 <= IMAGE_ROOM
    ensures phys[..] == Stored(old(phys[..]), k, content, Min(|content|, IMAGE_ROOM))
  {
    hide *;
    ghost var was := phys[..];
    var offset := 0;
    var buf := P.PGRM_IMG;
    NothingStored(tables, k, phys, content);
    while true
      invariant 0 <= offset <= |content| && offset <= IMAGE_ROOM && buf == P.PGRM_IMG + offset
      invariant Between(content, offset)
      invariant Ready(tables, k, phys) && phys[..] == Stored(was, k, content, offset)
      decreases |content| - offset
    {
      var ret := StoreNext(img, inode, offset, tables, k, phys, buf, was, content);
      if ret.None? || ret.value == 0 {
        return if ret.None? then PageFault else Loaded;
      }
      offset := offset + ret.value;
      buf := buf + ret.value;
    }
  }

  /** The copy stands between two blocks of the image, or at its end. */
  predicate Between(content: seq<Byte>, offset: nat) {
    offset % 4096 == 0 || offset == |content|
  }

  lemma NothingStored(tables: P.PageTables, k: nat, phys: array<Byte>, content: seq<Byte>)
    requires Ready(tables, k, phys)
    ensures 0 <= IMAGE_ROOM && 0 <= P.PGRM_IMG && P.ProgramFrame(k) + 0x400000 <= phys.Length
    ensures phys[..] == Stored(phys[..], k, content, 0) && Between(content, 0)
  {
    assert content[..0] == [];
    SpliceNothing(phys[..], P.ProgramFrame(k) + IMAGE_OFFSET);
  }

  /** One `read_data` of a block, behind the `offset` bytes stored so far. */
  method StoreNext(img: Image, inode: U32, offset: nat, tables: P.PageTables, k: nat, phys: array<Byte>, buf: nat,
                   ghost was: seq<Byte>, ghost content: seq<Byte>) returns (ret: Option<nat>)
    requires Holds(img, inode, content) && Ready(tables, k, phys)
    requires offset <= |content| && offset <= IMAGE_ROOM && buf == P.PGRM_IMG + offset && Between(content, offset)
    requires P.ProgramFrame(k) + 0x400000 <= |was| && phys[..] == Stored(was, k, content, offset)
    modifies phys
    ensures Ready(tables, k, phys)
    ensures match ret
      case Some(count) =>
        && offset + count <= |content| && offset + count <= IMAGE_ROOM && Between(content, offset + count)
        && phys[..] == Stored(was, k, content, offset + count)
        && (count == 0 ==> offset == Min(|content|, IMAGE_ROOM) && ResultFor(Some(content)) == Loaded)
      case None =>
        && phys[..] == old(phys[..])
        && offset == Min(|content|, IMAGE_ROOM) && ResultFor(Some(content)) == PageFault
  {
    hide *;
    NextBlock(content, offset);
    ghost var count := Min(BLOCK_SIZE, |content| - offset);
    if offset + count <= IMAGE_ROOM { StoredNext(was, k, content, offset, count); }
    ret := StoreBlock(img, inode, offset, tables, k, phys, buf, content);
  }

  /** The window ends between two blocks, so a block is either stored as a whole or faults at its first byte. */
  lemma NextBlock(content: seq<Byte>, offset: nat)
    requires offset <= |content| && offset <= IMAGE_ROOM && Between(content, offset)
    ensures var count := Min(BLOCK_SIZE, |content| - offset);
      && 0 <= count <= |content| - offset && Between(content, offset + count)
      && (count == 0 ==> offset == Min(|content|, IMAGE_ROOM) && ResultFor(Some(content)) == Loaded)
      && (offset + count > IMAGE_ROOM ==> offset == Min(|content|, IMAGE_ROOM) && ResultFor(Some(content)) == PageFault)
  {
  }

  lemma StoredNext(was: seq<Byte>, k: nat, content: seq<Byte>, offset: nat, count: nat)
    requires offset + count <= |content| && offset + count <= IMAGE_ROOM && P.ProgramFrame(k) + 0x400000 <= |was|
    ensures P.ProgramFrame(k) + IMAGE_OFFSET + offset + count <= |Stored(was, k, content, offset)|
    ensures Splice(Stored(was, k, content, offset), P.ProgramFrame(k) + IMAGE_OFFSET + offset,
                   content[offset..offset + count])
      == Stored(was, k, content, offset + count)
  {
  }

  lemma StoredImage(was: seq<Byte>, k: nat, content: seq<Byte>)
    requires P.ProgramFrame(k) + 0x400000 <= |was| && 0 <= IMAGE_ROOM
    ensures Effect(was, Stored(was, k, content, Min(|content|, IMAGE_ROOM)), k, Some(content))
  {
  }

  /** One `read_data` of a block with the virtual address `buf` as its destination, if every byte it stores is mapped.
      */
  method StoreBlock(img: Image, inode: U32, offset: nat, tables: P.PageTables, k: nat, phys: array<Byte>, buf: nat,
                    ghost content: seq<Byte>) returns (ret: Option<nat>)
    requires Holds(img, inode, content) && Ready(tables, k, phys)
    requires offset <= |content| && offset <= IMAGE_ROOM && buf == P.PGRM_IMG + offset
    modifies phys
    ensures Ready(tables, k, phys)
    ensures var count := Min(BLOCK_SIZE, |content| - offset);
      if offset + count <= IMAGE_ROOM then
        && ret == Some(count)
        && phys[..] == Splice(old(phys[..]), P.ProgramFrame(k) + IMAGE_OFFSET + offset, content[offset..offset + count])
      else ret == None && phys[..] == old(phys[..])
  {
    hide *;
    BlockFacts(img, inode, offset, tables, k, phys, content);
    var at := Destination(tables, k, offset, buf, Min(BLOCK_SIZE, img.inodes[inode].length - offset));
    if at.None? { return None; }
    var n := ReadData(img, inode, offset, phys, at.value, BLOCK_SIZE);
    ret := Some(n.n);
  }

  /** What the store of a block relies on: the file has the bytes, memory the room. */
  lemma BlockFacts(img: Image, inode: U32, offset: nat, tables: P.PageTables, k: nat, phys: array<Byte>,
                   content: seq<Byte>)
    requires Holds(img, inode, content) && Ready(tables, k, phys) && offset <= |content| && offset <= IMAGE_ROOM
    ensures tables.Valid() && k < P.NUM_PD && k in tables.state.loaded
    ensures img.Shaped() && inode < |img.inodes| && img.inodes[inode].length == |content|
    ensures var count := Min(BLOCK_SIZE, |content| - offset);
      && 0 <= count <= BLOCK_SIZE && offset < TWO_32 && 0 <= BLOCK_SIZE < TWO_32
      && Delivered(img, inode, offset, BLOCK_SIZE) == content[offset..offset + count]
      && |Delivered(img, inode, offset, BLOCK_SIZE)| == count
      && Outcome(img, inode, offset, BLOCK_SIZE) == Count(count)
      && P.ProgramFrame(k) + IMAGE_OFFSET + offset >= 0
      && (offset + count <= IMAGE_ROOM ==> P.ProgramFrame(k) + IMAGE_OFFSET + offset + count <= phys.Length)
  {
    BlockDelivered(img, inode, offset, content);
    hide Delivered, Outcome, P.PageTables.Valid;
  }

  lemma BlockDelivered(img: Image, inode: U32, offset: nat, content: seq<Byte>)
    requires Holds(img, inode, content) && offset <= |content|
    ensures var count := Min(BLOCK_SIZE, |content| - offset);
      && Delivered(img, inode, offset, BLOCK_SIZE) == content[offset..offset + count]
      && Outcome(img, inode, offset, BLOCK_SIZE) == Count(count)
  {
    ReadIsSlice(img, inode, offset, BLOCK_SIZE);
    hide Delivered, Outcome;
  }

  /** Where a store of `count` bytes at the virtual address `buf` goes, if every one of them is mapped. */
  method Destination(tables: P.PageTables, k: nat, ghost offset: nat, buf: nat, count: nat) returns (at: Option<nat>)
    requires tables.Valid() && k < P.NUM_PD && k in tables.state.loaded
    requires offset <= IMAGE_ROOM && buf == P.PGRM_IMG + offset && count <= BLOCK_SIZE
    ensures at == if offset + count <= IMAGE_ROOM then Some(P.ProgramFrame(k) + IMAGE_OFFSET + offset) else None
  {
    hide P.PageTables.Valid;
    if count == 0 { return Some(P.ProgramFrame(k) + (buf - 0x8000000)); }
    var first := tables.Access(k, buf);
    var last := tables.Access(k, buf + count - 1);
    at := if first.Mapped? && last.Mapped? then Some(first.pa) else None;
  }

  /** The part of `execute` that gives process `pid` its memory: its directory, then its image. */
  method LoadProgram(img: Image, fname: seq<Byte>, tables: P.PageTables, pid: nat, phys: array<Byte>)
    returns (r: LoadResult)
    requires img.WellFormed() && Free(fname, NUL) && tables.Valid() && pid < P.NUM_PD
    requires P.ProgramFrame(P.NUM_PD) <= phys.Length
    modifies tables, tables.pd, phys
    ensures tables.Valid() && tables.state == P.Step(old(tables.state), P.TaskMemInit(pid))
    ensures r == ResultFor(ImageOf(img, fname)) && Effect(old(phys[..]), phys[..], pid, ImageOf(img, fname))
  {
    var _ := tables.InitTask(pid);
    assert Ready(tables, pid, phys);
    hide *;
    r := ProgramLoad(img, fname, tables, pid, phys);
  }

  /** A process sees its image from address 0x8048000 on, byte for byte as far as its window goes: at 0x48000 in its
      own 4 MB of memory. */
  lemma ImageIsVisible(was: seq<Byte>, now: seq<Byte>, st: P.State, k: nat, image: seq<Byte>, i: nat)
    requires P.Sound(st) && k < P.NUM_PD && k in st.loaded && Effect(was, now, k, Some(image))
    requires i < |image| && i < 0x3B8000
    ensures var pa := 0x800000 + 0x400000 * k + 0x48000 + i;
      P.Translate(st, k, 0x8048000 + i) == P.Mapped(pa, true, true) && pa < |now| && now[pa] == image[i]
  {
    hide P.Translate;
    P.TranslationInNumbers(st, k, 0x8048000 + i);
    var stored := image[..Min(|image|, IMAGE_ROOM)];
    SpliceAt(was, P.ProgramFrame(k) + IMAGE_OFFSET, stored, P.ProgramFrame(k) + IMAGE_OFFSET + i);
    hide Splice;
  }

  /** A load changes memory only where the image goes: from 0x48000 in the process's 4 MB on, for as many bytes as the
      image has, and at most up to the end of those 4 MB. */
  lemma OnlyImageIsStored(was: seq<Byte>, now: seq<Byte>, k: nat, image: Option<seq<Byte>>, p: nat)
    requires k < 7 && p < |was| && Effect(was, now, k, image)
    ensures |now| == |was|
    ensures now[p] != was[p] ==>
      && image.Some?
      && 0x800000 + 0x400000 * k + 0x48000 <= p < 0x800000 + 0x400000 * k + 0x400000
      && p < 0x800000 + 0x400000 * k + 0x48000 + |image.value|
  {
  }

  /** A load changes no byte of another process's frame, of the kernel page or of the VGA page. */
  lemma LoadLeavesOthersAlone(was: seq<Byte>, now: seq<Byte>, k: nat, image: Option<seq<Byte>>, k': nat, p: nat)
    requires k < P.NUM_PD && k' != k && p < |was| && Effect(was, now, k, image)
    requires P.InRange(p, P.ProgramFrame(k'), 0x400000) || P.InRange(p, P.KERNEL_MEM, 0x400000)
      || P.InRange(p, P.VIDEO_MEM, 0x1000)
    ensures now[p] == was[p]
  {
    assert !P.InRange(p, P.ProgramFrame(k), 0x400000);
  }
}
