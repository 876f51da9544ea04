/** The per-process file descriptor table and the open, read, write and close calls on it
    (student-distrib/systemcalls.c), refining a map from descriptors to contents and positions. */
module FileTable {
  import opened Bytes
  import opened FileSystem

  const TABLE_SIZE := 8
  const TWO_31: int := 0x8000_0000

  /** The jump table a slot points at. */
  datatype Ops = NullOps | RegularOps | DirectoryOps | RtcOps | StdinOps | StdoutOps

  /** One `file_t`. The inode pointer is kept as an index into the inode array. */
  datatype Slot = Slot(ops: Ops, inode: Option<U32>, pos: U32, flags: U32)

  const FREE := Slot(NullOps, None, 0, 0)

  /** What an open descriptor stands for. */
  datatype Handle = File(content: seq<Byte>, pos: nat) | Directory(next: nat) | Clock | Keyboard | Screen(number: nat)

  type Handles = map<nat, Handle>

  // ---- the abstract table ----

  /** The handle a successful `open` of `fname` creates. */
  ghost function Fresh(img: Image, fname: seq<Byte>): Option<Handle>
    requires img.WellFormed()
  {
    match Lookup(img.entries, fname)
    case None => None
    case Some(d) =>
      if d.fileType == 0 then Some(Clock)
      else if d.fileType == 1 then Some(Directory(0))
      else if d.fileType == REGULAR_FILE && d.inode < |img.inodes| then Some(File(img.Content(img.inodes[d.inode]), 0))
      else None
  }

  /** The lowest descriptor from `fd` on that is not open. */
  function LowestFree(m: Handles, fd: nat): (r: nat)
    ensures fd <= r && forall k :: fd <= k < r ==> k in m
    ensures r < TABLE_SIZE ==> r !in m
    decreases TABLE_SIZE - fd
  {
    if fd < TABLE_SIZE && fd in m then LowestFree(m, fd + 1) else fd
  }

  datatype Event = Open(fname: seq<Byte>) | Read(fd: int, nbytes: int) | Close(fd: int)

  /** `Typed` is whatever the keyboard delivers. */
  datatype Reply = Opened(fd: nat) | Data(bytes: seq<Byte>) | Typed | Closed | Refused

  /** Bytes a directory read stores when it stands at entry `k`. */
  function DirBytes(img: Image, k: nat, nbytes: nat): seq<Byte>
    requires img.Shaped()
  {
    if k >= |img.entries| then [] else CopiedName(img.entries[k].name)[..Min(nbytes, NAME_SIZE)]
  }

  /** A `read` of an open descriptor: what becomes of its handle, and the reply. */
  ghost function ReadHandle(img: Image, h: Handle, nbytes: nat): (Handle, Reply)
    requires img.Shaped()
  {
    match h
    case File(content, pos) =>
      var bytes := Slice(content, pos, nbytes);
      (File(content, pos + |bytes|), Data(bytes))
    case Directory(k) => (Directory(Min(k + 1, |img.entries|)), Data(DirBytes(img, k, nbytes)))
    case Clock => (h, Data([]))
    case Keyboard => (h, Typed)
    case Screen(_) => (h, Refused)
  }

  /** One system call on the abstract table. */
  ghost function Step(img: Image, m: Handles, e: Event): (Handles, Reply)
    requires img.WellFormed()
  {
    match e
    case Open(fname) =>
      var fd := LowestFree(m, 0);
      var handle := Fresh(img, fname);
      if fd < TABLE_SIZE && handle.Some? then (m[fd := handle.value], Opened(fd)) else (m, Refused)
    case Read(fd, nbytes) =>
      if fd < 0 || fd !in m || nbytes < 0 then (m, Refused)
      else
        var (h, reply) := ReadHandle(img, m[fd], nbytes);
        (m[fd := h], reply)
    case Close(fd) =>
      if fd < 2 || fd !in m then (m, Refused) else (m - {fd}, Closed)
  }

  // ---- whole runs ----

  ghost function Run(img: Image, m: Handles, es: seq<Event>): Handles
    requires img.WellFormed()
    decreases |es|
  {
    if es == [] then m else Run(img, Step(img, m, es[0]).0, es[1..])
  }

  /** The bytes one call delivers to a reader of `fd`. */
  ghost function BytesOf(img: Image, m: Handles, e: Event, fd: nat): seq<Byte>
    requires img.WellFormed()
  {
    var reply := Step(img, m, e).1;
    if e.Read? && e.fd == fd && reply.Data? then reply.bytes else []
  }

  /** The bytes a run's reads of `fd` deliver, one after the other. */
  ghost function BytesRead(img: Image, m: Handles, es: seq<Event>, fd: nat): seq<Byte>
    requires img.WellFormed()
    decreases |es|
  {
    if es == [] then []
    else BytesOf(img, m, es[0], fd) + BytesRead(img, Step(img, m, es[0]).0, es[1..], fd)
  }

  /** One call that does not close `fd` delivers to it the stretch of content its position moves over. */
  lemma ReadIsContiguous(img: Image, m: Handles, e: Event, fd: nat)
    requires img.WellFormed() && fd in m && m[fd].File? && m[fd].pos <= |m[fd].content| && e != Event.Close(fd)
    ensures var m' := Step(img, m, e).0;
      && fd in m' && m'[fd].File? && m'[fd].content == m[fd].content
      && m[fd].pos <= m'[fd].pos <= |m[fd].content|
      && BytesOf(img, m, e, fd) == m[fd].content[m[fd].pos..m'[fd].pos]
  {
  }

  lemma Joined(s: seq<Byte>, a: nat, b: nat, c: nat)
    requires a <= b <= c <= |s|
    ensures s[a..b] + s[b..c] == s[a..c]
  {
  }

  /** Whatever calls are interleaved, a file descriptor that stays open keeps its file, its position only grows, and
      the concatenation of its reads is exactly the stretch of content between its two positions. */
  lemma {:induction false} ReadsAreContiguous(img: Image, m: Handles, es: seq<Event>, fd: nat)
    requires img.WellFormed() && fd in m && m[fd].File? && m[fd].pos <= |m[fd].content|
    requires forall i :: 0 <= i < |es| ==> es[i] != Event.Close(fd)
    ensures fd in Run(img, m, es) && Run(img, m, es)[fd].File?
    ensures var File(content, pos) := Run(img, m, es)[fd];
      && content == m[fd].content && m[fd].pos <= pos <= |content|
      && BytesRead(img, m, es, fd) == content[m[fd].pos..pos]
    decreases |es|
  {
    if es != [] {
      hide Step, BytesOf;
      ReadIsContiguous(img, m, es[0], fd);
      var m' := Step(img, m, es[0]).0;
      ReadsAreContiguous(img, m', es[1..], fd);
      Joined(m[fd].content, m[fd].pos, m'[fd].pos, Run(img, m', es[1..])[fd].pos);
    }
  }

  /** Reads that start at the beginning of a file deliver a prefix of it, in any interleaving that does not close the
      descriptor; once a read of a positive size delivers nothing, they have delivered all of it. */
  lemma ReadToTheEnd(img: Image, m: Handles, content: seq<Byte>, fd: nat, es: seq<Event>, nbytes: nat)
    requires img.WellFormed() && fd in m && m[fd] == File(content, 0)
    requires forall i :: 0 <= i < |es| ==> es[i] != Event.Close(fd)
    ensures BytesRead(img, m, es, fd) <= content
    ensures nbytes > 0 && Step(img, Run(img, m, es), Read(fd, nbytes)).1 == Data([]) ==>
      BytesRead(img, m, es, fd) == content
  {
    ReadsAreContiguous(img, m, es, fd);
  }

  /** The descriptor a call is about: the one it names, or the lowest free one for `open`. */
  function Target(m: Handles, e: Event): int {
    if e.Open? then LowestFree(m, 0) else e.fd
  }

  /** A call touches no descriptor but its own, and a refused call touches none. `open` succeeds exactly when the name
      resolves and some descriptor is not in use, and then takes the lowest descriptor not in use. */
  lemma StepIsLocal(img: Image, m: Handles, e: Event)
    requires img.WellFormed() && (forall fd <- m :: fd < 8) && 0 in m && 1 in m
    ensures var (m', reply) := Step(img, m, e);
      && (forall fd: nat :: fd as int != Target(m, e) ==> (fd in m' <==> fd in m) && (fd in m ==> m'[fd] == m[fd]))
      && (reply.Refused? ==> m' == m)
      && (e.Open? ==> (reply.Opened? <==> Fresh(img, e.fname).Some? && exists fd: nat :: fd < 8 && fd !in m))
      && (reply.Opened? ==>
            2 <= reply.fd < 8 && reply.fd !in m && (forall k :: 0 <= k < reply.fd ==> k in m)
            && m' == m[reply.fd := Fresh(img, e.fname).value])
      && (e.Close? ==> (reply.Closed? <==> 2 <= e.fd && e.fd in m) && (reply.Closed? ==> m' == m - {e.fd}))
      && (forall fd <- m' :: fd < 8) && 0 in m' && 1 in m'
  {
    assert forall k: nat :: k < LowestFree(m, 0) ==> k in m;
  }

  /** With a descriptor to spare, opening an entry of type 0 gives a clock, of type 1 the directory from its start, of
      type 2 with a valid inode number the file from its start; anything else is refused. */
  lemma OpensByType(img: Image, m: Handles, fname: seq<Byte>)
    requires img.WellFormed() && exists fd: nat :: fd < 8 && fd !in m
    ensures var (m', reply) := Step(img, m, Event.Open(fname));
      match Lookup(img.entries, fname)
      case None => reply == Refused
      case Some(d) =>
        && (reply.Opened? <==> d.fileType <= 1 || (d.fileType == 2 && d.inode < |img.inodes|))
        && (d.fileType == 0 ==> reply.fd in m' && m'[reply.fd] == Clock)
        && (d.fileType == 1 ==> reply.fd in m' && m'[reply.fd] == Directory(0))
        && (d.fileType == 2 && d.inode < |img.inodes| ==>
              reply.fd in m' && m'[reply.fd] == File(img.Content(img.inodes[d.inode]), 0))
  {
    hide Lookup, Image.Content;
    assert LowestFree(m, 0) < TABLE_SIZE;
  }

  /** A file delivers the bytes from its position on and moves past them; a directory the next name, filled up with NULs
      to 32 bytes or the count asked for, and nothing after the last; a clock nothing; a terminal is not read so. */
  lemma RepliesByKind(img: Image, m: Handles, fd: int, nbytes: int)
    requires img.WellFormed()
    ensures var (m', reply) := Step(img, m, Read(fd, nbytes));
      if fd < 0 || fd !in m || nbytes < 0 then m' == m && reply == Refused
      else
        && fd in m' && m' == m[fd := m'[fd]]
        && match m[fd]
           case File(content, pos) =>
             pos <= |content| ==>
               var end := if pos + nbytes <= |content| then pos + nbytes else |content|;
               m'[fd] == File(content, end) && reply == Data(content[pos..end])
           case Directory(k) =>
             if k >= |img.entries| then m'[fd] == Directory(|img.entries|) && reply == Data([])
             else
               var name := CString(img.entries[k].name);
               && m'[fd] == Directory(k + 1) && reply.Data? && |reply.bytes| == (if nbytes <= 32 then nbytes else 32)
               && forall i :: 0 <= i < |reply.bytes| ==> reply.bytes[i] == if i < |name| then name[i] else 0
           case Clock => m' == m && reply == Data([])
           case Keyboard => m' == m && reply == Typed
           case Screen(_) => m' == m && reply == Refused
  {
    hide CString, Image.Content, Image.WellFormed;
  }

  // ---- the concrete table ----

  ghost predicate SlotValid(img: Image, s: Slot)
    requires img.WellFormed()
  {
    s.flags == 0 || (s.flags == 1 && s.ops != NullOps
      && (s.ops == RegularOps ==>
            s.inode.Some? && s.inode.value < |img.inodes| && s.pos <= img.inodes[s.inode.value].length)
      && (s.ops == DirectoryOps ==> s.pos <= |img.entries|))
  }

  ghost function HandleOf(img: Image, s: Slot): Handle
    requires img.WellFormed() && SlotValid(img, s) && s.flags == 1
  {
    match s.ops
    case RegularOps => File(img.Content(img.inodes[s.inode.value]), s.pos)
    case DirectoryOps => Directory(s.pos)
    case RtcOps => Clock
    case StdinOps => Keyboard
    case StdoutOps => Screen(s.pos)
    case NullOps => assert false; Clock
  }

  /** The slot after a read of `n` bytes. */
  function Advanced(s: Slot, n: nat): Slot {
    s.(pos := (s.pos + n) % TWO_32)
  }

  /** On a well-formed image a read at a file slot delivers the slice at its position and moves past it. */
  lemma RegularReads(img: Image, s: Slot, nbytes: nat)
    requires img.WellFormed() && SlotValid(img, s) && s.flags == 1 && s.ops == RegularOps && nbytes < TWO_31
    ensures var (h, reply) := ReadHandle(img, HandleOf(img, s), nbytes);
      && reply.Data?
      && Delivered(img, s.inode.value, s.pos, nbytes) == reply.bytes
      && Outcome(img, s.inode.value, s.pos, nbytes) == Count(|reply.bytes|)
      && SlotValid(img, Advanced(s, |reply.bytes|)) && HandleOf(img, Advanced(s, |reply.bytes|)) == h
      && img.inodes[s.inode.value].length <= MAX_FILE
  {
    hide Delivered, Outcome, Image.Content;
    ReadIsSlice(img, s.inode.value, s.pos, nbytes);
  }

  class FileTable {
    const img: Image
    const slots: array<Slot>
    /** The terminal that was active when the process started; all its output goes there, and is recorded here. */
    const screen: U32
    var console: seq<Byte>
    /** The open descriptors. A slot whose flag is clear holds leftovers and stands for nothing. */
    ghost var handles: Handles

    ghost predicate Valid()
      reads this, slots
    {
      && img.WellFormed() && slots.Length == TABLE_SIZE
      && (forall fd: nat :: fd in handles <==> fd < TABLE_SIZE && slots[fd].flags == 1)
      && (forall fd: nat :: fd < TABLE_SIZE ==> SlotValid(img, slots[fd]))
      && (forall fd: nat :: fd in handles ==> handles[fd] == HandleOf(img, slots[fd]))
      && 0 in handles && handles[0] == Keyboard && 1 in handles && handles[1] == Screen(screen)
      && (forall fd: nat :: fd in handles && handles[fd].Screen? ==> fd == 1)
      && (forall fd: nat :: fd in handles && handles[fd].Keyboard? ==> fd == 0)
    }

    /** A new process: every slot cleared, then standard input and output opened. */
    constructor (img: Image, screen: U32)
      requires img.WellFormed()
      ensures Valid() && fresh(slots) && this.img == img && this.screen == screen && console == []
      ensures handles == map[0 := Keyboard, 1 := Screen(screen)]
    {
      this.img := img;
      this.screen := screen;
      slots := new Slot[TABLE_SIZE];
      console := [];
      handles := map[0 := Keyboard, 1 := Screen(screen)];
      new;
      var i := 0;
      while i < TABLE_SIZE
        invariant 0 <= i <= TABLE_SIZE && forall k :: 0 <= k < i ==> slots[k] == FREE
        modifies slots
      {
        slots[i] := FREE;
        i := i + 1;
      }
      slots[0] := slots[0].(ops := StdinOps, flags := 1);
      slots[1] := slots[1].(ops := StdoutOps, flags := 1, pos := screen);
    }

    /** Fills slot `fd`, as the `*_open` and `*_read` routines do. */
    method Install(fd: nat, s: Slot)
      requires Valid() && 2 <= fd < TABLE_SIZE && s.flags == 1 && SlotValid(img, s)
      requires s.ops != StdinOps && s.ops != StdoutOps
      modifies slots, `handles
      ensures Valid() && handles == old(handles)[fd := HandleOf(img, s)]
    {
      slots[fd] := s;
      handles := handles[fd := HandleOf(img, s)];
    }

    method RtcOpen(fd: nat) returns (r: int)
      requires Valid() && 2 <= fd < TABLE_SIZE
      modifies slots, `handles
      ensures Valid() && r == 0 && handles == old(handles)[fd := Clock]
    {
      Install(fd, Slot(RtcOps, None, 0, 1));
      r := 0;
    }

    method DirOpen(fd: nat) returns (r: int)
      requires Valid() && 2 <= fd < TABLE_SIZE
      modifies slots, `handles
      ensures Valid() && r == 0 && handles == old(handles)[fd := Directory(0)]
    {
      Install(fd, Slot(DirectoryOps, None, 0, 1));
      r := 0;
    }

    method FileOpen(fd: nat, fname: seq<Byte>) returns (r: int)
      requires Valid() && 2 <= fd < TABLE_SIZE && Free(fname, NUL) && Lookup(img.entries, fname).Some?
      modifies slots, `handles
      ensures Valid()
      ensures var d := Lookup(img.entries, fname).value;
        if d.inode >= |img.inodes| then r == -1 && handles == old(handles)
        else r == 0 && handles == old(handles)[fd := File(img.Content(img.inodes[d.inode]), 0)]
    {
      var d := ReadDentryByName(img, fname);
      if d.value.inode >= |img.inodes| { return -1; }
      Install(fd, Slot(RegularOps, Some(d.value.inode), 0, 1));
      r := 0;
    }

    /** The scan for a slot that is not in use. */
    method FindFree() returns (fd: nat)
      requires Valid()
      ensures fd == LowestFree(handles, 0) && 2 <= fd <= TABLE_SIZE
    {
      fd := 0;
      while fd < TABLE_SIZE && slots[fd].flags == 1
        invariant fd <= TABLE_SIZE && LowestFree(handles, fd) == LowestFree(handles, 0)
      {
        fd := fd + 1;
      }
    }

    method Open(fname: seq<Byte>) returns (r: int)
      requires Valid() && Free(fname, NUL)
      modifies slots, `handles
      ensures Valid()
      ensures var (m, reply) := Step(img, old(handles), Event.Open(fname));
        handles == m && r == if reply.Opened? then reply.fd else -1
    {
      hide Lookup, Finds, LowestFree, Image.Content;
      var fd := FindFree();
      if fd > 7 { return -1; }
      var d := ReadDentryByName(img, fname);
      if d.None? { return -1; }
      match d.value.fileType {
        case 0 => r := RtcOpen(fd);
        case 1 => r := DirOpen(fd);
        case 2 => r := FileOpen(fd, fname);
        case _ => r := -1;
      }
      if r != -1 { r := fd; }
    }

    /** Reads at the slot's position. A failed block lookup stores what came before it and moves the position to
        one byte earlier, because the -1 is added to it. */
    static method FileRead(img: Image, slot: Slot, buf: array<Byte>, at: nat, nbytes: nat) returns (r: int, s: Slot)
      requires img.Shaped() && slot.inode.Some? && slot.inode.value < |img.inodes| && nbytes < TWO_31
      requires img.inodes[slot.inode.value].length <= MAX_FILE
      requires at + |Delivered(img, slot.inode.value, slot.pos, nbytes)| <= buf.Length
      modifies buf
      ensures buf[..] == Splice(old(buf[..]), at, Delivered(img, slot.inode.value, slot.pos, nbytes))
      ensures match Outcome(img, slot.inode.value, slot.pos, nbytes)
        case Count(n) => r == n && s == Advanced(slot, n)
        case Failure => r == -1 && s == slot.(pos := (slot.pos - 1) % TWO_32)
        case OffTable => false
    {
      ReadStaysInTable(img, slot.inode.value, slot.pos, nbytes);
      var outcome := ReadData(img, slot.inode.value, slot.pos, buf, at, nbytes);
      var bytesRead := if outcome.Count? then outcome.n else TWO_32 - 1;
      s := slot.(pos := (slot.pos + bytesRead) % TWO_32);
      r := if outcome.Count? then outcome.n else -1;
    }

    /** Stores the next entry's name and returns the length of the C string now in the buffer. */
    static method DirRead(img: Image, slot: Slot, buf: array<Byte>, at: nat, nbytes: nat) returns (r: int, s: Slot)
      requires img.Shaped() && at + |DirBytes(img, slot.pos, nbytes)| <= buf.Length
      modifies buf
      ensures buf[..] == Splice(old(buf[..]), at, DirBytes(img, slot.pos, nbytes))
      ensures if slot.pos >= |img.entries| then r == 0 && s == slot
              else r == IndexOf(buf[at..], NUL) && s == slot.(pos := slot.pos + 1)
    {
      if slot.pos >= |img.entries| { return 0, slot; }
      var d := ReadDentryByIndex(img, slot.pos);
      var nameLength := if nbytes > NAME_SIZE then NAME_SIZE else nbytes;
      CopiedTwice(img.entries[slot.pos].name);
      CopyOut(buf, at, CopiedName(d.value.name), 0, nameLength);
      r := IndexOf(buf[at..], NUL);
      s := slot.(pos := slot.pos + 1);
    }

    /** The `read` call through the regular-file jump table. */
    method ReadRegular(fd: nat, buf: array<Byte>, at: nat, nbytes: nat) returns (r: int)
      requires Valid() && 2 <= fd < TABLE_SIZE && fd in handles && handles[fd].File? && nbytes < TWO_31
      requires at + |ReadHandle(img, handles[fd], nbytes).1.bytes| <= buf.Length
      modifies slots, `handles, buf
      ensures Valid()
      ensures var (h, reply) := ReadHandle(img, old(handles[fd]), nbytes);
        handles == old(handles)[fd := h] && r == |reply.bytes| && buf[..] == Splice(old(buf[..]), at, reply.bytes)
    {
      var slot := slots[fd];
      RegularReads(img, slot, nbytes);
      hide HandleOf, ReadHandle, Outcome, Delivered, Image.WellFormed;
      r, slot := FileRead(img, slot, buf, at, nbytes);
      assert slot == Advanced(slots[fd], r);
      Install(fd, slot);
    }

    /** The `read` call through the directory jump table. */
    method ReadDirectory(fd: nat, buf: array<Byte>, at: nat, nbytes: nat) returns (r: int)
      requires Valid() && 2 <= fd < TABLE_SIZE && fd in handles && handles[fd].Directory?
      requires at + |ReadHandle(img, handles[fd], nbytes).1.bytes| <= buf.Length
      modifies slots, `handles, buf
      ensures Valid()
      ensures var (h, reply) := ReadHandle(img, old(handles[fd]), nbytes);
        handles == old(handles)[fd := h] && buf[..] == Splice(old(buf[..]), at, reply.bytes)
        && r == if old(handles[fd]).next < |img.entries| then IndexOf(buf[at..], NUL) else 0
    {
      hide DirBytes, IndexOf, Image.Content, Image.WellFormedInode;
      var slot := slots[fd];
      r, slot := DirRead(img, slot, buf, at, nbytes);
      Install(fd, slot);
    }

    /** The bytes `read` stores into the caller's buffer. */
    ghost function Stored(fd: int, nbytes: int): seq<Byte>
      requires img.WellFormed()
      reads `handles
    {
      var reply := Step(img, handles, Event.Read(fd, nbytes)).1;
      if reply.Data? then reply.bytes else []
    }

    /** The `read` call, for every descriptor but the keyboard's. A clock read returns 0 after the next tick. */
    method Read(fd: int, buf: array<Byte>, at: nat, nbytes: int) returns (r: int)
      requires Valid() && fd != 0 && nbytes < TWO_31
      requires at + |Stored(fd, nbytes)| <= buf.Length
      modifies slots, `handles, buf
      ensures Valid()
      ensures var (m, reply) := Step(img, old(handles), Event.Read(fd, nbytes));
        && handles == m
        && buf[..] == Splice(old(buf[..]), at, old(Stored(fd, nbytes)))
        && r == if reply.Refused? then -1
                else if old(handles)[fd].Directory? && old(handles)[fd].next < |img.entries|
                then IndexOf(buf[at..], NUL)
                else |reply.bytes|
    {
      hide CopiedName, Slice, IndexOf, Image.Content;
      if fd < 0 || fd > 7 || nbytes < 0 { return -1; }
      if slots[fd].flags == 0 { return -1; }
      match slots[fd].ops {
        case RegularOps => r := ReadRegular(fd, buf, at, nbytes);
        case DirectoryOps => r := ReadDirectory(fd, buf, at, nbytes);
        case RtcOps => r := 0;
        case _ => r := -1;
      }
    }

    /** The `write` call on everything but the clock, with the C string in the buffer: files and directories refuse,
        and the terminal prints up to the NUL and reports the count it was asked for. */
    method Write(fd: int, s: seq<Byte>, nbytes: int) returns (r: int)
      requires Valid() && (0 <= fd && fd in handles ==> handles[fd] != Clock)
      modifies `console
      ensures Valid()
      ensures if nbytes >= 0 && 0 <= fd && fd in handles && handles[fd] == Screen(screen)
              then r == nbytes && console == old(console) + CString(s)
              else r == -1 && console == old(console)
    {
      if fd < 0 || fd > 7 || nbytes < 0 { return -1; }
      if slots[fd].flags == 0 || slots[fd].ops != StdoutOps { return -1; }
      console := console + CString(s);
      r := nbytes;
    }

    /** `ece391_fdputs` to standard output. */
    method Put(s: seq<Byte>)
      requires Valid() && Free(s, NUL)
      modifies `console
      ensures Valid() && console == old(console) + s
    {
      CStringOfString(s);
      var _ := Write(1, s, |s|);
    }

    method Close(fd: int) returns (r: int)
      requires Valid()
      modifies slots, `handles
      ensures Valid()
      ensures var (m, reply) := Step(img, old(handles), Event.Close(fd));
        handles == m && r == if reply == Closed then 0 else -1
    {
      if fd < 2 || fd > 7 || slots[fd].flags == 0 { return -1; }
      slots[fd] := slots[fd].(flags := 0);
      handles := handles - {fd};
      r := 0;
    }
  }
}
