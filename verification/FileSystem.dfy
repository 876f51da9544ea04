/** The read-only file system: boot block, inodes and data blocks (student-distrib/filesys.c). */
module FileSystem {
  import opened Bytes

  // Divisions write the block size out, so that they stay linear for the verifier.
  const BLOCK_SIZE := 4096
  const BLOCKS_PER_INODE := 1023
  const MAX_FILE := 1023 * 4096
  const MAX_ENTRIES := 63
  const NAME_SIZE := 32
  const RESERVED_SIZE := 24
  const REGULAR_FILE := 2

  /** Data blocks a file of this length occupies. */
  function BlockCount(length: nat): nat {
    (length + BLOCK_SIZE - 1) / 4096
  }

  datatype Dentry = Dentry(name: seq<Byte>, fileType: U32, inode: U32, reserved: seq<Byte>)

  datatype Inode = Inode(length: U32, blocks: seq<U32>)

  /** What `read_data` does: return a count, return -1, or index past `data_block_nums`. */
  datatype ReadResult = Count(n: nat) | Failure | OffTable

  /** A disk image. The entry, inode and data block counts of the boot block are the lengths of the sequences. */
  datatype Image = Image(entries: seq<Dentry>, inodes: seq<Inode>, data: seq<seq<Byte>>) {

    /** The sizes the C structures fix. */
    ghost predicate Shaped() {
      && |entries| <= MAX_ENTRIES && |inodes| < TWO_32 && |data| < TWO_32
      && (forall d <- entries :: |d.name| == NAME_SIZE && |d.reserved| == RESERVED_SIZE)
      && (forall ino <- inodes :: |ino.blocks| == BLOCKS_PER_INODE)
      && (forall b <- data :: |b| == BLOCK_SIZE)
    }

    predicate BlockValid(ino: Inode, k: nat) {
      k < BLOCKS_PER_INODE && k < |ino.blocks| && ino.blocks[k] < |data|
    }

    /** Every block a file of this length occupies is in the inode's table and on the disk. */
    ghost predicate WellFormedInode(ino: Inode) {
      && ino.length <= MAX_FILE
      && forall k: nat :: k < BlockCount(ino.length) ==> BlockValid(ino, k)
    }

    ghost predicate WellFormed() {
      Shaped() && forall ino <- inodes :: WellFormedInode(ino)
    }

    /** The concatenation of the listed data blocks. */
    ghost function Flat(nums: seq<U32>): (r: seq<Byte>)
      requires Shaped() && forall k :: 0 <= k < |nums| ==> nums[k] < |data|
      ensures |r| == 4096 * |nums|
    {
      if nums == [] then [] else Flat(nums[..|nums| - 1]) + data[nums[|nums| - 1]]
    }

    /** A file's bytes: its blocks laid end to end, cut at its length. */
    ghost function Content(ino: Inode): (r: seq<Byte>)
      requires Shaped() && ino in inodes && WellFormedInode(ino)
      ensures |r| == ino.length
    {
      var count := (ino.length + BLOCK_SIZE - 1) / BLOCK_SIZE;
      assert forall k: nat :: k < count ==> BlockValid(ino, k) && ino.blocks[..count][k] < |data|;
      Flat(ino.blocks[..count])[..ino.length]
    }

    /** Position `p` of the file lies in a valid block. */
    predicate Backed(ino: Inode, p: nat) {
      BlockValid(ino, p / 4096)
    }

    /** The byte at position `p` as the block table gives it (0 where the table gives none). */
    ghost function ByteAt(ino: Inode, p: nat): Byte
      requires Shaped()
    {
      if Backed(ino, p) then data[ino.blocks[p / 4096]][p % 4096] else 0
    }

    /** Blocks are valid from `from` up to `end`, and no further unless `end` is `to`. */
    ghost predicate Reaches(ino: Inode, from: nat, to: nat, end: nat) {
      && from <= end <= to
      && (forall p: nat :: from <= p < end ==> Backed(ino, p))
      && (end < to ==> !Backed(ino, end))
    }

    /** End of the longest stretch of [from, to) that starts at `from` and lies in valid blocks. */
    ghost function ValidEnd(ino: Inode, from: nat, to: nat): (e: nat)
      requires from <= to
      ensures Reaches(ino, from, to, e)
      decreases if from <= to then to - from else 0
    {
      var next := (from / 4096 + 1) * 4096;
      assert from < next;
      assert forall p: nat :: from <= p < next ==> p / 4096 == from / 4096;
      if from == to || !Backed(ino, from) then from
      else if next >= to then to
      else ValidEnd(ino, next, to)
    }
  }

  /** The length `read_data` settles on: its end-of-file test adds in 32 bits. */
  function ClampedLength(fileLength: U32, offset: U32, length: U32): U32
    requires offset < fileLength
  {
    if (offset + length) % TWO_32 > fileLength then fileLength - offset else length
  }

  /** Bytes [from, to) of a file, read through its block table. */
  ghost function Segment(img: Image, ino: Inode, from: nat, to: nat): (r: seq<Byte>)
    requires img.Shaped() && from <= to
    ensures |r| == to - from
  {
    seq<Byte>(to - from, i requires 0 <= i < to - from => img.ByteAt(ino, from + i))
  }

  /** The bytes `read_data` stores before it returns, whatever it returns. */
  ghost function Delivered(img: Image, inode: U32, offset: U32, length: U32): seq<Byte>
    requires img.Shaped()
  {
    if inode >= |img.inodes| || offset >= img.inodes[inode].length then []
    else
      var ino := img.inodes[inode];
      var end := offset + ClampedLength(ino.length, offset, length);
      Segment(img, ino, offset, img.ValidEnd(ino, offset, end))
  }

  /** What `read_data` returns. */
  ghost function Outcome(img: Image, inode: U32, offset: U32, length: U32): ReadResult
    requires img.Shaped()
  {
    if inode >= |img.inodes| then Failure
    else if offset >= img.inodes[inode].length then Count(0)
    else
      var ino := img.inodes[inode];
      var end := offset + ClampedLength(ino.length, offset, length);
      var reached := img.ValidEnd(ino, offset, end);
      if reached == end then Count(end - offset)
      else if reached / 4096 < BLOCKS_PER_INODE then Failure
      else OffTable
  }

  /** The call of `memcpy` that copies part of a data block into the caller's buffer. */
  method CopyOut(buf: array<Byte>, at: nat, block: seq<Byte>, start: nat, count: nat)
    requires at + count <= buf.Length && start + count <= |block|
    modifies buf
    ensures buf[..] == Splice(old(buf[..]), at, block[start..start + count])
  {
    var i := 0;
    while i < count
      invariant 0 <= i <= count
      invariant forall j :: 0 <= j < buf.Length ==>
        buf[j] == if at <= j < at + i then block[start + j - at] else old(buf[j])
    {
      buf[at + i] := block[start + i];
      i := i + 1;
    }
  }

  /** Reads up to `length` bytes of an inode from `offset` on. A buffer too small for the bytes delivered is the
      caller's error. */
  method ReadData(img: Image, inode: U32, offset: U32, buf: array<Byte>, at: nat, length: U32)
    returns (r: ReadResult)
    requires img.Shaped()
    requires at + |Delivered(img, inode, offset, length)| <= buf.Length
    modifies buf
    ensures r == Outcome(img, inode, offset, length)
    ensures buf[..] == Splice(old(buf[..]), at, Delivered(img, inode, offset, length))
  {
    if inode >= |img.inodes| { return Failure; }
    var ino := img.inodes[inode];
    if offset >= ino.length { return Count(0); }
    var n := length;
    if (offset + n) % TWO_32 > ino.length { n := ino.length - offset; }
    r := CopyBlocks(img, ino, offset, buf, at, n, img.ValidEnd(ino, offset, offset + n));
  }

  /** The block loop of `read_data`, entered with the clamped length; `end` is where the valid blocks stop. */
  method CopyBlocks(img: Image, ino: Inode, offset: U32, buf: array<Byte>, at: nat, n: U32, ghost end: nat)
    returns (r: ReadResult)
    requires img.Shaped() && ino in img.inodes && img.Reaches(ino, offset, offset + n, end)
    requires at + end - offset <= buf.Length
    modifies buf
    ensures buf[..] == Splice(old(buf[..]), at, Segment(img, ino, offset, end))
    ensures r == if end == offset + n then Count(n)
                 else if end / 4096 < BLOCKS_PER_INODE then Failure else OffTable
  {
    hide Splice, Segment, Image.Shaped;
    r := Count(n);
    var i, copied := 0, 0;
    ghost var was := buf[..];
    SpliceNothing(was, at);
    NoSegment(img, ino, offset);
    while copied < n
      invariant 0 <= copied && offset + copied <= end && ChunkBoundary(offset, n, i, copied)
      invariant buf[..] == Splice(was, at, Segment(img, ino, offset, offset + copied))
      decreases n - copied
    {
      var k, start, count := NextChunk(offset, n, i, copied);
      if k >= BLOCKS_PER_INODE {
        r := OffTable;
        break;
      }
      if ino.blocks[k] >= |img.data| {
        r := Failure;
        break;
      }
      assert img.Backed(ino, offset + copied);
      CopyChunk(img, ino, offset, offset + n, end, buf, at, copied, ino.blocks[k], start, count, was);
      copied := copied + count;
      i := i + 1;
    }
    assert copied < n ==> !img.Backed(ino, offset + copied);
  }

  lemma NoSegment(img: Image, ino: Inode, from: nat)
    requires img.Shaped() && ino in img.inodes
    ensures |ino.blocks| == BLOCKS_PER_INODE && Segment(img, ino, from, from) == []
  {
  }

  /** Copies one piece of one block behind the `copied` bytes already stored. */
  method CopyChunk(img: Image, ino: Inode, from: nat, ghost to: nat, ghost end: nat, buf: array<Byte>, at: nat,
                   copied: nat, block: U32, start: nat, count: nat, ghost was: seq<Byte>)
    requires img.Shaped() && ino in img.inodes && img.Reaches(ino, from, to, end)
    requires from + copied + count <= to && from + copied <= end && img.Backed(ino, from + copied)
    requires block == ino.blocks[(from + copied) / 4096] && start == (from + copied) % 4096
    requires start + count <= BLOCK_SIZE && at + end - from <= |was| == buf.Length
    requires buf[..] == Splice(was, at, Segment(img, ino, from, from + copied))
    modifies buf
    ensures from + copied + count <= end
    ensures buf[..] == Splice(was, at, Segment(img, ino, from, from + copied + count))
  {
    hide Splice, Segment;
    ghost var before, piece := Segment(img, ino, from, from + copied), img.data[block][start..start + count];
    ChunkDelivered(img, ino, from, to, end, from + copied, count);
    SpliceTwice(was, at, before, piece);
    CopyOut(buf, at + copied, img.data[block], start, count);
  }

  /** Chunk `i` starts where chunks 0..i-1 ended: at a block boundary unless it is the first. */
  predicate ChunkBoundary(offset: nat, n: nat, i: int, copied: int) {
    0 <= i && if i == 0 then copied == 0
              else copied == n || offset + copied == (offset / 4096 + i) * 4096
  }

  /** Where chunk `i` lies: its index into `data_block_nums`, its start in that block, and its size. */
  method NextChunk(offset: nat, n: nat, i: int, copied: nat) returns (k: nat, start: nat, count: nat)
    requires ChunkBoundary(offset, n, i, copied) && copied < n
    ensures k == (offset + copied) / 4096 && start == (offset + copied) % 4096
    ensures count == Min(BLOCK_SIZE - start, n - copied)
    ensures ChunkBoundary(offset, n, i + 1, copied + count)
  {
    k := i + offset / 4096;
    if i == 0 {
      start := offset % 4096;
      count := if BLOCK_SIZE - offset % 4096 < n then BLOCK_SIZE - offset % 4096 else n;
    } else {
      assert offset + copied == k * 4096;
      start := 0;
      count := if n - copied > BLOCK_SIZE then BLOCK_SIZE else n - copied;
    }
  }

  /** A byte further on in a valid block is backed by that block. */
  lemma InOneBlock(img: Image, ino: Inode, p: nat, i: nat)
    requires img.Shaped() && ino in img.inodes && img.Backed(ino, p) && p % 4096 + i < BLOCK_SIZE
    ensures img.Backed(ino, p + i) && img.ByteAt(ino, p + i) == img.data[ino.blocks[p / 4096]][p % 4096 + i]
  {
  }

  /** A piece of one valid block lies before `end`, and holds the file's bytes in order. */
  lemma ChunkDelivered(img: Image, ino: Inode, from: nat, to: nat, end: nat, p: nat, count: nat)
    requires img.Shaped() && ino in img.inodes && from <= p <= p + count <= to
    requires p % 4096 + count <= BLOCK_SIZE && img.Backed(ino, p)
    requires img.Reaches(ino, from, to, end) && p <= end
    ensures p + count <= end
    ensures Segment(img, ino, from, p + count) ==
      Segment(img, ino, from, p) + img.data[ino.blocks[p / 4096]][p % 4096..p % 4096 + count]
  {
    var piece := img.data[ino.blocks[p / 4096]][p % 4096..p % 4096 + count];
    forall i | 0 <= i < count
      ensures piece[i] == img.ByteAt(ino, p + i)
    {
      InOneBlock(img, ino, p, i);
    }
    assert Segment(img, ino, p, p + count) == piece;
    SegmentSplits(img, ino, from, p, p + count);
    if end < p + count {
      InOneBlock(img, ino, p, end - p);
    }
  }

  lemma SegmentSplits(img: Image, ino: Inode, from: nat, mid: nat, to: nat)
    requires img.Shaped() && from <= mid <= to
    ensures Segment(img, ino, from, to) == Segment(img, ino, from, mid) + Segment(img, ino, mid, to)
  {
  }

  /** On any image: what `read_data` stores before it returns are the bytes of the blocks the table names, in order, up
      to the length it settles on or the first block number that is none, and the result says which of the two it
      was. */
  lemma WhatIsRead(img: Image, inode: U32, offset: U32, length: U32, i: nat)
    requires img.Shaped()
    ensures var bytes, r := Delivered(img, inode, offset, length), Outcome(img, inode, offset, length);
      if inode >= |img.inodes| then bytes == [] && r == Failure
      else if offset >= img.inodes[inode].length then bytes == [] && r == Count(0)
      else
        var blocks, fileLength := img.inodes[inode].blocks, img.inodes[inode].length;
        var n := if (offset + length) % 0x1_0000_0000 > fileLength then fileLength - offset else length;
        var next := (offset + |bytes|) / 4096;
        && |blocks| == 1023 && |bytes| <= n
        && (i < |bytes| ==>
              var p := offset + i;
              && p / 4096 < 1023 && blocks[p / 4096] < |img.data| && |img.data[blocks[p / 4096]]| == 4096
              && bytes[i] == img.data[blocks[p / 4096]][p % 4096])
        && (if |bytes| == n then r == Count(n)
            else if next < 1023 then r == Failure && blocks[next] >= |img.data|
            else r == OffTable)
  {
    if inode < |img.inodes| && offset < img.inodes[inode].length {
      var ino := img.inodes[inode];
      var end := img.ValidEnd(ino, offset, offset + ClampedLength(ino.length, offset, length));
      if i < end - offset { SegmentAt(img, ino, offset, end, i); }
    }
  }

  lemma SegmentAt(img: Image, ino: Inode, from: nat, to: nat, i: nat)
    requires img.Shaped() && from + i < to && img.Backed(ino, from + i)
    ensures var p := from + i; Segment(img, ino, from, to)[i] == img.data[ino.blocks[p / 4096]][p % 4096]
  {
    var p := from + i;
    assert Segment(img, ino, from, to)[i] == img.ByteAt(ino, p);
  }

  // ---- read_data against the file's flat content ----

  lemma {:induction false} FlatAt(img: Image, nums: seq<U32>, p: nat)
    requires img.Shaped() && (forall k :: 0 <= k < |nums| ==> nums[k] < |img.data|) && p < BLOCK_SIZE * |nums|
    ensures img.Flat(nums)[p] == img.data[nums[p / 4096]][p % 4096]
  {
    var last := |nums| - 1;
    if p < BLOCK_SIZE * last {
      FlatAt(img, nums[..last], p);
    }
  }

  /** Byte `p` of a file is byte `p` mod 4096 of the data block its table names for `p` / 4096. */
  lemma ContentAt(img: Image, ino: Inode, p: nat)
    requires img.Shaped() && ino in img.inodes && img.WellFormedInode(ino) && p < ino.length
    ensures img.Backed(ino, p) && img.Content(ino)[p] == img.ByteAt(ino, p)
    ensures |img.Content(ino)| == ino.length && |ino.blocks| == 1023
    ensures p / 4096 < 1023 && ino.blocks[p / 4096] < |img.data|
    ensures |img.data[ino.blocks[p / 4096]]| == 4096
    ensures img.Content(ino)[p] == img.data[ino.blocks[p / 4096]][p % 4096]
  {
    var count := BlockCount(ino.length);
    assert p / 4096 < count;
    var nums := ino.blocks[..count];
    forall k | 0 <= k < |nums|
      ensures nums[k] < |img.data|
    {
      assert img.BlockValid(ino, k);
    }
    FlatAt(img, ino.blocks[..count], p);
  }

  lemma SegmentIsSlice(img: Image, ino: Inode, from: nat, to: nat)
    requires img.Shaped() && ino in img.inodes && img.WellFormedInode(ino) && from <= to <= ino.length
    ensures Segment(img, ino, from, to) == img.Content(ino)[from..to]
    ensures img.ValidEnd(ino, from, to) == to
  {
    forall p: nat | from <= p < to
      ensures img.Backed(ino, p) && img.Content(ino)[p] == img.ByteAt(ino, p)
    {
      ContentAt(img, ino, p);
    }
  }

  /** Bytes [offset, offset + length) of `content`, as far as they exist. */
  function Slice(content: seq<Byte>, offset: nat, length: nat): (r: seq<Byte>)
    ensures |r| <= length
  {
    content[Min(offset, |content|)..Min(offset + length, |content|)]
  }

  /** `read_data` delivers the requested slice of a well-formed file exactly when the end of the request
      does not wrap around 32 bits (or the offset is already past the end of the file). */
  lemma ReadIsSlice(img: Image, inode: U32, offset: U32, length: U32)
    requires img.Shaped() && inode < |img.inodes| && img.WellFormedInode(img.inodes[inode])
    ensures DeliversSlice(img, inode, offset, length)
      <==> offset >= img.inodes[inode].length || offset + length < 0x1_0000_0000
    ensures var content := img.Content(img.inodes[inode]);
      var slice := if offset >= |content| then []
                   else content[offset..if offset + length <= |content| then offset + length else |content|];
      Outcome(img, inode, offset, length) == Count(|slice|) && Delivered(img, inode, offset, length) == slice
      <==> offset >= |content| || offset + length < 0x1_0000_0000
  {
    SliceIs(img.Content(img.inodes[inode]), offset, length);
    hide Slice, Image.Content, Outcome, Delivered;
    if offset < img.inodes[inode].length && offset + length >= TWO_32 {
      WrappedReadFails(img, inode, offset, length);
    } else {
      PlainReadDelivers(img, inode, offset, length);
    }
  }

  lemma SliceIs(content: seq<Byte>, offset: nat, length: nat)
    ensures Slice(content, offset, length) ==
      if offset >= |content| then []
      else content[offset..if offset + length <= |content| then offset + length else |content|]
  {
  }

  lemma PlainReadDelivers(img: Image, inode: U32, offset: U32, length: U32)
    requires img.Shaped() && inode < |img.inodes| && img.WellFormedInode(img.inodes[inode])
    requires offset >= img.inodes[inode].length || offset + length < TWO_32
    ensures DeliversSlice(img, inode, offset, length)
  {
    hide Image.Content, Image.ValidEnd, Segment, Image.Shaped, Image.WellFormedInode;
    var ino := img.inodes[inode];
    if offset < ino.length {
      var n := ClampedLength(ino.length, offset, length);
      assert n == Min(length, ino.length - offset);
      SegmentIsSlice(img, ino, offset, offset + n);
      assert Slice(img.Content(ino), offset, length) == img.Content(ino)[offset..offset + n];
    }
  }

  lemma WrappedReadFails(img: Image, inode: U32, offset: U32, length: U32)
    requires img.Shaped() && inode < |img.inodes| && img.WellFormedInode(img.inodes[inode])
    requires offset < img.inodes[inode].length && offset + length >= TWO_32
    ensures !DeliversSlice(img, inode, offset, length)
  {
  }

  /** `read_data` returns the size of the requested slice of the file's content, having stored that slice. */
  ghost predicate DeliversSlice(img: Image, inode: U32, offset: U32, length: U32)
    requires img.Shaped() && inode < |img.inodes| && img.WellFormedInode(img.inodes[inode])
  {
    var slice := Slice(img.Content(img.inodes[inode]), offset, length);
    Outcome(img, inode, offset, length) == Count(|slice|) && Delivered(img, inode, offset, length) == slice
  }

  /** A request that wraps is not clamped, and no block table is long enough for it. */
  lemma WrappedRequestOverruns(img: Image, ino: Inode, offset: U32, length: U32)
    requires img.Shaped() && ino in img.inodes && ino.length <= MAX_FILE
    requires offset < ino.length && offset + length >= TWO_32
    ensures ClampedLength(ino.length, offset, length) == length
    ensures img.ValidEnd(ino, offset, offset + length) < offset + length
  {
    assert !img.Backed(ino, MAX_FILE);
  }

  /** With a file length the block table can hold and a request that does not wrap, `read_data` never indexes
      `data_block_nums` past entry 1022, whatever block numbers the table holds. */
  lemma ReadStaysInTable(img: Image, inode: U32, offset: U32, length: U32)
    requires img.Shaped()
    requires inode < |img.inodes| ==> img.inodes[inode].length <= MAX_FILE
    requires inode < |img.inodes| && offset < img.inodes[inode].length ==> offset + length < TWO_32
    ensures Outcome(img, inode, offset, length) != OffTable
  {
  }

  // ---- directory entries ----

  /** The part of a stored name that lookups compare: up to its NUL, and at most 31 bytes. */
  function Key(name: seq<Byte>): seq<Byte> {
    CString(name)[..Min(|CString(name)|, NAME_SIZE - 1)]
  }

  /** A lookup of one C string finds a stored one: they are equal, or long and equal in their first 31 bytes. */
  predicate Agree(a: seq<Byte>, b: seq<Byte>) {
    a == b || (|a| >= 31 && |b| >= 31 && a[..31] == b[..31])
  }

  /** Two names have the same key exactly when their C strings are equal, or both have 31 bytes or more and the first 31
      are equal. */
  lemma KeysAgree(a: seq<Byte>, b: seq<Byte>)
    ensures var s, t := CString(a), CString(b);
      Key(a) == Key(b) <==> s == t || (|s| >= 31 && |t| >= 31 && s[..31] == t[..31])
  {
    var s, t := CString(a), CString(b);
    if |s| <= 31 && |t| <= 31 {
      assert s[..|s|] == s && t[..|t|] == t;
    }
  }

  /** What `strncpy` of a 32-byte name stores: the C string, then NULs. */
  function CopiedName(name: seq<Byte>): (r: seq<Byte>)
    requires |name| == NAME_SIZE
    ensures |r| == NAME_SIZE
  {
    CString(name) + seq(NAME_SIZE - |CString(name)|, _ => NUL)
  }

  /** A directory entry as the lookups copy it out. */
  function CopiedEntry(d: Dentry): Dentry
    requires |d.name| == NAME_SIZE
  {
    d.(name := CopiedName(d.name))
  }

  /** `strncmp` over `n` bytes of two C strings given without their terminators. */
  method EqualPrefix(a: seq<Byte>, b: seq<Byte>, n: nat) returns (same: bool)
    requires n <= |a| && n <= |b| && Free(a, NUL) && Free(b, NUL)
    ensures same <==> a[..n] == b[..n]
  {
    var i := 0;
    while i < n
      invariant 0 <= i <= n && a[..i] == b[..i]
    {
      if a[i] != b[i] { return false; }
      i := i + 1;
    }
    return true;
  }

  /** The entry a lookup of `fname` copies out: the first with the same key. */
  function Lookup(entries: seq<Dentry>, fname: seq<Byte>): (r: Option<Dentry>)
    requires forall d <- entries :: |d.name| == NAME_SIZE
    ensures r.None? <==> forall d <- entries :: Key(d.name) != Key(fname)
  {
    if entries == [] then None
    else if Key(entries[0].name) == Key(fname) then Some(CopiedEntry(entries[0]))
    else Lookup(entries[1..], fname)
  }

  /** Compares a file name (a C string, given without its NUL) with a stored name: clipped lengths, then bytes. */
  method SameName(fname: seq<Byte>, stored: seq<Byte>) returns (same: bool)
    requires Free(fname, NUL)
    ensures same <==> Key(stored) == Key(fname)
    ensures var name := CString(stored);
      same <==> name == fname || (|name| >= 31 && |fname| >= 31 && name[..31] == fname[..31])
  {
    CStringOfString(fname);
    KeysAgree(stored, fname);
    var name := CString(stored);
    var typedLength := if |fname| > NAME_SIZE - 1 then NAME_SIZE - 1 else |fname|;
    var entryLength := if |name| > NAME_SIZE - 1 then NAME_SIZE - 1 else |name|;
    if entryLength != typedLength { return false; }
    same := EqualPrefix(fname, name, entryLength);
  }

  /** The entry copied out is the first whose name, as a C string, agrees with the file name; none is when none does. */
  ghost predicate Finds(es: seq<Dentry>, fname: seq<Byte>, r: Option<Dentry>)
    requires forall d <- es :: |d.name| == NAME_SIZE
  {
    match r
    case None => forall i :: 0 <= i < |es| ==> !Agree(CString(es[i].name), fname)
    case Some(d) =>
      exists i :: 0 <= i < |es| && d == CopiedEntry(es[i]) && Agree(CString(es[i].name), fname)
        && forall j :: 0 <= j < i ==> !Agree(CString(es[j].name), fname)
  }

  lemma {:induction false} LookupFinds(es: seq<Dentry>, fname: seq<Byte>)
    requires (forall d <- es :: |d.name| == NAME_SIZE) && Free(fname, NUL)
    ensures Finds(es, fname, Lookup(es, fname))
  {
    CStringOfString(fname);
    if es != [] {
      KeysAgree(es[0].name, fname);
      if !Agree(CString(es[0].name), fname) {
        LookupFinds(es[1..], fname);
        FoundLater(es, fname, Lookup(es, fname));
      }
    }
  }

  lemma FoundLater(es: seq<Dentry>, fname: seq<Byte>, r: Option<Dentry>)
    requires es != [] && (forall d <- es :: |d.name| == NAME_SIZE)
    requires !Agree(CString(es[0].name), fname) && Finds(es[1..], fname, r)
    ensures Finds(es, fname, r)
  {
    hide CString, Agree;
    var rest := es[1..];
    assert forall i :: 1 <= i < |es| ==> es[i] == rest[i - 1];
    if r.Some? {
      var i :| 0 <= i < |rest| && r.value == CopiedEntry(rest[i]) && Agree(CString(rest[i].name), fname)
        && forall j :: 0 <= j < i ==> !Agree(CString(rest[j].name), fname);
      assert es[i + 1] == rest[i];
    }
  }

  /** A lookup of a name of at most 30 bytes finds exactly the first entry whose C string is that name, with all of its
      fields; it fails exactly when there is none. */
  lemma ShortNameIsFound(es: seq<Dentry>, fname: seq<Byte>)
    requires (forall d <- es :: |d.name| == NAME_SIZE) && Free(fname, NUL) && |fname| <= 30
    ensures match Lookup(es, fname)
      case None => forall i :: 0 <= i < |es| ==> CString(es[i].name) != fname
      case Some(d) =>
        exists i :: 0 <= i < |es| && (forall j :: 0 <= j < i ==> CString(es[j].name) != fname)
          && CString(es[i].name) == fname == CString(d.name) && d == es[i].(name := d.name)
  {
    LookupFinds(es, fname);
    forall i | 0 <= i < |es|
      ensures CString(CopiedEntry(es[i]).name) == CString(es[i].name)
    {
      CopiedEntryIs(es[i]);
    }
    hide Lookup, CString, CopiedEntry;
  }

  /** Looks a file name up in the directory. */
  method ReadDentryByName(img: Image, fname: seq<Byte>) returns (r: Option<Dentry>)
    requires img.Shaped() && Free(fname, NUL)
    ensures r == Lookup(img.entries, fname) && Finds(img.entries, fname, r)
  {
    hide Finds;
    LookupFinds(img.entries, fname);
    var i := 0;
    while i < |img.entries|
      invariant 0 <= i <= |img.entries|
      invariant Lookup(img.entries[i..], fname) == Lookup(img.entries, fname)
    {
      assert img.entries[i..][1..] == img.entries[i + 1..];
      var same := SameName(fname, img.entries[i].name);
      if same { return Some(CopiedEntry(img.entries[i])); }
      i := i + 1;
    }
    return None;
  }

  method ReadDentryByIndex(img: Image, index: U32) returns (r: Option<Dentry>)
    requires img.Shaped()
    ensures r == if index < |img.entries| then Some(CopiedEntry(img.entries[index])) else None
  {
    if index >= |img.entries| { return None; }
    return Some(CopiedEntry(img.entries[index]));
  }

  /** Copying an entry out keeps its name as a string, so lookups cannot tell the copy from the stored entry; the copy
      is the stored entry byte for byte exactly when nothing but NULs follows the name in it. */
  lemma CopiedEntryIs(d: Dentry)
    requires |d.name| == NAME_SIZE
    ensures CString(CopiedEntry(d).name) == CString(d.name) && Key(CopiedEntry(d).name) == Key(d.name)
    ensures CopiedEntry(d) == d.(name := CopiedEntry(d).name)
    ensures CopiedEntry(d) == d <==> forall i :: |CString(d.name)| <= i < NAME_SIZE ==> d.name[i] == NUL
  {
    CopiedTwice(d.name);
    var n := |CString(d.name)|;
    assert d.name == d.name[..n] + d.name[n..];
    if forall i :: n <= i < NAME_SIZE ==> d.name[i] == NUL {
      assert CopiedName(d.name) == d.name;
    }
  }

  /** Copying a copied name changes nothing. */
  lemma CopiedTwice(name: seq<Byte>)
    requires |name| == NAME_SIZE
    ensures CString(CopiedName(name)) == CString(name) && CopiedName(CopiedName(name)) == CopiedName(name)
  {
    IndexOfIs(CopiedName(name), NUL, |CString(name)|);
  }

  lemma CStringOfString(s: seq<Byte>)
    requires Free(s, NUL)
    ensures CString(s) == s
  {
  }

  /** The name of entry `i`, looked up, gives what reading the directory at index `i` gives. */
  ghost predicate Resolves(es: seq<Dentry>, i: nat)
    requires (forall d <- es :: |d.name| == NAME_SIZE) && i < |es|
  {
    Lookup(es, CString(es[i].name)) == Some(CopiedEntry(es[i]))
  }

  ghost predicate Namesakes(es: seq<Dentry>, i: nat, j: nat)
    requires i < |es| && j < |es|
  {
    Agree(CString(es[i].name), CString(es[j].name))
  }

  /** Looking up every listed name agrees with reading the directory by index, exactly when entries whose names agree
      on the compared part agree altogether. */
  lemma ByNameIsByIndex(es: seq<Dentry>)
    requires forall d <- es :: |d.name| == NAME_SIZE
    ensures (forall i :: 0 <= i < |es| ==> Resolves(es, i)) <==> NamesakesAgree(es)
  {
    forall i | 0 <= i < |es|
      ensures NamesakesAgree(es) ==> Resolves(es, i)
    {
      ListedNameHits(es, i);
    }
    forall i, j | 0 <= i < |es| && 0 <= j < |es| && Namesakes(es, i, j)
      ensures Resolves(es, i) && Resolves(es, j) ==> CopiedEntry(es[i]) == CopiedEntry(es[j])
    {
      NamesakesLookUpAlike(es, i, j);
    }
  }

  ghost predicate NamesakesAgree(es: seq<Dentry>)
    requires forall d <- es :: |d.name| == NAME_SIZE
  {
    forall i, j :: 0 <= i < |es| && 0 <= j < |es| && Namesakes(es, i, j) ==> CopiedEntry(es[i]) == CopiedEntry(es[j])
  }

  lemma ListedNameHits(es: seq<Dentry>, i: nat)
    requires (forall d <- es :: |d.name| == NAME_SIZE) && i < |es|
    ensures exists k ::
      0 <= k < |es| && Namesakes(es, k, i) && Lookup(es, CString(es[i].name)) == Some(CopiedEntry(es[k]))
  {
    CStringOfString(CString(es[i].name));
    var k := LookupHits(es, CString(es[i].name), i);
    KeysAgree(es[k].name, es[i].name);
    assert Namesakes(es, k, i);
  }

  lemma NamesakesLookUpAlike(es: seq<Dentry>, i: nat, j: nat)
    requires (forall d <- es :: |d.name| == NAME_SIZE) && i < |es| && j < |es| && Namesakes(es, i, j)
    ensures Lookup(es, CString(es[i].name)) == Lookup(es, CString(es[j].name))
  {
    CStringOfString(CString(es[i].name));
    CStringOfString(CString(es[j].name));
    KeysAgree(es[i].name, es[j].name);
    LookupByKey(es, CString(es[i].name), CString(es[j].name));
  }

  lemma {:induction false} LookupHits(es: seq<Dentry>, fname: seq<Byte>, i: nat) returns (k: nat)
    requires (forall d <- es :: |d.name| == NAME_SIZE) && i < |es| && Key(es[i].name) == Key(fname)
    ensures k <= i && Key(es[k].name) == Key(fname) && Lookup(es, fname) == Some(CopiedEntry(es[k]))
  {
    if Key(es[0].name) == Key(fname) {
      k := 0;
    } else {
      k := LookupHits(es[1..], fname, i - 1);
      k := k + 1;
    }
  }

  lemma {:induction false} LookupByKey(es: seq<Dentry>, a: seq<Byte>, b: seq<Byte>)
    requires (forall d <- es :: |d.name| == NAME_SIZE) && Key(a) == Key(b)
    ensures Lookup(es, a) == Lookup(es, b)
  {
    if es != [] {
      LookupByKey(es[1..], a, b);
    }
  }
}
