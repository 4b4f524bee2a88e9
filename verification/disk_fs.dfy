/** Writing one file into a disk image: lib/fs.c and fs-test/format.c. */
module DiskFs {
  import opened Bytes
  import opened Bitmap

  const SECT: nat := 512
  const NAME_BYTES: nat := 24
  const SLOTS: nat := 15
  const INODE_WORDS: nat := 120
  const NO_INODE: nat := 0xffff_ffff
  const DIR_BLOCK: nat := BITMAP_BYTES / SECT
  const BLOCKS: nat := 0x80_0000
  const MAX_FILE: nat := (INODE_WORDS - 1) * SECT

  /** `OutOfBounds`: C indexes past `fs_inode_off[120]`.
      `ShortRead`: C goes on with a buffer that `fread` did not fill. */
  datatype Fault = OutOfBounds | ShortRead
  datatype Result<T> = Ok(value: T) | Err(fault: Fault)

  // ----- stdio files -----

  function ReadAt(d: seq<byte>, off: nat, n: nat): seq<byte> {
    d[Min(off, |d|)..Min(off + n, |d|)]
  }

  /** A write past the end leaves a gap of zeros. */
  function WriteAt(d: seq<byte>, off: nat, s: seq<byte>): (r: seq<byte>) {
    Splice(d + Zeros(Max(0, off + |s| - |d|)), off, s)
  }

  function BlockAt(d: seq<byte>, b: nat): seq<byte> {
    ReadAt(d, SECT * b, SECT)
  }

  /** The block a 32-bit word names: its byte offset, `w * 512`, is a `uint32_t`. */
  function Named(w: nat): (b: nat)
    ensures b < BLOCKS && (w < BLOCKS ==> b == w)
  {
    w % BLOCKS
  }

  lemma {:induction false} NamedWraps(w: nat)
    ensures Wrap32(w * SECT) == SECT * Named(w)
  {
    if w >= BLOCKS {
      NamedWraps(w - BLOCKS);
    }
  }

  lemma WriteBlock(d: seq<byte>, b: nat, s: seq<byte>)
    requires |s| == SECT
    ensures BlockAt(WriteAt(d, SECT * b, s), b) == s
    ensures forall c: nat :: c != b && |BlockAt(d, c)| == SECT ==> BlockAt(WriteAt(d, SECT * b, s), c) == BlockAt(d, c)
  {
  }

  lemma WritePrefix(d: seq<byte>, s: seq<byte>, n: nat)
    requires |s| == SECT * n
    ensures ReadAt(WriteAt(d, 0, s), 0, |s|) == s
    ensures forall c: nat :: c >= n && |BlockAt(d, c)| == SECT ==> BlockAt(WriteAt(d, 0, s), c) == BlockAt(d, c)
  {
  }

  class File {
    var bytes: seq<byte>
    var pos: nat

    constructor (content: seq<byte>)
      ensures bytes == content && pos == 0
    {
      bytes, pos := content, 0;
    }

    method Seek(off: nat)
      modifies this`pos
      ensures pos == off
    {
      pos := off;
    }

    method Write(s: seq<byte>)
      modifies this
      ensures bytes == WriteAt(old(bytes), old(pos), s) && pos == old(pos) + |s|
    {
      bytes := WriteAt(bytes, pos, s);
      pos := pos + |s|;
    }

    /** `fread` into the front of `buffer`; what was not read is left as it was. */
    method Read(buffer: array<byte>) returns (n: nat)
      modifies this`pos, buffer
      ensures n == |ReadAt(bytes, old(pos), buffer.Length)| && pos == old(pos) + n
      ensures buffer[..] == Splice(old(buffer[..]), 0, ReadAt(bytes, old(pos), buffer.Length))
    {
      var chunk := ReadAt(bytes, pos, buffer.Length);
      n := |chunk|;
      Store(buffer, 0, chunk);
      pos := pos + n;
    }
  }

  method Store(a: array<byte>, off: nat, s: seq<byte>)
    requires off + |s| <= a.Length
    modifies a
    ensures a[..] == Splice(old(a[..]), off, s)
  {
    for k := 0 to |s|
      invariant forall j :: 0 <= j < a.Length ==> a[j] == if off <= j < off + k then s[j - off] else old(a[j])
    {
      a[off + k] := s[k];
    }
  }

  // ----- directory block -----

  function SlotAt(i: nat): nat { 32 + 32 * i }

  function SlotSize(dir: seq<byte>, i: nat): nat
    requires |dir| == SECT && i < SLOTS
  {
    Word(dir, SlotAt(i) + 24)
  }

  function SlotInode(dir: seq<byte>, i: nat): nat
    requires |dir| == SECT && i < SLOTS
  {
    Word(dir, SlotAt(i) + 28)
  }

  function FirstSlot(dir: seq<byte>, from: nat := 0): (i: nat)
    requires |dir| == SECT && from <= SLOTS
    ensures from <= i <= SLOTS
    decreases SLOTS - from
  {
    if from < SLOTS && SlotInode(dir, from) == NO_INODE then FirstSlot(dir, from + 1) else from
  }

  /** The directory block with slot `i` holding the given file. */
  function WithSlot(dir: seq<byte>, i: nat, name: seq<byte>, size: nat, inode: nat): (r: seq<byte>)
    requires |dir| == SECT && i < SLOTS && NameFits(name) && size < TWO32 && inode < TWO32
    ensures |r| == SECT
  {
    var named := Splice(dir, SlotAt(i), name + [0]);
    Splice(Splice(named, SlotAt(i) + 28, WordBytes(inode)), SlotAt(i) + 24, WordBytes(size))
  }

  predicate NameFits(name: seq<byte>) {
    |name| < NAME_BYTES && 0 !in name
  }

  lemma WithSlotFields(dir: seq<byte>, i: nat, name: seq<byte>, size: nat, inode: nat)
    requires |dir| == SECT && i < SLOTS && NameFits(name) && size < TWO32 && inode < TWO32
    ensures var r := WithSlot(dir, i, name, size, inode);
            && SlotSize(r, i) == size && SlotInode(r, i) == inode
            && r[SlotAt(i)..SlotAt(i) + |name| + 1] == name + [0]
            && forall j: nat :: j < SLOTS && j != i ==>
                 SlotSize(r, j) == SlotSize(dir, j) && SlotInode(r, j) == SlotInode(dir, j)
  {
  }

  /** The flags and the inode block once fs_alloc_file_in_dir is done. */
  function InodeStep(bits: seq<bool>, dir: seq<byte>): (seq<bool>, nat)
    requires |dir| == SECT
  {
    if FirstSlot(dir) == SLOTS then (bits, NO_INODE) else AllocStep(bits)
  }

  /** And the directory: unchanged when no slot is free. */
  function WithFile(dir: seq<byte>, name: seq<byte>, size: nat, inode: nat): (r: seq<byte>)
    requires |dir| == SECT && NameFits(name) && size < TWO32 && inode < TWO32
    ensures |r| == SECT
  {
    if FirstSlot(dir) == SLOTS then dir else WithSlot(dir, FirstSlot(dir), name, size, inode)
  }

  /** The body of its loop for a slot that looks free. */
  method TakeSlot(bm: BlockBitmap, dir: array<byte>, i: nat, name: seq<byte>, size: nat) returns (inode: nat)
    requires bm.Valid() && dir.Length == SECT && i < SLOTS && NameFits(name) && size < TWO32
    modifies bm.data, dir
    ensures (bm.Bits(), inode) == AllocStep(old(bm.Bits())) && inode < TWO32
    ensures dir[..] == WithSlot(old(dir[..]), i, name, size, inode)
  {
    Store(dir, SlotAt(i), name + [0]);
    inode := bm.AllocBlk();
    Store(dir, SlotAt(i) + 28, WordBytes(inode));
    Store(dir, SlotAt(i) + 24, WordBytes(size));
  }

  /** fs_alloc_file_in_dir */
  method AllocFileInDir(bm: BlockBitmap, dir: array<byte>, name: seq<byte>, size: nat) returns (inode: nat)
    requires bm.Valid() && dir.Length == SECT && NameFits(name) && size < TWO32
    modifies bm.data, dir
    ensures (bm.Bits(), inode) == InodeStep(old(bm.Bits()), old(dir[..])) && inode < TWO32
    ensures dir[..] == WithFile(old(dir[..]), name, size, inode)
  {
    for i := 0 to SLOTS
      invariant dir[..] == old(dir[..]) && bm.Bits() == old(bm.Bits())
      invariant FirstSlot(dir[..]) == FirstSlot(dir[..], i)
    {
      if SlotInode(dir[..], i) != NO_INODE {
        inode := TakeSlot(bm, dir, i, name, size);
        return;
      }
    }
    return NO_INODE;
  }

  // ----- the writer: fs-test/format.c -----

  function BlockCount(content: seq<byte>): nat { (|content| + SECT - 1) / SECT }

  /** Block `i` of a file, padded with zeros to a full sector. */
  function Chunk(content: seq<byte>, i: nat): (c: seq<byte>)
    ensures |c| == SECT
  {
    var part := ReadAt(content, SECT * i, SECT);
    part + Zeros(SECT - |part|)
  }

  /** The inode lists `blks` and holds the sentinel in every later word. */
  predicate InodeLists(inode: seq<byte>, blks: seq<nat>)
    requires |inode| == SECT && |blks| <= INODE_WORDS
  {
    && (forall j :: 0 <= j < |blks| ==> Word(inode, 4 * j) == blks[j])
    && (forall j :: |blks| <= j < INODE_WORDS ==> Word(inode, 4 * j) == SENTINEL)
  }

  /** Words an inode can hold. */
  predicate InTable(blks: seq<nat>) {
    |blks| <= INODE_WORDS && forall j :: 0 <= j < |blks| ==> blks[j] < TWO32
  }

  method WriteSector(disk: File, blk: nat, buffer: array<byte>)
    modifies disk
    ensures disk.bytes == WriteAt(old(disk.bytes), SECT * Named(blk), buffer[..])
  {
    NamedWraps(blk);
    disk.Seek(Wrap32(blk * SECT));
    disk.Write(buffer[..]);
  }

  /** What inode memory holds once `blks` were entered. */
  function InodeImage(blks: seq<nat>): (inode: seq<byte>)
    requires InTable(blks)
    ensures |inode| == SECT
  {
    if blks == [] then seq(SECT, _ => 0xcc)
    else
      var n := |blks| - 1;
      Splice(InodeImage(blks[..n]), 4 * n, WordBytes(blks[n]))
  }

  lemma EnterBlock(inode: seq<byte>, blks: seq<nat>, off: nat)
    requires |inode| == SECT && |blks| < INODE_WORDS && InodeLists(inode, blks) && off < TWO32
    ensures InodeLists(Splice(inode, 4 * |blks|, WordBytes(off)), blks + [off])
  {
    var inode' := Splice(inode, 4 * |blks|, WordBytes(off));
    forall j | 0 <= j < INODE_WORDS
      ensures Word(inode', 4 * j) == if j == |blks| then off else Word(inode, 4 * j)
    {
    }
  }

  lemma {:induction false} InodeImageLists(blks: seq<nat>)
    requires InTable(blks)
    ensures InodeLists(InodeImage(blks), blks)
  {
    if blks != [] {
      var n := |blks| - 1;
      InodeImageLists(blks[..n]);
      EnterBlock(InodeImage(blks[..n]), blks[..n], blks[n]);
      assert blks[..n] + [blks[n]] == blks;
    }
  }

  /** The image after the blocks of `content` were written to `blks`, in turn. */
  function Stored(d: seq<byte>, blks: seq<nat>, content: seq<byte>): seq<byte> {
    if blks == [] then d
    else
      var n := |blks| - 1;
      WriteAt(Stored(d, blks[..n], content), SECT * Named(blks[n]), Chunk(content, n))
  }

  /** The body of the read loop: allocate a block, enter it in the inode, write it. */
  method StoreChunk(bm: BlockBitmap, file: array<byte>, buffer: array<byte>, disk: File, idx: nat,
      ghost bits0: seq<bool>, ghost disk0: seq<byte>, ghost blks: seq<nat>, ghost content: seq<byte>)
    returns (ghost blks': seq<nat>)
    requires bm.Valid() && file != buffer && |blks| == idx < INODE_WORDS && buffer[..] == Chunk(content, idx)
    requires (bm.Bits(), blks) == AllocRun(bits0, idx) && |bits0| == 8 * BITMAP_BYTES && InTable(blks)
    requires file[..] == InodeImage(blks) && disk.bytes == Stored(disk0, blks, content)
    modifies bm.data, file, disk
    ensures |blks'| == idx + 1 && InTable(blks') && (bm.Bits(), blks') == AllocRun(bits0, idx + 1)
    ensures file[..] == InodeImage(blks') && disk.bytes == Stored(disk0, blks', content)
  {
    var off := bm.AllocBlk();
    blks' := blks + [off];
    assert blks'[..idx] == blks;
    Store(file, 4 * idx, WordBytes(off));
    WriteSector(disk, off, buffer);
  }

  /** One `fread` of the read loop, into a cleared buffer. */
  method ReadChunk(fp: File, buffer: array<byte>, idx: nat) returns (count: nat)
    requires buffer[..] == Zeros(SECT) && fp.pos == Min(SECT * idx, |fp.bytes|)
    modifies fp`pos, buffer
    ensures count == 0 <==> BlockCount(fp.bytes) <= idx
    ensures fp.pos == Min(SECT * (idx + 1), |fp.bytes|)
    ensures buffer[..] == Chunk(fp.bytes, idx)
  {
    count := fp.Read(buffer);
  }

  /** The read loop of fs_write_file. */
  method WriteBlocks(bm: BlockBitmap, file: array<byte>, fp: File, disk: File)
    returns (r: Result<nat>, ghost blks: seq<nat>)
    requires bm.Valid() && fp != disk && fp.pos == 0 && file[..] == InodeImage([])
    modifies bm.data, file, fp`pos, disk
    ensures r.Err? <==> BlockCount(fp.bytes) > INODE_WORDS
    ensures r.Ok? ==>
      && |blks| == BlockCount(fp.bytes) && InTable(blks) && (bm.Bits(), blks) == AllocRun(old(bm.Bits()), |blks|)
      && file[..] == InodeImage(blks) && disk.bytes == Stored(old(disk.bytes), blks, fp.bytes)
  {
    blks := [];
    var idx: nat := 0;
    var buffer := new byte[SECT](_ => 0);
    ghost var bits0, disk0 := bm.Bits(), disk.bytes;
    while true
      invariant idx == |blks| <= BlockCount(fp.bytes) && idx <= INODE_WORDS && InTable(blks)
      invariant fp.pos == Min(SECT * idx, |fp.bytes|) && buffer[..] == Zeros(SECT)
      invariant (bm.Bits(), blks) == AllocRun(bits0, idx)
      invariant file[..] == InodeImage(blks) && disk.bytes == Stored(disk0, blks, fp.bytes)
      decreases BlockCount(fp.bytes) - idx
    {
      var count := ReadChunk(fp, buffer, idx);
      if count == 0 {
        return Ok(idx), blks;
      }
      if idx == INODE_WORDS {
        return Err(OutOfBounds), blks;
      }
      blks := StoreChunk(bm, file, buffer, disk, idx, bits0, disk0, blks, fp.bytes);
      idx := idx + 1;
      Store(buffer, 0, Zeros(SECT));
    }
  }

  /** fs_write_file, for any bitmap and directory. */
  method WriteFile(bm: BlockBitmap, dir: array<byte>, name: seq<byte>, fp: File, disk: File)
    returns (r: Result<nat>, ghost blks: seq<nat>)
    requires bm.Valid() && dir.Length == SECT && NameFits(name) && fp != disk
    modifies bm.data, dir, fp`pos, disk
    ensures r.Err? <==> BlockCount(fp.bytes) > INODE_WORDS
    ensures r.Ok? ==>
      var (bits, inode) := InodeStep(old(bm.Bits()), old(dir[..]));
      && inode < TWO32 && dir[..] == WithFile(old(dir[..]), name, Wrap32(|fp.bytes|), inode)
      && |blks| == BlockCount(fp.bytes) && InTable(blks) && (bm.Bits(), blks) == AllocRun(bits, |blks|)
      && disk.bytes == WriteAt(Stored(old(disk.bytes), blks, fp.bytes), SECT * Named(inode), InodeImage(blks))
  {
    var inodeBlk := AllocFileInDir(bm, dir, name, Wrap32(|fp.bytes|));
    fp.Seek(0);
    var file := new byte[SECT](_ => 0xcc);
    assert file[..] == InodeImage([]);
    r, blks := WriteBlocks(bm, file, fp, disk);
    if r.Ok? {
      WriteSector(disk, inodeBlk, file);
    }
  }

  // ----- what the writes amount to -----

  /** The last block written to a place is the one found there. */
  lemma {:induction false} LastWriteWins(d: seq<byte>, blks: seq<nat>, content: seq<byte>, k: nat)
    requires k < |blks| && forall j :: k < j < |blks| ==> Named(blks[j]) != Named(blks[k])
    ensures BlockAt(Stored(d, blks, content), Named(blks[k])) == Chunk(content, k)
  {
    var n := |blks| - 1;
    WriteBlock(Stored(d, blks[..n], content), Named(blks[n]), Chunk(content, n));
    if k < n {
      LastWriteWins(d, blks[..n], content, k);
    }
  }

  lemma {:induction false} StoredKeeps(d: seq<byte>, blks: seq<nat>, content: seq<byte>, b: nat)
    requires |BlockAt(d, b)| == SECT && forall j :: 0 <= j < |blks| ==> Named(blks[j]) != b
    ensures BlockAt(Stored(d, blks, content), b) == BlockAt(d, b)
  {
    if blks != [] {
      var n := |blks| - 1;
      StoredKeeps(d, blks[..n], content, b);
      WriteBlock(Stored(d, blks[..n], content), Named(blks[n]), Chunk(content, n));
    }
  }

  /** The blocks `blks` of the image hold `content`. */
  ghost predicate DataAt(d: seq<byte>, blks: seq<nat>, content: seq<byte>) {
    forall j :: 0 <= j < |blks| ==> BlockAt(d, Named(blks[j])) == Chunk(content, j)
  }

  /** The file is in the image `d`: inode, data, and every other block kept. */
  ghost predicate Written(before: seq<byte>, d: seq<byte>, inode: nat, blks: seq<nat>, content: seq<byte>) {
    && InTable(blks) && BlockAt(d, Named(inode)) == InodeImage(blks) && DataAt(d, blks, content)
    && forall b: nat :: b != Named(inode) && Spared(blks, b) && |BlockAt(before, b)| == SECT ==>
         BlockAt(d, b) == BlockAt(before, b)
  }

  ghost predicate Spared(blks: seq<nat>, b: nat) {
    forall j :: 0 <= j < |blks| ==> Named(blks[j]) != b
  }

  /** Blocks all different, and different from the inode's. */
  ghost predicate Apart(inode: nat, blks: seq<nat>) {
    && (forall j :: 0 <= j < |blks| ==> Named(blks[j]) != Named(inode))
    && forall i, j :: 0 <= i < j < |blks| ==> Named(blks[i]) != Named(blks[j])
  }

  /** The image fs_write_file leaves. */
  function FileImage(d: seq<byte>, inode: nat, blks: seq<nat>, content: seq<byte>): seq<byte>
    requires InTable(blks)
  {
    WriteAt(Stored(d, blks, content), SECT * Named(inode), InodeImage(blks))
  }

  lemma ApartWritten(d: seq<byte>, inode: nat, blks: seq<nat>, content: seq<byte>)
    requires InTable(blks) && Apart(inode, blks)
    ensures Written(d, FileImage(d, inode, blks, content), inode, blks, content)
  {
    WriteBlock(Stored(d, blks, content), Named(inode), InodeImage(blks));
    forall j | 0 <= j < |blks|
      ensures BlockAt(FileImage(d, inode, blks, content), Named(blks[j])) == Chunk(content, j)
    {
      LastWriteWins(d, blks, content, j);
    }
    forall b: nat | b != Named(inode) && Spared(blks, b) && |BlockAt(d, b)| == SECT
      ensures BlockAt(FileImage(d, inode, blks, content), b) == BlockAt(d, b)
    {
      StoredKeeps(d, blks, content, b);
    }
  }

  lemma RoomApart(bits: seq<bool>, after: seq<bool>, inode: nat, blks: seq<nat>)
    requires TakesSmallest(bits, after, [inode] + blks) && |bits| <= BLOCKS && |blks| <= INODE_WORDS
    ensures InTable(blks) && Apart(inode, blks)
  {
    var got := [inode] + blks;
    assert got[0] == inode;
    forall j | 0 <= j < |blks| ensures blks[j] == got[j + 1] && Named(blks[j]) == blks[j] && inode < blks[j] {
    }
  }

  /** With room for the inode and the file's blocks the blocks are the smallest
      clear ones, and the file is in the image, however fragmented the bitmap. */
  lemma RoomWritten(bits: seq<bool>, d: seq<byte>, content: seq<byte>)
    requires |bits| == 8 * BITMAP_BYTES && BlockCount(content) <= INODE_WORDS && BlockCount(content) < ClearCount(bits)
    ensures var (bits', inode) := AllocStep(bits); var (after, blks) := AllocRun(bits', BlockCount(content));
            && TakesSmallest(bits, after, [inode] + blks) && SENTINEL !in [inode] + blks
            && InTable(blks) && Written(d, FileImage(d, inode, blks, content), inode, blks, content)
  {
    var n := BlockCount(content);
    AllocRunFront(bits, n);
    AllocRunSmallest(bits, n + 1);
    var (bits', inode) := AllocStep(bits);
    var (after, blks) := AllocRun(bits', n);
    RoomApart(bits, after, inode, blks);
    ApartWritten(d, inode, blks, content);
  }

  /** The blocks handed out once the bitmap has `c` clear ones left and the file
      needs more: `c` different ones, then 0xffffffff every time. */
  ghost predicate Overflown(inode: nat, blks: seq<nat>, c: nat) {
    && InTable(blks) && c < |blks| && inode < BLOCKS - 1
    && (forall j :: 0 <= j < c ==> blks[j] < BLOCKS - 1 && blks[j] != inode)
    && (forall i, j :: 0 <= i < j < c ==> blks[i] != blks[j])
    && (forall j :: c <= j < |blks| ==> blks[j] == NO_BLOCK)
  }

  lemma OverflowBlocks(bits: seq<bool>, after: seq<bool>, inode: nat, head: seq<nat>, blks: seq<nat>)
    requires |bits| < BLOCKS && TakesSmallest(bits, after, [inode] + head)
    requires |head| < |blks| <= INODE_WORDS && blks[..|head|] == head
    requires forall j :: |head| <= j < |blks| ==> blks[j] == NO_BLOCK
    ensures Overflown(inode, blks, |head|)
  {
    var got := [inode] + head;
    assert got[0] == inode;
    forall j | 0 <= j < |head| ensures blks[j] == got[j + 1] && inode < blks[j] < |bits| {
      assert blks[j] == blks[..|head|][j];
    }
  }

  lemma OverflowRun(bits: seq<bool>, n: nat)
    requires |bits| == 8 * BITMAP_BYTES && 0 < ClearCount(bits) <= n <= INODE_WORDS
    ensures var (bits', inode) := AllocStep(bits); var blks := AllocRun(bits', n).1;
            |blks| == n && Overflown(inode, blks, ClearCount(bits) - 1)
  {
    var c := ClearCount(bits) - 1;
    var (bits', inode) := AllocStep(bits);
    AllocRunFront(bits, c);
    AllocRunSmallest(bits, c + 1);
    ClearCountZero(bits);
    ClearCountSet(bits, inode);
    AllocRunOver(bits', n);
    OverflowBlocks(bits, AllocRun(bits', c).0, inode, AllocRun(bits', c).1, AllocRun(bits', n).1);
  }

  /** What of a file comes back from its blocks then. */
  lemma OverflowReads(d: seq<byte>, content: seq<byte>, inode: nat, blks: seq<nat>, c: nat, j: nat)
    requires Overflown(inode, blks, c) && j < |blks|
    ensures BlockAt(FileImage(d, inode, blks, content), Named(blks[j]))
         == Chunk(content, if j < c then j else |blks| - 1)
  {
    WriteBlock(Stored(d, blks, content), Named(inode), InodeImage(blks));
    LastWriteWins(d, blks, content, if j < c then j else |blks| - 1);
  }

  lemma OverflowIff(d: seq<byte>, content: seq<byte>, inode: nat, blks: seq<nat>, c: nat)
    requires Overflown(inode, blks, c)
    ensures BlockAt(FileImage(d, inode, blks, content), Named(inode)) == InodeImage(blks)
    ensures DataAt(FileImage(d, inode, blks, content), blks, content)
            <==> forall j :: c <= j < |blks| ==> Chunk(content, j) == Chunk(content, |blks| - 1)
  {
    WriteBlock(Stored(d, blks, content), Named(inode), InodeImage(blks));
    forall j | 0 <= j < |blks|
      ensures BlockAt(FileImage(d, inode, blks, content), Named(blks[j]))
           == Chunk(content, if j < c then j else |blks| - 1)
    {
      OverflowReads(d, content, inode, blks, c, j);
    }
  }

  /** A bitmap with no clear bit at all hands out nothing but 0xffffffff. */
  lemma NoneClear(bits: seq<bool>, n: nat)
    requires |bits| == 8 * BITMAP_BYTES && ClearCount(bits) == 0 && n <= INODE_WORDS
    ensures var (bits', inode) := AllocStep(bits); var blks := AllocRun(bits', n).1;
            inode == NO_BLOCK && InTable(blks) && |blks| == n && forall j :: 0 <= j < n ==> blks[j] == NO_BLOCK
  {
    ClearCountZero(bits);
    AllocRunOver(bits, n);
  }

  /** Then the inode itself is the last thing written to the place that names. */
  lemma NoneClearIff(d: seq<byte>, content: seq<byte>, blks: seq<nat>)
    requires InTable(blks) && forall j :: 0 <= j < |blks| ==> blks[j] == NO_BLOCK
    ensures BlockAt(FileImage(d, NO_BLOCK, blks, content), Named(NO_BLOCK)) == InodeImage(blks)
    ensures DataAt(FileImage(d, NO_BLOCK, blks, content), blks, content)
            <==> forall j :: 0 <= j < |blks| ==> Chunk(content, j) == InodeImage(blks)
  {
    WriteBlock(Stored(d, blks, content), Named(NO_BLOCK), InodeImage(blks));
  }

  /** What the file must look like to be in the image all the same when the disk
      fills up: the blocks past the last clear one all go to the place 0xffffffff
      names, and if there was no clear one at all, so does the inode. */
  predicate FitsFullDisk(bits: seq<bool>, content: seq<byte>, blks: seq<nat>)
    requires InTable(blks)
  {
    var c, n := ClearCount(bits), BlockCount(content);
    if c == 0 then forall j :: 0 <= j < n ==> Chunk(content, j) == InodeImage(blks)
    else forall j :: c - 1 <= j < n ==> Chunk(content, j) == Chunk(content, n - 1)
  }

  /** The inode is in the image, and the file is exactly when it fits. */
  ghost predicate FileThere(bits: seq<bool>, d: seq<byte>, content: seq<byte>, inode: nat, blks: seq<nat>)
    requires InTable(blks)
  {
    var image := FileImage(d, inode, blks, content);
    && BlockAt(image, Named(inode)) == InodeImage(blks)
    && (DataAt(image, blks, content) <==> FitsFullDisk(bits, content, blks))
  }

  lemma RoomThere(bits: seq<bool>, d: seq<byte>, content: seq<byte>, inode: nat, blks: seq<nat>)
    requires BlockCount(content) < ClearCount(bits)
    requires InTable(blks) && Written(d, FileImage(d, inode, blks, content), inode, blks, content)
    ensures FileThere(bits, d, content, inode, blks)
  {
  }

  lemma OverflownThere(bits: seq<bool>, d: seq<byte>, content: seq<byte>, inode: nat, blks: seq<nat>)
    requires ClearCount(bits) > 0 && |blks| == BlockCount(content) && Overflown(inode, blks, ClearCount(bits) - 1)
    ensures FileThere(bits, d, content, inode, blks)
  {
    OverflowIff(d, content, inode, blks, ClearCount(bits) - 1);
  }

  lemma NoneThere(bits: seq<bool>, d: seq<byte>, content: seq<byte>, blks: seq<nat>)
    requires ClearCount(bits) == 0 && |blks| == BlockCount(content)
    requires InTable(blks) && forall j :: 0 <= j < |blks| ==> blks[j] == NO_BLOCK
    ensures FileThere(bits, d, content, NO_BLOCK, blks)
  {
    NoneClearIff(d, content, blks);
  }

  /** For every bitmap: the inode is in the image, and the file is exactly when the
      blocks that share a place hold the same bytes (as when there is only one). */
  lemma FullDiskIff(bits: seq<bool>, d: seq<byte>, content: seq<byte>)
    requires |bits| == 8 * BITMAP_BYTES && BlockCount(content) <= INODE_WORDS
    ensures var (bits', inode) := AllocStep(bits); var blks := AllocRun(bits', BlockCount(content)).1;
            InTable(blks) && FileThere(bits, d, content, inode, blks)
  {
    var (bits', inode) := AllocStep(bits);
    var n := BlockCount(content);
    var blks := AllocRun(bits', n).1;
    if n < ClearCount(bits) {
      RoomWritten(bits, d, content);
      RoomThere(bits, d, content, inode, blks);
    } else if ClearCount(bits) > 0 {
      OverflowRun(bits, n);
      OverflownThere(bits, d, content, inode, blks);
    } else {
      NoneClear(bits, n);
      NoneThere(bits, d, content, blks);
    }
  }

  // ----- the whole image: main of fs-test/format.c -----

  /** The first `m` blocks are taken and no other. */
  predicate Prefix(bits: seq<bool>, m: nat) {
    forall k :: 0 <= k < |bits| ==> (bits[k] <==> k < m)
  }

  lemma {:induction false} PrefixRun(bits: seq<bool>, m: nat, n: nat)
    requires Prefix(bits, m) && m + n <= |bits|
    ensures AllocRun(bits, n).1 == seq(n, i => m + i)
    ensures |AllocRun(bits, n).0| == |bits| && Prefix(AllocRun(bits, n).0, m + n)
  {
    if n > 0 {
      PrefixRun(bits, m, n - 1);
      FirstClearIs(AllocRun(bits, n - 1).0, m + n - 1);
    }
  }

  /** The start of main: the blocks of the bitmap and one for the directory are taken. */
  method ReserveMetadata() returns (bm: BlockBitmap)
    ensures fresh(bm) && fresh(bm.data) && bm.Valid() && Prefix(bm.Bits(), DIR_BLOCK + 1)
  {
    bm := new BlockBitmap();
    var size := (BITMAP_BYTES - 1) / 512 + 1;
    size := size * 512;
    var idx := 0;
    while size != 0
      invariant 0 <= idx <= DIR_BLOCK && size == 512 * (DIR_BLOCK - idx)
      invariant bm.Valid() && fresh(bm.data) && Prefix(bm.Bits(), idx)
    {
      bm.SetBit(idx, 1);
      idx := idx + 1;
      size := size - 512;
    }
    FirstClearIs(bm.Bits(), DIR_BLOCK);
    var off := bm.AllocBlk();
  }

  /** "hello" and its terminator. */
  const DIR_NAME: seq<byte> := [104, 101, 108, 108, 111, 0]

  /** The directory gets its own name; what else `dir` holds stays. */
  function NamedDir(garbage: seq<byte>): (dir: seq<byte>)
    requires |garbage| == SECT
    ensures |dir| == SECT
  {
    Splice(garbage, 0, DIR_NAME)
  }

  lemma SlotKept(garbage: seq<byte>, i: nat)
    requires |garbage| == SECT && i < SLOTS
    ensures SlotInode(NamedDir(garbage), i) == SlotInode(garbage, i)
    ensures SlotSize(NamedDir(garbage), i) == SlotSize(garbage, i)
  {
  }

  lemma {:induction false} FirstSlotKept(garbage: seq<byte>, from: nat := 0)
    requires |garbage| == SECT && from <= SLOTS
    ensures FirstSlot(NamedDir(garbage), from) == FirstSlot(garbage, from)
    decreases SLOTS - from
  {
    if from < SLOTS {
      SlotKept(garbage, from);
      FirstSlotKept(garbage, from + 1);
    }
  }

  /** Where inode and data go: after the directory, unless no slot looks free. */
  function InodeWord(garbage: seq<byte>): nat
    requires |garbage| == SECT
  {
    if FirstSlot(garbage) == SLOTS then NO_INODE else DIR_BLOCK + 1
  }

  function FirstData(garbage: seq<byte>): nat
    requires |garbage| == SECT
  {
    if FirstSlot(garbage) == SLOTS then DIR_BLOCK + 1 else DIR_BLOCK + 2
  }

  function DataBlocks(garbage: seq<byte>, content: seq<byte>): (blks: seq<nat>)
    requires |garbage| == SECT
    ensures |blks| == BlockCount(content) && forall j :: 0 <= j < |blks| ==> blks[j] == FirstData(garbage) + j
  {
    seq(BlockCount(content), j => FirstData(garbage) + j)
  }

  function DirImage(garbage: seq<byte>, name: seq<byte>, size: nat): (dir: seq<byte>)
    requires |garbage| == SECT && NameFits(name) && size < TWO32
    ensures |dir| == SECT
  {
    WithFile(NamedDir(garbage), name, size, InodeWord(garbage))
  }

  /** The bytes of a bitmap whose first `m` blocks are taken. */
  predicate BitmapBytes(bm: seq<byte>, m: nat) {
    |bm| == BITMAP_BYTES &&
    forall i :: 0 <= i < BITMAP_BYTES ==> (8 * (i + 1) <= m ==> bm[i] == 0xff) && (m <= 8 * i ==> bm[i] == 0)
  }

  /** The image of one file, for any bytes the uninitialised `dir` may hold. */
  ghost predicate Formatted(d: seq<byte>, garbage: seq<byte>, name: seq<byte>, content: seq<byte>)
    requires |garbage| == SECT && NameFits(name) && BlockCount(content) <= INODE_WORDS
  {
    var blks := DataBlocks(garbage, content);
    && |d| == (if FirstSlot(garbage) == SLOTS then TWO32 else SECT * (FirstData(garbage) + |blks|))
    && BitmapBytes(d[..BITMAP_BYTES], FirstData(garbage) + |blks|)
    && BlockAt(d, DIR_BLOCK) == DirImage(garbage, name, |content|)
    && BlockAt(d, Named(InodeWord(garbage))) == InodeImage(blks) && DataAt(d, blks, content)
  }

  lemma {:induction false} StoredLength(blks: seq<nat>, content: seq<byte>, first: nat)
    requires first + |blks| <= BLOCKS && forall j :: 0 <= j < |blks| ==> blks[j] == first + j
    ensures |Stored([], blks, content)| == if blks == [] then 0 else SECT * (first + |blks|)
  {
    if blks != [] {
      StoredLength(blks[..|blks| - 1], content, first);
    }
  }

  /** Every block past `b` is as before. */
  ghost predicate KeptPast(d: seq<byte>, d': seq<byte>, b: nat) {
    forall c: nat :: c > b && |BlockAt(d, c)| == SECT ==> BlockAt(d', c) == BlockAt(d, c)
  }

  lemma DataKept(d: seq<byte>, d': seq<byte>, blks: seq<nat>, content: seq<byte>)
    requires KeptPast(d, d', DIR_BLOCK) && DataAt(d, blks, content)
    requires forall j :: 0 <= j < |blks| ==> Named(blks[j]) > DIR_BLOCK
    ensures DataAt(d', blks, content)
  {
  }

  /** Bitmap and directory in front of what is there. */
  lemma FrontRead(d: seq<byte>, bm: seq<byte>, dir: seq<byte>)
    requires |bm| == BITMAP_BYTES && |dir| == SECT
    ensures var d' := WriteAt(d, 0, bm + dir);
            && |d'| == Max(|d|, SECT * (DIR_BLOCK + 1)) && d'[..BITMAP_BYTES] == bm && BlockAt(d', DIR_BLOCK) == dir
            && KeptPast(d, d', DIR_BLOCK)
  {
    var d' := WriteAt(d, 0, bm + dir);
    assert |bm + dir| == SECT * (DIR_BLOCK + 1);
    WritePrefix(d, bm + dir, DIR_BLOCK + 1);
    assert d'[..BITMAP_BYTES] == bm;
    assert BlockAt(d', DIR_BLOCK) == dir;
  }

  lemma InodeNamed(garbage: seq<byte>)
    requires |garbage| == SECT
    ensures Named(InodeWord(garbage)) == if FirstSlot(garbage) == SLOTS then BLOCKS - 1 else DIR_BLOCK + 1
  {
    assert Named(NO_INODE) == BLOCKS - 1;
  }

  lemma BlocksApart(garbage: seq<byte>, content: seq<byte>)
    requires |garbage| == SECT && BlockCount(content) <= INODE_WORDS
    ensures InTable(DataBlocks(garbage, content)) && Apart(InodeWord(garbage), DataBlocks(garbage, content))
    ensures forall j :: 0 <= j < BlockCount(content) ==>
      Named(DataBlocks(garbage, content)[j]) == FirstData(garbage) + j
  {
    InodeNamed(garbage);
  }

  lemma FileLength(garbage: seq<byte>, content: seq<byte>)
    requires |garbage| == SECT && BlockCount(content) <= INODE_WORDS && InTable(DataBlocks(garbage, content))
    ensures |FileImage([], InodeWord(garbage), DataBlocks(garbage, content), content)|
         == if FirstSlot(garbage) == SLOTS then TWO32 else SECT * (FirstData(garbage) + BlockCount(content))
  {
    InodeNamed(garbage);
    StoredLength(DataBlocks(garbage, content), content, FirstData(garbage));
  }

  /** So the image, block by block. */
  lemma ImageFormatted(garbage: seq<byte>, name: seq<byte>, content: seq<byte>, bm: seq<byte>)
    requires |garbage| == SECT && NameFits(name) && BlockCount(content) <= INODE_WORDS
    requires BitmapBytes(bm, FirstData(garbage) + BlockCount(content)) && InTable(DataBlocks(garbage, content))
    ensures var d := FileImage([], InodeWord(garbage), DataBlocks(garbage, content), content);
            Formatted(WriteAt(d, 0, bm + DirImage(garbage, name, |content|)), garbage, name, content)
  {
    var blks, inode := DataBlocks(garbage, content), InodeWord(garbage);
    var d := FileImage([], inode, blks, content);
    BlocksApart(garbage, content);
    FileLength(garbage, content);
    ApartWritten([], inode, blks, content);
    InodeNamed(garbage);
    FrontRead(d, bm, DirImage(garbage, name, |content|));
    DataKept(d, WriteAt(d, 0, bm + DirImage(garbage, name, |content|)), blks, content);
  }

  /** The method's start: the directory as it comes from the stack, and its name. */
  method NameDir(garbage: seq<byte>) returns (dir: array<byte>)
    requires |garbage| == SECT
    ensures fresh(dir) && dir[..] == NamedDir(garbage)
  {
    dir := new byte[SECT](k requires 0 <= k < |garbage| => garbage[k]);
    assert dir[..] == garbage;
    Store(dir, 0, DIR_NAME);
  }

  lemma PrefixBlocks(bits: seq<bool>, garbage: seq<byte>, content: seq<byte>)
    requires |bits| == 8 * BITMAP_BYTES && Prefix(bits, DIR_BLOCK + 1)
    requires |garbage| == SECT && BlockCount(content) <= INODE_WORDS
    ensures var (bits', inode) := InodeStep(bits, NamedDir(garbage));
            var (after, blks) := AllocRun(bits', BlockCount(content));
            && inode == InodeWord(garbage) && blks == DataBlocks(garbage, content)
            && |after| == |bits| && Prefix(after, FirstData(garbage) + BlockCount(content))
  {
    FirstSlotKept(garbage);
    if FirstSlot(garbage) != SLOTS {
      FirstClearIs(bits, DIR_BLOCK + 1);
    }
    PrefixRun(InodeStep(bits, NamedDir(garbage)).0, FirstData(garbage), BlockCount(content));
  }

  /** The call of fs_write_file, with the metadata blocks taken and no other. */
  method WriteFirst(bm: BlockBitmap, dir: array<byte>, ghost garbage: seq<byte>, name: seq<byte>, fp: File, disk: File)
    returns (r: Result<nat>)
    requires bm.Valid() && Prefix(bm.Bits(), DIR_BLOCK + 1) && |garbage| == SECT && dir[..] == NamedDir(garbage)
    requires NameFits(name) && fp != disk && disk.bytes == []
    modifies bm.data, dir, fp`pos, disk
    ensures r.Err? <==> BlockCount(fp.bytes) > INODE_WORDS
    ensures r.Ok? ==>
      && Prefix(bm.Bits(), FirstData(garbage) + BlockCount(fp.bytes))
      && dir[..] == DirImage(garbage, name, |fp.bytes|) && InTable(DataBlocks(garbage, fp.bytes))
      && disk.bytes == FileImage([], InodeWord(garbage), DataBlocks(garbage, fp.bytes), fp.bytes)
  {
    ghost var bits := bm.Bits();
    ghost var blks;
    r, blks := WriteFile(bm, dir, name, fp, disk);
    if r.Ok? {
      PrefixBlocks(bits, garbage, fp.bytes);
    }
  }

  lemma FullByte(b: bv8)
    requires forall j: nat :: j < 8 ==> Bit(b, Low3(j))
    ensures b == 0xff
  {
    assert Bit(b, Low3(0)) && Bit(b, Low3(1)) && Bit(b, Low3(2)) && Bit(b, Low3(3));
    assert Bit(b, Low3(4)) && Bit(b, Low3(5)) && Bit(b, Low3(6)) && Bit(b, Low3(7));
  }

  lemma EmptyByte(b: bv8)
    requires forall j: nat :: j < 8 ==> !Bit(b, Low3(j))
    ensures b == 0
  {
    assert !Bit(b, Low3(0)) && !Bit(b, Low3(1)) && !Bit(b, Low3(2)) && !Bit(b, Low3(3));
    assert !Bit(b, Low3(4)) && !Bit(b, Low3(5)) && !Bit(b, Low3(6)) && !Bit(b, Low3(7));
  }

  lemma PrefixByte(data: seq<bv8>, m: nat, i: nat)
    requires Prefix(Flags(data), m) && i < |data|
    ensures 8 * (i + 1) <= m ==> data[i] == 0xff
    ensures m <= 8 * i ==> data[i] == 0
  {
    forall j: nat | j < 8 ensures Bit(data[i], Low3(j)) <==> 8 * i + j < m {
      FlagOfByte(data, i, j);
    }
    if 8 * (i + 1) <= m {
      FullByte(data[i]);
    } else if m <= 8 * i {
      EmptyByte(data[i]);
    }
  }

  /** The image starts with the bitmap. */
  ghost predicate BitmapAt(d: seq<byte>, data: seq<bv8>) {
    |data| <= |d| && forall k :: 0 <= k < |data| ==> d[k] == data[k] as int
  }

  /** The bytes `fwrite` takes from the bitmap. */
  method BitmapImage(bm: BlockBitmap, ghost m: nat) returns (image: seq<byte>)
    requires bm.Valid() && Prefix(bm.Bits(), m)
    ensures BitmapBytes(image, m) && |image| == bm.data.Length
    ensures forall k :: 0 <= k < |image| ==> image[k] == bm.data[k] as int
  {
    var data := bm.data[..];
    image := seq(BITMAP_BYTES, k requires 0 <= k < |data| => data[k] as byte);
    forall i | 0 <= i < BITMAP_BYTES ensures (8 * (i + 1) <= m ==> image[i] == 0xff) && (m <= 8 * i ==> image[i] == 0) {
      PrefixByte(data, m, i);
    }
  }

  lemma WriteTwice(d: seq<byte>, s: seq<byte>, t: seq<byte>)
    ensures WriteAt(WriteAt(d, 0, s), |s|, t) == WriteAt(d, 0, s + t)
    ensures |s| <= |WriteAt(d, 0, s + t)| && WriteAt(d, 0, s + t)[..|s|] == s
  {
  }

  /** Two `fwrite`s at the front of the image. */
  method WriteFront(disk: File, image: seq<byte>, dir: array<byte>)
    modifies disk
    ensures disk.bytes == WriteAt(old(disk.bytes), 0, image + dir[..])
    ensures |image| <= |disk.bytes| && disk.bytes[..|image|] == image
  {
    WriteTwice(disk.bytes, image, dir[..]);
    disk.Seek(0);
    disk.Write(image);
    disk.Write(dir[..]);
  }

  /** The end of main: bitmap and directory go to the front of the image. */
  method WriteMetadata(disk: File, bm: BlockBitmap, dir: array<byte>,
                       ghost garbage: seq<byte>, ghost name: seq<byte>, ghost content: seq<byte>)
    requires |garbage| == SECT && NameFits(name)
    requires BlockCount(content) <= INODE_WORDS && InTable(DataBlocks(garbage, content))
    requires disk.bytes == FileImage([], InodeWord(garbage), DataBlocks(garbage, content), content)
    requires bm.Valid() && Prefix(bm.Bits(), FirstData(garbage) + BlockCount(content))
    requires dir[..] == DirImage(garbage, name, |content|)
    modifies disk
    ensures Formatted(disk.bytes, garbage, name, content) && BitmapAt(disk.bytes, bm.data[..])
  {
    var image := BitmapImage(bm, FirstData(garbage) + BlockCount(content));
    ImageFormatted(garbage, name, content, image);
    WriteFront(disk, image, dir);
    assert forall k :: 0 <= k < |image| ==> disk.bytes[k] == disk.bytes[..|image|][k];
  }

  /** main of fs-test/format.c; `garbage` is what the stack holds in `dir`. */
  method Format(name: seq<byte>, fp: File, garbage: seq<byte>) returns (r: Result<File>, bm: BlockBitmap)
    requires NameFits(name) && |garbage| == SECT
    modifies fp`pos
    ensures bm.Valid()
    ensures r.Err? <==> BlockCount(fp.bytes) > INODE_WORDS
    ensures r.Ok? ==>
      && fresh(r.value) && Formatted(r.value.bytes, garbage, name, fp.bytes)
      && Prefix(bm.Bits(), FirstData(garbage) + BlockCount(fp.bytes)) && BitmapAt(r.value.bytes, bm.data[..])
  {
    bm := ReserveMetadata();
    var dir := NameDir(garbage);
    var disk := new File([]);
    var written := WriteFirst(bm, dir, garbage, name, fp, disk);
    if written.Err? {
      return Err(written.fault), bm;
    }
    WriteMetadata(disk, bm, dir, garbage, name, fp.bytes);
    return Ok(disk), bm;
  }
}
