/** Reading a file back out of a disk image: fs-test/extract.c. */
module DiskExtract {
  import opened Bytes
  import opened Bitmap
  import opened DiskFs

  // ----- what the reader outputs, as a function of the image -----

  function Prepend(head: seq<byte>, tail: Result<seq<byte>>): (r: Result<seq<byte>>)
    ensures head == [] ==> r == tail
    ensures tail == Ok([]) ==> r == Ok(head)
  {
    match tail
    case Ok(t) => assert [] + t == t && head + [] == head; Ok(head + t)
    case Err(_) => tail
  }

  /** The inode from word `j` on, `filesz` being the unsigned bytes left. */
  function Walk(d: seq<byte>, inode: seq<byte>, j: nat, filesz: nat): Result<seq<byte>>
    requires |inode| == SECT && j <= INODE_WORDS && filesz < TWO32
    decreases INODE_WORDS - j
  {
    if j == INODE_WORDS then Err(OutOfBounds)
    else
      var w := Word(inode, 4 * j);
      if w == SENTINEL then Ok([])
      else
        var blk := BlockAt(d, Named(w));
        if |blk| < SECT then Err(ShortRead)
        else Prepend(blk[..Min(filesz, SECT)], Walk(d, inode, j + 1, Sub32(filesz, SECT)))
  }

  /** What directory slot `i` stands for; a slot with inode 0 for nothing. */
  function SlotContent(d: seq<byte>, root: seq<byte>, i: nat): Result<seq<byte>>
    requires |root| == SECT && i < SLOTS
  {
    if SlotInode(root, i) == 0 then Ok([])
    else
      var inode := BlockAt(d, Named(SlotInode(root, i)));
      if |inode| < SECT then Err(ShortRead) else Walk(d, inode, 0, SlotSize(root, i))
  }

  /** The directory from slot `i` on. */
  function Scan(d: seq<byte>, root: seq<byte>, i: nat): Result<seq<byte>>
    requires |root| == SECT && i <= SLOTS
    decreases SLOTS - i
  {
    if i == SLOTS then Ok([])
    else
      match SlotContent(d, root, i)
      case Err(f) => Err(f)
      case Ok(file) => Prepend(file, Scan(d, root, i + 1))
  }

  function Extracted(d: seq<byte>): Result<seq<byte>> {
    Scan(d, Splice(Zeros(SECT), 0, ReadAt(d, BITMAP_BYTES, SECT)), 0)
  }

  // ----- the reader -----

  method ReadSector(disk: File, w: nat, buffer: array<byte>) returns (ok: bool)
    requires buffer.Length == SECT
    modifies disk`pos, buffer
    ensures ok <==> |BlockAt(disk.bytes, Named(w))| == SECT
    ensures ok ==> buffer[..] == BlockAt(disk.bytes, Named(w))
  {
    NamedWraps(w);
    disk.Seek(Wrap32(w * SECT));
    var n := disk.Read(buffer);
    ok := n == SECT;
  }

  /** One data block, cut to the bytes left. */
  method DumpBlock(disk: File, w: nat, filesz: nat, dump: File) returns (ok: bool)
    requires disk != dump && dump.pos == |dump.bytes|
    modifies disk`pos, dump
    ensures dump.pos == |dump.bytes|
    ensures var blk := BlockAt(disk.bytes, Named(w));
            && (ok <==> |blk| == SECT)
            && dump.bytes == if ok then old(dump.bytes) + blk[..Min(filesz, SECT)] else old(dump.bytes)
  {
    var buffer := new byte[SECT];
    ok := ReadSector(disk, w, buffer);
    if ok {
      dump.Write(buffer[..if filesz < SECT then filesz else SECT]);
    }
  }

  lemma PrependTwice(s: seq<byte>, t: seq<byte>, tail: Result<seq<byte>>)
    ensures Prepend(s, Prepend(t, tail)) == Prepend(s + t, tail)
  {
    if tail.Ok? { assert s + (t + tail.value) == s + t + tail.value; }
  }

  /** The body of the inner loop, for a word that is not the sentinel. */
  method DumpNext(disk: File, inode: array<byte>, j: nat, filesz: nat, dump: File) returns (ok: bool)
    requires inode.Length == SECT && j < INODE_WORDS && Word(inode[..], 4 * j) != SENTINEL
    requires filesz < TWO32 && disk != dump && dump.pos == |dump.bytes|
    modifies disk`pos, dump
    ensures dump.pos == |dump.bytes|
    ensures if ok then
              Prepend(dump.bytes, Walk(disk.bytes, inode[..], j + 1, Sub32(filesz, SECT)))
              == Prepend(old(dump.bytes), Walk(disk.bytes, inode[..], j, filesz))
            else Walk(disk.bytes, inode[..], j, filesz) == Err(ShortRead)
  {
    ghost var part := BlockAt(disk.bytes, Named(Word(inode[..], 4 * j)));
    if |part| == SECT {
      PrependTwice(dump.bytes, part[..Min(filesz, SECT)], Walk(disk.bytes, inode[..], j + 1, Sub32(filesz, SECT)));
    }
    ok := DumpBlock(disk, Word(inode[..], 4 * j), filesz, dump);
  }

  /** The inner loop of main. */
  method DumpFile(disk: File, inode: array<byte>, size: nat, dump: File) returns (fault: Result<()>)
    requires inode.Length == SECT && size < TWO32 && disk != dump && dump.pos == |dump.bytes|
    modifies disk`pos, dump
    ensures dump.pos == |dump.bytes|
    ensures match Walk(disk.bytes, inode[..], 0, size)
            case Ok(out) => fault.Ok? && dump.bytes == old(dump.bytes) + out
            case Err(f) => fault == Err(f)
  {
    var filesz := size;
    var j := 0;
    ghost var d, words := disk.bytes, inode[..];
    while true
      invariant 0 <= j <= INODE_WORDS && 0 <= filesz < TWO32 && dump.pos == |dump.bytes|
      invariant Prepend(dump.bytes, Walk(d, words, j, filesz)) == Prepend(old(dump.bytes), Walk(d, words, 0, size))
      decreases INODE_WORDS - j
    {
      if j == INODE_WORDS {
        return Err(OutOfBounds);
      }
      if Word(inode[..], 4 * j) == SENTINEL {
        return Ok(());
      }
      var ok := DumpNext(disk, inode, j, filesz, dump);
      if !ok {
        return Err(ShortRead);
      }
      filesz := Sub32(filesz, SECT);
      j := j + 1;
    }
  }

  /** The start of main: bitmap and root directory. */
  method ReadRoot(disk: File) returns (root: array<byte>)
    requires disk.pos == 0
    modifies disk`pos
    ensures fresh(root) && root[..] == Splice(Zeros(SECT), 0, ReadAt(disk.bytes, BITMAP_BYTES, SECT))
  {
    var bitmap := new byte[BITMAP_BYTES](_ => 0);
    root := new byte[SECT](_ => 0);
    var n := disk.Read(bitmap);
    n := disk.Read(root);
  }

  /** The body of the slot loop of main. */
  method DumpSlot(disk: File, root: array<byte>, i: nat, dump: File) returns (fault: Result<()>)
    requires root.Length == SECT && i < SLOTS && disk != dump && dump.pos == |dump.bytes|
    modifies disk`pos, dump
    ensures dump.pos == |dump.bytes|
    ensures match SlotContent(disk.bytes, root[..], i)
            case Ok(out) => fault.Ok? && dump.bytes == old(dump.bytes) + out
            case Err(f) => fault == Err(f)
  {
    if SlotInode(root[..], i) == 0 {
      return Ok(());
    }
    var inode := new byte[SECT];
    var ok := ReadSector(disk, SlotInode(root[..], i), inode);
    if !ok {
      return Err(ShortRead);
    }
    fault := DumpFile(disk, inode, SlotSize(root[..], i), dump);
  }

  /** main of fs-test/extract.c */
  method Extract(disk: File) returns (r: Result<seq<byte>>)
    requires disk.pos == 0
    modifies disk`pos
    ensures r == Extracted(disk.bytes)
  {
    var root := ReadRoot(disk);
    ghost var rootBytes := root[..];
    var dump := new File([]);
    for i := 0 to SLOTS
      invariant dump.pos == |dump.bytes| && root[..] == rootBytes
      invariant Scan(disk.bytes, rootBytes, 0) == Prepend(dump.bytes, Scan(disk.bytes, rootBytes, i))
    {
      ghost var dumped := dump.bytes;
      var fault := DumpSlot(disk, root, i, dump);
      if fault.Err? {
        return Err(fault.fault);
      }
      PrependTwice(dumped, SlotContent(disk.bytes, rootBytes, i).value, Scan(disk.bytes, rootBytes, i + 1));
    }
    return Ok(dump.bytes);
  }

  // ----- reading a file back -----

  /** The reader's count of the bytes left when it comes to block `j`. */
  function Left(content: seq<byte>, j: nat): (r: nat)
    requires BlockCount(content) <= INODE_WORDS && j <= BlockCount(content)
    ensures r < TWO32
  {
    if SECT * j <= |content| then |content| - SECT * j else |content| - SECT * j + TWO32
  }

  lemma ChunkSplits(content: seq<byte>, j: nat)
    requires j < BlockCount(content) <= INODE_WORDS
    ensures Sub32(Left(content, j), SECT) == Left(content, j + 1)
    ensures Chunk(content, j)[..Min(Left(content, j), SECT)] + content[Min(SECT * (j + 1), |content|)..]
         == content[Min(SECT * j, |content|)..]
  {
  }

  /** The inode words from `j` on give back the rest of the file. */
  lemma {:induction false} WalkReads(d: seq<byte>, inode: seq<byte>, blks: seq<nat>, content: seq<byte>, j: nat)
    requires |inode| == SECT && |blks| == BlockCount(content) <= INODE_WORDS && j <= |blks|
    requires InodeLists(inode, blks) && DataAt(d, blks, content) && SENTINEL !in blks
    ensures Walk(d, inode, j, Left(content, j))
         == if |blks| == INODE_WORDS then Err(OutOfBounds) else Ok(content[Min(SECT * j, |content|)..])
    decreases |blks| - j
  {
    if j < |blks| {
      ChunkSplits(content, j);
      assert BlockAt(d, Named(blks[j])) == Chunk(content, j);
      WalkReads(d, inode, blks, content, j + 1);
    } else if j < INODE_WORDS {
      assert SECT * j >= |content| && content[|content|..] == [];
      assert Word(inode, 4 * j) == SENTINEL;
    }
  }

  /** A file reads back from its inode, wherever its blocks are. */
  lemma FileReads(d: seq<byte>, inode: seq<byte>, blks: seq<nat>, content: seq<byte>)
    requires |inode| == SECT && |blks| == BlockCount(content) <= INODE_WORDS
    requires InodeLists(inode, blks) && DataAt(d, blks, content) && SENTINEL !in blks
    ensures Walk(d, inode, 0, |content|) == if |content| <= MAX_FILE then Ok(content) else Err(OutOfBounds)
  {
    WalkReads(d, inode, blks, content, 0);
    assert content[0..] == content;
    assert |content| <= MAX_FILE <==> |blks| < INODE_WORDS;
  }

  /** Past the array the inode's block goes on with sentinels. */
  lemma {:induction false} InodeTail(blks: seq<nat>, k: nat)
    requires InTable(blks) && 4 * |blks| <= k < SECT
    ensures InodeImage(blks)[k] == 0xcc
  {
    if blks != [] {
      InodeTail(blks[..|blks| - 1], k);
    }
  }

  // ----- what the rest of the directory adds -----

  /** The slots from `i` on add nothing. */
  lemma {:induction false} ScanSilent(d: seq<byte>, root: seq<byte>, i: nat)
    requires |root| == SECT && i <= SLOTS
    ensures Scan(d, root, i) == Ok([]) <==> forall k :: i <= k < SLOTS ==> SlotContent(d, root, k) == Ok([])
    decreases SLOTS - i
  {
    if i < SLOTS {
      ScanSilent(d, root, i + 1);
    }
  }

  /** Nothing comes out of an inode block exactly when it starts with the sentinel, or
      the size is 0 and its one block is there. */
  lemma WalkSilent(d: seq<byte>, inode: seq<byte>, size: nat)
    requires |inode| == SECT && size < TWO32
    ensures Walk(d, inode, 0, size) == Ok([]) <==>
      || Word(inode, 0) == SENTINEL
      || (size == 0 && |BlockAt(d, Named(Word(inode, 0)))| == SECT && Word(inode, 4) == SENTINEL)
  {
    var blk := BlockAt(d, Named(Word(inode, 0)));
    if Word(inode, 0) != SENTINEL && |blk| == SECT {
      var rest := Walk(d, inode, 1, Sub32(size, SECT));
      assert Walk(d, inode, 0, size) == Prepend(blk[..Min(size, SECT)], rest);
      if size == 0 && Word(inode, 4) != SENTINEL {
        SecondBlock(d, inode);
      }
    }
  }

  lemma SecondBlock(d: seq<byte>, inode: seq<byte>)
    requires |inode| == SECT && Word(inode, 4) != SENTINEL
    ensures Walk(d, inode, 1, TWO32 - SECT) != Ok([])
  {
    assert Word(inode, 4 * 1) != SENTINEL;
  }
}
