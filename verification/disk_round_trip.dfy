/** The round trip promised by README.md: format, then extract, whatever the
    uninitialised directory of fs-test/format.c holds. */
module DiskRoundTrip {
  import opened Bytes
  import opened Bitmap
  import opened DiskFs
  import opened DiskExtract

  /** What a directory slot adds to the output: nothing, when it is not in use or
      names a block that reads as an empty inode. `w` and `size` are its words. */
  predicate Silent(w: nat, size: nat, content: seq<byte>) {
    w == 0 || EmptyBlock(Named(w), size, content)
  }

  /** The blocks that do: the file's inode block, if it lists no block, or just one
      and the size is 0, and those of its data blocks that look the part. */
  predicate EmptyBlock(b: nat, size: nat, content: seq<byte>) {
    var n, first := BlockCount(content), DIR_BLOCK + 2;
    || (b == DIR_BLOCK + 1 && (n == 0 || (n == 1 && size == 0)))
    || (first <= b < first + n && ReadsEmpty(Chunk(content, b - first), size, first + n))
  }

  /** All slots but the first. */
  predicate SlotsSilent(dir: seq<byte>, content: seq<byte>)
    requires |dir| == SECT
  {
    forall i: nat :: 0 < i < SLOTS ==> Silent(SlotInode(dir, i), SlotSize(dir, i), content)
  }

  /** A block of data that looks like an empty inode, in an image of `blocks` blocks. */
  predicate ReadsEmpty(chunk: seq<byte>, size: nat, blocks: nat)
    requires |chunk| == SECT
  {
    Word(chunk, 0) == SENTINEL || (size == 0 && Named(Word(chunk, 0)) < blocks && Word(chunk, 4) == SENTINEL)
  }

  // ----- the blocks of a formatted image -----

  lemma BlockWhole(d: seq<byte>, b: nat, blocks: nat)
    requires |d| == SECT * blocks
    ensures |BlockAt(d, b)| == SECT <==> b < blocks
  {
  }

  /** Neither the bitmap nor the directory reads as an empty inode. */
  lemma BitmapBlock(d: seq<byte>, b: nat, m: nat, size: nat)
    requires |d| >= BITMAP_BYTES && BitmapBytes(d[..BITMAP_BYTES], m) && 64 <= m <= 4096
    requires b < DIR_BLOCK && size < TWO32
    requires |d| < SECT * (BLOCKS - 1)
    ensures |BlockAt(d, b)| == SECT && Walk(d, BlockAt(d, b), 0, size) != Ok([])
  {
    var s := BlockAt(d, b);
    assert forall k :: 0 <= k < 8 ==> s[k] == d[..BITMAP_BYTES][SECT * b + k] == if b == 0 then 0xff else 0;
    assert Word(s, 0) == Word(s, 4) == if b == 0 then 0xffff_ffff else 0;
    assert Named(0xffff_ffff) == BLOCKS - 1;
    WalkSilent(d, s, size);
  }

  lemma DirBlock(d: seq<byte>, dir: seq<byte>, size: nat)
    requires |dir| == SECT && dir[..|DIR_NAME|] == DIR_NAME && |d| < SECT * 0x1000 && size < TWO32
    ensures Walk(d, dir, 0, size) != Ok([])
  {
    assert dir[0] == 104 && dir[1] == 101 && dir[2] == 108 && dir[3] == 108;
    assert Word(dir, 0) == 0x6c6c_6568;
    assert Named(0x6c6c_6568) == 0x6c_6568;
    WalkSilent(d, dir, size);
  }

  lemma InodeBlock(d: seq<byte>, blks: seq<nat>, size: nat)
    requires InTable(blks) && SENTINEL !in blks && size < TWO32
    requires forall j :: 0 <= j < |blks| ==> |BlockAt(d, Named(blks[j]))| == SECT
    ensures Walk(d, InodeImage(blks), 0, size) == Ok([]) <==> |blks| == 0 || (|blks| == 1 && size == 0)
  {
    InodeImageLists(blks);
    WalkSilent(d, InodeImage(blks), size);
    assert Word(InodeImage(blks), 4 * 0) == if |blks| > 0 then blks[0] else SENTINEL;
    assert Word(InodeImage(blks), 4 * 1) == if |blks| > 1 then blks[1] else SENTINEL;
  }

  // ----- slot 0 free at the start: the usual case -----

  /** The directory of such an image: its name, the file in slot 0, the rest as it was. */
  lemma UsualDir(garbage: seq<byte>, name: seq<byte>, size: nat)
    requires |garbage| == SECT && FirstSlot(garbage) == 0 && NameFits(name) && size < TWO32
    ensures DirImage(garbage, name, size) == WithSlot(NamedDir(garbage), 0, name, size, DIR_BLOCK + 1)
  {
    FirstSlotKept(garbage);
  }

  lemma DirName(garbage: seq<byte>, name: seq<byte>, size: nat)
    requires |garbage| == SECT && NameFits(name) && size < TWO32
    ensures WithSlot(NamedDir(garbage), 0, name, size, DIR_BLOCK + 1)[..|DIR_NAME|] == DIR_NAME
  {
  }

  lemma DirFirst(garbage: seq<byte>, name: seq<byte>, size: nat)
    requires |garbage| == SECT && NameFits(name) && size < TWO32
    ensures var dir := WithSlot(NamedDir(garbage), 0, name, size, DIR_BLOCK + 1);
            SlotSize(dir, 0) == size && SlotInode(dir, 0) == DIR_BLOCK + 1
  {
    WithSlotFields(NamedDir(garbage), 0, name, size, DIR_BLOCK + 1);
  }

  lemma DirOther(garbage: seq<byte>, name: seq<byte>, size: nat, i: nat)
    requires |garbage| == SECT && NameFits(name) && size < TWO32 && 0 < i < SLOTS
    ensures var dir := WithSlot(NamedDir(garbage), 0, name, size, DIR_BLOCK + 1);
            SlotSize(dir, i) == SlotSize(garbage, i) && SlotInode(dir, i) == SlotInode(garbage, i)
  {
    SlotKept(garbage, i);
    WithSlotFields(NamedDir(garbage), 0, name, size, DIR_BLOCK + 1);
  }

  lemma NoSentinel(garbage: seq<byte>, content: seq<byte>)
    requires |garbage| == SECT && BlockCount(content) <= INODE_WORDS
    ensures SENTINEL !in DataBlocks(garbage, content)
  {
  }

  lemma FirstWalk(d: seq<byte>, root: seq<byte>, inode: seq<byte>, size: nat)
    requires |root| == SECT && SlotSize(root, 0) == size && SlotInode(root, 0) == DIR_BLOCK + 1
    requires BlockAt(d, DIR_BLOCK + 1) == inode && |inode| == SECT
    ensures SlotContent(d, root, 0) == Walk(d, inode, 0, size)
  {
  }

  lemma UsualFirst(d: seq<byte>, garbage: seq<byte>, name: seq<byte>, content: seq<byte>)
    requires |garbage| == SECT && FirstSlot(garbage) == 0 && NameFits(name) && BlockCount(content) <= INODE_WORDS
    requires Formatted(d, garbage, name, content)
    ensures SlotContent(d, DirImage(garbage, name, |content|), 0)
         == if |content| <= MAX_FILE then Ok(content) else Err(OutOfBounds)
  {
    var blks := DataBlocks(garbage, content);
    UsualDir(garbage, name, |content|);
    DirFirst(garbage, name, |content|);
    BlocksApart(garbage, content);
    FirstWalk(d, DirImage(garbage, name, |content|), InodeImage(blks), |content|);
    NoSentinel(garbage, content);
    InodeImageLists(blks);
    FileReads(d, InodeImage(blks), blks, content);
  }

  /** Nothing comes out of block `b` read as an inode. */
  predicate ReadsNothing(d: seq<byte>, b: nat, size: nat)
    requires size < TWO32
  {
    |BlockAt(d, b)| == SECT && Walk(d, BlockAt(d, b), 0, size) == Ok([])
  }

  lemma SlotSilent(d: seq<byte>, root: seq<byte>, i: nat)
    requires |root| == SECT && i < SLOTS
    ensures SlotContent(d, root, i) == Ok([]) <==>
      SlotInode(root, i) == 0 || ReadsNothing(d, Named(SlotInode(root, i)), SlotSize(root, i))
  {
  }

  lemma DataBlock(d: seq<byte>, chunk: seq<byte>, size: nat, blocks: nat)
    requires |d| == SECT * blocks && |chunk| == SECT && size < TWO32
    ensures Walk(d, chunk, 0, size) == Ok([]) <==> ReadsEmpty(chunk, size, blocks)
  {
    WalkSilent(d, chunk, size);
    BlockWhole(d, Named(Word(chunk, 0)), blocks);
  }

  /** Block by block: bitmap, directory and what is not there, inode, data. */
  lemma UsualMeta(d: seq<byte>, garbage: seq<byte>, name: seq<byte>, content: seq<byte>, b: nat, size: nat)
    requires |garbage| == SECT && FirstSlot(garbage) == 0 && NameFits(name) && BlockCount(content) <= INODE_WORDS
    requires Formatted(d, garbage, name, content) && size < TWO32
    requires b <= DIR_BLOCK || b >= DIR_BLOCK + 2 + BlockCount(content)
    ensures ReadsNothing(d, b, size) == EmptyBlock(b, size, content)
  {
    if b < DIR_BLOCK {
      BitmapBlock(d, b, DIR_BLOCK + 2 + BlockCount(content), size);
    } else if b == DIR_BLOCK {
      UsualDir(garbage, name, |content|);
      DirName(garbage, name, |content|);
      DirBlock(d, BlockAt(d, b), size);
    } else {
      BlockWhole(d, b, DIR_BLOCK + 2 + BlockCount(content));
    }
  }

  lemma InodeCase(d: seq<byte>, b: nat, blks: seq<nat>, content: seq<byte>, size: nat)
    requires InTable(blks) && SENTINEL !in blks && |blks| == BlockCount(content) && DataAt(d, blks, content)
    requires size < TWO32
    requires b == DIR_BLOCK + 1 && BlockAt(d, b) == InodeImage(blks)
    ensures ReadsNothing(d, b, size) == EmptyBlock(b, size, content)
  {
    InodeBlock(d, blks, size);
  }

  lemma UsualInode(d: seq<byte>, garbage: seq<byte>, name: seq<byte>, content: seq<byte>, b: nat, size: nat)
    requires |garbage| == SECT && FirstSlot(garbage) == 0 && NameFits(name) && BlockCount(content) <= INODE_WORDS
    requires Formatted(d, garbage, name, content) && size < TWO32 && b == DIR_BLOCK + 1
    ensures ReadsNothing(d, b, size) == EmptyBlock(b, size, content)
  {
    BlocksApart(garbage, content);
    NoSentinel(garbage, content);
    InodeCase(d, b, DataBlocks(garbage, content), content, size);
  }

  lemma UsualChunk(d: seq<byte>, garbage: seq<byte>, name: seq<byte>, content: seq<byte>, b: nat)
    requires |garbage| == SECT && FirstSlot(garbage) == 0 && NameFits(name) && BlockCount(content) <= INODE_WORDS
    requires Formatted(d, garbage, name, content) && DIR_BLOCK + 2 <= b < DIR_BLOCK + 2 + BlockCount(content)
    ensures |d| == SECT * (DIR_BLOCK + 2 + BlockCount(content))
    ensures BlockAt(d, b) == Chunk(content, b - (DIR_BLOCK + 2))
  {
    BlocksApart(garbage, content);
    assert Named(DataBlocks(garbage, content)[b - (DIR_BLOCK + 2)]) == b;
  }

  lemma DataCase(d: seq<byte>, b: nat, content: seq<byte>, size: nat)
    requires |d| == SECT * (DIR_BLOCK + 2 + BlockCount(content)) && size < TWO32
    requires DIR_BLOCK + 2 <= b < DIR_BLOCK + 2 + BlockCount(content)
    requires BlockAt(d, b) == Chunk(content, b - (DIR_BLOCK + 2))
    ensures ReadsNothing(d, b, size) == EmptyBlock(b, size, content)
  {
    DataBlock(d, Chunk(content, b - (DIR_BLOCK + 2)), size, DIR_BLOCK + 2 + BlockCount(content));
  }

  lemma UsualData(d: seq<byte>, garbage: seq<byte>, name: seq<byte>, content: seq<byte>, b: nat, size: nat)
    requires |garbage| == SECT && FirstSlot(garbage) == 0 && NameFits(name) && BlockCount(content) <= INODE_WORDS
    requires Formatted(d, garbage, name, content) && size < TWO32
    requires DIR_BLOCK + 2 <= b < DIR_BLOCK + 2 + BlockCount(content)
    ensures ReadsNothing(d, b, size) == EmptyBlock(b, size, content)
  {
    UsualChunk(d, garbage, name, content, b);
    DataCase(d, b, content, size);
  }

  lemma UsualOther(d: seq<byte>, garbage: seq<byte>, name: seq<byte>, content: seq<byte>, b: nat, size: nat)
    requires |garbage| == SECT && FirstSlot(garbage) == 0 && NameFits(name) && BlockCount(content) <= INODE_WORDS
    requires Formatted(d, garbage, name, content) && size < TWO32
    requires b < DIR_BLOCK + 2 || b >= DIR_BLOCK + 2 + BlockCount(content)
    ensures ReadsNothing(d, b, size) == EmptyBlock(b, size, content)
  {
    if b == DIR_BLOCK + 1 {
      UsualInode(d, garbage, name, content, b, size);
    } else {
      UsualMeta(d, garbage, name, content, b, size);
    }
  }

  lemma UsualBlock(d: seq<byte>, garbage: seq<byte>, name: seq<byte>, content: seq<byte>, b: nat, size: nat)
    requires |garbage| == SECT && FirstSlot(garbage) == 0 && NameFits(name) && BlockCount(content) <= INODE_WORDS
    requires Formatted(d, garbage, name, content) && size < TWO32
    ensures ReadsNothing(d, b, size) == EmptyBlock(b, size, content)
  {
    if DIR_BLOCK + 2 <= b < DIR_BLOCK + 2 + BlockCount(content) {
      UsualData(d, garbage, name, content, b, size);
    } else {
      UsualOther(d, garbage, name, content, b, size);
    }
  }

  lemma UsualSlot(d: seq<byte>, garbage: seq<byte>, name: seq<byte>, content: seq<byte>, i: nat)
    requires |garbage| == SECT && FirstSlot(garbage) == 0 && NameFits(name) && BlockCount(content) <= INODE_WORDS
    requires Formatted(d, garbage, name, content) && 0 < i < SLOTS
    ensures SlotContent(d, DirImage(garbage, name, |content|), i) == Ok([])
            <==> Silent(SlotInode(garbage, i), SlotSize(garbage, i), content)
  {
    UsualDir(garbage, name, |content|);
    DirOther(garbage, name, |content|, i);
    SlotSilent(d, DirImage(garbage, name, |content|), i);
    UsualBlock(d, garbage, name, content, Named(SlotInode(garbage, i)), SlotSize(garbage, i));
  }

  /** So the file comes back exactly when the other slots are silent. */
  lemma UsualRoundTrip(d: seq<byte>, garbage: seq<byte>, name: seq<byte>, content: seq<byte>)
    requires |garbage| == SECT && FirstSlot(garbage) == 0 && NameFits(name) && BlockCount(content) <= INODE_WORDS
    requires Formatted(d, garbage, name, content)
    ensures var out := Scan(d, DirImage(garbage, name, |content|), 0);
            && (|content| > MAX_FILE ==> out == Err(OutOfBounds))
            && (out == Ok(content) <==> |content| <= MAX_FILE && SlotsSilent(garbage, content))
  {
    var root := DirImage(garbage, name, |content|);
    UsualFirst(d, garbage, name, content);
    ScanSilent(d, root, 1);
    forall i: nat | 0 < i < SLOTS
      ensures SlotContent(d, root, i) == Ok([]) <==> Silent(SlotInode(garbage, i), SlotSize(garbage, i), content)
    {
      UsualSlot(d, garbage, name, content, i);
    }
  }

  // ----- slot 0 looks full, a later one free: the file is out of reach -----

  lemma LateSlotDir(garbage: seq<byte>, name: seq<byte>, size: nat)
    requires |garbage| == SECT && 0 < FirstSlot(garbage) < SLOTS && NameFits(name) && size < TWO32
    ensures var w := SlotInode(DirImage(garbage, name, size), 0); Named(w) == BLOCKS - 1 && w != 0
  {
    FirstSlotKept(garbage);
    SlotKept(garbage, 0);
    WithSlotFields(NamedDir(garbage), FirstSlot(garbage), name, size, DIR_BLOCK + 1);
    assert Named(NO_INODE) == BLOCKS - 1;
  }

  lemma LateSlotFails(d: seq<byte>, garbage: seq<byte>, name: seq<byte>, content: seq<byte>)
    requires |garbage| == SECT && 0 < FirstSlot(garbage) < SLOTS && NameFits(name) && BlockCount(content) <= INODE_WORDS
    requires Formatted(d, garbage, name, content)
    ensures Scan(d, DirImage(garbage, name, |content|), 0) == Err(ShortRead)
  {
    LateSlotDir(garbage, name, |content|);
    BlockWhole(d, BLOCKS - 1, DIR_BLOCK + 2 + BlockCount(content));
  }

  // ----- every slot looks full: all 15 name the inode -----

  /** What `size` lets through of a block. */
  function Cut(chunk: seq<byte>, size: nat): seq<byte>
    requires |chunk| == SECT
  {
    chunk[..Min(size, SECT)]
  }

  /** And what the slots from `i` on let through, one after the other. */
  function Cuts(dir: seq<byte>, chunk: seq<byte>, i: nat): seq<byte>
    requires |dir| == SECT && |chunk| == SECT && i <= SLOTS
    decreases SLOTS - i
  {
    if i == SLOTS then [] else Cut(chunk, SlotSize(dir, i)) + Cuts(dir, chunk, i + 1)
  }

  /** All but at most one of the blocks from `j` on come out whole, because the count
      of bytes left wraps once it passes 0. */
  lemma {:induction false} WalkLength(d: seq<byte>, inode: seq<byte>, blks: seq<nat>, j: nat, filesz: nat)
    requires |inode| == SECT && |blks| < INODE_WORDS && j <= |blks| && filesz < TWO32
    requires InodeLists(inode, blks) && SENTINEL !in blks
    requires forall k :: 0 <= k < |blks| ==> |BlockAt(d, Named(blks[k]))| == SECT
    ensures var out := Walk(d, inode, j, filesz);
            && out.Ok? && (filesz >= SECT * (|blks| - j) ==> |out.value| == SECT * (|blks| - j))
            && |out.value| >= SECT * (|blks| - j - 1)
    decreases |blks| - j
  {
    if j < |blks| {
      WalkLength(d, inode, blks, j + 1, Sub32(filesz, SECT));
    }
  }

  lemma {:induction false} ScanOk(d: seq<byte>, root: seq<byte>, i: nat)
    requires |root| == SECT && i <= SLOTS && forall k :: i <= k < SLOTS ==> SlotContent(d, root, k).Ok?
    ensures Scan(d, root, i).Ok?
    ensures i < SLOTS ==> |Scan(d, root, i).value| == |SlotContent(d, root, i).value| + |Scan(d, root, i + 1).value|
    decreases SLOTS - i
  {
    if i < SLOTS {
      ScanOk(d, root, i + 1);
    }
  }

  /** Three slots that each let `len` bytes through. */
  lemma ScanLength(d: seq<byte>, root: seq<byte>, len: nat)
    requires |root| == SECT
    requires forall k :: 0 <= k < SLOTS ==> SlotContent(d, root, k).Ok? && |SlotContent(d, root, k).value| >= len
    ensures Scan(d, root, 0).Ok? && |Scan(d, root, 0).value| >= 3 * len
  {
    ScanOk(d, root, 0);
    ScanOk(d, root, 1);
    ScanOk(d, root, 2);
  }

  lemma {:induction false} ScanCuts(d: seq<byte>, root: seq<byte>, chunk: seq<byte>, i: nat)
    requires |root| == SECT && |chunk| == SECT && i <= SLOTS
    requires forall k :: i <= k < SLOTS ==> SlotContent(d, root, k) == Ok(Cut(chunk, SlotSize(root, k)))
    ensures Scan(d, root, i) == Ok(Cuts(root, chunk, i))
    decreases SLOTS - i
  {
    if i < SLOTS {
      ScanCuts(d, root, chunk, i + 1);
    }
  }

  lemma {:induction false} AllFull(dir: seq<byte>, from: nat, i: nat)
    requires |dir| == SECT && from <= i < SLOTS && FirstSlot(dir, from) == SLOTS
    ensures SlotInode(dir, i) == NO_INODE
    decreases i - from
  {
    if from < i {
      AllFull(dir, from + 1, i);
    }
  }

  lemma FullDir(garbage: seq<byte>, name: seq<byte>, size: nat, i: nat)
    requires |garbage| == SECT && FirstSlot(garbage) == SLOTS && NameFits(name) && size < TWO32 && i < SLOTS
    ensures var dir := DirImage(garbage, name, size);
            SlotInode(dir, i) == NO_INODE && SlotSize(dir, i) == SlotSize(garbage, i)
  {
    FirstSlotKept(garbage);
    SlotKept(garbage, i);
    AllFull(garbage, 0, i);
  }

  /** Then each slot reads the file's inode, with the size it holds itself. */
  lemma FullSlot(d: seq<byte>, garbage: seq<byte>, name: seq<byte>, content: seq<byte>, i: nat)
    requires |garbage| == SECT && FirstSlot(garbage) == SLOTS && NameFits(name) && BlockCount(content) <= INODE_WORDS
    requires Formatted(d, garbage, name, content) && i < SLOTS
    ensures var dir := DirImage(garbage, name, |content|);
            && SlotSize(dir, i) == SlotSize(garbage, i)
            && SlotContent(d, dir, i) == Walk(d, InodeImage(DataBlocks(garbage, content)), 0, SlotSize(garbage, i))
  {
    FullDir(garbage, name, |content|, i);
    BlockWhole(d, BLOCKS - 1, BLOCKS);
    InodeNamed(garbage);
  }

  lemma {:induction false} WalkOut(d: seq<byte>, inode: seq<byte>, blks: seq<nat>, j: nat, filesz: nat)
    requires |inode| == SECT && |blks| == INODE_WORDS && j <= |blks| && filesz < TWO32
    requires InodeLists(inode, blks) && SENTINEL !in blks
    requires forall k :: 0 <= k < |blks| ==> |BlockAt(d, Named(blks[k]))| == SECT
    ensures Walk(d, inode, j, filesz) == Err(OutOfBounds)
    decreases |blks| - j
  {
    if j < |blks| {
      WalkOut(d, inode, blks, j + 1, Sub32(filesz, SECT));
    }
  }

  /** The inode's walk in such an image, by the number of blocks. */
  lemma FullWalk(d: seq<byte>, blks: seq<nat>, content: seq<byte>, size: nat)
    requires InTable(blks) && |blks| == BlockCount(content) && SENTINEL !in blks && DataAt(d, blks, content)
    requires size < TWO32
    ensures var n, out := |blks|, Walk(d, InodeImage(blks), 0, size);
            && (n == INODE_WORDS ==> out == Err(OutOfBounds))
            && (n < INODE_WORDS ==> out.Ok? && |out.value| >= SECT * (n - 1))
            && (n == 0 ==> out == Ok([])) && (n == 1 ==> out == Ok(Cut(Chunk(content, 0), size)))
  {
    InodeImageLists(blks);
    forall k | 0 <= k < |blks| ensures |BlockAt(d, Named(blks[k]))| == SECT {
      assert BlockAt(d, Named(blks[k])) == Chunk(content, k);
    }
    if |blks| == INODE_WORDS {
      WalkOut(d, InodeImage(blks), blks, 0, size);
    } else {
      WalkLength(d, InodeImage(blks), blks, 0, size);
      if |blks| == 1 {
        assert Walk(d, InodeImage(blks), 1, Sub32(size, SECT)) == Ok([]);
      }
    }
  }

  /** What slot `i` of such a directory outputs. */
  ghost predicate FullOutput(d: seq<byte>, root: seq<byte>, content: seq<byte>, i: nat)
    requires |root| == SECT && i < SLOTS
  {
    var n, out := BlockCount(content), SlotContent(d, root, i);
    && (n == INODE_WORDS ==> out == Err(OutOfBounds))
    && (n < INODE_WORDS ==> out.Ok? && |out.value| >= SECT * (n - 1))
    && (n == 0 ==> out == Ok([])) && (n == 1 ==> out == Ok(Cut(Chunk(content, 0), SlotSize(root, i))))
  }

  lemma FullSlots(d: seq<byte>, garbage: seq<byte>, name: seq<byte>, content: seq<byte>, i: nat)
    requires |garbage| == SECT && FirstSlot(garbage) == SLOTS && NameFits(name) && BlockCount(content) <= INODE_WORDS
    requires Formatted(d, garbage, name, content) && i < SLOTS
    ensures FullOutput(d, DirImage(garbage, name, |content|), content, i)
    ensures SlotSize(DirImage(garbage, name, |content|), i) == SlotSize(garbage, i)
  {
    FullSlot(d, garbage, name, content, i);
    BlocksApart(garbage, content);
    NoSentinel(garbage, content);
    FullWalk(d, DataBlocks(garbage, content), content, SlotSize(garbage, i));
  }

  /** How many bytes slot `i` lets through of a block. */
  function CutSize(dir: seq<byte>, i: nat): nat
    requires |dir| == SECT && i < SLOTS
  {
    Min(SlotSize(dir, i), SECT)
  }

  /** And how many the slots before it do. */
  function CutOffset(dir: seq<byte>, i: nat): nat
    requires |dir| == SECT && i <= SLOTS
  {
    if i == 0 then 0 else CutOffset(dir, i - 1) + CutSize(dir, i - 1)
  }

  /** What slot `i` lets through is in its place in the file: the file repeats its
      own start there. */
  predicate CutInPlace(dir: seq<byte>, content: seq<byte>, i: nat)
    requires |dir| == SECT && i < SLOTS
  {
    var at, n := CutOffset(dir, i), CutSize(dir, i);
    at + n <= |content| && content[at..at + n] == content[..n]
  }

  /** When the file comes back all the same: it is empty, or one block, whose length
      is the sum of the sizes, and every slot's share of it is in place. */
  predicate FullHarmless(dir: seq<byte>, content: seq<byte>)
    requires |dir| == SECT
  {
    content == [] || (|content| <= SECT && CutOffset(dir, SLOTS) == |content|
                      && forall i :: 0 <= i < SLOTS ==> CutInPlace(dir, content, i))
  }

  lemma {:induction false} CutsLength(dir: seq<byte>, chunk: seq<byte>, i: nat)
    requires |dir| == SECT && |chunk| == SECT && i <= SLOTS
    ensures CutOffset(dir, i) + |Cuts(dir, chunk, i)| == CutOffset(dir, SLOTS)
    decreases SLOTS - i
  {
    if i < SLOTS {
      CutsLength(dir, chunk, i + 1);
    }
  }

  lemma {:induction false} CutsInPlace(dir: seq<byte>, content: seq<byte>, i: nat)
    requires |dir| == SECT && i <= SLOTS && |content| <= SECT && CutOffset(dir, i) <= CutOffset(dir, SLOTS) == |content|
    ensures Cuts(dir, Chunk(content, 0), i) == content[CutOffset(dir, i)..]
            <==> forall k :: i <= k < SLOTS ==> CutInPlace(dir, content, k)
    decreases SLOTS - i
  {
    if i < SLOTS {
      CutsLength(dir, Chunk(content, 0), i);
      CutsLength(dir, Chunk(content, 0), i + 1);
      CutsInPlace(dir, content, i + 1);
      NextCut(dir, content, i);
    }
  }

  /** One cut, and the cuts behind it. */
  lemma NextCut(dir: seq<byte>, content: seq<byte>, i: nat)
    requires |dir| == SECT && i < SLOTS && |content| <= SECT && CutOffset(dir, i + 1) <= |content|
    ensures Cuts(dir, Chunk(content, 0), i) == content[CutOffset(dir, i)..]
            <==> CutInPlace(dir, content, i) && Cuts(dir, Chunk(content, 0), i + 1) == content[CutOffset(dir, i + 1)..]
  {
    var at, n := CutOffset(dir, i), CutSize(dir, i);
    var cut, rest := Cut(Chunk(content, 0), SlotSize(dir, i)), Cuts(dir, Chunk(content, 0), i + 1);
    assert cut == content[..n];
    assert content[at..] == content[at..at + n] + content[at + n..];
    EqualParts(cut, rest, content[at..at + n], content[at + n..]);
  }

  lemma EqualParts(a: seq<byte>, b: seq<byte>, a': seq<byte>, b': seq<byte>)
    requires |a| == |a'|
    ensures a + b == a' + b' <==> a == a' && b == b'
  {
    assert a == (a + b)[..|a|] && b == (a + b)[|a|..];
    assert a' == (a' + b')[..|a|] && b' == (a' + b')[|a|..];
  }

  lemma CutsIff(dir: seq<byte>, content: seq<byte>)
    requires |dir| == SECT && BlockCount(content) == 1
    ensures Cuts(dir, Chunk(content, 0), 0) == content <==> FullHarmless(dir, content)
  {
    CutsLength(dir, Chunk(content, 0), 0);
    if CutOffset(dir, SLOTS) == |content| {
      CutsInPlace(dir, content, 0);
      assert content[0..] == content;
    }
  }

  ghost predicate FullOutputs(d: seq<byte>, root: seq<byte>, content: seq<byte>)
    requires |root| == SECT
  {
    forall i: nat :: i < SLOTS ==> FullOutput(d, root, content, i)
  }

  lemma FullScanEmpty(d: seq<byte>, root: seq<byte>, content: seq<byte>)
    requires |root| == SECT && FullOutputs(d, root, content) && content == []
    ensures Scan(d, root, 0) == Ok([])
  {
    assert BlockCount(content) == 0;
    forall k | 0 <= k < SLOTS ensures SlotContent(d, root, k) == Ok([]) {
      assert FullOutput(d, root, content, k);
    }
    ScanSilent(d, root, 0);
  }

  lemma FullScanOne(d: seq<byte>, root: seq<byte>, content: seq<byte>)
    requires |root| == SECT && FullOutputs(d, root, content) && BlockCount(content) == 1
    ensures Scan(d, root, 0) == Ok(Cuts(root, Chunk(content, 0), 0))
  {
    forall k | 0 <= k < SLOTS ensures SlotContent(d, root, k) == Ok(Cut(Chunk(content, 0), SlotSize(root, k))) {
      assert FullOutput(d, root, content, k);
    }
    ScanCuts(d, root, Chunk(content, 0), 0);
  }

  lemma FullScanMore(d: seq<byte>, root: seq<byte>, content: seq<byte>)
    requires |root| == SECT && FullOutputs(d, root, content) && 1 < BlockCount(content) <= INODE_WORDS
    ensures Scan(d, root, 0) != Ok(content)
  {
    var n := BlockCount(content);
    assert FullOutput(d, root, content, 0);
    if n < INODE_WORDS {
      forall k | 0 <= k < SLOTS
        ensures SlotContent(d, root, k).Ok? && |SlotContent(d, root, k).value| >= SECT * (n - 1)
      {
        assert FullOutput(d, root, content, k);
      }
      ScanLength(d, root, SECT * (n - 1));
      assert 3 * (SECT * (n - 1)) > SECT * n >= |content|;
    }
  }

  lemma FullScan(d: seq<byte>, root: seq<byte>, content: seq<byte>)
    requires |root| == SECT && BlockCount(content) <= INODE_WORDS && FullOutputs(d, root, content)
    ensures Scan(d, root, 0) == Ok(content) <==> |content| <= MAX_FILE && FullHarmless(root, content)
  {
    if content == [] {
      FullScanEmpty(d, root, content);
    } else if BlockCount(content) == 1 {
      FullScanOne(d, root, content);
      CutsIff(root, content);
    } else {
      FullScanMore(d, root, content);
    }
  }

  lemma {:induction false} OffsetSame(dir: seq<byte>, dir': seq<byte>, i: nat)
    requires |dir| == SECT == |dir'| && i <= SLOTS
    requires forall k: nat :: k < SLOTS ==> SlotSize(dir, k) == SlotSize(dir', k)
    ensures CutOffset(dir, i) == CutOffset(dir', i)
  {
    if i > 0 {
      OffsetSame(dir, dir', i - 1);
    }
  }

  lemma HarmlessSame(dir: seq<byte>, dir': seq<byte>, content: seq<byte>)
    requires |dir| == SECT == |dir'|
    requires forall k: nat :: k < SLOTS ==> SlotSize(dir, k) == SlotSize(dir', k)
    ensures FullHarmless(dir, content) == FullHarmless(dir', content)
  {
    OffsetSame(dir, dir', SLOTS);
    forall i | 0 <= i < SLOTS ensures CutInPlace(dir, content, i) == CutInPlace(dir', content, i) {
      OffsetSame(dir, dir', i);
    }
  }

  lemma FullRoundTrip(d: seq<byte>, garbage: seq<byte>, name: seq<byte>, content: seq<byte>)
    requires |garbage| == SECT && FirstSlot(garbage) == SLOTS && NameFits(name) && BlockCount(content) <= INODE_WORDS
    requires Formatted(d, garbage, name, content)
    ensures Scan(d, DirImage(garbage, name, |content|), 0) == Ok(content)
            <==> |content| <= MAX_FILE && FullHarmless(garbage, content)
  {
    var root := DirImage(garbage, name, |content|);
    forall i: nat | i < SLOTS ensures FullOutput(d, root, content, i) && SlotSize(root, i) == SlotSize(garbage, i) {
      FullSlots(d, garbage, name, content, i);
    }
    FullScan(d, root, content);
    HarmlessSame(root, garbage, content);
  }

  // ----- the whole round trip -----

  /** When garbage in the uninitialised directory does no harm: slot 0 looks free and
      the others stay silent, or all look full and their sizes happen to cut the file
      out of copies of its one block. */
  predicate Harmless(garbage: seq<byte>, content: seq<byte>)
    requires |garbage| == SECT
  {
    if FirstSlot(garbage) == SLOTS then FullHarmless(garbage, content)
    else SlotInode(garbage, 0) != NO_INODE && SlotsSilent(garbage, content)
  }

  lemma RootIsDirBlock(d: seq<byte>)
    requires |BlockAt(d, DIR_BLOCK)| == SECT
    ensures Extracted(d) == Scan(d, BlockAt(d, DIR_BLOCK), 0)
  {
    var root := BlockAt(d, DIR_BLOCK);
    assert SECT * DIR_BLOCK == BITMAP_BYTES;
    assert Splice(Zeros(SECT), 0, root) == root;
  }

  /** Extracting a formatted image gives the file back exactly when it leaves room
      for the sentinel in its inode and the garbage is harmless. */
  lemma RoundTripIff(d: seq<byte>, garbage: seq<byte>, name: seq<byte>, content: seq<byte>)
    requires |garbage| == SECT && NameFits(name) && BlockCount(content) <= INODE_WORDS
    requires Formatted(d, garbage, name, content)
    ensures Extracted(d) == Ok(content) <==> |content| <= MAX_FILE && Harmless(garbage, content)
    ensures FirstSlot(garbage) == 0 && |content| > MAX_FILE ==> Extracted(d) == Err(OutOfBounds)
  {
    RootIsDirBlock(d);
    if FirstSlot(garbage) == SLOTS {
      FullRoundTrip(d, garbage, name, content);
    } else if FirstSlot(garbage) == 0 {
      UsualRoundTrip(d, garbage, name, content);
    } else {
      LateSlotFails(d, garbage, name, content);
    }
  }

  /** `gen-disk` then `extract`, for every file, name and stack. */
  method FormatThenExtract(name: seq<byte>, content: seq<byte>, garbage: seq<byte>) returns (r: Result<seq<byte>>)
    requires NameFits(name) && |garbage| == SECT
    ensures r == Ok(content) <==> |content| <= MAX_FILE && Harmless(garbage, content)
    ensures FirstSlot(garbage) == 0 && |content| > MAX_FILE ==> r == Err(OutOfBounds)
  {
    var fp := new File(content);
    var formatted, bm := Format(name, fp, garbage);
    if formatted.Err? {
      return Err(OutOfBounds);
    }
    var disk := formatted.value;
    disk.Seek(0);
    RoundTripIff(disk.bytes, garbage, name, content);
    r := Extract(disk);
  }

  // ----- some directories -----

  /** A zeroed directory, or one with nothing but silence in it, is harmless for
      every file. */
  lemma EmptyDirHarmless(garbage: seq<byte>, content: seq<byte>)
    requires |garbage| == SECT && SlotInode(garbage, 0) != NO_INODE
    requires forall i: nat :: 0 < i < SLOTS ==> SlotInode(garbage, i) == 0
    ensures Harmless(garbage, content)
  {
  }

  /** A zeroed directory but for the inode word of slot 1. */
  function StrayDir(w: nat): (dir: seq<byte>)
    requires w < TWO32
    ensures |dir| == SECT
  {
    Splice(Zeros(SECT), SlotAt(1) + 28, WordBytes(w))
  }

  lemma StrayDirSlot(w: nat, i: nat)
    requires w < TWO32 && i < SLOTS
    ensures SlotInode(StrayDir(w), i) == (if i == 1 then w else 0) && SlotSize(StrayDir(w), i) == 0
  {
  }

  lemma StrayHarmless(w: nat, content: seq<byte>)
    requires w < TWO32
    ensures Harmless(StrayDir(w), content) <==> Silent(w, 0, content)
  {
    StrayDirSlot(w, 0);
    StrayDirSlot(w, 1);
    forall i: nat | 1 < i < SLOTS ensures Silent(SlotInode(StrayDir(w), i), SlotSize(StrayDir(w), i), content) {
      StrayDirSlot(w, i);
    }
  }

  lemma StrayBlocks(content: seq<byte>)
    ensures !EmptyBlock(1, 0, content)
    ensures EmptyBlock(DIR_BLOCK + 1, 0, content) <==> |content| <= SECT
  {
  }

  /** If it names block 1 no file comes back. */
  lemma StrayDirLoses(content: seq<byte>)
    ensures !Harmless(StrayDir(1), content)
  {
    StrayHarmless(1, content);
    StrayBlocks(content);
  }

  /** If it names the block the file's own inode goes to, files of up to one block do. */
  lemma SameInodeDir(content: seq<byte>)
    ensures Harmless(StrayDir(DIR_BLOCK + 1), content) <==> |content| <= SECT
  {
    StrayHarmless(DIR_BLOCK + 1, content);
    StrayBlocks(content);
  }
}
