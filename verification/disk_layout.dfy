/** The disk image byte by byte, as lib/fs.h lays it out. Nothing here goes through
    the functions the writer and the reader share. */
module DiskLayout {
  import opened Bytes
  import opened Bitmap
  import opened DiskFs
  import opened DiskExtract

  /** The little-endian 32-bit word at `o`. */
  function Le32(d: seq<byte>, o: nat): nat
    requires o + 4 <= |d|
  {
    d[o] as nat + 256 * d[o + 1] as nat + 65536 * d[o + 2] as nat + 16777216 * d[o + 3] as nat
  }

  // ----- the writer -----

  /** Slot `i` is the first whose inode word is not ~0. */
  predicate FirstFree(garbage: seq<byte>, i: nat)
    requires |garbage| == 512
  {
    i < 15 && Le32(garbage, 60 + 32 * i) != 0xffff_ffff && forall k: nat :: k < i ==> LooksFull(garbage, k)
  }

  predicate LooksFull(garbage: seq<byte>, k: nat)
    requires |garbage| == 512 && k < 15
  {
    Le32(garbage, 60 + 32 * k) == 0xffff_ffff
  }

  /** 256 blocks of bitmap: the first `m` bits set, from the low end of each byte. */
  ghost predicate BitmapPart(d: seq<byte>, m: nat)
    requires |d| >= 131072
  {
    forall k :: 0 <= k < 131072 ==>
      d[k] == if k < m / 8 then 255 else if k == m / 8 then [0, 1, 3, 7, 15, 31, 63, 127][m % 8] else 0
  }

  /** The directory block: its name, and in slot `i` the file's name, size and inode;
      every other byte is what the stack held. */
  ghost predicate DirLayout(dir: seq<byte>, garbage: seq<byte>, name: seq<byte>, size: nat, i: nat)
    requires |dir| == |garbage| == 512 && i < 15 && |name| < 24
  {
    var at := 32 + 32 * i;
    && dir[..6] == [104, 101, 108, 108, 111, 0]
    && dir[at..at + |name| + 1] == name + [0] && Le32(dir, at + 24) == size && Le32(dir, at + 28) == 257
    && forall k :: 6 <= k < 512 && !SlotByte(i, |name|, k) ==> dir[k] == garbage[k]
  }

  /** Byte `k` of the directory is one of the name, size or inode of slot `i`. */
  predicate SlotByte(i: nat, len: nat, k: nat) {
    32 + 32 * i <= k <= 32 + 32 * i + len || 56 + 32 * i <= k < 64 + 32 * i
  }

  /** Block 257: the numbers of the blocks after it, then 0xcc to its end. */
  ghost predicate InodeLayout(inode: seq<byte>, n: nat)
    requires |inode| == 512 && n <= 120
  {
    && (forall j :: 0 <= j < n ==> Le32(inode, 4 * j) == 258 + j)
    && inode[4 * n..] == seq(512 - 4 * n, _ => 0xcc)
  }

  /** The content, padded with zeros to whole blocks. */
  ghost predicate DataPart(d: seq<byte>, content: seq<byte>)
    requires |d| >= 132096
  {
    && |d| == 132096 + (|content| + 511) / 512 * 512
    && forall k :: 0 <= k < |d| - 132096 ==> d[132096 + k] == if k < |content| then content[k] else 0
  }

  lemma {:induction false} FreeFrom(garbage: seq<byte>, i: nat, from: nat)
    requires |garbage| == SECT && FirstFree(garbage, i) && from <= i
    ensures FirstSlot(garbage, from) == i
    decreases i - from
  {
    if from < i {
      assert LooksFull(garbage, from);
      FreeFrom(garbage, i, from + 1);
    }
  }

  lemma BlockByte(d: seq<byte>, b: nat, k: nat)
    requires |BlockAt(d, b)| == SECT && k < SECT
    ensures SECT * b + k < |d| && BlockAt(d, b)[k] == d[SECT * b + k]
  {
  }

  lemma SlotFields(dir: seq<byte>, i: nat, name: seq<byte>, size: nat, inode: nat)
    requires |dir| == SECT && i < SLOTS && NameFits(name) && size < TWO32 && inode < TWO32
    ensures var r := WithSlot(dir, i, name, size, inode);
            && r[32 + 32 * i..32 + 32 * i + |name| + 1] == name + [0]
            && Le32(r, 32 + 32 * i + 24) == size && Le32(r, 32 + 32 * i + 28) == inode
  {
    WithSlotFields(dir, i, name, size, inode);
  }

  lemma SlotRest(dir: seq<byte>, i: nat, name: seq<byte>, size: nat, inode: nat, k: nat)
    requires |dir| == SECT && i < SLOTS && NameFits(name) && size < TWO32 && inode < TWO32
    requires k < 512 && !SlotByte(i, |name|, k)
    ensures WithSlot(dir, i, name, size, inode)[k] == dir[k]
  {
  }

  lemma DirSlot(garbage: seq<byte>, name: seq<byte>, size: nat, i: nat, inode: nat)
    requires |garbage| == SECT && i < SLOTS && NameFits(name) && size < TWO32 && inode == 257
    ensures DirLayout(WithSlot(NamedDir(garbage), i, name, size, inode), garbage, name, size, i)
  {
    var r := WithSlot(NamedDir(garbage), i, name, size, inode);
    SlotFields(NamedDir(garbage), i, name, size, inode);
    forall k: nat | k < 512 && !SlotByte(i, |name|, k) ensures r[k] == NamedDir(garbage)[k] {
      SlotRest(NamedDir(garbage), i, name, size, inode, k);
    }
    assert r[..6] == NamedDir(garbage)[..6] == DIR_NAME;
  }

  lemma SlotTaken(dir: seq<byte>, name: seq<byte>, size: nat, inode: nat)
    requires |dir| == SECT && FirstSlot(dir) < SLOTS && NameFits(name) && size < TWO32 && inode < TWO32
    ensures WithFile(dir, name, size, inode) == WithSlot(dir, FirstSlot(dir), name, size, inode)
  {
  }

  lemma InodeIs(garbage: seq<byte>)
    requires |garbage| == SECT && FirstSlot(garbage) < SLOTS
    ensures InodeWord(garbage) == 257 && FirstData(garbage) == 258 && Named(257) == 257
  {
  }

  lemma DirImageIs(garbage: seq<byte>, name: seq<byte>, size: nat, i: nat, dir: seq<byte>)
    requires |garbage| == SECT && FirstSlot(garbage) == i < SLOTS && NameFits(name) && size < TWO32
    requires dir == DirImage(garbage, name, size)
    ensures dir == WithSlot(NamedDir(garbage), i, name, size, InodeWord(garbage))
  {
    FirstSlotKept(garbage);
    SlotTaken(NamedDir(garbage), name, size, InodeWord(garbage));
  }

  lemma DirBytes(dir: seq<byte>, garbage: seq<byte>, name: seq<byte>, size: nat, i: nat)
    requires |garbage| == SECT && FirstSlot(garbage) == i < SLOTS && NameFits(name) && size < TWO32
    requires dir == DirImage(garbage, name, size)
    ensures DirLayout(dir, garbage, name, size, i)
  {
    DirImageIs(garbage, name, size, i, dir);
    InodeIs(garbage);
    DirSlot(garbage, name, size, i, InodeWord(garbage));
  }

  lemma DirSlice(d: seq<byte>)
    requires |d| >= 131584
    ensures BlockAt(d, DIR_BLOCK) == d[131072..131584]
  {
  }

  lemma InodeSlice(d: seq<byte>)
    requires |d| >= 132096
    ensures BlockAt(d, 257) == d[131584..132096]
  {
  }

  lemma InodeWordAt(blks: seq<nat>, j: nat)
    requires InTable(blks) && j < |blks|
    ensures Le32(InodeImage(blks), 4 * j) == blks[j]
  {
    InodeImageLists(blks);
    assert Word(InodeImage(blks), 4 * j) == blks[j];
  }

  lemma InodeBytes(blks: seq<nat>)
    requires InTable(blks) && forall j :: 0 <= j < |blks| ==> blks[j] == 258 + j
    ensures InodeLayout(InodeImage(blks), |blks|)
  {
    forall j | 0 <= j < |blks| ensures Le32(InodeImage(blks), 4 * j) == 258 + j {
      InodeWordAt(blks, j);
    }
    var tail := InodeImage(blks)[4 * |blks|..];
    forall k: nat | k < |tail| ensures tail[k] == 0xcc {
      InodeTail(blks, 4 * |blks| + k);
    }
  }

  lemma DataBytes(d: seq<byte>, blks: seq<nat>, content: seq<byte>)
    requires |blks| == BlockCount(content) && DataAt(d, blks, content) && |d| == SECT * (258 + |blks|)
    requires forall j :: 0 <= j < |blks| ==> Named(blks[j]) == 258 + j
    ensures DataPart(d, content)
  {
    forall k | 0 <= k < |d| - 132096 ensures d[132096 + k] == if k < |content| then content[k] else 0 {
      var j := k / 512;
      assert BlockAt(d, Named(blks[j])) == Chunk(content, j);
      BlockByte(d, 258 + j, k % 512);
      assert 132096 + k == SECT * (258 + j) + k % 512;
    }
  }

  /** A byte whose low `r` bits are set. */
  function LowOnes(r: nat): byte {
    match r
    case 0 => 0
    case 1 => 1
    case 2 => 3
    case 3 => 7
    case 4 => 15
    case 5 => 31
    case 6 => 63
    case 7 => 127
    case _ => 255
  }

  lemma LowOnesByte(b: bv8, r: nat)
    requires forall j: nat :: j < 8 ==> (Bit(b, Low3(j)) <==> j < r)
    ensures b as int == LowOnes(r)
  {
    assert Bit(b, Low3(0)) == (0 < r) && Bit(b, Low3(1)) == (1 < r) && Bit(b, Low3(2)) == (2 < r);
    assert Bit(b, Low3(3)) == (3 < r) && Bit(b, Low3(4)) == (4 < r) && Bit(b, Low3(5)) == (5 < r);
    assert Bit(b, Low3(6)) == (6 < r) && Bit(b, Low3(7)) == (7 < r);
  }

  lemma PartlySet(data: seq<bv8>, m: nat, k: nat)
    requires Prefix(Flags(data), m) && k < |data|
    ensures data[k] as int
         == if k < m / 8 then 255 else if k == m / 8 then [0, 1, 3, 7, 15, 31, 63, 127][m % 8] else 0
  {
    var r := if m <= 8 * k then 0 else m - 8 * k;
    forall j: nat | j < 8 ensures Bit(data[k], Low3(j)) <==> j < r {
      FlagOfByte(data, k, j);
    }
    LowOnesByte(data[k], r);
  }

  lemma BitmapIs(d: seq<byte>, data: seq<bv8>, m: nat)
    requires |data| == 131072 && BitmapAt(d, data) && Prefix(Flags(data), m)
    ensures BitmapPart(d, m)
  {
    forall k: nat | k < 131072
      ensures d[k] == if k < m / 8 then 255 else if k == m / 8 then [0, 1, 3, 7, 15, 31, 63, 127][m % 8] else 0
    {
      PartlySet(data, m, k);
    }
  }

  /** The whole image. */
  ghost predicate ImageLayout(d: seq<byte>, garbage: seq<byte>, name: seq<byte>, content: seq<byte>, i: nat)
    requires |garbage| == 512 && i < 15 && |name| < 24 && |content| <= 61440
  {
    var n := (|content| + 511) / 512;
    |d| >= 132096 && DataPart(d, content) && BitmapPart(d, 258 + n) && InodeLayout(d[131584..132096], n)
    && DirLayout(d[131072..131584], garbage, name, |content|, i)
  }

  lemma Parts(d: seq<byte>, garbage: seq<byte>, name: seq<byte>, content: seq<byte>, i: nat)
    requires |garbage| == SECT && NameFits(name) && |content| <= 61440 && FirstFree(garbage, i)
    requires Formatted(d, garbage, name, content)
    ensures var blks := DataBlocks(garbage, content);
            && InTable(blks) && |blks| == (|content| + 511) / 512 && |d| == SECT * (258 + |blks|)
            && (forall j :: 0 <= j < |blks| ==> blks[j] == Named(blks[j]) == 258 + j)
            && BlockAt(d, DIR_BLOCK) == DirImage(garbage, name, |content|)
            && BlockAt(d, 257) == InodeImage(blks) && DataAt(d, blks, content)
  {
    FreeFrom(garbage, i, 0);
    InodeIs(garbage);
    BlocksApart(garbage, content);
    InodeNamed(garbage);
  }

  lemma ImageBytes(d: seq<byte>, data: seq<bv8>, garbage: seq<byte>, name: seq<byte>, content: seq<byte>, i: nat)
    requires |garbage| == 512 && NameFits(name) && |content| <= 61440 && FirstFree(garbage, i)
    requires Formatted(d, garbage, name, content)
    requires |data| == 131072 && BitmapAt(d, data) && Prefix(Flags(data), FirstData(garbage) + BlockCount(content))
    ensures ImageLayout(d, garbage, name, content, i)
  {
    var blks := DataBlocks(garbage, content);
    FreeFrom(garbage, i, 0);
    Parts(d, garbage, name, content, i);
    BitmapIs(d, data, 258 + |blks|);
    DirSlice(d);
    DirBytes(d[131072..131584], garbage, name, |content|, i);
    InodeSlice(d);
    InodeBytes(blks);
    DataBytes(d, blks, content);
  }

  /** main of format.c: what it writes, byte by byte, wherever the first slot that does
      not look full is. */
  method FormatBytes(name: seq<byte>, content: seq<byte>, garbage: seq<byte>, ghost i: nat) returns (image: seq<byte>)
    requires |name| < 24 && 0 !in name && |content| <= 61440 && |garbage| == 512 && FirstFree(garbage, i)
    ensures ImageLayout(image, garbage, name, content, i)
  {
    var fp := new File(content);
    var r, bm := Format(name, fp, garbage);
    image := r.value.bytes;
    FreeFrom(garbage, i, 0);
    ImageBytes(image, bm.data[..], garbage, name, content, i);
  }

  // ----- the reader -----

  /** The inode word of slot `i` of the image's directory. */
  function SlotWord(d: seq<byte>, i: nat): nat
    requires |d| >= 131584 && i < 15
  {
    Le32(d, 131132 + 32 * i)
  }

  lemma RootWords(d: seq<byte>, i: nat)
    requires |d| >= 131584 && i < SLOTS
    ensures var root := Splice(Zeros(SECT), 0, ReadAt(d, 131072, SECT));
            SlotInode(root, i) == SlotWord(d, i) && SlotSize(root, i) == Le32(d, 131128 + 32 * i)
  {
  }

  /** A directory with no inode in it: nothing comes out. */
  lemma EmptyRoot(d: seq<byte>)
    requires |d| >= 131584 && forall i: nat :: i < 15 ==> SlotWord(d, i) == 0
    ensures Extracted(d) == Ok([])
  {
    var root := Splice(Zeros(SECT), 0, ReadAt(d, 131072, SECT));
    forall i | 0 <= i < SLOTS ensures SlotContent(d, root, i) == Ok([]) {
      RootWords(d, i);
    }
    ScanSilent(d, root, 0);
  }

  /** Nor anything out of an image that ends before the first inode word. */
  lemma ShortImage(d: seq<byte>)
    requires |d| <= 131132
    ensures Extracted(d) == Ok([])
  {
    var root := Splice(Zeros(SECT), 0, ReadAt(d, 131072, SECT));
    forall i | 0 <= i < SLOTS ensures SlotContent(d, root, i) == Ok([]) {
      assert SlotInode(root, i) == 0;
    }
    ScanSilent(d, root, 0);
  }

  /** One slot only: its content is all that comes out. */
  lemma {:induction false} ScanOne(d: seq<byte>, root: seq<byte>, i: nat, from: nat)
    requires |root| == SECT && from <= i < SLOTS
    requires forall k :: 0 <= k < SLOTS && k != i ==> SlotContent(d, root, k) == Ok([])
    ensures Scan(d, root, from) == SlotContent(d, root, i)
    decreases i - from
  {
    if from < i {
      ScanOne(d, root, i, from + 1);
    } else {
      ScanSilent(d, root, i + 1);
    }
  }

  /** The block it names is read as an inode, under the size of its slot. */
  lemma OneSlot(d: seq<byte>, i: nat, w: nat, size: nat)
    requires |d| >= 131584 && i < 15 && forall k: nat :: k < 15 && k != i ==> SlotWord(d, k) == 0
    requires w == SlotWord(d, i) && 0 < w < 0x80_0000 && size == Le32(d, 131128 + 32 * i)
    ensures Extracted(d) == if 512 * w + 512 > |d| then Err(ShortRead)
                            else Walk(d, d[512 * w..512 * w + 512], 0, size)
  {
    var root := Splice(Zeros(SECT), 0, ReadAt(d, 131072, SECT));
    forall k | 0 <= k < SLOTS && k != i ensures SlotContent(d, root, k) == Ok([]) {
      RootWords(d, k);
    }
    RootWords(d, i);
    ScanOne(d, root, i, 0);
    assert 512 * w + 512 <= |d| ==> BlockAt(d, Named(w)) == d[512 * w..512 * w + 512];
  }

  /** The inode at `at` lists `n` blocks of the image, and then 0xcccccccc. */
  ghost predicate Lists(d: seq<byte>, at: nat, n: nat) {
    && n < 120 && at + 512 <= |d| && Le32(d, at + 4 * n) == 0xcccc_cccc
    && forall j: nat :: j < n ==> Listed(d, at, j)
  }

  predicate Listed(d: seq<byte>, at: nat, j: nat)
    requires at + 512 <= |d| && j < 120
  {
    var w := Le32(d, at + 4 * j); w < 0x80_0000 && 512 * w + 512 <= |d|
  }

  /** Byte `k` of the file it describes. */
  function FileByte(d: seq<byte>, at: nat, n: nat, k: nat): byte
    requires Lists(d, at, n) && k < 512 * n
  {
    assert Listed(d, at, k / 512);
    d[512 * Le32(d, at + 4 * (k / 512)) + k % 512]
  }

  ghost predicate IsFrom(d: seq<byte>, at: nat, n: nat, size: nat, j: nat, r: Result<seq<byte>>)
    requires Lists(d, at, n) && j <= n && size <= 512 * n
  {
    && r.Ok? && |r.value| == Max(0, size - 512 * j)
    && forall k :: 0 <= k < |r.value| ==> r.value[k] == FileByte(d, at, n, 512 * j + k)
  }

  lemma {:induction false} WalkIs(d: seq<byte>, at: nat, n: nat, size: nat, j: nat, filesz: nat)
    requires Lists(d, at, n) && j <= n && size <= 512 * n < size + 512 && filesz < TWO32
    requires j < n ==> filesz == size - 512 * j
    ensures IsFrom(d, at, n, size, j, Walk(d, d[at..at + 512], j, filesz))
    decreases n - j
  {
    var inode := d[at..at + 512];
    assert Word(inode, 4 * j) == Le32(d, at + 4 * j);
    if j < n {
      assert Listed(d, at, j);
      WalkIs(d, at, n, size, j + 1, Sub32(filesz, SECT));
      WalkNext(d, at, n, size, j, filesz);
    }
  }

  lemma WalkNext(d: seq<byte>, at: nat, n: nat, size: nat, j: nat, filesz: nat)
    requires Lists(d, at, n) && j < n && size <= 512 * n < size + 512 && filesz == size - 512 * j < TWO32
    requires IsFrom(d, at, n, size, j + 1, Walk(d, d[at..at + 512], j + 1, Sub32(filesz, SECT)))
    ensures IsFrom(d, at, n, size, j, Walk(d, d[at..at + 512], j, filesz))
  {
    assert Listed(d, at, j);
    var w := Le32(d, at + 4 * j);
    var rest := Walk(d, d[at..at + 512], j + 1, Sub32(filesz, SECT)).value;
    WalkStep(d, d[at..at + 512], j, filesz, w, rest);
    JoinBytes(d, at, n, size, j, rest);
  }

  lemma WalkStep(d: seq<byte>, inode: seq<byte>, j: nat, filesz: nat, w: nat, rest: seq<byte>)
    requires |inode| == SECT && j < 120 && filesz < TWO32 && Word(inode, 4 * j) == w
    requires w < 0x80_0000 && 512 * w + 512 <= |d| && Walk(d, inode, j + 1, Sub32(filesz, SECT)) == Ok(rest)
    ensures Walk(d, inode, j, filesz) == Ok(d[512 * w..512 * w + Min(filesz, 512)] + rest)
  {
    assert BlockAt(d, Named(w)) == d[512 * w..512 * w + 512];
    assert BlockAt(d, Named(w))[..Min(filesz, SECT)] == d[512 * w..512 * w + Min(filesz, 512)];
    var head := d[512 * w..512 * w + Min(filesz, 512)];
    assert head == [] ==> head + rest == rest;
    assert rest == [] ==> head + rest == head;
  }

  lemma JoinBytes(d: seq<byte>, at: nat, n: nat, size: nat, j: nat, rest: seq<byte>)
    requires Lists(d, at, n) && j < n && size <= 512 * n < size + 512 && Listed(d, at, j)
    requires IsFrom(d, at, n, size, j + 1, Ok(rest))
    ensures var w := Le32(d, at + 4 * j);
            512 * w + 512 <= |d| && IsFrom(d, at, n, size, j, Ok(d[512 * w..512 * w + Min(size - 512 * j, 512)] + rest))
  {
    var w := Le32(d, at + 4 * j);
    var head := d[512 * w..512 * w + Min(size - 512 * j, 512)];
    forall k: nat | k < |head + rest| ensures (head + rest)[k] == FileByte(d, at, n, 512 * j + k) {
      if k < 512 {
        assert (512 * j + k) / 512 == j && (512 * j + k) % 512 == k;
      } else {
        assert (head + rest)[k] == rest[k - 512];
      }
    }
  }

  /** The file an inode at `at` describes, cut to `size` bytes. */
  ghost predicate IsFile(d: seq<byte>, at: nat, n: nat, size: nat, r: Result<seq<byte>>)
    requires Lists(d, at, n) && size <= 512 * n
  {
    r.Ok? && |r.value| == size && forall k :: 0 <= k < size ==> r.value[k] == FileByte(d, at, n, k)
  }

  lemma WholeWalk(d: seq<byte>, at: nat, n: nat, size: nat)
    requires Lists(d, at, n) && size <= 512 * n < size + 512
    ensures IsFile(d, at, n, size, Walk(d, d[at..at + 512], 0, size))
  {
    WalkIs(d, at, n, size, 0, size);
  }

  /** An image with one file, wherever its inode and its blocks are: the bytes of those
      blocks come out, as many as the size says. */
  lemma OneFile(d: seq<byte>, i: nat, w: nat, size: nat, n: nat)
    requires |d| >= 131584 && i < 15 && forall k: nat :: k < 15 && k != i ==> SlotWord(d, k) == 0
    requires w == SlotWord(d, i) && 0 < w < 0x80_0000 && size == Le32(d, 131128 + 32 * i)
    requires Lists(d, 512 * w, n) && size <= 512 * n < size + 512
    ensures IsFile(d, 512 * w, n, size, Extracted(d))
  {
    WholeWalk(d, 512 * w, n, size);
    OneSlot(d, i, w, size);
  }
}
