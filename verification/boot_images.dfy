/** What the program headers of a kernel image decide about its boot, and what is
    left to the rest of the image: boot/main.c. */
module BootImages {
  import opened Wrappers
  import opened Bytes
  import opened Boot

  // ----- images with the same headers -----

  /** Both images list the same segments, at the same place. */
  ghost predicate SameHeaders(d: Disk, disk: Disk) {
    && ImageWord(d, 0) == ImageWord(disk, 0) && ImageWord(d, 28) == ImageWord(disk, 28)
    && ImageSegs(d) == ImageSegs(disk)
  }

  /** Byte `o` of the image is one the loader finds the segments by: of e_magic,
      e_phoff, e_phnum, or of p_offset, p_pa or p_memsz of a program header. */
  predicate Pinned(disk: Disk, o: nat) {
    var phoff := ImageWord(disk, 28);
    o < 4 || 28 <= o < 32 || 44 <= o < 46
    || (phoff <= o < phoff + PROGHDR * ImageHalf(disk, 44) && InField((o - phoff) % PROGHDR))
  }

  predicate InField(o: nat) { 4 <= o < 8 || 12 <= o < 16 || 20 <= o < 24 }

  predicate SameByte(d: Disk, disk: Disk, o: nat) { ImageByte(d, o) == ImageByte(disk, o) }

  /** Words are equal when their bytes are. */
  lemma WordsEqual(d: Disk, o: nat, d': Disk, o': nat)
    ensures ImageWord(d, o) == ImageWord(d', o')
            <==> && ImageByte(d, o) == ImageByte(d', o') && ImageByte(d, o + 1) == ImageByte(d', o' + 1)
                 && ImageByte(d, o + 2) == ImageByte(d', o' + 2) && ImageByte(d, o + 3) == ImageByte(d', o' + 3)
  {
    if ImageWord(d, o) == ImageWord(d', o') {
      FourBytes(ImageByte(d, o), ImageByte(d, o + 1), ImageByte(d, o + 2), ImageByte(d, o + 3),
                ImageByte(d', o'), ImageByte(d', o' + 1), ImageByte(d', o' + 2), ImageByte(d', o' + 3));
    }
  }

  lemma WordEqual(d: Disk, disk: Disk, w: nat)
    ensures ImageWord(d, w) == ImageWord(disk, w)
            <==> && SameByte(d, disk, w) && SameByte(d, disk, w + 1)
                 && SameByte(d, disk, w + 2) && SameByte(d, disk, w + 3)
  {
    WordsEqual(d, w, disk, w);
  }

  /** They do exactly when they agree on those bytes. */
  lemma SameHeadersIff(d: Disk, disk: Disk)
    ensures SameHeaders(d, disk) <==> forall o: nat :: Pinned(disk, o) ==> SameByte(d, disk, o)
  {
    if SameHeaders(d, disk) {
      forall o: nat | Pinned(disk, o) ensures SameByte(d, disk, o) {
        PinnedSame(d, disk, o);
      }
    } else if forall o: nat :: Pinned(disk, o) ==> SameByte(d, disk, o) {
      WordEqual(d, disk, 0);
      WordEqual(d, disk, 28);
      SegsSame(d, disk);
    }
  }

  lemma PinnedSame(d: Disk, disk: Disk, o: nat)
    requires SameHeaders(d, disk) && Pinned(disk, o)
    ensures SameByte(d, disk, o)
  {
    WordEqual(d, disk, 0);
    WordEqual(d, disk, 28);
    if !(o < 4 || 28 <= o < 32 || 44 <= o < 46) {
      var at := o - ImageWord(disk, 28);
      var i := at / PROGHDR;
      FieldSame(d, disk, i, at % PROGHDR);
    } else if 44 <= o < 46 {
      assert |ImageSegs(d)| == |ImageSegs(disk)|;
    }
  }

  lemma SegBytes(d: Disk, disk: Disk, h: nat, f: nat)
    requires ImageSegAt(d, h) == ImageSegAt(disk, h) && InField(f)
    ensures SameByte(d, disk, h + f)
  {
    WordEqual(d, disk, h + 4);
    WordEqual(d, disk, h + 12);
    WordEqual(d, disk, h + 20);
  }

  lemma FieldSame(d: Disk, disk: Disk, i: nat, f: nat)
    requires SameHeaders(d, disk) && i < ImageHalf(disk, 44) && f < PROGHDR && InField(f)
    ensures SameByte(d, disk, ImageWord(disk, 28) + PROGHDR * i + f)
  {
    var h := ImageWord(disk, 28) + PROGHDR * i;
    assert ImageSegs(d)[i] == ImageSegs(disk)[i];
    SegBytes(d, disk, h, f);
  }

  lemma SegsSame(d: Disk, disk: Disk)
    requires ImageWord(d, 28) == ImageWord(disk, 28)
    requires forall o: nat :: Pinned(disk, o) ==> SameByte(d, disk, o)
    ensures ImageSegs(d) == ImageSegs(disk)
  {
    assert SameByte(d, disk, 44) && SameByte(d, disk, 45);
    forall i: nat | i < ImageHalf(disk, 44)
      ensures ImageSegAt(d, ImageWord(disk, 28) + PROGHDR * i) == ImageSegAt(disk, ImageWord(disk, 28) + PROGHDR * i)
    {
      SegSame(d, disk, i);
    }
  }

  lemma PinnedField(disk: Disk, i: nat, f: nat)
    requires i < ImageHalf(disk, 44) && f < PROGHDR && InField(f)
    ensures Pinned(disk, ImageWord(disk, 28) + PROGHDR * i + f)
  {
    assert (PROGHDR * i + f) % PROGHDR == f;
  }

  lemma FieldAgrees(d: Disk, disk: Disk, i: nat, f: nat)
    requires i < ImageHalf(disk, 44) && f in [4, 12, 20]
    requires forall o: nat :: Pinned(disk, o) ==> SameByte(d, disk, o)
    ensures var at := ImageWord(disk, 28) + PROGHDR * i + f; ImageWord(d, at) == ImageWord(disk, at)
  {
    PinnedField(disk, i, f);
    PinnedField(disk, i, f + 1);
    PinnedField(disk, i, f + 2);
    PinnedField(disk, i, f + 3);
    WordEqual(d, disk, ImageWord(disk, 28) + PROGHDR * i + f);
  }

  lemma SegSame(d: Disk, disk: Disk, i: nat)
    requires i < ImageHalf(disk, 44)
    requires forall o: nat :: Pinned(disk, o) ==> SameByte(d, disk, o)
    ensures ImageSegAt(d, ImageWord(disk, 28) + PROGHDR * i) == ImageSegAt(disk, ImageWord(disk, 28) + PROGHDR * i)
  {
    FieldAgrees(d, disk, i, 4);
    FieldAgrees(d, disk, i, 12);
    FieldAgrees(d, disk, i, 20);
  }

  /** The image with another byte at `o`. */
  function WithByte(disk: Disk, o: nat, b: byte): (d: Disk)
    ensures forall k: nat :: ImageByte(d, k) == if k == o then b else ImageByte(disk, k)
  {
    var at := SECTSIZE + o;
    seq(Max(|disk|, at + 1), i requires 0 <= i => if i == at then b else DiskByte(disk, i))
  }

  lemma UnpinnedByte(disk: Disk, o: nat, b: byte)
    requires !Pinned(disk, o)
    ensures SameHeaders(WithByte(disk, o, b), disk)
  {
    SameHeadersIff(WithByte(disk, o, b), disk);
  }

  // ----- what they decide -----

  /** In every image with these headers byte `o` is `b`. */
  predicate Fixed(disk: Disk, o: nat, b: byte) { Pinned(disk, o) && ImageByte(disk, o) == b }

  /** In every image with these headers the bytes at `o` and `o'` are equal. */
  predicate Forced(disk: Disk, o: nat, o': nat) { o == o' || (Pinned(disk, o') && Fixed(disk, o, ImageByte(disk, o'))) }

  ghost predicate AlwaysEqual(disk: Disk, o: nat, o': nat) {
    forall d: Disk :: SameHeaders(d, disk) ==> ImageByte(d, o) == ImageByte(d, o')
  }

  lemma FixedIff(disk: Disk, o: nat, b: byte)
    ensures (forall d: Disk :: SameHeaders(d, disk) ==> ImageByte(d, o) == b) <==> Fixed(disk, o, b)
  {
    if Pinned(disk, o) {
      assert SameHeaders(disk, disk);
      forall d: Disk | SameHeaders(d, disk) ensures SameByte(d, disk, o) {
        PinnedSame(d, disk, o);
      }
    } else {
      var d := WithByte(disk, o, if b == 0 then 1 else 0);
      UnpinnedByte(disk, o, if b == 0 then 1 else 0);
      assert SameHeaders(d, disk) && ImageByte(d, o) != b;
    }
  }

  lemma ForcedIff(disk: Disk, o: nat, o': nat)
    ensures AlwaysEqual(disk, o, o') <==> Forced(disk, o, o')
  {
    if Pinned(disk, o) && Pinned(disk, o') {
      assert SameHeaders(disk, disk);
      forall d: Disk | SameHeaders(d, disk) ensures SameByte(d, disk, o) && SameByte(d, disk, o') {
        PinnedSame(d, disk, o);
        PinnedSame(d, disk, o');
      }
    } else if o != o' {
      var (free, other) := if Pinned(disk, o) then (o', o) else (o, o');
      var b := if ImageByte(disk, other) == 0 then 1 else 0;
      var d := WithByte(disk, free, b);
      UnpinnedByte(disk, free, b);
      assert SameHeaders(d, disk) && ImageByte(d, o) != ImageByte(d, o');
    }
  }

  // ----- the entry point -----

  /** Such images boot alike. */
  lemma SameHeadersBoot(d: Disk, disk: Disk, sp: nat)
    requires SameHeaders(d, disk)
    ensures SafeImage(d, sp) == SafeImage(disk, sp) && BootLoads(d) == BootLoads(disk) && EntryAt(d) == EntryAt(disk)
  {
    assert ImageHalf(d, 44) == |ImageSegs(d)| == |ImageSegs(disk)| == ImageHalf(disk, 44);
  }

  /** Byte for byte, the word at `o` is always the one at `o'`. */
  predicate WordForced(disk: Disk, o: nat, o': nat) {
    && Forced(disk, o, o') && Forced(disk, o + 1, o' + 1)
    && Forced(disk, o + 2, o' + 2) && Forced(disk, o + 3, o' + 3)
  }

  lemma WordsAlwaysEqual(disk: Disk, o: nat, o': nat)
    ensures (forall d: Disk :: SameHeaders(d, disk) ==> ImageWord(d, o) == ImageWord(d, o'))
            <==> && AlwaysEqual(disk, o, o') && AlwaysEqual(disk, o + 1, o' + 1)
                 && AlwaysEqual(disk, o + 2, o' + 2) && AlwaysEqual(disk, o + 3, o' + 3)
  {
    forall d: Disk
      ensures ImageWord(d, o) == ImageWord(d, o')
              <==> && ImageByte(d, o) == ImageByte(d, o') && ImageByte(d, o + 1) == ImageByte(d, o' + 1)
                   && ImageByte(d, o + 2) == ImageByte(d, o' + 2) && ImageByte(d, o + 3) == ImageByte(d, o' + 3)
    {
      WordsEqual(d, o, d, o');
    }
  }

  lemma WordForcedIff(disk: Disk, o: nat, o': nat)
    ensures (forall d: Disk :: SameHeaders(d, disk) ==> ImageWord(d, o) == ImageWord(d, o'))
            <==> WordForced(disk, o, o')
  {
    WordsAlwaysEqual(disk, o, o');
    ForcedIff(disk, o, o');
    ForcedIff(disk, o + 1, o' + 1);
    ForcedIff(disk, o + 2, o' + 2);
    ForcedIff(disk, o + 3, o' + 3);
  }

  /** The jump of every image with these headers goes to its own e_entry exactly
      when the word jumped to is e_entry, or the headers fix both and make them equal. */
  lemma EntryIff(disk: Disk)
    ensures (forall d: Disk :: SameHeaders(d, disk) ==> JumpTarget(d) == ImageWord(d, 24))
            <==> WordForced(disk, EntryAt(disk), 24)
  {
    WordForcedIff(disk, EntryAt(disk), 24);
    forall d: Disk | SameHeaders(d, disk) ensures EntryAt(d) == EntryAt(disk) {
      SameHeadersBoot(d, disk, 0);
    }
  }

  /** Bytes 24 to 27 are e_entry's own exactly when the last load over the ELF header
      puts the start of the image there. */
  lemma EntryOwn(disk: Disk)
    ensures LastLoad(disk, ELFHDR).Some?
    ensures var load := BootLoads(disk)[LastLoad(disk, ELFHDR).value];
            EntryAt(disk) == 24 <==> load.from == ELFHDR && load.src == 0
  {
    HeaderSector(ImageSegs(disk), 0);
  }

  // ----- segment bytes -----

  /** In any order: byte `x` of segment `i` is right in every image with these headers
      exactly when the last load over it takes it from its place in the image, or the
      headers fix both bytes and make them equal; `b` is what was there at first. */
  lemma SegmentByteIff(disk: Disk, i: nat, x: nat, b: byte)
    requires i < |ImageSegs(disk)|
    requires var seg := ImageSegs(disk)[i]; seg.pa <= x < seg.pa + seg.memsz
    ensures var seg := ImageSegs(disk)[i];
            var o := seg.offset + (x - seg.pa);
            (forall d: Disk :: SameHeaders(d, disk) ==> BootByte(d, x, b) == ImageByte(d, o))
            <==> match LastLoad(disk, x)
                 case None => Fixed(disk, o, b)
                 case Some(k) => Forced(disk, SourceAt(BootLoads(disk)[k], x), o)
  {
    var o := ImageSegs(disk)[i].offset + (x - ImageSegs(disk)[i].pa);
    forall d: Disk | SameHeaders(d, disk) ensures BootLoads(d) == BootLoads(disk) {
      SameHeadersBoot(d, disk, 0);
    }
    match LastLoad(disk, x)
    case None =>
      FixedIff(disk, o, b);
    case Some(k) => ForcedIff(disk, SourceAt(BootLoads(disk)[k], x), o);
  }

  // ----- two images that go wrong -----

  type word = w: nat | w < TWO32

  /** An image of these words. */
  function WordImage(words: nat -> word): Disk {
    seq(SECTSIZE + 0x2000, i requires 0 <= i => if i < SECTSIZE then 0 else WordBytes(words((i - SECTSIZE) / 4))[i % 4])
  }

  lemma WordOfImage(words: nat -> word, k: nat)
    requires k < 0x800
    ensures ImageWord(WordImage(words), 4 * k) == words(k)
    ensures ImageHalf(WordImage(words), 4 * k) == words(k) % 0x1_0000
  {
    ByteOfImage(words, k, 0);
    ByteOfImage(words, k, 1);
    ByteOfImage(words, k, 2);
    ByteOfImage(words, k, 3);
    WordFrom(WordImage(words), 4 * k, WordBytes(words(k)));
  }

  lemma WordFrom(disk: Disk, o: nat, s: seq<byte>)
    requires |s| == 4 && ImageByte(disk, o) == s[0] && ImageByte(disk, o + 1) == s[1]
    requires ImageByte(disk, o + 2) == s[2] && ImageByte(disk, o + 3) == s[3]
    ensures ImageWord(disk, o) == Word(s, 0) && ImageHalf(disk, o) == Word(s, 0) % 0x1_0000
  {
    var high := s[2] as nat + 0x100 * s[3] as nat;
    assert Word(s, 0) == 0x1_0000 * high + ImageHalf(disk, o);
  }

  lemma ByteOfImage(words: nat -> word, k: nat, j: nat)
    requires k < 0x800 && j < 4
    ensures ImageByte(WordImage(words), 4 * k + j) == WordBytes(words(k))[j]
  {
    var i := SECTSIZE + 4 * k + j;
    assert (i - SECTSIZE) / 4 == k && i % 4 == j;
  }

  predicate WordAt(disk: Disk, words: nat -> word, k: nat) {
    ImageWord(disk, 4 * k) == words(k) && ImageHalf(disk, 4 * k) == words(k) % 0x1_0000
  }

  ghost predicate HasWords(disk: Disk, words: nat -> word) {
    forall k: nat :: k < 0x800 ==> WordAt(disk, words, k)
  }

  lemma ImageHasWords(words: nat -> word)
    ensures HasWords(WordImage(words), words)
  {
    forall k: nat | k < 0x800 ensures WordAt(WordImage(words), words, k) {
      WordOfImage(words, k);
    }
  }

  lemma HeaderOfImage(disk: Disk, words: nat -> word, k: nat)
    requires HasWords(disk, words) && k < 0x7f8
    ensures ImageSegAt(disk, 4 * k) == Seg(words(k + 3), words(k + 5), words(k + 1))
  {
    assert WordAt(disk, words, k + 1) && WordAt(disk, words, k + 3) && WordAt(disk, words, k + 5);
  }

  lemma OneSegment(disk: Disk, seg: Seg)
    requires ImageWord(disk, 28) == 0x400 && ImageHalf(disk, 44) == 1 && ImageSegAt(disk, 0x400) == seg
    ensures ImageSegs(disk) == [seg]
  {
  }

  lemma TwoSegments(disk: Disk, first: Seg, second: Seg)
    requires ImageWord(disk, 28) == 0x400 && ImageHalf(disk, 44) == 2
    requires ImageSegAt(disk, 0x400) == first && ImageSegAt(disk, 0x420) == second
    ensures ImageSegs(disk) == [first, second]
  {
  }

  /** An image of one segment, its bytes from 512 on, for the scratch address. */
  function StrayWord(i: nat): word {
    match i
    case 0 => ELF_MAGIC
    case 6 => 0x10_0000  // e_entry
    case 7 => 0x400      // e_phoff
    case 11 => 1         // e_phnum
    case 0x101 => 512    // p_offset
    case 0x103 => ELFHDR // p_pa
    case 0x105 => 512    // p_memsz
    case _ => 0
  }

  /** The fields of such an image. */
  predicate Stray(disk: Disk) {
    && ImageWord(disk, 0) == ELF_MAGIC && ImageWord(disk, 24) == 0x10_0000 && ImageWord(disk, 28) == 0x400
    && ImageSegs(disk) == [Seg(ELFHDR, 512, 512)] && ImageWord(disk, 512 + 24) == 0
  }

  lemma StrayFields(disk: Disk)
    requires HasWords(disk, StrayWord)
    ensures Stray(disk)
  {
    assert WordAt(disk, StrayWord, 0) && WordAt(disk, StrayWord, 6) && WordAt(disk, StrayWord, 7);
    assert WordAt(disk, StrayWord, 11) && WordAt(disk, StrayWord, (512 + 24) / 4);
    HeaderOfImage(disk, StrayWord, 0x100);
    OneSegment(disk, Seg(ELFHDR, 512, 512));
  }

  lemma StrayIs()
    ensures Stray(WordImage(StrayWord))
  {
    ImageHasWords(StrayWord);
    StrayFields(WordImage(StrayWord));
  }

  /** It spares its headers and the loader, and its segment is in place: yet the boot
      jumps to 0, and not to 0x10_0000. */
  lemma EntryLost(disk: Disk, sp: nat)
    requires Stray(disk)
    ensures SafeImage(disk, sp) && InOrder(ImageSegs(disk))
    ensures ImageWord(disk, 24) == 0x10_0000 && JumpTarget(disk) == 0
  {
    var segs := ImageSegs(disk);
    assert LoadOf(segs[0]) == Load(ELFHDR, ELFHDR + 512, 512);
    assert LastOver(AllLoads(segs), 2, ELFHDR) == Some(1);
  }

  /** So that is where the loader goes. */
  method BootStrayImage(mem: array<byte>, sp: nat) returns (r: Outcome)
    requires mem.Length == TWO32
    modifies mem
    ensures r == Jump(0)
  {
    StrayIs();
    EntryLost(WordImage(StrayWord), sp);
    r := BootSafeImage(WordImage(StrayWord), mem, sp);
  }

  /** Two segments, the second of which ends in the sector where the first begins. */
  function SpillWord(i: nat): word {
    match i
    case 0 => ELF_MAGIC
    case 7 => 0x400
    case 11 => 2
    case 0x101 => 0x1200
    case 0x103 => 0x10_0200
    case 0x105 => 512
    case 0x109 => 0x1400
    case 0x10b => 0x10_0000
    case 0x10d => 513
    case 0x480 => 0xaa   // the first byte of the first segment
    case _ => 0
  }

  predicate Spill(disk: Disk) {
    && ImageWord(disk, 0) == ELF_MAGIC && ImageWord(disk, 28) == 0x400
    && ImageSegs(disk) == [Seg(0x10_0200, 512, 0x1200), Seg(0x10_0000, 513, 0x1400)]
    && ImageByte(disk, 0x1200) == 0xaa && ImageByte(disk, 0x1600) == 0
  }

  lemma SpillFields(disk: Disk)
    requires HasWords(disk, SpillWord)
    ensures Spill(disk)
  {
    assert WordAt(disk, SpillWord, 0) && WordAt(disk, SpillWord, 7) && WordAt(disk, SpillWord, 11);
    assert WordAt(disk, SpillWord, 0x480) && WordAt(disk, SpillWord, 0x580);
    HeaderOfImage(disk, SpillWord, 0x100);
    HeaderOfImage(disk, SpillWord, 0x108);
    TwoSegments(disk, Seg(0x10_0200, 512, 0x1200), Seg(0x10_0000, 513, 0x1400));
  }

  lemma SpillIs()
    ensures Spill(WordImage(SpillWord))
  {
    ImageHasWords(SpillWord);
    SpillFields(WordImage(SpillWord));
  }

  /** It spares its headers and the loader, and its segments are aligned, yet the first
      byte of the first one ends up as 0, and not as 0xaa. */
  lemma SegmentByteLost(disk: Disk, sp: nat, b: byte)
    requires Spill(disk)
    ensures var segs := ImageSegs(disk);
            && SafeImage(disk, sp) && |segs| == 2 && Aligned(segs[0]) && Aligned(segs[1])
            && BootByte(disk, segs[0].pa, b) == 0 && ImageByte(disk, segs[0].offset) == 0xaa
  {
    var segs := ImageSegs(disk);
    assert LoadOf(segs[0]) == Load(0x10_0200, 0x10_0400, 0x1200);
    assert LoadOf(segs[1]) == Load(0x10_0000, 0x10_0400, 0x1400);
    assert LastOver(AllLoads(segs), 3, 0x10_0200) == Some(2);
  }
}
