/** The boot in plain numbers: where the loader finds things on the disk and where it
    puts them (boot/main.c, inc/elf.h). */
module BootLayout {
  import opened Bytes
  import opened Boot

  function Le32(disk: Disk, o: nat): nat {
    DiskByte(disk, o) as nat + 256 * DiskByte(disk, o + 1) as nat
    + 65536 * DiskByte(disk, o + 2) as nat + 16777216 * DiskByte(disk, o + 3) as nat
  }

  function Le16(disk: Disk, o: nat): nat {
    DiskByte(disk, o) as nat + 256 * DiskByte(disk, o + 1) as nat
  }

  /** Program header `i` starts at this byte of the disk. */
  function HeaderAt(disk: Disk, i: nat): nat { 512 + Le32(disk, 540) + 32 * i }

  /** A safe image is an ELF file; e_phoff is at 28, e_phnum at 44 of it, and a program
      header holds p_offset, p_pa and p_memsz at 4, 12 and 20. */
  lemma HeadersAre(disk: Disk)
    ensures |ImageSegs(disk)| == Le16(disk, 556)
    ensures forall i: nat :: i < Le16(disk, 556) ==>
      var h := HeaderAt(disk, i); ImageSegs(disk)[i] == Seg(Le32(disk, h + 12), Le32(disk, h + 20), Le32(disk, h + 4))
  {
  }

  lemma SafeIsElf(disk: Disk, sp: nat)
    requires SafeImage(disk, sp)
    ensures IsElf(disk)
  {
    MagicIs(disk);
  }

  /** One load, byte by byte: whole sectors from the one `pa` lies in. */
  lemma LoadIs(disk: Disk, m: seq<byte>, seg: Seg, x: nat)
    requires Words(seg) && x < |m|
    ensures var from, to := seg.pa / 512 * 512, ((seg.pa + seg.memsz) % 0x1_0000_0000 + 511) / 512 * 512;
            Loaded(disk, m, LoadOf(seg))[x]
            == if from <= x < to then DiskByte(disk, 512 + seg.offset / 512 * 512 + (x - from)) else m[x]
  {
    EndIs(seg);
  }

  lemma EndIs(seg: Seg)
    requires Words(seg)
    ensures EndPa(seg) == (seg.pa + seg.memsz) % 0x1_0000_0000
  {
    var sum := seg.pa + seg.memsz;
    assert sum >= TWO32 ==> Wrap32(sum) == Wrap32(sum - TWO32) == sum - TWO32;
  }

  /** It leaves the loader alone when its sectors have no byte of 0x7c00 to 0x7dff or of
      the stack from `sp` to 0xfffe, and its loop ends. */
  lemma TameIs(seg: Seg, sp: nat)
    requires Words(seg)
    ensures var from, end := seg.pa / 512 * 512, (seg.pa + seg.memsz) % 0x1_0000_0000;
            Tame(seg, sp) <==>
              && end <= 0xffff_fe00
              && forall x: nat :: from <= x < (end + 511) / 512 * 512 ==> !LoaderByte(x, sp)
  {
    EndIs(seg);
    var load := LoadOf(seg);
    if !Spares(load, 0x7c00, 0x7e00) {
      assert LoaderByte(Max(load.from, 0x7c00), sp);
    }
    if !Spares(load, sp, 0xffff) {
      assert LoaderByte(Max(load.from, sp), sp);
    }
  }

  predicate LoaderByte(x: nat, sp: nat) { 0x7c00 <= x < 0x7e00 || sp <= x < 0xffff }

  /** The first 4096 bytes of the image go to 0x10000. */
  lemma HeaderPageAt(disk: Disk, m: seq<byte>, x: nat)
    requires |m| == TWO32 && x < TWO32
    ensures Loaded(disk, m, LoadOf(HeaderSeg()))[x]
         == if 0x1_0000 <= x < 0x1_1000 then DiskByte(disk, 512 + (x - 0x1_0000)) else m[x]
  {
    LoadIs(disk, m, HeaderSeg(), x);
  }

  /** Where the bytes of segment `i` are after a boot. */
  ghost predicate SegmentInPlace(disk: Disk, mem: seq<byte>, i: nat) {
    var h := HeaderAt(disk, i);
    forall k: nat :: k < Le32(disk, h + 20) ==> ByteInPlace(disk, mem, h, k)
  }

  predicate ByteInPlace(disk: Disk, mem: seq<byte>, h: nat, k: nat) {
    Le32(disk, h + 12) + k < |mem| && mem[Le32(disk, h + 12) + k] == DiskByte(disk, 512 + Le32(disk, h + 4) + k)
  }

  lemma PlaceIs(disk: Disk, mem: seq<byte>, i: nat)
    requires ImageInPlace(disk, mem, ImageSegs(disk)) && i < Le16(disk, 556)
    ensures SegmentInPlace(disk, mem, i)
  {
    HeadersAre(disk);
    var h := HeaderAt(disk, i);
    var seg := ImageSegs(disk)[i];
    forall k: nat | k < Le32(disk, h + 20) ensures ByteInPlace(disk, mem, h, k) {
      var x := seg.pa + k;
      assert seg.pa <= x < seg.pa + seg.memsz;
      assert ByteHeld(disk, mem, seg, x);
    }
  }

  /** Booting a good image: every byte of every segment in place, and a jump to e_entry. */
  method BootKernel(disk: Disk, mem: array<byte>, sp: nat) returns (r: Outcome)
    requires mem.Length == 0x1_0000_0000 && GoodImage(disk, sp)
    modifies mem
    ensures r == Jump(Le32(disk, 536)) && forall i: nat :: i < Le16(disk, 556) ==> SegmentInPlace(disk, mem[..], i)
  {
    r := BootGoodImage(disk, mem, sp);
    forall i: nat | i < Le16(disk, 556) ensures SegmentInPlace(disk, mem[..], i) {
      PlaceIs(disk, mem[..], i);
    }
  }

  // ----- what is good enough -----

  /** Segment `i` lies from 1 MB on, and at the same place in its sector as in the image. */
  predicate High(disk: Disk, i: nat) {
    var h := HeaderAt(disk, i);
    var pa, memsz, offset := Le32(disk, h + 12), Le32(disk, h + 20), Le32(disk, h + 4);
    0x10_0000 <= pa && pa + memsz <= 0xffff_fe00 && pa % 512 == offset % 512
  }

  /** Segment `j` starts in a sector behind segment `i`. */
  predicate Behind(disk: Disk, i: nat, j: nat) {
    var h, h' := HeaderAt(disk, i), HeaderAt(disk, j);
    Le32(disk, h + 12) + Le32(disk, h + 20) <= Le32(disk, h' + 12) / 512 * 512
  }

  /** An ELF file with its program headers in its first page and its segments in
      increasing order from 1 MB on is a good image, however deep the stack. */
  lemma HighImageIsGood(disk: Disk, sp: nat)
    requires IsElf(disk) && Le32(disk, 540) + 32 * Le16(disk, 556) <= 4096
    requires forall i: nat :: i < Le16(disk, 556) ==> High(disk, i)
    requires forall i: nat, j: nat :: i < j < Le16(disk, 556) ==> Behind(disk, i, j)
    ensures GoodImage(disk, sp)
  {
    MagicIs(disk);
    HeadersAre(disk);
    var segs := ImageSegs(disk);
    forall i | 0 <= i < |segs|
      ensures Aligned(segs[i]) && Tame(segs[i], sp) && LoadOf(segs[i]).from >= 0x10_0000
    {
      assert High(disk, i);
      HighSegment(segs[i], sp);
    }
    forall i, j | 0 <= i < j < |segs| ensures segs[i].pa + segs[i].memsz <= SectorDown(segs[j].pa) {
      assert Behind(disk, i, j);
    }
    IncreasingOrder(segs);
  }

  lemma HighSegment(seg: Seg, sp: nat)
    requires Words(seg) && 0x10_0000 <= seg.pa && seg.pa + seg.memsz <= 0xffff_fe00 && seg.pa % 512 == seg.offset % 512
    ensures Aligned(seg) && Tame(seg, sp) && LoadOf(seg).from >= 0x10_0000
  {
  }
}
