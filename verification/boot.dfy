/** Loading the kernel image: readseg and the segment loop of boot/main.c. */
module Boot {
  import opened Wrappers
  import opened Bytes

  const SECTSIZE: nat := 512
  const ELFHDR: nat := 0x1_0000
  const HEADER_BYTES: nat := SECTSIZE * 8
  const ELF_MAGIC: nat := 0x464C_457F
  const ELF_BYTES: nat := 52
  const PROGHDR: nat := 32

  /** The boot sector runs at LOADER; its stack grows down from STACK_TOP, to an
      address `sp` that the source leaves open. */
  const LOADER: nat := 0x7c00
  const STACK_TOP: nat := 0xffff

  /** A disk; the kernel image starts at its second sector. */
  type Disk = seq<byte>

  function DiskByte(disk: Disk, o: nat): byte { if o < |disk| then disk[o] else 0 }

  /** Byte `o` of the kernel image. */
  function ImageByte(disk: Disk, o: nat): byte { DiskByte(disk, SECTSIZE + o) }

  /** What readseg is asked to do: load address, size, offset in the image. */
  datatype Seg = Seg(pa: nat, memsz: nat, offset: nat)

  predicate Words(seg: Seg) { seg.pa < TWO32 && seg.memsz < TWO32 && seg.offset < TWO32 }

  function SectorDown(x: nat): nat { x / SECTSIZE * SECTSIZE }
  function SectorUp(x: nat): nat { (x + SECTSIZE - 1) / SECTSIZE * SECTSIZE }

  /** `end_pa`, a `uint32_t`. */
  function EndPa(seg: Seg): nat
    requires Words(seg)
  {
    Wrap32(seg.pa + seg.memsz)
  }

  /** The loop stops: otherwise its address wraps to 0 below the end, for ever. */
  predicate Stops(seg: Seg)
    requires Words(seg)
  {
    EndPa(seg) <= TWO32 - SECTSIZE
  }

  /** The whole sectors readseg overwrites, `from` up to `to`, and where in the
      image their bytes come from. */
  datatype Load = Load(from: nat, to: nat, src: nat)

  function LoadOf(seg: Seg): Load
    requires Words(seg)
  {
    Load(SectorDown(seg.pa), SectorUp(EndPa(seg)), SectorDown(seg.offset))
  }

  predicate Covers(load: Load, x: nat) { load.from <= x < load.to }

  /** It overwrites none of the addresses `from` up to `to`. */
  predicate Spares(load: Load, from: nat, to: nat) {
    load.to <= from || to <= load.from || load.to <= load.from || to <= from
  }

  /** The loader's code and its stack, down to `sp`, are not overwritten. */
  predicate SparesLoader(load: Load, sp: nat) {
    Spares(load, LOADER, LOADER + SECTSIZE) && Spares(load, sp, STACK_TOP)
  }

  /** The loader is still there after the load. One that does not stop goes over
      it as well, once its address has wrapped. */
  predicate Tame(seg: Seg, sp: nat)
    requires Words(seg)
  {
    Stops(seg) && SparesLoader(LoadOf(seg), sp)
  }

  /** The byte it puts at `x`. */
  function Source(disk: Disk, load: Load, x: nat): byte
    requires load.from <= x
  {
    ImageByte(disk, load.src + (x - load.from))
  }

  function Loaded(disk: Disk, m: seq<byte>, load: Load): (r: seq<byte>)
    ensures |r| == |m|
    ensures forall x :: 0 <= x < |m| ==> r[x] == if Covers(load, x) then Source(disk, load, x) else m[x]
  {
    seq(|m|, x requires 0 <= x < |m| => if Covers(load, x) then Source(disk, load, x) else m[x])
  }

  /** readsect: sector `sector` of the disk to address `dst`. */
  method ReadSect(disk: Disk, mem: array<byte>, dst: nat, sector: nat)
    requires dst + SECTSIZE <= mem.Length
    modifies mem
    ensures forall x :: 0 <= x < mem.Length ==>
      mem[x] == if dst <= x < dst + SECTSIZE then DiskByte(disk, SECTSIZE * sector + (x - dst)) else old(mem[x])
  {
    for k := 0 to SECTSIZE
      invariant forall x :: 0 <= x < mem.Length ==>
        mem[x] == if dst <= x < dst + k then DiskByte(disk, SECTSIZE * sector + (x - dst)) else old(mem[x])
    {
      mem[dst + k] := DiskByte(disk, SECTSIZE * sector + k);
    }
  }

  lemma SectorsBelow(end: nat, j: nat)
    ensures SECTSIZE * j < end <==> SECTSIZE * j < SectorUp(end)
    ensures SECTSIZE * j < end ==> SECTSIZE * (j + 1) <= SectorUp(end)
  {
  }

  lemma SparesNext(from: nat, pa: nat, sp: nat)
    requires from <= pa
    ensures SparesLoader(Load(from, pa + SECTSIZE, 0), sp)
            <==> SparesLoader(Load(from, pa, 0), sp) && SparesLoader(Load(pa, pa + SECTSIZE, 0), sp)
  {
  }

  lemma SparesFront(from: nat, pa: nat, to: nat, sp: nat)
    requires pa <= to && SparesLoader(Load(from, to, 0), sp)
    ensures SparesLoader(Load(from, pa, 0), sp)
  {
  }

  /** The loop of readseg, from sector `first` of memory and `src` of the image on;
      false when it comes to the loader or its stack. */
  method ReadSectors(disk: Disk, mem: array<byte>, first: nat, endPa: nat, src: nat, sp: nat) returns (ok: bool)
    requires mem.Length == TWO32 && endPa <= TWO32 - SECTSIZE
    modifies mem
    ensures ok <==> SparesLoader(Load(SECTSIZE * first, SectorUp(endPa), SECTSIZE * src), sp)
    ensures ok ==> mem[..] == Loaded(disk, old(mem[..]), Load(SECTSIZE * first, SectorUp(endPa), SECTSIZE * src))
  {
    ghost var load := Load(SECTSIZE * first, SectorUp(endPa), SECTSIZE * src);
    ghost var k := 0;
    var pa, offset := SECTSIZE * first, src + 1;
    SectorsBelow(endPa, first);
    while pa < endPa
      invariant 0 <= k && pa == SECTSIZE * (first + k) && offset == src + 1 + k
      invariant (k > 0 ==> pa <= load.to) && SparesLoader(Load(load.from, pa, 0), sp)
      invariant pa < endPa <==> pa < load.to
      invariant forall x :: 0 <= x < TWO32 ==>
        mem[x] == if load.from <= x < pa then Source(disk, load, x) else old(mem[x])
      decreases endPa - pa
    {
      SectorsBelow(endPa, first + k);
      SectorsBelow(endPa, first + k + 1);
      SparesNext(load.from, pa, sp);
      if !SparesLoader(Load(pa, pa + SECTSIZE, 0), sp) {
        assert !SparesLoader(Load(load.from, load.to, 0), sp) by {
          if SparesLoader(Load(load.from, load.to, 0), sp) {
            SparesFront(load.from, pa + SECTSIZE, load.to, sp);
          }
        }
        return false;
      }
      ReadSect(disk, mem, pa, offset);
      pa := pa + SECTSIZE;
      offset := offset + 1;
      k := k + 1;
    }
    return true;
  }

  /** readseg; false when it runs over the loader or its stack. */
  method ReadSeg(disk: Disk, mem: array<byte>, seg: Seg, sp: nat) returns (ok: bool)
    requires mem.Length == TWO32 && Words(seg)
    modifies mem
    ensures ok <==> Tame(seg, sp)
    ensures ok ==> mem[..] == Loaded(disk, old(mem[..]), LoadOf(seg))
  {
    var endPa := Wrap32(seg.pa + seg.memsz);
    if endPa > TWO32 - SECTSIZE {
      return false;
    }
    ok := ReadSectors(disk, mem, seg.pa / SECTSIZE, endPa, seg.offset / SECTSIZE, sp);
  }

  // ----- the segment loop -----

  /** The program header at `ph`. */
  function SegAt(m: seq<byte>, ph: nat): (seg: Seg)
    requires ph + PROGHDR <= |m|
    ensures Words(seg)
  {
    Seg(Word(m, ph + 12), Word(m, ph + 20), Word(m, ph + 4))
  }

  /** Round `k` of the loop over the program headers from `ph` on: the header is
      read from memory as it then is, and its load spares the loader. */
  ghost predicate Round(disk: Disk, states: seq<seq<byte>>, ph: nat, k: nat, sp: nat)
    requires k + 1 < |states| && ph + PROGHDR * k + PROGHDR <= |states[k]|
  {
    var seg := SegAt(states[k], ph + PROGHDR * k);
    Tame(seg, sp) && states[k + 1] == Loaded(disk, states[k], LoadOf(seg))
  }

  /** `states` is memory before the loop and after each of its rounds. */
  ghost predicate Rounds(disk: Disk, states: seq<seq<byte>>, ph: nat, sp: nat) {
    && states != []
    && (forall k :: 0 <= k < |states| ==> |states[k]| == TWO32)
    && ph + PROGHDR * (|states| - 1) <= TWO32
    && forall k :: 0 <= k < |states| - 1 ==> Round(disk, states, ph, k, sp)
  }

  /** `BadMagic` does not return. `Lost` is a load over the loader or its stack:
      what runs next is whatever the image put there. */
  datatype Outcome = Jump(entry: nat) | BadMagic | Lost

  function HeaderSeg(): Seg { Seg(ELFHDR, HEADER_BYTES, 0) }

  /** The little-endian 16-bit word at `off`. */
  function Half(m: seq<byte>, off: nat): (n: nat)
    requires off + 2 <= |m|
    ensures n < 0x1_0000
  {
    m[off] as nat + 0x100 * m[off + 1] as nat
  }

  /** The first program header, and how many the loop visits: none when the end
      of the table wraps around the address space. */
  function Headers(m: seq<byte>): (r: (nat, nat))
    requires |m| == TWO32
    ensures r.0 + PROGHDR * r.1 <= TWO32
  {
    var ph, n := Wrap32(ELFHDR + Word(m, ELFHDR + 28)), Half(m, ELFHDR + 44);
    (ph, if ph + PROGHDR * n < TWO32 then n else 0)
  }

  lemma TableEnd(ph: nat, n: nat)
    requires ph < TWO32 && n < 0x1_0000
    ensures Wrap32(ph + PROGHDR * n) == if ph + PROGHDR * n < TWO32 then ph + PROGHDR * n else ph + PROGHDR * n - TWO32
  {
  }

  lemma AddRound(disk: Disk, states: seq<seq<byte>>, ph: nat, m: seq<byte>, sp: nat)
    requires Rounds(disk, states, ph, sp) && ph + PROGHDR * |states| <= TWO32
    requires var k := |states| - 1;
             var seg := SegAt(states[k], ph + PROGHDR * k);
             Tame(seg, sp) && m == Loaded(disk, states[k], LoadOf(seg))
    ensures Rounds(disk, states + [m], ph, sp)
  {
    var states' := states + [m];
    forall k | 0 <= k < |states'| - 1 ensures Round(disk, states', ph, k, sp) {
      assert states'[k] == states[k];
      if k < |states| - 1 {
        assert Round(disk, states, ph, k, sp);
        assert states'[k + 1] == states[k + 1];
      }
    }
  }

  /** Its body: load the segment whose header is at `ph`. */
  method LoadNext(disk: Disk, mem: array<byte>, ph: nat, ghost states: seq<seq<byte>>, ghost first: nat, sp: nat)
    returns (ok: bool, ghost states': seq<seq<byte>>)
    requires mem.Length == TWO32 && Rounds(disk, states, first, sp) && states[|states| - 1] == mem[..]
    requires ph == first + PROGHDR * (|states| - 1) && ph + PROGHDR <= TWO32
    modifies mem
    ensures if ok then Rounds(disk, states', first, sp) && |states'| == |states| + 1 && states'[|states|] == mem[..]
                       && states <= states'
            else states' == states && !Tame(SegAt(states[|states| - 1], ph), sp)
  {
    states' := states;
    ok := ReadSeg(disk, mem, SegAt(mem[..], ph), sp);
    if ok {
      AddRound(disk, states, first, mem[..], sp);
      states' := states + [mem[..]];
    }
  }

  /** The segment loop of bootmain; false when some load runs over the loader. */
  method LoadSegments(disk: Disk, mem: array<byte>, sp: nat) returns (ok: bool, ghost states: seq<seq<byte>>)
    requires mem.Length == TWO32
    modifies mem
    ensures var (ph, n) := Headers(old(mem[..]));
            && Rounds(disk, states, ph, sp) && states[0] == old(mem[..]) && |states| <= n + 1
            && (ok ==> |states| == n + 1 && mem[..] == states[n])
            && (!ok ==> |states| <= n && !Tame(SegAt(states[|states| - 1], ph + PROGHDR * (|states| - 1)), sp))
  {
    states := [mem[..]];
    var ph := Wrap32(ELFHDR + Word(mem[..], ELFHDR + 28));
    var eph := Wrap32(ph + PROGHDR * Half(mem[..], ELFHDR + 44));
    TableEnd(ph, Half(mem[..], ELFHDR + 44));
    ghost var first, n, k: nat := ph, Headers(mem[..]).1, 0;
    while ph < eph
      invariant ph == first + PROGHDR * k && k <= n && (k < n <==> ph < eph)
      invariant n > 0 ==> eph == first + PROGHDR * n
      invariant |states| == k + 1 && states[0] == old(mem[..]) && states[k] == mem[..]
      invariant Rounds(disk, states, first, sp)
      decreases n - k
    {
      ok, states := LoadNext(disk, mem, ph, states, first, sp);
      if !ok {
        return;
      }
      k := k + 1;
      ph := ph + PROGHDR;
    }
    return true, states;
  }

  /** The kernel image, from the second sector on, starts with 0x7f 'E' 'L' 'F'. */
  predicate IsElf(disk: Disk) {
    && DiskByte(disk, 512) == 0x7f && DiskByte(disk, 513) == 0x45
    && DiskByte(disk, 514) == 0x4c && DiskByte(disk, 515) == 0x46
  }

  lemma MagicIs(disk: Disk)
    ensures ImageWord(disk, 0) == ELF_MAGIC <==> IsElf(disk)
  {
    if ImageWord(disk, 0) == ELF_MAGIC {
      FourBytes(ImageByte(disk, 0), ImageByte(disk, 1), ImageByte(disk, 2), ImageByte(disk, 3), 0x7f, 0x45, 0x4c, 0x46);
    }
  }

  /** bootmain */
  method BootMain(disk: Disk, mem: array<byte>, sp: nat) returns (r: Outcome, ghost states: seq<seq<byte>>)
    requires mem.Length == TWO32
    modifies mem
    ensures r == BadMagic <==> !IsElf(disk)
    ensures
      var m := Loaded(disk, old(mem[..]), LoadOf(HeaderSeg()));
      var (ph, n) := Headers(m);
      if Word(m, ELFHDR) != ELF_MAGIC then r == BadMagic && mem[..] == m
      else
        && Rounds(disk, states, ph, sp) && states[0] == m && |states| <= n + 1
        && (r.Jump? ==> |states| == n + 1 && mem[..] == states[n] && r == Jump(Word(mem[..], ELFHDR + 24)))
        && (!r.Jump? ==> r == Lost && |states| <= n
                         && !Tame(SegAt(states[|states| - 1], ph + PROGHDR * (|states| - 1)), sp))
  {
    HeaderWord(disk, mem[..], 0);
    MagicIs(disk);
    var ok := ReadSeg(disk, mem, HeaderSeg(), sp);
    if Word(mem[..], ELFHDR) != ELF_MAGIC {
      return BadMagic, [];
    }
    ok, states := LoadSegments(disk, mem, sp);
    if !ok {
      return Lost, states;
    }
    return Jump(Word(mem[..], ELFHDR + 24)), states;
  }

  // ----- what ends up where -----

  /** The first load puts the first page of the image at ELFHDR, so the headers
      read there are the image's own. */
  lemma HeaderPageIsImage(disk: Disk, m: seq<byte>, o: nat)
    requires |m| == TWO32 && o < HEADER_BYTES
    ensures Loaded(disk, m, LoadOf(HeaderSeg()))[ELFHDR + o] == ImageByte(disk, o)
  {
  }

  /** The last of the first `k` loads that covers `x`. */
  function LastOver(loads: seq<Load>, k: nat, x: nat): (r: Option<nat>)
    requires k <= |loads|
    ensures r.Some? ==> r.value < k && Covers(loads[r.value], x)
    ensures forall j :: (if r.Some? then r.value + 1 else 0) <= j < k ==> !Covers(loads[j], x)
  {
    if k == 0 then None
    else if Covers(loads[k - 1], x) then Some(k - 1)
    else LastOver(loads, k - 1, x)
  }

  /** It decides byte `x`, which was `b` before them all. */
  function ByteAfter(disk: Disk, loads: seq<Load>, k: nat, x: nat, b: byte): byte
    requires k <= |loads|
  {
    match LastOver(loads, k, x)
    case None => b
    case Some(i) => Source(disk, loads[i], x)
  }

  predicate AllWords(segs: seq<Seg>) { forall i :: 0 <= i < |segs| ==> Words(segs[i]) }

  function Loads(segs: seq<Seg>): (loads: seq<Load>)
    requires AllWords(segs)
    ensures |loads| == |segs| && forall i :: 0 <= i < |segs| ==> loads[i] == LoadOf(segs[i])
  {
    seq(|segs|, i requires 0 <= i < |segs| => LoadOf(segs[i]))
  }

  /** The program headers in memory. */
  function SegsAt(m: seq<byte>, ph: nat, n: nat): (segs: seq<Seg>)
    requires ph + PROGHDR * n <= |m|
    ensures |segs| == n && AllWords(segs)
    ensures forall i :: 0 <= i < n ==> segs[i] == SegAt(m, ph + PROGHDR * i)
  {
    seq(n, i requires 0 <= i < n => SegAt(m, ph + PROGHDR * i))
  }

  /** No load overwrites the program headers, the loader or its stack. */
  ghost predicate HeadersSafe(segs: seq<Seg>, ph: nat, sp: nat)
    requires AllWords(segs)
  {
    forall i :: 0 <= i < |segs| ==>
      Tame(segs[i], sp) && Spares(LoadOf(segs[i]), ph, ph + PROGHDR * |segs|)
  }

  lemma HeaderKept(m: seq<byte>, m': seq<byte>, at: nat)
    requires at + PROGHDR <= |m| == |m'| && forall x :: at <= x < at + PROGHDR ==> m'[x] == m[x]
    ensures SegAt(m', at) == SegAt(m, at)
  {
  }

  lemma SparesAll(load: Load, from: nat, to: nat)
    requires Spares(load, from, to)
    ensures forall x :: from <= x < to ==> !Covers(load, x)
  {
  }

  /** While the headers stay safe round `k` loads the segment the image lists. */
  lemma RoundLoads(disk: Disk, states: seq<seq<byte>>, ph: nat, n: nat, k: nat, sp: nat)
    requires Rounds(disk, states, ph, sp) && k + 1 < |states| <= n + 1 && ph + PROGHDR * n <= TWO32
    requires HeadersSafe(SegsAt(states[0], ph, n), ph, sp)
    requires forall x :: ph <= x < ph + PROGHDR * n ==> states[k][x] == states[0][x]
    ensures var load := Loads(SegsAt(states[0], ph, n))[k];
            && states[k + 1] == Loaded(disk, states[k], load)
            && forall x :: ph <= x < ph + PROGHDR * n ==> !Covers(load, x)
  {
    assert Round(disk, states, ph, k, sp);
    HeaderKept(states[0], states[k], ph + PROGHDR * k);
    var seg := SegsAt(states[0], ph, n)[k];
    assert seg == SegAt(states[0], ph + PROGHDR * k) && Spares(LoadOf(seg), ph, ph + PROGHDR * n);
    SparesAll(LoadOf(seg), ph, ph + PROGHDR * n);
  }

  /** `m` is what the first `k` loads make of `m0`. */
  ghost predicate LoadedFrom(disk: Disk, m0: seq<byte>, m: seq<byte>, loads: seq<Load>, k: nat)
    requires k <= |loads|
  {
    |m| == |m0| && forall x :: 0 <= x < |m| ==> m[x] == ByteAfter(disk, loads, k, x, m0[x])
  }

  lemma NextLoad(disk: Disk, m0: seq<byte>, m: seq<byte>, loads: seq<Load>, k: nat)
    requires k < |loads| && LoadedFrom(disk, m0, m, loads, k)
    ensures LoadedFrom(disk, m0, Loaded(disk, m, loads[k]), loads, k + 1)
  {
  }

  /** So each byte of memory is as the last load covering it leaves it. */
  lemma {:induction false} LoadsInOrder(disk: Disk, states: seq<seq<byte>>, ph: nat, n: nat, k: nat, sp: nat)
    requires Rounds(disk, states, ph, sp) && k < |states| <= n + 1 && ph + PROGHDR * n <= TWO32
    requires HeadersSafe(SegsAt(states[0], ph, n), ph, sp)
    ensures forall x :: ph <= x < ph + PROGHDR * n ==> states[k][x] == states[0][x]
    ensures LoadedFrom(disk, states[0], states[k], Loads(SegsAt(states[0], ph, n)), k)
    decreases k
  {
    if k > 0 {
      LoadsInOrder(disk, states, ph, n, k - 1, sp);
      RoundLoads(disk, states, ph, n, k - 1, sp);
      NextLoad(disk, states[0], states[k - 1], Loads(SegsAt(states[0], ph, n)), k - 1);
    }
  }

  /** The loop visits every program header. */
  lemma SafeNeverLost(disk: Disk, states: seq<seq<byte>>, ph: nat, n: nat, sp: nat)
    requires Rounds(disk, states, ph, sp) && |states| <= n && ph + PROGHDR * n <= TWO32
    requires HeadersSafe(SegsAt(states[0], ph, n), ph, sp)
    ensures Tame(SegAt(states[|states| - 1], ph + PROGHDR * (|states| - 1)), sp)
  {
    var k := |states| - 1;
    LoadsInOrder(disk, states, ph, n, k, sp);
    HeaderKept(states[0], states[k], ph + PROGHDR * k);
    assert Tame(SegsAt(states[0], ph, n)[k], sp);
  }

  // ----- a boot, by its image -----

  /** The 32-bit word at `o` of the image. */
  function ImageWord(disk: Disk, o: nat): (w: nat)
    ensures w < TWO32
  {
    ImageByte(disk, o) as nat + 0x100 * ImageByte(disk, o + 1) as nat
    + 0x1_0000 * ImageByte(disk, o + 2) as nat + 0x100_0000 * ImageByte(disk, o + 3) as nat
  }

  function ImageHalf(disk: Disk, o: nat): nat {
    ImageByte(disk, o) as nat + 0x100 * ImageByte(disk, o + 1) as nat
  }

  /** The program header at `o` of the image. */
  function ImageSegAt(disk: Disk, o: nat): Seg {
    Seg(ImageWord(disk, o + 12), ImageWord(disk, o + 20), ImageWord(disk, o + 4))
  }

  /** The segments the image lists. */
  function ImageSegs(disk: Disk): (segs: seq<Seg>)
    ensures |segs| == ImageHalf(disk, 44) && AllWords(segs)
    ensures forall i :: 0 <= i < |segs| ==> segs[i] == ImageSegAt(disk, ImageWord(disk, 28) + PROGHDR * i)
  {
    seq(ImageHalf(disk, 44), i requires 0 <= i < ImageHalf(disk, 44) =>
      ImageSegAt(disk, ImageWord(disk, 28) + PROGHDR * i))
  }

  /** The image has an ELF header and its program headers in its first page, and
      none of its segments is loaded over these, the loader or its stack. */
  ghost predicate SafeImage(disk: Disk, sp: nat) {
    var phoff, segs := ImageWord(disk, 28), ImageSegs(disk);
    && ImageWord(disk, 0) == ELF_MAGIC && phoff + PROGHDR * |segs| <= HEADER_BYTES
    && HeadersSafe(segs, ELFHDR + phoff, sp)
  }

  /** The header page, then the segments. */
  function AllLoads(segs: seq<Seg>): (loads: seq<Load>)
    requires AllWords(segs)
    ensures |loads| == |segs| + 1
  {
    [LoadOf(HeaderSeg())] + Loads(segs)
  }

  /** All the loads of its boot. */
  function BootLoads(disk: Disk): (loads: seq<Load>) { AllLoads(ImageSegs(disk)) }

  /** The last of them over `x`. */
  function LastLoad(disk: Disk, x: nat): (r: Option<nat>)
    ensures r.Some? ==> r.value < |BootLoads(disk)| && Covers(BootLoads(disk)[r.value], x)
  {
    LastOver(BootLoads(disk), |BootLoads(disk)|, x)
  }

  /** What is at `x` after the boot, if `b` was there before. */
  function BootByte(disk: Disk, x: nat, b: byte): byte {
    ByteAfter(disk, BootLoads(disk), |BootLoads(disk)|, x, b)
  }

  /** Where in the image a load takes its byte for `x` from. */
  function SourceAt(load: Load, x: nat): nat
    requires load.from <= x
  {
    load.src + (x - load.from)
  }

  /** Where the word comes from that bootmain jumps to. */
  function EntryAt(disk: Disk): nat {
    match LastLoad(disk, ELFHDR)
    case None => 24
    case Some(i) => SourceAt(BootLoads(disk)[i], ELFHDR) + 24
  }

  function JumpTarget(disk: Disk): nat { ImageWord(disk, EntryAt(disk)) }

  lemma {:induction false} LastOverFront(load: Load, loads: seq<Load>, k: nat, x: nat)
    requires k <= |loads|
    ensures LastOver([load] + loads, k + 1, x) == match LastOver(loads, k, x)
              case None => if Covers(load, x) then Some(0) else None
              case Some(i) => Some(i + 1)
  {
    if k == 0 {
      assert LastOver([load] + loads, 0, x) == None;
    } else {
      LastOverFront(load, loads, k - 1, x);
    }
  }

  /** Words of the header page, once it is loaded. */
  lemma HeaderWord(disk: Disk, m0: seq<byte>, o: nat)
    requires |m0| == TWO32 && o + 4 <= HEADER_BYTES
    ensures var m := Loaded(disk, m0, LoadOf(HeaderSeg()));
            Word(m, ELFHDR + o) == ImageWord(disk, o) && Half(m, ELFHDR + o) == ImageHalf(disk, o)
  {
    HeaderPageIsImage(disk, m0, o);
    HeaderPageIsImage(disk, m0, o + 1);
    HeaderPageIsImage(disk, m0, o + 2);
    HeaderPageIsImage(disk, m0, o + 3);
  }

  lemma SegAgrees(disk: Disk, m0: seq<byte>, o: nat)
    requires |m0| == TWO32 && o + PROGHDR <= HEADER_BYTES
    ensures SegAt(Loaded(disk, m0, LoadOf(HeaderSeg())), ELFHDR + o) == ImageSegAt(disk, o)
  {
    HeaderWord(disk, m0, o + 4);
    HeaderWord(disk, m0, o + 12);
    HeaderWord(disk, m0, o + 20);
  }

  lemma SegsAgree(disk: Disk, m0: seq<byte>)
    requires |m0| == TWO32 && ImageWord(disk, 28) + PROGHDR * ImageHalf(disk, 44) <= HEADER_BYTES
    ensures var m := Loaded(disk, m0, LoadOf(HeaderSeg()));
            SegsAt(m, ELFHDR + ImageWord(disk, 28), ImageHalf(disk, 44)) == ImageSegs(disk)
  {
    var m, phoff, segs := Loaded(disk, m0, LoadOf(HeaderSeg())), ImageWord(disk, 28), ImageSegs(disk);
    forall i | 0 <= i < |segs| ensures SegAt(m, ELFHDR + phoff + PROGHDR * i) == segs[i] {
      SegAgrees(disk, m0, phoff + PROGHDR * i);
    }
  }

  lemma HeaderAgrees(disk: Disk, m0: seq<byte>, sp: nat)
    requires |m0| == TWO32 && SafeImage(disk, sp)
    ensures var m := Loaded(disk, m0, LoadOf(HeaderSeg()));
            var (ph, n) := Headers(m);
            && Word(m, ELFHDR) == ELF_MAGIC && (ph, n) == (ELFHDR + ImageWord(disk, 28), |ImageSegs(disk)|)
            && SegsAt(m, ph, n) == ImageSegs(disk)
  {
    HeaderWord(disk, m0, 0);
    HeaderWord(disk, m0, 28);
    HeaderWord(disk, m0, 44);
    SegsAgree(disk, m0);
  }

  /** Once the loop is through memory is as all the loads leave it. */
  lemma BootBytes(disk: Disk, m0: seq<byte>, states: seq<seq<byte>>, sp: nat)
    requires |m0| == TWO32 && SafeImage(disk, sp) && Rounds(disk, states, ELFHDR + ImageWord(disk, 28), sp)
    requires |states| == |ImageSegs(disk)| + 1 && states[0] == Loaded(disk, m0, LoadOf(HeaderSeg()))
    ensures forall x :: 0 <= x < TWO32 ==> states[|states| - 1][x] == BootByte(disk, x, m0[x])
  {
    var n := |ImageSegs(disk)|;
    HeaderAgrees(disk, m0, sp);
    LoadsInOrder(disk, states, ELFHDR + ImageWord(disk, 28), n, n, sp);
    forall x: nat | x < TWO32 ensures states[n][x] == BootByte(disk, x, m0[x]) {
      LastOverFront(LoadOf(HeaderSeg()), Loads(ImageSegs(disk)), n, x);
    }
  }

  lemma WholeSector(seg: Seg, o: nat)
    requires Words(seg) && o < SECTSIZE
    ensures Covers(LoadOf(seg), ELFHDR + o) == Covers(LoadOf(seg), ELFHDR)
  {
  }

  /** A load covers all of a sector or none of it. */
  lemma {:induction false} WholeSectors(segs: seq<Seg>, k: nat, o: nat)
    requires AllWords(segs) && k <= |segs| && o < SECTSIZE
    ensures LastOver(Loads(segs), k, ELFHDR + o) == LastOver(Loads(segs), k, ELFHDR)
  {
    if k > 0 {
      WholeSector(segs[k - 1], o);
      WholeSectors(segs, k - 1, o);
    }
  }

  /** So the bytes of the entry word stay together. */
  lemma HeaderSector(segs: seq<Seg>, o: nat)
    requires AllWords(segs) && o < SECTSIZE
    ensures var loads := AllLoads(segs);
            && LastOver(loads, |loads|, ELFHDR).Some?
            && LastOver(loads, |loads|, ELFHDR + o) == LastOver(loads, |loads|, ELFHDR)
  {
    WholeSectors(segs, |segs|, o);
    WholeSector(HeaderSeg(), o);
    FrontAlike(LoadOf(HeaderSeg()), Loads(segs), ELFHDR, ELFHDR + o);
  }

  lemma FrontAlike(load: Load, loads: seq<Load>, x: nat, y: nat)
    requires Covers(load, x) && Covers(load, y) && LastOver(loads, |loads|, y) == LastOver(loads, |loads|, x)
    ensures LastOver([load] + loads, |loads| + 1, y) == LastOver([load] + loads, |loads| + 1, x) != None
  {
    LastOverFront(load, loads, |loads|, x);
    LastOverFront(load, loads, |loads|, y);
  }

  lemma EntryByte(disk: Disk, o: nat, b: byte)
    requires 24 <= o < 28
    ensures BootByte(disk, ELFHDR + o, b) == ImageByte(disk, EntryAt(disk) + (o - 24))
  {
    HeaderSector(ImageSegs(disk), o);
  }

  lemma EntryWord(disk: Disk, m0: seq<byte>, m: seq<byte>)
    requires |m0| == |m| == TWO32 && forall x :: 0 <= x < TWO32 ==> m[x] == BootByte(disk, x, m0[x])
    ensures Word(m, ELFHDR + 24) == JumpTarget(disk)
  {
    EntryByte(disk, 24, m0[ELFHDR + 24]);
    EntryByte(disk, 25, m0[ELFHDR + 25]);
    EntryByte(disk, 26, m0[ELFHDR + 26]);
    EntryByte(disk, 27, m0[ELFHDR + 27]);
  }

  /** Booting an image that spares its headers and the loader always ends in a jump;
      what is then where, and where to, is read off the image. */
  method BootSafeImage(disk: Disk, mem: array<byte>, sp: nat) returns (r: Outcome)
    requires mem.Length == TWO32 && SafeImage(disk, sp)
    modifies mem
    ensures r == Jump(JumpTarget(disk))
    ensures forall x :: 0 <= x < TWO32 ==> mem[x] == BootByte(disk, x, old(mem[x]))
  {
    ghost var m0, segs, ph := mem[..], ImageSegs(disk), ELFHDR + ImageWord(disk, 28);
    HeaderAgrees(disk, m0, sp);
    ghost var states;
    r, states := BootMain(disk, mem, sp);
    if |states| <= |segs| {
      SafeNeverLost(disk, states, ph, |segs|, sp);
    }
    BootBytes(disk, m0, states, sp);
    EntryWord(disk, m0, mem[..]);
  }

  // ----- good images -----

  predicate Aligned(seg: Seg) {
    seg.pa + seg.memsz < TWO32 && seg.pa % SECTSIZE == seg.offset % SECTSIZE
  }

  /** Address and image offset of each segment are alike within a sector, and each
      load spares the segments before it. */
  ghost predicate InOrder(segs: seq<Seg>) {
    && (forall i :: 0 <= i < |segs| ==> Words(segs[i]) && Aligned(segs[i]))
    && forall i, j :: 0 <= i < j < |segs| ==> Spares(LoadOf(segs[j]), segs[i].pa, segs[i].pa + segs[i].memsz)
  }

  /** It does when each segment starts, rounded down to a sector, at or after the
      end of every earlier one. */
  lemma IncreasingOrder(segs: seq<Seg>)
    requires forall i :: 0 <= i < |segs| ==> Words(segs[i]) && Aligned(segs[i])
    requires forall i, j :: 0 <= i < j < |segs| ==> segs[i].pa + segs[i].memsz <= SectorDown(segs[j].pa)
    ensures InOrder(segs)
  {
  }

  lemma InsideCovered(seg: Seg, x: nat)
    requires Words(seg) && Aligned(seg) && seg.pa <= x < seg.pa + seg.memsz
    ensures Covers(LoadOf(seg), x) && SourceAt(LoadOf(seg), x) == seg.offset + (x - seg.pa)
  {
  }

  lemma OrderedByte(segs: seq<Seg>, i: nat, x: nat)
    requires InOrder(segs) && i < |segs| && segs[i].pa <= x < segs[i].pa + segs[i].memsz
    ensures x < TWO32 && Aligned(segs[i]) && LastOver(Loads(segs), |segs|, x) == Some(i)
  {
    assert Aligned(segs[i]);
    InsideCovered(segs[i], x);
    forall j | i < j < |segs| ensures !Covers(Loads(segs)[j], x) {
      assert Spares(LoadOf(segs[j]), segs[i].pa, segs[i].pa + segs[i].memsz);
    }
  }

  lemma OrderedLoad(segs: seq<Seg>, i: nat, x: nat)
    requires InOrder(segs) && i < |segs| && segs[i].pa <= x < segs[i].pa + segs[i].memsz
    ensures var loads := AllLoads(segs);
            && x < TWO32 && LastOver(loads, |loads|, x) == Some(i + 1) && loads[i + 1].from <= x
            && SourceAt(loads[i + 1], x) == segs[i].offset + (x - segs[i].pa)
  {
    OrderedByte(segs, i, x);
    InsideCovered(segs[i], x);
    LastOverFront(LoadOf(HeaderSeg()), Loads(segs), |segs|, x);
  }

  lemma OrderedContent(disk: Disk, segs: seq<Seg>, i: nat, x: nat, b: byte)
    requires InOrder(segs) && i < |segs| && segs[i].pa <= x < segs[i].pa + segs[i].memsz
    ensures var loads := AllLoads(segs);
            x < TWO32 && ByteAfter(disk, loads, |loads|, x, b) == ImageByte(disk, segs[i].offset + (x - segs[i].pa))
  {
    OrderedLoad(segs, i, x);
  }

  /** Segments in order all end up holding their bytes of the image, although
      every load but the last may spill into the segments after it. */
  lemma SegmentsLoaded(disk: Disk, i: nat, x: nat, b: byte)
    requires InOrder(ImageSegs(disk)) && i < |ImageSegs(disk)|
    requires var seg := ImageSegs(disk)[i]; seg.pa <= x < seg.pa + seg.memsz
    ensures var seg := ImageSegs(disk)[i];
            x < TWO32 && BootByte(disk, x, b) == ImageByte(disk, seg.offset + (x - seg.pa))
  {
    OrderedContent(disk, ImageSegs(disk), i, x, b);
  }

  /** The kernel image is safe, its segments come in order, and they spare its ELF
      header as well. */
  ghost predicate GoodImage(disk: Disk, sp: nat) {
    var segs := ImageSegs(disk);
    && SafeImage(disk, sp) && InOrder(segs)
    && forall i :: 0 <= i < |segs| ==> Spares(LoadOf(segs[i]), ELFHDR, ELFHDR + ELF_BYTES)
  }

  lemma GoodImageEntry(disk: Disk, sp: nat)
    requires GoodImage(disk, sp)
    ensures EntryAt(disk) == 24
  {
    var segs := ImageSegs(disk);
    LastOverFront(LoadOf(HeaderSeg()), Loads(segs), |segs|, ELFHDR);
    forall i | 0 <= i < |segs| ensures !Covers(Loads(segs)[i], ELFHDR) {
      assert Spares(LoadOf(segs[i]), ELFHDR, ELFHDR + ELF_BYTES);
    }
  }

  /** Memory holds every byte of every segment. */
  ghost predicate ImageInPlace(disk: Disk, m: seq<byte>, segs: seq<Seg>) {
    forall i, x :: 0 <= i < |segs| && segs[i].pa <= x < segs[i].pa + segs[i].memsz ==> ByteHeld(disk, m, segs[i], x)
  }

  predicate ByteHeld(disk: Disk, m: seq<byte>, seg: Seg, x: nat)
    requires seg.pa <= x
  {
    x < |m| && m[x] == ImageByte(disk, seg.offset + (x - seg.pa))
  }

  lemma GoodImageInPlace(disk: Disk, m0: seq<byte>, m: seq<byte>)
    requires InOrder(ImageSegs(disk)) && |m0| == |m| == TWO32
    requires forall x :: 0 <= x < TWO32 ==> m[x] == BootByte(disk, x, m0[x])
    ensures ImageInPlace(disk, m, ImageSegs(disk))
  {
    var segs := ImageSegs(disk);
    forall i, x | 0 <= i < |segs| && segs[i].pa <= x < segs[i].pa + segs[i].memsz
      ensures ByteHeld(disk, m, segs[i], x)
    {
      SegmentsLoaded(disk, i, x, if x < TWO32 then m0[x] else 0);
    }
  }

  /** Booting a good image always reaches the entry point in its ELF header, with
      every byte of every segment in place. */
  method BootGoodImage(disk: Disk, mem: array<byte>, sp: nat) returns (r: Outcome)
    requires mem.Length == TWO32 && GoodImage(disk, sp)
    modifies mem
    ensures r == Jump(ImageWord(disk, 24)) && ImageInPlace(disk, mem[..], ImageSegs(disk))
  {
    GoodImageEntry(disk, sp);
    ghost var m0 := mem[..];
    r := BootSafeImage(disk, mem, sp);
    GoodImageInPlace(disk, m0, mem[..]);
  }
}
