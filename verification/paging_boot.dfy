/** The two mappings of a boot: init_page (kernel/page.c), then init_video
    (kernel/video.c) with paging on. */
module PagingBoot {
  import opened Wrappers
  import opened Bytes
  import opened PageFrames
  import opened Paging
  import opened PagingMmu
  import opened PagingRuns
  import opened PagingAccess

  /** Frames in a row, from `first` to the end of the pool. */
  ghost predicate FreeFrom(free: seq<nat>, first: nat) {
    |free| + first == NR_FRAMES && forall i :: 0 <= i < |free| ==> free[i] == first + i
  }

  /** What init_page maps: itself, up to the end of the kernel, or of the last 4 MB
      it begins if it reaches past the first. */
  ghost predicate KernelMapped(m: Memory, dir: nat, end: nat)
    requires Framed(m) && dir < NR_FRAMES && end < TWO32
  {
    forall p: nat :: p < FRAME_LIMIT ==>
      WalkPage(m, dir, p) == if p < FilledEnd(RoundDown(end) / PG_SIZE) then Some(p) else None
  }

  /** The frames used before the second call: the directory and the kernel's tables. */
  function FirstTable(end: nat): nat
    requires end < TWO32
  {
    RoundUp(end) / PG_SIZE + Dir(RoundDown(end)) + 2
  }

  lemma KernelRange(end: nat)
    requires end < TWO32
    ensures Pages(0, 0, end) == (0, 0, RoundDown(end) / PG_SIZE) && DirCount(0, end) == Dir(RoundDown(end)) + 1
  {
    AlignedRange(0, end);
  }

  /** The state in which paging is turned on. */
  lemma KernelStart(m0: Memory, m1: Memory, s0: Frames, s1: Frames, dir: nat, end: nat)
    requires end < TWO32 && AfterMap(m0, m1, dir, s0.free, 0, 0, end) && NothingMapped(m0, dir)
    requires Sound(s0) && Sound(s1) && dir !in s0.free && s1.free == s0.free[DirCount(0, end)..]
    ensures KernelMapped(m1, dir, end) && Direct(m1, dir) && TablesHeld(m1, dir, s1) && Separate(dir, s1.free)
    ensures Open(m1, dir)
  {
    KernelRange(end);
    MappedOpen(m0, m1, CallOf(dir, 0, 0, end), s0.free, DirCount(0, end));
    TablesStayHeld(m0, m1, dir, s0, s1, 0, 0, end);
    forall p: nat | p < FRAME_LIMIT
      ensures WalkPage(m1, dir, p) == if p < FilledEnd(RoundDown(end) / PG_SIZE) then Some(p) else None
    {
      PageAfter(m0, m1, dir, s0.free, 0, 0, end, p);
    }
  }

  lemma FreeRest(s0: Frames, s1: Frames, first: nat, n: nat)
    requires FreeFrom(s0.free, first) && n <= |s0.free| && s1.free == s0.free[n..]
    ensures FreeFrom(s1.free, first + n)
  {
  }

  /** The start of init_page: chain the frames, take one for the directory, clear it. */
  method NewDirectory(nr: nat, m: Memory) returns (mmu: Mmu)
    requires nr < NR_FRAMES && Framed(m)
    ensures fresh(mmu) && fresh(mmu.alloc) && fresh(mmu.alloc.pool)
    ensures mmu.alloc.Valid() && Framed(mmu.mem) && !mmu.paging && mmu.kpgdir == nr
    ensures NothingMapped(mmu.mem, nr) && FreeFrom(mmu.alloc.free, nr + 1)
  {
    mmu := new Mmu(nr, m);
    var got := mmu.alloc.AllocPage();
    mmu.kpgdir := got.value;
    var ok := mmu.Clear(mmu.kpgdir, mmu.kpgdir);
  }

  lemma FirstStart(m: Memory, s: Frames, dir: nat, end: nat)
    requires Framed(m) && Sound(s) && dir < NR_FRAMES && FreeFrom(s.free, dir + 1) && end < TWO32
    ensures Startable(m, s, CallOf(dir, 0, 0, end), false) && dir !in s.free
  {
  }

  /** Its call of mm_continous_map. */
  method MapKernel(mmu: Mmu, end: nat) returns (r: MapResult)
    requires mmu.alloc.Valid() && Framed(mmu.mem) && !mmu.paging && mmu.kpgdir < NR_FRAMES && end < TWO32
    requires NothingMapped(mmu.mem, mmu.kpgdir) && FreeFrom(mmu.alloc.free, mmu.kpgdir + 1)
    modifies mmu`mem, mmu.alloc, mmu.alloc.pool
    ensures mmu.alloc.Valid() && mmu.alloc.pool == old(mmu.alloc.pool)
    ensures r.Done? <==> DirCount(0, end) <= |old(mmu.alloc.free)|
    ensures r.Done? ==>
      && FreeFrom(mmu.alloc.free, mmu.kpgdir + 1 + DirCount(0, end)) && Framed(mmu.mem)
      && KernelMapped(mmu.mem, mmu.kpgdir, end) && Direct(mmu.mem, mmu.kpgdir)
      && TablesHeld(mmu.mem, mmu.kpgdir, mmu.alloc.View()) && Open(mmu.mem, mmu.kpgdir)
  {
    ghost var m0, s0 := mmu.mem, mmu.alloc.View();
    FirstStart(m0, s0, mmu.kpgdir, end);
    r := mmu.ContinuousMap(mmu.kpgdir, 0, 0, end);
    if r.Done? {
      FreeRest(s0, mmu.alloc.View(), mmu.kpgdir + 1, DirCount(0, end));
      KernelStart(m0, mmu.mem, s0, mmu.alloc.View(), mmu.kpgdir, end);
    }
  }

  /** What holds while paging is on and the kernel is mapped. */
  ghost predicate Running(mmu: Mmu, end: nat)
    reads mmu, mmu.alloc, mmu.alloc.pool
  {
    && end < TWO32 && mmu.Valid() && mmu.paging && mmu.kpgdir == RoundUp(end) / PG_SIZE
    && FreeFrom(mmu.alloc.free, FirstTable(end))
    && KernelMapped(mmu.mem, mmu.kpgdir, end) && Direct(mmu.mem, mmu.kpgdir) && Open(mmu.mem, mmu.kpgdir)
  }

  /** init_page; None is a panic. */
  method InitPage(end: nat, m: Memory) returns (r: Option<Mmu>)
    requires end < TWO32 && RoundUp(end) / PG_SIZE < NR_FRAMES && Framed(m)
    ensures r.Some? <==> FirstTable(end) <= NR_FRAMES
    ensures r.Some? ==>
      && fresh(r.value) && fresh(r.value.alloc) && fresh(r.value.alloc.pool)
      && Running(r.value, end) && Accessible(r.value.mem, r.value.kpgdir)
  {
    var mmu := NewDirectory(RoundUp(end) / PG_SIZE, m);
    KernelRange(end);
    var mapped := MapKernel(mmu, end);
    if !mapped.Done? {
      return None;
    }
    mmu.paging := true;
    OpenGrants(mmu.mem, mmu.kpgdir);
    return Some(mmu);
  }

  // ----- the second mapping -----

  /** Page `p` is in reach in round `j`: below the end of the kernel's last 4 MB, or
      mapped by the rounds before. */
  predicate InReach(d: nat, d0: nat, j: nat, p: nat) {
    p / ENTRIES <= d || d0 <= p / ENTRIES < d0 + j
  }

  /** So are, in round `j`, the table it fills and the directory `nr`. */
  predicate RoundInReach(d: nat, d0: nat, nr: nat, j: nat) {
    InReach(d, d0, j, nr + d + 2 + j) && InReach(d, d0, j, nr)
  }

  /** All `k` rounds of a call on the entries from `d0` on are: when the first is,
      and, unless the call begins right after the kernel's entries and so puts in
      reach itself what comes next, when the last is. */
  lemma AllInReach(d: nat, d0: nat, nr: nat, k: nat)
    requires d < NR_FRAMES / ENTRIES && d <= d0 && 0 < k && nr + d + 2 + k <= NR_FRAMES
    requires d0 == d ==> nr <= d * ENTRIES + 1
    ensures (forall j: nat :: j < k ==> RoundInReach(d, d0, nr, j))
            <==> nr + d + 2 < (d + 1) * ENTRIES && (d0 > d + 1 ==> nr + d + 2 + k <= (d + 1) * ENTRIES)
  {
    var first, reach := nr + d + 2, (d + 1) * ENTRIES;
    if reach <= first {
      assert !RoundInReach(d, d0, nr, 0);
    } else if d0 > d + 1 && reach < first + k {
      assert !RoundInReach(d, d0, nr, reach - first);
    }
  }

  /** When a boot gets through: the kernel reaches past the first 4 MB, and the frames
      init_page left first lie below the end of the last 4 MB it begins. */
  predicate Boots(end: nat, vmem: nat, size: nat)
    requires end < TWO32 && vmem < TWO32 && size < TWO32
  {
    var d, first, k := Dir(RoundDown(end)), FirstTable(end), DirCount(vmem, size);
    && first + k <= NR_FRAMES
    && (k > 0 ==> SPAN <= RoundDown(end) && first < (d + 1) * ENTRIES)
    && (k > 0 && Dir(RoundUp(vmem)) > d + 1 ==> first + k <= (d + 1) * ENTRIES)
  }

  /** The kernel ends in RAM. The video memory starts on a 4 MB boundary above it, or
      anywhere beyond RAM. */
  predicate VideoRange(end: nat, vmem: nat, size: nat) {
    && end < PHY_SIZE && RoundUp(end) / PG_SIZE < NR_FRAMES && vmem < TWO32 && size < TWO32
    && ((vmem % SPAN == 0 && RoundDown(end) <= vmem && vmem + size < TWO32) || PHY_SIZE <= RoundUp(vmem))
  }

  lemma KernelPages(end: nat)
    requires end < PHY_SIZE && RoundUp(end) / PG_SIZE < NR_FRAMES
    ensures var d, nr, e := Dir(RoundDown(end)), RoundUp(end) / PG_SIZE, RoundDown(end) / PG_SIZE;
            && d < NR_FRAMES / ENTRIES && e <= nr <= e + 1 && RoundDown(end) == e * PG_SIZE
            && FilledEnd(e) == if SPAN <= RoundDown(end) then (d + 1) * ENTRIES else e
  {
    RoundUpIsCeiling(end);
    assert RoundDown(end) / PG_SIZE / ENTRIES == Dir(RoundDown(end)) by {
      Split(RoundDown(end));
    }
  }

  lemma BeyondRam(x: nat)
    requires PHY_SIZE <= x
    ensures NR_FRAMES <= ENTRIES * Dir(x) && NR_FRAMES / ENTRIES <= Dir(x)
  {
  }

  lemma AlignedCall(dir: nat, vmem: nat, size: nat)
    requires vmem % SPAN == 0 && vmem + size < TWO32
    ensures var c := CallOf(dir, vmem, vmem, size);
            && c.vf == ENTRIES * c.d0 && vmem == c.d0 * SPAN && (SPAN <= vmem ==> c.count == ENTRIES)
            && DirCount(vmem, size) == Dir(RoundDown(vmem + size)) - Dir(vmem) + 1
  {
    AlignedRange(vmem, size);
    RangeFacts(vmem, size);
  }

  lemma VideoCall(end: nat, vmem: nat, size: nat)
    requires VideoRange(end, vmem, size)
    ensures var c := CallOf(RoundUp(end) / PG_SIZE, vmem, vmem, size);
            && (c.vf == ENTRIES * c.d0 || NR_FRAMES <= ENTRIES * c.d0)
            && (SPAN <= RoundDown(end) ==> c.count == ENTRIES || NR_FRAMES <= ENTRIES * c.d0)
            && RoundDown(end) <= c.d0 * SPAN
  {
    if PHY_SIZE <= RoundUp(vmem) {
      BeyondRam(RoundUp(vmem));
    } else {
      AlignedCall(RoundUp(end) / PG_SIZE, vmem, size);
    }
  }

  lemma KernelBelow(end: nat, d0: nat)
    requires end < PHY_SIZE && RoundUp(end) / PG_SIZE < NR_FRAMES && RoundDown(end) <= d0 * SPAN
    ensures var d, nr := Dir(RoundDown(end)), RoundUp(end) / PG_SIZE; d <= d0 && (d0 == d ==> nr <= d * ENTRIES + 1)
  {
    KernelPages(end);
  }

  /** Behind a kernel of more than 4 MB. */
  lemma BigKernelReaches(m: Memory, c: Call, end: nat, j: nat, t: nat)
    requires Framed(m) && c.dir < NR_FRAMES && t < NR_FRAMES && end < TWO32 && KernelMapped(m, c.dir, end)
    requires c.count == ENTRIES || NR_FRAMES <= ENTRIES * c.d0
    requires FilledEnd(RoundDown(end) / PG_SIZE) == (Dir(RoundDown(end)) + 1) * ENTRIES
    requires t == c.dir + Dir(RoundDown(end)) + 2 + j
    ensures RoundReached(m, c, j, t) == RoundInReach(Dir(RoundDown(end)), c.d0, c.dir, j)
  {
  }

  /** And behind a smaller one: not even the directory is mapped. */
  lemma SmallKernelReaches(m: Memory, c: Call, end: nat, t: nat)
    requires Framed(m) && c.dir < NR_FRAMES && t < NR_FRAMES && end < TWO32 && KernelMapped(m, c.dir, end)
    requires FilledEnd(RoundDown(end) / PG_SIZE) <= c.dir
    ensures !RoundReached(m, c, 0, t)
  {
    assert WalkPage(m, c.dir, c.dir) == None;
  }

  /** The frames the second call reaches, as the tables of the first one have it. */
  lemma VideoReaches(m: Memory, s: Frames, end: nat, vmem: nat, size: nat)
    requires VideoRange(end, vmem, size) && Framed(m) && KernelMapped(m, RoundUp(end) / PG_SIZE, end)
    requires Separate(RoundUp(end) / PG_SIZE, s.free) && FreeFrom(s.free, FirstTable(end))
    requires DirCount(vmem, size) <= |s.free|
    ensures AllReached(m, CallOf(RoundUp(end) / PG_SIZE, vmem, vmem, size), s.free, DirCount(vmem, size))
            <==> Boots(end, vmem, size)
  {
    var nr, d, k := RoundUp(end) / PG_SIZE, Dir(RoundDown(end)), DirCount(vmem, size);
    var c := CallOf(nr, vmem, vmem, size);
    VideoCall(end, vmem, size);
    KernelPages(end);
    KernelBelow(end, c.d0);
    if k == 0 {
    } else if SPAN <= RoundDown(end) {
      forall j: nat | j < k ensures RoundReached(m, c, j, s.free[j]) == RoundInReach(d, c.d0, nr, j) {
        BigKernelReaches(m, c, end, j, s.free[j]);
      }
      AllInReach(d, c.d0, nr, k);
    } else {
      SmallKernelReaches(m, c, end, s.free[0]);
    }
  }

  lemma VideoStart(m: Memory, s: Frames, end: nat, vmem: nat, size: nat)
    requires VideoRange(end, vmem, size) && Framed(m) && Sound(s)
    requires TablesHeld(m, RoundUp(end) / PG_SIZE, s) && Direct(m, RoundUp(end) / PG_SIZE)
    ensures Startable(m, s, CallOf(RoundUp(end) / PG_SIZE, vmem, vmem, size), true)
  {
    VideoCall(end, vmem, size);
  }

  lemma VideoEnds(r: MapResult, m: Memory, s: Frames, end: nat, vmem: nat, size: nat)
    requires VideoRange(end, vmem, size) && Framed(m) && KernelMapped(m, RoundUp(end) / PG_SIZE, end)
    requires Separate(RoundUp(end) / PG_SIZE, s.free) && FreeFrom(s.free, FirstTable(end))
    requires EndsAs(r, true, m, CallOf(RoundUp(end) / PG_SIZE, vmem, vmem, size), s.free, DirCount(vmem, size))
    ensures r.Done? <==> Boots(end, vmem, size)
    ensures r.NoFrame? ==> FirstTable(end) + DirCount(vmem, size) > NR_FRAMES
  {
    if DirCount(vmem, size) <= |s.free| {
      VideoReaches(m, s, end, vmem, size);
    }
  }

  /** The kernel's identity mapping, address by address. */
  lemma KernelIdentity(m: Memory, dir: nat, end: nat)
    requires Framed(m) && dir < NR_FRAMES && end < TWO32 && KernelMapped(m, dir, end)
    ensures Identity(m, dir, 0, RoundDown(end))
  {
    forall x: nat | x < RoundDown(end) ensures Walk(m, dir, x) == Some(x) {
      WalkByPage(m, dir, x / PG_SIZE, x % PG_SIZE);
      assert x / PG_SIZE < FilledEnd(RoundDown(end) / PG_SIZE);
    }
  }

  /** Both mappings in place: the kernel's, and the video memory's, which is one to
      itself exactly from a 4 MB boundary on. */
  ghost predicate BothMapped(m: Memory, dir: nat, end: nat, vmem: nat, size: nat)
    requires Framed(m) && dir < NR_FRAMES && end < TWO32 && vmem < TWO32 && size < TWO32
  {
    && Identity(m, dir, 0, RoundDown(end))
    && (RoundUp(vmem) < RangeEnd(vmem, size) ==>
          (Identity(m, dir, RoundUp(vmem), RangeEnd(vmem, size)) <==> RoundUp(vmem) % SPAN == 0))
  }

  lemma VideoMapped(m0: Memory, m1: Memory, s0: Frames, s1: Frames, end: nat, vmem: nat, size: nat)
    requires VideoRange(end, vmem, size) && Framed(m0) && KernelMapped(m0, RoundUp(end) / PG_SIZE, end)
    requires Sound(s0) && TablesHeld(m0, RoundUp(end) / PG_SIZE, s0)
    requires AfterMap(m0, m1, RoundUp(end) / PG_SIZE, s0.free, vmem, vmem, size)
    requires s1.free == s0.free[DirCount(vmem, size)..]
    ensures Framed(m1) && TablesHeld(m1, RoundUp(end) / PG_SIZE, s1)
    ensures BothMapped(m1, RoundUp(end) / PG_SIZE, end, vmem, size)
  {
    var dir := RoundUp(end) / PG_SIZE;
    VideoCall(end, vmem, size);
    KernelIdentity(m0, dir, end);
    EarlierIdentityKept(m0, m1, dir, s0, vmem, vmem, size, RoundDown(end));
    TablesStayHeld(m0, m1, dir, s0, s1, vmem, vmem, size);
    if RoundUp(vmem) < RangeEnd(vmem, size) {
      IdentityIff(m0, m1, dir, s0.free, vmem, vmem, size);
      OnBoundary(RoundUp(vmem));
    }
  }

  lemma OnBoundary(x: nat)
    ensures x == Dir(x) * SPAN <==> x % SPAN == 0
  {
  }

  lemma VideoRights(m0: Memory, m1: Memory, dir: nat, s: Frames, vmem: nat, size: nat)
    requires vmem < TWO32 && size < TWO32 && AfterMap(m0, m1, dir, s.free, vmem, vmem, size)
    requires Framed(m0) && TablesHeld(m0, dir, s) && Open(m0, dir)
    ensures Framed(m1) && Accessible(m1, dir)
  {
    MappedOpen(m0, m1, CallOf(dir, vmem, vmem, size), s.free, DirCount(vmem, size));
    OpenGrants(m1, dir);
  }

  /** The mapping of init_video, made under the kernel's. */
  method InitVideo(mmu: Mmu, end: nat, vmem: nat, size: nat) returns (r: MapResult)
    requires Running(mmu, end) && VideoRange(end, vmem, size)
    modifies mmu`mem, mmu.alloc, mmu.alloc.pool
    ensures r.Done? <==> Boots(end, vmem, size)
    ensures r.NoFrame? ==> FirstTable(end) + DirCount(vmem, size) > NR_FRAMES
    ensures r.Done? ==> mmu.Valid() && BothMapped(mmu.mem, mmu.kpgdir, end, vmem, size)
    ensures r.Done? ==> Accessible(mmu.mem, mmu.kpgdir)
  {
    ghost var m0, s0 := mmu.mem, mmu.alloc.View();
    VideoStart(m0, s0, end, vmem, size);
    r := mmu.ContinuousMap(mmu.kpgdir, vmem, vmem, size);
    VideoEnds(r, m0, s0, end, vmem, size);
    if r.Done? {
      VideoMapped(m0, mmu.mem, s0, mmu.alloc.View(), end, vmem, size);
      VideoRights(m0, mmu.mem, mmu.kpgdir, s0, vmem, size);
    }
  }

  /** `OutOfFrames` is a panic and `Faulted` a page fault; neither returns. */
  datatype BootResult = Booted(mmu: Mmu) | OutOfFrames | Faulted

  /** init_page and init_video. */
  method Boot(end: nat, m: Memory, vmem: nat, size: nat) returns (r: BootResult)
    requires VideoRange(end, vmem, size) && Framed(m)
    ensures r.Booted? <==> Boots(end, vmem, size)
    ensures r.OutOfFrames? ==> FirstTable(end) + DirCount(vmem, size) > NR_FRAMES
    ensures r.Booted? ==> r.mmu.Valid() && BothMapped(r.mmu.mem, r.mmu.kpgdir, end, vmem, size)
    ensures r.Booted? ==> Accessible(r.mmu.mem, r.mmu.kpgdir) && r.mmu.kpgdir == (end + 4095) / 4096
  {
    RoundUpIs(end);
    KernelPage(end);
    var started := InitPage(end, m);
    if started.None? {
      return OutOfFrames;
    }
    var mapped := InitVideo(started.value, end, vmem, size);
    match mapped
    case Done => return Booted(started.value);
    case NoFrame => return OutOfFrames;
    case PageFault => return Faulted;
  }

  /** `Boots` in plain numbers: the kernel ends in page `last`, its frames before page
      `nr`; the video memory is the pages from `first` up to `end`. */
  lemma BootsIs(kernel: nat, vmem: nat, size: nat)
    requires kernel < PHY_SIZE && vmem < TWO32 && size < TWO32
    ensures var last, nr := kernel / 4096, (kernel + 4095) / 4096;
            var first := (vmem + 4095) / 4096 % 0x10_0000;
            var end := (4096 * first + size) % 0x1_0000_0000 / 4096;
            var tables := if end / 1024 < first / 1024 then 0 else end / 1024 - first / 1024 + 1;
            var table, reach := nr + last / 1024 + 2, 1024 * (last / 1024 + 1);
            Boots(kernel, vmem, size) <==>
              && table + tables <= 32768
              && (tables > 0 ==> last >= 1024 && table < reach)
              && (tables > 0 && first / 1024 > last / 1024 + 1 ==> table + tables <= reach)
  {
    CallIs(0, vmem, vmem, size);
    RoundUpIs(kernel);
    RoundUpIs(vmem);
    KernelPage(kernel);
  }

  lemma KernelPage(kernel: nat)
    requires kernel < PHY_SIZE
    ensures RoundDown(kernel) == 4096 * (kernel / 4096) && Dir(RoundDown(kernel)) == kernel / 4096 / 1024
    ensures (kernel + 4095) / 4096 % 0x10_0000 == (kernel + 4095) / 4096
    ensures SPAN <= RoundDown(kernel) <==> kernel / 4096 >= 1024
  {
    EndIs(kernel, 0);
  }

  lemma SmallKernel()
    ensures VideoRange(0x30_0000, 0xfd00_0000, 800 * 600 * 3) && !Boots(0x30_0000, 0xfd00_0000, 800 * 600 * 3)
    ensures FirstTable(0x30_0000) + DirCount(0xfd00_0000, 800 * 600 * 3) <= NR_FRAMES
  {
    AlignedCall(0, 0xfd00_0000, 800 * 600 * 3);
    RoundUpIsCeiling(0x30_0000);
    assert RoundDown(0x30_0000) == 0x30_0000 && FirstTable(0x30_0000) == 0x302;
  }

  /** A kernel that ends at 3 MB does not get its 800 x 600 screen. */
  method BootSmallKernel(m: Memory) returns (r: BootResult)
    requires Framed(m)
    ensures r == Faulted
  {
    SmallKernel();
    r := Boot(0x30_0000, m, 0xfd00_0000, 800 * 600 * 3);
  }
}
