/** What one mapping means: identity, reach, and what the source promises of it. */
module PagingRuns {
  import opened Wrappers
  import opened Bytes
  import opened PageFrames
  import opened Paging

  /** The state of memory after a successful mm_continous_map, the first of `tables`
      being the free frames it took. */
  ghost predicate AfterMap(m0: Memory, m1: Memory, dir: nat, tables: seq<nat>, paddr: nat, vaddr: nat, size: nat)
    requires paddr < TWO32 && vaddr < TWO32 && size < TWO32
  {
    Mapped(m0, m1, CallOf(dir, paddr, vaddr, size), tables, DirCount(paddr, size))
  }

  ghost predicate Identity(m: Memory, dir: nat, beg: nat, end: nat)
    requires Framed(m) && dir < NR_FRAMES && end <= TWO32
  {
    forall x: nat :: beg <= x < end ==> Walk(m, dir, x) == Some(x)
  }

  /** Inside the directory entries of the call. */
  predicate Touched(paddr: nat, size: nat, x: nat)
    requires paddr < TWO32 && size < TWO32
  {
    Dir(RoundUp(paddr)) <= Dir(x) <= Dir(RangeEnd(paddr, size))
  }

  lemma WalkAfter(m0: Memory, m1: Memory, dir: nat, tables: seq<nat>, paddr: nat, vaddr: nat, size: nat, x: nat)
    requires paddr < TWO32 && vaddr < TWO32 && size < TWO32 && AfterMap(m0, m1, dir, tables, paddr, vaddr, size)
    requires x < TWO32 && Touched(paddr, size, x)
    ensures var page := RoundUp(vaddr) / PG_SIZE + ENTRIES * (Dir(x) - Dir(RoundUp(paddr))) + Tab(x);
            Walk(m1, dir, x) == if Tab(x) < TabCount(paddr, size) then Some(Wrap20(page) * PG_SIZE + Off(x)) else None
  {
  }

  /** Every address of the range lies in an entry the call fills. */
  lemma RangeFilled(paddr: nat, size: nat, x: nat)
    requires paddr < TWO32 && size < TWO32 && RoundUp(paddr) <= x < RangeEnd(paddr, size)
    ensures x < TWO32 && Touched(paddr, size, x) && Tab(x) < TabCount(paddr, size)
  {
  }

  /** The tables are indexed by the physical start but filled from the virtual
      one, always from index 0, so the range is mapped to itself exactly when the
      rounded virtual start is the 4 MB boundary at or below the rounded physical one. */
  lemma IdentityIff(m0: Memory, m1: Memory, dir: nat, tables: seq<nat>, paddr: nat, vaddr: nat, size: nat)
    requires paddr < TWO32 && vaddr < TWO32 && size < TWO32 && AfterMap(m0, m1, dir, tables, paddr, vaddr, size)
    requires RoundUp(paddr) < RangeEnd(paddr, size)
    ensures Identity(m1, dir, RoundUp(paddr), RangeEnd(paddr, size))
            <==> RoundUp(vaddr) == Dir(RoundUp(paddr)) * SPAN
  {
    if RoundUp(vaddr) == Dir(RoundUp(paddr)) * SPAN {
      AlignedIsIdentity(m0, m1, dir, tables, paddr, vaddr, size);
    } else {
      OthersMissStart(m0, m1, dir, tables, paddr, vaddr, size);
    }
  }

  lemma AlignedIsIdentity(m0: Memory, m1: Memory, dir: nat, tables: seq<nat>, paddr: nat, vaddr: nat, size: nat)
    requires paddr < TWO32 && vaddr < TWO32 && size < TWO32 && AfterMap(m0, m1, dir, tables, paddr, vaddr, size)
    requires RoundUp(vaddr) == Dir(RoundUp(paddr)) * SPAN
    ensures Identity(m1, dir, RoundUp(paddr), RangeEnd(paddr, size))
  {
    forall x: nat | RoundUp(paddr) <= x < RangeEnd(paddr, size) ensures Walk(m1, dir, x) == Some(x) {
      RangeFilled(paddr, size, x);
      EntryIsIdentity(m0, m1, dir, tables, paddr, vaddr, size, x);
    }
  }

  lemma OthersMissStart(m0: Memory, m1: Memory, dir: nat, tables: seq<nat>, paddr: nat, vaddr: nat, size: nat)
    requires paddr < TWO32 && vaddr < TWO32 && size < TWO32 && AfterMap(m0, m1, dir, tables, paddr, vaddr, size)
    requires RoundUp(paddr) < RangeEnd(paddr, size) && RoundUp(vaddr) != Dir(RoundUp(paddr)) * SPAN
    ensures Walk(m1, dir, RoundUp(paddr)) != Some(RoundUp(paddr))
  {
    var beg, vf := RoundUp(paddr), RoundUp(vaddr) / PG_SIZE;
    RangeFilled(paddr, size, beg);
    WalkAfter(m0, m1, dir, tables, paddr, vaddr, size, beg);
    Split(beg);
    PageNumber(vaddr, Dir(beg));
    FirstFrameOff(vf, Dir(beg), Tab(beg));
  }

  lemma PageNumber(vaddr: nat, d: nat)
    requires vaddr < TWO32
    ensures RoundUp(vaddr) / PG_SIZE < FRAME_LIMIT
    ensures RoundUp(vaddr) / PG_SIZE == d * ENTRIES ==> RoundUp(vaddr) == d * SPAN
  {
    RoundUpIsCeiling(vaddr);
  }

  lemma FirstFrameOff(vf: nat, d: nat, t: nat)
    requires vf < FRAME_LIMIT && d < ENTRIES && t < ENTRIES && vf != d * ENTRIES
    ensures Wrap20(vf + t) != d * ENTRIES + t
  {
  }

  /** Under that condition whatever the call maps, inside the range or not, is
      mapped to itself. */
  lemma EntryIsIdentity(m0: Memory, m1: Memory, dir: nat, tables: seq<nat>, paddr: nat, vaddr: nat, size: nat, x: nat)
    requires paddr < TWO32 && vaddr < TWO32 && size < TWO32 && AfterMap(m0, m1, dir, tables, paddr, vaddr, size)
    requires RoundUp(vaddr) == Dir(RoundUp(paddr)) * SPAN && x < TWO32 && Touched(paddr, size, x)
    ensures Walk(m1, dir, x) == if Tab(x) < TabCount(paddr, size) then Some(x) else None
  {
    WalkAfter(m0, m1, dir, tables, paddr, vaddr, size, x);
    Split(x);
    var d := Dir(RoundUp(paddr));
    assert d * SPAN / PG_SIZE == d * ENTRIES;
    assert d * ENTRIES + ENTRIES * (Dir(x) - d) + Tab(x) == x / PG_SIZE < FRAME_LIMIT;
  }

  /** Nothing from the end of the range on is mapped exactly when the range ends
      within the first 4 MB: past that every table touched is filled completely. */
  lemma PastEndIff(m0: Memory, m1: Memory, dir: nat, tables: seq<nat>, paddr: nat, vaddr: nat, size: nat)
    requires paddr < TWO32 && vaddr < TWO32 && size < TWO32 && AfterMap(m0, m1, dir, tables, paddr, vaddr, size)
    requires RoundUp(paddr) <= RangeEnd(paddr, size)
    ensures (forall x: nat :: RangeEnd(paddr, size) <= x < TWO32 && Touched(paddr, size, x) ==>
               Walk(m1, dir, x) == None)
            <==> RangeEnd(paddr, size) < SPAN
  {
    var end := RangeEnd(paddr, size);
    RangeFacts(paddr, size);
    if end < SPAN {
      forall x: nat | end <= x < TWO32 && Touched(paddr, size, x) ensures Walk(m1, dir, x) == None {
        WalkAfter(m0, m1, dir, tables, paddr, vaddr, size, x);
        Split(x);
      }
    } else {
      WalkAfter(m0, m1, dir, tables, paddr, vaddr, size, end);
      Split(end);
    }
  }

  /** A later call keeps every translation outside the directory entries it touches. */
  lemma LaterMapKeeps(m0: Memory, m1: Memory, dir: nat, s: Frames, tables: seq<nat>,
                      paddr: nat, vaddr: nat, size: nat, x: nat)
    requires paddr < TWO32 && vaddr < TWO32 && size < TWO32 && AfterMap(m0, m1, dir, tables, paddr, vaddr, size)
    requires Framed(m0) && TablesHeld(m0, dir, s) && tables == s.free
    requires x < TWO32 && !Touched(paddr, size, x)
    ensures Walk(m1, dir, x) == Walk(m0, dir, x)
  {
  }

  /** The directory stays one whose tables are held. */
  lemma TablesStayHeld(m0: Memory, m1: Memory, dir: nat, s: Frames, s': Frames, paddr: nat, vaddr: nat, size: nat)
    requires paddr < TWO32 && vaddr < TWO32 && size < TWO32 && AfterMap(m0, m1, dir, s.free, paddr, vaddr, size)
    requires Framed(m0) && Framed(m1) && TablesHeld(m0, dir, s) && Sound(s)
    requires s'.free == s.free[DirCount(paddr, size)..]
    ensures TablesHeld(m1, dir, s')
  {
  }

  lemma AlignedStart(beg: nat)
    requires beg % SPAN == 0
    ensures beg == Dir(beg) * SPAN && beg % PG_SIZE == 0 && beg / PG_SIZE == Dir(beg) * ENTRIES
  {
  }

  /** A start on a 4 MB boundary is its own rounding. */
  lemma AlignedRange(beg: nat, size: nat)
    requires beg + size < TWO32 && beg % SPAN == 0
    ensures RoundUp(beg) == beg == Dir(beg) * SPAN && RangeEnd(beg, size) == RoundDown(beg + size)
    ensures DirCount(beg, size) == Dir(RoundDown(beg + size)) - Dir(beg) + 1
    ensures beg / PG_SIZE == Dir(beg) * ENTRIES
  {
    AlignedStart(beg);
    RoundUpIsCeiling(beg);
  }

  lemma BelowDir(x: nat, d: nat)
    requires x < d * SPAN
    ensures Dir(x) < d
  {
  }

  /** A mapping to itself below the directory entries of a later call is kept. */
  lemma EarlierIdentityKept(m0: Memory, m1: Memory, dir: nat, s: Frames, paddr: nat, vaddr: nat, size: nat, end: nat)
    requires paddr < TWO32 && vaddr < TWO32 && size < TWO32 && AfterMap(m0, m1, dir, s.free, paddr, vaddr, size)
    requires Framed(m0) && TablesHeld(m0, dir, s)
    requires end <= Dir(RoundUp(paddr)) * SPAN && end <= TWO32 && Identity(m0, dir, 0, end)
    ensures Identity(m1, dir, 0, end)
  {
    forall x: nat | x < end ensures Walk(m1, dir, x) == Some(x) {
      BelowDir(x, Dir(RoundUp(paddr)));
      LaterMapKeeps(m0, m1, dir, s, s.free, paddr, vaddr, size, x);
    }
  }

  // ----- physical to virtual -----

  ghost predicate NothingMapped(m: Memory, dir: nat)
    requires Framed(m) && dir < NR_FRAMES
  {
    forall i :: 0 <= i < ENTRIES ==> !m[dir][i].p
  }

  predicate AddressLeads(m: Memory, dir: nat, paddr: nat, vaddr: nat, x: nat)
    requires Framed(m) && dir < NR_FRAMES && vaddr <= x
  {
    x < TWO32 && Walk(m, dir, x) == Some(paddr + (x - vaddr))
  }

  /** Virtual addresses from `vaddr` on lead to the physical ones from `paddr` on. */
  ghost predicate Leads(m: Memory, dir: nat, paddr: nat, vaddr: nat, len: nat)
    requires Framed(m) && dir < NR_FRAMES
  {
    forall x: nat :: vaddr <= x < vaddr + len ==> AddressLeads(m, dir, paddr, vaddr, x)
  }

  predicate PageLeads(m: Memory, dir: nat, pn: nat, vn: nat, p: nat)
    requires Framed(m) && dir < NR_FRAMES && vn <= p
  {
    p < FRAME_LIMIT && WalkPage(m, dir, p) == Some(pn + (p - vn))
  }

  ghost predicate PagesLead(m: Memory, dir: nat, pn: nat, vn: nat, n: nat)
    requires Framed(m) && dir < NR_FRAMES
  {
    forall p: nat :: vn <= p < vn + n ==> PageLeads(m, dir, pn, vn, p)
  }

  lemma PageInRange(x: nat, pn: nat, vn: nat, n: nat)
    requires vn * PG_SIZE <= x < vn * PG_SIZE + n * PG_SIZE
    ensures vn <= x / PG_SIZE < vn + n && x == x / PG_SIZE * PG_SIZE + x % PG_SIZE
    ensures (pn + (x / PG_SIZE - vn)) * PG_SIZE + x % PG_SIZE == pn * PG_SIZE + (x - vn * PG_SIZE)
  {
  }

  lemma LeadsByPages(m: Memory, dir: nat, pn: nat, vn: nat, n: nat)
    requires Framed(m) && dir < NR_FRAMES
    ensures Leads(m, dir, pn * PG_SIZE, vn * PG_SIZE, n * PG_SIZE) <==> PagesLead(m, dir, pn, vn, n)
  {
    if PagesLead(m, dir, pn, vn, n) {
      forall x: nat | vn * PG_SIZE <= x < vn * PG_SIZE + n * PG_SIZE
        ensures AddressLeads(m, dir, pn * PG_SIZE, vn * PG_SIZE, x)
      {
        PageInRange(x, pn, vn, n);
        assert PageLeads(m, dir, pn, vn, x / PG_SIZE);
        WalkByPage(m, dir, x / PG_SIZE, x % PG_SIZE);
      }
    }
    if Leads(m, dir, pn * PG_SIZE, vn * PG_SIZE, n * PG_SIZE) {
      forall p: nat | vn <= p < vn + n ensures PageLeads(m, dir, pn, vn, p) {
        assert AddressLeads(m, dir, pn * PG_SIZE, vn * PG_SIZE, p * PG_SIZE);
        WalkByPage(m, dir, p, 0);
      }
    }
  }

  /** The range of a call in page numbers: its two rounded starts and its end. */
  function Pages(paddr: nat, vaddr: nat, size: nat): (nat, nat, nat)
    requires paddr < TWO32 && vaddr < TWO32 && size < TWO32
  {
    (RoundUp(paddr) / PG_SIZE, RoundUp(vaddr) / PG_SIZE, RangeEnd(paddr, size) / PG_SIZE)
  }

  lemma PagesExact(paddr: nat, vaddr: nat, size: nat)
    requires paddr < TWO32 && vaddr < TWO32 && size < TWO32
    ensures var (pn, vn, e) := Pages(paddr, vaddr, size);
            && RoundUp(paddr) == pn * PG_SIZE && RoundUp(vaddr) == vn * PG_SIZE && RangeEnd(paddr, size) == e * PG_SIZE
            && pn < FRAME_LIMIT && vn < FRAME_LIMIT && e < FRAME_LIMIT
            && Dir(RoundUp(paddr)) == pn / ENTRIES && Dir(RangeEnd(paddr, size)) == e / ENTRIES
  {
    RoundUpIsCeiling(paddr);
    RoundUpIsCeiling(vaddr);
    RangeFacts(paddr, size);
    WholePages(RoundUp(paddr));
    WholePages(RoundUp(vaddr));
    WholePages(RangeEnd(paddr, size));
  }

  lemma WholePages(x: nat)
    requires x < TWO32 && x % PG_SIZE == 0
    ensures x == x / PG_SIZE * PG_SIZE && x / PG_SIZE < FRAME_LIMIT && Dir(x) == x / PG_SIZE / ENTRIES
  {
    Split(x);
  }

  /** The end of the pages filled by a call whose range ends at page `e`. */
  function FilledEnd(e: nat): nat { if e < ENTRIES then e else (e / ENTRIES + 1) * ENTRIES }

  lemma FilledPages(d: nat, e: nat, p: nat)
    ensures d <= p / ENTRIES <= e / ENTRIES && p % ENTRIES < Min(ENTRIES, e) <==> d * ENTRIES <= p < FilledEnd(e)
  {
    assert p == p / ENTRIES * ENTRIES + p % ENTRIES;
  }

  /** The walk at page `p` after a call on an empty directory. */
  lemma PageAfter(m0: Memory, m1: Memory, dir: nat, tables: seq<nat>, paddr: nat, vaddr: nat, size: nat, p: nat)
    requires paddr < TWO32 && vaddr < TWO32 && size < TWO32 && AfterMap(m0, m1, dir, tables, paddr, vaddr, size)
    requires NothingMapped(m0, dir) && p < FRAME_LIMIT
    ensures var (pn, vn, e) := Pages(paddr, vaddr, size); var d := pn / ENTRIES;
            WalkPage(m1, dir, p)
            == if d * ENTRIES <= p < FilledEnd(e) then Some(Wrap20(vn + (p - ENTRIES * d))) else None
  {
    PagesExact(paddr, vaddr, size);
    RangeFacts(paddr, size);
    var (pn, vn, e) := Pages(paddr, vaddr, size);
    FilledPages(pn / ENTRIES, e, p);
    WalkPageMapped(m0, m1, CallOf(dir, paddr, vaddr, size), tables, DirCount(paddr, size), p);
  }

  /** When the call does what its header comment says. With P and V the page
      numbers of the rounded starts and d the directory index of P: the pages from
      V on lie in the entries filled, and 2 V is P + 1024 d (mod 2^20). */
  predicate Meets(pn: nat, vn: nat, n: nat) {
    var d := pn / ENTRIES;
    && d * ENTRIES <= vn && vn + n <= FilledEnd(pn + n)
    && (2 * vn == pn + ENTRIES * d || 2 * vn == pn + ENTRIES * d + FRAME_LIMIT)
  }

  lemma WrapOnce(x: nat)
    requires x < FRAME_LIMIT
    ensures Wrap20(x) == x == Wrap20(x + FRAME_LIMIT)
  {
  }

  /** What a filled page leads to is what the comment promises exactly under the
      last of the three conditions. */
  lemma FrameWanted(pn: nat, vn: nat, p: nat)
    requires var d := pn / ENTRIES; d * ENTRIES <= vn <= p < FRAME_LIMIT
    requires pn + (p - vn) < FRAME_LIMIT
    ensures var d := pn / ENTRIES;
            Wrap20(vn + (p - ENTRIES * d)) == pn + (p - vn)
            <==> 2 * vn == pn + ENTRIES * d || 2 * vn == pn + ENTRIES * d + FRAME_LIMIT
  {
    var x := vn + (p - ENTRIES * (pn / ENTRIES));
    if x < FRAME_LIMIT { WrapOnce(x); } else { WrapOnce(x - FRAME_LIMIT); }
  }

  lemma MeetsLeads(m0: Memory, m1: Memory, dir: nat, tables: seq<nat>, paddr: nat, vaddr: nat, size: nat)
    requires paddr < TWO32 && vaddr < TWO32 && size < TWO32 && AfterMap(m0, m1, dir, tables, paddr, vaddr, size)
    requires NothingMapped(m0, dir)
    requires var (pn, vn, e) := Pages(paddr, vaddr, size); pn < e && Meets(pn, vn, e - pn)
    ensures var (pn, vn, e) := Pages(paddr, vaddr, size); PagesLead(m1, dir, pn, vn, e - pn)
  {
    PagesExact(paddr, vaddr, size);
    var (pn, vn, e) := Pages(paddr, vaddr, size);
    forall p: nat | vn <= p < vn + (e - pn) ensures PageLeads(m1, dir, pn, vn, p) {
      PageAfter(m0, m1, dir, tables, paddr, vaddr, size, p);
      FrameWanted(pn, vn, p);
    }
  }

  lemma LeadsMeets(m0: Memory, m1: Memory, dir: nat, tables: seq<nat>, paddr: nat, vaddr: nat, size: nat)
    requires paddr < TWO32 && vaddr < TWO32 && size < TWO32 && AfterMap(m0, m1, dir, tables, paddr, vaddr, size)
    requires NothingMapped(m0, dir)
    requires var (pn, vn, e) := Pages(paddr, vaddr, size); pn < e && PagesLead(m1, dir, pn, vn, e - pn)
    ensures var (pn, vn, e) := Pages(paddr, vaddr, size); Meets(pn, vn, e - pn)
  {
    PagesExact(paddr, vaddr, size);
    var (pn, vn, e) := Pages(paddr, vaddr, size);
    var last: nat := vn + (e - pn) - 1;
    assert PageLeads(m1, dir, pn, vn, vn) && PageLeads(m1, dir, pn, vn, last);
    PageAfter(m0, m1, dir, tables, paddr, vaddr, size, vn);
    PageAfter(m0, m1, dir, tables, paddr, vaddr, size, last);
    FrameWanted(pn, vn, vn);
  }

  /** A call on an empty directory maps the physical range to the virtual one, as
      its header comment says, exactly when `Meets` holds. */
  lemma PromiseIff(m0: Memory, m1: Memory, dir: nat, tables: seq<nat>, paddr: nat, vaddr: nat, size: nat)
    requires paddr < TWO32 && vaddr < TWO32 && size < TWO32 && AfterMap(m0, m1, dir, tables, paddr, vaddr, size)
    requires NothingMapped(m0, dir) && RoundUp(paddr) < RangeEnd(paddr, size)
    ensures var (pn, vn, e) := Pages(paddr, vaddr, size);
            Leads(m1, dir, RoundUp(paddr), RoundUp(vaddr), RangeEnd(paddr, size) - RoundUp(paddr))
            <==> Meets(pn, vn, e - pn)
  {
    PagesExact(paddr, vaddr, size);
    var (pn, vn, e) := Pages(paddr, vaddr, size);
    LeadsByPages(m1, dir, pn, vn, e - pn);
    if Meets(pn, vn, e - pn) {
      MeetsLeads(m0, m1, dir, tables, paddr, vaddr, size);
    }
    if PagesLead(m1, dir, pn, vn, e - pn) {
      LeadsMeets(m0, m1, dir, tables, paddr, vaddr, size);
    }
  }

  lemma BrokenPages()
    ensures Pages(0, 0x1000, 0x1000) == (0, 1, 1)
  {
  }

  /** One page from 0 to 0x1000, into an empty directory: 0x1000 is not mapped at
      all, and address 0 is mapped to 0x1000. */
  lemma PromiseBroken(m0: Memory, m1: Memory, dir: nat, tables: seq<nat>)
    requires AfterMap(m0, m1, dir, tables, 0, 0x1000, 0x1000) && NothingMapped(m0, dir)
    ensures !Leads(m1, dir, 0, 0x1000, 0x1000)
    ensures Walk(m1, dir, 0x1000) == None && Walk(m1, dir, 0) == Some(0x1000)
  {
    BrokenPages();
    PageAfter(m0, m1, dir, tables, 0, 0x1000, 0x1000, 0);
    PageAfter(m0, m1, dir, tables, 0, 0x1000, 0x1000, 1);
    WalkByPage(m1, dir, 0, 0);
    WalkByPage(m1, dir, 1, 0);
    assert !AddressLeads(m1, dir, 0, 0x1000, 0x1000);
  }

  /** The promise can also hold for a range that is not mapped to itself. */
  lemma PromiseKeptElsewhere(m0: Memory, m1: Memory, dir: nat, tables: seq<nat>)
    requires AfterMap(m0, m1, dir, tables, 0x40_2000, 0x40_1000, 0x1000) && NothingMapped(m0, dir)
    ensures Leads(m1, dir, 0x40_2000, 0x40_1000, 0x1000)
  {
    RoundUpIsCeiling(0x40_2000);
    RoundUpIsCeiling(0x40_1000);
    assert RangeEnd(0x40_2000, 0x1000) == 0x40_3000;
    assert Pages(0x40_2000, 0x40_1000, 0x1000) == (1026, 1025, 1027);
    PromiseIff(m0, m1, dir, tables, 0x40_2000, 0x40_1000, 0x1000);
  }
}
