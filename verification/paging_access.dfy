/** Access rights, and the page tables bit by bit, as kernel/page.h lays them out.
    Nothing here goes through what mm_continous_map writes them with. */
module PagingAccess {
  import opened Wrappers
  import opened Bytes
  import opened PageFrames
  import opened Paging
  import opened PagingRuns

  /** The 32-bit word of an entry: p, rw, us, nine other bits, frame. */
  function Raw(e: Entry): nat {
    (if e.p then 1 else 0) + (if e.rw then 2 else 0) + (if e.us then 4 else 0) + 8 * e.other + 4096 * e.frame
  }

  /** Where an address leads, and whether it may be written and used by user code. */
  datatype Access = Access(address: nat, writable: bool, user: bool)

  /** The page walk with the rights of both levels (Intel SDM Vol. 3A, sections 4.3 and 4.6). */
  function AccessAt(m: Memory, dir: nat, x: nat): Option<Access>
    requires Framed(m) && dir < 32768 && x < 0x1_0000_0000
  {
    var pde := m[dir][x / 0x40_0000];
    if !pde.p || pde.frame >= 32768 then None
    else
      var pte := m[pde.frame][x / 4096 % 1024];
      if !pte.p then None
      else Some(Access(4096 * pte.frame + x % 4096, pde.rw && pte.rw, pde.us && pte.us))
  }

  /** It leads where the walk does. */
  lemma WalkIsAccess(m: Memory, dir: nat, x: nat)
    requires Framed(m) && dir < NR_FRAMES && x < TWO32
    ensures Walk(m, dir, x) == match AccessAt(m, dir, x)
              case None => None
              case Some(a) => Some(a.address)
  {
    assert Tab(x) == x / 4096 % 1024;
  }

  /** Whatever is mapped may be written, and used by user code. */
  ghost predicate Accessible(m: Memory, dir: nat)
    requires Framed(m) && dir < 32768
  {
    forall x: nat :: x < 0x1_0000_0000 && AccessAt(m, dir, x).Some? ==>
      AccessAt(m, dir, x).value.writable && AccessAt(m, dir, x).value.user
  }

  predicate OpenEntry(e: Entry) { e.p ==> e.rw && e.us }

  ghost predicate OpenTable(t: seq<Entry>) { forall i :: 0 <= i < |t| ==> OpenEntry(t[i]) }

  /** Every present entry of directory and tables grants both. */
  ghost predicate Open(m: Memory, dir: nat)
    requires Framed(m) && dir < NR_FRAMES
  {
    forall i :: 0 <= i < ENTRIES && m[dir][i].p ==> OpenAt(m, m[dir][i])
  }

  ghost predicate OpenAt(m: Memory, pde: Entry)
    requires Framed(m)
  {
    OpenEntry(pde) && (pde.frame < NR_FRAMES ==> OpenTable(m[pde.frame]))
  }

  lemma OpenGrants(m: Memory, dir: nat)
    requires Framed(m) && dir < NR_FRAMES && Open(m, dir)
    ensures Accessible(m, dir)
  {
    forall x: nat | x < 0x1_0000_0000 && AccessAt(m, dir, x).Some?
      ensures AccessAt(m, dir, x).value.writable && AccessAt(m, dir, x).value.user
    {
      var pde := m[dir][x / 0x40_0000];
      assert OpenAt(m, pde) && OpenEntry(m[pde.frame][x / 4096 % 1024]);
    }
  }

  /** A call that leaves the tables in use alone keeps them so. */
  lemma MappedOpen(m0: Memory, m1: Memory, c: Call, tables: seq<nat>, n: nat)
    requires Mapped(m0, m1, c, tables, n) && Open(m0, c.dir)
    requires forall i :: 0 <= i < ENTRIES && m0[c.dir][i].p ==>
      m0[c.dir][i].frame != c.dir && Spared(tables, n, m0[c.dir][i].frame)
    ensures Open(m1, c.dir)
  {
    forall i | 0 <= i < ENTRIES && m1[c.dir][i].p ensures OpenAt(m1, m1[c.dir][i]) {
      if c.d0 <= i < c.d0 + n {
        assert m1[tables[i - c.d0]] == TableOf(c, i - c.d0);
      } else {
        assert m1[c.dir][i] == m0[c.dir][i] && OpenAt(m0, m0[c.dir][i]);
      }
    }
  }

  lemma {:induction false} Wrap20Is(x: nat)
    ensures Wrap20(x) == x % 0x10_0000
  {
    if x >= FRAME_LIMIT {
      Wrap20Is(x - FRAME_LIMIT);
    }
  }

  /** The words a call writes. Table `k` maps consecutive frames with p, rw and us set and
      nothing else, and is clear behind them; its directory entry gets the same bits and
      keeps the other nine. */
  lemma WordsWritten(m0: Memory, m1: Memory, c: Call, tables: seq<nat>, n: nat, k: nat, i: nat)
    requires Mapped(m0, m1, c, tables, n) && k < n && i < 1024
    ensures Raw(m1[tables[k]][i]) == if i < c.count then 4096 * ((c.vf + 1024 * k + i) % 0x10_0000) + 7 else 0
    ensures Raw(m1[c.dir][c.d0 + k]) == 4096 * tables[k] + 8 * m0[c.dir][c.d0 + k].other + 7
  {
    assert m1[tables[k]] == TableOf(c, k);
    Wrap20Is(c.vf + 1024 * k + i);
  }

  /** What a call of mm_continous_map is, in plain numbers: the pages of its range are
      those from the rounded start on; `end` is the page it stops at. */
  lemma CallIs(dir: nat, paddr: nat, vaddr: nat, size: nat)
    requires paddr < TWO32 && vaddr < TWO32 && size < TWO32
    ensures var first, page := (paddr + 4095) / 4096 % 0x10_0000, (vaddr + 4095) / 4096 % 0x10_0000;
            var end := (4096 * first + size) % 0x1_0000_0000 / 4096;
            && CallOf(dir, paddr, vaddr, size) == Call(dir, first / 1024, page, if end < 1024 then end else 1024)
            && DirCount(paddr, size) == if end / 1024 < first / 1024 then 0 else end / 1024 - first / 1024 + 1
  {
    RoundUpIs(paddr);
    RoundUpIs(vaddr);
    var first := (paddr + 4095) / 4096 % 0x10_0000;
    EndIs(4096 * first, size);
  }

  lemma RoundUpIs(x: nat)
    requires x < TWO32
    ensures RoundUp(x) == 4096 * ((x + 4095) / 4096 % 0x10_0000)
  {
    RoundUpIsCeiling(x);
  }

  lemma EndIs(beg: nat, size: nat)
    requires beg < TWO32 && size < TWO32
    ensures var end := (beg + size) % 0x1_0000_0000 / 4096;
            RoundDown(Wrap32(beg + size)) == 4096 * end && Dir(4096 * end) == end / 1024
  {
  }
}
