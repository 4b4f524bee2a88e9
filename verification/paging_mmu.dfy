/** The page tables in memory: mm_continous_map of kernel/page.c, whose stores go
    through the tables themselves once paging is on. */
module PagingMmu {
  import opened Wrappers
  import opened Bytes
  import opened PageFrames
  import opened Paging

  class Mmu {
    var alloc: FrameAllocator
    var mem: Memory
    var kpgdir: nat   // and CR3
    var paging: bool  // bit PG of CR0

    ghost predicate Valid()
      reads this, alloc, alloc.pool
    {
      alloc.Valid() && Framed(mem) && TablesHeld(mem, kpgdir, alloc.View())
    }

    /** The machine once init_page has chained the frames from `nr` up;
        memory holds anything. */
    constructor (nr: nat, m: Memory)
      requires nr < NR_FRAMES && Framed(m)
      ensures alloc.Valid() && alloc.View() == Initial(nr) && mem == m && !paging
      ensures fresh(alloc) && fresh(alloc.pool)
    {
      alloc := new FrameAllocator(nr);
      mem, kpgdir, paging := m, 0, false;
    }

    /** Where an access to virtual address `x` goes. */
    function Physical(x: nat): Option<nat>
      requires Framed(mem) && kpgdir < NR_FRAMES && x < TWO32
      reads this
    {
      if paging then Walk(mem, kpgdir, x) else Some(x)
    }

    /** The frame behind page `p`. */
    function Target(p: nat): Option<nat>
      requires Framed(mem) && kpgdir < NR_FRAMES && p < NR_FRAMES
      reads this
    {
      if paging then WalkPage(mem, kpgdir, p) else Some(p)
    }

    /** Page `p` can be accessed. */
    predicate Present(p: nat)
      requires Framed(mem) && kpgdir < NR_FRAMES && p < NR_FRAMES
      reads this
    {
      Target(p).Some?
    }

    /** Where page `p` can be accessed at all it is frame `p`. */
    predicate Straight(p: nat)
      requires Framed(mem) && kpgdir < NR_FRAMES && p < NR_FRAMES
      reads this
    {
      Present(p) ==> Target(p) == Some(p)
    }

    /** A store to word `i` of page `p`; false is a page fault. It reaches memory if the
        page is mapped to RAM. */
    method StoreEntry(p: nat, i: nat, e: Entry) returns (ok: bool)
      requires Framed(mem) && kpgdir < NR_FRAMES && p < NR_FRAMES && i < ENTRIES
      modifies this`mem
      ensures Framed(mem) && ok == old(Present(p))
      ensures ok ==> var f := old(Target(p)).value;
                     mem == if f < NR_FRAMES then old(mem)[f := old(mem)[f][i := e]] else old(mem)
      ensures !ok ==> mem == old(mem)
    {
      WalkByPage(mem, kpgdir, p, 4 * i);
      var x := Physical(p * PG_SIZE + 4 * i);
      if x.None? {
        return false;
      }
      var frame, word := x.value / PG_SIZE, x.value % PG_SIZE / 4;
      if frame < NR_FRAMES {
        mem := mem[frame := mem[frame][word := e]];
      }
      return true;
    }

    /** If page `t` can be accessed it is frame `f`, and that is not in use by the
        tables themselves. */
    ghost predicate Fillable(t: nat, f: nat)
      requires Framed(mem) && kpgdir < NR_FRAMES && t < NR_FRAMES
      reads this
    {
      f < NR_FRAMES && (Present(t) ==> Target(t) == Some(f)) && (paging ==> Detached(mem, kpgdir, f))
    }

    /** One store of a loop over the page of `t`: the page stays reachable. */
    method FillEntry(t: nat, ghost f: nat, i: nat, e: Entry) returns (ok: bool)
      requires Framed(mem) && kpgdir < NR_FRAMES && t < NR_FRAMES && i < ENTRIES && Fillable(t, f)
      modifies this`mem
      ensures Framed(mem) && Fillable(t, f) && Present(t) == old(Present(t)) == ok
      ensures mem == if ok then old(mem)[f := old(mem)[f][i := e]] else old(mem)
    {
      DetachedStore(f, mem[f][i := e]);
      ok := StoreEntry(t, i, e);
    }

    lemma DetachedStore(f: nat, table: seq<Entry>)
      requires Framed(mem) && kpgdir < NR_FRAMES && f < NR_FRAMES && |table| == ENTRIES
      requires paging ==> Detached(mem, kpgdir, f)
      ensures var m := mem[f := table];
              && Framed(m) && (paging ==> Detached(m, kpgdir, f))
              && forall p :: 0 <= p < NR_FRAMES && paging ==> WalkPage(m, kpgdir, p) == WalkPage(mem, kpgdir, p)
    {
      if paging {
        forall p | 0 <= p < NR_FRAMES ensures WalkPage(mem[f := table], kpgdir, p) == WalkPage(mem, kpgdir, p) {
          DetachedWalk(mem, kpgdir, f, table, p);
        }
      }
    }

    /** `memset` of a whole table to 0. */
    method Clear(t: nat, ghost f: nat) returns (ok: bool)
      requires Framed(mem) && kpgdir < NR_FRAMES && t < NR_FRAMES && Fillable(t, f)
      modifies this`mem
      ensures Framed(mem) && Fillable(t, f) && Present(t) == old(Present(t)) == ok
      ensures mem == if ok then old(mem)[f := seq(ENTRIES, _ => EMPTY)] else old(mem)
    {
      for i := 0 to ENTRIES
        invariant Framed(mem) && Fillable(t, f) && Present(t) == old(Present(t)) && (i > 0 ==> Present(t))
        invariant mem == old(mem)[f := mem[f]] && forall k :: 0 <= k < i ==> mem[f][k] == EMPTY
        invariant i == 0 ==> mem == old(mem)
      {
        ok := FillEntry(t, f, i, EMPTY);
        if !ok {
          return;
        }
      }
      assert mem[f] == seq(ENTRIES, _ => EMPTY);
      return true;
    }

    /** The part of the outer loop of mm_continous_map that clears a page table and
        fills it. The first page address is 0: of the three initialisers of
        `pg_addr` the last, `.frame = 0`, sets the whole word. */
    method FillTable(t: nat, ghost f: nat, vframe0: nat, end: nat) returns (ok: bool, vframe: nat)
      requires Framed(mem) && kpgdir < NR_FRAMES && t < NR_FRAMES && Fillable(t, f)
      requires vframe0 < FRAME_LIMIT && end % PG_SIZE == 0
      modifies this`mem
      ensures Framed(mem) && Fillable(t, f) && ok == old(Present(t))
      ensures ok ==> mem == old(mem)[f := Table(vframe0, Min(ENTRIES, end / PG_SIZE))]
      ensures ok ==> vframe == Wrap20(vframe0 + Min(ENTRIES, end / PG_SIZE))
      ensures !ok ==> mem == old(mem)
    {
      vframe := vframe0;
      ok := Clear(t, f);
      if !ok {
        return;
      }
      assert seq(ENTRIES, _ => EMPTY) == Table(vframe0, 0);
      var pgFrame := 0;
      var tabIdx := 0;
      while tabIdx < ENTRIES && pgFrame * PG_SIZE < end
        invariant Framed(mem) && Fillable(t, f) && Present(t) && ok
        invariant 0 <= tabIdx == pgFrame <= Min(ENTRIES, end / PG_SIZE)
        invariant vframe == Wrap20(vframe0 + tabIdx)
        invariant mem == old(mem)[f := Table(vframe0, tabIdx)]
      {
        Wrap20Next(vframe0 + tabIdx);
        assert Table(vframe0, tabIdx)[tabIdx := Pointing(EMPTY, vframe)] == Table(vframe0, tabIdx + 1);
        ok := FillEntry(t, f, tabIdx, Pointing(mem[Target(t).value][tabIdx], vframe));
        vframe := Wrap20(vframe + 1);
        pgFrame := pgFrame + 1;
        tabIdx := tabIdx + 1;
      }
    }

    /** The rest of it: the table becomes entry `dirIdx` of the directory. */
    method AddTable(ghost c: Call, ghost k: nat, pgdir: nat, dirIdx: nat, t: nat, vframe0: nat, end: nat)
      returns (ok: bool, vframe: nat)
      requires Framed(mem) && kpgdir < NR_FRAMES && pgdir < NR_FRAMES && t < NR_FRAMES
      requires end % PG_SIZE == 0 && dirIdx < ENTRIES
      requires c.count == Min(ENTRIES, end / PG_SIZE) && vframe0 == Wrap20(c.vf + ENTRIES * k)
      requires Straight(pgdir) && Fillable(t, t)
      modifies this`mem
      ensures Framed(mem) && ok == (old(Present(t)) && old(Present(pgdir)))
      ensures ok ==> mem == Entered(old(mem), pgdir, dirIdx, t, TableOf(c, k))
      ensures ok && end >= SPAN ==> vframe == Wrap20(c.vf + ENTRIES * (k + 1))
    {
      TableWraps(c.vf + ENTRIES * k, c.count);
      Wrap20Add(c.vf + ENTRIES * k, c.count);
      DetachedStore(t, TableOf(c, k));
      ok, vframe := FillTable(t, t, vframe0, end);
      if !ok {
        return;
      }
      ok := StoreEntry(pgdir, dirIdx, Pointing(mem[pgdir][dirIdx], t));
    }

    /** One round: alloc_page, then the table. */
    method MapNext(ghost c: Call, ghost k: nat, pgdir: nat, dirIdx: nat, vframe0: nat, end: nat)
      returns (r: MapResult, vframe: nat)
      requires alloc.Valid() && Framed(mem) && kpgdir < NR_FRAMES && end % PG_SIZE == 0 && pgdir < NR_FRAMES
      requires c.dir == pgdir && c.d0 + k == dirIdx < ENTRIES && c.count == Min(ENTRIES, end / PG_SIZE)
      requires vframe0 == Wrap20(c.vf + ENTRIES * k)
      requires Straight(pgdir) && (paging ==> pgdir == kpgdir)
      requires alloc.free != [] ==> Fillable(alloc.free[0], alloc.free[0])
      modifies this`mem, alloc, alloc.pool
      ensures alloc.Valid() && alloc.pool == old(alloc.pool)
      ensures RoundEnds(Snapshot(old(mem), old(alloc.View())), c, paging, k, r)
      ensures r.Done? ==> Round(Snapshot(old(mem), old(alloc.View())), c, paging, k, Snapshot(mem, alloc.View()))
      ensures r.Done? && end >= SPAN ==> vframe == Wrap20(c.vf + ENTRIES * (k + 1))
    {
      vframe := vframe0;
      var got := alloc.AllocPage();
      if got.None? {
        return NoFrame, vframe;
      }
      var ok;
      ok, vframe := AddTable(c, k, pgdir, dirIdx, got.value, vframe0, end);
      r := if ok then Done else PageFault;
    }

    /** `hist` leads to the present state. */
    ghost predicate Follows(hist: seq<Snapshot>, c: Call)
      reads this, alloc, alloc.pool
    {
      Rounds(hist, c, paging) && hist[|hist| - 1] == Snapshot(mem, alloc.View())
    }

    lemma NextStores(hist: seq<Snapshot>, c: Call)
      requires Follows(hist, c) && c.d0 + |hist| - 1 <= ENTRIES && Startable(hist[0].m, hist[0].s, c, paging)
      requires kpgdir < NR_FRAMES && (paging ==> c.dir == kpgdir) && alloc.Valid()
      ensures Framed(mem) && c.dir < NR_FRAMES && Straight(c.dir)
      ensures alloc.free != [] ==> Fillable(alloc.free[0], alloc.free[0])
    {
      RoundsBuild(hist, c, paging, |hist| - 1);
      if paging {
        NextRoundStores(hist, c, |hist| - 1);
      }
    }

    /** A round of the loop, with its past. */
    method MapAfter(pgdir: nat, dirIdx: nat, vframe0: nat, end: nat, ghost hist: seq<Snapshot>, ghost c: Call)
      returns (r: MapResult, vframe: nat, ghost hist': seq<Snapshot>)
      requires alloc.Valid() && kpgdir < NR_FRAMES && end % PG_SIZE == 0 && (paging ==> pgdir == kpgdir)
      requires Follows(hist, c) && Startable(hist[0].m, hist[0].s, c, paging)
      requires c.dir == pgdir && c.d0 + |hist| - 1 == dirIdx < ENTRIES && c.count == Min(ENTRIES, end / PG_SIZE)
      requires vframe0 == Wrap20(c.vf + ENTRIES * (|hist| - 1))
      modifies this`mem, alloc, alloc.pool
      ensures alloc.Valid() && alloc.pool == old(alloc.pool)
      ensures if r.Done? then Follows(hist', c) && |hist'| == |hist| + 1 && hist <= hist'
              else hist' == hist && RoundEnds(hist[|hist| - 1], c, paging, |hist| - 1, r)
      ensures r.Done? && end >= SPAN ==> vframe == Wrap20(c.vf + ENTRIES * |hist|)
    {
      hist' := hist;
      NextStores(hist, c);
      r, vframe := MapNext(c, |hist| - 1, pgdir, dirIdx, vframe0, end);
      if r.Done? {
        AddRound(hist, c, paging, Snapshot(mem, alloc.View()));
        hist' := hist + [Snapshot(mem, alloc.View())];
      }
    }

    /** The outer loop, over the directory entries `first` to `last`. */
    method MapTables(pgdir: nat, first: nat, last: nat, vframe0: nat, end: nat, ghost c: Call)
      returns (r: MapResult, ghost hist: seq<Snapshot>)
      requires alloc.Valid() && kpgdir < NR_FRAMES && (paging ==> pgdir == kpgdir)
      requires end % PG_SIZE == 0 && last < ENTRIES && (last > 0 ==> end >= SPAN) && vframe0 < FRAME_LIMIT
      requires c == Call(pgdir, first, vframe0, Min(ENTRIES, end / PG_SIZE)) && Startable(mem, alloc.View(), c, paging)
      modifies this`mem, alloc, alloc.pool
      ensures alloc.Valid() && alloc.pool == old(alloc.pool)
      ensures Rounds(hist, c, paging) && hist[0] == Snapshot(old(mem), old(alloc.View()))
      ensures var n, k := Max(0, last + 1 - first), |hist| - 1;
              if r.Done? then k == n && hist[k] == Snapshot(mem, alloc.View())
              else k < n && RoundEnds(hist[k], c, paging, k, r)
    {
      hist := [Snapshot(mem, alloc.View())];
      var vframe, dirIdx := vframe0, first;
      while dirIdx <= last
        invariant alloc.Valid() && alloc.pool == old(alloc.pool)
        invariant Follows(hist, c) && hist[0] == Snapshot(old(mem), old(alloc.View()))
        invariant dirIdx == first + |hist| - 1 && (dirIdx <= last + 1 || dirIdx == first)
        invariant dirIdx <= last ==> vframe == Wrap20(c.vf + ENTRIES * (|hist| - 1))
        decreases last + 1 - dirIdx
      {
        r, vframe, hist := MapAfter(pgdir, dirIdx, vframe, end, hist, c);
        if !r.Done? {
          return;
        }
        dirIdx := dirIdx + 1;
      }
      return Done, hist;
    }

    /** mm_continous_map */
    method ContinuousMap(pgdir: nat, paddr: nat, vaddr: nat, size: nat) returns (r: MapResult)
      requires alloc.Valid() && kpgdir < NR_FRAMES && paddr < TWO32 && vaddr < TWO32 && size < TWO32
      requires Startable(mem, alloc.View(), CallOf(pgdir, paddr, vaddr, size), paging) && (paging ==> pgdir == kpgdir)
      modifies this`mem, alloc, alloc.pool
      ensures alloc.Valid() && alloc.pool == old(alloc.pool)
      ensures EndsAs(r, paging, old(mem), CallOf(pgdir, paddr, vaddr, size), old(alloc.free), DirCount(paddr, size))
      ensures r.Done? ==>
        && alloc.free == old(alloc.free)[DirCount(paddr, size)..]
        && Mapped(old(mem), mem, CallOf(pgdir, paddr, vaddr, size), old(alloc.free), DirCount(paddr, size))
    {
      var beg, end := RoundUp(paddr), RangeEnd(paddr, size);
      ghost var c, hist, m0, s0 := CallOf(pgdir, paddr, vaddr, size), [], mem, alloc.View();
      RangeFacts(paddr, size);
      r, hist := MapTables(pgdir, Dir(beg), Dir(end), RoundUp(vaddr) / PG_SIZE, end, c);
      CallEnds(hist, m0, s0, c, paging, paddr, size, r);
    }
  }

  lemma CallEnds(hist: seq<Snapshot>, m0: Memory, s0: Frames, c: Call, paging: bool,
                 paddr: nat, size: nat, r: MapResult)
    requires paddr < TWO32 && size < TWO32 && c.d0 == Dir(RoundUp(paddr))
    requires Rounds(hist, c, paging) && hist[0] == Snapshot(m0, s0) && Startable(m0, s0, c, paging)
    requires var n, k := DirCount(paddr, size), |hist| - 1;
             if r.Done? then k == n else k < n && RoundEnds(hist[k], c, paging, k, r)
    ensures var n := DirCount(paddr, size);
            && EndsAs(r, paging, m0, c, s0.free, n)
            && (r.Done? ==> n <= |s0.free| && hist[n].s.free == s0.free[n..] && Mapped(m0, hist[n].m, c, s0.free, n))
  {
    RangeFacts(paddr, size);
    RoundsEnd(hist, c, paging, DirCount(paddr, size), r);
  }
}
