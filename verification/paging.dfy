/** Two-level page tables: the page walk, and what mm_continous_map of kernel/page.c
    makes of it, on values. */
module Paging {
  import opened Wrappers
  import opened Bytes
  import opened PageFrames

  const ENTRIES: nat := 1024
  const SPAN: nat := ENTRIES * PG_SIZE
  const FRAME_LIMIT: nat := 0x10_0000

  /** A 32-bit word of a table, seen through the bit fields of `PTE`. */
  datatype Entry = Entry(p: bool, rw: bool, us: bool, other: nat, frame: nat)

  const EMPTY := Entry(false, false, false, 0, 0)

  /** Physical memory: frames of 1024 words. */
  type Memory = seq<seq<Entry>>

  predicate Framed(m: Memory) {
    |m| == NR_FRAMES && forall f :: 0 <= f < NR_FRAMES ==> |m[f]| == ENTRIES
  }

  // ----- the translation the processor performs -----

  function Dir(x: nat): nat { x / SPAN }
  function Tab(x: nat): nat { x % SPAN / PG_SIZE }
  function Off(x: nat): nat { x % PG_SIZE }

  lemma Split(x: nat)
    ensures x == Dir(x) * SPAN + Tab(x) * PG_SIZE + Off(x)
    ensures Tab(x) < ENTRIES && Off(x) < PG_SIZE && (x < TWO32 ==> Dir(x) < ENTRIES)
    ensures x / PG_SIZE == Dir(x) * ENTRIES + Tab(x)
  {
  }

  /** The page walk of 32-bit paging (Intel SDM Vol. 3A, section 4.3); None is a page fault. */
  function Walk(m: Memory, dir: nat, x: nat): Option<nat>
    requires Framed(m) && dir < NR_FRAMES && x < TWO32
  {
    Split(x);
    var pde := m[dir][Dir(x)];
    if !pde.p || pde.frame >= NR_FRAMES then None
    else
      var pte := m[pde.frame][Tab(x)];
      if !pte.p then None else Some(pte.frame * PG_SIZE + Off(x))
  }

  /** The frame behind page number `p`. */
  function WalkPage(m: Memory, dir: nat, p: nat): (r: Option<nat>)
    requires Framed(m) && dir < NR_FRAMES && p < FRAME_LIMIT
  {
    var pde := m[dir][p / ENTRIES];
    if !pde.p || pde.frame >= NR_FRAMES then None
    else
      var pte := m[pde.frame][p % ENTRIES];
      if !pte.p then None else Some(pte.frame)
  }

  /** The page number decides the walk; the offset is kept. */
  lemma WalkByPage(m: Memory, dir: nat, p: nat, o: nat)
    requires Framed(m) && dir < NR_FRAMES && p < FRAME_LIMIT && o < PG_SIZE
    ensures Walk(m, dir, p * PG_SIZE + o) == match WalkPage(m, dir, p)
              case None => None
              case Some(f) => Some(f * PG_SIZE + o)
  {
    var x := p * PG_SIZE + o;
    Split(x);
    assert x / PG_SIZE == p && Dir(x) == p / ENTRIES && Tab(x) == p % ENTRIES;
  }

  // ----- what one call writes -----

  /** Bit field `frame : 20`. */
  function Wrap20(x: nat): (r: nat)
    ensures r < FRAME_LIMIT
  {
    if x < FRAME_LIMIT then x else Wrap20(x - FRAME_LIMIT)
  }

  lemma {:induction false} Wrap20Next(x: nat)
    ensures Wrap20(Wrap20(x) + 1) == Wrap20(x + 1)
  {
    if x >= FRAME_LIMIT {
      Wrap20Next(x - FRAME_LIMIT);
    }
  }

  lemma {:induction false} Wrap20Add(x: nat, y: nat)
    ensures Wrap20(Wrap20(x) + y) == Wrap20(x + y)
  {
    if x >= FRAME_LIMIT {
      Wrap20Add(x - FRAME_LIMIT, y);
    }
  }

  function Pointing(e: Entry, frame: nat): Entry {
    e.(p := true, rw := true, us := true, frame := frame)
  }

  /** A table whose first `count` entries map frame `first` and its successors. */
  function Table(first: nat, count: nat): (t: seq<Entry>)
    ensures |t| == ENTRIES
    ensures forall i: nat :: i < ENTRIES ==> t[i] == if i < count then Pointing(EMPTY, Wrap20(first + i)) else EMPTY
  {
    seq(ENTRIES, (i: nat) => if i < count then Pointing(EMPTY, Wrap20(first + i)) else EMPTY)
  }

  lemma TableWraps(first: nat, count: nat)
    ensures Table(Wrap20(first), count) == Table(first, count)
  {
  }

  /** One call: the directory, the first entry written, the first frame mapped, and
      how many entries of each table are filled. */
  datatype Call = Call(dir: nat, d0: nat, vf: nat, count: nat)

  /** Table `k` of a call. */
  function TableOf(c: Call, k: nat): (t: seq<Entry>)
    ensures |t| == ENTRIES
  {
    Table(c.vf + ENTRIES * k, c.count)
  }

  /** The first `n` of `tables` are in place, and nothing else has changed. */
  ghost predicate Mapped(m0: Memory, m1: Memory, c: Call, tables: seq<nat>, n: nat) {
    && Framed(m0) && Framed(m1) && c.dir < NR_FRAMES && n <= |tables| && c.d0 + n <= ENTRIES
    && (forall k :: 0 <= k < n ==> tables[k] < NR_FRAMES && tables[k] != c.dir)
    && (forall k :: 0 <= k < n ==> m1[tables[k]] == TableOf(c, k))
    && (forall i :: 0 <= i < ENTRIES ==>
          m1[c.dir][i] == if c.d0 <= i < c.d0 + n then Pointing(m0[c.dir][i], tables[i - c.d0]) else m0[c.dir][i])
    && (forall f :: 0 <= f < NR_FRAMES && f != c.dir && Spared(tables, n, f) ==> m1[f] == m0[f])
  }

  ghost predicate Spared(tables: seq<nat>, n: nat, f: nat)
    requires n <= |tables|
  {
    forall k :: 0 <= k < n ==> tables[k] != f
  }

  /** Frame `t` filled with `table` and entered as directory entry `d`. */
  function Entered(m: Memory, dir: nat, d: nat, t: nat, table: seq<Entry>): (r: Memory)
    requires Framed(m) && dir < NR_FRAMES && d < ENTRIES && t < NR_FRAMES && |table| == ENTRIES
    ensures Framed(r)
  {
    var m' := m[t := table];
    m'[dir := m'[dir][d := Pointing(m'[dir][d], t)]]
  }

  lemma MappedStep(m0: Memory, m: Memory, m': Memory, c: Call, tables: seq<nat>, n: nat)
    requires 0 < n <= |tables| && Mapped(m0, m, c, tables, n - 1) && c.d0 + n <= ENTRIES
    requires var t := tables[n - 1];
             && t < NR_FRAMES && t != c.dir && Spared(tables, n - 1, t)
             && m' == Entered(m, c.dir, c.d0 + n - 1, t, TableOf(c, n - 1))
    ensures Mapped(m0, m', c, tables, n)
  {
  }

  /** Frames of the pool other than the directory, all different. */
  ghost predicate Separate(dir: nat, tables: seq<nat>) {
    && dir < NR_FRAMES && (forall k :: 0 <= k < |tables| ==> tables[k] < NR_FRAMES && tables[k] != dir)
    && forall i, j :: 0 <= i < j < |tables| ==> tables[i] != tables[j]
  }

  /** Memory once the first `n` of `tables` were filled and entered, one after the other. */
  ghost function AfterTables(m0: Memory, c: Call, tables: seq<nat>, n: nat): (m: Memory)
    requires Framed(m0) && Separate(c.dir, tables) && n <= |tables| && c.d0 + n <= ENTRIES
    ensures Framed(m)
  {
    if n == 0 then m0
    else Entered(AfterTables(m0, c, tables, n - 1), c.dir, c.d0 + n - 1, tables[n - 1], TableOf(c, n - 1))
  }

  lemma {:induction false} AfterTablesMapped(m0: Memory, c: Call, tables: seq<nat>, n: nat)
    requires Framed(m0) && Separate(c.dir, tables) && n <= |tables| && c.d0 + n <= ENTRIES
    ensures Mapped(m0, AfterTables(m0, c, tables, n), c, tables, n)
  {
    if n > 0 {
      AfterTablesMapped(m0, c, tables, n - 1);
      MappedStep(m0, AfterTables(m0, c, tables, n - 1), AfterTables(m0, c, tables, n), c, tables, n);
    }
  }

  /** Inside the directory entries written: the walk, exactly. */
  lemma WalkMapped(m0: Memory, m1: Memory, c: Call, tables: seq<nat>, n: nat, x: nat)
    requires Mapped(m0, m1, c, tables, n) && x < TWO32 && c.d0 <= Dir(x) < c.d0 + n
    ensures Walk(m1, c.dir, x) == if Tab(x) < c.count
              then Some(Wrap20(c.vf + ENTRIES * (Dir(x) - c.d0) + Tab(x)) * PG_SIZE + Off(x)) else None
  {
  }

  lemma WalkPageMapped(m0: Memory, m1: Memory, c: Call, tables: seq<nat>, n: nat, p: nat)
    requires Mapped(m0, m1, c, tables, n) && p < FRAME_LIMIT
    requires c.d0 <= p / ENTRIES < c.d0 + n || !m0[c.dir][p / ENTRIES].p
    ensures WalkPage(m1, c.dir, p) ==
      if c.d0 <= p / ENTRIES < c.d0 + n && p % ENTRIES < c.count
      then Some(Wrap20(c.vf + (p - ENTRIES * c.d0))) else None
  {
    var d, i := p / ENTRIES, p % ENTRIES;
    if c.d0 <= d < c.d0 + n {
      assert m1[tables[d - c.d0]][i] == TableOf(c, d - c.d0)[i];
      assert c.vf + ENTRIES * (d - c.d0) + i == c.vf + (p - ENTRIES * c.d0);
    }
  }

  /** Outside them: the walk is as before, if its table was not overwritten. */
  lemma WalkElsewhere(m0: Memory, m1: Memory, c: Call, tables: seq<nat>, n: nat, x: nat)
    requires Mapped(m0, m1, c, tables, n) && x < TWO32 && !(c.d0 <= Dir(x) < c.d0 + n)
    requires Dir(x) < ENTRIES
    requires var pde := m0[c.dir][Dir(x)]; pde.p ==> pde.frame != c.dir && Spared(tables, n, pde.frame)
    ensures Walk(m1, c.dir, x) == Walk(m0, c.dir, x)
  {
  }

  // ----- paging while it is on -----

  /** Page tables reached from `dir` are held frames other than `dir`. */
  ghost predicate TablesHeld(m: Memory, dir: nat, s: Frames)
    requires Framed(m)
  {
    && dir < NR_FRAMES && dir !in s.free
    && forall i :: 0 <= i < ENTRIES && m[dir][i].p ==> m[dir][i].frame != dir && m[dir][i].frame !in s.free
  }

  /** What RAM the tables map they map to itself. */
  ghost predicate Direct(m: Memory, dir: nat)
    requires Framed(m) && dir < NR_FRAMES
  {
    forall p :: 0 <= p < NR_FRAMES ==> AtHome(m, dir, p)
  }

  predicate AtHome(m: Memory, dir: nat, p: nat)
    requires Framed(m) && dir < NR_FRAMES && p < NR_FRAMES
  {
    WalkPage(m, dir, p) == None || WalkPage(m, dir, p) == Some(p)
  }

  /** Frame `t` is neither the directory nor a table of it. */
  ghost predicate Detached(m: Memory, dir: nat, t: nat)
    requires Framed(m) && dir < NR_FRAMES
  {
    t != dir && forall i :: 0 <= i < ENTRIES && m[dir][i].p ==> m[dir][i].frame != t
  }

  /** Filling such a frame changes no translation. */
  lemma DetachedWalk(m: Memory, dir: nat, t: nat, table: seq<Entry>, p: nat)
    requires Framed(m) && dir < NR_FRAMES && t < NR_FRAMES && Detached(m, dir, t)
    requires |table| == ENTRIES && p < FRAME_LIMIT
    ensures WalkPage(m[t := table], dir, p) == WalkPage(m, dir, p)
  {
    assert m[t := table][dir] == m[dir];
  }

  /** Page `p` can be reached once `n` tables of a call are in place. */
  predicate Reached(m0: Memory, c: Call, n: nat, p: nat)
    requires Framed(m0) && c.dir < NR_FRAMES && p < NR_FRAMES
  {
    if c.d0 <= p / ENTRIES < c.d0 + n then p % ENTRIES < c.count else WalkPage(m0, c.dir, p).Some?
  }

  /** So can table `t` and the directory in round `n`. */
  predicate RoundReached(m0: Memory, c: Call, n: nat, t: nat)
    requires Framed(m0) && c.dir < NR_FRAMES && t < NR_FRAMES
  {
    Reached(m0, c, n, t) && Reached(m0, c, n, c.dir)
  }

  /** The first `n` of `tables` can, each in its round. */
  ghost predicate AllReached(m0: Memory, c: Call, tables: seq<nat>, n: nat)
    requires Framed(m0) && Separate(c.dir, tables) && n <= |tables|
  {
    forall k :: 0 <= k < n ==> RoundReached(m0, c, k, tables[k])
  }

  /** With paging on a call runs under the directory it changes, and leaves RAM at home:
      it maps pages to themselves, or only beyond RAM. */
  ghost predicate LiveStart(m0: Memory, c: Call, s: Frames)
    requires Framed(m0)
  {
    TablesHeld(m0, c.dir, s) && Direct(m0, c.dir) && (c.vf == ENTRIES * c.d0 || NR_FRAMES <= ENTRIES * c.d0)
  }

  /** What a call may start from. */
  ghost predicate Startable(m: Memory, s: Frames, c: Call, paging: bool) {
    Framed(m) && Sound(s) && Separate(c.dir, s.free) && (paging ==> LiveStart(m, c, s))
  }

  /** In the middle of such a call. */
  lemma ReachedMeanwhile(m0: Memory, m: Memory, c: Call, s: Frames, n: nat, p: nat)
    requires Mapped(m0, m, c, s.free, n) && Framed(m0) && LiveStart(m0, c, s) && p < NR_FRAMES
    ensures WalkPage(m, c.dir, p) == if Reached(m0, c, n, p) then Some(p) else None
  {
    var d, i := p / ENTRIES, p % ENTRIES;
    if c.d0 <= d < c.d0 + n {
      assert m[c.dir][d] == Pointing(m0[c.dir][d], s.free[d - c.d0]);
      assert m[s.free[d - c.d0]] == TableOf(c, d - c.d0);
      assert c.vf + ENTRIES * (d - c.d0) + i == p;
    } else {
      assert m[c.dir][d] == m0[c.dir][d] && AtHome(m0, c.dir, p);
    }
  }

  lemma DetachedMeanwhile(m0: Memory, m: Memory, c: Call, s: Frames, n: nat)
    requires Mapped(m0, m, c, s.free, n) && TablesHeld(m0, c.dir, s) && Separate(c.dir, s.free) && n < |s.free|
    ensures Detached(m, c.dir, s.free[n])
  {
  }

  // ----- the outer loop of mm_continous_map, as values -----

  /** A page fault or a panic is the end of the kernel. */
  datatype MapResult = Done | NoFrame | PageFault

  /** Round `k`: take a frame, fill it as a page table, enter it in the directory. */
  function MapStep(m: Memory, s: Frames, c: Call, k: nat, paging: bool): (r: (MapResult, Memory, Frames))
    requires Framed(m) && Wired(s) && c.dir < NR_FRAMES && c.d0 + k < ENTRIES
    ensures Framed(r.1) && Wired(r.2)
  {
    var (s', got) := AllocStep(s);
    match got
    case None => (NoFrame, m, s')
    case Some(t) =>
      if paging && (WalkPage(m, c.dir, t).None? || WalkPage(m, c.dir, c.dir).None?) then (PageFault, m, s')
      else (Done, Entered(m, c.dir, c.d0 + k, t, TableOf(c, k)), s')
  }

  /** Memory and allocator between two rounds. */
  datatype Snapshot = Snapshot(m: Memory, s: Frames)

  /** Round `k` ends with `r`. */
  ghost predicate RoundEnds(before: Snapshot, c: Call, paging: bool, k: nat, r: MapResult) {
    && Framed(before.m) && Wired(before.s) && c.dir < NR_FRAMES && c.d0 + k < ENTRIES
    && MapStep(before.m, before.s, c, k, paging).0 == r
  }

  ghost predicate Round(before: Snapshot, c: Call, paging: bool, k: nat, after: Snapshot) {
    && RoundEnds(before, c, paging, k, Done)
    && MapStep(before.m, before.s, c, k, paging) == (Done, after.m, after.s)
  }

  /** `hist` is the state before the loop and after each round it completes. */
  ghost predicate Rounds(hist: seq<Snapshot>, c: Call, paging: bool) {
    && hist != []
    && forall k :: 0 <= k < |hist| - 1 ==> Round(hist[k], c, paging, k, hist[k + 1])
  }

  lemma AddRound(hist: seq<Snapshot>, c: Call, paging: bool, after: Snapshot)
    requires Rounds(hist, c, paging) && Round(hist[|hist| - 1], c, paging, |hist| - 1, after)
    ensures Rounds(hist + [after], c, paging)
  {
  }

  /** How a call over `n` directory entries ends. */
  ghost predicate EndsAs(r: MapResult, paging: bool, m0: Memory, c: Call, free: seq<nat>, n: nat)
    requires Framed(m0) && Separate(c.dir, free)
  {
    && (r.Done? <==> n <= |free| && (paging ==> AllReached(m0, c, free, n)))
    && (r.NoFrame? ==> n > |free|)
  }

  /** Between two rounds: the first `k` free frames are in place as tables. */
  ghost predicate Building(m0: Memory, s0: Frames, c: Call, k: nat, now: Snapshot)
    requires Framed(m0) && Separate(c.dir, s0.free)
  {
    && k <= |s0.free| && c.d0 + k <= ENTRIES
    && now.s.free == s0.free[k..] && now.m == AfterTables(m0, c, s0.free, k)
  }

  lemma NextFree(s0: Frames, s: Frames, k: nat)
    requires Sound(s) && k < |s0.free| && s.free == s0.free[k..]
    ensures AllocStep(s).1 == Some(s0.free[k]) && AllocStep(s).0.free == s0.free[k + 1..] && Sound(AllocStep(s).0)
  {
    AllocSound(s);
  }

  /** What a round makes of it. */
  lemma RoundBuilds(m0: Memory, s0: Frames, c: Call, paging: bool, k: nat, now: Snapshot)
    requires Framed(m0) && Separate(c.dir, s0.free) && Building(m0, s0, c, k, now) && Sound(now.s) && c.d0 + k < ENTRIES
    requires paging ==> LiveStart(m0, c, s0)
    ensures var (r, m', s') := MapStep(now.m, now.s, c, k, paging);
            && (r.NoFrame? <==> k == |s0.free|)
            && (k < |s0.free| ==> (r.Done? <==> paging ==> RoundReached(m0, c, k, s0.free[k])))
            && (r.Done? ==> Sound(s') && Building(m0, s0, c, k + 1, Snapshot(m', s')))
  {
    if k < |s0.free| {
      NextFree(s0, now.s, k);
      if paging {
        AfterTablesMapped(m0, c, s0.free, k);
        ReachedMeanwhile(m0, now.m, c, s0, k, s0.free[k]);
        ReachedMeanwhile(m0, now.m, c, s0, k, c.dir);
      }
    }
  }

  /** After `k` rounds. */
  lemma {:induction false} RoundsBuild(hist: seq<Snapshot>, c: Call, paging: bool, k: nat)
    requires Rounds(hist, c, paging) && k < |hist| && c.d0 + k <= ENTRIES
    requires Startable(hist[0].m, hist[0].s, c, paging)
    ensures Sound(hist[k].s) && Building(hist[0].m, hist[0].s, c, k, hist[k])
    ensures paging ==> AllReached(hist[0].m, c, hist[0].s.free, k)
  {
    if k > 0 {
      RoundsBuild(hist, c, paging, k - 1);
      assert Round(hist[k - 1], c, paging, k - 1, hist[k - 1 + 1]);
      RoundBuilds(hist[0].m, hist[0].s, c, paging, k - 1, hist[k - 1]);
    }
  }

  /** With paging on, the stores of the next round go where they should or fault. */
  lemma NextRoundStores(hist: seq<Snapshot>, c: Call, k: nat)
    requires Rounds(hist, c, true) && k < |hist| && c.d0 + k <= ENTRIES
    requires Startable(hist[0].m, hist[0].s, c, true)
    ensures Framed(hist[k].m) && AtHome(hist[k].m, c.dir, c.dir)
    ensures hist[k].s.free != [] ==>
      var t := hist[k].s.free[0]; t < NR_FRAMES && Detached(hist[k].m, c.dir, t) && AtHome(hist[k].m, c.dir, t)
  {
    RoundsBuild(hist, c, true, k);
    AfterTablesMapped(hist[0].m, c, hist[0].s.free, k);
    ReachedMeanwhile(hist[0].m, hist[k].m, c, hist[0].s, k, c.dir);
    if hist[k].s.free != [] {
      DetachedMeanwhile(hist[0].m, hist[k].m, c, hist[0].s, k);
      ReachedMeanwhile(hist[0].m, hist[k].m, c, hist[0].s, k, hist[0].s.free[k]);
    }
  }

  /** How a loop over `n` entries ends: after its last round, or in the middle. */
  lemma RoundsEnd(hist: seq<Snapshot>, c: Call, paging: bool, n: nat, r: MapResult)
    requires Rounds(hist, c, paging) && |hist| <= n + 1 && c.d0 + n <= ENTRIES
    requires Startable(hist[0].m, hist[0].s, c, paging)
    requires if r.Done? then |hist| == n + 1 else |hist| <= n && RoundEnds(hist[|hist| - 1], c, paging, |hist| - 1, r)
    ensures EndsAs(r, paging, hist[0].m, c, hist[0].s.free, n)
    ensures r.Done? ==>
      && n <= |hist[0].s.free| && hist[n].s.free == hist[0].s.free[n..]
      && Mapped(hist[0].m, hist[n].m, c, hist[0].s.free, n)
  {
    var k := |hist| - 1;
    RoundsBuild(hist, c, paging, k);
    if r.Done? {
      AfterTablesMapped(hist[0].m, c, hist[0].s.free, n);
    } else {
      RoundBuilds(hist[0].m, hist[0].s, c, paging, k, hist[k]);
    }
  }

  // ----- the mapping code -----

  /** Directory entries a call touches, and entries it fills in each table. */
  function RangeEnd(paddr: nat, size: nat): nat
    requires paddr < TWO32 && size < TWO32
  {
    RoundDown(Wrap32(RoundUp(paddr) + size))
  }

  function DirCount(paddr: nat, size: nat): nat
    requires paddr < TWO32 && size < TWO32
  {
    Max(0, Dir(RangeEnd(paddr, size)) + 1 - Dir(RoundUp(paddr)))
  }

  function TabCount(paddr: nat, size: nat): nat
    requires paddr < TWO32 && size < TWO32
  {
    Min(ENTRIES, RangeEnd(paddr, size) / PG_SIZE)
  }

  function CallOf(pgdir: nat, paddr: nat, vaddr: nat, size: nat): Call
    requires paddr < TWO32 && vaddr < TWO32 && size < TWO32
  {
    Call(pgdir, Dir(RoundUp(paddr)), RoundUp(vaddr) / PG_SIZE, TabCount(paddr, size))
  }

  lemma RangeFacts(paddr: nat, size: nat)
    requires paddr < TWO32 && size < TWO32
    ensures var end := RangeEnd(paddr, size);
            && end < TWO32 && end % PG_SIZE == 0 && Dir(end) < ENTRIES && (Dir(end) > 0 ==> end >= SPAN)
            && (Dir(end) > 0 ==> TabCount(paddr, size) == ENTRIES)
  {
  }
}
