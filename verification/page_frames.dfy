/** The page-frame allocator: init_page, alloc_page and release_page of kernel/page.c. */
module PageFrames {
  import opened Wrappers
  import opened Bytes

  const PHY_SIZE: nat := 0x800_0000
  const PG_SIZE: nat := 0x1000
  const NR_FRAMES: nat := PHY_SIZE / PG_SIZE

  // ----- rounding -----

  function RoundUp(addr: nat): nat
    requires addr < TWO32
  {
    Wrap32((Sub32(addr, 1) / PG_SIZE + 1) * PG_SIZE)
  }

  function RoundDown(addr: nat): nat
    requires addr < TWO32
  {
    addr / PG_SIZE * PG_SIZE
  }

  /** `roundup` is the least page boundary not below `addr`, or wraps to 0 when
      that boundary is 2^32. */
  lemma RoundUpIsCeiling(addr: nat)
    requires addr < TWO32
    ensures RoundUp(addr) % PG_SIZE == 0
    ensures addr <= TWO32 - PG_SIZE ==> addr <= RoundUp(addr) < addr + PG_SIZE
    ensures addr > TWO32 - PG_SIZE ==> RoundUp(addr) == 0
    ensures addr % PG_SIZE == 0 ==> RoundUp(addr) == addr
  {
  }

  // ----- the allocator as a value -----

  /** The free list from its head on, and the reference count of every frame. */
  datatype Frames = Frames(free: seq<nat>, refs: seq<nat>)

  /** After init_page: every frame from `nr` up is free, in order. */
  function Initial(nr: nat): Frames
    requires nr <= NR_FRAMES
  {
    Frames(seq(NR_FRAMES - nr, i => nr + i), seq(NR_FRAMES, _ => 0))
  }

  /** 128 MB are 32768 frames of 4096 bytes. */
  lemma InitialIs(nr: nat)
    requires nr <= 32768
    ensures var s := Initial(nr);
            && |s.free| == 32768 - nr && (forall i :: 0 <= i < |s.free| ==> s.free[i] == nr + i)
            && |s.refs| == 32768 && forall f :: 0 <= f < 32768 ==> s.refs[f] == 0
  {
  }

  /** A list of different frames of the pool, and a `uint32_t` count for each. */
  ghost predicate Wired(s: Frames) {
    && |s.refs| == NR_FRAMES
    && (forall i :: 0 <= i < |s.free| ==> s.free[i] < NR_FRAMES)
    && (forall i, j :: 0 <= i < j < |s.free| ==> s.free[i] != s.free[j])
    && (forall f :: 0 <= f < NR_FRAMES ==> s.refs[f] < TWO32)
  }

  /** What the free list must look like for the code to work. */
  ghost predicate Sound(s: Frames) {
    Wired(s) && forall i :: 0 <= i < |s.free| ==> s.refs[s.free[i]] == 0
  }

  /** alloc_page; `None` is a panic, from which the kernel does not return: the
      list is empty, or its head, already taken off, is in use. */
  function AllocStep(s: Frames): (Frames, Option<nat>)
    requires Wired(s)
  {
    if s.free == [] then (s, None)
    else
      var f := s.free[0];
      if s.refs[f] != 0 then (s.(free := s.free[1..]), None)
      else (Frames(s.free[1..], s.refs[f := s.refs[f] + 1]), Some(f))
  }

  /** release_page as written: the list head keeps its value, so a frame whose
      count drops to 0 is not put back. */
  function ReleaseStep(s: Frames, frame: nat): Frames
    requires Wired(s) && frame < NR_FRAMES
  {
    s.(refs := s.refs[frame := Sub32(s.refs[frame], 1)])
  }

  /** release_page with the evident intent: the page itself becomes the head. */
  function ReleasePushing(s: Frames, frame: nat): Frames
    requires Wired(s) && frame < NR_FRAMES
  {
    var r := ReleaseStep(s, frame);
    if r.refs[frame] == 0 then r.(free := [frame] + s.free) else r
  }

  predicate Held(s: Frames, frame: nat) {
    frame < |s.refs| && s.refs[frame] > 0
  }

  lemma AllocSound(s: Frames)
    requires Sound(s)
    ensures Sound(AllocStep(s).0)
  {
  }

  lemma ReleaseSound(s: Frames, frame: nat)
    requires Sound(s) && Held(s, frame)
    ensures Sound(ReleaseStep(s, frame)) && Sound(ReleasePushing(s, frame))
  {
  }

  /** What becomes of releasing a frame nobody holds: its count wraps, and the
      allocation after a release panics exactly when no frame is free or the one
      released was the next to be handed out. */
  lemma StrayRelease(s: Frames, frame: nat)
    requires Sound(s) && frame < NR_FRAMES
    ensures Wired(ReleaseStep(s, frame)) && (Sound(ReleaseStep(s, frame)) <==> frame !in s.free)
    ensures AllocStep(ReleaseStep(s, frame)).1.None? <==> s.free == [] || frame == s.free[0]
  {
    var s' := ReleaseStep(s, frame);
    assert frame in s.free ==> s.refs[frame] == 0;
    assert forall i :: 0 <= i < |s.free| && s.free[i] != frame ==> s'.refs[s.free[i]] == 0;
  }

  // ----- the allocator in memory -----

  /** An entry of `page_pool`; `next` is the index of the page pointed to. */
  datatype PageInfo = PageInfo(frame: nat, refCount: nat, next: Option<nat>)

  /** From `head` the `next` fields lead through `free` to NULL, and each page on
      the way knows its own frame. */
  ghost predicate Linked(pages: seq<PageInfo>, head: Option<nat>, free: seq<nat>) {
    && head == (if free == [] then None else Some(free[0]))
    && (forall i :: 0 <= i < |free| ==> free[i] < |pages| && pages[free[i]].frame == free[i])
    && (forall i {:trigger NextIn(free, i)} :: 0 <= i < |free| ==> pages[free[i]].next == NextIn(free, i))
  }

  function NextIn(free: seq<nat>, i: nat): Option<nat> {
    if i + 1 < |free| then Some(free[i + 1]) else None
  }

  function RefsOf(pages: seq<PageInfo>): (refs: seq<nat>)
    ensures |refs| == |pages| && forall f :: 0 <= f < |pages| ==> refs[f] == pages[f].refCount
  {
    seq(|pages|, f requires 0 <= f < |pages| => pages[f].refCount)
  }

  lemma LinkedPop(pages: seq<PageInfo>, free: seq<nat>, refCount: nat)
    requires free != [] && Linked(pages, Some(free[0]), free)
    requires forall i, j :: 0 <= i < j < |free| ==> free[i] != free[j]
    ensures Linked(pages[free[0] := PageInfo(free[0], refCount, None)], pages[free[0]].next, free[1..])
  {
    var rest := free[1..];
    var pages' := pages[free[0] := PageInfo(free[0], refCount, None)];
    assert pages[free[0]].next == NextIn(free, 0);
    forall i | 0 <= i < |rest|
      ensures rest[i] < |pages'| && pages'[rest[i]].frame == rest[i]
      ensures pages'[rest[i]].next == NextIn(rest, i)
    {
      assert rest[i] == free[i + 1] != free[0];
      assert NextIn(rest, i) == NextIn(free, i + 1);
    }
  }

  lemma RefsUpdate(pages: seq<PageInfo>, k: nat, page: PageInfo)
    requires k < |pages|
    ensures RefsOf(pages[k := page]) == RefsOf(pages)[k := page.refCount]
  {
  }

  lemma LinkedSkip(pages: seq<PageInfo>, head: Option<nat>, free: seq<nat>, frame: nat, page: PageInfo)
    requires Linked(pages, head, free) && frame < |pages|
    requires frame !in free || (page.frame, page.next) == (pages[frame].frame, pages[frame].next)
    ensures Linked(pages[frame := page], head, free)
  {
  }

  /** The `next` fields lead from the first of `ring` through all of it, and back. */
  ghost predicate Ring(pages: seq<PageInfo>, ring: seq<nat>) {
    && ring != [] && (forall i :: 0 <= i < |ring| ==> ring[i] < |pages|)
    && forall i {:trigger ring[i]} :: 0 <= i < |ring| ==>
         pages[ring[i]].next == Some(if i + 1 < |ring| then ring[i + 1] else ring[0])
  }

  lemma LinkedRing(pages: seq<PageInfo>, free: seq<nat>, k: nat, page: PageInfo)
    requires k < |free| && Linked(pages, Some(free[0]), free) && page.next == Some(free[0])
    requires forall i, j :: 0 <= i < j < |free| ==> free[i] != free[j]
    ensures Ring(pages[free[k] := page], free[..k + 1]) && !Linked(pages[free[k] := page], Some(free[0]), free)
  {
    var pages' := pages[free[k] := page];
    forall i | 0 <= i < k ensures pages'[free[i]].next == Some(free[i + 1]) {
      assert NextIn(free, i) == Some(free[i + 1]);
    }
    assert NextIn(free, k) != Some(free[0]);
  }

  /** What release_page makes of the list. */
  lemma ReleasedList(s: Frames, pages: seq<PageInfo>, head: Option<nat>, frame: nat, page: PageInfo)
    requires Wired(s) && s.refs == RefsOf(pages) && Linked(pages, head, s.free) && frame < NR_FRAMES
    requires page.refCount == Sub32(pages[frame].refCount, 1) && page.frame == pages[frame].frame
    requires page.next == if page.refCount == 0 then head else pages[frame].next
    ensures var pages', loop := pages[frame := page], frame in s.free && pages[frame].refCount == 1;
            if loop then !Linked(pages', head, s.free) && exists k :: 0 < k <= |s.free| && Ring(pages', s.free[..k])
            else Linked(pages', head, s.free) && Wired(ReleaseStep(s, frame))
    ensures Sound(s) ==> (frame in s.free ==> pages[frame].refCount == 0)
    ensures Sound(s) ==> (Sound(ReleaseStep(s, frame)) <==> frame !in s.free)
  {
    if frame in s.free && pages[frame].refCount == 1 {
      var k :| 0 <= k < |s.free| && s.free[k] == frame;
      LinkedRing(pages, s.free, k, page);
      assert Ring(pages[frame := page], s.free[..k + 1]);
    } else {
      LinkedSkip(pages, head, s.free, frame, page);
    }
    if Sound(s) {
      StrayRelease(s, frame);
    }
  }

  /** Page `f` once init_page has chained the pages from `nr` up to `i`. */
  function Chained(nr: nat, i: nat, f: nat): PageInfo {
    if nr <= f < i then PageInfo(f, 0, if f + 1 < i then Some(f + 1) else None) else PageInfo(0, 0, None)
  }

  lemma ChainedLinked(pages: seq<PageInfo>, nr: nat)
    requires nr < NR_FRAMES == |pages| && forall f :: 0 <= f < NR_FRAMES ==> pages[f] == Chained(nr, NR_FRAMES, f)
    ensures Linked(pages, Some(nr), Initial(nr).free)
    ensures Sound(Initial(nr)) && RefsOf(pages) == Initial(nr).refs
  {
  }

  class FrameAllocator {
    var pool: array<PageInfo>
    var freeList: Option<nat>
    ghost var free: seq<nat>

    ghost function View(): Frames
      reads this, pool
    {
      Frames(free, RefsOf(pool[..]))
    }

    /** The list in memory is the one of `View`. */
    ghost predicate Listed()
      reads this, pool
    {
      Linked(pool[..], freeList, free) && Wired(View())
    }

    ghost predicate Valid()
      reads this, pool
    {
      Linked(pool[..], freeList, free) && Sound(View())
    }

    /** Page `frame` is on the list with one reference left. */
    ghost predicate Looping(frame: nat)
      reads this, pool
    {
      frame in free && frame < pool.Length && pool[frame].refCount == 1
    }

    /** The list construction of init_page. */
    constructor (nr: nat)
      requires nr < NR_FRAMES
      ensures Valid() && fresh(pool) && View() == Initial(nr)
    {
      pool := new PageInfo[NR_FRAMES](_ => PageInfo(0, 0, None));
      freeList := None;
      new;
      pool[nr] := pool[nr].(frame := nr);
      var i := nr + 1;
      while i < NR_FRAMES
        invariant nr + 1 <= i <= NR_FRAMES && pool.Length == NR_FRAMES && fresh(pool)
        invariant forall f :: 0 <= f < NR_FRAMES ==> pool[f] == Chained(nr, i, f)
      {
        pool[i] := pool[i].(frame := i);
        pool[i - 1] := pool[i - 1].(next := Some(i));
        i := i + 1;
      }
      freeList := Some(nr);
      free := Initial(nr).free;
      ChainedLinked(pool[..], nr);
    }

    /** alloc_page; the in-use test never fires while the list is sound. */
    method AllocPage() returns (r: Option<nat>)
      requires Listed()
      modifies this, pool
      ensures Listed() && pool == old(pool)
      ensures (View(), r) == AllocStep(old(View()))
      ensures old(Valid()) ==> Valid() && (r.None? <==> old(free) == [])
      ensures r.None? <==> old(freeList.None? || pool[freeList.value].refCount != 0)
      ensures r.Some? ==> r == old(freeList) && freeList == old(pool[freeList.value].next)
      ensures r.Some? ==> pool[..] == old(pool[..])[r.value := PageInfo(r.value, 1, None)]
    {
      if freeList.None? {
        return None;
      }
      var page := freeList.value;
      ghost var pages, refCount := pool[..], if pool[page].refCount == 0 then 1 else pool[page].refCount;
      LinkedPop(pages, free, refCount);
      RefsUpdate(pages, page, PageInfo(page, refCount, None));
      freeList := pool[page].next;
      pool[page] := pool[page].(next := None);
      free := free[1..];
      if pool[page].refCount != 0 {
        assert pool[..] == pages[page := PageInfo(page, refCount, None)];
        assert RefsOf(pages)[page := refCount] == RefsOf(pages);
        return None;
      }
      pool[page] := pool[page].(refCount := pool[page].refCount + 1);
      assert pool[..] == pages[page := PageInfo(page, 1, None)];
      return Some(pool[page].frame);
    }

    /** release_page; false is the panic on a frame number past the pool. Dropping the
        last reference to a page that is on the list ties the list into a ring. */
    method ReleasePage(frame: nat) returns (ok: bool)
      requires Listed()
      modifies this, pool
      ensures pool == old(pool) && freeList == old(freeList) && free == old(free) && (ok <==> frame < NR_FRAMES)
      ensures View() == if ok then ReleaseStep(old(View()), frame) else old(View())
      ensures !(ok && old(Looping(frame))) ==> Listed()
      ensures ok && old(Looping(frame)) ==> !Listed() && exists k :: 0 < k <= |free| && Ring(pool[..], free[..k])
      ensures ok && old(Valid()) ==> (Valid() <==> frame !in free)
      ensures ok ==> var n := old(pool[frame].refCount); pool[frame].refCount == if n == 0 then 0xffff_ffff else n - 1
      ensures ok ==> pool[frame].next == old(if pool[frame].refCount == 1 then freeList else pool[frame].next)
      ensures ok ==> pool[..] == old(pool[..])[frame := pool[frame]]
    {
      if frame >= NR_FRAMES {
        return false;
      }
      ghost var pages := pool[..];
      pool[frame] := pool[frame].(refCount := Sub32(pool[frame].refCount, 1));
      if pool[frame].refCount == 0 {
        pool[frame] := pool[frame].(next := freeList);
        freeList := pool[frame].next;
      }
      assert pool[..] == pages[frame := pool[frame]];
      RefsUpdate(pages, frame, pool[frame]);
      ReleasedList(Frames(free, RefsOf(pages)), pages, freeList, frame, pool[frame]);
      return true;
    }
  }

  // ----- whole runs -----

  datatype Op = Alloc | Release(frame: nat)

  /** The operation neither panics nor releases a frame nobody holds. */
  predicate Allowed(s: Frames, op: Op) {
    match op
    case Alloc => s.free != []
    case Release(f) => Held(s, f)
  }

  function Step(s: Frames, op: Op, pushing: bool): Frames
    requires Sound(s) && Allowed(s, op)
  {
    match op
    case Alloc => AllocStep(s).0
    case Release(f) => if pushing then ReleasePushing(s, f) else ReleaseStep(s, f)
  }

  lemma StepSound(s: Frames, op: Op, pushing: bool)
    requires Sound(s) && Allowed(s, op)
    ensures Sound(Step(s, op, pushing))
  {
    match op
    case Alloc => AllocSound(s);
    case Release(f) => ReleaseSound(s, f);
  }

  /** A run is a history of states joined by allowed operations. */
  ghost predicate IsRun(ops: seq<Op>, states: seq<Frames>, pushing: bool) {
    && |states| == |ops| + 1
    && forall i :: 0 <= i < |ops| ==>
         && Sound(states[i]) && Allowed(states[i], ops[i])
         && states[i + 1] == Step(states[i], ops[i], pushing)
  }

  lemma RunPrefix(ops: seq<Op>, states: seq<Frames>, pushing: bool)
    requires IsRun(ops, states, pushing) && ops != []
    ensures var n := |ops| - 1;
            && IsRun(ops[..n], states[..n + 1], pushing)
            && states[..n + 1][0] == states[0] && states[..n + 1][n] == states[n]
            && Sound(states[n]) && Allowed(states[n], ops[n]) && states[n + 1] == Step(states[n], ops[n], pushing)
  {
  }

  function Allocs(ops: seq<Op>): nat {
    if ops == [] then 0 else Allocs(ops[..|ops| - 1]) + if ops[|ops| - 1].Alloc? then 1 else 0
  }

  /** The frames handed out along a run, in order. */
  ghost function Handed(ops: seq<Op>, states: seq<Frames>): seq<nat>
    requires IsRun(ops, states, false)
  {
    if ops == [] then []
    else
      var n := |ops| - 1;
      RunPrefix(ops, states, false);
      Handed(ops[..n], states[..n + 1]) + if ops[n].Alloc? then [AllocStep(states[n]).1.value] else []
  }

  function HeldCount(refs: seq<nat>): nat {
    if refs == [] then 0 else HeldCount(refs[..|refs| - 1]) + if refs[|refs| - 1] > 0 then 1 else 0
  }

  lemma {:induction false} HeldCountUpdate(refs: seq<nat>, k: nat, v: nat)
    requires k < |refs|
    ensures HeldCount(refs[k := v])
         == HeldCount(refs) - (if refs[k] > 0 then 1 else 0) + if v > 0 then 1 else 0
  {
    var n := |refs| - 1;
    if k == n {
      assert refs[k := v][..n] == refs[..n];
    } else {
      assert refs[k := v][..n] == refs[..n][k := v];
      HeldCountUpdate(refs[..n], k, v);
    }
  }

  lemma {:induction false} NothingHeld(n: nat)
    ensures HeldCount(seq(n, _ => 0)) == 0
  {
    if n > 0 {
      assert seq(n, _ => 0)[..n - 1] == seq(n - 1, _ => 0);
      NothingHeld(n - 1);
    }
  }

  /** The state once `n` frames were handed out: the free list is what is left
      of the initial one, and only frames handed out are held, each once. */
  ghost predicate AfterAllocs(nr: nat, n: nat, s: Frames) {
    && |s.refs| == NR_FRAMES && nr + n + |s.free| == NR_FRAMES
    && (forall i :: 0 <= i < |s.free| ==> s.free[i] == nr + n + i)
    && (forall f :: 0 <= f < NR_FRAMES && s.refs[f] != 0 ==> s.refs[f] == 1 && nr <= f < nr + n)
  }

  lemma AfterStep(nr: nat, n: nat, s: Frames, op: Op)
    requires Sound(s) && Allowed(s, op) && AfterAllocs(nr, n, s)
    ensures AfterAllocs(nr, if op.Alloc? then n + 1 else n, Step(s, op, false))
  {
  }

  lemma InitialShape(nr: nat, s: Frames)
    requires nr < NR_FRAMES && s == Initial(nr)
    ensures Sound(s) && AfterAllocs(nr, 0, s) && HeldCount(s.refs) == 0
  {
    NothingHeld(NR_FRAMES);
  }

  /** The free list stays sound on every run, and as written only ever shrinks. */
  lemma {:induction false} RunShape(nr: nat, ops: seq<Op>, states: seq<Frames>)
    requires nr < NR_FRAMES && IsRun(ops, states, false) && states[0] == Initial(nr)
    ensures Sound(states[|ops|]) && AfterAllocs(nr, Allocs(ops), states[|ops|])
  {
    if ops == [] {
      InitialShape(nr, states[0]);
    } else {
      var n := |ops| - 1;
      RunPrefix(ops, states, false);
      RunShape(nr, ops[..n], states[..n + 1]);
      StepSound(states[n], ops[n], false);
      AfterStep(nr, Allocs(ops[..n]), states[n], ops[n]);
    }
  }

  /** `nr`, `nr + 1`, .. : `n` frame numbers in a row. */
  function Consecutive(nr: nat, n: nat): (s: seq<nat>)
    ensures |s| == n && forall i :: 0 <= i < n ==> s[i] == nr + i
  {
    seq(n, i => nr + i)
  }

  lemma ConsecutiveNext(nr: nat, n: nat)
    ensures Consecutive(nr, n) + [nr + n] == Consecutive(nr, n + 1)
  {
  }

  /** As written, over every run: frames come out in strictly increasing order
      and never twice, whatever is released in between, and the next allocation
      succeeds exactly until the frames free at the start have all come out. */
  lemma {:induction false} FramesNeverReused(nr: nat, ops: seq<Op>, states: seq<Frames>)
    requires nr < NR_FRAMES && IsRun(ops, states, false) && states[0] == Initial(nr)
    ensures Handed(ops, states) == Consecutive(nr, Allocs(ops))
    ensures Allowed(states[|ops|], Alloc) <==> Allocs(ops) < NR_FRAMES - nr
  {
    RunShape(nr, ops, states);
    if ops != [] {
      var n := |ops| - 1;
      RunPrefix(ops, states, false);
      FramesNeverReused(nr, ops[..n], states[..n + 1]);
      RunShape(nr, ops[..n], states[..n + 1]);
      if ops[n].Alloc? {
        assert AllocStep(states[n]).1 == Some(nr + Allocs(ops[..n]));
        ConsecutiveNext(nr, Allocs(ops[..n]));
      }
    }
  }

  /** As written, each release takes one frame out of circulation for good. */
  lemma {:induction false} ReleasedFramesLeak(nr: nat, ops: seq<Op>, states: seq<Frames>)
    requires nr < NR_FRAMES && IsRun(ops, states, false) && states[0] == Initial(nr)
    ensures var s := states[|ops|];
            |s.free| + HeldCount(s.refs) + (|ops| - Allocs(ops)) == NR_FRAMES - nr
  {
    if ops == [] {
      InitialShape(nr, states[0]);
    } else {
      var n := |ops| - 1;
      RunPrefix(ops, states, false);
      ReleasedFramesLeak(nr, ops[..n], states[..n + 1]);
      RunShape(nr, ops[..n], states[..n + 1]);
      StepCount(states[n], ops[n]);
    }
  }

  lemma StepCount(s: Frames, op: Op)
    requires Sound(s) && Allowed(s, op) && forall f :: 0 <= f < NR_FRAMES ==> s.refs[f] <= 1
    ensures var s' := Step(s, op, false);
            |s'.free| + HeldCount(s'.refs) == |s.free| + HeldCount(s.refs) - if op.Alloc? then 0 else 1
  {
    match op
    case Alloc => HeldCountUpdate(s.refs, s.free[0], 1);
    case Release(f) => HeldCountUpdate(s.refs, f, 0);
  }

  /** Free plus held is kept by an operation exactly when it is not a release
      that drops the last reference. */
  lemma StepConservesIff(s: Frames, op: Op)
    requires Sound(s) && Allowed(s, op)
    ensures var s' := Step(s, op, false);
            |s'.free| + HeldCount(s'.refs) == |s.free| + HeldCount(s.refs)
            <==> !(op.Release? && s.refs[op.frame] == 1)
  {
    match op
    case Alloc => HeldCountUpdate(s.refs, s.free[0], s.refs[s.free[0]] + 1);
    case Release(f) => HeldCountUpdate(s.refs, f, s.refs[f] - 1);
  }

  /** With the page itself pushed, free plus held never changes and no frame is
      ever both. */
  lemma {:induction false} PushingConserves(nr: nat, ops: seq<Op>, states: seq<Frames>)
    requires nr < NR_FRAMES && IsRun(ops, states, true) && states[0] == Initial(nr)
    ensures var s := states[|ops|];
            Sound(s) && |s.free| + HeldCount(s.refs) == NR_FRAMES - nr
  {
    if ops == [] {
      InitialShape(nr, states[0]);
    } else {
      var n := |ops| - 1;
      var s := states[n];
      RunPrefix(ops, states, true);
      PushingConserves(nr, ops[..n], states[..n + 1]);
      StepSound(s, ops[n], true);
      match ops[n]
      case Alloc => HeldCountUpdate(s.refs, s.free[0], 1);
      case Release(f) => HeldCountUpdate(s.refs, f, s.refs[f] - 1);
    }
  }
}
