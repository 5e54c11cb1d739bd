/** Reserved frames: what the kernel and the allocator's own tables lie in is never handed out, never becomes a page
    table, and no store of a client reaches it. */
module VmmReserved {
  import opened Words
  import opened Paging
  import opened PmmFrames
  import opened VmmSpec
  import opened VmmMap
  import opened VmmRuns
  import opened VmmStability
  import PmmSpec

  /** The frames [lo, hi) are taken, and no handle has one of them. */
  ghost predicate Reserved(s: Sys, c: nat, live: seq<Handle>, lo: nat, hi: nat) {
    && c < FRAMES && lo <= hi <= FRAMES
    && AllTaken(s.pmm, lo, hi)
    && (forall h | h in live :: ClearOf(h.frame, h.n, lo, hi))
  }

  ghost predicate AllTaken(p: PmmSpec.State, lo: nat, hi: nat) {
    forall f | lo <= f < hi :: FrameTaken(p, f)
  }

  predicate ClearOf(first: nat, n: nat, lo: nat, hi: nat) {
    n == 0 || lo == hi || first + n <= lo || hi <= first
  }

  /** The frames [lo, hi) stay taken, none of them becomes a page table, and the words of those that are none stay. */
  ghost predicate LeftAlone(s: Sys, t: Sys, c: nat, lo: nat, hi: nat)
    requires c < FRAMES && lo <= hi <= FRAMES
  {
    && AllTaken(t.pmm, lo, hi)
    && (forall f | lo <= f < hi :: IsTable(t.mem, c, f) <==> IsTable(s.mem, c, f))
    && (forall f, x: nat | lo <= f < hi && x < 1024 && !IsTable(s.mem, c, f) :: Entry(t.mem, f, x) == Entry(s.mem, f, x))
  }

  lemma {:induction false} LeftAloneTwice(s: Sys, u: Sys, t: Sys, c: nat, lo: nat, hi: nat)
    requires c < FRAMES && lo <= hi <= FRAMES && LeftAlone(s, u, c, lo, hi) && LeftAlone(u, t, c, lo, hi)
    ensures LeftAlone(s, t, c, lo, hi)
  {
    hide FrameTaken, IsTable, Entry;
  }

  /** Growing the page tables takes only free frames. */
  lemma {:induction false} GrowsAround(s: Sys, t: Sys, c: nat, a: nat, b: nat, lo: nat, hi: nat)
    requires c < FRAMES && lo <= hi <= FRAMES && Grows(s, t, c, a, b) && AllTaken(s.pmm, lo, hi)
    ensures LeftAlone(s, t, c, lo, hi)
  {
    hide FrameTaken, Wf, PmmSpec.SameLayout;
    forall f | lo <= f < hi ensures IsTable(t.mem, c, f) <==> IsTable(s.mem, c, f) {
      if IsTable(s.mem, c, f) {
        TableStaysTable(s, t, c, a, b, f);
      } else {
        TakenIsNoNewTable(s, t, c, a, b, f);
      }
    }
  }

  /** Frames that were free before a claim are none of the reserved ones. */
  lemma {:induction false} ClaimAround(s: Sys, p: PmmSpec.State, c: nat, first: nat, n: nat, lo: nat, hi: nat)
    requires c < FRAMES && lo <= hi <= FRAMES && AllTaken(s.pmm, lo, hi) && FramesClaimed(s.pmm, p, first, n)
    ensures LeftAlone(s, Sys(s.mem, p), c, lo, hi) && ClearOf(first, n, lo, hi)
  {
    hide FrameTaken;
    var f := if first <= lo then lo else first;
    assert (lo <= f < hi ==> FrameTaken(s.pmm, f)) && (first <= f < first + n ==> !FrameTaken(s.pmm, f));
  }

  /** Claiming free frames and mapping them leaves the reserved ones alone. */
  lemma {:induction false} MapAround(
    m: Vm, c: nat, p: PmmSpec.State, phys: uint32, n: uint32, flags: nat, z: nat, t: Sys, lo: nat, hi: nat)
    requires c < FRAMES && Wf(m.sys, c) && z < |m.last| && m.last[z] / PAGE + n <= USABLE
    requires Sound(p) && phys % PAGE == 0 && phys + PAGE * n <= TWO32 && FramesClaimed(m.sys.pmm, p, phys / PAGE, n)
    requires CalmMap(Sys(m.sys.mem, p), c, m.last[z] / PAGE, n)
    requires Map(Sys(m.sys.mem, p), c, phys, n, m.last[z] / PAGE, flags) == Done(t)
    requires lo <= hi <= FRAMES && AllTaken(m.sys.pmm, lo, hi)
    ensures LeftAlone(m.sys, t, c, lo, hi) && ClearOf(phys / PAGE, n, lo, hi)
  {
    hide Wf, Sound, FramesClaimed, CalmMap, Map, AllTaken, LeftAlone, ClearOf, Grows, LeavesMapped, Held;
    var u := Sys(m.sys.mem, p);
    MapAtLastEffect(m, c, p, phys, n, flags, z);
    ClaimAround(m.sys, p, c, phys / PAGE, n, lo, hi);
    TakenAfter(m.sys, u, c, lo, hi);
    GrowsAround(u, t, c, m.last[z] / PAGE / 1024, LastDir(m.last[z] / PAGE, n), lo, hi);
    LeftAloneTwice(m.sys, u, t, c, lo, hi);
  }

  lemma {:induction false} TakenAfter(s: Sys, t: Sys, c: nat, lo: nat, hi: nat)
    requires c < FRAMES && lo <= hi <= FRAMES && LeftAlone(s, t, c, lo, hi)
    ensures AllTaken(t.pmm, lo, hi)
  {}

  lemma {:induction false} StoreAround(
    m: Vm, c: nat, live: seq<Handle>, h: Handle, k: nat, w: uint32, lo: nat, hi: nat)
    requires Inv(m, c, live) && h in live && k < PAGE * h.n && k % 4 == 0 && h.flags % 2 == 1
    requires Reserved(m.sys, c, live, lo, hi)
    ensures PAGE * h.page + k < TWO32 && StoreTo(m.sys, c, PAGE * h.page + k, w).Done?
    ensures LeftAlone(m.sys, StoreTo(m.sys, c, PAGE * h.page + k, w).sys, c, lo, hi)
  {
    hide StoreTo, FrameTaken, Tables, Sound;
    assert Held(m.sys, c, h) && ClearOf(h.frame, h.n, lo, hi);
    StoreLands(m.sys, c, h, k, w);
    DataWrite(m.sys, c, h.frame + k / PAGE, k % PAGE / 4, w);
    assert k / PAGE < h.n;
  }

  /** One guarded step leaves the reserved frames alone, and the handle it makes has none of them. */
  lemma {:induction false} StepAround(m: Vm, c: nat, live: seq<Handle>, op: Op, lo: nat, hi: nat)
    requires Inv(m, c, live) && Guard(m, c, live, op) && Reserved(m.sys, c, live, lo, hi)
    requires Step(m, c, live, op).Alive?
    ensures var w := Step(m, c, live, op); Reserved(w.vm.sys, c, w.live, lo, hi) && LeftAlone(m.sys, w.vm.sys, c, lo, hi)
  {
    hide *;
    ReservedBounds(m.sys, c, live, lo, hi);
    match op
    case Allocate(pzone, n, flags, z) => AllocateAround(m, c, live, pzone, n, flags, z, lo, hi);
    case MapAddress(phys, n, flags, z) => MapAddressAround(m, c, live, phys, n, flags, z, lo, hi);
    case Write(h, k, w) => WriteAround(m, c, live, h, k, w, lo, hi);
    case Release(h) => ReleaseAround(m, c, live, h, lo, hi);
  }

  lemma {:induction false} ReservedBounds(s: Sys, c: nat, live: seq<Handle>, lo: nat, hi: nat)
    requires Reserved(s, c, live, lo, hi)
    ensures c < FRAMES && lo <= hi <= FRAMES && AllTaken(s.pmm, lo, hi)
  {}

  lemma {:induction false} AllocateAround(
    m: Vm, c: nat, live: seq<Handle>, pzone: bv8, n: uint32, flags: nat, z: nat, lo: nat, hi: nat)
    requires Inv(m, c, live) && Guard(m, c, live, Allocate(pzone, n, flags, z)) && Reserved(m.sys, c, live, lo, hi)
    requires Step(m, c, live, Allocate(pzone, n, flags, z)).Alive?
    ensures var w := Step(m, c, live, Allocate(pzone, n, flags, z));
            Reserved(w.vm.sys, c, w.live, lo, hi) && LeftAlone(m.sys, w.vm.sys, c, lo, hi)
  {
    hide Wf, Sound, FramesClaimed, CalmMap, PmmSpec.Allocate, Map, RangeFree, InItsZone, InOrder, HandlesApart, Held,
      AllTaken, LeftAlone, ClearOf, StaysInside;
    AllocateClaimsFramesOf(m, c, pzone, n);
    var (p, a) := PmmSpec.Allocate(m.sys.pmm, n, pzone);
    var t := Map(Sys(m.sys.mem, p), c, a.value, n, m.last[z] / PAGE, flags).sys;
    MapAround(m, c, p, a.value, n, flags, z, t, lo, hi);
    TakenAfter(m.sys, t, c, lo, hi);
  }

  lemma {:induction false} MapAddressAround(
    m: Vm, c: nat, live: seq<Handle>, phys: uint32, n: uint32, flags: nat, z: nat, lo: nat, hi: nat)
    requires Inv(m, c, live) && Guard(m, c, live, MapAddress(phys, n, flags, z)) && Reserved(m.sys, c, live, lo, hi)
    requires Step(m, c, live, MapAddress(phys, n, flags, z)).Alive?
    ensures var w := Step(m, c, live, MapAddress(phys, n, flags, z));
            Reserved(w.vm.sys, c, w.live, lo, hi) && LeftAlone(m.sys, w.vm.sys, c, lo, hi)
  {
    hide Wf, Sound, FramesClaimed, CalmMap, PmmSpec.MapPages, Map, RangeFree, InItsZone, InOrder, HandlesApart, Held,
      AllTaken, LeftAlone, ClearOf, MapStaysInside;
    PageBase(phys);
    MapClaimsFramesOf(m, c, phys - phys % PAGE, n);
    var (p, a) := PmmSpec.MapPages(m.sys.pmm, phys - phys % PAGE, n);
    var t := Map(Sys(m.sys.mem, p), c, a.value, n, m.last[z] / PAGE, flags).sys;
    MapAround(m, c, p, a.value, n, flags, z, t, lo, hi);
    TakenAfter(m.sys, t, c, lo, hi);
  }

  lemma {:induction false} WriteAround(
    m: Vm, c: nat, live: seq<Handle>, h: Handle, k: nat, w: uint32, lo: nat, hi: nat)
    requires Inv(m, c, live) && Guard(m, c, live, Write(h, k, w)) && Reserved(m.sys, c, live, lo, hi)
    requires Step(m, c, live, Write(h, k, w)).Alive?
    ensures var e := Step(m, c, live, Write(h, k, w));
            Reserved(e.vm.sys, c, e.live, lo, hi) && LeftAlone(m.sys, e.vm.sys, c, lo, hi)
  {
    hide Inv, StoreTo, LeftAlone, AllTaken, Held;
    StoreAround(m, c, live, h, k, w, lo, hi);
    assert Wrap(PAGE * h.page + k) == PAGE * h.page + k;
    TakenAfter(m.sys, StoreTo(m.sys, c, PAGE * h.page + k, w).sys, c, lo, hi);
  }

  lemma {:induction false} ReleaseAround(m: Vm, c: nat, live: seq<Handle>, h: Handle, lo: nat, hi: nat)
    requires Inv(m, c, live) && Guard(m, c, live, Release(h)) && Reserved(m.sys, c, live, lo, hi)
    requires Step(m, c, live, Release(h)).Alive?
    ensures var e := Step(m, c, live, Release(h));
            Reserved(e.vm.sys, c, e.live, lo, hi) && LeftAlone(m.sys, e.vm.sys, c, lo, hi)
  {
    hide Inv, Unmap, LeftAlone, AllTaken, Held, Grows, ClearOf;
    ReleaseIsContained(m, c, live, IndexOf(live, h));
    var t := Unmap(m.sys, c, h.page, h.n).sys;
    GrowsAround(m.sys, t, c, 0, 0, lo, hi);
    TakenAfter(m.sys, t, c, lo, hi);
  }

  /** Through any guarded run, whatever is allocated, mapped, written or released: the reserved frames are handed to no
      one, become no page tables, and their words are not written. */
  lemma {:induction false} RunAround(
    m: Vm, c: nat, live: seq<Handle>, ops: seq<Op>, end: World, lo: nat, hi: nat)
    requires Inv(m, c, live) && RunsTo(m, c, live, ops, end) && end.Alive? && Reserved(m.sys, c, live, lo, hi)
    ensures c < FRAMES && lo <= hi <= FRAMES
    ensures Reserved(end.vm.sys, c, end.live, lo, hi) && LeftAlone(m.sys, end.vm.sys, c, lo, hi)
    decreases |ops|
  {
    hide Inv, Guard, Step, Reserved, LeftAlone, AllTaken;
    ReservedBounds(m.sys, c, live, lo, hi);
    if ops == [] {
      SameLeftAlone(m.sys, c, lo, hi);
    } else {
      StepKeepsInv(m, c, live, ops[0]);
      StepAround(m, c, live, ops[0], lo, hi);
      var w := Step(m, c, live, ops[0]);
      RunAround(w.vm, c, w.live, ops[1..], end, lo, hi);
      LeftAloneTwice(m.sys, w.vm.sys, end.vm.sys, c, lo, hi);
    }
  }

  lemma {:induction false} SameLeftAlone(s: Sys, c: nat, lo: nat, hi: nat)
    requires c < FRAMES && lo <= hi <= FRAMES && AllTaken(s.pmm, lo, hi)
    ensures LeftAlone(s, s, c, lo, hi)
  {}
}
