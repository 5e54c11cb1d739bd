/** Addresses outside the zones: what the kernel itself lies in, and the page at address 0. No request of the virtual
    memory manager, no unmapping and no store of a client changes what they translate to. */
module VmmOutside {
  import opened Words
  import opened Paging
  import opened PmmFrames
  import opened VmmSpec
  import opened VmmMap
  import opened VmmRuns
  import opened VmmStability
  import PmmSpec

  /** The page at address 0, and the kernel's four megabytes in front of the kernel zone's first address. */
  predicate Outside(v: uint32) {
    v < 0x1000 || 0xc000_0000 <= v < 0xc040_0000
  }

  /** The directory of the address stays, and so does its translation. */
  predicate Kept(s: Sys, t: Sys, c: nat, v: uint32)
    requires c < FRAMES
  {
    && Present(Entry(s.mem, c, v / 0x40_0000)) && Present(Entry(t.mem, c, v / 0x40_0000))
    && Translate(t.mem, c, v) == Translate(s.mem, c, v)
  }

  /** No range of a zone holds such an address. */
  lemma {:induction false} RangeElsewhere(z: nat, first: nat, n: nat, v: uint32)
    requires z < ZONES && Outside(v) && ZoneFirst(z) <= PAGE * first && PAGE * (first + n) <= ZoneEnd(z)
    ensures !(first <= v / PAGE < first + n)
  {}

  lemma {:induction false} DirectoryOf(v: uint32)
    ensures v / PAGE / 1024 == v / 0x40_0000
  {}

  /** A mapping that does not contain the page keeps it. */
  lemma {:induction false} KeptByMap(
    s: Sys, t: Sys, c: nat, phys: uint32, n: nat, page: nat, flags: nat, v: uint32)
    requires c < FRAMES && page + n <= USABLE && MapDone(s, t, c, phys, n, page, flags)
    requires v < TABLE_WINDOW && !(page <= v / PAGE < page + n) && Present(Entry(s.mem, c, v / 0x40_0000))
    ensures Kept(s, t, c, v)
  {
    hide Wf, LeavesMapped, DataKept, TakenGrows, Translate, Entry;
    DirectoryOf(v);
    MapMeetsSpec(s, t, c, phys, n, page, flags, v / PAGE, v % PAGE);
  }

  lemma {:induction false} KeptByMapAtLast(
    m: Vm, c: nat, p: PmmSpec.State, phys: uint32, n: uint32, flags: nat, z: nat, t: Sys, v: uint32)
    requires c < FRAMES && Wf(m.sys, c) && z < |m.last| && z < ZONES && m.last[z] / PAGE + n <= USABLE
    requires m.last[z] % PAGE == 0 && ZoneFirst(z) <= m.last[z] && m.last[z] + PAGE * n <= ZoneEnd(z)
    requires Sound(p) && phys % PAGE == 0 && phys + PAGE * n <= TWO32 && FramesClaimed(m.sys.pmm, p, phys / PAGE, n)
    requires CalmMap(Sys(m.sys.mem, p), c, m.last[z] / PAGE, n)
    requires Map(Sys(m.sys.mem, p), c, phys, n, m.last[z] / PAGE, flags) == Done(t)
    requires Outside(v) && Present(Entry(m.sys.mem, c, v / 0x40_0000))
    ensures Kept(m.sys, t, c, v)
  {
    hide Wf, Sound, FramesClaimed, CalmMap, Map, MapDone, Held, ZoneFirst, ZoneEnd;
    MapAtLastEffect(m, c, p, phys, n, flags, z);
    RangeElsewhere(z, m.last[z] / PAGE, n, v);
    KeptByMap(Sys(m.sys.mem, p), t, c, phys, n, m.last[z] / PAGE, flags, v);
  }

  lemma {:induction false} AllocateKeeps(
    m: Vm, c: nat, live: seq<Handle>, pzone: bv8, n: uint32, flags: nat, z: nat, v: uint32)
    requires Inv(m, c, live) && Guard(m, c, live, Allocate(pzone, n, flags, z)) && c < FRAMES
    requires Step(m, c, live, Allocate(pzone, n, flags, z)).Alive?
    requires Outside(v) && Present(Entry(m.sys.mem, c, v / 0x40_0000))
    ensures Kept(m.sys, Step(m, c, live, Allocate(pzone, n, flags, z)).vm.sys, c, v)
  {
    hide Wf, Sound, FramesClaimed, CalmMap, PmmSpec.Allocate, Map, RangeFree, InItsZone, InOrder, HandlesApart, Held,
      StaysInside, Kept, ZoneFirst, ZoneEnd, Outside;
    AllocateClaimsFramesOf(m, c, pzone, n);
    AllocateVirtualSafe(m, c, live, pzone, n, flags, z);
    var (p, a) := PmmSpec.Allocate(m.sys.pmm, n, pzone);
    var t := Map(Sys(m.sys.mem, p), c, a.value, n, m.last[z] / PAGE, flags).sys;
    KeptByMapAtLast(m, c, p, a.value, n, flags, z, t, v);
  }

  lemma {:induction false} MapAddressKeeps(
    m: Vm, c: nat, live: seq<Handle>, phys: uint32, n: uint32, flags: nat, z: nat, v: uint32)
    requires Inv(m, c, live) && Guard(m, c, live, MapAddress(phys, n, flags, z)) && c < FRAMES
    requires Step(m, c, live, MapAddress(phys, n, flags, z)).Alive?
    requires Outside(v) && Present(Entry(m.sys.mem, c, v / 0x40_0000))
    ensures Kept(m.sys, Step(m, c, live, MapAddress(phys, n, flags, z)).vm.sys, c, v)
  {
    hide Wf, Sound, FramesClaimed, CalmMap, PmmSpec.MapPages, Map, RangeFree, InItsZone, InOrder, HandlesApart, Held,
      MapStaysInside, Kept, ZoneFirst, ZoneEnd, Outside;
    PageBase(phys);
    MapClaimsFramesOf(m, c, phys - phys % PAGE, n);
    MapAddressSafe(m, c, live, phys, n, flags, z);
    var (p, a) := PmmSpec.MapPages(m.sys.pmm, phys - phys % PAGE, n);
    var t := Map(Sys(m.sys.mem, p), c, a.value, n, m.last[z] / PAGE, flags).sys;
    KeptByMapAtLast(m, c, p, a.value, n, flags, z, t, v);
  }

  lemma {:induction false} WriteKeeps(m: Vm, c: nat, live: seq<Handle>, h: Handle, k: nat, w: uint32, v: uint32)
    requires Inv(m, c, live) && Guard(m, c, live, Write(h, k, w)) && c < FRAMES
    requires Step(m, c, live, Write(h, k, w)).Alive?
    requires Outside(v) && Present(Entry(m.sys.mem, c, v / 0x40_0000))
    ensures Kept(m.sys, Step(m, c, live, Write(h, k, w)).vm.sys, c, v)
  {
    hide StoreTo, FrameTaken, Tables, Sound, Translate;
    assert Held(m.sys, c, h) && Wf(m.sys, c);
    StoreLands(m.sys, c, h, k, w);
    DataWrite(m.sys, c, h.frame + k / PAGE, k % PAGE / 4, w);
    assert Wrap(PAGE * h.page + k) == PAGE * h.page + k;
    SameTranslations(m.sys.mem, StoreTo(m.sys, c, PAGE * h.page + k, w).sys.mem, c);
  }

  lemma {:induction false} ReleaseKeeps(m: Vm, c: nat, live: seq<Handle>, h: Handle, v: uint32)
    requires Inv(m, c, live) && Guard(m, c, live, Release(h)) && c < FRAMES
    requires Step(m, c, live, Release(h)).Alive?
    requires Outside(v) && Present(Entry(m.sys.mem, c, v / 0x40_0000))
    ensures Kept(m.sys, Step(m, c, live, Release(h)).vm.sys, c, v)
  {
    hide Inv, Unmap, Held, Grows, Translate, ZoneFirst, ZoneEnd;
    ReleaseIsContained(m, c, live, IndexOf(live, h));
    HandleElsewhere(m, c, live, h, v);
    UnmapMeetsSpec(m.sys, Unmap(m.sys, c, h.page, h.n).sys, c, h.page, h.n, v);
  }

  lemma {:induction false} HandleElsewhere(m: Vm, c: nat, live: seq<Handle>, h: Handle, v: uint32)
    requires Inv(m, c, live) && h in live && Outside(v)
    ensures !(h.page <= v / PAGE < h.page + h.n)
  {
    hide Wf, Held, Outside, ZoneFirst, ZoneEnd;
    assert InItsZone(m.last, h);
    RangeElsewhere(h.zone, h.page, h.n, v);
  }

  lemma {:induction false} StepKeepsOutside(m: Vm, c: nat, live: seq<Handle>, op: Op, v: uint32)
    requires Inv(m, c, live) && Guard(m, c, live, op) && Step(m, c, live, op).Alive? && c < FRAMES
    requires Outside(v) && Present(Entry(m.sys.mem, c, v / 0x40_0000))
    ensures Kept(m.sys, Step(m, c, live, op).vm.sys, c, v)
  {
    hide *;
    match op
    case Allocate(pzone, n, flags, z) => AllocateKeeps(m, c, live, pzone, n, flags, z, v);
    case MapAddress(phys, n, flags, z) => MapAddressKeeps(m, c, live, phys, n, flags, z, v);
    case Write(h, k, w) => WriteKeeps(m, c, live, h, k, w, v);
    case Release(h) => ReleaseKeeps(m, c, live, h, v);
  }

  /** Through any guarded run the addresses outside the zones translate as they did, as long as their directory was there. */
  lemma {:induction false} RunKeepsOutside(m: Vm, c: nat, live: seq<Handle>, ops: seq<Op>, end: World, v: uint32)
    requires Inv(m, c, live) && RunsTo(m, c, live, ops, end) && end.Alive? && c < FRAMES
    requires v < 0x1000 || 0xc000_0000 <= v < 0xc040_0000
    requires Present(Entry(m.sys.mem, c, v / 0x40_0000))
    ensures Translate(end.vm.sys.mem, c, v) == Translate(m.sys.mem, c, v)
    decreases |ops|
  {
    hide Inv, Guard, Step, Translate;
    if ops != [] {
      StepKeepsInv(m, c, live, ops[0]);
      StepKeepsOutside(m, c, live, ops[0], v);
      var w := Step(m, c, live, ops[0]);
      RunKeepsOutside(w.vm, c, w.live, ops[1..], end, v);
    }
  }
}
