/** The virtual memory manager over whole runs: every address it ever returned keeps translating to the frames it
    was given, no frame has two owners, and stores of the clients cannot reach the page tables. */
module VmmRuns {
  import opened Words
  import opened Paging
  import opened PmmFrames
  import opened VmmSpec
  import opened VmmMap
  import PmmSpec

  // ----- virtual zones

  const USER: nat := 0
  const KERNEL: nat := 1
  const APPLOADER: nat := 2
  const ZONES: nat := 3

  function ZoneEnd(z: nat): uint32 {
    if z == USER then 0xbfff_ffff else if z == KERNEL then 0xffff_ffff else 0x48_0000
  }

  function ZoneFirst(z: nat): uint32 {
    if z == USER then 0x1000 else if z == KERNEL then 0xc040_0000 else 0x40_0000
  }

  /** The system and the bump pointer of each zone. */
  datatype Vm = Vm(sys: Sys, last: seq<uint32>)

  datatype Reply = Mapped(vm: Vm, virt: uint32, phys: uint32) | Stop(why: VmmSpec.Stop)

  /** The check both allocators make against the end of the zone. */
  predicate Exhausted(last: uint32, n: uint32, z: nat) {
    Wrap(Wrap(last + PAGE * n) - 1) >= ZoneEnd(z)
  }

  /** Maps the n pages at `phys` to the bump pointer of the zone and moves the pointer behind them. */
  function MapAtLast(m: Vm, c: nat, p: PmmSpec.State, phys: uint32, n: uint32, flags: nat, z: nat): Reply
    requires c < FRAMES && z < |m.last| && m.last[z] / PAGE + n <= USABLE
  {
    match Map(Sys(m.sys.mem, p), c, phys, n, m.last[z] / PAGE, flags)
    case Done(t) => Mapped(Vm(t, m.last[z := Wrap(m.last[z] + PAGE * n)]), m.last[z], phys)
    case Halted(w) => Stop(w)
  }

  function AllocateVirtualPhysical(m: Vm, c: nat, pzone: bv8, n: uint32, flags: nat, z: nat): Reply
    requires c < FRAMES && z < |m.last| && m.last[z] / PAGE + n <= USABLE
  {
    if Exhausted(m.last[z], n, z) then Stop(Panicked)
    else
      match PmmSpec.Allocate(m.sys.pmm, n, pzone)
      case (p, Returned(a)) =>
        if a == PmmSpec.FAILED then Stop(Panicked) else MapAtLast(m, c, p, a, n, flags, z)
      case (_, Panic) => Stop(Panicked)
      case (_, Overrun) => Stop(Overran)
  }

  function MapPhysicalAddress(m: Vm, c: nat, phys: uint32, n: uint32, flags: nat, z: nat): Reply
    requires c < FRAMES && z < |m.last| && m.last[z] / PAGE + n <= USABLE
  {
    var off := phys % PAGE;
    if Exhausted(m.last[z], n, z) then Stop(Panicked)
    else
      match PmmSpec.MapPages(m.sys.pmm, phys - off, n)
      case (p, Returned(a)) =>
        if a == PmmSpec.FAILED then Stop(Panicked)
        else
          (match MapAtLast(m, c, p, a, n, flags, z)
           case Mapped(m', virt, _) => Mapped(m', Wrap(virt + off), phys)
           case Stop(w) => Stop(w))
      case (_, Panic) => Stop(Panicked)
      case (_, Overrun) => Stop(Overran)
  }

  // ----- handles

  /** What a caller holds: n pages from virtual page `page`, mapped to the frames from `frame` on. */
  datatype Handle = Handle(page: nat, frame: nat, n: nat, flags: nat, zone: nat)

  ghost predicate PageHeld(s: Sys, c: nat, h: Handle, i: nat)
    requires c < FRAMES && h.page + h.n <= USABLE && h.frame + h.n <= FRAMES && i < h.n
  {
    && Present(Entry(s.mem, c, (h.page + i) / 1024))
    && Leaf(s.mem, c, h.page + i) == OrFlags(PAGE * (h.frame + i), h.flags % 128)
    && FrameTaken(s.pmm, h.frame + i)
    && !IsTable(s.mem, c, h.frame + i)
  }

  predicate Sane(h: Handle) {
    h.page + h.n <= USABLE && h.frame + h.n <= FRAMES
  }

  /** Every page of the handle is mapped as promised, to a frame that is taken and is not a page table. */
  ghost predicate Held(s: Sys, c: nat, h: Handle) {
    c < FRAMES && Sane(h) && Present(Entry(s.mem, c, h.page / 1024)) && forall i: nat | i < h.n :: PageHeld(s, c, h, i)
  }

  /** No common page and no common frame. */
  predicate HandlesApart(a: Handle, b: Handle) {
    && (a.page + a.n <= b.page || b.page + b.n <= a.page || a.n == 0 || b.n == 0)
    && (a.frame + a.n <= b.frame || b.frame + b.n <= a.frame || a.n == 0 || b.n == 0)
  }

  ghost predicate Inv(m: Vm, c: nat, live: seq<Handle>) {
    && Wf(m.sys, c)
    && |m.last| == ZONES
    && (forall z | 0 <= z < ZONES :: m.last[z] % PAGE == 0 && ZoneFirst(z) <= m.last[z])
    && (forall h | h in live :: Held(m.sys, c, h))
    && (forall h | h in live :: InItsZone(m.last, h))
    && (forall i, j | 0 <= i < j < |live| :: HandlesApart(live[i], live[j]) && InOrder(live[i], live[j]))
  }

  /** The handle lies in its zone, below the bump pointer. */
  predicate InItsZone(last: seq<uint32>, h: Handle) {
    h.zone < |last| && h.zone < ZONES && ZoneFirst(h.zone) <= PAGE * h.page
    && PAGE * (h.page + h.n) <= ZoneEnd(h.zone) && PAGE * (h.page + h.n) <= last[h.zone]
  }

  /** Of two handles of one zone the later one has the higher addresses. */
  predicate InOrder(a: Handle, b: Handle) {
    a.zone == b.zone ==> a.page + a.n <= b.page
  }

  /** Frame separation: the directory, its tables and the frames of all handles are pairwise distinct. */
  lemma {:induction false} FrameSeparation(
    m: Vm, c: nat, live: seq<Handle>, a: nat, b: nat, i: nat, j: nat, d: nat, d': nat)
    requires Inv(m, c, live) && a < |live| && b < |live| && i < live[a].n && j < live[b].n && (a, i) != (b, j)
    requires d < d' < 1023 && Present(Entry(m.sys.mem, c, d)) && Present(Entry(m.sys.mem, c, d'))
    ensures var (f, g) := (live[a].frame + i, live[b].frame + j);
            var (t, t') := (Frame(Entry(m.sys.mem, c, d)), Frame(Entry(m.sys.mem, c, d')));
            f != g && f != c && f != t && t != c && t != t'
  {
    assert live[a] in live;
    assert PageHeld(m.sys, c, live[a], i);
    assert a < b ==> HandlesApart(live[a], live[b]);
    assert b < a ==> HandlesApart(live[b], live[a]);
    assert TableAt(m.sys.mem, c, d, Frame(Entry(m.sys.mem, c, d)));
    assert TableAt(m.sys.mem, c, d', Frame(Entry(m.sys.mem, c, d')));
  }

  lemma {:induction false} LeafOfFrame(f: nat, flags: nat)
    requires f < FRAMES
    ensures var e := OrFlags(PAGE * f, flags % 128); Frame(e) == f && (Present(e) <==> flags % 2 == 1)
  {
    FlagParity(flags);
    assert PAGE * f == 2 * (2048 * f);
  }

  lemma {:induction false} OffsetInHandle(page: nat, n: nat, k: nat)
    requires k < PAGE * n
    ensures k / PAGE < n && PAGE * page + k == PAGE * (page + k / PAGE) + k % PAGE
  {}

  /** The entry of every page of a handle: the address of its frame and the low seven flags it was mapped with. */
  lemma {:induction false} HandleEntries(s: Sys, c: nat, h: Handle, i: nat)
    requires Held(s, c, h) && i < h.n
    ensures h.page + i < USABLE && Leaf(s.mem, c, h.page + i) == PAGE * (h.frame + i) + h.flags % 128
  {
    hide FrameTaken, Leaf;
    assert PageHeld(s, c, h, i);
  }

  /** A handle translates offset by offset, if it was mapped with the present bit. */
  lemma {:induction false} HandleTranslates(s: Sys, c: nat, h: Handle, k: nat)
    requires Held(s, c, h) && k < PAGE * h.n
    ensures PAGE * h.page + k < TABLE_WINDOW
    ensures Translate(s.mem, c, PAGE * h.page + k) == if h.flags % 2 == 1 then Phys(PAGE * h.frame + k) else Fault
  {
    var i := k / PAGE;
    OffsetInHandle(h.page, h.n, k);
    OffsetInHandle(h.frame, h.n, k);
    assert PageHeld(s, c, h, i);
    WalkPage(s.mem, c, h.page + i, k % PAGE);
    LeafOfFrame(h.frame + i, h.flags);
  }

  // ----- one allocation

  /** What an allocation needs from its surroundings, all visible before the call: the range ends below the table
      window, does not run into a live range of another zone, and the allocator has room in a page-aligned zone. */
  ghost predicate AllocGuard(m: Vm, c: nat, live: seq<Handle>, pzone: bv8, n: uint32, z: nat) {
    && c < FRAMES && |m.last| == ZONES && z < ZONES && m.last[z] / PAGE + n <= USABLE
    && RangeFree(m, live, n, z)
    && StaysInside(m.sys.pmm, n, pzone)
    && CalmMap(Sys(m.sys.mem, PmmSpec.Allocate(m.sys.pmm, n, pzone).0), c, m.last[z] / PAGE, n)
  }

  ghost predicate AddressGuard(m: Vm, c: nat, live: seq<Handle>, phys: uint32, n: uint32, z: nat) {
    && c < FRAMES && |m.last| == ZONES && z < ZONES && m.last[z] / PAGE + n <= USABLE
    && RangeFree(m, live, n, z)
    && MapStaysInside(m.sys.pmm, phys - phys % PAGE, n)
    && CalmMap(Sys(m.sys.mem, PmmSpec.MapPages(m.sys.pmm, phys - phys % PAGE, n).0), c, m.last[z] / PAGE, n)
  }

  /** The next n pages of the zone are not in use by a handle of another zone. */
  predicate RangeFree(m: Vm, live: seq<Handle>, n: nat, z: nat)
    requires z < |m.last|
  {
    forall h | h in live && h.zone != z ::
      h.n == 0 || n == 0 || h.page + h.n <= m.last[z] / PAGE || m.last[z] / PAGE + n <= h.page
  }

  /** Claiming frames keeps the system well-formed. */
  lemma {:induction false} ClaimKeepsWf(s: Sys, p: PmmSpec.State, c: nat, first: nat, n: nat)
    requires Wf(s, c) && Sound(p) && FramesClaimed(s.pmm, p, first, n)
    ensures Wf(Sys(s.mem, p), c)
    ensures forall f: nat | first <= f < first + n :: FrameTaken(p, f) && !IsTable(s.mem, c, f) && !FrameTaken(s.pmm, f)
  {}

  /** A frame that was taken does not become a table. */
  lemma {:induction false} TakenIsNoNewTable(s: Sys, t: Sys, c: nat, lo: nat, hi: nat, f: nat)
    requires Grows(s, t, c, lo, hi) && FrameTaken(s.pmm, f) && !IsTable(s.mem, c, f)
    ensures !IsTable(t.mem, c, f)
  {
    if IsTable(t.mem, c, f) {
      var d :| 0 <= d < 1023 && TableAt(t.mem, c, d, f);
      assert TableAt(s.mem, c, d, f);
    }
  }

  /** A handle outside the mapped range survives the mapping. */
  lemma {:induction false} HeldAfterMap(s: Sys, t: Sys, c: nat, phys: uint32, n: nat, page: nat, flags: nat, h: Handle)
    requires page + n <= USABLE && Held(s, c, h) && MapDone(s, t, c, phys, n, page, flags)
    requires h.n == 0 || n == 0 || h.page + h.n <= page || page + n <= h.page
    ensures Held(t, c, h)
  {
    hide FrameTaken, Wf, DataKept, IsTable, PmmSpec.SameLayout;
    forall i: nat | i < h.n ensures PageHeld(t, c, h, i) {
      assert PageHeld(s, c, h, i);
      TakenIsNoNewTable(s, t, c, page / 1024, LastDir(page, n), h.frame + i);
      assert Leaf(t.mem, c, h.page + i) == OutsideLeaf(s, t, c, page, h.page + i);
    }
  }

  /** The range just mapped is held by its new handle. */
  lemma {:induction false} HeldByMap(s: Sys, t: Sys, c: nat, phys: uint32, n: nat, page: nat, flags: nat, z: nat)
    requires page + n <= USABLE && c < FRAMES && phys % PAGE == 0 && phys + PAGE * n <= TWO32
    requires MapDone(s, t, c, phys, n, page, flags)
    requires forall f: nat | phys / PAGE <= f < phys / PAGE + n :: FrameTaken(s.pmm, f) && !IsTable(s.mem, c, f)
    ensures Held(t, c, Handle(page, phys / PAGE, n, flags, z))
  {
    hide FrameTaken, Wf, DataKept;
    var h := Handle(page, phys / PAGE, n, flags, z);
    forall i: nat | i < n ensures PageHeld(t, c, h, i) {
      TakenIsNoNewTable(s, t, c, page / 1024, LastDir(page, n), h.frame + i);
      assert Wrap(phys + PAGE * ((page + i) - page)) == PAGE * (h.frame + i);
      assert page / 1024 <= (page + i) / 1024 <= LastDir(page, n);
    }
  }

  lemma {:induction false} FramesOfHandlesApart(s: Sys, p: PmmSpec.State, c: nat, h: Handle, first: nat, n: nat)
    requires Held(s, c, h) && FramesClaimed(s.pmm, p, first, n)
    ensures h.frame + h.n <= first || first + n <= h.frame || h.n == 0 || n == 0
  {
    var f := if first <= h.frame then h.frame else first;
    if f < h.frame + h.n {
      assert PageHeld(s, c, h, f - h.frame);
    }
  }

  lemma {:induction false} HeldAfterClaim(s: Sys, p: PmmSpec.State, c: nat, h: Handle, first: nat, n: nat)
    requires Held(s, c, h) && FramesClaimed(s.pmm, p, first, n)
    ensures Held(Sys(s.mem, p), c, h)
  {
    forall i: nat | i < h.n ensures PageHeld(Sys(s.mem, p), c, h, i) {
      assert PageHeld(s, c, h, i);
    }
  }

  lemma {:induction false} PagesApart(m: Vm, live: seq<Handle>, g: Handle, n: nat, z: nat)
    requires z < |m.last| && m.last[z] % PAGE == 0 && RangeFree(m, live, n, z) && g in live
    requires g.zone == z ==> PAGE * (g.page + g.n) <= m.last[z]
    ensures g.n == 0 || n == 0 || g.page + g.n <= m.last[z] / PAGE || m.last[z] / PAGE + n <= g.page
  {}

  /** An old handle after frames were claimed and mapped at the bump pointer. */
  lemma {:induction false} OldHandle(
    m: Vm, c: nat, live: seq<Handle>, p: PmmSpec.State, phys: uint32, n: nat, flags: nat, z: nat, t: Sys, g: Handle)
    requires Inv(m, c, live) && g in live && z < ZONES && m.last[z] / PAGE + n <= USABLE && RangeFree(m, live, n, z)
    requires FramesClaimed(m.sys.pmm, p, phys / PAGE, n)
    requires MapDone(Sys(m.sys.mem, p), t, c, phys, n, m.last[z] / PAGE, flags)
    ensures var h := Handle(m.last[z] / PAGE, phys / PAGE, n, flags, z);
            Held(t, c, g) && HandlesApart(g, h) && InOrder(g, h)
  {
    hide Wf, Grows, LeavesMapped;
    PagesApart(m, live, g, n, z);
    HeldAfterClaim(m.sys, p, c, g, phys / PAGE, n);
    FramesOfHandlesApart(m.sys, p, c, g, phys / PAGE, n);
    HeldAfterMap(Sys(m.sys.mem, p), t, c, phys, n, m.last[z] / PAGE, flags, g);
  }

  lemma {:induction false} OneMoreHandle(m: Vm, m': Vm, c: nat, live: seq<Handle>, h: Handle)
    requires Inv(m, c, live) && Wf(m'.sys, c) && h.zone < ZONES && |m'.last| == ZONES
    requires m'.last == m.last[h.zone := m'.last[h.zone]] && m.last[h.zone] <= m'.last[h.zone]
    requires m'.last[h.zone] % PAGE == 0 && InItsZone(m'.last, h)
    requires Held(m'.sys, c, h) && forall g | g in live :: Held(m'.sys, c, g) && HandlesApart(g, h) && InOrder(g, h)
    ensures Inv(m', c, live + [h])
  {
    hide Wf, Held;
    forall g | g in live + [h] ensures Held(m'.sys, c, g) && InItsZone(m'.last, g) {
      assert g in live || g == h;
    }
    forall i, j | 0 <= i < j < |live + [h]|
      ensures HandlesApart((live + [h])[i], (live + [h])[j]) && InOrder((live + [h])[i], (live + [h])[j])
    {
      assert live[i] in live;
    }
  }

  lemma {:induction false} InvFacts(m: Vm, c: nat, live: seq<Handle>)
    requires Inv(m, c, live)
    ensures c < FRAMES && Wf(m.sys, c) && |m.last| == ZONES && forall z | 0 <= z < ZONES :: m.last[z] % PAGE == 0
  {}

  /** A new mapping at the bump pointer, to frames just claimed, is one more handle and breaks none. */
  lemma {:induction false} MapAtLastKeepsInv(
    m: Vm, c: nat, live: seq<Handle>, p: PmmSpec.State, phys: uint32, n: uint32, flags: nat, z: nat)
    requires Inv(m, c, live) && z < ZONES && m.last[z] / PAGE + n <= USABLE && RangeFree(m, live, n, z)
    requires Sound(p) && phys % PAGE == 0 && phys + PAGE * n <= TWO32 && FramesClaimed(m.sys.pmm, p, phys / PAGE, n)
    requires CalmMap(Sys(m.sys.mem, p), c, m.last[z] / PAGE, n) && !Exhausted(m.last[z], n, z)
    ensures match MapAtLast(m, c, p, phys, n, flags, z)
            case Stop(w) => w == Panicked
            case Mapped(m', virt, _) =>
              virt == m.last[z] && m'.last[z] == virt + PAGE * n
              && Inv(m', c, live + [Handle(virt / PAGE, phys / PAGE, n, flags, z)])
  {
    hide Wf, Inv, MapDone, Held, CalmMap, FramesClaimed, Sound, RangeFree, Map;
    InvFacts(m, c, live);
    MapAtLastEffect(m, c, p, phys, n, flags, z);
    match Map(Sys(m.sys.mem, p), c, phys, n, m.last[z] / PAGE, flags)
    case Halted(_) =>
    case Done(t) => NewInv(m, c, live, p, phys, n, flags, z, t);
  }

  /** The frames claimed, the mapping done, and the new handle held, whatever happens to older handles. */
  lemma {:induction false} MapAtLastEffect(m: Vm, c: nat, p: PmmSpec.State, phys: uint32, n: uint32, flags: nat, z: nat)
    requires c < FRAMES && Wf(m.sys, c) && z < |m.last| && m.last[z] / PAGE + n <= USABLE
    requires Sound(p) && phys % PAGE == 0 && phys + PAGE * n <= TWO32 && FramesClaimed(m.sys.pmm, p, phys / PAGE, n)
    requires CalmMap(Sys(m.sys.mem, p), c, m.last[z] / PAGE, n)
    ensures match Map(Sys(m.sys.mem, p), c, phys, n, m.last[z] / PAGE, flags)
            case Halted(w) => w == Panicked
            case Done(t) =>
              && MapDone(Sys(m.sys.mem, p), t, c, phys, n, m.last[z] / PAGE, flags)
              && Held(t, c, Handle(m.last[z] / PAGE, phys / PAGE, n, flags, z))
  {
    hide Tables, Sound, CalmMap, FrameTaken;
    var s := Sys(m.sys.mem, p);
    ClaimKeepsWf(m.sys, p, c, phys / PAGE, n);
    MapEffect(s, c, phys, n, m.last[z] / PAGE, flags);
    match Map(s, c, phys, n, m.last[z] / PAGE, flags)
    case Halted(_) =>
    case Done(t) => HeldByMap(s, t, c, phys, n, m.last[z] / PAGE, flags, z);
  }

  lemma {:induction false} RoomInVirtualZone(last: uint32, n: uint32, z: nat)
    requires last % PAGE == 0 && last > 0 && last / PAGE + n <= USABLE && !Exhausted(last, n, z)
    ensures Wrap(last + PAGE * n) == last + PAGE * n <= ZoneEnd(z)
    ensures (last + PAGE * n) % PAGE == 0 && PAGE * (last / PAGE + n) == last + PAGE * n
  {}

  lemma {:induction false} NewInv(
    m: Vm, c: nat, live: seq<Handle>, p: PmmSpec.State, phys: uint32, n: uint32, flags: nat, z: nat, t: Sys)
    requires Inv(m, c, live) && z < ZONES && m.last[z] / PAGE + n <= USABLE && RangeFree(m, live, n, z)
    requires FramesClaimed(m.sys.pmm, p, phys / PAGE, n) && !Exhausted(m.last[z], n, z)
    requires MapDone(Sys(m.sys.mem, p), t, c, phys, n, m.last[z] / PAGE, flags)
    requires Held(t, c, Handle(m.last[z] / PAGE, phys / PAGE, n, flags, z))
    ensures Wrap(m.last[z] + PAGE * n) == m.last[z] + PAGE * n
    ensures Inv(Vm(t, m.last[z := Wrap(m.last[z] + PAGE * n)]), c, live + [Handle(m.last[z] / PAGE, phys / PAGE, n, flags, z)])
  {
    hide LeavesMapped, DataKept, DirectoryGrows, Held, FrameTaken, Tables, Sound, FramesClaimed, HandlesApart;
    var h := Handle(m.last[z] / PAGE, phys / PAGE, n, flags, z);
    forall g | g in live ensures Held(t, c, g) && HandlesApart(g, h) && InOrder(g, h) {
      OldHandle(m, c, live, p, phys, n, flags, z, t, g);
    }
    assert ZoneFirst(z) <= m.last[z];
    RoomInVirtualZone(m.last[z], n, z);
    OneMoreHandle(m, Vm(t, m.last[z := Wrap(m.last[z] + PAGE * n)]), c, live, h);
  }

  // ----- the zones

  /** Where the ranges of each zone lie: of the user zone from 0x1000 to 0xbfffffff, of the kernel zone behind the
      kernel's four megabytes and below the table window, of the program zone from 0x400000 to 0x480000. */
  lemma {:induction false} HandleInZone(m: Vm, c: nat, live: seq<Handle>, h: Handle)
    requires Inv(m, c, live) && h in live
    ensures || (h.zone == 0 && 0x1000 <= PAGE * h.page && PAGE * (h.page + h.n) < 0xc000_0000)
            || (h.zone == 1 && 0xc040_0000 <= PAGE * h.page && PAGE * (h.page + h.n) <= 0xffc0_0000)
            || (h.zone == 2 && 0x40_0000 <= PAGE * h.page && PAGE * (h.page + h.n) <= 0x48_0000)
  {
    hide Wf;
    assert Held(m.sys, c, h) && InItsZone(m.last, h);
  }

  /** Below the table window a request is turned away for want of addresses exactly when it would pass the end of the
      user zone or of the program zone. */
  lemma {:induction false} ExhaustedIff(last: uint32, n: uint32, z: nat)
    requires last % PAGE == 0 && last > 0 && last / PAGE + n <= USABLE && z < ZONES
    ensures Exhausted(last, n, z)
            <==> (z == 0 && last + PAGE * n > 0xbfff_ffff) || (z == 2 && last + PAGE * n > 0x48_0000)
  {}

  // ----- the two allocators

  /** AllocateVirtualPhysical returns the bump pointer, inside the zone and above everything it returned
      before, and one more handle that keeps all others. */
  lemma {:induction false} AllocateVirtualSafe(
    m: Vm, c: nat, live: seq<Handle>, pzone: bv8, n: uint32, flags: nat, z: nat)
    requires Inv(m, c, live) && AllocGuard(m, c, live, pzone, n, z)
    ensures match AllocateVirtualPhysical(m, c, pzone, n, flags, z)
            case Stop(w) => w == Panicked
            case Mapped(m', virt, phys) =>
              && virt == m.last[z] && phys % PAGE == 0
              && ZoneFirst(z) <= virt && virt + PAGE * n <= ZoneEnd(z) && m'.last[z] == virt + PAGE * n
              && Inv(m', c, live + [Handle(virt / PAGE, phys / PAGE, n, flags, z)])
  {
    hide Wf, Held, CalmMap, FramesClaimed;
    AllocateClaimsFramesOf(m, c, pzone, n);
    if !Exhausted(m.last[z], n, z) {
      assert ZoneFirst(z) <= m.last[z];
      RoomInVirtualZone(m.last[z], n, z);
      match PmmSpec.Allocate(m.sys.pmm, n, pzone)
      case (p, Returned(a)) =>
        if a != PmmSpec.FAILED {
          MapAtLastKeepsInv(m, c, live, p, a, n, flags, z);
        }
      case (_, Panic) =>
    }
  }

  lemma {:induction false} AllocateClaimsFramesOf(m: Vm, c: nat, pzone: bv8, n: uint32)
    requires Wf(m.sys, c) && StaysInside(m.sys.pmm, n, pzone)
    ensures match PmmSpec.Allocate(m.sys.pmm, n, pzone)
            case (p, Returned(a)) =>
              Sound(p) && a % PAGE == 0 && a + PAGE * n <= TWO32 && FramesClaimed(m.sys.pmm, p, a / PAGE, n)
            case (_, Panic) => true
            case (_, Overrun) => false
  {
    AllocateClaimsFrames(m.sys.pmm, n, pzone);
  }

  /** MapPhysicalAddress maps the frame of `phys` and returns the bump pointer plus the offset in the page. */
  lemma {:induction false} MapAddressSafe(m: Vm, c: nat, live: seq<Handle>, phys: uint32, n: uint32, flags: nat, z: nat)
    requires Inv(m, c, live) && AddressGuard(m, c, live, phys, n, z)
    ensures match MapPhysicalAddress(m, c, phys, n, flags, z)
            case Stop(w) => w == Panicked
            case Mapped(m', virt, p) =>
              && p == phys && virt == m.last[z] + phys % PAGE
              && ZoneFirst(z) <= m.last[z] && m.last[z] + PAGE * n <= ZoneEnd(z) && m'.last[z] == m.last[z] + PAGE * n
              && Inv(m', c, live + [Handle(m.last[z] / PAGE, phys / PAGE, n, flags, z)])
  {
    hide Wf, Held, CalmMap, FramesClaimed, PmmSpec.MapPages, MapAtLast;
    assert ZoneFirst(z) <= m.last[z] && m.last[z] % PAGE == 0;
    PageBase(phys);
    MapClaimsFramesOf(m, c, phys - phys % PAGE, n);
    if !Exhausted(m.last[z], n, z) {
      RoomInVirtualZone(m.last[z], n, z);
      var (p, a) := PmmSpec.MapPages(m.sys.pmm, phys - phys % PAGE, n);
      if a.value != PmmSpec.FAILED {
        MapAtLastKeepsInv(m, c, live, p, phys - phys % PAGE, n, flags, z);
      }
    }
  }

  lemma {:induction false} PageBase(a: uint32)
    ensures (a - a % PAGE) % PAGE == 0 && (a - a % PAGE) / PAGE == a / PAGE
  {}

  lemma {:induction false} MapClaimsFramesOf(m: Vm, c: nat, addr: uint32, n: uint32)
    requires Wf(m.sys, c) && MapStaysInside(m.sys.pmm, addr, n) && addr % PAGE == 0
    ensures match PmmSpec.MapPages(m.sys.pmm, addr, n)
            case (p, Returned(a)) =>
              a != PmmSpec.FAILED ==>
                Sound(p) && a == addr && addr + PAGE * n <= TWO32 && FramesClaimed(m.sys.pmm, p, addr / PAGE, n)
            case _ => false
  {
    MapClaimsFrames(m.sys.pmm, addr, n);
  }

  /** The address MapPhysicalAddress returns reaches the bytes asked for, up to the end of the mapped pages. */
  lemma {:induction false} UnalignedAddressTranslates(
    m: Vm, m': Vm, c: nat, live: seq<Handle>, phys: uint32, n: uint32, flags: nat, z: nat, virt: uint32, k: nat)
    requires Inv(m, c, live) && AddressGuard(m, c, live, phys, n, z) && flags % 2 == 1
    requires MapPhysicalAddress(m, c, phys, n, flags, z) == Mapped(m', virt, phys)
    requires k + phys % PAGE < PAGE * n
    ensures virt + k < TABLE_WINDOW && phys + k < TWO32 && Translate(m'.sys.mem, c, virt + k) == Phys(phys + k)
  {
    hide Wf, Held, HandlesApart, InOrder, InItsZone, MapPhysicalAddress, CalmMap, MapStaysInside, RangeFree, Translate,
      ZoneEnd, ZoneFirst;
    MapAddressSafe(m, c, live, phys, n, flags, z);
    var h := Handle(m.last[z] / PAGE, phys / PAGE, n, flags, z);
    assert h in live + [h];
    HandleTranslates(m'.sys, c, h, k + phys % PAGE);
    InvFacts(m, c, live);
    PageStart(m.last[z]);
    PageStart(phys);
  }

  lemma {:induction false} PageStart(a: nat)
    ensures PAGE * (a / PAGE) == a - a % PAGE
  {}

  /** For ranges in the kernel zone nothing has to be checked about other zones: they end below it. */
  lemma {:induction false} KernelRangeFree(m: Vm, c: nat, live: seq<Handle>, n: nat)
    requires Inv(m, c, live)
    ensures RangeFree(m, live, n, KERNEL)
  {
    hide Wf, Held;
    forall h | h in live && h.zone != KERNEL ensures h.page + h.n <= m.last[KERNEL] / PAGE {
      assert InItsZone(m.last, h);
    }
  }
}
