/** An allocator with room never lets a mapping panic; and from boot, two of the states in which the code goes wrong. */
module VmmReach {
  import opened Words
  import opened Paging
  import opened PmmFrames
  import opened PmmRoom
  import opened VmmSpec
  import opened VmmMap
  import opened VmmRuns
  import opened VmmStability
  import PmmSpec
  import PmmBoot
  import VmmInit
  import Boot
  import Bitmap

  // ----- room is enough

  /** k free pages behind the hint make k requests for one page calm. */
  lemma {:induction false} RoomIsCalm(p: PmmSpec.State, i: nat, k: nat, j: nat)
    requires RoomBehindHint(p, i, k) && j <= k
    ensures Calm(p, j)
    decreases j
  {
    hide RoomBehindHint, StaysInside, PmmSpec.Allocate;
    if j > 0 {
      RoomIsUsed(p, i, k);
      RoomIsCalm(PmmSpec.Allocate(p, 1, PmmSpec.NORMAL).0, i, k - 1, j - 1);
    }
  }

  /** A request for one page. */
  lemma {:induction false} RoomIsUsed(p: PmmSpec.State, i: nat, k: nat)
    requires RoomBehindHint(p, i, k) && k > 0
    ensures i < |p.zones| && StaysInside(p, 1, PmmSpec.NORMAL)
    ensures var (p', a) := PmmSpec.Allocate(p, 1, PmmSpec.NORMAL);
            && a.Returned? && a.value / PAGE == NextFrame(p, i) && RoomBehindHint(p', i, k - 1)
            && i < |p'.zones| && NextFrame(p', i) == NextFrame(p, i) + 1
  {
    hide RoomBehindHint, StaysInside, PmmSpec.Allocate;
    RoomFacts(p, i, k);
    NextRequest(p, i, k, 1);
    RoomFacts(PmmSpec.Allocate(p, 1, PmmSpec.NORMAL).0, i, k - 1);
  }

  /** One turn of the mapping loop uses up the room by the tables it adds. */
  lemma {:induction false} TurnWithRoom(s: Sys, c: nat, page: nat, phys: uint32, n: nat, flags: nat, i: nat, k: nat)
    returns (k': nat)
    requires LoopInvariant(s, c, page, n) && n > 0 && RoomBehindHint(s.pmm, i, k) && Ahead(s.mem, c, page, n) <= k
    ensures Turn(s, c, page, phys, flags).Done?
    ensures var u := Turn(s, c, page, phys, flags).sys;
            && RoomBehindHint(u.pmm, i, k') && k' + Ahead(s.mem, c, page, n) == k + Ahead(u.mem, c, page + 1, n - 1)
  {
    InvariantFacts(s, c, page, n);
    var d, w := page / 1024 + 1, OrFlags(phys, flags % 128);
    if page % 1024 == 1023 && !Present(Entry(s.mem, c, d)) {
      BoundaryWithRoom(s, c, page, phys, n, flags, i, k);
      k' := k - 1;
    } else {
      hide Wf, RoomBehindHint, TurnDone, Ahead, WriteLeaf;
      QuietTurn(s, c, page, phys, flags);
      AheadStep(s.mem, WriteLeaf(s, c, page, w).mem, c, page, n);
      k' := k;
    }
  }

  lemma {:induction false} BoundaryWithRoom(s: Sys, c: nat, page: nat, phys: uint32, n: nat, flags: nat, i: nat, k: nat)
    requires c < FRAMES && Wf(s, c) && n > 0 && page + n <= USABLE && Present(Entry(s.mem, c, page / 1024))
    requires page % 1024 == 1023 && !Present(Entry(s.mem, c, page / 1024 + 1))
    requires RoomBehindHint(s.pmm, i, k) && Ahead(s.mem, c, page, n) <= k
    ensures k > 0 && Turn(s, c, page, phys, flags).Done?
    ensures var u := Turn(s, c, page, phys, flags).sys;
            RoomBehindHint(u.pmm, i, k - 1) && Ahead(s.mem, c, page, n) == Ahead(u.mem, c, page + 1, n - 1) + 1
  {
    hide Wf, RoomBehindHint, TurnDone, Ahead, WriteLeaf, StaysInside, PmmSpec.Allocate, Turn;
    AheadStep(s.mem, s.mem, c, page, n);
    RoomIsUsed(s.pmm, i, k);
    BoundaryTurn(s, c, page, phys, flags);
    BoundaryGranted(s, c, page, phys, flags);
    AheadStep(s.mem, Turn(s, c, page, phys, flags).sys.mem, c, page, n);
  }

  lemma {:induction false} BoundaryGranted(s: Sys, c: nat, page: nat, phys: uint32, flags: nat)
    requires Wf(s, c) && page < USABLE && page % 1024 == 1023
    requires Present(Entry(s.mem, c, page / 1024)) && !Present(Entry(s.mem, c, page / 1024 + 1))
    requires PmmSpec.Allocate(s.pmm, 1, PmmSpec.NORMAL).1.Returned?
    ensures Turn(s, c, page, phys, flags).Done?
  {
    hide PmmSpec.Allocate;
    WriteLeafEffect(s, c, page, OrFlags(phys, flags % 128));
  }

  lemma {:induction false} LoopWithRoom(s: Sys, c: nat, page: nat, phys: uint32, n: nat, flags: nat, i: nat, k: nat)
    returns (k': nat)
    requires LoopInvariant(s, c, page, n) && RoomBehindHint(s.pmm, i, k) && Ahead(s.mem, c, page, n) <= k
    ensures c < FRAMES && page + n <= USABLE && MapLoop(s, c, page, phys, n, flags).Done?
    ensures k' + Ahead(s.mem, c, page, n) >= k && RoomBehindHint(MapLoop(s, c, page, phys, n, flags).sys.pmm, i, k')
    decreases n
  {
    hide LoopInvariant, RoomBehindHint, Turn, Ahead;
    InvariantFacts(s, c, page, n);
    if n == 0 {
      k' := k;
    } else {
      var r := TurnWithRoom(s, c, page, phys, n, flags, i, k);
      NextTurn(s, c, page, phys, n, flags);
      var u := Turn(s, c, page, phys, flags).sys;
      InvariantFacts(u, c, page + 1, n - 1);
      k' := LoopWithRoom(u, c, page + 1, Wrap(phys + PAGE), n - 1, flags, i, r);
    }
  }

  /** The tables a mapping may have to add. */
  function TablesNeeded(mem: Memory, c: nat, page: nat, n: nat): nat
    requires c < FRAMES && page + n <= USABLE
  {
    Absent(mem, c, page / 1024, LastDir(page, n) - page / 1024 + 1)
  }

  /** A mapping succeeds if there is room for the tables it needs. */
  lemma {:induction false} MapWithRoom(s: Sys, c: nat, phys: uint32, n: nat, page: nat, flags: nat, i: nat, k: nat)
    returns (k': nat)
    requires c < FRAMES && Wf(s, c) && page + n <= USABLE
    requires RoomBehindHint(s.pmm, i, k) && TablesNeeded(s.mem, c, page, n) <= k
    ensures CalmMap(s, c, page, n) && Map(s, c, phys, n, page, flags).Done?
    ensures k' + TablesNeeded(s.mem, c, page, n) >= k
    ensures RoomBehindHint(Map(s, c, phys, n, page, flags).sys.pmm, i, k')
  {
    hide Wf, RoomBehindHint, MapLoop, EnsureClearTable, Calm;
    RoomIsCalm(s.pmm, i, k, TablesNeeded(s.mem, c, page, n));
    if Present(Entry(s.mem, c, page / 1024)) {
      NothingToEnsure(s, c, page / 1024);
      k' := LoopWithRoom(s, c, page, phys, n, flags, i, k);
    } else {
      FirstWithRoom(s, c, n, page, i, k);
      var u := EnsureClearTable(s, c, page / 1024).sys;
      k' := LoopWithRoom(u, c, page, phys, n, flags, i, k - 1);
    }
  }

  lemma {:induction false} NothingToEnsure(s: Sys, c: nat, d: nat)
    requires c < FRAMES && d < 1024 && Present(Entry(s.mem, c, d))
    ensures EnsureClearTable(s, c, d) == Done(s)
  {}

  lemma {:induction false} FirstWithRoom(s: Sys, c: nat, n: nat, page: nat, i: nat, k: nat)
    requires c < FRAMES && Wf(s, c) && page + n <= USABLE && CalmMap(s, c, page, n)
    requires !Present(Entry(s.mem, c, page / 1024))
    requires RoomBehindHint(s.pmm, i, k) && TablesNeeded(s.mem, c, page, n) <= k
    ensures k > 0 && EnsureClearTable(s, c, page / 1024).Done?
    ensures var u := EnsureClearTable(s, c, page / 1024).sys;
            && LoopInvariant(u, c, page, n) && RoomBehindHint(u.pmm, i, k - 1)
            && TablesNeeded(s.mem, c, page, n) == Ahead(u.mem, c, page, n) + 1
  {
    hide StaysInside, RoomBehindHint, PmmSpec.Allocate, EnsureClearTable, Wf, Absent, Calm, FirstDone, CalmMap;
    var d, j := page / 1024, LastDir(page, n) - page / 1024;
    AbsentFirst(s.mem, c, d, j);
    RoomIsUsed(s.pmm, i, k);
    FirstGranted(s, c, d);
    FirstTable(s, c, n, page);
    var u := EnsureClearTable(s, c, d).sys;
    FirstDoneFacts(s, u, c, d);
    AbsentSame(s.mem, u.mem, c, d + 1, j);
  }

  lemma {:induction false} AbsentFirst(mem: Memory, c: nat, d: nat, j: nat)
    requires c < FRAMES && d + j < 1024 && !Present(Entry(mem, c, d))
    ensures Absent(mem, c, d, j + 1) == 1 + Absent(mem, c, d + 1, j)
  {}

  lemma {:induction false} FirstGranted(s: Sys, c: nat, d: nat)
    requires c < FRAMES && d < 1024 && !Present(Entry(s.mem, c, d))
    requires PmmSpec.Allocate(s.pmm, 1, PmmSpec.NORMAL).1.Returned?
    ensures EnsureClearTable(s, c, d).Done?
    ensures EnsureClearTable(s, c, d).sys.pmm == PmmSpec.Allocate(s.pmm, 1, PmmSpec.NORMAL).0
  {
    hide PmmSpec.Allocate;
  }

  lemma {:induction false} FirstDoneFacts(s: Sys, u: Sys, c: nat, d: nat)
    requires c < FRAMES && d < 1024 && FirstDone(s, u, c, d)
    ensures Wf(u, c) && Present(Entry(u.mem, c, d))
    ensures forall e | 0 <= e < 1024 && e != d :: Entry(u.mem, c, e) == Entry(s.mem, c, e)
  {
    hide Wf;
  }

  /** AllocateVirtualPhysical succeeds if the zone is not exhausted and the allocator has room for the pages and the
      tables; it takes the frames behind the hint. */
  lemma {:induction false} GrantedWithRoom(m: Vm, c: nat, n: uint32, flags: nat, z: nat, i: nat, k: nat)
    returns (k': nat)
    requires c < FRAMES && Wf(m.sys, c) && z < |m.last| && m.last[z] / PAGE + n <= USABLE && !Exhausted(m.last[z], n, z)
    requires RoomBehindHint(m.sys.pmm, i, k) && n + TablesNeeded(m.sys.mem, c, m.last[z] / PAGE, n) <= k
    ensures i < |m.sys.pmm.zones| && StaysInside(m.sys.pmm, n, PmmSpec.NORMAL)
    ensures CalmMap(Sys(m.sys.mem, PmmSpec.Allocate(m.sys.pmm, n, PmmSpec.NORMAL).0), c, m.last[z] / PAGE, n)
    ensures var r := AllocateVirtualPhysical(m, c, PmmSpec.NORMAL, n, flags, z);
            && r.Mapped? && r.virt == m.last[z] && r.phys / PAGE == NextFrame(m.sys.pmm, i)
            && RoomBehindHint(r.vm.sys.pmm, i, k')
            && k' + n + TablesNeeded(m.sys.mem, c, m.last[z] / PAGE, n) >= k
            && r.vm.last == m.last[z := Wrap(m.last[z] + PAGE * n)]
  {
    hide Wf, RoomBehindHint, PmmSpec.Allocate, Map, CalmMap, StaysInside, Exhausted, TablesNeeded;
    RoomFacts(m.sys.pmm, i, k);
    NextRequest(m.sys.pmm, i, k, n);
    var (p, a) := PmmSpec.Allocate(m.sys.pmm, n, PmmSpec.NORMAL);
    AllocateClaimsFramesOf(m, c, PmmSpec.NORMAL, n);
    ClaimKeepsWf(m.sys, p, c, a.value / PAGE, n);
    k' := MapWithRoom(Sys(m.sys.mem, p), c, a.value, n, m.last[z] / PAGE, flags, i, k - n);
  }

  /** So room in the allocator, room in the zone and no other zone in the way are all that a guarded allocation needs. */
  lemma {:induction false} RoomMeetsGuard(
    m: Vm, c: nat, live: seq<Handle>, n: uint32, flags: nat, z: nat, i: nat, k: nat)
    requires c < FRAMES && Inv(m, c, live) && z < ZONES
    requires m.last[z] / PAGE + n <= USABLE && !Exhausted(m.last[z], n, z) && RangeFree(m, live, n, z)
    requires RoomBehindHint(m.sys.pmm, i, k) && n + TablesNeeded(m.sys.mem, c, m.last[z] / PAGE, n) <= k
    ensures AllocGuard(m, c, live, PmmSpec.NORMAL, n, z)
    ensures AllocateVirtualPhysical(m, c, PmmSpec.NORMAL, n, flags, z).Mapped?
  {
    hide Wf, Held, RoomBehindHint, PmmSpec.Allocate, Map, CalmMap, StaysInside, Exhausted, TablesNeeded, RangeFree;
    var _ := GrantedWithRoom(m, c, n, flags, z, i, k);
  }

  lemma {:induction false} AbsentBound(mem: Memory, c: nat, d: nat, k: nat)
    requires c < FRAMES && d + k <= 1024
    ensures Absent(mem, c, d, k) <= k
    decreases k
  {
    if k > 0 {
      AbsentBound(mem, c, d + 1, k - 1);
    }
  }

  // ----- two states in which the code goes wrong, from boot

  /** A request for normal memory, present and writable; it fails where the model says nothing about the code. */
  function Request(m: Vm, c: nat, n: uint32, z: nat): Reply {
    if c < FRAMES && z < |m.last| && m.last[z] / PAGE + n <= USABLE
    then AllocateVirtualPhysical(m, c, PmmSpec.NORMAL, n, 3, z) else Stop(Faulted)
  }

  /** Behind Init the bump pointers stand at the first addresses, directory 0 has a table and directory 1 has none. */
  ghost predicate Fresh(m: Vm, c: nat) {
    && c < FRAMES && Inv(m, c, [])
    && m.last[USER] == 0x1000 && m.last[KERNEL] == 0xc040_0000 && m.last[APPLOADER] == 0x40_0000
    && Present(Entry(m.sys.mem, c, 0)) && !Present(Entry(m.sys.mem, c, 1))
  }

  lemma {:induction false} StartedIsFresh(
    ms: seq<PmmBoot.MemoryMap>, pool: Bitmap.Pool, kernelStart: uint32, pages: uint32, mem: Memory, c: nat, low: nat,
    high: nat, m: Vm)
    requires Boot.Started(ms, pool, kernelStart, pages, mem, c, low, high, m)
    ensures Fresh(m, c)
  {
    var lo := kernelStart / PAGE;
    hide *;
    Boot.StartedIsGood(ms, pool, kernelStart, pages, mem, c, low, high, m, lo, lo + pages);
    DirectoryAfterInit(mem, c, low, high, m.sys);
    StartedBumps(ms, pool, kernelStart, pages, mem, c, low, high, m);
    FreshIs(m, c);
  }

  lemma {:induction false} StartedBumps(
    ms: seq<PmmBoot.MemoryMap>, pool: Bitmap.Pool, kernelStart: uint32, pages: uint32, mem: Memory, c: nat, low: nat,
    high: nat, m: Vm)
    requires Boot.Started(ms, pool, kernelStart, pages, mem, c, low, high, m)
    ensures |m.last| == ZONES && m.last[USER] == 0x1000 && m.last[KERNEL] == 0xc040_0000 && m.last[APPLOADER] == 0x40_0000
  {
    hide PmmBoot.GoodMap, PmmBoot.BitmapsClear, PmmBoot.Reserves, VmmInit.BootTables, Unmap, PmmSpec.MapPages;
    assert forall z | 0 <= z < ZONES :: m.last[z] == ZoneFirst(z);
  }

  lemma {:induction false} FreshIs(m: Vm, c: nat)
    requires c < FRAMES && Inv(m, c, []) && |m.last| == ZONES
    requires m.last[USER] == 0x1000 && m.last[KERNEL] == 0xc040_0000 && m.last[APPLOADER] == 0x40_0000
    requires Present(Entry(m.sys.mem, c, 0)) && !Present(Entry(m.sys.mem, c, 1))
    ensures Fresh(m, c)
  {}

  lemma {:induction false} DirectoryAfterInit(mem: Memory, c: nat, low: nat, high: nat, t: Sys)
    requires Boot.BootedFrom(mem, c, low, high, t)
    ensures c < FRAMES && Present(Entry(t.mem, c, 0)) && !Present(Entry(t.mem, c, 1))
  {
    assert c < 1024 && low < 1024;
    var m := VmmInit.NullPageUnmapped(VmmInit.SelfMap(mem, c), low);
    VmmInit.BothEdits(mem, c, low, high);
    hide Wf, VmmInit.BootTables, UnmapLoop;
    VmmInit.UnmapLow(m, t.pmm, c, low, high);
    VmmInit.BootEntry(low);
    assert Entry(m, c, 0) == PAGE * low + 3 && Entry(m, c, 1) == 0;
  }

  /** Behind Init, one call gives the user zone its pages up to the program zone: 1023 of them from address 0x1000. */
  lemma {:induction false} FillUser(m: Vm, c: nat, i: nat, k: nat) returns (m1: Vm, p1: uint32, k1: nat)
    requires Fresh(m, c) && RoomBehindHint(m.sys.pmm, i, k) && k >= 0x401
    ensures c < FRAMES && Request(m, c, 0x3ff, USER) == Mapped(m1, 0x1000, p1)
    ensures Inv(m1, c, [Handle(1, p1 / PAGE, 0x3ff, 3, USER)]) && m1.last == m.last[USER := 0x40_0000]
    ensures RoomBehindHint(m1.sys.pmm, i, k1) && k1 + 0x401 >= k
  {
    hide Wf, Held, RoomBehindHint, AllocateVirtualPhysical, AllocGuard, CalmMap, StaysInside;
    AbsentBound(m.sys.mem, c, 0, 2);
    RoomMeetsGuard(m, c, [], 0x3ff, 3, USER, i, k);
    k1 := GrantedWithRoom(m, c, 0x3ff, 3, USER, i, k);
    AllocateVirtualSafe(m, c, [], PmmSpec.NORMAL, 0x3ff, 3, USER);
    var r := AllocateVirtualPhysical(m, c, PmmSpec.NORMAL, 0x3ff, 3, USER);
    m1, p1 := r.vm, r.phys;
    assert [] + [Handle(1, p1 / PAGE, 0x3ff, 3, USER)] == [Handle(1, p1 / PAGE, 0x3ff, 3, USER)];
  }

  /** The user zone grows into the program zone: after it has been filled, one page for a user and one for a program get
      the same address, and the user's page is gone. With room for 1029 pages all three calls succeed. */
  lemma {:induction false} OverlapFromInit(m: Vm, c: nat, i: nat, k: nat)
    returns (m1: Vm, m2: Vm, m3: Vm, p1: uint32, p2: uint32, p3: uint32)
    requires Fresh(m, c) && RoomBehindHint(m.sys.pmm, i, k) && k >= 0x405
    ensures c < FRAMES
    ensures Request(m, c, 0x3ff, USER) == Mapped(m1, 0x1000, p1)
    ensures Request(m1, c, 1, USER) == Mapped(m2, 0x40_0000, p2)
    ensures Request(m2, c, 1, APPLOADER) == Mapped(m3, 0x40_0000, p3)
    ensures p2 != p3
    ensures Translate(m2.sys.mem, c, 0x40_0000) == Phys(p2) && Translate(m3.sys.mem, c, 0x40_0000) == Phys(p3)
  {
    var k1;
    m1, p1, k1 := FillUser(m, c, i, k);
    FreshBumps(m, c);
    m2, m3, p2, p3 := SameAddressTwice(m1, c, Handle(1, p1 / PAGE, 0x3ff, 3, USER), i, k1);
    hide *;
  }

  lemma {:induction false} FreshBumps(m: Vm, c: nat)
    requires Fresh(m, c)
    ensures |m.last| == ZONES && m.last[APPLOADER] == 0x40_0000
  {}

  lemma {:induction false} SameAddressTwice(m1: Vm, c: nat, h: Handle, i: nat, k: nat)
    returns (m2: Vm, m3: Vm, p2: uint32, p3: uint32)
    requires c < FRAMES && Inv(m1, c, [h]) && h.zone == USER && |m1.last| == ZONES
    requires m1.last[USER] == 0x40_0000 && m1.last[APPLOADER] == 0x40_0000
    requires RoomBehindHint(m1.sys.pmm, i, k) && k >= 4
    ensures Request(m1, c, 1, USER) == Mapped(m2, 0x40_0000, p2)
    ensures Request(m2, c, 1, APPLOADER) == Mapped(m3, 0x40_0000, p3)
    ensures p2 != p3
    ensures Translate(m2.sys.mem, c, 0x40_0000) == Phys(p2) && Translate(m3.sys.mem, c, 0x40_0000) == Phys(p3)
  {
    hide Wf, Held, RoomBehindHint, AllocateVirtualPhysical, AllocGuard, CalmMap, StaysInside;
    AbsentBound(m1.sys.mem, c, 1, 1);
    RoomMeetsGuard(m1, c, [h], 1, 3, USER, i, k);
    var k2 := GrantedWithRoom(m1, c, 1, 3, USER, i, k);
    AllocateVirtualSafe(m1, c, [h], PmmSpec.NORMAL, 1, 3, USER);
    var r2 := AllocateVirtualPhysical(m1, c, PmmSpec.NORMAL, 1, 3, USER);
    m2, p2 := r2.vm, r2.phys;
    AbsentBound(m2.sys.mem, c, 1, 1);
    var k3 := GrantedWithRoom(m2, c, 1, 3, APPLOADER, i, k2);
    var r3 := AllocateVirtualPhysical(m2, c, PmmSpec.NORMAL, 1, 3, APPLOADER);
    m3, p3 := r3.vm, r3.phys;
    UserAndProgramShareAddress(m1, m2, m3, c, [h], PmmSpec.NORMAL, r2.virt, r3.virt, p2, p3);
  }

  /** Old words become page table entries: filling the user zone adds a second table, in the 1024th frame behind the hint,
      and does not clear it. If word x of that frame had the present bit, page x of the next four megabytes is mapped,
      though it was handed to no one. */
  lemma {:induction false} GarbageFromInit(m: Vm, c: nat, i: nat, k: nat, x: nat) returns (m1: Vm, p1: uint32, f: nat)
    requires Fresh(m, c) && RoomBehindHint(m.sys.pmm, i, k) && k >= 0x401 && x < 1024
    ensures c < FRAMES && i < |m.sys.pmm.zones| && f == NextFrame(m.sys.pmm, i) + 0x3ff < FRAMES
    ensures Request(m, c, 0x3ff, USER) == Mapped(m1, 0x1000, p1)
    ensures Translate(m.sys.mem, c, 0x40_0000 + PAGE * x) == Fault
    ensures Translate(m1.sys.mem, c, 0x40_0000 + PAGE * x) == WalkLeaf(Entry(m.sys.mem, f, x), 0)
  {
    hide Wf, Held, RoomBehindHint, AllocateVirtualPhysical, CalmMap, StaysInside, PmmSpec.Allocate, Translate;
    var k1;
    m1, p1, k1 := FillUser(m, c, i, k);
    AbsentBound(m.sys.mem, c, 0, 2);
    k1 := GrantedWithRoom(m, c, 0x3ff, 3, USER, i, k);
    var (p, a) := PmmSpec.Allocate(m.sys.pmm, 0x3ff, PmmSpec.NORMAL);
    RoomFacts(m.sys.pmm, i, k);
    NextRequest(m.sys.pmm, i, k, 0x3ff);
    RoomFacts(p, i, k - 0x3ff);
    RoomIsUsed(p, i, k - 0x3ff);
    FreshWf(m, c);
    AllocateClaimsFramesOf(m, c, PmmSpec.NORMAL, 0x3ff);
    ClaimKeepsWf(m.sys, p, c, a.value / PAGE, 0x3ff);
    MappedByRequest(m, m1, c, p1);
    SecondTable(Sys(m.sys.mem, p), m1.sys, c, p1, x);
    FirstFreshFrame(p);
    f := NextFrame(m.sys.pmm, i) + 0x3ff;
  }

  lemma {:induction false} FreshWf(m: Vm, c: nat)
    requires Fresh(m, c)
    ensures Wf(m.sys, c) && m.last[USER] == 0x1000
    ensures Present(Entry(m.sys.mem, c, 0)) && !Present(Entry(m.sys.mem, c, 1))
  {}

  /** What a granted request has mapped. */
  lemma {:induction false} MappedByRequest(m: Vm, m1: Vm, c: nat, p1: uint32)
    requires c < FRAMES && 0 < |m.last| && m.last[USER] == 0x1000
    requires Request(m, c, 0x3ff, USER) == Mapped(m1, 0x1000, p1)
    ensures var (p, a) := PmmSpec.Allocate(m.sys.pmm, 0x3ff, PmmSpec.NORMAL);
            a == PmmSpec.Returned(p1) && Map(Sys(m.sys.mem, p), c, p1, 0x3ff, 1, 3) == Done(m1.sys)
  {
    hide Map, PmmSpec.Allocate;
  }

  lemma {:induction false} FirstFreshFrame(p: PmmSpec.State)
    requires PmmSpec.Allocate(p, 1, PmmSpec.NORMAL).1.Returned?
    ensures FreshFrame(p, 0) == PmmSpec.Allocate(p, 1, PmmSpec.NORMAL).1.value / PAGE
  {}

  /** Mapping pages 1 to 1023 hangs the next free frame, as it is, under directory 1. */
  lemma {:induction false} SecondTable(s: Sys, t: Sys, c: nat, phys: uint32, x: nat)
    requires Wf(s, c) && c < FRAMES && CalmMap(s, c, 1, 0x3ff) && Map(s, c, phys, 0x3ff, 1, 3) == Done(t)
    requires Present(Entry(s.mem, c, 0)) && !Present(Entry(s.mem, c, 1)) && x < 1024
    ensures Translate(s.mem, c, 0x40_0000 + PAGE * x) == Fault
    ensures Translate(t.mem, c, 0x40_0000 + PAGE * x) == WalkLeaf(Entry(s.mem, FreshFrame(s.pmm, 0), x), 0)
  {
    hide Wf, CalmMap, Map, Grows, FramesInOrder, LeavesMapped, Translate, FreshFrame;
    var q := 0x400 + x;
    MapEffect(s, c, phys, 0x3ff, 1, 3);
    MapFrames(s, t, c, phys, 0x3ff, 1, 3);
    assert Absent(s.mem, c, 0, 1) == 0;
    assert q / 1024 == 1 && q % 1024 == x;
    LeafOfNewTable(s, t, c, phys, 0x3ff, 1, 3, q);
    WalkPage(s.mem, c, q, 0);
    WalkPage(t.mem, c, q, 0);
  }

  // ----- the same from the memory map

  /** A memory map with room behind the kernel leaves room behind Init. */
  lemma {:induction false} RoomFromBoot(
    ms: seq<PmmBoot.MemoryMap>, pool: Bitmap.Pool, kernelStart: uint32, pages: uint32, mem: Memory, c: nat, low: nat,
    high: nat, m: Vm, i: nat, k: nat)
    requires Boot.Started(ms, pool, kernelStart, pages, mem, c, low, high, m) && RoomyMap(ms, i, kernelStart, pages, k)
    ensures RoomBehindHint(m.sys.pmm, i, k) && NextFrame(m.sys.pmm, i) == kernelStart / PAGE + pages
  {
    hide RoomyMap, RoomBehindHint, NextFrame, PmmBoot.GoodMap, PmmBoot.BitmapsClear, PmmBoot.Reserves, PmmBoot.Carve,
      PmmBoot.CarveEnd, VmmInit.BootTables, Unmap, PmmSpec.MapPages, Boot.InKernel;
    RoomAfterReservation(ms, pool, i, kernelStart, pages, k);
  }

  lemma {:induction false} BootFramesBelow(mem: Memory, c: nat, low: nat, high: nat)
    requires VmmInit.BootTables(mem, c, low, high)
    ensures c < FRAMES && low < FRAMES && high < FRAMES
  {}

  /** From such a memory map and the boot tables the system does start. */
  lemma {:induction false} RoomyMapStarts(
    ms: seq<PmmBoot.MemoryMap>, pool: Bitmap.Pool, kernelStart: uint32, pages: uint32, mem: Memory, c: nat, low: nat,
    high: nat, i: nat) returns (m: Vm)
    requires PmmBoot.GoodMap(ms) && RoomyMap(ms, i, kernelStart, pages, 0)
    requires PmmBoot.CarveEnd(ms, PmmBoot.ZONE_BYTES * |ms|) <= |pool| && 8 * |pool| < TWO32
    requires PmmBoot.BitmapsClear(PmmBoot.Carve(ms, PmmBoot.ZONE_BYTES * |ms|), pool)
    requires Boot.InKernel(c, kernelStart, pages) && Boot.InKernel(low, kernelStart, pages)
    requires Boot.InKernel(high, kernelStart, pages) && VmmInit.BootTables(mem, c, low, high)
    ensures Boot.Started(ms, pool, kernelStart, pages, mem, c, low, high, m)
  {
    hide RoomBehindHint, NextFrame, PmmBoot.GoodMap, PmmBoot.BitmapsClear, PmmBoot.Reserves, PmmBoot.Carve,
      PmmBoot.CarveEnd, VmmInit.BootTables, VmmInit.BootFramesTaken, Unmap, PmmSpec.MapPages, Boot.InKernel, Wf,
      PmmFrames.Sound, Inv, ZoneFirst;
    var s := PmmSpec.State(PmmBoot.Carve(ms, PmmBoot.ZONE_BYTES * |ms|), pool);
    PmmBoot.FreshIsExact(ms, pool);
    RoomAfterReservation(ms, pool, i, kernelStart, pages, 0);
    Boot.BootTablesAreReserved(s, kernelStart, pages, c, low, high);
    var p := PmmSpec.MapPages(s, kernelStart, pages).0;
    var last: seq<uint32> := seq(ZONES, z requires 0 <= z < ZONES => ZoneFirst(z));
    BootFramesBelow(mem, c, low, high);
    VmmInit.InitEstablishes(mem, p, c, low, high, last);
    m := Vm(Unmap(Sys(VmmInit.NullPageUnmapped(VmmInit.SelfMap(mem, c), low), p), c, 0xf0, 0x300).sys, last);
  }

  /** From a memory map with room for 1029 pages behind the kernel: a user and a program get the same address, and the
      user's page is gone. */
  lemma {:induction false} OverlapFromBoot(
    ms: seq<PmmBoot.MemoryMap>, pool: Bitmap.Pool, kernelStart: uint32, pages: uint32, mem: Memory, c: nat, low: nat,
    high: nat, m: Vm, i: nat)
    returns (m1: Vm, m2: Vm, m3: Vm, p1: uint32, p2: uint32, p3: uint32)
    requires Boot.Started(ms, pool, kernelStart, pages, mem, c, low, high, m) && RoomyMap(ms, i, kernelStart, pages, 0x405)
    ensures c < FRAMES
    ensures Request(m, c, 0x3ff, USER) == Mapped(m1, 0x1000, p1)
    ensures Request(m1, c, 1, USER) == Mapped(m2, 0x40_0000, p2)
    ensures Request(m2, c, 1, APPLOADER) == Mapped(m3, 0x40_0000, p3)
    ensures p2 != p3
    ensures Translate(m2.sys.mem, c, 0x40_0000) == Phys(p2) && Translate(m3.sys.mem, c, 0x40_0000) == Phys(p3)
  {
    StartedIsFresh(ms, pool, kernelStart, pages, mem, c, low, high, m);
    RoomFromBoot(ms, pool, kernelStart, pages, mem, c, low, high, m, i, 0x405);
    m1, m2, m3, p1, p2, p3 := OverlapFromInit(m, c, i, 0x405);
    hide *;
  }

  /** From a memory map with room for 1025 pages behind the kernel: word x of the 1024th frame behind the reservation
      is the entry of page x of the four megabytes at 0x400000, after a request for other pages. */
  lemma {:induction false} GarbageFromBoot(
    ms: seq<PmmBoot.MemoryMap>, pool: Bitmap.Pool, kernelStart: uint32, pages: uint32, mem: Memory, c: nat, low: nat,
    high: nat, m: Vm, i: nat, x: nat) returns (m1: Vm, p1: uint32)
    requires Boot.Started(ms, pool, kernelStart, pages, mem, c, low, high, m) && RoomyMap(ms, i, kernelStart, pages, 0x401)
    requires x < 1024
    ensures var f := kernelStart / PAGE + pages + 0x3ff;
            && c < FRAMES && f < FRAMES && Request(m, c, 0x3ff, USER) == Mapped(m1, 0x1000, p1)
            && Translate(m.sys.mem, c, 0x40_0000 + PAGE * x) == Fault
            && Translate(m1.sys.mem, c, 0x40_0000 + PAGE * x) == WalkLeaf(Entry(m.sys.mem, f, x), 0)
  {
    StartedIsFresh(ms, pool, kernelStart, pages, mem, c, low, high, m);
    RoomFromBoot(ms, pool, kernelStart, pages, mem, c, low, high, m, i, 0x401);
    var f;
    m1, p1, f := GarbageFromInit(m, c, i, 0x401, x);
    hide *;
  }
}
