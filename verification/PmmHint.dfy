/** The first-free hint of a zone: when it only speeds the search up, and when it hides free pages. */
module PmmHint {
  import opened Words
  import opened Bitmap
  import opened PmmSpec
  import opened PmmRuns

  /** The hint is the start of a page of the zone, or its end. */
  predicate HintInside(z: Zone) {
    z.start <= z.firstFree <= z.start + PAGE * z.pagecount && (z.firstFree - z.start) % PAGE == 0
  }

  /** Every page of the zone below `limit` is mapped. */
  ghost predicate FullBelow(s: State, i: nat, limit: nat)
    requires Laid(s) && i < |s.zones|
  {
    forall p: nat | p < limit && p < s.zones[i].pagecount :: (assert ZoneFits(s.zones[i], s.mem); Mapped(s, i, p))
  }

  /** The hint of every zone stays inside the zone, and no free page lies below it. */
  ghost predicate HintTight(s: State)
    requires Laid(s)
  {
    forall i | 0 <= i < |s.zones| && BelowTop(s.zones[i]) ::
      HintInside(s.zones[i]) && FullBelow(s, i, HintPage(s.zones[i]))
  }

  /** With a tight hint, searching from the hint finds the same run as searching the zone from page 0. */
  lemma {:induction false} HintOnlySpeedsUp(s: State, i: nat, n: nat)
    requires Laid(s) && HintTight(s) && i < |s.zones| && BelowTop(s.zones[i]) && n >= 1
    ensures var base := 8 * s.zones[i].bitmap;
            var fromZero := FirstRun(s.mem, base, n);
            var fromHint := FirstRun(s.mem, base + HintPage(s.zones[i]), n);
            FreeRun(s.mem, fromZero, n) || FreeRun(s.mem, fromHint, n) ==> fromZero == fromHint
  {
    var z := s.zones[i];
    var base := 8 * z.bitmap;
    assert ZoneFits(z, s.mem) && HintInside(z);
    forall q | base <= q < base + HintPage(z) ensures !FreeRun(s.mem, q, n) {
      assert Mapped(s, i, q - base);
    }
  }

  /** The lowest free page at or above the hint of the first open zone is the start of n free pages. */
  predicate FirstFreePageFits(s: State, n: uint32, t: bv8) {
    var i := FirstOpen(s.zones, n, t, 0);
    t & MMIO != 0 || i == |s.zones| ||
    FreeRun(s.mem, FirstRun(s.mem, 8 * s.zones[i].bitmap + HintPage(s.zones[i]), 1), n)
  }

  /** Exactly then the search steps over no free page. */
  lemma {:induction false} StepsOverNothingIff(s: State, n: uint32, t: bv8)
    requires Laid(s) && Choose(s, n, t).Pages?
    ensures var c := Choose(s, n, t);
            FirstFreePageFits(s, n, t)
            <==> forall q | HintPage(s.zones[c.zone]) <= q < c.page :: !FreePages(s, c.zone, q, 1)
  {
    hide FreeRun, Open, HintPage;
    var c := Choose(s, n, t);
    var base := 8 * s.zones[c.zone].bitmap;
    var lo := base + HintPage(s.zones[c.zone]);
    LowestOfBoth(s.mem, lo, n, base + c.page);
    if forall q | HintPage(s.zones[c.zone]) <= q < c.page :: !FreePages(s, c.zone, q, 1) {
      forall q | lo <= q < base + c.page ensures !FreeRun(s.mem, q, 1) {
        assert !FreePages(s, c.zone, q - base, 1);
      }
    }
  }

  lemma {:induction false} LowestOfBoth(mem: Pool, lo: nat, n: nat, r: nat)
    requires r == FirstRun(mem, lo, n) && FreeRun(mem, r, n)
    ensures FreeRun(mem, FirstRun(mem, lo, 1), n) <==> forall q | lo <= q < r :: !FreeRun(mem, q, 1)
  {
    var r1 := FirstRun(mem, lo, 1);
    if n >= 1 {
      assert FreeRun(mem, r, 1);
      LowestRun(mem, lo, 1, r);
      if FreeRun(mem, r1, n) {
        LowestRun(mem, lo, n, r1);
      }
    } else {
      assert r == lo;
    }
  }

  /** Asking for one page never steps over a free page, as long as there is one. */
  lemma {:induction false} SinglePagesSkipNothing(s: State, t: bv8)
    requires Laid(s)
    ensures FirstFreePageFits(s, 1, t) <==> !Choose(s, 1, t).OffPool?
  {}

  /** A call that stays in the zone it starts in; a caller can see this in the zones before the call. */
  predicate KeepsToZone(s: State, op: Op)
    requires Laid(s)
  {
    match op
    case Allocate(n, t) => AllocateFits(s, n, t)
    case Map(addr, n) => PagesFit(s, addr, n)
    case Unmap(addr, n) =>
      var i := FindZone(s.zones, addr, 0);
      PagesFit(s, addr, n) && (i < |s.zones| ==> s.zones[i].start % PAGE == 0)
  }

  predicate HintGuard(s: State, op: Op)
    requires Laid(s)
  {
    KeepsToZone(s, op) && (op.Allocate? ==> FirstFreePageFits(s, op.n, op.t))
  }

  lemma {:induction false} OpenIsBelowTop(z: Zone, n: uint32, t: bv8)
    requires z.start + PAGE * z.pagecount <= TWO32 && Open(z, n, t)
    ensures BelowTop(z)
  {}

  /** A hint at page p of its zone. */
  lemma {:induction false} HintAt(z: Zone, p: nat)
    requires z.firstFree == z.start + p * PAGE
    ensures HintPage(z) == p && (p <= z.pagecount ==> HintInside(z))
  {}

  /** Setting a run keeps every zone full wherever it was. */
  lemma {:induction false} SetKeepsFull(s: State, s': State, i: nat, page: nat, n: nat, j: nat, limit: nat)
    requires Laid(s) && SameLayout(s, s') && i < |s.zones| && j < |s.zones|
    requires page + n <= s.zones[i].pagecount && FreePages(s, i, page, n)
    requires s'.mem == SetRun(s.mem, 8 * s.zones[i].bitmap + page, n)
    requires FullBelow(s, j, limit)
    ensures Laid(s') && FullBelow(s', j, limit)
    ensures j == i && page <= limit ==> FullBelow(s', j, if limit < page + n then page + n else limit)
  {
    SetInZone(s, s', i, page, n);
    assert ZoneFits(s.zones[j], s.mem);
  }

  /** The hint may move up to the end of the run just set if there was no free page below the run. */
  lemma {:induction false} TightAfterSet(s: State, s': State, i: nat, page: nat, n: nat)
    requires Laid(s) && HintTight(s) && SameLayout(s, s') && i < |s.zones|
    requires page + n <= s.zones[i].pagecount && FreePages(s, i, page, n)
    requires s'.mem == SetRun(s.mem, 8 * s.zones[i].bitmap + page, n)
    requires forall j | 0 <= j < |s.zones| && j != i :: s'.zones[j] == s.zones[j]
    requires BelowTop(s.zones[i]) ==>
               && HintInside(s'.zones[i])
               && (|| HintPage(s'.zones[i]) == HintPage(s.zones[i])
                   || (FullBelow(s, i, page) && HintPage(s'.zones[i]) == page + n))
    ensures Laid(s') && HintTight(s')
  {
    LaidKept(s, s');
    forall j | 0 <= j < |s.zones| && BelowTop(s'.zones[j])
      ensures HintInside(s'.zones[j]) && FullBelow(s', j, HintPage(s'.zones[j]))
    {
      assert HintInside(s.zones[j]) && FullBelow(s, j, HintPage(s.zones[j]));
      SetKeepsFull(s, s', i, page, n, j, HintPage(s.zones[j]));
      if j == i && FullBelow(s, i, page) {
        SetKeepsFull(s, s', i, page, n, i, page);
      }
    }
  }

  lemma {:induction false} NewHint(z: Zone, page: nat, n: nat)
    requires z.start + PAGE * z.pagecount < TWO32 && page + n <= z.pagecount
    ensures PageAddress(z, page) == z.start + page * PAGE
    ensures Wrap(PageAddress(z, page) + n * PAGE) == z.start + (page + n) * PAGE <= z.start + PAGE * z.pagecount
  {}

  lemma {:induction false} FullUpToRun(s: State, c: Choice)
    requires Laid(s) && c.Pages? && c.zone < |s.zones| && FullBelow(s, c.zone, HintPage(s.zones[c.zone]))
    requires forall q | HintPage(s.zones[c.zone]) <= q < c.page :: !FreePages(s, c.zone, q, 1)
    ensures FullBelow(s, c.zone, c.page)
  {
    assert ZoneFits(s.zones[c.zone], s.mem);
    forall p: nat | p < c.page && p < s.zones[c.zone].pagecount ensures Mapped(s, c.zone, p) {
      if HintPage(s.zones[c.zone]) <= p {
        assert !FreePages(s, c.zone, p, 1);
      }
    }
  }

  lemma {:induction false} HintAfterAllocate(s: State, n: uint32, t: bv8)
    requires Laid(s) && Choose(s, n, t).Pages? && RoomInZone(s, Choose(s, n, t).zone, n)
    ensures var c := Choose(s, n, t);
            && c.page + n <= s.zones[c.zone].pagecount
            && BelowTop(s.zones[c.zone]) && HintInside(PmmSpec.Allocate(s, n, t).0.zones[c.zone])
            && HintPage(PmmSpec.Allocate(s, n, t).0.zones[c.zone]) == c.page + n
  {
    hide FreeRun, HintPage, HintInside, Open;
    AllocateFirstFit(s, n, t);
    var c := Choose(s, n, t);
    var z := s.zones[c.zone];
    assert ZoneFits(z, s.mem);
    OpenIsBelowTop(z, n, t);
    NewHint(z, c.page, n);
    HintAt(PmmSpec.Allocate(s, n, t).0.zones[c.zone], c.page + n);
  }

  /** What a granted request changes. */
  lemma {:induction false} AllocatedAt(s: State, n: uint32, t: bv8)
    requires Choose(s, n, t).Pages?
    ensures var (s', c) := (PmmSpec.Allocate(s, n, t).0, Choose(s, n, t));
            && c.zone < |s.zones| && c.zone == FirstOpen(s.zones, n, t, 0) && t & MMIO == 0
            && FreePages(s, c.zone, c.page, n) && HintPage(s.zones[c.zone]) <= c.page
            && s'.mem == SetRun(s.mem, 8 * s.zones[c.zone].bitmap + c.page, n)
            && forall j | 0 <= j < |s.zones| && j != c.zone :: s'.zones[j] == s.zones[j]
  {
    hide Open, HintPage, FreeRun;
  }

  /** A request that is not granted changes nothing; inside its zone it does not leave the pool. */
  lemma {:induction false} NothingAllocated(s: State, n: uint32, t: bv8)
    requires Laid(s) && KeepsToZone(s, Allocate(n, t))
    ensures !Choose(s, n, t).OffPool?
    ensures !Choose(s, n, t).Pages? ==> PmmSpec.Allocate(s, n, t).0 == s
  {
    hide Open, HintPage, FreeRun, RoomInZone;
    AllocateFirstFit(s, n, t);
  }

  lemma {:induction false} AllocateKeepsTight(s: State, n: uint32, t: bv8)
    requires Laid(s) && HintTight(s) && HintGuard(s, Allocate(n, t))
    ensures var s' := PmmSpec.Allocate(s, n, t).0; Laid(s') && HintTight(s')
  {
    hide Choose, PmmSpec.Allocate, FreeRun, Open, RoomInZone, HintInside, FirstFreePageFits, HintPage;
    var s' := PmmSpec.Allocate(s, n, t).0;
    NothingAllocated(s, n, t);
    var c := Choose(s, n, t);
    if c.Pages? {
      AllocatedAt(s, n, t);
      HintAfterAllocate(s, n, t);
      StepsOverNothingIff(s, n, t);
      FullUpToRun(s, c);
      TightAfterSet(s, s', c.zone, c.page, n);
    }
  }

  lemma {:induction false} MapKeepsTight(s: State, addr: uint32, n: uint32)
    requires Laid(s) && HintTight(s) && HintGuard(s, Map(addr, n))
    ensures var s' := PmmSpec.MapPages(s, addr, n).0; Laid(s') && HintTight(s')
  {
    hide FreePages, Laid, SetRun, InZone, PmmSpec.MapPages, MapSucceeds, PageOf, HintPage, HintInside, FullBelow;
    var s' := PmmSpec.MapPages(s, addr, n).0;
    MapOutcome(s, addr, n);
    if MapSucceeds(s, addr, n) {
      var i := FindZone(s.zones, addr, 0);
      var z := s.zones[i];
      var page := PageOf(z, addr);
      if BelowTop(z) {
        assert HintInside(z);
      }
      if addr == z.firstFree && BelowTop(z) {
        BehindHint(z, addr);
        MovedHint(z, s'.zones[i], n);
      }
      TightAfterSet(s, s', i, page, n);
    }
  }

  lemma {:induction false} MovedHint(z: Zone, z': Zone, n: nat)
    requires BelowTop(z) && HintInside(z) && HintPage(z) + n <= z.pagecount
    requires z' == z.(firstFree := Wrap(z.firstFree + n * PAGE))
    ensures HintPage(z') == HintPage(z) + n && HintInside(z')
  {
    assert z.firstFree - z.start == PAGE * HintPage(z);
    assert z'.firstFree == z.start + PAGE * (HintPage(z) + n);
  }

  lemma {:induction false} LoweredHint(z: Zone, z': Zone, addr: uint32)
    requires BelowTop(z) && HintInside(z) && z.start <= addr && z.start % PAGE == 0
    requires z' == z.(firstFree := if addr < z.firstFree then addr - addr % PAGE else z.firstFree)
    ensures HintInside(z') && HintPage(z') <= HintPage(z) && HintPage(z') <= PageOf(z, addr)
  {
    if addr < z.firstFree {
      assert addr - addr % PAGE == z.start + PAGE * (addr / PAGE - z.start / PAGE);
    }
  }

  lemma {:induction false} UnmapKeepsTight(s: State, addr: uint32, n: uint32)
    requires Laid(s) && HintTight(s) && HintGuard(s, Unmap(addr, n))
    ensures var s' := PmmSpec.UnmapPages(s, addr, n).0; Laid(s') && HintTight(s')
  {
    var s' := PmmSpec.UnmapPages(s, addr, n).0;
    var i := FindZone(s.zones, addr, 0);
    if i < |s.zones| {
      var z := s.zones[i];
      var page := PageOf(z, addr);
      assert ZoneFits(z, s.mem);
      ToggleInZone(s, s', i, page, n);
      forall j | 0 <= j < |s.zones| && BelowTop(s'.zones[j])
        ensures HintInside(s'.zones[j]) && FullBelow(s', j, HintPage(s'.zones[j]))
      {
        assert HintInside(s.zones[j]) && FullBelow(s, j, HintPage(s.zones[j]));
        assert ZoneFits(s.zones[j], s.mem);
        if j == i {
          LoweredHint(z, s'.zones[i], addr);
        }
        forall p: nat | p < HintPage(s'.zones[j]) && p < s.zones[j].pagecount ensures Mapped(s', j, p) {
          assert Mapped(s, j, p);
        }
      }
    }
  }

  ghost predicate GuardedRun(s: State, ops: seq<Op>)
    requires Laid(s)
    decreases |ops|
  {
    ops == [] || (HintGuard(s, ops[0]) && (LaidKept(s, Step(s, ops[0]).0); GuardedRun(Step(s, ops[0]).0, ops[1..])))
  }

  /** Through any run of in-zone calls whose allocations skip no free page (one-page requests never do),
      no free page ever lies below a hint. */
  lemma {:induction false} HintStaysTight(s: State, ops: seq<Op>)
    requires Laid(s) && HintTight(s) && GuardedRun(s, ops)
    ensures Laid(Run(s, ops)) && HintTight(Run(s, ops))
    decreases |ops|
  {
    if ops != [] {
      match ops[0] {
        case Allocate(n, t) => AllocateKeepsTight(s, n, t);
        case Map(addr, n) => MapKeepsTight(s, addr, n);
        case Unmap(addr, n) => UnmapKeepsTight(s, addr, n);
      }
      HintStaysTight(Step(s, ops[0]).0, ops[1..]);
    }
  }

  /** For one allocation inside its zone the guard is exact: the hint stays tight if and only if the lowest free page
      at or above it starts n free pages. */
  lemma {:induction false} AllocateKeepsTightIff(s: State, n: uint32, t: bv8)
    requires Laid(s) && HintTight(s) && Choose(s, n, t).Pages? && RoomInZone(s, Choose(s, n, t).zone, n)
    ensures Laid(PmmSpec.Allocate(s, n, t).0)
    ensures HintTight(PmmSpec.Allocate(s, n, t).0) <==> FirstFreePageFits(s, n, t)
  {
    var s', c := PmmSpec.Allocate(s, n, t).0, Choose(s, n, t);
    LaidKept(s, s');
    if FirstFreePageFits(s, n, t) {
      AllocateKeepsTight(s, n, t);
    } else {
      StepsOverNothingIff(s, n, t);
      var q :| HintPage(s.zones[c.zone]) <= q < c.page && FreePages(s, c.zone, q, 1);
      SkippedPageIsHidden(s, n, t, q);
      HintAfterAllocate(s, n, t);
      assert !FullBelow(s', c.zone, HintPage(s'.zones[c.zone]));
    }
  }

  lemma {:induction false} StaysFree(s: State, s': State, c: Choice, n: nat, q: nat)
    requires Laid(s) && SameLayout(s, s') && c.Pages? && c.zone < |s.zones|
    requires c.page + n <= s.zones[c.zone].pagecount && FreePages(s, c.zone, c.page, n)
    requires s'.mem == SetRun(s.mem, 8 * s.zones[c.zone].bitmap + c.page, n)
    requires q < c.page && FreePages(s, c.zone, q, 1)
    ensures Laid(s') && (assert ZoneFits(s.zones[c.zone], s.mem); !Mapped(s', c.zone, q))
  {
    assert ZoneFits(s.zones[c.zone], s.mem);
    SetInZone(s, s', c.zone, c.page, n);
    assert !Mapped(s, c.zone, q);
  }

  /** A free page that the search stepped over stays free, below the new hint of its zone. */
  lemma {:induction false} SkippedPageIsHidden(s: State, n: uint32, t: bv8, q: nat)
    requires Laid(s) && Choose(s, n, t).Pages? && RoomInZone(s, Choose(s, n, t).zone, n)
    requires q < Choose(s, n, t).page && FreePages(s, Choose(s, n, t).zone, q, 1)
    ensures var (s', i) := (PmmSpec.Allocate(s, n, t).0, Choose(s, n, t).zone);
            Laid(s') && Hidden(s', i, q) && !PageTaken(s', i, q)
  {
    var s', c := PmmSpec.Allocate(s, n, t).0, Choose(s, n, t);
    LaidKept(s, s');
    HintAfterAllocate(s, n, t);
    StaysFree(s, s', c, n, q);
  }

  // ----- pages below a hint are lost

  /** Page q of zone i lies below the hint of the zone. */
  predicate Hidden(s: State, i: nat, q: nat) {
    && i < |s.zones| && BelowTop(s.zones[i]) && HintInside(s.zones[i])
    && q < HintPage(s.zones[i])
  }

  predicate PageTaken(s: State, i: nat, q: nat) {
    i < |s.zones| && 8 * s.zones[i].bitmap + q < 8 * |s.mem| && Mapped(s, i, q)
  }

  predicate UnmapsIn(s: State, op: Op, i: nat) {
    op.Unmap? && FindZone(s.zones, op.addr, 0) == i
  }

  /** No call but an UnmapPages in its zone brings a hidden page back, or touches it. */
  lemma {:induction false} StepKeepsHidden(s: State, op: Op, i: nat, q: nat)
    requires Laid(s) && KeepsToZone(s, op) && Hidden(s, i, q) && !UnmapsIn(s, op, i)
    ensures var s' := Step(s, op).0; Laid(s') && Hidden(s', i, q) && (PageTaken(s', i, q) <==> PageTaken(s, i, q))
  {
    var s' := Step(s, op).0;
    LaidKept(s, s');
    HintBound(s.zones[i]);
    match op
    case Allocate(n, t) => AllocateKeepsHidden(s, n, t, i, q);
    case Map(addr, n) => MapKeepsHidden(s, addr, n, i, q);
    case Unmap(addr, n) => UnmapKeepsHidden(s, addr, n, i, q);
  }

  lemma {:induction false} HintBound(z: Zone)
    requires HintInside(z) && BelowTop(z)
    ensures HintPage(z) <= z.pagecount && z.firstFree == z.start + PAGE * HintPage(z)
  {}

  /** Setting a run that does not hold page q of zone i leaves it alone. */
  lemma {:induction false} PageKeptBySet(s: State, s': State, j: nat, page: nat, n: nat, i: nat, q: nat)
    requires Laid(s) && SameLayout(s, s') && j < |s.zones| && i < |s.zones| && q < s.zones[i].pagecount
    requires page + n <= s.zones[j].pagecount && FreePages(s, j, page, n)
    requires s'.mem == SetRun(s.mem, 8 * s.zones[j].bitmap + page, n)
    requires j == i ==> q < page
    ensures PageTaken(s', i, q) <==> PageTaken(s, i, q)
  {
    assert ZoneFits(s.zones[i], s.mem);
    SetInZone(s, s', j, page, n);
    assert !Holds(Range(j, page, n), i, q);
  }

  lemma {:induction false} AllocateKeepsHidden(s: State, n: uint32, t: bv8, i: nat, q: nat)
    requires Laid(s) && KeepsToZone(s, Allocate(n, t)) && Hidden(s, i, q) && q < s.zones[i].pagecount
    ensures var s' := PmmSpec.Allocate(s, n, t).0; Hidden(s', i, q) && (PageTaken(s', i, q) <==> PageTaken(s, i, q))
  {
    hide Choose, PmmSpec.Allocate, FreeRun, RoomInZone, HintInside, HintPage, PageTaken, SetRun, FirstOpen;
    var s', c := PmmSpec.Allocate(s, n, t).0, Choose(s, n, t);
    NothingAllocated(s, n, t);
    if c.Pages? {
      AllocatedAt(s, n, t);
      HintAfterAllocate(s, n, t);
      PageKeptBySet(s, s', c.zone, c.page, n, i, q);
    }
  }

  lemma {:induction false} MapKeepsHidden(s: State, addr: uint32, n: uint32, i: nat, q: nat)
    requires Laid(s) && KeepsToZone(s, Map(addr, n)) && Hidden(s, i, q) && q < s.zones[i].pagecount
    ensures var s' := PmmSpec.MapPages(s, addr, n).0; Hidden(s', i, q) && (PageTaken(s', i, q) <==> PageTaken(s, i, q))
  {
    hide FreeRun, InZone, PmmSpec.MapPages, MapSucceeds, PageOf, HintPage, HintInside, PageTaken;
    MapOutcome(s, addr, n);
    if MapSucceeds(s, addr, n) {
      var s', j := PmmSpec.MapPages(s, addr, n).0, FindZone(s.zones, addr, 0);
      var z := s.zones[j];
      if j == i {
        BehindHint(z, addr);
        if addr == z.firstFree {
          MovedHint(z, s'.zones[j], n);
        }
      }
      PageKeptBySet(s, s', j, PageOf(z, addr), n, i, q);
    }
  }

  lemma {:induction false} UnmapKeepsHidden(s: State, addr: uint32, n: uint32, i: nat, q: nat)
    requires Laid(s) && KeepsToZone(s, Unmap(addr, n)) && Hidden(s, i, q) && q < s.zones[i].pagecount
    requires FindZone(s.zones, addr, 0) != i
    ensures var s' := PmmSpec.UnmapPages(s, addr, n).0; Hidden(s', i, q) && (PageTaken(s', i, q) <==> PageTaken(s, i, q))
  {
    var s', j := PmmSpec.UnmapPages(s, addr, n).0, FindZone(s.zones, addr, 0);
    if j < |s.zones| {
      assert ZoneFits(s.zones[j], s.mem) && ZoneFits(s.zones[i], s.mem);
      ToggleInZone(s, s', j, PageOf(s.zones[j], addr), n);
      assert !Holds(Range(j, PageOf(s.zones[j], addr), n), i, q);
    }
  }

  /** Giving pages back: UnmapPages returns their number, they are free again, and the hint is moved down to them if it
      was above, and not otherwise; so the next search of the zone comes past them. */
  lemma {:induction false} UnmapGivesBack(s: State, live: seq<Range>, addr: uint32, n: uint32)
    requires Laid(s) && Exact(s, live) && Proper(s, live, Unmap(addr, n))
    ensures var (i, (s', a)) := (FindZone(s.zones, addr, 0), PmmSpec.UnmapPages(s, addr, n));
            if i == |s.zones| then s' == s && a == Returned(0xffff_ffff)
            else
              && a == Returned(n) && Laid(s') && FreePages(s', i, PageOf(s.zones[i], addr), n)
              && (BelowTop(s.zones[i]) && HintInside(s.zones[i]) && s.zones[i].start % PAGE == 0 ==>
                    var (hint, page) := (HintPage(s.zones[i]), PageOf(s.zones[i], addr));
                    && HintInside(s'.zones[i]) && HintPage(s'.zones[i]) == (if page < hint then page else hint)
                    && RoomInZone(s', i, n))
  {
    hide FreeRun, ToggleRun, InZone, Exact, HintInside, HintPage, Covered;
    var i := FindZone(s.zones, addr, 0);
    if i < |s.zones| {
      var (z, page) := (s.zones[i], PageOf(s.zones[i], addr));
      var s' := PmmSpec.UnmapPages(s, addr, n).0;
      UnmapFits(s, live, i, page, n);
      StepKeepsExact(s, live, Unmap(addr, n));
      UnmappedAreFree(s, s', live, i, page, n);
      if BelowTop(z) && HintInside(z) && z.start % PAGE == 0 {
        StartsInZone(z, addr);
        HintAfterUnmap(z, s'.zones[i], addr);
        assert FreePages(s', i, page, n);
      }
    }
  }

  lemma {:induction false} StartsInZone(z: Zone, addr: uint32)
    requires InZone(z, addr)
    ensures z.start <= addr
  {}

  lemma {:induction false} UnmappedAreFree(s: State, s': State, live: seq<Range>, i: nat, page: nat, n: nat)
    requires Laid(s) && Exact(s, live) && SameLayout(s, s') && i < |s.zones| && Range(i, page, n) in live
    requires page + n <= s.zones[i].pagecount
    requires s'.mem == ToggleRun(s.mem, 8 * s.zones[i].bitmap + page, n)
    ensures FreePages(s', i, page, n)
  {
    hide ToggleRun;
    var lo := 8 * s.zones[i].bitmap + page;
    assert ZoneFits(s.zones[i], s.mem);
    var a :| 0 <= a < |live| && live[a] == Range(i, page, n);
    ToggleRunBits(s.mem, lo, n);
    forall q | lo <= q < lo + n ensures !Bit(s'.mem, q) {
      var p: nat := q - 8 * s.zones[i].bitmap;
      assert Holds(live[a], i, p) && Covered(live, i, p);
      assert Mapped(s, i, p);
    }
  }

  lemma {:induction false} HintAfterUnmap(z: Zone, z': Zone, addr: uint32)
    requires BelowTop(z) && HintInside(z) && z.start <= addr && z.start % PAGE == 0
    requires z' == z.(firstFree := if addr < z.firstFree then addr - addr % PAGE else z.firstFree)
    ensures HintInside(z')
    ensures HintPage(z') == (if PageOf(z, addr) < HintPage(z) then PageOf(z, addr) else HintPage(z))
    ensures HintPage(z') <= z.pagecount
  {
    LoweredHint(z, z', addr);
    HintBound(z);
    assert addr < z.firstFree ==> addr - addr % PAGE == z.start + PAGE * PageOf(z, addr);
  }

  lemma {:induction false} BehindHint(z: Zone, addr: uint32)
    requires HintInside(z) && BelowTop(z) && z.firstFree <= addr
    ensures HintPage(z) <= PageOf(z, addr) && (addr == z.firstFree ==> HintPage(z) == PageOf(z, addr))
  {}

  /** Every call of the run keeps to its zone, and none unmaps in zone i. */
  ghost predicate RunWithoutUnmap(s: State, ops: seq<Op>, i: nat)
    requires Laid(s)
    decreases |ops|
  {
    ops == [] ||
    (KeepsToZone(s, ops[0]) && !UnmapsIn(s, ops[0], i) &&
     (LaidKept(s, Step(s, ops[0]).0); RunWithoutUnmap(Step(s, ops[0]).0, ops[1..], i)))
  }

  /** A hidden page is handed out by no AllocatePhysical and by no MapPages. */
  ghost predicate Lost(s: State, i: nat, q: nat) {
    && (forall n: uint32, t: bv8 :: Choose(s, n, t).Pages? && Choose(s, n, t).zone == i ==> q < Choose(s, n, t).page)
    && (forall addr: uint32, n: uint32 ::
          FindZone(s.zones, addr, 0) == i < |s.zones| && PageOf(s.zones[i], addr) <= q ==>
            PmmSpec.MapPages(s, addr, n) == (s, Returned(FAILED)))
  }

  lemma {:induction false} HiddenIsLost(s: State, i: nat, q: nat)
    requires Hidden(s, i, q)
    ensures Lost(s, i, q)
  {
    forall addr: uint32, n: uint32 | FindZone(s.zones, addr, 0) == i && PageOf(s.zones[i], addr) <= q
      ensures PmmSpec.MapPages(s, addr, n) == (s, Returned(FAILED))
    {
      NotBehindHint(s.zones[i], addr);
    }
  }

  lemma {:induction false} NotBehindHint(z: Zone, addr: uint32)
    requires HintInside(z) && BelowTop(z) && InZone(z, addr) && PageOf(z, addr) < HintPage(z)
    ensures addr < z.firstFree
  {}

  /** A page below the hint is lost until there is an UnmapPages in its zone: through any other run it keeps its bit
      and is not handed out. */
  lemma {:induction false} HiddenPageIsLost(s: State, ops: seq<Op>, i: nat, q: nat)
    requires Laid(s) && Hidden(s, i, q) && RunWithoutUnmap(s, ops, i)
    ensures Lost(Run(s, ops), i, q) && (PageTaken(Run(s, ops), i, q) <==> PageTaken(s, i, q))
    decreases |ops|
  {
    hide Hidden, Lost, PageTaken, KeepsToZone, UnmapsIn, Step, Laid;
    if ops == [] {
      HiddenIsLost(s, i, q);
    } else {
      StepKeepsHidden(s, ops[0], i, q);
      HiddenPageIsLost(Step(s, ops[0]).0, ops[1..], i, q);
    }
  }

  /** It happens: in a fresh zone of six pages map the second page and ask for two. The request gets the third and the
      fourth page, and the first, which is free, is lost. */
  lemma {:induction false} TwoPagesLoseOne()
    ensures var z := Zone(0x10_0000, 0x10_0000, 6, NORMAL, 0);
            var s := State([z], [0x02]);
            && PmmSpec.MapPages(State([z], [0]), 0x10_1000, 1) == (s, Returned(0x10_1000))
            && Laid(s) && HintTight(s) && !FirstFreePageFits(s, 2, NORMAL)
            && var (s', a) := PmmSpec.Allocate(s, 2, NORMAL);
               && a == Returned(0x10_2000)
               && Laid(s') && !HintTight(s') && Hidden(s', 0, 0) && !PageTaken(s', 0, 0) && Lost(s', 0, 0)
  {
    hide PmmSpec.MapPages, PmmSpec.Allocate, HintTight, FirstFreePageFits, Hidden, PageTaken, Lost, Choose, FreeRun, Laid,
      RoomInZone, FirstRun;
    var z := Zone(0x10_0000, 0x10_0000, 6, NORMAL, 0);
    var s := State([z], [0x02]);
    SecondMapped(z);
    TwoChosen(s);
    AllocateFirstFit(s, 2, NORMAL);
    AllocateKeepsTightIff(s, 2, NORMAL);
    SkippedPageIsHidden(s, 2, NORMAL, 0);
    HiddenIsLost(PmmSpec.Allocate(s, 2, NORMAL).0, 0, 0);
  }

  lemma {:induction false} SecondMapped(z: Zone)
    requires z == Zone(0x10_0000, 0x10_0000, 6, NORMAL, 0)
    ensures PmmSpec.MapPages(State([z], [0]), 0x10_1000, 1) == (State([z], [0x02]), Returned(0x10_1000))
  {
    var mem: Pool := [0];
    assert SetRun(mem, 1, 0) == [0] && SetRun(mem, 1, 1) == [0x02];
    assert FreeRun(mem, 1, 1) by {
      assert !Bit(mem, 1);
    }
    assert FindZone([z], 0x10_1000, 0) == 0 && [z][0 := z] == [z];
  }

  lemma {:induction false} TwoChosen(s: State)
    requires s == State([Zone(0x10_0000, 0x10_0000, 6, NORMAL, 0)], [0x02])
    ensures Laid(s) && HintTight(s) && !FirstFreePageFits(s, 2, NORMAL)
    ensures Choose(s, 2, NORMAL) == Pages(0, 2) && RoomInZone(s, 0, 2) && FreePages(s, 0, 0, 1)
    ensures PmmSpec.Allocate(s, 2, NORMAL).1 == Returned(0x10_2000)
  {
    assert Open(s.zones[0], 2, NORMAL) && ZoneFits(s.zones[0], s.mem);
    FreeAroundSecond(s.mem);
    assert FreePages(s, 0, 2, 2);
    hide Bit, SetRun;
  }

  lemma {:induction false} FreeAroundSecond(mem: Pool)
    requires mem == [0x02]
    ensures FreeRun(mem, 0, 1) && !FreeRun(mem, 0, 2) && !FreeRun(mem, 1, 2) && FreeRun(mem, 2, 2)
  {
    assert !Bit(mem, 0) && Bit(mem, 1) && !Bit(mem, 2) && !Bit(mem, 3);
  }
}
