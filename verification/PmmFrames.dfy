/** The allocator seen from outside: which physical page frames are taken. */
module PmmFrames {
  import opened Words
  import opened Bitmap
  import opened PmmSpec
  import opened PmmRuns

  predicate ZonesApart(a: Zone, b: Zone) {
    a.start + PAGE * a.pagecount <= b.start || b.start + PAGE * b.pagecount <= a.start
  }

  /** A memory map of zones that do not overlap. They need not start at a page: the map of a PC has zones that do not. */
  predicate Sound(s: State) {
    && Laid(s)
    && (forall i, j | 0 <= i < j < |s.zones| :: ZonesApart(s.zones[i], s.zones[j]))
  }

  /** A page of the zone is the frame; the pages of a zone that does not start at a page are no frames. */
  predicate HasFrame(z: Zone, f: nat) {
    z.start % PAGE == 0 && z.start / PAGE <= f < z.start / PAGE + z.pagecount
  }

  function FrameBit(z: Zone, f: nat): nat
    requires HasFrame(z, f)
  {
    8 * z.bitmap + (f - z.start / PAGE)
  }

  predicate TakenIn(s: State, i: nat, f: nat) {
    && i < |s.zones| && HasFrame(s.zones[i], f)
    && FrameBit(s.zones[i], f) < 8 * |s.mem| && Bit(s.mem, FrameBit(s.zones[i], f))
  }

  /** The frame lies in some zone and its bit is set. */
  predicate FrameTaken(s: State, f: nat) {
    exists i | 0 <= i < |s.zones| :: TakenIn(s, i, f)
  }

  lemma {:induction false} SoundKept(s: State, s': State)
    requires Sound(s) && SameLayout(s, s')
    ensures Sound(s')
  {
    LaidKept(s, s');
    forall i, j | 0 <= i < j < |s'.zones| ensures ZonesApart(s'.zones[i], s'.zones[j]) {
      assert ZonesApart(s.zones[i], s.zones[j]);
    }
  }

  lemma {:induction false} OneZonePerFrame(s: State, i: nat, j: nat, f: nat)
    requires Sound(s) && i < |s.zones| && j < |s.zones| && HasFrame(s.zones[i], f) && HasFrame(s.zones[j], f)
    ensures i == j
  {
    assert i < j ==> ZonesApart(s.zones[i], s.zones[j]);
    assert j < i ==> ZonesApart(s.zones[j], s.zones[i]);
  }

  /** The frames of a run of pages inside a zone: free before, taken after, all others as they were. */
  ghost predicate FramesClaimed(s: State, s': State, first: nat, n: nat) {
    && (forall f | first <= f < first + n :: !FrameTaken(s, f))
    && (forall f: nat :: FrameTaken(s', f) <==> FrameTaken(s, f) || first <= f < first + n)
  }

  lemma {:induction false} TakenIsMapped(s: State, i: nat, f: nat)
    requires Sound(s) && i < |s.zones| && HasFrame(s.zones[i], f)
    ensures ZoneFits(s.zones[i], s.mem)
    ensures FrameTaken(s, f) <==> Mapped(s, i, f - s.zones[i].start / PAGE)
  {
    assert ZoneFits(s.zones[i], s.mem);
    if FrameTaken(s, f) {
      var j :| 0 <= j < |s.zones| && TakenIn(s, j, f);
      OneZonePerFrame(s, i, j, f);
    }
    if Mapped(s, i, f - s.zones[i].start / PAGE) {
      assert TakenIn(s, i, f);
    }
  }

  lemma {:induction false} RunClaimsFrames(s: State, s': State, i: nat, page: nat, n: nat)
    requires Sound(s) && SameLayout(s, s') && i < |s.zones| && s.zones[i].start % PAGE == 0
    requires page + n <= s.zones[i].pagecount && FreePages(s, i, page, n)
    requires s'.mem == SetRun(s.mem, 8 * s.zones[i].bitmap + page, n)
    ensures Sound(s')
    ensures FramesClaimed(s, s', s.zones[i].start / PAGE + page, n)
  {
    SoundKept(s, s');
    SetInZone(s, s', i, page, n);
    var first := s.zones[i].start / PAGE + page;
    forall f | first <= f < first + n ensures !FrameTaken(s, f) {
      TakenIsMapped(s, i, f);
    }
    forall f: nat ensures FrameTaken(s', f) <==> FrameTaken(s, f) || first <= f < first + n {
      FrameAfterSet(s, s', i, page, n, f);
    }
  }

  lemma {:induction false} FrameAfterSet(s: State, s': State, i: nat, page: nat, n: nat, f: nat)
    requires Sound(s) && Sound(s') && SameLayout(s, s') && i < |s.zones| && s.zones[i].start % PAGE == 0
    requires page + n <= s.zones[i].pagecount
    requires forall j: nat, p: nat | j < |s.zones| && p < s.zones[j].pagecount ::
               Mapped(s', j, p) <==> Mapped(s, j, p) || Holds(Range(i, page, n), j, p)
    ensures var first := s.zones[i].start / PAGE + page;
            FrameTaken(s', f) <==> FrameTaken(s, f) || first <= f < first + n
  {
    var first := s.zones[i].start / PAGE + page;
    if first <= f < first + n {
      TakenIsMapped(s', i, f);
    } else if j :| 0 <= j < |s.zones| && HasFrame(s.zones[j], f) {
      TakenIsMapped(s, j, f);
      TakenIsMapped(s', j, f);
      if i == j {
        assert !Holds(Range(i, page, n), j, f - s.zones[j].start / PAGE);
      }
    }
  }

  /** AllocatePhysical stayed inside a page-aligned zone (or panicked): by `AllocateFirstFit`, when the zone had room. */
  predicate StaysInside(s: State, n: uint32, t: bv8)
  {
    var c := Choose(s, n, t);
    c.NoZone? || (c.Pages? && c.page + n <= s.zones[c.zone].pagecount && s.zones[c.zone].start % PAGE == 0)
  }

  /** An allocation that stays inside hands out whole frames that were free. */
  lemma {:induction false} AllocateClaimsFrames(s: State, n: uint32, t: bv8)
    requires Sound(s) && StaysInside(s, n, t)
    ensures var (s', a) := PmmSpec.Allocate(s, n, t);
            && Sound(s')
            && (a.Returned? || (a.Panic? && s' == s))
            && (a.Returned? ==> a.value % PAGE == 0 && a.value + PAGE * n <= TWO32 && FramesClaimed(s, s', a.value / PAGE, n))
  {
    var c := Choose(s, n, t);
    if c.Pages? {
      var z := s.zones[c.zone];
      assert ZoneFits(z, s.mem);
      FirstFrame(z, c.page, n);
      RunClaimsFrames(s, PmmSpec.Allocate(s, n, t).0, c.zone, c.page, n);
    }
  }

  lemma {:induction false} FirstFrame(z: Zone, page: nat, n: nat)
    requires z.start % PAGE == 0 && z.start + PAGE * z.pagecount <= TWO32 && page + n <= z.pagecount
    requires page < z.pagecount
    ensures var a := PageAddress(z, page);
            a % PAGE == 0 && a / PAGE == z.start / PAGE + page && a + PAGE * n <= TWO32
  {}

  /** MapPages did not pass the end of the zone, and the zone is page-aligned. */
  predicate MapStaysInside(s: State, addr: uint32, n: uint32) {
    AtOrAboveHint(s, addr) ==> PagesFit(s, addr, n) && s.zones[FindZone(s.zones, addr, 0)].start % PAGE == 0
  }

  lemma {:induction false} MapClaimsFrames(s: State, addr: uint32, n: uint32)
    requires Sound(s) && MapStaysInside(s, addr, n) && addr % PAGE == 0
    ensures var (s', a) := PmmSpec.MapPages(s, addr, n);
            && Sound(s')
            && a.Returned?
            && (a.value == FAILED ==> s' == s)
            && (a.value != FAILED ==> a.value == addr && addr + PAGE * n <= TWO32 && FramesClaimed(s, s', addr / PAGE, n))
  {
    hide FreeRun, PageOf, InZone, FramesClaimed, PmmSpec.MapPages, MapSucceeds, SetRun, ZonesApart, BitmapsApart;
    var i := FindZone(s.zones, addr, 0);
    MapOutcome(s, addr, n);
    if MapSucceeds(s, addr, n) {
      assert ZoneFits(s.zones[i], s.mem) && InZone(s.zones[i], addr);
      StartsBelow(s.zones[i], addr);
      var z := s.zones[i];
      FrameOfPage(z, addr, n);
      RunClaimsFrames(s, PmmSpec.MapPages(s, addr, n).0, i, PageOf(z, addr), n);
    }
  }

  lemma {:induction false} StartsBelow(z: Zone, addr: uint32)
    requires InZone(z, addr)
    ensures z.start <= addr
  {}

  lemma {:induction false} FrameOfPage(z: Zone, addr: uint32, n: nat)
    requires z.start % PAGE == 0 && addr % PAGE == 0 && z.start + PAGE * z.pagecount <= TWO32
    requires z.start <= addr && PageOf(z, addr) + n <= z.pagecount
    ensures addr / PAGE == z.start / PAGE + PageOf(z, addr) && addr + PAGE * n <= TWO32
  {}

  /** The zone of an address is the one whose pages hold it; but an empty zone at address 0 takes every address. */
  lemma {:induction false} InZoneIff(z: Zone, addr: uint32)
    requires z.start + PAGE * z.pagecount <= TWO32
    ensures InZone(z, addr)
            <==> z.start <= addr < z.start + 4096 * z.pagecount || (z.pagecount == 0 && z.start == 0)
  {}

  /** Without such a zone, an address belongs to zone i exactly when a page of zone i holds it. */
  lemma {:induction false} FindZoneIff(s: State, addr: uint32, i: nat)
    requires Sound(s) && i < |s.zones| && forall j | 0 <= j < |s.zones| :: s.zones[j].pagecount > 0 || s.zones[j].start > 0
    ensures FindZone(s.zones, addr, 0) == i
            <==> s.zones[i].start <= addr < s.zones[i].start + 4096 * s.zones[i].pagecount
  {
    var k := FindZone(s.zones, addr, 0);
    assert ZoneFits(s.zones[i], s.mem);
    InZoneIff(s.zones[i], addr);
    if k < |s.zones| {
      assert ZoneFits(s.zones[k], s.mem);
      InZoneIff(s.zones[k], addr);
      assert k < i ==> ZonesApart(s.zones[k], s.zones[i]);
      assert i < k ==> ZonesApart(s.zones[i], s.zones[k]);
    }
  }

  /** The byte at address x lies in a page of the range. */
  predicate HoldsByte(s: State, r: Range, x: int) {
    r.zone < |s.zones| && s.zones[r.zone].start + PAGE * r.page <= x < s.zones[r.zone].start + PAGE * (r.page + r.count)
  }

  /** Two live ranges never share a byte of physical memory, wherever the zones start. */
  lemma {:induction false} LiveRangesShareNoByte(s: State, live: seq<Range>, a: nat, b: nat, x: int)
    requires Sound(s) && Exact(s, live) && a < |live| && b < |live| && a != b
    ensures !(HoldsByte(s, live[a], x) && HoldsByte(s, live[b], x))
  {
    var (q, r) := (live[a], live[b]);
    assert a < b ==> Apart(q, r);
    assert b < a ==> Apart(r, q);
    if q.zone < r.zone {
      assert ZonesApart(s.zones[q.zone], s.zones[r.zone]);
    } else if r.zone < q.zone {
      assert ZonesApart(s.zones[r.zone], s.zones[q.zone]);
    } else if HoldsByte(s, q, x) {
      var p: nat := (x - s.zones[q.zone].start) / PAGE;
      assert !(Holds(q, q.zone, p) && Holds(r, q.zone, p));
    }
  }

  /** Free pages hold no byte of a live range. */
  lemma {:induction false} FreePagesHoldNoLiveByte(
    s: State, live: seq<Range>, r: Range, x: int, i: nat, page: nat, n: nat)
    requires Sound(s) && Exact(s, live) && r in live && HoldsByte(s, r, x)
    requires i < |s.zones| && page + n <= s.zones[i].pagecount && FreePages(s, i, page, n)
    ensures !HoldsByte(s, Range(i, page, n), x)
  {
    var a :| 0 <= a < |live| && live[a] == r;
    if i < r.zone {
      assert ZonesApart(s.zones[i], s.zones[r.zone]);
    } else if r.zone < i {
      assert ZonesApart(s.zones[r.zone], s.zones[i]);
    } else {
      var p: nat := (x - s.zones[i].start) / PAGE;
      assert Holds(live[a], i, p) && ZoneFits(s.zones[i], s.mem);
      assert Covered(live, i, p) && Mapped(s, i, p);
    }
  }

  /** A byte of a live range is handed out by no call that stays in its zone: neither by AllocatePhysical nor by MapPages,
      whose pages start below its address if that is not a whole number of pages into the zone. */
  lemma {:induction false} LiveByteIsNotHandedOut(
    s: State, live: seq<Range>, r: Range, x: int, n: uint32, t: bv8, addr: uint32)
    requires Sound(s) && Exact(s, live) && r in live && HoldsByte(s, r, x)
    ensures AllocateFits(s, n, t) ==>
              var a := PmmSpec.Allocate(s, n, t).1; a.Returned? ==> !(a.value <= x < a.value + PAGE * n)
    ensures PagesFit(s, addr, n) && MapSucceeds(s, addr, n) ==>
              var off := (addr - s.zones[FindZone(s.zones, addr, 0)].start) % PAGE;
              !(addr - off <= x < addr - off + PAGE * n)
  {
    hide AllocateFits, PagesFit, MapSucceeds, Choose, PageOf, PmmSpec.Allocate, HoldsByte, Exact, Laid, ZonesApart;
    if AllocateFits(s, n, t) && Choose(s, n, t).Pages? {
      AllocatedBytes(s, n, t, x);
      FreePagesHoldNoLiveByte(s, live, r, x, Choose(s, n, t).zone, Choose(s, n, t).page, n);
    } else if AllocateFits(s, n, t) {
      NothingReturned(s, n, t);
    }
    if PagesFit(s, addr, n) && MapSucceeds(s, addr, n) {
      MappedBytes(s, addr, n, x);
      var i := FindZone(s.zones, addr, 0);
      FreePagesHoldNoLiveByte(s, live, r, x, i, PageOf(s.zones[i], addr), n);
    }
  }

  lemma {:induction false} NothingReturned(s: State, n: uint32, t: bv8)
    requires !Choose(s, n, t).Pages?
    ensures !PmmSpec.Allocate(s, n, t).1.Returned?
  {}

  lemma {:induction false} AllocatedBytes(s: State, n: uint32, t: bv8, x: int)
    requires Laid(s) && AllocateFits(s, n, t) && Choose(s, n, t).Pages?
    ensures var (c, a) := (Choose(s, n, t), PmmSpec.Allocate(s, n, t).1);
            && c.zone < |s.zones| && c.page + n <= s.zones[c.zone].pagecount && FreePages(s, c.zone, c.page, n)
            && a.Returned? && (HoldsByte(s, Range(c.zone, c.page, n), x) <==> a.value <= x < a.value + PAGE * n)
  {
    hide Open, FreeRun, HintPage, RoomInZone;
    AllocateFirstFit(s, n, t);
    assert ZoneFits(s.zones[Choose(s, n, t).zone], s.mem);
  }

  lemma {:induction false} MappedBytes(s: State, addr: uint32, n: uint32, x: int)
    requires Laid(s) && PagesFit(s, addr, n) && MapSucceeds(s, addr, n)
    ensures var i := FindZone(s.zones, addr, 0);
            && i < |s.zones| && PageOf(s.zones[i], addr) + n <= s.zones[i].pagecount
            && FreePages(s, i, PageOf(s.zones[i], addr), n)
            && var first := addr - (addr - s.zones[i].start) % PAGE;
               HoldsByte(s, Range(i, PageOf(s.zones[i], addr), n), x) <==> first <= x < first + PAGE * n
  {
    hide FreeRun;
    assert InZone(s.zones[FindZone(s.zones, addr, 0)], addr);
  }

  // ----- the last page

  /** A fresh zone of four pages: map the two in the middle and ask for a page twice. The second request gets the last
      page of the zone. */
  lemma {:induction false} LastPageIsHandedOut()
    ensures var z := Zone(0x10_0000, 0x10_0000, 4, NORMAL, 0);
            var (s1, s2) := (State([z], [0x06]), State([z.(firstFree := 0x10_1000)], [0x07]));
            && PmmSpec.MapPages(State([z], [0]), 0x10_1000, 2) == (s1, Returned(0x10_1000))
            && PmmSpec.Allocate(s1, 1, NORMAL) == (s2, Returned(0x10_0000))
            && PmmSpec.Allocate(s2, 1, NORMAL).1 == Returned(0x10_3000)
  {
    hide *;
    var z := Zone(0x10_0000, 0x10_0000, 4, NORMAL, 0);
    MiddleMapped(z);
    HeadAllocated(z);
    TailChosen(State([z.(firstFree := 0x10_1000)], [0x07]));
  }

  lemma {:induction false} TailChosen(s: State)
    requires s == State([Zone(0x10_0000, 0x10_1000, 4, NORMAL, 0)], [0x07])
    ensures Choose(s, 1, NORMAL) == Pages(0, 3) && PmmSpec.Allocate(s, 1, NORMAL).1 == Returned(0x10_3000)
  {
    assert Open(s.zones[0], 1, NORMAL);
    ThirdIsFree(s.mem);
    hide Bit, SetRun;
  }

  lemma {:induction false} ThirdIsFree(mem: Pool)
    requires mem == [0x07]
    ensures FreeRun(mem, 3, 1) && !FreeRun(mem, 2, 1) && !FreeRun(mem, 1, 1)
  {
    assert Bit(mem, 1) && Bit(mem, 2) && !Bit(mem, 3);
  }

  lemma {:induction false} MiddleMapped(z: Zone)
    requires z == Zone(0x10_0000, 0x10_0000, 4, NORMAL, 0)
    ensures PmmSpec.MapPages(State([z], [0]), 0x10_1000, 2) == (State([z], [0x06]), Returned(0x10_1000))
  {
    var mem: Pool := [0];
    assert SetRun(mem, 1, 1) == [0x02];
    assert SetRun(mem, 1, 2) == [0x06];
    assert FreeRun(mem, 1, 2) by {
      forall i | 1 <= i < 3 ensures !Bit(mem, i) {}
    }
    assert FindZone([z], 0x10_1000, 0) == 0 && [z][0 := z] == [z];
  }

  lemma {:induction false} HeadAllocated(z: Zone)
    requires z == Zone(0x10_0000, 0x10_0000, 4, NORMAL, 0)
    ensures PmmSpec.Allocate(State([z], [0x06]), 1, NORMAL)
            == (State([z.(firstFree := 0x10_1000)], [0x07]), Returned(0x10_0000))
  {
    var s := State([z], [0x06]);
    assert Open(z, 1, NORMAL) && !Bit(s.mem, 0);
    assert FreeRun(s.mem, 0, 1);
    SetOne(s.mem, 0);
    assert SetBit(s.mem, 0) == [0x07];
    assert [z][0 := z.(firstFree := 0x10_1000)] == [z.(firstFree := 0x10_1000)];
  }

  // ----- without room

  /** Two adjacent zones of four pages each, all free. */
  function TwoZones(): State {
    State([Zone(0x10_0000, 0x10_0000, 4, NORMAL, 0), Zone(0x10_4000, 0x10_4000, 4, NORMAL, 1)], [0, 0])
  }

  /** From two fresh zones: map the last three pages of the first zone and the first page of the second,
      then ask for a page twice. The second request finds the first zone full behind the hint, does not
      move on to the next zone, and returns the page of the second zone that is already in use. */
  lemma {:induction false} FullZoneHandsOutLivePage()
    ensures var s1 := Scene(0x10_0000, 0x10_4000, [0x0e, 0]);
            var s2 := Scene(0x10_0000, 0x10_5000, [0x0e, 1]);
            var s3 := Scene(0x10_1000, 0x10_5000, [0x0f, 1]);
            && PmmSpec.MapPages(TwoZones(), 0x10_1000, 3) == (s1, Returned(0x10_1000))
            && PmmSpec.MapPages(s1, 0x10_4000, 1) == (s2, Returned(0x10_4000))
            && PmmSpec.Allocate(s2, 1, NORMAL) == (s3, Returned(0x10_0000))
            && PmmSpec.Allocate(s3, 1, NORMAL).1 == Returned(0x10_4000)
  {
    MapsTail();
    MapsSecond();
    AllocatesHead();
    AllocatesOutside();
  }

  lemma {:induction false} AllocatesOutside()
    ensures PmmSpec.Allocate(Scene(0x10_1000, 0x10_5000, [0x0f, 1]), 1, NORMAL).1 == Returned(0x10_4000)
  {
    ScanLeavesZone(Scene(0x10_1000, 0x10_5000, [0x0f, 1]));
  }

  /** The two zones with other hints and bits. */
  function Scene(hintA: uint32, hintB: uint32, mem: Pool): State {
    State([TwoZones().zones[0].(firstFree := hintA), TwoZones().zones[1].(firstFree := hintB)], mem)
  }

  lemma {:induction false} MapsTail()
    ensures PmmSpec.MapPages(TwoZones(), 0x10_1000, 3) == (Scene(0x10_0000, 0x10_4000, [0x0e, 0]), Returned(0x10_1000))
  {
    var s := TwoZones();
    assert FindZone(s.zones, 0x10_1000, 0) == 0;
    SetThree(s.mem);
    assert s.zones[0 := s.zones[0]] == s.zones;
  }

  lemma {:induction false} MapsSecond()
    ensures PmmSpec.MapPages(Scene(0x10_0000, 0x10_4000, [0x0e, 0]), 0x10_4000, 1)
            == (Scene(0x10_0000, 0x10_5000, [0x0e, 1]), Returned(0x10_4000))
  {
    var s := Scene(0x10_0000, 0x10_4000, [0x0e, 0]);
    assert FindZone(s.zones, 0x10_4000, 0) == 1;
    assert !Bit(s.mem, 8);
    assert FreeRun(s.mem, 8, 1);
    SetOne(s.mem, 8);
    assert SetBit(s.mem, 8) == [0x0e, 1];
    assert s.zones[1 := s.zones[1].(firstFree := 0x10_5000)] == Scene(0x10_0000, 0x10_5000, [0x0e, 1]).zones;
  }

  lemma {:induction false} AllocatesHead()
    ensures PmmSpec.Allocate(Scene(0x10_0000, 0x10_5000, [0x0e, 1]), 1, NORMAL)
            == (Scene(0x10_1000, 0x10_5000, [0x0f, 1]), Returned(0x10_0000))
  {
    var s := Scene(0x10_0000, 0x10_5000, [0x0e, 1]);
    FirstOfTwo(s);
    SetOne(s.mem, 0);
    assert SetBit(s.mem, 0) == [0x0f, 1];
    assert s.zones[0 := s.zones[0].(firstFree := 0x10_1000)] == Scene(0x10_1000, 0x10_5000, [0x0f, 1]).zones;
  }

  lemma {:induction false} SetOne(mem: Pool, i: nat)
    requires i < 8 * |mem|
    ensures SetRun(mem, i, 1) == SetBit(mem, i)
  {}

  lemma {:induction false} SetThree(mem: Pool)
    requires mem == [0, 0]
    ensures SetRun(mem, 1, 3) == [0x0e, 0] && FreeRun(mem, 1, 3)
  {
    assert SetRun(mem, 1, 1) == [0x02, 0];
    assert SetRun(mem, 1, 2) == [0x06, 0];
    forall i | 1 <= i < 4 ensures !Bit(mem, i) {}
  }

  lemma {:induction false} FirstOfTwo(s: State)
    requires |s.zones| == 2 && s.zones[0] == TwoZones().zones[0] && s.mem == [0x0e, 1]
    ensures Choose(s, 1, NORMAL) == Pages(0, 0)
  {
    assert Open(s.zones[0], 1, NORMAL);
    assert !Bit(s.mem, 0);
    assert FreeRun(s.mem, 0, 1);
  }

  lemma {:induction false} ScanLeavesZone(s: State)
    requires |s.zones| == 2 && s.mem == [0x0f, 1]
    requires s.zones[0] == TwoZones().zones[0].(firstFree := 0x10_1000)
    ensures Choose(s, 1, NORMAL) == Pages(0, 4)
  {
    assert Open(s.zones[0], 1, NORMAL);
    assert Bit(s.mem, 1) && Bit(s.mem, 2) && Bit(s.mem, 3) && !Bit(s.mem, 4);
    assert FreeRun(s.mem, 4, 1) && !FreeRun(s.mem, 1, 1) && !FreeRun(s.mem, 2, 1) && !FreeRun(s.mem, 3, 1);
  }
}
