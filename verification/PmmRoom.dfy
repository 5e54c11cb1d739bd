/** An allocator with room: free pages in a row behind the hint of the first zone of normal memory. Every request that
    fits gets the next of them. */
module PmmRoom {
  import opened Words
  import opened Bitmap
  import opened PmmSpec
  import opened PmmRuns
  import opened PmmFrames
  import opened PmmHint
  import opened PmmBoot

  /** Zone i is the first of normal memory and page-aligned, and the k pages behind its hint are free and not its last. */
  predicate RoomBehindHint(p: State, i: nat, k: nat) {
    && Sound(p) && i < |p.zones|
    && (forall j | 0 <= j < i :: p.zones[j].kind & NORMAL == 0)
    && p.zones[i].kind & NORMAL != 0 && p.zones[i].start % PAGE == 0
    && BelowTop(p.zones[i]) && HintInside(p.zones[i])
    && HintPage(p.zones[i]) + k < p.zones[i].pagecount
    && FreePages(p, i, HintPage(p.zones[i]), k)
  }

  /** The frame of the first page behind the hint. */
  function NextFrame(p: State, i: nat): nat
    requires i < |p.zones|
  {
    p.zones[i].start / PAGE + HintPage(p.zones[i])
  }

  lemma {:induction false} NextChoice(p: State, i: nat, k: nat, n: uint32)
    requires RoomBehindHint(p, i, k) && n <= k
    ensures Choose(p, n, NORMAL) == Pages(i, HintPage(p.zones[i])) && StaysInside(p, n, NORMAL)
    ensures RoomInZone(p, i, n)
  {
    var z := p.zones[i];
    assert ZoneFits(z, p.mem);
    var lo := 8 * z.bitmap + HintPage(z);
    assert FreeRun(p.mem, lo, n);
    assert FreePages(p, i, HintPage(z), n);
    ServingZoneIsOpen(p, i, n, NORMAL);
    assert FirstOpen(p.zones, n, NORMAL, 0) == i;
    assert NORMAL & MMIO == 0;
  }

  /** The next request gets the frames behind the hint and leaves the others for later ones. */
  lemma {:induction false} NextRequest(p: State, i: nat, k: nat, n: uint32)
    requires RoomBehindHint(p, i, k) && n <= k
    ensures StaysInside(p, n, NORMAL)
    ensures var (p', a) := PmmSpec.Allocate(p, n, NORMAL);
            && a == Returned(p.zones[i].start + PAGE * HintPage(p.zones[i]))
            && a.value % PAGE == 0 && a.value / PAGE == NextFrame(p, i)
            && RoomBehindHint(p', i, k - n) && NextFrame(p', i) == NextFrame(p, i) + n
  {
    hide RoomBehindHint, Choose, RoomInZone, FreeRun, Open, HintInside;
    NextChoice(p, i, k, n);
    RoomFacts(p, i, k);
    HintAfterAllocate(p, n, NORMAL);
    AddressOfHint(p.zones[i]);
    RoomAfter(p, i, k, n);
  }

  lemma {:induction false} RoomFacts(p: State, i: nat, k: nat)
    requires RoomBehindHint(p, i, k)
    ensures Sound(p) && i < |p.zones| && ZoneFits(p.zones[i], p.mem) && BelowTop(p.zones[i])
    ensures HintPage(p.zones[i]) + k < p.zones[i].pagecount && p.zones[i].start % PAGE == 0
  {
    assert ZoneFits(p.zones[i], p.mem);
  }

  lemma {:induction false} AddressOfHint(z: Zone)
    requires BelowTop(z) && HintPage(z) < z.pagecount && z.start % PAGE == 0
    ensures var a := PageAddress(z, HintPage(z));
            && a == z.start + PAGE * HintPage(z) && a % PAGE == 0 && a / PAGE == z.start / PAGE + HintPage(z)
  {}

  lemma {:induction false} RoomAfter(p: State, i: nat, k: nat, n: uint32)
    requires RoomBehindHint(p, i, k) && n <= k && Choose(p, n, NORMAL) == Pages(i, HintPage(p.zones[i]))
    requires RoomInZone(p, i, n)
    ensures RoomBehindHint(PmmSpec.Allocate(p, n, NORMAL).0, i, k - n)
  {
    var (p', z) := (PmmSpec.Allocate(p, n, NORMAL).0, p.zones[i]);
    assert ZoneFits(z, p.mem);
    SoundKept(p, p');
    HintAfterAllocate(p, n, NORMAL);
    var lo := 8 * z.bitmap + HintPage(z);
    SetRunBits(p.mem, lo, n);
    assert FreeRun(p'.mem, lo + n, k - n);
  }

  // ----- from the memory map

  /** The first entry of normal memory starts with the kernel and has more than pages + k pages, and no entry in front of
      it is empty at address 0. */
  predicate RoomyMap(ms: seq<MemoryMap>, i: nat, kernelStart: uint32, pages: uint32, k: nat) {
    && i < |ms| && ms[i].start == kernelStart && kernelStart % PAGE == 0
    && kernelStart + PAGE * PageCount(ms[i]) < TWO32 && pages + k < PageCount(ms[i])
    && ZoneKind(ms[i]) & NORMAL != 0
    && (forall j | 0 <= j < i :: ZoneKind(ms[j]) & NORMAL == 0 && (ms[j].len > 0 || ms[j].start > 0))
  }

  /** An address at which a zone starts belongs to no zone in front of it, if none of these is empty at 0. */
  lemma {:induction false} FindStart(zs: seq<Zone>, i: nat, k: nat)
    requires k <= i < |zs| && zs[i].pagecount > 0 && zs[i].start + PAGE * zs[i].pagecount <= TWO32
    requires forall j | k <= j < i ::
               && ZonesApart(zs[j], zs[i]) && zs[j].start + PAGE * zs[j].pagecount <= TWO32
               && (zs[j].pagecount > 0 || zs[j].start > 0)
    ensures FindZone(zs, zs[i].start, k) == i
    decreases i - k
  {
    if k < i {
      assert ZonesApart(zs[k], zs[i]);
      FindStart(zs, i, k + 1);
    }
  }

  /** Such a map has room: the reservation succeeds, and behind it lie k free pages. */
  lemma {:induction false} RoomAfterReservation(
    ms: seq<MemoryMap>, mem: Pool, i: nat, kernelStart: uint32, pages: uint32, k: nat)
    requires GoodMap(ms) && CarveEnd(ms, ZONE_BYTES * |ms|) <= |mem| && 8 * |mem| < TWO32
    requires BitmapsClear(Carve(ms, ZONE_BYTES * |ms|), mem) && RoomyMap(ms, i, kernelStart, pages, k)
    ensures var s := State(Carve(ms, ZONE_BYTES * |ms|), mem);
            && Reserves(s, kernelStart, pages)
            && var p := PmmSpec.MapPages(s, kernelStart, pages).0;
               RoomBehindHint(p, i, k) && NextFrame(p, i) == kernelStart / PAGE + pages
  {
    var s := State(Carve(ms, ZONE_BYTES * |ms|), mem);
    FreshIsExact(ms, mem);
    FreshZones(ms, i, kernelStart, pages, k);
    RoomBehindKernel(s, i, pages, k);
  }

  /** The zones of such a map. */
  lemma {:induction false} FreshZones(ms: seq<MemoryMap>, i: nat, kernelStart: uint32, pages: uint32, k: nat)
    requires GoodMap(ms) && RoomyMap(ms, i, kernelStart, pages, k)
    ensures var zs := Carve(ms, ZONE_BYTES * |ms|);
            && zs[i].start == zs[i].firstFree == kernelStart && zs[i].pagecount == PageCount(ms[i])
            && zs[i].kind & NORMAL != 0 && (forall j | 0 <= j < i :: zs[j].kind & NORMAL == 0)
            && FindZone(zs, kernelStart, 0) == i
  {
    hide ZoneKind;
    var zs := Carve(ms, ZONE_BYTES * |ms|);
    CarvedApart(ms, ZONE_BYTES * |ms|);
    FindStart(zs, i, 0);
  }

  /** From a fresh allocator: the pages of the reservation are taken, the next k are free. */
  lemma {:induction false} RoomBehindKernel(s: State, i: nat, pages: uint32, k: nat)
    requires Sound(s) && Exact(s, []) && i < |s.zones| && BelowTop(s.zones[i])
    requires var z := s.zones[i];
             && z.start == z.firstFree && z.start % PAGE == 0 && pages + k < z.pagecount
             && z.kind & NORMAL != 0 && (forall j | 0 <= j < i :: s.zones[j].kind & NORMAL == 0)
             && FindZone(s.zones, z.start, 0) == i
    ensures Reserves(s, s.zones[i].start, pages)
    ensures var p := PmmSpec.MapPages(s, s.zones[i].start, pages).0;
            RoomBehindHint(p, i, k) && NextFrame(p, i) == s.zones[i].start / PAGE + pages
  {
    hide FreeRun, PmmSpec.MapPages, MapSucceeds, Exact, InZone, SetRun;
    var z := s.zones[i];
    assert ZoneFits(z, s.mem);
    FreshPagesAreFree(s, i, pages + k);
    FreeParts(s.mem, 8 * z.bitmap, pages, k);
    MapsFromStart(s, i, pages);
    MapOutcome(s, z.start, pages);
    var p := PmmSpec.MapPages(s, z.start, pages).0;
    SoundKept(s, p);
    MovedHint(z, p.zones[i], pages);
  }

  lemma {:induction false} MapsFromStart(s: State, i: nat, pages: uint32)
    requires i < |s.zones| && s.zones[i].start == s.zones[i].firstFree && FindZone(s.zones, s.zones[i].start, 0) == i
    requires FreePages(s, i, 0, pages)
    ensures MapSucceeds(s, s.zones[i].start, pages)
  {}

  lemma {:induction false} FreshPagesAreFree(s: State, i: nat, m: nat)
    requires Laid(s) && Exact(s, []) && i < |s.zones| && m <= s.zones[i].pagecount
    ensures FreePages(s, i, 0, m)
  {
    var lo := 8 * s.zones[i].bitmap;
    assert ZoneFits(s.zones[i], s.mem);
    forall q | lo <= q < lo + m ensures !Bit(s.mem, q) {
      assert Mapped(s, i, q - lo) <==> Covered([], i, q - lo);
    }
  }

  lemma {:induction false} FreeParts(mem: Pool, lo: nat, m: nat, k: nat)
    requires FreeRun(mem, lo, m + k)
    ensures FreeRun(mem, lo, m) && FreeRun(SetRun(mem, lo, m), lo + m, k)
  {
    SetRunBits(mem, lo, m);
  }

  /** The map of a PC is one of them: with the kernel at one megabyte there are 0x7ee0 pages. */
  lemma {:induction false} PcMapIsRoomy(pages: uint32, k: nat)
    requires pages + k < 0x7ee0
    ensures RoomyMap(PcMap(), 3, 0x10_0000, pages, k)
  {
    assert (NORMAL & NORMAL == 1) && (LOWMEMORY & NORMAL == 0) && (MMIO & NORMAL == 0) && ((LOWMEMORY + MMIO) & NORMAL == 0);
  }
}
