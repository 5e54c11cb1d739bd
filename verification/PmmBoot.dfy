/** How the constructor of the physical memory manager carves its tables out of the memory behind the kernel
    and reserves them together with the kernel. */
module PmmBoot {
  import opened Words
  import opened Bitmap
  import opened PmmSpec
  import opened PmmRuns
  import opened PmmFrames

  datatype MemoryMap = MemoryMap(start: uint32, len: uint32, kind: int)

  /** sizeof(PMMZone): five 32-bit fields. */
  const ZONE_BYTES: nat := 20

  function PageCount(m: MemoryMap): uint32 {
    if m.len > 0 && m.len / PAGE == 0 then 1 else m.len / PAGE
  }

  function ZoneKind(m: MemoryMap): bv8 {
    var low := Wrap(m.start + m.len) < 0x10_0000;
    if m.kind == 1 then (if low then LOWMEMORY else NORMAL)
    else (if low then LOWMEMORY + MMIO else MMIO)
  }

  /** The zones of a memory map whose bitmaps are carved one after the other from byte `kend` on. */
  function Carve(ms: seq<MemoryMap>, kend: nat): (zs: seq<Zone>)
    ensures |zs| == |ms|
  {
    if ms == [] then []
    else
      var pc := PageCount(ms[0]);
      [Zone(ms[0].start, ms[0].start, pc, ZoneKind(ms[0]), kend)] + Carve(ms[1..], kend + pc / 8 + 1)
  }

  function CarveEnd(ms: seq<MemoryMap>, kend: nat): (r: nat)
    ensures r >= kend
  {
    if ms == [] then kend else CarveEnd(ms[1..], kend + PageCount(ms[0]) / 8 + 1)
  }

  lemma {:induction false} CarveSnoc(ms: seq<MemoryMap>, m: MemoryMap, kend: nat)
    ensures CarveEnd(ms + [m], kend) == CarveEnd(ms, kend) + PageCount(m) / 8 + 1
    ensures Carve(ms + [m], kend)
            == Carve(ms, kend) + [Zone(m.start, m.start, PageCount(m), ZoneKind(m), CarveEnd(ms, kend))]
  {
    if ms == [] {
      assert ms + [m] == [m];
    } else {
      assert (ms + [m])[1..] == ms[1..] + [m];
      CarveSnoc(ms[1..], m, kend + PageCount(ms[0]) / 8 + 1);
    }
  }

  /** The bitmaps lie one behind the other between the zone array and the end of the carved memory:
      no two share a byte, and each has a bit for every page of its zone. */
  lemma {:induction false} CarvedApart(ms: seq<MemoryMap>, kend: nat)
    ensures var zs := Carve(ms, kend);
            && (forall i | 0 <= i < |zs| :: kend <= zs[i].bitmap && zs[i].bitmap + BitmapBytes(zs[i]) <= CarveEnd(ms, kend))
            && (forall i, j | 0 <= i < j < |zs| :: BitmapsApart(zs[i], zs[j]))
            && (forall i | 0 <= i < |zs| :: zs[i].pagecount <= 8 * BitmapBytes(zs[i]))
            && (forall i | 0 <= i < |zs| ::
                  && zs[i].start == zs[i].firstFree == ms[i].start
                  && zs[i].pagecount == PageCount(ms[i]) && zs[i].kind == ZoneKind(ms[i]))
  {
    if ms != [] {
      var next := kend + PageCount(ms[0]) / 8 + 1;
      CarvedApart(ms[1..], next);
      var zs, rest := Carve(ms, kend), Carve(ms[1..], next);
      assert forall i | 1 <= i < |zs| :: zs[i] == rest[i - 1];
    }
  }

  /** The zones of the memory map do not overlap and do not pass the end of memory. */
  predicate GoodMap(ms: seq<MemoryMap>) {
    && (forall i | 0 <= i < |ms| :: ms[i].start + PAGE * PageCount(ms[i]) <= TWO32)
    && (forall i, j | 0 <= i < j < |ms| ::
          || ms[i].start + PAGE * PageCount(ms[i]) <= ms[j].start
          || ms[j].start + PAGE * PageCount(ms[j]) <= ms[i].start)
  }

  /** The bytes of every bitmap are zero. */
  predicate BitmapsClear(zs: seq<Zone>, mem: Pool) {
    forall i, b | 0 <= i < |zs| && zs[i].bitmap <= b < zs[i].bitmap + BitmapBytes(zs[i]) && b < |mem| :: mem[b] == 0
  }

  /** The zones of such a map, over any bytes. */
  lemma {:induction false} FreshIsSound(ms: seq<MemoryMap>, mem: Pool)
    requires GoodMap(ms) && CarveEnd(ms, ZONE_BYTES * |ms|) <= |mem| && 8 * |mem| < TWO32
    ensures Sound(State(Carve(ms, ZONE_BYTES * |ms|), mem))
  {
    hide Carve, CarveEnd;
    CarvedApart(ms, ZONE_BYTES * |ms|);
  }

  /** The zones as the constructor leaves them before it reserves the kernel: nothing is mapped. */
  lemma {:induction false} FreshIsExact(ms: seq<MemoryMap>, mem: Pool)
    requires GoodMap(ms) && CarveEnd(ms, ZONE_BYTES * |ms|) <= |mem| && 8 * |mem| < TWO32
    requires BitmapsClear(Carve(ms, ZONE_BYTES * |ms|), mem)
    ensures var s := State(Carve(ms, ZONE_BYTES * |ms|), mem); Sound(s) && Exact(s, [])
  {
    hide Carve, CarveEnd, BitmapsClear, BitmapBytes, Bit;
    var s := State(Carve(ms, ZONE_BYTES * |ms|), mem);
    FreshIsSound(ms, mem);
    CarvedApart(ms, ZONE_BYTES * |ms|);
    forall i: nat, p: nat | i < |s.zones| && p < s.zones[i].pagecount ensures !Mapped(s, i, p) {
      ClearedPage(s, i, p);
    }
  }

  lemma {:induction false} ClearedPage(s: State, i: nat, p: nat)
    requires BitmapsClear(s.zones, s.mem) && i < |s.zones| && p < s.zones[i].pagecount && ZoneFits(s.zones[i], s.mem)
    ensures !Mapped(s, i, p)
  {
    var z := s.zones[i];
    assert (8 * z.bitmap + p) / 8 == z.bitmap + p / 8 < z.bitmap + BitmapBytes(z);
  }

  /** The pool after memset has cleared the bytes [from, to). */
  function Cleared(mem: Pool, from: nat, to: nat): (r: Pool)
    requires from <= to <= |mem|
    ensures |r| == |mem|
  {
    mem[..from] + seq(to - from, _ => 0) + mem[to..]
  }

  lemma {:induction false} ClearedBitmaps(ms: seq<MemoryMap>, mem: Pool)
    requires CarveEnd(ms, ZONE_BYTES * |ms|) <= |mem|
    ensures BitmapsClear(Carve(ms, ZONE_BYTES * |ms|), Cleared(mem, ZONE_BYTES * |ms|, CarveEnd(ms, ZONE_BYTES * |ms|)))
  {
    CarvedApart(ms, ZONE_BYTES * |ms|);
  }

  /** The number of pages the constructor reserves for the kernel and its own tables. */
  function ReservedPages(kernelStart: uint32, virtOffset: uint32, kendAddr: uint32): uint32 {
    Wrap(1 + Wrap(kendAddr - Wrap(kernelStart + virtOffset)) / PAGE)
  }

  /** The constructor's reservation succeeded inside one page-aligned zone of the map. */
  predicate Reserves(s: State, kernelStart: uint32, pages: uint32) {
    MapSucceeds(s, kernelStart, pages) && MapStaysInside(s, kernelStart, pages)
  }

  function KernelRange(s: State, kernelStart: uint32, pages: uint32): Range
    requires Reserves(s, kernelStart, pages)
  {
    var i := FindZone(s.zones, kernelStart, 0);
    Range(i, PageOf(s.zones[i], kernelStart), pages)
  }

  lemma {:induction false} RangeStaysLive(s: State, live: seq<Range>, ops: seq<Op>, r: Range)
    requires Laid(s) && r in live && NeverUnmapped(s, ops, r)
    ensures r in RunLive(s, live, ops)
    decreases |ops|
  {
    if ops != [] {
      LaidKept(s, Step(s, ops[0]).0);
      if ops[0].Unmap? {
        var i := FindZone(s.zones, ops[0].addr, 0);
        if i < |s.zones| {
          OthersKept(live, Range(i, PageOf(s.zones[i], ops[0].addr), ops[0].n), r);
        }
      }
      RangeStaysLive(Step(s, ops[0]).0, Track(s, live, ops[0]), ops[1..], r);
    }
  }

  lemma {:induction false} OthersKept(live: seq<Range>, gone: Range, r: Range)
    requires r in live && r != gone
    ensures r in Without(live, gone)
  {
    if live[0] != gone && live[0] != r {
      OthersKept(live[1..], gone, r);
    }
  }

  /** No call of the run unmaps exactly this range. */
  predicate NeverUnmapped(s: State, ops: seq<Op>, r: Range)
    decreases |ops|
  {
    if ops == [] then true
    else
      && (ops[0].Unmap? ==>
            var i := FindZone(s.zones, ops[0].addr, 0);
            i < |s.zones| ==> r != Range(i, PageOf(s.zones[i], ops[0].addr), ops[0].n))
      && NeverUnmapped(Step(s, ops[0]).0, ops[1..], r)
  }

  /** Every byte of the kernel and of the carved tables lies in a reserved page. */
  lemma {:induction false} ReservationCovers(kernelStart: uint32, virtOffset: uint32, kendAddr: uint32, b: nat)
    requires kernelStart % PAGE == 0 && kernelStart + virtOffset <= kendAddr
    requires b < kendAddr - (kernelStart + virtOffset)
    ensures kernelStart / PAGE <= (kernelStart + b) / PAGE
    ensures (kernelStart + b) / PAGE < kernelStart / PAGE + ReservedPages(kernelStart, virtOffset, kendAddr)
  {}

  /** No page is reserved that does not at least start where the tables end. */
  lemma {:induction false} ReservationIsTight(kernelStart: uint32, virtOffset: uint32, kendAddr: uint32)
    requires kernelStart + virtOffset <= kendAddr
    ensures var pages := ReservedPages(kernelStart, virtOffset, kendAddr);
            1 <= pages && kernelStart + virtOffset + PAGE * (pages - 1) <= kendAddr
  {}

  /** The state the constructor leaves: a sane map, cleared bitmaps, and room for the reservation in one zone. */
  ghost predicate Booted(
    ms: seq<MemoryMap>, mem: Pool, kernelStart: uint32, virtOffset: uint32, kendAddr: uint32, s1: State, r: Range)
  {
    && GoodMap(ms) && CarveEnd(ms, ZONE_BYTES * |ms|) <= |mem| && 8 * |mem| < TWO32
    && BitmapsClear(Carve(ms, ZONE_BYTES * |ms|), mem)
    && kernelStart % PAGE == 0 && kernelStart + virtOffset <= kendAddr
    && var s0 := State(Carve(ms, ZONE_BYTES * |ms|), mem);
       var pages := ReservedPages(kernelStart, virtOffset, kendAddr);
       && Reserves(s0, kernelStart, pages)
       && s1 == PmmSpec.MapPages(s0, kernelStart, pages).0 && r == KernelRange(s0, kernelStart, pages)
  }

  /** The bytes of the kernel and of the tables lie in the range that the constructor reserves. */
  lemma {:induction false} KernelInRange(s: State, kernelStart: uint32, virtOffset: uint32, kendAddr: uint32, b: nat)
    requires Laid(s) && Reserves(s, kernelStart, ReservedPages(kernelStart, virtOffset, kendAddr))
    requires kernelStart % PAGE == 0 && kernelStart + virtOffset <= kendAddr
    requires b < kendAddr - (kernelStart + virtOffset)
    ensures HoldsByte(s, KernelRange(s, kernelStart, ReservedPages(kernelStart, virtOffset, kendAddr)), kernelStart + b)
  {
    var pages := ReservedPages(kernelStart, virtOffset, kendAddr);
    hide ReservedPages, FreeRun;
    ReservationCovers(kernelStart, virtOffset, kendAddr, b);
    var i := FindZone(s.zones, kernelStart, 0);
    assert ZoneFits(s.zones[i], s.mem) && InZone(s.zones[i], kernelStart);
    FrameOfPage(s.zones[i], kernelStart, pages);
  }

  /** After any proper run that does not unmap the kernel's own range, that range is live and the bitmaps are exact. */
  lemma {:induction false} KernelStaysLive(
    ms: seq<MemoryMap>, mem: Pool, kernelStart: uint32, virtOffset: uint32, kendAddr: uint32, s1: State, r: Range,
    ops: seq<Op>)
    requires Booted(ms, mem, kernelStart, virtOffset, kendAddr, s1, r)
    requires Laid(s1) && ProperRun(s1, [r], ops) && NeverUnmapped(s1, ops, r)
    ensures var (s, live) := (Run(s1, ops), RunLive(s1, [r], ops)); Sound(s) && Exact(s, live) && r in live
  {
    hide Carve, GoodMap, BitmapsClear, ReservedPages, FreeRun, ProperRun, NeverUnmapped, Exact;
    var s0 := State(Carve(ms, ZONE_BYTES * |ms|), mem);
    FreshIsExact(ms, mem);
    StepKeepsExact(s0, [], Map(kernelStart, ReservedPages(kernelStart, virtOffset, kendAddr)));
    assert [] + [r] == [r];
    SoundKept(s0, s1);
    NoDoubleAllocation(s1, [r], ops);
    RangeStaysLive(s1, [r], ops, r);
    SoundKept(s1, Run(s1, ops));
  }

  /** Boot reservation: after the constructor, and after any proper run that does not unmap the kernel's own range,
      no call that stays in its zone hands out a byte of the kernel or of the tables. Only the kernel's own zone has to
      start at a page. */
  lemma {:induction false} KernelNeverHandedOut(
    ms: seq<MemoryMap>, mem: Pool, kernelStart: uint32, virtOffset: uint32, kendAddr: uint32, s1: State, r: Range,
    ops: seq<Op>, b: nat, n: uint32, t: bv8, addr: uint32)
    requires Booted(ms, mem, kernelStart, virtOffset, kendAddr, s1, r) && b < kendAddr - (kernelStart + virtOffset)
    requires Laid(s1) && ProperRun(s1, [r], ops) && NeverUnmapped(s1, ops, r)
    ensures var (s, x) := (Run(s1, ops), kernelStart + b);
            && Laid(s)
            && (AllocateFits(s, n, t) ==>
                  var a := PmmSpec.Allocate(s, n, t).1; a.Returned? ==> !(a.value <= x < a.value + PAGE * n))
            && (PagesFit(s, addr, n) && MapSucceeds(s, addr, n) ==>
                  var off := (addr - s.zones[FindZone(s.zones, addr, 0)].start) % PAGE;
                  !(addr - off <= x < addr - off + PAGE * n))
  {
    hide Carve, BitmapsClear, CarveEnd, ReservedPages, Exact, ProperRun, NeverUnmapped, AllocateFits, PagesFit, MapSucceeds,
      HoldsByte, FreeRun, InZone, PmmSpec.MapPages, PmmSpec.Allocate, GoodMap, Reserves, KernelRange, ZonesApart, BitmapsApart,
      ZoneFits, Run, RunLive;
    var s0 := State(Carve(ms, ZONE_BYTES * |ms|), mem);
    var s, live := Run(s1, ops), RunLive(s1, [r], ops);
    KernelStaysLive(ms, mem, kernelStart, virtOffset, kendAddr, s1, r, ops);
    FreshIsExact(ms, mem);
    KernelInRange(s0, kernelStart, virtOffset, kendAddr, b);
    SameBytes(s0, s, r, kernelStart + b);
    LiveByteIsNotHandedOut(s, live, r, kernelStart + b, n, t, addr);
  }

  lemma {:induction false} SameBytes(s: State, s': State, r: Range, x: int)
    requires SameLayout(s, s')
    ensures HoldsByte(s', r, x) <==> HoldsByte(s, r, x)
  {}

  // ----- the map of a PC

  /** The memory map of an emulated PC with 128 megabytes, as its boot loader passes it on: its second entry does not
      start at a page. */
  function PcMap(): seq<MemoryMap> {
    [MemoryMap(0, 0x9_fc00, 1), MemoryMap(0x9_fc00, 0x400, 2), MemoryMap(0xf_0000, 0x1_0000, 2),
     MemoryMap(0x10_0000, 0x7ee_0000, 1), MemoryMap(0x7fe_0000, 0x2_0000, 2), MemoryMap(0xfffc_0000, 0x4_0000, 2)]
  }

  lemma {:induction false} PcMapIsGood()
    ensures GoodMap(PcMap()) && PcMap()[1].start % PAGE != 0
  {}
}
