/** From the memory map and the boot page tables to every later state. */
module Boot {
  import opened Words
  import opened Bitmap
  import opened Paging
  import opened PmmSpec
  import opened PmmFrames
  import opened PmmBoot
  import opened VmmInit
  import VmmMap
  import VmmSpec
  import VmmRuns
  import VmmStability
  import VmmReserved
  import VmmOutside

  predicate InKernel(f: nat, kernelStart: uint32, pages: uint32) {
    kernelStart / PAGE <= f < kernelStart / PAGE + pages
  }

  /** Page tables inside the range that the allocator's constructor reserves are taken. */
  lemma {:induction false} BootTablesAreReserved(
    s: State, kernelStart: uint32, pages: uint32, c: nat, low: nat, high: nat)
    requires Sound(s) && Reserves(s, kernelStart, pages) && kernelStart % PAGE == 0
    requires InKernel(c, kernelStart, pages) && InKernel(low, kernelStart, pages) && InKernel(high, kernelStart, pages)
    ensures BootFramesTaken(PmmSpec.MapPages(s, kernelStart, pages).0, c, low, high)
  {
    MapClaimsFrames(s, kernelStart, pages);
  }

  /** The system right behind Init. */
  ghost predicate Started(
    ms: seq<MemoryMap>, pool: Pool, kernelStart: uint32, pages: uint32, mem: Memory, c: nat, low: nat, high: nat,
    m: VmmRuns.Vm)
  {
    && GoodMap(ms) && CarveEnd(ms, ZONE_BYTES * |ms|) <= |pool| && 8 * |pool| < TWO32
    && BitmapsClear(Carve(ms, ZONE_BYTES * |ms|), pool)
    && Reserves(State(Carve(ms, ZONE_BYTES * |ms|), pool), kernelStart, pages) && kernelStart % PAGE == 0
    && InKernel(c, kernelStart, pages) && InKernel(low, kernelStart, pages) && InKernel(high, kernelStart, pages)
    && BootTables(mem, c, low, high)
    && |m.last| == VmmRuns.ZONES && (forall z | 0 <= z < VmmRuns.ZONES :: m.last[z] == VmmRuns.ZoneFirst(z))
    && var p := PmmSpec.MapPages(State(Carve(ms, ZONE_BYTES * |ms|), pool), kernelStart, pages).0;
       m.sys.pmm == p &&
       VmmMap.Unmap(VmmSpec.Sys(NullPageUnmapped(SelfMap(mem, c), low), p), c, 0xf0, 0x300) == VmmSpec.Done(m.sys)
  }

  /** The page tables are those that Init makes of the boot tables. */
  ghost predicate BootedFrom(mem: Memory, c: nat, low: nat, high: nat, t: VmmSpec.Sys) {
    && BootTables(mem, c, low, high)
    && var u := VmmSpec.Sys(NullPageUnmapped(SelfMap(mem, c), low), t.pmm);
       VmmSpec.Wf(u, c) && VmmMap.Unmap(u, c, 0xf0, 0x300) == VmmSpec.Done(t)
  }

  lemma {:induction false} StartedIsGood(
    ms: seq<MemoryMap>, pool: Pool, kernelStart: uint32, pages: uint32, mem: Memory, c: nat, low: nat, high: nat,
    m: VmmRuns.Vm, lo: nat, hi: nat)
    requires Started(ms, pool, kernelStart, pages, mem, c, low, high, m)
    requires lo == kernelStart / PAGE && hi == lo + pages
    ensures VmmRuns.Inv(m, c, [])
    ensures VmmReserved.Reserved(m.sys, c, [], lo, hi)
    ensures BootedFrom(mem, c, low, high, m.sys)
    ensures forall page: nat, k: nat | page < USABLE && k < PAGE ::
              Translate(m.sys.mem, c, PAGE * page + k) == InitWalk(page, k)
  {
    hide GoodMap, CarveEnd, BitmapsClear, Carve, Reserves, BootTables, VmmMap.Unmap, PmmSpec.MapPages, FrameTaken,
      Sound, VmmRuns.Inv, BootFramesTaken, VmmRuns.ZoneFirst, InKernel, VmmSpec.Wf, VmmReserved.AllTaken, Translate, InitWalk;
    var s := State(Carve(ms, ZONE_BYTES * |ms|), pool);
    var p := PmmSpec.MapPages(s, kernelStart, pages).0;
    FreshIsExact(ms, pool);
    BootTablesAreReserved(s, kernelStart, pages, c, low, high);
    KernelIsTaken(s, kernelStart, pages);
    InitEstablishes(mem, p, c, low, high, m.last);
  }

  lemma {:induction false} KernelIsTaken(s: State, kernelStart: uint32, pages: uint32)
    requires Sound(s) && Reserves(s, kernelStart, pages) && kernelStart % PAGE == 0
    ensures kernelStart / PAGE + pages <= FRAMES
    ensures VmmReserved.AllTaken(PmmSpec.MapPages(s, kernelStart, pages).0, kernelStart / PAGE, kernelStart / PAGE + pages)
  {
    MapClaimsFrames(s, kernelStart, pages);
  }

  /** If the constructor finds room for kernel, tables and boot page tables in one zone of a sane memory map, every
      guarded run from behind Init keeps the invariant and can stop only in a panic; and no frame of the kernel or of
      the allocator's tables is handed out, becomes a page table, or, unless it is one already, has a word changed. The
      kernel's own four megabytes stay where it runs, and address 0 stays unmapped. */
  lemma {:induction false} StableFromBoot(
    ms: seq<MemoryMap>, pool: Pool, kernelStart: uint32, pages: uint32, mem: Memory, c: nat, low: nat, high: nat,
    m: VmmRuns.Vm, ops: seq<VmmStability.Op>, end: VmmStability.World, lo: nat, hi: nat)
    requires Started(ms, pool, kernelStart, pages, mem, c, low, high, m) && VmmStability.RunsTo(m, c, [], ops, end)
    requires lo == kernelStart / PAGE && hi == lo + pages
    ensures c < FRAMES && hi <= FRAMES
    ensures match end
            case Dead(w) => w == VmmSpec.Panicked
            case Alive(m', live) =>
              && VmmRuns.Inv(m', c, live)
              && VmmReserved.Reserved(m'.sys, c, live, lo, hi)
              && VmmReserved.LeftAlone(m.sys, m'.sys, c, lo, hi)
              && (forall v: uint32 | 0xc000_0000 <= v < 0xc040_0000 ::
                    Translate(m'.sys.mem, c, v) == Phys(v - 0xc000_0000))
              && (forall v: uint32 | v < 0x1000 :: Translate(m'.sys.mem, c, v) == Fault)
  {
    hide *;
    StartedIsGood(ms, pool, kernelStart, pages, mem, c, low, high, m, lo, hi);
    VmmReserved.ReservedBounds(m.sys, c, [], lo, hi);
    VmmStability.Stability(m, c, [], ops, end);
    if end.Alive? {
      VmmReserved.RunAround(m, c, [], ops, end, lo, hi);
      forall v: uint32 | v < 0x1000 || 0xc000_0000 <= v < 0xc040_0000
        ensures Translate(end.vm.sys.mem, c, v) == if v < 0x1000 then Fault else Phys(v - 0xc000_0000)
      {
        OutsideAtInit(m.sys.mem, c, v);
        VmmOutside.RunKeepsOutside(m, c, [], ops, end, v);
      }
    }
  }

  /** Where the addresses outside the zones translate to behind Init, and that their directories are there. */
  lemma {:induction false} OutsideAtInit(mem: Memory, c: nat, v: uint32)
    requires c < FRAMES
    requires forall page: nat, k: nat | page < USABLE && k < PAGE :: Translate(mem, c, PAGE * page + k) == InitWalk(page, k)
    requires v < 0x1000 || 0xc000_0000 <= v < 0xc040_0000
    ensures Present(Entry(mem, c, v / 0x40_0000))
    ensures Translate(mem, c, v) == if v < 0x1000 then Fault else Phys(v - 0xc000_0000)
  {
    hide Entry, Present, Frame, InitWalk;
    var page, k := v / PAGE, v % PAGE;
    assert Translate(mem, c, PAGE * page + k) == InitWalk(page, k);
    assert Translate(mem, c, PAGE * 1 + 0) == InitWalk(1, 0);
    WalksOutside(page, k);
    NoFault(mem, c, v);
    NoFault(mem, c, PAGE);
  }

  lemma {:induction false} WalksOutside(page: nat, k: nat)
    requires k < PAGE && (page == 0 || 0xc_0000 <= page < 0xc_0400)
    ensures InitWalk(page, k) == if page == 0 then Fault else Phys(PAGE * (page - 0xc_0000) + k)
    ensures InitWalk(1, 0) == Phys(PAGE)
  {}

  lemma {:induction false} NoFault(mem: Memory, c: nat, v: uint32)
    requires c < FRAMES
    ensures Translate(mem, c, v) != Fault ==> Present(Entry(mem, c, v / 0x40_0000))
  {}
}
