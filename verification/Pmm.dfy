/** The physical memory manager: zones and bitmaps changed in place. */
module Pmm {
  import opened Words
  import opened Bitmap
  import opened PmmSpec
  import opened PmmBoot

  class PMM {
    /** The zone array, and the memory behind the kernel that holds all bitmaps. */
    const mmap: array<Zone>
    const pool: array<bv8>
    /** What the reservation of the kernel and the tables came to: after Returned(FAILED) the constructor has called
        panic(), after Overrun it has read beyond the memory described. */
    var reservation: Answer

    ghost function View(): State
      reads mmap, pool
    {
      State(mmap[..], pool[..])
    }

    ghost predicate Valid() {
      8 * pool.Length < TWO32 && mmap as object != pool
    }

    /** Carves the zone array and the bitmaps from `memory`, the bytes from `poolStart` on, clears the bitmaps,
        and reserves the pages of the kernel and of the tables. */
    constructor (kernelStart: uint32, virtOffset: uint32, poolStart: uint32, ms: seq<MemoryMap>, memory: array<bv8>)
      requires CarveEnd(ms, ZONE_BYTES * |ms|) <= memory.Length && 8 * memory.Length < TWO32
      modifies memory
      ensures Valid() && fresh(mmap) && pool == memory
      ensures var kend := CarveEnd(ms, ZONE_BYTES * |ms|);
              var fresh_ := State(Carve(ms, ZONE_BYTES * |ms|), Cleared(old(memory[..]), ZONE_BYTES * |ms|, kend));
              var pages := ReservedPages(kernelStart, virtOffset, Wrap(poolStart + kend));
              var (s, a) := PmmSpec.MapPages(fresh_, kernelStart, pages);
              && View() == s
              && reservation == a
    {
      hide PmmSpec.MapPages, Carve, CarveEnd, Cleared, ReservedPages;
      mmap := new Zone[|ms|](_ => Zone(0, 0, 0, 0, 0));
      pool := memory;
      reservation := Panic;
      new;
      var kend := CarveZones(ms);
      var a := MapPages(kernelStart, ReservedPages(kernelStart, virtOffset, Wrap(poolStart + kend)));
      reservation := a;
    }

    /** The loop of the constructor: one zone and one cleared bitmap per entry of the memory map. */
    method CarveZones(ms: seq<MemoryMap>) returns (kend: nat)
      requires Valid() && mmap.Length == |ms| && CarveEnd(ms, ZONE_BYTES * |ms|) <= pool.Length
      modifies mmap, pool
      ensures kend == CarveEnd(ms, ZONE_BYTES * |ms|)
      ensures View() == State(Carve(ms, ZONE_BYTES * |ms|), Cleared(old(pool[..]), ZONE_BYTES * |ms|, kend))
    {
      hide Carve, CarveEnd, Cleared, ZoneKind, PmmBoot.PageCount;
      ghost var base, before := ZONE_BYTES * |ms|, pool[..];
      kend := ZONE_BYTES * |ms|;
      CarveNothing(before, base);
      assert ms[..0] == [] && mmap[..0] == [];
      for i := 0 to |ms|
        invariant base <= kend == CarveEnd(ms[..i], base) <= pool.Length
        invariant mmap[..i] == Carve(ms[..i], base)
        invariant pool[..] == Cleared(before, base, kend)
      {
        ghost var carved := mmap[..i];
        CarveNext(ms, base, i);
        ClearedFurther(before, base, kend, kend + PageCount(ms[i]) / 8 + 1);
        CarveZone(ms[i], i, kend);
        assert mmap[..i + 1] == carved + [mmap[i]];
        kend := kend + (PageCount(ms[i]) / 8 + 1);
      }
      assert ms[..|ms|] == ms && mmap[..] == mmap[..|ms|];
    }

    /** One zone and its bitmap. */
    method CarveZone(m: MemoryMap, i: nat, kend: nat)
      requires Valid() && i < mmap.Length && kend + PageCount(m) / 8 + 1 <= pool.Length
      modifies mmap, pool
      ensures mmap[..] == old(mmap[..])[i := Zone(m.start, m.start, PageCount(m), ZoneKind(m), kend)]
      ensures pool[..] == Cleared(old(pool[..]), kend, kend + PageCount(m) / 8 + 1)
    {
      var pagecount := PageCount(m);
      mmap[i] := Zone(m.start, m.start, pagecount, ZoneKind(m), kend);
      Clear(kend, pagecount / 8 + 1);
    }

    /** memset of `count` bytes of the pool to 0. */
    method Clear(from: nat, count: nat)
      requires from + count <= pool.Length
      modifies pool
      ensures pool[..] == Cleared(old(pool[..]), from, from + count)
    {
      for i := 0 to count
        invariant pool[..] == Cleared(old(pool[..]), from, from + i)
      {
        pool[from + i] := 0;
      }
    }

    /** Panics, or hands out the run of pages that the search settles on and moves the hint behind it. */
    method AllocatePhysical(n: uint32, t: bv8) returns (a: Answer)
      requires Valid()
      modifies mmap, pool
      ensures (View(), a) == PmmSpec.Allocate(old(View()), n, t)
    {
      if t & MMIO != 0 {
        return Panic;
      }
      var i := FirstOpenZone(n, t);
      if i == mmap.Length {
        return Panic;
      }
      var zone := mmap[i];
      var pageOffset, scan := Search(zone, Wrap(zone.firstFree - zone.start) / PAGE, n);
      ChooseFrom(View(), n, t, i, pageOffset, scan);
      if scan == Outside {
        return Overrun;
      }
      a := TakePages(i, pageOffset, n);
    }

    /** The outer loop of AllocatePhysical: skips zones of another type, full ones and those too small behind
        the hint. */
    method FirstOpenZone(n: uint32, t: bv8) returns (i: nat)
      ensures i == FirstOpen(mmap[..], n, t, 0)
    {
      hide Open;
      i := 0;
      while i < mmap.Length
        invariant i <= mmap.Length && forall j | 0 <= j < i :: !Open(mmap[j], n, t)
      {
        var open := PassesChecks(mmap[i], n, t);
        if open {
          return;
        }
        i := i + 1;
      }
    }

    /** The three checks in front of the search. */
    static method PassesChecks(zone: Zone, n: uint32, t: bv8) returns (open: bool)
      ensures open == Open(zone, n, t)
    {
      if zone.kind & t == 0 {
        return false;
      }
      if zone.firstFree >= Wrap(zone.start + zone.pagecount * PAGE) {
        return false;
      }
      if Wrap(HintPage(zone) + n) >= zone.pagecount {
        return false;
      }
      return true;
    }

    /** The end of AllocatePhysical: maps the run and moves the hint behind it. */
    method TakePages(i: nat, pageOffset: nat, n: uint32) returns (a: Answer)
      requires Valid() && i < mmap.Length && FreePages(View(), i, pageOffset, n)
      modifies mmap, pool
      ensures (View(), a) == Take(old(View()), i, pageOffset, n)
    {
      var zone := mmap[i];
      MapPagesInBitmap(zone.bitmap, pageOffset, n);
      var naddr := Wrap(zone.start + pageOffset * PAGE);
      mmap[i] := zone.(firstFree := Wrap(naddr + n * PAGE));
      assert mmap[..] == old(mmap[..])[i := mmap[i]];
      return Returned(naddr);
    }

    /** The inner loop of AllocatePhysical: steps page by page until the check finds n free pages. */
    method Search(zone: Zone, from: nat, n: uint32) returns (pageOffset: nat, scan: Scan)
      ensures scan != Taken
      ensures var q := FirstRun(pool[..], 8 * zone.bitmap + from, n);
              scan == Free <==> FreeRun(pool[..], q, n)
      ensures scan == Free ==> 8 * zone.bitmap + pageOffset == FirstRun(pool[..], 8 * zone.bitmap + from, n)
    {
      pageOffset := from;
      ghost var lo := 8 * zone.bitmap + from;
      scan := CheckIfPagesFree(zone.bitmap, pageOffset, n);
      while scan == Taken
        invariant from <= pageOffset
        invariant forall q | lo <= q < 8 * zone.bitmap + pageOffset :: !FreeRun(pool[..], q, n)
        invariant scan == ScanRun(pool[..], 8 * zone.bitmap + pageOffset, n)
        decreases 8 * pool.Length - (8 * zone.bitmap + pageOffset)
      {
        pageOffset := pageOffset + 1;
        // here the source compares pageOffset + n with pagecount; its `continue` goes to the test of
        // this loop, so the comparison changes nothing
        scan := CheckIfPagesFree(zone.bitmap, pageOffset, n);
      }
      ScanDecides(pool[..], lo, 8 * zone.bitmap + pageOffset, n, scan);
    }

    /** Whether n bits from `pageOffset` are clear; `Outside` if that cannot be told inside the pool. */
    method CheckIfPagesFree(bitmap: nat, pageOffset: nat, n: uint32) returns (scan: Scan)
      ensures scan == ScanRun(pool[..], 8 * bitmap + pageOffset, n)
    {
      var byteOffset, bitOffset := pageOffset / 8, pageOffset % 8;
      ghost var lo := 8 * bitmap + pageOffset;
      for bitIdx := 0 to n
        invariant 0 <= bitOffset < 8 && 8 * byteOffset + bitOffset == pageOffset + bitIdx
        invariant InPool(pool[..], lo, bitIdx)
        invariant forall i | lo <= i < lo + bitIdx :: !Bit(pool[..], i)
      {
        if bitmap + byteOffset >= pool.Length {
          return Outside;
        }
        Cursor(bitmap + byteOffset, bitOffset);
        if pool[bitmap + byteOffset] & Mask(bitOffset) != 0 {
          assert Bit(pool[..], lo + bitIdx);
          return Taken;
        }
        byteOffset, bitOffset := NextBit(byteOffset, bitOffset);
      }
      return Free;
    }

    /** The step of the byte and bit cursor that the three loops share. */
    static method NextBit(byteOffset: nat, bitOffset: nat) returns (b: nat, k: nat)
      requires bitOffset < 8
      ensures k < 8 && 8 * b + k == 8 * byteOffset + bitOffset + 1
    {
      b, k := byteOffset, bitOffset + 1;
      if k >= 8 {
        b, k := b + 1, 0;
      }
    }

    /** pool[b] |= (1 << k) */
    method OrMask(b: nat, k: nat, ghost i: nat)
      requires b < pool.Length && k < 8 && i == 8 * b + k
      modifies pool
      ensures pool[..] == SetBit(old(pool[..]), i)
    {
      Cursor(b, k);
      pool[b] := pool[b] | Mask(k);
    }

    /** pool[b] ^= (1 << k) */
    method XorMask(b: nat, k: nat, ghost i: nat)
      requires b < pool.Length && k < 8 && i == 8 * b + k
      modifies pool
      ensures pool[..] == ToggleBit(old(pool[..]), i)
    {
      Cursor(b, k);
      pool[b] := pool[b] ^ Mask(k);
    }

    method MapPagesInBitmap(bitmap: nat, pageOffset: nat, n: uint32)
      requires InPool(pool[..], 8 * bitmap + pageOffset, n)
      modifies pool
      ensures pool[..] == SetRun(old(pool[..]), 8 * bitmap + pageOffset, n)
    {
      var byteOffset, bitOffset := pageOffset / 8, pageOffset % 8;
      for bitIdx := 0 to n
        invariant 0 <= bitOffset < 8 && 8 * byteOffset + bitOffset == pageOffset + bitIdx
        invariant pool[..] == SetRun(old(pool[..]), 8 * bitmap + pageOffset, bitIdx)
      {
        OrMask(bitmap + byteOffset, bitOffset, 8 * bitmap + pageOffset + bitIdx);
        byteOffset, bitOffset := NextBit(byteOffset, bitOffset);
      }
    }

    method MapPages(addr: uint32, n: uint32) returns (a: Answer)
      requires Valid()
      modifies mmap, pool
      ensures (View(), a) == PmmSpec.MapPages(old(View()), addr, n)
    {
      hide Bit, SetRun, InZone;
      var i := FindZone(addr);
      if i == mmap.Length {
        return Returned(FAILED);
      }
      var zone := mmap[i];
      if addr < zone.firstFree {
        return Returned(FAILED);
      }
      var pageOffset := Wrap(addr - zone.start) / PAGE;
      var scan := CheckIfPagesFree(zone.bitmap, pageOffset, n);
      if scan == Outside {
        return Overrun;
      }
      if scan == Taken {
        return Returned(FAILED);
      }
      MapPagesInBitmap(zone.bitmap, pageOffset, n);
      if addr == zone.firstFree {
        mmap[i] := zone.(firstFree := Wrap(zone.firstFree + n * PAGE));
      }
      assert mmap[..] == old(mmap[..])[i := mmap[i]];
      return Returned(addr);
    }

    /** Flips n bits; on `Overrun` the bits up to the end of the pool have been flipped. */
    method UnmapPages(addr: uint32, n: uint32) returns (a: Answer)
      requires Valid()
      modifies mmap, pool
      ensures a == PmmSpec.UnmapPages(old(View()), addr, n).1
      ensures a != Overrun ==> View() == PmmSpec.UnmapPages(old(View()), addr, n).0
    {
      var i := FindZone(addr);
      if i == mmap.Length {
        return Returned(FAILED);
      }
      var zone := mmap[i];
      if addr < zone.firstFree {
        mmap[i] := zone.(firstFree := addr - addr % PAGE);
      }
      assert mmap[..] == old(mmap[..])[i := mmap[i]];
      var pageOffset := Wrap(addr - zone.start) / PAGE;
      var inside := FlipPagesInBitmap(zone.bitmap, pageOffset, n);
      return if inside then Returned(n) else Overrun;
    }

    /** The loop of UnmapPages; false if it came to the end of the pool. */
    method FlipPagesInBitmap(bitmap: nat, pageOffset: nat, n: uint32) returns (inside: bool)
      modifies pool
      ensures inside == InPool(old(pool[..]), 8 * bitmap + pageOffset, n)
      ensures inside ==> pool[..] == ToggleRun(old(pool[..]), 8 * bitmap + pageOffset, n)
    {
      hide ToggleBit, ToggleRun, Bit, Mask, InPool;
      var byteOffset, bitOffset := pageOffset / 8, pageOffset % 8;
      ghost var lo := 8 * bitmap + pageOffset;
      ghost var before := pool[..];
      ToggleNothing(before, lo);
      for bitIdx := 0 to n
        invariant 0 <= bitOffset < 8 && 8 * byteOffset + bitOffset == pageOffset + bitIdx
        invariant InPool(before, lo, bitIdx) && pool[..] == ToggleRun(before, lo, bitIdx)
      {
        if bitmap + byteOffset >= pool.Length {
          OutsidePool(before, bitmap + byteOffset, bitOffset, lo, bitIdx, n);
          return false;
        }
        ToggleOneMore(before, lo, bitIdx);
        XorMask(bitmap + byteOffset, bitOffset, lo + bitIdx);
        byteOffset, bitOffset := NextBit(byteOffset, bitOffset);
      }
      return true;
    }

    /** The first zone that holds the address, or the number of zones. */
    method FindZone(addr: uint32) returns (i: nat)
      ensures i == PmmSpec.FindZone(mmap[..], addr, 0)
    {
      i := 0;
      while i < mmap.Length
        invariant i <= mmap.Length && forall j | 0 <= j < i :: !InZone(mmap[j], addr)
      {
        var zone := mmap[i];
        var zoneEnd := Wrap(zone.start + PAGE * zone.pagecount - 1);
        if zone.start <= addr <= zoneEnd {
          return;
        }
        i := i + 1;
      }
    }
  }

  /** What a finished upward scan from `lo` that stopped at `q` says about the first run. */
  lemma {:induction false} ScanDecides(mem: Pool, lo: nat, q: nat, n: nat, scan: Scan)
    requires lo <= q && scan == ScanRun(mem, q, n) && scan != Taken
    requires forall k | lo <= k < q :: !FreeRun(mem, k, n)
    ensures scan == Free ==> FirstRun(mem, lo, n) == q
    ensures scan == Outside ==> !FreeRun(mem, FirstRun(mem, lo, n), n)
  {
    var r := FirstRun(mem, lo, n);
    if scan == Outside && InPool(mem, r, n) {
      assert FreeRun(mem, q, n);
    }
  }

  /** The search of the first open zone settles what AllocatePhysical chooses. */
  lemma {:induction false} ChooseFrom(s: State, n: uint32, t: bv8, i: nat, page: nat, scan: Scan)
    requires t & MMIO == 0 && i < |s.zones| && i == FirstOpen(s.zones, n, t, 0) && scan != Taken
    requires var q := FirstRun(s.mem, 8 * s.zones[i].bitmap + HintPage(s.zones[i]), n);
             && (scan == Free <==> FreeRun(s.mem, q, n))
             && (scan == Free ==> 8 * s.zones[i].bitmap + page == q)
    ensures scan == Free ==> Choose(s, n, t) == Pages(i, page) && FreePages(s, i, page, n)
    ensures scan == Outside ==> Choose(s, n, t) == OffPool
  {}

  lemma {:induction false} CarveNothing(mem: Pool, base: nat)
    requires base <= |mem|
    ensures Carve([], base) == [] && CarveEnd([], base) == base && Cleared(mem, base, base) == mem
  {}

  lemma {:induction false} ToggleNothing(mem: Pool, lo: nat)
    ensures InPool(mem, lo, 0) && ToggleRun(mem, lo, 0) == mem
  {}

  /** A cursor behind the pool: the run does not fit. */
  lemma {:induction false} OutsidePool(mem: Pool, b: nat, k: nat, lo: nat, i: nat, n: nat)
    requires |mem| <= b && 8 * b + k == lo + i && k < 8 && i < n
    ensures !InPool(mem, lo, n)
  {}

  lemma {:induction false} ToggleOneMore(mem: Pool, lo: nat, n: nat)
    requires lo + n + 1 <= 8 * |mem|
    ensures InPool(mem, lo, n) && InPool(mem, lo, n + 1)
    ensures ToggleRun(mem, lo, n + 1) == ToggleBit(ToggleRun(mem, lo, n), lo + n)
  {}

  lemma {:induction false} ClearedFurther(mem: Pool, from: nat, mid: nat, to: nat)
    requires from <= mid <= to <= |mem|
    ensures Cleared(Cleared(mem, from, mid), mid, to) == Cleared(mem, from, to)
  {}

  /** Byte and bit of the cursor. */
  lemma {:induction false} Cursor(b: nat, k: nat)
    requires k < 8
    ensures (8 * b + k) / 8 == b && (8 * b + k) % 8 == k
  {}

  lemma {:induction false} CarveNext(ms: seq<MemoryMap>, kend: nat, i: nat)
    requires i < |ms|
    ensures var (m, end) := (ms[i], CarveEnd(ms[..i], kend));
            && Carve(ms[..i + 1], kend) == Carve(ms[..i], kend) + [Zone(m.start, m.start, PageCount(m), ZoneKind(m), end)]
            && CarveEnd(ms[..i + 1], kend) == end + PageCount(m) / 8 + 1 <= CarveEnd(ms, kend)
  {
    CarveSnoc(ms[..i], ms[i], kend);
    assert ms[..i + 1] == ms[..i] + [ms[i]];
    CarveGrows(ms, kend, i + 1);
  }

  lemma {:induction false} CarveGrows(ms: seq<MemoryMap>, kend: nat, i: nat)
    requires i <= |ms|
    ensures CarveEnd(ms[..i], kend) <= CarveEnd(ms, kend)
    decreases |ms| - i
  {
    if i < |ms| {
      CarveGrows(ms, kend, i + 1);
      CarveSnoc(ms[..i], ms[i], kend);
      assert ms[..i + 1] == ms[..i] + [ms[i]];
    } else {
      assert ms[..i] == ms;
    }
  }
}
