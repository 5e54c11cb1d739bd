/** What kind of memory a request is given: from the memory map of the boot loader through any run of calls. */
module PmmKinds {
  import opened Words
  import opened Bitmap
  import opened PmmSpec
  import opened PmmRuns
  import opened PmmFrames
  import opened PmmBoot

  /** The byte lies in a whole page of the entry. */
  predicate InEntry(m: MemoryMap, x: int) {
    m.start <= x < m.start + (m.len - m.len % 4096)
  }

  /** The boot loader reports the byte as available. */
  predicate Available(ms: seq<MemoryMap>, x: int) {
    exists i | 0 <= i < |ms| :: ms[i].kind == 1 && InEntry(ms[i], x)
  }

  /** The entry ends below one megabyte, with its end taken in 32 bits. */
  predicate EndsLow(m: MemoryMap) {
    m.start + m.len < 0x10_0000 || 0x1_0000_0000 <= m.start + m.len < 0x1_0010_0000
  }

  /** The types of a zone: normal memory is available and does not end below one megabyte; low memory does, available or
      not; everything that is not available is MMIO. */
  lemma {:induction false} TypesOfEntry(m: MemoryMap)
    ensures ZoneKind(m) & 1 != 0 <==> m.kind == 1 && !EndsLow(m)
    ensures ZoneKind(m) & 4 != 0 <==> EndsLow(m)
    ensures ZoneKind(m) & 2 != 0 <==> m.kind != 1
  {
    assert 1 as bv8 & 1 == 1 && 4 as bv8 & 1 == 0 && 2 as bv8 & 1 == 0 && 6 as bv8 & 1 == 0;
    assert 1 as bv8 & 4 == 0 && 4 as bv8 & 4 == 4 && 2 as bv8 & 4 == 0 && 6 as bv8 & 4 == 4;
    assert 1 as bv8 & 2 == 0 && 4 as bv8 & 2 == 0 && 2 as bv8 & 2 == 2 && 6 as bv8 & 2 == 2;
  }

  /** The state after some calls, from the zones of a memory map. */
  function After(ms: seq<MemoryMap>, mem: Pool, ops: seq<Op>): State {
    Run(State(Carve(ms, ZONE_BYTES * |ms|), mem), ops)
  }

  /** A map for which the constructor's carving works. */
  predicate Carvable(ms: seq<MemoryMap>, mem: Pool) {
    GoodMap(ms) && CarveEnd(ms, ZONE_BYTES * |ms|) <= |mem| && 8 * |mem| < TWO32
  }

  /** Zones keep the place, the size and the type their entry gave them: the whole pages of the entry, or one page if the
      entry is smaller than a page and not empty. */
  lemma {:induction false} ZoneOfEntry(ms: seq<MemoryMap>, mem: Pool, ops: seq<Op>)
    requires Carvable(ms, mem)
    ensures var s := After(ms, mem, ops);
            && Sound(s) && |s.zones| == |ms|
            && forall i | 0 <= i < |ms| ::
                 && s.zones[i].start == ms[i].start && s.zones[i].pagecount == PageCount(ms[i])
                 && s.zones[i].kind == ZoneKind(ms[i])
                 && (0 < ms[i].len < 4096 ==> s.zones[i].pagecount == 1)
                 && (ms[i].len >= 4096 ==> 4096 * s.zones[i].pagecount == ms[i].len - ms[i].len % 4096)
  {
    hide Carve, CarveEnd, GoodMap, Run, ZoneKind, PageCount, Sound;
    var s0 := State(Carve(ms, ZONE_BYTES * |ms|), mem);
    FreshIsSound(ms, mem);
    CarvedApart(ms, ZONE_BYTES * |ms|);
    SoundKept(s0, Run(s0, ops));
    forall i | 0 <= i < |ms|
      ensures 0 < ms[i].len < 4096 ==> PageCount(ms[i]) == 1
      ensures ms[i].len >= 4096 ==> 4096 * PageCount(ms[i]) == ms[i].len - ms[i].len % 4096
    {
      PagesOfLength(ms[i]);
    }
  }

  lemma {:induction false} PagesOfLength(m: MemoryMap)
    ensures 0 < m.len < 4096 ==> PageCount(m) == 1
    ensures m.len >= 4096 ==> 4096 * PageCount(m) == m.len - m.len % 4096
  {}

  /** Pages handed out inside a zone are whole pages of its entry: an entry smaller than a page has one page in its zone,
      which is never handed out. */
  lemma {:induction false} PagesOfEntry(m: MemoryMap, z: Zone, page: nat, n: uint32, x: int)
    requires z.start == m.start && z.pagecount == PageCount(m) && z.start + PAGE * z.pagecount <= TWO32
    requires 0 < n && page + n <= z.pagecount && Wrap(HintPage(z) + n) < z.pagecount && HintPage(z) <= page
    requires PageAddress(z, page) <= x < PageAddress(z, page) + PAGE * n
    ensures InEntry(m, x)
  {}

  /** What a granted request gets: whole pages of one entry, and that entry's zone has a type asked for. */
  lemma {:induction false} GrantedInEntry(ms: seq<MemoryMap>, mem: Pool, ops: seq<Op>, n: uint32, t: bv8, x: int)
    requires Carvable(ms, mem)
    ensures var s := After(ms, mem, ops);
            && Laid(s)
            && (AllocateFits(s, n, t) ==>
                  match PmmSpec.Allocate(s, n, t).1
                  case Returned(a) =>
                    var i := FirstOpen(s.zones, n, t, 0);
                    i < |ms| && ZoneKind(ms[i]) & t != 0 && (a <= x < a + PAGE * n ==> InEntry(ms[i], x))
                  case _ => true)
  {
    hide Carvable, After, ZoneKind, PageCount, AllocateFits, FreeRun, RoomInZone, HintPage, ZonesApart, BitmapsApart, InEntry;
    ZoneOfEntry(ms, mem, ops);
    var s := After(ms, mem, ops);
    var c := Choose(s, n, t);
    if AllocateFits(s, n, t) && c.Pages? {
      AllocatedBytes(s, n, t, x);
      var z := s.zones[c.zone];
      assert ZoneFits(z, s.mem);
      if PageAddress(z, c.page) <= x < PageAddress(z, c.page) + PAGE * n {
        PagesOfEntry(ms[c.zone], z, c.page, n, x);
      }
    }
  }

  /** Normal memory is available memory: from any map and after any run of calls, every byte that a request of type
      NORMAL is given inside its zone lies in an entry reported as available that does not end below one megabyte. */
  lemma {:induction false} NormalMemoryIsAvailable(ms: seq<MemoryMap>, mem: Pool, ops: seq<Op>, n: uint32, x: int)
    requires Carvable(ms, mem)
    ensures var s := After(ms, mem, ops);
            && Laid(s)
            && (AllocateFits(s, n, 1) ==>
                  match PmmSpec.Allocate(s, n, 1).1
                  case Returned(a) =>
                    a <= x < a + 4096 * n ==>
                      exists i | 0 <= i < |ms| ::
                        ms[i].kind == 1 && InEntry(ms[i], x) && ms[i].start + ms[i].len >= 0x10_0000
                  case _ => true)
  {
    hide Carvable, After, ZoneKind, AllocateFits, PmmSpec.Allocate, Laid, InEntry;
    GrantedInEntry(ms, mem, ops, n, 1, x);
    var i := FirstOpen(After(ms, mem, ops).zones, n, 1, 0);
    if i < |ms| {
      TypesOfEntry(ms[i]);
    }
  }

  /** Low memory: every byte lies in an entry that ends below one megabyte, or whose end wraps; and all of it is available
      if and only if the first open zone of low memory comes from an available entry. */
  lemma {:induction false} LowMemoryIsAvailableIff(ms: seq<MemoryMap>, mem: Pool, ops: seq<Op>, n: uint32)
    requires Carvable(ms, mem) && n > 0
    ensures var s := After(ms, mem, ops);
            && Laid(s)
            && (AllocateFits(s, n, 4) ==>
                  match PmmSpec.Allocate(s, n, 4).1
                  case Returned(a) =>
                    var i := FirstOpen(s.zones, n, 4, 0);
                    && i < |ms| && EndsLow(ms[i])
                    && (forall x | a <= x < a + 4096 * n :: InEntry(ms[i], x))
                    && ((forall x | a <= x < a + 4096 * n :: Available(ms, x)) <==> ms[i].kind == 1)
                  case _ => true)
  {
    hide Carvable, After, ZoneKind, AllocateFits, PmmSpec.Allocate, Laid, InEntry, EndsLow;
    var s := After(ms, mem, ops);
    var i := FirstOpen(s.zones, n, 4, 0);
    GrantedInEntry(ms, mem, ops, n, 4, 0);
    if AllocateFits(s, n, 4) && PmmSpec.Allocate(s, n, 4).1.Returned? {
      var a := PmmSpec.Allocate(s, n, 4).1.value;
      TypesOfEntry(ms[i]);
      forall x | a <= x < a + 4096 * n ensures InEntry(ms[i], x) {
        GrantedInEntry(ms, mem, ops, n, 4, x);
      }
      if Available(ms, a) {
        var j :| 0 <= j < |ms| && ms[j].kind == 1 && InEntry(ms[j], a);
        OneEntry(ms, mem, i, j, a);
      }
    }
  }

  /** A byte lies in the whole pages of at most one entry. */
  lemma {:induction false} OneEntry(ms: seq<MemoryMap>, mem: Pool, i: nat, j: nat, x: int)
    requires Carvable(ms, mem) && i < |ms| && j < |ms| && InEntry(ms[i], x) && InEntry(ms[j], x)
    ensures i == j
  {
    hide CarveEnd;
  }

  /** The first request to a map of one entry gets the start of the entry. */
  lemma {:induction false} FirstRequest(m: MemoryMap, mem: Pool, t: bv8)
    requires Carvable([m], mem) && BitmapsClear(Carve([m], ZONE_BYTES), mem)
    requires ZoneKind(m) & t != 0 && t & MMIO == 0 && PageCount(m) >= 2 && m.start + PAGE * PageCount(m) < TWO32
    ensures PmmSpec.Allocate(After([m], mem, []), 1, t).1 == Returned(m.start)
  {
    hide ZoneKind, PageCount, CarveEnd, BitmapsClear, GoodMap, Laid, Exact, PmmSpec.Allocate;
    FreshIsExact([m], mem);
    CarvedApart([m], ZONE_BYTES);
    FirstOfFresh(After([m], mem, []), t);
  }

  lemma {:induction false} FirstOfFresh(s: State, t: bv8)
    requires Laid(s) && Exact(s, []) && |s.zones| == 1 && s.zones[0].start == s.zones[0].firstFree
    requires s.zones[0].kind & t != 0 && t & MMIO == 0 && s.zones[0].pagecount >= 2 && BelowTop(s.zones[0])
    ensures PmmSpec.Allocate(s, 1, t).1 == Returned(s.zones[0].start)
  {
    hide FreeRun, Exact, SetRun, Open, FirstRun, HintPage;
    var z := s.zones[0];
    assert ZoneFits(z, s.mem);
    FirstPageFree(s);
    OpenAtStart(z, t);
    FirstRunHere(s.mem, 8 * z.bitmap, 1);
    assert Choose(s, 1, t) == Pages(0, 0);
  }

  lemma {:induction false} OpenAtStart(z: Zone, t: bv8)
    requires z.start == z.firstFree && z.kind & t != 0 && z.pagecount >= 2 && BelowTop(z)
    ensures Open(z, 1, t) && HintPage(z) == 0
  {
    hide Wrap;
    NoWrap(z.firstFree - z.start);
    NoWrap(z.start + z.pagecount * PAGE);
    NoWrap(HintPage(z) + 1);
  }

  lemma {:induction false} FirstPageFree(s: State)
    requires Laid(s) && Exact(s, []) && |s.zones| > 0 && s.zones[0].pagecount > 0
    ensures FreePages(s, 0, 0, 1)
  {
    assert ZoneFits(s.zones[0], s.mem);
    assert Mapped(s, 0, 0) <==> Covered([], 0, 0);
  }

  lemma {:induction false} FirstRunHere(mem: Pool, lo: nat, n: nat)
    requires FreeRun(mem, lo, n)
    ensures FirstRun(mem, lo, n) == lo
  {}

  /** Low memory that is not available: a reserved entry below one megabyte has both types, and a request for low memory
      gets its first page. */
  lemma {:induction false} LowRequestGetsReserved(mem: Pool)
    requires var m := MemoryMap(0x8_0000, 0x1_0000, 2);
             Carvable([m], mem) && BitmapsClear(Carve([m], ZONE_BYTES), mem)
    ensures PmmSpec.Allocate(After([MemoryMap(0x8_0000, 0x1_0000, 2)], mem, []), 1, 4).1 == Returned(0x8_0000)
    ensures !Available([MemoryMap(0x8_0000, 0x1_0000, 2)], 0x8_0000)
  {
    hide Carvable, BitmapsClear, Carve, After;
    TypesOfEntry(MemoryMap(0x8_0000, 0x1_0000, 2));
    FirstRequest(MemoryMap(0x8_0000, 0x1_0000, 2), mem, 4);
  }

  /** Low memory that is not low: the end of an entry that reaches the top of memory wraps to 0. */
  lemma {:induction false} LowRequestGetsHigh(mem: Pool)
    requires var m := MemoryMap(0xfff0_0800, 0xf_f800, 1);
             Carvable([m], mem) && BitmapsClear(Carve([m], ZONE_BYTES), mem)
    ensures PmmSpec.Allocate(After([MemoryMap(0xfff0_0800, 0xf_f800, 1)], mem, []), 1, 4).1 == Returned(0xfff0_0800)
  {
    hide Carvable, BitmapsClear, Carve, After;
    TypesOfEntry(MemoryMap(0xfff0_0800, 0xf_f800, 1));
    FirstRequest(MemoryMap(0xfff0_0800, 0xf_f800, 1), mem, 4);
  }
}
