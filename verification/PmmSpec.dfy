/** What each call of the physical memory manager does to its zones and bitmaps, as functions on values.
    The class in Pmm.dfy is proved to compute these; PmmRuns.dfy proves what they promise. */
module PmmSpec {
  import opened Words
  import opened Bitmap

  // bits of a zone's type word
  const NORMAL: bv8 := 1
  const MMIO: bv8 := 2
  const LOWMEMORY: bv8 := 4

  /** The value that `MapPages` and `UnmapPages` return on failure. */
  const FAILED: uint32 := 0xffff_ffff

  /** One PMMZone; `bitmap` is the byte of the pool at which its bitmap starts. */
  datatype Zone = Zone(start: uint32, firstFree: uint32, pagecount: uint32, kind: bv8, bitmap: nat)

  datatype State = State(zones: seq<Zone>, mem: Pool)

  /** `Overrun`: the call would read or write beyond the pool. */
  datatype Answer = Returned(value: uint32) | Panic | Overrun

  // ----- layout

  predicate SameLayout(s: State, s': State) {
    && |s'.zones| == |s.zones|
    && |s'.mem| == |s.mem|
    && forall i | 0 <= i < |s.zones| :: s'.zones[i] == s.zones[i].(firstFree := s'.zones[i].firstFree)
  }

  /** Bytes of a zone's bitmap. */
  function BitmapBytes(z: Zone): nat {
    z.pagecount / 8 + 1
  }

  predicate ZoneFits(z: Zone, mem: Pool) {
    && z.bitmap + BitmapBytes(z) <= |mem|
    && z.start + PAGE * z.pagecount <= TWO32
  }

  predicate BitmapsApart(a: Zone, b: Zone) {
    a.bitmap + BitmapBytes(a) <= b.bitmap || b.bitmap + BitmapBytes(b) <= a.bitmap
  }

  /** Every bitmap lies in the pool with a bit for each page of its zone, no two bitmaps share a byte,
      and no zone passes the end of the address space. */
  predicate Laid(s: State) {
    && (forall i | 0 <= i < |s.zones| :: ZoneFits(s.zones[i], s.mem))
    && (forall i, j | 0 <= i < j < |s.zones| :: BitmapsApart(s.zones[i], s.zones[j]))
    && 8 * |s.mem| < TWO32
  }

  predicate Mapped(s: State, i: nat, page: nat)
    requires i < |s.zones| && 8 * s.zones[i].bitmap + page < 8 * |s.mem|
  {
    Bit(s.mem, 8 * s.zones[i].bitmap + page)
  }

  predicate FreePages(s: State, i: nat, page: nat, n: nat)
    requires i < |s.zones|
  {
    FreeRun(s.mem, 8 * s.zones[i].bitmap + page, n)
  }

  // ----- AllocatePhysical

  /** The page at which the search of a zone starts. */
  function HintPage(z: Zone): nat {
    Wrap(z.firstFree - z.start) / PAGE
  }

  /** The zone passes the three checks in front of the search. */
  predicate Open(z: Zone, n: uint32, t: bv8) {
    && z.kind & t != 0
    && z.firstFree < Wrap(z.start + z.pagecount * PAGE)
    && Wrap(HintPage(z) + n) < z.pagecount
  }

  function FirstOpen(zones: seq<Zone>, n: uint32, t: bv8, i: nat): (r: nat)
    requires i <= |zones|
    ensures i <= r <= |zones|
    ensures r < |zones| ==> Open(zones[r], n, t)
    ensures forall j | i <= j < r :: !Open(zones[j], n, t)
    decreases |zones| - i
  {
    if i == |zones| || Open(zones[i], n, t) then i else FirstOpen(zones, n, t, i + 1)
  }

  datatype Choice = Pages(zone: nat, page: nat) | NoZone | OffPool

  /** The run of pages that `AllocatePhysical` settles on. */
  function Choose(s: State, n: uint32, t: bv8): (c: Choice)
    ensures c.Pages? ==> c.zone < |s.zones| && FreePages(s, c.zone, c.page, n)
    ensures c.Pages? ==> HintPage(s.zones[c.zone]) <= c.page && Open(s.zones[c.zone], n, t)
  {
    var i := FirstOpen(s.zones, n, t, 0);
    if t & MMIO != 0 || i == |s.zones| then NoZone
    else
      var base := 8 * s.zones[i].bitmap;
      var q := FirstRun(s.mem, base + HintPage(s.zones[i]), n);
      if FreeRun(s.mem, q, n) then Pages(i, q - base) else OffPool
  }

  function PageAddress(z: Zone, page: nat): uint32 {
    Wrap(z.start + page * PAGE)
  }

  /** Maps a free run of a zone and moves the hint behind it. */
  function Take(s: State, i: nat, page: nat, n: uint32): (r: (State, Answer))
    requires i < |s.zones| && FreePages(s, i, page, n)
    ensures SameLayout(s, r.0)
  {
    var z := s.zones[i];
    var addr := PageAddress(z, page);
    (State(s.zones[i := z.(firstFree := Wrap(addr + n * PAGE))], SetRun(s.mem, 8 * z.bitmap + page, n)), Returned(addr))
  }

  function Allocate(s: State, n: uint32, t: bv8): (r: (State, Answer))
    ensures SameLayout(s, r.0)
  {
    match Choose(s, n, t)
    case NoZone => (s, Panic)
    case OffPool => (s, Overrun)
    case Pages(i, page) => Take(s, i, page, n)
  }

  // ----- MapPages and UnmapPages

  predicate InZone(z: Zone, addr: uint32) {
    z.start <= addr <= Wrap(z.start + PAGE * z.pagecount - 1)
  }

  function FindZone(zones: seq<Zone>, addr: uint32, i: nat): (r: nat)
    requires i <= |zones|
    ensures i <= r <= |zones|
    ensures r < |zones| ==> InZone(zones[r], addr)
    ensures forall j | i <= j < r :: !InZone(zones[j], addr)
    decreases |zones| - i
  {
    if i == |zones| || InZone(zones[i], addr) then i else FindZone(zones, addr, i + 1)
  }

  function PageOf(z: Zone, addr: uint32): nat {
    Wrap(addr - z.start) / PAGE
  }

  datatype Scan = Free | Taken | Outside

  /** What `CheckIfPagesFree` finds in n bits from `lo`: a set bit before the pool ends counts as taken. */
  function ScanRun(mem: Pool, lo: nat, n: nat): Scan {
    if FreeRun(mem, lo, n) then Free
    else if exists i | lo <= i < lo + n && i < 8 * |mem| :: Bit(mem, i) then Taken
    else Outside
  }

  function MapPages(s: State, addr: uint32, n: uint32): (r: (State, Answer))
    ensures SameLayout(s, r.0)
  {
    var i := FindZone(s.zones, addr, 0);
    if i == |s.zones| || addr < s.zones[i].firstFree then (s, Returned(FAILED))
    else
      var z := s.zones[i];
      var lo := 8 * z.bitmap + PageOf(z, addr);
      match ScanRun(s.mem, lo, n)
      case Taken => (s, Returned(FAILED))
      case Outside => (s, Overrun)
      case Free =>
        var hint := if addr == z.firstFree then Wrap(z.firstFree + n * PAGE) else z.firstFree;
        (State(s.zones[i := z.(firstFree := hint)], SetRun(s.mem, lo, n)), Returned(addr))
  }

  function UnmapPages(s: State, addr: uint32, n: uint32): (r: (State, Answer))
    ensures SameLayout(s, r.0)
  {
    var i := FindZone(s.zones, addr, 0);
    if i == |s.zones| then (s, Returned(FAILED))
    else
      var z := s.zones[i];
      var lo := 8 * z.bitmap + PageOf(z, addr);
      var hint := if addr < z.firstFree then addr - addr % PAGE else z.firstFree;
      if !InPool(s.mem, lo, n) then (s, Overrun)
      else (State(s.zones[i := z.(firstFree := hint)], ToggleRun(s.mem, lo, n)), Returned(n))
  }

  // ----- first fit

  /** A zone that ends at the very top of memory is not below it: its end wraps to 0. */
  predicate BelowTop(z: Zone) {
    z.start + PAGE * z.pagecount < TWO32
  }

  /** A caller can see this in the zone before the call: n free pages in a row, at or above the hint. */
  predicate RoomInZone(s: State, i: nat, n: nat)
    requires i < |s.zones| && ZoneFits(s.zones[i], s.mem)
  {
    var z := s.zones[i];
    exists q | HintPage(z) <= q <= z.pagecount && q + n <= z.pagecount :: FreePages(s, i, q, n)
  }

  /** The same, with the run ending before the last page of the zone. */
  predicate RoomBeforeLast(s: State, i: nat, n: nat)
    requires i < |s.zones| && ZoneFits(s.zones[i], s.mem)
  {
    var z := s.zones[i];
    exists q | HintPage(z) <= q < z.pagecount && q + n < z.pagecount :: FreePages(s, i, q, n)
  }

  /** A zone of the wanted type with a free run that ends before its last page. */
  predicate CanServe(s: State, i: nat, n: nat, t: bv8)
    requires i < |s.zones| && ZoneFits(s.zones[i], s.mem)
  {
    s.zones[i].kind & t != 0 && RoomBeforeLast(s, i, n)
  }

  /** AllocatePhysical takes the lowest free run at or above the hint of the first open zone and hands out pages of
      that zone if and only if the zone has room. Without room the search does not move on to the next zone: it
      leaves the bitmap. If it panics, no zone that could serve the request lies below the top of memory. */
  lemma {:induction false} AllocateFirstFit(s: State, n: uint32, t: bv8)
    requires Laid(s)
    ensures Choose(s, n, t).NoZone? <==> t & MMIO != 0 || forall i | 0 <= i < |s.zones| :: !Open(s.zones[i], n, t)
    ensures Choose(s, n, t).NoZone? && t & MMIO == 0 ==>
              forall i | 0 <= i < |s.zones| && BelowTop(s.zones[i]) :: !CanServe(s, i, n, t)
    ensures Choose(s, n, t).Pages? ==>
              var c := Choose(s, n, t);
              var z := s.zones[c.zone];
              && (forall j | 0 <= j < c.zone :: !Open(s.zones[j], n, t))
              && (forall q | HintPage(z) <= q < c.page :: !FreePages(s, c.zone, q, n))
              && (c.page + n <= z.pagecount <==> RoomInZone(s, c.zone, n))
    ensures Choose(s, n, t).OffPool? ==> !RoomInZone(s, FirstOpen(s.zones, n, t, 0), n)
  {
    var i := FirstOpen(s.zones, n, t, 0);
    if i < |s.zones| && t & MMIO == 0 {
      FirstRunIsLowest(s, i, n);
    }
    forall j | 0 <= j < |s.zones| && BelowTop(s.zones[j]) && CanServe(s, j, n, t) ensures Open(s.zones[j], n, t) {
      ServingZoneIsOpen(s, j, n, t);
    }
  }

  /** The search of a zone stops at or before every free run. */
  lemma {:induction false} FirstRunIsLowest(s: State, i: nat, n: nat)
    requires Laid(s) && i < |s.zones|
    ensures var z := s.zones[i];
            var base := 8 * z.bitmap;
            var r := FirstRun(s.mem, base + HintPage(z), n);
            && (RoomInZone(s, i, n) ==> FreeRun(s.mem, r, n) && r + n <= base + z.pagecount)
            && (RoomBeforeLast(s, i, n) ==> FreeRun(s.mem, r, n) && r + n < base + z.pagecount)
            && (FreeRun(s.mem, r, n) && r + n < base + z.pagecount ==> RoomBeforeLast(s, i, n))
  {
    var z := s.zones[i];
    var base := 8 * z.bitmap;
    var r := FirstRun(s.mem, base + HintPage(z), n);
    assert ZoneFits(z, s.mem);
    hide FreeRun;
    if RoomInZone(s, i, n) {
      var q :| HintPage(z) <= q <= z.pagecount && q + n <= z.pagecount && FreePages(s, i, q, n);
      LowestRun(s.mem, base + HintPage(z), n, base + q);
    }
    if RoomBeforeLast(s, i, n) {
      var q :| HintPage(z) <= q < z.pagecount && q + n < z.pagecount && FreePages(s, i, q, n);
      LowestRun(s.mem, base + HintPage(z), n, base + q);
    }
    if FreeRun(s.mem, r, n) && r + n < base + z.pagecount {
      assert FreePages(s, i, r - base, n);
    }
  }

  lemma {:induction false} LowestRun(mem: Pool, lo: nat, n: nat, q: nat)
    requires lo <= q && FreeRun(mem, q, n)
    ensures FirstRun(mem, lo, n) <= q && FreeRun(mem, FirstRun(mem, lo, n), n)
  {}

  /** A zone that can serve a request passes the three checks, unless it ends at the top of memory. */
  lemma {:induction false} ServingZoneIsOpen(s: State, i: nat, n: uint32, t: bv8)
    requires Laid(s) && i < |s.zones| && CanServe(s, i, n, t)
    ensures Open(s.zones[i], n, t) <==> BelowTop(s.zones[i])
  {
    var z := s.zones[i];
    assert ZoneFits(z, s.mem);
    hide FreeRun;
    assert HintPage(z) + n < z.pagecount;
    HintBehindPages(z);
  }

  /** When a zone is searched: it has a type asked for, does not end at the top of memory, its hint is inside it, and
      fewer pages are asked for than lie behind the hint, or so many that the sum wraps. */
  lemma {:induction false} OpenIff(z: Zone, n: uint32, t: bv8)
    requires z.start + 4096 * z.pagecount <= TWO32 && z.start <= z.firstFree
    ensures var before := (z.firstFree - z.start) / 4096;
            Open(z, n, t)
            <==> && z.kind & t != 0 && z.start + 4096 * z.pagecount < TWO32
                 && z.firstFree < z.start + 4096 * z.pagecount
                 && (before + n < z.pagecount || TWO32 <= before + n < TWO32 + z.pagecount)
  {
    hide Wrap, HintPage;
    HintInPages(z);
    EndOfZone(z);
    SumWraps(HintPage(z), n);
  }

  lemma {:induction false} HintInPages(z: Zone)
    requires z.start <= z.firstFree
    ensures HintPage(z) == (z.firstFree - z.start) / 4096 < TWO32
  {}

  lemma {:induction false} EndOfZone(z: Zone)
    requires z.start + PAGE * z.pagecount <= TWO32
    ensures Wrap(z.start + z.pagecount * PAGE) == if BelowTop(z) then z.start + PAGE * z.pagecount else 0
  {}

  lemma {:induction false} SumWraps(a: nat, n: uint32)
    requires a < TWO32
    ensures Wrap(a + n) == if a + n < TWO32 then a + n else a + n - TWO32
  {}

  lemma {:induction false} HintBehindPages(z: Zone)
    requires z.start + PAGE * z.pagecount <= TWO32 && HintPage(z) < z.pagecount
    ensures z.start <= z.firstFree < z.start + PAGE * z.pagecount
  {}

  /** What a request is promised: the lowest free run at or above the hint, ending before the last page, of the first
      zone of the type that has one. */
  function Promised(s: State, n: uint32, t: bv8, i: nat): Choice
    requires Laid(s) && i <= |s.zones|
    decreases |s.zones| - i
  {
    if t & MMIO != 0 || i == |s.zones| then NoZone
    else if CanServe(s, i, n, t) then
      Pages(i, FirstRun(s.mem, 8 * s.zones[i].bitmap + HintPage(s.zones[i]), n) - 8 * s.zones[i].bitmap)
    else Promised(s, n, t, i + 1)
  }

  /** First fit: pages are promised in the first zone that can serve the request, as the lowest such run; nothing is
      promised exactly when no zone can. */
  lemma {:induction false} PromisedIsFirstFit(s: State, n: uint32, t: bv8, i: nat)
    requires Laid(s) && i <= |s.zones| && t & MMIO == 0
    ensures Promised(s, n, t, i).NoZone? <==> forall j | i <= j < |s.zones| :: !CanServe(s, j, n, t)
    ensures !Promised(s, n, t, i).OffPool?
    ensures Promised(s, n, t, i).Pages? ==>
              var c := Promised(s, n, t, i);
              && i <= c.zone < |s.zones| && CanServe(s, c.zone, n, t)
              && (forall j | i <= j < c.zone :: !CanServe(s, j, n, t))
              && HintPage(s.zones[c.zone]) <= c.page && c.page + n < s.zones[c.zone].pagecount
              && FreePages(s, c.zone, c.page, n)
              && (forall q | HintPage(s.zones[c.zone]) <= q < c.page :: !FreePages(s, c.zone, q, n))
    decreases |s.zones| - i
  {
    if i < |s.zones| {
      if CanServe(s, i, n, t) {
        FirstRunIsLowest(s, i, n);
      } else {
        PromisedIsFirstFit(s, n, t, i + 1);
      }
    }
  }

  /** The code keeps the promise exactly when the first open zone, if there is one, has room before its last page,
      and no zone in front of it that ends at the top of memory could have served the request. */
  lemma {:induction false} AllocateMeetsPromiseIff(s: State, n: uint32, t: bv8)
    requires Laid(s)
    ensures var i := FirstOpen(s.zones, n, t, 0);
            Choose(s, n, t) == Promised(s, n, t, 0)
            <==> (t & MMIO != 0
                  || ((i < |s.zones| ==> RoomBeforeLast(s, i, n))
                      && forall j | 0 <= j < i && !BelowTop(s.zones[j]) :: !CanServe(s, j, n, t)))
  {
    var i := FirstOpen(s.zones, n, t, 0);
    if t & MMIO == 0 {
      hide Choose, CanServe, RoomBeforeLast, Promised, Open;
      if Choose(s, n, t) == Promised(s, n, t, 0) {
        PromiseKeptOnly(s, n, t);
      }
      if (i < |s.zones| ==> RoomBeforeLast(s, i, n)) &&
         forall j | 0 <= j < i && !BelowTop(s.zones[j]) :: !CanServe(s, j, n, t)
      {
        PromiseKept(s, n, t);
      }
    }
  }

  lemma {:induction false} PromiseKeptOnly(s: State, n: uint32, t: bv8)
    requires Laid(s) && t & MMIO == 0 && Choose(s, n, t) == Promised(s, n, t, 0)
    ensures var i := FirstOpen(s.zones, n, t, 0);
            (i < |s.zones| ==> RoomBeforeLast(s, i, n)) && forall j | 0 <= j < i :: !CanServe(s, j, n, t)
  {
    PromisedIsFirstFit(s, n, t, 0);
    hide Promised, RoomBeforeLast, Open;
  }

  lemma {:induction false} PromiseKept(s: State, n: uint32, t: bv8)
    requires Laid(s) && t & MMIO == 0
    requires var i := FirstOpen(s.zones, n, t, 0);
             && (i < |s.zones| ==> RoomBeforeLast(s, i, n))
             && forall j | 0 <= j < i && !BelowTop(s.zones[j]) :: !CanServe(s, j, n, t)
    ensures Choose(s, n, t) == Promised(s, n, t, 0)
  {
    var i := FirstOpen(s.zones, n, t, 0);
    forall j | 0 <= j < i ensures !CanServe(s, j, n, t) {
      if CanServe(s, j, n, t) {
        ServingZoneIsOpen(s, j, n, t);
      }
    }
    PromisedBehind(s, n, t, 0, i);
    if i < |s.zones| {
      OpenKind(s.zones[i], n, t);
      FirstRunIsLowest(s, i, n);
    }
  }

  /** Zones that cannot serve the request do not matter. */
  lemma {:induction false} PromisedBehind(s: State, n: uint32, t: bv8, k: nat, i: nat)
    requires Laid(s) && k <= i <= |s.zones| && forall j | k <= j < i :: !CanServe(s, j, n, t)
    ensures Promised(s, n, t, k) == Promised(s, n, t, i)
    decreases i - k
  {
    if k < i {
      PromisedBehind(s, n, t, k + 1, i);
    }
  }

  lemma {:induction false} OpenKind(z: Zone, n: uint32, t: bv8)
    requires Open(z, n, t)
    ensures z.kind & t != 0
  {}

  /** So a panic is right exactly when no zone that ends at the top of memory could serve the request. */
  lemma {:induction false} PanicIsRightIff(s: State, n: uint32, t: bv8)
    requires Laid(s) && t & MMIO == 0 && Choose(s, n, t).NoZone?
    ensures (forall i | 0 <= i < |s.zones| :: !CanServe(s, i, n, t))
            <==> forall i | 0 <= i < |s.zones| && !BelowTop(s.zones[i]) :: !CanServe(s, i, n, t)
  {
    AllocateFirstFit(s, n, t);
  }

  /** Four free pages at the top of memory: a request for one of them panics. */
  lemma {:induction false} TopZoneIsNeverUsed()
    ensures var s := State([Zone(0xffff_c000, 0xffff_c000, 4, NORMAL, 0)], [0]);
            Laid(s) && CanServe(s, 0, 1, NORMAL) && Allocate(s, 1, NORMAL) == (s, Panic)
  {
    var s := State([Zone(0xffff_c000, 0xffff_c000, 4, NORMAL, 0)], [0]);
    assert ZoneFits(s.zones[0], s.mem);
    assert !Bit(s.mem, 0);
    assert FreePages(s, 0, 0, 1);
  }

  /** The comparison in the search keeps no page back: the run handed out ends at the very end of its zone exactly
      when the zone has room there and none before. */
  lemma {:induction false} LastPageIff(s: State, n: uint32, t: bv8)
    requires Laid(s) && Choose(s, n, t).Pages?
    ensures var c := Choose(s, n, t);
            c.page + n == s.zones[c.zone].pagecount <==> RoomInZone(s, c.zone, n) && !RoomBeforeLast(s, c.zone, n)
  {
    var c := Choose(s, n, t);
    AllocateFirstFit(s, n, t);
    FirstRunIsLowest(s, c.zone, n);
  }
}
