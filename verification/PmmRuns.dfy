/** Safety of the physical memory manager over whole runs of calls. */
module PmmRuns {
  import opened Words
  import opened Bitmap
  import opened Collections
  import opened PmmSpec

  datatype Op = Allocate(n: uint32, t: bv8) | Map(addr: uint32, n: uint32) | Unmap(addr: uint32, n: uint32)

  function Step(s: State, op: Op): (r: (State, Answer))
    ensures SameLayout(s, r.0)
  {
    match op
    case Allocate(n, t) => PmmSpec.Allocate(s, n, t)
    case Map(addr, n) => PmmSpec.MapPages(s, addr, n)
    case Unmap(addr, n) => PmmSpec.UnmapPages(s, addr, n)
  }

  /** Pages [page, page+count) of a zone, given to one caller and not yet given back. */
  datatype Range = Range(zone: nat, page: nat, count: nat)

  predicate Holds(r: Range, i: nat, p: nat) {
    r.zone == i && r.page <= p < r.page + r.count
  }

  predicate Covered(live: seq<Range>, i: nat, p: nat) {
    exists a | 0 <= a < |live| :: Holds(live[a], i, p)
  }

  ghost predicate Apart(a: Range, b: Range) {
    forall i, p :: !(Holds(a, i, p) && Holds(b, i, p))
  }

  /** The bitmaps are exactly the union of the live ranges, and no page is in two of them. */
  ghost predicate Exact(s: State, live: seq<Range>)
    requires Laid(s)
  {
    && (forall a | 0 <= a < |live| ::
          live[a].zone < |s.zones| && live[a].page + live[a].count <= s.zones[live[a].zone].pagecount)
    && (forall a, b | 0 <= a < b < |live| :: Apart(live[a], live[b]))
    && (forall i: nat, p: nat | i < |s.zones| && p < s.zones[i].pagecount :: Mapped(s, i, p) <==> Covered(live, i, p))
  }

  /** The zone that AllocatePhysical settles on, if there is one, has room for the request. */
  predicate AllocateFits(s: State, n: uint32, t: bv8)
    requires Laid(s)
  {
    var i := FirstOpen(s.zones, n, t, 0);
    t & MMIO != 0 || i == |s.zones| || RoomInZone(s, i, n)
  }

  /** The zone of the address, if there is one, reaches as far as the n pages from the address on. */
  predicate PagesFit(s: State, addr: uint32, n: uint32) {
    var i := FindZone(s.zones, addr, 0);
    i < |s.zones| ==> PageOf(s.zones[i], addr) + n <= s.zones[i].pagecount
  }

  /** MapPages gets as far as the bitmap. */
  predicate AtOrAboveHint(s: State, addr: uint32) {
    var i := FindZone(s.zones, addr, 0);
    i < |s.zones| && s.zones[i].firstFree <= addr
  }

  /** What has to be true before a call for it to stay within its zone: a caller can check each case. */
  predicate Proper(s: State, live: seq<Range>, op: Op)
    requires Laid(s)
  {
    match op
    case Allocate(n, t) => AllocateFits(s, n, t)
    case Map(addr, n) => AtOrAboveHint(s, addr) ==> PagesFit(s, addr, n)
    case Unmap(addr, n) =>
      var i := FindZone(s.zones, addr, 0);
      i < |s.zones| ==> Range(i, PageOf(s.zones[i], addr), n) in live
  }

  predicate MapSucceeds(s: State, addr: uint32, n: uint32) {
    var i := FindZone(s.zones, addr, 0);
    AtOrAboveHint(s, addr) && FreePages(s, i, PageOf(s.zones[i], addr), n)
  }

  function Without(live: seq<Range>, r: Range): seq<Range> {
    if live == [] then [] else if live[0] == r then live[1..] else [live[0]] + Without(live[1..], r)
  }

  /** The ranges that are live after the call. */
  function Track(s: State, live: seq<Range>, op: Op): seq<Range> {
    match op
    case Allocate(n, t) =>
      var c := Choose(s, n, t);
      if c.Pages? then live + [Range(c.zone, c.page, n)] else live
    case Map(addr, n) =>
      var i := FindZone(s.zones, addr, 0);
      if MapSucceeds(s, addr, n) then live + [Range(i, PageOf(s.zones[i], addr), n)] else live
    case Unmap(addr, n) =>
      var i := FindZone(s.zones, addr, 0);
      if i < |s.zones| then Without(live, Range(i, PageOf(s.zones[i], addr), n)) else live
  }

  lemma {:induction false} LaidKept(s: State, s': State)
    requires Laid(s) && SameLayout(s, s')
    ensures Laid(s')
  {
    forall i, j | 0 <= i < j < |s'.zones| ensures BitmapsApart(s'.zones[i], s'.zones[j]) {
      assert BitmapsApart(s.zones[i], s.zones[j]);
    }
    forall i | 0 <= i < |s'.zones| ensures ZoneFits(s'.zones[i], s'.mem) {
      assert ZoneFits(s.zones[i], s.mem);
    }
  }

  /** A run of bits inside one zone meets the bits of no other zone. */
  lemma {:induction false} RunInOneZone(s: State, i: nat, page: nat, n: nat, j: nat, p: nat)
    requires Laid(s) && i < |s.zones| && j < |s.zones|
    requires page + n <= s.zones[i].pagecount && p < s.zones[j].pagecount
    ensures 8 * s.zones[j].bitmap + p < 8 * |s.mem|
    ensures 8 * s.zones[i].bitmap + page + n <= 8 * |s.mem|
    ensures var lo := 8 * s.zones[i].bitmap + page;
            lo <= 8 * s.zones[j].bitmap + p < lo + n <==> j == i && page <= p < page + n
  {
    assert ZoneFits(s.zones[i], s.mem) && ZoneFits(s.zones[j], s.mem);
    if i < j {
      assert BitmapsApart(s.zones[i], s.zones[j]);
    } else if j < i {
      assert BitmapsApart(s.zones[j], s.zones[i]);
    }
  }

  lemma {:induction false} SetOnePage(s: State, s': State, i: nat, page: nat, n: nat, j: nat, p: nat)
    requires Laid(s) && SameLayout(s, s') && i < |s.zones| && ZoneFits(s.zones[i], s.mem)
    requires page + n <= s.zones[i].pagecount
    requires s'.mem == SetRun(s.mem, 8 * s.zones[i].bitmap + page, n)
    requires j < |s.zones| && p < s.zones[j].pagecount && ZoneFits(s.zones[j], s.mem)
    ensures Mapped(s', j, p) <==> Mapped(s, j, p) || Holds(Range(i, page, n), j, p)
  {
    hide Laid, SetRun;
    RunInOneZone(s, i, page, n, j, p);
    SetRunBits(s.mem, 8 * s.zones[i].bitmap + page, n);
  }

  /** Setting a free run inside one zone maps exactly its pages. */
  lemma {:induction false} SetInZone(s: State, s': State, i: nat, page: nat, n: nat)
    requires Laid(s) && SameLayout(s, s') && i < |s.zones|
    requires page + n <= s.zones[i].pagecount && FreePages(s, i, page, n)
    requires s'.mem == SetRun(s.mem, 8 * s.zones[i].bitmap + page, n)
    ensures Laid(s')
    ensures forall j: nat, p: nat | j < |s.zones| && p < s.zones[j].pagecount ::
              Mapped(s', j, p) <==> Mapped(s, j, p) || Holds(Range(i, page, n), j, p)
    ensures forall p | page <= p < page + n :: !Mapped(s, i, p)
  {
    LaidKept(s, s');
    forall j: nat, p: nat | j < |s.zones| && p < s.zones[j].pagecount
      ensures Mapped(s', j, p) <==> Mapped(s, j, p) || Holds(Range(i, page, n), j, p)
    {
      SetOnePage(s, s', i, page, n, j, p);
    }
    forall p | page <= p < page + n ensures !Mapped(s, i, p) {
      RunInOneZone(s, i, page, n, i, p);
    }
  }

  lemma {:induction false} ToggleOnePage(s: State, s': State, i: nat, page: nat, n: nat, j: nat, p: nat)
    requires Laid(s) && SameLayout(s, s') && i < |s.zones| && ZoneFits(s.zones[i], s.mem)
    requires page + n <= s.zones[i].pagecount
    requires s'.mem == ToggleRun(s.mem, 8 * s.zones[i].bitmap + page, n)
    requires j < |s.zones| && p < s.zones[j].pagecount && ZoneFits(s.zones[j], s.mem)
    ensures Mapped(s', j, p) <==> Mapped(s, j, p) != Holds(Range(i, page, n), j, p)
  {
    hide Laid, ToggleRun;
    RunInOneZone(s, i, page, n, j, p);
    ToggleRunBits(s.mem, 8 * s.zones[i].bitmap + page, n);
  }

  lemma {:induction false} ToggleInZone(s: State, s': State, i: nat, page: nat, n: nat)
    requires Laid(s) && SameLayout(s, s') && i < |s.zones|
    requires page + n <= s.zones[i].pagecount
    requires ZoneFits(s.zones[i], s.mem)
    requires s'.mem == ToggleRun(s.mem, 8 * s.zones[i].bitmap + page, n)
    ensures Laid(s')
    ensures forall j: nat, p: nat | j < |s.zones| && p < s.zones[j].pagecount ::
              Mapped(s', j, p) <==> Mapped(s, j, p) != Holds(Range(i, page, n), j, p)
  {
    LaidKept(s, s');
    forall j: nat, p: nat | j < |s.zones| && p < s.zones[j].pagecount
      ensures Mapped(s', j, p) <==> Mapped(s, j, p) != Holds(Range(i, page, n), j, p)
    {
      ToggleOnePage(s, s', i, page, n, j, p);
    }
  }

  lemma {:induction false} ExactAfterSet(s: State, s': State, live: seq<Range>, i: nat, page: nat, n: nat)
    requires Laid(s) && Exact(s, live) && SameLayout(s, s') && i < |s.zones|
    requires page + n <= s.zones[i].pagecount && FreePages(s, i, page, n)
    requires s'.mem == SetRun(s.mem, 8 * s.zones[i].bitmap + page, n)
    ensures Laid(s') && Exact(s', live + [Range(i, page, n)])
  {
    SetInZone(s, s', i, page, n);
    var r := Range(i, page, n);
    var live' := live + [r];
    forall a | 0 <= a < |live| ensures Apart(live[a], r) {
      forall j, p ensures !(Holds(live[a], j, p) && Holds(r, j, p)) {
        if Holds(live[a], j, p) {
          assert Covered(live, j, p);
        }
      }
    }
    forall j: nat, p: nat | j < |s.zones| && p < s.zones[j].pagecount
      ensures Mapped(s', j, p) <==> Covered(live', j, p)
    {
      if Covered(live, j, p) {
        var a :| 0 <= a < |live| && Holds(live[a], j, p);
        assert live'[a] == live[a];
      }
      if Holds(r, j, p) {
        assert live'[|live|] == r;
      }
    }
  }

  lemma {:induction false} WithoutSplits(live: seq<Range>, r: Range) returns (a: nat)
    requires r in live
    ensures a < |live| && live[a] == r && Without(live, r) == Drop(live, a)
  {
    if live[0] == r {
      a := 0;
    } else {
      a := WithoutSplits(live[1..], r);
      a := a + 1;
    }
  }

  lemma {:induction false} DropApart(live: seq<Range>, a: nat)
    requires a < |live| && forall b, c | 0 <= b < c < |live| :: Apart(live[b], live[c])
    ensures forall b, c | 0 <= b < c < |Drop(live, a)| :: Apart(Drop(live, a)[b], Drop(live, a)[c])
  {
    forall b, c | 0 <= b < c < |Drop(live, a)| ensures Apart(Drop(live, a)[b], Drop(live, a)[c]) {
      assert Apart(live[if b < a then b else b + 1], live[if c < a then c else c + 1]);
    }
  }

  lemma {:induction false} DropCovers(live: seq<Range>, a: nat, j: nat, p: nat)
    requires a < |live| && forall b, c | 0 <= b < c < |live| :: Apart(live[b], live[c])
    ensures Covered(Drop(live, a), j, p) <==> Covered(live, j, p) && !Holds(live[a], j, p)
  {
    var rest := Drop(live, a);
    if Covered(rest, j, p) {
      var b :| 0 <= b < |rest| && Holds(rest[b], j, p);
      var b' := if b < a then b else b + 1;
      assert Holds(live[b'], j, p);
      assert if b' < a then Apart(live[b'], live[a]) else Apart(live[a], live[b']);
    }
    if Covered(live, j, p) && !Holds(live[a], j, p) {
      var b :| 0 <= b < |live| && Holds(live[b], j, p);
      assert rest[if b < a then b else b - 1] == live[b];
    }
  }

  lemma {:induction false} ExactAfterToggle(s: State, s': State, live: seq<Range>, a: nat)
    requires Laid(s) && Exact(s, live) && SameLayout(s, s') && a < |live|
    requires ZoneFits(s.zones[live[a].zone], s.mem)
    requires s'.mem == ToggleRun(s.mem, 8 * s.zones[live[a].zone].bitmap + live[a].page, live[a].count)
    ensures Laid(s') && Exact(s', Drop(live, a))
  {
    var r := live[a];
    ToggleInZone(s, s', r.zone, r.page, r.count);
    DropApart(live, a);
    forall j: nat, p: nat | j < |s.zones| && p < s.zones[j].pagecount
      ensures Mapped(s', j, p) <==> Covered(Drop(live, a), j, p)
    {
      DropCovers(live, a, j, p);
    }
  }

  lemma {:induction false} AllocateKeepsExact(s: State, live: seq<Range>, n: uint32, t: bv8)
    requires Laid(s) && Exact(s, live) && Proper(s, live, Allocate(n, t))
    ensures var op := Allocate(n, t);
            Laid(Step(s, op).0) && Exact(Step(s, op).0, Track(s, live, op)) && !Step(s, op).1.Overrun?
  {
    hide FreeRun, HintPage, Open, Exact, RoomInZone, SetRun, FirstRun, Laid;
    AllocateFirstFit(s, n, t);
    var c := Choose(s, n, t);
    if c.Pages? {
      ExactAfterSet(s, PmmSpec.Allocate(s, n, t).0, live, c.zone, c.page, n);
    }
  }

  /** A call of MapPages that stays in its zone marks its pages if they are free and allowed, and else changes nothing. */
  lemma {:induction false} MapOutcome(s: State, addr: uint32, n: uint32)
    requires Laid(s) && Proper(s, [], Map(addr, n))
    ensures var ((s', a), i) := (PmmSpec.MapPages(s, addr, n), FindZone(s.zones, addr, 0));
            if MapSucceeds(s, addr, n)
            then
              && i < |s.zones| && a == Returned(addr) && FreePages(s, i, PageOf(s.zones[i], addr), n)
              && PageOf(s.zones[i], addr) + n <= s.zones[i].pagecount
              && s'.mem == SetRun(s.mem, 8 * s.zones[i].bitmap + PageOf(s.zones[i], addr), n)
              && s.zones[i].firstFree <= addr && InZone(s.zones[i], addr)
              && var z := s.zones[i];
                 s'.zones == s.zones[i := if addr == z.firstFree then z.(firstFree := Wrap(addr + n * PAGE)) else z]
            else s' == s && a == Returned(FAILED)
  {
    hide PageOf, InZone, FreeRun, ScanRun, SetRun, SameLayout;
    var i := FindZone(s.zones, addr, 0);
    if i < |s.zones| && s.zones[i].firstFree <= addr {
      assert ZoneFits(s.zones[i], s.mem);
      ScanInPool(s.mem, 8 * s.zones[i].bitmap + PageOf(s.zones[i], addr), n);
    }
  }

  lemma {:induction false} ScanInPool(mem: Pool, lo: nat, n: nat)
    requires lo + n <= 8 * |mem|
    ensures ScanRun(mem, lo, n) == if FreeRun(mem, lo, n) then Free else Taken
  {}

  lemma {:induction false} MapKeepsExact(s: State, live: seq<Range>, addr: uint32, n: uint32)
    requires Laid(s) && Exact(s, live) && Proper(s, live, Map(addr, n))
    ensures var op := Map(addr, n);
            Laid(Step(s, op).0) && Exact(Step(s, op).0, Track(s, live, op)) && !Step(s, op).1.Overrun?
  {
    hide FreeRun, PageOf, InZone, Exact, PmmSpec.MapPages, MapSucceeds;
    var i := FindZone(s.zones, addr, 0);
    MapOutcome(s, addr, n);
    if MapSucceeds(s, addr, n) {
      ExactAfterSet(s, PmmSpec.MapPages(s, addr, n).0, live, i, PageOf(s.zones[i], addr), n);
    }
  }

  lemma {:induction false} UnmapFits(s: State, live: seq<Range>, i: nat, page: nat, n: nat)
    requires Laid(s) && Exact(s, live) && i < |s.zones| && Range(i, page, n) in live
    ensures ZoneFits(s.zones[i], s.mem) && page + n <= s.zones[i].pagecount
  {
    assert ZoneFits(s.zones[i], s.mem);
  }

  lemma {:induction false} UnmapKeepsExact(s: State, live: seq<Range>, addr: uint32, n: uint32)
    requires Laid(s) && Exact(s, live) && Proper(s, live, Unmap(addr, n))
    ensures var op := Unmap(addr, n);
            Laid(Step(s, op).0) && Exact(Step(s, op).0, Track(s, live, op)) && !Step(s, op).1.Overrun?
  {
    hide Exact, PageOf, InZone;
    var i := FindZone(s.zones, addr, 0);
    if i < |s.zones| {
      UnmapFits(s, live, i, PageOf(s.zones[i], addr), n);
      var a := WithoutSplits(live, Range(i, PageOf(s.zones[i], addr), n));
      ExactAfterToggle(s, PmmSpec.UnmapPages(s, addr, n).0, live, a);
    }
  }

  /** One proper call: what it hands out was free, and the bitmaps stay the exact union of the live ranges. */
  lemma {:induction false} StepKeepsExact(s: State, live: seq<Range>, op: Op)
    requires Laid(s) && Exact(s, live) && Proper(s, live, op)
    ensures Laid(Step(s, op).0) && Exact(Step(s, op).0, Track(s, live, op))
    ensures !Step(s, op).1.Overrun?
  {
    match op
    case Allocate(n, t) => AllocateKeepsExact(s, live, n, t);
    case Map(addr, n) => MapKeepsExact(s, live, addr, n);
    case Unmap(addr, n) => UnmapKeepsExact(s, live, addr, n);
  }

  /** For AllocatePhysical the condition is exact: the call stays in the pool and keeps the bitmaps the union of the live
      ranges if and only if it is proper. */
  lemma {:induction false} AllocateIsProperIff(s: State, live: seq<Range>, n: uint32, t: bv8)
    requires Laid(s) && Exact(s, live)
    ensures var (s', a) := PmmSpec.Allocate(s, n, t);
            Proper(s, live, Allocate(n, t)) <==> !a.Overrun? && Laid(s') && Exact(s', Track(s, live, Allocate(n, t)))
  {
    if Proper(s, live, Allocate(n, t)) {
      StepKeepsExact(s, live, Allocate(n, t));
    } else {
      AllocateFirstFit(s, n, t);
      var c := Choose(s, n, t);
      if c.Pages? {
        var after := Track(s, live, Allocate(n, t));
        assert after[|live|] == Range(c.zone, c.page, n);
      }
    }
  }

  function Run(s: State, ops: seq<Op>): (s': State)
    ensures SameLayout(s, s')
    decreases |ops|
  {
    if ops == [] then s else Run(Step(s, ops[0]).0, ops[1..])
  }

  function RunLive(s: State, live: seq<Range>, ops: seq<Op>): seq<Range>
    decreases |ops|
  {
    if ops == [] then live else RunLive(Step(s, ops[0]).0, Track(s, live, ops[0]), ops[1..])
  }

  /** Every call of the run is proper in the state it starts from. */
  ghost predicate ProperRun(s: State, live: seq<Range>, ops: seq<Op>)
    requires Laid(s)
    decreases |ops|
  {
    ops == [] ||
    (Proper(s, live, ops[0]) &&
     (LaidKept(s, Step(s, ops[0]).0); ProperRun(Step(s, ops[0]).0, Track(s, live, ops[0]), ops[1..])))
  }

  /** No double allocation: through any proper run of allocating, mapping and unmapping, in any order,
      every page belongs to at most one live range and the bitmaps are the union of the live ranges. */
  lemma {:induction false} NoDoubleAllocation(s: State, live: seq<Range>, ops: seq<Op>)
    requires Laid(s) && Exact(s, live) && ProperRun(s, live, ops)
    ensures Laid(Run(s, ops)) && Exact(Run(s, ops), RunLive(s, live, ops))
    decreases |ops|
  {
    if ops != [] {
      StepKeepsExact(s, live, ops[0]);
      NoDoubleAllocation(Step(s, ops[0]).0, Track(s, live, ops[0]), ops[1..]);
    }
  }
}
