/** Mapping and unmapping seen through the hardware page walk. */
module VmmMap {
  import opened Words
  import opened Paging
  import opened PmmFrames
  import opened VmmSpec
  import PmmSpec

  /** The directory that holds the page behind the range; the loop makes sure it is present. */
  function LastDir(page: nat, n: nat): nat {
    (page + n) / 1024
  }

  /** The allocations a mapping may need stay inside their zones. */
  predicate CalmMap(s: Sys, c: nat, page: nat, n: nat)
    requires c < FRAMES && page + n <= USABLE
  {
    Calm(s.pmm, Absent(s.mem, c, page / 1024, LastDir(page, n) - page / 1024 + 1))
  }

  /** The leaf of a page outside the range after a mapping. */
  function OutsideLeaf(s: Sys, t: Sys, c: nat, page: nat, q: nat): uint32
    requires c < FRAMES && q < USABLE
  {
    if !Present(Entry(s.mem, c, q / 1024)) && q / 1024 == page / 1024 then 0 else LeftLeaf(s, t, c, q)
  }

  /** The leaves of the range are written, all others are as `OutsideLeaf` says. */
  ghost predicate LeavesMapped(s: Sys, t: Sys, c: nat, phys: uint32, n: nat, page: nat, flags: nat)
    requires c < FRAMES && page + n <= USABLE
  {
    && (forall q: nat | page <= q < page + n :: Leaf(t.mem, c, q) == OrFlags(Wrap(phys + PAGE * (q - page)), flags % 128))
    && (forall q: nat | q < USABLE && !(page <= q < page + n) :: Leaf(t.mem, c, q) == OutsideLeaf(s, t, c, page, q))
  }

  ghost predicate MapDone(s: Sys, t: Sys, c: nat, phys: uint32, n: nat, page: nat, flags: nat)
    requires c < FRAMES && page + n <= USABLE
  {
    && Grows(s, t, c, page / 1024, LastDir(page, n))
    && (forall d | page / 1024 <= d <= LastDir(page, n) :: Present(Entry(t.mem, c, d)))
    && LeavesMapped(s, t, c, phys, n, page, flags)
  }

  /** A mapping either panics for want of memory, or writes exactly its leaves. */
  lemma {:induction false} MapEffect(s: Sys, c: nat, phys: uint32, n: nat, page: nat, flags: nat)
    requires Wf(s, c) && page + n <= USABLE && CalmMap(s, c, page, n)
    ensures match Map(s, c, phys, n, page, flags)
            case Halted(w) => w == Panicked
            case Done(t) => MapDone(s, t, c, phys, n, page, flags)
  {
    if Present(Entry(s.mem, c, page / 1024)) {
      MapPresent(s, c, phys, n, page, flags);
    } else {
      MapAbsent(s, c, phys, n, page, flags);
    }
  }

  lemma {:induction false} MapPresent(s: Sys, c: nat, phys: uint32, n: nat, page: nat, flags: nat)
    requires Wf(s, c) && page + n <= USABLE && CalmMap(s, c, page, n)
    requires Present(Entry(s.mem, c, page / 1024))
    ensures match MapLoop(s, c, page, phys, n, flags)
            case Halted(w) => w == Panicked
            case Done(t) => MapDone(s, t, c, phys, n, page, flags)
  {
    hide Wf, Calm, CalmMap, Ahead, LoopDone, MapDone, MapLoop;
    WfDirectory(s, c);
    CalmBehindFirst(s, c, page, n);
    MapLoopEffect(s, c, page, phys, n, flags);
    match MapLoop(s, c, page, phys, n, flags)
    case Halted(_) =>
    case Done(t) => LoopIsMap(s, t, c, phys, n, page, flags);
  }

  lemma {:induction false} CalmBehindFirst(s: Sys, c: nat, page: nat, n: nat)
    requires c < FRAMES && page + n <= USABLE && CalmMap(s, c, page, n) && Present(Entry(s.mem, c, page / 1024))
    ensures Calm(s.pmm, Ahead(s.mem, c, page, n))
  {
    hide Calm;
  }

  lemma {:induction false} LoopIsMap(s: Sys, t: Sys, c: nat, phys: uint32, n: nat, page: nat, flags: nat)
    requires c < FRAMES && page + n <= USABLE && Present(Entry(s.mem, c, page / 1024))
    requires LoopDone(s, t, c, page, phys, n, flags)
    ensures MapDone(s, t, c, phys, n, page, flags)
  {
    hide Wf, DataKept, TakenGrows, Leaf, Entry;
  }

  lemma {:induction false} MapAbsent(s: Sys, c: nat, phys: uint32, n: nat, page: nat, flags: nat)
    requires Wf(s, c) && page + n <= USABLE && CalmMap(s, c, page, n)
    requires !Present(Entry(s.mem, c, page / 1024))
    ensures match Map(s, c, phys, n, page, flags)
            case Halted(w) => w == Panicked
            case Done(t) => MapDone(s, t, c, phys, n, page, flags)
  {
    FirstTable(s, c, n, page);
    match EnsureClearTable(s, c, page / 1024)
    case Halted(_) =>
    case Done(u) => LoopAfterFirst(s, u, c, phys, n, page, flags);
  }

  /** The first directory was absent and now has a cleared table. */
  ghost predicate FirstDone(s: Sys, u: Sys, c: nat, d: nat)
    requires c < FRAMES && d < 1024
  {
    && !Present(Entry(s.mem, c, d)) && Present(Entry(u.mem, c, d)) && Grows(s, u, c, d, d)
    && (forall i | 0 <= i < 1024 && i != d :: Entry(u.mem, c, i) == Entry(s.mem, c, i))
    && (forall q: nat | q < USABLE :: Leaf(u.mem, c, q) == Leaf(s.mem, c, q))
  }

  lemma {:induction false} FirstTable(s: Sys, c: nat, n: nat, page: nat)
    requires Wf(s, c) && page + n <= USABLE && CalmMap(s, c, page, n)
    requires !Present(Entry(s.mem, c, page / 1024))
    ensures match EnsureClearTable(s, c, page / 1024)
            case Halted(w) => w == Panicked
            case Done(u) => FirstDone(s, u, c, page / 1024) && Calm(u.pmm, Ahead(u.mem, c, page, n))
  {
    hide FrameTaken, Sound, StaysInside, DataKept;
    var d := page / 1024;
    var k := LastDir(page, n) - d;
    assert Absent(s.mem, c, d, k + 1) == 1 + Absent(s.mem, c, d + 1, k);
    ClearTableEffect(s, c, d);
    match EnsureClearTable(s, c, d)
    case Halted(_) =>
    case Done(u) => AbsentSame(s.mem, u.mem, c, d + 1, k);
  }

  lemma {:induction false} LoopAfterFirst(s: Sys, u: Sys, c: nat, phys: uint32, n: nat, page: nat, flags: nat)
    requires c < FRAMES && page + n <= USABLE
    requires FirstDone(s, u, c, page / 1024) && Calm(u.pmm, Ahead(u.mem, c, page, n))
    ensures match MapLoop(u, c, page, phys, n, flags)
            case Halted(w) => w == Panicked
            case Done(t) => MapDone(s, t, c, phys, n, page, flags)
  {
    MapLoopEffect(u, c, page, phys, n, flags);
    match MapLoop(u, c, page, phys, n, flags)
    case Halted(_) =>
    case Done(t) => FirstTableThenLoop(s, u, t, c, phys, n, page, flags);
  }

  lemma {:induction false} FirstTableThenLoop(
    s: Sys, u: Sys, t: Sys, c: nat, phys: uint32, n: nat, page: nat, flags: nat)
    requires c < FRAMES && page + n <= USABLE
    requires FirstDone(s, u, c, page / 1024)
    requires LoopDone(u, t, c, page, phys, n, flags)
    ensures MapDone(s, t, c, phys, n, page, flags)
  {
    var d := page / 1024;
    GrowsTransitive(s, u, t, c, d, d, d + 1, LastDir(page, n), d, LastDir(page, n));
    forall q: nat | q < USABLE && !(page <= q < page + n) ensures Leaf(t.mem, c, q) == OutsideLeaf(s, t, c, page, q) {
      assert Leaf(t.mem, c, q) == LeftLeaf(u, t, c, q);
      if q / 1024 != d {
        assert Leaf(u.mem, c, q) == LeftLeaf(s, u, c, q);
        LeftLeafTransitive(s, u, t, c, d, d, d + 1, LastDir(page, n), q);
      }
    }
  }

  // ----- the page walk after a mapping

  /** The walk of offset k in a page whose leaf is e. */
  function WalkLeaf(e: uint32, k: nat): Walk
    requires k < PAGE
  {
    if Present(e) then Phys(Frame(e) * PAGE + k) else Fault
  }

  /** Page walks of the usable pages, by page number and offset. */
  lemma {:induction false} WalkPage(mem: Memory, c: nat, page: nat, k: nat)
    requires c < FRAMES && page < USABLE && k < PAGE
    ensures Translate(mem, c, PAGE * page + k) == WalkLeaf(Leaf(mem, c, page), k)
  {
    var v := PAGE * page + k;
    assert v / PAGE == page && v % PAGE == k;
    TranslateByLeaf(mem, c, v);
  }

  /** After a mapping, page i of the range walks to the frame of phys + 4096 i if the flags (or an odd `phys`) set
      the present bit, and its entry is that address and the low seven flags; every other page whose directory was there
      walks as before. */
  lemma {:induction false} MapMeetsSpec(
    s: Sys, t: Sys, c: nat, phys: uint32, n: nat, page: nat, flags: nat, q: nat, k: nat)
    requires c < FRAMES && page + n <= USABLE && LeavesMapped(s, t, c, phys, n, page, flags)
    requires q < USABLE && k < PAGE
    ensures page <= q < page + n ==>
              var a := Wrap(phys + PAGE * (q - page));
              Translate(t.mem, c, PAGE * q + k)
              == if a % 2 == 1 || flags % 2 == 1 then Phys(Frame(a) * PAGE + k) else Fault
    ensures page <= q < page + n && phys % PAGE == 0 && phys + PAGE * n <= TWO32 ==>
              Leaf(t.mem, c, q) == phys + PAGE * (q - page) + flags % 128
    ensures !(page <= q < page + n) && Present(Entry(s.mem, c, q / 1024)) ==>
              Translate(t.mem, c, PAGE * q + k) == Translate(s.mem, c, PAGE * q + k)
  {
    FlagParity(flags);
    WalkPage(t.mem, c, q, k);
    WalkPage(s.mem, c, q, k);
  }

  /** The tables a mapping adds: their directory entries are present and writable and nothing else, and name frames that
      were free. */
  lemma {:induction false} NewTablesAreWritable(
    s: Sys, t: Sys, c: nat, phys: uint32, n: nat, page: nat, flags: nat, d: nat)
    requires c < FRAMES && page + n <= USABLE && MapDone(s, t, c, phys, n, page, flags)
    requires d < 1024 && Entry(t.mem, c, d) != Entry(s.mem, c, d)
    ensures var f := Entry(t.mem, c, d) / 4096;
            && Entry(t.mem, c, d) == 4096 * f + 3 && !FrameTaken(s.pmm, f)
            && page / 1024 <= d <= (page + n) / 1024 && !Present(Entry(s.mem, c, d))
  {
    hide Wf, LeavesMapped, DataKept, TakenGrows, FrameTaken;
  }

  lemma {:induction false} SplitOffset(base: nat, n: nat, k: nat)
    requires base % PAGE == 0 && k < PAGE * n
    ensures k / PAGE < n && base + k == PAGE * (base / PAGE + k / PAGE) + k % PAGE
  {}

  /** For page-aligned addresses and flags with the present bit, translate(virt + k) = phys + k over the whole range. */
  lemma {:induction false} MapTranslates(s: Sys, t: Sys, c: nat, phys: uint32, n: nat, virt: uint32, flags: nat, k: nat)
    requires c < FRAMES && virt / PAGE + n <= USABLE && LeavesMapped(s, t, c, phys, n, virt / PAGE, flags)
    requires phys % PAGE == 0 && virt % PAGE == 0 && phys + PAGE * n <= TWO32 && flags % 2 == 1 && k < PAGE * n
    ensures virt + k < TWO32 && Translate(t.mem, c, virt + k) == Phys(phys + k)
  {
    SplitOffset(virt, n, k);
    SplitOffset(phys, n, k);
    MapMeetsSpec(s, t, c, phys, n, virt / PAGE, flags, virt / PAGE + k / PAGE, k % PAGE);
    FrameOfOffset(phys, k / PAGE);
  }

  lemma {:induction false} FrameOfOffset(phys: uint32, i: nat)
    requires phys % PAGE == 0 && phys + PAGE * i < TWO32
    ensures Wrap(phys + PAGE * i) == phys + PAGE * i && Frame(Wrap(phys + PAGE * i)) == phys / PAGE + i
  {}

  // ----- the table that is not cleared

  /** The frame of the k-th next request for one page. */
  function FreshFrame(p: PmmSpec.State, k: nat): (f: nat)
    ensures f < FRAMES
    decreases k
  {
    var (p', a) := PmmSpec.Allocate(p, 1, PmmSpec.NORMAL);
    if !a.Returned? then 0 else if k == 0 then a.value / PAGE else FreshFrame(p', k - 1)
  }

  /** The new tables of directories from lo on use the fresh frames in order. */
  ghost predicate FramesInOrder(s: Sys, t: Sys, c: nat, lo: nat)
    requires c < FRAMES && lo <= 1024
  {
    forall d | lo <= d < 1024 && !Present(Entry(s.mem, c, d)) && Present(Entry(t.mem, c, d)) ::
      Frame(Entry(t.mem, c, d)) == FreshFrame(s.pmm, Absent(s.mem, c, lo, d - lo))
  }

  lemma {:induction false} FramesShift(s: Sys, u: Sys, t: Sys, c: nat, d: nat)
    requires c < FRAMES && d < 1023 && !Present(Entry(s.mem, c, d)) && NewTable(s, c, d) == Done(u)
    requires forall i | 0 <= i < 1024 && i != d :: Entry(u.mem, c, i) == Entry(s.mem, c, i)
    requires Entry(t.mem, c, d) == Entry(u.mem, c, d)
    requires FramesInOrder(u, t, c, d + 1)
    ensures FramesInOrder(s, t, c, d)
  {
    forall e | d <= e < 1024 && !Present(Entry(s.mem, c, e)) && Present(Entry(t.mem, c, e))
      ensures Frame(Entry(t.mem, c, e)) == FreshFrame(s.pmm, Absent(s.mem, c, d, e - d))
    {
      if e > d {
        AbsentSame(s.mem, u.mem, c, d + 1, e - d - 1);
      }
    }
  }

  lemma {:induction false} FramesSkip(s: Sys, u: Sys, t: Sys, c: nat, d: nat)
    requires c < FRAMES && d < 1024 && Present(Entry(s.mem, c, d)) && u.pmm == s.pmm && SameDirectory(s.mem, u.mem, c)
    requires FramesInOrder(u, t, c, d + 1)
    ensures FramesInOrder(s, t, c, d)
  {
    forall e | d <= e < 1024 && !Present(Entry(s.mem, c, e)) && Present(Entry(t.mem, c, e))
      ensures Frame(Entry(t.mem, c, e)) == FreshFrame(s.pmm, Absent(s.mem, c, d, e - d))
    {
      AbsentSame(s.mem, u.mem, c, d + 1, e - d - 1);
    }
  }

  lemma {:induction false} LoopFrames(s: Sys, t: Sys, c: nat, page: nat, phys: uint32, n: nat, flags: nat)
    requires LoopInvariant(s, c, page, n) && MapLoop(s, c, page, phys, n, flags) == Done(t)
    ensures page / 1024 + 1 <= 1024 && FramesInOrder(s, t, c, page / 1024 + 1)
    decreases n
  {
    hide LoopInvariant, Turn, Wf, FramesInOrder;
    InvariantFacts(s, c, page, n);
    if n > 0 {
      NextTurn(s, c, page, phys, n, flags);
      var u := Turn(s, c, page, phys, flags).sys;
      InvariantFacts(u, c, page + 1, n - 1);
      LoopFrames(u, t, c, page + 1, Wrap(phys + PAGE), n - 1, flags);
      LoopKeepsEntry(u, t, c, page + 1, Wrap(phys + PAGE), n - 1, flags, (page + 1) / 1024);
      TurnFrames(s, u, t, c, page, phys, flags);
    } else {
      LoopOfNothing(s, t, c, page, phys, flags);
    }
  }

  lemma {:induction false} InvariantFacts(s: Sys, c: nat, page: nat, n: nat)
    requires LoopInvariant(s, c, page, n)
    ensures c < FRAMES && page + n <= USABLE && Wf(s, c) && Present(Entry(s.mem, c, page / 1024))
  {}

  lemma {:induction false} LoopOfNothing(s: Sys, t: Sys, c: nat, page: nat, phys: uint32, flags: nat)
    requires c < FRAMES && page <= USABLE && MapLoop(s, c, page, phys, 0, flags) == Done(t)
    ensures FramesInOrder(s, t, c, page / 1024 + 1)
  {}

  lemma {:induction false} LoopKeepsEntry(s: Sys, t: Sys, c: nat, page: nat, phys: uint32, n: nat, flags: nat, d: nat)
    requires LoopInvariant(s, c, page, n) && MapLoop(s, c, page, phys, n, flags) == Done(t)
    requires d < 1024 && Present(Entry(s.mem, c, d))
    ensures Entry(t.mem, c, d) == Entry(s.mem, c, d)
  {
    MapLoopEffect(s, c, page, phys, n, flags);
  }

  lemma {:induction false} TurnFrames(s: Sys, u: Sys, t: Sys, c: nat, page: nat, phys: uint32, flags: nat)
    requires Wf(s, c) && page < USABLE && Present(Entry(s.mem, c, page / 1024))
    requires Turn(s, c, page, phys, flags) == Done(u) && Present(Entry(u.mem, c, (page + 1) / 1024))
    requires Entry(t.mem, c, (page + 1) / 1024) == Entry(u.mem, c, (page + 1) / 1024)
    requires FramesInOrder(u, t, c, (page + 1) / 1024 + 1)
    ensures FramesInOrder(s, t, c, page / 1024 + 1)
  {
    var d := page / 1024;
    var w := WriteLeaf(s, c, page, OrFlags(phys, flags % 128));
    WriteLeafEffect(s, c, page, OrFlags(phys, flags % 128));
    if page % 1024 == 1023 {
      assert (page + 1) / 1024 == d + 1;
      if Present(Entry(s.mem, c, d + 1)) {
        FramesSkip(s, w, t, c, d + 1);
      } else {
        FreshTableFrames(w, u, t, c, d + 1);
        SameStartFrames(s, w, t, c, d + 1);
      }
    } else {
      assert (page + 1) / 1024 == d;
      SameStartFrames(s, w, t, c, d + 1);
    }
  }

  lemma {:induction false} FreshTableFrames(w: Sys, u: Sys, t: Sys, c: nat, d: nat)
    requires c < FRAMES && d < 1024 && NewTable(w, c, d) == Done(u) && !Present(Entry(w.mem, c, d))
    requires SelfMapped(w.mem, c)
    requires Entry(t.mem, c, d) == Entry(u.mem, c, d) && FramesInOrder(u, t, c, d + 1)
    ensures FramesInOrder(w, t, c, d)
  {
    FramesShift(w, u, t, c, d);
  }

  lemma {:induction false} SameStartFrames(s: Sys, w: Sys, t: Sys, c: nat, lo: nat)
    requires c < FRAMES && lo <= 1024 && w.pmm == s.pmm && SameDirectory(s.mem, w.mem, c) && FramesInOrder(w, t, c, lo)
    ensures FramesInOrder(s, t, c, lo)
  {
    forall e | lo <= e < 1024 && !Present(Entry(s.mem, c, e)) && Present(Entry(t.mem, c, e))
      ensures Frame(Entry(t.mem, c, e)) == FreshFrame(s.pmm, Absent(s.mem, c, lo, e - lo))
    {
      AbsentSame(s.mem, w.mem, c, lo, e - lo);
    }
  }

  lemma {:induction false} MapFrames(s: Sys, t: Sys, c: nat, phys: uint32, n: nat, page: nat, flags: nat)
    requires Wf(s, c) && page + n <= USABLE && CalmMap(s, c, page, n) && Map(s, c, phys, n, page, flags) == Done(t)
    ensures FramesInOrder(s, t, c, page / 1024)
  {
    var d := page / 1024;
    if Present(Entry(s.mem, c, d)) {
      LoopFrames(s, t, c, page, phys, n, flags);
      FramesSkip(s, s, t, c, d);
    } else {
      FirstTable(s, c, n, page);
      var x, u := NewTable(s, c, d).sys, EnsureClearTable(s, c, d).sys;
      LoopFrames(u, t, c, page, phys, n, flags);
      LoopKeepsEntry(u, t, c, page, phys, n, flags, d);
      FirstTableFrames(s, x, u, t, c, d);
    }
  }

  lemma {:induction false} FirstTableFrames(s: Sys, x: Sys, u: Sys, t: Sys, c: nat, d: nat)
    requires Wf(s, c) && d < 1023 && !Present(Entry(s.mem, c, d)) && StaysInside(s.pmm, 1, PmmSpec.NORMAL)
    requires NewTable(s, c, d) == Done(x) && EnsureClearTable(s, c, d) == Done(u)
    requires Entry(t.mem, c, d) == Entry(u.mem, c, d) && FramesInOrder(u, t, c, d + 1)
    ensures FramesInOrder(s, t, c, d)
  {
    NewTableEffect(s, c, d);
    ClearTable(x.mem, c, d);
    SameStartFrames(x, u, t, c, d + 1);
    FramesShift(s, x, t, c, d);
  }

  /** The word that page q would find in the fresh frame its directory gets. */
  function FreshWord(s: Sys, c: nat, page: nat, q: nat): uint32
    requires c < FRAMES && page / 1024 <= q / 1024 && q < USABLE
  {
    Entry(s.mem, FreshFrame(s.pmm, Absent(s.mem, c, page / 1024, q / 1024 - page / 1024)), q % 1024)
  }

  /** Page q is not mapped by the call but lies in a directory behind the first one that gets a new table. */
  predicate InNewTable(s: Sys, c: nat, page: nat, n: nat, q: nat)
    requires c < FRAMES
  {
    && q < USABLE && page / 1024 < q / 1024 <= LastDir(page, n) && !(page <= q < page + n)
    && !Present(Entry(s.mem, c, q / 1024))
  }

  /** The free frames the call will use as tables behind the first directory hold no word with the present bit
      where the call does not write. */
  ghost predicate CleanFrames(s: Sys, c: nat, page: nat, n: nat)
    requires c < FRAMES
  {
    forall q: nat | InNewTable(s, c, page, n, q) :: !Present(FreshWord(s, c, page, q))
  }

  ghost predicate OthersUnchanged(s: Sys, t: Sys, c: nat, page: nat, n: nat)
    requires c < FRAMES
  {
    forall v: uint32 | v < TABLE_WINDOW && !(page <= v / PAGE < page + n) ::
      Translate(t.mem, c, v) == Translate(s.mem, c, v)
  }

  lemma {:induction false} LeafOfNewTable(s: Sys, t: Sys, c: nat, phys: uint32, n: nat, page: nat, flags: nat, q: nat)
    requires c < FRAMES && page + n <= USABLE && MapDone(s, t, c, phys, n, page, flags)
    requires FramesInOrder(s, t, c, page / 1024)
    requires q < USABLE && !(page <= q < page + n)
    ensures InNewTable(s, c, page, n, q) ==> Leaf(s.mem, c, q) == 0 && Leaf(t.mem, c, q) == FreshWord(s, c, page, q)
    ensures !InNewTable(s, c, page, n, q) ==> Leaf(t.mem, c, q) == Leaf(s.mem, c, q)
  {
    assert Leaf(t.mem, c, q) == OutsideLeaf(s, t, c, page, q);
  }

  /** Mapping leaves every other translation alone if and only if the frames that become tables behind the
      first directory were clean: only the first new table is cleared. */
  lemma {:induction false} MapExactIff(s: Sys, t: Sys, c: nat, phys: uint32, n: nat, page: nat, flags: nat)
    requires Wf(s, c) && page + n <= USABLE && CalmMap(s, c, page, n) && Map(s, c, phys, n, page, flags) == Done(t)
    ensures OthersUnchanged(s, t, c, page, n) <==> CleanFrames(s, c, page, n)
  {
    MapEffect(s, c, phys, n, page, flags);
    MapFrames(s, t, c, phys, n, page, flags);
    if CleanFrames(s, c, page, n) {
      CleanMeansUnchanged(s, t, c, phys, n, page, flags);
    } else {
      GarbageShowsThrough(s, t, c, phys, n, page, flags);
    }
  }

  lemma {:induction false} CleanMeansUnchanged(s: Sys, t: Sys, c: nat, phys: uint32, n: nat, page: nat, flags: nat)
    requires c < FRAMES && page + n <= USABLE && MapDone(s, t, c, phys, n, page, flags)
    requires FramesInOrder(s, t, c, page / 1024)
    requires CleanFrames(s, c, page, n)
    ensures OthersUnchanged(s, t, c, page, n)
  {
    forall v: uint32 | v < TABLE_WINDOW && !(page <= v / PAGE < page + n)
      ensures Translate(t.mem, c, v) == Translate(s.mem, c, v)
    {
      LeafOfNewTable(s, t, c, phys, n, page, flags, v / PAGE);
      TranslateByLeaf(s.mem, c, v);
      TranslateByLeaf(t.mem, c, v);
    }
  }

  lemma {:induction false} GarbageShowsThrough(s: Sys, t: Sys, c: nat, phys: uint32, n: nat, page: nat, flags: nat)
    requires c < FRAMES && page + n <= USABLE && MapDone(s, t, c, phys, n, page, flags)
    requires FramesInOrder(s, t, c, page / 1024)
    requires !CleanFrames(s, c, page, n)
    ensures !OthersUnchanged(s, t, c, page, n)
  {
    hide Grows, FreshWord;
    var q: nat :| InNewTable(s, c, page, n, q) && Present(FreshWord(s, c, page, q));
    LeafOfNewTable(s, t, c, phys, n, page, flags, q);
    WalkPage(s.mem, c, q, 0);
    WalkPage(t.mem, c, q, 0);
    assert (PAGE * q) / PAGE == q;
  }

  // ----- unmapping

  /** e & ~1 */
  function WithoutPresent(e: uint32): uint32 {
    e - e % 2
  }

  /** The loop of UnmapVirtual: clears the present bit, and faults where there is no table. */
  function UnmapLoop(s: Sys, c: nat, page: nat, n: nat): Outcome
    requires c < FRAMES && page + n <= USABLE
    decreases n
  {
    if n == 0 then Done(s)
    else if !Present(Entry(s.mem, c, page / 1024)) then Halted(Faulted)
    else
      var e := Leaf(s.mem, c, page);
      UnmapLoop(WriteLeaf(s, c, page, WithoutPresent(e)), c, page + 1, n - 1)
  }

  function Unmap(s: Sys, c: nat, page: nat, n: nat): Outcome
    requires c < FRAMES && page + n <= USABLE
  {
    if !Present(Entry(s.mem, c, page / 1024)) then Halted(Faulted) else UnmapLoop(s, c, page, n)
  }

  ghost predicate UnmapDone(s: Sys, t: Sys, c: nat, page: nat, n: nat)
    requires c < FRAMES && page + n <= USABLE
  {
    && Grows(s, t, c, 0, 0) && SameDirectory(s.mem, t.mem, c) && t.pmm == s.pmm
    && forall q: nat | q < USABLE ::
         Leaf(t.mem, c, q)
         == if page <= q < page + n then WithoutPresent(Leaf(s.mem, c, q)) else Leaf(s.mem, c, q)
  }

  predicate HasTables(mem: Memory, c: nat, page: nat, n: nat)
    requires c < FRAMES && page + n <= USABLE
  {
    forall q: nat | page <= q < page + n :: Present(Entry(mem, c, q / 1024))
  }

  /** The loop clears exactly its leaves if every page has a table, and faults otherwise. */
  lemma {:induction false} UnmapLoopEffect(s: Sys, c: nat, page: nat, n: nat)
    requires Wf(s, c) && page + n <= USABLE
    ensures var r := UnmapLoop(s, c, page, n);
            if HasTables(s.mem, c, page, n) then r.Done? && UnmapDone(s, r.sys, c, page, n) else r == Halted(Faulted)
    decreases n
  {
    hide Wf, Grows, UnmapDone, Leaf, HasTables, WithoutPresent;
    WfDirectory(s, c);
    UnmapNothing(s, c, page, n);
    if n > 0 && Present(Entry(s.mem, c, page / 1024)) {
      var e := Leaf(s.mem, c, page);
      var t := WriteLeaf(s, c, page, WithoutPresent(e));
      WriteLeafEffect(s, c, page, WithoutPresent(e));
      GrownIsWf(s, t, c, 0, 0);
      UnmapLoopEffect(t, c, page + 1, n - 1);
      TablesBehind(s.mem, t.mem, c, page, n);
      if HasTables(s.mem, c, page, n) {
        UnmapTurnThenRest(s, t, UnmapLoop(t, c, page + 1, n - 1).sys, c, page, n);
      }
    }
  }

  /** UnmapVirtual works exactly when there is a table for the first page, which it reads even if nothing is to be
      unmapped, and for every page of the range; and faults otherwise. */
  lemma {:induction false} UnmapFaultsIff(s: Sys, c: nat, page: nat, n: nat)
    requires Wf(s, c) && page + n <= USABLE
    ensures c < FRAMES
    ensures Unmap(s, c, page, n).Done?
            <==> && Present(Entry(s.mem, c, page / 1024))
                 && forall q: nat | page <= q < page + n :: Present(Entry(s.mem, c, q / 1024))
    ensures !Unmap(s, c, page, n).Done? ==> Unmap(s, c, page, n) == Halted(Faulted)
  {
    hide Wf, UnmapLoop, UnmapDone;
    WfDirectory(s, c);
    UnmapLoopEffect(s, c, page, n);
  }

  lemma {:induction false} GrownIsWf(s: Sys, t: Sys, c: nat, lo: nat, hi: nat)
    requires Grows(s, t, c, lo, hi)
    ensures Wf(t, c)
  {}

  /** No page, or no table for the first one. */
  lemma {:induction false} UnmapNothing(s: Sys, c: nat, page: nat, n: nat)
    requires Wf(s, c) && page + n <= USABLE
    ensures n == 0 ==> HasTables(s.mem, c, page, n) && UnmapDone(s, s, c, page, n)
    ensures n > 0 && !Present(Entry(s.mem, c, page / 1024)) ==> !HasTables(s.mem, c, page, n)
  {
    hide FrameTaken, Sound, Tables;
    WfDirectory(s, c);
  }

  lemma {:induction false} TablesBehind(mem: Memory, mem': Memory, c: nat, page: nat, n: nat)
    requires c < FRAMES && n > 0 && page + n <= USABLE && SameDirectory(mem, mem', c)
    requires Present(Entry(mem, c, page / 1024))
    ensures HasTables(mem, c, page, n) <==> HasTables(mem', c, page + 1, n - 1)
  {
    if !HasTables(mem, c, page, n) {
      var q: nat :| page <= q < page + n && !Present(Entry(mem, c, q / 1024));
      assert !Present(Entry(mem', c, q / 1024));
    }
  }

  lemma {:induction false} UnmapTurnThenRest(s: Sys, t: Sys, u: Sys, c: nat, page: nat, n: nat)
    requires n > 0 && page + n <= USABLE && Grows(s, t, c, 0, 0) && SameDirectory(s.mem, t.mem, c) && t.pmm == s.pmm
    requires forall q: nat | q < USABLE ::
               Leaf(t.mem, c, q)
               == if q == page then WithoutPresent(Leaf(s.mem, c, page)) else Leaf(s.mem, c, q)
    requires UnmapDone(t, u, c, page + 1, n - 1)
    ensures UnmapDone(s, u, c, page, n)
  {
    GrowsTransitive(s, t, u, c, 0, 0, 0, 0, 0, 0);
  }

  /** After unmapping, exactly the n pages stop translating; every bit of their entries above the lowest stays. */
  lemma {:induction false} UnmapMeetsSpec(s: Sys, t: Sys, c: nat, page: nat, n: nat, v: uint32)
    requires c < FRAMES && page + n <= USABLE && UnmapDone(s, t, c, page, n) && v < TABLE_WINDOW
    ensures Translate(t.mem, c, v) == if page <= v / PAGE < page + n then Fault else Translate(s.mem, c, v)
    ensures Leaf(t.mem, c, v / PAGE) / 2 == Leaf(s.mem, c, v / PAGE) / 2
  {
    TranslateByLeaf(s.mem, c, v);
    TranslateByLeaf(t.mem, c, v);
  }

  /** Unmapping what a call mapped over unmapped pages gives back the earlier translation, even if tables were
      added, if and only if the added tables were clean. */
  lemma {:induction false} UnmapUndoesMapIff(s: Sys, t: Sys, c: nat, phys: uint32, n: nat, page: nat, flags: nat)
    requires Wf(s, c) && page + n <= USABLE && CalmMap(s, c, page, n) && Map(s, c, phys, n, page, flags) == Done(t)
    requires forall v: uint32 | page <= v / PAGE < page + n :: Translate(s.mem, c, v) == Fault
    ensures var r := Unmap(t, c, page, n);
            && r.Done?
            && ((forall v: uint32 | v < TABLE_WINDOW :: Translate(r.sys.mem, c, v) == Translate(s.mem, c, v))
                <==> CleanFrames(s, c, page, n))
  {
    MapEffect(s, c, phys, n, page, flags);
    MapExactIff(s, t, c, phys, n, page, flags);
    UnmapLoopEffect(t, c, page, n);
    assert Present(Entry(t.mem, c, page / 1024));
    var u := Unmap(t, c, page, n).sys;
    forall v: uint32 | v < TABLE_WINDOW
      ensures Translate(u.mem, c, v) == if page <= v / PAGE < page + n then Fault else Translate(t.mem, c, v)
    {
      UnmapMeetsSpec(t, u, c, page, n, v);
    }
    if forall v: uint32 | v < TABLE_WINDOW :: Translate(u.mem, c, v) == Translate(s.mem, c, v) {
      assert OthersUnchanged(s, t, c, page, n);
    }
  }
}
