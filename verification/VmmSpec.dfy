/** What mapping and unmapping do to the page tables and to the frame allocator, as functions on values. */
module VmmSpec {
  import opened Words
  import opened Paging
  import opened PmmFrames
  import PmmSpec

  /** Physical memory together with the allocator that hands out its frames. */
  datatype Sys = Sys(mem: Memory, pmm: PmmSpec.State)

  datatype Stop = Panicked | Overran | Faulted

  datatype Outcome = Done(sys: Sys) | Halted(why: Stop)

  /** The tables do not alias, and no frame they use is free in the allocator. */
  ghost predicate Wf(s: Sys, c: nat) {
    && Tables(s.mem, c)
    && Sound(s.pmm)
    && forall f: nat :: IsTable(s.mem, c, f) ==> FrameTaken(s.pmm, f)
  }

  function OrFlags(a: uint32, flags: nat): (e: uint32)
    requires flags < PAGE
    ensures Frame(e) == Frame(a) && (Present(e) <==> Present(a) || flags % 2 == 1)
    ensures a % PAGE == 0 ==> e == a + flags
  {
    OrLowFlags(a, flags);
    Or(a, flags)
  }

  /** Keeping the low seven flags keeps the present bit. */
  lemma {:induction false} FlagParity(flags: nat)
    ensures flags % 128 % 2 == flags % 2
  {
    assert flags == 2 * (64 * (flags / 128)) + flags % 128;
  }

  /** Allocates a frame and hangs it, present and writable, under directory entry d. Its words stay as they are. */
  function NewTable(s: Sys, c: nat, d: nat): Outcome
    requires c < FRAMES && d < 1024
  {
    match PmmSpec.Allocate(s.pmm, 1, PmmSpec.NORMAL)
    case (p, Returned(a)) => Done(Sys(s.mem[1024 * c + d := OrFlags(a, 3)], p))
    case (_, Panic) => Halted(Panicked)
    case (_, Overrun) => Halted(Overran)
  }

  function EnsureTable(s: Sys, c: nat, d: nat): Outcome
    requires c < FRAMES && d < 1024
  {
    if Present(Entry(s.mem, c, d)) then Done(s) else NewTable(s, c, d)
  }

  /** As EnsureTable, but a new table is cleared. */
  function EnsureClearTable(s: Sys, c: nat, d: nat): Outcome
    requires c < FRAMES && d < 1024
  {
    if Present(Entry(s.mem, c, d)) then Done(s)
    else
      match NewTable(s, c, d)
      case Done(t) => Done(t.(mem := ZeroFrame(t.mem, Frame(Entry(t.mem, c, d)))))
      case Halted(w) => Halted(w)
  }

  function WriteLeaf(s: Sys, c: nat, page: nat, w: uint32): Sys
    requires c < FRAMES && page < FRAMES
  {
    s.(mem := s.mem[1024 * Frame(Entry(s.mem, c, page / 1024)) + page % 1024 := w])
  }

  /** One turn of the mapping loop: an entry for the page, and after the last page of a directory a table for
      the next one. */
  function Turn(s: Sys, c: nat, page: nat, phys: uint32, flags: nat): Outcome
    requires c < FRAMES && page < USABLE
  {
    var t := WriteLeaf(s, c, page, OrFlags(phys, flags % 128));
    if page % 1024 == 1023 then EnsureTable(t, c, page / 1024 + 1) else Done(t)
  }

  function MapLoop(s: Sys, c: nat, page: nat, phys: uint32, n: nat, flags: nat): Outcome
    requires c < FRAMES && page + n <= USABLE
    decreases n
  {
    if n == 0 then Done(s)
    else
      match Turn(s, c, page, phys, flags)
      case Done(u) => MapLoop(u, c, page + 1, Wrap(phys + PAGE), n - 1, flags)
      case Halted(w) => Halted(w)
  }

  function Map(s: Sys, c: nat, phys: uint32, n: nat, page: nat, flags: nat): Outcome
    requires c < FRAMES && page + n <= USABLE
  {
    match EnsureClearTable(s, c, page / 1024)
    case Done(t) => MapLoop(t, c, page, phys, n, flags)
    case Halted(w) => Halted(w)
  }

  // ----- what the allocator has to provide

  /** Each of the next k requests for one page stays inside its zone or panics. */
  predicate Calm(p: PmmSpec.State, k: nat)
    decreases k
  {
    k == 0 || (StaysInside(p, 1, PmmSpec.NORMAL) && Calm(PmmSpec.Allocate(p, 1, PmmSpec.NORMAL).0, k - 1))
  }

  /** How many of the k directory entries from d on are absent. */
  function Absent(mem: Memory, c: nat, d: nat, k: nat): nat
    requires c < FRAMES && d + k <= 1024
    decreases k
  {
    if k == 0 then 0 else (if Present(Entry(mem, c, d)) then 0 else 1) + Absent(mem, c, d + 1, k - 1)
  }

  lemma {:induction false} AbsentSame(mem: Memory, mem': Memory, c: nat, d: nat, k: nat)
    requires c < FRAMES && d + k <= 1024
    requires forall i | d <= i < d + k :: Entry(mem', c, i) == Entry(mem, c, i)
    ensures Absent(mem', c, d, k) == Absent(mem, c, d, k)
    decreases k
  {
    if k > 0 {
      AbsentSame(mem, mem', c, d + 1, k - 1);
    }
  }

  // ----- effects

  /** Words outside the page tables are as they were. */
  ghost predicate DataKept(s: Sys, s': Sys, c: nat)
    requires c < FRAMES
  {
    forall g: nat, t: nat | g < FRAMES && t < 1024 :: !IsTable(s'.mem, c, g) ==> Entry(s'.mem, g, t) == Entry(s.mem, g, t)
  }

  /** Present directory entries stay; new ones lie in [lo, hi], use frames that were free, and are present and writable. */
  ghost predicate DirectoryGrows(s: Sys, s': Sys, c: nat, lo: nat, hi: nat)
    requires c < FRAMES
  {
    && (forall d | 0 <= d < 1024 && Present(Entry(s.mem, c, d)) :: Entry(s'.mem, c, d) == Entry(s.mem, c, d))
    && (forall d | 0 <= d < 1024 && !Present(Entry(s.mem, c, d)) && Present(Entry(s'.mem, c, d)) ::
          && lo <= d <= hi && !FrameTaken(s.pmm, Frame(Entry(s'.mem, c, d)))
          && Entry(s'.mem, c, d) == PAGE * Frame(Entry(s'.mem, c, d)) + 3)
    && (forall d | 0 <= d < 1024 && !Present(Entry(s'.mem, c, d)) :: Entry(s'.mem, c, d) == Entry(s.mem, c, d))
  }

  ghost predicate TakenGrows(s: Sys, s': Sys) {
    forall f: nat :: FrameTaken(s.pmm, f) ==> FrameTaken(s'.pmm, f)
  }

  /** Everything one step of mapping keeps. */
  ghost predicate Grows(s: Sys, s': Sys, c: nat, lo: nat, hi: nat) {
    && Wf(s, c) && Wf(s', c)
    && DataKept(s, s', c)
    && DirectoryGrows(s, s', c, lo, hi)
    && TakenGrows(s, s')
    && PmmSpec.SameLayout(s.pmm, s'.pmm)
  }

  /** The leaf of a page that was not mapped by the call: kept if its directory was there; otherwise it is
      whatever the new table's frame held, or still absent. */
  function LeftLeaf(s: Sys, s': Sys, c: nat, q: nat): uint32
    requires c < FRAMES && q < USABLE
  {
    if Present(Entry(s.mem, c, q / 1024)) then Leaf(s.mem, c, q)
    else if Present(Entry(s'.mem, c, q / 1024)) then Entry(s.mem, Frame(Entry(s'.mem, c, q / 1024)), q % 1024)
    else 0
  }

  lemma {:induction false} NewTableEffect(s: Sys, c: nat, d: nat)
    requires Wf(s, c) && d < 1023 && !Present(Entry(s.mem, c, d)) && StaysInside(s.pmm, 1, PmmSpec.NORMAL)
    ensures match NewTable(s, c, d)
            case Halted(w) => w == Panicked
            case Done(t) =>
              && Grows(s, t, c, d, d)
              && t.pmm == PmmSpec.Allocate(s.pmm, 1, PmmSpec.NORMAL).0
              && (forall i | 0 <= i < 1024 && i != d :: Entry(t.mem, c, i) == Entry(s.mem, c, i))
              && Present(Entry(t.mem, c, d))
              && (forall q: nat | q < USABLE :: Leaf(t.mem, c, q) == LeftLeaf(s, t, c, q))
  {
    hide FrameTaken, Sound, Tables, PmmSpec.Allocate, StaysInside, PmmSpec.SameLayout;
    WfDirectory(s, c);
    AllocateClaimsFrames(s.pmm, 1, PmmSpec.NORMAL);
    match PmmSpec.Allocate(s.pmm, 1, PmmSpec.NORMAL)
    case (p, Panic) =>
    case (p, Returned(a)) =>
      var e := OrFlags(a, 3);
      var t := Sys(s.mem[1024 * c + d := e], p);
      assert Frame(e) == a / PAGE && !FrameTaken(s.pmm, Frame(e));
      AddTable(s.mem, c, d, e, t.mem);
      forall g: nat, x: nat | g < FRAMES && x < 1024 && !IsTable(t.mem, c, g)
        ensures Entry(t.mem, g, x) == Entry(s.mem, g, x)
      {
        assert g != c;
      }
  }

  lemma {:induction false} ClearTableEffect(s: Sys, c: nat, d: nat)
    requires Wf(s, c) && d < 1023 && !Present(Entry(s.mem, c, d)) && StaysInside(s.pmm, 1, PmmSpec.NORMAL)
    ensures match EnsureClearTable(s, c, d)
            case Halted(w) => w == Panicked
            case Done(t) =>
              && Grows(s, t, c, d, d)
              && t.pmm == PmmSpec.Allocate(s.pmm, 1, PmmSpec.NORMAL).0
              && (forall i | 0 <= i < 1024 && i != d :: Entry(t.mem, c, i) == Entry(s.mem, c, i))
              && Present(Entry(t.mem, c, d))
              && (forall q: nat | q < USABLE :: Leaf(t.mem, c, q) == Leaf(s.mem, c, q))
  {
    NewTableEffect(s, c, d);
    match NewTable(s, c, d)
    case Halted(w) =>
    case Done(u) =>
      var f := Frame(Entry(u.mem, c, d));
      var t := u.(mem := ZeroFrame(u.mem, f));
      ClearTable(u.mem, c, d);
      ZeroFrameWords(u.mem, f);
      SameDirectoryKeepsTables(u.mem, t.mem, c);
      assert TableAt(u.mem, c, d, f);
      forall q: nat | q < USABLE ensures Leaf(t.mem, c, q) == Leaf(s.mem, c, q) {
        if q / 1024 == d {
          assert Leaf(s.mem, c, q) == 0;
        }
      }
  }

  lemma {:induction false} WriteLeafEffect(s: Sys, c: nat, page: nat, w: uint32)
    requires Wf(s, c) && page < USABLE && Present(Entry(s.mem, c, page / 1024))
    ensures var t := WriteLeaf(s, c, page, w);
            && Grows(s, t, c, 0, 0)
            && SameDirectory(s.mem, t.mem, c)
            && (forall q: nat | q < USABLE :: Leaf(t.mem, c, q) == if q == page then w else Leaf(s.mem, c, q))
  {
    var t := WriteLeaf(s, c, page, w);
    var f := Frame(Entry(s.mem, c, page / 1024));
    assert TableAt(s.mem, c, page / 1024, f);
    WriteEntry(s.mem, c, page, w, t.mem);
    SameDirectoryKeepsTables(s.mem, t.mem, c);
  }

  lemma {:induction false} GrowsTransitive(
    s: Sys, a: Sys, b: Sys, c: nat, lo: nat, hi: nat, lo': nat, hi': nat, l: nat, h: nat)
    requires Grows(s, a, c, lo, hi) && Grows(a, b, c, lo', hi')
    requires (l <= lo && hi <= h) || SameDirectory(s.mem, a.mem, c)
    requires (l <= lo' && hi' <= h) || SameDirectory(a.mem, b.mem, c)
    ensures Grows(s, b, c, l, h)
  {
    forall g: nat, x: nat | g < FRAMES && x < 1024 && !IsTable(b.mem, c, g)
      ensures Entry(b.mem, g, x) == Entry(s.mem, g, x)
    {
      if IsTable(a.mem, c, g) {
        TableStaysTable(a, b, c, lo', hi', g);
      }
    }
  }

  lemma {:induction false} TableStaysTable(s: Sys, s': Sys, c: nat, lo: nat, hi: nat, g: nat)
    requires c < FRAMES && DirectoryGrows(s, s', c, lo, hi) && IsTable(s.mem, c, g)
    ensures IsTable(s'.mem, c, g)
  {
    if g != c {
      var d :| 0 <= d < 1023 && TableAt(s.mem, c, d, g);
      assert TableAt(s'.mem, c, d, g);
    }
  }

  lemma {:induction false} LeftLeafTransitive(
    s: Sys, a: Sys, b: Sys, c: nat, lo: nat, hi: nat, lo': nat, hi': nat, q: nat)
    requires Grows(s, a, c, lo, hi) && Grows(a, b, c, lo', hi') && q < USABLE
    requires Leaf(a.mem, c, q) == LeftLeaf(s, a, c, q) && Leaf(b.mem, c, q) == LeftLeaf(a, b, c, q)
    ensures Leaf(b.mem, c, q) == LeftLeaf(s, b, c, q)
  {
    var d := q / 1024;
    if !Present(Entry(a.mem, c, d)) && Present(Entry(b.mem, c, d)) {
      var f := Frame(Entry(b.mem, c, d));
      assert !FrameTaken(a.pmm, f);
      assert !IsTable(a.mem, c, f);
    }
  }

  lemma {:induction false} WrapTwice(x: int, y: int)
    ensures Wrap(Wrap(x) + y) == Wrap(x + y)
  {}

  /** The loop writes exactly its pages, and leaves every other leaf to `LeftLeaf`. */
  ghost predicate LoopDone(s: Sys, t: Sys, c: nat, page: nat, phys: uint32, n: nat, flags: nat)
    requires c < FRAMES && page + n <= USABLE
  {
    && Grows(s, t, c, page / 1024 + 1, (page + n) / 1024)
    && (forall d | page / 1024 <= d <= (page + n) / 1024 :: Present(Entry(t.mem, c, d)))
    && (forall q: nat | page <= q < page + n :: Leaf(t.mem, c, q) == OrFlags(Wrap(phys + PAGE * (q - page)), flags % 128))
    && (forall q: nat | q < USABLE && !(page <= q < page + n) :: Leaf(t.mem, c, q) == LeftLeaf(s, t, c, q))
  }

  /** Directories that the loop still has to look at. */
  function Ahead(mem: Memory, c: nat, page: nat, n: nat): nat
    requires c < FRAMES && page + n <= USABLE
  {
    Absent(mem, c, page / 1024 + 1, (page + n) / 1024 - page / 1024)
  }

  /** The state after one turn of the loop, and what it leaves to the next. */
  ghost predicate TurnDone(s: Sys, u: Sys, c: nat, page: nat, phys: uint32, flags: nat)
    requires c < FRAMES && page < USABLE
  {
    && Grows(s, u, c, page / 1024 + 1, (page + 1) / 1024)
    && Present(Entry(u.mem, c, (page + 1) / 1024))
    && Present(Entry(u.mem, c, page / 1024))
    && Leaf(u.mem, c, page) == OrFlags(phys, flags % 128)
    && (forall q: nat | q < USABLE && q != page :: Leaf(u.mem, c, q) == LeftLeaf(s, u, c, q))
  }

  /** The last page of a directory whose successor is absent. */
  lemma {:induction false} BoundaryTurn(s: Sys, c: nat, page: nat, phys: uint32, flags: nat)
    requires Wf(s, c) && page < USABLE && page % 1024 == 1023
    requires Present(Entry(s.mem, c, page / 1024)) && !Present(Entry(s.mem, c, page / 1024 + 1))
    requires StaysInside(s.pmm, 1, PmmSpec.NORMAL)
    ensures match Turn(s, c, page, phys, flags)
            case Halted(w) => w == Panicked
            case Done(u) =>
              && TurnDone(s, u, c, page, phys, flags)
              && u.pmm == PmmSpec.Allocate(s.pmm, 1, PmmSpec.NORMAL).0
              && (forall i | 0 <= i < 1024 && i != page / 1024 + 1 :: Entry(u.mem, c, i) == Entry(s.mem, c, i))
  {
    var w := OrFlags(phys, flags % 128);
    var t := WriteLeaf(s, c, page, w);
    var d := page / 1024 + 1;
    assert d == (page + 1) / 1024;
    WriteLeafEffect(s, c, page, w);
    NewTableEffect(t, c, d);
    match NewTable(t, c, d)
    case Halted(_) =>
    case Done(u) => BoundaryDone(s, t, u, c, page, phys, flags);
  }

  lemma {:induction false} BoundaryDone(s: Sys, t: Sys, u: Sys, c: nat, page: nat, phys: uint32, flags: nat)
    requires c < FRAMES && page < USABLE && page / 1024 + 1 == (page + 1) / 1024
    requires Present(Entry(s.mem, c, page / 1024))
    requires Grows(s, t, c, 0, 0) && SameDirectory(s.mem, t.mem, c)
    requires forall q: nat | q < USABLE ::
               Leaf(t.mem, c, q) == if q == page then OrFlags(phys, flags % 128) else Leaf(s.mem, c, q)
    requires Grows(t, u, c, page / 1024 + 1, page / 1024 + 1) && Present(Entry(u.mem, c, page / 1024 + 1))
    requires forall q: nat | q < USABLE :: Leaf(u.mem, c, q) == LeftLeaf(t, u, c, q)
    ensures TurnDone(s, u, c, page, phys, flags)
  {
    var d := page / 1024 + 1;
    GrowsTransitive(s, t, u, c, 0, 0, d, d, d, d);
    forall q: nat | q < USABLE && q != page ensures Leaf(u.mem, c, q) == LeftLeaf(s, u, c, q) {
      LeftLeafTransitive(s, t, u, c, 0, 0, d, d, q);
    }
  }

  /** A turn that needs no new table. */
  lemma {:induction false} QuietTurn(s: Sys, c: nat, page: nat, phys: uint32, flags: nat)
    requires Wf(s, c) && page < USABLE && Present(Entry(s.mem, c, page / 1024))
    requires page % 1024 == 1023 ==> Present(Entry(s.mem, c, page / 1024 + 1))
    ensures var t := WriteLeaf(s, c, page, OrFlags(phys, flags % 128));
            && TurnDone(s, t, c, page, phys, flags) && t.pmm == s.pmm && SameDirectory(s.mem, t.mem, c)
            && Turn(s, c, page, phys, flags) == Done(t)
  {
    var t := WriteLeaf(s, c, page, OrFlags(phys, flags % 128));
    WriteLeafEffect(s, c, page, OrFlags(phys, flags % 128));
    GrowsTransitive(s, t, t, c, 0, 0, 0, 0, page / 1024 + 1, (page + 1) / 1024);
    assert page % 1024 != 1023 ==> (page + 1) / 1024 == page / 1024;
    assert page % 1024 == 1023 ==> (page + 1) / 1024 == page / 1024 + 1;
  }

  /** How a turn changes the number of tables still to come. */
  lemma {:induction false} AheadStep(mem: Memory, mem': Memory, c: nat, page: nat, n: nat)
    requires c < FRAMES && n > 0 && page + n <= USABLE
    requires forall i | 0 <= i < 1024 && (page % 1024 != 1023 || i != page / 1024 + 1) ::
               Entry(mem', c, i) == Entry(mem, c, i)
    ensures Ahead(mem, c, page, n)
            == Ahead(mem', c, page + 1, n - 1)
               + if page % 1024 == 1023 && !Present(Entry(mem, c, page / 1024 + 1)) then 1 else 0
  {
    var d := page / 1024;
    var k := (page + n) / 1024 - d;
    if page % 1024 == 1023 {
      assert (page + 1) / 1024 == d + 1;
      AbsentSame(mem, mem', c, d + 2, k - 1);
    } else {
      assert (page + 1) / 1024 == d;
      AbsentSame(mem, mem', c, d + 1, k);
    }
  }

  /** One turn of the loop. */
  lemma {:induction false} TurnEffect(s: Sys, c: nat, page: nat, phys: uint32, n: nat, flags: nat)
    requires Wf(s, c) && n > 0 && page + n <= USABLE && Present(Entry(s.mem, c, page / 1024))
    requires Calm(s.pmm, Ahead(s.mem, c, page, n))
    ensures match Turn(s, c, page, phys, flags)
            case Halted(w) => w == Panicked
            case Done(u) => TurnDone(s, u, c, page, phys, flags) && Calm(u.pmm, Ahead(u.mem, c, page + 1, n - 1))
  {
    if page % 1024 == 1023 && !Present(Entry(s.mem, c, page / 1024 + 1)) {
      TurnAtBoundary(s, c, page, phys, n, flags);
    } else {
      TurnInside(s, c, page, phys, n, flags);
    }
  }

  lemma {:induction false} TurnAtBoundary(s: Sys, c: nat, page: nat, phys: uint32, n: nat, flags: nat)
    requires Wf(s, c) && n > 0 && page + n <= USABLE && Present(Entry(s.mem, c, page / 1024))
    requires Calm(s.pmm, Ahead(s.mem, c, page, n))
    requires page % 1024 == 1023 && !Present(Entry(s.mem, c, page / 1024 + 1))
    ensures match Turn(s, c, page, phys, flags)
            case Halted(w) => w == Panicked
            case Done(u) => TurnDone(s, u, c, page, phys, flags) && Calm(u.pmm, Ahead(u.mem, c, page + 1, n - 1))
  {
    hide Wf, Turn, TurnDone, StaysInside, Ahead, Calm, PmmSpec.Allocate;
    WfDirectory(s, c);
    AheadStep(s.mem, s.mem, c, page, n);
    CalmStep(s.pmm, Ahead(s.mem, c, page, n));
    BoundaryTurn(s, c, page, phys, flags);
    match Turn(s, c, page, phys, flags)
    case Halted(_) =>
    case Done(u) => AheadStep(s.mem, u.mem, c, page, n);
  }

  lemma {:induction false} WfDirectory(s: Sys, c: nat)
    requires Wf(s, c)
    ensures c < FRAMES && SelfMapped(s.mem, c)
  {}

  lemma {:induction false} CalmStep(p: PmmSpec.State, k: nat)
    requires Calm(p, k) && k > 0
    ensures StaysInside(p, 1, PmmSpec.NORMAL) && Calm(PmmSpec.Allocate(p, 1, PmmSpec.NORMAL).0, k - 1)
  {}

  lemma {:induction false} TurnInside(s: Sys, c: nat, page: nat, phys: uint32, n: nat, flags: nat)
    requires Wf(s, c) && n > 0 && page + n <= USABLE && Present(Entry(s.mem, c, page / 1024))
    requires Calm(s.pmm, Ahead(s.mem, c, page, n))
    requires page % 1024 == 1023 ==> Present(Entry(s.mem, c, page / 1024 + 1))
    ensures match Turn(s, c, page, phys, flags)
            case Halted(w) => w == Panicked
            case Done(u) => TurnDone(s, u, c, page, phys, flags) && Calm(u.pmm, Ahead(u.mem, c, page + 1, n - 1))
  {
    hide Wf, Turn, TurnDone, Calm, Ahead, WriteLeaf;
    WfDirectory(s, c);
    QuietTurn(s, c, page, phys, flags);
    AheadStep(s.mem, WriteLeaf(s, c, page, OrFlags(phys, flags % 128)).mem, c, page, n);
  }

  /** The mapping loop, over any number of directory boundaries. */
  lemma {:induction false} MapLoopEffect(s: Sys, c: nat, page: nat, phys: uint32, n: nat, flags: nat)
    requires Wf(s, c) && page + n <= USABLE && Present(Entry(s.mem, c, page / 1024))
    requires Calm(s.pmm, Ahead(s.mem, c, page, n))
    ensures match MapLoop(s, c, page, phys, n, flags)
            case Halted(w) => w == Panicked
            case Done(t) => LoopDone(s, t, c, page, phys, n, flags)
    decreases n
  {
    hide Wf, Calm, Ahead, Turn, TurnDone, LoopDone;
    WfDirectory(s, c);
    if n == 0 {
      NoTurn(s, c, page, phys, flags);
    } else {
      TurnEffect(s, c, page, phys, n, flags);
      match Turn(s, c, page, phys, flags) {
        case Halted(_) =>
        case Done(u) =>
          TurnKeepsWf(s, u, c, page, phys, flags);
          MapLoopEffect(u, c, page + 1, Wrap(phys + PAGE), n - 1, flags);
          match MapLoop(u, c, page + 1, Wrap(phys + PAGE), n - 1, flags) {
            case Halted(_) =>
            case Done(v) => TurnThenRest(s, u, v, c, page, phys, n, flags);
          }
      }
    }
  }

  lemma {:induction false} NoTurn(s: Sys, c: nat, page: nat, phys: uint32, flags: nat)
    requires Wf(s, c) && page <= USABLE && Present(Entry(s.mem, c, page / 1024))
    ensures c < FRAMES && LoopDone(s, s, c, page, phys, 0, flags)
  {}

  lemma {:induction false} TurnKeepsWf(s: Sys, u: Sys, c: nat, page: nat, phys: uint32, flags: nat)
    requires c < FRAMES && page < USABLE && TurnDone(s, u, c, page, phys, flags)
    ensures Wf(u, c) && Present(Entry(u.mem, c, (page + 1) / 1024))
  {}

  lemma {:induction false} TurnThenRest(s: Sys, u: Sys, v: Sys, c: nat, page: nat, phys: uint32, n: nat, flags: nat)
    requires n > 0 && page + n <= USABLE && c < FRAMES && TurnDone(s, u, c, page, phys, flags)
    requires LoopDone(u, v, c, page + 1, Wrap(phys + PAGE), n - 1, flags)
    ensures LoopDone(s, v, c, page, phys, n, flags)
  {
    hide Wf, FrameTaken;
    var lo, mid, hi := page / 1024 + 1, (page + 1) / 1024, (page + n) / 1024;
    GrowsTransitive(s, u, v, c, lo, mid, mid + 1, hi, lo, hi);
    forall q: nat | page <= q < page + n
      ensures Leaf(v.mem, c, q) == OrFlags(Wrap(phys + PAGE * (q - page)), flags % 128)
    {
      MappedLeaf(u, v, c, page, phys, n, flags, q);
    }
    forall q: nat | q < USABLE && !(page <= q < page + n) ensures Leaf(v.mem, c, q) == LeftLeaf(s, v, c, q) {
      LeftLeafTransitive(s, u, v, c, lo, mid, mid + 1, hi, q);
    }
  }

  lemma {:induction false} MappedLeaf(u: Sys, v: Sys, c: nat, page: nat, phys: uint32, n: nat, flags: nat, q: nat)
    requires c < FRAMES && page <= q < page + n <= USABLE
    requires Present(Entry(u.mem, c, page / 1024)) && Leaf(u.mem, c, page) == OrFlags(phys, flags % 128)
    requires LoopDone(u, v, c, page + 1, Wrap(phys + PAGE), n - 1, flags)
    ensures Leaf(v.mem, c, q) == OrFlags(Wrap(phys + PAGE * (q - page)), flags % 128)
  {
    hide Grows, Leaf, OrFlags;
    if q == page {
      assert Leaf(v.mem, c, page) == LeftLeaf(u, v, c, page);
    } else {
      WrapTwice(phys + PAGE, PAGE * (q - page - 1));
    }
  }

  /** What holds before each turn of the mapping loop. */
  ghost predicate LoopInvariant(s: Sys, c: nat, page: nat, n: nat) {
    && page + n <= USABLE && Wf(s, c)
    && Present(Entry(s.mem, c, page / 1024))
    && Calm(s.pmm, Ahead(s.mem, c, page, n))
  }

  /** A turn keeps the invariant and the outcome of the loop. */
  lemma {:induction false} NextTurn(s: Sys, c: nat, page: nat, p: uint32, n: nat, flags: nat)
    requires LoopInvariant(s, c, page, n) && n > 0
    ensures match Turn(s, c, page, p, flags)
            case Halted(w) => MapLoop(s, c, page, p, n, flags) == Halted(w)
            case Done(u) =>
              && LoopInvariant(u, c, page + 1, n - 1)
              && MapLoop(s, c, page, p, n, flags) == MapLoop(u, c, page + 1, Wrap(p + PAGE), n - 1, flags)
  {
    TurnEffect(s, c, page, p, n, flags);
  }
}
