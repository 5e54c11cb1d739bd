/** Whole runs of the virtual memory manager together with the stores of its clients. */
module VmmStability {
  import opened Words
  import opened Collections
  import opened Paging
  import opened PmmFrames
  import opened VmmSpec
  import opened VmmMap
  import opened VmmRuns
  import PmmSpec

  // ----- client stores

  /** A store of a client through a virtual address. */
  function StoreTo(s: Sys, c: nat, v: uint32, w: uint32): Outcome
    requires c < FRAMES
  {
    match Translate(s.mem, c, v)
    case Fault => Halted(Faulted)
    case Phys(a) => Done(s.(mem := s.mem[a / 4 := w]))
  }

  /** The word at offset k of a handle's memory. */
  function Peek(s: Sys, h: Handle, k: nat): uint32
    requires Sane(h) && k < PAGE * h.n
  {
    Entry(s.mem, h.frame + k / PAGE, k % PAGE / 4)
  }

  /** A word outside the page tables can be overwritten without changing any of them. */
  lemma {:induction false} DataWrite(s: Sys, c: nat, f: nat, x: nat, w: uint32)
    requires Wf(s, c) && f < FRAMES && x < 1024 && !IsTable(s.mem, c, f)
    ensures var t := s.(mem := s.mem[1024 * f + x := w]);
            && Wf(t, c) && SameDirectory(s.mem, t.mem, c)
            && (forall g: nat :: IsTable(t.mem, c, g) == IsTable(s.mem, c, g))
            && (forall q: nat | q < USABLE :: Leaf(t.mem, c, q) == Leaf(s.mem, c, q))
  {
    var t := s.(mem := s.mem[1024 * f + x := w]);
    assert f != c;
    SameDirectoryKeepsTables(s.mem, t.mem, c);
    forall q: nat | q < USABLE ensures Leaf(t.mem, c, q) == Leaf(s.mem, c, q) {
      var pde := Entry(s.mem, c, q / 1024);
      if Present(pde) {
        assert TableAt(s.mem, c, q / 1024, Frame(pde));
      }
    }
  }

  lemma {:induction false} HeldAfterWrite(s: Sys, t: Sys, c: nat, g: Handle)
    requires Held(s, c, g) && t.pmm == s.pmm && SameDirectory(s.mem, t.mem, c)
    requires forall f: nat :: IsTable(t.mem, c, f) == IsTable(s.mem, c, f)
    requires forall q: nat | q < USABLE && g.page <= q < g.page + g.n :: Leaf(t.mem, c, q) == Leaf(s.mem, c, q)
    ensures Held(t, c, g)
  {
    forall i: nat | i < g.n ensures PageHeld(t, c, g, i) {
      assert PageHeld(s, c, g, i);
    }
  }

  lemma {:induction false} SameHandlesKeepInv(m: Vm, m': Vm, c: nat, live: seq<Handle>)
    requires Inv(m, c, live) && Wf(m'.sys, c) && m'.last == m.last && forall g | g in live :: Held(m'.sys, c, g)
    ensures Inv(m', c, live)
  {}

  /** The store reaches the word of the handle's own frame, which is no page table. */
  lemma {:induction false} StoreLands(s: Sys, c: nat, h: Handle, k: nat, w: uint32)
    requires c < FRAMES && Held(s, c, h) && k < PAGE * h.n && k % 4 == 0 && h.flags % 2 == 1
    ensures PAGE * h.page + k < TWO32
    ensures var f, x := h.frame + k / PAGE, k % PAGE / 4;
            && f < FRAMES && x < 1024 && !IsTable(s.mem, c, f)
            && StoreTo(s, c, PAGE * h.page + k, w) == Done(s.(mem := s.mem[1024 * f + x := w]))
  {
    HandleTranslates(s, c, h, k);
    WordIndex(h.frame, h.n, k);
    assert PageHeld(s, c, h, k / PAGE);
  }

  /** A client's store through a handle changes that word of its own memory and nothing else: no translation,
      no other handle's memory. */
  lemma {:induction false} StoreIsContained(m: Vm, c: nat, live: seq<Handle>, h: Handle, k: nat, w: uint32)
    requires Inv(m, c, live) && h in live && k < PAGE * h.n && k % 4 == 0 && h.flags % 2 == 1
    ensures PAGE * h.page + k < TWO32
    ensures var r := StoreTo(m.sys, c, PAGE * h.page + k, w);
            && r.Done?
            && Inv(m.(sys := r.sys), c, live)
            && (forall v: uint32 | v < TABLE_WINDOW :: Translate(r.sys.mem, c, v) == Translate(m.sys.mem, c, v))
            && Peek(r.sys, h, k) == w
            && (forall g, j: nat | g in live && j < PAGE * g.n && j % 4 == 0 && (g, j) != (h, k) ::
                  Peek(r.sys, g, j) == Peek(m.sys, g, j))
  {
    hide CalmMap, FrameTaken, Sound, Tables, StoreTo, Translate;
    assert Held(m.sys, c, h) && Wf(m.sys, c);
    var f, x := h.frame + k / PAGE, k % PAGE / 4;
    StoreLands(m.sys, c, h, k, w);
    var t := m.sys.(mem := m.sys.mem[1024 * f + x := w]);
    DataWrite(m.sys, c, f, x, w);
    forall g | g in live ensures Held(t, c, g) {
      HeldAfterWrite(m.sys, t, c, g);
    }
    SameHandlesKeepInv(m, m.(sys := t), c, live);
    SameTranslations(m.sys.mem, t.mem, c);
    hide Inv, Held, Wf, Translate, StoreTo;
    forall g, j: nat | g in live && j < PAGE * g.n && j % 4 == 0 && (g, j) != (h, k)
      ensures Peek(t, g, j) == Peek(m.sys, g, j)
    {
      WordsApart(m, c, live, h, k, g, j);
    }
  }

  lemma {:induction false} SameTranslations(mem: Memory, mem': Memory, c: nat)
    requires c < FRAMES && forall q: nat | q < USABLE :: Leaf(mem', c, q) == Leaf(mem, c, q)
    ensures forall v: uint32 | v < TABLE_WINDOW :: Translate(mem', c, v) == Translate(mem, c, v)
  {
    forall v: uint32 | v < TABLE_WINDOW ensures Translate(mem', c, v) == Translate(mem, c, v) {
      TranslateByLeaf(mem, c, v);
      TranslateByLeaf(mem', c, v);
    }
  }

  lemma {:induction false} WordIndex(frame: nat, n: nat, k: nat)
    requires k < PAGE * n && k % 4 == 0
    ensures k / PAGE < n && (PAGE * frame + k) / 4 == 1024 * (frame + k / PAGE) + k % PAGE / 4
  {
    assert k == PAGE * (k / PAGE) + 4 * (k % PAGE / 4);
  }

  /** Different words of handles are different words of physical memory. */
  lemma {:induction false} WordsApart(m: Vm, c: nat, live: seq<Handle>, h: Handle, k: nat, g: Handle, j: nat)
    requires Inv(m, c, live) && h in live && g in live && k < PAGE * h.n && j < PAGE * g.n
    requires k % 4 == 0 && j % 4 == 0 && (g, j) != (h, k)
    ensures k / PAGE < h.n && j / PAGE < g.n
    ensures 1024 * (h.frame + k / PAGE) + k % PAGE / 4 != 1024 * (g.frame + j / PAGE) + j % PAGE / 4
  {
    hide Wf, Held, InOrder, InItsZone;
    WordIndex(h.frame, h.n, k);
    WordIndex(g.frame, g.n, j);
    if 1024 * (h.frame + k / PAGE) + k % PAGE / 4 == 1024 * (g.frame + j / PAGE) + j % PAGE / 4 {
      SameWord(h.frame, g.frame, k, j);
    }
    var a :| 0 <= a < |live| && live[a] == h;
    var b :| 0 <= b < |live| && live[b] == g;
    if a < b {
      assert HandlesApart(h, g);
    } else if b < a {
      assert HandlesApart(g, h);
    }
  }

  /** The word at offset k behind a frame, as frame and word, determines both. */
  lemma {:induction false} SameWord(f: nat, g: nat, k: nat, j: nat)
    requires k % 4 == 0 && j % 4 == 0
    requires 1024 * (f + k / PAGE) + k % PAGE / 4 == 1024 * (g + j / PAGE) + j % PAGE / 4
    ensures f + k / PAGE == g + j / PAGE && (f == g ==> k == j)
  {
    SplitWord(k);
    SplitWord(j);
    SameIndex(f + k / PAGE, k % PAGE / 4, g + j / PAGE, j % PAGE / 4);
  }

  lemma {:induction false} SplitWord(k: nat)
    requires k % 4 == 0
    ensures k == PAGE * (k / PAGE) + 4 * (k % PAGE / 4) && k % PAGE / 4 < 1024
  {}

  lemma {:induction false} SameIndex(f: nat, x: nat, g: nat, y: nat)
    requires x < 1024 && y < 1024 && 1024 * f + x == 1024 * g + y
    ensures f == g && x == y
  {}

  // ----- releasing a range

  lemma {:induction false} DropKeepsInv(m: Vm, m': Vm, c: nat, live: seq<Handle>, a: nat)
    requires Inv(m, c, live) && a < |live| && Wf(m'.sys, c) && m'.last == m.last
    requires forall b | 0 <= b < |live| && b != a :: Held(m'.sys, c, live[b])
    ensures Inv(m', c, Drop(live, a))
  {
    hide Wf, Held;
    var rest := Drop(live, a);
    forall g | g in rest ensures Held(m'.sys, c, g) && InItsZone(m'.last, g) {
      var b :| 0 <= b < |rest| && rest[b] == g;
      assert g == live[if b < a then b else b + 1];
    }
    forall i, j | 0 <= i < j < |rest| ensures HandlesApart(rest[i], rest[j]) && InOrder(rest[i], rest[j]) {
      var i', j' := if i < a then i else i + 1, if j < a then j else j + 1;
      assert rest[i] == live[i'] && rest[j] == live[j'];
    }
  }

  /** Unmapping the range of a handle never faults; exactly its pages stop translating, all other handles stay. */
  lemma {:induction false} ReleaseIsContained(m: Vm, c: nat, live: seq<Handle>, a: nat)
    requires Inv(m, c, live) && a < |live|
    ensures c < FRAMES && Sane(live[a])
    ensures var r := Unmap(m.sys, c, live[a].page, live[a].n);
            && r.Done?
            && Inv(m.(sys := r.sys), c, Drop(live, a))
            && UnmapDone(m.sys, r.sys, c, live[a].page, live[a].n)
  {
    var h := live[a];
    assert h in live;
    forall q: nat | h.page <= q < h.page + h.n ensures Present(Entry(m.sys.mem, c, q / 1024)) {
      assert PageHeld(m.sys, c, h, q - h.page);
    }
    UnmapLoopEffect(m.sys, c, h.page, h.n);
    var t := Unmap(m.sys, c, h.page, h.n).sys;
    SameDirectoryKeepsTables(m.sys.mem, t.mem, c);
    forall b | 0 <= b < |live| && b != a ensures Held(t, c, live[b]) {
      assert live[b] in live;
      assert if a < b then HandlesApart(h, live[b]) else HandlesApart(live[b], h);
      HeldAfterWrite(m.sys, t, c, live[b]);
    }
    DropKeepsInv(m, m.(sys := t), c, live, a);
  }

  // ----- runs

  datatype Op =
    | Allocate(pzone: bv8, n: uint32, flags: nat, zone: nat)
    | MapAddress(phys: uint32, n: uint32, flags: nat, zone: nat)
    | Write(h: Handle, k: nat, w: uint32)
    | Release(h: Handle)

  /** The system and what its clients hold; `Dead` after a panic or a fault. */
  datatype World = Alive(vm: Vm, live: seq<Handle>) | Dead(why: VmmSpec.Stop)

  function IndexOf(live: seq<Handle>, h: Handle): (a: nat)
    requires h in live
    ensures a < |live| && live[a] == h
  {
    if live[0] == h then 0 else 1 + IndexOf(live[1..], h)
  }

  /** What a caller can check before the call: see AllocGuard; a client writes aligned words of its own
      present memory and releases what it holds. */
  ghost predicate Guard(m: Vm, c: nat, live: seq<Handle>, op: Op) {
    match op
    case Allocate(pzone, n, _, z) => AllocGuard(m, c, live, pzone, n, z)
    case MapAddress(phys, n, _, z) => AddressGuard(m, c, live, phys, n, z)
    case Write(h, k, _) => c < FRAMES && h in live && k < PAGE * h.n && k % 4 == 0 && h.flags % 2 == 1 && Sane(h)
    case Release(h) => c < FRAMES && h in live && Sane(h)
  }

  ghost function Step(m: Vm, c: nat, live: seq<Handle>, op: Op): World
    requires Guard(m, c, live, op)
  {
    match op
    case Allocate(pzone, n, flags, z) =>
      (match AllocateVirtualPhysical(m, c, pzone, n, flags, z)
       case Stop(w) => Dead(w)
       case Mapped(m', virt, phys) => Alive(m', live + [Handle(virt / PAGE, phys / PAGE, n, flags, z)]))
    case MapAddress(phys, n, flags, z) =>
      (match MapPhysicalAddress(m, c, phys, n, flags, z)
       case Stop(w) => Dead(w)
       case Mapped(m', _, _) => Alive(m', live + [Handle(m.last[z] / PAGE, phys / PAGE, n, flags, z)]))
    case Write(h, k, w) =>
      (match StoreTo(m.sys, c, Wrap(PAGE * h.page + k), w)
       case Halted(why) => Dead(why)
       case Done(s) => Alive(m.(sys := s), live))
    case Release(h) =>
      (match Unmap(m.sys, c, h.page, h.n)
       case Halted(why) => Dead(why)
       case Done(s) => Alive(m.(sys := s), Drop(live, IndexOf(live, h))))
  }

  /** One guarded step keeps the invariant; the only way to stop is a panic for want of memory. */
  lemma {:induction false} StepKeepsInv(m: Vm, c: nat, live: seq<Handle>, op: Op)
    requires Inv(m, c, live) && Guard(m, c, live, op)
    ensures match Step(m, c, live, op)
            case Dead(w) => w == Panicked && (op.Allocate? || op.MapAddress?)
            case Alive(m', live') => Inv(m', c, live')
  {
    hide Wf, Held, AllocateVirtualPhysical, MapPhysicalAddress, CalmMap, UnmapDone, Inv, AllocGuard, AddressGuard, Peek,
      StoreTo, Unmap, Translate, Drop;
    match op
    case Allocate(pzone, n, flags, z) => AllocateVirtualSafe(m, c, live, pzone, n, flags, z);
    case MapAddress(phys, n, flags, z) => MapAddressSafe(m, c, live, phys, n, flags, z);
    case Write(h, k, w) =>
      StoreIsContained(m, c, live, h, k, w);
      assert Wrap(PAGE * h.page + k) == PAGE * h.page + k;
    case Release(h) => ReleaseIsContained(m, c, live, IndexOf(live, h));
  }

  /** The world after a run; it stops at the first panic. */
  ghost predicate RunsTo(m: Vm, c: nat, live: seq<Handle>, ops: seq<Op>, end: World)
    decreases |ops|
  {
    if ops == [] then end == Alive(m, live)
    else
      && Guard(m, c, live, ops[0])
      && match Step(m, c, live, ops[0])
         case Dead(w) => end == Dead(w)
         case Alive(m', live') => RunsTo(m', c, live', ops[1..], end)
  }

  /** Stability: after any guarded run from a good state the invariant holds, so by `HandleTranslates` every address
      of every range not released translates to the frame it was given, by `FrameSeparation` no frame has two
      owners, and the ranges of a zone lie in the zone, in the order in which they were returned. */
  lemma {:induction false} Stability(m: Vm, c: nat, live: seq<Handle>, ops: seq<Op>, end: World)
    requires Inv(m, c, live) && RunsTo(m, c, live, ops, end)
    ensures match end
            case Dead(w) => w == Panicked
            case Alive(m', live') => Inv(m', c, live')
    decreases |ops|
  {
    if ops != [] {
      StepKeepsInv(m, c, live, ops[0]);
      match Step(m, c, live, ops[0])
      case Dead(_) =>
      case Alive(m', live') => Stability(m', c, live', ops[1..], end);
    }
  }

  /** The run neither releases the handle nor writes this word of it. */
  predicate Untouched(ops: seq<Op>, h: Handle, k: nat) {
    forall i | 0 <= i < |ops| :: ops[i] != Release(h) && !(ops[i].Write? && ops[i].h == h && ops[i].k == k)
  }

  lemma {:induction false} StepKeepsWord(m: Vm, c: nat, live: seq<Handle>, op: Op, h: Handle, k: nat)
    requires Inv(m, c, live) && Guard(m, c, live, op) && h in live && k < PAGE * h.n && k % 4 == 0
    requires op != Release(h) && !(op.Write? && op.h == h && op.k == k)
    requires Step(m, c, live, op).Alive?
    ensures Sane(h)
    ensures var w := Step(m, c, live, op); h in w.live && Peek(w.vm.sys, h, k) == Peek(m.sys, h, k)
  {
    assert Held(m.sys, c, h);
    assert Sane(h);
    hide *;
    match op
    case Write(g, j, x) => WriteKeepsWord(m, c, live, g, j, x, h, k);
    case Release(g) => ReleaseKeepsWord(m, c, live, g, h, k);
    case Allocate(pzone, n, flags, z) => AllocateKeepsWord(m, c, live, pzone, n, flags, z, h, k);
    case MapAddress(phys, n, flags, z) => MapAddressKeepsWord(m, c, live, phys, n, flags, z, h, k);
  }

  lemma {:induction false} WriteKeepsWord(
    m: Vm, c: nat, live: seq<Handle>, g: Handle, j: nat, x: uint32, h: Handle, k: nat)
    requires Inv(m, c, live) && Guard(m, c, live, Write(g, j, x)) && h in live && k < PAGE * h.n && k % 4 == 0
    requires (g, j) != (h, k) && Sane(h)
    ensures var w := Step(m, c, live, Write(g, j, x));
            w.Alive? && h in w.live && Peek(w.vm.sys, h, k) == Peek(m.sys, h, k)
  {
    hide Inv, Peek, StoreTo, Translate, Sane, Held;
    StoreIsContained(m, c, live, g, j, x);
    assert Wrap(PAGE * g.page + j) == PAGE * g.page + j;
  }

  lemma {:induction false} ReleaseKeepsWord(m: Vm, c: nat, live: seq<Handle>, g: Handle, h: Handle, k: nat)
    requires Inv(m, c, live) && Guard(m, c, live, Release(g)) && h in live && k < PAGE * h.n && k % 4 == 0
    requires g != h && Sane(h) && Step(m, c, live, Release(g)).Alive?
    ensures var w := Step(m, c, live, Release(g)); h in w.live && Peek(w.vm.sys, h, k) == Peek(m.sys, h, k)
  {
    hide Inv, Peek, Unmap, Drop;
    ReleaseKeepsData(m, c, live, IndexOf(live, g), h, k);
  }

  lemma {:induction false} AllocateKeepsWord(
    m: Vm, c: nat, live: seq<Handle>, pzone: bv8, n: uint32, flags: nat, z: nat, h: Handle, k: nat)
    requires Inv(m, c, live) && Guard(m, c, live, Allocate(pzone, n, flags, z)) && h in live && k < PAGE * h.n
    requires k % 4 == 0 && Sane(h) && Step(m, c, live, Allocate(pzone, n, flags, z)).Alive?
    ensures var w := Step(m, c, live, Allocate(pzone, n, flags, z));
            h in w.live && Peek(w.vm.sys, h, k) == Peek(m.sys, h, k)
  {
    hide Inv, Peek, Sane, AllocateVirtualPhysical, AllocGuard;
    AllocateKeepsData(m, c, live, pzone, n, flags, z, h, k);
  }

  lemma {:induction false} MapAddressKeepsWord(
    m: Vm, c: nat, live: seq<Handle>, phys: uint32, n: uint32, flags: nat, z: nat, h: Handle, k: nat)
    requires Inv(m, c, live) && Guard(m, c, live, MapAddress(phys, n, flags, z)) && h in live && k < PAGE * h.n
    requires k % 4 == 0 && Sane(h) && Step(m, c, live, MapAddress(phys, n, flags, z)).Alive?
    ensures var w := Step(m, c, live, MapAddress(phys, n, flags, z));
            h in w.live && Peek(w.vm.sys, h, k) == Peek(m.sys, h, k)
  {
    hide Inv, Peek, Sane, MapPhysicalAddress, AddressGuard;
    MapAddressKeepsData(m, c, live, phys, n, flags, z, h, k);
  }

  lemma {:induction false} ReleaseKeepsData(m: Vm, c: nat, live: seq<Handle>, a: nat, h: Handle, k: nat)
    requires Inv(m, c, live) && a < |live| && h in live && live[a] != h && k < PAGE * h.n && k % 4 == 0
    ensures c < FRAMES && Sane(live[a]) && Sane(h) && h in Drop(live, a)
    ensures Unmap(m.sys, c, live[a].page, live[a].n).Done?
    ensures Peek(Unmap(m.sys, c, live[a].page, live[a].n).sys, h, k) == Peek(m.sys, h, k)
  {
    ReleaseIsContained(m, c, live, a);
    DropKeepsOthers(live, a, h);
    var t := Unmap(m.sys, c, live[a].page, live[a].n).sys;
    assert Held(t, c, h);
    WordKept(m.sys, m.sys, t, c, h, k);
  }

  lemma {:induction false} DropKeepsOthers(live: seq<Handle>, a: nat, h: Handle)
    requires a < |live| && h in live && live[a] != h
    ensures h in Drop(live, a)
  {
    var b :| 0 <= b < |live| && live[b] == h;
    assert Drop(live, a)[if b < a then b else b - 1] == h;
  }

  /** A word of a handle is no word of a table, so growing the tables leaves it alone. */
  lemma {:induction false} WordKept(s: Sys, u: Sys, t: Sys, c: nat, h: Handle, k: nat)
    requires c < FRAMES && DataKept(u, t, c) && u.mem == s.mem && Held(t, c, h) && k < PAGE * h.n && k % 4 == 0
    ensures Peek(t, h, k) == Peek(s, h, k)
  {
    WordIndex(h.frame, h.n, k);
    assert PageHeld(t, c, h, k / PAGE);
  }

  lemma {:induction false} AllocateKeepsData(
    m: Vm, c: nat, live: seq<Handle>, pzone: bv8, n: uint32, flags: nat, z: nat, h: Handle, k: nat)
    requires Inv(m, c, live) && AllocGuard(m, c, live, pzone, n, z) && h in live && k < PAGE * h.n && k % 4 == 0
    requires Sane(h)
    requires AllocateVirtualPhysical(m, c, pzone, n, flags, z).Mapped?
    ensures Peek(AllocateVirtualPhysical(m, c, pzone, n, flags, z).vm.sys, h, k) == Peek(m.sys, h, k)
  {
    hide Wf, Sound, FramesClaimed, CalmMap, Held, Peek, PmmSpec.Allocate, Map, RangeFree, InItsZone, InOrder, HandlesApart;
    AllocateVirtualSafe(m, c, live, pzone, n, flags, z);
    AllocateClaimsFramesOf(m, c, pzone, n);
    var (p, a) := PmmSpec.Allocate(m.sys.pmm, n, pzone);
    MapAtLastEffect(m, c, p, a.value, n, flags, z);
    var r := AllocateVirtualPhysical(m, c, pzone, n, flags, z);
    assert h in live + [Handle(r.virt / PAGE, r.phys / PAGE, n, flags, z)];
    WordKept(m.sys, Sys(m.sys.mem, p), r.vm.sys, c, h, k);
  }

  lemma {:induction false} MapAddressKeepsData(
    m: Vm, c: nat, live: seq<Handle>, phys: uint32, n: uint32, flags: nat, z: nat, h: Handle, k: nat)
    requires Inv(m, c, live) && AddressGuard(m, c, live, phys, n, z) && h in live && k < PAGE * h.n && k % 4 == 0
    requires Sane(h)
    requires MapPhysicalAddress(m, c, phys, n, flags, z).Mapped?
    ensures Peek(MapPhysicalAddress(m, c, phys, n, flags, z).vm.sys, h, k) == Peek(m.sys, h, k)
  {
    hide Wf, Sound, FramesClaimed, CalmMap, Held, Peek, PmmSpec.MapPages, Map, RangeFree, InItsZone, InOrder, HandlesApart;
    MapAddressSafe(m, c, live, phys, n, flags, z);
    PageBase(phys);
    MapClaimsFramesOf(m, c, phys - phys % PAGE, n);
    var (p, a) := PmmSpec.MapPages(m.sys.pmm, phys - phys % PAGE, n);
    MapAtLastEffect(m, c, p, a.value, n, flags, z);
    var r := MapPhysicalAddress(m, c, phys, n, flags, z);
    assert h in live + [Handle(m.last[z] / PAGE, phys / PAGE, n, flags, z)];
    WordKept(m.sys, Sys(m.sys.mem, p), r.vm.sys, c, h, k);
  }

  /** Memory safety over runs: what a client stored in its range is read back through the same address after
      any guarded run that neither releases the range nor writes that word through it, whatever is
      allocated, mapped, released or written elsewhere. */
  lemma {:induction false} WordSurvivesRun(
    m: Vm, c: nat, live: seq<Handle>, ops: seq<Op>, end: World, h: Handle, k: nat)
    requires Inv(m, c, live) && RunsTo(m, c, live, ops, end) && end.Alive?
    requires h in live && k < PAGE * h.n && k % 4 == 0 && h.flags % 2 == 1 && Untouched(ops, h, k)
    ensures Sane(h) && PAGE * h.page + k < TWO32 && PAGE * h.frame + k < TWO32
    ensures h in end.live && Translate(end.vm.sys.mem, c, PAGE * h.page + k) == Phys(PAGE * h.frame + k)
    ensures Peek(end.vm.sys, h, k) == Peek(m.sys, h, k)
    decreases |ops|
  {
    if ops == [] {
      HandleTranslates(m.sys, c, h, k);
    } else {
      StepKeepsInv(m, c, live, ops[0]);
      StepKeepsWord(m, c, live, ops[0], h, k);
      var w := Step(m, c, live, ops[0]);
      WordSurvivesRun(w.vm, c, w.live, ops[1..], end, h, k);
    }
  }

  // ----- zones that overlap

  /** A mapping at the bump pointer keeps every live handle if and only if the range was free of them:
      a page of an overlap goes to the new frames. */
  lemma {:induction false} AllocateKeepsLiveIff(
    m: Vm, c: nat, live: seq<Handle>, p: PmmSpec.State, phys: uint32, n: uint32, flags: nat, z: nat, t: Sys)
    requires Inv(m, c, live) && z < ZONES && m.last[z] / PAGE + n <= USABLE && c < FRAMES
    requires Sound(p) && phys % PAGE == 0 && phys + PAGE * n <= TWO32 && FramesClaimed(m.sys.pmm, p, phys / PAGE, n)
    requires CalmMap(Sys(m.sys.mem, p), c, m.last[z] / PAGE, n)
    requires Map(Sys(m.sys.mem, p), c, phys, n, m.last[z] / PAGE, flags) == Done(t)
    ensures (forall g | g in live :: Held(t, c, g)) <==> RangeFree(m, live, n, z)
  {
    MapAtLastEffect(m, c, p, phys, n, flags, z);
    if RangeFree(m, live, n, z) {
      forall g | g in live ensures Held(t, c, g) {
        OldHandle(m, c, live, p, phys, n, flags, z, t, g);
      }
    } else {
      var g :| g in live && g.zone != z
               && !(g.n == 0 || n == 0 || g.page + g.n <= m.last[z] / PAGE || m.last[z] / PAGE + n <= g.page);
      OverlapIsRemapped(m, c, p, phys, n, flags, m.last[z] / PAGE, t, g);
    }
  }

  lemma {:induction false} OverlapIsRemapped(
    m: Vm, c: nat, p: PmmSpec.State, phys: uint32, n: nat, flags: nat, page: nat, t: Sys, g: Handle)
    requires c < FRAMES && page + n <= USABLE && Held(m.sys, c, g)
    requires phys % PAGE == 0 && phys + PAGE * n <= TWO32
    requires FramesClaimed(m.sys.pmm, p, phys / PAGE, n)
    requires MapDone(Sys(m.sys.mem, p), t, c, phys, n, page, flags)
    requires g.n > 0 && n > 0 && page < g.page + g.n && g.page < page + n
    ensures !Held(t, c, g)
  {
    hide MapDone, Held, FramesClaimed, Leaf;
    var q := if page <= g.page then g.page else page;
    FramesOfHandlesApart(m.sys, p, c, g, phys / PAGE, n);
    FrameOfMapped(Sys(m.sys.mem, p), t, c, phys, n, page, flags, q);
    if Held(t, c, g) {
      FrameOfHeld(t, c, g, q);
    }
  }

  lemma {:induction false} FrameOfMapped(
    s: Sys, t: Sys, c: nat, phys: uint32, n: nat, page: nat, flags: nat, q: nat)
    requires page <= q < page + n <= USABLE && c < FRAMES && phys % PAGE == 0 && phys + PAGE * n <= TWO32
    requires MapDone(s, t, c, phys, n, page, flags)
    ensures Frame(Leaf(t.mem, c, q)) == phys / PAGE + (q - page)
  {
    hide Wf, Grows, OutsideLeaf, Leaf;
    FrameOfOffset(phys, q - page);
  }

  lemma {:induction false} FrameOfHeld(s: Sys, c: nat, g: Handle, q: nat)
    requires Held(s, c, g) && g.page <= q < g.page + g.n
    ensures c < FRAMES && q < USABLE && Frame(Leaf(s.mem, c, q)) == g.frame + (q - g.page)
  {
    hide Wf, Leaf, FrameTaken;
    assert PageHeld(s, c, g, q - g.page);
    LeafOfFrame(g.frame + (q - g.page), g.flags);
  }

  /** The user zone and the zone for loading programs hold the same addresses: once the user zone has grown
      to 0x400000, a page allocated there and the first page allocated for a program get one address, and
      the address then reaches only the second frame. */
  lemma {:induction false} UserAndProgramShareAddress(
    m: Vm, m1: Vm, m2: Vm, c: nat, live: seq<Handle>, pzone: bv8, v1: uint32, v2: uint32, p1: uint32, p2: uint32)
    requires Inv(m, c, live) && m.last[USER] == 0x40_0000 && m.last[APPLOADER] == 0x40_0000
    requires AllocGuard(m, c, live, pzone, 1, USER)
    requires AllocateVirtualPhysical(m, c, pzone, 1, 3, USER) == Mapped(m1, v1, p1)
    requires StaysInside(m1.sys.pmm, 1, pzone) && 0x400 + 1 <= USABLE && |m1.last| == ZONES
    requires m1.last[APPLOADER] == 0x40_0000
    requires CalmMap(Sys(m1.sys.mem, PmmSpec.Allocate(m1.sys.pmm, 1, pzone).0), c, 0x400, 1)
    requires AllocateVirtualPhysical(m1, c, pzone, 1, 3, APPLOADER) == Mapped(m2, v2, p2)
    ensures v1 == v2 == 0x40_0000 && p1 != p2
    ensures Translate(m1.sys.mem, c, v1) == Phys(p1) && Translate(m2.sys.mem, c, v1) == Phys(p2)
  {
    hide Wf, Held, AllocateVirtualPhysical, CalmMap, StaysInside, Translate;
    AllocateVirtualSafe(m, c, live, pzone, 1, 3, USER);
    var h1 := Handle(v1 / PAGE, p1 / PAGE, 1, 3, USER);
    assert h1 in live + [h1];
    HandleTranslates(m1.sys, c, h1, 0);
    OnePageAnywhere(m1, m2, c, pzone, APPLOADER, v2, p2, h1);
  }

  /** One page at the bump pointer, whatever lies there: it translates to a frame no held range has. */
  lemma {:induction false} OnePageAnywhere(
    m: Vm, m': Vm, c: nat, pzone: bv8, z: nat, v: uint32, p: uint32, g: Handle)
    requires Wf(m.sys, c) && c < FRAMES && z < |m.last| && m.last[z] % PAGE == 0 && m.last[z] / PAGE + 1 <= USABLE
    requires StaysInside(m.sys.pmm, 1, pzone) && Held(m.sys, c, g) && g.n == 1
    requires CalmMap(Sys(m.sys.mem, PmmSpec.Allocate(m.sys.pmm, 1, pzone).0), c, m.last[z] / PAGE, 1)
    requires AllocateVirtualPhysical(m, c, pzone, 1, 3, z) == Mapped(m', v, p)
    ensures v == m.last[z] && p % PAGE == 0 && p / PAGE != g.frame && Translate(m'.sys.mem, c, v) == Phys(p)
  {
    hide Wf, MapDone, Map, CalmMap, StaysInside, FramesClaimed, Held, FrameTaken, PmmSpec.Allocate, Exhausted;
    AllocateClaimsFramesOf(m, c, pzone, 1);
    var (q, a) := PmmSpec.Allocate(m.sys.pmm, 1, pzone);
    MapAtLastEffect(m, c, q, a.value, 1, 3, z);
    HandleTranslates(m'.sys, c, Handle(v / PAGE, p / PAGE, 1, 3, z), 0);
    FramesOfHandlesApart(m.sys, q, c, g, p / PAGE, 1);
  }
}
