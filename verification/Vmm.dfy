/** The virtual memory manager: page tables edited in place through the recursive self-map. Every access goes
    through the page walk; what it edits is proved to be what VmmSpec edits directly. */
module Vmm {
  import opened Words
  import opened Paging
  import opened PmmFrames
  import opened VmmSpec
  import opened VmmMap
  import opened VmmInit
  import opened VmmRuns
  import opened Pmm
  import PmmSpec

  datatype Status = Ok | Stopped(why: Stop)

  /** A mapping of n pages from `page` that stays below the table window, in a well-formed system whose
      allocator has room. */
  ghost predicate MapGuard(s: Sys, c: nat, page: nat, n: nat) {
    page + n <= USABLE && Wf(s, c) && CalmMap(s, c, page, n)
  }

  /** The directory entry is present, or a frame for its table can be had. */
  predicate CanAddTable(s: Sys, c: nat, d: nat)
    requires c < FRAMES && d < 1024
  {
    Present(Entry(s.mem, c, d)) || StaysInside(s.pmm, 1, PmmSpec.NORMAL)
  }

  /** The method ended as the outcome says. */
  ghost predicate Agrees(st: Status, s: Sys, o: Outcome) {
    match o
    case Done(t) => st == Ok && s == t
    case Halted(w) => st == Stopped(w)
  }

  class VMM {
    /** Physical memory, and the frame of the page directory (cr3). */
    const mem: array<uint32>
    const cr3: nat
    const pmm: PMM
    /** The bump pointer of each virtual zone. */
    const lastVaddr: array<uint32>

    ghost predicate Valid() {
      && mem.Length == 0x4000_0000 && cr3 < FRAMES && pmm.Valid() && lastVaddr.Length == ZONES
      && lastVaddr != mem && lastVaddr as object != pmm.pool && lastVaddr as object != pmm.mmap
      && mem as object != pmm.pool && mem as object != pmm.mmap
    }

    /** The system and the bump pointers. */
    ghost function Whole(): Vm
      requires Valid()
      reads mem, pmm.mmap, pmm.pool, lastVaddr
    {
      Vm(View(), lastVaddr[..])
    }

    ghost function View(): Sys
      requires Valid()
      reads mem, pmm.mmap, pmm.pool
    {
      Sys(mem[..], pmm.View())
    }

    constructor (memory: array<uint32>, directory: nat, frames: PMM)
      requires memory.Length == 0x4000_0000 && directory < FRAMES && frames.Valid()
      requires memory as object != frames.pool && memory as object != frames.mmap
      ensures Valid() && mem == memory && cr3 == directory && pmm == frames && fresh(lastVaddr)
      ensures forall z | 0 <= z < ZONES :: lastVaddr[z] == ZoneFirst(z)
    {
      mem, cr3, pmm := memory, directory, frames;
      lastVaddr := new uint32[ZONES](ZoneFirst);
    }

    /** Maps the last directory entry to the directory, and gives up the identity map but for its ends. */
    method Init(ghost low: nat, ghost high: nat) returns (st: Status)
      requires Valid()
      modifies mem
      ensures old(BootTables(mem[..], cr3, low, high) && BootFramesTaken(pmm.View(), cr3, low, high)) ==>
                Agrees(st, View(), Unmap(old(Sys(NullPageUnmapped(SelfMap(mem[..], cr3), low), pmm.View())), cr3, 0xf0, 0x300))
    {
      hide Wf, BootFramesTaken, BootTables, SelfMap, NullPageUnmapped, UnmapLoop;
      ghost var good := BootTables(mem[..], cr3, low, high) && BootFramesTaken(pmm.View(), cr3, low, high);
      if good {
        InitAccesses(mem[..], pmm.View(), cr3, low, high);
      }
      st := EditBootTables(low);
      if st != Ok {
        return;
      }
      st := UnmapVirtual(0xf_0000, 0x300);
    }

    /** The two entries Init writes: through the identity map, and through the new window. */
    method EditBootTables(ghost low: nat) returns (st: Status)
      requires Valid()
      modifies mem
      ensures low < FRAMES && old(AccessesLand(mem[..], cr3, low)) ==>
                st == Ok && mem[..] == NullPageUnmapped(SelfMap(old(mem[..]), cr3), low)
    {
      hide Translate;
      ghost var boot: Memory := mem[..];
      var ok := Store(Wrap(PAGE * cr3 + 4 * 1023), OrFlags(PAGE * cr3, 3));
      if !ok {
        return Stopped(Faulted);
      }
      var e;
      ok, e := Load(DIRECTORY_WINDOW);
      if !ok {
        return Stopped(Faulted);
      }
      ok := Store(e - e % 1024, 0);
      return if ok then Ok else Stopped(Faulted);
    }

    /** A 32-bit load from a virtual address; false if it faults. */
    method Load(v: uint32) returns (ok: bool, w: uint32)
      requires Valid()
      ensures match Translate(mem[..], cr3, v)
              case Fault => !ok
              case Phys(a) => ok && w == mem[a / 4]
    {
      var pde := mem[1024 * cr3 + v / 0x40_0000];
      if !Present(pde) {
        return false, 0;
      }
      var pte := mem[1024 * Frame(pde) + v / PAGE % 1024];
      if !Present(pte) {
        return false, 0;
      }
      return true, mem[(Frame(pte) * PAGE + v % PAGE) / 4];
    }

    /** A 32-bit store to a virtual address; false, and nothing stored, if it faults. */
    method Store(v: uint32, w: uint32) returns (ok: bool)
      requires Valid()
      modifies mem
      ensures match Translate(old(mem[..]), cr3, v)
              case Fault => !ok && mem[..] == old(mem[..])
              case Phys(a) => ok && mem[..] == old(mem[..])[a / 4 := w]
    {
      var pde := mem[1024 * cr3 + v / 0x40_0000];
      if !Present(pde) {
        return false;
      }
      var pte := mem[1024 * Frame(pde) + v / PAGE % 1024];
      if !Present(pte) {
        return false;
      }
      mem[(Frame(pte) * PAGE + v % PAGE) / 4] := w;
      return true;
    }

    method MapPageDirectoryIndex(dirindex: nat) returns (st: Status, p: uint32)
      requires Valid()
      modifies pmm.mmap, pmm.pool
      ensures dirindex >= 1024 ==> st == Stopped(Panicked)
      ensures dirindex < 1024 ==>
                match PmmSpec.Allocate(old(pmm.View()), 1, PmmSpec.NORMAL)
                case (s, Returned(a)) => st == Ok && p == a && pmm.View() == s
                case (_, Panic) => st == Stopped(Panicked)
                case (_, Overrun) => st == Stopped(Overran)
    {
      if dirindex >= 1024 {
        return Stopped(Panicked), 0;
      }
      var a := pmm.AllocatePhysical(1, PmmSpec.NORMAL);
      match a
      case Returned(value) => return Ok, value;
      case Panic => return Stopped(Panicked), 0;
      case Overrun => return Stopped(Overran), 0;
    }

    /** Makes sure that pdir[dirindex] is present; a new table is cleared on request. */
    method PrepareDirectory(dirindex: nat, clear: bool) returns (st: Status)
      requires Valid()
      modifies mem, pmm.mmap, pmm.pool
      ensures dirindex < 1024 && old(Wf(View(), cr3)) && (clear ==> old(CanAddTable(View(), cr3, dirindex))) ==>
                Agrees(st, View(),
                       if clear then EnsureClearTable(old(View()), cr3, dirindex) else EnsureTable(old(View()), cr3, dirindex))
    {
      hide Wf, SelfMapped, Translate, StaysInside, Tables;
      ghost var s := View();
      ghost var good := dirindex < 1024 && Wf(s, cr3);
      if good {
        WfDirectory(s, cr3);
        DirectoryWindow(s.mem, cr3, dirindex);
      }
      var ok, e := Load(Wrap(DIRECTORY_WINDOW + 4 * dirindex));
      if !ok {
        return Stopped(Faulted);
      }
      assert good ==> e == Entry(s.mem, cr3, dirindex);
      if Present(e) {
        return Ok;
      }
      var p;
      st, p := MapPageDirectoryIndex(dirindex);
      if st != Ok {
        return;
      }
      ok := Store(Wrap(DIRECTORY_WINDOW + 4 * dirindex), OrFlags(p, 3));
      if !ok {
        return Stopped(Faulted);
      }
      assert good ==> NewTable(s, cr3, dirindex) == Done(View());
      if clear {
        if good && CanAddTable(s, cr3, dirindex) {
          NewTableReady(s, View(), cr3, dirindex);
        }
        st := ClearPage(dirindex);
      }
    }

    /** Maps n pages of `phys` from `virt` on. */
    method MapPhysicalToVirtual(phys: uint32, n: uint32, virt: uint32, flags: nat) returns (st: Status)
      requires Valid() && flags < 256
      modifies mem, pmm.mmap, pmm.pool
      ensures old(MapGuard(View(), cr3, virt / PAGE, n)) ==>
                Agrees(st, View(), Map(old(View()), cr3, phys, n, virt / PAGE, flags))
    {
      hide Calm, LoopInvariant, StaysInside, Wf, CalmMap, EnsureClearTable, MapLoop, Translate;
      var tableindex, dirindex := virt / PAGE % 1024, virt / 0x40_0000;
      assert dirindex == virt / PAGE / 1024;
      ghost var s := View();
      ghost var good := MapGuard(s, cr3, virt / PAGE, n);
      if good {
        FirstCanBeAdded(s, cr3, virt / PAGE, n);
      }
      st := PrepareDirectory(dirindex, true);
      if st != Ok {
        return;
      }
      if good {
        FirstPrepared(s, View(), cr3, phys, virt / PAGE, n, flags);
      }
      // the source reads the first entry, to warn if it is already mapped
      var ok, _ := Load(Wrap(TABLE_WINDOW + 4 * (dirindex * 1024 + tableindex)));
      if !ok {
        return Stopped(Faulted);
      }
      st := MapEntries(phys, n, dirindex, tableindex, flags);
    }

    /** The loop of MapPhysicalToVirtual. */
    method MapEntries(phys: uint32, n: uint32, dirindex: nat, tableindex: nat, flags: nat) returns (st: Status)
      requires Valid() && flags < 256 && tableindex < 1024
      modifies mem, pmm.mmap, pmm.pool
      ensures var page := 1024 * dirindex + tableindex;
              old(LoopInvariant(View(), cr3, page, n)) ==>
                Agrees(st, View(), MapLoop(old(View()), cr3, page, phys, n, flags))
    {
      hide Wf, Calm, Turn, TurnDone, MapLoop, Ahead;
      var toffset := dirindex * 1024 + tableindex;
      var dir, tbl := dirindex, tableindex;
      var p: uint32 := phys;
      ghost var good := LoopInvariant(View(), cr3, toffset, n);
      ghost var o := if good then MapLoop(View(), cr3, toffset, phys, n, flags) else Halted(Faulted);
      for i := 0 to n
        invariant 1024 * dir + tbl == toffset + i && 0 <= tbl < 1024
        invariant good ==> LoopInvariant(View(), cr3, toffset + i, n - i) && MapLoop(View(), cr3, toffset + i, p, n - i, flags) == o
      {
        if good {
          NextTurn(View(), cr3, toffset + i, p, n - i, flags);
        }
        st, dir, tbl := MapEntry(toffset + i, dir, tbl, p, flags);
        if st != Ok {
          return;
        }
        p := Wrap(p + PAGE);
      }
      if good {
        MapEnd(View(), cr3, toffset + n, p, flags);
      }
      return Ok;
    }

    /** One turn of the loop: writes entry `page` of the tables. The pair of indices only tells when a table ends. */
    method MapEntry(page: nat, dirindex: nat, tableindex: nat, p: uint32, flags: nat)
      returns (st: Status, dir: nat, tbl: nat)
      requires Valid() && flags < 256 && tableindex < 1024 && page == 1024 * dirindex + tableindex
      modifies mem, pmm.mmap, pmm.pool
      ensures 1024 * dir + tbl == page + 1 && tbl < 1024
      ensures page < USABLE && old(Wf(View(), cr3) && Present(Entry(mem[..], cr3, dirindex))) ==>
                Agrees(st, View(), Turn(old(View()), cr3, page, p, flags))
    {
      hide Wf, StaysInside, Translate, EnsureTable, OrFlags, Leaf, Grows;
      assert page / 1024 == dirindex && page % 1024 == tableindex;
      ghost var s := View();
      dir, tbl := dirindex, tableindex + 1;
      if tbl >= 1024 {
        dir, tbl := dir + 1, 0;
      }
      if page < USABLE && Wf(s, cr3) && Present(Entry(s.mem, cr3, dirindex)) {
        Windows(s, cr3, page);
        WriteLeafEffect(s, cr3, page, OrFlags(p, flags % 128));
      }
      var ok := Store(Wrap(TABLE_WINDOW + 4 * page), OrFlags(p, flags % 128));
      if !ok {
        return Stopped(Faulted), dir, tbl;
      }
      st := Ok;
      if tableindex + 1 >= 1024 {
        st := PrepareDirectory(dir, false);
      }
    }

    /** Clears the present bit of n entries from `virt` on. */
    method UnmapVirtual(virt: uint32, n: uint32) returns (st: Status)
      requires Valid()
      modifies mem
      ensures old(Wf(View(), cr3)) && virt / PAGE + n <= USABLE ==>
                Agrees(st, View(), Unmap(old(View()), cr3, virt / PAGE, n))
    {
      hide Wf, UnmapLoop, Translate;
      var tableindex, dirindex := virt / PAGE % 1024, virt / 0x40_0000;
      ghost var page := virt / PAGE;
      assert dirindex == page / 1024;
      ghost var good := Wf(View(), cr3) && page + n <= USABLE;
      if good {
        Windows(View(), cr3, page);
      }
      var ok, e := Load(Wrap(DIRECTORY_WINDOW + 4 * dirindex));
      if !ok {
        return Stopped(Faulted);
      }
      // the source only logs an absent directory; the next read faults if it is
      ok, e := Load(Wrap(TABLE_WINDOW + 4 * (dirindex * 1024 + tableindex)));
      if !ok {
        return Stopped(Faulted);
      }
      st := UnmapEntries(dirindex, tableindex, n);
    }

    /** The loop of UnmapVirtual. */
    method UnmapEntries(dirindex: nat, tableindex: nat, n: uint32) returns (st: Status)
      requires Valid() && tableindex < 1024
      modifies mem
      ensures var page := 1024 * dirindex + tableindex;
              old(Wf(View(), cr3)) && page + n <= USABLE ==> Agrees(st, View(), UnmapLoop(old(View()), cr3, page, n))
    {
      hide Wf, UnmapLoop;
      var toffset := dirindex * 1024 + tableindex;
      var dir, tbl := dirindex, tableindex;
      ghost var good := Wf(View(), cr3) && toffset + n <= USABLE;
      ghost var o := if good then UnmapLoop(View(), cr3, toffset, n) else Halted(Faulted);
      for i := 0 to n
        invariant 1024 * dir + tbl == toffset + i && 0 <= tbl < 1024
        invariant good ==> Wf(View(), cr3) && UnmapLoop(View(), cr3, toffset + i, n - i) == o
      {
        if good {
          UnmapTurn(View(), cr3, toffset + i, n - i);
        }
        st, dir, tbl := UnmapEntry(toffset + i, dir, tbl);
        if st != Ok {
          return;
        }
      }
      if good {
        UnmapEnd(View(), cr3, toffset + n);
      }
      return Ok;
    }

    /** One turn of the loop: clears the present bit of entry `page` of the tables. */
    method UnmapEntry(page: nat, dirindex: nat, tableindex: nat) returns (st: Status, dir: nat, tbl: nat)
      requires Valid() && tableindex < 1024 && page == 1024 * dirindex + tableindex
      modifies mem
      ensures 1024 * dir + tbl == page + 1 && tbl < 1024
      ensures page < USABLE && old(Wf(View(), cr3)) ==>
                if old(Present(Entry(mem[..], cr3, dirindex)))
                then st == Ok && View() == old(WriteLeaf(View(), cr3, page, WithoutPresent(Leaf(mem[..], cr3, page))))
                else st == Stopped(Faulted)
    {
      hide Wf, Translate;
      assert page / 1024 == dirindex && page % 1024 == tableindex;
      ghost var good := page < USABLE && Wf(View(), cr3);
      dir, tbl := dirindex, tableindex + 1;
      if tbl >= 1024 {
        dir, tbl := dir + 1, 0;
      }
      if good {
        Windows(View(), cr3, page);
      }
      var ok, e := Load(Wrap(TABLE_WINDOW + 4 * page));
      if !ok {
        return Stopped(Faulted), dir, tbl;
      }
      if good {
        WriteLeafEffect(View(), cr3, page, WithoutPresent(e));
      }
      ok := Store(Wrap(TABLE_WINDOW + 4 * page), WithoutPresent(e));
      if !ok {
        return Stopped(Faulted), dir, tbl;
      }
      st := Ok;
      if tableindex + 1 >= 1024 {
        // the source reads the next directory entry, to log if it is absent
        if good {
          Windows(View(), cr3, page + 1);
        }
        ok, e := Load(Wrap(DIRECTORY_WINDOW + 4 * dir));
        if !ok {
          return Stopped(Faulted), dir, tbl;
        }
      }
    }

    /** Allocates n pages of memory of the wanted type and maps them to the next addresses of the zone. */
    method AllocateVirtualPhysical(pzone: bv8, n: uint32, flags: nat, vzone: nat)
      returns (st: Status, virtaddr: uint32, physaddr: uint32)
      requires Valid() && flags < 256 && vzone < ZONES
      modifies mem, pmm.mmap, pmm.pool, lastVaddr
      ensures old(CanAllocate(Whole(), cr3, pzone, n, vzone)) ==>
                Replies(st, virtaddr, physaddr, Whole(),
                        VmmRuns.AllocateVirtualPhysical(old(Whole()), cr3, pzone, n, flags, vzone))
    {
      hide Wf, CalmMap, StaysInside, MapStaysInside, Map, PmmSpec.Allocate, PmmSpec.MapPages;
      var last := lastVaddr[vzone];
      ghost var m := Whole();
      ghost var good := CanAllocate(m, cr3, pzone, n, vzone);
      if Exhausted(last, n, vzone) {
        return Stopped(Panicked), 0, 0;
      }
      var a := pmm.AllocatePhysical(n, pzone);
      if a.Panic? {
        return Stopped(Panicked), 0, 0;
      }
      if a.Overrun? {
        return Stopped(Overran), 0, 0;
      }
      if a.value == PmmSpec.FAILED {
        return Stopped(Panicked), 0, 0;
      }
      if good {
        AllocatedIsWf(m.sys, cr3, pzone, n);
      }
      physaddr := a.value;
      st, virtaddr := MapAtLast(physaddr, n, flags, vzone);
    }

    /** The end of both allocators: maps the pages at the bump pointer and moves it behind them. */
    method MapAtLast(physaddr: uint32, n: uint32, flags: nat, vzone: nat) returns (st: Status, virtaddr: uint32)
      requires Valid() && flags < 256 && vzone < ZONES
      modifies mem, pmm.mmap, pmm.pool, lastVaddr
      ensures old(MapGuard(View(), cr3, lastVaddr[vzone] / PAGE, n)) ==>
                Replies(st, virtaddr, physaddr, Whole(),
                        VmmRuns.MapAtLast(old(Whole()), cr3, old(pmm.View()), physaddr, n, flags, vzone))
    {
      hide Wf, CalmMap, Map;
      virtaddr := lastVaddr[vzone];
      st := MapPhysicalToVirtual(physaddr, n, virtaddr, flags);
      if st != Ok {
        return;
      }
      lastVaddr[vzone] := Wrap(virtaddr + PAGE * n);
      assert lastVaddr[..] == old(lastVaddr[..])[vzone := Wrap(virtaddr + PAGE * n)];
    }

    /** Maps the pages from physical address `phys` on to the next addresses of the zone. */
    method MapPhysicalAddress(phys: uint32, n: uint32, flags: nat, vzone: nat) returns (st: Status, virtaddr: uint32)
      requires Valid() && flags < 256 && vzone < ZONES
      modifies mem, pmm.mmap, pmm.pool, lastVaddr
      ensures old(CanMapAddress(Whole(), cr3, phys, n, vzone)) ==>
                Replies(st, virtaddr, phys, Whole(), VmmRuns.MapPhysicalAddress(old(Whole()), cr3, phys, n, flags, vzone))
    {
      hide Wf, CalmMap, StaysInside, MapStaysInside, Map, PmmSpec.Allocate, PmmSpec.MapPages;
      var last := lastVaddr[vzone];
      ghost var m := Whole();
      ghost var good := CanMapAddress(m, cr3, phys, n, vzone);
      var off := phys % PAGE;
      var base := phys - off;
      if Exhausted(last, n, vzone) {
        return Stopped(Panicked), 0;
      }
      var a := pmm.MapPages(base, n);
      if a.Panic? {
        return Stopped(Panicked), 0;
      }
      if a.Overrun? {
        return Stopped(Overran), 0;
      }
      if a.value == PmmSpec.FAILED {
        return Stopped(Panicked), 0;
      }
      if good {
        MappedIsWf(m.sys, cr3, base, n);
      }
      st, virtaddr := MapAtLast(a.value, n, flags, vzone);
      virtaddr := Wrap(virtaddr + off);
    }

    /** memset of the table of a directory to 0, through the table window. */
    method ClearPage(dirindex: nat) returns (st: Status)
      requires Valid()
      modifies mem
      ensures dirindex < 1023 && old(Tables(mem[..], cr3) && Present(Entry(mem[..], cr3, dirindex))) ==>
                st == Ok && mem[..] == ZeroFrame(old(mem[..]), old(Frame(Entry(mem[..], cr3, dirindex))))
    {
      hide Tables, Translate, ZeroWords, ZeroFrame;
      ghost var m: Memory := mem[..];
      ghost var good := dirindex < 1023 && Tables(m, cr3) && Present(Entry(m, cr3, dirindex));
      ghost var f := if good then Frame(Entry(m, cr3, dirindex)) else 0;
      ZeroEnds(m, f);
      for i := 0 to 1024
        invariant good ==> mem[..] == ZeroWords(m, f, i)
      {
        if good {
          ClearingKeepsWindow(m, mem[..], cr3, dirindex, i);
          ZeroStep(m, f, i);
        }
        var ok := Store(Wrap(TABLE_WINDOW + dirindex * PAGE + 4 * i), 0);
        if !ok {
          return Stopped(Faulted);
        }
      }
      return Ok;
    }
  }

  /** The method ended with what the reply says. */
  ghost predicate Replies(st: Status, virt: uint32, phys: uint32, m: Vm, r: Reply) {
    match r
    case Mapped(m', v, p) => st == Ok && virt == v && phys == p && m == m'
    case Stop(w) => st == Stopped(w)
  }

  /** The range ends below the table window and the allocator has room. */
  ghost predicate CanAllocate(m: Vm, c: nat, pzone: bv8, n: uint32, z: nat) {
    && z < |m.last| && m.last[z] / PAGE + n <= USABLE && Wf(m.sys, c) && StaysInside(m.sys.pmm, n, pzone)
    && CalmMap(Sys(m.sys.mem, PmmSpec.Allocate(m.sys.pmm, n, pzone).0), c, m.last[z] / PAGE, n)
  }

  ghost predicate CanMapAddress(m: Vm, c: nat, phys: uint32, n: uint32, z: nat) {
    && z < |m.last| && m.last[z] / PAGE + n <= USABLE && Wf(m.sys, c) && MapStaysInside(m.sys.pmm, phys - phys % PAGE, n)
    && CalmMap(Sys(m.sys.mem, PmmSpec.MapPages(m.sys.pmm, phys - phys % PAGE, n).0), c, m.last[z] / PAGE, n)
  }

  /** Both windows at a page: its directory entry and its table entry. */
  lemma {:induction false} Windows(s: Sys, c: nat, page: nat)
    requires Wf(s, c) && page <= USABLE
    ensures c < FRAMES
    ensures var d := page / 1024;
            && Translate(s.mem, c, Wrap(DIRECTORY_WINDOW + 4 * d)) == Phys(4 * (1024 * c + d))
            && Translate(s.mem, c, Wrap(TABLE_WINDOW + 4 * page))
               == if Present(Entry(s.mem, c, d)) then Phys(4 * (1024 * Frame(Entry(s.mem, c, d)) + page % 1024)) else Fault
  {
    hide Wf, SelfMapped, Translate;
    WfDirectory(s, c);
    DirectoryWindow(s.mem, c, page / 1024);
    TableWindow(s.mem, c, page / 1024, page % 1024);
  }

  lemma {:induction false} AllocatedIsWf(s: Sys, c: nat, pzone: bv8, n: uint32)
    requires Wf(s, c) && StaysInside(s.pmm, n, pzone)
    ensures Wf(Sys(s.mem, PmmSpec.Allocate(s.pmm, n, pzone).0), c)
  {
    AllocateClaimsFrames(s.pmm, n, pzone);
  }

  lemma {:induction false} MappedIsWf(s: Sys, c: nat, addr: uint32, n: uint32)
    requires Wf(s, c) && MapStaysInside(s.pmm, addr, n) && addr % PAGE == 0
    ensures Wf(Sys(s.mem, PmmSpec.MapPages(s.pmm, addr, n).0), c)
  {
    MapClaimsFrames(s.pmm, addr, n);
  }

  /** A new table can be cleared through the window. */
  lemma {:induction false} NewTableReady(s: Sys, u: Sys, c: nat, d: nat)
    requires c < FRAMES && Wf(s, c) && d < 1024 && !Present(Entry(s.mem, c, d)) && CanAddTable(s, c, d)
    requires NewTable(s, c, d) == Done(u)
    ensures d < 1023 && Tables(u.mem, c) && Present(Entry(u.mem, c, d))
  {
    hide NewTable, FrameTaken, Sound, StaysInside;
    NewTableEffect(s, c, d);
  }

  lemma {:induction false} MapEnd(s: Sys, c: nat, page: nat, phys: uint32, flags: nat)
    requires c < FRAMES && page <= USABLE
    ensures MapLoop(s, c, page, phys, 0, flags) == Done(s)
  {}

  lemma {:induction false} UnmapEnd(s: Sys, c: nat, page: nat)
    requires c < FRAMES && page <= USABLE
    ensures UnmapLoop(s, c, page, 0) == Done(s)
  {}

  /** One turn of the unmapping loop. */
  lemma {:induction false} UnmapTurn(s: Sys, c: nat, page: nat, n: nat)
    requires Wf(s, c) && n > 0 && page + n <= USABLE
    ensures var e := Leaf(s.mem, c, page);
            if Present(Entry(s.mem, c, page / 1024))
            then
              && Wf(WriteLeaf(s, c, page, WithoutPresent(e)), c)
              && UnmapLoop(s, c, page, n) == UnmapLoop(WriteLeaf(s, c, page, WithoutPresent(e)), c, page + 1, n - 1)
            else UnmapLoop(s, c, page, n) == Halted(Faulted)
  {
    if Present(Entry(s.mem, c, page / 1024)) {
      WriteLeafEffect(s, c, page, WithoutPresent(Leaf(s.mem, c, page)));
    }
  }

  lemma {:induction false} FirstCanBeAdded(s: Sys, c: nat, page: nat, n: nat)
    requires MapGuard(s, c, page, n)
    ensures CanAddTable(s, c, page / 1024)
  {}

  /** After the first directory has been prepared the loop can start. */
  lemma {:induction false} FirstPrepared(s: Sys, u: Sys, c: nat, phys: uint32, page: nat, n: nat, flags: nat)
    requires MapGuard(s, c, page, n) && EnsureClearTable(s, c, page / 1024) == Done(u)
    ensures LoopInvariant(u, c, page, n)
    ensures Map(s, c, phys, n, page, flags) == MapLoop(u, c, page, phys, n, flags)
    ensures Translate(u.mem, c, Wrap(TABLE_WINDOW + 4 * page)) != Fault
  {
    var d := page / 1024;
    if Present(Entry(s.mem, c, d)) {
      var k := LastDir(page, n) - d;
      assert Absent(s.mem, c, d, k + 1) == Absent(s.mem, c, d + 1, k);
    } else {
      FirstTable(s, c, n, page);
    }
    FirstEntryReadable(u, c, page);
  }

  lemma {:induction false} FirstEntryReadable(u: Sys, c: nat, page: nat)
    requires SelfMapped(u.mem, c) && page <= USABLE && Present(Entry(u.mem, c, page / 1024))
    ensures Translate(u.mem, c, Wrap(TABLE_WINDOW + 4 * page)) != Fault
  {
    TableWindow(u.mem, c, page / 1024, page % 1024);
  }

  /** The first i words of a frame cleared. */
  function ZeroWords(m: Memory, f: nat, i: nat): Memory
    requires f < FRAMES && i <= 1024
  {
    m[..1024 * f] + seq(i, _ => 0) + m[1024 * f + i..]
  }

  lemma {:induction false} ZeroEnds(m: Memory, f: nat)
    requires f < FRAMES
    ensures ZeroWords(m, f, 0) == m && ZeroWords(m, f, 1024) == ZeroFrame(m, f)
  {}

  lemma {:induction false} ZeroStep(m: Memory, f: nat, i: nat)
    requires f < FRAMES && i < 1024
    ensures ZeroWords(m, f, i)[1024 * f + i := 0] == ZeroWords(m, f, i + 1)
  {}

  /** While a table is being cleared, the next word is still reached through the window. */
  lemma {:induction false} ClearingKeepsWindow(m: Memory, now: Memory, c: nat, d: nat, i: nat)
    requires Tables(m, c) && d < 1023 && Present(Entry(m, c, d)) && i < 1024
    requires now == ZeroWords(m, Frame(Entry(m, c, d)), i)
    ensures Wrap(TABLE_WINDOW + d * PAGE + 4 * i) == TABLE_WINDOW + 4 * (1024 * d + i)
    ensures Translate(now, c, TABLE_WINDOW + 4 * (1024 * d + i)) == Phys(Frame(Entry(m, c, d)) * PAGE + 4 * i)
  {
    var f := Frame(Entry(m, c, d));
    assert TableAt(m, c, d, f);
    assert f != c;
    assert Entry(now, c, 1023) == Entry(m, c, 1023) && Entry(now, c, d) == Entry(m, c, d);
    TableWindow(now, c, d, i);
  }
}
