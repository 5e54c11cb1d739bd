/** From the tables the boot code leaves to a well-formed system. */
module VmmInit {
  import opened Words
  import opened Paging
  import opened PmmFrames
  import opened VmmSpec
  import opened VmmMap
  import opened VmmRuns
  import PmmSpec

  /** The boot page tables: directory entries 0 and 768 name two tables that both map the first four megabytes. */
  predicate BootTables(mem: Memory, c: nat, low: nat, high: nat) {
    && c < 1024 && low < 1024 && high < 1024 && c != low && c != high && low != high
    && (forall d: nat | d < 1024 ::
          Entry(mem, c, d) == if d == 0 then PAGE * low + 3 else if d == 768 then PAGE * high + 3 else 0)
    && (forall i: nat | i < 1024 :: Entry(mem, low, i) == PAGE * i + 3 && Entry(mem, high, i) == PAGE * i + 3)
  }

  /** The frames of the boot tables lie in the range the allocator's constructor reserved. */
  predicate BootFramesTaken(p: PmmSpec.State, c: nat, low: nat, high: nat) {
    Sound(p) && FrameTaken(p, c) && FrameTaken(p, low) && FrameTaken(p, high)
  }

  /** The self-map entry written, the page at address 0 unmapped. */
  function SelfMap(mem: Memory, c: nat): Memory
    requires c < FRAMES
  {
    mem[1024 * c + 1023 := OrFlags(PAGE * c, 3)]
  }

  function NullPageUnmapped(mem: Memory, low: nat): Memory
    requires low < FRAMES
  {
    mem[1024 * low := 0]
  }

  /** The boot tables are reached through the identity map of the first four megabytes. */
  lemma {:induction false} IdentityBefore(mem: Memory, c: nat, low: nat, high: nat, f: nat, k: nat)
    requires BootTables(mem, c, low, high) && f < 1024 && k < PAGE
    ensures Translate(mem, c, PAGE * f + k) == Phys(PAGE * f + k)
  {
    WalkPage(mem, c, f, k);
    BootEntry(f);
    BootEntry(low);
    assert Entry(mem, c, 0) == PAGE * low + 3 && Entry(mem, low, f) == PAGE * f + 3;
  }

  lemma {:induction false} AfterSelfMap(mem: Memory, c: nat, low: nat, high: nat)
    requires BootTables(mem, c, low, high)
    ensures var m := SelfMap(mem, c);
            && Translate(m, c, DIRECTORY_WINDOW) == Phys(c * PAGE)
            && Entry(m, c, 0) == PAGE * low + 3
            && Translate(m, c, PAGE * low) == Phys(PAGE * low)
  {
    hide BootTables, SelfMap, Translate, Entry, Present, Frame, SelfMapped;
    SelfMapEntries(mem, c, low, high);
    var m := SelfMap(mem, c);
    DirectoryWindow(m, c, 0);
    BootEntry(low);
    WalkPage(m, c, low, 0);
  }

  lemma {:induction false} SelfMapEntries(mem: Memory, c: nat, low: nat, high: nat)
    requires BootTables(mem, c, low, high)
    ensures c < 1024 && low < 1024
    ensures var m := SelfMap(mem, c);
            SelfMapped(m, c) && Entry(m, c, 0) == PAGE * low + 3 && Entry(m, low, low) == PAGE * low + 3
  {
    var m := SelfMap(mem, c);
    assert Entry(m, c, 0) == Entry(mem, c, 0);
    assert Entry(m, low, low) == Entry(mem, low, low);
  }

  /** What the tables hold before the final unmapping. */
  predicate Prepared(m: Memory, c: nat, low: nat, high: nat) {
    && c < 1024 && low < 1024 && high < 1024
    && SelfMapped(m, c)
    && (forall d: nat | d < 1023 ::
          Entry(m, c, d) == if d == 0 then PAGE * low + 3 else if d == 768 then PAGE * high + 3 else 0)
    && (forall i: nat | i < 1024 ::
          Entry(m, low, i) == (if i == 0 then 0 else PAGE * i + 3) && Entry(m, high, i) == PAGE * i + 3)
  }

  lemma {:induction false} BothEdits(mem: Memory, c: nat, low: nat, high: nat)
    requires BootTables(mem, c, low, high)
    ensures Prepared(NullPageUnmapped(SelfMap(mem, c), low), c, low, high)
    ensures Entry(NullPageUnmapped(SelfMap(mem, c), low), c, 1023) == PAGE * c + 3
  {
    var m := NullPageUnmapped(SelfMap(mem, c), low);
    forall d: nat | d < 1023 ensures Entry(m, c, d) == Entry(mem, c, d) {}
    forall i: nat | i < 1024
      ensures Entry(m, low, i) == (if i == 0 then 0 else Entry(mem, low, i)) && Entry(m, high, i) == Entry(mem, high, i)
    {}
  }

  lemma {:induction false} PreparedIsWf(m: Memory, p: PmmSpec.State, c: nat, low: nat, high: nat)
    requires Prepared(m, c, low, high) && c != low && c != high && low != high && BootFramesTaken(p, c, low, high)
    ensures Wf(Sys(m, p), c)
  {
    hide FrameTaken, Sound;
    forall d, f: nat | 0 <= d < 1023 && TableAt(m, c, d, f) ensures (d == 0 && f == low) || (d == 768 && f == high) {
      PreparedTable(m, c, low, high, d, f);
    }
    forall d, d' | 0 <= d < d' < 1023 && Present(Entry(m, c, d)) ensures !TableAt(m, c, d', Frame(Entry(m, c, d))) {
      PreparedTable(m, c, low, high, d, Frame(Entry(m, c, d)));
    }
  }

  lemma {:induction false} PreparedTable(m: Memory, c: nat, low: nat, high: nat, d: nat, f: nat)
    requires Prepared(m, c, low, high) && d < 1023 && TableAt(m, c, d, f)
    ensures (d == 0 && f == low) || (d == 768 && f == high)
  {
    assert Entry(m, c, d) == if d == 0 then PAGE * low + 3 else if d == 768 then PAGE * high + 3 else 0;
  }

  /** Where an address walks to after Init: the kernel's four megabytes as before, of the identity map only what lies
      below 0xf0000 (without the null page) and from 0x3f0000 on, and nothing else. */
  function InitWalk(page: nat, k: nat): Walk
    requires page < USABLE && k < PAGE
  {
    if 0 < page < 0xf0 || 0x3f0 <= page < 0x400 then Phys(PAGE * page + k)
    else if 768 * 1024 <= page < 769 * 1024 then Phys(PAGE * (page - 768 * 1024) + k)
    else Fault
  }

  lemma {:induction false} PreparedLeaf(m: Memory, c: nat, low: nat, high: nat, page: nat)
    requires Prepared(m, c, low, high) && page < USABLE
    ensures Leaf(m, c, page)
            == if 0 < page < 0x400 then PAGE * page + 3
               else if 768 * 1024 <= page < 769 * 1024 then PAGE * (page - 768 * 1024) + 3 else 0
  {
    hide Prepared, Entry, Present, Frame, SelfMapped;
    var d := page / 1024;
    PreparedEntries(m, c, low, high, d, page % 1024);
    BootEntry(low);
    BootEntry(high);
    ZeroAbsent();
    SplitPage(page);
  }

  lemma {:induction false} PreparedEntries(m: Memory, c: nat, low: nat, high: nat, d: nat, i: nat)
    requires Prepared(m, c, low, high) && d < 1023 && i < 1024
    ensures c < 1024 && low < 1024 && high < 1024
    ensures Entry(m, c, d) == if d == 0 then PAGE * low + 3 else if d == 768 then PAGE * high + 3 else 0
    ensures Entry(m, low, i) == if i == 0 then 0 else PAGE * i + 3
    ensures Entry(m, high, i) == PAGE * i + 3
  {}

  lemma {:induction false} ZeroAbsent()
    ensures !Present(0)
  {}

  lemma {:induction false} SplitPage(page: nat)
    requires page < USABLE
    ensures page == 1024 * (page / 1024) + page % 1024 && page / 1024 < 1023
  {}

  lemma {:induction false} LeafAfterInit(
    m: Memory, p: PmmSpec.State, t: Sys, c: nat, low: nat, high: nat, page: nat, k: nat)
    requires Prepared(m, c, low, high) && UnmapDone(Sys(m, p), t, c, 0xf0, 0x300) && page < USABLE && k < PAGE
    ensures Translate(t.mem, c, PAGE * page + k) == InitWalk(page, k)
  {
    assert c < FRAMES;
    hide Prepared, Grows, SameDirectory, Leaf;
    PreparedLeaf(m, c, low, high, page);
    WalkPage(t.mem, c, page, k);
    BootEntry(page);
    if page >= 768 * 1024 {
      BootEntry(page - 768 * 1024);
    }
  }

  lemma {:induction false} BootEntry(i: nat)
    requires i < FRAMES
    ensures Frame(PAGE * i + 3) == i && Present(PAGE * i + 3) && !Present(WithoutPresent(PAGE * i + 3))
  {
    var e := PAGE * i + 3;
    assert e == 2 * (2048 * i + 1) + 1;
    assert e % 2 == 1;
    assert WithoutPresent(e) == 2 * (2048 * i + 1);
  }

  /** Init leaves a well-formed system: the tables do not alias and are owned, the self-map works, and the
      translation is exactly InitWalk. Nothing has been handed out yet, so the invariant of all runs holds. */
  lemma {:induction false} InitEstablishes(
    mem: Memory, p: PmmSpec.State, c: nat, low: nat, high: nat, last: seq<uint32>)
    requires BootTables(mem, c, low, high) && BootFramesTaken(p, c, low, high)
    requires |last| == ZONES && forall z | 0 <= z < ZONES :: last[z] == ZoneFirst(z)
    ensures var m := NullPageUnmapped(SelfMap(mem, c), low);
            && Wf(Sys(m, p), c)
            && var r := Unmap(Sys(m, p), c, 0xf0, 0x300);
               && r.Done? && r.sys.pmm == p && Entry(r.sys.mem, c, 1023) == PAGE * c + 3
               && Inv(Vm(r.sys, last), c, [])
               && (forall page: nat, k: nat | page < USABLE && k < PAGE ::
                     Translate(r.sys.mem, c, PAGE * page + k) == InitWalk(page, k))
  {
    hide BootTables, BootFramesTaken, SelfMap, NullPageUnmapped, Wf, Inv, Prepared, Unmap, UnmapDone;
    InitAccesses(mem, p, c, low, high);
    var m := NullPageUnmapped(SelfMap(mem, c), low);
    BothEdits(mem, c, low, high);
    UnmapLow(m, p, c, low, high);
    var t := Unmap(Sys(m, p), c, 0xf0, 0x300).sys;
    AllocatorKept(Sys(m, p), t, c);
    NothingHeld(t, c, last);
    forall page: nat, k: nat | page < USABLE && k < PAGE
      ensures Translate(t.mem, c, PAGE * page + k) == InitWalk(page, k)
    {
      LeafAfterInit(m, p, t, c, low, high, page, k);
    }
  }

  lemma {:induction false} AllocatorKept(s: Sys, t: Sys, c: nat)
    requires c < FRAMES && UnmapDone(s, t, c, 0xf0, 0x300)
    ensures t.pmm == s.pmm && Entry(t.mem, c, 1023) == Entry(s.mem, c, 1023)
  {}

  lemma {:induction false} UnmapLow(m: Memory, p: PmmSpec.State, c: nat, low: nat, high: nat)
    requires c < FRAMES && Wf(Sys(m, p), c) && Prepared(m, c, low, high)
    ensures Unmap(Sys(m, p), c, 0xf0, 0x300).Done?
    ensures var t := Unmap(Sys(m, p), c, 0xf0, 0x300).sys; Wf(t, c) && UnmapDone(Sys(m, p), t, c, 0xf0, 0x300)
  {
    LowTableThere(m, c, low, high);
    hide Prepared, HasTables;
    UnmapLoopEffect(Sys(m, p), c, 0xf0, 0x300);
  }

  lemma {:induction false} NothingHeld(t: Sys, c: nat, last: seq<uint32>)
    requires Wf(t, c) && |last| == ZONES && forall z | 0 <= z < ZONES :: last[z] == ZoneFirst(z)
    ensures Inv(Vm(t, last), c, [])
  {
    hide Wf;
    forall z | 0 <= z < ZONES ensures last[z] % PAGE == 0 && ZoneFirst(z) <= last[z] {
      assert last[z] == ZoneFirst(z);
    }
  }

  lemma {:induction false} LowTableThere(m: Memory, c: nat, low: nat, high: nat)
    requires Prepared(m, c, low, high)
    ensures HasTables(m, c, 0xf0, 0x300) && Present(Entry(m, c, 0xf0 / 1024))
  {
    assert Entry(m, c, 0) == PAGE * low + 3;
  }

  lemma {:induction false} BootBounds(mem: Memory, c: nat, low: nat, high: nat)
    requires BootTables(mem, c, low, high)
    ensures c < 1024 && low < 1024 && high < 1024 && c != low && c != high && low != high
  {}

  lemma {:induction false} TableAddress(f: nat)
    ensures (PAGE * f + 3) - (PAGE * f + 3) % 1024 == PAGE * f
  {
    var q := 4 * f;
    assert PAGE * f + 3 == 1024 * q + 3;
    QuotientUnique(PAGE * f + 3, 1024, q, 3);
  }

  /** The self-map entry, the word read through the new window, and the entry of the page at address 0 are reached. */
  predicate AccessesLand(mem: Memory, c: nat, low: nat) {
    && c < 1024 && low < 1024
    && Translate(mem, c, PAGE * c + 4 * 1023) == Phys(4 * (1024 * c + 1023))
    && var m := SelfMap(mem, c);
       && Translate(m, c, DIRECTORY_WINDOW) == Phys(4 * (1024 * c))
       && m[1024 * c] - m[1024 * c] % 1024 == PAGE * low
       && Translate(m, c, PAGE * low) == Phys(4 * (1024 * low))
  }

  /** The three accesses of Init before the unmapping: where they go and what they leave. */
  lemma {:induction false} InitAccesses(mem: Memory, p: PmmSpec.State, c: nat, low: nat, high: nat)
    requires BootTables(mem, c, low, high) && BootFramesTaken(p, c, low, high)
    ensures c < FRAMES && low < FRAMES && AccessesLand(mem, c, low)
    ensures Wf(Sys(NullPageUnmapped(SelfMap(mem, c), low), p), c)
  {
    hide BootTables, BootFramesTaken, Wf, Prepared, Translate, SelfMap, NullPageUnmapped;
    BootBounds(mem, c, low, high);
    IdentityBefore(mem, c, low, high, c, 4 * 1023);
    AfterSelfMap(mem, c, low, high);
    var m := SelfMap(mem, c);
    assert m[1024 * c] == Entry(m, c, 0);
    TableAddress(low);
    BothEdits(mem, c, low, high);
    PreparedIsWf(NullPageUnmapped(m, low), p, c, low, high);
  }
}
