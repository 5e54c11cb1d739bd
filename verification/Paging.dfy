/** 32-bit paging as the processor does it (section 4.3 of the Intel SDM Vol. 3A, without 4 MB pages):
    cr3 names a page directory of 1024 words, a present directory entry names a page table, a present
    table entry names a frame. Physical memory is its 2^30 words. */
module Paging {
  import opened Words

  type Memory = m: seq<uint32> | |m| == 0x4000_0000 ghost witness seq(0x4000_0000, _ => 0)

  const FRAMES: int := 0x10_0000
  /** Pages below the window through which the tables are seen. */
  const USABLE: int := 1023 * 1024
  const DIRECTORY_WINDOW: uint32 := 0xffff_f000
  const TABLE_WINDOW: uint32 := 0xffc0_0000

  datatype Walk = Fault | Phys(addr: uint32)

  predicate Present(e: uint32) {
    e % 2 == 1
  }

  function Frame(e: uint32): (f: nat)
    ensures f < FRAMES
  {
    e / PAGE
  }

  function Entry(mem: Memory, frame: nat, index: nat): uint32
    requires frame < FRAMES && index < 1024
  {
    mem[1024 * frame + index]
  }

  /** The hardware page walk. */
  function Translate(mem: Memory, c: nat, v: uint32): Walk
    requires c < FRAMES
  {
    var pde := Entry(mem, c, v / 0x40_0000);
    if !Present(pde) then Fault
    else
      var pte := Entry(mem, Frame(pde), v / PAGE % 1024);
      if !Present(pte) then Fault else Phys(Frame(pte) * PAGE + v % PAGE)
  }

  // ----- the recursive self-map

  /** The last directory entry names the directory itself. */
  predicate SelfMapped(mem: Memory, c: nat) {
    c < FRAMES && Present(Entry(mem, c, 1023)) && Frame(Entry(mem, c, 1023)) == c
  }

  /** pdir[d]: the d-th word from 0xfffff000 is directory entry d. */
  lemma {:induction false} DirectoryWindow(mem: Memory, c: nat, d: nat)
    requires SelfMapped(mem, c) && d < 1024
    ensures Translate(mem, c, DIRECTORY_WINDOW + 4 * d) == Phys(c * PAGE + 4 * d)
  {
    var v := DIRECTORY_WINDOW + 4 * d;
    assert v / 0x40_0000 == 1023 && v / PAGE % 1024 == 1023 && v % PAGE == 4 * d;
  }

  /** ptbl[1024 d + t]: that word from 0xffc00000 is entry t of the table of directory d, and it is
      there exactly when directory d is present. */
  lemma {:induction false} TableWindow(mem: Memory, c: nat, d: nat, t: nat)
    requires SelfMapped(mem, c) && d < 1024 && t < 1024
    ensures Translate(mem, c, TABLE_WINDOW + 4 * (1024 * d + t))
            == if Present(Entry(mem, c, d)) then Phys(Frame(Entry(mem, c, d)) * PAGE + 4 * t) else Fault
  {
    var v := TABLE_WINDOW + 4 * (1024 * d + t);
    assert v / 0x40_0000 == 1023;
    assert v / PAGE == 1023 * 1024 + d;
    assert v % PAGE == 4 * t;
  }

  // ----- leaves

  /** The table entry that decides a page, 0 if its directory is absent. */
  function Leaf(mem: Memory, c: nat, page: nat): uint32
    requires c < FRAMES && page < FRAMES
  {
    var pde := Entry(mem, c, page / 1024);
    if Present(pde) then Entry(mem, Frame(pde), page % 1024) else 0
  }

  /** A walk depends on the leaf of its page and on nothing else. */
  lemma {:induction false} TranslateByLeaf(mem: Memory, c: nat, v: uint32)
    requires c < FRAMES
    ensures var e := Leaf(mem, c, v / PAGE);
            Translate(mem, c, v) == if Present(e) then Phys(Frame(e) * PAGE + v % PAGE) else Fault
  {
    assert v / PAGE / 1024 == v / 0x40_0000;
  }

  // ----- tables that do not alias

  /** Directory entry d is present and its table is `f`. */
  predicate TableAt(mem: Memory, c: nat, d: nat, f: nat)
    requires c < FRAMES && d < 1024
  {
    Present(Entry(mem, c, d)) && Frame(Entry(mem, c, d)) == f
  }

  /** The frame holds the directory or one of its tables. */
  predicate IsTable(mem: Memory, c: nat, f: nat)
    requires c < FRAMES
  {
    f == c || exists d | 0 <= d < 1023 :: TableAt(mem, c, d, f)
  }

  /** The self-map is in place, and the directory and its tables are pairwise different frames. */
  predicate Tables(mem: Memory, c: nat) {
    && SelfMapped(mem, c)
    && (forall d | 0 <= d < 1023 :: !TableAt(mem, c, d, c))
    && (forall d, d' | 0 <= d < d' < 1023 && Present(Entry(mem, c, d)) ::
          !TableAt(mem, c, d', Frame(Entry(mem, c, d))))
  }

  lemma {:induction false} SameTable(mem: Memory, c: nat, d: nat, d': nat, f: nat)
    requires Tables(mem, c) && d < 1023 && d' < 1023 && TableAt(mem, c, d, f) && TableAt(mem, c, d', f)
    ensures d == d'
  {
    assert TableAt(mem, c, d', Frame(Entry(mem, c, d))) && TableAt(mem, c, d, Frame(Entry(mem, c, d')));
  }

  /** Every directory entry is as it was. */
  ghost predicate SameDirectory(mem: Memory, mem': Memory, c: nat)
    requires c < FRAMES
  {
    forall d | 0 <= d < 1024 :: Entry(mem', c, d) == Entry(mem, c, d)
  }

  lemma {:induction false} SameDirectoryKeepsTables(mem: Memory, mem': Memory, c: nat)
    requires Tables(mem, c) && SameDirectory(mem, mem', c)
    ensures Tables(mem', c)
    ensures forall f: nat :: IsTable(mem', c, f) == IsTable(mem, c, f)
  {
    forall d, f: nat | 0 <= d < 1024 ensures TableAt(mem', c, d, f) == TableAt(mem, c, d, f) {}
    forall d | 0 <= d < 1023 ensures !TableAt(mem', c, d, c) {
      assert !TableAt(mem, c, d, c);
    }
    forall d, d' | 0 <= d < d' < 1023 && Present(Entry(mem', c, d))
      ensures !TableAt(mem', c, d', Frame(Entry(mem', c, d)))
    {
      assert !TableAt(mem, c, d', Frame(Entry(mem, c, d)));
    }
  }

  /** Writing one entry of a page table changes one leaf and no other. */
  lemma {:induction false} WriteEntry(mem: Memory, c: nat, page: nat, w: uint32, mem': Memory)
    requires Tables(mem, c) && page < USABLE && Present(Entry(mem, c, page / 1024))
    requires mem' == mem[1024 * Frame(Entry(mem, c, page / 1024)) + page % 1024 := w]
    ensures Tables(mem', c) && SameDirectory(mem, mem', c)
    ensures forall q: nat | q < USABLE :: Leaf(mem', c, q) == if q == page then w else Leaf(mem, c, q)
  {
    var f := Frame(Entry(mem, c, page / 1024));
    assert TableAt(mem, c, page / 1024, f);
    assert f != c;
    SameDirectoryKeepsTables(mem, mem', c);
    forall q: nat | q < USABLE ensures Leaf(mem', c, q) == if q == page then w else Leaf(mem, c, q) {
      OtherEntryKept(mem, c, page, w, mem', q);
    }
  }

  lemma {:induction false} OtherEntryKept(mem: Memory, c: nat, page: nat, w: uint32, mem': Memory, q: nat)
    requires Tables(mem, c) && page < USABLE && q < USABLE && Present(Entry(mem, c, page / 1024))
    requires mem' == mem[1024 * Frame(Entry(mem, c, page / 1024)) + page % 1024 := w]
    requires SameDirectory(mem, mem', c)
    ensures Leaf(mem', c, q) == if q == page then w else Leaf(mem, c, q)
  {
    var f := Frame(Entry(mem, c, page / 1024));
    assert Entry(mem', c, q / 1024) == Entry(mem, c, q / 1024);
    if Present(Entry(mem, c, q / 1024)) {
      var g := Frame(Entry(mem, c, q / 1024));
      if g == f {
        SameTable(mem, c, q / 1024, page / 1024, f);
        assert q == 1024 * (q / 1024) + q % 1024 && page == 1024 * (page / 1024) + page % 1024;
      }
    }
  }

  /** Hanging a fresh frame under an absent directory entry: the leaves of that directory become whatever
      words the frame holds, all others stay, and the tables stay distinct. */
  lemma {:induction false} AddTable(mem: Memory, c: nat, d: nat, e: uint32, mem': Memory)
    requires Tables(mem, c) && d < 1023 && !Present(Entry(mem, c, d))
    requires Present(e) && !IsTable(mem, c, Frame(e))
    requires mem' == mem[1024 * c + d := e]
    ensures Tables(mem', c)
    ensures forall d' | 0 <= d' < 1024 :: Entry(mem', c, d') == if d' == d then e else Entry(mem, c, d')
    ensures forall q: nat | q < USABLE ::
              Leaf(mem', c, q) == if q / 1024 == d then Entry(mem, Frame(e), q % 1024) else Leaf(mem, c, q)
    ensures forall f: nat :: IsTable(mem', c, f) == (f == Frame(e) || IsTable(mem, c, f))
  {
    var f := Frame(e);
    forall d', g: nat | 0 <= d' < 1024
      ensures TableAt(mem', c, d', g) == if d' == d then g == f else TableAt(mem, c, d', g)
    {}
    forall d' | 0 <= d' < 1023 ensures !TableAt(mem', c, d', c) {
      assert !TableAt(mem, c, d', c);
    }
    forall a, b | 0 <= a < b < 1023 && Present(Entry(mem', c, a))
      ensures !TableAt(mem', c, b, Frame(Entry(mem', c, a)))
    {
      assert !TableAt(mem, c, a, f) && !TableAt(mem, c, b, f);
      assert Present(Entry(mem, c, a)) ==> !TableAt(mem, c, b, Frame(Entry(mem, c, a)));
    }
    forall q: nat | q < USABLE
      ensures Leaf(mem', c, q) == if q / 1024 == d then Entry(mem, f, q % 1024) else Leaf(mem, c, q)
    {
      if q / 1024 != d && Present(Entry(mem, c, q / 1024)) {
        assert TableAt(mem, c, q / 1024, Frame(Entry(mem, c, q / 1024)));
        assert !TableAt(mem, c, q / 1024, c);
      }
    }
    forall g: nat ensures IsTable(mem', c, g) == (g == f || IsTable(mem, c, g)) {
      if g == f {
        assert TableAt(mem', c, d, g);
      }
      if IsTable(mem, c, g) && g != c {
        var d' :| 0 <= d' < 1023 && TableAt(mem, c, d', g);
        assert TableAt(mem', c, d', g);
      }
    }
  }

  /** A frame filled with zeros. */
  function ZeroFrame(mem: Memory, f: nat): (r: Memory)
    requires f < FRAMES
  {
    mem[..1024 * f] + seq(1024, _ => 0) + mem[1024 * f + 1024..]
  }

  lemma {:induction false} ZeroFrameWords(mem: Memory, f: nat)
    requires f < FRAMES
    ensures forall g: nat, t: nat | g < FRAMES && t < 1024 ::
              Entry(ZeroFrame(mem, f), g, t) == if g == f then 0 else Entry(mem, g, t)
  {}

  /** Clearing the table of directory d clears its leaves and no other. */
  lemma {:induction false} ClearTable(mem: Memory, c: nat, d: nat)
    requires Tables(mem, c) && d < 1023 && Present(Entry(mem, c, d))
    ensures var mem' := ZeroFrame(mem, Frame(Entry(mem, c, d)));
            && Tables(mem', c) && SameDirectory(mem, mem', c)
            && (forall q: nat | q < USABLE :: Leaf(mem', c, q) == if q / 1024 == d then 0 else Leaf(mem, c, q))
  {
    var f := Frame(Entry(mem, c, d));
    var mem' := ZeroFrame(mem, f);
    assert TableAt(mem, c, d, f);
    ZeroFrameWords(mem, f);
    SameDirectoryKeepsTables(mem, mem', c);
    forall q: nat | q < USABLE ensures Leaf(mem', c, q) == if q / 1024 == d then 0 else Leaf(mem, c, q) {
      var pde := Entry(mem, c, q / 1024);
      if Present(pde) && Frame(pde) == f {
        SameTable(mem, c, q / 1024, d, f);
      }
    }
  }
}
