/** Allocation bitmaps. All bitmaps live in one byte pool; bit i of the pool is bit i%8 of byte i/8. */
module Bitmap {

  type Pool = seq<bv8>

  /** 1 << k */
  function Mask(k: nat): bv8
    requires k < 8
  {
    if k == 0 then 0x01 else if k == 1 then 0x02 else if k == 2 then 0x04 else if k == 3 then 0x08
    else if k == 4 then 0x10 else if k == 5 then 0x20 else if k == 6 then 0x40 else 0x80
  }

  predicate On(b: bv8, k: nat)
    requires k < 8
  {
    b & Mask(k) != 0
  }

  function TurnedOn(b: bv8, k: nat): bv8
    requires k < 8
  {
    b | Mask(k)
  }

  function Flipped(b: bv8, k: nat): bv8
    requires k < 8
  {
    b ^ Mask(k)
  }

  predicate Bit(mem: Pool, i: nat)
    requires i < 8 * |mem|
  {
    On(mem[i / 8], i % 8)
  }

  /** The n bits from `lo` exist; an empty run touches no bit. */
  predicate InPool(mem: Pool, lo: nat, n: nat) {
    n == 0 || lo + n <= 8 * |mem|
  }

  predicate FreeRun(mem: Pool, lo: nat, n: nat) {
    InPool(mem, lo, n) && forall i | lo <= i < lo + n :: !Bit(mem, i)
  }

  function SetBit(mem: Pool, i: nat): (r: Pool)
    requires i < 8 * |mem|
    ensures |r| == |mem|
  {
    mem[i / 8 := TurnedOn(mem[i / 8], i % 8)]
  }

  function ToggleBit(mem: Pool, i: nat): (r: Pool)
    requires i < 8 * |mem|
    ensures |r| == |mem|
  {
    mem[i / 8 := Flipped(mem[i / 8], i % 8)]
  }

  function SetRun(mem: Pool, lo: nat, n: nat): (r: Pool)
    requires InPool(mem, lo, n)
    ensures |r| == |mem|
  {
    if n == 0 then mem else SetBit(SetRun(mem, lo, n - 1), lo + n - 1)
  }

  function ToggleRun(mem: Pool, lo: nat, n: nat): (r: Pool)
    requires InPool(mem, lo, n)
    ensures |r| == |mem|
  {
    if n == 0 then mem else ToggleBit(ToggleRun(mem, lo, n - 1), lo + n - 1)
  }

  lemma {:induction false} SetMask(b: bv8, j: nat, k: nat)
    requires j < 8 && k < 8
    ensures On(TurnedOn(b, k), j) == (j == k || On(b, j))
  {}

  lemma {:induction false} ToggleMask(b: bv8, j: nat, k: nat)
    requires j < 8 && k < 8
    ensures On(Flipped(b, k), j) == (On(b, j) != (j == k))
  {}

  lemma {:induction false} SetBitAt(mem: Pool, i: nat, j: nat)
    requires i < 8 * |mem| && j < 8 * |mem|
    ensures Bit(SetBit(mem, i), j) == (j == i || Bit(mem, j))
  {
    hide On, TurnedOn;
    SetMask(mem[i / 8], j % 8, i % 8);
  }

  lemma {:induction false} ToggleBitAt(mem: Pool, i: nat, j: nat)
    requires i < 8 * |mem| && j < 8 * |mem|
    ensures Bit(ToggleBit(mem, i), j) == (Bit(mem, j) != (j == i))
  {
    hide On, Flipped;
    ToggleMask(mem[i / 8], j % 8, i % 8);
  }

  /** `MapPagesInBitmap` sets exactly the bits of its run. */
  lemma {:induction false} SetRunBits(mem: Pool, lo: nat, n: nat)
    requires InPool(mem, lo, n)
    ensures forall j: nat | j < 8 * |mem| :: Bit(SetRun(mem, lo, n), j) == (lo <= j < lo + n || Bit(mem, j))
  {
    if n > 0 {
      SetRunBits(mem, lo, n - 1);
      forall j: nat | j < 8 * |mem|
        ensures Bit(SetRun(mem, lo, n), j) == (lo <= j < lo + n || Bit(mem, j))
      {
        SetBitAt(SetRun(mem, lo, n - 1), lo + n - 1, j);
      }
    }
  }

  /** The loop of `UnmapPages` flips exactly the bits of its run: it clears them only if they were set. */
  lemma {:induction false} ToggleRunBits(mem: Pool, lo: nat, n: nat)
    requires InPool(mem, lo, n)
    ensures forall j: nat | j < 8 * |mem| :: Bit(ToggleRun(mem, lo, n), j) == (Bit(mem, j) != (lo <= j < lo + n))
  {
    if n > 0 {
      ToggleRunBits(mem, lo, n - 1);
      forall j: nat | j < 8 * |mem|
        ensures Bit(ToggleRun(mem, lo, n), j) == (Bit(mem, j) != (lo <= j < lo + n))
      {
        ToggleBitAt(ToggleRun(mem, lo, n - 1), lo + n - 1, j);
      }
    }
  }

  lemma {:induction false} ByteFromBits(a: bv8, b: bv8)
    requires forall k: nat | k < 8 :: (a & Mask(k) != 0) == (b & Mask(k) != 0)
    ensures a == b
  {
    assert (a & Mask(0) != 0) == (b & Mask(0) != 0);
    assert (a & Mask(1) != 0) == (b & Mask(1) != 0);
    assert (a & Mask(2) != 0) == (b & Mask(2) != 0);
    assert (a & Mask(3) != 0) == (b & Mask(3) != 0);
    assert (a & Mask(4) != 0) == (b & Mask(4) != 0);
    assert (a & Mask(5) != 0) == (b & Mask(5) != 0);
    assert (a & Mask(6) != 0) == (b & Mask(6) != 0);
    assert (a & Mask(7) != 0) == (b & Mask(7) != 0);
  }

  /** A pool is its bits. */
  lemma {:induction false} PoolFromBits(a: Pool, b: Pool)
    requires |a| == |b|
    requires forall j: nat | j < 8 * |a| :: Bit(a, j) == Bit(b, j)
    ensures a == b
  {
    forall x: nat | x < |a| ensures a[x] == b[x] {
      forall k: nat | k < 8 ensures (a[x] & Mask(k) != 0) == (b[x] & Mask(k) != 0) {
        var j := 8 * x + k;
        assert j / 8 == x && j % 8 == k;
        assert Bit(a, j) == Bit(b, j);
      }
      ByteFromBits(a[x], b[x]);
    }
  }

  /** Unmapping a run that was mapped over free pages gives back the pool byte for byte. */
  lemma {:induction false} UnmapUndoesMap(mem: Pool, lo: nat, n: nat)
    requires FreeRun(mem, lo, n)
    ensures ToggleRun(SetRun(mem, lo, n), lo, n) == mem
  {
    SetRunBits(mem, lo, n);
    ToggleRunBits(SetRun(mem, lo, n), lo, n);
    PoolFromBits(ToggleRun(SetRun(mem, lo, n), lo, n), mem);
  }

  /** Unmapping the same run twice changes nothing: the second call maps the pages again. */
  lemma {:induction false} UnmapTwice(mem: Pool, lo: nat, n: nat)
    requires InPool(mem, lo, n)
    ensures ToggleRun(ToggleRun(mem, lo, n), lo, n) == mem
  {
    ToggleRunBits(mem, lo, n);
    ToggleRunBits(ToggleRun(mem, lo, n), lo, n);
    PoolFromBits(ToggleRun(ToggleRun(mem, lo, n), lo, n), mem);
  }

  /** Number of set bits among the first k. */
  function Count(mem: Pool, k: nat): nat
    requires k <= 8 * |mem|
  {
    if k == 0 then 0 else Count(mem, k - 1) + (if Bit(mem, k - 1) then 1 else 0)
  }

  /** Mapping n free pages raises the number of mapped pages by exactly n. */
  lemma {:induction false} SetRunCount(mem: Pool, lo: nat, n: nat, k: nat)
    requires FreeRun(mem, lo, n) && k <= 8 * |mem|
    ensures Count(SetRun(mem, lo, n), k) == Count(mem, k) + (if k <= lo then 0 else if k < lo + n then k - lo else n)
  {
    SetRunBits(mem, lo, n);
    if k > 0 {
      SetRunCount(mem, lo, n, k - 1);
    }
  }

  /** Unmapping n mapped pages lowers the number of mapped pages by exactly n. */
  lemma {:induction false} ToggleRunCount(mem: Pool, lo: nat, n: nat, k: nat)
    requires InPool(mem, lo, n) && (forall i | lo <= i < lo + n :: Bit(mem, i)) && k <= 8 * |mem|
    ensures Count(ToggleRun(mem, lo, n), k) + (if k <= lo then 0 else if k < lo + n then k - lo else n) == Count(mem, k)
  {
    ToggleRunBits(mem, lo, n);
    if k > 0 {
      ToggleRunCount(mem, lo, n, k - 1);
    }
  }

  /** Where a scan upwards from bit `lo` first meets n free bits. */
  function FirstRun(mem: Pool, lo: nat, n: nat): (r: nat)
    ensures lo <= r
    ensures forall q | lo <= q < r :: !FreeRun(mem, q, n)
    ensures FreeRun(mem, r, n) || !InPool(mem, r, n)
    decreases 8 * |mem| - lo
  {
    if FreeRun(mem, lo, n) || !InPool(mem, lo, n) then lo else FirstRun(mem, lo + 1, n)
  }
}
