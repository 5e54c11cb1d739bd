/** The 32-bit machine words of the kernel: every address and count is an `unsigned` that wraps at 2^32. */
module Words {

  const TWO32: int := 0x1_0000_0000
  const PAGE: int := 4096

  type uint32 = x: int | 0 <= x < 0x1_0000_0000

  /** The value left in a 32-bit register. */
  function Wrap(x: int): uint32 {
    x % TWO32
  }

  lemma {:induction false} NoWrap(x: int)
    requires 0 <= x < TWO32
    ensures Wrap(x) == x
  {}

  /** The C operator `|` on non-negative values, bit by bit. */
  function Or(a: nat, b: nat): nat
    decreases a + b
  {
    if a == 0 then b
    else if b == 0 then a
    else (if a % 2 == 1 || b % 2 == 1 then 1 else 0) + 2 * Or(a / 2, b / 2)
  }

  /** Or-ing bits below a boundary leaves what lies above the boundary alone, and bit 0 is the or of both bits 0. */
  lemma {:induction false} OrBits(a: nat, b: nat, k: nat)
    requires b < Pow2(k)
    ensures Or(a, b) / Pow2(k) == a / Pow2(k)
    ensures Or(a, b) % 2 == (if a % 2 == 1 || b % 2 == 1 then 1 else 0)
    decreases k
  {
    if a != 0 && b != 0 {
      OrBits(a / 2, b / 2, k - 1);
      var hi := if a % 2 == 1 || b % 2 == 1 then 1 else 0;
      HalveTwice(Or(a, b), Or(a / 2, b / 2), hi, Pow2(k - 1));
      HalveTwice(a, a / 2, a % 2, Pow2(k - 1));
    } else if a == 0 {
      SmallQuotient(b, Pow2(k));
    }
  }

  /** Where nothing lies below the boundary yet the result is the sum. */
  lemma {:induction false} OrSum(a: nat, b: nat, k: nat)
    requires b < Pow2(k) && a % Pow2(k) == 0
    ensures Or(a, b) == a + b
    decreases k
  {
    hide Pow2;
    Pow2Unfolds(k);
    if a != 0 && b != 0 {
      HalfMultiple(a, Pow2(k - 1));
      OrSum(a / 2, b / 2, k - 1);
    }
  }

  lemma {:induction false} Pow2Unfolds(k: nat)
    ensures Pow2(k) == if k == 0 then 1 else 2 * Pow2(k - 1)
  {}

  function Pow2(k: nat): (r: nat)
    ensures r >= 1
  {
    if k == 0 then 1 else 2 * Pow2(k - 1)
  }

  lemma {:induction false} SmallQuotient(x: nat, m: nat)
    requires x < m
    ensures x / m == 0
  {}

  lemma {:induction false} HalveTwice(x: nat, half: nat, bit: nat, m: nat)
    requires bit < 2 && x == bit + 2 * half && m >= 1
    ensures x / (2 * m) == half / m
  {
    var q, r := half / m, half % m;
    assert x == (2 * m) * q + (2 * r + bit);
    assert 0 <= 2 * r + bit < 2 * m;
    QuotientUnique(x, 2 * m, q, 2 * r + bit);
  }

  lemma {:induction false} HalfMultiple(x: nat, m: nat)
    requires m >= 1 && x % (2 * m) == 0
    ensures x % 2 == 0 && x / 2 % m == 0
  {
    var q := x / (2 * m);
    assert x == (2 * m) * q == 2 * (m * q);
    QuotientUnique(x / 2, m, q, 0);
  }

  lemma {:induction false} QuotientUnique(x: int, m: int, q: int, r: int)
    requires m >= 1 && x == m * q + r && 0 <= r < m
    ensures x / m == q && x % m == r
  {
    var q', r' := x / m, x % m;
    assert m * (q - q') == r' - r;
    SmallMultiple(m, q - q');
  }

  lemma {:induction false} SmallMultiple(m: int, d: int)
    requires -m < m * d < m
    ensures d == 0
  {
    assert d >= 1 ==> m * (d - 1) >= 0;
    assert d <= -1 ==> m * (-d - 1) >= 0;
  }

  /** The entry `phys | flags` for flags below a page: the frame is that of `phys`, bit 0 the or of both, and on the
      address of a page it is the sum. */
  lemma {:induction false} OrLowFlags(a: uint32, b: nat)
    requires b < PAGE
    ensures Or(a, b) / PAGE == a / PAGE
    ensures Or(a, b) % 2 == (if a % 2 == 1 || b % 2 == 1 then 1 else 0)
    ensures a % PAGE == 0 ==> Or(a, b) == a + b
    ensures Or(a, b) < TWO32
  {
    assert Pow2(0) == 1;
    assert Pow2(4) == 16;
    assert Pow2(8) == 16 * Pow2(4);
    assert Pow2(12) == 16 * Pow2(8);
    OrBits(a, b, 12);
    if a % PAGE == 0 {
      OrSum(a, b, 12);
    }
  }
}
