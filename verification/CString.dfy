/** Bytes in memory read as C strings. */
module CString {

  type Byte = x: int | 0 <= x < 256

  /** The characters of a C string, without its closing 0. */
  type CStr = s: seq<Byte> | 0 !in s

  /** The byte at p; memory beyond the bytes described reads as 0. */
  function At(mem: seq<Byte>, p: nat): Byte {
    if p < |mem| then mem[p] else 0
  }

  /** The number of bytes from p to the next 0. */
  function Length(mem: seq<Byte>, p: nat): (n: nat)
    ensures At(mem, p + n) == 0 && forall i | p <= i < p + n :: At(mem, i) != 0
    decreases |mem| - p
  {
    if At(mem, p) == 0 then 0 else 1 + Length(mem, p + 1)
  }

  /** The string at p. */
  function Text(mem: seq<Byte>, p: nat): (t: seq<Byte>)
    ensures |t| == Length(mem, p) && 0 !in t
  {
    seq(Length(mem, p), i requires 0 <= i < Length(mem, p) => At(mem, p + i))
  }

  /** The bytes `data` lie in memory from p on. */
  predicate Placed(mem: seq<Byte>, p: nat, data: seq<Byte>) {
    forall i | p <= i < p + |data| :: At(mem, i) == data[i - p]
  }

  lemma {:induction false} PlacedText(mem: seq<Byte>, p: nat, t: seq<Byte>)
    requires 0 !in t && Placed(mem, p, t + [0])
    ensures Length(mem, p) == |t| && Text(mem, p) == t
  {
    forall i | p <= i < p + |t| ensures At(mem, i) == t[i - p] != 0 {
      assert At(mem, i) == (t + [0])[i - p] && t[i - p] in t;
    }
    assert At(mem, p + |t|) == (t + [0])[|t|];
    assert !(Length(mem, p) < |t|) && !(|t| < Length(mem, p));
  }

  lemma {:induction false} PlacedParts(mem: seq<Byte>, p: nat, a: seq<Byte>, b: seq<Byte>)
    ensures Placed(mem, p, a + b) <==> Placed(mem, p, a) && Placed(mem, p + |a|, b)
  {
    if Placed(mem, p, a + b) {
      assert forall i | p <= i < p + |a| :: At(mem, i) == (a + b)[i - p];
      assert forall i | p + |a| <= i < p + |a| + |b| :: At(mem, i) == (a + b)[i - p];
    }
  }

  method Strlen(mem: seq<Byte>, p: nat) returns (n: nat)
    ensures n == Length(mem, p)
  {
    n := 0;
    while At(mem, p + n) != 0
      invariant n + Length(mem, p + n) == Length(mem, p)
      decreases |mem| - p - n
    {
      n := n + 1;
    }
  }
}
