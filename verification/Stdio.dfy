/** The kernel's own number and text formatting. */
module Stdio {
  import opened CString
  import opened Collections
  import opened Words

  const TWO31: int := 0x8000_0000
  const TWO64: int := 0x1_0000_0000_0000_0000

  const ZERO: Byte := '0' as int
  const SPACE: Byte := ' ' as int
  const MINUS: Byte := '-' as int
  const PERCENT: Byte := '%' as int
  const CONV_D: Byte := 'd' as int
  const CONV_U: Byte := 'u' as int
  const CONV_X: Byte := 'x' as int
  const CONV_S: Byte := 's' as int
  const CONV_C: Byte := 'c' as int

  function Pow(b: nat, k: nat): nat {
    if k == 0 then 1 else b * Pow(b, k - 1)
  }

  function Repeat(c: Byte, n: nat): (s: seq<Byte>)
    ensures |s| == n
  {
    seq(n, _ => c)
  }

  function Reverse(s: seq<Byte>): (r: seq<Byte>)
    ensures |r| == |s| && forall k | 0 <= k < |s| :: r[k] == s[|s| - 1 - k]
  {
    seq(|s|, k requires 0 <= k < |s| => s[|s| - 1 - k])
  }

  // ----- numbers as text

  function DigitChar(d: nat): Byte
    requires d < 36
  {
    if d < 10 then 48 + d else 87 + d
  }

  /** The value of a character as a digit, in either case. */
  function CharValue(c: Byte): nat {
    if 48 <= c <= 57 then c - 48
    else if 65 <= c <= 90 then c - 55
    else if 97 <= c <= 122 then c - 87
    else 0
  }

  /** The digits of a number, most significant first. */
  function Digits(num: nat, base: nat): (s: seq<Byte>)
    requires 2 <= base <= 36
    ensures s != [] && 0 !in s
  {
    SmallerQuotient(num, base);
    if num < base then [DigitChar(num)] else Digits(num / base, base) + [DigitChar(num % base)]
  }

  /** Reading digits from the left. */
  function Value(s: seq<Byte>, base: nat): nat {
    if s == [] then 0 else base * Value(s[..|s| - 1], base) + CharValue(s[|s| - 1])
  }

  /** Digits padded on the left. */
  function Render(num: nat, base: nat, padding: nat, padchar: Byte): (s: seq<Byte>)
    requires 2 <= base <= 36
    ensures s != [] && (padchar != 0 ==> 0 !in s)
  {
    var d := Digits(num, base);
    Repeat(padchar, if padding > |d| then padding - |d| else 0) + d
  }

  /** The text denotes the number. */
  lemma {:induction false} DigitsAreExact(num: nat, base: nat)
    requires 2 <= base <= 36
    ensures Value(Digits(num, base), base) == num
  {
    DivMod(num, base);
    if num >= base {
      DigitsAreExact(num / base, base);
      ValueStep(Digits(num / base, base), base, num / base, num % base, num);
    } else {
      ValueStep([], base, 0, num, num);
      assert [] + [DigitChar(num)] == [DigitChar(num)];
    }
  }

  /** The characters of digits, as the code's table lists them. */
  const TABLE: string := "0123456789abcdefghijklmnopqrstuvwxyz"

  /** The character is the entry of the table for a digit below the base. */
  predicate FromTable(c: Byte, base: nat)
    requires 2 <= base <= 36
  {
    CharValue(c) < base && c == TABLE[CharValue(c)] as int
  }

  lemma {:induction false} DigitsStep(num: nat, base: nat)
    requires 2 <= base <= 36
    ensures num % base < base && (num < base ==> num % base == num) && (num >= base ==> 0 < num / base < num)
    ensures Digits(num, base) == (if num < base then [] else Digits(num / base, base)) + [DigitChar(num % base)]
  {
    hide Digits, DigitChar;
    SmallerQuotient(num, base);
    DigitsUnfold(num, base);
  }

  lemma {:induction false} DigitsUnfold(num: nat, base: nat)
    requires 2 <= base <= 36 && num % base < base
    ensures Digits(num, base)
            == if num < base then [DigitChar(num)] else Digits(num / base, base) + [DigitChar(num % base)]
  {}

  lemma {:induction false} SmallerQuotient(num: nat, base: nat)
    requires 2 <= base
    ensures num % base < base && (num < base ==> num % base == num) && (num >= base ==> 0 < num / base < num)
  {
    DivMod(num, base);
    if num < base {
      QuotientUnique(num, base, 0, num);
    } else {
      BelowProduct(num / base, base, num % base);
    }
  }

  lemma {:induction false} BelowProduct(q: nat, base: nat, r: nat)
    requires 2 <= base && q > 0
    ensures q < base * q + r
  {
    assert base * q == 2 * q + (base - 2) * q;
    assert (base - 2) * q >= 0;
  }

  /** Every character of the text is from the table. */
  lemma {:induction false} DigitsFromTable(num: nat, base: nat, k: nat)
    requires 2 <= base <= 36 && k < |Digits(num, base)|
    ensures FromTable(Digits(num, base)[k], base)
    decreases num
  {
    hide Digits, FromTable;
    DigitsStep(num, base);
    DigitFromTable(num % base, base);
    if num >= base && k < |Digits(num / base, base)| {
      DigitsFromTable(num / base, base, k);
    }
  }

  lemma {:induction false} DigitFromTable(d: nat, base: nat)
    requires 2 <= base <= 36 && d < base
    ensures FromTable(DigitChar(d), base) && CharValue(DigitChar(d)) == d
  {
    assert d < 10 ==> "0123456789"[d] == TABLE[d] && "0123456789"[d] as int == 48 + d;
  }

  /** Reading takes a letter in either case, and every other character for 0. */
  lemma {:induction false} ValueOfChar(c: Byte)
    ensures forall d | 0 <= d < 36 :: c == TABLE[d] as int ==> CharValue(c) == d
    ensures forall d | 10 <= d < 36 :: c == TABLE[d] as int - 32 ==> CharValue(c) == d
    ensures (forall d | 0 <= d < 36 :: c != TABLE[d] as int && (d >= 10 ==> c != TABLE[d] as int - 32)) ==> CharValue(c) == 0
  {
    var d := CharValue(c);
    if d > 0 {
      DigitFromTable(d, 36);
    }
    forall e | 0 <= e < 36 ensures TABLE[e] as int == DigitChar(e) {
      DigitFromTable(e, 36);
    }
  }

  /** The text is the only one: every text of such characters without a zero in front is what its value is written as. */
  lemma {:induction false} DigitsOfValue(s: seq<Byte>, base: nat)
    requires 2 <= base <= 36 && s != [] && (s[0] == ZERO ==> |s| == 1)
    requires forall c | c in s :: FromTable(c, base)
    ensures Digits(Value(s, base), base) == s
  {
    hide Digits, FromTable, DigitChar, CharValue;
    var (front, c) := (s[..|s| - 1], s[|s| - 1]);
    assert c in s;
    CharOfValue(c, base);
    DigitsStep(CharValue(c), base);
    if |s| > 1 {
      forall x | x in front ensures x in s {}
      DigitsOfValue(front, base);
      PositiveValue(front, base);
      OneMoreDigit(Value(front, base), base, CharValue(c));
      assert front + [c] == s;
    } else {
      assert front == [];
    }
  }

  lemma {:induction false} CharOfValue(c: Byte, base: nat)
    requires 2 <= base <= 36 && FromTable(c, base)
    ensures CharValue(c) < base && DigitChar(CharValue(c)) == c
  {
    DigitFromTable(CharValue(c), base);
  }

  lemma {:induction false} PositiveValue(s: seq<Byte>, base: nat)
    requires 2 <= base <= 36 && s != [] && s[0] != ZERO
    requires forall c | c in s :: FromTable(c, base)
    ensures Value(s, base) > 0
  {
    assert s[0] in s && FromTable(s[0], base) && CharValue(s[0]) != 0;
    if |s| > 1 {
      PositiveValue(s[..|s| - 1], base);
    } else {
      assert s[..|s| - 1] == [];
    }
  }

  lemma {:induction false} OneMoreDigit(q: nat, base: nat, r: nat)
    requires 2 <= base <= 36 && q > 0 && r < base
    ensures Digits(base * q + r, base) == Digits(q, base) + [DigitChar(r)]
  {
    QuotientUnique(base * q + r, base, q, r);
    assert base * q >= base * 1;
  }

  /** No zero is written in front. */
  lemma {:induction false} DigitsAreMinimal(num: nat, base: nat)
    requires 2 <= base <= 36 && num > 0
    ensures Digits(num, base)[0] != ZERO
  {
    hide Digits;
    DigitsStep(num, base);
    if num >= base {
      DigitsAreMinimal(num / base, base);
    }
  }

  lemma {:induction false} DivMod(num: nat, base: nat)
    requires base >= 1
    ensures num == base * (num / base) + num % base && (num >= base ==> num / base > 0)
  {}

  lemma {:induction false} ValueStep(s: seq<Byte>, base: nat, q: nat, r: nat, num: nat)
    requires Value(s, base) == q && num == base * q + r && r < 36
    ensures Value(s + [DigitChar(r)], base) == num
  {
    assert (s + [DigitChar(r)])[..|s|] == s;
  }

  /** Zero padding does not change the value, and a padded field is as long as the longer of width and digits. */
  lemma {:induction false} PaddedValue(num: nat, base: nat, padding: nat)
    requires 2 <= base <= 36
    ensures Value(Render(num, base, padding, ZERO), base) == num
    ensures |Render(num, base, padding, ZERO)| == if padding > |Digits(num, base)| then padding else |Digits(num, base)|
  {
    var d := Digits(num, base);
    DigitsAreExact(num, base);
    LeadingZeros(if padding > |d| then padding - |d| else 0, d, base);
  }

  /** The number stands at the right end of its field, with the padding character in front of it. */
  lemma {:induction false} RightAligned(num: nat, base: nat, padding: nat, padchar: Byte)
    requires 2 <= base <= 36
    ensures var (r, d) := (Render(num, base, padding, padchar), Digits(num, base));
            && |r| >= |d| && r[|r| - |d|..] == d && (forall i | 0 <= i < |r| - |d| :: r[i] == padchar)
            && (|r| == |d| || |r| == padding) && |r| >= padding
  {}

  lemma {:induction false} LeadingZeros(n: nat, s: seq<Byte>, base: nat)
    ensures Value(Repeat(ZERO, n) + s, base) == Value(s, base)
    decreases n + |s|
  {
    var t := Repeat(ZERO, n) + s;
    if s != [] {
      LeadingZeros(n, s[..|s| - 1], base);
      assert t[..|t| - 1] == Repeat(ZERO, n) + s[..|s| - 1];
    } else if n > 0 {
      LeadingZeros(n - 1, s, base);
      assert t[..|t| - 1] == Repeat(ZERO, n - 1) + s;
    }
  }

  /** A number has at most k digits exactly when it is below base to the k. */
  lemma {:induction false} DigitCountIff(num: nat, base: nat, k: nat)
    requires 2 <= base <= 36 && k >= 1
    ensures |Digits(num, base)| <= k <==> num < Pow(base, k)
    decreases k
  {
    if k == 1 {
      assert Pow(base, 1) == base * Pow(base, 0) == base;
    } else {
      DigitCountIff(num / base, base, k - 1);
      QuotientBelow(num, base, Pow(base, k - 1));
      PowPositive(base, k);
      hide Pow;
      assert |Digits(num, base)| == if num < base then 1 else |Digits(num / base, base)| + 1;
    }
  }

  lemma {:induction false} QuotientBelow(num: nat, b: nat, p: nat)
    requires b >= 1
    ensures num / b < p <==> num < b * p
  {
    var q := num / b;
    assert b * q <= num < b * q + b;
    if q < p {
      assert b * (q + 1) <= b * p;
    } else {
      assert b * q >= b * p;
    }
  }

  lemma {:induction false} PowPositive(b: nat, k: nat)
    requires b >= 1
    ensures Pow(b, k) >= 1
    ensures b >= 2 && k >= 1 ==> Pow(b, k) >= b
  {
    if k > 0 {
      PowPositive(b, k - 1);
      assert b * Pow(b, k - 1) >= b * 1;
    }
  }

  // ----- atoi as coded

  /** ipow: for exp above 1 it squares exp - 1 times. */
  function Squared(base: uint32, times: nat): uint32
    decreases times
  {
    if times == 0 then base else Squared(Wrap(base * base), times - 1)
  }

  function Ipow(base: uint32, exp: nat): uint32 {
    if exp == 0 then 1 else Squared(base, exp - 1)
  }

  /** ipow computes base to the power 2^(exp-1): for exponent 3 already the fourth power. */
  lemma {:induction false} IpowSquares(base: uint32, exp: nat)
    requires exp >= 1
    ensures Ipow(base, exp) == Wrap(Pow(base, Pow(2, exp - 1)))
    decreases exp
  {
    if exp == 1 {
      assert Pow(2, 0) == 1 && Pow(base, 1) == base * Pow(base, 0);
    } else {
      var m := Pow(2, exp - 2);
      IpowSquares(Wrap(base * base), exp - 1);
      assert Ipow(base, exp) == Ipow(Wrap(base * base), exp - 1);
      PowOfWrapped(base * base, m);
      PowOfSquare(base, m);
      assert Pow(2, exp - 1) == 2 * m;
    }
  }

  lemma {:induction false} PowOfSquare(b: nat, m: nat)
    ensures Pow(b * b, m) == Pow(b, 2 * m)
  {
    if m > 0 {
      PowOfSquare(b, m - 1);
      var p := Pow(b, 2 * m - 2);
      assert Pow(b, 2 * m) == b * Pow(b, 2 * m - 1) && Pow(b, 2 * m - 1) == b * p;
      assert b * (b * p) == (b * b) * p;
    }
  }

  lemma {:induction false} PowOfWrapped(x: nat, m: nat)
    ensures Wrap(Pow(Wrap(x), m)) == Wrap(Pow(x, m))
  {
    if m > 0 {
      PowOfWrapped(x, m - 1);
      WrapProduct(Wrap(x), Pow(Wrap(x), m - 1));
      WrapProduct(x, Pow(x, m - 1));
    }
  }

  lemma {:induction false} WrapProduct(a: nat, b: nat)
    ensures Wrap(a * b) == Wrap(Wrap(a) * Wrap(b))
  {
    var q, r := a / TWO32, b / TWO32;
    var x: nat, y: nat := Wrap(a), Wrap(b);
    assert a == q * TWO32 + x && b == r * TWO32 + y;
    Expand(q, r, x, y, b);
    WrapAdds(q * b + x * r, x * y);
  }

  lemma {:induction false} Expand(q: nat, r: nat, x: nat, y: nat, b: nat)
    requires b == r * TWO32 + y
    ensures (q * TWO32 + x) * b == (q * b + x * r) * TWO32 + x * y
  {
    assert (q * TWO32 + x) * b == q * TWO32 * b + x * b;
    assert q * TWO32 * b == q * b * TWO32;
    assert x * b == x * (r * TWO32) + x * y;
    assert x * (r * TWO32) == x * r * TWO32;
  }

  lemma {:induction false} WrapAdds(z: nat, v: nat)
    ensures Wrap(z * TWO32 + v) == Wrap(v)
  {}

  /** _strtoint from the last character on: None when its assertion fails. */
  function Convert(s: seq<Byte>, base: uint32, n: nat, num: nat): (r: Option<nat>)
    decreases |s|
  {
    if s == [] then Some(num)
    else if num >= base then None
    else Convert(s[..|s| - 1], base, n + 1, num + Wrap(CharValue(s[|s| - 1]) * Ipow(base, n)))
  }

  /** One step of the conversion of a decimal numeral. */
  lemma {:induction false} ConvertDigits(w: nat, n: nat, num: nat)
    ensures var t := num + Wrap(w % 10 * Ipow(10, n));
            Convert(Digits(w, 10), 10, n, num) ==
            if num >= 10 then None else if w < 10 then Some(t) else Convert(Digits(w / 10, 10), 10, n + 1, t)
  {
    var s := Digits(w, 10);
    assert s[|s| - 1] == DigitChar(w % 10);
    assert w < 10 ==> s[..|s| - 1] == [];
    assert w >= 10 ==> s[..|s| - 1] == Digits(w / 10, 10);
  }

  lemma {:induction false} PowersOfTen()
    ensures Ipow(10, 0) == 1 && Ipow(10, 1) == 10 && Ipow(10, 2) == 100
    ensures Ipow(10, 3) == 10000 && Ipow(10, 4) == 100000000 && Ipow(10, 5) == 1874919424 && Ipow(10, 6) == 0
  {
    assert Squared(10, 1) == Squared(100, 0);
    assert Squared(10, 2) == Squared(100, 1) == Squared(10000, 0);
    assert Squared(10, 3) == Squared(100, 2) == Squared(10000, 1) == Squared(100000000, 0);
    assert Squared(100000000, 1) == Squared(1874919424, 0);
    assert Squared(10, 4) == Squared(100, 3) == Squared(10000, 2) == Squared(100000000, 1);
    assert Squared(10, 5) == Squared(100, 4) == Squared(10000, 3) == Squared(100000000, 2) == Squared(1874919424, 1);
  }

  predicate Below32(r: Option<nat>) {
    r.Some? ==> r.value < TWO32
  }

  /** A width that fits the scratch buffer is read back exactly when it has one or two digits, or three with a 0 in the
      middle; all others stop in the assertion or come out wrong. */
  lemma {:induction false} WidthIsExactIff(w: nat)
    requires w < 10000000
    ensures Convert(Digits(w, 10), 10, 0, 0) == Some(w) <==> w < 100 || (w < 1000 && w / 10 % 10 == 0)
    ensures w < 1000 && w / 10 % 10 != 0 && w >= 100 ==> Convert(Digits(w, 10), 10, 0, 0) == None
    ensures Below32(Convert(Digits(w, 10), 10, 0, 0))
  {
    hide Ipow, Convert, Digits, Wrap;
    PowersOfTen();
    var v, q, a, b := w / 10, w / 100, w % 10, w / 10 % 10;
    DecimalParts(w, v, q, a, b);
    NoWrap(a * 1);
    NoWrap(b * 10);
    NoWrap(q % 10 * 100);
    ConvertDigits(w, 0, 0);
    ConvertDigits(v, 1, a);
    if q > 0 {
      ConvertDigits(q, 2, a + b * 10);
      if q >= 10 && b == 0 {
        LongWidth(w, q, a);
      }
    }
  }

  lemma {:induction false} DecimalParts(w: nat, v: nat, q: nat, a: nat, b: nat)
    requires v == w / 10 && q == w / 100 && a == w % 10 && b == w / 10 % 10
    ensures w == 10 * v + a && v == 10 * q + b && v / 10 == q && a < 10 && b < 10
  {}

  /** A width of digits q, 0 and d. */
  lemma {:induction false} LongWidth(w: nat, q: nat, d: nat)
    requires w == 100 * q + d && d < 10 <= q < 100000
    ensures Convert(Digits(q, 10), 10, 2, d) != Some(w) && Below32(Convert(Digits(q, 10), 10, 2, d))
  {
    hide Ipow, Convert, Digits;
    PowersOfTen();
    var q3 := q / 10;
    var q4 := q3 / 10;
    ConvertDigits(q, 2, d);
    ConvertDigits(q3, 3, d + q % 10 * 100);
    if q % 10 == 0 && q3 >= 10 {
      ConvertDigits(q4, 4, d + q3 % 10 * 10000);
      if q3 % 10 == 0 && q4 >= 10 {
        VeryLongWidth(w, q4, d);
      }
    }
  }

  /** A width of digits q, three times 0, and d. */
  lemma {:induction false} VeryLongWidth(w: nat, q: nat, d: nat)
    requires w == 10000 * q + d && d < 10 <= q < 1000
    ensures Convert(Digits(q, 10), 10, 4, d) != Some(w) && Below32(Convert(Digits(q, 10), 10, 4, d))
  {
    hide Ipow, Convert, Digits;
    PowersOfTen();
    var q5 := q / 10;
    ConvertDigits(q, 4, d);
    ConvertDigits(q5, 5, d + q % 10 * 100000000);
    if q % 10 == 0 && q5 >= 10 {
      ConvertDigits(q5 / 10, 6, d + Wrap(q5 % 10 * 1874919424));
    }
  }
}
