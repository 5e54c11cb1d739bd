/** The formatter's code: loops over character arrays with a moving cursor. */
module Printf {
  import opened CString
  import opened Collections
  import opened Words
  import opened Stdio
  import opened Format

  datatype Outcome = Finished | AssertFailed | Overrun

  /** Copies the string in src backwards. */
  method Strrev(dest: array<Byte>, src: array<Byte>)
    requires dest != src && Length(src[..], 0) < src.Length && Length(src[..], 0) < dest.Length
    modifies dest
    ensures dest[..] == Splice(old(dest[..]), 0, Reverse(CString.Text(src[..], 0)) + [0])
  {
    var srclen := Strlen(src[..], 0);
    ghost var text := CString.Text(src[..], 0);
    for i := 0 to srclen
      invariant forall j | 0 <= j < i :: dest[j] == Reverse(text)[j]
      invariant forall j | i <= j < dest.Length :: dest[j] == old(dest[j])
    {
      dest[i] := src[srclen - i - 1];
    }
    dest[srclen] := 0;
  }

  /** memcpy. */
  method Strncpy(dest: array<Byte>, src: array<Byte>, len: nat)
    requires dest != src && len <= src.Length && len <= dest.Length
    modifies dest
    ensures dest[..] == Splice(old(dest[..]), 0, src[..len])
  {
    for i := 0 to len
      invariant forall j | 0 <= j < i :: dest[j] == src[j]
      invariant forall j | i <= j < dest.Length :: dest[j] == old(dest[j])
    {
      dest[i] := src[i];
    }
  }

  /** Appends src to the string at dst; `last` is the place of the last character written. Not ok: out of the buffer. */
  method Strcat(buf: array<Byte>, dst: nat, src: seq<Byte>) returns (ok: bool, last: int)
    requires dst + Length(buf[..], dst) < buf.Length
    modifies buf
    ensures var end := dst + Length(old(buf[..]), dst);
            && (ok <==> end + Length(src, 0) < buf.Length)
            && (ok ==> && last == end + Length(src, 0) - 1
                       && buf[..] == Splice(old(buf[..]), end, CString.Text(src, 0) + [0]))
  {
    var len := Strlen(buf[..], dst);
    var end := dst + len;
    var text := CString.Text(src, 0);
    var i := 0;
    while At(src, i) != 0
      invariant i <= |text| && end + i <= buf.Length
      invariant forall j | 0 <= j < i :: buf[end + j] == text[j]
      invariant forall j | 0 <= j < buf.Length && !(end <= j < end + i) :: buf[j] == old(buf[j])
      decreases |text| - i
    {
      if end + i >= buf.Length {
        return false, 0;
      }
      buf[end + i] := At(src, i);
      i := i + 1;
    }
    if end + i >= buf.Length {
      return false, 0;
    }
    buf[end + i] := 0;
    return true, end + i - 1;
  }

  /** num in the given base, padded on the left, into retchar; not ok: some array is too short. */
  method Inttostr(num: nat, base: nat, retchar: array<Byte>, padding: nat, padchar: Byte) returns (ok: bool)
    requires 2 <= base <= 36 && num < TWO64 && padchar != 0
    modifies retchar
    ensures ok <==> Scratch(num, base, padding, padchar, retchar.Length).Some?
    ensures ok ==> retchar[..] ==
                   Splice(old(retchar[..]), 0, Scratch(num, base, padding, padchar, retchar.Length).value + [0])
  {
    hide Digits, Render, Scratch, Pow, Length, CString.Text, Reverse, Repeat;
    var str, revstr := new Byte[64], new Byte[64];
    ghost var digits, text := Digits(num, base), Render(num, base, padding, padchar);
    RenderLength(num, base, padding, padchar);
    ScratchIs(num, base, padding, padchar, retchar.Length);
    var i := PutDigits(num, base, str);
    if i >= 64 {
      return false;
    }
    str[i] := 0;
    assert str[..i] == Reverse(digits);
    var padded := Pad(str, i, padding, padchar);
    if !padded {
      return false;
    }
    RenderReversed(num, base, padding, padchar);
    assert CString.Text(str[..], 0) == Reverse(text) by {
      PlacedText(str[..], 0, Reverse(text));
    }
    Strrev(revstr, str);
    ReverseTwice(text);
    var n := Strlen(str[..], 0);
    if n + 1 > retchar.Length {
      return false;
    }
    Strncpy(retchar, revstr, n + 1);
    assert revstr[..n + 1] == text + [0];
    return true;
  }

  /** The digits, least significant first. */
  method PutDigits(num: nat, base: nat, str: array<Byte>) returns (i: nat)
    requires 2 <= base <= 36 && num < TWO64 && str.Length == 64
    modifies str
    ensures i == |Digits(num, base)| <= 64 && str[..i] == Reverse(Digits(num, base))
  {
    var rest: nat := num;
    i := 0;
    AtMost64Digits(num, base);
    hide Digits, Reverse, DigitChar;
    assert Digits(num, base) == Digits(num, base) + Reverse(str[..0]);
    while rest >= base
      invariant i + |Digits(rest, base)| == |Digits(num, base)|
      invariant Digits(num, base) == Digits(rest, base) + Reverse(str[..i])
    {
      ghost var before := str[..i];
      var quotient, digit := DivideBy(rest, base);
      str[i] := DigitChar(digit);
      AppendDigit(Digits(quotient, base), str[i], before);
      assert str[..i + 1] == before + [str[i]];
      rest := quotient;
      i := i + 1;
    }
    ghost var before := str[..i];
    assert Digits(rest, base) == [DigitChar(rest)] by { DigitsUnfold(rest, base); }
    str[i] := DigitChar(rest);
    AppendDigit([], str[i], before);
    i := i + 1;
    assert str[..i] == before + [str[i - 1]];
    assert Digits(num, base) == Reverse(str[..i]);
    ReverseTwice(str[..i]);
  }

  /** The next digit and what is left of the number. */
  method DivideBy(num: nat, base: nat) returns (quotient: nat, digit: nat)
    requires 2 <= base <= 36 && num >= base
    ensures quotient < num && digit < base && Digits(num, base) == Digits(quotient, base) + [DigitChar(digit)]
  {
    return num / base, num % base;
  }

  /** Fills the string up to the width; not ok: it would leave the array. */
  method Pad(str: array<Byte>, i: nat, padding: nat, padchar: Byte) returns (ok: bool)
    requires i < 64 == str.Length && str[i] == 0
    modifies str
    ensures ok <==> padding < 64
    ensures ok ==> var k := if padding > i then padding - i else 0;
                   str[..i + k + 1] == old(str[..i]) + Repeat(padchar, k) + [0]
  {
    var p := i;
    while p < padding
      invariant i <= p < 64 && (p <= padding || p == i)
      invariant forall j | 0 <= j < i :: str[j] == old(str[j])
      invariant forall j | i <= j < p :: str[j] == padchar
      invariant p < padding || str[p] == 0
    {
      if p + 1 >= 64 {
        return false;
      }
      str[p] := padchar;
      if p == padding - 1 {
        str[p + 1] := 0;
      }
      p := p + 1;
    }
    return true;
  }

  lemma {:induction false} RenderLength(num: nat, base: nat, padding: nat, padchar: Byte)
    requires 2 <= base <= 36
    ensures var n := |Digits(num, base)|; |Render(num, base, padding, padchar)| == if padding > n then padding else n
  {}

  lemma {:induction false} ScratchIs(num: nat, base: nat, padding: nat, padchar: Byte, cap: nat)
    requires 2 <= base <= 36 && padchar != 0
    ensures var text := Render(num, base, padding, padchar);
            && 0 !in text
            && Scratch(num, base, padding, padchar, cap) == if |text| <= 63 && |text| < cap then Some(text) else None
  {}

  lemma {:induction false} RenderReversed(num: nat, base: nat, padding: nat, padchar: Byte)
    requires 2 <= base <= 36
    ensures var d := Digits(num, base);
            Reverse(Render(num, base, padding, padchar)) ==
            Reverse(d) + Repeat(padchar, if padding > |d| then padding - |d| else 0)
  {}

  lemma {:induction false} AppendDigit(front: seq<Byte>, c: Byte, s: seq<Byte>)
    ensures (front + [c]) + Reverse(s) == front + Reverse(s + [c])
  {}

  lemma {:induction false} ReverseTwice(s: seq<Byte>)
    ensures Reverse(Reverse(s)) == s
  {}

  lemma {:induction false} AtMost64Digits(num: nat, base: nat)
    requires 2 <= base <= 36 && num < TWO64
    ensures |Digits(num, base)| <= 64
  {
    PowersGrow(base, 64);
    TwoTo64();
    DigitCountIff(num, base, 64);
  }

  lemma {:induction false} PowersGrow(base: nat, k: nat)
    requires base >= 2
    ensures Pow(base, k) >= Pow(2, k)
  {
    hide Pow;
    PowUnfolds(base, k);
    PowUnfolds(2, k);
    if k > 0 {
      PowersGrow(base, k - 1);
      ProductsGrow(base, Pow(base, k - 1), Pow(2, k - 1));
    }
  }

  lemma {:induction false} PowUnfolds(base: nat, k: nat)
    ensures Pow(base, k) == if k == 0 then 1 else base * Pow(base, k - 1)
  {}

  lemma {:induction false} ProductsGrow(base: nat, p: nat, q: nat)
    requires base >= 2 && p >= q
    ensures base * p >= 2 * q
  {
    assert base * p == 2 * p + (base - 2) * p;
    assert (base - 2) * p >= 0;
  }

  lemma {:induction false} TwoTo64()
    ensures Pow(2, 64) == TWO64
  {
    TwoTo16();
    PowSum(16, 16);
    PowSum(32, 32);
    hide Pow;
  }

  lemma {:induction false} TwoTo16()
    ensures Pow(2, 16) == 65536
  {
    assert Pow(2, 4) == 16;
    PowSum(4, 4);
    PowSum(8, 8);
    hide Pow;
  }

  lemma {:induction false} PowSum(j: nat, k: nat)
    ensures Pow(2, j + k) == Pow(2, j) * Pow(2, k)
  {
    if j > 0 {
      PowSum(j - 1, k);
      assert 2 * (Pow(2, j - 1) * Pow(2, k)) == (2 * Pow(2, j - 1)) * Pow(2, k);
    }
  }

  // ----- atoi

  method PowerOf(base: uint32, exp: nat) returns (r: uint32)
    ensures r == Ipow(base, exp)
  {
    if exp == 0 { return 1; }
    if exp == 1 { return base; }
    r := base;
    for i := 1 to exp
      invariant Squared(r, exp - i) == Squared(base, exp - 1)
    {
      r := Wrap(r * r);
    }
  }

  method Strtoint(str: seq<Byte>, base: uint32) returns (r: Option<nat>)
    ensures r == Convert(CString.Text(str, 0), base, 0, 0)
  {
    var len := Strlen(str, 0);
    ghost var text := CString.Text(str, 0);
    var num, n, i: int := 0, 0, len - 1;
    assert text[..len] == text;
    while i >= 0
      invariant -1 <= i < len && n == len - 1 - i && num >= 0
      invariant Convert(text[..i + 1], base, n, num) == Convert(text, base, 0, 0)
    {
      var c := At(str, i);
      assert text[..i + 1][..i] == text[..i] && text[..i + 1][i] == c;
      if num >= base {
        return None;
      }
      var power := PowerOf(base, n);
      num := num + Wrap(CharValue(c) * power);
      n := n + 1;
      i := i - 1;
    }
    return Some(num);
  }

  lemma {:induction false} LeadingMaximal(s: seq<Byte>, c: Byte)
    ensures var n := Leading(s, c); (forall i | 0 <= i < n :: s[i] == c) && (n < |s| ==> s[n] != c)
  {
    if s != [] && s[0] == c {
      LeadingMaximal(s[1..], c);
    }
  }

  lemma {:induction false} LeadingDigitsMaximal(s: seq<Byte>)
    ensures var n := LeadingDigits(s); n < |s| ==> !IsDigit(s[n])
  {
    if s != [] && IsDigit(s[0]) {
      LeadingDigitsMaximal(s[1..]);
    }
  }

  /** The parsed directive with the pointer moved behind its first n zeros. */
  lemma {:induction false} SkipZero(fmt: CStr)
    requires At(fmt, 0) == ZERO
    ensures ParseDirective(fmt).padchar == ZERO
    ensures ParseDirective(fmt).width == ParseDirective(fmt[1..]).width
    ensures ParseDirective(fmt).rest == ParseDirective(fmt[1..]).rest
  {
    var z := Leading(fmt[1..], ZERO);
    assert Leading(fmt, ZERO) == z + 1;
    assert fmt[1..][z..] == fmt[z + 1..];
  }

  /** A directive that does not start with 0. */
  lemma {:induction false} NoZero(fmt: CStr)
    requires At(fmt, 0) != ZERO
    ensures var d := ParseDirective(fmt);
            && d.padchar == SPACE && d.width + d.rest == fmt
            && (forall i | 0 <= i < |d.width| :: IsDigit(At(fmt, i))) && !IsDigit(At(fmt, |d.width|))
  {
    assert Leading(fmt, ZERO) == 0 && fmt[0..] == fmt;
    LeadingDigitsMaximal(fmt);
  }

  /** The loop over the padding specifiers: n characters of the width, at the pointer and in padstr. */
  method ScanPadding(format: CStr, padstr: array<Byte>) returns (ok: bool, padchar: Byte, n: nat, fmt: CStr)
    requires padstr.Length == 8
    modifies padstr
    ensures var d := ParseDirective(format);
            && (ok <==> |d.width| <= 7)
            && (ok ==> padchar == d.padchar && n == |d.width| && fmt == d.width + d.rest && padstr[..n] == d.width)
  {
    hide ParseDirective;
    ghost var d := ParseDirective(format);
    fmt, padchar, n := format, SPACE, 0;
    while IsDigit(At(fmt, n))
      invariant n <= 7 && n <= |fmt|
      invariant n > 0 ==> At(fmt, 0) != ZERO
      invariant n <= |ParseDirective(fmt).width|
      invariant ParseDirective(fmt).width == d.width && ParseDirective(fmt).rest == d.rest
      invariant d.padchar == if padchar == ZERO then ZERO else ParseDirective(fmt).padchar
      invariant padchar == SPACE || padchar == ZERO
      invariant padstr[..n] == fmt[..n]
      decreases |fmt| - n
    {
      if n == 0 && At(fmt, 0) == ZERO {
        SkipZero(fmt);
        padchar := ZERO;
        fmt := fmt[1..];
        continue;
      }
      WidthGoesOn(fmt, n);
      if n == 7 {
        return false, padchar, n, fmt;
      }
      ghost var before := padstr[..n];
      padstr[n] := At(fmt, n);
      assert padstr[..n + 1] == before + [padstr[n]] && fmt[..n + 1] == fmt[..n] + [fmt[n]];
      n := n + 1;
    }
    WidthEnds(fmt, n);
    return true, padchar, n, fmt;
  }

  lemma {:induction false} WidthGoesOn(fmt: CStr, n: nat)
    requires IsDigit(At(fmt, n)) && At(fmt, 0) != ZERO && n <= |ParseDirective(fmt).width|
    ensures n < |ParseDirective(fmt).width| && n < |fmt|
  {
    NoZero(fmt);
  }

  lemma {:induction false} WidthEnds(fmt: CStr, n: nat)
    requires !IsDigit(At(fmt, n)) && At(fmt, 0) != ZERO && n <= |ParseDirective(fmt).width|
    ensures var d := ParseDirective(fmt);
            n == |d.width| && fmt[..n] == d.width && fmt == d.width + d.rest && d.padchar == SPACE
  {
    NoZero(fmt);
  }

  /** The padding specifiers behind a %: `rest` starts at the conversion character. */
  method ReadPadding(format: CStr) returns (w: Outcome, padchar: Byte, padding: uint32, rest: CStr)
    ensures var d := ParseDirective(format);
            if |d.width| > 7 then w == Overrun
            else
              match ReadWidth(d.width)
              case None => w == AssertFailed
              case Some(n) => w == Finished && padchar == d.padchar && padding == n && rest == d.rest
  {
    hide ParseDirective, Convert, Ipow, Squared;
    var padstr := new Byte[8];
    var ok, n: nat, fmt: CStr;
    ghost var d := ParseDirective(format);
    ok, padchar, n, fmt := ScanPadding(format, padstr);
    if !ok {
      return Overrun, padchar, 0, format;
    }
    padding, rest := 0, fmt[n..];
    assert rest == d.rest;
    if n > 0 {
      assert 0 !in d.width;
      padstr[n] := 0;
      assert padstr[..n] == d.width;
      PlacedText(padstr[..], 0, d.width);
      var value := Strtoint(padstr[..], 10);
      if value == None {
        return AssertFailed, padchar, 0, rest;
      }
      padding := Wrap(value.value);
    }
    return Finished, padchar, padding, rest;
  }

  // ----- vsprintf

  /** Rendered into a scratch array of `cap` characters and appended to the string at dst. */
  method AppendNumber(buf: array<Byte>, dst: nat, num: nat, base: nat, cap: nat, padding: nat, padchar: Byte)
    returns (ok: bool, next: nat)
    requires 2 <= base <= 36 && num < TWO64 && padchar != 0
    requires dst + Length(buf[..], dst) < buf.Length
    modifies buf
    ensures var t := Scratch(num, base, padding, padchar, cap); var at := dst + Length(old(buf[..]), dst);
            && (ok <==> t.Some? && at + |t.value| < buf.Length)
            && (ok ==> next == at + |t.value| && buf[..] == Splice(old(buf[..]), at, t.value + [0]))
  {
    next := dst;
    var scratch := new Byte[cap];
    ok := Inttostr(num, base, scratch, padding, padchar);
    if ok {
      ghost var t := Scratch(num, base, padding, padchar, cap).value;
      ScratchNonEmpty(num, base, padding, padchar, cap);
      hide Scratch;
      PlacedText(scratch[..], 0, t);
      var last: int;
      ok, last := Strcat(buf, dst, scratch[..]);
      if ok {
        next := last + 1;
      }
    }
  }

  lemma {:induction false} ScratchNonEmpty(num: nat, base: nat, padding: nat, padchar: Byte, cap: nat)
    requires 2 <= base <= 36 && padchar != 0 && Scratch(num, base, padding, padchar, cap).Some?
    ensures var t := Scratch(num, base, padding, padchar, cap).value; t != [] && 0 !in t && |t| < cap
  {}

  /** %u: the low 31 bits, behind a sign if bit 31 is set. */
  method AppendUnsigned(buf: array<Byte>, at: nat, b: uint32, padding: nat, padchar: Byte) returns (ok: bool, next: nat)
    requires padchar != 0 && at < buf.Length && Length(buf[..], at) == 0
    modifies buf
    ensures var t := Scratch(b % TWO31, 10, padding, padchar, 16); var sign := if b >= TWO31 then [MINUS] else [];
            && (ok <==> t.Some? && at + |sign + t.value| < buf.Length)
            && (ok ==> && next == at + |sign + t.value|
                       && buf[..] == Splice(old(buf[..]), at, sign + t.value + [0]))
  {
    hide Scratch;
    ghost var before := buf[..];
    var str := at;
    if b >= TWO31 {
      PlacedText([MINUS], 0, [MINUS]);
      var last: int;
      ok, last := Strcat(buf, at, [MINUS]);
      if !ok { return false, at; }
      str := last;
      PlacedText(buf[..], at, [MINUS]);
    }
    ghost var signed := buf[..];
    ok, next := AppendNumber(buf, str, b % TWO31, 10, 16, padding, padchar);
    if ok && b >= TWO31 {
      SpliceTwice(before, at, [MINUS], [MINUS] + [0], Scratch(b % TWO31, 10, padding, padchar, 16).value + [0]);
    }
  }

  /** %s: the string, then the spaces. */
  method AppendString(buf: array<Byte>, at: nat, s: CStr, padding: uint32) returns (ok: bool, next: nat)
    requires at < buf.Length && Length(buf[..], at) == 0
    modifies buf
    ensures var t := s + Repeat(SPACE, SpacesBehind(padding, |s|));
            && (ok <==> at + |t| < buf.Length)
            && (ok ==> next == at + |t| && buf[..] == Splice(old(buf[..]), at, t + [0]))
  {
    hide Length, CString.Text, Placed, Splice;
    ghost var before := buf[..];
    next := at;
    NoSpaces(s);
    PlacedText(s, 0, s);
    var str: int;
    ok, str := Strcat(buf, at, s);
    if !ok { return; }
    var len := Strlen(s, 0);
    var truepad := Wrap(padding - len);
    if 0 < truepad < TWO31 {
      ok, str := PutSpaces(buf, str, truepad);
      if !ok { return; }
      SpliceTwice(before, at, s, s + [0], Repeat(SPACE, truepad) + [0]);
      assert s + (Repeat(SPACE, truepad) + [0]) == s + Repeat(SPACE, truepad) + [0];
    }
    next := str + 1;
  }

  lemma {:induction false} NoSpaces(s: CStr)
    ensures Placed(s, 0, s + [0]) && s + Repeat(SPACE, 0) == s && (s + [0])[..|s|] == s
  {}

  /** n > 0 spaces behind the place `last`, and a 0. */
  method PutSpaces(buf: array<Byte>, last: int, n: nat) returns (ok: bool, str: int)
    requires -1 <= last < buf.Length - 1
    modifies buf
    ensures ok <==> last + 1 + n < buf.Length
    ensures ok ==> str == last + n && buf[..] == Splice(old(buf[..]), last + 1, Repeat(SPACE, n) + [0])
  {
    str := last;
    for i := 0 to n
      invariant str == last + i && str + 1 < buf.Length
      invariant forall j | last < j <= str :: buf[j] == SPACE
      invariant forall j | 0 <= j < buf.Length && !(last < j <= str) :: buf[j] == old(buf[j])
    {
      str := str + 1;
      if str + 1 >= buf.Length {
        return false, str;
      }
      buf[str] := SPACE;
    }
    str := str + 1;
    buf[str] := 0;
    str := str - 1;
    return true, str;
  }

  /** One conversion of an argument; not ok: out of some array, or an argument of another type. */
  method Field(buf: array<Byte>, at: nat, conv: Byte, padchar: Byte, padding: uint32, arg: Arg)
    returns (ok: bool, next: nat)
    requires TakesArg(conv) && padchar != 0
    modifies buf
    ensures var t := FieldText(conv, padchar, padding, arg);
            && (ok <==> t.Some? && at + |t.value| < buf.Length)
            && (ok ==> next == at + |t.value| && buf[..] == Splice(old(buf[..]), at, t.value + [0]))
  {
    hide Scratch, Length, Splice, SignExtended;
    next := at;
    if at >= buf.Length || (conv == CONV_S) != arg.Str? {
      return false, at;
    }
    ghost var before := buf[..];
    ghost var t := FieldText(conv, padchar, padding, arg);
    buf[at] := 0;
    assert buf[..] == before[at := 0];
    EmptyString(before, at);
    match arg {
      case Str(s) =>
        ok, next := AppendString(buf, at, s, padding);
      case Int(b) =>
        if conv == CONV_D {
          ok, next := AppendNumber(buf, at, SignExtended(b), 10, 16, padding, padchar);
        } else if conv == CONV_X {
          ok, next := AppendNumber(buf, at, b, 16, 8, padding, padchar);
        } else {
          ok, next := AppendUnsigned(buf, at, b, padding, padchar);
          ghost var digits := Scratch(b % TWO31, 10, padding, padchar, 16);
          assert digits.Some? ==> t.value == (if b >= TWO31 then [MINUS] else []) + digits.value;
        }
    }
    if ok {
      SpliceOver(before, at, t.value + [0]);
    }
  }

  lemma {:induction false} EmptyString(buf: seq<Byte>, at: nat)
    requires at < |buf|
    ensures Length(buf[at := 0], at) == 0
  {}

  lemma {:induction false} SpliceOver(buf: seq<Byte>, at: nat, text: seq<Byte>)
    requires text != [] && at + |text| <= |buf|
    ensures Splice(buf[at := 0], at, text) == Splice(buf, at, text)
  {}

  /** The switch over the conversion character; not ok: out of some array, or no such argument. */
  method Switch(buf: array<Byte>, at: nat, conv: Byte, padchar: Byte, padding: uint32, ghost rest: CStr, args: seq<Arg>)
    returns (ok: bool, str: nat, vl: seq<Arg>)
    requires padchar != 0
    modifies buf
    ensures RunField(old(buf[..]), at, conv, padchar, padding, rest, args) ==
            if ok then Run(buf[..], str, rest, vl) else Result.Undefined
  {
    hide Run, FieldText;
    ghost var before := buf[..];
    str, vl := at, args;
    if conv == PERCENT {
      if str >= buf.Length { return false, str, vl; }
      buf[str] := PERCENT;
      assert buf[..] == before[str := PERCENT];
    } else if conv == CONV_C {
      if vl == [] || vl[0].Str? || str + 1 >= buf.Length { return false, str, vl; }
      str := str + 1;
      var c: Byte := vl[0].bits % 256;
      buf[str] := c;
      assert buf[..] == before[str := c];
      vl := vl[1..];
    } else if TakesArg(conv) {
      if vl == [] { return false, str, vl; }
      ok, str := Field(buf, str, conv, padchar, padding, vl[0]);
      if !ok { return false, str, vl; }
      vl := vl[1..];
    }
    ok := true;
  }

  lemma {:induction false} TwoZeros(before: seq<Byte>, after: seq<Byte>, at: nat)
    requires at + 2 <= |before| && after == before[at := 0][at + 1 := 0]
    ensures after == Splice(before, at, END)
  {}

  /** One turn of the loop, as Run has it. */
  lemma {:induction false} NextRun(buf: seq<Byte>, at: nat, fmt: seq<Byte>, args: seq<Arg>)
    ensures fmt == [] ==>
              Run(buf, at, fmt, args) == if at + 2 <= |buf| then Result.Done(Splice(buf, at, END)) else Result.Undefined
    ensures fmt != [] && fmt[0] != PERCENT ==>
              Run(buf, at, fmt, args) ==
              if at < |buf| then Run(buf[at := fmt[0]], at + 1, fmt[1..], args) else Result.Undefined
    ensures fmt != [] && fmt[0] == PERCENT ==>
              var d := ParseDirective(fmt[1..]);
              Run(buf, at, fmt, args) ==
              if |d.width| > 7 then Result.Undefined
              else
                match ReadWidth(d.width)
                case None => Result.Panicked
                case Some(padding) =>
                  if d.rest == [] then Result.Undefined
                  else RunField(buf, at, d.rest[0], d.padchar, padding, d.rest[1..], args)
  {
    hide RunField, ParseDirective, ReadWidth, Splice;
  }

  /** Formats into the buffer from `start` on. With Format.WritesWhatItMeans and Format.MeetsMeaningIff: what the
      format asks for, exactly when each of its pieces works. */
  method Vsprintf(buf: array<Byte>, start: nat, format: CStr, args: seq<Arg>) returns (w: Outcome)
    modifies buf
    ensures match Run(old(buf[..]), start, format, args)
            case Done(b) => w == Finished && buf[..] == b
            case Panicked => w == AssertFailed
            case Undefined => w == Overrun
  {
    hide Run, RunField, ParseDirective, ReadWidth, Splice;
    ghost var result := Run(buf[..], start, format, args);
    var fmt: CStr, str: nat, vl := format, start, args;
    while fmt != []
      invariant Run(buf[..], str, fmt, vl) == result
      decreases |fmt|
    {
      ghost var before := buf[..];
      NextRun(before, str, fmt, vl);
      if fmt[0] != PERCENT {
        if str >= buf.Length { return Overrun; }
        buf[str] := fmt[0];
        assert buf[..] == before[str := fmt[0]];
        str := str + 1;
        fmt := fmt[1..];
        continue;
      }
      var status, padchar, padding, rest := ReadPadding(fmt[1..]);
      if status != Finished { return status; }
      if rest == [] { return Overrun; }
      var ok: bool;
      ok, str, vl := Switch(buf, str, rest[0], padchar, padding, rest[1..], vl);
      if !ok { return Overrun; }
      fmt := rest[1..];
    }
    ghost var before := buf[..];
    NextRun(before, str, fmt, vl);
    if str + 2 > buf.Length { return Overrun; }
    buf[str], buf[str + 1] := 0, 0;
    TwoZeros(before, buf[..], str);
    return Finished;
  }
}
