/** What vsprintf leaves in its buffer, and when that is what the format asks for. */
module Format {
  import opened CString
  import opened Collections
  import opened Words
  import opened Stdio

  /** A variadic argument. */
  datatype Arg = Int(bits: uint32) | Str(text: CStr)

  /** Undefined: the code writes or reads outside an object, or the argument has another type. */
  datatype Result = Done(buf: seq<Byte>) | Panicked | Undefined

  /** vsprintf ends its output twice. */
  const END: seq<Byte> := [0, 0]

  predicate IsDigit(c: Byte) {
    48 <= c <= 57
  }

  /** How many characters c the text starts with. */
  function Leading(s: seq<Byte>, c: Byte): (n: nat)
    ensures n <= |s|
  {
    if s == [] || s[0] != c then 0 else 1 + Leading(s[1..], c)
  }

  function LeadingDigits(s: seq<Byte>): (n: nat)
    ensures n <= |s| && forall i | 0 <= i < n :: IsDigit(s[i])
  {
    if s == [] || !IsDigit(s[0]) then 0 else 1 + LeadingDigits(s[1..])
  }

  /** A 32-bit `int` converted to `uint64_t`. */
  function SignExtended(b: uint32): (r: nat)
    ensures r < TWO64
  {
    if b < TWO31 then b else TWO64 - TWO32 + b
  }

  /** The text _inttostr leaves in a scratch array of `cap` characters; its own arrays hold 64. */
  function Scratch(num: nat, base: nat, padding: nat, padchar: Byte, cap: nat): Option<seq<Byte>>
    requires 2 <= base <= 36
  {
    var text := Render(num, base, padding, padchar);
    if |text| <= 63 && |text| < cap then Some(text) else None
  }

  /** The spaces behind a string: the difference is taken on unsigned words and read as a signed one. */
  function SpacesBehind(padding: uint32, n: nat): nat {
    var d := Wrap(padding - n);
    if d < TWO31 then d else 0
  }

  /** The text one conversion appends. */
  function FieldText(conv: Byte, padchar: Byte, padding: uint32, arg: Arg): Option<seq<Byte>> {
    match arg
    case Str(s) => if conv == CONV_S then Some(s + Repeat(SPACE, SpacesBehind(padding, |s|))) else None
    case Int(b) =>
      if conv == CONV_D then Scratch(SignExtended(b), 10, padding, padchar, 16)
      else if conv == CONV_U then
        match Scratch(b % TWO31, 10, padding, padchar, 16)
        case None => None
        case Some(t) => Some(if b >= TWO31 then [MINUS] + t else t)
      else if conv == CONV_X then Scratch(b, 16, padding, padchar, 8)
      else None
  }

  predicate TakesArg(conv: Byte) {
    conv == CONV_D || conv == CONV_U || conv == CONV_X || conv == CONV_S
  }

  /** What stands behind a %: whether zeros lead, the digits of the width, and the rest. */
  datatype Directive = Directive(padchar: Byte, width: seq<Byte>, rest: seq<Byte>)

  function ParseDirective(fmt: seq<Byte>): (d: Directive)
    ensures |d.rest| <= |fmt| && d.padchar != 0
  {
    var z := Leading(fmt, ZERO);
    var n := LeadingDigits(fmt[z..]);
    Directive(if z > 0 then ZERO else SPACE, fmt[z..z + n], fmt[z + n..])
  }

  /** The width as read into the 8 characters of its scratch array. */
  function ReadWidth(width: seq<Byte>): Option<uint32> {
    if width == [] then Some(0)
    else
      match Convert(width, 10, 0, 0)
      case None => None
      case Some(w) => Some(Wrap(w))
  }

  function Splice(buf: seq<Byte>, at: nat, text: seq<Byte>): (r: seq<Byte>)
    requires at + |text| <= |buf|
    ensures |r| == |buf|
  {
    buf[..at] + text + buf[at + |text|..]
  }

  /** The run of vsprintf with its cursor `at` bytes into the buffer. */
  function Run(buf: seq<Byte>, at: nat, fmt: seq<Byte>, args: seq<Arg>): Result
    decreases |fmt|, 0
  {
    if fmt == [] then if at + 2 <= |buf| then Done(Splice(buf, at, END)) else Undefined
    else if fmt[0] != PERCENT then
      if at < |buf| then Run(buf[at := fmt[0]], at + 1, fmt[1..], args) else Undefined
    else
      var d := ParseDirective(fmt[1..]);
      if |d.width| > 7 then Undefined
      else
        match ReadWidth(d.width)
        case None => Panicked
        case Some(padding) =>
          if d.rest == [] then Undefined else RunField(buf, at, d.rest[0], d.padchar, padding, d.rest[1..], args)
  }

  /** The switch over the conversion character. */
  function RunField(
    buf: seq<Byte>, at: nat, conv: Byte, padchar: Byte, padding: uint32, rest: seq<Byte>, args: seq<Arg>): Result
    decreases |rest|, 1
  {
    if conv == PERCENT then if at < |buf| then Run(buf[at := PERCENT], at, rest, args) else Undefined
    else if conv == CONV_C then
      if args == [] || args[0].Str? || at + 1 >= |buf| then Undefined
      else Run(buf[at + 1 := args[0].bits % 256], at + 1, rest, args[1..])
    else if TakesArg(conv) then
      if args == [] then Undefined
      else
        match FieldText(conv, padchar, padding, args[0])
        case None => Undefined
        case Some(t) =>
          if at + |t| < |buf| then Run(Splice(buf, at, t + [0]), at + |t|, rest, args[1..]) else Undefined
    else Run(buf, at, rest, args)
  }

  // ----- what a format asks for

  /** A literal character, "%%", "%c", or a conversion with the flag 0, a width (0 for none) and its argument. */
  datatype Piece =
    | Lit(c: Byte)
    | Percent
    | Char(value: uint32)
    | Signed(zero: bool, width: nat, value: uint32)
    | Unsigned(zero: bool, width: nat, value: uint32)
    | Hex(zero: bool, width: nat, value: uint32)
    | Text(zero: bool, width: nat, text: CStr)

  predicate IsField(p: Piece) {
    p.Signed? || p.Unsigned? || p.Hex? || p.Text?
  }

  predicate Proper(p: Piece) {
    match p
    case Lit(c) => c != 0 && c != PERCENT
    case Text(_, _, t) => |t| < TWO31
    case _ => true
  }

  function Conversion(p: Piece): Byte
    requires IsField(p)
  {
    match p
    case Signed(_, _, _) => CONV_D
    case Unsigned(_, _, _) => CONV_U
    case Hex(_, _, _) => CONV_X
    case Text(_, _, _) => CONV_S
  }

  function ArgOf(p: Piece): Arg
    requires IsField(p)
  {
    if p.Text? then Str(p.text) else Int(p.value)
  }

  function ArgList(p: Piece): seq<Arg> {
    match p
    case Lit(_) => []
    case Percent => []
    case Char(v) => [Int(v)]
    case _ => [ArgOf(p)]
  }

  function WidthText(w: nat): seq<Byte> {
    if w == 0 then [] else Digits(w, 10)
  }

  function Padchar(p: Piece): Byte
    requires IsField(p)
  {
    if p.zero then ZERO else SPACE
  }

  function Unparse(p: Piece): (s: seq<Byte>) {
    match p
    case Lit(c) => [c]
    case Percent => [PERCENT, PERCENT]
    case Char(_) => [PERCENT, CONV_C]
    case _ => [PERCENT] + (if p.zero then [ZERO] else []) + WidthText(p.width) + [Conversion(p)]
  }

  function UnparseAll(ps: seq<Piece>): seq<Byte> {
    if ps == [] then [] else Unparse(ps[0]) + UnparseAll(ps[1..])
  }

  function Args(ps: seq<Piece>): seq<Arg> {
    if ps == [] then [] else ArgList(ps[0]) + Args(ps[1..])
  }

  /** The text a piece asks for. */
  function Meaning(p: Piece): seq<Byte> {
    match p
    case Lit(c) => [c]
    case Percent => [PERCENT]
    case Char(v) => [v % 256]
    case Signed(_, w, v) =>
      if v < TWO31 then Render(v, 10, w, Padchar(p)) else NegativeText(TWO32 - v, w, Padchar(p))
    case Unsigned(_, w, v) => Render(v, 10, w, Padchar(p))
    case Hex(_, w, v) => Render(v, 16, w, Padchar(p))
    case Text(_, w, t) => t + Repeat(SPACE, if w > |t| then w - |t| else 0)
  }

  /** A negative number: the sign stands in front of the zeros or behind the spaces. */
  function NegativeText(magnitude: nat, width: nat, padchar: Byte): seq<Byte> {
    if padchar == ZERO then [MINUS] + Render(magnitude, 10, if width > 0 then width - 1 else 0, ZERO)
    else
      var t := [MINUS] + Digits(magnitude, 10);
      Repeat(padchar, if width > |t| then width - |t| else 0) + t
  }

  function MeaningAll(ps: seq<Piece>): seq<Byte> {
    if ps == [] then [] else Meaning(ps[0]) + MeaningAll(ps[1..])
  }

  /** Widths _strtoint reads back. */
  predicate ReadableWidth(w: nat) {
    w < 100 || (w < 1000 && w / 10 % 10 == 0)
  }

  /** A width that is not read back asks for no space behind a string of n characters, and neither does what was read. */
  predicate WidthIdle(w: nat, n: nat) {
    w <= n && |WidthText(w)| <= 7 && match ReadWidth(WidthText(w)) case None => false case Some(r) => SpacesBehind(r, n) == 0
  }

  /** The pieces vsprintf renders as asked when `here` is the byte under its cursor: %d and %u need a value below 2^31
      and a field below 16 characters, %x a field below 8, %s a width that is read back or does not matter; %% never
      comes out right, and %c only if its character is there already. */
  predicate Works(p: Piece, here: Byte) {
    match p
    case Lit(_) => true
    case Percent => false
    case Char(v) => here == v % 256
    case Signed(_, w, v) => w < 16 && v < TWO31
    case Unsigned(_, w, v) => w < 16 && v < TWO31
    case Hex(_, w, v) => w < 8 && v < 0x1000_0000
    case Text(_, w, t) => ReadableWidth(w) || WidthIdle(w, |t|)
  }

  /** The byte under the cursor. */
  function Here(buf: seq<Byte>, at: nat): Byte {
    if at < |buf| then buf[at] else 0
  }

  /** What a piece leaves when it comes out right: behind its text %c leaves its character and a conversion a 0. */
  function Written(p: Piece): (w: seq<Byte>)
    ensures |Meaning(p)| <= |w| <= |Meaning(p)| + 1 && w[..|Meaning(p)|] == Meaning(p)
  {
    match p
    case Lit(_) => Meaning(p)
    case Percent => Meaning(p)
    case Char(v) => Meaning(p) + [v % 256]
    case _ => Meaning(p) + [0]
  }

  /** Every piece works where the text asked for before it ends. */
  predicate AllWork(buf: seq<Byte>, at: nat, ps: seq<Piece>)
    decreases |ps|
  {
    ps == [] ||
    (Works(ps[0], Here(buf, at)) &&
     (at + |Written(ps[0])| <= |buf| ==> AllWork(Splice(buf, at, Written(ps[0])), at + |Meaning(ps[0])|, ps[1..])))
  }

  // ----- parsing inverts unparsing

  lemma {:induction false} LeadingOf(a: seq<Byte>, c: Byte, b: seq<Byte>)
    requires (forall i | 0 <= i < |a| :: a[i] == c) && (b == [] || b[0] != c)
    ensures Leading(a + b, c) == |a|
  {
    if a != [] {
      assert (a + b)[1..] == a[1..] + b;
      LeadingOf(a[1..], c, b);
    } else {
      assert a + b == b;
    }
  }

  lemma {:induction false} LeadingDigitsOf(a: seq<Byte>, b: seq<Byte>)
    requires (forall i | 0 <= i < |a| :: IsDigit(a[i])) && b != [] && !IsDigit(b[0])
    ensures LeadingDigits(a + b) == |a|
  {
    if a != [] {
      assert (a + b)[1..] == a[1..] + b;
      LeadingDigitsOf(a[1..], b);
    } else {
      assert a + b == b;
    }
  }

  lemma {:induction false} DecimalDigits(w: nat)
    ensures forall i | 0 <= i < |Digits(w, 10)| :: IsDigit(Digits(w, 10)[i])
    decreases w
  {
    if w >= 10 {
      DecimalDigits(w / 10);
    }
  }

  lemma {:induction false} ParseUnparsed(p: Piece, more: seq<Byte>)
    requires IsField(p)
    ensures ParseDirective((Unparse(p) + more)[1..]) == Directive(Padchar(p), WidthText(p.width), [Conversion(p)] + more)
  {
    var zs, ds, rest := if p.zero then [ZERO] else [], WidthText(p.width), [Conversion(p)] + more;
    assert Unparse(p) == [PERCENT] + zs + ds + [Conversion(p)];
    Reassociate(PERCENT, zs, ds, [Conversion(p)], more);
    if p.width > 0 {
      DigitsAreMinimal(p.width, 10);
      DecimalDigits(p.width);
    }
    hide ParseDirective, Unparse, Digits;
    ParseParts(zs, ds, rest);
  }

  lemma {:induction false} Reassociate(c: Byte, zs: seq<Byte>, ds: seq<Byte>, conv: seq<Byte>, more: seq<Byte>)
    ensures ([c] + zs + ds + conv + more)[1..] == zs + (ds + (conv + more))
  {}

  lemma {:induction false} ParseParts(zs: seq<Byte>, ds: seq<Byte>, rest: seq<Byte>)
    requires (forall i | 0 <= i < |zs| :: zs[i] == ZERO) && (forall i | 0 <= i < |ds| :: IsDigit(ds[i]))
    requires rest != [] && !IsDigit(rest[0]) && (ds != [] ==> ds[0] != ZERO)
    ensures ParseDirective(zs + (ds + rest)) == Directive(if zs != [] then ZERO else SPACE, ds, rest)
  {
    LeadingOf(zs, ZERO, ds + rest);
    assert (zs + (ds + rest))[|zs|..] == ds + rest;
    LeadingDigitsOf(ds, rest);
    assert (ds + rest)[..|ds|] == ds && (ds + rest)[|ds|..] == rest;
    var fmt, z, n := zs + (ds + rest), |zs|, |ds|;
    assert fmt[z..z + n] == ds && fmt[z + n..] == rest;
  }

  lemma {:induction false} ReadWidthOf(w: nat)
    ensures |WidthText(w)| <= 7 <==> w < 10000000
    ensures w < 10000000 ==> (ReadableWidth(w) <==> ReadWidth(WidthText(w)) == Some(w))
    ensures w < 1000 && !ReadableWidth(w) ==> ReadWidth(WidthText(w)) == None
  {
    hide Pow, Digits, Convert;
    if w > 0 {
      TenMillion();
      DigitCountIff(w, 10, 7);
      if w < 10000000 {
        WidthIsExactIff(w);
      }
    }
  }

  lemma {:induction false} TenMillion()
    ensures Pow(10, 7) == 10000000
  {
    assert Pow(10, 3) == 1000;
    assert Pow(10, 7) == 10 * (10 * (10 * (10 * Pow(10, 3))));
  }

  // ----- inputs it gets wrong

  /** "%08x" overruns its scratch array of 8 characters whatever the value. */
  lemma {:induction false} EightHexDigitsOverrun(buf: seq<Byte>, at: nat, value: uint32)
    ensures Run(buf, at, Unparse(Hex(true, 8, value)) + [], [Int(value)] + []) == Undefined
  {
    var p := Hex(true, 8, value);
    FieldStep(buf, at, p, [], []);
    ReadWidthOf(8);
    ScratchFitsIff(value, 16, 8, ZERO, 8);
    assert [Int(value)] + [] != [] && ([Int(value)] + [])[0] == Int(value);
    hide Run, Scratch;
  }

  /** "%%" puts its character under the cursor and leaves the cursor there: the next character is written over it. */
  lemma {:induction false} PercentStep(buf: seq<Byte>, at: nat, more: seq<Byte>, args: seq<Arg>)
    ensures Run(buf, at, [PERCENT, PERCENT] + more, args) ==
            if at < |buf| then Run(buf[at := PERCENT], at, more, args) else Undefined
  {
    var rest := [PERCENT] + more;
    assert ([PERCENT, PERCENT] + more)[1..] == rest && rest[1..] == more;
    NoDirective(rest);
  }

  lemma {:induction false} NoDirective(rest: seq<Byte>)
    requires rest != [] && !IsDigit(rest[0])
    ensures ParseDirective(rest) == Directive(SPACE, [], rest)
  {
    ParseParts([], [], rest);
    assert [] + ([] + rest) == rest;
  }

  /** A literal character behind "%%" replaces it. */
  lemma {:induction false} PercentIsLost(buf: seq<Byte>, at: nat, c: Byte, more: seq<Byte>, args: seq<Arg>)
    requires c != PERCENT
    ensures Run(buf, at, [PERCENT, PERCENT] + ([c] + more), args) == Run(buf, at, [c] + more, args)
  {
    PercentStep(buf, at, [c] + more, args);
    assert ([c] + more)[1..] == more;
    if at < |buf| {
      assert buf[at := PERCENT][at := c] == buf[at := c];
    }
  }

  /** "%c" steps over the byte under the cursor and puts its character under the new cursor. */
  lemma {:induction false} CharStep(buf: seq<Byte>, at: nat, c: uint32, more: seq<Byte>, args: seq<Arg>)
    ensures Run(buf, at, [PERCENT, CONV_C] + more, [Int(c)] + args) ==
            if at + 1 < |buf| then Run(buf[at + 1 := c % 256], at + 1, more, args) else Undefined
  {
    var rest := [CONV_C] + more;
    assert ([PERCENT, CONV_C] + more)[1..] == rest && rest[1..] == more;
    NoDirective(rest);
    assert ([Int(c)] + args)[1..] == args;
  }

  /** A % before any other character: both are skipped, and no argument is taken. */
  lemma {:induction false} UnknownIsSkipped(buf: seq<Byte>, at: nat, c: Byte, more: seq<Byte>, args: seq<Arg>)
    requires !IsDigit(c) && forall x | x in "%cdusx" :: c != x as int
    ensures Run(buf, at, [PERCENT, c] + more, args) == Run(buf, at, more, args)
  {
    var rest := [c] + more;
    assert ([PERCENT, c] + more)[1..] == rest && rest[1..] == more;
    NoDirective(rest);
    assert 'c' in "%cdusx" && 'd' in "%cdusx" && 'u' in "%cdusx" && 's' in "%cdusx" && 'x' in "%cdusx" && '%' in "%cdusx";
  }

  /** A % at the very end: the code reads on behind the format. */
  lemma {:induction false} LonePercent(buf: seq<Byte>, at: nat, args: seq<Arg>)
    ensures Run(buf, at, [PERCENT], args) == Undefined
  {
    assert [PERCENT][1..] == [];
    assert ParseDirective([]) == Directive(SPACE, [], []);
  }

  /** So "%c" is right exactly when its character was in the buffer already. */
  lemma {:induction false} CharIsRightIff(buf: seq<Byte>, at: nat, c: uint32)
    requires at + 3 <= |buf|
    ensures Run(buf, at, [PERCENT, CONV_C] + [], [Int(c)] + []) == Done(Splice(buf, at, [c % 256] + END))
            <==> buf[at] == c % 256
  {
    CharStep(buf, at, c, [], []);
    var left, right := Splice(buf[at + 1 := c % 256], at + 1, END), Splice(buf, at, [c % 256] + END);
    assert left[at] == buf[at] && right[at] == c % 256;
    if buf[at] == c % 256 {
      assert left == right;
    }
  }

  /** An output can look right although a piece of it went wrong: "%%%c" with the character 0 in front of a 0. */
  lemma {:induction false} PercentCanGoUnnoticed(buf: seq<Byte>, at: nat, ps: seq<Piece>)
    requires ps == [Percent, Char(0)] && at + 4 <= |buf| && buf[at + 3] == 0
    ensures |MeaningAll(ps)| == 2
    ensures Run(buf, at, UnparseAll(ps), Args(ps)) == Done(Splice(buf, at, MeaningAll(ps) + END))
  {
    hide UnparseAll, Args, MeaningAll, Run, Convert, Ipow;
    UnnoticedFormat(ps);
    PercentStep(buf, at, [PERCENT, CONV_C] + [], [Int(0)] + []);
    CharStep(buf[at := PERCENT], at, 0, [], []);
    EndOfRun(buf[at := PERCENT][at + 1 := 0], at + 1);
    assert Splice(buf[at := PERCENT][at + 1 := 0], at + 1, END) == Splice(buf, at, [PERCENT, 0] + END);
  }

  lemma {:induction false} UnnoticedFormat(ps: seq<Piece>)
    requires ps == [Percent, Char(0)]
    ensures UnparseAll(ps) == [PERCENT, PERCENT] + ([PERCENT, CONV_C] + []) && Args(ps) == [Int(0)] + []
    ensures MeaningAll(ps) == [PERCENT, 0]
  {
    assert ps[1..] == [Char(0)] && [Char(0)][1..] == [];
    Unfolded(ps);
    Unfolded([Char(0)]);
  }

  // ----- one field

  lemma {:induction false} BelowPowers()
    ensures Pow(16, 7) == 0x1000_0000 && Pow(10, 10) == 10000000000 && Pow(10, 15) == 1000000000000000
  {
    assert Pow(16, 3) == 4096 && Pow(10, 5) == 100000;
    assert Pow(16, 7) == 16 * (16 * (16 * (16 * Pow(16, 3))));
    assert Pow(10, 10) == 10 * (10 * (10 * (10 * (10 * Pow(10, 5)))));
    assert Pow(10, 15) == 10 * (10 * (10 * (10 * (10 * Pow(10, 10)))));
  }

  lemma {:induction false} ScratchFitsIff(num: nat, base: nat, padding: nat, padchar: Byte, cap: nat)
    requires 2 <= base <= 36
    ensures var limit := if cap < 64 then cap else 64;
            Scratch(num, base, padding, padchar, cap) ==
            if padding < limit && |Digits(num, base)| < limit then Some(Render(num, base, padding, padchar)) else None
  {}

  /** From 2^31 on %u appends a minus sign and the number less 2^31. */
  lemma {:induction false} LargeUnsignedIsNegative(width: uint32, value: uint32, padchar: Byte)
    requires width < 16 && value >= 0x8000_0000
    ensures FieldText(CONV_U, padchar, width, Int(value)) ==
            Some(['-' as int] + Render(value - 0x8000_0000, 10, width, padchar))
  {
    BelowPowers();
    ScratchFitsIff(value % TWO31, 10, width, padchar, 16);
    DigitCountIff(value % TWO31, 10, 10);
    hide Pow, Digits, Scratch, Render;
  }

  lemma {:induction false} SignedIsRightIff(width: uint32, value: uint32, padchar: Byte)
    ensures FieldText(CONV_D, padchar, width, Int(value)) ==
            if width < 16 && value < TWO31 then Some(Render(value, 10, width, padchar)) else None
  {
    BelowPowers();
    ScratchFitsIff(SignExtended(value), 10, width, padchar, 16);
    DigitCountIff(SignExtended(value), 10, 10);
    DigitCountIff(SignExtended(value), 10, 15);
    hide Pow, Digits, Scratch, Render;
  }

  lemma {:induction false} UnsignedIsRightIff(width: uint32, value: uint32, padchar: Byte)
    requires padchar != MINUS
    ensures FieldText(CONV_U, padchar, width, Int(value)) == Some(Render(value, 10, width, padchar)) <==>
            width < 16 && value < TWO31
  {
    BelowPowers();
    var low := value % TWO31;
    ScratchFitsIff(low, 10, width, padchar, 16);
    DigitCountIff(low, 10, 10);
    SignIsNoDigit(value, width, padchar);
    hide Pow, Digits, Scratch, Render;
  }

  lemma {:induction false} HexIsRightIff(width: uint32, value: uint32, padchar: Byte)
    ensures FieldText(CONV_X, padchar, width, Int(value)) == Some(Render(value, 16, width, padchar)) <==>
            width < 8 && value < 0x1000_0000
  {
    BelowPowers();
    ScratchFitsIff(value, 16, width, padchar, 8);
    DigitCountIff(value, 16, 7);
    hide Pow, Digits, Scratch, Render;
  }

  /** What a conversion appends once its width has been read, None if the width cannot be read. */
  function Appended(p: Piece): Option<seq<Byte>>
    requires IsField(p)
  {
    if |WidthText(p.width)| > 7 then None
    else
      match ReadWidth(WidthText(p.width))
      case None => None
      case Some(r) => FieldText(Conversion(p), Padchar(p), r, ArgOf(p))
  }

  /** Exactly the fields that work append what they ask for. */
  lemma {:induction false} FieldIsRightIff(p: Piece, here: Byte)
    requires IsField(p) && Proper(p)
    ensures Works(p, here) <==> Appended(p) == Some(Meaning(p))
  {
    hide Appended, Meaning, ReadableWidth, WidthIdle;
    if p.Text? {
      TextIsRightIff(p);
    } else if p.width < 1000 {
      ShortFieldIsRightIff(p);
    } else {
      WideNumberIsWrong(p);
    }
  }

  lemma {:induction false} ShortFieldIsRightIff(p: Piece)
    requires IsField(p) && !p.Text? && p.width < 1000
    ensures Works(p, 0) <==> Appended(p) == Some(Meaning(p))
  {
    var (w, padchar) := (p.width, Padchar(p));
    ReadWidthOf(w);
    match p {
      case Signed(_, w, v) => SignedIsRightIff(w, v, padchar);
      case Unsigned(_, w, v) => UnsignedIsRightIff(w, v, padchar);
      case Hex(_, w, v) => HexIsRightIff(w, v, padchar);
    }
    hide ReadWidth, WidthText, FieldText, Render;
  }

  /** The scratch arrays hold no field as wide as that. */
  lemma {:induction false} WideNumberIsWrong(p: Piece)
    requires IsField(p) && !p.Text? && p.width >= 1000
    ensures !Works(p, 0) && Appended(p) != Some(Meaning(p))
  {
    hide ReadWidth, WidthText, Digits;
    WideMeaning(p);
    if Appended(p).Some? {
      NumberIsShort(Conversion(p), Padchar(p), ReadWidth(WidthText(p.width)).value, p.value);
    }
  }

  lemma {:induction false} WideMeaning(p: Piece)
    requires IsField(p) && !p.Text?
    ensures |Meaning(p)| >= p.width
  {}

  lemma {:induction false} NumberIsShort(conv: Byte, padchar: Byte, padding: uint32, value: uint32)
    ensures var t := FieldText(conv, padchar, padding, Int(value)); t.Some? ==> |t.value| <= 16
  {
    hide Render;
  }

  /** A width that was read as another one only does when neither asks for a space. */
  lemma {:induction false} TextIsRightIff(p: Piece)
    requires p.Text? && Proper(p)
    ensures Works(p, 0) <==> Appended(p) == Some(Meaning(p))
  {
    var (w, t) := (p.width, p.text);
    ReadWidthOf(w);
    var spaces := if w > |t| then w - |t| else 0;
    assert Meaning(p) == t + Repeat(SPACE, spaces);
    if Appended(p).Some? {
      var r := ReadWidth(WidthText(w)).value;
      assert Appended(p) == Some(t + Repeat(SPACE, SpacesBehind(r, |t|)));
      SameSpaces(t, SpacesBehind(r, |t|), spaces);
      SpacesOfWidth(w, |t|);
      SpacesOfWidth(r, |t|);
    }
  }

  lemma {:induction false} SameSpaces(t: seq<Byte>, a: nat, b: nat)
    ensures t + Repeat(SPACE, a) == t + Repeat(SPACE, b) <==> a == b
  {
    if t + Repeat(SPACE, a) == t + Repeat(SPACE, b) {
      assert |t + Repeat(SPACE, a)| == |t + Repeat(SPACE, b)|;
    }
  }

  lemma {:induction false} SpacesOfWidth(r: nat, n: nat)
    requires r < TWO32 && n < TWO31
    ensures r < TWO31 ==> SpacesBehind(r, n) == if r > n then r - n else 0
    ensures SpacesBehind(r, n) > 0 ==> SpacesBehind(r, n) == r - n
  {}

  lemma {:induction false} SignIsNoDigit(num: nat, width: nat, padchar: Byte)
    requires padchar != MINUS
    ensures Render(num, 10, width, padchar)[0] != MINUS
  {
    DecimalDigits(num);
  }

  // ----- a whole format

  lemma {:induction false} WorkingPiece(buf: seq<Byte>, at: nat, p: Piece, more: seq<Byte>, args: seq<Arg>)
    requires Proper(p) && Works(p, Here(buf, at))
    ensures Run(buf, at, Unparse(p) + more, ArgList(p) + args) ==
            if at + |Written(p)| <= |buf| then Run(Splice(buf, at, Written(p)), at + |Meaning(p)|, more, args)
            else Undefined
  {
    hide Run;
    if IsField(p) {
      WorkingField(buf, at, p, more, args);
      FieldFacts(p);
    } else if p.Lit? {
      LitStep(buf, at, p.c, more, args);
    } else {
      CharWorks(buf, at, p.value, more, args);
    }
  }

  lemma {:induction false} CharWorks(buf: seq<Byte>, at: nat, c: uint32, more: seq<Byte>, args: seq<Arg>)
    requires Here(buf, at) == c % 256
    ensures Run(buf, at, [PERCENT, CONV_C] + more, [Int(c)] + args) ==
            if at + 2 <= |buf| then Run(Splice(buf, at, [c % 256] + [c % 256]), at + 1, more, args) else Undefined
  {
    hide Run;
    CharStep(buf, at, c, more, args);
    if at + 1 < |buf| {
      assert buf[at + 1 := c % 256] == Splice(buf, at, [c % 256] + [c % 256]);
    }
  }

  lemma {:induction false} WorkingField(buf: seq<Byte>, at: nat, p: Piece, more: seq<Byte>, args: seq<Arg>)
    requires Proper(p) && IsField(p) && Works(p, Here(buf, at))
    ensures Run(buf, at, Unparse(p) + more, [ArgOf(p)] + args) ==
            if at + |Meaning(p)| < |buf|
            then Run(Splice(buf, at, Meaning(p) + [0]), at + |Meaning(p)|, more, args)
            else Undefined
  {
    hide *;
    FieldFacts(p);
    FieldIsRightIff(p, Here(buf, at));
    FieldRuns(buf, at, p, more, args);
  }

  /** A conversion appends its text and a 0, or stops the run. */
  lemma {:induction false} FieldRuns(buf: seq<Byte>, at: nat, p: Piece, more: seq<Byte>, args: seq<Arg>)
    requires IsField(p)
    ensures var r := Run(buf, at, Unparse(p) + more, ArgList(p) + args);
            match Appended(p)
            case None => !r.Done?
            case Some(t) =>
              r == if at + |t| < |buf| then Run(Splice(buf, at, t + [0]), at + |t|, more, args) else Undefined
  {
    hide Run, RunField, FieldText, ReadWidth, WidthText, Splice, Unparse, ArgOf, ArgList, Conversion, Padchar, TakesArg, Appended;
    FieldFacts(p);
    FieldStep(buf, at, p, more, args);
    if |WidthText(p.width)| <= 7 && ReadWidth(WidthText(p.width)).Some? {
      var r := ReadWidth(WidthText(p.width)).value;
      if FieldText(Conversion(p), Padchar(p), r, ArgOf(p)).Some? {
        FieldAppends(buf, at, Conversion(p), Padchar(p), r, more, ArgOf(p), args);
      } else {
        FieldStops(buf, at, Conversion(p), Padchar(p), r, more, ArgOf(p), args);
      }
    }
  }

  lemma {:induction false} FieldFacts(p: Piece)
    requires IsField(p)
    ensures ArgList(p) == [ArgOf(p)] && TakesArg(Conversion(p)) && Written(p) == Meaning(p) + [0]
    ensures Appended(p) ==
            if |WidthText(p.width)| > 7 then None
            else
              match ReadWidth(WidthText(p.width))
              case None => None
              case Some(r) => FieldText(Conversion(p), Padchar(p), r, ArgOf(p))
  {}

  lemma {:induction false} FieldStops(
    buf: seq<Byte>, at: nat, conv: Byte, padchar: Byte, padding: uint32, rest: seq<Byte>, arg: Arg, args: seq<Arg>)
    requires TakesArg(conv) && FieldText(conv, padchar, padding, arg) == None
    ensures RunField(buf, at, conv, padchar, padding, rest, [arg] + args) == Undefined
  {
    hide Run, FieldText;
  }

  lemma {:induction false} FieldAppends(
    buf: seq<Byte>, at: nat, conv: Byte, padchar: Byte, padding: uint32, rest: seq<Byte>, arg: Arg, args: seq<Arg>)
    requires TakesArg(conv) && FieldText(conv, padchar, padding, arg).Some?
    ensures var t := FieldText(conv, padchar, padding, arg).value;
            RunField(buf, at, conv, padchar, padding, rest, [arg] + args) ==
            if at + |t| < |buf| then Run(Splice(buf, at, t + [0]), at + |t|, rest, args) else Undefined
  {
    hide Run, FieldText, Splice;
    assert ([arg] + args)[1..] == args;
  }

  lemma {:induction false} LitStep(buf: seq<Byte>, at: nat, c: Byte, more: seq<Byte>, args: seq<Arg>)
    requires c != PERCENT
    ensures Run(buf, at, [c] + more, [] + args) ==
            if at < |buf| then Run(Splice(buf, at, [c]), at + 1, more, args) else Undefined
  {
    assert ([c] + more)[1..] == more && [] + args == args;
    assert at < |buf| ==> buf[at := c] == Splice(buf, at, [c]);
  }

  /** Up to its switch, vsprintf has read the directive of a piece back, if its width allows. */
  lemma {:induction false} FieldStep(buf: seq<Byte>, at: nat, p: Piece, more: seq<Byte>, args: seq<Arg>)
    requires IsField(p)
    ensures var r := Run(buf, at, Unparse(p) + more, ArgList(p) + args);
            if |WidthText(p.width)| > 7 then r == Undefined
            else
              match ReadWidth(WidthText(p.width))
              case None => r == Panicked
              case Some(w) => r == RunField(buf, at, Conversion(p), Padchar(p), w, more, ArgList(p) + args)
  {
    hide RunField, ReadWidth, WidthText, ParseDirective, Conversion, ArgList;
    ParseUnparsed(p, more);
    assert (Unparse(p) + more)[0] == PERCENT;
    assert ([Conversion(p)] + more)[1..] == more;
  }

  /** A format whose pieces all work fills the buffer with exactly the text it asks for, closed by two 0s, and touches
      nothing else; it overruns exactly the buffers that are too small for that. */
  lemma {:induction false} WritesWhatItMeans(buf: seq<Byte>, at: nat, ps: seq<Piece>)
    requires (forall p | p in ps :: Proper(p)) && AllWork(buf, at, ps)
    ensures Run(buf, at, UnparseAll(ps), Args(ps)) ==
            if at + |MeaningAll(ps)| + 2 <= |buf| then Done(Splice(buf, at, MeaningAll(ps) + END)) else Undefined
    decreases |ps|
  {
    hide *;
    if ps == [] {
      NoPieces(buf, at);
    } else {
      var p, rest := ps[0], ps[1..];
      assert p in ps;
      FirstWorks(buf, at, ps);
      WorkingPiece(buf, at, p, UnparseAll(rest), Args(rest));
      Unfolded(ps);
      if at + |Written(p)| <= |buf| {
        WritesWhatItMeans(Splice(buf, at, Written(p)), at + |Meaning(p)|, rest);
        if at + |MeaningAll(ps)| + 2 <= |buf| {
          SpliceTwice(buf, at, Meaning(p), Written(p), MeaningAll(rest) + END);
        }
      }
    }
  }

  lemma {:induction false} FirstWorks(buf: seq<Byte>, at: nat, ps: seq<Piece>)
    ensures ps == [] ==> AllWork(buf, at, ps)
    ensures ps != [] ==> (AllWork(buf, at, ps) <==>
            Works(ps[0], Here(buf, at)) &&
            (at + |Written(ps[0])| <= |buf| ==>
              AllWork(Splice(buf, at, Written(ps[0])), at + |Meaning(ps[0])|, ps[1..])))
  {}

  lemma {:induction false} NoPieces(buf: seq<Byte>, at: nat)
    ensures Run(buf, at, UnparseAll([]), Args([])) ==
            if at + |MeaningAll([])| + 2 <= |buf| then Done(Splice(buf, at, MeaningAll([]) + END)) else Undefined
    ensures MeaningAll([]) == [] && |END| == 2
  {
    assert [] + END == END;
  }

  lemma {:induction false} Unfolded(ps: seq<Piece>)
    requires ps != []
    ensures UnparseAll(ps) == Unparse(ps[0]) + UnparseAll(ps[1..])
    ensures Args(ps) == ArgList(ps[0]) + Args(ps[1..])
    ensures MeaningAll(ps) == Meaning(ps[0]) + MeaningAll(ps[1..])
    ensures |MeaningAll(ps)| == |Meaning(ps[0])| + |MeaningAll(ps[1..])|
    ensures MeaningAll(ps) + END == Meaning(ps[0]) + (MeaningAll(ps[1..]) + END) && |END| == 2
  {}

  lemma {:induction false} SpliceTwice(buf: seq<Byte>, at: nat, text: seq<Byte>, written: seq<Byte>, more: seq<Byte>)
    requires at + |text| + |more| <= |buf| && more != []
    requires |text| <= |written| <= |text| + 1 && written[..|text|] == text
    ensures Splice(Splice(buf, at, written), at + |text|, more) == Splice(buf, at, text + more)
  {
    var once := Splice(buf, at, written);
    assert once[..at + |text|] == buf[..at] + text;
    assert once[at + |text| + |more|..] == buf[at + |text| + |more|..];
  }

  /** Whatever the format, nothing before the cursor is written again. */
  lemma {:induction false} WritesForwards(buf: seq<Byte>, at: nat, fmt: seq<Byte>, args: seq<Arg>)
    requires Run(buf, at, fmt, args).Done?
    ensures var b := Run(buf, at, fmt, args).buf; |b| == |buf| && at <= |b| && b[..at] == buf[..at]
    decreases |fmt|, 0
  {
    hide RunField, ParseDirective, ReadWidth;
    if fmt != [] {
      if fmt[0] != PERCENT {
        WritesForwards(buf[at := fmt[0]], at + 1, fmt[1..], args);
      } else {
        var d := ParseDirective(fmt[1..]);
        FieldWritesForwards(buf, at, d.rest[0], d.padchar, ReadWidth(d.width).value, d.rest[1..], args);
      }
    }
  }

  lemma {:induction false} PrefixOfPrefix(a: seq<Byte>, b: seq<Byte>, i: nat, j: nat)
    requires i <= j <= |a| == |b| && a[..j] == b[..j]
    ensures a[..i] == b[..i]
  {
    assert a[..i] == a[..j][..i];
  }

  lemma {:induction false} FieldWritesForwards(
    buf: seq<Byte>, at: nat, conv: Byte, padchar: Byte, padding: uint32, rest: seq<Byte>, args: seq<Arg>)
    requires RunField(buf, at, conv, padchar, padding, rest, args).Done?
    ensures var b := RunField(buf, at, conv, padchar, padding, rest, args).buf;
            |b| == |buf| && at <= |b| && b[..at] == buf[..at]
    decreases |rest|, 1
  {
    hide Run, FieldText;
    if conv == PERCENT {
      WritesForwards(buf[at := PERCENT], at, rest, args);
    } else if conv == CONV_C {
      WritesForwards(buf[at + 1 := args[0].bits % 256], at + 1, rest, args[1..]);
    } else if TakesArg(conv) {
      var t := FieldText(conv, padchar, padding, args[0]).value;
      var buf' := Splice(buf, at, t + [0]);
      WritesForwards(buf', at + |t|, rest, args[1..]);
      PrefixOfPrefix(buf', Run(buf', at + |t|, rest, args[1..]).buf, at, at + |t|);
      assert buf'[..at] == buf[..at];
    } else {
      WritesForwards(buf, at, rest, args);
    }
  }

  // ----- and only then

  /** vsprintf of the first k pieces leaves what they ask for. */
  predicate RightUpTo(buf: seq<Byte>, at: nat, ps: seq<Piece>, k: nat)
    requires k <= |ps| && at + |MeaningAll(ps[..k])| + 2 <= |buf|
  {
    Run(buf, at, UnparseAll(ps[..k]), Args(ps[..k])) == Done(Splice(buf, at, MeaningAll(ps[..k]) + END))
  }

  /** In a buffer large enough, a format and everything it starts with come out as asked for if and only if all pieces
      work. (The whole output alone does not tell: PercentCanGoUnnoticed.) */
  lemma {:induction false} MeetsMeaningIff(buf: seq<Byte>, at: nat, ps: seq<Piece>)
    requires (forall p | p in ps :: Proper(p)) && at + |MeaningAll(ps)| + 2 <= |buf|
    ensures forall k | 0 <= k <= |ps| :: |MeaningAll(ps[..k])| <= |MeaningAll(ps)|
    ensures (forall k | 0 <= k <= |ps| :: RightUpTo(buf, at, ps, k)) <==> AllWork(buf, at, ps)
  {
    forall k | 0 <= k <= |ps| ensures |MeaningAll(ps[..k])| <= |MeaningAll(ps)| {
      PrefixMeaning(ps, k);
    }
    if AllWork(buf, at, ps) {
      forall k | 0 <= k <= |ps| ensures RightUpTo(buf, at, ps, k) {
        PrefixWorks(buf, at, ps, k);
        WritesWhatItMeans(buf, at, ps[..k]);
      }
    } else {
      var k := FirstFailure(buf, at, ps);
      assert !RightUpTo(buf, at, ps, k);
    }
  }

  lemma {:induction false} PrefixMeaning(ps: seq<Piece>, k: nat)
    requires k <= |ps|
    ensures |MeaningAll(ps[..k])| <= |MeaningAll(ps)|
    decreases |ps|
  {
    if k > 0 {
      assert ps[..k][1..] == ps[1..][..k - 1];
      PrefixMeaning(ps[1..], k - 1);
    }
  }

  lemma {:induction false} PrefixWorks(buf: seq<Byte>, at: nat, ps: seq<Piece>, k: nat)
    requires k <= |ps| && AllWork(buf, at, ps)
    ensures AllWork(buf, at, ps[..k])
    decreases |ps|
  {
    hide *;
    FirstWorks(buf, at, ps[..k]);
    if k > 0 {
      FirstWorks(buf, at, ps);
      assert ps[..k][0] == ps[0] && ps[..k][1..] == ps[1..][..k - 1];
      if at + |Written(ps[0])| <= |buf| {
        PrefixWorks(Splice(buf, at, Written(ps[0])), at + |Meaning(ps[0])|, ps[1..], k - 1);
      }
    }
  }

  /** Behind the first piece that does not work the output is wrong. */
  lemma {:induction false} FirstFailure(buf: seq<Byte>, at: nat, ps: seq<Piece>) returns (k: nat)
    requires (forall p | p in ps :: Proper(p)) && at + |MeaningAll(ps)| + 2 <= |buf| && !AllWork(buf, at, ps)
    ensures k <= |ps| && at + |MeaningAll(ps[..k])| + 2 <= |buf| && !RightUpTo(buf, at, ps, k)
    decreases |ps|
  {
    hide *;
    FirstWorks(buf, at, ps);
    var p, rest := ps[0], ps[1..];
    assert p in ps;
    Unfolded(ps);
    if Works(p, Here(buf, at)) {
      var buf', at' := Splice(buf, at, Written(p)), at + |Meaning(p)|;
      k := FirstFailure(buf', at', rest);
      FailureMoves(buf, at, ps, k, buf', at');
      k := k + 1;
    } else {
      k := 1;
      FailsFirst(buf, at, ps);
    }
  }

  lemma {:induction false} FailsFirst(buf: seq<Byte>, at: nat, ps: seq<Piece>)
    requires ps != [] && Proper(ps[0]) && !Works(ps[0], Here(buf, at)) && at + |Meaning(ps[0])| + 2 <= |buf|
    ensures at + |MeaningAll(ps[..1])| + 2 <= |buf| && !RightUpTo(buf, at, ps, 1)
  {
    var p := ps[0];
    assert ps[..1] == [p];
    OnePiece(p);
    FailsAlone(buf, at, p);
    hide Run, Works, Proper, Meaning, UnparseAll, Args, MeaningAll;
  }

  lemma {:induction false} OnePiece(p: Piece)
    ensures UnparseAll([p]) == Unparse(p) + [] && Args([p]) == ArgList(p) + [] && MeaningAll([p]) == Meaning(p)
  {
    assert [p][1..] == [];
    assert Meaning(p) + [] == Meaning(p);
  }

  lemma {:induction false} FailureMoves(buf: seq<Byte>, at: nat, ps: seq<Piece>, k: nat, buf': seq<Byte>, at': nat)
    requires ps != [] && k < |ps| && Proper(ps[0]) && Works(ps[0], Here(buf, at)) && at + |Written(ps[0])| <= |buf|
    requires buf' == Splice(buf, at, Written(ps[0])) && at' == at + |Meaning(ps[0])|
    requires at' + |MeaningAll(ps[1..][..k])| + 2 <= |buf'| && !RightUpTo(buf', at', ps[1..], k)
    ensures at + |MeaningAll(ps[..k + 1])| + 2 <= |buf| && !RightUpTo(buf, at, ps, k + 1)
  {
    hide *;
    var p, rest, front := ps[0], ps[1..][..k], ps[..k + 1];
    assert front[0] == p && front[1..] == rest;
    Unfolded(front);
    RightUpToIs(buf', at', ps[1..], k);
    RightUpToIs(buf, at, ps, k + 1);
    WorkingPiece(buf, at, p, UnparseAll(rest), Args(rest));
    SpliceTwice(buf, at, Meaning(p), Written(p), MeaningAll(rest) + END);
  }

  lemma {:induction false} RightUpToIs(buf: seq<Byte>, at: nat, ps: seq<Piece>, k: nat)
    requires k <= |ps| && at + |MeaningAll(ps[..k])| + 2 <= |buf|
    ensures RightUpTo(buf, at, ps, k) <==>
            Run(buf, at, UnparseAll(ps[..k]), Args(ps[..k])) == Done(Splice(buf, at, MeaningAll(ps[..k]) + END))
  {}

  /** A piece that does not work is seen by itself. */
  lemma {:induction false} FailsAlone(buf: seq<Byte>, at: nat, p: Piece)
    requires Proper(p) && !Works(p, Here(buf, at)) && at + |Meaning(p)| + 2 <= |buf|
    ensures Run(buf, at, UnparseAll([p]), Args([p])) != Done(Splice(buf, at, Meaning(p) + END))
  {
    OnePiece(p);
    hide UnparseAll, Args;
    if IsField(p) {
      FieldFailsAlone(buf, at, p);
    } else if p.Percent? {
      PercentStep(buf, at, [], []);
      assert Splice(buf[at := PERCENT], at, END)[at] == 0 && Splice(buf, at, Meaning(p) + END)[at] == PERCENT;
    } else {
      CharIsRightIff(buf, at, p.value);
    }
  }

  lemma {:induction false} FieldFailsAlone(buf: seq<Byte>, at: nat, p: Piece)
    requires IsField(p) && Proper(p) && !Works(p, Here(buf, at)) && at + |Meaning(p)| + 2 <= |buf|
    ensures Run(buf, at, Unparse(p) + [], ArgList(p) + []) != Done(Splice(buf, at, Meaning(p) + END))
  {
    hide *;
    FieldIsRightIff(p, Here(buf, at));
    FieldRuns(buf, at, p, [], []);
    if Appended(p).Some? {
      var t := Appended(p).value;
      NoZeroInText(p);
      if at + |t| < |buf| {
        EndOfRun(Splice(buf, at, t + [0]), at + |t|);
      }
      if at + |t| + 2 <= |buf| {
        assert (t + [0])[..|t|] == t;
        SpliceTwice(buf, at, t, t + [0], END);
        SpliceTells(buf, at, t, Meaning(p));
      }
    }
  }

  lemma {:induction false} EndOfRun(buf: seq<Byte>, at: nat)
    ensures Run(buf, at, [], []) == if at + 2 <= |buf| then Done(Splice(buf, at, END)) else Undefined
    ensures |END| == 2 && END != []
  {}

  lemma {:induction false} NoZeroInText(p: Piece)
    requires IsField(p)
    ensures 0 !in Meaning(p) && (Appended(p).Some? ==> 0 !in Appended(p).value)
  {
    hide Render, ReadWidth, WidthText, Digits;
  }

  lemma {:induction false} SpliceTells(buf: seq<Byte>, at: nat, t: seq<Byte>, m: seq<Byte>)
    requires at + |t| + 2 <= |buf| && at + |m| + 2 <= |buf| && 0 !in t && 0 !in m && t != m
    ensures Splice(buf, at, t + END) != Splice(buf, at, m + END)
  {
    var a, b := Splice(buf, at, t + END), Splice(buf, at, m + END);
    var k := FirstDifference(t, m);
    assert a[at + k] == (t + END)[k] && b[at + k] == (m + END)[k];
  }

  /** Texts without a 0 differ before the first of them has ended. */
  lemma {:induction false} FirstDifference(t: seq<Byte>, m: seq<Byte>) returns (k: nat)
    requires 0 !in t && 0 !in m && t != m
    ensures k <= |t| && k <= |m| && (t + END)[k] != (m + END)[k]
  {
    if t == [] || m == [] || t[0] != m[0] {
      k := 0;
      assert t != [] ==> t[0] in t;
      assert m != [] ==> m[0] in m;
    } else {
      assert t == [t[0]] + t[1..] && m == [m[0]] + m[1..];
      k := FirstDifference(t[1..], m[1..]);
      assert (t + END)[k + 1] == (t[1..] + END)[k] && (m + END)[k + 1] == (m[1..] + END)[k];
      k := k + 1;
    }
  }

  // ----- the whole output

  /** A piece that does not work stops the run, or is wrong from its first character on. */
  lemma {:induction false} FailingPiece(buf: seq<Byte>, at: nat, p: Piece, more: seq<Byte>, args: seq<Arg>)
    requires Proper(p) && !p.Percent? && ShortWidth(p) && !Works(p, Here(buf, at))
    ensures Meaning(p) != []
    ensures var r := Run(buf, at, Unparse(p) + more, ArgList(p) + args);
            r.Done? ==> |r.buf| == |buf| && at < |buf| && r.buf[at] != Meaning(p)[0]
  {
    hide Run, Appended;
    if IsField(p) {
      FailingField(p, Here(buf, at));
      FailingStart(buf, at, p, more, args);
    } else {
      CharStep(buf, at, p.value, more, args);
      if at + 1 < |buf| && Run(buf[at + 1 := p.value % 256], at + 1, more, args).Done? {
        TextStays(buf[at + 1 := p.value % 256], at, 1, more, args);
      }
    }
  }

  /** The output of a conversion starts with its text. */
  lemma {:induction false} FailingStart(buf: seq<Byte>, at: nat, p: Piece, more: seq<Byte>, args: seq<Arg>)
    requires IsField(p) && (Appended(p).Some? ==> Appended(p).value != [])
    ensures var r := Run(buf, at, Unparse(p) + more, ArgList(p) + args);
            r.Done? ==> && Appended(p).Some? && |r.buf| == |buf| && at < |buf| && r.buf[at] == Appended(p).value[0]
  {
    hide Run, Appended, Unparse, ArgList;
    FieldRuns(buf, at, p, more, args);
    if Appended(p).Some? {
      var t := Appended(p).value;
      if at + |t| < |buf| && Run(Splice(buf, at, t + [0]), at + |t|, more, args).Done? {
        TextStays(Splice(buf, at, t + [0]), at, |t|, more, args);
      }
    }
  }

  /** What lies between `at` and the cursor stays. */
  lemma {:induction false} TextStays(buf: seq<Byte>, at: nat, n: nat, more: seq<Byte>, args: seq<Arg>)
    requires n > 0 && Run(buf, at + n, more, args).Done?
    ensures var b := Run(buf, at + n, more, args).buf; |b| == |buf| && at < |b| && b[at] == buf[at]
  {
    hide Run;
    WritesForwards(buf, at + n, more, args);
    var b := Run(buf, at + n, more, args).buf;
    assert b[..at + n][at] == buf[..at + n][at];
  }

  /** At most three width digits. */
  predicate ShortWidth(p: Piece) {
    IsField(p) ==> p.width < 1000
  }

  lemma {:induction false} FailingField(p: Piece, here: Byte)
    requires IsField(p) && Proper(p) && !Works(p, here) && ShortWidth(p)
    ensures Meaning(p) != []
    ensures Appended(p).Some? ==> Appended(p).value != [] && Appended(p).value[0] != Meaning(p)[0]
  {
    var (w, padchar) := (p.width, Padchar(p));
    ReadWidthOf(w);
    match p {
      case Signed(_, w, v) => SignedIsRightIff(w, v, padchar);
      case Unsigned(_, w, v) =>
        UnsignedIsRightIff(w, v, padchar);
        SignIsNoDigit(v, w, padchar);
        ScratchFitsIff(v % TWO31, 10, w, padchar, 16);
      case Hex(_, w, v) => HexIsRightIff(w, v, padchar);
      case Text(_, w, t) => TextIsRightIff(p);
    }
    hide ReadWidth, WidthText, Render, Scratch;
  }

  /** Without %% and with widths of at most three digits the whole output alone tells: it is what the format asks for if
      and only if every piece works. */
  lemma {:induction false} OutputIsRightIff(buf: seq<Byte>, at: nat, ps: seq<Piece>)
    requires (forall p | p in ps :: Proper(p) && !p.Percent? && ShortWidth(p)) && at + |MeaningAll(ps)| + 2 <= |buf|
    ensures Run(buf, at, UnparseAll(ps), Args(ps)) == Done(Splice(buf, at, MeaningAll(ps) + END)) <==>
            AllWork(buf, at, ps)
  {
    hide *;
    if AllWork(buf, at, ps) {
      WritesWhatItMeans(buf, at, ps);
    } else {
      WholeFailure(buf, at, ps);
    }
  }

  lemma {:induction false} WholeFailure(buf: seq<Byte>, at: nat, ps: seq<Piece>)
    requires (forall p | p in ps :: Proper(p) && !p.Percent? && ShortWidth(p)) && at + |MeaningAll(ps)| + 2 <= |buf|
    requires !AllWork(buf, at, ps)
    ensures Run(buf, at, UnparseAll(ps), Args(ps)) != Done(Splice(buf, at, MeaningAll(ps) + END))
    decreases |ps|
  {
    hide *;
    FirstWorks(buf, at, ps);
    var p, rest := ps[0], ps[1..];
    assert p in ps;
    Unfolded(ps);
    if Works(p, Here(buf, at)) {
      WorkingPiece(buf, at, p, UnparseAll(rest), Args(rest));
      WholeFailure(Splice(buf, at, Written(p)), at + |Meaning(p)|, rest);
      SpliceTwice(buf, at, Meaning(p), Written(p), MeaningAll(rest) + END);
    } else {
      FailingPiece(buf, at, p, UnparseAll(rest), Args(rest));
      SpliceAt(buf, at, Meaning(p), MeaningAll(rest) + END);
    }
  }

  lemma {:induction false} SpliceAt(buf: seq<Byte>, at: nat, text: seq<Byte>, more: seq<Byte>)
    requires text != [] && at + |text| + |more| <= |buf|
    ensures Splice(buf, at, text + more)[at] == text[0]
  {}
}
