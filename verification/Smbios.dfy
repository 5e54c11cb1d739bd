/** The walk over the SMBIOS structure table. A structure is a formatted area, whose second byte is its length, then
    its strings, each ended by a 0, then another 0; a structure without strings ends with two 0s
    (DMTF DSP0134, sections 6.1.2 and 6.1.3). */
module Smbios {
  import opened CString
  import opened Collections
  import opened Words
  import Paging
  import VmmRuns

  /** Memory, and the table length declared by the entry point. */
  datatype Table = Table(mem: seq<Byte>, length: nat)

  // ----- the layout

  datatype Structure = Structure(formatted: seq<Byte>, strings: seq<seq<Byte>>)

  predicate Printable(t: seq<Byte>) {
    t != [] && forall c | c in t :: 31 < c < 127
  }

  predicate WellFormed(s: Structure) {
    && 4 <= |s.formatted| && s.formatted[1] == |s.formatted|
    && forall t | t in s.strings :: Printable(t)
  }

  function Strings(ss: seq<seq<Byte>>): seq<Byte> {
    if ss == [] then [] else ss[0] + [0] + Strings(ss[1..])
  }

  function Encode(s: Structure): seq<Byte> {
    s.formatted + (if s.strings == [] then [0, 0] else Strings(s.strings) + [0])
  }

  function EncodeAll(ss: seq<Structure>): seq<Byte> {
    if ss == [] then [] else Encode(ss[0]) + EncodeAll(ss[1..])
  }

  /** Where each structure of a table at p begins. */
  function Positions(ss: seq<Structure>, p: nat): (r: seq<nat>)
    ensures |r| == |ss|
  {
    if ss == [] then [] else [p] + Positions(ss[1..], p + |Encode(ss[0])|)
  }

  // ----- the string lookup

  /** The scan for string `idx` when the cursor is `off` bytes into the strings and inside string `n`. */
  function Scan(m: Table, hdr: nat, idx: nat, n: nat, off: nat): (r: Option<nat>)
    decreases m.length - off
  {
    var len := At(m.mem, hdr + 1);
    var next := hdr + len + off + 1;
    if len + off >= m.length then None
    else if idx == n then Some(hdr + len + off)
    else if At(m.mem, next) == 0 then
      if At(m.mem, next + 1) == 0 && At(m.mem, next + 2) != 0 then None else Scan(m, hdr, idx, n + 1, off + 2)
    else if At(m.mem, next) <= 31 || At(m.mem, next) >= 127 then None
    else Scan(m, hdr, idx, n, off + 1)
  }

  /** The address of string `idx` of the structure at `hdr`. */
  function String(m: Table, hdr: nat, idx: nat): Option<nat> {
    var start := hdr + At(m.mem, hdr + 1);
    if At(m.mem, start) == 0 && At(m.mem, start + 1) == 0 then None else Scan(m, hdr, idx, 1, 0)
  }

  lemma {:induction false} ScanBounds(m: Table, hdr: nat, idx: nat, n: nat, off: nat)
    requires Scan(m, hdr, idx, n, off).Some?
    ensures var at := Scan(m, hdr, idx, n, off).value - hdr - At(m.mem, hdr + 1);
            n <= idx && off + 2 * (idx - n) <= at && At(m.mem, hdr + 1) + at < m.length && (at == off <==> n == idx)
    ensures n < idx ==> At(m.mem, Scan(m, hdr, idx, n, off).value - 1) == 0
    decreases m.length - off
  {
    if idx != n {
      var next := hdr + At(m.mem, hdr + 1) + off + 1;
      if At(m.mem, next) == 0 {
        ScanBounds(m, hdr, idx, n + 1, off + 2);
      } else {
        ScanBounds(m, hdr, idx, n, off + 1);
      }
    }
  }

  /** Whatever the bytes are: there is no string 0, string 1 is right behind the formatted area, every later one starts
      behind a 0 and at least two bytes behind the string before it, and all start inside the table length. */
  lemma {:induction false} FoundInsideTable(m: Table, hdr: nat, idx: nat)
    requires String(m, hdr, idx).Some?
    ensures var at := String(m, hdr, idx).value; var start := hdr + At(m.mem, hdr + 1);
            && idx >= 1 && start + 2 * (idx - 1) <= at < hdr + m.length
            && (idx == 1 <==> at == start) && (idx > 1 ==> At(m.mem, at - 1) == 0)
  {
    ScanBounds(m, hdr, idx, 1, 0);
  }

  /** On any bytes there is a string 1 exactly when two 0s do not follow the formatted area and it ends inside the table
      length. */
  lemma {:induction false} FirstStringIff(m: Table, hdr: nat)
    ensures var start := hdr + At(m.mem, hdr + 1);
            String(m, hdr, 1).Some? <==> !(At(m.mem, start) == 0 && At(m.mem, start + 1) == 0) && At(m.mem, hdr + 1) < m.length
  {}

  lemma {:induction false} ScanChecks(m: Table, hdr: nat, idx: nat, n: nat, off: nat, q: nat)
    requires Scan(m, hdr, idx, n, off).Some?
    requires hdr + At(m.mem, hdr + 1) + off < q <= Scan(m, hdr, idx, n, off).value
    ensures At(m.mem, q) == 0 || 31 < At(m.mem, q) < 127 || At(m.mem, q - 1) == 0
    decreases m.length - off
  {
    var next := hdr + At(m.mem, hdr + 1) + off + 1;
    if q > next + 1 || (q == next + 1 && At(m.mem, next) != 0) {
      if At(m.mem, next) == 0 {
        ScanChecks(m, hdr, idx, n + 1, off + 2, q);
      } else {
        ScanChecks(m, hdr, idx, n, off + 1, q);
      }
    }
  }

  /** No string is found behind a byte that is no character, unless it is the first one of a string: that byte is not
      looked at. */
  lemma {:induction false} UnprintableEndsLookup(m: Table, hdr: nat, idx: nat, q: nat)
    requires q > hdr + At(m.mem, hdr + 1) && At(m.mem, q - 1) != 0
    requires 0 < At(m.mem, q) < 32 || At(m.mem, q) > 126
    ensures String(m, hdr, idx).Some? ==> String(m, hdr, idx).value < q
  {
    if String(m, hdr, idx).Some? && q <= String(m, hdr, idx).value {
      ScanChecks(m, hdr, idx, 1, 0, q);
    }
  }

  // ----- the step to the next structure

  /** The bytes of the strings from number idx on, each with its 0. */
  function StringBytes(m: Table, hdr: nat, idx: nat): nat
    requires idx >= 1
    decreases m.length - 2 * (idx - 1)
  {
    var s := String(m, hdr, idx);
    if s == None then 0
    else
      FoundInsideTable(m, hdr, idx);
      Length(m.mem, s.value) + 1 + StringBytes(m, hdr, idx + 1)
  }

  function Step(m: Table, hdr: nat): nat {
    var bytes := StringBytes(m, hdr, 1);
    At(m.mem, hdr + 1) + (if bytes > 0 then bytes + 1 else 2)
  }

  /** The structure headers visited by `count` rounds. */
  function Visited(m: Table, p: nat, count: nat): (r: seq<nat>)
    ensures |r| == count
    decreases count
  {
    if count == 0 then [] else [p] + Visited(m, p + Step(m, p), count - 1)
  }

  // ----- the lookup inverts the layout

  /** From any byte of a printable string the scan reaches its 0. */
  lemma {:induction false} ScanString(m: Table, hdr: nat, idx: nat, n: nat, off: nat, t: seq<Byte>, k: nat)
    requires Printable(t) && k < |t| && idx != n
    requires Placed(m.mem, hdr + At(m.mem, hdr + 1) + off, t + [0])
    requires At(m.mem, hdr + 1) + off + |t| <= m.length
    ensures var after := hdr + At(m.mem, hdr + 1) + off + |t| + 1;
            Scan(m, hdr, idx, n, off + k) ==
            if At(m.mem, after) == 0 && At(m.mem, after + 1) != 0 then None
            else Scan(m, hdr, idx, n + 1, off + |t| + 1)
    decreases |t| - k
  {
    var next := hdr + At(m.mem, hdr + 1) + off + k + 1;
    assert At(m.mem, next) == (t + [0])[k + 1];
    if k + 1 < |t| {
      assert t[k + 1] in t;
      ScanString(m, hdr, idx, n, off, t, k + 1);
    }
  }

  /** Past a set of strings: what lies behind its closing 0 decides whether the scan stops. */
  lemma {:induction false} ScanStrings(m: Table, hdr: nat, idx: nat, n: nat, off: nat, ss: seq<seq<Byte>>)
    requires ss != [] && (forall t | t in ss :: Printable(t)) && n <= idx
    requires Placed(m.mem, hdr + At(m.mem, hdr + 1) + off, Strings(ss) + [0])
    requires At(m.mem, hdr + 1) + off + |Strings(ss)| < m.length
    ensures var start := hdr + At(m.mem, hdr + 1); var end := off + |Strings(ss)|;
            Scan(m, hdr, idx, n, off) ==
            if idx - n < |ss| then Some(start + off + |Strings(ss[..idx - n])|)
            else if At(m.mem, start + end + 1) != 0 then None
            else Scan(m, hdr, idx, n + |ss|, end)
    decreases |ss|
  {
    hide Scan, Placed, Printable, Strings;
    var start, t, rest := hdr + At(m.mem, hdr + 1), ss[0], ss[1..];
    assert Printable(t);
    FirstOfSet(m.mem, start + off, ss);
    if idx > n {
      ScanString(m, hdr, idx, n, off, t, 0);
      if rest != [] {
        ScanStrings(m, hdr, idx, n + 1, off + |t| + 1, rest);
        if idx - n < |ss| {
          PrefixOfSet(ss, idx - n);
        }
      }
    } else {
      ScanHere(m, hdr, idx, off);
      PrefixOfSet(ss, 0);
    }
  }

  lemma {:induction false} FirstOfSet(mem: seq<Byte>, p: nat, ss: seq<seq<Byte>>)
    requires ss != [] && (forall t | t in ss :: Printable(t)) && Placed(mem, p, Strings(ss) + [0])
    ensures var next := p + |ss[0]| + 1;
            && Placed(mem, p, ss[0] + [0]) && Placed(mem, next, Strings(ss[1..]) + [0])
            && |Strings(ss)| == |ss[0]| + 1 + |Strings(ss[1..])|
            && (At(mem, next) == 0 <==> ss[1..] == []) && (ss[1..] == [] ==> |Strings(ss[1..])| == 0)
            && |ss[0]| > 0
  {
    var t, rest := ss[0], ss[1..];
    assert Printable(t);
    assert Strings(ss) + [0] == (t + [0]) + (Strings(rest) + [0]);
    PlacedParts(mem, p, t + [0], Strings(rest) + [0]);
    assert At(mem, p + |t| + 1) == (Strings(rest) + [0])[0];
    if rest != [] {
      assert rest[0] in ss;
      assert (Strings(rest) + [0])[0] == rest[0][0] && rest[0][0] in rest[0];
    }
  }

  lemma {:induction false} PrefixOfSet(ss: seq<seq<Byte>>, k: nat)
    requires k <= |ss|
    ensures |Strings(ss[..k])| == if k == 0 then 0 else |ss[0]| + 1 + |Strings(ss[1..][..k - 1])|
  {
    assert k > 0 ==> ss[..k][1..] == ss[1..][..k - 1];
  }

  /** The scan is inside the string it looks for. */
  lemma {:induction false} ScanHere(m: Table, hdr: nat, idx: nat, off: nat)
    requires At(m.mem, hdr + 1) + off < m.length
    ensures Scan(m, hdr, idx, idx, off) == Some(hdr + At(m.mem, hdr + 1) + off)
  {}

  /** A structure laid out at hdr, inside the declared length. */
  predicate Laid(m: Table, hdr: nat, s: Structure) {
    WellFormed(s) && Placed(m.mem, hdr, Encode(s)) && |Encode(s)| <= m.length
  }

  /** The scan can tell where the strings of s end. */
  predicate EndVisible(m: Table, hdr: nat, s: Structure) {
    s.strings == [] || At(m.mem, hdr + |Encode(s)|) != 0
  }

  lemma {:induction false} LaidParts(m: Table, hdr: nat, s: Structure)
    requires Laid(m, hdr, s)
    ensures At(m.mem, hdr + 1) == |s.formatted|
    ensures var start := hdr + |s.formatted|;
            if s.strings == [] then At(m.mem, start) == 0 && At(m.mem, start + 1) == 0
            else At(m.mem, start) != 0 && Placed(m.mem, start, Strings(s.strings) + [0])
  {
    var tail := if s.strings == [] then [0, 0] else Strings(s.strings) + [0];
    PlacedParts(m.mem, hdr, s.formatted, tail);
    var start := hdr + |s.formatted|;
    assert At(m.mem, hdr + 1) == s.formatted[1];
    assert At(m.mem, start) == tail[0];
    if s.strings == [] {
      assert At(m.mem, start + 1) == tail[1];
    } else {
      var t := s.strings[0];
      assert Printable(t);
      assert t[0] in t && tail[0] == t[0];
    }
  }

  lemma {:induction false} StringAt(m: Table, hdr: nat, s: Structure, j: nat)
    requires Laid(m, hdr, s) && 1 <= j
    ensures j <= |s.strings| ==> String(m, hdr, j) == Some(hdr + |s.formatted| + |Strings(s.strings[..j - 1])|)
    ensures j > |s.strings| && EndVisible(m, hdr, s) ==> String(m, hdr, j) == None
    ensures j == |s.strings| + 1 && !EndVisible(m, hdr, s) ==>
              String(m, hdr, j) == Some(hdr + |Encode(s)| - 1)
  {
    LaidParts(m, hdr, s);
    if s.strings != [] {
      ScanStrings(m, hdr, j, 1, 0, s.strings);
    }
  }

  lemma {:induction false} StringsSplit(ss: seq<seq<Byte>>, k: nat)
    requires k < |ss|
    ensures Strings(ss) == Strings(ss[..k]) + (ss[k] + [0]) + Strings(ss[k + 1..])
  {
    if k > 0 {
      StringsSplit(ss[1..], k - 1);
      assert ss[..k][1..] == ss[1..][..k - 1];
      assert ss[1..][k..] == ss[k + 1..];
    }
  }

  lemma {:induction false} LaidStrings(m: Table, hdr: nat, s: Structure, k: nat)
    requires Laid(m, hdr, s) && k < |s.strings|
    ensures Printable(s.strings[k]) && 0 !in s.strings[k]
  {
    assert s.strings[k] in s.strings;
  }

  lemma {:induction false} TextAt(m: Table, hdr: nat, s: Structure, j: nat)
    requires Laid(m, hdr, s) && 1 <= j <= |s.strings|
    ensures Text(m.mem, hdr + |s.formatted| + |Strings(s.strings[..j - 1])|) == s.strings[j - 1]
    ensures Length(m.mem, hdr + |s.formatted| + |Strings(s.strings[..j - 1])|) == |s.strings[j - 1]|
  {
    hide Laid, Strings, Placed;
    LaidParts(m, hdr, s);
    LaidStrings(m, hdr, s, j - 1);
    var start := hdr + |s.formatted|;
    StringPlaced(m.mem, start, s.strings, j - 1);
    PlacedText(m.mem, start + |Strings(s.strings[..j - 1])|, s.strings[j - 1]);
  }

  lemma {:induction false} StringPlaced(mem: seq<Byte>, p: nat, ss: seq<seq<Byte>>, k: nat)
    requires k < |ss| && Placed(mem, p, Strings(ss) + [0])
    ensures Placed(mem, p + |Strings(ss[..k])|, ss[k] + [0])
  {
    var a, b, c := Strings(ss[..k]), ss[k] + [0], Strings(ss[k + 1..]) + [0];
    StringsSplit(ss, k);
    assert Strings(ss) + [0] == a + (b + c);
    hide Placed, Strings;
    PlacedParts(mem, p, a, b + c);
    PlacedParts(mem, p + |a|, b, c);
  }

  /** GetSMBiosString inverts the layout: string j of a structure is found for every j from 1 to the number of strings,
      and there is no string 0. */
  lemma {:induction false} FindsEveryString(m: Table, hdr: nat, s: Structure, j: nat)
    requires Laid(m, hdr, s) && j <= |s.strings|
    ensures if j == 0 then String(m, hdr, j) == None
            else String(m, hdr, j).Some? && Text(m.mem, String(m, hdr, j).value) == s.strings[j - 1]
  {
    if j == 0 {
      if String(m, hdr, 0).Some? {
        FoundInsideTable(m, hdr, 0);
      }
    } else {
      StringAt(m, hdr, s, j);
      TextAt(m, hdr, s, j);
    }
  }

  /** Exactly when the byte behind a string set is 0 -- a type 0 structure follows -- a string too many is found. */
  lemma {:induction false} NoFurtherStringIff(m: Table, hdr: nat, s: Structure)
    requires Laid(m, hdr, s)
    ensures (forall j | j > |s.strings| :: String(m, hdr, j) == None) <==> EndVisible(m, hdr, s)
  {
    if EndVisible(m, hdr, s) {
      forall j | j > |s.strings| ensures String(m, hdr, j) == None {
        StringAt(m, hdr, s, j);
      }
    } else {
      StringAt(m, hdr, s, |s.strings| + 1);
      assert String(m, hdr, |s.strings| + 1) != None;
    }
  }

  lemma {:induction false} BytesFrom(m: Table, hdr: nat, s: Structure, j: nat)
    requires Laid(m, hdr, s) && 1 <= j <= |s.strings| + 1
    ensures var rest := |Strings(s.strings[j - 1..])|;
            if EndVisible(m, hdr, s) then StringBytes(m, hdr, j) == rest else StringBytes(m, hdr, j) > rest
    decreases |s.strings| - j
  {
    hide Laid, String, EndVisible, Length, Text;
    StringAt(m, hdr, s, j);
    if j <= |s.strings| {
      TextAt(m, hdr, s, j);
      BytesFrom(m, hdr, s, j + 1);
      assert s.strings[j - 1..][1..] == s.strings[j..];
    }
  }

  /** The walk steps from a structure to the first byte behind it, unless it has strings and that byte is 0: then it
      steps too far. */
  lemma {:induction false} StepIsExactIff(m: Table, hdr: nat, s: Structure)
    requires Laid(m, hdr, s)
    ensures Step(m, hdr) == |Encode(s)| <==> EndVisible(m, hdr, s)
    ensures Step(m, hdr) >= |Encode(s)|
  {
    LaidParts(m, hdr, s);
    BytesFrom(m, hdr, s, 1);
    assert s.strings[0..] == s.strings;
    if s.strings != [] {
      assert |Strings(s.strings)| >= 1;
    }
  }

  /** Only the first structure, or one behind a structure without strings, has type 0. */
  predicate TypesVisible(ss: seq<Structure>) {
    forall i | 0 < i < |ss| && ss[i - 1].strings != [] :: |ss[i].formatted| > 0 && ss[i].formatted[0] != 0
  }

  /** A whole table of structures at p, no longer than declared. */
  predicate TableAt(m: Table, p: nat, ss: seq<Structure>) {
    (forall s | s in ss :: WellFormed(s)) && Placed(m.mem, p, EncodeAll(ss)) && |EncodeAll(ss)| <= m.length
  }

  /** Over a whole table, round i of the walk stands on structure i for every i, exactly when no structure behind one
      with strings has type 0. */
  lemma {:induction false} WalkIsExactIff(m: Table, p: nat, ss: seq<Structure>)
    requires TableAt(m, p, ss)
    ensures Visited(m, p, |ss|) == Positions(ss, p) <==> TypesVisible(ss)
    decreases |ss|
  {
    if |ss| > 1 {
      StepInTable(m, p, ss);
      WalkIsExactIff(m, p + |Encode(ss[0])|, ss[1..]);
      WalkSplit(m, p, ss);
      TypesSplit(ss);
    } else if |ss| == 1 {
      assert Visited(m, p, 1) == [p] == Positions(ss, p);
    }
  }

  lemma {:induction false} StepInTable(m: Table, p: nat, ss: seq<Structure>)
    requires TableAt(m, p, ss) && |ss| > 1
    ensures TableAt(m, p + |Encode(ss[0])|, ss[1..]) && |ss[1].formatted| > 0
    ensures Step(m, p) == |Encode(ss[0])| <==> ss[0].strings == [] || ss[1].formatted[0] != 0
  {
    hide Placed, Encode, Step, EncodeAll;
    var s, rest := ss[0], ss[1..];
    assert s in ss && rest[0] in ss && WellFormed(rest[0]);
    FirstInTable(m, p, ss);
    StepIsExactIff(m, p, s);
    FirstByte(m, p + |Encode(s)|, rest);
  }

  lemma {:induction false} WalkSplit(m: Table, p: nat, ss: seq<Structure>)
    requires |ss| > 1
    ensures var q := p + |Encode(ss[0])|;
            if p + Step(m, p) == q
            then Visited(m, p, |ss|) == Positions(ss, p) <==> Visited(m, q, |ss| - 1) == Positions(ss[1..], q)
            else Visited(m, p, |ss|) != Positions(ss, p)
  {
    var q := p + |Encode(ss[0])|;
    var walk, at := Visited(m, p, |ss|), Positions(ss, p);
    assert walk == [p] + Visited(m, p + Step(m, p), |ss| - 1);
    assert walk[1..] == Visited(m, p + Step(m, p), |ss| - 1) && at[1..] == Positions(ss[1..], q);
    assert at == [p] + at[1..];
    assert walk[1] == p + Step(m, p) && at[1] == q;
  }

  lemma {:induction false} FirstByte(m: Table, p: nat, ss: seq<Structure>)
    requires ss != [] && |ss[0].formatted| > 0 && Placed(m.mem, p, EncodeAll(ss))
    ensures At(m.mem, p) == ss[0].formatted[0]
  {
    assert EncodeAll(ss)[0] == Encode(ss[0])[0];
  }

  lemma {:induction false} TypesSplit(ss: seq<Structure>)
    requires |ss| > 1 && |ss[1].formatted| > 0
    ensures TypesVisible(ss) <==> TypesVisible(ss[1..]) && (ss[0].strings == [] || ss[1].formatted[0] != 0)
  {
    var rest := ss[1..];
    if TypesVisible(ss) {
      forall i | 0 < i < |rest| && rest[i - 1].strings != []
        ensures |rest[i].formatted| > 0 && rest[i].formatted[0] != 0
      {
        assert ss[i + 1 - 1] == rest[i - 1] && ss[i + 1] == rest[i];
      }
    }
    if TypesVisible(rest) && (ss[0].strings == [] || ss[1].formatted[0] != 0) {
      forall i | 0 < i < |ss| && ss[i - 1].strings != []
        ensures |ss[i].formatted| > 0 && ss[i].formatted[0] != 0
      {
        if i > 1 {
          assert rest[i - 1 - 1] == ss[i - 1] && rest[i - 1] == ss[i];
        }
      }
    }
  }

  /** In a table every structure is laid out at its position. */
  lemma {:induction false} LaidInTable(m: Table, p: nat, ss: seq<Structure>, i: nat)
    requires TableAt(m, p, ss) && i < |ss|
    ensures Laid(m, Positions(ss, p)[i], ss[i])
    decreases i
  {
    FirstInTable(m, p, ss);
    if i > 0 {
      hide TableAt, Laid, Encode;
      LaidInTable(m, p + |Encode(ss[0])|, ss[1..], i - 1);
    }
  }

  lemma {:induction false} FirstInTable(m: Table, p: nat, ss: seq<Structure>)
    requires TableAt(m, p, ss) && ss != []
    ensures Laid(m, p, ss[0]) && TableAt(m, p + |Encode(ss[0])|, ss[1..])
  {
    var s, rest := ss[0], ss[1..];
    assert s in ss;
    assert EncodeAll(ss) == Encode(s) + EncodeAll(rest);
    PlacedParts(m.mem, p, Encode(s), EncodeAll(rest));
  }

  /** The walk and the lookup over a whole table without hidden types: round i stands on structure i, and string j there
      is its j-th string. */
  lemma {:induction false} WalkFindsEveryString(m: Table, p: nat, ss: seq<Structure>, i: nat, j: nat)
    requires TableAt(m, p, ss) && TypesVisible(ss) && i < |ss| && 1 <= j <= |ss[i].strings|
    ensures var hdr := Visited(m, p, |ss|)[i];
            && Placed(m.mem, hdr, Encode(ss[i]))
            && String(m, hdr, j).Some? && Text(m.mem, String(m, hdr, j).value) == ss[i].strings[j - 1]
  {
    hide TableAt, TypesVisible, Positions, Visited, String, Text;
    WalkIsExactIff(m, p, ss);
    LaidInTable(m, p, ss, i);
    FindsEveryString(m, Positions(ss, p)[i], ss[i], j);
  }

  /** And nothing else is found: there is no string 0, and no string past the last of a structure that has another one
      behind it; past the last string of the whole table nothing is found exactly when the byte behind the table tells. */
  lemma {:induction false} WalkFindsNothingElse(m: Table, p: nat, ss: seq<Structure>, i: nat)
    requires TableAt(m, p, ss) && TypesVisible(ss) && i < |ss|
    ensures var (hdr, s) := (Visited(m, p, |ss|)[i], ss[i]);
            && String(m, hdr, 0) == None
            && ((forall j | j > |s.strings| :: String(m, hdr, j) == None) <==> i + 1 < |ss| || EndVisible(m, hdr, s))
  {
    hide TableAt, TypesVisible, Positions, Visited, String, Laid, EndVisible;
    WalkIsExactIff(m, p, ss);
    LaidInTable(m, p, ss, i);
    var hdr := Positions(ss, p)[i];
    FindsEveryString(m, hdr, ss[i], 0);
    NoFurtherStringIff(m, hdr, ss[i]);
    if i + 1 < |ss| {
      EndVisibleInside(m, p, ss, i);
    }
  }

  lemma {:induction false} EndVisibleInside(m: Table, p: nat, ss: seq<Structure>, i: nat)
    requires TableAt(m, p, ss) && TypesVisible(ss) && i + 1 < |ss|
    ensures EndVisible(m, Positions(ss, p)[i], ss[i])
    decreases i
  {
    hide TableAt, Encode, TypesVisible;
    FirstInTable(m, p, ss);
    StepInTable(m, p, ss);
    TypesSplit(ss);
    if i > 0 {
      EndVisibleInside(m, p + |Encode(ss[0])|, ss[1..], i - 1);
    } else {
      StepIsExactIff(m, p, ss[0]);
    }
  }

  const BOARD := Structure([1, 4, 0, 0], [[65]])
  const BIOS := Structure([0, 4, 0, 0], [])

  lemma {:induction false} ExampleBytes()
    ensures WellFormed(BOARD) && WellFormed(BIOS)
    ensures Encode(BOARD) == [1, 4, 0, 0, 65, 0, 0] && Encode(BIOS) == [0, 4, 0, 0, 0, 0]
  {
    assert [[65]][1..] == [];
    assert Strings([[65]]) == [65] + [0] + Strings([]);
  }

  /** A structure with one string in front of a structure of type 0, which the walk never stands on. */
  lemma {:induction false} TypeZeroIsSkipped(m: Table)
    requires m == Table(Encode(BOARD) + Encode(BIOS), 13)
    ensures TableAt(m, 0, [BOARD, BIOS]) && Visited(m, 0, 2)[1] > Positions([BOARD, BIOS], 0)[1]
  {
    hide Encode, WellFormed, Step, EndVisible, Strings;
    ExampleBytes();
    var ss := [BOARD, BIOS];
    ExampleTable(m, ss);
    StepInTable(m, 0, ss);
    FirstInTable(m, 0, ss);
    StepIsExactIff(m, 0, BOARD);
    assert Visited(m, 0, 2) == [0] + Visited(m, 0 + Step(m, 0), 1);
  }

  lemma {:induction false} ExampleTable(m: Table, ss: seq<Structure>)
    requires m == Table(Encode(BOARD) + Encode(BIOS), 13) && ss == [BOARD, BIOS]
    ensures TableAt(m, 0, ss) && Positions(ss, 0)[1] == |Encode(BOARD)|
  {
    hide Encode, WellFormed;
    ExampleBytes();
    assert ss[1..] == [BIOS] && [BIOS][1..] == [];
    assert EncodeAll(ss) == Encode(BOARD) + (Encode(BIOS) + EncodeAll([])) == m.mem;
  }

  /** The number of pages the table is mapped with. */
  function PageCount(length: nat): nat {
    length / PAGE + 2
  }

  lemma {:induction false} PageCountCovers(length: nat, offset: nat, k: nat)
    requires offset < PAGE && k < length
    ensures k + offset < PAGE * PageCount(length)
  {}

  /** The page of `phys` and the n - 1 behind it have been mapped readable and writable; `virt` is where `phys` is read. */
  ghost predicate MappedAt(
    v: VmmRuns.Vm, v': VmmRuns.Vm, c: nat, live: seq<VmmRuns.Handle>, phys: uint32, n: uint32, z: nat, virt: uint32)
  {
    && VmmRuns.Inv(v, c, live) && VmmRuns.AddressGuard(v, c, live, phys, n, z)
    && VmmRuns.MapPhysicalAddress(v, c, phys, n, 3, z) == VmmRuns.Mapped(v', virt, phys)
  }

  /** Wherever the table starts in a page, all of it can be read at the address it was mapped to. */
  lemma {:induction false} WholeTableIsMapped(
    v: VmmRuns.Vm, v': VmmRuns.Vm, c: nat, live: seq<VmmRuns.Handle>, phys: uint32, n: uint32, z: nat, virt: uint32,
    length: nat, k: nat)
    requires MappedAt(v, v', c, live, phys, n, z, virt) && n == PageCount(length) && k < length
    ensures virt + k < Paging.TABLE_WINDOW && phys + k < TWO32 && PAGE * n <= length + 2 * PAGE
    ensures Paging.Translate(v'.sys.mem, c, virt + k) == Paging.Phys(phys + k)
  {
    PageCountCovers(length, phys % PAGE, k);
    hide PageCount;
    VmmRuns.UnalignedAddressTranslates(v, v', c, live, phys, n, 3, z, virt, k);
  }

  // ----- the code

  /** The address of string `idx` of the structure at `hdr`; None is the null pointer. */
  method GetSMBiosString(m: Table, hdr: nat, idx: nat) returns (r: Option<nat>)
    ensures r == String(m, hdr, idx)
  {
    var len := At(m.mem, hdr + 1);
    var start := hdr + len;
    if At(m.mem, start) == 0 && At(m.mem, start + 1) == 0 {
      return None;
    }
    var str_idx, str_off := 1, 0;
    while len + str_off < m.length
      invariant Scan(m, hdr, idx, str_idx, str_off) == String(m, hdr, idx)
      decreases m.length - str_off
    {
      if idx == str_idx {
        return Some(start + str_off);
      }
      str_off := str_off + 1;
      var ch := start + str_off;
      if At(m.mem, ch) == 0 {
        if At(m.mem, ch + 1) == 0 && At(m.mem, ch + 2) != 0 {
          break;
        }
        str_idx := str_idx + 1;
        str_off := str_off + 1;
      } else if At(m.mem, ch) <= 31 || At(m.mem, ch) >= 127 {
        return None;
      }
    }
    return None;
  }

  lemma {:induction false} VisitedNext(m: Table, before: seq<nat>, p: nat, count: nat)
    requires count > 0
    ensures before + Visited(m, p, count) == (before + [p]) + Visited(m, p + Step(m, p), count - 1)
  {}

  /** The walk: the headers of the structures it looks at, in order. On any bytes it stops: FoundInsideTable bounds
      the string lookups of a round. */
  method Walk(m: Table, table: nat, count: nat) returns (visited: seq<nat>)
    ensures visited == Visited(m, table, count)
  {
    hide String, Length, Visited;
    assert [] + Visited(m, table, count) == Visited(m, table, count);
    var p: nat := table;
    visited := [];
    for i := 0 to count
      invariant visited + Visited(m, p, count - i) == Visited(m, table, count)
    {
      ghost var next := p + Step(m, p);
      VisitedNext(m, visited, p, count - i);
      visited := visited + [p];
      var max_idx: nat, strlength: nat := 1, 0;
      var str := GetSMBiosString(m, p, max_idx);
      while str != None
        invariant max_idx >= 1 && str == String(m, p, max_idx)
        invariant strlength + StringBytes(m, p, max_idx) == StringBytes(m, p, 1)
        decreases m.length - 2 * (max_idx - 1)
      {
        FoundInsideTable(m, p, max_idx);
        var n := Strlen(m.mem, str.value);
        strlength := strlength + n + 1;
        max_idx := max_idx + 1;
        str := GetSMBiosString(m, p, max_idx);
      }
      if strlength > 0 {
        strlength := strlength + 1;
      } else {
        strlength := strlength + 2;
      }
      p := p + At(m.mem, p + 1) + strlength;
      assert p == next;
    }
  }
}
