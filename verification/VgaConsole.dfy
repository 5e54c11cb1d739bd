/** The text console: a fixed buffer of 25 rows of 80 cells that shows the end of an unbounded screen. */
module VgaConsole {

  newtype uint16 = x: int | 0 <= x < 0x1_0000

  const WIDTH: nat := 80
  const HEIGHT: nat := 25
  /** WIDTH * HEIGHT */
  const CELLS: nat := 2000
  /** A black space in light grey. */
  const BLANK: uint16 := 0x0720
  const NEWLINE: bv8 := 10
  const TAB: bv8 := 9

  /** One call of WriteChar. */
  datatype Event = Put(c: bv8, fg: bv8, bg: bv8)

  function Color(fg: bv8, bg: bv8): bv8 {
    fg | (bg << 4)
  }

  /** The cell of a character under its attribute byte; `char` is signed, so a character from 0x80 on sets the whole
      attribute byte. */
  function CellOf(e: Event): uint16 {
    if e.c < 0x80 then 0x100 * Color(e.fg, e.bg) as uint16 + e.c as uint16 else 0xff00 + e.c as uint16
  }

  /** The low byte of a cell is the character. A 7-bit character in 4-bit colours has background, foreground and code in
      their own digits of the cell; from 0x80 on every bit of the attribute is set. */
  lemma {:induction false} CellParts(e: Event)
    ensures CellOf(e) % 0x100 == e.c as uint16
    ensures e.c < 0x80 && e.fg < 0x10 && e.bg < 0x10 ==>
              CellOf(e) as int == 0x1000 * e.bg as int + 0x100 * e.fg as int + e.c as int
    ensures e.c >= 0x80 ==> CellOf(e) / 0x100 == 0xff
  {
    hide Color;
    if e.fg < 0x10 && e.bg < 0x10 {
      Attribute(e.fg, e.bg);
    }
  }

  /** Colours of more than four bits run into each other: the upper bits of the foreground are or-ed into the background. */
  lemma {:induction false} WideColors(e: Event)
    requires e.c < 0x80
    ensures CellOf(e) / 0x100 == Color(e.fg, e.bg) as uint16
    ensures Color(e.fg, e.bg) & 0x0f == e.fg & 0x0f && Color(e.fg, e.bg) >> 4 == (e.fg >> 4) | (e.bg & 0x0f)
  {
    UpperBits(e.fg, e.bg);
    hide Color;
  }

  lemma {:induction false} UpperBits(fg: bv8, bg: bv8)
    ensures Color(fg, bg) & 0x0f == fg & 0x0f && Color(fg, bg) >> 4 == (fg >> 4) | (bg & 0x0f)
  {}

  /** A blank cell is a space in light grey, colour 7, on black. */
  lemma {:induction false} BlankCell()
    ensures CellOf(Put(0x20, 7, 0)) == BLANK
  {
    CellParts(Put(0x20, 7, 0));
  }

  lemma {:induction false} Attribute(fg: bv8, bg: bv8)
    requires fg < 0x10 && bg < 0x10
    ensures Color(fg, bg) as int == 0x10 * bg as int + fg as int
  {
    assert Color(fg, bg) == fg + 16 * bg;
    assert (fg + 16 * bg) as int == fg as int + (16 * bg) as int;
    assert (16 * bg) as int == 16 * (bg as int);
  }

  // ----- the unbounded screen

  datatype Position = At(col: nat, row: nat)

  function NextRow(p: Position): Position {
    At(0, p.row + 1)
  }

  /** Where the cursor goes; a row is full after 80 cells and tabs stop every four. */
  function Advance(p: Position, c: bv8): (q: Position)
    requires p.col < WIDTH
    ensures q.col < WIDTH && p.row <= q.row <= p.row + 1 && (q.row == p.row ==> p.col < q.col)
  {
    var col := if c == TAB then (p.col + 4) / 4 * 4 else p.col + 1;
    if c == NEWLINE || col >= WIDTH then NextRow(p) else At(col, p.row)
  }

  function Cursor(h: seq<Event>): (p: Position)
    ensures p.col < WIDTH
  {
    if h == [] then At(0, 0) else Advance(Cursor(h[..|h| - 1]), h[|h| - 1].c)
  }

  /** Where a tab and a newline take the cursor: to the next column that is a multiple of four, or to the next row if the
      rest of the row has no room for it; and to the start of the next row. Neither changes a cell. */
  lemma {:induction false} TabStops(h: seq<Event>, e: Event)
    ensures var (p, q) := (Cursor(h), Cursor(h + [e]));
            && (e.c == 9 && p.col < 76 ==> q.row == p.row && q.col % 4 == 0 && p.col < q.col <= p.col + 4)
            && (e.c == 9 && p.col >= 76 ==> q == At(0, p.row + 1))
            && (e.c == 10 ==> q == At(0, p.row + 1))
    ensures e.c == 9 || e.c == 10 ==> forall at :: Screen(h + [e], at) == Screen(h, at)
  {
    assert (h + [e])[..|h|] == h;
  }

  predicate Prints(c: bv8) {
    c != NEWLINE && c != TAB
  }

  /** The cell at a place of the unbounded screen: the character printed while the cursor was there. */
  function Screen(h: seq<Event>, p: Position): uint16 {
    if h == [] then BLANK
    else
      var before := h[..|h| - 1];
      var e := h[|h| - 1];
      if Prints(e.c) && Cursor(before) == p then CellOf(e) else Screen(before, p)
  }

  /** At or behind the cursor. */
  predicate Ahead(p: Position, cursor: Position) {
    p.row > cursor.row || (p.row == cursor.row && p.col >= cursor.col)
  }

  /** The cursor never comes back: everything at and behind it is blank. */
  lemma {:induction false} BlankAhead(h: seq<Event>, p: Position)
    requires Ahead(p, Cursor(h))
    ensures Screen(h, p) == BLANK
  {
    if h != [] {
      BlankAhead(h[..|h| - 1], p);
    }
  }

  /** Printed once, a cell of the unbounded screen never changes again. */
  lemma {:induction false} PrintedStays(h: seq<Event>, more: seq<Event>, p: Position)
    requires !Ahead(p, Cursor(h))
    ensures Screen(h + more, p) == Screen(h, p) && !Ahead(p, Cursor(h + more))
    decreases |more|
  {
    if more == [] {
      assert h + more == h;
    } else {
      var shorter := more[..|more| - 1];
      PrintedStays(h, shorter, p);
      assert (h + more)[..|h + more| - 1] == h + shorter;
    }
  }

  /** Every printed character is still on the screen, where the cursor was when it came. */
  lemma {:induction false} NothingIsOverwritten(h: seq<Event>, k: nat)
    requires k < |h| && Prints(h[k].c)
    ensures Screen(h, Cursor(h[..k])) == CellOf(h[k])
  {
    var sofar := h[..k + 1];
    assert sofar[..|sofar| - 1] == h[..k];
    PrintedStays(sofar, h[k + 1..], Cursor(h[..k]));
    assert sofar + h[k + 1..] == h;
  }

  /** Text with neither newlines nor tabs fills the screen row by row without a gap. */
  lemma {:induction false} PlainTextFillsRows(h: seq<Event>, k: nat)
    requires k <= |h| && forall i | 0 <= i < |h| :: Prints(h[i].c)
    ensures Cursor(h[..k]) == At(k % 80, k / 80)
    ensures k < |h| ==> Screen(h, At(k % 80, k / 80)) == CellOf(h[k])
  {
    if k > 0 {
      PlainTextFillsRows(h, k - 1);
      assert h[..k][..k - 1] == h[..k - 1];
    }
    if k < |h| {
      NothingIsOverwritten(h, k);
    }
  }

  /** The row of the unbounded screen in the top row of the buffer. */
  function Top(row: nat): nat {
    if row < HEIGHT then 0 else row - (HEIGHT - 1)
  }

  /** The place of cell i of the buffer when its top row is row `top` of the screen. */
  function Place(i: nat, top: nat): Position {
    At(i % WIDTH, top + i / WIDTH)
  }

  /** The buffer is the 25 rows of the screen from row `top` on. */
  ghost predicate Window(fb: seq<uint16>, top: nat, h: seq<Event>) {
    |fb| == CELLS && forall i | 0 <= i < CELLS :: fb[i] == Screen(h, Place(i, top))
  }

  /** The buffer and the cursor show the last 25 rows of the screen. */
  ghost predicate Shows(fb: seq<uint16>, x: nat, y: nat, h: seq<Event>) {
    && x < WIDTH && y < HEIGHT
    && x == Cursor(h).col && Top(Cursor(h).row) + y == Cursor(h).row
    && Window(fb, Top(Cursor(h).row), h)
  }

  /** What is seen: the cell in column x and row y of the buffer is that of the unbounded screen, 24 rows above the
      cursor's at the top once there are as many. */
  lemma {:induction false} LastRowsAreSeen(fb: seq<uint16>, cx: nat, cy: nat, h: seq<Event>, x: nat, y: nat)
    requires Shows(fb, cx, cy, h) && x < 80 && y < 25
    ensures 80 * y + x < |fb|
    ensures var row := Cursor(h).row;
            fb[80 * y + x] == Screen(h, At(x, if row < 25 then y else row - 24 + y))
  {
    CellIndex(x, y);
    assert fb[80 * y + x] == Screen(h, Place(80 * y + x, Top(Cursor(h).row)));
  }

  /** The buffer after one row has been scrolled off. */
  function Scrolled(fb: seq<uint16>): (r: seq<uint16>)
    requires |fb| == CELLS
    ensures |r| == CELLS
  {
    fb[WIDTH..] + seq(WIDTH, _ => BLANK)
  }

  lemma {:induction false} CellIndex(x: nat, y: nat)
    requires x < WIDTH && y < HEIGHT
    ensures WIDTH * y + x < CELLS && (WIDTH * y + x) % WIDTH == x && (WIDTH * y + x) / WIDTH == y
  {}

  lemma {:induction false} PlaceIndex(i: nat, top: nat, x: nat, y: nat)
    requires x < WIDTH
    ensures Place(i, top) == At(x, top + y) <==> i == WIDTH * y + x
  {
    assert i == WIDTH * (i / WIDTH) + i % WIDTH;
  }

  lemma {:induction false} AfterPut(fb: seq<uint16>, x: nat, y: nat, h: seq<Event>, e: Event)
    requires Shows(fb, x, y, h)
    ensures WIDTH * y + x < |fb|
    ensures Window(if Prints(e.c) then fb[WIDTH * y + x := CellOf(e)] else fb, Top(Cursor(h).row), h + [e])
  {
    CellIndex(x, y);
    var fb' := if Prints(e.c) then fb[WIDTH * y + x := CellOf(e)] else fb;
    var top := Top(Cursor(h).row);
    assert (h + [e])[..|h|] == h;
    forall i | 0 <= i < CELLS ensures fb'[i] == Screen(h + [e], Place(i, top)) {
      PlaceIndex(i, top, x, y);
    }
  }

  /** Scrolling follows the cursor: the new bottom row of the screen is still blank. */
  lemma {:induction false} AfterScroll(fb: seq<uint16>, top: nat, h: seq<Event>)
    requires Window(fb, top, h) && Cursor(h) == At(0, top + HEIGHT)
    ensures Window(Scrolled(fb), top + 1, h)
  {
    var fb' := Scrolled(fb);
    forall i | 0 <= i < CELLS ensures fb'[i] == Screen(h, Place(i, top + 1)) {
      NextPlace(i, top);
      if i + WIDTH < CELLS {
        assert fb'[i] == fb[i + WIDTH];
      } else {
        BlankAhead(h, Place(i, top + 1));
      }
    }
  }

  lemma {:induction false} NextPlace(i: nat, top: nat)
    ensures Place(i + WIDTH, top) == Place(i, top + 1)
    ensures i + WIDTH >= CELLS ==> Place(i, top + 1).row >= top + HEIGHT
  {}

  lemma {:induction false} AfterAdvance(h: seq<Event>, e: Event)
    ensures Cursor(h + [e]) == Advance(Cursor(h), e.c)
  {
    assert (h + [e])[..|h|] == h;
  }

  lemma {:induction false} ShownCursor(fb: seq<uint16>, x: nat, y: nat, h: seq<Event>)
    requires Shows(fb, x, y, h)
    ensures x < WIDTH && y < HEIGHT && |fb| == CELLS
    ensures var top := Top(Cursor(h).row); Cursor(h) == At(x, top + y) && (top > 0 ==> y == HEIGHT - 1)
  {}

  /** The buffer once the cells before `to` have been copied up. */
  function Shifted(fb: seq<uint16>, to: nat): (r: seq<uint16>)
    requires |fb| == CELLS && to + WIDTH <= CELLS
    ensures |r| == CELLS
  {
    fb[WIDTH..to + WIDTH] + fb[to..]
  }

  /** The buffer with the row at `to` overwritten by the one below. */
  function RowCopied(fb: seq<uint16>, to: nat): (r: seq<uint16>)
    requires to + 2 * WIDTH <= |fb|
    ensures |r| == |fb|
  {
    fb[..to] + fb[to + WIDTH..to + 2 * WIDTH] + fb[to + WIDTH..]
  }

  lemma {:induction false} ShiftRow(fb: seq<uint16>, to: nat)
    requires |fb| == CELLS && to + 2 * WIDTH <= CELLS
    ensures RowCopied(Shifted(fb, to), to) == Shifted(fb, to + WIDTH)
  {
    var prev := Shifted(fb, to);
    assert prev[..to] == fb[WIDTH..to + WIDTH];
    assert prev[to..] == fb[to..];
    assert prev[to + WIDTH..to + 2 * WIDTH] == fb[to + WIDTH..to + 2 * WIDTH];
    assert prev[to + WIDTH..] == fb[to + WIDTH..];
  }

  lemma {:induction false} BlankRow(before: seq<uint16>, next: seq<uint16>)
    requires |before| == CELLS
    requires next == Shifted(before, CELLS - WIDTH)[..CELLS - WIDTH] + seq(WIDTH, _ => BLANK) + []
    ensures next == Scrolled(before)
  {
    assert Shifted(before, CELLS - WIDTH)[..CELLS - WIDTH] == before[WIDTH..];
  }

  /** Once the cursor has moved on to x, y, at most one row has to be scrolled off. */
  lemma {:induction false} Settled(fb: seq<uint16>, x: nat, y: nat, top: nat, h: seq<Event>)
    requires Window(fb, top, h) && Cursor(h) == At(x, top + y) && y <= HEIGHT
    requires x < WIDTH && (y == HEIGHT ==> x == 0)
    requires top > 0 ==> y >= HEIGHT - 1
    ensures if y < HEIGHT then Shows(fb, x, y, h) else Shows(Scrolled(fb), x, HEIGHT - 1, h)
  {
    if y == HEIGHT {
      AfterScroll(fb, top, h);
    }
  }

  class Console {
    const framebuffer: array<uint16>
    var xPos: nat
    var yPos: nat
    /** Every character written since the screen was last cleared. */
    ghost var history: seq<Event>

    ghost predicate Valid()
      reads this, framebuffer
    {
      Shows(framebuffer[..], xPos, yPos, history)
    }

    /** The console over a cleared text buffer; the cursor fields start at 0. */
    constructor (memory: array<uint16>)
      requires memory.Length == CELLS
      modifies memory
      ensures Valid() && framebuffer == memory && history == []
    {
      framebuffer, xPos, yPos := memory, 0, 0;
      new;
      Clear();
    }

    method Clear()
      requires framebuffer.Length == CELLS
      modifies this, framebuffer
      ensures Valid() && history == []
    {
      for i := 0 to CELLS
        invariant forall j | 0 <= j < i :: framebuffer[j] == BLANK
      {
        framebuffer[i] := BLANK;
      }
      xPos, yPos, history := 0, 0, [];
    }

    /** Copies every row to the one above and blanks the last one. */
    method Scroll()
      requires framebuffer.Length == CELLS
      modifies framebuffer
      ensures framebuffer[..] == Scrolled(old(framebuffer[..]))
    {
      ghost var before := framebuffer[..];
      hide Shifted, RowCopied, Scrolled;
      var to := 0;
      for y := 1 to HEIGHT
        invariant to == WIDTH * (y - 1)
        invariant framebuffer[..] == Shifted(before, to)
      {
        CopyRow(to, to + WIDTH);
        ShiftRow(before, to);
        to := to + WIDTH;
      }
      ClearRow(CELLS - WIDTH);
      BlankRow(before, framebuffer[..]);
    }

    method ClearRow(start: nat)
      requires start + WIDTH <= framebuffer.Length
      modifies framebuffer
      ensures framebuffer[..] == old(framebuffer[..start]) + seq(WIDTH, _ => BLANK) + old(framebuffer[start + WIDTH..])
    {
      for i := 0 to WIDTH
        invariant forall j | 0 <= j < framebuffer.Length ::
                    framebuffer[j] == if start <= j < start + i then BLANK else old(framebuffer[j])
      {
        framebuffer[start + i] := BLANK;
      }
    }

    /** memcpy of one row of cells upwards. */
    method CopyRow(to: nat, from: nat)
      requires to + WIDTH == from && from + WIDTH <= framebuffer.Length
      modifies framebuffer
      ensures framebuffer[..] == RowCopied(old(framebuffer[..]), to)
    {
      for i := 0 to WIDTH
        invariant forall j | 0 <= j < framebuffer.Length ::
                    framebuffer[j] == if to <= j < to + i then old(framebuffer[j + WIDTH]) else old(framebuffer[j])
      {
        framebuffer[to + i] := framebuffer[from + i];
      }
    }

    /** After any history of characters, with wrapping, tabs and scrolling, the buffer is the end of the unbounded
        screen of that history and the cursor is inside. */
    method WriteChar(c: bv8, fg: bv8, bg: bv8)
      requires Valid()
      modifies this, framebuffer
      ensures Valid() && history == old(history) + [Put(c, fg, bg)]
    {
      hide Shows, Top, Screen, Window, CellOf, Scrolled, Cursor, Place;
      var e := Put(c, fg, bg);
      ghost var top, shown := Top(Cursor(history).row), framebuffer[..];
      ShownCursor(shown, xPos, yPos, history);
      ghost var next := Advance(At(xPos, top + yPos), c);
      AfterPut(shown, xPos, yPos, history, e);
      AfterAdvance(history, e);
      var x, y := xPos, yPos;
      if c == NEWLINE {
        x, y := 0, y + 1;
      } else if c == TAB {
        x := (x + 4) / 4 * 4;
        if x > WIDTH {
          x, y := 0, y + 1;
        }
      } else {
        framebuffer[y * WIDTH + x] := CellOf(e);
        x := x + 1;
      }
      if x >= WIDTH {
        x, y := 0, y + 1;
      }
      assert At(x, top + y) == next;
      assert framebuffer[..] == if Prints(c) then shown[WIDTH * yPos + xPos := CellOf(e)] else shown;
      xPos, yPos, history := x, y, history + [e];
      Settled(framebuffer[..], xPos, yPos, top, history);
      if yPos >= HEIGHT {
        Scroll();
        yPos := HEIGHT - 1;
      }
    }
  }
}
