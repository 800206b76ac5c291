/** kern/driver/console.c: a 25-row video buffer as the last window onto an endless sheet of rows. */
module Console {
  const COLS := 80
  const ROWS := 25
  const CELLS := 2000

  /** A cell of video memory: character code and attribute byte. */
  type Cell = c: int | 0 <= c < 0x1_0000

  const BLANK: Cell := 0x0F20     // a space, white on black

  /** (back << 4) | (fore & 15) in the upper byte, for colours 0 to 15. */
  function CellOf(c: int, back: int, fore: int): Cell
    requires 0 <= c < 0x80 && 0 <= back < 16 && 0 <= fore < 16
  {
    c + 0x100 * (16 * back + fore)
  }

  /** What a cell holds: the character in the low byte, the foreground in bits 8 to 11, the background above it. */
  lemma CellBits(c: int, back: int, fore: int)
    requires 0 <= c < 0x80 && 0 <= back < 16 && 0 <= fore < 16
    ensures Shows(CellOf(c, back, fore), c, back, fore)
    ensures Shows(BLANK, 0x20, 0, 15)
  {
    var n := CellOf(c, back, fore);
    assert n / 0x100 == 16 * back + fore;
    assert n / 0x1000 == n / 0x100 / 16;
  }

  /** The hardware's reading of a cell. */
  predicate Shows(n: Cell, c: int, back: int, fore: int) {
    n % 0x100 == c && n / 0x100 % 0x10 == fore && n / 0x1000 == back
  }

  // ----- The endless sheet -----

  /** All rows so far, first to last, and the cursor; the last 25 rows are on the screen. */
  datatype Sheet = Sheet(cells: seq<Cell>, row: int, col: int)

  ghost predicate Good(t: Sheet) {
    && |t.cells| % COLS == 0 && |t.cells| >= CELLS
    && 0 <= t.col < COLS && 0 <= t.row && t.row * COLS < |t.cells| <= t.row * COLS + CELLS
  }

  function Blanks(n: nat): (s: seq<Cell>)
    ensures |s| == n && forall i | 0 <= i < n :: s[i] == BLANK
  {
    seq(n, i => BLANK)
  }

  const FRESH := Sheet(Blanks(CELLS), 0, 0)

  /** The next row, appended to the sheet if it does not exist yet. */
  function NextRow(t: Sheet): Sheet {
    Sheet(if (t.row + 1) * COLS >= |t.cells| then t.cells + Blanks(COLS) else t.cells, t.row + 1, 0)
  }

  /** One character; codes are those of a signed char, so 0x80 and above are negative and print nothing. */
  function PutOn(t: Sheet, c: int, back: int, fore: int): Sheet
    requires Good(t) && -0x80 <= c < 0x80 && 0 <= back < 16 && 0 <= fore < 16
  {
    if c == 0x08 && t.col > 0 then t.(col := t.col - 1)
    else if c == 0x09 then (if t.col / 8 * 8 + 8 >= COLS then NextRow(t) else t.(col := t.col / 8 * 8 + 8))
    else if c == 0x0D then t.(col := 0)
    else if c == 0x0A then NextRow(t)
    else if c >= 0x20 then
      var t' := t.(cells := t.cells[t.row * COLS + t.col := CellOf(c, back, fore)]);
      if t.col + 1 >= COLS then NextRow(t') else t'.(col := t.col + 1)
    else t
  }

  lemma PutOnGood(t: Sheet, c: int, back: int, fore: int)
    requires Good(t) && -0x80 <= c < 0x80 && 0 <= back < 16 && 0 <= fore < 16
    ensures Good(PutOn(t, c, back, fore))
  {
  }

  /**
   * Control characters change no cell that exists. Backspace goes one column left and stops at the margin, tab goes to
   * the next column that is a multiple of 8 or to a new line where there is none, carriage return goes to the margin,
   * line feed to the start of the next row; any other does nothing, nor does a character of 0x80 and above.
   */
  lemma ControlCharacters(t: Sheet, c: int, back: int, fore: int)
    requires Good(t) && -0x80 <= c < 0x20 && 0 <= back < 16 && 0 <= fore < 16
    ensures var t' := PutOn(t, c, back, fore);
            && |t.cells| <= |t'.cells| && (forall k | 0 <= k < |t.cells| :: t'.cells[k] == t.cells[k])
            && (c == 0x0A ==> t'.row == t.row + 1 && t'.col == 0)
            && (c == 0x0D ==> t'.row == t.row && t'.col == 0)
            && (c == 0x08 ==> t'.row == t.row && (t.col == 0 ==> t'.col == 0) && (t.col > 0 ==> t'.col == t.col - 1))
            && (c == 0x09 && t.col < 72 ==> t'.row == t.row && t'.col % 8 == 0 && t.col < t'.col <= t.col + 8)
            && (c == 0x09 && t.col >= 72 ==> t'.row == t.row + 1 && t'.col == 0)
            && (c !in {0x08, 0x09, 0x0A, 0x0D} ==> t' == t)
  {
  }

  /** The rows on the screen. */
  function Window(t: Sheet): (s: seq<Cell>)
    requires |t.cells| >= CELLS
    ensures |s| == CELLS
  {
    t.cells[|t.cells| - CELLS..]
  }

  /** Rows that have left the screen. */
  function Gone(t: Sheet): int {
    |t.cells| / COLS - ROWS
  }

  /** Cell (row, col) of the sheet is on the screen at the cursor. */
  lemma WriteWindow(t: Sheet, c: Cell)
    requires Good(t)
    ensures var t', y := t.(cells := t.cells[t.row * COLS + t.col := c]), t.row - Gone(t);
            && Good(t') && Gone(t') == Gone(t) && 0 <= y < ROWS
            && Window(t') == Window(t)[y * COLS + t.col := c]
  {
    assert t.row * COLS + t.col == |t.cells| - CELLS + (t.row - Gone(t)) * COLS + t.col;
  }

  /** A line feed shows the row below, scrolling when the cursor is on the last row of the screen. */
  lemma NextRowWindow(t: Sheet)
    requires Good(t)
    ensures var t', y := NextRow(t), t.row - Gone(t);
            && Good(t') && t'.col == 0 && 0 <= y < ROWS
            && t'.row - Gone(t') == (if y + 1 == ROWS then ROWS - 1 else y + 1)
            && Window(t') == (if y + 1 == ROWS then Window(t)[COLS..] + Blanks(COLS) else Window(t))
  {
    assert (t.row + 1) * COLS >= |t.cells| <==> t.row - Gone(t) + 1 == ROWS;
    if t.row - Gone(t) + 1 == ROWS {
      assert Window(NextRow(t)) == Window(t)[COLS..] + Blanks(COLS);
    }
  }

  lemma Rows(t: Sheet)
    requires Good(t)
    ensures 0 <= t.row - Gone(t) < ROWS && |t.cells| >= CELLS
  {
  }

  /** The sheet just before the cursor leaves its row, if the character c makes it do so. */
  function Written(t: Sheet, c: int, back: int, fore: int): Sheet
    requires Good(t) && -0x80 <= c < 0x80 && 0 <= back < 16 && 0 <= fore < 16
  {
    if c >= 0x20 then t.(cells := t.cells[t.row * COLS + t.col := CellOf(c, back, fore)]) else t
  }

  /** The column that c moves the cursor to, before the check against the right margin. */
  function Moved(col: int, c: int): int {
    if c == 0x08 && col != 0 then col - 1
    else if c == 0x09 then (col + 8) / 8 * 8
    else if c == 0x0D || c == 0x0A then 0
    else if c >= 0x20 then col + 1
    else col
  }

  lemma PutOnSplit(t: Sheet, c: int, back: int, fore: int)
    requires Good(t) && -0x80 <= c < 0x80 && 0 <= back < 16 && 0 <= fore < 16
    ensures 0 <= Moved(t.col, c)
    ensures PutOn(t, c, back, fore) ==
            if c == 0x0A || Moved(t.col, c) >= COLS then NextRow(Written(t, c, back, fore))
            else Written(t, c, back, fore).(col := Moved(t.col, c))
  {
  }

  class Console {
    const video: array<Cell>
    var x: int
    var y: int
    ghost var sheet: Sheet

    ghost predicate Valid()
      reads this, video
    {
      && video.Length == CELLS && 0 <= x < COLS && 0 <= y < ROWS
      && Good(sheet) && x == sheet.col && y == sheet.row - Gone(sheet)
      && video[..] == Window(sheet)
    }

    constructor (video: array<Cell>)
      ensures this.video == video
    {
      this.video := video;
      x, y := 0, 0;
      sheet := FRESH;
    }

    /** console_clear */
    method Clear()
      requires video.Length == CELLS
      modifies this, video
      ensures Valid() && sheet == FRESH
    {
      var i := 0;
      while i < COLS * ROWS
        invariant 0 <= i <= CELLS
        invariant forall k | 0 <= k < i :: video[k] == BLANK
      {
        video[i] := BLANK;
        i := i + 1;
      }
      x, y := 0, 0;
      sheet := FRESH;
      assert video[..] == Window(FRESH);
    }

    /** scroll: the ascending copy moves every row up by one, although source and target overlap. */
    method Scroll()
      requires video.Length == CELLS && 0 <= y <= ROWS
      modifies this`y, video
      ensures y == if old(y) == ROWS then ROWS - 1 else old(y)
      ensures video[..] == if old(y) == ROWS then old(video[COLS..]) + Blanks(COLS) else old(video[..])
    {
      if y >= 25 {
        ghost var v := video[..];
        var i := 0;
        while i < 24 * 80
          invariant 0 <= i <= 24 * 80
          invariant forall k | 0 <= k < i :: video[k] == v[k + 80]
          invariant forall k | i <= k < CELLS :: video[k] == v[k]
        {
          video[i] := video[i + 80];
          i := i + 1;
        }
        while i < 25 * 80
          invariant 24 * 80 <= i <= CELLS
          invariant forall k | 0 <= k < 24 * 80 :: video[k] == v[k + 80]
          invariant forall k | 24 * 80 <= k < i :: video[k] == BLANK
        {
          video[i] := BLANK;
          i := i + 1;
        }
        y := 24;
        assert video[..] == v[COLS..] + Blanks(COLS);
      }
    }

    /** console_putc_color */
    method PutcColor(c: int, back: int, fore: int)
      requires Valid() && -0x80 <= c < 0x80 && 0 <= back < 16 && 0 <= fore < 16
      modifies this, video
      ensures Valid() && sheet == PutOn(old(sheet), c, back, fore)
      ensures c >= 0x20 ==>
                var at := old(y) * 80 + old(x) - if old(y) == 24 && old(x) == 79 then 80 else 0;
                0 <= at < 2000 && Shows(video[at], c, back, fore)
    {
      hide Window, Good, PutOn, Shows, CellOf;
      ghost var t, t' := sheet, Written(sheet, c, back, fore);
      Rows(t);
      PutOnSplit(t, c, back, fore);
      if c == 0x08 && x != 0 {
        x := x - 1;
      } else if c == 0x09 {
        x := (x + 8) / 8 * 8;
      } else if c == 0x0D {
        x := 0;
      } else if c == 0x0A {
        x := 0;
        y := y + 1;
      } else if c >= 0x20 {
        WriteWindow(t, CellOf(c, back, fore));
        StoreCell(y * 80 + x, CellOf(c, back, fore));
        x := x + 1;
      }
      assert Good(t');
      Rows(t');
      assert video[..] == Window(t') && x == Moved(t.col, c);
      if x >= 80 {
        x := 0;
        y := y + 1;
      }
      NextRowWindow(t');
      WithCol(t', Moved(t.col, c));
      Scroll();
      if c >= 0x20 {
        CellBits(c, back, fore);
      }
      sheet := PutOn(t, c, back, fore);
    }

    /** console_write and console_write_color: the characters up to the terminator. */
    method Write(text: seq<int>, back: int, fore: int)
      requires Valid() && Chars(text) && 0 <= back < 16 && 0 <= fore < 16
      modifies this, video
      ensures Valid() && sheet == PutAll(old(sheet), text, back, fore)
    {
      hide Good, PutOn, Window;
      ghost var t := sheet;
      var i := 0;
      while i < |text|
        invariant 0 <= i <= |text| && Valid()
        invariant PutAll(sheet, text[i..], back, fore) == PutAll(t, text, back, fore)
      {
        PutAllStep(sheet, text[i..], back, fore);
        PutcColor(text[i], back, fore);
        i := i + 1;
      }
    }

    /** Writes one cell of video memory. */
    method StoreCell(i: int, c: Cell)
      requires 0 <= i < video.Length
      modifies video
      ensures video[..] == old(video[..])[i := c]
    {
      video[i] := c;
    }
  }

  lemma WithCol(t: Sheet, col: int)
    requires Good(t)
    ensures 0 <= col < COLS ==> Good(t.(col := col)) && Window(t.(col := col)) == Window(t)
  {
  }

  // ----- Strings -----

  predicate Chars(text: seq<int>) {
    forall i | 0 <= i < |text| :: -0x80 <= text[i] < 0x80
  }

  function PutAll(t: Sheet, text: seq<int>, back: int, fore: int): Sheet
    requires Good(t) && Chars(text) && 0 <= back < 16 && 0 <= fore < 16
    decreases |text|
  {
    if text == [] then t
    else
      PutOnGood(t, text[0], back, fore);
      PutAll(PutOn(t, text[0], back, fore), text[1..], back, fore)
  }

  lemma PutAllStep(t: Sheet, text: seq<int>, back: int, fore: int)
    requires Good(t) && text != [] && Chars(text) && 0 <= back < 16 && 0 <= fore < 16
    ensures Good(PutOn(t, text[0], back, fore)) && Chars(text[1..])
    ensures PutAll(t, text, back, fore) == PutAll(PutOn(t, text[0], back, fore), text[1..], back, fore)
  {
    PutOnGood(t, text[0], back, fore);
  }

  predicate Printable(text: seq<int>) {
    forall i | 0 <= i < |text| :: 0x20 <= text[i] < 0x80
  }

  /** Cells [from, from + |text|) hold text, the cursor is right behind it, and below it the sheet is blank. */
  ghost predicate Holds(t: Sheet, from: int, text: seq<int>, back: int, fore: int)
    requires Printable(text) && 0 <= back < 16 && 0 <= fore < 16
  {
    && 0 <= from && t.row * COLS + t.col == from + |text| <= |t.cells|
    && (forall k | 0 <= k < |text| :: t.cells[from + k] == CellOf(text[k], back, fore))
    && (forall k | from + |text| <= k < |t.cells| :: t.cells[k] == BLANK)
  }

  /** A printable character fills the cell at the cursor; a row that comes into being is blank. */
  lemma PutOnCells(t: Sheet, c: int, back: int, fore: int)
    requires Good(t) && 0x20 <= c < 0x80 && 0 <= back < 16 && 0 <= fore < 16
    ensures var t', at := PutOn(t, c, back, fore), t.row * COLS + t.col;
            && t'.row * COLS + t'.col == at + 1 <= |t'.cells| && at < |t.cells| <= |t'.cells|
            && forall k | 0 <= k < |t'.cells| ::
                 t'.cells[k] == if k == at then CellOf(c, back, fore) else if k < |t.cells| then t.cells[k] else BLANK
  {
    hide CellOf;
  }

  lemma PutOnHolds(t: Sheet, from: int, done: seq<int>, c: int, back: int, fore: int)
    requires Good(t) && 0x20 <= c < 0x80 && Printable(done) && 0 <= back < 16 && 0 <= fore < 16 &&
             Holds(t, from, done, back, fore)
    ensures Good(PutOn(t, c, back, fore)) && Holds(PutOn(t, c, back, fore), from, done + [c], back, fore)
    ensures PutOn(t, c, back, fore).cells[..from] == t.cells[..from]
  {
    hide CellOf;
    PutOnGood(t, c, back, fore);
    PutOnCells(t, c, back, fore);
    hide PutOn, Good;
    var t', at := PutOn(t, c, back, fore), from + |done|;
  }

  /**
   * Plain text on a fresh line is laid out cell after cell, across as many rows as it takes; what was above it
   * on the sheet stays. The screen is the last 25 rows of that.
   */
  lemma {:induction false} TextLaidOut(t: Sheet, from: int, done: seq<int>, text: seq<int>, back: int, fore: int)
    requires Good(t) && Printable(done) && Printable(text) && 0 <= back < 16 && 0 <= fore < 16 &&
             Holds(t, from, done, back, fore)
    ensures var t' := PutAll(t, text, back, fore);
            Holds(t', from, done + text, back, fore) && |t'.cells| >= |t.cells| && t'.cells[..from] == t.cells[..from]
    decreases |text|
  {
    hide Good, CellOf, PutOn, Holds;
    if text == [] {
      assert done + text == done;
    } else {
      PutOnHolds(t, from, done, text[0], back, fore);
      PutOnSheet(t, text[0], back, fore);
      assert done + [text[0]] + text[1..] == done + text;
      TextLaidOut(PutOn(t, text[0], back, fore), from, done + [text[0]], text[1..], back, fore);
      HoldsFrom(t, from, done, back, fore);
      var t1 := PutOn(t, text[0], back, fore);
      assert PutAll(t, text, back, fore).cells[..from] == t1.cells[..from];
    }
  }

  lemma HoldsFrom(t: Sheet, from: int, done: seq<int>, back: int, fore: int)
    requires Printable(done) && 0 <= back < 16 && 0 <= fore < 16 && Holds(t, from, done, back, fore)
    ensures 0 <= from <= |t.cells|
  {
  }

  /** No character ever changes a row above the cursor, and rows are only added. */
  lemma PutOnSheet(t: Sheet, c: int, back: int, fore: int)
    requires Good(t) && -0x80 <= c < 0x80 && 0 <= back < 16 && 0 <= fore < 16
    ensures var t' := PutOn(t, c, back, fore);
            && |t.cells| <= |t'.cells| && t.row <= t'.row
            && t'.cells[..t.row * COLS] == t.cells[..t.row * COLS]
  {
  }

  /** After console_clear, a printable string is the beginning of the sheet. */
  lemma ClearThenWrite(text: seq<int>, back: int, fore: int)
    requires Printable(text) && 0 <= back < 16 && 0 <= fore < 16
    ensures var t := PutAll(FRESH, text, back, fore);
            && t.row == |text| / 80 && t.col == |text| % 80
            && (forall k | 0 <= k < |t.cells| && k < |text| :: Shows(t.cells[k], text[k], back, fore))
            && (forall k | |text| <= k < |t.cells| :: Shows(t.cells[k], 0x20, 0, 15))
  {
    assert [] + text == text;
    FreshHolds(back, fore);
    TextLaidOut(FRESH, 0, [], text, back, fore);
    AllGood(FRESH, text, back, fore);
    var t := PutAll(FRESH, text, back, fore);
    hide PutAll, CellOf, Shows;
    CellBits(0x20, 0, 15);
    forall k | 0 <= k < |text|
      ensures Shows(t.cells[k], text[k], back, fore)
    {
      assert t.cells[0 + k] == CellOf(text[k], back, fore);
      CellBits(text[k], back, fore);
    }
    RowAndColumn(t.row, t.col, |text|);
  }

  lemma FreshHolds(back: int, fore: int)
    requires 0 <= back < 16 && 0 <= fore < 16
    ensures Good(FRESH) && Holds(FRESH, 0, [], back, fore)
  {
  }

  lemma RowAndColumn(row: int, col: int, n: int)
    requires 0 <= col < COLS && row * COLS + col == n
    ensures row == n / COLS && col == n % COLS
  {
  }

  lemma {:induction false} AllGood(t: Sheet, text: seq<int>, back: int, fore: int)
    requires Good(t) && Chars(text) && 0 <= back < 16 && 0 <= fore < 16
    ensures Good(PutAll(t, text, back, fore))
    decreases |text|
  {
    hide Good, PutOn;
    if text != [] {
      PutAllStep(t, text, back, fore);
      AllGood(PutOn(t, text[0], back, fore), text[1..], back, fore);
    }
  }
}
