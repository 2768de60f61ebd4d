/** io/vga.c: the 100-line virtual text buffer, the 25-line hardware screen and the dirty-line cache between them. */
module Vga {

  const WIDTH: nat := 80
  const HEIGHT: nat := 25
  const BUFFER_HEIGHT: nat := 100
  const CELLS: nat := 8000
  const SCREEN: nat := 2000

  datatype Color = Color(foreground: nat, background: nat)

  /** The 16-bit cell for a signed character: the colour bits, or all ones above a character with its top bit set. */
  function Cell(k: Color, c: int): int
    requires k.foreground < 16 && k.background < 16 && -128 <= c < 128
  {
    if c < 0 then 0xFF00 + (256 + c) else k.background * 4096 + k.foreground * 256 + c
  }

  const NEWLINE: int := 10
  const SPACE: int := 32

  // ---------------------------------------------------------------- what the text operations compute

  /** The cursor before any shift. */
  function Advance(cursor: nat, c: int): nat {
    if c == NEWLINE then (cursor / WIDTH + 1) * WIDTH else cursor + 1
  }

  /** The buffer, cursor and scroll offset after one character. */
  function TextAfter(t: seq<int>, cursor: nat, c: int, cell: int, blank: int): seq<int>
    requires |t| == CELLS && cursor < CELLS
  {
    var t1 := if c == NEWLINE then t else t[cursor := cell];
    if Advance(cursor, c) >= CELLS then t1[WIDTH..] + seq(WIDTH, _ => blank) else t1
  }

  function CursorAfter(cursor: nat, c: int): (r: nat)
    requires cursor < CELLS
    ensures r < CELLS
  {
    var n := Advance(cursor, c);
    if n >= CELLS then n - WIDTH else n
  }

  function ScrollAfter(cursor: nat, scroll: nat, c: int): (r: nat)
    requires cursor < CELLS
    ensures scroll <= BUFFER_HEIGHT - HEIGHT ==> r <= BUFFER_HEIGHT - HEIGHT
    ensures CursorAfter(cursor, c) / WIDTH < r + HEIGHT
    ensures cursor / WIDTH < scroll + HEIGHT ==>
              (r <= CursorAfter(cursor, c) / WIDTH <==> scroll <= Advance(cursor, c) / WIDTH)
  {
    var s := if Advance(cursor, c) >= CELLS && scroll > 0 then scroll - 1 else scroll;
    var line := CursorAfter(cursor, c) / WIDTH;
    if line >= s + HEIGHT then line - HEIGHT + 1 else s
  }

  /** What a cell shows: the character, or the 256 complement of a negative one, under the two colours; a negative
      character overwrites both colours with white. */
  lemma CellDecodes(k: Color, c: int)
    requires k.foreground < 16 && k.background < 16 && -128 <= c < 128
    ensures var cell := Cell(k, c);
            && 0 <= cell < 0x1_0000
            && cell % 256 == (if c >= 0 then c else 256 + c)
            && cell / 256 % 16 == (if c >= 0 then k.foreground else 15)
            && cell / 4096 == (if c >= 0 then k.background else 15)
  {
  }

  /** A newline moves the cursor to the first column of the next line, any other character to the next cell; past the
      last line of the buffer everything has moved up by a line. */
  lemma CursorMoves(cursor: nat, c: int)
    requires cursor < CELLS
    ensures var r := CursorAfter(cursor, c);
            if c == NEWLINE then
              r % WIDTH == 0 && r / WIDTH == (if cursor / WIDTH < BUFFER_HEIGHT - 1 then cursor / WIDTH + 1
                                              else BUFFER_HEIGHT - 1)
            else if cursor < CELLS - 1 then r == cursor + 1
            else r == CELLS - WIDTH
  {
  }

  /** The window moves no further than it must: it stays, or goes up with the text when the buffer shifts, unless the
      cursor's line would be below it; then that line becomes its last. */
  lemma WindowMoves(cursor: nat, scroll: nat, c: int)
    requires cursor < CELLS
    ensures var r, line := ScrollAfter(cursor, scroll, c), CursorAfter(cursor, c) / WIDTH;
            var shifted := Advance(cursor, c) >= CELLS;
            var stay := if shifted && scroll > 0 then scroll - 1 else scroll;
            if line < stay + HEIGHT then r == stay else r + HEIGHT == line + 1
  {
  }

  /** The buffer after one character: the character is in the cell under the cursor, the other cells are as they were,
      and if the cursor would leave the buffer every line has moved up by one and the last is blank. */
  lemma TextMoves(t: seq<int>, cursor: nat, c: int, cell: int, blank: int, i: nat)
    requires |t| == CELLS && cursor < CELLS && i < CELLS
    ensures var r := TextAfter(t, cursor, c, cell, blank);
            var last := if c == NEWLINE then cursor / WIDTH == BUFFER_HEIGHT - 1 else cursor == CELLS - 1;
            |r| == CELLS &&
            r[i] == (if !last then (if i == cursor && c != NEWLINE then cell else t[i])
                     else if i >= CELLS - WIDTH then blank
                     else if i + WIDTH == cursor && c != NEWLINE then cell else t[i + WIDTH])
  {
  }

  class Vga {
    const hw: array<int>
    const virt: array<int>
    var cursor: nat
    var scroll: nat
    var color: Color
    var dirty: seq<bool>
    var needsRefresh: bool

    ghost predicate Dimensions()
      reads this`scroll
    {
      hw.Length == SCREEN && virt.Length == CELLS && hw != virt && scroll <= BUFFER_HEIGHT - HEIGHT
    }

    ghost predicate Shape()
      reads this
    {
      && Dimensions() && |dirty| == HEIGHT
      && cursor < CELLS && cursor / WIDTH < scroll + HEIGHT
      && color.foreground < 16 && color.background < 16
    }

    /** Line l of the screen shows its row of the virtual buffer. */
    ghost predicate LineAgrees(l: nat)
      requires Dimensions() && l < HEIGHT
      reads this`scroll, hw, virt
    {
      forall i :: l * WIDTH <= i < l * WIDTH + WIDTH ==> hw[i] == virt[scroll * WIDTH + i]
    }

    /** The screen shows the visible window. */
    ghost predicate ScreenAgrees()
      requires Dimensions()
      reads this`scroll, hw, virt
    {
      forall i :: 0 <= i < SCREEN ==> hw[i] == virt[scroll * WIDTH + i]
    }

    /** The dirty-line cache: a clean line agrees with the buffer. */
    ghost predicate CacheOk()
      requires Shape()
      reads this, hw, virt
    {
      forall l :: 0 <= l < HEIGHT && !dirty[l] ==> LineAgrees(l)
    }

    /** Between calls nothing is due for refresh, and either the screen agrees or a clear has just marked every line. */
    ghost predicate Valid()
      reads this, hw, virt
    {
      && Shape() && CacheOk() && !needsRefresh
      && (ScreenAgrees() || (cursor == 0 && scroll == 0 && forall l :: 0 <= l < HEIGHT ==> dirty[l]))
    }

    /** vga_refresh_screen */
    method Refresh()
      requires Shape() && CacheOk()
      modifies hw, this`dirty, this`needsRefresh
      ensures Shape() && CacheOk() && !needsRefresh
      ensures if old(needsRefresh) then ScreenAgrees() else hw[..] == old(hw[..]) && dirty == old(dirty)
    {
      if !needsRefresh {
        return;
      }
      for line := 0 to HEIGHT
        invariant Shape()
        invariant forall l :: 0 <= l < line ==> LineAgrees(l)
        invariant forall l :: line <= l < HEIGHT && !dirty[l] ==> LineAgrees(l)
      {
        if dirty[line] {
          CopyLine(line);
          dirty := dirty[line := false];
        }
      }
      needsRefresh := false;
      forall i | 0 <= i < SCREEN
        ensures hw[i] == virt[scroll * WIDTH + i]
      {
        assert LineAgrees(i / WIDTH);
      }
    }

    /** The copying loop of vga_refresh_screen. */
    method CopyLine(line: nat)
      requires Shape() && line < HEIGHT
      modifies hw
      ensures Shape() && LineAgrees(line)
      ensures forall l :: 0 <= l < HEIGHT && old(LineAgrees(l)) ==> LineAgrees(l)
    {
      var virtualStart := (scroll + line) * WIDTH;
      var hardwareStart := line * WIDTH;
      for col := 0 to WIDTH
        invariant Shape()
        invariant forall i :: hardwareStart <= i < hardwareStart + col ==> hw[i] == virt[scroll * WIDTH + i]
        invariant forall i :: 0 <= i < SCREEN && !(hardwareStart <= i < hardwareStart + WIDTH) ==> hw[i] == old(hw[i])
      {
        hw[hardwareStart + col] := virt[virtualStart + col];
      }
      forall l | 0 <= l < HEIGHT && l != line && old(LineAgrees(l))
        ensures LineAgrees(l)
      {
      }
    }

    /** mark_line_dirty */
    method MarkLineDirty(pos: nat)
      requires |dirty| == HEIGHT
      modifies this`dirty, this`needsRefresh
      ensures |dirty| == HEIGHT
      ensures if scroll <= pos / WIDTH < scroll + HEIGHT
              then dirty == old(dirty)[pos / WIDTH - scroll := true] && needsRefresh
              else dirty == old(dirty) && needsRefresh == old(needsRefresh)
    {
      var line := pos / WIDTH;
      if scroll <= line && line - scroll < HEIGHT {
        dirty := dirty[line - scroll := true];
        needsRefresh := true;
      }
    }

    /** vga_driver_init on an arbitrary screen: the lines are clean flags first, then the buffer is cleared. */
    constructor (screen: seq<int>)
      requires |screen| == SCREEN
      ensures Valid() && fresh(hw) && fresh(virt) && hw[..] == screen && cursor == 0 && scroll == 0
      ensures color == Color(15, 0) && forall i :: 0 <= i < CELLS ==> virt[i] == Cell(Color(15, 0), SPACE)
    {
      hw := new int[SCREEN](i requires 0 <= i < SCREEN => screen[i]);
      virt := new int[CELLS](_ => Cell(Color(15, 0), SPACE));
      cursor, scroll := 0, 0;
      color := Color(15, 0);
      dirty := seq(HEIGHT, _ => true);
      needsRefresh := false;
    }

    function Blank(): int
      requires color.foreground < 16 && color.background < 16
      reads this
    {
      Cell(color, SPACE)
    }

    /** vga_driver_clear. In every state between calls needsRefresh is 0, so the refresh it asks for does nothing: the
        hardware screen keeps its old contents until the next character. */
    method Clear()
      requires Valid()
      modifies this, virt, hw
      ensures Valid() && cursor == 0 && scroll == 0 && color == old(color)
      ensures forall i :: 0 <= i < CELLS ==> virt[i] == Blank()
      ensures hw[..] == old(hw[..])
      ensures ScreenAgrees() <==> forall i :: 0 <= i < SCREEN ==> old(hw[i]) == Blank()
    {
      var blank := Blank();
      for i := 0 to CELLS
        invariant forall j :: 0 <= j < i ==> virt[j] == blank
        modifies virt
      {
        virt[i] := blank;
      }
      cursor, scroll := 0, 0;
      dirty := seq(HEIGHT, _ => true);
      Refresh();
      needsRefresh := false;
    }

    /** vga_driver_set_color */
    method SetColor(k: Color)
      requires Valid() && k.foreground < 16 && k.background < 16
      modifies this`color
      ensures Valid() && color == k
    {
      color := k;
    }

    /** The line shift of vga_driver_putc. */
    method ShiftUp(blank: int)
      requires virt.Length == CELLS
      modifies virt
      ensures virt[..] == old(virt[..])[WIDTH..] + seq(WIDTH, _ => blank)
    {
      for i := 0 to WIDTH * (BUFFER_HEIGHT - 1)
        invariant forall j :: 0 <= j < i ==> virt[j] == old(virt[j + WIDTH])
        invariant forall j :: i <= j < CELLS ==> virt[j] == old(virt[j])
      {
        virt[i] := virt[i + WIDTH];
      }
      for i := WIDTH * (BUFFER_HEIGHT - 1) to CELLS
        invariant forall j :: 0 <= j < CELLS - WIDTH ==> virt[j] == old(virt[j + WIDTH])
        invariant forall j :: CELLS - WIDTH <= j < i ==> virt[j] == blank
      {
        virt[i] := blank;
      }
    }

    /** Scrolling marks every line. */
    method MarkAll()
      modifies this`dirty, this`needsRefresh
      ensures |dirty| == HEIGHT && needsRefresh && forall l :: 0 <= l < HEIGHT ==> dirty[l]
    {
      dirty := seq(HEIGHT, _ => true);
      needsRefresh := true;
    }

    /** Writes the character and moves the cursor, which may leave the buffer by one line. */
    method Place(c: int)
      requires Valid() && -128 <= c < 128
      modifies virt, this`cursor, this`dirty, this`needsRefresh
      ensures Dimensions() && |dirty| == HEIGHT && cursor == Advance(old(cursor), c)
      ensures virt[..] == if c == NEWLINE then old(virt[..]) else old(virt[..])[old(cursor) := Cell(color, c)]
      ensures forall l :: 0 <= l < HEIGHT && !dirty[l] ==> LineAgrees(l)
      ensures !needsRefresh ==> ScreenAgrees()
    {
      ghost var line := cursor / WIDTH;
      var before := cursor;
      if c == NEWLINE {
        cursor := (cursor / WIDTH + 1) * WIDTH;
      } else {
        virt[cursor] := Cell(color, c);
        cursor := cursor + 1;
      }
      ghost var d0 := dirty;
      MarkLineDirty(before);
      if cursor / WIDTH != before / WIDTH {
        MarkLineDirty(cursor);
      }
      forall l | 0 <= l < HEIGHT && !dirty[l]
        ensures LineAgrees(l)
      {
        assert !d0[l] && old(LineAgrees(l));
        forall i | l * WIDTH <= i < l * WIDTH + WIDTH
          ensures hw[i] == virt[scroll * WIDTH + i]
        {
          OtherRow(before, scroll, l, i);
        }
      }
    }

    /** vga_driver_putc: the screen shows the window afterwards. */
    method PutC(c: int)
      requires Valid() && -128 <= c < 128
      modifies this, virt, hw
      ensures Valid() && ScreenAgrees() && color == old(color)
      ensures virt[..] == TextAfter(old(virt[..]), old(cursor), c, Cell(color, c), Cell(color, SPACE))
      ensures cursor == CursorAfter(old(cursor), c) && scroll == ScrollAfter(old(cursor), old(scroll), c)
    {
      Place(c);
      var line := cursor / WIDTH;
      if line >= BUFFER_HEIGHT {
        ShiftUp(Cell(color, SPACE));
        cursor := cursor - WIDTH;
        line := line - 1;
        if scroll > 0 {
          scroll := scroll - 1;
        }
        MarkAll();
      }
      if line >= scroll + HEIGHT {
        scroll := line - HEIGHT + 1;
        MarkAll();
      }
      if c == NEWLINE || needsRefresh {
        Refresh();
      }
    }

    /** Clean lines agree, and as long as nothing is due the whole screen does. */
    ghost predicate Tracked()
      reads this, hw, virt
    {
      && Dimensions() && |dirty| == HEIGHT
      && (forall l :: 0 <= l < HEIGHT && !dirty[l] ==> LineAgrees(l))
      && (!needsRefresh ==> ScreenAgrees())
    }

    /** Blanks the cell under the cursor. */
    method Erase(blank: int)
      requires Tracked() && cursor < CELLS
      modifies virt, this`dirty, this`needsRefresh
      ensures Tracked() && virt[..] == old(virt[..])[cursor := blank]
    {
      virt[cursor] := blank;
      ghost var d0 := dirty;
      MarkLineDirty(cursor);
      forall l | 0 <= l < HEIGHT && !dirty[l]
        ensures LineAgrees(l)
      {
        assert !d0[l] && old(LineAgrees(l));
        forall i | l * WIDTH <= i < l * WIDTH + WIDTH
          ensures hw[i] == virt[scroll * WIDTH + i]
        {
          OtherRow(cursor, scroll, l, i);
        }
      }
    }

    /** vga_driver_backspace: blanks count + 1 cells, not count, and leaves the cursor on the last of them; it stops at
        the start of the buffer. A negative count moves the cursor back by one and blanks nothing. */
    method Backspace(count: int)
      requires Valid()
      modifies this, virt, hw
      ensures Valid() && scroll == old(scroll) && color == old(color)
      ensures cursor == ClampedBack(old(cursor), Steps(count))
      ensures forall j :: 0 <= j < CELLS ==>
                virt[j] == if count >= 0 && cursor <= j < old(cursor) then Blank() else old(virt[j])
      ensures old(ScreenAgrees()) ==> ScreenAgrees()
    {
      if cursor == 0 {
        return;
      }
      var before := cursor;
      EraseBack(count);
      MarkLineDirty(before);
      MarkLineDirty(cursor);
      Refresh();
    }

    /** The loop of vga_driver_backspace. */
    method EraseBack(count: int)
      requires Tracked() && 0 < cursor <= CELLS && color.foreground < 16 && color.background < 16
      modifies this`cursor, this`dirty, this`needsRefresh, virt
      ensures Tracked() && cursor == ClampedBack(old(cursor), Steps(count)) && cursor < CELLS
      ensures forall j :: 0 <= j < CELLS ==>
                virt[j] == if count >= 0 && cursor <= j < old(cursor) then Blank() else old(virt[j])
    {
      var before := cursor;
      var blank := Blank();
      cursor := cursor - 1;
      var i := 0;
      while i <= count && cursor < CELLS
        invariant 0 <= i && (i == 0 || i <= count + 1) && Tracked()
        invariant scroll == old(scroll) && color == old(color) && blank == Blank()
        invariant cursor == ClampedBack(before, if count < 0 then 1 else if i <= count then i + 1 else count + 1)
        invariant cursor < CELLS
        invariant forall j :: 0 <= j < CELLS ==>
                    virt[j] == if ClampedBack(before, i) <= j < before then blank else old(virt[j])
        decreases count + 1 - i
      {
        Erase(blank);
        if cursor > 0 && i < count {
          cursor := cursor - 1;
        }
        i := i + 1;
      }
    }
  }

  /** How far vga_driver_backspace moves the cursor back. */
  function Steps(count: int): nat {
    if count < 0 then 1 else count + 1
  }

  function ClampedBack(pos: nat, n: nat): nat {
    if pos <= n then 0 else pos - n
  }

  /** A cell outside screen line l of the window is not in that line's row. */
  lemma OtherRow(pos: nat, scroll: nat, l: nat, i: nat)
    requires l < HEIGHT && pos / WIDTH != scroll + l && l * WIDTH <= i < l * WIDTH + WIDTH
    ensures scroll * WIDTH + i != pos
  {
  }
}
