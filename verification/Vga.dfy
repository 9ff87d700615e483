/** The 80x25 text console, 2000 cells: a scrolling screen as a window on a terminal that never scrolls. */
module Vga {
  import opened Machine
  import opened Arith
  import opened CString

  const NEWLINE: Byte := 0x0A
  const TAB: Byte := 0x09
  const BLANK: Byte := 0x20

  datatype Cell = Cell(character: Byte, attribute: Byte)

  function Blanks(n: nat, attribute: Byte): (r: seq<Cell>)
    ensures |r| == n && forall i :: 0 <= i < n ==> r[i] == Cell(BLANK, attribute)
  {
    seq(n, _ => Cell(BLANK, attribute))
  }

  // ----- the unbounded terminal

  /** All rows ever begun, one after the other, and the cursor in them. */
  datatype Terminal = Terminal(cells: seq<Cell>, rows: nat, x: nat, y: nat) {
    ghost predicate Valid() {
      25 <= rows && |cells| == 80 * rows && x < 80 && rows - 25 <= y < rows
    }

    /** The cursor as a position in `cells`. */
    function Position(): nat { 80 * y + x }
  }

  function Fresh(attribute: Byte): Terminal {
    Terminal(Blanks(2000, attribute), 25, 0, 0)
  }

  /** Cells with positions from..to blanked. */
  function Erase(cells: seq<Cell>, from: nat, to: nat, attribute: Byte): (r: seq<Cell>)
    requires from <= to <= |cells|
    ensures |r| == |cells|
  {
    cells[..from] + Blanks(to - from, attribute) + cells[to..]
  }

  function TabStop(x: nat, tab: nat): nat
    requires tab > 0
  {
    var stop := x + tab - x % tab;
    if stop > 80 then 80 else stop
  }

  /** Begin a new row at the bottom when the cursor has left the last one. */
  function Extend(cells: seq<Cell>, rows: nat, x: nat, y: nat, attribute: Byte): Terminal {
    if y >= rows then Terminal(cells + Blanks(80, attribute), rows + 1, x, y) else Terminal(cells, rows, x, y)
  }

  /** Move to the next row when the cursor has passed the last column. */
  function Wrap(cells: seq<Cell>, rows: nat, x: nat, y: nat, attribute: Byte): Terminal {
    if x >= 80 then Extend(cells, rows, 0, y + 1, attribute) else Extend(cells, rows, x, y, attribute)
  }

  function Put(t: Terminal, c: Byte, attribute: Byte, tab: nat): Terminal
    requires t.Valid() && tab > 0
  {
    if c == NEWLINE then Extend(t.cells, t.rows, 0, t.y + 1, attribute)
    else if c == TAB then
      Wrap(Erase(t.cells, t.Position(), 80 * t.y + TabStop(t.x, tab), attribute), t.rows, TabStop(t.x, tab), t.y,
          attribute)
    else Wrap(t.cells[t.Position() := Cell(c, attribute)], t.rows, t.x + 1, t.y, attribute)
  }

  lemma TabStopBounds(x: nat, tab: nat)
    requires tab > 0 && x < 80
    ensures x < TabStop(x, tab) <= 80
  {
  }

  lemma PutValid(t: Terminal, c: Byte, attribute: Byte, tab: nat)
    requires t.Valid() && tab > 0
    ensures Put(t, c, attribute, tab).Valid()
    ensures t.Position() < Put(t, c, attribute, tab).Position()
  {
    TabStopBounds(t.x, tab);
  }

  function PutAll(t: Terminal, s: seq<Byte>, attribute: Byte, tab: nat): (r: Terminal)
    requires t.Valid() && tab > 0
    ensures r.Valid()
  {
    if s == [] then t
    else
      var before := PutAll(t, s[..|s| - 1], attribute, tab);
      PutValid(before, s[|s| - 1], attribute, tab);
      Put(before, s[|s| - 1], attribute, tab)
  }

  // ----- what the terminal shows

  /** What is before the cursor never changes any more. */
  lemma PutKeepsBehind(t: Terminal, c: Byte, attribute: Byte, tab: nat)
    requires t.Valid() && tab > 0
    ensures |t.cells| <= |Put(t, c, attribute, tab).cells|
    ensures Put(t, c, attribute, tab).cells[..t.Position()] == t.cells[..t.Position()]
  {
    TabStopBounds(t.x, tab);
  }

  predicate Printable(s: seq<Byte>) { NEWLINE !in s && TAB !in s }

  /**
  A text without newlines and tabs fills as many consecutive cells, rows running on, and moves the cursor past
  them.
  */
  lemma {:induction false} TextLands(t: Terminal, s: seq<Byte>, attribute: Byte, tab: nat)
    requires t.Valid() && tab > 0 && Printable(s)
    ensures var r := PutAll(t, s, attribute, tab);
      && r.Position() == t.Position() + |s|
      && t.Position() + |s| <= |r.cells|
      && forall i :: 0 <= i < |s| ==> r.cells[t.Position() + i] == Cell(s[i], attribute)
  {
    if s != [] {
      var front, c := s[..|s| - 1], s[|s| - 1];
      assert c in s && forall b :: b in front ==> b in s;
      TextLands(t, front, attribute, tab);
      var before := PutAll(t, front, attribute, tab);
      PutKeepsBehind(before, c, attribute, tab);
      PutLands(before, c, attribute, tab);
      var r := PutAll(t, s, attribute, tab);
      hide Put, PutAll;
      forall i | 0 <= i < |front|
        ensures r.cells[t.Position() + i] == Cell(s[i], attribute)
      {
        assert r.cells[t.Position() + i] == r.cells[..before.Position()][t.Position() + i];
        assert before.cells[t.Position() + i] == before.cells[..before.Position()][t.Position() + i];
      }
    }
  }

  lemma PutLands(t: Terminal, c: Byte, attribute: Byte, tab: nat)
    requires t.Valid() && tab > 0 && c != NEWLINE && c != TAB
    ensures var r := Put(t, c, attribute, tab);
      r.Position() == t.Position() + 1 && t.Position() < |r.cells| && r.cells[t.Position()] == Cell(c, attribute)
  {
  }

  /** A newline starts the next row, which is blank when it is new, and keeps every cell. */
  lemma NewlineLands(t: Terminal, attribute: Byte, tab: nat)
    requires t.Valid() && tab > 0
    ensures var r := Put(t, NEWLINE, attribute, tab);
      && r.x == 0 && r.y == t.y + 1 && t.cells <= r.cells
      && BlankBetween(r.cells, |t.cells|, |r.cells|, attribute)
  {
  }

  predicate IsTabStop(x: nat, tab: nat)
    requires tab > 0
  {
    x % tab == 0
  }

  /**
  A tab blanks the cells up to the next tab stop of the row, the next column that is a multiple of the tab size; it goes
  to the start of the next row exactly when the row has no further stop.
  */
  lemma TabLands(t: Terminal, attribute: Byte, tab: nat)
    requires t.Valid() && tab > 0
    ensures var r := Put(t, TAB, attribute, tab);
      && (if r.y == t.y then IsTabStop(r.x, tab) && t.x < r.x else r.y == t.y + 1 && r.x == 0)
      && (forall m :: t.x < m < (if r.y == t.y then r.x else 80) ==> !IsTabStop(m, tab))
      && BlankBetween(r.cells, t.Position(), r.Position(), attribute)
  {
    TabStopBounds(t.x, tab);
    NextMultiple(t.x, tab);
    NoStopBefore(t.x, tab);
    var stop := 80 * t.y + TabStop(t.x, tab);
    var cells := Erase(t.cells, t.Position(), stop, attribute);
    var r := Put(t, TAB, attribute, tab);
    assert BlankBetween(cells, t.Position(), stop, attribute);
    BlankInLonger(cells, r.cells, t.Position(), stop, attribute);
  }

  ghost predicate BlankBetween(cells: seq<Cell>, from: nat, to: nat, attribute: Byte) {
    to <= |cells| && forall p :: from <= p < to ==> cells[p] == Cell(BLANK, attribute)
  }

  lemma BlankInLonger(cells: seq<Cell>, longer: seq<Cell>, from: nat, to: nat, attribute: Byte)
    requires cells <= longer && BlankBetween(cells, from, to, attribute)
    ensures BlankBetween(longer, from, to, attribute)
  {
    assert forall p :: 0 <= p < |cells| ==> longer[p] == cells[p];
  }

  lemma NextMultiple(x: nat, tab: nat)
    requires tab > 0
    ensures (x + tab - x % tab) % tab == 0
  {
    var q := x / tab;
    assert x == tab * q + x % tab;
    assert x + tab - x % tab == tab * (q + 1);
    MultipleRemainder(tab, q + 1);
  }

  lemma NoStopBefore(x: nat, tab: nat)
    requires tab > 0
    ensures forall m :: x < m < x + tab - x % tab ==> !IsTabStop(m, tab)
  {
    var q, r := x / tab, x % tab;
    assert x == tab * q + r;
    forall m | x < m < x + tab - r
      ensures !IsTabStop(m, tab)
    {
      DivisionUnique(m, tab, q, m - x + r);
    }
  }

  // ----- the console

  class Console {
    const memory: array<Cell>
    var attribute: Byte
    var curx: Byte
    var cury: Byte
    var tabsize: Byte

    ghost predicate Valid()
      reads this
    {
      memory.Length == 2000 && curx < 80 && cury < 25
    }

    /** The screen is the last 25 rows of the terminal, and the cursors agree. */
    ghost predicate Shows(t: Terminal)
      reads this, memory
    {
      Valid() && t.Valid() && memory[..] == t.cells[|t.cells| - 2000..] && curx == t.x && cury + (t.rows - 25) == t.y
    }

    constructor ()
      ensures memory.Length == 2000 && fresh(memory) && attribute == 7 && curx == 0 && cury == 0 && tabsize == 8
    {
      memory := new Cell[2000](_ => Cell(0, 0));
      attribute, curx, cury, tabsize := 7, 0, 0, 8;
    }

    /** The colour attribute: four bits of background above four bits of foreground. */
    method SetTextColor(fg: Byte, bg: Byte)
      modifies this`attribute
      ensures attribute / 16 == bg % 16 && attribute % 16 == fg % 16
    {
      Nibbles(fg, bg);
      attribute := bg * 16 % 256 + fg % 16;
    }

    lemma Nibbles(fg: Byte, bg: Byte)
      ensures var a := bg * 16 % 256 + fg % 16; a < 256 && a / 16 == bg % 16 && a % 16 == fg % 16
    {
      var q, r := bg / 16, bg % 16;
      assert bg * 16 == 256 * q + 16 * r;
      DivisionUnique(bg * 16, 256, q, 16 * r);
    }

    /** Blank the row y from column 0 on. */
    method BlankRow(y: Byte)
      requires memory.Length == 2000 && y < 25
      modifies memory
      ensures forall i :: 0 <= i < 2000 ==>
        memory[i] == (if 80 * y <= i < 80 * y + 80 then Cell(BLANK, attribute) else old(memory[i]))
    {
      var x: Byte := 0;
      while x < 80
        invariant x <= 80
        invariant forall i :: 0 <= i < 2000 ==>
          memory[i] == (if 80 * y <= i < 80 * y + x then Cell(BLANK, attribute) else old(memory[i]))
      {
        memory[y * 80 + x] := Cell(BLANK, attribute);
        x := x + 1;
      }
    }

    method Clear()
      requires memory.Length == 2000
      modifies this`curx, this`cury, memory
      ensures Shows(Fresh(attribute))
    {
      var y: Byte := 0;
      while y < 25
        invariant y <= 25
        invariant forall i :: 0 <= i < 80 * y ==> memory[i] == Cell(BLANK, attribute)
      {
        BlankRow(y);
        y := y + 1;
      }
      curx := 0;
      cury := 0;
      assert memory[..] == Blanks(2000, attribute);
    }

    /** Move row y up by `step` rows. */
    method CopyRow(y: Byte, step: Byte)
      requires memory.Length == 2000 && step <= y < 25
      modifies memory
      ensures forall i {:trigger memory[i]} :: 0 <= i < 2000 ==>
        memory[i] ==
          (if 80 * (y - step) <= i < 80 * (y - step) + 80 then old(memory[i + 80 * step]) else old(memory[i]))
    {
      var x: Byte := 0;
      ghost var was, to, shift := memory[..], 80 * (y - step), 80 * step;
      assert to + shift == 80 * y;
      while x < 80
        invariant x <= 80
        invariant forall i {:trigger memory[i]} :: 0 <= i < 2000 ==>
          memory[i] == (if to <= i < to + x then was[i + shift] else was[i])
      {
        memory[(y - step) * 80 + x] := memory[y * 80 + x];
        x := x + 1;
      }
    }

    /** Scroll up: rows move by `step`, blank rows of the current attribute follow, the cursor moves along. */
    method Scroll(step: Byte)
      requires memory.Length == 2000
      modifies this`curx, this`cury, memory
      ensures step >= 25 ==> Shows(Fresh(attribute))
      ensures step < 25 ==>
        && memory[..] == old(memory[80 * step..]) + Blanks(80 * step, attribute)
        && curx == old(curx) && cury == (if old(cury) >= step then old(cury) - step else 0)
    {
      if step >= 25 {
        Clear();
        return;
      }
      var y := step;
      while y < 25
        invariant step <= y <= 25 && curx == old(curx) && cury == old(cury)
        invariant forall i {:trigger memory[i]} :: 0 <= i < 2000 ==>
          memory[i] == (if i < 80 * (y - step) then old(memory[i + 80 * step]) else old(memory[i]))
      {
        CopyRow(y, step);
        y := y + 1;
      }
      y := 25 - step;
      while y < 25
        invariant 25 - step <= y <= 25 && curx == old(curx) && cury == old(cury)
        invariant forall i {:trigger memory[i]} :: 0 <= i < 80 * (25 - step) ==> memory[i] == old(memory[i + 80 * step])
        invariant forall i :: 80 * (25 - step) <= i < 80 * y ==> memory[i] == Cell(BLANK, attribute)
      {
        BlankRow(y);
        y := y + 1;
      }
      cury := if cury >= step then cury - step else 0;
      assert memory[..] == old(memory[80 * step..]) + Blanks(80 * step, attribute);
    }

    /** The screen shows these cells with the cursor at (x, y), perhaps one past the end of a row or of the screen. */
    ghost predicate ShowsCells(cells: seq<Cell>, rows: nat, x: nat, y: nat)
      reads this, memory
    {
      && memory.Length == 2000 && 25 <= rows && |cells| == 80 * rows
      && memory[..] == cells[|cells| - 2000..]
      && curx == x <= 80 && rows - 25 <= y <= rows && cury + (rows - 25) == y
    }

    /** Print one character: the screen goes on showing the terminal it is printed to. */
    method PutChar(c: Byte, ghost t: Terminal)
      requires Shows(t) && tabsize > 0
      modifies this`curx, this`cury, memory
      ensures Shows(Put(t, c, attribute, tabsize))
    {
      if c == NEWLINE {
        curx := 0;
        cury := cury + 1;
        Settle(t.cells, t.rows, 0, t.y + 1);
      } else if c == TAB {
        PutTab(t);
      } else {
        PutVisible(c, t);
      }
    }

    method PutTab(ghost t: Terminal)
      requires Shows(t) && tabsize > 0
      modifies this`curx, this`cury, memory
      ensures Shows(Put(t, TAB, attribute, tabsize))
    {
      hide TabStop;
      TabStopBounds(curx, tabsize);
      ghost var cells := Erase(t.cells, t.Position(), 80 * t.y + TabStop(t.x, tabsize), attribute);
      Spaces();
      assert memory[..] == cells[|cells| - 2000..];
      Settle(cells, t.rows, TabStop(t.x, tabsize), t.y);
    }

    method PutVisible(c: Byte, ghost t: Terminal)
      requires Shows(t) && tabsize > 0 && c != NEWLINE && c != TAB
      modifies this`curx, this`cury, memory
      ensures Shows(Put(t, c, attribute, tabsize))
    {
      ghost var cells := t.cells[t.Position() := Cell(c, attribute)];
      memory[cury * 80 + curx] := Cell(c, attribute);
      curx := curx + 1;
      assert memory[..] == cells[|cells| - 2000..];
      Settle(cells, t.rows, t.x + 1, t.y);
    }

    /** Wrap at the end of a row, then scroll at the end of the screen. */
    method Settle(ghost cells: seq<Cell>, ghost rows: nat, ghost x: nat, ghost y: nat)
      requires ShowsCells(cells, rows, x, y) && (x == 80 ==> y < rows)
      modifies this`curx, this`cury, memory
      ensures Shows(Wrap(cells, rows, x, y, attribute))
    {
      if curx >= 80 {
        curx := 0;
        cury := cury + 1;
      }
      if cury >= 25 {
        Scroll(1);
        ghost var longer := cells + Blanks(80, attribute);
        assert memory[..] == longer[|longer| - 2000..];
      }
    }

    /** The loop that prints a tab. */
    method Spaces()
      requires Valid() && tabsize > 0
      modifies this`curx, memory
      ensures curx == TabStop(old(curx), tabsize)
      ensures forall i :: 0 <= i < 2000 ==>
        memory[i] == (if 80 * cury + old(curx) <= i < 80 * cury + curx then Cell(BLANK, attribute) else old(memory[i]))
    {
      var spaces := tabsize - curx % tabsize;
      var i := 0;
      while i < spaces && curx < 80
        invariant 0 <= i <= spaces && curx == old(curx) + i && curx <= 80
        invariant forall k :: 0 <= k < 2000 ==>
          memory[k] ==
            (if 80 * cury + old(curx) <= k < 80 * cury + curx then Cell(BLANK, attribute) else old(memory[k]))
      {
        memory[cury * 80 + curx] := Cell(BLANK, attribute);
        curx := curx + 1;
        i := i + 1;
      }
    }

    /** Print a C string. */
    method WriteString(s: seq<Byte>, ghost t: Terminal)
      requires Shows(t) && tabsize > 0
      modifies this`curx, this`cury, memory
      ensures Shows(PutAll(t, Text(s), attribute, tabsize))
    {
      assert t.Valid() && Valid();
      hide Put, PutAll, Shows, Terminal.Valid;
      ghost var text := Text(s);
      var i := 0;
      assert text[..0] == [];
      PutNothing(t, attribute, tabsize);
      while i < |s| && s[i] != 0
        invariant 0 <= i <= |text|
        invariant Shows(PutAll(t, text[..i], attribute, tabsize))
      {
        InText(s, i);
        PutOneMore(t, text, i, attribute, tabsize);
        PutChar(s[i], PutAll(t, text[..i], attribute, tabsize));
        i := i + 1;
      }
      assert i == |text| && text[..i] == text;
    }

    lemma InText(s: seq<Byte>, i: nat)
      requires i <= |Text(s)| && i < |s| && s[i] != 0
      ensures i < |Text(s)| && Text(s)[i] == s[i]
    {
    }
  }

  lemma PutNothing(t: Terminal, attribute: Byte, tab: nat)
    requires t.Valid() && tab > 0
    ensures PutAll(t, [], attribute, tab) == t
  {
  }

  lemma PutOneMore(t: Terminal, s: seq<Byte>, i: nat, attribute: Byte, tab: nat)
    requires t.Valid() && tab > 0 && i < |s|
    ensures PutAll(t, s[..i + 1], attribute, tab) == Put(PutAll(t, s[..i], attribute, tab), s[i], attribute, tab)
  {
    assert s[..i + 1][..i] == s[..i];
  }
}
