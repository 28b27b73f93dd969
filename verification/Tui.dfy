/** The text console `TUI`: the same screen memory, with backspace, tabs and background colours. */
module Tui {
  import opened Bits
  import opened Digits
  import opened IdealPage
  import Vga
  import opened Text

  /** The text buffer of 0x8000 bytes, in cells; the screen is its start. */
  const BUFFER: nat := 0x4000

  /** `char_t`; the colours are four bits wide. */
  datatype Cell = Cell(c: Char, fore: nat, back: nat) {
    /** The cell as the 16-bit word it is in memory. */
    function Word(): nat {
      c + 0x100 * (fore + 0x10 * back)
    }
  }

  /** Column and row are 8-bit fields. */
  datatype Terminal = Terminal(cells: seq<Cell>, col: nat, row: nat, fore: nat, back: nat) {

    predicate Valid() {
      |cells| == BUFFER && col < 0x100 && row < 0x100
    }

    function Entry(c: Char): Cell {
      Cell(c, fore, back)
    }

    function Blank(): Cell {
      Entry(SPACE)
    }

    function Index(): nat {
      row * WIDTH + col
    }

    /** Cursor positions the console gets to from its start: tabs can take the column past the edge. */
    predicate Placed() {
      |cells| == BUFFER && row < HEIGHT && col <= 252
    }

    function Escape(c: Char): Terminal
      requires Placed()
    {
      if c == NEWLINE then this.(row := row + 1, col := 0)
      else if c == TAB then this.(col := (col + if col % 4 == 0 then 4 else 4 - col % 4) % 0x100)
      else if c == BACKSPACE && col > 0 then this.(col := col - 1, cells := cells[Index() - 1 := Blank()])
      else this
    }

    function Write(c: Char): Terminal
      requires Placed()
    {
      var written := this.(cells := cells[Index() := Entry(c)]);
      if col + 1 >= WIDTH then written.(col := 0, row := row + 1) else written.(col := col + 1)
    }

    function Scroll(): Terminal
      requires |cells| == BUFFER
    {
      if row >= HEIGHT
      then this.(cells := Scrolled(cells[..SCREEN], Blank()) + cells[SCREEN..], row := HEIGHT - 1)
      else this
    }

    function Put(c: Char): (r: Terminal)
      requires Placed()
      ensures r.Valid()
    {
      (if Plain(c) then Write(c) else Escape(c)).Scroll()
    }

    predicate Shows(p: Page<Cell>) {
      && |cells| == BUFFER && row < HEIGHT && col < WIDTH && p.Valid()
      && cells[..SCREEN] == p.Screen() && Index() == p.pos - p.Top()
    }
  }

  /** Characters that are no escapes. */
  predicate Plain(c: Char) {
    c != NEWLINE && c != TAB && c != BACKSPACE
  }

  function TypeOn(p: Page<Cell>, c: Char, fore: nat, back: nat): (r: Page<Cell>)
    requires p.Valid()
    ensures r.Valid()
  {
    var blank := Cell(SPACE, fore, back);
    if c == NEWLINE then p.NewLine(blank)
    else if c == TAB then p.Tab(blank)
    else if c == BACKSPACE then p.Backspace(blank)
    else p.Type(Cell(c, fore, back), blank)
  }

  /** Whatever is typed, tabs included, the row stays on the screen and every cell written stays inside the buffer. */
  lemma {:induction false} PutKeepsPlace(t: Terminal, c: Char)
    requires t.Placed()
    ensures t.Put(c).Placed()
    ensures t.Index() < BUFFER
  {
  }

  /** The effect of each byte in numbers, before scrolling. */
  function PutInNumbers(t: Terminal, c: Char): Terminal
    requires t.Placed()
  {
    if c == 8 then
      if t.col == 0 then t else t.(cells := t.cells[80 * t.row + t.col - 1 := Cell(32, t.fore, t.back)], col := t.col - 1)
    else if c == 9 then t.(col := (t.col / 4 * 4 + 4) % 256)
    else if c == 10 then t.(col := 0, row := t.row + 1)
    else
      var w := t.(cells := t.cells[80 * t.row + t.col := Cell(c, t.fore, t.back)]);
      if t.col < 79 then w.(col := t.col + 1) else w.(col := 0, row := t.row + 1)
  }

  lemma PutIsInNumbers(t: Terminal, c: Char)
    requires t.Placed()
    ensures var u := PutInNumbers(t, c);
      t.Put(c) == if u.row < 25 then u
                  else u.(cells := u.cells[80..2000] + seq(80, _ => Cell(32, t.fore, t.back)) + u.cells[2000..], row := 24)
  {
    var u := PutInNumbers(t, c);
    assert u.row >= 25 ==> u.cells[..SCREEN][WIDTH..] == u.cells[80..2000];
  }

  /** One character keeps the screen on the end of the page exactly when it is not a tab in the last four columns:
      such a tab leaves the column at the width instead of going to the next row. */
  lemma PutRefinesIff(t: Terminal, p: Page<Cell>, c: Char)
    requires t.Shows(p)
    ensures t.Put(c).Shows(TypeOn(p, c, t.fore, t.back)) <==> !(c == TAB && t.col >= WIDTH - 4)
  {
    CursorOnPage(t, p);
    if c == NEWLINE {
      NewLineRefines(t, p);
    } else if c == TAB {
      TabRefines(t, p);
    } else if c == BACKSPACE {
      BackspaceRefines(t, p);
    } else {
      WriteRefines(t, p, c);
    }
  }

  lemma CursorOnPage(t: Terminal, p: Page<Cell>)
    requires t.Shows(p)
    ensures p.pos % WIDTH == t.col && p.pos % 4 == t.col % 4
    ensures (p.pos / WIDTH + 1) * WIDTH == p.pos - t.col + WIDTH
    ensures p.pos - t.col + WIDTH == |p.cells| <==> t.row == HEIGHT - 1
  {
    assert p.Top() % WIDTH == 0;
  }

  lemma NewLineRefines(t: Terminal, p: Page<Cell>)
    requires t.Shows(p)
    ensures t.Put(NEWLINE).Shows(TypeOn(p, NEWLINE, t.fore, t.back))
  {
    CursorOnPage(t, p);
    ScreenNewLine(p, t.Blank());
  }

  lemma TabRefines(t: Terminal, p: Page<Cell>)
    requires t.Shows(p)
    ensures t.Put(TAB).Shows(TypeOn(p, TAB, t.fore, t.back)) <==> t.col < WIDTH - 4
  {
    CursorOnPage(t, p);
  }

  lemma BackspaceRefines(t: Terminal, p: Page<Cell>)
    requires t.Shows(p)
    ensures t.Put(BACKSPACE).Shows(TypeOn(p, BACKSPACE, t.fore, t.back))
  {
    CursorOnPage(t, p);
  }

  lemma WriteRefines(t: Terminal, p: Page<Cell>, c: Char)
    requires t.Shows(p) && Plain(c)
    ensures t.Put(c).Shows(TypeOn(p, c, t.fore, t.back))
  {
    CursorOnPage(t, p);
    ScreenTyped(p, t.Entry(c), t.Blank());
  }

  lemma TabAtEdge(t: Terminal)
    requires |t.cells| == BUFFER && WIDTH - 4 <= t.col < WIDTH && t.row < HEIGHT - 1
    ensures t.Put(TAB) == t.(col := WIDTH)
  {
  }

  lemma WriteBehindEdge(t: Terminal, a: Char, b: Char)
    requires |t.cells| == BUFFER && t.col == WIDTH && t.row < HEIGHT - 1 && Plain(a) && Plain(b)
    ensures t.Put(a).Placed()
    ensures t.Put(a).Put(b).cells == t.cells[(t.row + 1) * WIDTH := t.Entry(b)]
  {
    var k := (t.row + 1) * WIDTH;
    var v := t.Put(a);
    assert v == t.(cells := t.cells[k := t.Entry(a)], col := 0, row := t.row + 1);
    assert v.Put(b).cells == v.cells[k := t.Entry(b)];
  }

  /** Two characters typed behind such a tab land on the same cell, so the first is lost. */
  lemma TabLosesCharacter(t: Terminal, a: Char, b: Char)
    requires |t.cells| == BUFFER && WIDTH - 4 <= t.col < WIDTH && t.row < HEIGHT - 1
    requires Plain(a) && Plain(b)
    ensures Run(t, [TAB, a, b]).cells == t.cells[(t.row + 1) * WIDTH := t.Entry(b)]
  {
    TabAtEdge(t);
    WriteBehindEdge(t.(col := WIDTH), a, b);
    RunThree(t, TAB, a, b);
  }

  lemma RunThree(t: Terminal, a: Char, b: Char, c: Char)
    requires t.Placed() && t.Put(a).Placed() && t.Put(a).Put(b).Placed()
    ensures Run(t, [a, b, c]) == t.Put(a).Put(b).Put(c)
  {
    assert [a, b, c][..2] == [a, b] && [a, b][..1] == [a] && [a][..0] == [];
    assert Run(t, [a]) == t.Put(a);
    assert Run(t, [a, b]) == t.Put(a).Put(b);
  }

  lemma TypeInside(p: Page<Cell>, c: Cell, blank: Cell)
    requires p.Valid() && p.pos + 1 < |p.cells|
    ensures p.Type(c, blank) == Page(p.cells[p.pos := c], p.pos + 1)
  {
  }

  lemma TabToNextRow(p: Page<Cell>, blank: Cell)
    requires p.Valid() && WIDTH - 4 <= p.pos % WIDTH
    ensures var q := p.Tab(blank); q.pos == (p.pos / WIDTH + 1) * WIDTH && q.pos + WIDTH <= |q.cells|
  {
  }

  /** The page keeps both characters. */
  lemma TabKeepsCharacter(p: Page<Cell>, a: Cell, b: Cell, blank: Cell)
    requires p.Valid() && WIDTH - 4 <= p.pos % WIDTH
    ensures var q := p.Tab(blank).Type(a, blank).Type(b, blank); var k := (p.pos / WIDTH + 1) * WIDTH;
      k + 1 < |q.cells| && q.cells[k] == a && q.cells[k + 1] == b
  {
    var q := p.Tab(blank);
    TabToNextRow(p, blank);
    TypeInside(q, a, blank);
    TypeInside(q.Type(a, blank), b, blank);
  }

  predicate TabFits(t: Terminal, c: Char) {
    c == TAB ==> t.col < WIDTH - 4
  }

  function Run(t: Terminal, text: seq<Char>): (r: Terminal)
    requires t.Placed()
    ensures r.Placed()
  {
    if text == [] then t
    else
      var u := Run(t, text[..|text| - 1]);
      PutKeepsPlace(u, text[|text| - 1]);
      u.Put(text[|text| - 1])
  }

  function PageRun(p: Page<Cell>, text: seq<Char>, fore: nat, back: nat): (r: Page<Cell>)
    requires p.Valid()
    ensures r.Valid()
  {
    if text == [] then p else TypeOn(PageRun(p, text[..|text| - 1], fore, back), text[|text| - 1], fore, back)
  }

  /** Every tab of a text is typed left of the last four columns. */
  ghost predicate TabsFit(t: Terminal, text: seq<Char>)
    requires t.Placed()
  {
    forall i | 0 <= i < |text| :: TabFits(Run(t, text[..i]), text[i])
  }

  /** A text with backspaces and fitting tabs is shown as the end of its page. */
  lemma {:induction false} RunShowsPage(t: Terminal, p: Page<Cell>, text: seq<Char>)
    requires t.Shows(p) && TabsFit(t, text)
    ensures Run(t, text).Shows(PageRun(p, text, t.fore, t.back))
    ensures Run(t, text).fore == t.fore && Run(t, text).back == t.back
  {
    if text != [] {
      var n := |text| - 1;
      var rest := text[..n];
      forall i | 0 <= i < n
        ensures TabFits(Run(t, rest[..i]), rest[i])
      {
        assert rest[..i] == text[..i];
        assert TabFits(Run(t, text[..i]), text[i]);
      }
      RunShowsPage(t, p, rest);
      assert TabFits(Run(t, text[..n]), text[n]);
      PutRefinesIff(Run(t, rest), PageRun(p, rest, t.fore, t.back), text[n]);
    }
  }

  /** The screen shows the end of the page after every character of the text. */
  ghost predicate ShowsThroughout(t: Terminal, p: Page<Cell>, text: seq<Char>)
    requires t.Placed() && p.Valid()
  {
    forall i | 0 <= i <= |text| :: Run(t, text[..i]).Shows(PageRun(p, text[..i], t.fore, t.back))
  }

  /** A text is shown throughout exactly when every tab in it is typed left of the last four columns. */
  lemma ShowsThroughoutIff(t: Terminal, p: Page<Cell>, text: seq<Char>)
    requires t.Shows(p)
    ensures ShowsThroughout(t, p, text) <==> TabsFit(t, text)
  {
    if TabsFit(t, text) {
      forall i | 0 <= i <= |text|
        ensures Run(t, text[..i]).Shows(PageRun(p, text[..i], t.fore, t.back))
      {
        PrefixFits(t, text, i);
        RunShowsPage(t, p, text[..i]);
      }
    }
    if ShowsThroughout(t, p, text) {
      forall i | 0 <= i < |text|
        ensures TabFits(Run(t, text[..i]), text[i])
      {
        ShownTabFits(t, p, text, i);
      }
    }
  }

  lemma PrefixFits(t: Terminal, text: seq<Char>, n: nat)
    requires t.Placed() && TabsFit(t, text) && n <= |text|
    ensures TabsFit(t, text[..n])
  {
    forall i | 0 <= i < n
      ensures TabFits(Run(t, text[..n][..i]), text[..n][i])
    {
      assert text[..n][..i] == text[..i];
      assert TabFits(Run(t, text[..i]), text[i]);
    }
  }

  lemma {:induction false} RunKeepsColors(t: Terminal, text: seq<Char>)
    requires t.Placed()
    ensures Run(t, text).fore == t.fore && Run(t, text).back == t.back
  {
    if text != [] {
      RunKeepsColors(t, text[..|text| - 1]);
    }
  }

  lemma ShownTabFits(t: Terminal, p: Page<Cell>, text: seq<Char>, i: nat)
    requires t.Shows(p) && i < |text| && ShowsThroughout(t, p, text)
    ensures TabFits(Run(t, text[..i]), text[i])
  {
    var before, after := text[..i], text[..i + 1];
    assert after[..i] == before && after[i] == text[i];
    assert Run(t, before).Shows(PageRun(p, before, t.fore, t.back));
    assert Run(t, after).Shows(PageRun(p, after, t.fore, t.back));
    RunKeepsColors(t, before);
    PutRefinesIff(Run(t, before), PageRun(p, before, t.fore, t.back), text[i]);
  }

  /** Both consoles show the same words and stand at the same place, in the same colour on black. */
  predicate Agree(v: Vga.Console, t: Terminal) {
    && v.Valid() && |t.cells| == BUFFER && t.fore < 0x10
    && v.x == t.col && v.y == t.row && v.color == t.fore && t.back == 0
    && forall k | 0 <= k < SCREEN :: v.cells[k] == t.cells[k].Word()
  }

  /** Characters both consoles treat alike. */
  predicate Common(c: Char) {
    c != TAB && c != BACKSPACE && c < 0x80
  }

  lemma PutAgrees(v: Vga.Console, t: Terminal, c: Char)
    requires Agree(v, t) && Common(c)
    ensures Agree(v.Put(c), t.Put(c))
  {
  }

  /** The one case in which a tab leaves them alike: it moves one column, over a cell that shows the sign the other driver writes. */
  predicate TabUnseen(v: Vga.Console, c: Char)
    requires v.Valid()
  {
    c == TAB && v.x % 4 == 3 && v.x < WIDTH - 1 && v.cells[v.y * WIDTH + v.x] == Vga.Entry(TAB, v.color)
  }

  /** After one character the consoles still agree exactly when they treat it alike, or it is such a tab. */
  lemma PutAgreesIff(v: Vga.Console, t: Terminal, c: Char)
    requires Agree(v, t)
    ensures Agree(v.Put(c), t.Put(c)) <==> Common(c) || TabUnseen(v, c)
  {
    if Common(c) {
      PutAgrees(v, t, c);
    } else if c == TAB {
      TabAgreesIff(v, t);
    } else if c == BACKSPACE {
      BackspaceDisagrees(v, t);
    } else {
      HighDisagrees(v, t, c);
    }
  }

  lemma TabAgreesIff(v: Vga.Console, t: Terminal)
    requires Agree(v, t)
    ensures Agree(v.Put(TAB), t.Put(TAB)) <==> TabUnseen(v, TAB)
  {
    var k := v.y * WIDTH + v.x;
    if v.x < WIDTH - 1 {
      assert v.Put(TAB) == v.(cells := v.cells[k := Vga.Entry(TAB, v.color)], x := v.x + 1);
      assert t.Put(TAB).cells == t.cells;
      assert v.cells[k] == t.cells[k].Word();
    }
  }

  lemma BackspaceDisagrees(v: Vga.Console, t: Terminal)
    requires Agree(v, t)
    ensures !Agree(v.Put(BACKSPACE), t.Put(BACKSPACE))
  {
  }

  /** The extended sign of the character shows in the colour byte of the one console only. */
  lemma HighDisagrees(v: Vga.Console, t: Terminal, c: Char)
    requires Agree(v, t) && c >= 0x80
    ensures !Agree(v.Put(c), t.Put(c))
  {
    var k := v.y * WIDTH + v.x;
    var last := k == SCREEN - 1;
    var j := if last then k - WIDTH else k;
    assert v.Put(c).cells[j] == 0xFF00 + c;
    assert t.Put(c).cells[j] == t.Entry(c);
  }

  /** From agreeing screens, any text of ASCII characters but tab and backspace leaves the two drivers with the same
      memory words, cursor and colour. */
  lemma {:induction false} RunsAgree(v: Vga.Console, t: Terminal, text: seq<Char>)
    requires Agree(v, t) && forall c | c in text :: Common(c)
    ensures Agree(Vga.Run(v, Vga.Typing(text)), Run(t, text))
  {
    if text != [] {
      var rest := text[..|text| - 1];
      assert Vga.Typing(text)[..|text| - 1] == Vga.Typing(rest);
      RunsAgree(v, t, rest);
      PutAgrees(Vga.Run(v, Vga.Typing(rest)), Run(t, rest), text[|text| - 1]);
    }
  }

  /** Running a text in two parts is running it at once. */
  lemma {:induction false} RunInParts(t: Terminal, s1: seq<Char>, s2: seq<Char>)
    requires t.Placed()
    ensures Run(t, s1 + s2) == Run(Run(t, s1), s2)
    decreases |s2|
  {
    if s2 == [] {
      assert s1 + s2 == s1;
    } else {
      var rest, c := s2[..|s2| - 1], s2[|s2| - 1];
      assert (s1 + s2)[..|s1 + s2| - 1] == s1 + rest;
      RunInParts(t, s1, rest);
    }
  }

  /** Reading the colour gives the foreground set before exactly when the background has no bit that it lacks. */
  lemma ColorReadsBackIff(fore: nat, back: nat)
    requires fore < 0x10
    ensures BitOr(back, fore, 4) == fore <==> BitsWithin(back, fore, 4)
    ensures back == 0 ==> BitOr(back, fore, 4) == fore
  {
    assert Power(2, 4) == 0x10;
    MixIsFirstIff(back, fore, 4);
  }

  class Screen {
    const buffer: array<Cell>
    var col: nat
    var row: nat
    var fore: nat
    var back: nat

    ghost predicate Valid()
      reads this, buffer
    {
      buffer.Length == BUFFER && Model().Placed()
    }

    ghost function Model(): Terminal
      reads this, buffer
    {
      Terminal(buffer[..], col, row, fore, back)
    }

    constructor (buffer: array<Cell>)
      requires buffer.Length == BUFFER
      ensures Valid() && this.buffer == buffer && col == row == 0 && fore == 15 && back == 0
    {
      this.buffer := buffer;
      col, row, fore, back := 0, 0, 15, 0;
    }

    /** The colour fields keep four bits. */
    method SetColor(fore: nat, back: nat)
      requires Valid()
      modifies this`fore, this`back
      ensures Valid() && Model() == old(Model()).(fore := fore % 0x10, back := back % 0x10)
    {
      this.fore, this.back := fore % 0x10, back % 0x10;
    }

    /** Both colours in one: the foreground alone exactly when the background has no bit of its own. */
    method GetColor() returns (color: nat)
      ensures color == BitOr(back, fore, 4)
      ensures forall k: nat | k < 4 :: HasBit(color, k) <==> HasBit(back, k) || HasBit(fore, k)
      ensures fore < 0x10 ==> (color == fore <==> BitsWithin(back, fore, 4))
    {
      color := BitOr(back, fore, 4);
      forall k: nat | k < 4
        ensures HasBit(color, k) <==> HasBit(back, k) || HasBit(fore, k)
      {
        BitOrIsUnion(back, fore, 4, k);
      }
      if fore < 0x10 {
        ColorReadsBackIff(fore, back);
      }
    }

    method EscapeConv(c: Char) returns (done: bool)
      requires Valid()
      modifies this`col, this`row, buffer
      ensures done == !Plain(c)
      ensures Model() == if done then old(Model()).Escape(c) else old(Model())
    {
      if c == NEWLINE {
        row := row + 1;
        col := 0;
        return true;
      } else if c == TAB {
        col := (col + if col % 4 == 0 then 4 else 4 - col % 4) % 0x100;
        return true;
      } else if c == BACKSPACE {
        if col > 0 {
          ghost var was := buffer[..];
          col := col - 1;
          buffer[row * WIDTH + col] := Cell(SPACE, fore, back);
          assert buffer[..] == was[row * WIDTH + col := Cell(SPACE, fore, back)];
        }
        return true;
      }
      return false;
    }

    method Scroll()
      requires buffer.Length == BUFFER
      modifies this`row, buffer
      ensures Model() == old(Model()).Scroll()
    {
      if row >= HEIGHT {
        ghost var was := buffer[..];
        for i := 0 to (HEIGHT - 1) * WIDTH
          invariant forall k | 0 <= k < i :: buffer[k] == was[k + WIDTH]
          invariant forall k | i <= k < BUFFER :: buffer[k] == was[k]
        {
          buffer[i] := buffer[i + WIDTH];
        }
        for i := (HEIGHT - 1) * WIDTH to HEIGHT * WIDTH
          invariant forall k | 0 <= k < SCREEN - WIDTH :: buffer[k] == was[k + WIDTH]
          invariant forall k | SCREEN - WIDTH <= k < i :: buffer[k] == Cell(SPACE, fore, back)
          invariant forall k | SCREEN <= k < BUFFER :: buffer[k] == was[k]
        {
          buffer[i] := Cell(SPACE, fore, back);
        }
        assert buffer[..SCREEN] == Scrolled(was[..SCREEN], Cell(SPACE, fore, back));
        assert buffer[..] == buffer[..SCREEN] + was[SCREEN..];
        row := HEIGHT - 1;
      }
    }

    method PutChar(c: Char)
      requires Valid()
      modifies this`col, this`row, buffer
      ensures Valid() && Model() == old(Model()).Put(c)
    {
      PutKeepsPlace(Model(), c);
      var done := EscapeConv(c);
      if !done {
        ghost var was := buffer[..];
        buffer[row * WIDTH + col] := Cell(c, fore, back);
        assert buffer[..] == was[row * WIDTH + col := Cell(c, fore, back)];
        col := col + 1;
        if col >= WIDTH {
          col := 0;
          row := row + 1;
        }
      }
      Scroll();
    }

    /** Writes a string of known length. */
    method WriteAll(s: seq<Char>)
      requires Valid()
      modifies this`col, this`row, buffer
      ensures Valid() && Model() == Run(old(Model()), s)
    {
      ghost var t := Model();
      for i := 0 to |s|
        invariant Valid() && Model() == Run(t, s[..i])
      {
        PutChar(s[i]);
        assert s[..i + 1][..i] == s[..i];
      }
      assert s[..|s|] == s;
    }

    method Clear()
      requires buffer.Length == BUFFER
      modifies this`col, this`row, buffer
      ensures Valid() && Model().Shows(FreshPage(Cell(SPACE, fore, back)))
      ensures buffer[SCREEN..] == old(buffer[SCREEN..])
    {
      ghost var was := buffer[..];
      for y := 0 to HEIGHT
        invariant forall k | 0 <= k < y * WIDTH :: buffer[k] == Cell(SPACE, fore, back)
        invariant forall k | SCREEN <= k < BUFFER :: buffer[k] == was[k]
      {
        for x := 0 to WIDTH
          invariant forall k | 0 <= k < y * WIDTH + x :: buffer[k] == Cell(SPACE, fore, back)
          invariant forall k | SCREEN <= k < BUFFER :: buffer[k] == was[k]
        {
          buffer[y * WIDTH + x] := Cell(SPACE, fore, back);
        }
      }
      col, row := 0, 0;
    }
  }
}
