/** The VGA text driver of early start-up: a cell array, a cursor, and scrolling in place. */
module Vga {
  import opened IdealPage
  import opened Text

  /** `vga_entry`: a signed character at or above 0x80 extends over the colour byte. */
  function Entry(c: Char, fg: nat): nat {
    if c < 0x80 then c + 0x100 * fg else 0xFF00 + c
  }

  datatype Console = Console(cells: seq<nat>, x: nat, y: nat, color: nat) {

    predicate Valid() {
      |cells| == SCREEN && x < WIDTH && y < HEIGHT
    }

    function Blank(): nat {
      Entry(SPACE, color)
    }

    function Scroll(): Console
      requires |cells| == SCREEN
    {
      Console(Scrolled(cells, Blank()), 0, HEIGHT - 1, color)
    }

    function Put(c: Char): (r: Console)
      requires Valid()
      ensures r.Valid()
    {
      var moved :=
        if c == NEWLINE then this.(x := 0, y := y + 1)
        else
          var written := this.(cells := cells[y * WIDTH + x := Entry(c, color)]);
          if x + 1 == WIDTH then written.(x := 0, y := y + 1) else written.(x := x + 1);
      if moved.y >= HEIGHT then moved.Scroll() else moved
    }

    function Init(): Console {
      Console(Blanks(Blank(), SCREEN), 0, 0, color)
    }

    /** The screen shows the end of the page, and the cursor stands where typing goes on. */
    predicate Shows(p: Page<nat>) {
      Valid() && p.Valid() && cells == p.Screen() && y * WIDTH + x == p.pos - p.Top()
    }
  }

  function TypeOn(p: Page<nat>, c: Char, color: nat): (r: Page<nat>)
    requires p.Valid()
    ensures r.Valid()
  {
    if c == NEWLINE then p.NewLine(Entry(SPACE, color)) else p.Type(Entry(c, color), Entry(SPACE, color))
  }

  /** The effect of each byte in numbers, and what scrolling away the first row makes of it. */
  lemma PutInNumbers(v: Console, c: Char)
    requires v.Valid()
    ensures var word := if c < 128 then c + 256 * v.color else 65280 + c;
      var written := if c == 10 then v.cells else v.cells[80 * v.y + v.x := word];
      var (x, y) := if c == 10 || v.x == 79 then (0, v.y + 1) else (v.x + 1, v.y);
      v.Put(c) == if y < 25 then Console(written, x, y, v.color)
                  else Console(written[80..] + seq(80, _ => 32 + 256 * v.color), 0, 24, v.color)
  {
  }

  /** One character keeps the screen on the end of the page. */
  lemma PutRefines(v: Console, p: Page<nat>, c: Char)
    requires v.Shows(p)
    ensures v.Put(c).Shows(TypeOn(p, c, v.color))
  {
    var k := v.y * WIDTH + v.x;
    assert p.pos % WIDTH == v.x && p.Top() % WIDTH == 0;
    if c == NEWLINE {
      ScreenNewLine(p, v.Blank());
    } else {
      ScreenTyped(p, Entry(c, v.color), v.Blank());
    }
  }

  datatype Event = Typed(c: Char) | ColorSet(fg: nat)

  function Run(v: Console, es: seq<Event>): (r: Console)
    requires v.Valid()
    ensures r.Valid()
  {
    if es == [] then v
    else
      var u := Run(v, es[..|es| - 1]);
      match es[|es| - 1]
      case Typed(c) => u.Put(c)
      case ColorSet(fg) => u.(color := fg)
  }

  /** The page the events describe, and the colour they leave. */
  function PageOf(color: nat, es: seq<Event>): (r: (Page<nat>, nat))
    ensures r.0.Valid()
  {
    if es == [] then (FreshPage(Entry(SPACE, color)), color)
    else
      var (p, fg) := PageOf(color, es[..|es| - 1]);
      match es[|es| - 1]
      case Typed(c) => (TypeOn(p, c, fg), fg)
      case ColorSet(f) => (p, f)
  }

  /** After start-up and any run of characters and colour changes, the screen is the last 25 rows of the page. */
  lemma {:induction false} RunShowsPage(v: Console, es: seq<Event>)
    requires v.Valid()
    ensures Run(v.Init(), es).Shows(PageOf(v.color, es).0)
    ensures Run(v.Init(), es).color == PageOf(v.color, es).1
  {
    if es != [] {
      var rest := es[..|es| - 1];
      RunShowsPage(v, rest);
      if es[|es| - 1].Typed? {
        PutRefines(Run(v.Init(), rest), PageOf(v.color, rest).0, es[|es| - 1].c);
      }
    }
  }

  /** Text with every line filled up with spaces to the full width. */
  function Filled(text: seq<Char>): seq<Char> {
    if text == [] then []
    else
      var s, c := Filled(text[..|text| - 1]), text[|text| - 1];
      if c == NEWLINE then s + Blanks(SPACE, WIDTH - |s| % WIDTH) else s + [c]
  }

  function Typing(text: seq<Char>): (es: seq<Event>)
    ensures |es| == |text|
  {
    seq(|text|, i requires 0 <= i < |text| => Typed(text[i]))
  }

  /** Rows the page has when `n` cells are filled: at least a screen, and always one with room for the next character. */
  function RowsFor(n: nat): nat {
    if n / WIDTH + 1 < HEIGHT then HEIGHT else n / WIDTH + 1
  }

  /** The page is the filled text followed by blanks, all in one colour. */
  ghost predicate HoldsText(p: Page<nat>, s: seq<Char>, color: nat) {
    && p.Valid() && p.pos == |s| && |p.cells| == RowsFor(p.pos) * WIDTH
    && (forall i | 0 <= i < p.pos :: p.cells[i] == Entry(s[i], color))
    && (forall i | p.pos <= i < |p.cells| :: p.cells[i] == Entry(SPACE, color))
  }

  lemma TypedCharacter(p: Page<nat>, s: seq<Char>, color: nat, c: Char)
    requires HoldsText(p, s, color) && c != NEWLINE
    ensures HoldsText(TypeOn(p, c, color), s + [c], color)
  {
  }

  lemma TypedNewLine(p: Page<nat>, s: seq<Char>, color: nat)
    requires HoldsText(p, s, color)
    ensures HoldsText(TypeOn(p, NEWLINE, color), s + Blanks(SPACE, WIDTH - |s| % WIDTH), color)
  {
    assert p.pos == p.pos / WIDTH * WIDTH + p.pos % WIDTH;
  }

  /** In one colour the page is the filled text: no character is lost, moved or written twice. */
  lemma {:induction false} PageIsText(color: nat, text: seq<Char>)
    ensures PageOf(color, Typing(text)).1 == color
    ensures HoldsText(PageOf(color, Typing(text)).0, Filled(text), color)
  {
    if text != [] {
      var rest, c := text[..|text| - 1], text[|text| - 1];
      assert Typing(text)[..|text| - 1] == Typing(rest);
      PageIsText(color, rest);
      var p := PageOf(color, Typing(rest)).0;
      if c == NEWLINE {
        TypedNewLine(p, Filled(rest), color);
      } else {
        TypedCharacter(p, Filled(rest), color, c);
      }
    }
  }

  /** Row `y` of the screen after typing a text is row `RowsFor(n) - 25 + y` of the filled text. */
  lemma ScreenIsText(v: Console, text: seq<Char>)
    requires v.Valid()
    ensures var u := Run(v.Init(), Typing(text)); var s := Filled(text); var top := (RowsFor(|s|) - HEIGHT) * WIDTH;
      && top + u.y * WIDTH + u.x == |s|
      && (forall k | 0 <= k < SCREEN :: u.cells[k] == Entry(if top + k < |s| then s[top + k] else SPACE, v.color))
  {
    RunShowsPage(v, Typing(text));
    PageIsText(v.color, text);
  }

  class Driver {
    const mem: array<nat>
    var cursorX: nat
    var cursorY: nat
    var currentColor: nat

    ghost predicate Valid()
      reads this, mem
    {
      mem.Length == SCREEN && Model().Valid()
    }

    ghost function Model(): Console
      reads this, mem
    {
      Console(mem[..], cursorX, cursorY, currentColor)
    }

    constructor (mem: array<nat>)
      requires mem.Length == SCREEN
      ensures Valid() && this.mem == mem && currentColor == 7 && cursorX == cursorY == 0
    {
      this.mem := mem;
      cursorX, cursorY, currentColor := 0, 0, 7;
    }

    method Scroll()
      requires mem.Length == SCREEN
      modifies this`cursorX, this`cursorY, mem
      ensures Model() == old(Model()).Scroll()
    {
      ghost var was := mem[..];
      for y := 0 to HEIGHT - 1
        invariant forall k | 0 <= k < y * WIDTH :: mem[k] == was[k + WIDTH]
        invariant forall k | y * WIDTH <= k < SCREEN :: mem[k] == was[k]
      {
        for x := 0 to WIDTH
          invariant forall k | 0 <= k < y * WIDTH + x :: mem[k] == was[k + WIDTH]
          invariant forall k | y * WIDTH + x <= k < SCREEN :: mem[k] == was[k]
        {
          mem[y * WIDTH + x] := mem[(y + 1) * WIDTH + x];
        }
      }
      for x := 0 to WIDTH
        invariant forall k | 0 <= k < SCREEN - WIDTH :: mem[k] == was[k + WIDTH]
        invariant forall k | SCREEN - WIDTH <= k < SCREEN - WIDTH + x :: mem[k] == Entry(SPACE, currentColor)
      {
        mem[(HEIGHT - 1) * WIDTH + x] := Entry(SPACE, currentColor);
      }
      cursorY := HEIGHT - 1;
      cursorX := 0;
      assert mem[..] == Scrolled(was, Entry(SPACE, currentColor));
    }

    method PutChar(c: Char)
      requires Valid()
      modifies this`cursorX, this`cursorY, mem
      ensures Valid() && Model() == old(Model()).Put(c)
    {
      if c == NEWLINE {
        cursorX := 0;
        cursorY := cursorY + 1;
      } else {
        ghost var was := mem[..];
        mem[cursorY * WIDTH + cursorX] := Entry(c, currentColor);
        assert mem[..] == was[cursorY * WIDTH + cursorX := Entry(c, currentColor)];
        cursorX := cursorX + 1;
        if cursorX == WIDTH {
          cursorX := 0;
          cursorY := cursorY + 1;
        }
      }
      if cursorY >= HEIGHT {
        Scroll();
      }
    }

    /** Prints up to the terminating NUL. */
    method Puts(s: seq<Char>, ghost n: nat)
      requires Valid() && n < |s| && s[n] == 0 && forall i | 0 <= i < n :: s[i] != 0
      modifies this`cursorX, this`cursorY, mem
      ensures Valid() && Model() == Run(old(Model()), Typing(s[..n]))
    {
      ghost var v := Model();
      assert Typing(s[..0]) == [];
      var i := 0;
      while s[i] != 0
        invariant i <= n && Valid() && Model() == Run(v, Typing(s[..i]))
        decreases n - i
      {
        PutChar(s[i]);
        assert Typing(s[..i + 1])[..i] == Typing(s[..i]);
        i := i + 1;
      }
    }

    method Init()
      requires mem.Length == SCREEN
      modifies this`cursorX, this`cursorY, mem
      ensures Valid() && Model() == old(Model()).Init()
    {
      for i := 0 to SCREEN
        invariant forall k | 0 <= k < i :: mem[k] == Entry(SPACE, currentColor)
      {
        mem[i] := Entry(SPACE, currentColor);
      }
      cursorX := 0;
      cursorY := 0;
      assert mem[..] == Blanks(Entry(SPACE, currentColor), SCREEN);
    }

    method SetColor(fg: nat)
      requires Valid()
      modifies this`currentColor
      ensures Valid() && Model() == Run(old(Model()), [ColorSet(fg)])
    {
      currentColor := fg;
    }
  }
}
