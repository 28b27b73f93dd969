/** An endless page of 80 columns, kept as one strip of cells, and the part of it a 25-row screen shows. */
module IdealPage {
  const WIDTH: nat := 80
  const HEIGHT: nat := 25
  const SCREEN: nat := WIDTH * HEIGHT

  function Blanks<C>(c: C, n: nat): (s: seq<C>)
    ensures |s| == n && forall k | 0 <= k < n :: s[k] == c
  {
    seq(n, _ => c)
  }

  /** Typing goes on at `pos`; a row is added, all blank, when typing reaches the end of the strip. */
  datatype Page<C> = Page(cells: seq<C>, pos: nat) {

    predicate Valid() {
      |cells| >= SCREEN && |cells| % WIDTH == 0 && |cells| - SCREEN <= pos < |cells|
    }

    function Settle(blank: C): Page<C> {
      if pos == |cells| then this.(cells := cells + Blanks(blank, WIDTH)) else this
    }

    function Type(c: C, blank: C): (r: Page<C>)
      requires Valid()
      ensures r.Valid()
    {
      Page(cells[pos := c], pos + 1).Settle(blank)
    }

    function NewLine(blank: C): (r: Page<C>)
      requires Valid()
      ensures r.Valid()
    {
      Page(cells, (pos / WIDTH + 1) * WIDTH).Settle(blank)
    }

    /** Within a row only. */
    function Backspace(blank: C): (r: Page<C>)
      requires Valid()
      ensures r.Valid()
    {
      if pos % WIDTH == 0 then this else Page(cells[pos - 1 := blank], pos - 1)
    }

    /** To the next multiple of four columns, which may be the start of the next row. */
    function Tab(blank: C): (r: Page<C>)
      requires Valid()
      ensures r.Valid()
    {
      Page(cells, pos + 4 - pos % 4).Settle(blank)
    }

    function Top(): nat
      requires Valid()
    {
      |cells| - SCREEN
    }

    /** The last 25 rows. */
    function Screen(): (s: seq<C>)
      requires Valid()
      ensures |s| == SCREEN
    {
      cells[Top()..]
    }
  }

  function FreshPage<C>(blank: C): (p: Page<C>)
    ensures p.Valid()
  {
    Page(Blanks(blank, SCREEN), 0)
  }

  function Scrolled<C>(s: seq<C>, blank: C): (r: seq<C>)
    requires |s| >= WIDTH
    ensures |r| == |s|
  {
    s[WIDTH..] + Blanks(blank, WIDTH)
  }

  lemma ScreenTyped<C>(p: Page<C>, c: C, blank: C)
    requires p.Valid()
    ensures var s := p.Screen()[p.pos - p.Top() := c];
      p.Type(c, blank).Screen() == if p.pos + 1 == |p.cells| then Scrolled(s, blank) else s
  {
  }

  lemma ScreenNewLine<C>(p: Page<C>, blank: C)
    requires p.Valid()
    ensures p.NewLine(blank).Screen()
      == if (p.pos / WIDTH + 1) * WIDTH == |p.cells| then Scrolled(p.Screen(), blank) else p.Screen()
  {
  }
}
