/** `printf` on the text console: the text goes through a buffer of 512 characters, which is cleared afterwards. */
module Printf {
  import opened Common
  import opened IdealPage
  import opened Text
  import opened NumberFormat
  import Bits
  import opened FormatSpec
  import opened Vsprintf
  import PrintfLaws
  import Tui

  const BUF_SIZE: nat := 512

  /** Index of the first NUL, or the length. */
  function FirstNul(s: seq<Char>): (n: nat)
    ensures n <= |s| && NoNul(s[..n]) && (n < |s| ==> s[n] == NUL)
  {
    if s == [] || s[0] == NUL then 0
    else
      var n := FirstNul(s[1..]);
      assert s[..n + 1] == [s[0]] + s[1..][..n];
      n + 1
  }

  /** The part of a formatted text that reaches the screen. */
  function Shown(text: seq<Char>): seq<Char> {
    text[..FirstNul(text[..Min(|text|, BUF_SIZE - 1)])]
  }

  /** Everything is shown exactly when it fits and `%c` put no NUL into it. */
  lemma ShownWholeIff(text: seq<Char>)
    ensures Shown(text) == text <==> |text| < BUF_SIZE && NoNul(text)
  {
    if |text| < BUF_SIZE {
      assert text[..|text|] == text;
      if NoNul(text) {
        assert FirstNul(text) == |text|;
      } else {
        assert FirstNul(text) < |text|;
      }
    }
  }

  /** What is shown is the start of the text up to its first NUL, or its first 511 characters if there is none before. */
  lemma ShownIs(text: seq<Char>)
    ensures Shown(text) <= text && |Shown(text)| <= 511 && forall c | c in Shown(text) :: c != 0
    ensures |Shown(text)| < |text| ==> |Shown(text)| == 511 || text[|Shown(text)|] == 0
  {
    var head := text[..Min(|text|, BUF_SIZE - 1)];
    var n := FirstNul(head);
    assert head[..n] == text[..n];
    assert n < |head| ==> head[n] == text[n];
  }

  /** The buffer, read as a string, is the shown text. */
  lemma BufferEndsAt(start: seq<Char>, text: seq<Char>, n: nat)
    requires |start| == BUF_SIZE && n < BUF_SIZE
    requires var b := Printed(start, text, BUF_SIZE, true); b[n] == NUL && NoNul(b[..n])
    ensures Printed(start, text, BUF_SIZE, true)[..n] == Shown(text)
  {
    var b, k := Printed(start, text, BUF_SIZE, true), Min(|text|, BUF_SIZE - 1);
    PrintfLaws.TruncatedPrefix(start, text, BUF_SIZE);
    var z := FirstNul(text[..k]);
    assert b[..k][..z] == b[..z] && b[z] == NUL;
    assert n == z;
  }

  method StringEnd(buf: array<Char>, ghost z: nat) returns (n: nat)
    requires z < buf.Length && buf[z] == NUL
    ensures n <= z && buf[n] == NUL && NoNul(buf[..n])
  {
    n := 0;
    while buf[n] != NUL
      invariant n <= z && NoNul(buf[..n])
      decreases z - n
    {
      n := n + 1;
    }
  }

  /** `bzero`. */
  method ClearAll(buf: array<Char>)
    modifies buf
    ensures forall k | 0 <= k < buf.Length :: buf[k] == NUL
  {
    for i := 0 to buf.Length
      invariant forall k | 0 <= k < i :: buf[k] == NUL
    {
      buf[i] := NUL;
    }
  }

  /** `printf`: the shown text is typed on the screen, and the buffer is clear again. */
  method PrintF(screen: Tui.Screen, buf: array<Char>, fmt: seq<Char>, args: seq<Arg>) returns (r: int)
    requires screen.Valid() && buf.Length == BUF_SIZE && NoNul(fmt) && ValidArgs(args)
    requires Render(fmt, 0, args).Some? && |Render(fmt, 0, args).value| < SIZE_VALUES
    modifies screen`col, screen`row, screen.buffer, buf
    ensures screen.Valid() && screen.Model() == Tui.Run(old(screen.Model()), Shown(Render(fmt, 0, args).value))
    ensures forall k | 0 <= k < BUF_SIZE :: buf[k] == NUL
    ensures r == Signed(|Render(fmt, 0, args).value|, 0x8000_0000)
  {
    ghost var start, text := buf[..], Render(fmt, 0, args).value;
    r := Vsnprintf(true, buf, BUF_SIZE, fmt, args);
    PrintfLaws.TruncatedPrefix(start, text, BUF_SIZE);
    var n := StringEnd(buf, Min(|text|, BUF_SIZE - 1));
    BufferEndsAt(start, text, n);
    screen.WriteAll(buf[..n]);
    ClearAll(buf);
  }

  /** The state `info`, `warn` and `err` leave: the text in their colour on black, then the colour they read before. */
  function Colored(t: Tui.Terminal, color: nat, text: seq<Char>): Tui.Terminal
    requires t.Placed()
  {
    Tui.Run(t.(fore := color % 0x10, back := 0), Shown(text)).(fore := Bits.BitOr(t.back, t.fore, 4) % 0x10, back := 0)
  }

  lemma ColorsLeft(t: Tui.Terminal, color: nat, text: seq<Char>, mixed: nat)
    requires t.Placed() && mixed == Bits.BitOr(t.back, t.fore, 4)
    ensures Colored(t, color, text).fore == mixed % 0x10 && Colored(t, color, text).back == 0
  {
  }

  /** The colour is restored exactly when the background was black: reading the colour mixes both parts,
      and setting it clears the background. Another background comes only from a `TUI` used directly:
      `IO::set_color` always sets black, and the object behind `IO` is private. */
  lemma ColorRestoredIff(t: Tui.Terminal, color: nat, text: seq<Char>)
    requires t.Placed() && t.fore < 0x10
    ensures Colored(t, color, text).fore == t.fore && Colored(t, color, text).back == t.back <==> t.back == 0
  {
    var mixed := Bits.BitOr(t.back, t.fore, 4);
    Tui.ColorReadsBackIff(t.fore, t.back);
    ColorsLeft(t, color, text, mixed);
  }

  /** Such a text is typed in its colour on black: the screen shows the page it was typed on in that colour. */
  lemma ColoredShowsPage(t: Tui.Terminal, p: Page<Tui.Cell>, color: nat, text: seq<Char>)
    requires t.Shows(p) && Tui.TabsFit(t.(fore := color % 0x10, back := 0), Shown(text))
    ensures Colored(t, color, text).Shows(Tui.PageRun(p, Shown(text), color % 0x10, 0))
  {
    Tui.RunShowsPage(t.(fore := color % 0x10, back := 0), p, Shown(text));
  }

  /** A single character is in that colour, and nothing else changes. */
  lemma ColoredCharacter(t: Tui.Terminal, color: nat, c: Char)
    requires |t.cells| == Tui.BUFFER && t.row < 25 && t.col < 79 && c !in {0, 8, 9, 10}
    ensures Colored(t, color, [c]).cells == t.cells[80 * t.row + t.col := Tui.Cell(c, color % 16, 0)]
    ensures Colored(t, color, [c]).col == t.col + 1 && Colored(t, color, [c]).row == t.row
  {
    ShownWholeIff([c]);
    var u := t.(fore := color % 0x10, back := 0);
    assert [c][..0] == [];
    assert Tui.Run(u, [c]) == u.Put(c);
  }

  /** The colours of `info`, `warn` and `err`. */
  const CYAN: nat := 3
  const YELLOW: nat := 14
  const LIGHT_RED: nat := 12

  method Info(screen: Tui.Screen, buf: array<Char>, fmt: seq<Char>, args: seq<Arg>) returns (r: int)
    requires screen.Valid() && buf.Length == BUF_SIZE && NoNul(fmt) && ValidArgs(args)
    requires Render(fmt, 0, args).Some? && |Render(fmt, 0, args).value| < SIZE_VALUES
    modifies screen, screen.buffer, buf
    ensures screen.Valid() && screen.Model() == Colored(old(screen.Model()), 3, Render(fmt, 0, args).value)
    ensures forall k | 0 <= k < BUF_SIZE :: buf[k] == NUL
  {
    r := PrintColored(screen, buf, CYAN, fmt, args);
  }

  method Warn(screen: Tui.Screen, buf: array<Char>, fmt: seq<Char>, args: seq<Arg>) returns (r: int)
    requires screen.Valid() && buf.Length == BUF_SIZE && NoNul(fmt) && ValidArgs(args)
    requires Render(fmt, 0, args).Some? && |Render(fmt, 0, args).value| < SIZE_VALUES
    modifies screen, screen.buffer, buf
    ensures screen.Valid() && screen.Model() == Colored(old(screen.Model()), 14, Render(fmt, 0, args).value)
    ensures forall k | 0 <= k < BUF_SIZE :: buf[k] == NUL
  {
    r := PrintColored(screen, buf, YELLOW, fmt, args);
  }

  method Err(screen: Tui.Screen, buf: array<Char>, fmt: seq<Char>, args: seq<Arg>) returns (r: int)
    requires screen.Valid() && buf.Length == BUF_SIZE && NoNul(fmt) && ValidArgs(args)
    requires Render(fmt, 0, args).Some? && |Render(fmt, 0, args).value| < SIZE_VALUES
    modifies screen, screen.buffer, buf
    ensures screen.Valid() && screen.Model() == Colored(old(screen.Model()), 12, Render(fmt, 0, args).value)
    ensures forall k | 0 <= k < BUF_SIZE :: buf[k] == NUL
  {
    r := PrintColored(screen, buf, LIGHT_RED, fmt, args);
  }

  /** `info`, `warn` and `err`, which differ in the colour. */
  method PrintColored(screen: Tui.Screen, buf: array<Char>, color: nat, fmt: seq<Char>, args: seq<Arg>) returns (r: int)
    requires screen.Valid() && buf.Length == BUF_SIZE && NoNul(fmt) && ValidArgs(args)
    requires Render(fmt, 0, args).Some? && |Render(fmt, 0, args).value| < SIZE_VALUES
    modifies screen, screen.buffer, buf
    ensures screen.Valid() && screen.Model() == Colored(old(screen.Model()), color, Render(fmt, 0, args).value)
    ensures forall k | 0 <= k < BUF_SIZE :: buf[k] == NUL
    ensures r == Signed(|Render(fmt, 0, args).value|, 0x8000_0000)
  {
    var current := screen.GetColor();
    screen.SetColor(color, 0);
    r := PrintF(screen, buf, fmt, args);
    screen.SetColor(current, 0);
  }

  /** Two prints of texts that fit show what one print of both together shows, if that fits too. */
  lemma PrintsJoin(t: Tui.Terminal, s1: seq<Char>, s2: seq<Char>)
    requires t.Placed() && NoNul(s1) && NoNul(s2) && |s1| + |s2| < BUF_SIZE
    ensures Tui.Run(t, Shown(s1 + s2)) == Tui.Run(Tui.Run(t, Shown(s1)), Shown(s2))
  {
    assert NoNul(s1 + s2);
    ShownWholeIff(s1 + s2);
    ShownWholeIff(s1);
    ShownWholeIff(s2);
    Tui.RunInParts(t, s1, s2);
  }
}
