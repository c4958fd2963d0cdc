/**
 * The text console of `dev::console`: a 25 x 80 grid of character cells
 * (the VGA text buffer), a current color and a column cursor on the bottom
 * row. Bytes are written at the cursor; a line feed, or reaching the right
 * edge, scrolls every row up by one and blanks the bottom row.
 *
 * The pure part (`ConsoleState`, `AfterByte`, `AfterString`) says what the
 * console shows after a sequence of writes; the `Console` class updates a
 * two-dimensional array in place, as the driver updates the buffer, and its
 * methods are proved to reach the state the pure part describes.
 */
module Consoles {
  import opened Machine

  const HEIGHT: int := 25
  const WIDTH: int := 80

  /** The row the cursor is on. */
  const BOTTOM: int := HEIGHT - 1

  /** The byte values `write_byte` treats specially. */
  const LINE_FEED: u8 := 10
  const CARRIAGE_RETURN: u8 := 13

  /** `ConsoleColor`, a `#[repr(u8)]` enum numbered 0 to 15. */
  datatype ConsoleColor =
    | Black | Blue | Green | Cyan | Red | Magenta | Brown | LightGray
    | DarkGray | LightBlue | LightGreen | LightCyan | LightRed | Pink | Yellow | White

  /** The discriminant of a color (`color as u8`). */
  function Code(c: ConsoleColor): (n: nat)
    ensures n < 16
  {
    match c
    case Black => 0      case Blue => 1        case Green => 2       case Cyan => 3
    case Red => 4        case Magenta => 5     case Brown => 6       case LightGray => 7
    case DarkGray => 8   case LightBlue => 9   case LightGreen => 10 case LightCyan => 11
    case LightRed => 12  case Pink => 13       case Yellow => 14     case White => 15
  }

  /** Distinct colors have distinct discriminants. */
  lemma CodeInjective(a: ConsoleColor, b: ConsoleColor)
    requires Code(a) == Code(b)
    ensures a == b
  {
  }

  /** An attribute byte: background in the high nibble, foreground in the low one. */
  type ColorCode = u8

  /** `ColorCode::new`: `(background as u8) << 4 | (foreground as u8)`; the nibbles are disjoint. */
  function NewColorCode(foreground: ConsoleColor, background: ConsoleColor): ColorCode
  {
    Code(background) * 16 + Code(foreground)
  }

  /** The two nibbles of a color code give back its two colors. */
  lemma ColorCodeNibbles(foreground: ConsoleColor, background: ConsoleColor)
    ensures NewColorCode(foreground, background) % 16 == Code(foreground)
    ensures NewColorCode(foreground, background) / 16 == Code(background)
  {
  }

  /** Equal color codes come from equal color pairs. */
  lemma ColorCodeInjective(f1: ConsoleColor, b1: ConsoleColor, f2: ConsoleColor, b2: ConsoleColor)
    requires NewColorCode(f1, b1) == NewColorCode(f2, b2)
    ensures f1 == f2 && b1 == b2
  {
    ColorCodeNibbles(f1, b1);
    ColorCodeNibbles(f2, b2);
    CodeInjective(f1, f2);
    CodeInjective(b1, b2);
  }

  /** A cell of the text buffer. */
  datatype ScreenChar = ScreenChar(ascii: u8, color: ColorCode)

  /** The cell `clear_screen` and `scroll_one_line` write: NUL, black on black. */
  function Blank(): ScreenChar
  {
    ScreenChar(0, NewColorCode(Black, Black))
  }

  /** Rows of cells, top row first. */
  type Screen = seq<seq<ScreenChar>>

  /** 25 rows of 80 cells. */
  ghost predicate IsScreen(g: Screen)
  {
    |g| == HEIGHT && forall i | 0 <= i < HEIGHT :: |g[i]| == WIDTH
  }

  function BlankRow(): (row: seq<ScreenChar>)
    ensures |row| == WIDTH && forall j | 0 <= j < WIDTH :: row[j] == Blank()
  {
    seq(WIDTH, j => Blank())
  }

  /** The screen after `clear_screen`. */
  function BlankScreen(): (g: Screen)
    ensures IsScreen(g)
    ensures forall i, j | 0 <= i < HEIGHT && 0 <= j < WIDTH :: g[i][j] == Blank()
  {
    seq(HEIGHT, i => BlankRow())
  }

  /** `scroll_one_line`: row i - 1 takes row i for i in 1..25, and the bottom row is blank. */
  function Scrolled(g: Screen): (h: Screen)
    requires IsScreen(g)
    ensures IsScreen(h)
    ensures forall i | 0 <= i < BOTTOM :: h[i] == g[i + 1]
    ensures h[BOTTOM] == BlankRow()
  {
    g[1..] + [BlankRow()]
  }

  /** The screen with one cell of the bottom row replaced. */
  function PutBottom(g: Screen, column: nat, c: ScreenChar): (h: Screen)
    requires IsScreen(g) && column < WIDTH
    ensures IsScreen(h)
  {
    g[BOTTOM := g[BOTTOM][column := c]]
  }

  /** What the console shows and where it writes next. */
  datatype ConsoleState = ConsoleState(screen: Screen, column: nat, color: ColorCode)

  /** The cursor is on the screen: the invariant every operation keeps. */
  ghost predicate Wellformed(st: ConsoleState)
  {
    IsScreen(st.screen) && st.column < WIDTH
  }

  /**
   * `write_byte`: a line feed scrolls; a carriage return moves the cursor
   * to column 0; any other byte is stored with the current color at the
   * cursor on the bottom row and the cursor advances, scrolling (and so
   * returning to column 0) when it reaches the right edge.
   */
  function AfterByte(st: ConsoleState, b: u8): (st': ConsoleState)
    requires Wellformed(st)
    ensures Wellformed(st') && st'.color == st.color
  {
    if b == LINE_FEED then ConsoleState(Scrolled(st.screen), 0, st.color)
    else if b == CARRIAGE_RETURN then st.(column := 0)
    else
      var g := PutBottom(st.screen, st.column, ScreenChar(b, st.color));
      if st.column + 1 >= WIDTH then ConsoleState(Scrolled(g), 0, st.color)
      else ConsoleState(g, st.column + 1, st.color)
  }

  /** `c as u8` on a character: its code point truncated to the low byte. */
  function ByteOf(c: char): u8
  {
    (c as int) % 256
  }

  /** `write_str`: `write_byte` on each character's byte, first to last. */
  function AfterString(st: ConsoleState, s: seq<char>): (st': ConsoleState)
    requires Wellformed(st)
    ensures Wellformed(st') && st'.color == st.color
    decreases |s|
  {
    if |s| == 0 then st else AfterByte(AfterString(st, s[..|s| - 1]), ByteOf(s[|s| - 1]))
  }

  /** A carriage return leaves the screen as it was. */
  lemma CarriageReturnKeepsScreen(st: ConsoleState)
    requires Wellformed(st)
    ensures AfterByte(st, CARRIAGE_RETURN) == st.(column := 0)
    ensures AfterByte(st, CARRIAGE_RETURN).screen == st.screen
  {
  }

  /** Scrolling a blank screen leaves it blank. */
  lemma ScrollBlank()
    ensures Scrolled(BlankScreen()) == BlankScreen()
  {
    var h := Scrolled(BlankScreen());
    assert forall i | 0 <= i < HEIGHT :: h[i] == BlankScreen()[i];
  }

  /** A byte that does not scroll changes one cell of the bottom row, and nothing else. */
  predicate Printable(c: char)
  {
    ByteOf(c) != LINE_FEED && ByteOf(c) != CARRIAGE_RETURN
  }

  /**
   * A run of printable characters that fits before the right edge lands, in
   * order and in the current color, on the bottom row from the cursor on;
   * the cursor ends just after it and every other cell is as it was.
   */
  lemma {:induction false} PrintableRun(st: ConsoleState, s: seq<char>)
    requires Wellformed(st) && st.column + |s| < WIDTH
    requires forall k | 0 <= k < |s| :: Printable(s[k])
    ensures AfterString(st, s).column == st.column + |s|
    ensures forall i, j | 0 <= i < BOTTOM && 0 <= j < WIDTH ::
      AfterString(st, s).screen[i][j] == st.screen[i][j]
    ensures var bottom := AfterString(st, s).screen[BOTTOM];
      forall j | 0 <= j < WIDTH && !(st.column <= j < st.column + |s|) :: bottom[j] == st.screen[BOTTOM][j]
    ensures forall k | 0 <= k < |s| ::
      AfterString(st, s).screen[BOTTOM][st.column + k] == ScreenChar(ByteOf(s[k]), st.color)
    decreases |s|
  {
    if |s| > 0 {
      var init := s[..|s| - 1];
      assert forall k | 0 <= k < |init| :: init[k] == s[k];
      PrintableRun(st, init);
      var mid := AfterString(st, init);
      assert AfterString(st, s) == AfterByte(mid, ByteOf(s[|s| - 1]));
      assert AfterString(st, s).screen == PutBottom(mid.screen, mid.column, ScreenChar(ByteOf(s[|s| - 1]), st.color));
    }
  }

  /** The console driver over the text buffer at a fixed address. */
  class Console {
    var column: nat
    var color: ColorCode
    const buffer: array2<ScreenChar>

    ghost predicate Valid()
      reads this
    {
      buffer.Length0 == HEIGHT && buffer.Length1 == WIDTH && column < WIDTH
    }

    /** One row of the buffer as a sequence. */
    ghost function Row(i: nat): (row: seq<ScreenChar>)
      requires i < buffer.Length0 && buffer.Length1 == WIDTH
      reads buffer
      ensures |row| == WIDTH && forall j | 0 <= j < WIDTH :: row[j] == buffer[i, j]
    {
      seq(WIDTH, j requires 0 <= j < WIDTH reads buffer => buffer[i, j])
    }

    /** The buffer's contents. */
    ghost function Rows(): (g: Screen)
      requires buffer.Length0 == HEIGHT && buffer.Length1 == WIDTH
      reads buffer
      ensures IsScreen(g)
      ensures forall i, j | 0 <= i < HEIGHT && 0 <= j < WIDTH :: g[i][j] == buffer[i, j]
    {
      seq(HEIGHT, i requires 0 <= i < HEIGHT reads buffer => Row(i))
    }

    ghost function State(): (st: ConsoleState)
      requires Valid()
      reads this, buffer
      ensures Wellformed(st)
    {
      ConsoleState(Rows(), column, color)
    }

    /** A screen that agrees with the buffer cell by cell is the buffer's contents. */
    lemma RowsAre(g: Screen)
      requires buffer.Length0 == HEIGHT && buffer.Length1 == WIDTH && IsScreen(g)
      requires forall i, j | 0 <= i < HEIGHT && 0 <= j < WIDTH :: buffer[i, j] == g[i][j]
      ensures Rows() == g
    {
      assert forall i | 0 <= i < HEIGHT :: Rows()[i] == g[i];
    }

    /** `Console::new`: cursor at column 0, the given color, the buffer at the given address. */
    constructor (cc: ColorCode, buffer: array2<ScreenChar>)
      requires buffer.Length0 == HEIGHT && buffer.Length1 == WIDTH
      ensures Valid() && this.buffer == buffer && column == 0 && color == cc
    {
      column := 0;
      color := cc;
      this.buffer := buffer;
    }

    /** `change_color_code`: only the color changes. */
    method ChangeColorCode(cc: ColorCode)
      requires Valid()
      modifies this
      ensures Valid() && State() == old(State()).(color := cc)
    {
      color := cc;
      RowsAre(old(Rows()));
    }

    /** `clear_screen`: every cell becomes blank; cursor and color stay. */
    method ClearScreen()
      requires Valid()
      modifies buffer
      ensures Valid() && State() == old(State()).(screen := BlankScreen())
    {
      for i := 0 to HEIGHT
        invariant forall i', j | 0 <= i' < i && 0 <= j < WIDTH :: buffer[i', j] == Blank()
      {
        for j := 0 to WIDTH
          invariant forall i', j' | 0 <= i' < i && 0 <= j' < WIDTH :: buffer[i', j'] == Blank()
          invariant forall j' | 0 <= j' < j :: buffer[i, j'] == Blank()
        {
          buffer[i, j] := Blank();
        }
      }
      RowsAre(BlankScreen());
    }

    /** `scroll_one_line`: every row moves up one, the bottom row is blank, the cursor returns to column 0. */
    method ScrollOneLine()
      requires buffer.Length0 == HEIGHT && buffer.Length1 == WIDTH
      modifies this, buffer
      ensures Valid() && State() == ConsoleState(Scrolled(old(Rows())), 0, old(color))
    {
      ghost var g := Rows();
      var i := 1;
      while i < HEIGHT
        invariant 1 <= i <= HEIGHT && color == old(color)
        invariant forall i', j | 0 <= i' < i - 1 && 0 <= j < WIDTH :: buffer[i', j] == g[i' + 1][j]
        invariant forall i', j | i' + 1 == i && 0 <= j < WIDTH :: buffer[i', j] == (if i == 1 then g[0][j] else Blank())
        invariant forall i', j | i <= i' < HEIGHT && 0 <= j < WIDTH :: buffer[i', j] == g[i'][j]
      {
        MoveRowUp(i);
        i := i + 1;
      }
      ghost var h := Scrolled(g);
      assert forall i', j | 0 <= i' < BOTTOM && 0 <= j < WIDTH :: buffer[i', j] == h[i'][j];
      assert forall j | 0 <= j < WIDTH :: buffer[BOTTOM, j] == h[BOTTOM][j];
      RowsAre(h);
      PrintCarriageReturn();
    }

    /** One pass of the outer loop of `scroll_one_line`: row i - 1 takes row i, which becomes blank. */
    method MoveRowUp(i: nat)
      requires buffer.Length0 == HEIGHT && buffer.Length1 == WIDTH && 1 <= i < HEIGHT
      modifies buffer
      ensures forall j | 0 <= j < WIDTH :: buffer[i - 1, j] == old(buffer[i, j]) && buffer[i, j] == Blank()
      ensures forall i', j | 0 <= i' < HEIGHT && i' != i - 1 && i' != i && 0 <= j < WIDTH :: buffer[i', j] == old(buffer[i', j])
    {
      for j := 0 to WIDTH
        invariant forall j' | 0 <= j' < j :: buffer[i - 1, j'] == old(buffer[i, j']) && buffer[i, j'] == Blank()
        invariant forall j' | j <= j' < WIDTH :: buffer[i, j'] == old(buffer[i, j'])
        invariant forall i', j' | 0 <= i' < HEIGHT && i' != i - 1 && i' != i && 0 <= j' < WIDTH :: buffer[i', j'] == old(buffer[i', j'])
      {
        var data := buffer[i, j];
        buffer[i - 1, j] := data;
        buffer[i, j] := Blank();
      }
    }

    /** `print_line_feed`. */
    method PrintLineFeed()
      requires Valid()
      modifies this, buffer
      ensures Valid() && State() == AfterByte(old(State()), LINE_FEED)
    {
      ScrollOneLine();
    }

    /** `print_carriage_return`: the cursor returns to column 0. */
    method PrintCarriageReturn()
      requires buffer.Length0 == HEIGHT && buffer.Length1 == WIDTH
      modifies this
      ensures Valid() && column == 0 && color == old(color)
    {
      column := 0;
    }

    /** `write_byte`. */
    method WriteByte(b: u8)
      requires Valid()
      modifies this, buffer
      ensures Valid() && State() == AfterByte(old(State()), b)
    {
      if b == LINE_FEED {
        PrintLineFeed();
      } else if b == CARRIAGE_RETURN {
        ghost var g := Rows();
        PrintCarriageReturn();
        RowsAre(g);
      } else {
        ghost var g := PutBottom(Rows(), column, ScreenChar(b, color));
        buffer[BOTTOM, column] := ScreenChar(b, color);
        RowsAre(g);
        column := column + 1;
        if column >= WIDTH {
          ScrollOneLine();
        }
      }
    }

    /** `write_str`: each character's byte in turn. */
    method WriteStr(s: seq<char>)
      requires Valid()
      modifies this, buffer
      ensures Valid() && State() == AfterString(old(State()), s)
    {
      for k := 0 to |s|
        invariant Valid() && State() == AfterString(old(State()), s[..k])
      {
        assert s[..k + 1][..k] == s[..k];
        WriteByte(ByteOf(s[k]));
      }
      assert s[..|s|] == s;
    }
  }
}
