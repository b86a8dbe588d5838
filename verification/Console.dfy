/** The text console of hal/x86/io/vga.c: 25 rows of 80 cells, of which row 0 is
    a status bar and rows 1 to 24 scroll. */
module Console {

  /** The source's char is signed. */
  type Char = x: int | -0x80 <= x < 0x80
  type Color = x: int | 0 <= x < 0x100
  type Cell = x: int | 0 <= x < 0x1_0000
  type Text = seq<Char>

  const WIDTH := 80
  const ROWS := 24
  const CELLS := 2000
  const NEWLINE: Char := 10
  const RETURN: Char := 13
  const BACKSPACE: Char := 8
  const TAB: Char := 9
  const SPACE: Char := 32
  const LIGHT_GREY: Color := 7

  /** The character below, the colour above; a negative character fills the
      upper byte with its sign. */
  function VgaByte(c: Char, color: Color): (v: Cell)
  {
    var k: int := c;
    if k < 0 then 0xFF00 + (k + 0x100) else k + 0x100 * color
  }

  /** The cell of a 7-bit character gives back both. */
  lemma VgaByteInverse(c: Char, color: Color)
    ensures VgaByte(c, color) % 0x100 == c % 0x100
    ensures VgaByte(c, color) / 0x100 == if c >= 0 then color else 0xFF
  {
  }

  // ---- The screen as a value ----

  datatype Screen = Screen(cells: seq<Cell>, x: int, y: int)

  predicate OnScreen(s: Screen) { |s.cells| == CELLS && 0 <= s.x < WIDTH && 1 <= s.y <= ROWS }

  function Index(x: int, y: int): (i: int) { y * WIDTH + x }

  /** Row 25 moves everything below the status bar up by one row. */
  function Scrolled(s: Screen): (r: Screen)
    requires |s.cells| == CELLS
    ensures |r.cells| == CELLS
  {
    if s.y > ROWS then
      Screen(s.cells[..WIDTH] + s.cells[2 * WIDTH..] + seq(WIDTH, _ => VgaByte(SPACE, LIGHT_GREY)), s.x, ROWS)
    else s
  }

  function Advanced(s: Screen): (r: Screen)
    ensures r.cells == s.cells
  {
    if s.x + 1 >= WIDTH then s.(x := 0, y := s.y + 1) else s.(x := s.x + 1)
  }

  /** What kputc does. A backspace blanks the cell before the cursor, which stays
      where it is; a return goes to column 1; a tab moves by five. */
  function Put(s: Screen, c: Char, color: Color): (r: Screen)
    requires OnScreen(s)
    ensures OnScreen(r)
  {
    var i := Index(s.x, s.y);
    if c == NEWLINE then Scrolled(s.(x := 0, y := s.y + 1))
    else if c == RETURN then s.(x := 1)
    else if c == BACKSPACE then s.(cells := s.cells[i - 1 := VgaByte(SPACE, color)])
    else if c == TAB then Scrolled(Advanced(s.(x := s.x + 4)))
    else Scrolled(Advanced(s.(cells := s.cells[i := VgaByte(c, color)])))
  }

  /** Where the cursor goes, and whether that is a row further down. */
  function Column(x: int, c: Char): (r: int)
  {
    if c == 10 then 0 else if c == 13 then 1 else if c == 8 then x
    else if c == 9 then if x + 5 < 80 then x + 5 else 0
    else if x + 1 < 80 then x + 1 else 0
  }

  predicate GoesDown(x: int, c: Char)
  {
    c == 10 || (c == 9 && x + 5 >= 80) || (c !in {8, 9, 10, 13} && x + 1 >= 80)
  }

  /** Cell k once the character is written, before anything scrolls. */
  function Written(s: Screen, c: Char, color: Color, k: int): (v: Cell)
    requires OnScreen(s) && 0 <= k < 2000
  {
    if c == 8 && k == s.y * 80 + s.x - 1 then 32 + 0x100 * color
    else if c !in {8, 9, 10, 13} && k == s.y * 80 + s.x then VgaByte(c, color)
    else s.cells[k]
  }

  /** kputc cell by cell: one cell is written or none; the cursor moves, and only
      when that leads below row 24 do rows 2 to 24 move up and is row 24 blanked. */
  lemma PutMeans(s: Screen, c: Char, color: Color)
    requires OnScreen(s)
    ensures var r, down := Put(s, c, color), GoesDown(s.x, c);
            && r.x == Column(s.x, c) && r.y == (if down && s.y < 24 then s.y + 1 else s.y) && |r.cells| == 2000
            && (!(down && s.y == 24) ==> forall k | 0 <= k < 2000 :: r.cells[k] == Written(s, c, color, k))
            && (down && s.y == 24 ==>
                  && (forall k | 0 <= k < 80 :: r.cells[k] == Written(s, c, color, k))
                  && (forall k | 80 <= k < 1920 :: r.cells[k] == Written(s, c, color, k + 80))
                  && (forall k | 1920 <= k < 2000 :: r.cells[k] == 0x720))
  {
  }

  /** Row 0 keeps its contents in all cases but one: a backspace at the very
      first cell of row 1. */
  lemma StatusBarExactly(s: Screen, c: Char, color: Color)
    requires OnScreen(s)
    ensures Put(s, c, color).cells[..WIDTH] == s.cells[..WIDTH]
            <==> !(c == BACKSPACE && s.x == 0 && s.y == 1 && s.cells[WIDTH - 1] != VgaByte(SPACE, color))
  {
    var r := Put(s, c, color);
    var i := Index(s.x, s.y);
    assert i >= WIDTH;
    if c == BACKSPACE {
      if i - 1 < WIDTH {
        assert i - 1 == WIDTH - 1;
        assert r.cells[..WIDTH][WIDTH - 1] == VgaByte(SPACE, color) && s.cells[..WIDTH][WIDTH - 1] == s.cells[WIDTH - 1];
      }
    }
  }

  // ---- Text wrapped at 80 columns ----

  predicate Printable(c: Char) { c == NEWLINE || 32 <= c < 127 }

  /** A paragraph in lines: a full line is always followed by another. */
  function Wrap(p: Text): (ls: seq<Text>)
    ensures ls != []
  {
    if |p| < WIDTH then [p] else [p[..WIDTH]] + Wrap(p[WIDTH..])
  }

  /** The first paragraph ends at the first newline. */
  function FirstEnd(t: Text): (k: nat)
    ensures k <= |t| && NEWLINE !in t[..k] && (k < |t| ==> t[k] == NEWLINE)
  {
    if t == [] || t[0] == NEWLINE then 0
    else
      var k := FirstEnd(t[1..]);
      assert t[..k + 1] == [t[0]] + t[1..][..k];
      k + 1
  }

  /** A text in lines of at most 80 characters; the last one is where printing goes on. */
  function Lines(t: Text): (ls: seq<Text>)
    ensures ls != []
    decreases |t|
  {
    var k := FirstEnd(t);
    if k == |t| then Wrap(t) else Wrap(t[..k]) + Lines(t[k + 1..])
  }

  /** One more character on the last line. */
  function Typed(ls: seq<Text>, c: Char): (r: seq<Text>)
    requires ls != []
    ensures r != []
  {
    var front, last := ls[..|ls| - 1], ls[|ls| - 1];
    if c == NEWLINE then ls + [[]]
    else if |last| + 1 >= WIDTH then front + [last + [c], []]
    else front + [last + [c]]
  }

  lemma TypedBehind(a: seq<Text>, b: seq<Text>, c: Char)
    requires b != []
    ensures Typed(a + b, c) == a + Typed(b, c)
  {
    assert (a + b)[..|a + b| - 1] == a + b[..|b| - 1];
  }

  lemma {:induction false} WrapTyped(p: Text, c: Char)
    requires c != NEWLINE
    ensures Wrap(p + [c]) == Typed(Wrap(p), c)
    decreases |p|
  {
    var q := p + [c];
    if |q| < WIDTH {
      assert Typed([p], c) == [q];
    } else if |p| < WIDTH {
      assert q[..WIDTH] == q && q[WIDTH..] == [];
      assert Typed([p], c) == [q, []];
    } else {
      WrapTyped(p[WIDTH..], c);
      assert q[..WIDTH] == p[..WIDTH] && q[WIDTH..] == p[WIDTH..] + [c];
      TypedBehind([p[..WIDTH]], Wrap(p[WIDTH..]), c);
    }
  }

  lemma {:induction false} FirstEndSame(t: Text, c: Char)
    ensures FirstEnd(t) < |t| ==> FirstEnd(t + [c]) == FirstEnd(t)
    ensures FirstEnd(t) == |t| ==> FirstEnd(t + [c]) == if c == NEWLINE then |t| else |t| + 1
  {
    if t != [] && t[0] != NEWLINE {
      FirstEndSame(t[1..], c);
      assert (t + [c])[1..] == t[1..] + [c];
    }
  }

  lemma LinesUnfold(t: Text, k: nat)
    requires k == FirstEnd(t)
    ensures Lines(t) == if k == |t| then Wrap(t) else Wrap(t[..k]) + Lines(t[k + 1..])
  {
    hide Wrap, FirstEnd;
  }

  lemma TypedNewline(ls: seq<Text>)
    requires ls != []
    ensures Typed(ls, NEWLINE) == ls + [[]] && Lines([]) == [[]]
  {
  }

  /** Printing one more character types it at the end of the last line. */
  lemma {:induction false} LinesTyped(t: Text, c: Char)
    ensures Lines(t + [c]) == Typed(Lines(t), c)
    decreases |t|
  {
    hide Lines, Typed, Wrap, FirstEnd;
    var k, u := FirstEnd(t), t + [c];
    FirstEndSame(t, c);
    LinesUnfold(t, k);
    LinesUnfold(u, FirstEnd(u));
    if k < |t| {
      assert u[..k] == t[..k] && u[k + 1..] == t[k + 1..] + [c];
      LinesTyped(t[k + 1..], c);
      TypedBehind(Wrap(t[..k]), Lines(t[k + 1..]), c);
    } else if c == NEWLINE {
      assert u[..k] == t && u[k + 1..] == [];
      TypedNewline(Wrap(t));
    } else {
      WrapTyped(t, c);
    }
  }

  /** The lines one behind the other. */
  function Joined(ls: seq<Text>): (t: Text)
  {
    if ls == [] then [] else Joined(ls[..|ls| - 1]) + ls[|ls| - 1]
  }

  function WithoutNewlines(t: Text): (r: Text)
  {
    if t == [] then [] else WithoutNewlines(t[..|t| - 1]) + if t[|t| - 1] == NEWLINE then [] else [t[|t| - 1]]
  }

  function Newlines(t: Text): (n: nat)
  {
    if t == [] then 0 else Newlines(t[..|t| - 1]) + if t[|t| - 1] == NEWLINE then 1 else 0
  }

  /** Lines of 80, which are full. */
  function Full(ls: seq<Text>): (n: nat)
  {
    if ls == [] then 0 else Full(ls[..|ls| - 1]) + if |ls[|ls| - 1]| == 80 then 1 else 0
  }

  lemma JoinedSnoc(ls: seq<Text>, l: Text)
    ensures Joined(ls + [l]) == Joined(ls) + l && Full(ls + [l]) == Full(ls) + if |l| == 80 then 1 else 0
  {
    assert (ls + [l])[..|ls|] == ls;
  }

  lemma TypedJoined(ls: seq<Text>, c: Char)
    requires ls != [] && |ls[|ls| - 1]| < 80
    ensures Joined(Typed(ls, c)) == Joined(ls) + if c == NEWLINE then [] else [c]
    ensures |Typed(ls, c)| - Full(Typed(ls, c)) == |ls| - Full(ls) + if c == NEWLINE then 1 else 0
  {
    var front, last := ls[..|ls| - 1], ls[|ls| - 1];
    assert ls == front + [last];
    JoinedSnoc(front, last);
    JoinedSnoc(front, last + [c]);
    JoinedSnoc(front + [last + [c]], []);
    JoinedSnoc(ls, []);
    assert front + [last + [c], []] == front + [last + [c]] + [[]];
    assert Joined(front) + (last + [c]) == Joined(front) + last + [c];
  }

  lemma NothingTyped()
    ensures Lines([]) == [[]] && Joined([[]]) == [] && Full([[]]) == 0
  {
    var one: seq<Text> := [[]];
    assert one[..0] == [];
  }

  lemma {:induction false} WrapShort(p: Text)
    ensures forall j | 0 <= j < |Wrap(p)| :: |Wrap(p)[j]| <= WIDTH
    ensures |Wrap(p)[|Wrap(p)| - 1]| < WIDTH
    decreases |p|
  {
    if |p| >= WIDTH { WrapShort(p[WIDTH..]); }
  }

  /** No line is longer than the screen is wide, and the last has room. */
  lemma {:induction false} LinesShort(t: Text)
    ensures forall j | 0 <= j < |Lines(t)| :: |Lines(t)[j]| <= WIDTH
    ensures |Lines(t)[|Lines(t)| - 1]| < WIDTH
    decreases |t|
  {
    hide Lines, Wrap, FirstEnd;
    var k := FirstEnd(t);
    LinesUnfold(t, k);
    WrapShort(t[..k]);
    WrapShort(t);
    if k < |t| { LinesShort(t[k + 1..]); }
  }

  /** Wrapping loses and adds nothing: the lines one behind the other are the text
      without its newlines, and a line ends only at a newline or when it is full. */
  lemma {:induction false} LinesKeepText(t: Text)
    ensures Joined(Lines(t)) == WithoutNewlines(t)
    ensures |Lines(t)| == 1 + Newlines(t) + Full(Lines(t))
  {
    hide Lines, Typed, Joined, Full;
    if t == [] {
      NothingTyped();
    } else {
      var front, c := t[..|t| - 1], t[|t| - 1];
      assert t == front + [c];
      LinesKeepText(front);
      LinesTyped(front, c);
      LinesShort(front);
      TypedJoined(Lines(front), c);
    }
  }

  // ---- What the screen shows ----

  /** The first line that is still on the screen. */
  function Top(lines: nat): (j: nat) { if lines <= ROWS then 0 else lines - ROWS }

  /** Column x of line j: its character, or a blank. Rows that scrolled in were
      blanked in light grey, the others in the colour of the console. */
  function CellOf(ls: seq<Text>, j: nat, x: nat, color: Color): (v: Cell)
  {
    if j < |ls| && x < |ls[j]| then VgaByte(ls[j][x], color)
    else if j < ROWS then VgaByte(SPACE, color)
    else VgaByte(SPACE, LIGHT_GREY)
  }

  /** Rows 1 to 24 show the lines from `top` on. */
  ghost predicate RowsShow(cells: seq<Cell>, ls: seq<Text>, top: nat, color: Color)
  {
    |cells| == CELLS
    && forall r, x | 1 <= r <= ROWS && 0 <= x < WIDTH :: cells[Index(x, r)] == CellOf(ls, top + r - 1, x, color)
  }

  /** Rows 1 to 24 show the last 24 lines, the cursor stands behind the last. */
  ghost predicate Shows(s: Screen, ls: seq<Text>, color: Color)
  {
    && OnScreen(s) && ls != []
    && s.y == |ls| - Top(|ls|) && s.x == |ls[|ls| - 1]|
    && RowsShow(s.cells, ls, Top(|ls|), color)
  }

  /** Cell by cell: row r shows line `top` + r - 1, each character in the colour of
      the console, and blanks behind it; there are 24 rows for the last lines. */
  lemma ShowsMeans(s: Screen, ls: seq<Text>, color: Color, r: int, x: int)
    requires Shows(s, ls, color) && 1 <= r <= 24 && 0 <= x < 80
    ensures var top := if |ls| <= 24 then 0 else |ls| - 24;
            var j, v := top + r - 1, s.cells[r * 80 + x];
            && (j < |ls| && x < |ls[j]| && Printable(ls[j][x]) ==> v % 0x100 == ls[j][x] && v / 0x100 == color)
            && (j >= |ls| || x >= |ls[j]| ==> v % 0x100 == 32)
            && s.y == |ls| - top && s.x == |ls[|ls| - 1]|
  {
    assert Index(x, r) == r * 80 + x;
  }

  /** Writing at the cursor. */
  lemma CharacterShows(s: Screen, ls: seq<Text>, c: Char, color: Color)
    requires Shows(s, ls, color) && c != NEWLINE
    ensures RowsShow(s.cells[Index(s.x, s.y) := VgaByte(c, color)], Typed(ls, c), Top(|ls|), color)
  {
    var top, cells := Top(|ls|), s.cells[Index(s.x, s.y) := VgaByte(c, color)];
    forall r, x | 1 <= r <= ROWS && 0 <= x < WIDTH
      ensures cells[Index(x, r)] == CellOf(Typed(ls, c), top + r - 1, x, color)
    {
      assert s.cells[Index(x, r)] == CellOf(ls, top + r - 1, x, color);
      assert Index(x, r) == Index(s.x, s.y) <==> x == s.x && r == s.y;
    }
  }

  lemma NewlineShows(s: Screen, ls: seq<Text>, color: Color)
    requires Shows(s, ls, color)
    ensures RowsShow(s.cells, Typed(ls, NEWLINE), Top(|ls|), color)
  {
    forall r, x | 1 <= r <= ROWS && 0 <= x < WIDTH
      ensures s.cells[Index(x, r)] == CellOf(Typed(ls, NEWLINE), Top(|ls|) + r - 1, x, color)
    {
      assert s.cells[Index(x, r)] == CellOf(ls, Top(|ls|) + r - 1, x, color);
    }
  }

  /** Scrolling moves on by one line, whose row is still empty. */
  lemma ScrolledShows(s: Screen, ls: seq<Text>, top: nat, color: Color)
    requires RowsShow(s.cells, ls, top, color) && s.y == ROWS + 1 && |ls| == top + ROWS + 1 && ls[|ls| - 1] == []
    ensures RowsShow(Scrolled(s).cells, ls, top + 1, color)
  {
    var cells := Scrolled(s).cells;
    forall r, x | 1 <= r <= ROWS && 0 <= x < WIDTH
      ensures cells[Index(x, r)] == CellOf(ls, top + 1 + r - 1, x, color)
    {
      if r < ROWS {
        assert cells[Index(x, r)] == s.cells[2 * WIDTH..][Index(x, r) - WIDTH] == s.cells[Index(x, r + 1)];
        assert s.cells[Index(x, r + 1)] == CellOf(ls, top + (r + 1) - 1, x, color);
      }
    }
  }

  lemma TypedShows(s: Screen, ls: seq<Text>, c: Char, color: Color)
    requires Shows(s, ls, color) && Printable(c)
    ensures Shows(Put(s, c, color), Typed(ls, c), color)
  {
    hide RowsShow;
    var top, ls' := Top(|ls|), Typed(ls, c);
    var s1: Screen;
    if c == NEWLINE {
      NewlineShows(s, ls, color);
      s1 := s.(x := 0, y := s.y + 1);
    } else {
      CharacterShows(s, ls, c, color);
      s1 := Advanced(s.(cells := s.cells[Index(s.x, s.y) := VgaByte(c, color)]));
    }
    assert Put(s, c, color) == Scrolled(s1) && s1.y == |ls'| - top && s1.x == |ls'[|ls'| - 1]|;
    if s1.y > ROWS {
      ScrolledShows(s1, ls', top, color);
    }
  }

  lemma PutShows(s: Screen, t: Text, c: Char, color: Color)
    requires Shows(s, Lines(t), color) && Printable(c)
    ensures Shows(Put(s, c, color), Lines(t + [c]), color)
  {
    LinesTyped(t, c);
    TypedShows(s, Lines(t), c, color);
  }

  /** A cleared screen shows the empty text. */
  lemma ClearedShows(s: Screen, color: Color)
    requires |s.cells| == CELLS && s.x == 0 && s.y == 1
    requires forall i | WIDTH <= i < CELLS :: s.cells[i] == VgaByte(SPACE, color)
    ensures Shows(s, Lines([]), color)
  {
    assert Lines([]) == [[]];
  }

  /** A text that leads to column x of line y: newlines and then blanks. */
  function Indent(x: nat, y: nat): (t: Text)
  {
    if x > 0 then Indent(x - 1, y) + [SPACE]
    else if y > 0 then Indent(0, y - 1) + [NEWLINE]
    else []
  }

  function Blanks(n: nat): (t: Text) { seq(n, _ => SPACE) }

  function EmptyLines(n: nat): (ls: seq<Text>) { seq(n, _ => []) }

  lemma {:induction false} IndentLines(x: nat, y: nat)
    requires x < WIDTH
    ensures Lines(Indent(x, y)) == EmptyLines(y) + [Blanks(x)]
  {
    if x > 0 {
      IndentLines(x - 1, y);
      LinesTyped(Indent(x - 1, y), SPACE);
      var ls := Lines(Indent(x - 1, y));
      assert ls[..|ls| - 1] == EmptyLines(y) && ls[|ls| - 1] == Blanks(x - 1);
      assert Blanks(x - 1) + [SPACE] == Blanks(x);
    } else if y > 0 {
      IndentLines(0, y - 1);
      LinesTyped(Indent(0, y - 1), NEWLINE);
      assert Blanks(0) == [] && EmptyLines(y - 1) + [[]] == EmptyLines(y);
    } else {
      assert Lines([]) == [[]];
    }
  }

  /** A blank screen whose cursor stayed where it was shows just blanks up to there. */
  lemma BlankShows(s: Screen, color: Color)
    requires OnScreen(s) && forall i | WIDTH <= i < CELLS :: s.cells[i] == VgaByte(SPACE, color)
    ensures Shows(s, Lines(Indent(s.x, s.y - 1)), color)
  {
    IndentLines(s.x, s.y - 1);
  }

  lemma PrintableKeepsBar(s: Screen, c: Char, color: Color)
    requires OnScreen(s) && Printable(c)
    ensures Put(s, c, color).cells[..WIDTH] == s.cells[..WIDTH]
  {
    StatusBarExactly(s, c, color);
  }

  // ---- The console itself ----

  class Terminal {
    const buffer: array<Cell>
    var cursorx: int
    var cursory: int
    var color: Color
    var clearCalls: Color

    ghost function View(): (s: Screen)
      reads this, buffer
    {
      Screen(buffer[..], cursorx, cursory)
    }

    ghost predicate Valid()
      reads this, buffer
    {
      buffer.Length == CELLS && OnScreen(View())
    }

    constructor (color: Color)
      ensures buffer.Length == CELLS && fresh(buffer) && this.color == color && cursorx == 0 && cursory == 0 && clearCalls == 0
    {
      buffer := new Cell[CELLS](_ => 0);
      cursorx, cursory, this.color, clearCalls := 0, 0, color, 0;
    }

    /** Blanks all rows but the status bar. The cursor goes to row 1, but not on
        the first call, nor whenever the byte that counts them is back at 0. */
    method ClearConsole()
      requires buffer.Length == CELLS
      modifies buffer, this`cursorx, this`cursory, this`clearCalls
      ensures buffer[..WIDTH] == old(buffer[..WIDTH])
      ensures forall i | WIDTH <= i < CELLS :: buffer[i] == VgaByte(SPACE, color)
      ensures clearCalls == (old(clearCalls) + 1) % 0x100
      ensures if old(clearCalls) != 0 then cursorx == 0 && cursory == 1 else cursorx == old(cursorx) && cursory == old(cursory)
      ensures old(clearCalls != 0) ==> Valid() && Shows(View(), Lines([]), color)
      ensures old(clearCalls == 0 && OnScreen(View())) ==> Valid() && Shows(View(), Lines(Indent(cursorx, cursory - 1)), color)
    {
      var y := 1;
      while y < 25
        invariant clearCalls == old(clearCalls) && cursorx == old(cursorx) && cursory == old(cursory)
        invariant 1 <= y <= 25 && buffer[..WIDTH] == old(buffer[..WIDTH])
        invariant forall i | WIDTH <= i < y * WIDTH :: buffer[i] == VgaByte(SPACE, color)
      {
        var x := 0;
        while x < WIDTH
          invariant clearCalls == old(clearCalls) && cursorx == old(cursorx) && cursory == old(cursory)
          invariant 0 <= x <= WIDTH && buffer[..WIDTH] == old(buffer[..WIDTH])
          invariant forall i | WIDTH <= i < y * WIDTH + x :: buffer[i] == VgaByte(SPACE, color)
        {
          buffer[y * WIDTH + x] := VgaByte(SPACE, color);
          x := x + 1;
        }
        y := y + 1;
      }
      if clearCalls != 0 {
        cursorx := 0;
        cursory := 1;
        ClearedShows(View(), color);
      } else if OnScreen(View()) {
        BlankShows(View(), color);
      }
      clearCalls := (clearCalls + 1) % 0x100;
    }

    method MoveUp()
      requires buffer.Length == CELLS
      modifies buffer
      ensures forall i | 0 <= i < CELLS :: buffer[i] == if WIDTH <= i < 24 * WIDTH then old(buffer[i + WIDTH]) else old(buffer[i])
    {
      var i := WIDTH;
      while i < 24 * WIDTH
        invariant WIDTH <= i <= 24 * WIDTH
        invariant forall k | 0 <= k < CELLS :: buffer[k] == if WIDTH <= k < i then old(buffer[k + WIDTH]) else old(buffer[k])
      {
        buffer[i] := buffer[i + WIDTH];
        i := i + 1;
      }
    }

    method BlankLast()
      requires buffer.Length == CELLS
      modifies buffer
      ensures forall i | 0 <= i < CELLS :: buffer[i] == if 24 * WIDTH <= i then VgaByte(SPACE, LIGHT_GREY) else old(buffer[i])
    {
      var i := 24 * WIDTH;
      while i < 25 * WIDTH
        invariant 24 * WIDTH <= i <= 25 * WIDTH
        invariant forall k | 0 <= k < CELLS :: buffer[k] == if 24 * WIDTH <= k < i then VgaByte(SPACE, LIGHT_GREY) else old(buffer[k])
      {
        buffer[i] := VgaByte(SPACE, LIGHT_GREY);
        i := i + 1;
      }
    }

    method ScrollConsole()
      requires buffer.Length == CELLS
      modifies buffer, this`cursory
      ensures View() == Scrolled(old(View()))
    {
      if cursory >= 25 {
        MoveUp();
        BlankLast();
        ghost var s := old(buffer[..]);
        ghost var r := s[..WIDTH] + s[2 * WIDTH..] + seq(WIDTH, _ => VgaByte(SPACE, LIGHT_GREY));
        assert forall i | 0 <= i < CELLS :: buffer[i] == r[i];
        assert buffer[..] == r;
        cursory := 24;
      }
    }

    method Kputc(c: Char)
      requires Valid()
      modifies buffer, this`cursorx, this`cursory
      ensures Valid() && View() == Put(old(View()), c, color)
    {
      if c == NEWLINE {
        cursorx := 0;
        cursory := cursory + 1;
      } else if c == RETURN {
        cursorx := 0;
      } else if c == BACKSPACE {
        cursorx := cursorx - 1;
        buffer[cursory * WIDTH + cursorx] := VgaByte(SPACE, color);
      } else if c == TAB {
        cursorx := cursorx + 4;
      } else {
        buffer[cursory * WIDTH + cursorx] := VgaByte(c, color);
      }
      if c != NEWLINE {
        cursorx := cursorx + 1;
      }
      if cursorx >= WIDTH {
        cursorx := 0;
        cursory := cursory + 1;
      }
      ScrollConsole();
    }

    /** Prints a text after one that is already on the screen. */
    method Print(text: Text, ghost before: Text)
      requires Valid() && Shows(View(), Lines(before), color) && forall c | c in text :: Printable(c)
      modifies buffer, this`cursorx, this`cursory
      ensures Valid() && Shows(View(), Lines(before + text), color)
      ensures buffer[..WIDTH] == old(buffer[..WIDTH])
    {
      hide Put, Shows, Lines, OnScreen;
      var i := 0;
      assert before + text[..0] == before;
      while i < |text|
        invariant 0 <= i <= |text| && Valid() && Shows(View(), Lines(before + text[..i]), color)
        invariant buffer[..WIDTH] == old(buffer[..WIDTH])
      {
        assert before + text[..i + 1] == before + text[..i] + [text[i]];
        PutShows(View(), before + text[..i], text[i], color);
        PrintableKeepsBar(View(), text[i], color);
        Kputc(text[i]);
        i := i + 1;
      }
      assert text[..|text|] == text;
    }

    /** After clearing, any text of printable characters and newlines leaves its
        last 24 lines on rows 1 to 24, and the status bar as it was. When the
        clearing did not move the cursor, the text begins where that was. */
    method ClearAndPrint(text: Text)
      requires buffer.Length == CELLS && (clearCalls != 0 || Valid()) && forall c | c in text :: Printable(c)
      modifies buffer, this`cursorx, this`cursory, this`clearCalls
      ensures Valid() && buffer[..WIDTH] == old(buffer[..WIDTH])
      ensures old(clearCalls) != 0 ==> Shows(View(), Lines(text), color)
      ensures old(clearCalls) == 0 ==> Shows(View(), Lines(Indent(old(cursorx), old(cursory) - 1) + text), color)
    {
      hide Shows, Lines, Indent;
      var reset := clearCalls != 0;
      ClearConsole();
      if reset {
        Print(text, []);
        assert [] + text == text;
      } else {
        Print(text, Indent(cursorx, cursory - 1));
      }
    }
  }
}
