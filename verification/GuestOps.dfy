/** The guest as the host can observe it: the stream of shared-memory actions that each terminal
    call performs, and what those actions mean when nothing runs in between. */
module GuestOps {
  import opened Vga
  import opened Renderer

  datatype Update =
    | NoUpdate | CharDrawn | LineDrawn | CursorUpdate | ScreenRedraw | ConsoleShutdown | Scrollup | Inval

  /** One action on shared memory. `Post` stands for a whole phi_notify call: write AVAIL, then wait
      for DRAWN and clear it; the Handshake module takes it apart into its atomic steps. */
  datatype Op =
    | Store(at: nat, cells: seq<Cell>)
    | SetChar(coords: nat)
    | SetLine(row: nat)
    | Post(update: Update)

  predicate ValidOp(op: Op) {
    match op
    case Store(at, cells) => at + |cells| <= CELLS
    case Post(u) => u != NoUpdate
    case _ => true
  }

  predicate ValidOps(ops: seq<Op>) {
    forall i :: 0 <= i < |ops| ==> ValidOp(ops[i])
  }

  /** The framebuffer, and every row that was at its top when a scrollup was posted. */
  datatype World = World(fb: seq<Cell>, saved: seq<Row>)

  function Overwrite(fb: seq<Cell>, at: nat, cells: seq<Cell>): (r: seq<Cell>)
    requires at + |cells| <= |fb|
    ensures |r| == |fb|
  {
    fb[..at] + cells + fb[at + |cells|..]
  }

  function Apply(w: World, op: Op): (w': World)
    requires |w.fb| == CELLS && ValidOp(op)
    ensures |w'.fb| == CELLS
  {
    match op
    case Store(at, cells) => w.(fb := Overwrite(w.fb, at, cells))
    case Post(Scrollup) => w.(saved := w.saved + [RowOf(w.fb, 0)])
    case _ => w
  }

  function Exec(w: World, ops: seq<Op>): (w': World)
    requires |w.fb| == CELLS && ValidOps(ops)
    ensures |w'.fb| == CELLS
  {
    if ops == [] then w
    else Apply(Exec(w, ops[..|ops| - 1]), ops[|ops| - 1])
  }

  lemma ExecSnoc(w: World, ops: seq<Op>, op: Op)
    requires |w.fb| == CELLS && ValidOps(ops) && ValidOp(op)
    ensures ValidOps(ops + [op]) && Exec(w, ops + [op]) == Apply(Exec(w, ops), op)
  {
    assert (ops + [op])[..|ops|] == ops;
  }

  lemma {:induction false} ExecConcat(w: World, a: seq<Op>, b: seq<Op>)
    requires |w.fb| == CELLS && ValidOps(a) && ValidOps(b)
    ensures ValidOps(a + b) && Exec(w, a + b) == Exec(Exec(w, a), b)
  {
    if b == [] {
      assert a + b == a;
    } else {
      var n := |b| - 1;
      ExecConcat(w, a, b[..n]);
      ExecSnoc(w, a + b[..n], b[n]);
      assert a + b == a + b[..n] + [b[n]];
    }
  }

  // ---- the terminal ------------------------------------------------------------------------

  datatype Term = Term(row: nat, col: nat, color: bv8, fb: seq<Cell>)

  predicate ValidTerm(t: Term) {
    t.row < HEIGHT && t.col < WIDTH && |t.fb| == CELLS
  }

  /** The screen one line higher, a blank line at the bottom. */
  function ShiftUp(fb: seq<Cell>, color: bv8): (r: seq<Cell>)
    requires |fb| == CELLS
    ensures |r| == CELLS
  {
    fb[WIDTH..] + BlankRow(color)
  }

  function NewRow(t: Term): (t': Term)
    requires ValidTerm(t)
    ensures ValidTerm(t')
  {
    if t.row + 1 == HEIGHT then t.(col := 0, fb := ShiftUp(t.fb, t.color))
    else t.(col := 0, row := t.row + 1)
  }

  function PutAtCursor(t: Term, c: Char): (t': Term)
    requires ValidTerm(t)
    ensures ValidTerm(t')
  {
    t.(fb := t.fb[t.row * WIDTH + t.col := MakeVgaEntry(c, t.color)])
  }

  function Putchar(t: Term, c: Char): (t': Term)
    requires ValidTerm(t)
    ensures ValidTerm(t') && t'.color == t.color
  {
    if c == NEWLINE then NewRow(t)
    else if t.col + 1 == WIDTH then NewRow(PutAtCursor(t, c))
    else PutAtCursor(t, c).(col := t.col + 1)
  }

  function Print(t: Term, s: Text): (t': Term)
    requires ValidTerm(t)
    ensures ValidTerm(t') && t'.color == t.color
  {
    if s == [] then t else Putchar(Print(t, s[..|s| - 1]), s[|s| - 1])
  }

  // ---- what each call does to shared memory --------------------------------------------------

  const WORD_CELLS: nat := 4      // 16-bit cells in one `long`
  const SCROLL_WORDS: nat := 480  // 24 rows of 160 bytes, in longs

  /** The first n word copies of the scroll, each one row (20 words) down to where it belongs. */
  function CopyOps(fb: seq<Cell>, n: nat): (ops: seq<Op>)
    requires |fb| == CELLS && n <= SCROLL_WORDS
    ensures ValidOps(ops)
  {
    if n == 0 then []
    else
      var at := WORD_CELLS * (n - 1);
      CopyOps(fb, n - 1) + [Store(at, fb[at + WIDTH..at + WIDTH + WORD_CELLS])]
  }

  /** n cells from `at` on set to `e`, one by one. */
  function FillOps(e: Cell, at: nat, n: nat): (ops: seq<Op>)
    requires at + n <= CELLS
    ensures ValidOps(ops)
  {
    if n == 0 then [] else FillOps(e, at, n - 1) + [Store(at + n - 1, [e])]
  }

  /** Move everything up one row and blank the last. */
  function MoveUpOps(fb: seq<Cell>, color: bv8): (ops: seq<Op>)
    requires |fb| == CELLS
    ensures ValidOps(ops)
  {
    CopyOps(fb, SCROLL_WORDS) + FillOps(Blank(color), CELLS - WIDTH, WIDTH)
  }

  function ScrollOps(fb: seq<Cell>, color: bv8): (ops: seq<Op>)
    requires |fb| == CELLS
    ensures ValidOps(ops)
  {
    [Post(Scrollup)] + MoveUpOps(fb, color) + [Post(ScreenRedraw)]
  }

  function NewRowOps(t: Term): (ops: seq<Op>)
    requires ValidTerm(t)
    ensures ValidOps(ops)
  {
    [SetLine(t.row), Post(LineDrawn)] + if t.row + 1 == HEIGHT then ScrollOps(t.fb, t.color) else []
  }

  function PutOp(t: Term, c: Char): (op: Op)
    requires ValidTerm(t)
    ensures ValidOp(op)
  {
    Store(t.row * WIDTH + t.col, [MakeVgaEntry(c, t.color)])
  }

  function PutcharOps(t: Term, c: Char): (ops: seq<Op>)
    requires ValidTerm(t)
    ensures ValidOps(ops)
  {
    if c == NEWLINE then NewRowOps(t)
    else if t.col + 1 == WIDTH then [PutOp(t, c)] + NewRowOps(PutAtCursor(t, c))
    else [PutOp(t, c)]
  }

  function PrintOps(t: Term, s: Text): (ops: seq<Op>)
    requires ValidTerm(t)
    ensures ValidOps(ops)
  {
    if s == [] then []
    else
      var n := |s| - 1;
      PrintOps(t, s[..n]) + PutcharOps(Print(t, s[..n]), s[n])
  }

  function InitOps(color: bv8): (ops: seq<Op>)
    ensures ValidOps(ops)
  {
    FillOps(Blank(color), 0, CELLS) + [Post(ScreenRedraw)]
  }

  function BlankTerm(color: bv8): (t: Term)
    ensures ValidTerm(t)
  {
    Term(0, 0, color, seq(CELLS, _ => Blank(color)))
  }

  /** term_init, then the whole stream through putchar. */
  function Program(color: bv8, s: Text): (ops: seq<Op>)
    ensures ValidOps(ops)
  {
    InitOps(color) + PrintOps(BlankTerm(color), s)
  }

  // ---- the actions amount to the terminal's state ----------------------------------------------

  lemma ExecOne(w: World, op: Op)
    requires |w.fb| == CELLS && ValidOp(op)
    ensures Exec(w, [op]) == Apply(w, op)
  {
    assert [op][..0] == [];
  }

  /** The framebuffer after the first n words have been copied. */
  function HalfCopied(fb: seq<Cell>, n: nat): (r: seq<Cell>)
    requires |fb| == CELLS && n <= SCROLL_WORDS
    ensures |r| == CELLS
  {
    fb[WIDTH..WIDTH + WORD_CELLS * n] + fb[WORD_CELLS * n..]
  }

  lemma CopyWord(fb: seq<Cell>, n: nat)
    requires |fb| == CELLS && n < SCROLL_WORDS
    ensures var at := WORD_CELLS * n;
            Overwrite(HalfCopied(fb, n), at, fb[at + WIDTH..at + WIDTH + WORD_CELLS]) == HalfCopied(fb, n + 1)
  {
    var at := WORD_CELLS * n;
    var word := fb[at + WIDTH..at + WIDTH + WORD_CELLS];
    OverwriteMiddle(fb[WIDTH..WIDTH + at], fb[at..], word);
    assert fb[WIDTH..WIDTH + at] + word == fb[WIDTH..WIDTH + at + WORD_CELLS];
    assert fb[at..][WORD_CELLS..] == fb[at + WORD_CELLS..];
  }

  lemma {:induction false} ExecCopy(w: World, n: nat) returns (ops: seq<Op>)
    requires |w.fb| == CELLS && n <= SCROLL_WORDS
    ensures ops == CopyOps(w.fb, n) && ValidOps(ops) && Exec(w, ops) == w.(fb := HalfCopied(w.fb, n))
  {
    if n == 0 {
      ops := [];
      assert HalfCopied(w.fb, 0) == w.fb;
    } else {
      ops := ExecCopy(w, n - 1);
      ExecCopyWord(w, ops, n - 1);
      var at := WORD_CELLS * (n - 1);
      ops := ops + [Store(at, w.fb[at + WIDTH..at + WIDTH + WORD_CELLS])];
    }
  }

  lemma ExecCopyWord(w: World, ops: seq<Op>, n: nat)
    requires |w.fb| == CELLS && n < SCROLL_WORDS && ValidOps(ops) && Exec(w, ops) == w.(fb := HalfCopied(w.fb, n))
    ensures var at := WORD_CELLS * n; var store := Store(at, w.fb[at + WIDTH..at + WIDTH + WORD_CELLS]);
            ValidOps(ops + [store]) && Exec(w, ops + [store]) == w.(fb := HalfCopied(w.fb, n + 1))
  {
    var at := WORD_CELLS * n;
    ExecSnoc(w, ops, Store(at, w.fb[at + WIDTH..at + WIDTH + WORD_CELLS]));
    CopyWord(w.fb, n);
  }

  lemma OverwriteMiddle(done: seq<Cell>, rest: seq<Cell>, cells: seq<Cell>)
    requires |cells| <= |rest|
    ensures Overwrite(done + rest, |done|, cells) == done + cells + rest[|cells|..]
  {
  }

  /** The framebuffer with n cells set to `e` from `at` on. */
  function Filled(fb: seq<Cell>, e: Cell, at: nat, n: nat): (r: seq<Cell>)
    requires at + n <= |fb|
    ensures |r| == |fb|
  {
    fb[..at] + seq(n, _ => e) + fb[at + n..]
  }

  lemma FillCell(fb: seq<Cell>, e: Cell, at: nat, n: nat)
    requires at + n < |fb|
    ensures Overwrite(Filled(fb, e, at, n), at + n, [e]) == Filled(fb, e, at, n + 1)
  {
    var done := fb[..at] + seq(n, _ => e);
    OverwriteMiddle(done, fb[at + n..], [e]);
    assert done + [e] == fb[..at] + seq(n + 1, _ => e);
    assert fb[at + n..][1..] == fb[at + n + 1..];
  }

  lemma ExecFillCell(w: World, ops: seq<Op>, e: Cell, at: nat, n: nat)
    requires |w.fb| == CELLS && at + n < CELLS
    requires ValidOps(ops) && Exec(w, ops) == w.(fb := Filled(w.fb, e, at, n))
    ensures ValidOps(ops + [Store(at + n, [e])])
    ensures Exec(w, ops + [Store(at + n, [e])]) == w.(fb := Filled(w.fb, e, at, n + 1))
  {
    ExecSnoc(w, ops, Store(at + n, [e]));
    FillCell(w.fb, e, at, n);
  }

  lemma {:induction false} ExecFill(w: World, e: Cell, at: nat, n: nat) returns (ops: seq<Op>)
    requires |w.fb| == CELLS && at + n <= CELLS
    ensures ops == FillOps(e, at, n) && ValidOps(ops)
    ensures Exec(w, ops) == w.(fb := Filled(w.fb, e, at, n))
  {
    if n == 0 {
      ops := [];
      assert Filled(w.fb, e, at, 0) == w.fb;
    } else {
      var k := n - 1;
      ops := ExecFill(w, e, at, k);
      ExecFillCell(w, ops, e, at, k);
      ops := ops + [Store(at + k, [e])];
    }
  }

  lemma MovedUp(fb: seq<Cell>, color: bv8)
    requires |fb| == CELLS
    ensures Filled(HalfCopied(fb, SCROLL_WORDS), Blank(color), CELLS - WIDTH, WIDTH) == ShiftUp(fb, color)
  {
    assert HalfCopied(fb, SCROLL_WORDS)[..CELLS - WIDTH] == fb[WIDTH..];
  }

  lemma ExecMoveUp(w: World, color: bv8)
    requires |w.fb| == CELLS
    ensures Exec(w, MoveUpOps(w.fb, color)) == w.(fb := ShiftUp(w.fb, color))
  {
    var copies := ExecCopy(w, SCROLL_WORDS);
    var blanks := ExecFill(w.(fb := HalfCopied(w.fb, SCROLL_WORDS)), Blank(color), CELLS - WIDTH, WIDTH);
    ExecConcat(w, copies, blanks);
    MovedUp(w.fb, color);
  }

  /** The word-wise forward copy is the row shift, and the row it destroys was saved first. */
  lemma ExecScroll(w: World, color: bv8)
    requires |w.fb| == CELLS
    ensures Exec(w, ScrollOps(w.fb, color)) == World(ShiftUp(w.fb, color), w.saved + [RowOf(w.fb, 0)])
  {
    var w1 := Apply(w, Post(Scrollup));
    ExecOne(w, Post(Scrollup));
    ExecMoveUp(w1, color);
    ExecConcat(w, [Post(Scrollup)], MoveUpOps(w.fb, color));
    ExecSnoc(w, [Post(Scrollup)] + MoveUpOps(w.fb, color), Post(ScreenRedraw));
  }

  lemma ExecNewRow(w: World, t: Term)
    requires ValidTerm(t) && w.fb == t.fb
    ensures Exec(w, NewRowOps(t)) == World(NewRow(t).fb,
              if t.row + 1 == HEIGHT then w.saved + [RowOf(t.fb, 0)] else w.saved)
  {
    var head := [SetLine(t.row), Post(LineDrawn)];
    ExecOne(w, SetLine(t.row));
    ExecSnoc(w, [SetLine(t.row)], Post(LineDrawn));
    assert [SetLine(t.row)] + [Post(LineDrawn)] == head;
    if t.row + 1 == HEIGHT {
      ExecScroll(w, t.color);
      ExecConcat(w, head, ScrollOps(t.fb, t.color));
    } else {
      assert head + [] == head;
    }
  }

  /** True when this putchar pushes the top row off the screen. */
  predicate Scrolls(t: Term, c: Char) {
    t.row + 1 == HEIGHT && (c == NEWLINE || t.col + 1 == WIDTH)
  }

  lemma ExecPut(w: World, t: Term, c: Char)
    requires ValidTerm(t) && w.fb == t.fb
    ensures Exec(w, [PutOp(t, c)]) == w.(fb := PutAtCursor(t, c).fb)
    ensures t.row > 0 ==> RowOf(PutAtCursor(t, c).fb, 0) == RowOf(t.fb, 0)
  {
    ExecOne(w, PutOp(t, c));
    RowOfUpdate(t.fb, t.row, t.col, MakeVgaEntry(c, t.color), 0);
  }

  lemma ExecPutchar(w: World, t: Term, c: Char)
    requires ValidTerm(t) && w.fb == t.fb
    ensures Exec(w, PutcharOps(t, c)) == World(Putchar(t, c).fb,
              if Scrolls(t, c) then w.saved + [RowOf(t.fb, 0)] else w.saved)
  {
    if c == NEWLINE {
      ExecNewRow(w, t);
    } else {
      ExecPut(w, t, c);
      if t.col + 1 == WIDTH {
        var t1 := PutAtCursor(t, c);
        ExecNewRow(w.(fb := t1.fb), t1);
        ExecConcat(w, [PutOp(t, c)], NewRowOps(t1));
      }
    }
  }

  lemma ExecInit(w: World, color: bv8)
    requires |w.fb| == CELLS
    ensures Exec(w, InitOps(color)) == w.(fb := BlankTerm(color).fb)
  {
    var blanks := ExecFill(w, Blank(color), 0, CELLS);
    ExecSnoc(w, blanks, Post(ScreenRedraw));
    assert Filled(w.fb, Blank(color), 0, CELLS) == BlankTerm(color).fb;
  }

  // ---- the terminal's state is the reference rendering ------------------------------------------

  /** The terminal shows exactly the last rows of the page, with the cursor on the last one. */
  ghost predicate Shows(t: Term, lines: seq<Text>)
    requires ValidTerm(t) && |lines| > 0
  {
    && t.row == |lines| - 1 - Scrolled(lines)
    && t.col == |lines[|lines| - 1]|
    && forall r :: 0 <= r < HEIGHT ==> RowOf(t.fb, r) == OnScreen(lines, t.color)[r]
  }

  lemma RowOfUpdate(fb: seq<Cell>, r: nat, c: nat, e: Cell, k: nat)
    requires |fb| == CELLS && r < HEIGHT && c < WIDTH && k < HEIGHT
    ensures RowOf(fb[r * WIDTH + c := e], k) == if k == r then RowOf(fb, r)[c := e] else RowOf(fb, k)
  {
  }

  lemma RowOfShift(fb: seq<Cell>, color: bv8, r: nat)
    requires |fb| == CELLS && r < HEIGHT
    ensures RowOf(ShiftUp(fb, color), r) == if r + 1 == HEIGHT then BlankRow(color) else RowOf(fb, r + 1)
  {
  }

  lemma PadSnoc(line: Text, c: Char, color: bv8)
    requires |line| < WIDTH
    ensures Pad(line + [c], color) == Pad(line, color)[|line| := MakeVgaEntry(c, color)]
  {
  }

  lemma PadEmpty(color: bv8)
    ensures Pad([], color) == BlankRow(color)
  {
  }

  /** Writing at the cursor extends the last row. */
  lemma ShowsPut(t: Term, lines: seq<Text>, c: Char)
    requires ValidTerm(t) && |lines| > 0 && Shows(t, lines) && |lines[|lines| - 1]| < WIDTH
    ensures var n := |lines| - 1; var t1 := PutAtCursor(t, c); var ls := lines[..n] + [lines[n] + [c]];
            && t1.row == |ls| - 1 - Scrolled(ls)
            && forall r :: 0 <= r < HEIGHT ==> RowOf(t1.fb, r) == OnScreen(ls, t.color)[r]
  {
    var n := |lines| - 1;
    var t1 := PutAtCursor(t, c);
    var ls := lines[..n] + [lines[n] + [c]];
    forall r | 0 <= r < HEIGHT ensures RowOf(t1.fb, r) == OnScreen(ls, t.color)[r] {
      RowOfUpdate(t.fb, t.row, t.col, MakeVgaEntry(c, t.color), r);
      PadSnoc(lines[n], c, t.color);
    }
  }

  /** Starting a row, scrolling if the cursor is at the bottom, matches starting a line. */
  lemma ShowsNewRow(t: Term, lines: seq<Text>)
    requires ValidTerm(t) && |lines| > 0
    requires t.row == |lines| - 1 - Scrolled(lines)
    requires forall r :: 0 <= r < HEIGHT ==> RowOf(t.fb, r) == OnScreen(lines, t.color)[r]
    ensures Shows(NewRow(t), lines + [[]])
  {
    var t1, ls := NewRow(t), lines + [[]];
    PadEmpty(t.color);
    forall r | 0 <= r < HEIGHT ensures RowOf(t1.fb, r) == OnScreen(ls, t.color)[r] {
      if t.row + 1 == HEIGHT {
        RowOfShift(t.fb, t.color, r);
        if r + 1 < HEIGHT {
          assert RowOf(t.fb, r + 1) == OnScreen(lines, t.color)[r + 1];
        }
      }
    }
  }

  lemma ShowsPutchar(t: Term, lines: seq<Text>, c: Char)
    requires ValidTerm(t) && |lines| > 0 && Shows(t, lines) && |lines[|lines| - 1]| < WIDTH
    ensures Shows(Putchar(t, c), Advance(lines, c))
    ensures Scrolled(Advance(lines, c)) == Scrolled(lines) + if Scrolls(t, c) then 1 else 0
  {
    if c == NEWLINE {
      ShowsNewRow(t, lines);
    } else {
      ShowsPut(t, lines, c);
      var n := |lines| - 1;
      var ls := lines[..n] + [lines[n] + [c]];
      if t.col + 1 == WIDTH {
        ShowsNewRow(PutAtCursor(t, c), ls);
      }
    }
  }

  /** The rows that have scrolled away, as the host should have saved them. */
  function Gone(lines: seq<Text>, color: bv8): (rows: seq<Row>)
    ensures |rows| == Scrolled(lines)
  {
    PadAll(lines[..Scrolled(lines)], color)
  }

  lemma GoneAdvance(t: Term, lines: seq<Text>, c: Char)
    requires ValidTerm(t) && |lines| > 0 && Shows(t, lines) && |lines[|lines| - 1]| < WIDTH
    ensures Gone(Advance(lines, c), t.color)
         == if Scrolls(t, c) then Gone(lines, t.color) + [RowOf(t.fb, 0)] else Gone(lines, t.color)
  {
    ShowsPutchar(t, lines, c);
    var ls, top := Advance(lines, c), Scrolled(lines);
    assert top < |lines| && lines[..top] == ls[..top];
    if Scrolls(t, c) {
      assert ls[..top + 1] == ls[..top] + [lines[top]];
      assert RowOf(t.fb, 0) == OnScreen(lines, t.color)[0];
    }
  }

  /** Terminal `t` shows `lines`, and the actions have the same effect on shared memory. */
  ghost predicate Renders(w0: World, ops: seq<Op>, t: Term, lines: seq<Text>) {
    && ValidTerm(t) && |w0.fb| == CELLS && ValidOps(ops) && |lines| > 0
    && |lines[|lines| - 1]| < WIDTH
    && Shows(t, lines)
    && Exec(w0, ops) == World(t.fb, Gone(lines, t.color))
  }

  /** One more character. */
  lemma RenderStep(w0: World, ops: seq<Op>, t: Term, lines: seq<Text>, c: Char)
    requires Renders(w0, ops, t, lines) && |Advance(lines, c)[|Advance(lines, c)| - 1]| < WIDTH
    ensures Renders(w0, ops + PutcharOps(t, c), Putchar(t, c), Advance(lines, c))
  {
    ShowsPutchar(t, lines, c);
    GoneAdvance(t, lines, c);
    ExecPutchar(Exec(w0, ops), t, c);
    ExecConcat(w0, ops, PutcharOps(t, c));
  }

  lemma LinesLast(s: Text)
    requires s != []
    ensures Lines(s) == Advance(Lines(s[..|s| - 1]), s[|s| - 1])
  {
    LinesSnoc(s[..|s| - 1], s[|s| - 1]);
    assert s[..|s| - 1] + [s[|s| - 1]] == s;
  }

  lemma {:induction false} RendersAll(w0: World, t0: Term, s: Text)
    returns (ops: seq<Op>, t: Term, lines: seq<Text>)
    requires ValidTerm(t0) && Renders(w0, [], t0, Lines([]))
    ensures ops == PrintOps(t0, s) && t == Print(t0, s) && lines == Lines(s)
    ensures Renders(w0, ops, t, lines)
  {
    if s == [] {
      ops, t, lines := [], t0, Lines([]);
    } else {
      var n := |s| - 1;
      ops, t, lines := RendersAll(w0, t0, s[..n]);
      LinesLast(s);
      RenderStep(w0, ops, t, lines, s[n]);
      ops, t, lines := ops + PutcharOps(t, s[n]), Putchar(t, s[n]), Advance(lines, s[n]);
    }
  }

  /** Executing the actions for any stream renders that stream: rows saved, screen and cursor. */
  lemma PrintRenders(w: World, color: bv8, s: Text)
    requires w == World(BlankTerm(color).fb, [])
    ensures var t := Print(BlankTerm(color), s);
            && Shows(t, Lines(s))
            && Exec(w, PrintOps(BlankTerm(color), s)) == World(t.fb, Gone(Lines(s), t.color))
  {
    BlankShows(color);
    var ops, t, lines := RendersAll(w, BlankTerm(color), s);
  }

  lemma BlankShows(color: bv8)
    ensures Lines([]) == [[]] && Shows(BlankTerm(color), Lines([]))
  {
    assert Split([]) == [[]];
    assert FoldAll([[]]) == Fold([]) + FoldAll([]) == [[]];
    PadEmpty(color);
  }

  lemma ProgramRenders(fb: seq<Cell>, color: bv8, s: Text)
    requires |fb| == CELLS
    ensures var w := Exec(World(fb, []), Program(color, s));
            w.saved == Gone(Lines(s), color) && Rows(w.fb) == OnScreen(Lines(s), color)
  {
    ExecInit(World(fb, []), color);
    ExecConcat(World(fb, []), InitOps(color), PrintOps(BlankTerm(color), s));
    PrintRenders(World(BlankTerm(color).fb, []), color, s);
  }

  lemma {:induction false} PrintOpsPrefix(t: Term, s: Text, k: nat)
    requires ValidTerm(t) && k <= |s|
    ensures PrintOps(t, s[..k]) <= PrintOps(t, s)
    decreases |s|
  {
    var n := |s| - 1;
    if k == |s| {
      assert s[..k] == s;
    } else {
      PrintOpsPrefix(t, s[..n], k);
      assert s[..n][..k] == s[..k];
      PrefixOfConcat(PrintOps(t, s[..k]), PrintOps(t, s[..n]), PutcharOps(Print(t, s[..n]), s[n]));
    }
  }

  lemma PrefixOfConcat<T>(a: seq<T>, b: seq<T>, c: seq<T>)
    requires a <= b
    ensures a <= b + c
  {
  }

  lemma PrefixAfter<T>(front: seq<T>, a: seq<T>, b: seq<T>)
    requires a <= b
    ensures front + a <= front + b
  {
  }

  /** The program for a prefix of the stream is a prefix of the program. */
  lemma ProgramPrefix(color: bv8, s: Text, k: nat)
    requires k <= |s|
    ensures Program(color, s[..k]) <= Program(color, s)
  {
    PrintOpsPrefix(BlankTerm(color), s, k);
    PrefixAfter(InitOps(color), PrintOps(BlankTerm(color), s[..k]), PrintOps(BlankTerm(color), s));
  }
}
