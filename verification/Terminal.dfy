/** winky/cga.c: the guest's terminal, updating the framebuffer in place. Every call is proved to
    leave the state GuestOps describes and to perform exactly the shared-memory actions listed there. */
module Terminal {
  import opened Seqs
  import opened Vga
  import opened Renderer
  import opened GuestOps

  class TermInfo {
    var row: nat
    var col: nat
    var color: bv8
    /** Memory from the framebuffer's base on. The control registers follow the 2000 cells. */
    const buf: array<Cell>
    /** Every action on shared memory so far, in order. */
    ghost var log: seq<Op>

    ghost predicate Valid()
      reads this
    {
      row < HEIGHT && col < WIDTH && buf.Length >= CELLS
    }

    ghost function State(): (t: Term)
      requires buf.Length >= CELLS
      reads this, buf
    {
      Term(row, col, color, buf[..CELLS])
    }

    constructor (memory: array<Cell>)
      requires memory.Length >= CELLS
      ensures Valid() && buf == memory && log == []
    {
      row, col, color, buf, log := 0, 0, 0, memory, [];
    }

    method NotifyRedraw()
      modifies this`log
      ensures log == old(log) + [Post(ScreenRedraw)]
    {
      log := log + [Post(ScreenRedraw)];
    }

    method NotifyScrollup()
      modifies this`log
      ensures log == old(log) + [Post(Scrollup)]
    {
      log := log + [Post(Scrollup)];
    }

    method NotifyLineDraw(line: nat)
      modifies this`log
      ensures log == old(log) + [SetLine(line), Post(LineDrawn)]
    {
      log := log + [SetLine(line)];
      log := log + [Post(LineDrawn)];
    }

    /** One turn of term_init's outer loop. */
    method InitRow(y: nat, ghost log0: seq<Op>)
      requires buf.Length >= CELLS && y < HEIGHT
      requires forall i :: 0 <= i < y * WIDTH ==> buf[i] == Blank(color)
      requires log == log0 + FillOps(Blank(color), 0, y * WIDTH)
      modifies this`log, buf
      ensures forall i :: 0 <= i < y * WIDTH + WIDTH ==> buf[i] == Blank(color)
      ensures forall i :: CELLS <= i < buf.Length ==> buf[i] == old(buf[i])
      ensures log == log0 + FillOps(Blank(color), 0, y * WIDTH + WIDTH)
    {
      var x := 0;
      while x < WIDTH
        invariant x <= WIDTH
        invariant forall i :: 0 <= i < y * WIDTH + x ==> buf[i] == Blank(color)
        invariant forall i :: CELLS <= i < buf.Length ==> buf[i] == old(buf[i])
        invariant log == log0 + FillOps(Blank(color), 0, y * WIDTH + x)
      {
        var index := y * WIDTH + x;
        buf[index] := MakeVgaEntry(SPACE, color);
        log := log + [Store(index, [Blank(color)])];
        ConcatAssoc(log0, FillOps(Blank(color), 0, index), [Store(index, [Blank(color)])]);
        x := x + 1;
      }
    }

    method TermInit()
      requires buf.Length >= CELLS
      modifies this, buf
      ensures Valid() && State() == BlankTerm(LIGHT_GREY_ON_BLACK)
      ensures log == old(log) + InitOps(LIGHT_GREY_ON_BLACK)
      ensures buf[CELLS..] == old(buf[CELLS..])
    {
      row, col, color := 0, 0, LIGHT_GREY_ON_BLACK;
      var y := 0;
      while y < HEIGHT
        invariant y <= HEIGHT && row == 0 && col == 0 && color == LIGHT_GREY_ON_BLACK
        invariant forall i :: 0 <= i < y * WIDTH ==> buf[i] == Blank(color)
        invariant log == old(log) + FillOps(Blank(color), 0, y * WIDTH)
        invariant forall i :: CELLS <= i < buf.Length ==> buf[i] == old(buf[i])
      {
        InitRow(y, old(log));
        y := y + 1;
      }
      NotifyRedraw();
      ConcatAssoc(old(log), FillOps(Blank(color), 0, CELLS), [Post(ScreenRedraw)]);
    }

    method TermPutc(c: Char, tint: bv8, x: nat, y: nat)
      requires buf.Length >= CELLS && x < WIDTH && y < HEIGHT
      modifies this`log, buf
      ensures buf[..] == old(buf[..])[y * WIDTH + x := MakeVgaEntry(c, tint)]
      ensures log == old(log) + [Store(y * WIDTH + x, [MakeVgaEntry(c, tint)])]
    {
      var index := y * WIDTH + x;
      buf[index] := MakeVgaEntry(c, tint);
      log := log + [Store(index, [MakeVgaEntry(c, tint)])];
    }

    /** Copy the long one row further on to the one that starts at cell `pos`. */
    method CopyWord(pos: nat)
      requires buf.Length >= CELLS && pos + WIDTH + WORD_CELLS <= CELLS
      modifies buf
      ensures forall k :: 0 <= k < buf.Length ==>
                buf[k] == if pos <= k < pos + WORD_CELLS then old(buf[k + WIDTH]) else old(buf[k])
    {
      buf[pos], buf[pos + 1], buf[pos + 2], buf[pos + 3] :=
        buf[pos + WIDTH], buf[pos + WIDTH + 1], buf[pos + WIDTH + 2], buf[pos + WIDTH + 3];
    }

    /** The in-place copy of 480 words: every word read still holds its old value. */
    method CopyWords()
      requires buf.Length >= CELLS
      modifies this`log, buf
      ensures buf[..CELLS] == old(buf[WIDTH..CELLS] + buf[CELLS - WIDTH..CELLS])
      ensures buf[CELLS..] == old(buf[CELLS..])
      ensures log == old(log) + CopyOps(old(buf[..CELLS]), SCROLL_WORDS)
    {
      ghost var fb := buf[..CELLS];
      var pos := 0;
      for i := 0 to SCROLL_WORDS
        invariant pos == WORD_CELLS * i
        invariant forall k :: 0 <= k < pos ==> buf[k] == fb[k + WIDTH]
        invariant forall k :: pos <= k < CELLS ==> buf[k] == fb[k]
        invariant forall k :: CELLS <= k < buf.Length ==> buf[k] == old(buf[k])
        invariant log == old(log) + CopyOps(fb, i)
      {
        CopyWord(pos);
        log := log + [Store(pos, fb[pos + WIDTH..pos + WIDTH + WORD_CELLS])];
        pos := pos + WORD_CELLS;
      }
    }

    method BlankLastRow()
      requires buf.Length >= CELLS
      modifies this`log, buf
      ensures buf[..CELLS] == old(buf[..CELLS - WIDTH]) + BlankRow(color)
      ensures buf[CELLS..] == old(buf[CELLS..])
      ensures log == old(log) + FillOps(Blank(color), CELLS - WIDTH, WIDTH)
    {
      var index := CELLS - WIDTH;
      for i := 0 to WIDTH
        invariant index == CELLS - WIDTH + i
        invariant buf[..CELLS - WIDTH] == old(buf[..CELLS - WIDTH])
        invariant forall k :: CELLS - WIDTH <= k < index ==> buf[k] == Blank(color)
        invariant buf[CELLS..] == old(buf[CELLS..])
        invariant log == old(log) + FillOps(Blank(color), CELLS - WIDTH, i)
      {
        buf[index] := MakeVgaEntry(SPACE, color);
        log := log + [Store(index, [Blank(color)])];
        index := index + 1;
      }
    }

    method TermScrollup()
      requires buf.Length >= CELLS
      modifies this`log, buf
      ensures buf[..CELLS] == ShiftUp(old(buf[..CELLS]), color)
      ensures buf[CELLS..] == old(buf[CELLS..])
      ensures log == old(log) + ScrollOps(old(buf[..CELLS]), color)
    {
      ghost var fb := buf[..CELLS];
      NotifyScrollup();
      CopyWords();
      assert buf[..CELLS][..CELLS - WIDTH] == fb[WIDTH..];
      BlankLastRow();
      NotifyRedraw();
      assert buf[..CELLS] == ShiftUp(fb, color);
      ghost var copies, blanks := CopyOps(fb, SCROLL_WORDS), FillOps(Blank(color), CELLS - WIDTH, WIDTH);
      ConcatAssoc(old(log) + [Post(Scrollup)], copies, blanks);
      ConcatAssoc(old(log), [Post(Scrollup)], MoveUpOps(fb, color));
      ConcatAssoc(old(log), [Post(Scrollup)] + MoveUpOps(fb, color), [Post(ScreenRedraw)]);
    }

    /** The tail shared by both branches of putchar: report the row, advance, scroll at the bottom. */
    method FinishRow()
      requires row < HEIGHT && col == 0 && buf.Length >= CELLS
      modifies this, buf
      ensures Valid() && State() == NewRow(old(State()))
      ensures log == old(log) + NewRowOps(old(State()))
      ensures buf[CELLS..] == old(buf[CELLS..])
    {
      NotifyLineDraw(row);
      row := row + 1;
      if row == HEIGHT {
        TermScrollup();
        row := row - 1;
      }
    }

    method Putchar(c: Char)
      requires Valid()
      modifies this, buf
      ensures Valid() && State() == GuestOps.Putchar(old(State()), c)
      ensures log == old(log) + PutcharOps(old(State()), c)
      ensures buf[CELLS..] == old(buf[CELLS..])
    {
      if c == NEWLINE {
        col := 0;
        FinishRow();
        return;
      }
      ghost var t := State();
      TermPutc(c, color, col, row);
      assert buf[..CELLS] == PutAtCursor(t, c).fb;
      assert buf[CELLS..] == old(buf[CELLS..]);
      col := col + 1;
      if col == WIDTH {
        col := 0;
        ghost var logged := log;
        FinishRow();
        NewRowIgnoresColumn(PutAtCursor(t, c));
        assert log == old(log) + PutcharOps(t, c);
      }
    }

    /** Having printed `done` since state `t`, print one more. */
    method PrintNext(ghost t: Term, ghost log0: seq<Op>, ghost done: Text, c: Char)
      requires Valid() && ValidTerm(t) && State() == Print(t, done)
      requires log == log0 + PrintOps(t, done)
      modifies this, buf
      ensures Valid() && State() == Print(t, done + [c])
      ensures log == log0 + PrintOps(t, done + [c])
      ensures buf[CELLS..] == old(buf[CELLS..])
    {
      ghost var before := State();
      Putchar(c);
      PrintSnoc(t, done, c);
      ConcatAssoc(log0, PrintOps(t, done), PutcharOps(before, c));
    }

    method TermPrint(data: Text)
      requires Valid()
      modifies this, buf
      ensures Valid() && State() == Print(old(State()), data)
      ensures log == old(log) + PrintOps(old(State()), data)
      ensures buf[CELLS..] == old(buf[CELLS..])
    {
      ghost var t := State();
      var i := 0;
      while i < |data|
        invariant 0 <= i <= |data|
        invariant Valid() && State() == Print(t, data[..i])
        invariant log == old(log) + PrintOps(t, data[..i])
        invariant buf[CELLS..] == old(buf[CELLS..])
      {
        ghost var done, next := data[..i], data[..i + 1];
        assert next == done + [data[i]];
        PrintNext(t, old(log), done, data[i]);
        i := i + 1;
      }
      assert data[..i] == data;
    }

    /** term_init, then term_print: the state and the actions are those of the boot program. */
    method BootAndPrint(data: Text)
      requires buf.Length >= CELLS
      modifies this, buf
      ensures Valid() && State() == Print(BlankTerm(LIGHT_GREY_ON_BLACK), data)
      ensures log == old(log) + Program(LIGHT_GREY_ON_BLACK, data)
      ensures Rows(buf[..CELLS]) == OnScreen(Lines(data), LIGHT_GREY_ON_BLACK)
      ensures row == |Lines(data)| - 1 - Scrolled(Lines(data))
      ensures col == |Lines(data)[|Lines(data)| - 1]|
      ensures buf[CELLS..] == old(buf[CELLS..])
    {
      TermInit();
      ghost var start := State();
      TermPrint(data);
      PrintShows(State(), data);
      ConcatAssoc(old(log), InitOps(LIGHT_GREY_ON_BLACK), PrintOps(start, data));
    }
  }

  lemma NewRowIgnoresColumn(t: Term)
    requires ValidTerm(t)
    ensures NewRow(t.(col := 0)) == NewRow(t) && NewRowOps(t.(col := 0)) == NewRowOps(t)
  {
  }

  lemma PrintSnoc(t: Term, done: Text, c: Char)
    requires ValidTerm(t)
    ensures Print(t, done + [c]) == GuestOps.Putchar(Print(t, done), c)
    ensures PrintOps(t, done + [c]) == PrintOps(t, done) + PutcharOps(Print(t, done), c)
  {
    assert (done + [c])[..|done|] == done;
  }

  lemma PrintShows(t: Term, data: Text)
    requires ValidTerm(t) && t == Print(BlankTerm(t.color), data)
    ensures Rows(t.fb) == OnScreen(Lines(data), t.color)
    ensures t.row == |Lines(data)| - 1 - Scrolled(Lines(data)) && t.col == |Lines(data)[|Lines(data)| - 1]|
  {
    PrintRenders(World(BlankTerm(t.color).fb, []), t.color, data);
  }
}
