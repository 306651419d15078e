/** src/philix.c: the host's console. The scroll-back history is a doubly linked list of heap nodes
    whose head's `prev` is its tail; the window over it is a pointer and a line count. */
module Console {
  import opened Seqs
  import opened Vga
  import opened History
  import opened GuestOps
  import opened Sessions

  /** What a turn of the main loop comes to. dump_console_to_file reads line_hist->next, so an empty
      history at shutdown is a null dereference. */
  datatype Outcome = Acknowledged | Dumped(text: seq<Char>) | NullDereference | UnknownType

  class LineElm {
    var line: Row
    var next: LineElm?
    var prev: LineElm?

    /** malloc and memset to zero. */
    constructor ()
      ensures |line| == WIDTH && next == null && prev == null
    {
      line, next, prev := seq(WIDTH, _ => 0), null, null;
    }
  }

  /** The screen with `rows` drawn from row `start` on. */
  function Drawn(before: seq<Line>, start: nat, rows: seq<Row>): (screen: seq<Line>)
    requires start + |rows| <= |before|
    ensures |screen| == |before|
  {
    seq(|before|, i requires 0 <= i < |before| =>
      if start <= i < start + |rows| then Glyphs(rows[i - start]) else before[i])
  }

  lemma DrawnSnoc(before: seq<Line>, start: nat, rows: seq<Row>, i: nat)
    requires i < |rows| && start + i < |before|
    ensures Drawn(before, start, rows[..i])[start + i := Glyphs(rows[i])] == Drawn(before, start, rows[..i + 1])
  {
  }

  class Cons {
    const cap: nat
    /** The guest's framebuffer, as mapped by the host. */
    const fb: array<Cell>
    /** The curses window. */
    const screen: array<Line>
    var lineHist: LineElm?
    var winPtr: LineElm?
    var lineIdx: int
    var histCnt: nat
    /** The nodes of the list, head first. */
    ghost var nodes: seq<LineElm>
    /** Every row ever saved, first to last. */
    ghost var pushed: seq<Row>

    /** `next` leads from line_hist through exactly these nodes to NULL, and `prev` leads back. */
    ghost predicate Chain()
      reads this`nodes, this`lineHist, nodes
    {
      && (lineHist == if nodes == [] then null else nodes[0])
      && (forall i, j :: 0 <= i < j < |nodes| ==> nodes[i] != nodes[j])
      && (forall i {:trigger nodes[i].next} :: 0 <= i < |nodes| ==>
            nodes[i].next == if i + 1 < |nodes| then nodes[i + 1] else null)
      && (forall i {:trigger nodes[i].prev} :: 0 < i < |nodes| ==> nodes[i].prev == nodes[i - 1])
    }

    /** A chain of hist_cnt nodes whose head points back at the tail. */
    ghost predicate Linked()
      reads this`nodes, this`lineHist, this`histCnt, nodes
    {
      && histCnt == |nodes|
      && Chain()
      && (nodes != [] ==> nodes[0].prev == nodes[|nodes| - 1])
    }

    /** The saved rows, newest first. */
    ghost function Contents(): (rows: seq<Row>)
      reads this`nodes, nodes
      ensures |rows| == |nodes|
    {
      var list := nodes;
      seq(|list|, i requires 0 <= i < |list| reads list => list[i].line)
    }

    /** The list holds the newest rows saved. */
    ghost predicate HistoryOk()
      reads this`nodes, this`lineHist, this`histCnt, this`pushed, nodes
    {
      && 2 <= cap
      && fb.Length >= CELLS && screen.Length == HEIGHT
      && Linked()
      && histCnt <= cap
      && (forall i :: 0 <= i < |nodes| ==> |nodes[i].line| == WIDTH)
      && Contents() == PushAll(cap, pushed)
    }

    ghost predicate Valid()
      reads this`nodes, this`lineHist, this`histCnt, this`pushed, this`lineIdx, this`winPtr, nodes
    {
      HistoryOk() && 0 <= lineIdx <= histCnt && (winPtr == null ==> lineIdx == 0)
    }

    /** The window pointer is not dangling. */
    ghost predicate WindowOk()
      reads this`winPtr, this`nodes
    {
      winPtr == null || winPtr in nodes
    }

    ghost function IndexOf(e: LineElm): (i: nat)
      requires e in nodes
      reads this`nodes
      ensures i < |nodes| && nodes[i] == e
    {
      var i :| 0 <= i < |nodes| && nodes[i] == e;
      i
    }

    ghost function TheView(): (v: View)
      requires Valid() && WindowOk()
      reads this, nodes
      ensures ValidView(|nodes|, v)
    {
      View(if winPtr == null then -1 else IndexOf(winPtr), lineIdx)
    }

    /** Indices are unique, so a view can be read off the fields. */
    ghost predicate AtView(v: View)
      reads this
    {
      && lineIdx == v.idx
      && if v.pos < 0 then winPtr == null else v.pos < |nodes| && winPtr == nodes[v.pos]
    }

    lemma Links(i: nat)
      requires Linked() && i < |nodes|
      ensures nodes[i].next == if i + 1 < |nodes| then nodes[i + 1] else null
      ensures nodes[i].prev == nodes[if i == 0 then |nodes| - 1 else i - 1]
    {
    }

    lemma ViewIs(v: View)
      requires Valid() && v.pos >= -1 && AtView(v)
      ensures WindowOk() && TheView() == v
    {
    }

    constructor (cap: nat, fb: array<Cell>)
      requires 2 <= cap && fb.Length >= CELLS
      ensures Valid() && WindowOk() && nodes == [] && pushed == [] && TheView() == View(-1, 0)
      ensures this.cap == cap && this.fb == fb && fresh(screen)
    {
      this.cap, this.fb := cap, fb;
      screen := new Line[HEIGHT](_ => []);
      lineHist, winPtr, lineIdx, histCnt := null, null, 0, 0;
      nodes, pushed := [], [];
    }

    // ---- saving a row ----------------------------------------------------------------------

    method CopyTopRow(elm: LineElm)
      requires fb.Length >= CELLS && |elm.line| == WIDTH
      modifies elm`line
      ensures elm.line == fb[..WIDTH]
    {
      for i := 0 to WIDTH
        invariant |elm.line| == WIDTH
        invariant forall k :: 0 <= k < i ==> elm.line[k] == fb[k]
      {
        elm.line := elm.line[i := fb[i]];
      }
    }

    /** The full case of handle_scrollup: unlink and free the tail. */
    method KillLast(elm: LineElm)
      requires HistoryOk() && histCnt == cap && elm !in nodes
      modifies elm`prev, this`nodes, nodes
      ensures Chain() && nodes == old(nodes)[..cap - 1] && elm.prev == nodes[cap - 2]
      ensures forall e :: e in old(nodes) ==> e.line == old(e.line)
    {
      Links(0);
      Links(cap - 1);
      elm.prev := lineHist.prev.prev;
      lineHist.prev.prev.next := null;
      nodes := nodes[..cap - 1];
    }

    /** The end of handle_scrollup: put the new node in front. */
    method LinkFirst(elm: LineElm)
      requires Chain() && elm !in nodes
      requires elm.prev == if nodes == [] then elm else nodes[|nodes| - 1]
      modifies elm`next, this`lineHist, this`nodes, nodes
      ensures Chain() && nodes == [elm] + old(nodes) && elm.prev == nodes[|nodes| - 1]
      ensures forall e :: e in nodes ==> e.line == old(e.line)
    {
      if lineHist != null {
        lineHist.prev := elm;
      }
      elm.next := lineHist;
      lineHist := elm;
      ghost var was := nodes;
      nodes := [elm] + nodes;
      forall i | 0 <= i < |nodes| ensures nodes[i].next == if i + 1 < |nodes| then nodes[i + 1] else null {
        if i > 0 {
          assert nodes[i] == was[i - 1] && was[i - 1] in was;
          assert was[i - 1].next == old(was[i - 1].next);
          assert old(was[i - 1].next) == if i < |was| then was[i] else null;
        } else { assert nodes[0] == elm; assert elm.next == if was == [] then null else was[0]; }
      }
      forall i | 0 < i < |nodes| ensures nodes[i].prev == nodes[i - 1] {
        assert nodes[i] == was[i - 1];
        assert i > 1 ==> was[i - 1].prev == was[i - 2];
      }
    }

    /** handle_scrollup up to the bookkeeping: `elm` goes in front, the tail goes if there was no room. */
    method Insert(elm: LineElm)
      requires HistoryOk() && elm !in nodes
      modifies elm`next, elm`prev, this`lineHist, this`histCnt, this`nodes, nodes
      ensures Linked() && histCnt <= cap
      ensures nodes == [elm] + if old(histCnt) == cap then old(nodes)[..cap - 1] else old(nodes)
      ensures forall e :: e in old(nodes) || e == elm ==> e.line == old(e.line)
    {
      if histCnt == cap {
        KillLast(elm);
      } else {
        if lineHist != null {
          elm.prev := lineHist.prev;
        } else {
          elm.prev := elm;
        }
        histCnt := histCnt + 1;
      }
      LinkFirst(elm);
    }

    method InsertRow(elm: LineElm)
      requires HistoryOk() && elm !in nodes && |elm.line| == WIDTH
      modifies elm`next, elm`prev, this`lineHist, this`histCnt, this`nodes, nodes
      ensures Linked() && old(histCnt) <= histCnt <= cap && elm.line == old(elm.line)
      ensures nodes == [elm] + if old(histCnt) == cap then old(nodes)[..cap - 1] else old(nodes)
      ensures forall i :: 0 <= i < |nodes| ==> |nodes[i].line| == WIDTH
      ensures Contents() == Push(cap, old(Contents()), elm.line)
    {
      Insert(elm);
      ghost var rows := Push(cap, old(Contents()), elm.line);
      forall i | 0 <= i < |nodes| ensures nodes[i].line == rows[i] && |nodes[i].line| == WIDTH {
        assert i > 0 ==> nodes[i] == old(nodes)[i - 1] && old(nodes)[i - 1] in old(nodes);
      }
      assert Contents() == rows;
    }

    method SaveTopRow()
      requires HistoryOk()
      modifies this`lineHist, this`histCnt, this`nodes, this`pushed, nodes
      ensures HistoryOk() && histCnt >= old(histCnt)
      ensures pushed == old(pushed) + [fb[..WIDTH]]
      ensures Contents() == Push(cap, old(Contents()), fb[..WIDTH])
      ensures |nodes| > 0 && fresh(nodes[0])
      ensures nodes[1..] == if old(histCnt) == cap then old(nodes)[..cap - 1] else old(nodes)
    {
      var elm := new LineElm();
      CopyTopRow(elm);
      ghost var row, rows := elm.line, pushed;
      InsertRow(elm);
      pushed := rows + [row];
      PushAllSnoc(cap, rows, row);
    }

    /** Save the framebuffer's first row at the head of the list, freeing the tail when full. */
    method HandleScrollup()
      requires Valid()
      modifies this`lineHist, this`histCnt, this`nodes, this`pushed, nodes
      ensures Valid()
      ensures pushed == old(pushed) + [fb[..WIDTH]]
      ensures Contents() == Push(cap, old(Contents()), fb[..WIDTH])
      ensures |nodes| > 0 && fresh(nodes[0])
      ensures nodes[1..] == if old(histCnt) == cap then old(nodes)[..cap - 1] else old(nodes)
      // win_ptr survives unless it pointed at the node that was freed
      ensures WindowOk() == (old(WindowOk()) && !(old(histCnt) == cap && winPtr == old(nodes)[cap - 1]))
      ensures old(WindowOk()) && WindowOk()
        ==> TheView() == if winPtr == null then old(TheView()) else View(old(TheView()).pos + 1, lineIdx)
    {
      SaveTopRow();
      if old(WindowOk()) && WindowOk() && winPtr != null {
        ViewIs(View(old(TheView()).pos + 1, lineIdx));
      }
    }

    // ---- scrolling -------------------------------------------------------------------------

    /** The loop of scroll_output_win towards older rows. */
    method WalkBack(start: LineElm, nlines: nat, ghost p: nat) returns (line: LineElm, ghost m: nat)
      requires HistoryOk() && 0 <= lineIdx <= histCnt && p < |nodes| && start == nodes[p]
      modifies this`lineIdx
      ensures m == Min(nlines, Min(histCnt - old(lineIdx), histCnt - p))
      ensures lineIdx == old(lineIdx) + m && line == nodes[Min(p + m, histCnt - 1)]
    {
      var scroll := 0;
      line := start;
      while scroll != nlines && lineIdx < cap && lineIdx < histCnt
        invariant 0 <= scroll <= nlines && scroll <= histCnt - 1 - p
        invariant lineIdx == old(lineIdx) + scroll <= histCnt
        invariant line == nodes[p + scroll]
        decreases nlines - scroll
      {
        Links(p + scroll);
        scroll := scroll + 1;
        lineIdx := lineIdx + 1;
        if line.next != null {
          line := line.next;
        } else {
          break;
        }
      }
      m := scroll;
    }

    /** The loop of scroll_output_win towards newer rows. */
    method WalkForward(start: LineElm, nlines: int, ghost p: nat) returns (line: LineElm?, ghost m: nat)
      requires HistoryOk() && 0 <= lineIdx <= histCnt && p < |nodes| && start == nodes[p] && nlines < 0
      modifies this`lineIdx
      ensures m == Min(-nlines, old(lineIdx))
      ensures lineIdx == old(lineIdx) - m && line == nodes[if p >= m then p - m else p - m + histCnt]
    {
      var scroll := 0;
      line := start;
      while scroll != nlines && line != null && lineIdx > 0
        invariant nlines <= scroll <= 0 && 0 <= lineIdx == old(lineIdx) + scroll
        invariant line == nodes[if p + scroll >= 0 then p + scroll else p + scroll + histCnt]
        decreases scroll - nlines
      {
        Links(if p + scroll >= 0 then p + scroll else p + scroll + histCnt);
        line := line.prev;
        scroll := scroll - 1;
        lineIdx := lineIdx - 1;
      }
      m := -scroll;
    }

    method ScrollBack(nlines: nat)
      requires Valid() && WindowOk() && 0 < histCnt && 0 < nlines
      modifies this`winPtr, this`lineIdx
      ensures Valid() && WindowOk() && TheView() == ScrollUp(histCnt, old(TheView()), nlines)
    {
      ghost var v := TheView();
      if lineIdx >= cap {
        return;
      }
      var line := if winPtr == null then lineHist else winPtr;
      ghost var m;
      line, m := WalkBack(line, nlines, From(v));
      winPtr := line;
      ViewIs(ScrollUp(histCnt, v, nlines));
    }

    method ScrollForward(nlines: int)
      requires Valid() && WindowOk() && 0 < histCnt && nlines < 0
      modifies this`winPtr, this`lineIdx
      ensures Valid() && WindowOk() && TheView() == ScrollDown(histCnt, old(TheView()), -nlines)
    {
      ghost var v := TheView();
      if lineIdx == 0 {
        return;
      }
      var line := if winPtr == null then lineHist else winPtr;
      ghost var m;
      line, m := WalkForward(line, nlines, From(v));
      winPtr := line;
      ViewIs(ScrollDown(histCnt, v, -nlines));
    }

    /** Move the window over the history by `nlines` rows, towards older rows when positive. */
    method ScrollOutputWin(nlines: int)
      requires Valid() && WindowOk() && 0 < histCnt
      modifies this`winPtr, this`lineIdx
      ensures Valid() && WindowOk() && TheView() == Scroll(histCnt, old(TheView()), nlines)
    {
      if nlines > 0 {
        ScrollBack(nlines);
      } else if nlines < 0 {
        ScrollForward(nlines);
      }
    }

    method ScrollTop()
      requires Valid() && (histCnt == 0 ==> WindowOk())
      modifies this`winPtr, this`lineIdx
      ensures Valid() && WindowOk()
      ensures TheView() == if histCnt == 0 then old(TheView()) else View(histCnt - 1, histCnt)
    {
      if lineHist != null && lineHist.prev != null {
        winPtr := lineHist.prev;
        lineIdx := histCnt;
        ViewIs(View(histCnt - 1, histCnt));
      }
    }

    method ScrollBottom()
      requires Valid()
      modifies this`winPtr, this`lineIdx
      ensures Valid() && WindowOk() && TheView() == View(-1, 0)
    {
      winPtr := null;
      lineIdx := 0;
    }

    method ScrollPage(dir: bv8)
      requires Valid() && WindowOk() && 0 < histCnt
      modifies this`winPtr, this`lineIdx
      ensures Valid() && WindowOk()
      ensures TheView() == Scroll(histCnt, old(TheView()), PageLines(dir))
      ensures dir == 1 && InStep(histCnt, old(TheView()))
        ==> lineIdx == if old(lineIdx) + 25 < histCnt then old(lineIdx) + 25 else histCnt
      ensures dir == 0 ==> lineIdx == if old(lineIdx) < 25 then 0 else old(lineIdx) - 25
      ensures dir != 0 && dir != 1 ==> winPtr == old(winPtr) && lineIdx == old(lineIdx)
    {
      if dir == 1 {
        ScrollOutputWin(HEIGHT);
      } else if dir == 0 {
        ScrollOutputWin(PageLines(dir));
      }
    }

    // ---- drawing ---------------------------------------------------------------------------

    method DrawLineBuf(buf: Row, row: nat)
      requires screen.Length == HEIGHT && row < HEIGHT && |buf| == WIDTH
      modifies screen
      ensures screen[..] == old(screen[..])[row := Glyphs(buf)]
    {
      var drawn: Line := [];
      for i := 0 to WIDTH
        invariant drawn == Glyphs(buf[..i])
        invariant screen[..] == old(screen[..])
      {
        drawn := drawn + [GlyphOf(buf[i])];
      }
      assert buf[..WIDTH] == buf;
      screen[row] := drawn;
    }

    lemma FbRow(i: nat)
      requires fb.Length >= CELLS && i < HEIGHT
      ensures fb[i * WIDTH..i * WIDTH + WIDTH] == RowOf(fb[..CELLS], i) == Rows(fb[..CELLS])[i]
    {
      var lo, hi := i * WIDTH, i * WIDTH + WIDTH;
      assert hi <= CELLS;
      assert |fb[lo..hi]| == |fb[..CELLS][lo..hi]|;
      forall k | 0 <= k < WIDTH ensures fb[lo..hi][k] == fb[..CELLS][lo..hi][k] {
        assert fb[lo..hi][k] == fb[lo + k];
        assert fb[..CELLS][lo + k] == fb[lo + k];
      }
    }

    method DrawFb(start: nat, nlines: nat)
      requires screen.Length == HEIGHT && fb.Length >= CELLS
      requires nlines <= HEIGHT && start < HEIGHT && nlines + start <= HEIGHT
      modifies screen
      ensures screen[..] == Drawn(old(screen[..]), start, Rows(fb[..CELLS])[..nlines])
    {
      var offset := start;
      for i := 0 to nlines
        invariant offset == start + i
        invariant screen[..] == Drawn(old(screen[..]), start, Rows(fb[..CELLS])[..i])
      {
        FbRow(i);
        DrawLineBuf(fb[i * WIDTH..i * WIDTH + WIDTH], offset);
        DrawnSnoc(old(screen[..]), start, Rows(fb[..CELLS]), i);
        offset := offset + 1;
      }
    }

    /** Draw from `first` towards newer rows, stopping before the head of the list. */
    method DrawHistBuf(first: LineElm?, start: nat, nlines: nat, ghost pos: int)
      requires Valid() && -1 <= pos < |nodes| && first == (if pos < 0 then null else nodes[pos])
      requires nlines <= HEIGHT && start < HEIGHT && nlines + start <= HEIGHT
      modifies screen
      ensures screen[..] == Drawn(old(screen[..]), start, HistRows(Contents(), pos, nlines))
    {
      var head, offset, i := first, start, 0;
      ghost var rows := Contents();
      ghost var top := HistRows(rows, pos, nlines);
      while i < nlines && head != null && head != lineHist
        invariant 0 <= i <= |top| && offset == start + i
        invariant head == if pos < 0 then null else nodes[pos - i]
        invariant screen[..] == Drawn(old(screen[..]), start, top[..i])
      {
        assert pos - i > 0;
        HistRowsAt(rows, pos, nlines, i);
        DrawLineBuf(head.line, offset);
        DrawnSnoc(old(screen[..]), start, top, i);
        offset := offset + 1;
        head := head.prev;
        i := i + 1;
      }
      assert i == |top| && top[..i] == top;
    }

    method DrawOutputWin()
      requires Valid() && WindowOk()
      modifies screen
      ensures screen[..] == Window(Contents(), Rows(fb[..CELLS]), TheView(), old(screen[..]))
      ensures lineIdx == 0 || InStep(histCnt, TheView())
        ==> ScreenShowsText(Contents(), fb[..CELLS], TheView(), screen[..])
    {
      ghost var v := TheView();
      ghost var before := screen[..];
      if lineIdx == 0 {
        DrawFb(0, HEIGHT);
      } else if lineIdx >= HEIGHT {
        DrawHistBuf(winPtr, 0, HEIGHT, v.pos);
      } else {
        DrawHistBuf(winPtr, 0, lineIdx, v.pos);
        DrawFb(lineIdx, HEIGHT - lineIdx);
      }
      WindowShowsText(Contents(), fb[..CELLS], v, before, screen[..]);
    }

    // ---- the dump file ---------------------------------------------------------------------

    method OutputFb() returns (out: seq<Char>)
      requires fb.Length >= CELLS
      ensures out == TextOf(Rows(fb[..CELLS]))
    {
      out := [];
      ghost var rows := Rows(fb[..CELLS]);
      for i := 0 to HEIGHT
        invariant out == TextOf(rows[..i])
      {
        var j := 0;
        while j < WIDTH
          invariant 0 <= j <= WIDTH
          invariant out == TextOf(rows[..i]) + RowChars(rows[i][..j])
        {
          RowCharsSnoc(rows[i], j);
          ConcatAssoc(TextOf(rows[..i]), RowChars(rows[i][..j]), [CharOf(rows[i][j])]);
          out := out + [CharOf(fb[i * WIDTH + j])];
          j := j + 1;
        }
        assert rows[i][..j] == rows[i];
        ConcatAssoc(TextOf(rows[..i]), RowChars(rows[i]), [NEWLINE]);
        TextOfSnoc(rows, i);
        out := out + [NEWLINE];
      }
      assert rows[..HEIGHT] == rows;
    }

    /** One history line, then a newline. */
    method OutputLine(line: Row, before: seq<Char>) returns (out: seq<Char>)
      ensures out == before + (RowChars(line) + [NEWLINE])
    {
      out := before;
      for i := 0 to |line|
        invariant out == before + RowChars(line[..i])
      {
        RowCharsSnoc(line, i);
        ConcatAssoc(before, RowChars(line[..i]), [CharOf(line[i])]);
        out := out + [CharOf(line[i])];
      }
      assert line[..|line|] == line;
      ConcatAssoc(before, RowChars(line), [NEWLINE]);
      out := out + [NEWLINE];
    }

    method Tail() returns (cur: LineElm)
      requires Linked() && 0 < histCnt
      ensures cur == nodes[|nodes| - 1]
    {
      cur := lineHist;
      ghost var at := 0;
      while cur.next != null
        invariant 0 <= at < |nodes| && cur == nodes[at]
        decreases |nodes| - at
      {
        Links(at);
        cur := cur.next;
        at := at + 1;
      }
      Links(at);
    }

    /** What the dump has written once the walk is `at` nodes from the head. */
    ghost function Written(at: nat): (text: seq<Char>)
      requires at < |nodes|
      reads this`nodes, nodes
    {
      TextOf(Reverse(Contents()[1..])[..|nodes| - 1 - at])
    }

    lemma WrittenStep(at: nat)
      requires 0 < at < |nodes|
      ensures Written(at - 1) == Written(at) + (RowChars(nodes[at].line) + [NEWLINE])
    {
      var rows, i := Reverse(Contents()[1..]), |nodes| - 1 - at;
      assert rows[i] == nodes[at].line;
      TextOfSnoc(rows, i);
    }

    lemma WrittenEnds()
      requires 0 < |nodes|
      ensures Written(|nodes| - 1) == []
      ensures Written(0) == TextOf(Reverse(Contents()[1..]))
    {
      var rows := Reverse(Contents()[1..]);
      assert rows[..|nodes| - 1] == rows;
    }

    /** Those texts, from the head's on. */
    lemma Texts() returns (texts: seq<seq<Char>>)
      requires 0 < |nodes|
      ensures |texts| == |nodes| && texts[|nodes| - 1] == [] && texts[0] == TextOf(Reverse(Contents()[1..]))
      ensures forall at {:trigger nodes[at].line} :: 0 < at < |nodes| ==>
                texts[at - 1] == texts[at] + (RowChars(nodes[at].line) + [NEWLINE])
    {
      var list := nodes;
      texts := seq(|list|, at requires 0 <= at < |list| && list == nodes reads this`nodes, nodes => Written(at));
      WrittenEnds();
      forall at | 0 < at < |nodes| ensures texts[at - 1] == texts[at] + (RowChars(nodes[at].line) + [NEWLINE]) {
        WrittenStep(at);
      }
    }

    /** From the tail back by `prev`; the head ends the walk and is not printed. */
    method OutputHist() returns (out: seq<Char>)
      requires Linked() && 0 < histCnt
      ensures out == TextOf(Reverse(Contents()[1..]))
    {
      var cur := Tail();
      ghost var at, texts := |nodes| - 1, [];
      texts := Texts();
      out := [];
      while cur != lineHist
        invariant 0 <= at < |nodes| && cur == nodes[at] && out == texts[at]
        decreases at
      {
        Links(at);
        out := OutputLine(cur.line, out);
        cur := cur.prev;
        at := at - 1;
      }
    }

    method DumpConsole() returns (out: seq<Char>)
      requires Valid() && 0 < histCnt
      ensures out == Dump(Contents(), Rows(fb[..CELLS]))
    {
      var hist := OutputHist();
      var rest := OutputFb();
      out := hist + rest;
    }

    // ---- one turn of nocurses_main_loop ----------------------------------------------------

    method Dispatch(update: Update) returns (r: Outcome)
      requires Valid()
      modifies this`lineHist, this`histCnt, this`nodes, this`pushed, nodes
      ensures Valid()
      ensures Contents() == Handled(cap, old(Contents()), update, fb[..WIDTH])
      ensures r == match update
                   case ConsoleShutdown =>
                     if Contents() == [] then NullDereference else Dumped(Dump(Contents(), Rows(fb[..CELLS])))
                   case Inval => UnknownType
                   case _ => Acknowledged
    {
      match update
      case NoUpdate | CharDrawn | LineDrawn | ScreenRedraw | CursorUpdate =>
        r := Acknowledged;
      case ConsoleShutdown =>
        if lineHist == null {
          r := NullDereference;
        } else {
          var out := DumpConsole();
          r := Dumped(out);
        }
      case Scrollup =>
        HandleScrollup();
        r := Acknowledged;
      case Inval =>
        r := UnknownType;
    }

    // ---- sessions --------------------------------------------------------------------------

    /** The fields show this window. When its row has been freed, win_ptr is not in the list. */
    ghost predicate Shows(w: Win)
      reads this, nodes
    {
      && Valid() && w.rows == histCnt && w.view.idx == lineIdx
      && (w.view.pos < 0 ==> winPtr == null)
      && (0 <= w.view.pos < |nodes| ==> winPtr == nodes[w.view.pos])
      && (w.view.pos >= |nodes| ==> !WindowOk())
    }

    method SaveRow(ghost w: Win)
      requires Shows(w) && WinOk(cap, w)
      modifies this`lineHist, this`histCnt, this`nodes, this`pushed, nodes
      ensures Shows(After(cap, w, Save))
      ensures forall i :: 0 <= i < |nodes| ==> nodes[i] in old(nodes) || fresh(nodes[i])
    {
      if !Dangling(w) {
        ViewIs(w.view);
      }
      HandleScrollup();
      assert forall i :: 0 < i < |nodes| ==> nodes[i] == nodes[1..][i - 1];
    }

    method Act(e: Event, ghost w: Win)
      requires Shows(w) && WinOk(cap, w) && Allowed(w, e)
      modifies this`lineHist, this`histCnt, this`nodes, this`pushed, this`winPtr, this`lineIdx, nodes
      ensures Shows(After(cap, w, e))
      ensures forall i :: 0 <= i < |nodes| ==> nodes[i] in old(nodes) || fresh(nodes[i])
    {
      if !Dangling(w) {
        ViewIs(w.view);
      }
      match e
      case Save => SaveRow(w);
      case Lines(lines) => ScrollOutputWin(lines);
      case Page(dir) => ScrollPage(dir);
      case Top => ScrollTop();
      case Bottom => ScrollBottom();
    }
  }

  /** The console does what the session says, whatever the session. */
  method Play(cap: nat, fb: array<Cell>, es: seq<Event>) returns (c: Cons)
    requires 2 <= cap && fb.Length >= CELLS && AllAllowed(cap, es)
    ensures c.cap == cap && c.Shows(Session(cap, es))
  {
    c := new Cons(cap, fb);
    ghost var w := Win(0, View(-1, 0));
    assert es[..0] == [];
    for i := 0 to |es|
      invariant fresh(c) && c.cap == cap && (forall k :: 0 <= k < |c.nodes| ==> fresh(c.nodes[k]))
      invariant AllAllowed(cap, es[..i]) && w == Session(cap, es[..i]) && c.Shows(w)
    {
      AllowedPrefix(cap, es, i + 1);
      assert es[..i + 1][..i] == es[..i];
      c.Act(es[i], w);
      w := After(cap, w, es[i]);
    }
    assert es[..|es|] == es;
  }
}
