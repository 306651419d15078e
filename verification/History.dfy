/** The scroll-back history and the window over it, on values. Rows are kept newest first, as the
    host's list is; positions count from the newest row. */
module History {
  import opened Seqs
  import opened Vga
  import opened Renderer
  import opened GuestOps

  // ---- contents ------------------------------------------------------------------------------

  /** Keeping at most `cap` rows, drop the oldest to make room for a new one. */
  function Push(cap: nat, rows: seq<Row>, row: Row): (r: seq<Row>)
    requires cap > 0 && |rows| <= cap
    ensures |r| <= cap
  {
    [row] + if |rows| == cap then rows[..cap - 1] else rows
  }

  function PushAll(cap: nat, rows: seq<Row>): (r: seq<Row>)
    requires cap > 0
    ensures |r| <= cap
  {
    if rows == [] then [] else Push(cap, PushAll(cap, rows[..|rows| - 1]), rows[|rows| - 1])
  }

  lemma PushNewest(cap: nat, rows: seq<Row>, row: Row)
    requires cap > 0
    ensures Push(cap, Reverse(Last(cap, rows)), row) == Reverse(Last(cap, rows + [row]))
  {
    var a, b := Push(cap, Reverse(Last(cap, rows)), row), Reverse(Last(cap, rows + [row]));
    assert |a| == |b|;
    assert forall i :: 0 <= i < |a| ==> a[i] == b[i];
  }

  /** However many rows were pushed, the newest min(pushes, cap) are there, newest first. */
  lemma {:induction false} PushAllKeepsNewest(cap: nat, rows: seq<Row>)
    requires cap > 0
    ensures PushAll(cap, rows) == Reverse(Last(cap, rows))
  {
    if rows != [] {
      var n := |rows| - 1;
      PushAllKeepsNewest(cap, rows[..n]);
      PushNewest(cap, rows[..n], rows[n]);
      assert rows == rows[..n] + [rows[n]];
    }
  }

  lemma PushAllLength(cap: nat, rows: seq<Row>)
    requires cap > 0
    ensures |PushAll(cap, rows)| == if |rows| <= cap then |rows| else cap
  {
    PushAllKeepsNewest(cap, rows);
  }

  lemma PushAllSnoc(cap: nat, rows: seq<Row>, row: Row)
    requires cap > 0
    ensures PushAll(cap, rows + [row]) == Push(cap, PushAll(cap, rows), row)
  {
    assert (rows + [row])[..|rows|] == rows;
  }

  lemma PushInjective(cap: nat, rows: seq<Row>, row: Row, hist: seq<Row>, top: Row)
    requires cap > 0 && |rows| < cap && |hist| <= |rows|
    ensures Push(cap, hist, row) == PushAll(cap, rows + [top]) <==> hist == PushAll(cap, rows) && row == top
  {
    PushAllSnoc(cap, rows, top);
    PushAllLength(cap, rows);
    assert Push(cap, hist, row)[1..] == hist && Push(cap, PushAll(cap, rows), top)[1..] == PushAll(cap, rows);
  }

  /** Saving a row keeps the accounts of the contents. */
  lemma PushMatches(cap: nat, due: seq<Row>, hist: seq<Row>, row: Row, top: Row)
    requires cap > 0 && |hist| <= cap && |hist| <= |due|
    ensures |Push(cap, hist, row)| <= |due| + 1 && (|hist| < |due| ==> |Push(cap, hist, row)| < |due| + 1)
    ensures hist == PushAll(cap, due) && row == top ==> Push(cap, hist, row) == PushAll(cap, due + [top])
    ensures |due| < cap && Push(cap, hist, row) == PushAll(cap, due + [top]) ==> hist == PushAll(cap, due) && row == top
  {
    PushAllSnoc(cap, due, top);
    if |due| < cap {
      PushInjective(cap, due, row, hist, top);
    }
  }

  // ---- the window ----------------------------------------------------------------------------

  /** `pos` is where win_ptr points, counted from the head of the list, or -1 when it is NULL;
      `idx` is line_idx. */
  datatype View = View(pos: int, idx: int)

  predicate ValidView(n: nat, v: View) {
    -1 <= v.pos < n && 0 <= v.idx <= n && (v.pos == -1 ==> v.idx == 0)
  }

  function Min(a: int, b: int): (m: int)
    ensures m <= a && m <= b && (m == a || m == b)
  {
    if a < b then a else b
  }

  function From(v: View): (p: int) {
    if v.pos < 0 then 0 else v.pos
  }

  /** Towards older rows. The step that would leave the oldest row is counted but not taken. */
  function ScrollUp(n: nat, v: View, lines: nat): (v': View)
    requires 0 < n && ValidView(n, v)
    ensures ValidView(n, v')
  {
    var m := Min(lines, Min(n - v.idx, n - From(v)));
    View(Min(From(v) + m, n - 1), v.idx + m)
  }

  /** Towards newer rows. A step back from the head goes to the tail: head->prev is the tail. */
  function ScrollDown(n: nat, v: View, lines: nat): (v': View)
    requires 0 < n && ValidView(n, v)
    ensures ValidView(n, v')
  {
    if v.idx == 0 then v
    else
      var m := Min(lines, v.idx);
      var p := From(v) - m;
      View(if p >= 0 then p else p + n, v.idx - m)
  }

  /** One page back for direction 1, forward for 0. */
  function PageLines(dir: bv8): (n: int) {
    var page: int := HEIGHT;
    if dir == 1 then page else if dir == 0 then -page else 0
  }

  function Scroll(n: nat, v: View, lines: int): (v': View)
    requires 0 < n && ValidView(n, v)
    ensures ValidView(n, v')
  {
    if lines > 0 then ScrollUp(n, v, lines)
    else if lines < 0 then ScrollDown(n, v, -lines)
    else v
  }

  /** win_ptr is the node line_idx steps from the head; NULL counts as the head. */
  predicate InStep(n: nat, v: View) {
    ValidView(n, v) && v.idx < n && From(v) == v.idx
  }

  /** Same place, reading NULL as the head. */
  predicate SamePlace(v: View, w: View) {
    v.idx == w.idx && From(v) == From(w)
  }

  /** A scroll keeps the pointer in step exactly when line_idx stays below the number of rows; one
      that would reach it ends on the oldest row with line_idx one ahead. */
  lemma ScrollKeepsInStep(n: nat, v: View, lines: int)
    requires 0 < n && InStep(n, v)
    ensures InStep(n, Scroll(n, v, lines)) <==> v.idx + lines < n
    ensures v.idx + lines < n ==> Scroll(n, v, lines).idx == if v.idx + lines < 0 then 0 else v.idx + lines
    ensures v.idx + lines >= n ==> Scroll(n, v, lines) == View(n - 1, n)
  {
  }

  /** A whole session of scrolls that never reaches the oldest row stays in step. */
  function ScrollAll(n: nat, v: View, lines: seq<int>): (v': View)
    requires 0 < n && ValidView(n, v)
    ensures ValidView(n, v')
  {
    if lines == [] then v else Scroll(n, ScrollAll(n, v, lines[..|lines| - 1]), lines[|lines| - 1])
  }

  lemma {:induction false} ScrollAllInStep(n: nat, v: View, lines: seq<int>)
    requires 0 < n && InStep(n, v)
    requires forall k :: 0 <= k < |lines| ==> ScrollAll(n, v, lines[..k]).idx + lines[k] < n
    ensures InStep(n, ScrollAll(n, v, lines))
  {
    if lines != [] {
      var k := |lines| - 1;
      forall j | 0 <= j < k ensures ScrollAll(n, v, lines[..k][..j]).idx + lines[..k][j] < n {
        assert lines[..k][..j] == lines[..j];
      }
      ScrollAllInStep(n, v, lines[..k]);
      ScrollKeepsInStep(n, ScrollAll(n, v, lines[..k]), lines[k]);
    }
  }

  /** k rows up and k rows down is a round trip exactly when the oldest row was not reached on the
      way (or the history is a single row, all of whose neighbours are itself). */
  lemma UpDownRoundTrip(n: nat, v: View, k: nat)
    requires 0 < n && InStep(n, v) && k > 0
    ensures SamePlace(ScrollDown(n, ScrollUp(n, v, k), k), v) <==> v.idx + k < n || n == 1
  {
  }

  /** A row saved while the window is in step moves the pointer but not line_idx: they stay in step
      exactly when win_ptr is NULL. */
  lemma SavedRowKeepsInStep(cap: nat, n: nat, v: View)
    requires 0 < n <= cap && 2 <= cap && InStep(n, v)
    ensures var n' := Min(n + 1, cap); var v' := if v.pos < 0 then v else View(v.pos + 1, v.idx);
            InStep(n', v') <==> v.pos < 0
  {
  }

  // ---- what is drawn -------------------------------------------------------------------------

  /** Rows from `pos` towards the head, at most `count`, stopping before the head itself. */
  function HistRows(rows: seq<Row>, pos: int, count: nat): (r: seq<Row>)
    requires -1 <= pos < |rows|
    ensures |r| == if pos < 0 then 0 else Min(pos, count)
  {
    if pos <= 0 || count == 0 then [] else [rows[pos]] + HistRows(rows, pos - 1, count - 1)
  }

  lemma {:induction false} HistRowsAt(rows: seq<Row>, pos: int, count: nat, i: nat)
    requires -1 <= pos < |rows| && i < |HistRows(rows, pos, count)|
    ensures HistRows(rows, pos, count)[i] == rows[pos - i]
  {
    if i > 0 {
      HistRowsAt(rows, pos - 1, count - 1, i - 1);
    }
  }

  /** One row of the screen as curses shows it. */
  type Line = seq<Glyph>

  /** The screen after draw_output_win; rows it does not reach keep what they showed before. */
  function Window(rows: seq<Row>, fb: seq<Row>, v: View, before: seq<Line>): (w: seq<Line>)
    requires ValidView(|rows|, v) && |fb| == HEIGHT && |before| == HEIGHT
    ensures |w| == HEIGHT
  {
    var top := HistRows(rows, v.pos, Min(v.idx, HEIGHT));
    seq(HEIGHT, i requires 0 <= i < HEIGHT =>
      if i < |top| then Glyphs(top[i])
      else if i < v.idx then before[i]
      else Glyphs(fb[i - v.idx]))
  }

  /** All there is to see, oldest row first: the history, then the framebuffer. */
  function Transcript(rows: seq<Row>, fb: seq<Row>): (t: seq<Row>)
    ensures |t| == |rows| + |fb|
  {
    Reverse(rows) + fb
  }

  /** What a window `line_idx` rows back should show. */
  function TrueRows(rows: seq<Row>, fb: seq<Row>, idx: nat): (w: seq<Row>)
    requires idx <= |rows| && |fb| == HEIGHT
    ensures |w| == HEIGHT
  {
    Transcript(rows, fb)[|rows| - idx..|rows| - idx + HEIGHT]
  }

  lemma TrueRowAt(rows: seq<Row>, fb: seq<Row>, idx: nat, i: nat)
    requires idx <= |rows| && |fb| == HEIGHT && i < HEIGHT
    ensures TrueRows(rows, fb, idx)[i] == if i < idx then rows[idx - 1 - i] else fb[i - idx]
  {
  }

  /** In step, the window shows history rows idx down to 1 and then the framebuffer from its top:
      every row of the screen is written, but each history row is the one before the row that
      belongs there, so the newest history row is never seen. */
  lemma WindowInStep(rows: seq<Row>, fb: seq<Row>, v: View, before: seq<Line>)
    requires 0 < |rows| && InStep(|rows|, v) && |fb| == HEIGHT && |before| == HEIGHT
    ensures var w := Window(rows, fb, v, before);
            && (forall i :: 0 <= i < HEIGHT ==> w[i] == Glyphs(if i < v.idx then rows[v.idx - i] else fb[i - v.idx]))
            && (forall i :: 0 <= i < HEIGHT ==>
                  w[i] == Glyphs(TrueRows(rows, fb, if i < v.idx then v.idx + 1 else v.idx)[i]))
  {
    forall i: nat | i < HEIGHT
      ensures Window(rows, fb, v, before)[i] == Glyphs(if i < v.idx then rows[v.idx - i] else fb[i - v.idx])
      ensures i < v.idx ==> TrueRows(rows, fb, v.idx + 1)[i] == rows[v.idx - i]
      ensures i >= v.idx ==> TrueRows(rows, fb, v.idx)[i] == fb[i - v.idx]
    {
      TrueRowAt(rows, fb, v.idx, i);
      if i < v.idx {
        TrueRowAt(rows, fb, v.idx + 1, i);
        HistRowsAt(rows, v.pos, Min(v.idx, HEIGHT), i);
      }
    }
  }

  /** A row of the screen shows a line of 7-bit text: printable characters as they are, '@' for the others,
      and spaces after them, all in the text's colour. */
  predicate ShowsText(shown: Line, line: Text, color: bv8) {
    && |shown| == 80
    && forall j :: 0 <= j < 80 ==>
         && shown[j].color == color
         && shown[j].ch == if j >= |line| then 32 else if 32 <= line[j] < 127 then line[j] else 64
  }

  predicate SevenBit(line: Text) {
    |line| <= 80 && forall j :: 0 <= j < |line| ==> line[j] < 0x80
  }

  lemma GlyphsOfText(line: Text, color: bv8)
    requires SevenBit(line)
    ensures ShowsText(Glyphs(Pad(line, color)), line, color)
  {
    forall j | 0 <= j < 80 {
      EntryRoundTrip(if j < |line| then line[j] else SPACE, color);
    }
  }

  /** In step, each row of the screen shows the text of its row: history rows line_idx down to 1, then the
      framebuffer from its top. */
  ghost predicate ScreenShowsText(rows: seq<Row>, cells: seq<Cell>, v: View, screen: seq<Line>)
    requires v.idx == 0 || InStep(|rows|, v)
  {
    && |cells| == CELLS && |screen| == 25
    && forall i: nat, line: Text, color: bv8 :: i < 25 && SevenBit(line)
         && (if i < v.idx then rows[v.idx - i] else RowOf(cells, i - v.idx)) == Pad(line, color)
         ==> ShowsText(screen[i], line, color)
  }

  /** What the window shows, in terms of the text. */
  lemma WindowShowsText(rows: seq<Row>, cells: seq<Cell>, v: View, before: seq<Line>, screen: seq<Line>)
    requires ValidView(|rows|, v) && |cells| == CELLS && |before| == HEIGHT
    requires screen == Window(rows, Rows(cells), v, before)
    ensures v.idx == 0 || InStep(|rows|, v) ==> ScreenShowsText(rows, cells, v, screen)
  {
    forall i: nat, line: Text, color: bv8 | (v.idx == 0 || InStep(|rows|, v)) && i < 25 && SevenBit(line)
      && (if i < v.idx then rows[v.idx - i] else RowOf(cells, i - v.idx)) == Pad(line, color)
      ensures ShowsText(screen[i], line, color)
    {
      GlyphsOfText(line, color);
      if v.idx > 0 {
        WindowInStep(rows, Rows(cells), v, before);
      }
    }
  }

  /** One ahead (after running into the oldest row), history rows come out right, but up to line_idx 25
      row line_idx - 1 of the screen is left as it was. */
  lemma WindowOneAhead(rows: seq<Row>, fb: seq<Row>, v: View, before: seq<Line>)
    requires ValidView(|rows|, v) && v.pos + 1 == v.idx && 0 < v.idx && |fb| == HEIGHT && |before| == HEIGHT
    ensures forall i :: 0 <= i < HEIGHT && i != v.idx - 1
              ==> Window(rows, fb, v, before)[i] == Glyphs(TrueRows(rows, fb, v.idx)[i])
    ensures v.idx <= HEIGHT ==> Window(rows, fb, v, before)[v.idx - 1] == before[v.idx - 1]
  {
    forall i: nat | i < HEIGHT && i != v.idx - 1
      ensures Window(rows, fb, v, before)[i] == Glyphs(TrueRows(rows, fb, v.idx)[i])
    {
      TrueRowAt(rows, fb, v.idx, i);
      if i < v.idx {
        HistRowsAt(rows, v.pos, Min(v.idx, HEIGHT), i);
      }
    }
  }

  /** Nothing of the old screen survives a redraw exactly when the history part is not cut short by
      the head of the list. */
  lemma RedrawIsTotal(rows: seq<Row>, fb: seq<Row>, v: View)
    requires ValidView(|rows|, v) && |fb| == HEIGHT
    ensures (forall a: seq<Line>, b: seq<Line> :: |a| == HEIGHT && |b| == HEIGHT
              ==> Window(rows, fb, v, a) == Window(rows, fb, v, b))
            <==> v.idx == 0 || v.pos >= Min(v.idx, HEIGHT)
  {
    var k := Min(v.idx, HEIGHT);
    if v.idx != 0 && v.pos < k {
      var a: seq<Line>, b: seq<Line> := seq(HEIGHT, _ => []), seq(HEIGHT, _ => [Glyph(0, 0)]);
      assert Window(rows, fb, v, a)[k - 1] == a[k - 1];
      assert Window(rows, fb, v, b)[k - 1] == b[k - 1];
    }
  }

  /** Scrolling k rows up and back down shows the same screen again, short of the oldest row. */
  lemma UpDownSameScreen(rows: seq<Row>, fb: seq<Row>, v: View, k: nat, before: seq<Line>, after: seq<Line>)
    requires 0 < |rows| && InStep(|rows|, v) && v.idx + k < |rows|
    requires |fb| == HEIGHT && |before| == HEIGHT && |after| == HEIGHT
    ensures var n := |rows|;
            Window(rows, fb, ScrollDown(n, ScrollUp(n, v, k), k), after) == Window(rows, fb, v, before)
  {
    var w := ScrollDown(|rows|, ScrollUp(|rows|, v, k), k);
    WindowInStep(rows, fb, v, before);
    WindowInStep(rows, fb, w, after);
  }

  // ---- the dump ------------------------------------------------------------------------------

  function RowChars(row: Row): (text: seq<Char>)
    ensures |text| == |row|
  {
    seq(|row|, i requires 0 <= i < |row| => CharOf(row[i]))
  }

  lemma RowCharsSnoc(row: Row, i: nat)
    requires i < |row|
    ensures RowChars(row[..i + 1]) == RowChars(row[..i]) + [CharOf(row[i])]
  {
  }

  /** Each row's characters and a newline. */
  function TextOf(rows: seq<Row>): (text: seq<Char>) {
    if rows == [] then [] else TextOf(rows[..|rows| - 1]) + (RowChars(rows[|rows| - 1]) + [NEWLINE])
  }

  lemma TextOfSnoc(rows: seq<Row>, i: nat)
    requires i < |rows|
    ensures TextOf(rows[..i + 1]) == TextOf(rows[..i]) + (RowChars(rows[i]) + [NEWLINE])
  {
    assert rows[..i + 1][..i] == rows[..i];
  }

  lemma {:induction false} TextOfConcat(a: seq<Row>, b: seq<Row>)
    ensures TextOf(a + b) == TextOf(a) + TextOf(b)
  {
    if b == [] {
      assert a + b == a;
    } else {
      var n := |b| - 1;
      TextOfConcat(a, b[..n]);
      assert (a + b)[..|a + b| - 1] == a + b[..n];
      ConcatAssoc(TextOf(a), TextOf(b[..n]), RowChars(b[n]) + [NEWLINE]);
    }
  }

  /** The file written at shutdown: the history, oldest first but without its newest row, then the
      framebuffer. */
  function Dump(rows: seq<Row>, fb: seq<Row>): (text: seq<Char>)
    requires rows != []
  {
    TextOf(Reverse(rows[1..])) + TextOf(fb)
  }

  /** The dump is the transcript short of exactly the row that scrolled off last. */
  lemma DumpMissesNewestRow(rows: seq<Row>, fb: seq<Row>)
    requires rows != []
    ensures var t := Transcript(rows, fb); var n := |rows| - 1;
            Dump(rows, fb) == TextOf(t[..n] + t[n + 1..]) && t[n] == rows[0]
  {
    var t, n := Transcript(rows, fb), |rows| - 1;
    assert t[..n] == Reverse(rows[1..]);
    assert t[n + 1..] == fb;
    TextOfConcat(t[..n], fb);
  }

  /** How one update changes the history. */
  function Handled(cap: nat, rows: seq<Row>, update: Update, top: Row): (r: seq<Row>)
    requires cap > 0 && |rows| <= cap
    ensures |r| <= cap
  {
    if update == Scrollup then Push(cap, rows, top) else rows
  }
}
