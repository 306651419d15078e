/** Which rows the guest reports as finished, through the LINE register.

    Each report is two actions, the row into the register and then the post, with nothing in between. */
module RowReports {
  import opened Seqs
  import opened Vga
  import opened Renderer
  import opened GuestOps

  /** Every LINE update is posted right after its row has been written to the LINE register, and only
      rows of the screen are written there. */
  predicate Announced(ops: seq<Op>) {
    && (forall i :: 0 <= i < |ops| && ops[i].SetLine? ==> ops[i].row < HEIGHT)
    && (forall i :: 0 <= i < |ops| && ops[i] == Post(LineDrawn) ==> i > 0 && ops[i - 1].SetLine?)
  }

  /** The rows reported, in order. */
  function Reported(ops: seq<Op>): (rows: seq<nat>) {
    if ops == [] then []
    else
      var n := |ops| - 1;
      Reported(ops[..n])
      + if ops[n] == Post(LineDrawn) && n > 0 && ops[n - 1].SetLine? then [ops[n - 1].row] else []
  }

  /** The LINE register after some actions. */
  function LineAfter(line: nat, ops: seq<Op>): (row: nat) {
    if ops == [] then line
    else if ops[|ops| - 1].SetLine? then ops[|ops| - 1].row
    else LineAfter(line, ops[..|ops| - 1])
  }

  predicate NoLineFirst(ops: seq<Op>) {
    ops == [] || ops[0] != Post(LineDrawn)
  }

  lemma {:induction false} ReportedConcat(a: seq<Op>, b: seq<Op>)
    requires NoLineFirst(b)
    ensures Reported(a + b) == Reported(a) + Reported(b)
  {
    if b == [] {
      assert a + b == a;
    } else {
      var n := |b| - 1;
      ReportedConcat(a, b[..n]);
      assert (a + b)[..|a| + n] == a + b[..n];
      ConcatAssoc(Reported(a), Reported(b[..n]), Reported(b)[|Reported(b[..n])|..]);
    }
  }

  lemma {:induction false} NothingReported(ops: seq<Op>)
    requires forall i :: 0 <= i < |ops| ==> ops[i] != Post(LineDrawn)
    ensures Reported(ops) == []
  {
    if ops != [] {
      NothingReported(ops[..|ops| - 1]);
    }
  }

  lemma {:induction false} CopyStores(fb: seq<Cell>, n: nat)
    requires |fb| == CELLS && n <= SCROLL_WORDS
    ensures forall i :: 0 <= i < |CopyOps(fb, n)| ==> CopyOps(fb, n)[i].Store?
  {
    if n > 0 {
      CopyStores(fb, n - 1);
    }
  }

  lemma {:induction false} FillStores(e: Cell, at: nat, n: nat)
    requires at + n <= CELLS
    ensures forall i :: 0 <= i < |FillOps(e, at, n)| ==> FillOps(e, at, n)[i].Store?
  {
    if n > 0 {
      FillStores(e, at, n - 1);
    }
  }

  lemma ScrollReportsNothing(fb: seq<Cell>, color: bv8)
    requires |fb| == CELLS
    ensures forall i :: 0 <= i < |ScrollOps(fb, color)| ==>
              ScrollOps(fb, color)[i] != Post(LineDrawn) && !ScrollOps(fb, color)[i].SetLine?
    ensures Reported(ScrollOps(fb, color)) == []
  {
    CopyStores(fb, SCROLL_WORDS);
    FillStores(Blank(color), CELLS - WIDTH, WIDTH);
    NothingReported(ScrollOps(fb, color));
  }

  lemma ReportedPair(row: nat)
    ensures Reported([SetLine(row), Post(LineDrawn)]) == [row]
  {
    var ops := [SetLine(row), Post(LineDrawn)];
    assert ops[..1] == [SetLine(row)] && [SetLine(row)][..0] == [];
    assert Reported([SetLine(row)]) == [];
    assert Reported(ops) == Reported(ops[..1]) + [row];
  }

  lemma NewRowReports(t: Term)
    requires ValidTerm(t)
    ensures Reported(NewRowOps(t)) == [t.row] && Announced(NewRowOps(t)) && NoLineFirst(NewRowOps(t))
  {
    var head := [SetLine(t.row), Post(LineDrawn)];
    ReportedPair(t.row);
    ScrollReportsNothing(t.fb, t.color);
    if t.row + 1 == HEIGHT {
      ReportedConcat(head, ScrollOps(t.fb, t.color));
    } else {
      assert head + [] == head;
    }
  }

  lemma PutcharReports(t: Term, c: Char) returns (ops: seq<Op>)
    requires ValidTerm(t)
    ensures ops == PutcharOps(t, c) && Announced(ops) && NoLineFirst(ops)
    ensures Reported(ops) == if c == NEWLINE || t.col + 1 == WIDTH then [t.row] else []
  {
    ops := PutcharOps(t, c);
    NewRowReports(t);
    if c != NEWLINE {
      NothingReported([PutOp(t, c)]);
      if t.col + 1 == WIDTH {
        NewRowReports(PutAtCursor(t, c));
        ReportedConcat([PutOp(t, c)], NewRowOps(PutAtCursor(t, c)));
      }
    }
  }

  /** The screen rows on which the first n rows of the page are finished. */
  function ScreenRows(n: nat): (rows: seq<nat>)
    ensures |rows| == n
  {
    seq(n, i requires 0 <= i => if i < HEIGHT then i else HEIGHT - 1)
  }

  /** The first n rows of the page, and no others, have been reported. */
  predicate ReportsOf(ops: seq<Op>, n: nat) {
    Announced(ops) && NoLineFirst(ops) && Reported(ops) == ScreenRows(n)
  }

  lemma ScreenRowsSnoc(n: nat)
    ensures ScreenRows(n + 1) == ScreenRows(n) + [if n < HEIGHT then n else HEIGHT - 1]
  {
  }

  lemma ReportMore(ops: seq<Op>, more: seq<Op>, n: nat, ends: bool)
    requires ReportsOf(ops, n) && Announced(more) && NoLineFirst(more)
    requires Reported(more) == if ends then [if n < HEIGHT then n else HEIGHT - 1] else []
    ensures ReportsOf(ops + more, if ends then n + 1 else n)
  {
    ReportedConcat(ops, more);
    AnnouncedConcat(ops, more);
    ScreenRowsSnoc(n);
    assert ScreenRows(n) + [] == ScreenRows(n);
  }

  lemma AdvanceLength(lines: seq<Text>, c: Char)
    requires |lines| > 0
    ensures |Advance(lines, c)| == |lines| + if c == NEWLINE || |lines[|lines| - 1]| + 1 == WIDTH then 1 else 0
  {
  }

  lemma ReportStep(ops: seq<Op>, t: Term, lines: seq<Text>, c: Char) returns (more: seq<Op>, n': nat)
    requires |lines| > 0 && ReportsOf(ops, |lines| - 1) && ValidTerm(t)
    requires t.row == |lines| - 1 - Scrolled(lines) && t.col == |lines[|lines| - 1]|
    ensures more == PutcharOps(t, c) && n' == |Advance(lines, c)| - 1 && ReportsOf(ops + more, n')
  {
    var ends := c == NEWLINE || t.col + 1 == WIDTH;
    more := PutcharReports(t, c);
    ReportMore(ops, more, |lines| - 1, ends);
    AdvanceLength(lines, c);
    n' := if ends then |lines| else |lines| - 1;
  }

  lemma AnnouncedConcat(a: seq<Op>, b: seq<Op>)
    requires Announced(a) && Announced(b) && NoLineFirst(a) && NoLineFirst(b)
    ensures Announced(a + b) && NoLineFirst(a + b)
  {
  }

  lemma {:induction false} AllReports(t0: Term, s: Text) returns (ops: seq<Op>, t: Term, lines: seq<Text>)
    requires ValidTerm(t0) && Lines([]) == [[]] && Shows(t0, [[]])
    ensures ops == PrintOps(t0, s) && t == Print(t0, s) && lines == Lines(s)
    ensures ReportsOf(ops, |lines| - 1) && ValidTerm(t) && Shows(t, lines)
  {
    if s == [] {
      ops, t, lines := [], t0, [[]];
    } else {
      var n := |s| - 1;
      ops, t, lines := AllReports(t0, s[..n]);
      LinesLast(s);
      var more, n' := ReportStep(ops, t, lines, s[n]);
      ShowsPutchar(t, lines, s[n]);
      ops, t, lines := ops + more, Putchar(t, s[n]), Advance(lines, s[n]);
    }
  }

  lemma InitReports(color: bv8)
    ensures Reported(InitOps(color)) == [] && Announced(InitOps(color)) && NoLineFirst(InitOps(color))
  {
    FillStores(Blank(color), 0, CELLS);
    NothingReported(InitOps(color));
  }

  /** Each finished row is reported exactly once, when it is finished, under the number it then has:
      rows 0, 1, ... of the page, and 24 again and again once the screen scrolls. */
  lemma ProgramReports(color: bv8, s: Text)
    ensures Reported(Program(color, s)) == ScreenRows(|Lines(s)| - 1)
    ensures Announced(Program(color, s))
  {
    BlankShows(color);
    var ops, t, lines := AllReports(BlankTerm(color), s);
    InitReports(color);
    ReportedConcat(InitOps(color), ops);
    AnnouncedConcat(InitOps(color), ops);
  }

  lemma LineSnoc(line: nat, ops: seq<Op>, n: nat)
    requires n < |ops|
    ensures LineAfter(line, ops[..n + 1]) == if ops[n].SetLine? then ops[n].row else LineAfter(line, ops[..n])
  {
    assert ops[..n + 1][..n] == ops[..n];
  }
}
