/** The reference renderer: what a stream of characters looks like on an endless 80-column page.
    It knows nothing of cursors, screens or scrolling: split at newlines, then fold at 80 columns. */
module Renderer {
  import opened Seqs
  import opened Vga

  type Text = seq<Char>

  function Split(s: Text): (lines: seq<Text>)
    ensures |lines| > 0
  {
    if s == [] then [[]]
    else if s[0] == NEWLINE then [[]] + Split(s[1..])
    else var rest := Split(s[1..]); [[s[0]] + rest[0]] + rest[1..]
  }

  /** A line of exactly 80 characters is followed by an empty one: the cursor has already moved on. */
  function Fold(line: Text): (rows: seq<Text>)
    ensures |rows| > 0
    ensures forall i :: 0 <= i < |rows| - 1 ==> |rows[i]| == WIDTH
    ensures |rows[|rows| - 1]| < WIDTH
  {
    if |line| < WIDTH then [line] else [line[..WIDTH]] + Fold(line[WIDTH..])
  }

  function FoldAll(lines: seq<Text>): (rows: seq<Text>)
    ensures forall i :: 0 <= i < |rows| ==> |rows[i]| <= WIDTH
    ensures lines != [] ==> |rows| > 0 && |rows[|rows| - 1]| < WIDTH
  {
    if lines == [] then [] else Fold(lines[0]) + FoldAll(lines[1..])
  }

  /** All rows ever started; the last one is where the next character goes. */
  function Lines(s: Text): (rows: seq<Text>)
    ensures |rows| > 0
    ensures forall i :: 0 <= i < |rows| ==> |rows[i]| <= WIDTH
    ensures |rows[|rows| - 1]| < WIDTH
  {
    FoldAll(Split(s))
  }

  /** The effect of one more character on the rows. */
  function Advance(rows: seq<Text>, c: Char): (rows': seq<Text>)
    requires |rows| > 0
  {
    var n := |rows| - 1;
    if c == NEWLINE then rows + [[]]
    else if |rows[n]| + 1 == WIDTH then rows[..n] + [rows[n] + [c]] + [[]]
    else rows[..n] + [rows[n] + [c]]
  }

  /** What one more character does to lines not yet folded. */
  function Extend(lines: seq<Text>, c: Char): (lines': seq<Text>)
    requires |lines| > 0
  {
    var n := |lines| - 1;
    if c == NEWLINE then lines + [[]] else lines[..n] + [lines[n] + [c]]
  }

  lemma SplitOne(c: Char)
    ensures Split([c]) == Extend(Split([]), c)
  {
    var one: Text, none: Text := [c], [];
    assert one[1..] == none && Split(none) == [none];
    if c != NEWLINE {
      calc {
        Split(one);
        [[c] + Split(none)[0]] + Split(none)[1..];
        { assert [c] + none == one; assert [none][1..] == []; }
        [one];
        { assert none + one == one; assert [none][..0] == []; }
        Extend([none], c);
      }
    }
  }

  lemma ExtendCons(head: Text, lines: seq<Text>, c: Char)
    requires |lines| > 0
    ensures Extend([head] + lines, c) == [head] + Extend(lines, c)
    ensures Extend([head + lines[0]] + lines[1..], c)
         == [head + Extend(lines, c)[0]] + Extend(lines, c)[1..]
  {
    if |lines| == 1 && c != NEWLINE {
      assert head + (lines[0] + [c]) == head + lines[0] + [c];
    }
  }

  lemma {:induction false} SplitSnoc(s: Text, c: Char)
    ensures Split(s + [c]) == Extend(Split(s), c)
  {
    if s == [] {
      SplitOne(c);
      assert s + [c] == [c];
    } else {
      SplitSnoc(s[1..], c);
      assert (s + [c])[1..] == s[1..] + [c] && (s + [c])[0] == s[0];
      ExtendCons(if s[0] == NEWLINE then [] else [s[0]], Split(s[1..]), c);
    }
  }

  lemma {:induction false} FoldSnoc(line: Text, c: Char)
    requires c != NEWLINE
    ensures Fold(line + [c]) == Advance(Fold(line), c)
  {
    if |line| < WIDTH {
      if |line| + 1 == WIDTH {
        assert (line + [c])[..WIDTH] == line + [c];
        assert (line + [c])[WIDTH..] == [];
      }
    } else {
      FoldSnoc(line[WIDTH..], c);
      assert (line + [c])[..WIDTH] == line[..WIDTH];
      assert (line + [c])[WIDTH..] == line[WIDTH..] + [c];
      AdvanceConcat([line[..WIDTH]], Fold(line[WIDTH..]), c);
    }
  }

  lemma AdvanceConcat(front: seq<Text>, rows: seq<Text>, c: Char)
    requires |rows| > 0
    ensures Advance(front + rows, c) == front + Advance(rows, c)
  {
    var all := front + rows;
    assert all[|all| - 1] == rows[|rows| - 1];
    assert all[..|all| - 1] == front + rows[..|rows| - 1];
  }

  lemma {:induction false} FoldAllConcat(a: seq<Text>, b: seq<Text>)
    ensures FoldAll(a + b) == FoldAll(a) + FoldAll(b)
  {
    if a == [] {
      assert a + b == b;
    } else {
      FoldAllConcat(a[1..], b);
      FoldFirstOf(a, b);
      ConcatAssoc(Fold(a[0]), FoldAll(a[1..]), FoldAll(b));
    }
  }

  lemma FoldFirstOf(a: seq<Text>, b: seq<Text>)
    requires a != []
    ensures FoldAll(a + b) == Fold(a[0]) + FoldAll(a[1..] + b)
  {
    assert (a + b)[1..] == a[1..] + b;
  }

  lemma FoldLast(front: seq<Text>, line: Text)
    ensures FoldAll(front + [line]) == FoldAll(front) + Fold(line)
  {
    FoldAllConcat(front, [line]);
    assert FoldAll([line]) == Fold(line) + FoldAll([]) == Fold(line);
  }

  /** One more character on the last line. */
  lemma FoldExtended(front: seq<Text>, line: Text, c: Char)
    requires c != NEWLINE
    ensures FoldAll(front + [line + [c]]) == Advance(FoldAll(front + [line]), c)
  {
    FoldLast(front, line);
    FoldLast(front, line + [c]);
    FoldSnoc(line, c);
    AdvanceConcat(FoldAll(front), Fold(line), c);
  }

  /** Printing character by character and folding the whole text agree. */
  lemma LinesSnoc(s: Text, c: Char)
    ensures Lines(s + [c]) == Advance(Lines(s), c)
  {
    SplitSnoc(s, c);
    var ls := Split(s);
    var n := |ls| - 1;
    if c == NEWLINE {
      FoldLast(ls, []);
    } else {
      assert ls == ls[..n] + [ls[n]];
      FoldExtended(ls[..n], ls[n], c);
    }
  }

  /** Characters in front that are not newlines join the first line. */
  lemma {:induction false} SplitJoins(a: Text, b: Text)
    requires NEWLINE !in a
    ensures Split(a + b) == [a + Split(b)[0]] + Split(b)[1..]
  {
    if a == [] {
      assert a + b == b && a + Split(b)[0] == Split(b)[0];
      assert Split(b) == [Split(b)[0]] + Split(b)[1..];
    } else {
      SplitJoins(a[1..], b);
      SplitFirst(a, b);
      ConcatAssoc([a[0]], a[1..], Split(b)[0]);
      assert [a[0]] + a[1..] == a;
    }
  }

  lemma SplitFirst(a: Text, b: Text)
    requires a != [] && a[0] != NEWLINE
    ensures var rest := Split(a[1..] + b); Split(a + b) == [[a[0]] + rest[0]] + rest[1..]
  {
    assert (a + b)[1..] == a[1..] + b;
  }

  /** The page, line by line: a text short of 80 columns is one row, a newline ends the row it stands in,
      and so do 80 characters without one. */
  lemma LinesAre(a: Text, b: Text)
    requires 10 !in a
    ensures |a| < 80 ==> Lines(a) == [a] && Lines(a + [10] + b) == [a] + Lines(b)
    ensures |a| == 80 ==> Lines(a + b) == [a] + Lines(b)
  {
    var none: Text := [];
    SplitJoins(a, none);
    assert Split(none) == [none] && a + none == a && [none][1..] == [];
    assert Split(a) == [a];
    SplitJoins(a, [NEWLINE] + b);
    SplitNewline(b);
    assert a + [NEWLINE] + b == a + ([NEWLINE] + b) && ([[]] + Split(b))[1..] == Split(b);
    assert Split(a + [NEWLINE] + b) == [a] + Split(b);
    SplitJoins(a, b);
    if |a| == 80 {
      var line := a + Split(b)[0];
      assert line[..WIDTH] == a && line[WIDTH..] == Split(b)[0];
    } else if |a| < 80 {
      FoldAllConcat([a], Split(b));
      FoldLast([], a);
      assert [] + [a] == [a];
    }
  }

  lemma SplitNewline(b: Text)
    ensures Split([NEWLINE] + b) == [[]] + Split(b)
  {
    assert ([NEWLINE] + b)[1..] == b;
  }

  /** A row as the framebuffer holds it: its characters, then blanks up to column 80. */
  function Pad(line: Text, color: bv8): (row: Row)
    ensures |row| == WIDTH
  {
    seq(WIDTH, i requires 0 <= i => if i < |line| then MakeVgaEntry(line[i], color) else Blank(color))
  }

  function PadAll(lines: seq<Text>, color: bv8): (rows: seq<Row>)
    ensures |rows| == |lines|
    ensures forall i :: 0 <= i < |rows| ==> rows[i] == Pad(lines[i], color)
  {
    seq(|lines|, i requires 0 <= i < |lines| => Pad(lines[i], color))
  }

  /** How many rows have left the top of the screen. */
  function Scrolled(lines: seq<Text>): (n: nat)
    ensures n <= |lines|
  {
    if |lines| > HEIGHT then |lines| - HEIGHT else 0
  }

  /** The 25 rows on screen: the last rows of the page, blank below. */
  function OnScreen(lines: seq<Text>, color: bv8): (rows: seq<Row>)
    ensures |rows| == HEIGHT
  {
    var top := Scrolled(lines);
    seq(HEIGHT, i requires 0 <= i =>
      if top + i < |lines| then Pad(lines[top + i], color) else BlankRow(color))
  }
}
