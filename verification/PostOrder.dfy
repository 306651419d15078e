/** Which updates the guest posts for a text, in which order, and what the screen shows when it does. */
module PostOrder {
  import opened Seqs
  import opened Vga
  import opened Renderer
  import opened GuestOps
  import opened Handshake
  import opened RowReports

  /** A post, and the screen at that instant. */
  datatype Sight = Sight(update: Update, fb: seq<Cell>)

  function Sights(w: World, ops: seq<Op>): (seen: seq<Sight>)
    requires |w.fb| == CELLS && ValidOps(ops)
    ensures forall k :: 0 <= k < |seen| ==> |seen[k].fb| == CELLS
  {
    if ops == [] then []
    else
      var n := |ops| - 1;
      Sights(w, ops[..n]) + if ops[n].Post? then [Sight(ops[n].update, Exec(w, ops[..n]).fb)] else []
  }

  lemma {:induction false} SightsConcat(w: World, a: seq<Op>, b: seq<Op>)
    requires |w.fb| == CELLS && ValidOps(a) && ValidOps(b)
    ensures ValidOps(a + b) && Sights(w, a + b) == Sights(w, a) + Sights(Exec(w, a), b)
  {
    if b == [] {
      assert a + b == a;
    } else {
      var n := |b| - 1;
      SightsConcat(w, a, b[..n]);
      ExecConcat(w, a, b[..n]);
      assert (a + b)[..|a| + n] == a + b[..n];
    }
  }

  lemma {:induction false} NoSights(w: World, ops: seq<Op>)
    requires |w.fb| == CELLS && ValidOps(ops) && forall i :: 0 <= i < |ops| ==> !ops[i].Post?
    ensures Sights(w, ops) == []
  {
    if ops != [] {
      NoSights(w, ops[..|ops| - 1]);
    }
  }

  lemma OneSight(w: World, op: Op)
    requires |w.fb| == CELLS && ValidOp(op)
    ensures Sights(w, [op]) == if op.Post? then [Sight(op.update, w.fb)] else []
  {
    assert [op][..0] == [];
  }

  // ---- what the terminal's calls look like -------------------------------------------------------

  function ScrollSights(t: Term): (seen: seq<Sight>)
    requires ValidTerm(t)
  {
    [Sight(Scrollup, t.fb), Sight(ScreenRedraw, ShiftUp(t.fb, t.color))]
  }

  function RowSights(t: Term): (seen: seq<Sight>)
    requires ValidTerm(t)
  {
    [Sight(LineDrawn, t.fb)] + if t.row + 1 == HEIGHT then ScrollSights(t) else []
  }

  function CharSights(t: Term, c: Char): (seen: seq<Sight>)
    requires ValidTerm(t)
  {
    if c == NEWLINE then RowSights(t)
    else if t.col + 1 == WIDTH then RowSights(PutAtCursor(t, c))
    else []
  }

  function TextSights(t: Term, s: Text): (seen: seq<Sight>)
    requires ValidTerm(t)
  {
    if s == [] then []
    else TextSights(t, s[..|s| - 1]) + CharSights(Print(t, s[..|s| - 1]), s[|s| - 1])
  }

  lemma ScrollSeen(w: World, t: Term)
    requires ValidTerm(t) && w.fb == t.fb
    ensures Sights(w, ScrollOps(t.fb, t.color)) == ScrollSights(t)
  {
    var moves, w' := MovesSeen(w, t);
    RedrawSeen(w, moves, w');
  }

  lemma RedrawSeen(w: World, ops: seq<Op>, w': World)
    requires |w.fb| == CELLS && ValidOps(ops) && w' == Exec(w, ops)
    ensures ValidOps(ops + [Post(ScreenRedraw)])
    ensures Sights(w, ops + [Post(ScreenRedraw)]) == Sights(w, ops) + [Sight(ScreenRedraw, w'.fb)]
  {
    OneSight(w', Post(ScreenRedraw));
    SightsConcat(w, ops, [Post(ScreenRedraw)]);
  }

  lemma MovesSeen(w: World, t: Term) returns (ops: seq<Op>, w': World)
    requires ValidTerm(t) && w.fb == t.fb
    ensures ops == [Post(Scrollup)] + MoveUpOps(t.fb, t.color) && ValidOps(ops) && w' == Exec(w, ops)
    ensures w'.fb == ShiftUp(t.fb, t.color) && Sights(w, ops) == [Sight(Scrollup, t.fb)]
  {
    var moves := MoveUpOps(t.fb, t.color);
    var w1 := Apply(w, Post(Scrollup));
    CopyStores(t.fb, SCROLL_WORDS);
    FillStores(Blank(t.color), CELLS - WIDTH, WIDTH);
    ExecOne(w, Post(Scrollup));
    OneSight(w, Post(Scrollup));
    NoSights(w1, moves);
    SightsConcat(w, [Post(Scrollup)], moves);
    ExecConcat(w, [Post(Scrollup)], moves);
    ExecMoveUp(w1, t.color);
    ops, w' := [Post(Scrollup)] + moves, w1.(fb := ShiftUp(t.fb, t.color));
  }

  lemma ReportSeen(w: World, row: nat)
    requires |w.fb| == CELLS
    ensures Sights(w, [SetLine(row), Post(LineDrawn)]) == [Sight(LineDrawn, w.fb)]
    ensures Exec(w, [SetLine(row), Post(LineDrawn)]) == w
  {
    ExecOne(w, SetLine(row));
    OneSight(w, SetLine(row));
    OneSight(w, Post(LineDrawn));
    SightsConcat(w, [SetLine(row)], [Post(LineDrawn)]);
    ExecSnoc(w, [SetLine(row)], Post(LineDrawn));
    assert [SetLine(row)] + [Post(LineDrawn)] == [SetLine(row), Post(LineDrawn)];
  }

  lemma RowSeen(w: World, t: Term)
    requires ValidTerm(t) && w.fb == t.fb
    ensures Sights(w, NewRowOps(t)) == RowSights(t)
  {
    var head := [SetLine(t.row), Post(LineDrawn)];
    ReportSeen(w, t.row);
    if t.row + 1 == HEIGHT {
      ScrollSeen(w, t);
      SightsConcat(w, head, ScrollOps(t.fb, t.color));
    } else {
      assert NewRowOps(t) == head;
    }
  }

  lemma CharSeen(w: World, t: Term, c: Char)
    requires ValidTerm(t) && w.fb == t.fb
    ensures Sights(w, PutcharOps(t, c)) == CharSights(t, c)
  {
    if c == NEWLINE {
      RowSeen(w, t);
    } else {
      OneSight(w, PutOp(t, c));
      if t.col + 1 == WIDTH {
        ExecPut(w, t, c);
        RowSeen(w.(fb := PutAtCursor(t, c).fb), PutAtCursor(t, c));
        SightsConcat(w, [PutOp(t, c)], NewRowOps(PutAtCursor(t, c)));
      }
    }
  }

  lemma {:induction false} TextSeen(w: World, t0: Term, s: Text) returns (ops: seq<Op>, t: Term, w': World)
    requires ValidTerm(t0) && w.fb == t0.fb
    ensures ops == PrintOps(t0, s) && t == Print(t0, s) && ValidOps(ops) && w' == Exec(w, ops) && w'.fb == t.fb
    ensures Sights(w, ops) == TextSights(t0, s)
  {
    if s == [] {
      ops, t, w' := [], t0, w;
    } else {
      var n := |s| - 1;
      ops, t, w' := TextSeen(w, t0, s[..n]);
      CharSeen(w', t, s[n]);
      SightsConcat(w, ops, PutcharOps(t, s[n]));
      ExecConcat(w, ops, PutcharOps(t, s[n]));
      ExecPutchar(w', t, s[n]);
      ops, w', t := ops + PutcharOps(t, s[n]), Exec(w', PutcharOps(t, s[n])), Putchar(t, s[n]);
    }
  }

  lemma ProgramSeen(fb: seq<Cell>, color: bv8, s: Text)
    requires |fb| == CELLS
    ensures Sights(World(fb, []), Program(color, s))
         == [Sight(ScreenRedraw, BlankTerm(color).fb)] + TextSights(BlankTerm(color), s)
  {
    var w := World(fb, []);
    var fills := ExecFill(w, Blank(color), 0, CELLS);
    assert GuestOps.Filled(fb, Blank(color), 0, CELLS) == BlankTerm(color).fb;
    FillStores(Blank(color), 0, CELLS);
    NoSights(w, fills);
    OneSight(Exec(w, fills), Post(ScreenRedraw));
    SightsConcat(w, fills, [Post(ScreenRedraw)]);
    ExecInit(w, color);
    var ops, t, w' := TextSeen(Exec(w, InitOps(color)), BlankTerm(color), s);
    SightsConcat(w, InitOps(color), ops);
  }

  // ---- and what they should look like ------------------------------------------------------------

  /** A report for each of the first n rows, and from the 25th on a scrollup and a redraw after it. */
  function RowPosts(n: nat): (us: seq<Update>) {
    if n == 0 then []
    else RowPosts(n - 1) + if n <= 24 then [LineDrawn] else [LineDrawn, Scrollup, ScreenRedraw]
  }

  function UpdatesOf(seen: seq<Sight>): (us: seq<Update>)
    ensures |us| == |seen|
  {
    seq(|seen|, k requires 0 <= k < |seen| => seen[k].update)
  }

  /** How many rows have been reported. */
  function Reports(us: seq<Update>): (n: nat) {
    multiset(us)[LineDrawn]
  }

  predicate ShowsPage(fb: seq<Cell>, lines: seq<Text>, color: bv8)
    requires |fb| == CELLS
  {
    forall r :: 0 <= r < 25 ==> RowOf(fb, r) == OnScreen(lines, color)[r]
  }

  /** With n rows reported before: a report finds its row complete on the screen, a scrollup finds the row
      that is due at the top, and a redraw finds the page as far as it has come. */
  ghost predicate Shown(fb: seq<Cell>, u: Update, n: nat, lines: seq<Text>, color: bv8)
    requires |fb| == CELLS
  {
    match u
    case LineDrawn => n + 1 < |lines| && RowOf(fb, if n < 24 then n else 24) == Pad(lines[n], color)
    case Scrollup => 25 <= n < |lines| && RowOf(fb, 0) == Pad(lines[n - 25], color)
    case ScreenRedraw => n < |lines| && ShowsPage(fb, lines[..n] + [[]], color)
    case _ => true
  }

  /** `right` holds of each of the posts and the number of rows reported before it, beginning with n. */
  ghost predicate AllRight(seen: seq<Sight>, n: nat, right: (Sight, nat) -> bool) {
    seen == [] ||
    (right(seen[0], n) && AllRight(seen[1..], if seen[0].update == LineDrawn then n + 1 else n, right))
  }

  lemma {:induction false} RightConcat(a: seq<Sight>, b: seq<Sight>, n: nat, right: (Sight, nat) -> bool)
    requires AllRight(a, n, right) && AllRight(b, n + Reports(UpdatesOf(a)), right)
    ensures AllRight(a + b, n, right)
  {
    if a == [] {
      assert a + b == b && UpdatesOf(a) == [];
    } else {
      assert UpdatesOf(a) == [a[0].update] + UpdatesOf(a[1..]);
      assert (a + b)[1..] == a[1..] + b && (a + b)[0] == a[0];
      RightConcat(a[1..], b, if a[0].update == LineDrawn then n + 1 else n, right);
    }
  }

  lemma {:induction false} RightAt(seen: seq<Sight>, n: nat, right: (Sight, nat) -> bool, k: nat)
    requires AllRight(seen, n, right) && k < |seen|
    ensures right(seen[k], n + Reports(UpdatesOf(seen[..k])))
  {
    if k > 0 {
      assert UpdatesOf(seen[..k]) == [seen[0].update] + UpdatesOf(seen[1..][..k - 1]);
      RightAt(seen[1..], if seen[0].update == LineDrawn then n + 1 else n, right, k - 1);
    }
  }

  lemma OneRight(sight: Sight, n: nat, right: (Sight, nat) -> bool)
    requires right(sight, n)
    ensures AllRight([sight], n, right)
    ensures n + Reports(UpdatesOf([sight])) == if sight.update == LineDrawn then n + 1 else n
  {
    assert [sight][1..] == [] && UpdatesOf([sight]) == [sight.update];
  }

  lemma {:induction false} RightImplies(seen: seq<Sight>, n: nat, a: (Sight, nat) -> bool, b: (Sight, nat) -> bool)
    requires AllRight(seen, n, a) && forall x, k: nat :: a(x, k) ==> b(x, k)
    ensures AllRight(seen, n, b)
  {
    if seen != [] {
      RightImplies(seen[1..], if seen[0].update == LineDrawn then n + 1 else n, a, b);
    }
  }

  /** The screen is right for a page that comes to `lines`. */
  ghost function Right(lines: seq<Text>, color: bv8): (p: (Sight, nat) -> bool) {
    (x: Sight, n: nat) => |x.fb| == CELLS && Shown(x.fb, x.update, n, lines, color)
  }

  lemma {:induction false} ReportsInRowPosts(n: nat)
    ensures Reports(RowPosts(n)) == n
  {
    if n > 0 {
      ReportsInRowPosts(n - 1);
    }
  }

  lemma UpdatesConcat(a: seq<Sight>, b: seq<Sight>)
    ensures UpdatesOf(a + b) == UpdatesOf(a) + UpdatesOf(b)
  {
  }

  /** Later lines change nothing about what was shown. */
  lemma ShownLater(fb: seq<Cell>, u: Update, n: nat, lines: seq<Text>, c: Char, color: bv8)
    requires |fb| == CELLS && |lines| > 0 && Shown(fb, u, n, lines, color)
    ensures Shown(fb, u, n, Advance(lines, c), color)
  {
    var more := Advance(lines, c);
    assert |more| >= |lines| && more[..|lines| - 1] == lines[..|lines| - 1];
    if n < |lines| {
      assert more[..n] == more[..|lines| - 1][..n] && lines[..n] == lines[..|lines| - 1][..n];
    }
  }

  /** The terminal's screen shows the page. */
  predicate OnPage(t: Term, lines: seq<Text>) {
    && ValidTerm(t) && |lines| > 0
    && t.row == |lines| - 1 - Scrolled(lines) && Rows(t.fb) == OnScreen(lines, t.color)
  }

  /** The post that reports a row shows it complete. */
  lemma ReportRight(t: Term, lines: seq<Text>, right: (Sight, nat) -> bool)
    requires OnPage(t, lines) && right == Right(lines + [[]], t.color)
    ensures right(Sight(LineDrawn, t.fb), |lines| - 1)
  {
    assert RowOf(t.fb, t.row) == Rows(t.fb)[t.row] == Pad(lines[|lines| - 1], t.color);
  }

  /** And the posts of a scroll show the row due and the page with its new line. */
  lemma ScrollupRight(t: Term, lines: seq<Text>, right: (Sight, nat) -> bool)
    requires OnPage(t, lines) && t.row + 1 == HEIGHT && right == Right(lines + [[]], t.color)
    ensures right(Sight(Scrollup, t.fb), |lines|)
  {
    assert RowOf(t.fb, 0) == Rows(t.fb)[0] == Pad(lines[|lines| - 25], t.color);
  }

  lemma RedrawRight(t: Term, lines: seq<Text>, right: (Sight, nat) -> bool)
    requires OnPage(t, lines) && t.row + 1 == HEIGHT && right == Right(lines + [[]], t.color)
    ensures right(Sight(ScreenRedraw, ShiftUp(t.fb, t.color)), |lines|)
  {
    var fb, page := ShiftUp(t.fb, t.color), lines + [[]];
    assert forall r :: 0 <= r < HEIGHT ==> RowOf(t.fb, r) == Rows(t.fb)[r];
    ShowsNewRow(t, lines);
    assert forall r :: 0 <= r < HEIGHT ==> Rows(fb)[r] == OnScreen(page, t.color)[r];
    assert Rows(fb) == OnScreen(page, t.color);
    assert page[..|lines|] + [[]] == page;
  }

  lemma RowUpdates(t: Term, lines: seq<Text>)
    requires OnPage(t, lines)
    ensures UpdatesOf(RowSights(t)) == if |lines| <= 24 then [LineDrawn] else [LineDrawn, Scrollup, ScreenRedraw]
  {
  }

  lemma LineRight(fb: seq<Cell>, n: nat, right: (Sight, nat) -> bool)
    requires right(Sight(LineDrawn, fb), n)
    ensures AllRight([Sight(LineDrawn, fb)], n, right)
  {
    OneRight(Sight(LineDrawn, fb), n, right);
  }

  lemma ScrollRight(fb: seq<Cell>, fb': seq<Cell>, n: nat, right: (Sight, nat) -> bool)
    requires right(Sight(LineDrawn, fb), n)
    requires right(Sight(Scrollup, fb), n + 1) && right(Sight(ScreenRedraw, fb'), n + 1)
    ensures AllRight([Sight(LineDrawn, fb), Sight(Scrollup, fb), Sight(ScreenRedraw, fb')], n, right)
  {
    var line, top, page := [Sight(LineDrawn, fb)], [Sight(Scrollup, fb)], [Sight(ScreenRedraw, fb')];
    OneRight(line[0], n, right);
    OneRight(top[0], n + 1, right);
    OneRight(page[0], n + 1, right);
    RightConcat(top, page, n + 1, right);
    RightConcat(line, top + page, n, right);
    assert line + (top + page) == [Sight(LineDrawn, fb), Sight(Scrollup, fb), Sight(ScreenRedraw, fb')];
  }

  /** `right` holds of the posts at the end of a row, n having been reported before. */
  ghost predicate RowRight(t: Term, n: nat, right: (Sight, nat) -> bool)
    requires ValidTerm(t)
  {
    && right(Sight(LineDrawn, t.fb), n)
    && (t.row + 1 == HEIGHT ==> right(Sight(Scrollup, t.fb), n + 1))
    && (t.row + 1 == HEIGHT ==> right(Sight(ScreenRedraw, ShiftUp(t.fb, t.color)), n + 1))
  }

  lemma PageRowRight(t: Term, lines: seq<Text>, right: (Sight, nat) -> bool)
    requires OnPage(t, lines) && right == Right(lines + [[]], t.color)
    ensures RowRight(t, |lines| - 1, right)
  {
    ReportRight(t, lines, right);
    if t.row + 1 == HEIGHT {
      ScrollupRight(t, lines, right);
      RedrawRight(t, lines, right);
    }
  }

  lemma RowSightsRight(t: Term, n: nat, right: (Sight, nat) -> bool)
    requires ValidTerm(t) && RowRight(t, n, right)
    ensures AllRight(RowSights(t), n, right)
  {
    RowSightsAre(t);
    if t.row + 1 == HEIGHT {
      ScrollRight(t.fb, ShiftUp(t.fb, t.color), n, right);
    } else {
      LineRight(t.fb, n, right);
    }
  }

  lemma RowSightsAre(t: Term)
    requires ValidTerm(t)
    ensures RowSights(t) == if t.row + 1 < HEIGHT then [Sight(LineDrawn, t.fb)]
              else [Sight(LineDrawn, t.fb), Sight(Scrollup, t.fb), Sight(ScreenRedraw, ShiftUp(t.fb, t.color))]
  {
  }

  lemma AppendSights(seen: seq<Sight>, more: seq<Sight>, n: nat, right: (Sight, nat) -> bool)
    requires UpdatesOf(seen) == RowPosts(n) && RowPosts(n + 1) == RowPosts(n) + UpdatesOf(more)
    requires AllRight(seen, 0, right) && AllRight(more, n, right)
    ensures UpdatesOf(seen + more) == RowPosts(n + 1) && AllRight(seen + more, 0, right)
  {
    ReportsInRowPosts(n);
    assert Reports(UpdatesOf(seen)) == n;
    RightConcat(seen, more, 0, right);
    UpdatesConcat(seen, more);
  }

  /** The posts at the end of a row, after those before. */
  lemma AppendRow(seen: seq<Sight>, t: Term, lines: seq<Text>) returns (all: seq<Sight>)
    requires OnPage(t, lines) && UpdatesOf(seen) == RowPosts(|lines| - 1)
    requires AllRight(seen, 0, Right(lines + [[]], t.color))
    ensures all == seen + RowSights(t) && UpdatesOf(all) == RowPosts(|lines|)
    ensures AllRight(all, 0, Right(lines + [[]], t.color))
  {
    all := seen + RowSights(t);
    RowUpdates(t, lines);
    PageRowRight(t, lines, Right(lines + [[]], t.color));
    RowSightsRight(t, |lines| - 1, Right(lines + [[]], t.color));
    AppendSights(seen, RowSights(t), |lines| - 1, Right(lines + [[]], t.color));
  }

  lemma AllShownLater(seen: seq<Sight>, lines: seq<Text>, c: Char, color: bv8)
    requires |lines| > 0 && AllRight(seen, 0, Right(lines, color))
    ensures AllRight(seen, 0, Right(Advance(lines, c), color))
  {
    var now, later := Right(lines, color), Right(Advance(lines, c), color);
    forall x: Sight, n: nat | now(x, n) ensures later(x, n) {
      ShownLater(x.fb, x.update, n, lines, c, color);
    }
    RightImplies(seen, 0, now, later);
  }

  lemma PageWithChar(t: Term, lines: seq<Text>, c: Char) returns (ls: seq<Text>)
    requires ValidTerm(t) && |lines| > 0 && |lines[|lines| - 1]| < WIDTH && Shows(t, lines)
    ensures ls == lines[..|lines| - 1] + [lines[|lines| - 1] + [c]] && OnPage(PutAtCursor(t, c), ls)
  {
    ls := lines[..|lines| - 1] + [lines[|lines| - 1] + [c]];
    ShowsPut(t, lines, c);
  }

  /** One more character. */
  lemma AppendChar(seen: seq<Sight>, t: Term, lines: seq<Text>, c: Char) returns (all: seq<Sight>, page: seq<Text>)
    requires ValidTerm(t) && |lines| > 0 && |lines[|lines| - 1]| < WIDTH && Shows(t, lines)
    requires UpdatesOf(seen) == RowPosts(|lines| - 1) && AllRight(seen, 0, Right(lines, t.color))
    ensures all == seen + CharSights(t, c) && page == Advance(lines, c) && |page| > 0
    ensures UpdatesOf(all) == RowPosts(|page| - 1) && AllRight(all, 0, Right(page, t.color))
  {
    page := Advance(lines, c);
    AllShownLater(seen, lines, c, t.color);
    if c == NEWLINE {
      all := AppendRow(seen, t, lines);
    } else if t.col + 1 == WIDTH {
      var ls := PageWithChar(t, lines, c);
      all := AppendRow(seen, PutAtCursor(t, c), ls);
    } else {
      all := seen;
      assert seen + [] == seen;
    }
  }

  lemma {:induction false} TextShown(t0: Term, s: Text) returns (t: Term, seen: seq<Sight>, lines: seq<Text>)
    requires ValidTerm(t0) && Lines([]) == [[]] && Shows(t0, [[]])
    ensures t == Print(t0, s) && seen == TextSights(t0, s) && lines == Lines(s) && Shows(t, lines)
    ensures UpdatesOf(seen) == RowPosts(|lines| - 1) && AllRight(seen, 0, Right(lines, t0.color))
  {
    if s == [] {
      t, seen, lines := t0, [], [[]];
    } else {
      var n := |s| - 1;
      t, seen, lines := TextShown(t0, s[..n]);
      LinesLast(s);
      ShowsPutchar(t, lines, s[n]);
      seen, lines := AppendChar(seen, t, lines, s[n]);
      t := Putchar(t, s[n]);
    }
  }

  /** term_init's redraw comes first, with an empty page. */
  lemma RedrawFirst(seen: seq<Sight>, lines: seq<Text>, color: bv8) returns (all: seq<Sight>)
    requires |lines| > 0 && AllRight(seen, 0, Right(lines, color))
    ensures all == [Sight(ScreenRedraw, BlankTerm(color).fb)] + seen && AllRight(all, 0, Right(lines, color))
    ensures UpdatesOf(all) == [ScreenRedraw] + UpdatesOf(seen)
  {
    all := [Sight(ScreenRedraw, BlankTerm(color).fb)] + seen;
    EmptyPage(lines, color);
    assert all[1..] == seen;
  }

  lemma EmptyPage(lines: seq<Text>, color: bv8)
    requires |lines| > 0
    ensures Shown(BlankTerm(color).fb, ScreenRedraw, 0, lines, color)
  {
    BlankShows(color);
    var fb := BlankTerm(color).fb;
    assert lines[..0] + [[]] == [[]];
    assert forall r :: 0 <= r < HEIGHT ==> Rows(fb)[r] == RowOf(fb, r) == OnScreen([[]], color)[r];
  }

  // ---- post by post --------------------------------------------------------------------------------

  lemma {:induction false} SightsArePosts(w: World, ops: seq<Op>)
    requires |w.fb| == CELLS && ValidOps(ops)
    ensures UpdatesOf(Sights(w, ops)) == Posts(ops)
  {
    if ops != [] {
      SightsArePosts(w, ops[..|ops| - 1]);
    }
  }

  lemma {:induction false} SightAt(w: World, ops: seq<Op>, i: nat) returns (all: seq<Sight>, k: nat, fb: seq<Cell>)
    requires |w.fb| == CELLS && ValidOps(ops) && i < |ops| && ops[i].Post?
    ensures all == Sights(w, ops) && fb == Exec(w, ops[..i]).fb
    ensures k < |all| && all[k] == Sight(ops[i].update, fb) && UpdatesOf(all[..k]) == Posts(ops[..i])
  {
    var n := |ops| - 1;
    if i < n {
      var before;
      before, k, fb := SightAt(w, ops[..n], i);
      assert ops[..n][..i] == ops[..i];
      all := before + if ops[n].Post? then [Sight(ops[n].update, Exec(w, ops[..n]).fb)] else [];
      assert all[..k] == before[..k];
    } else {
      SightsArePosts(w, ops[..n]);
      all, k, fb := Sights(w, ops), |Sights(w, ops[..n])|, Exec(w, ops[..n]).fb;
      assert all[..k] == Sights(w, ops[..n]);
    }
  }

  /** The guest posts a redraw, then a report for every finished row, with a scrollup and a redraw after each
      from the 25th on. And at each post the screen is as it should be: a reported row is complete, the row to
      be saved is the one due and still at the top, and what is redrawn is the page so far. */
  lemma ProgramPosts(fb: seq<Cell>, color: bv8, s: Text)
    requires |fb| == CELLS
    ensures Posts(Program(color, s)) == [ScreenRedraw] + RowPosts(|Lines(s)| - 1)
    ensures forall i :: 0 <= i < |Program(color, s)| && Program(color, s)[i].Post? ==>
              var before, u := Program(color, s)[..i], Program(color, s)[i].update;
              Shown(Exec(World(fb, []), before).fb, u, Reports(Posts(before)), Lines(s), color)
  {
    var all := ProgramSights(fb, color, s);
    SightsArePosts(World(fb, []), Program(color, s));
    forall i | 0 <= i < |Program(color, s)| && Program(color, s)[i].Post?
      ensures var before, u := Program(color, s)[..i], Program(color, s)[i].update;
              Shown(Exec(World(fb, []), before).fb, u, Reports(Posts(before)), Lines(s), color)
    {
      var screen := PostRight(World(fb, []), Program(color, s), Right(Lines(s), color), i);
    }
  }

  lemma ProgramSights(fb: seq<Cell>, color: bv8, s: Text) returns (all: seq<Sight>)
    requires |fb| == CELLS
    ensures all == Sights(World(fb, []), Program(color, s)) && AllRight(all, 0, Right(Lines(s), color))
    ensures UpdatesOf(all) == [ScreenRedraw] + RowPosts(|Lines(s)| - 1)
  {
    BlankShows(color);
    var t, seen, lines := TextShown(BlankTerm(color), s);
    all := RedrawFirst(seen, lines, color);
    ProgramSeen(fb, color, s);
  }

  lemma PostRight(w: World, ops: seq<Op>, right: (Sight, nat) -> bool, i: nat) returns (fb: seq<Cell>)
    requires |w.fb| == CELLS && ValidOps(ops) && AllRight(Sights(w, ops), 0, right)
    requires i < |ops| && ops[i].Post?
    ensures fb == Exec(w, ops[..i]).fb && right(Sight(ops[i].update, fb), Reports(Posts(ops[..i])))
  {
    var all, k;
    all, k, fb := SightAt(w, ops, i);
    RightAt(all, 0, right, k);
  }
}
