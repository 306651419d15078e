/** The remote console end to end: the guest's terminal, the handshake and the host's history
    together neither lose, duplicate nor reorder anything. */
module RemoteConsole {
  import opened Wrappers
  import opened Seqs
  import opened Vga
  import opened Renderer
  import opened GuestOps
  import opened History
  import opened RowReports
  import opened Handshake
  import opened Delivery
  import opened SavedRows
  import opened Progress

  /** What host and framebuffer should hold, oldest row first: the rows that scrolled away, as many
      as the host keeps, then the screen. */
  function Rendered(cap: nat, color: bv8, s: Text): (page: seq<Row>) {
    Last(cap, Gone(Lines(s), color)) + OnScreen(Lines(s), color)
  }

  /** The guest has printed the first k characters and not yet begun the next. */
  predicate HasPrinted(color: bv8, s: Text, k: nat, sys: Sys)
    requires k <= |s|
  {
    sys.guest == Running && sys.pc == |Program(color, s[..k])|
  }

  /** The history followed by the framebuffer is the reference rendering of the first k characters. */
  predicate IsRendered(cap: nat, color: bv8, s: Text, k: nat, sys: Sys)
    requires k <= |s| && |sys.mem.fb| == CELLS
  {
    Reverse(sys.hist) + Rows(sys.mem.fb) == Rendered(cap, color, s[..k])
  }

  lemma SameTail(a: seq<Row>, b: seq<Row>, tail: seq<Row>)
    ensures a + tail == b + tail <==> a == b
  {
    assert (a + tail)[|a + tail| - |tail|..] == tail;
    if a + tail == b + tail {
      assert a == (a + tail)[..|a|] && b == (b + tail)[..|b|];
    }
  }

  /** With the screen right, the history decides. */
  lemma HistoryDecides(cap: nat, color: bv8, s: Text, k: nat, sys: Sys)
    requires cap > 0 && k <= |s| && |sys.mem.fb| == CELLS && Rows(sys.mem.fb) == OnScreen(Lines(s[..k]), color)
    ensures IsRendered(cap, color, s, k, sys) <==> sys.hist == PushAll(cap, Gone(Lines(s[..k]), color))
  {
    SameTail(Reverse(sys.hist), Last(cap, Gone(Lines(s[..k]), color)), Rows(sys.mem.fb));
    PushAllKeepsNewest(cap, Gone(Lines(s[..k]), color));
    ReverseTwice(sys.hist);
    ReverseTwice(Last(cap, Gone(Lines(s[..k]), color)));
  }

  /** In any interleaving, timeouts included, whenever the guest is between two characters - having
      printed the first k of the stream, for whatever k: if no scrollup was overwritten in AVAIL, no cell
      was copied after the guest had changed it, and no scrolled row is still on its way, the host's
      history followed by the framebuffer is the reference rendering of those k characters. And as long
      as the history has room for every row, it is that only then. */
  lemma EndToEnd(cap: nat, color: bv8, s: Text, k: nat, mem: Shared, acts: seq<Action>)
    requires cap > 0 && |mem.fb| == CELLS && k <= |s|
    ensures var r := Run(cap, Program(color, s), mem, acts);
            r.Some? && HasPrinted(color, s, k, r.value) ==>
              && (AllSaved(cap, Program(color, s), mem, acts, r.value) ==> IsRendered(cap, color, s, k, r.value))
              && (Scrolled(Lines(s[..k])) <= cap && IsRendered(cap, color, s, k, r.value)
                  ==> AllSaved(cap, Program(color, s), mem, acts, r.value))
  {
    var r := Run(cap, Program(color, s), mem, acts);
    if r.Some? && HasPrinted(color, s, k, r.value) {
      ProgramPrefix(color, s, k);
      assert Program(color, s)[..r.value.pc] == Program(color, s[..k]);
      ProgramRenders(mem.fb, color, s[..k]);
      FramebufferIsRendered(cap, color, s, k, mem, acts);
      HistoryDecides(cap, color, s, k, r.value);
      RightExactlyWhenAllSaved(cap, Program(color, s), mem, acts, r.value);
    }
  }

  /** In particular in any interleaving without a timeout. */
  lemma EndToEndTimely(cap: nat, color: bv8, s: Text, k: nat, mem: Shared, acts: seq<Action>)
    requires cap > 0 && |mem.fb| == CELLS && k <= |s| && NoTimeout(acts)
    ensures var r := Run(cap, Program(color, s), mem, acts);
            r.Some? && HasPrinted(color, s, k, r.value) ==> IsRendered(cap, color, s, k, r.value)
  {
    var r := Run(cap, Program(color, s), mem, acts);
    if r.Some? && HasPrinted(color, s, k, r.value) {
      TimelyRunsSaveAll(cap, Program(color, s), mem, acts, r.value);
      EndToEnd(cap, color, s, k, mem, acts);
    }
  }

  /** The framebuffer half needs no such condition: it holds in every run. */
  lemma FramebufferIsRendered(cap: nat, color: bv8, s: Text, k: nat, mem: Shared, acts: seq<Action>)
    requires cap > 0 && |mem.fb| == CELLS && k <= |s|
    ensures var r := Run(cap, Program(color, s), mem, acts);
            r.Some? && HasPrinted(color, s, k, r.value) ==> Rows(r.value.mem.fb) == OnScreen(Lines(s[..k]), color)
  {
    var r := Run(cap, Program(color, s), mem, acts);
    if r.Some? && HasPrinted(color, s, k, r.value) {
      ProgramPrefix(color, s, k);
      assert Program(color, s)[..r.value.pc] == Program(color, s[..k]);
      EveryRunIsDriven(cap, Program(color, s), mem, acts);
      ProgramRenders(mem.fb, color, s[..k]);
    }
  }

  lemma {:induction false} LinesSevenBit(s: Text)
    requires forall i :: 0 <= i < |s| ==> s[i] < 0x80
    ensures forall i :: 0 <= i < |Lines(s)| ==> SevenBit(Lines(s)[i])
  {
    if s == [] {
      BlankShows(0);
    } else {
      LinesSevenBit(s[..|s| - 1]);
      LinesLast(s);
    }
  }

  lemma BottomShowsText(hist: seq<Row>, fb: seq<Cell>, lines: seq<Text>, color: bv8, before: seq<Line>, i: nat)
    requires |fb| == CELLS && Rows(fb) == OnScreen(lines, color) && |before| == HEIGHT && i < 25
    requires forall k :: 0 <= k < |lines| ==> SevenBit(lines[k])
    ensures var row := if |lines| > 25 then |lines| - 25 + i else i;
            ShowsText(Window(hist, Rows(fb), View(-1, 0), before)[i], if row < |lines| then lines[row] else [], color)
  {
    var row := if |lines| > 25 then |lines| - 25 + i else i;
    PadEmpty(color);
    var line := if row < |lines| then lines[row] else [];
    assert RowOf(fb, i) == Rows(fb)[i] == OnScreen(lines, color)[i] == Pad(line, color);
    WindowShowsText(hist, fb, View(-1, 0), before, Window(hist, Rows(fb), View(-1, 0), before));
  }

  /** In every run, when the guest has printed the first k characters of a 7-bit text, the host's window at the
      bottom shows the last 25 rows of what they come to, character by character. */
  lemma HostShowsText(cap: nat, color: bv8, s: Text, k: nat, mem: Shared, acts: seq<Action>, before: seq<Line>, i: nat)
    requires cap > 0 && |mem.fb| == CELLS && k <= |s| && |before| == HEIGHT && i < 25
    requires forall j :: 0 <= j < |s| ==> s[j] < 0x80
    ensures var r := Run(cap, Program(color, s), mem, acts);
            r.Some? && HasPrinted(color, s, k, r.value) ==>
              var lines := Lines(s[..k]); var row := if |lines| > 25 then |lines| - 25 + i else i;
              ShowsText(Window(r.value.hist, Rows(r.value.mem.fb), View(-1, 0), before)[i],
                if row < |lines| then lines[row] else [], color)
  {
    var r := Run(cap, Program(color, s), mem, acts);
    if r.Some? && HasPrinted(color, s, k, r.value) {
      FramebufferIsRendered(cap, color, s, k, mem, acts);
      LinesSevenBit(s[..k]);
      BottomShowsText(r.value.hist, r.value.mem.fb, Lines(s[..k]), color, before, i);
    }
  }

  lemma {:induction false} AnnouncedLine(line: nat, ops: seq<Op>, n: nat)
    requires Announced(ops) && n <= |ops| && LineDrawn in Posts(ops[..n])
    ensures LineAfter(line, ops[..n]) < HEIGHT
  {
    LineSnoc(line, ops, n - 1);
    assert ops[..n][..n - 1] == ops[..n - 1];
    if ops[n - 1] == Post(LineDrawn) {
      LineSnoc(line, ops, n - 2);
    } else if !ops[n - 1].SetLine? {
      AnnouncedLine(line, ops, n - 1);
    }
  }

  /** In every run, timeouts included, the host's assertion on the LINE register holds when it handles a
      line update, though the register may name a later row. */
  lemma LineAssertionHolds(cap: nat, ops: seq<Op>, mem: Shared, acts: seq<Action>)
    requires cap > 0 && ValidOps(ops) && |mem.fb| == CELLS && Announced(ops)
    ensures var r := Run(cap, ops, mem, acts);
            r.Some? && r.value.host.Handling? && r.value.host.update == LineDrawn ==> r.value.mem.lineReg < HEIGHT
  {
    var r := Run(cap, ops, mem, acts);
    if r.Some? && r.value.host.Handling? && r.value.host.update == LineDrawn {
      EveryRunIsDriven(cap, ops, mem, acts);
      EveryRunKeepsLedger(cap, ops, mem, acts);
      LinePosted(ops, mem, r.value);
    }
  }

  lemma LinePosted(ops: seq<Op>, mem: Shared, s: Sys)
    requires ValidOps(ops) && |mem.fb| == CELLS && Announced(ops) && Driven(ops, mem, s)
    requires LineDrawn in s.posts
    ensures s.mem.lineReg < HEIGHT
  {
    if LineDrawn in Posts(ops[..s.pc]) {
      AnnouncedLine(mem.lineReg, ops, s.pc);
    } else {
      LineSnoc(mem.lineReg, ops, s.pc - 1);
    }
  }

  /** Without a timeout, whenever the host handles a line update, the LINE register still holds the row that this very
      post reported. */
  lemma LineUpdateNamesRow(cap: nat, ops: seq<Op>, mem: Shared, acts: seq<Action>)
    requires cap > 0 && ValidOps(ops) && |mem.fb| == CELLS && NoTimeout(acts) && Announced(ops)
    ensures var r := Run(cap, ops, mem, acts);
            r.Some? && r.value.host.Handling? && r.value.host.update == LineDrawn
            ==> var sys := r.value;
                && sys.pc < |ops| && sys.mem.lineReg < HEIGHT
                && Reported(ops[..sys.pc + 1]) == Reported(ops[..sys.pc]) + [sys.mem.lineReg]
  {
    RunsInLockstep(cap, ops, mem, acts);
    var r := Run(cap, ops, mem, acts);
    if r.Some? && r.value.host.Handling? && r.value.host.update == LineDrawn {
      var n := r.value.pc;
      assert ops[n] == Post(LineDrawn);
      LineSnoc(mem.lineReg, ops, n - 1);
      assert ops[..n + 1][..n] == ops[..n];
    }
  }

  // ---- the file written at shutdown ------------------------------------------------------------

  /** Rows of text as a file of 80-column lines. */
  function PageText(lines: seq<Text>): (text: seq<Char>) {
    if lines == [] then []
    else PageText(lines[..|lines| - 1]) + (Widened(lines[|lines| - 1]) + [NEWLINE])
  }

  function Widened(line: Text): (w: Text)
    ensures |w| == if |line| < WIDTH then WIDTH else |line|
  {
    line + seq(if |line| < WIDTH then WIDTH - |line| else 0, _ => SPACE)
  }

  lemma PadIsWidened(line: Text, color: bv8)
    requires |line| <= WIDTH
    ensures RowChars(Pad(line, color)) == Widened(line)
  {
    forall i | 0 <= i < WIDTH ensures RowChars(Pad(line, color))[i] == Widened(line)[i] {
      EntryRoundTrip(if i < |line| then line[i] else SPACE, color);
    }
  }

  lemma {:induction false} TextOfPadded(lines: seq<Text>, color: bv8)
    requires forall i :: 0 <= i < |lines| ==> |lines[i]| <= WIDTH
    ensures TextOf(PadAll(lines, color)) == PageText(lines)
  {
    if lines != [] {
      var n := |lines| - 1;
      TextOfPadded(lines[..n], color);
      PadIsWidened(lines[n], color);
      assert PadAll(lines, color)[..n] == PadAll(lines[..n], color);
    }
  }

  /** Program, then phi_send_cons_shutdown. */
  function ProgramAndShutdown(color: bv8, s: Text): (ops: seq<Op>)
    ensures ValidOps(ops)
  {
    Program(color, s) + [Post(ConsoleShutdown)]
  }

  predicate Draws(u: Update) {
    u == LineDrawn || u == ScreenRedraw || u == Scrollup
  }

  predicate OnlyDraws(ops: seq<Op>) {
    forall i :: 0 <= i < |ops| && ops[i].Post? ==> Draws(ops[i].update)
  }

  lemma {:induction false} CopyOnlyDraws(fb: seq<Cell>, n: nat)
    requires |fb| == CELLS && n <= SCROLL_WORDS
    ensures OnlyDraws(CopyOps(fb, n))
  {
    if n > 0 {
      CopyOnlyDraws(fb, n - 1);
    }
  }

  lemma {:induction false} FillOnlyDraws(e: Cell, at: nat, n: nat)
    requires at + n <= CELLS
    ensures OnlyDraws(FillOps(e, at, n))
  {
    if n > 0 {
      FillOnlyDraws(e, at, n - 1);
    }
  }

  lemma PutcharOnlyDraws(t: Term, c: Char)
    requires ValidTerm(t)
    ensures OnlyDraws(PutcharOps(t, c))
  {
    NewRowOnlyDraws(t);
    NewRowOnlyDraws(PutAtCursor(t, c));
  }

  lemma NewRowOnlyDraws(t: Term)
    requires ValidTerm(t)
    ensures OnlyDraws(NewRowOps(t))
  {
    CopyOnlyDraws(t.fb, SCROLL_WORDS);
    FillOnlyDraws(Blank(t.color), CELLS - WIDTH, WIDTH);
  }

  lemma {:induction false} PrintOnlyDraws(t: Term, s: Text)
    requires ValidTerm(t)
    ensures OnlyDraws(PrintOps(t, s))
  {
    if s != [] {
      var n := |s| - 1;
      PrintOnlyDraws(t, s[..n]);
      PutcharOnlyDraws(Print(t, s[..n]), s[n]);
    }
  }

  lemma ProgramOnlyDraws(color: bv8, s: Text)
    ensures OnlyDraws(Program(color, s))
  {
    FillOnlyDraws(Blank(color), 0, CELLS);
    PrintOnlyDraws(BlankTerm(color), s);
  }

  /** The host leaves its loop only after the whole program: by then the framebuffer is complete, and so is
      the history if no scrollup was lost and no row copied too late. */
  lemma ExitIsComplete(cap: nat, ops: seq<Op>, mem: Shared, acts: seq<Action>)
    requires cap > 0 && ValidOps(ops) && |mem.fb| == CELLS && OnlyDraws(ops)
    ensures var all := ops + [Post(ConsoleShutdown)]; var w := Exec(World(mem.fb, []), ops);
            var r := Run(cap, all, mem, acts);
            r.Some? && r.value.host.Exited? ==>
              && r.value.pc >= |ops| && r.value.mem.fb == w.fb
              && (NoScrollupLost(r.value) && CopiedInTime(cap, all, mem, acts)
                  ==> r.value.hist == PushAll(cap, w.saved))
  {
    var all, n := ops + [Post(ConsoleShutdown)], |ops|;
    var r := Run(cap, all, mem, acts);
    if r.Some? && r.value.host.Exited? {
      var sys := r.value;
      EveryRunIsHealthy(cap, all, mem, acts);
      ExitedLate(cap, all, mem, sys);
      assert all[..n] == ops && all[..n + 1] == all;
      IdealSnoc(all, mem, n);
      assert sys.posts[|sys.posts| - 1] == ConsoleShutdown;
      assert !InFlight(sys);
      RightExactlyWhenAllSaved(cap, all, mem, acts, sys);
    }
  }

  /** So what Progress says of programs that end with the shutdown, or have none, applies to every text. */
  lemma ProgramShutsDownLast(color: bv8, s: Text)
    ensures ShutdownLast(Program(color, s)) && ShutdownLast(ProgramAndShutdown(color, s))
  {
    ProgramOnlyDraws(color, s);
  }

  /** The file written at shutdown is the text itself, folded at 80 columns, minus what the host no
      longer keeps - and minus one more line, the one that scrolled off last. */
  lemma ShutdownDump(cap: nat, color: bv8, s: Text, mem: Shared, acts: seq<Action>)
    requires cap > 0 && |mem.fb| == CELLS
    ensures var r := Run(cap, ProgramAndShutdown(color, s), mem, acts);
            r.Some? && r.value.host.Exited?
            && NoScrollupLost(r.value) && CopiedInTime(cap, ProgramAndShutdown(color, s), mem, acts) ==>
              var ls := Lines(s); var n := Scrolled(ls); var kept := Last(cap, ls[..n]);
              && (r.value.hist == [] <==> |ls| <= HEIGHT)
              && (n > 0 ==> Dump(r.value.hist, Rows(r.value.mem.fb)) == PageText(kept[..|kept| - 1] + ls[n..]))
  {
    var r := Run(cap, ProgramAndShutdown(color, s), mem, acts);
    ProgramOnlyDraws(color, s);
    ExitIsComplete(cap, Program(color, s), mem, acts);
    ProgramRenders(mem.fb, color, s);
    PushAllKeepsNewest(cap, Gone(Lines(s), color));
    if r.Some? && r.value.host.Exited? && NoScrollupLost(r.value)
      && CopiedInTime(cap, ProgramAndShutdown(color, s), mem, acts) && Scrolled(Lines(s)) > 0
    {
      DumpIsText(cap, color, Lines(s), r.value.hist, Rows(r.value.mem.fb));
    }
  }

  lemma DumpIsText(cap: nat, color: bv8, ls: seq<Text>, hist: seq<Row>, fb: seq<Row>)
    requires cap > 0 && |ls| > HEIGHT && (forall i :: 0 <= i < |ls| ==> |ls[i]| <= WIDTH)
    requires hist == Reverse(Last(cap, Gone(ls, color))) && fb == OnScreen(ls, color)
    ensures var n := Scrolled(ls); var kept := Last(cap, ls[..n]);
            hist != [] && Dump(hist, fb) == PageText(kept[..|kept| - 1] + ls[n..])
  {
    var n := Scrolled(ls);
    var kept := Last(cap, ls[..n]);
    var shown := kept[..|kept| - 1] + ls[n..];
    DumpRows(cap, color, ls, hist, fb);
    PadAllConcat(kept[..|kept| - 1], ls[n..], color);
    TextOfConcat(PadAll(kept[..|kept| - 1], color), PadAll(ls[n..], color));
    TextOfPadded(shown, color);
  }

  /** The two parts of the dump, and the rows of text they show. */
  lemma DumpRows(cap: nat, color: bv8, ls: seq<Text>, hist: seq<Row>, fb: seq<Row>)
    requires cap > 0 && |ls| > HEIGHT
    requires hist == Reverse(Last(cap, Gone(ls, color))) && fb == OnScreen(ls, color)
    ensures var n := Scrolled(ls); var kept := Last(cap, ls[..n]);
            && hist != [] && Reverse(hist[1..]) == PadAll(kept[..|kept| - 1], color)
            && fb == PadAll(ls[n..], color)
  {
    var n := Scrolled(ls);
    var kept := Last(cap, ls[..n]);
    assert Last(cap, Gone(ls, color)) == PadAll(kept, color);
    ReverseShort(PadAll(kept, color));
    assert PadAll(kept, color)[..|kept| - 1] == PadAll(kept[..|kept| - 1], color);
  }

  lemma ReverseShort(rows: seq<Row>)
    requires rows != []
    ensures Reverse(Reverse(rows)[1..]) == rows[..|rows| - 1]
  {
  }

  lemma PadAllConcat(a: seq<Text>, b: seq<Text>, color: bv8)
    ensures PadAll(a + b, color) == PadAll(a, color) + PadAll(b, color)
  {
  }
}
