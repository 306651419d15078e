/** What a single timeout of the host's poll can do, in runs of the guest's own program.

    It can cost a row, when the scrollup is posted after the timeout and cleared away unseen; it can save
    the wrong row with nothing lost, when the guest takes the stale acknowledgement and scrolls before the
    host copies; and it can make the host deaf to the shutdown. */
module TimeoutHarm {
  import opened Wrappers
  import opened Seqs
  import opened Vga
  import opened Renderer
  import opened GuestOps
  import opened History
  import opened RowReports
  import opened Handshake
  import opened Delivery
  import opened SavedRows
  import opened Progress
  import opened RemoteConsole

  // ---- where the first row scrolls away --------------------------------------------------------

  lemma OneRowAtATime(s: Text)
    ensures if s == [] then |Lines(s)| == 1 else |Lines(s)| <= |Lines(s[..|s| - 1])| + 1
  {
    if s == [] {
      BlankShows(0);
    } else {
      LinesLast(s);
      AdvanceLength(Lines(s[..|s| - 1]), s[|s| - 1]);
    }
  }

  /** A count that grows by at most one at a time passes every value on the way. */
  lemma {:induction false} FirstAbove(counts: seq<nat>, limit: nat) returns (k: nat)
    requires counts != [] && counts[0] <= limit < counts[|counts| - 1]
    requires forall i :: 0 < i < |counts| ==> counts[i] <= counts[i - 1] + 1
    ensures 0 < k < |counts| && counts[k] == limit + 1 && counts[k - 1] <= limit
  {
    var n := |counts| - 1;
    if counts[n - 1] <= limit {
      k := n;
    } else {
      k := FirstAbove(counts[..n], limit);
    }
  }

  /** How many rows the text has after each of its characters. */
  function RowCounts(s: Text): (counts: seq<nat>)
    ensures |counts| == |s| + 1
  {
    seq(|s| + 1, i requires 0 <= i <= |s| => |Lines(s[..i])|)
  }

  lemma RowCountsGrow(s: Text)
    ensures RowCounts(s)[0] == 1 && RowCounts(s)[|s|] == |Lines(s)|
    ensures forall i :: 0 < i <= |s| ==> RowCounts(s)[i] <= RowCounts(s)[i - 1] + 1
  {
    OneRowAtATime([]);
    assert s[..|s|] == s;
    forall i | 0 < i <= |s| ensures RowCounts(s)[i] <= RowCounts(s)[i - 1] + 1 {
      OneRowAtATime(s[..i]);
      assert s[..i][..i - 1] == s[..i - 1];
    }
  }

  /** The first row to leave the screen does so at one character of the text. */
  lemma FirstScroll(s: Text) returns (k: nat)
    requires |Lines(s)| > HEIGHT
    ensures 0 < k <= |s| && Scrolled(Lines(s[..k])) == 1 && Scrolled(Lines(s[..k - 1])) == 0
  {
    RowCountsGrow(s);
    k := FirstAbove(RowCounts(s), HEIGHT);
  }

  lemma AdvanceKeeps(lines: seq<Text>, c: Char, i: nat)
    requires i < |lines| - 1
    ensures i < |Advance(lines, c)| - 1 && Advance(lines, c)[i] == lines[i]
  {
  }

  /** Rows that have been finished do not change. */
  lemma {:induction false} FinishedLine(s: Text, k: nat, early: seq<Text>, i: nat)
    returns (lines: seq<Text>)
    requires k <= |s| && early == Lines(s[..k]) && i < |early| - 1
    ensures lines == Lines(s) && i < |lines| - 1 && lines[i] == early[i]
  {
    if k == |s| {
      assert s[..k] == s;
      lines := early;
    } else {
      var n := |s| - 1;
      assert s[..n][..k] == s[..k];
      var before := FinishedLine(s[..n], k, early, i);
      LinesLast(s);
      AdvanceKeeps(before, s[n], i);
      lines := Advance(before, s[n]);
    }
  }

  /** The actions of a character that scrolls end with the scrollup, stores, and the redraw. */
  lemma ScrollShape(t: Term, c: Char) returns (front: seq<Op>, body: seq<Op>)
    requires ValidTerm(t) && Scrolls(t, c)
    ensures PutcharOps(t, c) == front + ([Post(Scrollup)] + body + [Post(ScreenRedraw)])
    ensures forall i :: 0 <= i < |body| ==> body[i].Store?
  {
    var t1 := if c == NEWLINE then t else PutAtCursor(t, c);
    front := (if c == NEWLINE then [] else [PutOp(t, c)]) + [SetLine(t.row), Post(LineDrawn)];
    body := MoveUpOps(t1.fb, t.color);
    CopyStores(t1.fb, SCROLL_WORDS);
    FillStores(Blank(t.color), CELLS - WIDTH, WIDTH);
  }

  /** The scrollup at j is the last before the redraw with which the guest ends at m. */
  predicate EndsInScroll(ops: seq<Op>, j: nat, m: nat) {
    && j < m - 1 < |ops| && ops[j] == Post(Scrollup) && ops[m - 1] == Post(ScreenRedraw)
    && forall i :: j < i < m - 1 ==> ops[i].Store?
  }

  lemma ShapeOfPrefix(pre: seq<Op>, front: seq<Op>, body: seq<Op>, all: seq<Op>, ops: seq<Op>) returns (j: nat)
    requires all == pre + (front + ([Post(Scrollup)] + body + [Post(ScreenRedraw)])) && all <= ops
    requires forall i :: 0 <= i < |body| ==> body[i].Store?
    ensures EndsInScroll(ops, j, |all|)
  {
    j := |pre| + |front|;
    assert forall i :: 0 <= i < |body| ==> all[j + 1 + i] == body[i];
    forall i | j < i < j + 1 + |body| ensures ops[i].Store? {
      assert ops[i] == all[i] == body[i - j - 1];
    }
  }

  lemma ProgramSnoc(color: bv8, s: Text)
    requires s != []
    ensures var n := |s| - 1;
            Program(color, s) == Program(color, s[..n]) + PutcharOps(Print(BlankTerm(color), s[..n]), s[n])
  {
    var n := |s| - 1;
    var before := PrintOps(BlankTerm(color), s[..n]);
    ConcatAssoc(InitOps(color), before, PutcharOps(Print(BlankTerm(color), s[..n]), s[n]));
  }

  lemma FirstScrollup(color: bv8, s: Text) returns (k: nat, j: nat)
    requires |Lines(s)| > HEIGHT
    ensures 0 < k <= |s| && Scrolled(Lines(s[..k])) == 1
    ensures |Program(color, s[..k])| <= |Program(color, s)|
    ensures EndsInScroll(Program(color, s), j, |Program(color, s[..k])|)
  {
    k := FirstScroll(s);
    assert s[..k][..k - 1] == s[..k - 1];
    ProgramPrefix(color, s, k);
    var pre, front, body := LastCharacterScrolls(color, s[..k]);
    j := ShapeOfPrefix(pre, front, body, Program(color, s[..k]), Program(color, s));
  }

  lemma LastCharacterScrolls(color: bv8, s: Text) returns (pre: seq<Op>, front: seq<Op>, body: seq<Op>)
    requires s != [] && Scrolled(Lines(s)) == 1 && Scrolled(Lines(s[..|s| - 1])) == 0
    ensures Program(color, s) == pre + (front + ([Post(Scrollup)] + body + [Post(ScreenRedraw)]))
    ensures forall i :: 0 <= i < |body| ==> body[i].Store?
  {
    var n := |s| - 1;
    ProgramSnoc(color, s);
    ThisOneScrolls(color, s);
    pre := Program(color, s[..n]);
    front, body := ScrollShape(Print(BlankTerm(color), s[..n]), s[n]);
  }

  lemma ThisOneScrolls(color: bv8, s: Text)
    requires s != [] && Scrolled(Lines(s)) == 1 && Scrolled(Lines(s[..|s| - 1])) == 0
    ensures Scrolls(Print(BlankTerm(color), s[..|s| - 1]), s[|s| - 1])
  {
    var n := |s| - 1;
    PrintRenders(World(BlankTerm(color).fb, []), color, s[..n]);
    LinesLast(s);
    ShowsPutchar(Print(BlankTerm(color), s[..n]), Lines(s[..n]), s[n]);
  }

  // ---- at rest, about to scroll --------------------------------------------------------------------

  /** About to post a scrollup, everything at rest, no row saved so far. */
  ghost predicate Ripe(ops: seq<Op>, s: Sys) {
    && s.pc < |ops| && ops[s.pc] == Post(Scrollup)
    && s.guest == Running && s.host == Polling && s.avail == NoUpdate && !s.drawn
    && s.hist == [] && s.lost == {} && Ledger(s)
  }

  lemma {:induction false} SavedGrows(ops: seq<Op>, mem: Shared, n: nat, m: nat)
    requires ValidOps(ops) && |mem.fb| == CELLS && n <= m <= |ops|
    ensures |Ideal(ops, mem, n).saved| <= |Ideal(ops, mem, m).saved|
    decreases m
  {
    if n < m {
      SavedGrows(ops, mem, n, m - 1);
      IdealSnoc(ops, mem, m - 1);
    }
  }

  lemma RestAt(cap: nat, ops: seq<Op>, mem: Shared, j: nat) returns (acts: seq<Action>, sys: Sys)
    requires cap > 0 && ValidOps(ops) && |mem.fb| == CELLS && ShutdownLast(ops) && OnlyDraws(ops)
    requires j < |ops| && ops[j] == Post(Scrollup) && Ideal(ops, mem, j).saved == []
    ensures Run(cap, ops, mem, acts) == Some(sys) && NoTimeout(acts) && Ripe(ops, sys) && sys.pc == j
  {
    acts, sys := GuestCanGoOn(cap, ops, mem, [], Start(mem), j);
    RunsInLockstep(cap, ops, mem, acts);
    EveryRunIsHealthy(cap, ops, mem, acts);
    ExitedLate(cap, ops, mem, sys);
  }

  lemma NothingSavedYet(ops: seq<Op>, mem: Shared, j: nat, m: nat)
    requires ValidOps(ops) && |mem.fb| == CELLS && EndsInScroll(ops, j, m) && |Ideal(ops, mem, m).saved| == 1
    ensures Ideal(ops, mem, j).saved == []
  {
    IdealSnoc(ops, mem, j);
    SavedGrows(ops, mem, j + 1, m);
  }

  /** Every text that scrolls has a run up to its first scrollup, with everything at rest. */
  lemma BeforeFirstScrollup(cap: nat, color: bv8, s: Text, mem: Shared)
    returns (ops: seq<Op>, k: nat, acts: seq<Action>, sys: Sys)
    requires cap > 0 && |mem.fb| == CELLS && |Lines(s)| > HEIGHT
    ensures ops == Program(color, s) && ValidOps(ops) && ShutdownLast(ops)
    ensures Run(cap, ops, mem, acts) == Some(sys) && NoTimeout(acts) && Ripe(ops, sys)
    ensures k <= |s| && Scrolled(Lines(s[..k])) == 1
    ensures |Program(color, s[..k])| <= |ops| && EndsInScroll(ops, sys.pc, |Program(color, s[..k])|)
  {
    ops := Program(color, s);
    var j;
    k, j := FirstScrollup(color, s);
    var m := |Program(color, s[..k])|;
    ProgramPrefix(color, s, k);
    assert ops[..m] == Program(color, s[..k]);
    ProgramRenders(mem.fb, color, s[..k]);
    NothingSavedYet(ops, mem, j, m);
    ProgramShutsDownLast(color, s);
    ProgramOnlyDraws(color, s);
    acts, sys := RestAt(cap, ops, mem, j);
  }

  // ---- the timeout -------------------------------------------------------------------------------

  /** The state after the poll has timed out in `s`. */
  function TimedOut(cap: nat, ops: seq<Op>, s: Sys): (s': Sys)
    requires Sane(cap, ops, s) && s.host == Polling && s.avail == NoUpdate
    ensures Sane(cap, ops, s')
  {
    Step(cap, ops, s, Timeout)
  }

  /** A run into one timeout and on from there. */
  lemma OneTimeout(cap: nat, ops: seq<Op>, mem: Shared, before: seq<Action>, s: Sys, t: Sys)
    returns (acts: seq<Action>)
    requires cap > 0 && ValidOps(ops) && |mem.fb| == CELLS && NoTimeout(before)
    requires Run(cap, ops, mem, before) == Some(s) && s.host == Polling && s.avail == NoUpdate
    requires Goes(cap, ops, TimedOut(cap, ops, s), t)
    ensures Run(cap, ops, mem, acts) == Some(t) && Timeouts(acts) == 1
  {
    var late := before + [Timeout];
    assert late[..|before|] == before;
    acts := CarryOn(cap, ops, mem, late, TimedOut(cap, ops, s), t);
  }

  // ---- a lost scrollup -------------------------------------------------------------------------

  /** Only now the scrollup is posted; the host clears it away unseen and acknowledges. */
  lemma LoseScrollup(cap: nat, ops: seq<Op>, s: Sys) returns (s': Sys)
    requires Sane(cap, ops, s) && Ripe(ops, s)
    ensures Goes(cap, ops, TimedOut(cap, ops, s), s') && Sane(cap, ops, s')
    ensures s'.guest == Running && s'.pc == s.pc + 1 && !NoScrollupLost(s')
  {
    var late := TimedOut(cap, ops, s);
    Stay(cap, ops, late);
    s' := Take(cap, ops, late, late, Guest);
    assert |s.posts| !in s.seen && s'.posts == s.posts + [Scrollup];
    s' := Take(cap, ops, late, s', ClearAvail);
    assert |s.posts| in s'.lost && s'.posts[|s.posts|] == Scrollup;
    s' := Take(cap, ops, late, s', SetDrawn);
    var at := s';
    s' := GoOn(cap, ops, at);
    Join(cap, ops, late, at, s');
  }

  lemma LostStep(cap: nat, ops: seq<Op>, s: Sys, a: Action)
    requires Sane(cap, ops, s) && Enabled(ops, s, a) && !NoScrollupLost(s)
    ensures !NoScrollupLost(Step(cap, ops, s, a))
  {
    var i :| i in s.lost && 0 <= i < |s.posts| && s.posts[i] == Scrollup;
    var s' := Step(cap, ops, s, a);
    assert i in s'.lost && s'.posts[i] == Scrollup;
  }

  lemma {:induction false} LostForGood(cap: nat, ops: seq<Op>, s: Sys, path: seq<Action>)
    requires Sane(cap, ops, s) && !NoScrollupLost(s)
    ensures var r := Steps(cap, ops, s, path); r.Some? ==> !NoScrollupLost(r.value)
  {
    if path != [] {
      var n := |path| - 1;
      LostForGood(cap, ops, s, path[..n]);
      var r := Steps(cap, ops, s, path[..n]);
      if r.Some? && Enabled(ops, r.value, path[n]) {
        LostStep(cap, ops, r.value, path[n]);
      }
    }
  }

  lemma LoseRow(cap: nat, ops: seq<Op>, mem: Shared, s: Sys, m: nat) returns (s': Sys)
    requires Healthy(cap, ops, mem, s) && ShutdownLast(ops) && Ripe(ops, s) && s.pc < m <= |ops|
    ensures Goes(cap, ops, TimedOut(cap, ops, s), s') && s'.guest == Running && s'.pc == m && !NoScrollupLost(s')
  {
    var late := TimedOut(cap, ops, s);
    var after := LoseScrollup(cap, ops, s);
    HealthyStep(cap, ops, mem, s, Timeout);
    StaysHealthy(cap, ops, mem, late, after);
    s' := GuestGoesOn(cap, ops, mem, after, m);
    Join(cap, ops, late, after, s');
    var path :| NoTimeout(path) && Steps(cap, ops, after, path) == Some(s');
    LostForGood(cap, ops, after, path);
  }

  /** One timeout is enough to lose a row of any text that scrolls. The guest prints on to the end of a
      character; its screen and the host's history no longer make up the text. */
  lemma TimeoutLosesRow(cap: nat, color: bv8, s: Text, mem: Shared) returns (k: nat, acts: seq<Action>, sys: Sys)
    requires cap > 0 && |mem.fb| == CELLS && |Lines(s)| > HEIGHT
    ensures Run(cap, Program(color, s), mem, acts) == Some(sys) && Timeouts(acts) == 1
    ensures k <= |s| && HasPrinted(color, s, k, sys) && sys.lost != {} && !IsRendered(cap, color, s, k, sys)
  {
    var ops, at, before;
    ops, k, before, at := BeforeFirstScrollup(cap, color, s, mem);
    EveryRunIsHealthy(cap, ops, mem, before);
    sys := LoseRow(cap, ops, mem, at, |Program(color, s[..k])|);
    acts := OneTimeout(cap, ops, mem, before, at, sys);
    EndToEnd(cap, color, s, k, mem, acts);
  }

  // ---- a row copied too late ---------------------------------------------------------------------

  /** The host acknowledges before the scrollup is posted; the guest takes that for the acknowledgement of
      its post and goes on, with the post not picked up. */
  lemma TakeStale(cap: nat, ops: seq<Op>, s: Sys) returns (s': Sys)
    requires Sane(cap, ops, s) && Ripe(ops, s)
    ensures Goes(cap, ops, TimedOut(cap, ops, s), s') && Sane(cap, ops, s')
    ensures s'.guest == Running && s'.pc == s.pc + 1 && s'.host == Polling && s'.avail == Scrollup
    ensures s'.hist == [] && s'.lost == {}
  {
    var late := TimedOut(cap, ops, s);
    Stay(cap, ops, late);
    s' := Take(cap, ops, late, late, ClearAvail);
    s' := Take(cap, ops, late, s', SetDrawn);
    s' := Take(cap, ops, late, s', Guest);
    var at := s';
    s' := GoOn(cap, ops, at);
    Join(cap, ops, late, at, s');
  }

  lemma {:induction false} RunStores(cap: nat, ops: seq<Op>, s: Sys, m: nat) returns (s': Sys)
    requires Sane(cap, ops, s) && s.pc <= m <= |ops| && s.guest == Running
    requires forall i :: s.pc <= i < m ==> ops[i].Store?
    ensures Goes(cap, ops, s, s') && Sane(cap, ops, s') && s' == s.(mem := s'.mem, pc := m)
    decreases m - s.pc
  {
    Stay(cap, ops, s);
    s' := s;
    if s.pc < m {
      var at := Take(cap, ops, s, s, Guest);
      s' := RunStores(cap, ops, at, m);
      Join(cap, ops, s, at, s');
    }
  }

  /** The guest moves the screen up while its scrollup still is in AVAIL. */
  lemma ScrollUnseen(cap: nat, ops: seq<Op>, s: Sys, m: nat) returns (s': Sys)
    requires Sane(cap, ops, s) && Ripe(ops, s) && EndsInScroll(ops, s.pc, m)
    ensures Goes(cap, ops, TimedOut(cap, ops, s), s') && Sane(cap, ops, s')
    ensures s'.guest == Running && s'.pc == m - 1 && s'.host == Polling && s'.avail == Scrollup
    ensures s'.hist == [] && s'.lost == {}
  {
    var late := TimedOut(cap, ops, s);
    var at := TakeStale(cap, ops, s);
    s' := RunStores(cap, ops, at, m - 1);
    Join(cap, ops, late, at, s');
  }

  /** The host picks up what is in AVAIL while the guest is not looking, and sees it through. */
  lemma PickUp(cap: nat, ops: seq<Op>, s: Sys) returns (s': Sys)
    requires Sane(cap, ops, s) && s.host == Polling && s.avail in {Scrollup, ScreenRedraw}
    ensures Goes(cap, ops, s, s') && Sane(cap, ops, s')
    ensures s'.guest == s.guest && s'.pc == s.pc && s'.mem == s.mem && s'.lost == s.lost
    ensures s'.host == Polling && s'.avail == NoUpdate && s'.drawn
    ensures s'.hist == Handled(cap, s.hist, s.avail, RowOf(s.mem.fb, 0))
  {
    Stay(cap, ops, s);
    var at := Take(cap, ops, s, s, Poll);
    var done := HandleAll(cap, ops, at);
    Join(cap, ops, s, at, done);
    s' := Acknowledge(cap, ops, done);
    Join(cap, ops, s, done, s');
  }

  lemma Acknowledge(cap: nat, ops: seq<Op>, s: Sys) returns (s': Sys)
    requires Sane(cap, ops, s) && s.host.Clearing? && s.host.update != ConsoleShutdown
    requires s.seen != [] && s.seen[|s.seen| - 1] == |s.posts| - 1
    ensures Goes(cap, ops, s, s') && Sane(cap, ops, s') && s' == s.(avail := NoUpdate, drawn := true, host := Polling)
  {
    Stay(cap, ops, s);
    assert |s.posts| - 1 in s.seen;
    s' := Take(cap, ops, s, s, ClearAvail);
    assert s'.lost == s.lost;
    s' := Take(cap, ops, s, s', SetDrawn);
  }

  lemma HandleAll(cap: nat, ops: seq<Op>, s: Sys) returns (s': Sys)
    requires Sane(cap, ops, s) && s.host.Handling? && s.host.copied == []
    ensures Goes(cap, ops, s, s') && Sane(cap, ops, s')
    ensures s' == s.(host := Clearing(s.host.update), hist := Handled(cap, s.hist, s.host.update, RowOf(s.mem.fb, 0)))
  {
    Stay(cap, ops, s);
    var at := s;
    if s.host.update == Scrollup {
      var row;
      at, row := CopyCells(cap, ops, s);
      assert row == RowOf(s.mem.fb, 0);
    }
    s' := Take(cap, ops, s, at, Finish);
  }

  lemma Redraw(cap: nat, ops: seq<Op>, s: Sys) returns (s': Sys)
    requires Sane(cap, ops, s) && s.guest == Running && s.pc < |ops| && ops[s.pc] == Post(ScreenRedraw)
    requires s.host == Polling && s.avail == NoUpdate
    ensures Goes(cap, ops, s, s') && s'.guest == Running && s'.pc == s.pc + 1
    ensures s'.mem == s.mem && s'.hist == s.hist && s'.lost == s.lost && !InFlight(s')
  {
    Stay(cap, ops, s);
    var posted := Take(cap, ops, s, s, Guest);
    assert posted.lost == s.lost;
    var at := PickUp(cap, ops, posted);
    Join(cap, ops, s, posted, at);
    s' := GoOn(cap, ops, at);
    Join(cap, ops, s, at, s');
  }

  /** So the row is copied when the screen has already moved up. */
  lemma CopyLate(cap: nat, ops: seq<Op>, s: Sys, m: nat) returns (s': Sys)
    requires Sane(cap, ops, s) && Ripe(ops, s) && EndsInScroll(ops, s.pc, m)
    ensures Goes(cap, ops, TimedOut(cap, ops, s), s') && |s'.mem.fb| == CELLS
    ensures s'.guest == Running && s'.pc == m && s'.lost == {} && !InFlight(s')
    ensures s'.hist == [RowOf(s'.mem.fb, 0)]
  {
    var late := TimedOut(cap, ops, s);
    var at := ScrollUnseen(cap, ops, s, m);
    var saved := PickUp(cap, ops, at);
    Join(cap, ops, late, at, saved);
    assert Push(cap, [], RowOf(at.mem.fb, 0)) == [RowOf(at.mem.fb, 0)];
    s' := Redraw(cap, ops, saved);
    Join(cap, ops, late, saved, s');
  }

  /** And one timeout is enough to save a wrong row with no post lost and none out of order: the second row
      of the text in place of the first. It shows exactly when the two differ. */
  lemma StaleAcknowledgement(cap: nat, color: bv8, s: Text, mem: Shared) returns (k: nat, acts: seq<Action>, sys: Sys)
    requires cap > 0 && |mem.fb| == CELLS && |Lines(s)| > HEIGHT
    ensures Run(cap, Program(color, s), mem, acts) == Some(sys) && Timeouts(acts) == 1
    ensures k <= |s| && HasPrinted(color, s, k, sys) && sys.lost == {} && !InFlight(sys)
    ensures sys.hist == [Pad(Lines(s)[1], color)]
    ensures IsRendered(cap, color, s, k, sys) <==> Pad(Lines(s)[0], color) == Pad(Lines(s)[1], color)
  {
    var ops, at, before;
    ops, k, before, at := BeforeFirstScrollup(cap, color, s, mem);
    sys := CopyLate(cap, ops, at, |Program(color, s[..k])|);
    acts := OneTimeout(cap, ops, mem, before, at, sys);
    FramebufferIsRendered(cap, color, s, k, mem, acts);
    var ls := FinishedLine(s, k, Lines(s[..k]), 0);
    ls := FinishedLine(s, k, Lines(s[..k]), 1);
    SecondForFirst(cap, color, s, k, sys);
  }

  lemma SecondForFirst(cap: nat, color: bv8, s: Text, k: nat, sys: Sys)
    requires cap > 0 && k <= |s| && |sys.mem.fb| == CELLS && |Lines(s)| > 1
    requires Scrolled(Lines(s[..k])) == 1 && Rows(sys.mem.fb) == OnScreen(Lines(s[..k]), color)
    requires sys.hist == [RowOf(sys.mem.fb, 0)]
    requires Lines(s)[0] == Lines(s[..k])[0] && Lines(s)[1] == Lines(s[..k])[1]
    ensures sys.hist == [Pad(Lines(s)[1], color)]
    ensures IsRendered(cap, color, s, k, sys) <==> Pad(Lines(s)[0], color) == Pad(Lines(s)[1], color)
  {
    var ls := Lines(s[..k]);
    assert RowOf(sys.mem.fb, 0) == Rows(sys.mem.fb)[0] == OnScreen(ls, color)[0] == Pad(ls[1], color);
    assert Reverse(sys.hist) == sys.hist;
    assert Last(cap, Gone(ls, color)) == [Pad(ls[0], color)];
    SameTail(sys.hist, [Pad(ls[0], color)], Rows(sys.mem.fb));
  }

  // ---- a shutdown not heard ----------------------------------------------------------------------

  /** And one timeout, just before the shutdown, is enough for the host never to leave. */
  lemma TimeoutDeafens(cap: nat, color: bv8, s: Text, mem: Shared) returns (acts: seq<Action>, sys: Sys)
    requires cap > 0 && |mem.fb| == CELLS
    ensures Run(cap, ProgramAndShutdown(color, s), mem, acts) == Some(sys) && Timeouts(acts) == 1
    ensures sys.pc == |Program(color, s)| && Deaf(sys)
  {
    var ops := ProgramAndShutdown(color, s);
    ProgramShutsDownLast(color, s);
    var before, at := GuestCanGoOn(cap, ops, mem, [], Start(mem), |Program(color, s)|);
    RunsInLockstep(cap, ops, mem, before);
    EveryRunIsHealthy(cap, ops, mem, before);
    ExitedLate(cap, ops, mem, at);
    var late := TimedOut(cap, ops, at);
    Stay(cap, ops, late);
    sys := Take(cap, ops, late, late, Guest);
    assert |at.posts| !in at.seen;
    acts := OneTimeout(cap, ops, mem, before, at, sys);
  }
}
