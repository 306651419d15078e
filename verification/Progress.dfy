/** Nothing blocks: from wherever a run has got to, the guest can be carried to the end of its program
    without any further timeout; and exactly when the host can still be brought to leave. */
module Progress {
  import opened Wrappers
  import opened Seqs
  import opened Vga
  import opened GuestOps
  import opened Handshake
  import opened Delivery

  // ---- carrying on from a state ------------------------------------------------------------------

  predicate Sane(cap: nat, ops: seq<Op>, s: Sys) {
    cap > 0 && ValidOps(ops) && |s.mem.fb| == CELLS && |s.hist| <= cap
  }

  /** Where a schedule leads from `s`, if every action in it is enabled when its turn comes. */
  function Steps(cap: nat, ops: seq<Op>, s: Sys, path: seq<Action>): (r: Option<Sys>)
    requires Sane(cap, ops, s)
    ensures r.Some? ==> Sane(cap, ops, r.value)
  {
    if path == [] then Some(s)
    else
      var n := |path| - 1;
      match Steps(cap, ops, s, path[..n])
      case None => None
      case Some(t) => if Enabled(ops, t, path[n]) then Some(Step(cap, ops, t, path[n])) else None
  }

  /** `t` can be reached from `s` without a timeout. */
  ghost predicate Goes(cap: nat, ops: seq<Op>, s: Sys, t: Sys)
    requires Sane(cap, ops, s)
  {
    exists path :: NoTimeout(path) && Steps(cap, ops, s, path) == Some(t)
  }

  lemma Stay(cap: nat, ops: seq<Op>, s: Sys)
    requires Sane(cap, ops, s)
    ensures Goes(cap, ops, s, s)
  {
    assert NoTimeout([]) && Steps(cap, ops, s, []) == Some(s);
  }

  /** One more step. */
  lemma Take(cap: nat, ops: seq<Op>, s: Sys, t: Sys, a: Action) returns (t': Sys)
    requires Sane(cap, ops, s) && Goes(cap, ops, s, t) && a != Timeout && Enabled(ops, t, a)
    ensures Sane(cap, ops, t) && t' == Step(cap, ops, t, a) && Sane(cap, ops, t') && Goes(cap, ops, s, t')
  {
    var path :| NoTimeout(path) && Steps(cap, ops, s, path) == Some(t);
    assert (path + [a])[..|path|] == path;
    t' := Step(cap, ops, t, a);
    assert NoTimeout(path + [a]) && Steps(cap, ops, s, path + [a]) == Some(t');
  }

  lemma {:induction false} StepsConcat(cap: nat, ops: seq<Op>, s: Sys, a: seq<Action>, b: seq<Action>)
    requires Sane(cap, ops, s) && Steps(cap, ops, s, a).Some?
    ensures Steps(cap, ops, s, a + b) == Steps(cap, ops, Steps(cap, ops, s, a).value, b)
    ensures Timeouts(a + b) == Timeouts(a) + Timeouts(b)
  {
    if b == [] {
      assert a + b == a;
    } else {
      StepsConcat(cap, ops, s, a, b[..|b| - 1]);
      assert (a + b)[..|a + b| - 1] == a + b[..|b| - 1];
    }
  }

  lemma Join(cap: nat, ops: seq<Op>, s: Sys, t: Sys, u: Sys)
    requires Sane(cap, ops, s) && Goes(cap, ops, s, t) && Sane(cap, ops, t) && Goes(cap, ops, t, u)
    ensures Goes(cap, ops, s, u) && Sane(cap, ops, u)
  {
    var a :| NoTimeout(a) && Steps(cap, ops, s, a) == Some(t);
    var b :| NoTimeout(b) && Steps(cap, ops, t, b) == Some(u);
    StepsConcat(cap, ops, s, a, b);
    assert NoTimeout(a + b) && Steps(cap, ops, s, a + b) == Some(u);
  }

  // ---- and of a run --------------------------------------------------------------------------------

  /** `more` carries the run `acts` on to `s`, without a further timeout. */
  ghost predicate LeadsTo(cap: nat, ops: seq<Op>, mem: Shared, acts: seq<Action>, more: seq<Action>, s: Sys)
    requires cap > 0 && ValidOps(ops) && |mem.fb| == CELLS
  {
    acts <= more && Timeouts(more) == Timeouts(acts) && Run(cap, ops, mem, more) == Some(s)
  }

  lemma {:induction false} RunIsSteps(cap: nat, ops: seq<Op>, mem: Shared, acts: seq<Action>)
    requires cap > 0 && ValidOps(ops) && |mem.fb| == CELLS
    ensures Run(cap, ops, mem, acts) == Steps(cap, ops, Start(mem), acts)
  {
    if acts != [] {
      RunIsSteps(cap, ops, mem, acts[..|acts| - 1]);
    }
  }

  lemma RunConcat(cap: nat, ops: seq<Op>, mem: Shared, acts: seq<Action>, s: Sys, path: seq<Action>)
    requires cap > 0 && ValidOps(ops) && |mem.fb| == CELLS && Run(cap, ops, mem, acts) == Some(s)
    ensures Run(cap, ops, mem, acts + path) == Steps(cap, ops, s, path)
    ensures Timeouts(acts + path) == Timeouts(acts) + Timeouts(path)
  {
    RunIsSteps(cap, ops, mem, acts);
    RunIsSteps(cap, ops, mem, acts + path);
    StepsConcat(cap, ops, Start(mem), acts, path);
  }

  lemma CarryOn(cap: nat, ops: seq<Op>, mem: Shared, acts: seq<Action>, s: Sys, t: Sys) returns (more: seq<Action>)
    requires cap > 0 && ValidOps(ops) && |mem.fb| == CELLS && Run(cap, ops, mem, acts) == Some(s)
    requires Goes(cap, ops, s, t)
    ensures LeadsTo(cap, ops, mem, acts, more, t)
  {
    var path :| NoTimeout(path) && Steps(cap, ops, s, path) == Some(t);
    more := acts + path;
    RunConcat(cap, ops, mem, acts, s, path);
  }

  // ---- the invariant -------------------------------------------------------------------------

  /** While the guest waits for DRAWN, the host is either at work or has something to pick up; and after
      picking up the shutdown the host does nothing but leave. */
  predicate Attentive(s: Sys)
    requires Ledger(s)
  {
    && (s.host.Handling? ==> |s.host.copied| <= WIDTH)
    && (s.guest == Spinning && !s.drawn && (s.host.Polling? || s.host.Exited?) ==> Pending(s) || s.avail == Inval)
    && (s.seen != [] && s.posts[s.seen[|s.seen| - 1]] == ConsoleShutdown
        ==> s.host.Exited? || (!s.host.Polling? && s.host.update == ConsoleShutdown))
  }

  /** What holds in every state of every run. */
  ghost predicate Healthy(cap: nat, ops: seq<Op>, mem: Shared, s: Sys) {
    && Sane(cap, ops, s) && |mem.fb| == CELLS
    && Ledger(s) && Driven(ops, mem, s) && Attentive(s)
  }

  lemma HealthyStep(cap: nat, ops: seq<Op>, mem: Shared, s: Sys, a: Action)
    requires Healthy(cap, ops, mem, s) && Enabled(ops, s, a)
    ensures Healthy(cap, ops, mem, Step(cap, ops, s, a))
  {
    LedgerStep(cap, ops, s, a);
    DrivenStep(cap, ops, mem, s, a);
    if a == Guest && s.guest == Running {
      assert ValidOp(ops[s.pc]);
      assert |s.posts| !in s.seen;
    }
  }

  lemma {:induction false} StepsHealthy(cap: nat, ops: seq<Op>, mem: Shared, s: Sys, path: seq<Action>)
    requires Healthy(cap, ops, mem, s)
    ensures var r := Steps(cap, ops, s, path); r.Some? ==> Healthy(cap, ops, mem, r.value)
  {
    if path != [] {
      var n := |path| - 1;
      StepsHealthy(cap, ops, mem, s, path[..n]);
      var r := Steps(cap, ops, s, path[..n]);
      if r.Some? && Enabled(ops, r.value, path[n]) {
        HealthyStep(cap, ops, mem, r.value, path[n]);
      }
    }
  }

  lemma EveryRunIsHealthy(cap: nat, ops: seq<Op>, mem: Shared, acts: seq<Action>)
    requires cap > 0 && ValidOps(ops) && |mem.fb| == CELLS
    ensures var r := Run(cap, ops, mem, acts); r.Some? ==> Healthy(cap, ops, mem, r.value)
  {
    RunIsSteps(cap, ops, mem, acts);
    EveryRunKeepsLedger(cap, ops, mem, []);
    EveryRunIsDriven(cap, ops, mem, []);
    StepsHealthy(cap, ops, mem, Start(mem), acts);
  }

  lemma StaysHealthy(cap: nat, ops: seq<Op>, mem: Shared, s: Sys, t: Sys)
    requires Healthy(cap, ops, mem, s) && Goes(cap, ops, s, t)
    ensures Healthy(cap, ops, mem, t)
  {
    var path :| NoTimeout(path) && Steps(cap, ops, s, path) == Some(t);
    StepsHealthy(cap, ops, mem, s, path);
  }

  // ---- the host's part -----------------------------------------------------------------------

  lemma CopyRest(copied: seq<Cell>, fb: seq<Cell>, c: nat)
    requires c < WIDTH <= |fb|
    ensures copied + [fb[c]] + fb[c + 1..WIDTH] == copied + fb[c..WIDTH]
  {
  }

  lemma {:induction false} CopyCells(cap: nat, ops: seq<Op>, s: Sys) returns (s': Sys, row: Row)
    requires Sane(cap, ops, s) && s.host.Handling? && s.host.update == Scrollup && |s.host.copied| <= WIDTH
    ensures Goes(cap, ops, s, s') && Sane(cap, ops, s')
    ensures row == s.host.copied + s.mem.fb[|s.host.copied|..WIDTH] && s' == s.(host := Handling(Scrollup, row))
    decreases WIDTH - |s.host.copied|
  {
    Stay(cap, ops, s);
    if |s.host.copied| == WIDTH {
      s', row := s, s.host.copied;
    } else {
      var at := Take(cap, ops, s, s, CopyCell);
      s', row := CopyCells(cap, ops, at);
      Join(cap, ops, s, at, s');
      CopyRest(s.host.copied, s.mem.fb, |s.host.copied|);
    }
  }

  /** The host finishes what it is doing. */
  lemma Settle(cap: nat, ops: seq<Op>, s: Sys) returns (s': Sys)
    requires Sane(cap, ops, s) && (s.host.Handling? ==> |s.host.copied| <= WIDTH)
    ensures Goes(cap, ops, s, s') && Sane(cap, ops, s') && s'.pc == s.pc && s'.guest == s.guest
    ensures if s.host.Polling? || s.host.Exited? then s' == s
            else s'.drawn && s'.host == if s.host.update == ConsoleShutdown then Exited else Polling
  {
    Stay(cap, ops, s);
    s' := s;
    if s'.host.Handling? {
      if s'.host.update == Scrollup {
        var row;
        s', row := CopyCells(cap, ops, s);
      }
      s' := Take(cap, ops, s, s', Finish);
    }
    if s'.host.Clearing? {
      s' := Take(cap, ops, s, s', ClearAvail);
    }
    if s'.host.Drawing? {
      s' := Take(cap, ops, s, s', SetDrawn);
    }
  }

  // ---- the guest's part ----------------------------------------------------------------------

  /** The guest sees DRAWN and goes on. */
  lemma GoOn(cap: nat, ops: seq<Op>, s: Sys) returns (s': Sys)
    requires Sane(cap, ops, s) && (s.guest == Acking || (s.guest == Spinning && s.drawn))
    ensures Goes(cap, ops, s, s') && Sane(cap, ops, s')
    ensures s' == s.(drawn := false, guest := Running, pc := s.pc + 1)
  {
    Stay(cap, ops, s);
    s' := s;
    if s.guest == Spinning {
      s' := Take(cap, ops, s, s', Guest);
    }
    s' := Take(cap, ops, s, s', Guest);
  }

  /** Where the host has something to pick up, it does so and sees it through. */
  lemma PickUpPending(cap: nat, ops: seq<Op>, s: Sys) returns (s': Sys)
    requires Sane(cap, ops, s) && Ledger(s) && Attentive(s) && s.guest == Spinning && !s.drawn && s.avail != Inval
    requires !s.host.Exited?
    ensures Goes(cap, ops, s, s') && Sane(cap, ops, s') && s'.pc == s.pc && s'.guest == s.guest && s'.drawn
  {
    Stay(cap, ops, s);
    if s.host.Polling? {
      var at := Take(cap, ops, s, s, Poll);
      s' := Settle(cap, ops, at);
      Join(cap, ops, s, at, s');
    } else {
      s' := Settle(cap, ops, s);
    }
  }

  /** A post gets through. */
  lemma PostReturns(cap: nat, ops: seq<Op>, s: Sys) returns (s': Sys)
    requires Sane(cap, ops, s) && Ledger(s) && Attentive(s) && s.guest != Running
    requires s.avail != Inval && (s.host.Exited? && s.guest == Spinning ==> s.drawn)
    ensures Goes(cap, ops, s, s') && Sane(cap, ops, s') && s'.guest == Running && s'.pc == s.pc + 1
  {
    Stay(cap, ops, s);
    var at := s;
    if s.guest == Spinning && !s.drawn {
      at := PickUpPending(cap, ops, s);
    }
    s' := GoOn(cap, ops, at);
    Join(cap, ops, s, at, s');
  }

  /** The only update at which the host leaves its loop is the last one, if any. */
  predicate ShutdownLast(ops: seq<Op>) {
    forall i :: 0 <= i < |ops| ==>
      ops[i] != Post(Inval) && (ops[i] == Post(ConsoleShutdown) ==> i == |ops| - 1)
  }

  lemma {:induction false} NoShutdownBefore(ops: seq<Op>, n: nat)
    requires ShutdownLast(ops) && n <= |ops|
    ensures Inval !in Posts(ops[..n]) && (n < |ops| ==> ConsoleShutdown !in Posts(ops[..n]))
  {
    if n > 0 {
      NoShutdownBefore(ops, n - 1);
      assert ops[..n][..n - 1] == ops[..n - 1];
    }
  }

  /** When the host has left, the guest is done but for taking the acknowledgement. */
  lemma ExitedLate(cap: nat, ops: seq<Op>, mem: Shared, s: Sys)
    requires Healthy(cap, ops, mem, s) && ShutdownLast(ops)
    ensures s.avail != Inval && s.pc <= |ops|
    ensures s.host.Exited? ==> ops != [] && ops[|ops| - 1] == Post(ConsoleShutdown)
    ensures s.host.Exited? ==> if s.guest == Running then s.pc == |ops| else s.pc == |ops| - 1
    ensures s.host.Exited? && s.guest == Spinning ==> s.drawn
  {
    NoShutdownBefore(ops, s.pc);
    if s.host.Exited? {
      var k := s.seen[|s.seen| - 1];
      assert s.posts[k] in {ConsoleShutdown, Inval} && k in s.seen;
      assert s.guest == Running || k < |s.posts| - 1 ==> s.posts[k] in Posts(ops[..s.pc]);
      if s.guest == Running {
        ShutdownPosted(ops, s.pc);
      }
    }
  }

  lemma {:induction false} ShutdownPosted(ops: seq<Op>, n: nat)
    requires ShutdownLast(ops) && n <= |ops| && ConsoleShutdown in Posts(ops[..n])
    ensures n == |ops| > 0 && ops[n - 1] == Post(ConsoleShutdown)
  {
    assert n > 0;
    assert ops[..n][..n - 1] == ops[..n - 1];
    NoShutdownBefore(ops, n - 1);
    NoShutdownBefore(ops, n);
  }

  lemma NextOp(cap: nat, ops: seq<Op>, mem: Shared, s: Sys) returns (s': Sys)
    requires Healthy(cap, ops, mem, s) && ShutdownLast(ops) && s.pc < |ops|
    ensures Goes(cap, ops, s, s') && Healthy(cap, ops, mem, s') && s'.guest == Running && s'.pc == s.pc + 1
  {
    Stay(cap, ops, s);
    ExitedLate(cap, ops, mem, s);
    var at := s;
    if s.guest == Running {
      at := Take(cap, ops, s, s, Guest);
      HealthyStep(cap, ops, mem, s, Guest);
      ExitedLate(cap, ops, mem, at);
    }
    s' := at;
    if at.guest != Running {
      s' := PostReturns(cap, ops, at);
      Join(cap, ops, s, at, s');
    }
    StaysHealthy(cap, ops, mem, s, s');
  }

  lemma {:induction false} GuestGoesOn(cap: nat, ops: seq<Op>, mem: Shared, s: Sys, m: nat) returns (s': Sys)
    requires Healthy(cap, ops, mem, s) && ShutdownLast(ops) && m <= |ops|
    requires s.pc < m || (s.pc == m && s.guest == Running)
    ensures Goes(cap, ops, s, s') && Healthy(cap, ops, mem, s') && s'.guest == Running && s'.pc == m
    decreases m - s.pc
  {
    Stay(cap, ops, s);
    s' := s;
    if s.pc < m {
      var at := NextOp(cap, ops, mem, s);
      s' := GuestGoesOn(cap, ops, mem, at, m);
      Join(cap, ops, s, at, s');
    }
  }

  /** In every run, timeouts included, whatever state it is in, the guest can go on to any later point of
      its program. */
  lemma GuestCanGoOn(cap: nat, ops: seq<Op>, mem: Shared, acts: seq<Action>, s: Sys, m: nat)
    returns (more: seq<Action>, s': Sys)
    requires cap > 0 && ValidOps(ops) && |mem.fb| == CELLS && ShutdownLast(ops)
    requires Run(cap, ops, mem, acts) == Some(s) && m <= |ops|
    requires s.pc < m || (s.pc == m && s.guest == Running)
    ensures LeadsTo(cap, ops, mem, acts, more, s') && s'.guest == Running && s'.pc == m
  {
    EveryRunIsHealthy(cap, ops, mem, acts);
    s' := GuestGoesOn(cap, ops, mem, s, m);
    more := CarryOn(cap, ops, mem, acts, s, s');
  }

  /** And if nothing timed out so far, the whole program can be completed, and the host leaves its loop. */
  lemma TimelyRunCanComplete(cap: nat, ops: seq<Op>, mem: Shared, acts: seq<Action>, s: Sys)
    returns (more: seq<Action>, s': Sys)
    requires cap > 0 && ValidOps(ops) && |mem.fb| == CELLS && ShutdownLast(ops)
    requires ops != [] && ops[|ops| - 1] == Post(ConsoleShutdown)
    requires Run(cap, ops, mem, acts) == Some(s) && NoTimeout(acts)
    ensures LeadsTo(cap, ops, mem, acts, more, s')
    ensures s'.guest == Running && s'.pc == |ops| && s'.host == Exited
  {
    EveryRunIsDriven(cap, ops, mem, acts);
    more, s' := GuestCanGoOn(cap, ops, mem, acts, s, |ops|);
    RunsInLockstep(cap, ops, mem, more);
    LockstepEnds(cap, ops, mem, s');
  }

  lemma LockstepEnds(cap: nat, ops: seq<Op>, mem: Shared, s: Sys)
    requires cap > 0 && ValidOps(ops) && |mem.fb| == CELLS && |s.mem.fb| == CELLS
    requires Lockstep(cap, ops, mem, s) && s.guest == Running && s.pc == |ops|
    requires ops != [] && ops[|ops| - 1] == Post(ConsoleShutdown)
    ensures s.host == Exited
  {
  }

  // ---- whether the host can still leave ------------------------------------------------------------

  predicate ShutdownPostedIn(s: Sys) {
    s.posts != [] && s.posts[|s.posts| - 1] == ConsoleShutdown
  }

  /** The shutdown has been overwritten in AVAIL unseen, or is in AVAIL while the host is about to clear
      it for something else. */
  predicate Deaf(s: Sys) {
    ShutdownPostedIn(s) && (|s.posts| - 1 in s.lost || (Pending(s) && (s.host.Handling? || s.host.Clearing?)))
  }

  lemma DeafStep(cap: nat, ops: seq<Op>, s: Sys, a: Action)
    requires cap > 0 && ValidOps(ops) && |s.mem.fb| == CELLS && |s.hist| <= cap
    requires Ledger(s) && Deaf(s) && Enabled(ops, s, a) && (a == Guest && s.guest == Running ==> !ops[s.pc].Post?)
    ensures Deaf(Step(cap, ops, s, a))
  {
  }

  /** Between the shutdown and the end of the program there is nothing left to post. */
  lemma NothingAfterShutdown(ops: seq<Op>, mem: Shared, s: Sys)
    requires ValidOps(ops) && |mem.fb| == CELLS && ShutdownLast(ops) && Driven(ops, mem, s)
    ensures ShutdownPostedIn(s) && s.guest == Running ==> s.pc == |ops|
  {
    NoShutdownBefore(ops, s.pc);
  }

  lemma {:induction false} StaysDeaf(cap: nat, ops: seq<Op>, mem: Shared, s: Sys, path: seq<Action>)
    requires Healthy(cap, ops, mem, s) && ShutdownLast(ops) && Deaf(s)
    ensures var r := Steps(cap, ops, s, path); r.Some? ==> Healthy(cap, ops, mem, r.value) && Deaf(r.value)
  {
    if path != [] {
      var n := |path| - 1;
      StaysDeaf(cap, ops, mem, s, path[..n]);
      var r := Steps(cap, ops, s, path[..n]);
      if r.Some? && Enabled(ops, r.value, path[n]) {
        HealthyStep(cap, ops, mem, r.value, path[n]);
        NothingAfterShutdown(ops, mem, r.value);
        DeafStep(cap, ops, r.value, path[n]);
      }
    }
  }

  /** What the host left for was the last post. */
  lemma LastSeenOfExited(ops: seq<Op>, mem: Shared, s: Sys)
    requires ValidOps(ops) && |mem.fb| == CELLS && ShutdownLast(ops) && Ledger(s) && Driven(ops, mem, s)
    requires s.host.Exited? && ShutdownPostedIn(s)
    ensures |s.posts| - 1 in s.seen
  {
    var k, n := s.seen[|s.seen| - 1], |s.posts| - 1;
    NoShutdownBefore(ops, s.pc);
    assert k in s.seen;
    if k < n {
      LastPostIsLastOp(ops, s.pc, s.posts, k);
    }
  }

  lemma LastPostIsLastOp(ops: seq<Op>, pc: nat, posts: seq<Update>, k: nat)
    requires ShutdownLast(ops) && pc <= |ops| && k < |posts| - 1 && posts[|posts| - 1] == ConsoleShutdown
    requires posts == Posts(ops[..pc]) || (pc < |ops| && posts == Posts(ops[..pc]) + [ConsoleShutdown])
    ensures posts[k] != ConsoleShutdown && posts[k] != Inval
  {
    NoShutdownBefore(ops, pc);
    if posts == Posts(ops[..pc]) {
      assert posts[|posts| - 1] in Posts(ops[..pc]);
      ShutdownPosted(ops, pc);
      NoShutdownBefore(ops, pc - 1);
      assert ops[..pc][..pc - 1] == ops[..pc - 1];
      assert posts == Posts(ops[..pc - 1]) + [ConsoleShutdown];
      assert posts[k] in Posts(ops[..pc - 1]);
    } else {
      assert posts[k] in Posts(ops[..pc]);
    }
  }

  /** Get to the end of the program with the host listening. */
  lemma HostListens(cap: nat, ops: seq<Op>, mem: Shared, s: Sys) returns (s': Sys)
    requires Healthy(cap, ops, mem, s) && ShutdownLast(ops) && !ShutdownPostedIn(s)
    requires ops != [] && ops[|ops| - 1] == Post(ConsoleShutdown)
    ensures Goes(cap, ops, s, s') && Healthy(cap, ops, mem, s')
    ensures s'.guest == Running && s'.pc == |ops| - 1 && s'.host == Polling
  {
    NotYetPosted(ops, mem, s);
    var end := GuestGoesOn(cap, ops, mem, s, |ops| - 1);
    s' := Settle(cap, ops, end);
    Join(cap, ops, s, end, s');
    StaysHealthy(cap, ops, mem, s, s');
    ExitedLate(cap, ops, mem, s');
  }

  /** A post the host is listening for is not missed. */
  lemma NotMissed(ops: seq<Op>, s: Sys)
    requires ValidOps(ops) && Ledger(s) && |s.mem.fb| == CELLS && s.host == Polling
    requires s.guest == Running && s.pc < |ops| && ops[s.pc] == Post(ConsoleShutdown)
    ensures ShutdownPostedIn(GuestStep(ops, s)) && !Deaf(GuestStep(ops, s))
  {
    assert |s.posts| !in s.seen && |s.posts| !in s.lost;
  }

  lemma PostShutdown(cap: nat, ops: seq<Op>, mem: Shared, s: Sys) returns (s': Sys)
    requires Healthy(cap, ops, mem, s) && ShutdownLast(ops) && !ShutdownPostedIn(s)
    requires ops != [] && ops[|ops| - 1] == Post(ConsoleShutdown)
    ensures Goes(cap, ops, s, s') && Healthy(cap, ops, mem, s') && ShutdownPostedIn(s') && !Deaf(s')
  {
    var at := HostListens(cap, ops, mem, s);
    NotMissed(ops, at);
    s' := Take(cap, ops, s, at, Guest);
    StaysHealthy(cap, ops, mem, s, s');
  }

  lemma NotYetPosted(ops: seq<Op>, mem: Shared, s: Sys)
    requires ValidOps(ops) && |mem.fb| == CELLS && Driven(ops, mem, s)
    requires ops != [] && ops[|ops| - 1] == Post(ConsoleShutdown) && !ShutdownPostedIn(s)
    ensures s.pc < |ops| - 1 || (s.pc == |ops| - 1 && s.guest == Running)
  {
  }

  /** Posted and not overwritten: the host picks it up, if it has not yet, and leaves. */
  lemma Leave(cap: nat, ops: seq<Op>, mem: Shared, s: Sys) returns (s': Sys)
    requires Healthy(cap, ops, mem, s) && ShutdownPostedIn(s) && !Deaf(s)
    ensures Goes(cap, ops, s, s') && s'.host == Exited
  {
    Stay(cap, ops, s);
    var n, at := |s.posts| - 1, s;
    if n in s.seen {
      assert s.seen[|s.seen| - 1] == n;
    } else {
      assert InAvail(s, n);
      if at.host.Drawing? {
        at := Take(cap, ops, s, at, SetDrawn);
      }
      if at.host.Polling? {
        at := Take(cap, ops, s, at, Poll);
      }
    }
    s' := Settle(cap, ops, at);
    Join(cap, ops, s, at, s');
  }

  /** `more` carries the run on, by whatever steps, until the host has left its loop. */
  ghost predicate LeavesBy(cap: nat, ops: seq<Op>, mem: Shared, acts: seq<Action>, more: seq<Action>)
    requires cap > 0 && ValidOps(ops) && |mem.fb| == CELLS
  {
    acts <= more && Run(cap, ops, mem, more).Some? && Run(cap, ops, mem, more).value.host == Exited
  }

  lemma DeafNeverLeaves(cap: nat, ops: seq<Op>, mem: Shared, acts: seq<Action>, s: Sys, more: seq<Action>)
    requires cap > 0 && ValidOps(ops) && |mem.fb| == CELLS && ShutdownLast(ops)
    requires Run(cap, ops, mem, acts) == Some(s) && Deaf(s)
    ensures !LeavesBy(cap, ops, mem, acts, more)
  {
    if acts <= more {
      var path := more[|acts|..];
      assert more == acts + path;
      EveryRunIsHealthy(cap, ops, mem, acts);
      RunConcat(cap, ops, mem, acts, s, path);
      StaysDeaf(cap, ops, mem, s, path);
      var r := Steps(cap, ops, s, path);
      if r.Some? && r.value.host.Exited? {
        LastSeenOfExited(ops, mem, r.value);
      }
    }
  }

  /** Over all runs, timeouts included: the host can still leave its loop, and write its file, exactly
      when it has not gone deaf. */
  lemma CanLeaveIffNotDeaf(cap: nat, ops: seq<Op>, mem: Shared, acts: seq<Action>, s: Sys)
    requires cap > 0 && ValidOps(ops) && |mem.fb| == CELLS && ShutdownLast(ops)
    requires ops != [] && ops[|ops| - 1] == Post(ConsoleShutdown)
    requires Run(cap, ops, mem, acts) == Some(s)
    ensures !Deaf(s) <==> exists more :: LeavesBy(cap, ops, mem, acts, more)
  {
    if !Deaf(s) {
      EveryRunIsHealthy(cap, ops, mem, acts);
      Stay(cap, ops, s);
      var at := s;
      if !ShutdownPostedIn(s) {
        at := PostShutdown(cap, ops, mem, s);
      }
      var s' := Leave(cap, ops, mem, at);
      Join(cap, ops, s, at, s');
      var more := CarryOn(cap, ops, mem, acts, s, s');
      assert LeavesBy(cap, ops, mem, acts, more);
    } else {
      forall more ensures !LeavesBy(cap, ops, mem, acts, more) {
        DeafNeverLeaves(cap, ops, mem, acts, s, more);
      }
    }
  }
}
