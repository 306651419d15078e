/** What the handshake guarantees: over every run, and over the runs in which the host's poll never
    times out. */
module Delivery {
  import opened Wrappers
  import opened Seqs
  import opened Vga
  import opened GuestOps
  import opened History
  import opened RowReports
  import opened Handshake

  // ---- every run -----------------------------------------------------------------------------

  /** The accounts of a run: each post was picked up, or overwritten unseen, or is still in AVAIL,
      and only one of these; what was picked up was picked up in order. */
  ghost predicate Ledger(s: Sys) {
    && Increasing(s.seen)
    && (forall k :: 0 <= k < |s.seen| ==> 0 <= s.seen[k] < |s.posts|)
    && (forall i :: i in s.lost ==> 0 <= i < |s.posts|)
    && (forall i :: 0 <= i < |s.posts| ==> (i in s.seen || i in s.lost || InAvail(s, i)))
    && (forall i :: 0 <= i < |s.posts| ==> !(i in s.seen && i in s.lost))
    && (forall i :: 0 <= i < |s.posts| && InAvail(s, i) ==> i !in s.lost)
    && (s.avail != NoUpdate ==> s.posts != [] && s.avail == s.posts[|s.posts| - 1])
    && (s.host.Handling? ==> s.seen != [] && s.host.update == s.posts[s.seen[|s.seen| - 1]] != NoUpdate)
    && (s.host.Exited? ==> s.seen != [] && s.posts[s.seen[|s.seen| - 1]] in {ConsoleShutdown, Inval})
    && (s.host == Drawing(ConsoleShutdown) || s.host == Clearing(ConsoleShutdown)
        ==> s.seen != [] && s.posts[s.seen[|s.seen| - 1]] == ConsoleShutdown)
    && (s.avail != NoUpdate && (s.host.Polling? || s.host.Drawing? || s.host == Clearing(NoUpdate)) ==> Pending(s))
  }

  predicate InAvail(s: Sys, i: int) {
    Pending(s) && i == |s.posts| - 1
  }

  predicate Increasing(s: seq<int>) {
    forall i, j :: 0 <= i < j < |s| ==> s[i] < s[j]
  }

  lemma LedgerPost(ops: seq<Op>, s: Sys)
    requires ValidOps(ops) && |s.mem.fb| == CELLS && Ledger(s)
    requires Enabled(ops, s, Guest) && s.guest == Running && ops[s.pc].Post?
    ensures Ledger(GuestStep(ops, s))
  {
    var s' := GuestStep(ops, s);
    assert ValidOp(ops[s.pc]);
    var last := |s.posts|;
    assert last !in s.seen;
    assert Pending(s') && InAvail(s', last);
    forall i | 0 <= i < |s'.posts| ensures i in s'.seen || i in s'.lost || InAvail(s', i) {
      assert i < last ==> i in s.seen || i in s.lost || InAvail(s, i);
    }
  }

  lemma LedgerPoll(s: Sys)
    requires |s.mem.fb| == CELLS && Ledger(s) && s.host == Polling && s.avail != NoUpdate
    ensures Ledger(s.(host := Handling(s.avail, []), seen := s.seen + [|s.posts| - 1]))
    ensures s.avail == Inval ==> Ledger(s.(host := Exited, seen := s.seen + [|s.posts| - 1]))
  {
    var last := |s.posts| - 1;
    assert InAvail(s, last);
    forall k | 0 <= k < |s.seen| ensures s.seen[k] < last {
      assert s.seen[k] in s.seen;
    }
    var seen' := s.seen + [last];
    assert Increasing(seen');
    forall i | 0 <= i < |s.posts| ensures i in seen' || i in s.lost {
      assert i in s.seen || i in s.lost || InAvail(s, i);
    }
    assert last in seen';
  }

  lemma LedgerClear(s: Sys)
    requires |s.mem.fb| == CELLS && Ledger(s) && s.host.Clearing?
    ensures Ledger(s.(avail := NoUpdate, host := Drawing(s.host.update), lost := s.lost + Overwritten(s)))
  {
    forall i | 0 <= i < |s.posts| ensures i in s.seen || i in s.lost + Overwritten(s) {
      assert i in s.seen || i in s.lost || InAvail(s, i);
    }
  }

  lemma LedgerStep(cap: nat, ops: seq<Op>, s: Sys, a: Action)
    requires cap > 0 && ValidOps(ops) && |s.mem.fb| == CELLS && |s.hist| <= cap
    requires Ledger(s) && Enabled(ops, s, a)
    ensures Ledger(Step(cap, ops, s, a))
  {
    match a
    case Guest =>
      if s.guest == Running && ops[s.pc].Post? {
        LedgerPost(ops, s);
      } else {
        LedgerQuiet(cap, ops, s, a);
      }
    case Poll =>
      if s.avail != NoUpdate {
        LedgerPoll(s);
      }
    case ClearAvail => LedgerClear(s);
    case _ => LedgerQuiet(cap, ops, s, a);
  }

  /** Steps that touch neither AVAIL nor the accounts. */
  lemma LedgerQuiet(cap: nat, ops: seq<Op>, s: Sys, a: Action)
    requires cap > 0 && ValidOps(ops) && |s.mem.fb| == CELLS && |s.hist| <= cap
    requires Ledger(s) && Enabled(ops, s, a) && a != Poll && a != ClearAvail
    requires a == Guest ==> s.guest != Running || !ops[s.pc].Post?
    ensures Ledger(Step(cap, ops, s, a))
  {
    var s' := Step(cap, ops, s, a);
    if a == Guest {
      assert s'.host == s.host;
    }
    SameLedger(s, s');
  }

  lemma SameLedger(s: Sys, s': Sys)
    requires Ledger(s) && s'.seen == s.seen && s'.lost == s.lost && s'.posts == s.posts && s'.avail == s.avail
    requires s'.host == s.host || (s.host.Polling? && s'.host == Clearing(NoUpdate) && s.avail == NoUpdate)
      || (s.host.Handling? && s'.host.Handling? && s'.host.update == s.host.update)
      || (s.host.Handling? && s'.host == Clearing(s.host.update))
      || (s.host.Drawing? && s'.host == if s.host.update == ConsoleShutdown then Exited else Polling)
    ensures Ledger(s')
  {
    assert forall i :: InAvail(s', i) == InAvail(s, i);
  }

  /** In every run, timeouts included, no post is handled twice or out of order, and none is
      unaccounted for. */
  lemma {:induction false} EveryRunKeepsLedger(cap: nat, ops: seq<Op>, mem: Shared, acts: seq<Action>)
    requires cap > 0 && ValidOps(ops) && |mem.fb| == CELLS
    ensures var r := Run(cap, ops, mem, acts); r.Some? ==> Ledger(r.value)
  {
    if acts != [] {
      var n := |acts| - 1;
      EveryRunKeepsLedger(cap, ops, mem, acts[..n]);
      var r := Run(cap, ops, mem, acts[..n]);
      if r.Some? && Enabled(ops, r.value, acts[n]) {
        LedgerStep(cap, ops, r.value, acts[n]);
      }
    }
  }

  /** What executing the first n ops in one go, with nothing in between, comes to. */
  function Ideal(ops: seq<Op>, mem: Shared, n: nat): (w: World)
    requires ValidOps(ops) && |mem.fb| == CELLS && n <= |ops|
    ensures |w.fb| == CELLS
  {
    Exec(World(mem.fb, []), ops[..n])
  }

  lemma IdealSnoc(ops: seq<Op>, mem: Shared, n: nat)
    requires ValidOps(ops) && |mem.fb| == CELLS && n < |ops|
    ensures Ideal(ops, mem, n + 1) == Apply(Ideal(ops, mem, n), ops[n])
    ensures Posts(ops[..n + 1]) == Posts(ops[..n]) + if ops[n].Post? then [ops[n].update] else []
  {
    assert ops[..n + 1][..n] == ops[..n];
  }

  /** What the guest alone decides: the framebuffer, the LINE register and the posts are as if nothing
      else were running. */
  ghost predicate Driven(ops: seq<Op>, mem: Shared, s: Sys)
    requires ValidOps(ops) && |mem.fb| == CELLS
  {
    && s.pc <= |ops|
    && s.mem.fb == Ideal(ops, mem, s.pc).fb && s.mem.lineReg == LineAfter(mem.lineReg, ops[..s.pc])
    && (s.guest != Running ==> s.pc < |ops| && ops[s.pc].Post?)
    && s.posts == Posts(ops[..s.pc]) + (if s.guest == Running then [] else [ops[s.pc].update])
    && |s.snaps| == |s.posts| && (s.guest != Running ==> s.snaps[|s.posts| - 1] == s.mem)
  }

  lemma DrivenGuest(ops: seq<Op>, mem: Shared, s: Sys)
    requires ValidOps(ops) && |mem.fb| == CELLS
    requires |s.mem.fb| == CELLS && Driven(ops, mem, s) && Enabled(ops, s, Guest)
    ensures Driven(ops, mem, GuestStep(ops, s))
  {
    if s.pc < |ops| {
      IdealSnoc(ops, mem, s.pc);
      LineSnoc(mem.lineReg, ops, s.pc);
    }
  }

  /** In every run, timeouts included, whatever the host does or fails to do. */
  lemma {:induction false} EveryRunIsDriven(cap: nat, ops: seq<Op>, mem: Shared, acts: seq<Action>)
    requires cap > 0 && ValidOps(ops) && |mem.fb| == CELLS
    ensures var r := Run(cap, ops, mem, acts); r.Some? ==> Driven(ops, mem, r.value)
  {
    if acts == [] {
      assert ops[..0] == [];
    } else {
      var n := |acts| - 1;
      EveryRunIsDriven(cap, ops, mem, acts[..n]);
      var r := Run(cap, ops, mem, acts[..n]);
      if r.Some? && Enabled(ops, r.value, acts[n]) {
        DrivenStep(cap, ops, mem, r.value, acts[n]);
      }
    }
  }

  lemma DrivenStep(cap: nat, ops: seq<Op>, mem: Shared, s: Sys, a: Action)
    requires cap > 0 && ValidOps(ops) && |mem.fb| == CELLS && |s.mem.fb| == CELLS && |s.hist| <= cap
    requires Driven(ops, mem, s) && Enabled(ops, s, a)
    ensures Driven(ops, mem, Step(cap, ops, s, a))
  {
    if a == Guest {
      DrivenGuest(ops, mem, s);
    }
  }

  function UpTo(n: nat): (s: seq<int>)
    ensures |s| == n
  {
    seq(n, i => i)
  }

  /** The greatest of the numbers below n comes last. */
  lemma LastIsGreatest(s: seq<int>, n: nat) returns (rest: seq<int>)
    requires Increasing(s) && 0 < n && (forall i :: i in s <==> 0 <= i < n)
    ensures s == rest + [n - 1] && Increasing(rest)
    ensures forall i :: i in rest <==> 0 <= i < n - 1
  {
    assert n - 1 in s;
    var k :| 0 <= k < |s| && s[k] == n - 1;
    var m := |s| - 1;
    assert s[m] in s;
    rest := s[..m];
    assert s == rest + [s[m]];
    assert forall i :: i in s <==> i in rest || i == s[m];
  }

  /** Increasing numbers that are exactly those below n are 0, 1, ..., n - 1. */
  lemma {:induction false} IncreasingIsUpTo(s: seq<int>, n: nat)
    requires Increasing(s) && (forall i :: i in s <==> 0 <= i < n)
    ensures s == UpTo(n)
    decreases n
  {
    if s == [] {
      assert n > 0 ==> 0 in s;
    } else {
      assert s[0] in s;
      var rest := LastIsGreatest(s, n);
      IncreasingIsUpTo(rest, n - 1);
    }
  }

  /** The posts that have been picked up, in the order the host did so. */
  function PickedUp(s: Sys): (us: seq<Update>)
    requires forall k :: 0 <= k < |s.seen| ==> 0 <= s.seen[k] < |s.posts|
    ensures |us| == |s.seen|
  {
    seq(|s.seen|, k requires 0 <= k < |s.seen| => s.posts[s.seen[k]])
  }

  /** The host picks up every post so far once and in order, up to one still in AVAIL, exactly when no
      step overwrote AVAIL while it was pending. What becomes of the rows is another matter: see
      SavedRows. */
  lemma ExactDelivery(s: Sys)
    requires Ledger(s)
    ensures s.lost == {} <==> s.seen == UpTo(|s.posts| - if Pending(s) then 1 else 0)
    ensures s.lost == {} ==> PickedUp(s) == s.posts[..|s.posts| - if Pending(s) then 1 else 0]
  {
    var n := |s.posts| - if Pending(s) then 1 else 0;
    if s.lost == {} {
      forall i ensures i in s.seen <==> 0 <= i < n {
        assert 0 <= i < |s.posts| ==> i in s.seen || InAvail(s, i);
      }
      IncreasingIsUpTo(s.seen, n);
    } else if s.seen == UpTo(n) {
      forall i | 0 <= i < n ensures i in s.seen {
        assert s.seen[i] == i;
      }
      forall i ensures i !in s.lost {
        if 0 <= i < |s.posts| && i !in s.seen {
          assert InAvail(s, i);
        }
      }
    }
  }

  /** A post is lost in exactly two kinds of step: the host clears AVAIL, or the guest posts again,
      while an update the host has not picked up is in it. */
  lemma LossesAreOverwrites(cap: nat, ops: seq<Op>, s: Sys, a: Action)
    requires cap > 0 && ValidOps(ops) && |s.mem.fb| == CELLS && |s.hist| <= cap
    requires Ledger(s) && Enabled(ops, s, a)
    ensures Step(cap, ops, s, a).lost != s.lost
       <==> Pending(s) && (a == ClearAvail || (a == Guest && s.guest == Running && ops[s.pc].Post?))
  {
    if Pending(s) {
      assert InAvail(s, |s.posts| - 1);
    }
  }

  // ---- runs without a timeout ------------------------------------------------------------------

  /** How many polls timed out. */
  function Timeouts(acts: seq<Action>): (n: nat)
    ensures n <= |acts|
  {
    if acts == [] then 0
    else Timeouts(acts[..|acts| - 1]) + if acts[|acts| - 1] == Timeout then 1 else 0
  }

  predicate NoTimeout(acts: seq<Action>) {
    Timeouts(acts) == 0
  }

  /** Between posts: nothing in flight. */
  predicate Quiet(cap: nat, ops: seq<Op>, mem: Shared, s: Sys)
    requires cap > 0 && ValidOps(ops) && |mem.fb| == CELLS && s.pc <= |ops|
  {
    && s.guest == Running && s.avail == NoUpdate && !s.drawn
    && (s.host == Polling || s.host == Exited)
    && s.hist == PushAll(cap, Ideal(ops, mem, s.pc).saved)
    && |s.seen| == |s.posts|
    && (s.pc > 0 && ops[s.pc - 1] == Post(ConsoleShutdown) ==> s.host == Exited)
  }

  /** Posted, and the host has not finished with it. */
  predicate Open(cap: nat, ops: seq<Op>, mem: Shared, s: Sys)
    requires cap > 0 && ValidOps(ops) && |mem.fb| == CELLS && |s.mem.fb| == CELLS && s.pc < |ops| && ops[s.pc].Post?
  {
    && s.guest == Spinning && s.avail == ops[s.pc].update && !s.drawn
    && s.hist == PushAll(cap, Ideal(ops, mem, s.pc).saved)
    && (match s.host
        case Polling => |s.seen| + 1 == |s.posts|
        case Exited => |s.seen| + 1 == |s.posts| || (|s.seen| == |s.posts| && s.avail == Inval)
        case Handling(u, copied) =>
          && u == ops[s.pc].update && |s.seen| == |s.posts|
          && |copied| <= WIDTH && copied == s.mem.fb[..|copied|]
        case _ => false)
  }

  /** The host has finished with the post but the guest has not moved on. */
  predicate Closing(cap: nat, ops: seq<Op>, mem: Shared, s: Sys)
    requires cap > 0 && ValidOps(ops) && |mem.fb| == CELLS && s.pc < |ops| && ops[s.pc].Post?
  {
    && |s.seen| == |s.posts|
    && s.hist == PushAll(cap, Ideal(ops, mem, s.pc + 1).saved)
    && (match s.host
        case Clearing(u) => u == s.avail == ops[s.pc].update && !s.drawn && s.guest == Spinning
        case Drawing(u) => s.avail == NoUpdate && u == ops[s.pc].update && !s.drawn && s.guest == Spinning
        case Handling(_, _) => false
        case Polling => s.avail == NoUpdate && s.drawn && s.guest != Running && ops[s.pc].update != ConsoleShutdown
        case Exited => s.avail == NoUpdate && s.drawn && s.guest != Running)
  }

  ghost predicate Lockstep(cap: nat, ops: seq<Op>, mem: Shared, s: Sys)
    requires cap > 0 && ValidOps(ops) && |mem.fb| == CELLS
  {
    && Driven(ops, mem, s)
    && s.lost == {} && s.seen == UpTo(|s.seen|)
    && (Quiet(cap, ops, mem, s)
        || (s.guest != Running && (Open(cap, ops, mem, s) || Closing(cap, ops, mem, s))))
  }

  lemma LockstepGuest(cap: nat, ops: seq<Op>, mem: Shared, s: Sys)
    requires cap > 0 && ValidOps(ops) && |mem.fb| == CELLS
    requires |s.mem.fb| == CELLS && Lockstep(cap, ops, mem, s) && Enabled(ops, s, Guest)
    ensures Lockstep(cap, ops, mem, GuestStep(ops, s))
  {
    DrivenGuest(ops, mem, s);
    if s.pc < |ops| {
      IdealSnoc(ops, mem, s.pc);
      assert ValidOp(ops[s.pc]);
    }
  }

  lemma LockstepFinish(cap: nat, ops: seq<Op>, mem: Shared, s: Sys)
    requires cap > 0 && ValidOps(ops) && |mem.fb| == CELLS
    requires |s.mem.fb| == CELLS && |s.hist| <= cap && Lockstep(cap, ops, mem, s) && Enabled(ops, s, Finish)
    ensures Lockstep(cap, ops, mem, HostStep(cap, s, Finish))
  {
    IdealSnoc(ops, mem, s.pc);
    if s.host.update == Scrollup {
      PushAllSnoc(cap, Ideal(ops, mem, s.pc).saved, RowOf(s.mem.fb, 0));
      assert s.host.copied == RowOf(s.mem.fb, 0);
    }
  }

  lemma LockstepHost(cap: nat, ops: seq<Op>, mem: Shared, s: Sys, a: Action)
    requires cap > 0 && ValidOps(ops) && |mem.fb| == CELLS && a != Guest && a != Timeout
    requires |s.mem.fb| == CELLS && |s.hist| <= cap && Lockstep(cap, ops, mem, s) && Enabled(ops, s, a)
    ensures Lockstep(cap, ops, mem, HostStep(cap, s, a))
  {
    match a
    case Finish => LockstepFinish(cap, ops, mem, s);
    case Poll => LockstepPoll(cap, ops, mem, s);
    case CopyCell => LockstepCopy(cap, ops, mem, s);
    case ClearAvail => LockstepClear(cap, ops, mem, s);
    case SetDrawn => LockstepDraw(cap, ops, mem, s);
  }

  lemma LockstepPoll(cap: nat, ops: seq<Op>, mem: Shared, s: Sys)
    requires cap > 0 && ValidOps(ops) && |mem.fb| == CELLS
    requires |s.mem.fb| == CELLS && |s.hist| <= cap && Lockstep(cap, ops, mem, s) && Enabled(ops, s, Poll)
    ensures Lockstep(cap, ops, mem, HostStep(cap, s, Poll))
  {
    assert s.avail != NoUpdate ==> UpTo(|s.seen| + 1) == s.seen + [|s.posts| - 1];
  }

  lemma LockstepCopy(cap: nat, ops: seq<Op>, mem: Shared, s: Sys)
    requires cap > 0 && ValidOps(ops) && |mem.fb| == CELLS
    requires |s.mem.fb| == CELLS && |s.hist| <= cap && Lockstep(cap, ops, mem, s) && Enabled(ops, s, CopyCell)
    ensures Lockstep(cap, ops, mem, HostStep(cap, s, CopyCell))
  {
    var c := s.host.copied;
    assert s.mem.fb[..|c| + 1] == s.mem.fb[..|c|] + [s.mem.fb[|c|]];
  }

  lemma LockstepClear(cap: nat, ops: seq<Op>, mem: Shared, s: Sys)
    requires cap > 0 && ValidOps(ops) && |mem.fb| == CELLS
    requires |s.mem.fb| == CELLS && |s.hist| <= cap && Lockstep(cap, ops, mem, s) && Enabled(ops, s, ClearAvail)
    ensures Lockstep(cap, ops, mem, HostStep(cap, s, ClearAvail))
  {
    assert s.seen[|s.seen| - 1] == |s.posts| - 1;
    assert !Pending(s);
  }

  lemma LockstepDraw(cap: nat, ops: seq<Op>, mem: Shared, s: Sys)
    requires cap > 0 && ValidOps(ops) && |mem.fb| == CELLS
    requires |s.mem.fb| == CELLS && |s.hist| <= cap && Lockstep(cap, ops, mem, s) && Enabled(ops, s, SetDrawn)
    ensures Lockstep(cap, ops, mem, HostStep(cap, s, SetDrawn))
  {
  }

  /** Without a timeout, guest and host move in lockstep: at every instant of every interleaving the
      framebuffer is as if the guest ran alone, the history holds exactly the rows due so far, the
      updates handled are the first ones posted, and while one is being handled the framebuffer and
      the registers are as they were when it was posted. */
  lemma {:induction false} RunsInLockstep(cap: nat, ops: seq<Op>, mem: Shared, acts: seq<Action>)
    requires cap > 0 && ValidOps(ops) && |mem.fb| == CELLS && NoTimeout(acts)
    ensures var r := Run(cap, ops, mem, acts); r.Some? ==> Lockstep(cap, ops, mem, r.value)
  {
    if acts == [] {
      assert ops[..0] == [];
    } else {
      var n := |acts| - 1;
      RunsInLockstep(cap, ops, mem, acts[..n]);
      var r := Run(cap, ops, mem, acts[..n]);
      if r.Some? && Enabled(ops, r.value, acts[n]) {
        if acts[n] == Guest {
          LockstepGuest(cap, ops, mem, r.value);
        } else {
          LockstepHost(cap, ops, mem, r.value, acts[n]);
        }
      }
    }
  }

  /** The guarantees a reader of the protocol cares about. */
  lemma TimelyDelivery(cap: nat, ops: seq<Op>, mem: Shared, acts: seq<Action>, s: Sys)
    requires cap > 0 && ValidOps(ops) && |mem.fb| == CELLS && NoTimeout(acts)
    requires Run(cap, ops, mem, acts) == Some(s)
    ensures s.pc <= |ops| && (s.guest != Running ==> s.pc < |ops| && ops[s.pc].Post?)
    ensures s.lost == {} && s.seen == UpTo(|s.seen|)
    ensures |s.seen| <= |s.posts| <= |s.seen| + 1
    ensures s.posts == Posts(ops[..s.pc]) + if s.guest == Running then [] else [ops[s.pc].update]
    ensures |s.snaps| == |s.posts| && (s.guest != Running ==> s.mem == s.snaps[|s.posts| - 1])
    ensures s.host.Handling? || s.host.Clearing? || s.host.Drawing?
      ==> s.guest == Spinning && !s.drawn && s.posts != [] && s.host.update == s.posts[|s.posts| - 1]
    ensures s.guest == Running
      ==> var w := Ideal(ops, mem, s.pc); s.mem.fb == w.fb && Reverse(s.hist) == Last(cap, w.saved)
  {
    RunsInLockstep(cap, ops, mem, acts);
    PushAllKeepsNewest(cap, Ideal(ops, mem, s.pc).saved);
  }
}
