/** Exactly when the host's history comes out right, over all runs: a poll that times out sets DRAWN for
    nothing, and the guest can take that for the acknowledgement of its next post. */
module SavedRows {
  import opened Wrappers
  import opened Vga
  import opened GuestOps
  import opened History
  import opened Handshake
  import opened Delivery
  import opened DueRows

  // ---- what goes wrong ---------------------------------------------------------------------------

  predicate NoScrollupLost(s: Sys) {
    forall i :: i in s.lost && 0 <= i < |s.posts| ==> s.posts[i] != Scrollup
  }

  /** A scrollup is waiting in AVAIL or being handled. */
  predicate InFlight(s: Sys) {
    (s.host.Handling? && s.host.update == Scrollup) || (Pending(s) && s.avail == Scrollup)
  }

  /** The cell copied next still is what it was when the scrollup being handled was posted. */
  predicate CellIntact(s: Sys) {
    && s.host.Handling? && s.seen != []
    && var k, c := s.seen[|s.seen| - 1], |s.host.copied|;
       0 <= k < |s.snaps| && c < |s.mem.fb| && c < |s.snaps[k].fb| && s.mem.fb[c] == s.snaps[k].fb[c]
  }

  /** No cell of a row was copied after the guest had changed it; storing the same value again is no
      change. */
  predicate CopiedInTime(cap: nat, ops: seq<Op>, mem: Shared, acts: seq<Action>)
    requires cap > 0 && ValidOps(ops) && |mem.fb| == CELLS
  {
    acts == [] ||
    var n := |acts| - 1;
    && CopiedInTime(cap, ops, mem, acts[..n])
    && match Run(cap, ops, mem, acts[..n])
       case None => true
       case Some(s) => acts[n] == CopyCell && Enabled(ops, s, CopyCell) ==> CellIntact(s)
  }

  // ---- the accounts of the history ------------------------------------------------------------------

  /** The updates before this one have been dealt with or overwritten. */
  function Frontier(s: Sys): (f: nat)
    requires Ledger(s)
    ensures f <= |s.posts|
  {
    if s.seen == [] then 0 else s.seen[|s.seen| - 1] + if s.host.Handling? then 0 else 1
  }

  /** What has been copied so far of the row being saved is right. */
  predicate CopyOk(s: Sys)
    requires Ledger(s) && Snaps(s.posts, s.snaps)
  {
    s.host.Handling? && s.host.update == Scrollup
    ==> |s.host.copied| <= WIDTH && s.host.copied == s.snaps[s.seen[|s.seen| - 1]].fb[..|s.host.copied|]
  }

  /** The history is no longer than it should be, shorter once a scrollup was lost on the way, and -
      if none was - right as long as all cells were copied in time, and only then if nothing had to be
      dropped. */
  ghost predicate Account(cap: nat, s: Sys, inTime: bool)
    requires cap > 0 && Ledger(s) && Snaps(s.posts, s.snaps)
  {
    var f := Frontier(s);
    var due := Due(s.posts, s.snaps, f);
    && |s.hist| <= |due|
    && ((exists i :: 0 <= i < f && i in s.lost && s.posts[i] == Scrollup) ==> |s.hist| < |due|)
    && (s.host.Handling? ==> |s.host.copied| <= WIDTH)
    && (NoScrollupLost(s) && inTime ==> s.hist == PushAll(cap, due) && CopyOk(s))
    && (NoScrollupLost(s) && |due| <= cap && s.hist == PushAll(cap, due) && CopyOk(s) ==> inTime)
  }

  ghost predicate Inv(cap: nat, s: Sys, inTime: bool)
    requires cap > 0
  {
    && |s.mem.fb| == CELLS && |s.hist| <= cap && Ledger(s) && Snaps(s.posts, s.snaps)
    && Account(cap, s, inTime)
  }

  /** Between the frontier and a post in AVAIL there are only lost ones. */
  lemma FrontierGap(s: Sys)
    requires Ledger(s) && !s.host.Handling?
    ensures forall i :: Frontier(s) <= i < |s.posts| ==> i in s.lost || InAvail(s, i)
  {
    assert forall k :: 0 <= k < |s.seen| ==> s.seen[k] < Frontier(s);
  }

  lemma PendingBeyond(s: Sys)
    requires Ledger(s) && Pending(s)
    ensures s.posts != [] && Frontier(s) < |s.posts|
  {
    if s.seen != [] {
      assert s.seen[|s.seen| - 1] in s.seen;
    }
  }

  lemma AccountPost(cap: nat, ops: seq<Op>, s: Sys, inTime: bool)
    requires cap > 0 && ValidOps(ops) && Inv(cap, s, inTime)
    requires s.guest == Running && s.pc < |ops| && ops[s.pc].Post?
    ensures Ledger(GuestStep(ops, s)) && Inv(cap, GuestStep(ops, s), inTime)
  {
    var s' := GuestStep(ops, s);
    LedgerPost(ops, s);
    DueOfPrefix(s.posts, s.snaps, ops[s.pc].update, s.mem, Frontier(s));
    if Pending(s) {
      PendingBeyond(s);
    }
    assert forall i :: i in s.lost ==> i in s'.lost && s'.posts[i] == s.posts[i];
  }

  /** AVAIL is overwritten. */
  lemma AccountClear(cap: nat, s: Sys, inTime: bool)
    requires cap > 0 && Inv(cap, s, inTime) && s.host.Clearing?
    ensures Inv(cap, HostStep(cap, s, ClearAvail), inTime)
  {
    LedgerClear(s);
    if Pending(s) {
      PendingBeyond(s);
    }
  }

  /** The host is done with an update that saves nothing. */
  lemma AccountDone(cap: nat, s: Sys, inTime: bool, s': Sys)
    requires cap > 0 && Inv(cap, s, inTime) && s.host.Handling? && s.host.update != Scrollup
    requires Ledger(s') && !s'.host.Handling? && s'.posts == s.posts && s'.snaps == s.snaps && s'.mem == s.mem
    requires s'.seen == s.seen && s'.lost == s.lost && s'.hist == s.hist
    ensures Inv(cap, s', inTime)
  {
    var f := Frontier(s);
    assert s.posts[f] == s.host.update && f in s.seen && Frontier(s') == f + 1;
    assert Due(s.posts, s.snaps, f + 1) == Due(s.posts, s.snaps, f);
  }

  /** The host's attention jumps to the post in AVAIL, over the lost ones. */
  lemma AccountJump(cap: nat, s: Sys, inTime: bool, s': Sys)
    requires cap > 0 && Inv(cap, s, inTime) && Pending(s) && !s.host.Handling?
    requires Ledger(s') && Frontier(s') == |s.posts| - 1
    requires s'.posts == s.posts && s'.snaps == s.snaps && s'.lost == s.lost && s'.hist == s.hist && s'.mem == s.mem
    requires s'.host.Handling? && s'.host.copied == []
    ensures Inv(cap, s', inTime)
  {
    var last, f := |s.posts| - 1, Frontier(s);
    PendingBeyond(s);
    FrontierGap(s);
    DueGrows(s.posts, s.snaps, f, last);
  }

  lemma AccountPoll(cap: nat, s: Sys, inTime: bool)
    requires cap > 0 && Inv(cap, s, inTime) && s.host == Polling && s.avail != NoUpdate
    ensures Inv(cap, HostStep(cap, s, Poll), inTime)
  {
    var s' := s.(host := Handling(s.avail, []), seen := s.seen + [|s.posts| - 1]);
    LedgerPoll(s);
    assert Pending(s) && Frontier(s') == |s.posts| - 1;
    AccountJump(cap, s, inTime, s');
    if s.avail == Inval {
      var gone := s'.(host := Exited);
      AccountDone(cap, s', inTime, gone);
      assert HostStep(cap, s, Poll) == gone;
    } else {
      assert HostStep(cap, s, Poll) == s';
    }
  }

  lemma AccountCopy(cap: nat, s: Sys, inTime: bool)
    requires cap > 0 && Inv(cap, s, inTime) && Enabled([], s, CopyCell)
    ensures Inv(cap, HostStep(cap, s, CopyCell), inTime && CellIntact(s))
  {
    var s', c := HostStep(cap, s, CopyCell), s.host.copied;
    SameLedger(s, s');
    var top := s.snaps[s.seen[|s.seen| - 1]].fb;
    assert top[..|c| + 1] == top[..|c|] + [top[|c|]];
  }

  lemma AccountSave(cap: nat, s: Sys, inTime: bool)
    requires cap > 0 && Inv(cap, s, inTime) && Enabled([], s, Finish) && s.host.update == Scrollup
    ensures Inv(cap, HostStep(cap, s, Finish), inTime)
  {
    var s', f := HostStep(cap, s, Finish), Frontier(s);
    SameLedger(s, s');
    assert f in s.seen && s.posts[f] == Scrollup && Frontier(s') == f + 1;
    var due, top := Due(s.posts, s.snaps, f), RowOf(s.snaps[f].fb, 0);
    assert Due(s.posts, s.snaps, f + 1) == due + [top];
    assert CopyOk(s) <==> s.host.copied == top;
    PushMatches(cap, due, s.hist, s.host.copied, top);
  }

  lemma AccountFinish(cap: nat, s: Sys, inTime: bool)
    requires cap > 0 && Inv(cap, s, inTime) && Enabled([], s, Finish)
    ensures Inv(cap, HostStep(cap, s, Finish), inTime)
  {
    if s.host.update == Scrollup {
      AccountSave(cap, s, inTime);
    } else {
      var s' := HostStep(cap, s, Finish);
      SameLedger(s, s');
      AccountDone(cap, s, inTime, s');
    }
  }

  lemma AccountQuiet(cap: nat, s: Sys, s': Sys, inTime: bool)
    requires cap > 0 && Inv(cap, s, inTime) && Ledger(s') && |s'.mem.fb| == CELLS
    requires s'.posts == s.posts && s'.snaps == s.snaps && s'.seen == s.seen && s'.lost == s.lost && s'.hist == s.hist
    requires s'.host == s.host || (!s.host.Handling? && !s'.host.Handling?)
    ensures Inv(cap, s', inTime)
  {
  }

  lemma AccountGuest(cap: nat, ops: seq<Op>, s: Sys, inTime: bool)
    requires cap > 0 && ValidOps(ops) && Inv(cap, s, inTime) && Enabled(ops, s, Guest)
    ensures Inv(cap, GuestStep(ops, s), inTime)
  {
    if s.guest == Running && ops[s.pc].Post? {
      AccountPost(cap, ops, s, inTime);
    } else {
      LedgerStep(cap, ops, s, Guest);
      AccountQuiet(cap, s, GuestStep(ops, s), inTime);
    }
  }

  lemma AccountStep(cap: nat, ops: seq<Op>, s: Sys, a: Action, inTime: bool)
    requires cap > 0 && ValidOps(ops) && Inv(cap, s, inTime) && Enabled(ops, s, a)
    ensures Inv(cap, Step(cap, ops, s, a), inTime && (a == CopyCell ==> CellIntact(s)))
  {
    match a
    case Guest => AccountGuest(cap, ops, s, inTime);
    case Poll =>
      if s.avail != NoUpdate {
        AccountPoll(cap, s, inTime);
      }
    case Finish => AccountFinish(cap, s, inTime);
    case CopyCell => AccountCopy(cap, s, inTime);
    case ClearAvail => AccountClear(cap, s, inTime);
    case _ =>
      LedgerStep(cap, ops, s, a);
      AccountQuiet(cap, s, HostStep(cap, s, a), inTime);
  }

  lemma {:induction false} EveryRunIsAccounted(cap: nat, ops: seq<Op>, mem: Shared, acts: seq<Action>)
    requires cap > 0 && ValidOps(ops) && |mem.fb| == CELLS
    ensures var r := Run(cap, ops, mem, acts);
            r.Some? ==> Inv(cap, r.value, CopiedInTime(cap, ops, mem, acts))
  {
    if acts != [] {
      var n := |acts| - 1;
      EveryRunIsAccounted(cap, ops, mem, acts[..n]);
      var r := Run(cap, ops, mem, acts[..n]);
      if r.Some? && Enabled(ops, r.value, acts[n]) {
        AccountStep(cap, ops, r.value, acts[n], CopiedInTime(cap, ops, mem, acts[..n]));
      }
    }
  }

  // ---- exactly when the history is right ---------------------------------------------------------

  /** Nothing has gone wrong so far, and no row is still on its way. */
  predicate AllSaved(cap: nat, ops: seq<Op>, mem: Shared, acts: seq<Action>, s: Sys)
    requires cap > 0 && ValidOps(ops) && |mem.fb| == CELLS
  {
    NoScrollupLost(s) && CopiedInTime(cap, ops, mem, acts) && !InFlight(s)
  }

  lemma FrontierReached(s: Sys)
    requires Ledger(s) && Snaps(s.posts, s.snaps)
    ensures |Due(s.posts, s.snaps, Frontier(s))| <= |Due(s.posts, s.snaps, |s.posts|)|
    ensures InFlight(s) ==> |Due(s.posts, s.snaps, Frontier(s))| < |Due(s.posts, s.snaps, |s.posts|)|
    ensures NoScrollupLost(s) && !InFlight(s)
      ==> Due(s.posts, s.snaps, Frontier(s)) == Due(s.posts, s.snaps, |s.posts|)
    ensures (exists i :: Frontier(s) <= i < |s.posts| && s.posts[i] == Scrollup)
      ==> |Due(s.posts, s.snaps, Frontier(s))| < |Due(s.posts, s.snaps, |s.posts|)|
  {
    var f := Frontier(s);
    DueGrows(s.posts, s.snaps, f, |s.posts|);
    if Pending(s) {
      PendingBeyond(s);
    }
    if NoScrollupLost(s) && !InFlight(s) {
      forall i | f <= i < |s.posts| ensures s.posts[i] != Scrollup {
        if i !in s.lost && !InAvail(s, i) {
          assert i in s.seen;
          var k :| 0 <= k < |s.seen| && s.seen[k] == i;
        }
      }
    }
  }

  /** Over all runs, timeouts included. If no scrollup was overwritten in AVAIL, no cell was copied after
      the guest had changed it, and no scrollup is still on its way, the history holds the newest rows
      due; and as long as they all fit, it holds them only then. */
  lemma RightExactlyWhenAllSaved(cap: nat, ops: seq<Op>, mem: Shared, acts: seq<Action>, s: Sys)
    requires cap > 0 && ValidOps(ops) && |mem.fb| == CELLS && Run(cap, ops, mem, acts) == Some(s)
    ensures s.pc <= |ops| && (s.guest != Running ==> s.pc < |ops|)
    ensures var due := Ideal(ops, mem, if s.guest == Running then s.pc else s.pc + 1).saved;
            && (AllSaved(cap, ops, mem, acts, s) ==> s.hist == PushAll(cap, due))
            && (|due| <= cap && s.hist == PushAll(cap, due) ==> AllSaved(cap, ops, mem, acts, s))
  {
    EveryRunIsRecorded(cap, ops, mem, acts);
    EveryRunIsAccounted(cap, ops, mem, acts);
    FrontierReached(s);
    PushAllLength(cap, Due(s.posts, s.snaps, |s.posts|));
  }

  lemma TimelyCopy(cap: nat, ops: seq<Op>, mem: Shared, acts: seq<Action>)
    requires cap > 0 && ValidOps(ops) && |mem.fb| == CELLS && NoTimeout(acts)
    ensures var r := Run(cap, ops, mem, acts); r.Some? && Enabled(ops, r.value, CopyCell) ==> CellIntact(r.value)
  {
    RunsInLockstep(cap, ops, mem, acts);
    var r := Run(cap, ops, mem, acts);
    if r.Some? && Enabled(ops, r.value, CopyCell) {
      LockstepCopies(cap, ops, mem, r.value);
    }
  }

  /** Without a timeout rows are copied while the guest waits. */
  lemma {:induction false} TimelyRunsCopyInTime(cap: nat, ops: seq<Op>, mem: Shared, acts: seq<Action>)
    requires cap > 0 && ValidOps(ops) && |mem.fb| == CELLS && NoTimeout(acts)
    ensures CopiedInTime(cap, ops, mem, acts)
  {
    if acts != [] {
      var n := |acts| - 1;
      TimelyRunsCopyInTime(cap, ops, mem, acts[..n]);
      TimelyCopy(cap, ops, mem, acts[..n]);
    }
  }

  lemma TimelyRunsSaveAll(cap: nat, ops: seq<Op>, mem: Shared, acts: seq<Action>, s: Sys)
    requires cap > 0 && ValidOps(ops) && |mem.fb| == CELLS && NoTimeout(acts)
    requires Run(cap, ops, mem, acts) == Some(s) && s.guest == Running
    ensures AllSaved(cap, ops, mem, acts, s)
  {
    RunsInLockstep(cap, ops, mem, acts);
    TimelyRunsCopyInTime(cap, ops, mem, acts);
  }

  lemma LockstepCopies(cap: nat, ops: seq<Op>, mem: Shared, s: Sys)
    requires cap > 0 && ValidOps(ops) && |mem.fb| == CELLS && |s.mem.fb| == CELLS
    requires Lockstep(cap, ops, mem, s) && Enabled(ops, s, CopyCell)
    ensures CellIntact(s)
  {
    assert s.seen[|s.seen| - 1] == |s.posts| - 1;
  }
}
