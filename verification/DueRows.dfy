/** The rows the host ought to have saved, recorded as the guest posts its scrollups. */
module DueRows {
  import opened Wrappers
  import opened Vga
  import opened GuestOps
  import opened Handshake
  import opened Delivery

  predicate Snaps(posts: seq<Update>, snaps: seq<Shared>) {
    |snaps| == |posts| && forall i :: 0 <= i < |snaps| ==> |snaps[i].fb| == CELLS
  }

  /** The rows that were at the top of the screen when the scrollups among the first n updates were
      posted. */
  function Due(posts: seq<Update>, snaps: seq<Shared>, n: nat): (rows: seq<Row>)
    requires Snaps(posts, snaps) && n <= |posts|
  {
    if n == 0 then []
    else Due(posts, snaps, n - 1) + if posts[n - 1] == Scrollup then [RowOf(snaps[n - 1].fb, 0)] else []
  }

  lemma {:induction false} DueOfPrefix(posts: seq<Update>, snaps: seq<Shared>, u: Update, m: Shared, n: nat)
    requires Snaps(posts, snaps) && |m.fb| == CELLS && n <= |posts|
    ensures Snaps(posts + [u], snaps + [m]) && Due(posts + [u], snaps + [m], n) == Due(posts, snaps, n)
  {
    if n > 0 {
      DueOfPrefix(posts, snaps, u, m, n - 1);
    }
  }

  lemma {:induction false} DueGrows(posts: seq<Update>, snaps: seq<Shared>, a: nat, b: nat)
    requires Snaps(posts, snaps) && a <= b <= |posts|
    ensures |Due(posts, snaps, a)| <= |Due(posts, snaps, b)|
    ensures (exists i :: a <= i < b && posts[i] == Scrollup) <==> |Due(posts, snaps, a)| < |Due(posts, snaps, b)|
    ensures (forall i :: a <= i < b ==> posts[i] != Scrollup) ==> Due(posts, snaps, a) == Due(posts, snaps, b)
  {
    if a < b {
      DueGrows(posts, snaps, a, b - 1);
    }
  }

  /** In every run the rows due are those that the guest, running alone, would have had saved. */
  ghost predicate Recorded(ops: seq<Op>, mem: Shared, s: Sys)
    requires ValidOps(ops) && |mem.fb| == CELLS
  {
    && Driven(ops, mem, s) && Snaps(s.posts, s.snaps)
    && Due(s.posts, s.snaps, |s.posts|) == Ideal(ops, mem, if s.guest == Running then s.pc else s.pc + 1).saved
  }

  lemma RecordedGuest(ops: seq<Op>, mem: Shared, s: Sys)
    requires ValidOps(ops) && |mem.fb| == CELLS && |s.mem.fb| == CELLS
    requires Recorded(ops, mem, s) && Enabled(ops, s, Guest)
    ensures Recorded(ops, mem, GuestStep(ops, s))
  {
    DrivenGuest(ops, mem, s);
    if s.guest == Running {
      IdealSnoc(ops, mem, s.pc);
      if ops[s.pc].Post? {
        RecordedPost(Ideal(ops, mem, s.pc), s.posts, s.snaps, ops[s.pc].update, s.mem);
      }
    }
  }

  lemma RecordedPost(w: World, posts: seq<Update>, snaps: seq<Shared>, u: Update, m: Shared)
    requires |w.fb| == CELLS && m.fb == w.fb && Snaps(posts, snaps) && Due(posts, snaps, |posts|) == w.saved
    requires u != NoUpdate
    ensures Snaps(posts + [u], snaps + [m])
    ensures Due(posts + [u], snaps + [m], |posts| + 1) == Apply(w, Post(u)).saved
  {
    DueOfPrefix(posts, snaps, u, m, |posts|);
  }

  lemma {:induction false} EveryRunIsRecorded(cap: nat, ops: seq<Op>, mem: Shared, acts: seq<Action>)
    requires cap > 0 && ValidOps(ops) && |mem.fb| == CELLS
    ensures var r := Run(cap, ops, mem, acts); r.Some? ==> Recorded(ops, mem, r.value)
  {
    if acts == [] {
      assert ops[..0] == [];
    } else {
      var n := |acts| - 1;
      EveryRunIsRecorded(cap, ops, mem, acts[..n]);
      var r := Run(cap, ops, mem, acts[..n]);
      if r.Some? && Enabled(ops, r.value, acts[n]) {
        if acts[n] == Guest {
          RecordedGuest(ops, mem, r.value);
        } else {
          DrivenStep(cap, ops, mem, r.value, acts[n]);
        }
      }
    }
  }
}
