/** The handshake between the Winky guest and the philix host, as two processes taking atomic steps
    over shared memory: the framebuffer and the registers AVAIL, DRAWN, CHAR and LINE. */
module Handshake {
  import opened Wrappers
  import opened Vga
  import opened GuestOps
  import opened History

  /** Running: about to perform op `pc`. Spinning: posted, reading DRAWN. Acking: saw DRAWN set. */
  datatype GuestPc = Running | Spinning | Acking

  /** Where the host is in its main loop. Handling a scrollup copies the top row cell by cell.
      Clearing and Drawing carry the update being acknowledged, NoUpdate on the timeout path. */
  datatype HostPc =
    | Polling
    | Handling(update: Update, copied: seq<Cell>)
    | Clearing(update: Update)
    | Drawing(update: Update)
    | Exited

  /** The shared memory a host that is handling an update can look at. */
  datatype Shared = Shared(fb: seq<Cell>, charReg: nat, lineReg: nat)

  /** `posts`, `seen`, `lost` and `snaps` record the run and influence nothing: the updates posted so
      far, the indices of those the host picked up, the indices of those overwritten unseen, and the
      shared memory as it was at the last post. While AVAIL is not NoUpdate it holds the last post. */
  datatype Sys = Sys(
    pc: nat, guest: GuestPc, mem: Shared, avail: Update, drawn: bool,
    host: HostPc, hist: seq<Row>,
    posts: seq<Update>, seen: seq<int>, lost: set<int>, snaps: seq<Shared>)

  datatype Action = Guest | Poll | Timeout | CopyCell | Finish | ClearAvail | SetDrawn

  function Start(mem: Shared): (s: Sys) {
    Sys(0, Running, mem, NoUpdate, false, Polling, [], [], [], {}, [])
  }

  /** AVAIL holds an update that the host has not picked up. */
  predicate Pending(s: Sys) {
    s.avail != NoUpdate && |s.posts| - 1 !in s.seen
  }

  /** The indices lost if AVAIL is overwritten now. */
  function Overwritten(s: Sys): (lost: set<int>) {
    if Pending(s) then {|s.posts| - 1} else {}
  }

  predicate Enabled(ops: seq<Op>, s: Sys, a: Action) {
    match a
    case Guest => s.guest != Running || s.pc < |ops|
    case Poll => s.host == Polling
    case Timeout => s.host == Polling && s.avail == NoUpdate
    case CopyCell => s.host.Handling? && s.host.update == Scrollup && |s.host.copied| < WIDTH
    case Finish => s.host.Handling? && (s.host.update == Scrollup ==> |s.host.copied| == WIDTH)
    case ClearAvail => s.host.Clearing?
    case SetDrawn => s.host.Drawing?
  }

  function GuestStep(ops: seq<Op>, s: Sys): (s': Sys)
    requires ValidOps(ops) && |s.mem.fb| == CELLS && Enabled(ops, s, Guest)
    ensures |s'.mem.fb| == CELLS
  {
    match s.guest
    case Spinning => if s.drawn then s.(guest := Acking) else s
    case Acking => s.(drawn := false, guest := Running, pc := s.pc + 1)
    case Running =>
      match ops[s.pc]
      case Store(at, cells) => s.(mem := s.mem.(fb := Overwrite(s.mem.fb, at, cells)), pc := s.pc + 1)
      case SetChar(coords) => s.(mem := s.mem.(charReg := coords), pc := s.pc + 1)
      case SetLine(row) => s.(mem := s.mem.(lineReg := row), pc := s.pc + 1)
      case Post(u) =>
        s.(avail := u, guest := Spinning, posts := s.posts + [u], lost := s.lost + Overwritten(s),
          snaps := s.snaps + [s.mem])
  }

  function HostStep(cap: nat, s: Sys, a: Action): (s': Sys)
    requires cap > 0 && |s.mem.fb| == CELLS && |s.hist| <= cap && a != Guest && Enabled([], s, a)
    ensures |s'.mem.fb| == CELLS && |s'.hist| <= cap
  {
    match a
    case Poll =>
      if s.avail == NoUpdate then s
      else if s.avail == Inval then s.(host := Exited, seen := s.seen + [|s.posts| - 1])
      else s.(host := Handling(s.avail, []), seen := s.seen + [|s.posts| - 1])
    case Timeout => s.(host := Clearing(NoUpdate))
    case CopyCell =>
      s.(host := Handling(Scrollup, s.host.copied + [s.mem.fb[|s.host.copied|]]))
    case Finish =>
      s.(host := Clearing(s.host.update), hist := Handled(cap, s.hist, s.host.update, s.host.copied))
    case ClearAvail =>
      s.(avail := NoUpdate, host := Drawing(s.host.update), lost := s.lost + Overwritten(s))
    case SetDrawn =>
      s.(drawn := true, host := if s.host.update == ConsoleShutdown then Exited else Polling)
  }

  function Step(cap: nat, ops: seq<Op>, s: Sys, a: Action): (s': Sys)
    requires cap > 0 && ValidOps(ops) && |s.mem.fb| == CELLS && |s.hist| <= cap && Enabled(ops, s, a)
    ensures |s'.mem.fb| == CELLS && |s'.hist| <= cap
  {
    if a == Guest then GuestStep(ops, s) else HostStep(cap, s, a)
  }

  /** Where a schedule leads, if every action in it is enabled when its turn comes. */
  function Run(cap: nat, ops: seq<Op>, mem: Shared, acts: seq<Action>): (r: Option<Sys>)
    requires cap > 0 && ValidOps(ops) && |mem.fb| == CELLS
    ensures r.Some? ==> |r.value.mem.fb| == CELLS && |r.value.hist| <= cap
  {
    if acts == [] then Some(Start(mem))
    else
      var n := |acts| - 1;
      match Run(cap, ops, mem, acts[..n])
      case None => None
      case Some(s) => if Enabled(ops, s, acts[n]) then Some(Step(cap, ops, s, acts[n])) else None
  }

  /** The updates posted by a program. */
  function Posts(ops: seq<Op>): (us: seq<Update>) {
    if ops == [] then []
    else
      var n := |ops| - 1;
      Posts(ops[..n]) + if ops[n].Post? then [ops[n].update] else []
  }
}
