/** inky/include/barrelfish/ump_impl.h: the UMP ring. A slot's epoch bit says whether the message in it
    belongs to the current round; there are no shared counters. */
module Ump {
  import opened Wrappers

  const MSG_BYTES: nat := 64
  const CACHELINE_BYTES: nat := 64
  const PAYLOAD_WORDS: nat := 7
  const INDEX_LIMIT: nat := 0x1_0000

  type Payload = d: seq<nat> | |d| == PAYLOAD_WORDS witness [0, 0, 0, 0, 0, 0, 0]

  datatype Slot = Slot(data: Payload, epoch: bool, header: nat)
  datatype Direction = Outgoing | Incoming
  datatype InitResult = Ok | BufsizeInvalid | BufaddrInvalid

  // ---- one end of a channel --------------------------------------------------------------------

  datatype End = End(pos: nat, epoch: bool)

  /** The next slot; going round, the other epoch. */
  function Advance(n: nat, e: End): (e': End)
    requires e.pos < n
    ensures e'.pos < n
  {
    if e.pos + 1 == n then End(0, !e.epoch) else End(e.pos + 1, e.epoch)
  }

  /** The whole header word zeroed, epoch bit included. */
  function Cleared(s: Slot): (s': Slot) {
    s.(epoch := false, header := 0)
  }

  class UmpChan {
    var buf: array?<Slot>
    var pos: nat
    var bufmsgs: nat
    var epoch: bool
    var dir: Direction

    ghost predicate Valid()
      reads this
    {
      buf != null && pos < bufmsgs <= buf.Length && bufmsgs < INDEX_LIMIT
    }

    function TheEnd(): (e: End)
      reads this
    {
      End(pos, epoch)
    }

    constructor ()
    {
      buf, pos, bufmsgs, epoch, dir := null, 0, 0, false, Outgoing;
    }

    /** `size` is in bytes and `addr` is the address of `b`. bufmsgs is a uint16_t, so a buffer of a
        multiple of 65536 messages is accepted but leaves a channel with no slots. */
    method Init(b: array?<Slot>, addr: nat, size: nat, d: Direction) returns (r: InitResult)
      requires b != null ==> size / MSG_BYTES <= b.Length
      modifies this, b
      ensures r == if size == 0 || size % MSG_BYTES != 0 then BufsizeInvalid
                   else if b == null || addr % CACHELINE_BYTES != 0 then BufaddrInvalid else Ok
      ensures r == Ok ==> buf == b && TheEnd() == End(0, true) && dir == d
      ensures r == Ok ==> bufmsgs == size / MSG_BYTES % INDEX_LIMIT
      ensures r == Ok ==> (Valid() <==> size / MSG_BYTES % INDEX_LIMIT != 0)
      ensures r == Ok ==> forall i :: 0 <= i < b.Length ==>
                b[i] == if d == Incoming && i < bufmsgs then Slot(old(b[i]).data, false, 0) else old(b[i])
      ensures r != Ok && b != null ==> b[..] == old(b[..])
    {
      if size == 0 || size % MSG_BYTES != 0 {
        return BufsizeInvalid;
      }
      if b == null || addr % CACHELINE_BYTES != 0 {
        return BufaddrInvalid;
      }
      pos, buf, dir := 0, b, d;
      bufmsgs := size / MSG_BYTES % INDEX_LIMIT;
      epoch := true;
      if d == Incoming {
        var i := 0;
        while i < bufmsgs
          invariant 0 <= i <= bufmsgs && bufmsgs == size / MSG_BYTES % INDEX_LIMIT <= b.Length
          invariant buf == b && TheEnd() == End(0, true) && dir == d
          invariant forall k :: 0 <= k < b.Length ==>
                      b[k] == if k < i then Cleared(old(b[k])) else old(b[k])
        {
          b[i] := Cleared(b[i]);
          i := i + 1;
        }
      }
      r := Ok;
    }

    /** The slot of the next message, if it has been published. */
    method Poll() returns (r: Option<nat>)
      requires Valid() && dir == Incoming
      ensures r == if buf[pos].epoch == epoch then Some(pos) else None
    {
      if buf[pos].epoch == epoch {
        r := Some(pos);
      } else {
        r := None;
      }
    }

    method Recv() returns (r: Option<nat>)
      requires Valid() && dir == Incoming
      modifies this`pos, this`epoch
      ensures Valid()
      ensures r == if buf[old(pos)].epoch == old(epoch) then Some(old(pos)) else None
      ensures TheEnd() == if r.Some? then Advance(bufmsgs, old(TheEnd())) else old(TheEnd())
    {
      r := Poll();
      if r.Some? {
        pos := pos + 1;
        if pos == bufmsgs {
          pos := 0;
          epoch := !epoch;
        }
      }
    }

    /** Reserve the next outgoing slot. The caller fills it in and then writes the header with `ctrl`
        as its epoch bit. */
    method GetNext() returns (slot: nat, ctrl: bool)
      requires Valid() && dir == Outgoing
      modifies this`pos, this`epoch
      ensures Valid()
      ensures slot == old(pos) && ctrl == old(epoch)
      ensures TheEnd() == Advance(bufmsgs, old(TheEnd()))
    {
      ctrl := epoch;
      slot := pos;
      pos := pos + 1;
      if pos == bufmsgs {
        pos := 0;
        epoch := !epoch;
      }
    }
  }

  // ---- where message k goes ----------------------------------------------------------------------

  /** The state of an end after k messages. */
  function EndAt(n: nat, k: nat): (e: End)
    requires n > 0
    ensures e.pos < n
  {
    if k == 0 then End(0, true) else Advance(n, EndAt(n, k - 1))
  }

  /** d messages later, for less than a round. */
  lemma {:induction false} EndLater(n: nat, k: nat, d: nat)
    requires n > 0 && d < n
    ensures var e := EndAt(n, k);
            EndAt(n, k + d) == if e.pos + d < n then End(e.pos + d, e.epoch) else End(e.pos + d - n, !e.epoch)
  {
    if d > 0 {
      EndLater(n, k, d - 1);
    }
  }

  /** One round later: the same slot, the other epoch. */
  lemma NextRound(n: nat, k: nat)
    requires n > 0
    ensures EndAt(n, k + n) == End(EndAt(n, k).pos, !EndAt(n, k).epoch)
  {
    EndLater(n, k, n - 1);
  }

  /** Messages less than a round apart are in different slots. */
  lemma DifferentSlots(n: nat, a: nat, b: nat)
    requires n > 0 && a < b < a + n
    ensures EndAt(n, a).pos != EndAt(n, b).pos
  {
    EndLater(n, a, b - a);
  }

  // ---- sender and receiver, interleaved ------------------------------------------------------------

  datatype Msg = Msg(data: Payload, header: nat)

  /** The message in a slot. */
  function SlotMsg(s: Slot): (m: Msg) {
    Msg(s.data, s.header)
  }

  /** What get_next handed out: a slot and the epoch bit to publish with. */
  datatype Ticket = Ticket(slot: nat, ctrl: bool)

  /** Messages are numbered in the order they were reserved. `published`, `sent` and `delivered`
      record the run. */
  datatype Chan = Chan(
    slots: seq<Slot>, sender: End, receiver: End,
    tickets: seq<Ticket>, received: nat,
    published: set<nat>, sent: map<nat, Msg>, delivered: seq<Msg>)

  /** A sender may hold several tickets, fill their slots word by word in any order, and publish them in
      any order. */
  datatype Step = Reserve | Write(k: nat, word: nat, value: nat) | Publish(k: nat, header: nat) | Receive

  function Start(slots: seq<Slot>): (c: Chan) {
    Chan(slots, End(0, true), End(0, true), [], 0, {}, map[], [])
  }

  predicate WellFormed(c: Chan) {
    && c.slots != [] && c.sender.pos < |c.slots| && c.receiver.pos < |c.slots|
    && forall k :: 0 <= k < |c.tickets| ==> c.tickets[k].slot < |c.slots|
  }

  /** poll is not NULL. */
  predicate Ready(c: Chan)
    requires WellFormed(c)
  {
    c.slots[c.receiver.pos].epoch == c.receiver.epoch
  }

  /** Reserving is allowed while fewer than bufmsgs messages are reserved and not received: the flow
      control that the channel's users provide. */
  predicate Enabled(c: Chan, s: Step) {
    match s
    case Reserve => |c.tickets| < c.received + |c.slots|
    case Write(k, w, _) => k < |c.tickets| && k !in c.published && w < PAYLOAD_WORDS
    case Publish(k, _) => k < |c.tickets| && k !in c.published
    case Receive => true
  }

  function Do(c: Chan, s: Step): (c': Chan)
    requires WellFormed(c) && Enabled(c, s)
    ensures WellFormed(c') && |c'.slots| == |c.slots|
  {
    match s
    case Reserve =>
      c.(sender := Advance(|c.slots|, c.sender),
         tickets := c.tickets + [Ticket(c.sender.pos, c.sender.epoch)])
    case Write(k, w, v) =>
      var j := c.tickets[k].slot;
      c.(slots := c.slots[j := c.slots[j].(data := c.slots[j].data[w := v])])
    case Publish(k, h) =>
      var j := c.tickets[k].slot;
      c.(slots := c.slots[j := c.slots[j].(epoch := c.tickets[k].ctrl, header := h)],
         published := c.published + {k}, sent := c.sent[k := Msg(c.slots[j].data, h)])
    case Receive =>
      if Ready(c) then
        var slot := c.slots[c.receiver.pos];
        c.(receiver := Advance(|c.slots|, c.receiver), received := c.received + 1,
           delivered := c.delivered + [SlotMsg(slot)])
      else c
  }

  function Run(slots: seq<Slot>, steps: seq<Step>): (r: Option<Chan>)
    requires slots != []
    ensures r.Some? ==> WellFormed(r.value) && |r.value.slots| == |slots|
  {
    if steps == [] then Some(Start(slots))
    else
      var n := |steps| - 1;
      match Run(slots, steps[..n])
      case None => None
      case Some(c) => if Enabled(c, steps[n]) then Some(Do(c, steps[n])) else None
  }

  // ---- the invariant -------------------------------------------------------------------------------

  ghost predicate Ends(c: Chan)
    requires WellFormed(c)
  {
    var n, r := |c.slots|, |c.tickets|;
    && c.received <= r <= c.received + n
    && c.sender == EndAt(n, r) && c.receiver == EndAt(n, c.received)
    && (forall k :: 0 <= k < r ==> c.tickets[k] == Ticket(EndAt(n, k).pos, EndAt(n, k).epoch))
  }

  ghost predicate Books(c: Chan) {
    && (forall k :: k in c.published ==> k < |c.tickets|)
    && (forall k :: 0 <= k < c.received ==> k in c.published)
    && c.sent.Keys == c.published
    && |c.delivered| == c.received
    && (forall k :: 0 <= k < c.received ==> k in c.sent && c.delivered[k] == c.sent[k])
  }

  /** Of the messages that can still be waiting, exactly the published ones show their epoch. */
  ghost predicate Epochs(c: Chan)
    requires WellFormed(c)
  {
    var n := |c.slots|;
    forall k :: c.received <= k < c.received + n ==>
      (c.slots[EndAt(n, k).pos].epoch == EndAt(n, k).epoch <==> k in c.published)
  }

  /** A published message stays in its slot until the slot is reserved again. */
  ghost predicate Contents(c: Chan)
    requires WellFormed(c)
  {
    var n := |c.slots|;
    forall k :: k in c.published && k in c.sent && |c.tickets| <= k + n ==>
      c.slots[EndAt(n, k).pos].data == c.sent[k].data && c.slots[EndAt(n, k).pos].header == c.sent[k].header
  }

  ghost predicate Inv(c: Chan) {
    WellFormed(c) && Ends(c) && Books(c) && Epochs(c) && Contents(c)
  }

  lemma InvStart(slots: seq<Slot>)
    requires slots != [] && forall i :: 0 <= i < |slots| ==> !slots[i].epoch
    ensures Inv(Start(slots))
  {
    forall k: nat | k < |slots| ensures EndAt(|slots|, k).epoch {
      EndLater(|slots|, 0, k);
    }
  }

  lemma InvWrite(c: Chan, k: nat, w: nat, v: nat)
    requires Inv(c) && Enabled(c, Write(k, w, v))
    ensures Inv(Do(c, Write(k, w, v)))
  {
    var c', n := Do(c, Write(k, w, v)), |c.slots|;
    var j := EndAt(n, k).pos;
    assert c.tickets[k].slot == j && k >= c.received;
    forall i | i in c.published && |c.tickets| <= i + n
      ensures c'.slots[EndAt(n, i).pos] == c.slots[EndAt(n, i).pos]
    {
      SlotsApart(n, i, k);
    }
    assert forall i :: 0 <= i < n ==> c'.slots[i].epoch == c.slots[i].epoch;
  }

  lemma SlotsApart(n: nat, i: nat, k: nat)
    requires n > 0 && i != k && i < k + n && k < i + n
    ensures EndAt(n, i).pos != EndAt(n, k).pos
  {
    if i < k {
      DifferentSlots(n, i, k);
    } else {
      DifferentSlots(n, k, i);
    }
  }

  /** Publishing k touches no slot of a message that is within a round of k. */
  lemma PublishElsewhere(c: Chan, k: nat, h: nat, i: nat)
    requires Inv(c) && Enabled(c, Publish(k, h)) && i != k && i < k + |c.slots| && k < i + |c.slots|
    ensures Do(c, Publish(k, h)).slots[EndAt(|c.slots|, i).pos] == c.slots[EndAt(|c.slots|, i).pos]
  {
    assert c.tickets[k] == Ticket(EndAt(|c.slots|, k).pos, EndAt(|c.slots|, k).epoch);
    SlotsApart(|c.slots|, i, k);
  }

  lemma PublishEpochs(c: Chan, k: nat, h: nat)
    requires Inv(c) && Enabled(c, Publish(k, h))
    ensures Epochs(Do(c, Publish(k, h)))
  {
    var c', n := Do(c, Publish(k, h)), |c.slots|;
    assert c.tickets[k] == Ticket(EndAt(n, k).pos, EndAt(n, k).epoch);
    forall i | c.received <= i < c.received + n
      ensures c'.slots[EndAt(n, i).pos].epoch == EndAt(n, i).epoch <==> i in c'.published
    {
      if i != k {
        PublishElsewhere(c, k, h, i);
      }
    }
  }

  lemma PublishContents(c: Chan, k: nat, h: nat)
    requires Inv(c) && Enabled(c, Publish(k, h))
    ensures Contents(Do(c, Publish(k, h)))
  {
    var c', n := Do(c, Publish(k, h)), |c.slots|;
    assert c.tickets[k] == Ticket(EndAt(n, k).pos, EndAt(n, k).epoch);
    forall i | i in c'.published && i in c'.sent && |c.tickets| <= i + n
      ensures c'.slots[EndAt(n, i).pos].data == c'.sent[i].data && c'.slots[EndAt(n, i).pos].header == c'.sent[i].header
    {
      if i != k {
        PublishElsewhere(c, k, h, i);
      }
    }
  }

  lemma ReceiveEpochs(c: Chan)
    requires Inv(c) && Ready(c)
    ensures Epochs(Do(c, Receive))
  {
    var n, k := |c.slots|, c.received;
    NextRound(n, k);
    assert k in c.published && k + n !in c.published;
  }

  /** Every interleaving, from a ring whose headers the receiver has cleared. */
  lemma {:induction false} EveryRun(slots: seq<Slot>, steps: seq<Step>)
    requires slots != [] && forall i :: 0 <= i < |slots| ==> !slots[i].epoch
    ensures var r := Run(slots, steps); r.Some? ==> Inv(r.value)
  {
    if steps == [] {
      InvStart(slots);
    } else {
      var n := |steps| - 1;
      EveryRun(slots, steps[..n]);
      var r := Run(slots, steps[..n]);
      if r.Some? && Enabled(r.value, steps[n]) {
        FifoStep(r.value, steps[n]);
      }
    }
  }

  // ---- the bounded FIFO it implements ----------------------------------------------------------------

  /** The first number from k on that is not published. */
  function Gap(published: set<nat>, k: nat, limit: nat): (g: nat)
    requires k <= limit
    ensures k <= g <= limit
    ensures forall i :: k <= i < g ==> i in published
    ensures g < limit ==> g !in published
    decreases limit - k
  {
    if k < limit && k in published then Gap(published, k + 1, limit) else k
  }

  /** The messages ready to be received: published, with every earlier one published too. */
  function Queue(c: Chan): (q: seq<Msg>)
    requires c.received <= |c.tickets| && c.sent.Keys == c.published
  {
    var g := Gap(c.published, c.received, |c.tickets|);
    seq(g - c.received, i requires 0 <= i < g - c.received => c.sent[c.received + i])
  }

  /** In every run: poll succeeds exactly when the next message is published, which is when the queue is
      not empty; at most bufmsgs messages wait; and what was delivered and what waits are, in order, the
      first messages sent. */
  lemma Fifo(slots: seq<Slot>, steps: seq<Step>, c: Chan)
    requires slots != [] && forall i :: 0 <= i < |slots| ==> !slots[i].epoch
    requires Run(slots, steps) == Some(c)
    ensures Ready(c) <==> c.received in c.published
    ensures c.received <= |c.tickets| && c.sent.Keys == c.published
    ensures Ready(c) <==> Queue(c) != []
    ensures |Queue(c)| <= |slots|
    ensures |c.delivered| == c.received
    ensures forall k :: 0 <= k < c.received ==> k in c.sent && c.delivered[k] == c.sent[k]
    ensures forall k :: 0 <= k < |Queue(c)| ==> c.received + k in c.sent && Queue(c)[k] == c.sent[c.received + k]
  {
    EveryRun(slots, steps);
    QueueFacts(c);
  }

  lemma QueueFacts(c: Chan)
    requires Inv(c)
    ensures Ready(c) <==> c.received in c.published
    ensures c.received <= |c.tickets| && c.sent.Keys == c.published
    ensures c.received in c.published <==> Queue(c) != []
    ensures |Queue(c)| <= |c.slots|
    ensures forall k :: 0 <= k < c.received ==> k in c.sent && c.delivered[k] == c.sent[k]
    ensures forall k :: 0 <= k < |Queue(c)| ==> c.received + k in c.sent && Queue(c)[k] == c.sent[c.received + k]
  {
    assert c.received in c.published ==> c.received < |c.tickets|;
  }

  lemma FifoReceive(c: Chan)
    requires Inv(c)
    ensures Inv(Do(c, Receive))
    ensures var c' := Do(c, Receive); var q, q' := Queue(c), Queue(c');
            if q == [] then c' == c else c'.delivered == c.delivered + [q[0]] && q' == q[1..]
  {
    QueueFacts(c);
    if Queue(c) != [] {
      ReceiveEpochs(c);
      HeadIntact(c);
      QueueTail(c, Do(c, Receive));
    }
  }

  lemma QueueTail(c: Chan, c': Chan)
    requires c.received < |c.tickets| == |c'.tickets| && c.sent.Keys == c.published
    requires c'.received == c.received + 1 && c'.sent == c.sent && c'.published == c.published && Queue(c) != []
    ensures Queue(c') == Queue(c)[1..]
  {
    var g := Gap(c.published, c.received, |c.tickets|);
    GapUnique(c.published, c.received + 1, |c.tickets|, g);
  }

  /** What poll points at is the message at the head of the queue. */
  lemma HeadIntact(c: Chan)
    requires Inv(c) && c.received in c.published && c.received in c.sent
    ensures SlotMsg(c.slots[c.receiver.pos]) == c.sent[c.received]
  {
  }

  lemma FifoPublish(c: Chan, k: nat, h: nat)
    requires Inv(c) && Enabled(c, Publish(k, h))
    ensures Inv(Do(c, Publish(k, h)))
    ensures var c' := Do(c, Publish(k, h)); var q, q' := Queue(c), Queue(c');
            q <= q' && c'.delivered == c.delivered && (q < q' <==> k == c.received + |q|)
  {
    PublishEpochs(c, k, h);
    PublishContents(c, k, h);
    var c', g := Do(c, Publish(k, h)), Gap(c.published, c.received, |c.tickets|);
    QueueFacts(c);
    QueueGrows(c, c', k, g);
  }

  lemma QueueGrows(c: Chan, c': Chan, k: nat, g: nat)
    requires c.received <= |c.tickets| == |c'.tickets| && c.sent.Keys == c.published && c'.sent.Keys == c'.published
    requires c'.received == c.received && c'.published == c.published + {k} && k !in c.published && k < |c.tickets|
    requires forall i :: i in c.sent ==> i in c'.sent && c'.sent[i] == c.sent[i]
    requires g == Gap(c.published, c.received, |c.tickets|)
    ensures Queue(c) <= Queue(c') && (Queue(c) < Queue(c') <==> k == g)
  {
    if k == g {
      GapAtLeast(c'.published, c.received, |c.tickets|, g + 1);
    } else {
      GapUnique(c'.published, c.received, |c.tickets|, g);
    }
  }

  lemma QueueKept(c: Chan, c': Chan)
    requires c.received <= |c.tickets| && |c'.tickets| == |c.tickets| + 1 && c.sent.Keys == c.published
    requires c'.received == c.received && c'.sent == c.sent && c'.published == c.published
    requires |c.tickets| !in c.published
    ensures Queue(c') == Queue(c)
  {
    GapUnique(c.published, c.received, |c.tickets| + 1, Gap(c.published, c.received, |c.tickets|));
  }

  lemma FifoReserve(c: Chan)
    requires Inv(c) && Enabled(c, Reserve)
    ensures Inv(Do(c, Reserve)) && Queue(Do(c, Reserve)) == Queue(c)
  {
    QueueKept(c, Do(c, Reserve));
  }

  /** Receiving takes the head of that queue, publishing extends it at the end (exactly when the
      message is the one it was waiting for), and nothing else changes it. */
  lemma FifoStep(c: Chan, s: Step)
    requires Inv(c) && Enabled(c, s)
    ensures Inv(Do(c, s))
    ensures var c' := Do(c, s); var q, q' := Queue(c), Queue(c');
            match s
            case Receive => if q == [] then c' == c else c'.delivered == c.delivered + [q[0]] && q' == q[1..]
            case Publish(k, h) => q <= q' && c'.delivered == c.delivered && (q < q' <==> k == c.received + |q|)
            case _ => q' == q && c'.delivered == c.delivered
  {
    match s
    case Receive => FifoReceive(c);
    case Publish(k, h) => FifoPublish(c, k, h);
    case Reserve => FifoReserve(c);
    case Write(k, w, v) => InvWrite(c, k, w, v);
  }

  lemma {:induction false} GapUnique(published: set<nat>, k: nat, limit: nat, g: nat)
    requires k <= g <= limit && (forall i :: k <= i < g ==> i in published) && (g == limit || g !in published)
    ensures Gap(published, k, limit) == g
    decreases limit - k
  {
    if k < g {
      GapUnique(published, k + 1, limit, g);
    }
  }

  lemma {:induction false} GapAtLeast(published: set<nat>, k: nat, limit: nat, g: nat)
    requires k <= g <= limit && (forall i :: k <= i < g ==> i in published)
    ensures g <= Gap(published, k, limit)
    decreases limit - k
  {
    if k < g {
      GapAtLeast(published, k + 1, limit, g);
    }
  }

  /** Why the flow control is there: if the sender took the next slot and published in it at once, poll
      would go on seeing the waiting message exactly when fewer than bufmsgs messages are outstanding.
      One too many, and the message is hidden. */
  lemma FlowControlIff(c: Chan, header: nat)
    requires Inv(c) && c.received in c.published
    ensures var j := c.sender.pos;
            var c' := c.(slots := c.slots[j := c.slots[j].(epoch := c.sender.epoch, header := header)]);
            Ready(c') <==> |c.tickets| < c.received + |c.slots|
  {
    var n, k := |c.slots|, |c.tickets|;
    assert Ready(c);
    if k < c.received + n {
      DifferentSlots(n, c.received, k);
    } else {
      NextRound(n, c.received);
    }
  }

  /** A message the receiver still holds a pointer to is intact until its slot is reserved again. */
  lemma HeldMessageIntact(c: Chan, k: nat)
    requires Inv(c) && k < c.received && |c.tickets| <= k + |c.slots|
    ensures SlotMsg(c.slots[EndAt(|c.slots|, k).pos]) == c.delivered[k]
  {
  }

  // ---- what is in a message --------------------------------------------------------------------------

  /** The last value written to word w of message k. */
  function LastWrite(steps: seq<Step>, k: nat, w: nat): (value: Option<nat>) {
    if steps == [] then None
    else
      var last := steps[|steps| - 1];
      if last.Write? && last.k == k && last.word == w then Some(last.value)
      else LastWrite(steps[..|steps| - 1], k, w)
  }

  /** The header message k was published with. */
  function HeaderOf(steps: seq<Step>, k: nat): (header: Option<nat>) {
    if steps == [] then None
    else
      var last := steps[|steps| - 1];
      if last.Publish? && last.k == k then Some(last.header) else HeaderOf(steps[..|steps| - 1], k)
  }

  /** What the slot of message k held when it was handed out. */
  function HandedOut(slots: seq<Slot>, steps: seq<Step>, k: nat): (data: Option<Payload>)
    requires slots != []
  {
    if steps == [] then None
    else
      var front, last := steps[..|steps| - 1], steps[|steps| - 1];
      var before := Run(slots, front);
      if last == Reserve && before.Some? && |before.value.tickets| == k then
        Some(before.value.slots[before.value.sender.pos].data)
      else HandedOut(slots, front, k)
  }

  /** Each word is the last value written to it, or else as it was handed out. */
  predicate SameWords(slots: seq<Slot>, steps: seq<Step>, k: nat, data: Payload)
    requires slots != []
  {
    && HandedOut(slots, steps, k).Some?
    && forall w: nat :: w < PAYLOAD_WORDS ==>
         data[w] == match LastWrite(steps, k, w) case Some(v) => v case None => HandedOut(slots, steps, k).value[w]
  }

  /** What is in the slots still being filled, and what has been published. */
  ghost predicate Filled(slots: seq<Slot>, steps: seq<Step>, c: Chan)
    requires slots != [] && WellFormed(c)
  {
    && (forall k: nat, w: nat :: k >= |c.tickets| ==> LastWrite(steps, k, w) == None)
    && (forall k :: 0 <= k < |c.tickets| && k !in c.published ==>
          SameWords(slots, steps, k, c.slots[c.tickets[k].slot].data))
    && (forall k :: k in c.sent ==>
          SameWords(slots, steps, k, c.sent[k].data) && HeaderOf(steps, k) == Some(c.sent[k].header))
  }

  lemma RecordsAfter(slots: seq<Slot>, steps: seq<Step>, s: Step, c: Chan)
    requires slots != [] && Run(slots, steps) == Some(c)
    ensures forall k: nat, w: nat ::
              LastWrite(steps + [s], k, w)
              == if s.Write? && s.k == k && s.word == w then Some(s.value) else LastWrite(steps, k, w)
    ensures forall k: nat ::
              HeaderOf(steps + [s], k) == if s.Publish? && s.k == k then Some(s.header) else HeaderOf(steps, k)
    ensures forall k: nat ::
              HandedOut(slots, steps + [s], k)
              == if s == Reserve && |c.tickets| == k then Some(c.slots[c.sender.pos].data)
                 else HandedOut(slots, steps, k)
  {
    assert (steps + [s])[..|steps|] == steps;
  }

  lemma FilledReserve(slots: seq<Slot>, steps: seq<Step>, c: Chan)
    requires slots != [] && Run(slots, steps) == Some(c) && Inv(c) && Filled(slots, steps, c) && Enabled(c, Reserve)
    ensures Filled(slots, steps + [Reserve], Do(c, Reserve))
  {
    RecordsAfter(slots, steps, Reserve, c);
  }

  lemma FilledWrite(slots: seq<Slot>, steps: seq<Step>, c: Chan, k: nat, w: nat, v: nat)
    requires slots != [] && Run(slots, steps) == Some(c) && Inv(c) && Filled(slots, steps, c)
    requires Enabled(c, Write(k, w, v))
    ensures Filled(slots, steps + [Write(k, w, v)], Do(c, Write(k, w, v)))
  {
    RecordsAfter(slots, steps, Write(k, w, v), c);
    forall i | 0 <= i < |c.tickets| && i !in c.published && i != k ensures c.tickets[i].slot != c.tickets[k].slot {
      SlotsApart(|c.slots|, i, k);
    }
  }

  lemma FilledPublish(slots: seq<Slot>, steps: seq<Step>, c: Chan, k: nat, h: nat)
    requires slots != [] && Run(slots, steps) == Some(c) && Inv(c) && Filled(slots, steps, c)
    requires Enabled(c, Publish(k, h))
    ensures Filled(slots, steps + [Publish(k, h)], Do(c, Publish(k, h)))
  {
    RecordsAfter(slots, steps, Publish(k, h), c);
  }

  lemma FilledReceive(slots: seq<Slot>, steps: seq<Step>, c: Chan)
    requires slots != [] && Run(slots, steps) == Some(c) && Inv(c) && Filled(slots, steps, c)
    ensures Filled(slots, steps + [Receive], Do(c, Receive))
  {
    RecordsAfter(slots, steps, Receive, c);
  }

  lemma {:induction false} EveryRunIsFilled(slots: seq<Slot>, steps: seq<Step>)
    requires slots != [] && forall i :: 0 <= i < |slots| ==> !slots[i].epoch
    ensures var r := Run(slots, steps); r.Some? ==> Filled(slots, steps, r.value)
  {
    if steps != [] {
      var n := |steps| - 1;
      var front, s := steps[..n], steps[n];
      EveryRun(slots, front);
      EveryRunIsFilled(slots, front);
      var r := Run(slots, front);
      assert steps == front + [s];
      if r.Some? && Enabled(r.value, s) {
        match s
        case Reserve => FilledReserve(slots, front, r.value);
        case Write(k, w, v) => FilledWrite(slots, front, r.value, k, w, v);
        case Publish(k, h) => FilledPublish(slots, front, r.value, k, h);
        case Receive => FilledReceive(slots, front, r.value);
      }
    }
  }

  /** Step i is the last write to word w of message k. */
  predicate IsLastWrite(steps: seq<Step>, i: nat, k: nat, w: nat, v: nat) {
    && i < |steps| && steps[i] == Write(k, w, v)
    && forall j :: i < j < |steps| ==> !(steps[j].Write? && steps[j].k == k && steps[j].word == w)
  }

  lemma {:induction false} LastWriteIs(steps: seq<Step>, i: nat, k: nat, w: nat, v: nat)
    requires IsLastWrite(steps, i, k, w, v)
    ensures LastWrite(steps, k, w) == Some(v)
  {
    if i < |steps| - 1 {
      LastWriteIs(steps[..|steps| - 1], i, k, w, v);
    }
  }

  lemma {:induction false} NeverWritten(steps: seq<Step>, k: nat, w: nat)
    requires NeverWrites(steps, k, w)
    ensures LastWrite(steps, k, w) == None
  {
    if steps != [] {
      NeverWritten(steps[..|steps| - 1], k, w);
    }
  }

  /** A message is published once. */
  lemma {:induction false} HeaderIs(slots: seq<Slot>, steps: seq<Step>, c: Chan, i: nat)
    requires slots != [] && Run(slots, steps) == Some(c) && i < |steps| && steps[i].Publish?
    ensures steps[i].k in c.published && HeaderOf(steps, steps[i].k) == Some(steps[i].header)
  {
    var n := |steps| - 1;
    if i < n {
      HeaderIs(slots, steps[..n], Run(slots, steps[..n]).value, i);
    }
  }

  /** A slot is handed out for a message once. */
  lemma {:induction false} HandedOutIs(slots: seq<Slot>, steps: seq<Step>, c: Chan, i: nat) returns (at: Chan)
    requires slots != [] && Run(slots, steps) == Some(c) && i < |steps| && steps[i] == Reserve
    ensures Run(slots, steps[..i]) == Some(at) && |at.tickets| < |c.tickets|
    ensures HandedOut(slots, steps, |at.tickets|) == Some(at.slots[at.sender.pos].data)
  {
    var n := |steps| - 1;
    if i < n {
      at := HandedOutIs(slots, steps[..n], Run(slots, steps[..n]).value, i);
      assert steps[..n][..i] == steps[..i];
    } else {
      at := Run(slots, steps[..n]).value;
    }
  }

  predicate NeverWrites(steps: seq<Step>, k: nat, w: nat) {
    forall j :: 0 <= j < |steps| ==> !(steps[j].Write? && steps[j].k == k && steps[j].word == w)
  }

  lemma DeliveredIsSent(slots: seq<Slot>, steps: seq<Step>, c: Chan, k: nat)
    requires slots != [] && forall i :: 0 <= i < |slots| ==> !slots[i].epoch
    requires Run(slots, steps) == Some(c) && k < c.received
    ensures |c.delivered| == c.received && SameWords(slots, steps, k, c.delivered[k].data)
    ensures HeaderOf(steps, k) == Some(c.delivered[k].header)
  {
    EveryRun(slots, steps);
    EveryRunIsFilled(slots, steps);
    assert c.delivered[k] == c.sent[k];
  }

  /** In every run, what is delivered is what was sent: a word of the k-th message received is what its
      sender wrote there last, and its header is the one it was published with. */
  lemma DeliveredAsWritten(slots: seq<Slot>, steps: seq<Step>, c: Chan, k: nat)
    requires slots != [] && forall i :: 0 <= i < |slots| ==> !slots[i].epoch
    requires Run(slots, steps) == Some(c) && k < c.received
    ensures |c.delivered| == c.received
    ensures forall i: nat, w: nat, v: nat ::
              w < PAYLOAD_WORDS && IsLastWrite(steps, i, k, w, v) ==> c.delivered[k].data[w] == v
    ensures forall i :: 0 <= i < |steps| && steps[i].Publish? && steps[i].k == k ==>
              c.delivered[k].header == steps[i].header
  {
    DeliveredIsSent(slots, steps, c, k);
    forall i: nat, w: nat, v: nat | w < PAYLOAD_WORDS && IsLastWrite(steps, i, k, w, v)
      ensures c.delivered[k].data[w] == v
    {
      LastWriteIs(steps, i, k, w, v);
    }
    forall i | 0 <= i < |steps| && steps[i].Publish? && steps[i].k == k
      ensures c.delivered[k].header == steps[i].header
    {
      HeaderIs(slots, steps, c, i);
    }
  }

  /** And a word its sender never wrote is what the slot held when step i handed it out for the message. */
  lemma DeliveredAsHandedOut(slots: seq<Slot>, steps: seq<Step>, c: Chan, i: nat, w: nat) returns (at: Chan)
    requires slots != [] && forall i :: 0 <= i < |slots| ==> !slots[i].epoch
    requires Run(slots, steps) == Some(c) && i < |steps| && steps[i] == Reserve && w < PAYLOAD_WORDS
    ensures Run(slots, steps[..i]) == Some(at) && |c.delivered| == c.received
    ensures |at.tickets| < c.received && NeverWrites(steps, |at.tickets|, w) ==>
              c.delivered[|at.tickets|].data[w] == at.slots[at.sender.pos].data[w]
  {
    EveryRun(slots, steps);
    at := HandedOutIs(slots, steps, c, i);
    if |at.tickets| < c.received && NeverWrites(steps, |at.tickets|, w) {
      DeliveredIsSent(slots, steps, c, |at.tickets|);
      NeverWritten(steps, |at.tickets|, w);
    }
  }

  // ---- the class does the steps --------------------------------------------------------------------

  /** Two ends on one buffer are in the state `c` of the machine. */
  ghost predicate Represents(c: Chan, snd: UmpChan, rcv: UmpChan)
    reads snd, rcv, snd.buf
  {
    && snd != rcv && snd.Valid() && rcv.Valid()
    && snd.buf == rcv.buf && snd.bufmsgs == rcv.bufmsgs
    && snd.dir == Outgoing && rcv.dir == Incoming
    && c.slots == snd.buf[..snd.bufmsgs]
    && c.sender == snd.TheEnd() && c.receiver == rcv.TheEnd()
  }

  /** Setting up both ends on whatever is in the buffer starts the machine in its invariant - unless the
      size is refused, or its 16-bit message count comes out zero. */
  method Connect(snd: UmpChan, rcv: UmpChan, b: array<Slot>, addr: nat, size: nat)
    returns (r: InitResult, ghost c: Chan)
    requires snd != rcv && size / MSG_BYTES <= b.Length
    modifies snd, rcv, b
    ensures r == Ok <==> size > 0 && size % MSG_BYTES == 0 && addr % CACHELINE_BYTES == 0
    ensures r == Ok && size / MSG_BYTES % INDEX_LIMIT != 0
      ==> Represents(c, snd, rcv) && c == Start(c.slots) && Inv(c) && |c.slots| == size / MSG_BYTES % INDEX_LIMIT
  {
    r := snd.Init(b, addr, size, Outgoing);
    c := Start([]);
    if r == Ok {
      r := rcv.Init(b, addr, size, Incoming);
      c := Start(b[..rcv.bufmsgs]);
      if rcv.bufmsgs > 0 {
        InvStart(c.slots);
      }
    }
  }

  /** ump_impl_get_next reserves. The flow control is the caller's. */
  method SendSlot(snd: UmpChan, rcv: UmpChan, ghost c: Chan) returns (slot: nat, ctrl: bool, ghost c': Chan)
    requires Inv(c) && Represents(c, snd, rcv) && Enabled(c, Reserve)
    modifies snd`pos, snd`epoch
    ensures c' == Do(c, Reserve) && Inv(c') && Represents(c', snd, rcv)
    ensures c'.tickets == c.tickets + [Ticket(slot, ctrl)]
  {
    c' := Do(c, Reserve);
    FifoReserve(c);
    slot, ctrl := snd.GetNext();
  }

  /** The sender fills in a word of a slot it holds. */
  method SendWord(snd: UmpChan, rcv: UmpChan, slot: nat, word: nat, value: nat, ghost c: Chan, ghost k: nat)
    returns (ghost c': Chan)
    requires Inv(c) && Represents(c, snd, rcv) && Enabled(c, Write(k, word, value)) && slot == c.tickets[k].slot
    modifies snd.buf
    ensures c' == Do(c, Write(k, word, value)) && Inv(c') && Represents(c', snd, rcv)
  {
    c' := Do(c, Write(k, word, value));
    InvWrite(c, k, word, value);
    snd.buf[slot] := snd.buf[slot].(data := snd.buf[slot].data[word := value]);
  }

  /** The sender publishes with one write of the header. */
  method SendHeader(snd: UmpChan, rcv: UmpChan, slot: nat, ctrl: bool, header: nat, ghost c: Chan, ghost k: nat)
    returns (ghost c': Chan)
    requires Inv(c) && Represents(c, snd, rcv) && Enabled(c, Publish(k, header)) && c.tickets[k] == Ticket(slot, ctrl)
    modifies snd.buf
    ensures c' == Do(c, Publish(k, header)) && Inv(c') && Represents(c', snd, rcv)
  {
    c' := Do(c, Publish(k, header));
    FifoPublish(c, k, header);
    snd.buf[slot] := snd.buf[slot].(epoch := ctrl, header := header);
  }

  /** ump_impl_poll points at a message exactly when the next one in order has been published, and then
      at that one. */
  method PollNext(snd: UmpChan, rcv: UmpChan, ghost c: Chan) returns (r: Option<nat>)
    requires Inv(c) && Represents(c, snd, rcv)
    ensures r.Some? <==> c.received in c.published
    ensures r.Some? ==> r.value < |c.slots| && c.received in c.sent && SlotMsg(rcv.buf[r.value]) == c.sent[c.received]
  {
    r := rcv.Poll();
    QueueFacts(c);
    if r.Some? {
      HeadIntact(c);
    }
  }

  /** ump_impl_recv takes the head of the queue, and takes nothing exactly when the queue is empty. */
  method RecvNext(snd: UmpChan, rcv: UmpChan, ghost c: Chan) returns (r: Option<nat>, ghost c': Chan)
    requires Inv(c) && Represents(c, snd, rcv)
    modifies rcv`pos, rcv`epoch
    ensures c' == Do(c, Receive) && Inv(c') && Represents(c', snd, rcv)
    ensures c.received <= |c.tickets| && c.sent.Keys == c.published
    ensures r.None? ==> Queue(c) == [] && c' == c
    ensures r.Some? ==> r.value < |c.slots| && Queue(c) != [] && SlotMsg(rcv.buf[r.value]) == Queue(c)[0]
    ensures r.Some? ==> c'.delivered == c.delivered + [Queue(c)[0]] && Queue(c') == Queue(c)[1..]
  {
    c' := Do(c, Receive);
    FifoReceive(c);
    QueueFacts(c);
    r := rcv.Recv();
    if r.Some? {
      HeadIntact(c);
    }
  }
}
