/** winky/xeon_phi.h: reading a 64-bit elapsed-time counter through two 32-bit registers. */
module ElapsedTime {

  import opened Widths

  function High(t: nat): (hi: nat) { t / TWO32 }
  function Low(t: nat): (lo: nat) { t % TWO32 }

  /** The 64-bit value with these halves. */
  function Join(hi: nat, lo: nat): (t: nat) { hi * TWO32 + lo }

  /** The counter. It may tick any number of times between two register reads, but neither runs
      backwards nor wraps. */
  class Counter {
    var now: nat
    /** The values the counter had when a register was read, in order. */
    ghost var trace: seq<nat>

    ghost predicate Valid()
      reads this
    {
      && now < TWO64
      && (forall i, j :: 0 <= i < j < |trace| ==> trace[i] <= trace[j])
      && (forall i :: 0 <= i < |trace| ==> trace[i] <= now)
    }

    constructor (start: nat)
      requires start < TWO64
      ensures Valid() && now == start && trace == []
    {
      now, trace := start, [];
    }

    method Tick()
      requires Valid()
      modifies this
      ensures Valid() && now >= old(now)
      ensures trace == old(trace) + [now]
    {
      var t: nat :| now <= t < TWO64;
      now := t;
      trace := trace + [t];
    }

    method ReadHigh() returns (v: nat)
      requires Valid()
      modifies this
      ensures Valid() && now >= old(now) && trace == old(trace) + [now] && v == High(now)
    {
      Tick();
      v := now / TWO32;
    }

    method ReadLow() returns (v: nat)
      requires Valid()
      modifies this
      ensures Valid() && now >= old(now) && trace == old(trace) + [now] && v == Low(now)
    {
      Tick();
      v := now % TWO32;
    }

    /** phi_etc_read. The retry loop ends because every retry saw the high half grow. The result is the
        counter's value at one of the reads made during the call - the read of the low half. */
    method Read() returns (r: nat)
      requires Valid()
      modifies this
      ensures Valid() && old(now) <= r <= now
      ensures |trace| > |old(trace)| + 1 && trace[..|old(trace)|] == old(trace) && r == trace[|trace| - 2]
    {
      var high1, low1, high2;
      var again := true;
      ghost var before := trace;
      r := 0;
      while again
        invariant Valid() && old(now) <= now && |before| <= |trace| && trace[..|before|] == before
        invariant !again ==> |trace| > |before| + 1 && r == trace[|trace| - 2] && old(now) <= r <= now
        decreases again, TWO32 - High(now)
      {
        ghost var started := now;
        high1 := ReadHigh();
        ghost var first := now;
        low1 := ReadLow();
        ghost var middle := now;
        high2 := ReadHigh();
        HighMonotone(started, first);
        HighMonotone(first, middle);
        HighMonotone(middle, now);
        HighBound(now);
        if high1 == high2 {
          again := false;
          r := high1 * TWO32 + low1;
          JoinParts(middle);
          assert trace[|trace| - 2] == middle;
        }
      }
    }

    /** phi_etc_get_cycles. */
    method GetCycles() returns (cycles: nat)
      requires Valid()
      modifies this
      ensures Valid() && old(now) / 32 <= cycles <= now / 32
      ensures |trace| > |old(trace)| + 1 && trace[..|old(trace)|] == old(trace) && cycles == trace[|trace| - 2] / 32
    {
      var t := Read();
      cycles := t / 32;
    }

    /** Two calls in a row never go backwards. */
    method ReadTwice() returns (a: nat, b: nat)
      requires Valid()
      modifies this
      ensures Valid() && old(now) <= a <= b <= now
    {
      a := Read();
      b := Read();
    }
  }

  lemma HighMonotone(a: nat, b: nat)
    requires a <= b
    ensures High(a) <= High(b)
  {
  }

  lemma HighBound(t: nat)
    requires t < TWO64
    ensures High(t) < TWO32
  {
  }

  lemma JoinParts(t: nat)
    ensures Join(High(t), Low(t)) == t
  {
  }

  /** Reading each half once, with no retry, tears exactly when the high half moved in between: then
      the value is too small by a multiple of 2^32. */
  lemma SingleReadTears(first: nat, second: nat)
    requires first <= second
    ensures Join(High(first), Low(second)) == second <==> High(first) == High(second)
    ensures Join(High(first), Low(second)) == second - (High(second) - High(first)) * TWO32
  {
    JoinParts(second);
  }
}
