/** The slot counter of the mClock scheduler. `queuesize` counts pending
    requests minus free slots, so it starts at minus the number of slots and a
    request may run at once exactly when it was negative. Slots taken away
    are owed in `slotdeficit` and paid back before new slots reach the queue.
    Both counters are Java `long`s; the compare-and-set retry loops run here as
    single sequential updates. */
module SlotManager {
  import opened Common

  datatype Counters = Counters(queuesize: int, deficit: int)

  predicate ValidCounters(c: Counters)
  {
    InLong(c.queuesize) && InLong(c.deficit)
  }

  /** `addSlots(delta)` as written: the new counters and the number of
      requests that may now run, or nothing when the scheduling loop never
      ends. On a `long` underflow of the queue counter the loop sets
      `enqueued` to `Long.MIN_VALUE` and retries its compare-and-set with
      that expected value, which fails, and fails again on every retry,
      unless the counter already is `Long.MIN_VALUE`. */
  function AddSlotsAsWritten(c: Counters, delta: int): Option<(Counters, int)>
    requires ValidCounters(c) && InLong(delta)
  {
    if delta == 0 then Some((c, 0))
    else if delta < 0 then Some((c.(deficit := Wrap64(c.deficit - delta)), 0))
    else if c.deficit > 0 && c.deficit >= delta then Some((c.(deficit := c.deficit - delta), 0))
    else
      var remaining := if c.deficit > 0 then delta - c.deficit else delta;
      var newDeficit := if c.deficit > 0 then 0 else c.deficit;
      var enqueued := c.queuesize;
      var newEnqueued := Wrap64(enqueued - remaining);
      if newEnqueued > enqueued && enqueued != LONG_MIN then None
      else
        var expected := if newEnqueued > enqueued then LONG_MIN else enqueued;
        var ret := if expected > remaining then remaining else if expected > 0 then expected else 0;
        Some((Counters(newEnqueued, newDeficit), ret))
  }

  /** `addSlots(delta)` with the evident intent of its underflow branch: the
      queue counter stops at `Long.MIN_VALUE`. A negative delta is owed; a
      positive one first pays what is owed, and what remains comes off the
      queue counter and lets up to that many waiting requests run. */
  function AddSlots(c: Counters, delta: int): (r: (Counters, int))
    requires ValidCounters(c) && InLong(delta)
    ensures ValidCounters(r.0)
    ensures 0 <= r.1 && (delta <= 0 ==> r.1 == 0) && (delta > 0 ==> r.1 <= delta)
    ensures r.1 <= if c.queuesize > 0 then c.queuesize else 0
    ensures delta <= 0 ==> r.0.queuesize == c.queuesize
    ensures delta < 0 ==> r.0.deficit == Wrap64(c.deficit - delta)
    ensures delta > 0 && c.deficit >= delta ==> r.0 == Counters(c.queuesize, c.deficit - delta) && r.1 == 0
    ensures delta > 0 && c.deficit < delta ==>
      var remaining := if c.deficit > 0 then delta - c.deficit else delta;
      && r.0.deficit == (if c.deficit > 0 then 0 else c.deficit)
      && r.0.queuesize == (if c.queuesize - remaining < LONG_MIN then LONG_MIN else c.queuesize - remaining)
      && r.1 == (if c.queuesize < remaining then (if c.queuesize > 0 then c.queuesize else 0) else remaining)
  {
    if delta == 0 then (c, 0)
    else if delta < 0 then (c.(deficit := Wrap64(c.deficit - delta)), 0)
    else if c.deficit > 0 && c.deficit >= delta then (c.(deficit := c.deficit - delta), 0)
    else
      var remaining := if c.deficit > 0 then delta - c.deficit else delta;
      var newDeficit := if c.deficit > 0 then 0 else c.deficit;
      var enqueued := c.queuesize;
      var newEnqueued := Wrap64(enqueued - remaining);
      var clamped := if newEnqueued > enqueued then LONG_MIN else newEnqueued;
      var ret := if enqueued > remaining then remaining else if enqueued > 0 then enqueued else 0;
      (Counters(clamped, newDeficit), ret)
  }

  /** Away from the underflow, the source's `addSlots` and the intended one
      agree. */
  lemma AsWrittenAgreesWithoutUnderflow(c: Counters, delta: int)
    requires ValidCounters(c) && InLong(delta) && InLong(c.queuesize - delta)
    ensures AddSlotsAsWritten(c, delta) == Some(AddSlots(c, delta))
  {
  }

  /** A counter one above `Long.MIN_VALUE` given two slots: the source's loop
      retries its compare-and-set for ever, while the intended update stops
      the counter at `Long.MIN_VALUE` and schedules nothing. */
  lemma UnderflowSpinsForever()
    ensures AddSlotsAsWritten(Counters(LONG_MIN + 1, 0), 2).None?
    ensures AddSlots(Counters(LONG_MIN + 1, 0), 2) == (Counters(LONG_MIN, 0), 0)
  {
  }

  /** Slots are conserved: away from `long` overflow, adding `delta` slots
      lowers queue counter plus deficit by exactly `delta`, whether the slots
      went to the queue or paid the deficit. */
  lemma AddSlotsConserves(c: Counters, delta: int)
    requires ValidCounters(c) && InLong(delta)
    requires InLong(c.queuesize - delta) && InLong(c.deficit - delta)
    ensures var (n, _) := AddSlots(c, delta); n.queuesize + n.deficit == c.queuesize + c.deficit - delta
  {
  }

  /** A deficit never goes negative through `addSlots` on its own. */
  lemma DeficitStaysNonNegative(c: Counters, delta: int)
    requires ValidCounters(c) && InLong(delta) && c.deficit >= 0 && InLong(c.deficit - delta)
    ensures AddSlots(c, delta).0.deficit >= 0
  {
  }

  class SlotManager {
    var queuesize: int
    var slotdeficit: int
    var maxSlots: int

    ghost predicate Valid()
      reads this
    {
      ValidCounters(Counters(queuesize, slotdeficit)) && InLong(maxSlots)
    }

    function Counts(): Counters
      reads this
    {
      Counters(queuesize, slotdeficit)
    }

    /** The counter starts at minus the number of slots. */
    constructor (maxSlots: int)
      requires InLong(maxSlots)
      ensures Valid()
      ensures queuesize == Wrap64(-maxSlots) && slotdeficit == 0 && this.maxSlots == maxSlots
    {
      queuesize := Wrap64(-maxSlots);
      slotdeficit := 0;
      this.maxSlots := maxSlots;
    }

    /** `addRequest`: one more pending request; it may run at once iff a slot
        was free, that is, iff the counter was negative. */
    method AddRequest() returns (runs: bool)
      requires Valid()
      modifies this
      ensures Valid()
      ensures runs <==> old(queuesize) < 0
      ensures queuesize == Wrap64(old(queuesize) + 1)
      ensures slotdeficit == old(slotdeficit) && maxSlots == old(maxSlots)
    {
      runs := queuesize < 0;
      queuesize := Wrap64(queuesize + 1);
    }

    method AddSlotsTo(delta: int) returns (scheduled: int)
      requires Valid() && InLong(delta)
      modifies this
      ensures Valid() && maxSlots == old(maxSlots)
      ensures (Counts(), scheduled) == AddSlots(old(Counts()), delta)
    {
      if delta == 0 {
        return 0;
      }
      if delta < 0 {
        slotdeficit := Wrap64(slotdeficit - delta);
        return 0;
      }
      var remaining := delta;
      var deficit := slotdeficit;
      if deficit > 0 {
        if deficit < remaining {
          slotdeficit := 0;
          remaining := remaining - deficit;
        } else {
          slotdeficit := deficit - remaining;
          return 0;
        }
      }
      var enqueued := queuesize;
      var newEnqueued := Wrap64(enqueued - remaining);
      if newEnqueued > enqueued {
        newEnqueued := LONG_MIN;
      }
      queuesize := newEnqueued;
      if enqueued > remaining {
        scheduled := remaining;
      } else if enqueued > 0 {
        scheduled := enqueued;
      } else {
        scheduled := 0;
      }
    }

    /** `addSlot`: one slot came free; true iff it went to a waiting
        request. */
    method AddSlot() returns (runs: bool)
      requires Valid()
      modifies this
      ensures Valid() && maxSlots == old(maxSlots)
      ensures Counts() == AddSlots(old(Counts()), 1).0
      ensures runs <==> AddSlots(old(Counts()), 1).1 == 1
      ensures runs <==> old(slotdeficit) <= 0 && old(queuesize) > 0
    {
      var n := AddSlotsTo(1);
      runs := n == 1;
    }

    /** `setMaxSlots`: the change in slot count goes through `addSlots`, and
        the number of requests it lets run is returned. */
    method SetMaxSlots(newMax: int) returns (toSchedule: int)
      requires Valid() && InLong(newMax)
      modifies this
      ensures Valid() && maxSlots == newMax
      ensures (Counts(), toSchedule) == AddSlots(old(Counts()), Wrap64(newMax - old(maxSlots)))
    {
      toSchedule := AddSlotsTo(Wrap64(newMax - maxSlots));
      maxSlots := newMax;
    }
  }

  /** The slot balance `queuesize + slotdeficit + maxSlots` starts at zero
      and counts requests added minus slots given back: changing the number
      of slots leaves it as it is, and a returned slot lowers it by one. */
  lemma {:induction false} BalanceKept(c: Counters, oldMax: int, newMax: int)
    requires ValidCounters(c) && InLong(oldMax) && InLong(newMax) && InLong(newMax - oldMax)
    requires InLong(c.queuesize - (newMax - oldMax)) && InLong(c.deficit - (newMax - oldMax))
    ensures var (n, _) := AddSlots(c, Wrap64(newMax - oldMax));
      n.queuesize + n.deficit + newMax == c.queuesize + c.deficit + oldMax
  {
    AddSlotsConserves(c, newMax - oldMax);
  }
}
