/** The device clock: a free-running 32-bit millisecond counter
    (`unsigned long` on the target), and the wraparound-safe due test. */
module Clock {

  const TWO_32: nat := 0x1_0000_0000
  const HALF: nat := 0x8000_0000

  type ULong = x: int | 0 <= x < 0x1_0000_0000
  type Byte = x: int | 0 <= x < 256

  /** `a + b` in unsigned 32-bit arithmetic. */
  function Add(a: ULong, b: ULong): (r: ULong)
    ensures a + b < TWO_32 ==> r == a + b
    ensures a + b >= TWO_32 ==> r == a + b - TWO_32
  {
    (a + b) % TWO_32
  }

  /** `now - since` in unsigned 32-bit arithmetic: the time elapsed since
      `since`, counted modulo the clock's range. */
  function Elapsed(now: ULong, since: ULong): (r: ULong)
    ensures since <= now ==> r == now - since
    ensures now < since ==> r == now - since + TWO_32
  {
    (now - since) % TWO_32
  }

  /** A row whose due time is `nextRun` may run at `now`: `now` lies at or
      after `nextRun`, less than half the clock range later. */
  predicate IsDue(now: ULong, nextRun: ULong)
  {
    Elapsed(now, nextRun) < HALF
  }

  /** Subtracting the start time from a later reading gives back the
      interval that was added, across a wrap of the counter too. */
  lemma ElapsedAfterAdd(t: ULong, e: ULong)
    ensures Elapsed(Add(t, e), t) == e
  {
  }

  /** A row scheduled `d` ms after `t` is not due at any time before
      `t + d`, as long as the delay is at most half the clock range. */
  lemma NotDueBeforeDelay(t: ULong, d: ULong, e: ULong)
    requires d <= HALF
    requires e < d
    ensures !IsDue(Add(t, e), Add(t, d))
  {
    assert Elapsed(Add(t, e), Add(t, d)) == TWO_32 - (d - e);
  }

  /** ... and it is due from `t + d` on, for the next half clock range. */
  lemma DueAfterDelay(t: ULong, d: ULong, e: ULong)
    requires d <= HALF
    requires d <= e < d + HALF
    ensures IsDue(Add(t, e), Add(t, d))
  {
    assert Elapsed(Add(t, e), Add(t, d)) == e - d;
  }

  /** A delay of more than half the clock range is read back as a time in
      the past: the row is due at once. */
  lemma LongDelayIsDueAtOnce(t: ULong, d: ULong)
    requires HALF < d
    ensures IsDue(t, Add(t, d))
  {
    assert Elapsed(t, Add(t, d)) == TWO_32 - d;
  }
}
