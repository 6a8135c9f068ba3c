/** Callbacks: a callback maps a lifecycle event to the delay, in ms,
    until its row is next due. Drivers are state machines, so a callback
    is a value carrying the driver's state, and invoking it yields the
    driver's next state together with the delay. */
module Drivers {
  import opened Kinds
  import opened Clock

  /** States of the humidity sensor's measurement cycle. */
  datatype Sht30State = Idle | Heating | PostProcessing

  datatype Callback =
    | NullF                               // the placeholder held by unused rows
    | Every(first: ULong, period: ULong)  // a driver asking for `first` ms after INIT, then every `period` ms
    | Sht30(state: Sht30State)            // the heat-measure-clean-up driver

  /** The measurement cycle's step: the delay it asks for and the state it
      moves to. */
  function Sht30Step(s: Sht30State): (r: (Sht30State, ULong))
  {
    match s
    case Idle => (Heating, 10)
    case Heating => (PostProcessing, 5)
    case PostProcessing => (Idle, 290)
  }

  /** Invoke a callback with an event: its next state and the delay it
      returns. */
  function Invoke(cb: Callback, ev: LoopEventType): (r: (Callback, ULong))
    ensures cb.NullF? ==> r == (NullF, 0)
    ensures cb.Every? ==> r.0 == cb
    ensures cb.Sht30? ==> r.0.Sht30?
    ensures ev == INIT && cb.Sht30? ==> r == (cb, 2000)
  {
    match cb
    case NullF => (NullF, 0)
    case Every(first, period) =>
      (cb, match ev case INIT => first case RUN => period case STOP => 0)
    case Sht30(s) =>
      if ev == INIT then (cb, 2000)
      else var (s', d) := Sht30Step(s); (Sht30(s'), d)
  }

  /** Invoke a callback `n` times with RUN: its final state and the sum of
      the delays it returned. */
  function RunTimes(cb: Callback, n: nat): (Callback, nat)
    decreases n
  {
    if n == 0 then (cb, 0)
    else
      var (next, d) := Invoke(cb, RUN);
      var (last, total) := RunTimes(next, n - 1);
      (last, d + total)
  }

  /** The state after `k` RUN steps from Idle, for k < 3. */
  function Sht30After(k: nat): Sht30State
    requires k < 3
  {
    if k == 0 then Idle else if k == 1 then Heating else PostProcessing
  }

  /** The time the cycle has used up after `k` RUN steps from Idle, for
      k < 3. */
  function Sht30Offset(k: nat): nat
    requires k < 3
  {
    if k == 0 then 0 else if k == 1 then 10 else 15
  }

  /** The driver cycles Idle, Heating, PostProcessing back to Idle; each
      full cycle asks for 10 + 5 + 290 = 305 ms. */
  lemma {:induction false} Sht30Cycles(k: nat, n: nat)
    requires k < 3
    decreases n
    ensures RunTimes(Sht30(Sht30After(k)), n).0 == Sht30(Sht30After((k + n) % 3))
    ensures Sht30Offset(k) + RunTimes(Sht30(Sht30After(k)), n).1
         == 305 * ((k + n) / 3) + Sht30Offset((k + n) % 3)
  {
    if n > 0 {
      var k' := (k + 1) % 3;
      Sht30Cycles(k', n - 1);
      var step := Invoke(Sht30(Sht30After(k)), RUN);
      assert step.0 == Sht30(Sht30After(k'));
      if k == 2 {
        assert step.1 == 290;
        assert (k + n) / 3 == (k' + n - 1) / 3 + 1;
        assert (k + n) % 3 == (k' + n - 1) % 3;
      } else {
        assert Sht30Offset(k) + step.1 == Sht30Offset(k');
        assert (k + n) / 3 == (k' + n - 1) / 3;
        assert (k + n) % 3 == (k' + n - 1) % 3;
      }
    }
  }
}
