/** One pass of the dispatch loop on the table value: which rows fire,
    with which event, and what they look like afterwards.

    Assumed (the loop's body is not part of the header): a row that has
    never run (nextRun == 0) fires with INIT on the next pass; any other
    occupied row fires with RUN when it is due by the wraparound-safe
    test; the new due time is the pass's time plus the returned delay. */
module Dispatch {
  import opened Kinds
  import opened Clock
  import opened Drivers
  import opened Table

  /** A callback invocation made by a pass. */
  datatype Invocation = Invocation(row: nat, kind: LoopEntryType, event: LoopEventType, delay: ULong)

  /** The event a row fires with at time `now`, if it fires. */
  function EventFor(row: LoopEntry, now: ULong): (r: Option<LoopEventType>)
    ensures r.Some? ==> Occupied(row) && r.value != STOP
    ensures r == Some(INIT) <==> Occupied(row) && row.nextRun == 0
    ensures r == Some(RUN) <==> Occupied(row) && row.nextRun != 0 && IsDue(now, row.nextRun)
  {
    if !Occupied(row) then None
    else if row.nextRun == 0 then Some(INIT)
    else if IsDue(now, row.nextRun) then Some(RUN)
    else None
  }

  /** Invoke a row's callback with `ev` at time `now`: the row keeps the
      callback's new state and becomes due after the returned delay. */
  function Fire(row: LoopEntry, ev: LoopEventType, now: ULong): (r: LoopEntry)
    ensures r.slotID == row.slotID && r.slotCode == row.slotCode && r.hasDisplay == row.hasDisplay
    ensures Elapsed(r.nextRun, now) == Invoke(row.process, ev).1
  {
    ElapsedAfterAdd(now, Invoke(row.process, ev).1);
    var (cb, d) := Invoke(row.process, ev);
    row.(process := cb, nextRun := Add(now, d))
  }

  /** A row after the pass at time `now`. */
  function StepRow(row: LoopEntry, now: ULong): (r: LoopEntry)
    ensures r.slotID == row.slotID && r.slotCode == row.slotCode && r.hasDisplay == row.hasDisplay
    ensures EventFor(row, now).None? ==> r == row
  {
    match EventFor(row, now)
    case None => row
    case Some(ev) => Fire(row, ev, now)
  }

  /** The invocation a row makes during the pass, as a list of zero or
      one entries. */
  function DispatchOf(i: nat, row: LoopEntry, now: ULong): seq<Invocation>
  {
    match EventFor(row, now)
    case None => []
    case Some(ev) => [Invocation(i, row.slotID, ev, Invoke(row.process, ev).1)]
  }

  /** The invocations made by the first `n` rows, in table order. */
  function Fired(rows: seq<LoopEntry>, now: ULong, n: nat): seq<Invocation>
    requires n <= |rows|
  {
    if n == 0 then [] else Fired(rows, now, n - 1) + DispatchOf(n - 1, rows[n - 1], now)
  }

  /** The table after a whole pass. */
  function ProcessRows(rows: seq<LoopEntry>, now: ULong): seq<LoopEntry>
  {
    seq(|rows|, i requires 0 <= i < |rows| => StepRow(rows[i], now))
  }

  /** init(kind): the row holding `kind` fires with INIT now. */
  function InitRow(rows: seq<LoopEntry>, kind: LoopEntryType, now: ULong): seq<LoopEntry>
  {
    match IndexOf(rows, kind)
    case None => rows
    case Some(i) => rows[i := Fire(rows[i], INIT, now)]
  }

  /** init(): every occupied row fires with INIT now. */
  function InitAll(rows: seq<LoopEntry>, now: ULong): seq<LoopEntry>
  {
    seq(|rows|, i requires 0 <= i < |rows| => if Occupied(rows[i]) then Fire(rows[i], INIT, now) else rows[i])
  }

  /** Every invocation of a pass is recorded once, in table order: the
      log holds one entry per firing row, naming that row, its kind, the
      event and the delay its callback returned, and no entry for a row
      that did not fire; the entries' rows strictly increase. */
  lemma {:induction false} FiredLog(rows: seq<LoopEntry>, now: ULong, n: nat)
    requires n <= |rows|
    ensures forall d :: d in Fired(rows, now, n) ==>
      && d.row < n && EventFor(rows[d.row], now) == Some(d.event)
      && d.kind == rows[d.row].slotID && d.kind != EMPTY
      && d.delay == Invoke(rows[d.row].process, d.event).1
    ensures forall i :: 0 <= i < n && EventFor(rows[i], now).Some? ==>
      Invocation(i, rows[i].slotID, EventFor(rows[i], now).value, Invoke(rows[i].process, EventFor(rows[i], now).value).1)
        in Fired(rows, now, n)
    ensures forall a, b :: 0 <= a < b < |Fired(rows, now, n)| ==> Fired(rows, now, n)[a].row < Fired(rows, now, n)[b].row
    decreases n
  {
    if n > 0 {
      FiredLog(rows, now, n - 1);
    }
  }

  /** Free rows make no invocation: if only the first row can be
      occupied, the pass's log is that row's invocation, if any. */
  lemma {:induction false} FiredFirstRowOnly(rows: seq<LoopEntry>, now: ULong, n: nat)
    requires 0 < n <= |rows|
    requires forall j :: 1 <= j < n ==> !Occupied(rows[j])
    ensures Fired(rows, now, n) == DispatchOf(0, rows[0], now)
    decreases n
  {
    if n > 1 {
      FiredFirstRowOnly(rows, now, n - 1);
    }
  }

  /** A pass changes no row's kind, code or screen count, so it keeps the
      table well formed and keeps every count over it. */
  lemma ProcessKeepsShape(rows: seq<LoopEntry>, now: ULong)
    requires WellFormed(rows)
    ensures var rows' := ProcessRows(rows, now);
      && |rows'| == |rows|
      && WellFormed(rows')
      && OccupiedCount(rows') == OccupiedCount(rows)
      && FreeCount(rows') == FreeCount(rows)
      && CountScreens(rows') == CountScreens(rows)
      && RegisteredKinds(rows') == RegisteredKinds(rows)
      && (forall k :: IsRegisteredIn(rows', k) <==> IsRegisteredIn(rows, k))
  {
    var rows' := ProcessRows(rows, now);
    SumCongruent(rows', rows, OccupiedOf);
    SumCongruent(rows', rows, FreeOf);
    SumCongruent(rows', rows, ScreensOf);
    forall k ensures IsRegisteredIn(rows', k) <==> IsRegisteredIn(rows, k) {
      if IsRegisteredIn(rows, k) {
        var i :| 0 <= i < |rows| && rows[i].slotID == k;
        assert rows'[i].slotID == k;
      }
    }
  }

  /** init(kind) fires INIT only in the row holding `kind`, making it due
      after the delay INIT returned; it changes no kind, code or screen
      count, so it keeps the table well formed. */
  lemma InitRowEffect(rows: seq<LoopEntry>, kind: LoopEntryType, now: ULong)
    requires WellFormed(rows)
    ensures var a := InitRow(rows, kind, now);
      && |a| == |rows| && WellFormed(a)
      && (forall j :: 0 <= j < |rows| && rows[j].slotID != kind ==> a[j] == rows[j])
      && (forall j :: 0 <= j < |rows| && Occupied(rows[j]) && rows[j].slotID == kind ==>
            a[j] == Fire(rows[j], INIT, now))
      && OccupiedCount(a) == OccupiedCount(rows) && CountScreens(a) == CountScreens(rows)
  {
    match IndexOf(rows, kind)
    case None =>
    case Some(i) =>
      var a := InitRow(rows, kind, now);
      SumUpdate(rows, i, a[i], OccupiedOf);
      SumUpdate(rows, i, a[i], ScreensOf);
      forall j | 0 <= j < |rows| && Occupied(rows[j]) && rows[j].slotID == kind ensures j == i {
        IndexOfUnique(rows, kind, j);
      }
  }

  /** init() makes every occupied row due after the delay INIT returned
      and leaves free rows alone; it keeps the table well formed. */
  lemma InitAllEffect(rows: seq<LoopEntry>, now: ULong)
    requires WellFormed(rows)
    ensures var b := InitAll(rows, now);
      && |b| == |rows| && WellFormed(b)
      && (forall j :: 0 <= j < |rows| && Occupied(rows[j]) ==>
            Elapsed(b[j].nextRun, now) == Invoke(rows[j].process, INIT).1)
      && (forall j :: 0 <= j < |rows| && !Occupied(rows[j]) ==> b[j] == rows[j])
      && OccupiedCount(b) == OccupiedCount(rows) && CountScreens(b) == CountScreens(rows)
  {
    var b := InitAll(rows, now);
    SumCongruent(b, rows, OccupiedOf);
    SumCongruent(b, rows, ScreensOf);
  }

  /** A freshly registered row fires with INIT on the first pass,
      whatever the time. */
  lemma NewEntryFiresInit(slot: LoopEntryType, f: Callback, code: Code, now: ULong)
    requires slot != EMPTY
    ensures EventFor(NewEntry(slot, f, code), now) == Some(INIT)
  {
  }

  /** After a row has fired at time `t` and its callback returned `d`
      (at most half the clock range), the row does not fire again
      before `t + d`, fires with RUN at every pass from `t + d` on until
      half the clock range later, and never fires with INIT again — as
      long as `t + d` (mod 2^32) is not the never-run marker 0. */
  lemma {:induction false} FiresAfterReturnedDelay(row: LoopEntry, t: ULong, e: ULong)
    requires EventFor(row, t).Some?
    requires Invoke(row.process, EventFor(row, t).value).1 <= HALF
    requires StepRow(row, t).nextRun != 0
    ensures var d := Invoke(row.process, EventFor(row, t).value).1;
      var row' := StepRow(row, t);
      && row'.nextRun == Add(t, d)
      && (e < d ==> EventFor(row', Add(t, e)).None? && StepRow(row', Add(t, e)) == row')
      && (d <= e < d + HALF ==> EventFor(row', Add(t, e)) == Some(RUN))
      && EventFor(row', Add(t, e)) != Some(INIT)
  {
    var d := Invoke(row.process, EventFor(row, t).value).1;
    if e < d {
      NotDueBeforeDelay(t, d, e);
    } else if e < d + HALF {
      DueAfterDelay(t, d, e);
    }
  }

  /** The never-run marker collides with a real due time: whenever a
      firing row's new due time `t + d` (mod 2^32) is 0, the next pass
      treats the row as never run and sends INIT again. Two ways to get
      there: a callback that fires 10 ms before the clock wraps and asks
      for 10 ms, and a callback that fires at time 0 and asks for 0 ms. */
  lemma MarkerCollision(row: LoopEntry, t: ULong, now: ULong)
    requires EventFor(row, t).Some?
    requires Add(t, Invoke(row.process, EventFor(row, t).value).1) == 0
    ensures StepRow(row, t).nextRun == 0
    ensures EventFor(StepRow(row, t), now) == Some(INIT)
    ensures var wrap := LoopEntry(Every(10, 10), 0, SHT3x, "sht3x", 0);
      && EventFor(wrap, 0xFFFF_FFF6) == Some(INIT)
      && EventFor(StepRow(wrap, 0xFFFF_FFF6), now) == Some(INIT)
    ensures var zero := LoopEntry(Every(0, 0), 0, SHT3x, "sht3x", 0);
      && EventFor(zero, 0) == Some(INIT)
      && EventFor(StepRow(zero, 0), now) == Some(INIT)
  {
  }

  /** runIn on a row that has never run replaces the never-run marker by a
      real due time (unless `now + time` is 0): the row then never
      receives INIT, its first invocation is RUN. */
  lemma RunInSuppressesInit(rows: seq<LoopEntry>, slot: LoopEntryType, f: Callback, code: Code,
                            now: ULong, time: ULong, later: ULong)
    requires WellFormed(rows)
    requires Register(rows, slot, f, code).0.Accepted?
    requires Add(now, time) != 0
    ensures var (r, rows') := Register(rows, slot, f, code);
      && r.row < |rows'|
      && EventFor(rows'[r.row], later) == Some(INIT)
      && EventFor(RunIn(rows', Ord(slot), now, time)[r.row], later) != Some(INIT)
      && EventFor(RunInWith(rows', Ord(slot), now, time, f)[r.row], later) != Some(INIT)
  {
    RegisterAccepted(rows, slot, f, code);
    var (r, rows') := Register(rows, slot, f, code);
    FindRowByOrd(rows', slot);
  }
}
