/** The cooperative scheduler (namespace SimpleScheduler): a fixed table
    of rows updated in place, each operation proved against the table
    functions of module Table and module Dispatch. The clock is read by
    the caller and passed in as `now`. */
module SimpleScheduler {
  import opened Kinds
  import opened Clock
  import opened Drivers
  import opened Table
  import opened Dispatch

  /** NAMFSchedulerEntry: a stand-alone entry that starts never run. */
  class SchedulerEntry {
    var nextRun: ULong

    constructor ()
      ensures nextRun == 0
    {
      nextRun := 0;
    }

    /** init(): does nothing. */
    method Init()
      ensures nextRun == old(nextRun)
    {
    }
  }

  /** NAMFScheduler. */
  class Scheduler {
    const tasks: array<LoopEntry>
    var loopSize: Byte
    // worst observed callback time, the last one and the kind that caused the worst
    var runTimeMax: ULong
    var lastRunTime: ULong
    var runTimeMaxSystem: LoopEntryType

    /** The table has SCHEDULER_SIZE rows, is well formed, and loopSize
        counts its occupied rows. */
    ghost predicate Valid()
      reads this, tasks
    {
      tasks.Length == SCHEDULER_SIZE && WellFormed(tasks[..]) && loopSize == OccupiedCount(tasks[..])
    }

    constructor ()
      ensures Valid() && fresh(tasks)
      ensures forall i :: 0 <= i < SCHEDULER_SIZE ==> tasks[i] == Blank
      ensures runTimeMax == 0 && lastRunTime == 0 && runTimeMaxSystem == EMPTY
    {
      tasks := new LoopEntry[SCHEDULER_SIZE](_ => Blank);
      loopSize := 0;
      runTimeMax, lastRunTime, runTimeMaxSystem := 0, 0, EMPTY;
      new;
      BlankCounts(tasks[..]);
    }

    /** sensorSlots(): how many rows there are in total. */
    function SensorSlots(): (n: Byte)
      reads this, tasks
      requires Valid()
      ensures n == tasks.Length
    {
      SCHEDULER_SIZE
    }

    /** findSlot(id): the row whose kind has ordinal `id`, or -1. */
    method FindSlot(id: Byte) returns (r: int)
      requires Valid()
      ensures -1 <= r < SCHEDULER_SIZE
      ensures r >= 0 ==> Occupied(tasks[r]) && Ord(tasks[r].slotID) == id
      ensures r == -1 <==> forall i :: 0 <= i < SCHEDULER_SIZE && Occupied(tasks[i]) ==> Ord(tasks[i].slotID) != id
      ensures r == IndexOrMinusOne(FindRow(tasks[..], id))
    {
      for i := 0 to SCHEDULER_SIZE
        invariant forall j :: 0 <= j < i && Occupied(tasks[j]) ==> Ord(tasks[j].slotID) != id
      {
        if tasks[i].slotID != EMPTY && Ord(tasks[i].slotID) == id {
          IndexOfUnique(tasks[..], tasks[i].slotID, i);
          FindRowByOrd(tasks[..], tasks[i].slotID);
          return i;
        }
      }
      return -1;
    }

    /** isRegistered(kind): some row holds `kind`. */
    method IsRegistered(kind: LoopEntryType) returns (b: bool)
      requires Valid()
      ensures b <==> IsRegisteredIn(tasks[..], kind)
    {
      var i := FindSlot(Ord(kind));
      FindRowByOrd(tasks[..], kind);
      b := i >= 0;
    }

    /** freeSlots(): the rows holding no kind; with the registered kinds
        they make up sensorSlots(). */
    method FreeSlots() returns (n: Byte)
      requires Valid()
      ensures n == FreeCount(tasks[..])
      ensures n + |RegisteredKinds(tasks[..])| == SensorSlots()
    {
      FreePlusOccupied(tasks[..]);
      SlotAccounting(tasks[..]);
      n := SCHEDULER_SIZE - loopSize;
    }

    /** registeredNames(): the codes of the occupied rows, in table order. */
    method RegisteredNames() returns (names: seq<Code>)
      requires Valid()
      ensures names == Codes(tasks[..])
      ensures |names| == OccupiedCount(tasks[..])
      ensures forall c :: c in names <==> exists i :: 0 <= i < SCHEDULER_SIZE && Occupied(tasks[i]) && tasks[i].slotCode == c
    {
      names := [];
      for i := 0 to SCHEDULER_SIZE
        invariant names == Codes(tasks[..i])
      {
        assert tasks[..i + 1][..i] == tasks[..i];
        if tasks[i].slotID != EMPTY {
          names := names + [tasks[i].slotCode];
        }
      }
      assert tasks[..SCHEDULER_SIZE] == tasks[..];
      CodesOfOccupied(tasks[..]);
    }

    /** countScreens(): the screens claimed by all occupied rows. */
    method CountScreens() returns (n: nat)
      requires Valid()
      ensures n == Table.CountScreens(tasks[..])
    {
      n := 0;
      for i := 0 to SCHEDULER_SIZE
        invariant n == Table.CountScreens(tasks[..i])
      {
        SumNext(tasks[..], i, ScreensOf);
        assert tasks[..][..i + 1] == tasks[..i + 1] && tasks[..][..i] == tasks[..i];
        n := n + tasks[i].hasDisplay;
      }
      assert tasks[..SCHEDULER_SIZE] == tasks[..];
    }

    /** selectSensorToDisplay(current_pos, minor): the kind owning screen
        number `currentPos` of the rotation and, in `minor'`, the
        sub-screen of that kind; EMPTY, with `minor` unchanged, once
        `currentPos` is past the last screen. */
    method SelectSensorToDisplay(currentPos: Byte, minor: Byte) returns (kind: LoopEntryType, minor': Byte)
      requires Valid()
      ensures kind == EMPTY <==> currentPos >= Table.CountScreens(tasks[..])
      ensures kind == EMPTY ==> minor' == minor
      ensures kind != EMPTY ==>
        exists i ::
          && 0 <= i < SCHEDULER_SIZE
          && ScreenAt(tasks[..], currentPos) == Some(Screen(i, minor'))
          && kind == tasks[i].slotID && minor' < tasks[i].hasDisplay
    {
      ghost var rows := tasks[..];
      ScreenAtSound(rows, currentPos);
      var j := 0;
      for i := 0 to SCHEDULER_SIZE
        invariant j == Table.CountScreens(rows[..i]) && j <= currentPos
        invariant ScreenAt(rows, currentPos) == ScreenFrom(rows, i, currentPos - j)
      {
        SumNext(rows, i, ScreensOf);
        assert ScreensOf(rows[i]) == tasks[i].hasDisplay;
        if currentPos < j + tasks[i].hasDisplay {
          assert ScreenAt(rows, currentPos) == Some(Screen(i, currentPos - j));
          return tasks[i].slotID, currentPos - j;
        }
        j := j + tasks[i].hasDisplay;
      }
      return EMPTY, minor;
    }

    /** registerSensor(slot, processF, code). */
    method RegisterSensor(slot: LoopEntryType, f: Callback, code: Code) returns (r: Registration)
      requires Valid()
      modifies this, tasks
      ensures Valid()
      ensures (r, tasks[..]) == Register(old(tasks[..]), slot, f, code)
      ensures unchanged(this`runTimeMax, this`lastRunTime, this`runTimeMaxSystem)
    {
      ghost var rows := tasks[..];
      if slot == EMPTY {
        return Refused(EmptyKind);
      }
      var known := IsRegistered(slot);
      if known {
        return Refused(AlreadyRegistered);
      }
      var i := 0;
      while i < SCHEDULER_SIZE && tasks[i].slotID != EMPTY
        invariant 0 <= i <= SCHEDULER_SIZE
        invariant forall j :: 0 <= j < i ==> Occupied(tasks[j])
      {
        i := i + 1;
      }
      if i == SCHEDULER_SIZE {
        return Refused(TableFull);
      }
      assert FirstFree(rows) == Some(i);
      RegisterAccepted(rows, slot, f, code);
      FreePlusOccupied(Register(rows, slot, f, code).1);
      tasks[i] := NewEntry(slot, f, code);
      loopSize := loopSize + 1;
      r := Accepted(i);
    }

    /** unregisterSensor(slot). */
    method UnregisterSensor(slot: LoopEntryType)
      requires Valid()
      modifies this, tasks
      ensures Valid()
      ensures tasks[..] == Unregister(old(tasks[..]), slot)
      ensures unchanged(this`runTimeMax, this`lastRunTime, this`runTimeMaxSystem)
    {
      ghost var rows := tasks[..];
      var i := FindSlot(Ord(slot));
      FindRowByOrd(rows, slot);
      if i >= 0 {
        UnregisterEffect(rows, slot);
        SumUpdate(rows, i, Blank, OccupiedOf);
        tasks[i] := Blank;
        loopSize := loopSize - 1;
      }
    }

    /** enableSubsystem(slot, enabled, processF, code). */
    method EnableSubsystem(slot: LoopEntryType, enabled: bool, f: Callback, code: Code)
      requires Valid()
      modifies this, tasks
      ensures Valid()
      ensures tasks[..] == Enable(old(tasks[..]), slot, enabled, f, code)
      ensures unchanged(this`runTimeMax, this`lastRunTime, this`runTimeMaxSystem)
    {
      if enabled {
        var _ := RegisterSensor(slot, f, code);
      } else {
        UnregisterSensor(slot);
      }
    }

    /** runIn(slot, time): the row of kind ordinal `slot` becomes due
        `time` ms after `now`. */
    method RunIn(slot: Byte, now: ULong, time: ULong)
      requires Valid()
      modifies tasks
      ensures Valid()
      ensures tasks[..] == Table.RunIn(old(tasks[..]), slot, now, time)
    {
      ghost var rows := tasks[..];
      var i := FindSlot(slot);
      RunInEffect(rows, slot, now, time, NullF);
      if i >= 0 {
        SumUpdate(rows, i, rows[i].(nextRun := Add(now, time)), OccupiedOf);
        tasks[i] := tasks[i].(nextRun := Add(now, time));
      }
    }

    /** runIn(slot, time, func): as RunIn, and the row's callback becomes
        `f`. */
    method RunInWith(slot: Byte, now: ULong, time: ULong, f: Callback)
      requires Valid()
      modifies tasks
      ensures Valid()
      ensures tasks[..] == Table.RunInWith(old(tasks[..]), slot, now, time, f)
    {
      ghost var rows := tasks[..];
      var i := FindSlot(slot);
      RunInEffect(rows, slot, now, time, f);
      if i >= 0 {
        SumUpdate(rows, i, rows[i].(nextRun := Add(now, time), process := f), OccupiedOf);
        tasks[i] := tasks[i].(nextRun := Add(now, time), process := f);
      }
    }

    /** registerDisplay(kind, screens): the row holding `kind` claims
        `screens` display screens; the result is that row, or -1. */
    method RegisterDisplay(slot: LoopEntryType, screens: Byte) returns (r: int)
      requires Valid()
      modifies tasks
      ensures Valid()
      ensures (r, tasks[..]) == SetDisplay(old(tasks[..]), slot, screens)
    {
      ghost var rows := tasks[..];
      r := FindSlot(Ord(slot));
      FindRowByOrd(rows, slot);
      SetDisplayEffect(rows, slot, screens);
      if r >= 0 {
        SumUpdate(rows, r, rows[r].(hasDisplay := screens), OccupiedOf);
        tasks[r] := tasks[r].(hasDisplay := screens);
      }
    }

    /** process(): one pass over the table at time `now`. Every occupied
        row that has never run fires with INIT, every other occupied row
        that is due fires with RUN, and a row that fires becomes due after
        the delay its callback returns. The invocations made are
        returned, in table order. */
    method Process(now: ULong) returns (fired: seq<Invocation>)
      requires Valid()
      modifies tasks
      ensures Valid()
      ensures tasks[..] == ProcessRows(old(tasks[..]), now)
      ensures fired == Fired(old(tasks[..]), now, SCHEDULER_SIZE)
    {
      ghost var rows := tasks[..];
      fired := [];
      for i := 0 to SCHEDULER_SIZE
        invariant forall j :: 0 <= j < i ==> tasks[j] == StepRow(rows[j], now)
        invariant forall j :: i <= j < SCHEDULER_SIZE ==> tasks[j] == rows[j]
        invariant fired == Fired(rows, now, i)
      {
        var row := tasks[i];
        if row.slotID != EMPTY {
          var ev := if row.nextRun == 0 then INIT else RUN;
          if ev == INIT || Elapsed(now, row.nextRun) < HALF {
            assert EventFor(row, now) == Some(ev);
            var (cb, delay) := Invoke(row.process, ev);
            tasks[i] := row.(process := cb, nextRun := Add(now, delay));
            fired := fired + [Invocation(i, row.slotID, ev, delay)];
          }
        }
      }
      assert tasks[..] == ProcessRows(rows, now);
      ProcessKeepsShape(rows, now);
    }

    /** init(kind): the row holding `kind` fires with INIT now. */
    method InitSlot(kind: LoopEntryType, now: ULong)
      requires Valid()
      modifies tasks
      ensures Valid()
      ensures tasks[..] == InitRow(old(tasks[..]), kind, now)
    {
      ghost var rows := tasks[..];
      var i := FindSlot(Ord(kind));
      FindRowByOrd(rows, kind);
      InitRowEffect(rows, kind, now);
      if i >= 0 {
        tasks[i] := Fire(tasks[i], INIT, now);
      }
    }

    /** init(): every occupied row fires with INIT now. */
    method Init(now: ULong)
      requires Valid()
      modifies tasks
      ensures Valid()
      ensures tasks[..] == InitAll(old(tasks[..]), now)
    {
      ghost var rows := tasks[..];
      for i := 0 to SCHEDULER_SIZE
        invariant forall j :: 0 <= j < i ==> tasks[j] == InitAll(rows, now)[j]
        invariant forall j :: i <= j < SCHEDULER_SIZE ==> tasks[j] == rows[j]
      {
        if tasks[i].slotID != EMPTY {
          var (cb, delay) := Invoke(tasks[i].process, INIT);
          tasks[i] := tasks[i].(process := cb, nextRun := Add(now, delay));
        }
      }
      assert tasks[..] == InitAll(rows, now);
      InitAllEffect(rows, now);
    }

    /** runTimeMax(), lastRunTime(), timeMaxSystem(): the debug counters. */
    function RunTimeMax(): (r: ULong)
      reads this
      ensures r == runTimeMax
    {
      runTimeMax
    }

    function LastRunTime(): (r: ULong)
      reads this
      ensures r == lastRunTime
    {
      lastRunTime
    }

    function TimeMaxSystem(): (r: LoopEntryType)
      reads this
      ensures r == runTimeMaxSystem
    {
      runTimeMaxSystem
    }

    /** resetRunTime(): forget the worst observed run time. */
    method ResetRunTime()
      requires Valid()
      modifies this
      ensures Valid()
      ensures RunTimeMax() == 0 && TimeMaxSystem() == EMPTY
      ensures LastRunTime() == old(LastRunTime()) && loopSize == old(loopSize)
    {
      runTimeMax := 0;
      runTimeMaxSystem := EMPTY;
    }
  }

  /** The humidity sensor driver of the header's commented example, run by
      the scheduler: registered at time 0, it is initialised on the first
      pass (INIT asks for 2000 ms), stays idle until then, and then runs
      its heat / measure / clean-up cycle with the delays 10, 5 and 290. */
  method Sht30Example() returns (log: seq<Invocation>)
    ensures log == [Invocation(0, SHT3x, INIT, 2000), Invocation(0, SHT3x, RUN, 10),
                    Invocation(0, SHT3x, RUN, 5), Invocation(0, SHT3x, RUN, 290)]
  {
    var s := new Scheduler();
    var r := s.RegisterSensor(SHT3x, Sht30(Idle), "sht3x");
    assert r == Accepted(0);
    assert s.tasks[0] == LoopEntry(Sht30(Idle), 0, SHT3x, "sht3x", 0);
    ghost var t := s.tasks[..];
    var a := s.Process(0);
    FiredFirstRowOnly(t, 0, SCHEDULER_SIZE);
    assert a == [Invocation(0, SHT3x, INIT, 2000)];
    assert s.tasks[0] == LoopEntry(Sht30(Idle), 2000, SHT3x, "sht3x", 0);
    t := s.tasks[..];
    var b := s.Process(1999);
    FiredFirstRowOnly(t, 1999, SCHEDULER_SIZE);
    assert b == [];
    t := s.tasks[..];
    var c := s.Process(2000);
    FiredFirstRowOnly(t, 2000, SCHEDULER_SIZE);
    assert c == [Invocation(0, SHT3x, RUN, 10)];
    t := s.tasks[..];
    var d := s.Process(2010);
    FiredFirstRowOnly(t, 2010, SCHEDULER_SIZE);
    assert d == [Invocation(0, SHT3x, RUN, 5)];
    t := s.tasks[..];
    var e := s.Process(2015);
    FiredFirstRowOnly(t, 2015, SCHEDULER_SIZE);
    assert e == [Invocation(0, SHT3x, RUN, 290)];
    log := a + b + c + d + e;
  }
}
