# SimpleScheduler: a verified model of the NAMF cooperative scheduler

This project models `SimpleScheduler::NAMFScheduler`. It is the cooperative, non-preemptive task
scheduler of the NAMF air-quality sensor firmware (`src/system/scheduler.h`).

The scheduler owns a fixed table of `SCHEDULER_SIZE` = 10 rows. A row is a `LoopEntry`:
- a callback
- the absolute time at which the row is next due (`nextRun`)
- the subsystem kind occupying it (`slotID`, `EMPTY` for a free row)
- an opaque configuration code
- the number of display screens the subsystem claims

Sensor drivers register a kind with a callback. The main loop calls `process()` over and over. A
callback receives a lifecycle event (`INIT`, `RUN`, `STOP`) and returns the number of
milliseconds until its row should run again.

## Files

- `kinds.dfy` (module `Kinds`): the kinds `LoopEntryType`, their C ordinals, `operator++`, and the
  events `LoopEventType`.
- `clock.dfy` (module `Clock`): the 32-bit `unsigned long` millisecond clock, written out as
  arithmetic modulo 2^32, and the wraparound-safe "is due" test.
- `drivers.dfy` (module `Drivers`): callbacks as driver state machines. `NullF` is the placeholder
  of free rows. `Every(first, period)` is a generic periodic driver. `Sht30(state)` is the
  heat / measure / clean-up driver of the header's commented example.
- `table.dfy` (module `Table`): the table as a value (`seq<LoopEntry>`): its invariant, the
  counts, and what registration, unregistration, `runIn` and `registerDisplay` make of it. It also
  holds the display rotation.
- `dispatch.dfy` (module `Dispatch`): one pass of `process()` as a function of the table and the
  time, plus the timing guarantees.
- `scheduler.dfy` (module `SimpleScheduler`): the class `Scheduler` (`NAMFScheduler`). It holds
  the fixed `array<LoopEntry>` and the `loopSize` counter. Its methods update them in place and
  are proved against the functions of `Table` and `Dispatch`. The module also holds
  `SchedulerEntry` (`NAMFSchedulerEntry`) and the example driver run through the scheduler.

The class invariant `Valid()` says three things:
- the array has 10 rows;
- no kind occupies two rows, and every free row is blank;
- `loopSize` equals the number of occupied rows.

`RunTimeMax`, `LastRunTime` and `TimeMaxSystem` are the debug accessors. They return the worst
run time, the last run time and the kind that caused the worst. `ResetRunTime` sets the first and
the third; it leaves the last run time alone.

## Assumptions

The header declares the scheduler's operations, but their bodies are in a `.cpp` file that is not
part of this model. Everything below fills that gap. Each item is a modelling decision, not
something the header states.

- **Duplicate and empty registrations.** `registerSensor` refuses `EMPTY`, then refuses a kind
  that is already registered, then refuses when no row is free. Otherwise it writes the first
  free row. The C function returns an `int` whose failure values are not visible. The model
  returns `Registration`: `Accepted(row)` or `Refused(EmptyKind | AlreadyRegistered | TableFull)`.
  A refusal leaves the table unchanged.
- **First dispatch is INIT.** A new row starts with `nextRun = 0`, as `NAMFSchedulerEntry`
  starts. The `LoopEntry` struct has no other field that could record "never run", so `nextRun == 0`
  is the marker. A pass fires `INIT` on an occupied row whose `nextRun` is 0. It fires `RUN` on any
  other occupied row that is due. A firing row's new `nextRun` is `now + delay` modulo 2^32.
  `Dispatch.MarkerCollision` shows the price of the marker: whenever a new due time `t + d`
  (mod 2^32) is 0, the row receives `INIT` again. That happens after a wrap, and also when a row
  fires at time 0 and asks for 0 ms. `Dispatch.RunInSuppressesInit` shows the converse: `runIn`
  before the row's first pass replaces the marker, so the row never receives `INIT`.
- **The due test is wraparound-safe.** A row is due when `(now - nextRun) mod 2^32 < 2^31`.
- **The clock is a parameter.** `process`, `runIn` and `init` take the current time `now`
  instead of reading `millis()`. One pass uses one reading.
- **Rows are found by ordinal.** `findSlot(byte id)` returns the first occupied row whose kind has
  ordinal `id`, or -1. The byte `slot` of `runIn` is such an ordinal. `isRegistered`,
  `unregisterSensor`, `registerDisplay` and `init(kind)` look the kind up the same way, so `EMPTY`
  is never found.
- **`runIn` time is relative.** `runIn(slot, time)` sets that row's `nextRun` to `now + time`.
- **Unregistration blanks the row.** `unregisterSensor` resets the row to a blank row: kind
  `EMPTY`, callback `NullF`, no screens, code `""`.
- **`enableSubsystem`** registers when enabled and unregisters when disabled. If the kind is
  already registered, enabling changes nothing.
- **Display rotation.** `selectSensorToDisplay(current_pos, minor)` reads `current_pos` as a
  position in the rotation of all claimed screens, which are laid out in table order. It returns
  the kind owning that screen and sets `minor` to the sub-screen within that kind. Past the last
  screen it returns `EMPTY` and leaves `minor` unchanged. `registerDisplay` returns the row index,
  or -1 when the kind is not registered.
- **`init`.** `init(kind)` fires `INIT` on that kind's row now. `init()` does this for every
  occupied row.
- **Callback results.** `NullF` returns 0. The example driver answers `INIT` as `SHT30_initF`
  does, with 2000. It answers any other event as `SHT30_processF` does, which ignores its
  argument: 10, 5 and 290 along the IDLE → HEATING → POSTPROCESIN cycle. The driver's state is
  kept in the row, where the C code keeps it in a `static` variable.
- **Process returns a log.** `Process` returns the invocations it made (`Invocation` records), so
  that a caller can see which callbacks ran. The C `process()` returns nothing.

## Model

| member | source | states |
|---|---|---|
| Kinds.Ord | src/system/scheduler.h:15-26 | every kind has an ordinal below `NAMF_LOOP_SIZE`, and the ordinal is 0 exactly for `EMPTY` |
| Kinds.KindOf | src/system/scheduler.h:15-26 | an integer names a kind exactly when it is below `NAMF_LOOP_SIZE`, and that kind has that ordinal |
| Kinds.Increment | src/system/scheduler.h:40 | `++` yields the kind with the next ordinal, and nothing once the bound `NAMF_LOOP_SIZE` is reached |
| Kinds.KindsFromOrdinals | src/system/scheduler.h:40 | a loop applying `++` from a kind visits the ordinals from that kind's up to the bound, in order |
| Kinds.AllKindsEnumerated | src/system/scheduler.h:25 | iterating with `++` from `EMPTY` reaches all 9 values, each at its own ordinal |
| Clock.ElapsedAfterAdd | src/system/scheduler.h:68 | subtracting a start time from `start + e` gives `e` back, across a wrap of the 32-bit counter |
| Clock.NotDueBeforeDelay | src/system/scheduler.h:61 | a row scheduled `d` ms after `t` (with `d <= 2^31`) is not due at any earlier time |
| Clock.DueAfterDelay | src/system/scheduler.h:61 | such a row is due from `t + d` on, for half the clock range |
| Clock.LongDelayIsDueAtOnce | src/system/scheduler.h:61 | a returned delay above 2^31 reads as a past time, so the row is due at once |
| Drivers.Invoke | src/system/scheduler.h:189-194 | `NullF` always returns 0, a periodic driver keeps its state, and the example driver answers `INIT` with 2000 |
| Drivers.Sht30Cycles | src/system/scheduler.h:163-187 | after n RUN calls from any phase, the example driver's state is n steps further round IDLE→HEATING→POSTPROCESIN, and its delays add up to 305 ms per full cycle |
| Table.IndexOf | src/system/scheduler.h:104 | a row is found for a kind exactly when that kind is registered, and the row holds that kind |
| Table.FindRow | src/system/scheduler.h:149 | the row found for an id is occupied by the kind with that ordinal, and no occupied row has that ordinal when none is found |
| Table.FirstFree | src/system/scheduler.h:141 | the first free row is free and every row before it is occupied; none is found only when all rows are occupied |
| Table.IndexOfUnique | src/system/scheduler.h:141 | in a table with unique kinds, the row holding a kind is the one lookup finds |
| Table.FindRowByOrd | src/system/scheduler.h:149 | looking up a kind's ordinal finds the row holding that kind |
| Table.BlankCounts | src/system/scheduler.h:86 | an all-blank table is well formed and has no occupied row and no screen |
| Table.FreePlusOccupied | src/system/scheduler.h:106-109 | free rows plus occupied rows equal the number of rows |
| Table.OccupiedCountIsKindCount | src/system/scheduler.h:141-142 | with unique kinds, the number of occupied rows is the number of registered kinds |
| Table.SlotAccounting | src/system/scheduler.h:106-109 | in a valid table, free rows plus registered kinds equal `SCHEDULER_SIZE`, and free rows never exceed it |
| Table.FreeCountPositive | src/system/scheduler.h:108-109 | a free row exists exactly when the free count is positive |
| Table.RegisterRefusals | src/system/scheduler.h:93-100 | registration is refused for `EMPTY`, for a kind already registered, and for a full table, in each case if and only if that condition holds; a refusal changes nothing |
| Table.RegisterAccepted | src/system/scheduler.h:93-100 | a successful registration fills the first free row with exactly the given kind, callback and code, due at once. The kind is then registered, no other row changes, one free row is used, and the table stays well formed |
| Table.UnregisterEffect | src/system/scheduler.h:101 | after unregistering, the kind is not registered and no other kind's row changes. A registered kind frees exactly one row; an absent kind changes nothing |
| Table.EnableEffect | src/system/scheduler.h:103 | enabling leaves a real kind registered when it already was or a row was free (and changes nothing if it was registered); disabling leaves it unregistered |
| Table.RunInEffect | src/system/scheduler.h:121-123 | `runIn` changes only the named row. That row becomes due exactly `time` ms after `now`. The two-argument form keeps the callback, the three-argument form replaces it, and an unknown id changes nothing |
| Table.SetDisplayEffect | src/system/scheduler.h:127-128 | `registerDisplay` sets the screen count of the kind's row and nothing else, and moves the total by the difference; it returns -1 for an unregistered kind |
| Table.ScreenAtSound | src/system/scheduler.h:126 | a position holds a screen exactly when it is below `countScreens()`, and that screen belongs to an occupied row with a non-zero screen count, with the sub-screen below that count |
| Table.ScreenAtComplete | src/system/scheduler.h:126-130 | every sub-screen of every row is shown at its own position, so positions below `countScreens()` and screens correspond one to one |
| Table.CodesOfOccupied | src/system/scheduler.h:110-111 | the list of names holds one entry per occupied row, and a code is in it exactly when some occupied row has that code |
| Dispatch.EventFor | src/system/scheduler.h:42-47 | only occupied rows fire and never with STOP. INIT fires exactly when the row has never run; RUN fires exactly when the row has run before and is due |
| Dispatch.Fire | src/system/scheduler.h:61 | a fired row keeps its kind, code and screens, and is next due exactly the returned delay after now |
| Dispatch.StepRow | src/system/scheduler.h:88 | a pass keeps each row's kind, code and screens, and leaves a row that does not fire untouched |
| Dispatch.FiredLog | src/system/scheduler.h:88 | the pass log lists each firing row with its kind, event and returned delay, and no other row; the rows of its entries strictly increase, so each firing row appears once and in table order |
| Dispatch.ProcessKeepsShape | src/system/scheduler.h:88 | a pass keeps the table well formed and keeps the free, occupied and screen counts and the set of registered kinds |
| Dispatch.InitRowEffect | src/system/scheduler.h:91 | `init(kind)` fires INIT on that kind's row only and keeps the table well formed |
| Dispatch.InitAllEffect | src/system/scheduler.h:90 | `init()` makes every occupied row due after its INIT delay, leaves free rows alone and keeps the table well formed |
| Dispatch.NewEntryFiresInit | src/system/scheduler.h:51 | a freshly registered row fires with INIT on the next pass, whatever the time |
| Dispatch.FiresAfterReturnedDelay | src/system/scheduler.h:88 | after a row fires at `t` and returns `d <= 2^31`, it does not fire before `t + d`, fires RUN from `t + d` on, and never gets INIT again, provided `t + d` (mod 2^32) is not the marker 0 |
| Dispatch.MarkerCollision | src/system/scheduler.h:68 | whenever a firing row's new due time `t + d` (mod 2^32) is 0, it is taken for "never run" and the row receives INIT again; this happens both after a wrap and for delay 0 at time 0 |
| Dispatch.RunInSuppressesInit | src/system/scheduler.h:121-123 | a freshly registered row fires INIT, but after `runIn` (either form) with `now + time` not 0 it never fires INIT |
| SimpleScheduler.SchedulerEntry.constructor | src/system/scheduler.h:51 | a new entry starts with `nextRun = 0` |
| SimpleScheduler.SchedulerEntry.Init | src/system/scheduler.h:53 | `init()` has an empty body and leaves `nextRun` unchanged |
| SimpleScheduler.Scheduler.constructor | src/system/scheduler.h:86 | a new scheduler has 10 blank rows and satisfies the invariant |
| SimpleScheduler.Scheduler.SensorSlots | src/system/scheduler.h:106-107 | the total number of slots is the table's size |
| SimpleScheduler.Scheduler.FindSlot | src/system/scheduler.h:149 | the result is an occupied row whose kind has ordinal `id`, or -1 exactly when there is none |
| SimpleScheduler.Scheduler.IsRegistered | src/system/scheduler.h:104 | true exactly when some row holds the kind |
| SimpleScheduler.Scheduler.FreeSlots | src/system/scheduler.h:108-109 | the number of free rows, which together with the registered kinds makes up `sensorSlots()` |
| SimpleScheduler.Scheduler.RegisteredNames | src/system/scheduler.h:110-111 | the codes of the occupied rows in table order: one per occupied row, and only theirs |
| SimpleScheduler.Scheduler.CountScreens | src/system/scheduler.h:129-130 | the sum of the screen counts of the occupied rows |
| SimpleScheduler.Scheduler.SelectSensorToDisplay | src/system/scheduler.h:126 | returns `EMPTY` exactly when the position is past the last screen, leaving `minor` unchanged. Otherwise it returns the kind of the row owning that screen, with `minor` below that row's screen count |
| SimpleScheduler.Scheduler.RegisterSensor | src/system/scheduler.h:93-100 | the result and the new table are those of `Register`, and the invariant holds |
| SimpleScheduler.Scheduler.UnregisterSensor | src/system/scheduler.h:101 | the new table is that of `Unregister`, and the invariant holds |
| SimpleScheduler.Scheduler.EnableSubsystem | src/system/scheduler.h:103 | the new table is that of `Enable`, and the invariant holds |
| SimpleScheduler.Scheduler.RunIn | src/system/scheduler.h:123 | the new table is that of `RunIn` (only the named row's `nextRun` moves) |
| SimpleScheduler.Scheduler.RunInWith | src/system/scheduler.h:121 | the new table is that of `RunInWith` (the named row's `nextRun` and callback) |
| SimpleScheduler.Scheduler.RegisterDisplay | src/system/scheduler.h:127-128 | the result and the new table are those of `SetDisplay` |
| SimpleScheduler.Scheduler.Process | src/system/scheduler.h:88 | every row becomes its `StepRow` image, the log is `Fired` over all rows, and the invariant holds |
| SimpleScheduler.Scheduler.InitSlot | src/system/scheduler.h:91 | the new table is that of `InitRow` |
| SimpleScheduler.Scheduler.Init | src/system/scheduler.h:90 | the new table is that of `InitAll` |
| SimpleScheduler.Scheduler.RunTimeMax | src/system/scheduler.h:135 | returns the stored worst callback run time |
| SimpleScheduler.Scheduler.LastRunTime | src/system/scheduler.h:136 | returns the stored last run time |
| SimpleScheduler.Scheduler.TimeMaxSystem | src/system/scheduler.h:137 | returns the kind stored as causing the worst run time |
| SimpleScheduler.Scheduler.ResetRunTime | src/system/scheduler.h:138 | the worst run time becomes 0 and the worst system `EMPTY`; the last run time and the table stay as they were, and the invariant holds |
| SimpleScheduler.Sht30Example | src/system/scheduler.h:163-194 | the example driver, registered at time 0, gets INIT (2000 ms) on the first pass and nothing at 1999 ms. It then runs its cycle at 2000, 2010 and 2015 ms with the delays 10, 5 and 290 |

## Left out

- Configuration forms and JSON (`selectConfigForm`, `getConfigForms`, `getConfigJSON`,
  `readConfigJSON`): these build ArduinoJson objects and Arduino `String`s in a foreign library.
- The flash-resident name tables `LET_*` / `LET_NAMES`, `findSlotDescription`, `findSlotKey`,
  `sensorName` and `maxRunTimeSystemName`: codes and names are opaque constants here.
- `dumpTable()`: serial debug output. `registeredNames()` is modelled as the list of codes, not as
  the formatted `String`.
- Run-time measurement under `DBG_NAMF_TIMES`: it reads the hardware clock. `Process` leaves the
  debug counters alone; only `resetRunTime` and the accessors are modelled.
- `NAMFSchedulerEntry::process()`: its body is not in the header and nothing in the header calls it.
- Re-entrancy: a callback that calls `runIn` while `process()` is running. In the model, callbacks
  are pure state machines that cannot reach the table.
- The LCD and the real sensor drivers, including the hardware calls inside the example driver.
- The example's `SHT30_resultF` and its four-argument `registerSensor` call: they do not match the
  declared API.
- `STOP`: nothing in the header sends it. The model never sends it either; `Invoke` defines the
  example drivers' answer to it.
- Dispatch.FiresAfterReturnedDelay: the guarantee is stated only for delays of at most 2^31 and
  only when `t + d` (mod 2^32) is not 0. Delays above 2^31 read as past due
  (`Clock.LongDelayIsDueAtOnce`), and a new due time of 0 re-sends INIT (`Dispatch.MarkerCollision`).
- Dispatch.NewEntryFiresInit: a new row fires INIT on its first pass only if nothing touches its
  due time first; `runIn` before the first pass suppresses INIT (`Dispatch.RunInSuppressesInit`).
