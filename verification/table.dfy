/** The scheduler's table as a value: the rows, the queries over them and
    the table each registration operation produces. The class in
    scheduler.dfy updates an array in place and is proved against these
    functions. */
module Table {
  import opened Kinds
  import opened Clock
  import opened Drivers

  /** Number of rows in the table. */
  const SCHEDULER_SIZE: nat := 10

  /** The opaque configuration key of a subsystem. */
  type Code = string

  /** One row of the table. */
  datatype LoopEntry = LoopEntry(
    process: Callback,     // invoked with an event, returns the delay until the row is next due
    nextRun: ULong,        // absolute due time; 0 means the row has never run
    slotID: LoopEntryType, // the subsystem in this row, EMPTY when free
    slotCode: Code,        // configuration key
    hasDisplay: Byte)      // number of display screens the subsystem claims

  /** An unused row. */
  const Blank := LoopEntry(NullF, 0, EMPTY, "", 0)

  /** The row a successful registration writes: due at once, no screens. */
  function NewEntry(slot: LoopEntryType, f: Callback, code: Code): LoopEntry
  {
    LoopEntry(f, 0, slot, code, 0)
  }

  predicate Occupied(row: LoopEntry)
  {
    row.slotID != EMPTY
  }

  /** No kind occupies two rows. */
  predicate UniqueKinds(rows: seq<LoopEntry>)
  {
    forall i, j :: 0 <= i < j < |rows| && Occupied(rows[i]) ==> rows[i].slotID != rows[j].slotID
  }

  /** The table's invariant: kinds are unique and every free row is blank. */
  predicate WellFormed(rows: seq<LoopEntry>)
  {
    UniqueKinds(rows) && forall i :: 0 <= i < |rows| && !Occupied(rows[i]) ==> rows[i] == Blank
  }

  predicate IsRegisteredIn(rows: seq<LoopEntry>, kind: LoopEntryType)
  {
    kind != EMPTY && exists i :: 0 <= i < |rows| && rows[i].slotID == kind
  }

  /** The set of kinds that occupy some row. */
  function RegisteredKinds(rows: seq<LoopEntry>): set<LoopEntryType>
  {
    set i | 0 <= i < |rows| && Occupied(rows[i]) :: rows[i].slotID
  }

  // ---------------------------------------------------------------------
  // Searching

  /** The first row satisfying p, scanning in table order. */
  function FirstWhere(rows: seq<LoopEntry>, p: LoopEntry -> bool): (r: Option<nat>)
    ensures r.Some? ==> r.value < |rows| && p(rows[r.value])
    ensures r.Some? ==> forall j :: 0 <= j < r.value ==> !p(rows[j])
    ensures r.None? ==> forall j :: 0 <= j < |rows| ==> !p(rows[j])
  {
    if |rows| == 0 then None
    else if p(rows[0]) then Some(0)
    else match FirstWhere(rows[1..], p)
      case None => None
      case Some(i) => Some(i + 1)
  }

  /** The row holding `kind`; EMPTY is never found. */
  function IndexOf(rows: seq<LoopEntry>, kind: LoopEntryType): (r: Option<nat>)
    ensures r.Some? <==> IsRegisteredIn(rows, kind)
    ensures r.Some? ==> r.value < |rows| && rows[r.value].slotID == kind
  {
    if kind == EMPTY then None else FirstWhere(rows, (row: LoopEntry) => row.slotID == kind)
  }

  /** The row whose kind has ordinal `id` (the scheduler's findSlot). */
  function FindRow(rows: seq<LoopEntry>, id: nat): (r: Option<nat>)
    ensures r.Some? ==> r.value < |rows| && Occupied(rows[r.value]) && Ord(rows[r.value].slotID) == id
    ensures r.None? ==> forall i :: 0 <= i < |rows| && Occupied(rows[i]) ==> Ord(rows[i].slotID) != id
  {
    match KindOf(id)
    case None => None
    case Some(k) => IndexOf(rows, k)
  }

  /** Where registration puts a new row: the first free one. */
  function FirstFree(rows: seq<LoopEntry>): (r: Option<nat>)
    ensures r.Some? ==> r.value < |rows| && !Occupied(rows[r.value])
    ensures r.Some? ==> forall j :: 0 <= j < r.value ==> Occupied(rows[j])
    ensures r.None? ==> forall j :: 0 <= j < |rows| ==> Occupied(rows[j])
  {
    FirstWhere(rows, (row: LoopEntry) => row.slotID == EMPTY)
  }

  /** An optional row as the C code's int: the index, or -1. */
  function IndexOrMinusOne(r: Option<nat>): int
  {
    match r
    case None => -1
    case Some(i) => i
  }

  /** Looking a kind up by its ordinal finds the row holding it. */
  lemma FindRowByOrd(rows: seq<LoopEntry>, kind: LoopEntryType)
    ensures FindRow(rows, Ord(kind)) == IndexOf(rows, kind)
  {
    KindOfOrd(kind);
  }

  /** A table of blank rows has no occupied row and no screen. */
  lemma {:induction false} BlankCounts(rows: seq<LoopEntry>)
    requires forall i :: 0 <= i < |rows| ==> rows[i] == Blank
    ensures OccupiedCount(rows) == 0 && CountScreens(rows) == 0 && WellFormed(rows)
    decreases |rows|
  {
    if |rows| > 0 {
      BlankCounts(rows[..|rows| - 1]);
    }
  }

  /** With unique kinds, the row holding a kind is the only one. */
  lemma IndexOfUnique(rows: seq<LoopEntry>, kind: LoopEntryType, i: nat)
    requires UniqueKinds(rows)
    requires i < |rows| && Occupied(rows[i]) && rows[i].slotID == kind
    ensures IndexOf(rows, kind) == Some(i)
  {
  }

  // ---------------------------------------------------------------------
  // Counting

  /** Sum of a per-row measure over the rows. */
  function Sum(rows: seq<LoopEntry>, f: LoopEntry -> nat): nat
  {
    if |rows| == 0 then 0 else Sum(rows[..|rows| - 1], f) + f(rows[|rows| - 1])
  }

  function OccupiedOf(row: LoopEntry): nat { if Occupied(row) then 1 else 0 }
  function FreeOf(row: LoopEntry): nat { if Occupied(row) then 0 else 1 }

  /** Screens claimed by a row; a free row claims none. */
  function ScreensOf(row: LoopEntry): nat { if Occupied(row) then row.hasDisplay else 0 }

  function OccupiedCount(rows: seq<LoopEntry>): nat { Sum(rows, OccupiedOf) }
  function FreeCount(rows: seq<LoopEntry>): nat { Sum(rows, FreeOf) }
  function CountScreens(rows: seq<LoopEntry>): nat { Sum(rows, ScreensOf) }

  lemma SumNext(rows: seq<LoopEntry>, i: nat, f: LoopEntry -> nat)
    requires i < |rows|
    ensures Sum(rows[..i + 1], f) == Sum(rows[..i], f) + f(rows[i])
  {
    assert rows[..i + 1][..i] == rows[..i];
  }

  lemma SumAll(rows: seq<LoopEntry>, f: LoopEntry -> nat)
    ensures Sum(rows[..|rows|], f) == Sum(rows, f)
  {
    assert rows[..|rows|] == rows;
  }

  /** Replacing one row changes a sum by that row's difference only. */
  lemma {:induction false} SumUpdate(rows: seq<LoopEntry>, i: nat, x: LoopEntry, f: LoopEntry -> nat)
    requires i < |rows|
    ensures Sum(rows[i := x], f) + f(rows[i]) == Sum(rows, f) + f(x)
    decreases |rows|
  {
    var n := |rows| - 1;
    var rows' := rows[i := x];
    if i < n {
      assert rows'[..n] == rows[..n][i := x];
      SumUpdate(rows[..n], i, x, f);
    } else {
      assert rows'[..n] == rows[..n];
    }
  }

  /** Two tables whose rows agree on a measure have the same sum. */
  lemma {:induction false} SumCongruent(a: seq<LoopEntry>, b: seq<LoopEntry>, f: LoopEntry -> nat)
    requires |a| == |b|
    requires forall i :: 0 <= i < |a| ==> f(a[i]) == f(b[i])
    ensures Sum(a, f) == Sum(b, f)
    decreases |a|
  {
    if |a| > 0 {
      var n := |a| - 1;
      SumCongruent(a[..n], b[..n], f);
    }
  }

  /** Every row is either free or occupied: free + occupied = rows. */
  lemma {:induction false} FreePlusOccupied(rows: seq<LoopEntry>)
    ensures FreeCount(rows) + OccupiedCount(rows) == |rows|
    decreases |rows|
  {
    if |rows| > 0 {
      FreePlusOccupied(rows[..|rows| - 1]);
    }
  }

  /** Appending a row adds its kind to the registered kinds, if it has one. */
  lemma RegisteredKindsSnoc(rows: seq<LoopEntry>)
    requires |rows| > 0
    ensures var n := |rows| - 1;
      RegisteredKinds(rows) == RegisteredKinds(rows[..n]) + (if Occupied(rows[n]) then {rows[n].slotID} else {})
  {
    var n := |rows| - 1;
    var init := rows[..n];
    var extra: set<LoopEntryType> := if Occupied(rows[n]) then {rows[n].slotID} else {};
    forall k | k in RegisteredKinds(rows) ensures k in RegisteredKinds(init) + extra {
      var i :| 0 <= i < |rows| && Occupied(rows[i]) && rows[i].slotID == k;
      if i < n { assert init[i] == rows[i]; }
    }
    forall k | k in RegisteredKinds(init) ensures k in RegisteredKinds(rows) {
      var i :| 0 <= i < n && Occupied(init[i]) && init[i].slotID == k;
      assert rows[i] == init[i];
    }
  }

  /** With unique kinds, the number of occupied rows is the number of
      registered kinds. */
  lemma {:induction false} OccupiedCountIsKindCount(rows: seq<LoopEntry>)
    requires UniqueKinds(rows)
    ensures OccupiedCount(rows) == |RegisteredKinds(rows)|
    decreases |rows|
  {
    if |rows| > 0 {
      var n := |rows| - 1;
      var init := rows[..n];
      assert UniqueKinds(init);
      OccupiedCountIsKindCount(init);
      RegisteredKindsSnoc(rows);
      if Occupied(rows[n]) {
        forall i | 0 <= i < n && Occupied(init[i]) ensures init[i].slotID != rows[n].slotID {
          assert rows[i] == init[i];
        }
        assert rows[n].slotID !in RegisteredKinds(init);
      }
    }
  }

  /** A well-formed table of SCHEDULER_SIZE rows: free rows and registered
      kinds together make up the table, and neither exceeds it. */
  lemma SlotAccounting(rows: seq<LoopEntry>)
    requires |rows| == SCHEDULER_SIZE && WellFormed(rows)
    ensures FreeCount(rows) + |RegisteredKinds(rows)| == SCHEDULER_SIZE
    ensures FreeCount(rows) <= SCHEDULER_SIZE
  {
    FreePlusOccupied(rows);
    OccupiedCountIsKindCount(rows);
  }

  /** There is a free row exactly when the free count is positive. */
  lemma {:induction false} FreeCountPositive(rows: seq<LoopEntry>)
    ensures FirstFree(rows).Some? <==> FreeCount(rows) > 0
    decreases |rows|
  {
    if |rows| > 0 {
      var n := |rows| - 1;
      FreeCountPositive(rows[..n]);
      assert FirstFree(rows[..n]).None? ==> forall j :: 0 <= j < n ==> Occupied(rows[..n][j]);
      if FirstFree(rows[..n]).Some? {
        var j := FirstFree(rows[..n]).value;
        assert !Occupied(rows[j]);
      }
    }
  }

  // ---------------------------------------------------------------------
  // Registration

  datatype Refusal = EmptyKind | AlreadyRegistered | TableFull

  /** Outcome of registerSensor: the row used, or why it was refused. */
  datatype Registration = Accepted(row: nat) | Refused(reason: Refusal)

  /** registerSensor on the table value. */
  function Register(rows: seq<LoopEntry>, slot: LoopEntryType, f: Callback, code: Code): (Registration, seq<LoopEntry>)
  {
    if slot == EMPTY then (Refused(EmptyKind), rows)
    else if IndexOf(rows, slot).Some? then (Refused(AlreadyRegistered), rows)
    else match FirstFree(rows)
      case None => (Refused(TableFull), rows)
      case Some(i) => (Accepted(i), rows[i := NewEntry(slot, f, code)])
  }

  /** unregisterSensor on the table value. */
  function Unregister(rows: seq<LoopEntry>, slot: LoopEntryType): seq<LoopEntry>
  {
    match IndexOf(rows, slot)
    case None => rows
    case Some(i) => rows[i := Blank]
  }

  /** enableSubsystem on the table value. */
  function Enable(rows: seq<LoopEntry>, slot: LoopEntryType, enabled: bool, f: Callback, code: Code): seq<LoopEntry>
  {
    if enabled then Register(rows, slot, f, code).1 else Unregister(rows, slot)
  }

  /** Registration is refused exactly for EMPTY, a duplicate kind or a
      full table; a refusal leaves the table as it was. */
  lemma RegisterRefusals(rows: seq<LoopEntry>, slot: LoopEntryType, f: Callback, code: Code)
    requires |rows| == SCHEDULER_SIZE && WellFormed(rows)
    ensures var (r, rows') := Register(rows, slot, f, code);
      && (r == Refused(EmptyKind) <==> slot == EMPTY)
      && (r == Refused(AlreadyRegistered) <==> IsRegisteredIn(rows, slot))
      && (r == Refused(TableFull) <==> slot != EMPTY && !IsRegisteredIn(rows, slot) && FreeCount(rows) == 0)
      && (r.Refused? ==> rows' == rows)
  {
    FreeCountPositive(rows);
  }

  /** A successful registration fills the first free row with exactly the
      kind, callback and code given, due at once; no other row changes, one
      free row is used up and the table stays well formed. */
  lemma RegisterAccepted(rows: seq<LoopEntry>, slot: LoopEntryType, f: Callback, code: Code)
    requires WellFormed(rows)
    requires Register(rows, slot, f, code).0.Accepted?
    ensures var (r, rows') := Register(rows, slot, f, code);
      && r.row < |rows| && |rows'| == |rows|
      && !Occupied(rows[r.row]) && (forall j :: 0 <= j < r.row ==> Occupied(rows[j]))
      && rows'[r.row] == LoopEntry(f, 0, slot, code, 0)
      && (forall j :: 0 <= j < |rows| && j != r.row ==> rows'[j] == rows[j])
      && IsRegisteredIn(rows', slot)
      && IndexOf(rows', slot) == Some(r.row)
      && FreeCount(rows') + 1 == FreeCount(rows)
      && OccupiedCount(rows') == OccupiedCount(rows) + 1
      && CountScreens(rows') == CountScreens(rows)
      && WellFormed(rows')
  {
    var (r, rows') := Register(rows, slot, f, code);
    var i := r.row;
    SumUpdate(rows, i, rows'[i], FreeOf);
    SumUpdate(rows, i, rows'[i], OccupiedOf);
    SumUpdate(rows, i, rows'[i], ScreensOf);
    assert !IsRegisteredIn(rows, slot);
    IndexOfUnique(rows', slot, i);
  }

  /** After unregistering, the kind is no longer registered, every other
      row is unchanged and, if it had been registered, exactly one row has
      been freed; unregistering an absent kind changes nothing. */
  lemma UnregisterEffect(rows: seq<LoopEntry>, slot: LoopEntryType)
    requires WellFormed(rows)
    ensures var rows' := Unregister(rows, slot);
      && |rows'| == |rows|
      && !IsRegisteredIn(rows', slot)
      && (forall j :: 0 <= j < |rows| && rows[j].slotID != slot ==> rows'[j] == rows[j])
      && (IsRegisteredIn(rows, slot) ==> FreeCount(rows') == FreeCount(rows) + 1)
      && (!IsRegisteredIn(rows, slot) ==> rows' == rows)
      && WellFormed(rows')
  {
    match IndexOf(rows, slot)
    case None =>
    case Some(i) =>
      var rows' := rows[i := Blank];
      SumUpdate(rows, i, Blank, FreeOf);
      forall j | 0 <= j < |rows'| ensures rows'[j].slotID != slot {
        assert j < i ==> rows[j].slotID != rows[i].slotID;
        assert i < j ==> rows[i].slotID != rows[j].slotID;
      }
  }

  /** Enabling leaves the kind registered (when it is a real kind and was
      registered already or a row was free); disabling leaves it
      unregistered. */
  lemma EnableEffect(rows: seq<LoopEntry>, slot: LoopEntryType, enabled: bool, f: Callback, code: Code)
    requires WellFormed(rows)
    ensures enabled && slot != EMPTY && (IsRegisteredIn(rows, slot) || FreeCount(rows) > 0)
      ==> IsRegisteredIn(Enable(rows, slot, enabled, f, code), slot)
    ensures enabled && IsRegisteredIn(rows, slot) ==> Enable(rows, slot, enabled, f, code) == rows
    ensures !enabled ==> !IsRegisteredIn(Enable(rows, slot, enabled, f, code), slot)
    ensures WellFormed(Enable(rows, slot, enabled, f, code))
  {
    FreeCountPositive(rows);
    if enabled {
      if Register(rows, slot, f, code).0.Accepted? {
        RegisterAccepted(rows, slot, f, code);
      }
    } else {
      UnregisterEffect(rows, slot);
    }
  }

  // ---------------------------------------------------------------------
  // Rescheduling and display registration

  /** runIn(slot, time): the row whose kind has ordinal `id` becomes due
      `time` ms after `now`. */
  function RunIn(rows: seq<LoopEntry>, id: nat, now: ULong, time: ULong): seq<LoopEntry>
  {
    match FindRow(rows, id)
    case None => rows
    case Some(i) => rows[i := rows[i].(nextRun := Add(now, time))]
  }

  /** runIn(slot, time, func): as RunIn, and the row's callback becomes f. */
  function RunInWith(rows: seq<LoopEntry>, id: nat, now: ULong, time: ULong, f: Callback): seq<LoopEntry>
  {
    match FindRow(rows, id)
    case None => rows
    case Some(i) => rows[i := rows[i].(nextRun := Add(now, time), process := f)]
  }

  /** runIn changes only the nextRun of the row it names, and that row is
      then due exactly `time` ms after `now`; the two-argument form keeps
      the callback, the three-argument form replaces it. An id naming no
      occupied row changes nothing. */
  lemma RunInEffect(rows: seq<LoopEntry>, id: nat, now: ULong, time: ULong, f: Callback)
    requires WellFormed(rows)
    ensures var a := RunIn(rows, id, now, time);
      var b := RunInWith(rows, id, now, time, f);
      && |a| == |rows| && |b| == |rows|
      && (forall j :: 0 <= j < |rows| && Ord(rows[j].slotID) != id ==> a[j] == rows[j] && b[j] == rows[j])
      && (forall j :: 0 <= j < |rows| && Occupied(rows[j]) && Ord(rows[j].slotID) == id ==>
            a[j] == rows[j].(nextRun := Add(now, time))
            && b[j] == rows[j].(nextRun := Add(now, time), process := f)
            && Elapsed(a[j].nextRun, now) == time)
      && (FindRow(rows, id).None? ==> a == rows && b == rows)
      && WellFormed(a) && WellFormed(b)
  {
    match FindRow(rows, id)
    case None =>
    case Some(i) =>
      forall j | 0 <= j < |rows| && Occupied(rows[j]) && Ord(rows[j].slotID) == id
        ensures j == i
      {
        OrdInjective(rows[j].slotID, rows[i].slotID);
      }
      ElapsedAfterAdd(now, time);
  }

  /** registerDisplay on the table value: the result is the row index, or
      -1 when the kind is not registered. */
  function SetDisplay(rows: seq<LoopEntry>, slot: LoopEntryType, screens: Byte): (int, seq<LoopEntry>)
  {
    match IndexOf(rows, slot)
    case None => (-1, rows)
    case Some(i) => (i as int, rows[i := rows[i].(hasDisplay := screens)])
  }

  /** Registering a display claim replaces that row's screen count in the
      total and changes nothing else. */
  lemma SetDisplayEffect(rows: seq<LoopEntry>, slot: LoopEntryType, screens: Byte)
    requires WellFormed(rows)
    ensures var (r, rows') := SetDisplay(rows, slot, screens);
      && |rows'| == |rows|
      && (r >= 0 <==> IsRegisteredIn(rows, slot))
      && (r < 0 ==> r == -1 && rows' == rows)
      && (r >= 0 ==>
            && r < |rows| && rows[r].slotID == slot
            && rows'[r] == rows[r].(hasDisplay := screens)
            && CountScreens(rows') + rows[r].hasDisplay == CountScreens(rows) + screens)
      && (forall j :: 0 <= j < |rows| && rows[j].slotID != slot ==> rows'[j] == rows[j])
      && WellFormed(rows')
  {
    match IndexOf(rows, slot)
    case None =>
    case Some(i) =>
      SumUpdate(rows, i, rows[i].(hasDisplay := screens), ScreensOf);
  }

  // ---------------------------------------------------------------------
  // Display rotation

  /** A display screen: the row it belongs to and its sub-screen number. */
  datatype Screen = Screen(row: nat, minor: nat)

  /** The screen at position `pos`, counting screens from row `i` on. */
  function ScreenFrom(rows: seq<LoopEntry>, i: nat, pos: nat): Option<Screen>
    decreases |rows| - i
  {
    if i >= |rows| then None
    else if pos < ScreensOf(rows[i]) then Some(Screen(i, pos))
    else ScreenFrom(rows, i + 1, pos - ScreensOf(rows[i]))
  }

  /** The screen at position `pos` of the whole rotation. */
  function ScreenAt(rows: seq<LoopEntry>, pos: nat): Option<Screen>
  {
    ScreenFrom(rows, 0, pos)
  }

  lemma {:induction false} ScreenFromShape(rows: seq<LoopEntry>, i: nat, pos: nat)
    requires i <= |rows|
    ensures ScreenFrom(rows, i, pos).Some? <==> CountScreens(rows[..i]) + pos < CountScreens(rows)
    ensures ScreenFrom(rows, i, pos).Some? ==>
      var s := ScreenFrom(rows, i, pos).value;
      && i <= s.row < |rows| && s.minor < ScreensOf(rows[s.row])
      && CountScreens(rows[..s.row]) + s.minor == CountScreens(rows[..i]) + pos
    decreases |rows| - i
  {
    if i == |rows| {
      SumAll(rows, ScreensOf);
    } else {
      SumNext(rows, i, ScreensOf);
      if pos < ScreensOf(rows[i]) {
        PrefixBelowTotal(rows, i + 1);
      } else {
        ScreenFromShape(rows, i + 1, pos - ScreensOf(rows[i]));
      }
    }
  }

  lemma {:induction false} PrefixBelowTotal(rows: seq<LoopEntry>, i: nat)
    requires i <= |rows|
    ensures CountScreens(rows[..i]) <= CountScreens(rows)
    decreases |rows| - i
  {
    if i == |rows| {
      SumAll(rows, ScreensOf);
    } else {
      SumNext(rows, i, ScreensOf);
      PrefixBelowTotal(rows, i + 1);
    }
  }

  /** The screen at a position belongs to an occupied row claiming a
      non-zero number of screens; positions below countScreens() are
      exactly those that hold a screen. */
  lemma ScreenAtSound(rows: seq<LoopEntry>, pos: nat)
    ensures ScreenAt(rows, pos).Some? <==> pos < CountScreens(rows)
    ensures ScreenAt(rows, pos).Some? ==>
      var s := ScreenAt(rows, pos).value;
      && s.row < |rows| && Occupied(rows[s.row]) && rows[s.row].hasDisplay > 0
      && s.minor < rows[s.row].hasDisplay
      && CountScreens(rows[..s.row]) + s.minor == pos
  {
    ScreenFromShape(rows, 0, pos);
  }

  /** Every sub-screen of every row is shown at exactly one position, the
      number of screens of earlier rows plus the sub-screen number; with
      ScreenAtSound this makes the positions below countScreens() and the
      screens correspond one to one. */
  lemma ScreenAtComplete(rows: seq<LoopEntry>, i: nat, m: nat)
    requires i < |rows| && m < ScreensOf(rows[i])
    ensures ScreenAt(rows, CountScreens(rows[..i]) + m) == Some(Screen(i, m))
  {
    ScreenReachedFrom(rows, 0, i, m);
  }

  lemma {:induction false} ScreenReachedFrom(rows: seq<LoopEntry>, k: nat, i: nat, m: nat)
    requires k <= i < |rows| && m < ScreensOf(rows[i])
    ensures CountScreens(rows[..k]) <= CountScreens(rows[..i])
    ensures ScreenFrom(rows, k, CountScreens(rows[..i]) - CountScreens(rows[..k]) + m) == Some(Screen(i, m))
    decreases i - k
  {
    if k < i {
      ScreenReachedFrom(rows, k + 1, i, m);
      SumNext(rows, k, ScreensOf);
    }
  }

  // ---------------------------------------------------------------------
  // Registered names

  /** The codes of the occupied rows, in table order. */
  function Codes(rows: seq<LoopEntry>): seq<Code>
  {
    if |rows| == 0 then []
    else Codes(rows[..|rows| - 1]) + (if Occupied(rows[|rows| - 1]) then [rows[|rows| - 1].slotCode] else [])
  }

  /** The list of names holds the code of each occupied row and nothing
      else, one entry per occupied row. */
  lemma {:induction false} CodesOfOccupied(rows: seq<LoopEntry>)
    ensures |Codes(rows)| == OccupiedCount(rows)
    ensures forall c :: c in Codes(rows) <==> exists i :: 0 <= i < |rows| && Occupied(rows[i]) && rows[i].slotCode == c
    decreases |rows|
  {
    if |rows| > 0 {
      var n := |rows| - 1;
      CodesOfOccupied(rows[..n]);
      forall c ensures c in Codes(rows) <==> exists i :: 0 <= i < |rows| && Occupied(rows[i]) && rows[i].slotCode == c {
        if c in Codes(rows[..n]) {
          var i :| 0 <= i < n && Occupied(rows[..n][i]) && rows[..n][i].slotCode == c;
          assert rows[i] == rows[..n][i];
        }
        if exists i :: 0 <= i < |rows| && Occupied(rows[i]) && rows[i].slotCode == c {
          var i :| 0 <= i < |rows| && Occupied(rows[i]) && rows[i].slotCode == c;
          if i < n { assert rows[..n][i] == rows[i]; }
        }
      }
    }
  }
}
