/** Subsystem kinds and lifecycle events of the scheduler, with the
    ordinals the C enum gives them. */
module Kinds {

  datatype Option<T> = None | Some(value: T)

  /** The subsystem occupying a table row; EMPTY marks a free row. */
  datatype LoopEntryType =
    | EMPTY
    | SPS30
    | NTW_WTD
    | SHT3x
    | MHZ14A
    | SDS011
    | HECA
    | BMPx80
    | BME280

  /** The phase a callback is invoked with. */
  datatype LoopEventType = INIT | RUN | STOP

  /** The enum's bound: one past the last kind's ordinal. It is a range
      bound only, never a kind. */
  const NAMF_LOOP_SIZE: nat := 9

  /** The ordinal the C enum assigns to a kind. */
  function Ord(k: LoopEntryType): (n: nat)
    ensures n < NAMF_LOOP_SIZE
    ensures n == 0 <==> k == EMPTY
  {
    match k
    case EMPTY => 0
    case SPS30 => 1
    case NTW_WTD => 2
    case SHT3x => 3
    case MHZ14A => 4
    case SDS011 => 5
    case HECA => 6
    case BMPx80 => 7
    case BME280 => 8
  }

  /** The kind with a given ordinal, if any (an integer converted back to
      the enum). */
  function KindOf(n: nat): (r: Option<LoopEntryType>)
    ensures r.Some? <==> n < NAMF_LOOP_SIZE
    ensures r.Some? ==> Ord(r.value) == n
  {
    if n == 0 then Some(EMPTY)
    else if n == 1 then Some(SPS30)
    else if n == 2 then Some(NTW_WTD)
    else if n == 3 then Some(SHT3x)
    else if n == 4 then Some(MHZ14A)
    else if n == 5 then Some(SDS011)
    else if n == 6 then Some(HECA)
    else if n == 7 then Some(BMPx80)
    else if n == 8 then Some(BME280)
    else None
  }

  /** Ord is one-to-one, so a kind is identified by its ordinal. */
  lemma OrdInjective(a: LoopEntryType, b: LoopEntryType)
    ensures Ord(a) == Ord(b) ==> a == b
  {
  }

  lemma KindOfOrd(k: LoopEntryType)
    ensures KindOf(Ord(k)) == Some(k)
  {
  }

  /** Post-increment on the enum: the next kind, or None once the
      increment reaches NAMF_LOOP_SIZE. */
  function Increment(k: LoopEntryType): (r: Option<LoopEntryType>)
    ensures r.Some? <==> Ord(k) + 1 < NAMF_LOOP_SIZE
    ensures r.Some? ==> Ord(r.value) == Ord(k) + 1
  {
    KindOf(Ord(k) + 1)
  }

  /** The kinds visited by a loop that starts at k and applies ++ until
      it reaches NAMF_LOOP_SIZE. */
  function KindsFrom(k: LoopEntryType): seq<LoopEntryType>
    decreases NAMF_LOOP_SIZE - Ord(k)
  {
    match Increment(k)
    case None => [k]
    case Some(next) => [k] + KindsFrom(next)
  }

  /** Iterating with ++ from k visits, in order, exactly the kinds whose
      ordinals run from Ord(k) up to the bound. */
  lemma {:induction false} KindsFromOrdinals(k: LoopEntryType)
    ensures |KindsFrom(k)| == NAMF_LOOP_SIZE - Ord(k)
    ensures forall i :: 0 <= i < |KindsFrom(k)| ==> Ord(KindsFrom(k)[i]) == Ord(k) + i
    decreases NAMF_LOOP_SIZE - Ord(k)
  {
    match Increment(k)
    case None =>
    case Some(next) =>
      KindsFromOrdinals(next);
  }

  /** A loop from EMPTY with ++ reaches every kind exactly once. */
  lemma AllKindsEnumerated(k: LoopEntryType)
    ensures |KindsFrom(EMPTY)| == NAMF_LOOP_SIZE
    ensures KindsFrom(EMPTY)[Ord(k)] == k
  {
    KindsFromOrdinals(EMPTY);
    OrdInjective(KindsFrom(EMPTY)[Ord(k)], k);
  }
}
