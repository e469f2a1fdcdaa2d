/**
 * Many partitions reserving from one pool at once: each runs the descending loop of
 * `reserve_for_slices`, their tries interleaved in any order, with other consumers of the pool coming
 * and going (datafusion/src/hudi_exec.rs).
 */
module SharedPool {
  import opened Admission
  import opened Reservation

  datatype Partition =
    | Trying(perSlice: U64, n: U64)        // about to ask for `n` slices' bytes
    | Reading(slices: U64, bytes: nat)     // granted, or let through with nothing reserved
    | Finished(slices: U64)                // stream dropped, bytes returned

  datatype State = State(capacity: nat, used: nat, others: nat, partitions: seq<Partition>)

  datatype Action =
    | Try(p: nat)
    | Drop(p: nat)
    | OthersGrow(bytes: nat)
    | OthersShrink(bytes: nat)

  predicate Enabled(s: State, a: Action) {
    match a
    case Try(p) => p < |s.partitions| && s.partitions[p].Trying?
    case Drop(p) => p < |s.partitions| && s.partitions[p].Reading? && s.partitions[p].bytes <= s.used
    case OthersGrow(bytes) => s.used + bytes <= s.capacity
    case OthersShrink(bytes) => bytes <= s.others && bytes <= s.used
  }

  function Step(s: State, a: Action): State
    requires Enabled(s, a)
  {
    match a
    case Try(p) =>
      var part := s.partitions[p];
      var bytes := Bytes(part.perSlice, part.n);
      if part.perSlice == 0 then
        s.(partitions := s.partitions[p := Reading(part.n, 0)])
      else if s.used + bytes <= s.capacity then
        s.(used := s.used + bytes, partitions := s.partitions[p := Reading(part.n, bytes)])
      else if part.n > 1 then
        s.(partitions := s.partitions[p := Trying(part.perSlice, part.n - 1)])
      else
        s.(partitions := s.partitions[p := Reading(1, 0)])
    case Drop(p) =>
      s.(used := s.used - s.partitions[p].bytes, partitions := s.partitions[p := Finished(s.partitions[p].slices)])
    case OthersGrow(bytes) => s.(used := s.used + bytes, others := s.others + bytes)
    case OthersShrink(bytes) => s.(used := s.used - bytes, others := s.others - bytes)
  }

  function BytesOf(part: Partition): nat {
    if part.Reading? then part.bytes else 0
  }

  function Reserved(parts: seq<Partition>): nat {
    if parts == [] then 0 else BytesOf(parts[0]) + Reserved(parts[1..])
  }

  lemma {:induction false} ReservedUpdate(parts: seq<Partition>, p: nat, part: Partition)
    requires p < |parts|
    ensures Reserved(parts[p := part]) == Reserved(parts) - BytesOf(parts[p]) + BytesOf(part)
    ensures BytesOf(parts[p]) <= Reserved(parts)
  {
    if p > 0 {
      ReservedUpdate(parts[1..], p - 1, part);
      assert parts[p := part][1..] == parts[1..][p - 1 := part];
    }
  }

  predicate Admits(part: Partition) {
    match part
    case Trying(_, n) => n >= 1
    case Reading(slices, _) => slices >= 1
    case Finished(slices) => slices >= 1
  }

  ghost predicate Safe(s: State) {
    && s.used == s.others + Reserved(s.partitions)
    && s.used <= s.capacity
    && forall part :: part in s.partitions ==> Admits(part)
  }

  lemma StepIsSafe(s: State, a: Action)
    requires Safe(s) && Enabled(s, a)
    ensures Safe(Step(s, a))
  {
    if a.Try? || a.Drop? {
      var part := Step(s, a).partitions[a.p];
      ReservedUpdate(s.partitions, a.p, part);
      assert s.partitions[a.p] in s.partitions;
      assert Step(s, a).partitions == s.partitions[a.p := part];
    }
  }

  predicate Runs(s: State, actions: seq<Action>)
    decreases |actions|
  {
    actions == [] || (Enabled(s, actions[0]) && Runs(Step(s, actions[0]), actions[1..]))
  }

  function Run(s: State, actions: seq<Action>): State
    requires Runs(s, actions)
    decreases |actions|
  {
    if actions == [] then s else Run(Step(s, actions[0]), actions[1..])
  }

  function Tries(actions: seq<Action>, p: nat): nat {
    if actions == [] then 0 else (if actions[0] == Try(p) then 1 else 0) + Tries(actions[1..], p)
  }

  function TriesLeft(part: Partition): nat {
    if part.Trying? then part.n else 0
  }

  /** Every run keeps the pool within its capacity, and every partition admits at least one slice. */
  lemma {:induction false} RunIsSafe(s: State, actions: seq<Action>)
    requires Safe(s) && Runs(s, actions)
    ensures Safe(Run(s, actions)) && |Run(s, actions).partitions| == |s.partitions|
    ensures Reserved(Run(s, actions).partitions) <= Run(s, actions).capacity == s.capacity
    decreases |actions|
  {
    if actions != [] {
      StepIsSafe(s, actions[0]);
      RunIsSafe(Step(s, actions[0]), actions[1..]);
    }
  }

  /**
   * A partition that was to try `n` slices is through after at most `n` tries of its own, whatever the
   * others do, and then holds between one and `n`.
   */
  lemma {:induction false} EveryPartitionGetsThrough(s: State, actions: seq<Action>, p: nat)
    requires Safe(s) && Runs(s, actions) && p < |s.partitions|
    ensures p < |Run(s, actions).partitions|
    ensures var before, after := s.partitions[p], Run(s, actions).partitions[p];
      && Tries(actions, p) + TriesLeft(after) <= TriesLeft(before)
      && (before.Trying? && Tries(actions, p) == before.n ==> !after.Trying?)
      && (before.Trying? && !after.Trying? ==> 1 <= after.slices <= before.n)
      && (!before.Trying? ==> !after.Trying? && after.slices == before.slices)
    decreases |actions|
  {
    if actions != [] {
      var t := Step(s, actions[0]);
      StepIsSafe(s, actions[0]);
      assert s.partitions[p] in s.partitions;
      EveryPartitionGetsThrough(t, actions[1..], p);
      assert t.partitions[p] in t.partitions;
    }
  }

  /** A partition trying again and again, with nothing in between. */
  function TriesOf(p: nat, k: nat): seq<Action> {
    if k == 0 then [] else [Try(p)] + TriesOf(p, k - 1)
  }

  /** How many counts the loop goes through. */
  function LoopLength(free: nat, perSlice: U64, n: U64): nat
    requires n >= 1
  {
    if perSlice == 0 then 1
    else
      var fit := GreatestFit(free, perSlice, n);
      if fit == 0 then n else n - fit + 1
  }

  /** The state when a partition has been granted what the loop grants of the free bytes. */
  function Granted(s: State, p: nat, perSlice: U64, n: U64): State
    requires p < |s.partitions| && s.used <= s.capacity
  {
    var free := s.capacity - s.used;
    var bytes := BytesGranted(free, perSlice, n);
    s.(used := s.used + bytes, partitions := s.partitions[p := Reading(SlicesGranted(free, perSlice, n), bytes)])
  }

  lemma TryIsLoopStep(s: State, p: nat, perSlice: U64, n: U64)
    requires p < |s.partitions| && s.used <= s.capacity
    requires s.partitions[p] == Trying(perSlice, n) && n >= 1
    ensures var (t, k) := (Step(s, Try(p)), LoopLength(s.capacity - s.used, perSlice, n));
      if k == 1 then t == Granted(s, p, perSlice, n)
      else
        && n > 1
        && t == s.(partitions := s.partitions[p := Trying(perSlice, n - 1)])
        && LoopLength(s.capacity - s.used, perSlice, n - 1) == k - 1
        && Granted(t, p, perSlice, n - 1) == Granted(s, p, perSlice, n)
  {
    var free := s.capacity - s.used;
    if LoopLength(free, perSlice, n) != 1 {
      assert GreatestFit(free, perSlice, n) == GreatestFit(free, perSlice, n - 1);
      var r := Reading(SlicesGranted(free, perSlice, n), BytesGranted(free, perSlice, n));
      assert s.partitions[p := Trying(perSlice, n - 1)][p := r] == s.partitions[p := r];
    }
  }

  lemma OneMoreTry(s: State, p: nat, k: nat)
    requires k >= 1 && Enabled(s, Try(p)) && Runs(Step(s, Try(p)), TriesOf(p, k - 1))
    ensures Runs(s, TriesOf(p, k)) && Run(s, TriesOf(p, k)) == Run(Step(s, Try(p)), TriesOf(p, k - 1))
  {
    assert TriesOf(p, k)[0] == Try(p) && TriesOf(p, k)[1..] == TriesOf(p, k - 1);
  }

  /** Undisturbed, a partition's tries end where the loop of `ReserveForSlices` ends, with all else as it was. */
  lemma {:induction false} UndisturbedTriesAreTheLoop(s: State, p: nat, perSlice: U64, n: U64)
    requires p < |s.partitions| && s.used <= s.capacity
    requires s.partitions[p] == Trying(perSlice, n) && n >= 1
    ensures var tries := TriesOf(p, LoopLength(s.capacity - s.used, perSlice, n));
      Runs(s, tries) && Run(s, tries) == Granted(s, p, perSlice, n)
    decreases n
  {
    var k := LoopLength(s.capacity - s.used, perSlice, n);
    TryIsLoopStep(s, p, perSlice, n);
    if k == 1 {
      assert TriesOf(p, 0) == [];
    } else {
      UndisturbedTriesAreTheLoop(Step(s, Try(p)), p, perSlice, n - 1);
    }
    OneMoreTry(s, p, k);
  }

  /** A partition that reads can always stop, and the pool then has its bytes back. */
  lemma DroppingReturnsBytes(s: State, p: nat)
    requires Safe(s) && p < |s.partitions| && s.partitions[p].Reading?
    ensures Enabled(s, Drop(p))
    ensures Step(s, Drop(p)) ==
      s.(used := s.used - s.partitions[p].bytes, partitions := s.partitions[p := Finished(s.partitions[p].slices)])
  {
    ReservedUpdate(s.partitions, p, Finished(s.partitions[p].slices));
  }
}
