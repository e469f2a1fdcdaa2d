/** How a partition's scan reserves memory before it reads (datafusion/src/hudi_exec.rs). */
module Reservation {
  import opened Wrappers
  import opened Admission

  /** The product the program passes to the pool, wrapped as machine multiplication wraps it. */
  function Bytes(perSlice: U64, n: U64): U64 {
    perSlice * n % WORD
  }

  /** The greatest count up to `planned` whose bytes the pool has free. */
  function GreatestFit(free: nat, perSlice: U64, planned: U64): (n: U64)
    ensures n <= planned
    ensures n > 0 ==> Bytes(perSlice, n) <= free
    ensures forall m: U64 :: n < m <= planned ==> Bytes(perSlice, m) > free
  {
    if planned == 0 then 0
    else if Bytes(perSlice, planned) <= free then planned
    else GreatestFit(free, perSlice, planned - 1)
  }

  /** A pool that grants what it has free. */
  class MemoryPool {
    const capacity: nat
    var used: nat

    ghost predicate Valid()
      reads this
    {
      used <= capacity
    }

    constructor (capacity: nat)
      ensures Valid() && this.capacity == capacity && used == 0
    {
      this.capacity := capacity;
      used := 0;
    }
  }

  class MemoryReservation {
    const pool: MemoryPool
    var size: nat

    constructor (pool: MemoryPool)
      ensures this.pool == pool && size == 0
    {
      this.pool := pool;
      size := 0;
    }

    method TryGrow(bytes: nat) returns (ok: bool)
      requires pool.Valid()
      modifies this, pool
      ensures pool.Valid()
      ensures ok <==> old(pool.used) + bytes <= pool.capacity
      ensures size == old(size) + if ok then bytes else 0
      ensures pool.used == old(pool.used) + if ok then bytes else 0
    {
      if pool.used + bytes <= pool.capacity {
        pool.used := pool.used + bytes;
        size := size + bytes;
        return true;
      }
      return false;
    }
  }

  method ReserveForSlices(reservation: MemoryReservation, perSlice: U64, planned: U64) returns (n: U64)
    requires reservation.pool.Valid()
    modifies reservation, reservation.pool
    ensures reservation.pool.Valid()
    ensures n == SlicesGranted(old(reservation.pool.capacity - reservation.pool.used), perSlice, planned)
    ensures var bytes := BytesGranted(old(reservation.pool.capacity - reservation.pool.used), perSlice, planned);
      && reservation.size == old(reservation.size) + bytes
      && reservation.pool.used == old(reservation.pool.used) + bytes
  {
    if perSlice == 0 {
      return planned;
    }
    n := planned;
    while n > 0
      invariant n <= planned
      invariant reservation.pool.Valid()
      invariant reservation.size == old(reservation.size) && reservation.pool.used == old(reservation.pool.used)
      invariant GreatestFit(reservation.pool.capacity - reservation.pool.used, perSlice, n) ==
                GreatestFit(reservation.pool.capacity - reservation.pool.used, perSlice, planned)
    {
      var ok := reservation.TryGrow(Bytes(perSlice, n));
      if ok {
        return n;
      }
      n := n - 1;
    }
    return 1;
  }

  /** How many slices a partition may read, and how much the pool holds for them. */
  function SlicesGranted(free: nat, perSlice: U64, planned: U64): U64 {
    if perSlice == 0 then planned
    else
      var n := GreatestFit(free, perSlice, planned);
      if n == 0 then 1 else n
  }

  function BytesGranted(free: nat, perSlice: U64, planned: U64): nat {
    if perSlice == 0 then 0
    else
      var n := GreatestFit(free, perSlice, planned);
      if n == 0 then 0 else Bytes(perSlice, n)
  }

  /**
   * Where the product does not overflow, the loop grants the greatest count the pool can pay for in
   * full, reserving one estimate for each slice; failing that, one slice and nothing reserved.
   */
  lemma GrantIsGreatestAndPaidFor(free: nat, perSlice: U64, planned: U64, m: U64)
    requires 1 <= planned && perSlice * planned < WORD
    ensures var n := SlicesGranted(free, perSlice, planned);
      && 1 <= n <= planned
      && (1 <= m <= planned ==> (m <= n <==> m == 1 || perSlice * m <= free))
      && BytesGranted(free, perSlice, planned) == if perSlice <= free then perSlice * n else 0
  {
    var n := GreatestFit(free, perSlice, planned);
    ExactProduct(perSlice, planned, 1);
    ExactProduct(perSlice, planned, n);
    if 1 <= m <= planned {
      ExactProduct(perSlice, planned, m);
      if m <= n {
        MulMonotone(m, n, perSlice);
      }
    }
    if n > 0 {
      MulMonotone(1, n, perSlice);
    }
  }

  lemma ExactProduct(perSlice: U64, planned: U64, n: U64)
    requires n <= planned && perSlice * planned < WORD
    ensures Bytes(perSlice, n) == perSlice * n
  {
    MulMonotone(n, planned, perSlice);
  }

  /** Every count above one is reserved for in full, whatever the pool has free, exactly when the product fits. */
  lemma GrantsArePaidForIff(perSlice: U64, planned: U64)
    requires 1 <= planned
    ensures perSlice * planned < WORD <==>
      forall free :: SlicesGranted(free, perSlice, planned) > 1 ==>
        BytesGranted(free, perSlice, planned) == perSlice * SlicesGranted(free, perSlice, planned)
  {
    if perSlice * planned < WORD {
      forall free | SlicesGranted(free, perSlice, planned) > 1
        ensures BytesGranted(free, perSlice, planned) == perSlice * SlicesGranted(free, perSlice, planned)
      {
        ExactProduct(perSlice, planned, GreatestFit(free, perSlice, planned));
      }
    } else {
      var free := Bytes(perSlice, planned);
      assert perSlice != 0 && planned > 1;
      assert SlicesGranted(free, perSlice, planned) == planned && BytesGranted(free, perSlice, planned) == free;
      assert free < WORD <= perSlice * planned;
    }
  }

  // ---------------------------------------------------------------- the plan for one partition

  function PlannedSlices(configured: U64, sizes: seq<Option<U64>>): (n: U64)
    requires |sizes| < WORD
    ensures 1 <= n <= AtLeastOne(configured)
    ensures n > 1 ==> None !in sizes && n <= configured && n <= |sizes|
    ensures None !in sizes ==> configured <= n || |sizes| <= n
  {
    if None in sizes then 1
    else AtLeastOne(if configured < |sizes| then configured else |sizes|)
  }

  /** A slice of unknown size is reserved for as one without logs. */
  function KnownOrZero(size: Option<U64>): U64 {
    match size
    case Some(b) => b
    case None => 0
  }

  /** The estimate a partition reserves per slice: its costliest, or nothing when it has no slices. */
  function PerSlice(sizes: seq<Option<U64>>): (worst: U64)
    ensures worst == 0 <==> sizes == []
    ensures sizes != [] && None !in sizes ==> worst == WorstEstimate(sizes)
    ensures forall s :: s in sizes ==> EstimatedSliceBytes(KnownOrZero(s)) <= worst
    ensures sizes != [] ==> exists s :: s in sizes && worst == EstimatedSliceBytes(KnownOrZero(s))
  {
    if sizes == [] then 0
    else
      EstimateIsSaturatedCost(KnownOrZero(sizes[0]));
      var first := EstimatedSliceBytes(KnownOrZero(sizes[0]));
      var rest := PerSlice(sizes[1..]);
      if rest < first then first else rest
  }

  /** How many slices a partition opens at once when it is executed. */
  function Concurrency(configured: U64, sizes: seq<Option<U64>>, free: nat): (n: U64)
    requires |sizes| < WORD
    ensures 1 <= n <= AtLeastOne(configured)
  {
    SlicesGranted(free, PerSlice(sizes), PlannedSlices(AtLeastOne(configured), sizes))
  }

  /**
   * A partition reads `m` slices at once, of those its plan allows, exactly when `m` is one or the pool has
   * that many of its estimates free; the plan allows one if a size is unknown, and otherwise as many as
   * the ceiling and the slices there are.
   */
  lemma ConcurrencyIff(configured: U64, sizes: seq<Option<U64>>, free: nat, m: U64)
    requires |sizes| < WORD && PerSlice(sizes) * AtLeastOne(configured) < WORD && m >= 1
    ensures var allowed :=
        if None in sizes then 1
        else if configured <= 1 || |sizes| <= 1 then 1
        else if configured < |sizes| then configured else |sizes|;
      m <= Concurrency(configured, sizes, free) <==> m <= allowed && (m == 1 || PerSlice(sizes) * m <= free)
  {
    var planned := PlannedSlices(AtLeastOne(configured), sizes);
    MulMonotone(planned, AtLeastOne(configured), PerSlice(sizes));
    GrantIsGreatestAndPaidFor(free, PerSlice(sizes), planned, m);
  }

  lemma {:induction false} InJoined<T>(chunks: seq<seq<T>>, x: T)
    ensures x in Joined(chunks) <==> exists c :: c in chunks && x in c
  {
    if chunks != [] {
      InJoined(chunks[1..], x);
      assert chunks == [chunks[0]] + chunks[1..];
      if x in Joined(chunks) && x !in chunks[0] {
        var c :| c in chunks[1..] && x in c;
        assert c in chunks;
      }
    }
  }

  /** What each partition has open while the scan runs: slices of its own chunk, no more than it was granted. */
  ghost predicate OpenWithin(open: seq<seq<nat>>, chunks: seq<seq<Option<U64>>>, counts: seq<U64>) {
    && |open| == |chunks| == |counts|
    && forall i :: 0 <= i < |open| ==>
        && |open[i]| <= counts[i]
        && forall b :: b in open[i] ==> b < WORD && Some(b) in chunks[i]
  }

  /**
   * From budget to execution: the slices of the table are chunked into partitions, each partition opens
   * as many as planning and its reservation allow, whatever the pool has free; if the budget admitted
   * more than one slice, everything open at any moment costs no more than the budget.
   */
  lemma ExecutionStaysWithinBudget(
    budget: U64, partitions: U64, sizes: seq<Option<U64>>, configured: U64,
    free: seq<nat>, counts: seq<U64>, open: seq<seq<nat>>)
    requires |sizes| < WORD
    requires var n, chunks := SlicesInFlight(Some(budget), partitions, sizes, configured), SplitIntoChunks(sizes, partitions);
      && n > 1
      && |free| == |chunks| == |counts|
      && (forall i :: 0 <= i < |chunks| ==>
            |chunks[i]| < WORD && counts[i] == Concurrency(n, chunks[i], free[i]))
      && OpenWithin(open, chunks, counts)
    ensures TotalCost(open) <= budget
  {
    var n, chunks := SlicesInFlight(Some(budget), partitions, sizes, configured), SplitIntoChunks(sizes, partitions);
    SplitKeepsAll(sizes, partitions);
    forall held | held in open
      ensures |held| <= n && forall b :: b in held ==> b < WORD && Some(b) in sizes
    {
      var i :| 0 <= i < |open| && open[i] == held;
      forall b | b in held ensures b < WORD && Some(b) in sizes {
        InJoined(chunks, Some(b as U64));
        assert chunks[i] in chunks;
      }
    }
    ScanStaysWithinBudget(budget, partitions, sizes, configured, open);
  }
}
