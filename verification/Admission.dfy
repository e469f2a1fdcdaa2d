/** How many slices a scan may read at once within a memory budget (file_group/admission.rs). */
module Admission {
  import opened Wrappers

  const WORD: nat := 0x1_0000_0000_0000_0000

  /** 64-bit unsigned integers, and sizes on a 64-bit machine. */
  type U64 = n: nat | n < WORD

  const STREAMING_WORKING_SET_BYTES: U64 := 33 * 1024 * 1024
  const LOG_EXPANSION: U64 := 4

  function SaturatingAdd(a: U64, b: U64): U64 {
    if a + b < WORD then a + b else WORD - 1
  }

  function SaturatingMul(a: U64, b: U64): U64 {
    if a * b < WORD then a * b else WORD - 1
  }

  function EstimatedSliceBytes(logBytes: U64): U64 {
    SaturatingAdd(STREAMING_WORKING_SET_BYTES, SaturatingMul(logBytes, LOG_EXPANSION))
  }

  /** The cost model the estimate saturates. */
  function Cost(logBytes: nat): nat {
    STREAMING_WORKING_SET_BYTES + LOG_EXPANSION * logBytes
  }

  lemma EstimateIsSaturatedCost(logBytes: U64)
    ensures EstimatedSliceBytes(logBytes) == if Cost(logBytes) < WORD then Cost(logBytes) else WORD - 1
    ensures Cost(logBytes) == 34_603_008 + 4 * logBytes
  {
  }

  /** The costliest slice, or the cost of a slice without logs when there is none. */
  function WorstEstimate(sizes: seq<Option<U64>>): (worst: U64)
    ensures STREAMING_WORKING_SET_BYTES <= worst
    ensures forall s :: s in sizes && s.Some? ==> EstimatedSliceBytes(s.value) <= worst
    ensures worst == EstimatedSliceBytes(0) || exists s :: s in sizes && s.Some? && EstimatedSliceBytes(s.value) == worst
  {
    if sizes == [] then EstimatedSliceBytes(0)
    else
      var rest := WorstEstimate(sizes[1..]);
      match sizes[0]
      case None => rest
      case Some(b) => if rest < EstimatedSliceBytes(b) then EstimatedSliceBytes(b) else rest
  }

  function AtLeastOne(n: U64): U64 {
    if n < 1 then 1 else n
  }

  function Clamp(n: U64, low: U64, high: U64): U64 {
    if n < low then low else if high < n then high else n
  }

  function Divide(a: U64, b: U64): (q: U64)
    requires 0 < b
    ensures q == a / b
  {
    DivBounds(a, b);
    MulMonotone(1, b, a / b);
    a / b
  }

  function SlicesInFlight(budget: Option<U64>, partitions: U64, sizes: seq<Option<U64>>, configured: U64): (n: U64)
    ensures 1 <= n <= AtLeastOne(configured)
    ensures budget.None? ==> n == if configured == 0 then 1 else configured
    ensures budget.Some? && None in sizes ==> n == 1
  {
    var most := AtLeastOne(configured);
    if budget.None? then most
    else if None in sizes then 1
    else
      var share := Divide(budget.value, AtLeastOne(partitions));
      Clamp(Divide(share, AtLeastOne(WorstEstimate(sizes))), 1, most)
  }

  // ---------------------------------------------------------------- the budget bounds the product

  function SumCost(slices: seq<nat>): nat {
    if slices == [] then 0 else Cost(slices[0]) + SumCost(slices[1..])
  }

  /** The total cost of what all partitions hold open at one time. */
  function TotalCost(open: seq<seq<nat>>): nat {
    if open == [] then 0 else SumCost(open[0]) + TotalCost(open[1..])
  }

  /** Some choice of slices, at most `n` in each of at most `partitions` partitions. */
  ghost predicate Choice(open: seq<seq<nat>>, partitions: nat, n: nat, sizes: seq<Option<U64>>) {
    && |open| <= partitions
    && forall held :: held in open ==>
        |held| <= n && forall b :: b in held ==> b < WORD && Some(b) in sizes
  }

  lemma MulMonotone(a: nat, b: nat, c: nat)
    requires a <= b
    ensures a * c <= b * c && c * a <= c * b
  {
  }

  lemma {:induction false} SumCostBound(slices: seq<nat>, worst: nat, n: nat)
    requires |slices| <= n && forall b :: b in slices ==> Cost(b) <= worst
    ensures SumCost(slices) <= n * worst
  {
    if slices != [] {
      assert slices[0] in slices;
      SumCostBound(slices[1..], worst, n - 1);
      assert n * worst == (n - 1) * worst + worst;
    }
  }

  lemma {:induction false} TotalCostBound(open: seq<seq<nat>>, partitions: nat, bound: nat)
    requires |open| <= partitions && forall held :: held in open ==> SumCost(held) <= bound
    ensures TotalCost(open) <= partitions * bound
  {
    if open != [] {
      assert open[0] in open;
      TotalCostBound(open[1..], partitions - 1, bound);
      assert partitions * bound == (partitions - 1) * bound + bound;
    }
  }

  /** Dividing rounds down. */
  lemma DivBounds(a: nat, b: nat)
    requires 0 < b
    ensures a / b * b <= a && b * (a / b) <= a
    ensures a < (a / b + 1) * b
  {
  }

  lemma DivIsGreatest(a: nat, b: nat, n: nat)
    requires 0 < b
    ensures n <= a / b <==> n * b <= a
  {
    DivBounds(a, b);
    if n <= a / b {
      MulMonotone(n, a / b, b);
    } else {
      MulMonotone(a / b + 1, n, b);
    }
  }

  /** The answer is the greatest count, up to the ceiling, that fits one partition's share; else one. */
  lemma AdmitsTheMost(budget: U64, partitions: U64, sizes: seq<Option<U64>>, configured: U64, n: U64)
    requires None !in sizes && 1 <= n <= AtLeastOne(configured)
    ensures var admitted := SlicesInFlight(Some(budget), partitions, sizes, configured);
      n <= admitted <==> n == 1 || n * WorstEstimate(sizes) * AtLeastOne(partitions) <= budget
  {
    var share := budget / AtLeastOne(partitions);
    DivIsGreatest(share, WorstEstimate(sizes), n);
    DivIsGreatest(budget, AtLeastOne(partitions), n * WorstEstimate(sizes));
  }

  /**
   * When more than one slice is admitted, no choice of that many slices in each partition costs more
   * than the budget, and none of the estimates behind the answer was saturated.
   */
  lemma ScanStaysWithinBudget(
    budget: U64, partitions: U64, sizes: seq<Option<U64>>, configured: U64, open: seq<seq<nat>>)
    requires var n := SlicesInFlight(Some(budget), partitions, sizes, configured);
      n > 1 && Choice(open, AtLeastOne(partitions), n, sizes)
    ensures TotalCost(open) <= budget
    ensures forall s :: s in sizes ==> s.Some? && Cost(s.value) < WORD
  {
    var n := SlicesInFlight(Some(budget), partitions, sizes, configured);
    var worst, p := WorstEstimate(sizes), AtLeastOne(partitions);
    AdmitsTheMost(budget, partitions, sizes, configured, n);
    assert n * worst <= budget by {
      MulMonotone(1, p, n * worst);
    }
    MulMonotone(2, n, worst);
    assert worst < WORD - 1;
    forall s | s in sizes ensures s.Some? && Cost(s.value) <= worst {
      EstimateIsSaturatedCost(s.value);
    }
    forall held | held in open ensures SumCost(held) <= n * worst {
      forall b | b in held ensures Cost(b) <= worst {
        assert Some(b) in sizes;
      }
      SumCostBound(held, worst, n);
    }
    TotalCostBound(open, p, n * worst);
    assert p * (n * worst) == n * worst * p;
  }

  // ---------------------------------------------------------------- how the answer moves

  lemma {:induction false} WorstGrows(sizes: seq<Option<U64>>, more: seq<Option<U64>>)
    requires forall s :: s in sizes && s.Some? ==>
      exists t :: t in more && t.Some? && s.value <= t.value
    ensures WorstEstimate(sizes) <= WorstEstimate(more)
  {
    if sizes != [] {
      forall s | s in sizes[1..] && s.Some? ensures exists t :: t in more && t.Some? && s.value <= t.value {
        assert s in sizes;
      }
      WorstGrows(sizes[1..], more);
      if sizes[0].Some? {
        assert sizes[0] in sizes;
        var t :| t in more && t.Some? && sizes[0].value <= t.value;
        EstimateIsSaturatedCost(sizes[0].value);
        EstimateIsSaturatedCost(t.value);
      }
    }
  }

  /** A larger budget admits no fewer; more partitions, more slices or bigger logs admit no more. */
  lemma AdmissionIsMonotone(
    budget: U64, partitions: U64, sizes: seq<Option<U64>>, configured: U64,
    budget': U64, partitions': U64, sizes': seq<Option<U64>>)
    requires budget <= budget' && partitions' <= partitions && None !in sizes'
    requires forall s :: s in sizes' && s.Some? ==> exists t :: t in sizes && t.Some? && s.value <= t.value
    ensures SlicesInFlight(Some(budget), partitions, sizes, configured)
         <= SlicesInFlight(Some(budget'), partitions', sizes', configured)
  {
    var n := SlicesInFlight(Some(budget), partitions, sizes, configured);
    if None !in sizes && n > 1 {
      WorstGrows(sizes', sizes);
      assert n * WorstEstimate(sizes) * AtLeastOne(partitions) <= budget by {
        AdmitsTheMost(budget, partitions, sizes, configured, n);
      }
      ProductMonotone(n, WorstEstimate(sizes'), WorstEstimate(sizes), AtLeastOne(partitions'), AtLeastOne(partitions));
      AdmitsTheMost(budget', partitions', sizes', configured, n);
    }
  }

  lemma ProductMonotone(n: nat, w: nat, w': nat, p: nat, p': nat)
    requires w <= w' && p <= p'
    ensures n * w * p <= n * w' * p'
  {
  }

  // ---------------------------------------------------------------- the plan made from the answer

  /** The slices of a scan cut into runs of equal length, one for each partition (util/collection.rs). */
  function Chunks<T>(items: seq<T>, size: nat): seq<seq<T>>
    requires size > 0
    decreases |items|
  {
    if items == [] then []
    else if |items| <= size then [items]
    else [items[..size]] + Chunks(items[size..], size)
  }

  function SplitIntoChunks<T>(items: seq<T>, splits: nat): seq<seq<T>> {
    if items == [] then []
    else
      var k := if splits < 1 then 1 else splits;
      assert 0 < (|items| + k - 1) / k by {
        DivIsGreatest(|items| + k - 1, k, 1);
      }
      Chunks(items, (|items| + k - 1) / k)
  }

  function Joined<T>(chunks: seq<seq<T>>): seq<T> {
    if chunks == [] then [] else chunks[0] + Joined(chunks[1..])
  }

  lemma {:induction false} ChunksCover<T>(items: seq<T>, size: nat, k: nat)
    requires size > 0 && |items| <= size * k
    ensures Joined(Chunks(items, size)) == items
    ensures |Chunks(items, size)| <= k
    decreases |items|
  {
    if items == [] {
    } else if |items| <= size {
      assert k > 0;
      assert Joined([items]) == items + [];
    } else {
      assert size * k == size * (k - 1) + size;
      ChunksCover(items[size..], size, k - 1);
      assert items == items[..size] + items[size..];
    }
  }

  lemma {:induction false} ChunkLengths<T>(items: seq<T>, size: nat, i: nat)
    requires size > 0 && i < |Chunks(items, size)|
    ensures 0 < |Chunks(items, size)[i]| <= size
    ensures i < |Chunks(items, size)| - 1 ==> |Chunks(items, size)[i]| == size
    decreases |items|
  {
    if i > 0 {
      ChunkLengths(items[size..], size, i - 1);
    }
  }

  /**
   * Chunking keeps every slice, in order, makes no more chunks than partitions were asked for, and makes
   * them as long as an equal share rounded up, except the last, which holds what is left.
   */
  lemma SplitKeepsAll<T>(items: seq<T>, splits: nat)
    ensures Joined(SplitIntoChunks(items, splits)) == items
    ensures |SplitIntoChunks(items, splits)| <= if splits < 1 then 1 else splits
    ensures var (chunks, k) := (SplitIntoChunks(items, splits), if splits < 1 then 1 else splits);
      forall i :: 0 <= i < |chunks| ==>
        && 0 < |chunks[i]| <= (|items| + k - 1) / k
        && (i < |chunks| - 1 ==> |chunks[i]| == (|items| + k - 1) / k)
  {
    if items != [] {
      var k := if splits < 1 then 1 else splits;
      var size := (|items| + k - 1) / k;
      DivBounds(|items| + k - 1, k);
      assert (size + 1) * k == size * k + k;
      assert size * k == k * size;
      assert |items| <= size * k;
      DivIsGreatest(|items| + k - 1, k, 1);
      ChunksCover(items, size, k);
      forall i | 0 <= i < |Chunks(items, size)|
        ensures 0 < |Chunks(items, size)[i]| <= size
        ensures i < |Chunks(items, size)| - 1 ==> |Chunks(items, size)[i]| == size
      {
        ChunkLengths(items, size, i);
      }
    }
  }
}
