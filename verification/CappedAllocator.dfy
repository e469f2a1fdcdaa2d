/**
 * The capped allocator (benchmark/filegroup/src/main.rs): one shared counter, updated by atomic steps
 * of many threads. Every interleaving of the steps is a run.
 */
module CappedAllocator {
  const WORD: nat := 0x1_0000_0000_0000_0000

  /** The largest size a layout may have. */
  const MAX_LAYOUT: nat := 0x7fff_ffff_ffff_ffff

  /** A 64-bit counter's value. */
  type Word = n: nat | n < WORD

  type Block = nat

  /** Where a thread is inside `alloc` or `dealloc`. */
  datatype Pc =
    | Idle
    | Added(size: nat, live: Word)             // counter raised, its new value in hand
    | CapRead(size: nat, live: Word, cap: Word)  // ceiling loaded
    | Refusing(size: nat)                      // over the ceiling, about to take the bytes back
    | Calling(size: nat)                       // under it, about to ask the system allocator
    | Freeing(size: nat)                       // `dealloc` entered, bytes still counted
    | Freed                                    // bytes taken back, block going to the system

  datatype State = State(
    live: Word,                // ALLOC_LIVE
    cap: Word,                 // ALLOC_CAP, already visible to every thread
    threads: seq<Pc>,
    granted: map<Block, nat>,  // blocks handed out and not being freed, with their sizes
    leaked: nat)               // bytes counted for requests the system allocator refused

  datatype Action =
    | Add(size: nat)
    | LoadCap
    | Decide
    | TakeBack
    | SystemGrants(block: Block)
    | SystemRefuses
    | BeginFree(block: Block)
    | Subtract
    | EndFree

  /** Wrapping addition and subtraction of a 64-bit atomic. */
  function FetchAdd(live: Word, size: nat): Word {
    (live + size) % WORD
  }

  function FetchSub(live: Word, size: nat): Word {
    (live - size) % WORD
  }

  predicate Enabled(s: State, t: nat, a: Action) {
    && t < |s.threads|
    && match a
       case Add(size) => s.threads[t].Idle? && size <= MAX_LAYOUT
       case LoadCap => s.threads[t].Added?
       case Decide => s.threads[t].CapRead?
       case TakeBack => s.threads[t].Refusing?
       case SystemGrants(b) => s.threads[t].Calling? && b !in s.granted
       case SystemRefuses => s.threads[t].Calling?
       case BeginFree(b) => s.threads[t].Idle? && b in s.granted
       case Subtract => s.threads[t].Freeing?
       case EndFree => s.threads[t].Freed?
  }

  function Step(s: State, t: nat, a: Action): State
    requires Enabled(s, t, a)
  {
    var pc := s.threads[t];
    match a
    case Add(size) =>
      var live := FetchAdd(s.live, size);
      s.(live := live, threads := s.threads[t := Added(size, live)])
    case LoadCap =>
      s.(threads := s.threads[t := CapRead(pc.size, pc.live, s.cap)])
    case Decide =>
      s.(threads := s.threads[t := if pc.cap > 0 && pc.live > pc.cap then Refusing(pc.size) else Calling(pc.size)])
    case TakeBack =>
      s.(live := FetchSub(s.live, pc.size), threads := s.threads[t := Idle])
    case SystemGrants(b) =>
      s.(granted := s.granted[b := pc.size], threads := s.threads[t := Idle])
    case SystemRefuses =>
      s.(leaked := s.leaked + pc.size, threads := s.threads[t := Idle])
    case BeginFree(b) =>
      s.(granted := s.granted - {b}, threads := s.threads[t := Freeing(s.granted[b])])
    case Subtract =>
      s.(live := FetchSub(s.live, pc.size), threads := s.threads[t := Freed])
    case EndFree =>
      s.(threads := s.threads[t := Idle])
  }

  // ---------------------------------------------------------------- sums

  ghost function SumOf(sizes: map<Block, nat>): nat
    decreases |sizes|
  {
    if sizes == map[] then 0
    else
      var b :| b in sizes;
      sizes[b] + SumOf(sizes - {b})
  }

  lemma {:induction false} SumWithout(sizes: map<Block, nat>, b: Block)
    requires b in sizes
    ensures SumOf(sizes) == sizes[b] + SumOf(sizes - {b})
    decreases |sizes|
  {
    var x :| x in sizes && SumOf(sizes) == sizes[x] + SumOf(sizes - {x});
    if b != x {
      SumWithout(sizes - {x}, b);
      SumWithout(sizes - {b}, x);
      assert sizes - {x} - {b} == sizes - {b} - {x};
    }
  }

  lemma SumWith(sizes: map<Block, nat>, b: Block, size: nat)
    requires b !in sizes
    ensures SumOf(sizes[b := size]) == size + SumOf(sizes)
  {
    SumWithout(sizes[b := size], b);
    assert sizes[b := size] - {b} == sizes;
  }

  /** Bytes the counter holds on account of a thread in mid-call. */
  function Counted(pc: Pc): nat {
    match pc
    case Idle => 0
    case Freed => 0
    case _ => pc.size
  }

  /** Bytes a thread has been, or will be, let through for. */
  function Passing(cap: nat, pc: Pc): nat {
    match pc
    case Added(size, live) => if live <= cap then size else 0
    case CapRead(size, live, _) => if live <= cap then size else 0
    case Calling(size) => size
    case _ => 0
  }

  function CountedBy(threads: seq<Pc>): nat {
    if threads == [] then 0 else Counted(threads[0]) + CountedBy(threads[1..])
  }

  function PassingOf(cap: nat, threads: seq<Pc>): nat {
    if threads == [] then 0 else Passing(cap, threads[0]) + PassingOf(cap, threads[1..])
  }

  lemma {:induction false} CountedUpdate(threads: seq<Pc>, t: nat, pc: Pc)
    requires t < |threads|
    ensures CountedBy(threads[t := pc]) == CountedBy(threads) - Counted(threads[t]) + Counted(pc)
    ensures Counted(threads[t]) <= CountedBy(threads)
  {
    if t > 0 {
      CountedUpdate(threads[1..], t - 1, pc);
      assert threads[t := pc][1..] == threads[1..][t - 1 := pc];
    }
  }

  lemma {:induction false} PassingUpdate(cap: nat, threads: seq<Pc>, t: nat, pc: Pc)
    requires t < |threads|
    ensures PassingOf(cap, threads[t := pc]) == PassingOf(cap, threads) - Passing(cap, threads[t]) + Passing(cap, pc)
  {
    if t > 0 {
      PassingUpdate(cap, threads[1..], t - 1, pc);
      assert threads[t := pc][1..] == threads[1..][t - 1 := pc];
    }
  }

  lemma {:induction false} PassingIsCounted(cap: nat, threads: seq<Pc>)
    ensures PassingOf(cap, threads) <= CountedBy(threads)
  {
    if threads != [] {
      PassingIsCounted(cap, threads[1..]);
    }
  }

  // ---------------------------------------------------------------- safety

  /** The counter is all that is granted, in flight or leaked; what is granted or let through stays under the ceiling. */
  ghost predicate Safe(s: State) {
    && s.live == SumOf(s.granted) + CountedBy(s.threads) + s.leaked
    && (s.cap > 0 ==> SumOf(s.granted) + PassingOf(s.cap, s.threads) + s.leaked <= s.cap)
    && LoadedCaps(s.cap, s.threads)
  }

  ghost predicate LoadedCaps(cap: nat, threads: seq<Pc>) {
    forall pc :: pc in threads && pc.CapRead? ==> pc.cap == cap
  }

  /** The counter does not overflow when this step adds to it. */
  predicate Fits(s: State, a: Action) {
    a.Add? ==> s.live + a.size < WORD
  }

  /** What changes when one thread moves on. */
  lemma ThreadMoves(cap: nat, threads: seq<Pc>, t: nat, pc: Pc)
    requires t < |threads| && LoadedCaps(cap, threads) && (pc.CapRead? ==> pc.cap == cap)
    ensures var moved := threads[t := pc];
      && CountedBy(moved) == CountedBy(threads) - Counted(threads[t]) + Counted(pc)
      && PassingOf(cap, moved) == PassingOf(cap, threads) - Passing(cap, threads[t]) + Passing(cap, pc)
      && LoadedCaps(cap, moved)
    ensures Counted(threads[t]) <= CountedBy(threads) && PassingOf(cap, threads) <= CountedBy(threads)
    ensures threads[t].CapRead? ==> threads[t].cap == cap
  {
    CountedUpdate(threads, t, pc);
    PassingUpdate(cap, threads, t, pc);
    PassingIsCounted(cap, threads);
    assert threads[t] in threads;
    forall x | x in threads[t := pc] && x.CapRead? ensures x.cap == cap {
      assert x in threads || x == pc;
    }
  }

  lemma AddIsSafeIff(s: State, t: nat, size: nat)
    requires Safe(s) && Enabled(s, t, Add(size))
    ensures Safe(Step(s, t, Add(size))) <==> Fits(s, Add(size))
  {
    ThreadMoves(s.cap, s.threads, t, Added(size, FetchAdd(s.live, size)));
  }

  lemma DecideIsSafe(s: State, t: nat, a: Action)
    requires Safe(s) && Enabled(s, t, a) && (a.LoadCap? || a.Decide?)
    ensures Safe(Step(s, t, a))
  {
    ThreadMoves(s.cap, s.threads, t, Step(s, t, a).threads[t]);
  }

  lemma SubtractIsSafe(s: State, t: nat, a: Action)
    requires Safe(s) && Enabled(s, t, a) && (a.TakeBack? || a.Subtract? || a.EndFree?)
    ensures Safe(Step(s, t, a))
  {
    ThreadMoves(s.cap, s.threads, t, Step(s, t, a).threads[t]);
  }

  lemma GrantIsSafe(s: State, t: nat, a: Action)
    requires Safe(s) && Enabled(s, t, a) && (a.SystemGrants? || a.SystemRefuses?)
    ensures Safe(Step(s, t, a))
  {
    ThreadMoves(s.cap, s.threads, t, Idle);
    if a.SystemGrants? {
      SumWith(s.granted, a.block, s.threads[t].size);
    }
  }

  lemma BeginFreeIsSafe(s: State, t: nat, a: Action)
    requires Safe(s) && Enabled(s, t, a) && a.BeginFree?
    ensures Safe(Step(s, t, a))
  {
    ThreadMoves(s.cap, s.threads, t, Freeing(s.granted[a.block]));
    SumWithout(s.granted, a.block);
  }

  /** An atomic step keeps the accounting, and the ceiling, if and only if it does not overflow the counter. */
  lemma StepIsSafeIff(s: State, t: nat, a: Action)
    requires Safe(s) && Enabled(s, t, a)
    ensures Safe(Step(s, t, a)) <==> Fits(s, a)
  {
    match a {
      case Add(size) => AddIsSafeIff(s, t, size);
      case LoadCap => DecideIsSafe(s, t, a);
      case Decide => DecideIsSafe(s, t, a);
      case SystemGrants(_) => GrantIsSafe(s, t, a);
      case SystemRefuses => GrantIsSafe(s, t, a);
      case BeginFree(_) => BeginFreeIsSafe(s, t, a);
      case _ => SubtractIsSafe(s, t, a);
    }
  }

  // ---------------------------------------------------------------- runs

  datatype Event = Event(thread: nat, action: Action)

  function After(s: State, e: Event): State
    requires Enabled(s, e.thread, e.action)
  {
    Step(s, e.thread, e.action)
  }

  predicate Runs(s: State, events: seq<Event>)
    decreases |events|
  {
    events == [] || (Enabled(s, events[0].thread, events[0].action) && Runs(After(s, events[0]), events[1..]))
  }

  function Run(s: State, events: seq<Event>): State
    requires Runs(s, events)
    decreases |events|
  {
    if events == [] then s else Run(After(s, events[0]), events[1..])
  }

  /** No addition of the run overflows the counter. */
  predicate AllFit(s: State, events: seq<Event>)
    requires Runs(s, events)
    decreases |events|
  {
    events == [] || (Fits(s, events[0].action) && AllFit(After(s, events[0]), events[1..]))
  }

  ghost predicate SafeThroughout(s: State, events: seq<Event>)
    requires Runs(s, events)
    decreases |events|
  {
    Safe(s) && (events == [] || SafeThroughout(After(s, events[0]), events[1..]))
  }

  /** No thread in mid-call, and no more granted than the ceiling allows. */
  ghost predicate Start(s: State) {
    && (forall pc :: pc in s.threads ==> pc.Idle?)
    && s.live == SumOf(s.granted) + s.leaked
    && (s.cap > 0 ==> s.live <= s.cap)
  }

  lemma {:induction false} IdleCountsNothing(cap: nat, threads: seq<Pc>)
    requires forall pc :: pc in threads ==> pc.Idle?
    ensures CountedBy(threads) == 0 && PassingOf(cap, threads) == 0
  {
    if threads != [] {
      IdleCountsNothing(cap, threads[1..]);
    }
  }

  lemma StartIsSafe(s: State)
    requires Start(s)
    ensures Safe(s)
  {
    IdleCountsNothing(s.cap, s.threads);
  }

  lemma {:induction false} SafeRunFits(s: State, events: seq<Event>)
    requires Safe(s) && Runs(s, events)
    ensures SafeThroughout(s, events) <==> AllFit(s, events)
    ensures AllFit(s, events) ==> Safe(Run(s, events))
    decreases |events|
  {
    if events != [] {
      StepIsSafeIff(s, events[0].thread, events[0].action);
      if Fits(s, events[0].action) {
        SafeRunFits(After(s, events[0]), events[1..]);
      }
    }
  }

  /** Every state of a run keeps accounting and ceiling if and only if no addition of the run overflows. */
  lemma RunIsSafeIff(s: State, events: seq<Event>)
    requires Start(s) && Runs(s, events)
    ensures SafeThroughout(s, events) <==> AllFit(s, events)
  {
    StartIsSafe(s);
    SafeRunFits(s, events);
  }

  lemma {:induction false} LeakOnlyGrows(s: State, events: seq<Event>)
    requires Runs(s, events)
    ensures s.cap == Run(s, events).cap
    ensures s.leaked <= Run(s, events).leaked
    ensures (forall e :: e in events ==> !e.action.SystemRefuses?) ==> Run(s, events).leaked == s.leaked
    decreases |events|
  {
    if events != [] {
      LeakOnlyGrows(After(s, events[0]), events[1..]);
    }
  }

  /**
   * Whatever the interleaving: granted blocks never exceed the ceiling, the counter covers them and
   * all requests in flight, exactly so when the system allocator never refuses, and no step that
   * takes bytes back takes more than the counter holds.
   */
  lemma AllocatorIsSafe(s: State, events: seq<Event>, t: nat)
    requires Start(s) && Runs(s, events) && AllFit(s, events)
    ensures var r := Run(s, events);
      && (r.cap > 0 ==> SumOf(r.granted) <= r.cap)
      && SumOf(r.granted) + CountedBy(r.threads) <= r.live
      && (s.leaked == 0 && (forall e :: e in events ==> !e.action.SystemRefuses?) ==>
            r.live == SumOf(r.granted) + CountedBy(r.threads))
      && (t < |r.threads| && (r.threads[t].Refusing? || r.threads[t].Freeing?) ==> r.threads[t].size <= r.live)
  {
    StartIsSafe(s);
    SafeRunFits(s, events);
    LeakOnlyGrows(s, events);
    var r := Run(s, events);
    if t < |r.threads| {
      CountedUpdate(r.threads, t, Idle);
    }
  }

  // ---------------------------------------------------------------- a ceiling rules overflow out

  /** No block and no call in progress is of more than `most` bytes. */
  ghost predicate Sized(s: State, most: nat) {
    && (forall b :: b in s.granted ==> s.granted[b] <= most)
    && (forall pc :: pc in s.threads ==> Counted(pc) <= most)
  }

  lemma OneMore(n: nat, most: nat)
    ensures (n + 1) * most == n * most + most
  {
  }

  lemma {:induction false} ExcessIsBounded(cap: nat, threads: seq<Pc>, most: nat)
    requires forall pc :: pc in threads ==> Counted(pc) <= most
    ensures CountedBy(threads) <= PassingOf(cap, threads) + |threads| * most
  {
    if threads != [] {
      assert threads[0] in threads;
      ExcessIsBounded(cap, threads[1..], most);
      OneMore(|threads[1..]|, most);
    }
  }

  lemma StepStaysSized(s: State, t: nat, a: Action, most: nat)
    requires Enabled(s, t, a) && Sized(s, most) && (a.Add? ==> a.size <= most)
    ensures Sized(Step(s, t, a), most)
  {
    assert s.threads[t] in s.threads;
    var pc := Step(s, t, a).threads[t];
    forall x | x in Step(s, t, a).threads ensures Counted(x) <= most {
      assert x in s.threads || x == pc;
    }
  }

  lemma SizedStepFits(s: State, t: nat, a: Action, most: nat)
    requires Safe(s) && Enabled(s, t, a) && Sized(s, most) && s.cap > 0 && (a.Add? ==> a.size <= most)
    requires s.cap + |s.threads| * most < WORD
    ensures Fits(s, a)
  {
    if a.Add? {
      var pc := Refusing(a.size);
      var moved := s.threads[t := pc];
      ThreadMoves(s.cap, s.threads, t, pc);
      forall x | x in moved ensures Counted(x) <= most {
        assert x in s.threads || x == pc;
      }
      ExcessIsBounded(s.cap, moved, most);
    }
  }

  lemma {:induction false} SizedRunFits(s: State, events: seq<Event>, most: nat)
    requires Safe(s) && Sized(s, most) && Runs(s, events) && s.cap > 0
    requires forall e :: e in events && e.action.Add? ==> e.action.size <= most
    requires s.cap + |s.threads| * most < WORD
    ensures AllFit(s, events)
    decreases |events|
  {
    if events != [] {
      var e := events[0];
      assert e in events;
      SizedStepFits(s, e.thread, e.action, most);
      StepIsSafeIff(s, e.thread, e.action);
      StepStaysSized(s, e.thread, e.action, most);
      SizedRunFits(After(s, e), events[1..], most);
    }
  }

  lemma StartIsSized(s: State, most: nat)
    requires Start(s) && 0 < s.cap <= most
    ensures Sized(s, most)
  {
    forall b | b in s.granted ensures s.granted[b] <= most {
      SumWithout(s.granted, b);
    }
  }

  /**
   * What has to be checked only once: with a ceiling, and requests of at most `largest` bytes, the counter
   * never overflows if the ceiling and one request or block for every thread fit in it together. Every
   * state of every run then keeps accounting and ceiling.
   */
  lemma CappedRunsNeverOverflow(s: State, events: seq<Event>, largest: nat)
    requires Start(s) && Runs(s, events) && s.cap > 0
    requires forall e :: e in events && e.action.Add? ==> e.action.size <= largest
    requires s.cap + |s.threads| * (if largest < s.cap then s.cap else largest) < WORD
    ensures AllFit(s, events) && SafeThroughout(s, events)
  {
    var most := if largest < s.cap then s.cap else largest;
    StartIsSafe(s);
    StartIsSized(s, most);
    SizedRunFits(s, events, most);
    SafeRunFits(s, events);
  }

  // ---------------------------------------------------------------- single calls

  /** The steps of one refused call. */
  function RefusedCall(t: nat, size: nat): seq<Event> {
    [Event(t, Add(size)), Event(t, LoadCap), Event(t, Decide), Event(t, TakeBack)]
  }

  lemma RunsThen(s: State, e: Event, rest: seq<Event>)
    requires Enabled(s, e.thread, e.action) && Runs(After(s, e), rest)
    ensures Runs(s, [e] + rest) && Run(s, [e] + rest) == Run(After(s, e), rest)
  {
    assert ([e] + rest)[1..] == rest;
  }

  lemma TakenBack(live: Word, size: nat)
    ensures FetchSub(FetchAdd(live, size), size) == live
  {
  }

  lemma LastSteps(s: State, t: nat, size: nat, live: Word)
    requires t < |s.threads| && s.threads[t] == Added(size, live) && 0 < s.cap < live
    ensures Runs(s, RefusedCall(t, size)[1..])
    ensures Run(s, RefusedCall(t, size)[1..]) == s.(live := FetchSub(s.live, size), threads := s.threads[t := Idle])
  {
    var load, decide, takeBack := Event(t, LoadCap), Event(t, Decide), Event(t, TakeBack);
    assert RefusedCall(t, size)[1..] == [load] + ([decide] + ([takeBack] + []));
    var b := After(s, load);
    var c := After(b, decide);
    assert c == s.(threads := s.threads[t := Refusing(size)]);
    RunsThen(c, takeBack, []);
    RunsThen(b, decide, [takeBack] + []);
    RunsThen(s, load, [decide] + ([takeBack] + []));
  }

  /** A call that is refused, with nothing in between its steps, leaves everything as if it had not been made. */
  lemma RefusedCallLeavesNoTrace(s: State, t: nat, size: nat)
    requires Enabled(s, t, Add(size)) && 0 < s.cap < FetchAdd(s.live, size)
    ensures Runs(s, RefusedCall(t, size)) && Run(s, RefusedCall(t, size)) == s
  {
    var live := FetchAdd(s.live, size);
    var a := After(s, Event(t, Add(size)));
    LastSteps(a, t, size, live);
    TakenBack(s.live, size);
    assert RefusedCall(t, size) == [Event(t, Add(size))] + RefusedCall(t, size)[1..];
    RunsThen(s, Event(t, Add(size)), RefusedCall(t, size)[1..]);
    assert a.threads[t := Idle] == s.threads;
  }

  /**
   * What a request decides, with nothing in between its steps: it is let through exactly when there is no
   * ceiling or the new count, wrapped, is not above it; and it changes nothing but the count and its thread.
   */
  lemma LetThroughIff(s: State, t: nat, size: nat)
    requires Enabled(s, t, Add(size))
    ensures var (events, count) := (RefusedCall(t, size)[..3], (s.live + size) % WORD);
      && events == [Event(t, Add(size)), Event(t, LoadCap), Event(t, Decide)]
      && Runs(s, events)
      && Run(s, events) == s.(
          live := count,
          threads := s.threads[t := if s.cap == 0 || count <= s.cap then Calling(size) else Refusing(size)])
  {
    var add, load, decide := Event(t, Add(size)), Event(t, LoadCap), Event(t, Decide);
    var a := After(s, add);
    var b := After(a, load);
    RunsThen(b, decide, []);
    RunsThen(a, load, [decide] + []);
    RunsThen(s, add, [load] + ([decide] + []));
    assert [add] + ([load] + ([decide] + [])) == RefusedCall(t, size)[..3];
    var count := FetchAdd(s.live, size);
    assert a.threads == s.threads[t := Added(size, count)];
    assert b.threads == s.threads[t := CapRead(size, count, s.cap)];
  }

  /** A request in the hands of the system: granted, it is a block; refused, its bytes stay counted for good. */
  lemma SystemAnswers(s: State, t: nat, size: nat, b: Block)
    requires t < |s.threads| && s.threads[t] == Calling(size) && b !in s.granted
    ensures Enabled(s, t, SystemGrants(b)) && Enabled(s, t, SystemRefuses)
    ensures Step(s, t, SystemGrants(b)) == s.(granted := s.granted[b := size], threads := s.threads[t := Idle])
    ensures Step(s, t, SystemRefuses) == s.(leaked := s.leaked + size, threads := s.threads[t := Idle])
  {
  }

  function FreeCall(t: nat, b: Block): seq<Event> {
    [Event(t, BeginFree(b)), Event(t, Subtract), Event(t, EndFree)]
  }

  /** Freeing a block, with nothing in between, undoes granting it: the counter and the blocks are as before the request. */
  lemma FreeUndoesGrant(s: State, t: nat, size: nat, b: Block)
    requires t < |s.threads| && s.threads[t].Idle? && b !in s.granted
    ensures var held := s.(live := FetchAdd(s.live, size), granted := s.granted[b := size]);
      Runs(held, FreeCall(t, b)) && Run(held, FreeCall(t, b)) == s
  {
    var held := s.(live := FetchAdd(s.live, size), granted := s.granted[b := size]);
    var begin, subtract, end := Event(t, BeginFree(b)), Event(t, Subtract), Event(t, EndFree);
    var x := After(held, begin);
    var y := After(x, subtract);
    assert s.granted[b := size] - {b} == s.granted;
    TakenBack(s.live, size);
    assert y == s.(threads := s.threads[t := Freed]);
    assert After(y, end) == s;
    RunsThen(y, end, []);
    RunsThen(x, subtract, [end] + []);
    RunsThen(held, begin, [subtract] + ([end] + []));
    assert FreeCall(t, b) == [begin] + ([subtract] + ([end] + []));
  }

  ghost predicate NoneRefused(threads: seq<Pc>) {
    forall pc :: pc in threads ==> !pc.Refusing?
  }

  /** Without a ceiling no request is ever refused, whatever the interleaving and even if the counter wraps. */
  lemma {:induction false} UncappedNeverRefuses(s: State, events: seq<Event>)
    requires s.cap == 0 && LoadedCaps(0, s.threads) && NoneRefused(s.threads) && Runs(s, events)
    ensures NoneRefused(Run(s, events).threads)
    decreases |events|
  {
    if events != [] {
      var e := events[0];
      var r := After(s, e);
      var pc := r.threads[e.thread];
      assert s.threads[e.thread] in s.threads;
      forall x | x in r.threads ensures !x.Refusing? && (x.CapRead? ==> x.cap == 0) {
        assert x in s.threads || x == pc;
      }
      UncappedNeverRefuses(r, events[1..]);
    }
  }

  function Requested(events: seq<Event>): nat {
    if events == [] then 0 else (if events[0].action.Add? then events[0].action.size else 0) + Requested(events[1..])
  }

  /** No call in progress has seen a count above the ceiling. */
  ghost predicate NoneOver(cap: nat, threads: seq<Pc>) {
    forall pc :: pc in threads ==> !pc.Refusing? && (pc.Added? || pc.CapRead? ==> pc.live <= cap)
  }

  lemma UnderCeilingStep(s: State, t: nat, a: Action, room: nat)
    requires Safe(s) && Enabled(s, t, a) && NoneOver(s.cap, s.threads) && s.live + room <= s.cap
    requires a.Add? ==> a.size <= room
    ensures var r := Step(s, t, a);
      && Fits(s, a) && Safe(r) && r.cap == s.cap && NoneOver(r.cap, r.threads)
      && r.live + (if a.Add? then room - a.size else room) <= r.cap
  {
    var r := Step(s, t, a);
    var pc := r.threads[t];
    StepIsSafeIff(s, t, a);
    CountedUpdate(s.threads, t, Idle);
    assert s.threads[t] in s.threads;
    forall x | x in r.threads ensures !x.Refusing? && (x.Added? || x.CapRead? ==> x.live <= r.cap) {
      assert x in s.threads || x == pc;
    }
  }

  /**
   * Under a ceiling that has room for everything a run requests, no request of it is ever refused,
   * whatever the interleaving, and the counter never overflows.
   */
  lemma {:induction false} RequestsThatFitAreNeverRefused(s: State, events: seq<Event>)
    requires Safe(s) && NoneOver(s.cap, s.threads) && Runs(s, events)
    requires s.live + Requested(events) <= s.cap
    ensures AllFit(s, events) && NoneRefused(Run(s, events).threads)
    decreases |events|
  {
    if events != [] {
      var e := events[0];
      UnderCeilingStep(s, e.thread, e.action, Requested(events));
      RequestsThatFitAreNeverRefused(After(s, e), events[1..]);
    }
  }

  /** When every call has returned, the counter is the bytes granted, plus what the system refused. */
  lemma QuietCounterIsExact(s: State, events: seq<Event>)
    requires Start(s) && Runs(s, events) && AllFit(s, events)
    requires forall pc :: pc in Run(s, events).threads ==> pc.Idle?
    ensures Run(s, events).live == SumOf(Run(s, events).granted) + Run(s, events).leaked
  {
    StartIsSafe(s);
    SafeRunFits(s, events);
    IdleCountsNothing(s.cap, Run(s, events).threads);
  }

  /**
   * What an overflow does: with two huge requests not yet taken back, a third one wraps the counter around
   * and is let through over the ceiling.
   */
  lemma OverflowGrantsOverCap(s1: State, s2: State, s3: State, s4: State, s5: State, s6: State)
    requires s1 == State(MAX_LAYOUT, 10, [Added(MAX_LAYOUT, MAX_LAYOUT), Idle, Idle], map[], 0)
    requires s2 == s1.(live := 2 * MAX_LAYOUT, threads := s1.threads[1 := Added(MAX_LAYOUT, 2 * MAX_LAYOUT)])
    requires s3 == s2.(live := 10, threads := s2.threads[2 := Added(12, 10)])
    requires s4 == s3.(threads := s3.threads[2 := CapRead(12, 10, 10)])
    requires s5 == s4.(threads := s4.threads[2 := Calling(12)])
    requires s6 == s5.(threads := s5.threads[2 := Idle], granted := map[7 := 12])
    ensures var s := State(0, 10, [Idle, Idle, Idle], map[], 0);
      && Start(s)
      && Enabled(s, 0, Add(MAX_LAYOUT)) && Step(s, 0, Add(MAX_LAYOUT)) == s1
      && Enabled(s1, 1, Add(MAX_LAYOUT)) && Step(s1, 1, Add(MAX_LAYOUT)) == s2
      && Enabled(s2, 2, Add(12)) && !Fits(s2, Add(12)) && Step(s2, 2, Add(12)) == s3
      && Enabled(s3, 2, LoadCap) && Step(s3, 2, LoadCap) == s4
      && Enabled(s4, 2, Decide) && Step(s4, 2, Decide) == s5
      && Enabled(s5, 2, SystemGrants(7)) && Step(s5, 2, SystemGrants(7)) == s6
      && SumOf(s6.granted) > s6.cap
  {
    SumWith(map[], 7, 12);
    assert map[][7 := 12] == map[7 := 12];
    assert [Idle, Idle, Idle][0 := Added(MAX_LAYOUT, MAX_LAYOUT)] == s1.threads;
  }
}
