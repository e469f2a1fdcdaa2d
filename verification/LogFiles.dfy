/** Log files and the order that sorts them (log_file/mod.rs). */
module LogFiles {
  import opened Wrappers
  import opened Orders
  import opened Sequences

  datatype LogFile = LogFile(
    fileId: string,
    timestamp: Rank,
    completion: Option<Rank>,
    extension: string,
    version: nat,
    token: Rank,
    size: Option<nat>)
  {
    /** The time placement looks up: completion when known, else the requested instant. */
    function PlacementTime(): Rank {
      match completion
      case Some(t) => t
      case None => timestamp
    }

    function Key(): SortKey {
      SortKey(completion.None?, PlacementTime(), version, token)
    }
  }

  /** What the order looks at. Two logs with one key are the same element of an ordered set. */
  datatype SortKey = SortKey(pending: bool, time: Rank, version: nat, token: Rank)

  datatype Ordering = Less | Equal | Greater {
    function Then(next: Ordering): Ordering {
      if Equal? then next else this
    }
  }

  function CompareRank(a: Rank, b: Rank): Ordering {
    if a < b then Less else if a == b then Equal else Greater
  }

  function CompareNat(a: nat, b: nat): Ordering {
    if a < b then Less else if a == b then Equal else Greater
  }

  function Compare(a: LogFile, b: LogFile): Ordering {
    match (a.completion, b.completion)
    case (Some(s), Some(t)) =>
      CompareRank(s, t).Then(CompareNat(a.version, b.version)).Then(CompareRank(a.token, b.token))
    case (Some(_), None) => Less
    case (None, Some(_)) => Greater
    case (None, None) =>
      CompareRank(a.timestamp, b.timestamp)
        .Then(CompareNat(a.version, b.version))
        .Then(CompareRank(a.token, b.token))
  }

  ghost predicate KeyLess(a: SortKey, b: SortKey) {
    || (!a.pending && b.pending)
    || (a.pending == b.pending && a.time < b.time)
    || (a.pending == b.pending && a.time == b.time && a.version < b.version)
    || (a.pending == b.pending && a.time == b.time && a.version == b.version && a.token < b.token)
  }

  /** The comparison is the lexicographic order of the keys; ties are exactly shared keys. */
  lemma CompareIsKeyOrder(a: LogFile, b: LogFile)
    ensures Compare(a, b) == Less <==> KeyLess(a.Key(), b.Key())
    ensures Compare(a, b) == Equal <==> a.Key() == b.Key()
    ensures Compare(a, b) == Greater <==> KeyLess(b.Key(), a.Key())
  {
  }

  /** Completed before pending; then by completion or requested time; then by version; then by token; nothing else. */
  lemma CompareMeaning(a: LogFile, b: LogFile)
    ensures a.completion.Some? && b.completion.None? ==> Compare(a, b) == Less && Compare(b, a) == Greater
    ensures a.completion.Some? && b.completion.Some? && a.completion.value < b.completion.value ==> Compare(a, b) == Less
    ensures a.completion.None? && b.completion.None? && a.timestamp < b.timestamp ==> Compare(a, b) == Less
    ensures a.completion == b.completion && (a.completion.None? ==> a.timestamp == b.timestamp) ==>
      && (a.version < b.version ==> Compare(a, b) == Less)
      && (a.version == b.version && a.token < b.token ==> Compare(a, b) == Less)
      && (a.version == b.version && a.token == b.token ==> Compare(a, b) == Equal)
    ensures Compare(a, b) == Less <==> Compare(b, a) == Greater
    ensures a.Key() == b.Key() <==>
      && a.completion == b.completion && (a.completion.None? ==> a.timestamp == b.timestamp)
      && a.version == b.version && a.token == b.token
  {
  }

  /** Requested no later than completed: what a timeline records of every commit. */
  ghost predicate WellTimed(logs: seq<LogFile>) {
    forall l :: l in logs ==> l.timestamp <= l.PlacementTime()
  }

  ghost predicate Sorted(s: seq<LogFile>) {
    forall i, j :: 0 <= i < j < |s| ==> !KeyLess(s[j].Key(), s[i].Key())
  }

  // ---------------------------------------------------------------- stable sort

  function InsertSorted(x: LogFile, s: seq<LogFile>): seq<LogFile> {
    if s == [] then [x]
    else if Compare(s[0], x) == Less then [s[0]] + InsertSorted(x, s[1..])
    else [x] + s
  }

  /** The stable sort a vector of logs goes through before placement. */
  function Sort(s: seq<LogFile>): seq<LogFile> {
    if s == [] then [] else InsertSorted(s[0], Sort(s[1..]))
  }

  lemma {:induction false} InsertPermutes(x: LogFile, s: seq<LogFile>)
    ensures multiset(InsertSorted(x, s)) == multiset([x] + s)
  {
    if s != [] {
      InsertPermutes(x, s[1..]);
      assert s == [s[0]] + s[1..];
    }
  }

  lemma {:induction false} SortPermutes(s: seq<LogFile>)
    ensures multiset(Sort(s)) == multiset(s)
  {
    if s != [] {
      SortPermutes(s[1..]);
      InsertPermutes(s[0], Sort(s[1..]));
      assert s == [s[0]] + s[1..];
    }
  }

  lemma SortKeeps(s: seq<LogFile>)
    ensures forall l :: l in Sort(s) <==> l in s
    ensures |Sort(s)| == |s|
  {
    SortPermutes(s);
    SameMembers(Sort(s), s);
  }

  lemma {:induction false} InsertKeepsSorted(x: LogFile, s: seq<LogFile>)
    requires Sorted(s)
    ensures Sorted(InsertSorted(x, s))
  {
    if s != [] {
      CompareIsKeyOrder(s[0], x);
      if Compare(s[0], x) == Less {
        var r := InsertSorted(x, s[1..]);
        InsertKeepsSorted(x, s[1..]);
        InsertPermutes(x, s[1..]);
        SameMembers(r, [x] + s[1..]);
        forall j | 0 <= j < |r| ensures !KeyLess(r[j].Key(), s[0].Key()) {
          assert r[j] in r;
          assert r[j] in s[1..] || r[j] == x;
        }
      } else {
        assert forall j :: 0 <= j < |s| ==> !KeyLess(s[j].Key(), s[0].Key());
      }
    }
  }

  lemma {:induction false} SortSorts(s: seq<LogFile>)
    ensures Sorted(Sort(s))
  {
    if s != [] {
      SortSorts(s[1..]);
      InsertKeepsSorted(s[0], Sort(s[1..]));
    }
  }

  // ---------------------------------------------------------------- first holder of a key

  predicate HasKey(s: seq<LogFile>, key: SortKey) {
    exists l :: l in s && l.Key() == key
  }

  /** The first log of `s` with that key: the one an ordered set keeps. */
  function FirstWith(s: seq<LogFile>, key: SortKey): (l: LogFile)
    requires HasKey(s, key)
    ensures l in s && l.Key() == key
  {
    if s[0].Key() == key then s[0] else FirstWith(s[1..], key)
  }

  lemma {:induction false} InsertFirst(x: LogFile, s: seq<LogFile>, key: SortKey)
    requires Sorted(s)
    requires HasKey([x] + s, key)
    ensures HasKey(InsertSorted(x, s), key)
    ensures FirstWith(InsertSorted(x, s), key) == FirstWith([x] + s, key)
  {
    var r := InsertSorted(x, s);
    InsertPermutes(x, s);
    SameMembers(r, [x] + s);
    assert ([x] + s)[1..] == s;
    if s != [] {
      CompareIsKeyOrder(s[0], x);
      if Compare(s[0], x) == Less {
        var r' := InsertSorted(x, s[1..]);
        assert r[1..] == r';
        if s[0].Key() != key {
          assert ([x] + s[1..])[1..] == s[1..];
          InsertFirst(x, s[1..], key);
        }
      }
    }
  }

  /** The sort is stable: within one key the first log of the input stays first. */
  lemma {:induction false} SortKeepsFirst(s: seq<LogFile>, key: SortKey)
    requires HasKey(s, key)
    ensures HasKey(Sort(s), key)
    ensures FirstWith(Sort(s), key) == FirstWith(s, key)
  {
    var t := Sort(s[1..]);
    SortSorts(s[1..]);
    SortKeeps(s[1..]);
    assert ([s[0]] + t)[1..] == t;
    if s[0].Key() != key {
      SortKeepsFirst(s[1..], key);
    }
    assert HasKey([s[0]] + t, key);
    InsertFirst(s[0], t, key);
  }

  // ---------------------------------------------------------------- completed before pending

  function Completed(s: seq<LogFile>): (r: seq<LogFile>)
    ensures forall l :: l in r <==> l in s && l.completion.Some?
  {
    if s == [] then []
    else (if s[0].completion.Some? then [s[0]] else []) + Completed(s[1..])
  }

  function Pending(s: seq<LogFile>): (r: seq<LogFile>)
    ensures forall l :: l in r <==> l in s && l.completion.None?
  {
    if s == [] then []
    else (if s[0].completion.None? then [s[0]] else []) + Pending(s[1..])
  }

  lemma {:induction false} InsertBefore(x: LogFile, a: seq<LogFile>, b: seq<LogFile>)
    requires x.completion.Some? && forall l :: l in b ==> l.completion.None?
    ensures InsertSorted(x, a + b) == InsertSorted(x, a) + b
  {
    if a == [] {
      assert a + b == b;
    } else {
      var head, tail := [a[0]], a[1..];
      FirstAndRest(a);
      Regroup(head, tail, b);
      InsertStep(x, a[0], tail + b);
      InsertStep(x, a[0], tail);
      InsertBefore(x, tail, b);
      Regroup(head, InsertSorted(x, tail), b);
      Regroup([x], head + tail, b);
    }
  }

  lemma {:induction false} InsertAfter(x: LogFile, a: seq<LogFile>, b: seq<LogFile>)
    requires x.completion.None? && forall l :: l in a ==> l.completion.Some?
    ensures InsertSorted(x, a + b) == a + InsertSorted(x, b)
  {
    if a == [] {
      assert a + b == b;
    } else {
      var head, tail := [a[0]], a[1..];
      assert a[0] in a;
      FirstAndRest(a);
      Regroup(head, tail, b);
      InsertStep(x, a[0], tail + b);
      InsertAfter(x, tail, b);
      Regroup(head, tail, InsertSorted(x, b));
    }
  }

  lemma InsertStep(x: LogFile, head: LogFile, tail: seq<LogFile>)
    ensures InsertSorted(x, [head] + tail) ==
      if Compare(head, x) == Less then [head] + InsertSorted(x, tail) else [x] + ([head] + tail)
  {
  }

  /** Sorting puts all completed logs, sorted, before all pending ones, sorted. */
  lemma {:induction false} SortSplits(s: seq<LogFile>)
    ensures Sort(s) == Sort(Completed(s)) + Sort(Pending(s))
  {
    if s == [] {
    } else {
      var x, c, p := s[0], Completed(s[1..]), Pending(s[1..]);
      SortSplits(s[1..]);
      assert Sort(s) == InsertSorted(x, Sort(c) + Sort(p));
      assert Completed(s) == if x.completion.Some? then [x] + c else c;
      assert Pending(s) == if x.completion.Some? then p else [x] + p;
      SortStepSplits(x, c, p);
    }
  }

  lemma SortStepSplits(x: LogFile, c: seq<LogFile>, p: seq<LogFile>)
    requires forall l :: l in c ==> l.completion.Some?
    requires forall l :: l in p ==> l.completion.None?
    ensures x.completion.Some? ==> InsertSorted(x, Sort(c) + Sort(p)) == Sort([x] + c) + Sort(p)
    ensures x.completion.None? ==> InsertSorted(x, Sort(c) + Sort(p)) == Sort(c) + Sort([x] + p)
  {
    SortKeeps(c);
    SortKeeps(p);
    if x.completion.Some? {
      InsertBefore(x, Sort(c), Sort(p));
    } else {
      InsertAfter(x, Sort(c), Sort(p));
    }
    SortCons(x, c);
    SortCons(x, p);
  }

  lemma SortCons(x: LogFile, s: seq<LogFile>)
    ensures Sort([x] + s) == InsertSorted(x, Sort(s))
  {
  }
}
