/** Where log files go among the slices of a file group (file_group/mod.rs). */
module Placement {
  import opened Wrappers
  import opened Orders
  import opened LogFiles
  import opened FileSlices

  /** A group is identified by its file id and partition; equality ignores its slices. */
  datatype GroupId = GroupId(fileId: string, partition: string)

  // ---------------------------------------------------------------- placement as a function

  function StartOf(id: GroupId, m: Slices, k: Rank): FileSlice {
    if k in m then m[k] else LogOnly(id.fileId, k, id.partition)
  }

  function Place(id: GroupId, m: Slices, l: LogFile): Slices {
    var k := match Floor(m.Keys, l.PlacementTime())
             case Some(k) => k
             case None => l.timestamp;
    m[k := StartOf(id, m, k).WithLog(l)]
  }

  function PlaceAll(id: GroupId, m: Slices, logs: seq<LogFile>): Slices
    decreases |logs|
  {
    if logs == [] then m else PlaceAll(id, Place(id, m, logs[0]), logs[1..])
  }

  function AsOf(m: Slices, t: Rank): Option<FileSlice> {
    match Floor(m.Keys, t)
    case Some(k) => Some(m[k])
    case None => None
  }

  /** `k` is the latest of the keys that are not after `t`. */
  ghost predicate LatestBy(keys: set<Rank>, t: Rank, k: Rank) {
    k in keys && k <= t && forall j :: j in keys && j <= t ==> j <= k
  }

  /**
   * One placement, told without lookups: the log goes to the latest slice not after its completion time,
   * or its requested instant when that is all that is known; if there is none, to a slice of its requested
   * instant, new and without a base file unless one is there. A log already held under its key stays.
   */
  lemma PlaceMeaning(id: GroupId, m: Slices, l: LogFile, k: Rank)
    requires var t := if l.completion.Some? then l.completion.value else l.timestamp;
      LatestBy(m.Keys, t, k) || (k == l.timestamp && forall j :: j in m ==> t < j)
    ensures var r := Place(id, m, l);
      && r.Keys == m.Keys + {k}
      && (forall j :: j in m && j != k ==> r[j] == m[j])
      && (k in m ==> r[k].Same(m[k]) && r[k].base == m[k].base)
      && (k !in m ==> r[k].base.None? && r[k].fileId == id.fileId && r[k].partition == id.partition && r[k].creation == k)
      && r[k].logs ==
           var had := if k in m then m[k].logs else map[];
           if l.Key() in had then had else had[l.Key() := l]
  {
    if k in m.Keys && k <= l.PlacementTime() {
      assert Floor(m.Keys, l.PlacementTime()) == Some(k);
    }
  }

  // ---------------------------------------------------------------- the history-free description

  /** What slice `k` holds in the end: what it had, and the logs that are looked up there. */
  function SettledLogs(had: LogSet, keys: set<Rank>, k: Rank, logs: seq<LogFile>): LogSet
    decreases |logs|
  {
    if logs == [] then had
    else
      var here := Floor(keys, logs[0].PlacementTime()) == Some(k);
      SettledLogs(if here then Insert(had, logs[0]) else had, keys, k, logs[1..])
  }

  function SettledSlice(id: GroupId, m: Slices, keys: set<Rank>, k: Rank, logs: seq<LogFile>): FileSlice {
    var start := StartOf(id, m, k);
    start.(logs := SettledLogs(start.logs, keys, k, logs))
  }

  /**
   * The outcome of placement told from its final keys alone: every log sits where a lookup of its
   * own placement time, made afterwards, would find it.
   */
  function Settled(id: GroupId, m: Slices, keys: set<Rank>, logs: seq<LogFile>): Slices {
    map k | k in keys :: SettledSlice(id, m, keys, k, logs)
  }

  ghost predicate ExtendsBelow(keys: set<Rank>, more: set<Rank>) {
    && keys <= more
    && forall j, k :: j in more - keys && k in keys ==> j < k
  }

  lemma PlaceKeys(id: GroupId, m: Slices, l: LogFile)
    requires l.timestamp <= l.PlacementTime()
    ensures ExtendsBelow(m.Keys, Place(id, m, l).Keys)
    ensures Floor(Place(id, m, l).Keys, l.PlacementTime()).Some?
    ensures Place(id, m, l).Keys ==
            m.Keys + if Covered(m.Keys, l.PlacementTime()) then {} else {l.timestamp}
  {
    var r := Place(id, m, l);
    match Floor(m.Keys, l.PlacementTime()) {
      case Some(k) => assert k in r.Keys;
      case None => assert l.timestamp in r.Keys;
    }
  }

  /** The first step of a placement, seen from the keys the whole of it ends with. */
  lemma FirstStepSettles(id: GroupId, m: Slices, more: set<Rank>, logs: seq<LogFile>)
    requires logs != [] && logs[0].timestamp <= logs[0].PlacementTime()
    requires ExtendsBelow(Place(id, m, logs[0]).Keys, more)
    ensures Settled(id, Place(id, m, logs[0]), more, logs[1..]) == Settled(id, m, more, logs)
  {
    var m1 := Place(id, m, logs[0]);
    PlaceKeys(id, m, logs[0]);
    FloorStable(m1.Keys, more, logs[0].PlacementTime());
    forall k | k in more
      ensures SettledSlice(id, m1, more, k, logs[1..]) == SettledSlice(id, m, more, k, logs)
    {
    }
  }

  lemma ExtendsBelowComposes(a: set<Rank>, b: set<Rank>, c: set<Rank>)
    requires ExtendsBelow(a, b) && ExtendsBelow(b, c)
    ensures ExtendsBelow(a, c)
  {
    forall j, k | j in c - a && k in a ensures j < k {
      assert j in c - b || j in b - a;
    }
  }

  lemma NothingToSettle(id: GroupId, m: Slices)
    ensures Settled(id, m, m.Keys, []) == m
  {
  }

  /** What placing `logs` into `m` came to. */
  ghost predicate PlacedInto(id: GroupId, m: Slices, logs: seq<LogFile>, r: Slices) {
    && ExtendsBelow(m.Keys, r.Keys)
    && (forall l :: l in logs ==> Floor(r.Keys, l.PlacementTime()).Some?)
    && r == Settled(id, m, r.Keys, logs)
  }

  /** Placing logs one by one, in any order, refines the history-free description. */
  lemma {:induction false} PlacementSettles(id: GroupId, m: Slices, logs: seq<LogFile>)
    requires WellTimed(logs)
    ensures PlacedInto(id, m, logs, PlaceAll(id, m, logs))
    decreases |logs|
  {
    if logs == [] {
      NothingToSettle(id, m);
    } else {
      var l, rest := logs[0], logs[1..];
      var m1 := Place(id, m, l);
      var r := PlaceAll(id, m1, rest);
      PlaceKeys(id, m, l);
      PlacementSettles(id, m1, rest);
      ExtendsBelowComposes(m.Keys, m1.Keys, r.Keys);
      FloorStable(m1.Keys, r.Keys, l.PlacementTime());
      FirstStepSettles(id, m, r.Keys, logs);
      forall x | x in logs ensures Floor(r.Keys, x.PlacementTime()).Some? {
        assert x == l || x in rest;
      }
    }
  }

  // ---------------------------------------------------------------- what a slice ends up holding

  lemma {:induction false} SettledLogsHold(had: LogSet, keys: set<Rank>, k: Rank, logs: seq<LogFile>, key: SortKey)
    ensures var r := SettledLogs(had, keys, k, logs);
      && (key in r <==> key in had || (HasKey(logs, key) && Floor(keys, key.time) == Some(k)))
      && (key in r ==> r[key] == if key in had then had[key] else FirstWith(logs, key))
    decreases |logs|
  {
    if logs == [] {
    } else {
      var l, rest := logs[0], logs[1..];
      var here := Floor(keys, l.PlacementTime()) == Some(k);
      SettledLogsHold(if here then Insert(had, l) else had, keys, k, rest, key);
      assert HasKey(rest, key) ==> HasKey(logs, key);
      assert HasKey(logs, key) ==> l.Key() == key || HasKey(rest, key);
      assert l.Key() == key ==> HasKey(logs, key);
    }
  }

  /** Whether the slice a log of this key is looked up in already holds one. */
  predicate Held(m: Slices, key: SortKey) {
    match Floor(m.Keys, key.time)
    case Some(k) => key in m[k].logs
    case None => false
  }

  lemma HeldBySettledStart(id: GroupId, m: Slices, keys: set<Rank>, key: SortKey)
    requires ExtendsBelow(m.Keys, keys) && Floor(keys, key.time).Some?
    ensures var k := Floor(keys, key.time).value;
      && (Held(m, key) <==> key in StartOf(id, m, k).logs)
      && (Held(m, key) ==> Floor(m.Keys, key.time) == Some(k))
  {
    if Floor(m.Keys, key.time).Some? {
      FloorStable(m.Keys, keys, key.time);
    }
  }

  /**
   * After any sequence of placements a read as of a log's own time finds the slice with that log's
   * key, and the log kept there is the one held before or else the first one placed.
   */
  lemma PlacedLogIsFound(id: GroupId, m: Slices, logs: seq<LogFile>, l: LogFile)
    requires WellTimed(logs) && l in logs
    ensures var found := AsOf(PlaceAll(id, m, logs), l.PlacementTime());
      && found.Some? && l.Key() in found.value.logs
      && found.value.logs[l.Key()] ==
           if Held(m, l.Key()) then m[Floor(m.Keys, l.PlacementTime()).value].logs[l.Key()]
           else FirstWith(logs, l.Key())
  {
    PlacementSettles(id, m, logs);
    var r := PlaceAll(id, m, logs);
    var k := Floor(r.Keys, l.PlacementTime()).value;
    HeldBySettledStart(id, m, r.Keys, l.Key());
    SettledLogsHold(StartOf(id, m, k).logs, r.Keys, k, logs, l.Key());
    assert HasKey(logs, l.Key());
  }

  /**
   * One placed log is found as of its own time if and only if a slice was there for it, or its commit
   * was requested no later than it completed, as `WellTimed` has it.
   */
  lemma PlacedLogIsFoundIff(id: GroupId, m: Slices, l: LogFile)
    ensures (AsOf(Place(id, m, l), l.PlacementTime()).Some? &&
             l.Key() in AsOf(Place(id, m, l), l.PlacementTime()).value.logs) <==>
            Covered(m.Keys, l.PlacementTime()) || l.timestamp <= l.PlacementTime()
  {
    var r := Place(id, m, l);
    if Covered(m.Keys, l.PlacementTime()) || l.timestamp <= l.PlacementTime() {
      var k := match Floor(m.Keys, l.PlacementTime()) case Some(k) => k case None => l.timestamp;
      assert k in r.Keys && forall j :: j in r.Keys && j <= l.PlacementTime() ==> j <= k;
      assert Floor(r.Keys, l.PlacementTime()) == Some(k);
    }
  }

  /** Nothing is invented, moved or dropped: every stored log was there or was looked up there. */
  lemma StoredLogsAreAccountedFor(id: GroupId, m: Slices, logs: seq<LogFile>, k: Rank, key: SortKey)
    requires WellTimed(logs)
    requires k in PlaceAll(id, m, logs)
    ensures var stored := PlaceAll(id, m, logs)[k].logs;
      && (key in stored <==>
           (k in m && key in m[k].logs) ||
           (HasKey(logs, key) && Floor(PlaceAll(id, m, logs).Keys, key.time) == Some(k)))
      && (key in stored ==>
           if k in m && key in m[k].logs then stored[key] == m[k].logs[key]
           else stored[key] == FirstWith(logs, key))
  {
    PlacementSettles(id, m, logs);
    SettledLogsHold(StartOf(id, m, k).logs, PlaceAll(id, m, logs).Keys, k, logs, key);
  }

  // ---------------------------------------------------------------- slices a sorted batch opens

  lemma {:induction false} PlaceAllAppend(id: GroupId, m: Slices, a: seq<LogFile>, b: seq<LogFile>)
    ensures PlaceAll(id, m, a + b) == PlaceAll(id, PlaceAll(id, m, a), b)
    decreases |a|
  {
    if a == [] {
      assert a + b == b;
    } else {
      assert (a + b)[1..] == a[1..] + b;
      PlaceAllAppend(id, Place(id, m, a[0]), a[1..], b);
    }
  }

  lemma {:induction false} CoveredLogsOpenNothing(id: GroupId, m: Slices, logs: seq<LogFile>)
    requires WellTimed(logs)
    requires forall l :: l in logs ==> Covered(m.Keys, l.PlacementTime())
    ensures PlaceAll(id, m, logs).Keys == m.Keys
    decreases |logs|
  {
    if logs == [] {
    } else {
      PlaceKeys(id, m, logs[0]);
      CoveredLogsOpenNothing(id, Place(id, m, logs[0]), logs[1..]);
    }
  }

  /** The slice opened by a run of logs whose times do not fall below the first one's. */
  function OpenedBy(keys: set<Rank>, logs: seq<LogFile>): set<Rank> {
    if logs == [] || Covered(keys, logs[0].PlacementTime()) then {} else {logs[0].timestamp}
  }

  lemma AscendingLogsOpenOne(id: GroupId, m: Slices, logs: seq<LogFile>)
    requires WellTimed(logs)
    requires forall l :: l in logs ==> logs[0].PlacementTime() <= l.PlacementTime()
    ensures PlaceAll(id, m, logs).Keys == m.Keys + OpenedBy(m.Keys, logs)
  {
    if logs != [] {
      var m1 := Place(id, m, logs[0]);
      PlaceKeys(id, m, logs[0]);
      assert Covered(m1.Keys, logs[0].PlacementTime());
      forall l | l in logs[1..] ensures Covered(m1.Keys, l.PlacementTime()) {
        assert l in logs;
      }
      CoveredLogsOpenNothing(id, m1, logs[1..]);
    }
  }

  lemma SortedHeadIsEarliest(s: seq<LogFile>)
    requires Sorted(s)
    requires (forall l :: l in s ==> l.completion.Some?) || (forall l :: l in s ==> l.completion.None?)
    ensures forall l :: l in s ==> s[0].PlacementTime() <= l.PlacementTime()
  {
  }

  /** The slices a sorted batch opens: one for its completed logs, then one for its pending logs. */
  function OpenedByBatch(keys: set<Rank>, logs: seq<LogFile>): set<Rank> {
    var c := OpenedBy(keys, Sort(Completed(logs)));
    c + OpenedBy(keys + c, Sort(Pending(logs)))
  }

  ghost predicate Segment(s: seq<LogFile>, pending: bool, logs: seq<LogFile>) {
    && WellTimed(s)
    && (forall l :: l in s ==> s[0].PlacementTime() <= l.PlacementTime())
    && (forall l :: l in s <==> l in logs && l.completion.None? == pending)
  }

  lemma SortedSegments(logs: seq<LogFile>)
    requires WellTimed(logs)
    ensures Segment(Sort(Completed(logs)), false, logs)
    ensures Segment(Sort(Pending(logs)), true, logs)
  {
    SortKeeps(Completed(logs));
    SortKeeps(Pending(logs));
    SortSorts(Completed(logs));
    SortSorts(Pending(logs));
    SortedHeadIsEarliest(Sort(Completed(logs)));
    SortedHeadIsEarliest(Sort(Pending(logs)));
  }

  lemma BatchKeys(id: GroupId, m: Slices, logs: seq<LogFile>)
    requires WellTimed(logs)
    ensures PlaceAll(id, m, Sort(logs)).Keys == m.Keys + OpenedByBatch(m.Keys, logs)
  {
    var c, p := Sort(Completed(logs)), Sort(Pending(logs));
    assert PlaceAll(id, m, Sort(logs)) == PlaceAll(id, PlaceAll(id, m, c), p) by {
      SortSplits(logs);
      PlaceAllAppend(id, m, c, p);
    }
    SortedSegments(logs);
    assert PlaceAll(id, m, c).Keys == m.Keys + OpenedBy(m.Keys, c) by {
      AscendingLogsOpenOne(id, m, c);
    }
    AscendingLogsOpenOne(id, PlaceAll(id, m, c), p);
  }

  /** The earliest completed log finds no slice, and the earliest pending one precedes its instant. */
  predicate Splits(keys: set<Rank>, logs: seq<LogFile>) {
    var c, p := Sort(Completed(logs)), Sort(Pending(logs));
    c != [] && p != [] && !Covered(keys, c[0].PlacementTime()) && p[0].timestamp < c[0].timestamp
  }

  /**
   * A batch opens at most one slice unless it splits, and then it opens two. A batch of one kind,
   * all completed or all pending, never splits.
   */
  lemma BatchOpensAtMostOneUnlessItSplits(id: GroupId, m: Slices, logs: seq<LogFile>)
    requires WellTimed(logs)
    ensures var added := PlaceAll(id, m, Sort(logs)).Keys - m.Keys;
      && (|added| == 2 <==> Splits(m.Keys, logs))
      && (|added| <= 1 <==> !Splits(m.Keys, logs))
      && (added != {} <==> exists l :: l in logs && !Covered(m.Keys, l.PlacementTime()))
    ensures Completed(logs) == [] || Pending(logs) == [] ==> !Splits(m.Keys, logs)
  {
    BatchKeys(id, m, logs);
    SortedSegments(logs);
    OpenedByBatchCount(m.Keys, logs);
    assert PlaceAll(id, m, Sort(logs)).Keys - m.Keys == OpenedByBatch(m.Keys, logs);
  }

  lemma SegmentOpens(keys: set<Rank>, s: seq<LogFile>, pending: bool, logs: seq<LogFile>)
    requires Segment(s, pending, logs)
    ensures OpenedBy(keys, s) == {} || OpenedBy(keys, s) == {s[0].timestamp}
    ensures OpenedBy(keys, s) == {} <==> s == [] || Covered(keys, s[0].PlacementTime())
    ensures OpenedBy(keys, s) == {} <==>
            forall l :: l in logs && l.completion.None? == pending ==> Covered(keys, l.PlacementTime())
    ensures OpenedBy(keys, s) !! keys
  {
  }

  lemma OpenedByBatchCount(keys: set<Rank>, logs: seq<LogFile>)
    requires WellTimed(logs)
    ensures OpenedByBatch(keys, logs) !! keys
    ensures |OpenedByBatch(keys, logs)| <= 2
    ensures Splits(keys, logs) <==> |OpenedByBatch(keys, logs)| == 2
    ensures OpenedByBatch(keys, logs) != {} <==> exists l :: l in logs && !Covered(keys, l.PlacementTime())
  {
    var c, p := Sort(Completed(logs)), Sort(Pending(logs));
    var cs := OpenedBy(keys, c);
    var ps := OpenedBy(keys + cs, p);
    SortedSegments(logs);
    assert (cs == {} || cs == {c[0].timestamp}) && cs !! keys && (ps == {} || ps == {p[0].timestamp}) && ps !! keys + cs by {
      SegmentOpens(keys, c, false, logs);
      SegmentOpens(keys + cs, p, true, logs);
    }
    assert cs + ps != {} <==> exists l :: l in logs && !Covered(keys, l.PlacementTime()) by {
      SegmentOpens(keys, c, false, logs);
      SegmentOpens(keys, p, true, logs);
      if cs == {} {
        assert keys + cs == keys;
      }
    }
    if cs == {} {
      assert cs + ps == ps;
    } else {
      SecondOpens(keys, c, p, logs);
      assert cs == {c[0].timestamp};
      assert ps == {} ==> cs + ps == cs;
      assert ps != {} ==> cs + ps == {c[0].timestamp, p[0].timestamp};
    }
  }

  /** Once the completed logs have opened a slice, the pending ones open another only below it. */
  lemma SecondOpens(keys: set<Rank>, c: seq<LogFile>, p: seq<LogFile>, logs: seq<LogFile>)
    requires Segment(c, false, logs) && Segment(p, true, logs)
    requires c != [] && !Covered(keys, c[0].PlacementTime())
    ensures OpenedBy(keys + {c[0].timestamp}, p) == {} <==> p == [] || c[0].timestamp <= p[0].timestamp
  {
  }
}
