/** When the order a batch of logs arrives in can be seen in the result of placing it. */
module BatchOrder {
  import opened Wrappers
  import opened Orders
  import opened Sequences
  import opened LogFiles
  import opened FileSlices
  import opened Placement

  /** Two different logs compete for one place in a slice that has no log of their key yet. */
  ghost predicate Compete(m: Slices, a: LogFile, b: LogFile) {
    a != b && a.Key() == b.Key() && !Held(m, a.Key())
  }

  ghost predicate NoneCompete(m: Slices, logs: seq<LogFile>) {
    forall a, b :: a in logs && b in logs ==> !Compete(m, a, b)
  }

  ghost predicate SameBatch(s: seq<LogFile>, t: seq<LogFile>) {
    multiset(s) == multiset(t)
  }

  lemma SortMembers(s: seq<LogFile>, t: seq<LogFile>)
    requires SameBatch(s, t)
    ensures forall l :: l in s <==> l in t
    ensures forall l :: l in Sort(s) <==> l in s
    ensures forall l :: l in Sort(t) <==> l in s
    ensures forall l :: l in Sort(Completed(s)) <==> l in s && l.completion.Some?
    ensures forall l :: l in Sort(Completed(t)) <==> l in s && l.completion.Some?
    ensures forall l :: l in Sort(Pending(s)) <==> l in s && l.completion.None?
    ensures forall l :: l in Sort(Pending(t)) <==> l in s && l.completion.None?
  {
    SameMembers(s, t);
    SortKeeps(s);
    SortKeeps(t);
    SortKeeps(Completed(s));
    SortKeeps(Completed(t));
    SortKeeps(Pending(s));
    SortKeeps(Pending(t));
  }

  lemma HeadsShareKey(s: seq<LogFile>, t: seq<LogFile>)
    requires Sorted(s) && Sorted(t)
    requires forall l :: l in s <==> l in t
    ensures (s == []) == (t == [])
    ensures s != [] ==> s[0].Key() == t[0].Key()
  {
    if t != [] {
      assert t[0] in t;
    }
    if s != [] {
      assert s[0] in s;
      assert s[0] in t && t[0] in s;
      var i :| 0 <= i < |t| && t[i] == s[0];
      var j :| 0 <= j < |s| && s[j] == t[0];
      assert i == 0 || !KeyLess(t[i].Key(), t[0].Key());
      assert j == 0 || !KeyLess(s[j].Key(), s[0].Key());
    }
  }

  /** Equal-keyed heads open the same slice, since a slice is only opened where nothing is held. */
  lemma HeadsOpenAlike(m: Slices, keys: set<Rank>, s: seq<LogFile>, t: seq<LogFile>)
    requires m.Keys <= keys
    requires Sorted(s) && Sorted(t)
    requires forall l :: l in s <==> l in t
    requires NoneCompete(m, s)
    ensures OpenedBy(keys, s) == OpenedBy(keys, t)
  {
    HeadsShareKey(s, t);
    if s != [] {
      assert s[0] in s && t[0] in s;
      if s[0] != t[0] {
        assert Held(m, s[0].Key());
        assert Floor(m.Keys, s[0].Key().time).value in keys;
      }
    }
  }

  lemma SameKeysOpened(m: Slices, s: seq<LogFile>, t: seq<LogFile>)
    requires SameBatch(s, t) && NoneCompete(m, s)
    ensures OpenedByBatch(m.Keys, s) == OpenedByBatch(m.Keys, t)
  {
    var cs, ct := Sort(Completed(s)), Sort(Completed(t));
    var ps, pt := Sort(Pending(s)), Sort(Pending(t));
    SortMembers(s, t);
    SortSorts(Completed(s));
    SortSorts(Completed(t));
    SortSorts(Pending(s));
    SortSorts(Pending(t));
    assert NoneCompete(m, cs) && NoneCompete(m, ps);
    HeadsOpenAlike(m, m.Keys, cs, ct);
    HeadsOpenAlike(m, m.Keys + OpenedBy(m.Keys, cs), ps, pt);
  }

  lemma WellTimedSorted(s: seq<LogFile>)
    requires WellTimed(s)
    ensures WellTimed(Sort(s))
  {
    SortKeeps(s);
  }

  lemma SettledLogsAgree(id: GroupId, m: Slices, keys: set<Rank>, k: Rank, s: seq<LogFile>, t: seq<LogFile>)
    requires ExtendsBelow(m.Keys, keys)
    requires forall l :: l in s <==> l in t
    requires NoneCompete(m, s)
    ensures var had := StartOf(id, m, k).logs;
      SettledLogs(had, keys, k, s) == SettledLogs(had, keys, k, t)
  {
    var had := StartOf(id, m, k).logs;
    var a, b := SettledLogs(had, keys, k, s), SettledLogs(had, keys, k, t);
    forall key ensures (key in a <==> key in b) && (key in a ==> a[key] == b[key]) {
      SettledLogsHold(had, keys, k, s, key);
      SettledLogsHold(had, keys, k, t, key);
      assert HasKey(s, key) <==> HasKey(t, key);
      if key in a && key !in had {
        HeldBySettledStart(id, m, keys, key);
        assert !Compete(m, FirstWith(s, key), FirstWith(t, key));
      }
    }
  }

  lemma SettledAgree(id: GroupId, m: Slices, keys: set<Rank>, s: seq<LogFile>, t: seq<LogFile>)
    requires ExtendsBelow(m.Keys, keys)
    requires forall l :: l in s <==> l in t
    requires NoneCompete(m, s)
    ensures Settled(id, m, keys, s) == Settled(id, m, keys, t)
  {
    forall k | k in keys ensures SettledSlice(id, m, keys, k, s) == SettledSlice(id, m, keys, k, t) {
      SettledLogsAgree(id, m, keys, k, s, t);
    }
  }

  /** Without competing logs every arrival order of a batch gives the same slices. */
  lemma OrderDoesNotMatter(id: GroupId, m: Slices, s: seq<LogFile>, t: seq<LogFile>)
    requires WellTimed(s) && SameBatch(s, t) && NoneCompete(m, s)
    ensures PlaceAll(id, m, Sort(s)) == PlaceAll(id, m, Sort(t))
  {
    var a, b := Sort(s), Sort(t);
    SortMembers(s, t);
    SameKeysOpened(m, s, t);
    assert PlaceAll(id, m, a).Keys == PlaceAll(id, m, b).Keys by {
      BatchKeys(id, m, s);
      BatchKeys(id, m, t);
    }
    PlacementSettles(id, m, a);
    PlacementSettles(id, m, b);
    SettledAgree(id, m, PlaceAll(id, m, a).Keys, a, b);
  }

  /** What a read as of the logs' time finds under a key nobody held: the first log to arrive. */
  lemma FirstToArriveIsKept(id: GroupId, m: Slices, s: seq<LogFile>, l: LogFile)
    requires WellTimed(s) && l in s && !Held(m, l.Key())
    ensures HasKey(s, l.Key())
    ensures var found := AsOf(PlaceAll(id, m, Sort(s)), l.PlacementTime());
      found.Some? && l.Key() in found.value.logs && found.value.logs[l.Key()] == FirstWith(s, l.Key())
  {
    SortKeeps(s);
    WellTimedSorted(s);
    assert HasKey(s, l.Key());
    SortKeepsFirst(s, l.Key());
    PlacedLogIsFound(id, m, Sort(s), l);
  }

  lemma OrderMatters(id: GroupId, m: Slices, s: seq<LogFile>) returns (t: seq<LogFile>)
    requires WellTimed(s) && !NoneCompete(m, s)
    ensures SameBatch(s, t) && PlaceAll(id, m, Sort(s)) != PlaceAll(id, m, Sort(t))
  {
    var a, b :| a in s && b in s && Compete(m, a, b);
    FirstToArriveIsKept(id, m, s, a);
    var late := if FirstWith(s, a.Key()) == a then b else a;
    var before, after := Around(s, late);
    t := [late] + (before + after);
    SameMembers(s, t);
    assert FirstWith(t, late.Key()) == late;
    FirstToArriveIsKept(id, m, t, late);
  }

  /** A batch gives the same slices in every arrival order if and only if none of its logs compete. */
  lemma BatchIsOrderIndependentIff(id: GroupId, m: Slices, s: seq<LogFile>)
    requires WellTimed(s)
    ensures NoneCompete(m, s) <==>
            forall t :: SameBatch(s, t) ==> PlaceAll(id, m, Sort(s)) == PlaceAll(id, m, Sort(t))
  {
    if NoneCompete(m, s) {
      forall t | SameBatch(s, t) ensures PlaceAll(id, m, Sort(s)) == PlaceAll(id, m, Sort(t)) {
        OrderDoesNotMatter(id, m, s, t);
      }
    } else {
      var t := OrderMatters(id, m, s);
      assert SameBatch(s, t);
    }
  }

  /** Every log of a batch is kept if and only if each is the one held, or the only one of its key. */
  lemma BatchIsConservedIff(id: GroupId, m: Slices, s: seq<LogFile>)
    requires WellTimed(s)
    ensures (forall l :: l in s ==> Kept(PlaceAll(id, m, Sort(s)), l)) <==>
            (forall a, b :: a in s && b in s && a.Key() == b.Key() ==> a == b) &&
            (forall l :: l in s && Held(m, l.Key()) ==> Kept(m, l))
  {
    SortKeeps(s);
    WellTimedSorted(s);
    var r := PlaceAll(id, m, Sort(s));
    forall l | l in s
      ensures Kept(r, l) <==> if Held(m, l.Key()) then Kept(m, l) else FirstWith(Sort(s), l.Key()) == l
    {
      assert HasKey(Sort(s), l.Key());
      PlacedLogIsFound(id, m, Sort(s), l);
    }
  }

  /** A read as of the log's own time finds that very log. */
  predicate Kept(m: Slices, l: LogFile) {
    var found := AsOf(m, l.PlacementTime());
    found.Some? && l.Key() in found.value.logs && found.value.logs[l.Key()] == l
  }

  // ---------------------------------------------------------------- inputs that show the conditions are met

  function DeltaLog(timestamp: Rank, completion: Option<Rank>): LogFile {
    LogFile("f", timestamp, completion, "log", 1, 0.0, None)
  }

  lemma PairPlaced(id: GroupId, a: LogFile, b: LogFile)
    ensures PlaceAll(id, map[], [a, b]) == Place(id, Place(id, map[], a), b)
  {
    var m := Place(id, map[], a);
    assert [a, b][1..] == [b];
    assert PlaceAll(id, m, [b]) == PlaceAll(id, Place(id, m, b), [b][1..]);
  }

  lemma PairSorted(a: LogFile, b: LogFile)
    ensures Sort([a, b]) == if Compare(b, a) == Less then [b, a] else [a, b]
    ensures Completed([a, b]) == (if a.completion.Some? then [a] else []) + (if b.completion.Some? then [b] else [])
    ensures Pending([a, b]) == (if a.completion.None? then [a] else []) + (if b.completion.None? then [b] else [])
  {
    assert [a, b] == [a] + [b] && [a, b][1..] == [b];
    OneSorted(b);
    SortCons(a, [b]);
    InsertStep(a, b, []);
    assert [b] + [] == [b] && [b] + [a] == [b, a];
    assert InsertSorted(a, []) == [a];
  }

  lemma OneSorted(a: LogFile)
    ensures Sort([a]) == [a]
    ensures Completed([a]) == if a.completion.Some? then [a] else []
    ensures Pending([a]) == if a.completion.None? then [a] else []
  {
  }

  lemma FirstOpensSlice(id: GroupId, a: LogFile)
    ensures Place(id, map[], a) == map[a.timestamp := LogOnly(id.fileId, a.timestamp, id.partition).WithLog(a)]
  {
  }

  /** A log that precedes the only slice opens one of its own. */
  lemma EarlierLogSplits(id: GroupId, a: LogFile, b: LogFile)
    requires b.PlacementTime() < a.timestamp && b.timestamp != a.timestamp
    ensures PlaceAll(id, map[], [a, b]).Keys == {a.timestamp, b.timestamp}
  {
    PairPlaced(id, a, b);
    FirstOpensSlice(id, a);
    assert Floor({a.timestamp}, b.PlacementTime()) == None by {
      assert a.timestamp in {a.timestamp};
    }
    assert Place(id, map[], a).Keys == {a.timestamp};
  }

  /** Placed in listing order instead of sorted, two logs of one slice are split over two. */
  lemma UnsortedPlacementSplits(id: GroupId, early: LogFile, late: LogFile)
    requires early.completion.Some? && late.completion.Some?
    requires early.timestamp <= early.PlacementTime() < late.timestamp <= late.PlacementTime()
    ensures PlaceAll(id, map[], [late, early]).Keys == {late.timestamp, early.timestamp}
    ensures PlaceAll(id, map[], Sort([late, early])).Keys == {early.timestamp}
  {
    EarlierLogSplits(id, late, early);
    PairSorted(late, early);
    PairPlaced(id, early, late);
    FirstOpensSlice(id, early);
    var first := Place(id, map[], early);
    assert early.timestamp in first.Keys;
    PlaceKeys(id, first, late);
  }

  /**
   * Sorting does not help a batch that mixes a log of an archived commit, whose completion time is no
   * longer known, with a log of a later active commit: the older log sorts last and opens a slice of
   * its own, and a read as of any later time does not see it.
   */
  lemma ArchivedLogIsSplitOff(id: GroupId, archived: LogFile, active: LogFile, t: Rank)
    requires archived.completion.None? && active.completion.Some?
    requires archived.timestamp < active.timestamp <= active.completion.value
    requires active.timestamp <= t
    ensures Splits({}, [archived, active])
    ensures PlaceAll(id, map[], Sort([archived, active])).Keys == {archived.timestamp, active.timestamp}
    ensures var found := AsOf(PlaceAll(id, map[], Sort([archived, active])), t);
      found.Some? && archived.Key() !in found.value.logs
  {
    assert Sort([archived, active]) == [active, archived] && Splits({}, [archived, active]) by {
      PairSorted(archived, active);
      OneSorted(active);
      OneSorted(archived);
    }
    EarlierLogSplits(id, active, archived);
    LaterReadMisses(id, [active, archived], active, archived, t);
  }

  /** A log looked up in one slice is in no other. */
  lemma LaterReadMisses(id: GroupId, logs: seq<LogFile>, late: LogFile, early: LogFile, t: Rank)
    requires WellTimed(logs) && PlaceAll(id, map[], logs).Keys == {late.timestamp, early.timestamp}
    requires early.PlacementTime() == early.timestamp < late.timestamp <= t
    ensures var found := AsOf(PlaceAll(id, map[], logs), t);
      found.Some? && early.Key() !in found.value.logs
  {
    var keys := PlaceAll(id, map[], logs).Keys;
    assert late.timestamp in keys && early.timestamp in keys;
    assert Floor(keys, t) == Some(late.timestamp);
    assert Floor(keys, early.timestamp) == Some(early.timestamp);
    StoredLogsAreAccountedFor(id, map[], logs, late.timestamp, early.Key());
  }

  /** Two commits completed at one time, by writers using one version and token: one log is dropped. */
  lemma LogsOfOneInstantCompete(id: GroupId)
    ensures var a, b := DeltaLog(1.0, Some(6.0)), DeltaLog(2.0, Some(6.0));
      && Compete(map[], a, b)
      && exists l :: l in [a, b] && !Kept(PlaceAll(id, map[], Sort([a, b])), l)
  {
    var a, b := DeltaLog(1.0, Some(6.0)), DeltaLog(2.0, Some(6.0));
    assert a in [a, b] && b in [a, b];
    assert WellTimed([a, b]);
    assert Floor({}, 6.0) == None;
    BatchIsConservedIff(id, map[], [a, b]);
  }
}
