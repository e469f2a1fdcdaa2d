/** The file group: slices updated in place, and what every history of updates keeps (file_group/mod.rs). */
module FileGroups {
  import opened Wrappers
  import opened Orders
  import opened Sequences
  import opened LogFiles
  import opened FileSlices
  import opened Placement

  // ---------------------------------------------------------------- steps as functions

  /** A base file opens the slice of its commit, and never replaces one. */
  function WithBase(id: GroupId, m: Slices, b: BaseFile): Slices {
    m[b.commit := FromBase(b, id.partition)]
  }

  predicate Admits(id: GroupId, m: Slices, b: BaseFile) {
    b.fileId == id.fileId && b.commit !in m
  }

  /** How many base files of the list go in before one is refused. */
  function AdmittedCount(id: GroupId, m: Slices, bases: seq<BaseFile>): (n: nat)
    ensures n <= |bases|
    decreases |bases|
  {
    if bases == [] || !Admits(id, m, bases[0]) then 0
    else 1 + AdmittedCount(id, WithBase(id, m, bases[0]), bases[1..])
  }

  function WithBases(id: GroupId, m: Slices, bases: seq<BaseFile>): Slices
    decreases |bases|
  {
    if bases == [] then m else WithBases(id, WithBase(id, m, bases[0]), bases[1..])
  }

  /** How many logs come before the first that belongs to another group. */
  function OwnCount(id: GroupId, logs: seq<LogFile>): (n: nat)
    ensures n <= |logs|
    ensures forall i :: 0 <= i < n ==> logs[i].fileId == id.fileId
    ensures n < |logs| ==> logs[n].fileId != id.fileId
  {
    if logs == [] || logs[0].fileId != id.fileId then 0 else 1 + OwnCount(id, logs[1..])
  }

  /** Slices that disagree under one key; merging stops at the first of them. */
  function Conflicts(m: Slices, other: Slices): set<Rank> {
    set k | k in m.Keys && k in other.Keys && !m[k].Same(other[k])
  }

  function MergedSlice(m: Slices, other: Slices, k: Rank): FileSlice
    requires k in m || k in other
  {
    if k !in m then other[k]
    else if k !in other then m[k]
    else m[k].(logs := Extend(m[k].logs, other[k].logs))
  }

  /** `m` after taking in the slices of `other` under `keys`. */
  function MergedOn(m: Slices, other: Slices, keys: set<Rank>): Slices
    requires keys <= other.Keys
  {
    map k | k in m.Keys + keys :: if k in keys then MergedSlice(m, other, k) else m[k]
  }

  /** The keys a merge gets through: all, or those before the first conflict. */
  function MergedKeys(m: Slices, other: Slices): (keys: set<Rank>)
    ensures keys <= other.Keys
  {
    set k | k in other.Keys && forall c :: c in Conflicts(m, other) ==> k < c
  }

  function Merged(m: Slices, other: Slices): Slices {
    MergedOn(m, other, MergedKeys(m, other))
  }

  /** Which base files go in, and why the next one does not. */
  lemma {:induction false} AdmittedCountMeaning(id: GroupId, m: Slices, bases: seq<BaseFile>)
    ensures var n := AdmittedCount(id, m, bases);
      && (forall i :: 0 <= i < n ==> bases[i].fileId == id.fileId && bases[i].commit !in m)
      && (forall i, j :: 0 <= i < j < n ==> bases[i].commit != bases[j].commit)
      && (n < |bases| ==>
          || bases[n].fileId != id.fileId
          || bases[n].commit in m
          || exists i :: 0 <= i < n && bases[i].commit == bases[n].commit)
    decreases |bases|
  {
    var n := AdmittedCount(id, m, bases);
    if n > 0 {
      var rest := bases[1..];
      AdmittedCountMeaning(id, WithBase(id, m, bases[0]), rest);
      forall i | 0 < i < n ensures bases[i] == rest[i - 1] && bases[i].commit !in WithBase(id, m, bases[0]) {
      }
      if n < |bases| {
        assert bases[n] == rest[n - 1];
        if i :| 0 <= i < n - 1 && rest[i].commit == rest[n - 1].commit {
          assert bases[i + 1].commit == bases[n].commit;
        } else if bases[n].fileId == id.fileId && bases[n].commit !in m {
          assert bases[0].commit == bases[n].commit;
        }
      }
    }
  }

  // ---------------------------------------------------------------- what every group keeps

  ghost predicate SliceOk(id: GroupId, k: Rank, s: FileSlice) {
    && s.creation == k
    && s.fileId == id.fileId
    && s.partition == id.partition
    && (s.base.Some? ==> s.base.value.commit == k && s.base.value.fileId == id.fileId)
    && LogSetOk(s.logs)
    && (forall key :: key in s.logs ==> s.logs[key].fileId == id.fileId)
  }

  ghost predicate GroupOk(id: GroupId, m: Slices) {
    forall k :: k in m ==> SliceOk(id, k, m[k])
  }

  /** Slices stay, keep their base file or lack of one, and lose no log. */
  ghost predicate Grows(m: Slices, r: Slices) {
    && m.Keys <= r.Keys
    && forall k :: k in m ==>
        && m[k].Same(r[k]) && m[k].base == r[k].base
        && m[k].logs.Keys <= r[k].logs.Keys
        && forall key :: key in m[k].logs ==> r[k].logs[key] == m[k].logs[key]
  }

  lemma GrowsComposes(a: Slices, b: Slices, c: Slices)
    requires Grows(a, b) && Grows(b, c)
    ensures Grows(a, c)
  {
  }

  lemma PlaceKeeps(id: GroupId, m: Slices, l: LogFile)
    requires GroupOk(id, m) && l.fileId == id.fileId
    ensures GroupOk(id, Place(id, m, l)) && Grows(m, Place(id, m, l))
  {
  }

  lemma {:induction false} PlaceAllKeeps(id: GroupId, m: Slices, logs: seq<LogFile>)
    requires GroupOk(id, m) && forall l :: l in logs ==> l.fileId == id.fileId
    ensures GroupOk(id, PlaceAll(id, m, logs)) && Grows(m, PlaceAll(id, m, logs))
    decreases |logs|
  {
    if logs == [] {
    } else {
      PlaceKeeps(id, m, logs[0]);
      PlaceAllKeeps(id, Place(id, m, logs[0]), logs[1..]);
      GrowsComposes(m, Place(id, m, logs[0]), PlaceAll(id, m, logs));
    }
  }

  lemma MergedKeeps(id: GroupId, m: Slices, other: Slices)
    requires GroupOk(id, m) && GroupOk(id, other)
    ensures GroupOk(id, Merged(m, other)) && Grows(m, Merged(m, other))
  {
  }

  lemma {:induction false} WithBasesKeeps(id: GroupId, m: Slices, bases: seq<BaseFile>)
    requires GroupOk(id, m)
    requires AdmittedCount(id, m, bases) == |bases|
    ensures GroupOk(id, WithBases(id, m, bases)) && Grows(m, WithBases(id, m, bases))
    decreases |bases|
  {
    if bases == [] {
    } else {
      var m1 := WithBase(id, m, bases[0]);
      assert Grows(m, m1);
      WithBasesKeeps(id, m1, bases[1..]);
      GrowsComposes(m, m1, WithBases(id, m, bases));
    }
  }

  // ---------------------------------------------------------------- whole histories

  /** The calls a caller can make on a group. A failed call keeps what it had done before it failed. */
  datatype Call =
    | AddBases(bases: seq<BaseFile>)
    | AddLog(log: LogFile)
    | AddLogs(logs: seq<LogFile>)
    | MergeFrom(otherId: GroupId, other: Slices)

  function After(id: GroupId, m: Slices, call: Call): Slices {
    match call
    case AddBases(bases) => WithBases(id, m, bases[..AdmittedCount(id, m, bases)])
    case AddLog(l) => if l.fileId != id.fileId then m else Place(id, m, l)
    case AddLogs(logs) => PlaceAll(id, m, Sort(logs)[..OwnCount(id, Sort(logs))])
    case MergeFrom(otherId, other) => if otherId != id then m else Merged(m, other)
  }

  function AfterAll(id: GroupId, m: Slices, calls: seq<Call>): Slices
    decreases |calls|
  {
    if calls == [] then m else AfterAll(id, After(id, m, calls[0]), calls[1..])
  }

  ghost predicate CallOk(call: Call) {
    call.MergeFrom? ==> GroupOk(call.otherId, call.other)
  }

  lemma {:induction false} AdmittedPrefix(id: GroupId, m: Slices, bases: seq<BaseFile>)
    ensures var n := AdmittedCount(id, m, bases); AdmittedCount(id, m, bases[..n]) == n
    decreases |bases|
  {
    var n := AdmittedCount(id, m, bases);
    if n > 0 {
      AdmittedPrefix(id, WithBase(id, m, bases[0]), bases[1..]);
      assert bases[..n][1..] == bases[1..][..n - 1];
    }
  }

  lemma CallKeeps(id: GroupId, m: Slices, call: Call)
    requires GroupOk(id, m) && CallOk(call)
    ensures GroupOk(id, After(id, m, call)) && Grows(m, After(id, m, call))
  {
    match call
    case AddBases(bases) =>
      AdmittedPrefix(id, m, bases);
      WithBasesKeeps(id, m, bases[..AdmittedCount(id, m, bases)]);
    case AddLog(l) =>
      if l.fileId == id.fileId {
        PlaceKeeps(id, m, l);
      }
    case AddLogs(logs) =>
      PlaceAllKeeps(id, m, Sort(logs)[..OwnCount(id, Sort(logs))]);
    case MergeFrom(otherId, other) =>
      if otherId == id {
        MergedKeeps(id, m, other);
      }
  }

  /**
   * Whatever calls are made on a group, failed ones included, its slices stay well-formed: keys are
   * creation instants, files belong to the group, a base file's commit is its slice's key, no
   * log-only slice ever acquires a base file, and no log is lost.
   */
  lemma {:induction false} HistoryKeeps(id: GroupId, m: Slices, calls: seq<Call>)
    requires GroupOk(id, m) && forall c :: c in calls ==> CallOk(c)
    ensures GroupOk(id, AfterAll(id, m, calls)) && Grows(m, AfterAll(id, m, calls))
    decreases |calls|
  {
    if calls == [] {
    } else {
      CallKeeps(id, m, calls[0]);
      HistoryKeeps(id, After(id, m, calls[0]), calls[1..]);
      GrowsComposes(m, After(id, m, calls[0]), AfterAll(id, m, calls));
    }
  }

  /** The lookup as of `t` is the slice of the greatest key not after `t`, and later reads never go back. */
  lemma AsOfIsLatest(id: GroupId, m: Slices, t: Rank, u: Rank)
    requires GroupOk(id, m) && t <= u
    ensures AsOf(m, t).None? <==> forall k :: k in m ==> t < k
    ensures AsOf(m, t).Some? ==>
      var s := AsOf(m, t).value;
      && s.creation in m && m[s.creation] == s && s.creation <= t
      && (forall k :: k in m && k <= t ==> k <= s.creation)
      && AsOf(m, u).Some? && s.creation <= AsOf(m, u).value.creation
  {
  }

  // ---------------------------------------------------------------- steps of a merge

  /** Midway through a merge: keys before those left are done, and none of them was in conflict. */
  ghost predicate InProgress(m: Slices, other: Slices, done: set<Rank>, left: set<Rank>) {
    && done + left == other.Keys
    && done !! left
    && done !! Conflicts(m, other)
    && forall j, k :: j in done && k in left ==> j < k
  }

  lemma MergeStep(m: Slices, other: Slices, done: set<Rank>, left: set<Rank>, key: Rank)
    requires InProgress(m, other, done, left)
    requires key in left && forall k :: k in left ==> key <= k
    ensures var now := MergedOn(m, other, done);
      && (key in now <==> key in m)
      && (key in now ==> now[key] == m[key])
      && MergedOn(m, other, done + {key}) == now[key := MergedSlice(m, other, key)]
    ensures key in Conflicts(m, other) ==> MergedKeys(m, other) == done
    ensures key !in Conflicts(m, other) ==> InProgress(m, other, done + {key}, left - {key})
  {
  }

  lemma MergeDone(m: Slices, other: Slices, done: set<Rank>)
    requires InProgress(m, other, done, {})
    ensures Conflicts(m, other) == {} && MergedKeys(m, other) == done
  {
  }

  // ---------------------------------------------------------------- the object

  class FileGroup {
    const fileId: string
    const partition: string
    var slices: Slices

    ghost predicate Valid()
      reads this
    {
      GroupOk(Id(), slices)
    }

    function Id(): GroupId {
      GroupId(fileId, partition)
    }

    constructor (fileId: string, partition: string)
      ensures Valid() && this.fileId == fileId && this.partition == partition && slices == map[]
    {
      this.fileId := fileId;
      this.partition := partition;
      slices := map[];
    }

    method AddBaseFile(b: BaseFile) returns (ok: bool)
      requires Valid()
      modifies this
      ensures Valid() && Grows(old(slices), slices)
      ensures ok <==> b.fileId == fileId && b.commit !in old(slices)
      ensures slices == if ok then old(slices)[b.commit := FromBase(b, partition)] else old(slices)
    {
      if b.fileId != fileId {
        return false;
      }
      if b.commit in slices {
        return false;
      }
      slices := slices[b.commit := FromBase(b, partition)];
      return true;
    }

    method AddBaseFiles(bases: seq<BaseFile>) returns (ok: bool)
      requires Valid()
      modifies this
      ensures Valid() && Grows(old(slices), slices)
      ensures ok <==> AdmittedCount(Id(), old(slices), bases) == |bases|
      ensures slices == WithBases(Id(), old(slices), bases[..AdmittedCount(Id(), old(slices), bases)])
      ensures slices == After(Id(), old(slices), AddBases(bases))
    {
      ghost var was := slices;
      ghost var n := AdmittedCount(Id(), was, bases);
      assert bases[0..] == bases;
      for i := 0 to |bases|
        invariant Valid() && Grows(was, slices)
        invariant i <= n
        invariant AdmittedCount(Id(), slices, bases[i..]) == n - i
        invariant WithBases(Id(), slices, bases[i..n]) == WithBases(Id(), was, bases[..n])
      {
        assert bases[i..][1..] == bases[i + 1..];
        var added := AddBaseFile(bases[i]);
        if !added {
          assert bases[i..n] == [];
          return false;
        }
        assert bases[i..n][1..] == bases[i + 1..n];
      }
      return true;
    }

    method AddLogFile(l: LogFile) returns (ok: bool)
      requires Valid()
      modifies this
      ensures Valid() && Grows(old(slices), slices)
      ensures ok <==> l.fileId == fileId
      ensures slices == if ok then Place(Id(), old(slices), l) else old(slices)
      ensures slices == After(Id(), old(slices), AddLog(l))
    {
      if l.fileId != fileId {
        return false;
      }
      ghost var placed := Place(Id(), slices, l);
      PlaceKeeps(Id(), slices, l);
      if l.completion.Some? {
        var completed := Floor(slices.Keys, l.completion.value);
        if completed.Some? {
          slices := slices[completed.value := slices[completed.value].WithLog(l)];
          assert slices == placed;
          return true;
        }
        var key := l.timestamp;
        if key !in slices {
          slices := slices[key := LogOnly(fileId, key, partition)];
        }
        slices := slices[key := slices[key].WithLog(l)];
        assert slices == placed;
        return true;
      }
      var requested := Floor(slices.Keys, l.timestamp);
      if requested.Some? {
        slices := slices[requested.value := slices[requested.value].WithLog(l)];
        assert slices == placed;
        return true;
      }
      slices := slices[l.timestamp := LogOnly(fileId, l.timestamp, partition)];
      slices := slices[l.timestamp := slices[l.timestamp].WithLog(l)];
      assert slices == placed;
      return true;
    }

    method AddLogFiles(logs: seq<LogFile>) returns (ok: bool)
      requires Valid()
      modifies this
      ensures Valid() && Grows(old(slices), slices)
      ensures ok <==> forall l :: l in logs ==> l.fileId == fileId
      ensures slices == PlaceAll(Id(), old(slices), Sort(logs)[..OwnCount(Id(), Sort(logs))])
      ensures slices == After(Id(), old(slices), AddLogs(logs))
    {
      var sorted := Sort(logs);
      SortKeeps(logs);
      ghost var was := slices;
      ghost var n := OwnCount(Id(), sorted);
      PlaceAllKeeps(Id(), was, sorted[..n]);
      for i := 0 to |sorted|
        invariant Valid() && i <= n
        invariant PlaceAll(Id(), slices, sorted[i..n]) == PlaceAll(Id(), was, sorted[..n])
      {
        if i < n {
          DropOne(sorted, i, n);
        }
        var added := AddLogFile(sorted[i]);
        if !added {
          assert sorted[i] in logs && sorted[i..n] == [];
          return false;
        }
      }
      forall l | l in logs ensures l.fileId == fileId {
        assert l in sorted;
      }
      return true;
    }

    /** Merges one slice into its namesake, or takes it in when there is none. */
    method MergeSlice(key: Rank, s: FileSlice) returns (ok: bool)
      modifies this
      ensures ok <==> (key in old(slices) ==> old(slices)[key].Same(s))
      ensures slices ==
        if !ok then old(slices)
        else if key in old(slices) then old(slices)[key := old(slices)[key].(logs := Extend(old(slices)[key].logs, s.logs))]
        else old(slices)[key := s]
    {
      if key in slices {
        var merged := slices[key].Merge(s);
        if merged.Err? {
          return false;
        }
        slices := slices[key := merged.value];
      } else {
        slices := slices[key := s];
      }
      return true;
    }

    method Merge(other: FileGroup) returns (ok: bool)
      requires Valid() && other.Valid() && other != this
      modifies this
      ensures Valid() && Grows(old(slices), slices)
      ensures ok <==> Id() == other.Id() && Conflicts(old(slices), other.slices) == {}
      ensures slices == if Id() == other.Id() then Merged(old(slices), other.slices) else old(slices)
      ensures slices == After(Id(), old(slices), MergeFrom(other.Id(), other.slices))
    {
      if Id() != other.Id() {
        return false;
      }
      ghost var was := slices;
      ghost var whole := Merged(was, other.slices);
      MergedKeeps(Id(), was, other.slices);
      assert After(Id(), was, MergeFrom(other.Id(), other.slices)) == whole;
      ghost var done: set<Rank> := {};
      var left := other.slices.Keys;
      assert MergedOn(was, other.slices, {}) == was;
      while left != {}
        invariant InProgress(was, other.slices, done, left)
        invariant slices == MergedOn(was, other.slices, done)
        decreases |left|
      {
        var key := Min(left);
        MergeStep(was, other.slices, done, left, key);
        var merged := MergeSlice(key, other.slices[key]);
        if !merged {
          assert slices == whole;
          return false;
        }
        done := done + {key};
        left := left - {key};
      }
      MergeDone(was, other.slices, done);
      assert slices == whole;
      return true;
    }

    method GetFileSliceAsOf(t: Rank) returns (found: Option<FileSlice>)
      ensures found == AsOf(slices, t)
    {
      var k := Floor(slices.Keys, t);
      if k.None? {
        return None;
      }
      return Some(slices[k.value]);
    }
  }
}
