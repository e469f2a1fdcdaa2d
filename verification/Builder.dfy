/** File groups built from the metadata table's file listing (file_groups_from_files_partition_records in builder.rs). */
module Builder {
  import opened Wrappers
  import opened Orders
  import opened Sequences
  import opened LogFiles
  import opened FileSlices
  import opened Placement
  import opened BatchOrder
  import opened FileGroups
  import opened MergeAlgebra

  /** How names are parsed, which names are base files, and what the timeline says of an instant. */
  datatype Env = Env(
    parseLog: string -> Option<LogFile>,
    parseBase: string -> Option<BaseFile>,
    isBaseName: string -> bool,
    completionOf: Rank -> Option<Rank>,
    isCommitted: Rank -> bool)

  datatype FileInfo = FileInfo(name: string, size: nat, deleted: bool)

  /** One record of the listing, its files in the order the hash map yields them. */
  datatype Record = Record(allPartitions: bool, files: seq<FileInfo>)

  datatype Entry = LogEntry(log: LogFile) | BaseEntry(base: BaseFile) | Skipped | Unparsable

  function SizeOf(f: FileInfo, otherwise: Option<nat>): Option<nat> {
    if f.size > 0 then Some(f.size) else otherwise
  }

  /** What one listed file contributes. */
  function EntryOf(env: Env, f: FileInfo): Entry {
    if f.deleted then Skipped
    else if f.name != [] && f.name[0] == '.' then
      match env.parseLog(f.name)
      case None => Unparsable
      case Some(l) =>
        if !env.isCommitted(l.timestamp) then Skipped
        else LogEntry(l.(completion := env.completionOf(l.timestamp), size := SizeOf(f, l.size)))
    else if env.isBaseName(f.name) then
      match env.parseBase(f.name)
      case None => Unparsable
      case Some(b) =>
        if !env.isCommitted(b.commit) then Skipped
        else BaseEntry(b.(completion := env.completionOf(b.commit), size := SizeOf(f, b.size)))
    else Skipped
  }

  function BasesOf(env: Env, files: seq<FileInfo>, id: string): (bases: seq<BaseFile>)
    ensures forall b :: b in bases ==> b.fileId == id
  {
    if files == [] then []
    else
      var rest, e := BasesOf(env, files[..|files| - 1], id), EntryOf(env, files[|files| - 1]);
      if e.BaseEntry? && e.base.fileId == id then rest + [e.base] else rest
  }

  function LogsOf(env: Env, files: seq<FileInfo>, id: string): (logs: seq<LogFile>)
    ensures forall l :: l in logs ==> l.fileId == id
  {
    if files == [] then []
    else
      var rest, e := LogsOf(env, files[..|files| - 1], id), EntryOf(env, files[|files| - 1]);
      if e.LogEntry? && e.log.fileId == id then rest + [e.log] else rest
  }

  // ---------------------------------------------------------------- what a listed file stands for

  predicate StartsWithDot(name: string) {
    name != [] && name[0] == '.'
  }

  /** The file is an active, committed base file, and `b` is what its name, the timeline and the listing say of it. */
  ghost predicate ListsBase(env: Env, f: FileInfo, b: BaseFile) {
    && !f.deleted && !StartsWithDot(f.name) && env.isBaseName(f.name)
    && env.parseBase(f.name).Some?
    && var p := env.parseBase(f.name).value;
      && env.isCommitted(p.commit)
      && b.fileId == p.fileId && b.token == p.token && b.commit == p.commit && b.extension == p.extension
      && b.completion == env.completionOf(p.commit)
      && b.size == if f.size > 0 then Some(f.size) else p.size
  }

  /** The file is an active log of a committed instant, and `l` is what is known of it. */
  ghost predicate ListsLog(env: Env, f: FileInfo, l: LogFile) {
    && !f.deleted && StartsWithDot(f.name)
    && env.parseLog(f.name).Some?
    && var p := env.parseLog(f.name).value;
      && env.isCommitted(p.timestamp)
      && l.fileId == p.fileId && l.timestamp == p.timestamp && l.extension == p.extension
      && l.version == p.version && l.token == p.token
      && l.completion == env.completionOf(p.timestamp)
      && l.size == if f.size > 0 then Some(f.size) else p.size
  }

  /** An active file that claims to be a log or a base file, and whose name cannot be read. */
  predicate Unreadable(env: Env, f: FileInfo) {
    && !f.deleted
    && if StartsWithDot(f.name) then env.parseLog(f.name).None?
       else env.isBaseName(f.name) && env.parseBase(f.name).None?
  }

  lemma EntryIsTold(env: Env, f: FileInfo, b: BaseFile, l: LogFile)
    ensures EntryOf(env, f) == BaseEntry(b) <==> ListsBase(env, f, b)
    ensures EntryOf(env, f) == LogEntry(l) <==> ListsLog(env, f, l)
    ensures EntryOf(env, f).Unparsable? <==> Unreadable(env, f)
  {
  }

  ghost predicate HasBase(env: Env, files: seq<FileInfo>, b: BaseFile) {
    exists f :: f in files && ListsBase(env, f, b)
  }

  ghost predicate HasLog(env: Env, files: seq<FileInfo>, l: LogFile) {
    exists f :: f in files && ListsLog(env, f, l)
  }

  /** The base files and logs gathered for an id are exactly the committed active ones of the listing. */
  lemma {:induction false} FilesOfMeaning(env: Env, files: seq<FileInfo>, id: string, b: BaseFile, l: LogFile)
    ensures b in BasesOf(env, files, id) <==> b.fileId == id && HasBase(env, files, b)
    ensures l in LogsOf(env, files, id) <==> l.fileId == id && HasLog(env, files, l)
  {
    if files != [] {
      var front, last := files[..|files| - 1], files[|files| - 1];
      assert files == front + [last];
      FilesOfMeaning(env, front, id, b, l);
      EntryIsTold(env, last, b, l);
      assert HasBase(env, files, b) <==> HasBase(env, front, b) || ListsBase(env, last, b);
      assert HasLog(env, files, l) <==> HasLog(env, front, l) || ListsLog(env, last, l);
    }
  }

  /** One file gives one base file, one log, or nothing. */
  lemma OneFileGives(env: Env, f: FileInfo, id: string, b: BaseFile, l: LogFile)
    ensures BasesOf(env, [f], id) == [b] <==> b.fileId == id && ListsBase(env, f, b)
    ensures LogsOf(env, [f], id) == [l] <==> l.fileId == id && ListsLog(env, f, l)
    ensures |BasesOf(env, [f], id)| <= 1 && |LogsOf(env, [f], id)| <= 1
  {
    assert [f][..0] == [] && [f][0] == f;
    assert BasesOf(env, [], id) == [] && LogsOf(env, [], id) == [];
    EntryIsTold(env, f, b, l);
    var e := EntryOf(env, f);
    assert BasesOf(env, [f], id) == if e.BaseEntry? && e.base.fileId == id then [e.base] else [];
    assert LogsOf(env, [f], id) == if e.LogEntry? && e.log.fileId == id then [e.log] else [];
  }

  /** Every active file that has to be read can be. */
  predicate AllParse(env: Env, files: seq<FileInfo>) {
    forall f :: f in files ==> !Unreadable(env, f)
  }

  /** No two base files of one group share a commit. */
  predicate DistinctCommits(bases: seq<BaseFile>) {
    forall i, j :: 0 <= i < j < |bases| ==> bases[i].commit != bases[j].commit
  }

  ghost predicate Buildable(env: Env, files: seq<FileInfo>) {
    AllParse(env, files) && forall id :: DistinctCommits(BasesOf(env, files, id))
  }

  function SlicesOf(env: Env, files: seq<FileInfo>, id: GroupId): Slices {
    PlaceAll(id, WithBases(id, map[], BasesOf(env, files, id.fileId)), Sort(LogsOf(env, files, id.fileId)))
  }

  // ---------------------------------------------------------------- base files alone

  lemma DistinctCommitsOfFirst(b: BaseFile, rest: seq<BaseFile>)
    ensures DistinctCommits([b] + rest) <==> DistinctCommits(rest) && forall c :: c in rest ==> c.commit != b.commit
  {
    var bases := [b] + rest;
    if DistinctCommits(bases) {
      forall i, j | 0 <= i < j < |rest| ensures rest[i].commit != rest[j].commit {
        assert bases[i + 1] == rest[i] && bases[j + 1] == rest[j];
      }
      forall c | c in rest ensures c.commit != b.commit {
        var j :| 0 <= j < |rest| && rest[j] == c;
        assert bases[0] == b && bases[j + 1] == c;
      }
    }
  }

  lemma {:induction false} AllAdmittedIff(id: GroupId, m: Slices, bases: seq<BaseFile>)
    requires forall b :: b in bases ==> b.fileId == id.fileId
    ensures AdmittedCount(id, m, bases) == |bases| <==>
            DistinctCommits(bases) && forall b :: b in bases ==> b.commit !in m
    decreases |bases|
  {
    if bases != [] {
      var b, rest := bases[0], bases[1..];
      FirstAndRest(bases);
      DistinctCommitsOfFirst(b, rest);
      AllAdmittedIff(id, WithBase(id, m, b), rest);
    }
  }

  /** Base files of distinct commits each get their own slice, whatever their order. */
  lemma {:induction false} WithBasesMeaning(id: GroupId, m: Slices, bases: seq<BaseFile>, k: Rank)
    requires DistinctCommits(bases)
    ensures var r := WithBases(id, m, bases);
      && (k in r <==> k in m || exists b :: b in bases && b.commit == k)
      && (forall b :: b in bases && b.commit == k ==> r[k] == FromBase(b, id.partition))
      && (k in r && (forall b :: b in bases ==> b.commit != k) ==> r[k] == m[k])
    decreases |bases|
  {
    if bases != [] {
      var b, rest := bases[0], bases[1..];
      FirstAndRest(bases);
      DistinctCommitsOfFirst(b, rest);
      WithBasesMeaning(id, WithBase(id, m, b), rest, k);
    }
  }

  // ---------------------------------------------------------------- the program

  ghost predicate BasesCollected(env: Env, files: seq<FileInfo>, bases: map<string, seq<BaseFile>>) {
    forall id :: if id in bases then bases[id] == BasesOf(env, files, id) != [] else BasesOf(env, files, id) == []
  }

  ghost predicate LogsCollected(env: Env, files: seq<FileInfo>, logs: map<string, seq<LogFile>>) {
    forall id :: if id in logs then logs[id] == LogsOf(env, files, id) != [] else LogsOf(env, files, id) == []
  }

  lemma LogCollected(
    env: Env, files: seq<FileInfo>, f: FileInfo, bases: map<string, seq<BaseFile>>, logs: map<string, seq<LogFile>>,
    log: LogFile)
    requires BasesCollected(env, files, bases) && LogsCollected(env, files, logs)
    requires EntryOf(env, f) == LogEntry(log)
    ensures BasesCollected(env, files + [f], bases)
    ensures LogsCollected(
      env, files + [f], logs[log.fileId := (if log.fileId in logs then logs[log.fileId] else []) + [log]])
  {
    assert (files + [f])[..|files|] == files && (files + [f])[|files|] == f;
  }

  lemma BaseCollected(
    env: Env, files: seq<FileInfo>, f: FileInfo, bases: map<string, seq<BaseFile>>, logs: map<string, seq<LogFile>>,
    base: BaseFile)
    requires BasesCollected(env, files, bases) && LogsCollected(env, files, logs)
    requires EntryOf(env, f) == BaseEntry(base)
    ensures LogsCollected(env, files + [f], logs)
    ensures BasesCollected(
      env, files + [f], bases[base.fileId := (if base.fileId in bases then bases[base.fileId] else []) + [base]])
  {
    assert (files + [f])[..|files|] == files && (files + [f])[|files|] == f;
  }

  lemma NoneCollected(
    env: Env, files: seq<FileInfo>, f: FileInfo, bases: map<string, seq<BaseFile>>, logs: map<string, seq<LogFile>>)
    requires BasesCollected(env, files, bases) && LogsCollected(env, files, logs)
    requires EntryOf(env, f).Skipped?
    ensures BasesCollected(env, files + [f], bases) && LogsCollected(env, files + [f], logs)
  {
    assert (files + [f])[..|files|] == files && (files + [f])[|files|] == f;
  }

  method Collect(env: Env, files: seq<FileInfo>)
    returns (ok: bool, bases: map<string, seq<BaseFile>>, logs: map<string, seq<LogFile>>)
    ensures ok <==> AllParse(env, files)
    ensures ok ==> BasesCollected(env, files, bases) && LogsCollected(env, files, logs)
  {
    bases, logs := map[], map[];
    for i := 0 to |files|
      invariant AllParse(env, files[..i])
      invariant BasesCollected(env, files[..i], bases)
      invariant LogsCollected(env, files[..i], logs)
    {
      var f := files[i];
      assert files[..i + 1] == files[..i] + [f];
      if f.deleted {
        NoneCollected(env, files[..i], f, bases, logs);
        continue;
      }
      if f.name != [] && f.name[0] == '.' {
        var parsed := env.parseLog(f.name);
        if parsed.None? {
          assert f in files && Unreadable(env, f);
          return false, bases, logs;
        }
        var log := parsed.value;
        log := log.(completion := env.completionOf(log.timestamp));
        if !env.isCommitted(log.timestamp) {
          NoneCollected(env, files[..i], f, bases, logs);
          continue;
        }
        if f.size > 0 {
          log := log.(size := Some(f.size));
        }
        LogCollected(env, files[..i], f, bases, logs, log);
        logs := logs[log.fileId := (if log.fileId in logs then logs[log.fileId] else []) + [log]];
      } else if env.isBaseName(f.name) {
        var parsed := env.parseBase(f.name);
        if parsed.None? {
          assert f in files && Unreadable(env, f);
          return false, bases, logs;
        }
        var base := parsed.value;
        base := base.(completion := env.completionOf(base.commit));
        if !env.isCommitted(base.commit) {
          NoneCollected(env, files[..i], f, bases, logs);
          continue;
        }
        if f.size > 0 {
          base := base.(size := Some(f.size));
        }
        BaseCollected(env, files[..i], f, bases, logs, base);
        bases := bases[base.fileId := (if base.fileId in bases then bases[base.fileId] else []) + [base]];
      } else {
        NoneCollected(env, files[..i], f, bases, logs);
      }
    }
    assert files[..|files|] == files;
    return true, bases, logs;
  }

  /** One group for each file id with a committed base file, made of that id's files. */
  ghost predicate Built(env: Env, partition: string, files: seq<FileInfo>, groups: seq<Group>) {
    && (forall i, j :: 0 <= i < j < |groups| ==> groups[i].id != groups[j].id)
    && (forall g :: g in groups ==>
          && g.id.partition == partition
          && BasesOf(env, files, g.id.fileId) != []
          && g.slices == SlicesOf(env, files, g.id))
    && (forall id :: BasesOf(env, files, id) != [] ==> HasGroup(groups, GroupId(id, partition)))
  }

  /** One group: its base files first, then its logs. */
  method BuildGroup(id: GroupId, bases: seq<BaseFile>, logs: seq<LogFile>) returns (r: Result<Group>)
    requires forall b :: b in bases ==> b.fileId == id.fileId
    requires forall l :: l in logs ==> l.fileId == id.fileId
    ensures r.Ok? <==> DistinctCommits(bases)
    ensures r.Ok? ==> r.value == Group(id, PlaceAll(id, WithBases(id, map[], bases), Sort(logs)))
  {
    var group := new FileGroup(id.fileId, id.partition);
    AllAdmittedIff(id, map[], bases);
    var added := group.AddBaseFiles(bases);
    if !added {
      return Err;
    }
    assert bases[..|bases|] == bases;
    if logs != [] {
      var placed := group.AddLogFiles(logs);
      AllOwn(id, logs);
    }
    return Ok(Group(id, group.slices));
  }

  /** The groups made so far, and the ids they are made of. */
  ghost predicate BuiltFrom(env: Env, partition: string, files: seq<FileInfo>, ids: set<string>, groups: seq<Group>) {
    && (forall i, j :: 0 <= i < j < |groups| ==> groups[i].id != groups[j].id)
    && (forall g :: g in groups ==> IsGroupOf(env, partition, files, ids, g))
    && (forall id :: id in ids ==> DistinctCommits(BasesOf(env, files, id)) && HasGroup(groups, GroupId(id, partition)))
  }

  ghost predicate IsGroupOf(env: Env, partition: string, files: seq<FileInfo>, ids: set<string>, g: Group) {
    g.id.partition == partition && g.id.fileId in ids && g.slices == SlicesOf(env, files, g.id)
  }

  ghost predicate HasGroup(groups: seq<Group>, id: GroupId) {
    exists g :: g in groups && g.id == id
  }

  lemma BuiltStep(
    env: Env, partition: string, files: seq<FileInfo>, ids: set<string>, groups: seq<Group>, id: string, g: Group)
    requires BuiltFrom(env, partition, files, ids, groups) && id !in ids
    requires DistinctCommits(BasesOf(env, files, id))
    requires g.id == GroupId(id, partition) && g.slices == SlicesOf(env, files, g.id)
    ensures BuiltFrom(env, partition, files, ids + {id}, groups + [g])
  {
    var more := groups + [g];
    assert more[|groups|] == g;
    forall i, j | 0 <= i < j < |more| ensures more[i].id != more[j].id {
      assert more[i] in groups;
    }
    forall known | known in ids + {id} ensures HasGroup(more, GroupId(known, partition)) {
      if known != id {
        var h :| h in groups && h.id == GroupId(known, partition);
        assert h in more;
      }
    }
  }

  method BuildPartition(env: Env, partition: string, files: seq<FileInfo>) returns (r: Result<seq<Group>>)
    ensures r.Ok? <==> Buildable(env, files)
    ensures r.Ok? ==> Built(env, partition, files, r.value)
  {
    var ok, bases, logs := Collect(env, files);
    if !ok {
      return Err;
    }
    var groups: seq<Group> := [];
    var left := bases.Keys;
    ghost var done: set<string> := {};
    while left != {}
      invariant done + left == bases.Keys && done !! left
      invariant BuiltFrom(env, partition, files, done, groups)
      decreases left
    {
      var id :| id in left;
      var own := if id in logs then logs[id] else [];
      CollectedOf(env, files, bases, logs, id);
      var built := BuildGroup(GroupId(id, partition), bases[id], own);
      if built.Err? {
        return Err;
      }
      BuiltStep(env, partition, files, done, groups, id, built.value);
      groups := groups + [built.value];
      left, done := left - {id}, done + {id};
    }
    assert done == bases.Keys;
    BuiltAll(env, partition, files, bases, groups);
    return Ok(groups);
  }

  lemma CollectedOf(
    env: Env, files: seq<FileInfo>, bases: map<string, seq<BaseFile>>, logs: map<string, seq<LogFile>>, id: string)
    requires BasesCollected(env, files, bases) && LogsCollected(env, files, logs) && id in bases
    ensures bases[id] == BasesOf(env, files, id)
    ensures (if id in logs then logs[id] else []) == LogsOf(env, files, id)
    ensures Buildable(env, files) ==> DistinctCommits(bases[id])
    ensures forall b :: b in bases[id] ==> b.fileId == id
    ensures forall l :: l in LogsOf(env, files, id) ==> l.fileId == id
  {
  }

  lemma BuiltAll(
    env: Env, partition: string, files: seq<FileInfo>, bases: map<string, seq<BaseFile>>, groups: seq<Group>)
    requires AllParse(env, files) && BasesCollected(env, files, bases)
    requires BuiltFrom(env, partition, files, bases.Keys, groups)
    ensures Buildable(env, files) && Built(env, partition, files, groups)
  {
  }

  lemma AllOwn(id: GroupId, logs: seq<LogFile>)
    requires forall l :: l in logs ==> l.fileId == id.fileId
    ensures Sort(logs)[..OwnCount(id, Sort(logs))] == Sort(logs)
  {
    var s := Sort(logs);
    SortKeeps(logs);
    forall i | 0 <= i < |s| ensures s[i].fileId == id.fileId {
      assert s[i] in s;
    }
  }

  // ---------------------------------------------------------------- all partitions

  /** The groups of every ordinary partition that has any. */
  ghost predicate BuiltAllPartitions(env: Env, records: map<string, Record>, built: map<string, seq<Group>>) {
    && (forall p :: p in built ==> p in records && !records[p].allPartitions && built[p] != [])
    && (forall p :: p in records && !records[p].allPartitions ==>
          Buildable(env, records[p].files) &&
          Built(env, p, records[p].files, if p in built then built[p] else []))
  }

  method FileGroupsFromFilesPartitionRecords(env: Env, records: map<string, Record>)
    returns (r: Result<map<string, seq<Group>>>)
    ensures r.Ok? <==> forall p :: p in records && !records[p].allPartitions ==> Buildable(env, records[p].files)
    ensures r.Ok? ==> BuiltAllPartitions(env, records, r.value)
  {
    var built: map<string, seq<Group>> := map[];
    var left := records.Keys;
    ghost var done: map<string, Record> := map[];
    while left != {}
      invariant done.Keys + left == records.Keys && done.Keys !! left
      invariant forall p :: p in done ==> done[p] == records[p]
      invariant BuiltAllPartitions(env, done, built)
      decreases left
    {
      var p :| p in left;
      left := left - {p};
      done := done[p := records[p]];
      if records[p].allPartitions {
        continue;
      }
      var groups := BuildPartition(env, p, records[p].files);
      if groups.Err? {
        return Err;
      }
      if groups.value != [] {
        built := built[p := groups.value];
      }
    }
    assert done == records;
    return Ok(built);
  }

  // ---------------------------------------------------------------- nothing is lost

  lemma SlicesOfBases(env: Env, files: seq<FileInfo>, id: GroupId)
    requires DistinctCommits(BasesOf(env, files, id.fileId))
    ensures var m, bases := WithBases(id, map[], BasesOf(env, files, id.fileId)), BasesOf(env, files, id.fileId);
      && GroupOk(id, m)
      && (forall k :: k in m ==> m[k].logs == map[] && m[k].base.Some? && m[k].base.value in bases)
      && (forall b :: b in bases ==> b.commit in m && m[b.commit].base == Some(b))
      && (forall key :: !Held(m, key))
  {
    var bases := BasesOf(env, files, id.fileId);
    var m := WithBases(id, map[], bases);
    AllAdmittedIff(id, map[], bases);
    WithBasesKeeps(id, map[], bases);
    forall k | k in m ensures m[k].logs == map[] && m[k].base.Some? && m[k].base.value in bases {
      WithBasesMeaning(id, map[], bases, k);
    }
    forall b | b in bases ensures b.commit in m && m[b.commit].base == Some(b) {
      WithBasesMeaning(id, map[], bases, b.commit);
    }
  }

  /** Different logs of a group do not share a sort key. */
  ghost predicate DistinctKeys(logs: seq<LogFile>) {
    forall a, b :: a in logs && b in logs && a.Key() == b.Key() ==> a == b
  }

  /** The base files are exactly these, each in the slice of its commit. */
  ghost predicate HoldsBases(m: Slices, bases: seq<BaseFile>) {
    && (forall b :: b in bases ==> b.commit in m && m[b.commit].base == Some(b))
    && (forall k :: k in m && m[k].base.Some? ==> m[k].base.value in bases)
  }

  /** Every log is one of these, in the one slice a read as of its time finds. */
  ghost predicate HoldsOnlyLogs(m: Slices, logs: seq<LogFile>) {
    forall k, key :: LogIn(m, k, key).Some? ==> LogIn(m, k, key).value in logs && Floor(m.Keys, key.time) == Some(k)
  }

  lemma BuiltBases(env: Env, files: seq<FileInfo>, id: GroupId)
    requires DistinctCommits(BasesOf(env, files, id.fileId)) && WellTimed(LogsOf(env, files, id.fileId))
    ensures GroupOk(id, SlicesOf(env, files, id))
    ensures HoldsBases(SlicesOf(env, files, id), BasesOf(env, files, id.fileId))
  {
    var start, logs := WithBases(id, map[], BasesOf(env, files, id.fileId)), LogsOf(env, files, id.fileId);
    SlicesOfBases(env, files, id);
    SortKeeps(logs);
    PlaceAllKeeps(id, start, Sort(logs));
    PlacementSettles(id, start, Sort(logs));
  }

  lemma PlacedLogsOnly(id: GroupId, start: Slices, logs: seq<LogFile>)
    requires WellTimed(logs) && forall k :: k in start ==> start[k].logs == map[]
    ensures HoldsOnlyLogs(PlaceAll(id, start, Sort(logs)), logs)
  {
    var sorted, m := Sort(logs), PlaceAll(id, start, Sort(logs));
    SortKeeps(logs);
    WellTimedSorted(logs);
    forall k, key | LogIn(m, k, key).Some?
      ensures LogIn(m, k, key).value in logs && Floor(m.Keys, key.time) == Some(k)
    {
      StoredLogsAreAccountedFor(id, start, sorted, k, key);
      assert m[k].logs[key] == FirstWith(sorted, key);
    }
  }

  /**
   * A built group is well-formed; its base files are exactly the committed active ones of its id, each
   * in the slice of its commit; every log it holds is a committed active one of its id, in the one
   * slice a read as of the log's time finds; and it holds all of them exactly when no two different
   * logs share a sort key.
   */
  lemma BuildConservesFiles(env: Env, files: seq<FileInfo>, id: GroupId)
    requires DistinctCommits(BasesOf(env, files, id.fileId)) && WellTimed(LogsOf(env, files, id.fileId))
    ensures var m, bases, logs := SlicesOf(env, files, id), BasesOf(env, files, id.fileId), LogsOf(env, files, id.fileId);
      && GroupOk(id, m) && HoldsBases(m, bases) && HoldsOnlyLogs(m, logs)
      && ((forall l :: l in logs ==> Kept(m, l)) <==> DistinctKeys(logs))
  {
    BuiltBases(env, files, id);
    SlicesOfBases(env, files, id);
    var start, logs := WithBases(id, map[], BasesOf(env, files, id.fileId)), LogsOf(env, files, id.fileId);
    PlacedLogsOnly(id, start, logs);
    BatchIsConservedIff(id, start, logs);
  }

  // ---------------------------------------------------------------- the build, told from the listing

  /** No two listed base files of one id share a commit. */
  ghost predicate OneBasePerCommit(env: Env, files: seq<FileInfo>, id: string) {
    forall i, j, a, b ::
      0 <= i < j < |files| && ListsBase(env, files[i], a) && ListsBase(env, files[j], b) && a.fileId == b.fileId == id ==>
      a.commit != b.commit
  }

  lemma DistinctCommitsOfLast(rest: seq<BaseFile>, b: BaseFile)
    ensures DistinctCommits(rest + [b]) <==> DistinctCommits(rest) && forall a :: a in rest ==> a.commit != b.commit
  {
    var bases := rest + [b];
    if DistinctCommits(bases) {
      forall i, j | 0 <= i < j < |rest| ensures rest[i].commit != rest[j].commit {
        assert bases[i] == rest[i] && bases[j] == rest[j];
      }
      forall a | a in rest ensures a.commit != b.commit {
        var i :| 0 <= i < |rest| && rest[i] == a;
        assert bases[i] == a && bases[|rest|] == b;
      }
    }
  }

  lemma OneBasePerCommitOfLast(env: Env, front: seq<FileInfo>, f: FileInfo, id: string)
    ensures OneBasePerCommit(env, front + [f], id) <==>
      && OneBasePerCommit(env, front, id)
      && forall a, b :: HasBase(env, front, a) && ListsBase(env, f, b) && a.fileId == b.fileId == id ==> a.commit != b.commit
  {
    var files := front + [f];
    if OneBasePerCommit(env, files, id) {
      forall i, j, a, b | 0 <= i < j < |front| && ListsBase(env, front[i], a) && ListsBase(env, front[j], b)
        && a.fileId == b.fileId == id
        ensures a.commit != b.commit
      {
        assert files[i] == front[i] && files[j] == front[j];
      }
      forall a, b | HasBase(env, front, a) && ListsBase(env, f, b) && a.fileId == b.fileId == id
        ensures a.commit != b.commit
      {
        var i :| 0 <= i < |front| && ListsBase(env, front[i], a);
        assert files[i] == front[i] && files[|front|] == f;
      }
    }
  }

  lemma LastBase(env: Env, f: FileInfo, id: string)
    ensures forall b :: ListsBase(env, f, b) <==> EntryOf(env, f) == BaseEntry(b)
  {
    forall b ensures ListsBase(env, f, b) <==> EntryOf(env, f) == BaseEntry(b) {
      EntryIsTold(env, f, b, LogFile(id, 0.0, None, "", 0, 0.0, None));
    }
  }

  lemma BasesOfAre(env: Env, files: seq<FileInfo>, id: string)
    ensures forall b :: b in BasesOf(env, files, id) <==> b.fileId == id && HasBase(env, files, b)
  {
    forall b ensures b in BasesOf(env, files, id) <==> b.fileId == id && HasBase(env, files, b) {
      FilesOfMeaning(env, files, id, b, LogFile(id, 0.0, None, "", 0, 0.0, None));
    }
  }

  /** The last file adds no base file of the id, or one that has to differ from all before. */
  lemma DistinctCommitsStep(env: Env, front: seq<FileInfo>, f: FileInfo, id: string)
    ensures DistinctCommits(BasesOf(env, front + [f], id)) <==>
      && DistinctCommits(BasesOf(env, front, id))
      && forall a, b :: HasBase(env, front, a) && ListsBase(env, f, b) && a.fileId == b.fileId == id ==> a.commit != b.commit
  {
    assert (front + [f])[..|front|] == front;
    LastBase(env, f, id);
    BasesOfAre(env, front, id);
    var e := EntryOf(env, f);
    if e.BaseEntry? && e.base.fileId == id {
      DistinctCommitsOfLast(BasesOf(env, front, id), e.base);
      assert BasesOf(env, front + [f], id) == BasesOf(env, front, id) + [e.base];
    } else {
      assert BasesOf(env, front + [f], id) == BasesOf(env, front, id);
    }
  }

  lemma {:induction false} DistinctCommitsIff(env: Env, files: seq<FileInfo>, id: string)
    ensures DistinctCommits(BasesOf(env, files, id)) <==> OneBasePerCommit(env, files, id)
  {
    if files != [] {
      var front, f := files[..|files| - 1], files[|files| - 1];
      assert files == front + [f];
      DistinctCommitsIff(env, front, id);
      OneBasePerCommitOfLast(env, front, f, id);
      DistinctCommitsStep(env, front, f, id);
    }
  }

  /** A partition can be built exactly when every name can be read and no id has two base files of one commit. */
  lemma BuildableIff(env: Env, files: seq<FileInfo>)
    ensures Buildable(env, files) <==>
      (forall f :: f in files ==> !Unreadable(env, f)) && forall id :: OneBasePerCommit(env, files, id)
  {
    forall id ensures DistinctCommits(BasesOf(env, files, id)) <==> OneBasePerCommit(env, files, id) {
      DistinctCommitsIff(env, files, id);
    }
  }

  lemma GroupForEachBase(env: Env, partition: string, files: seq<FileInfo>, groups: seq<Group>, id: string)
    requires Built(env, partition, files, groups)
    ensures HasGroup(groups, GroupId(id, partition)) <==> exists b: BaseFile :: b.fileId == id && HasBase(env, files, b)
  {
    var l := LogFile(id, 0.0, None, "", 0, 0.0, None);
    var bases := BasesOf(env, files, id);
    if bases != [] {
      FilesOfMeaning(env, files, id, bases[0], l);
      assert bases[0] in bases;
    } else {
      forall b: BaseFile | b.fileId == id ensures !HasBase(env, files, b) {
        FilesOfMeaning(env, files, id, b, l);
      }
    }
  }

  /** The logs of an id in the listing were requested no later than they completed. */
  ghost predicate ListedInTime(env: Env, files: seq<FileInfo>, id: string) {
    forall l :: HasLog(env, files, l) && l.fileId == id && l.completion.Some? ==> l.timestamp <= l.completion.value
  }

  ghost predicate ListedKeysDiffer(env: Env, files: seq<FileInfo>, id: string) {
    forall a, b :: HasLog(env, files, a) && HasLog(env, files, b) && a.fileId == b.fileId == id && a.Key() == b.Key() ==>
      a == b
  }

  lemma ListedLogs(env: Env, files: seq<FileInfo>, id: string)
    ensures forall l :: l in LogsOf(env, files, id) <==> l.fileId == id && HasLog(env, files, l)
    ensures forall b :: b in BasesOf(env, files, id) <==> b.fileId == id && HasBase(env, files, b)
    ensures WellTimed(LogsOf(env, files, id)) <==> ListedInTime(env, files, id)
    ensures DistinctKeys(LogsOf(env, files, id)) <==> ListedKeysDiffer(env, files, id)
  {
    var noBase, noLog := BaseFile(id, 0.0, 0.0, None, "", None), LogFile(id, 0.0, None, "", 0, 0.0, None);
    forall l ensures l in LogsOf(env, files, id) <==> l.fileId == id && HasLog(env, files, l) {
      FilesOfMeaning(env, files, id, noBase, l);
    }
    forall b ensures b in BasesOf(env, files, id) <==> b.fileId == id && HasBase(env, files, b) {
      FilesOfMeaning(env, files, id, b, noLog);
    }
  }

  /**
   * The groups built for a partition, told from the listing alone: one for each id with a committed
   * active base file; in it exactly the base files of that id, each opening the slice of its commit; no
   * log but the listed ones of its id; and all of those exactly when no two share a sort key.
   */
  lemma BuiltGroupsConserve(env: Env, partition: string, files: seq<FileInfo>, groups: seq<Group>, id: string)
    requires Buildable(env, files) && Built(env, partition, files, groups) && ListedInTime(env, files, id)
    ensures HasGroup(groups, GroupId(id, partition)) <==> exists b: BaseFile :: b.fileId == id && HasBase(env, files, b)
    ensures forall g :: g in groups && g.id == GroupId(id, partition) ==>
      && GroupOk(g.id, g.slices)
      && (forall b: BaseFile :: b.fileId == id && HasBase(env, files, b) ==>
            b.commit in g.slices && g.slices[b.commit].base == Some(b))
      && (forall k :: k in g.slices && g.slices[k].base.Some? ==> HasBase(env, files, g.slices[k].base.value))
      && (forall k, key :: LogIn(g.slices, k, key).Some? ==> HasLog(env, files, LogIn(g.slices, k, key).value))
      && ((forall l: LogFile :: l.fileId == id && HasLog(env, files, l) ==> Kept(g.slices, l)) <==>
          ListedKeysDiffer(env, files, id))
  {
    GroupForEachBase(env, partition, files, groups, id);
    ListedLogs(env, files, id);
    BuildConservesFiles(env, files, GroupId(id, partition));
  }

  // ---------------------------------------------------------------- the order of the listing

  lemma {:induction false} FilesOfAppend(env: Env, a: seq<FileInfo>, b: seq<FileInfo>, id: string)
    ensures BasesOf(env, a + b, id) == BasesOf(env, a, id) + BasesOf(env, b, id)
    ensures LogsOf(env, a + b, id) == LogsOf(env, a, id) + LogsOf(env, b, id)
    decreases |b|
  {
    if b == [] {
      assert a + b == a;
    } else {
      assert (a + b)[..|a + b| - 1] == a + b[..|b| - 1];
      FilesOfAppend(env, a, b[..|b| - 1], id);
    }
  }

  lemma FilesOfMoved(env: Env, a: seq<FileInfo>, f: FileInfo, b: seq<FileInfo>, id: string)
    ensures multiset(BasesOf(env, a + ([f] + b), id)) ==
            multiset(BasesOf(env, [f], id)) + multiset(BasesOf(env, a + b, id))
    ensures multiset(LogsOf(env, a + ([f] + b), id)) ==
            multiset(LogsOf(env, [f], id)) + multiset(LogsOf(env, a + b, id))
  {
    FilesOfAppend(env, a, b, id);
    FilesOfAppend(env, [f], b, id);
    FilesOfAppend(env, a, [f] + b, id);
  }

  lemma {:induction false} FilesOfPermuted(env: Env, files: seq<FileInfo>, others: seq<FileInfo>, id: string)
    requires multiset(files) == multiset(others)
    ensures multiset(BasesOf(env, files, id)) == multiset(BasesOf(env, others, id))
    ensures multiset(LogsOf(env, files, id)) == multiset(LogsOf(env, others, id))
  {
    if files == [] {
      assert |multiset(others)| == 0;
    } else {
      var f, rest := files[0], files[1..];
      assert files == [f] + rest;
      SameMembers(files, others);
      var a, b := Around(others, f);
      SameRest(f, rest, a + b);
      FilesOfPermuted(env, rest, a + b, id);
      FilesOfMoved(env, a, f, b, id);
      FilesOfAppend(env, [f], rest, id);
    }
  }

  ghost predicate OncePerCommit(bases: multiset<BaseFile>) {
    && (forall b :: bases[b] <= 1)
    && (forall b, c :: b in bases && c in bases && b.commit == c.commit ==> b == c)
  }

  lemma DistinctCommitsOfMultiset(bases: seq<BaseFile>)
    ensures DistinctCommits(bases) <==> OncePerCommit(multiset(bases))
  {
    if DistinctCommits(bases) {
      OnceEach(bases);
    } else {
      var i, j :| 0 <= i < j < |bases| && bases[i].commit == bases[j].commit;
      assert bases[i] in multiset(bases) && bases[j] in multiset(bases);
      assert bases == bases[..j] + [bases[j]] + bases[j + 1..];
      assert bases[i] in bases[..j];
    }
  }

  lemma {:induction false} OnceEach(bases: seq<BaseFile>)
    requires DistinctCommits(bases)
    ensures forall b :: multiset(bases)[b] <= 1
  {
    if bases != [] {
      var front, last := bases[..|bases| - 1], bases[|bases| - 1];
      assert bases == front + [last];
      OnceEach(front);
      assert last !in front;
    }
  }

  lemma SameBases(env: Env, files: seq<FileInfo>, others: seq<FileInfo>, id: GroupId)
    requires multiset(files) == multiset(others)
    requires DistinctCommits(BasesOf(env, files, id.fileId))
    ensures DistinctCommits(BasesOf(env, others, id.fileId))
    ensures WithBases(id, map[], BasesOf(env, files, id.fileId)) == WithBases(id, map[], BasesOf(env, others, id.fileId))
  {
    var bases, bases' := BasesOf(env, files, id.fileId), BasesOf(env, others, id.fileId);
    var m, m' := WithBases(id, map[], bases), WithBases(id, map[], bases');
    FilesOfPermuted(env, files, others, id.fileId);
    DistinctCommitsOfMultiset(bases);
    DistinctCommitsOfMultiset(bases');
    SameMembers(bases, bases');
    forall k ensures (k in m <==> k in m') && (k in m ==> m[k] == m'[k]) {
      WithBasesMeaning(id, map[], bases, k);
      WithBasesMeaning(id, map[], bases', k);
    }
  }

  lemma SameSlices(env: Env, files: seq<FileInfo>, others: seq<FileInfo>, id: GroupId)
    requires multiset(files) == multiset(others)
    requires DistinctCommits(BasesOf(env, files, id.fileId))
    requires WellTimed(LogsOf(env, files, id.fileId)) && DistinctKeys(LogsOf(env, files, id.fileId))
    ensures SlicesOf(env, files, id) == SlicesOf(env, others, id)
  {
    SameBases(env, files, others, id);
    FilesOfPermuted(env, files, others, id.fileId);
    OrderDoesNotMatter(
      id, WithBases(id, map[], BasesOf(env, files, id.fileId)),
      LogsOf(env, files, id.fileId), LogsOf(env, others, id.fileId));
  }

  /** A log found under its key is the first of that key in the order of the listing. */
  lemma FirstListedIsFound(env: Env, files: seq<FileInfo>, id: GroupId, l: LogFile)
    requires DistinctCommits(BasesOf(env, files, id.fileId)) && WellTimed(LogsOf(env, files, id.fileId))
    requires l in LogsOf(env, files, id.fileId)
    ensures HasKey(LogsOf(env, files, id.fileId), l.Key())
    ensures var found := AsOf(SlicesOf(env, files, id), l.PlacementTime());
      && found.Some? && l.Key() in found.value.logs
      && found.value.logs[l.Key()] == FirstWith(LogsOf(env, files, id.fileId), l.Key())
  {
    SlicesOfBases(env, files, id);
    FirstToArriveIsKept(id, WithBases(id, map[], BasesOf(env, files, id.fileId)), LogsOf(env, files, id.fileId), l);
  }

  /** A listed log whose file is yielded first is the first of its key. */
  lemma ListedFirst(env: Env, f: FileInfo, rest: seq<FileInfo>, l: LogFile)
    requires EntryOf(env, f) == LogEntry(l)
    ensures var logs := LogsOf(env, [f] + rest, l.fileId);
      l in logs && HasKey(logs, l.Key()) && FirstWith(logs, l.Key()) == l
  {
    FilesOfAppend(env, [f], rest, l.fileId);
    assert [f][..0] == [] && LogsOf(env, [f], l.fileId) == [l];
    assert LogsOf(env, [f] + rest, l.fileId)[0] == l;
  }

  lemma ListingOrderMatters(env: Env, files: seq<FileInfo>, id: GroupId) returns (others: seq<FileInfo>)
    requires DistinctCommits(BasesOf(env, files, id.fileId)) && WellTimed(LogsOf(env, files, id.fileId))
    requires !DistinctKeys(LogsOf(env, files, id.fileId))
    ensures multiset(others) == multiset(files) && SlicesOf(env, others, id) != SlicesOf(env, files, id)
  {
    var logs := LogsOf(env, files, id.fileId);
    var a, b :| a in logs && b in logs && a.Key() == b.Key() && a != b;
    FirstListedIsFound(env, files, id, a);
    var late := if FirstWith(logs, a.Key()) == a then b else a;
    var f := FileOf(env, files, id.fileId, late);
    var before, after := Around(files, f);
    others := [f] + (before + after);
    SameBases(env, files, others, id);
    FilesOfPermuted(env, files, others, id.fileId);
    SameMembers(logs, LogsOf(env, others, id.fileId));
    ListedFirst(env, f, before + after, late);
    FirstListedIsFound(env, others, id, late);
  }

  /** The listed file a log comes from. */
  lemma FileOf(env: Env, files: seq<FileInfo>, id: string, l: LogFile) returns (f: FileInfo)
    requires l in LogsOf(env, files, id)
    ensures f in files && EntryOf(env, f) == LogEntry(l)
  {
    var b := BaseFile(id, 0.0, 0.0, None, "", None);
    FilesOfMeaning(env, files, id, b, l);
    f :| f in files && ListsLog(env, f, l);
    EntryIsTold(env, f, b, l);
  }

  /** Whether a build succeeds never depends on the order in which the hash maps yield the listed files. */
  lemma SuccessIsOrderIndependent(env: Env, files: seq<FileInfo>, others: seq<FileInfo>)
    requires multiset(files) == multiset(others)
    ensures Buildable(env, files) <==> Buildable(env, others)
  {
    SameMembers(files, others);
    forall name ensures DistinctCommits(BasesOf(env, files, name)) <==> DistinctCommits(BasesOf(env, others, name)) {
      FilesOfPermuted(env, files, others, name);
      DistinctCommitsOfMultiset(BasesOf(env, files, name));
      DistinctCommitsOfMultiset(BasesOf(env, others, name));
    }
  }

  /** The slices of a group are the same in every order of the listing if and only if no two of its logs share a sort key. */
  lemma BuildIsOrderIndependentIff(env: Env, files: seq<FileInfo>, id: GroupId)
    requires DistinctCommits(BasesOf(env, files, id.fileId)) && WellTimed(LogsOf(env, files, id.fileId))
    ensures DistinctKeys(LogsOf(env, files, id.fileId)) <==>
      forall others :: multiset(others) == multiset(files) ==> SlicesOf(env, others, id) == SlicesOf(env, files, id)
  {
    if DistinctKeys(LogsOf(env, files, id.fileId)) {
      forall others | multiset(others) == multiset(files)
        ensures SlicesOf(env, others, id) == SlicesOf(env, files, id)
      {
        SameSlices(env, files, others, id);
      }
    } else {
      var others := ListingOrderMatters(env, files, id);
      assert SlicesOf(env, others, id) != SlicesOf(env, files, id);
    }
  }
}
