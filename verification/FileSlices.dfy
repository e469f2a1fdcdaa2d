/** Base files, file slices and the map that orders them (file_slice.rs). */
module FileSlices {
  import opened Wrappers
  import opened Orders
  import opened LogFiles

  datatype BaseFile = BaseFile(
    fileId: string,
    token: Rank,
    commit: Rank,
    completion: Option<Rank>,
    extension: string,
    size: Option<nat>)
  {
    /** The parts of the file name, which is all that base file equality compares. */
    function Name(): (string, Rank, Rank, string) {
      (fileId, token, commit, extension)
    }
  }

  /** A set of logs ordered by `Compare`: one log for each sort key. */
  type LogSet = map<SortKey, LogFile>

  /** An ordered set keeps the element it has when an equal one arrives. */
  function Insert(s: LogSet, l: LogFile): LogSet {
    if l.Key() in s then s else s[l.Key() := l]
  }

  function Extend(s: LogSet, more: LogSet): LogSet {
    more + s
  }

  ghost predicate LogSetOk(s: LogSet) {
    forall key :: key in s ==> s[key].Key() == key
  }

  datatype FileSlice = FileSlice(
    base: Option<BaseFile>,
    fileId: string,
    creation: Rank,
    logs: LogSet,
    partition: string)
  {
    function BaseName(): Option<(string, Rank, Rank, string)> {
      match base
      case Some(b) => Some(b.Name())
      case None => None
    }

    /** Slice equality: everything but the logs. */
    predicate Same(other: FileSlice) {
      && BaseName() == other.BaseName()
      && partition == other.partition
      && fileId == other.fileId
      && creation == other.creation
    }

    function WithLog(l: LogFile): FileSlice {
      this.(logs := Insert(logs, l))
    }

    function Merge(other: FileSlice): Result<FileSlice> {
      if !Same(other) then Err else Ok(this.(logs := Extend(logs, other.logs)))
    }
  }

  function FromBase(b: BaseFile, partition: string): FileSlice {
    FileSlice(Some(b), b.fileId, b.commit, map[], partition)
  }

  function LogOnly(fileId: string, creation: Rank, partition: string): FileSlice {
    FileSlice(None, fileId, creation, map[], partition)
  }

  type Slices = map<Rank, FileSlice>

  // ---------------------------------------------------------------- ordered lookup

  lemma NonEmpty(keys: set<Rank>)
    ensures keys == {} || exists x :: x in keys
  {
    if forall x :: x !in keys {
      assert keys == {};
    }
  }

  lemma {:induction false} MaxExists(keys: set<Rank>)
    requires keys != {}
    ensures exists m :: m in keys && forall k :: k in keys ==> k <= m
  {
    NonEmpty(keys);
    var x :| x in keys;
    if keys != {x} {
      assert keys - {x} != {};
      MaxExists(keys - {x});
      var m :| m in keys - {x} && forall k :: k in keys - {x} ==> k <= m;
      var best := if x <= m then m else x;
      assert best in keys;
      forall k | k in keys ensures k <= best {
        assert k == x || k in keys - {x};
      }
    }
  }

  function Max(keys: set<Rank>): (m: Rank)
    requires keys != {}
    ensures m in keys && forall k :: k in keys ==> k <= m
  {
    MaxExists(keys);
    var m :| m in keys && forall k :: k in keys ==> k <= m;
    m
  }

  lemma {:induction false} MinExists(keys: set<Rank>)
    requires keys != {}
    ensures exists m :: m in keys && forall k :: k in keys ==> m <= k
  {
    NonEmpty(keys);
    var x :| x in keys;
    if keys != {x} {
      assert keys - {x} != {};
      MinExists(keys - {x});
      var m :| m in keys - {x} && forall k :: k in keys - {x} ==> m <= k;
      var best := if m <= x then m else x;
      assert best in keys;
      forall k | k in keys ensures best <= k {
        assert k == x || k in keys - {x};
      }
    }
  }

  function Min(keys: set<Rank>): (m: Rank)
    requires keys != {}
    ensures m in keys && forall k :: k in keys ==> m <= k
  {
    MinExists(keys);
    var m :| m in keys && forall k :: k in keys ==> m <= k;
    m
  }

  /** The last key of the range up to and including `t`. */
  function Floor(keys: set<Rank>, t: Rank): (r: Option<Rank>)
    ensures r.Some? ==> r.value in keys && r.value <= t && forall k :: k in keys && k <= t ==> k <= r.value
    ensures r.None? ==> forall k :: k in keys ==> t < k
  {
    var low := set k | k in keys && k <= t;
    assert forall k :: k in keys && k <= t ==> k in low;
    if low == {} then None else Some(Max(low))
  }

  predicate Covered(keys: set<Rank>, t: Rank) {
    exists k :: k in keys && k <= t
  }

  /** Keys added below all others move no lookup that already succeeded. */
  lemma FloorStable(keys: set<Rank>, more: set<Rank>, t: Rank)
    requires keys <= more
    requires forall j, k :: j in more - keys && k in keys ==> j < k
    requires Floor(keys, t).Some?
    ensures Floor(more, t) == Floor(keys, t)
  {
    var k := Floor(keys, t).value;
    assert k in more;
    var j := Floor(more, t).value;
    assert j in more && k <= j;
    assert j in keys || j in more - keys;
  }
}
