/** Merging file groups, and folding many groups into a set of them (file_group/mod.rs, builder.rs). */
module MergeAlgebra {
  import opened Wrappers
  import opened Orders
  import opened Sequences
  import opened LogFiles
  import opened FileSlices
  import opened Placement
  import opened FileGroups

  /** Groups merge when slices under one key are equal as slices. */
  predicate Agree(a: Slices, b: Slices) {
    Conflicts(a, b) == {}
  }

  lemma AgreeMeaning(a: Slices, b: Slices)
    ensures Agree(a, b) <==> forall k :: k in a && k in b ==> a[k].Same(b[k])
  {
    if forall k :: k in a && k in b ==> a[k].Same(b[k]) {
      assert Conflicts(a, b) == {};
    } else {
      var k :| k in a && k in b && !a[k].Same(b[k]);
      assert k in Conflicts(a, b);
    }
  }

  lemma AgreeSymmetric(a: Slices, b: Slices)
    ensures Agree(a, b) <==> Agree(b, a)
  {
    AgreeMeaning(a, b);
    AgreeMeaning(b, a);
  }

  /** Logs of one sort key in one slice are one log on both sides. */
  ghost predicate SharedLogsAgree(a: Slices, b: Slices) {
    forall k, key :: k in a && k in b && key in a[k].logs && key in b[k].logs ==> a[k].logs[key] == b[k].logs[key]
  }

  /** Slices equal as slices and holding the same logs. */
  ghost predicate Equivalent(a: Slices, b: Slices) {
    && a.Keys == b.Keys
    && forall k :: k in a ==> a[k].Same(b[k]) && a[k].logs == b[k].logs
  }

  lemma MergedWhole(a: Slices, b: Slices)
    requires Agree(a, b)
    ensures Merged(a, b).Keys == a.Keys + b.Keys
    ensures forall k :: k in a.Keys + b.Keys ==> Merged(a, b)[k] == MergedSlice(a, b, k)
  {
  }

  /** A merge that succeeds is the union: of keys, and under each key of logs. */
  lemma MergedIsUnion(a: Slices, b: Slices, k: Rank)
    requires Agree(a, b)
    ensures var r := Merged(a, b);
      && (k in r <==> k in a || k in b)
      && (k in r ==>
          && (k in a ==> r[k].Same(a[k]) && r[k].base == a[k].base)
          && (k in b ==> r[k].Same(b[k]))
          && (forall key :: key in r[k].logs <==> (k in a && key in a[k].logs) || (k in b && key in b[k].logs))
          && (forall key :: key in r[k].logs ==>
              r[k].logs[key] == if k in a && key in a[k].logs then a[k].logs[key] else b[k].logs[key]))
  {
    MergedWhole(a, b);
    AgreeMeaning(a, b);
  }

  /** Two groups of one id agree exactly when under no key one has a base file the other lacks or another base file. */
  lemma AgreeIff(id: GroupId, a: Slices, b: Slices)
    requires GroupOk(id, a) && GroupOk(id, b)
    ensures Agree(a, b) <==> forall k :: k in a && k in b ==>
      match (a[k].base, b[k].base)
      case (Some(x), Some(y)) => x.token == y.token && x.extension == y.extension
      case (None, None) => true
      case _ => false
  {
    AgreeMeaning(a, b);
    forall k | k in a && k in b
      ensures a[k].Same(b[k]) <==>
        match (a[k].base, b[k].base)
        case (Some(x), Some(y)) => x.token == y.token && x.extension == y.extension
        case (None, None) => true
        case _ => false
    {
      assert SliceOk(id, k, a[k]) && SliceOk(id, k, b[k]);
    }
  }

  /** A merge that fails has taken in exactly the slices before the first that disagrees. */
  lemma MergeStopsAtFirstConflict(a: Slices, b: Slices, c: Rank)
    requires c in a && c in b && !a[c].Same(b[c])
    requires forall k :: k in a && k in b && k < c ==> a[k].Same(b[k])
    ensures var r := Merged(a, b);
      && (forall k :: k in r <==> k in a || (k in b && k < c))
      && (forall k :: k in a && (k !in b || c <= k) ==> r[k] == a[k])
      && (forall k :: k in b && k !in a && k < c ==> r[k] == b[k])
      && (forall k :: k in a && k in b && k < c ==>
          r[k].Same(a[k]) && r[k].base == a[k].base && r[k].logs == Extend(a[k].logs, b[k].logs))
  {
    assert c in Conflicts(a, b);
    forall k | k in b ensures k in MergedKeys(a, b) <==> k < c {
    }
  }

  lemma MergeIsIdempotent(a: Slices)
    ensures Agree(a, a) && Merged(a, a) == a
  {
    AgreeMeaning(a, a);
    MergedWhole(a, a);
    forall k | k in a ensures Merged(a, a)[k] == a[k] {
      assert a[k].logs + a[k].logs == a[k].logs;
    }
  }

  /** Merging commutes, up to what slice equality and logs see, exactly when shared logs agree. */
  lemma MergeCommutesIff(a: Slices, b: Slices)
    requires Agree(a, b)
    ensures Agree(b, a)
    ensures Equivalent(Merged(a, b), Merged(b, a)) <==> SharedLogsAgree(a, b)
  {
    AgreeSymmetric(a, b);
    var ab, ba := Merged(a, b), Merged(b, a);
    forall k ensures k in ab <==> k in ba {
      MergedIsUnion(a, b, k);
      MergedIsUnion(b, a, k);
    }
    if SharedLogsAgree(a, b) {
      forall k | k in ab ensures ab[k].Same(ba[k]) && ab[k].logs == ba[k].logs {
        MergedIsUnion(a, b, k);
        MergedIsUnion(b, a, k);
      }
    } else {
      var k, key :| k in a && k in b && key in a[k].logs && key in b[k].logs && a[k].logs[key] != b[k].logs[key];
      MergedIsUnion(a, b, k);
      MergedIsUnion(b, a, k);
      assert ab[k].logs[key] != ba[k].logs[key];
    }
  }

  /** A merged group agrees with a third when both its parts do. */
  lemma AgreeWithMerged(a: Slices, b: Slices, c: Slices)
    requires Agree(a, b)
    ensures Agree(Merged(a, b), c) <==> Agree(a, c) && Agree(b, c)
  {
  }

  /** Merging associates: both ways succeed together, and with the very same slices. */
  lemma MergeAssociates(a: Slices, b: Slices, c: Slices)
    ensures Agree(a, b) && Agree(Merged(a, b), c) <==> Agree(b, c) && Agree(a, Merged(b, c))
    ensures Agree(a, b) && Agree(Merged(a, b), c) ==> Merged(Merged(a, b), c) == Merged(a, Merged(b, c))
  {
    AgreeSymmetric(a, b);
    AgreeSymmetric(a, c);
    if Agree(a, b) {
      AgreeWithMerged(a, b, c);
    }
    if Agree(b, c) {
      AgreeWithMerged(b, c, a);
      AgreeSymmetric(a, Merged(b, c));
    }
    if Agree(a, b) && Agree(Merged(a, b), c) {
      MergedTwiceAssociates(a, b, c, Merged(a, b), Merged(b, c));
    }
  }

  ghost predicate IsMerged(a: Slices, b: Slices, r: Slices) {
    && r.Keys == a.Keys + b.Keys
    && forall k :: k in r ==> r[k] == MergedSlice(a, b, k)
  }

  lemma MergedTwiceAssociates(a: Slices, b: Slices, c: Slices, ab: Slices, bc: Slices)
    requires Agree(a, b) && Agree(b, c) && ab == Merged(a, b) && bc == Merged(b, c)
    requires Agree(ab, c) && Agree(a, bc)
    ensures Merged(ab, c) == Merged(a, bc)
  {
    MergedWhole(a, b);
    MergedWhole(b, c);
    MergedWhole(ab, c);
    MergedWhole(a, bc);
    MergedSlicesAssociate(a, b, c, ab, bc, Merged(ab, c), Merged(a, bc));
  }

  lemma MergedSlicesAssociate(a: Slices, b: Slices, c: Slices, ab: Slices, bc: Slices, l: Slices, r: Slices)
    requires IsMerged(a, b, ab) && IsMerged(b, c, bc) && IsMerged(ab, c, l) && IsMerged(a, bc, r)
    ensures l == r
  {
    forall k | k in l ensures l[k] == r[k] {
      if k in a && k in b && k in c {
        ExtendAssociates(a[k].logs, b[k].logs, c[k].logs);
      }
    }
  }

  lemma ExtendAssociates(x: LogSet, y: LogSet, z: LogSet)
    ensures Extend(Extend(x, y), z) == Extend(x, Extend(y, z))
  {
  }

  // ---------------------------------------------------------------- a set of groups

  datatype Group = Group(id: GroupId, slices: Slices)

  /** A hash set of groups: at most one per id, since group equality is id equality. */
  type Groups = map<GroupId, Slices>

  function MergeOne(s: Groups, g: Group): Result<Groups> {
    if g.id !in s then Ok(s[g.id := g.slices])
    else if Agree(s[g.id], g.slices) then Ok(s[g.id := Merged(s[g.id], g.slices)])
    else Err
  }

  function MergeAll(s: Groups, gs: seq<Group>): Result<Groups>
    decreases |gs|
  {
    if gs == [] then Ok(s)
    else match MergeOne(s, gs[0])
      case Ok(t) => MergeAll(t, gs[1..])
      case Err => Err
  }

  /** What the set holds under an id before the merging. */
  function HeldOf(s: Groups, id: GroupId): seq<Slices> {
    if id in s then [s[id]] else []
  }

  /** The slice maps that meet under one id, in the order they come. */
  function PartsOf(s: Groups, gs: seq<Group>, id: GroupId): seq<Slices> {
    HeldOf(s, id) + Matching(gs, id)
  }

  function Matching(gs: seq<Group>, id: GroupId): seq<Slices> {
    if gs == [] then []
    else (if gs[0].id == id then [gs[0].slices] else []) + Matching(gs[1..], id)
  }

  ghost predicate AllAgree(parts: seq<Slices>) {
    forall x, y :: x in parts && y in parts ==> Agree(x, y)
  }

  function FoldParts(parts: seq<Slices>): Slices
    requires parts != []
    decreases |parts|
  {
    if |parts| == 1 then parts[0] else FoldParts([Merged(parts[0], parts[1])] + parts[2..])
  }

  lemma AllAgreeStep(a: Slices, b: Slices, rest: seq<Slices>)
    ensures AllAgree([a, b] + rest) <==> Agree(a, b) && AllAgree([Merged(a, b)] + rest)
  {
    MergeIsIdempotent(a);
    MergeIsIdempotent(b);
    AgreeSymmetric(a, b);
    var two, one := [a, b] + rest, [Merged(a, b)] + rest;
    assert a in two && b in two;
    if Agree(a, b) {
      var ab := Merged(a, b);
      assert ab in one;
      MergeIsIdempotent(ab);
      forall x | x in rest
        ensures Agree(ab, x) <==> Agree(a, x) && Agree(b, x)
        ensures Agree(x, ab) <==> Agree(x, a) && Agree(x, b)
        ensures x in two && x in one
      {
        AgreeWithMerged(a, b, x);
        AgreeSymmetric(ab, x);
        AgreeSymmetric(a, x);
        AgreeSymmetric(b, x);
      }
      forall x | x in two ensures x == a || x == b || x in rest {
      }
      forall x | x in one ensures x == ab || x in rest {
      }
    }
  }

  lemma PartsStep(s: Groups, gs: seq<Group>, id: GroupId)
    requires gs != []
    ensures var g := gs[0];
      && (id != g.id || id !in s ==> PartsOf(s[g.id := g.slices], gs[1..], id) == PartsOf(s, gs, id))
      && (id == g.id && id in s ==>
          && PartsOf(s, gs, id) == [s[id], g.slices] + Matching(gs[1..], id)
          && PartsOf(s[id := Merged(s[id], g.slices)], gs[1..], id) ==
               [Merged(s[id], g.slices)] + Matching(gs[1..], id))
      && (id != g.id && g.id in s ==>
          PartsOf(s[g.id := Merged(s[g.id], g.slices)], gs[1..], id) == PartsOf(s, gs, id))
  {
    var g, rest := gs[0], Matching(gs[1..], id);
    if id == g.id {
      assert Matching(gs, id) == [g.slices] + rest;
      if id in s {
        Regroup([s[id]], [g.slices], rest);
        assert [s[id]] + [g.slices] == [s[id], g.slices];
      } else {
        assert [] + ([g.slices] + rest) == [g.slices] + rest;
      }
    } else {
      assert Matching(gs, id) == rest;
    }
  }

  lemma MergeOneKeepsParts(s: Groups, gs: seq<Group>, id: GroupId)
    requires gs != [] && MergeOne(s, gs[0]).Ok?
    ensures var before, after := PartsOf(s, gs, id), PartsOf(MergeOne(s, gs[0]).value, gs[1..], id);
      && (AllAgree(before) <==> AllAgree(after))
      && (before == [] <==> after == [])
      && (before != [] ==> FoldParts(before) == FoldParts(after))
  {
    var g, rest := gs[0], Matching(gs[1..], id);
    PartsStep(s, gs, id);
    if id == g.id && id in s {
      AllAgreeStep(s[id], g.slices, rest);
      assert ([s[id], g.slices] + rest)[2..] == rest;
    }
  }

  lemma MergeOneFails(s: Groups, gs: seq<Group>)
    requires gs != [] && MergeOne(s, gs[0]).Err?
    ensures !AllAgree(PartsOf(s, gs, gs[0].id))
  {
  }

  ghost predicate AllPartsAgree(s: Groups, gs: seq<Group>) {
    forall id :: AllAgree(PartsOf(s, gs, id))
  }

  ghost predicate IsFoldOf(r: Groups, s: Groups, gs: seq<Group>) {
    forall id ::
      && (id in r <==> PartsOf(s, gs, id) != [])
      && (id in r ==> r[id] == FoldParts(PartsOf(s, gs, id)))
  }

  /**
   * Folding groups into a set succeeds exactly when all the groups that share an id agree, and then
   * gives one group per id: the merge of everything under that id.
   */
  lemma {:induction false} MergeAllSucceedsIff(s: Groups, gs: seq<Group>)
    ensures MergeAll(s, gs).Ok? <==> AllPartsAgree(s, gs)
    ensures MergeAll(s, gs).Ok? ==> IsFoldOf(MergeAll(s, gs).value, s, gs)
    decreases |gs|
  {
    if gs == [] {
      forall id ensures AllAgree(PartsOf(s, gs, id)) {
        if id in s {
          MergeIsIdempotent(s[id]);
        }
      }
    } else if MergeOne(s, gs[0]).Err? {
      MergeOneFails(s, gs);
    } else {
      MergeAllSucceedsIff(MergeOne(s, gs[0]).value, gs[1..]);
      forall id ensures var before, after := PartsOf(s, gs, id), PartsOf(MergeOne(s, gs[0]).value, gs[1..], id);
        && (AllAgree(before) <==> AllAgree(after))
        && (before == [] <==> after == [])
        && (before != [] ==> FoldParts(before) == FoldParts(after))
      {
        MergeOneKeepsParts(s, gs, id);
      }
    }
  }

  // ---------------------------------------------------------------- independence of the order

  ghost predicate InSlices(parts: seq<Slices>, k: Rank) {
    exists x: Slices :: x in parts && k in x
  }

  /** The log some slices hold under a slice key and a sort key. */
  function LogIn(x: Slices, k: Rank, key: SortKey): Option<LogFile> {
    if k in x && key in x[k].logs then Some(x[k].logs[key]) else None
  }

  /** The log of the first part that holds one. */
  function FirstLog(parts: seq<Slices>, k: Rank, key: SortKey): Option<LogFile> {
    if parts == [] then None
    else if LogIn(parts[0], k, key).Some? then LogIn(parts[0], k, key)
    else FirstLog(parts[1..], k, key)
  }

  /** `r` has the slices of the parts, and of each log the one that came first. */
  ghost predicate Unites(r: Slices, parts: seq<Slices>) {
    && (forall k :: k in r <==> InSlices(parts, k))
    && (forall k, key :: LogIn(r, k, key) == FirstLog(parts, k, key))
    && (forall x, k :: x in parts && k in x && k in r ==> r[k].Same(x[k]))
  }

  lemma {:induction false} FirstLogMeaning(parts: seq<Slices>, k: Rank, key: SortKey)
    ensures FirstLog(parts, k, key).Some? ==>
      exists x: Slices :: x in parts && LogIn(x, k, key) == FirstLog(parts, k, key)
    ensures FirstLog(parts, k, key).None? ==> forall x: Slices :: x in parts ==> LogIn(x, k, key).None?
  {
    if parts != [] {
      FirstLogMeaning(parts[1..], k, key);
      assert parts == [parts[0]] + parts[1..];
      assert parts[0] in parts;
    }
  }

  /** Where a slice lies among two parts is where it lies in their merge, and so for the first log. */
  lemma MergeKeepsFirst(a: Slices, b: Slices, rest: seq<Slices>, k: Rank)
    requires Agree(a, b)
    ensures InSlices([Merged(a, b)] + rest, k) <==> InSlices([a, b] + rest, k)
    ensures forall key :: FirstLog([Merged(a, b)] + rest, k, key) == FirstLog([a, b] + rest, k, key)
  {
    var one, two := [Merged(a, b)] + rest, [a, b] + rest;
    assert one[0] in one && two[0] in two && two[1] in two;
    MergedIsUnion(a, b, k);
    assert one[1..] == rest && two[1..] == [b] + rest && ([b] + rest)[1..] == rest;
  }

  lemma SameStep(r: Slices, a: Slices, b: Slices, k: Rank)
    requires Agree(a, b) && k in r && (k in a || k in b)
    requires k in Merged(a, b) ==> r[k].Same(Merged(a, b)[k])
    ensures k in a ==> r[k].Same(a[k])
    ensures k in b ==> r[k].Same(b[k])
  {
    MergedIsUnion(a, b, k);
  }

  lemma UnitesStep(r: Slices, a: Slices, b: Slices, rest: seq<Slices>)
    requires Agree(a, b) && Unites(r, [Merged(a, b)] + rest)
    ensures Unites(r, [a, b] + rest)
  {
    var one, two := [Merged(a, b)] + rest, [a, b] + rest;
    assert one[0] in one;
    forall k ensures
      && (k in r <==> InSlices(two, k))
      && (forall key :: LogIn(r, k, key) == FirstLog(two, k, key))
    {
      MergeKeepsFirst(a, b, rest, k);
    }
    forall x, k | x in two && k in x && k in r ensures r[k].Same(x[k]) {
      if x == a || x == b {
        SameStep(r, a, b, k);
      } else {
        assert x in one;
      }
    }
  }

  lemma UnitesAlone(a: Slices)
    ensures Unites(a, [a])
  {
  }

  /** The merge of everything under one id: the slices of all, and of logs that share a key the first. */
  lemma {:induction false} FoldUnites(parts: seq<Slices>)
    requires parts != [] && AllAgree(parts)
    ensures Unites(FoldParts(parts), parts)
    decreases |parts|
  {
    if |parts| == 1 {
      UnitesAlone(parts[0]);
      assert parts == [parts[0]];
    } else {
      var a, b, rest := parts[0], parts[1], parts[2..];
      var one := [Merged(a, b)] + rest;
      assert parts == [a, b] + rest;
      AllAgreeStep(a, b, rest);
      FoldUnites(one);
      UnitesStep(FoldParts(one), a, b, rest);
      assert FoldParts(parts) == FoldParts(one);
    }
  }

  ghost predicate SameFirstLogs(p: seq<Slices>, q: seq<Slices>) {
    forall k, key :: FirstLog(p, k, key) == FirstLog(q, k, key)
  }

  /** Merges of the same parts in two orders differ in nothing but which log came first. */
  lemma FoldsAreEquivalentIff(a: Slices, b: Slices, p: seq<Slices>, q: seq<Slices>)
    requires Unites(a, p) && Unites(b, q) && forall x :: x in p <==> x in q
    ensures a.Keys == b.Keys
    ensures Equivalent(a, b) <==> SameFirstLogs(p, q)
  {
    forall k ensures k in a <==> k in b {
      assert InSlices(p, k) <==> InSlices(q, k);
    }
    if SameFirstLogs(p, q) {
      forall k | k in a ensures a[k].Same(b[k]) && a[k].logs == b[k].logs {
        assert InSlices(p, k);
        var x: Slices :| x in p && k in x;
        assert a[k].Same(x[k]) && b[k].Same(x[k]);
        forall key ensures (key in a[k].logs <==> key in b[k].logs)
          && (key in a[k].logs ==> a[k].logs[key] == b[k].logs[key])
        {
          assert LogIn(a, k, key) == LogIn(b, k, key);
        }
      }
    } else {
      var k, key :| FirstLog(p, k, key) != FirstLog(q, k, key);
      assert LogIn(a, k, key) != LogIn(b, k, key);
    }
  }

  lemma {:induction false} MatchingMembers(gs: seq<Group>, id: GroupId, x: Slices)
    ensures x in Matching(gs, id) <==> Group(id, x) in gs
  {
    if gs == [] {
    } else {
      MatchingMembers(gs[1..], id, x);
      assert gs == [gs[0]] + gs[1..];
    }
  }

  lemma PartsMembers(s: Groups, gs: seq<Group>, hs: seq<Group>, id: GroupId)
    requires forall g :: g in gs <==> g in hs
    ensures forall x :: x in Matching(gs, id) <==> x in Matching(hs, id)
    ensures forall x :: x in PartsOf(s, gs, id) <==> x in PartsOf(s, hs, id)
    ensures PartsOf(s, gs, id) == [] <==> PartsOf(s, hs, id) == []
  {
    forall x ensures x in Matching(gs, id) <==> x in Matching(hs, id) {
      MatchingMembers(gs, id, x);
      MatchingMembers(hs, id, x);
    }
    var p, q := PartsOf(s, gs, id), PartsOf(s, hs, id);
    assert p != [] ==> p[0] in q;
    assert q != [] ==> q[0] in p;
  }

  ghost predicate EquivalentGroups(a: Groups, b: Groups) {
    a.Keys == b.Keys && forall id :: id in a ==> Equivalent(a[id], b[id])
  }

  /**
   * Whatever the logs, merging the same groups in another order succeeds alike, under the same ids, with
   * slices of the same keys; and the groups are equivalent exactly when the same logs come first.
   */
  lemma MergeOrderChangesOnlyFirstLogs(s: Groups, gs: seq<Group>, hs: seq<Group>)
    requires forall g :: g in gs <==> g in hs
    ensures MergeAll(s, gs).Ok? <==> MergeAll(s, hs).Ok?
    ensures MergeAll(s, gs).Ok? ==>
      var a, b := MergeAll(s, gs).value, MergeAll(s, hs).value;
      && a.Keys == b.Keys
      && (forall id :: id in a ==> a[id].Keys == b[id].Keys)
      && (EquivalentGroups(a, b) <==> forall id :: SameFirstLogs(PartsOf(s, gs, id), PartsOf(s, hs, id)))
  {
    forall id ensures AllAgree(PartsOf(s, gs, id)) <==> AllAgree(PartsOf(s, hs, id)) {
      PartsMembers(s, gs, hs, id);
    }
    MergeAllSucceedsIff(s, gs);
    MergeAllSucceedsIff(s, hs);
    assert AllPartsAgree(s, gs) <==> AllPartsAgree(s, hs);
    if MergeAll(s, gs).Ok? {
      var a, b := MergeAll(s, gs).value, MergeAll(s, hs).value;
      forall id ensures
        && (id in a <==> id in b)
        && (id in a ==> a[id].Keys == b[id].Keys)
        && (id in a ==> (Equivalent(a[id], b[id]) <==> SameFirstLogs(PartsOf(s, gs, id), PartsOf(s, hs, id))))
        && (id !in a ==> SameFirstLogs(PartsOf(s, gs, id), PartsOf(s, hs, id)))
      {
        var p, q := PartsOf(s, gs, id), PartsOf(s, hs, id);
        PartsMembers(s, gs, hs, id);
        if p != [] {
          FoldUnites(p);
          FoldUnites(q);
          FoldsAreEquivalentIff(a[id], b[id], p, q);
        }
      }
    }
  }

  /** No two parts compete: logs sharing a slice and sort key agree, unless an earlier one holds the key already. */
  ghost predicate Settled(before: seq<Slices>, parts: seq<Slices>) {
    forall x, y, k, key :: x in parts && y in parts && Competing(x, y, k, key) ==> FirstLog(before, k, key).Some?
  }

  predicate Competing(x: Slices, y: Slices, k: Rank, key: SortKey) {
    LogIn(x, k, key).Some? && LogIn(y, k, key).Some? && LogIn(x, k, key) != LogIn(y, k, key)
  }

  lemma FirstLogAppend(a: seq<Slices>, b: seq<Slices>, k: Rank, key: SortKey)
    requires |a| <= 1
    ensures FirstLog(a + b, k, key) == if FirstLog(a, k, key).Some? then FirstLog(a, k, key) else FirstLog(b, k, key)
  {
    if a == [] {
      assert a + b == b;
    } else {
      assert (a + b)[0] == a[0] && (a + b)[1..] == b && a[1..] == [];
    }
  }

  lemma SettledKeepsFirst(before: seq<Slices>, p: seq<Slices>, q: seq<Slices>)
    requires |before| <= 1 && Settled(before, p) && forall x :: x in p <==> x in q
    ensures SameFirstLogs(before + p, before + q)
  {
    forall k, key ensures FirstLog(before + p, k, key) == FirstLog(before + q, k, key) {
      FirstLogAppend(before, p, k, key);
      FirstLogAppend(before, q, k, key);
      FirstLogMeaning(p, k, key);
      FirstLogMeaning(q, k, key);
      if FirstLog(p, k, key).Some? && FirstLog(q, k, key).Some? {
        var x: Slices :| x in p && LogIn(x, k, key) == FirstLog(p, k, key);
        var y: Slices :| y in q && LogIn(y, k, key) == FirstLog(q, k, key);
        assert Competing(x, y, k, key) ==> FirstLog(before, k, key).Some?;
      }
    }
  }

  lemma FrontComesFirst(s: Groups, hs: seq<Group>, k: Rank, key: SortKey)
    requires hs != [] && LogIn(hs[0].slices, k, key).Some? && FirstLog(HeldOf(s, hs[0].id), k, key).None?
    ensures FirstLog(PartsOf(s, hs, hs[0].id), k, key) == LogIn(hs[0].slices, k, key)
  {
    var id := hs[0].id;
    FirstLogAppend(HeldOf(s, id), Matching(hs, id), k, key);
    assert Matching(hs, id)[0] == hs[0].slices;
  }

  /** An order of the list in which a given group comes first. */
  lemma OrderWithFirst(s: Groups, gs: seq<Group>, id: GroupId, x: Slices, k: Rank, key: SortKey)
    returns (hs: seq<Group>)
    requires x in Matching(gs, id) && LogIn(x, k, key).Some? && FirstLog(HeldOf(s, id), k, key).None?
    ensures multiset(hs) == multiset(gs) && FirstLog(PartsOf(s, hs, id), k, key) == LogIn(x, k, key)
  {
    MatchingMembers(gs, id, x);
    var a, b := Around(gs, Group(id, x));
    hs := [Group(id, x)] + (a + b);
    FrontComesFirst(s, hs, k, key);
  }

  lemma UnsettledOrdersDiffer(s: Groups, gs: seq<Group>, id: GroupId)
    requires !Settled(HeldOf(s, id), Matching(gs, id))
    ensures exists hs :: multiset(hs) == multiset(gs) && !SameFirstLogs(PartsOf(s, gs, id), PartsOf(s, hs, id))
  {
    var parts := Matching(gs, id);
    var x, y, k, key :|
      x in parts && y in parts && Competing(x, y, k, key) && FirstLog(HeldOf(s, id), k, key).None?;
    var hs := OrderWithFirst(s, gs, id, x, k, key);
    var js := OrderWithFirst(s, gs, id, y, k, key);
    var first := FirstLog(PartsOf(s, gs, id), k, key);
    assert first != FirstLog(PartsOf(s, hs, id), k, key) || first != FirstLog(PartsOf(s, js, id), k, key);
  }

  ghost predicate AllSettled(s: Groups, gs: seq<Group>) {
    forall id :: Settled(HeldOf(s, id), Matching(gs, id))
  }

  ghost predicate SameOutcome(s: Groups, gs: seq<Group>, hs: seq<Group>) {
    && MergeAll(s, gs).Ok? && MergeAll(s, hs).Ok?
    && EquivalentGroups(MergeAll(s, gs).value, MergeAll(s, hs).value)
  }

  lemma SettledOrdersAgree(s: Groups, gs: seq<Group>, hs: seq<Group>)
    requires MergeAll(s, gs).Ok? && multiset(hs) == multiset(gs) && AllSettled(s, gs)
    ensures SameOutcome(s, gs, hs)
  {
    SameMembers(gs, hs);
    MergeOrderChangesOnlyFirstLogs(s, gs, hs);
    forall id ensures SameFirstLogs(PartsOf(s, gs, id), PartsOf(s, hs, id)) {
      PartsMembers(s, gs, hs, id);
      SettledKeepsFirst(HeldOf(s, id), Matching(gs, id), Matching(hs, id));
    }
  }

  lemma UnsettledOrdersDisagree(s: Groups, gs: seq<Group>)
    requires MergeAll(s, gs).Ok? && !AllSettled(s, gs)
    ensures exists hs :: multiset(hs) == multiset(gs) && !SameOutcome(s, gs, hs)
  {
    var id :| !Settled(HeldOf(s, id), Matching(gs, id));
    UnsettledOrdersDiffer(s, gs, id);
    var hs :| multiset(hs) == multiset(gs) && !SameFirstLogs(PartsOf(s, gs, id), PartsOf(s, hs, id));
    SameMembers(gs, hs);
    MergeOrderChangesOnlyFirstLogs(s, gs, hs);
    assert !SameOutcome(s, gs, hs);
  }

  /**
   * All orders of merging a list of groups into a set that takes them give equivalent groups, if and
   * only if under every id logs that share a slice and sort key agree, save where the set already held
   * one. Into an empty set, nothing is held.
   */
  lemma MergeIsOrderIndependentIff(s: Groups, gs: seq<Group>)
    requires MergeAll(s, gs).Ok?
    ensures AllSettled(s, gs) <==> forall hs :: multiset(hs) == multiset(gs) ==> SameOutcome(s, gs, hs)
  {
    if AllSettled(s, gs) {
      forall hs | multiset(hs) == multiset(gs) ensures SameOutcome(s, gs, hs) {
        SettledOrdersAgree(s, gs, hs);
      }
    } else {
      UnsettledOrdersDisagree(s, gs);
    }
  }

  // ---------------------------------------------------------------- the object

  /** How many groups go in before one is refused. */
  function MergedCount(s: Groups, gs: seq<Group>): (n: nat)
    ensures n <= |gs|
    decreases |gs|
  {
    if gs == [] then 0
    else match MergeOne(s, gs[0])
      case Ok(t) => 1 + MergedCount(t, gs[1..])
      case Err => 0
  }

  lemma {:induction false} MergedPrefix(s: Groups, gs: seq<Group>)
    ensures var n := MergedCount(s, gs);
      && MergeAll(s, gs[..n]).Ok?
      && (MergeAll(s, gs).Ok? <==> n == |gs|)
      && (n < |gs| ==> gs[n].id in MergeAll(s, gs[..n]).value)
    decreases |gs|
  {
    var n := MergedCount(s, gs);
    if n > 0 {
      MergedPrefix(MergeOne(s, gs[0]).value, gs[1..]);
      assert gs[..n][1..] == gs[1..][..n - 1];
    }
  }

  /** One group taken from the list. */
  lemma MergeNext(s: Groups, gs: seq<Group>, i: nat, n: nat)
    requires i < |gs| && i <= n <= |gs| && MergedCount(s, gs[i..]) == n - i
    ensures MergeOne(s, gs[i]).Ok? <==> i < n
    ensures i == n ==> MergeAll(s, gs[i..n]) == Ok(s)
    ensures i < n ==>
      var t := MergeOne(s, gs[i]).value;
      && MergedCount(t, gs[i + 1..]) == n - i - 1
      && MergeAll(t, gs[i + 1..]) == MergeAll(s, gs[i..])
      && MergeAll(t, gs[i + 1..n]) == MergeAll(s, gs[i..n])
  {
    if i < n {
      DropOne(gs, i, n);
    } else {
      assert gs[i..][0] == gs[i];
    }
  }

  class FileGroupSet {
    var groups: Groups

    /** Takes a group's namesake out, merges, and puts the result back; a failure loses the one taken. */
    method TakeMergeInsert(g: Group) returns (ok: bool)
      modifies this
      ensures ok <==> MergeOne(old(groups), g).Ok?
      ensures groups == if ok then MergeOne(old(groups), g).value else old(groups) - {g.id}
    {
      if g.id !in groups {
        groups := groups[g.id := g.slices];
        return true;
      }
      var taken := groups[g.id];
      groups := groups - {g.id};
      if !Agree(taken, g.slices) {
        return false;
      }
      groups := groups[g.id := Merged(taken, g.slices)];
      return true;
    }

    method Merge(gs: seq<Group>) returns (ok: bool)
      modifies this
      ensures ok <==> MergeAll(old(groups), gs).Ok?
      ensures ok ==> groups == MergeAll(old(groups), gs).value
      ensures !ok ==>
        var n := MergedCount(old(groups), gs);
        && n < |gs| && MergeAll(old(groups), gs[..n]).Ok?
        && groups == MergeAll(old(groups), gs[..n]).value - {gs[n].id}
    {
      ghost var n := MergedCount(groups, gs);
      MergedPrefix(groups, gs);
      assert gs[0..] == gs;
      for i := 0 to |gs|
        invariant i <= n
        invariant MergedCount(groups, gs[i..]) == n - i
        invariant MergeAll(groups, gs[i..]) == MergeAll(old(groups), gs)
        invariant MergeAll(groups, gs[i..n]) == MergeAll(old(groups), gs[..n])
      {
        MergeNext(groups, gs, i, n);
        var merged := TakeMergeInsert(gs[i]);
        if !merged {
          return false;
        }
      }
      return true;
    }
  }
}
