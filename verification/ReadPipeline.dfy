/**
 * What happens to each batch of a slice after it is read: narrowing to the read's window, filtering,
 * projecting; for a whole slice at once and for a stream of its batches (file_group/reader.rs).
 */
module ReadPipeline {
  import opened Wrappers
  import opened Orders
  import opened Filters
  import opened RowMasks

  const COMMIT_TIME := "_hoodie_commit_time"

  /** The incremental window of a read. */
  datatype Window = Window(
    populatesMeta: bool,
    instants: Option<set<Rank>>,
    start: Option<Rank>,
    end: Option<Rank>)
  {
    /** Whether rows are masked by commit time at all; an end alone does not mask. */
    predicate Masks() {
      populatesMeta && (instants.Some? || start.Some?)
    }

    predicate Admits(commitTime: Cell) {
      commitTime.Some? &&
      if instants.Some? then commitTime.value in instants.value
      else (start.Some? ==> start.value < commitTime.value) && (end.Some? ==> commitTime.value <= end.value)
    }
  }

  datatype Query = Query(
    casts: Casts,
    window: Window,
    filters: seq<ValuedFilter>,
    projection: Option<seq<string>>)

  // ---------------------------------------------------------------- selecting rows

  function KeepRows(rows: seq<Row>, test: Row -> bool): seq<Row> {
    if rows == [] then [] else (if test(rows[0]) then [rows[0]] else []) + KeepRows(rows[1..], test)
  }

  /** The rows a mask marks true; a null marks nothing. */
  function SelectByMask(rows: seq<Row>, mask: Mask): seq<Row>
    requires |rows| == |mask|
  {
    if rows == [] then []
    else (if mask[0] == Some(true) then [rows[0]] else []) + SelectByMask(rows[1..], mask[1..])
  }

  lemma {:induction false} SelectIsKeep(rows: seq<Row>, mask: Mask, test: Row -> bool)
    requires |rows| == |mask|
    requires forall i :: 0 <= i < |rows| ==> (mask[i] == Some(true) <==> test(rows[i]))
    ensures SelectByMask(rows, mask) == KeepRows(rows, test)
  {
    if rows != [] {
      SelectIsKeep(rows[1..], mask[1..], test);
    }
  }

  lemma {:induction false} KeepAppend(a: seq<Row>, b: seq<Row>, test: Row -> bool)
    ensures KeepRows(a + b, test) == KeepRows(a, test) + KeepRows(b, test)
  {
    if a == [] {
      assert a + b == b;
    } else {
      assert (a + b)[1..] == a[1..] + b;
      KeepAppend(a[1..], b, test);
    }
  }

  lemma {:induction false} KeptPass(rows: seq<Row>, test: Row -> bool)
    ensures forall r :: r in KeepRows(rows, test) <==> r in rows && test(r)
  {
    if rows != [] {
      KeptPass(rows[1..], test);
      assert forall r :: r in rows <==> r == rows[0] || r in rows[1..];
    }
  }

  lemma {:induction false} KeepAll(rows: seq<Row>, test: Row -> bool)
    requires forall r :: r in rows ==> test(r)
    ensures KeepRows(rows, test) == rows
  {
    if rows != [] {
      assert rows[0] in rows;
      KeepAll(rows[1..], test);
    }
  }

  function ProjectRow(row: Row, columns: seq<string>): Row {
    map c | c in columns :: CellOf(row, c)
  }

  function ProjectRows(rows: seq<Row>, columns: seq<string>): seq<Row> {
    if rows == [] then [] else [ProjectRow(rows[0], columns)] + ProjectRows(rows[1..], columns)
  }

  lemma {:induction false} ProjectAppend(a: seq<Row>, b: seq<Row>, columns: seq<string>)
    ensures ProjectRows(a + b, columns) == ProjectRows(a, columns) + ProjectRows(b, columns)
  {
    if a == [] {
      assert a + b == b;
    } else {
      assert (a + b)[1..] == a[1..] + b;
      ProjectAppend(a[1..], b, columns);
    }
  }

  // ---------------------------------------------------------------- the stages as functions

  function WindowTest(w: Window): Row -> bool {
    (row: Row) => w.Masks() ==> w.Admits(CellOf(row, COMMIT_TIME))
  }

  function FilterTest(casts: Casts, columns: seq<string>, filters: seq<ValuedFilter>): Row -> bool {
    (row: Row) => MeetsAll(casts, columns, row, filters)
  }

  function NarrowToWindow(w: Window, b: Batch): Result<Batch> {
    if w.Masks() && COMMIT_TIME !in b.columns then Err
    else Ok(b.(rows := KeepRows(b.rows, WindowTest(w))))
  }

  predicate FieldsPresent(filters: seq<ValuedFilter>, columns: seq<string>) {
    forall f :: f in filters ==> f.field in columns
  }

  function FilterBatch(casts: Casts, filters: seq<ValuedFilter>, b: Batch): Result<Batch> {
    if !Castable(casts, b.columns, filters) then Err
    else Ok(b.(rows := KeepRows(b.rows, FilterTest(casts, b.columns, filters))))
  }

  predicate Selectable(projection: Option<seq<string>>, columns: seq<string>) {
    projection.Some? ==> forall c :: c in projection.value ==> c in columns
  }

  function ProjectBatch(b: Batch, projection: Option<seq<string>>): Result<Batch> {
    if !Selectable(projection, b.columns) then Err
    else match projection
      case None => Ok(b)
      case Some(columns) => Ok(Batch(columns, ProjectRows(b.rows, columns)))
  }

  function EagerOptions(q: Query, b: Batch): Result<Batch> {
    if !FieldsPresent(q.filters, b.columns) then Err
    else match FilterBatch(q.casts, q.filters, b)
      case Err => Err
      case Ok(kept) => ProjectBatch(kept, q.projection)
  }

  /** A whole slice read at once. */
  function Read(q: Query, b: Batch): Result<Batch> {
    match NarrowToWindow(q.window, b)
    case Err => Err
    case Ok(narrowed) => EagerOptions(q, narrowed)
  }

  // ---------------------------------------------------------------- the stages as the program runs them

  method CreateCommitTimeFilterMask(w: Window, b: Batch) returns (r: Result<Option<Mask>>)
    ensures r.Err? <==> w.populatesMeta && (w.instants.Some? || w.start.Some?) && COMMIT_TIME !in b.columns
    ensures r.Ok? ==> (r.value.Some? <==> w.populatesMeta && (w.instants.Some? || w.start.Some?))
    ensures r.Ok? && r.value.Some? ==> |r.value.value| == |b.rows|
    ensures r.Ok? && r.value.Some? ==> forall i :: 0 <= i < |b.rows| ==>
      var time := CellOf(b.rows[i], COMMIT_TIME);
      r.value.value[i] == Some(true) <==>
        && time.Some?
        && if w.instants.Some? then time.value in w.instants.value
           else w.start.value < time.value && (w.end.Some? ==> time.value <= w.end.value)
  {
    if !w.populatesMeta {
      return Ok(None);
    }
    if w.instants.Some? {
      if COMMIT_TIME !in b.columns {
        return Err;
      }
      var times := ColumnOf(b, COMMIT_TIME);
      return Ok(Some(seq(|times|, i requires 0 <= i < |times| =>
        Some(times[i].Some? && times[i].value in w.instants.value))));
    }
    if w.start.None? {
      return Ok(None);
    }
    if COMMIT_TIME !in b.columns {
      return Err;
    }
    var times := ColumnOf(b, COMMIT_TIME);
    var mask: Mask := seq(|b.rows|, _ => Some(true));
    var after := ApplyComparison(Gt, times, [w.start.value]);
    mask := Zip(And, mask, after);
    forall i | 0 <= i < |b.rows|
      ensures mask[i] == Some(true) <==> times[i].Some? && w.start.value < times[i].value
    {
      assert mask[i] == And(Some(true), after[i]);
    }
    if w.end.Some? {
      ghost var started := mask;
      var notAfter := ApplyComparison(Lte, times, [w.end.value]);
      mask := Zip(And, mask, notAfter);
      forall i | 0 <= i < |b.rows|
        ensures mask[i] == Some(true) <==> started[i] == Some(true) && times[i].Some? && times[i].value <= w.end.value
      {
        assert mask[i] == And(started[i], notAfter[i]);
      }
    }
    forall i | 0 <= i < |b.rows| ensures times[i] == CellOf(b.rows[i], COMMIT_TIME) {
    }
    return Ok(Some(mask));
  }

  method ApplyCommitTimeFilter(w: Window, b: Batch) returns (r: Result<Batch>)
    ensures r == NarrowToWindow(w, b)
  {
    var mask := CreateCommitTimeFilterMask(w, b);
    if mask.Err? {
      return Err;
    }
    if mask.value.None? {
      KeepAll(b.rows, WindowTest(w));
      return Ok(b);
    }
    SelectIsKeep(b.rows, mask.value.value, WindowTest(w));
    return Ok(b.(rows := SelectByMask(b.rows, mask.value.value)));
  }

  method ApplyFilterMask(casts: Casts, filters: seq<ValuedFilter>, b: Batch) returns (r: Result<Batch>)
    ensures r == FilterBatch(casts, filters, b)
  {
    if filters == [] {
      KeepAll(b.rows, FilterTest(casts, b.columns, filters));
      return Ok(b);
    }
    var mask := FiltersToRowMask(filters, b, casts);
    if mask.Err? {
      return Err;
    }
    forall i | 0 <= i < |b.rows|
      ensures mask.value[i] == Some(true) <==> FilterTest(casts, b.columns, filters)(b.rows[i])
    {
      if SeesNull(b.columns, b.rows[i], filters) {
        var f :| f in filters && f.field in b.columns && CellOf(b.rows[i], f.field).None?;
        assert !Meets(casts, b.columns, b.rows[i], f);
      }
    }
    SelectIsKeep(b.rows, mask.value, FilterTest(casts, b.columns, filters));
    return Ok(b.(rows := SelectByMask(b.rows, mask.value)));
  }

  method ApplyEagerOptions(q: Query, b: Batch) returns (r: Result<Batch>)
    ensures r == EagerOptions(q, b)
  {
    if !FieldsPresent(q.filters, b.columns) {
      return Err;
    }
    var kept := ApplyFilterMask(q.casts, q.filters, b);
    if kept.Err? {
      return Err;
    }
    return ProjectBatch(kept.value, q.projection);
  }

  // ---------------------------------------------------------------- reading in one piece, row by row

  /** Whether a read fails depends on the columns alone. */
  predicate Readable(q: Query, columns: seq<string>) {
    && (q.window.Masks() ==> COMMIT_TIME in columns)
    && FieldsPresent(q.filters, columns)
    && Castable(q.casts, columns, q.filters)
    && Selectable(q.projection, columns)
  }

  function KeptRows(q: Query, columns: seq<string>, rows: seq<Row>): seq<Row> {
    KeepRows(KeepRows(rows, WindowTest(q.window)), FilterTest(q.casts, columns, q.filters))
  }

  function ReadRows(q: Query, columns: seq<string>, rows: seq<Row>): seq<Row> {
    match q.projection
    case None => KeptRows(q, columns, rows)
    case Some(cs) => ProjectRows(KeptRows(q, columns, rows), cs)
  }

  function ReadColumns(q: Query, columns: seq<string>): seq<string> {
    match q.projection
    case None => columns
    case Some(cs) => cs
  }

  lemma ReadIsRowWise(q: Query, b: Batch)
    ensures Read(q, b) ==
      if Readable(q, b.columns) then Ok(Batch(ReadColumns(q, b.columns), ReadRows(q, b.columns, b.rows))) else Err
  {
  }

  lemma ReadRowsAppend(q: Query, columns: seq<string>, a: seq<Row>, b: seq<Row>)
    ensures ReadRows(q, columns, a + b) == ReadRows(q, columns, a) + ReadRows(q, columns, b)
  {
    var w, f := WindowTest(q.window), FilterTest(q.casts, columns, q.filters);
    KeepAppend(a, b, w);
    KeepAppend(KeepRows(a, w), KeepRows(b, w), f);
    if q.projection.Some? {
      ProjectAppend(KeptRows(q, columns, a), KeptRows(q, columns, b), q.projection.value);
    }
  }

  /** A read succeeds exactly when it finds every column it needs and can cast every text of its filters. */
  lemma ReadSucceedsIff(q: Query, b: Batch)
    ensures Read(q, b).Ok? <==>
      && (q.window.populatesMeta && (q.window.instants.Some? || q.window.start.Some?) ==> COMMIT_TIME in b.columns)
      && (forall f :: f in q.filters ==> f.field in b.columns)
      && (forall f, text :: f in q.filters && text in f.values ==> q.casts(f.field, text).Ok?)
      && (q.projection.Some? ==> forall c :: c in q.projection.value ==> c in b.columns)
    ensures Read(q, b).Ok? ==>
      Read(q, b).value.columns == if q.projection.Some? then q.projection.value else b.columns
  {
    ReadIsRowWise(q, b);
    CastableIff(q.casts, b.columns, q.filters);
  }

  /**
   * What becomes of one row: it is kept if it was committed at a listed instant, or else after the start
   * and not after the end, and satisfies the texts of all filters; and it is given as projected.
   */
  lemma OneRowIsRead(q: Query, columns: seq<string>, row: Row)
    requires Castable(q.casts, columns, q.filters)
    ensures var (w, time) := (q.window, CellOf(row, COMMIT_TIME));
      var inWindow :=
        if !w.populatesMeta then true
        else if w.instants.Some? then time.Some? && time.value in w.instants.value
        else if w.start.Some? then
          time.Some? && w.start.value < time.value && (w.end.Some? ==> time.value <= w.end.value)
        else true;
      var given := if q.projection.Some? then map c | c in q.projection.value :: CellOf(row, c) else row;
      ReadRows(q, columns, [row]) ==
        if inWindow && RowSatisfies(q.casts, columns, row, q.filters) then [given] else []
  {
    MeetsAllIff(q.casts, columns, row, q.filters);
    KeptOne(q, columns, row);
    if q.projection.Some? {
      assert [row][1..] == [] && ProjectRows([], q.projection.value) == [];
      assert ProjectRows([row], q.projection.value) == [ProjectRow(row, q.projection.value)];
    }
  }

  lemma KeptOne(q: Query, columns: seq<string>, row: Row)
    ensures KeptRows(q, columns, [row]) ==
      if WindowTest(q.window)(row) && FilterTest(q.casts, columns, q.filters)(row) then [row] else []
  {
    KeepOne(row, WindowTest(q.window));
    KeepOne(row, FilterTest(q.casts, columns, q.filters));
  }

  lemma KeepOne(row: Row, test: Row -> bool)
    ensures KeepRows([row], test) == if test(row) then [row] else []
    ensures KeepRows([], test) == []
  {
    assert [row][1..] == [];
  }

  // ---------------------------------------------------------------- windows that follow one another

  function WithWindow(q: Query, w: Window): Query {
    q.(window := w)
  }

  /** Every time the first window admits is admitted by exactly one of the others. */
  ghost predicate Parts(w: Window, w1: Window, w2: Window) {
    && w.Masks() && w1.Masks() && w2.Masks()
    && (forall time :: w.Admits(time) ==> w1.Admits(time) != w2.Admits(time))
    && (forall time :: w1.Admits(time) || w2.Admits(time) ==> w.Admits(time))
  }

  lemma PartedRow(q: Query, w: Window, w1: Window, w2: Window, columns: seq<string>, row: Row)
    requires Parts(w, w1, w2)
    ensures ReadRows(WithWindow(q, w), columns, [row]) ==
      ReadRows(WithWindow(q, w1), columns, [row]) + ReadRows(WithWindow(q, w2), columns, [row])
  {
    var time := CellOf(row, COMMIT_TIME);
    assert w.Admits(time) <==> w1.Admits(time) || w2.Admits(time);
    KeptOne(WithWindow(q, w), columns, row);
    KeptOne(WithWindow(q, w1), columns, row);
    KeptOne(WithWindow(q, w2), columns, row);
    if q.projection.Some? {
      assert ProjectRows([], q.projection.value) == [];
    }
  }

  lemma {:induction false} PartedRows(
    q: Query, w: Window, w1: Window, w2: Window, columns: seq<string>, rows: seq<Row>)
    requires Parts(w, w1, w2)
    ensures multiset(ReadRows(WithWindow(q, w), columns, rows)) ==
      multiset(ReadRows(WithWindow(q, w1), columns, rows)) + multiset(ReadRows(WithWindow(q, w2), columns, rows))
  {
    if rows != [] {
      var rest := rows[1..];
      assert rows == [rows[0]] + rest;
      PartedRow(q, w, w1, w2, columns, rows[0]);
      PartedRows(q, w, w1, w2, columns, rest);
      ReadRowsAppend(WithWindow(q, w), columns, [rows[0]], rest);
      ReadRowsAppend(WithWindow(q, w1), columns, [rows[0]], rest);
      ReadRowsAppend(WithWindow(q, w2), columns, [rows[0]], rest);
    }
  }

  /** The reads of two windows together give, row for row, the read of the window they make up. */
  ghost predicate ReadsAddUp(q: Query, w: Window, w1: Window, w2: Window, b: Batch) {
    var whole, first, second := Read(WithWindow(q, w), b), Read(WithWindow(q, w1), b), Read(WithWindow(q, w2), b);
    && (whole.Ok? <==> first.Ok?) && (whole.Ok? <==> second.Ok?)
    && (whole.Ok? ==> multiset(whole.value.rows) == multiset(first.value.rows) + multiset(second.value.rows))
  }

  lemma PartedReads(q: Query, w: Window, w1: Window, w2: Window, b: Batch)
    requires Parts(w, w1, w2)
    ensures ReadsAddUp(q, w, w1, w2, b)
  {
    ReadIsRowWise(WithWindow(q, w), b);
    ReadIsRowWise(WithWindow(q, w1), b);
    ReadIsRowWise(WithWindow(q, w2), b);
    PartedRows(q, w, w1, w2, b.columns, b.rows);
  }

  /** An incremental read can go on where another ended: nothing is read twice and nothing is missed. */
  lemma ConsecutiveReadsAddUp(q: Query, a: Rank, b: Rank, c: Rank, batch: Batch)
    requires a <= b <= c
    ensures ReadsAddUp(
      q, Window(true, None, Some(a), Some(c)), Window(true, None, Some(a), Some(b)), Window(true, None, Some(b), Some(c)),
      batch)
  {
    PartedReads(
      q, Window(true, None, Some(a), Some(c)), Window(true, None, Some(a), Some(b)), Window(true, None, Some(b), Some(c)),
      batch);
  }

  /** The same for lists of instants that share none, whatever the bounds. */
  lemma DisjointListsAddUp(q: Query, s: set<Rank>, t: set<Rank>, start: Option<Rank>, end: Option<Rank>, batch: Batch)
    requires s !! t
    ensures ReadsAddUp(
      q, Window(true, Some(s + t), start, end), Window(true, Some(s), start, end), Window(true, Some(t), start, end), batch)
  {
    PartedReads(
      q, Window(true, Some(s + t), start, end), Window(true, Some(s), start, end), Window(true, Some(t), start, end), batch);
  }

  /** Narrowing to the window twice is narrowing once. */
  lemma NarrowIsIdempotent(w: Window, b: Batch)
    requires NarrowToWindow(w, b).Ok?
    ensures NarrowToWindow(w, NarrowToWindow(w, b).value) == NarrowToWindow(w, b)
  {
    KeptPass(b.rows, WindowTest(w));
    KeepAll(KeepRows(b.rows, WindowTest(w)), WindowTest(w));
  }

  // ---------------------------------------------------------------- reading as a stream

  function Flatten(pieces: seq<seq<Row>>): seq<Row> {
    if pieces == [] then [] else pieces[0] + Flatten(pieces[1..])
  }

  /** The batches a slice is cut into. */
  function Cut(columns: seq<string>, pieces: seq<seq<Row>>): seq<Batch> {
    seq(|pieces|, i requires 0 <= i < |pieces| => Batch(columns, pieces[i]))
  }

  function RowsOf(items: seq<Result<Batch>>): seq<Row> {
    if items == [] then []
    else (match items[0] case Ok(b) => b.rows case Err => []) + RowsOf(items[1..])
  }

  /** A merged slice streamed batch by batch, each batch going through the eager steps. */
  function StreamItems(q: Query, batches: seq<Batch>): seq<Result<Batch>> {
    if batches == [] then [] else [Read(q, batches[0])] + StreamItems(q, batches[1..])
  }

  /** However a slice is cut into batches, streaming it gives the rows, or the failure, of the eager read. */
  lemma {:induction false} StreamingEqualsEager(q: Query, columns: seq<string>, pieces: seq<seq<Row>>)
    ensures var items, eager := StreamItems(q, Cut(columns, pieces)), Read(q, Batch(columns, Flatten(pieces)));
      && |items| == |pieces|
      && (forall item :: item in items ==> (item.Ok? <==> eager.Ok?))
      && (forall item :: item in items && item.Ok? ==> item.value.columns == eager.value.columns)
      && RowsOf(items) == (if eager.Ok? then eager.value.rows else [])
  {
    var whole := Batch(columns, Flatten(pieces));
    ReadIsRowWise(q, whole);
    if pieces == [] {
    } else {
      assert Cut(columns, pieces)[1..] == Cut(columns, pieces[1..]);
      var first, rest := Batch(columns, pieces[0]), Batch(columns, Flatten(pieces[1..]));
      ReadIsRowWise(q, first);
      ReadIsRowWise(q, rest);
      ReadRowsAppend(q, columns, first.rows, rest.rows);
      StreamingEqualsEager(q, columns, pieces[1..]);
    }
  }

  // ---------------------------------------------------------------- streaming a base file

  /** What one batch of a base file becomes: nothing when no row of it survives, or an item. */
  function BaseItem(q: Query, b: Batch): seq<Result<Batch>> {
    if !FieldsPresent(q.filters, b.columns) then [Err]
    else match NarrowToWindow(q.window, b)
      case Err => [Err]
      case Ok(narrowed) =>
        if narrowed.rows == [] then []
        else match FilterBatch(q.casts, q.filters, narrowed)
          case Err => [Err]
          case Ok(kept) => if kept.rows == [] then [] else [ProjectBatch(kept, q.projection)]
  }

  function BaseItems(q: Query, batches: seq<Batch>): seq<Result<Batch>> {
    if batches == [] then [] else BaseItem(q, batches[0]) + BaseItems(q, batches[1..])
  }

  lemma {:induction false} BaseItemsAppend(q: Query, a: seq<Batch>, b: seq<Batch>)
    ensures BaseItems(q, a + b) == BaseItems(q, a) + BaseItems(q, b)
  {
    if a == [] {
      assert a + b == b;
    } else {
      assert (a + b)[1..] == a[1..] + b;
      BaseItemsAppend(q, a[1..], b);
    }
  }

  /** The columns are checked until a batch has passed, and then no more. */
  method StreamBaseFile(q: Query, columns: seq<string>, batches: seq<Batch>) returns (out: seq<Result<Batch>>)
    requires forall b :: b in batches ==> b.columns == columns
    ensures out == BaseItems(q, batches)
  {
    out := [];
    var validated := false;
    for i := 0 to |batches|
      invariant out == BaseItems(q, batches[..i])
      invariant validated ==> FieldsPresent(q.filters, columns)
    {
      var b := batches[i];
      assert batches[..i + 1] == batches[..i] + [b];
      BaseItemsAppend(q, batches[..i], [b]);
      assert BaseItems(q, [b]) == BaseItem(q, b);
      if !validated {
        if !FieldsPresent(q.filters, b.columns) {
          out := out + [Err];
          continue;
        }
        validated := true;
      }
      var narrowed := ApplyCommitTimeFilter(q.window, b);
      if narrowed.Err? {
        out := out + [Err];
        continue;
      }
      if narrowed.value.rows == [] {
        continue;
      }
      var kept := ApplyFilterMask(q.casts, q.filters, narrowed.value);
      if kept.Err? {
        out := out + [Err];
        continue;
      }
      if kept.value.rows == [] {
        continue;
      }
      out := out + [ProjectBatch(kept.value, q.projection)];
    }
    assert batches[..|batches|] == batches;
  }

  lemma BaseItemRows(q: Query, b: Batch)
    ensures Read(q, b).Ok? ==>
      && RowsOf(BaseItem(q, b)) == Read(q, b).value.rows
      && forall item :: item in BaseItem(q, b) ==> item == Read(q, b) && item.value.rows != []
    ensures Read(q, b).Err? ==> forall item :: item in BaseItem(q, b) ==> item.Err?
    ensures Read(q, b).Err? ==> RowsOf(BaseItem(q, b)) == []
  {
  }

  lemma {:induction false} RowsOfAppend(a: seq<Result<Batch>>, b: seq<Result<Batch>>)
    ensures RowsOf(a + b) == RowsOf(a) + RowsOf(b)
  {
    if a == [] {
      assert a + b == b;
    } else {
      assert (a + b)[1..] == a[1..] + b;
      RowsOfAppend(a[1..], b);
    }
  }

  /**
   * Streaming a base file gives the rows of the eager read. When the eager read fails the stream gives
   * no row; `StreamFailureIsReportedIff` says when it gives an error instead.
   */
  lemma {:induction false} BaseStreamEqualsEager(q: Query, columns: seq<string>, pieces: seq<seq<Row>>)
    ensures var items, eager := BaseItems(q, Cut(columns, pieces)), Read(q, Batch(columns, Flatten(pieces)));
      && (forall item :: item in items ==> (item.Ok? <==> eager.Ok?))
      && (forall item :: item in items && item.Ok? ==>
            item.value.columns == eager.value.columns && item.value.rows != [])
      && RowsOf(items) == (if eager.Ok? then eager.value.rows else [])
  {
    ReadIsRowWise(q, Batch(columns, Flatten(pieces)));
    if pieces != [] {
      assert Cut(columns, pieces)[1..] == Cut(columns, pieces[1..]);
      var first, rest := Batch(columns, pieces[0]), Batch(columns, Flatten(pieces[1..]));
      ReadIsRowWise(q, first);
      ReadIsRowWise(q, rest);
      ReadRowsAppend(q, columns, first.rows, rest.rows);
      BaseItemRows(q, first);
      RowsOfAppend(BaseItem(q, first), BaseItems(q, Cut(columns, pieces[1..])));
      BaseStreamEqualsEager(q, columns, pieces[1..]);
    }
  }

  /** The columns lack a field, or rows get as far as a step that fails. */
  predicate MeetsFailure(q: Query, columns: seq<string>, rows: seq<Row>) {
    || !FieldsPresent(q.filters, columns)
    || (q.window.Masks() && COMMIT_TIME !in columns)
    || (KeepRows(rows, WindowTest(q.window)) != [] && !Castable(q.casts, columns, q.filters))
    || (KeptRows(q, columns, rows) != [] && !Selectable(q.projection, columns))
  }

  lemma BaseItemFailsIff(q: Query, columns: seq<string>, rows: seq<Row>)
    ensures (exists item :: item in BaseItem(q, Batch(columns, rows)) && item.Err?) <==> MeetsFailure(q, columns, rows)
  {
    var items := BaseItem(q, Batch(columns, rows));
    assert items != [] ==> items[0] in items;
  }

  lemma MeetsFailureAppend(q: Query, columns: seq<string>, a: seq<Row>, b: seq<Row>)
    ensures MeetsFailure(q, columns, a + b) <==> MeetsFailure(q, columns, a) || MeetsFailure(q, columns, b)
  {
    var w := WindowTest(q.window);
    KeepAppend(a, b, w);
    KeepAppend(KeepRows(a, w), KeepRows(b, w), FilterTest(q.casts, columns, q.filters));
  }

  /**
   * The stream of a base file gives an error if and only if it has a batch at all and a field is missing,
   * a needed commit time is missing, rows survive the window whose filters cannot be cast, or rows survive
   * window and filters and a requested column is missing. How the file is cut makes no difference.
   */
  lemma {:induction false} StreamFailureIsReportedIff(q: Query, columns: seq<string>, pieces: seq<seq<Row>>)
    ensures (exists item :: item in BaseItems(q, Cut(columns, pieces)) && item.Err?) <==>
      pieces != [] && MeetsFailure(q, columns, Flatten(pieces))
  {
    if pieces != [] {
      assert Cut(columns, pieces)[1..] == Cut(columns, pieces[1..]);
      var first, rest := BaseItem(q, Batch(columns, pieces[0])), BaseItems(q, Cut(columns, pieces[1..]));
      assert forall item :: item in first + rest <==> item in first || item in rest;
      BaseItemFailsIff(q, columns, pieces[0]);
      MeetsFailureAppend(q, columns, pieces[0], Flatten(pieces[1..]));
      StreamFailureIsReportedIff(q, columns, pieces[1..]);
      if pieces[1..] == [] {
        assert pieces[0] + Flatten(pieces[1..]) == pieces[0];
      }
    }
  }

  /** A row outside the window and a filter that cannot be cast: the eager read fails, the stream just ends. */
  lemma StreamCanEndQuietly(row: Row, t: Rank)
    requires CellOf(row, COMMIT_TIME) == Some(t)
    ensures exists q :: Read(q, Batch([COMMIT_TIME], [row])).Err? && BaseItems(q, Cut([COMMIT_TIME], [[row]])) == []
  {
    var f: ValuedFilter := Filter(COMMIT_TIME, Eq, [[]]);
    var q := Query((_, _) => Err, Window(true, None, Some(t), None), [f], None);
    var b := Batch([COMMIT_TIME], [row]);
    assert f in q.filters && CastAll(q.casts, f.field, f.values).Err?;
    assert !Castable(q.casts, b.columns, q.filters);
    assert !WindowTest(q.window)(row);
    assert KeepRows([row], WindowTest(q.window)) == [];
    assert Cut([COMMIT_TIME], [[row]]) == [b];
    assert [b][1..] == [] && BaseItem(q, b) == [] && BaseItems(q, [b]) == [];
    assert Read(q, b).Err?;
  }
}
