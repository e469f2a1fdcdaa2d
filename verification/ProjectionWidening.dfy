/** Reading only the columns a query needs, and what that may change (read_base_file_stream in reader.rs). */
module ProjectionWidening {
  import opened Wrappers
  import opened RowMasks
  import opened ReadPipeline

  function AddFields(combined: seq<string>, filters: seq<ValuedFilter>, dropped: seq<string>): seq<string>
    decreases |filters|
  {
    if filters == [] then combined
    else
      var field := filters[0].field;
      var skip := field in dropped || field in combined;
      AddFields(if skip then combined else combined + [field], filters[1..], dropped)
  }

  /** The program asks for the commit time column when it has a start, not whenever it masks by commit time. */
  predicate NeedsCommitTime(w: Window) {
    w.populatesMeta && w.start.Some?
  }

  function WidenedColumns(projection: seq<string>, filters: seq<ValuedFilter>, dropped: seq<string>, w: Window): seq<string> {
    var combined := AddFields(projection, filters, dropped);
    if NeedsCommitTime(w) && COMMIT_TIME !in combined then combined + [COMMIT_TIME] else combined
  }

  method WidenProjection(projection: seq<string>, filters: seq<ValuedFilter>, dropped: seq<string>, w: Window)
    returns (combined: seq<string>)
    ensures combined == WidenedColumns(projection, filters, dropped, w)
  {
    combined := projection;
    assert filters[0..] == filters;
    for i := 0 to |filters|
      invariant AddFields(combined, filters[i..], dropped) == AddFields(projection, filters, dropped)
    {
      assert filters[i..][1..] == filters[i + 1..];
      var field := filters[i].field;
      if field in dropped {
        continue;
      }
      if field !in combined {
        combined := combined + [field];
      }
    }
    if NeedsCommitTime(w) {
      if COMMIT_TIME !in combined {
        combined := combined + [COMMIT_TIME];
      }
    }
  }

  predicate Distinct(s: seq<string>) {
    forall i, j :: 0 <= i < j < |s| ==> s[i] != s[j]
  }

  lemma {:induction false} AddFieldsMeaning(combined: seq<string>, filters: seq<ValuedFilter>, dropped: seq<string>)
    ensures var r := AddFields(combined, filters, dropped);
      && combined <= r
      && (Distinct(combined) ==> Distinct(r))
      && forall c :: c in r <==> c in combined || (c !in dropped && exists f :: f in filters && f.field == c)
    decreases |filters|
  {
    if filters != [] {
      var field := filters[0].field;
      var skip := field in dropped || field in combined;
      AddFieldsMeaning(if skip then combined else combined + [field], filters[1..], dropped);
      assert filters == [filters[0]] + filters[1..];
      assert forall f :: f in filters <==> f == filters[0] || f in filters[1..];
    }
  }

  /** Widening keeps the requested columns in place and adds each further one it needs once. */
  lemma WidenedMeaning(projection: seq<string>, filters: seq<ValuedFilter>, dropped: seq<string>, w: Window)
    ensures var r := WidenedColumns(projection, filters, dropped, w);
      && projection <= r
      && (Distinct(projection) ==> Distinct(r))
      && forall c :: c in r <==>
          || c in projection
          || (c !in dropped && exists f :: f in filters && f.field == c)
          || (c == COMMIT_TIME && NeedsCommitTime(w))
  {
    AddFieldsMeaning(projection, filters, dropped);
  }

  function Widened(q: Query, dropped: seq<string>): Option<seq<string>> {
    match q.projection
    case None => None
    case Some(p) => Some(WidenedColumns(p, q.filters, dropped, q.window))
  }

  /** A batch read with the widened projection pushed into the file, then put through the pipeline. */
  function NarrowRead(q: Query, dropped: seq<string>, b: Batch): Result<Batch> {
    match ProjectBatch(b, Widened(q, dropped))
    case Err => Err
    case Ok(selected) => Read(q, selected)
  }

  // ---------------------------------------------------------------- what narrowing can lose

  /** A filter on a dropped column that was not asked for is not read. */
  predicate LosesFilter(q: Query, dropped: seq<string>) {
    q.projection.Some? &&
    exists f :: f in q.filters && Unasked(q, dropped, f)
  }

  predicate Unasked(q: Query, dropped: seq<string>, f: ValuedFilter)
    requires q.projection.Some?
  {
    && f.field in dropped
    && f.field !in q.projection.value
    && !(f.field == COMMIT_TIME && NeedsCommitTime(q.window))
  }

  /** A list of instants without a start masks by a column that nothing asked for. */
  predicate LosesCommitTime(q: Query, dropped: seq<string>) {
    && q.projection.Some?
    && q.window.populatesMeta && q.window.instants.Some? && q.window.start.None?
    && COMMIT_TIME !in q.projection.value
    && forall f :: f in q.filters && f.field == COMMIT_TIME ==> COMMIT_TIME in dropped
  }

  lemma {:induction false} KeepProject(rows: seq<Row>, columns: seq<string>, narrow: Row -> bool, test: Row -> bool)
    requires forall r :: r in rows ==> (narrow(ProjectRow(r, columns)) <==> test(r))
    ensures KeepRows(ProjectRows(rows, columns), narrow) == ProjectRows(KeepRows(rows, test), columns)
  {
    if rows != [] {
      assert rows[0] in rows;
      var projected := ProjectRows(rows, columns);
      assert projected[0] == ProjectRow(rows[0], columns) && projected[1..] == ProjectRows(rows[1..], columns);
      KeepProject(rows[1..], columns, narrow, test);
      if test(rows[0]) {
        assert KeepRows(rows, test)[1..] == KeepRows(rows[1..], test);
      } else {
        assert KeepRows(rows, test) == KeepRows(rows[1..], test);
      }
    }
  }

  lemma {:induction false} ProjectTwice(rows: seq<Row>, wide: seq<string>, columns: seq<string>)
    requires forall c :: c in columns ==> c in wide
    ensures ProjectRows(ProjectRows(rows, wide), columns) == ProjectRows(rows, columns)
  {
    if rows != [] {
      ProjectTwice(rows[1..], wide, columns);
      assert ProjectRow(ProjectRow(rows[0], wide), columns) == ProjectRow(rows[0], columns);
    }
  }

  lemma FilterTestProjects(casts: Casts, all: seq<string>, columns: seq<string>, filters: seq<ValuedFilter>, row: Row)
    requires FieldsPresent(filters, all) && FieldsPresent(filters, columns)
    ensures FilterTest(casts, columns, filters)(ProjectRow(row, columns)) <==> FilterTest(casts, all, filters)(row)
  {
  }

  /** The rows a narrow read keeps are the rows the full read keeps, fewer columns wide. */
  lemma NarrowRowsAgree(q: Query, all: seq<string>, columns: seq<string>, rows: seq<Row>)
    requires FieldsPresent(q.filters, all) && FieldsPresent(q.filters, columns)
    requires q.window.Masks() ==> COMMIT_TIME in columns
    requires q.projection.Some? && forall c :: c in q.projection.value ==> c in columns
    ensures ReadRows(q, columns, ProjectRows(rows, columns)) == ReadRows(q, all, rows)
  {
    var w := WindowTest(q.window);
    var narrow, full := FilterTest(q.casts, columns, q.filters), FilterTest(q.casts, all, q.filters);
    forall r | r in rows ensures w(ProjectRow(r, columns)) <==> w(r) {
    }
    KeepProject(rows, columns, w, w);
    forall r | r in KeepRows(rows, w) ensures narrow(ProjectRow(r, columns)) <==> full(r) {
      FilterTestProjects(q.casts, all, columns, q.filters, r);
    }
    KeepProject(KeepRows(rows, w), columns, narrow, full);
    ProjectTwice(KeptRows(q, all, rows), columns, q.projection.value);
  }

  /** The columns a narrow read selects suffice exactly when it loses neither filter nor commit time. */
  lemma WidenedSuffices(q: Query, dropped: seq<string>, all: seq<string>)
    requires q.projection.Some? && Readable(q, all)
    ensures var columns := Widened(q, dropped).value;
      && (forall c :: c in columns ==> c in all)
      && (forall c :: c in q.projection.value ==> c in columns)
      && (FieldsPresent(q.filters, columns) <==> !LosesFilter(q, dropped))
      && (LosesCommitTime(q, dropped) ==> q.window.Masks() && COMMIT_TIME !in columns)
      && (!LosesCommitTime(q, dropped) && q.window.Masks() ==> COMMIT_TIME in columns)
  {
    WidenedMeaning(q.projection.value, q.filters, dropped, q.window);
    var columns := Widened(q, dropped).value;
    forall f | f in q.filters ensures f.field in columns <==> !Unasked(q, dropped, f) {
    }
  }

  /**
   * Reading widened columns means what reading all columns means. A narrow read never succeeds where
   * the full read fails; where the full read succeeds, the narrow one gives the very same batch unless
   * it loses a filter or the commit time, and then it fails rather than give other rows.
   */
  lemma WideningPreservesMeaningIff(q: Query, dropped: seq<string>, b: Batch)
    ensures Read(q, b).Err? ==> NarrowRead(q, dropped, b).Err?
    ensures Read(q, b).Ok? ==>
      if LosesFilter(q, dropped) || LosesCommitTime(q, dropped) then NarrowRead(q, dropped, b).Err?
      else NarrowRead(q, dropped, b) == Read(q, b)
  {
    ReadIsRowWise(q, b);
    if q.projection.Some? {
      var columns := Widened(q, dropped).value;
      WidenedMeaning(q.projection.value, q.filters, dropped, q.window);
      if forall c :: c in columns ==> c in b.columns {
        var selected := Batch(columns, ProjectRows(b.rows, columns));
        ReadIsRowWise(q, selected);
        if Readable(q, b.columns) {
          WidenedSuffices(q, dropped, b.columns);
          if !LosesFilter(q, dropped) && !LosesCommitTime(q, dropped) {
            NarrowRowsAgree(q, b.columns, columns, b.rows);
          }
        }
      } else if Readable(q, b.columns) {
        WidenedSuffices(q, dropped, b.columns);
      }
    }
  }

  /**
   * Any query that gives a list of instants and no start, and does not ask for the commit time: the whole
   * read succeeds, and the narrow one fails for want of the column it masks by.
   */
  lemma BareInstantListFails(q: Query, dropped: seq<string>, b: Batch)
    requires q.window.populatesMeta && q.window.instants.Some? && q.window.start.None?
    requires q.filters == [] && q.projection.Some? && COMMIT_TIME !in q.projection.value
    requires COMMIT_TIME in b.columns && forall c :: c in q.projection.value ==> c in b.columns
    ensures Read(q, b).Ok? && LosesCommitTime(q, dropped) && NarrowRead(q, dropped, b).Err?
  {
    ReadIsRowWise(q, b);
    WideningPreservesMeaningIff(q, dropped, b);
  }

  /** The pieces of a file as they come when only some columns are selected from it. */
  function SelectPieces(pieces: seq<seq<Row>>, columns: seq<string>): seq<seq<Row>> {
    if pieces == [] then [] else [ProjectRows(pieces[0], columns)] + SelectPieces(pieces[1..], columns)
  }

  lemma {:induction false} FlattenSelected(pieces: seq<seq<Row>>, columns: seq<string>)
    ensures Flatten(SelectPieces(pieces, columns)) == ProjectRows(Flatten(pieces), columns)
  {
    if pieces != [] {
      FlattenSelected(pieces[1..], columns);
      ProjectAppend(pieces[0], Flatten(pieces[1..]), columns);
    }
  }

  /**
   * The base file stream as it runs, widened columns and all batches together: its rows are those of
   * one eager read of the whole file with every column.
   */
  lemma NarrowStreamEqualsEager(q: Query, dropped: seq<string>, columns: seq<string>, pieces: seq<seq<Row>>)
    requires q.projection.Some? && !LosesFilter(q, dropped) && !LosesCommitTime(q, dropped)
    requires Read(q, Batch(columns, Flatten(pieces))).Ok?
    ensures var wide := Widened(q, dropped).value;
      var items := BaseItems(q, Cut(wide, SelectPieces(pieces, wide)));
      && (forall c :: c in wide ==> c in columns)
      && (forall item :: item in items ==> item.Ok?)
      && RowsOf(items) == Read(q, Batch(columns, Flatten(pieces))).value.rows
  {
    var wide := Widened(q, dropped).value;
    var whole := Batch(columns, Flatten(pieces));
    WideningPreservesMeaningIff(q, dropped, whole);
    assert forall c :: c in wide ==> c in columns;
    FlattenSelected(pieces, wide);
    BaseStreamEqualsEager(q, wide, SelectPieces(pieces, wide));
  }
}
