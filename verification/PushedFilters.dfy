/**
 * SQL expressions turned into the scan's own filters, carried there as text, and applied to rows
 * (datafusion/src/util/expr.rs, with_filters in read_options.rs).
 */
module PushedFilters {
  import opened Wrappers
  import opened Orders
  import opened InValues
  import F = Filters
  import opened RowMasks
  import opened Pushdown

  /** How a literal is written as text. */
  type Show = Rank -> string

  // ---------------------------------------------------------------- the extraction

  function OperatorOf(op: BinaryOp): Option<F.Operator> {
    match op
    case Eq => Some(F.Eq)
    case NotEq => Some(F.Ne)
    case Lt => Some(F.Lt)
    case LtEq => Some(F.Lte)
    case Gt => Some(F.Gt)
    case GtEq => Some(F.Gte)
    case _ => None
  }

  /** A comparison of a column and a literal, whichever side each is on; the operator is kept as written. */
  function BinaryToFilter(show: Show, l: Expr, op: BinaryOp, r: Expr): Option<ValuedFilter> {
    var parts: Option<(string, Rank)> :=
      if l.Column? && r.Literal? then Some((l.name, r.value))
      else if l.Literal? && r.Column? then Some((r.name, l.value))
      else None;
    if parts.None? || OperatorOf(op).None? then None
    else Some(F.Filter(parts.value.0, OperatorOf(op).value, [show(parts.value.1)]))
  }

  function NotToFilter(show: Show, inner: Expr): Option<ValuedFilter> {
    match inner
    case Binary(l, op, r) =>
      (match BinaryToFilter(show, l, op, r)
       case Some(f) => Some(f.Negate())
       case None => None)
    case _ => None
  }

  function BetweenToFilters(show: Show, x: Expr, low: Expr, high: Expr, negated: bool): seq<ValuedFilter> {
    if negated || !x.Column? || !low.Literal? || !high.Literal? then []
    else [F.Filter(x.name, F.Gte, [show(low.value)]), F.Filter(x.name, F.Lte, [show(high.value)])]
  }

  function LiteralsOf(list: seq<Expr>): seq<Rank> {
    if list == [] then [] else (if list[0].Literal? then [list[0].value] else []) + LiteralsOf(list[1..])
  }

  function ShowAll(show: Show, vs: seq<Rank>): (r: seq<string>)
    ensures |r| == |vs|
    ensures forall i :: 0 <= i < |vs| ==> r[i] == show(vs[i])
  {
    if vs == [] then [] else [show(vs[0])] + ShowAll(show, vs[1..])
  }

  function InListToFilter(show: Show, x: Expr, list: seq<Expr>, negated: bool): Option<ValuedFilter> {
    var vs := LiteralsOf(list);
    if !x.Column? || list == [] || |vs| != |list| then None
    else Some(F.Filter(x.name, if negated then F.NotIn else F.In, ShowAll(show, vs)))
  }

  function AsSeq(f: Option<ValuedFilter>): seq<ValuedFilter> {
    match f
    case Some(g) => [g]
    case None => []
  }

  function ExprToFilters(show: Show, e: Expr): seq<ValuedFilter> {
    match e
    case Binary(l, And, r) => ExprToFilters(show, l) + ExprToFilters(show, r)
    case Binary(l, Or, r) => []
    case Binary(l, op, r) => AsSeq(BinaryToFilter(show, l, op, r))
    case Not(inner) => AsSeq(NotToFilter(show, inner))
    case Between(x, low, high, negated) => BetweenToFilters(show, x, low, high, negated)
    case InList(x, list, negated) => AsSeq(InListToFilter(show, x, list, negated))
    case _ => []
  }

  function ExprsToFilters(show: Show, es: seq<Expr>): seq<ValuedFilter> {
    if es == [] then [] else ExprToFilters(show, es[0]) + ExprsToFilters(show, es[1..])
  }

  // ---------------------------------------------------------------- what a conjunct asks

  /** A question about the value of one column. */
  datatype Test = Test(column: string, op: F.Operator, values: seq<Rank>)

  type Asked = t: Test | t.values != [] witness Test("", F.Eq, [0.0])

  /** A row passes when the column's value is present and the operator holds of it. */
  predicate Passes(t: Asked, row: Row) {
    var cell := CellOf(row, t.column);
    cell.Some? && t.op.Holds(cell.value, t.values)
  }

  /** The operator with its two sides exchanged. */
  function Turned(op: F.Operator): F.Operator {
    match op
    case Lt => F.Gt
    case Lte => F.Gte
    case Gt => F.Lt
    case Gte => F.Lte
    case _ => op
  }

  function ComparisonAsked(l: Expr, op: BinaryOp, r: Expr): Option<Asked> {
    match OperatorOf(op)
    case None => None
    case Some(o) =>
      if l.Column? && r.Literal? then Some(Test(l.name, o, [r.value]))
      else if l.Literal? && r.Column? then Some(Test(r.name, Turned(o), [l.value]))
      else None
  }

  /** The one question a comparison, its negation or a list asks, when it is of that kind. */
  function AskedBy(e: Expr): Option<Asked> {
    match e
    case Binary(l, op, r) => ComparisonAsked(l, op, r)
    case Not(inner) =>
      if !inner.Binary? then None
      else
        (match ComparisonAsked(inner.left, inner.op, inner.right)
         case Some(t) => Some(t.(op := t.op.Negate()))
         case None => None)
    case InList(x, list, negated) =>
      var vs := LiteralsOf(list);
      if !x.Column? || list == [] || |vs| != |list| then None
      else Some(Test(x.name, if negated then F.NotIn else F.In, vs))
    case _ => None
  }

  lemma {:induction false} LiteralsAreFew(list: seq<Expr>)
    ensures |LiteralsOf(list)| <= |list|
    ensures |LiteralsOf(list)| == |list| <==> AllLiterals(list)
  {
    if list != [] {
      LiteralsAreFew(list[1..]);
      assert list == [list[0]] + list[1..];
    }
  }

  lemma {:induction false} MemberOfLiterals(sem: Semantics, x: Cell, list: seq<Expr>, row: Row)
    requires |LiteralsOf(list)| == |list|
    ensures x.Some? ==> Member(sem, x, list, row) == Some(x.value in LiteralsOf(list))
    ensures x.None? && list != [] ==> Member(sem, x, list, row) == None
  {
    if list != [] {
      LiteralsAreFew(list[1..]);
      MemberOfLiterals(sem, x, list[1..], row);
      assert LiteralsOf(list) == [list[0].value] + LiteralsOf(list[1..]);
    }
  }

  lemma ComparisonMeaning(sem: Semantics, l: Expr, op: BinaryOp, r: Expr, row: Row)
    requires ComparisonAsked(l, op, r).Some?
    ensures var t := ComparisonAsked(l, op, r).value;
      Truth(sem, Binary(l, op, r), row) == Verdict(t.op, CellOf(row, t.column), t.values)
  {
  }

  /** Under three-valued logic such an expression is true of exactly the rows that pass. */
  lemma AcceptsIffPasses(sem: Semantics, e: Expr, row: Row)
    requires AskedBy(e).Some?
    ensures Accepts(sem, e, row) <==> Passes(AskedBy(e).value, row)
  {
    match e
    case Binary(l, op, r) => ComparisonMeaning(sem, l, op, r, row);
    case Not(inner) =>
      ComparisonMeaning(sem, inner.left, inner.op, inner.right, row);
      var t := ComparisonAsked(inner.left, inner.op, inner.right).value;
      NegationComplements(t.op, CellOf(row, t.column), t.values);
    case InList(x, list, negated) =>
      var cell := CellOf(row, x.name);
      MemberOfLiterals(sem, cell, list, row);
      var member := Member(sem, cell, list, row);
      assert Truth(sem, e, row) == if negated then KleeneNot(member) else member;
  }

  // ---------------------------------------------------------------- what its filter keeps

  predicate IsOrder(op: BinaryOp) {
    op.Lt? || op.LtEq? || op.Gt? || op.GtEq?
  }

  /** `literal < column`, and the like, or its negation: the filter built from it compares the other way round. */
  predicate Backward(e: Expr) {
    match e
    case Binary(l, op, r) => IsOrder(op) && l.Literal? && r.Column?
    case Not(inner) => inner.Binary? && IsOrder(inner.op) && inner.left.Literal? && inner.right.Column?
    case _ => false
  }

  /** The filter asks what its expression asks, of the literals as text, but turned round when backward. */
  lemma ExtractedFilter(show: Show, e: Expr)
    requires AskedBy(e).Some?
    ensures var t := AskedBy(e).value;
      ExprToFilters(show, e) == [F.Filter(t.column, if Backward(e) then Turned(t.op) else t.op, ShowAll(show, t.values))]
  {
    var t := AskedBy(e).value;
    if !e.InList? {
      assert ShowAll(show, t.values) == [show(t.values[0])];
    }
  }

  /** Whatever the operator holds of against the first values, it holds of against the others. */
  predicate Covers(op: F.Operator, vs: seq<Rank>, ws: seq<Rank>)
    requires vs != [] && ws != []
  {
    match op
    case Eq => vs[0] == ws[0]
    case Ne => vs[0] == ws[0]
    case Lt => vs[0] <= ws[0]
    case Lte => vs[0] <= ws[0]
    case Gt => ws[0] <= vs[0]
    case Gte => ws[0] <= vs[0]
    case In => forall v :: v in vs ==> v in ws
    case NotIn => forall w :: w in ws ==> w in vs
  }

  /** A value that tells the two apart, when there is one. */
  ghost function Telling(op: F.Operator, vs: seq<Rank>, ws: seq<Rank>): Rank
    requires vs != [] && ws != [] && !Covers(op, vs, ws)
  {
    match op
    case In => (var v :| v in vs && v !in ws; v)
    case NotIn => (var w :| w in ws && w !in vs; w)
    case Eq => vs[0]
    case Lte => vs[0]
    case Gte => vs[0]
    case _ => ws[0]
  }

  /** Every row that passes a test is kept by a filter of the same operator exactly when its values cover the test's. */
  lemma KeepsPassingIff(casts: Casts, columns: seq<string>, t: Asked, g: ValuedFilter)
    requires g.field == t.column && t.column in columns && g.operator == t.op
    requires CastAll(casts, g.field, g.values).Ok?
    ensures Covers(t.op, t.values, ValuesOf(casts, g)) <==>
      forall row :: Passes(t, row) ==> Meets(casts, columns, row, g)
  {
    var ws := ValuesOf(casts, g);
    if !Covers(t.op, t.values, ws) {
      var x := Telling(t.op, t.values, ws);
      var row: Row := map[t.column := Some(x)];
      assert CellOf(row, t.column) == Some(x);
      assert Passes(t, row) && !Meets(casts, columns, row, g);
    }
  }

  /** Only passing rows are kept exactly when the test's values cover the filter's. */
  lemma KeepsOnlyPassingIff(casts: Casts, columns: seq<string>, t: Asked, g: ValuedFilter)
    requires g.field == t.column && t.column in columns && g.operator == t.op
    requires CastAll(casts, g.field, g.values).Ok?
    ensures Covers(t.op, ValuesOf(casts, g), t.values) <==>
      forall row :: Meets(casts, columns, row, g) ==> Passes(t, row)
  {
    var ws := ValuesOf(casts, g);
    if !Covers(t.op, ws, t.values) {
      var x := Telling(t.op, ws, t.values);
      var row: Row := map[t.column := Some(x)];
      assert CellOf(row, t.column) == Some(x);
      assert Meets(casts, columns, row, g) && !Passes(t, row);
    }
  }

  /** An order turned round refuses a row that passes, whatever its value is cast to. */
  lemma TurnedRefusesPassing(casts: Casts, columns: seq<string>, t: Asked, g: ValuedFilter)
    requires g.field == t.column && t.column in columns
    requires g.operator == Turned(t.op) && Turned(t.op) != t.op
    ensures exists row :: Passes(t, row) && !Meets(casts, columns, row, g)
  {
    var v, w := t.values[0], ValuesOf(casts, g)[0];
    var x := if t.op.Lt? || t.op.Lte? then (if v < w then v else w) - 1.0 else (if v < w then w else v) + 1.0;
    var row: Row := map[t.column := Some(x)];
    assert CellOf(row, t.column) == Some(x);
    assert Passes(t, row) && !Meets(casts, columns, row, g);
  }

  // ---------------------------------------------------------------- the classification fits the extraction

  ghost predicate FieldsAmong(filters: seq<ValuedFilter>, columns: seq<string>) {
    forall f :: f in filters ==> f.field in columns
  }

  /**
   * Of a conjunct that gives any filter at all, the classification tells exactly whether its filters
   * stay within the table's columns, and whether they stay within the partition columns.
   */
  lemma ClassificationFitsExtraction(show: Show, c: Expr, columns: seq<string>)
    requires ExprToFilters(show, c) != [] && !(c.Binary? && c.op.And?)
    ensures CanPushDown(columns, c) <==> FieldsAmong(ExprToFilters(show, c), columns)
    ensures IsPartitionFilter(c, columns) <==> FieldsAmong(ExprToFilters(show, c), columns)
  {
    var fs := ExprToFilters(show, c);
    assert fs[0] in fs;
    match c
    case InList(x, list, _) => LiteralsAreFew(list);
    case _ =>
  }

  lemma {:induction false} ConjunctsAreNotSplit(e: Expr)
    ensures forall c :: c in SplitConjunction(e) ==> !(c.Binary? && c.op.And?)
  {
    if e.Binary? && e.op.And? {
      ConjunctsAreNotSplit(e.left);
      ConjunctsAreNotSplit(e.right);
    }
  }

  lemma {:induction false} ExtractedFieldsAmong(show: Show, es: seq<Expr>, columns: seq<string>)
    requires forall c :: c in es ==> FieldsAmong(ExprToFilters(show, c), columns)
    ensures FieldsAmong(ExprsToFilters(show, es), columns)
  {
    if es != [] {
      assert es[0] in es;
      ExtractedFieldsAmong(show, es[1..], columns);
    }
  }

  lemma {:induction false} AllConjunctsAreNotSplit(filters: seq<Expr>)
    ensures forall c :: c in AllConjuncts(filters) ==> !(c.Binary? && c.op.And?)
  {
    if filters != [] {
      ConjunctsAreNotSplit(filters[0]);
      AllConjunctsAreNotSplit(filters[1..]);
    }
  }

  /**
   * All filters pushed to the scan name columns of the table, those pushed to listing partition columns:
   * a scan never fails for a pushed filter on a column it does not have.
   */
  lemma PushdownNamesRealColumns(show: Show, schema: seq<string>, partitionColumns: seq<string>, filters: seq<Expr>)
    ensures var (partition, all) := SplitScanPushdown(schema, partitionColumns, filters);
      && FieldsAmong(ExprsToFilters(show, all), schema)
      && FieldsAmong(ExprsToFilters(show, partition), partitionColumns)
  {
    var (partition, all) := SplitScanPushdown(schema, partitionColumns, filters);
    AllConjunctsAreNotSplit(filters);
    forall c | c in all ensures FieldsAmong(ExprToFilters(show, c), schema) {
      if ExprToFilters(show, c) != [] {
        ClassificationFitsExtraction(show, c, schema);
      }
    }
    forall c | c in partition ensures FieldsAmong(ExprToFilters(show, c), partitionColumns) {
      if ExprToFilters(show, c) != [] {
        ClassificationFitsExtraction(show, c, partitionColumns);
      }
    }
    ExtractedFieldsAmong(show, all, schema);
    ExtractedFieldsAmong(show, partition, partitionColumns);
  }

  /** A filter is exact when each conjunct, as it stands, equates a partition column of the table with a literal. */
  lemma ExactIff(show: Show, schema: seq<string>, partitionColumns: seq<string>, e: Expr)
    ensures FilterSupport(schema, partitionColumns, e).Exact? <==>
      forall c :: c in SplitConjunction(e) ==> EquatesPartition(show, schema, partitionColumns, c)
  {
    var conjuncts := SplitConjunction(e);
    assert conjuncts[0] in conjuncts;
    forall c | c in conjuncts
      ensures CanPushDown(schema, c) && IsExactPartitionEquality(c, partitionColumns) <==>
              EquatesPartition(show, schema, partitionColumns, c)
    {
    }
  }

  /** The filter this comparison becomes asks a partition column of the table to equal one value. */
  predicate EquatesPartition(show: Show, schema: seq<string>, partitionColumns: seq<string>, c: Expr) {
    c.Binary? &&
    var fs := ExprToFilters(show, c);
    && |fs| == 1 && fs[0].operator == F.Eq
    && fs[0].field in schema && fs[0].field in partitionColumns
    && !c.op.And?
  }

  // ---------------------------------------------------------------- the trip through text

  function ToTuples(filters: seq<ValuedFilter>): seq<(string, string, string)> {
    if filters == [] then [] else [F.ToTuple(filters[0])] + ToTuples(filters[1..])
  }

  function ReadTuple(t: (string, string, string)): Result<ValuedFilter> {
    match F.FromTuple(t)
    case Ok(f) => Ok(f)
    case Err => Err
  }

  function Prepend<T>(head: Result<T>, tail: Result<seq<T>>): Result<seq<T>> {
    if head.Ok? && tail.Ok? then Ok([head.value] + tail.value) else Err
  }

  function Both<T>(a: Result<seq<T>>, b: Result<seq<T>>): Result<seq<T>> {
    if a.Ok? && b.Ok? then Ok(a.value + b.value) else Err
  }

  /** The scan's options read every tuple back, and fail if one of them cannot be read. */
  function WithFilters(tuples: seq<(string, string, string)>): Result<seq<ValuedFilter>> {
    if tuples == [] then Ok([]) else Prepend(ReadTuple(tuples[0]), WithFilters(tuples[1..]))
  }

  /** Filters reach the scan unchanged exactly when each of them survives as text. */
  lemma {:induction false} FiltersArriveIff(filters: seq<ValuedFilter>)
    ensures WithFilters(ToTuples(filters)) == Ok(filters) <==> forall f :: f in filters ==> F.Portable(f)
  {
    if filters != [] {
      F.TupleRoundTripIff(filters[0]);
      FiltersArriveIff(filters[1..]);
      assert ToTuples(filters)[1..] == ToTuples(filters[1..]);
      assert filters == [filters[0]] + filters[1..];
      var head, tail := F.FromTuple(F.ToTuple(filters[0])), WithFilters(ToTuples(filters[1..]));
      if head.Ok? && tail.Ok? {
        assert ([head.value] + tail.value)[1..] == tail.value;
      }
    }
  }

  /** What arrives at the scan of the filters extracted from an expression. */
  function Arriving(show: Show, e: Expr): Result<seq<ValuedFilter>> {
    WithFilters(ToTuples(ExprToFilters(show, e)))
  }

  lemma PrependBoth<T>(head: Result<T>, tail: Result<seq<T>>, rest: Result<seq<T>>)
    ensures Prepend(head, Both(tail, rest)) == Both(Prepend(head, tail), rest)
  {
    if head.Ok? && tail.Ok? && rest.Ok? {
      assert [head.value] + (tail.value + rest.value) == ([head.value] + tail.value) + rest.value;
    }
  }

  lemma WithFiltersFirst(f: ValuedFilter, rest: seq<ValuedFilter>)
    ensures WithFilters(ToTuples([f] + rest)) == Prepend(ReadTuple(F.ToTuple(f)), WithFilters(ToTuples(rest)))
  {
    assert ([f] + rest)[1..] == rest;
    assert ToTuples([f] + rest) == [F.ToTuple(f)] + ToTuples(rest);
    assert ([F.ToTuple(f)] + ToTuples(rest))[1..] == ToTuples(rest);
  }

  lemma {:induction false} ArrivingAppends(a: seq<ValuedFilter>, b: seq<ValuedFilter>)
    ensures WithFilters(ToTuples(a + b)) == Both(WithFilters(ToTuples(a)), WithFilters(ToTuples(b)))
  {
    if a == [] {
      assert a + b == b;
      if WithFilters(ToTuples(b)).Ok? {
        assert [] + WithFilters(ToTuples(b)).value == WithFilters(ToTuples(b)).value;
      }
    } else {
      assert a == [a[0]] + a[1..] && a + b == [a[0]] + (a[1..] + b);
      WithFiltersFirst(a[0], a[1..]);
      WithFiltersFirst(a[0], a[1..] + b);
      ArrivingAppends(a[1..], b);
      PrependBoth(ReadTuple(F.ToTuple(a[0])), WithFilters(ToTuples(a[1..])), WithFilters(ToTuples(b)));
    }
  }

  /** The texts of the values that arrive for a test. */
  function TextsArriving(show: Show, t: Asked): seq<string> {
    if t.op.IsMultiValue() then Cleaned(ShowAll(show, t.values)) else ShowAll(show, t.values)
  }

  /** The one filter that arrives for a test, unless nothing is left of its list. */
  function FilterArriving(show: Show, t: Asked, turned: bool): Result<ValuedFilter> {
    var texts := TextsArriving(show, t);
    if texts == [] then Err
    else Ok(F.Filter(t.column, if turned then Turned(t.op) else t.op, texts))
  }

  lemma OneArrives(f: ValuedFilter)
    ensures var carried := ReadTuple(F.ToTuple(f));
      WithFilters(ToTuples([f])) == if carried.Ok? then Ok([carried.value]) else Err
  {
    WithFiltersFirst(f, []);
    assert [f] + [] == [f];
    var carried := ReadTuple(F.ToTuple(f));
    if carried.Ok? {
      assert [carried.value] + [] == [carried.value];
    }
  }

  lemma ShownArrives(show: Show, t: Asked, turned: bool)
    ensures var f: ValuedFilter := F.Filter(t.column, if turned then Turned(t.op) else t.op, ShowAll(show, t.values));
      t.op.IsMultiValue() || |t.values| == 1 ==> ReadTuple(F.ToTuple(f)) == FilterArriving(show, t, turned)
  {
    var f: ValuedFilter := F.Filter(t.column, if turned then Turned(t.op) else t.op, ShowAll(show, t.values));
    F.TupleCarries(f);
    if |t.values| == 1 {
      assert ShowAll(show, t.values) == [show(t.values[0])];
    }
  }

  /**
   * A comparison or list of literals arrives as one filter: a list with each text trimmed and the blank
   * ones gone. The scan's options fail if nothing is left of the list.
   */
  lemma TestArrives(show: Show, e: Expr)
    requires AskedBy(e).Some?
    ensures var arriving := FilterArriving(show, AskedBy(e).value, Backward(e));
      Arriving(show, e) == if arriving.Ok? then Ok([arriving.value]) else Err
  {
    ExtractedFilter(show, e);
    var t := AskedBy(e).value;
    OneArrives(F.Filter(t.column, if Backward(e) then Turned(t.op) else t.op, ShowAll(show, t.values)));
    ShownArrives(show, t, Backward(e));
  }

  // ---------------------------------------------------------------- which conjuncts are safe to push

  /** `Covers`, told from the texts that arrive: what each is cast to, and nothing else, is asked for. */
  predicate TextsCover(casts: Casts, t: Asked, texts: seq<string>)
    requires texts != []
  {
    var v, first := t.values[0], casts(t.column, texts[0]);
    match t.op
    case In => forall v :: v in t.values ==> exists text :: text in texts && casts(t.column, text) == Ok(v)
    case NotIn => forall text :: text in texts ==> casts(t.column, text).Ok? && casts(t.column, text).value in t.values
    case Eq => first == Ok(v)
    case Ne => first == Ok(v)
    case Lt => first.Ok? && v <= first.value
    case Lte => first.Ok? && v <= first.value
    case Gt => first.Ok? && first.value <= v
    case Gte => first.Ok? && first.value <= v
  }

  /** The texts that arrive can be cast, and cover the literals of the test. */
  predicate ArrivesCovering(casts: Casts, show: Show, t: Asked) {
    var texts := TextsArriving(show, t);
    && texts != []
    && (forall text :: text in texts ==> casts(t.column, text).Ok?)
    && TextsCover(casts, t, texts)
  }

  lemma TextsCoverIff(casts: Casts, t: Asked, texts: seq<string>)
    requires texts != [] && CastAll(casts, t.column, texts).Ok?
    ensures Covers(t.op, t.values, CastAll(casts, t.column, texts).value) <==> TextsCover(casts, t, texts)
  {
    var ws := CastAll(casts, t.column, texts).value;
    forall v ensures v in ws <==> exists text :: text in texts && casts(t.column, text) == Ok(v) {
      if v in ws {
        var i :| 0 <= i < |ws| && ws[i] == v;
        assert texts[i] in texts;
      }
      if text :| text in texts && casts(t.column, text) == Ok(v) {
        var i :| 0 <= i < |texts| && texts[i] == text;
        assert ws[i] == v;
      }
    }
    if t.op.NotIn? {
      forall text | text in texts ensures casts(t.column, text).Ok? && casts(t.column, text).value in ws {
        var i :| 0 <= i < |texts| && texts[i] == text;
        assert ws[i] == casts(t.column, text).value;
      }
    }
  }

  /** The two bounds can be cast, and the range between them has not shrunk, unless it was empty. */
  predicate RangeCovered(casts: Casts, show: Show, column: string, low: Rank, high: Rank) {
    var a, b := casts(column, show(low)), casts(column, show(high));
    && a.Ok? && b.Ok?
    && (low <= high ==> a.value <= low && high <= b.value)
  }

  predicate IsRange(e: Expr) {
    e.Between? && !e.negated && e.subject.Column? && e.low.Literal? && e.high.Literal?
  }

  /**
   * What a caller can check of an expression before pushing it: no comparison is backward, and the
   * literals, read back from their text, do not refuse more than before.
   */
  predicate SafeToPush(casts: Casts, show: Show, e: Expr) {
    match e
    case Binary(l, And, r) => SafeToPush(casts, show, l) && SafeToPush(casts, show, r)
    case Between(x, low, high, negated) =>
      IsRange(e) ==> RangeCovered(casts, show, x.name, low.value, high.value)
    case _ => AskedBy(e).Some? ==> !Backward(e) && ArrivesCovering(casts, show, AskedBy(e).value)
  }

  /** The filters that arrive can be applied, and keep every row the expression accepts. */
  ghost predicate ScanKeeps(sem: Semantics, casts: Casts, show: Show, columns: seq<string>, e: Expr) {
    && Arriving(show, e).Ok?
    && Castable(casts, columns, Arriving(show, e).value)
    && forall row :: Accepts(sem, e, row) ==> MeetsAll(casts, columns, row, Arriving(show, e).value)
  }

  lemma MeetsOne(casts: Casts, columns: seq<string>, row: Row, g: ValuedFilter)
    ensures MeetsAll(casts, columns, row, [g]) <==> Meets(casts, columns, row, g)
    ensures Castable(casts, columns, [g]) <==> (g.field in columns ==> CastAll(casts, g.field, g.values).Ok?)
  {
    assert g in [g];
  }

  lemma OneFilterKeepsIff(
    sem: Semantics, casts: Casts, show: Show, columns: seq<string>, e: Expr, g: ValuedFilter)
    requires AskedBy(e).Some? && Arriving(show, e) == Ok([g]) && g.field in columns
    ensures ScanKeeps(sem, casts, show, columns, e) <==> KeepsPassing(casts, columns, AskedBy(e).value, g)
  {
    forall row: Row ensures
      && (Accepts(sem, e, row) <==> Passes(AskedBy(e).value, row))
      && (MeetsAll(casts, columns, row, [g]) <==> Meets(casts, columns, row, g))
    {
      AcceptsIffPasses(sem, e, row);
      MeetsOne(casts, columns, row, g);
    }
    MeetsOne(casts, columns, map[], g);
  }

  ghost predicate KeepsPassing(casts: Casts, columns: seq<string>, t: Asked, g: ValuedFilter) {
    && CastAll(casts, g.field, g.values).Ok?
    && forall row :: Passes(t, row) ==> Meets(casts, columns, row, g)
  }

  lemma ArrivedKeepsPassingIff(casts: Casts, show: Show, columns: seq<string>, t: Asked, turned: bool)
    requires t.column in columns && (turned ==> Turned(t.op) != t.op)
    ensures var arriving := FilterArriving(show, t, turned);
      arriving.Ok? && KeepsPassing(casts, columns, t, arriving.value) <==>
      !turned && ArrivesCovering(casts, show, t)
  {
    var arriving := FilterArriving(show, t, turned);
    if arriving.Ok? {
      var g := arriving.value;
      if turned {
        TurnedRefusesPassing(casts, columns, t, g);
      } else if CastAll(casts, g.field, g.values).Ok? {
        TextsCoverIff(casts, t, g.values);
        KeepsPassingIff(casts, columns, t, g);
      }
    }
  }

  lemma BackwardTurns(e: Expr)
    requires AskedBy(e).Some? && Backward(e)
    ensures Turned(AskedBy(e).value.op) != AskedBy(e).value.op
  {
  }

  lemma SafeTest(casts: Casts, show: Show, e: Expr)
    requires AskedBy(e).Some?
    ensures SafeToPush(casts, show, e) <==> !Backward(e) && ArrivesCovering(casts, show, AskedBy(e).value)
  {
  }

  /**
   * A comparison, its negation or a list of literals loses no row on its way to the scan if and only if
   * it is not backward and its values, as they arrive, cover those it was written with.
   */
  lemma TestIsSafeIff(sem: Semantics, casts: Casts, show: Show, columns: seq<string>, e: Expr)
    requires AskedBy(e).Some? && AskedBy(e).value.column in columns
    ensures ScanKeeps(sem, casts, show, columns, e) <==> SafeToPush(casts, show, e)
  {
    var t, turned := AskedBy(e).value, Backward(e);
    SafeTest(casts, show, e);
    if turned {
      BackwardTurns(e);
    }
    TestArrives(show, e);
    ArrivedKeepsPassingIff(casts, show, columns, t, turned);
    var arriving := FilterArriving(show, t, turned);
    if arriving.Ok? {
      OneFilterKeepsIff(sem, casts, show, columns, e, arriving.value);
    }
  }

  lemma RangeArrives(show: Show, e: Expr)
    requires IsRange(e)
    ensures Arriving(show, e) == Ok(BetweenToFilters(show, e.subject, e.low, e.high, false))
  {
    FiltersArriveIff(ExprToFilters(show, e));
  }

  predicate InRange(row: Row, column: string, low: Rank, high: Rank) {
    var cell := CellOf(row, column);
    cell.Some? && low <= cell.value <= high
  }

  lemma RangeWithinIff(column: string, low: Rank, high: Rank, a: Rank, b: Rank)
    ensures (low <= high ==> a <= low && high <= b) <==>
      forall row :: InRange(row, column, low, high) ==> InRange(row, column, a, b)
  {
    if low <= high && !(a <= low && high <= b) {
      var x := if a <= low then high else low;
      var row: Row := map[column := Some(x)];
      assert CellOf(row, column) == Some(x);
      assert InRange(row, column, low, high) && !InRange(row, column, a, b);
    }
  }

  lemma AcceptsRangeIff(sem: Semantics, e: Expr, row: Row)
    requires IsRange(e)
    ensures Accepts(sem, e, row) <==> InRange(row, e.subject.name, e.low.value, e.high.value)
  {
  }

  lemma RangeFiltersKeep(casts: Casts, show: Show, columns: seq<string>, e: Expr, row: Row)
    requires IsRange(e) && e.subject.name in columns
    ensures var a, b := casts(e.subject.name, show(e.low.value)), casts(e.subject.name, show(e.high.value));
      var fs := BetweenToFilters(show, e.subject, e.low, e.high, false);
      && (Castable(casts, columns, fs) <==> a.Ok? && b.Ok?)
      && (a.Ok? && b.Ok? ==>
          (MeetsAll(casts, columns, row, fs) <==> InRange(row, e.subject.name, a.value, b.value)))
  {
    var fs := BetweenToFilters(show, e.subject, e.low, e.high, false);
    assert fs[0] in fs && fs[1] in fs;
    assert fs[0].values[1..] == [] && fs[1].values[1..] == [];
  }

  /** A range loses no row if and only if the bounds that arrive do not shrink it, or it was empty. */
  lemma RangeIsSafeIff(sem: Semantics, casts: Casts, show: Show, columns: seq<string>, e: Expr)
    requires IsRange(e) && e.subject.name in columns
    ensures ScanKeeps(sem, casts, show, columns, e) <==> SafeToPush(casts, show, e)
  {
    var (column, low, high) := (e.subject.name, e.low.value, e.high.value);
    var fs := BetweenToFilters(show, e.subject, e.low, e.high, false);
    RangeArrives(show, e);
    var a, b := casts(column, show(low)), casts(column, show(high));
    RangeFiltersKeep(casts, show, columns, e, map[]);
    if a.Ok? && b.Ok? {
      RangeWithinIff(column, low, high, a.value, b.value);
      forall row: Row ensures
        && (Accepts(sem, e, row) <==> InRange(row, column, low, high))
        && (MeetsAll(casts, columns, row, fs) <==> InRange(row, column, a.value, b.value))
      {
        AcceptsRangeIff(sem, e, row);
        RangeFiltersKeep(casts, show, columns, e, row);
      }
    }
  }

  lemma NothingExtracted(show: Show, e: Expr)
    requires AskedBy(e).None? && !IsRange(e) && !(e.Binary? && e.op.And?)
    ensures ExprToFilters(show, e) == []
  {
  }

  /**
   * A conjunct that gives any filters loses no row on its way to the scan if and only if it is safe to
   * push, whatever the literals' texts are and however they are cast.
   */
  lemma ConjunctIsSafeIff(sem: Semantics, casts: Casts, show: Show, columns: seq<string>, e: Expr)
    requires ExprToFilters(show, e) != [] && !(e.Binary? && e.op.And?)
    requires FieldsAmong(ExprToFilters(show, e), columns)
    ensures ScanKeeps(sem, casts, show, columns, e) <==> SafeToPush(casts, show, e)
  {
    var fs := ExprToFilters(show, e);
    assert fs[0] in fs;
    if AskedBy(e).Some? {
      ExtractedFilter(show, e);
      TestIsSafeIff(sem, casts, show, columns, e);
    } else {
      if !IsRange(e) {
        NothingExtracted(show, e);
      }
      RangeIsSafeIff(sem, casts, show, columns, e);
    }
  }

  /** The filters that arrive can be applied, and keep exactly the rows the expression accepts. */
  ghost predicate ScanMeans(sem: Semantics, casts: Casts, show: Show, columns: seq<string>, e: Expr) {
    && Arriving(show, e).Ok?
    && Castable(casts, columns, Arriving(show, e).value)
    && forall row :: Accepts(sem, e, row) <==> MeetsAll(casts, columns, row, Arriving(show, e).value)
  }

  lemma ArrivedMeansTestIff(casts: Casts, show: Show, columns: seq<string>, t: Asked)
    requires t.column in columns && ArrivesCovering(casts, show, t)
    ensures FilterArriving(show, t, false).Ok?
    ensures var g := FilterArriving(show, t, false).value;
      (forall row :: Meets(casts, columns, row, g) ==> Passes(t, row)) <==>
      Covers(t.op, CastAll(casts, t.column, TextsArriving(show, t)).value, t.values)
  {
    KeepsOnlyPassingIff(casts, columns, t, FilterArriving(show, t, false).value);
  }

  /** The texts that arrive are cast to the literals: to all of a list's, and to nothing else. */
  predicate TextsMean(casts: Casts, t: Asked, texts: seq<string>)
    requires texts != []
  {
    if t.op.IsMultiValue() then
      && (forall v :: v in t.values ==> exists text :: text in texts && casts(t.column, text) == Ok(v))
      && (forall text :: text in texts ==> casts(t.column, text).Ok? && casts(t.column, text).value in t.values)
    else casts(t.column, texts[0]) == Ok(t.values[0])
  }

  lemma TextsMeanIff(casts: Casts, t: Asked, texts: seq<string>)
    requires texts != [] && CastAll(casts, t.column, texts).Ok?
    ensures var ws := CastAll(casts, t.column, texts).value;
      TextsMean(casts, t, texts) <==> Covers(t.op, t.values, ws) && Covers(t.op, ws, t.values)
  {
    if t.op.IsMultiValue() {
      TextsCoverIff(casts, t.(op := F.In), texts);
      TextsCoverIff(casts, t.(op := F.NotIn), texts);
    }
  }

  /**
   * The filter that arrives of a comparison or list accepts exactly the rows its expression accepts, if
   * and only if it is not backward and the texts that arrive are all cast, and cast to the very literals.
   */
  lemma TestMeansFilterIff(sem: Semantics, casts: Casts, show: Show, columns: seq<string>, e: Expr)
    requires AskedBy(e).Some? && AskedBy(e).value.column in columns
    ensures var t := AskedBy(e).value;
      var texts := TextsArriving(show, t);
      ScanMeans(sem, casts, show, columns, e) <==>
      && !Backward(e) && texts != []
      && (forall text :: text in texts ==> casts(t.column, text).Ok?)
      && TextsMean(casts, t, texts)
  {
    var t := AskedBy(e).value;
    SafeTest(casts, show, e);
    TestIsSafeIff(sem, casts, show, columns, e);
    MeansWhenSafeIff(sem, casts, show, columns, e);
    var texts := TextsArriving(show, t);
    if texts != [] && CastAll(casts, t.column, texts).Ok? {
      TextsCoverIff(casts, t, texts);
      TextsMeanIff(casts, t, texts);
    }
  }

  lemma MeansWhenSafeIff(sem: Semantics, casts: Casts, show: Show, columns: seq<string>, e: Expr)
    requires AskedBy(e).Some? && AskedBy(e).value.column in columns
    ensures var t := AskedBy(e).value;
      ScanMeans(sem, casts, show, columns, e) <==>
      && SafeToPush(casts, show, e)
      && Covers(t.op, CastAll(casts, t.column, TextsArriving(show, t)).value, t.values)
  {
    var t := AskedBy(e).value;
    SafeTest(casts, show, e);
    TestIsSafeIff(sem, casts, show, columns, e);
    if SafeToPush(casts, show, e) {
      ArrivedMeansTestIff(casts, show, columns, t);
      TestArrives(show, e);
      var g := FilterArriving(show, t, false).value;
      forall row: Row ensures
        && (Accepts(sem, e, row) <==> Passes(t, row))
        && (MeetsAll(casts, columns, row, [g]) <==> Meets(casts, columns, row, g))
      {
        AcceptsIffPasses(sem, e, row);
        MeetsOne(casts, columns, row, g);
      }
    }
  }

  // ---------------------------------------------------------------- the whole of pushdown

  lemma MeetsAppend(casts: Casts, columns: seq<string>, row: Row, a: seq<ValuedFilter>, b: seq<ValuedFilter>)
    ensures MeetsAll(casts, columns, row, a + b) <==> MeetsAll(casts, columns, row, a) && MeetsAll(casts, columns, row, b)
    ensures Castable(casts, columns, a + b) <==> Castable(casts, columns, a) && Castable(casts, columns, b)
  {
    assert forall f :: f in a + b <==> f in a || f in b;
  }

  /** What arrives can be applied, and keeps the row. */
  predicate Kept(casts: Casts, columns: seq<string>, row: Row, arriving: Result<seq<ValuedFilter>>) {
    && arriving.Ok?
    && Castable(casts, columns, arriving.value)
    && MeetsAll(casts, columns, row, arriving.value)
  }

  lemma KeptBoth(
    casts: Casts, columns: seq<string>, row: Row, a: Result<seq<ValuedFilter>>, b: Result<seq<ValuedFilter>>)
    requires Kept(casts, columns, row, a) && Kept(casts, columns, row, b)
    ensures Kept(casts, columns, row, Both(a, b))
  {
    MeetsAppend(casts, columns, row, a.value, b.value);
  }

  lemma SafeConjunctArrives(casts: Casts, show: Show, e: Expr)
    requires SafeToPush(casts, show, e) && !(e.Binary? && e.op.And?)
    ensures Arriving(show, e).Ok?
    ensures forall f, columns :: f in Arriving(show, e).value && f.field in columns ==>
      FieldsAmong(ExprToFilters(show, e), columns)
  {
    if AskedBy(e).Some? {
      SafeTest(casts, show, e);
      TestArrives(show, e);
      ExtractedFilter(show, e);
    } else if IsRange(e) {
      RangeArrives(show, e);
    } else {
      NothingExtracted(show, e);
    }
  }

  /** A row that a safe expression accepts is kept by the filters that arrive for it. */
  lemma {:induction false} SafeFiltersKeepAccepted(
    sem: Semantics, casts: Casts, show: Show, columns: seq<string>, e: Expr, row: Row)
    requires SafeToPush(casts, show, e) && Accepts(sem, e, row)
    ensures Kept(casts, columns, row, Arriving(show, e))
  {
    if e.Binary? && e.op.And? {
      KleeneAndIsTrueIff(Truth(sem, e.left, row), Truth(sem, e.right, row));
      SafeFiltersKeepAccepted(sem, casts, show, columns, e.left, row);
      SafeFiltersKeepAccepted(sem, casts, show, columns, e.right, row);
      KeptBoth(casts, columns, row, Arriving(show, e.left), Arriving(show, e.right));
      ArrivingAppends(ExprToFilters(show, e.left), ExprToFilters(show, e.right));
    } else {
      SafeConjunctArrives(casts, show, e);
      if f :| f in Arriving(show, e).value && f.field in columns {
        ConjunctIsSafeIff(sem, casts, show, columns, e);
      }
    }
  }

  lemma {:induction false} SafeFiltersOfAllKeepAccepted(
    sem: Semantics, casts: Casts, show: Show, columns: seq<string>, es: seq<Expr>, row: Row)
    requires AcceptsAll(sem, es, row) && forall e :: e in es ==> SafeToPush(casts, show, e)
    ensures Kept(casts, columns, row, WithFilters(ToTuples(ExprsToFilters(show, es))))
  {
    if es != [] {
      assert es[0] in es;
      SafeFiltersKeepAccepted(sem, casts, show, columns, es[0], row);
      SafeFiltersOfAllKeepAccepted(sem, casts, show, columns, es[1..], row);
      ArrivingAppends(ExprToFilters(show, es[0]), ExprsToFilters(show, es[1..]));
      KeptBoth(
        casts, columns, row, Arriving(show, es[0]), WithFilters(ToTuples(ExprsToFilters(show, es[1..]))));
    }
  }

  /**
   * From the engine's filters to the rows of the scan: if every pushed conjunct is safe to push, the
   * filters that arrive can be applied and keep every row the engine's filters accept.
   */
  lemma ScanKeepsAcceptedRows(
    sem: Semantics, casts: Casts, show: Show, schema: seq<string>, partitionColumns: seq<string>,
    columns: seq<string>, filters: seq<Expr>, row: Row)
    requires AcceptsAll(sem, filters, row)
    requires forall e :: e in SplitScanPushdown(schema, partitionColumns, filters).1 ==> SafeToPush(casts, show, e)
    ensures var pushed := SplitScanPushdown(schema, partitionColumns, filters).1;
      Kept(casts, columns, row, WithFilters(ToTuples(ExprsToFilters(show, pushed))))
  {
    PushedConjunctsAccept(sem, schema, partitionColumns, filters, row);
    SafeFiltersOfAllKeepAccepted(
      sem, casts, show, columns, SplitScanPushdown(schema, partitionColumns, filters).1, row);
  }

  // ---------------------------------------------------------------- exact filters

  /** Casting the text of the literal gives the literal back. */
  predicate ReadsBack(casts: Casts, show: Show, c: Expr) {
    AskedBy(c).Some? ==>
      var t := AskedBy(c).value;
      casts(t.column, show(t.values[0])) == Ok(t.values[0])
  }

  /** An equality with a partition column means its filter exactly when its literal reads back as itself. */
  lemma EqualityMeansFilterIff(
    sem: Semantics, casts: Casts, show: Show, columns: seq<string>, c: Expr, partitionColumns: seq<string>)
    requires IsExactPartitionEquality(c, partitionColumns)
    requires forall p :: p in partitionColumns ==> p in columns
    ensures Arriving(show, c) == Ok(ExprToFilters(show, c))
    ensures ScanMeans(sem, casts, show, columns, c) <==> ReadsBack(casts, show, c)
  {
    var t := AskedBy(c).value;
    assert t == Test(t.column, F.Eq, [t.values[0]]);
    TestArrives(show, c);
    ExtractedFilter(show, c);
    TestMeansFilterIff(sem, casts, show, columns, c);
    assert ShowAll(show, t.values) == [show(t.values[0])] && ShowAll(show, t.values)[1..] == [];
  }

  ghost predicate Equalities(schema: seq<string>, partitionColumns: seq<string>, es: seq<Expr>) {
    forall e :: e in es ==> CanPushDown(schema, e) && IsExactPartitionEquality(e, partitionColumns)
  }

  /** Equalities with partition columns are pushed to listing, all of them and in their order. */
  lemma {:induction false} EqualitiesAreAllPushed(schema: seq<string>, partitionColumns: seq<string>, es: seq<Expr>)
    requires Equalities(schema, partitionColumns, es)
    ensures PartitionOnly(Pushable(schema, es), partitionColumns) == es
  {
    if es != [] {
      assert es[0] in es;
      EqualitiesAreAllPushed(schema, partitionColumns, es[1..]);
      assert es == [es[0]] + es[1..];
      assert Pushable(schema, es) == [es[0]] + Pushable(schema, es[1..]);
      assert Pushable(schema, es)[1..] == Pushable(schema, es[1..]);
    }
  }

  lemma {:induction false} EqualitiesArrive(
    show: Show, schema: seq<string>, partitionColumns: seq<string>, es: seq<Expr>)
    requires Equalities(schema, partitionColumns, es)
    ensures WithFilters(ToTuples(ExprsToFilters(show, es))) == Ok(ExprsToFilters(show, es))
  {
    if es != [] {
      assert es[0] in es;
      ExtractedFilter(show, es[0]);
      FiltersArriveIff(ExprToFilters(show, es[0]));
      EqualitiesArrive(show, schema, partitionColumns, es[1..]);
      ArrivingAppends(ExprToFilters(show, es[0]), ExprsToFilters(show, es[1..]));
    }
  }

  lemma {:induction false} EqualitiesMeanFilters(
    sem: Semantics, casts: Casts, show: Show, columns: seq<string>, schema: seq<string>, es: seq<Expr>,
    partitionColumns: seq<string>, row: Row)
    requires Equalities(schema, partitionColumns, es) && forall e :: e in es ==> ReadsBack(casts, show, e)
    requires forall p :: p in partitionColumns ==> p in columns
    ensures Castable(casts, columns, ExprsToFilters(show, es))
    ensures AcceptsAll(sem, es, row) <==> MeetsAll(casts, columns, row, ExprsToFilters(show, es))
  {
    if es != [] {
      assert es[0] in es;
      EqualityMeansFilterIff(sem, casts, show, columns, es[0], partitionColumns);
      EqualitiesMeanFilters(sem, casts, show, columns, schema, es[1..], partitionColumns, row);
      AcceptsAppend(sem, [es[0]], es[1..], row);
      assert es == [es[0]] + es[1..];
      MeetsAppend(casts, columns, row, ExprToFilters(show, es[0]), ExprsToFilters(show, es[1..]));
    }
  }

  lemma HasMember(es: seq<Expr>)
    ensures es == [] || exists e :: e in es
  {
    if es != [] {
      assert es[0] in es;
    }
  }

  lemma ExactIsEqualities(schema: seq<string>, partitionColumns: seq<string>, e: Expr)
    requires FilterSupport(schema, partitionColumns, e).Exact?
    ensures Equalities(schema, partitionColumns, SplitConjunction(e))
    ensures SplitScanPushdown(schema, partitionColumns, [e]).0 == SplitConjunction(e)
  {
    assert AllConjuncts([e]) == SplitConjunction(e);
    EqualitiesAreAllPushed(schema, partitionColumns, SplitConjunction(e));
  }

  /**
   * A filter reported exact is pushed to listing whole: it is true of a row exactly when all the
   * expressions pushed there are, it sees only partition columns, and its filters arrive as they were
   * extracted. The unsupported filters are those of which nothing is pushed.
   */
  lemma ExactIsPushedWhole(
    sem: Semantics, show: Show, schema: seq<string>, e: Expr, partitionColumns: seq<string>, row: Row, other: Row)
    ensures var (partition, all) := SplitScanPushdown(schema, partitionColumns, [e]);
      && (FilterSupport(schema, partitionColumns, e).Exact? ==>
          && (Accepts(sem, e, row) <==> AcceptsAll(sem, partition, row))
          && WithFilters(ToTuples(ExprsToFilters(show, partition))) == Ok(ExprsToFilters(show, partition))
          && (AgreeOn(partitionColumns, row, other) ==> (Accepts(sem, e, row) <==> Accepts(sem, e, other))))
      && (FilterSupport(schema, partitionColumns, e).Unsupported? <==> all == [])
      && (all == [] ==> partition == [])
  {
    assert AllConjuncts([e]) == SplitConjunction(e);
    var conjuncts := SplitConjunction(e);
    if FilterSupport(schema, partitionColumns, e).Exact? {
      ExactIsEqualities(schema, partitionColumns, e);
      ConjunctsMeanFilter(sem, e, row);
      EqualitiesArrive(show, schema, partitionColumns, conjuncts);
      if AgreeOn(partitionColumns, row, other) {
        ConjunctsMeanFilter(sem, e, other);
        forall c | c in conjuncts ensures Accepts(sem, c, row) <==> Accepts(sem, c, other) {
          PartitionFiltersSeeOnlyPartitions(sem, c, partitionColumns, row, other);
        }
      }
    }
    HasMember(Pushable(schema, conjuncts));
  }

  /**
   * Where its literals read back, a filter reported exact is equivalent, row by row, to the partition
   * filters it is pushed as, so the engine may drop it.
   */
  lemma ExactMeansExact(
    sem: Semantics, casts: Casts, show: Show, columns: seq<string>, schema: seq<string>, e: Expr,
    partitionColumns: seq<string>, row: Row)
    requires FilterSupport(schema, partitionColumns, e).Exact?
    requires forall p :: p in partitionColumns ==> p in columns
    requires forall c :: c in SplitConjunction(e) ==> ReadsBack(casts, show, c)
    ensures var filters := ExprsToFilters(show, SplitScanPushdown(schema, partitionColumns, [e]).0);
      && Castable(casts, columns, filters)
      && (Accepts(sem, e, row) <==> MeetsAll(casts, columns, row, filters))
  {
    ExactIsEqualities(schema, partitionColumns, e);
    ConjunctsMeanFilter(sem, e, row);
    EqualitiesMeanFilters(sem, casts, show, columns, schema, SplitConjunction(e), partitionColumns, row);
  }
}
