/** Row masks: what a list of filters keeps of a batch, nulls included (expr/filter.rs). */
module RowMasks {
  import opened Wrappers
  import opened Orders
  import opened Filters

  type Cell = Option<Rank>
  type Row = map<string, Cell>

  /** A batch: named columns, and rows of cells. */
  datatype Batch = Batch(columns: seq<string>, rows: seq<Row>)

  function CellOf(row: Row, column: string): Cell {
    if column in row then row[column] else None
  }

  /** One entry of a boolean array: present or null. */
  type Flag = Option<bool>

  type Mask = seq<Flag>

  /** How the text of a value is cast to the type of a column, when it can be. */
  type Casts = (string, string) -> Result<Rank>

  // ---------------------------------------------------------------- boolean kernels

  /** Conjunction and disjunction that are null when either side is. */
  function And(a: Flag, b: Flag): Flag {
    if a.None? || b.None? then None else Some(a.value && b.value)
  }

  function Or(a: Flag, b: Flag): Flag {
    if a.None? || b.None? then None else Some(a.value || b.value)
  }

  function CompareCell(op: Operator, cell: Cell, v: Rank): Flag {
    match cell
    case None => None
    case Some(x) => Some(op.Holds(x, [v]))
  }

  function CompareColumn(op: Operator, cells: seq<Cell>, v: Rank): Mask {
    seq(|cells|, i requires 0 <= i < |cells| => CompareCell(op, cells[i], v))
  }

  function Zip(f: (Flag, Flag) -> Flag, a: Mask, b: Mask): Mask
    requires |a| == |b|
  {
    seq(|a|, i requires 0 <= i < |a| => f(a[i], b[i]))
  }

  // ---------------------------------------------------------------- one filter

  /** What a filter says of a cell: nothing about a null, and otherwise whether its operator holds. */
  function Verdict(op: Operator, cell: Cell, values: seq<Rank>): Flag
    requires values != []
  {
    match cell
    case None => None
    case Some(x) => Some(op.Holds(x, values))
  }

  lemma VerdictStep(cell: Cell, values: seq<Rank>, v: Rank)
    requires values != []
    ensures Verdict(In, cell, values + [v]) == Or(Verdict(In, cell, values), CompareCell(Eq, cell, v))
    ensures Verdict(NotIn, cell, values + [v]) == And(Verdict(NotIn, cell, values), CompareCell(Ne, cell, v))
  {
  }

  method ApplyComparison(op: Operator, cells: seq<Cell>, values: seq<Rank>) returns (mask: Mask)
    requires values != []
    ensures |mask| == |cells|
    ensures forall i :: 0 <= i < |cells| ==> mask[i] == Verdict(op, cells[i], values)
  {
    match op {
      case In =>
        mask := CompareColumn(Eq, cells, values[0]);
        for j := 1 to |values|
          invariant |mask| == |cells|
          invariant forall i :: 0 <= i < |cells| ==> mask[i] == Verdict(In, cells[i], values[..j])
        {
          assert values[..j + 1] == values[..j] + [values[j]];
          var next := CompareColumn(Eq, cells, values[j]);
          forall i | 0 <= i < |cells|
            ensures Or(mask[i], next[i]) == Verdict(In, cells[i], values[..j + 1])
          {
            VerdictStep(cells[i], values[..j], values[j]);
          }
          mask := Zip(Or, mask, next);
        }
        assert values[..|values|] == values;
      case NotIn =>
        mask := CompareColumn(Ne, cells, values[0]);
        for j := 1 to |values|
          invariant |mask| == |cells|
          invariant forall i :: 0 <= i < |cells| ==> mask[i] == Verdict(NotIn, cells[i], values[..j])
        {
          assert values[..j + 1] == values[..j] + [values[j]];
          var next := CompareColumn(Ne, cells, values[j]);
          forall i | 0 <= i < |cells|
            ensures And(mask[i], next[i]) == Verdict(NotIn, cells[i], values[..j + 1])
          {
            VerdictStep(cells[i], values[..j], values[j]);
          }
          mask := Zip(And, mask, next);
        }
        assert values[..|values|] == values;
      case _ =>
        mask := CompareColumn(op, cells, values[0]);
    }
  }

  /** A filter and its negation disagree on every value, and neither speaks of a null. */
  lemma NegationComplements(op: Operator, cell: Cell, values: seq<Rank>)
    requires values != []
    ensures cell.None? ==> Verdict(op, cell, values) == Verdict(op.Negate(), cell, values) == None
    ensures cell.Some? ==>
      (Verdict(op, cell, values) == Some(true) <==> Verdict(op.Negate(), cell, values) == Some(false))
    ensures cell.Some? ==>
      (Verdict(op, cell, values) == Some(false) <==> Verdict(op.Negate(), cell, values) == Some(true))
    ensures op.Negate().Negate() == op
  {
  }

  // ---------------------------------------------------------------- a list of filters

  /** A filter that passed the check on how many values its operator takes. */
  type ValuedFilter = f: Filter | f.values != [] witness Filter("", Eq, [""])

  function CastAll(casts: Casts, field: string, values: seq<string>): (r: Result<seq<Rank>>)
    ensures r.Ok? ==> |r.value| == |values|
    ensures r.Ok? ==> forall i :: 0 <= i < |values| ==> casts(field, values[i]) == Ok(r.value[i])
    ensures r.Err? <==> exists v :: v in values && casts(field, v).Err?
  {
    if values == [] then Ok([])
    else
      match (casts(field, values[0]), CastAll(casts, field, values[1..]))
      case (Ok(v), Ok(vs)) => Ok([v] + vs)
      case _ => Err
  }

  /** A filter's values in its column's type; of no consequence when one of them cannot be cast. */
  function ValuesOf(casts: Casts, f: ValuedFilter): (values: seq<Rank>)
    ensures values != []
  {
    match CastAll(casts, f.field, f.values)
    case Ok(vs) => vs
    case Err => [0.0]
  }

  predicate Castable(casts: Casts, columns: seq<string>, filters: seq<ValuedFilter>) {
    forall f :: f in filters && f.field in columns ==> CastAll(casts, f.field, f.values).Ok?
  }

  /** A row meets a filter when the column is absent, or the operator holds of a cell that is present. */
  predicate Meets(casts: Casts, columns: seq<string>, row: Row, f: ValuedFilter) {
    f.field in columns ==>
      var cell := CellOf(row, f.field);
      cell.Some? && f.operator.Holds(cell.value, ValuesOf(casts, f))
  }

  predicate MeetsAll(casts: Casts, columns: seq<string>, row: Row, filters: seq<ValuedFilter>) {
    forall f :: f in filters ==> Meets(casts, columns, row, f)
  }

  /** A filtered column is null in this row. */
  predicate SeesNull(columns: seq<string>, row: Row, filters: seq<ValuedFilter>) {
    exists f :: f in filters && f.field in columns && CellOf(row, f.field).None?
  }

  /** Every value of every filter on a column of the batch can be cast. */
  predicate EveryTextCasts(casts: Casts, columns: seq<string>, filters: seq<ValuedFilter>) {
    forall f, text :: f in filters && f.field in columns && text in f.values ==> casts(f.field, text).Ok?
  }

  /** What a filter asks of a value, told from its texts: a list wants some text, or no text, to be cast to it. */
  predicate Satisfies(casts: Casts, f: ValuedFilter, x: Rank) {
    var v := casts(f.field, f.values[0]);
    match f.operator
    case In => exists text :: text in f.values && casts(f.field, text) == Ok(x)
    case NotIn => forall text :: text in f.values ==> casts(f.field, text) != Ok(x)
    case Eq => v.Ok? && x == v.value
    case Ne => v.Ok? && x != v.value
    case Lt => v.Ok? && x < v.value
    case Lte => v.Ok? && x <= v.value
    case Gt => v.Ok? && x > v.value
    case Gte => v.Ok? && x >= v.value
  }

  lemma CastableIff(casts: Casts, columns: seq<string>, filters: seq<ValuedFilter>)
    ensures Castable(casts, columns, filters) <==> EveryTextCasts(casts, columns, filters)
  {
  }

  /** A row meets a filter on one of its columns exactly when it has a value there that satisfies the filter's texts. */
  lemma MeetsIff(casts: Casts, columns: seq<string>, row: Row, f: ValuedFilter)
    requires f.field in columns && CastAll(casts, f.field, f.values).Ok?
    ensures Meets(casts, columns, row, f) <==>
      CellOf(row, f.field).Some? && Satisfies(casts, f, CellOf(row, f.field).value)
  {
    var cell, values := CellOf(row, f.field), ValuesOf(casts, f);
    if cell.Some? {
      if cell.value in values {
        var i :| 0 <= i < |values| && values[i] == cell.value;
        assert f.values[i] in f.values;
      }
      if text :| text in f.values && casts(f.field, text) == Ok(cell.value) {
        var i :| 0 <= i < |f.values| && f.values[i] == text;
        assert values[i] == cell.value;
      }
    }
  }

  /** On each filtered column of the batch the row has a value, and it satisfies the filter's texts. */
  predicate RowSatisfies(casts: Casts, columns: seq<string>, row: Row, filters: seq<ValuedFilter>) {
    forall f :: f in filters && f.field in columns ==>
      CellOf(row, f.field).Some? && Satisfies(casts, f, CellOf(row, f.field).value)
  }

  lemma MeetsAllIff(casts: Casts, columns: seq<string>, row: Row, filters: seq<ValuedFilter>)
    requires Castable(casts, columns, filters)
    ensures MeetsAll(casts, columns, row, filters) <==> RowSatisfies(casts, columns, row, filters)
  {
    forall f | f in filters && f.field in columns
      ensures Meets(casts, columns, row, f) <==>
        CellOf(row, f.field).Some? && Satisfies(casts, f, CellOf(row, f.field).value)
    {
      MeetsIff(casts, columns, row, f);
    }
  }

  function ColumnOf(b: Batch, field: string): (cells: seq<Cell>)
    ensures |cells| == |b.rows|
  {
    seq(|b.rows|, i requires 0 <= i < |b.rows| => CellOf(b.rows[i], field))
  }

  /** What the mask says of a row: null when it sees a null, else whether it meets every filter. */
  function RowFlag(casts: Casts, columns: seq<string>, row: Row, filters: seq<ValuedFilter>): Flag {
    if SeesNull(columns, row, filters) then None else Some(MeetsAll(casts, columns, row, filters))
  }

  lemma RowFlagStep(casts: Casts, columns: seq<string>, row: Row, filters: seq<ValuedFilter>, f: ValuedFilter)
    ensures var before, after := RowFlag(casts, columns, row, filters), RowFlag(casts, columns, row, filters + [f]);
      if f.field in columns then
        after == And(before, Verdict(f.operator, CellOf(row, f.field), ValuesOf(casts, f)))
      else after == before
    ensures (forall g :: g in filters ==> g.field !in columns) ==>
      RowFlag(casts, columns, row, filters) == Some(true)
  {
    assert f in filters + [f];
    assert forall g :: g in filters + [f] <==> g in filters || g == f;
    assert SeesNull(columns, row, filters + [f]) <==>
      SeesNull(columns, row, filters) || (f.field in columns && CellOf(row, f.field).None?) by {
      if SeesNull(columns, row, filters) {
        var g :| g in filters && g.field in columns && CellOf(row, g.field).None?;
        assert g in filters + [f];
      }
    }
    assert MeetsAll(casts, columns, row, filters + [f]) <==>
      MeetsAll(casts, columns, row, filters) && Meets(casts, columns, row, f);
  }

  /** The mask of a batch, or an error when a value cannot be cast to its column's type. */
  method FiltersToRowMask(filters: seq<ValuedFilter>, b: Batch, casts: Casts) returns (r: Result<Mask>)
    ensures r.Ok? <==> Castable(casts, b.columns, filters)
    ensures r.Ok? ==> |r.value| == |b.rows|
    ensures r.Ok? ==> forall i :: 0 <= i < |b.rows| ==>
      r.value[i] == RowFlag(casts, b.columns, b.rows[i], filters)
    ensures r.Ok? <==> EveryTextCasts(casts, b.columns, filters)
    ensures r.Ok? ==> forall i :: 0 <= i < |b.rows| ==>
      && (r.value[i].None? <==> exists f :: f in filters && f.field in b.columns && CellOf(b.rows[i], f.field).None?)
      && (r.value[i] == Some(true) <==> RowSatisfies(casts, b.columns, b.rows[i], filters))
  {
    CastableIff(casts, b.columns, filters);
    var mask: Option<Mask> := None;
    for k := 0 to |filters|
      invariant Castable(casts, b.columns, filters[..k])
      invariant mask.Some? ==> |mask.value| == |b.rows|
      invariant mask.None? ==> forall f :: f in filters[..k] ==> f.field !in b.columns
      invariant mask.Some? ==> forall i :: 0 <= i < |b.rows| ==>
        mask.value[i] == RowFlag(casts, b.columns, b.rows[i], filters[..k])
    {
      var f := filters[k];
      ghost var was := mask;
      assert filters[..k + 1] == filters[..k] + [f];
      if f.field in b.columns {
        var values := CastAll(casts, f.field, f.values);
        if values.Err? {
          return Err;
        }
        var column := ApplyComparison(f.operator, ColumnOf(b, f.field), values.value);
        mask := Some(match mask
          case Some(prev) => Zip(And, prev, column)
          case None => column);
      }
      forall i | mask.Some? && 0 <= i < |b.rows|
        ensures mask.value[i] == RowFlag(casts, b.columns, b.rows[i], filters[..k + 1])
      {
        RowFlagStep(casts, b.columns, b.rows[i], filters[..k], f);
        assert was.Some? ==> was.value[i] == RowFlag(casts, b.columns, b.rows[i], filters[..k]);
      }
    }
    assert filters[..|filters|] == filters;
    forall i | 0 <= i < |b.rows|
      ensures MeetsAll(casts, b.columns, b.rows[i], filters) <==> RowSatisfies(casts, b.columns, b.rows[i], filters)
    {
      MeetsAllIff(casts, b.columns, b.rows[i], filters);
    }
    if mask.None? {
      return Ok(seq(|b.rows|, _ => Some(true)));
    }
    return Ok(mask.value);
  }

  /** Which rows a list of filters keeps does not depend on the order or repetition of the filters. */
  lemma FilterOrderDoesNotMatter(
    casts: Casts, columns: seq<string>, row: Row, filters: seq<ValuedFilter>, others: seq<ValuedFilter>)
    requires forall f :: f in filters <==> f in others
    ensures RowFlag(casts, columns, row, filters) == RowFlag(casts, columns, row, others)
  {
  }

  /** Of a row with a value in the column, a castable filter and its negation keep exactly one. */
  lemma FilterOrNegation(casts: Casts, columns: seq<string>, row: Row, f: ValuedFilter)
    requires f.field in columns
    ensures CellOf(row, f.field).Some? ==>
      (Meets(casts, columns, row, f) <==> !Meets(casts, columns, row, f.Negate()))
    ensures CellOf(row, f.field).None? ==>
      !Meets(casts, columns, row, f) && !Meets(casts, columns, row, f.Negate())
  {
  }
}
