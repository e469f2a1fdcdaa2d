/** Which parts of a SQL filter are pushed into the scan, and what they mean there (datafusion/src/lib.rs). */
module Pushdown {
  import opened Wrappers
  import opened Orders
  import opened RowMasks

  datatype BinaryOp = And | Or | Eq | NotEq | Lt | LtEq | Gt | GtEq | Further(id: nat)

  datatype Expr =
    | Column(name: string)
    | Literal(value: Rank)
    | Binary(left: Expr, op: BinaryOp, right: Expr)
    | Not(inner: Expr)
    | Between(subject: Expr, low: Expr, high: Expr, negated: bool)
    | InList(subject: Expr, list: seq<Expr>, negated: bool)
    | Other(id: nat)

  // ---------------------------------------------------------------- what expressions mean

  /**
   * The meaning of what nothing here looks into: further operators, which see only their operands,
   * and other expressions. Everything below holds for any meaning.
   */
  datatype Semantics = Semantics(
    operator: (BinaryOp, Cell, Cell) -> Flag,
    truth: (Expr, Row) -> Flag,
    scalar: (Expr, Row) -> Cell)

  function KleeneAnd(a: Flag, b: Flag): Flag {
    if (a.Some? && !a.value) || (b.Some? && !b.value) then Some(false)
    else if a.None? || b.None? then None
    else Some(true)
  }

  function KleeneNot(a: Flag): Flag {
    match a
    case Some(b) => Some(!b)
    case None => None
  }

  function KleeneOr(a: Flag, b: Flag): Flag {
    KleeneNot(KleeneAnd(KleeneNot(a), KleeneNot(b)))
  }

  /** False, null, true, in this order. */
  function Level(a: Flag): int {
    match a
    case Some(b) => if b then 1 else -1
    case None => 0
  }

  /** The connectives of three-valued logic are minimum, maximum and mirror image in that order. */
  lemma KleeneIsMinMax(a: Flag, b: Flag)
    ensures Level(KleeneAnd(a, b)) == if Level(a) < Level(b) then Level(a) else Level(b)
    ensures Level(KleeneOr(a, b)) == if Level(a) < Level(b) then Level(b) else Level(a)
    ensures Level(KleeneNot(a)) == -Level(a)
  {
  }

  function Compare(op: BinaryOp, a: Cell, b: Cell): Flag
    requires Comparison(op)
  {
    if a.None? || b.None? then None
    else
      var x, y := a.value, b.value;
      Some(match op
        case Eq => x == y
        case NotEq => x != y
        case Lt => x < y
        case LtEq => x <= y
        case Gt => x > y
        case _ => x >= y)
  }

  predicate Comparison(op: BinaryOp) {
    op.Eq? || op.NotEq? || op.Gt? || op.Lt? || op.GtEq? || op.LtEq?
  }

  function Scalar(sem: Semantics, e: Expr, row: Row): Cell {
    match e
    case Column(c) => CellOf(row, c)
    case Literal(v) => Some(v)
    case _ => sem.scalar(e, row)
  }

  /** Membership under three-valued logic. */
  function Member(sem: Semantics, x: Cell, list: seq<Expr>, row: Row): Flag {
    if list == [] then Some(false)
    else KleeneOr(Compare(Eq, x, Scalar(sem, list[0], row)), Member(sem, x, list[1..], row))
  }

  function Truth(sem: Semantics, e: Expr, row: Row): Flag {
    match e
    case Binary(l, And, r) => KleeneAnd(Truth(sem, l, row), Truth(sem, r, row))
    case Binary(l, Or, r) => KleeneOr(Truth(sem, l, row), Truth(sem, r, row))
    case Binary(l, op, r) =>
      var a, b := Scalar(sem, l, row), Scalar(sem, r, row);
      if Comparison(op) then Compare(op, a, b) else sem.operator(op, a, b)
    case Not(inner) => KleeneNot(Truth(sem, inner, row))
    case Between(x, low, high, negated) =>
      var within := KleeneAnd(
        Compare(GtEq, Scalar(sem, x, row), Scalar(sem, low, row)),
        Compare(LtEq, Scalar(sem, x, row), Scalar(sem, high, row)));
      if negated then KleeneNot(within) else within
    case InList(x, list, negated) =>
      var member := Member(sem, Scalar(sem, x, row), list, row);
      if negated then KleeneNot(member) else member
    case _ => sem.truth(e, row)
  }

  /** The engine keeps a row when the filter is true of it, not when it is false or null. */
  predicate Accepts(sem: Semantics, e: Expr, row: Row) {
    Truth(sem, e, row) == Some(true)
  }

  predicate AcceptsAll(sem: Semantics, filters: seq<Expr>, row: Row) {
    forall e :: e in filters ==> Accepts(sem, e, row)
  }

  // ---------------------------------------------------------------- the classification

  function SplitConjunction(e: Expr): (parts: seq<Expr>)
    ensures parts != []
  {
    match e
    case Binary(l, And, r) => SplitConjunction(l) + SplitConjunction(r)
    case _ => [e]
  }

  predicate IsColumnOf(columns: seq<string>, e: Expr) {
    e.Column? && e.name in columns
  }

  predicate SupportedOperand(schema: seq<string>, e: Expr) {
    IsColumnOf(schema, e) || e.Literal?
  }

  predicate AllLiterals(list: seq<Expr>) {
    forall e :: e in list ==> e.Literal?
  }

  predicate CanPushDown(schema: seq<string>, e: Expr) {
    match e
    case Binary(l, And, r) => CanPushDown(schema, l) || CanPushDown(schema, r)
    case Binary(l, Or, r) => false
    case Binary(l, op, r) => Comparison(op) && SupportedOperand(schema, l) && SupportedOperand(schema, r)
    case Not(inner) => CanPushDown(schema, inner)
    case Between(x, low, high, negated) => !negated && IsColumnOf(schema, x) && low.Literal? && high.Literal?
    case InList(x, list, _) => list != [] && IsColumnOf(schema, x) && AllLiterals(list)
    case _ => false
  }

  predicate ColumnAgainstLiteral(partitionColumns: seq<string>, l: Expr, r: Expr) {
    || (IsColumnOf(partitionColumns, l) && r.Literal?)
    || (l.Literal? && IsColumnOf(partitionColumns, r))
  }

  predicate IsPartitionFilter(e: Expr, partitionColumns: seq<string>) {
    match e
    case Binary(l, And, r) => IsPartitionFilter(l, partitionColumns) && IsPartitionFilter(r, partitionColumns)
    case Binary(l, Or, r) => false
    case Binary(l, op, r) => ColumnAgainstLiteral(partitionColumns, l, r)
    case Not(inner) => IsPartitionFilter(inner, partitionColumns)
    case Between(x, low, high, negated) =>
      !negated && IsColumnOf(partitionColumns, x) && low.Literal? && high.Literal?
    case InList(x, list, _) => list != [] && IsColumnOf(partitionColumns, x) && AllLiterals(list)
    case _ => false
  }

  predicate IsExactPartitionEquality(e: Expr, partitionColumns: seq<string>) {
    match e
    case Binary(l, Eq, r) => ColumnAgainstLiteral(partitionColumns, l, r)
    case _ => false
  }

  /** A filter can be pushed when some conjunct of it can, and sees only partitions when all of them do. */
  lemma {:induction false} ConjunctsDecide(schema: seq<string>, partitionColumns: seq<string>, e: Expr)
    ensures CanPushDown(schema, e) <==> exists c :: c in SplitConjunction(e) && CanPushDown(schema, c)
    ensures IsPartitionFilter(e, partitionColumns) <==>
      forall c :: c in SplitConjunction(e) ==> IsPartitionFilter(c, partitionColumns)
  {
    if e.Binary? && e.op.And? {
      ConjunctsDecide(schema, partitionColumns, e.left);
      ConjunctsDecide(schema, partitionColumns, e.right);
      var l, r := SplitConjunction(e.left), SplitConjunction(e.right);
      assert forall c :: c in l + r <==> c in l || c in r;
    } else {
      assert SplitConjunction(e) == [e];
    }
  }

  /** The columns an expression compares. */
  function ColumnsIn(e: Expr): set<string> {
    match e
    case Column(c) => {c}
    case Binary(l, _, r) => ColumnsIn(l) + ColumnsIn(r)
    case Not(inner) => ColumnsIn(inner)
    case Between(x, _, _, _) => ColumnsIn(x)
    case InList(x, _, _) => ColumnsIn(x)
    case _ => {}
  }

  /** A single comparison of columns and literals, a range between literals, or a list of literals. */
  predicate Simple(e: Expr) {
    match e
    case Binary(l, op, r) =>
      op in {Eq, NotEq, Lt, LtEq, Gt, GtEq} && (l.Column? || l.Literal?) && (r.Column? || r.Literal?)
    case Between(x, low, high, negated) => !negated && x.Column? && low.Literal? && high.Literal?
    case InList(x, list, _) => x.Column? && list != [] && forall i :: 0 <= i < |list| ==> list[i].Literal?
    case _ => false
  }

  /** Negations that a filter stands under, taken off. */
  function Inner(e: Expr): Expr {
    match e
    case Not(inner) => Inner(inner)
    case _ => e
  }

  /** Of anything but a conjunction under its negations: pushed exactly when it is simple and over columns of the table. */
  lemma {:induction false} PushedIffSimple(schema: seq<string>, e: Expr)
    requires !(Inner(e).Binary? && Inner(e).op.And?)
    ensures CanPushDown(schema, e) <==> Simple(Inner(e)) && forall c :: c in ColumnsIn(Inner(e)) ==> c in schema
  {
    match e
    case Not(inner) => PushedIffSimple(schema, inner);
    case InList(_, list, _) => assert AllLiterals(list) <==> forall i :: 0 <= i < |list| ==> list[i].Literal?;
    case _ =>
  }

  datatype Support = Unsupported | Inexact | Exact

  function FilterSupport(schema: seq<string>, partitionColumns: seq<string>, e: Expr): Support {
    var conjuncts := SplitConjunction(e);
    if !exists c :: c in conjuncts && CanPushDown(schema, c) then Support.Unsupported
    else if forall c :: c in conjuncts ==> CanPushDown(schema, c) && IsExactPartitionEquality(c, partitionColumns)
    then Exact
    else Inexact
  }

  function AllConjuncts(filters: seq<Expr>): seq<Expr> {
    if filters == [] then [] else SplitConjunction(filters[0]) + AllConjuncts(filters[1..])
  }

  function Pushable(schema: seq<string>, es: seq<Expr>): (r: seq<Expr>)
    ensures forall e :: e in r <==> e in es && CanPushDown(schema, e)
  {
    if es == [] then [] else (if CanPushDown(schema, es[0]) then [es[0]] else []) + Pushable(schema, es[1..])
  }

  function PartitionOnly(es: seq<Expr>, partitionColumns: seq<string>): (r: seq<Expr>)
    ensures forall e :: e in r <==> e in es && IsPartitionFilter(e, partitionColumns)
  {
    if es == [] then []
    else (if IsPartitionFilter(es[0], partitionColumns) then [es[0]] else []) + PartitionOnly(es[1..], partitionColumns)
  }

  /** What goes to file listing, and what goes to the scan. */
  function SplitScanPushdown(schema: seq<string>, partitionColumns: seq<string>, filters: seq<Expr>): (seq<Expr>, seq<Expr>) {
    var all := Pushable(schema, AllConjuncts(filters));
    (PartitionOnly(all, partitionColumns), all)
  }

  // ---------------------------------------------------------------- what is pushed keeps its meaning

  lemma KleeneAndIsTrueIff(a: Flag, b: Flag)
    ensures KleeneAnd(a, b) == Some(true) <==> a == Some(true) && b == Some(true)
  {
  }

  lemma AcceptsAppend(sem: Semantics, a: seq<Expr>, b: seq<Expr>, row: Row)
    ensures AcceptsAll(sem, a + b, row) <==> AcceptsAll(sem, a, row) && AcceptsAll(sem, b, row)
  {
  }

  /** A filter is true exactly when all its conjuncts are. */
  lemma {:induction false} ConjunctsMeanFilter(sem: Semantics, e: Expr, row: Row)
    ensures Accepts(sem, e, row) <==> AcceptsAll(sem, SplitConjunction(e), row)
  {
    if e.Binary? && e.op.And? {
      ConjunctsMeanFilter(sem, e.left, row);
      ConjunctsMeanFilter(sem, e.right, row);
      AcceptsAppend(sem, SplitConjunction(e.left), SplitConjunction(e.right), row);
      KleeneAndIsTrueIff(Truth(sem, e.left, row), Truth(sem, e.right, row));
    } else {
      assert SplitConjunction(e) == [e];
    }
  }

  lemma {:induction false} AllConjunctsMeanFilters(sem: Semantics, filters: seq<Expr>, row: Row)
    ensures AcceptsAll(sem, filters, row) <==> AcceptsAll(sem, AllConjuncts(filters), row)
  {
    if filters != [] {
      ConjunctsMeanFilter(sem, filters[0], row);
      AllConjunctsMeanFilters(sem, filters[1..], row);
      AcceptsAppend(sem, [filters[0]], filters[1..], row);
      assert filters == [filters[0]] + filters[1..];
      AcceptsAppend(sem, SplitConjunction(filters[0]), AllConjuncts(filters[1..]), row);
    }
  }

  /** No row the filters accept is refused by anything pushed down. */
  lemma PushedConjunctsAccept(
    sem: Semantics, schema: seq<string>, partitionColumns: seq<string>, filters: seq<Expr>, row: Row)
    requires AcceptsAll(sem, filters, row)
    ensures var (partition, all) := SplitScanPushdown(schema, partitionColumns, filters);
      AcceptsAll(sem, partition, row) && AcceptsAll(sem, all, row)
  {
    AllConjunctsMeanFilters(sem, filters, row);
  }

  ghost predicate AgreeOn(columns: seq<string>, row: Row, other: Row) {
    forall c :: c in columns ==> CellOf(row, c) == CellOf(other, c)
  }

  lemma {:induction false} MemberAgrees(sem: Semantics, x: Cell, list: seq<Expr>, row: Row, other: Row)
    requires AllLiterals(list)
    ensures Member(sem, x, list, row) == Member(sem, x, list, other)
  {
    if list != [] {
      assert list[0] in list;
      MemberAgrees(sem, x, list[1..], row, other);
    }
  }

  /** A pushed conjunct classed as partition-only sees nothing but the partition columns. */
  lemma {:induction false} PartitionFiltersSeeOnlyPartitions(
    sem: Semantics, e: Expr, partitionColumns: seq<string>, row: Row, other: Row)
    requires IsPartitionFilter(e, partitionColumns)
    requires AgreeOn(partitionColumns, row, other)
    ensures Truth(sem, e, row) == Truth(sem, e, other)
  {
    match e
    case Binary(l, And, r) =>
      PartitionFiltersSeeOnlyPartitions(sem, l, partitionColumns, row, other);
      PartitionFiltersSeeOnlyPartitions(sem, r, partitionColumns, row, other);
    case Not(inner) =>
      PartitionFiltersSeeOnlyPartitions(sem, inner, partitionColumns, row, other);
    case InList(x, list, _) =>
      MemberAgrees(sem, Scalar(sem, x, row), list, row, other);
    case _ =>
  }
}
