/** Comparison operators, filters and their textual tuple form (expr/mod.rs, expr/filter.rs). */
module Filters {
  import opened Wrappers
  import opened Orders
  import opened InValues

  // ---------------------------------------------------------------- operators

  datatype Operator = Eq | Ne | Lt | Lte | Gt | Gte | In | NotIn {
    predicate IsMultiValue() {
      In? || NotIn?
    }

    function Negate(): Operator {
      match this
      case Eq => Ne
      case Ne => Eq
      case Lt => Gte
      case Lte => Gt
      case Gt => Lte
      case Gte => Lt
      case In => NotIn
      case NotIn => In
    }

    /** What the operator says of a value that is present. */
    predicate Holds(x: Rank, values: seq<Rank>)
      requires values != []
    {
      match this
      case Eq => x == values[0]
      case Ne => x != values[0]
      case Lt => x < values[0]
      case Lte => x <= values[0]
      case Gt => x > values[0]
      case Gte => x >= values[0]
      case In => x in values
      case NotIn => x !in values
    }

    function Token(): string {
      match this
      case Eq => "="
      case Ne => "!="
      case Lt => "<"
      case Lte => "<="
      case Gt => ">"
      case Gte => ">="
      case In => "IN"
      case NotIn => "NOT IN"
    }
  }

  const TOKENS: seq<(string, Operator)> := [
    ("=", Eq), ("!=", Ne), ("<", Lt), ("<=", Lte), (">", Gt), (">=", Gte), ("IN", In), ("NOT IN", NotIn)]

  function LowerChar(c: char): char {
    if 'A' <= c <= 'Z' then (c as int + 32) as char else c
  }

  /** Equality up to the case of ASCII letters. */
  predicate EqIgnoreAsciiCase(s: string, t: string) {
    |s| == |t| && forall i :: 0 <= i < |s| ==> LowerChar(s[i]) == LowerChar(t[i])
  }

  function FindToken(table: seq<(string, Operator)>, s: string): Option<Operator> {
    if table == [] then None
    else if EqIgnoreAsciiCase(table[0].0, s) then Some(table[0].1)
    else FindToken(table[1..], s)
  }

  function ParseOperator(s: string): Option<Operator> {
    FindToken(TOKENS, s)
  }

  lemma {:induction false} FindTokenMeaning(table: seq<(string, Operator)>, s: string)
    requires forall i :: 0 <= i < |table| ==> table[i].0 == table[i].1.Token()
    ensures FindToken(table, s).Some? ==> EqIgnoreAsciiCase(FindToken(table, s).value.Token(), s)
    ensures FindToken(table, s).None? ==> forall i :: 0 <= i < |table| ==> !EqIgnoreAsciiCase(table[i].0, s)
  {
    if table != [] && !EqIgnoreAsciiCase(table[0].0, s) {
      FindTokenMeaning(table[1..], s);
    }
  }

  /** Letters of one name match in either case, and nothing else does but a character with itself. */
  lemma LettersMatchInEitherCase(c: char, d: char)
    ensures LowerChar(c) == LowerChar(d) <==>
      c == d || ('A' <= c <= 'Z' && d as int == c as int + 32) || ('A' <= d <= 'Z' && c as int == d as int + 32)
  {
  }

  /** The token of each operator, which is read as that operator, in lower case too where it has letters. */
  lemma TokensAreRead(op: Operator)
    ensures ParseOperator(op.Token()) == Some(op)
    ensures op.Token() ==
      match op
      case Eq => "=" case Ne => "!=" case Lt => "<" case Lte => "<=" case Gt => ">" case Gte => ">="
      case In => "IN" case NotIn => "NOT IN"
    ensures op.In? ==> ParseOperator("in") == Some(op)
    ensures op.NotIn? ==> ParseOperator("not in") == Some(op)
  {
    ParseOperatorIff(op.Token(), op);
    if op.In? {
      ParseOperatorIff("in", op);
    } else if op.NotIn? {
      ParseOperatorIff("not in", op);
    }
  }

  /** A text is read as an operator exactly when it spells the operator's token, in any letter case. */
  lemma ParseOperatorIff(s: string, op: Operator)
    ensures ParseOperator(s) == Some(op) <==> EqIgnoreAsciiCase(op.Token(), s)
  {
    FindTokenMeaning(TOKENS, s);
    if EqIgnoreAsciiCase(op.Token(), s) {
      var i := match op
               case Eq => 0 case Ne => 1 case Lt => 2 case Lte => 3
               case Gt => 4 case Gte => 5 case In => 6 case NotIn => 7;
      assert TOKENS[i] == (op.Token(), op);
      var found := ParseOperator(s).value;
      TokensDiffer(found, op, s);
    }
  }

  lemma TokensDiffer(a: Operator, b: Operator, s: string)
    requires EqIgnoreAsciiCase(a.Token(), s) && EqIgnoreAsciiCase(b.Token(), s)
    ensures a == b
  {
    var t, u := a.Token(), b.Token();
    assert |t| == |u|;
    assert LowerChar(t[0]) == LowerChar(u[0]);
  }

  // ---------------------------------------------------------------- filters as text

  datatype Filter = Filter(field: string, operator: Operator, values: seq<string>) {
    function Negate(): Filter {
      this.(operator := operator.Negate())
    }
  }

  function NewFilter(field: string, op: Operator, values: seq<string>): Result<Filter> {
    if (if op.IsMultiValue() then values == [] else |values| != 1) then Err
    else Ok(Filter(field, op, values))
  }

  function ToTuple(f: Filter): (string, string, string) {
    var text :=
      if f.operator.IsMultiValue() then Join(f.values)
      else if f.values == [] then []
      else f.values[0];
    (f.field, f.operator.Token(), text)
  }

  function FromTuple(t: (string, string, string)): Result<Filter> {
    match ParseOperator(t.1)
    case None => Err
    case Some(op) => NewFilter(t.0, op, if op.IsMultiValue() then Split(t.2) else [t.2])
  }

  /** What the tuple form can carry: one value for a scalar operator, clean values for a list. */
  predicate Portable(f: Filter) {
    if f.operator.IsMultiValue() then f.values != [] && Clean(f.values) else |f.values| == 1
  }

  /** The values that come back: a list cleaned, and otherwise the first value alone. */
  function ValuesCarried(f: Filter): seq<string> {
    if f.operator.IsMultiValue() then Cleaned(f.values) else [if f.values == [] then [] else f.values[0]]
  }

  /** What comes back from the trip through a tuple, for every filter; it fails if a list comes back empty. */
  lemma TupleCarries(f: Filter)
    ensures FromTuple(ToTuple(f)) == NewFilter(f.field, f.operator, ValuesCarried(f))
  {
    assert EqIgnoreAsciiCase(f.operator.Token(), f.operator.Token());
    ParseOperatorIff(f.operator.Token(), f.operator);
    if f.operator.IsMultiValue() {
      SplitUndoesJoin(f.values);
    }
  }

  /** A filter survives the trip through its tuple exactly when it is portable. */
  lemma TupleRoundTripIff(f: Filter)
    ensures FromTuple(ToTuple(f)) == Ok(f) <==> Portable(f)
  {
    TupleCarries(f);
    if f.operator.IsMultiValue() {
      CleanedIsIdentityIff(f.values);
    } else if |f.values| == 1 {
      assert f.values == [f.values[0]];
    }
  }

  /** Every filter that was read from a tuple is portable, so it survives all later trips. */
  lemma ParsedFiltersArePortable(t: (string, string, string))
    requires FromTuple(t).Ok?
    ensures Portable(FromTuple(t).value)
    ensures FromTuple(ToTuple(FromTuple(t).value)) == FromTuple(t)
  {
    SplitJoinSplit(t.2);
    TupleRoundTripIff(FromTuple(t).value);
  }
}
