/** Filters over the typed index: a chain of joins per statement, and what it selects. */
module IndexQueries {
  import opened Wrappers
  import opened Calendar
  import opened Values
  import opened Records
  import opened Facts
  import D = Decimals

  /** The database's ordering of values and its LIKE operator. */
  datatype Sql = Sql(less: (Typed, Typed) -> bool, like: (string, string) -> bool)

  datatype Operator = Eq | In | Gt | Gte | Lt | Lte | Contains

  /** A filter as the caller writes it: `in` carries a list, every other operator one value. */
  datatype Filter = Filter(fieldCode: string, operator: Operator, values: seq<Scalar>)

  datatype Condition = Condition(fieldCode: string, dataType: DataType, operator: Operator, values: seq<Option<Typed>>)

  datatype QueryError = FieldOutsideFactSet | ValueRejected | ValueOverflow | ContainsNeedsText

  type FieldTypeMap = map<string, DataType>

  function NormalizeAll(dataType: DataType, values: seq<Scalar>): Result<seq<Option<Typed>>, QueryError> {
    if values == [] then Success([])
    else
      match NormalizeAll(dataType, values[..|values| - 1])
      case Failure(e) => Failure(e)
      case Success(init) =>
        match Normalize(dataType, values[|values| - 1])
        case Normal(_, v) => Success(init + [v])
        case Rejected => Failure(ValueRejected)
        case Overflow => Failure(ValueOverflow)
  }

  function CompileFilter(f: Filter, types: FieldTypeMap): Result<Condition, QueryError> {
    if f.fieldCode !in types then Failure(FieldOutsideFactSet)
    else
      match NormalizeAll(types[f.fieldCode], f.values)
      case Failure(e) => Failure(e)
      case Success(values) =>
        if f.operator.Contains? && types[f.fieldCode] != TextType then Failure(ContainsNeedsText)
        else Success(Condition(f.fieldCode, types[f.fieldCode], f.operator, values))
  }

  /** Equality in the database: decimals by value, aware datetimes by instant. */
  predicate SameValue(a: Typed, b: Typed) {
    if a.TDecimal? && b.TDecimal? then D.Equal(a.decimal, b.decimal)
    else if a.TDateTime? && b.TDateTime? then SameMoment(a.moment, b.moment)
    else a == b
  }

  function LikeText(v: Option<Typed>): string {
    if v.Some? && v.value.TText? then v.value.text else "None"
  }

  /** Is the comparison true of a column? A comparison with NULL is not, except that `= None` means IS NULL. */
  predicate Holds(sql: Sql, c: Condition, column: Option<Typed>) {
    match c.operator
    case In => column.Some? && exists v :: v in c.values && v.Some? && SameValue(column.value, v.value)
    case Contains => column.Some? && column.value.TText? && c.values != [] && sql.like("%" + LikeText(c.values[0]) + "%", column.value.text)
    case _ =>
      if c.values == [] then false
      else if column.None? || c.values[0].None? then c.operator.Eq? && column.None? && c.values[0].None?
      else
        var x, y := column.value, c.values[0].value;
        match c.operator
        case Gt => sql.less(y, x)
        case Gte => sql.less(y, x) || SameValue(x, y)
        case Lt => sql.less(x, y)
        case Lte => sql.less(x, y) || SameValue(x, y)
        case _ => SameValue(x, y)
  }

  // ----- joins as bags -----

  predicate Pinned(v: IndexValue, fieldCode: string) {
    v.fieldCode == fieldCode && v.role == ""
  }

  /** The index rows a filter's join condition and WHERE clause accept for some record. */
  predicate RowPasses(sql: Sql, c: Condition, v: IndexValue) {
    Pinned(v, c.fieldCode) && Holds(sql, c, Column(v.columns, c.dataType))
  }

  function Matches(rows: seq<IndexValue>, id: nat, p: IndexValue -> bool): (m: seq<IndexValue>)
    ensures forall v :: v in m <==> v in rows && v.recordId == id && p(v)
  {
    Keep(rows, Owned(id, p))
  }

  function Owned(id: nat, p: IndexValue -> bool): (q: IndexValue -> bool)
    ensures forall v :: q(v) <==> v.recordId == id && p(v)
  {
    (v: IndexValue) => v.recordId == id && p(v)
  }

  /** The rows a filter's join accepts. */
  function Passing(sql: Sql, c: Condition): (p: IndexValue -> bool)
    ensures forall v :: p(v) <==> RowPasses(sql, c, v)
  {
    (v: IndexValue) => RowPasses(sql, c, v)
  }

  function Repeat<T(!new)>(t: T, n: nat): seq<T> {
    seq(n, _ => t)
  }

  /** JOIN with an index alias none of whose columns is selected: each row repeats once per match. */
  function Join<T(!new)>(bag: seq<T>, id: T -> nat, rows: seq<IndexValue>, p: IndexValue -> bool): seq<T> {
    if bag == [] then []
    else
      var last := bag[|bag| - 1];
      Join(bag[..|bag| - 1], id, rows, p) + Repeat(last, |Matches(rows, id(last), p)|)
  }

  /** The statement after one join per condition. */
  function Chain<T(!new)>(sql: Sql, bag: seq<T>, id: T -> nat, rows: seq<IndexValue>, conditions: seq<Condition>): seq<T> {
    if conditions == [] then bag
    else
      var c := conditions[|conditions| - 1];
      Join(Chain(sql, bag, id, rows, conditions[..|conditions| - 1]), id, rows, Passing(sql, c))
  }

  /** What a condition means for one record: its value of the field, without a role, passes the comparison. */
  predicate Satisfies(sql: Sql, rows: seq<IndexValue>, id: nat, c: Condition) {
    exists v :: v in rows && v.recordId == id && RowPasses(sql, c, v)
  }

  predicate SatisfiesAll(sql: Sql, rows: seq<IndexValue>, id: nat, conditions: seq<Condition>) {
    forall c :: c in conditions ==> Satisfies(sql, rows, id, c)
  }

  function OneHolds<T(!new)>(sql: Sql, id: T -> nat, rows: seq<IndexValue>, c: Condition): (p: T -> bool)
    ensures forall t :: p(t) <==> Satisfies(sql, rows, id(t), c)
  {
    (t: T) => Satisfies(sql, rows, id(t), c)
  }

  function AllHold<T(!new)>(sql: Sql, id: T -> nat, rows: seq<IndexValue>, conditions: seq<Condition>): (p: T -> bool)
    ensures forall t :: p(t) <==> SatisfiesAll(sql, rows, id(t), conditions)
  {
    (t: T) => SatisfiesAll(sql, rows, id(t), conditions)
  }

  // ----- a chain selects what its conditions mean -----

  lemma {:induction false} AtMostOneMatch(rows: seq<IndexValue>, id: nat, fieldCode: string, p: IndexValue -> bool)
    requires UniqueRows(rows) && forall v :: v in rows && p(v) ==> Pinned(v, fieldCode)
    ensures |Matches(rows, id, p)| <= 1
  {
    if rows != [] {
      var init, last := rows[..|rows| - 1], rows[|rows| - 1];
      assert UniqueRows(init);
      AtMostOneMatch(init, id, fieldCode, p);
      assert last in rows;
      if last.recordId == id && p(last) {
        forall v | v in init ensures !(v.recordId == id && p(v)) {
          var i :| 0 <= i < |init| && init[i] == v;
          assert rows[i] == v && v in rows;
        }
        KeepNone(init, Owned(id, p));
      }
    }
  }

  /** With unique rows a join keeps each row at most once: exactly when the condition holds of its record. */
  lemma {:induction false} JoinKeeps<T(!new)>(sql: Sql, bag: seq<T>, id: T -> nat, rows: seq<IndexValue>, c: Condition)
    requires UniqueRows(rows)
    ensures Join(bag, id, rows, Passing(sql, c)) == Keep(bag, OneHolds(sql, id, rows, c))
  {
    if bag != [] {
      var last := bag[|bag| - 1];
      var p := Passing(sql, c);
      JoinKeeps(sql, bag[..|bag| - 1], id, rows, c);
      hide Matches, Satisfies, Repeat;
      MatchesWhenSatisfied(sql, last, id, rows, c);
    }
  }

  lemma MatchesWhenSatisfied<T(!new)>(sql: Sql, t: T, id: T -> nat, rows: seq<IndexValue>, c: Condition)
    requires UniqueRows(rows)
    ensures Repeat(t, |Matches(rows, id(t), Passing(sql, c))|) == if Satisfies(sql, rows, id(t), c) then [t] else []
  {
    hide Holds, Column;
    AtMostOneMatch(rows, id(t), c.fieldCode, Passing(sql, c));
    var m := Matches(rows, id(t), Passing(sql, c));
    if m != [] {
      assert m[0] in m;
      assert Repeat(t, 1) == [t];
    }
  }

  /**
   * The filter joins of a statement, evaluated as a bag, return each row exactly once and exactly when
   * every condition holds of its record.
   */
  lemma {:induction false} ChainIsConjunction<T(!new)>(sql: Sql, bag: seq<T>, id: T -> nat, rows: seq<IndexValue>, conditions: seq<Condition>)
    requires UniqueRows(rows)
    ensures Chain(sql, bag, id, rows, conditions) == Keep(bag, AllHold(sql, id, rows, conditions))
  {
    if conditions == [] {
      KeepAll(bag, AllHold(sql, id, rows, conditions));
    } else {
      var init, c := conditions[..|conditions| - 1], conditions[|conditions| - 1];
      ChainIsConjunction(sql, bag, id, rows, init);
      JoinKeeps(sql, Chain(sql, bag, id, rows, init), id, rows, c);
      assert forall x :: x in conditions <==> x in init || x == c;
      KeepKeep(bag, AllHold(sql, id, rows, init), OneHolds(sql, id, rows, c),
               AllHold(sql, id, rows, conditions));
    }
  }

  lemma {:induction false} KeepAll<T(!new)>(bag: seq<T>, p: T -> bool)
    requires forall t :: t in bag ==> p(t)
    ensures Keep(bag, p) == bag
  {
    if bag != [] {
      var init, last := bag[..|bag| - 1], bag[|bag| - 1];
      assert last in bag;
      KeepAll(init, p);
      assert bag == init + [last];
    }
  }

  /** Filter order is irrelevant. */
  lemma FilterOrderIrrelevant<T(!new)>(sql: Sql, bag: seq<T>, id: T -> nat, rows: seq<IndexValue>, a: seq<Condition>, b: seq<Condition>)
    requires UniqueRows(rows) && multiset(a) == multiset(b)
    ensures Chain(sql, bag, id, rows, a) == Chain(sql, bag, id, rows, b)
  {
    ChainIsConjunction(sql, bag, id, rows, a);
    ChainIsConjunction(sql, bag, id, rows, b);
    forall c ensures c in a <==> c in b {
      assert c in a <==> c in multiset(a);
    }
    KeepSame(bag, AllHold(sql, id, rows, a), AllHold(sql, id, rows, b));
  }

  /** Adding a filter keeps a part of the rows, in the same order. */
  lemma AddingAFilterShrinks<T(!new)>(sql: Sql, bag: seq<T>, id: T -> nat, rows: seq<IndexValue>, conditions: seq<Condition>, c: Condition)
    requires UniqueRows(rows)
    ensures Chain(sql, bag, id, rows, conditions + [c])
         == Keep(Chain(sql, bag, id, rows, conditions), OneHolds(sql, id, rows, c))
    ensures |Chain(sql, bag, id, rows, conditions + [c])| <= |Chain(sql, bag, id, rows, conditions)|
  {
    assert (conditions + [c])[..|conditions|] == conditions;
    JoinKeeps(sql, Chain(sql, bag, id, rows, conditions), id, rows, c);
    KeepShrinks(Chain(sql, bag, id, rows, conditions), OneHolds(sql, id, rows, c));
  }

  lemma {:induction false} KeepShrinks<T(!new)>(bag: seq<T>, p: T -> bool)
    ensures |Keep(bag, p)| <= |bag|
  {
    if bag != [] {
      KeepShrinks(bag[..|bag| - 1], p);
    }
  }

  /** _apply_filters: the loop that joins one index alias per filter. */
  method ApplyFilters<T(!new)>(sql: Sql, statement: seq<T>, id: T -> nat, rows: seq<IndexValue>, filters: seq<Filter>, types: FieldTypeMap)
    returns (result: Result<seq<T>, QueryError>)
    requires UniqueRows(rows)
    ensures CompileAll(filters, types).Failure? ==> result == Failure(CompileAll(filters, types).error)
    ensures CompileAll(filters, types).Success? ==>
              result == Success(Keep(statement, AllHold(sql, id, rows, CompileAll(filters, types).value)))
  {
    var bag := statement;
    ghost var conditions: seq<Condition> := [];
    assert filters[..|filters|] == filters;
    for i := 0 to |filters|
      invariant CompileAll(filters[..i], types) == Success(conditions)
      invariant bag == Chain(sql, statement, id, rows, conditions)
    {
      assert filters[..i + 1][..i] == filters[..i];
      var compiled := CompileFilter(filters[i], types);
      if compiled.Failure? {
        CompileFails(filters, types, i + 1);
        return Failure(compiled.error);
      }
      var c := compiled.value;
      bag := Join(bag, id, rows, Passing(sql, c));
      assert (conditions + [c])[..|conditions|] == conditions;
      conditions := conditions + [c];
    }
    ChainIsConjunction(sql, statement, id, rows, conditions);
    result := Success(bag);
  }

  function CompileAll(filters: seq<Filter>, types: FieldTypeMap): Result<seq<Condition>, QueryError> {
    if filters == [] then Success([])
    else
      match CompileAll(filters[..|filters| - 1], types)
      case Failure(e) => Failure(e)
      case Success(init) =>
        match CompileFilter(filters[|filters| - 1], types)
        case Failure(e) => Failure(e)
        case Success(c) => Success(init + [c])
  }

  lemma {:induction false} CompileFails(filters: seq<Filter>, types: FieldTypeMap, failed: nat)
    requires failed <= |filters| && CompileAll(filters[..failed], types).Failure?
    ensures CompileAll(filters, types) == CompileAll(filters[..failed], types)
  {
    if failed < |filters| {
      var init := filters[..|filters| - 1];
      assert init[..failed] == filters[..failed];
      CompileFails(init, types, failed);
    } else {
      assert filters[..failed] == filters;
    }
  }

  /** An equality filter on the value a record displays for a field selects the record. */
  lemma DisplayedValueFindsItsRecord(sql: Sql, rows: seq<IndexValue>, v: IndexValue, cell: Scalar, types: FieldTypeMap)
    requires v in rows && v.role == "" && v.fieldCode in types && types[v.fieldCode] == v.dataType
    requires Normalize(v.dataType, cell).Normal? && Normalize(v.dataType, cell).value.Some?
    requires v.columns == TypedColumns(v.dataType, Normalize(v.dataType, cell).value)
    ensures var shown := JsonValue(Normalize(v.dataType, cell).value.value);
            var compiled := CompileFilter(Filter(v.fieldCode, Eq, [shown]), types);
            compiled.Success? && Satisfies(sql, rows, v.recordId, compiled.value)
  {
    var t := Normalize(v.dataType, cell).value.value;
    RenormalizingReturnsTheIndexedValue(v.dataType, cell);
    var shown := JsonValue(t);
    NormalizeSingle(v.dataType, shown);
    SameAsItself(v.dataType, cell);
    hide Normalize, JsonValue, NormalizeAll, SameValue;
    var c := Condition(v.fieldCode, v.dataType, Eq, [Some(t)]);
    assert RowPasses(sql, c, v);
  }

  lemma NormalizeSingle(dataType: DataType, v: Scalar)
    requires Normalize(dataType, v).Normal?
    ensures NormalizeAll(dataType, [v]) == Success([Normalize(dataType, v).value])
  {
    hide Normalize;
    var values := [v];
    assert values[..|values| - 1] == [];
    var none: seq<Option<Typed>> := [];
    assert NormalizeAll(dataType, values[..|values| - 1]) == Success(none);
    assert none + [Normalize(dataType, v).value] == [Normalize(dataType, v).value];
  }

  lemma SameAsItself(dataType: DataType, cell: Scalar)
    requires Normalize(dataType, cell).Normal? && Normalize(dataType, cell).value.Some?
    ensures SameValue(Normalize(dataType, cell).value.value, Normalize(dataType, cell).value.value)
  {
    var t := Normalize(dataType, cell).value.value;
    NormalizeTyped(dataType, cell);
    if t.TDecimal? {
      DecimalNormalizesFinite(D.Parse(NumericText(cell)).value);
    }
  }
}
