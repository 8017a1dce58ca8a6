/** CatalogQuery's group_count: the groups, the coverage check and the answer. */
module GroupCounts {
  import opened Wrappers
  import opened Dicts
  import opened Calendar
  import opened Values
  import opened Records
  import opened Facts
  import opened IndexQueries
  import opened QueryEngines
  import opened IdentityCounts
  import D = Decimals

  /** A group value as the answer shows it: decimals, dates and datetimes as text, other values as they are. */
  datatype GroupKey = Plain(value: Typed) | Rendered(text: string)

  predicate IsPlain(v: Typed) {
    v.TText? || v.TInteger? || v.TBoolean?
  }

  /** str(datetime) */
  function SpacedText(t: DateTime): string {
    var s := DateTimeText(t);
    if |s| < 11 then s else s[..10] + " " + s[11..]
  }

  function Serialize(v: Typed): GroupKey {
    match v
    case TDecimal(d) => Rendered(D.ToText(d))
    case TDate(d) => Rendered(DateText(d))
    case TDateTime(t) => Rendered(SpacedText(t))
    case _ => Plain(v)
  }

  predicate SameKind(v: Typed, w: Typed) {
    (v.TDecimal? <==> w.TDecimal?) && (v.TDate? <==> w.TDate?) && (v.TDateTime? <==> w.TDateTime?)
  }

  /** Different values of one type never share a key, so no group overwrites another. */
  lemma SerializeInjective(v: Typed, w: Typed)
    requires Storable(v) && Storable(w) && SameKind(v, w) && Serialize(v) == Serialize(w)
    ensures v == w
  {
    hide D.ToText, DateText, DateTimeText, D.Parse, ParseDate, ParseDateTime;
    match (v, w) {
      case (TDecimal(a), TDecimal(b)) =>
        D.TextRoundTrip(a);
        D.TextRoundTrip(b);
      case (TDate(a), TDate(b)) =>
        DateTextParses(a);
        DateTextParses(b);
      case (TDateTime(a), TDateTime(b)) =>
        DateTimeParts(a);
        DateTimeParts(b);
        SpacedInjective(DateTimeText(a), DateTimeText(b));
        DateTimeTextParses(a);
        DateTimeTextParses(b);
      case _ =>
    }
  }

  lemma SpacedInjective(s: string, t: string)
    requires |s| >= 11 && |t| >= 11 && s[10] == t[10]
    requires s[..10] + " " + s[11..] == t[..10] + " " + t[11..]
    ensures s == t
  {
    var a, b := s[..10] + " " + s[11..], t[..10] + " " + t[11..];
    assert a[..10] == s[..10] && b[..10] == t[..10] && a[11..] == s[11..] && b[11..] == t[11..];
    assert s == s[..10] + [s[10]] + s[11..] && t == t[..10] + [t[10]] + t[11..];
  }

  // ----- the grouped statement -----

  /** A selected record with its group value. */
  type Grouped = (nat, Typed)

  function GroupRows(pairs: seq<(Fact, IndexValue)>, dataType: DataType): seq<Grouped>
    requires forall x :: x in pairs ==> Column(x.1.columns, dataType).Some?
  {
    if pairs == [] then []
    else
      var n := |pairs| - 1;
      assert forall x :: x in pairs[..n] ==> x in pairs;
      GroupRows(pairs[..n], dataType) + [(pairs[n].0.id, Column(pairs[n].1.columns, dataType).value)]
  }

  /** The group values, in order of first appearance. */
  function GroupValues(bag: seq<Grouped>): (values: seq<Typed>)
    ensures forall v :: v in values <==> exists x :: x in bag && x.1 == v
    ensures Distinct(values)
  {
    if bag == [] then []
    else
      var init, last := bag[..|bag| - 1], bag[|bag| - 1];
      assert bag == init + [last];
      var values := GroupValues(init);
      if last.1 in values then values else values + [last.1]
  }

  /** count(distinct record id) of one group. */
  function GroupIds(bag: seq<Grouped>, v: Typed): (ids: set<nat>)
    ensures forall id :: id in ids <==> exists x :: x in bag && x.0 == id && x.1 == v
  {
    set x | x in bag && x.1 == v :: x.0
  }

  function SumSizes(bag: seq<Grouped>, values: seq<Typed>): nat {
    if values == [] then 0 else SumSizes(bag, values[..|values| - 1]) + |GroupIds(bag, values[|values| - 1])|
  }

  predicate OncePerRecord(bag: seq<Grouped>) {
    forall i, j :: 0 <= i < j < |bag| ==> bag[i].0 != bag[j].0
  }

  lemma GroupGrows(init: seq<Grouped>, last: Grouped, v: Typed)
    requires OncePerRecord(init + [last])
    ensures |GroupIds(init + [last], v)| == |GroupIds(init, v)| + (if last.1 == v then 1 else 0)
  {
    assert last.0 !in GroupIds(init, v) by {
      forall x | x in init ensures x.0 != last.0 {
        var i :| 0 <= i < |init| && init[i] == x;
        assert (init + [last])[i] == x && (init + [last])[|init|] == last;
      }
    }
    assert GroupIds(init + [last], v) == if last.1 == v then GroupIds(init, v) + {last.0} else GroupIds(init, v);
  }

  lemma {:induction false} SumGrows(init: seq<Grouped>, last: Grouped, values: seq<Typed>)
    requires OncePerRecord(init + [last]) && Distinct(values)
    ensures SumSizes(init + [last], values) == SumSizes(init, values) + (if last.1 in values then 1 else 0)
  {
    if values != [] {
      var n := |values| - 1;
      assert values == values[..n] + [values[n]];
      SumGrows(init, last, values[..n]);
      GroupGrows(init, last, values[n]);
    }
  }

  lemma {:induction false} SumOverNothing(values: seq<Typed>)
    ensures SumSizes([], values) == 0
  {
    if values != [] {
      SumOverNothing(values[..|values| - 1]);
      assert GroupIds([], values[|values| - 1]) == {};
    }
  }

  /** Each record is counted in exactly one group. */
  lemma {:induction false} GroupsPartition(bag: seq<Grouped>, values: seq<Typed>)
    requires OncePerRecord(bag) && Distinct(values)
    requires forall x :: x in bag ==> x.1 in values
    ensures SumSizes(bag, values) == |bag|
  {
    if bag == [] {
      SumOverNothing(values);
    } else {
      var init, last := bag[..|bag| - 1], bag[|bag| - 1];
      assert bag == init + [last];
      GroupsPartition(init, values);
      SumGrows(init, last, values);
    }
  }

  // ----- the groups of the filtered records -----

  /** The filtered records that have a group value, each with it. */
  function GroupedFacts(facts: seq<Fact>, rows: seq<IndexValue>, field: string, dataType: DataType): (bag: seq<Grouped>)
    ensures forall x :: x in bag <==> exists f :: f in facts && f.id == x.0 && ValueOf(rows, f.id, field, dataType) == Some(x.1)
    ensures |bag| <= |facts|
    ensures |bag| == |facts| <==> forall f :: f in facts ==> ValueOf(rows, f.id, field, dataType).Some?
  {
    if facts == [] then []
    else
      var init, last := facts[..|facts| - 1], facts[|facts| - 1];
      var before, value := GroupedFacts(init, rows, field, dataType), ValueOf(rows, last.id, field, dataType);
      hide ValueOf;
      assert facts == init + [last];
      MembersMore(before, init, last, rows, field, dataType);
      before + if value.Some? then [(last.id, value.value)] else []
  }

  ghost predicate HasMembers(bag: seq<Grouped>, facts: seq<Fact>, rows: seq<IndexValue>, field: string, dataType: DataType) {
    forall x :: x in bag <==> exists f :: f in facts && f.id == x.0 && ValueOf(rows, f.id, field, dataType) == Some(x.1)
  }

  lemma MembersMore(bag: seq<Grouped>, init: seq<Fact>, last: Fact, rows: seq<IndexValue>, field: string, dataType: DataType)
    requires HasMembers(bag, init, rows, field, dataType)
    ensures var value := ValueOf(rows, last.id, field, dataType);
            HasMembers(bag + if value.Some? then [(last.id, value.value)] else [], init + [last], rows, field, dataType)
  {
    hide ValueOf;
    var value := ValueOf(rows, last.id, field, dataType);
    var all := bag + if value.Some? then [(last.id, value.value)] else [];
    forall x ensures x in all <==> exists f :: f in init + [last] && f.id == x.0 && ValueOf(rows, f.id, field, dataType) == Some(x.1) {
      if x in bag {
        var f :| f in init && f.id == x.0 && ValueOf(rows, f.id, field, dataType) == Some(x.1);
        assert f in init + [last];
      } else if x in all {
        assert last in init + [last];
      }
    }
  }

  lemma {:induction false} GroupedOnce(facts: seq<Fact>, rows: seq<IndexValue>, field: string, dataType: DataType)
    requires DistinctFacts(facts)
    ensures OncePerRecord(GroupedFacts(facts, rows, field, dataType))
  {
    if facts != [] {
      hide ValueOf;
      var init, last := facts[..|facts| - 1], facts[|facts| - 1];
      GroupedOnce(init, rows, field, dataType);
      hide OncePerRecord;
      GroupedElsewhere(init, rows, field, dataType, last.id);
      OnceMore(GroupedFacts(init, rows, field, dataType), last.id, ValueOf(rows, last.id, field, dataType));
    }
  }

  lemma GroupedElsewhere(facts: seq<Fact>, rows: seq<IndexValue>, field: string, dataType: DataType, id: nat)
    requires forall i :: 0 <= i < |facts| ==> facts[i].id != id
    ensures forall x :: x in GroupedFacts(facts, rows, field, dataType) ==> x.0 != id
  {
    hide ValueOf;
    var bag := GroupedFacts(facts, rows, field, dataType);
    hide GroupedFacts;
    forall x | x in bag ensures x.0 != id {
      var f :| f in facts && f.id == x.0;
    }
  }

  lemma OnceMore(bag: seq<Grouped>, id: nat, value: Option<Typed>)
    requires OncePerRecord(bag) && forall x :: x in bag ==> x.0 != id
    ensures OncePerRecord(bag + if value.Some? then [(id, value.value)] else [])
  {
  }

  lemma GroupRowsAppend(a: seq<(Fact, IndexValue)>, b: seq<(Fact, IndexValue)>, dataType: DataType)
    requires forall x :: x in a + b ==> Column(x.1.columns, dataType).Some?
    requires |b| <= 1
    ensures forall x :: x in a ==> Column(x.1.columns, dataType).Some?
    ensures GroupRows(a + b, dataType)
         == GroupRows(a, dataType) + if b == [] then [] else [(b[0].0.id, Column(b[0].1.columns, dataType).value)]
  {
    if b == [] {
      assert a + b == a;
    } else {
      assert (a + b)[..|a + b| - 1] == a;
    }
  }

  lemma {:induction false} JoinedHaveValues(facts: seq<Fact>, rows: seq<IndexValue>, field: string, dataType: DataType)
    ensures forall x :: x in JoinRows(facts, FactId, rows, NonNullMeasure(field, dataType)) ==> Column(x.1.columns, dataType).Some?
  {
    if facts != [] {
      var init, last := facts[..|facts| - 1], facts[|facts| - 1];
      JoinedHaveValues(init, rows, field, dataType);
      WithRowValues(last, Matches(rows, last.id, NonNullMeasure(field, dataType)));
    }
  }

  lemma {:induction false} WithRowValues(f: Fact, rows: seq<IndexValue>)
    ensures forall x :: x in WithRow(f, rows) ==> x.1 in rows
  {
    if rows != [] {
      WithRowValues(f, rows[..|rows| - 1]);
    }
  }

  /** The grouped statement, evaluated as a bag, reads each such record once. */
  lemma {:induction false} StatementGroups(facts: seq<Fact>, rows: seq<IndexValue>, field: string, dataType: DataType)
    requires UniqueRows(rows)
    ensures forall x :: x in JoinRows(facts, FactId, rows, NonNullMeasure(field, dataType)) ==> Column(x.1.columns, dataType).Some?
    ensures GroupRows(JoinRows(facts, FactId, rows, NonNullMeasure(field, dataType)), dataType)
         == GroupedFacts(facts, rows, field, dataType)
  {
    JoinedHaveValues(facts, rows, field, dataType);
    if facts != [] {
      var p := NonNullMeasure(field, dataType);
      var init, last := facts[..|facts| - 1], facts[|facts| - 1];
      assert facts == init + [last];
      var found := Matches(rows, last.id, p);
      AtMostOneMatch(rows, last.id, field, p);
      JoinRowsLast(init, last, FactId, rows, p);
      assert found != [] ==> found[..0] == [];
      assert WithRow(last, found) == if found == [] then [] else [(last, found[0])];
      StatementGroups(init, rows, field, dataType);
      hide JoinRows, Matches, WithRow, GroupRows;
      GroupRowsAppend(JoinRows(init, FactId, rows, p), WithRow(last, found), dataType);
    }
  }

  // ----- the dictionary of counts -----

  function Total(keys: seq<GroupKey>, at: map<GroupKey, nat>): nat
    requires forall k :: k in keys ==> k in at
  {
    if keys == [] then 0
    else
      var n := |keys| - 1;
      assert keys[n] in keys && forall k :: k in keys[..n] ==> k in keys;
      Total(keys[..n], at) + at[keys[n]]
  }

  /** actual: the size of each group under its key. */
  function Actual(bag: seq<Grouped>, values: seq<Typed>): (actual: Dict<GroupKey, nat>)
    ensures actual.Valid()
  {
    if values == [] then Empty()
    else
      var v := values[|values| - 1];
      Put(Actual(bag, values[..|values| - 1]), Serialize(v), |GroupIds(bag, v)|)
  }

  predicate Separable(values: seq<Typed>) {
    forall v, w :: v in values && w in values ==> Storable(v) && SameKind(v, w)
  }

  lemma {:induction false} TotalSame(keys: seq<GroupKey>, a: map<GroupKey, nat>, b: map<GroupKey, nat>)
    requires forall k :: k in keys ==> k in a && k in b && a[k] == b[k]
    ensures Total(keys, a) == Total(keys, b)
  {
    if keys != [] {
      var n := |keys| - 1;
      assert keys[n] in keys && forall k :: k in keys[..n] ==> k in keys;
      TotalSame(keys[..n], a, b);
    }
  }

  ghost predicate Faithful(bag: seq<Grouped>, values: seq<Typed>, at: map<GroupKey, nat>) {
    && (forall k :: k in at <==> exists v :: v in values && Serialize(v) == k)
    && (forall v :: v in values ==> Serialize(v) in at && at[Serialize(v)] == |GroupIds(bag, v)|)
  }

  /** Serialized keys keep the groups apart, so the dictionary holds every group's size. */
  lemma {:induction false} ActualFaithful(bag: seq<Grouped>, values: seq<Typed>)
    requires Separable(values) && Distinct(values)
    ensures Faithful(bag, values, Actual(bag, values).at)
  {
    hide Faithful, Separable, Distinct, Serialize, GroupIds, Apart;
    if values == [] {
      FaithfulEmpty(bag, values, Actual(bag, values).at);
    } else {
      var n := |values| - 1;
      LastKeyIsNew(values);
      ActualFaithful(bag, values[..n]);
      FaithfulStep(bag, values[..n], values[n], Actual(bag, values[..n]).at);
      assert values == values[..n] + [values[n]];
    }
  }

  lemma FaithfulEmpty(bag: seq<Grouped>, values: seq<Typed>, at: map<GroupKey, nat>)
    requires values == [] && at == map[]
    ensures Faithful(bag, values, at)
  {
    hide Serialize, GroupIds;
  }

  lemma FaithfulStep(bag: seq<Grouped>, init: seq<Typed>, last: Typed, at: map<GroupKey, nat>)
    requires Faithful(bag, init, at) && Apart(init, last)
    ensures Faithful(bag, init + [last], at[Serialize(last) := |GroupIds(bag, last)|])
  {
    hide Serialize, GroupIds;
  }

  lemma {:induction false} ActualTotals(bag: seq<Grouped>, values: seq<Typed>)
    requires Separable(values) && Distinct(values)
    ensures Total(Actual(bag, values).keys, Actual(bag, values).at) == SumSizes(bag, values)
  {
    if values != [] {
      var n := |values| - 1;
      LastKeyIsNew(values);
      ActualTotals(bag, values[..n]);
      ActualFaithful(bag, values[..n]);
      PutNew(Actual(bag, values[..n]), Serialize(values[n]), |GroupIds(bag, values[n])|);
    }
  }

  predicate Apart(values: seq<Typed>, last: Typed) {
    forall v :: v in values ==> Serialize(v) != Serialize(last)
  }

  lemma LastKeyIsNew(values: seq<Typed>)
    requires Separable(values) && Distinct(values) && values != []
    ensures var n := |values| - 1; Separable(values[..n]) && Distinct(values[..n]) && Apart(values[..n], values[n])
  {
    hide Serialize, Storable, SameKind;
    var n := |values| - 1;
    assert values[n] in values && forall v :: v in values[..n] ==> v in values;
    forall v | v in values[..n] ensures Serialize(v) != Serialize(values[n]) {
      var i :| 0 <= i < n && values[..n][i] == v;
      assert values[i] != values[n];
      if Serialize(v) == Serialize(values[n]) {
        SerializeInjective(v, values[n]);
      }
    }
  }

  lemma PutNew(d: Dict<GroupKey, nat>, k: GroupKey, n: nat)
    requires d.Valid() && k !in d.at
    ensures Total(Put(d, k, n).keys, Put(d, k, n).at) == Total(d.keys, d.at) + n
  {
    TotalSame(d.keys, d.at, Put(d, k, n).at);
    assert (d.keys + [k])[..|d.keys|] == d.keys;
  }

  // ----- coverage -----

  datatype GroupAnswer = GroupAnswer(rows: seq<(Option<GroupKey>, nat)>, recordCount: nat, groupedCount: nat)

  datatype GroupError = RequestRejected(error: QueryError) | CoverageFailed(ungrouped: int, unexpected: set<GroupKey>)

  /** value in requested: the dictionary's key against the normalized request. */
  predicate Asked(key: GroupKey, requested: seq<Option<Typed>>) {
    key.Plain? && Some(key.value) in requested
  }

  /** Every filtered record has a group value, and a requested one if groups were requested. */
  predicate Covered(facts: seq<Fact>, rows: seq<IndexValue>, field: string, dataType: DataType, requested: seq<Option<Typed>>) {
    forall f :: f in facts ==>
      var value := ValueOf(rows, f.id, field, dataType);
      value.Some? && (requested != [] ==> IsPlain(value.value) && value in requested)
  }

  function RowTotal(rows: seq<(Option<GroupKey>, nat)>): nat {
    if rows == [] then 0 else RowTotal(rows[..|rows| - 1]) + rows[|rows| - 1].1
  }

  /** actual.get(value, 0) */
  function Look(actual: Dict<GroupKey, nat>, value: Option<Typed>): nat {
    if value.Some? && Plain(value.value) in actual.at then actual.at[Plain(value.value)] else 0
  }

  function RequestedRows(actual: Dict<GroupKey, nat>, requested: seq<Option<Typed>>): (rows: seq<(Option<GroupKey>, nat)>)
    ensures |rows| == |requested|
  {
    if requested == [] then []
    else
      var v := requested[|requested| - 1];
      RequestedRows(actual, requested[..|requested| - 1])
      + [(if v.Some? then Some(Serialize(v.value)) else None, Look(actual, v))]
  }

  function ActualRows(keys: seq<GroupKey>, at: map<GroupKey, nat>): seq<(Option<GroupKey>, nat)>
    requires forall k :: k in keys ==> k in at
  {
    if keys == [] then []
    else
      var n := |keys| - 1;
      assert keys[n] in keys && forall k :: k in keys[..n] ==> k in keys;
      ActualRows(keys[..n], at) + [(Some(keys[n]), at[keys[n]])]
  }

  /** No requested value that some record has is requested twice. */
  predicate NoRepeats(bag: seq<Grouped>, requested: seq<Option<Typed>>) {
    forall i, j :: 0 <= i < j < |requested| && requested[i] == requested[j] && requested[i].Some? ==>
      GroupIds(bag, requested[i].value) == {}
  }

  function RequestedSize(bag: seq<Grouped>, v: Option<Typed>): nat {
    if v.Some? then |GroupIds(bag, v.value)| else 0
  }

  /** The rows of repeated requests count again what an earlier row counted. */
  function RepeatedSize(bag: seq<Grouped>, requested: seq<Option<Typed>>): nat {
    if requested == [] then 0
    else
      var n := |requested| - 1;
      RepeatedSize(bag, requested[..n]) + if requested[n] in requested[..n] then RequestedSize(bag, requested[n]) else 0
  }

  function FirstRequests(requested: seq<Option<Typed>>): (values: seq<Typed>)
    ensures Distinct(values)
    ensures forall v :: v in values <==> Some(v) in requested
  {
    if requested == [] then []
    else
      var n := |requested| - 1;
      assert requested == requested[..n] + [requested[n]];
      var values := FirstRequests(requested[..n]);
      if requested[n].None? || requested[n] in requested[..n] then values else values + [requested[n].value]
  }

  lemma {:induction false} RequestedTotal(bag: seq<Grouped>, actual: Dict<GroupKey, nat>, requested: seq<Option<Typed>>)
    requires forall v :: v in requested ==> Look(actual, v) == RequestedSize(bag, v)
    ensures RowTotal(RequestedRows(actual, requested)) == SumSizes(bag, FirstRequests(requested)) + RepeatedSize(bag, requested)
  {
    if requested != [] {
      hide Look, Serialize, GroupIds;
      var n := |requested| - 1;
      assert requested == requested[..n] + [requested[n]] && requested[n] in requested;
      RequestedTotal(bag, actual, requested[..n]);
    }
  }

  lemma {:induction false} RepeatedNothing(bag: seq<Grouped>, requested: seq<Option<Typed>>)
    ensures RepeatedSize(bag, requested) == 0 <==> NoRepeats(bag, requested)
  {
    if requested != [] {
      hide GroupIds;
      var n := |requested| - 1;
      RepeatedNothing(bag, requested[..n]);
      if NoRepeats(bag, requested) {
        if requested[n] in requested[..n] {
          var i :| 0 <= i < n && requested[..n][i] == requested[n];
          assert requested[i] == requested[n];
        }
        assert NoRepeats(bag, requested[..n]);
      }
    }
  }

  lemma {:induction false} ActualTotal(keys: seq<GroupKey>, at: map<GroupKey, nat>)
    requires forall k :: k in keys ==> k in at
    ensures RowTotal(ActualRows(keys, at)) == Total(keys, at)
  {
    if keys != [] {
      var n := |keys| - 1;
      assert keys[n] in keys && forall k :: k in keys[..n] ==> k in keys;
      ActualTotal(keys[..n], at);
    }
  }

  /** Reordering the keys does not change the total. */
  lemma {:induction false} TotalReordered(a: seq<GroupKey>, b: seq<GroupKey>, at: map<GroupKey, nat>)
    requires Distinct(a) && Distinct(b) && forall k :: k in a <==> k in b
    requires forall k :: k in a ==> k in at
    ensures Total(a, at) == Total(b, at)
  {
    assert b == [] || b[0] in a;
    if a != [] {
      var n := |a| - 1;
      assert a == a[..n] + [a[n]] && a[n] in b;
      var i :| 0 <= i < |b| && b[i] == a[n];
      var rest := b[..i] + b[i + 1..];
      assert b == b[..i] + [b[i]] + b[i + 1..];
      assert forall k :: k in b <==> k in rest || k == b[i];
      Without(b, i);
      TotalReordered(a[..n], rest, at);
      TotalWithout(b, i, at);
    }
  }

  lemma Without(keys: seq<GroupKey>, i: nat)
    requires i < |keys| && Distinct(keys)
    ensures Distinct(keys[..i] + keys[i + 1..]) && keys[i] !in keys[..i] + keys[i + 1..]
  {
  }

  lemma {:induction false} TotalWithout(keys: seq<GroupKey>, i: nat, at: map<GroupKey, nat>)
    requires i < |keys|
    requires forall k :: k in keys ==> k in at
    ensures forall k :: k in keys[..i] + keys[i + 1..] ==> k in at
    ensures Total(keys, at) == Total(keys[..i] + keys[i + 1..], at) + at[keys[i]]
  {
    var n := |keys| - 1;
    assert keys == keys[..n] + [keys[n]];
    if i == n {
      assert keys[..i] + keys[i + 1..] == keys[..n];
    } else {
      assert keys[..n][i] == keys[i];
      TotalWithout(keys[..n], i, at);
      var rest := keys[..i] + keys[i + 1..];
      assert rest[..|rest| - 1] == keys[..n][..i] + keys[..n][i + 1..] && rest[|rest| - 1] == keys[n];
    }
  }

  lemma ValuesTyped(rows: seq<IndexValue>, field: string, dataType: DataType)
    requires TypedField(rows, field, dataType)
    ensures forall id :: ValueOf(rows, id, field, dataType).Some? ==>
              Storable(ValueOf(rows, id, field, dataType).value) && TypeOf(ValueOf(rows, id, field, dataType).value) == dataType
  {
    hide Storable, TypeOf;
    forall id: nat | ValueOf(rows, id, field, dataType).Some?
      ensures Storable(ValueOf(rows, id, field, dataType).value) && TypeOf(ValueOf(rows, id, field, dataType).value) == dataType
    {
      var found := Matches(rows, id, NonNullMeasure(field, dataType));
      assert found[0] in found;
    }
  }

  lemma TypesAreSeparable(bag: seq<Grouped>, dataType: DataType)
    requires forall x :: x in bag ==> Storable(x.1) && TypeOf(x.1) == dataType
    ensures Separable(GroupValues(bag))
  {
    hide Storable, TypeOf;
    forall v, w | v in GroupValues(bag) && w in GroupValues(bag) ensures Storable(v) && SameKind(v, w) {
      assert Storable(v) && TypeOf(v) == dataType && TypeOf(w) == dataType;
      SameTypeSameKind(v, w, dataType);
    }
  }

  lemma SameTypeSameKind(v: Typed, w: Typed, dataType: DataType)
    requires TypeOf(v) == dataType && TypeOf(w) == dataType
    ensures SameKind(v, w)
  {
  }

  /** The dictionary the answer is built from, and what it says of the filtered records. */
  lemma ActualOfFacts(facts: seq<Fact>, rows: seq<IndexValue>, field: string, dataType: DataType)
    requires DistinctFacts(facts) && TypedField(rows, field, dataType)
    ensures var bag := GroupedFacts(facts, rows, field, dataType);
            var actual := Actual(bag, GroupValues(bag));
            Faithful(bag, GroupValues(bag), actual.at) && Total(actual.keys, actual.at) == |bag|
  {
    hide Storable, TypeOf, ValueOf, TypedField, Faithful, Actual;
    var bag := GroupedFacts(facts, rows, field, dataType);
    ValuesTyped(rows, field, dataType);
    TypesAreSeparable(bag, dataType);
    GroupedOnce(facts, rows, field, dataType);
    ActualFaithful(bag, GroupValues(bag));
    ActualTotals(bag, GroupValues(bag));
    GroupsPartition(bag, GroupValues(bag));
  }

  predicate AllAsked(actual: Dict<GroupKey, nat>, requested: seq<Option<Typed>>) {
    forall k :: k in actual.at ==> Asked(k, requested)
  }

  /** The coverage check accepts exactly the covered record sets. */
  lemma CoverageIsExact(facts: seq<Fact>, rows: seq<IndexValue>, field: string, dataType: DataType, requested: seq<Option<Typed>>)
    requires DistinctFacts(facts) && TypedField(rows, field, dataType)
    ensures var bag := GroupedFacts(facts, rows, field, dataType);
            var actual := Actual(bag, GroupValues(bag));
            |facts| == |bag| && (requested != [] ==> AllAsked(actual, requested)) <==> Covered(facts, rows, field, dataType, requested)
  {
    hide Storable, TypeOf, ValueOf, TypedField, Actual, Serialize, IsPlain;
    ActualOfFacts(facts, rows, field, dataType);
    var bag := GroupedFacts(facts, rows, field, dataType);
    var actual := Actual(bag, GroupValues(bag));
    forall v ensures Asked(Serialize(v), requested) <==> IsPlain(v) && Some(v) in requested {
      AskedMeaning(v, requested);
    }
    if |facts| == |bag| && (requested != [] ==> AllAsked(actual, requested)) {
      forall f | f in facts && requested != []
        ensures IsPlain(ValueOf(rows, f.id, field, dataType).value) && ValueOf(rows, f.id, field, dataType) in requested
      {
        var v := ValueOf(rows, f.id, field, dataType).value;
        assert (f.id, v) in bag && v in GroupValues(bag) && Serialize(v) in actual.at;
      }
    }
    if Covered(facts, rows, field, dataType, requested) && requested != [] {
      forall k | k in actual.at ensures Asked(k, requested) {
        var v :| v in GroupValues(bag) && Serialize(v) == k;
        var x :| x in bag && x.1 == v;
      }
    }
  }

  lemma AskedMeaning(v: Typed, requested: seq<Option<Typed>>)
    ensures Asked(Serialize(v), requested) <==> IsPlain(v) && Some(v) in requested
  {
  }

  /** On a covered request each row shows its group's size, nothing for a value no record has. */
  lemma LooksUpSizes(facts: seq<Fact>, rows: seq<IndexValue>, field: string, dataType: DataType, requested: seq<Option<Typed>>)
    requires DistinctFacts(facts) && TypedField(rows, field, dataType)
    requires requested != [] && Covered(facts, rows, field, dataType, requested)
    ensures var bag := GroupedFacts(facts, rows, field, dataType);
            var actual := Actual(bag, GroupValues(bag));
            (forall v :: Look(actual, v) == RequestedSize(bag, v))
            && (forall x :: x in bag ==> x.1 in FirstRequests(requested))
  {
    hide Storable, TypeOf, ValueOf, TypedField, Actual, IsPlain;
    ActualOfFacts(facts, rows, field, dataType);
    var bag := GroupedFacts(facts, rows, field, dataType);
    var actual := Actual(bag, GroupValues(bag));
    forall v: Option<Typed> ensures Look(actual, v) == RequestedSize(bag, v) {
      if v.Some? {
        LookIsSize(bag, actual, v.value);
      }
    }
  }

  lemma LookIsSize(bag: seq<Grouped>, actual: Dict<GroupKey, nat>, v: Typed)
    requires Faithful(bag, GroupValues(bag), actual.at)
    requires forall x :: x in bag ==> IsPlain(x.1)
    ensures Look(actual, Some(v)) == |GroupIds(bag, v)|
  {
    if v in GroupValues(bag) {
      assert IsPlain(v) && Serialize(v) == Plain(v);
    } else {
      assert GroupIds(bag, v) == {};
      forall w | w in GroupValues(bag) ensures Serialize(w) != Plain(v) {
      }
    }
  }

  /** The grouped statement before GROUP BY: the group rows are joined first, then the filters. */
  function GroupStatement(sql: Sql, s: Store, q: Selection, field: string, dataType: DataType): (bag: seq<Grouped>)
    requires ValidStore(s)
    ensures bag == GroupedFacts(Filtered(sql, s, q), s.rows, field, dataType)
  {
    hide Chain, JoinRows, Filtered, GroupedFacts, GroupRows, Column;
    var joined := Chain(sql, JoinRows(Base(s, q), FactId, s.rows, NonNullMeasure(field, dataType)), PairId, s.rows, q.conditions);
    JoinThenFilter(sql, s, q, NonNullMeasure(field, dataType));
    StatementGroups(Filtered(sql, s, q), s.rows, field, dataType);
    GroupRows(joined, dataType)
  }

  lemma RequestedRowsTotal(facts: seq<Fact>, rows: seq<IndexValue>, field: string, dataType: DataType, requested: seq<Option<Typed>>)
    requires DistinctFacts(facts) && TypedField(rows, field, dataType)
    requires requested != [] && Covered(facts, rows, field, dataType, requested)
    ensures var bag := GroupedFacts(facts, rows, field, dataType);
            var actual := Actual(bag, GroupValues(bag));
            RowTotal(RequestedRows(actual, requested)) == |facts| <==> NoRepeats(bag, requested)
  {
    hide Covered, TypedField, Actual, GroupIds, Look, ValueOf, AllAsked;
    var bag := GroupedFacts(facts, rows, field, dataType);
    CoverageIsExact(facts, rows, field, dataType, requested);
    LooksUpSizes(facts, rows, field, dataType, requested);
    RequestedTotal(bag, Actual(bag, GroupValues(bag)), requested);
    GroupedOnce(facts, rows, field, dataType);
    GroupsPartition(bag, FirstRequests(requested));
    RepeatedNothing(bag, requested);
  }

  /** The branch `group_count` of execute_catalog_query; `sorted` is the order of the answer's keys. */
  method GroupCount(sql: Sql, s: Store, q: Selection, field: string, dataType: DataType, groups: seq<Scalar>, sorted: set<GroupKey> -> seq<GroupKey>)
    returns (r: Result<GroupAnswer, GroupError>)
    requires ValidStore(s) && TypedField(s.rows, field, dataType)
    requires forall keys :: Distinct(sorted(keys)) && forall k :: k in sorted(keys) <==> k in keys
    ensures NormalizeAll(dataType, groups).Failure? ==> r == Failure(RequestRejected(NormalizeAll(dataType, groups).error))
    ensures NormalizeAll(dataType, groups).Success? ==>
              var records, requested := Filtered(sql, s, q), NormalizeAll(dataType, groups).value;
              && (r.Success? <==> Covered(records, s.rows, field, dataType, requested))
              && (r.Success? ==>
                    && r.value.recordCount == r.value.groupedCount == |records|
                    && (requested == [] ==> RowTotal(r.value.rows) == |records|)
                    && (requested != [] ==> |r.value.rows| == |requested|)
                    && (requested != [] ==> (RowTotal(r.value.rows) == |records| <==>
                          NoRepeats(GroupedFacts(records, s.rows, field, dataType), requested))))
  {
    hide Filtered, GroupedFacts, Actual, Covered, Total, TypedField, Asked, NormalizeAll, NoRepeats, EvidenceCounts, AllAsked, Faithful;
    var records := Filtered(sql, s, q);
    FilteredRecords(sql, s, q);
    var recordCount := EvidenceCounts(records).0;
    var bag := GroupStatement(sql, s, q, field, dataType);
    var actual := Actual(bag, GroupValues(bag));
    ActualOfFacts(records, s.rows, field, dataType);
    var grouped := Total(actual.keys, actual.at);
    var compiled := NormalizeAll(dataType, groups);
    if compiled.Failure? {
      return Failure(RequestRejected(compiled.error));
    }
    var requested := compiled.value;
    CoverageIsExact(records, s.rows, field, dataType, requested);
    var unexpected := if requested == [] then {} else Unexpected(actual, requested);
    if recordCount - grouped != 0 || unexpected != {} {
      return Failure(CoverageFailed(recordCount - grouped, unexpected));
    }
    var rows;
    if requested != [] {
      rows := RequestedRows(actual, requested);
      RequestedRowsTotal(records, s.rows, field, dataType, requested);
    } else {
      var keys := sorted(actual.at.Keys);
      rows := ActualRows(keys, actual.at);
      ActualTotal(keys, actual.at);
      TotalReordered(keys, actual.keys, actual.at);
    }
    r := Success(GroupAnswer(rows, recordCount, grouped));
  }

  function Unexpected(actual: Dict<GroupKey, nat>, requested: seq<Option<Typed>>): (keys: set<GroupKey>)
    ensures keys == {} <==> AllAsked(actual, requested)
  {
    var keys := set k | k in actual.at && !Asked(k, requested);
    assert forall k :: k in actual.at && !Asked(k, requested) ==> k in keys;
    keys
  }
}
