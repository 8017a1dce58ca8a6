/** Counting distinct identities: the joins of SafeQuery's count, and what they count. */
module IdentityCounts {
  import opened Wrappers
  import opened Values
  import opened Records
  import opened Facts
  import opened IndexQueries
  import opened QueryEngines

  /** A row of the identity statement: the record and the identity columns selected so far. */
  type Identified = (Fact, seq<Typed>)

  function IdentifiedId(x: Identified): nat {
    x.0.id
  }

  function Start(facts: seq<Fact>): (bag: seq<Identified>)
    ensures forall x :: x in bag <==> x.0 in facts && x.1 == []
  {
    if facts == [] then [] else Start(facts[..|facts| - 1]) + [(facts[|facts| - 1], [])]
  }

  function Extend(x: Identified, matches: seq<IndexValue>, dataType: DataType): (bag: seq<Identified>)
    requires forall v :: v in matches ==> Column(v.columns, dataType).Some?
    ensures forall y :: y in bag <==> exists v :: v in matches && y == (x.0, x.1 + [Column(v.columns, dataType).value])
  {
    if matches == [] then []
    else
      var n := |matches| - 1;
      assert matches == matches[..n] + [matches[n]];
      Extend(x, matches[..n], dataType) + [(x.0, x.1 + [Column(matches[n].columns, dataType).value])]
  }

  /** JOIN safe_identity_n ... WHERE the identity column is not NULL */
  function JoinIdentity(bag: seq<Identified>, rows: seq<IndexValue>, field: string, dataType: DataType): seq<Identified> {
    if bag == [] then []
    else
      var last := bag[|bag| - 1];
      JoinIdentity(bag[..|bag| - 1], rows, field, dataType)
      + Extend(last, Matches(rows, last.0.id, NonNullMeasure(field, dataType)), dataType)
  }

  function IdentityChain(facts: seq<Fact>, rows: seq<IndexValue>, fields: seq<string>, types: FieldTypeMap): seq<Identified>
    requires forall f :: f in fields ==> f in types
  {
    if fields == [] then Start(facts)
    else
      var n := |fields| - 1;
      JoinIdentity(IdentityChain(facts, rows, fields[..n], types), rows, fields[n], types[fields[n]])
  }

  function Tuples(bag: seq<Identified>): (tuples: set<seq<Typed>>)
    ensures forall t :: t in tuples <==> exists x :: x in bag && x.1 == t
  {
    set x | x in bag :: x.1
  }

  /** count(*) over the distinct identity tuples of the filtered records. */
  function SafeCount(sql: Sql, s: Store, q: Selection, fields: seq<string>, types: FieldTypeMap): nat
    requires forall f :: f in fields ==> f in types
  {
    |Tuples(Chain(sql, IdentityChain(Base(s, q), s.rows, fields, types), IdentifiedId, s.rows, q.conditions))|
  }

  // ----- what is counted -----

  /** A record's value of a field, without a role. */
  function ValueOf(rows: seq<IndexValue>, id: nat, field: string, dataType: DataType): (value: Option<Typed>)
    ensures value.Some? <==> Matches(rows, id, NonNullMeasure(field, dataType)) != []
  {
    var found := Matches(rows, id, NonNullMeasure(field, dataType));
    if found == [] then None
    else
      assert found[0] in found;
      Column(found[0].columns, dataType)
  }

  predicate Identifiable(rows: seq<IndexValue>, id: nat, fields: seq<string>, types: FieldTypeMap)
    requires forall f :: f in fields ==> f in types
  {
    forall f :: f in fields ==> ValueOf(rows, id, f, types[f]).Some?
  }

  function IdentityOf(rows: seq<IndexValue>, id: nat, fields: seq<string>, types: FieldTypeMap): (tuple: seq<Typed>)
    requires forall f :: f in fields ==> f in types
    requires Identifiable(rows, id, fields, types)
    ensures |tuple| == |fields|
    ensures forall i :: 0 <= i < |fields| ==> ValueOf(rows, id, fields[i], types[fields[i]]) == Some(tuple[i])
  {
    seq(|fields|, i requires 0 <= i < |fields| => ValueOf(rows, id, fields[i], types[fields[i]]).value)
  }

  /** With unique rows a join can only add the record's one value. */
  lemma ExtendsByValue(x: Identified, y: Identified, rows: seq<IndexValue>, field: string, dataType: DataType)
    requires UniqueRows(rows)
    ensures y in Extend(x, Matches(rows, x.0.id, NonNullMeasure(field, dataType)), dataType)
       <==> ValueOf(rows, x.0.id, field, dataType).Some? && y == (x.0, x.1 + [ValueOf(rows, x.0.id, field, dataType).value])
  {
    var m := Matches(rows, x.0.id, NonNullMeasure(field, dataType));
    AtMostOneMatch(rows, x.0.id, field, NonNullMeasure(field, dataType));
    if m != [] {
      assert m == [m[0]] && m[0] in m;
    }
  }

  lemma {:induction false} JoinIdentityMembers(bag: seq<Identified>, rows: seq<IndexValue>, field: string, dataType: DataType, y: Identified)
    requires UniqueRows(rows) && |y.1| > 0
    ensures y in JoinIdentity(bag, rows, field, dataType)
       <==> (y.0, y.1[..|y.1| - 1]) in bag && ValueOf(rows, y.0.id, field, dataType) == Some(y.1[|y.1| - 1])
  {
    if bag != [] {
      var init, last := bag[..|bag| - 1], bag[|bag| - 1];
      JoinIdentityMembers(init, rows, field, dataType, y);
      hide ValueOf, Extend, Matches;
      ExtendsByValue(last, y, rows, field, dataType);
      assert y.1 == y.1[..|y.1| - 1] + [y.1[|y.1| - 1]];
      assert bag == init + [last];
      if (y.0, y.1[..|y.1| - 1]) == last {
        assert last.0 == y.0;
      }
    }
  }

  lemma {:induction false} ChainLength(facts: seq<Fact>, rows: seq<IndexValue>, fields: seq<string>, types: FieldTypeMap, x: Identified)
    requires forall f :: f in fields ==> f in types
    requires x in IdentityChain(facts, rows, fields, types)
    ensures |x.1| == |fields|
  {
    if fields != [] {
      var n := |fields| - 1;
      var y := JoinOrigin(IdentityChain(facts, rows, fields[..n], types), rows, fields[n], types[fields[n]], x);
      ChainLength(facts, rows, fields[..n], types, y);
    }
  }

  lemma {:induction false} JoinOrigin(bag: seq<Identified>, rows: seq<IndexValue>, field: string, dataType: DataType, x: Identified) returns (y: Identified)
    requires x in JoinIdentity(bag, rows, field, dataType)
    ensures y in bag && |x.1| == |y.1| + 1
  {
    var last := bag[|bag| - 1];
    if x in Extend(last, Matches(rows, last.0.id, NonNullMeasure(field, dataType)), dataType) {
      y := last;
    } else {
      y := JoinOrigin(bag[..|bag| - 1], rows, field, dataType, x);
    }
  }

  /** x pairs a record with exactly its identity. */
  predicate Pairs(facts: seq<Fact>, rows: seq<IndexValue>, fields: seq<string>, types: FieldTypeMap, x: Identified)
    requires forall f :: f in fields ==> f in types
  {
    && x.0 in facts && |x.1| == |fields|
    && forall i :: 0 <= i < |fields| ==> ValueOf(rows, x.0.id, fields[i], types[fields[i]]) == Some(x.1[i])
  }

  lemma PairsLast(facts: seq<Fact>, rows: seq<IndexValue>, fields: seq<string>, types: FieldTypeMap, x: Identified)
    requires forall f :: f in fields ==> f in types
    requires |x.1| == |fields| > 0
    ensures var n := |fields| - 1;
            Pairs(facts, rows, fields, types, x) <==>
              Pairs(facts, rows, fields[..n], types, (x.0, x.1[..n]))
              && ValueOf(rows, x.0.id, fields[n], types[fields[n]]) == Some(x.1[n])
  {
    hide ValueOf;
    var n := |fields| - 1;
    if Pairs(facts, rows, fields[..n], types, (x.0, x.1[..n])) {
      assert forall i :: 0 <= i < n ==> fields[..n][i] == fields[i] && x.1[..n][i] == x.1[i];
    }
  }

  /** The identity joins pair each record that has every identity value with exactly its identity. */
  lemma {:induction false} IdentityChainMembers(facts: seq<Fact>, rows: seq<IndexValue>, fields: seq<string>, types: FieldTypeMap, x: Identified)
    requires UniqueRows(rows)
    requires forall f :: f in fields ==> f in types
    ensures x in IdentityChain(facts, rows, fields, types) <==> Pairs(facts, rows, fields, types, x)
  {
    if fields == [] {
    } else if |x.1| == |fields| {
      var n := |fields| - 1;
      var before := (x.0, x.1[..n]);
      hide ValueOf, JoinIdentity, Pairs;
      PairsLast(facts, rows, fields, types, x);
      IdentityChainMembers(facts, rows, fields[..n], types, before);
      JoinIdentityMembers(IdentityChain(facts, rows, fields[..n], types), rows, fields[n], types[fields[n]], x);
    } else if x in IdentityChain(facts, rows, fields, types) {
      ChainLength(facts, rows, fields, types, x);
    }
  }

  lemma PairsIsIdentity(facts: seq<Fact>, rows: seq<IndexValue>, fields: seq<string>, types: FieldTypeMap, x: Identified)
    requires forall f :: f in fields ==> f in types
    ensures Pairs(facts, rows, fields, types, x)
       <==> x.0 in facts && Identity(rows, fields, types)(x.0.id) == Some(x.1)
  {
    hide ValueOf;
    if Pairs(facts, rows, fields, types, x) {
      forall f | f in fields ensures ValueOf(rows, x.0.id, f, types[f]).Some? {
        var i :| 0 <= i < |fields| && fields[i] == f;
      }
      assert x.1 == IdentityOf(rows, x.0.id, fields, types);
    }
  }

  // ----- counting by images -----

  /** The distinct values a function takes on a set. */
  function Image<T(!new)>(ids: set<nat>, f: nat -> T): (image: set<T>)
    ensures forall t :: t in image <==> exists i :: i in ids && f(i) == t
  {
    set i | i in ids :: f(i)
  }

  /** Two functions that identify the same elements take equally many values. */
  lemma {:induction false} SameKernelSameCount<A(!new), B(!new)>(ids: set<nat>, f: nat -> A, g: nat -> B)
    requires forall i, j :: i in ids && j in ids ==> (f(i) == f(j) <==> g(i) == g(j))
    ensures |Image(ids, f)| == |Image(ids, g)|
  {
    if ids != {} {
      var i :| i in ids;
      var rest := ids - {i};
      SameKernelSameCount(rest, f, g);
      ImageStep(rest, i, f);
      ImageStep(rest, i, g);
      if f(i) in Image(rest, f) {
        var j :| j in rest && f(j) == f(i);
        assert g(j) == g(i);
      } else {
        forall j | j in rest ensures g(j) != g(i) {
          assert f(j) in Image(rest, f);
        }
      }
      assert ids == rest + {i};
    } else {
      assert Image(ids, f) == {} && Image(ids, g) == {};
    }
  }

  lemma ImageStep<T(!new)>(rest: set<nat>, i: nat, f: nat -> T)
    ensures |Image(rest + {i}, f)| == |Image(rest, f)| + (if f(i) in Image(rest, f) then 0 else 1)
  {
    forall t ensures t in Image(rest + {i}, f) <==> t in Image(rest, f) || t == f(i) {
      assert i in rest + {i};
      assert forall j :: j in rest ==> j in rest + {i};
    }
    hide Image;
    assert Image(rest + {i}, f) == Image(rest, f) + {f(i)};
  }

  /** The records a selection means that have every identity value. */
  function CountedIds(sql: Sql, s: Store, q: Selection, fields: seq<string>, types: FieldTypeMap): (ids: set<nat>)
    requires forall f :: f in fields ==> f in types
    ensures forall id :: id in ids <==>
              exists f :: f in s.facts && f.id == id && Selects(sql, s, q, f) && Identifiable(s.rows, id, fields, types)
  {
    set f | f in s.facts && Selects(sql, s, q, f) && Identifiable(s.rows, f.id, fields, types) :: f.id
  }

  function Identity(rows: seq<IndexValue>, fields: seq<string>, types: FieldTypeMap): (f: nat -> Option<seq<Typed>>)
    requires forall f :: f in fields ==> f in types
    ensures forall id :: f(id) == if Identifiable(rows, id, fields, types) then Some(IdentityOf(rows, id, fields, types)) else None
  {
    (id: nat) => if Identifiable(rows, id, fields, types) then Some(IdentityOf(rows, id, fields, types)) else None
  }

  function Wrapped(tuples: set<seq<Typed>>): (w: set<Option<seq<Typed>>>)
    ensures forall t :: t in w <==> t.Some? && t.value in tuples
  {
    set t | t in tuples :: Some(t)
  }

  lemma {:induction false} WrappedCount(tuples: set<seq<Typed>>)
    ensures |Wrapped(tuples)| == |tuples|
  {
    if tuples != {} {
      var t :| t in tuples;
      WrappedCount(tuples - {t});
      assert Wrapped(tuples) == Wrapped(tuples - {t}) + {Some(t)};
    } else {
      assert Wrapped(tuples) == {};
    }
  }

  /** The chain of identity joins and filters counts the distinct identities of the selected records. */
  lemma SafeCountMeaning(sql: Sql, s: Store, q: Selection, fields: seq<string>, types: FieldTypeMap)
    requires ValidStore(s)
    requires forall f :: f in fields ==> f in types
    ensures SafeCount(sql, s, q, fields, types)
         == |Image(CountedIds(sql, s, q, fields, types), Identity(s.rows, fields, types))|
  {
    hide SatisfiesAll, FactPredicate, Chain, IdentityChain, Identifiable, IdentityOf, Pairs;
    var bag := IdentityChain(Base(s, q), s.rows, fields, types);
    ChainIsConjunction(sql, bag, IdentifiedId, s.rows, q.conditions);
    var selected := Chain(sql, bag, IdentifiedId, s.rows, q.conditions);
    var ids, identity := CountedIds(sql, s, q, fields, types), Identity(s.rows, fields, types);
    forall x ensures x in selected <==> x.0 in s.facts && Selects(sql, s, q, x.0) && identity(x.0.id) == Some(x.1) {
      IdentityChainMembers(Base(s, q), s.rows, fields, types, x);
      PairsIsIdentity(Base(s, q), s.rows, fields, types, x);
    }
    forall t ensures t in Wrapped(Tuples(selected)) <==> t in Image(ids, identity) {
      if t in Wrapped(Tuples(selected)) {
        var x :| x in selected && x.1 == t.value;
        assert x.0.id in ids;
      }
      if t in Image(ids, identity) {
        var id :| id in ids && identity(id) == t;
        var f :| f in s.facts && f.id == id && Selects(sql, s, q, f) && Identifiable(s.rows, id, fields, types);
        assert (f, t.value) in selected;
      }
    }
    assert Wrapped(Tuples(selected)) == Image(ids, identity);
    WrappedCount(Tuples(selected));
  }
}
