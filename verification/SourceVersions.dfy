/** Which source replaces which: the declared graph, the cycle check, and the sources visible at a time cut. */
module SourceVersions {
  import opened Wrappers

  type Graph = map<nat, nat>

  // ----- reachability in a functional graph -----

  /** y lies on the walk from x; each edge is used once. */
  predicate Reach(g: Graph, x: nat, y: nat)
    decreases |g|
  {
    x == y || (x in g && Reach(g - {x}, g[x], y))
  }

  predicate Acyclic(g: Graph) {
    forall x :: x in g ==> !Reach(g, g[x], x)
  }

  predicate Within(h: Graph, g: Graph) {
    forall x :: x in h ==> x in g && h[x] == g[x]
  }

  lemma {:induction false} ReachMore(h: Graph, g: Graph, x: nat, y: nat)
    requires Within(h, g) && Reach(h, x, y)
    ensures Reach(g, x, y)
    decreases |h|
  {
    if x != y {
      ReachMore(h - {x}, g - {x}, h[x], y);
    }
  }

  lemma AcyclicWithin(h: Graph, g: Graph)
    requires Within(h, g) && Acyclic(g)
    ensures Acyclic(h)
  {
    forall x | x in h ensures !Reach(h, h[x], x) {
      if Reach(h, h[x], x) {
        ReachMore(h, g, h[x], x);
      }
    }
  }

  /** A walk either avoids a node or can be restarted after it. */
  lemma {:induction false} Avoid(g: Graph, a: nat, x: nat, y: nat)
    requires Reach(g, x, y)
    ensures Reach(g - {a}, x, y) || (a in g && Reach(g - {a}, g[a], y))
    decreases |g|
  {
    if x != y && x != a {
      Avoid(g - {x}, a, g[x], y);
      assert g - {x} - {a} == g - {a} - {x};
      if !Reach(g - {x} - {a}, g[x], y) {
        ReachMore(g - {x} - {a}, g - {a}, g[a], y);
      }
    }
  }

  lemma {:induction false} ReachTransitive(g: Graph, x: nat, y: nat, z: nat)
    requires Reach(g, x, y) && Reach(g, y, z)
    ensures Reach(g, x, z)
    decreases |g|
  {
    if x != y && x != z {
      Avoid(g, x, y, z);
      if Reach(g - {x}, y, z) {
        ReachTransitive(g - {x}, g[x], y, z);
      }
    }
  }

  /** What one more edge makes reachable. */
  lemma {:induction false} ReachWithEdge(g: Graph, s: nat, r: nat, x: nat, y: nat)
    requires s !in g && Reach(g[s := r], x, y)
    ensures Reach(g, x, y) || (Reach(g, x, s) && Reach(g, r, y))
    decreases |g|
  {
    if x != y {
      if x == s {
        assert g[s := r] - {s} == g;
      } else {
        var rest := g - {x};
        assert g[s := r] - {x} == rest[s := r];
        ReachWithEdge(rest, s, r, g[x], y);
        if !Reach(rest, g[x], y) {
          ReachMore(rest, g, r, y);
        }
      }
    }
  }

  lemma AddingKeepsAcyclic(g: Graph, s: nat, r: nat)
    requires Acyclic(g) && s !in g && !Reach(g, r, s)
    ensures Acyclic(g[s := r])
  {
    var h := g[s := r];
    forall x | x in h ensures !Reach(h, h[x], x) {
      if Reach(h, h[x], x) {
        ReachWithEdge(g, s, r, h[x], x);
        if x != s {
          assert Reach(g - {x}, g[x], g[x]);
          ReachTransitive(g, r, x, g[x]);
          ReachTransitive(g, r, g[x], s);
        }
      }
    }
  }

  /** Where the walk from x stops. */
  function End(g: Graph, x: nat): (y: nat)
    decreases |g|
  {
    if x in g then End(g - {x}, g[x]) else x
  }

  lemma {:induction false} EndIsReached(g: Graph, x: nat)
    ensures Reach(g, x, End(g, x))
    decreases |g|
  {
    if x in g {
      EndIsReached(g - {x}, g[x]);
    }
  }

  /** Without cycles the walk stops at a node nothing replaces. */
  lemma {:induction false} EndIsFree(g: Graph, x: nat)
    requires Acyclic(g)
    ensures End(g, x) !in g
    decreases |g|
  {
    if x in g {
      AcyclicWithin(g - {x}, g);
      EndIsFree(g - {x}, g[x]);
      EndIsReached(g - {x}, g[x]);
      ReachMore(g - {x}, g, g[x], End(g - {x}, g[x]));
    }
  }

  lemma {:induction false} OnlyEndIsFree(g: Graph, x: nat, y: nat)
    requires Reach(g, x, y) && y !in g
    ensures y == End(g, x)
    decreases |g|
  {
    if x != y {
      OnlyEndIsFree(g - {x}, g[x], y);
    }
  }

  // ----- declarations -----

  datatype Item = Item(tenant: string, unit: string, createdAt: int)

  datatype Declaration = Declaration(tenant: string, unit: string, replacement: nat, createdAt: int)

  datatype SourceRecord = SourceRecord(item: nat, tenant: string, unit: string, passed: bool, createdAt: int)

  datatype SupersessionError =
    | ReplacesItself | NoSuchFile | OutsideScope | OtherUnit | Older | NotApproved | AlreadyReplaced | Cycle

  function GraphOf(declarations: map<nat, Declaration>): (g: Graph)
    ensures g.Keys == declarations.Keys && forall x :: x in g ==> g[x] == declarations[x].replacement
  {
    map x | x in declarations :: declarations[x].replacement
  }

  /** The item has a passed record in the tenant and unit. */
  predicate Approved(records: seq<SourceRecord>, item: nat, tenant: string, unit: string) {
    exists r :: r in records && r.item == item && r.tenant == tenant && r.unit == unit && r.passed
  }

  /** A declaration joins two items of its tenant and unit, the replacement no older. */
  predicate Coherent(items: map<nat, Item>, s: nat, d: Declaration) {
    && s in items && d.replacement in items
    && items[s].tenant == d.tenant && items[d.replacement].tenant == d.tenant
    && items[s].unit == d.unit && items[d.replacement].unit == d.unit
    && items[s].createdAt <= items[d.replacement].createdAt
  }

  /** The checks before the cycle walk, in order. */
  function EarlyError(items: map<nat, Item>, records: seq<SourceRecord>, declarations: map<nat, Declaration>,
                      tenant: string, allowed: set<string>, superseded: nat, replacement: nat): Option<SupersessionError>
  {
    if superseded == replacement then Some(ReplacesItself)
    else if superseded !in items || replacement !in items then Some(NoSuchFile)
    else
      var earlier, later := items[superseded], items[replacement];
      if earlier.tenant != tenant || later.tenant != tenant || earlier.unit !in allowed || later.unit !in allowed then Some(OutsideScope)
      else if earlier.unit != later.unit then Some(OtherUnit)
      else if later.createdAt < earlier.createdAt then Some(Older)
      else if !Approved(records, superseded, tenant, earlier.unit) || !Approved(records, replacement, tenant, earlier.unit) then Some(NotApproved)
      else if superseded in declarations then Some(AlreadyReplaced)
      else None
  }

  class Sources {
    var items: map<nat, Item>
    var records: seq<SourceRecord>
    var declarations: map<nat, Declaration>

    ghost predicate Valid()
      reads this
    {
      Acyclic(GraphOf(declarations)) && forall s :: s in declarations ==> Coherent(items, s, declarations[s])
    }

    constructor ()
      ensures Valid() && items == map[] && records == [] && declarations == map[]
    {
      items, records, declarations := map[], [], map[];
    }

    method AddItem(id: nat, item: Item)
      requires Valid() && id !in items
      modifies this`items
      ensures Valid() && items == old(items)[id := item]
    {
      items := items[id := item];
    }

    /** Records come and go with imports; declarations stay. */
    method SetRecords(current: seq<SourceRecord>)
      requires Valid()
      modifies this`records
      ensures Valid() && records == current
    {
      records := current;
    }

    /** declare_source_supersession: the cursor finds a cycle exactly when the replacement leads back. */
    method Declare(tenant: string, allowed: set<string>, superseded: nat, replacement: nat, now: int)
      returns (r: Result<Declaration, SupersessionError>)
      requires Valid()
      modifies this`declarations
      ensures Valid()
      ensures match EarlyError(items, records, old(declarations), tenant, allowed, superseded, replacement)
              case Some(e) => r == Failure(e) && declarations == old(declarations)
              case None =>
                if Reach(GraphOf(old(declarations)), replacement, superseded)
                then r == Failure(Cycle) && declarations == old(declarations)
                else r == Success(Declaration(tenant, items[superseded].unit, replacement, now))
                     && declarations == old(declarations)[superseded := r.value]
    {
      var error := EarlyError(items, records, declarations, tenant, allowed, superseded, replacement);
      if error.Some? {
        return Failure(error.value);
      }
      ghost var g := GraphOf(declarations);
      var cursor, visited: set<nat> := replacement, {};
      assert g - visited == g;
      while cursor !in visited
        invariant superseded !in visited
        invariant visited <= declarations.Keys
        invariant Reach(g, replacement, superseded) <==> Reach(g - visited, cursor, superseded)
        decreases declarations.Keys - visited
      {
        if cursor == superseded {
          return Failure(Cycle);
        }
        if cursor !in declarations {
          break;
        }
        assert g - visited - {cursor} == g - (visited + {cursor});
        visited := visited + {cursor};
        cursor := declarations[cursor].replacement;
      }
      var d := Declaration(tenant, items[superseded].unit, replacement, now);
      AddingKeepsAcyclic(g, superseded, replacement);
      declarations := declarations[superseded := d];
      assert GraphOf(declarations) == g[superseded := replacement];
      r := Success(d);
    }
  }

  // ----- the time cut -----

  datatype Cut = Cut(tenant: string, units: set<string>, before: int)

  /** source_supersession_map */
  function CutGraph(declarations: map<nat, Declaration>, cut: Cut, eligible: seq<nat>): (g: Graph)
    ensures Within(g, GraphOf(declarations))
    ensures forall s :: s in g ==> s in eligible && declarations[s].tenant == cut.tenant
                                   && declarations[s].unit in cut.units && declarations[s].createdAt <= cut.before
  {
    if cut.units == {} || eligible == [] then map[]
    else map s | s in declarations && declarations[s].tenant == cut.tenant && declarations[s].unit in cut.units
                 && declarations[s].createdAt <= cut.before && s in eligible :: declarations[s].replacement
  }

  /** default_source_item_ids */
  function Defaults(eligible: seq<nat>, g: Graph): (ids: seq<nat>)
    ensures forall i :: i in ids <==> i in eligible && i !in g
  {
    if eligible == [] then []
    else
      var last := eligible[|eligible| - 1];
      Defaults(eligible[..|eligible| - 1], g) + (if last in g then [] else [last])
  }

  /** Every declared replacement of an eligible source is eligible too. */
  predicate Closed(eligible: seq<nat>, g: Graph) {
    forall s :: s in g ==> g[s] in eligible
  }

  lemma {:induction false} StaysEligible(eligible: seq<nat>, g: Graph, h: Graph, x: nat)
    requires Closed(eligible, g) && Within(h, g) && x in eligible
    ensures End(h, x) in eligible
    decreases |h|
  {
    if x in h {
      StaysEligible(eligible, g, h - {x}, h[x]);
    }
  }

  lemma {:induction false} StaysInUnit(items: map<nat, Item>, declarations: map<nat, Declaration>, h: Graph, x: nat)
    requires forall s :: s in declarations ==> Coherent(items, s, declarations[s])
    requires Within(h, GraphOf(declarations)) && x in items
    ensures End(h, x) in items && items[End(h, x)].tenant == items[x].tenant && items[End(h, x)].unit == items[x].unit
    ensures items[x].createdAt <= items[End(h, x)].createdAt
    decreases |h|
  {
    if x in h {
      assert Coherent(items, x, declarations[x]);
      StaysInUnit(items, declarations, h - {x}, h[x]);
    }
  }

  /**
   * In every reachable state and for every cut, each eligible source leads to exactly one default source,
   * in its tenant and unit and no older, if the eligible set is closed under replacement.
   */
  lemma OneDefaultEach(sources: Sources, cut: Cut, eligible: seq<nat>, x: nat)
    requires sources.Valid() && x in eligible && x in sources.items
    requires Closed(eligible, CutGraph(sources.declarations, cut, eligible))
    ensures var g := CutGraph(sources.declarations, cut, eligible);
            var d := End(g, x);
            && d in Defaults(eligible, g) && Reach(g, x, d)
            && (forall y :: y in Defaults(eligible, g) && Reach(g, x, y) ==> y == d)
            && d in sources.items && sources.items[d].tenant == sources.items[x].tenant
            && sources.items[d].unit == sources.items[x].unit && sources.items[x].createdAt <= sources.items[d].createdAt
  {
    var g := CutGraph(sources.declarations, cut, eligible);
    AcyclicWithin(g, GraphOf(sources.declarations));
    EndIsFree(g, x);
    EndIsReached(g, x);
    StaysEligible(eligible, g, g, x);
    StaysInUnit(sources.items, sources.declarations, g, x);
    forall y | y in Defaults(eligible, g) && Reach(g, x, y) ensures y == End(g, x) {
      OnlyEndIsFree(g, x, y);
    }
  }

  predicate HasDefault(eligible: seq<nat>, g: Graph, x: nat) {
    exists d :: d in Defaults(eligible, g) && Reach(g, x, d)
  }

  /** Every eligible source leads to a default one if and only if the eligible set is closed. */
  lemma AllReachDefaultsWhenClosed(declarations: map<nat, Declaration>, cut: Cut, eligible: seq<nat>)
    requires Acyclic(GraphOf(declarations))
    ensures var g := CutGraph(declarations, cut, eligible);
            Closed(eligible, g) <==> forall x :: x in eligible ==> HasDefault(eligible, g, x)
  {
    var g := CutGraph(declarations, cut, eligible);
    AcyclicWithin(g, GraphOf(declarations));
    if Closed(eligible, g) {
      forall x | x in eligible ensures HasDefault(eligible, g, x) {
        EndIsFree(g, x);
        EndIsReached(g, x);
        StaysEligible(eligible, g, g, x);
      }
    }
    if forall x :: x in eligible ==> HasDefault(eligible, g, x) {
      forall s | s in g ensures g[s] in eligible {
        assert HasDefault(eligible, g, s);
        var d :| d in Defaults(eligible, g) && Reach(g, s, d);
        assert Reach(g - {s}, g[s], d);
        assert g[s] == d || g[s] in g;
      }
    }
  }

  // ----- freezing a scope -----

  datatype Frozen = Frozen(sources: seq<nat>, superseded: set<nat>)

  /** The items with a passed record in the scope, not later than the cut. */
  function EligibleItems(records: seq<SourceRecord>, cut: Cut): (ids: set<nat>)
    ensures forall i :: i in ids <==>
              exists r :: r in records && r.item == i && r.tenant == cut.tenant && r.unit in cut.units && r.passed && r.createdAt <= cut.before
  {
    set r | r in records && r.tenant == cut.tenant && r.unit in cut.units && r.passed && r.createdAt <= cut.before :: r.item
  }

  /** freeze_question_scope */
  function Freeze(declarations: map<nat, Declaration>, cut: Cut, eligible: seq<nat>, selected: Option<nat>): Frozen {
    var g := CutGraph(declarations, cut, eligible);
    Frozen(match selected
           case None => Defaults(eligible, g)
           case Some(i) => if i in eligible then [i] else [],
           g.Keys)
  }

  /** Whatever was approved in the scope before the cut is represented among the sources of a closed scope. */
  lemma ApprovedIsRepresented(sources: Sources, cut: Cut, eligible: seq<nat>, r: SourceRecord)
    requires sources.Valid()
    requires forall i :: i in eligible <==> i in EligibleItems(sources.records, cut)
    requires Closed(eligible, CutGraph(sources.declarations, cut, eligible))
    requires r in sources.records && r.passed && r.tenant == cut.tenant && r.unit in cut.units && r.createdAt <= cut.before
    ensures exists d :: d in Freeze(sources.declarations, cut, eligible, None).sources
                        && Reach(CutGraph(sources.declarations, cut, eligible), r.item, d)
  {
    AllReachDefaultsWhenClosed(sources.declarations, cut, eligible);
    assert r.item in eligible;
    assert HasDefault(eligible, CutGraph(sources.declarations, cut, eligible), r.item);
  }

  /** Without closure everything can disappear: the replacement's own records are not in the cut. */
  lemma OpenScopeCanVanish()
    ensures var declarations := map[1 := Declaration("t", "u", 2, 0)];
            && Acyclic(GraphOf(declarations))
            && Freeze(declarations, Cut("t", {"u"}, 0), [1], None).sources == []
  {
    var declarations := map[1 := Declaration("t", "u", 2, 0)];
    var g := CutGraph(declarations, Cut("t", {"u"}, 0), [1]);
    assert 1 in g;
    assert [1][..0] == [];
    assert Defaults([1][..0], g) == [];
  }
}
