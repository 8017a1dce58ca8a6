/** Statement order and foreign keys: which delete orders count right, and when importing again can clear an item. */
module ReimportTables {
  import opened Wrappers
  import opened BuildTables

  // ----- any order of the cascading deletes -----

  datatype Chain = LineageRows | IndexRows | RecordRows

  /** A CASCADE from c reaches d. */
  predicate Below(d: Chain, c: Chain) {
    (d.LineageRows? && !c.LineageRows?) || (d.IndexRows? && c.RecordRows?)
  }

  function CountAt(t: Tables, item: nat, c: Chain): nat {
    match c
    case LineageRows => |LineageOf(t, IndicesOf(t, RecordsOf(t, item)))|
    case IndexRows => |IndicesOf(t, RecordsOf(t, item))|
    case RecordRows => |RecordsOf(t, item)|
  }

  function Apply(t: Tables, item: nat, c: Chain): Tables {
    match c
    case LineageRows => DeleteLineage(t, LineageOf(t, IndicesOf(t, RecordsOf(t, item))))
    case IndexRows => DeleteIndices(t, IndicesOf(t, RecordsOf(t, item)))
    case RecordRows => DeleteRecords(t, RecordsOf(t, item))
  }

  /** The row counts the deletes report when they run in the given order. */
  function Reported(t: Tables, item: nat, order: seq<Chain>): (counts: seq<nat>)
    ensures |counts| == |order|
    decreases |order|
  {
    if order == [] then [] else [CountAt(t, item, order[0])] + Reported(Apply(t, item, order[0]), item, order[1..])
  }

  /** A cascade leaves nothing to count below it; other deletes do not interfere. */
  lemma ApplyCounts(t: Tables, item: nat, c: Chain, d: Chain)
    requires c != d
    ensures CountAt(Apply(t, item, c), item, d) == if Below(d, c) then 0 else CountAt(t, item, d)
  {
    var u, records := Apply(t, item, c), RecordsOf(t, item);
    var indices := IndicesOf(t, records);
    match c {
      case LineageRows =>
        assert IndicesOf(u, records) == indices && RecordsOf(u, item) == records;
      case IndexRows =>
        assert RecordsOf(u, item) == records && IndicesOf(u, records) == {};
        assert LineageOf(u, {}) == {};
      case RecordRows =>
        assert RecordsOf(u, item) == {} && IndicesOf(u, {}) == {} && LineageOf(u, {}) == {};
    }
  }

  predicate NoRepeats(order: seq<Chain>) {
    forall i, j :: 0 <= i < j < |order| ==> order[i] != order[j]
  }

  predicate Preempted(order: seq<Chain>, j: nat)
    requires j < |order|
  {
    exists i :: 0 <= i < j && Below(order[j], order[i])
  }

  lemma {:induction false} ReportedCounts(t: Tables, item: nat, order: seq<Chain>, j: nat)
    requires NoRepeats(order) && j < |order|
    ensures Reported(t, item, order)[j] == if Preempted(order, j) then 0 else CountAt(t, item, order[j])
    decreases j
  {
    hide CountAt, Apply, Below;
    if j > 0 {
      var rest, u := order[1..], Apply(t, item, order[0]);
      assert forall i :: 0 <= i < |rest| ==> rest[i] == order[i + 1];
      ReportedCounts(u, item, rest, j - 1);
      ApplyCounts(t, item, order[0], order[j]);
      assert Preempted(order, j) <==> Below(order[j], order[0]) || Preempted(rest, j - 1) by {
        if Preempted(rest, j - 1) {
          var i :| 0 <= i < j - 1 && Below(rest[j - 1], rest[i]);
          assert Below(order[j], order[i + 1]);
        }
        if i :| 0 <= i < j && Below(order[j], order[i]) && i > 0 {
          assert Below(rest[j - 1], rest[i - 1]);
        }
      }
    }
  }

  /**
   * In whatever order the cascading deletes run, their counts agree with the preview if and only if no
   * table that still has rows of the item comes after one whose cascade reaches it.
   */
  lemma CountsAgreeWhen(t: Tables, item: nat, order: seq<Chain>)
    requires NoRepeats(order)
    ensures (forall j :: 0 <= j < |order| ==> Reported(t, item, order)[j] == CountAt(t, item, order[j]))
       <==> forall j :: 0 <= j < |order| && CountAt(t, item, order[j]) > 0 ==> !Preempted(order, j)
  {
    hide CountAt, Below, Reported;
    forall j: nat | j < |order|
      ensures Reported(t, item, order)[j] == if Preempted(order, j) then 0 else CountAt(t, item, order[j])
    {
      ReportedCounts(t, item, order, j);
    }
  }

  // ----- statements keep foreign keys -----

  /** CASCADE is what keeps the deletion of index rows and records from dangling. */
  lemma CascadesKeepIntact(t: Tables, ids: set<nat>)
    requires Intact(t)
    ensures Intact(DeleteIndices(t, ids)) && Intact(DeleteRecords(t, ids))
  {
    CascadeKeepsIntact(t, ids);
    CascadeKeepsIntact(t, IndicesOf(t, ids));
    hide DeleteIndices;
    assert DeleteRecords(t, ids).indices == DeleteIndices(t, IndicesOf(t, ids)).indices;
  }

  lemma CascadeKeepsIntact(t: Tables, ids: set<nat>)
    requires Intact(t)
    ensures Intact(DeleteIndices(t, ids)) && DeleteIndices(t, ids).records == t.records && DeleteIndices(t, ids).indices == t.indices - ids
  {
  }

  lemma ReleaseKeepsIntact(t: Tables, ids: set<nat>)
    requires Intact(t)
    ensures Intact(ReleasePlans(t, ids))
  {
  }

  lemma UnlinkKeepsIntact(t: Tables, item: nat)
    requires Intact(t)
    ensures Intact(Unlink(t, item))
  {
  }

  /** RESTRICT and the nulled references are what keeps a plan's or a proposal's deletion from dangling. */
  lemma PlanDeletesKeepIntact(t: Tables, ids: set<nat>)
    requires Intact(t)
    ensures DeletePlans(t, ids).Some? ==> Intact(DeletePlans(t, ids).value)
  {
    if DeletePlans(t, ids).Some? {
      var u := DeletePlans(t, ids).value;
      assert forall r :: r in u.resolutions && u.resolutions[r].plan.Some? ==> u.resolutions[r].plan.value in u.plans;
    }
  }

  lemma ProposalDeletesKeepIntact(t: Tables, ids: set<nat>)
    requires Intact(t)
    ensures DeleteProposals(t, ids).Some? ==> Intact(DeleteProposals(t, ids).value)
  {
  }

  // ----- importing again -----

  /** Proposals of the item that no governance resolution cites. */
  function Ungoverned(t: Tables, item: nat): set<nat> {
    set p | p in t.proposals && t.proposals[p] == Some(item) && forall r :: r in t.resolutions ==> t.resolutions[r].proposal != p
  }

  /** Another item's record or plan still leans on this item's plans or ungoverned proposals. */
  predicate LeanedOn(t: Tables, item: nat) {
    || (exists r :: r in t.records && t.records[r].item != item && t.records[r].plan in PlansOf(t, item))
    || (exists p :: p in t.plans && t.plans[p].item != item && t.plans[p].supersedes.Some? && t.plans[p].supersedes.value in PlansOf(t, item))
    || (exists p :: p in t.plans && t.plans[p].item != item && t.plans[p].proposal.Some? && t.plans[p].proposal.value in Ungoverned(t, item))
  }

  const RESET_SIDES: seq<Side> := [Hermes, RegionMatches, TemplateMatches, Profiles, Jobs]

  /** Rows of other items keep their contents; of the item only governed proposals and untouched tables remain. */
  ghost predicate Cleared(before: Tables, after: Tables, item: nat) {
    var plans := PlansOf(before, item);
    && after.records == before.records - RecordsOf(before, item)
    && after.indices == before.indices - IndicesOf(before, RecordsOf(before, item))
    && after.lineage == before.lineage - LineageOf(before, IndicesOf(before, RecordsOf(before, item)))
    && after.executions == before.executions - ExecutionsOf(before, plans)
    && after.plans == before.plans - plans
    && after.proposals == before.proposals - Ungoverned(before, item)
    && after.issues == (map i | i in before.issues && before.issues[i].item != item
                              && !(before.issues[i].plan.Some? && before.issues[i].plan.value in plans) :: before.issues[i])
    && after.resolutions == ReleasePlans(before, plans).resolutions
    && SidesGone(before.side, after.side, RESET_SIDES, item)
  }

  /** After the plans are released, unlinked and deleted: RESTRICT stops exactly another item's record or plan. */
  lemma PlansDeleted(t: Tables, item: nat)
    ensures var u, plans := WithoutRows(t, item), PlansOf(t, item);
            var v := Unlink(ReleasePlans(u, plans), item);
            && (Restricted(v, plans) <==> PlansLeanedOn(t, item))
            && (!Restricted(v, plans) ==> DeletePlans(v, plans) == Some(PlansCleared(t, item)))
  {
    var u, plans := WithoutRows(t, item), PlansOf(t, item);
    var v := Unlink(ReleasePlans(u, plans), item);
    RestrictedWhen(t, item);
    hide PlansLeanedOn;
    if !Restricted(v, plans) {
      hide Restricted, WithoutRows, PlansOf;
      var w, cleared := DeletePlans(v, plans).value, PlansCleared(t, item);
      assert w.plans == cleared.plans;
      assert w.issues == cleared.issues;
      assert w.resolutions == cleared.resolutions;
    }
  }

  lemma RestrictedWhen(t: Tables, item: nat)
    ensures Restricted(Unlink(ReleasePlans(WithoutRows(t, item), PlansOf(t, item)), item), PlansOf(t, item)) <==> PlansLeanedOn(t, item)
  {
    var v, plans := Unlink(ReleasePlans(WithoutRows(t, item), PlansOf(t, item)), item), PlansOf(t, item);
    assert forall e :: e in v.executions ==> v.executions[e] !in plans;
    assert v.records == t.records - RecordsOf(t, item);
    forall p | p in t.plans ensures p in v.plans && v.plans[p] == if t.plans[p].item == item then t.plans[p].(supersedes := None) else t.plans[p] {
    }
    if r :| r in t.records && t.records[r].item != item && t.records[r].plan in plans {
      assert r in v.records && v.records[r].plan in plans;
    }
    if r :| r in v.records && v.records[r].plan in plans {
      assert t.records[r].item != item && t.records[r].plan in plans;
    }
    if p :| p in t.plans && t.plans[p].item != item && t.plans[p].supersedes.Some? && t.plans[p].supersedes.value in plans {
      assert v.plans[p].supersedes.value in plans;
    }
    if p :| p in v.plans && v.plans[p].supersedes.Some? && v.plans[p].supersedes.value in plans {
      assert t.plans[p].item != item && t.plans[p].supersedes.value in plans;
    }
  }

  predicate PlansLeanedOn(t: Tables, item: nat) {
    || (exists r :: r in t.records && t.records[r].item != item && t.records[r].plan in PlansOf(t, item))
    || (exists p :: p in t.plans && t.plans[p].item != item && t.plans[p].supersedes.Some? && t.plans[p].supersedes.value in PlansOf(t, item))
  }

  function PlansCleared(t: Tables, item: nat): Tables {
    var plans := PlansOf(t, item);
    ReleasePlans(WithoutRows(t, item), plans).(
      plans := t.plans - plans,
      issues := map i | i in t.issues && t.issues[i].item != item
                        && !(t.issues[i].plan.Some? && t.issues[i].plan.value in plans) :: t.issues[i])
  }

  lemma NoPlans(t: Tables, item: nat)
    requires PlansOf(t, item) == {}
    ensures !PlansLeanedOn(t, item) && WithoutRows(t, item) == PlansCleared(t, item)
  {
    var u := WithoutRows(t, item);
    assert ReleasePlans(u, {}).resolutions == u.resolutions;
    assert u.issues == PlansCleared(t, item).issues;
  }

  /** RESTRICT then stops exactly another item's plan that cites an ungoverned proposal. */
  lemma ProposalsDeleted(t: Tables, item: nat)
    ensures var u := PlansCleared(t, item);
            && Ungoverned(u, item) == Ungoverned(t, item)
            && (DeleteProposals(u, Ungoverned(t, item)).None? <==>
                  exists p :: p in t.plans && t.plans[p].item != item && t.plans[p].proposal.Some? && t.plans[p].proposal.value in Ungoverned(t, item))
  {
    var u := PlansCleared(t, item);
    assert u.resolutions.Keys == t.resolutions.Keys && forall r :: r in u.resolutions ==> u.resolutions[r].proposal == t.resolutions[r].proposal;
    assert forall p :: p in u.plans <==> p in t.plans && t.plans[p].item != item;
  }

  /** The statements up to the deletion of the plans. */
  method ResetPlans(database: Database, item: nat) returns (ok: bool)
    requires Intact(database.tables)
    modifies database
    ensures Intact(database.tables)
    ensures ok <==> !PlansLeanedOn(old(database.tables), item)
    ensures ok ==> database.tables == PlansCleared(old(database.tables), item)
  {
    hide Intact, ReleasePlans, Unlink, Restricted, DeletePlans, PlansLeanedOn, PlansCleared, WithoutRows;
    ghost var start := database.tables;
    var plans := PlansOf(database.tables, item);
    var _ := database.DeleteRows(item);
    if plans == {} {
      NoPlans(start, item);
      return true;
    }
    PlansDeleted(start, item);
    ReleaseKeepsIntact(database.tables, plans);
    database.tables := ReleasePlans(database.tables, plans);
    UnlinkKeepsIntact(database.tables, item);
    database.tables := Unlink(database.tables, item);
    PlanDeletesKeepIntact(database.tables, plans);
    var without := DeletePlans(database.tables, plans);
    RestrictedIsNone(database.tables, plans);
    if without.None? {
      return false;
    }
    database.tables := without.value;
    ok := true;
  }

  lemma RestrictedIsNone(t: Tables, ids: set<nat>)
    ensures DeletePlans(t, ids).None? <==> Restricted(t, ids)
  {
  }

  /** The statements of reset_item_for_reimport; a RESTRICT violation rolls all of them back. */
  method Reset(database: Database, item: nat) returns (ok: bool)
    requires Intact(database.tables)
    modifies database
    ensures Intact(database.tables)
    ensures ok <==> !LeanedOn(old(database.tables), item)
    ensures ok ==> Cleared(old(database.tables), database.tables, item)
    ensures !ok ==> database.tables == old(database.tables)
  {
    hide Intact, Ungoverned, DeleteProposals, SidesGone, PlansLeanedOn, LeanedOn, PlansCleared, Cleared;
    var was := database.tables;
    LeanedOnParts(was, item);
    ProposalsDeleted(was, item);
    var plansGone := ResetPlans(database, item);
    if !plansGone {
      database.tables := was;
      return false;
    }
    var proposals := Ungoverned(database.tables, item);
    ProposalDeletesKeepIntact(database.tables, proposals);
    var without := DeleteProposals(database.tables, proposals);
    if without.None? {
      database.tables := was;
      return false;
    }
    database.tables := without.value;
    ghost var before := database.tables;
    var _ := database.DeleteSides(item, RESET_SIDES);
    SidesIntact(before, database.tables);
    ClearedParts(was, item, before, database.tables);
    ok := true;
  }

  lemma LeanedOnParts(t: Tables, item: nat)
    ensures LeanedOn(t, item) <==>
              || PlansLeanedOn(t, item)
              || exists p :: p in t.plans && t.plans[p].item != item && t.plans[p].proposal.Some? && t.plans[p].proposal.value in Ungoverned(t, item)
  {
  }

  lemma ClearedParts(t: Tables, item: nat, u: Tables, after: Tables)
    requires DeleteProposals(PlansCleared(t, item), Ungoverned(t, item)) == Some(u)
    requires SidesGone(u.side, after.side, RESET_SIDES, item) && after == u.(side := after.side)
    ensures Cleared(t, after, item)
  {
    hide SidesGone, Ungoverned;
    assert ReleasePlans(WithoutRows(t, item), PlansOf(t, item)).resolutions == ReleasePlans(t, PlansOf(t, item)).resolutions;
  }
}
