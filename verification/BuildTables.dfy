/** The rows of a build result, their foreign keys, and the statements that remove them. */
module BuildTables {
  import opened Wrappers

  datatype RecordRow = RecordRow(item: nat, plan: nat)
  datatype IssueRow = IssueRow(item: nat, plan: Option<nat>)
  datatype PlanRow = PlanRow(item: nat, supersedes: Option<nat>, proposal: Option<nat>)
  datatype ResolutionRow = ResolutionRow(proposal: nat, plan: Option<nat>)

  /** Tables whose rows only name their item. */
  datatype Side = Hermes | FieldMatches | RegionMatches | SheetMatches | RouteMatches | TemplateMatches | SheetCatalog | Profiles | Jobs

  datatype Tables = Tables(
    lineage: map<nat, nat>, indices: map<nat, nat>, records: map<nat, RecordRow>, issues: map<nat, IssueRow>,
    executions: map<nat, nat>, plans: map<nat, PlanRow>, proposals: map<nat, Option<nat>>,
    resolutions: map<nat, ResolutionRow>, side: map<(Side, nat), nat>)

  /** Every foreign key names an existing row. */
  ghost predicate Intact(t: Tables) {
    && (forall i :: i in t.lineage ==> t.lineage[i] in t.indices)
    && (forall i :: i in t.indices ==> t.indices[i] in t.records)
    && (forall i :: i in t.records ==> t.records[i].plan in t.plans)
    && (forall i :: i in t.executions ==> t.executions[i] in t.plans)
    && (forall i :: i in t.issues && t.issues[i].plan.Some? ==> t.issues[i].plan.value in t.plans)
    && (forall i {:trigger t.plans[i]} :: i in t.plans && t.plans[i].supersedes.Some? ==> t.plans[i].supersedes.value in t.plans)
    && (forall i :: i in t.plans && t.plans[i].proposal.Some? ==> t.plans[i].proposal.value in t.proposals)
    && (forall i :: i in t.resolutions ==> t.resolutions[i].proposal in t.proposals)
    && (forall i :: i in t.resolutions && t.resolutions[i].plan.Some? ==> t.resolutions[i].plan.value in t.plans)
  }

  // ----- statements -----

  function DeleteLineage(t: Tables, ids: set<nat>): Tables {
    t.(lineage := t.lineage - ids)
  }

  /** CASCADE: lineage rows go with their index row. */
  function DeleteIndices(t: Tables, ids: set<nat>): Tables {
    t.(indices := t.indices - ids, lineage := map l | l in t.lineage && t.lineage[l] !in ids :: t.lineage[l])
  }

  /** CASCADE: index rows go with their record, and lineage rows with them. */
  function DeleteRecords(t: Tables, ids: set<nat>): Tables {
    DeleteIndices(t, IndicesOf(t, ids)).(records := t.records - ids)
  }

  function DeleteIssues(t: Tables, ids: set<nat>): Tables {
    t.(issues := t.issues - ids)
  }

  function DeleteExecutions(t: Tables, ids: set<nat>): Tables {
    t.(executions := t.executions - ids)
  }

  function DeleteSide(t: Tables, side: Side, item: nat): Tables {
    t.(side := map k | k in t.side && !(k.0 == side && t.side[k] == item) :: t.side[k])
  }

  /** A record, an execution or a plan cites one of the plans. */
  predicate Restricted(t: Tables, ids: set<nat>) {
    || (exists r :: r in t.records && t.records[r].plan in ids)
    || (exists e :: e in t.executions && t.executions[e] in ids)
    || (exists p :: p in t.plans && t.plans[p].supersedes.Some? && t.plans[p].supersedes.value in ids)
  }

  /** RESTRICT by records, executions and superseding plans; CASCADE to issues; SET NULL in resolutions. */
  function DeletePlans(t: Tables, ids: set<nat>): Option<Tables> {
    if Restricted(t, ids) then None
    else Some(ReleasePlans(t, ids).(
                plans := t.plans - ids,
                issues := map i | i in t.issues && !(t.issues[i].plan.Some? && t.issues[i].plan.value in ids) :: t.issues[i]))
  }

  /** RESTRICT by resolutions and plans. */
  function DeleteProposals(t: Tables, ids: set<nat>): Option<Tables> {
    if (exists r :: r in t.resolutions && t.resolutions[r].proposal in ids)
       || (exists p :: p in t.plans && t.plans[p].proposal.Some? && t.plans[p].proposal.value in ids) then None
    else Some(t.(proposals := t.proposals - ids))
  }

  /** UPDATE governance_resolutions SET approved_plan_id = NULL */
  function ReleasePlans(t: Tables, ids: set<nat>): Tables {
    t.(resolutions := map r | r in t.resolutions :: var row := t.resolutions[r];
                        if row.plan.Some? && row.plan.value in ids then row.(plan := None) else row)
  }

  /** UPDATE approved_import_plans SET supersedes_plan_id = NULL WHERE item_id = ... */
  function Unlink(t: Tables, item: nat): Tables {
    t.(plans := map p | p in t.plans :: if t.plans[p].item == item then t.plans[p].(supersedes := None) else t.plans[p])
  }

  // ----- what belongs to an item -----

  function PlansOf(t: Tables, item: nat): set<nat> {
    set p | p in t.plans && t.plans[p].item == item
  }

  function RecordsOf(t: Tables, item: nat): set<nat> {
    set r | r in t.records && t.records[r].item == item
  }

  function IndicesOf(t: Tables, records: set<nat>): set<nat> {
    set i | i in t.indices && t.indices[i] in records
  }

  function LineageOf(t: Tables, indices: set<nat>): set<nat> {
    set l | l in t.lineage && t.lineage[l] in indices
  }

  function IssuesOf(t: Tables, item: nat): set<nat> {
    set i | i in t.issues && t.issues[i].item == item
  }

  function ExecutionsOf(t: Tables, plans: set<nat>): set<nat> {
    set e | e in t.executions && t.executions[e] in plans
  }

  function SideOf(t: Tables, side: Side, item: nat): set<(Side, nat)> {
    set k | k in t.side && k.0 == side && t.side[k] == item
  }

  // ----- deleting a build result -----

  const SIDES: seq<Side> := [Hermes, FieldMatches, RegionMatches, SheetMatches, RouteMatches, TemplateMatches, SheetCatalog]

  /** before: the rows each table is about to lose. */
  function Preview(t: Tables, item: nat): seq<nat> {
    var indices := IndicesOf(t, RecordsOf(t, item));
    [|LineageOf(t, indices)|, |indices|, |RecordsOf(t, item)|, |IssuesOf(t, item)|, |ExecutionsOf(t, PlansOf(t, item))|]
    + SideCounts(t, item, SIDES)
  }

  function SideCounts(t: Tables, item: nat, sides: seq<Side>): seq<nat> {
    if sides == [] then [] else SideCounts(t, item, sides[..|sides| - 1]) + [|SideOf(t, sides[|sides| - 1], item)|]
  }

  /** The tables without the item's build result: nothing else is missing, nothing else has changed. */
  ghost predicate Emptied(before: Tables, after: Tables, item: nat) {
    var records := RecordsOf(before, item);
    var indices := IndicesOf(before, records);
    && after.records == before.records - records
    && after.indices == before.indices - indices
    && after.lineage == before.lineage - LineageOf(before, indices)
    && after.issues == before.issues - IssuesOf(before, item)
    && after.executions == before.executions - ExecutionsOf(before, PlansOf(before, item))
    && after.plans == before.plans && after.proposals == before.proposals && after.resolutions == before.resolutions
    && after.side == map k | k in before.side && !(k.0 in SIDES && before.side[k] == item) :: before.side[k]
  }

  /** The item's rows of the first five tables, removed as if each statement saw the tables at the start. */
  function WithoutRows(t: Tables, item: nat): Tables {
    var records := RecordsOf(t, item);
    var indices := IndicesOf(t, records);
    t.(records := t.records - records, indices := t.indices - indices, lineage := t.lineage - LineageOf(t, indices),
       issues := t.issues - IssuesOf(t, item), executions := t.executions - ExecutionsOf(t, PlansOf(t, item)))
  }

  /** Deleting children first leaves no cascade anything to remove. */
  lemma ChildrenFirst(t: Tables, item: nat)
    ensures var records := RecordsOf(t, item);
            var indices := IndicesOf(t, records);
            var t1 := DeleteLineage(t, LineageOf(t, indices));
            var t2 := DeleteIndices(t1, indices);
            var t3 := DeleteRecords(t2, records);
            && IndicesOf(t1, records) == indices
            && t2.lineage == t1.lineage && RecordsOf(t2, item) == records
            && t3.indices == t2.indices && t3.lineage == t2.lineage
            && IssuesOf(t3, item) == IssuesOf(t, item)
            && ExecutionsOf(DeleteIssues(t3, IssuesOf(t, item)), PlansOf(t, item)) == ExecutionsOf(t, PlansOf(t, item))
            && DeleteExecutions(DeleteIssues(t3, IssuesOf(t, item)), ExecutionsOf(t, PlansOf(t, item))) == WithoutRows(t, item)
  {
    var records := RecordsOf(t, item);
    var indices := IndicesOf(t, records);
    var t1 := DeleteLineage(t, LineageOf(t, indices));
    var t2 := DeleteIndices(t1, indices);
    var t3 := DeleteRecords(t2, records);
    assert IndicesOf(t2, records) == {};
    assert t2.lineage == t1.lineage;
    assert t3.indices == t2.indices && t3.lineage == t2.lineage;
  }

  lemma WithoutRowsIntact(t: Tables, item: nat)
    requires Intact(t)
    ensures Intact(WithoutRows(t, item))
  {
  }

  datatype DeleteError = ScopeMismatch | CountMismatch

  /** The item's records are exactly those of its plans. */
  predicate ScopeHolds(t: Tables, item: nat) {
    forall k :: k in t.records ==> (t.records[k].item == item <==> t.records[k].plan in PlansOf(t, item))
  }

  function Mismatched(t: Tables, item: nat): (ids: set<nat>)
    ensures ids == {} <==> ScopeHolds(t, item)
  {
    var ids := set k | k in t.records && (t.records[k].item == item <==> t.records[k].plan !in PlansOf(t, item));
    assert forall k :: k in t.records && (t.records[k].item == item <==> t.records[k].plan !in PlansOf(t, item)) ==> k in ids;
    ids
  }

  predicate SidesGone(before: map<(Side, nat), nat>, after: map<(Side, nat), nat>, sides: seq<Side>, item: nat) {
    after == map k | k in before && !(k.0 in sides && before[k] == item) :: before[k]
  }

  lemma SideStep(t: Tables, u: Tables, item: nat, sides: seq<Side>, side: Side)
    requires SidesGone(t.side, u.side, sides, item) && side !in sides
    ensures SideOf(u, side, item) == SideOf(t, side, item)
    ensures SidesGone(t.side, DeleteSide(u, side, item).side, sides + [side], item)
  {
  }

  class Database {
    var tables: Tables

    constructor (t: Tables)
      ensures tables == t
    {
      tables := t;
    }

    /** The first five deletes, each seeing what the earlier ones left. */
    method DeleteRows(item: nat) returns (deleted: seq<nat>)
      requires Intact(tables)
      modifies this
      ensures Intact(tables) && tables == WithoutRows(old(tables), item)
      ensures deleted == Preview(old(tables), item)[..5]
    {
      hide Intact, DeleteLineage, DeleteIndices, DeleteRecords, DeleteIssues, DeleteExecutions;
      ChildrenFirst(tables, item);
      var plans, records := PlansOf(tables, item), RecordsOf(tables, item);
      assert WithoutRows(tables, item).side == tables.side;
      WithoutRowsIntact(tables, item);
      var lineage := LineageOf(tables, IndicesOf(tables, records));
      tables := DeleteLineage(tables, lineage);
      var indices := IndicesOf(tables, records);
      tables := DeleteIndices(tables, indices);
      records := RecordsOf(tables, item);
      tables := DeleteRecords(tables, records);
      var issues := IssuesOf(tables, item);
      tables := DeleteIssues(tables, issues);
      var executions := ExecutionsOf(tables, plans);
      tables := DeleteExecutions(tables, executions);
      deleted := [|lineage|, |indices|, |records|, |issues|, |executions|];
    }

    /** One delete per table that only names the item. */
    method DeleteSides(item: nat, sides: seq<Side>) returns (deleted: seq<nat>)
      requires forall i, j :: 0 <= i < j < |sides| ==> sides[i] != sides[j]
      modifies this
      ensures SidesGone(old(tables).side, tables.side, sides, item) && tables == old(tables).(side := tables.side)
      ensures deleted == SideCounts(old(tables), item, sides)
    {
      hide SidesGone, SideOf;
      deleted := [];
      NoSides(tables.side, item);
      for i := 0 to |sides|
        invariant SidesGone(old(tables).side, tables.side, sides[..i], item) && tables == old(tables).(side := tables.side)
        invariant deleted == SideCounts(old(tables), item, sides[..i])
      {
        assert sides[..i + 1][..i] == sides[..i] && sides[i] !in sides[..i] && sides[..i] + [sides[i]] == sides[..i + 1];
        SideStep(old(tables), tables, item, sides[..i], sides[i]);
        deleted := deleted + [|SideOf(tables, sides[i], item)|];
        tables := DeleteSide(tables, sides[i], item);
      }
      assert sides[..|sides|] == sides;
    }

    /**
     * The scope check, the preview, the twelve deletes and the comparison: on intact tables the counts
     * always agree, and exactly the item's rows are gone.
     */
    method DeleteBuildRows(item: nat) returns (r: Result<seq<nat>, DeleteError>)
      requires Intact(tables)
      modifies this
      ensures Intact(tables)
      ensures r.Success? <==> ScopeHolds(old(tables), item)
      ensures r.Success? ==> r.value == Preview(old(tables), item) && Emptied(old(tables), tables, item)
      ensures r.Failure? ==> r.error == ScopeMismatch && tables == old(tables)
    {
      hide Intact, ScopeHolds;
      if Mismatched(tables, item) != {} {
        return Failure(ScopeMismatch);
      }
      var before := Preview(tables, item);
      var rows := DeleteRows(item);
      var sides := DeleteSides(item, SIDES);
      SidesUnchanged(old(tables), item);
      SidesIntact(WithoutRows(old(tables), item), tables);
      if rows + sides != before {
        return Failure(CountMismatch);
      }
      r := Success(rows + sides);
    }
  }

  lemma NoSides(side: map<(Side, nat), nat>, item: nat)
    ensures SidesGone(side, side, [], item)
  {
  }

  lemma SidesIntact(t: Tables, u: Tables)
    requires Intact(t) && u == t.(side := u.side)
    ensures Intact(u)
  {
  }

  lemma {:induction false} SameSideCounts(t: Tables, u: Tables, item: nat, sides: seq<Side>)
    requires t.side == u.side
    ensures SideCounts(t, item, sides) == SideCounts(u, item, sides)
  {
    if sides != [] {
      SameSideCounts(t, u, item, sides[..|sides| - 1]);
    }
  }

  lemma SidesUnchanged(t: Tables, item: nat)
    ensures SideCounts(WithoutRows(t, item), item, SIDES) == SideCounts(t, item, SIDES)
  {
    SameSideCounts(WithoutRows(t, item), t, item, SIDES);
  }
}
