/**
 * The life of one item's build result: requesting its deletion, running its jobs, deleting, failing,
 * importing again and restoring, in any interleaving.
 */
module DeletionProtocol {
  import opened Wrappers

  datatype DeletionStatus = Active | DeletionPending | Deleted | DeletionFailed

  /** The status of the item's one deletion record. */
  datatype RecordStatus = RecordPending | RecordCompleted | RecordFailed | RecordRestored

  datatype ItemStatus =
    Pending | Profiling | Matching | Recognizing | NeedsReview | Ready | Materializing | Imported | ResultDeleted | Failed

  datatype FormalStatus =
    FormalPending | FormalNeedsReview | FormalMaterializing | FormalImported | FormalPartial | PendingRebuild
    | FormalDeleted | FormalFailed

  datatype JobStatus = JobPending | Running | Succeeded | JobFailed | Cancelled

  datatype Kind = ProfileFile | MatchTemplate | RecognizeDiff | MaterializeFile(plan: nat) | DeleteBuildResult

  /** How far the worker that holds a running job has come; idle when no worker holds it. */
  datatype Phase = Idle | Claimed | Validated | Checked | Done

  datatype Job = Job(kind: Kind, status: JobStatus, attempts: nat, maxAttempts: nat, phase: Phase)

  /** Idempotency keys: one per deletion record, and others. */
  datatype Key = DeleteKey | OtherKey(id: nat)

  /** An approved plan: whether a deletion retired it, and the plan it supersedes. */
  datatype Plan = Plan(retired: bool, supersedes: Option<nat>)

  /** A plan's execution: the dataset, index and lineage rows it has, and whether it was complete. */
  datatype Execution = Execution(records: nat, indices: nat, lineage: nat, complete: bool)

  datatype DeletionError = JobRunning | ScopeMismatch

  datatype ReimportError = MustRestore | AuditIncomplete | SourceChanged | ItemBusy

  datatype Check = Refused | AlreadyExecuted | MayWrite

  class BuildResult {
    var deletion: DeletionStatus
    var record: Option<RecordStatus>
    var item: ItemStatus
    var formal: FormalStatus
    var jobs: map<Key, Job>
    var plans: map<nat, Plan>
    var rows: map<nat, Execution>

    /** A job that is not the deletion may be past validation only while the result is active. */
    ghost predicate NoWorkUnlessActive()
      reads this
    {
      forall k :: k in jobs && k != DeleteKey && AtWork(jobs[k].phase) ==> deletion == Active
    }

    ghost predicate DeletedMeansEmpty()
      reads this
    {
      deletion == Deleted ==> rows == map[]
    }

    ghost predicate Valid()
      reads this
    {
      && DeletedMeansEmpty()
      && JobsFit(jobs, deletion, plans.Keys)
      && (deletion == Active <==> record == None || record == Some(RecordRestored))
      && (deletion == Deleted <==> record == Some(RecordCompleted))
      && (deletion == Active ==> DeleteKey !in jobs)
      && (record == Some(RecordFailed) && DeleteKey in jobs ==> jobs[DeleteKey].status == JobFailed || jobs[DeleteKey].status == Cancelled)
    }

    /** Some worker can still carry the deletion out. */
    predicate DeletionRunnable()
      reads this
    {
      DeleteKey in jobs && (jobs[DeleteKey].status == JobPending || jobs[DeleteKey].status == Running)
    }

    /** A deletion is on record as pending that no worker will ever carry out. */
    predicate Stranded()
      reads this
    {
      record == Some(RecordPending) && !DeletionRunnable()
    }

    /** The result is gone: no rows, and nothing may write any. */
    ghost predicate Gone()
      reads this
    {
      deletion != Active && rows == map[]
    }

    predicate AnyRunning()
      reads this
    {
      exists k :: k in jobs && jobs[k].status == Running
    }

    constructor ()
      ensures Valid() && deletion == Active && record == None && jobs == map[] && plans == map[] && rows == map[]
      ensures item == Pending && formal == FormalPending
    {
      deletion, record, item, formal := Active, None, Pending, FormalPending;
      jobs, plans, rows := map[], map[], map[];
    }

    /** An approved import plan appears; routes and workers may add one at any time. */
    method ApprovePlan(plan: nat, supersedes: Option<nat>)
      requires Valid() && plan !in plans
      modifies this`plans
      ensures Valid() && plans == old(plans)[plan := Plan(false, supersedes)]
    {
      plans := plans[plan := Plan(false, supersedes)];
    }

    /** enqueue: an existing idempotency key keeps its job, whatever became of it. */
    method Enqueue(id: nat, kind: Kind, maxAttempts: nat)
      requires Valid() && !kind.DeleteBuildResult? && maxAttempts > 0
      modifies this`jobs
      ensures Valid() && (old(Stranded()) ==> Stranded()) && (old(Gone()) ==> Gone())
      ensures jobs == if OtherKey(id) in old(jobs) then old(jobs)
                      else old(jobs)[OtherKey(id) := Job(kind, JobPending, 0, maxAttempts, Idle)]
    {
      if OtherKey(id) !in jobs {
        jobs := jobs[OtherKey(id) := Job(kind, JobPending, 0, maxAttempts, Idle)];
      }
    }

    /** request_build_result_deletion */
    method Request() returns (r: Result<RecordStatus, DeletionError>)
      requires Valid()
      modifies this`jobs, this`record, this`deletion
      ensures Valid() && (old(Stranded()) ==> Stranded()) && (old(Gone()) ==> Gone())
      ensures old(record) in {Some(RecordPending), Some(RecordCompleted)} ==>
                r == Success(old(record).value) && jobs == old(jobs) && record == old(record) && deletion == old(deletion)
      ensures old(record) !in {Some(RecordPending), Some(RecordCompleted)} && old(AnyRunning()) ==>
                r == Failure(JobRunning) && jobs == old(jobs) && record == old(record) && deletion == old(deletion)
      ensures old(record) !in {Some(RecordPending), Some(RecordCompleted)} && !old(AnyRunning()) ==>
                && r == Success(RecordPending) && record == Some(RecordPending) && deletion == DeletionPending
                && (forall k :: k in old(jobs) ==> k in jobs && jobs[k] == AfterCancel(old(jobs)[k]))
                && (forall k :: k in jobs ==> k in old(jobs) || k == DeleteKey)
                && (DeleteKey !in old(jobs) ==> DeleteKey in jobs && jobs[DeleteKey] == Job(DeleteBuildResult, JobPending, 0, 3, Idle))
                && (DeletionRunnable() <==> DeleteKey !in old(jobs))
    {
      if record in {Some(RecordPending), Some(RecordCompleted)} {
        return Success(record.value);
      }
      if AnyRunning() {
        return Failure(JobRunning);
      }
      jobs := CancelPending(jobs);
      record := Some(RecordPending);
      deletion := DeletionPending;
      if DeleteKey !in jobs {
        jobs := jobs[DeleteKey := Job(DeleteBuildResult, JobPending, 0, 3, Idle)];
      }
      r := Success(RecordPending);
    }

    /** claim: a pending job, or a running one whose worker is gone. */
    method Claim(k: Key)
      requires Valid() && k in jobs && (jobs[k].status == JobPending || (jobs[k].status == Running && jobs[k].phase == Idle))
      modifies this`jobs
      ensures Valid() && (old(Stranded()) ==> Stranded()) && (old(Gone()) ==> Gone())
      ensures var was := old(jobs)[k];
              jobs == old(jobs)[k := was.(status := Running, phase := Claimed,
                                          attempts := if was.status == JobPending then was.attempts + 1 else was.attempts)]
    {
      var was := jobs[k];
      var attempts := if was.status == JobPending then was.attempts + 1 else was.attempts;
      jobs := jobs[k := was.(status := Running, phase := Claimed, attempts := attempts)];
    }

    /** The worker disappears; what it had not committed is rolled back. */
    method Crash(k: Key)
      requires Valid() && k in jobs && jobs[k].status == Running
      modifies this`jobs
      ensures Valid() && (old(Stranded()) ==> Stranded()) && (old(Gone()) ==> Gone())
      ensures jobs == old(jobs)[k := old(jobs)[k].(phase := Idle)]
    {
      jobs := jobs[k := jobs[k].(phase := Idle)];
    }

    /** validate_job_scope: what it says of the deletion status. */
    method Validate(k: Key) returns (ok: bool)
      requires Valid() && k in jobs && jobs[k].phase == Claimed
      modifies this`jobs
      ensures Valid() && (old(Stranded()) ==> Stranded()) && (old(Gone()) ==> Gone())
      ensures ok <==> k == DeleteKey || deletion == Active
      ensures jobs == if ok then old(jobs)[k := old(jobs)[k].(phase := Validated)] else old(jobs)
    {
      ok := jobs[k].kind == DeleteBuildResult || deletion == Active;
      if ok {
        jobs := jobs[k := jobs[k].(phase := Validated)];
      }
    }

    /** A profiling, matching or recognition step: it moves the item along and writes no dataset rows. */
    method Work(k: Key, itemStatus: ItemStatus, formalStatus: FormalStatus, finished: bool)
      requires Valid() && k in jobs && jobs[k].phase == Validated && !jobs[k].kind.MaterializeFile? && k != DeleteKey
      requires itemStatus != ResultDeleted && formalStatus != FormalDeleted
      modifies this`item, this`formal, this`jobs
      ensures Valid() && (old(Stranded()) ==> Stranded()) && (old(Gone()) ==> Gone())
      ensures item == itemStatus && formal == formalStatus
      ensures jobs == if finished then old(jobs)[k := old(jobs)[k].(phase := Done)] else old(jobs)
    {
      item, formal := itemStatus, formalStatus;
      if finished {
        jobs := jobs[k := jobs[k].(phase := Done)];
      }
    }

    /** materialize_file up to the point where materialize_plan starts writing. */
    method BeginMaterialize(k: Key) returns (check: Check)
      requires Valid() && k in jobs && jobs[k].phase == Validated && jobs[k].kind.MaterializeFile?
      modifies this`item, this`formal, this`jobs
      ensures Valid() && (old(Stranded()) ==> Stranded()) && (old(Gone()) ==> Gone())
      ensures var plan := old(jobs)[k].kind.plan;
              && (check == Refused <==> plan !in plans || plans[plan].retired || deletion != Active)
              && (check == AlreadyExecuted <==> check != Refused && plan in rows)
              && (item, formal) == if check == AlreadyExecuted then (Imported, ExecutedAs(rows[plan])) else (Materializing, FormalMaterializing)
      ensures jobs == old(jobs)[k := old(jobs)[k].(phase := match check case Refused => Validated case AlreadyExecuted => Done case MayWrite => Checked)]
    {
      item, formal := Materializing, FormalMaterializing;
      var plan := jobs[k].kind.plan;
      if plan !in plans || plans[plan].retired || deletion != Active {
        check := Refused;
      } else if plan in rows {
        check := AlreadyExecuted;
        item, formal := Imported, ExecutedAs(rows[plan]);
        jobs := jobs[k := jobs[k].(phase := Done)];
      } else {
        check := MayWrite;
        jobs := jobs[k := jobs[k].(phase := Checked)];
      }
    }

    /** materialize_plan writes and commits; it does not look at the deletion status again. */
    method CommitMaterialize(k: Key, produced: Execution)
      requires Valid() && k in jobs && jobs[k].phase == Checked
      modifies this`item, this`formal, this`jobs, this`rows
      ensures Valid() && (old(Stranded()) ==> Stranded()) && old(deletion) == Active
      ensures item == Imported && formal == ExecutedAs(produced)
      ensures var plan := old(jobs)[k].kind.plan;
              rows == WithoutRows(old(rows), plans[plan].supersedes)[plan := produced]
      ensures jobs == old(jobs)[k := old(jobs)[k].(phase := Done)]
    {
      var plan := jobs[k].kind.plan;
      rows := WithoutRows(rows, plans[plan].supersedes)[plan := produced];
      item, formal := Imported, ExecutedAs(produced);
      jobs := jobs[k := jobs[k].(phase := Done)];
    }

    /** delete_build_result: one transaction, so its intermediate status is never seen. */
    method Delete(scopeMatches: bool) returns (r: Result<RecordStatus, DeletionError>)
      requires Valid() && DeleteKey in jobs && jobs[DeleteKey].phase == Validated
      modifies this`deletion, this`record, this`item, this`formal, this`jobs, this`plans, this`rows
      ensures Valid() && (old(Gone()) ==> Gone())
      ensures old(record) == Some(RecordCompleted) ==>
                && r == Success(RecordCompleted) && plans == old(plans) && rows == old(rows)
                && deletion == old(deletion) && record == old(record) && item == old(item) && formal == old(formal)
      ensures old(record) != Some(RecordCompleted) ==>
                (r.Success? <==> scopeMatches && forall k :: k in old(jobs) && k != DeleteKey ==> old(jobs)[k].status != Running)
      ensures old(record) != Some(RecordCompleted) && r.Success? ==>
                && deletion == Deleted && record == Some(RecordCompleted) && rows == map[]
                && item == ResultDeleted && formal == FormalDeleted
                && plans.Keys == old(plans).Keys && forall p :: p in plans ==> plans[p] == old(plans)[p].(retired := true)
      ensures r.Success? ==> jobs == old(jobs)[DeleteKey := old(jobs)[DeleteKey].(phase := Done)]
      ensures r.Failure? ==>
                && jobs == old(jobs) && plans == old(plans) && rows == old(rows)
                && deletion == old(deletion) && record == old(record) && item == old(item) && formal == old(formal)
    {
      hide JobsFit;
      if record != Some(RecordCompleted) {
        if !scopeMatches {
          return Failure(ScopeMismatch);
        }
        if exists k :: k in jobs && k != DeleteKey && jobs[k].status == Running {
          return Failure(JobRunning);
        }
        ghost var planIds := plans.Keys;
        FitsOnceNoneElseRuns(jobs, deletion, Deleted, planIds);
        rows := map[];
        plans := map p | p in plans :: plans[p].(retired := true);
        assert plans.Keys == planIds;
        deletion, record, item, formal := Deleted, Some(RecordCompleted), ResultDeleted, FormalDeleted;
      }
      FitsWhenDone(jobs, DeleteKey, deletion, plans.Keys);
      jobs := jobs[DeleteKey := jobs[DeleteKey].(phase := Done)];
      r := Success(RecordCompleted);
    }

    /** succeed */
    method Succeed(k: Key)
      requires Valid() && k in jobs && jobs[k].phase == Done
      modifies this`jobs
      ensures Valid() && (old(Stranded()) ==> Stranded()) && (old(Gone()) ==> Gone())
      ensures jobs == old(jobs)[k := old(jobs)[k].(status := Succeeded, phase := Idle)]
    {
      jobs := jobs[k := jobs[k].(status := Succeeded, phase := Idle)];
    }

    /** fail, and what process_one does to the item when the last attempt failed. */
    method Fail(k: Key)
      requires Valid() && k in jobs && (jobs[k].phase == Claimed || AtWork(jobs[k].phase))
      modifies this`jobs, this`deletion, this`record, this`item, this`formal
      ensures Valid() && (old(Stranded()) ==> Stranded()) && (old(Gone()) ==> Gone())
      ensures var was := old(jobs)[k]; var last := was.attempts >= was.maxAttempts;
              && jobs == old(jobs)[k := was.(status := if last then JobFailed else JobPending, phase := Idle)]
              && (deletion, record) == (if last && k == DeleteKey then (DeletionFailed, Some(RecordFailed)) else (old(deletion), old(record)))
              && (item, formal) == (if !last || k == DeleteKey then (old(item), old(formal))
                                    else if was.kind.RecognizeDiff? then (NeedsReview, FormalNeedsReview)
                                    else (Failed, FormalFailed))
    {
      var was := jobs[k];
      if was.attempts >= was.maxAttempts {
        jobs := jobs[k := was.(status := JobFailed, phase := Idle)];
        match was.kind {
          case DeleteBuildResult =>
            deletion, record := DeletionFailed, Some(RecordFailed);
          case RecognizeDiff =>
            item, formal := NeedsReview, FormalNeedsReview;
          case _ =>
            item, formal := Failed, FormalFailed;
        }
      } else {
        jobs := jobs[k := was.(status := JobPending, phase := Idle)];
      }
    }

    /** release_for_shutdown and defer_for_operator_action: back to pending, the attempt is given back. */
    method Release(k: Key)
      requires Valid() && k in jobs && (jobs[k].phase == Claimed || AtWork(jobs[k].phase))
      modifies this`jobs
      ensures Valid() && (old(Stranded()) ==> Stranded()) && (old(Gone()) ==> Gone())
      ensures var was := old(jobs)[k];
              jobs == old(jobs)[k := was.(status := JobPending, phase := Idle, attempts := if was.attempts == 0 then 0 else was.attempts - 1)]
    {
      var was := jobs[k];
      var attempts := if was.attempts == 0 then 0 else was.attempts - 1;
      jobs := jobs[k := was.(status := JobPending, phase := Idle, attempts := attempts)];
    }

    /** reset_item_for_reimport; `newKey` is the new job's unique key. */
    method Reimport(restore: bool, sourceIntact: bool, newKey: nat) returns (r: Result<ItemStatus, ReimportError>)
      requires Valid()
      modifies this
      ensures Valid() && (old(Stranded()) ==> Stranded()) && (old(Gone()) && !restore ==> Gone())
      ensures var deleted := old(item) == ResultDeleted || old(deletion) == Deleted;
              && (r.Success? <==> (deleted ==> restore && old(record) == Some(RecordCompleted)) && sourceIntact && !old(AnyRunning()))
              && (r.Success? ==>
                    && deletion == (if deleted then Active else old(deletion))
                    && record == (if deleted then Some(RecordRestored) else old(record)))
      ensures r.Success? ==>
                && rows == map[] && plans == map[] && item == Pending && formal == FormalPending
                && jobs == map[OtherKey(newKey) := Job(ProfileFile, JobPending, 0, 3, Idle)]
      ensures r.Failure? ==>
                && deletion == old(deletion) && record == old(record) && item == old(item) && formal == old(formal)
                && jobs == old(jobs) && plans == old(plans) && rows == old(rows)
    {
      hide JobsFit;
      var deleted := item == ResultDeleted || deletion == Deleted;
      if deleted && !restore {
        return Failure(MustRestore);
      }
      if deleted && record != Some(RecordCompleted) {
        return Failure(AuditIncomplete);
      }
      if !sourceIntact {
        return Failure(SourceChanged);
      }
      if AnyRunning() {
        return Failure(ItemBusy);
      }
      rows, plans, jobs := map[], map[], map[];
      item, formal := Pending, FormalPending;
      if deleted {
        record, deletion := Some(RecordRestored), Active;
      }
      jobs := jobs[OtherKey(newKey) := Job(ProfileFile, JobPending, 0, 3, Idle)];
      FirstJobFits(newKey, deletion, plans.Keys);
      r := Success(item);
    }
  }

  /** Past validation, and not yet done. */
  predicate AtWork(p: Phase) {
    p == Validated || p == Checked
  }

  /** What holds of every job: its key tells the deletion from other kinds, a worker holds only running jobs, attempts are in bounds. */
  predicate Fits(k: Key, j: Job, deletion: DeletionStatus, plans: set<nat>) {
    && (j.kind.DeleteBuildResult? <==> k == DeleteKey)
    && (j.phase != Idle ==> j.status == Running)
    && (j.status == JobPending ==> j.attempts < j.maxAttempts)
    && j.attempts <= j.maxAttempts && j.maxAttempts > 0
    && (j.phase == Checked ==> j.kind.MaterializeFile? && j.kind.plan in plans)
    && (k != DeleteKey && AtWork(j.phase) ==> deletion == Active)
  }

  predicate JobsFit(jobs: map<Key, Job>, deletion: DeletionStatus, plans: set<nat>) {
    forall k :: k in jobs ==> Fits(k, jobs[k], deletion, plans)
  }

  /** Where no other job runs, the jobs fit whatever becomes of the deletion status. */
  lemma FitsOnceNoneElseRuns(jobs: map<Key, Job>, deletion: DeletionStatus, after: DeletionStatus, plans: set<nat>)
    requires JobsFit(jobs, deletion, plans)
    requires forall k :: k in jobs && k != DeleteKey ==> jobs[k].status != Running
    ensures JobsFit(jobs, after, plans)
  {
    forall k | k in jobs ensures Fits(k, jobs[k], after, plans) {
      assert Fits(k, jobs[k], deletion, plans);
    }
  }

  lemma FitsWhenDone(jobs: map<Key, Job>, k: Key, deletion: DeletionStatus, plans: set<nat>)
    requires JobsFit(jobs, deletion, plans) && k in jobs && jobs[k].phase != Idle
    ensures JobsFit(jobs[k := jobs[k].(phase := Done)], deletion, plans)
  {
    assert Fits(k, jobs[k], deletion, plans);
    assert Fits(k, jobs[k].(phase := Done), deletion, plans);
    hide Fits;
  }

  lemma FirstJobFits(key: nat, deletion: DeletionStatus, plans: set<nat>)
    ensures JobsFit(map[OtherKey(key) := Job(ProfileFile, JobPending, 0, 3, Idle)], deletion, plans)
  {
  }

  function ExecutedAs(e: Execution): FormalStatus {
    if e.complete then FormalImported else FormalPartial
  }

  /** A superseded plan loses its rows; its execution stays on record. */
  function WithoutRows(rows: map<nat, Execution>, superseded: Option<nat>): map<nat, Execution> {
    if superseded.Some? && superseded.value in rows
    then rows[superseded.value := Execution(0, 0, 0, rows[superseded.value].complete)]
    else rows
  }

  /** A pending job is cancelled; any other is left alone. */
  function AfterCancel(j: Job): Job {
    if j.status == JobPending then j.(status := Cancelled) else j
  }

  function CancelPending(jobs: map<Key, Job>): (after: map<Key, Job>)
    ensures after.Keys == jobs.Keys && forall k :: k in after ==> after[k] == AfterCancel(jobs[k])
  {
    map k | k in jobs :: AfterCancel(jobs[k])
  }

  // ----- interleavings -----

  /** One step of a worker, a route or the environment. */
  datatype Action =
    | DoApprove(plan: nat, supersedes: Option<nat>)
    | DoEnqueue(id: nat, kind: Kind, maxAttempts: nat)
    | DoRequest
    | DoClaim(k: Key)
    | DoCrash(k: Key)
    | DoValidate(k: Key)
    | DoWork(k: Key, item: ItemStatus, formal: FormalStatus, finished: bool)
    | DoBeginMaterialize(k: Key)
    | DoCommitMaterialize(k: Key, produced: Execution)
    | DoDelete(scopeMatches: bool)
    | DoSucceed(k: Key)
    | DoFail(k: Key)
    | DoRelease(k: Key)
    | DoReimport(restore: bool, sourceIntact: bool, newKey: nat)

  /** The step takes place if it can, and is skipped otherwise. */
  method Step(b: BuildResult, a: Action)
    requires b.Valid()
    modifies b
    ensures b.Valid() && (old(b.Stranded()) ==> b.Stranded())
    ensures !Restores(a) && old(b.Gone()) ==> b.Gone()
  {
    match a {
      case DoApprove(plan, supersedes) =>
        if plan !in b.plans { b.ApprovePlan(plan, supersedes); }
      case DoEnqueue(id, kind, maxAttempts) =>
        if !kind.DeleteBuildResult? && maxAttempts > 0 { b.Enqueue(id, kind, maxAttempts); }
      case DoRequest =>
        var _ := b.Request();
      case DoClaim(k) =>
        if k in b.jobs && (b.jobs[k].status == JobPending || (b.jobs[k].status == Running && b.jobs[k].phase == Idle)) {
          b.Claim(k);
        }
      case DoCrash(k) =>
        if k in b.jobs && b.jobs[k].status == Running { b.Crash(k); }
      case DoValidate(k) =>
        if k in b.jobs && b.jobs[k].phase == Claimed { var _ := b.Validate(k); }
      case DoWork(k, item, formal, finished) =>
        if k in b.jobs && b.jobs[k].phase == Validated && !b.jobs[k].kind.MaterializeFile? && k != DeleteKey
           && item != ResultDeleted && formal != FormalDeleted {
          b.Work(k, item, formal, finished);
        }
      case DoBeginMaterialize(k) =>
        if k in b.jobs && b.jobs[k].phase == Validated && b.jobs[k].kind.MaterializeFile? { var _ := b.BeginMaterialize(k); }
      case DoCommitMaterialize(k, produced) =>
        if k in b.jobs && b.jobs[k].phase == Checked { b.CommitMaterialize(k, produced); }
      case DoDelete(scopeMatches) =>
        if DeleteKey in b.jobs && b.jobs[DeleteKey].phase == Validated { var _ := b.Delete(scopeMatches); }
      case DoSucceed(k) =>
        if k in b.jobs && b.jobs[k].phase == Done { b.Succeed(k); }
      case DoFail(k) =>
        if k in b.jobs && (b.jobs[k].phase == Claimed || AtWork(b.jobs[k].phase)) { b.Fail(k); }
      case DoRelease(k) =>
        if k in b.jobs && (b.jobs[k].phase == Claimed || AtWork(b.jobs[k].phase)) { b.Release(k); }
      case DoReimport(restore, sourceIntact, newKey) =>
        var _ := b.Reimport(restore, sourceIntact, newKey);
    }
  }

  predicate Restores(a: Action) {
    a.DoReimport? && a.restore
  }

  /**
   * Over every interleaving: what a deletion removed stays removed until an explicit restore, no other
   * job works on an item that is not active, and a stranded deletion stays stranded.
   */
  method Interleave(b: BuildResult, actions: seq<Action>)
    requires b.Valid()
    modifies b
    ensures b.Valid() && b.NoWorkUnlessActive() && b.DeletedMeansEmpty()
    ensures old(b.Stranded()) ==> b.Stranded()
    ensures (forall a :: a in actions ==> !Restores(a)) && old(b.deletion) == Deleted ==> b.Gone()
  {
    for i := 0 to |actions|
      invariant b.Valid()
      invariant old(b.Stranded()) ==> b.Stranded()
      invariant (forall a :: a in actions ==> !Restores(a)) && old(b.deletion) == Deleted ==> b.Gone()
    {
      assert actions[i] in actions;
      Step(b, actions[i]);
    }
  }

  /** After a deletion failed for good, asking again records a pending deletion that nothing can carry out. */
  method RetryIsStranded(b: BuildResult)
    requires b.Valid() && b.record == Some(RecordFailed) && !b.AnyRunning() && DeleteKey in b.jobs
    modifies b
    ensures b.Valid() && b.Stranded()
  {
    var r := b.Request();
    assert r == Success(RecordPending);
  }

  /** A new item whose deletion is requested and fails on each of its three attempts. */
  method FailForGood() returns (b: BuildResult)
    ensures fresh(b) && b.Valid() && b.record == Some(RecordFailed)
    ensures b.jobs == map[DeleteKey := Job(DeleteBuildResult, JobFailed, 3, 3, Idle)]
  {
    b := new BuildResult();
    var _ := b.Request();
    assert b.jobs == map[DeleteKey := Job(DeleteBuildResult, JobPending, 0, 3, Idle)];
    for attempt := 0 to 3
      invariant fresh(b) && b.Valid()
      invariant b.jobs == map[DeleteKey := Job(DeleteBuildResult, if attempt < 3 then JobPending else JobFailed, attempt, 3, Idle)]
      invariant attempt == 3 ==> b.record == Some(RecordFailed)
    {
      FailOnce(b, attempt);
    }
  }

  /** The only job, a deletion, is claimed and fails. */
  method FailOnce(b: BuildResult, attempt: nat)
    requires b.Valid() && attempt < 3 && b.jobs == map[DeleteKey := Job(DeleteBuildResult, JobPending, attempt, 3, Idle)]
    modifies b
    ensures b.Valid()
    ensures b.jobs == map[DeleteKey := Job(DeleteBuildResult, if attempt < 2 then JobPending else JobFailed, attempt + 1, 3, Idle)]
    ensures attempt == 2 ==> b.record == Some(RecordFailed)
  {
    b.Claim(DeleteKey);
    assert b.jobs == map[DeleteKey := Job(DeleteBuildResult, Running, attempt + 1, 3, Claimed)];
    b.Fail(DeleteKey);
  }

  /** From a new item on: requested, failed for good, requested again, and stranded. */
  method StrandedFromTheStart() returns (b: BuildResult)
    ensures b.Valid() && b.Stranded()
  {
    b := FailForGood();
    NothingRuns(b);
    RetryIsStranded(b);
  }

  lemma NothingRuns(b: BuildResult)
    requires b.jobs == map[DeleteKey := Job(DeleteBuildResult, JobFailed, 3, 3, Idle)]
    ensures !b.AnyRunning() && DeleteKey in b.jobs
  {
  }

  /** Importing again while a deletion is pending removes its job and strands it. */
  method ReimportStrandsPendingDeletion(b: BuildResult, restore: bool, newKey: nat)
    requires b.Valid() && b.record == Some(RecordPending) && !b.AnyRunning() && b.item != ResultDeleted
    modifies b
    ensures b.Valid() && b.Stranded() && b.deletion != Active
  {
    var r := b.Reimport(restore, true, newKey);
    assert r.Success?;
  }
}
