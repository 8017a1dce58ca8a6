/** The batch counters: two recounts and an incremental change. */
module BatchCounters {
  import opened DeletionProtocol

  datatype BatchStatus = BatchPending | BatchRunning | BatchCompleted | BatchPartial | BatchFailed

  /** How many items of the batch have a formal import status. */
  function Count(items: seq<FormalStatus>, s: FormalStatus): (n: nat)
    ensures n <= |items|
    ensures n > 0 <==> s in items
  {
    multiset(items)[s]
  }

  function Partials(items: seq<FormalStatus>): nat {
    Count(items, FormalPartial) + Count(items, PendingRebuild)
  }

  function Finished(items: seq<FormalStatus>): nat {
    Count(items, FormalImported) + Count(items, FormalFailed) + Count(items, FormalDeleted) + Partials(items)
  }

  function Working(items: seq<FormalStatus>): nat {
    Count(items, FormalNeedsReview) + Count(items, FormalMaterializing)
  }

  /** max(0, n - 1) */
  function OneLess(n: nat): nat {
    if n == 0 then 0 else n - 1
  }

  class Batch {
    var total: nat
    var completed: nat
    var failed: nat
    var deleted: nat
    var status: BatchStatus

    /** The counters are what counting the items would give. */
    predicate Counted(items: seq<FormalStatus>)
      reads this
    {
      completed == Count(items, FormalImported) && failed == Count(items, FormalFailed) && deleted == Count(items, FormalDeleted)
    }

    constructor (total: nat)
      ensures this.total == total && completed == failed == deleted == 0 && status == BatchPending
    {
      this.total, completed, failed, deleted, status := total, 0, 0, 0, BatchPending;
    }

    /** _refresh_batch, run by a deletion. */
    method RefreshAfterDeletion(items: seq<FormalStatus>)
      modifies this
      ensures Counted(items) && total == old(total) && status == StatusAfterDeletion(items, total)
    {
      completed, failed, deleted := Count(items, FormalImported), Count(items, FormalFailed), Count(items, FormalDeleted);
      var partial := Partials(items);
      var active: int := total - (completed + failed + deleted + partial);
      if active > 0 {
        status := BatchRunning;
      } else if failed == total {
        status := BatchFailed;
      } else if failed > 0 || partial > 0 {
        status := BatchPartial;
      } else {
        status := BatchCompleted;
      }
    }

    /** refresh_batch, run by the worker. */
    method RefreshByWorker(items: seq<FormalStatus>)
      modifies this
      ensures Counted(items) && total == old(total) && status == StatusByWorker(items, total)
    {
      completed, failed, deleted := Count(items, FormalImported), Count(items, FormalFailed), Count(items, FormalDeleted);
      var partial, active := Partials(items), Working(items);
      var finished := completed + partial + failed + deleted;
      if finished == 0 {
        status := if active > 0 then BatchRunning else BatchPending;
      } else if finished < total {
        status := BatchRunning;
      } else if failed == total {
        status := BatchFailed;
      } else if failed > 0 || partial > 0 {
        status := BatchPartial;
      } else {
        status := BatchCompleted;
      }
    }

    /**
     * What importing item `i` again does to the counters: they stay a recount exactly unless a partial
     * result was taken off the imported ones.
     */
    method Reimport(items: seq<FormalStatus>, i: nat)
      requires i < |items| && Counted(items)
      modifies this
      ensures total == old(total) && status == BatchRunning
      ensures Counted(items[i := FormalPending]) <==> items[i] != FormalPartial || FormalImported !in items
    {
      var was := items[i];
      Replaced(items, i);
      if was == FormalImported || was == FormalPartial {
        completed := OneLess(completed);
      } else if was == FormalFailed {
        failed := OneLess(failed);
      } else if was == FormalDeleted {
        deleted := OneLess(deleted);
      }
      status := BatchRunning;
    }
  }

  /** What a status says of the batch, independently of how it is computed. */
  function StatusAfterDeletion(items: seq<FormalStatus>, total: nat): BatchStatus {
    if Finished(items) < total then BatchRunning
    else if Count(items, FormalFailed) == total then BatchFailed
    else if Count(items, FormalFailed) + Partials(items) > 0 then BatchPartial
    else BatchCompleted
  }

  function StatusByWorker(items: seq<FormalStatus>, total: nat): BatchStatus {
    if Finished(items) == 0 then (if Working(items) == 0 then BatchPending else BatchRunning)
    else StatusAfterDeletion(items, total)
  }

  lemma Replaced(items: seq<FormalStatus>, i: nat)
    requires i < |items|
    ensures items[i] in items
    ensures forall s :: Count(items[i := FormalPending], s)
              == Count(items, s) - (if s == items[i] then 1 else 0) + (if s == FormalPending then 1 else 0)
  {
    var after := items[i := FormalPending];
    assert items == items[..i] + [items[i]] + items[i + 1..];
    assert after == items[..i] + [FormalPending] + items[i + 1..];
  }

  /** The two recounts agree if and only if an item is finished, or the batch has files and one is being worked on. */
  lemma RecountsAgreeWhen(items: seq<FormalStatus>, total: nat)
    ensures StatusAfterDeletion(items, total) == StatusByWorker(items, total)
       <==> Finished(items) > 0 || (total > 0 && Working(items) > 0)
  {
  }

  /** After a deletion one item is deleted, so the two agree. */
  lemma RecountsAgreeAfterDeletion(items: seq<FormalStatus>, total: nat)
    requires FormalDeleted in items
    ensures StatusAfterDeletion(items, total) == StatusByWorker(items, total)
  {
    RecountsAgreeWhen(items, total);
  }

  /**
   * After an item is set back to pending, a recount by the deletion gives the running status that
   * importing again sets; the worker's recount gives it exactly if another item is finished or worked on.
   */
  lemma RunningAfterReimport(items: seq<FormalStatus>, i: nat, total: nat)
    requires i < |items| <= total
    ensures var after := items[i := FormalPending];
            StatusAfterDeletion(after, total) == BatchRunning
            && (StatusByWorker(after, total) == BatchRunning <==>
                  exists j :: 0 <= j < |items| && j != i && items[j] != FormalPending)
  {
    var after := items[i := FormalPending];
    EveryStatusOnce(after);
    assert after[i] == FormalPending;
    if j :| 0 <= j < |items| && j != i && items[j] != FormalPending {
      assert after[j] == items[j] && after[j] in after;
    }
    if Finished(after) + Working(after) > 0 {
      NotAllPending(after);
    }
  }

  lemma CountLast(init: seq<FormalStatus>, last: FormalStatus)
    ensures forall s :: Count(init + [last], s) == Count(init, s) + (if s == last then 1 else 0)
  {
  }

  lemma {:induction false} EveryStatusOnce(items: seq<FormalStatus>)
    ensures Finished(items) + Working(items) + Count(items, FormalPending) == |items|
  {
    if items != [] {
      var n := |items| - 1;
      EveryStatusOnce(items[..n]);
      hide Count, Finished, Working;
      assert items == items[..n] + [items[n]];
      OneStatusMore(items[..n], items[n]);
    } else {
      NothingCounted();
    }
  }

  lemma NothingCounted()
    ensures Finished([]) + Working([]) + Count([], FormalPending) == 0
  {
  }

  lemma OneStatusMore(init: seq<FormalStatus>, last: FormalStatus)
    ensures Finished(init + [last]) + Working(init + [last]) + Count(init + [last], FormalPending)
         == Finished(init) + Working(init) + Count(init, FormalPending) + 1
  {
    CountLast(init, last);
    hide Count;
  }

  lemma NotAllPending(items: seq<FormalStatus>)
    requires Finished(items) + Working(items) > 0
    ensures exists j :: 0 <= j < |items| && items[j] != FormalPending
  {
    EveryStatusOnce(items);
    if forall j :: 0 <= j < |items| ==> items[j] == FormalPending {
      AllPending(items);
    }
  }

  lemma {:induction false} AllPending(items: seq<FormalStatus>)
    requires forall j :: 0 <= j < |items| ==> items[j] == FormalPending
    ensures Count(items, FormalPending) == |items|
  {
    if items != [] {
      var n := |items| - 1;
      assert items == items[..n] + [items[n]];
      AllPending(items[..n]);
    }
  }
}
