/** The small pool of upload workers that share one index into the queue. */
module UploadPool {
  import opened Wrappers

  /** A worker at the head of its loop, waiting for its file's upload, or done. */
  datatype Worker = Ready | Sending(index: nat) | Stopped

  /** What becomes of each file's upload: nothing, or a failure message. */
  type Fate = nat -> Option<string>

  datatype Outcome = AllFailed(failures: seq<string>) | Uploaded(failures: seq<string>)

  /** The number of workers: two unless configured, never more than three or than files. */
  function WorkerCount(configured: Option<int>, files: nat): nat {
    var concurrency := if configured.Some? && configured.value > 0 then (if configured.value < 3 then configured.value else 3) else 2;
    if concurrency < files then concurrency else files
  }

  /** The files in the workers' hands. */
  function InHand(workers: seq<Worker>): multiset<nat> {
    if workers == [] then multiset{}
    else
      InHand(workers[..|workers| - 1]) + Hand(workers[|workers| - 1])
  }

  function Hand(w: Worker): multiset<nat> {
    if w.Sending? then multiset{w.index} else multiset{}
  }

  lemma {:induction false} InHandBoth(a: seq<Worker>, b: seq<Worker>)
    ensures InHand(a + b) == InHand(a) + InHand(b)
  {
    hide InHand, Hand;
    if b == [] {
      assert a + b == a;
      NoHands();
    } else {
      var init, last := b[..|b| - 1], b[|b| - 1];
      InHandBoth(a, init);
      assert a + b == (a + init) + [last] && b == init + [last];
      InHandLast(a + init, last);
      InHandLast(init, last);
      Grouped(InHand(a), InHand(init), Hand(last));
    }
  }

  lemma NoHands()
    ensures InHand([]) == multiset{}
  {
  }

  lemma InHandLast(init: seq<Worker>, last: Worker)
    ensures InHand(init + [last]) == InHand(init) + Hand(last)
  {
    assert (init + [last])[..|init|] == init;
  }

  lemma Grouped(a: multiset<nat>, b: multiset<nat>, c: multiset<nat>)
    ensures a + (b + c) == a + b + c
  {
  }

  lemma InHandChanges(workers: seq<Worker>, w: nat, now: Worker)
    requires w < |workers|
    ensures InHand(workers[w := now]) + Hand(workers[w]) == InHand(workers) + Hand(now)
  {
    var a, b := workers[..w], workers[w + 1..];
    assert workers == a + [workers[w]] + b && workers[w := now] == a + [now] + b;
    hide InHand, Hand;
    InHandBoth(a + [workers[w]], b);
    InHandBoth(a + [now], b);
    InHandLast(a, workers[w]);
    InHandLast(a, now);
    Swapped(InHand(a), Hand(workers[w]), Hand(now), InHand(b));
  }

  lemma Swapped(a: multiset<nat>, was: multiset<nat>, now: multiset<nat>, b: multiset<nat>)
    ensures a + now + b + was == a + was + b + now
  {
  }

  lemma {:induction false} AllStopped(workers: seq<Worker>)
    requires forall w :: 0 <= w < |workers| ==> workers[w] == Stopped
    ensures InHand(workers) == multiset{}
  {
    if workers != [] {
      AllStopped(workers[..|workers| - 1]);
    }
  }

  /** Each of the first n files once. */
  function Once(n: nat): multiset<nat> {
    if n == 0 then multiset{} else Once(n - 1) + multiset{n - 1}
  }

  lemma {:induction false} OnceEach(n: nat)
    ensures forall i: nat :: Once(n)[i] == if i < n then 1 else 0
    ensures |Once(n)| == n
  {
    if n > 0 {
      OnceEach(n - 1);
    }
  }

  /** The messages of the failed files, in order of completion. */
  function Failures(done: seq<nat>, fate: Fate): (failures: seq<string>)
    ensures |failures| <= |done|
    ensures |failures| == |done| <==> forall i :: i in done ==> fate(i).Some?
  {
    if done == [] then []
    else
      var init, last := done[..|done| - 1], done[|done| - 1];
      assert done == init + [last];
      Failures(init, fate) + match fate(last) case None => [] case Some(message) => [message]
  }

  /** The work still to be done: two steps a file, and one to stop each worker. */
  function Work(workers: seq<Worker>): nat {
    if workers == [] then 0
    else
      Work(workers[..|workers| - 1]) + Steps(workers[|workers| - 1])
  }

  function Steps(w: Worker): nat {
    match w case Ready => 1 case Sending(_) => 2 case Stopped => 0
  }

  lemma {:induction false} WorkChanges(workers: seq<Worker>, w: nat, now: Worker)
    requires w < |workers|
    ensures Work(workers[w := now]) + Steps(workers[w]) == Work(workers) + Steps(now)
  {
    var n := |workers| - 1;
    if w < n {
      WorkChanges(workers[..n], w, now);
      assert workers[w := now][..n] == workers[..n][w := now];
    } else {
      assert workers[w := now][..n] == workers[..n];
    }
  }

  lemma WorkShrinks(workers: seq<Worker>, w: nat, now: Worker)
    requires w < |workers|
    requires workers[w].Ready? ==> !now.Ready?
    requires workers[w].Sending? ==> now.Ready?
    requires workers[w] != Stopped
    ensures Work(workers[w := now]) < Work(workers) + (if now.Sending? then 2 else 0)
  {
    WorkChanges(workers, w, now);
  }

  lemma FailuresMore(done: seq<nat>, i: nat, fate: Fate)
    ensures Failures(done + [i], fate) == match fate(i) case None => Failures(done, fate) case Some(message) => Failures(done, fate) + [message]
  {
    assert (done + [i])[..|done|] == done;
  }

  predicate Accounted(taken: nat, workers: seq<Worker>, done: seq<nat>) {
    multiset(done) + InHand(workers) == Once(taken)
  }

  lemma TakeFile(taken: nat, workers: seq<Worker>, done: seq<nat>, w: nat)
    requires Accounted(taken, workers, done) && w < |workers| && workers[w] == Ready
    ensures Accounted(taken + 1, workers[w := Sending(taken)], done)
  {
    InHandChanges(workers, w, Sending(taken));
    assert InHand(workers[w := Sending(taken)]) == InHand(workers) + multiset{taken};
  }

  lemma NothingMore(a: multiset<nat>)
    ensures a + multiset{} == a
  {
  }

  lemma StopWorker(taken: nat, workers: seq<Worker>, done: seq<nat>, w: nat)
    requires Accounted(taken, workers, done) && w < |workers| && workers[w] == Ready
    ensures Accounted(taken, workers[w := Stopped], done)
  {
    InHandChanges(workers, w, Stopped);
    NothingMore(InHand(workers[w := Stopped]));
    NothingMore(InHand(workers));
  }

  lemma FinishFile(taken: nat, workers: seq<Worker>, done: seq<nat>, w: nat)
    requires Accounted(taken, workers, done) && w < |workers| && workers[w].Sending?
    ensures Accounted(taken, workers[w := Ready], done + [workers[w].index])
  {
    InHandChanges(workers, w, Ready);
    assert InHand(workers[w := Ready]) + multiset{workers[w].index} == InHand(workers);
    assert multiset(done + [workers[w].index]) == multiset(done) + multiset{workers[w].index};
  }

  predicate Running(workers: seq<Worker>) {
    exists w :: 0 <= w < |workers| && workers[w] != Stopped
  }

  class Pool {
    const files: nat
    var nextIndex: nat
    var workers: seq<Worker>
    var done: seq<nat>
    var failures: seq<string>

    /** Every file taken so far is in one worker's hands or done, and only once. */
    ghost predicate Valid(fate: Fate)
      reads this
    {
      && nextIndex <= files
      && Accounted(nextIndex, workers, done)
      && failures == Failures(done, fate)
      && (forall w :: 0 <= w < |workers| && workers[w] == Stopped ==> nextIndex == files)
    }

    constructor (files: nat, count: nat)
      ensures this.files == files && nextIndex == 0 && |workers| == count && done == [] && failures == []
      ensures forall fate :: Valid(fate)
      ensures forall w :: 0 <= w < count ==> workers[w] == Ready
    {
      this.files, nextIndex, done, failures := files, 0, [], [];
      workers := seq(count, _ => Ready);
      new;
      NobodySending(workers);
    }

    /** One turn of a worker: take the next file or stop, or see its upload end. */
    method Turn(w: nat, fate: Fate)
      requires Valid(fate) && w < |workers| && workers[w] != Stopped
      modifies this`nextIndex, this`workers, this`done, this`failures
      ensures Valid(fate) && |workers| == old(|workers|)
      ensures 2 * (files - nextIndex) + Work(workers) < 2 * (files - old(nextIndex)) + Work(old(workers))
    {
      hide Accounted, InHand, Once, Failures, Work, Steps;
      match workers[w] {
        case Ready =>
          if nextIndex < files {
            TakeFile(nextIndex, workers, done, w);
            WorkShrinks(workers, w, Sending(nextIndex));
            workers := workers[w := Sending(nextIndex)];
            nextIndex := nextIndex + 1;
          } else {
            StopWorker(nextIndex, workers, done, w);
            WorkShrinks(workers, w, Stopped);
            workers := workers[w := Stopped];
          }
        case Sending(i) =>
          var result := fate(i);
          if result.Some? {
            failures := failures + [result.value];
          }
          FailuresMore(done, i, fate);
          ghost var before := done;
          done := done + [i];
          FinishFile(nextIndex, workers, before, w);
          WorkShrinks(workers, w, Ready);
          workers := workers[w := Ready];
      }
    }
  }

  lemma {:induction false} NobodySending(workers: seq<Worker>)
    requires forall w :: 0 <= w < |workers| ==> workers[w] == Ready
    ensures InHand(workers) == multiset{}
  {
    if workers != [] {
      NobodySending(workers[..|workers| - 1]);
    }
  }

  /**
   * uploadBatch after the batch was created: whichever worker takes the next turn, each file is sent
   * exactly once, the failures are those of the failed files, and the call throws exactly if every file
   * failed, an empty list of files among them.
   */
  method UploadBatch(files: nat, configured: Option<int>, fate: Fate) returns (outcome: Outcome, done: seq<nat>)
    ensures multiset(done) == Once(files)
    ensures outcome.failures == Failures(done, fate)
    ensures outcome.AllFailed? <==> forall i :: 0 <= i < files ==> fate(i).Some?
  {
    var count := WorkerCount(configured, files);
    var pool := new Pool(files, count);
    while Running(pool.workers)
      invariant fresh(pool) && pool.Valid(fate) && pool.files == files && |pool.workers| == count
      decreases 2 * (files - pool.nextIndex) + Work(pool.workers)
    {
      var w: nat :| w < |pool.workers| && pool.workers[w] != Stopped;
      pool.Turn(w, fate);
    }
    AllStopped(pool.workers);
    if files > 0 {
      assert pool.workers[0] == Stopped;
    }
    done := pool.done;
    OnceEach(files);
    EveryFileDone(done, files, fate);
    outcome := if |pool.failures| == files then AllFailed(pool.failures) else Uploaded(pool.failures);
  }

  lemma EveryFileDone(done: seq<nat>, files: nat, fate: Fate)
    requires multiset(done) == Once(files)
    ensures |done| == files
    ensures |Failures(done, fate)| == files <==> forall i :: 0 <= i < files ==> fate(i).Some?
  {
    OnceEach(files);
    assert |done| == |multiset(done)|;
    forall i: nat ensures i in done <==> i < files {
      assert i in done <==> i in multiset(done);
    }
  }
}
