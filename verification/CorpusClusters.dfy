/** Grouping profiled contents into layout clusters; every candidate file is accounted for once. */
module CorpusClusters {
  import opened Wrappers
  import opened Lines
  import opened Corpus

  /** An outcome with all the paths that have its content. */
  datatype Member = Member(outcome: Outcome, paths: seq<string>)

  type Clusters = map<string, seq<Member>>

  datatype Report = Report(clusters: Clusters, failures: seq<Member>)

  /** What a fresh run reports on the contents, in the given order of digests. */
  function Members(files: seq<File>, shas: seq<string>, profile: Profiler): (members: seq<Member>)
    requires forall s :: s in shas ==> s in Digests(files)
    ensures |members| == |shas|
    ensures forall i :: 0 <= i < |shas| ==> members[i] == Member(profile(shas[i], Representative(files, shas[i])), PathsOf(files, shas[i]))
  {
    if shas == [] then []
    else
      var n := |shas| - 1;
      assert shas[n] in shas;
      Members(files, shas[..n], profile) + [Member(profile(shas[n], Representative(files, shas[n])), PathsOf(files, shas[n]))]
  }

  predicate InCluster(m: Member, fingerprint: string) {
    m.outcome.status.Profiled? && m.outcome.status.fingerprint == fingerprint
  }

  function ClusterOf(members: seq<Member>, fingerprint: string): (cluster: seq<Member>)
    ensures forall m :: m in cluster <==> m in members && InCluster(m, fingerprint)
  {
    if members == [] then []
    else
      var n := |members| - 1;
      assert members == members[..n] + [members[n]];
      ClusterOf(members[..n], fingerprint) + if InCluster(members[n], fingerprint) then [members[n]] else []
  }

  function FailuresOf(members: seq<Member>): (failures: seq<Member>)
    ensures forall m :: m in failures <==> m in members && m.outcome.status.Failed?
  {
    if members == [] then []
    else
      var n := |members| - 1;
      assert members == members[..n] + [members[n]];
      FailuresOf(members[..n]) + if members[n].outcome.status.Failed? then [members[n]] else []
  }

  /** The report holds every cluster, in the members' order, and every failure. */
  ghost predicate Reports(r: Report, members: seq<Member>) {
    && r.failures == FailuresOf(members)
    && (forall f :: f in r.clusters <==> ClusterOf(members, f) != [])
    && (forall f :: f in r.clusters ==> r.clusters[f] == ClusterOf(members, f))
  }

  lemma ReportsMore(r: Report, members: seq<Member>, m: Member)
    requires Reports(r, members)
    ensures match m.outcome.status
            case Failed(_, _) => Reports(r.(failures := r.failures + [m]), members + [m])
            case Profiled(_, f, _) =>
              Reports(r.(clusters := r.clusters[f := (if f in r.clusters then r.clusters[f] else []) + [m]]), members + [m])
  {
    hide ClusterOf, FailuresOf;
    FailuresMore(members, m);
    forall f: string ensures ClusterOf(members + [m], f) == if InCluster(m, f) then ClusterOf(members, f) + [m] else ClusterOf(members, f) {
      ClusterMore(members, m, f);
    }
    match m.outcome.status {
      case Failed(_, _) =>
      case Profiled(_, f, _) =>
        assert (if f in r.clusters then r.clusters[f] else []) == ClusterOf(members, f);
    }
  }

  lemma ClusterMore(members: seq<Member>, m: Member, f: string)
    ensures ClusterOf(members + [m], f) == if InCluster(m, f) then ClusterOf(members, f) + [m] else ClusterOf(members, f)
  {
    assert (members + [m])[..|members|] == members;
  }

  lemma FailuresMore(members: seq<Member>, m: Member)
    ensures FailuresOf(members + [m]) == if m.outcome.status.Failed? then FailuresOf(members) + [m] else FailuresOf(members)
  {
    assert (members + [m])[..|members|] == members;
  }

  /** The loop over the outcomes in analyze_corpus. */
  method Cluster(members: seq<Member>) returns (r: Report)
    ensures Reports(r, members)
  {
    hide Reports;
    r := Report(map[], []);
    NothingToReport();
    for i := 0 to |members|
      invariant Reports(r, members[..i])
    {
      var m := members[i];
      assert members[..i + 1] == members[..i] + [m];
      ReportsMore(r, members[..i], m);
      match m.outcome.status {
        case Failed(_, _) =>
          r := r.(failures := r.failures + [m]);
        case Profiled(_, f, _) =>
          r := r.(clusters := r.clusters[f := (if f in r.clusters then r.clusters[f] else []) + [m]]);
      }
    }
    assert members[..|members|] == members;
  }

  lemma NothingToReport()
    ensures Reports(Report(map[], []), [])
  {
  }

  /**
   * analyze_corpus: a resumed run reports what a fresh run reports, whatever order the profilers finish
   * in; `shas` is the sorted order of the digests.
   */
  method AnalyzeCorpus(files: seq<File>, shas: seq<string>, checkpoint: string, read: Reader, write: Writer, profile: Profiler)
    returns (r: Option<Report>, after: string)
    requires forall s :: s in shas <==> s in Digests(files)
    requires Truthful(Remembered(SplitLines(checkpoint), read), files, profile)
    ensures r.Some? <==> Readable(SplitLines(checkpoint), read)
    ensures r.Some? ==> Reports(r.value, Members(files, shas, profile))
  {
    hide Readable, SplitLines, Remembered, Truthful, Digests, Reports, Members, Representative;
    var outcomes, appended;
    outcomes, appended, after := Profile(files, checkpoint, read, write, profile);
    if outcomes.None? {
      return None, after;
    }
    var members := [];
    for i := 0 to |shas|
      invariant members == Members(files, shas[..i], profile)
    {
      assert shas[i] in shas && shas[..i + 1] == shas[..i] + [shas[i]];
      members := members + [Member(outcomes.value[shas[i]], PathsOf(files, shas[i]))];
      MembersMore(files, shas[..i], shas[i], profile);
    }
    assert shas[..|shas|] == shas;
    var report := Cluster(members);
    r := Some(report);
  }

  lemma MembersMore(files: seq<File>, init: seq<string>, sha: string, profile: Profiler)
    requires forall s :: s in init + [sha] ==> s in Digests(files)
    ensures sha in Digests(files) && forall s :: s in init ==> s in Digests(files)
    ensures Members(files, init + [sha], profile)
         == Members(files, init, profile) + [Member(profile(sha, Representative(files, sha)), PathsOf(files, sha))]
  {
    assert sha in init + [sha] && forall s :: s in init ==> s in init + [sha];
  }

  /**
   * A run interrupted any number of times, at any character, and resumed reports what a fresh run reports,
   * if no outcome it wrote holds a line boundary.
   */
  method ResumeAfterInterruptions(pieces: seq<Piece>, files: seq<File>, shas: seq<string>, read: Reader, write: Writer, profile: Profiler)
    returns (r: Option<Report>, after: string)
    requires forall s :: s in shas <==> s in Digests(files)
    requires LineFormat(read, write) && OneLineEach(pieces, write) && Faithful(profile)
    requires FromProfiling(OutcomesOf(pieces), files, profile)
    ensures r.Some? && Reports(r.value, Members(files, shas, profile))
  {
    hide *;
    InterruptedRunsStayTruthful(pieces, files, read, write, profile);
    r, after := AnalyzeCorpus(files, shas, Journal(pieces, write), read, write, profile);
  }

  /** Whatever the outcomes hold, the resumed run reports what a fresh run reports, exactly if it can read the checkpoint. */
  method ResumeWhenReadable(pieces: seq<Piece>, files: seq<File>, shas: seq<string>, read: Reader, write: Writer, profile: Profiler)
    returns (r: Option<Report>, after: string)
    requires forall s :: s in shas <==> s in Digests(files)
    requires Unforgeable(read, write) && Faithful(profile)
    requires FromProfiling(OutcomesOf(pieces), files, profile)
    ensures r.Some? <==> Readable(SplitLines(Journal(pieces, write)), read)
    ensures r.Some? ==> Reports(r.value, Members(files, shas, profile))
  {
    hide *;
    AnyRunsStayTruthful(pieces, files, read, write, profile);
    r, after := AnalyzeCorpus(files, shas, Journal(pieces, write), read, write, profile);
  }

  // ----- every file once -----

  function PathCount(members: seq<Member>): nat {
    if members == [] then 0 else PathCount(members[..|members| - 1]) + |members[|members| - 1].paths|
  }

  predicate DistinctShas(shas: seq<string>) {
    forall i, j :: 0 <= i < j < |shas| ==> shas[i] != shas[j]
  }

  predicate DistinctFiles(files: seq<File>) {
    forall i, j :: 0 <= i < j < |files| ==> files[i].path != files[j].path
  }

  /** Each candidate file lies in exactly one member, and the member in its cluster or among the failures. */
  lemma EachFileOnce(files: seq<File>, shas: seq<string>, profile: Profiler, r: Report, f: File, i: nat)
    requires DistinctFiles(files) && DistinctShas(shas) && Faithful(profile)
    requires forall s :: s in shas <==> s in Digests(files)
    requires Reports(r, Members(files, shas, profile))
    requires f in files && i < |shas|
    ensures var m := Members(files, shas, profile)[i];
            && (f.path in m.paths <==> shas[i] == f.sha)
            && (f.path in m.paths ==>
                  match m.outcome.status
                  case Failed(_, _) => m in r.failures && forall k :: k in r.clusters ==> m !in r.clusters[k]
                  case Profiled(_, fingerprint, _) =>
                    m !in r.failures && fingerprint in r.clusters && forall k :: k in r.clusters ==> (m in r.clusters[k] <==> k == fingerprint))
  {
    var members := Members(files, shas, profile);
    var m := members[i];
    assert m in members;
    if f.path in m.paths {
      assert File(f.path, shas[i]) in files;
      SamePath(files, f, File(f.path, shas[i]));
    }
    assert f == File(f.path, f.sha);
    match m.outcome.status {
      case Profiled(_, fingerprint, _) => assert m in ClusterOf(members, fingerprint);
      case Failed(_, _) =>
    }
  }

  lemma SamePath(files: seq<File>, f: File, g: File)
    requires DistinctFiles(files) && f in files && g in files && f.path == g.path
    ensures f == g
  {
  }

  function FilesWith(files: seq<File>, shas: set<string>): nat {
    if files == [] then 0
    else FilesWith(files[..|files| - 1], shas) + if files[|files| - 1].sha in shas then 1 else 0
  }

  lemma {:induction false} FilesWithMore(files: seq<File>, shas: set<string>, sha: string)
    requires sha !in shas
    ensures FilesWith(files, shas + {sha}) == FilesWith(files, shas) + |PathsOf(files, sha)|
  {
    if files != [] {
      FilesWithMore(files[..|files| - 1], shas, sha);
    }
  }

  function Elements(shas: seq<string>): (s: set<string>)
    ensures forall x :: x in s <==> x in shas
  {
    set x | x in shas
  }

  lemma {:induction false} CountByContent(files: seq<File>, shas: seq<string>, profile: Profiler)
    requires DistinctShas(shas) && forall s :: s in shas ==> s in Digests(files)
    ensures PathCount(Members(files, shas, profile)) == FilesWith(files, Elements(shas))
  {
    if shas == [] {
      NoFilesWith(files, Elements(shas));
    } else {
      var n := |shas| - 1;
      hide Digests, Representative, PathsOf, FilesWith, Members;
      assert shas == shas[..n] + [shas[n]];
      MembersMore(files, shas[..n], shas[n], profile);
      CountByContent(files, shas[..n], profile);
      FilesWithMore(files, Elements(shas[..n]), shas[n]);
      assert Elements(shas) == Elements(shas[..n]) + {shas[n]};
      var before := Members(files, shas[..n], profile);
      var all := Members(files, shas, profile);
      assert all[..|before|] == before;
    }
  }

  lemma {:induction false} NoFilesWith(files: seq<File>, shas: set<string>)
    requires shas == {}
    ensures FilesWith(files, shas) == 0
  {
    if files != [] {
      NoFilesWith(files[..|files| - 1], shas);
    }
  }

  lemma {:induction false} AllFilesWith(files: seq<File>, shas: set<string>)
    requires forall f :: f in files ==> f.sha in shas
    ensures FilesWith(files, shas) == |files|
  {
    if files != [] {
      assert files[|files| - 1] in files;
      AllFilesWith(files[..|files| - 1], shas);
    }
  }

  /** The members' path counts add up to the candidate files, and the paths of each content to its duplicates. */
  lemma CountsAddUp(files: seq<File>, shas: seq<string>, profile: Profiler)
    requires DistinctShas(shas) && forall s :: s in shas <==> s in Digests(files)
    ensures PathCount(Members(files, shas, profile)) == |files|
  {
    CountByContent(files, shas, profile);
    AllFilesWith(files, Elements(shas));
  }

  /** Profiled and failed members together are all of them. */
  lemma {:induction false} MembersSplit(members: seq<Member>)
    ensures PathCount(FailuresOf(members)) + PathCount(ProfiledOf(members)) == PathCount(members)
    ensures |FailuresOf(members)| + |ProfiledOf(members)| == |members|
  {
    if members != [] {
      var init, last := members[..|members| - 1], members[|members| - 1];
      assert members == init + [last];
      MembersSplit(init);
      FailuresMore(init, last);
      ProfiledMore(init, last);
      hide FailuresOf, ProfiledOf, PathCount;
      PathCountMore(init, last);
      PathCountMore(FailuresOf(init), last);
      PathCountMore(ProfiledOf(init), last);
    }
  }

  lemma ProfiledMore(members: seq<Member>, m: Member)
    ensures ProfiledOf(members + [m]) == if m.outcome.status.Profiled? then ProfiledOf(members) + [m] else ProfiledOf(members)
  {
    assert (members + [m])[..|members|] == members;
  }

  lemma PathCountMore(members: seq<Member>, m: Member)
    ensures PathCount(members + [m]) == PathCount(members) + |m.paths|
  {
    assert (members + [m])[..|members|] == members;
  }

  function ProfiledOf(members: seq<Member>): seq<Member> {
    if members == [] then []
    else
      var n := |members| - 1;
      ProfiledOf(members[..n]) + if members[n].outcome.status.Profiled? then [members[n]] else []
  }
}
