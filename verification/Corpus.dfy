/** Resumable corpus analysis: the checkpoint, the pool of profilers, and the clusters. */
module Corpus {
  import opened Wrappers
  import opened Lines

  datatype Status = Profiled(contract: string, fingerprint: string, evidence: string) | Failed(code: string, message: string)

  /** What profiling one content gives, as it is also written to the checkpoint. */
  datatype Outcome = Outcome(sha: string, path: string, status: Status)

  const CONTRACT := "corpus-profile/v2"
  const RETRYABLE: set<string> := {"PROFILE_PROCESS_EXITED", "PROFILE_TIMEOUT", "PROFILE_INVALID_OUTPUT"}

  // ----- the checkpoint -----

  /** A checkpoint line read as JSON. */
  datatype Line = NotJson | NotObject | NoHash | Recorded(outcome: Outcome)

  type Reader = string -> Line
  type Writer = Outcome -> string

  type Outcomes = map<string, Outcome>

  function Remember(found: Outcomes, line: Line): Outcomes {
    if line.Recorded? then found[line.outcome.sha := line.outcome] else found
  }

  function Remembered(lines: seq<string>, read: Reader): Outcomes {
    if lines == [] then map[] else Remember(Remembered(lines[..|lines| - 1], read), read(lines[|lines| - 1]))
  }

  /** A line that is JSON but not an object is the one thing reading cannot skip. */
  predicate Readable(lines: seq<string>, read: Reader) {
    forall i :: 0 <= i < |lines| ==> read(lines[i]) != NotObject
  }

  /** _read_checkpoint */
  method ReadCheckpoint(text: string, read: Reader) returns (r: Option<Outcomes>)
    ensures r.Some? <==> Readable(SplitLines(text), read)
    ensures r.Some? ==> r.value == Remembered(SplitLines(text), read)
  {
    var lines := SplitLines(text);
    var found: Outcomes := map[];
    for i := 0 to |lines|
      invariant Readable(lines[..i], read) && found == Remembered(lines[..i], read)
    {
      assert lines[..i + 1][..i] == lines[..i];
      var line := read(lines[i]);
      if line == NotObject {
        return None;
      }
      found := Remember(found, line);
    }
    assert lines[..|lines|] == lines;
    r := Some(found);
  }

  /** A recorded outcome that need not be profiled again. */
  predicate Reusable(o: Outcome, path: string) {
    o.path == path &&
    match o.status
    case Profiled(contract, _, _) => contract == CONTRACT
    case Failed(code, _) => code !in RETRYABLE
  }

  // ----- the files -----

  /** A candidate file, in path order, with its content's digest. */
  datatype File = File(path: string, sha: string)

  function Digests(files: seq<File>): (shas: set<string>)
    ensures forall s :: s in shas <==> exists f :: f in files && f.sha == s
  {
    set f | f in files :: f.sha
  }

  function PathsOf(files: seq<File>, sha: string): (paths: seq<string>)
    ensures forall p :: p in paths <==> File(p, sha) in files
  {
    if files == [] then []
    else
      var init, last := files[..|files| - 1], files[|files| - 1];
      assert files == init + [last];
      PathsOf(init, sha) + if last.sha == sha then [last.path] else []
  }

  /** Profiling is deterministic and reports the content and path it was given. */
  type Profiler = (string, string) -> Outcome

  ghost predicate Faithful(profile: Profiler) {
    forall sha, path :: profile(sha, path).sha == sha && profile(sha, path).path == path
  }

  /** The first path of a content, which stands for all of them. */
  function Representative(files: seq<File>, sha: string): string
    requires sha in Digests(files)
  {
    ghost var f :| f in files && f.sha == sha;
    assert File(f.path, sha) in files && f.path in PathsOf(files, sha);
    PathsOf(files, sha)[0]
  }

  /** The checkpoint remembers nothing but what profiling would give again. */
  ghost predicate Truthful(found: Outcomes, files: seq<File>, profile: Profiler) {
    forall sha :: sha in found && sha in Digests(files) && Reusable(found[sha], Representative(files, sha)) ==>
      found[sha] == profile(sha, Representative(files, sha))
  }

  function FreshOutcomes(files: seq<File>, profile: Profiler): Outcomes {
    map sha | sha in Digests(files) :: profile(sha, Representative(files, sha))
  }

  /** The outcomes so far are right, and every other content is pending. */
  ghost predicate Progress(outcomes: Outcomes, pending: set<string>, files: seq<File>, profile: Profiler) {
    && outcomes.Keys + pending == Digests(files) && outcomes.Keys !! pending
    && forall sha :: sha in outcomes ==> outcomes[sha] == profile(sha, Representative(files, sha))
  }

  /** The outcomes written in one session, each as a line. */
  function Written(outcomes: seq<Outcome>, write: Writer): string {
    if outcomes == [] then "" else Written(outcomes[..|outcomes| - 1], write) + write(outcomes[|outcomes| - 1]) + "\n"
  }

  lemma WrittenMore(outcomes: seq<Outcome>, o: Outcome, write: Writer)
    ensures Written(outcomes + [o], write) == Written(outcomes, write) + write(o) + "\n"
  {
    assert (outcomes + [o])[..|outcomes|] == outcomes;
  }

  /** Every outcome is what profiling some candidate content gives. */
  ghost predicate FromProfiling(outcomes: seq<Outcome>, files: seq<File>, profile: Profiler) {
    forall o :: o in outcomes ==> exists sha :: sha in Digests(files) && o == profile(sha, Representative(files, sha))
  }

  function Reused(recorded: Outcomes, files: seq<File>): Outcomes {
    map sha | sha in recorded && sha in Digests(files) && Reusable(recorded[sha], Representative(files, sha)) :: recorded[sha]
  }

  lemma ReusedIsProgress(recorded: Outcomes, files: seq<File>, profile: Profiler)
    requires Truthful(recorded, files, profile)
    ensures Progress(Reused(recorded, files), Digests(files) - Reused(recorded, files).Keys, files, profile)
  {
    hide Reusable, Digests, Representative;
  }

  lemma OneMoreProfiled(outcomes: Outcomes, pending: set<string>, files: seq<File>, profile: Profiler, sha: string)
    requires Progress(outcomes, pending, files, profile) && sha in pending
    ensures sha in Digests(files)
    ensures Progress(outcomes[sha := profile(sha, Representative(files, sha))], pending - {sha}, files, profile)
  {
    hide Digests, Representative;
    assert sha in outcomes.Keys + pending;
  }

  lemma AllProfiled(outcomes: Outcomes, files: seq<File>, profile: Profiler)
    requires Progress(outcomes, {}, files, profile)
    ensures outcomes == FreshOutcomes(files, profile)
  {
    hide Digests, Representative;
    assert outcomes.Keys == Digests(files);
  }

  /**
   * The profiling part of analyze_corpus: what the checkpoint holds is reused, the rest is profiled, in
   * any order of completion. From a truthful checkpoint the outcomes are those of a fresh run.
   */
  method Profile(files: seq<File>, checkpoint: string, read: Reader, write: Writer, profile: Profiler)
    returns (r: Option<Outcomes>, appended: seq<Outcome>, after: string)
    requires Truthful(Remembered(SplitLines(checkpoint), read), files, profile)
    ensures r.Some? <==> Readable(SplitLines(checkpoint), read)
    ensures r.Some? ==> r.value == FreshOutcomes(files, profile)
    ensures after == checkpoint + Written(appended, write) && FromProfiling(appended, files, profile)
  {
    hide SplitLines, Readable, Remembered, Progress, Truthful, FreshOutcomes, Reused, Digests, Representative;
    appended, after := [], checkpoint;
    var recorded := ReadCheckpoint(checkpoint, read);
    if recorded.None? {
      return None, appended, after;
    }
    var outcomes := Reused(recorded.value, files);
    var pending := Digests(files) - outcomes.Keys;
    ReusedIsProgress(recorded.value, files, profile);
    while pending != {}
      invariant Progress(outcomes, pending, files, profile)
      invariant after == checkpoint + Written(appended, write) && FromProfiling(appended, files, profile)
      decreases pending
    {
      var sha :| sha in pending;
      OneMoreProfiled(outcomes, pending, files, profile, sha);
      var outcome := profile(sha, Representative(files, sha));
      outcomes := outcomes[sha := outcome];
      pending := pending - {sha};
      WrittenMore(appended, outcome, write);
      appended := appended + [outcome];
      after := after + write(outcome) + "\n";
    }
    AllProfiled(outcomes, files, profile);
    r := Some(outcomes);
  }

  // ----- interrupted runs -----

  /** What a run leaves in the file: a whole line, or the start of one it did not finish. */
  datatype Piece = Entire(outcome: Outcome) | Cut(outcome: Outcome, length: nat)

  function CutText(c: Piece, write: Writer): string {
    match c
    case Entire(o) => write(o)
    case Cut(o, k) => if k <= |write(o)| then write(o)[..k] else write(o)
  }

  /** The texts of several pieces run together: nothing ended a line between them. */
  function Glue(cuts: seq<Piece>, write: Writer): string {
    if cuts == [] then "" else Glue(cuts[..|cuts| - 1], write) + CutText(cuts[|cuts| - 1], write)
  }

  function Journal(pieces: seq<Piece>, write: Writer): string {
    if pieces == [] then ""
    else
      var last := pieces[|pieces| - 1];
      Journal(pieces[..|pieces| - 1], write) + CutText(last, write) + if last.Entire? then "\n" else ""
  }

  /** Written outcomes run together are not JSON, unless they are just one of the outcomes. */
  ghost predicate LineFormat(read: Reader, write: Writer) {
    forall cuts: seq<Piece> :: |cuts| > 0 ==>
      read(Glue(cuts, write)) == NotJson || exists i :: 0 <= i < |cuts| && read(Glue(cuts, write)) == Recorded(cuts[i].outcome)
  }

  /** None of the outcomes holds a line boundary; JSON leaves three Unicode ones as they are. */
  predicate OneLineEach(pieces: seq<Piece>, write: Writer) {
    forall i :: 0 <= i < |pieces| ==> OneLine(write(pieces[i].outcome))
  }

  /** The line is made of pieces written in some run. */
  ghost predicate Glued(line: string, pieces: seq<Piece>, write: Writer) {
    exists cuts: seq<Piece> :: |cuts| > 0 && line == Glue(cuts, write) && Among(cuts, pieces)
  }

  lemma {:induction false} GlueOneLine(cuts: seq<Piece>, pieces: seq<Piece>, write: Writer)
    requires OneLineEach(pieces, write) && Among(cuts, pieces)
    ensures OneLine(Glue(cuts, write))
  {
    if cuts != [] {
      GlueOneLine(cuts[..|cuts| - 1], pieces, write);
      var last := cuts[|cuts| - 1];
      var i :| 0 <= i < |pieces| && pieces[i] == last;
      assert OneLine(write(last.outcome));
    }
  }

  ghost predicate LinesGlued(lines: seq<string>, pieces: seq<Piece>, write: Writer) {
    forall i :: 0 <= i < |lines| ==> OneLine(lines[i]) && Glued(lines[i], pieces, write)
  }

  predicate Among(cuts: seq<Piece>, pieces: seq<Piece>) {
    forall i :: 0 <= i < |cuts| ==> cuts[i] in pieces
  }

  lemma JournalMore(init: seq<Piece>, last: Piece, write: Writer)
    ensures Journal(init + [last], write) == Journal(init, write) + CutText(last, write) + if last.Entire? then "\n" else ""
  {
    assert (init + [last])[..|init|] == init;
  }

  lemma GlueMore(cuts: seq<Piece>, last: Piece, write: Writer)
    ensures Glue(cuts + [last], write) == Glue(cuts, write) + CutText(last, write)
  {
    assert (cuts + [last])[..|cuts|] == cuts;
  }

  lemma LinesGluedMore(lines: seq<string>, init: seq<Piece>, last: Piece, write: Writer)
    requires LinesGlued(lines, init, write)
    ensures LinesGlued(lines, init + [last], write)
  {
    hide OneLine, Glue;
    forall i | 0 <= i < |lines| ensures Glued(lines[i], init + [last], write) {
      var cuts: seq<Piece> :| |cuts| > 0 && lines[i] == Glue(cuts, write) && Among(cuts, init);
      assert Among(cuts, init + [last]);
    }
  }

  /** A checkpoint is ended lines and a tail, each made of pieces. */
  lemma {:induction false} JournalShape(pieces: seq<Piece>, write: Writer) returns (lines: seq<string>, tail: seq<Piece>)
    requires OneLineEach(pieces, write)
    ensures Journal(pieces, write) == Ended(lines) + Glue(tail, write)
    ensures LinesGlued(lines, pieces, write) && Among(tail, pieces)
  {
    if pieces == [] {
      lines, tail := [], [];
    } else {
      var init, last := pieces[..|pieces| - 1], pieces[|pieces| - 1];
      assert pieces == init + [last];
      var before, open := JournalShape(init, write);
      hide *;
      LinesGluedMore(before, init, last, write);
      JournalMore(init, last, write);
      var cuts := open + [last];
      MoreAmong(open, init, last);
      GlueMore(open, last, write);
      Reassociate(Ended(before), Glue(open, write), CutText(last, write));
      if last.Entire? {
        EndedMore(before, Glue(cuts, write));
        NewLineGlued(before, cuts, pieces, write);
        lines, tail := before + [Glue(cuts, write)], [];
      } else {
        lines, tail := before, cuts;
      }
    }
  }

  lemma MoreAmong(cuts: seq<Piece>, init: seq<Piece>, last: Piece)
    requires Among(cuts, init)
    ensures Among(cuts + [last], init + [last]) && Among([], init + [last])
  {
  }

  lemma Reassociate(a: string, b: string, c: string)
    ensures a + b + c + "\n" == a + (b + c) + "\n" + "" && a + b + c + "" == a + (b + c)
  {
  }

  lemma NewLineGlued(lines: seq<string>, cuts: seq<Piece>, pieces: seq<Piece>, write: Writer)
    requires LinesGlued(lines, pieces, write) && Among(cuts, pieces) && |cuts| > 0 && OneLineEach(pieces, write)
    ensures LinesGlued(lines + [Glue(cuts, write)], pieces, write) && Glue([], write) == ""
  {
    assert Glue([], write) == "";
    hide OneLine, Glue, OneLineEach, Among;
    GlueOneLine(cuts, pieces, write);
    assert Glued(Glue(cuts, write), pieces, write);
    hide Glued;
  }

  /** The line is skipped or remembers an outcome that some run had. */
  ghost predicate Harmless(line: string, pieces: seq<Piece>, read: Reader) {
    read(line) == NotJson || exists p: Piece :: p in pieces && read(line) == Recorded(p.outcome)
  }

  ghost predicate AllHarmless(lines: seq<string>, pieces: seq<Piece>, read: Reader) {
    forall i :: 0 <= i < |lines| ==> Harmless(lines[i], pieces, read)
  }

  lemma GluedHarmless(line: string, pieces: seq<Piece>, read: Reader, write: Writer)
    requires LineFormat(read, write) && Glued(line, pieces, write)
    ensures Harmless(line, pieces, read)
  {
    hide OneLine, Glue;
    var cuts: seq<Piece> :| |cuts| > 0 && line == Glue(cuts, write) && Among(cuts, pieces);
  }

  lemma {:induction false} OnlyRecorded(lines: seq<string>, pieces: seq<Piece>, read: Reader)
    requires AllHarmless(lines, pieces, read)
    ensures Readable(lines, read)
    ensures RecordsOf(Remembered(lines, read), pieces)
  {
    if lines != [] {
      var init, last := lines[..|lines| - 1], lines[|lines| - 1];
      OnlyRecorded(init, pieces, read);
      assert Harmless(last, pieces, read);
    }
  }

  ghost predicate RecordsOf(found: Outcomes, pieces: seq<Piece>) {
    forall sha :: sha in found ==> found[sha].sha == sha && exists p: Piece :: p in pieces && p.outcome == found[sha]
  }

  lemma JournalRecords(pieces: seq<Piece>, read: Reader, write: Writer)
    requires LineFormat(read, write) && OneLineEach(pieces, write)
    ensures Readable(SplitLines(Journal(pieces, write)), read)
    ensures RecordsOf(Remembered(SplitLines(Journal(pieces, write)), read), pieces)
  {
    hide *;
    var lines, tail := JournalShape(pieces, write);
    JournalLines(lines, tail, pieces, read, write);
    OnlyRecorded(SplitLines(Journal(pieces, write)), pieces, read);
  }

  lemma JournalLines(lines: seq<string>, tail: seq<Piece>, pieces: seq<Piece>, read: Reader, write: Writer)
    requires LineFormat(read, write) && OneLineEach(pieces, write) && LinesGlued(lines, pieces, write) && Among(tail, pieces)
    ensures AllHarmless(SplitLines(Ended(lines) + Glue(tail, write)), pieces, read)
  {
    hide LineFormat, OneLineEach, OneLine, SplitLines, Ended, Glue, Glued, Harmless, Among;
    GlueOneLine(tail, pieces, write);
    assert forall i :: 0 <= i < |lines| ==> OneLine(lines[i]) && Glued(lines[i], pieces, write);
    hide LinesGlued;
    SplitEnded(lines, Glue(tail, write));
    TailGlued(tail, pieces, write);
    var all := SplitLines(Ended(lines) + Glue(tail, write));
    forall i | 0 <= i < |all| ensures Harmless(all[i], pieces, read) {
      GluedHarmless(all[i], pieces, read, write);
    }
  }

  /**
   * Whatever runs came before, each cut off at any character, and whatever runs together with what: the
   * checkpoint can be read and remembers nothing but what profiling would give again.
   */
  lemma InterruptedRunsStayTruthful(pieces: seq<Piece>, files: seq<File>, read: Reader, write: Writer, profile: Profiler)
    requires LineFormat(read, write) && OneLineEach(pieces, write) && Faithful(profile)
    requires FromProfiling(OutcomesOf(pieces), files, profile)
    ensures Readable(SplitLines(Journal(pieces, write)), read)
    ensures Truthful(Remembered(SplitLines(Journal(pieces, write)), read), files, profile)
  {
    hide *;
    JournalRecords(pieces, read, write);
    RecordsAreTruthful(Remembered(SplitLines(Journal(pieces, write)), read), pieces, files, profile);
  }

  lemma RecordsAreTruthful(found: Outcomes, pieces: seq<Piece>, files: seq<File>, profile: Profiler)
    requires RecordsOf(found, pieces) && Faithful(profile) && FromProfiling(OutcomesOf(pieces), files, profile)
    ensures Truthful(found, files, profile)
  {
    hide Reusable, Representative, Digests;
    forall sha | sha in found && sha in Digests(files) ensures found[sha] == profile(sha, Representative(files, sha)) {
      var p: Piece :| p in pieces && p.outcome == found[sha];
      assert p.outcome in OutcomesOf(pieces);
    }
  }

  lemma TailGlued(tail: seq<Piece>, pieces: seq<Piece>, write: Writer)
    requires Among(tail, pieces)
    ensures Glue(tail, write) != "" ==> Glued(Glue(tail, write), pieces, write)
  {
    if tail == [] {
      assert Glue(tail, write) == "";
    }
  }

  function OutcomesOf(pieces: seq<Piece>): (outcomes: seq<Outcome>)
    ensures forall p :: p in pieces ==> p.outcome in outcomes
  {
    if pieces == [] then [] else OutcomesOf(pieces[..|pieces| - 1]) + [pieces[|pieces| - 1].outcome]
  }

  // ----- outcomes that hold line boundaries -----

  /** No line of any checkpoint reads as an outcome that no run wrote. */
  ghost predicate Unforgeable(read: Reader, write: Writer) {
    forall pieces: seq<Piece>, i :: 0 <= i < |SplitLines(Journal(pieces, write))| ==>
      !read(SplitLines(Journal(pieces, write))[i]).Recorded? || Harmless(SplitLines(Journal(pieces, write))[i], pieces, read)
  }

  lemma {:induction false} OnlyWritten(lines: seq<string>, pieces: seq<Piece>, read: Reader)
    requires forall i :: 0 <= i < |lines| ==> !read(lines[i]).Recorded? || Harmless(lines[i], pieces, read)
    ensures RecordsOf(Remembered(lines, read), pieces)
  {
    if lines != [] {
      OnlyWritten(lines[..|lines| - 1], pieces, read);
    }
  }

  /** Line boundaries inside outcomes or not, a checkpoint remembers nothing but what profiling would give again. */
  lemma AnyRunsStayTruthful(pieces: seq<Piece>, files: seq<File>, read: Reader, write: Writer, profile: Profiler)
    requires Unforgeable(read, write) && Faithful(profile)
    requires FromProfiling(OutcomesOf(pieces), files, profile)
    ensures Truthful(Remembered(SplitLines(Journal(pieces, write)), read), files, profile)
  {
    hide SplitLines, Journal, Remembered, RecordsOf, Truthful, Faithful, FromProfiling, Harmless;
    OnlyWritten(SplitLines(Journal(pieces, write)), pieces, read);
    RecordsAreTruthful(Remembered(SplitLines(Journal(pieces, write)), read), pieces, files, profile);
  }

  /** What every run wrote whole, each outcome a text that does not end in a boundary. */
  predicate WholeLines(pieces: seq<Piece>, write: Writer) {
    forall i :: 0 <= i < |pieces| ==>
      pieces[i].Entire? && write(pieces[i].outcome) != "" && write(pieces[i].outcome)[|write(pieces[i].outcome)| - 1] !in BREAKS
  }

  lemma {:induction false} JournalFirst(pieces: seq<Piece>, write: Writer)
    requires pieces != [] && pieces[0].Entire?
    ensures Journal(pieces, write) == write(pieces[0].outcome) + "\n" + Journal(pieces[1..], write)
  {
    hide Journal, CutText;
    if |pieces| == 1 {
      OnePiece(pieces[0].outcome, write);
      assert pieces == [Entire(pieces[0].outcome)] && pieces[1..] == [];
    } else {
      var init, last := pieces[..|pieces| - 1], pieces[|pieces| - 1];
      JournalFirst(init, write);
      PieceMore(init, last, write);
      assert pieces == init + [last];
    }
  }

  lemma OnePiece(o: Outcome, write: Writer)
    ensures Journal([Entire(o)], write) == write(o) + "\n" + Journal([], write)
  {
    assert [Entire(o)][..0] == [];
  }

  lemma PieceMore(init: seq<Piece>, last: Piece, write: Writer)
    requires init != [] && init[0].Entire?
    requires Journal(init, write) == write(init[0].outcome) + "\n" + Journal(init[1..], write)
    ensures Journal(init + [last], write) == write(init[0].outcome) + "\n" + Journal((init + [last])[1..], write)
  {
    hide Journal, CutText;
    JournalMore(init, last, write);
    JournalMore(init[1..], last, write);
    assert (init + [last])[1..] == init[1..] + [last];
    FirstStays(Journal(init + [last], write), Journal((init + [last])[1..], write), Journal(init, write), Journal(init[1..], write),
               write(init[0].outcome) + "\n", CutText(last, write), if last.Entire? then "\n" else "");
  }

  lemma FirstStays(whole: string, rest: string, init: string, initRest: string, first: string, text: string, end: string)
    requires init == first + initRest && whole == init + text + end && rest == initRest + text + end
    ensures whole == first + rest
  {
  }

  predicate FragmentsReadable(o: Outcome, read: Reader, write: Writer) {
    Readable(SplitLines(write(o)), read)
  }

  /**
   * A checkpoint of whole lines can be read if and only if no written outcome has, between line boundaries
   * it holds, a fragment that is JSON but not an object.
   */
  lemma {:induction false} ReadableWhen(pieces: seq<Piece>, read: Reader, write: Writer)
    requires WholeLines(pieces, write)
    ensures Readable(SplitLines(Journal(pieces, write)), read)
       <==> forall i :: 0 <= i < |pieces| ==> FragmentsReadable(pieces[i].outcome, read, write)
  {
    hide SplitLines, Readable;
    if pieces == [] {
      NothingToRead(read);
    } else {
      var first, rest := write(pieces[0].outcome), pieces[1..];
      JournalFirst(pieces, write);
      SplitAppend(first, Journal(rest, write));
      ReadableWhen(rest, read, write);
      ReadableBoth(SplitLines(first), SplitLines(Journal(rest, write)), read);
      assert forall i :: 0 <= i < |rest| ==> rest[i] == pieces[i + 1];
      assert forall i :: 1 <= i < |pieces| ==> pieces[i] == rest[i - 1];
    }
  }

  lemma NothingToRead(read: Reader)
    ensures Readable(SplitLines(""), read)
  {
  }

  lemma ReadableBoth(a: seq<string>, b: seq<string>, read: Reader)
    ensures Readable(a + b, read) <==> Readable(a, read) && Readable(b, read)
  {
    assert forall i :: 0 <= i < |a| ==> (a + b)[i] == a[i];
    assert forall i :: 0 <= i < |b| ==> (a + b)[|a| + i] == b[i];
  }

  lemma FragmentIsALine(before: string, fragment: string, after: string, boundary: char)
    requires boundary in BREAKS && boundary != '\r' && OneLine(before) && OneLine(fragment)
    ensures SplitLines(before + [boundary] + fragment + [boundary] + after) == [before, fragment] + SplitLines(after)
  {
    hide SplitLines, OneLine;
    var rest := fragment + [boundary] + after;
    assert before + [boundary] + fragment + [boundary] + after == before + [boundary] + rest;
    SplitAt(before, boundary, rest);
    SplitAt(fragment, boundary, after);
  }

  /** An outcome written with a number between two Unicode line boundaries stops the next run. */
  lemma BoundaryInsideStopsResume(o: Outcome, read: Reader, write: Writer, before: string, fragment: string, after: string, boundary: char)
    requires boundary in {'\U{0085}', '\U{2028}', '\U{2029}'} && OneLine(before) && OneLine(fragment)
    requires write(o) == before + [boundary] + fragment + [boundary] + after
    requires after != "" && after[|after| - 1] !in BREAKS
    requires read(fragment) == NotObject
    ensures !Readable(SplitLines(Journal([Entire(o)], write)), read)
  {
    hide SplitLines, OneLine;
    FragmentIsALine(before, fragment, after, boundary);
    assert SplitLines(write(o))[1] == fragment;
    assert !FragmentsReadable(o, read, write);
    assert write(o)[|write(o)| - 1] == after[|after| - 1];
    assert [Entire(o)][0].outcome == o;
    ReadableWhen([Entire(o)], read, write);
  }
}
