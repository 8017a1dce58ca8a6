/** The checksum list of a transfer bundle, written and verified. */
module BundleChecksums {
  import opened Wrappers
  import opened Lines
  import opened TransferBundle

  /** The bundle's files by relative path. */
  type Tree = map<string, Bytes>

  datatype ChecksumError = ListEmpty | LineInvalid | ListedMissing | ChecksumMismatch

  function ChecksumLine(digest: string, path: string): string {
    digest + "  " + path
  }

  /** "\n".join(lines) + "\n" */
  function Joined(lines: seq<string>): string {
    if lines == [] then "\n" else if |lines| == 1 then lines[0] + "\n" else lines[0] + "\n" + Joined(lines[1..])
  }

  lemma {:induction false} JoinedIsEnded(lines: seq<string>)
    requires lines != []
    ensures Joined(lines) == Ended(lines)
  {
    if |lines| == 1 {
      assert Ended(lines[1..]) == "";
    } else {
      JoinedIsEnded(lines[1..]);
    }
  }

  function ChecksumLines(paths: seq<string>, tree: Tree, sha: Hash): (lines: seq<string>)
    requires forall p :: p in paths ==> p in tree
    ensures |lines| == |paths|
    ensures forall i :: 0 <= i < |paths| ==> lines[i] == ChecksumLine(sha(tree[paths[i]]), paths[i])
  {
    seq(|paths|, i requires 0 <= i < |paths| => ChecksumLine(sha(tree[paths[i]]), paths[i]))
  }

  /** line.split("  ", 1) */
  function SplitTwice(line: string): Option<(string, string)> {
    if |line| < 2 then None
    else if line[0] == ' ' && line[1] == ' ' then Some(("", line[2..]))
    else
      match SplitTwice(line[1..])
      case None => None
      case Some(parts) => Some(([line[0]] + parts.0, parts.1))
  }

  /** A digest has no space, so the first two spaces end it whatever the path contains. */
  lemma {:induction false} LineRoundTrip(digest: string, path: string)
    requires ' ' !in digest
    ensures SplitTwice(ChecksumLine(digest, path)) == Some((digest, path))
  {
    var line := ChecksumLine(digest, path);
    if digest == "" {
      assert line[2..] == path;
    } else {
      LineRoundTrip(digest[1..], path);
      assert line[1..] == ChecksumLine(digest[1..], path);
      assert digest == [digest[0]] + digest[1..];
    }
  }

  /** The line names a file with the listed digest. */
  predicate LineHolds(line: string, tree: Tree, sha: Hash) {
    var parts := SplitTwice(line);
    parts.Some? && parts.value.1 in tree && sha(tree[parts.value.1]) == parts.value.0
  }

  /** The loop of verify_bundle over SHA256SUMS. */
  method VerifyChecksums(text: string, tree: Tree, sha: Hash) returns (r: Result<nat, ChecksumError>)
    ensures r.Success? <==> SplitLines(text) != [] && forall line :: line in SplitLines(text) ==> LineHolds(line, tree, sha)
    ensures r.Success? ==> r.value == |SplitLines(text)|
  {
    var lines := SplitLines(text);
    if lines == [] {
      return Failure(ListEmpty);
    }
    for i := 0 to |lines|
      invariant forall line :: line in lines[..i] ==> LineHolds(line, tree, sha)
    {
      assert lines[i] in lines && lines[..i + 1] == lines[..i] + [lines[i]];
      var parts := SplitTwice(lines[i]);
      if parts.None? {
        return Failure(LineInvalid);
      }
      var path := parts.value.1;
      if path !in tree {
        return Failure(ListedMissing);
      }
      if sha(tree[path]) != parts.value.0 {
        return Failure(ChecksumMismatch);
      }
    }
    assert lines[..|lines|] == lines;
    r := Success(|lines|);
  }

  lemma DigestHasNoBreak(s: string)
    requires Digest(s)
    ensures ' ' !in s && OneLine(s)
  {
    forall i | 0 <= i < |s| ensures s[i] != ' ' && s[i] !in BREAKS {
      HexBreaksNothing(s[i]);
    }
  }

  lemma HexBreaksNothing(c: char)
    requires c in "0123456789abcdef"
    ensures c != ' ' && c !in BREAKS
  {
  }

  /**
   * _write_checksums against verify_bundle: for paths without line boundaries, the list verifies on a
   * later tree if and only if every listed file is still there with the digest it had.
   */
  lemma ChecksumsHoldWhen(paths: seq<string>, written: Tree, later: Tree, sha: Hash)
    requires forall c :: Digest(sha(c))
    requires paths != [] && forall p :: p in paths ==> p in written && OneLine(p)
    ensures var lines := SplitLines(Joined(ChecksumLines(paths, written, sha)));
            && |lines| == |paths|
            && ((forall line :: line in lines ==> LineHolds(line, later, sha)) <==>
                  forall p :: p in paths ==> p in later && sha(later[p]) == sha(written[p]))
  {
    hide SplitLines, Digest, SplitTwice, Joined, Ended;
    var lines := ChecksumLines(paths, written, sha);
    forall i | 0 <= i < |lines| ensures OneLine(lines[i]) && SplitTwice(lines[i]) == Some((sha(written[paths[i]]), paths[i])) {
      DigestHasNoBreak(sha(written[paths[i]]));
      LineRoundTrip(sha(written[paths[i]]), paths[i]);
    }
    JoinedIsEnded(lines);
    SplitEnded(lines, "");
    assert Ended(lines) + "" == Ended(lines);
    hide OneLine, ChecksumLine;
    assert SplitLines(Joined(lines)) == lines;
    if forall line :: line in lines ==> LineHolds(line, later, sha) {
      forall p | p in paths ensures p in later && sha(later[p]) == sha(written[p]) {
        var i :| 0 <= i < |paths| && paths[i] == p;
        assert lines[i] in lines;
      }
    }
  }
}
