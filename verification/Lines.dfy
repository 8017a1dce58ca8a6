/** Lines of text as str.splitlines sees them. */
module Lines {

  /** Where splitlines ends a line. */
  const BREAKS: set<char> := {'\n', '\r', '\U{000B}', '\U{000C}', '\U{001C}', '\U{001D}', '\U{001E}', '\U{0085}', '\U{2028}', '\U{2029}'}

  predicate OneLine(s: string) {
    forall i :: 0 <= i < |s| ==> s[i] !in BREAKS
  }

  function LineLength(s: string): (n: nat)
    ensures n <= |s| && OneLine(s[..n]) && (n < |s| ==> s[n] in BREAKS)
  {
    if s == "" || s[0] in BREAKS then 0
    else
      var n := LineLength(s[1..]);
      assert s[..n + 1] == [s[0]] + s[1..][..n];
      n + 1
  }

  /** str.splitlines */
  function SplitLines(s: string): seq<string>
    decreases |s|
  {
    if s == "" then []
    else
      var n := LineLength(s);
      if n == |s| then [s]
      else
        var next := if s[n] == '\r' && n + 1 < |s| && s[n + 1] == '\n' then n + 2 else n + 1;
        [s[..n]] + SplitLines(s[next..])
  }

  /** Every line with a line feed after it. */
  function Ended(lines: seq<string>): string {
    if lines == [] then "" else lines[0] + "\n" + Ended(lines[1..])
  }

  lemma {:induction false} EndedMore(lines: seq<string>, line: string)
    ensures Ended(lines + [line]) == Ended(lines) + line + "\n"
  {
    if lines == [] {
      assert Ended([line]) == line + "\n" + Ended([line][1..]);
    } else {
      EndedMore(lines[1..], line);
      assert (lines + [line])[1..] == lines[1..] + [line];
    }
  }

  lemma {:induction false} LineLengthOf(line: string, rest: string)
    requires OneLine(line) && (rest == "" || rest[0] in BREAKS)
    ensures LineLength(line + rest) == |line|
  {
    if line == "" {
      assert line + rest == rest;
    } else {
      assert (line + rest)[0] == line[0] && (line + rest)[1..] == line[1..] + rest;
      LineLengthOf(line[1..], rest);
    }
  }

  lemma {:induction false} SplitEnded(lines: seq<string>, tail: string)
    requires (forall i :: 0 <= i < |lines| ==> OneLine(lines[i])) && OneLine(tail)
    ensures SplitLines(Ended(lines) + tail) == lines + if tail == "" then [] else [tail]
  {
    hide SplitLines, OneLine;
    if lines == [] {
      assert Ended(lines) + tail == tail;
      SplitTail(tail);
    } else {
      SplitEnded(lines[1..], tail);
      SplitAt(lines[0], '\n', Ended(lines[1..]) + tail);
      EndedFirst(lines, tail);
      hide Ended;
      assert lines == [lines[0]] + lines[1..];
    }
  }

  lemma EndedFirst(lines: seq<string>, tail: string)
    requires lines != []
    ensures Ended(lines) + tail == lines[0] + ['\n'] + (Ended(lines[1..]) + tail)
  {
  }

  lemma Regroup(a: seq<string>, b: seq<string>, c: seq<string>)
    ensures a + b + c == a + (b + c)
  {
  }

  lemma Slices(a: string, b: string, n: nat, next: nat)
    requires n < next <= |a| && next <= n + 2
    ensures var whole := a + "\n" + b;
            && whole == a[..n] + whole[n..] && whole[n..][0] == a[n] == whole[n]
            && whole[..n] == a[..n] && whole[next..] == a[next..] + "\n" + b
            && (n + 1 < |a| ==> whole[n + 1] == a[n + 1])
  {
  }

  lemma SplitStep(s: string, n: nat, next: nat)
    requires n == LineLength(s) < |s|
    requires next == if s[n] == '\r' && n + 1 < |s| && s[n + 1] == '\n' then n + 2 else n + 1
    ensures SplitLines(s) == [s[..n]] + SplitLines(s[next..])
  {
  }

  /** A text that does not end in a boundary keeps its lines when a line feed and more text follow. */
  lemma {:induction false} SplitAppend(a: string, b: string)
    requires a != "" && a[|a| - 1] !in BREAKS
    ensures SplitLines(a + "\n" + b) == SplitLines(a) + SplitLines(b)
    decreases |a|
  {
    hide SplitLines, LineLength, OneLine;
    var n := LineLength(a);
    if n == |a| {
      assert a[..n] == a;
      SplitAt(a, '\n', b);
      SplitTail(a);
    } else {
      var next := if a[n] == '\r' && a[n + 1] == '\n' then n + 2 else n + 1;
      assert next < |a| && a[next..] != "" && a[next..][|a| - next - 1] == a[|a| - 1];
      SplitAppend(a[next..], b);
      var whole := a + "\n" + b;
      Slices(a, b, n, next);
      LineLengthOf(a[..n], whole[n..]);
      SplitStep(a, n, next);
      SplitStep(whole, n, next);
      Regroup([a[..n]], SplitLines(a[next..]), SplitLines(b));
    }
  }

  lemma SplitTail(tail: string)
    requires OneLine(tail)
    ensures SplitLines(tail) == if tail == "" then [] else [tail]
  {
    LineLengthOf(tail, "");
    assert tail + "" == tail;
  }

  lemma SplitAt(line: string, boundary: char, rest: string)
    requires OneLine(line) && boundary in BREAKS && boundary != '\r'
    ensures SplitLines(line + [boundary] + rest) == [line] + SplitLines(rest)
  {
    LineLengthOf(line, [boundary] + rest);
    var s := line + [boundary] + rest;
    assert s == line + ([boundary] + rest);
    assert s[|line|] == boundary && s[..|line|] == line && s[|line| + 1..] == rest;
  }
}
