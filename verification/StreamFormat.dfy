/** The decoder's blocks next to those of the event stream format, which also ends lines at a lone carriage return. */
module StreamFormat {
  import opened Wrappers
  import opened EventStream

  // ----- reading line by line -----

  /** Finished groups of lines, the lines since the last blank one, and the line being read. */
  datatype Grouping = Grouping(done: seq<seq<string>>, group: seq<string>, line: string)

  const START := Grouping([], [], "")

  /** A line ends: a blank one finishes the group, if it has any line. */
  function EndLine(g: Grouping): Grouping {
    if g.line != "" then Grouping(g.done, g.group + [g.line], "")
    else if g.group != [] then Grouping(g.done + [g.group], [], "")
    else g
  }

  /** The length of a line end at the start of the text; `bare` lets a carriage return end a line by itself. */
  function LineEnd(s: string, bare: bool): (n: nat)
    ensures n <= |s|
  {
    if LineBreak(s) > 0 then LineBreak(s) else if bare && s != "" && s[0] == '\r' then 1 else 0
  }

  function Feed(s: string, bare: bool, g: Grouping): Grouping
    decreases |s|
  {
    if s == "" then g
    else
      var n := LineEnd(s, bare);
      if n > 0 then Feed(s[n..], bare, EndLine(g)) else Feed(s[1..], bare, g.(line := g.line + [s[0]]))
  }

  /** The groups of lines that sections 9.2.5 and 9.2.6 of the WHATWG HTML Standard dispatch as events. */
  function StandardGroups(text: string): seq<seq<string>> {
    Feed(text, true, START).done
  }

  // ----- the decoder's groups -----

  function NonEmpty(lines: seq<string>): seq<string> {
    if lines == [] then []
    else
      var n := |lines| - 1;
      if lines[n] == "" then NonEmpty(lines[..n]) else NonEmpty(lines[..n]) + [lines[n]]
  }

  function GroupOf(block: string): seq<string> {
    NonEmpty(Lines(block))
  }

  /** The lines of each block, blank ones and blocks without lines left out. */
  function Groups(blocks: seq<string>): seq<seq<string>> {
    if blocks == [] then [] else (if GroupOf(blocks[0]) == [] then [] else [GroupOf(blocks[0])]) + Groups(blocks[1..])
  }

  /** Blank lines do not matter to what a block decodes to. */
  lemma {:induction false} BlankLinesDoNotMatter(lines: seq<string>)
    ensures AbsorbAll(NonEmpty(lines)) == AbsorbAll(lines)
  {
    if lines != [] {
      var n := |lines| - 1;
      BlankLinesDoNotMatter(lines[..n]);
      if lines[n] != "" {
        assert (NonEmpty(lines[..n]) + [lines[n]])[..|NonEmpty(lines[..n])|] == NonEmpty(lines[..n]);
      }
    }
  }

  // ----- feeding in parts -----

  lemma {:induction false} FeedAppend(a: string, b: string, bare: bool, g: Grouping)
    requires a != "" ==> a[|a| - 1] != '\r'
    ensures Feed(a + b, bare, g) == Feed(b, bare, Feed(a, bare, g))
    decreases |a|
  {
    hide EndLine;
    if a == "" {
      assert a + b == b;
    } else {
      var s := a + b;
      EndStays(a, b, bare);
      var n := LineEnd(a, bare);
      assert s[0] == a[0] && s[1..] == a[1..] + b && s[n..] == a[n..] + b;
      if n > 0 {
        FeedAppend(a[n..], b, bare, EndLine(g));
      } else {
        FeedAppend(a[1..], b, bare, g.(line := g.line + [a[0]]));
      }
    }
  }

  lemma EndStays(a: string, b: string, bare: bool)
    requires a != "" && a[|a| - 1] != '\r'
    ensures LineEnd(a + b, bare) == LineEnd(a, bare)
  {
    assert a != "\r";
    BreakStays(a, b);
    assert (a + b)[0] == a[0];
  }

  /** What was finished before stays in front. */
  lemma {:induction false} FeedAfter(s: string, bare: bool, done: seq<seq<string>>, g: Grouping)
    ensures var from := Feed(s, bare, g);
            Feed(s, bare, g.(done := done + g.done)) == from.(done := done + from.done)
    decreases |s|
  {
    hide LineEnd;
    if s != "" {
      var n := LineEnd(s, bare);
      if n > 0 {
        assert done + (g.done + [g.group]) == done + g.done + [g.group];
        FeedAfter(s[n..], bare, done, EndLine(g));
      } else {
        FeedAfter(s[1..], bare, done, g.(line := g.line + [s[0]]));
      }
    }
  }

  // ----- carriage returns -----

  /** Every carriage return is followed by a line feed. */
  predicate NoLoneReturn(s: string) {
    forall i :: 0 <= i < |s| && s[i] == '\r' ==> i + 1 < |s| && s[i + 1] == '\n'
  }

  lemma NoLoneSuffix(s: string, n: nat)
    requires NoLoneReturn(s) && n <= |s|
    ensures NoLoneReturn(s[n..])
  {
  }

  lemma {:induction false} FeedSame(s: string, g: Grouping)
    requires NoLoneReturn(s)
    ensures Feed(s, true, g) == Feed(s, false, g)
    decreases |s|
  {
    hide EndLine;
    if s != "" {
      var n := LineEnd(s, true);
      assert n == LineEnd(s, false);
      if n > 0 {
        NoLoneSuffix(s, n);
        FeedSame(s[n..], EndLine(g));
      } else {
        NoLoneSuffix(s, 1);
        FeedSame(s[1..], g.(line := g.line + [s[0]]));
      }
    }
  }

  predicate HasReturn(g: Grouping) {
    || '\r' in g.line
    || (exists i :: 0 <= i < |g.group| && '\r' in g.group[i])
    || (exists i, j :: 0 <= i < |g.done| && 0 <= j < |g.done[i]| && '\r' in g.done[i][j])
  }

  lemma EndLineReturns(g: Grouping)
    ensures HasReturn(EndLine(g)) <==> HasReturn(g)
  {
    var e := EndLine(g);
    if g.line != "" {
      assert e.group[|g.group|] == g.line;
      assert forall i :: 0 <= i < |g.group| ==> e.group[i] == g.group[i];
    } else if g.group != [] {
      assert e.done[|g.done|] == g.group;
      assert forall i :: 0 <= i < |g.done| ==> e.done[i] == g.done[i];
    }
  }

  lemma LineReturns(g: Grouping, c: char)
    ensures HasReturn(g.(line := g.line + [c])) <==> HasReturn(g) || c == '\r'
  {
  }

  /** The format never leaves a carriage return in a line. */
  lemma {:induction false} StandardHasNone(s: string, g: Grouping)
    requires !HasReturn(g)
    ensures !HasReturn(Feed(s, true, g))
    decreases |s|
  {
    hide HasReturn, EndLine;
    if s != "" {
      var n := LineEnd(s, true);
      if n > 0 {
        EndLineReturns(g);
        StandardHasNone(s[n..], EndLine(g));
      } else {
        LineReturns(g, s[0]);
        StandardHasNone(s[1..], g.(line := g.line + [s[0]]));
      }
    }
  }

  /** The decoder leaves every lone carriage return in its line. */
  lemma {:induction false} LoneReturnStays(s: string, g: Grouping)
    requires !NoLoneReturn(s) || HasReturn(g)
    ensures HasReturn(Feed(s, false, g))
    decreases |s|
  {
    hide HasReturn, EndLine;
    if s != "" {
      var n := LineEnd(s, false);
      if n > 0 {
        EndLineReturns(g);
        if !HasReturn(g) {
          LoneLater(s, n);
        }
        LoneReturnStays(s[n..], EndLine(g));
      } else {
        LineReturns(g, s[0]);
        if !HasReturn(g) && s[0] != '\r' {
          LoneLater(s, 1);
        }
        LoneReturnStays(s[1..], g.(line := g.line + [s[0]]));
      }
    }
  }

  lemma LoneLater(s: string, n: nat)
    requires !NoLoneReturn(s) && n <= |s|
    requires forall i :: 0 <= i < n && s[i] == '\r' ==> i + 1 < |s| && s[i + 1] == '\n'
    ensures !NoLoneReturn(s[n..])
  {
    var i :| 0 <= i < |s| && s[i] == '\r' && !(i + 1 < |s| && s[i + 1] == '\n');
    assert s[n..][i - n] == '\r';
  }

  // ----- blocks as groups -----

  /** The state after the part of a block that was read. */
  function StateOf(cur: string): Grouping {
    var lines := Lines(cur);
    Grouping([], NonEmpty(lines[..|lines| - 1]), lines[|lines| - 1])
  }

  lemma StateMore(cur: string, c: char)
    requires c != '\n'
    ensures StateOf(cur + [c]) == StateOf(cur).(line := StateOf(cur).line + [c])
  {
    var before := Lines(cur);
    assert (cur + [c])[..|cur|] == cur;
    assert Lines(cur + [c])[..|before| - 1] == before[..|before| - 1];
  }

  /** The next piece is a line break the state was not waiting to complete. */
  predicate Aligned(cur: string, todo: string) {
    !(cur != "" && cur[|cur| - 1] == '\r' && todo != "" && todo[0] == '\n')
  }

  lemma StateBreak(cur: string, todo: string)
    requires Aligned(cur, todo) && LineBreak(todo) > 0
    requires StateOf(cur).line == "" ==> StateOf(cur).group == []
    ensures StateOf(cur + todo[..LineBreak(todo)]) == EndLine(StateOf(cur))
  {
    var n := LineBreak(todo);
    var after := cur + todo[..n];
    LinesBreak(cur, todo);
    var lines := Lines(cur);
    assert Lines(after)[..|lines|] == lines;
    hide Lines;
    assert NonEmpty(lines) == if lines[|lines| - 1] == "" then NonEmpty(lines[..|lines| - 1]) else NonEmpty(lines[..|lines| - 1]) + [lines[|lines| - 1]];
  }

  lemma LinesBreak(cur: string, todo: string)
    requires Aligned(cur, todo) && LineBreak(todo) > 0
    ensures Lines(cur + todo[..LineBreak(todo)]) == Lines(cur) + [""]
  {
    hide Lines;
    var n := LineBreak(todo);
    var after := cur + todo[..n];
    assert after[|after| - 1] == todo[n - 1] == '\n';
    if n == 2 {
      assert after[|after| - 2] == todo[0] == '\r';
    } else if cur != "" {
      assert after[|after| - 2] == cur[|cur| - 1];
    }
    var end := if |after| >= 2 && after[|after| - 2] == '\r' then |after| - 2 else |after| - 1;
    assert after[..end] == cur;
    LastEnded(after, end);
  }

  lemma LastEnded(s: string, end: nat)
    requires s != "" && s[|s| - 1] == '\n'
    requires end == if |s| >= 2 && s[|s| - 2] == '\r' then |s| - 2 else |s| - 1
    ensures Lines(s) == Lines(s[..end]) + [""]
  {
  }

  /** After a line break that starts no separator the search goes on behind it. */
  lemma SearchSkips(todo: string, n: nat)
    requires todo != "" && Separator(todo) == 0
    requires n == if LineBreak(todo) > 0 then LineBreak(todo) else 1
    ensures match FirstSeparator(todo[n..])
            case None => FirstSeparator(todo) == None
            case Some(f) => FirstSeparator(todo) == Some((f.0 + n, f.1))
  {
    hide FirstSeparator, Separator;
    SearchStep(todo);
    if n == 2 {
      NoneInside(todo);
      SearchStep(todo[1..]);
      assert todo[1..][1..] == todo[2..];
    }
  }

  lemma SearchStep(s: string)
    requires s != "" && Separator(s) == 0
    ensures match FirstSeparator(s[1..])
            case None => FirstSeparator(s) == None
            case Some(f) => FirstSeparator(s) == Some((f.0 + 1, f.1))
  {
    hide Separator;
  }

  /** No separator starts inside a line break that starts none. */
  lemma NoneInside(s: string)
    requires LineBreak(s) == 2 && Separator(s) == 0
    ensures s[1..] != "" && Separator(s[1..]) == 0
  {
    assert s[1..][1..] == s[2..];
  }

  /** Reading a text up to its first separator: no group is finished before. */
  lemma {:induction false} FeedBlock(cur: string, todo: string)
    requires Aligned(cur, todo)
    requires StateOf(cur).line == "" && StateOf(cur).group != [] ==> LineBreak(todo) == 0
    ensures match FirstSeparator(todo)
            case None => Feed(todo, false, StateOf(cur)).done == []
            case Some(f) =>
              && Feed(todo, false, StateOf(cur)) == Feed(todo[f.0..], false, StateOf(cur + todo[..f.0]))
              && (StateOf(cur + todo[..f.0]).line == "" ==> StateOf(cur + todo[..f.0]).group == [])
    decreases |todo|
  {
    hide StateOf, EndLine, Feed, FirstSeparator, Separator, Aligned;
    if todo == "" {
      NothingDone(cur);
      NothingFound(StateOf(cur));
    } else if Separator(todo) > 0 {
      assert todo[0..] == todo && cur + todo[..0] == cur;
      FoundHere(todo);
      SeparatorBreaks(todo);
    } else {
      var n := if LineBreak(todo) > 0 then LineBreak(todo) else 1;
      SearchSkips(todo, n);
      var next := cur + todo[..n];
      if LineBreak(todo) > 0 {
        StateBreak(cur, todo);
        NoBreakNext(todo);
        FeedBreak(todo, StateOf(cur));
      } else {
        assert todo[..1] == [todo[0]];
        NoFeedHere(todo);
        StateMore(cur, todo[0]);
        StepState(cur, todo[0]);
        FeedChar(todo, StateOf(cur));
      }
      NextAligned(cur, todo, n);
      FeedBlock(next, todo[n..]);
      Positions(cur, todo, n);
    }
  }

  lemma NothingFound(g: Grouping)
    ensures FirstSeparator("") == None && Feed("", false, g) == g
  {
  }

  lemma FoundHere(s: string)
    requires Separator(s) > 0
    ensures FirstSeparator(s) == Some((0, Separator(s)))
  {
  }

  lemma NoFeedHere(s: string)
    requires s != "" && LineBreak(s) == 0
    ensures s[0] != '\n'
  {
  }

  lemma FeedBreak(s: string, g: Grouping)
    requires LineBreak(s) > 0
    ensures Feed(s, false, g) == Feed(s[LineBreak(s)..], false, EndLine(g))
  {
    hide EndLine;
  }

  lemma FeedChar(s: string, g: Grouping)
    requires s != "" && LineBreak(s) == 0
    ensures Feed(s, false, g) == Feed(s[1..], false, g.(line := g.line + [s[0]]))
  {
  }

  lemma NothingDone(cur: string)
    ensures StateOf(cur).done == []
  {
  }

  lemma SeparatorBreaks(todo: string)
    requires Separator(todo) > 0
    ensures LineBreak(todo) > 0 && LineBreak(todo[LineBreak(todo)..]) > 0
  {
  }

  lemma NoBreakNext(todo: string)
    requires Separator(todo) == 0 && LineBreak(todo) > 0
    ensures LineBreak(todo[LineBreak(todo)..]) == 0
  {
  }

  lemma StepState(cur: string, c: char)
    requires c != '\n'
    ensures StateOf(cur + [c]).line != ""
  {
    StateMore(cur, c);
    hide StateOf;
  }

  lemma NextAligned(cur: string, todo: string, n: nat)
    requires todo != "" && n == if LineBreak(todo) > 0 then LineBreak(todo) else 1
    ensures Aligned(cur + todo[..n], todo[n..])
  {
    var next := cur + todo[..n];
    assert next[|next| - 1] == todo[n - 1];
  }

  lemma Positions(cur: string, todo: string, n: nat)
    requires n <= |todo|
    ensures forall p: nat :: p <= |todo| - n ==>
              todo[n..][p..] == todo[p + n..] && cur + todo[..n] + todo[n..][..p] == cur + todo[..p + n]
  {
    forall p: nat | p <= |todo| - n
      ensures todo[n..][p..] == todo[p + n..] && cur + todo[..n] + todo[n..][..p] == cur + todo[..p + n]
    {
      assert todo[..n] + todo[n..][..p] == todo[..p + n];
    }
  }

  lemma StartState()
    ensures StateOf("") == START
  {
  }

  lemma {:induction false} SeparatorFound(s: string, p: nat)
    requires p <= |s| && Separator(s[p..]) > 0
    ensures FirstSeparator(s).Some?
    decreases p
  {
    hide Separator;
    NoneInNothing();
    assert |s[p..]| == |s| - p;
    if p > 0 {
      assert s[1..][p - 1..] == s[p..];
      SeparatorFound(s[1..], p - 1);
    } else {
      assert s[0..] == s;
    }
  }

  lemma NoneInNothing()
    ensures Separator("") == 0
  {
  }

  /** Reading the two line breaks of a separator finishes the block's group. */
  lemma SeparatorEnds(sep: string, g: Grouping)
    requires sep != "" && Separator(sep) == |sep|
    ensures Feed(sep, false, g) == EndLine(EndLine(g))
  {
    hide EndLine;
    var n := LineBreak(sep);
    assert LineEnd(sep, false) == n && sep[n..][LineBreak(sep[n..])..] == "";
    assert Feed(sep, false, g) == Feed(sep[n..], false, EndLine(g));
  }

  lemma GroupEnds(block: string)
    requires StateOf(block).line == "" ==> StateOf(block).group == []
    ensures EndLine(EndLine(StateOf(block))) == Grouping(if GroupOf(block) == [] then [] else [GroupOf(block)], [], "")
  {
    var lines := Lines(block);
    hide Lines;
    assert NonEmpty(lines) == if lines[|lines| - 1] == "" then NonEmpty(lines[..|lines| - 1]) else NonEmpty(lines[..|lines| - 1]) + [lines[|lines| - 1]];
  }

  /** Reading one block and its separator. */
  lemma HeadFeeds(head: string)
    requires FirstSeparator(head).Some?
    requires var f := FirstSeparator(head).value; f.0 + f.1 == |head|
    ensures var block := head[..FirstSeparator(head).value.0];
            Feed(head, false, START) == Grouping(if GroupOf(block) == [] then [] else [GroupOf(block)], [], "")
  {
    hide StateOf, EndLine, Feed, GroupOf;
    var f := FirstSeparator(head).value;
    StartState();
    NothingRead();
    FeedBlock("", head);
    assert "" + head[..f.0] == head[..f.0];
    SeparatorAt(head);
    SeparatorEnds(head[f.0..], StateOf(head[..f.0]));
    GroupEnds(head[..f.0]);
  }

  lemma NothingRead()
    ensures StateOf("").line == "" && StateOf("").group == []
  {
  }

  lemma {:induction false} SeparatorAt(s: string)
    requires FirstSeparator(s).Some?
    ensures var f := FirstSeparator(s).value; Separator(s[f.0..]) == f.1 > 0
    decreases |s|
  {
    hide Separator;
    if Separator(s) > 0 {
      assert s[0..] == s;
    } else {
      SeparatorAt(s[1..]);
      var f := FirstSeparator(s[1..]).value;
      assert s[1..][f.0..] == s[f.0 + 1..];
    }
  }

  /** The text up to the end of its last separator. */
  function Consumed(text: string): string
    decreases |text|
  {
    match FirstSeparator(text)
    case None => ""
    case Some(f) => text[..f.0 + f.1] + Consumed(text[f.0 + f.1..])
  }

  /** The first block with its separator, cut off the text, is still a block with its separator. */
  lemma HeadStandsAlone(text: string)
    requires FirstSeparator(text).Some?
    ensures var f := FirstSeparator(text).value;
            var head := text[..f.0 + f.1];
            FirstSeparator(head) == Some(f) && head[|head| - 1] == '\n' && head[..f.0] == text[..f.0]
  {
    hide FirstSeparator, Separator;
    var f := FirstSeparator(text).value;
    var head := text[..f.0 + f.1];
    SeparatorAt(text);
    CutSeparator(text[f.0..]);
    assert head[f.0..] == text[f.0..][..f.1];
    SeparatorFound(head, f.0);
    FirstSeparatorStays(head, text[f.0 + f.1..]);
    assert head + text[f.0 + f.1..] == text;
    assert head[|head| - 1] == head[f.0..][f.1 - 1];
  }

  lemma CutSeparator(s: string)
    requires Separator(s) > 0
    ensures Separator(s[..Separator(s)]) == Separator(s) && s[Separator(s) - 1] == '\n'
  {
    var n := Separator(s);
    var first := LineBreak(s);
    assert s[..n][first..] == s[first..][..n - first];
  }

  /** Reading the decoder's way leaves exactly the decoder's groups. */
  lemma {:induction false} ConsumedFeeds(text: string)
    ensures text == Consumed(text) + Rest(text)
    ensures Consumed(text) != "" ==> Consumed(text)[|Consumed(text)| - 1] == '\n'
    ensures Feed(Consumed(text), false, START) == Grouping(Groups(Whole(text)), [], "")
    ensures Feed(Rest(text), false, START).done == []
    decreases |text|
  {
    hide Feed, Split, Whole, Rest, GroupOf;
    match FirstSeparator(text) {
      case None =>
        NoSeparatorYet(text);
        EmptyFeed();
        StartState();
        NothingRead();
        FeedBlock("", text);
      case Some(f) =>
        var tail := text[f.0 + f.1..];
        ConsumedFeeds(tail);
        hide *;
        ConsumedEnds(text);
        OneBlockFeeds(text);
        SplitStep(text);
    }
  }

  lemma ConsumedEnds(text: string)
    requires FirstSeparator(text).Some?
    requires var f := FirstSeparator(text).value;
             var tail := text[f.0 + f.1..];
             tail == Consumed(tail) + Rest(tail) && (Consumed(tail) != "" ==> Consumed(tail)[|Consumed(tail)| - 1] == '\n')
    ensures text == Consumed(text) + Rest(text)
    ensures Consumed(text) != "" ==> Consumed(text)[|Consumed(text)| - 1] == '\n'
  {
    hide FirstSeparator, Consumed, Rest, Split;
    var f := FirstSeparator(text).value;
    var head, tail := text[..f.0 + f.1], text[f.0 + f.1..];
    HeadStandsAlone(text);
    ConsumedStep(text);
    SplitStep(text);
    assert text == head + tail;
    LastOfBoth(head, Consumed(tail), Rest(tail));
  }

  lemma LastOfBoth(head: string, more: string, rest: string)
    requires head != "" && head[|head| - 1] == '\n' && (more != "" ==> more[|more| - 1] == '\n')
    ensures head + (more + rest) == head + more + rest && head + more != "" && (head + more)[|head + more| - 1] == '\n'
  {
  }

  /** The groups of a text are its first block's and those of the rest. */
  lemma OneBlockFeeds(text: string)
    requires FirstSeparator(text).Some?
    requires var f := FirstSeparator(text).value;
             var tail := text[f.0 + f.1..];
             Feed(Consumed(tail), false, START) == Grouping(Groups(Whole(tail)), [], "")
    ensures Feed(Consumed(text), false, START) == Grouping(Groups(Whole(text)), [], "")
  {
    hide FirstSeparator, Consumed, Whole, Split, Feed, Groups, GroupOf;
    var f := FirstSeparator(text).value;
    var head, tail := text[..f.0 + f.1], text[f.0 + f.1..];
    HeadStandsAlone(text);
    HeadFeeds(head);
    ConsumedStep(text);
    SplitStep(text);
    FeedAppend(head, Consumed(tail), false, START);
    var done := Feed(head, false, START).done;
    FeedAfter(Consumed(tail), false, done, START);
    AfterStart(done);
    GroupsFirst(text[..f.0], Whole(tail));
  }

  lemma AfterStart(done: seq<seq<string>>)
    ensures START.(done := done + START.done) == Grouping(done, [], "")
  {
    assert done + [] == done;
  }

  lemma GroupsFirst(block: string, blocks: seq<string>)
    ensures Groups([block] + blocks) == (if GroupOf(block) == [] then [] else [GroupOf(block)]) + Groups(blocks)
  {
    hide GroupOf;
    assert ([block] + blocks)[1..] == blocks;
  }

  lemma ConsumedStep(text: string)
    requires FirstSeparator(text).Some?
    ensures var f := FirstSeparator(text).value; Consumed(text) == text[..f.0 + f.1] + Consumed(text[f.0 + f.1..])
  {
    hide FirstSeparator;
  }

  lemma EmptyFeed()
    ensures Feed("", false, START) == START && Groups([]) == []
  {
  }

  // ----- when decoder and format agree -----

  /**
   * The decoder's blocks are the groups the format dispatches if and only if up to the last separator every
   * carriage return is followed by a line feed, and the remainder holds no group for the format.
   */
  lemma BlocksAgreeWhen(text: string)
    ensures Groups(Whole(text)) == StandardGroups(text) <==> NoLoneReturn(Consumed(text)) && StandardGroups(Rest(text)) == []
  {
    hide Feed, Whole, Rest, Consumed, Groups, NoLoneReturn, HasReturn;
    ConsumedFeeds(text);
    var consumed, rest := Consumed(text), Rest(text);
    var decoded := Grouping(Groups(Whole(text)), [], "");
    if NoLoneReturn(consumed) {
      FeedSame(consumed, START);
      FeedAppend(consumed, rest, true, START);
      FeedAfter(rest, true, decoded.done, START);
      assert decoded.done + [] == decoded.done;
      assert decoded == START.(done := decoded.done + START.done);
    } else {
      LoneReturnStays(consumed, START);
      NoneAtStart();
      StandardHasNone(text, START);
      ReturnsInGroups(decoded, Feed(text, true, START));
    }
  }

  lemma NoneAtStart()
    ensures !HasReturn(START)
  {
  }

  lemma ReturnsInGroups(a: Grouping, b: Grouping)
    requires HasReturn(a) && a.line == "" && a.group == [] && !HasReturn(b)
    ensures a.done != b.done
  {
  }

  /** If every carriage return is followed by a line feed the two agree. */
  lemma BlocksAgree(text: string)
    requires NoLoneReturn(text)
    ensures Groups(Whole(text)) == StandardGroups(text)
  {
    hide Feed, Whole, Rest, Consumed, Groups;
    ConsumedFeeds(text);
    NoLonePrefix(Consumed(text), Rest(text));
    FeedSame(Rest(text), START);
    BlocksAgreeWhen(text);
  }

  lemma NoLonePrefix(a: string, b: string)
    requires NoLoneReturn(a + b) && (a != "" ==> a[|a| - 1] == '\n')
    ensures NoLoneReturn(a) && NoLoneReturn(b)
  {
    forall i | 0 <= i < |a| && a[i] == '\r' ensures i + 1 < |a| && a[i + 1] == '\n' {
      assert (a + b)[i] == a[i] && i != |a| - 1;
      assert (a + b)[i + 1] == a[i + 1];
    }
    assert b == (a + b)[|a|..];
    NoLoneSuffix(a + b, |a|);
  }

  lemma {:induction false} FeedPlain(line: string, rest: string, bare: bool, g: Grouping)
    requires Plain(line)
    ensures Feed(line + rest, bare, g) == Feed(rest, bare, g.(line := g.line + line))
    decreases |line|
  {
    if line == "" {
      assert line + rest == rest && g.line + line == g.line;
    } else {
      var s := line + rest;
      assert s[0] == line[0] && s[1..] == line[1..] + rest && LineEnd(s, bare) == 0;
      FeedPlain(line[1..], rest, bare, g.(line := g.line + [line[0]]));
      assert g.line + [line[0]] + line[1..] == g.line + line;
    }
  }

  /** A line ended by two lone carriage returns is an event for the format and none for the decoder. */
  lemma LoneReturnsDiffer(line: string)
    requires Plain(line) && line != ""
    ensures StandardGroups(line + "\r\r") == [[line]] && Groups(Whole(line + "\r\r")) == []
  {
    var text := line + "\r\r";
    CarriageReturnsDoNotSeparate(text);
    EmptyFeed();
    FeedPlain(line, "\r\r", true, START);
    assert "" + line == line;
    assert "\r\r"[1..] == "\r" && "\r"[1..] == "";
    var g := START.(line := line);
    var none: seq<string> := [];
    var nothing: seq<seq<string>> := [];
    assert none + [line] == [line] && nothing + [[line]] == [[line]];
    assert EndLine(g) == Grouping([], [line], "") && EndLine(EndLine(g)) == Grouping([[line]], [], "");
    assert LineEnd("\r\r", true) == 1 && LineEnd("\r", true) == 1;
    assert Feed("\r\r", true, g) == Feed("\r", true, EndLine(g));
    assert Feed("\r", true, EndLine(g)) == Feed("", true, EndLine(EndLine(g)));
    assert Split(text)[..0] == [];
  }

  // ----- the end of the stream -----

  function DeliverGroups(r: Received, groups: seq<seq<string>>, parse: string -> Option<Payload>): Received
    decreases |groups|
  {
    if groups == [] then r else DeliverGroups(Deliver(r, DecodeLines(groups[0], parse)), groups[1..], parse)
  }

  /** What the format dispatches, each group's fields read as the decoder reads a block's. */
  function StandardReceived(text: string, parse: string -> Option<Payload>): Received {
    DeliverGroups(Received([], false), StandardGroups(text), parse)
  }

  lemma DecodedAsGroup(block: string, parse: string -> Option<Payload>)
    ensures Decode(block, parse) == DecodeLines(GroupOf(block), parse)
    ensures GroupOf(block) == [] ==> Decode(block, parse) == Skipped
  {
    hide Lines;
    BlankLinesDoNotMatter(Lines(block));
    hide NonEmpty;
  }

  lemma DeliverFirst(r: Received, block: string, rest: seq<string>, parse: string -> Option<Payload>)
    ensures DeliverAll(r, [block] + rest, parse) == DeliverAll(Deliver(r, Decode(block, parse)), rest, parse)
  {
    DeliverMore(r, [block], rest, parse);
    hide Decode;
    assert [block][..0] == [];
    assert DeliverAll(r, [block], parse) == Deliver(r, Decode(block, parse));
  }

  /** The decoder's blocks deliver what their groups do. */
  lemma {:induction false} BlocksDeliverGroups(r: Received, blocks: seq<string>, parse: string -> Option<Payload>)
    ensures DeliverAll(r, blocks, parse) == DeliverGroups(r, Groups(blocks), parse)
    decreases |blocks|
  {
    hide Decode, DecodeLines, GroupOf;
    if blocks != [] {
      var first, rest := blocks[0], blocks[1..];
      assert blocks == [first] + rest;
      DeliverFirst(r, first, rest, parse);
      DecodedAsGroup(first, parse);
      GroupsFirst(first, rest);
      BlocksDeliverGroups(Deliver(r, Decode(first, parse)), rest, parse);
      if GroupOf(first) == [] {
        assert Groups(blocks) == Groups(rest);
      } else {
        assert Groups(blocks)[0] == GroupOf(first) && Groups(blocks)[1..] == Groups(rest);
      }
    }
  }

  /**
   * On a text whose carriage returns are all followed by line feeds the decoder delivers what the format
   * dispatches if and only if a block failed to parse before its end, or no event is made of the last,
   * unterminated block: the decoder delivers one, the format discards the block.
   */
  lemma TrailingBlockDiffersWhen(text: string, parse: string -> Option<Payload>)
    requires NoLoneReturn(text)
    ensures DecodeText(text, parse) == StandardReceived(text, parse)
       <==> StandardReceived(text, parse).broken || Decode(Trim(Rest(text)), parse) == Skipped
  {
    hide Decode, DeliverAll, DeliverGroups, Groups, StandardGroups, Whole, Rest, Trim;
    BlocksAgree(text);
    BlocksDeliverGroups(Received([], false), Whole(text), parse);
    var before, last := StandardReceived(text, parse), Decode(Trim(Rest(text)), parse);
    assert last.Emitted? ==> |before.events + [last.event]| > |before.events|;
  }

  /** It makes none exactly if none of its lines is a data line. */
  lemma SkippedWhen(block: string, parse: string -> Option<Payload>)
    ensures Decode(block, parse) == Skipped <==> forall line :: line in Lines(block) ==> !StartsWith(line, "data:")
  {
    hide Lines;
    DataLines(Lines(block));
    hide AbsorbAll;
  }

  lemma {:induction false} DataLines(lines: seq<string>)
    ensures AbsorbAll(lines).data == [] <==> forall line :: line in lines ==> !StartsWith(line, "data:")
  {
    if lines != [] {
      var init, last := lines[..|lines| - 1], lines[|lines| - 1];
      DataLines(init);
      assert lines == init + [last];
      OneField(last);
      hide AbsorbAll, StartsWith;
    }
  }
}
