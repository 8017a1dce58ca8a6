/** Decoding a server-sent event stream that arrives in arbitrary pieces. */
module EventStream {
  import opened Wrappers

  // ----- blocks -----

  /** The length of a line break \r?\n at the start of the text, 0 if there is none. */
  function LineBreak(s: string): (n: nat)
    ensures n <= |s|
  {
    if |s| >= 1 && s[0] == '\n' then 1
    else if |s| >= 2 && s[0] == '\r' && s[1] == '\n' then 2
    else 0
  }

  /** The length of a match of \r?\n\r?\n at the start of the text, 0 if there is none. */
  function Separator(s: string): (n: nat)
    ensures n <= |s|
  {
    var first := LineBreak(s);
    var second := LineBreak(s[first..]);
    if first == 0 || second == 0 then 0 else first + second
  }

  /** The leftmost separator: where it starts and how long it is. */
  function FirstSeparator(s: string): (found: Option<(nat, nat)>)
    ensures found.Some? ==> found.value.1 > 0 && found.value.0 + found.value.1 <= |s|
  {
    if s == "" then None
    else if Separator(s) > 0 then Some((0, Separator(s)))
    else match FirstSeparator(s[1..]) case None => None case Some(f) => Some((f.0 + 1, f.1))
  }

  /** buffer.split(/\r?\n\r?\n/) */
  function Split(s: string): (blocks: seq<string>)
    ensures |blocks| > 0
    decreases |s|
  {
    match FirstSeparator(s)
    case None => [s]
    case Some(f) => [s[..f.0]] + Split(s[f.0 + f.1..])
  }

  /** The blocks a separator ends, and what is left for the next piece. */
  function Whole(s: string): seq<string> {
    Split(s)[..|Split(s)| - 1]
  }

  function Rest(s: string): string {
    Split(s)[|Split(s)| - 1]
  }

  lemma BreakStays(s: string, t: string)
    requires s != "" && s != "\r"
    ensures LineBreak(s + t) == LineBreak(s)
  {
    assert (s + t)[0] == s[0] && (|s| >= 2 ==> (s + t)[1] == s[1]);
    assert |s| == 1 && s[0] == '\r' ==> s == "\r";
  }

  lemma BareReturn()
    ensures FirstSeparator("\r").None? && FirstSeparator("").None?
  {
    assert "\r"[1..] == "";
  }

  lemma SameBreaks(s: string, u: string)
    requires |s| <= |u| && LineBreak(u) == LineBreak(s)
    requires LineBreak(s) > 0 ==> LineBreak(u[LineBreak(s)..]) == LineBreak(s[LineBreak(s)..])
    ensures Separator(u) == Separator(s)
  {
    hide LineBreak;
  }

  /** A separator found in s, at its start or later, decides what is at the start of s + t. */
  lemma SeparatorStays(s: string, t: string)
    requires FirstSeparator(s).Some?
    ensures Separator(s + t) == Separator(s)
  {
    BareReturn();
    hide LineBreak, FirstSeparator, Separator;
    BreakStays(s, t);
    var first := LineBreak(s);
    assert (s + t)[first..] == s[first..] + t;
    if first > 0 {
      TailHasMore(s, first);
      BreakStays(s[first..], t);
    }
    SameBreaks(s, s + t);
  }

  /** After a line break at the start, a text that holds a separator goes on with more than a bare return. */
  lemma TailHasMore(s: string, first: nat)
    requires FirstSeparator(s).Some? && first == LineBreak(s) > 0
    ensures s[first..] != "" && s[first..] != "\r"
  {
    BareReturn();
    assert s == s[..first] + s[first..];
    if first == 2 {
      assert s[1..] == "\n" + s[2..];
      assert s[1..][1..] == s[2..];
    }
  }

  lemma {:induction false} FirstSeparatorStays(s: string, t: string)
    requires FirstSeparator(s).Some?
    ensures FirstSeparator(s + t) == FirstSeparator(s)
  {
    SeparatorStays(s, t);
    if Separator(s) == 0 {
      FirstSeparatorStays(s[1..], t);
      assert (s + t)[1..] == s[1..] + t;
    }
  }

  lemma SplitStep(s: string)
    requires FirstSeparator(s).Some?
    ensures var f := FirstSeparator(s).value;
            var rest := s[f.0 + f.1..];
            Split(s) == [s[..f.0]] + Split(rest) && Whole(s) == [s[..f.0]] + Whole(rest) && Rest(s) == Rest(rest)
  {
    hide FirstSeparator;
    var f := FirstSeparator(s).value;
    assert Split(s) == [s[..f.0]] + Split(s[f.0 + f.1..]);
    hide Split;
  }

  lemma Associates(a: seq<string>, b: seq<string>, c: seq<string>)
    ensures a + (b + c) == a + b + c && [] + c == c
  {
  }

  lemma NoSeparatorYet(s: string)
    requires FirstSeparator(s).None?
    ensures Whole(s) == [] && Rest(s) == s
  {
  }

  lemma CutAfter(s: string, t: string, start: nat, length: nat)
    requires start + length <= |s|
    ensures (s + t)[..start] == s[..start] && (s + t)[start + length..] == s[start + length..] + t
  {
  }

  /** Splitting s + t is the whole blocks of s, then splitting what s left over followed by t. */
  lemma {:induction false} SplitContinues(s: string, t: string)
    ensures Split(s + t) == Whole(s) + Split(Rest(s) + t)
    decreases |s|
  {
    hide Split, Whole, Rest, FirstSeparator;
    match FirstSeparator(s) {
      case None =>
        NoSeparatorYet(s);
        Associates([], [], Split(s + t));
      case Some(f) =>
        FirstSeparatorStays(s, t);
        var rest := s[f.0 + f.1..];
        SplitContinues(rest, t);
        SplitStep(s);
        SplitStep(s + t);
        CutAfter(s, t, f.0, f.1);
        Associates([s[..f.0]], Whole(rest), Split(Rest(rest) + t));
    }
  }

  /** Line ends without a line feed separate nothing. */
  lemma {:induction false} CarriageReturnsDoNotSeparate(s: string)
    requires '\n' !in s
    ensures Split(s) == [s]
  {
    NoSeparator(s);
  }

  lemma {:induction false} NoSeparator(s: string)
    requires '\n' !in s
    ensures FirstSeparator(s).None?
  {
    if s != "" {
      assert s[0] in s && (|s| >= 2 ==> s[1] in s);
      NoSeparator(s[1..]);
    }
  }

  // ----- one block -----

  const SPACES: set<char> := {' ', '\t', '\n', '\r', '\U{000B}', '\U{000C}', '\U{00A0}', '\U{FEFF}', '\U{1680}', '\U{2028}', '\U{2029}',
                              '\U{202F}', '\U{205F}', '\U{3000}', '\U{2000}', '\U{2001}', '\U{2002}', '\U{2003}', '\U{2004}', '\U{2005}',
                              '\U{2006}', '\U{2007}', '\U{2008}', '\U{2009}', '\U{200A}'}

  function TrimStart(s: string): string {
    if s != "" && s[0] in SPACES then TrimStart(s[1..]) else s
  }

  function TrimEnd(s: string): string {
    if s != "" && s[|s| - 1] in SPACES then TrimEnd(s[..|s| - 1]) else s
  }

  function Trim(s: string): string {
    TrimEnd(TrimStart(s))
  }

  /** block.split(/\r?\n/), from the right: every line feed ends a line, with the carriage return before it. */
  function Lines(s: string): (lines: seq<string>)
    ensures |lines| > 0
  {
    if s == "" then [""]
    else if s[|s| - 1] != '\n' then
      var before := Lines(s[..|s| - 1]);
      before[..|before| - 1] + [before[|before| - 1] + [s[|s| - 1]]]
    else
      var end := if |s| >= 2 && s[|s| - 2] == '\r' then |s| - 2 else |s| - 1;
      Lines(s[..end]) + [""]
  }

  /** The event name and the joined data lines of a block; a block without data is skipped. */
  datatype Block = Block(event: string, data: seq<string>)

  predicate StartsWith(s: string, prefix: string) {
    |prefix| <= |s| && s[..|prefix|] == prefix
  }

  function Absorb(b: Block, line: string): Block {
    if StartsWith(line, "event:") then b.(event := Trim(line[6..]))
    else if StartsWith(line, "data:") then b.(data := b.data + [TrimStart(line[5..])])
    else b
  }

  function AbsorbAll(lines: seq<string>): Block {
    if lines == [] then Block("message", []) else Absorb(AbsorbAll(lines[..|lines| - 1]), lines[|lines| - 1])
  }

  function JoinLines(lines: seq<string>): string {
    if lines == [] then "" else if |lines| == 1 then lines[0] else lines[0] + "\n" + JoinLines(lines[1..])
  }

  /** A parsed payload; its own event field, if it has one, replaces the block's. */
  datatype Payload = Payload(event: Option<string>, body: string)

  datatype Event = Event(event: string, body: string)

  datatype Decoded = Skipped | Emitted(event: Event) | Broken

  /** decodeSseBlock; `parse` is JSON.parse, which throws on None. */
  function Decode(block: string, parse: string -> Option<Payload>): Decoded {
    DecodeLines(Lines(block), parse)
  }

  function DecodeLines(lines: seq<string>, parse: string -> Option<Payload>): Decoded {
    var b := AbsorbAll(lines);
    if b.data == [] then Skipped
    else
      match parse(JoinLines(b.data))
      case None => Broken
      case Some(p) => Emitted(Event(if p.event.Some? then p.event.value else b.event, p.body))
  }

  lemma OneField(line: string)
    ensures !(StartsWith(line, "event:") && StartsWith(line, "data:"))
  {
    if StartsWith(line, "event:") {
      assert line[0] == line[..6][0];
    }
    if StartsWith(line, "data:") {
      assert line[0] == line[..5][0];
    }
  }

  method DecodeSseBlock(block: string, parse: string -> Option<Payload>) returns (d: Decoded)
    ensures d == Decode(block, parse)
  {
    var event := "message";
    var dataLines: seq<string> := [];
    var lines := Lines(block);
    for i := 0 to |lines|
      invariant Block(event, dataLines) == AbsorbAll(lines[..i])
    {
      assert lines[..i + 1][..i] == lines[..i];
      var line := lines[i];
      OneField(line);
      if StartsWith(line, "event:") {
        event := Trim(line[6..]);
      }
      if StartsWith(line, "data:") {
        dataLines := dataLines + [TrimStart(line[5..])];
      }
    }
    assert lines[..|lines|] == lines;
    if dataLines == [] {
      return Skipped;
    }
    var payload := parse(JoinLines(dataLines));
    d := match payload
         case None => Broken
         case Some(p) => Emitted(Event(if p.event.Some? then p.event.value else event, p.body));
  }

  // ----- the whole stream -----

  /** The events delivered, and whether a block that does not parse stopped the stream. */
  datatype Received = Received(events: seq<Event>, broken: bool)

  function Deliver(r: Received, d: Decoded): Received {
    if r.broken then r
    else match d case Skipped => r case Broken => r.(broken := true) case Emitted(e) => r.(events := r.events + [e])
  }

  function DeliverAll(r: Received, blocks: seq<string>, parse: string -> Option<Payload>): Received {
    if blocks == [] then r
    else Deliver(DeliverAll(r, blocks[..|blocks| - 1], parse), Decode(blocks[|blocks| - 1], parse))
  }

  /** Decoding the whole text at once: its separated blocks, then the trimmed remainder. */
  function DecodeText(text: string, parse: string -> Option<Payload>): Received {
    Deliver(DeliverAll(Received([], false), Whole(text), parse), Decode(Trim(Rest(text)), parse))
  }

  function Concat(pieces: seq<string>): string {
    if pieces == [] then "" else Concat(pieces[..|pieces| - 1]) + pieces[|pieces| - 1]
  }

  lemma {:induction false} DeliverMore(r: Received, a: seq<string>, b: seq<string>, parse: string -> Option<Payload>)
    ensures DeliverAll(r, a + b, parse) == DeliverAll(DeliverAll(r, a, parse), b, parse)
  {
    hide DeliverAll, Decode, Deliver;
    if b == [] {
      assert a + b == a;
      DeliverNothing(DeliverAll(r, a, parse), parse);
    } else {
      var init, last := b[..|b| - 1], b[|b| - 1];
      DeliverMore(r, a, init, parse);
      assert a + b == (a + init) + [last] && b == init + [last];
      DeliverLast(r, a + init, last, parse);
      DeliverLast(DeliverAll(r, a, parse), init, last, parse);
    }
  }

  lemma DeliverNothing(r: Received, parse: string -> Option<Payload>)
    ensures DeliverAll(r, [], parse) == r
  {
  }

  lemma DeliverLast(r: Received, init: seq<string>, last: string, parse: string -> Option<Payload>)
    ensures DeliverAll(r, init + [last], parse) == Deliver(DeliverAll(r, init, parse), Decode(last, parse))
  {
    hide Decode, Deliver;
    assert (init + [last])[..|init|] == init;
  }

  lemma {:induction false} BrokenStays(r: Received, blocks: seq<string>, parse: string -> Option<Payload>)
    requires r.broken
    ensures DeliverAll(r, blocks, parse) == r
  {
    if blocks != [] {
      BrokenStays(r, blocks[..|blocks| - 1], parse);
    }
  }

  /** A further piece adds the whole blocks it completes. */
  lemma OnePiece(text: string, piece: string)
    ensures Whole(text + piece) == Whole(text) + Whole(Rest(text) + piece) && Rest(text + piece) == Rest(Rest(text) + piece)
  {
    SplitContinues(text, piece);
  }

  /**
   * The buffer loop of streamQuestionRun: however the text is cut into pieces, even inside a separator,
   * the delivered events are those of decoding the whole text at once.
   */
  method StreamRun(pieces: seq<string>, parse: string -> Option<Payload>) returns (received: Received)
    ensures received == DecodeText(Concat(pieces), parse)
  {
    hide Split, Whole, Rest, Decode, Trim;
    received := Received([], false);
    var buffer := "";
    ghost var text := "";
    EmptyText();
    for i := 0 to |pieces|
      invariant text == Concat(pieces[..i])
      invariant buffer == Rest(text)
      invariant received == DeliverAll(Received([], false), Whole(text), parse)
      invariant !received.broken
    {
      assert pieces[..i + 1][..i] == pieces[..i];
      buffer := buffer + pieces[i];
      OnePiece(text, pieces[i]);
      var blocks := Whole(buffer);
      buffer := Rest(buffer);
      DeliverMore(Received([], false), Whole(text), blocks, parse);
      text := text + pieces[i];
      received := DeliverBlocks(received, blocks, parse);
      if received.broken {
        StoppedEarly(pieces, i + 1, parse);
        return;
      }
    }
    assert pieces[..|pieces|] == pieces;
    var trailing := DecodeSseBlock(Trim(buffer), parse);
    received := Deliver(received, trailing);
  }

  lemma EmptyText()
    ensures Whole("") == [] && Rest("") == ""
  {
  }

  /** The loop over the blocks of one piece; a throw leaves it. */
  method DeliverBlocks(before: Received, blocks: seq<string>, parse: string -> Option<Payload>) returns (received: Received)
    requires !before.broken
    ensures received == DeliverAll(before, blocks, parse)
  {
    hide Decode;
    received := before;
    for i := 0 to |blocks|
      invariant received == DeliverAll(before, blocks[..i], parse) && !received.broken
    {
      assert blocks[..i + 1][..i] == blocks[..i];
      var d := DecodeSseBlock(blocks[i], parse);
      received := Deliver(received, d);
      if received.broken {
        DeliveryStops(before, blocks, i + 1, parse);
        return;
      }
    }
    assert blocks[..|blocks|] == blocks;
  }

  lemma DeliveryStops(r: Received, blocks: seq<string>, n: nat, parse: string -> Option<Payload>)
    requires n <= |blocks| && DeliverAll(r, blocks[..n], parse).broken
    ensures DeliverAll(r, blocks, parse) == DeliverAll(r, blocks[..n], parse)
  {
    hide DeliverAll;
    assert blocks == blocks[..n] + blocks[n..];
    DeliverMore(r, blocks[..n], blocks[n..], parse);
    BrokenStays(DeliverAll(r, blocks[..n], parse), blocks[n..], parse);
  }

  /** Text after a block that does not parse changes nothing. */
  lemma {:induction false} StoppedEarly(pieces: seq<string>, n: nat, parse: string -> Option<Payload>)
    requires n <= |pieces|
    requires DeliverAll(Received([], false), Whole(Concat(pieces[..n])), parse).broken
    ensures DecodeText(Concat(pieces), parse) == DeliverAll(Received([], false), Whole(Concat(pieces[..n])), parse)
    decreases |pieces| - n
  {
    hide Split, Whole, Rest, Decode, Trim;
    if n == |pieces| {
      assert pieces[..n] == pieces;
    } else {
      assert pieces[..n + 1][..n] == pieces[..n];
      var text := Concat(pieces[..n]);
      OnePiece(text, pieces[n]);
      DeliverMore(Received([], false), Whole(text), Whole(Rest(text) + pieces[n]), parse);
      BrokenStays(DeliverAll(Received([], false), Whole(text), parse), Whole(Rest(text) + pieces[n]), parse);
      StoppedEarly(pieces, n + 1, parse);
    }
  }

  // ----- what the server sends -----

  /** An event and the JSON text of its data; JSON escapes line breaks and starts with no space. */
  datatype Message = Message(event: string, data: string)

  predicate Plain(s: string) {
    forall i :: 0 <= i < |s| ==> s[i] != '\n' && s[i] != '\r'
  }

  predicate Sendable(m: Message) {
    Plain(m.event) && Plain(m.data) && Trim(m.event) == m.event && TrimStart(m.data) == m.data
  }

  /** LF, as the server writes it, or CRLF, as a proxy may rewrite it. */
  function Newline(crlf: bool): string {
    if crlf then "\r\n" else "\n"
  }

  function EventLine(m: Message): string {
    "event: " + m.event
  }

  function DataLine(m: Message): string {
    "data: " + m.data
  }

  function Body(m: Message, crlf: bool): string {
    EventLine(m) + (Newline(crlf) + DataLine(m))
  }

  /** _sse */
  function Frame(m: Message, crlf: bool): string {
    Body(m, crlf) + (Newline(crlf) + Newline(crlf))
  }

  function Shift(found: Option<(nat, nat)>, n: nat): Option<(nat, nat)> {
    match found case None => None case Some(f) => Some((f.0 + n, f.1))
  }

  lemma {:induction false} SkipPlain(line: string, rest: string)
    requires Plain(line)
    ensures FirstSeparator(line + rest) == Shift(FirstSeparator(rest), |line|)
  {
    if line == "" {
      assert line + rest == rest;
    } else {
      SkipPlain(line[1..], rest);
      assert (line + rest)[1..] == line[1..] + rest && (line + rest)[0] == line[0];
    }
  }

  lemma SkipNewline(crlf: bool, rest: string)
    requires rest != "" && rest[0] != '\n' && rest[0] != '\r'
    ensures FirstSeparator(Newline(crlf) + rest) == Shift(FirstSeparator(rest), |Newline(crlf)|)
  {
    var s := Newline(crlf) + rest;
    assert s[|Newline(crlf)|..] == rest;
    if crlf {
      assert s[1..] == "\n" + rest && s[1..][1..] == rest;
    }
  }

  lemma AtSeparator(crlf: bool)
    ensures FirstSeparator(Newline(crlf) + Newline(crlf)) == Some((0, 2 * |Newline(crlf)|))
  {
    var s := Newline(crlf) + Newline(crlf);
    assert s[|Newline(crlf)|..] == Newline(crlf);
  }

  lemma SendableLines(m: Message)
    requires Sendable(m)
    ensures Plain(EventLine(m)) && Plain(DataLine(m))
    ensures EventLine(m) != "" && EventLine(m)[|EventLine(m)| - 1] != '\r'
    ensures DataLine(m) != "" && DataLine(m)[0] != '\n' && DataLine(m)[0] != '\r'
  {
    hide Trim, TrimStart;
    assert DataLine(m)[0] == 'd';
  }

  lemma TwoLinesSeparate(a: string, b: string, crlf: bool)
    requires Plain(a) && Plain(b) && b != ""
    ensures FirstSeparator(a + (Newline(crlf) + (b + (Newline(crlf) + Newline(crlf)))))
         == Some((|a| + |Newline(crlf)| + |b|, 2 * |Newline(crlf)|))
  {
    hide FirstSeparator, Newline;
    var end := Newline(crlf) + Newline(crlf);
    AtSeparator(crlf);
    SkipPlain(b, end);
    assert (b + end)[0] == b[0];
    SkipNewline(crlf, b + end);
    SkipPlain(a, Newline(crlf) + (b + end));
  }

  lemma Regroup(a: string, n: string, b: string, end: string)
    ensures a + (n + b) + end == a + (n + (b + end))
    ensures (a + (n + b) + end)[..|a| + |n| + |b|] == a + (n + b) && (a + (n + b) + end)[|a| + |n| + |b| + |end|..] == ""
  {
  }

  /** A frame is one whole block with nothing left over. */
  lemma FrameSplits(m: Message, crlf: bool)
    requires Sendable(m)
    ensures Whole(Frame(m, crlf)) == [Body(m, crlf)] && Rest(Frame(m, crlf)) == ""
  {
    hide FirstSeparator, EventLine, DataLine, Newline, Whole, Rest, Split, Sendable;
    SendableLines(m);
    TwoLinesSeparate(EventLine(m), DataLine(m), crlf);
    Regroup(EventLine(m), Newline(crlf), DataLine(m), Newline(crlf) + Newline(crlf));
    BareReturn();
    NoSeparatorYet("");
    SplitStep(Frame(m, crlf));
    Associates([Body(m, crlf)], [], []);
  }

  lemma {:induction false} LinesPlain(s: string, line: string)
    requires Plain(line)
    ensures var before := Lines(s); Lines(s + line) == before[..|before| - 1] + [before[|before| - 1] + line]
  {
    hide Lines;
    var before := Lines(s);
    if line == "" {
      assert s + line == s && before[|before| - 1] + line == before[|before| - 1];
    } else {
      var n := |line| - 1;
      LinesPlain(s, line[..n]);
      assert s + line == s + line[..n] + [line[n]];
      LastPlain(s + line[..n], line[n]);
      assert before[|before| - 1] + line[..n] + [line[n]] == before[|before| - 1] + line;
    }
  }

  lemma LastPlain(s: string, c: char)
    requires c != '\n'
    ensures var before := Lines(s); Lines(s + [c]) == before[..|before| - 1] + [before[|before| - 1] + [c]]
  {
    assert (s + [c])[..|s|] == s;
  }

  lemma LinesNewline(s: string, crlf: bool)
    requires s != "" && s[|s| - 1] != '\r'
    ensures Lines(s + Newline(crlf)) == Lines(s) + [""]
  {
    var t := s + Newline(crlf);
    assert t[|t| - 1] == '\n' && t[..|s|] == s;
    assert t[|t| - 2] == if crlf then '\r' else s[|s| - 1];
  }

  lemma NoLines()
    ensures Lines("") == [""]
  {
  }

  lemma BodyLines(m: Message, crlf: bool)
    requires Sendable(m)
    ensures Lines(Body(m, crlf)) == [EventLine(m), DataLine(m)]
  {
    hide Lines, EventLine, DataLine, Newline, Sendable;
    SendableLines(m);
    NoLines();
    LinesPlain("", EventLine(m));
    assert "" + EventLine(m) == EventLine(m);
    LinesNewline(EventLine(m), crlf);
    LinesPlain(EventLine(m) + Newline(crlf), DataLine(m));
    assert EventLine(m) + Newline(crlf) + DataLine(m) == Body(m, crlf);
    assert "" + DataLine(m) == DataLine(m);
  }

  /** What the client makes of a message. */
  function Expected(m: Message, parse: string -> Option<Payload>): Decoded {
    match parse(m.data)
    case None => Broken
    case Some(p) => Emitted(Event(if p.event.Some? then p.event.value else m.event, p.body))
  }

  lemma {:induction false} TrimSpaceFirst(s: string)
    ensures TrimStart(" " + s) == TrimStart(s) && Trim(" " + s) == Trim(s)
  {
    assert (" " + s)[1..] == s;
  }

  lemma BodyDecodes(m: Message, crlf: bool, parse: string -> Option<Payload>)
    requires Sendable(m)
    ensures Decode(Body(m, crlf), parse) == Expected(m, parse)
  {
    hide Lines, Body, EventLine, DataLine;
    BodyLines(m, crlf);
    BodyFields(m);
    assert JoinLines([m.data]) == m.data;
  }

  lemma BodyFields(m: Message)
    requires Sendable(m)
    ensures AbsorbAll([EventLine(m), DataLine(m)]) == Block(m.event, [m.data])
  {
    hide Trim, TrimStart;
    EventField(m);
    DataField(m);
    var a, b := EventLine(m), DataLine(m);
    hide Absorb, EventLine, DataLine;
    assert [a, b][..1] == [a] && [a][..0] == [];
    assert AbsorbAll([a]) == Absorb(AbsorbAll([]), a);
    assert AbsorbAll([a, b]) == Absorb(AbsorbAll([a]), b);
  }

  lemma EventField(m: Message)
    requires Sendable(m)
    ensures Absorb(Block("message", []), EventLine(m)) == Block(m.event, [])
  {
    TrimSpaceFirst(m.event);
    hide Trim;
    assert EventLine(m)[..6] == "event:" && EventLine(m)[6..] == " " + m.event;
  }

  lemma DataField(m: Message)
    requires Sendable(m)
    ensures Absorb(Block(m.event, []), DataLine(m)) == Block(m.event, [m.data])
  {
    TrimSpaceFirst(m.data);
    hide TrimStart, Trim;
    assert DataLine(m)[..5] == "data:" && DataLine(m)[5..] == " " + m.data;
    OneField(DataLine(m));
  }

  function Frames(messages: seq<Message>, crlf: bool): seq<string> {
    if messages == [] then [] else Frames(messages[..|messages| - 1], crlf) + [Frame(messages[|messages| - 1], crlf)]
  }

  function ExpectedAll(messages: seq<Message>, parse: string -> Option<Payload>): Received {
    if messages == [] then Received([], false)
    else Deliver(ExpectedAll(messages[..|messages| - 1], parse), Expected(messages[|messages| - 1], parse))
  }

  lemma {:induction false} FramesDeliver(messages: seq<Message>, crlf: bool, parse: string -> Option<Payload>)
    requires forall m :: m in messages ==> Sendable(m)
    ensures var text := Concat(Frames(messages, crlf));
            Rest(text) == "" && DeliverAll(Received([], false), Whole(text), parse) == ExpectedAll(messages, parse)
  {
    hide Whole, Rest, Frame, Body, Decode, Expected, Sendable;
    if messages == [] {
      EmptyText();
    } else {
      var init, last := messages[..|messages| - 1], messages[|messages| - 1];
      assert last in messages;
      FramesDeliver(init, crlf, parse);
      var text, blocks := Concat(Frames(init, crlf)), Whole(Concat(Frames(init, crlf)));
      assert Frames(messages, crlf)[..|Frames(init, crlf)|] == Frames(init, crlf);
      OnePiece(text, Frame(last, crlf));
      assert "" + Frame(last, crlf) == Frame(last, crlf);
      FrameSplits(last, crlf);
      BodyDecodes(last, crlf, parse);
      assert (blocks + [Body(last, crlf)])[..|blocks|] == blocks;
    }
  }

  /** Whatever the server sends is received, message by message, with either line ending. */
  lemma SentIsReceived(messages: seq<Message>, crlf: bool, parse: string -> Option<Payload>)
    requires forall m :: m in messages ==> Sendable(m)
    ensures DecodeText(Concat(Frames(messages, crlf)), parse) == ExpectedAll(messages, parse)
  {
    FramesDeliver(messages, crlf, parse);
    NothingTrails(parse);
    hide Whole, Rest, Decode, Trim;
  }

  lemma NothingTrails(parse: string -> Option<Payload>)
    ensures Decode(Trim(""), parse) == Skipped
  {
    var none: seq<string> := [];
    assert [""][..0] == none;
    assert AbsorbAll([""]) == Block("message", []);
  }
}
