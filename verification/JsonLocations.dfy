/** Absolute paths inside JSON metadata, and the locations printed for them. */
module JsonLocations {
  import opened Wrappers
  import opened Text

  datatype Member = Member(key: string, value: Json)

  datatype Json = JNull | JFlag(flag: bool) | JNumber(repr: string) | JText(text: string) | JArray(elements: seq<Json>) | JObject(members: seq<Member>)

  predicate IsAbsolute(s: string) {
    s != "" && s[0] == '/'
  }

  /** The keys of every object differ. */
  predicate WellFormed(j: Json) {
    match j
    case JArray(elements) => forall i :: 0 <= i < |elements| ==> WellFormed(elements[i])
    case JObject(members) =>
      && (forall i :: 0 <= i < |members| ==> WellFormed(members[i].value))
      && (forall i, k :: 0 <= i < k < |members| ==> members[i].key != members[k].key)
    case _ => true
  }

  // ----- pointer escaping -----

  function ReplaceChar(s: string, c: char, text: string): string {
    if s == "" then "" else (if s[0] == c then text else [s[0]]) + ReplaceChar(s[1..], c, text)
  }

  /** str(key).replace("~", "~0").replace("/", "~1") */
  function Escape(key: string): string {
    ReplaceChar(ReplaceChar(key, '~', "~0"), '/', "~1")
  }

  function ReplacePair(s: string, a: char, b: char, one: char): string {
    if |s| < 2 then s
    else if s[0] == a && s[1] == b then [one] + ReplacePair(s[2..], a, b, one)
    else [s[0]] + ReplacePair(s[1..], a, b, one)
  }

  /** Section 4 of RFC 6901: first ~1 becomes /, then ~0 becomes ~. */
  function Unescape(token: string): string {
    ReplacePair(ReplacePair(token, '~', '1', '/'), '~', '0', '~')
  }

  lemma {:induction false} ReplaceCharPrefix(a: string, b: string, c: char, text: string)
    ensures ReplaceChar(a + b, c, text) == ReplaceChar(a, c, text) + ReplaceChar(b, c, text)
  {
    hide ReplaceChar;
    if a == "" {
      assert a + b == b;
      NothingReplaced(c, text);
    } else {
      ReplaceCharPrefix(a[1..], b, c, text);
      ReplaceFirst(a, c, text);
      ReplaceFirst(a + b, c, text);
      assert (a + b)[1..] == a[1..] + b && (a + b)[0] == a[0];
      Associates(if a[0] == c then text else [a[0]], ReplaceChar(a[1..], c, text), ReplaceChar(b, c, text));
    }
  }

  lemma NothingReplaced(c: char, text: string)
    ensures ReplaceChar("", c, text) == ""
  {
  }

  lemma ReplaceFirst(s: string, c: char, text: string)
    requires s != ""
    ensures ReplaceChar(s, c, text) == (if s[0] == c then text else [s[0]]) + ReplaceChar(s[1..], c, text)
  {
  }

  lemma Associates(a: string, b: string, c: string)
    ensures a + (b + c) == a + b + c
  {
  }

  lemma {:induction false} TildesBack(s: string)
    ensures ReplacePair(ReplaceChar(s, '~', "~0"), '~', '0', '~') == s
  {
    if s != "" {
      TildesBack(s[1..]);
      var rest := ReplaceChar(s[1..], '~', "~0");
      if s[0] == '~' {
        assert ReplaceChar(s, '~', "~0")[2..] == rest;
      } else {
        assert ReplaceChar(s, '~', "~0")[1..] == rest;
        assert s == [s[0]] + s[1..];
      }
    }
  }

  lemma {:induction false} SlashesBack(s: string)
    ensures ReplacePair(Escape(s), '~', '1', '/') == ReplaceChar(s, '~', "~0")
  {
    if s != "" {
      SlashesBack(s[1..]);
      var rest, inner := Escape(s[1..]), ReplaceChar(s[1..], '~', "~0");
      if s[0] == '~' {
        ReplaceCharPrefix("~0", inner, '/', "~1");
        assert ReplaceChar("~0", '/', "~1") == "~0" by { assert "~0"[1..] == "0" && "0"[1..] == ""; }
        assert Escape(s) == "~0" + rest;
        assert ("~0" + rest)[1..] == "0" + rest && ("0" + rest)[1..] == rest;
      } else {
        ReplaceCharPrefix([s[0]], inner, '/', "~1");
        assert ReplaceChar([s[0]], '/', "~1") == if s[0] == '/' then "~1" else [s[0]];
        if s[0] == '/' {
          assert ("~1" + rest)[2..] == rest;
        } else {
          assert ([s[0]] + rest)[1..] == rest;
        }
      }
    }
  }

  /** Every key comes back. */
  lemma EscapeRoundTrip(key: string)
    ensures Unescape(Escape(key)) == key
  {
    SlashesBack(key);
    TildesBack(key);
  }

  lemma {:induction false} NoSlashLeft(s: string)
    ensures '/' !in ReplaceChar(s, '/', "~1")
  {
    if s != "" {
      NoSlashLeft(s[1..]);
    }
  }

  // ----- printed locations -----

  /** "/" and the escaped token, for each step. */
  function Print(path: seq<string>): string {
    if path == [] then "" else "/" + Escape(path[0]) + Print(path[1..])
  }

  function UpToSlash(s: string): (n: nat)
    ensures n <= |s|
    ensures '/' !in s[..n] && (n < |s| ==> s[n] == '/')
  {
    if s == "" || s[0] == '/' then 0
    else
      var n := UpToSlash(s[1..]);
      assert s[..n + 1] == [s[0]] + s[1..][..n];
      n + 1
  }

  /** The steps of a pointer. */
  function Steps(pointer: string): Option<seq<string>>
    decreases |pointer|
  {
    if pointer == "" then Some([])
    else if pointer[0] != '/' then None
    else
      var n := UpToSlash(pointer[1..]);
      match Steps(pointer[1 + n..])
      case None => None
      case Some(rest) => Some([Unescape(pointer[1..][..n])] + rest)
  }

  lemma {:induction false} UpToSlashOf(s: string, rest: string)
    requires '/' !in s && (rest == "" || rest[0] == '/')
    ensures UpToSlash(s + rest) == |s|
  {
    if s == "" {
      assert s + rest == rest;
    } else {
      assert (s + rest)[1..] == s[1..] + rest;
      UpToSlashOf(s[1..], rest);
    }
  }

  lemma FirstStep(token: string, rest: string)
    requires '/' !in token && (rest == "" || rest[0] == '/') && Steps(rest).Some?
    ensures Steps("/" + token + rest) == Some([Unescape(token)] + Steps(rest).value)
  {
    hide Unescape, Steps;
    UpToSlashOf(token, rest);
    var pointer := "/" + token + rest;
    assert pointer[1..] == token + rest;
    assert pointer[1 + |token|..] == rest && pointer[1..][..|token|] == token;
    StepsUnfold(pointer, |token|);
  }

  lemma StepsUnfold(pointer: string, n: nat)
    requires pointer != "" && pointer[0] == '/' && n == UpToSlash(pointer[1..]) && Steps(pointer[1 + n..]).Some?
    ensures Steps(pointer) == Some([Unescape(pointer[1..][..n])] + Steps(pointer[1 + n..]).value)
  {
    hide Unescape, UpToSlash;
  }

  /** A printed location determines its steps. */
  lemma {:induction false} PrintRoundTrip(path: seq<string>)
    ensures Steps(Print(path)) == Some(path)
  {
    if path != [] {
      PrintRoundTrip(path[1..]);
      NoSlashLeft(ReplaceChar(path[0], '~', "~0"));
      EscapeRoundTrip(path[0]);
      var token, rest := Escape(path[0]), Print(path[1..]);
      assert rest == "" || rest[0] == '/';
      assert '/' !in token;
      hide Escape, Unescape, Steps;
      FirstStep(token, rest);
      assert path == [path[0]] + path[1..];
    }
  }

  // ----- following a location -----

  function MemberAt(members: seq<Member>, key: string): (m: Option<Json>)
    ensures m.Some? ==> exists i :: 0 <= i < |members| && members[i].key == key && members[i].value == m.value
    ensures m.None? ==> forall i :: 0 <= i < |members| ==> members[i].key != key
  {
    if members == [] then None
    else if members[0].key == key then Some(members[0].value)
    else
      var rest := MemberAt(members[1..], key);
      assert forall i :: 0 <= i < |members| - 1 ==> members[1..][i] == members[i + 1];
      rest
  }

  /** An array step is its index in decimal, without leading zeros. */
  function ElementAt(elements: seq<Json>, token: string): Option<Json> {
    if AllDigits(token) && DigitsValue(token) < |elements| && NatText(DigitsValue(token)) == token
    then Some(elements[DigitsValue(token)]) else None
  }

  function At(j: Json, path: seq<string>): Option<Json>
    decreases |path|
  {
    if path == [] then Some(j)
    else
      match j
      case JArray(elements) =>
        (match ElementAt(elements, path[0]) case None => None case Some(child) => At(child, path[1..]))
      case JObject(members) =>
        (match MemberAt(members, path[0]) case None => None case Some(child) => At(child, path[1..]))
      case _ => None
  }

  // ----- the leaves of a tree -----

  /** A leaf's steps and its text. */
  datatype Leaf = Leaf(path: seq<string>, text: string)

  function Under(token: string, leaves: seq<Leaf>): (r: seq<Leaf>)
    ensures |r| == |leaves| && forall i :: 0 <= i < |r| ==> r[i] == Leaf([token] + leaves[i].path, leaves[i].text)
  {
    seq(|leaves|, i requires 0 <= i < |leaves| => Leaf([token] + leaves[i].path, leaves[i].text))
  }

  function Width(j: Json): nat {
    match j
    case JArray(elements) => |elements|
    case JObject(members) => |members|
    case _ => 0
  }

  /** The absolute text leaves, in document order. */
  function Leaves(j: Json): seq<Leaf>
    decreases j, Width(j) + 1
  {
    match j
    case JText(s) => if IsAbsolute(s) then [Leaf([], s)] else []
    case JArray(elements) => ElementLeaves(j, |elements|)
    case JObject(members) => MemberLeaves(j, |members|)
    case _ => []
  }

  function ElementLeaves(j: Json, n: nat): seq<Leaf>
    requires j.JArray? && n <= |j.elements|
    decreases j, n
  {
    if n == 0 then [] else ElementLeaves(j, n - 1) + Under(NatText(n - 1), Leaves(j.elements[n - 1]))
  }

  function MemberLeaves(j: Json, n: nat): seq<Leaf>
    requires j.JObject? && n <= |j.members|
    decreases j, n
  {
    if n == 0 then [] else MemberLeaves(j, n - 1) + Under(j.members[n - 1].key, Leaves(j.members[n - 1].value))
  }

  // ----- iter_absolute_strings -----

  type Found = seq<(string, string)>

  /** iter_absolute_strings: a printed location and the text at it, for each absolute leaf. */
  method IterAbsoluteStrings(j: Json, location: string) returns (found: Found)
    ensures found == Printed(location, Leaves(j))
    decreases j
  {
    hide Escape, NatText, Print, Leaves, MemberLeaves, ElementLeaves, Printed, Under;
    found := [];
    LeavesOf(j);
    NothingPrinted(location);
    match j {
      case JObject(members) =>
        for n := 0 to |members|
          invariant found == Printed(location, MemberLeaves(j, n))
        {
          var inner := IterAbsoluteStrings(members[n].value, location + "/" + Escape(members[n].key));
          PrintedUnder(location, members[n].key, Leaves(members[n].value));
          MemberMore(j, n);
          PrintedBoth(location, MemberLeaves(j, n), Under(members[n].key, Leaves(members[n].value)));
          found := found + inner;
        }
      case JArray(elements) =>
        for n := 0 to |elements|
          invariant found == Printed(location, ElementLeaves(j, n))
        {
          var inner := IterAbsoluteStrings(elements[n], location + "/" + NatText(n));
          DigitsNeedNoEscape(NatText(n));
          PrintedUnder(location, NatText(n), Leaves(elements[n]));
          ElementMore(j, n);
          PrintedBoth(location, ElementLeaves(j, n), Under(NatText(n), Leaves(elements[n])));
          found := found + inner;
        }
      case JText(s) =>
        if IsAbsolute(s) {
          found := [(location, s)];
        }
      case _ =>
    }
  }

  lemma LeavesOf(j: Json)
    ensures j.JObject? ==> Leaves(j) == MemberLeaves(j, |j.members|) && MemberLeaves(j, 0) == []
    ensures j.JArray? ==> Leaves(j) == ElementLeaves(j, |j.elements|) && ElementLeaves(j, 0) == []
    ensures !j.JObject? && !j.JArray? ==> Leaves(j) == if j.JText? && IsAbsolute(j.text) then [Leaf([], j.text)] else []
  {
  }

  lemma MemberMore(j: Json, n: nat)
    requires j.JObject? && n < |j.members|
    ensures MemberLeaves(j, n + 1) == MemberLeaves(j, n) + Under(j.members[n].key, Leaves(j.members[n].value))
  {
  }

  lemma ElementMore(j: Json, n: nat)
    requires j.JArray? && n < |j.elements|
    ensures ElementLeaves(j, n + 1) == ElementLeaves(j, n) + Under(NatText(n), Leaves(j.elements[n]))
  {
  }

  lemma PrintedBoth(location: string, a: seq<Leaf>, b: seq<Leaf>)
    ensures Printed(location, a + b) == Printed(location, a) + Printed(location, b)
  {
    hide Print;
  }

  function Printed(location: string, leaves: seq<Leaf>): (found: Found)
    ensures |found| == |leaves|
    ensures forall i :: 0 <= i < |found| ==> found[i] == (location + Print(leaves[i].path), leaves[i].text)
  {
    seq(|leaves|, i requires 0 <= i < |leaves| => (location + Print(leaves[i].path), leaves[i].text))
  }

  lemma NothingPrinted(location: string)
    ensures Printed(location, []) == []
    ensures forall s :: Printed(location, [Leaf([], s)]) == [(location, s)]
  {
    assert location + Print([]) == location;
  }

  lemma PrintedUnder(location: string, token: string, leaves: seq<Leaf>)
    ensures Printed(location + "/" + Escape(token), leaves) == Printed(location, Under(token, leaves))
  {
    hide Escape;
    forall i | 0 <= i < |leaves| ensures location + "/" + Escape(token) + Print(leaves[i].path) == location + Print([token] + leaves[i].path) {
      assert ([token] + leaves[i].path)[1..] == leaves[i].path;
    }
  }

  lemma {:induction false} NothingToReplace(s: string, c: char, text: string)
    requires c !in s
    ensures ReplaceChar(s, c, text) == s
  {
    if s != "" {
      NothingToReplace(s[1..], c, text);
    }
  }

  lemma DigitsNeedNoEscape(s: string)
    requires AllDigits(s)
    ensures Escape(s) == s
  {
    NothingToReplace(s, '~', "~0");
    NothingToReplace(s, '/', "~1");
  }

  // ----- every leaf, once, where it says -----

  /** A listed leaf is where its steps lead. */
  lemma {:induction false} LeafIsThere(j: Json, i: nat)
    requires WellFormed(j) && i < |Leaves(j)|
    ensures At(j, Leaves(j)[i].path) == Some(JText(Leaves(j)[i].text)) && IsAbsolute(Leaves(j)[i].text)
    decreases j, Width(j) + 1
  {
    match j {
      case JArray(elements) => ElementLeafIsThere(j, |elements|, i);
      case JObject(members) => MemberLeafIsThere(j, |members|, i);
      case _ =>
    }
  }

  lemma {:induction false} ElementLeafIsThere(j: Json, n: nat, i: nat)
    requires WellFormed(j) && j.JArray? && n <= |j.elements| && i < |ElementLeaves(j, n)|
    ensures var leaf := ElementLeaves(j, n)[i];
            At(j, leaf.path) == Some(JText(leaf.text)) && IsAbsolute(leaf.text)
    decreases j, n
  {
    var before := |ElementLeaves(j, n - 1)|;
    if i < before {
      ElementLeafIsThere(j, n - 1, i);
    } else {
      var child, token := j.elements[n - 1], NatText(n - 1);
      LeafIsThere(child, i - before);
      NatTextValue(n - 1);
      var leaf := ElementLeaves(j, n)[i];
      assert leaf.path[0] == token && leaf.path[1..] == Leaves(child)[i - before].path;
    }
  }

  lemma {:induction false} MemberLeafIsThere(j: Json, n: nat, i: nat)
    requires WellFormed(j) && j.JObject? && n <= |j.members| && i < |MemberLeaves(j, n)|
    ensures var leaf := MemberLeaves(j, n)[i];
            At(j, leaf.path) == Some(JText(leaf.text)) && IsAbsolute(leaf.text)
    decreases j, n
  {
    var before := |MemberLeaves(j, n - 1)|;
    if i < before {
      MemberLeafIsThere(j, n - 1, i);
    } else {
      var m := j.members[n - 1];
      LeafIsThere(m.value, i - before);
      var leaf := MemberLeaves(j, n)[i];
      assert leaf.path[0] == m.key && leaf.path[1..] == Leaves(m.value)[i - before].path;
      assert MemberAt(j.members, m.key) == Some(m.value);
    }
  }

  /** Every absolute leaf is listed. */
  lemma {:induction false} LeafIsListed(j: Json, path: seq<string>)
    requires WellFormed(j) && At(j, path).Some? && At(j, path).value.JText? && IsAbsolute(At(j, path).value.text)
    ensures Leaf(path, At(j, path).value.text) in Leaves(j)
    decreases |path|
  {
    if path != [] {
      match j {
        case JArray(elements) =>
          var n := DigitsValue(path[0]);
          LeafIsListed(elements[n], path[1..]);
          ListedBelow(path, Leaves(elements[n]), At(j, path).value.text);
          ElementsKeep(j, n, |elements|, Leaf(path, At(j, path).value.text));
        case JObject(members) =>
          var n :| 0 <= n < |members| && members[n].key == path[0] && members[n].value == MemberAt(members, path[0]).value;
          LeafIsListed(members[n].value, path[1..]);
          ListedBelow(path, Leaves(members[n].value), At(j, path).value.text);
          MembersKeep(j, n, |members|, Leaf(path, At(j, path).value.text));
      }
    }
  }

  lemma ListedBelow(path: seq<string>, leaves: seq<Leaf>, text: string)
    requires path != [] && Leaf(path[1..], text) in leaves
    ensures Leaf(path, text) in Under(path[0], leaves)
  {
    var i :| 0 <= i < |leaves| && leaves[i] == Leaf(path[1..], text);
    assert path == [path[0]] + path[1..];
    assert Under(path[0], leaves)[i] == Leaf(path, text);
  }

  lemma {:induction false} ElementsKeep(j: Json, n: nat, m: nat, leaf: Leaf)
    requires j.JArray? && n < m <= |j.elements| && leaf in Under(NatText(n), Leaves(j.elements[n]))
    ensures leaf in ElementLeaves(j, m)
    decreases m
  {
    if n + 1 < m {
      ElementsKeep(j, n, m - 1, leaf);
    }
  }

  lemma {:induction false} MembersKeep(j: Json, n: nat, m: nat, leaf: Leaf)
    requires j.JObject? && n < m <= |j.members| && leaf in Under(j.members[n].key, Leaves(j.members[n].value))
    ensures leaf in MemberLeaves(j, m)
    decreases m
  {
    if n + 1 < m {
      MembersKeep(j, n, m - 1, leaf);
    }
  }

  predicate DistinctPaths(leaves: seq<Leaf>) {
    forall i, k :: 0 <= i < k < |leaves| ==> leaves[i].path != leaves[k].path
  }

  /** No two listed leaves have the same steps. */
  lemma {:induction false} LeavesDiffer(j: Json)
    requires WellFormed(j)
    ensures DistinctPaths(Leaves(j))
    decreases j, Width(j) + 1
  {
    match j {
      case JArray(elements) => ElementLeavesDiffer(j, |elements|);
      case JObject(members) => MemberLeavesDiffer(j, |members|);
      case _ =>
    }
  }

  lemma UnderDiffers(token: string, leaves: seq<Leaf>)
    requires DistinctPaths(leaves)
    ensures DistinctPaths(Under(token, leaves))
  {
    forall i, k | 0 <= i < k < |leaves| ensures Under(token, leaves)[i].path != Under(token, leaves)[k].path {
      assert ([token] + leaves[i].path)[1..] == leaves[i].path && ([token] + leaves[k].path)[1..] == leaves[k].path;
    }
  }

  lemma {:induction false} ElementLeavesDiffer(j: Json, n: nat)
    requires WellFormed(j) && j.JArray? && n <= |j.elements|
    ensures DistinctPaths(ElementLeaves(j, n))
    ensures forall l :: l in ElementLeaves(j, n) ==> l.path != [] && AllDigits(l.path[0]) && DigitsValue(l.path[0]) < n
    decreases j, n
  {
    if n > 0 {
      ElementLeavesDiffer(j, n - 1);
      LeavesDiffer(j.elements[n - 1]);
      UnderDiffers(NatText(n - 1), Leaves(j.elements[n - 1]));
      NatTextValue(n - 1);
    }
  }

  lemma {:induction false} MemberLeavesDiffer(j: Json, n: nat)
    requires WellFormed(j) && j.JObject? && n <= |j.members|
    ensures DistinctPaths(MemberLeaves(j, n))
    ensures forall l :: l in MemberLeaves(j, n) ==> l.path != [] && exists i :: 0 <= i < n && j.members[i].key == l.path[0]
    decreases j, n
  {
    if n > 0 {
      MemberLeavesDiffer(j, n - 1);
      LeavesDiffer(j.members[n - 1].value);
      UnderDiffers(j.members[n - 1].key, Leaves(j.members[n - 1].value));
    }
  }

  /** Where a printed location leads, from the root. */
  function Follow(j: Json, location: string): Option<Json> {
    if location == "" || location[0] != '$' then None
    else match Steps(location[1..]) case None => None case Some(path) => At(j, path)
  }

  lemma RootedSteps(path: seq<string>)
    ensures Steps(("$" + Print(path))[1..]) == Some(path)
  {
    assert ("$" + Print(path))[1..] == Print(path);
    PrintRoundTrip(path);
  }

  /**
   * iter_absolute_strings lists each absolute leaf exactly once: every location leads back to its text,
   * locations differ, and no absolute leaf is missing.
   */
  lemma EachAbsoluteStringOnce(j: Json)
    requires WellFormed(j)
    ensures var found := Printed("$", Leaves(j));
            && (forall i :: 0 <= i < |found| ==> Follow(j, found[i].0) == Some(JText(found[i].1)) && IsAbsolute(found[i].1))
            && (forall i, k :: 0 <= i < k < |found| ==> found[i].0 != found[k].0)
            && (forall path :: At(j, path).Some? && At(j, path).value.JText? && IsAbsolute(At(j, path).value.text) ==>
                  ("$" + Print(path), At(j, path).value.text) in found)
  {
    hide At, Print, Steps, Leaves, IsAbsolute;
    var leaves, found := Leaves(j), Printed("$", Leaves(j));
    forall i | 0 <= i < |found| ensures Follow(j, found[i].0) == Some(JText(found[i].1)) && IsAbsolute(found[i].1) {
      LeafIsThere(j, i);
      RootedSteps(leaves[i].path);
    }
    LeavesDiffer(j);
    forall i, k | 0 <= i < k < |found| ensures found[i].0 != found[k].0 {
      RootedSteps(leaves[i].path);
      RootedSteps(leaves[k].path);
    }
    forall path | At(j, path).Some? && At(j, path).value.JText? && IsAbsolute(At(j, path).value.text)
      ensures ("$" + Print(path), At(j, path).value.text) in found
    {
      LeafIsListed(j, path);
      var i :| 0 <= i < |leaves| && leaves[i] == Leaf(path, At(j, path).value.text);
      assert found[i] == ("$" + Print(path), At(j, path).value.text);
    }
  }
}
