/**
 Placeholder substitution in workflow prompts
 (src/data/workflow_prompt_template.rs).
 */
module PromptTemplate {
  import opened Iteration
  import opened MarkdownSections
  import opened Sequences
  import opened Strings
  import opened TextFacts
  import opened Wrappers
  import EventReplay

  datatype WorkItem = WorkItem(number: EventReplay.u32, content: string)

  const MARK := "{{work_item_section:"

  // ----- Counting characters -----

  function Count(c: char, s: string): nat {
    if s == [] then 0 else Count(c, s[..|s| - 1]) + if s[|s| - 1] == c then 1 else 0
  }

  lemma {:induction false} CountAppend(c: char, s: string, t: string)
    ensures Count(c, s + t) == Count(c, s) + Count(c, t)
    decreases |t|
  {
    if t == [] {
      assert s + t == s;
    } else {
      assert (s + t)[..|s + t| - 1] == s + t[..|t| - 1];
      CountAppend(c, s, t[..|t| - 1]);
    }
  }

  lemma {:induction false} CountTrimStart(c: char, s: string)
    ensures Count(c, TrimStart(s)) <= Count(c, s)
  {
    if s != [] && IsWhitespace(s[0]) {
      CountTrimStart(c, s[1..]);
      assert s == [s[0]] + s[1..];
      CountAppend(c, [s[0]], s[1..]);
    }
  }

  lemma {:induction false} CountTrimEnd(c: char, s: string)
    ensures Count(c, TrimEnd(s)) <= Count(c, s)
  {
    if s != [] && IsWhitespace(s[|s| - 1]) {
      CountTrimEnd(c, s[..|s| - 1]);
    }
  }

  // ----- extract_section -----

  function StripReturn(line: string): string {
    if line != [] && line[|line| - 1] == '\r' then line[..|line| - 1] else line
  }

  /** The lines of a text, without their line ends. */
  function Lines(s: string): seq<string>
    decreases |s|
  {
    if s == [] then []
    else
      match Find(s, "\n")
      case None => [s]
      case Some(k) => [StripReturn(s[..k])] + Lines(s[k + 1..])
  }

  function HeadingText(line: string): Option<string> {
    var t := Trim(line);
    if StartsWith(t, "## ") then Some(t[3..])
    else if StartsWith(t, "# ") then Some(t[2..])
    else None
  }

  function Normal(heading: string): string { Lower(TrimEndChar(Trim(heading), ':')) }

  predicate StartsHeading(line: string) {
    StartsWith(TrimStart(line), "## ") || StartsWith(TrimStart(line), "# ")
  }

  /** Lines up to the next heading, each with a line end. */
  function Body(lines: seq<string>): string {
    if lines == [] || StartsHeading(lines[0]) then [] else lines[0] + "\n" + Body(lines[1..])
  }

  predicate Names(line: string, needle: string) {
    HeadingText(line).Some? && Normal(HeadingText(line).value) == needle
  }

  function SectionOf(lines: seq<string>, needle: string): Option<string> {
    if lines == [] then None
    else if Names(lines[0], needle) then Some(Trim(Body(lines[1..])))
    else SectionOf(lines[1..], needle)
  }

  function Section(content: string, name: string): Option<string> {
    SectionOf(Lines(content), Normal(name))
  }

  // ----- What a section is -----

  lemma {:induction false} LinesExactly(text: string)
    ensures LinesAre(text, Lines(text))
    decreases |text|
  {
    if text != [] {
      match Find(text, "\n")
      case None => NoLineFeed(text); assert text == text + [] && LinesAre([], []) && [text][1..] == [];
      case Some(k) => LineFeedAt(text, k); LinesExactly(text[k + 1..]); FirstLine(text, text[..k], text[k + 1..], k);
    }
  }

  lemma LineFeeds(text: string)
    ensures forall i: nat :: OccursAt(text, "\n", i) <==> i < |text| && text[i] == '\n'
  {
    forall i: nat ensures OccursAt(text, "\n", i) <==> i < |text| && text[i] == '\n' {
      assert i < |text| ==> text[i..i + |"\n"|] == [text[i]];
    }
  }

  lemma NoLineFeed(text: string)
    requires Find(text, "\n").None?
    ensures '\n' !in text
  {
    LineFeeds(text);
  }

  lemma LineFeedAt(text: string, k: nat)
    requires Find(text, "\n") == Some(k)
    ensures '\n' !in text[..k] && text == text[..k] + "\n" + text[k + 1..]
  {
    LineFeeds(text);
    assert OccursAt(text, "\n", k);
    assert text[..k] + [text[k]] + text[k + 1..] == text;
  }

  lemma LinesCons(first: string, rest: string, tail: seq<string>)
    requires '\n' !in first && LinesAre(rest, tail)
    ensures LinesAre(first + "\r\n" + rest, [first] + tail)
    ensures first == [] || first[|first| - 1] != '\r' ==> LinesAre(first + "\n" + rest, [first] + tail)
  {
    assert ([first] + tail)[1..] == tail;
  }

  lemma ReturnStripped(line: string)
    ensures line != [] && line[|line| - 1] == '\r' ==> line + "\n" == StripReturn(line) + "\r\n"
  {
    if line != [] && line[|line| - 1] == '\r' {
      assert line == line[..|line| - 1] + "\r";
      assert line[..|line| - 1] + "\r" + "\n" == line[..|line| - 1] + "\r\n";
    }
  }

  lemma FirstLine(text: string, line: string, rest: string, k: nat)
    requires Find(text, "\n") == Some(k) && text[..k] == line && text[k + 1..] == rest
    requires '\n' !in line && text == line + "\n" + rest && LinesAre(rest, Lines(rest))
    ensures LinesAre(text, Lines(text))
  {
    LinesCons(StripReturn(line), rest, Lines(rest));
    ReturnStripped(line);
    assert Lines(text) == [StripReturn(line)] + Lines(rest);
  }

  lemma HeadingTextIs(line: string, mark: string, text: string)
    requires Trim(line) == mark + text && (mark == "# " || mark == "## ")
    ensures HeadingText(line) == Some(text)
  {
    var t := Trim(line);
    assert t[|mark|..] == text;
    if mark == "# " {
      assert t[1] == ' ' && "## "[1] == '#';
    }
  }

  lemma SameNormal(text: string, name: string)
    ensures SameHeading(text, name) <==> Normal(text) == Normal(name)
  {
    SameHeadingIs(text, name);
  }

  lemma ReadsTrimmed(line: string, w1: string, mark: string, text: string, w2: string)
    requires Reads(line, w1, mark, text, w2) && (mark == "# " || mark == "## ")
    ensures Trim(line) == mark + text
  {
    TrimFinds(w1, mark + text, w2);
  }

  lemma HeadingIsNamed(line: string, name: string, w1: string, mark: string, text: string, w2: string)
    requires Reads(line, w1, mark, text, w2) && (mark == "# " || mark == "## ") && Normal(text) == Normal(name)
    ensures Names(line, Normal(name))
  {
    ReadsTrimmed(line, w1, mark, text, w2);
    HeadingTextIs(line, mark, text);
  }

  lemma HeadingMark(t: string, text: string) returns (mark: string)
    requires Tight(t) && t != []
    requires if StartsWith(t, "## ") then text == t[3..] else StartsWith(t, "# ") && text == t[2..]
    ensures t == mark + text && (mark == "# " || mark == "## ") && text != [] && !IsWhitespace(text[|text| - 1])
  {
    mark := if StartsWith(t, "## ") then "## " else "# ";
    assert t[|mark| - 1] == ' ';
  }

  lemma NamedIsHeading(line: string, name: string)
    requires Names(line, Normal(name))
    ensures IsHeading(line, name)
  {
    var w1, w2 := TrimSplits(line);
    var t, text := Trim(line), HeadingText(line).value;
    SameNormal(text, name);
    var mark := HeadingMark(t, text);
    assert Reads(line, w1, mark, text, w2);
  }

  /** A line names a section as the code decides it exactly if it is a heading of that name. */
  lemma NamesIsHeading(line: string, name: string)
    ensures Names(line, Normal(name)) <==> IsHeading(line, name)
  {
    if Names(line, Normal(name)) {
      NamedIsHeading(line, name);
    }
    if IsHeading(line, name) {
      var w1, mark, text, w2 :|
        Reads(line, w1, mark, text, w2) && (mark == "# " || mark == "## ") && SameHeading(text, name);
      SameNormal(text, name);
      HeadingIsNamed(line, name, w1, mark, text, w2);
    }
  }

  lemma OpensWith(line: string, v: string, mark: string, rest: string)
    requires Blank(v) && line == v + (mark + rest) && (mark == "# " || mark == "## ")
    ensures StartsHeading(line)
  {
    TrimStartBehind(v, mark + rest);
  }

  lemma StartsOpens(line: string)
    requires StartsHeading(line)
    ensures OpensSection(line)
  {
    var w := TrimStartSplits(line);
    var t := TrimStart(line);
    if StartsWith(t, "## ") {
      assert Opens(line, w, t[3..]);
    } else {
      assert Opens(line, w, t[2..]);
    }
  }

  lemma StartsIsOpens(line: string)
    ensures StartsHeading(line) <==> OpensSection(line)
  {
    if StartsHeading(line) {
      StartsOpens(line);
    }
    if OpensSection(line) {
      var v, rest :| Opens(line, v, rest);
      OpensWith(line, v, if line == v + ("# " + rest) then "# " else "## ", rest);
    }
  }

  lemma JoinedCons(line: string, rest: seq<string>)
    ensures Joined([line] + rest) == line + "\n" + Joined(rest)
  {
    assert ([line] + rest)[1..] == rest;
  }

  /** The lines before the next heading. */
  lemma NextHeading(lines: seq<string>) returns (j: nat)
    ensures j <= |lines| && (forall k :: 0 <= k < j ==> !StartsHeading(lines[k]))
    ensures j < |lines| ==> StartsHeading(lines[j])
  {
    j := 0;
    while j < |lines| && !StartsHeading(lines[j])
      invariant j <= |lines| && forall k :: 0 <= k < j ==> !StartsHeading(lines[k])
    {
      j := j + 1;
    }
  }

  lemma {:induction false} BodyUpTo(lines: seq<string>, j: nat)
    requires j <= |lines| && (forall k :: 0 <= k < j ==> !StartsHeading(lines[k]))
    requires j < |lines| ==> StartsHeading(lines[j])
    ensures Body(lines) == Joined(lines[..j])
    decreases j
  {
    if j > 0 {
      var rest := lines[1..];
      assert forall k :: 0 <= k < |rest| ==> rest[k] == lines[k + 1];
      BodyUpTo(rest, j - 1);
      assert lines[..j] == [lines[0]] + rest[..j - 1];
      JoinedCons(lines[0], rest[..j - 1]);
    }
  }

  lemma {:induction false} FirstNamed(lines: seq<string>, needle: string) returns (i: nat)
    ensures i <= |lines| && (forall k :: 0 <= k < i ==> !Names(lines[k], needle))
    ensures i < |lines| ==> Names(lines[i], needle)
  {
    i := 0;
    while i < |lines| && !Names(lines[i], needle)
      invariant i <= |lines| && forall k :: 0 <= k < i ==> !Names(lines[k], needle)
    {
      i := i + 1;
    }
  }

  lemma {:induction false} SectionOfFirst(lines: seq<string>, needle: string, i: nat)
    requires i <= |lines| && forall k :: 0 <= k < i ==> !Names(lines[k], needle)
    ensures SectionOf(lines, needle) == SectionOf(lines[i..], needle)
    decreases i
  {
    if i == 0 {
      assert lines[0..] == lines;
    } else {
      assert forall k :: 0 <= k < i - 1 ==> lines[1..][k] == lines[k + 1];
      SectionOfFirst(lines[1..], needle, i - 1);
      SuffixOfSuffix(lines, 1, i - 1);
    }
  }

  lemma SpanFound(lines: seq<string>, rest: seq<string>, name: string, i: nat, j: nat)
    requires i < |lines| && rest == lines[i + 1..] && j <= |rest| && IsHeading(lines[i], name)
    requires forall k :: 0 <= k < i ==> !IsHeading(lines[k], name)
    requires (forall k :: 0 <= k < j ==> !StartsHeading(rest[k])) && (j < |rest| ==> StartsHeading(rest[j]))
    ensures SectionSpans(lines, name, i, i + 1 + j)
  {
    forall k | i < k < |lines| ensures OpensSection(lines[k]) <==> StartsHeading(rest[k - i - 1]) {
      StartsIsOpens(lines[k]);
    }
  }

  lemma SpanOf(lines: seq<string>, rest: seq<string>, name: string, i: nat) returns (j: nat)
    requires i < |lines| && rest == lines[i + 1..]
    requires IsHeading(lines[i], name) && forall k :: 0 <= k < i ==> !IsHeading(lines[k], name)
    ensures j <= |rest| && Body(rest) == Joined(rest[..j]) && SectionSpans(lines, name, i, i + 1 + j)
  {
    j := NextHeading(rest);
    BodyUpTo(rest, j);
    SpanFound(lines, rest, name, i, j);
  }

  lemma FirstHeading(lines: seq<string>, name: string) returns (i: nat)
    ensures i <= |lines| && (forall k :: 0 <= k < i ==> !IsHeading(lines[k], name))
    ensures if i == |lines| then SectionOf(lines, Normal(name)) == None
            else IsHeading(lines[i], name) && SectionOf(lines, Normal(name)) == Some(Trim(Body(lines[i + 1..])))
  {
    i := FirstNamed(lines, Normal(name));
    SectionOfFirst(lines, Normal(name), i);
    if i < |lines| {
      SuffixOfSuffix(lines, i, 1);
    }
    forall k | 0 <= k < |lines| ensures Names(lines[k], Normal(name)) <==> IsHeading(lines[k], name) {
      NamesIsHeading(lines[k], name);
    }
  }

  /** The section computed is the section that stands in the lines. */
  lemma SectionExactly(lines: seq<string>, name: string)
    ensures SectionIs(lines, name, SectionOf(lines, Normal(name)))
  {
    var i := FirstHeading(lines, name);
    if i < |lines| {
      var rest := lines[i + 1..];
      var n := SpanOf(lines, rest, name, i);
      SectionAt(lines, rest, name, i, n);
    }
  }

  // ----- extract_section, its loops -----

  lemma BodyStep(lines: seq<string>, i: nat, out: string)
    requires i < |lines| && !StartsHeading(lines[i])
    ensures out + Body(lines[i..]) == (out + lines[i] + "\n") + Body(lines[i + 1..])
  {
    assert lines[i..][1..] == lines[i + 1..];
  }

  method CollectBody(lines: seq<string>, from: nat) returns (out: string)
    requires from <= |lines|
    ensures out == Body(lines[from..])
  {
    out := "";
    var i := from;
    assert "" + Body(lines[from..]) == Body(lines[from..]);
    while i < |lines| && !StartsHeading(lines[i])
      invariant from <= i <= |lines| && out + Body(lines[i..]) == Body(lines[from..])
    {
      BodyStep(lines, i, out);
      out := out + lines[i] + "\n";
      i := i + 1;
    }
    assert out + [] == out;
  }

  /** What `extract_section` finds: a statement about the lines of the text. */
  lemma SectionMeans(content: string, name: string)
    ensures LinesAre(content, Lines(content)) && SectionIs(Lines(content), name, Section(content, name))
  {
    LinesExactly(content);
    SectionExactly(Lines(content), name);
  }

  method ExtractSection(content: string, name: string) returns (r: Option<string>)
    ensures r == Section(content, name)
    ensures LinesAre(content, Lines(content)) && SectionIs(Lines(content), name, r)
  {
    var needle := Normal(name);
    var lines := Lines(content);
    var i := 0;
    while i < |lines|
      invariant 0 <= i <= |lines| && SectionOf(lines, needle) == SectionOf(lines[i..], needle)
    {
      var line := lines[i];
      assert lines[i..][1..] == lines[i + 1..];
      i := i + 1;
      if Names(line, needle) {
        var body := CollectBody(lines, i);
        r := Some(Trim(body));
        SectionMeans(content, name);
        return;
      }
    }
    r := None;
    SectionMeans(content, name);
  }

  function CountLines(c: char, lines: seq<string>): nat {
    if lines == [] then 0 else Count(c, lines[0]) + CountLines(c, lines[1..])
  }

  lemma {:induction false} CountOfLines(c: char, s: string)
    ensures CountLines(c, Lines(s)) <= Count(c, s)
    decreases |s|
  {
    if s != [] {
      match Find(s, "\n")
      case None =>
      case Some(k) =>
        CountOfLines(c, s[k + 1..]);
        assert s == s[..k] + s[k..k + 1] + s[k + 1..];
        CountAppend(c, s[..k] + s[k..k + 1], s[k + 1..]);
        CountAppend(c, s[..k], s[k..k + 1]);
        assert Lines(s)[1..] == Lines(s[k + 1..]);
    }
  }

  lemma {:induction false} CountOfBody(c: char, lines: seq<string>)
    requires c != '\n'
    ensures Count(c, Body(lines)) <= CountLines(c, lines)
  {
    if lines != [] && !StartsHeading(lines[0]) {
      CountOfBody(c, lines[1..]);
      CountAppend(c, lines[0] + "\n", Body(lines[1..]));
      CountAppend(c, lines[0], "\n");
      assert Count(c, "\n") == 0 by { assert "\n"[..0] == []; }
    }
  }

  lemma {:induction false} CountOfSectionOf(c: char, lines: seq<string>, needle: string)
    requires c != '\n' && SectionOf(lines, needle).Some?
    ensures Count(c, SectionOf(lines, needle).value) <= CountLines(c, lines)
  {
    if Names(lines[0], needle) {
      var body := Body(lines[1..]);
      CountOfBody(c, lines[1..]);
      CountTrimStart(c, body);
      CountTrimEnd(c, TrimStart(body));
    } else {
      CountOfSectionOf(c, lines[1..], needle);
    }
  }

  /** A section has no more of any character than the text it is taken from. */
  lemma CountOfSection(c: char, content: string, name: string)
    requires c != '\n' && Section(content, name).Some?
    ensures Count(c, Section(content, name).value) <= Count(c, content)
  {
    CountOfSectionOf(c, Lines(content), Normal(name));
    CountOfLines(c, content);
  }

  // ----- The section loop -----

  /** The section a marker body names. */
  function SectionName(body: string): string {
    Trim(TrimEndChar(TrimEndChar(TrimStartChar(Trim(body), '['), ']'), ':'))
  }

  function Replacement(body: string, item: Option<WorkItem>): string {
    match item
    case None => ""
    case Some(wi) =>
      match Section(wi.content, SectionName(body))
      case None => ""
      case Some(text) => text
  }

  /** Where the first section marker starts and where its closing braces start. */
  function FirstMarker(out: string): (r: Option<(nat, nat)>)
    ensures r.Some? ==> OccursAt(out, MARK, r.value.0) && OccursAt(out, "}}", r.value.1)
                        && r.value.0 + |MARK| <= r.value.1 && r.value.1 + 2 <= |out|
  {
    match Find(out, MARK)
    case None => None
    case Some(start) =>
      match FindFrom(out, "}}", start)
      case None => None
      case Some(e) => MarkHasNoBrace(out, start, e); Some((start, e))
  }

  /** The closing braces found lie behind the marker's own text. */
  lemma MarkHasNoBrace(out: string, start: nat, e: nat)
    requires OccursAt(out, MARK, start) && OccursAt(out, "}}", e) && start <= e
    ensures start + |MARK| <= e
  {
    OccursIndex(out, "}}", e, 0);
    forall k | start <= k < start + |MARK| ensures out[k] != '}' {
      OccursIndex(out, MARK, start, k - start);
    }
  }

  /** One turn of the loop; `None` when it stops. */
  function SectionStep(out: string, item: Option<WorkItem>): Option<string> {
    var m := FirstMarker(out);
    if m.None? then None
    else
      Some(out[..m.value.0] + Replacement(out[m.value.0 + |MARK|..m.value.1], item) + out[m.value.1 + 2..])
  }

  /** No section marker is closed: no `}}` follows any of them. */
  ghost predicate NoClosedMarker(out: string) {
    forall i: nat, j: nat :: OccursAt(out, MARK, i) && i <= j ==> !OccursAt(out, "}}", j)
  }

  /** The loop stops exactly when no closed marker is left. */
  lemma StopsWithoutMarkers(out: string, item: Option<WorkItem>)
    ensures SectionStep(out, item).None? <==> NoClosedMarker(out)
  {
    if FirstMarker(out).Some? {
      var start, e := FirstMarker(out).value.0, FirstMarker(out).value.1;
      assert OccursAt(out, MARK, start) && start <= e && OccursAt(out, "}}", e);
    }
  }

  lemma CountOfPieces(c: char, a: string, b: string, d: string)
    ensures Count(c, a + b + d) == Count(c, a) + Count(c, b) + Count(c, d)
  {
    CountAppend(c, a + b, d);
    CountAppend(c, a, b);
  }

  lemma MarkerShape(out: string, start: nat, e: nat)
    requires OccursAt(out, MARK, start) && OccursAt(out, "}}", e) && start + |MARK| <= e
    ensures out == out[..start] + (MARK + out[start + |MARK|..e] + "}}") + out[e + 2..]
  {
    assert out[start..start + |MARK|] == MARK && out[e..e + |"}}"|] == "}}";
    assert out[start..e + 2] == MARK + out[start + |MARK|..e] + "}}";
  }

  /** A turn takes the characters of one marker out and puts those of one section in. */
  lemma TurnCounts(c: char, out: string, start: nat, e: nat, text: string)
    requires OccursAt(out, MARK, start) && OccursAt(out, "}}", e) && start + |MARK| <= e
    ensures Count(c, out[..start] + text + out[e + 2..]) + Count(c, MARK + "}}") <= Count(c, out) + Count(c, text)
  {
    var body := out[start + |MARK|..e];
    MarkerShape(out, start, e);
    CountOfPieces(c, out[..start], MARK + body + "}}", out[e + 2..]);
    CountOfPieces(c, out[..start], text, out[e + 2..]);
    CountOfPieces(c, MARK, body, "}}");
    CountAppend(c, MARK, "}}");
  }

  function Turn(item: Option<WorkItem>): string -> Option<string> {
    s => SectionStep(s, item)
  }

  /** `n` turns of the loop, if it does not stop before. */
  function Turns(text: string, item: Option<WorkItem>, n: nat): Option<string> {
    Iterate(Turn(item), text, n)
  }

  /** The loop comes to an end. */
  ghost predicate Stops(text: string, item: Option<WorkItem>) {
    Halts(Turn(item), text)
  }

  /** The loop, for every text and work item on which it ends. */
  method SubstituteSections(text: string, item: Option<WorkItem>) returns (out: string)
    requires Stops(text, item)
    ensures NoClosedMarker(out)
    ensures exists n: nat :: Turns(text, item, n) == Some(out)
  {
    out := text;
    ghost var n: nat, bound: nat := 0, 0;
    bound :| Iterate(Turn(item), text, bound).None?;
    while true
      invariant Turns(text, item, n) == Some(out) && n < bound
      decreases bound - n
    {
      StopsWithoutMarkers(out, item);
      var next := SectionStep(out, item);
      if next.None? {
        return;
      }
      assert Turns(text, item, n + 1) == next;
      if bound <= n + 1 {
        StaysHalted(Turn(item), text, bound, n + 1);
      }
      out, n := next.value, n + 1;
    }
  }

  // ----- When the loop stops on every text -----

  /** Every section has fewer `c` than one marker needs: the sections cannot supply markers for ever. */
  ghost predicate Scarce(c: char, item: Option<WorkItem>) {
    forall body :: Count(c, Replacement(body, item)) < Count(c, MARK + "}}")
  }

  lemma TurnDecreases(c: char, out: string, start: nat, e: nat, text: string, next: string)
    requires OccursAt(out, MARK, start) && OccursAt(out, "}}", e) && start + |MARK| <= e
    requires next == out[..start] + text + out[e + 2..] && Count(c, text) < Count(c, MARK + "}}")
    ensures Count(c, next) < Count(c, out)
  {
    TurnCounts(c, out, start, e, text);
  }

  /** A turn, by the parts of the text it keeps, drops and puts in. */
  lemma StepParts(out: string, item: Option<WorkItem>, next: string)
    returns (start: nat, e: nat, body: string, text: string)
    requires SectionStep(out, item) == Some(next)
    ensures OccursAt(out, MARK, start) && OccursAt(out, "}}", e) && start + |MARK| <= e
    ensures text == Replacement(body, item) && next == out[..start] + text + out[e + 2..]
  {
    start, e := FirstMarker(out).value.0, FirstMarker(out).value.1;
    body := out[start + |MARK|..e];
    text := Replacement(body, item);
  }

  /** Under that condition every turn makes progress. */
  lemma StepDecreases(c: char, out: string, item: Option<WorkItem>, next: string)
    requires Scarce(c, item) && SectionStep(out, item) == Some(next)
    ensures Count(c, next) < Count(c, out)
  {
    var start, e, body, text := StepParts(out, item, next);
    TurnDecreases(c, out, start, e, text, next);
  }

  function Counter(c: char): string -> nat { s => Count(c, s) }

  lemma TurnsDecrease(c: char, item: Option<WorkItem>)
    requires Scarce(c, item)
    ensures Falls(Turn(item), Counter(c))
  {
    forall s | Turn(item)(s).Some? ensures Count(c, Turn(item)(s).value) < Count(c, s) {
      StepDecreases(c, s, item, Turn(item)(s).value);
    }
  }

  lemma HaltsWithin(text: string, item: Option<WorkItem>, measure: string -> nat, n: nat)
    requires Falls(Turn(item), measure) && measure(text) == n
    ensures Turns(text, item, n + 1).None? && Stops(text, item)
  {
    MeasuredHalts(Turn(item), measure, text, n);
  }

  /** The loop stops on every text, after no more turns than the text has of the scarce character. */
  lemma ScarceStops(c: char, text: string, item: Option<WorkItem>)
    requires Scarce(c, item)
    ensures Turns(text, item, Count(c, text) + 1).None? && Stops(text, item)
  {
    TurnsDecrease(c, item);
    HaltsWithin(text, item, Counter(c), Count(c, text));
  }

  lemma {:induction false} CountAbsent(c: char, s: string)
    requires c !in s
    ensures Count(c, s) == 0
  {
    if s != [] {
      assert forall x :: x in s[..|s| - 1] ==> x in s;
      CountAbsent(c, s[..|s| - 1]);
    }
  }

  lemma CountPair(c: char)
    ensures Count(c, [c, c]) == 2
  {
    assert [c][..0] == [] && Count(c, [c]) == 1;
    assert [c, c][..1] == [c];
    assert Count(c, [c, c]) == Count(c, [c, c][..1]) + 1;
  }

  /** The parts of a marker that hold braces and colons. */
  lemma MarkerParts(c: char)
    requires c !in "work_item_section"
    ensures Count(c, MARK + "}}") == Count(c, "{{") + Count(c, ":") + Count(c, "}}")
  {
    var name := "work_item_section";
    CountAbsent(c, name);
    assert MARK == "{{" + name + ":";
    CountOfPieces(c, "{{", name, ":");
    CountAppend(c, MARK, "}}");
  }

  /** A marker needs two of each brace and one colon. */
  lemma MarkerNeeds()
    ensures Count('{', MARK + "}}") == 2 && Count('}', MARK + "}}") == 2 && Count(':', MARK + "}}") == 1
  {
    MarkerParts('{');
    MarkerParts('}');
    MarkerParts(':');
    CountPair('{');
    CountPair('}');
    assert ":"[..0] == [];
    CountAbsent('{', ":");
    CountAbsent('{', "}}");
    CountAbsent('}', ":");
    CountAbsent('}', "{{");
    CountAbsent(':', "{{");
    CountAbsent(':', "}}");
  }

  /** Without a work item every marker is replaced by nothing, and the loop stops on every text. */
  lemma NoItemStops(text: string)
    ensures Stops(text, None)
  {
    MarkerNeeds();
    ScarceStops('{', text, None);
  }

  /** The same condition over the headings of the work item. */
  predicate ScarceUnderHeadings(c: char, lines: seq<string>) {
    forall i :: 0 <= i < |lines| && HeadingText(lines[i]).Some? ==>
                  Count(c, Trim(Body(lines[i + 1..]))) < Count(c, MARK + "}}")
  }

  lemma {:induction false} SectionIsUnderHeading(lines: seq<string>, needle: string) returns (i: nat)
    requires SectionOf(lines, needle).Some?
    ensures i < |lines| && HeadingText(lines[i]).Some? && SectionOf(lines, needle) == Some(Trim(Body(lines[i + 1..])))
  {
    if Names(lines[0], needle) {
      i := 0;
    } else {
      var j := SectionIsUnderHeading(lines[1..], needle);
      assert SectionOf(lines, needle) == SectionOf(lines[1..], needle);
      SuffixOfSuffix(lines, 1, j + 1);
      i := j + 1;
    }
  }

  lemma HeadingsDecide(c: char, item: WorkItem)
    requires c in MARK + "}}" && ScarceUnderHeadings(c, Lines(item.content))
    ensures Scarce(c, Some(item))
  {
    CountPresent(c, MARK + "}}");
    forall body ensures Count(c, Replacement(body, Some(item))) < Count(c, MARK + "}}") {
      if Section(item.content, SectionName(body)).Some? {
        var i := SectionIsUnderHeading(Lines(item.content), Normal(SectionName(body)));
      }
    }
  }

  lemma {:induction false} CountPresent(c: char, s: string)
    requires c in s
    ensures Count(c, s) > 0
  {
    if s[|s| - 1] != c {
      var k :| 0 <= k < |s| && s[k] == c;
      assert s[..|s| - 1][k] == c;
      CountPresent(c, s[..|s| - 1]);
    }
  }

  /** In particular a work item whose whole content is short of the character. */
  lemma ContentDecides(c: char, item: WorkItem)
    requires Count(c, item.content) < Count(c, MARK + "}}")
    ensures Scarce(c, Some(item))
  {
    if c == '\n' {
      CountAbsent(c, MARK + "}}");
    }
    forall body ensures Count(c, Replacement(body, Some(item))) < Count(c, MARK + "}}") {
      if Section(item.content, SectionName(body)).Some? {
        CountOfSection(c, item.content, SectionName(body));
      }
    }
  }

  // ----- Sections that cannot complete a marker -----

  /** How often two characters `c` stand next to each other; three in a row count twice. */
  function Pairs(c: char, s: string): nat {
    if |s| < 2 then 0
    else Pairs(c, s[..|s| - 1]) + if s[|s| - 2] == c && s[|s| - 1] == c then 1 else 0
  }

  /** The pair that arises where two texts meet. */
  function Joint(c: char, s: string, t: string): nat {
    if s != [] && t != [] && s[|s| - 1] == c && t[0] == c then 1 else 0
  }

  lemma {:induction false} PairsAppend(c: char, s: string, t: string)
    ensures Pairs(c, s + t) == Pairs(c, s) + Pairs(c, t) + Joint(c, s, t)
    decreases |t|
  {
    if t == [] {
      assert s + t == s;
    } else {
      var front := t[..|t| - 1];
      assert (s + t)[..|s + t| - 1] == s + front;
      PairsAppend(c, s, front);
    }
  }

  lemma PairsOfThree(c: char, a: string, b: string, d: string)
    requires b != []
    ensures Pairs(c, a + b + d) == Pairs(c, a) + Pairs(c, b) + Pairs(c, d) + Joint(c, a, b) + Joint(c, b, d)
  {
    PairsAppend(c, a + b, d);
    PairsAppend(c, a, b);
    assert (a + b)[|a + b| - 1] == b[|b| - 1];
  }

  /** A marker is worth a pair of closing braces at its end and one of opening braces at its start. */
  lemma PairsOfMarker(body: string)
    ensures Pairs('}', MARK + body + "}}") >= 1 && Pairs('{', MARK + body + "}}") >= 1
  {
    PairsAppend('}', MARK + body, "}}");
    var rest := MARK[2..] + body + "}}";
    assert MARK + body + "}}" == "{{" + rest;
    PairsAppend('{', "{{", rest);
  }

  /** The text neither holds a pair of closing braces nor can complete one in front of it. */
  predicate CannotClose(text: string) { Pairs('}', text) == 0 && (text == [] || text[0] != '}') }

  /** The text neither holds a pair of opening braces nor can begin one behind it. */
  predicate CannotOpen(text: string) { Pairs('{', text) == 0 && (text == [] || text[|text| - 1] != '{') }

  predicate HasPair(c: char, s: string, i: nat) { i + 1 < |s| && s[i] == c && s[i + 1] == c }

  lemma PairAt(c: char, s: string, i: nat)
    ensures OccursAt(s, [c, c], i) <==> HasPair(c, s, i)
  {
    assert i + 1 < |s| ==> s[i..i + |[c, c]|] == [s[i], s[i + 1]];
  }

  lemma {:induction false} PairsAreNeighbours(c: char, s: string)
    ensures Pairs(c, s) == 0 <==> forall i: nat :: !HasPair(c, s, i)
  {
    if |s| < 2 {
      assert forall i: nat :: !HasPair(c, s, i);
    } else {
      var front, last := s[..|s| - 1], |s| - 2;
      PairsAreNeighbours(c, front);
      assert Pairs(c, s) == Pairs(c, front) + if HasPair(c, s, last) then 1 else 0;
      assert forall i: nat :: HasPair(c, s, i) <==> HasPair(c, front, i) || (i == last && HasPair(c, s, last));
    }
  }

  lemma PairsAreOccurrences(c: char, s: string)
    ensures Pairs(c, s) == 0 <==> !Contains(s, [c, c])
  {
    PairsAreNeighbours(c, s);
    forall i: nat ensures OccursAt(s, [c, c], i) <==> HasPair(c, s, i) {
      PairAt(c, s, i);
    }
  }

  /** Taking a marker out loses more pairs than putting such a text in its place can bring. */
  lemma PairsFall(c: char, a: string, marker: string, text: string, d: string)
    requires marker != [] && Pairs(c, marker) >= 1 && Pairs(c, text) == 0
    requires (marker[|marker| - 1] == c && (text == [] || text[0] != c))
             || (marker[0] == c && (text == [] || text[|text| - 1] != c))
    ensures Pairs(c, a + text + d) < Pairs(c, a + marker + d)
  {
    PairsOfThree(c, a, marker, d);
    if text == [] {
      assert a + text == a;
      PairsAppend(c, a, d);
    } else {
      PairsOfThree(c, a, text, d);
    }
  }

  lemma CannotCloseDecreases(out: string, item: Option<WorkItem>, next: string)
    requires SectionStep(out, item) == Some(next) && forall body :: CannotClose(Replacement(body, item))
    ensures Pairs('}', next) < Pairs('}', out)
  {
    var start, e, body, text := StepParts(out, item, next);
    MarkerShape(out, start, e);
    PairsOfMarker(out[start + |MARK|..e]);
    PairsFall('}', out[..start], MARK + out[start + |MARK|..e] + "}}", text, out[e + 2..]);
  }

  lemma CannotOpenDecreases(out: string, item: Option<WorkItem>, next: string)
    requires SectionStep(out, item) == Some(next) && forall body :: CannotOpen(Replacement(body, item))
    ensures Pairs('{', next) < Pairs('{', out)
  {
    var start, e, body, text := StepParts(out, item, next);
    MarkerShape(out, start, e);
    PairsOfMarker(out[start + |MARK|..e]);
    assert MARK[0] == '{';
    PairsFall('{', out[..start], MARK + out[start + |MARK|..e] + "}}", text, out[e + 2..]);
  }

  function PairCounter(c: char): string -> nat { s => Pairs(c, s) }

  /** If no section can complete the end of a marker, or none the start, the loop stops on every text. */
  lemma UnpairedStops(text: string, item: Option<WorkItem>)
    requires (forall body :: CannotClose(Replacement(body, item)))
             || (forall body :: CannotOpen(Replacement(body, item)))
    ensures Stops(text, item)
  {
    if forall body :: CannotClose(Replacement(body, item)) {
      forall s | Turn(item)(s).Some? ensures Pairs('}', Turn(item)(s).value) < Pairs('}', s) {
        CannotCloseDecreases(s, item, Turn(item)(s).value);
      }
      HaltsWithin(text, item, PairCounter('}'), Pairs('}', text));
    } else {
      forall s | Turn(item)(s).Some? ensures Pairs('{', Turn(item)(s).value) < Pairs('{', s) {
        CannotOpenDecreases(s, item, Turn(item)(s).value);
      }
      HaltsWithin(text, item, PairCounter('{'), Pairs('{', text));
    }
  }

  // ----- A section that contains its own marker -----

  /** The marker of section A. */
  const OWN := "{{work_item_section:A}}"

  /** A work item whose section A reads `body`. */
  function SelfItem(body: string): Option<WorkItem> {
    Some(WorkItem(1, "# A\n" + body))
  }

  /** A one-line text that is no heading and has no white space at its ends. */
  predicate IsPlainLine(body: string) {
    && body != [] && '\n' !in body && body[0] == '{'
    && !IsWhitespace(body[|body| - 1])
  }

  lemma TrimPlain(s: string)
    requires s != [] && !IsWhitespace(s[0]) && !IsWhitespace(s[|s| - 1])
    ensures Trim(s) == s
  {
  }

  lemma LinesOfPlain(body: string)
    requires IsPlainLine(body)
    ensures Lines("# A\n" + body) == ["# A", body]
  {
    var s := "# A\n" + body;
    assert s[3..3 + |"\n"|] == "\n";
    assert OccursAt(s, "\n", 3);
    forall i: nat | i < 3 ensures !OccursAt(s, "\n", i) {
      if OccursAt(s, "\n", i) {
        OccursIndex(s, "\n", i, 0);
      }
    }
    assert Find(s, "\n") == Some(3);
    assert s[..3] == "# A" && s[4..] == body;
    forall i: nat ensures !OccursAt(body, "\n", i) {
      if OccursAt(body, "\n", i) {
        OccursIndex(body, "\n", i, 0);
      }
    }
    assert Find(body, "\n") == None;
    assert Lines(body) == [body];
  }

  lemma SectionOfPlain(body: string)
    requires IsPlainLine(body)
    ensures Section("# A\n" + body, "A") == Some(body)
  {
    LinesOfPlain(body);
    var lines := ["# A", body];
    TrimPlain("# A");
    TrimPlain("A");
    assert "# A"[2..] == "A" && "# "  <= "# A" && !("## " <= "# A");
    assert HeadingText(lines[0]) == Some("A");
    assert Names(lines[0], Normal("A"));
    assert lines[1..] == [body];
    PlainIsBody(body);
  }

  lemma PlainIsBody(body: string)
    requires IsPlainLine(body)
    ensures HeadingText(body).None? && Trim(Body([body])) == body
  {
    TrimPlain(body);
    assert TrimStart(body) == body && !StartsHeading(body);
    assert [body][1..] == [] && Body([body]) == body + "\n" + [];
    TrimLineEnd(body);
  }

  lemma TrimLineEnd(s: string)
    requires s != [] && !IsWhitespace(s[0]) && !IsWhitespace(s[|s| - 1])
    ensures Trim(s + "\n" + []) == s
  {
    var t := s + "\n" + [];
    assert t[0] == s[0] && TrimStart(t) == t;
    assert t[|t| - 1] == '\n' && IsWhitespace('\n') && t[..|t| - 1] == s;
    assert TrimEnd(t) == TrimEnd(s);
  }

  lemma OwnMarkerFirst(rest: string)
    ensures FirstMarker(OWN + rest) == Some((0, 21))
  {
    var out := OWN + rest;
    assert out[0..|MARK|] == MARK && OccursAt(out, MARK, 0);
    assert out[21..21 + |"}}"|] == "}}";
    assert OccursAt(out, "}}", 21);
    forall i: nat | i < 21 ensures !OccursAt(out, "}}", i) {
      if OccursAt(out, "}}", i) {
        OccursIndex(out, "}}", i, 0);
      }
    }
  }

  lemma OwnSlices(rest: string)
    ensures (OWN + rest)[|MARK|..21] == "A" && (OWN + rest)[23..] == rest
  {
  }

  lemma OwnReplacement(tail: string)
    requires IsPlainLine(OWN + tail)
    ensures Replacement("A", SelfItem(OWN + tail)) == OWN + tail
  {
    TrimPlain("A");
    assert SectionName("A") == "A";
    SectionOfPlain(OWN + tail);
  }

  lemma OwnMarkerStep(body: string, item: Option<WorkItem>, rest: string, out: string)
    requires Replacement("A", item) == body && out == OWN + rest
    ensures SectionStep(out, item) == Some(body + rest)
  {
    OwnMarkerFirst(rest);
    OwnSlices(rest);
    StepAtStart(out, item, 21, "A", rest);
  }

  lemma StepAtStart(out: string, item: Option<WorkItem>, e: nat, name: string, rest: string)
    requires FirstMarker(out) == Some((0, e)) && out[|MARK|..e] == name && out[e + 2..] == rest
    ensures SectionStep(out, item) == Some(Replacement(name, item) + rest)
  {
    assert out[..0] + Replacement(name, item) == Replacement(name, item);
  }

  function Repeat(s: string, n: nat): string {
    if n == 0 then [] else s + Repeat(s, n - 1)
  }

  /** The text after `n` turns. */
  function Grown(tail: string, rest: string, n: nat): string {
    OWN + (Repeat(tail, n) + rest)
  }

  lemma GrownTurn(tail: string, rest: string, n: nat)
    ensures Grown(tail, rest, n + 1) == OWN + tail + (Repeat(tail, n) + rest)
  {
    Assoc(tail, Repeat(tail, n), rest);
    Assoc(OWN, tail, Repeat(tail, n) + rest);
  }

  lemma SelfReferenceTurn(tail: string, rest: string, n: nat)
    requires IsPlainLine(OWN + tail)
    ensures SectionStep(Grown(tail, rest, n), SelfItem(OWN + tail)) == Some(Grown(tail, rest, n + 1))
  {
    GrownTurn(tail, rest, n);
    OwnReplacement(tail);
    OwnMarkerStep(OWN + tail, SelfItem(OWN + tail), Repeat(tail, n) + rest, Grown(tail, rest, n));
  }

  /**
   Without that condition the loop need not stop: when section A starts with
   its own marker, every turn keeps the marker and adds the rest of the section
   once more.
   */
  lemma {:induction false} SelfReferenceGrows(tail: string, rest: string, n: nat)
    requires IsPlainLine(OWN + tail)
    ensures Turns(OWN + rest, SelfItem(OWN + tail), n) == Some(Grown(tail, rest, n))
  {
    if n == 0 {
      assert [] + rest == rest;
    } else {
      SelfReferenceGrows(tail, rest, n - 1);
      SelfReferenceTurn(tail, rest, n - 1);
    }
  }

  lemma SelfReferenceNeverStops(tail: string, rest: string)
    requires IsPlainLine(OWN + tail)
    ensures forall n: nat :: Turns(OWN + rest, SelfItem(OWN + tail), n) == Some(Grown(tail, rest, n))
    ensures !Stops(OWN + rest, SelfItem(OWN + tail))
  {
    var item := SelfItem(OWN + tail);
    forall n: nat
      ensures Turns(OWN + rest, item, n) == Some(Grown(tail, rest, n)) && Iterate(Turn(item), OWN + rest, n).Some?
    {
      SelfReferenceGrows(tail, rest, n);
    }
  }

  /**
   The bound is sharp for every character of a marker at once: sections that
   have exactly as many as a marker needs already let the loop run for ever.
   */
  lemma BoundIsSharp(rest: string)
    ensures !Stops(OWN + rest, SelfItem(OWN))
    ensures forall c, body :: c != 'A' ==> Count(c, Replacement(body, SelfItem(OWN))) <= Count(c, MARK + "}}")
  {
    assert OWN + [] == OWN;
    SelfReferenceNeverStops([], rest);
    forall c, body | c != 'A' ensures Count(c, Replacement(body, SelfItem(OWN))) <= Count(c, MARK + "}}") {
      CountAbsent(c, "A");
      CountOfPieces(c, MARK, "A", "}}");
      CountAppend(c, MARK, "}}");
      assert OWN == MARK + "A" + "}}";
      OwnSections(Normal(SectionName(body)));
    }
  }

  lemma HeadingAndBody(head: string, body: string, needle: string)
    requires HeadingText(body).None? && Trim(Body([body])) == body
    ensures var text := SectionOf([head, body], needle); text == None || text == Some(body)
  {
    assert [head, body][1..] == [body] && [body][1..] == [];
    assert SectionOf([body], needle) == SectionOf([], needle) == None;
  }

  lemma OwnSections(needle: string)
    ensures var text := SectionOf(Lines("# A\n" + OWN), needle); text == None || text == Some(OWN)
  {
    LinesOfPlain(OWN);
    PlainIsBody(OWN);
    HeadingAndBody("# A", OWN, needle);
  }

  // ----- replace_token -----

  function ReplaceAll(input: string, token: string, value: string): string
    requires token != []
    decreases |input|
  {
    match Find(input, token)
    case None => input
    case Some(k) => input[..k] + value + ReplaceAll(input[k + |token|..], token, value)
  }

  lemma ReplaceFirst(out: string, rest: string, token: string, value: string)
    requires token != [] && Find(rest, token).Some?
    ensures var k := Find(rest, token).value;
            out + ReplaceAll(rest, token, value) ==
            (out + rest[..k] + value) + ReplaceAll(rest[k + |token|..], token, value)
  {
    var k := Find(rest, token).value;
    Regroup(out, rest[..k], value, ReplaceAll(rest[k + |token|..], token, value));
  }

  lemma Regroup(a: string, b: string, c: string, d: string)
    ensures a + (b + c + d) == (a + b + c) + d
  {
    Assoc(a, b + c, d);
    Assoc(a, b, c);
  }

  method ReplaceToken(input: string, token: string, value: string) returns (out: string)
    requires token != []
    ensures out == ReplaceAll(input, token, value)
  {
    out := "";
    var rest := input;
    assert "" + ReplaceAll(input, token, value) == ReplaceAll(input, token, value);
    while true
      invariant out + ReplaceAll(rest, token, value) == ReplaceAll(input, token, value)
      decreases |rest|
    {
      var k := Find(rest, token);
      if k.None? {
        break;
      }
      ReplaceFirst(out, rest, token, value);
      out := out + rest[..k.value] + value;
      rest := rest[k.value + |token|..];
    }
    out := out + rest;
  }

  function Join(pieces: seq<string>, glue: string): string
    requires pieces != []
  {
    if |pieces| == 1 then pieces[0] else pieces[0] + glue + Join(pieces[1..], glue)
  }

  /** Every occurrence, taken from the left, is replaced and nothing else: no piece between holds the token. */
  lemma {:induction false} ReplaceAllReplaces(input: string, token: string, value: string) returns (pieces: seq<string>)
    requires token != []
    ensures pieces != [] && input == Join(pieces, token) && ReplaceAll(input, token, value) == Join(pieces, value)
    ensures forall p :: p in pieces ==> !Contains(p, token)
    decreases |input|
  {
    match Find(input, token)
    case None => pieces := [input];
    case Some(k) =>
      var rest := ReplaceAllReplaces(input[k + |token|..], token, value);
      pieces := [input[..k]] + rest;
      assert pieces[1..] == rest;
      assert input[k..k + |token|] == token;
      assert input == input[..k] + token + input[k + |token|..];
      NoTokenBefore(input, token, k);
  }

  lemma NoTokenBefore(input: string, token: string, k: nat)
    requires token != [] && Find(input, token) == Some(k)
    ensures !Contains(input[..k], token)
  {
    forall i: nat ensures !OccursAt(input[..k], token, i) {
      if OccursAt(input[..k], token, i) {
        assert input[i..i + |token|] == input[..k][i..i + |token|];
        assert OccursAt(input, token, i);
      }
    }
  }

  // ----- substitute_prompt -----

  datatype Substitution = Substitution(rendered: string, warned: bool)

  function Padded(n: nat): string {
    var s := EventReplay.PrintNat(n);
    if |s| >= 4 then s else Zeros(4 - |s|) + s
  }

  function Zeros(n: nat): string { if n == 0 then [] else "0" + Zeros(n - 1) }

  function TokensReplaced(template: string, item: Option<WorkItem>): string {
    var number := if item.None? then "" else Padded(item.value.number);
    var bare := if item.None? then "" else EventReplay.PrintNat(item.value.number);
    var content := if item.None? then "" else item.value.content;
    var s1 := ReplaceAll(template, "{{work_item_number}}", number);
    var s2 := ReplaceAll(s1, "{{work_item}}", bare);
    ReplaceAll(s2, "{{work_item_content}}", content)
  }

  lemma NoStart(s: string, token: string, value: string)
    requires token != [] && token[0] !in s
    ensures ReplaceAll(s, token, value) == s
  {
    forall i: nat ensures !OccursAt(s, token, i) {
      StartsAlike(s, token, i);
    }
  }

  lemma TokenFound(a: string, token: string, b: string)
    requires token != [] && token[0] !in a
    ensures Find(a + token + b, token) == Some(|a|)
  {
    var s := a + token + b;
    assert s[|a|..|a| + |token|] == token;
    assert OccursAt(s, token, |a|);
    forall i: nat | i < |a| ensures !OccursAt(s, token, i) {
      assert s[i] == a[i];
      StartsAlike(s, token, i);
    }
  }

  lemma OneReplaced(a: string, token: string, b: string, value: string)
    requires token != [] && token[0] !in a && token[0] !in b
    ensures ReplaceAll(a + token + b, token, value) == a + value + b
  {
    var s := a + token + b;
    TokenFound(a, token, b);
    assert s[..|a|] == a && s[|a| + |token|..] == b;
    NoStart(b, token, value);
  }

  lemma OccursLater(a: string, rest: string, token: string, i: nat)
    requires |a| <= i
    ensures OccursAt(a + rest, token, i) <==> OccursAt(rest, token, i - |a|)
  {
    if i + |token| <= |a + rest| {
      assert (a + rest)[i..i + |token|] == rest[i - |a|..i - |a| + |token|];
    }
  }

  /** A token of another name is left alone. */
  lemma OtherKept(a: string, other: string, b: string, token: string, value: string)
    requires token != [] && token[0] !in a && Find(other + b, token).None?
    ensures ReplaceAll(a + other + b, token, value) == a + other + b
  {
    var s := a + other + b;
    Assoc(a, other, b);
    forall i: nat ensures !OccursAt(s, token, i) {
      if i < |a| {
        assert s[i] == a[i];
        StartsAlike(s, token, i);
      } else {
        OccursLater(a, other + b, token, i);
      }
    }
  }

  /** One placeholder does not contain another. */
  lemma NotWithin(other: string, b: string, token: string)
    requires |other| >= 2 && '{' !in other[2..] && '{' !in b
    requires |token| >= 2 && token[0] == token[1] == '{' && !(token <= other + b)
    ensures Find(other + b, token).None?
  {
    var s := other + b;
    assert s[2..] == other[2..] + b;
    forall i: nat ensures !OccursAt(s, token, i) {
      StartsAlike(s, token, i);
      assert 0 < i < |s| - 1 ==> s[i + 1] == s[2..][i - 1];
    }
  }

  lemma {:induction false} PrintedNoBrace(n: nat)
    ensures '{' !in EventReplay.PrintNat(n) && '{' !in Padded(n)
  {
    EventReplay.PrintedDigits(n);
    var s := EventReplay.PrintNat(n);
    assert forall c :: c in s ==> c != '{';
    ZerosAre(if |s| >= 4 then 0 else 4 - |s|);
  }

  lemma {:induction false} ZerosAre(n: nat)
    ensures |Zeros(n)| == n && forall i :: 0 <= i < n ==> Zeros(n)[i] == '0'
  {
    if n > 0 {
      ZerosAre(n - 1);
    }
  }

  /** The number in at least four places: zeros, as many as are missing, and the digits. */
  lemma PaddedIs(n: nat)
    ensures var s, p := EventReplay.PrintNat(n), Padded(n);
            && |p| == (if |s| < 4 then 4 else |s|) && p[|p| - |s|..] == s
            && forall i :: 0 <= i < |p| - |s| ==> p[i] == '0'
  {
    var s := EventReplay.PrintNat(n);
    if |s| < 4 {
      ZerosAre(4 - |s|);
    }
  }

  /** `{{work_item_number}}` reads as the padded number. */
  lemma NumberRendered(a: string, b: string, item: WorkItem)
    requires '{' !in a && '{' !in b
    ensures TokensReplaced(a + "{{work_item_number}}" + b, Some(item)) == a + Padded(item.number) + b
    ensures TokensReplaced(a + "{{work_item_number}}" + b, None) == a + "" + b
  {
    PrintedNoBrace(item.number);
    PlainAfterNumber(a, Padded(item.number), b, Some(item));
    PlainAfterNumber(a, "", b, None);
  }

  lemma PlainAfterNumber(a: string, number: string, b: string, item: Option<WorkItem>)
    requires '{' !in a && '{' !in b && '{' !in number
    requires number == if item.None? then "" else Padded(item.value.number)
    ensures TokensReplaced(a + "{{work_item_number}}" + b, item) == a + number + b
  {
    var bare := if item.None? then "" else EventReplay.PrintNat(item.value.number);
    var content := if item.None? then "" else item.value.content;
    OneReplaced(a, "{{work_item_number}}", b, number);
    NoStart(a + number + b, "{{work_item}}", bare);
    NoStart(a + number + b, "{{work_item_content}}", content);
  }

  lemma BareIsOther(b: string)
    requires '{' !in b
    ensures Find("{{work_item}}" + b, "{{work_item_number}}").None?
  {
    assert ("{{work_item}}" + b)[11] == '}' && "{{work_item_number}}"[11] == '_';
    NotWithin("{{work_item}}", b, "{{work_item_number}}");
  }

  lemma ContentIsOther(b: string)
    requires '{' !in b
    ensures Find("{{work_item_content}}" + b, "{{work_item_number}}").None?
    ensures Find("{{work_item_content}}" + b, "{{work_item}}").None?
  {
    var s := "{{work_item_content}}" + b;
    assert s[12] == 'c' && "{{work_item_number}}"[12] == 'n';
    assert s[11] == '_' && "{{work_item}}"[11] == '}';
    NotWithin("{{work_item_content}}", b, "{{work_item_number}}");
    NotWithin("{{work_item_content}}", b, "{{work_item}}");
  }

  /** `{{work_item}}` reads as the number alone. */
  lemma BareRendered(a: string, b: string, item: WorkItem)
    requires '{' !in a && '{' !in b
    ensures TokensReplaced(a + "{{work_item}}" + b, Some(item)) == a + EventReplay.PrintNat(item.number) + b
  {
    var bare := EventReplay.PrintNat(item.number);
    PrintedNoBrace(item.number);
    BareIsOther(b);
    OtherKept(a, "{{work_item}}", b, "{{work_item_number}}", Padded(item.number));
    OneReplaced(a, "{{work_item}}", b, bare);
    NoStart(a + bare + b, "{{work_item_content}}", item.content);
  }

  /** `{{work_item_content}}` reads as the whole content, which is not looked at again. */
  lemma ContentRendered(a: string, b: string, item: WorkItem)
    requires '{' !in a && '{' !in b
    ensures TokensReplaced(a + "{{work_item_content}}" + b, Some(item)) == a + item.content + b
  {
    ContentIsOther(b);
    OtherKept(a, "{{work_item_content}}", b, "{{work_item_number}}", Padded(item.number));
    OtherKept(a, "{{work_item_content}}", b, "{{work_item}}", EventReplay.PrintNat(item.number));
    OneReplaced(a, "{{work_item_content}}", b, item.content);
  }

  method ReplaceTokens(template: string, item: Option<WorkItem>) returns (out: string)
    ensures out == TokensReplaced(template, item)
  {
    var number := if item.None? then "" else Padded(item.value.number);
    var bare := if item.None? then "" else EventReplay.PrintNat(item.value.number);
    var content := if item.None? then "" else item.value.content;
    out := ReplaceToken(template, "{{work_item_number}}", number);
    out := ReplaceToken(out, "{{work_item}}", bare);
    out := ReplaceToken(out, "{{work_item_content}}", content);
  }

  method SubstitutePrompt(template: string, item: Option<WorkItem>) returns (r: Substitution)
    requires Stops(TokensReplaced(template, item), item)
    ensures NoClosedMarker(r.rendered)
    ensures exists n: nat :: Turns(TokensReplaced(template, item), item, n) == Some(r.rendered)
    ensures r.warned <==> Contains(template, "{{work_item") && item.None?
  {
    var text := ReplaceTokens(template, item);
    var rendered := SubstituteSections(text, item);
    r := Substitution(rendered, Contains(template, "{{work_item") && item.None?);
  }
}
