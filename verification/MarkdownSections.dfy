/**
 What the lines of a text are, which line is a heading of a given name, and
 what the section below it is: the meaning of `extract_section`
 (src/data/workflow_prompt_template.rs), stated without its loops.
 */
module MarkdownSections {
  import opened Sequences
  import opened Strings
  import opened TextFacts
  import opened Wrappers

  // ----- Lines -----

  /**
   `lines` are the lines of `text`: each is followed by a line feed, which may
   have a carriage return before it, but for a last one that is not empty.
   */
  ghost predicate LinesAre(text: string, lines: seq<string>)
    decreases |lines|
  {
    if lines == [] then text == []
    else
      '\n' !in lines[0] &&
      exists rest ::
        LinesAre(rest, lines[1..])
        && (|| (text == lines[0] + "\n" + rest && (lines[0] == [] || lines[0][|lines[0]| - 1] != '\r'))
            || text == lines[0] + "\r\n" + rest
            || (text == lines[0] + rest && rest == [] && lines[0] != [] && |lines| == 1))
  }

  // ----- Headings -----

  /** `core` is the text without outer white space and the colons before it. */
  ghost predicate IsCore(text: string, core: string) {
    && (core == [] || core[|core| - 1] != ':')
    && exists w1, colons, w2 ::
         text == w1 + (core + colons) + w2 && Blank(w1) && AllAre(colons, ':') && Blank(w2) && Tight(core + colons)
  }

  /** Equal up to case, outer white space and trailing colons. */
  ghost predicate SameHeading(a: string, b: string) {
    exists c, d :: IsCore(a, c) && IsCore(b, d) && SameButCase(c, d)
  }

  /** The line reads `mark` and `text` between blanks. */
  predicate Reads(line: string, w1: string, mark: string, text: string, w2: string) {
    && line == w1 + (mark + text) + w2 && Blank(w1) && Blank(w2)
    && text != [] && !IsWhitespace(text[|text| - 1])
  }

  /** A heading of the first or second level with that name. */
  ghost predicate IsHeading(line: string, name: string) {
    exists w1, mark, text, w2 ::
      Reads(line, w1, mark, text, w2) && (mark == "# " || mark == "## ") && SameHeading(text, name)
  }

  /** The line starts with blanks and a heading mark. */
  predicate Opens(line: string, w: string, rest: string) {
    Blank(w) && (line == w + ("# " + rest) || line == w + ("## " + rest))
  }

  /** A heading of the first or second level opens. */
  ghost predicate OpensSection(line: string) {
    exists w, rest :: Opens(line, w, rest)
  }

  // ----- Sections -----

  /** The lines, each with a line feed. */
  function Joined(lines: seq<string>): string {
    if lines == [] then [] else lines[0] + "\n" + Joined(lines[1..])
  }

  /** Line `i` is the first heading of that name, and its section ends before line `j`. */
  ghost predicate SectionSpans(lines: seq<string>, name: string, i: nat, j: nat) {
    && i < j <= |lines| && IsHeading(lines[i], name) && (forall k :: 0 <= k < i ==> !IsHeading(lines[k], name))
    && (forall k :: i < k < j ==> !OpensSection(lines[k])) && (j < |lines| ==> OpensSection(lines[j]))
  }

  /** `text` is what follows the first heading of that name, line `i`, up to line `j`, trimmed. */
  ghost predicate IsSection(lines: seq<string>, name: string, i: nat, j: nat, text: string) {
    SectionSpans(lines, name, i, j) && IsTrimmed(Joined(lines[i + 1..j]), text)
  }

  /** `r` is the section of that name, if some line is a heading of it. */
  ghost predicate SectionIs(lines: seq<string>, name: string, r: Option<string>) {
    if r.None? then forall k :: 0 <= k < |lines| ==> !IsHeading(lines[k], name)
    else exists i, j :: IsSection(lines, name, i, j, r.value)
  }

  // ----- What the string operations do -----

  lemma CoreIs(text: string, core: string)
    ensures IsCore(text, core) <==> core == TrimEndChar(Trim(text), ':')
  {
    if IsCore(text, core) {
      var w1, colons, w2 :| text == w1 + (core + colons) + w2 && Blank(w1) && AllAre(colons, ':') && Blank(w2)
                            && Tight(core + colons);
      TrimFinds(w1, core + colons, w2);
      EndStripped(core, colons, ':');
    }
    if core == TrimEndChar(Trim(text), ':') {
      var w1, w2 := TrimSplits(text);
      var colons := EndSplits(Trim(text), ':');
      assert text == w1 + (core + colons) + w2;
    }
  }

  lemma SameHeadingIs(a: string, b: string)
    ensures SameHeading(a, b) <==> Lower(TrimEndChar(Trim(a), ':')) == Lower(TrimEndChar(Trim(b), ':'))
  {
    var c, d := TrimEndChar(Trim(a), ':'), TrimEndChar(Trim(b), ':');
    CoreIs(a, c);
    CoreIs(b, d);
    LowerTexts(c, d);
    forall x, y | IsCore(a, x) && IsCore(b, y) ensures x == c && y == d {
      CoreIs(a, x);
      CoreIs(b, y);
    }
  }

  lemma SectionFound(lines: seq<string>, name: string, i: nat, j: nat, section: seq<string>)
    requires SectionSpans(lines, name, i, j) && section == lines[i + 1..j]
    ensures SectionIs(lines, name, Some(Trim(Joined(section))))
  {
    TrimmedIs(Joined(section), Trim(Joined(section)));
    assert IsSection(lines, name, i, j, Trim(Joined(section)));
  }

  lemma SectionAt(lines: seq<string>, rest: seq<string>, name: string, i: nat, n: nat)
    requires SectionSpans(lines, name, i, i + 1 + n) && rest == lines[i + 1..] && n <= |rest|
    ensures SectionIs(lines, name, Some(Trim(Joined(rest[..n]))))
  {
    PrefixOfSuffix(lines, i + 1, n);
    SectionFound(lines, name, i, i + 1 + n, rest[..n]);
  }

  lemma TrimmedOnce(s: string, a: string, b: string)
    requires IsTrimmed(s, a) && IsTrimmed(s, b)
    ensures a == b
  {
    TrimmedIs(s, a);
    TrimmedIs(s, b);
  }

  lemma SpanOnce(lines: seq<string>, name: string, i: nat, j: nat, i': nat, j': nat)
    requires SectionSpans(lines, name, i, j) && SectionSpans(lines, name, i', j')
    ensures i == i' && j == j'
  {
  }

  lemma SectionSpan(lines: seq<string>, name: string, i: nat, j: nat, text: string)
    requires IsSection(lines, name, i, j, text)
    ensures SectionSpans(lines, name, i, j)
  {
  }

  lemma SectionText(lines: seq<string>, name: string, i: nat, j: nat, text: string)
    requires IsSection(lines, name, i, j, text)
    ensures i < j <= |lines| && IsTrimmed(Joined(lines[i + 1..j]), text)
  {
  }

  lemma SameText(lines: seq<string>, name: string, i: nat, j: nat, a: string, b: string)
    requires IsSection(lines, name, i, j, a) && IsSection(lines, name, i, j, b)
    ensures a == b
  {
    SectionText(lines, name, i, j, a);
    SectionText(lines, name, i, j, b);
    TrimmedOnce(Joined(lines[i + 1..j]), a, b);
  }

  lemma SameSpan(lines: seq<string>, name: string, i: nat, j: nat, a: string, i': nat, j': nat, b: string)
    requires IsSection(lines, name, i, j, a) && IsSection(lines, name, i', j', b)
    ensures i == i' && j == j'
  {
    SectionSpan(lines, name, i, j, a);
    SectionSpan(lines, name, i', j', b);
    SpanOnce(lines, name, i, j, i', j');
  }

  lemma SectionStands(lines: seq<string>, name: string, text: string) returns (i: nat, j: nat)
    requires SectionIs(lines, name, Some(text))
    ensures IsSection(lines, name, i, j, text)
  {
    i, j :| IsSection(lines, name, i, j, text);
  }

  lemma SectionOnce(lines: seq<string>, name: string, a: string, b: string)
    requires SectionIs(lines, name, Some(a)) && SectionIs(lines, name, Some(b))
    ensures a == b
  {
    var i, j := SectionStands(lines, name, a);
    var i', j' := SectionStands(lines, name, b);
    SameSpan(lines, name, i, j, a, i', j', b);
    SameText(lines, name, i, j, a, b);
  }

  lemma SpanHasHeading(lines: seq<string>, name: string, i: nat, j: nat)
    requires SectionSpans(lines, name, i, j)
    ensures !SectionIs(lines, name, None)
  {
  }

  lemma SectionHasHeading(lines: seq<string>, name: string, text: string)
    requires SectionIs(lines, name, Some(text))
    ensures !SectionIs(lines, name, None)
  {
    var i, j := SectionStands(lines, name, text);
    SectionSpan(lines, name, i, j, text);
    SpanHasHeading(lines, name, i, j);
  }

  /** A section stands wherever one is found. */
  lemma SectionOrNone(lines: seq<string>, name: string, text: string, t: Option<string>)
    requires SectionIs(lines, name, Some(text)) && SectionIs(lines, name, t)
    ensures t.Some?
  {
    SectionHasHeading(lines, name, text);
  }

  /** There is at most one section of that name. */
  lemma OnlySection(lines: seq<string>, name: string, r: Option<string>, t: Option<string>)
    requires SectionIs(lines, name, r) && SectionIs(lines, name, t)
    ensures r == t
  {
    if r.Some? {
      SectionOrNone(lines, name, r.value, t);
      SectionOnce(lines, name, r.value, t.value);
    } else if t.Some? {
      SectionOrNone(lines, name, t.value, r);
    }
  }
}
