/**
 When the section loop of a prompt stops (src/data/workflow_prompt_template.rs),
 for texts whose braces all belong to section markers: exactly when no section
 they lead to contains itself, directly or through others. Sections are the
 nodes of a dependency graph, each depending on the sections it names.
 */
module SectionReferences {
  import opened Iteration
  import opened MarkdownSections
  import opened PromptTemplate
  import opened Sequences
  import opened Strings
  import opened TextFacts
  import opened Wrappers
  import Graph = WorkflowDag

  // ----- Tidy texts -----

  predicate NoBraces(s: string) { '{' !in s && '}' !in s }

  datatype Parts = Parts(before: string, body: string, after: string)

  /** A text cut at its first section marker. */
  function Cut(s: string): (r: Option<Parts>)
    ensures r.Some? ==> |r.value.after| < |s|
  {
    match FirstMarker(s)
    case None => None
    case Some((start, e)) => Some(Parts(s[..start], s[start + |MARK|..e], s[e + 2..]))
  }

  /** Every brace belongs to a closed section marker. */
  predicate Tidy(s: string)
    decreases |s|
  {
    match Cut(s)
    case None => NoBraces(s)
    case Some(p) => NoBraces(p.before) && NoBraces(p.body) && Tidy(p.after)
  }

  /** The sections the markers of a text name, in order. */
  function Named(s: string): seq<string>
    decreases |s|
  {
    match Cut(s)
    case None => []
    case Some(p) => [Normal(SectionName(p.body))] + Named(p.after)
  }

  lemma OccursInPrefix(x: string, y: string, t: string, i: nat)
    requires i + |t| <= |x|
    ensures OccursAt(x + y, t, i) <==> OccursAt(x, t, i)
  {
    assert (x + y)[i..i + |t|] == x[i..i + |t|];
  }

  lemma {:induction false} FindInPrefix(x: string, y: string, t: string, k: nat)
    requires FindFrom(x, t, k).Some?
    ensures FindFrom(x + y, t, k) == FindFrom(x, t, k)
    decreases |x| - k
  {
    OccursInPrefix(x, y, t, k);
    if !OccursAt(x, t, k) {
      FindInPrefix(x, y, t, k + 1);
    }
  }

  lemma OccursBehind(x: string, y: string, t: string, i: nat)
    ensures OccursAt(x + y, t, |x| + i) <==> OccursAt(y, t, i)
  {
    if i + |t| <= |y| {
      assert (x + y)[|x| + i..|x| + i + |t|] == y[i..i + |t|];
    }
  }

  function Shift(r: Option<nat>, n: nat): Option<nat> { if r.Some? then Some(n + r.value) else None }

  lemma {:induction false} FindBehind(x: string, y: string, t: string, k: nat)
    ensures FindFrom(x + y, t, |x| + k) == Shift(FindFrom(y, t, k), |x|)
    decreases |y| - k
  {
    OccursBehind(x, y, t, k);
    if k + |t| <= |y| && !OccursAt(y, t, k) {
      FindBehind(x, y, t, k + 1);
    }
  }

  /** A prefix in which the text does not start is passed over. */
  lemma {:induction false} FindPast(x: string, y: string, t: string, k: nat)
    requires t != [] && t[0] !in x && k <= |x|
    ensures FindFrom(x + y, t, k) == FindFrom(x + y, t, |x|)
    decreases |x| - k
  {
    if k < |x| {
      if OccursAt(x + y, t, k) {
        OccursIndex(x + y, t, k, 0);
      }
      FindPast(x, y, t, k + 1);
    }
  }

  lemma SlicesInPrefix(x: string, y: string, start: nat, n: nat, e: nat)
    requires start + n <= e && e + 2 <= |x|
    ensures (x + y)[..start] == x[..start] && (x + y)[start + n..e] == x[start + n..e]
    ensures (x + y)[e + 2..] == x[e + 2..] + y
  {
  }

  /** The first `open` and the first `close` behind it. */
  function Between(s: string, open: string, close: string): Option<(nat, nat)> {
    match Find(s, open)
    case None => None
    case Some(start) =>
      match FindFrom(s, close, start)
      case None => None
      case Some(e) => Some((start, e))
  }

  lemma MarkerIsBetween(s: string)
    ensures FirstMarker(s) == Between(s, MARK, "}}")
  {
  }

  lemma BetweenInPrefix(x: string, y: string, open: string, close: string)
    requires Between(x, open, close).Some?
    ensures Between(x + y, open, close) == Between(x, open, close)
  {
    FindInPrefix(x, y, open, 0);
    FindInPrefix(x, y, close, Between(x, open, close).value.0);
  }

  lemma BetweenBehind(x: string, y: string, open: string, close: string)
    requires open != [] && open[0] !in x
    ensures var behind, own := Between(x + y, open, close), Between(y, open, close);
            && (behind.Some? <==> own.Some?)
            && (own.Some? ==> behind.value.0 == |x| + own.value.0 && behind.value.1 == |x| + own.value.1)
  {
    FindPast(x, y, open, 0);
    FindBehind(x, y, open, 0);
    if Find(y, open).Some? {
      FindBehind(x, y, close, Find(y, open).value);
    }
  }

  lemma MarkerInPrefix(x: string, y: string)
    requires FirstMarker(x).Some?
    ensures FirstMarker(x + y) == FirstMarker(x)
  {
    MarkerIsBetween(x);
    MarkerIsBetween(x + y);
    BetweenInPrefix(x, y, MARK, "}}");
  }

  lemma CutInPrefix(x: string, y: string)
    requires Cut(x).Some?
    ensures Cut(x + y) == Some(Cut(x).value.(after := Cut(x).value.after + y))
  {
    MarkerInPrefix(x, y);
    SlicesInPrefix(x, y, FirstMarker(x).value.0, |MARK|, FirstMarker(x).value.1);
  }

  lemma SlicesBehind(x: string, y: string, start: nat, n: nat, e: nat)
    requires start + n <= e && e + 2 <= |y|
    ensures (x + y)[..|x| + start] == x + y[..start]
    ensures (x + y)[|x| + start + n..|x| + e] == y[start + n..e]
    ensures (x + y)[|x| + e + 2..] == y[e + 2..]
  {
  }

  lemma MarkerBehind(x: string, y: string)
    requires NoBraces(x)
    ensures var behind, own := FirstMarker(x + y), FirstMarker(y);
            && (behind.Some? <==> own.Some?)
            && (own.Some? ==> behind.value.0 == |x| + own.value.0 && behind.value.1 == |x| + own.value.1)
  {
    assert MARK[0] == '{';
    MarkerIsBetween(y);
    MarkerIsBetween(x + y);
    BetweenBehind(x, y, MARK, "}}");
  }

  lemma CutBehind(x: string, y: string)
    requires NoBraces(x)
    ensures var behind, own := Cut(x + y), Cut(y);
            && (behind.Some? <==> own.Some?)
            && (own.Some? ==> behind.value == own.value.(before := x + own.value.before))
  {
    MarkerBehind(x, y);
    match FirstMarker(y)
    case None =>
    case Some((start, e)) => SlicesBehind(x, y, start, |MARK|, e);
  }

  lemma TidyBehind(x: string, y: string)
    requires NoBraces(x) && Tidy(y)
    ensures Tidy(x + y) && Named(x + y) == Named(y)
  {
    CutBehind(x, y);
  }

  /** Tidy texts put together are tidy and name what the parts name. */
  lemma {:induction false} TidyConcat(x: string, y: string)
    requires Tidy(x) && Tidy(y)
    ensures Tidy(x + y) && Named(x + y) == Named(x) + Named(y)
    decreases |x|
  {
    if Cut(x).None? {
      TidyBehind(x, y);
    } else {
      var p := Cut(x).value;
      CutInPrefix(x, y);
      TidyConcat(p.after, y);
      Assoc([Normal(SectionName(p.body))], Named(p.after), Named(y));
    }
  }

  // ----- What one marker renders to -----

  lemma StepOfParts(s: string, item: WorkItem)
    ensures var next, p := SectionStep(s, Some(item)), Cut(s);
            && (next.Some? <==> p.Some?)
            && (p.Some? ==>
                  next.value == p.value.before + (Replacement(p.value.body, Some(item)) + p.value.after))
  {
    if Cut(s).Some? {
      var p := Cut(s).value;
      Assoc(p.before, Replacement(p.body, Some(item)), p.after);
    }
  }

  /** `mark` is a name in brackets. */
  predicate Brackets(mark: string, name: string) {
    && |mark| == |name| + 2 && mark[0] == '[' && mark[|name| + 1] == ']' && mark[1..|name| + 1] == name
  }

  /** A name that keeps all its characters as a label. */
  predicate IsLabel(name: string) {
    name != [] && Tight(name) && name[0] != '[' && name[|name| - 1] != ']' && name[|name| - 1] != ':'
  }

  lemma BareLabel(name: string)
    requires IsLabel(name)
    ensures SectionName(name) == name
  {
    TrimFinds([], name, []);
    assert [] + name + [] == name;
  }

  lemma BracketsStripped(mark: string, name: string)
    requires IsLabel(name) && Brackets(mark, name)
    ensures TrimEndChar(TrimStartChar(mark, '['), ']') == name
  {
    var rest := mark[1..];
    assert rest[0] == name[0] && rest[|name|] == ']';
    assert TrimStartChar(mark, '[') == TrimStartChar(rest, '[') == rest;
    assert rest[..|rest| - 1] == name;
    assert TrimEndChar(rest, ']') == TrimEndChar(name, ']') == name;
  }

  /** A name in brackets is the name. */
  lemma LabelNames(mark: string, name: string)
    requires IsLabel(name) && Brackets(mark, name)
    ensures SectionName(mark) == name
  {
    TrimFinds([], mark, []);
    assert [] + mark + [] == mark;
    BracketsStripped(mark, name);
  }

  lemma FirstMarkerCut(before: string, mark: string, after: string)
    requires NoBraces(before) && NoBraces(mark)
    ensures Cut(before + (MARK + mark + "}}" + after)) == Some(Parts(before, mark, after))
  {
    var rest := MARK + mark + "}}" + after;
    MarkerFirst(mark, after);
    CutBehind(before, rest);
    assert before + [] == before;
  }

  lemma MarkerFirst(mark: string, after: string)
    requires NoBraces(mark)
    ensures Cut(MARK + mark + "}}" + after) == Some(Parts([], mark, after))
  {
    var s, e := MARK + mark + "}}" + after, |MARK| + |mark|;
    assert s[0..|MARK|] == MARK && OccursAt(s, MARK, 0);
    assert s[e..e + |"}}"|] == "}}" && OccursAt(s, "}}", e);
    forall i: nat | i < e ensures !OccursAt(s, "}}", i) {
      if OccursAt(s, "}}", i) {
        OccursIndex(s, "}}", i, 0);
        NoClosing(mark, i);
      }
    }
    assert Find(s, MARK) == Some(0) && FindFrom(s, "}}", 0) == Some(e);
    assert s[|MARK|..e] == mark && s[e + 2..] == after && s[..0] == [];
  }

  lemma NoClosing(mark: string, i: nat)
    requires NoBraces(mark) && i < |MARK| + |mark|
    ensures (MARK + mark)[i] != '}'
  {
    if i >= |MARK| {
      assert (MARK + mark)[i] == mark[i - |MARK|];
      assert mark[i - |MARK|] in mark;
    }
  }

  function OrEmpty(o: Option<string>): string { if o.Some? then o.value else "" }

  lemma ReplacementIs(body: string, name: string, item: WorkItem)
    requires SectionName(body) == name
    ensures Replacement(body, Some(item)) == OrEmpty(Section(item.content, name))
  {
  }

  /** The first marker of a text gives way to what stands for it. */
  lemma FirstMarkerRendered(before: string, mark: string, after: string, item: WorkItem)
    requires NoBraces(before) && NoBraces(mark)
    ensures SectionStep(before + (MARK + mark + "}}" + after), Some(item)) ==
            Some(before + (Replacement(mark, Some(item)) + after))
  {
    FirstMarkerCut(before, mark, after);
    StepOfParts(before + (MARK + mark + "}}" + after), item);
  }

  /** It gives way to the section it names, and to nothing if there is none. */
  lemma SectionRendered(before: string, mark: string, name: string, after: string, item: WorkItem,
                        section: Option<string>)
    requires NoBraces(before) && NoBraces(mark) && IsLabel(name) && (mark == name || Brackets(mark, name))
    requires SectionIs(Lines(item.content), name, section)
    ensures SectionStep(before + ("{{work_item_section:" + mark + "}}" + after), Some(item)) ==
            Some(before + (OrEmpty(section) + after))
  {
    if mark == name {
      BareLabel(name);
    } else {
      LabelNames(mark, name);
    }
    SectionMeans(item.content, name);
    OnlySection(Lines(item.content), name, section, Section(item.content, name));
    ReplacementIs(mark, name, item);
    FirstMarkerRendered(before, mark, after, item);
  }

  // ----- The graph of sections -----

  /** The sections a work item has. */
  function SectionNames(lines: seq<string>): (names: set<string>)
    ensures forall n :: n in names <==> SectionOf(lines, n).Some?
  {
    if lines == [] then {}
    else
      SectionNames(lines[1..]) +
      if HeadingText(lines[0]).Some? then {Normal(HeadingText(lines[0]).value)} else {}
  }

  /** The section `n` of the work item is tidy, if there is one. */
  predicate SectionTidy(item: WorkItem, n: string) {
    n in SectionNames(Lines(item.content)) ==> Tidy(SectionOf(Lines(item.content), n).value)
  }

  /** Each section with the sections its own markers name. */
  function References(item: WorkItem): Graph.Edges {
    var lines := Lines(item.content);
    map n | n in SectionNames(lines) :: Named(SectionOf(lines, n).value)
  }

  function Successors(e: Graph.Edges, n: string): seq<string> { if n in e then e[n] else [] }

  /** What a turn of the loop does to the sections named: the first gives way to those it names. */
  function NameTurn(e: Graph.Edges): seq<string> -> Option<seq<string>> {
    names => if names == [] then None else Some(Successors(e, names[0]) + names[1..])
  }

  lemma TidyReplacement(body: string, item: WorkItem)
    requires SectionTidy(item, Normal(SectionName(body)))
    ensures var text := Replacement(body, Some(item));
            Tidy(text) && Named(text) == Successors(References(item), Normal(SectionName(body)))
  {
    var n := Normal(SectionName(body));
    if n !in References(item) {
      assert Tidy("") && Named("") == [];
    }
  }

  /** All a text leads to is tidy: itself, the sections it names, the sections those name, and so on. */
  ghost predicate TidyThroughout(text: string, item: WorkItem) {
    Tidy(text) && forall m, n :: m in Named(text) && Graph.Reaches(References(item), m, n) ==> SectionTidy(item, n)
  }

  /** What stands for a name leads only where the name does. */
  lemma SuccessorsLeadOn(e: Graph.Edges, m: string, d: string, n: string)
    requires d in Successors(e, m) && Graph.Reaches(e, d, n)
    ensures Graph.Reaches(e, m, n)
  {
    Graph.ReachesThrough(e, m, d, n);
  }

  lemma TidyTurn(s: string, item: WorkItem)
    requires TidyThroughout(s, item)
    ensures var next, names := SectionStep(s, Some(item)), NameTurn(References(item))(Named(s));
            && (next.None? <==> names.None?)
            && (next.Some? ==> TidyThroughout(next.value, item) && names.value == Named(next.value))
  {
    StepOfParts(s, item);
    if Cut(s).Some? {
      var p := Cut(s).value;
      var text, m := Replacement(p.body, Some(item)), Normal(SectionName(p.body));
      assert Named(s)[0] == m && Named(s)[1..] == Named(p.after);
      assert SectionTidy(item, m) by {
        Graph.ReachesSelf(References(item), m);
      }
      TidyReplacement(p.body, item);
      TidyConcat(text, p.after);
      TidyBehind(p.before, text + p.after);
      StaysThroughout(s, item, Named(text) + Named(p.after));
    }
  }

  lemma StaysThroughout(s: string, item: WorkItem, names: seq<string>)
    requires TidyThroughout(s, item) && Named(s) != []
    requires names == Successors(References(item), Named(s)[0]) + Named(s)[1..]
    ensures forall m, n :: m in names && Graph.Reaches(References(item), m, n) ==> SectionTidy(item, n)
  {
    var e := References(item);
    forall m, n | m in names && Graph.Reaches(e, m, n) ensures SectionTidy(item, n) {
      if m in Successors(e, Named(s)[0]) {
        SuccessorsLeadOn(e, Named(s)[0], m, n);
      } else {
        assert m in Named(s);
      }
    }
  }

  /** The loop on such a text stops exactly when the loop on the names it holds does. */
  lemma TidyTurns(text: string, item: WorkItem)
    requires TidyThroughout(text, item)
    ensures Stops(text, Some(item)) <==> Halts(NameTurn(References(item)), Named(text))
  {
    forall s | TidyThroughout(s, item)
      ensures var next, names := Turn(Some(item))(s), NameTurn(References(item))(Named(s));
              && (next.None? <==> names.None?)
              && (next.Some? ==> TidyThroughout(next.value, item) && names.value == Named(next.value))
    {
      TidyTurn(s, item);
    }
    SimulatedHalts(Turn(Some(item)), NameTurn(References(item)), Named, s => TidyThroughout(s, item), text);
  }

  // ----- Expansion that ends -----

  /** Replacing section `n` and all it leads to nests fewer than `k` deep. */
  predicate Ends(e: Graph.Edges, n: string, k: nat)
    decreases k
  {
    k > 0 && forall i :: 0 <= i < |Successors(e, n)| ==> Ends(e, Successors(e, n)[i], k - 1)
  }

  ghost predicate AllEnd(e: Graph.Edges, names: seq<string>, k: nat) {
    forall i :: 0 <= i < |names| ==> Ends(e, names[i], k)
  }

  lemma {:induction false} EndsMore(e: Graph.Edges, n: string, k: nat)
    requires Ends(e, n, k)
    ensures Ends(e, n, k + 1)
    decreases k
  {
    forall i | 0 <= i < |Successors(e, n)| ensures Ends(e, Successors(e, n)[i], k) {
      EndsMore(e, Successors(e, n)[i], k - 1);
    }
  }

  lemma NameTurnIs(e: Graph.Edges, names: seq<string>)
    requires names != []
    ensures NameTurn(e)(names) == Some(Successors(e, names[0]) + names[1..])
  {
  }

  lemma AllEndFront(e: Graph.Edges, own: seq<string>, rest: seq<string>, k: nat)
    requires AllEnd(e, own + rest, k)
    ensures AllEnd(e, own, k) && AllEnd(e, rest, k + 1)
  {
    forall i | 0 <= i < |own| ensures Ends(e, own[i], k) {
      assert (own + rest)[i] == own[i];
    }
    forall i | 0 <= i < |rest| ensures Ends(e, rest[i], k + 1) {
      assert (own + rest)[|own| + i] == rest[i];
      EndsMore(e, rest[i], k);
    }
  }

  lemma AllEndCons(e: Graph.Edges, names: seq<string>, k: nat)
    requires names != [] && k > 0 && AllEnd(e, Successors(e, names[0]), k - 1) && AllEnd(e, names[1..], k)
    ensures AllEnd(e, names, k)
  {
    forall i | 0 <= i < |names| ensures Ends(e, names[i], k) {
      assert i > 0 ==> names[1..][i - 1] == names[i];
    }
  }

  lemma AllEndBefore(e: Graph.Edges, names: seq<string>, k: nat)
    requires names != [] && k > 0 && AllEnd(e, Successors(e, names[0]) + names[1..], k - 1)
    ensures AllEnd(e, names, k)
  {
    AllEndFront(e, Successors(e, names[0]), names[1..], k - 1);
    AllEndCons(e, names, k);
  }

  /** A loop that stops after `m` turns nests no deeper. */
  lemma {:induction false} HaltingEnds(e: Graph.Edges, names: seq<string>, m: nat)
    requires Iterate(NameTurn(e), names, m).None?
    ensures AllEnd(e, names, m)
    decreases m
  {
    if names != [] {
      var own, rest := Successors(e, names[0]), names[1..];
      NameTurnIs(e, names);
      HaltsSooner(NameTurn(e), names, own + rest, m);
      HaltingEnds(e, own + rest, m - 1);
      AllEndBefore(e, names, m);
    }
  }

  lemma NameTurnAhead(e: Graph.Edges, names: seq<string>, rest: seq<string>)
    requires names != []
    ensures NameTurn(e)(names + rest) == Some(Successors(e, names[0]) + (names[1..] + rest))
  {
    NameTurnIs(e, names + rest);
    assert (names + rest)[1..] == names[1..] + rest;
  }

  lemma AllEndHead(e: Graph.Edges, names: seq<string>, k: nat)
    requires names != [] && AllEnd(e, names, k)
    ensures k > 0 && AllEnd(e, Successors(e, names[0]), k - 1) && AllEnd(e, names[1..], k)
  {
    assert Ends(e, names[0], k);
  }

  /** Names that end are used up, leaving what stands behind them. */
  lemma {:induction false} EndingHalts(e: Graph.Edges, names: seq<string>, rest: seq<string>, k: nat) returns (m: nat)
    requires AllEnd(e, names, k)
    ensures Iterate(NameTurn(e), names + rest, m) == Some(rest)
    decreases k, |names|
  {
    if names == [] {
      m := 0;
      assert names + rest == rest;
    } else {
      var own, others := Successors(e, names[0]), names[1..];
      AllEndHead(e, names, k);
      var m1 := EndingHalts(e, own, others + rest, k - 1);
      var m2 := EndingHalts(e, others, rest, k);
      NameTurnAhead(e, names, rest);
      TurnsInRow(NameTurn(e), names + rest, own + (others + rest), others + rest, m1, m2);
      m := 1 + m1 + m2;
    }
  }

  // ----- Expansion and cycles -----

  /** From section `n` the loop can reach a section that contains itself. */
  ghost predicate CanLoop(e: Graph.Edges, n: string) {
    exists c :: Graph.Reaches(e, n, c) && Graph.OnCycle(e, c)
  }

  lemma PathTail(e: Graph.Edges, p: seq<string>)
    requires Graph.IsPath(e, p) && |p| > 1
    ensures Graph.Edge(e, p[0], p[1]) && Graph.Reaches(e, p[1], p[|p| - 1])
  {
    forall i | 0 <= i < |p[1..]| - 1 ensures Graph.Edge(e, p[1..][i], p[1..][i + 1]) {
      assert Graph.Edge(e, p[i + 1], p[i + 2]);
    }
    assert Graph.IsPath(e, p[1..]);
  }

  lemma LoopGoesOn(e: Graph.Edges, n: string) returns (d: string)
    requires CanLoop(e, n)
    ensures Graph.Edge(e, n, d) && CanLoop(e, d)
  {
    var c :| Graph.Reaches(e, n, c) && Graph.OnCycle(e, c);
    var p :| Graph.IsPath(e, p) && p[0] == n && p[|p| - 1] == c;
    if |p| == 1 {
      p :| Graph.IsPath(e, p) && |p| > 1 && p[0] == n && p[|p| - 1] == n;
    }
    PathTail(e, p);
    d := p[1];
  }

  lemma {:induction false} LoopNeverEnds(e: Graph.Edges, n: string, k: nat)
    requires CanLoop(e, n)
    ensures !Ends(e, n, k)
    decreases k
  {
    if k > 0 {
      var d := LoopGoesOn(e, n);
      LoopNeverEnds(e, d, k - 1);
      assert Successors(e, n) == e[n];
    }
  }

  lemma OneLess(all: set<string>, above: set<string>, n: string)
    requires n in all && n !in above
    ensures |all - above| == |all - (above + {n})| + 1
  {
    assert all - above == (all - (above + {n})) + {n};
  }

  /** `above` are the sections on the way to `n`; without a loop none of them comes again. */
  lemma {:induction false} NoLoopEnds(e: Graph.Edges, n: string, above: set<string>)
    requires !CanLoop(e, n) && above <= e.Keys && n !in above
    requires forall a :: a in above ==> Graph.Reaches(e, a, n)
    ensures Ends(e, n, |e.Keys - above| + 1)
    decreases |e.Keys - above|
  {
    if n in e {
      var below := above + {n};
      OneLess(e.Keys, above, n);
      forall i | 0 <= i < |e[n]| ensures Ends(e, e[n][i], |e.Keys - above|) {
        var d := e[n][i];
        DescendWithoutLoop(e, n, d, above);
        NoLoopEnds(e, d, below);
      }
    }
  }

  lemma DescendWithoutLoop(e: Graph.Edges, n: string, d: string, above: set<string>)
    requires !CanLoop(e, n) && Graph.Edge(e, n, d)
    requires forall a :: a in above ==> Graph.Reaches(e, a, n)
    ensures !CanLoop(e, d) && d !in above + {n}
    ensures forall a :: a in above + {n} ==> Graph.Reaches(e, a, d)
  {
    Graph.ReachesSelf(e, n);
    Graph.ReachesStep(e, n, n, d);
    forall a | a in above + {n} ensures Graph.Reaches(e, a, d) && a != d {
      Graph.ReachesStep(e, a, n, d);
      if a == d {
        Graph.ReachBackIsCycle(e, d, n);
      }
    }
    if CanLoop(e, d) {
      var c :| Graph.Reaches(e, d, c) && Graph.OnCycle(e, c);
      Graph.ReachesThrough(e, n, d, c);
    }
  }

  /** Names are used up exactly when none of them leads to a section that contains itself. */
  lemma NamesHalt(e: Graph.Edges, names: seq<string>)
    ensures Halts(NameTurn(e), names) <==> forall n :: n in names ==> !CanLoop(e, n)
  {
    if m: nat :| Iterate(NameTurn(e), names, m).None? {
      HaltingEnds(e, names, m);
      forall i | 0 <= i < |names| ensures !CanLoop(e, names[i]) {
        if CanLoop(e, names[i]) {
          LoopNeverEnds(e, names[i], m);
        }
      }
    }
    if forall n :: n in names ==> !CanLoop(e, n) {
      forall i | 0 <= i < |names| ensures Ends(e, names[i], |e.Keys| + 1) {
        assert e.Keys - {} == e.Keys;
        NoLoopEnds(e, names[i], {});
      }
      var m := EndingHalts(e, names, [], |e.Keys| + 1);
      assert names + [] == names;
      assert Iterate(NameTurn(e), names, m + 1).None?;
    }
  }

  /**
   Where all a text leads to is tidy, the loop stops exactly when no section
   named in the text leads to one that contains itself.
   */
  lemma TidyStops(text: string, item: WorkItem)
    requires TidyThroughout(text, item)
    ensures Stops(text, Some(item)) <==> forall n :: n in Named(text) ==> !CanLoop(References(item), n)
  {
    TidyTurns(text, item);
    NamesHalt(References(item), Named(text));
  }

  /** A work item of tidy sections, none of which contains itself, can be rendered into every tidy text. */
  lemma TidyItemStops(item: WorkItem, text: string)
    requires (forall n :: SectionTidy(item, n)) && Graph.Acyclic(References(item)) && Tidy(text)
    ensures Stops(text, Some(item))
  {
    TidyStops(text, item);
  }
}
