/**
 Image names derived from folder names (src/data/image_tags.rs). The result
 must be a repository name component of the OCI Distribution Specification,
 section "Pulling manifests".
 */
module ImageTags {
  import opened Sequences
  import opened Strings
  import opened Wrappers

  predicate IsAlnum(c: char) { 'a' <= c <= 'z' || '0' <= c <= '9' }

  predicate IsSep(c: char) { c == '.' || c == '_' || c == '-' }

  // ----- The grammar: [a-z0-9]+((\.|_|__|-+)[a-z0-9]+)* -----

  predicate IsWord(s: string) { s != [] && forall i :: 0 <= i < |s| ==> IsAlnum(s[i]) }

  predicate AllHyphens(s: string) { forall i :: 0 <= i < |s| ==> s[i] == '-' }

  predicate IsSeparator(s: string) { s == "." || s == "_" || s == "__" || (s != [] && AllHyphens(s)) }

  ghost predicate IsComponent(s: string)
    decreases |s|
  {
    || IsWord(s)
    || exists i: nat, j: nat :: 0 < i < j < |s| && IsComponent(s[..i]) && IsSeparator(s[i..j]) && IsWord(s[j..])
  }

  // ----- sanitize_image_name -----

  function MapChar(c: char): char {
    var l := LowerChar(c);
    if IsAlnum(l) || IsSep(l) then l else '-'
  }

  function Mapped(s: string): (r: string)
    ensures |r| == |s| && forall i :: 0 <= i < |s| ==> r[i] == MapChar(s[i])
  {
    seq(|s|, i requires 0 <= i < |s| => MapChar(s[i]))
  }

  /** The two mutable buffers of the scan. */
  datatype Scan = Scan(out: string, run: string)

  /** The run of separators written before the next character, if any. */
  function Flushed(st: Scan): string {
    if st.run == [] || st.out == [] then st.out
    else st.out + if IsSeparator(st.run) then st.run else "-"
  }

  function Take(st: Scan, c: char): Scan {
    if IsSep(c) then st.(run := st.run + [c]) else Scan(Flushed(st) + [c], [])
  }

  function TakeAll(st: Scan, s: string): Scan {
    if s == [] then st else Take(TakeAll(st, s[..|s| - 1]), s[|s| - 1])
  }

  const START := Scan([], [])

  function Sanitized(name: string): string {
    TakeAll(START, Mapped(name)).out
  }

  method SanitizeImageName(name: string) returns (out: string)
    ensures out == Sanitized(name)
  {
    var mapped := Mapped(name);
    out := "";
    var sepRun := "";
    for i := 0 to |mapped|
      invariant Scan(out, sepRun) == TakeAll(START, mapped[..i])
    {
      assert mapped[..i + 1][..i] == mapped[..i];
      var c := mapped[i];
      if IsSep(c) {
        sepRun := sepRun + [c];
      } else {
        if sepRun != [] && out != [] {
          var valid := sepRun == "." || sepRun == "_" || sepRun == "__" || AllHyphens(sepRun);
          out := out + if valid then sepRun else "-";
        }
        sepRun := "";
        out := out + [c];
      }
    }
    assert mapped[..|mapped|] == mapped;
  }

  // ----- Every result is in the grammar -----

  ghost predicate Allowed(s: string) { forall i :: 0 <= i < |s| ==> IsAlnum(s[i]) || IsSep(s[i]) }

  lemma GrowLastWord(s: string, c: char)
    requires IsComponent(s) && IsAlnum(c)
    ensures IsComponent(s + [c])
  {
    if !IsWord(s) {
      var i: nat, j: nat :| 0 < i < j < |s| && IsComponent(s[..i]) && IsSeparator(s[i..j]) && IsWord(s[j..]);
      var t := s + [c];
      assert t[..i] == s[..i] && t[i..j] == s[i..j] && t[j..] == s[j..] + [c];
    }
  }

  lemma AddWord(s: string, sep: string, w: string)
    requires IsComponent(s) && IsSeparator(sep) && IsWord(w)
    ensures IsComponent(s + sep + w)
  {
    var t, i, j := s + sep + w, |s|, |s| + |sep|;
    assert t[..i] == s && t[i..j] == sep && t[j..] == w;
  }

  ghost predicate InGrammar(st: Scan) { st.out == [] || IsComponent(st.out) }

  lemma TakeStaysInGrammar(st: Scan, c: char)
    requires InGrammar(st) && (IsAlnum(c) || IsSep(c))
    ensures InGrammar(Take(st, c))
  {
    if IsAlnum(c) {
      if st.out == [] {
        assert IsWord([c]);
      } else if st.run == [] {
        GrowLastWord(st.out, c);
      } else {
        AddWord(st.out, if IsSeparator(st.run) then st.run else "-", [c]);
      }
    }
  }

  lemma {:induction false} TakeAllInGrammar(s: string)
    requires Allowed(s)
    ensures InGrammar(TakeAll(START, s))
  {
    if s != [] {
      TakeAllInGrammar(s[..|s| - 1]);
      TakeStaysInGrammar(TakeAll(START, s[..|s| - 1]), s[|s| - 1]);
    }
  }

  /** For every folder name the result is empty or a valid name component. */
  lemma SanitizedIsComponent(name: string)
    ensures Sanitized(name) == [] || IsComponent(Sanitized(name))
  {
    TakeAllInGrammar(Mapped(name));
  }

  // ----- Identity on the grammar -----

  lemma {:induction false} TakeAllAppend(st: Scan, s: string, t: string)
    ensures TakeAll(st, s + t) == TakeAll(TakeAll(st, s), t)
    decreases |t|
  {
    if t == [] {
      assert s + t == s;
    } else {
      var last := |t| - 1;
      assert (s + t)[..|s + t| - 1] == s + t[..last];
      TakeAllAppend(st, s, t[..last]);
    }
  }

  lemma {:induction false} TakeSeparators(st: Scan, s: string)
    requires forall i :: 0 <= i < |s| ==> IsSep(s[i])
    ensures TakeAll(st, s) == st.(run := st.run + s)
  {
    if s == [] {
      assert st.run + s == st.run;
    } else {
      TakeSeparators(st, s[..|s| - 1]);
      assert st.run + s == (st.run + s[..|s| - 1]) + [s[|s| - 1]];
    }
  }

  lemma {:induction false} TakeWord(st: Scan, w: string)
    requires IsWord(w)
    ensures TakeAll(st, w) == Scan(Flushed(st) + w, [])
  {
    var last := |w| - 1;
    if last == 0 {
      assert w[..0] == [] && w == [w[0]];
    } else {
      TakeWord(st, w[..last]);
      assert Flushed(st) + w == (Flushed(st) + w[..last]) + [w[last]];
    }
  }

  /** The last word of a component of several words, with what comes before it. */
  lemma LastWord(s: string) returns (head: string, sep: string, w: string)
    requires IsComponent(s) && !IsWord(s)
    ensures s == head + sep + w && |head| < |s|
    ensures head != [] && IsComponent(head) && IsSeparator(sep) && IsWord(w)
  {
    var i: nat, j: nat :| 0 < i < j < |s| && IsComponent(s[..i]) && IsSeparator(s[i..j]) && IsWord(s[j..]);
    head, sep, w := s[..i], s[i..j], s[j..];
  }

  lemma {:induction false} ComponentUnchanged(s: string)
    requires IsComponent(s)
    ensures TakeAll(START, s) == Scan(s, []) && Allowed(s)
    decreases |s|
  {
    if IsWord(s) {
      TakeWord(START, s);
      assert [] + s == s;
    } else {
      var head, sep, w := LastWord(s);
      ComponentUnchanged(head);
      SplitUnchanged(head, sep, w);
      AllowedParts(head, sep, w);
    }
  }

  lemma AllowedParts(head: string, sep: string, w: string)
    requires Allowed(head) && IsSeparator(sep) && IsWord(w)
    ensures Allowed(head + sep + w)
  {
  }

  lemma SeparatorChars(sep: string)
    requires IsSeparator(sep)
    ensures forall i :: 0 <= i < |sep| ==> IsSep(sep[i])
  {
  }

  lemma NoRunBefore(sep: string)
    ensures [] + sep == sep
  {
  }

  lemma SeparatorsPending(s: string, sep: string)
    requires TakeAll(START, s) == Scan(s, []) && IsSeparator(sep)
    ensures TakeAll(START, s + sep) == Scan(s, sep)
  {
    TakeAllAppend(START, s, sep);
    SeparatorChars(sep);
    TakeSeparators(TakeAll(START, s), sep);
    NoRunBefore(sep);
  }

  lemma SplitUnchanged(s: string, sep: string, w: string)
    requires s != [] && TakeAll(START, s) == Scan(s, []) && IsSeparator(sep) && IsWord(w)
    ensures TakeAll(START, s + sep + w) == Scan(s + sep + w, [])
  {
    SeparatorsPending(s, sep);
    TakeAllAppend(START, s + sep, w);
    TakeWord(Scan(s, sep), w);
  }

  /** Names already valid are left alone. */
  lemma SanitizedIdentity(name: string)
    requires IsComponent(name)
    ensures Sanitized(name) == name
  {
    ComponentUnchanged(name);
    AllowedUnmapped(name);
  }

  lemma AllowedUnmapped(s: string)
    requires Allowed(s)
    ensures Mapped(s) == s
  {
  }

  /** Sanitising twice is sanitising once. */
  lemma SanitizedIdempotent(name: string)
    ensures Sanitized(Sanitized(name)) == Sanitized(name)
  {
    SanitizedIsComponent(name);
    if Sanitized(name) != [] {
      SanitizedIdentity(Sanitized(name));
    } else {
      assert Mapped([]) == [];
    }
  }

  // ----- What is kept -----

  /** The alphanumerics of a string, in order. */
  function Alnums(s: string): string {
    if s == [] then []
    else Alnums(s[..|s| - 1]) + if IsAlnum(s[|s| - 1]) then [s[|s| - 1]] else []
  }

  lemma {:induction false} AlnumsAppend(s: string, t: string)
    ensures Alnums(s + t) == Alnums(s) + Alnums(t)
    decreases |t|
  {
    if t == [] {
      assert s + t == s;
    } else {
      assert (s + t)[..|s + t| - 1] == s + t[..|t| - 1];
      AlnumsAppend(s, t[..|t| - 1]);
    }
  }

  lemma {:induction false} SeparatorsHaveNone(s: string)
    requires forall i :: 0 <= i < |s| ==> IsSep(s[i])
    ensures Alnums(s) == []
  {
    if s != [] {
      SeparatorsHaveNone(s[..|s| - 1]);
    }
  }

  ghost predicate AllSeps(s: string) { forall i :: 0 <= i < |s| ==> IsSep(s[i]) }

  lemma TakeKeepsAlnums(st: Scan, c: char)
    requires AllSeps(st.run) && (IsAlnum(c) || IsSep(c))
    ensures AllSeps(Take(st, c).run)
    ensures Alnums(Take(st, c).out) == Alnums(st.out) + if IsAlnum(c) then [c] else []
    ensures |Take(st, c).out| + |Take(st, c).run| <= |st.out| + |st.run| + 1
  {
    if !IsSep(c) {
      SeparatorsHaveNone(st.run);
      SeparatorsHaveNone("-");
      AlnumsAppend(st.out, if IsSeparator(st.run) then st.run else "-");
      assert (Flushed(st) + [c])[..|Flushed(st)|] == Flushed(st);
    }
  }

  lemma {:induction false} TakeAllKeeps(s: string)
    requires Allowed(s)
    ensures var st := TakeAll(START, s);
            AllSeps(st.run) && Alnums(st.out) == Alnums(s) && |st.out| + |st.run| <= |s|
  {
    if s != [] {
      TakeAllKeeps(s[..|s| - 1]);
      TakeKeepsAlnums(TakeAll(START, s[..|s| - 1]), s[|s| - 1]);
    }
  }

  /** The result never grows and keeps the lowered letters and digits, in order. */
  lemma SanitizedKeepsAlnums(name: string)
    ensures |Sanitized(name)| <= |name|
    ensures Alnums(Sanitized(name)) == Alnums(Lower(name))
  {
    TakeAllKeeps(Mapped(name));
    MappedKeeps(name);
  }

  lemma {:induction false} MappedKeeps(name: string)
    ensures Alnums(Mapped(name)) == Alnums(Lower(name))
  {
    if name != [] {
      MappedKeeps(name[..|name| - 1]);
      assert Mapped(name)[..|name| - 1] == Mapped(name[..|name| - 1]);
      assert Lower(name)[..|name| - 1] == Lower(name[..|name| - 1]);
    }
  }

  // ----- image_stem -----

  /** A path component: its text when it is UTF-8, and whether it is a normal name. */
  // ----- What stands between the words -----

  predicate IsLetterOrDigit(c: char) { 'a' <= c <= 'z' || 'A' <= c <= 'Z' || '0' <= c <= '9' }

  predicate AllLetters(s: string) { forall i :: 0 <= i < |s| ==> IsLetterOrDigit(s[i]) }

  predicate NoLetters(s: string) { forall i :: 0 <= i < |s| ==> !IsLetterOrDigit(s[i]) }

  /** `r` may stand for the characters `gap` between two words. */
  predicate Bridges(gap: string, r: string) {
    if gap == "." || gap == "_" || gap == "__" then r == gap
    else if '.' in gap || '_' in gap then r == "-"
    else |r| == |gap| && forall i :: 0 <= i < |r| ==> r[i] == '-'
  }

  lemma MappedAppend(s: string, t: string)
    ensures Mapped(s + t) == Mapped(s) + Mapped(t)
  {
  }

  lemma WordMapped(w: string)
    requires AllLetters(w)
    ensures Mapped(w) == Lower(w) && (w != [] ==> IsWord(Lower(w)))
  {
  }

  lemma GapMapped(gap: string)
    requires NoLetters(gap)
    ensures AllSeps(Mapped(gap))
    ensures gap != [] ==> Bridges(gap, if IsSeparator(Mapped(gap)) then Mapped(gap) else "-")
  {
    var m := Mapped(gap);
    if gap == "." || gap == "_" || gap == "__" {
      assert m == gap;
    } else if '.' in gap || '_' in gap {
      var i :| 0 <= i < |gap| && (gap[i] == '.' || gap[i] == '_');
      assert m[i] == gap[i];
      assert forall k :: 0 <= k < |gap| && (m[k] == '.' || m[k] == '_') ==> gap[k] == m[k];
      assert (m == "." ==> gap == m) && (m == "_" ==> gap == m) && (m == "__" ==> gap == m);
    }
  }

  /** A folder name of letters and digits is lowered. */
  lemma SanitizedWord(w: string)
    requires AllLetters(w) && w != []
    ensures Sanitized(w) == Lower(w)
  {
    WordMapped(w);
    TakeWord(START, Lower(w));
    assert [] + Lower(w) == Lower(w);
  }

  /** Nothing in front of the first word or behind the last is kept. */
  lemma SanitizedEdges(gap: string, name: string)
    requires NoLetters(gap)
    ensures Sanitized(name + gap) == Sanitized(name)
    ensures name == [] || IsLetterOrDigit(name[0]) ==> Sanitized(gap + name) == Sanitized(name)
  {
    GapMapped(gap);
    MappedAppend(name, gap);
    TakeAllAppend(START, Mapped(name), Mapped(gap));
    TakeSeparators(TakeAll(START, Mapped(name)), Mapped(gap));
    MappedAppend(gap, name);
    TakeAllAppend(START, Mapped(gap), Mapped(name));
    TakeSeparators(START, Mapped(gap));
    if name != [] && IsLetterOrDigit(name[0]) {
      var first, rest := Mapped(name)[..1], Mapped(name)[1..];
      assert Mapped(name) == first + rest;
      var st := TakeAll(START, Mapped(gap));
      TakeAllAppend(st, first, rest);
      TakeAllAppend(START, first, rest);
      assert IsWord(first);
      TakeWord(st, first);
      TakeWord(START, first);
    }
  }

  lemma {:induction false} LetterFlushes(s: string)
    requires s != [] && IsLetterOrDigit(s[|s| - 1])
    ensures TakeAll(START, Mapped(s)).run == [] && TakeAll(START, Mapped(s)).out != []
  {
    var front := s[..|s| - 1];
    assert Mapped(s) == Mapped(front) + [MapChar(s[|s| - 1])];
    assert Mapped(s)[..|s| - 1] == Mapped(front);
  }

  /** Two words are joined by what may stand for the gap between them. */
  lemma SanitizedGap(name: string, gap: string, w: string) returns (bridge: string)
    requires name != [] && IsLetterOrDigit(name[|name| - 1]) && gap != [] && NoLetters(gap)
    requires w != [] && AllLetters(w)
    ensures Bridges(gap, bridge) && Sanitized(name + gap + w) == Sanitized(name) + bridge + Lower(w)
  {
    GapMapped(gap);
    WordMapped(w);
    LetterFlushes(name);
    var st := TakeAll(START, Mapped(name));
    bridge := if IsSeparator(Mapped(gap)) then Mapped(gap) else "-";
    MappedAppend(name + gap, w);
    MappedAppend(name, gap);
    TakeAllAppend(START, Mapped(name) + Mapped(gap), Mapped(w));
    TakeAllAppend(START, Mapped(name), Mapped(gap));
    TakeSeparators(st, Mapped(gap));
    NoRunBefore(Mapped(gap));
    TakeWord(Scan(st.out, Mapped(gap)), Lower(w));
  }

  // ----- The stem of a path -----

  datatype PathPart = PathPart(text: Option<string>, normal: bool)

  predicate IsSlug(s: string) {
    && s != [] && (forall i :: 0 <= i < |s| ==> IsAlnum(s[i]) || s[i] == '-')
    && IsAlnum(s[0]) && IsAlnum(s[|s| - 1])
  }

  /** The slug of a path ending in `tasks/<slug>/workspace`. */
  function SquadTaskSlug(path: seq<PathPart>): Option<string> {
    var n := |path|;
    if n < 3 || path[n - 1].text.None? || path[n - 2].text.None? || path[n - 3].text.None? then None
    else if path[n - 1].text.value != "workspace" || path[n - 3].text.value != "tasks" then None
    else if IsSlug(path[n - 2].text.value) then path[n - 2].text
    else None
  }

  function ImageStem(path: seq<PathPart>): string {
    var slug := SquadTaskSlug(path);
    if slug.Some? then "squad-" + slug.value
    else
      var last := |path| - 1;
      var folder := if last >= 0 && path[last].normal && path[last].text.Some? then path[last].text.value else "repo";
      var stem := Sanitized(folder);
      if stem == [] then "repo" else stem
  }

  lemma TakeSlugChar(st: Scan, c: char)
    requires st.out != [] && AllHyphens(st.run) && (IsAlnum(c) || c == '-')
    ensures var st' := Take(st, c);
            && st'.out != [] && AllHyphens(st'.run) && st'.out + st'.run == st.out + st.run + [c]
            && (IsAlnum(c) ==> st'.run == [])
  {
    if c == '-' {
      assert st.out + (st.run + [c]) == st.out + st.run + [c];
    } else if st.run == [] {
      assert st.out + st.run == st.out;
    }
  }

  lemma SlugStart(s: string)
    requires |s| == 1 && IsAlnum(s[0])
    ensures TakeAll(START, s) == Scan([s[0]], [])
  {
    assert TakeAll(START, s[..0]) == START;
    assert Take(START, s[0]) == Scan([s[0]], []);
  }

  lemma {:induction false} SlugScan(s: string)
    requires s != [] && (forall i :: 0 <= i < |s| ==> IsAlnum(s[i]) || s[i] == '-') && IsAlnum(s[0])
    ensures var st := TakeAll(START, s);
            st.out != [] && AllHyphens(st.run) && st.out + st.run == s && (IsAlnum(s[|s| - 1]) ==> st.run == [])
  {
    var last := |s| - 1;
    if last == 0 {
      SlugStart(s);
    } else {
      var front := s[..last];
      assert s == front + [s[last]];
      SlugScan(front);
      TakeSlugChar(TakeAll(START, front), s[last]);
      assert TakeAll(START, s) == Take(TakeAll(START, front), s[last]);
    }
  }

  lemma SlugIsComponent(s: string)
    requires IsSlug(s)
    ensures IsComponent(s)
  {
    SlugScan(s);
    TakeAllInGrammar(s);
    var out := TakeAll(START, s).out;
    assert out + [] == out;
  }

  lemma {:induction false} JoinComponents(s: string, t: string)
    requires IsComponent(s) && IsComponent(t)
    ensures IsComponent(s + "-" + t)
    decreases |t|
  {
    if IsWord(t) {
      AddWord(s, "-", t);
    } else {
      var head, sep, w := LastWord(t);
      JoinComponents(s, head);
      AddWord(s + "-" + head, sep, w);
      Assoc(s + "-", head + sep, w);
      Assoc(s + "-", head, sep);
    }
  }

  /** Every path gives a valid image name `awman-<stem>`. */
  lemma ImageNameIsValid(path: seq<PathPart>)
    ensures IsComponent(ImageStem(path)) && IsComponent("awman-" + ImageStem(path))
  {
    StemIsComponent(path);
    assert IsWord("awman");
    JoinComponents("awman", ImageStem(path));
    assert "awman" + "-" + ImageStem(path) == "awman-" + ImageStem(path);
  }

  lemma StemIsComponent(path: seq<PathPart>)
    ensures IsComponent(ImageStem(path))
  {
    var slug := SquadTaskSlug(path);
    if slug.Some? {
      SlugIsComponent(slug.value);
      assert IsWord("squad");
      JoinComponents("squad", slug.value);
      assert "squad" + "-" + slug.value == "squad-" + slug.value;
    } else {
      var last := |path| - 1;
      var named := last >= 0 && path[last].normal && path[last].text.Some?;
      SanitizedIsComponent(if named then path[last].text.value else "repo");
      assert IsWord("repo");
    }
  }

  /** The path ends in `tasks`, a slug and `workspace`. */
  predicate IsTaskWorkspace(path: seq<PathPart>, slug: string) {
    && |path| >= 3 && path[|path| - 3].text == Some("tasks") && path[|path| - 1].text == Some("workspace")
    && path[|path| - 2].text == Some(slug) && IsSlug(slug)
  }

  /** What the stem is: the slug of a squad workspace, else the folder's own name, else `repo`. */
  lemma StemIs(path: seq<PathPart>)
    ensures forall slug :: IsTaskWorkspace(path, slug) ==> ImageStem(path) == "squad-" + slug
    ensures (forall slug :: !IsTaskWorkspace(path, slug)) ==>
              && (forall folder :: path != [] && path[|path| - 1] == PathPart(Some(folder), true) ==>
                                    ImageStem(path) == if Sanitized(folder) == "" then "repo" else Sanitized(folder))
              && ((path == [] || !path[|path| - 1].normal || path[|path| - 1].text.None?) ==> ImageStem(path) == "repo")
  {
    SanitizedWord("repo");
    assert Lower("repo") == "repo";
    if SquadTaskSlug(path).Some? {
      assert IsTaskWorkspace(path, SquadTaskSlug(path).value);
    }
  }
}
