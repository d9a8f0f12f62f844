/**
 Validation of a session request into a plan (src/command/session_create.rs).
 Filesystem and git probing of a local workdir is the parameter `probe`;
 Unicode lower-casing of a URL is the parameter `toLowercase`.
 */
module SessionCreate {
  import opened Wrappers
  import opened Sequences
  import opened Strings
  import opened TextFacts

  datatype SessionKind = Local | Remote

  datatype Request = Request(
    sessionType: Option<string>,
    workdir: Option<string>,
    repoUrl: Option<string>,
    branch: Option<string>,
    baseRef: Option<string>,
    mergeRefs: seq<string>,
    push: bool)

  datatype Policy = Policy(allowedSchemes: seq<string>, cloneBaseDir: string)

  datatype Plan = Plan(
    kind: SessionKind,
    resolvedWorkdir: string,
    clonedPath: Option<string>,
    repoUrl: Option<string>,
    branch: Option<string>,
    baseRef: Option<string>,
    mergeRefs: seq<string>,
    push: bool)
  {
    /** What every accepted plan satisfies, and what session setup relies on. */
    ghost predicate Valid() {
      match kind
      case Local =>
        && clonedPath.None? && repoUrl.None? && branch.None? && baseRef.None? && mergeRefs == [] && !push
      case Remote =>
        && clonedPath == Some(resolvedWorkdir) && repoUrl.Some?
        && (branch.None? ==> baseRef.None? && mergeRefs == [] && !push)
        && (branch.Some? ==> IsBranchName(branch.value))
        && (forall r :: r in mergeRefs ==> IsBranchName(r) && !LooksLikeSha(r))
    }
  }

  datatype RefProblem =
    | MustNotBeEmpty | ControlCharacter | Space | LeadingDash
    | Forbidden(c: char) | DotDot | AtBrace | AtOrHead | BadSlash | TrailingDot | BadComponent
    | CommitSha | RefsPrefix | OriginPrefix

  datatype CommandError =
    | InvalidType(got: string)
    | WorkdirRequired
    | WorkdirRefused(path: string)
    | RepoUrlRequired
    | RepoUrlEmpty
    | RepoUrlInvalidScheme(url: string)
    | FieldRemoteOnly(field: string)
    | FieldRequiresBranch(field: string)
    | RefInvalid(field: string, value: string, reason: RefProblem)

  // ----- Ref names -----

  predicate IsControl(c: char) { c < '\U{20}' || c == '\U{7F}' }

  function BasicProblem(name: string): Option<RefProblem> {
    if name == [] then Some(MustNotBeEmpty)
    else if exists i :: 0 <= i < |name| && IsControl(name[i]) then Some(ControlCharacter)
    else if ' ' in name then Some(Space)
    else if name[0] == '-' then Some(LeadingDash)
    else None
  }

  predicate IsForbidden(c: char) { c in "~^:?*[\\" }

  function FirstForbidden(name: string): (r: Option<char>)
    ensures r.None? <==> forall c :: c in name ==> !IsForbidden(c)
    ensures r.Some? ==> r.value in name && IsForbidden(r.value)
  {
    if name == [] then None
    else if IsForbidden(name[0]) then Some(name[0])
    else assert name == [name[0]] + name[1..]; FirstForbidden(name[1..])
  }

  /** The parts between slashes. */
  function Components(name: string): (parts: seq<string>)
    ensures |parts| > 0
  {
    if name == [] then [[]]
    else
      var rest := Components(name[1..]);
      if name[0] == '/' then [[]] + rest else [[name[0]] + rest[0]] + rest[1..]
  }

  /** Slashes only separate. */
  predicate SlashesSeparate(name: string) {
    !StartsWith(name, "/") && !EndsWith(name, "/") && !Contains(name, "//")
  }

  predicate IsBadComponent(part: string) { StartsWith(part, ".") || EndsWith(part, ".lock") }

  predicate HasBadComponent(parts: seq<string>) {
    exists k :: 0 <= k < |parts| && IsBadComponent(parts[k])
  }

  predicate AllHex(s: string) {
    forall c :: c in s ==> '0' <= c <= '9' || 'a' <= c <= 'f' || 'A' <= c <= 'F'
  }

  predicate LooksLikeSha(r: string) { 7 <= |r| <= 64 && AllHex(r) }

  function BranchProblem(name: string): Option<RefProblem> {
    if BasicProblem(name).Some? then BasicProblem(name)
    else if FirstForbidden(name).Some? then Some(Forbidden(FirstForbidden(name).value))
    else if Contains(name, "..") then Some(DotDot)
    else if Contains(name, "@{") then Some(AtBrace)
    else if name == "@" || name == "HEAD" then Some(AtOrHead)
    else if !SlashesSeparate(name) then Some(BadSlash)
    else if EndsWith(name, ".") then Some(TrailingDot)
    else if HasBadComponent(Components(name)) then Some(BadComponent)
    else if (|name| == 40 || |name| == 64) && AllHex(name) then Some(CommitSha)
    else if StartsWith(name, "refs/") then Some(RefsPrefix)
    else if StartsWith(name, "origin/") then Some(OriginPrefix)
    else None
  }

  predicate IsBranchName(name: string) { BranchProblem(name).None? }

  /** The part up to the first slash is empty only if the name is empty or starts with one. */
  lemma FirstComponent(name: string)
    ensures Components(name)[0] == [] <==> name == [] || name[0] == '/'
  {
  }

  lemma {:induction false} ComponentsNonEmpty(name: string, k: nat)
    requires name != [] && name[0] != '/' && name[|name| - 1] != '/'
    requires forall i: nat :: i + 1 < |name| && name[i] == '/' ==> name[i + 1] != '/'
    requires k < |Components(name)|
    ensures Components(name)[k] != []
    decreases |name|
  {
    if k > 0 {
      var rest := name[1..];
      if rest != [] {
        if rest[0] == '/' {
          assert name[1 + 1] != '/';
          FirstComponent(rest[1..]);
          assert Components(name)[k] == Components(rest[1..])[k - 1];
          ComponentsNonEmpty(rest[1..], k - 1);
        } else {
          ComponentsNonEmpty(rest, k);
        }
      }
    }
  }

  /** A slash at the end, or before another, is followed by an empty component. */
  lemma {:induction false} EmptyComponent(name: string, i: nat) returns (k: nat)
    requires i < |name| && name[i] == '/' && (i + 1 < |name| ==> name[i + 1] == '/')
    ensures 0 < k < |Components(name)| && Components(name)[k] == []
    decreases |name|
  {
    if i == 0 {
      FirstComponent(name[1..]);
      k := 1;
    } else {
      k := EmptyComponent(name[1..], i - 1);
      k := if name[0] == '/' then k + 1 else k;
    }
  }

  lemma SlashesByIndex(name: string)
    requires name != []
    ensures StartsWith(name, "/") <==> name[0] == '/'
    ensures EndsWith(name, "/") <==> name[|name| - 1] == '/'
    ensures forall i: nat :: OccursAt(name, "//", i) <==> i + 1 < |name| && name[i] == name[i + 1] == '/'
  {
    assert name[..1] == [name[0]] && name[|name| - 1..] == [name[|name| - 1]];
    forall i: nat ensures OccursAt(name, "//", i) <==> i + 1 < |name| && name[i] == name[i + 1] == '/' {
      assert i + 1 < |name| ==> name[i..i + |"//"|] == [name[i], name[i + 1]];
    }
  }

  lemma SlashesByComponent(name: string)
    requires name != []
    ensures SlashesSeparate(name) <==> forall k :: 0 <= k < |Components(name)| ==> Components(name)[k] != []
  {
    SlashesByIndex(name);
    if SlashesSeparate(name) {
      forall i: nat | i + 1 < |name| && name[i] == '/' ensures name[i + 1] != '/' {
        assert !OccursAt(name, "//", i);
      }
      forall k | 0 <= k < |Components(name)| ensures Components(name)[k] != [] {
        ComponentsNonEmpty(name, k);
      }
    } else if name[0] == '/' {
      FirstComponent(name);
    } else {
      var i := if name[|name| - 1] == '/' then |name| - 1 else Find(name, "//").value;
      var k := EmptyComponent(name, i);
    }
  }

  lemma BasicRules(name: string)
    ensures BasicProblem(name).None? <==>
            name != [] && name[0] != '-' && forall c :: c in name ==> !IsControl(c) && c != ' '
  {
    if exists c :: c in name && IsControl(c) {
      var i :| 0 <= i < |name| && IsControl(name[i]);
    }
  }

  /** Every component is non-empty, not hidden and not a lock file. */
  ghost predicate GoodComponents(parts: seq<string>) {
    forall k :: 0 <= k < |parts| ==> parts[k] != [] && !IsBadComponent(parts[k])
  }

  lemma ComponentRules(name: string)
    requires name != []
    ensures SlashesSeparate(name) && !HasBadComponent(Components(name)) <==> GoodComponents(Components(name))
  {
    SlashesByComponent(name);
  }

  lemma EndsWithDot(name: string)
    requires name != []
    ensures EndsWith(name, ".") <==> name[|name| - 1] == '.'
  {
    assert name[|name| - 1..] == [name[|name| - 1]];
  }

  /**
   The accepted branch names: no character git refuses, no option, good
   components between the slashes, and nothing git or awman would read as
   another kind of ref.
   */
  lemma BranchNames(name: string)
    ensures IsBranchName(name) <==>
            && name != [] && name[0] != '-' && name[|name| - 1] != '.'
            && (forall c :: c in name ==> !IsControl(c) && c != ' ') && (forall c :: c in name ==> !IsForbidden(c))
            && !Contains(name, "..") && !Contains(name, "@{") && GoodComponents(Components(name))
            && name != "@" && name != "HEAD" && !((|name| == 40 || |name| == 64) && AllHex(name))
            && !StartsWith(name, "refs/") && !StartsWith(name, "origin/")
  {
    BasicRules(name);
    if name != [] {
      ComponentRules(name);
      EndsWithDot(name);
    }
  }

  /** The fault a reason speaks of. */
  predicate HasFault(name: string, p: RefProblem) {
    match p
    case MustNotBeEmpty => name == []
    case ControlCharacter => exists i :: 0 <= i < |name| && IsControl(name[i])
    case Space => ' ' in name
    case LeadingDash => name != [] && name[0] == '-'
    case Forbidden(c) => c in name && c in {'~', '^', ':', '?', '*', '[', '\\'}
    case DotDot => Contains(name, "..")
    case AtBrace => Contains(name, "@{")
    case AtOrHead => name == "@" || name == "HEAD"
    case BadSlash => StartsWith(name, "/") || EndsWith(name, "/") || Contains(name, "//")
    case TrailingDot => EndsWith(name, ".")
    case BadComponent => exists k :: 0 <= k < |Components(name)| && IsBadComponent(Components(name)[k])
    case CommitSha => 7 <= |name| <= 64 && AllHex(name)
    case RefsPrefix => StartsWith(name, "refs/")
    case OriginPrefix => StartsWith(name, "origin/")
  }

  /** The reason given for refusing a name is true of it. */
  lemma ReasonsAreTrue(name: string, p: RefProblem)
    requires BranchProblem(name) == Some(p)
    ensures HasFault(name, p)
  {
  }

  // ----- repo_folder_from_url -----

  predicate IsFolderChar(c: char) {
    '0' <= c <= '9' || 'a' <= c <= 'z' || 'A' <= c <= 'Z' || c in "-_."
  }

  function FolderChars(s: string): (r: string)
    ensures forall c :: c in r ==> IsFolderChar(c)
    ensures (forall c :: c in s ==> IsFolderChar(c)) ==> r == s
  {
    if s == [] then []
    else
      assert s == s[..|s| - 1] + [s[|s| - 1]];
      FolderChars(s[..|s| - 1]) + if IsFolderChar(s[|s| - 1]) then [s[|s| - 1]] else []
  }

  predicate IsUrlSeparator(c: char) { c == '/' || c == ':' }

  /** What follows the last slash or colon. */
  function LastSegment(s: string): string {
    if s == [] || IsUrlSeparator(s[|s| - 1]) then [] else LastSegment(s[..|s| - 1]) + [s[|s| - 1]]
  }

  function StripSuffix(s: string, t: string): string {
    if EndsWith(s, t) then s[..|s| - |t|] else s
  }

  function RepoFolder(url: string): string {
    var safe := FolderChars(LastSegment(StripSuffix(TrimEndChar(Trim(url), '/'), ".git")));
    if safe == "" || safe == "." || safe == ".." then "repo" else safe
  }

  /** `r` holds what `s` has at the positions `kept`. */
  ghost predicate StandsAt(s: string, r: string, kept: seq<nat>) {
    && |kept| == |r| && (forall i, j :: 0 <= i < j < |kept| ==> kept[i] < kept[j])
    && (forall j :: 0 <= j < |kept| ==> kept[j] < |s| && r[j] == s[kept[j]])
  }

  /** `kept` are the positions of the folder characters. */
  ghost predicate ArePlaces(s: string, kept: seq<nat>) {
    forall i :: i in kept <==> 0 <= i < |s| && IsFolderChar(s[i])
  }

  lemma StandsSnoc(s: string, r: string, kept: seq<nat>, c: char)
    requires StandsAt(s, r, kept)
    ensures StandsAt(s + [c], r, kept) && StandsAt(s + [c], r + [c], kept + [|s|])
  {
  }

  lemma PlacesSnoc(s: string, kept: seq<nat>, c: char)
    requires ArePlaces(s, kept)
    ensures ArePlaces(s + [c], if IsFolderChar(c) then kept + [|s|] else kept)
  {
  }

  lemma {:induction false} FolderCharsInOrder(s: string) returns (kept: seq<nat>)
    ensures StandsAt(s, FolderChars(s), kept) && ArePlaces(s, kept)
  {
    if s == [] {
      kept := [];
    } else {
      var front, last := s[..|s| - 1], s[|s| - 1];
      assert s == front + [last];
      var before := FolderCharsInOrder(front);
      StandsSnoc(front, FolderChars(front), before, last);
      PlacesSnoc(front, before, last);
      kept := if IsFolderChar(last) then before + [|front|] else before;
    }
  }

  lemma {:induction false} LastSegmentSplits(s: string) returns (front: string)
    ensures s == front + LastSegment(s) && (front == [] || IsUrlSeparator(front[|front| - 1]))
    ensures forall c :: c in LastSegment(s) ==> !IsUrlSeparator(c)
  {
    if s == [] || IsUrlSeparator(s[|s| - 1]) {
      front := s;
    } else {
      front := LastSegmentSplits(s[..|s| - 1]);
      assert s == s[..|s| - 1] + [s[|s| - 1]];
      Assoc(front, LastSegment(s[..|s| - 1]), [s[|s| - 1]]);
    }
  }

  /** What a URL is made of: blanks outside, then slashes and an extension behind the last segment. */
  ghost predicate UrlReads(url: string, w1: string, front: string, segment: string, extension: string,
                           slashes: string, w2: string)
  {
    && url == w1 + (front + segment + extension + slashes) + w2 && Blank(w1) && Blank(w2)
    && Tight(front + segment + extension + slashes) && AllAre(slashes, '/')
    && (front + segment + extension == [] || (front + segment + extension)[|front + segment + extension| - 1] != '/')
    && (extension == ".git" || (extension == "" && !EndsWith(front + segment, ".git")))
    && (front == [] || IsUrlSeparator(front[|front| - 1])) && (forall c :: c in segment ==> !IsUrlSeparator(c))
  }

  lemma SuffixSplits(s: string) returns (extension: string)
    ensures s == StripSuffix(s, ".git") + extension
    ensures extension == ".git" || (extension == "" && !EndsWith(StripSuffix(s, ".git"), ".git"))
  {
    extension := if EndsWith(s, ".git") then ".git" else "";
    assert EndsWith(s, ".git") ==> s == s[..|s| - 4] + s[|s| - 4..];
    assert s + [] == s;
  }

  /** The folder is named by the folder characters of the last segment, in order, if they make a name. */
  lemma RepoFolderOfUrl(url: string)
    returns (w1: string, front: string, segment: string, extension: string, slashes: string, w2: string,
             name: string, kept: seq<nat>)
    ensures UrlReads(url, w1, front, segment, extension, slashes, w2)
    ensures StandsAt(segment, name, kept) && ArePlaces(segment, kept)
    ensures RepoFolder(url) == if name == "" || name == "." || name == ".." then "repo" else name
  {
    w1, w2 := TrimSplits(url);
    slashes := EndSplits(Trim(url), '/');
    var path := TrimEndChar(Trim(url), '/');
    extension := SuffixSplits(path);
    front := LastSegmentSplits(StripSuffix(path, ".git"));
    segment := LastSegment(StripSuffix(path, ".git"));
    name := FolderChars(segment);
    kept := FolderCharsInOrder(segment);
  }

  /** The clone lands directly below its base directory, whatever the URL. */
  lemma RepoFolderIsSafe(url: string)
    ensures RepoFolder(url) != "" && RepoFolder(url) != "." && RepoFolder(url) != ".."
    ensures forall c :: c in RepoFolder(url) ==> IsFolderChar(c)
  {
  }

  predicate IsRepoName(name: string) {
    && name != "" && name != "." && name != ".." && !EndsWith(name, ".git")
    && forall c :: c in name ==> IsFolderChar(c)
  }

  lemma {:induction false} LastSegmentOf(prefix: string, sep: char, name: string)
    requires IsUrlSeparator(sep) && forall c :: c in name ==> !IsUrlSeparator(c)
    ensures LastSegment(prefix + [sep] + name) == name
    decreases |name|
  {
    if name == [] {
      assert prefix + [sep] + name == prefix + [sep];
    } else {
      var s, last := prefix + [sep] + name, |name| - 1;
      assert s[..|s| - 1] == prefix + [sep] + name[..last] && s[|s| - 1] == name[last];
      assert forall c :: c in name[..last] ==> c in name;
      LastSegmentOf(prefix, sep, name[..last]);
      assert name == name[..last] + [name[last]];
    }
  }

  lemma NoNewSuffix(front: string, name: string)
    requires front != [] && IsUrlSeparator(front[|front| - 1]) && !EndsWith(name, ".git")
    ensures !EndsWith(front + name, ".git")
  {
    var s := front + name;
    if |name| >= 4 {
      assert s[|s| - 4..] == name[|name| - 4..];
    } else if |s| >= 4 {
      assert s[|s| - 4..][3 - |name|] == front[|front| - 1];
    }
  }

  /** Nothing is trimmed off a text that neither starts with white space nor ends in it or a slash. */
  lemma NothingTrimmed(s: string)
    requires s != [] && !IsWhitespace(s[0]) && !IsWhitespace(s[|s| - 1]) && s[|s| - 1] != '/'
    ensures TrimEndChar(Trim(s), '/') == s
  {
  }

  lemma RepoFolderOf(s: string, name: string)
    requires TrimEndChar(Trim(s), '/') == s && LastSegment(StripSuffix(s, ".git")) == name && IsRepoName(name)
    ensures RepoFolder(s) == name
  {
  }

  /** A repository keeps its own name, with or without `.git` behind it. */
  lemma RepoFolderKeepsName(prefix: string, sep: char, name: string)
    requires prefix != [] && !IsWhitespace(prefix[0]) && IsUrlSeparator(sep) && IsRepoName(name)
    ensures RepoFolder(prefix + [sep] + name) == name && RepoFolder(prefix + [sep] + name + ".git") == name
  {
    var plain, git := prefix + [sep] + name, prefix + [sep] + name + ".git";
    LastSegmentOf(prefix, sep, name);
    assert name[|name| - 1] in name && plain[|plain| - 1] == name[|name| - 1];
    NothingTrimmed(plain);
    NoNewSuffix(prefix + [sep], name);
    RepoFolderOf(plain, name);
    assert git[|git| - 1] == 't';
    NothingTrimmed(git);
    assert git[|git| - 4..] == ".git" && git[..|git| - 4] == plain;
    RepoFolderOf(git, name);
  }

  // ----- validate -----

  function ParseKind(raw: string): Option<SessionKind> {
    var s := Lower(Trim(raw));
    if s == "local" then Some(Local) else if s == "remote" then Some(Remote) else None
  }

  predicate SchemeOk(policy: Policy, lower: string) {
    exists i :: 0 <= i < |policy.allowedSchemes| && StartsWith(lower, policy.allowedSchemes[i])
  }

  function MergeRefProblem(r: string): Option<RefProblem> {
    if BranchProblem(r).Some? then BranchProblem(r)
    else if LooksLikeSha(r) then Some(CommitSha)
    else None
  }

  lemma MergeReasonsAreTrue(name: string, p: RefProblem)
    requires MergeRefProblem(name) == Some(p)
    ensures HasFault(name, p)
  {
    if BranchProblem(name).Some? {
      ReasonsAreTrue(name, p);
    }
  }

  /** Merge ref `i` is the first that is refused, and `e` says so. */
  ghost predicate FirstBadRef(requested: seq<string>, i: nat, e: CommandError) {
    && i < |requested| && (forall j :: 0 <= j < i ==> MergeRefProblem(Trim(requested[j])).None?)
    && MergeRefProblem(Trim(requested[i])).Some?
    && e == RefInvalid("merge_refs", requested[i], MergeRefProblem(Trim(requested[i])).value)
  }

  /** The loop over the requested merge refs: trimmed in order, or the first that is refused. */
  method ValidateMergeRefs(requested: seq<string>) returns (r: Result<seq<string>, CommandError>)
    ensures r.Ok? <==> forall i :: 0 <= i < |requested| ==> MergeRefProblem(Trim(requested[i])).None?
    ensures r.Ok? ==> |r.value| == |requested| && forall i :: 0 <= i < |requested| ==> r.value[i] == Trim(requested[i])
    ensures r.Err? ==> exists i :: FirstBadRef(requested, i, r.error)
  {
    var refs := [];
    for i := 0 to |requested|
      invariant |refs| == i
      invariant forall j :: 0 <= j < i ==> refs[j] == Trim(requested[j]) && MergeRefProblem(Trim(requested[j])).None?
    {
      var name := Trim(requested[i]);
      var problem := MergeRefProblem(name);
      if problem.Some? {
        r := Err(RefInvalid("merge_refs", requested[i], problem.value));
        assert FirstBadRef(requested, i, r.error);
        return;
      }
      refs := refs + [name];
    }
    return Ok(refs);
  }

  function TrimmedOption(o: Option<string>): Option<string> {
    if o.None? then None else Some(Trim(o.value))
  }

  /** A remote request that names a field only its session branch can carry has that branch. */
  predicate BranchGiven(req: Request) {
    req.branch.None? ==> req.baseRef.None? && req.mergeRefs == [] && !req.push
  }

  /** When a remote request is accepted. */
  ghost predicate RemoteAcceptable(req: Request, policy: Policy, toLowercase: string -> string) {
    && req.repoUrl.Some? && Trim(req.repoUrl.value) != [] && SchemeOk(policy, toLowercase(req.repoUrl.value))
    && BranchGiven(req)
    && (req.branch.Some? ==> IsBranchName(Trim(req.branch.value)))
    && (req.baseRef.Some? ==> BasicProblem(Trim(req.baseRef.value)).None?)
    && (forall i :: 0 <= i < |req.mergeRefs| ==> MergeRefProblem(Trim(req.mergeRefs[i])).None?)
  }

  // What is wrong with each part of a remote request, taken alone.

  predicate UrlProblem(req: Request, policy: Policy, toLowercase: string -> string, e: CommandError) {
    if req.repoUrl.None? then e == RepoUrlRequired
    else if Trim(req.repoUrl.value) == [] then e == RepoUrlEmpty
    else !SchemeOk(policy, toLowercase(req.repoUrl.value)) && e == RepoUrlInvalidScheme(req.repoUrl.value)
  }

  predicate BranchFieldProblem(req: Request, e: CommandError) {
    req.branch.Some? && var b := Trim(req.branch.value);
    BranchProblem(b).Some? && e == RefInvalid("branch", b, BranchProblem(b).value)
  }

  predicate BaseRefProblem(req: Request, e: CommandError) {
    req.baseRef.Some? && var b := Trim(req.baseRef.value);
    if req.branch.None? then e == FieldRequiresBranch("base_ref")
    else BasicProblem(b).Some? && e == RefInvalid("base_ref", b, BasicProblem(b).value)
  }

  ghost predicate MergeRefsProblem(req: Request, e: CommandError) {
    req.mergeRefs != [] &&
    if req.branch.None? then e == FieldRequiresBranch("merge_refs")
    else exists i :: FirstBadRef(req.mergeRefs, i, e)
  }

  predicate PushProblem(req: Request, e: CommandError) {
    req.push && req.branch.None? && e == FieldRequiresBranch("push")
  }

  /** Field number `field`, in the order the fields are considered, is refused with `e`. */
  ghost predicate FieldProblem(req: Request, policy: Policy, toLowercase: string -> string,
                               field: nat, e: CommandError)
  {
    match field
    case 0 => UrlProblem(req, policy, toLowercase, e)
    case 1 => BranchFieldProblem(req, e)
    case 2 => BaseRefProblem(req, e)
    case 3 => MergeRefsProblem(req, e)
    case 4 => PushProblem(req, e)
    case _ => false
  }

  /** `e` is about the first field with anything wrong with it. */
  ghost predicate RemoteRefused(req: Request, policy: Policy, toLowercase: string -> string, e: CommandError) {
    exists field :: FieldProblem(req, policy, toLowercase, field, e)
                    && forall g, x :: g < field ==> !FieldProblem(req, policy, toLowercase, g, x)
  }

  lemma AcceptedRefs(requested: seq<string>, refs: seq<string>)
    requires |refs| == |requested| && forall i :: 0 <= i < |refs| ==> refs[i] == Trim(requested[i])
    requires forall i :: 0 <= i < |requested| ==> MergeRefProblem(Trim(requested[i])).None?
    ensures forall r :: r in refs ==> IsBranchName(r) && !LooksLikeSha(r)
  {
    forall r | r in refs ensures IsBranchName(r) && !LooksLikeSha(r) {
      var i :| 0 <= i < |refs| && refs[i] == r;
      assert MergeRefProblem(Trim(requested[i])).None?;
    }
  }

  /** Where the repository is cloned to. */
  function ClonePath(policy: Policy, url: string): string {
    policy.cloneBaseDir + "/" + RepoFolder(url)
  }

  method ValidateRemote(req: Request, policy: Policy, toLowercase: string -> string)
    returns (r: Result<Plan, CommandError>)
    ensures r.Ok? <==> RemoteAcceptable(req, policy, toLowercase)
    ensures r.Err? ==> RemoteRefused(req, policy, toLowercase, r.error)
    ensures r.Ok? ==>
              && (var cloned := ClonePath(policy, req.repoUrl.value);
                  r.value == Plan(Remote, cloned, Some(cloned), req.repoUrl, TrimmedOption(req.branch),
                                  TrimmedOption(req.baseRef), r.value.mergeRefs, req.push))
              && |r.value.mergeRefs| == |req.mergeRefs|
              && (forall i :: 0 <= i < |req.mergeRefs| ==> r.value.mergeRefs[i] == Trim(req.mergeRefs[i]))
              && r.value.Valid()
  {
    if req.repoUrl.None? {
      r := Err(RepoUrlRequired);
      assert FieldProblem(req, policy, toLowercase, 0, r.error);
      return;
    }
    if Trim(req.repoUrl.value) == [] {
      r := Err(RepoUrlEmpty);
      assert FieldProblem(req, policy, toLowercase, 0, r.error);
      return;
    }
    if !SchemeOk(policy, toLowercase(req.repoUrl.value)) {
      r := Err(RepoUrlInvalidScheme(req.repoUrl.value));
      assert FieldProblem(req, policy, toLowercase, 0, r.error);
      return;
    }
    var branch := TrimmedOption(req.branch);
    if branch.Some? && BranchProblem(branch.value).Some? {
      r := Err(RefInvalid("branch", branch.value, BranchProblem(branch.value).value));
      assert FieldProblem(req, policy, toLowercase, 1, r.error);
      return;
    }
    var baseRef := TrimmedOption(req.baseRef);
    if baseRef.Some? {
      if branch.None? {
        r := Err(FieldRequiresBranch("base_ref"));
        assert FieldProblem(req, policy, toLowercase, 2, r.error);
        return;
      }
      if BasicProblem(baseRef.value).Some? {
        r := Err(RefInvalid("base_ref", baseRef.value, BasicProblem(baseRef.value).value));
        assert FieldProblem(req, policy, toLowercase, 2, r.error);
        return;
      }
    }
    if req.mergeRefs != [] && branch.None? {
      r := Err(FieldRequiresBranch("merge_refs"));
      assert FieldProblem(req, policy, toLowercase, 3, r.error);
      return;
    }
    var mergeRefs := ValidateMergeRefs(req.mergeRefs);
    if mergeRefs.Err? {
      r := Err(mergeRefs.error);
      assert FieldProblem(req, policy, toLowercase, 3, r.error);
      return;
    }
    if req.push && branch.None? {
      r := Err(FieldRequiresBranch("push"));
      assert FieldProblem(req, policy, toLowercase, 4, r.error);
      return;
    }
    AcceptedRefs(req.mergeRefs, mergeRefs.value);
    var cloned := ClonePath(policy, req.repoUrl.value);
    r := Ok(Plan(Remote, cloned, Some(cloned), req.repoUrl, branch, baseRef, mergeRefs.value, req.push));
  }

  function RawKind(req: Request): string {
    if req.sessionType.None? then "local" else req.sessionType.value
  }

  /** When a local request is accepted; `probe` answers for the filesystem. */
  ghost predicate LocalAcceptable(req: Request, probe: string -> Result<string, CommandError>) {
    req.baseRef.None? && req.mergeRefs == [] && !req.push && req.workdir.Some? && probe(req.workdir.value).Ok?
  }

  /** Check number `field` of a local request, in order, refuses it with `e`. */
  predicate LocalProblem(req: Request, probe: string -> Result<string, CommandError>, field: nat, e: CommandError) {
    match field
    case 0 => req.baseRef.Some? && e == FieldRemoteOnly("base_ref")
    case 1 => req.mergeRefs != [] && e == FieldRemoteOnly("merge_refs")
    case 2 => req.push && e == FieldRemoteOnly("push")
    case 3 => if req.workdir.None? then e == WorkdirRequired else probe(req.workdir.value) == Err(e)
    case _ => false
  }

  ghost predicate LocalRefused(req: Request, probe: string -> Result<string, CommandError>, e: CommandError) {
    exists field :: LocalProblem(req, probe, field, e)
                    && forall g, x :: g < field ==> !LocalProblem(req, probe, g, x)
  }

  /** A kind is spelled in any case, with white space around it; without one the session is local. */
  ghost predicate Spells(raw: string, word: string) {
    exists core :: IsTrimmed(raw, core) && SameButCase(core, word)
  }

  lemma KindOf(req: Request)
    ensures ParseKind(RawKind(req)) == Some(Local) <==>
            req.sessionType.None? || Spells(req.sessionType.value, "local")
    ensures ParseKind(RawKind(req)) == Some(Remote) <==>
            req.sessionType.Some? && Spells(req.sessionType.value, "remote")
  {
    var raw := RawKind(req);
    assert Lower("local") == "local" && Lower("remote") == "remote";
    TrimFinds([], "local", []);
    assert [] + "local" + [] == "local";
    LowerTexts(Trim(raw), "local");
    LowerTexts(Trim(raw), "remote");
    forall core ensures IsTrimmed(raw, core) <==> core == Trim(raw) {
      TrimmedIs(raw, core);
    }
  }

  method Validate(req: Request, policy: Policy, toLowercase: string -> string,
                  probe: string -> Result<string, CommandError>)
    returns (r: Result<Plan, CommandError>)
    ensures r.Ok? <==> match ParseKind(RawKind(req))
                       case None => false
                       case Some(Remote) => RemoteAcceptable(req, policy, toLowercase)
                       case Some(Local) => LocalAcceptable(req, probe)
    ensures r.Err? ==> match ParseKind(RawKind(req))
                       case None => r.error == InvalidType(RawKind(req))
                       case Some(Remote) => RemoteRefused(req, policy, toLowercase, r.error)
                       case Some(Local) => LocalRefused(req, probe, r.error)
    ensures r.Ok? ==> r.value.Valid() && ParseKind(RawKind(req)) == Some(r.value.kind)
    ensures r.Ok? && r.value.kind.Remote? ==>
              && req.repoUrl.Some? && r.value.resolvedWorkdir == ClonePath(policy, req.repoUrl.value)
              && |r.value.mergeRefs| == |req.mergeRefs|
              && forall i :: 0 <= i < |req.mergeRefs| ==> r.value.mergeRefs[i] == Trim(req.mergeRefs[i])
    ensures r.Ok? && r.value.kind.Local? ==> probe(req.workdir.value) == Ok(r.value.resolvedWorkdir)
  {
    var raw := RawKind(req);
    var kind := ParseKind(raw);
    if kind.None? {
      return Err(InvalidType(raw));
    }
    if kind.value.Remote? {
      r := ValidateRemote(req, policy, toLowercase);
      return;
    }
    if req.baseRef.Some? {
      r := Err(FieldRemoteOnly("base_ref"));
      assert LocalProblem(req, probe, 0, r.error);
      return;
    }
    if req.mergeRefs != [] {
      r := Err(FieldRemoteOnly("merge_refs"));
      assert LocalProblem(req, probe, 1, r.error);
      return;
    }
    if req.push {
      r := Err(FieldRemoteOnly("push"));
      assert LocalProblem(req, probe, 2, r.error);
      return;
    }
    if req.workdir.None? {
      r := Err(WorkdirRequired);
      assert LocalProblem(req, probe, 3, r.error);
      return;
    }
    var requested := probe(req.workdir.value);
    if requested.Err? {
      r := Err(requested.error);
      assert LocalProblem(req, probe, 3, r.error);
      return;
    }
    r := Ok(Plan(Local, requested.value, None, None, None, None, [], false));
  }
}
