/** The string operations of the standard library the modelled code calls. */
module Strings {
  import opened Wrappers

  /** Unicode `White_Space`. */
  predicate IsWhitespace(c: char) {
    || '\t' <= c <= '\r' || c == ' ' || c == '\U{85}' || c == '\U{A0}' || c == '\U{1680}'
    || '\U{2000}' <= c <= '\U{200A}' || c == '\U{2028}' || c == '\U{2029}' || c == '\U{202F}'
    || c == '\U{205F}' || c == '\U{3000}'
  }

  function LowerChar(c: char): char {
    if 'A' <= c <= 'Z' then 'a' + (c - 'A') else c
  }

  function Lower(s: string): (r: string)
    ensures |r| == |s| && forall i :: 0 <= i < |s| ==> r[i] == LowerChar(s[i])
  {
    seq(|s|, i requires 0 <= i < |s| => LowerChar(s[i]))
  }

  function TrimStart(s: string): string {
    if s != [] && IsWhitespace(s[0]) then TrimStart(s[1..]) else s
  }

  function TrimEnd(s: string): string {
    if s != [] && IsWhitespace(s[|s| - 1]) then TrimEnd(s[..|s| - 1]) else s
  }

  function Trim(s: string): string {
    TrimEnd(TrimStart(s))
  }

  /** Every leading `c` removed. */
  function TrimStartChar(s: string, c: char): string {
    if s != [] && s[0] == c then TrimStartChar(s[1..], c) else s
  }

  /** Every trailing `c` removed. */
  function TrimEndChar(s: string, c: char): string {
    if s != [] && s[|s| - 1] == c then TrimEndChar(s[..|s| - 1], c) else s
  }

  predicate StartsWith(s: string, t: string) { t <= s }

  predicate EndsWith(s: string, t: string) { |t| <= |s| && s[|s| - |t|..] == t }

  /** `t` occurs in `s` at index `i`. */
  predicate OccursAt(s: string, t: string, i: nat) { i + |t| <= |s| && s[i..i + |t|] == t }

  lemma OccursIndex(s: string, t: string, i: nat, k: nat)
    requires OccursAt(s, t, i) && k < |t|
    ensures s[i + k] == t[k]
  {
    assert s[i..i + |t|][k] == t[k];
  }

  lemma StartsAlike(s: string, t: string, i: nat)
    requires t != []
    ensures OccursAt(s, t, i) ==> s[i] == t[0] && (|t| > 1 ==> s[i + 1] == t[1])
  {
    if OccursAt(s, t, i) {
      OccursIndex(s, t, i, 0);
      if |t| > 1 {
        OccursIndex(s, t, i, 1);
      }
    }
  }

  /** First occurrence of `t` in `s` at index `k` or later. */
  function FindFrom(s: string, t: string, k: nat): (r: Option<nat>)
    ensures r.Some? ==> k <= r.value && OccursAt(s, t, r.value)
                        && forall i: nat :: k <= i < r.value ==> !OccursAt(s, t, i)
    ensures r.None? ==> forall i: nat :: k <= i ==> !OccursAt(s, t, i)
    decreases |s| - k
  {
    if k + |t| > |s| then None
    else if OccursAt(s, t, k) then Some(k)
    else FindFrom(s, t, k + 1)
  }

  function Find(s: string, t: string): Option<nat> {
    FindFrom(s, t, 0)
  }

  predicate Contains(s: string, t: string) { Find(s, t).Some? }
}
