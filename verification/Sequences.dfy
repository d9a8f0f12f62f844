/** Rearranging concatenations, which the solver does not do by itself. */
module Sequences {

  lemma Assoc<T>(a: seq<T>, b: seq<T>, c: seq<T>)
    ensures a + (b + c) == (a + b) + c
  {
  }

  lemma SuffixOfSuffix<T>(s: seq<T>, i: nat, j: nat)
    requires i + j <= |s|
    ensures s[i..][j..] == s[i + j..]
  {
  }

  lemma PrefixOfSuffix<T>(s: seq<T>, i: nat, j: nat)
    requires i + j <= |s|
    ensures s[i..][..j] == s[i..i + j]
  {
  }

  lemma PrefixOfPrefix<T>(s: seq<T>, n: nat, i: nat)
    requires i < n <= |s|
    ensures s[..n][..i] == s[..i] && s[..n][i] == s[i]
  {
  }

  /** A suffix loses its last element with the sequence. */
  lemma SuffixSnoc<T>(s: seq<T>, k: nat)
    requires k < |s|
    ensures s[..|s| - 1][k..] + [s[|s| - 1]] == s[k..]
  {
  }
}
