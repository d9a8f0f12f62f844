/** White space and letter case, and what the operations on them do. */
module TextFacts {
  import opened Sequences
  import opened Strings

  predicate Blank(s: string) { forall i :: 0 <= i < |s| ==> IsWhitespace(s[i]) }

  /** No white space at either end. */
  predicate Tight(s: string) { s == [] || (!IsWhitespace(s[0]) && !IsWhitespace(s[|s| - 1])) }

  predicate SameLetter(x: char, y: char) {
    || x == y
    || ('A' <= x <= 'Z' && y as int == x as int + 32)
    || ('A' <= y <= 'Z' && x as int == y as int + 32)
  }

  predicate SameButCase(a: string, b: string) {
    |a| == |b| && forall i :: 0 <= i < |a| ==> SameLetter(a[i], b[i])
  }

  /** `r` is what lies between the outer white space of `s`. */
  ghost predicate IsTrimmed(s: string, r: string) {
    Tight(r) && exists w1, w2 :: s == w1 + r + w2 && Blank(w1) && Blank(w2)
  }

  // ----- Trimming -----

  lemma {:induction false} TrimStartSplits(s: string) returns (w: string)
    ensures s == w + TrimStart(s) && Blank(w) && (TrimStart(s) == [] || !IsWhitespace(TrimStart(s)[0]))
  {
    if s != [] && IsWhitespace(s[0]) {
      var rest := TrimStartSplits(s[1..]);
      w := [s[0]] + rest;
      assert s == [s[0]] + s[1..];
    } else {
      w := [];
      assert [] + s == s;
    }
  }

  lemma {:induction false} TrimEndSplits(s: string) returns (w: string)
    ensures s == TrimEnd(s) + w && Blank(w)
    ensures TrimEnd(s) == [] || (!IsWhitespace(TrimEnd(s)[|TrimEnd(s)| - 1]) && s != [] && TrimEnd(s)[0] == s[0])
  {
    if s != [] && IsWhitespace(s[|s| - 1]) {
      var front := s[..|s| - 1];
      var rest := TrimEndSplits(front);
      w := rest + [s[|s| - 1]];
      assert s == front + [s[|s| - 1]];
      assert TrimEnd(front) + rest + [s[|s| - 1]] == TrimEnd(front) + w;
    } else {
      w := [];
      assert s + [] == s;
    }
  }

  lemma TrimSplits(s: string) returns (w1: string, w2: string)
    ensures s == w1 + Trim(s) + w2 && Blank(w1) && Blank(w2) && Tight(Trim(s))
  {
    w1 := TrimStartSplits(s);
    w2 := TrimEndSplits(TrimStart(s));
    Assoc(w1, Trim(s), w2);
  }

  lemma {:induction false} TrimStartBehind(w: string, s: string)
    requires Blank(w) && (s == [] || !IsWhitespace(s[0]))
    ensures TrimStart(w + s) == s
    decreases |w|
  {
    if w == [] {
      assert w + s == s;
    } else {
      assert (w + s)[1..] == w[1..] + s && (w + s)[0] == w[0];
      TrimStartBehind(w[1..], s);
    }
  }

  lemma {:induction false} TrimEndBefore(s: string, w: string)
    requires Blank(w) && (s == [] || !IsWhitespace(s[|s| - 1]))
    ensures TrimEnd(s + w) == s
    decreases |w|
  {
    if w == [] {
      assert s + w == s;
    } else {
      var t := s + w;
      assert t[..|t| - 1] == s + w[..|w| - 1] && t[|t| - 1] == w[|w| - 1];
      TrimEndBefore(s, w[..|w| - 1]);
    }
  }

  /** Trimming finds the one tight text between blanks. */
  lemma TrimFinds(w1: string, s: string, w2: string)
    requires Blank(w1) && Tight(s) && Blank(w2)
    ensures Trim(w1 + s + w2) == s
  {
    if s == [] {
      assert w1 + s + w2 == w1 + w2 + [];
      TrimStartBehind(w1 + w2, []);
    } else {
      assert w1 + s + w2 == w1 + (s + w2);
      TrimStartBehind(w1, s + w2);
      TrimEndBefore(s, w2);
    }
  }

  lemma TrimmedIs(s: string, r: string)
    ensures IsTrimmed(s, r) <==> r == Trim(s)
  {
    var w1, w2 := TrimSplits(s);
    if IsTrimmed(s, r) {
      var v1, v2 :| s == v1 + r + v2 && Blank(v1) && Blank(v2);
      TrimFinds(v1, r, v2);
    }
  }

  predicate AllAre(s: string, c: char) { forall i :: 0 <= i < |s| ==> s[i] == c }

  lemma {:induction false} EndStripped(s: string, tail: string, c: char)
    requires AllAre(tail, c) && (s == [] || s[|s| - 1] != c)
    ensures TrimEndChar(s + tail, c) == s
    decreases |tail|
  {
    if tail == [] {
      assert s + tail == s;
    } else {
      var t := s + tail;
      assert t[..|t| - 1] == s + tail[..|tail| - 1] && t[|t| - 1] == tail[|tail| - 1];
      EndStripped(s, tail[..|tail| - 1], c);
    }
  }

  lemma {:induction false} EndSplits(s: string, c: char) returns (tail: string)
    ensures s == TrimEndChar(s, c) + tail && AllAre(tail, c)
    ensures TrimEndChar(s, c) == [] || TrimEndChar(s, c)[|TrimEndChar(s, c)| - 1] != c
  {
    if s != [] && s[|s| - 1] == c {
      var front := s[..|s| - 1];
      var rest := EndSplits(front, c);
      tail := rest + [c];
      assert s == front + [c];
      assert TrimEndChar(front, c) + rest + [c] == TrimEndChar(front, c) + tail;
    } else {
      tail := [];
      assert s + [] == s;
    }
  }

  // ----- Lower case -----

  lemma LowerLetters(x: char, y: char)
    ensures SameLetter(x, y) <==> LowerChar(x) == LowerChar(y)
  {
  }

  lemma LowerTexts(a: string, b: string)
    ensures SameButCase(a, b) <==> Lower(a) == Lower(b)
  {
    forall i | 0 <= i < |a| && i < |b| ensures SameLetter(a[i], b[i]) <==> Lower(a)[i] == Lower(b)[i] {
      LowerLetters(a[i], b[i]);
    }
  }
}
