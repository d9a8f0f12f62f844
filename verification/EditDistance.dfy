/**
 "Did you mean" suggestions (src/data/text.rs): the edit distance computed
 with two swapped rows, and the nearest candidates ranked by it.
 */
module EditDistance {

  // ----- The reference: shortest sequences of single edits -----

  ghost predicate IsInsertion(s: string, t: string, i: nat) {
    i < |t| && s == t[..i] + t[i + 1..]
  }

  ghost predicate IsSubstitution(s: string, t: string, i: nat) {
    |s| == |t| && i < |s| && s[..i] == t[..i] && s[i + 1..] == t[i + 1..]
  }

  /** `t` is `s` with one character inserted, deleted or substituted. */
  ghost predicate OneEdit(s: string, t: string) {
    || (exists i: nat :: IsInsertion(s, t, i))
    || (exists i: nat :: IsInsertion(t, s, i))
    || (exists i: nat :: IsSubstitution(s, t, i))
  }

  /** Each string is one edit away from the next. */
  ghost predicate IsEditPath(p: seq<string>) {
    |p| > 0 && forall i :: 0 <= i < |p| - 1 ==> OneEdit(p[i], p[i + 1])
  }

  /** `k` single edits lead from `s` to `t`. */
  ghost predicate Edits(s: string, t: string, k: nat) {
    exists p :: IsEditPath(p) && |p| == k + 1 && p[0] == s && p[k] == t
  }

  ghost predicate IsEditDistance(s: string, t: string, d: nat) {
    && Edits(s, t, d)
    && forall k: nat :: Edits(s, t, k) ==> d <= k
  }

  // ----- The recurrence the rows hold -----

  function Min(x: nat, y: nat): nat { if x <= y then x else y }

  /** Distance of two strings by their last characters; equal ones are skipped without a minimum. */
  function Dist(a: string, b: string): (d: nat)
    decreases |a| + |b|
  {
    if a == [] then |b|
    else if b == [] then |a|
    else
      var a', b' := a[..|a| - 1], b[..|b| - 1];
      if a[|a| - 1] == b[|b| - 1] then Dist(a', b')
      else 1 + Min(Min(Dist(a', b'), Dist(a', b)), Dist(a, b'))
  }

  predicate Near(x: nat, y: nat) { x <= y + 1 && y <= x + 1 }

  lemma DistSnoc(a: string, x: char, b: string, y: char)
    ensures Dist(a + [x], b + [y]) ==
            if x == y then Dist(a, b) else 1 + Min(Min(Dist(a, b), Dist(a, b + [y])), Dist(a + [x], b))
  {
    assert (a + [x])[..|a|] == a && (b + [y])[..|b|] == b;
  }

  /** Appending one character to either string moves the distance by at most one. */
  lemma {:induction false} AppendIsNear(a: string, b: string, x: char)
    ensures Near(Dist(a + [x], b), Dist(a, b))
    ensures Near(Dist(a, b + [x]), Dist(a, b))
    decreases |a| + |b|
  {
    if b != [] {
      var b', z := b[..|b| - 1], b[|b| - 1];
      assert b == b' + [z];
      DistSnoc(a, x, b', z);
      AppendIsNear(a, b', x);
      AppendIsNear(a, b', z);
    }
    if a != [] {
      var a', z := a[..|a| - 1], a[|a| - 1];
      assert a == a' + [z];
      DistSnoc(a', z, b, x);
      AppendIsNear(a', b, x);
      AppendIsNear(a', b, z);
    }
  }

  /** Inserting one character anywhere moves the distance by at most one. */
  lemma {:induction false} InsertIsNear(u: string, x: char, v: string, c: string)
    ensures Near(Dist(u + [x] + v, c), Dist(u + v, c))
    decreases |v| + |c|
  {
    if v == [] {
      assert u + [x] + v == u + [x] && u + v == u;
      AppendIsNear(u, c, x);
    } else if c != [] {
      var v', y, c', z := v[..|v| - 1], v[|v| - 1], c[..|c| - 1], c[|c| - 1];
      assert u + [x] + v == (u + [x] + v') + [y] && u + v == (u + v') + [y] && c == c' + [z];
      DistSnoc(u + [x] + v', y, c', z);
      DistSnoc(u + v', y, c', z);
      InsertIsNear(u, x, v', c');
      InsertIsNear(u, x, v', c);
      InsertIsNear(u, x, v, c');
    }
  }

  lemma {:induction false} SubstituteLastIsNear(u: string, x: char, y: char, c: string)
    ensures Near(Dist(u + [x], c), Dist(u + [y], c))
  {
    if c != [] {
      var c', z := c[..|c| - 1], c[|c| - 1];
      assert c == c' + [z];
      DistSnoc(u, x, c', z);
      DistSnoc(u, y, c', z);
      SubstituteLastIsNear(u, x, y, c');
      AppendIsNear(u, c', z);
      AppendIsNear(u, c', x);
      AppendIsNear(u, c', y);
    }
  }

  /** Substituting one character anywhere moves the distance by at most one. */
  lemma {:induction false} SubstituteIsNear(u: string, x: char, y: char, v: string, c: string)
    ensures Near(Dist(u + [x] + v, c), Dist(u + [y] + v, c))
    decreases |v| + |c|
  {
    if v == [] {
      assert u + [x] + v == u + [x] && u + [y] + v == u + [y];
      SubstituteLastIsNear(u, x, y, c);
    } else if c != [] {
      var v', w, c', z := v[..|v| - 1], v[|v| - 1], c[..|c| - 1], c[|c| - 1];
      assert u + [x] + v == (u + [x] + v') + [w] && u + [y] + v == (u + [y] + v') + [w] && c == c' + [z];
      DistSnoc(u + [x] + v', w, c', z);
      DistSnoc(u + [y] + v', w, c', z);
      SubstituteIsNear(u, x, y, v', c');
      SubstituteIsNear(u, x, y, v', c);
      SubstituteIsNear(u, x, y, v, c');
    }
  }

  lemma InsertionIsNear(s: string, t: string, i: nat, c: string)
    requires IsInsertion(s, t, i)
    ensures Near(Dist(s, c), Dist(t, c))
  {
    InsertIsNear(t[..i], t[i], t[i + 1..], c);
    assert t == t[..i] + [t[i]] + t[i + 1..];
  }

  lemma SubstitutionIsNear(s: string, t: string, i: nat, c: string)
    requires IsSubstitution(s, t, i)
    ensures Near(Dist(s, c), Dist(t, c))
  {
    SubstituteIsNear(s[..i], s[i], t[i], s[i + 1..], c);
    assert s == s[..i] + [s[i]] + s[i + 1..] && t == s[..i] + [t[i]] + s[i + 1..];
  }

  lemma OneEditIsNear(s: string, t: string, c: string)
    requires OneEdit(s, t)
    ensures Near(Dist(s, c), Dist(t, c))
  {
    if i: nat :| IsInsertion(s, t, i) {
      InsertionIsNear(s, t, i, c);
    } else if i: nat :| IsInsertion(t, s, i) {
      InsertionIsNear(t, s, i, c);
    } else {
      var i: nat :| IsSubstitution(s, t, i);
      SubstitutionIsNear(s, t, i, c);
    }
  }

  lemma {:induction false} DistSelf(s: string)
    ensures Dist(s, s) == 0
  {
    if s != [] {
      DistSelf(s[..|s| - 1]);
    }
  }

  lemma {:induction false} PathBoundsDist(p: seq<string>, i: nat)
    requires IsEditPath(p) && i < |p|
    ensures Dist(p[0], p[i]) <= i
  {
    if i == 0 {
      DistSelf(p[0]);
    } else {
      PathBoundsDist(p, i - 1);
      DistSymmetric(p[0], p[i - 1]);
      DistSymmetric(p[0], p[i]);
      OneEditIsNear(p[i - 1], p[i], p[0]);
    }
  }

  lemma {:induction false} DistSymmetric(a: string, b: string)
    ensures Dist(a, b) == Dist(b, a)
    decreases |a| + |b|
  {
    if a != [] && b != [] {
      DistSymmetric(a[..|a| - 1], b[..|b| - 1]);
      DistSymmetric(a[..|a| - 1], b);
      DistSymmetric(a, b[..|b| - 1]);
    }
  }

  /** No sequence of edits is shorter than the recurrence. */
  lemma NoShorterEdits(s: string, t: string, k: nat)
    requires Edits(s, t, k)
    ensures Dist(s, t) <= k
  {
    var p :| IsEditPath(p) && |p| == k + 1 && p[0] == s && p[k] == t;
    PathBoundsDist(p, k);
  }

  // ----- The recurrence is reached -----

  lemma AppendOneEdit(s: string, t: string, x: char)
    requires OneEdit(s, t)
    ensures OneEdit(s + [x], t + [x])
  {
    if i: nat :| IsInsertion(s, t, i) {
      assert (t + [x])[..i] == t[..i] && (t + [x])[i + 1..] == t[i + 1..] + [x];
      assert IsInsertion(s + [x], t + [x], i);
    } else if i: nat :| IsInsertion(t, s, i) {
      assert (s + [x])[..i] == s[..i] && (s + [x])[i + 1..] == s[i + 1..] + [x];
      assert IsInsertion(t + [x], s + [x], i);
    } else {
      var i: nat :| IsSubstitution(s, t, i);
      assert (s + [x])[..i] == s[..i] && (s + [x])[i + 1..] == s[i + 1..] + [x];
      assert (t + [x])[..i] == t[..i] && (t + [x])[i + 1..] == t[i + 1..] + [x];
      assert IsSubstitution(s + [x], t + [x], i);
    }
  }

  lemma AppendEdits(s: string, t: string, k: nat, x: char)
    requires Edits(s, t, k)
    ensures Edits(s + [x], t + [x], k)
  {
    var p :| IsEditPath(p) && |p| == k + 1 && p[0] == s && p[k] == t;
    var q := seq(k + 1, i requires 0 <= i <= k => p[i] + [x]);
    forall i | 0 <= i < |q| - 1 ensures OneEdit(q[i], q[i + 1]) {
      AppendOneEdit(p[i], p[i + 1], x);
    }
    assert IsEditPath(q) && q[0] == s + [x] && q[k] == t + [x];
  }

  lemma ComposeEdits(s: string, m: string, t: string, j: nat, k: nat)
    requires Edits(s, m, j) && Edits(m, t, k)
    ensures Edits(s, t, j + k)
  {
    var p :| IsEditPath(p) && |p| == j + 1 && p[0] == s && p[j] == m;
    var q :| IsEditPath(q) && |q| == k + 1 && q[0] == m && q[k] == t;
    var r := p + q[1..];
    forall i | 0 <= i < |r| - 1 ensures OneEdit(r[i], r[i + 1]) {
      if i < j {
        assert r[i] == p[i] && r[i + 1] == p[i + 1];
      } else {
        assert r[i] == q[i - j] && r[i + 1] == q[i - j + 1];
      }
    }
    assert IsEditPath(r) && r[0] == s && r[j + k] == t;
  }

  lemma OneEditIsEdits(s: string, t: string)
    requires OneEdit(s, t)
    ensures Edits(s, t, 1)
  {
    assert IsEditPath([s, t]);
  }

  lemma LastCharacterEdits(s: string, x: char, y: char)
    ensures OneEdit(s, s + [x]) && OneEdit(s + [x], s) && OneEdit(s + [x], s + [y])
  {
    assert (s + [x])[..|s|] == s && (s + [x])[|s| + 1..] == [] && (s + [y])[..|s|] == s && (s + [y])[|s| + 1..] == [];
    assert IsInsertion(s, s + [x], |s|);
    assert IsSubstitution(s + [x], s + [y], |s|);
  }

  lemma InsertLast(a: string, b: string, y: char, k: nat)
    requires Edits(a, b, k)
    ensures Edits(a, b + [y], k + 1)
  {
    LastCharacterEdits(b, y, y);
    OneEditIsEdits(b, b + [y]);
    ComposeEdits(a, b, b + [y], k, 1);
  }

  lemma DeleteLast(a: string, x: char, b: string, k: nat)
    requires Edits(a, b, k)
    ensures Edits(a + [x], b, k + 1)
  {
    LastCharacterEdits(a, x, x);
    OneEditIsEdits(a + [x], a);
    ComposeEdits(a + [x], a, b, 1, k);
  }

  lemma SubstituteLast(a: string, x: char, b: string, y: char, k: nat)
    requires Edits(a, b, k)
    ensures Edits(a + [x], b + [y], k + 1)
  {
    AppendEdits(a, b, k, x);
    LastCharacterEdits(b, x, y);
    OneEditIsEdits(b + [x], b + [y]);
    ComposeEdits(a + [x], b + [x], b + [y], k, 1);
  }

  /** Some sequence of edits is as short as the recurrence. */
  lemma {:induction false} EditsReach(a: string, b: string)
    ensures Edits(a, b, Dist(a, b))
    decreases |a| + |b|
  {
    if a == [] && b == [] {
      assert IsEditPath([a]);
    } else if a == [] {
      var b', y := b[..|b| - 1], b[|b| - 1];
      assert b == b' + [y];
      EditsReach(a, b');
      InsertLast(a, b', y, Dist(a, b'));
    } else if b == [] {
      var a', x := a[..|a| - 1], a[|a| - 1];
      assert a == a' + [x];
      EditsReach(a', b);
      DeleteLast(a', x, b, Dist(a', b));
    } else {
      var a', x, b', y := a[..|a| - 1], a[|a| - 1], b[..|b| - 1], b[|b| - 1];
      assert a == a' + [x] && b == b' + [y];
      EditsReach(a', b');
      EditsReach(a', b);
      EditsReach(a, b');
      DistSnoc(a', x, b', y);
      LastStep(a', x, b', y, Dist(a, b), Dist(a', b'), Dist(a', b), Dist(a, b'));
    }
  }

  lemma LastStep(a: string, x: char, b: string, y: char, d: nat, both: nat, left: nat, right: nat)
    requires Edits(a, b, both) && Edits(a, b + [y], left) && Edits(a + [x], b, right)
    requires d == if x == y then both else 1 + Min(Min(both, left), right)
    ensures Edits(a + [x], b + [y], d)
  {
    if x == y {
      AppendEdits(a, b, d, x);
    } else if d == 1 + both {
      SubstituteLast(a, x, b, y, d - 1);
    } else if d == 1 + left {
      DeleteLast(a, x, b + [y], d - 1);
    } else {
      InsertLast(a + [x], b, y, d - 1);
    }
  }

  /** The recurrence is the length of a shortest sequence of single edits. */
  lemma DistIsEditDistance(a: string, b: string)
    ensures IsEditDistance(a, b, Dist(a, b))
  {
    EditsReach(a, b);
    forall k: nat | Edits(a, b, k) ensures Dist(a, b) <= k {
      NoShorterEdits(a, b, k);
    }
  }

  /** The distance is a metric. */
  lemma DistIsMetric(a: string, b: string, c: string)
    ensures Dist(a, b) == 0 <==> a == b
    ensures Dist(a, b) == Dist(b, a)
    ensures Dist(a, c) <= Dist(a, b) + Dist(b, c)
  {
    DistSelf(a);
    DistSymmetric(a, b);
    EditsReach(a, b);
    EditsReach(b, c);
    ComposeEdits(a, b, c, Dist(a, b), Dist(b, c));
    NoShorterEdits(a, c, Dist(a, b) + Dist(b, c));
  }

  // ----- levenshtein -----

  /** `row[j]` is the distance from the prefix `p` to the prefix of length `j` of `b`, for `j <= n`. */
  ghost predicate IsRow(row: seq<nat>, p: string, b: string, n: nat) {
    n <= |b| && n < |row| && forall j :: 0 <= j <= n ==> row[j] == Dist(p, b[..j])
  }

  method Levenshtein(a: string, b: string) returns (d: nat)
    ensures d == Dist(a, b)
    ensures IsEditDistance(a, b, d)
  {
    var n := |b|;
    var prev := new nat[n + 1](j => j);
    var current := new nat[n + 1](_ => 0);
    for i := 0 to |a|
      invariant fresh(prev) && fresh(current) && prev != current
      invariant prev.Length == current.Length == n + 1
      invariant IsRow(prev[..], a[..i], b, n)
    {
      current[0] := i + 1;
      var ca := a[i];
      assert a[..i + 1] == a[..i] + [ca];
      for j := 0 to n
        invariant IsRow(prev[..], a[..i], b, n)
        invariant IsRow(current[..], a[..i + 1], b, j)
      {
        assert b[..j + 1] == b[..j] + [b[j]];
        DistSnoc(a[..i], ca, b[..j], b[j]);
        current[j + 1] := if ca == b[j] then prev[j] else 1 + Min(Min(prev[j], prev[j + 1]), current[j]);
      }
      prev, current := current, prev;
    }
    assert a[..|a|] == a && b[..n] == b;
    DistIsEditDistance(a, b);
    d := prev[n];
  }

  // ----- nearest -----

  datatype Scored = Scored(distance: nat, order: nat)

  /** The sort key: distance first, then the position the candidate was given in. */
  predicate Before(x: Scored, y: Scored) {
    x.distance < y.distance || (x.distance == y.distance && x.order < y.order)
  }

  ghost predicate Ranked(s: seq<Scored>) {
    forall i, j :: 0 <= i < j < |s| ==> Before(s[i], s[j])
  }

  /** `s` holds exactly the candidates before position `n` within `max` edits, nearest first. */
  ghost predicate IsRanking(s: seq<Scored>, input: string, candidates: seq<string>, max: nat, n: nat)
    requires n <= |candidates|
  {
    && Ranked(s)
    && (forall x :: x in s <==> x.order < n && x.distance == Dist(input, candidates[x.order]) && x.distance <= max)
  }

  ghost predicate Lists(r: seq<string>, candidates: seq<string>, s: seq<Scored>) {
    |r| == |s| && forall i :: 0 <= i < |s| ==> s[i].order < |candidates| && r[i] == candidates[s[i].order]
  }

  /** One insertion step of the sort by key. */
  method InsertScored(s: seq<Scored>, x: Scored) returns (r: seq<Scored>)
    requires Ranked(s) && forall y :: y in s ==> y.order != x.order
    ensures Ranked(r)
    ensures forall y :: y in r <==> y in s || y == x
  {
    var i := 0;
    while i < |s| && Before(s[i], x)
      invariant 0 <= i <= |s|
      invariant forall j :: 0 <= j < i ==> Before(s[j], x)
    {
      i := i + 1;
    }
    forall j | i <= j < |s| ensures Before(x, s[j]) {
      assert s[i] in s && (i < j ==> Before(s[i], s[j]));
    }
    InsertRanked(s, i, x);
    r := s[..i] + [x] + s[i..];
  }

  lemma InsertRanked(s: seq<Scored>, i: nat, x: Scored)
    requires Ranked(s) && i <= |s|
    requires forall j :: 0 <= j < i ==> Before(s[j], x)
    requires forall j :: i <= j < |s| ==> Before(x, s[j])
    ensures Ranked(s[..i] + [x] + s[i..])
    ensures forall y :: y in s[..i] + [x] + s[i..] <==> y in s || y == x
  {
    var r := s[..i] + [x] + s[i..];
    assert forall j :: 0 <= j < |r| ==> r[j] == if j < i then s[j] else if j == i then x else s[j - 1];
    assert s == s[..i] + s[i..];
  }

  /** The ranking is the only one: nearest first, ties in the order given. */
  method Nearest(input: string, candidates: seq<string>, maxDistance: nat) returns (r: seq<string>)
    ensures exists s: seq<Scored> ::
              IsRanking(s, input, candidates, maxDistance, |candidates|) && Lists(r, candidates, s)
  {
    var scored: seq<Scored> := [];
    for i := 0 to |candidates|
      invariant IsRanking(scored, input, candidates, maxDistance, i)
    {
      var distance := Levenshtein(input, candidates[i]);
      if distance <= maxDistance {
        scored := InsertScored(scored, Scored(distance, i));
      }
    }
    assert forall i :: 0 <= i < |scored| ==> scored[i] in scored;
    r := seq(|scored|, i requires 0 <= i < |scored| => assert scored[i] in scored; candidates[scored[i].order]);
  }

  lemma RankedTail(s: seq<Scored>, x: Scored)
    requires Ranked(s) && s != []
    ensures x in s[1..] <==> x in s && x != s[0]
    ensures x in s ==> x == s[0] || Before(s[0], x)
  {
    if x in s[1..] {
      var j :| 0 <= j < |s[1..]| && s[1..][j] == x;
      assert Before(s[0], s[j + 1]);
    }
    assert s == [s[0]] + s[1..];
  }

  lemma {:induction false} RankingIsUnique(s: seq<Scored>, t: seq<Scored>)
    requires Ranked(s) && Ranked(t) && forall x :: x in s <==> x in t
    ensures s == t
  {
    assert s != [] ==> s[0] in s;
    assert t != [] ==> t[0] in t;
    if s != [] {
      RankedTail(s, t[0]);
      RankedTail(t, s[0]);
      forall x ensures x in s[1..] <==> x in t[1..] {
        RankedTail(s, x);
        RankedTail(t, x);
      }
      RankingIsUnique(s[1..], t[1..]);
      assert s == [s[0]] + s[1..] && t == [t[0]] + t[1..];
    }
  }
}
