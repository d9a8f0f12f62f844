/** Loops that replace a value until there is nothing left to do. */
module Iteration {
  import opened Wrappers

  /** The value after `n` turns, if the loop does not stop before. */
  function Iterate<T>(turn: T -> Option<T>, x: T, n: nat): Option<T> {
    if n == 0 then Some(x)
    else
      match Iterate(turn, x, n - 1)
      case None => None
      case Some(y) => turn(y)
  }

  ghost predicate Halts<T>(turn: T -> Option<T>, x: T) {
    exists n: nat :: Iterate(turn, x, n).None?
  }

  lemma {:induction false} StaysHalted<T>(turn: T -> Option<T>, x: T, m: nat, n: nat)
    requires m <= n && Iterate(turn, x, m).None?
    ensures Iterate(turn, x, n).None?
    decreases n
  {
    if m < n {
      StaysHalted(turn, x, m, n - 1);
    }
  }

  lemma {:induction false} IterateFrom<T>(turn: T -> Option<T>, x: T, m: nat, n: nat)
    requires Iterate(turn, x, m).Some?
    ensures Iterate(turn, x, m + n) == Iterate(turn, Iterate(turn, x, m).value, n)
  {
    if n > 0 {
      IterateFrom(turn, x, m, n - 1);
    }
  }

  lemma FirstTurn<T>(turn: T -> Option<T>, x: T)
    ensures Iterate(turn, x, 1) == turn(x)
  {
    assert Iterate(turn, x, 0) == Some(x);
  }

  lemma HaltsSooner<T>(turn: T -> Option<T>, x: T, y: T, n: nat)
    requires turn(x) == Some(y) && Iterate(turn, x, n).None?
    ensures n > 0 && Iterate(turn, y, n - 1).None?
  {
    FirstTurn(turn, x);
    IterateFrom(turn, x, 1, n - 1);
  }

  /** One turn, then `m` turns, then `n` turns. */
  lemma TurnsInRow<T>(turn: T -> Option<T>, x: T, y: T, z: T, m: nat, n: nat)
    requires turn(x) == Some(y) && Iterate(turn, y, m) == Some(z)
    ensures Iterate(turn, x, 1 + m + n) == Iterate(turn, z, n)
  {
    FirstTurn(turn, x);
    IterateFrom(turn, x, 1, m);
    IterateFrom(turn, x, 1 + m, n);
  }

  /** A loop whose every turn lowers a measure stops within as many turns as the measure starts with. */
  lemma {:induction false} MeasureFalls<T(!new)>(turn: T -> Option<T>, measure: T -> nat, x: T, n: nat)
    requires forall y :: turn(y).Some? ==> measure(turn(y).value) < measure(y)
    requires Iterate(turn, x, n).Some?
    ensures measure(Iterate(turn, x, n).value) + n <= measure(x)
  {
    if n > 0 {
      MeasureFalls(turn, measure, x, n - 1);
    }
  }

  ghost predicate Falls<T(!new)>(turn: T -> Option<T>, measure: T -> nat) {
    forall y :: turn(y).Some? ==> measure(turn(y).value) < measure(y)
  }

  lemma MeasuredHalts<T(!new)>(turn: T -> Option<T>, measure: T -> nat, x: T, n: nat)
    requires Falls(turn, measure) && measure(x) == n
    ensures Iterate(turn, x, n + 1).None? && Halts(turn, x)
  {
    if Iterate(turn, x, n + 1).Some? {
      MeasureFalls(turn, measure, x, n + 1);
    }
  }

  /** The second loop does on views what the first does on values that keep an invariant. */
  ghost predicate Simulates<S(!new), T>(f: S -> Option<S>, g: T -> Option<T>, view: S -> T, inv: S -> bool) {
    forall x :: inv(x) ==>
                  && (f(x).None? <==> g(view(x)).None?)
                  && (f(x).Some? ==> inv(f(x).value) && g(view(x)).value == view(f(x).value))
  }

  lemma {:induction false} SimulatedTurns<S(!new), T>(f: S -> Option<S>, g: T -> Option<T>,
                                                      view: S -> T, inv: S -> bool, x: S, n: nat)
    requires Simulates(f, g, view, inv) && inv(x)
    ensures var y, z := Iterate(f, x, n), Iterate(g, view(x), n);
            (y.None? <==> z.None?) && (y.Some? ==> inv(y.value) && z.value == view(y.value))
  {
    if n > 0 {
      SimulatedTurns(f, g, view, inv, x, n - 1);
    }
  }

  lemma SimulatedHalts<S(!new), T>(f: S -> Option<S>, g: T -> Option<T>, view: S -> T, inv: S -> bool, x: S)
    requires Simulates(f, g, view, inv) && inv(x)
    ensures Halts(f, x) <==> Halts(g, view(x))
  {
    forall n: nat ensures Iterate(f, x, n).None? <==> Iterate(g, view(x), n).None? {
      SimulatedTurns(f, g, view, inv, x, n);
    }
  }
}
