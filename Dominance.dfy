/**
 * The three entity types and the cyclic dominance rule of the
 * Rock-Paper-Scissors swarm: Rock beats Scissors, Scissors beats Paper,
 * Paper beats Rock.
 */
module Dominance {

  datatype Type = Rock | Paper | Scissors

  /** A possibly absent value; `None` plays the part of Java's `null`. */
  datatype Option<T> = None | Some(value: T)

  /** The reference relation: `x` beats `y`. Exactly the three cyclic wins. */
  predicate Beats(x: Type, y: Type) {
    (x == Rock && y == Scissors) ||
    (x == Scissors && y == Paper) ||
    (x == Paper && y == Rock)
  }

  /**
   * The winner of a meeting between an `a` and a `b`, or `None` on a tie.
   * The checks are made in the source's order, one pair of directions at a time.
   */
  function WinnerOf(a: Type, b: Type): (w: Option<Type>)
    ensures w.None? <==> a == b
    ensures w.Some? ==> (w.value == a || w.value == b)
    ensures w == Some(a) <==> Beats(a, b)
    ensures w == Some(b) <==> Beats(b, a)
  {
    if a == b then None
    // rock beats scissors
    else if a == Rock && b == Scissors then Some(a)
    else if b == Rock && a == Scissors then Some(b)
    // scissors beats paper
    else if a == Scissors && b == Paper then Some(a)
    else if b == Scissors && a == Paper then Some(b)
    // paper beats rock
    else if a == Paper && b == Rock then Some(a)
    else if b == Paper && a == Rock then Some(b)
    else
      // the six distinct pairs are all handled above
      TypeCases(a); TypeCases(b); assert false; None
  }

  /** Every value of `Type` is one of the three constructors. */
  lemma TypeCases(t: Type)
    ensures t == Rock || t == Paper || t == Scissors
  {
  }

  /** The rule does not depend on the order of its arguments. */
  lemma WinnerOfSymmetric(a: Type, b: Type)
    ensures WinnerOf(a, b) == WinnerOf(b, a)
  {
  }

  /** Every pair of distinct types has exactly one winner, the one that beats the other. */
  lemma WinnerOfTotal(a: Type, b: Type)
    requires a != b
    ensures WinnerOf(a, b).Some?
    ensures Beats(a, b) != Beats(b, a)
    ensures WinnerOf(a, b).value == (if Beats(a, b) then a else b)
  {
  }

  /** `Beats` is irreflexive, asymmetric and relates every pair of distinct types one way. */
  lemma BeatsIsCyclicTournament(x: Type, y: Type, z: Type)
    ensures !Beats(x, x)
    ensures Beats(x, y) ==> !Beats(y, x)
    ensures x != y ==> Beats(x, y) || Beats(y, x)
    ensures Beats(x, y) && Beats(y, z) ==> Beats(z, x)
  {
  }
}
