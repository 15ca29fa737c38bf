/** The constants and value predicates shared by the whole applet. */
module Lottery {

  /** Numbers are drawn from 1..NUMBER_OF_BALLS. */
  const NUMBER_OF_BALLS: int := 49

  /** How many numbers one draw picks. */
  const NUMBER_TO_PICK: int := 6

  /** Pixels a ball falls per tick. */
  const BALL_SPEED: int := 3

  predicate InRange(v: int)
  {
    1 <= v <= NUMBER_OF_BALLS
  }

  predicate AllInRange(s: seq<int>)
  {
    forall i :: 0 <= i < |s| ==> InRange(s[i])
  }

  /** No value occurs twice. */
  predicate Distinct(s: seq<int>)
  {
    forall i, j :: 0 <= i < j < |s| ==> s[i] != s[j]
  }
}
