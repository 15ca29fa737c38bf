/** The applet's session state and its two actions. `Pick Numbers` draws six
    fresh numbers and drops them from above the screen; `Sort Numbers` drops
    the same numbers again, in ascending order, from just above the floor. */
module LotteryCanvas {

  import opened Wrappers
  import opened Lottery
  import opened LotteryBall
  import Layout
  import Sampling
  import Sorting

  /** The state the two actions read and write: the fixed geometry, the six
      balls on screen (absent before the first pick), and the sort flag. */
  datatype Canvas = Canvas(geometry: Layout.Geometry, currentBalls: Option<seq<Ball>>, sorted: bool)

  /** The applet as `init` leaves it: geometry computed, no balls, not
      sorted, and in a valid state. */
  function Init(width: int, height: int): (c: Canvas)
    ensures c.geometry == Layout.Init(width, height)
    ensures c.currentBalls.None? && !c.sorted
    ensures Valid(c)
  {
    Canvas(Layout.Init(width, height), None, false)
  }

  /** The numbers shown, read slot by slot through `getValue`. */
  function Values(balls: seq<Ball>): (v: seq<int>)
    ensures |v| == |balls|
    ensures forall i :: 0 <= i < |balls| ==> v[i] == GetValue(balls[i])
  {
    seq(|balls|, i requires 0 <= i < |balls| => GetValue(balls[i]))
  }

  /** What the actions need: six slots, and six balls showing numbers in
      1..49 once a pick has happened. */
  predicate WellFormed(c: Canvas)
  {
    && |c.geometry.slots| == NUMBER_TO_PICK
    && (c.currentBalls.Some? ==>
          |c.currentBalls.value| == NUMBER_TO_PICK && AllInRange(Values(c.currentBalls.value)))
  }

  /** Ball i sits in slot i, carries image value - 1, rests on the floor and
      falls at the applet's speed. */
  predicate InSlots(g: Layout.Geometry, balls: seq<Ball>)
  {
    && |balls| == |g.slots|
    && forall i :: 0 <= i < |balls| ==>
         && balls[i].imageIndex == balls[i].value - 1
         && balls[i].x == g.slots[i]
         && balls[i].finalY == g.ballFloor
         && balls[i].speed == BALL_SPEED
  }

  /** The invariant every reachable state keeps: slots side by side, six
      distinct numbers bound to their slots, and the sort flag set only when
      the numbers on screen are strictly ascending. The balls' heights are
      left free, since their threads keep moving them. */
  predicate Valid(c: Canvas)
  {
    && WellFormed(c)
    && Layout.SideBySide(c.geometry.slots)
    && (c.sorted ==> c.currentBalls.Some?)
    && (c.currentBalls.Some? ==>
          && InSlots(c.geometry, c.currentBalls.value)
          && Distinct(Values(c.currentBalls.value))
          && (c.sorted ==> Sorting.StrictlyAscending(Values(c.currentBalls.value))))
  }

  /** Where every ball of the next drop starts: 17 ticks above the top edge
      for a fresh pick, 5 ticks above the floor after a sort. */
  function StartY(c: Canvas): (y: int)
    ensures !c.sorted ==> y == -51
    ensures c.sorted ==> y == c.geometry.ballFloor - 15
  {
    if !c.sorted then -(BALL_SPEED * 17) else c.geometry.ballFloor - 5 * BALL_SPEED
  }

  /** `dropBalls`: one new ball per value, slot i showing values[i], all six
      starting at the same height. Only the balls change. */
  function DropBalls(c: Canvas, values: seq<int>): (c': Canvas)
    requires |c.geometry.slots| == NUMBER_TO_PICK
    requires |values| == NUMBER_TO_PICK && AllInRange(values)
    ensures c'.geometry == c.geometry && c'.sorted == c.sorted
    ensures c'.currentBalls.Some? && Values(c'.currentBalls.value) == values
    ensures InSlots(c.geometry, c'.currentBalls.value)
    ensures forall i :: 0 <= i < NUMBER_TO_PICK ==>
              && c'.currentBalls.value[i].y == StartY(c)
              && 0 <= c'.currentBalls.value[i].imageIndex < NUMBER_OF_BALLS
  {
    var start := StartY(c);
    var balls := seq(NUMBER_TO_PICK, i requires 0 <= i < NUMBER_TO_PICK =>
      Ball(values[i] - 1, values[i], c.geometry.slots[i], start, c.geometry.ballFloor, BALL_SPEED));
    assert Values(balls) == values;
    c.(currentBalls := Some(balls))
  }

  /** `Pick Numbers`: draw six numbers from the candidate stream, clear the
      sort flag and drop them from above the screen. None stands for a
      stream too short for the rejection loop to finish. */
  function SelectNumbers(c: Canvas, stream: seq<int>): (r: Option<Canvas>)
    requires |c.geometry.slots| == NUMBER_TO_PICK
    requires AllInRange(stream)
    ensures r.None? <==> |set x | x in stream| < NUMBER_TO_PICK
    ensures r.Some? ==> !r.value.sorted && r.value.geometry == c.geometry
    ensures r.Some? ==> WellFormed(r.value) && r.value.currentBalls.Some?
    ensures r.Some? ==> Sampling.Draw(stream) == Some(Values(r.value.currentBalls.value))
    ensures r.Some? ==> Distinct(Values(r.value.currentBalls.value))
    ensures r.Some? ==> forall i :: 0 <= i < NUMBER_TO_PICK ==> r.value.currentBalls.value[i].y == -51
  {
    Sampling.DrawFailsOnlyWhenStreamRunsDry(stream);
    match Sampling.Draw(stream)
    case None => None
    case Some(values) =>
      Sampling.DrawIsValid(stream);
      Some(DropBalls(c.(sorted := false), values))
  }

  /** `Sort Numbers`: nothing happens before the first pick or when the
      numbers are already sorted; otherwise the numbers on screen, read slot
      by slot, are dropped again in ascending order from just above the
      floor, and the sort flag is set. */
  function SortNumbers(c: Canvas): (r: Canvas)
    requires WellFormed(c)
    ensures c.currentBalls.None? || c.sorted ==> r == c
    ensures c.currentBalls.Some? && !c.sorted ==>
              && r.sorted && r.geometry == c.geometry && WellFormed(r) && r.currentBalls.Some?
              && Sorting.Ascending(Values(r.currentBalls.value))
              && multiset(Values(r.currentBalls.value)) == multiset(Values(c.currentBalls.value))
              && forall i :: 0 <= i < NUMBER_TO_PICK ==>
                   r.currentBalls.value[i].y == c.geometry.ballFloor - 15
  {
    if c.currentBalls.None? || c.sorted then
      c
    else
      var values := Values(c.currentBalls.value);
      var sortedValues := Sorting.InsertionSort(values);
      SortedStaysInRange(values, sortedValues);
      DropBalls(c.(sorted := true), sortedValues)
  }

  /** Rearranging numbers in 1..49 gives numbers in 1..49. */
  lemma SortedStaysInRange(values: seq<int>, sortedValues: seq<int>)
    requires AllInRange(values)
    requires multiset(sortedValues) == multiset(values)
    ensures |sortedValues| == |values| && AllInRange(sortedValues)
  {
    assert |sortedValues| == |multiset(sortedValues)| == |multiset(values)| == |values|;
    forall i | 0 <= i < |sortedValues|
      ensures InRange(sortedValues[i])
    {
      assert sortedValues[i] in multiset(values);
      var k :| 0 <= k < |values| && values[k] == sortedValues[i];
    }
  }

  /** A pick keeps the state valid. */
  lemma SelectKeepsValid(c: Canvas, stream: seq<int>)
    requires Valid(c) && AllInRange(stream)
    requires SelectNumbers(c, stream).Some?
    ensures Valid(SelectNumbers(c, stream).value)
  {
  }

  /** A sort keeps the state valid: the numbers stay distinct, so the new
      order is strictly ascending. */
  lemma SortKeepsValid(c: Canvas)
    requires Valid(c)
    ensures Valid(SortNumbers(c))
  {
    if c.currentBalls.Some? && !c.sorted {
      var before := Values(c.currentBalls.value);
      var after := Values(SortNumbers(c).currentBalls.value);
      Sorting.PermutationKeepsDistinct(before, after);
      Sorting.DistinctAscendingIsStrict(after);
    }
  }

  /** Sorting before the first pick changes nothing. */
  lemma SortBeforePickIsNoOp(width: int, height: int)
    ensures SortNumbers(Init(width, height)) == Init(width, height)
  {
  }

  /** A second sort in a row changes nothing. */
  lemma SortIsIdempotent(c: Canvas)
    requires WellFormed(c)
    ensures SortNumbers(SortNumbers(c)) == SortNumbers(c)
  {
  }

  /** A pick followed by a sort shows the picked numbers in strictly
      ascending order, each still in its own slot's ball. */
  lemma PickThenSortOrdersTheDraw(c: Canvas, stream: seq<int>)
    requires Valid(c) && AllInRange(stream)
    requires SelectNumbers(c, stream).Some?
    ensures var s := SortNumbers(SelectNumbers(c, stream).value);
            && s.sorted && s.currentBalls.Some?
            && Sorting.StrictlyAscending(Values(s.currentBalls.value))
            && multiset(Values(s.currentBalls.value)) == multiset(Sampling.Draw(stream).value)
  {
    var p := SelectNumbers(c, stream).value;
    SelectKeepsValid(c, stream);
    SortKeepsValid(p);
  }

  /** After a sort every ball whose slot is on the canvas falls exactly five
      ticks and lands exactly on the floor; a ball in a slot left of the edge
      never moves, since its start delay throws. */
  lemma SortDropLandsOnFloor(c: Canvas, i: int)
    requires WellFormed(c) && c.currentBalls.Some? && !c.sorted
    requires 0 <= i < NUMBER_TO_PICK
    ensures var b := SortNumbers(c).currentBalls.value[i];
            var t := Redraws(b);
            && (c.geometry.slots[i] >= 0 ==> |t| == 5 && t[4] == c.geometry.ballFloor)
            && (c.geometry.slots[i] < 0 ==> t == [])
  {
    var b := SortNumbers(c).currentBalls.value[i];
    assert b.y == c.geometry.ballFloor - 15 && b.finalY == c.geometry.ballFloor && b.speed == 3;
    assert b.x == c.geometry.slots[i];
    if b.x >= 0 {
      TrajectoryLength(b.y, b.finalY, b.speed);
      TrajectoryClosedForm(b.y, b.finalY, b.speed, 4);
    }
  }

  /** After a pick every ball whose slot is on the canvas comes to rest on
      the first multiple of 3 at or below the floor line: exactly on the floor
      only when the floor is a multiple of 3, otherwise up to 2 pixels past
      it, since nothing clamps the last step. A ball in a slot left of the
      edge never moves, since its start delay throws. */
  lemma PickDropLanding(c: Canvas, stream: seq<int>, i: int)
    requires WellFormed(c) && AllInRange(stream)
    requires SelectNumbers(c, stream).Some?
    requires c.geometry.ballFloor > -51
    requires 0 <= i < NUMBER_TO_PICK
    ensures var b := SelectNumbers(c, stream).value.currentBalls.value[i];
            var t := Redraws(b);
            && (c.geometry.slots[i] >= 0 ==>
                  && |t| > 0
                  && t[|t| - 1] % 3 == 0
                  && c.geometry.ballFloor <= t[|t| - 1] < c.geometry.ballFloor + 3)
            && (c.geometry.slots[i] < 0 ==> t == [])
  {
    var b := SelectNumbers(c, stream).value.currentBalls.value[i];
    assert b.y == -51 && b.speed == 3 && b.x == c.geometry.slots[i];
    assert b.finalY == c.geometry.ballFloor;
    FallFromAboveTheScreen(b.finalY);
  }

  /** A fall from -51 at speed 3 ends on the first multiple of 3 at or past
      the floor. */
  lemma FallFromAboveTheScreen(floor: int)
    requires floor > -51
    ensures var t := Trajectory(-51, floor, BALL_SPEED);
            && |t| > 0
            && t[|t| - 1] % 3 == 0
            && floor <= t[|t| - 1] < floor + 3
  {
    var t := Trajectory(-51, floor, BALL_SPEED);
    TrajectoryClosedForm(-51, floor, BALL_SPEED, |t| - 1);
    assert t[|t| - 1] == 3 * (|t| - 17);
  }

  /** The balls of a drop start left to right: each slot's thread waits
      exactly 400 ms longer than the slot to its left. */
  lemma StaggerLeftToRight(c: Canvas, i: int)
    requires Valid(c) && c.currentBalls.Some?
    requires 0 < i < NUMBER_TO_PICK
    ensures StaggerDelay(c.currentBalls.value[i]) == StaggerDelay(c.currentBalls.value[i - 1]) + 400
  {
    Layout.SlotsIncrease(c.geometry.slots, i - 1, i);
  }

  /** Within one drop, a ball equals only itself: the numbers are distinct. */
  lemma EqualsIdentifiesSlot(c: Canvas, i: int, j: int)
    requires Valid(c) && c.currentBalls.Some?
    requires 0 <= i < NUMBER_TO_PICK && 0 <= j < NUMBER_TO_PICK
    ensures Equals(c.currentBalls.value[i], BallObj(c.currentBalls.value[j])) <==> i == j
  {
    var v := Values(c.currentBalls.value);
    assert v[i] == c.currentBalls.value[i].value && v[j] == c.currentBalls.value[j].value;
  }

  /** A pick whose stream yields 5, 23, 1, 49, 30, 12 shows those numbers in
      that order, every ball starting at -51 and resting on the floor. */
  lemma ScenarioPick(width: int, height: int)
    ensures var r := SelectNumbers(Init(width, height), [5, 23, 1, 49, 30, 12]);
            && r.Some? && !r.value.sorted && r.value.currentBalls.Some?
            && Values(r.value.currentBalls.value) == [5, 23, 1, 49, 30, 12]
            && forall i :: 0 <= i < NUMBER_TO_PICK ==>
                 r.value.currentBalls.value[i].y == -51
                 && r.value.currentBalls.value[i].finalY == Init(width, height).geometry.ballFloor
  {
    var stream := [5, 23, 1, 49, 30, 12];
    assert Distinct(stream);
    Sampling.DedupOfDistinct(stream);
    assert stream[..NUMBER_TO_PICK] == stream;
    assert Sampling.Draw(stream) == Some(stream);
  }

  /** Sorting that pick shows 1, 5, 12, 23, 30, 49, every ball starting 15
      pixels above the floor; sorting again changes nothing. */
  lemma ScenarioSort(width: int, height: int)
    ensures var p := SelectNumbers(Init(width, height), [5, 23, 1, 49, 30, 12]);
            && p.Some?
            && var s := SortNumbers(p.value);
            && s.currentBalls.Some?
            && Values(s.currentBalls.value) == [1, 5, 12, 23, 30, 49]
            && (forall i :: 0 <= i < NUMBER_TO_PICK ==>
                  s.currentBalls.value[i].y == Init(width, height).geometry.ballFloor - 15)
            && SortNumbers(s) == s
  {
    ScenarioPick(width, height);
    var p := SelectNumbers(Init(width, height), [5, 23, 1, 49, 30, 12]).value;
    assert Values(p.currentBalls.value) == [5, 23, 1, 49, 30, 12];
    assert p.currentBalls.Some? && !p.sorted;
    var s := SortNumbers(p);
    var v := Values(s.currentBalls.value);
    assert multiset(v) == multiset([5, 23, 1, 49, 30, 12]);
    Sorting.ScenarioOrder();
    Sorting.AscendingPermutationUnique(v, [1, 5, 12, 23, 30, 49]);
  }
}
