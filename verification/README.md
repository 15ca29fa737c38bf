# Lottery applet — a Dafny model of its sequential core

The applet draws six distinct lottery numbers from 1..49, shows them as balls
that fall onto a floor line, and on request drops the same numbers again in
ascending order. Around the AWT and thread plumbing sits a small sequential
core, and that core is modelled here:

- **Sampling** (`sampling.dfy`): `selectNumbers`' rejection loop. A candidate
  is drawn and thrown back if an earlier slot already holds it. The random
  source is a finite stream of candidates in 1..49. The loop is proved to
  return exactly the first six distinct candidates of the stream, in the order
  they first came up (`Sampling.Draw`). A stream with fewer than six distinct
  candidates gives `None`, which stands for the loop never finishing.
- **Sorting** (`sorting.dfy`): `sortNumbers`' fixed-pass bubble sort, whose
  inner loop runs downwards. It is proved ascending, a permutation of its input,
  and equal to an insertion-sort reference. Strictness follows for distinct
  values.
- **Layout** (`layout.dfy`): the geometry computed in `init`. Java's
  truncating `/` is written out explicitly.
- **Balls** (`lottery_ball.dfy`): the ball record, `equals`, the stagger
  delay, and the fall loop `while (y < finalY) y += speed`. The fall loop is
  modelled as a method and as the list of positions it reports.
- **Canvas** (`lottery_canvas.dfy`): the session state (geometry,
  `currentBalls`, `sorted`) with the two actions. Pick draws and drops from
  −51. Sort does nothing before a pick or when the balls are already sorted.
  Otherwise it drops the ascending values from `ballFloor − 15`. A reachable
  state invariant `Valid` holds throughout.
- `lottery.dfy` holds the shared constants (49, 6, speed 3) and predicates.
  `wrappers.dfy` holds `Option`.

The three loops that carry the algorithms are `method`s with loop
invariants, each proved equal to an independent pure reference definition:

- `Sampling.PickLuckyNumbers` equals `Sampling.Draw`.
- `Sorting.BubbleSort` equals `Sorting.InsertionSort`.
- `LotteryBall.FallLoop` equals `LotteryBall.Trajectory`.

The remaining loops only fill or read an array slot by slot. These are the
slot positions in `init`, the value read in `sortNumbers`, and the ball
construction in `dropBalls`. They are written as sequence comprehensions
(`Layout.Init`, `LotteryCanvas.Values`, `LotteryCanvas.DropBalls`). The
canvas transitions are pure functions over the reference definitions.

Some behaviour of the code that the model keeps:

- The fall loop does not clamp a ball at the floor. The last tick may
  overshoot it by up to `speed − 1` pixels. See
  `LotteryCanvas.PickDropLanding`: after a pick, a ball rests on the first
  multiple of 3 at or past the floor.
- `currentBalls` is allocated once and then overwritten slot by slot. Six
  values are always supplied, so every slot is overwritten, and a model of
  the array's contents sees six new balls.
- `Thread.sleep(8 * x)` throws `IllegalArgumentException` for a negative
  delay, and the ball thread catches only `InterruptedException`. A ball
  whose slot lies left of the canvas edge therefore never moves. This
  happens on a canvas narrower than 299 pixels (`Layout.SlotsOnCanvas`).
  `LotteryBall.Run` models the throw.

## Model

| member | source | states |
|---|---|---|
| `LotteryBall.Equals` | src/main/java/com/michaelfitzmaurice/lottery/LotteryBall.java:128-142 | a ball equals an object exactly when that object is a ball showing the same number; the identity shortcut never changes the answer |
| `LotteryBall.EqualsIsEquivalence` | src/main/java/com/michaelfitzmaurice/lottery/LotteryBall.java:128-142 | `equals` is reflexive, symmetric and transitive on balls, and false for objects of other classes |
| `LotteryBall.EqualsIgnoresAppearance` | src/main/java/com/michaelfitzmaurice/lottery/LotteryBall.java:114-142 | changing a ball's image, position, floor or speed never changes what it equals |
| `LotteryBall.GetValue` | src/main/java/com/michaelfitzmaurice/lottery/LotteryBall.java:98-100 | the getter returns the number the ball was constructed with |
| `LotteryBall.StaggerDelay` | src/main/java/com/michaelfitzmaurice/lottery/LotteryBall.java:76 | the start delay is a whole number of 8 ms steps and is negative exactly when the ball lies left of the canvas edge, which is when `Thread.sleep` throws |
| `LotteryBall.StaggerOrder` | src/main/java/com/michaelfitzmaurice/lottery/LotteryBall.java:71-76 | the start delay grows by 8 per pixel of x, so a ball further right starts strictly later |
| `LotteryBall.Trajectory` | src/main/java/com/michaelfitzmaurice/lottery/LotteryBall.java:81-83 | the fall loop reports nothing exactly when the ball starts at or below the floor; the first tick moves by one speed; the last position is at or past the floor by less than one tick |
| `LotteryBall.TrajectoryStopsAtFloor` | src/main/java/com/michaelfitzmaurice/lottery/LotteryBall.java:81 | every position before the last is still above the floor, so the loop stops at the first tick that reaches it |
| `LotteryBall.TrajectoryIncreasing` | src/main/java/com/michaelfitzmaurice/lottery/LotteryBall.java:81-82 | with a positive speed every position lies below the start and below every earlier position |
| `LotteryBall.TrajectoryClosedForm` | src/main/java/com/michaelfitzmaurice/lottery/LotteryBall.java:81-82 | after k+1 ticks the ball sits at start + (k+1)·speed, so it stays congruent to its start modulo the speed |
| `LotteryBall.TrajectoryLength` | src/main/java/com/michaelfitzmaurice/lottery/LotteryBall.java:81-83 | the number of redraw requests is the least n with start + n·speed ≥ floor, i.e. ceil((floor − start)/speed) |
| `LotteryBall.Run` | src/main/java/com/michaelfitzmaurice/lottery/LotteryBall.java:71-92 | a negative start delay ends the thread with the ball unmoved and nothing reported; otherwise the ball ends at or past the floor and less than one tick beyond it, reporting exactly the trajectory; a ball starting at or below the floor never moves; only y ever changes |
| `LotteryBall.FallLoop` | src/main/java/com/michaelfitzmaurice/lottery/LotteryBall.java:81-91 | the loop ends at or past the floor and less than one tick beyond it; it reports exactly the trajectory; it never moves a ball that starts at or below the floor; only y changes and every other constructor field is kept |
| `Layout.JavaDiv` | src/main/java/com/michaelfitzmaurice/lottery/LotteryCanvas.java:80 | Java's `/` rounds toward zero: the remainder has the sign of the dividend and is smaller than the divisor |
| `Layout.EdgeBuffer` | src/main/java/com/michaelfitzmaurice/lottery/LotteryCanvas.java:108-111 | the 300 pixels of slots are centred: the left and right margins differ by at most one pixel |
| `Layout.Init` | src/main/java/com/michaelfitzmaurice/lottery/LotteryCanvas.java:77-118 | the floor is half the height rounded toward zero; there are six slots, the first at the edge buffer, each 50 to the right of the one before |
| `Layout.SlotsOnCanvas` | src/main/java/com/michaelfitzmaurice/lottery/LotteryCanvas.java:111-118 | every slot lies at or right of the left edge exactly when the canvas is at least 299 pixels wide |
| `Layout.SlotsIncrease` | src/main/java/com/michaelfitzmaurice/lottery/LotteryCanvas.java:113-118 | slots i < j lie (j − i)·50 apart, so they run strictly left to right |
| `Sampling.DedupIsDistinctValues` | src/main/java/com/michaelfitzmaurice/lottery/LotteryCanvas.java:181-190 | keeping only unseen candidates yields each value of the stream exactly once and nothing else |
| `Sampling.DedupPrefix` | src/main/java/com/michaelfitzmaurice/lottery/LotteryCanvas.java:172-191 | reading more candidates only ever appends to the picks; earlier picks never change |
| `Sampling.DedupOfDistinct` | src/main/java/com/michaelfitzmaurice/lottery/LotteryCanvas.java:172-191 | a stream without repeats is kept whole and in order |
| `Sampling.DrawIsValid` | src/main/java/com/michaelfitzmaurice/lottery/LotteryCanvas.java:172-191 | a draw has six pairwise-distinct values, each taken from the stream, so each is in 1..49 when the candidates are |
| `Sampling.DrawFailsOnlyWhenStreamRunsDry` | src/main/java/com/michaelfitzmaurice/lottery/LotteryCanvas.java:177-188 | the rejection loop can fail to fill six slots exactly when the stream offers fewer than six distinct values |
| `Sampling.AlreadyPicked` | src/main/java/com/michaelfitzmaurice/lottery/LotteryCanvas.java:181-187 | the duplicate scan answers true exactly when one of the first i slots holds the candidate |
| `Sampling.ReadCandidate` | src/main/java/com/michaelfitzmaurice/lottery/LotteryCanvas.java:177-190 | a repeated candidate leaves the picks unchanged and a new one is appended |
| `Sampling.NextNewNumber` | src/main/java/com/michaelfitzmaurice/lottery/LotteryCanvas.java:173-188 | the inner loop returns the first candidate not already picked, and every candidate it skipped was a repeat; or it reports that the stream ran out with the picks already covering every value in it |
| `Sampling.PickLuckyNumbers` | src/main/java/com/michaelfitzmaurice/lottery/LotteryCanvas.java:168-191 | the loop returns the reference draw: the first six distinct candidates in order of first appearance, stopping at the candidate that completes the six |
| `Sorting.Insert` | src/main/java/com/michaelfitzmaurice/lottery/LotteryCanvas.java:212-227 | inserting into an ascending sequence keeps it ascending and adds exactly that one value |
| `Sorting.InsertionSort` | src/main/java/com/michaelfitzmaurice/lottery/LotteryCanvas.java:212-227 | the reference ordering is ascending and a permutation of its input |
| `Sorting.AscendingPermutationUnique` | src/main/java/com/michaelfitzmaurice/lottery/LotteryCanvas.java:212-227 | two ascending permutations of the same values are equal, so the bubble sort and the library sort the comment mentions give the same result |
| `Sorting.DistinctIffSingleCounts` | src/main/java/com/michaelfitzmaurice/lottery/LotteryCanvas.java:206-223 | a sequence has no repeats exactly when no value occurs twice in its multiset |
| `Sorting.PermutationKeepsDistinct` | src/main/java/com/michaelfitzmaurice/lottery/LotteryCanvas.java:206-223 | rearranging distinct numbers keeps them distinct |
| `Sorting.DistinctAscendingIsStrict` | src/main/java/com/michaelfitzmaurice/lottery/LotteryCanvas.java:206-223 | distinct numbers in ascending order are strictly ascending |
| `Sorting.SwapNeighbours` | src/main/java/com/michaelfitzmaurice/lottery/LotteryCanvas.java:217-221 | swapping a neighbour pair at or after index i leaves the prefix alone and the suffix's values unchanged |
| `Sorting.BubblePass` | src/main/java/com/michaelfitzmaurice/lottery/LotteryCanvas.java:216-222 | one downward pass leaves indices below i alone, only rearranges the rest, and brings its minimum to index i |
| `Sorting.PassExtendsPrefix` | src/main/java/com/michaelfitzmaurice/lottery/LotteryCanvas.java:215-223 | after pass i the first i+1 values are in order and none exceeds a later value |
| `Sorting.BubbleSort` | src/main/java/com/michaelfitzmaurice/lottery/LotteryCanvas.java:206-223 | the bubble sort's result is ascending, a permutation of the slot-ordered values, and equal to the reference ordering |
| `Sorting.SameDistinctValues` | src/main/java/com/michaelfitzmaurice/lottery/LotteryCanvas.java:206-223 | two repeat-free sequences holding the same values are rearrangements of each other |
| `Sorting.ScenarioOrder` | src/main/java/com/michaelfitzmaurice/lottery/LotteryCanvas.java:212-223 | the ascending arrangement of 5, 23, 1, 49, 30, 12 is 1, 5, 12, 23, 30, 49 |
| `LotteryCanvas.Init` | src/main/java/com/michaelfitzmaurice/lottery/LotteryCanvas.java:73-119 | the applet starts in a valid state with the geometry `init` computes, no balls and the flag clear |
| `LotteryCanvas.Values` | src/main/java/com/michaelfitzmaurice/lottery/LotteryCanvas.java:207-210 | the values are read slot by slot: entry i is `getValue` of ball i |
| `LotteryCanvas.StartY` | src/main/java/com/michaelfitzmaurice/lottery/LotteryCanvas.java:247-257 | a drop starts at −51 when the flag is clear and at floor − 15 when it is set |
| `LotteryCanvas.DropBalls` | src/main/java/com/michaelfitzmaurice/lottery/LotteryCanvas.java:240-272 | slot i gets a ball showing values[i] (read back through `getValue`) at the slot's x, with floor, speed 3 and image value − 1 (in bounds). All six share one start height. Geometry and the sort flag are unchanged |
| `LotteryCanvas.SelectNumbers` | src/main/java/com/michaelfitzmaurice/lottery/LotteryCanvas.java:168-195 | a pick fails only on a stream with fewer than six distinct candidates; otherwise it clears the sort flag and shows the draw's six distinct numbers, all starting at −51 |
| `LotteryCanvas.SortNumbers` | src/main/java/com/michaelfitzmaurice/lottery/LotteryCanvas.java:201-231 | before a pick or when already sorted nothing changes; otherwise the flag is set and the same numbers are shown in ascending order, all starting at floor − 15 |
| `LotteryCanvas.SortedStaysInRange` | src/main/java/com/michaelfitzmaurice/lottery/LotteryCanvas.java:238 | sorted numbers keep their count and stay in 1..49, so the image lookup stays in bounds |
| `LotteryCanvas.SelectKeepsValid` | src/main/java/com/michaelfitzmaurice/lottery/LotteryCanvas.java:168-195 | a pick keeps the state invariant: distinct numbers bound to their slots |
| `LotteryCanvas.SortKeepsValid` | src/main/java/com/michaelfitzmaurice/lottery/LotteryCanvas.java:201-231 | a sort keeps the state invariant; a set flag means the numbers are strictly ascending |
| `LotteryCanvas.SortBeforePickIsNoOp` | src/main/java/com/michaelfitzmaurice/lottery/LotteryCanvas.java:202-204 | sorting before the first pick changes nothing |
| `LotteryCanvas.SortIsIdempotent` | src/main/java/com/michaelfitzmaurice/lottery/LotteryCanvas.java:202-229 | a second sort in a row changes nothing |
| `LotteryCanvas.PickThenSortOrdersTheDraw` | src/main/java/com/michaelfitzmaurice/lottery/LotteryCanvas.java:193-230 | after a pick and a sort, the six picked numbers are shown strictly ascending with the flag set |
| `LotteryCanvas.SortDropLandsOnFloor` | src/main/java/com/michaelfitzmaurice/lottery/LotteryCanvas.java:252-256 | after a sort every ball in a slot on the canvas falls exactly 5 ticks and lands exactly on the floor; a ball in a slot left of the edge never moves |
| `LotteryCanvas.PickDropLanding` | src/main/java/com/michaelfitzmaurice/lottery/LotteryCanvas.java:249-251 | after a pick every ball in a slot on the canvas rests on the first multiple of 3 at or past the floor, up to 2 pixels beyond it; a ball in a slot left of the edge never moves |
| `LotteryCanvas.FallFromAboveTheScreen` | src/main/java/com/michaelfitzmaurice/lottery/LotteryCanvas.java:249-251 | a fall from −51 at speed 3 ends on the first multiple of 3 at or past the floor |
| `LotteryCanvas.StaggerLeftToRight` | src/main/java/com/michaelfitzmaurice/lottery/LotteryCanvas.java:115-117 | in a valid state each slot's ball waits exactly 400 ms longer than the one to its left |
| `LotteryCanvas.EqualsIdentifiesSlot` | src/main/java/com/michaelfitzmaurice/lottery/LotteryCanvas.java:172-191 | within one drop a ball equals only itself, because the drawn numbers are distinct |
| `LotteryCanvas.ScenarioPick` | src/main/java/com/michaelfitzmaurice/lottery/LotteryCanvas.java:168-195 | a stream 5, 23, 1, 49, 30, 12 gives slots holding exactly those numbers in that order, starting at −51 and falling to the floor |
| `LotteryCanvas.ScenarioSort` | src/main/java/com/michaelfitzmaurice/lottery/LotteryCanvas.java:201-231 | sorting that pick shows 1, 5, 12, 23, 30, 49 starting at floor − 15, and a further sort changes nothing |

## Left out

- Painting (`paint`, `update`, `redrawScene`, `repaint`, `drawSelf`), double buffering, the button panel and `actionPerformed` dispatch are UI. Only the two actions are modelled, as `LotteryCanvas.SelectNumbers` and `LotteryCanvas.SortNumbers`.
- Threads (`drop`, `Thread.sleep`) are left out: the six ball threads running at once, and stale threads from earlier draws that keep moving their balls. The stagger delay is kept only as the number `8 * x` and the exception a negative one raises. A ball thread's body is `LotteryBall.Run`, run alone. Because other threads move the balls, `LotteryCanvas.Valid` says nothing about a ball's current y.
- `Math.random()` floating point is replaced by a finite stream of candidates already in 1..49. The real loop ends with probability 1. Here a stream that runs dry gives `None`.
- Image loading (`getImage`, `getParameter`, `ballImages`) is I/O. A ball's image is stood for by its index, `value − 1`. The model proves that index lies in 0..48.
- `toString` is string formatting and is not modelled.
- `equals(null)` throws because `obj.getClass()` is dereferenced. That is a runtime detail, and `LotteryBall.Obj` has no null case.
- Java's 32-bit `int` is not modelled. The positions stay below `floor + speed` (`LotteryBall.Trajectory`), and the floor is at most half the canvas height, so they do not wrap. `8 * x` wraps exactly when x ≥ 2^28 or x < −2^28. At x = 2^28 the product wraps to the most negative `int` and the sleep throws. Below −2^28 it wraps to a positive delay and the ball would fall. `LotteryBall.StaggerDelay` and `LotteryBall.SleepThrows` follow neither wrap. The width is never negative, so every slot lies at or right of −150, and only the upper case can occur, on a canvas wider than about 2^29 pixels.
- LotteryBall.Run: requires that the start delay throws, or the ball starts at or below the floor, or its speed is positive. The excluded case is a ball above the floor with speed 0 or less. With speed 0 the source loops forever. With a negative speed, Java's 32-bit `y` eventually wraps past the most negative `int` and the loop exits, and the model does not follow that wrap-around. The applet always passes speed 3.
- LotteryBall.FallLoop: has the same requirement without the throwing case: the ball starts at or below the floor or its speed is positive, for the same reason as `LotteryBall.Run`.
- LotteryBall.Trajectory: has the same requirement as `LotteryBall.FallLoop`. Without it the list of positions would be infinite.
- LotteryCanvas.SortNumbers: requires `WellFormed` (six slots, six balls showing numbers in 1..49). Every reachable state meets it, and outside it the source's image lookup would fail.
- LotteryCanvas.DropBalls: requires six values in 1..49, as its documentation demands.
- LotteryBall.StaggerDelay: computes `8 * x` without 32-bit wrap-around. It matches the source for −2^28 ≤ x < 2^28, which covers every slot on a canvas narrower than about 2^29 pixels.
- LotteryBall.Equals: object identity is stood for by equality of the whole ball. The result is the same either way.
