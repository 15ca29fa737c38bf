/** One lottery ball: the number it shows, where it is drawn, where it comes
    to rest, and the per-tick fall loop its animation thread runs. */
module LotteryBall {

  /** Milliseconds of start delay per pixel of horizontal position. */
  const STAGGER_FACTOR: int := 8

  /** A ball as the canvas constructs it. `imageIndex` stands for the image
      handle: the canvas hands over entry `imageIndex` of its 49 ball images.
      Every field but `y` is fixed at construction; only the fall loop moves
      `y`. */
  datatype Ball = Ball(imageIndex: int, value: int, x: int, y: int, finalY: int, speed: int)

  /** The number this ball represents: the value it was constructed with,
      which nothing afterwards changes. */
  function GetValue(b: Ball): (v: int)
    ensures v == b.value
  {
    b.value
  }

  /** What `equals` may be handed: another ball, or an object of another class. */
  datatype Obj = BallObj(ball: Ball) | OtherObj

  /** Equality of balls: identical objects are equal, and two balls are equal
      exactly when they show the same number, whatever their image or position.
      Reference identity is stood for by equality of the whole ball. */
  function Equals(self: Ball, obj: Obj): (r: bool)
    ensures r <==> obj.BallObj? && GetValue(obj.ball) == GetValue(self)
  {
    if obj == BallObj(self) then
      true
    else if obj.BallObj? then
      GetValue(self) == GetValue(obj.ball)
    else
      false
  }

  lemma EqualsIsEquivalence(a: Ball, b: Ball, c: Ball)
    ensures Equals(a, BallObj(a))
    ensures Equals(a, BallObj(b)) <==> Equals(b, BallObj(a))
    ensures Equals(a, BallObj(b)) && Equals(b, BallObj(c)) ==> Equals(a, BallObj(c))
    ensures !Equals(a, OtherObj)
  {
  }

  /** Equality looks at the number only: moving a ball or swapping its image
      never changes what it equals. */
  lemma EqualsIgnoresAppearance(a: Ball, b: Ball, imageIndex: int, x: int, y: int, finalY: int, speed: int)
    ensures Equals(a, BallObj(b)) <==> Equals(a, BallObj(Ball(imageIndex, b.value, x, y, finalY, speed)))
  {
  }

  /** How long a ball's thread sleeps before its first tick: a whole number
      of 8 ms steps, negative exactly for a ball left of the canvas edge. */
  function StaggerDelay(b: Ball): (d: int)
    ensures d % STAGGER_FACTOR == 0
    ensures d < 0 <==> b.x < 0
  {
    STAGGER_FACTOR * b.x
  }

  /** `Thread.sleep` rejects a negative delay with an exception the thread
      does not catch, so the thread ends before its first tick. */
  predicate SleepThrows(b: Ball)
  {
    StaggerDelay(b) < 0
  }

  /** A ball further right starts strictly later, by 8 per pixel of distance. */
  lemma StaggerOrder(a: Ball, b: Ball)
    ensures StaggerDelay(b) - StaggerDelay(a) == STAGGER_FACTOR * (b.x - a.x)
    ensures a.x < b.x ==> StaggerDelay(a) < StaggerDelay(b)
  {
  }

  /** The fall loop exits: either it never enters, or every tick moves down. */
  predicate Terminates(y: int, finalY: int, speed: int)
  {
    y >= finalY || speed > 0
  }

  /** The positions a ball starting at `y` reports to the canvas, one per
      redraw request of the fall loop: each tick moves it by `speed`, every
      tick but the last leaves it above the floor, and the last one may pass
      the floor by less than one tick. */
  function Trajectory(y: int, finalY: int, speed: int): (t: seq<int>)
    requires Terminates(y, finalY, speed)
    ensures |t| == 0 <==> y >= finalY
    ensures |t| > 0 ==> t[0] == y + speed
    ensures |t| > 0 ==> finalY <= t[|t| - 1] < finalY + speed
    decreases if y < finalY then finalY - y else 0
  {
    if y >= finalY then [] else [y + speed] + Trajectory(y + speed, finalY, speed)
  }

  /** The loop stops at the first tick that reaches the floor: every earlier
      position is still above it. */
  lemma {:induction false} TrajectoryStopsAtFloor(y: int, finalY: int, speed: int)
    requires Terminates(y, finalY, speed)
    ensures forall k :: 0 <= k < |Trajectory(y, finalY, speed)| - 1 ==> Trajectory(y, finalY, speed)[k] < finalY
    decreases if y < finalY then finalY - y else 0
  {
    if y < finalY {
      var rest := Trajectory(y + speed, finalY, speed);
      TrajectoryStopsAtFloor(y + speed, finalY, speed);
      assert Trajectory(y, finalY, speed) == [y + speed] + rest;
    }
  }

  /** With a positive speed the ball only moves down: every reported position
      is below the start and below every earlier one. */
  lemma {:induction false} TrajectoryIncreasing(y: int, finalY: int, speed: int)
    requires speed > 0
    ensures forall k :: 0 <= k < |Trajectory(y, finalY, speed)| ==> y < Trajectory(y, finalY, speed)[k]
    ensures forall i, j :: 0 <= i < j < |Trajectory(y, finalY, speed)| ==>
              Trajectory(y, finalY, speed)[i] < Trajectory(y, finalY, speed)[j]
    decreases if y < finalY then finalY - y else 0
  {
    if y < finalY {
      var rest := Trajectory(y + speed, finalY, speed);
      TrajectoryIncreasing(y + speed, finalY, speed);
      assert Trajectory(y, finalY, speed) == [y + speed] + rest;
    }
  }

  /** After k + 1 ticks the ball has moved exactly k + 1 times `speed`. */
  lemma {:induction false} TrajectoryClosedForm(y: int, finalY: int, speed: int, k: int)
    requires Terminates(y, finalY, speed)
    requires 0 <= k < |Trajectory(y, finalY, speed)|
    ensures Trajectory(y, finalY, speed)[k] == y + (k + 1) * speed
    decreases k
  {
    var t := Trajectory(y, finalY, speed);
    if k > 0 {
      var rest := Trajectory(y + speed, finalY, speed);
      assert t == [y + speed] + rest;
      TrajectoryClosedForm(y + speed, finalY, speed, k - 1);
      assert t[k] == rest[k - 1] == (y + speed) + k * speed;
      OneMoreTick(k, speed);
    }
  }

  lemma OneMoreTick(k: int, speed: int)
    ensures speed + k * speed == (k + 1) * speed
  {
  }

  /** The number of ticks is the least n with y + n * speed >= finalY, that is
      the ceiling of (finalY - y) / speed. */
  lemma TrajectoryLength(y: int, finalY: int, speed: int)
    requires Terminates(y, finalY, speed)
    ensures y + |Trajectory(y, finalY, speed)| * speed >= finalY
    ensures |Trajectory(y, finalY, speed)| > 0 ==> y + (|Trajectory(y, finalY, speed)| - 1) * speed < finalY
    ensures y < finalY ==> |Trajectory(y, finalY, speed)| == (finalY - y + speed - 1) / speed
  {
    var t := Trajectory(y, finalY, speed);
    var n := |t|;
    if n > 0 {
      TrajectoryClosedForm(y, finalY, speed, n - 1);
      TrajectoryStopsAtFloor(y, finalY, speed);
      if n > 1 {
        TrajectoryClosedForm(y, finalY, speed, n - 2);
      }
      assert y + (n - 1) * speed < finalY;
      CeilingDivision(finalY - y, speed, n);
    }
  }

  /** n is the ceiling of d / s exactly when (n - 1) * s < d <= n * s. */
  lemma CeilingDivision(d: int, s: int, n: int)
    requires d > 0 && s > 0
    requires (n - 1) * s < d <= n * s
    ensures n == (d + s - 1) / s
  {
    var a := d + s - 1;
    assert (n - 1) * s == n * s - s;
    assert n * s <= a < n * s + s;
    var q := a / s;
    var r := a % s;
    assert a == q * s + r && 0 <= r < s;
    if q < n {
      MultiplyMonotone(q + 1, n, s);
    } else if q > n {
      MultiplyMonotone(n + 1, q, s);
    }
  }

  lemma MultiplyMonotone(a: int, b: int, s: int)
    requires a <= b && s > 0
    ensures a * s <= b * s
  {
    assert b * s - a * s == (b - a) * s;
  }

  /** The thread body: the start delay, which ends the thread when it is
      negative, then the fall loop. Returns the ball as it rests and the
      position reported with each redraw request. Every field but y keeps
      its constructor value. */
  method Run(b: Ball) returns (landed: Ball, redraws: seq<int>)
    requires SleepThrows(b) || Terminates(b.y, b.finalY, b.speed)
    ensures landed == b.(y := landed.y)
    ensures redraws == Redraws(b)
    ensures SleepThrows(b) ==> landed == b && redraws == []
    ensures !SleepThrows(b) ==> landed.y >= b.finalY
    ensures !SleepThrows(b) && b.y < b.finalY ==>
              landed.y < b.finalY + b.speed && landed.y == redraws[|redraws| - 1]
    ensures b.y >= b.finalY ==> landed == b && redraws == []
  {
    if StaggerDelay(b) < 0 {
      return b, [];
    }
    landed, redraws := FallLoop(b);
  }

  /** `while (y < finalY) y += speed`, one redraw request per tick, with no
      clamp at the floor. */
  method FallLoop(b: Ball) returns (landed: Ball, redraws: seq<int>)
    requires Terminates(b.y, b.finalY, b.speed)
    ensures landed == b.(y := landed.y)
    ensures redraws == Trajectory(b.y, b.finalY, b.speed)
    ensures landed.y >= b.finalY
    ensures b.y < b.finalY ==> landed.y < b.finalY + b.speed && landed.y == redraws[|redraws| - 1]
    ensures b.y >= b.finalY ==> landed == b && redraws == []
  {
    var y := b.y;
    redraws := [];
    while y < b.finalY
      invariant Terminates(y, b.finalY, b.speed)
      invariant redraws + Trajectory(y, b.finalY, b.speed) == Trajectory(b.y, b.finalY, b.speed)
      invariant y == if redraws == [] then b.y else redraws[|redraws| - 1]
      decreases b.finalY - y
    {
      TrajectoryStep(y, b.finalY, b.speed, redraws);
      y := y + b.speed;
      redraws := redraws + [y];
    }
    assert Trajectory(y, b.finalY, b.speed) == [];
    assert redraws == Trajectory(b.y, b.finalY, b.speed);
    landed := b.(y := y);
  }

  /** The positions a ball's thread reports: none when its start delay
      throws, otherwise one per tick of the fall loop. */
  function Redraws(b: Ball): (t: seq<int>)
    requires SleepThrows(b) || Terminates(b.y, b.finalY, b.speed)
  {
    if SleepThrows(b) then [] else Trajectory(b.y, b.finalY, b.speed)
  }

  /** One tick of the fall loop moves the next position from the remaining
      trajectory onto the positions already reported. */
  lemma TrajectoryStep(y: int, finalY: int, speed: int, done: seq<int>)
    requires y < finalY && Terminates(y, finalY, speed)
    ensures done + Trajectory(y, finalY, speed) == (done + [y + speed]) + Trajectory(y + speed, finalY, speed)
  {
    assert Trajectory(y, finalY, speed) == [y + speed] + Trajectory(y + speed, finalY, speed);
  }
}
