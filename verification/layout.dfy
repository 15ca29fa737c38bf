/** The canvas geometry fixed once at start-up: the floor line the balls
    rest on and the six horizontal slots they occupy. */
module Layout {

  import opened Lottery

  /** Width in pixels of one ball image; the slots sit side by side. */
  const BALL_WIDTH: int := 50

  /** Java's `int` division, which rounds toward zero rather than down. */
  function JavaDiv(a: int, b: int): (q: int)
    requires b > 0
    ensures a >= 0 ==> 0 <= a - q * b < b
    ensures a < 0 ==> -b < a - q * b <= 0
  {
    if a >= 0 then a / b else -((-a) / b)
  }

  datatype Geometry = Geometry(width: int, height: int, ballFloor: int, slots: seq<int>)

  /** Consecutive slots are exactly one ball width apart. */
  predicate SideBySide(slots: seq<int>)
  {
    forall i :: 0 < i < |slots| ==> slots[i] == slots[i - 1] + BALL_WIDTH
  }

  /** The margin left of the first slot; the six slots take 300 pixels in the
      middle and the rest of the width is shared between the two edges. */
  function EdgeBuffer(width: int): (edge: int)
    ensures -1 <= width - (edge + BALL_WIDTH * NUMBER_TO_PICK) - edge <= 1
  {
    JavaDiv(width - BALL_WIDTH * NUMBER_TO_PICK, 2)
  }

  /** The geometry computed when the applet starts: the floor just below the
      middle of the canvas and six slots, side by side, centred. */
  function Init(width: int, height: int): (g: Geometry)
    ensures g.width == width && g.height == height
    ensures height >= 0 ==> 0 <= height - 2 * g.ballFloor <= 1
    ensures height < 0 ==> -1 <= height - 2 * g.ballFloor <= 0
    ensures |g.slots| == NUMBER_TO_PICK
    ensures g.slots[0] == EdgeBuffer(width)
    ensures SideBySide(g.slots)
  {
    var edge := EdgeBuffer(width);
    Geometry(width, height, JavaDiv(height, 2), seq(NUMBER_TO_PICK, i => edge + i * BALL_WIDTH))
  }

  /** Side-by-side slots run strictly left to right, and any two are a whole
      number of ball widths apart. */
  lemma {:induction false} SlotsIncrease(slots: seq<int>, i: int, j: int)
    requires SideBySide(slots)
    requires 0 <= i <= j < |slots|
    ensures slots[j] - slots[i] == (j - i) * BALL_WIDTH
    ensures i < j ==> slots[i] < slots[j]
    decreases j - i
  {
    if i < j {
      SlotsIncrease(slots, i, j - 1);
      assert slots[j] == slots[j - 1] + BALL_WIDTH;
    }
  }

  /** Every slot lies at or right of the canvas's left edge exactly when the
      canvas is at least 299 pixels wide; on a narrower canvas the leftmost
      slot starts off screen. */
  lemma SlotsOnCanvas(width: int, height: int)
    ensures (forall i :: 0 <= i < NUMBER_TO_PICK ==> Init(width, height).slots[i] >= 0) <==> width >= 299
  {
    var g := Init(width, height);
    var edge := EdgeBuffer(width);
    if width >= 299 {
      forall i | 0 <= i < NUMBER_TO_PICK
        ensures g.slots[i] >= 0
      {
        SlotsIncrease(g.slots, 0, i);
      }
    } else {
      assert g.slots[0] == edge < 0;
    }
  }
}
