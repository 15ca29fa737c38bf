/** Picking the six lottery numbers by rejection: draw a candidate, throw it
    back if it was already picked, keep it otherwise. The random source is a
    finite stream of candidates, each already in 1..49; running out of it
    stands for the loop not finishing. */
module Sampling {

  import opened Wrappers
  import opened Lottery

  /** The distinct values of s, each at its first appearance, in order. */
  function Dedup(s: seq<int>): (d: seq<int>)
  {
    if s == [] then
      []
    else
      var d := Dedup(s[..|s| - 1]);
      if s[|s| - 1] in d then d else d + [s[|s| - 1]]
  }

  /** Dedup keeps every value of s exactly once and invents none. */
  lemma {:induction false} DedupIsDistinctValues(s: seq<int>)
    ensures Distinct(Dedup(s))
    ensures forall x :: x in Dedup(s) <==> x in s
  {
    if s != [] {
      var init := s[..|s| - 1];
      DedupIsDistinctValues(init);
      assert s == init + [s[|s| - 1]];
    }
  }

  /** Reading more of the stream only ever appends to the distinct values. */
  lemma {:induction false} DedupPrefix(s: seq<int>, p: int)
    requires 0 <= p <= |s|
    ensures Dedup(s[..p]) <= Dedup(s)
    decreases |s|
  {
    if p < |s| {
      var init := s[..|s| - 1];
      assert init[..p] == s[..p];
      DedupPrefix(init, p);
    } else {
      assert s[..p] == s;
    }
  }

  /** One more candidate: it is appended exactly when it is new. */
  lemma DedupSnoc(s: seq<int>, n: int)
    requires 0 < n <= |s|
    ensures Dedup(s[..n]) == if s[n - 1] in Dedup(s[..n - 1]) then Dedup(s[..n - 1]) else Dedup(s[..n - 1]) + [s[n - 1]]
  {
    assert s[..n][..n - 1] == s[..n - 1];
  }

  /** Candidates that never repeat are all kept, in order. */
  lemma {:induction false} DedupOfDistinct(s: seq<int>)
    requires Distinct(s)
    ensures Dedup(s) == s
  {
    if s != [] {
      var init := s[..|s| - 1];
      DedupOfDistinct(init);
      assert s[|s| - 1] !in init;
      assert s == init + [s[|s| - 1]];
    }
  }

  /** The reference draw: the first six distinct candidates of the stream in
      the order they first came up, or None if the stream has fewer. */
  function Draw(stream: seq<int>): (r: Option<seq<int>>)
  {
    var d := Dedup(stream);
    if |d| >= NUMBER_TO_PICK then Some(d[..NUMBER_TO_PICK]) else None
  }

  /** A draw is six distinct numbers, each taken from the stream, and so in
      1..49 when every candidate is. */
  lemma DrawIsValid(stream: seq<int>)
    requires Draw(stream).Some?
    ensures |Draw(stream).value| == NUMBER_TO_PICK
    ensures Distinct(Draw(stream).value)
    ensures forall x :: x in Draw(stream).value ==> x in stream
    ensures AllInRange(stream) ==> AllInRange(Draw(stream).value)
  {
    var d := Dedup(stream);
    DedupIsDistinctValues(stream);
    var v := d[..NUMBER_TO_PICK];
    forall x | x in v
      ensures x in stream
    {
      assert x in d;
    }
    if AllInRange(stream) {
      forall i | 0 <= i < |v|
        ensures InRange(v[i])
      {
        assert v[i] in stream;
        var k :| 0 <= k < |stream| && stream[k] == v[i];
      }
    }
  }

  /** A sequence without repeats has as many elements as values. */
  lemma {:induction false} DistinctCardinality(d: seq<int>)
    requires Distinct(d)
    ensures |set x | x in d| == |d|
  {
    if d != [] {
      var init := d[..|d| - 1];
      DistinctCardinality(init);
      assert (set x | x in d) == (set x | x in init) + {d[|d| - 1]};
      assert d[|d| - 1] !in init;
    }
  }

  /** The draw fails exactly when the stream offers fewer than six distinct
      candidates. */
  lemma DrawFailsOnlyWhenStreamRunsDry(stream: seq<int>)
    ensures Draw(stream).None? <==> |set x | x in stream| < NUMBER_TO_PICK
  {
    var d := Dedup(stream);
    DedupIsDistinctValues(stream);
    DistinctCardinality(d);
    assert (set x | x in d) == (set x | x in stream);
  }

  /** The duplicate check: scans the slots filled so far and stops at the
      first one holding the candidate. */
  method AlreadyPicked(luckyNumbers: seq<int>, i: int, newNumber: int) returns (alreadyIn: bool)
    requires 0 <= i <= |luckyNumbers|
    ensures alreadyIn <==> newNumber in luckyNumbers[..i]
  {
    alreadyIn := false;
    var j := 0;
    while j < i
      invariant 0 <= j <= i
      invariant newNumber !in luckyNumbers[..j]
    {
      if luckyNumbers[j] == newNumber {
        alreadyIn := true;
        break;
      }
      assert luckyNumbers[..j + 1] == luckyNumbers[..j] + [luckyNumbers[j]];
      j := j + 1;
    }
  }

  /** The inner `while (alreadyIn)` loop: reads candidates from position
      `used` on until one is not among the first i slots. `found` is false
      when the stream runs out first. */
  method NextNewNumber(stream: seq<int>, luckyNumbers: seq<int>, i: int, used: nat)
    returns (found: bool, newNumber: int, next: nat)
    requires 0 <= i <= |luckyNumbers| && used <= |stream|
    requires luckyNumbers[..i] == Dedup(stream[..used])
    ensures used <= next <= |stream|
    ensures found ==> used < next && newNumber == stream[next - 1] && newNumber !in luckyNumbers[..i]
    ensures found ==> Dedup(stream[..next - 1]) == luckyNumbers[..i]
    ensures !found ==> next == |stream| && Dedup(stream) == luckyNumbers[..i]
  {
    next := used;
    var alreadyIn := true;
    newNumber := 0;
    while alreadyIn
      invariant used <= next <= |stream|
      invariant alreadyIn ==> luckyNumbers[..i] == Dedup(stream[..next])
      invariant !alreadyIn ==> used < next && newNumber == stream[next - 1]
      invariant !alreadyIn ==> luckyNumbers[..i] == Dedup(stream[..next - 1])
      invariant !alreadyIn ==> newNumber !in luckyNumbers[..i]
      decreases |stream| - next, alreadyIn
    {
      if next == |stream| {
        assert stream[..next] == stream;
        return false, newNumber, next;
      }
      ReadCandidate(stream, next, luckyNumbers[..i]);
      newNumber := stream[next];
      next := next + 1;
      alreadyIn := AlreadyPicked(luckyNumbers, i, newNumber);
    }
    found := true;
  }

  /** Reading the candidate at position n when the picks so far are the
      distinct values of the first n candidates: a repeat leaves them as
      they are, a new value is appended. */
  lemma ReadCandidate(stream: seq<int>, n: int, picks: seq<int>)
    requires 0 <= n < |stream|
    requires picks == Dedup(stream[..n])
    ensures stream[n] in picks ==> Dedup(stream[..n + 1]) == picks
    ensures stream[n] !in picks ==> Dedup(stream[..n + 1]) == picks + [stream[n]]
  {
    DedupSnoc(stream, n + 1);
  }

  /** `selectNumbers` before it hands the numbers to the canvas: slot i gets
      the first candidate that differs from every earlier slot. Returns the
      pick and how many candidates were consumed. */
  method PickLuckyNumbers(stream: seq<int>) returns (picked: Option<seq<int>>, used: nat)
    ensures picked == Draw(stream)
    ensures used <= |stream|
    ensures picked.Some? ==> 0 < used && picked.value == Dedup(stream[..used])
    ensures picked.Some? ==> |Dedup(stream[..used - 1])| == NUMBER_TO_PICK - 1
    ensures picked.None? ==> used == |stream|
  {
    var luckyNumbers := seq(NUMBER_TO_PICK, _ => 0);
    used := 0;
    var i := 0;
    while i < NUMBER_TO_PICK
      invariant 0 <= i <= NUMBER_TO_PICK && used <= |stream|
      invariant |luckyNumbers| == NUMBER_TO_PICK
      invariant luckyNumbers[..i] == Dedup(stream[..used])
      invariant i > 0 ==> 0 < used && |Dedup(stream[..used - 1])| == i - 1
    {
      var found, newNumber, next := NextNewNumber(stream, luckyNumbers, i, used);
      used := next;
      if !found {
        assert |Dedup(stream)| == i;
        return None, used;
      }
      DedupSnoc(stream, used);
      assert Dedup(stream[..used]) == luckyNumbers[..i] + [newNumber];
      luckyNumbers := luckyNumbers[i := newNumber];
      assert luckyNumbers[..i + 1] == luckyNumbers[..i] + [newNumber];
      i := i + 1;
    }
    DedupPrefix(stream, used);
    assert luckyNumbers == luckyNumbers[..i] == Dedup(stream[..used]);
    assert Dedup(stream)[..NUMBER_TO_PICK] == luckyNumbers;
    picked := Some(luckyNumbers);
  }
}
