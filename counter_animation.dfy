// The statistics counter of the portfolio page: each counter counts up from
// 0 to its target in steps of `inc`, one step per animation frame, showing
// "<count>+" after every step.

module CounterAnimation {

  /** The `speed` field: a counter reaches its target in about this many frames. */
  const Speed: nat := 80

  /** Math.ceil(a / b) for a positive integer divisor. */
  function CeilDiv(a: int, b: nat): (q: int)
    requires b > 0
    ensures (q - 1) * b < a <= q * b
  {
    if a >= 0 then (a + b - 1) / b else -((-a) / b)
  }

  /** The step of `updateCounter`: Math.max(1, Math.ceil(target / speed)). */
  function Increment(target: int): (inc: nat)
    ensures inc >= 1
    ensures target <= Speed * inc
    ensures target > Speed ==> Speed * (inc - 1) < target
    ensures target <= Speed ==> inc == 1
  {
    var c := CeilDiv(target, Speed);
    if c < 1 then 1 else c
  }

  function Min(a: int, b: int): int
  {
    if a <= b then a else b
  }

  /**
   * The counts shown by the frame callback `update`, starting from `count`:
   * each call sets count to min(count + inc, target) and shows it, and asks
   * for another frame while the count is still below the target.
   */
  function Run(count: int, inc: nat, target: int): seq<int>
    requires inc >= 1
    decreases if count < target then target - count else 0
  {
    var next := Min(count + inc, target);
    if next < target then [next] + Run(next, inc, target) else [next]
  }

  /**
   * One run of `updateCounter`: the value of `count` at the end and the
   * counts shown, frame by frame.
   */
  method UpdateCounter(target: int) returns (count: int, frames: seq<int>)
    ensures count == target
    ensures frames == Run(0, Increment(target), target)
  {
    var inc := Increment(target);
    count := 0;
    count := Min(count + inc, target);
    frames := [count];
    while count < target
      invariant count <= target
      invariant count < target ==> frames + Run(count, inc, target) == Run(0, inc, target)
      invariant count == target ==> frames == Run(0, inc, target)
      decreases target - count
    {
      ghost var prev := count;
      count := Min(count + inc, target);
      assert Run(prev, inc, target) == if count < target then [count] + Run(count, inc, target) else [count];
      frames := frames + [count];
    }
  }

  /**
   * Every run is finite, ends exactly at the target, and rises strictly:
   * each shown count is at most the target, all but the last are below
   * it, and each one is the previous plus inc, capped at the target.
   */
  lemma {:induction false} RunShape(count: int, inc: nat, target: int)
    requires inc >= 1
    ensures var r := Run(count, inc, target);
      |r| >= 1 && r[|r| - 1] == target && r[0] == Min(count + inc, target) &&
      (forall k :: 0 <= k < |r| ==> r[k] <= target) &&
      (forall k :: 0 <= k < |r| - 1 ==> r[k] < target && r[k + 1] == Min(r[k] + inc, target)) &&
      (forall k :: 0 <= k < |r| - 1 ==> r[k] < r[k + 1])
    decreases if count < target then target - count else 0
  {
    var next := Min(count + inc, target);
    if next < target {
      RunShape(next, inc, target);
      var rest := Run(next, inc, target);
      var r := Run(count, inc, target);
      assert r == [next] + rest;
      assert forall k :: 1 <= k < |r| ==> r[k] == rest[k - 1];
    }
  }

  lemma MulMono(a: int, b: int, c: int)
    requires a <= b && c >= 0
    ensures a * c <= b * c
  {
  }

  /** The ceiling is the only q with (q - 1) * b < a <= q * b. */
  lemma CeilUnique(a: int, b: nat, q: int)
    requires b > 0
    requires (q - 1) * b < a <= q * b
    ensures q == CeilDiv(a, b)
  {
    var c := CeilDiv(a, b);
    if q < c {
      MulMono(q, c - 1, b);
    } else if q > c {
      MulMono(c, q - 1, b);
    }
  }

  /** A run starting below the target shows ceil((target - count) / inc) counts. */
  lemma {:induction false} RunLength(count: int, inc: nat, target: int)
    requires inc >= 1 && count < target
    ensures |Run(count, inc, target)| == CeilDiv(target - count, inc)
    decreases target - count
  {
    var next := Min(count + inc, target);
    if next < target {
      RunLength(next, inc, target);
      var q := CeilDiv(target - next, inc);
      assert (q - 1) * inc < target - next <= q * inc;
      CeilUnique(target - count, inc, q + 1);
    } else {
      CeilUnique(target - count, inc, 1);
    }
  }

  /**
   * `updateCounter` shows exactly one frame when the target is not positive,
   * and otherwise at most `speed` (80) frames, the last of them the target.
   */
  lemma CounterFrames(target: int)
    ensures var r := Run(0, Increment(target), target);
      r[|r| - 1] == target &&
      (target <= 0 ==> |r| == 1) &&
      (0 < target <= Speed ==> |r| == target) &&
      (target > 0 ==> |r| == CeilDiv(target, Increment(target)) <= Speed)
  {
    var inc := Increment(target);
    RunShape(0, inc, target);
    if target > 0 {
      RunLength(0, inc, target);
      var q := CeilDiv(target, inc);
      if q > Speed {
        MulMono(Speed, q - 1, inc);
      }
    }
  }
}
