/**
 The counter animation of `animateCounter`: the sequence of integers the
 `view-count` element shows. Each timer tick is one loop iteration; the
 millisecond interval and the locale formatting are not modelled.
 */
module Animation {

  function Min(a: int, b: int): int { if a <= b then a else b }

  predicate StrictlyIncreasing(s: seq<int>)
  {
    forall i, j :: 0 <= i < j < |s| ==> s[i] < s[j]
  }

  /** `Math.max(1, Math.ceil(n / 30))`, the amount each tick adds: the least
      positive multiplier that covers n in 30 steps. */
  function Increment(n: int): (r: int)
    requires n >= 1
    ensures r >= 1
    ensures (r - 1) * 30 < n <= r * 30
  {
    var c := (n + 29) / 30;
    if c < 1 then 1 else c
  }

  /** The values shown by the ticks that follow a displayed `cur`: each tick
      adds `inc`, and the tick that reaches or passes `n` shows `n` and stops
      the timer. */
  function Ticks(n: int, inc: int, cur: int): (t: seq<int>)
    requires inc >= 1 && cur < n
    ensures |t| >= 1 && t[|t| - 1] == n
    decreases n - cur
  {
    var next := cur + inc;
    if next >= n then [n] else [next] + Ticks(n, inc, next)
  }

  /** Everything the element shows for a final value n: below 1 the value
      itself at once, otherwise the ticks counting up from 0. */
  function Frames(n: int): (f: seq<int>)
    ensures |f| >= 1 && f[|f| - 1] == n
    ensures n < 1 ==> f == [n]
  {
    if n < 1 then [n] else Ticks(n, Increment(n), 0)
  }

  lemma {:induction false} TicksShape(n: int, inc: int, cur: int)
    requires inc >= 1 && cur < n
    ensures var t := Ticks(n, inc, cur);
      && |t| >= 1
      && (|t| - 1) * inc < n - cur <= |t| * inc
      && (forall i :: 0 <= i < |t| ==> t[i] == Min(cur + (i + 1) * inc, n))
      && StrictlyIncreasing(t)
      && (forall i :: 0 <= i < |t| ==> cur < t[i] <= n)
      && t[|t| - 1] == n
    decreases n - cur
  {
    var next := cur + inc;
    if next < n {
      TicksShape(n, inc, next);
      var rest := Ticks(n, inc, next);
      var t := Ticks(n, inc, cur);
      assert t == [next] + rest;
      assert |t| * inc == (|rest| - 1) * inc + 2 * inc;
      forall i | 0 <= i < |t|
        ensures t[i] == Min(cur + (i + 1) * inc, n)
      {
        if i > 0 {
          assert t[i] == rest[i - 1];
          assert next + i * inc == cur + (i + 1) * inc;
        }
      }
    }
  }

  /** For a final value n >= 1 the shown values climb strictly, never pass n,
      end on exactly n, the i-th is `min((i + 1) * increment, n)`, and there
      are at most 30 of them, so the timer is always cleared. */
  lemma FramesShape(n: int)
    requires n >= 1
    ensures var f := Frames(n);
      && 1 <= |f| <= 30
      && StrictlyIncreasing(f)
      && (forall i :: 0 <= i < |f| ==> 1 <= f[i] <= n)
      && (forall i :: 0 <= i < |f| ==> f[i] == Min((i + 1) * Increment(n), n))
      && f[|f| - 1] == n
  {
    var inc := Increment(n);
    TicksFromZero(n, inc);
    assert Frames(n) == Ticks(n, inc, 0);
  }

  /** The ticks counting up from 0 by a step that reaches n within 30 steps. */
  lemma TicksFromZero(n: int, inc: int)
    requires inc >= 1 && 0 < n <= 30 * inc
    ensures var f := Ticks(n, inc, 0);
      && 1 <= |f| <= 30
      && StrictlyIncreasing(f)
      && (forall i :: 0 <= i < |f| ==> 1 <= f[i] <= n)
      && (forall i :: 0 <= i < |f| ==> f[i] == Min((i + 1) * inc, n))
      && f[|f| - 1] == n
  {
    TicksShape(n, inc, 0);
    var f := Ticks(n, inc, 0);
    TickCountBound(|f|, inc, n);
    forall i | 0 <= i < |f|
      ensures f[i] == Min((i + 1) * inc, n)
    {
      assert f[i] == Min(0 + (i + 1) * inc, n);
    }
  }

  /** The part of `FramesShape` the tick loop promises. */
  lemma FramesOrdered(n: int, f: seq<int>)
    requires n >= 1 && f == Ticks(n, Increment(n), 0)
    ensures f == Frames(n)
    ensures StrictlyIncreasing(f) && 1 <= |f| <= 30 && f[|f| - 1] == n
  {
    FramesShape(n);
  }

  /** If k - 1 steps of size inc stay below n and 30 steps reach it, k <= 30. */
  lemma TickCountBound(k: int, inc: int, n: int)
    requires inc >= 1
    requires (k - 1) * inc < n <= 30 * inc
    ensures k <= 30
  {
  }

  /** Below 1 the value is shown at once, with no ticks. */
  lemma FramesBelowOne(n: int)
    requires n < 1
    ensures Frames(n) == [n]
  {
  }

  /** The last value shown is the final value, whatever it is. */
  lemma FramesEndOnValue(n: int)
    ensures |Frames(n)| >= 1 && Frames(n)[|Frames(n)| - 1] == n
  {
    if n >= 1 {
      FramesShape(n);
    }
  }

  /** One tick: the value after `cur`, then the ticks after that value. */
  lemma TicksStep(n: int, inc: int, cur: int, next: int)
    requires inc >= 1 && cur < n && next == cur + inc
    ensures next >= n ==> Ticks(n, inc, cur) == [n]
    ensures next < n ==> Ticks(n, inc, cur) == [next] + Ticks(n, inc, next)
  {
  }

  /** Concatenation regrouped, for the loop step of `Animate`. */
  lemma ConcatAssoc(a: seq<int>, b: seq<int>, c: seq<int>)
    ensures a + (b + c) == (a + b) + c
  {
  }

  /** `animateCounter` with the interval timer unrolled into a loop: returns
      the values written to the element, tick by tick. */
  method Animate(n: int) returns (frames: seq<int>)
    ensures frames == Frames(n)
    ensures n >= 1 ==> StrictlyIncreasing(frames) && 1 <= |frames| <= 30
  {
    if n < 1 {
      frames := [n];
    } else {
      var current := 0;
      var increment := Increment(n);
      ghost var target := Ticks(n, increment, 0);
      frames := [];
      while current < n
        invariant 0 <= current <= n
        invariant current < n ==> frames + Ticks(n, increment, current) == target
        invariant current == n ==> frames == target
        decreases n - current
      {
        var next := current + increment;
        TicksStep(n, increment, current, next);
        if next >= n {
          next := n;
        } else {
          ConcatAssoc(frames, [next], Ticks(n, increment, next));
        }
        current := next;
        frames := frames + [current];
      }
      FramesOrdered(n, frames);
    }
  }
}
