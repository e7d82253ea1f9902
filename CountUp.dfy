/** The count-up animation of one counter element: the text goes from 0 up
    to the element's `data-target`, one step per timer tick. */
module CountUp {
  import opened JsBuiltins

  /** `+el.dataset.target || 0`: the attribute read as a number, with a
      missing attribute, a non-numeric one and zero all giving 0. */
  function TargetOf(attr: Option<string>): (t: int)
    ensures attr.None? ==> t == 0
    ensures attr.Some? && ToNumber(attr.value).NaN? ==> t == 0
    ensures attr.Some? && ToNumber(attr.value).Int? ==> t == ToNumber(attr.value).value
  {
    match attr
    case None => 0
    case Some(s) =>
      match ToNumber(s)
      case NaN => 0
      case Int(v) => if v == 0 then 0 else v
  }

  /** A target written out in decimal is read back unchanged. */
  lemma TargetOfDecimal(t: int)
    ensures TargetOf(Some(IntToString(t))) == t
  {
    NumberOfString(t);
  }

  /** `Math.round(t / 60)`: the integer nearest to t/60, halves rounded up. */
  function Round60(t: int): (r: int)
    ensures 60 * r - 30 <= t < 60 * r + 30
  {
    (t + 30) / 60
  }

  /** `Math.max(1, Math.round(target / 60))`. */
  function Step(target: int): (s: int)
    ensures s >= 1
    ensures target >= 30 ==> 60 * s - 30 <= target < 60 * s + 30
    ensures target < 30 ==> s == 1
  {
    var r := Round60(target);
    if r >= 1 then r else 1
  }

  /** The number of ticks the timer fires before it clears itself: the
      smallest k >= 1 with k * Step(target) >= target. */
  function TickCount(target: int): (k: nat)
    ensures k >= 1
  {
    if target <= 0 then 1 else (target + Step(target) - 1) / Step(target)
  }

  /** The value written by tick k (counting from 1): k steps, clamped at the target. */
  function Shown(target: int, k: nat): (v: int)
    ensures v <= target
    ensures v == target || v == k * Step(target)
  {
    var n := k * Step(target);
    if n >= target then target else n
  }

  lemma MulMonotone(x: int, y: int, s: nat)
    requires x <= y
    ensures x * s <= y * s
  {
    assert y * s - x * s == (y - x) * s;
  }

  lemma DivUnique(a: int, s: int, q: int)
    requires s >= 1 && q * s <= a < q * s + s
    ensures a / s == q
  {
    var d := a / s;
    assert a == d * s + a % s && 0 <= a % s < s;
    if d > q {
      MulMonotone(q + 1, d, s);
    } else if d < q {
      MulMonotone(d + 1, q, s);
    }
  }

  /** For a positive target the count is ceil(target / step): the last tick
      reaches the target and the one before it does not. */
  lemma TickCountIsCeiling(target: int)
    requires target > 0
    ensures (TickCount(target) - 1) * Step(target) < target <= TickCount(target) * Step(target)
  {
    var s, k := Step(target), TickCount(target);
    var a := target + s - 1;
    assert a == (a / s) * s + a % s && 0 <= a % s < s;
    assert k * s == a - a % s;
    assert (k - 1) * s == k * s - s;
  }

  /** The tick at which `m` steps stay below a positive target and `m + 1`
      steps reach it is the last one. */
  lemma LastTick(target: int, m: nat)
    requires target > 0
    requires m * Step(target) < target <= (m + 1) * Step(target)
    ensures TickCount(target) == m + 1
  {
    var s := Step(target);
    assert (m + 1) * s == m * s + s;
    DivUnique(target + s - 1, s, m + 1);
  }

  /** The last tick writes the target itself, and every earlier one writes
      less than the target. */
  lemma EndsAtTarget(target: int, k: nat)
    requires 1 <= k <= TickCount(target)
    ensures k == TickCount(target) ==> Shown(target, k) == target
    ensures k < TickCount(target) ==> Shown(target, k) < target
  {
    if target > 0 {
      TickCountIsCeiling(target);
      if k < TickCount(target) {
        MulMonotone(k, TickCount(target) - 1, Step(target));
      } else {
        assert k * Step(target) >= target;
      }
    } else {
      assert k == 1;
    }
  }

  /** The written values strictly increase from tick to tick. */
  lemma ShownIncreases(target: int, j: nat, k: nat)
    requires 1 <= j < k <= TickCount(target)
    ensures Shown(target, j) < Shown(target, k)
  {
    EndsAtTarget(target, j);
    var s := Step(target);
    assert j * s < k * s;
  }

  /** Whatever the target, the animation finishes within 90 ticks. */
  lemma AtMostNinetyTicks(target: int)
    ensures TickCount(target) <= 90
  {
    if target > 0 {
      TickCountIsCeiling(target);
      var s, k := Step(target), TickCount(target);
      assert target < 90 * s;
      assert (k - 1) * s < 90 * s;
    }
  }

  /** The `setInterval` callback run until it clears its own timer: each
      tick adds the step to `n`, clamps at the target (and stops), and
      writes `n` as the element's text. Returns the values written. */
  method Animate(target: int) returns (shown: seq<int>)
    ensures |shown| == TickCount(target)
    ensures forall k :: 0 <= k < |shown| ==> shown[k] == Shown(target, k + 1)
  {
    var n := 0;
    var step := Step(target);
    var running := true;
    shown := [];
    while running
      invariant |shown| <= TickCount(target)
      invariant running ==> |shown| < TickCount(target)
      invariant running ==> n == |shown| * step && (|shown| > 0 ==> n < target)
      invariant !running ==> |shown| == TickCount(target)
      invariant forall k :: 0 <= k < |shown| ==> shown[k] == Shown(target, k + 1)
      decreases TickCount(target) - |shown|
    {
      var m := |shown|;
      n := n + step;
      assert n == (m + 1) * step;
      if n >= target {
        if target > 0 {
          LastTick(target, m);
        }
        n := target;
        running := false;
      } else if target > 0 {
        assert (m + 1) * step < target;
        TickCountIsCeiling(target);
        assert (m + 1) * step < TickCount(target) * step;
      }
      shown := shown + [n];
    }
  }
}
