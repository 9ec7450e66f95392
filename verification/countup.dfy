/**
 The `CountUp` component: a label such as "500+" is split into a numeric
 target (its digits) and a suffix (everything else); once the span scrolls
 into view an interval timer fires every 16 ms, adds a fixed increment to an
 accumulator and shows its floor, until the accumulator reaches the target,
 when the exact target is shown and the timer is cleared.

 The accumulator is exact: the rounding of JavaScript doubles is not modelled.
 */
module CountUp {
  import opened Decimal
  import opened JsNumber
  import Visibility

  /** The interval period of the timer, in milliseconds. */
  const TickMs: real := 16.0

  /** The `duration` prop when none is given, in milliseconds. */
  const DefaultDurationMs: real := 2000.0

  /** The component's props: the label `end` and the total `duration`. */
  datatype Props = Props(end: string, durationMs: real)

  /** `parseInt(end.replace(/\D/g, ''))`: NaN when the label has no digit. */
  function Target(end: string): (r: Num)
    ensures r.NaN? <==> NoDigits(end)
    ensures r.Real? ==> IsWhole(r) && r.v >= 0.0
  {
    FiltersPartition(end);
    var digits := KeepDigits(end);
    if digits == [] then NaN else FromNat(Value(digits))
  }

  /** `end.replace(/[0-9]/g, '')`, shown unchanged after the count. */
  function Suffix(end: string): (r: string)
    ensures NoDigits(r)
    ensures multiset(KeepDigits(end)) + multiset(r) == multiset(end)
  {
    FiltersPartition(end);
    DropDigits(end)
  }

  /** `targetNumber / (duration / 16)`, the amount added on every tick. */
  function Increment(target: Num, durationMs: real): (r: Num)
    requires durationMs > 0.0
    ensures r.NaN? <==> target.NaN?
    ensures target.Real? && target.v >= 0.0 ==> r.v >= 0.0
    ensures target.Real? ==> r.v * (durationMs / TickMs) == target.v
  {
    Div(target, durationMs / TickMs)
  }

  /** The component state: the visibility flag, whether the interval timer
      is live, the accumulator `start` it closes over, and the shown `count`. */
  datatype Counter = Counter(isVisible: bool, running: bool, start: Num, count: Num)

  /** The state on mount: hidden, no timer, count 0. */
  const Mounted: Counter := Counter(false, false, Real(0.0), Real(0.0))

  /** An intersection observer callback. The first time the flag turns true the
      effect starts a fresh timer with `start = 0`; later callbacks change nothing. */
  function Observe(c: Counter, isIntersecting: bool): (r: Counter)
    ensures r.isVisible == Visibility.Latch(c.isVisible, isIntersecting)
    ensures r.count == c.count
    ensures c.isVisible ==> r == c
  {
    if !c.isVisible && Visibility.Latch(c.isVisible, isIntersecting) then
      Counter(true, true, Real(0.0), c.count)
    else
      c
  }

  /** One firing of the interval timer; without a live timer nothing happens. */
  function Tick(p: Props, c: Counter): (r: Counter)
    requires p.durationMs > 0.0
    ensures r.isVisible == c.isVisible
    ensures !c.running ==> r == c
    ensures c.running && !r.running ==> r.count == Target(p.end)
    ensures c.running ==> r.start == Add(c.start, Increment(Target(p.end), p.durationMs))
    ensures c.running ==> (r.running <==> !AtLeast(r.start, Target(p.end)))
    ensures r.running ==> r.count == Floor(r.start)
  {
    if !c.running then c
    else
      var target := Target(p.end);
      var start := Add(c.start, Increment(target, p.durationMs));
      if AtLeast(start, target) then
        Counter(c.isVisible, false, start, target)
      else
        Counter(c.isVisible, true, start, Floor(start))
  }

  /** What the host environment delivers: an observer entry or a timer firing. */
  datatype Event = Intersection(isIntersecting: bool) | TimerTick

  function Step(p: Props, c: Counter, e: Event): Counter
    requires p.durationMs > 0.0
  {
    match e
    case Intersection(b) => Observe(c, b)
    case TimerTick => Tick(p, c)
  }

  /** The state after `events`, oldest first. */
  function Run(p: Props, c: Counter, events: seq<Event>): Counter
    requires p.durationMs > 0.0
    decreases |events|
  {
    if events == [] then c else Step(p, Run(p, c, events[..|events| - 1]), events[|events| - 1])
  }

  /** The state after `k` timer firings. */
  function Ticks(p: Props, c: Counter, k: nat): Counter
    requires p.durationMs > 0.0
    decreases k
  {
    if k == 0 then c else Tick(p, Ticks(p, c, k - 1))
  }

  /** The state just after the counter first scrolls into view. */
  const Started: Counter := Observe(Mounted, true)

  /** How React renders a number held in state. */
  function Render(n: Num): (r: string)
    ensures |r| >= 1
    ensures n.NaN? <==> r == "NaN"
    ensures n.Real? && n.v >= 0.0 ==> Canonical(r) && Value(r) == n.v.Floor
    ensures n.Real? && n.v < 0.0 ==> r[0] == '-'
  {
    match n
    case NaN => "NaN"
    case Real(v) =>
      if v.Floor >= 0 then
        ValueOfNatToString(v.Floor);
        NatToString(v.Floor)
      else
        var r := "-" + NatToString(-v.Floor);
        assert r[0] == '-';
        r
  }

  /** The text of the span: `{count}{suffix}`. */
  function Text(p: Props, c: Counter): (r: string)
    ensures |r| > |Suffix(p.end)| && r[|r| - |Suffix(p.end)|..] == Suffix(p.end)
    ensures IsWhole(c.count) && c.count.v >= 0.0 ==>
              var shown := r[..|r| - |Suffix(p.end)|];
              Canonical(shown) && Value(shown) as real == c.count.v
  {
    var r := Render(c.count) + Suffix(p.end);
    assert r[..|Render(c.count)|] == Render(c.count);
    if IsWhole(c.count) && c.count.v >= 0.0 then
      ValueOfNatToString(c.count.v.Floor);
      r
    else
      r
  }

  /** `ceil(duration / 16)`: the number of firings the animation is meant to take. */
  function TickBound(p: Props): (n: nat)
    requires p.durationMs > 0.0
    ensures n >= 1
    ensures n as real >= p.durationMs / TickMs > (n - 1) as real
  {
    var q := p.durationMs / TickMs;
    -((-q).Floor)
  }

  /** What holds of every state reachable from `Mounted` for a whole target `t >= 0`. */
  ghost predicate Inv(c: Counter, t: real) {
    && IsWhole(c.count) && 0.0 <= c.count.v <= t
    && (c.running ==> c.isVisible)
    && (!c.isVisible ==> c.count == Real(0.0))
    && (c.isVisible && !c.running ==> c.count == Real(t))
    && (c.running ==> c.start.Real? && 0.0 <= c.start.v && c.count == Floor(c.start)
                      && (c.start.v < t || c.start.v == 0.0))
  }

  lemma ObserveKeepsInv(c: Counter, isIntersecting: bool, t: real)
    requires t >= 0.0 && Inv(c, t)
    ensures Inv(Observe(c, isIntersecting), t)
  {
  }

  lemma FloorMonotone(a: real, b: real)
    requires a <= b
    ensures a.Floor <= b.Floor
  {
  }

  lemma TickKeepsInv(p: Props, c: Counter)
    requires p.durationMs > 0.0 && Target(p.end).Real?
    requires Inv(c, Target(p.end).v)
    ensures Inv(Tick(p, c), Target(p.end).v)
    ensures Tick(p, c).count.v >= c.count.v
  {
    if c.running {
      var target := Target(p.end);
      var inc := Increment(target, p.durationMs);
      assert inc.Real? && inc.v >= 0.0;
      var start := Add(c.start, inc);
      assert start == Real(c.start.v + inc.v);
      if !AtLeast(start, target) {
        FloorMonotone(c.start.v, start.v);
      }
    }
  }

  /** Every event keeps the invariant, never lowers the count and never hides the counter again. */
  lemma StepKeepsInv(p: Props, c: Counter, e: Event)
    requires p.durationMs > 0.0 && Target(p.end).Real?
    requires Inv(c, Target(p.end).v)
    ensures Inv(Step(p, c, e), Target(p.end).v)
    ensures Step(p, c, e).count.v >= c.count.v
    ensures c.isVisible ==> Step(p, c, e).isVisible
  {
    match e
    case Intersection(b) => ObserveKeepsInv(c, b, Target(p.end).v);
    case TimerTick => TickKeepsInv(p, c);
  }

  lemma {:induction false} RunKeepsInv(p: Props, events: seq<Event>)
    requires p.durationMs > 0.0 && Target(p.end).Real?
    ensures Inv(Run(p, Mounted, events), Target(p.end).v)
    decreases |events|
  {
    if events != [] {
      RunKeepsInv(p, events[..|events| - 1]);
      StepKeepsInv(p, Run(p, Mounted, events[..|events| - 1]), events[|events| - 1]);
    }
  }

  /** No overshoot: whatever the observer and the timer deliver, the shown count is
      0 before the counter is seen, the exact target, or the floor of an accumulator
      still below the target; so it never exceeds the target. */
  lemma NoOvershoot(p: Props, events: seq<Event>)
    requires p.durationMs > 0.0 && Target(p.end).Real?
    ensures var c := Run(p, Mounted, events);
            && IsWhole(c.count) && c.count.v <= Target(p.end).v
            && (|| c.count == Target(p.end)
                || (c.running && c.count == Floor(c.start) && c.start.v < Target(p.end).v)
                || (!c.isVisible && c.count == Real(0.0)))
  {
    RunKeepsInv(p, events);
  }

  /** The shown count never decreases along any sequence of events. */
  lemma {:induction false} CountNeverDecreases(p: Props, events: seq<Event>, i: nat, j: nat)
    requires p.durationMs > 0.0 && Target(p.end).Real?
    requires i <= j <= |events|
    ensures && Run(p, Mounted, events[..i]).count.Real?
            && Run(p, Mounted, events[..j]).count.Real?
            && Run(p, Mounted, events[..i]).count.v <= Run(p, Mounted, events[..j]).count.v
    decreases j - i
  {
    RunKeepsInv(p, events[..i]);
    if i < j {
      CountNeverDecreases(p, events, i, j - 1);
      var init := events[..j - 1];
      assert events[..j][..j - 1] == init;
      RunKeepsInv(p, init);
      StepKeepsInv(p, Run(p, Mounted, init), events[j - 1]);
    }
  }

  /** The counter is visible exactly when some observer entry has intersected. */
  lemma {:induction false} VisibleIffIntersected(p: Props, events: seq<Event>)
    requires p.durationMs > 0.0
    ensures Run(p, Mounted, events).isVisible
            <==> exists i :: 0 <= i < |events| && events[i] == Intersection(true)
    decreases |events|
  {
    if events != [] {
      var init := events[..|events| - 1];
      VisibleIffIntersected(p, init);
      if exists i :: 0 <= i < |init| && init[i] == Intersection(true) {
        var i :| 0 <= i < |init| && init[i] == Intersection(true);
        assert events[i] == Intersection(true);
      }
      if exists i :: 0 <= i < |events| && events[i] == Intersection(true) {
        var i :| 0 <= i < |events| && events[i] == Intersection(true);
        if i < |init| {
          assert init[i] == Intersection(true);
        }
      }
    }
  }

  /** For any label, even one without digits: the timer runs only once the counter
      has been seen, and until then the count is 0. */
  lemma {:induction false} HiddenCountIsZero(p: Props, events: seq<Event>)
    requires p.durationMs > 0.0
    ensures var c := Run(p, Mounted, events);
            (c.running ==> c.isVisible) && (!c.isVisible ==> c.count == Real(0.0))
    decreases |events|
  {
    if events != [] {
      HiddenCountIsZero(p, events[..|events| - 1]);
    }
  }

  /** Until the counter has been seen it shows 0 followed by the suffix, whatever the label. */
  lemma HiddenShowsZero(p: Props, events: seq<Event>)
    requires p.durationMs > 0.0
    requires forall i :: 0 <= i < |events| ==> events[i] != Intersection(true)
    ensures Text(p, Run(p, Mounted, events)) == "0" + Suffix(p.end)
  {
    VisibleIffIntersected(p, events);
    HiddenCountIsZero(p, events);
    assert Render(Real(0.0)) == "0";
  }

  /** Once the timer has been cleared no event changes the state again. */
  lemma {:induction false} StoppedIsFinal(p: Props, c: Counter, events: seq<Event>)
    requires p.durationMs > 0.0
    requires c.isVisible && !c.running
    ensures Run(p, c, events) == c
    decreases |events|
  {
    if events != [] {
      StoppedIsFinal(p, c, events[..|events| - 1]);
    }
  }

  /** The accumulator after `k` additions of `inc` to 0. */
  function Accumulated(inc: real, k: nat): real
    decreases k
  {
    if k == 0 then 0.0 else Accumulated(inc, k - 1) + inc
  }

  lemma {:induction false} AccumulatedIsProduct(inc: real, k: nat)
    ensures Accumulated(inc, k) == k as real * inc
    decreases k
  {
    if k > 0 {
      AccumulatedIsProduct(inc, k - 1);
      assert k as real * inc == ((k - 1) as real + 1.0) * inc == (k - 1) as real * inc + inc;
    }
  }

  /** After `k` firings the counter interpolates: from the first firing on, the timer
      is live exactly while the accumulator `k * increment` is still below the target;
      while live it holds that accumulator and shows its floor, and once cleared it
      shows the target. */
  lemma {:induction false} TicksProgress(p: Props, k: nat)
    requires p.durationMs > 0.0 && Target(p.end).Real?
    ensures var c := Ticks(p, Started, k);
            var acc := Accumulated(Increment(Target(p.end), p.durationMs).v, k);
            && c.isVisible
            && (k == 0 ==> c.running)
            && (k >= 1 ==> (c.running <==> acc < Target(p.end).v))
            && (c.running ==> c.start == Real(acc) && c.count == Floor(Real(acc)))
            && (!c.running ==> c.count == Target(p.end))
    decreases k
  {
    if k > 0 {
      TicksProgress(p, k - 1);
      var inc := Increment(Target(p.end), p.durationMs);
      assert inc.Real? && inc.v >= 0.0;
      assert Accumulated(inc.v, k) == Accumulated(inc.v, k - 1) + inc.v;
    }
  }

  lemma MulMonotone(a: real, b: real, c: real)
    requires a >= b && c >= 0.0
    ensures a * c >= b * c
  {
  }

  /** `ceil(duration / 16)` additions of the increment reach a target `t >= 0`. */
  lemma BoundReachesTarget(p: Props)
    requires p.durationMs > 0.0 && Target(p.end).Real?
    ensures Accumulated(Increment(Target(p.end), p.durationMs).v, TickBound(p)) >= Target(p.end).v
  {
    var n := TickBound(p);
    var q := p.durationMs / TickMs;
    var t := Target(p.end).v;
    var inc := Increment(Target(p.end), p.durationMs).v;
    assert inc == t / q;
    assert inc * q == t;
    MulMonotone(n as real, q, inc);
    AccumulatedIsProduct(inc, n);
  }

  /** Termination: at the latest after `ceil(duration / 16)` firings the timer is
      cleared and the exact target is shown. */
  lemma FinishesWithinBound(p: Props)
    requires p.durationMs > 0.0 && Target(p.end).Real?
    ensures var c := Ticks(p, Started, TickBound(p));
            !c.running && c.isVisible && c.count == Target(p.end)
  {
    TicksProgress(p, TickBound(p));
    BoundReachesTarget(p);
  }

  /** A label without digits makes the target NaN: the comparison with it is always
      false, so the timer is never cleared and the count shows NaN from the first firing on. */
  lemma {:induction false} NoDigitsNeverStops(p: Props, k: nat)
    requires p.durationMs > 0.0 && NoDigits(p.end)
    ensures Ticks(p, Started, k).running
    ensures k >= 1 ==> Ticks(p, Started, k).count.NaN? && Text(p, Ticks(p, Started, k)) == "NaN" + p.end
    decreases k
  {
    FiltersOnNonDigits(p.end);
    if k > 0 {
      NoDigitsNeverStops(p, k - 1);
    }
  }

  /** Once finished, the span shows the digits of the label read as a number,
      followed by the non-digit characters of the label. */
  lemma FinalText(p: Props)
    requires p.durationMs > 0.0 && !NoDigits(p.end)
    ensures Text(p, Ticks(p, Started, TickBound(p)))
            == NatToString(Value(KeepDigits(p.end))) + DropDigits(p.end)
  {
    FinishesWithinBound(p);
    var n := Value(KeepDigits(p.end));
    assert (n as real).Floor == n;
  }

  /** A label made of a canonical numeral followed by a digit-free suffix ends up
      shown exactly as written. */
  lemma LabelRoundTrip(digits: string, suffix: string, durationMs: real)
    requires Canonical(digits) && NoDigits(suffix) && durationMs > 0.0
    ensures var p := Props(digits + suffix, durationMs);
            Text(p, Ticks(p, Started, TickBound(p))) == digits + suffix
  {
    var p := Props(digits + suffix, durationMs);
    FiltersDistribute(digits, suffix);
    FiltersOnDigits(digits);
    FiltersOnNonDigits(suffix);
    assert KeepDigits(p.end) == digits;
    assert DropDigits(p.end) == suffix;
    FinalText(p);
    NatToStringOfValue(digits);
  }

  /** The labels of the "About" statistics. */
  const Stats: seq<string> := ["12+", "500+", "45+"]

  /** Each statistic, counted with the default duration, ends at its own label after
      125 firings. */
  lemma StatsEndAtLabel(i: nat)
    requires i < |Stats|
    ensures var p := Props(Stats[i], DefaultDurationMs);
            TickBound(p) == 125 && Text(p, Ticks(p, Started, 125)) == Stats[i]
  {
    if i == 0 {
      assert Stats[i] == "12" + "+";
      LabelRoundTrip("12", "+", DefaultDurationMs);
    } else if i == 1 {
      assert Stats[i] == "500" + "+";
      LabelRoundTrip("500", "+", DefaultDurationMs);
    } else {
      assert Stats[i] == "45" + "+";
      LabelRoundTrip("45", "+", DefaultDurationMs);
    }
  }

  /** Every state of the animation satisfies the invariant. */
  lemma {:induction false} TicksInv(p: Props, k: nat)
    requires p.durationMs > 0.0 && Target(p.end).Real?
    ensures Inv(Ticks(p, Started, k), Target(p.end).v)
    decreases k
  {
    if k == 0 {
      ObserveKeepsInv(Mounted, true, Target(p.end).v);
    } else {
      TicksInv(p, k - 1);
      TickKeepsInv(p, Ticks(p, Started, k - 1));
    }
  }

  /** The animation's counts never decrease. */
  lemma {:induction false} TicksMonotone(p: Props, i: nat, j: nat)
    requires p.durationMs > 0.0 && Target(p.end).Real? && i <= j
    ensures Ticks(p, Started, i).count.Real? && Ticks(p, Started, j).count.Real?
    ensures Ticks(p, Started, i).count.v <= Ticks(p, Started, j).count.v
    decreases j - i
  {
    TicksInv(p, j);
    if i < j {
      TicksMonotone(p, i, j - 1);
      TicksInv(p, j - 1);
      TickKeepsInv(p, Ticks(p, Started, j - 1));
    } else {
      TicksInv(p, i);
    }
  }

  /** The whole animation after the counter is first seen, simulated for at most
      `maxTicks` firings: the counts it shows, in order, and the final state. */
  method Animate(p: Props, maxTicks: nat) returns (shown: seq<Num>, final: Counter)
    requires p.durationMs > 0.0
    ensures |shown| <= maxTicks
    ensures final == Ticks(p, Started, |shown|)
    ensures forall i :: 0 <= i < |shown| ==> shown[i] == Ticks(p, Started, i + 1).count
    ensures final.running ==> |shown| == maxTicks
    ensures Target(p.end).Real? ==>
              forall i, j :: 0 <= i <= j < |shown| ==>
                shown[i].Real? && shown[j].Real? && shown[i].v <= shown[j].v <= Target(p.end).v
    ensures Target(p.end).Real? && maxTicks >= TickBound(p) ==>
              !final.running && final.count == Target(p.end) && |shown| <= TickBound(p)
    ensures Target(p.end).NaN? ==> final.running && forall i :: 0 <= i < |shown| ==> shown[i].NaN?
  {
    var c := Started;
    shown := [];
    while c.running && |shown| < maxTicks
      invariant |shown| <= maxTicks
      invariant c == Ticks(p, Started, |shown|)
      invariant forall i :: 0 <= i < |shown| ==> shown[i] == Ticks(p, Started, i + 1).count
      invariant c.isVisible
      invariant Target(p.end).Real? ==> |shown| <= TickBound(p)
      invariant Target(p.end).Real? && c.running ==> |shown| < TickBound(p)
      invariant Target(p.end).NaN? ==> c.running && forall i :: 0 <= i < |shown| ==> shown[i].NaN?
      decreases maxTicks - |shown|
    {
      if Target(p.end).Real? {
        FinishesWithinBound(p);
      } else {
        NoDigitsNeverStops(p, |shown| + 1);
      }
      assert Tick(p, c) == Ticks(p, Started, |shown| + 1);
      c := Tick(p, c);
      shown := shown + [c.count];
    }
    final := c;
    if Target(p.end).Real? {
      TicksInv(p, |shown|);
      forall i, j | 0 <= i <= j < |shown|
        ensures shown[i].Real? && shown[j].Real? && shown[i].v <= shown[j].v <= Target(p.end).v
      {
        TicksMonotone(p, i + 1, j + 1);
        TicksInv(p, j + 1);
      }
    }
  }
}
