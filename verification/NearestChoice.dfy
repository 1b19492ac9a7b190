/** The nearest-value search against a kernel that knows which values one integer variable may
    have: it reports the hull of the allowed values inside the interval it is given. */
module NearestChoice {
  import opened Arith
  import opened Intervals
  import opened HwParams
  import opened Nearest

  ghost predicate IntegerRange(i: Interval) { i.Closed() && i.integer }

  ghost predicate Inside(allowed: set<Word>, lo: int, hi: int) {
    exists a :: a in allowed && lo <= a <= hi
  }

  /** j runs from the least to the greatest allowed value between lo and hi. */
  ghost predicate IsHull(j: Interval, allowed: set<Word>, lo: int, hi: int) {
    && IntegerRange(j)
    && j.min in allowed && lo <= j.min
    && j.max in allowed && j.max <= hi
    && forall a :: a in allowed && lo <= a <= hi ==> j.min <= a <= j.max
  }

  /** What the kernel does to variable v; of the other variables nothing is assumed. */
  ghost predicate HullKernel(kernel: Kernel, v: nat, allowed: set<Word>)
    requires FIRST_INTERVAL <= v <= LAST_INTERVAL
  {
    forall p: Params {:trigger kernel(p)} :: IntegerRange(IntervalOf(p, v)) ==>
      Hulled(kernel(p), IntervalOf(p, v), v, allowed)
  }

  ghost predicate Hulled(answer: (int, Params), i: Interval, v: nat, allowed: set<Word>)
    requires FIRST_INTERVAL <= v <= LAST_INTERVAL
  {
    if Inside(allowed, i.min, i.max)
    then answer.0 >= 0 && answer.1.rmask == {} && IsHull(IntervalOf(answer.1, v), allowed, i.min, i.max)
    else answer.0 < 0
  }

  /** Some allowed value is left, and the kernel has refined the variable or is about to. */
  ghost predicate Start(p: Params, v: nat, allowed: set<Word>)
    requires FIRST_INTERVAL <= v <= LAST_INTERVAL
  {
    var i := IntervalOf(p, v);
    && IntegerRange(i)
    && Inside(allowed, i.min, i.max)
    && (p.rmask != {} || IsHull(i, allowed, i.min, i.max))
  }

  /** One refinement of variable v to the range lo..hi, then the kernel if asked. */
  lemma {:induction false} HullStep(kernel: Kernel, p: Params, v: nat, allowed: set<Word>, local: Outcome)
    requires FIRST_INTERVAL <= v <= LAST_INTERVAL && HullKernel(kernel, v, allowed)
    requires IntegerRange(IntervalOf(local.p, v)) && local.err >= 0
    requires local.p == WithInterval(p, v, IntervalOf(local.p, v))
    requires local.err == 0 ==> local.p == p
    requires local.err == 0 && p.rmask == {} ==>
      IsHull(IntervalOf(p, v), allowed, IntervalOf(p, v).min, IntervalOf(p, v).max)
    ensures var u, i := Step(kernel, local, v), IntervalOf(local.p, v);
            if Inside(allowed, i.min, i.max)
            then u.err == 0 && u.p.rmask == {} && IsHull(IntervalOf(u.p, v), allowed, i.min, i.max)
            else u.err < 0
  {
    var p1 := Marked(local.p, v, local.err);
    assert IntervalOf(p1, v) == IntervalOf(local.p, v);
    if p1.rmask != {} {
      assert Hulled(kernel(p1), IntervalOf(p1, v), v, allowed);
    } else {
      assert local.p == p && IntervalOf(p, v).min in allowed;
    }
  }

  lemma {:induction false} UpStep(kernel: Kernel, p: Params, v: nat, allowed: set<Word>, best: Word)
    requires FIRST_INTERVAL <= v <= LAST_INTERVAL && HullKernel(kernel, v, allowed) && Start(p, v, allowed)
    ensures var up, i := SetMin(kernel, p, v, best, 0), IntervalOf(p, v);
            if Inside(allowed, Max(i.min, best), i.max)
            then up.err == 0 && up.p.rmask == {} && IsHull(IntervalOf(up.p, v), allowed, Max(i.min, best), i.max) &&
              up.val == IntervalOf(up.p, v).min && up.dir == 0
            else up.err < 0 && up.p == p
  {
    var i := IntervalOf(p, v);
    var local := LocalMin(p, v, best, 0);
    if best <= i.max {
      assert IntervalOf(local.p, v) == i.(min := Max(i.min, best));
      assert local.err == if i.min < best then 1 else 0;
      HullStep(kernel, p, v, allowed, local);
    }
  }

  lemma {:induction false} DownStep(kernel: Kernel, p: Params, v: nat, allowed: set<Word>, best: Word)
    requires FIRST_INTERVAL <= v <= LAST_INTERVAL && HullKernel(kernel, v, allowed) && Start(p, v, allowed)
    requires best > 0
    ensures var down, i := SetMax(kernel, p, v, best, -1), IntervalOf(p, v);
            if Inside(allowed, i.min, Min(i.max, best - 1))
            then down.err == 0 && down.p.rmask == {} &&
              IsHull(IntervalOf(down.p, v), allowed, i.min, Min(i.max, best - 1)) &&
              down.val == IntervalOf(down.p, v).max && down.dir == 0
            else down.err < 0 && down.p == p
  {
    var i := IntervalOf(p, v);
    var local := LocalMax(p, v, best, -1);
    if i.min < best {
      assert IntervalOf(local.p, v) == i.(max := Min(i.max, best - 1));
      assert local.err == if best <= i.max then 1 else 0;
      HullStep(kernel, p, v, allowed, local);
    }
  }

  /** An end of a hull is allowed, so the kernel keeps it and nothing else. */
  ghost predicate Settled(r: Reply, v: nat, value: int)
    requires FIRST_INTERVAL <= v <= LAST_INTERVAL
  {
    r.err == 0 && r.val == value && r.dir == 0 &&
    var i := IntervalOf(r.p, v);
    IntegerRange(i) && i.min == i.max == value
  }

  lemma {:induction false} EndStep(kernel: Kernel, p: Params, v: nat, allowed: set<Word>, lo: int, hi: int,
                                   target: nat, dir: int)
    requires FIRST_INTERVAL <= v <= LAST_INTERVAL && HullKernel(kernel, v, allowed)
    requires p.rmask == {} && IsHull(IntervalOf(p, v), allowed, lo, hi)
    ensures Settled(SetFirst(kernel, p, v, target, dir), v, IntervalOf(p, v).min)
    ensures Settled(SetLast(kernel, p, v, target, dir), v, IntervalOf(p, v).max)
  {
    var i := IntervalOf(p, v);
    if i.min != i.max {
      OneEnd(kernel, p, v, allowed, LocalFirst(p, v), i.min);
      OneEnd(kernel, p, v, allowed, LocalLast(p, v), i.max);
    }
  }

  lemma {:induction false} OneEnd(kernel: Kernel, p: Params, v: nat, allowed: set<Word>, local: Outcome, value: Word)
    requires FIRST_INTERVAL <= v <= LAST_INTERVAL && HullKernel(kernel, v, allowed) && value in allowed
    requires local.err == 1 && local.p == WithInterval(p, v, IntervalOf(p, v).(min := value, max := value))
    requires IntegerRange(IntervalOf(p, v))
    ensures var u := Step(kernel, local, v);
            u.err == 0 && IntegerRange(IntervalOf(u.p, v)) && IntervalOf(u.p, v).min == IntervalOf(u.p, v).max == value
  {
    HullStep(kernel, p, v, allowed, local);
    assert Inside(allowed, value, value);
  }

  /** The comparison in wrapped arithmetic is the comparison of the true distances. */
  lemma {:induction false} NearerIsCloser(low: Word, best: Word, high: Word)
    requires low < best <= high && best <= INT_MAX
    ensures BoundaryNearer(low, 0, best, 0, high, 0) <==> best - low < high - best
  {
    ToUIntOfInt(high - best, ToInt(high) - best);
  }

  lemma {:induction false} ToUIntOfInt(d: int, w: int)
    requires 0 <= d <= UINT_MAX && (w == d || w == d - UINT_RANGE)
    ensures ToUInt(ToInt(w)) == d
  {
  }

  /** What the search ends on. */
  ghost predicate NearestValue(r: int, allowed: set<Word>, i: Interval, best: int) {
    Closest(r, allowed, i, best, SingleAbove(allowed, i, best))
  }

  ghost predicate InRange(a: int, allowed: set<Word>, i: Interval) {
    0 <= a <= UINT_MAX && a in allowed && i.min <= a <= i.max
  }

  ghost predicate Closest(r: int, allowed: set<Word>, i: Interval, best: int, loneAbove: bool) {
    && InRange(r, allowed, i)
    // no allowed value lies strictly between it and the target
    && (forall a :: InRange(a, allowed, i) && best <= a && best <= r ==> r <= a)
    && (forall a :: InRange(a, allowed, i) && a < best && r < best ==> a <= r)
    // a lone allowed value from the target up is taken whatever lies below
    && (loneAbove ==> r >= best)
    // otherwise the nearer side, and the upper one on a tie
    && (!loneAbove && r >= best ==> forall a :: InRange(a, allowed, i) && a < best ==> r - best <= best - a)
    && (r < best ==> forall a :: InRange(a, allowed, i) && best <= a ==> best - r < a - best)
  }

  ghost predicate SingleAbove(allowed: set<Word>, i: Interval, best: int) {
    exists a :: InRange(a, allowed, i) && best <= a && forall b :: InRange(b, allowed, i) && best <= b ==> b == a
  }

  /** Which of the two hull ends the search ends on. */
  lemma {:induction false} NearSettles(kernel: Kernel, p: Params, v: nat, allowed: set<Word>, target: Word)
    requires FIRST_INTERVAL <= v <= LAST_INTERVAL && HullKernel(kernel, v, allowed) && Start(p, v, allowed)
    requires target > 0
    ensures var best := Min(target, INT_MAX);
            var up, down := SetMin(kernel, p, v, best, 0), SetMax(kernel, p, v, best, -1);
            var low, high := IntervalOf(down.p, v).max, IntervalOf(up.p, v).min;
            var takeLow := up.err < 0 || (high != IntervalOf(up.p, v).max && down.err >= 0 && best - low < high - best);
            && (up.err < 0 ==> down.err >= 0)
            && Settled(SetNear(kernel, p, v, target, 0), v, if takeLow then low else high)
  {
    var best: Word := Min(target, INT_MAX);
    var i := IntervalOf(p, v);
    var up, down := SetMin(kernel, p, v, best, 0), SetMax(kernel, p, v, best, -1);
    UpStep(kernel, p, v, allowed, best);
    DownStep(kernel, p, v, allowed, best);
    if up.err >= 0 {
      UpperSide(kernel, p, v, allowed, target, best, up, down);
    } else {
      var a :| a in allowed && i.min <= a <= i.max;
      assert a < best;
      if !i.IsSingle() {
        EndStep(kernel, down.p, v, allowed, i.min, Min(i.max, best - 1), target, 0);
      }
    }
  }

  lemma {:induction false} SideTaken(kernel: Kernel, p: Params, v: nat, best: Word, up: Reply, down: Reply)
    requires FIRST_INTERVAL <= v <= LAST_INTERVAL && 0 < best <= INT_MAX
    requires down == SetMax(kernel, p, v, best, -1) && up.err == 0 && best <= up.val <= UINT_MAX && up.dir == 0
    requires down.err >= 0 ==> down.val < best && down.dir == 0
    ensures ChooseSide(kernel, p, v, best, 0, up)
         == if down.err >= 0 && best - down.val < up.val - best then Lower(down.p) else Upper(up.p)
  {
    if down.err >= 0 {
      NearerIsCloser(down.val, best, up.val);
    }
  }

  lemma {:induction false} UpperSide(kernel: Kernel, p: Params, v: nat, allowed: set<Word>, target: Word, best: Word,
                                     up: Reply, down: Reply)
    requires FIRST_INTERVAL <= v <= LAST_INTERVAL && HullKernel(kernel, v, allowed) && best == Min(target, INT_MAX) > 0
    requires up == SetMin(kernel, p, v, best, 0) && down == SetMax(kernel, p, v, best, -1)
    requires var i, j := IntervalOf(p, v), IntervalOf(up.p, v);
      up.err == 0 && up.p.rmask == {} && up.val == j.min && up.dir == 0 && IsHull(j, allowed, Max(i.min, best), i.max)
    requires var i, k := IntervalOf(p, v), IntervalOf(down.p, v);
      down.err >= 0 ==>
        down.p.rmask == {} && down.val == k.max && down.dir == 0 && IsHull(k, allowed, i.min, Min(i.max, best - 1))
    ensures var low, high := IntervalOf(down.p, v).max, IntervalOf(up.p, v).min;
            var takeLow := high != IntervalOf(up.p, v).max && down.err >= 0 && best - low < high - best;
            Settled(SetNear(kernel, p, v, target, 0), v, if takeLow then low else high)
  {
    hide SetMin, SetMax, SetFirst, SetLast, ChooseSide;
    var i, j := IntervalOf(p, v), IntervalOf(up.p, v);
    AboveFacts(j, allowed, i, best);
    SideTaken(kernel, p, v, best, up, down);
    EndStep(kernel, up.p, v, allowed, Max(i.min, best), i.max, target, 0);
    if down.err >= 0 {
      EndStep(kernel, down.p, v, allowed, i.min, Min(i.max, best - 1), target, 0);
    }
  }

  /** From an integer variable with an allowed value left, the search for a target from 1 up
      succeeds, leaves that variable at one value, and that is the nearest allowed one, ties
      upward; a lone allowed value at or above the target is taken first. Targets above INT_MAX
      count as INT_MAX; allowed values may be any 32-bit numbers. */
  lemma {:induction false} NearChoosesNearest(kernel: Kernel, p: Params, v: nat, allowed: set<Word>, target: Word)
    requires FIRST_INTERVAL <= v <= LAST_INTERVAL && HullKernel(kernel, v, allowed) && Start(p, v, allowed)
    requires target > 0
    ensures var r := SetNear(kernel, p, v, target, 0);
            && NearestValue(r.val, allowed, IntervalOf(p, v), Min(target, INT_MAX))
            && Settled(r, v, r.val)
  {
    var best: Word := Min(target, INT_MAX);
    var i := IntervalOf(p, v);
    var up, down := SetMin(kernel, p, v, best, 0), SetMax(kernel, p, v, best, -1);
    UpStep(kernel, p, v, allowed, best);
    DownStep(kernel, p, v, allowed, best);
    NearSettles(kernel, p, v, allowed, target);
    if up.err >= 0 {
      AboveFacts(IntervalOf(up.p, v), allowed, i, best);
    }
    HullEndsNearest(IntervalOf(up.p, v), up.err >= 0, IntervalOf(down.p, v), down.err >= 0, allowed, i, best);
  }

  /** The hulls hold the allowed values of their sides. */
  ghost predicate Sides(j: Interval, above: bool, k: Interval, below: bool, allowed: set<Word>, i: Interval,
                        best: Word) {
    && (above ==> IsHull(j, allowed, Max(i.min, best), i.max))
    && (!above ==> !Inside(allowed, Max(i.min, best), i.max))
    && (below ==> IsHull(k, allowed, i.min, Min(i.max, best - 1)))
    && (!below ==> !Inside(allowed, i.min, Min(i.max, best - 1)))
  }

  lemma {:induction false} SideOf(j: Interval, above: bool, k: Interval, below: bool, allowed: set<Word>, i: Interval,
                                  best: Word, a: Word)
    requires Sides(j, above, k, below, allowed, i, best) && a in allowed && i.min <= a <= i.max
    ensures best <= a ==> above && j.min <= a <= j.max
    ensures a < best ==> below && k.min <= a <= k.max
  {
    assert best <= a ==> Inside(allowed, Max(i.min, best), i.max);
    assert a < best ==> Inside(allowed, i.min, Min(i.max, best - 1));
  }

  lemma {:induction false} UpperNearest(j: Interval, k: Interval, below: bool, allowed: set<Word>, i: Interval,
                                        best: Word)
    requires Sides(j, true, k, below, allowed, i, best)
    requires j.min == j.max || !below || best - k.max >= j.min - best
    ensures Closest(j.min, allowed, i, best, j.min == j.max)
  {
    forall a | InRange(a, allowed, i)
      ensures best <= a ==> j.min <= a
      ensures a < best ==> below && a <= k.max
    {
      SideOf(j, true, k, below, allowed, i, best, a);
    }
  }

  lemma {:induction false} LowerNearest(j: Interval, above: bool, k: Interval, allowed: set<Word>, i: Interval,
                                        best: Word)
    requires best > 0 && Sides(j, above, k, true, allowed, i, best)
    requires above ==> j.min != j.max && best - k.max < j.min - best
    ensures Closest(k.max, allowed, i, best, false)
  {
    forall a | InRange(a, allowed, i)
      ensures best <= a ==> above && j.min <= a
      ensures a < best ==> a <= k.max
    {
      SideOf(j, above, k, true, allowed, i, best, a);
    }
  }

  /** The side chosen by comparing the two ends is the nearest value. */
  lemma {:induction false} HullEndsNearest(j: Interval, above: bool, k: Interval, below: bool, allowed: set<Word>,
                                           i: Interval, best: Word)
    requires best > 0 && (above || below) && Sides(j, above, k, below, allowed, i, best)
    ensures NearestValue(if !above || (j.min != j.max && below && best - k.max < j.min - best) then k.max else j.min,
                         allowed, i, best)
  {
    if above {
      AboveFacts(j, allowed, i, best);
    } else if SingleAbove(allowed, i, best) {
      var a :| InRange(a, allowed, i) && best <= a;
      SideOf(j, above, k, below, allowed, i, best, a);
    }
    if !above || (j.min != j.max && below && best - k.max < j.min - best) {
      LowerNearest(j, above, k, allowed, i, best);
    } else {
      UpperNearest(j, k, below, allowed, i, best);
    }
  }

  lemma {:induction false} AboveFacts(j: Interval, allowed: set<Word>, i: Interval, best: Word)
    requires IsHull(j, allowed, Max(i.min, best), i.max)
    ensures SingleAbove(allowed, i, best) <==> j.min == j.max
    ensures j.IsSingle() <==> j.min == j.max
  {
    if j.min == j.max {
      assert InRange(j.min, allowed, i);
    } else {
      assert InRange(j.min, allowed, i) && InRange(j.max, allowed, i);
    }
  }

  // ---------------------------------------------------------------- target 0

  /** Below 0 there is nothing, but the bound wraps round: the "lower" side becomes everything the
      kernel allows from the interval's low end up, inside the interval or not. */
  lemma {:induction false} WrappedDown(kernel: Kernel, p: Params, v: nat, allowed: set<Word>)
    requires FIRST_INTERVAL <= v <= LAST_INTERVAL && HullKernel(kernel, v, allowed) && Start(p, v, allowed)
    requires IntervalOf(p, v).max > 0
    ensures var down := SetMax(kernel, p, v, 0, -1);
            down.err == 0 && down.p.rmask == {} &&
            IsHull(IntervalOf(down.p, v), allowed, IntervalOf(p, v).min, UINT_MAX) &&
            down.val == IntervalOf(down.p, v).max && down.dir == 0
  {
    var i := IntervalOf(p, v);
    var local := LocalMax(p, v, 0, -1);
    assert IntervalOf(local.p, v) == i.(max := UINT_MAX) && local.err == 1;
    assert Inside(allowed, i.min, UINT_MAX) by {
      var a :| a in allowed && i.min <= a <= i.max;
    }
    HullStep(kernel, p, v, allowed, local);
  }

  lemma {:induction false} ZeroDistance(low: Word, high: Word)
    requires 0 < low && 0 < high
    ensures BoundaryNearer(low, 0, 0, 0, high, 0) <==> UINT_RANGE - low < high
  {
    ToUIntOfInt(UINT_RANGE - low, 0 - ToInt(low));
    ToUIntOfInt(high, ToInt(high) - 0);
  }

  lemma {:induction false} SideAtZero(kernel: Kernel, p: Params, v: nat, up: Reply, down: Reply)
    requires FIRST_INTERVAL <= v <= LAST_INTERVAL
    requires down == SetMax(kernel, p, v, 0, -1) && up.err == 0 && up.val <= UINT_MAX && up.dir == 0
    requires down.err == 0 && 0 < down.val <= UINT_MAX && down.dir == 0
    ensures ChooseSide(kernel, p, v, 0, 0, up)
         == if up.val > 0 && UINT_RANGE - down.val < up.val then Lower(down.p) else Upper(up.p)
  {
    if up.val > 0 {
      ZeroDistance(down.val, up.val);
    }
  }

  /** For target 0 the search ends, decided, on the least allowed value, which is the nearest,
      exactly when that is the only one in the interval or its sum with the greatest value that the
      kernel allows from the low end up does not exceed 2^32; otherwise it ends on that greatest. */
  lemma {:induction false} NearAtZero(kernel: Kernel, p: Params, v: nat, allowed: set<Word>, j: Interval,
                                      greatest: Word)
    requires FIRST_INTERVAL <= v <= LAST_INTERVAL && HullKernel(kernel, v, allowed) && Start(p, v, allowed)
    requires IsHull(j, allowed, IntervalOf(p, v).min, IntervalOf(p, v).max)
    requires greatest in allowed && forall a :: a in allowed && IntervalOf(p, v).min <= a ==> a <= greatest
    ensures var r, near := SetNear(kernel, p, v, 0, 0), j.min == j.max || j.min + greatest <= UINT_RANGE;
            r.val == (if near then j.min else greatest) && (near <==> r.val == j.min) && Settled(r, v, r.val)
  {
    hide SetMin, SetMax, SetFirst, SetLast, ChooseSide;
    var i := IntervalOf(p, v);
    var up := SetMin(kernel, p, v, 0, 0);
    UpStep(kernel, p, v, allowed, 0);
    SameHull(IntervalOf(up.p, v), j, allowed, i.min, i.max);
    if j.min != j.max {
      WrappedDown(kernel, p, v, allowed);
      var down := SetMax(kernel, p, v, 0, -1);
      assert IntervalOf(down.p, v).max == greatest;
      SideAtZero(kernel, p, v, up, down);
      if j.min > 0 && UINT_RANGE - greatest < j.min {
        EndStep(kernel, down.p, v, allowed, i.min, UINT_MAX, 0, 0);
      } else {
        EndStep(kernel, up.p, v, allowed, i.min, i.max, 0, 0);
      }
    }
  }

  lemma {:induction false} SameHull(j: Interval, k: Interval, allowed: set<Word>, lo: int, hi: int)
    requires IsHull(j, allowed, lo, hi) && IsHull(k, allowed, lo, hi)
    ensures j.min == k.min && j.max == k.max
  {
  }

  // ---------------------------------------------------------------- such kernels exist

  ghost function LeastOf(s: set<Word>): (n: Word)
    requires s != {}
    ensures n in s && forall a :: a in s ==> n <= a
  {
    var x :| x in s;
    if s == {x} then x
    else
      var m := LeastOf(s - {x});
      assert forall a :: a in s ==> a == x || a in s - {x};
      if x < m then x else m
  }

  ghost function GreatestOf(s: set<Word>): (n: Word)
    requires s != {}
    ensures n in s && forall a :: a in s ==> a <= n
  {
    var x :| x in s;
    if s == {x} then x
    else
      var m := GreatestOf(s - {x});
      assert forall a :: a in s ==> a == x || a in s - {x};
      if x > m then x else m
  }

  /** The hull of the allowed values in an integer variable's interval, if there are any. */
  ghost function HullAnswer(p: Params, v: nat, allowed: set<Word>): (int, Params)
    requires FIRST_INTERVAL <= v <= LAST_INTERVAL
  {
    var i := IntervalOf(p, v);
    var inside := set a | a in allowed && i.min <= a <= i.max;
    if inside == {} then (-EINVAL, p)
    else
      var j := Interval(LeastOf(inside), GreatestOf(inside), false, false, true, false);
      (0, WithInterval(p, v, j).(rmask := {}))
  }

  lemma {:induction false} HullAnswerIsHull(p: Params, v: nat, allowed: set<Word>)
    requires FIRST_INTERVAL <= v <= LAST_INTERVAL && IntegerRange(IntervalOf(p, v))
    ensures Hulled(HullAnswer(p, v, allowed), IntervalOf(p, v), v, allowed)
  {
    var i := IntervalOf(p, v);
    var inside := set a | a in allowed && i.min <= a <= i.max;
    if Inside(allowed, i.min, i.max) {
      var x :| x in allowed && i.min <= x <= i.max;
      assert x in inside;
      forall a | a in allowed && i.min <= a <= i.max
        ensures LeastOf(inside) <= a <= GreatestOf(inside)
      {
        assert a in inside;
      }
    }
  }

  /** For any allowed values there is a kernel as assumed here. */
  lemma {:induction false} HullKernelExists(v: nat, allowed: set<Word>) returns (kernel: Kernel)
    requires FIRST_INTERVAL <= v <= LAST_INTERVAL
    ensures HullKernel(kernel, v, allowed)
  {
    kernel := p => HullAnswer(p, v, allowed);
    forall p: Params {:trigger kernel(p)} | IntegerRange(IntervalOf(p, v))
      ensures Hulled(kernel(p), IntervalOf(p, v), v, allowed)
    {
      HullAnswerIsHull(p, v, allowed);
    }
  }

  /** Target 0 with 3000000000 and 4000000000 allowed ends on the farther one. */
  lemma {:induction false} NearAtZeroFails(v: nat) returns (kernel: Kernel, p: Params)
    requires FIRST_INTERVAL <= v <= LAST_INTERVAL
    ensures HullKernel(kernel, v, {3_000_000_000, 4_000_000_000}) && Start(p, v, {3_000_000_000, 4_000_000_000})
    ensures SetNear(kernel, p, v, 0, 0).val == 4_000_000_000
  {
    var allowed: set<Word> := {3_000_000_000, 4_000_000_000};
    kernel := HullKernelExists(v, allowed);
    var i := Interval(3_000_000_000, 4_000_000_000, false, false, true, false);
    p := Fields([{}, {}, {}], seq(12, _ => i), {}, {}, []);
    assert IsHull(i, allowed, i.min, i.max);
    NearAtZero(kernel, p, v, allowed, i, 4_000_000_000);
  }
}
