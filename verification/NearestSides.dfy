/** The comparisons and the two sides of the search for the nearest value, for every direction. */
module NearestSides {
  import opened Arith
  import opened Intervals
  import opened IntervalEnds
  import opened HwParams
  import opened Negotiation
  import opened HwMeaning
  import opened Nearest

  /** -1, 0 or 1. */
  function Direction(d: int): int { if d < 0 then -1 else if d > 0 then 1 else 0 }

  /** A bound with a direction lies half a step beside its number. */
  function HalfSteps(a: int, dir: int): int { 2 * a + Direction(dir) }

  /** The order of bounds is that of their half steps. */
  lemma {:induction false} OrderOfBounds(a: Word, adir: int, b: Word, bdir: int)
    requires (adir < 0 ==> a > 0) && (bdir < 0 ==> b > 0)
    ensures BoundaryLt(a, adir, b, bdir) <==> HalfSteps(a, adir) < HalfSteps(b, bdir)
  {
  }

  /** The distance taken between two bounds, in half steps: three, and not two, for opposite directions. */
  function Distance(a: int, adir: int, b: int, bdir: int): int {
    var d := Direction(adir) - Direction(bdir);
    2 * (a - b) + (if d == 2 then 3 else if d == -2 then -3 else d)
  }

  lemma {:induction false} DifferenceIs(a: int, adir: int, b: int, bdir: int)
    requires -INT_MAX < a - b < INT_MAX
    ensures var (c, cdir) := BoundarySub(a, adir, b, bdir);
            HalfSteps(c, cdir) == Distance(a, adir, b, bdir) && cdir == Direction(adir) - Direction(bdir)
  {
  }

  /** The lower value counts as nearer exactly when its distance is less. */
  lemma {:induction false} NearerIs(low: Word, lowdir: int, best: Word, bestdir: int, high: Word, highdir: int)
    requires low <= best <= INT_MAX && best <= high && high - best < INT_MAX && high <= INT_MAX
    requires Distance(best, bestdir, low, lowdir) >= 0 && Distance(high, highdir, best, bestdir) >= 0
    ensures BoundaryNearer(low, lowdir, best, bestdir, high, highdir)
       <==> Distance(best, bestdir, low, lowdir) < Distance(high, highdir, best, bestdir)
  {
    if best - low < INT_MAX {
      DifferenceIs(best, bestdir, low, lowdir);
      DifferenceIs(high, highdir, best, bestdir);
      var (c, cdir) := BoundarySub(best, bestdir, low, lowdir);
      var (d, ddir) := BoundarySub(high, highdir, best, bestdir);
      hide BoundarySub;
      OrderOfBounds(ToUInt(c), cdir, ToUInt(d), ddir);
    }
  }

  /** When nothing lies on the upper side, the lower side is all the rest: of an integer variable
      exactly the values that do not meet the request. A kernel that changes nothing shows it. */
  lemma {:induction false} LowerIsTheRest(kernel: Kernel, p: Params, v: nat, best: Word, dir: int, up: Reply, n: int)
    requires FIRST_INTERVAL <= v <= LAST_INTERVAL && forall q :: kernel(q) == (0, q)
    requires IntervalOf(p, v).Closed() && IntervalOf(p, v).integer && 0 < best <= INT_MAX && up.err < 0
    ensures var side, x, i := ChooseSide(kernel, p, v, best, dir, up), n as real, IntervalOf(p, v);
            && !side.Upper?
            && (side.Lower? ==> (IntervalOf(side.p, v).Contains(x) <==> i.Contains(x) && !AtLeast(x, best, dir)))
            && (side.Neither? ==> side.p == p && (i.Contains(x) ==> AtLeast(x, best, dir)))
  {
    var maxdir := if dir > 0 then 0 else if dir == 0 then -1 else 1;
    var max: Word := if dir < 0 then best - 1 else best;
    var x := n as real;
    MaxKeeps(p, v, max, maxdir, 0, x);
    KernelAsked(kernel, LocalMax(p, v, max, maxdir).p, v, LocalMax(p, v, max, maxdir).err);
    WholeSides(n, best, dir);
    EmptyHasNone(LocalMax(p, v, max, maxdir).p.intervals[v - 8], x);
    hide LocalMax, Update, AtLeast, AtMost;
  }

  /** For whole numbers one request is the complement of the other. */
  lemma {:induction false} WholeSides(n: int, best: int, dir: int)
    requires best > 0
    ensures AtLeast(n as real, best, dir)
       <==> !AtMost(n as real, if dir < 0 then best - 1 else best, if dir > 0 then 0 else if dir == 0 then -1 else 1)
  {
    if dir < 0 {
      RealOrder(best - 1, n);
      RealOrder(n, best);
      assert (best - 1 + 1) as real == best as real;
    }
  }

  lemma {:induction false} EmptyHasNone(j: Interval, x: real)
    ensures j.BoundsEmpty() ==> !j.Contains(x)
  {
  }
}
