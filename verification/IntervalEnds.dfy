/** What the ends of an interval are, as sets of real numbers: what choosing one keeps and drops,
    what being single means, and which result codes tell of a change. */
module IntervalEnds {
  import opened Arith
  import opened Intervals

  /** Choosing the low end of an interval that is not single keeps its least member or, when it has
      none, the members of its first unit. */
  lemma {:induction false} FirstExact(i: Interval, x: real)
    requires i.Closed()
    ensures i.IsSingle() ==> RefineFirst(i) == Refined(0, i)
    ensures !i.IsSingle() ==> RefineFirst(i).ret == 1
    ensures !i.IsSingle() ==>
      (RefineFirst(i).i.Contains(x) <==>
         i.Contains(x) && if i.openmin then x < (i.min + 1) as real else x == i.min as real)
  {
    if i.openmin && !i.IsSingle() && i.max != i.min + 1 {
      RealOrder(i.min + 1, i.max);
    }
    FloorOfInt(i.min);
  }

  lemma {:induction false} LastExact(i: Interval, x: real)
    requires i.Closed()
    ensures i.IsSingle() ==> RefineLast(i) == Refined(0, i)
    ensures !i.IsSingle() ==> RefineLast(i).ret == 1
    ensures !i.IsSingle() ==>
      (RefineLast(i).i.Contains(x) <==>
         i.Contains(x) && if i.openmax then (i.max - 1) as real < x else x == i.max as real)
  {
    if i.openmax && !i.IsSingle() && i.max != i.min + 1 {
      RealOrder(i.min, i.max - 1);
    }
    FloorOfInt(i.max);
  }

  /** What is kept of an interval lies below what the low end drops, and above what the high end drops. */
  lemma {:induction false} KeptBelowDropped(i: Interval, x: real, y: real)
    requires i.Closed() && i.Contains(x) && i.Contains(y)
    ensures RefineFirst(i).i.Contains(x) && !RefineFirst(i).i.Contains(y) ==> x < y
    ensures RefineLast(i).i.Contains(x) && !RefineLast(i).i.Contains(y) ==> x > y
  {
    FirstExact(i, x);
    FirstExact(i, y);
    LastExact(i, x);
    LastExact(i, y);
    hide RefineFirst, RefineLast;
  }

  /** An interval is single exactly when all its members have one integer part. */
  lemma {:induction false} SingleMeaning(i: Interval)
    requires i.Closed()
    ensures i.IsSingle() <==> forall x: real, y: real :: i.Contains(x) && i.Contains(y) ==> x.Floor == y.Floor
  {
    if i.IsSingle() {
      forall x: real | i.Contains(x)
        ensures x.Floor == i.min
      {
        UnitFloor(i.min, x);
      }
    } else {
      var x, y := TwoUnits(i);
    }
  }

  lemma {:induction false} UnitFloor(n: int, x: real)
    requires n as real <= x < (n + 1) as real
    ensures x.Floor == n
  {
  }

  /** An interval that is not single has members with two integer parts. */
  lemma {:induction false} TwoUnits(i: Interval) returns (x: real, y: real)
    requires i.Closed() && !i.IsSingle()
    ensures i.Contains(x) && i.Contains(y) && x.Floor != y.Floor
  {
    FloorOfInt(i.min);
    FloorOfInt(i.max);
    x := if i.openmin then i.min as real + 0.5 else i.min as real;
    y := if i.openmax then i.max as real - 0.5 else i.max as real;
    UnitFloor(i.min, x);
    if i.openmax {
      UnitFloor(i.max - 1, y);
    }
  }

  /** A closed interval of integers is single exactly when it has one member. */
  lemma {:induction false} SingleInteger(i: Interval)
    requires i.Closed() && i.integer
    ensures i.IsSingle() <==> forall x: real, y: real :: i.Contains(x) && i.Contains(y) ==> x == y
  {
    FloorOfInt(i.min);
    FloorOfInt(i.max);
    assert i.Contains(i.min as real) && i.Contains(i.max as real);
  }

  // ---------------------------------------------------------------- at an end

  /** j lies at the low end of i: only members of the same unit are lower, and those only where i is
      single to begin with or has no least member. */
  ghost predicate AtLowEnd(j: Interval, i: Interval) {
    forall x: real, y: real :: j.Contains(x) && i.Contains(y) && y < x ==>
      y.Floor == x.Floor && (i.IsSingle() || i.openmin)
  }

  ghost predicate AtHighEnd(j: Interval, i: Interval) {
    forall x: real, y: real :: j.Contains(x) && i.Contains(y) && x < y ==>
      y.Floor == x.Floor && (i.IsSingle() || i.openmax)
  }

  lemma {:induction false} FirstIsLow(i: Interval, j: Interval)
    requires i.Closed() && Subset(j, RefineFirst(i).i)
    ensures AtLowEnd(j, i)
  {
    EndsNarrow(i);
    var r := RefineFirst(i).i;
    SingleMeaning(r);
    SingleMeaning(i);
    forall x: real, y: real | j.Contains(x) && i.Contains(y) && y < x
      ensures y.Floor == x.Floor && (i.IsSingle() || i.openmin)
    {
      FirstExact(i, x);
      FirstExact(i, y);
      KeptBelowDropped(i, x, y);
    }
    hide RefineFirst, Interval.Contains, Interval.IsSingle, Interval.Closed;
  }

  lemma {:induction false} LastIsHigh(i: Interval, j: Interval)
    requires i.Closed() && Subset(j, RefineLast(i).i)
    ensures AtHighEnd(j, i)
  {
    EndsNarrow(i);
    var r := RefineLast(i).i;
    SingleMeaning(r);
    SingleMeaning(i);
    forall x: real, y: real | j.Contains(x) && i.Contains(y) && x < y
      ensures y.Floor == x.Floor && (i.IsSingle() || i.openmax)
    {
      LastExact(i, x);
      LastExact(i, y);
      KeptBelowDropped(i, x, y);
    }
    hide RefineLast, Interval.Contains, Interval.IsSingle, Interval.Closed;
  }

  // ---------------------------------------------------------------- result codes

  /** Of a closed interval: a negative code when nothing is left, 0 when nothing changed, else 1. */
  ghost predicate TellsChange(r: Refined, i: Interval) {
    && (r.ret == -EINVAL <==> r.i.empty)
    && (r.ret == 0 <==> r.i == i)
    && (r.ret == 1 <==> !r.i.empty && r.i != i)
  }

  lemma {:induction false} MinTells(i: Interval, bound: Word, isOpen: bool, integer: bool)
    requires i.Closed() && (isOpen ==> bound < UINT_MAX)
    ensures TellsChange(RefineMin(i, bound, isOpen, integer), i)
  {
  }

  lemma {:induction false} MaxTells(i: Interval, bound: Word, isOpen: bool, integer: bool)
    requires i.Closed() && (isOpen ==> bound > 0)
    ensures TellsChange(RefineMax(i, bound, isOpen, integer), i)
  {
  }

  /** Of an intersection: 0 when no bound moved and no integer was newly asked for. That a single
      closed point is marked as integer does not count. */
  lemma {:induction false} IntersectTells(i: Interval, v: Interval)
    requires i.Closed() && !v.BoundsEmpty()
    ensures var r := Refine(i, v);
            && (r.ret == -EINVAL <==> r.i.empty) && (r.ret == -EINVAL || r.ret == 0 || r.ret == 1)
            && (r.ret == 0 <==> !r.i.empty && r.i.(integer := i.integer) == i && (v.integer ==> i.integer))
  {
    var low := RefineMin(i, v.min, v.openmin, v.integer);
    RefineMinShape(i, v.min, v.openmin, v.integer);
    MinTells(i, v.min, v.openmin, v.integer);
    if low.ret >= 0 {
      RefineMaxShape(low.i, v.max, v.openmax, v.integer);
      if low.ret == 0 {
        MaxTells(i, v.max, v.openmax, v.integer);
      }
    }
  }

  /** Nothing is done to an interval already marked empty. */
  lemma {:induction false} EmptyStays(i: Interval, v: Interval, bound: Word, isOpen: bool, integer: bool)
    requires i.empty
    ensures RefineMin(i, bound, isOpen, integer) == RefineMax(i, bound, isOpen, integer) == Refined(-2, i)
    ensures Refine(i, v) == RefineFirst(i) == RefineLast(i) == Refined(-2, i)
  {
  }
}
