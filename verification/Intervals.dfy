/** Integer intervals with open or closed ends, read as sets of real numbers. */
module Intervals {
  import opened Arith

  /** The C structure; `empty` is its cached emptiness flag. */
  datatype Interval = Interval(min: Word, max: Word, openmin: bool, openmax: bool, integer: bool, empty: bool) {

    /** The real numbers the interval stands for. */
    ghost predicate Contains(x: real) {
      && (if openmin then min as real < x else min as real <= x)
      && (if openmax then x < max as real else x <= max as real)
      && (integer ==> x == x.Floor as real)
    }

    predicate BoundsEmpty() { min > max || (min == max && (openmin || openmax)) }

    /** As every refinement leaves it: not empty, and an integer interval is closed. */
    predicate Closed() { !empty && !BoundsEmpty() && (integer ==> !openmin && !openmax) }

    predicate IsSingle() { min == max || (ToUInt(min + 1) == max && openmax) }
  }

  ghost predicate Subset(a: Interval, b: Interval) {
    forall x: real :: a.Contains(x) ==> b.Contains(x)
  }

  /** A result code and the interval left behind. */
  datatype Refined = Refined(ret: int, i: Interval)

  function CheckEmpty(i: Interval): (bool, Interval) {
    if i.BoundsEmpty() then (true, i.(empty := true)) else (false, i)
  }

  /** An integer interval's open lower end is moved to the next integer. */
  function CloseMin(i: Interval): Interval {
    if i.integer && i.openmin then i.(min := ToUInt(i.min + 1), openmin := false) else i
  }

  function CloseMax(i: Interval): Interval {
    if i.integer && i.openmax then i.(max := ToUInt(i.max - 1), openmax := false) else i
  }

  function RaiseMin(i: Interval, min: Word, openmin: bool): Interval {
    if i.min < min then i.(min := min, openmin := openmin)
    else if i.min == min && !i.openmin && openmin then i.(openmin := true)
    else i
  }

  function LowerMax(i: Interval, max: Word, openmax: bool): Interval {
    if i.max > max then i.(max := max, openmax := openmax)
    else if i.max == max && !i.openmax && openmax then i.(openmax := true)
    else i
  }

  function RefineMin(i: Interval, min: Word, openmin: bool, integer: bool): Refined {
    if i.empty then Refined(-ENOENT, i)
    else
      var i1 := RaiseMin(i, min, openmin);
      var i2 := if !i1.integer && integer then i1.(integer := true) else i1;
      var (isEmpty, i3) := CheckEmpty(CloseMin(i2));
      if isEmpty then Refined(-EINVAL, i3)
      else Refined(if i2 != i then 1 else 0, i3)
  }

  function RefineMax(i: Interval, max: Word, openmax: bool, integer: bool): Refined {
    if i.empty then Refined(-ENOENT, i)
    else
      var i1 := LowerMax(i, max, openmax);
      var i2 := if !i1.integer && integer then i1.(integer := true) else i1;
      var (isEmpty, i3) := CheckEmpty(CloseMax(i2));
      if isEmpty then Refined(-EINVAL, i3)
      else Refined(if i2 != i then 1 else 0, i3)
  }

  function Refine(i: Interval, v: Interval): Refined {
    var low := RefineMin(i, v.min, v.openmin, v.integer);
    if low.ret < 0 then low
    else
      var high := RefineMax(low.i, v.max, v.openmax, v.integer);
      if high.ret < 0 then high
      else
        var j := high.i;
        Refined(if low.ret == 1 || high.ret == 1 then 1 else 0,
                if !j.integer && !j.openmin && !j.openmax && j.min == j.max then j.(integer := true) else j)
  }

  function RefineFirst(i: Interval): Refined {
    if i.empty then Refined(-ENOENT, i)
    else if i.IsSingle() then Refined(0, i)
    else Refined(1, i.(max := if i.openmin then ToUInt(i.min + 1) else i.min, openmax := i.openmin))
  }

  function RefineLast(i: Interval): Refined {
    if i.empty then Refined(-ENOENT, i)
    else if i.IsSingle() then Refined(0, i)
    else Refined(1, i.(min := if i.openmax then ToUInt(i.max - 1) else i.max, openmin := i.openmax))
  }

  function RefineSet(i: Interval, val: Word): Refined {
    Refine(i, Interval(val, val, false, false, true, false))
  }

  // ---------------------------------------------------------------- real numbers

  lemma {:induction false} FloorOfInt(n: int)
    ensures (n as real).Floor == n
  {
  }

  /** Among integers, an open bound is the next closed one. */
  lemma {:induction false} IntegerBounds(m: int, n: int)
    ensures n as real < m as real <==> (n + 1) as real <= m as real
    ensures m as real < n as real <==> m as real <= (n - 1) as real
  {
    RealOrder(n, m);
    RealOrder(m, n);
    RealOrder(m, n + 1);
    RealOrder(n - 1, m);
  }

  lemma {:induction false} RealOrder(a: int, b: int)
    ensures a as real < b as real <==> a < b
  {
  }

  /** A closed interval has a member. */
  lemma {:induction false} Member(i: Interval) returns (x: real)
    requires i.Closed()
    ensures i.Contains(x)
  {
    x := if !i.openmin then i.min as real
         else if !i.openmax then i.max as real
         else (i.min as real + i.max as real) / 2.0;
  }

  /** Members close to either end. */
  lemma {:induction false} LowMember(i: Interval, bound: real) returns (x: real)
    requires i.Closed() && i.min as real < bound
    ensures i.Contains(x) && x < bound
  {
    if !i.openmin {
      x := i.min as real;
    } else {
      var cap := if bound < i.max as real then bound else i.max as real;
      x := (i.min as real + cap) / 2.0;
    }
  }

  lemma {:induction false} HighMember(i: Interval, bound: real) returns (x: real)
    requires i.Closed() && bound < i.max as real
    ensures i.Contains(x) && bound < x
  {
    if !i.openmax {
      x := i.max as real;
    } else {
      var cap := if i.min as real < bound then bound else i.min as real;
      x := (cap + i.max as real) / 2.0;
    }
  }

  // ---------------------------------------------------------------- exactness

  ghost predicate Above(x: real, min: Word, openmin: bool) { if openmin then min as real < x else min as real <= x }

  ghost predicate Below(x: real, max: Word, openmax: bool) { if openmax then x < max as real else x <= max as real }

  ghost predicate Whole(x: real) { x == x.Floor as real }

  lemma {:induction false} CloseMinExact(i: Interval, x: real)
    requires i.openmin ==> i.min < UINT_MAX
    ensures CloseMin(i).Contains(x) <==> i.Contains(x)
  {
    IntegerBounds(x.Floor, i.min);
  }

  lemma {:induction false} CloseMaxExact(i: Interval, x: real)
    requires i.openmax ==> i.max > 0
    ensures CloseMax(i).Contains(x) <==> i.Contains(x)
  {
    IntegerBounds(x.Floor, i.max);
  }

  lemma {:induction false} BoundsExact(i: Interval, bound: Word, isOpen: bool, x: real)
    ensures RaiseMin(i, bound, isOpen).Contains(x) <==> i.Contains(x) && Above(x, bound, isOpen)
    ensures LowerMax(i, bound, isOpen).Contains(x) <==> i.Contains(x) && Below(x, bound, isOpen)
  {
  }

  lemma {:induction false} WholeOnly(i: Interval, integer: bool, x: real)
    ensures (if !i.integer && integer then i.(integer := true) else i).Contains(x)
       <==> i.Contains(x) && (integer ==> Whole(x))
  {
  }

  /** RefineMin keeps exactly the members above the new bound. */
  lemma {:induction false} RefineMinExact(i: Interval, min: Word, openmin: bool, integer: bool, x: real)
    requires !i.empty && (openmin ==> min < UINT_MAX) && (i.openmin ==> i.min < UINT_MAX)
    ensures var r := RefineMin(i, min, openmin, integer);
            && (r.i.Contains(x) <==> i.Contains(x) && Above(x, min, openmin) && (integer ==> Whole(x)))
            && (r.ret == 0 ==> (i.Contains(x) ==> r.i.Contains(x)))
  {
    BoundsExact(i, min, openmin, x);
    var i1 := RaiseMin(i, min, openmin);
    var i2 := if !i1.integer && integer then i1.(integer := true) else i1;
    WholeOnly(i1, integer, x);
    CloseMinExact(i2, x);
    FlagIgnored(CloseMin(i2), x);
    hide RaiseMin, CloseMin, CheckEmpty, Above, Whole, Interval.Contains, Interval.BoundsEmpty;
  }

  /** The emptiness flag says nothing about the members. */
  lemma {:induction false} FlagIgnored(i: Interval, x: real)
    ensures CheckEmpty(i).1.Contains(x) <==> i.Contains(x)
  {
  }

  lemma {:induction false} RefineMaxExact(i: Interval, max: Word, openmax: bool, integer: bool, x: real)
    requires !i.empty && (openmax ==> max > 0) && (i.openmax ==> i.max > 0)
    ensures var r := RefineMax(i, max, openmax, integer);
            && (r.i.Contains(x) <==> i.Contains(x) && Below(x, max, openmax) && (integer ==> Whole(x)))
            && (r.ret == 0 ==> (i.Contains(x) ==> r.i.Contains(x)))
  {
    BoundsExact(i, max, openmax, x);
    var i1 := LowerMax(i, max, openmax);
    var i2 := if !i1.integer && integer then i1.(integer := true) else i1;
    WholeOnly(i1, integer, x);
    CloseMaxExact(i2, x);
    FlagIgnored(CloseMax(i2), x);
    hide LowerMax, CloseMax, CheckEmpty, Below, Whole, Interval.Contains, Interval.BoundsEmpty;
  }

  /** The result code and the shape of what is left. */
  lemma {:induction false} RefineMinShape(i: Interval, bound: Word, isOpen: bool, integer: bool)
    requires !i.empty
    ensures var r := RefineMin(i, bound, isOpen, integer);
            && (r.ret < 0 <==> r.i.BoundsEmpty()) && (r.i.empty <==> r.ret < 0)
            && (r.ret == 0 || r.ret == 1 || r.ret == -EINVAL)
            && (r.i.integer <==> i.integer || integer) && (r.i.integer ==> !r.i.openmin)
            && r.i.max == i.max && r.i.openmax == i.openmax
  {
  }

  lemma {:induction false} RefineMaxShape(i: Interval, bound: Word, isOpen: bool, integer: bool)
    requires !i.empty
    ensures var r := RefineMax(i, bound, isOpen, integer);
            && (r.ret < 0 <==> r.i.BoundsEmpty()) && (r.i.empty <==> r.ret < 0)
            && (r.ret == 0 || r.ret == 1 || r.ret == -EINVAL)
            && (r.i.integer <==> i.integer || integer) && (r.i.integer ==> !r.i.openmax)
            && r.i.min == i.min && r.i.openmin == i.openmin
  {
  }

  /** Refinement is intersection: it keeps exactly the common members. */
  lemma {:induction false} RefineIntersects(i: Interval, v: Interval, x: real)
    requires !i.empty && !i.BoundsEmpty() && !v.BoundsEmpty() && Refine(i, v).ret >= 0
    ensures var r := Refine(i, v);
            && (r.i.Contains(x) <==> i.Contains(x) && v.Contains(x))
            && (r.ret == 0 ==> (i.Contains(x) ==> v.Contains(x)))
            && r.i.Closed()
  {
    var low := RefineMin(i, v.min, v.openmin, v.integer);
    RefineMinShape(i, v.min, v.openmin, v.integer);
    RefineMinExact(i, v.min, v.openmin, v.integer, x);
    RefineMaxShape(low.i, v.max, v.openmax, v.integer);
    RefineMaxExact(low.i, v.max, v.openmax, v.integer, x);
    SinglePoint(RefineMax(low.i, v.max, v.openmax, v.integer).i, x);
  }

  /** Marking a closed single point as integer does not change it. */
  lemma {:induction false} SinglePoint(j: Interval, x: real)
    ensures !j.openmin && !j.openmax && j.min == j.max ==> (j.(integer := true).Contains(x) <==> j.Contains(x))
  {
    if x == j.min as real {
      FloorOfInt(j.min);
    }
  }

  /** Refinement fails exactly when there is no common member. */
  lemma {:induction false} RefineFailsOnDisjoint(i: Interval, v: Interval)
    requires !i.empty && !i.BoundsEmpty() && !v.BoundsEmpty()
    ensures Refine(i, v).ret < 0 <==> forall x: real :: i.Contains(x) ==> !v.Contains(x)
    ensures Refine(i, v).ret < 0 ==> Refine(i, v).i.empty
  {
    if Refine(i, v).ret >= 0 {
      RefineIntersects(i, v, 0.0);
      var x := Member(Refine(i, v).i);
      RefineIntersects(i, v, x);
    } else {
      RefineMinShape(i, v.min, v.openmin, v.integer);
      var low := RefineMin(i, v.min, v.openmin, v.integer);
      if low.ret >= 0 {
        RefineMaxShape(low.i, v.max, v.openmax, v.integer);
      }
      forall x: real | i.Contains(x)
        ensures !v.Contains(x)
      {
        RefineMinExact(i, v.min, v.openmin, v.integer, x);
        if low.ret >= 0 {
          RefineMaxExact(low.i, v.max, v.openmax, v.integer, x);
        }
      }
    }
  }

  /** The whole of it: from two operands with bounds in order, refinement leaves exactly the
      intersection, fails exactly when that is empty, and reports no change only when there is none. */
  lemma {:induction false} RefineExact(i: Interval, v: Interval)
    requires !i.empty && !i.BoundsEmpty() && !v.BoundsEmpty()
    ensures Refine(i, v).ret < 0 <==> forall x: real :: !(i.Contains(x) && v.Contains(x))
    ensures Refine(i, v).ret >= 0 ==>
      && Refine(i, v).i.Closed()
      && forall x: real :: Refine(i, v).i.Contains(x) <==> i.Contains(x) && v.Contains(x)
    ensures Refine(i, v).ret == 0 ==> Subset(i, Refine(i, v).i)
  {
    RefineFailsOnDisjoint(i, v);
    if Refine(i, v).ret >= 0 {
      forall x: real
        ensures Refine(i, v).i.Closed() && (Refine(i, v).i.Contains(x) <==> i.Contains(x) && v.Contains(x))
        ensures Refine(i, v).ret == 0 ==> (i.Contains(x) ==> v.Contains(x))
      {
        RefineIntersects(i, v, x);
      }
    }
  }

  /** Choosing an end of a closed interval keeps a nonempty part of it, a single one. */
  lemma {:induction false} EndsNarrow(i: Interval)
    requires i.Closed()
    ensures var r := RefineFirst(i);
            r.ret >= 0 && r.i.Closed() && r.i.IsSingle() && Subset(r.i, i) && (r.ret == 0 ==> r.i == i)
    ensures var r := RefineLast(i);
            r.ret >= 0 && r.i.Closed() && r.i.IsSingle() && Subset(r.i, i) && (r.ret == 0 ==> r.i == i)
  {
  }

  /** A nonempty part of a single interval is single. */
  lemma {:induction false} SinglePersists(i: Interval, j: Interval)
    requires i.Closed() && j.Closed() && Subset(j, i) && i.IsSingle()
    ensures j.IsSingle()
  {
    BoundsOfSubset(i, j);
    if j.max == i.max && i.openmax && !j.openmax && i.min != i.max {
      FloorOfInt(j.max);
      assert j.Contains(j.max as real);
    }
  }

  /** A nonempty part has its bounds inside. */
  lemma {:induction false} BoundsOfSubset(i: Interval, j: Interval)
    requires i.Closed() && j.Closed() && Subset(j, i)
    ensures i.min <= j.min && j.max <= i.max
  {
    if j.min < i.min {
      if j.integer {
        FloorOfInt(j.min);
        assert j.Contains(j.min as real);
      } else {
        var x := LowMember(j, i.min as real);
      }
    }
    if i.max < j.max {
      if j.integer {
        FloorOfInt(j.max);
        assert j.Contains(j.max as real);
      } else {
        var x := HighMember(j, i.max as real);
      }
    }
  }

  /** The two requests that nothing can meet: a value below 0, and one above the largest. They are
      refused only for an interval of real numbers; an integer bound wraps round instead. */
  lemma {:induction false} ImpossibleRequests(i: Interval, integer: bool)
    requires i.Closed()
    ensures RefineMax(i, 0, true, integer).ret < 0 <==> !i.integer && !integer
    ensures RefineMin(i, UINT_MAX, true, integer).ret < 0 <==> !i.integer && !integer
    ensures i.integer ==> RefineMax(i, 0, true, integer).i == i.(max := UINT_MAX)
  {
  }
}
