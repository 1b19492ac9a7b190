/** The interval structure as the library holds it: fields changed one after the other. Each
    operation is proved against its value in `Intervals`, where it is shown what that means. */
module IntervalCell {
  import opened Arith
  import opened Intervals

  class Cell {
    var min: Word
    var max: Word
    var openmin: bool
    var openmax: bool
    var integer: bool
    var empty: bool

    function Value(): Interval
      reads this
    {
      Interval(min, max, openmin, openmax, integer, empty)
    }

    /** Full range: every number from 0 to UINT_MAX. */
    constructor Any()
      ensures Value() == Interval(0, UINT_MAX, false, false, false, false)
    {
      min, openmin, max, openmax, integer, empty := 0, false, UINT_MAX, false, false, false;
    }

    method CheckEmptiness() returns (ret: int)
      modifies this`empty
      ensures (ret != 0, Value()) == CheckEmpty(old(Value()))
    {
      if min > max || (min == max && (openmin || openmax)) {
        empty := true;
        return -1;
      }
      return 0;
    }

    /** The bound itself, and whether it moved. */
    method MoveLow(low: Word, isOpen: bool) returns (changed: int)
      modifies this
      ensures Value() == RaiseMin(old(Value()), low, isOpen)
      ensures changed == if Value() == old(Value()) then 0 else 1
    {
      changed := 0;
      if min < low {
        min := low;
        openmin := isOpen;
        changed := 1;
      } else if min == low && !openmin && isOpen {
        openmin := true;
        changed := 1;
      }
    }

    method RaiseLow(low: Word, isOpen: bool, whole: bool) returns (ret: int)
      modifies this
      ensures Refined(ret, Value()) == RefineMin(old(Value()), low, isOpen, whole) && ret <= 1
    {
      var changed := 0;
      if empty {
        return -ENOENT;
      }
      changed := MoveLow(low, isOpen);
      if !integer && whole {
        integer := true;
        changed := 1;
      }
      if integer {
        if openmin {
          min := ToUInt(min + 1);
          openmin := false;
        }
      }
      var e := CheckEmptiness();
      if e != 0 {
        return -EINVAL;
      }
      return changed;
    }

    /** The bound itself, and whether it moved. */
    method MoveHigh(high: Word, isOpen: bool) returns (changed: int)
      modifies this
      ensures Value() == LowerMax(old(Value()), high, isOpen)
      ensures changed == if Value() == old(Value()) then 0 else 1
    {
      changed := 0;
      if max > high {
        max := high;
        openmax := isOpen;
        changed := 1;
      } else if max == high && !openmax && isOpen {
        openmax := true;
        changed := 1;
      }
    }

    method LowerHigh(high: Word, isOpen: bool, whole: bool) returns (ret: int)
      modifies this
      ensures Refined(ret, Value()) == RefineMax(old(Value()), high, isOpen, whole) && ret <= 1
    {
      var changed := 0;
      if empty {
        return -ENOENT;
      }
      changed := MoveHigh(high, isOpen);
      if !integer && whole {
        integer := true;
        changed := 1;
      }
      if integer {
        if openmax {
          max := ToUInt(max - 1);
          openmax := false;
        }
      }
      var e := CheckEmptiness();
      if e != 0 {
        return -EINVAL;
      }
      return changed;
    }

    /** Intersection in place. */
    method Intersect(v: Interval) returns (ret: int)
      modifies this
      ensures Refined(ret, Value()) == Refine(old(Value()), v)
    {
      hide RefineMin, RefineMax;
      ret := RaiseLow(v.min, v.openmin, v.integer);
      if ret < 0 {
        return;
      }
      var changed := ret;
      ret := LowerHigh(v.max, v.openmax, v.integer);
      if ret < 0 {
        return;
      }
      changed := if changed != 0 || ret != 0 then 1 else 0;
      if !integer && !openmin && !openmax && min == max {
        integer := true;
      }
      return changed;
    }

    method KeepFirst() returns (ret: int)
      modifies this
      ensures Refined(ret, Value()) == RefineFirst(old(Value()))
    {
      if empty {
        return -ENOENT;
      }
      if Value().IsSingle() {
        return 0;
      }
      max := min;
      openmax := openmin;
      if openmax {
        max := ToUInt(max + 1);
      }
      return 1;
    }

    method KeepLast() returns (ret: int)
      modifies this
      ensures Refined(ret, Value()) == RefineLast(old(Value()))
    {
      if empty {
        return -ENOENT;
      }
      if Value().IsSingle() {
        return 0;
      }
      min := max;
      openmin := openmax;
      if openmin {
        min := ToUInt(min - 1);
      }
      return 1;
    }

    method KeepOnly(val: Word) returns (ret: int)
      modifies this
      ensures Refined(ret, Value()) == RefineSet(old(Value()), val)
    {
      var t := Interval(val, val, false, false, true, false);
      ret := Intersect(t);
    }
  }
}
