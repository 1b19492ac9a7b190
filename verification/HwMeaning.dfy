/** What the steps on hardware parameters mean: exactly which values a request keeps, what the
    kernel is asked, and what is reported back. */
module HwMeaning {
  import opened Arith
  import opened Masks
  import opened Intervals
  import opened IntervalEnds
  import opened HwParams
  import opened Negotiation

  // ---------------------------------------------------------------- masks

  /** A code for an empty mask, for one emptied, for one unchanged, and for one changed. */
  ghost predicate MaskTells(r: MaskResult, m: MaskSet) {
    if m == {} then r == MaskResult(-2, {}) else r.ret == if r.m == {} then -22 else if r.m == m then 0 else 1
  }

  /** Which members each request keeps. */
  lemma {:induction false} MasksKeep(m: MaskSet, val: nat, n: nat)
    ensures n in MaskMin(m, val).m <==> n in m && val <= n
    ensures n in MaskMax(m, val).m <==> n in m && n <= val
    ensures n in MaskOnly(m, val).m <==> n in m && n == val
    ensures n in MaskFirst(m).m <==> n in m && forall k :: k in m ==> n <= k
    ensures n in MaskLast(m).m <==> n in m && forall k :: k in m ==> k <= n
  {
    LeastGreatest(m);
  }

  lemma {:induction false} MasksTell(m: MaskSet, val: nat)
    ensures MaskTells(MaskMin(m, val), m) && MaskTells(MaskMax(m, val), m) && MaskTells(MaskOnly(m, val), m)
    ensures MaskTells(MaskFirst(m), m) && MaskTells(MaskLast(m), m)
  {
    LeastGreatest(m);
    if m != {} && Single(m) {
      assert m == {Least(m)};
    }
    if val in m {
      assert Single(m) ==> m == {val};
      assert m == {val} ==> Single(m);
    }
    assert m == {Least(m)} ==> Single(m);
    assert m == {Greatest(m)} ==> Single(m);
  }

  // ---------------------------------------------------------------- requests

  /** Nothing but variable v differs. */
  ghost predicate OnlyVar(q: Params, p: Params, v: nat) {
    && (forall k: nat :: k < 3 && k != v ==> q.masks[k] == p.masks[k])
    && (forall k: nat :: k < 12 && k + 8 != v ==> q.intervals[k] == p.intervals[k])
    && q.rmask == p.rmask && q.cmask == p.cmask && q.rest == p.rest
  }

  /** At least the value; beyond it, or beyond the integer before it, in a direction. */
  ghost predicate AtLeast(x: real, val: int, dir: int) {
    if dir > 0 then val as real < x else if dir < 0 && val > 0 then (val - 1) as real < x else val as real <= x
  }

  ghost predicate AtMost(x: real, val: int, dir: int) {
    if dir > 0 then x < (val + 1) as real else if dir < 0 then x < val as real else x <= val as real
  }

  /** A minimum keeps exactly the values that meet it, of its variable alone, and tells a change. */
  lemma {:induction false} MinKeeps(p: Params, v: nat, val: Word, dir: int, n: nat, x: real)
    requires MinArgs(v, val) && (dir > 0 ==> val < UINT_MAX)
    requires v >= 8 ==> p.intervals[v - 8].Closed()
    ensures var local := LocalMin(p, v, val, dir);
            && OnlyVar(local.p, p, v)
            && (v <= 2 ==>
                  && (n in local.p.masks[v] <==> n in p.masks[v] && val <= n)
                  && MaskTells(MaskResult(local.err, local.p.masks[v]), p.masks[v]))
            && (v >= 8 ==>
                  && (local.p.intervals[v - 8].Contains(x) <==> p.intervals[v - 8].Contains(x) && AtLeast(x, val, dir))
                  && TellsChange(Refined(local.err, local.p.intervals[v - 8]), p.intervals[v - 8]))
  {
    if v <= 2 {
      MasksKeep(p.masks[v], val, n);
      MasksTell(p.masks[v], val);
    } else {
      var below := dir < 0 && val > 0;
      var bound: Word := if below then val - 1 else val;
      RefineMinExact(IntervalOf(p, v), bound, dir > 0 || below, false, x);
      MinTells(IntervalOf(p, v), bound, dir > 0 || below, false);
    }
    hide MaskMin, RefineMin, MaskTells, TellsChange, Interval.Contains, Interval.Closed;
  }

  lemma {:induction false} MaxKeeps(p: Params, v: nat, val: Word, dir: int, n: nat, x: real)
    requires IsVar(v) && (dir > 0 ==> val < UINT_MAX) && (dir < 0 ==> val > 0)
    requires v >= 8 ==> p.intervals[v - 8].Closed()
    ensures var local := LocalMax(p, v, val, dir);
            && OnlyVar(local.p, p, v)
            && (v <= 2 ==>
                  && (n in local.p.masks[v] <==> n in p.masks[v] && n <= val)
                  && MaskTells(MaskResult(local.err, local.p.masks[v]), p.masks[v]))
            && (v >= 8 ==>
                  && (local.p.intervals[v - 8].Contains(x) <==> p.intervals[v - 8].Contains(x) && AtMost(x, val, dir))
                  && TellsChange(Refined(local.err, local.p.intervals[v - 8]), p.intervals[v - 8]))
  {
    if v <= 2 {
      MasksKeep(p.masks[v], val, n);
      MasksTell(p.masks[v], val);
    } else {
      var bound: Word := if dir > 0 then val + 1 else val;
      RefineMaxExact(IntervalOf(p, v), bound, dir != 0, false, x);
      MaxTells(IntervalOf(p, v), bound, dir != 0, false);
    }
    hide MaskMax, RefineMax, MaskTells, TellsChange, Interval.Contains, Interval.Closed;
  }

  lemma {:induction false} OnlyVarTrans(r: Params, q: Params, p: Params, v: nat)
    requires OnlyVar(r, q, v) && OnlyVar(q, p, v)
    ensures OnlyVar(r, p, v)
  {
  }

  /** The two steps of a request for both: the maximum is asked of what the minimum left. */
  lemma {:induction false} BothSteps(p: Params, v: nat, min: Word, mindir: int, max: Word, maxdir: int)
    requires MinArgs(v, min)
    ensures var first, both := LocalMin(p, v, min, mindir), LocalMinMax(p, v, min, mindir, max, maxdir);
            var second := LocalMax(first.p, v, max, maxdir);
            && (first.err < 0 ==> both == first)
            && (first.err >= 0 ==> both.p == second.p && (both.err < 0 <==> second.err < 0))
            && (first.err >= 0 && second.err < 0 ==> both.err == second.err)
            && (first.err >= 0 && second.err >= 0 ==> both.err == if first.err == 0 && second.err == 0 then 0 else 1)
  {
  }

  /** A minimum and a maximum together keep exactly the values that meet both. */
  lemma {:induction false} MinMaxKeeps(p: Params, v: nat, min: Word, mindir: int, max: Word, maxdir: int,
                                       n: nat, x: real)
    requires MinArgs(v, min) && (mindir > 0 ==> min < UINT_MAX) && (maxdir > 0 ==> max < UINT_MAX)
    requires (maxdir < 0 ==> max > 0) && (v >= 8 ==> p.intervals[v - 8].Closed())
    ensures var both := LocalMinMax(p, v, min, mindir, max, maxdir);
            && OnlyVar(both.p, p, v)
            && (v <= 2 && both.err >= 0 ==> (n in both.p.masks[v] <==> n in p.masks[v] && min <= n <= max))
            && (v >= 8 && both.err >= 0 ==>
                  (both.p.intervals[v - 8].Contains(x) <==>
                     p.intervals[v - 8].Contains(x) && AtLeast(x, min, mindir) && AtMost(x, max, maxdir)))
  {
    assert v <= 2 || v >= 8;
    assert IsVar(v);
    hide *;
    BothSteps(p, v, min, mindir, max, maxdir);
    MinKeeps(p, v, min, mindir, n, x);
    var first := LocalMin(p, v, min, mindir);
    if first.err >= 0 {
      if v >= 8 {
        StillClosed(p, v, min, mindir);
      }
      MaxKeeps(first.p, v, max, maxdir, n, x);
      OnlyVarTrans(LocalMax(first.p, v, max, maxdir).p, first.p, p, v);
    }
  }

  lemma {:induction false} StillClosed(p: Params, v: nat, val: Word, dir: int)
    requires MinArgs(v, val) && v >= 8 && p.intervals[v - 8].Closed() && LocalMin(p, v, val, dir).err >= 0
    ensures LocalMin(p, v, val, dir).p.intervals[v - 8].Closed()
  {
    var below := dir < 0 && val > 0;
    RefineMinShape(IntervalOf(p, v), if below then val - 1 else val, dir > 0 || below, false);
  }

  /** The value itself, or the numbers strictly between it and the next integer in the direction. */
  ghost predicate Just(x: real, val: int, dir: int) {
    if dir > 0 then val as real < x < (val + 1) as real
    else if dir < 0 then (val - 1) as real < x < val as real
    else x == val as real
  }

  /** A value keeps exactly itself, of its variable alone; a value below 0 is refused. */
  lemma {:induction false} SetKeeps(p: Params, v: nat, val: Word, dir: int, n: nat, x: real)
    requires SetArgs(v, val, dir) && (dir > 0 ==> val < UINT_MAX)
    requires v >= 8 ==> p.intervals[v - 8].Closed()
    ensures var local := LocalSet(p, v, val, dir);
            && OnlyVar(local.p, p, v)
            && (val == 0 && dir < 0 ==> local.err == -22)
            && (v <= 2 && (val > 0 || dir >= 0) ==>
                  && (n in local.p.masks[v] <==>
                        n in p.masks[v] && n == if dir > 0 then val + 1 else if dir < 0 then val - 1 else val)
                  && MaskTells(MaskResult(local.err, local.p.masks[v]), p.masks[v]))
            && (v >= 8 && (val > 0 || dir >= 0) && local.err >= 0 ==>
                  (local.p.intervals[v - 8].Contains(x) <==> p.intervals[v - 8].Contains(x) && Just(x, val, dir)))
            && (v >= 8 && (val > 0 || dir >= 0) && local.err < 0 ==>
                  p.intervals[v - 8].Contains(x) ==> !Just(x, val, dir))
  {
    if v <= 2 {
      if val > 0 || dir >= 0 {
        var bit := if dir > 0 then val + 1 else if dir < 0 then val - 1 else val;
        MasksKeep(p.masks[v], bit, n);
        MasksTell(p.masks[v], bit);
      }
    } else if val > 0 || dir >= 0 {
      PointIs(val, dir, x);
      RefineExact(IntervalOf(p, v), Point(val, dir));
      assert LocalSet(p, v, val, dir) == FromInterval(p, v, Refine(IntervalOf(p, v), Point(val, dir)));
    }
    hide MaskOnly, Refine, RefineSet, MaskTells, Point, Just;
  }

  lemma {:induction false} PointIs(val: Word, dir: int, x: real)
    requires (dir > 0 ==> val < UINT_MAX) && (dir < 0 ==> val > 0)
    ensures Point(val, dir).Contains(x) <==> Just(x, val, dir)
    ensures !Point(val, dir).BoundsEmpty()
  {
    FloorOfInt(val);
  }

  // ---------------------------------------------------------------- the kernel

  /** What the kernel is asked, and how its answer is taken: a change marks exactly its variable in
      both words, the kernel is asked when anything is marked, and a variable left empty is an error. */
  lemma {:induction false} KernelAsked(kernel: Kernel, p: Params, v: nat, changed: int)
    requires IsVar(v)
    ensures var u := Update(kernel, p, v, changed);
            var asked := if changed == 0 then p else Fields(p.masks, p.intervals, p.rmask + {v}, p.cmask + {v}, p.rest);
            var (ret, q) := kernel(asked);
            var gone := if v <= 2 then q.masks[v] == {} else q.intervals[v - 8].empty;
            u == if changed < 0 then Outcome(changed, p)
                 else if changed == 0 && p.rmask == {} then Outcome(0, p)
                 else Outcome(if ret < 0 then ret else if gone then -2 else 0, q)
  {
  }

  // ---------------------------------------------------------------- reports

  ghost predicate MemberBelow(i: Interval, bound: real) { exists x: real :: i.Contains(x) && x < bound }

  ghost predicate MemberAbove(i: Interval, bound: real) { exists x: real :: i.Contains(x) && bound < x }

  /** val and dir tell the low end of variable v: its least value, or, with direction 1, a number
      that its values come as near to as one likes, from above. */
  ghost predicate LowEndIs(q: Params, v: nat, val: int, dir: int)
    requires IsVar(v)
  {
    if v <= 2 then dir == 0 && val in q.masks[v] && forall n :: n in q.masks[v] ==> val <= n
    else
      var i := q.intervals[v - 8];
      && (forall x: real :: i.Contains(x) ==> val as real <= x)
      && (dir == 0 || dir == 1) && (dir == 0 <==> i.Contains(val as real))
      && (forall bound: real :: val as real < bound ==> MemberBelow(i, bound))
  }

  ghost predicate HighEndIs(q: Params, v: nat, val: int, dir: int)
    requires IsVar(v)
  {
    if v <= 2 then dir == 0 && val in q.masks[v] && forall n :: n in q.masks[v] ==> n <= val
    else
      var i := q.intervals[v - 8];
      && (forall x: real :: i.Contains(x) ==> x <= val as real)
      && (dir == 0 || dir == -1) && (dir == 0 <==> i.Contains(val as real))
      && (forall bound: real :: bound < val as real ==> MemberAbove(i, bound))
  }

  lemma {:induction false} LowEnd(q: Params, v: nat)
    requires IsVar(v) && WellFormed(q)
    ensures LowEndIs(q, v, GetMin(q, v).0, GetMin(q, v).1)
  {
    if v <= 2 {
      LeastGreatest(q.masks[v]);
    } else {
      var i := q.intervals[v - 8];
      FloorOfInt(i.min);
      forall bound: real | i.min as real < bound
        ensures MemberBelow(i, bound)
      {
        var x := LowMember(i, bound);
      }
    }
  }

  lemma {:induction false} HighEnd(q: Params, v: nat)
    requires IsVar(v) && WellFormed(q)
    ensures HighEndIs(q, v, GetMax(q, v).0, GetMax(q, v).1)
  {
    if v <= 2 {
      LeastGreatest(q.masks[v]);
    } else {
      var i := q.intervals[v - 8];
      FloorOfInt(i.max);
      forall bound: real | bound < i.max as real
        ensures MemberAbove(i, bound)
      {
        var x := HighMember(i, bound);
      }
    }
  }

  /** What a successful minimum hands back is the low end of what is left; after a failure the
      structure and the caller's values are as they were. */
  lemma {:induction false} MinReported(kernel: Kernel, p: Params, v: nat, val: Word, dir: int)
    requires MinArgs(v, val) && Narrowing(kernel) && WellFormed(p)
    requires (dir > 0 ==> val < UINT_MAX)
    ensures var r := SetMin(kernel, p, v, val, dir);
            if r.err == 0 then LowEndIs(r.p, v, r.val, r.dir) else r.p == p && r.val == val && r.dir == dir
  {
    if SetMin(kernel, p, v, val, dir).err == 0 {
      MinNarrows(kernel, p, v, val, dir);
      hide LowEndIs, LocalMin, Step, GetMin, Narrowing, Narrower, WellFormed;
      LowEnd(SetMin(kernel, p, v, val, dir).p, v);
    }
  }

  /** And a successful maximum the high end. */
  lemma {:induction false} MaxReported(kernel: Kernel, p: Params, v: nat, val: Word, dir: int)
    requires IsVar(v) && Narrowing(kernel) && WellFormed(p)
    requires (dir > 0 ==> val < UINT_MAX) && (dir < 0 ==> val > 0)
    ensures var r := SetMax(kernel, p, v, val, dir);
            if r.err == 0 then HighEndIs(r.p, v, r.val, r.dir) else r.p == p && r.val == val && r.dir == dir
  {
    if SetMax(kernel, p, v, val, dir).err == 0 {
      MaxNarrows(kernel, p, v, val, dir);
      hide HighEndIs, LocalMax, Step, GetMax, Narrowing, Narrower, WellFormed;
      HighEnd(SetMax(kernel, p, v, val, dir).p, v);
    }
  }

  /** A decided variable is handed back by its low end. */
  lemma {:induction false} FirstReported(kernel: Kernel, p: Params, v: nat, val: Word, dir: int)
    requires IsVar(v) && Narrowing(kernel) && WellFormed(p)
    ensures var r := SetFirst(kernel, p, v, val, dir);
            if r.err == 0 then LowEndIs(r.p, v, r.val, r.dir) else r.val == val && r.dir == dir
  {
    if SetFirst(kernel, p, v, val, dir).err == 0 {
      FirstNarrows(kernel, p, v, val, dir);
      hide LowEndIs, LocalFirst, Step, GetMin, Narrowing, Narrower, WellFormed, WithinFirst, WithinLast;
      LowEnd(SetFirst(kernel, p, v, val, dir).p, v);
    }
  }

  lemma {:induction false} LastReported(kernel: Kernel, p: Params, v: nat, val: Word, dir: int)
    requires IsVar(v) && Narrowing(kernel) && WellFormed(p)
    ensures var r := SetLast(kernel, p, v, val, dir);
            if r.err == 0 then LowEndIs(r.p, v, r.val, r.dir) else r.val == val && r.dir == dir
  {
    if SetLast(kernel, p, v, val, dir).err == 0 {
      LastNarrows(kernel, p, v, val, dir);
      hide LowEndIs, LocalLast, Step, GetMin, Narrowing, Narrower, WellFormed, WithinFirst, WithinLast;
      LowEnd(SetLast(kernel, p, v, val, dir).p, v);
    }
  }
}
