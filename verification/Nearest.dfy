/** Setting a variable to the allowed value nearest to a target. */
module Nearest {
  import opened Arith
  import opened Intervals
  import opened HwParams

  // ---------------------------------------------------------------- distances

  function Sign(d: int): int { if d < 0 then -1 else if d > 0 then 1 else 0 }

  /** Difference of two bounds with directions, in C's int. */
  function BoundarySub(a: int, adir: int, b: int, bdir: int): (int, int) {
    var c, cdir := ToInt(a - b), Sign(adir) - Sign(bdir);
    (if cdir == -2 then ToInt(c - 1) else if cdir == 2 then ToInt(c + 1) else c, cdir)
  }

  function BoundaryLt(a: Word, adir: int, b: Word, bdir: int): bool {
    var x, xdir := if adir < 0 then ToUInt(a - 1) else a, if adir != 0 then 1 else 0;
    var y, ydir := if bdir < 0 then ToUInt(b - 1) else b, if bdir != 0 then 1 else 0;
    x < y || (x == y && xdir < ydir)
  }

  /** Whether `min` is nearer to `best` than `max`; unsigned arguments become ints. */
  function BoundaryNearer(min: Word, mindir: int, best: Word, bestdir: int, max: Word, maxdir: int): bool {
    var (dmin, dmindir) := BoundarySub(ToInt(best), bestdir, ToInt(min), mindir);
    var (dmax, dmaxdir) := BoundarySub(ToInt(max), maxdir, ToInt(best), bestdir);
    BoundaryLt(ToUInt(dmin), dmindir, ToUInt(dmax), dmaxdir)
  }

  // ---------------------------------------------------------------- the search

  /** Which end to take and of what: the low end of what lies above, or the high end of what lies below. */
  datatype Side = Neither(err: int, p: Params) | Upper(p: Params) | Lower(p: Params)

  /** The choice between the values from `best` up (`up`) and those below it. */
  function ChooseSide(kernel: Kernel, p: Params, v: nat, best: Word, dir: int, up: Reply): Side
    requires FIRST_INTERVAL <= v <= LAST_INTERVAL
  {
    var maxdir := if dir > 0 then 0 else if dir == 0 then -1 else 1;
    var max: Word := if dir < 0 then ToUInt(best - 1) else best;
    if up.err >= 0 && up.val == best && up.dir == dir then Upper(up.p)
    else
      var down := SetMax(kernel, p, v, max, maxdir);
      if up.err < 0 then (if down.err < 0 then Neither(down.err, down.p) else Lower(down.p))
      else if down.err >= 0 && BoundaryNearer(ToUInt(down.val), down.dir, best, dir, ToUInt(up.val), up.dir)
      then Lower(down.p)
      else Upper(up.p)
  }

  function TakeEnd(kernel: Kernel, side: Side, v: nat, target: Word, dir: int): Reply
    requires FIRST_INTERVAL <= v <= LAST_INTERVAL
  {
    match side
    case Neither(err, p) => Reply(err, p, target, dir)
    case Upper(p) => SetFirst(kernel, p, v, target, dir)
    case Lower(p) => SetLast(kernel, p, v, target, dir)
  }

  /** _snd_pcm_hw_param_set_near, for an interval variable. */
  function SetNear(kernel: Kernel, p: Params, v: nat, target: Word, dir: int): Reply
    requires FIRST_INTERVAL <= v <= LAST_INTERVAL
  {
    var best: Word := Min(target, INT_MAX);
    var up := SetMin(kernel, p, v, best, dir);
    var i := IntervalOf(up.p, v);
    if !i.empty && i.IsSingle() then Reply(0, up.p, GetMin(up.p, v).0, GetMin(up.p, v).1)
    else TakeEnd(kernel, ChooseSide(kernel, p, v, best, dir, up), v, target, dir)
  }

  /** The choice of a side in place: afterwards the structure is that side's. */
  method ChooseSideInPlace(kernel: Kernel, params: ParamBlock, save: Params, v: nat, best: Word, dir: int, upErr: int,
                           min: nat, mindir: int)
    returns (err: int, last: bool)
    requires params.Valid() && FIRST_INTERVAL <= v <= LAST_INTERVAL
    modifies params
    ensures params.Valid()
    ensures var side := ChooseSide(kernel, save, v, best, dir, Reply(upErr, old(params.Value()), min, mindir));
            && params.Value() == side.p && (err < 0 <==> side.Neither?)
            && (err < 0 ==> side.err == err) && (last <==> side.Lower?)
  {
    var max: Word, maxdir := best, 0;
    if dir == 0 {
      maxdir := -1;
    } else if dir < 0 {
      maxdir := 1;
      max := ToUInt(max - 1);
    }
    if upErr >= 0 {
      if min == best && mindir == dir {
        return 0, false;
      }
      var params1 := new ParamBlock(save);
      var e, max1, maxdir1 := params1.TrySetMax(kernel, v, max, maxdir);
      if e < 0 {
        return 0, false;
      }
      if BoundaryNearer(ToUInt(max1), maxdir1, best, dir, ToUInt(min), mindir) {
        params.Assign(params1.Value());
        return 0, true;
      }
      return 0, false;
    }
    params.Assign(save);
    var e, max1, maxdir1 := params.TrySetMax(kernel, v, max, maxdir);
    return e, e >= 0;
  }

  method SetNearInPlace(kernel: Kernel, params: ParamBlock, v: nat, target: Word, dir: int)
    returns (err: int, val: nat, valdir: int)
    requires params.Valid() && FIRST_INTERVAL <= v <= LAST_INTERVAL
    modifies params
    ensures params.Valid()
    ensures Reply(err, params.Value(), val, valdir) == SetNear(kernel, old(params.Value()), v, target, dir)
  {
    var best: Word := target;
    if best > INT_MAX {
      best := INT_MAX;
    }
    var save := params.Value();
    var min, mindir, last;
    err, min, mindir := params.TrySetMin(kernel, v, best, dir);
    var i := IntervalOf(params.Value(), v);
    if !i.empty && i.IsSingle() {
      var g := GetMin(params.Value(), v);
      return 0, g.0, g.1;
    }
    err, last := ChooseSideInPlace(kernel, params, save, v, best, dir, err, min, mindir);
    if err < 0 {
      return err, target, dir;
    }
    if last {
      err, val, valdir := params.ChooseLast(kernel, v, target, dir);
    } else {
      err, val, valdir := params.ChooseFirst(kernel, v, target, dir);
    }
  }
}
