/** Hardware parameters: three masks and twelve intervals, refined locally and then by the
    kernel. The kernel is a parameter: any function from a structure to a result code and the
    structure it leaves, success or not. */
module HwParams {
  import opened Arith
  import opened Masks
  import opened Intervals

  // SNDRV_PCM_HW_PARAM_*
  const ACCESS: nat := 0
  const FORMAT: nat := 1
  const SUBFORMAT: nat := 2
  const LAST_MASK: nat := 2
  const FIRST_INTERVAL: nat := 8
  const CHANNELS: nat := 10
  const RATE: nat := 11
  const PERIOD_TIME: nat := 12
  const PERIOD_SIZE: nat := 13
  const BUFFER_SIZE: nat := 17
  const TICK_TIME: nat := 19
  const LAST_INTERVAL: nat := 19

  /** The structure. `rmask` and `cmask` are the bits set in those words; `rest` are the fields
      that only the kernel writes. */
  datatype Fields = Fields(masks: seq<MaskSet>, intervals: seq<Interval>, rmask: set<nat>, cmask: set<nat>,
                           rest: seq<int>)

  type Params = p: Fields | |p.masks| == 3 && |p.intervals| == 12
    witness Fields([{}, {}, {}], seq(12, _ => Interval(0, 0, false, false, false, true)), {}, {}, [])

  type Kernel = Params -> (int, Params)

  predicate IsVar(v: nat) { v <= LAST_MASK || FIRST_INTERVAL <= v <= LAST_INTERVAL }

  predicate IsMask(v: nat) { v <= LAST_MASK }

  function IntervalOf(p: Params, v: nat): Interval
    requires FIRST_INTERVAL <= v <= LAST_INTERVAL
  {
    p.intervals[v - FIRST_INTERVAL]
  }

  function WithInterval(p: Params, v: nat, i: Interval): Params
    requires FIRST_INTERVAL <= v <= LAST_INTERVAL
  {
    p.(intervals := p.intervals[v - FIRST_INTERVAL := i])
  }

  function WithMask(p: Params, v: nat, m: MaskSet): Params
    requires IsMask(v)
  {
    p.(masks := p.masks[v := m])
  }

  /** A result code and the structure left behind. */
  datatype Outcome = Outcome(err: int, p: Params)

  /** The same with the value and direction handed back to the caller. */
  datatype Reply = Reply(err: int, p: Params, val: nat, dir: int)

  // ---------------------------------------------------------------- one variable, locally

  function FromInterval(p: Params, v: nat, r: Refined): Outcome
    requires FIRST_INTERVAL <= v <= LAST_INTERVAL
  {
    Outcome(r.ret, WithInterval(p, v, r.i))
  }

  function FromMask(p: Params, v: nat, r: MaskResult): Outcome
    requires IsMask(v)
  {
    Outcome(r.ret, WithMask(p, v, r.m))
  }

  function IsEmptyVar(p: Params, v: nat): bool
    requires IsVar(v)
  {
    if IsMask(v) then p.masks[v] == {} else IntervalOf(p, v).empty
  }

  function IsSingleVar(p: Params, v: nat): bool
    requires IsVar(v)
  {
    if IsMask(v) then Single(p.masks[v]) else IntervalOf(p, v).IsSingle()
  }

  /** A minimum for a mask is at most the number of its bits: a greater one would clear words past it. */
  predicate MinArgs(v: nat, val: Word) { IsVar(v) && (IsMask(v) ==> val <= MASK_MAX) }

  function LocalMin(p: Params, v: nat, val: Word, dir: int): Outcome
    requires MinArgs(v, val)
  {
    if IsMask(v) then FromMask(p, v, MaskMin(p.masks[v], val))
    else
      var below := dir < 0 && val > 0;
      FromInterval(p, v, RefineMin(IntervalOf(p, v), if below then val - 1 else val, dir > 0 || below, false))
  }

  function LocalMax(p: Params, v: nat, val: Word, dir: int): Outcome
    requires IsVar(v)
  {
    if IsMask(v) then FromMask(p, v, MaskMax(p.masks[v], val))
    else FromInterval(p, v, RefineMax(IntervalOf(p, v), if dir > 0 then ToUInt(val + 1) else val, dir != 0, false))
  }

  function LocalMinMax(p: Params, v: nat, min: Word, mindir: int, max: Word, maxdir: int): Outcome
    requires MinArgs(v, min)
  {
    var c1 := LocalMin(p, v, min, mindir);
    if c1.err < 0 then c1
    else
      var c2 := LocalMax(c1.p, v, max, maxdir);
      if c2.err < 0 then c2 else Outcome(if c1.err != 0 || c2.err != 0 then 1 else 0, c2.p)
  }

  /** For a mask the value, moved by the direction, is a bit number. */
  predicate SetArgs(v: nat, val: Word, dir: int) {
    IsVar(v) && (IsMask(v) ==> val < MASK_MAX && (dir > 0 ==> val + 1 < MASK_MAX))
  }

  function LocalSet(p: Params, v: nat, val: Word, dir: int): Outcome
    requires SetArgs(v, val, dir)
  {
    if IsMask(v) then
      if val == 0 && dir < 0 then Outcome(-EINVAL, WithMask(p, v, {}))
      else FromMask(p, v, MaskOnly(p.masks[v], if dir > 0 then val + 1 else if dir < 0 then val - 1 else val))
    else
      var i := IntervalOf(p, v);
      if val == 0 && dir < 0 then Outcome(-EINVAL, WithInterval(p, v, i.(empty := true)))
      else if dir == 0 then FromInterval(p, v, RefineSet(i, val))
      else if dir < 0 then FromInterval(p, v, Refine(i, Interval(val - 1, val, true, true, false, false)))
      else FromInterval(p, v, Refine(i, Interval(val, ToUInt(val + 1), true, true, false, false)))
  }

  function LocalFirst(p: Params, v: nat): Outcome
    requires IsVar(v)
  {
    if IsMask(v) then FromMask(p, v, MaskFirst(p.masks[v])) else FromInterval(p, v, RefineFirst(IntervalOf(p, v)))
  }

  function LocalLast(p: Params, v: nat): Outcome
    requires IsVar(v)
  {
    if IsMask(v) then FromMask(p, v, MaskLast(p.masks[v])) else FromInterval(p, v, RefineLast(IntervalOf(p, v)))
  }

  // ---------------------------------------------------------------- with the kernel

  function Marked(p: Params, v: nat, changed: int): Params {
    if changed != 0 then p.(cmask := p.cmask + {v}, rmask := p.rmask + {v}) else p
  }

  /** After a local change: the kernel refines all variables, if any asks for it. */
  function Update(kernel: Kernel, p: Params, v: nat, changed: int): Outcome
    requires IsVar(v)
  {
    if changed < 0 then Outcome(changed, p)
    else
      var p1 := Marked(p, v, changed);
      if p1.rmask == {} then Outcome(0, p1)
      else
        var (ret, q) := kernel(p1);
        if ret < 0 then Outcome(ret, q) else if IsEmptyVar(q, v) then Outcome(-ENOENT, q) else Outcome(0, q)
  }

  function Step(kernel: Kernel, local: Outcome, v: nat): Outcome
    requires IsVar(v)
  {
    Update(kernel, local.p, v, local.err)
  }

  function GetMin(p: Params, v: nat): (nat, int)
    requires IsVar(v)
  {
    if IsMask(v) then (Least(p.masks[v]), 0)
    else (IntervalOf(p, v).min, if IntervalOf(p, v).openmin then 1 else 0)
  }

  function GetMax(p: Params, v: nat): (nat, int)
    requires IsVar(v)
  {
    if IsMask(v) then (Greatest(p.masks[v]), 0)
    else (IntervalOf(p, v).max, if IntervalOf(p, v).openmax then -1 else 0)
  }

  function Get(p: Params, v: nat): (int, nat, int)
    requires IsVar(v)
  {
    if IsEmptyVar(p, v) || !IsSingleVar(p, v) then (-EINVAL, 0, 0) else (0, GetMin(p, v).0, GetMin(p, v).1)
  }

  function SetMin(kernel: Kernel, p: Params, v: nat, val: Word, dir: int): Reply
    requires MinArgs(v, val)
  {
    var u := Step(kernel, LocalMin(p, v, val, dir), v);
    if u.err == 0 then Reply(0, u.p, GetMin(u.p, v).0, GetMin(u.p, v).1) else Reply(u.err, p, val, dir)
  }

  function SetMax(kernel: Kernel, p: Params, v: nat, val: Word, dir: int): Reply
    requires IsVar(v)
  {
    var u := Step(kernel, LocalMax(p, v, val, dir), v);
    if u.err == 0 then Reply(0, u.p, GetMax(u.p, v).0, GetMax(u.p, v).1) else Reply(u.err, p, val, dir)
  }

  /** First or last: what the kernel leaves stays, on failure too. */
  function Chosen(u: Outcome, v: nat, val: nat, dir: int): Reply
    requires IsVar(v)
  {
    if u.err != 0 then Reply(u.err, u.p, val, dir)
    else
      var (e, x, d) := Get(u.p, v);
      if e == 0 then Reply(0, u.p, x, d) else Reply(e, u.p, val, dir)
  }

  function SetFirst(kernel: Kernel, p: Params, v: nat, val: nat, dir: int): Reply
    requires IsVar(v)
  {
    Chosen(Step(kernel, LocalFirst(p, v), v), v, val, dir)
  }

  function SetLast(kernel: Kernel, p: Params, v: nat, val: nat, dir: int): Reply
    requires IsVar(v)
  {
    Chosen(Step(kernel, LocalLast(p, v), v), v, val, dir)
  }

  lemma {:induction false} StepCode(kernel: Kernel, local: Outcome, v: nat)
    requires IsVar(v)
    ensures Step(kernel, local, v).err <= 0
  {
  }

  // ---------------------------------------------------------------- in place

  class ParamBlock {
    var masks: seq<MaskSet>
    var intervals: seq<Interval>
    var rmask: set<nat>
    var cmask: set<nat>
    var rest: seq<int>

    ghost predicate Valid()
      reads this
    {
      |masks| == 3 && |intervals| == 12
    }

    function Value(): Params
      reads this
      requires Valid()
    {
      Fields(masks, intervals, rmask, cmask, rest)
    }

    constructor (p: Params)
      ensures Valid() && Value() == p
    {
      masks, intervals, rmask, cmask, rest := p.masks, p.intervals, p.rmask, p.cmask, p.rest;
    }

    /** `*params = save` */
    method Assign(p: Params)
      modifies this
      ensures Valid() && Value() == p
    {
      masks, intervals, rmask, cmask, rest := p.masks, p.intervals, p.rmask, p.cmask, p.rest;
    }

    method PutInterval(v: nat, r: Refined) returns (changed: int)
      requires Valid() && FIRST_INTERVAL <= v <= LAST_INTERVAL
      modifies this`intervals
      ensures Valid() && Outcome(changed, Value()) == FromInterval(old(Value()), v, r)
    {
      intervals := intervals[v - FIRST_INTERVAL := r.i];
      changed := r.ret;
    }

    method PutMask(v: nat, r: MaskResult) returns (changed: int)
      requires Valid() && IsMask(v)
      modifies this`masks
      ensures Valid() && Outcome(changed, Value()) == FromMask(old(Value()), v, r)
    {
      masks := masks[v := r.m];
      changed := r.ret;
    }

    method UpdateVar(kernel: Kernel, v: nat, change: int) returns (err: int)
      requires Valid() && IsVar(v)
      modifies this
      ensures Valid() && Outcome(err, Value()) == Update(kernel, old(Value()), v, change)
    {
      if change < 0 {
        return change;
      }
      if change != 0 {
        cmask := cmask + {v};
        rmask := rmask + {v};
      }
      if rmask != {} {
        var (ret, q) := kernel(Value());
        Assign(q);
        if ret < 0 {
          return ret;
        }
        if IsEmptyVar(Value(), v) {
          return -ENOENT;
        }
      }
      return 0;
    }

    /** hw_param_set_min */
    method NarrowMin(v: nat, val: Word, dir: int) returns (changed: int)
      requires Valid() && MinArgs(v, val)
      modifies this
      ensures Valid() && Outcome(changed, Value()) == LocalMin(old(Value()), v, val, dir)
    {
      if IsMask(v) {
        changed := PutMask(v, MaskMin(masks[v], val));
        return;
      }
      var openmin, bound := false, val;
      if dir > 0 {
        openmin := true;
      } else if dir < 0 && val > 0 {
        openmin := true;
        bound := val - 1;
      }
      changed := PutInterval(v, RefineMin(intervals[v - FIRST_INTERVAL], bound, openmin, false));
    }

    /** hw_param_set_max */
    method NarrowMax(v: nat, val: Word, dir: int) returns (changed: int)
      requires Valid() && IsVar(v)
      modifies this
      ensures Valid() && Outcome(changed, Value()) == LocalMax(old(Value()), v, val, dir)
    {
      if IsMask(v) {
        changed := PutMask(v, MaskMax(masks[v], val));
        return;
      }
      var openmax, bound := false, val;
      if dir != 0 {
        openmax := true;
        if dir > 0 {
          bound := ToUInt(val + 1);
        }
      }
      changed := PutInterval(v, RefineMax(intervals[v - FIRST_INTERVAL], bound, openmax, false));
    }

    /** A failure, of the local refinement or of the kernel, leaves the structure as it was. */
    method TrySetMin(kernel: Kernel, v: nat, val: Word, dir: int) returns (err: int, min: nat, mindir: int)
      requires Valid() && MinArgs(v, val)
      modifies this
      ensures Valid() && Reply(err, Value(), min, mindir) == SetMin(kernel, old(Value()), v, val, dir)
      ensures err < 0 ==> Value() == old(Value())
      ensures err == 0 ==> Value() == Step(kernel, LocalMin(old(Value()), v, val, dir), v).p
      ensures err <= 0
    {
      var save := Value();
      StepCode(kernel, LocalMin(save, v, val, dir), v);
      err := NarrowMin(v, val, dir);
      err := UpdateVar(kernel, v, err);
      if err == 0 {
        var g := GetMin(Value(), v);
        return 0, g.0, g.1;
      }
      Assign(save);
      return err, val, dir;
    }

    method TrySetMax(kernel: Kernel, v: nat, val: Word, dir: int) returns (err: int, max: nat, maxdir: int)
      requires Valid() && IsVar(v)
      modifies this
      ensures Valid() && Reply(err, Value(), max, maxdir) == SetMax(kernel, old(Value()), v, val, dir)
      ensures err < 0 ==> Value() == old(Value())
      ensures err == 0 ==> Value() == Step(kernel, LocalMax(old(Value()), v, val, dir), v).p
      ensures err <= 0
    {
      var save := Value();
      StepCode(kernel, LocalMax(save, v, val, dir), v);
      err := NarrowMax(v, val, dir);
      err := UpdateVar(kernel, v, err);
      if err == 0 {
        var g := GetMax(Value(), v);
        return 0, g.0, g.1;
      }
      Assign(save);
      return err, val, dir;
    }

    method TrySetMinMax(kernel: Kernel, v: nat, min: Word, mindir: int, max: Word, maxdir: int)
      returns (err: int, low: (nat, int), high: (nat, int))
      requires Valid() && MinArgs(v, min)
      modifies this
      ensures Valid() && err <= 0
      ensures err == Step(kernel, LocalMinMax(old(Value()), v, min, mindir, max, maxdir), v).err
      ensures err < 0 ==> Value() == old(Value()) && low == (min, mindir) && high == (max, maxdir)
      ensures err == 0 ==>
        && Value() == Step(kernel, LocalMinMax(old(Value()), v, min, mindir, max, maxdir), v).p
        && low == GetMin(Value(), v) && high == GetMax(Value(), v)
    {
      var save := Value();
      StepCode(kernel, LocalMinMax(save, v, min, mindir, max, maxdir), v);
      err := NarrowMin(v, min, mindir);
      if err >= 0 {
        var c2 := NarrowMax(v, max, maxdir);
        err := if c2 < 0 then c2 else if err != 0 || c2 != 0 then 1 else 0;
      }
      err := UpdateVar(kernel, v, err);
      if err == 0 {
        return 0, GetMin(Value(), v), GetMax(Value(), v);
      }
      Assign(save);
      return err, (min, mindir), (max, maxdir);
    }

    /** hw_param_set */
    method NarrowTo(v: nat, val: Word, dir: int) returns (changed: int)
      requires Valid() && SetArgs(v, val, dir)
      modifies this
      ensures Valid() && Outcome(changed, Value()) == LocalSet(old(Value()), v, val, dir)
    {
      if IsMask(v) {
        if val == 0 && dir < 0 {
          masks := masks[v := {}];
          return -EINVAL;
        }
        var bit := val;
        if dir > 0 {
          bit := val + 1;
        } else if dir < 0 {
          bit := val - 1;
        }
        changed := PutMask(v, MaskOnly(masks[v], bit));
      } else {
        var i := intervals[v - FIRST_INTERVAL];
        if val == 0 && dir < 0 {
          intervals := intervals[v - FIRST_INTERVAL := i.(empty := true)];
          return -EINVAL;
        }
        if dir == 0 {
          changed := PutInterval(v, RefineSet(i, val));
        } else {
          var t := if dir < 0 then Interval(val - 1, val, true, true, false, false)
                   else Interval(val, ToUInt(val + 1), true, true, false, false);
          changed := PutInterval(v, Refine(i, t));
        }
      }
    }

    method TrySet(kernel: Kernel, v: nat, val: Word, dir: int) returns (err: int)
      requires Valid() && SetArgs(v, val, dir)
      modifies this
      ensures Valid() && err <= 0
      ensures err == Step(kernel, LocalSet(old(Value()), v, val, dir), v).err
      ensures err < 0 ==> Value() == old(Value())
      ensures err == 0 ==> Value() == Step(kernel, LocalSet(old(Value()), v, val, dir), v).p
    {
      var save := Value();
      StepCode(kernel, LocalSet(save, v, val, dir), v);
      err := NarrowTo(v, val, dir);
      err := UpdateVar(kernel, v, err);
      if err < 0 {
        Assign(save);
      }
    }

    /** Tells whether the value could be set; the structure is as before in any case. */
    method TestSet(kernel: Kernel, v: nat, val: Word, dir: int) returns (err: int)
      requires Valid() && SetArgs(v, val, dir)
      modifies this
      ensures Valid() && Value() == old(Value())
      ensures err == Step(kernel, LocalSet(old(Value()), v, val, dir), v).err
    {
      var save := Value();
      err := TrySet(kernel, v, val, dir);
      Assign(save);
    }

    /** Of a failure one trace can stay: the emptiness check itself sets the flag of an interval
        whose bounds have crossed. So a failure changes nothing exactly when the flag was right. */
    method TrySetInteger(kernel: Kernel, v: nat) returns (err: int)
      requires Valid() && FIRST_INTERVAL <= v <= LAST_INTERVAL
      modifies this
      ensures Valid() && err <= 0
      ensures err < 0 ==>
        (Value() == old(Value()) <==> (IntervalOf(old(Value()), v).BoundsEmpty() ==> IntervalOf(old(Value()), v).empty))
      ensures
        var p, i := old(Value()), IntervalOf(old(Value()), v);
        var u := Update(kernel, WithInterval(p, v, i.(integer := true)), v, 1);
        (err, Value()) ==
          if i.integer then (0, p)
          else if i.BoundsEmpty() then (-EINVAL, WithInterval(p, v, i.(empty := true)))
          else (u.err, if u.err < 0 then p else u.p)
    {
      var i := intervals[v - FIRST_INTERVAL];
      if i.integer {
        return 0;
      }
      var e := CheckEmpty(i);
      if e.0 {
        intervals := intervals[v - FIRST_INTERVAL := e.1];
        assert IntervalOf(Value(), v) == e.1;
        assert e.1 == i ==> intervals == old(intervals);
        return -EINVAL;
      }
      var save := Value();
      intervals := intervals[v - FIRST_INTERVAL := i.(integer := true)];
      StepCode(kernel, Outcome(1, Value()), v);
      err := UpdateVar(kernel, v, 1);
      if err < 0 {
        Assign(save);
      }
    }

    method ChooseFirst(kernel: Kernel, v: nat, val: nat, dir: int) returns (err: int, x: nat, d: int)
      requires Valid() && IsVar(v)
      modifies this
      ensures Valid() && Reply(err, Value(), x, d) == SetFirst(kernel, old(Value()), v, val, dir)
    {
      if IsMask(v) {
        err := PutMask(v, MaskFirst(masks[v]));
      } else {
        err := PutInterval(v, RefineFirst(intervals[v - FIRST_INTERVAL]));
      }
      err := UpdateVar(kernel, v, err);
      x, d := val, dir;
      if err == 0 {
        var g := Get(Value(), v);
        err := g.0;
        if err == 0 {
          x, d := g.1, g.2;
        }
      }
    }

    method ChooseLast(kernel: Kernel, v: nat, val: nat, dir: int) returns (err: int, x: nat, d: int)
      requires Valid() && IsVar(v)
      modifies this
      ensures Valid() && Reply(err, Value(), x, d) == SetLast(kernel, old(Value()), v, val, dir)
    {
      if IsMask(v) {
        err := PutMask(v, MaskLast(masks[v]));
      } else {
        err := PutInterval(v, RefineLast(intervals[v - FIRST_INTERVAL]));
      }
      err := UpdateVar(kernel, v, err);
      x, d := val, dir;
      if err == 0 {
        var g := Get(Value(), v);
        err := g.0;
        if err == 0 {
          x, d := g.1, g.2;
        }
      }
    }
  }
}
