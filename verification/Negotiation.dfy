/** Choosing one configuration: every step narrows, and a finished choice is decided. */
module Negotiation {
  import opened Arith
  import opened Masks
  import opened Intervals
  import opened IntervalEnds
  import opened HwParams

  /** Every variable has a value left, and integer intervals are closed. */
  ghost predicate WellFormed(p: Params) {
    && (forall k :: 0 <= k < 3 ==> p.masks[k] != {})
    && (forall k :: 0 <= k < 12 ==> p.intervals[k].Closed())
  }

  /** As sets of configurations, q allows no more than p. */
  ghost predicate Narrower(q: Params, p: Params) {
    && (forall k :: 0 <= k < 3 ==> q.masks[k] <= p.masks[k])
    && (forall k :: 0 <= k < 12 ==> Subset(q.intervals[k], p.intervals[k]))
  }

  /** What is assumed of the kernel: when it succeeds it has only narrowed, and left something of
      every variable. */
  ghost predicate Narrowing(kernel: Kernel) {
    forall p: Params {:trigger kernel(p)} :: WellFormed(p) && kernel(p).0 >= 0 ==>
      WellFormed(kernel(p).1) && Narrower(kernel(p).1, p)
  }

  lemma {:induction false} NarrowerTrans(r: Params, q: Params, p: Params)
    requires Narrower(r, q) && Narrower(q, p)
    ensures Narrower(r, p)
  {
  }

  /** There are such kernels: one that leaves everything as it is, for one. */
  lemma {:induction false} NarrowingExists() returns (kernel: Kernel)
    ensures Narrowing(kernel) && forall p :: kernel(p) == (0, p)
  {
    kernel := p => (0, p);
    forall p: Params {:trigger kernel(p)}
      ensures Narrower(kernel(p).1, p)
    {
    }
  }

  /** A local change of one variable that kept part of it. */
  lemma {:induction false} LocalNarrows(p: Params, q: Params, v: nat)
    requires IsVar(v) && WellFormed(p)
    requires if IsMask(v) then q == WithMask(p, v, q.masks[v]) && q.masks[v] != {} && q.masks[v] <= p.masks[v]
             else
               q == WithInterval(p, v, IntervalOf(q, v)) && IntervalOf(q, v).Closed() &&
               Subset(IntervalOf(q, v), IntervalOf(p, v))
    ensures WellFormed(q) && Narrower(q, p)
  {
  }

  lemma {:induction false} UpdateNarrows(kernel: Kernel, p: Params, v: nat, changed: int)
    requires IsVar(v) && Narrowing(kernel) && WellFormed(p) && Update(kernel, p, v, changed).err == 0
    ensures WellFormed(Update(kernel, p, v, changed).p) && Narrower(Update(kernel, p, v, changed).p, p)
  {
    var p1 := Marked(p, v, changed);
    assert WellFormed(p1) && Narrower(p1, p);
    if p1.rmask != {} {
      assert Narrower(kernel(p1).1, p1);
    }
  }

  /** What is left of a variable lies at its low end: no mask member is less, and no interval member
      but of the same unit, where there is no least one. */
  ghost predicate WithinFirst(q: Params, p: Params, v: nat)
    requires IsVar(v)
  {
    if IsMask(v) then forall n, m :: n in q.masks[v] && m in p.masks[v] ==> n <= m
    else AtLowEnd(IntervalOf(q, v), IntervalOf(p, v))
  }

  ghost predicate WithinLast(q: Params, p: Params, v: nat)
    requires IsVar(v)
  {
    if IsMask(v) then forall n, m :: n in q.masks[v] && m in p.masks[v] ==> n >= m
    else AtHighEnd(IntervalOf(q, v), IntervalOf(p, v))
  }

  lemma {:induction false} MaskEndsNarrow(m: MaskSet)
    requires m != {}
    ensures MaskFirst(m).ret >= 0 && MaskFirst(m).m == {Least(m)} <= m
    ensures MaskLast(m).ret >= 0 && MaskLast(m).m == {Greatest(m)} <= m
  {
    LeastGreatest(m);
    if Single(m) {
      assert m == {Least(m)};
      assert m == {Greatest(m)};
    }
  }

  /** A successful choice of an end narrows everything, keeps a value of every variable, and
      leaves the chosen variable single, at that end. */
  lemma {:induction false} FirstNarrows(kernel: Kernel, p: Params, v: nat, val: nat, dir: int)
    requires IsVar(v) && Narrowing(kernel) && WellFormed(p) && SetFirst(kernel, p, v, val, dir).err == 0
    ensures var q := SetFirst(kernel, p, v, val, dir).p;
            WellFormed(q) && Narrower(q, p) && IsSingleVar(q, v) && WithinFirst(q, p, v)
  {
    var local := LocalFirst(p, v);
    if IsMask(v) {
      MaskEndsNarrow(p.masks[v]);
    } else {
      EndsNarrow(IntervalOf(p, v));
    }
    LocalNarrows(p, local.p, v);
    UpdateNarrows(kernel, local.p, v, local.err);
    NarrowerTrans(Step(kernel, local, v).p, local.p, p);
    if IsMask(v) {
      LeastGreatest(p.masks[v]);
    } else {
      FirstIsLow(IntervalOf(p, v), IntervalOf(Step(kernel, local, v).p, v));
    }
  }

  lemma {:induction false} LastNarrows(kernel: Kernel, p: Params, v: nat, val: nat, dir: int)
    requires IsVar(v) && Narrowing(kernel) && WellFormed(p) && SetLast(kernel, p, v, val, dir).err == 0
    ensures var q := SetLast(kernel, p, v, val, dir).p;
            WellFormed(q) && Narrower(q, p) && IsSingleVar(q, v) && WithinLast(q, p, v)
  {
    var local := LocalLast(p, v);
    if IsMask(v) {
      MaskEndsNarrow(p.masks[v]);
    } else {
      EndsNarrow(IntervalOf(p, v));
    }
    LocalNarrows(p, local.p, v);
    UpdateNarrows(kernel, local.p, v, local.err);
    NarrowerTrans(Step(kernel, local, v).p, local.p, p);
    if IsMask(v) {
      LeastGreatest(p.masks[v]);
    } else {
      LastIsHigh(IntervalOf(p, v), IntervalOf(Step(kernel, local, v).p, v));
    }
  }

  // ---------------------------------------------------------------- bounds

  /** Every value left meets the bound asked for: at least `val`, or beyond it in the direction. */
  ghost predicate MeetsMin(q: Params, v: nat, val: Word, dir: int)
    requires IsVar(v)
  {
    if IsMask(v) then forall n :: n in q.masks[v] ==> val <= n
    else forall x: real :: IntervalOf(q, v).Contains(x) ==>
           if dir > 0 then val as real < x else if dir < 0 && val > 0 then (val - 1) as real < x else val as real <= x
  }

  ghost predicate MeetsMax(q: Params, v: nat, val: Word, dir: int)
    requires IsVar(v)
  {
    if IsMask(v) then forall n :: n in q.masks[v] ==> n <= val
    else forall x: real :: IntervalOf(q, v).Contains(x) ==>
           if dir > 0 then x < (val + 1) as real else if dir < 0 then x < val as real else x <= val as real
  }

  /** A successful minimum narrows everything and is met; only a bound that cannot be
      represented, beyond the largest value, is shut out. */
  lemma {:induction false} MinNarrows(kernel: Kernel, p: Params, v: nat, val: Word, dir: int)
    requires MinArgs(v, val) && Narrowing(kernel) && WellFormed(p) && SetMin(kernel, p, v, val, dir).err == 0
    requires dir > 0 ==> val < UINT_MAX
    ensures var q := SetMin(kernel, p, v, val, dir).p;
            WellFormed(q) && Narrower(q, p) && MeetsMin(q, v, val, dir)
  {
    var local := LocalMin(p, v, val, dir);
    if !IsMask(v) {
      var i, below := IntervalOf(p, v), dir < 0 && val > 0;
      var bound: Word := if below then val - 1 else val;
      RefineMinShape(i, bound, dir > 0 || below, false);
      forall x: real
        ensures IntervalOf(local.p, v).Contains(x) <==> i.Contains(x) && Above(x, bound, dir > 0 || below)
      {
        RefineMinExact(i, bound, dir > 0 || below, false, x);
      }
    }
    LocalNarrows(p, local.p, v);
    UpdateNarrows(kernel, local.p, v, local.err);
    NarrowerTrans(Step(kernel, local, v).p, local.p, p);
    NarrowedVar(Step(kernel, local, v).p, local.p, v);
  }

  lemma {:induction false} MaxNarrows(kernel: Kernel, p: Params, v: nat, val: Word, dir: int)
    requires IsVar(v) && Narrowing(kernel) && WellFormed(p) && SetMax(kernel, p, v, val, dir).err == 0
    requires (dir > 0 ==> val < UINT_MAX) && (dir < 0 ==> val > 0)
    ensures var q := SetMax(kernel, p, v, val, dir).p;
            WellFormed(q) && Narrower(q, p) && MeetsMax(q, v, val, dir)
  {
    var local := LocalMax(p, v, val, dir);
    if !IsMask(v) {
      var i := IntervalOf(p, v);
      var bound: Word := if dir > 0 then val + 1 else val;
      RefineMaxShape(i, bound, dir != 0, false);
      forall x: real
        ensures IntervalOf(local.p, v).Contains(x) <==> i.Contains(x) && Below(x, bound, dir != 0)
      {
        RefineMaxExact(i, bound, dir != 0, false, x);
      }
    }
    LocalNarrows(p, local.p, v);
    UpdateNarrows(kernel, local.p, v, local.err);
    NarrowerTrans(Step(kernel, local, v).p, local.p, p);
    NarrowedVar(Step(kernel, local, v).p, local.p, v);
  }

  /** Every value left is the one asked for, or strictly between it and the next integer in the direction. */
  ghost predicate MeetsSet(q: Params, v: nat, val: Word, dir: int)
    requires IsVar(v)
  {
    if IsMask(v)
    then forall n :: n in q.masks[v] ==> n == (if dir > 0 then val + 1 else if dir < 0 then val - 1 else val)
    else forall x: real :: IntervalOf(q, v).Contains(x) ==> Point(val, dir).Contains(x)
  }

  /** The interval that a value and a direction stand for. */
  function Point(val: Word, dir: int): Interval {
    if dir < 0 && val > 0 then Interval(val - 1, val, true, true, false, false)
    else if dir > 0 && val < UINT_MAX then Interval(val, val + 1, true, true, false, false)
    else Interval(val, val, false, false, true, false)
  }

  /** A value that was set narrows everything and is the only one left. */
  lemma {:induction false} SetNarrows(kernel: Kernel, p: Params, v: nat, val: Word, dir: int)
    requires SetArgs(v, val, dir) && Narrowing(kernel) && WellFormed(p)
    requires Step(kernel, LocalSet(p, v, val, dir), v).err == 0 && (dir > 0 ==> val < UINT_MAX)
    ensures var q := Step(kernel, LocalSet(p, v, val, dir), v).p;
            WellFormed(q) && Narrower(q, p) && MeetsSet(q, v, val, dir)
  {
    var local := LocalSet(p, v, val, dir);
    if !IsMask(v) {
      RefineExact(IntervalOf(p, v), Point(val, dir));
      assert local.p == WithInterval(p, v, Refine(IntervalOf(p, v), Point(val, dir)).i);
    }
    LocalNarrows(p, local.p, v);
    UpdateNarrows(kernel, local.p, v, local.err);
    NarrowerTrans(Step(kernel, local, v).p, local.p, p);
    NarrowedVar(Step(kernel, local, v).p, local.p, v);
  }

  lemma {:induction false} NarrowedVar(q: Params, p: Params, v: nat)
    requires IsVar(v) && Narrower(q, p)
    ensures if IsMask(v) then q.masks[v] <= p.masks[v] else Subset(IntervalOf(q, v), IntervalOf(p, v))
  {
  }

  /** What is single stays single while something of it is left. */
  lemma {:induction false} SinglesStay(q: Params, p: Params, v: nat)
    requires IsVar(v) && WellFormed(p) && WellFormed(q) && Narrower(q, p) && IsSingleVar(p, v)
    ensures IsSingleVar(q, v)
  {
    if !IsMask(v) {
      assert Subset(q.intervals[v - FIRST_INTERVAL], p.intervals[v - FIRST_INTERVAL]);
      SinglePersists(IntervalOf(p, v), IntervalOf(q, v));
    }
  }

  // ---------------------------------------------------------------- the nine choices

  datatype Choice = Choice(v: nat, last: bool)

  const CHOICES: seq<Choice> := [
    Choice(ACCESS, false), Choice(FORMAT, false), Choice(SUBFORMAT, false),
    Choice(CHANNELS, false), Choice(RATE, false),
    Choice(BUFFER_SIZE, true), Choice(PERIOD_SIZE, false), Choice(PERIOD_TIME, false), Choice(TICK_TIME, false)]

  function ChooseOne(kernel: Kernel, p: Params, c: Choice): Reply
    requires IsVar(c.v)
  {
    if c.last then SetLast(kernel, p, c.v, 0, 0) else SetFirst(kernel, p, c.v, 0, 0)
  }

  /** The choices made one after the other until one fails. */
  function ChooseAll(kernel: Kernel, p: Params, cs: seq<Choice>): Outcome
    requires forall c :: c in cs ==> IsVar(c.v)
    decreases |cs|
  {
    if cs == [] then Outcome(0, p)
    else
      var r := ChooseOne(kernel, p, cs[0]);
      if r.err < 0 then Outcome(r.err, r.p) else ChooseAll(kernel, r.p, cs[1..])
  }

  lemma {:induction false} ChooseOneCode(kernel: Kernel, p: Params, c: Choice)
    requires IsVar(c.v)
    ensures ChooseOne(kernel, p, c).err <= 0
  {
    StepCode(kernel, LocalFirst(p, c.v), c.v);
    StepCode(kernel, LocalLast(p, c.v), c.v);
  }

  /** One choice made: it narrowed everything, left something of every variable, and left variable
      v single, at its low end or, for a last choice, at its high end. */
  ghost predicate Made(q: Params, p: Params, v: nat, last: bool)
    requires IsVar(v)
  {
    && WellFormed(q) && Narrower(q, p) && IsSingleVar(q, v)
    && (if last then WithinLast(q, p, v) else WithinFirst(q, p, v))
  }

  lemma {:induction false} OneMade(kernel: Kernel, p: Params, c: Choice)
    requires IsVar(c.v) && Narrowing(kernel) && WellFormed(p) && ChooseOne(kernel, p, c).err >= 0
    ensures Made(ChooseOne(kernel, p, c).p, p, c.v, c.last)
  {
    ChooseOneCode(kernel, p, c);
    if c.last {
      LastNarrows(kernel, p, c.v, 0, 0);
    } else {
      FirstNarrows(kernel, p, c.v, 0, 0);
    }
  }

  /** The configurations between the choices of a finished list. */
  ghost predicate Chain(ps: seq<Params>, cs: seq<Choice>)
    requires forall c :: c in cs ==> IsVar(c.v)
  {
    && |ps| == |cs| + 1
    && forall k :: 0 <= k < |cs| ==> cs[k] in cs && Made(ps[k + 1], ps[k], cs[k].v, cs[k].last)
  }

  lemma {:induction false} Longer(p: Params, rest: seq<Params>, cs: seq<Choice>)
    requires cs != [] && forall c :: c in cs ==> IsVar(c.v)
    requires Chain(rest, cs[1..]) && Made(rest[0], p, cs[0].v, cs[0].last)
    ensures Chain([p] + rest, cs)
  {
    hide Made;
    var ps := [p] + rest;
    forall k | 0 <= k < |cs|
      ensures cs[k] in cs && Made(ps[k + 1], ps[k], cs[k].v, cs[k].last)
    {
      if k > 0 {
        assert cs[1..][k - 1] == cs[k] && rest[k - 1] == ps[k] && rest[k] == ps[k + 1];
      }
    }
  }

  lemma {:induction false} ChoiceChain(kernel: Kernel, p: Params, cs: seq<Choice>) returns (ps: seq<Params>)
    requires forall c :: c in cs ==> IsVar(c.v)
    requires Narrowing(kernel) && WellFormed(p) && ChooseAll(kernel, p, cs).err == 0
    ensures Chain(ps, cs) && |ps| == |cs| + 1 && ps[0] == p && ps[|cs|] == ChooseAll(kernel, p, cs).p
    decreases |cs|
  {
    if cs == [] {
      ps := [p];
    } else {
      var r := ChooseOne(kernel, p, cs[0]);
      assert r.err >= 0 && ChooseAll(kernel, p, cs) == ChooseAll(kernel, r.p, cs[1..]);
      OneMade(kernel, p, cs[0]);
      assert WellFormed(r.p);
      hide *;
      var rest := ChoiceChain(kernel, r.p, cs[1..]);
      Longer(p, rest, cs);
      ps := [p] + rest;
    }
  }

  /** The nine choices: access 0, format 1, subformat 2, channels 10, rate 11, buffer size 17 (the
      only one taken at its high end), period size 13, period time 12, tick time 19. */
  ghost predicate NineChoices(ps: seq<Params>, p: Params, q: Params) {
    && |ps| == 10 && ps[0] == p && ps[9] == q
    && Made(ps[1], ps[0], 0, false) && Made(ps[2], ps[1], 1, false) && Made(ps[3], ps[2], 2, false)
    && Made(ps[4], ps[3], 10, false) && Made(ps[5], ps[4], 11, false) && Made(ps[6], ps[5], 17, true)
    && Made(ps[7], ps[6], 13, false) && Made(ps[8], ps[7], 12, false) && Made(ps[9], ps[8], 19, false)
  }

  lemma {:induction false} NineMade(kernel: Kernel, p: Params) returns (ps: seq<Params>)
    requires Narrowing(kernel) && WellFormed(p) && ChooseAll(kernel, p, CHOICES).err == 0
    ensures NineChoices(ps, p, ChooseAll(kernel, p, CHOICES).p)
  {
    ChoiceNumbers();
    assert |CHOICES| == 9;
    hide *;
    ps := ChoiceChain(kernel, p, CHOICES);
    NineOf(ps, CHOICES);
  }

  /** The nine choices by number. */
  ghost predicate NineNumbers(cs: seq<Choice>) {
    && |cs| == 9
    && cs[0] == Choice(0, false) && cs[1] == Choice(1, false) && cs[2] == Choice(2, false)
    && cs[3] == Choice(10, false) && cs[4] == Choice(11, false) && cs[5] == Choice(17, true)
    && cs[6] == Choice(13, false) && cs[7] == Choice(12, false) && cs[8] == Choice(19, false)
  }

  lemma {:induction false} ChoiceNumbers()
    ensures NineNumbers(CHOICES) && forall c :: c in CHOICES ==> IsVar(c.v)
  {
  }

  lemma {:induction false} NineOf(ps: seq<Params>, cs: seq<Choice>)
    requires NineNumbers(cs) && (forall c :: c in cs ==> IsVar(c.v)) && Chain(ps, cs)
    ensures |ps| == 10 && NineChoices(ps, ps[0], ps[9])
  {
    hide Made;
    assert |ps| == 10;
    assert forall k :: 0 <= k < 9 ==> cs[k] in cs && Made(ps[k + 1], ps[k], cs[k].v, cs[k].last);
    hide Chain;
  }

  /** A finished choice has narrowed the input and decided every chosen variable. */
  lemma {:induction false} ChoiceDecides(kernel: Kernel, p: Params, cs: seq<Choice>)
    requires forall c :: c in cs ==> IsVar(c.v)
    requires Narrowing(kernel) && WellFormed(p) && ChooseAll(kernel, p, cs).err == 0
    ensures var q := ChooseAll(kernel, p, cs).p;
            && WellFormed(q) && Narrower(q, p)
            && forall c :: c in cs ==> IsSingleVar(q, c.v)
    decreases |cs|
  {
    if cs != [] {
      var r := ChooseOne(kernel, p, cs[0]);
      ChooseOneCode(kernel, p, cs[0]);
      if cs[0].last {
        LastNarrows(kernel, p, cs[0].v, 0, 0);
      } else {
        FirstNarrows(kernel, p, cs[0].v, 0, 0);
      }
      ChoiceDecides(kernel, r.p, cs[1..]);
      var q := ChooseAll(kernel, r.p, cs[1..]).p;
      NarrowerTrans(q, r.p, p);
      SinglesStay(q, r.p, cs[0].v);
    }
  }

  method ChooseInPlace(params: ParamBlock, kernel: Kernel, c: Choice) returns (err: int)
    requires params.Valid() && IsVar(c.v)
    modifies params
    ensures params.Valid()
    ensures err == ChooseOne(kernel, old(params.Value()), c).err
    ensures params.Value() == ChooseOne(kernel, old(params.Value()), c).p
  {
    var x, d;
    if c.last {
      err, x, d := params.ChooseLast(kernel, c.v, 0, 0);
    } else {
      err, x, d := params.ChooseFirst(kernel, c.v, 0, 0);
    }
  }

  /** The choices one after the other, up to the first that fails. */
  method ChooseEach(params: ParamBlock, kernel: Kernel, choices: seq<Choice>) returns (err: int)
    requires params.Valid() && forall c :: c in choices ==> IsVar(c.v)
    modifies params
    ensures params.Valid() && Outcome(err, params.Value()) == ChooseAll(kernel, old(params.Value()), choices)
  {
    var i := 0;
    while i < |choices|
      invariant i <= |choices| && params.Valid()
      invariant ChooseAll(kernel, params.Value(), choices[i..]) == ChooseAll(kernel, old(params.Value()), choices)
    {
      err := ChooseInPlace(params, kernel, choices[i]);
      if err < 0 {
        return;
      }
      i := i + 1;
    }
    err := 0;
  }

  lemma {:induction false} NineSingle(q: Params)
    requires forall c :: c in CHOICES ==> IsSingleVar(q, c.v)
    ensures forall v: nat :: v in {0, 1, 2, 10, 11, 12, 13, 17, 19} ==> IsSingleVar(q, v)
  {
    hide IsSingleVar;
    ChoiceNumbers();
    hide CHOICES;
    var cs := CHOICES;
    assert cs[0] in cs && cs[1] in cs && cs[2] in cs && cs[3] in cs && cs[4] in cs;
    assert cs[5] in cs && cs[6] in cs && cs[7] in cs && cs[8] in cs;
  }

  /** snd_pcm_hw_params_choose */
  method ChooseParams(params: ParamBlock, kernel: Kernel) returns (err: int)
    requires params.Valid()
    modifies params
    ensures params.Valid() && Outcome(err, params.Value()) == ChooseAll(kernel, old(params.Value()), CHOICES)
    ensures Narrowing(kernel) && WellFormed(old(params.Value())) && err == 0 ==>
      && WellFormed(params.Value()) && Narrower(params.Value(), old(params.Value()))
      && (forall v: nat :: v in {0, 1, 2, 10, 11, 12, 13, 17, 19} ==> IsSingleVar(params.Value(), v))
      && exists ps :: NineChoices(ps, old(params.Value()), params.Value())
  {
    ghost var p := params.Value();
    if Narrowing(kernel) && WellFormed(p) && ChooseAll(kernel, p, CHOICES).err == 0 {
      ChoiceDecides(kernel, p, CHOICES);
      NineSingle(ChooseAll(kernel, p, CHOICES).p);
      ghost var ps := NineMade(kernel, p);
    }
    hide NineChoices, Narrowing, WellFormed, Narrower, CHOICES;
    err := ChooseEach(params, kernel, CHOICES);
  }
}
