/** Volumes and decibel gains (in hundredths) for the linear-in-decibel entries. Signed overflow,
    which C leaves undefined, is outside the model; the one narrowing cast is kept. */
module DbConvert {
  import opened Arith
  import opened Options
  import opened TlvParse

  /** The four words of a scale or min/max entry, read. */
  datatype Entry = Scale(min: int, step: nat, mute: bool) | MinMax(min: int, max: int, mute: bool)

  function ReadEntry(typ: Word, w2: Word, w3: Word): Option<Entry> {
    if typ == DB_SCALE then Some(Scale(ToInt(w2), w3 % 0x10000, (w3 / 0x10000) % 2 == 1))
    else if typ == DB_MINMAX then Some(MinMax(ToInt(w2), ToInt(w3), false))
    else if typ == DB_MINMAX_MUTE then Some(MinMax(ToInt(w2), ToInt(w3), true))
    else None
  }

  function ToDb(e: Entry, rangemin: int, rangemax: int, volume: int): int {
    match e
    case Scale(min, step, mute) =>
      if mute && volume == rangemin then MUTE else (volume - rangemin) * step + min
    case MinMax(min, max, mute) =>
      if volume <= rangemin || rangemax <= rangemin then (if mute then MUTE else min)
      else if volume >= rangemax then max
      else TruncDiv((max - min) * (volume - rangemin), rangemax - rangemin) + min
  }

  function DbRange(e: Entry, rangemin: int, rangemax: int): (int, int) {
    match e
    case Scale(min, step, mute) => (if mute then MUTE else min, min + step * (rangemax - rangemin))
    case MinMax(min, max, mute) => (if mute then MUTE else min, max)
  }

  function FromDbMinMax(rangemin: int, rangemax: int, gain: int, up: bool, min: int, max: int, mute: bool): int {
    if gain <= min then (if gain > MUTE && up && mute then rangemin + 1 else rangemin)
    else if gain >= max then rangemax
    else
      var v := (gain - min) * (rangemax - rangemin);
      TruncDiv(if up then v + (max - min) - 1 else v, max - min) + rangemin
  }

  function FromDb(e: Entry, rangemin: int, rangemax: int, gain: int, up: bool): int {
    match e
    case Scale(min, step, mute) =>
      FromDbMinMax(rangemin, rangemax, gain, up, min, min + ToInt(step * (rangemax - rangemin)), mute)
    case MinMax(min, max, mute) => FromDbMinMax(rangemin, rangemax, gain, up, min, max, mute)
  }

  /** More than one volume, more than one gain, silence below both, and a span that fits an int. */
  ghost predicate Proper(e: Entry, rangemin: int, rangemax: int) {
    && rangemin < rangemax
    && (e.mute ==> MUTE < e.min)
    && match e
       case Scale(min, step, mute) => step > 0 && step * (rangemax - rangemin) <= INT_MAX
       case MinMax(min, max, mute) => min < max
  }

  ghost predicate GainInRange(e: Entry, rangemin: int, rangemax: int, gain: int) {
    DbRange(e, rangemin, rangemax).0 <= gain <= DbRange(e, rangemin, rangemax).1
  }

  // ---------------------------------------------------------------- quotients

  lemma {:induction false} FloorLeast(a: int, b: int, k: int)
    requires 0 < b
    ensures k <= a / b <==> k * b <= a
  {
    DivBounds(a, b);
    if k <= a / b {
      MulMono(k, a / b, b);
    } else {
      MulMono(a / b + 1, k, b);
    }
  }

  /** Rounding a quotient up by adding one less than the divisor. */
  lemma {:induction false} CeilLeast(a: int, b: int, k: int)
    requires 0 < b
    ensures (a + b - 1) / b <= k <==> a <= k * b
  {
    FloorLeast(a + b - 1, b, k + 1);
    assert (k + 1) * b == k * b + b;
  }

  // ---------------------------------------------------------------- values

  /** Gain of the k-th volume step of a min/max entry. */
  lemma {:induction false} MinMaxGain(e: Entry, rangemin: int, rangemax: int, v: int, g: int)
    requires e.MinMax? && Proper(e, rangemin, rangemax) && rangemin < v <= rangemax
    ensures ToDb(e, rangemin, rangemax, v) == (e.max - e.min) * (v - rangemin) / (rangemax - rangemin) + e.min
    ensures g <= ToDb(e, rangemin, rangemax, v)
       <==> (g - e.min) * (rangemax - rangemin) <= (e.max - e.min) * (v - rangemin)
  {
    var d, r, k := e.max - e.min, rangemax - rangemin, v - rangemin;
    MulMono(0, d, k);
    if v == rangemax {
      DivUnique(d * r, r, d);
      assert (d + 1) * r == d * r + r;
    }
    FloorLeast(d * k, r, g - e.min);
  }

  /** Volume that rounding gives for a gain strictly inside. */
  lemma {:induction false} FromInside(rangemin: int, rangemax: int, gain: int, min: int, max: int, mute: bool, k: int)
    requires rangemin < rangemax && min < gain < max
    ensures FromDbMinMax(rangemin, rangemax, gain, true, min, max, mute) <= rangemin + k
       <==> (gain - min) * (rangemax - rangemin) <= k * (max - min)
    ensures rangemin + k <= FromDbMinMax(rangemin, rangemax, gain, false, min, max, mute)
       <==> k * (max - min) <= (gain - min) * (rangemax - rangemin)
  {
    var v := (gain - min) * (rangemax - rangemin);
    MulMono(0, gain - min, rangemax - rangemin);
    CeilLeast(v, max - min, k);
    FloorLeast(v, max - min, k);
  }

  /** A scale's span as a quotient: dividing by it is dividing by the step. */
  lemma {:induction false} ScaleInside(g: int, step: int, r: int, k: int)
    requires 0 < step && 0 < r
    ensures g * r <= k * (step * r) <==> g <= k * step
    ensures k * (step * r) <= g * r <==> k * step <= g
  {
    assert k * (step * r) == (k * step) * r;
    if g <= k * step {
      MulMono(g, k * step, r);
    } else {
      MulMono(k * step + 1, g, r);
      assert (k * step + 1) * r == (k * step) * r + r;
    }
    if k * step <= g {
      MulMono(k * step, g, r);
    } else {
      MulMono(g + 1, k * step, r);
      assert (g + 1) * r == g * r + r;
    }
  }

  /** Whether a volume of the range reaches the gain, in terms of its steps. */
  ghost predicate Reaches(e: Entry, rangemin: int, rangemax: int, gain: int, k: int) {
    match e
    case Scale(min, step, mute) => gain - min <= k * step
    case MinMax(min, max, mute) => (gain - min) * (rangemax - rangemin) <= k * (max - min)
  }

  lemma {:induction false} GainReaches(e: Entry, rangemin: int, rangemax: int, gain: int, v: int)
    requires Proper(e, rangemin, rangemax) && rangemin <= v <= rangemax
    ensures v > rangemin || !e.mute ==>
      (gain <= ToDb(e, rangemin, rangemax, v) <==> Reaches(e, rangemin, rangemax, gain, v - rangemin))
    ensures v == rangemin && e.mute ==> ToDb(e, rangemin, rangemax, v) == MUTE
    ensures v == rangemin && !e.mute ==> ToDb(e, rangemin, rangemax, v) == e.min
  {
    if e.MinMax? {
      if v > rangemin {
        MinMaxGain(e, rangemin, rangemax, v, gain);
        assert (e.max - e.min) * (v - rangemin) == (v - rangemin) * (e.max - e.min);
      } else if gain > e.min {
        MulMono(1, gain - e.min, rangemax - rangemin);
      } else {
        MulMono(gain - e.min, 0, rangemax - rangemin);
      }
    }
  }

  /** The top of the gain range, which only the last volume reaches. */
  lemma {:induction false} TopGain(e: Entry, rangemin: int, rangemax: int, k: int)
    requires Proper(e, rangemin, rangemax)
    ensures Reaches(e, rangemin, rangemax, DbRange(e, rangemin, rangemax).1, k) <==> rangemax - rangemin <= k
    ensures ToDb(e, rangemin, rangemax, rangemax) == DbRange(e, rangemin, rangemax).1
    ensures DbRange(e, rangemin, rangemax).1 > e.min
  {
    var r := rangemax - rangemin;
    var d := if e.Scale? then e.step else e.max - e.min;
    assert r * d == d * r && (k + 1) * d == k * d + d;
    MulMono(1, r, d);
    if r <= k {
      MulMono(r, k, d);
    } else {
      MulMono(k + 1, r, d);
    }
  }

  /** Rounding a gain strictly inside the range. */
  lemma {:induction false} InsideRounds(e: Entry, rangemin: int, rangemax: int, gain: int, k: int)
    requires Proper(e, rangemin, rangemax) && e.min < gain < DbRange(e, rangemin, rangemax).1
    ensures FromDb(e, rangemin, rangemax, gain, true) <= rangemin + k <==> Reaches(e, rangemin, rangemax, gain, k)
    ensures rangemin + k <= FromDb(e, rangemin, rangemax, gain, false) <==>
              (if e.Scale? then k * e.step <= gain - e.min
               else k * (e.max - e.min) <= (gain - e.min) * (rangemax - rangemin))
  {
    var r := rangemax - rangemin;
    match e
    case Scale(min, step, mute) =>
      MulMono(1, r, step);
      assert r * step == step * r;
      FromInside(rangemin, rangemax, gain, min, min + step * r, mute, k);
      ScaleInside(gain - min, step, r, k);
    case MinMax(min, max, mute) =>
      FromInside(rangemin, rangemax, gain, min, max, mute, k);
  }

  /** The first volume above silence reaches the lowest gain. */
  lemma {:induction false} LowGain(e: Entry, rangemin: int, rangemax: int, gain: int, k: int)
    requires Proper(e, rangemin, rangemax) && gain <= e.min && k >= 0
    ensures Reaches(e, rangemin, rangemax, gain, k)
  {
    MulMono(0, k, if e.Scale? then e.step else e.max - e.min);
    MulMono(gain - e.min, 0, rangemax - rangemin);
  }

  // ---------------------------------------------------------------- adjunction

  /** Rounding up gives the least volume whose gain is at least the one asked for. */
  lemma {:induction false} RoundUpIsLeast(e: Entry, rangemin: int, rangemax: int, gain: int)
    requires Proper(e, rangemin, rangemax) && GainInRange(e, rangemin, rangemax, gain)
    ensures var v := FromDb(e, rangemin, rangemax, gain, true);
            && rangemin <= v <= rangemax
            && forall u :: rangemin <= u <= rangemax ==> (gain <= ToDb(e, rangemin, rangemax, u) <==> v <= u)
  {
    var v, top := FromDb(e, rangemin, rangemax, gain, true), DbRange(e, rangemin, rangemax).1;
    TopGain(e, rangemin, rangemax, 0);
    ScaleSpan(e, rangemin, rangemax);
    if e.min < gain < top {
      InsideRounds(e, rangemin, rangemax, gain, 0);
      InsideRounds(e, rangemin, rangemax, gain, rangemax - rangemin);
      NoneAtBottom(e, rangemin, rangemax, gain);
      AllAtTop(e, rangemin, rangemax, gain);
    }
    forall u | rangemin <= u <= rangemax
      ensures gain <= ToDb(e, rangemin, rangemax, u) <==> v <= u
    {
      GainReaches(e, rangemin, rangemax, gain, u);
      if gain <= e.min {
        LowGain(e, rangemin, rangemax, gain, u - rangemin);
      } else if gain >= top {
        TopGain(e, rangemin, rangemax, u - rangemin);
      } else {
        InsideRounds(e, rangemin, rangemax, gain, u - rangemin);
      }
    }
  }

  /** Rounding down gives a volume whose gain is at most the one asked for; for a scale, the greatest. */
  lemma {:induction false} RoundDownIsBelow(e: Entry, rangemin: int, rangemax: int, gain: int)
    requires Proper(e, rangemin, rangemax) && GainInRange(e, rangemin, rangemax, gain)
    ensures var v := FromDb(e, rangemin, rangemax, gain, false);
            && rangemin <= v <= rangemax
            && ToDb(e, rangemin, rangemax, v) <= gain
            && (e.Scale? ==> forall u :: v < u <= rangemax ==> gain < ToDb(e, rangemin, rangemax, u))
  {
    var v, top := FromDb(e, rangemin, rangemax, gain, false), DbRange(e, rangemin, rangemax).1;
    TopGain(e, rangemin, rangemax, 0);
    ScaleSpan(e, rangemin, rangemax);
    if e.min < gain < top {
      InsideRounds(e, rangemin, rangemax, gain, 0);
      InsideRounds(e, rangemin, rangemax, gain, rangemax - rangemin + 1);
      DownInside(e, rangemin, rangemax, gain);
    } else if gain <= e.min && e.Scale? {
      forall u | v < u <= rangemax
        ensures gain < ToDb(e, rangemin, rangemax, u)
      {
        MulMono(1, u - rangemin, e.step);
      }
    }
  }

  /** The cast of a scale's span loses nothing. */
  lemma {:induction false} ScaleSpan(e: Entry, rangemin: int, rangemax: int)
    requires Proper(e, rangemin, rangemax)
    ensures e.Scale? ==> 0 < e.step * (rangemax - rangemin) == ToInt(e.step * (rangemax - rangemin))
  {
    if e.Scale? {
      MulMono(1, rangemax - rangemin, e.step);
      assert (rangemax - rangemin) * e.step == e.step * (rangemax - rangemin);
    }
  }

  lemma {:induction false} NoneAtBottom(e: Entry, rangemin: int, rangemax: int, gain: int)
    requires Proper(e, rangemin, rangemax) && e.min < gain
    ensures !Reaches(e, rangemin, rangemax, gain, 0)
  {
    MulMono(1, gain - e.min, rangemax - rangemin);
  }

  lemma {:induction false} AllAtTop(e: Entry, rangemin: int, rangemax: int, gain: int)
    requires Proper(e, rangemin, rangemax) && gain <= DbRange(e, rangemin, rangemax).1
    ensures Reaches(e, rangemin, rangemax, gain, rangemax - rangemin)
  {
    var r := rangemax - rangemin;
    if e.MinMax? {
      MulMono(gain - e.min, e.max - e.min, r);
      assert r * (e.max - e.min) == (e.max - e.min) * r;
    } else {
      assert r * e.step == e.step * r;
    }
  }

  /** Rounding down strictly inside the range. */
  lemma {:induction false} DownInside(e: Entry, rangemin: int, rangemax: int, gain: int)
    requires Proper(e, rangemin, rangemax) && e.min < gain < DbRange(e, rangemin, rangemax).1
    ensures var v := FromDb(e, rangemin, rangemax, gain, false);
            && rangemin <= v < rangemax
            && ToDb(e, rangemin, rangemax, v) <= gain
            && (e.Scale? ==> forall u :: v < u <= rangemax ==> gain < ToDb(e, rangemin, rangemax, u))
  {
    var v, r := FromDb(e, rangemin, rangemax, gain, false), rangemax - rangemin;
    InsideRounds(e, rangemin, rangemax, gain, 0);
    InsideRounds(e, rangemin, rangemax, gain, v - rangemin);
    InsideRounds(e, rangemin, rangemax, gain, r);
    MulMono(1, gain - e.min, r);
    match e
    case Scale(min, step, mute) =>
      assert r * step == step * r;
      forall u | v < u <= rangemax
        ensures gain < ToDb(e, rangemin, rangemax, u)
      {
        InsideRounds(e, rangemin, rangemax, gain, u - rangemin);
      }
    case MinMax(min, max, mute) =>
      assert r * (max - min) == (max - min) * r;
      MulMono(gain - min + 1, max - min, r);
      assert (gain - min + 1) * r == (gain - min) * r + r;
      if v > rangemin {
        MinMaxGain(e, rangemin, rangemax, v, gain + 1);
        assert (max - min) * (v - rangemin) == (v - rangemin) * (max - min);
      }
  }

  /** A gain at or below the bottom gives the lowest volume, or, for silence below it, the next one
      when rounded up; only silence itself gives the silent one. A gain at or above the top gives the
      highest volume. */
  lemma {:induction false} GainOutside(e: Entry, rangemin: int, rangemax: int, gain: int, up: bool)
    requires Proper(e, rangemin, rangemax)
    ensures gain <= e.min ==>
      FromDb(e, rangemin, rangemax, gain, up) == if up && e.mute && gain > -9_999_999 then rangemin + 1 else rangemin
    ensures gain >= DbRange(e, rangemin, rangemax).1 ==> FromDb(e, rangemin, rangemax, gain, up) == rangemax
  {
    ScaleSpan(e, rangemin, rangemax);
    TopGain(e, rangemin, rangemax, 0);
  }

  /** The reported range is that of the two end volumes. */
  lemma {:induction false} EndGains(e: Entry, rangemin: int, rangemax: int)
    requires Proper(e, rangemin, rangemax)
    ensures DbRange(e, rangemin, rangemax)
         == (ToDb(e, rangemin, rangemax, rangemin), ToDb(e, rangemin, rangemax, rangemax))
  {
    TopGain(e, rangemin, rangemax, 0);
  }

  /** Rounding the gain down gives the greatest volume whose gain is at most that one. */
  ghost predicate DownIsGreatest(e: Entry, rangemin: int, rangemax: int, gain: int) {
    forall u :: FromDb(e, rangemin, rangemax, gain, false) < u <= rangemax ==> gain < ToDb(e, rangemin, rangemax, u)
  }

  /** For a min/max entry that need not be so: gain by gain, it is so exactly when what the
      division drops leaves room for one more step of the raw span. */
  lemma {:induction false} RoundDownGreatestAt(e: Entry, rangemin: int, rangemax: int, gain: int)
    requires e.MinMax? && Proper(e, rangemin, rangemax) && GainInRange(e, rangemin, rangemax, gain)
    ensures var d, r := e.max - e.min, rangemax - rangemin;
            var room := gain < e.min || gain == e.max || ((gain - e.min) * r) % d + r <= d;
            DownIsGreatest(e, rangemin, rangemax, gain) <==> room
  {
    if gain < e.min {
      BelowAll(e, rangemin, rangemax, gain);
    } else if gain < e.max {
      var v := DownQuotient(e, rangemin, rangemax, gain);
      MinMaxGain(e, rangemin, rangemax, v + 1, gain + 1);
      if gain < ToDb(e, rangemin, rangemax, v + 1) {
        forall u | v < u <= rangemax
          ensures gain < ToDb(e, rangemin, rangemax, u)
        {
          MinMaxGain(e, rangemin, rangemax, u, gain + 1);
          MulMono(v + 1 - rangemin, u - rangemin, e.max - e.min);
          MulSwap(v + 1 - rangemin, u - rangemin, e.max - e.min);
        }
      }
      NextStep(gain - e.min, e.max - e.min, rangemax - rangemin, v - rangemin);
    }
  }

  lemma {:induction false} MulSwap(a: int, b: int, d: int)
    ensures a * d == d * a && b * d == d * b
  {
  }

  lemma {:induction false} BelowAll(e: Entry, rangemin: int, rangemax: int, gain: int)
    requires e.MinMax? && Proper(e, rangemin, rangemax) && gain < e.min
    ensures DownIsGreatest(e, rangemin, rangemax, gain)
  {
    forall u | rangemin < u <= rangemax
      ensures gain < ToDb(e, rangemin, rangemax, u)
    {
      MinMaxGain(e, rangemin, rangemax, u, e.min);
      MulMono(0, u - rangemin, e.max - e.min);
      MulSwap(0, u - rangemin, e.max - e.min);
    }
  }

  /** The volume that rounding down gives, as a quotient; it is not the last one. */
  lemma {:induction false} DownQuotient(e: Entry, rangemin: int, rangemax: int, gain: int) returns (v: int)
    requires e.MinMax? && Proper(e, rangemin, rangemax) && e.min <= gain < e.max
    ensures v == FromDb(e, rangemin, rangemax, gain, false) && rangemin <= v < rangemax
    ensures v - rangemin == ((gain - e.min) * (rangemax - rangemin)) / (e.max - e.min)
  {
    v := FromDb(e, rangemin, rangemax, gain, false);
    var d, r := e.max - e.min, rangemax - rangemin;
    MulMono(0, gain - e.min, r);
    if gain == e.min {
      DivUnique(0, d, 0);
    } else {
      DownInside(e, rangemin, rangemax, gain);
    }
  }

  /** The next volume's share reaches the next gain exactly when the remainder leaves room. */
  lemma {:induction false} NextStep(g: int, d: int, r: int, k: int)
    requires 0 < d && k == (g * r) / d
    ensures (g + 1) * r <= d * (k + 1) <==> (g * r) % d + r <= d
  {
    var x := g * r;
    assert x == d * (x / d) + x % d;
    assert (g + 1) * r == x + r && d * (k + 1) == d * k + d;
  }

  /** It is so for every gain of the range exactly when the raw span divides the gain span. */
  lemma {:induction false} RoundDownGreatest(e: Entry, rangemin: int, rangemax: int)
    requires e.MinMax? && Proper(e, rangemin, rangemax)
    ensures (forall gain :: GainInRange(e, rangemin, rangemax, gain) ==> DownIsGreatest(e, rangemin, rangemax, gain))
       <==> (e.max - e.min) % (rangemax - rangemin) == 0
  {
    var d, r := e.max - e.min, rangemax - rangemin;
    if d % r == 0 {
      forall gain | GainInRange(e, rangemin, rangemax, gain)
        ensures DownIsGreatest(e, rangemin, rangemax, gain)
      {
        RoundDownGreatestAt(e, rangemin, rangemax, gain);
        MultipleLeavesRoom(gain - e.min, d, r);
      }
    } else {
      QuotientFails(d, r);
      RoundDownGreatestAt(e, rangemin, rangemax, e.min + d / r);
    }
  }

  /** Multiples of a divisor of d leave remainders that are multiples of it. */
  lemma {:induction false} MultipleLeavesRoom(g: int, d: int, r: int)
    requires 0 < d && 0 < r && d % r == 0
    ensures (g * r) % d + r <= d
  {
    var q := d / r;
    assert d == q * r;
    if q <= 0 {
      MulMono(q, 0, r);
    }
    var k, m := g / q, g % q;
    assert g == k * q + m;
    assert g * r == m * r + k * d by {
      assert (k * q) * r == k * (q * r);
    }
    MulMono(0, m, r);
    MulMono(m + 1, q, r);
    assert (m + 1) * r == m * r + r;
    ModUnique(g * r, m * r, k, d);
  }

  /** The gain, above the lowest, of the first volume step, where the spans do not divide. */
  lemma {:induction false} QuotientFails(d: int, r: int)
    requires 0 < d && 0 < r && d % r != 0
    ensures 0 <= d / r < d && (d / r * r) % d + r > d
  {
    var q := d / r;
    DivBounds(d, r);
    FloorLeast(d, r, 0);
    assert (q + 1) * r == q * r + r;
    assert d == r * q + d % r;
    assert r > 1 by {
      if r == 1 {
        ModUnique(d, 0, d, 1);
      }
    }
    MulMono(0, q, r);
    MulMono(2, r, q);
    assert q * r == r * q;
    ModUnique(q * r, q * r, 0, d);
  }

  /** An entry for which rounding down misses the greatest volume. */
  lemma {:induction false} RoundDownNotGreatest()
    ensures var e := MinMax(0, 3, false);
            && Proper(e, 0, 2) && GainInRange(e, 0, 2, 1)
            && FromDb(e, 0, 2, 1, false) == 0 && ToDb(e, 0, 2, 1) <= 1
            && !DownIsGreatest(e, 0, 2, 1)
  {
    assert !(1 < ToDb(MinMax(0, 3, false), 0, 2, 1));
  }

  // ---------------------------------------------------------------- round trips

  /** A scale gives every volume back, whichever way the gain is rounded. */
  lemma {:induction false} ScaleRoundTrip(e: Entry, rangemin: int, rangemax: int, v: int, up: bool)
    requires e.Scale? && Proper(e, rangemin, rangemax) && rangemin <= v <= rangemax
    ensures FromDb(e, rangemin, rangemax, ToDb(e, rangemin, rangemax, v), up) == v
  {
    var k, gain := v - rangemin, ToDb(e, rangemin, rangemax, v);
    ScaleSpan(e, rangemin, rangemax);
    if v == rangemax {
      TopGain(e, rangemin, rangemax, 0);
    } else if v > rangemin {
      MulMono(1, k, e.step);
      MulMono(k + 1, rangemax - rangemin, e.step);
      assert (k + 1) * e.step == k * e.step + e.step;
      assert (rangemax - rangemin) * e.step == e.step * (rangemax - rangemin);
      assert (k - 1) * e.step == k * e.step - e.step;
      InsideRounds(e, rangemin, rangemax, gain, k);
      InsideRounds(e, rangemin, rangemax, gain, k - 1);
      InsideRounds(e, rangemin, rangemax, gain, k + 1);
    }
  }

  /** The gain of an inner volume of a min/max entry, k steps up, as a quotient. */
  lemma {:induction false} InnerGain(d: int, r: int, k: int)
    requires 0 < d && 0 < k < r
    ensures 0 <= d * k / r < d
    ensures (d * k / r) * r <= d * k < (d * k / r) * r + r
  {
    DivBounds(d * k, r);
    assert (d * k / r + 1) * r == (d * k / r) * r + r;
    MulMono(k + 1, r, d);
    assert (k + 1) * d == d * k + d && r * d == d * r;
    MulMono(0, k, d);
    FloorLeast(d * k, r, 0);
    FloorLeast(d * k, r, d);
  }

  /** Rounding an inner volume's own gain up gives it back exactly when its gain, times the raw
      span, lies above the previous volume's share of the gain span. */
  lemma {:induction false} InnerRoundTrip(e: Entry, rangemin: int, rangemax: int, v: int)
    requires e.MinMax? && Proper(e, rangemin, rangemax) && rangemin < v < rangemax
    ensures var d, r, k := e.max - e.min, rangemax - rangemin, v - rangemin;
            var q := d * k / r;
            var back := FromDb(e, rangemin, rangemax, ToDb(e, rangemin, rangemax, v), true);
            if q == 0 then back == (if e.mute then rangemin + 1 else rangemin)
            else back <= v && (back == v <==> (k - 1) * d < q * r)
  {
    var d, r, k := e.max - e.min, rangemax - rangemin, v - rangemin;
    var q := d * k / r;
    InnerGain(d, r, k);
    MinMaxGain(e, rangemin, rangemax, v, 0);
    if q > 0 {
      InsideRounds(e, rangemin, rangemax, q + e.min, k);
      InsideRounds(e, rangemin, rangemax, q + e.min, k - 1);
      assert d * k == k * d;
    }
  }

  ghost predicate ReturnsUp(e: Entry, rangemin: int, rangemax: int, v: int) {
    FromDb(e, rangemin, rangemax, ToDb(e, rangemin, rangemax, v), true) == v
  }

  /** Every volume of a min/max entry comes back when its gain is rounded up, exactly when the
      gain span is at least the raw span; one less is enough when the lowest volume is silence. */
  lemma {:induction false} MinMaxRoundTrip(e: Entry, rangemin: int, rangemax: int)
    requires e.MinMax? && Proper(e, rangemin, rangemax)
    ensures (forall v :: rangemin <= v <= rangemax ==> ReturnsUp(e, rangemin, rangemax, v))
       <==> e.max - e.min >= rangemax - rangemin - (if e.mute then 1 else 0)
  {
    if e.max - e.min >= rangemax - rangemin - (if e.mute then 1 else 0) {
      forall v | rangemin <= v <= rangemax
        ensures ReturnsUp(e, rangemin, rangemax, v)
      {
        WideReturns(e, rangemin, rangemax, v);
      }
    } else {
      var k := NarrowLoses(e, rangemin, rangemax);
    }
  }

  lemma {:induction false} WideReturns(e: Entry, rangemin: int, rangemax: int, v: int)
    requires e.MinMax? && Proper(e, rangemin, rangemax) && rangemin <= v <= rangemax
    requires e.max - e.min >= rangemax - rangemin - (if e.mute then 1 else 0)
    ensures ReturnsUp(e, rangemin, rangemax, v)
  {
    if rangemin < v < rangemax {
      InnerGain(e.max - e.min, rangemax - rangemin, v - rangemin);
      InnerRoundTrip(e, rangemin, rangemax, v);
      WideEnough(e.max - e.min, rangemax - rangemin, v - rangemin);
    }
  }

  lemma {:induction false} NarrowLoses(e: Entry, rangemin: int, rangemax: int) returns (k: int)
    requires e.MinMax? && Proper(e, rangemin, rangemax)
    requires e.max - e.min < rangemax - rangemin - (if e.mute then 1 else 0)
    ensures 0 < k < rangemax - rangemin && !ReturnsUp(e, rangemin, rangemax, rangemin + k)
  {
    var d, r := e.max - e.min, rangemax - rangemin;
    k := if e.mute then r / (r - d) + 1 else 1;
    if e.mute {
      TooNarrow(d, r);
    } else {
      DivUnique(d, r, 0);
    }
    InnerRoundTrip(e, rangemin, rangemax, rangemin + k);
  }

  lemma {:induction false} WideEnough(d: int, r: int, k: int)
    requires 0 < d && 0 < k < r && r - 1 <= d
    ensures d * k / r == 0 ==> k == 1 && d == r - 1
    ensures d * k / r > 0 ==> (k - 1) * d < (d * k / r) * r
  {
    InnerGain(d, r, k);
    assert (k - 1) * d == d * k - d;
    if d == r - 1 {
      assert d * k == k * r - k;
      assert (k - 1) * r == k * r - r;
      DivUnique(d * k, r, k - 1);
    } else {
      MulMono(1, k, d);
      FloorLeast(d * k, r, 1);
    }
  }

  /** A gain span at least two short of the raw span leaves two volumes above silence with one gain. */
  lemma {:induction false} TooNarrow(d: int, r: int)
    requires 0 < d < r - 1
    ensures var k := r / (r - d) + 1;
            && 1 < k < r
            && d * k / r == k - 2
            && (k - 1) * d >= (d * k / r) * r
  {
    var e := r - d;
    var k := r / e + 1;
    DivBounds(r, e);
    FloorLeast(r, e, 1);
    HalfAtMost(r, e);
    assert (k - 1) * e == (r / e) * e && k * e == (k - 1) * e + e;
    NarrowQuotient(d, r, k);
  }

  lemma {:induction false} HalfAtMost(r: int, e: int)
    requires 2 <= e < r
    ensures r / e + 1 < r
  {
    FloorLeast(r, e, r - 1);
    MulMono(2, e, r - 1);
    assert e * (r - 1) == (r - 1) * e;
    if r == 3 {
      DivUnique(3, 2, 1);
    }
  }

  lemma {:induction false} NarrowQuotient(d: int, r: int, k: int)
    requires 0 < d < r && (k - 1) * (r - d) <= r < k * (r - d) <= 2 * r
    ensures d * k / r == k - 2 && (k - 1) * d >= (k - 2) * r
  {
    assert d * k == k * r - k * (r - d);
    assert (k - 1) * d == k * r - r - (k - 1) * (r - d);
    assert (k - 2) * r == k * r - 2 * r && (k - 1) * r == k * r - r;
    DivUnique(d * k, r, k - 2);
  }

  /** An inner volume's gain, times the raw span, lies within one step of its own share. */
  lemma {:induction false} WideDown(d: int, r: int, k: int)
    requires 0 < k < r <= d
    ensures 0 < d * k / r < d
    ensures (k - 1) * d <= (d * k / r) * r < (k + 1) * d
  {
    InnerGain(d, r, k);
    WideEnough(d, r, k);
    assert (k + 1) * d == d * k + d;
  }

  /** Rounding down loses at most one step when the gain span is at least the raw span. */
  lemma {:induction false} MinMaxRoundTripDown(e: Entry, rangemin: int, rangemax: int, v: int)
    requires e.MinMax? && Proper(e, rangemin, rangemax) && rangemin <= v <= rangemax
    requires e.max - e.min >= rangemax - rangemin
    ensures v - 1 <= FromDb(e, rangemin, rangemax, ToDb(e, rangemin, rangemax, v), false) <= v
  {
    if rangemin < v < rangemax {
      var d, r, k := e.max - e.min, rangemax - rangemin, v - rangemin;
      WideDown(d, r, k);
      MinMaxGain(e, rangemin, rangemax, v, 0);
      InsideRounds(e, rangemin, rangemax, d * k / r + e.min, k - 1);
      InsideRounds(e, rangemin, rangemax, d * k / r + e.min, k + 1);
    }
  }
}
