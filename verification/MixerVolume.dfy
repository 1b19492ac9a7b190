/** Mixer volumes and switches: scaling between the user's range and the device's, and the cached
    values beside the device's own. */
module MixerVolume {
  import opened Arith

  datatype Range = Range(min: int, max: int, rawMin: int, rawMax: int) {
    predicate Same() { min == rawMin && max == rawMax }

    ghost predicate Valid() { min <= max && rawMin <= rawMax }
  }

  function FromUser(r: Range, val: int): int {
    if r.Same() then val
    else if r.min == r.max then r.rawMin
    else TruncDiv((val - r.min) * (r.rawMax - r.rawMin), r.max - r.min) + r.rawMin
  }

  function ToUser(r: Range, val: int): int {
    if r.Same() then val
    else if r.rawMin == r.rawMax then r.min
    else TruncDiv((val - r.rawMin) * (r.max - r.min), r.rawMax - r.rawMin) + r.min
  }

  // ---------------------------------------------------------------- scaling

  /** Scaling 0..b to 0..a with the quotient rounded down. */
  lemma {:induction false} ScaleDown(x: int, a: int, b: int)
    requires 0 <= x <= b && 0 < b && 0 <= a
    ensures 0 <= x * a / b <= a
    ensures (x * a / b) * b <= x * a < (x * a / b) * b + b
    ensures x == 0 ==> x * a / b == 0
    ensures x == b ==> x * a / b == a
  {
    var q := x * a / b;
    DivBounds(x * a, b);
    assert (q + 1) * b == q * b + b;
    MulMono(x, b, a);
    MulMono(0, x, a);
    assert b * a == a * b;
    assert (a + 1) * b == a * b + b;
    if q > a {
      MulMono(a + 1, q, b);
    }
    if q < 0 {
      MulMono(q + 1, 0, b);
    }
    if x == b && q < a {
      MulMono(q + 1, a, b);
    }
  }

  lemma {:induction false} ScaleMonotone(x: int, y: int, a: int, b: int)
    requires 0 <= x <= y <= b && 0 < b && 0 <= a
    ensures x * a / b <= y * a / b
  {
    ScaleDown(x, a, b);
    ScaleDown(y, a, b);
    MulMono(x, y, a);
    assert (y * a / b + 1) * b == (y * a / b) * b + b;
    if x * a / b > y * a / b {
      MulMono(y * a / b + 1, x * a / b, b);
    }
  }

  /** Both conversions keep order, stay inside the target range and map ends to ends. */
  lemma {:induction false} ConversionsMonotone(r: Range, x: int, y: int)
    requires r.Valid()
    ensures r.rawMin <= x <= y <= r.rawMax ==> r.min <= ToUser(r, x) <= ToUser(r, y) <= r.max
    ensures r.min <= x <= y <= r.max ==> r.rawMin <= FromUser(r, x) <= FromUser(r, y) <= r.rawMax
    ensures ToUser(r, r.rawMin) == r.min && FromUser(r, r.min) == r.rawMin
    ensures r.rawMin < r.rawMax ==> ToUser(r, r.rawMax) == r.max
    ensures r.min < r.max ==> FromUser(r, r.max) == r.rawMax
  {
    Forward(r.min, r.max, r.rawMin, r.rawMax, x, y);
    Forward(r.rawMin, r.rawMax, r.min, r.max, x, y);
  }

  /** One conversion, from lo..hi to min..max. */
  lemma {:induction false} Forward(min: int, max: int, lo: int, hi: int, x: int, y: int)
    requires min <= max && lo <= hi
    ensures lo < hi ==>
      && TruncDiv((lo - lo) * (max - min), hi - lo) + min == min
      && TruncDiv((hi - lo) * (max - min), hi - lo) + min == max
    ensures lo < hi && lo <= x <= y <= hi ==>
      min <= TruncDiv((x - lo) * (max - min), hi - lo) + min <= TruncDiv((y - lo) * (max - min), hi - lo) + min <= max
  {
    if lo < hi {
      ScaleDown(0, max - min, hi - lo);
      ScaleDown(hi - lo, max - min, hi - lo);
      MulMono(0, hi - lo, max - min);
      if lo <= x <= y <= hi {
        ScaleDown(x - lo, max - min, hi - lo);
        ScaleDown(y - lo, max - min, hi - lo);
        ScaleMonotone(x - lo, y - lo, max - min, hi - lo);
        MulMono(0, x - lo, max - min);
        MulMono(0, y - lo, max - min);
      }
    }
  }

  /** A value's share of the first range is its share of the second, rounded down. */
  ghost predicate SameShare(x: int, lo: int, hi: int, y: int, from: int, to: int) {
    (y - from) * (hi - lo) <= (x - lo) * (to - from) < (y - from) * (hi - lo) + (hi - lo)
  }

  /** Both conversions are straight lines, rounded down; equal ranges change nothing, and a range of
      one value goes to the other's low end. */
  lemma {:induction false} ConversionsExact(r: Range, x: int)
    requires r.Valid()
    ensures r.min == r.rawMin && r.max == r.rawMax ==> FromUser(r, x) == x && ToUser(r, x) == x
    ensures !(r.min == r.rawMin && r.max == r.rawMax) ==>
      && (r.min == r.max ==> FromUser(r, x) == r.rawMin)
      && (r.rawMin == r.rawMax ==> ToUser(r, x) == r.min)
    ensures r.min < r.max && r.min <= x <= r.max ==> SameShare(x, r.min, r.max, FromUser(r, x), r.rawMin, r.rawMax)
    ensures r.rawMin < r.rawMax && r.rawMin <= x <= r.rawMax ==>
      SameShare(x, r.rawMin, r.rawMax, ToUser(r, x), r.min, r.max)
  {
    if r.min < r.max && r.min <= x <= r.max {
      MulMono(0, x - r.min, r.rawMax - r.rawMin);
      TruncDivIs((x - r.min) * (r.rawMax - r.rawMin), r.max - r.min);
    }
    if r.rawMin < r.rawMax && r.rawMin <= x <= r.rawMax {
      MulMono(0, x - r.rawMin, r.max - r.min);
      TruncDivIs((x - r.rawMin) * (r.max - r.min), r.rawMax - r.rawMin);
    }
    hide TruncDiv;
  }

  /** The next integer from a quotient up. */
  function CeilDiv(a: int, b: int): int
    requires b > 0
  {
    (a + b - 1) / b
  }

  /** Going to the user's range and back never raises a raw value, and loses at most the raw
      steps that one user step is worth, rounded up. */
  lemma {:induction false} RawRoundTrip(r: Range, raw: int)
    requires r.Valid() && r.min < r.max && r.rawMin <= raw <= r.rawMax
    ensures FromUser(r, ToUser(r, raw)) <= raw
    ensures raw - FromUser(r, ToUser(r, raw)) <= CeilDiv(r.rawMax - r.rawMin, r.max - r.min)
  {
    var rawSpan, userSpan, k := r.rawMax - r.rawMin, r.max - r.min, raw - r.rawMin;
    DivBounds(rawSpan + userSpan - 1, userSpan);
    if !r.Same() && rawSpan > 0 {
      ScaleDown(k, userSpan, rawSpan);
      var u := k * userSpan / rawSpan;
      ScaleDown(u, rawSpan, userSpan);
      MulMono(0, k, userSpan);
      MulMono(0, u, rawSpan);
      BackAndForth(k, u, u * rawSpan / userSpan, rawSpan, userSpan, CeilDiv(rawSpan, userSpan));
    } else if !r.Same() {
      ScaleDown(0, rawSpan, userSpan);
    } else {
      FloorNonneg(rawSpan, userSpan);
    }
  }

  lemma {:induction false} FloorNonneg(rawSpan: int, userSpan: int)
    requires 0 <= rawSpan && 0 < userSpan
    ensures CeilDiv(rawSpan, userSpan) >= 0
  {
  }

  lemma {:induction false} BackAndForth(k: int, u: int, back: int, rawSpan: int, userSpan: int, ceil: int)
    requires 0 < rawSpan && 0 < userSpan
    requires u * rawSpan <= k * userSpan < u * rawSpan + rawSpan
    requires back * userSpan <= u * rawSpan < back * userSpan + userSpan
    requires rawSpan <= ceil * userSpan
    ensures back <= k && k - back <= ceil
  {
    assert (k + 1) * userSpan == k * userSpan + userSpan;
    assert (ceil + 1) * userSpan == ceil * userSpan + userSpan;
    assert (k - back) * userSpan == k * userSpan - back * userSpan;
    if back > k {
      MulMono(k + 1, back, userSpan);
    }
    if k - back > ceil {
      MulMono(ceil + 1, k - back, userSpan);
    }
  }

  // ---------------------------------------------------------------- cached volumes

  /** A volume element's cache (user and raw value of each channel) and the device's own values. */
  datatype Volumes = Volumes(range: Range, user: seq<int>, raw: seq<int>, device: seq<int>) {
    /** The cache agrees with the device, whose values are in the raw range; user values are in theirs,
        and of each user value and its raw value one is the other converted. */
    ghost predicate Valid() {
      && range.Valid()
      && |user| == |raw| && raw == device
      && (forall k :: 0 <= k < |raw| ==> range.rawMin <= raw[k] <= range.rawMax)
      && (forall k :: 0 <= k < |user| ==> range.min <= user[k] <= range.max)
      && (forall k :: 0 <= k < |user| ==> raw[k] == FromUser(range, user[k]) || user[k] == ToUser(range, raw[k]))
    }
  }

  /** _snd_selem_update_volume: out-of-range and unchanged values are ignored, and the device is
      written only when the raw value changes. */
  function UpdateVolume(s: Volumes, channel: nat, value: int): (t: Volumes)
    requires |s.user| == |s.raw| == |s.device| && channel < |s.user|
    ensures |t.user| == |t.raw| == |t.device| == |s.user|
  {
    if value < s.range.min || value > s.range.max || value == s.user[channel] then s
    else
      var s1 := s.(user := s.user[channel := value]);
      var raw := FromUser(s.range, value);
      if raw == s.raw[channel] then s1
      else s1.(raw := s.raw[channel := raw], device := s.device[channel := raw])
  }

  /** The same when the device cannot be read or written: the cache changes, the device does not. */
  function CachedOnly(s: Volumes, channel: nat, value: int): (t: Volumes)
    requires |s.user| == |s.raw| == |s.device| && channel < |s.user|
    ensures |t.user| == |t.raw| == |t.device| == |s.user|
  {
    UpdateVolume(s, channel, value).(device := s.device)
  }

  function UpdateAll(s: Volumes, channels: nat, value: int): (t: Volumes)
    requires |s.user| == |s.raw| == |s.device| && channels <= |s.user|
    ensures |t.user| == |t.raw| == |t.device| == |s.user|
  {
    if channels == 0 then s else UpdateVolume(UpdateAll(s, channels - 1, value), channels - 1, value)
  }

  /** set_volume_range: the user values are computed anew. */
  function SetRange(s: Volumes, min: int, max: int): Volumes {
    var r := s.range.(min := min, max := max);
    s.(range := r, user := seq(|s.raw|, k requires 0 <= k < |s.raw| => ToUser(r, s.raw[k])))
  }

  /** The device has changed by itself, and the event that tells so has been handled. */
  function Refresh(s: Volumes, device: seq<int>): Volumes {
    Volumes(s.range, seq(|device|, k requires 0 <= k < |device| => ToUser(s.range, device[k])), device, device)
  }

  datatype VolumeStep =
    | Update(channel: nat, value: int)
    | UpdateEach(value: int)
    | Rescale(min: int, max: int)
    | Changed(device: seq<int>)

  /** What callers and the device may do: address an existing channel, give a range in order, and
      keep device values in the raw range. */
  ghost predicate Legal(s: Volumes, step: VolumeStep) {
    match step
    case Update(channel, _) => channel < |s.user|
    case UpdateEach(_) => true
    case Rescale(min, max) => min <= max
    case Changed(device) =>
      |device| == |s.device| && forall k :: 0 <= k < |device| ==> s.range.rawMin <= device[k] <= s.range.rawMax
  }

  ghost function Apply(s: Volumes, step: VolumeStep): Volumes
    requires s.Valid() && Legal(s, step)
  {
    match step
    case Update(channel, value) => UpdateVolume(s, channel, value)
    case UpdateEach(value) => UpdateAll(s, |s.user|, value)
    case Rescale(min, max) => SetRange(s, min, max)
    case Changed(device) => Refresh(s, device)
  }

  lemma {:induction false} UpdateKeepsValid(s: Volumes, channel: nat, value: int)
    requires s.Valid() && channel < |s.user|
    ensures UpdateVolume(s, channel, value).Valid() && |UpdateVolume(s, channel, value).user| == |s.user|
    ensures UpdateVolume(s, channel, value).range == s.range
  {
    if s.range.min <= value <= s.range.max {
      ConversionsMonotone(s.range, value, value);
    }
  }

  lemma {:induction false} UpdateAllKeepsValid(s: Volumes, channels: nat, value: int)
    requires s.Valid() && channels <= |s.user|
    ensures UpdateAll(s, channels, value).Valid() && |UpdateAll(s, channels, value).user| == |s.user|
    ensures UpdateAll(s, channels, value).range == s.range
  {
    if channels > 0 {
      UpdateAllKeepsValid(s, channels - 1, value);
      UpdateKeepsValid(UpdateAll(s, channels - 1, value), channels - 1, value);
    }
  }

  /** Every step keeps the cache equal to the device and the user values in their range. */
  lemma {:induction false} StepKeepsValid(s: Volumes, step: VolumeStep)
    requires s.Valid() && Legal(s, step)
    ensures Apply(s, step).Valid() && |Apply(s, step).user| == |s.user|
  {
    match step
    case Update(channel, value) => UpdateKeepsValid(s, channel, value);
    case UpdateEach(value) => UpdateAllKeepsValid(s, |s.user|, value);
    case Rescale(min, max) =>
      forall k | 0 <= k < |s.raw|
        ensures min <= ToUser(s.range.(min := min, max := max), s.raw[k]) <= max
      {
        ConversionsMonotone(s.range.(min := min, max := max), s.raw[k], s.raw[k]);
      }
    case Changed(device) =>
      forall k | 0 <= k < |device|
        ensures s.range.min <= ToUser(s.range, device[k]) <= s.range.max
      {
        ConversionsMonotone(s.range, device[k], device[k]);
      }
  }

  ghost predicate LegalRun(s: Volumes, steps: seq<VolumeStep>)
    requires s.Valid()
    decreases |steps|
  {
    steps == [] || (Legal(s, steps[0]) && (StepKeepsValid(s, steps[0]); LegalRun(Apply(s, steps[0]), steps[1..])))
  }

  ghost function Run(s: Volumes, steps: seq<VolumeStep>): Volumes
    requires s.Valid() && LegalRun(s, steps)
    decreases |steps|
  {
    if steps == [] then s else StepKeepsValid(s, steps[0]); Run(Apply(s, steps[0]), steps[1..])
  }

  /** In every reachable state the cached raw volumes are the device's and user volumes are in range. */
  lemma {:induction false} CacheAgrees(s: Volumes, steps: seq<VolumeStep>)
    requires s.Valid() && LegalRun(s, steps)
    ensures Run(s, steps).Valid() && |Run(s, steps).user| == |s.user|
    decreases |steps|
  {
    if steps != [] {
      StepKeepsValid(s, steps[0]);
      CacheAgrees(Apply(s, steps[0]), steps[1..]);
    }
  }

  /** Read backwards, one conversion is the other. */
  lemma {:induction false} Swapped(r: Range, x: int)
    ensures FromUser(r, x) == ToUser(Range(r.rawMin, r.rawMax, r.min, r.max), x)
    ensures ToUser(r, x) == FromUser(Range(r.rawMin, r.rawMax, r.min, r.max), x)
  {
  }

  /** What one update does: a value outside the user's range, or already set, does nothing; any
      other becomes the channel's user value; the raw value and the device follow, where it differs. */
  lemma {:induction false} UpdateCases(s: Volumes, channel: nat, value: int)
    requires |s.user| == |s.raw| == |s.device| && channel < |s.user|
    ensures var t, raw := UpdateVolume(s, channel, value), FromUser(s.range, value);
            && t.range == s.range
            && (value < s.range.min || s.range.max < value || value == s.user[channel] ==> t == s)
            && (s.range.min <= value <= s.range.max && value != s.user[channel] ==>
                  && t.user == s.user[..channel] + [value] + s.user[channel + 1..]
                  && t.raw == s.raw[..channel] + [raw] + s.raw[channel + 1..]
                  && t.device == if raw == s.raw[channel] then s.device
                                 else s.device[..channel] + [raw] + s.device[channel + 1..])
  {
    assert s.raw == s.raw[..channel] + [s.raw[channel]] + s.raw[channel + 1..];
  }

  /** What an update of all channels leaves in each of the first of them, and in the others. */
  lemma {:induction false} UpdateAllAt(s: Volumes, channels: nat, value: int, k: nat)
    requires |s.user| == |s.raw| == |s.device| && channels <= |s.user| && k < |s.user|
    ensures var t := UpdateAll(s, channels, value);
            var taken := k < channels && s.range.min <= value <= s.range.max && value != s.user[k];
            var raw := FromUser(s.range, value);
            && t.range == s.range
            && t.user[k] == (if taken then value else s.user[k])
            && t.raw[k] == (if taken then raw else s.raw[k])
            && t.device[k] == (if taken && raw != s.raw[k] then raw else s.device[k])
  {
    if channels > 0 {
      UpdateAllAt(s, channels - 1, value, k);
      UpdateAllAt(s, channels - 1, value, channels - 1);
    }
  }

  /** What a new user range and a device report leave: user values converted from the raw ones. */
  lemma {:induction false} Recomputed(s: Volumes, min: int, max: int, device: seq<int>)
    requires |s.user| == |s.raw| == |s.device| == |device|
    ensures var t := SetRange(s, min, max);
            && t.range.min == min && t.range.max == max
            && t.range.rawMin == s.range.rawMin && t.range.rawMax == s.range.rawMax
            && t.raw == s.raw && t.device == s.device && |t.user| == |s.raw|
            && forall k :: 0 <= k < |s.raw| ==> t.user[k] == ToUser(t.range, s.raw[k])
    ensures var t := Refresh(s, device);
            && t.range == s.range && t.raw == device && t.device == device && |t.user| == |device|
            && forall k :: 0 <= k < |device| ==> t.user[k] == ToUser(s.range, device[k])
  {
  }

  /** A new volume is what the user reads back, until the device reports a change: the value
      computed anew is then never higher, and lower by at most the user steps that one raw step
      is worth, rounded up. The device's values are the same before and after the report. */
  lemma {:induction false} SetThenRefresh(s: Volumes, channel: nat, value: int)
    requires s.Valid() && channel < |s.user| && s.range.min <= value <= s.range.max && value != s.user[channel]
    requires s.range.rawMin < s.range.rawMax
    ensures var t := UpdateVolume(s, channel, value);
            var u := Refresh(t, t.device);
            && t.user == s.user[channel := value]
            && u.device == t.device == s.device[channel := FromUser(s.range, value)]
            && value - CeilDiv(s.range.max - s.range.min, s.range.rawMax - s.range.rawMin) <= u.user[channel] <= value
  {
    var r := s.range;
    var back := Range(r.rawMin, r.rawMax, r.min, r.max);
    RawRoundTrip(back, value);
    Swapped(r, value);
    Swapped(r, FromUser(r, value));
  }

  /** A failed update leaves cache and device apart, and asking again does not try the device
      again. The device's next report brings them together. */
  lemma {:induction false} FailedUpdateSticks(s: Volumes, channel: nat, value: int)
    requires s.Valid() && channel < |s.user| && UpdateVolume(s, channel, value).device != s.device
    ensures var t := CachedOnly(s, channel, value);
            && t.raw != t.device
            && UpdateVolume(t, channel, value) == t
            && Refresh(t, t.device).Valid() && Refresh(t, t.device).device == s.device
  {
    var t := CachedOnly(s, channel, value);
    assert t.raw[channel] == UpdateVolume(s, channel, value).device[channel];
    assert t.raw != t.device;
    forall k | 0 <= k < |s.device|
      ensures s.range.min <= ToUser(s.range, s.device[k]) <= s.range.max
    {
      ConversionsMonotone(s.range, s.device[k], s.device[k]);
    }
  }
}
