/** Decibel ranges: a list of volume segments, each with its own scale or min/max entry, walked
    word by word. */
module DbSegments {
  import opened Arith
  import opened Options
  import opened TlvParse
  import opened DbConvert
  import opened DbWords

  const MAX_TLV_RANGE_SIZE: nat := 256

  /** A segment's volumes and its entry. */
  datatype Segment = Segment(low: Word, high: Word, typ: Word, size: Word, payload: seq<Word>) {
    ghost predicate Valid() {
      |payload| == IntIndex(size) && |payload| >= 2 && ReadEntry(typ, payload[0], payload[1]).Some?
    }

    ghost function Entry(): Entry
      requires Valid()
    {
      ReadEntry(typ, payload[0], payload[1]).value
    }

    ghost predicate Covers(v: int) { ToInt(low) <= v <= ToInt(high) }
  }

  function Words(s: Segment): (w: seq<Word>)
    ensures |w| == 4 + |s.payload|
  {
    [s.low, s.high, s.typ, s.size] + s.payload
  }

  function AllWords(segs: seq<Segment>): seq<Word> {
    if segs == [] then [] else Words(segs[0]) + AllWords(segs[1..])
  }

  ghost predicate AllValid(segs: seq<Segment>) { forall s :: s in segs ==> s.Valid() }

  /** The range entry lies in the buffer. */
  ghost predicate Stored(tlv: seq<Word>, segs: seq<Segment>) {
    && |tlv| >= 2 && tlv[0] == DB_RANGE
    && AllValid(segs)
    && IntIndex(tlv[1]) == |AllWords(segs)|
    && tlv[2..] == AllWords(segs)
  }

  /** The words from `pos` on are those of the remaining segments. */
  ghost predicate Remaining(tlv: seq<Word>, pos: nat, segs: seq<Segment>) {
    pos <= |tlv| && tlv[pos..] == AllWords(segs) && AllValid(segs)
  }

  /** The words of the segment at `pos`, and where the next one starts. */
  lemma {:induction false} SegmentAt(tlv: seq<Word>, pos: nat, segs: seq<Segment>)
    requires Remaining(tlv, pos, segs)
    ensures segs != [] <==> pos + 6 <= |tlv|
    ensures segs == [] <==> pos == |tlv|
    ensures segs != [] ==>
      var s := segs[0];
      && s.Valid() && tlv[pos] == s.low && tlv[pos + 1] == s.high && tlv[pos + 2] == s.typ && tlv[pos + 3] == s.size
      && tlv[pos + 4] == s.payload[0] && tlv[pos + 5] == s.payload[1]
      && Remaining(tlv, pos + 4 + IntIndex(s.size), segs[1..])
  {
    if segs != [] {
      var s, w := segs[0], tlv[pos..];
      assert s in segs && s.Valid();
      assert |w| >= |Words(s)| >= 6;
      assert w[..4 + |s.payload|] == Words(s) && w[4 + |s.payload|..] == AllWords(segs[1..]);
      assert forall k :: 0 <= k < 6 ==> tlv[pos + k] == w[k] == Words(s)[k];
      assert tlv[pos + 0] == s.low && tlv[pos + 1] == s.high && tlv[pos + 2] == s.typ && tlv[pos + 3] == s.size;
      assert tlv[pos + 4] == s.payload[0] && tlv[pos + 5] == s.payload[1];
      assert tlv[pos + 4 + |s.payload|..] == w[4 + |s.payload|..];
    }
  }

  /** Where segment k starts: behind the two words of the range and the segments before it. */
  function Start(segs: seq<Segment>, k: nat): nat
    requires k <= |segs|
  {
    if k == 0 then 2 else Start(segs, k - 1) + 4 + |segs[k - 1].payload|
  }

  lemma {:induction false} StartRemaining(tlv: seq<Word>, segs: seq<Segment>, k: nat)
    requires Stored(tlv, segs) && k <= |segs|
    ensures Remaining(tlv, Start(segs, k), segs[k..])
  {
    if k > 0 {
      StartRemaining(tlv, segs, k - 1);
      SegmentAt(tlv, Start(segs, k - 1), segs[k - 1..]);
      assert segs[k - 1..][1..] == segs[k..] && segs[k - 1..][0] == segs[k - 1];
    }
  }

  /** The buffer holds type 3 and the segments' words, in the order low, high, type, size, entry. */
  lemma {:induction false} SegmentWords(tlv: seq<Word>, segs: seq<Segment>, k: nat)
    requires Stored(tlv, segs) && k < |segs|
    ensures tlv[0] == 3 && IntIndex(tlv[1]) + 2 == |tlv|
    ensures var at, s := Start(segs, k), segs[k];
            && at + 4 + |s.payload| <= |tlv| && |s.payload| >= 2
            && tlv[at] == s.low && tlv[at + 1] == s.high && tlv[at + 2] == s.typ && tlv[at + 3] == s.size
            && tlv[at + 4] == s.payload[0] && tlv[at + 5] == s.payload[1]
  {
    StartRemaining(tlv, segs, k);
    SegmentAt(tlv, Start(segs, k), segs[k..]);
    assert segs[k..][0] == segs[k];
    StartRemaining(tlv, segs, k + 1);
  }

  // ---------------------------------------------------------------- volume to gain

  /** The gain given by the first segment that covers the volume. */
  ghost function Lookup(segs: seq<Segment>, v: int): Option<int>
    requires AllValid(segs)
  {
    if segs == [] then None
    else if segs[0].Covers(v) then Some(ToDb(segs[0].Entry(), ToInt(segs[0].low), ToInt(segs[0].high), v))
    else Lookup(segs[1..], v)
  }

  /** Segment k is the first whose volumes hold v. */
  ghost predicate FirstCovering(segs: seq<Segment>, v: int, k: int) {
    && 0 <= k < |segs| && ToInt(segs[k].low) <= v <= ToInt(segs[k].high)
    && forall j :: 0 <= j < k ==> v < ToInt(segs[j].low) || ToInt(segs[j].high) < v
  }

  /** A gain that a segment's words give. */
  ghost predicate SegmentGain(s: Segment, v: int, gain: int)
    requires |s.payload| >= 2
  {
    GainInWords(s.typ, s.payload[0], s.payload[1], ToInt(s.low), ToInt(s.high), v, gain)
  }

  /** The lookup in words: the gain of the first covering segment, and none only without one. */
  lemma {:induction false} LookupInWords(segs: seq<Segment>, v: int)
    requires AllValid(segs)
    ensures forall k :: FirstCovering(segs, v, k) ==>
      segs[k] in segs && Lookup(segs, v).Some? && SegmentGain(segs[k], v, Lookup(segs, v).value)
    ensures Lookup(segs, v).Some? <==> exists k :: FirstCovering(segs, v, k)
  {
    if segs != [] {
      var s, rest := segs[0], segs[1..];
      assert s in segs;
      if s.Covers(v) {
        EntryGain(s.typ, s.payload[0], s.payload[1], ToInt(s.low), ToInt(s.high), v);
        assert FirstCovering(segs, v, 0);
      } else {
        LookupInWords(rest, v);
        hide SegmentGain, ToDb;
        forall k | FirstCovering(segs, v, k)
          ensures k > 0 && FirstCovering(rest, v, k - 1) && rest[k - 1] == segs[k]
        {
        }
        forall k | FirstCovering(rest, v, k)
          ensures FirstCovering(segs, v, k + 1)
        {
        }
      }
    }
  }

  /** tlv_to_dB_range */
  method RangeToDb(tlv: seq<Word>, volume: int, ghost segs: seq<Segment>) returns (err: int, gain: int)
    requires Stored(tlv, segs)
    ensures |AllWords(segs)| > MAX_TLV_RANGE_SIZE ==> err == -EINVAL
    ensures |AllWords(segs)| <= MAX_TLV_RANGE_SIZE ==>
      match Lookup(segs, volume) case Some(g) => err == 0 && gain == g case None => err == -EINVAL
    ensures |AllWords(segs)| <= 256 ==> forall k :: FirstCovering(segs, volume, k) ==>
      segs[k] in segs && err == 0 && SegmentGain(segs[k], volume, gain)
    ensures |AllWords(segs)| <= 256 && (forall k :: !FirstCovering(segs, volume, k)) ==> err == -EINVAL
  {
    LookupInWords(segs, volume);
    hide FirstCovering, SegmentGain;
    var len := IntIndex(tlv[1]);
    gain := 0;
    if len > MAX_TLV_RANGE_SIZE {
      return -EINVAL, gain;
    }
    var pos := 2;
    ghost var rest := segs;
    SegmentAt(tlv, pos, rest);
    while pos + 4 <= len
      invariant 2 <= pos && Remaining(tlv, pos, rest)
      invariant segs != [] ==> len + 2 == |tlv|
      invariant segs == [] ==> len == 0
      invariant Lookup(segs, volume) == Lookup(rest, volume)
      decreases |tlv| - pos
    {
      SegmentAt(tlv, pos, rest);
      var rangemin := ToInt(tlv[pos]);
      pos := pos + 1;
      var rangemax := ToInt(tlv[pos]);
      pos := pos + 1;
      if volume >= rangemin && volume <= rangemax {
        return 0, ToDb(ReadEntry(tlv[pos], tlv[pos + 2], tlv[pos + 3]).value, rangemin, rangemax, volume);
      }
      pos := pos + 1;
      pos := pos + IntIndex(tlv[pos]) + 1;
      rest := rest[1..];
    }
    SegmentAt(tlv, pos, rest);
    return -EINVAL, gain;
  }

  // ---------------------------------------------------------------- the range of gains

  /** One segment's gains, clipped to the volumes up to rangemax. */
  ghost function Clipped(s: Segment, rangemax: int): (int, int)
    requires s.Valid()
  {
    DbRange(s.Entry(), ToInt(s.low), Min(ToInt(s.high), rangemax))
  }

  /** The gains of the segments up to the first that reaches rangemax. The first segment sets
      the bounds, the others widen them. */
  ghost function Gains(segs: seq<Segment>, rangemax: int, first: bool, min: int, max: int): (int, int)
    requires AllValid(segs)
    decreases |segs|
  {
    if segs == [] then (min, max)
    else
      var (rmin, rmax) := Clipped(segs[0], rangemax);
      var min' := if first || rmin < min then rmin else min;
      var max' := if first || rmax > max then rmax else max;
      if rangemax <= ToInt(segs[0].high) then (min', max') else Gains(segs[1..], rangemax, false, min', max')
  }

  /** The walk gets to segment k: all before it end below rangemax. */
  ghost predicate Visited(segs: seq<Segment>, k: int, rangemax: int) {
    0 <= k < |segs| && forall j :: 0 <= j < k ==> ToInt(segs[j].high) < rangemax
  }

  /** The bounds that a segment's words give, up to rangemax. */
  ghost predicate SegmentBounds(s: Segment, rangemax: int, min: int, max: int)
    requires |s.payload| >= 2
  {
    BoundsInWords(s.typ, s.payload[0], s.payload[1], ToInt(s.low), Min(ToInt(s.high), rangemax), min, max)
  }

  /** min and max are the least and the greatest of the bounds of the segments that the walk gets to. */
  ghost predicate WalkBounds(segs: seq<Segment>, rangemax: int, min: int, max: int)
    requires AllValid(segs)
  {
    && (forall k :: Visited(segs, k, rangemax) ==> segs[k] in segs)
    && (forall k, lo, hi :: Visited(segs, k, rangemax) && SegmentBounds(segs[k], rangemax, lo, hi) ==>
          min <= lo && hi <= max)
    && (exists k, hi :: Visited(segs, k, rangemax) && segs[k] in segs && SegmentBounds(segs[k], rangemax, min, hi))
    && (exists k, lo :: Visited(segs, k, rangemax) && segs[k] in segs && SegmentBounds(segs[k], rangemax, lo, max))
  }

  /** tlv_range_dB_range; `min0` and `max0` are what the caller's variables hold before. */
  method RangeDbRange(tlv: seq<Word>, rangemax: int, min0: int, max0: int, ghost segs: seq<Segment>)
    returns (err: int, min: int, max: int)
    requires Stored(tlv, segs)
    ensures |AllWords(segs)| > MAX_TLV_RANGE_SIZE ==> err == -EINVAL
    ensures |AllWords(segs)| <= MAX_TLV_RANGE_SIZE ==> err == 0 && (min, max) == Gains(segs, rangemax, true, min0, max0)
    ensures |AllWords(segs)| <= 256 && segs != [] ==> err == 0 && WalkBounds(segs, rangemax, min, max)
    ensures segs == [] ==> err == 0 && min == min0 && max == max0
  {
    if segs != [] {
      GainsInWords(segs, rangemax, min0, max0);
    }
    hide WalkBounds;
    min, max := min0, max0;
    var len := IntIndex(tlv[1]);
    if len > MAX_TLV_RANGE_SIZE {
      return -EINVAL, min, max;
    }
    var pos := 2;
    ghost var rest := segs;
    SegmentAt(tlv, pos, rest);
    while pos + 4 <= len
      invariant 2 <= pos && Remaining(tlv, pos, rest)
      invariant segs != [] ==> len + 2 == |tlv|
      invariant segs == [] ==> len == 0
      invariant Gains(segs, rangemax, true, min0, max0) == Gains(rest, rangemax, pos == 2, min, max)
      decreases |tlv| - pos
    {
      SegmentAt(tlv, pos, rest);
      var submin := ToInt(tlv[pos]);
      pos := pos + 1;
      var submax := ToInt(tlv[pos]);
      pos := pos + 1;
      if rangemax < submax {
        submax := rangemax;
      }
      var r := DbRange(ReadEntry(tlv[pos], tlv[pos + 2], tlv[pos + 3]).value, submin, submax);
      if pos > 4 {
        if r.0 < min {
          min := r.0;
        }
        if r.1 > max {
          max := r.1;
        }
      } else {
        min, max := r.0, r.1;
      }
      if rangemax == submax {
        return 0, min, max;
      }
      pos := pos + 1;
      pos := pos + IntIndex(tlv[pos]) + 1;
      rest := rest[1..];
    }
    SegmentAt(tlv, pos, rest);
    return 0, min, max;
  }

  // ---------------------------------------------------------------- containment

  /** Gains in order, and silence not above them. */
  ghost predicate Ordered(e: Entry) {
    && (e.mute ==> MUTE <= e.min)
    && (e.MinMax? ==> e.min <= e.max)
  }

  /** Segments in order, without overlap. */
  ghost predicate Ascending(segs: seq<Segment>) {
    && (forall k :: 0 <= k < |segs| ==> ToInt(segs[k].low) <= ToInt(segs[k].high))
    && (forall j, k :: 0 <= j < k < |segs| ==> ToInt(segs[j].high) < ToInt(segs[k].low))
  }

  /** A covered volume's gain lies in the clipped range of its segment. */
  lemma {:induction false} GainInClipped(e: Entry, low: int, high: int, clip: int, v: int)
    requires Ordered(e) && low <= v <= clip <= high
    ensures DbRange(e, low, clip).0 <= ToDb(e, low, high, v) <= DbRange(e, low, clip).1
  {
    match e
    case Scale(min, step, mute) =>
      MulMono(v - low, clip - low, step);
      MulMono(0, v - low, step);
      assert (clip - low) * step == step * (clip - low);
    case MinMax(min, max, mute) =>
      if low < v < high {
        var d, r, k := max - min, high - low, v - low;
        MulMono(0, d, k);
        MulMono(k, r, d);
        assert k * d == d * k && r * d == d * r;
        FloorLeast(d * k, r, 0);
        FloorLeast(d * k, r, d + 1);
        assert (d + 1) * r == d * r + r;
      }
  }

  /** The bounds only widen. */
  lemma {:induction false} GainsWiden(segs: seq<Segment>, rangemax: int, min: int, max: int)
    requires AllValid(segs)
    ensures Gains(segs, rangemax, false, min, max).0 <= min && max <= Gains(segs, rangemax, false, min, max).1
    decreases |segs|
  {
    if segs != [] {
      var (rmin, rmax) := Clipped(segs[0], rangemax);
      GainsWiden(segs[1..], rangemax, if rmin < min then rmin else min, if rmax > max then rmax else max);
    }
  }

  /** Every gain that a volume up to rangemax can have lies in the range reported, although that
      clips segments and stops at the first that reaches rangemax. */
  lemma {:induction false} GainsContainLookup(segs: seq<Segment>, rangemax: int, first: bool, min: int, max: int,
                                              v: int)
    requires AllValid(segs) && Ascending(segs) && v <= rangemax
    requires forall s :: s in segs ==> Ordered(s.Entry())
    ensures Lookup(segs, v).Some? ==>
      Gains(segs, rangemax, first, min, max).0 <= Lookup(segs, v).value <= Gains(segs, rangemax, first, min, max).1
    decreases |segs|
  {
    if segs != [] {
      var s := segs[0];
      var (rmin, rmax) := Clipped(s, rangemax);
      var min' := if first || rmin < min then rmin else min;
      var max' := if first || rmax > max then rmax else max;
      if s.Covers(v) {
        GainInClipped(s.Entry(), ToInt(s.low), ToInt(s.high), Min(ToInt(s.high), rangemax), v);
        GainsWiden(segs[1..], rangemax, min', max');
      } else if rangemax <= ToInt(s.high) {
        NothingLater(segs, v);
      } else {
        assert Ascending(segs[1..]);
        GainsContainLookup(segs[1..], rangemax, false, min', max', v);
      }
    }
  }

  /** The bounds reported are no wider than need be: each is that of a segment the walk gets to,
      or, where there was one before, the earlier bound. */
  lemma {:induction false} GainsAttained(segs: seq<Segment>, rangemax: int, first: bool, min: int, max: int)
    requires AllValid(segs)
    ensures var g := Gains(segs, rangemax, first, min, max);
            && ((g.0 == min && (segs == [] || !first)) ||
                exists k :: Visited(segs, k, rangemax) && g.0 == Clipped(segs[k], rangemax).0)
            && ((g.1 == max && (segs == [] || !first)) ||
                exists k :: Visited(segs, k, rangemax) && g.1 == Clipped(segs[k], rangemax).1)
    decreases |segs|
  {
    if segs != [] {
      var (rmin, rmax) := Clipped(segs[0], rangemax);
      var min' := if first || rmin < min then rmin else min;
      var max' := if first || rmax > max then rmax else max;
      assert Visited(segs, 0, rangemax);
      if rangemax > ToInt(segs[0].high) {
        var rest := segs[1..];
        GainsAttained(rest, rangemax, false, min', max');
        forall k | Visited(rest, k, rangemax)
          ensures Visited(segs, k + 1, rangemax) && segs[k + 1] == rest[k]
        {
        }
      }
    }
  }

  /** No segment that the walk gets to is left out. */
  lemma {:induction false} GainsReach(segs: seq<Segment>, rangemax: int, first: bool, min: int, max: int, k: int)
    requires AllValid(segs) && Visited(segs, k, rangemax)
    ensures var g := Gains(segs, rangemax, first, min, max);
            segs[k] in segs && g.0 <= Clipped(segs[k], rangemax).0 && Clipped(segs[k], rangemax).1 <= g.1
    decreases |segs|
  {
    var (rmin, rmax) := Clipped(segs[0], rangemax);
    var min' := if first || rmin < min then rmin else min;
    var max' := if first || rmax > max then rmax else max;
    if rangemax > ToInt(segs[0].high) {
      var rest := segs[1..];
      GainsWiden(rest, rangemax, min', max');
      if k > 0 {
        assert rest[k - 1] == segs[k] && Visited(rest, k - 1, rangemax);
        GainsReach(rest, rangemax, false, min', max', k - 1);
      }
    }
  }

  /** The bounds of a valid segment are those of its words, and no others are. */
  lemma {:induction false} ClippedInWords(s: Segment, rangemax: int, lo: int, hi: int)
    requires s.Valid()
    ensures SegmentBounds(s, rangemax, Clipped(s, rangemax).0, Clipped(s, rangemax).1)
    ensures SegmentBounds(s, rangemax, lo, hi) ==> (lo, hi) == Clipped(s, rangemax)
  {
    EntryBounds(s.typ, s.payload[0], s.payload[1], ToInt(s.low), Min(ToInt(s.high), rangemax));
    OnlyThreeTypes(s.typ, s.payload[0], s.payload[1]);
    hide ReadEntry, DbRange, ToInt;
  }

  lemma {:induction false} GainsInWords(segs: seq<Segment>, rangemax: int, min: int, max: int)
    requires AllValid(segs) && segs != []
    ensures var g := Gains(segs, rangemax, true, min, max);
            WalkBounds(segs, rangemax, g.0, g.1)
  {
    var g := Gains(segs, rangemax, true, min, max);
    GainsAttained(segs, rangemax, true, min, max);
    hide SegmentBounds, Gains, Clipped, Visited;
    forall k | Visited(segs, k, rangemax)
      ensures segs[k] in segs
      ensures forall lo, hi :: SegmentBounds(segs[k], rangemax, lo, hi) ==> g.0 <= lo && hi <= g.1
    {
      GainsReach(segs, rangemax, true, min, max, k);
      forall lo, hi | SegmentBounds(segs[k], rangemax, lo, hi)
        ensures g.0 <= lo && hi <= g.1
      {
        ClippedInWords(segs[k], rangemax, lo, hi);
      }
    }
    var k :| Visited(segs, k, rangemax) && g.0 == Clipped(segs[k], rangemax).0;
    ClippedInWords(segs[k], rangemax, 0, 0);
    var j :| Visited(segs, j, rangemax) && g.1 == Clipped(segs[j], rangemax).1;
    ClippedInWords(segs[j], rangemax, 0, 0);
  }

  lemma {:induction false} NothingLater(segs: seq<Segment>, v: int)
    requires AllValid(segs) && Ascending(segs) && segs != [] && v <= ToInt(segs[0].high)
    ensures Lookup(segs[1..], v) == None
    decreases |segs|
  {
    if |segs| > 1 {
      var rest := segs[1..];
      assert Ascending(rest);
      assert segs[0].high == segs[0].high && ToInt(segs[0].high) < ToInt(segs[1].low);
      NothingLater(rest, v);
    }
  }
}
