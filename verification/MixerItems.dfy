/** Mixer items in place: the interleaved array of user and raw volumes, the word of switch bits,
    and the device element they stand for. */
module MixerItems {
  import opened Arith
  import opened Bits
  import opened MixerVolume

  /** A control element of the device. */
  class Element {
    var values: seq<int>

    constructor (values: seq<int>)
      ensures this.values == values
    {
      this.values := values;
    }

    method Read() returns (err: int, ctl: seq<int>)
      ensures err >= 0 ==> ctl == values
    {
      err, ctl := *, values;
    }

    /** A write that fails changes nothing. */
    method Write(ctl: seq<int>) returns (err: int)
      modifies this
      ensures values == if err < 0 then old(values) else ctl
    {
      err := *;
      if err >= 0 {
        values := ctl;
      }
    }

    /** Reading all channels, changing one, and writing them back. */
    method Change(channel: nat, value: int) returns (err: int)
      requires channel < |values|
      modifies this
      ensures values == if err < 0 then old(values) else old(values)[channel := value]
    {
      var ctl;
      err, ctl := Read();
      if err < 0 {
        return;
      }
      err := Write(ctl[channel := value]);
    }
  }

  class VolumeItem {
    const channels: nat
    const helem: Element
    const rawMin: int
    const rawMax: int
    var min: int
    var max: int
    const vol: array<int>  // user value of channel i at 2 * i, raw value at 2 * i + 1

    ghost predicate Shape()
      reads this, helem
    {
      vol.Length == 2 * channels && |helem.values| == channels
    }

    ghost function View(): Volumes
      reads this, helem, vol
      requires Shape()
    {
      Volumes(Range(min, max, rawMin, rawMax),
              seq(channels, i requires 0 <= i < channels reads this, vol => vol[2 * i]),
              seq(channels, i requires 0 <= i < channels reads this, vol => vol[2 * i + 1]),
              helem.values)
    }

    /** A new item reads the device's values; the user's range is the raw range. */
    constructor (helem: Element, rawMin: int, rawMax: int)
      requires rawMin <= rawMax && forall k :: 0 <= k < |helem.values| ==> rawMin <= helem.values[k] <= rawMax
      ensures Shape() && View().Valid() && fresh(vol)
      ensures View() == Volumes(Range(rawMin, rawMax, rawMin, rawMax), helem.values, helem.values, helem.values)
    {
      channels, this.helem, this.rawMin, this.rawMax, min, max := |helem.values|, helem, rawMin, rawMax, rawMin, rawMax;
      vol := new int[2 * |helem.values|];
      new;
      var i := 0;
      while i < channels
        invariant i <= channels && vol.Length == 2 * channels && fresh(vol) && min == rawMin && max == rawMax
        invariant forall k :: 0 <= k < i ==> vol[2 * k] == vol[2 * k + 1] == helem.values[k]
      {
        vol[2 * i] := helem.values[i];
        vol[2 * i + 1] := helem.values[i];
        i := i + 1;
      }
      assert View().user == helem.values && View().raw == helem.values;
    }

    /** _snd_selem_update_volume */
    method Update(channel: nat, value: int) returns (err: int)
      requires Shape() && channel < channels
      modifies vol, helem
      ensures Shape()
      ensures View() == if err < 0 then CachedOnly(old(View()), channel, value)
                        else UpdateVolume(old(View()), channel, value)
      ensures err < 0 ==> UpdateVolume(old(View()), channel, value).raw != old(View()).raw
    {
      if value < min || value > max {
        return 0;
      }
      if value == vol[2 * channel] {
        assert View().user[channel] == value;
        return 0;
      }
      assert View().user[channel] != value;
      vol[2 * channel] := value;
      assert View().user == old(View()).user[channel := value] && View().raw == old(View()).raw;
      var raw := FromUser(Range(min, max, rawMin, rawMax), value);
      assert View().raw[channel] == vol[2 * channel + 1];
      if raw == vol[2 * channel + 1] {
        return 0;
      }
      vol[2 * channel + 1] := raw;
      assert View().user == old(View()).user[channel := value] && View().raw == old(View()).raw[channel := raw];
      assert View().raw[channel] != old(View()).raw[channel];
      err := helem.Change(channel, raw);
    }

    /** _snd_selem_update_volume_all: up to the first channel that fails. */
    method UpdateEach(value: int) returns (err: int)
      requires Shape()
      modifies vol, helem
      ensures Shape() && err <= 0
      ensures err == 0 ==> View() == UpdateAll(old(View()), channels, value)
      ensures err < 0 ==>
        exists i: nat :: i < channels && View() == CachedOnly(UpdateAll(old(View()), i, value), i, value)
    {
      var i := 0;
      while i < channels
        invariant i <= channels && Shape()
        invariant View() == UpdateAll(old(View()), i, value)
      {
        err := Update(i, value);
        if err < 0 {
          return;
        }
        i := i + 1;
      }
      err := 0;
    }

    method Rescale(low: int, high: int)
      requires Shape()
      modifies this`min, this`max, vol
      ensures Shape() && View() == SetRange(old(View()), low, high)
    {
      min, max := low, high;
      ghost var r := Range(low, high, rawMin, rawMax);
      var i := 0;
      while i < channels
        invariant i <= channels && Shape() && min == low && max == high
        invariant forall k :: 0 <= k < channels ==> vol[2 * k + 1] == old(vol[2 * k + 1])
        invariant forall k :: 0 <= k < i ==> vol[2 * k] == ToUser(r, vol[2 * k + 1])
      {
        vol[2 * i] := ToUser(Range(min, max, rawMin, rawMax), vol[2 * i + 1]);
        i := i + 1;
      }
      assert View().raw == old(View()).raw;
      assert View().user == SetRange(old(View()), low, high).user;
    }

    /** update_selem_vol_item, after the device's values have been read; tells whether anything cached changed. */
    method HandleValue() returns (changed: bool)
      requires Shape()
      modifies vol
      ensures Shape() && View() == Refresh(old(View()), helem.values)
      ensures changed <==> View() != old(View())
    {
      var obj := helem.values;
      ghost var r := Range(min, max, rawMin, rawMax);
      var i := 0;
      changed := false;
      while i < channels
        invariant i <= channels && Shape()
        invariant forall k :: 0 <= k < i ==> vol[2 * k + 1] == obj[k] && vol[2 * k] == ToUser(r, obj[k])
        invariant forall k :: i <= k < channels ==>
          vol[2 * k] == old(vol[2 * k]) && vol[2 * k + 1] == old(vol[2 * k + 1])
        invariant changed <==>
          exists k :: 0 <= k < i && (obj[k] != old(vol[2 * k + 1]) || ToUser(r, obj[k]) != old(vol[2 * k]))
      {
        var val := obj[i];
        changed := changed || vol[2 * i + 1] != val;
        vol[2 * i + 1] := val;
        val := ToUser(Range(min, max, rawMin, rawMax), val);
        changed := changed || vol[2 * i] != val;
        vol[2 * i] := val;
        i := i + 1;
      }
      assert View().raw == obj && View().user == Refresh(old(View()), obj).user;
      if changed {
        ghost var k :| 0 <= k < i && (obj[k] != old(vol[2 * k + 1]) || ToUser(r, obj[k]) != old(vol[2 * k]));
        assert View().raw[k] != old(View()).raw[k] || View().user[k] != old(View()).user[k];
      } else {
        assert forall k :: 0 <= k < channels ==> vol[2 * k] == old(vol[2 * k]) && vol[2 * k + 1] == old(vol[2 * k + 1]);
        assert View().raw == old(View()).raw && View().user == old(View()).user;
      }
    }
  }

  // ---------------------------------------------------------------- switches

  /** The switch bits agree with the device, channel by channel, and there are no other bits. */
  ghost predicate SwitchAgrees(sw: nat, values: seq<int>) {
    forall i: nat :: Bit(sw, i) <==> i < |values| && values[i] != 0
  }

  class SwitchItem {
    const channels: nat
    const helem: Element
    var sw: Word

    ghost predicate Valid()
      reads this, helem
    {
      |helem.values| == channels <= 32 && SwitchAgrees(sw, helem.values)
    }

    constructor (helem: Element)
      requires |helem.values| <= 32
      ensures Valid() && this.helem == helem
    {
      channels, this.helem, sw := |helem.values|, helem, 0;
      new;
      var changed := HandleValue();
    }

    /** update_selem_sw_item, after the device's values have been read. */
    method HandleValue() returns (changed: bool)
      requires |helem.values| == channels <= 32
      modifies this`sw
      ensures Valid() && (changed <==> sw != old(sw))
    {
      var swbits: Word := 0;
      var i := 0;
      Constants();
      forall k: nat
        ensures !Bit(0, k)
      {
        ZeroBit(k);
      }
      while i < channels
        invariant i <= channels && swbits < Pow2(32) && sw == old(sw)
        invariant forall k: nat :: Bit(swbits, k) <==> k < i && helem.values[k] != 0
      {
        if helem.values[i] != 0 {
          swbits := WithBit(swbits, i);
        }
        i := i + 1;
      }
      assert SwitchAgrees(swbits, helem.values);
      changed := sw != swbits;
      sw := swbits;
    }

    /** Whether the bits are the old ones but for one channel. */
    ghost predicate BitSet(old_sw: Word, channel: nat, value: int)
      reads this
    {
      forall k: nat :: Bit(sw, k) <==> if k == channel then value != 0 else Bit(old_sw, k)
    }

    /** update_switch: the device is written only when the bit changes. If that fails, the bit has
        changed, and the device has not. */
    method Update(channel: nat, value: int) returns (err: int)
      requires Valid() && channel < channels
      modifies this`sw, helem
      ensures BitSet(old(sw), channel, value) && |helem.values| == channels
      ensures err >= 0 ==> Valid() && forall i :: 0 <= i < channels ==>
        (helem.values[i] != 0 <==> if i == channel then value != 0 else old(helem.values)[i] != 0)
      ensures helem.values != old(helem.values) ==>
        err >= 0 && helem.values == old(helem.values)[channel := if value != 0 then 1 else 0]
      ensures err < 0 ==> helem.values == old(helem.values) && !(Bit(sw, channel) <==> helem.values[channel] != 0)
    {
      var s: Word;
      if value != 0 {
        s := WithBit(sw, channel);
      } else {
        s := WithoutBit(sw, channel);
      }
      if sw == s {
        assert Bit(sw, channel) <==> value != 0;
        return 0;
      }
      if Bit(sw, channel) <==> value != 0 {
        assert forall k: nat :: Bit(sw, k) <==> Bit(s, k);
        SameBits(sw, s);
        assert false;
      }
      sw := s;
      err := helem.Change(channel, if value != 0 then 1 else 0);
    }

    /** The channels before i are set and those after it are as they were; channel i is set in the
        cache and not in the device. */
    ghost predicate StoppedAt(i: nat, value: int, was: seq<int>)
      reads this, helem
    {
      && i < channels && |helem.values| == channels == |was|
      && (forall k :: 0 <= k < i ==> (helem.values[k] != 0 <==> value != 0))
      && (forall k :: i <= k < channels ==> (helem.values[k] != 0 <==> was[k] != 0))
      && (Bit(sw, i) <==> value != 0)
      && (helem.values[i] != 0 <==> value == 0)
    }

    /** update_switch_all: up to the first channel that fails. */
    method UpdateEach(value: int) returns (err: int)
      requires Valid()
      modifies this`sw, helem
      ensures err <= 0 && |helem.values| == channels
      ensures err == 0 ==> Valid() && forall i :: 0 <= i < channels ==> (helem.values[i] != 0 <==> value != 0)
      ensures err < 0 ==> exists i: nat :: StoppedAt(i, value, old(helem.values))
    {
      var i := 0;
      while i < channels
        invariant i <= channels && Valid()
        invariant forall k :: 0 <= k < i ==> (helem.values[k] != 0 <==> value != 0)
        invariant forall k :: i <= k < channels ==> (helem.values[k] != 0 <==> old(helem.values)[k] != 0)
      {
        err := Update(i, value);
        if err < 0 {
          assert StoppedAt(i, value, old(helem.values));
          return;
        }
        i := i + 1;
      }
      err := 0;
    }
  }

  /** `w |= 1 << i` */
  method WithBit(w: Word, i: nat) returns (r: Word)
    requires i < 32
    ensures forall k: nat :: Bit(r, k) <==> Bit(w, k) || k == i
  {
    Constants();
    Pow2Mono(i, 31);
    OrBound(w, Pow2(i), 32);
    r := Or(w, Pow2(i));
    forall k: nat
      ensures Bit(r, k) <==> Bit(w, k) || k == i
    {
      OrBit(w, Pow2(i), k);
      Pow2Bit(i, k);
    }
  }

  /** `w &= ~(1 << i)` */
  method WithoutBit(w: Word, i: nat) returns (r: Word)
    requires i < 32
    ensures forall k: nat :: Bit(r, k) <==> Bit(w, k) && k != i
  {
    Constants();
    Pow2Mono(i, 31);
    var complement := UINT_MAX - Pow2(i);
    AndBound(w, complement);
    r := And(w, complement);
    forall k: nat
      ensures Bit(r, k) <==> Bit(w, k) && k != i
    {
      AndBit(w, complement, k);
      Pow2Bit(i, k);
      if k < 32 {
        ComplementBit(Pow2(i), 32, k);
      } else {
        HighBits(w, 32, k);
      }
    }
  }
}
