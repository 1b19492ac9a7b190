/** Decibel entries word by word: what the four words of an entry mean, in numbers. */
module DbWords {
  import opened Arith
  import opened Options
  import opened TlvParse
  import opened DbConvert

  /** A 32-bit number as an unsigned word. */
  function Unsigned(x: int): int { if x < 0 then x + 0x1_0000_0000 else x }

  /** The words of an entry read back as the entry: a min/max entry, the same with silence at the
      bottom, and a scale, whose last word holds the step, the mute bit and bits without meaning. */
  lemma {:induction false} ReadBack(min: int, max: int, step: nat, mute: bool, other: nat)
    requires -0x8000_0000 <= min < 0x8000_0000 && -0x8000_0000 <= max < 0x8000_0000
    requires step < 0x10000 && other < 0x8000
    ensures ReadEntry(4, Unsigned(min), Unsigned(max)) == Some(MinMax(min, max, false))
    ensures ReadEntry(5, Unsigned(min), Unsigned(max)) == Some(MinMax(min, max, true))
    ensures ReadEntry(1, Unsigned(min), step + (if mute then 0x10000 else 0) + 0x20000 * other)
         == Some(Scale(min, step, mute))
  {
    var w := step + (if mute then 0x10000 else 0) + 0x20000 * other;
    DivUnique(w, 0x10000, (if mute then 1 else 0) + 2 * other);
    ModUnique(w, step, (if mute then 1 else 0) + 2 * other, 0x10000);
  }

  /** Other types are no such entry. */
  lemma {:induction false} OnlyThreeTypes(typ: Word, w2: Word, w3: Word)
    ensures ReadEntry(typ, w2, w3).Some? <==> typ == 1 || typ == 4 || typ == 5
  {
  }

  /** The gain of a volume as the words of the entry give it: on a straight line through both ends
      for a min/max entry, rounded toward its first end, and in equal steps for a scale; type 5, and
      a scale with its mute bit, are silent at the bottom. */
  ghost predicate GainInWords(typ: Word, w2: Word, w3: Word, low: int, high: int, volume: int, gain: int) {
    var first, second := ToInt(w2), ToInt(w3);
    && (typ == 4 || typ == 5 ==>
          && (volume <= low || high <= low ==> gain == if typ == 5 then -9_999_999 else first)
          && (low < high <= volume ==> gain == second)
          && (low < volume < high ==> IsQuotient((second - first) * (volume - low), high - low, gain - first)))
    && (typ == 1 ==>
          gain == if (w3 / 0x10000) % 2 == 1 && volume == low then -9_999_999
                  else (volume - low) * (w3 % 0x10000) + first)
  }

  lemma {:induction false} EntryGain(typ: Word, w2: Word, w3: Word, low: int, high: int, volume: int)
    requires ReadEntry(typ, w2, w3).Some?
    ensures GainInWords(typ, w2, w3, low, high, volume, ToDb(ReadEntry(typ, w2, w3).value, low, high, volume))
  {
    if low < volume < high {
      TruncDivIs((ToInt(w3) - ToInt(w2)) * (volume - low), high - low);
    }
    hide TruncDiv, IsQuotient, ToInt;
  }

  /** The least and greatest gain of the volumes from low to high, as the words give them. */
  ghost predicate BoundsInWords(typ: Word, w2: Word, w3: Word, low: int, high: int, min: int, max: int) {
    var first, second := ToInt(w2), ToInt(w3);
    && (typ == 4 ==> min == first && max == second)
    && (typ == 5 ==> min == -9_999_999 && max == second)
    && (typ == 1 ==>
          && min == (if (w3 / 0x10000) % 2 == 1 then -9_999_999 else first)
          && max == first + (w3 % 0x10000) * (high - low))
  }

  lemma {:induction false} EntryBounds(typ: Word, w2: Word, w3: Word, low: int, high: int)
    requires ReadEntry(typ, w2, w3).Some?
    ensures var r := DbRange(ReadEntry(typ, w2, w3).value, low, high);
            BoundsInWords(typ, w2, w3, low, high, r.0, r.1)
  {
  }
}
