/** The short names of channel positions, and that no two are alike. */
module ChannelNames {

  const LAST: nat := 36

  /** By position, from SND_CHMAP_UNKNOWN to SND_CHMAP_LAST. */
  const NAMES: seq<string> := [
    "UNKNOWN", "NA", "MONO", "FL", "FR", "RL", "RR", "FC", "LFE", "SL", "SR",
    "RC", "FLC", "FRC", "RLC", "RRC", "FLW", "FRW", "FLH", "FCH", "FRH", "TC",
    "TFL", "TFR", "TFC", "TRL", "TRR", "TRC", "TFLC", "TFRC", "TSL", "TSR",
    "LLFE", "RLFE", "BC", "BLC", "BRC"]

  predicate IsUpper(c: char) { 'A' <= c <= 'Z' }

  /** A number that tells the names apart: their first four letters in base 32. */
  function Signature(s: string): int
    requires |s| >= 2
  {
    (((s[0] as int - 64) * 32 + (s[1] as int - 64)) * 32 + (if |s| > 2 then s[2] as int - 64 else 0)) * 32
    + (if |s| > 3 then s[3] as int - 64 else 0)
  }

  /** The position with that signature. */
  function PositionOf(signature: int): int {
    if signature == 702830 then 0
    else if signature == 459776 then 1
    else if signature == 441807 then 2
    else if signature == 208896 then 3
    else if signature == 215040 then 4
    else if signature == 602112 then 5
    else if signature == 608256 then 6
    else if signature == 199680 then 7
    else if signature == 399520 then 8
    else if signature == 634880 then 9
    else if signature == 641024 then 10
    else if signature == 592896 then 11
    else if signature == 208992 then 12
    else if signature == 215136 then 13
    else if signature == 602208 then 14
    else if signature == 608352 then 15
    else if signature == 209632 then 16
    else if signature == 215776 then 17
    else if signature == 209152 then 18
    else if signature == 199936 then 19
    else if signature == 215296 then 20
    else if signature == 658432 then 21
    else if signature == 661888 then 22
    else if signature == 662080 then 23
    else if signature == 661600 then 24
    else if signature == 674176 then 25
    else if signature == 674368 then 26
    else if signature == 673888 then 27
    else if signature == 661891 then 28
    else if signature == 662083 then 29
    else if signature == 675200 then 30
    else if signature == 675392 then 31
    else if signature == 405701 then 32
    else if signature == 602309 then 33
    else if signature == 68608 then 34
    else if signature == 77920 then 35
    else if signature == 84064 then 36
    else -1
  }

  /** A name is a word of capital letters, does not begin like a numbered channel, and its
      signature gives its position back. */
  ghost predicate Named(p: nat)
    requires p <= LAST
  {
    && |NAMES[p]| >= 2
    && (forall k :: 0 <= k < |NAMES[p]| ==> IsUpper(NAMES[p][k]))
    && !(NAMES[p][0] == 'C' && NAMES[p][1] == 'H')
    && PositionOf(Signature(NAMES[p])) == p
  }

  lemma {:induction false} Named0To4(p: nat)
    requires 0 <= p <= 4
    ensures Named(p)
  {
    if p == 0 {
      assert NAMES[0] == "UNKNOWN";
    } else if p == 1 {
      assert NAMES[1] == "NA";
    } else if p == 2 {
      assert NAMES[2] == "MONO";
    } else if p == 3 {
      assert NAMES[3] == "FL";
    } else if p == 4 {
      assert NAMES[4] == "FR";
    }
  }

  lemma {:induction false} Named5To9(p: nat)
    requires 5 <= p <= 9
    ensures Named(p)
  {
    if p == 5 {
      assert NAMES[5] == "RL";
    } else if p == 6 {
      assert NAMES[6] == "RR";
    } else if p == 7 {
      assert NAMES[7] == "FC";
    } else if p == 8 {
      assert NAMES[8] == "LFE";
    } else if p == 9 {
      assert NAMES[9] == "SL";
    }
  }

  lemma {:induction false} Named10To18(p: nat)
    requires 10 <= p <= 18
    ensures Named(p)
  {
    if p == 10 {
      assert NAMES[10] == "SR";
    } else if p == 11 {
      assert NAMES[11] == "RC";
    } else if p == 12 {
      assert NAMES[12] == "FLC";
    } else if p == 13 {
      assert NAMES[13] == "FRC";
    } else if p == 14 {
      assert NAMES[14] == "RLC";
    } else if p == 15 {
      assert NAMES[15] == "RRC";
    } else if p == 16 {
      assert NAMES[16] == "FLW";
    } else if p == 17 {
      assert NAMES[17] == "FRW";
    } else if p == 18 {
      assert NAMES[18] == "FLH";
    }
  }

  lemma {:induction false} Named19To27(p: nat)
    requires 19 <= p <= 27
    ensures Named(p)
  {
    if p == 19 {
      assert NAMES[19] == "FCH";
    } else if p == 20 {
      assert NAMES[20] == "FRH";
    } else if p == 21 {
      assert NAMES[21] == "TC";
    } else if p == 22 {
      assert NAMES[22] == "TFL";
    } else if p == 23 {
      assert NAMES[23] == "TFR";
    } else if p == 24 {
      assert NAMES[24] == "TFC";
    } else if p == 25 {
      assert NAMES[25] == "TRL";
    } else if p == 26 {
      assert NAMES[26] == "TRR";
    } else if p == 27 {
      assert NAMES[27] == "TRC";
    }
  }

  lemma {:induction false} Named28To36(p: nat)
    requires 28 <= p <= 36
    ensures Named(p)
  {
    if p == 28 {
      assert NAMES[28] == "TFLC";
    } else if p == 29 {
      assert NAMES[29] == "TFRC";
    } else if p == 30 {
      assert NAMES[30] == "TSL";
    } else if p == 31 {
      assert NAMES[31] == "TSR";
    } else if p == 32 {
      assert NAMES[32] == "LLFE";
    } else if p == 33 {
      assert NAMES[33] == "RLFE";
    } else if p == 34 {
      assert NAMES[34] == "BC";
    } else if p == 35 {
      assert NAMES[35] == "BLC";
    } else if p == 36 {
      assert NAMES[36] == "BRC";
    }
  }

  lemma {:induction false} AllNamed(p: nat)
    requires p <= LAST
    ensures Named(p)
  {
    if p <= 4 {
      Named0To4(p);
    } else if p <= 9 {
      Named5To9(p);
    } else if p <= 18 {
      Named10To18(p);
    } else if p <= 27 {
      Named19To27(p);
    } else {
      Named28To36(p);
    }
  }

  /** No two positions have one name. */
  lemma {:induction false} NamesDistinct(p: nat, q: nat)
    requires p <= LAST && q <= LAST
    ensures NAMES[p] == NAMES[q] ==> p == q
  {
    AllNamed(p);
    AllNamed(q);
    hide NAMES, PositionOf, Signature;
  }
}
