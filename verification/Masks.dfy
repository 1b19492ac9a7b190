/** 256-bit masks: sets of small numbers, kept in eight 32-bit words that are changed in place. */
module Masks {
  import opened Arith
  import opened Bits

  const MASK_MAX: nat := 256
  const WORDS: nat := 8

  type MaskSet = m: set<nat> | forall n :: n in m ==> n < 256 witness {}

  datatype MaskResult = MaskResult(ret: int, m: MaskSet)

  // ---------------------------------------------------------------- as sets

  predicate Single(m: MaskSet) { forall x, y | x in m && y in m :: x == y }

  /** The least member; 0 for the empty mask. */
  function LeastFrom(m: MaskSet, k: nat): (n: nat)
    requires k <= MASK_MAX
    ensures (exists x :: x in m && k <= x) ==> n in m && k <= n && forall x :: x in m && k <= x ==> n <= x
    ensures (forall x :: x in m ==> x < k) ==> n == 0
    decreases MASK_MAX - k
  {
    if k == MASK_MAX then 0 else if k in m then k else LeastFrom(m, k + 1)
  }

  /** The greatest member below k; 0 if there is none. */
  function GreatestBelow(m: MaskSet, k: nat): (n: nat)
    ensures (exists x :: x in m && x < k) ==> n in m && n < k && forall x :: x in m && x < k ==> x <= n
    ensures (forall x :: x in m ==> k <= x) ==> n == 0
  {
    if k == 0 then 0 else if k - 1 in m then k - 1 else GreatestBelow(m, k - 1)
  }

  function Least(m: MaskSet): nat { LeastFrom(m, 0) }

  function Greatest(m: MaskSet): nat { GreatestBelow(m, MASK_MAX) }

  lemma {:induction false} LeastGreatest(m: MaskSet)
    ensures m != {} ==>
      && Least(m) in m && (forall x :: x in m ==> Least(m) <= x)
      && Greatest(m) in m && (forall x :: x in m ==> x <= Greatest(m))
    ensures m == {} ==> Least(m) == 0 && Greatest(m) == 0
  {
    if m != {} {
      var w :| w in m;
      assert w < MASK_MAX;
    }
  }

  /** Intersection. When something went, the result is memcmp's, which is then negative: a byte
      that lost bits is a smaller one. */
  ghost predicate MaskRefined(ret: int, m: MaskSet, old_m: MaskSet, v: MaskSet) {
    && m == old_m * v
    && (m == {} ==> ret == -EINVAL)
    && (m != {} && m == old_m ==> ret == 0)
    && (m != {} && m != old_m ==> ret < 0)
  }

  function MaskFirst(m: MaskSet): MaskResult {
    if m == {} then MaskResult(-ENOENT, m)
    else if Single(m) then MaskResult(0, m)
    else LeastGreatest(m); MaskResult(1, {Least(m)})
  }

  function MaskLast(m: MaskSet): MaskResult {
    if m == {} then MaskResult(-ENOENT, m)
    else if Single(m) then MaskResult(0, m)
    else LeastGreatest(m); MaskResult(1, {Greatest(m)})
  }

  /** Keeps the members from `val` up. */
  function MaskMin(m: MaskSet, val: nat): MaskResult {
    var kept := set n | n in m && val <= n;
    if m == {} then MaskResult(-ENOENT, m)
    else MaskResult(if kept == m then 0 else if kept == {} then -EINVAL else 1, kept)
  }

  /** Keeps the members up to `val`. */
  function MaskMax(m: MaskSet, val: nat): MaskResult {
    var kept := set n | n in m && n <= val;
    if m == {} then MaskResult(-ENOENT, m)
    else MaskResult(if kept == m then 0 else if kept == {} then -EINVAL else 1, kept)
  }

  /** Keeps `val` alone. */
  function MaskOnly(m: MaskSet, val: nat): MaskResult {
    if m == {} then MaskResult(-ENOENT, m)
    else if val in m then MaskResult(if Single(m) then 0 else 1, {val})
    else MaskResult(-EINVAL, {})
  }

  // ---------------------------------------------------------------- as words

  ghost function Members(bits: seq<Word>): MaskSet
    requires |bits| == WORDS
  {
    set n | 0 <= n < 256 && Bit(bits[n / 32], n % 32)
  }

  lemma {:induction false} MemberOf(bits: seq<Word>, i: nat, b: nat)
    requires |bits| == WORDS && i < WORDS && Bit(bits[i], b)
    ensures b < 32 && 32 * i + b in Members(bits)
  {
    Constants();
    if b >= 32 {
      HighBits(bits[i], 32, b);
    }
    DivUnique(32 * i + b, 32, i);
    assert (32 * i + b) / 32 == i && (32 * i + b) % 32 == b;
  }

  /** A word is 0 exactly when the mask has no member in its range. */
  lemma {:induction false} WordEmpty(bits: seq<Word>, i: nat)
    requires |bits| == WORDS && i < WORDS
    ensures bits[i] == 0 <==> forall n :: n in Members(bits) ==> n / 32 != i
  {
    if bits[i] == 0 {
      forall n | n in Members(bits)
        ensures n / 32 != i
      {
        ZeroBit(n % 32);
      }
    } else {
      var b := LowestBit(bits[i]);
      MemberOf(bits, i, b);
      assert (32 * i + b) / 32 == i;
    }
  }

  class Mask {
    const bits: array<Word>

    ghost predicate Valid()
      reads this
    {
      bits.Length == WORDS
    }

    ghost function View(): MaskSet
      reads this, bits
      requires Valid()
    {
      Members(bits[..])
    }

    constructor ()
      ensures Valid() && fresh(bits) && View() == {}
    {
      bits := new Word[WORDS](_ => 0);
      new;
      forall n: nat
        ensures !Bit(0, n)
      {
        ZeroBit(n);
      }
      assert View() == {};
    }

    method Clear()
      requires Valid()
      modifies bits
      ensures View() == {}
      ensures forall k :: 0 <= k < WORDS ==> bits[k] == 0
    {
      forall k | 0 <= k < WORDS {
        bits[k] := 0;
      }
      forall n: nat
        ensures !Bit(0, n)
      {
        ZeroBit(n);
      }
      assert View() == {};
    }

    method Set(val: nat)
      requires Valid() && val < MASK_MAX
      modifies bits
      ensures View() == old(View()) + {val}
    {
      var w := bits[val / 32];
      BoundedPow2(val % 32);
      OrBound(w, Pow2(val % 32), 32);
      bits[val / 32] := Or(w, Pow2(val % 32));
      forall n: nat | n < MASK_MAX
        ensures n in View() <==> n in old(View()) || n == val
      {
        OrBit(w, Pow2(val % 32), n % 32);
        Pow2Bit(val % 32, n % 32);
      }
    }

    method Reset(val: nat)
      requires Valid() && val < MASK_MAX
      modifies bits
      ensures View() == old(View()) - {val}
    {
      var w := bits[val / 32];
      BoundedPow2(val % 32);
      var complement := UINT_MAX - Pow2(val % 32);
      AndBound(w, complement);
      bits[val / 32] := And(w, complement);
      forall n: nat | n < MASK_MAX
        ensures n in View() <==> n in old(View()) && n != val
      {
        AndBit(w, complement, n % 32);
        ComplementBit(Pow2(val % 32), 32, n % 32);
        Pow2Bit(val % 32, n % 32);
      }
    }

    /** The masked word, not a truth value. */
    method Test(val: nat) returns (masked: Word)
      requires Valid() && val < MASK_MAX
      ensures masked == And(bits[val / 32], Pow2(val % 32))
      ensures forall i: nat :: Bit(masked, i) <==> i == val % 32 && val in View()
    {
      AndBound(bits[val / 32], Pow2(val % 32));
      masked := And(bits[val / 32], Pow2(val % 32));
      forall i: nat
        ensures Bit(masked, i) <==> i == val % 32 && val in View()
      {
        AndBit(bits[val / 32], Pow2(val % 32), i);
        Pow2Bit(val % 32, i);
      }
    }

    method IsEmpty() returns (r: bool)
      requires Valid()
      ensures r <==> View() == {}
    {
      var i := 0;
      while i < WORDS
        invariant i <= WORDS
        invariant forall n :: n in View() ==> n / 32 >= i
      {
        WordEmpty(bits[..], i);
        if bits[i] != 0 {
          return false;
        }
        i := i + 1;
      }
      return true;
    }

    method IsSingle() returns (r: bool)
      requires Valid()
      ensures r <==> Single(View())
    {
      var i, c := 0, 0;
      ghost var seen := 0;
      while i < WORDS
        invariant i <= WORDS && (c == 0 || c == 1)
        invariant c == 0 ==> forall n :: n in View() ==> n / 32 >= i
        invariant c == 1 ==> seen in View() && seen / 32 < i && forall n :: n in View() && n / 32 < i ==> n == seen
      {
        WordEmpty(bits[..], i);
        if bits[i] != 0 {
          ClearLowest(bits[i]);
          if And(bits[i], bits[i] - 1) != 0 {
            ghost var x: nat, y: nat :| Bit(bits[i], x) && Bit(bits[i], y) && x != y;
            MemberOf(bits[..], i, x);
            MemberOf(bits[..], i, y);
            return false;
          }
          ghost var b := LowestBit(bits[i]);
          MemberOf(bits[..], i, b);
          if c != 0 {
            assert 32 * i + b in View() && (32 * i + b) / 32 == i;
            return false;
          }
          c := c + 1;
          seen := 32 * i + b;
          forall n | n in View() && n / 32 == i
            ensures n == seen
          {
            assert Bit(bits[i], n % 32) && Bit(bits[i], b);
          }
        }
        i := i + 1;
      }
      return true;
    }

    method LeaveSingle(val: nat)
      requires Valid() && val < MASK_MAX
      modifies bits
      ensures View() == old(View()) * {val}
    {
      var v := Test(val);
      Clear();
      bits[val / 32] := v;
      forall n: nat | n < MASK_MAX
        ensures n in View() <==> n in old(View()) && n == val
      {
        ZeroBit(n % 32);
      }
    }

    method ResetRange(from: nat, to: nat)
      requires Valid() && to < MASK_MAX
      modifies bits
      ensures View() == set n | n in old(View()) && !(from <= n <= to)
    {
      var k := from;
      while k <= to
        invariant from <= k
        invariant View() == set n | n in old(View()) && !(from <= n < k)
        invariant if from <= to then k <= to + 1 else k == from
      {
        Reset(k);
        k := k + 1;
      }
    }

    method GetMax() returns (r: nat)
      requires Valid()
      ensures r == Greatest(View())
    {
      LeastGreatest(View());
      var i := WORDS - 1;
      while i >= 0
        invariant -1 <= i < WORDS
        invariant forall n :: n in View() ==> n / 32 <= i
      {
        WordEmpty(bits[..], i);
        if bits[i] != 0 {
          var b := Ld2(bits[i]);
          MemberOf(bits[..], i, b);
          assert 32 * i + b in View();
          assert Greatest(View()) / 32 == i;
          return b + 32 * i;
        }
        i := i - 1;
      }
      return 0;
    }

    method GetMin() returns (r: nat)
      requires Valid()
      ensures r == Least(View())
    {
      LeastGreatest(View());
      var i := 0;
      while i < WORDS
        invariant i <= WORDS
        invariant forall n :: n in View() ==> n / 32 >= i
      {
        WordEmpty(bits[..], i);
        if bits[i] != 0 {
          var b := Ffs(bits[i]) - 1;
          MemberOf(bits[..], i, b);
          assert 32 * i + b in View();
          assert Least(View()) / 32 == i;
          return b + 32 * i;
        }
        i := i + 1;
      }
      return 0;
    }

    method RefineFirst() returns (ret: int)
      requires Valid()
      modifies bits
      ensures MaskResult(ret, View()) == MaskFirst(old(View()))
    {
      LeastGreatest(View());
      var e := IsEmpty();
      if e {
        return -ENOENT;
      }
      var s := IsSingle();
      if s {
        return 0;
      }
      var min := GetMin();
      LeaveSingle(min);
      return 1;
    }

    method RefineLast() returns (ret: int)
      requires Valid()
      modifies bits
      ensures MaskResult(ret, View()) == MaskLast(old(View()))
    {
      LeastGreatest(View());
      var e := IsEmpty();
      if e {
        return -ENOENT;
      }
      var s := IsSingle();
      if s {
        return 0;
      }
      var max := GetMax();
      LeaveSingle(max);
      return 1;
    }

    /** A value above 256 would reach past the words. */
    method RefineMin(val: nat) returns (ret: int)
      requires Valid() && val <= MASK_MAX
      modifies bits
      ensures MaskResult(ret, View()) == MaskMin(old(View()), val)
    {
      hide Members, LeastFrom;
      LeastGreatest(View());
      ghost var kept := set n | n in View() && val <= n;
      var e := IsEmpty();
      if e {
        assert kept == {};
        return -ENOENT;
      }
      var min := GetMin();
      if min >= val {
        assert kept == View();
        return 0;
      }
      assert min !in kept;
      ResetRange(0, val - 1);
      assert View() == kept;
      e := IsEmpty();
      if e {
        return -EINVAL;
      }
      return 1;
    }

    method RefineMax(val: nat) returns (ret: int)
      requires Valid()
      modifies bits
      ensures MaskResult(ret, View()) == MaskMax(old(View()), val)
    {
      LeastGreatest(View());
      ghost var kept := set n | n in View() && n <= val;
      var e := IsEmpty();
      if e {
        assert kept == {};
        return -ENOENT;
      }
      var max := GetMax();
      if max <= val {
        assert kept == View();
        return 0;
      }
      assert max !in kept;
      ResetRange(val + 1, MASK_MAX - 1);
      assert View() == kept;
      e := IsEmpty();
      if e {
        return -EINVAL;
      }
      return 1;
    }

    method RefineSet(val: nat) returns (ret: int)
      requires Valid() && val < MASK_MAX
      modifies bits
      ensures MaskResult(ret, View()) == MaskOnly(old(View()), val)
    {
      var e := IsEmpty();
      if e {
        return -ENOENT;
      }
      var s := IsSingle();
      LeaveSingle(val);
      assert val in old(View()) ==> val in View();
      e := IsEmpty();
      if e {
        return -EINVAL;
      }
      return if s then 0 else 1;
    }

    method Refine(v: Mask) returns (ret: int)
      requires Valid() && v.Valid()
      modifies bits
      ensures MaskRefined(ret, View(), old(View()), old(v.View()))
    {
      var before := bits[..];
      ghost var other := v.bits[..];
      var i := 0;
      while i < WORDS
        invariant i <= WORDS
        invariant forall k :: 0 <= k < WORDS ==> bits[k] == if k < i then And(before[k], other[k]) else before[k]
        invariant forall k :: i <= k < WORDS ==> v.bits[k] == other[k]
      {
        AndBound(bits[i], v.bits[i]);
        bits[i] := And(bits[i], v.bits[i]);
        i := i + 1;
      }
      forall n: nat | n < MASK_MAX
        ensures n in View() <==> n in old(View()) && n in old(v.View())
      {
        AndBit(before[n / 32], other[n / 32], n % 32);
      }
      var e := IsEmpty();
      if e {
        return -EINVAL;
      }
      ret := Compare(before, other);
    }

    /** What memcmp says of the words and what they were. */
    method Compare(before: seq<Word>, ghost other: seq<Word>) returns (ret: int)
      requires Valid() && |before| == |other| == WORDS
      requires forall k :: 0 <= k < WORDS ==> bits[k] == And(before[k], other[k])
      ensures ret <= 0 && (ret == 0 <==> View() == Members(before))
    {
      NarrowedIsLess(bits[..], before, other);
      if bits[..] != before && View() == Members(before) {
        SameMembers(bits[..], before);
        assert false;
      }
      var sign, size := Memcmp(MaskBytes(bits[..]), MaskBytes(before)), 1;
      size :| size >= 1;
      ret := if sign < 0 then -size else if sign > 0 then size else 0;
    }
  }

  /** The bytes of the words as they lie in memory, the low one first. */
  function MaskBytes(words: seq<Word>): seq<nat> {
    seq(4 * |words|, k requires 0 <= k < 4 * |words| => And(Shr(words[k / 4], 8 * (k % 4)), 255))
  }

  /** The sign of memcmp's result. */
  function Memcmp(a: seq<nat>, b: seq<nat>): int
    requires |a| == |b|
  {
    if a == [] then 0 else if a[0] < b[0] then -1 else if a[0] > b[0] then 1 else Memcmp(a[1..], b[1..])
  }

  lemma {:induction false} NoneGreater(a: seq<nat>, b: seq<nat>)
    requires |a| == |b| && forall k :: 0 <= k < |a| ==> a[k] <= b[k]
    ensures Memcmp(a, b) <= 0 && (Memcmp(a, b) == 0 <==> a == b)
  {
    if a != [] {
      if a[0] == b[0] {
        NoneGreater(a[1..], b[1..]);
        assert a == [a[0]] + a[1..] && b == [b[0]] + b[1..];
      }
    }
  }

  /** Fewer digits, smaller number. */
  lemma {:induction false} FewerBits(x: nat, y: nat)
    requires forall k: nat :: Bit(x, k) ==> Bit(y, k)
    ensures x <= y
  {
    if x != 0 {
      forall k: nat | Bit(x / 2, k)
        ensures Bit(y / 2, k)
      {
        assert Bit(x, k + 1);
      }
      assert Bit(x, 0) ==> Bit(y, 0);
      FewerBits(x / 2, y / 2);
    }
  }

  lemma {:induction false} ByteNarrows(x: Word, y: Word, shift: nat)
    ensures And(Shr(And(x, y), shift), 255) <= And(Shr(x, shift), 255)
  {
    forall k: nat | Bit(And(Shr(And(x, y), shift), 255), k)
      ensures Bit(And(Shr(x, shift), 255), k)
    {
      AndBit(Shr(And(x, y), shift), 255, k);
      AndBit(Shr(x, shift), 255, k);
      ShrBit(And(x, y), shift, k);
      ShrBit(x, shift, k);
      AndBit(x, y, shift + k);
    }
    FewerBits(And(Shr(And(x, y), shift), 255), And(Shr(x, shift), 255));
  }

  /** Digit i of a word is digit i % 8 of its byte i / 8. */
  lemma {:induction false} DigitOfByte(w: Word, i: nat)
    requires i < 32
    ensures Bit(w, i) <==> Bit(And(Shr(w, 8 * (i / 8)), 255), i % 8)
  {
    ShrBit(w, 8 * (i / 8), i % 8);
    AndBit(Shr(w, 8 * (i / 8)), 255, i % 8);
    LowByte(i % 8);
  }

  lemma {:induction false} LowByte(i: nat)
    requires i < 8
    ensures Bit(255, i)
  {
    ComplementBit(0, 8, i);
    Constants();
    ZeroBit(i);
  }

  lemma {:induction false} SameBytes(a: seq<Word>, b: seq<Word>)
    requires |a| == |b| && MaskBytes(a) == MaskBytes(b)
    ensures a == b
  {
    forall i | 0 <= i < |a|
      ensures a[i] == b[i]
    {
      forall k: nat | k < 32
        ensures Bit(a[i], k) <==> Bit(b[i], k)
      {
        DigitOfByte(a[i], k);
        DigitOfByte(b[i], k);
        var j := 4 * i + k / 8;
        assert j / 4 == i && j % 4 == k / 8;
        assert MaskBytes(a)[j] == And(Shr(a[i], 8 * (k / 8)), 255);
        assert MaskBytes(b)[j] == And(Shr(b[i], 8 * (k / 8)), 255);
      }
      Constants();
      SameDigits(a[i], b[i], 32);
    }
  }

  lemma {:induction false} NarrowedIsLess(after: seq<Word>, before: seq<Word>, other: seq<Word>)
    requires |after| == |before| == |other|
    requires forall k :: 0 <= k < |after| ==> after[k] == And(before[k], other[k])
    ensures var sign := Memcmp(MaskBytes(after), MaskBytes(before));
            sign <= 0 && (sign == 0 <==> after == before)
  {
    var a, b := MaskBytes(after), MaskBytes(before);
    forall k | 0 <= k < |a|
      ensures a[k] <= b[k]
    {
      ByteNarrows(before[k / 4], other[k / 4], 8 * (k % 4));
    }
    NoneGreater(a, b);
    if a == b {
      SameBytes(after, before);
    }
  }

  lemma {:induction false} BoundedPow2(i: nat)
    requires i < 32
    ensures Pow2(i) < Pow2(32) == UINT_RANGE
  {
    Constants();
    Pow2Mono(i, 31);
  }

  /** A mask has one representation. */
  lemma {:induction false} SameMembers(a: seq<Word>, b: seq<Word>)
    requires |a| == |b| == WORDS && Members(a) == Members(b)
    ensures a == b
  {
    forall i | 0 <= i < WORDS
      ensures a[i] == b[i]
    {
      Constants();
      forall k: nat | k < 32
        ensures Bit(a[i], k) <==> Bit(b[i], k)
      {
        assert (32 * i + k) / 32 == i && (32 * i + k) % 32 == k;
        assert 32 * i + k in Members(a) <==> 32 * i + k in Members(b);
      }
      SameDigits(a[i], b[i], 32);
    }
  }

  lemma {:induction false} SameDigits(x: nat, y: nat, n: nat)
    requires x < Pow2(n) && y < Pow2(n) && forall k: nat :: k < n ==> (Bit(x, k) <==> Bit(y, k))
    ensures x == y
  {
    if n > 0 {
      assert Bit(x, 0) <==> Bit(y, 0);
      forall k: nat | k < n - 1
        ensures Bit(x / 2, k) <==> Bit(y / 2, k)
      {
        assert Bit(x, k + 1) <==> Bit(y, k + 1);
      }
      SameDigits(x / 2, y / 2, n - 1);
    }
  }
}
