/** Binary digits of natural numbers, and C's bitwise operators on them. */
module Bits {
  import opened Arith

  function Pow2(k: nat): (p: nat)
    ensures p > 0
  {
    if k == 0 then 1 else 2 * Pow2(k - 1)
  }

  predicate Bit(w: nat, i: nat) {
    if i == 0 then w % 2 == 1 else Bit(w / 2, i - 1)
  }

  function And(x: nat, y: nat): nat {
    if x == 0 || y == 0 then 0 else (if x % 2 == 1 && y % 2 == 1 then 1 else 0) + 2 * And(x / 2, y / 2)
  }

  function Or(x: nat, y: nat): nat {
    if x == 0 then y else (if x % 2 == 1 || y % 2 == 1 then 1 else 0) + 2 * Or(x / 2, y / 2)
  }

  lemma {:induction false} ZeroBit(i: nat)
    ensures !Bit(0, i)
  {
    if i > 0 {
      ZeroBit(i - 1);
    }
  }

  lemma {:induction false} AndBit(x: nat, y: nat, i: nat)
    ensures Bit(And(x, y), i) <==> Bit(x, i) && Bit(y, i)
  {
    if x == 0 || y == 0 {
      ZeroBit(i);
    } else if i > 0 {
      AndBit(x / 2, y / 2, i - 1);
    }
  }

  lemma {:induction false} AndBound(x: nat, y: nat)
    ensures And(x, y) <= x && And(x, y) <= y
  {
    if x != 0 && y != 0 {
      AndBound(x / 2, y / 2);
    }
  }

  lemma {:induction false} OrBit(x: nat, y: nat, i: nat)
    ensures Bit(Or(x, y), i) <==> Bit(x, i) || Bit(y, i)
  {
    if x == 0 {
      ZeroBit(i);
    } else if i > 0 {
      OrBit(x / 2, y / 2, i - 1);
    }
  }

  lemma {:induction false} OrBound(x: nat, y: nat, k: nat)
    requires x < Pow2(k) && y < Pow2(k)
    ensures Or(x, y) < Pow2(k)
  {
    if x != 0 && k > 0 {
      OrBound(x / 2, y / 2, k - 1);
    }
  }

  lemma {:induction false} Pow2Bit(k: nat, i: nat)
    ensures Bit(Pow2(k), i) <==> i == k
  {
    if k == 0 {
      if i > 0 {
        ZeroBit(i - 1);
      }
    } else if i > 0 {
      Pow2Bit(k - 1, i - 1);
    }
  }

  /** Numbers with the same digits are the same. */
  lemma {:induction false} SameBits(x: nat, y: nat)
    requires forall k: nat :: Bit(x, k) <==> Bit(y, k)
    ensures x == y
    decreases x + y
  {
    if x + y > 0 {
      forall k: nat
        ensures Bit(x / 2, k) <==> Bit(y / 2, k)
      {
        assert Bit(x, k + 1) <==> Bit(y, k + 1);
      }
      assert Bit(x, 0) <==> Bit(y, 0);
      SameBits(x / 2, y / 2);
    }
  }

  lemma {:induction false} Pow2Mono(j: nat, k: nat)
    requires j <= k
    ensures Pow2(j) <= Pow2(k)
    decreases k - j
  {
    if j < k {
      Pow2Mono(j + 1, k);
    }
  }

  lemma {:induction false} Pow2Add(j: nat, k: nat)
    ensures Pow2(j + k) == Pow2(j) * Pow2(k)
  {
    if j > 0 {
      Pow2Add(j - 1, k);
      assert Pow2(j + k) == 2 * Pow2(j - 1 + k);
    }
  }

  /** Complement within n digits. */
  lemma {:induction false} ComplementBit(x: nat, n: nat, i: nat)
    requires x < Pow2(n) && i < n
    ensures Pow2(n) - 1 - x >= 0
    ensures Bit(Pow2(n) - 1 - x, i) <==> !Bit(x, i)
  {
    var y := Pow2(n) - 1 - x;
    assert y % 2 == 1 - x % 2 && y / 2 == Pow2(n - 1) - 1 - x / 2;
    if i > 0 {
      ComplementBit(x / 2, n - 1, i - 1);
    }
  }

  /** Digits beyond the width are 0, and only 0 has no digit at all. */
  lemma {:induction false} HighBits(w: nat, n: nat, i: nat)
    requires w < Pow2(n) && n <= i
    ensures !Bit(w, i)
  {
    if n == 0 {
      ZeroBit(i);
    } else {
      HighBits(w / 2, n - 1, i - 1);
    }
  }

  /** The position of some digit 1, the lowest. */
  lemma {:induction false} LowestBit(w: nat) returns (i: nat)
    requires w > 0
    ensures Bit(w, i) && forall j: nat :: j < i ==> !Bit(w, j)
  {
    if w % 2 == 1 {
      i := 0;
    } else {
      var k := LowestBit(w / 2);
      i := k + 1;
      forall j: nat | j < i
        ensures !Bit(w, j)
      {
        if j > 0 {
          assert !Bit(w / 2, j - 1);
        }
      }
    }
  }

  /** `w & (w - 1)` is 0 exactly when w has no two digits 1. */
  lemma {:induction false} ClearLowest(w: nat)
    requires w > 0
    ensures And(w, w - 1) == 0 ==> forall i: nat, j: nat :: Bit(w, i) && Bit(w, j) ==> i == j
    ensures And(w, w - 1) != 0 ==> exists i: nat, j: nat :: Bit(w, i) && Bit(w, j) && i != j
  {
    var l := LowestBit(w);
    AndLowest(w, l);
    if And(w, w - 1) == 0 {
      forall i: nat, j: nat | Bit(w, i) && Bit(w, j)
        ensures i == j
      {
        AndLowestBit(w, l, i);
        AndLowestBit(w, l, j);
        ZeroBit(i);
        ZeroBit(j);
      }
    } else {
      var k := LowestBit(And(w, w - 1));
      AndLowestBit(w, l, k);
      assert Bit(w, k) && Bit(w, l) && k != l;
    }
  }

  lemma {:induction false} AndLowest(w: nat, l: nat)
    requires w > 0 && Bit(w, l)
    ensures l > 0 && w % 2 == 0 ==> w / 2 > 0 && Bit(w / 2, l - 1) && (w - 1) / 2 == w / 2 - 1
  {
    if w / 2 == 0 && l > 0 {
      ZeroBit(l - 1);
    }
  }

  /** `w & (w - 1)` has the digits of w but the lowest. */
  lemma {:induction false} AndLowestBit(w: nat, l: nat, i: nat)
    requires w > 0 && Bit(w, l) && forall j: nat :: j < l ==> !Bit(w, j)
    ensures Bit(And(w, w - 1), i) <==> Bit(w, i) && i != l
  {
    AndBit(w, w - 1, i);
    MinusOneBit(w, l, i);
  }

  lemma {:induction false} MinusOneBit(w: nat, l: nat, i: nat)
    requires w > 0 && Bit(w, l) && forall j: nat :: j < l ==> !Bit(w, j)
    ensures Bit(w - 1, i) <==> (if i < l then true else if i == l then false else Bit(w, i))
  {
    if w % 2 == 1 {
      assert Bit(w, 0);
      assert (w - 1) / 2 == w / 2;
    } else {
      AndLowest(w, l);
      forall j: nat | j < l - 1
        ensures !Bit(w / 2, j)
      {
        assert !Bit(w, j + 1);
      }
      if i > 0 {
        MinusOneBit(w / 2, l - 1, i - 1);
      }
    }
  }

  /** `w >> r` */
  function Shr(w: nat, r: nat): nat
    decreases r
  {
    if r == 0 then w else Shr(w / 2, r - 1)
  }

  lemma {:induction false} ShrBit(w: nat, r: nat, i: nat)
    ensures Bit(Shr(w, r), i) <==> Bit(w, r + i)
    decreases r
  {
    if r > 0 {
      ShrBit(w / 2, r - 1, i);
    }
  }

  lemma {:induction false} ShrShr(w: nat, r: nat, k: nat)
    ensures Shr(Shr(w, r), k) == Shr(w, r + k)
    decreases r
  {
    if r > 0 {
      ShrShr(w / 2, r - 1, k);
    }
  }

  /** What remains after a shift, and whether anything does. */
  lemma {:induction false} ShrBound(v: nat, k: nat, n: nat)
    requires v < Pow2(k + n)
    ensures Shr(v, k) < Pow2(n)
    ensures v >= Pow2(k) <==> Shr(v, k) >= 1
    decreases k
  {
    if k > 0 {
      assert Pow2(k + n) == 2 * Pow2(k - 1 + n);
      ShrBound(v / 2, k - 1, n);
    }
  }

  lemma {:induction false} TopBit(w: nat, r: nat)
    requires Shr(w, r) == 1
    ensures Bit(w, r) && forall i: nat :: i > r ==> !Bit(w, i)
  {
    ShrBit(w, r, 0);
    forall i: nat | i > r
      ensures !Bit(w, i)
    {
      ShrBit(w, r, i - r);
      ZeroBit(i - r - 1);
    }
  }

  /** The loop that computes floor(log2 v). */
  method Ld2(v0: Word) returns (r: nat)
    ensures v0 == 0 ==> r == 0
    ensures v0 > 0 ==> r < 32 && Bit(v0, r) && forall i: nat :: i > r ==> !Bit(v0, i)
  {
    var v: nat, bits: nat := v0, 16;
    r := 0;
    Constants();
    while v > 1
      invariant v == Shr(v0, r) && (if v0 > 0 then v > 0 else r == 0)
      invariant bits in {16, 8, 4, 2, 1, 0}
      invariant v < Pow2(if bits == 0 then 1 else bits + bits)
      invariant r + (if bits == 0 then 1 else 2 * bits) <= 32
      decreases bits
    {
      ShrBound(v, bits, if bits == 0 then 1 else bits);
      ShrShr(v0, r, bits);
      if v >= Pow2(bits) {
        v := Shr(v, bits);
        r := r + bits;
      }
      bits := bits / 2;
    }
    if v0 > 0 {
      TopBit(v0, r);
    }
  }

  lemma {:induction false} Constants()
    ensures Pow2(0) == 1 && Pow2(1) == 2 && Pow2(2) == 4 && Pow2(4) == 16 && Pow2(8) == 256
    ensures Pow2(16) == 0x1_0000 && Pow2(32) == UINT_RANGE
  {
    assert Pow2(2) == 4;
    assert Pow2(4) == 16;
    Pow2Add(4, 4);
    Pow2Add(8, 8);
    Pow2Add(16, 16);
  }

  /** The library's ffs: one more than the lowest digit's position. */
  function Ffs(w: nat): (r: nat)
    ensures w == 0 <==> r == 0
    ensures w > 0 ==> Bit(w, r - 1) && forall j: nat :: j < r - 1 ==> !Bit(w, j)
  {
    if w == 0 then 0
    else if w % 2 == 1 then 1
    else
      var k := Ffs(w / 2);
      k + 1
  }
}
