/** `bit_math.rs`, and the bitwise operators bit by bit. */
module BitMath {
  import opened Arithmetic
  import opened Words
  import opened FullMath

  // ------------------------------------------------------- operators, by bits

  lemma BitZero(x: nat)
    ensures Bit(x, 0) == (x % 2 == 1)
  {
  }

  lemma BitNext(x: nat, k: nat)
    ensures Bit(x, k + 1) == Bit(x / 2, k)
  {
    FloorFloor(x, 2, Pow2(k));
  }

  lemma {:induction false} BitOfZero(k: nat)
    ensures !Bit(0, k)
  {
    DivIs(0, Pow2(k), 0);
  }

  /** Every set bit of x contributes: a number without set bits is zero. */
  lemma {:induction false} SomeBit(x: nat) returns (k: nat)
    requires x > 0
    ensures Bit(x, k)
  {
    if x % 2 == 1 {
      k := 0;
    } else {
      var j := SomeBit(x / 2);
      BitNext(x, j);
      k := j + 1;
    }
  }

  lemma AndHalves(x: nat, y: nat)
    ensures BitAnd(x, y) / 2 == BitAnd(x / 2, y / 2)
    ensures BitAnd(x, y) % 2 == 1 <==> x % 2 == 1 && y % 2 == 1
  {
    assert BitAnd(0, 0) == 0;
  }

  lemma {:induction false} AndBit(x: nat, y: nat, k: nat)
    ensures Bit(BitAnd(x, y), k) == (Bit(x, k) && Bit(y, k))
  {
    AndHalves(x, y);
    if k == 0 {
      BitZero(BitAnd(x, y));
      BitZero(x);
      BitZero(y);
    } else {
      AndBit(x / 2, y / 2, k - 1);
      BitNext(x, k - 1);
      BitNext(y, k - 1);
      BitNext(BitAnd(x, y), k - 1);
    }
  }

  lemma XorHalves(x: nat, y: nat)
    ensures BitXor(x, y) / 2 == BitXor(x / 2, y / 2)
    ensures BitXor(x, y) % 2 == 1 <==> x % 2 != y % 2
  {
    assert BitXor(0, 0) == 0;
  }

  lemma {:induction false} XorBit(x: nat, y: nat, k: nat)
    ensures Bit(BitXor(x, y), k) == (Bit(x, k) != Bit(y, k))
  {
    XorHalves(x, y);
    if k == 0 {
      BitZero(BitXor(x, y));
      BitZero(x);
      BitZero(y);
    } else {
      XorBit(x / 2, y / 2, k - 1);
      BitNext(x, k - 1);
      BitNext(y, k - 1);
      BitNext(BitXor(x, y), k - 1);
    }
  }

  lemma {:induction false} XorFits(x: nat, y: nat, w: nat)
    requires x < Pow2(w) && y < Pow2(w)
    ensures BitXor(x, y) < Pow2(w)
  {
    if w == 0 {
    } else {
      XorFits(x / 2, y / 2, w - 1);
    }
  }

  lemma {:induction false} PowerBit(j: nat, k: nat)
    ensures Bit(Pow2(j), k) == (j == k)
  {
    if j > 0 && k > 0 {
      PowerBit(j - 1, k - 1);
      BitNext(Pow2(j), k - 1);
    } else if k > 0 {
      BitNext(1, k - 1);
      BitOfZero(k - 1);
    }
  }

  /** 2^n - 1 is the mask of the n low bits. */
  lemma {:induction false} LowMaskBit(n: nat, k: nat)
    ensures Bit(Pow2(n) - 1, k) == (k < n)
  {
    if n == 0 {
      BitOfZero(k);
    } else if k == 0 {
      BitZero(Pow2(n) - 1);
    } else {
      LowMaskBit(n - 1, k - 1);
      BitNext(Pow2(n) - 1, k - 1);
      assert (Pow2(n) - 1) / 2 == Pow2(n - 1) - 1;
    }
  }

  lemma DoubledBit(x: nat, k: nat)
    ensures Bit(2 * x, k + 1) == Bit(x, k)
  {
    BitNext(2 * x, k);
  }

  /** 2^w - 2^n, the complement of that mask, has the bits from n to w. */
  lemma {:induction false} HighMaskBit(w: nat, n: nat, k: nat)
    requires n <= w
    ensures Pow2(n) <= Pow2(w)
    ensures Bit(Pow2(w) - Pow2(n), k) == (n <= k < w)
  {
    hide Bit;
    Pow2Mono(n, w);
    if n == 0 {
      LowMaskBit(w, k);
    } else if k == 0 {
      BitZero(Pow2(w) - Pow2(n));
    } else {
      HighMaskBit(w - 1, n - 1, k - 1);
      DoubledBit(Pow2(w - 1) - Pow2(n - 1), k - 1);
    }
  }

  // ------------------------------------------------------ first and last bits

  /** 255 - leading_zeros */
  function TopBit(x: nat): nat { if x <= 1 then 0 else 1 + TopBit(x / 2) }

  /** trailing_zeros */
  function LastBit(x: nat): nat
    requires x > 0
  {
    if x % 2 == 1 then 0 else 1 + LastBit(x / 2)
  }

  function MostSignificantBit(x: u256): Result<nat>
  {
    if x == 0 then Err(ZeroValue) else Ok(TopBit(x))
  }

  function LeastSignificantBit(x: u256): Result<nat>
  {
    if x == 0 then Err(ZeroValue) else Ok(LastBit(x))
  }

  /** The most significant bit is the greatest set one. */
  lemma {:induction false} TopBitIsGreatest(x: nat, k: nat)
    requires x > 0
    ensures Bit(x, TopBit(x))
    ensures Bit(x, k) ==> k <= TopBit(x)
  {
    if x == 1 {
      if k > 0 {
        BitNext(1, k - 1);
        BitOfZero(k - 1);
      }
    } else {
      TopBitIsGreatest(x / 2, if k > 0 then k - 1 else 0);
      BitNext(x, TopBit(x / 2));
      if k > 0 { BitNext(x, k - 1); }
    }
  }

  /** The least significant bit is the least set one. */
  lemma {:induction false} LastBitIsLeast(x: nat, k: nat)
    requires x > 0
    ensures Bit(x, LastBit(x))
    ensures Bit(x, k) ==> k >= LastBit(x)
  {
    if x % 2 == 0 {
      LastBitIsLeast(x / 2, if k > 0 then k - 1 else 0);
      BitNext(x, LastBit(x / 2));
      if k > 0 { BitNext(x, k - 1); }
    }
  }
}
