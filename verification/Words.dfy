/** The 256-bit machine words of the source: bounded integers whose operators wrap,
    and the bitwise operators, defined digit by digit on naturals. */
module Words {
  import opened Arithmetic

  /** The word size stays symbolic: no proof computes with its digits. */
  const TWO256: int := Pow2(256)
  const TWO160: int := 0x1_0000_0000_0000_0000_0000_0000_0000_0000_0000_0000
  const TWO128: int := 0x1_0000_0000_0000_0000_0000_0000_0000_0000
  const TWO96: int := 0x1_0000_0000_0000_0000_0000_0000
  const MAX256: u256 := TWO256 - 1

  type u256 = x: int | 0 <= x < TWO256
  type u128 = x: u256 | x < TWO128

  /** What the word operators keep of an exact result. */
  function Wrap(x: int): (r: u256)
    ensures r == x % TWO256
  {
    DivBounds(x, TWO256);
    x % TWO256
  }

  /** A result at most one word length out of range wraps once. */
  lemma WrapNear(x: int)
    requires -TWO256 <= x < 2 * TWO256
    ensures Wrap(x) == if x < 0 then x + TWO256 else if x < TWO256 then x else x - TWO256
  {
    if x < 0 {
      ModIs(x, TWO256, x + TWO256, -1);
    } else if x < TWO256 {
      ModSmall(x, TWO256);
    } else {
      ModIs(x, TWO256, x - TWO256, 1);
    }
  }

  function WrapAdd(x: int, y: int): u256 { Wrap(x + y) }

  function WrapSub(x: int, y: int): u256 { Wrap(x - y) }

  function WrapMul(x: int, y: int): u256 { Wrap(x * y) }

  /** A right shift. */
  function Shr(x: nat, k: nat): nat
  {
    CeilBounds(x, Pow2(k));
    x / Pow2(k)
  }

  /** `mul_mod`: the full product reduced; a zero modulus gives zero. */
  function MulMod(x: u256, y: u256, m: u256): u256
  {
    if m == 0 then 0 else DivBounds(x * y, m); (x * y) % m
  }

  // ------------------------------------------------------------------ bits

  function Bit(x: nat, k: nat): bool { (x / Pow2(k)) % 2 == 1 }

  function BitAnd(x: nat, y: nat): nat
    decreases x + y
  {
    if x == 0 && y == 0 then 0
    else 2 * BitAnd(x / 2, y / 2) + (if x % 2 == 1 && y % 2 == 1 then 1 else 0)
  }

  function BitOr(x: nat, y: nat): nat
    decreases x + y
  {
    if x == 0 && y == 0 then 0
    else 2 * BitOr(x / 2, y / 2) + (if x % 2 == 1 || y % 2 == 1 then 1 else 0)
  }

  function BitXor(x: nat, y: nat): nat
    decreases x + y
  {
    if x == 0 && y == 0 then 0
    else 2 * BitXor(x / 2, y / 2) + (if x % 2 != y % 2 then 1 else 0)
  }

  /** The lowest set bit of x, as a power of two. */
  function LowBit(x: nat): nat
    requires x > 0
  {
    if x % 2 == 1 then 1 else 2 * LowBit(x / 2)
  }

  lemma {:induction false} AndComplement(w: nat, x: nat)
    requires x < Pow2(w)
    ensures BitAnd(Pow2(w) - 1 - x, x) == 0
  {
    if w == 0 {
    } else {
      AndComplement(w - 1, x / 2);
      assert (Pow2(w) - 1 - x) / 2 == Pow2(w - 1) - 1 - x / 2;
      assert (Pow2(w) - 1 - x) % 2 != x % 2;
    }
  }

  /** Negating a word and masking with the word keeps exactly its lowest set bit. */
  lemma {:induction false} NegAndIsLowBit(w: nat, x: nat)
    requires 0 < x < Pow2(w)
    ensures BitAnd(Pow2(w) - x, x) == LowBit(x)
  {
    if x % 2 == 1 {
      assert (Pow2(w) - x) / 2 == Pow2(w - 1) - 1 - x / 2;
      AndComplement(w - 1, x / 2);
    } else {
      NegAndIsLowBit(w - 1, x / 2);
      assert (Pow2(w) - x) / 2 == Pow2(w - 1) - x / 2;
    }
  }

  lemma Double(z: nat, p: nat)
    ensures z * (2 * p) == 2 * (z * p)
  {
  }

  /** x is an odd number times its lowest set bit, which is a power of two. */
  lemma {:induction false} LowBitSplits(w: nat, x: nat) returns (k: nat, odd: nat)
    requires 0 < x < Pow2(w)
    ensures LowBit(x) == Pow2(k) && k < w
    ensures x == odd * Pow2(k) && odd % 2 == 1
  {
    if x % 2 == 1 {
      k, odd := 0, x;
    } else {
      var j;
      j, odd := LowBitSplits(w - 1, x / 2);
      k := j + 1;
      Double(odd, Pow2(j));
    }
  }

  /** Or-ing words with no bit in common adds them. */
  lemma {:induction false} OrDisjoint(k: nat, x: nat, z: nat)
    requires x < Pow2(k)
    ensures BitOr(x, z * Pow2(k)) == x + z * Pow2(k)
  {
    if k == 0 {
      OrZero(z);
    } else {
      OrDisjoint(k - 1, x / 2, z);
      Double(z, Pow2(k - 1));
    }
  }

  lemma {:induction false} OrZero(x: nat)
    ensures BitOr(0, x) == x == BitOr(x, 0)
  {
    if x == 0 {
    } else {
      OrZero(x / 2);
    }
  }

  lemma {:induction false} AndZero(n: nat)
    ensures BitAnd(n, 0) == 0
  {
    if n == 0 {
    } else {
      AndZero(n / 2);
    }
  }

  lemma {:induction false} OrCommutes(x: nat, y: nat)
    ensures BitOr(x, y) == BitOr(y, x)
    decreases x + y
  {
    if x == 0 && y == 0 {
    } else {
      OrCommutes(x / 2, y / 2);
    }
  }

  lemma {:induction false} XorZero(x: nat)
    ensures BitXor(x, 0) == x
  {
    if x == 0 {
    } else {
      XorZero(x / 2);
    }
  }

  lemma XorTwo(x: nat)
    ensures BitXor(x, 2) == if (x / 2) % 2 == 0 then x + 2 else x - 2
  {
    assert BitXor(x, 2) == 2 * BitXor(x / 2, 1) + x % 2;
    assert BitXor(x / 2, 1) == 2 * BitXor(x / 4, 0) + (1 - (x / 2) % 2);
    XorZero(x / 4);
  }

  // ------------------------------------------------------------ congruence

  /** x and y leave the same remainder. */
  predicate Congruent(x: int, y: int, m: int)
    requires m > 0
  {
    x % m == y % m
  }

  lemma CongruentBy(x: int, y: int, k: int, m: int)
    requires m > 0 && x == y + k * m
    ensures Congruent(x, y, m)
  {
    ModAddMultiple(y, k, m);
  }

  lemma CongruenceWitness(x: int, y: int, m: int) returns (k: int)
    requires m > 0 && Congruent(x, y, m)
    ensures x == y + k * m
  {
    DivBounds(x, m);
    DivBounds(y, m);
    k := x / m - y / m;
  }

  lemma CongruentMul(x: int, y: int, z: int, m: int)
    requires m > 0 && Congruent(x, y, m)
    ensures Congruent(x * z, y * z, m)
    ensures Congruent(z * x, z * y, m)
  {
    var k := CongruenceWitness(x, y, m);
    assert x * z == y * z + (k * z) * m;
    CongruentBy(x * z, y * z, k * z, m);
  }

  /** Congruence modulo m * c gives congruence modulo m. */
  lemma CongruentCoarser(x: int, y: int, m: int, c: int)
    requires m > 0 && c > 0 && m * c > 0 && Congruent(x, y, m * c)
    ensures Congruent(x, y, m)
  {
    var k := CongruenceWitness(x, y, m * c);
    assert k * (m * c) == (k * c) * m by { Regroup(k, c, m); }
    CongruentBy(x, y, k * c, m);
  }

  lemma WrapCongruent(x: int)
    ensures Congruent(Wrap(x), x, TWO256)
  {
    DivBounds(x, TWO256);
    CongruentBy(x, Wrap(x), x / TWO256, TWO256);
  }

  lemma Pow2Product(m: nat, n: nat, p: nat, q: nat)
    requires Pow2(m) == p && Pow2(n) == q
    ensures Pow2(m + n) == p * q
  {
    Pow2Add(m, n);
  }

  lemma SmallPowers()
    ensures Pow2(32) == 0x1_0000_0000 && Pow2(64) == 0x1_0000_0000_0000_0000
    ensures Pow2(96) == TWO96 && Pow2(128) == TWO128 && Pow2(160) == TWO160
  {
    assert Pow2(4) == 16;
    Pow2Product(4, 4, 16, 16);
    Pow2Product(8, 8, 0x100, 0x100);
    Pow2Product(16, 16, 0x1_0000, 0x1_0000);
    Pow2Product(32, 32, 0x1_0000_0000, 0x1_0000_0000);
    Pow2Product(64, 32, 0x1_0000_0000_0000_0000, 0x1_0000_0000);
    Pow2Product(64, 64, 0x1_0000_0000_0000_0000, 0x1_0000_0000_0000_0000);
    Pow2Product(128, 32, TWO128, 0x1_0000_0000);
  }

  /** Products of 128- and 96-bit numbers, and of 160- and 96-bit numbers, fit a word. */
  lemma ShiftsFit()
    ensures TWO160 * 0x1_0000_0000_0000_0000 < TWO256
    ensures forall x :: 0 <= x < TWO160 ==> x * TWO96 < TWO256
  {
    SmallPowers();
    Pow2Product(160, 64, TWO160, 0x1_0000_0000_0000_0000);
    Pow2Strict(224, 256);
    forall x | 0 <= x < TWO160 ensures x * TWO96 < TWO256 {
      ShiftBound(x, 160, 96);
    }
  }

  lemma Pow2Strict(m: nat, n: nat)
    requires m < n
    ensures Pow2(m) < Pow2(n)
  {
    Pow2Mono(m, n - 1);
  }
}
