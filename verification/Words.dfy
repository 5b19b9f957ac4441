// Unsigned machine words as integers, with the bitwise operations the router applies to
// addresses and masks.
module Words {
  type Word = int

  // The bitwise and of two unsigned words.
  function BitAnd(a: Word, b: Word): (c: Word)
    ensures c >= 0
    decreases if a > 0 then a else 0
  {
    if a <= 0 || b <= 0 then 0
    else 2 * BitAnd(a / 2, b / 2) + if a % 2 == 1 && b % 2 == 1 then 1 else 0
  }

  predicate Bit(a: Word, k: nat)
    decreases k
  {
    if k == 0 then a % 2 == 1 else Bit(a / 2, k - 1)
  }

  lemma {:induction false} ZeroHasNoBits(k: nat)
    ensures !Bit(0, k)
  {
    if k > 0 {
      ZeroHasNoBits(k - 1);
    }
  }

  // A bit is set in the conjunction exactly when it is set in both words.
  lemma {:induction false} BitAndBits(a: Word, b: Word, k: nat)
    requires a >= 0 && b >= 0
    ensures Bit(BitAnd(a, b), k) <==> Bit(a, k) && Bit(b, k)
    decreases k
  {
    if a == 0 || b == 0 {
      ZeroHasNoBits(k);
    } else if k > 0 {
      assert BitAnd(a, b) / 2 == BitAnd(a / 2, b / 2);
      BitAndBits(a / 2, b / 2, k - 1);
    }
  }

  lemma {:induction false} BitAndTwice(a: Word, b: Word)
    ensures BitAnd(BitAnd(a, b), b) == BitAnd(a, b)
    decreases if a > 0 then a else 0
  {
    if a > 0 && b > 0 {
      BitAndTwice(a / 2, b / 2);
      var c := BitAnd(a, b);
      assert c / 2 == BitAnd(a / 2, b / 2);
      assert c % 2 == if a % 2 == 1 && b % 2 == 1 then 1 else 0;
      assert c > 0 ==> BitAnd(c, b) == 2 * BitAnd(c / 2, b / 2) + if c % 2 == 1 && b % 2 == 1 then 1 else 0;
    }
  }

  // ---- 32-bit words by their bits -------------------------------------------------------

  const WORD := 0x1_0000_0000

  type Word32 = x: int | 0 <= x < WORD

  // Two to the power n.
  function Pow2(n: nat): (p: nat)
    ensures p > 0
  {
    if n == 0 then 1 else 2 * Pow2(n - 1)
  }

  predicate HasBits(c: Word, bit: nat -> bool) {
    forall k :: 0 <= k < 32 ==> (Bit(c, k) <==> bit(k))
  }

  lemma {:induction false} SomeWord(bit: nat -> bool, from: nat, n: nat) returns (c: Word)
    ensures 0 <= c < Pow2(n)
    ensures forall k: nat :: k < n ==> (Bit(c, k) <==> bit(from + k))
    decreases n
  {
    if n == 0 {
      c := 0;
    } else {
      var rest := SomeWord(bit, from + 1, n - 1);
      c := 2 * rest + if bit(from) then 1 else 0;
      forall k: nat | k < n
        ensures Bit(c, k) <==> bit(from + k)
      {
        assert c / 2 == rest;
        if k > 0 {
          assert Bit(rest, k - 1) <==> bit(from + 1 + (k - 1));
        }
      }
    }
  }

  // Two words below 2^n with the same n bits are equal.
  lemma {:induction false} SameBits(c: Word, d: Word, n: nat)
    requires 0 <= c < Pow2(n) && 0 <= d < Pow2(n)
    requires forall k: nat :: k < n ==> (Bit(c, k) <==> Bit(d, k))
    ensures c == d
  {
    if n > 0 {
      assert Bit(c, 0) <==> Bit(d, 0);
      forall k: nat | k < n - 1
        ensures Bit(c / 2, k) <==> Bit(d / 2, k)
      {
        assert Bit(c, k + 1) <==> Bit(d, k + 1);
      }
      SameBits(c / 2, d / 2, n - 1);
    }
  }

  lemma DoubleProduct(a: int, b: int)
    ensures (2 * a) * b == 2 * (a * b)
  {
  }

  lemma {:induction false} PowAdd(m: nat, n: nat)
    ensures Pow2(m + n) == Pow2(m) * Pow2(n)
  {
    if m > 0 {
      PowAdd(m - 1, n);
      DoubleProduct(Pow2(m - 1), Pow2(n));
    }
  }

  lemma Powers()
    ensures Pow2(8) == 0x100 && Pow2(16) == 0x1_0000 && Pow2(24) == 0x100_0000 && Pow2(32) == WORD
  {
    assert Pow2(8) == 0x100;
    PowAdd(8, 8);
    PowAdd(8, 16);
    PowAdd(16, 16);
  }

  lemma WordWidth(n: nat)
    requires n == 32
    ensures Pow2(n) == WORD
  {
    Powers();
  }

  lemma WordExists(bit: nat -> bool)
    ensures exists c :: 0 <= c < WORD && HasBits(c, bit)
    ensures forall c, d :: 0 <= c < WORD && 0 <= d < WORD && HasBits(c, bit) && HasBits(d, bit) ==> c == d
  {
    var width: nat := 32;
    WordWidth(width);
    var c := SomeWord(bit, 0, width);
    assert HasBits(c, bit) by {
      assert forall k: nat :: k < width ==> (Bit(c, k) <==> bit(0 + k));
    }
    forall c, d | 0 <= c < WORD && 0 <= d < WORD && HasBits(c, bit) && HasBits(d, bit)
      ensures c == d
    {
      SameBits(c, d, width);
    }
  }

  // The 32-bit word with the given bits.
  function FromBits(bit: nat -> bool): Word32 {
    WordExists(bit);
    var c: Word :| 0 <= c < WORD && HasBits(c, bit);
    c
  }

  function And(a: Word32, b: Word32): Word32 {
    FromBits((k: nat) => Bit(a, k) && Bit(b, k))
  }

  function Or(a: Word32, b: Word32): Word32 {
    FromBits((k: nat) => Bit(a, k) || Bit(b, k))
  }

  function Xor(a: Word32, b: Word32): Word32 {
    FromBits((k: nat) => Bit(a, k) != Bit(b, k))
  }

  function Not(a: Word32): Word32 {
    FromBits((k: nat) => !Bit(a, k))
  }

  lemma AndBit(a: Word32, b: Word32, k: nat)
    requires k < 32
    ensures Bit(And(a, b), k) <==> Bit(a, k) && Bit(b, k)
  {
  }

  lemma OrBit(a: Word32, b: Word32, k: nat)
    requires k < 32
    ensures Bit(Or(a, b), k) <==> Bit(a, k) || Bit(b, k)
  {
  }

  lemma XorBit(a: Word32, b: Word32, k: nat)
    requires k < 32
    ensures Bit(Xor(a, b), k) <==> Bit(a, k) != Bit(b, k)
  {
  }

  lemma NotBit(a: Word32, k: nat)
    requires k < 32
    ensures Bit(Not(a), k) <==> !Bit(a, k)
  {
  }

  // S^n of FIPS PUB 180-1: bit k moves to place k + n, around the word.
  function Rotl(n: nat, a: Word32): Word32 {
    FromBits((k: nat) => Bit(a, (k - n) % 32))
  }

  lemma {:induction false} BitOfDouble(x: Word, n: nat, k: nat)
    requires x >= 0
    ensures Bit(x * Pow2(n), k) <==> k >= n && Bit(x, k - n)
    decreases n
  {
    if n > 0 {
      var y := x * Pow2(n - 1);
      assert x * Pow2(n) == 2 * y;
      if k > 0 {
        BitOfDouble(x, n - 1, k - 1);
      }
    }
  }

  lemma {:induction false} BitOfHalf(x: Word, n: nat, k: nat)
    requires x >= 0
    ensures Bit(x / Pow2(n), k) <==> Bit(x, k + n)
    decreases n
  {
    if n > 0 {
      BitOfHalf(x / 2, n - 1, k);
      DivTwice(x, Pow2(n - 1));
    } else {
      assert x / Pow2(n) == x;
    }
  }

  lemma DivTwice(x: nat, p: nat)
    requires p > 0
    ensures x / (2 * p) == x / 2 / p
  {
    var q, r := x / 2 / p, x / 2 % p;
    assert x / 2 == p * q + r;
    assert x == (2 * p) * q + (2 * r + x % 2);
    QuotientIs(x, 2 * p, q, 2 * r + x % 2);
  }

  lemma QuotientIs(x: int, d: int, q: int, r: int)
    requires 0 <= r < d && x == d * q + r
    ensures x / d == q && x % d == r
  {
    var q' := x / d;
    MulStep(d, q, q');
    MulStep(d, q', q);
  }

  lemma MulStep(d: int, a: int, b: int)
    requires d > 0
    ensures a < b ==> d * a + d <= d * b
  {
    if a < b {
      MulAtLeast(d, b - a);
      assert d * b == d * a + d * (b - a);
    }
  }

  lemma {:induction false} MulAtLeast(d: int, m: int)
    requires d > 0 && m >= 1
    ensures d * m >= d
    decreases m
  {
    if m > 1 {
      MulAtLeast(d, m - 1);
      assert d * m == d * (m - 1) + d;
    }
  }

  lemma {:induction false} BitOfLow(x: Word, n: nat, k: nat)
    requires x >= 0 && k < n
    ensures Bit(x % Pow2(n), k) <==> Bit(x, k)
    decreases n
  {
    var p := Pow2(n - 1);
    ModTwice(x, p);
    if k > 0 {
      BitOfLow(x / 2, n - 1, k - 1);
    }
  }

  lemma ModTwice(x: nat, p: nat)
    requires p > 0
    ensures (x % (2 * p)) / 2 == x / 2 % p && (x % (2 * p)) % 2 == x % 2
  {
    var q, r := x / 2 / p, x / 2 % p;
    assert x / 2 == p * q + r;
    assert x == (2 * p) * q + (2 * r + x % 2);
    QuotientIs(x, 2 * p, q, 2 * r + x % 2);
  }

  // The shift macro: shift left and drop the overflow, shift right, and join.
  lemma ShiftsRotate(n: nat, x: Word32, left: Word32, right: Word32)
    requires 0 < n < 32 && left == (x * Pow2(n)) % WORD && right == x / Pow2(32 - n)
    ensures Or(left, right) == Rotl(n, x)
  {
    var width: nat := 32;
    WordWidth(width);
    var c, d := Or(left, right), Rotl(n, x);
    forall k: nat | k < width
      ensures Bit(c, k) <==> Bit(d, k)
    {
      RotateBit(n, x, left, right, k, width);
    }
    SameBits(c, d, width);
  }

  lemma RotateBit(n: nat, x: Word32, left: Word32, right: Word32, k: nat, width: nat)
    requires 0 < n < width && k < width == 32 && Pow2(width) == WORD
    requires left == (x * Pow2(n)) % WORD && right == x / Pow2(width - n)
    ensures Bit(left, k) || Bit(right, k) <==> Bit(x, (k - n) % 32)
  {
    BitOfLow(x * Pow2(n), width, k);
    BitOfDouble(x, n, k);
    BitOfHalf(x, width - n, k);
    if k < n {
      assert (k - n) % 32 == k + (width - n);
    } else {
      NoHighBits(x, k + (width - n), width);
      assert (k - n) % 32 == k - n;
    }
  }

  lemma DivSmaller(x: nat, p: nat)
    requires p > 0
    ensures 0 <= x / p <= x
  {
    if x / p > 0 {
      MulAtLeast(x / p, p);
      assert x == (x / p) * p + x % p;
    }
  }

  lemma {:induction false} NoHighBits(x: Word, k: nat, n: nat)
    requires 0 <= x < Pow2(n) && k >= n
    ensures !Bit(x, k)
    decreases n
  {
    if n == 0 {
      ZeroHasNoBits(k);
    } else {
      NoHighBits(x / 2, k - 1, n - 1);
    }
  }

  lemma OrIs(x: Word32, y: Word32, z: Word32)
    requires forall k: nat :: k < 32 ==> (Bit(z, k) <==> Bit(x, k) || Bit(y, k))
    ensures Or(x, y) == z
  {
    var c, width: nat := Or(x, y), 32;
    WordWidth(width);
    SameBits(c, z, width);
  }

  // Or-ing octets into cleared low bits adds them.
  lemma JoinLow(hi: Word, lo: Word, n: nat)
    requires 0 <= hi && 0 <= lo < Pow2(n) && hi * Pow2(n) + lo < WORD
    ensures Or(hi * Pow2(n), lo) == hi * Pow2(n) + lo
  {
    var x: Word32, y: Word32 := hi * Pow2(n), lo;
    var z: Word32 := x + y;
    forall k: nat | k < 32
      ensures Bit(z, k) <==> Bit(x, k) || Bit(y, k)
    {
      JoinBit(hi, lo, n, k);
    }
    OrIs(x, y, z);
  }

  lemma JoinBit(hi: Word, lo: Word, n: nat, k: nat)
    requires 0 <= hi && 0 <= lo < Pow2(n)
    ensures Bit(hi * Pow2(n) + lo, k) <==> Bit(hi * Pow2(n), k) || Bit(lo, k)
  {
    BitOfDouble(hi, n, k);
    BitOfSum(hi, lo, n, k);
    if k >= n {
      NoHighBits(lo, k, n);
    }
  }

  lemma {:induction false} BitOfSum(hi: Word, lo: Word, n: nat, k: nat)
    requires 0 <= hi && 0 <= lo < Pow2(n)
    ensures Bit(hi * Pow2(n) + lo, k) <==> if k < n then Bit(lo, k) else Bit(hi, k - n)
    decreases n
  {
    if n > 0 {
      var y := hi * Pow2(n - 1);
      assert hi * Pow2(n) == 2 * y;
      assert (2 * y + lo) / 2 == y + lo / 2;
      if k > 0 {
        BitOfSum(hi, lo / 2, n - 1, k - 1);
      }
    }
  }
}
