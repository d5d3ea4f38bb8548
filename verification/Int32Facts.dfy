/** What the operations on 32-bit integers mean for the integers themselves: the bits
    of a number are read off by dividing, and sums, differences and products are held
    to exact ones modulo 2^32. */
module Int32Facts {
  import opened BitOps
  import opened Int32

  const MODULUS: nat := 0x1_0000_0000

  /** Bit k of x, in two's complement when x is negative. */
  predicate Bit(x: int, k: nat) {
    x / Pow2(k) % 2 == 1
  }

  // ---- bits ----

  lemma DivideTwice(x: int, p: nat)
    requires p >= 1
    ensures x / (2 * p) == x / 2 / p
  {
    var q, r := x / (2 * p), x % (2 * p);
    assert x == 2 * (p * q) + r;
    assert x / 2 == p * q + r / 2;
    QuotientIs(p * q + r / 2, p, q, r / 2);
  }

  lemma QuotientIs(y: int, p: nat, q: int, r: nat)
    requires y == p * q + r && r < p
    ensures y / p == q
  {
    var d := y / p - q;
    assert p * d == r - y % p;
    Multiple(p, d);
  }

  lemma Multiple(p: nat, d: int)
    ensures (d >= 1 ==> p * d >= p) && (d <= -1 ==> p * d <= 0 - p)
  {
  }

  lemma LowestBit(x: int)
    ensures Bit(x, 0) <==> x % 2 == 1
  {
    assert x / 1 == x;
  }

  /** Every other bit is one of half the number. */
  lemma HigherBit(x: int, k: nat)
    requires k > 0
    ensures Bit(x, k) <==> Bit(x / 2, k - 1)
  {
    DivideTwice(x, Pow2(k - 1));
  }

  lemma {:induction false} AndBit(a: nat, b: nat, k: nat)
    ensures Bit(And(a, b), k) <==> Bit(a, k) && Bit(b, k)
  {
    hide Bit, And;
    LowestBit(a);
    LowestBit(b);
    LowestBit(And(a, b));
    AndHalves(a, b);
    if k > 0 {
      HigherBit(a, k);
      HigherBit(b, k);
      HigherBit(And(a, b), k);
      AndBit(a / 2, b / 2, k - 1);
    }
  }

  lemma AndHalves(a: nat, b: nat)
    ensures And(a, b) / 2 == And(a / 2, b / 2)
    ensures And(a, b) % 2 == 1 <==> a % 2 == 1 && b % 2 == 1
  {
  }

  lemma {:induction false} OrBit(a: nat, b: nat, k: nat)
    ensures Bit(Or(a, b), k) <==> Bit(a, k) || Bit(b, k)
  {
    hide Bit, Or;
    LowestBit(a);
    LowestBit(b);
    LowestBit(Or(a, b));
    OrHalves(a, b);
    if k > 0 {
      HigherBit(a, k);
      HigherBit(b, k);
      HigherBit(Or(a, b), k);
      OrBit(a / 2, b / 2, k - 1);
    }
  }

  lemma OrHalves(a: nat, b: nat)
    ensures Or(a, b) / 2 == Or(a / 2, b / 2)
    ensures Or(a, b) % 2 == 1 <==> a % 2 == 1 || b % 2 == 1
  {
  }

  lemma {:induction false} XorBit(a: nat, b: nat, k: nat)
    ensures Bit(Xor(a, b), k) <==> (Bit(a, k) != Bit(b, k))
  {
    hide Bit, Xor;
    LowestBit(a);
    LowestBit(b);
    LowestBit(Xor(a, b));
    XorHalves(a, b);
    if k > 0 {
      HigherBit(a, k);
      HigherBit(b, k);
      HigherBit(Xor(a, b), k);
      XorBit(a / 2, b / 2, k - 1);
    }
  }

  lemma {:induction false} NotBit(x: int, k: nat)
    ensures Bit(-1 - x, k) <==> !Bit(x, k)
    decreases k
  {
    hide Bit;
    LowestBit(x);
    LowestBit(-1 - x);
    if k > 0 {
      HigherBit(x, k);
      HigherBit(-1 - x, k);
      NotBit(x / 2, k - 1);
      assert (-1 - x) / 2 == -1 - x / 2;
    }
  }

  lemma {:induction false} ShlBit(v: nat, n: nat, k: nat)
    ensures Bit(Shl(v, n), k) <==> k >= n && Bit(v, k - n)
  {
    hide Bit;
    if n > 0 {
      LowestBit(Shl(v, n));
      if k > 0 {
        HigherBit(Shl(v, n), k);
        ShlBit(v, n - 1, k - 1);
      }
    }
  }

  lemma {:induction false} ShrBit(v: nat, n: nat, k: nat)
    ensures Bit(Shr(v, n), k) <==> Bit(v, k + n)
  {
    hide Bit;
    if n > 0 {
      ShrBit(v / 2, n - 1, k);
      HigherBit(v, k + n);
    }
  }

  lemma {:induction false} LowBit(v: nat, n: nat, k: nat)
    ensures Bit(Low(v, n), k) <==> k < n && Bit(v, k)
  {
    hide Bit;
    LowestBit(v);
    LowestBit(Low(v, n));
    if n == 0 {
      NoBits(k);
    } else if k > 0 {
      LowHalves(v, n);
      HigherBit(v, k);
      HigherBit(Low(v, n), k);
      LowBit(v / 2, n - 1, k - 1);
    }
  }

  lemma NoBits(k: nat)
    ensures !Bit(0, k)
  {
  }

  /** Adding 2^n changes no bit below n. */
  lemma {:induction false} BitAbove(x: int, n: nat, k: nat)
    requires k < n
    ensures Bit(x - Pow2(n), k) <==> Bit(x, k)
    decreases k
  {
    hide Bit;
    LowestBit(x);
    LowestBit(x - Pow2(n));
    if k > 0 {
      HigherBit(x, k);
      HigherBit(x - Pow2(n), k);
      BitAbove(x / 2, n - 1, k - 1);
      assert (x - Pow2(n)) / 2 == x / 2 - Pow2(n - 1);
    }
  }

  lemma {:induction false} SmallBit(v: nat, n: nat, k: nat)
    requires v < Pow2(n) && k >= n
    ensures !Bit(v, k)
  {
    LowOfSmall(v, n);
    LowBit(v, n, k);
  }

  lemma {:induction false} SignedBit(u: word, k: nat)
    requires k < 32
    ensures Bit(Signed(u), k) <==> Bit(u, k)
  {
    hide Bit, Pow2;
    Pow2Of32();
    BitAbove(u, 32, k);
  }

  lemma {:induction false} UnsignedBit(x: i32, k: nat)
    requires k < 32
    ensures Bit(Unsigned(x), k) <==> Bit(x, k)
  {
    hide Bit, Pow2;
    Pow2Of32();
    BitAbove(x as int + MODULUS, 32, k);
  }

  /** Numbers with the same bits are the same. */
  lemma {:induction false} BitsDecide(u: nat, w: nat, n: nat)
    requires u < Pow2(n) && w < Pow2(n)
    requires forall k | 0 <= k < n :: Bit(u, k) <==> Bit(w, k)
    ensures u == w
  {
    if n > 0 {
      hide Bit;
      LowestBit(u);
      LowestBit(w);
      forall k | 0 <= k < n - 1
        ensures Bit(u / 2, k) <==> Bit(w / 2, k)
      {
        HigherBit(u, k + 1);
        HigherBit(w, k + 1);
      }
      assert Bit(u, 0) <==> Bit(w, 0);
      BitsDecide(u / 2, w / 2, n - 1);
    }
  }

  // ---- shifts as arithmetic ----

  lemma {:induction false} ShrDivides(v: nat, n: nat)
    ensures Shr(v, n) == v / Pow2(n)
  {
    if n > 0 {
      ShrDivides(v / 2, n - 1);
      DivideTwice(v, Pow2(n - 1));
    }
  }

  lemma {:induction false} ShlMultiplies(v: nat, n: nat)
    ensures Shl(v, n) == v * Pow2(n)
  {
    if n > 0 {
      ShlMultiplies(v, n - 1);
    }
  }

  lemma {:induction false} LowRemains(v: nat, n: nat)
    ensures Low(v, n) == v % Pow2(n)
  {
    if n > 0 {
      LowRemains(v / 2, n - 1);
      RemainderTwice(v, Pow2(n - 1));
    }
  }

  lemma RemainderTwice(v: nat, p: nat)
    requires p >= 1
    ensures v % (2 * p) == v % 2 + 2 * (v / 2 % p)
  {
    var q := v / 2 / p;
    assert v / 2 == p * q + v / 2 % p;
    assert v == 2 * p * q + (v % 2 + 2 * (v / 2 % p));
    QuotientIs(v, 2 * p, q, v % 2 + 2 * (v / 2 % p));
  }

  // ---- bitwise operators on 32-bit integers ----

  lemma {:induction false} BitwiseBits(a: i32, b: i32, k: nat)
    requires k < 32
    ensures Bit(BitAnd(a, b), k) <==> Bit(a, k) && Bit(b, k)
    ensures Bit(BitOr(a, b), k) <==> Bit(a, k) || Bit(b, k)
    ensures Bit(BitXor(a, b), k) <==> (Bit(a, k) != Bit(b, k))
    ensures Bit(BitNot(a), k) <==> !Bit(a, k)
  {
    hide Bit, And, Or, Xor, Pow2, Signed, Unsigned;
    UnsignedBit(a, k);
    UnsignedBit(b, k);
    NotBit(a, k);
    var u, w := Unsigned(a), Unsigned(b);
    AndBit(u, w, k);
    OrBit(u, w, k);
    XorBit(u, w, k);
    AndIsWord(a, b);
    OrIsWord(a, b);
    XorIsWord(a, b);
    SignedBit(And(u, w), k);
    SignedBit(Or(u, w), k);
    SignedBit(Xor(u, w), k);
  }

  lemma AndIsWord(a: i32, b: i32)
    ensures And(Unsigned(a), Unsigned(b)) < MODULUS && BitAnd(a, b) == Signed(And(Unsigned(a), Unsigned(b)))
  {
    hide And;
    Pow2Of32();
    AndBound(Unsigned(a), Unsigned(b), 32);
  }

  lemma OrIsWord(a: i32, b: i32)
    ensures Or(Unsigned(a), Unsigned(b)) < MODULUS && BitOr(a, b) == Signed(Or(Unsigned(a), Unsigned(b)))
  {
    hide Or;
    Pow2Of32();
    OrBound(Unsigned(a), Unsigned(b), 32);
  }

  lemma XorIsWord(a: i32, b: i32)
    ensures Xor(Unsigned(a), Unsigned(b)) < MODULUS && BitXor(a, b) == Signed(Xor(Unsigned(a), Unsigned(b)))
  {
    hide Xor;
    Pow2Of32();
    XorBound(Unsigned(a), Unsigned(b), 32);
  }

  // ---- shifts ----

  lemma {:induction false} LeftBits(a: i32, b: i32, k: nat)
    requires k < 32
    ensures var c := b % 32; Bit(ShiftLeft(a, b), k) <==> k >= c && Bit(a, k - c)
  {
    hide Bit, Pow2, Shl, Low, Signed, Unsigned;
    Pow2Of32();
    var c := b % 32;
    SignedBit(Low(Shl(Unsigned(a), c), 32), k);
    LowBit(Shl(Unsigned(a), c), 32, k);
    ShlBit(Unsigned(a), c, k);
    if k >= c {
      UnsignedBit(a, k - c);
    }
  }

  lemma {:induction false} RightBits(a: i32, b: i32, k: nat)
    requires k < 32
    ensures var c := b % 32; Bit(ShiftRight(a, b), k) <==> if k + c < 32 then Bit(a, k + c) else a < 0
  {
    hide Bit, Pow2, Shr;
    var c := b % 32;
    var v: nat := if a < 0 then -1 - a else a;
    ShrBit(v, c, k);
    NotBit(a, k + c);
    NotBit(ShiftRight(a, b), k);
    Pow2Of31();
    if k + c >= 32 {
      SmallBit(v, 31, k + c);
    }
  }

  lemma Pow2Of31()
    ensures Pow2(31) == 0x8000_0000
  {
    Pow2Of32();
  }

  lemma {:induction false} RightUnsignedBits(a: i32, b: i32, k: nat)
    requires k < 32
    ensures var c := b % 32; Bit(ShiftRightUnsigned(a, b), k) <==> k + c < 32 && Bit(a, k + c)
  {
    hide Bit, Pow2, Shr, Signed, Unsigned;
    var c := b % 32;
    Pow2Of32();
    ShrShrinks(Unsigned(a), c);
    SignedBit(Shr(Unsigned(a), c), k);
    ShrBit(Unsigned(a), c, k);
    if k + c < 32 {
      UnsignedBit(a, k + c);
    } else {
      SmallBit(Unsigned(a), 32, k + c);
    }
  }

  // ---- sums, differences and products ----

  /** x and y differ by a multiple of 2^32. */
  predicate Congruent(x: int, y: int) {
    (x - y) % MODULUS == 0
  }

  lemma WrapIs(x: int)
    ensures Congruent(Wrap(x), x)
    ensures -0x8000_0000 <= x < 0x8000_0000 ==> Wrap(x) == x
  {
    var y := x + 0x8000_0000;
    assert y == MODULUS * (y / MODULUS) + y % MODULUS;
    assert Wrap(x) - x == MODULUS * -(y / MODULUS);
  }

  // ---- division ----

  lemma {:induction false} Division(a: int, b: int)
    requires b != 0
    ensures Quot(a, b) * b + Rem(a, b) == a
    ensures Abs(Rem(a, b)) < Abs(b) && (Rem(a, b) != 0 ==> (Rem(a, b) < 0 <==> a < 0))
  {
    var m, d := Abs(a), Abs(b);
    QuotientTimes(a, b);
    EuclideanDivision(m, d);
    hide Quot;
  }

  lemma EuclideanDivision(m: nat, d: nat)
    requires d >= 1
    ensures m == d * (m / d) + m % d && m % d < d
  {
  }

  lemma {:induction false} QuotientTimes(a: int, b: int)
    requires b != 0
    ensures Quot(a, b) * b == if a < 0 then -(Abs(b) * (Abs(a) / Abs(b))) else Abs(b) * (Abs(a) / Abs(b))
  {
    SignedProducts(Abs(a) / Abs(b), Abs(b));
  }

  lemma SignedProducts(q: int, d: int)
    ensures (-q) * d == -(d * q) && q * (-d) == -(d * q) && (-q) * (-d) == d * q
  {
  }
}
