/** Unsigned machine arithmetic over natural numbers. Shifts, masks and the
    bitwise operators are recursions on the binary digits, so that no step of a
    proof needs more than halving and doubling. */
module BitOps {

  type byte = x: int | 0 <= x < 256
  type word = x: int | 0 <= x < 0x1_0000_0000

  function Pow2(n: nat): (p: nat)
    ensures p >= 1
  {
    if n == 0 then 1 else 2 * Pow2(n - 1)
  }

  /** v << n, without a width. */
  function Shl(v: nat, n: nat): nat {
    if n == 0 then v else 2 * Shl(v, n - 1)
  }

  /** v >> n. */
  function Shr(v: nat, n: nat): nat {
    if n == 0 then v else Shr(v / 2, n - 1)
  }

  /** v & ((1 << n) - 1). */
  function Low(v: nat, n: nat): (r: nat)
    ensures r < Pow2(n)
  {
    if n == 0 then 0 else v % 2 + 2 * Low(v / 2, n - 1)
  }

  function Xor(a: nat, b: nat): nat {
    if a == 0 && b == 0 then 0
    else (if a % 2 == b % 2 then 0 else 1) + 2 * Xor(a / 2, b / 2)
  }

  function And(a: nat, b: nat): nat {
    if a == 0 || b == 0 then 0
    else (if a % 2 == 1 && b % 2 == 1 then 1 else 0) + 2 * And(a / 2, b / 2)
  }

  function Or(a: nat, b: nat): nat
    decreases a + b
  {
    if a == 0 then b
    else (if a % 2 == 1 || b % 2 == 1 then 1 else 0) + 2 * Or(a / 2, b / 2)
  }

  /** The low n bits of v, least significant first. */
  function BitsOf(v: nat, n: nat): (s: seq<bool>)
    ensures |s| == n
  {
    if n == 0 then [] else [v % 2 == 1] + BitsOf(v / 2, n - 1)
  }

  /** The number a bit string denotes, least significant bit first. */
  function Val(s: seq<bool>): (v: nat)
    ensures v < Pow2(|s|)
  {
    if s == [] then 0 else (if s[0] then 1 else 0) + 2 * Val(s[1..])
  }

  /** The bits of a byte string in the order of section 3.1.1 of RFC 1951. */
  function StreamBits(s: seq<byte>): (r: seq<bool>)
    ensures |r| == 8 * |s|
  {
    if s == [] then [] else BitsOf(s[0], 8) + StreamBits(s[1..])
  }

  lemma {:induction false} Pow2Monotone(a: nat, b: nat)
    requires a <= b
    ensures Pow2(a) <= Pow2(b)
    decreases b
  {
    if a < b {
      Pow2Monotone(a, b - 1);
    }
  }

  lemma Pow2Of32()
    ensures Pow2(32) == 0x1_0000_0000
  {
    assert Pow2(8) == 0x100;
    assert Pow2(12) == 0x1000;
    assert Pow2(16) == 0x1_0000;
    assert Pow2(20) == 0x10_0000;
    assert Pow2(24) == 0x100_0000;
    assert Pow2(28) == 0x1000_0000;
  }

  // ---- bit strings ----

  lemma {:induction false} ValBitsOf(v: nat, n: nat)
    ensures Val(BitsOf(v, n)) == Low(v, n)
  {
    if n != 0 {
      ValBitsOf(v / 2, n - 1);
      assert BitsOf(v, n)[1..] == BitsOf(v / 2, n - 1);
    }
  }

  lemma {:induction false} BitsOfVal(s: seq<bool>)
    ensures BitsOf(Val(s), |s|) == s
  {
    if s != [] {
      BitsOfVal(s[1..]);
      var v := Val(s);
      assert v / 2 == Val(s[1..]);
      assert s == [s[0]] + s[1..];
    }
  }

  lemma {:induction false} LowOfSmall(v: nat, n: nat)
    requires v < Pow2(n)
    ensures Low(v, n) == v
  {
    if n != 0 {
      LowOfSmall(v / 2, n - 1);
    }
  }

  /** Splitting the digits of v after the first n. */
  lemma {:induction false} BitsOfSplit(v: nat, n: nat, m: nat)
    ensures BitsOf(v, n + m) == BitsOf(v, n) + BitsOf(Shr(v, n), m)
  {
    if n != 0 {
      BitsOfSplit(v / 2, n - 1, m);
    }
  }

  lemma {:induction false} ShrBound(v: nat, n: nat, m: nat)
    requires v < Pow2(n + m)
    ensures Shr(v, n) < Pow2(m)
  {
    if n != 0 {
      ShrBound(v / 2, n - 1, m);
    }
  }

  /** Appending m bits of b above k already buffered bits. */
  lemma {:induction false} BitsOfJoin(a: nat, b: nat, k: nat, m: nat)
    requires a < Pow2(k)
    ensures BitsOf(a + Shl(b, k), k + m) == BitsOf(a, k) + BitsOf(b, m)
  {
    if k != 0 {
      BitsOfJoin(a / 2, b, k - 1, m);
      assert (a + Shl(b, k)) / 2 == a / 2 + Shl(b, k - 1);
      assert (a + Shl(b, k)) % 2 == a % 2;
    }
  }

  lemma {:induction false} ShrShrinks(v: nat, n: nat)
    ensures Shr(v, n) <= v
  {
    if n != 0 {
      ShrShrinks(v / 2, n - 1);
    }
  }

  lemma {:induction false} ShlBound(b: nat, k: nat, m: nat)
    requires b < Pow2(m)
    ensures Shl(b, k) <= Pow2(k + m) - Pow2(k)
  {
    if k != 0 {
      ShlBound(b, k - 1, m);
    }
  }

  lemma ShlFour(b: nat, n: nat)
    ensures Shl(b, n + 4) == 16 * Shl(b, n)
  {
    assert Shl(b, n + 1) == 2 * Shl(b, n);
    assert Shl(b, n + 2) == 2 * Shl(b, n + 1);
    assert Shl(b, n + 3) == 2 * Shl(b, n + 2);
  }

  /** OR-ing in a value shifted above all the set bits adds it. */
  lemma {:induction false} OrIsAdd(a: nat, b: nat, k: nat)
    requires a < Pow2(k)
    ensures Or(a, Shl(b, k)) == a + Shl(b, k)
  {
    if a != 0 {
      assert Shl(b, k) / 2 == Shl(b, k - 1);
      OrIsAdd(a / 2, b, k - 1);
    }
  }

  lemma {:induction false} StreamBitsAppend(a: seq<byte>, b: seq<byte>)
    ensures StreamBits(a + b) == StreamBits(a) + StreamBits(b)
  {
    hide BitsOf;
    if a == [] {
      assert a + b == b;
    } else {
      StreamBitsAppend(a[1..], b);
      assert (a + b)[1..] == a[1..] + b;
    }
  }

  // ---- exclusive or ----

  lemma {:induction false} XorCommutes(a: nat, b: nat)
    ensures Xor(a, b) == Xor(b, a)
  {
    if a != 0 || b != 0 {
      XorCommutes(a / 2, b / 2);
    }
  }

  lemma {:induction false} XorZero(a: nat)
    ensures Xor(a, 0) == a && Xor(0, a) == a
  {
    if a != 0 {
      XorZero(a / 2);
    }
  }

  lemma {:induction false} XorSelf(a: nat)
    ensures Xor(a, a) == 0
  {
    if a != 0 {
      XorSelf(a / 2);
    }
  }

  lemma XorHalves(a: nat, b: nat)
    ensures Xor(a, b) / 2 == Xor(a / 2, b / 2)
    ensures Xor(a, b) % 2 == (if a % 2 == b % 2 then 0 else 1)
  {
  }

  lemma {:induction false} XorAssociates(a: nat, b: nat, c: nat)
    ensures Xor(Xor(a, b), c) == Xor(a, Xor(b, c))
    decreases a + b + c
  {
    if a == 0 && b == 0 {
      XorZero(Xor(0, c));
      XorZero(c);
    } else if b == 0 && c == 0 {
      XorZero(a);
      XorZero(Xor(a, 0));
    } else {
      var l, r := Xor(Xor(a, b), c), Xor(a, Xor(b, c));
      XorHalves(a, b);
      XorHalves(b, c);
      XorHalves(Xor(a, b), c);
      XorHalves(a, Xor(b, c));
      XorAssociates(a / 2, b / 2, c / 2);
      assert l / 2 == r / 2 && l % 2 == r % 2;
    }
  }

  lemma {:induction false} XorZeroMeansEqual(a: nat, b: nat)
    requires Xor(a, b) == 0
    ensures a == b
  {
    if a != 0 || b != 0 {
      XorZeroMeansEqual(a / 2, b / 2);
    }
  }

  /** x ^ k ^ k == x. */
  lemma XorInvolution(x: nat, k: nat)
    ensures Xor(Xor(x, k), k) == x
  {
    XorAssociates(x, k, k);
    XorSelf(k);
    XorZero(x);
  }

  lemma {:induction false} XorBound(a: nat, b: nat, n: nat)
    requires a < Pow2(n) && b < Pow2(n)
    ensures Xor(a, b) < Pow2(n)
  {
    if n != 0 && (a != 0 || b != 0) {
      XorBound(a / 2, b / 2, n - 1);
    }
  }

  lemma LowHalves(v: nat, n: nat)
    requires n > 0
    ensures Low(v, n) % 2 == v % 2 && Low(v, n) / 2 == Low(v / 2, n - 1)
  {
  }

  lemma {:induction false} XorLow(a: nat, b: nat, n: nat)
    ensures Low(Xor(a, b), n) == Xor(Low(a, n), Low(b, n))
  {
    if n != 0 {
      XorHalves(a, b);
      XorLow(a / 2, b / 2, n - 1);
      LowHalves(a, n);
      LowHalves(b, n);
      LowHalves(Xor(a, b), n);
      hide Xor, Low;
      XorHalves(Low(a, n), Low(b, n));
      var l, r := Low(Xor(a, b), n), Xor(Low(a, n), Low(b, n));
      assert l / 2 == r / 2 && l % 2 == r % 2;
    }
  }

  lemma {:induction false} XorShr(a: nat, b: nat, n: nat)
    ensures Shr(Xor(a, b), n) == Xor(Shr(a, n), Shr(b, n))
  {
    if n != 0 {
      XorHalves(a, b);
      XorShr(a / 2, b / 2, n - 1);
    }
  }
}
