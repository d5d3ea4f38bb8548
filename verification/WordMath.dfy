/** Exclusive or and shifts of machine words as arithmetic, and which steps of a hash or
    a key stream lose nothing. */
module WordMath {
  import opened BitOps
  import opened Bytes
  import opened BytesFacts
  import Int32Facts

  /** One bit of an exclusive or, in place m == 2^k. */
  function Place(x: nat, y: nat, m: nat): nat
    requires m >= 1
  {
    m * ((x / m + y / m) % 2)
  }

  function Xor8(x: nat, y: nat): nat {
    Place(x, y, 1) + Place(x, y, 2) + Place(x, y, 4) + Place(x, y, 8)
    + Place(x, y, 16) + Place(x, y, 32) + Place(x, y, 64) + Place(x, y, 128)
  }

  function Xor32(x: nat, y: nat): nat {
    Xor8(x, y) + 256 * Xor8(x / 256, y / 256) + 65536 * Xor8(x / 65536, y / 65536)
    + 16777216 * Xor8(x / 16777216, y / 16777216)
  }

  lemma {:induction false} XorFirst(x: nat, y: nat)
    ensures Xor(x, y) == (x + y) % 2 + 2 * Xor(x / 2, y / 2)
  {
    hide Xor;
    XorHalves(x, y);
    SumParity(x, y);
  }

  lemma SumParity(x: nat, y: nat)
    ensures (x + y) % 2 == if x % 2 == y % 2 then 0 else 1
  {
  }

  lemma {:induction false} XorOfNibbles(x: nat, y: nat)
    ensures Xor(x, y) == (x + y) % 2 + 2 * ((x / 2 + y / 2) % 2) + 4 * ((x / 4 + y / 4) % 2)
                         + 8 * ((x / 8 + y / 8) % 2) + 16 * Xor(x / 16, y / 16)
  {
    hide Xor;
    XorFirst(x, y);
    XorFirst(x / 2, y / 2);
    XorFirst(x / 4, y / 4);
    XorFirst(x / 8, y / 8);
    Halves(x);
    Halves(y);
  }

  lemma Halves(x: nat)
    ensures x / 2 / 2 == x / 4 && x / 4 / 2 == x / 8 && x / 8 / 2 == x / 16
    ensures x / 16 / 2 == x / 32 && x / 16 / 4 == x / 64 && x / 16 / 8 == x / 128 && x / 16 / 16 == x / 256
  {
  }

  lemma {:induction false} XorOfBytes(x: nat, y: nat)
    ensures Xor(x, y) == Xor8(x, y) + 256 * Xor(x / 256, y / 256)
  {
    hide Xor, Xor8;
    XorOfNibbles(x, y);
    XorOfNibbles(x / 16, y / 16);
    Halves(x);
    Halves(y);
    EightPlaces(x, y);
  }

  lemma {:induction false} EightPlaces(x: nat, y: nat)
    ensures Xor8(x, y) == (x + y) % 2 + 2 * ((x / 2 + y / 2) % 2) + 4 * ((x / 4 + y / 4) % 2)
                          + 8 * ((x / 8 + y / 8) % 2) + 16 * ((x / 16 + y / 16) % 2) + 32 * ((x / 32 + y / 32) % 2)
                          + 64 * ((x / 64 + y / 64) % 2) + 128 * ((x / 128 + y / 128) % 2)
  {
    assert x / 1 == x && y / 1 == y;
  }

  /** Digits below 2^n and those from there on do not meet. */
  lemma {:induction false} XorJoin(h: nat, l: nat, g: nat, m: nat, n: nat)
    requires l < Pow2(n) && m < Pow2(n)
    ensures Xor(Pow2(n) * h + l, Pow2(n) * g + m) == Pow2(n) * Xor(h, g) + Xor(l, m)
    decreases n
  {
    hide Xor;
    if n == 0 {
      XorZero(0);
    } else {
      var p := Pow2(n - 1);
      TwiceTimes(p, h);
      TwiceTimes(p, g);
      TwiceTimes(p, Xor(h, g));
      XorJoin(h, l / 2, g, m / 2, n - 1);
      XorHalves(2 * (p * h) + l, 2 * (p * g) + m);
      XorHalves(l, m);
      assert (2 * (p * h) + l) / 2 == p * h + l / 2 && (2 * (p * g) + m) / 2 == p * g + m / 2;
    }
  }

  lemma TwiceTimes(p: nat, h: nat)
    ensures (2 * p) * h == 2 * (p * h)
  {
  }

  lemma {:induction false} XorOfSmall(k: byte, n: byte)
    ensures Xor(k, n) == Xor8(k, n)
  {
    hide Xor, Xor8;
    XorOfBytes(k, n);
    XorZero(0);
  }

  /** Exclusive or with a number of two bytes leaves the upper half alone. */
  lemma {:induction false} XorLowHalf(h: nat, l: byte, k: byte, m: byte, n: byte)
    ensures Xor(256 * (256 * h + l as int) + k as int, 256 * m as int + n as int)
            == 256 * (256 * h + Xor8(l, m)) + Xor8(k, n)
  {
    hide Xor, Xor8;
    assert Pow2(8) == 256;
    XorJoin(256 * h + l as int, k, m, n, 8);
    XorJoin(h, l, 0, m, 8);
    XorZero(h);
    XorOfSmall(l, m);
    XorOfSmall(k, n);
  }

  /** The exclusive or of two words, by division alone. */
  lemma {:induction false} XorIs32(x: nat, y: nat)
    requires x < NO_WRAP && y < NO_WRAP
    ensures Xor(x, y) == Xor32(x, y)
  {
    hide Xor, Xor8;
    XorOfBytes(x, y);
    XorOfBytes(x / 256, y / 256);
    XorOfBytes(x / 65536, y / 65536);
    XorOfBytes(x / 16777216, y / 16777216);
    assert x / 256 / 256 == x / 65536 && y / 256 / 256 == y / 65536;
    assert x / 65536 / 256 == x / 16777216 && y / 65536 / 256 == y / 16777216;
    assert x / 16777216 / 256 == 0 && y / 16777216 / 256 == 0;
    XorZero(0);
  }

  lemma {:induction false} XorWordIs(x: word, y: word)
    ensures XorWord(x, y) == Xor32(x, y)
  {
    hide Xor, Xor32;
    XorIs32(x, y);
  }

  lemma {:induction false} ShrWordIs(v: word, n: nat)
    ensures ShrWord(v, n) == v / Pow2(n)
  {
    hide Shr;
    Int32Facts.ShrDivides(v, n);
  }

  lemma {:induction false} ShlWordIs(v: word, n: nat)
    ensures ShlWord(v, n) == v * Pow2(n) % NO_WRAP
  {
    hide Shl, Low;
    Pow2Of32();
    Int32Facts.ShlMultiplies(v, n);
    Int32Facts.LowRemains(Shl(v, n), 32);
  }

  /** The four bytes of a word, low byte first. */
  lemma {:induction false} FourDigits(w: word)
    ensures w / Pow2(0) % 256 + 256 * (w / Pow2(8) % 256 + 256 * (w / Pow2(16) % 256 + 256 * (w / Pow2(24) % 256))) == w
  {
    BytePowers();
    hide Pow2;
    var a, b, c := w / 256, w / 65536, w / 16777216;
    assert w / 1 == w && a / 256 == b && b / 256 == c && c < 256;
  }

  lemma BytePowers()
    ensures Pow2(0) == 1 && Pow2(8) == 256 && Pow2(16) == 65536 && Pow2(24) == 16777216
  {
    assert Pow2(8) == 256;
    assert Pow2(12) == 4096;
    assert Pow2(16) == 65536;
    assert Pow2(20) == 1048576;
  }

  // ---- steps that lose nothing ----

  /** v ^ (v >> n) determines v. */
  lemma {:induction false} XorShiftApart(a: nat, b: nat, n: nat)
    requires n >= 1 && Xor(a, Shr(a, n)) == Xor(b, Shr(b, n))
    ensures a == b
  {
    hide Xor, Shr;
    var d := Xor(a, b);
    XorShr(a, b, n);
    FourWay(a, Shr(a, n), b, Shr(b, n));
    XorSelf(Xor(b, Shr(b, n)));
    XorZeroMeansEqual(d, Shr(d, n));
    ShrHalf(d, n);
    XorZeroMeansEqual(a, b);
  }

  lemma ShrHalf(d: nat, n: nat)
    requires n >= 1
    ensures Shr(d, n) <= d / 2
  {
    ShrShrinks(d / 2, n - 1);
  }

  lemma {:induction false} FourWay(a: nat, b: nat, c: nat, d: nat)
    ensures Xor(Xor(a, c), Xor(b, d)) == Xor(Xor(a, b), Xor(c, d))
  {
    hide Xor;
    XorAssociates(a, c, Xor(b, d));
    XorAssociates(c, b, d);
    XorCommutes(c, b);
    XorAssociates(b, c, d);
    XorAssociates(a, b, Xor(c, d));
  }
}
