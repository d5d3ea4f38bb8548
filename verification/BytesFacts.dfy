/** What the words and checksums of the file formats are, byte by byte: little-endian
    numbers, and an FNV-1a checksum that sees every change of a single byte. */
module BytesFacts {
  import opened BitOps
  import opened Bytes

  /** The number in four bytes from position i, low byte first. */
  function Number(s: seq<byte>, i: nat): int
    requires i + 4 <= |s|
  {
    s[i] as int + 256 * (s[i + 1] as int + 256 * (s[i + 2] as int + 256 * s[i + 3] as int))
  }

  lemma ReadsNumber(s: seq<byte>, i: nat)
    requires i + 4 <= |s|
    ensures R32(s, i) == Number(s, i)
  {
  }

  /** The bytes of a word are its base-256 digits, the lowest first. */
  lemma {:induction false} WordDigits(v: word)
    ensures Number(W32(v), 0) == v
    ensures W32(v)[0] == v % 256 && W32(v)[3] == v / 16777216
    ensures forall s: seq<byte> | |s| == 4 && Number(s, 0) == v :: s == W32(v)
  {
    ReadBack(v);
    TopByte(v);
    forall s: seq<byte> | |s| == 4 && Number(s, 0) == v
      ensures s == W32(v)
    {
      DigitsOf(s[0], s[1], s[2], s[3], v);
    }
  }

  lemma TopByte(v: word)
    ensures v / 0x100 / 0x100 / 0x100 == v / 16777216 && v / 16777216 < 256
  {
    var a, b, c := v / 0x100, v / 0x100 / 0x100, v / 0x100 / 0x100 / 0x100;
    assert v == 0x100 * a + v % 0x100 && a == 0x100 * b + a % 0x100 && b == 0x100 * c + b % 0x100;
  }

  lemma DigitsOf(a: byte, b: byte, c: byte, d: byte, v: word)
    requires v == a as int + 256 * (b as int + 256 * (c as int + 256 * d as int))
    ensures v % 0x100 == a && v / 0x100 % 0x100 == b && v / 0x100 / 0x100 % 0x100 == c
    ensures v / 0x100 / 0x100 / 0x100 % 0x100 == d
  {
    var y, z := b as int + 256 * (c as int + 256 * d as int), c as int + 256 * d as int;
    assert v / 0x100 == y && y / 0x100 == z && z / 0x100 == d;
  }

  // ---- multiplication by an odd number ----

  /** With p * q == 1 modulo 2^32, multiplication by p loses nothing. */
  lemma {:induction false} MultiplyApart(x: word, y: word, p: nat, q: nat, c: nat)
    requires p * q == 1 + NO_WRAP * c
    requires x as int * p % NO_WRAP == y as int * p % NO_WRAP
    ensures x == y
  {
    var d := x as int - y as int;
    var k := x as int * p / NO_WRAP - y as int * p / NO_WRAP;
    Distribute(x, y, p);
    assert d * p == NO_WRAP * k;
    Regroup(d, p, q, k, c);
    assert d == NO_WRAP * (k * q - d * c);
  }

  lemma Distribute(x: int, y: int, p: int)
    ensures (x - y) * p == x * p - y * p
  {
  }

  lemma Regroup(d: int, p: int, q: int, k: int, c: int)
    requires d * p == NO_WRAP * k && p * q == 1 + NO_WRAP * c
    ensures d == NO_WRAP * (k * q - d * c)
  {
    assert d * p * q == d * (p * q);
    assert d * (1 + NO_WRAP * c) == d + NO_WRAP * (d * c);
    assert NO_WRAP * k * q == NO_WRAP * (k * q);
  }

  // ---- the checksum ----

  const FNV_PRIME: nat := 16777619
  const FNV_INVERSE: nat := 899433627

  lemma {:induction false} MixApart(h: word, g: word, b: byte, c: byte)
    requires Mix(h, b) == Mix(g, c)
    ensures Xor(h, b) == Xor(g, c)
  {
    hide Xor;
    XorIsWord(h, b);
    XorIsWord(g, c);
    assert FNV_PRIME * FNV_INVERSE == 1 + NO_WRAP * 3513497;
    MultiplyApart(Xor(h, b), Xor(g, c), FNV_PRIME, FNV_INVERSE, 3513497);
  }

  lemma XorIsWord(h: word, b: byte)
    ensures Xor(h, b) < NO_WRAP
  {
    Pow2Of32();
    XorBound(h, b, 32);
  }

  lemma XorCancels(a: nat, b: nat, c: nat)
    requires Xor(a, b) == Xor(a, c)
    ensures b == c
  {
    hide Xor;
    XorCommutes(a, b);
    XorCommutes(a, c);
    XorInvolution(b, a);
    XorInvolution(c, a);
  }

  /** The step of the checksum is one-to-one in what was summed before and in the byte. */
  lemma {:induction false} MixOneToOne(h: word, g: word, b: byte, c: byte)
    ensures Mix(h, b) == Mix(h, c) ==> b == c
    ensures Mix(h, b) == Mix(g, b) ==> h == g
  {
    hide Xor, Mix;
    if Mix(h, b) == Mix(h, c) {
      MixApart(h, h, b, c);
      XorCancels(h, b, c);
    }
    if Mix(h, b) == Mix(g, b) {
      MixApart(h, g, b, b);
      XorCommutes(h, b);
      XorCommutes(g, b);
      XorCancels(b, h, g);
    }
  }

  /** A byte string with one byte changed has another checksum. */
  lemma {:induction false} HashSeesOneByte(s: seq<byte>, k: nat, x: byte)
    requires k < |s| && x != s[k]
    ensures Hash(s[k := x]) != Hash(s)
    decreases |s|
  {
    hide Mix;
    var t, n := s[k := x], |s| - 1;
    MixOneToOne(Hash(s[..n]), Hash(t[..n]), s[n], t[n]);
    if k == n {
      assert t[..n] == s[..n];
    } else {
      assert t[..n] == s[..n][k := x];
      HashSeesOneByte(s[..n], k, x);
    }
  }

  /** The published values of 32-bit FNV-1a for no bytes and for the letter a. */
  lemma {:induction false} HashVectors()
    ensures Hash([]) == 0x811C9DC5
    ensures Hash([0x61]) == 0xE40C292C
  {
    hide Mix;
    assert [0x61][..0] == [];
    MixOfLetter();
  }

  lemma {:induction false} MixOfLetter()
    ensures Mix(0x811C9DC5, 0x61) == 0xE40C292C
  {
    hide Xor;
    XorWithLow(0x811C9D, 0xC5, 0x61);
    SmallXor();
  }

  lemma SmallXor()
    ensures Xor(0xC5, 0x61) == 0xA4
  {
    assert Xor(0xC, 0x6) == 0xA;
  }

  /** A byte touches the low eight bits only. */
  lemma {:induction false} XorWithLow(high: nat, low: byte, b: byte)
    ensures Xor(256 * high + low as int, b) == 256 * high + Xor(low, b)
  {
    XorBits(high, low, b, 8);
    assert Pow2(8) == 256;
  }

  lemma {:induction false} XorBits(high: nat, low: nat, b: nat, n: nat)
    requires low < Pow2(n) && b < Pow2(n)
    ensures Xor(Pow2(n) * high + low, b) == Pow2(n) * high + Xor(low, b)
    decreases n
  {
    hide Xor;
    if n == 0 {
      XorZero(high);
      XorZero(0);
    } else {
      var p := Pow2(n - 1);
      assert Pow2(n) * high == 2 * (p * high);
      XorBits(high, low / 2, b / 2, n - 1);
      XorHalves(2 * (p * high) + low, b);
      XorHalves(low, b);
      var v := Xor(2 * (p * high) + low, b);
      assert (2 * (p * high) + low) / 2 == p * high + low / 2;
      assert v / 2 == p * high + Xor(low, b) / 2;
    }
  }
}
