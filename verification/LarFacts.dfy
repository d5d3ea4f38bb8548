/** The checksum, the cipher and the key of LAR archives held to independent forms: a
    bit-serial register, a decipher that undoes the cipher, and steps that lose nothing. */
module LarFacts {
  import opened BitOps
  import opened Bytes
  import opened BytesFacts
  import opened WordMath
  import opened LarSpec
  import Int32Facts

  // ---- the checksum ----

  /** One step of the shift register with the reflected polynomial of CRC-32. */
  function Register(r: nat): nat {
    if r % 2 == 1 then Xor(r / 2, 0xEDB88320) else r / 2
  }

  function Serial(r: nat, n: nat): nat
    decreases n
  {
    if n == 0 then r else Serial(Register(r), n - 1)
  }

  lemma ShrOne(r: word)
    ensures ShrWord(r, 1) == r / 2
  {
    assert Shr(r, 1) == Shr(r / 2, 0);
  }

  lemma RegisterFits(r: word)
    ensures Register(r) < NO_WRAP
  {
    hide Xor;
    Pow2Of32();
    XorBound(r / 2, 0xEDB88320, 32);
  }

  lemma {:induction false} BitsAreSerial(r: word, n: nat)
    ensures CrcBits(r, n) == Serial(r, n)
    decreases n
  {
    hide Xor, ShrWord;
    if n > 0 {
      ShrOne(r);
      RegisterFits(r);
      BitsAreSerial(Register(r), n - 1);
    }
  }

  /** The register is linear. */
  lemma {:induction false} RegisterLinear(a: nat, b: nat)
    ensures Register(Xor(a, b)) == Xor(Register(a), Register(b))
  {
    hide Xor;
    var p := 0xEDB88320;
    XorHalves(a, b);
    var x, y := a / 2, b / 2;
    if a % 2 == 1 && b % 2 == 1 {
      FourTerms(x, y, p);
    } else if a % 2 == 1 {
      XorAssociates(x, p, y);
      XorCommutes(p, y);
      XorAssociates(x, y, p);
    } else if b % 2 == 1 {
      XorAssociates(x, y, p);
    }
  }

  lemma {:induction false} FourTerms(x: nat, y: nat, p: nat)
    ensures Xor(Xor(x, p), Xor(y, p)) == Xor(x, y)
  {
    hide Xor;
    FourWay(x, y, p, p);
    XorSelf(p);
    XorZero(Xor(x, y));
  }

  lemma {:induction false} SerialLinear(a: nat, b: nat, n: nat)
    ensures Serial(Xor(a, b), n) == Xor(Serial(a, n), Serial(b, n))
    decreases n
  {
    hide Xor, Register;
    if n > 0 {
      RegisterLinear(a, b);
      SerialLinear(Register(a), Register(b), n - 1);
    }
  }

  /** Zeros are shifted out without a trace. */
  lemma {:induction false} SerialShifts(h: nat, n: nat)
    ensures Serial(Pow2(n) * h, n) == h
  {
    if n > 0 {
      TwiceTimes(Pow2(n - 1), h);
      SerialShifts(h, n - 1);
    }
  }

  lemma {:induction false} SplitByte(w: word)
    ensures w == Xor(Low8(w), 256 * (w / 256)) && ShrWord(w, 8) == w / 256
  {
    hide Xor, Shr;
    assert Pow2(8) == 256;
    ShrWordIs(w, 8);
    XorJoin(0, w % 256, w / 256, 0, 8);
    XorZero(w / 256);
    XorZero(w % 256);
  }

  /** The table step of hash_crc32 is eight steps of the register on the byte and the sum. */
  lemma {:induction false} CrcIsSerial(s: seq<byte>)
    requires s != []
    ensures Crc(s) == Serial(Xor(Crc(s[..|s| - 1]), s[|s| - 1]), 8)
  {
    hide Xor, Serial, CrcBits, ShrWord;
    var r, b := Crc(s[..|s| - 1]), s[|s| - 1];
    var w := XorWord(r, b);
    SplitByte(w);
    BitsAreSerial(Low8(w), 8);
    SerialLinear(Low8(w), 256 * (w / 256), 8);
    assert Pow2(8) == 256;
    SerialShifts(w / 256, 8);
    ByteXors(r, b);
  }

  /** The low byte of a sum with a byte. */
  lemma {:induction false} ByteXors(r: word, b: byte)
    ensures XorWord(r, b) == Xor(r, b)
    ensures ShrWord(XorWord(r, b), 8) == ShrWord(r, 8)
  {
    hide Xor, Shr;
    assert Pow2(8) == 256;
    XorJoin(r / 256, r % 256, 0, b, 8);
    XorZero(r / 256);
    ShrWordIs(r, 8);
    ShrWordIs(XorWord(r, b), 8);
    XorBound(r % 256, b, 8);
  }

  /** The entries of the table at the powers of two; the others are sums of these. */
  lemma {:induction false} TableEntries()
    ensures CrcBits(128, 8) == 0xEDB88320 && CrcBits(64, 8) == 0x76DC4190 && CrcBits(32, 8) == 0x3B6E20C8
    ensures CrcBits(16, 8) == 0x1DB71064 && CrcBits(8, 8) == 0x0EDB8832 && CrcBits(4, 8) == 0x076DC419
    ensures CrcBits(2, 8) == 0xEE0E612C && CrcBits(1, 8) == 0x77073096
  {
    hide CrcBits, Register, Serial;
    BitsAreSerial(128, 8);
    BitsAreSerial(64, 8);
    BitsAreSerial(32, 8);
    BitsAreSerial(16, 8);
    BitsAreSerial(8, 8);
    BitsAreSerial(4, 8);
    BitsAreSerial(2, 8);
    BitsAreSerial(1, 8);
    Entries();
  }

  /** The register's orbit: from 1 on the eight steps differ by one more each time. */
  lemma {:induction false} Entries()
    ensures Serial(128, 8) == 0xEDB88320 && Serial(64, 8) == 0x76DC4190 && Serial(32, 8) == 0x3B6E20C8
    ensures Serial(16, 8) == 0x1DB71064 && Serial(8, 8) == 0x0EDB8832 && Serial(4, 8) == 0x076DC419
    ensures Serial(2, 8) == 0xEE0E612C && Serial(1, 8) == 0x77073096
  {
    hide Register, Serial;
    FromOne();
    ToOne(7);
    ToOne(6);
    ToOne(5);
    ToOne(4);
    ToOne(3);
    ToOne(2);
    ToOne(1);
    Joined(128, 7, 1);
    Joined(64, 6, 2);
    Joined(32, 5, 3);
    Joined(16, 4, 4);
    Joined(8, 3, 5);
    Joined(4, 2, 6);
    Joined(2, 1, 7);
    SmallPowers();
  }

  lemma SmallPowers()
    ensures Pow2(1) == 2 && Pow2(2) == 4 && Pow2(3) == 8 && Pow2(4) == 16 && Pow2(5) == 32 && Pow2(6) == 64
    ensures Pow2(7) == 128
  {
    assert Pow2(4) == 16;
  }

  lemma {:induction false} ToOne(n: nat)
    ensures Serial(Pow2(n), n) == 1
  {
    SerialShifts(1, n);
  }

  lemma {:induction false} Joined(r: nat, m: nat, n: nat)
    ensures Serial(r, m + n) == Serial(Serial(r, m), n)
    decreases m
  {
    hide Register;
    if m > 0 {
      Joined(Register(r), m - 1, n);
    }
  }

  lemma {:induction false} FromOne()
    ensures Serial(1, 1) == 0xEDB88320 && Serial(1, 2) == 0x76DC4190 && Serial(1, 3) == 0x3B6E20C8
    ensures Serial(1, 4) == 0x1DB71064 && Serial(1, 5) == 0x0EDB8832 && Serial(1, 6) == 0x076DC419
    ensures Serial(1, 7) == 0xEE0E612C && Serial(1, 8) == 0x77073096
  {
    hide Register, Serial;
    RegisterOrbit();
    Joined(1, 1, 1);
    Joined(1, 2, 1);
    Joined(1, 3, 1);
    Joined(1, 4, 1);
    Joined(1, 5, 1);
    Joined(1, 6, 1);
    Joined(1, 7, 1);
    SerialOnce(1);
    SerialOnce(0xEDB88320);
    SerialOnce(0x76DC4190);
    SerialOnce(0x3B6E20C8);
    SerialOnce(0x1DB71064);
    SerialOnce(0x0EDB8832);
    SerialOnce(0x076DC419);
    SerialOnce(0xEE0E612C);
  }

  lemma {:induction false} SerialOnce(r: nat)
    ensures Serial(r, 1) == Register(r)
  {
    assert Serial(Register(r), 0) == Register(r);
  }

  lemma {:induction false} RegisterOrbit()
    ensures Register(1) == 0xEDB88320 && Register(0xEDB88320) == 0x76DC4190 && Register(0x76DC4190) == 0x3B6E20C8
    ensures Register(0x3B6E20C8) == 0x1DB71064 && Register(0x1DB71064) == 0x0EDB8832
    ensures Register(0x0EDB8832) == 0x076DC419 && Register(0x076DC419) == 0xEE0E612C
    ensures Register(0xEE0E612C) == 0x77073096
  {
    hide Xor, Xor8;
    XorZero(0xEDB88320);
    OrbitBytes();
    XorJoin(0x03B6E2, 0x0C, 0xEDB883, 0x20, 8);
    XorJoin(0x03B6, 0xE2, 0xEDB8, 0x83, 8);
    XorJoin(0x03, 0xB6, 0xED, 0xB8, 8);
    XorOfSmall(0x03, 0xED);
    XorOfSmall(0xB6, 0xB8);
    XorOfSmall(0xE2, 0x83);
    XorOfSmall(0x0C, 0x20);
    assert Pow2(8) == 256;
  }

  lemma OrbitBytes()
    ensures Xor8(0x03, 0xED) == 0xEE && Xor8(0xB6, 0xB8) == 0x0E
    ensures Xor8(0xE2, 0x83) == 0x61 && Xor8(0x0C, 0x20) == 0x2C
  {
    hide Xor8;
    TopOrbitByte();
    NextOrbitByte();
    ThirdOrbitByte();
    LowOrbitByte();
  }

  lemma TopOrbitByte()
    ensures Xor8(0x03, 0xED) == 0xEE
  {
    hide Xor8;
    EightPlaces(0x03, 0xED);
  }

  lemma NextOrbitByte()
    ensures Xor8(0xB6, 0xB8) == 0x0E
  {
    hide Xor8;
    EightPlaces(0xB6, 0xB8);
  }

  lemma ThirdOrbitByte()
    ensures Xor8(0xE2, 0x83) == 0x61
  {
    hide Xor8;
    EightPlaces(0xE2, 0x83);
  }

  lemma LowOrbitByte()
    ensures Xor8(0x0C, 0x20) == 0x2C
  {
    hide Xor8;
    EightPlaces(0x0C, 0x20);
  }

  lemma {:induction false} RegisterApart(a: word, b: word)
    requires Register(a) == Register(b)
    ensures a == b
  {
    hide Xor;
    TopBit(a / 2);
    TopBit(b / 2);
    if a % 2 == 1 && b % 2 == 1 {
      SameTail(a / 2, b / 2, 0xEDB88320);
    }
  }

  lemma {:induction false} SameTail(a: nat, b: nat, c: nat)
    requires Xor(a, c) == Xor(b, c)
    ensures a == b
  {
    hide Xor;
    XorCommutes(a, c);
    XorCommutes(b, c);
    XorCancels(c, a, b);
  }

  /** The polynomial's top bit shows whether it was added. */
  lemma {:induction false} TopBit(x: nat)
    requires x < 0x8000_0000
    ensures Xor(x, 0xEDB88320) >= 0x8000_0000
  {
    hide Xor;
    Pow2Of31();
    XorJoin(0, x, 1, 0x6DB88320, 31);
    XorZero(1);
  }

  lemma Pow2Of31()
    ensures Pow2(31) == 0x8000_0000
  {
    Pow2Of32();
  }

  lemma {:induction false} SerialApart(a: word, b: word, n: nat)
    requires Serial(a, n) == Serial(b, n)
    ensures a == b
    decreases n
  {
    hide Register;
    if n > 0 {
      RegisterFits(a);
      RegisterFits(b);
      SerialApart(Register(a), Register(b), n - 1);
      RegisterApart(a, b);
    }
  }

  lemma {:induction false} CrcStepApart(r: word, q: word, b: byte, c: byte)
    requires Serial(Xor(r, b), 8) == Serial(Xor(q, c), 8)
    ensures Xor(r, b) == Xor(q, c)
  {
    hide Serial, Xor;
    XorIsWord(r, b);
    XorIsWord(q, c);
    SerialApart(Xor(r, b), Xor(q, c), 8);
  }

  /** The checksum sees every change of a single byte. */
  lemma {:induction false} CrcSeesOneByte(s: seq<byte>, k: nat, x: byte)
    requires k < |s| && x != s[k]
    ensures Crc(s[k := x]) != Crc(s)
    decreases |s|
  {
    hide Crc, Serial, Xor;
    var t, n := s[k := x], |s| - 1;
    CrcIsSerial(s);
    CrcIsSerial(t);
    if Crc(s) == Crc(t) {
      CrcStepApart(Crc(s[..n]), Crc(t[..n]), s[n], t[n]);
      if k == n {
        assert t[..n] == s[..n];
        XorCancels(Crc(s[..n]), s[n], t[n]);
      } else {
        SameTail(Crc(s[..n]), Crc(t[..n]), s[n]);
      }
    }
    if k < n {
      assert t[..n] == s[..n][k := x];
      CrcSeesOneByte(s[..n], k, x);
    }
  }

  // ---- the cipher ----

  /** The half round in plain arithmetic. */
  function Half(v: word, sum: word, k: word): nat {
    Xor((Xor(v * 16 % NO_WRAP, v / 32) + v) % NO_WRAP, (sum + k) % NO_WRAP)
  }

  lemma {:induction false} HalfRoundIs(v: word, sum: word, k: word)
    ensures HalfRound(v, sum, k) == Half(v, sum, k)
  {
    hide Xor, Pow2, ShlWord, ShrWord;
    ShlWordIs(v, 4);
    ShrWordIs(v, 5);
    FourFive();
  }

  lemma FourFive()
    ensures Pow2(4) == 16 && Pow2(5) == 32
  {
  }

  /** Deciphering: the last n of the rounds, run backwards. */
  function Back(c: Cipher, key: Key, n: nat): Cipher
    decreases n
  {
    if n == 0 then c
    else
      var b := (c.v1 - HalfRound(c.v0, c.sum, key.Part(c.sum / 2048 % 4))) % NO_WRAP;
      var s := (c.sum - 0x9E3779B9) % NO_WRAP;
      var a := (c.v0 - HalfRound(b, s, key.Part(s % 4))) % NO_WRAP;
      Back(Cipher(a, b, s), key, n - 1)
  }

  lemma TakeBack(x: word, y: word)
    ensures (AddWord(x, y) - y) % NO_WRAP == x
  {
  }

  lemma Elevenths(s: word)
    ensures ShrWord(s, 11) == s / 2048
  {
    ShrWordIs(s, 11);
    assert Pow2(5) == 32;
    assert Pow2(11) == 2048;
  }

  /** Running the rounds backwards undoes them. */
  lemma {:induction false} DecipherUndoes(v0: word, v1: word, key: Key, n: nat, m: nat)
    requires m <= n
    ensures Back(Xtea(v0, v1, key, n), key, m) == Xtea(v0, v1, key, n - m)
    decreases m
  {
    hide HalfRound;
    if m > 0 {
      var c, p := Xtea(v0, v1, key, n), Xtea(v0, v1, key, n - 1);
      Elevenths(c.sum);
      TakeBack(p.v1, HalfRound(c.v0, c.sum, key.Part(c.sum / 2048 % 4)));
      TakeBack(p.sum, 0x9E3779B9);
      TakeBack(p.v0, HalfRound(p.v1, p.sum, key.Part(p.sum % 4)));
      DecipherUndoes(v0, v1, key, n - 1, m - 1);
    }
  }

  lemma {:induction false} SumAfter(v0: word, v1: word, key: Key, n: nat)
    ensures Xtea(v0, v1, key, n).sum == n * 0x9E3779B9 % NO_WRAP
  {
    hide HalfRound, AddWord;
    if n > 0 {
      SumAfter(v0, v1, key, n - 1);
      NextSum(Xtea(v0, v1, key, n - 1).sum, (n - 1) * 0x9E3779B9);
    } else {
      NoRounds(v0, v1, key);
    }
  }

  lemma NextSum(s: word, x: nat)
    requires s == x % NO_WRAP
    ensures AddWord(s, 0x9E3779B9) == (x + 0x9E3779B9) % NO_WRAP
  {
    var q := x / NO_WRAP;
    assert x == NO_WRAP * q + s;
    Remainders(s as int + 0x9E3779B9, q);
  }

  lemma Remainders(y: int, q: int)
    ensures (NO_WRAP * q + y) % NO_WRAP == y % NO_WRAP
  {
  }

  /** The 32 rounds end with the running sum at 0xC6EF3720; from there they can be undone, so
      different words are enciphered to different words. */
  lemma {:induction false} CipherOneToOne(v0: word, v1: word, w0: word, w1: word, key: Key)
    ensures Xtea(v0, v1, key, 32).sum == 0xC6EF3720
    ensures Xtea(v0, v1, key, 32) == Xtea(w0, w1, key, 32) ==> v0 == w0 && v1 == w1
  {
    hide Xtea, Back;
    SumAfter(v0, v1, key, 32);
    DecipherUndoes(v0, v1, key, 32, 32);
    DecipherUndoes(w0, w1, key, 32, 32);
    NoRounds(v0, v1, key);
    NoRounds(w0, w1, key);
  }

  lemma NoRounds(v0: word, v1: word, key: Key)
    ensures Xtea(v0, v1, key, 0) == Cipher(v0, v1, 0)
  {
  }

  /** Eight bytes of the password stream are the two words of one enciphered block, each low
      byte first: the block's number and the salt go in on one side, the key on the other. */
  lemma {:induction false} StreamBytesSpell(key: Key, salt: word, k: nat)
    requires k < NO_WRAP
    ensures var c := Xtea(Xor32(Xor32(salt, k), 0x4C415250), Xor32(Xor32(key.k0, key.k2), k * 0x9E3779B9 % NO_WRAP),
                          key, 32);
            && Number([StreamByte(key, salt, 8 * k), StreamByte(key, salt, 8 * k + 1),
                       StreamByte(key, salt, 8 * k + 2), StreamByte(key, salt, 8 * k + 3)], 0) == c.v0
            && Number([StreamByte(key, salt, 8 * k + 4), StreamByte(key, salt, 8 * k + 5),
                       StreamByte(key, salt, 8 * k + 6), StreamByte(key, salt, 8 * k + 7)], 0) == c.v1
  {
    hide StreamByte, Xtea, XorWord, Xor32;
    XorWordIs(salt, k);
    XorWordIs(XorWord(salt, k), 0x4C415250);
    XorWordIs(key.k0, key.k2);
    XorWordIs(XorWord(key.k0, key.k2), k * 0x9E3779B9 % NO_WRAP);
    var c := Xtea(XorWord(XorWord(salt, k), 0x4C415250), XorWord(XorWord(key.k0, key.k2), k * 0x9E3779B9 % NO_WRAP),
                  key, 32);
    DigitOf(key, salt, k, 0, c);
    DigitOf(key, salt, k, 1, c);
    DigitOf(key, salt, k, 2, c);
    DigitOf(key, salt, k, 3, c);
    DigitOf(key, salt, k, 4, c);
    DigitOf(key, salt, k, 5, c);
    DigitOf(key, salt, k, 6, c);
    DigitOf(key, salt, k, 7, c);
    FourDigits(c.v0);
    FourDigits(c.v1);
  }

  lemma Places(k: nat, r: nat)
    requires k < NO_WRAP && r < 8
    ensures BlockWord(8 * k + r) == k && (8 * k + r) / 4 % 2 == r / 4 && (8 * k + r) % 4 == r % 4
  {
    assert 8 * k + r == 4 * (2 * k + r / 4) + r % 4;
    assert (8 * k + r) / 8 == k;
  }

  lemma {:induction false} DigitOf(key: Key, salt: word, k: nat, r: nat, c: Cipher)
    requires k < NO_WRAP && r < 8
    requires c == Xtea(XorWord(XorWord(salt, k), 0x4C415250),
                       XorWord(XorWord(key.k0, key.k2), k * 0x9E3779B9 % NO_WRAP), key, 32)
    ensures StreamByte(key, salt, 8 * k + r) == (if r < 4 then c.v0 else c.v1) / Pow2(8 * (r % 4)) % 256
  {
    hide Xtea, XorWord, ShrWord, BlockWord;
    Places(k, r);
    ShrWordIs(if r < 4 then c.v0 else c.v1, r % 4 * 8);
  }

  // ---- the key ----

  lemma {:induction false} MixStepApart(h: word, g: word, b: byte, c: byte, shift: nat)
    requires shift >= 1
    requires var m, n := MulWord(XorWord(h, b), 16777619), MulWord(XorWord(g, c), 16777619);
             XorWord(m, ShrWord(m, shift)) == XorWord(n, ShrWord(n, shift))
    ensures Xor(h, b) == Xor(g, c)
  {
    hide Xor, Shr;
    XorShiftApart(MulWord(XorWord(h, b), 16777619), MulWord(XorWord(g, c), 16777619), shift);
    assert 16777619 * FNV_INVERSE == 1 + NO_WRAP * 3513497;
    MultiplyApart(XorWord(h, b), XorWord(g, c), 16777619, FNV_INVERSE, 3513497);
  }

  /** Mixing a text in keeps what was mixed in before apart. */
  lemma {:induction false} MixKeepsApart(h: word, g: word, s: seq<byte>, shift: nat)
    requires shift >= 1 && MixAll(h, s, shift) == MixAll(g, s, shift)
    ensures h == g
    decreases |s|
  {
    hide Xor, XorWord, ShrWord, MulWord;
    if s != [] {
      var n := |s| - 1;
      MixStepApart(MixAll(h, s[..n], shift), MixAll(g, s[..n], shift), s[n], s[n], shift);
      SameTail(MixAll(h, s[..n], shift), MixAll(g, s[..n], shift), s[n]);
      MixKeepsApart(h, g, s[..n], shift);
    }
  }

  lemma {:induction false} MixSeesOneByte(h: word, s: seq<byte>, k: nat, x: byte, shift: nat)
    requires shift >= 1 && k < |s| && x != s[k]
    ensures MixAll(h, s[k := x], shift) != MixAll(h, s, shift)
    decreases |s|
  {
    hide Xor, XorWord, ShrWord, MulWord;
    var t, n := s[k := x], |s| - 1;
    if MixAll(h, s, shift) == MixAll(h, t, shift) {
      MixStepApart(MixAll(h, s[..n], shift), MixAll(h, t[..n], shift), s[n], t[n], shift);
      if k == n {
        assert t[..n] == s[..n];
        XorCancels(MixAll(h, s[..n], shift), s[n], t[n]);
      } else {
        SameTail(MixAll(h, s[..n], shift), MixAll(h, t[..n], shift), s[n]);
      }
    }
    if k < n {
      assert t[..n] == s[..n][k := x];
      MixSeesOneByte(h, s[..n], k, x, shift);
    }
  }

  /** Changing one character of the password, one character of the member's name or the salt
      changes the key. */
  lemma {:induction false} KeyDepends(password: seq<byte>, name: seq<byte>, salt: word, k: nat, x: byte, salt': word)
    ensures k < |password| && x != password[k] ==>
              PassKey(password[k := x], name, salt) != PassKey(password, name, salt)
    ensures k < |name| && x != name[k] ==> PassKey(password, name[k := x], salt) != PassKey(password, name, salt)
    ensures salt != salt' ==> PassKey(password, name, salt') != PassKey(password, name, salt)
  {
    hide MixAll, XorWord, ShlWord, ShrWord, Xor;
    var h := XorWord(2166136261, salt);
    if k < |password| && x != password[k] {
      MixSeesOneByte(h, password, k, x, 13);
      BaseMatters(MixAll(h, password, 13), MixAll(h, password[k := x], 13), name);
      FirstPartIs(password, name, salt);
      FirstPartIs(password[k := x], name, salt);
    }
    if k < |name| && x != name[k] {
      MixSeesOneByte(MixAll(h, password, 13), name, k, x, 11);
      FirstPartIs(password, name, salt);
      FirstPartIs(password, name[k := x], salt);
    }
    if salt != salt' {
      SaltMatters(password, salt, salt');
      BaseMatters(MixAll(h, password, 13), MixAll(XorWord(2166136261, salt'), password, 13), name);
      FirstPartIs(password, name, salt);
      FirstPartIs(password, name, salt');
    }
  }

  lemma {:induction false} FirstPartIs(password: seq<byte>, name: seq<byte>, salt: word)
    ensures var base := MixAll(MixAll(XorWord(2166136261, salt), password, 13), name, 11);
            PassKey(password, name, salt).k0 == XorWord(base, 0x4C415231)
            && forall b: word :: XorWord(b, 0x4C415231) == XorWord(base, 0x4C415231) ==> b == base
  {
    hide MixAll, Xor, ShlWord, ShrWord;
    var base := MixAll(MixAll(XorWord(2166136261, salt), password, 13), name, 11);
    forall b: word | XorWord(b, 0x4C415231) == XorWord(base, 0x4C415231)
      ensures b == base
    {
      SameTail(b, base, 0x4C415231);
    }
  }

  lemma {:induction false} BaseMatters(h: word, g: word, name: seq<byte>)
    requires h != g
    ensures MixAll(h, name, 11) != MixAll(g, name, 11)
  {
    hide MixAll;
    if MixAll(h, name, 11) == MixAll(g, name, 11) {
      MixKeepsApart(h, g, name, 11);
    }
  }

  lemma {:induction false} SaltMatters(password: seq<byte>, salt: word, salt': word)
    requires salt != salt'
    ensures MixAll(XorWord(2166136261, salt), password, 13) != MixAll(XorWord(2166136261, salt'), password, 13)
  {
    hide MixAll, Xor;
    var h, g := XorWord(2166136261, salt), XorWord(2166136261, salt');
    if MixAll(h, password, 13) == MixAll(g, password, 13) {
      MixKeepsApart(h, g, password, 13);
      XorCancels(2166136261, salt, salt');
    }
  }

  // ---- the salt ----

  /** Shifting up and adding without carry loses nothing either. */
  lemma {:induction false} ShiftUpApart(a: word, b: word, n: nat)
    requires n >= 1 && XorWord(a, ShlWord(a, n)) == XorWord(b, ShlWord(b, n))
    ensures a == b
  {
    hide Int32Facts.Bit, Xor, Shl, Low, Pow2;
    Pow2Of32();
    forall k | 0 <= k < 32
      ensures Int32Facts.Bit(a, k) <==> Int32Facts.Bit(b, k)
    {
      SameBit(a, b, n, k);
    }
    Int32Facts.BitsDecide(a, b, 32);
  }

  lemma {:induction false} SameBit(a: word, b: word, n: nat, k: nat)
    requires n >= 1 && k < 32 && XorWord(a, ShlWord(a, n)) == XorWord(b, ShlWord(b, n))
    ensures Int32Facts.Bit(a, k) <==> Int32Facts.Bit(b, k)
    decreases k
  {
    hide Int32Facts.Bit, Xor, Shl, Low;
    Int32Facts.XorBit(a, ShlWord(a, n), k);
    Int32Facts.XorBit(b, ShlWord(b, n), k);
    Int32Facts.LowBit(Shl(a, n), 32, k);
    Int32Facts.LowBit(Shl(b, n), 32, k);
    Int32Facts.ShlBit(a, n, k);
    Int32Facts.ShlBit(b, n, k);
    if k >= n {
      SameBit(a, b, n, k - n);
    }
  }

  lemma {:induction false} ShiftDownApart(a: word, b: word, n: nat)
    requires n >= 1 && XorWord(a, ShrWord(a, n)) == XorWord(b, ShrWord(b, n))
    ensures a == b
  {
    hide Xor, Shr;
    XorShiftApart(a, b, n);
  }

  /** What is stirred into the salt, and the stirring without the replacement of zero. */
  function SaltStart(name: seq<byte>, payload: seq<byte>): word
    requires |payload| < NO_WRAP
  {
    XorWord(XorWord(XorWord(Crc(payload), Hash(name)), |payload|), 0x4C415250)
  }

  function Stirred(a: word): word {
    var b := XorWord(a, ShlWord(a, 13));
    var c := XorWord(b, ShrWord(b, 17));
    XorWord(c, ShlWord(c, 5))
  }

  lemma {:induction false} StirredApart(a: word, b: word)
    requires Stirred(a) == Stirred(b)
    ensures a == b
  {
    hide XorWord, ShlWord, ShrWord;
    var a1, b1 := XorWord(a, ShlWord(a, 13)), XorWord(b, ShlWord(b, 13));
    var a2, b2 := XorWord(a1, ShrWord(a1, 17)), XorWord(b1, ShrWord(b1, 17));
    ShiftUpApart(a2, b2, 5);
    ShiftDownApart(a1, b1, 17);
    ShiftUpApart(a, b, 13);
  }

  /** Two payloads of a member that differ in one byte have different salts, unless both are
      the value that stands in for zero; no salt is zero. */
  lemma {:induction false} SaltDepends(name: seq<byte>, payload: seq<byte>, k: nat, x: byte)
    requires |payload| < NO_WRAP && k < |payload| && x != payload[k]
    ensures PublicSalt(name, payload) != 0
    ensures PublicSalt(name, payload) == PublicSalt(name, payload[k := x]) ==>
              PublicSalt(name, payload) == 0x4C415250
  {
    hide XorWord, Crc, Hash, Stirred;
    var other := payload[k := x];
    SaltIs(name, payload);
    SaltIs(name, other);
    CrcSeesOneByte(payload, k, x);
    StartsApart(name, payload, other);
    if Stirred(SaltStart(name, payload)) == Stirred(SaltStart(name, other)) {
      StirredApart(SaltStart(name, payload), SaltStart(name, other));
    }
  }

  lemma SaltIs(name: seq<byte>, payload: seq<byte>)
    requires |payload| < NO_WRAP
    ensures var d := Stirred(SaltStart(name, payload)); PublicSalt(name, payload) == if d == 0 then 0x4C415250 else d
  {
    hide XorWord, ShlWord, ShrWord, Crc, Hash;
  }

  lemma {:induction false} StartsApart(name: seq<byte>, p: seq<byte>, q: seq<byte>)
    requires |p| == |q| < NO_WRAP && Crc(p) != Crc(q)
    ensures SaltStart(name, p) != SaltStart(name, q)
  {
    hide Xor, Crc, Hash;
    if SaltStart(name, p) == SaltStart(name, q) {
      var h, n := Hash(name), |p|;
      SameTail(XorWord(XorWord(Crc(p), h), n), XorWord(XorWord(Crc(q), h), n), 0x4C415250);
      SameTail(XorWord(Crc(p), h), XorWord(Crc(q), h), n);
      SameTail(Crc(p), Crc(q), h);
    }
  }
}
