/** The key stream of sealed images held to plain arithmetic: a worked value, which inputs
    it depends on, and what an image that opens must contain. */
module LardSecFacts {
  import opened BitOps
  import opened Bytes
  import opened BytesFacts
  import opened WordMath
  import opened LardSecSpec
  import Int32
  import Int32Facts

  // ---- rotations ----

  lemma {:induction false} OrCommutes(a: nat, b: nat)
    ensures Or(a, b) == Or(b, a)
    decreases a + b
  {
    OrFirst(a, b);
    OrFirst(b, a);
    if a + b > 0 {
      OrCommutes(a / 2, b / 2);
    }
  }

  lemma {:induction false} OrFirst(a: nat, b: nat)
    ensures Or(a, b) == (if a % 2 == 1 || b % 2 == 1 then 1 else 0) + 2 * Or(a / 2, b / 2)
  {
    if a == 0 {
      assert Or(0, b) == b && Or(0, b / 2) == b / 2;
    }
  }

  lemma {:induction false} LowOfShl(v: nat, n: nat, m: nat)
    ensures Low(Shl(v, n), n + m) == Shl(Low(v, m), n)
  {
    if n > 0 {
      LowOfShl(v, n - 1, m);
      assert Shl(v, n) / 2 == Shl(v, n - 1) && Shl(v, n) % 2 == 0;
    }
  }

  /** A rotation moves the low 32 - n bits up and the others to the bottom. */
  lemma {:induction false} RotlIs(v: word, n: nat)
    requires 1 <= n <= 32
    ensures Rotl(v, n) == v * Pow2(n) % NO_WRAP + v / Pow2(32 - n)
  {
    hide Or, Low, Shl, Shr, Pow2;
    Pow2Of32();
    ShrBound(v, 32 - n, n);
    LowOfShl(v, n, 32 - n);
    OrCommutes(Low(Shl(v, n), 32), Shr(v, 32 - n));
    OrIsAdd(Shr(v, 32 - n), Low(v, 32 - n), n);
    Int32Facts.ShlMultiplies(v, n);
    Int32Facts.LowRemains(Shl(v, n), 32);
    Int32Facts.ShrDivides(v, 32 - n);
  }

  // ---- the mixing function ----

  /** Everything but the replacement of zero. */
  function Core(v: word): nat {
    var a := Xor(v, Shr(v, 16)) * 0x7FEB352D % NO_WRAP;
    var b := Xor(a, Shr(a, 15)) * 0x846CA68B % NO_WRAP;
    Xor(b, Shr(b, 16))
  }

  lemma XorShiftFits(v: word, n: nat)
    ensures Xor(v, Shr(v, n)) < NO_WRAP
  {
    hide Xor, Shr;
    Pow2Of32();
    ShrShrinks(v, n);
    XorBound(v, Shr(v, n), 32);
  }

  lemma {:induction false} CoreApart(v: word, w: word)
    requires Core(v) == Core(w)
    ensures v == w
  {
    hide Xor, Shr;
    var x, y := Xor(v, Shr(v, 16)), Xor(w, Shr(w, 16));
    XorShiftFits(v, 16);
    XorShiftFits(w, 16);
    var a, a': word := x * 0x7FEB352D % NO_WRAP, y * 0x7FEB352D % NO_WRAP;
    XorShiftFits(a, 15);
    XorShiftFits(a', 15);
    SecondHalfApart(a, a');
    assert 0x7FEB352D * 493478565 == 1 + NO_WRAP * 246582719;
    MultiplyApart(x, y, 0x7FEB352D, 493478565, 246582719);
    XorShiftApart(v, w, 16);
  }

  lemma {:induction false} SecondHalfApart(a: word, c: word)
    requires var b, d := Xor(a, Shr(a, 15)) * 0x846CA68B % NO_WRAP, Xor(c, Shr(c, 15)) * 0x846CA68B % NO_WRAP;
             Xor(b, Shr(b, 16)) == Xor(d, Shr(d, 16))
    ensures a == c
  {
    hide Xor, Shr;
    XorShiftFits(a, 15);
    XorShiftFits(c, 15);
    var x, y: word := Xor(a, Shr(a, 15)), Xor(c, Shr(c, 15));
    XorShiftApart(x * 0x846CA68B % NO_WRAP, y * 0x846CA68B % NO_WRAP, 16);
    assert 0x846CA68B * 1124208931 == 1 + NO_WRAP * 581534029;
    MultiplyApart(x, y, 0x846CA68B, 1124208931, 581534029);
    XorShiftApart(a, c, 15);
  }

  /** Different words mix to different words, but that zero is mixed to the value of one
      other word, 0xA5A55A5A. */
  lemma {:induction false} MixOneToOne(v: word, w: word)
    requires v != w && Mix32(v) == Mix32(w)
    ensures Mix32(v) == 0xA5A55A5A && (v == 0 || w == 0)
  {
    hide Core, Xor, Shr;
    MixIsCore(v);
    MixIsCore(w);
    CoreOfZero();
    if Core(v) == Core(w) {
      CoreApart(v, w);
    }
    if Core(v) == 0 {
      CoreApart(v, 0);
    }
    if Core(w) == 0 {
      CoreApart(w, 0);
    }
  }

  lemma MixIsCore(v: word)
    ensures Mix32(v) == if Core(v) == 0 then 0xA5A55A5A else Core(v)
  {
    hide Xor, Shr;
  }

  lemma CoreOfZero()
    ensures Core(0) == 0
  {
    assert Shr(0, 16) == 0 by { ShrShrinks(0, 16); }
    assert Shr(0, 15) == 0 by { ShrShrinks(0, 15); }
    XorZero(0);
  }

  // ---- the stream ----

  /** What is mixed for a word of the stream. */
  function Argument(key: Key, drive: byte, lba: word, index: nat): nat {
    var v := Xor(Xor(Xor(key[index % 4], drive as int * 0x1000000), lba as int * 0x9E3779B9 % NO_WRAP),
        index * 0x85EBCA6B % NO_WRAP);
    Xor(v, Rotl(key[(index + 1) % 4], index % 16 + 1))
  }

  lemma XorFits(a: nat, b: nat)
    requires a < NO_WRAP && b < NO_WRAP
    ensures Xor(a, b) < NO_WRAP
  {
    Pow2Of32();
    XorBound(a, b, 32);
  }

  lemma {:induction false} RotlFits(v: word, n: nat)
    requires 1 <= n <= 32
    ensures Rotl(v, n) < NO_WRAP
  {
    hide Or, Low, Shl, Shr;
    Pow2Of32();
    ShrShrinks(v, 32 - n);
    Int32.OrBound(Low(Shl(v, n), 32), Shr(v, 32 - n), 32);
  }

  lemma {:induction false} ArgumentFits(key: Key, drive: byte, lba: word, index: nat)
    ensures Argument(key, drive, lba, index) < NO_WRAP
    ensures StreamWord(key, drive, lba, index) == Mix32(Argument(key, drive, lba, index))
  {
    hide Xor, Rotl, Mix32;
    var d, l, i := drive as int * 0x1000000, lba as int * 0x9E3779B9 % NO_WRAP, index * 0x85EBCA6B % NO_WRAP;
    XorFits(key[index % 4], d);
    XorFits(Xor(key[index % 4], d), l);
    XorFits(Xor(Xor(key[index % 4], d), l), i);
    RotlFits(key[(index + 1) % 4], index % 16 + 1);
    XorFits(Xor(Xor(Xor(key[index % 4], d), l), i), Rotl(key[(index + 1) % 4], index % 16 + 1));
  }

  lemma {:induction false} SameTail(a: nat, b: nat, c: nat)
    requires Xor(a, c) == Xor(b, c)
    ensures a == b
  {
    hide Xor;
    XorCommutes(a, c);
    XorCommutes(b, c);
    XorCancels(c, a, b);
  }

  /** Every word of the stream depends on the key word it starts from, on the drive and on
      the block address: changing one of them changes it, unless both are 0xA5A55A5A. */
  lemma {:induction false} StreamDepends(key: Key, other: Key, drive: byte, drive': byte, lba: word, lba': word,
                                         index: nat)
    requires key[(index + 1) % 4] == other[(index + 1) % 4]
    requires StreamWord(key, drive, lba, index) == StreamWord(other, drive', lba', index) != 0xA5A55A5A
    ensures drive == drive' && lba == lba' ==> key[index % 4] == other[index % 4]
    ensures key[index % 4] == other[index % 4] && lba == lba' ==> drive == drive'
    ensures key[index % 4] == other[index % 4] && drive == drive' ==> lba == lba'
  {
    hide Xor, Rotl, Mix32, StreamWord;
    ArgumentFits(key, drive, lba, index);
    ArgumentFits(other, drive', lba', index);
    if Argument(key, drive, lba, index) != Argument(other, drive', lba', index) {
      MixOneToOne(Argument(key, drive, lba, index), Argument(other, drive', lba', index));
    }
    ArgumentApart(key, other, drive, drive', lba, lba', index);
  }

  lemma {:induction false} ArgumentApart(key: Key, other: Key, drive: byte, drive': byte, lba: word, lba': word,
                                         index: nat)
    requires key[(index + 1) % 4] == other[(index + 1) % 4]
    requires Argument(key, drive, lba, index) == Argument(other, drive', lba', index)
    ensures drive == drive' && lba == lba' ==> key[index % 4] == other[index % 4]
    ensures key[index % 4] == other[index % 4] && lba == lba' ==> drive == drive'
    ensures key[index % 4] == other[index % 4] && drive == drive' ==> lba == lba'
  {
    hide Xor, Rotl;
    var k, k' := key[index % 4], other[index % 4];
    var d, d' := drive as int * 0x1000000, drive' as int * 0x1000000;
    var l, l' := lba as int * 0x9E3779B9 % NO_WRAP, lba' as int * 0x9E3779B9 % NO_WRAP;
    var i := index * 0x85EBCA6B % NO_WRAP;
    SameTail(Xor(Xor(Xor(k, d), l), i), Xor(Xor(Xor(k', d'), l'), i), Rotl(key[(index + 1) % 4], index % 16 + 1));
    SameTail(Xor(Xor(k, d), l), Xor(Xor(k', d'), l'), i);
    if lba == lba' {
      SameTail(Xor(k, d), Xor(k', d'), l);
      if drive == drive' {
        SameTail(k, k', d);
      }
      if k == k' {
        XorCancels(k, d, d');
      }
    } else if k == k' && drive == drive' {
      XorCancels(Xor(k, d), l, l');
      assert 0x9E3779B9 * 340573321 == 1 + NO_WRAP * 210485888;
      MultiplyApart(lba, lba', 0x9E3779B9, 340573321, 210485888);
    }
  }

  /** The bytes of the stream are those of its words, low byte first. */
  lemma {:induction false} StreamBytesSpell(key: Key, drive: byte, lba: word, k: nat)
    ensures Number([StreamByte(key, drive, lba, 4 * k), StreamByte(key, drive, lba, 4 * k + 1),
                    StreamByte(key, drive, lba, 4 * k + 2), StreamByte(key, drive, lba, 4 * k + 3)], 0)
            == StreamWord(key, drive, lba, k)
  {
    hide StreamWord, StreamByte, Mix32, Argument, Pow2;
    ArgumentFits(key, drive, lba, k);
    MixFits(Argument(key, drive, lba, k));
    DigitOf(key, drive, lba, k, 0);
    DigitOf(key, drive, lba, k, 1);
    DigitOf(key, drive, lba, k, 2);
    DigitOf(key, drive, lba, k, 3);
    FourDigits(StreamWord(key, drive, lba, k));
  }

  lemma {:induction false} MixFits(v: word)
    ensures Mix32(v) < NO_WRAP
  {
    hide Xor, Shr;
    MixIsCore(v);
    XorShiftFits(Xor(v, Shr(v, 16)) * 0x7FEB352D % NO_WRAP, 15);
    var a: word := Xor(v, Shr(v, 16)) * 0x7FEB352D % NO_WRAP;
    XorShiftFits(Xor(a, Shr(a, 15)) * 0x846CA68B % NO_WRAP, 16);
  }

  lemma {:induction false} DigitOf(key: Key, drive: byte, lba: word, k: nat, r: nat)
    requires r < 4
    ensures StreamByte(key, drive, lba, 4 * k + r) == StreamWord(key, drive, lba, k) / Pow2(8 * r) % 256
  {
    hide StreamWord, Shr, Low;
    var w := StreamWord(key, drive, lba, k);
    assert (4 * k + r) / 4 == k && (4 * k + r) % 4 == r;
    Int32Facts.ShrDivides(w, r * 8);
    Int32Facts.LowRemains(Shr(w, r * 8), 8);
    assert Pow2(8) == 256;
  }

  /** The fill behind n bytes of payload is the stream of another address, from word n / 4 on. */
  lemma {:induction false} FillIs(key: Key, drive: byte, lba: word, start: nat, n: nat, i: nat)
    requires i < n
    ensures Scrub(key, drive, lba, start, n)[i]
            == StreamByte(key, drive, XorWord(lba, 0x5EC), 4 * (start + i / 4) + i % 4)
  {
    hide StreamWord, Shr, Low, XorWord;
    var k, r := start + i / 4, i % 4;
    assert (4 * k + r) / 4 == k && (4 * k + r) % 4 == r;
  }

  // ---- a worked value ----

  lemma MixVectorBytes()
    ensures Xor8(0x35, 0xFF) == 0xCA && Xor8(0x2D, 0xD6) == 0xFB
    ensures Xor8(0xF8, 0x68) == 0x90 && Xor8(0x49, 0x89) == 0xC0
  {
    hide Xor8;
    FirstMixByte();
    SecondMixByte();
    ThirdMixByte();
    FourthMixByte();
  }

  lemma FirstMixByte()
    ensures Xor8(0x35, 0xFF) == 0xCA
  {
    hide Xor8;
    EightPlaces(0x35, 0xFF);
  }

  lemma SecondMixByte()
    ensures Xor8(0x2D, 0xD6) == 0xFB
  {
    hide Xor8;
    EightPlaces(0x2D, 0xD6);
  }

  lemma ThirdMixByte()
    ensures Xor8(0xF8, 0x68) == 0x90
  {
    hide Xor8;
    EightPlaces(0xF8, 0x68);
  }

  lemma FourthMixByte()
    ensures Xor8(0x49, 0x89) == 0xC0
  {
    hide Xor8;
    EightPlaces(0x49, 0x89);
  }

  lemma PowersHere()
    ensures Pow2(15) == 32768 && Pow2(16) == 65536
  {
    assert Pow2(4) == 16 && Pow2(8) == 256 && Pow2(12) == 4096;
  }

  lemma {:induction false} MixOfOne()
    ensures Mix32(1) == 0x688990C0
  {
    hide Xor, Shr, Pow2, Xor8;
    PowersHere();
    Int32Facts.ShrDivides(1, 16);
    Int32Facts.ShrDivides(0x7FEB352D, 15);
    Int32Facts.ShrDivides(0x6889F849, 16);
    XorZero(1);
    MixVectorBytes();
    XorLowHalf(0x7FEB, 0x35, 0x2D, 0xFF, 0xD6);
    XorLowHalf(0x6889, 0xF8, 0x49, 0x68, 0x89);
  }

  /** A worked value: the first word of the stream of the key 1, 0, 0, 0 at drive 0 and
      block address 0. */
  lemma {:induction false} StreamOfOne()
    ensures StreamWord([1, 0, 0, 0], 0, 0, 0) == 0x688990C0
  {
    hide Xor, Rotl, Mix32;
    MixOfOne();
    XorZero(1);
    RotlOfZero();
    assert [1, 0, 0, 0][0] == 1;
  }

  lemma {:induction false} RotlOfZero()
    ensures Rotl(0, 1) == 0
  {
    hide Rotl;
    RotlIs(0, 1);
    ZeroQuotient(Pow2(31));
  }

  lemma ZeroQuotient(p: nat)
    requires p >= 1
    ensures 0 / p == 0
  {
  }
}
