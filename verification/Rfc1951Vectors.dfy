/** Single streams, byte by byte, with what they stand for. They hold the format and the
    decoder to the order of the bits in a byte and to the layout of every kind of block. */
module Rfc1951Vectors {
  import opened Wrappers
  import opened BitOps
  import opened Huffman
  import opened Rfc1951
  import opened Decoder
  import Rfc1951Symbols

  // ---- bits of single numbers ----

  lemma BitFirst(v: nat, n: nat)
    requires n > 0
    ensures BitsOf(v, n) == [v % 2 == 1] + BitsOf(v / 2, n - 1)
  {
  }

  lemma {:induction false} Two(v: nat)
    ensures BitsOf(v, 2) == [v % 2 == 1, v / 2 % 2 == 1]
  {
    hide BitsOf;
    BitFirst(v, 2);
    BitFirst(v / 2, 1);
    assert BitsOf(v / 2 / 2, 0) == [];
  }

  lemma {:induction false} Three(v: nat)
    ensures BitsOf(v, 3) == [v % 2 == 1, v / 2 % 2 == 1, v / 4 % 2 == 1]
  {
    hide BitsOf;
    BitFirst(v, 3);
    Two(v / 2);
    assert v / 2 / 2 == v / 4;
  }

  lemma {:induction false} Four(v: nat)
    ensures BitsOf(v, 4) == [v % 2 == 1, v / 2 % 2 == 1, v / 4 % 2 == 1, v / 8 % 2 == 1]
  {
    hide BitsOf;
    BitFirst(v, 4);
    BitFirst(v / 2, 3);
    Two(v / 4);
    assert v / 2 / 2 == v / 4 && v / 4 / 2 == v / 8;
  }

  lemma {:induction false} Octet(v: nat)
    ensures BitsOf(v, 8) == [v % 2 == 1, v / 2 % 2 == 1, v / 4 % 2 == 1, v / 8 % 2 == 1,
                             v / 16 % 2 == 1, v / 32 % 2 == 1, v / 64 % 2 == 1, v / 128 % 2 == 1]
  {
    Four(v);
    Four(v / 16);
    Sixteenth(v);
    hide BitsOf, Shr;
    BitsOfSplit(v, 4, 4);
    assert v / 16 / 2 == v / 32 && v / 16 / 4 == v / 64 && v / 16 / 8 == v / 128;
  }

  lemma Sixteenth(v: nat)
    ensures Shr(v, 4) == v / 16
  {
    assert Shr(v, 4) == Shr(v / 2, 3) == Shr(v / 4, 2) == Shr(v / 8, 1) == v / 16;
  }

  lemma {:induction false} StreamOfThree(a: byte, b: byte, c: byte)
    ensures StreamBits([a, b, c]) == BitsOf(a as nat, 8) + BitsOf(b as nat, 8) + BitsOf(c as nat, 8)
  {
    hide BitsOf;
    StreamBitsAppend([a], [b]);
    StreamBitsAppend([a, b], [c]);
    assert [a] + [b] == [a, b] && [a, b] + [c] == [a, b, c];
    StreamOfOne(a);
    StreamOfOne(b);
    StreamOfOne(c);
  }

  lemma {:induction false} StreamOfOne(a: byte)
    ensures StreamBits([a]) == BitsOf(a as nat, 8)
  {
    hide BitsOf;
    assert [a][1..] == [];
  }

  lemma BitLast(v: nat, n: nat)
    requires n > 0
    ensures MsbBits(v, n) == MsbBits(v / 2, n - 1) + [v % 2 == 1]
  {
  }

  lemma {:induction false} WordOfFour(v: nat)
    ensures MsbBits(v, 4) == [v / 8 % 2 == 1, v / 4 % 2 == 1, v / 2 % 2 == 1, v % 2 == 1]
  {
    hide MsbBits;
    BitLast(v, 4);
    BitLast(v / 2, 3);
    BitLast(v / 4, 2);
    BitLast(v / 8, 1);
    assert v / 2 / 2 == v / 4 && v / 4 / 2 == v / 8 && MsbBits(v / 8 / 2, 0) == [];
  }

  lemma {:induction false} WordOfEight(v: nat)
    ensures MsbBits(v, 8) == MsbBits(v / 16, 4) + MsbBits(v, 4)
    ensures MsbBits(v, 7) == MsbBits(v / 16, 3) + MsbBits(v, 4)
  {
    hide MsbBits;
    LastFour(v, 8);
    LastFour(v, 7);
  }

  lemma {:induction false} LastFour(v: nat, n: nat)
    requires n >= 4
    ensures MsbBits(v, n) == MsbBits(v / 16, n - 4) + MsbBits(v, 4)
  {
    hide MsbBits;
    WordOfFour(v);
    BitLast(v, n);
    BitLast(v / 2, n - 1);
    BitLast(v / 4, n - 2);
    BitLast(v / 8, n - 3);
    assert v / 2 / 2 == v / 4 && v / 4 / 2 == v / 8 && v / 8 / 2 == v / 16;
  }

  lemma {:induction false} WordOfThree(v: nat)
    ensures MsbBits(v, 3) == [v / 4 % 2 == 1, v / 2 % 2 == 1, v % 2 == 1]
  {
    hide MsbBits;
    BitLast(v, 3);
    BitLast(v / 2, 2);
    BitLast(v / 4, 1);
    assert v / 2 / 2 == v / 4 && MsbBits(v / 4 / 2, 0) == [];
  }

  // ---- streams of one block ----

  lemma {:induction false} OneFixed(ts: seq<Token>)
    requires Fixed(ts).Ok()
    ensures Stream([Fixed(ts)]) == [true, true, false] + TokenBits(ts, FixedLit(), FixedDist())
  {
    hide FixedLit, FixedDist, TokenBits, TokensCodable, BitsOf;
    Two(1);
  }

  lemma {:induction false} Decodes(blk: Block, source: seq<byte>, out: seq<byte>, cap: nat)
    requires !blk.Dynamic? && IsStreamFor([blk], source, out) && |out| <= cap
    ensures StandsFor(source, out)
    ensures var r := Inflate(DIST_TAKEN, StreamBits(source), [], cap); r.Ok? && r.out == out
  {
    hide IsStreamFor, StreamBits, Inflate, Block.Ok;
    assert TakesAll(DIST_TAKEN, [blk]);
    WithinDecodes(DIST_TAKEN, source, out, cap);
  }

  // ---- a literal in a fixed block ----

  /** Section 3.2.6: 97 has the word 10010001 and 256 has 0000000. */
  lemma {:induction false} WordOfLetter()
    ensures Used(FixedLit(), 97) && Used(FixedLit(), 256)
    ensures CodeBits(FixedLit(), 97) == [true, false, false, true, false, false, false, true]
    ensures CodeBits(FixedLit(), 256) == [false, false, false, false, false, false, false]
  {
    hide CodeBits, FixedLit, MsbBits;
    Rfc1951Symbols.FixedWord(97);
    Rfc1951Symbols.FixedWord(256);
    WordOfEight(0x91);
    WordOfFour(9);
    WordOfFour(0x91);
    WordOfEight(0);
    WordOfThree(0);
    WordOfFour(0);
  }

  const LETTER: seq<byte> := [0x4B, 0x04, 0x00]

  lemma {:induction false} LetterTokens()
    ensures TokensCodable([Literal(97)], FixedLit(), FixedDist()) && Used(FixedLit(), 256)
    ensures TokenBits([Literal(97)], FixedLit(), FixedDist()) ==
            [true, false, false, true, false, false, false, true, false, false, false, false, false, false, false]
  {
    hide CodeBits, FixedLit, FixedDist;
    WordOfLetter();
    assert [Literal(97)][1..] == [];
  }

  lemma {:induction false} LetterBytes()
    ensures StreamBits(LETTER) ==
            [true, true, false, true, false, false, true, false,
             false, false, true, false, false, false, false, false,
             false, false, false, false, false, false, false, false]
  {
    hide StreamBits, BitsOf;
    Octet4B();
    OctetsOfFew();
    StreamOfThree(0x4B, 0x04, 0x00);
  }

  lemma Octet4B()
    ensures BitsOf(0x4B, 8) == [true, true, false, true, false, false, true, false]
  {
    hide BitsOf;
    Octet(0x4B);
  }

  lemma OctetsOfFew()
    ensures BitsOf(0x00, 8) == [false, false, false, false, false, false, false, false]
    ensures BitsOf(0x01, 8) == [true, false, false, false, false, false, false, false]
    ensures BitsOf(0x04, 8) == [false, false, true, false, false, false, false, false]
    ensures BitsOf(0x44, 8) == [false, false, true, false, false, false, true, false]
  {
    hide BitsOf;
    Octet(0x00);
    Octet(0x01);
    Octet(0x04);
    Octet(0x44);
  }

  lemma {:induction false} LetterStream()
    ensures [Fixed([Literal(97)])][0].Ok()
    ensures Stream([Fixed([Literal(97)])]) ==
            [true, true, false, true, false, false, true, false, false, false, true,
             false, false, false, false, false, false, false]
  {
    hide FixedLit, FixedDist, TokenBits, TokensCodable, BitsOf, Stream;
    LetterTokens();
    OneFixed([Literal(97)]);
  }

  /** A fixed block of the letter a, in three bytes. */
  lemma {:induction false} LetterStandsFor(cap: nat)
    requires cap >= 1
    ensures StandsFor(LETTER, [97])
    ensures var r := Inflate(DIST_TAKEN, StreamBits(LETTER), [], cap); r.Ok? && r.out == [97]
  {
    hide StreamBits, Inflate, StandsFor, Stream, Block.Ok;
    LetterStream();
    LetterBytes();
    LetterMeans();
    assert IsStreamFor([Fixed([Literal(97)])], LETTER, [97]);
    Decodes(Fixed([Literal(97)]), LETTER, [97], cap);
  }

  lemma {:induction false} LetterMeans()
    requires Fixed([Literal(97)]).Ok()
    ensures Meaning([Fixed([Literal(97)])], []) == Some([97])
  {
    var ts, none: seq<byte> := [Literal(97)], [];
    assert none + [97] == [97] && ts[1..] == [];
    assert ApplyTokens([], [97]) == Some([97]);
    assert ApplyTokens(ts, none) == ApplyTokens(ts[1..], [97]);
  }

  // ---- a copy in a fixed block ----

  /** The letter a, then symbol 266 with extra bit 0 and distance symbol 0: thirteen more. */
  const LETTERS: seq<byte> := [0x4B, 0x44, 0x01, 0x00]

  const LETTER_TOKENS: seq<Token> := [Literal(97), Copy(266, 0, 0, 0)]

  lemma {:induction false} CopyBits()
    ensures LETTER_TOKENS[1].Codable(FixedLit(), FixedDist())
    ensures LETTER_TOKENS[1].Bits(FixedLit(), FixedDist()) ==
            [false, false, false, true, false, true, false, false, false, false, false, false, false]
    ensures LETTER_TOKENS[1].Length() == 13 && LETTER_TOKENS[1].Distance() == 1
  {
    hide CodeBits, FixedLit, FixedDist, MsbBits, LenBits, DistBits, Token.Length, Token.Distance;
    Rfc1951Symbols.LengthBits(266);
    Rfc1951Symbols.DistanceBits(0);
    Rfc1951Symbols.FixedWord(266);
    Rfc1951Symbols.FixedDistanceWord(0);
    TwoPow();
    Rfc1951Symbols.LengthOfSymbol(LETTER_TOKENS[1]);
    Rfc1951Symbols.DistanceOfSymbol(LETTER_TOKENS[1]);
    LowWords();
    assert BitsOf(0, 1) == [false];
  }

  lemma TwoPow()
    ensures Pow2(0) == 1 && Pow2(1) == 2
  {
  }

  lemma {:induction false} LowWords()
    ensures MsbBits(10, 7) == [false, false, false, true, false, true, false]
    ensures MsbBits(0, 5) == [false, false, false, false, false]
  {
    hide MsbBits;
    WordOfEight(10);
    WordOfThree(0);
    WordOfFour(10);
    WordOfFour(0);
    LastFour(0, 5);
    BitLast(0, 1);
    assert MsbBits(0, 0) == [];
  }

  lemma {:induction false} LettersTokens()
    ensures TokensCodable(LETTER_TOKENS, FixedLit(), FixedDist()) && Used(FixedLit(), 256)
    ensures TokenBits(LETTER_TOKENS, FixedLit(), FixedDist()) ==
            [true, false, false, true, false, false, false, true]
            + ([false, false, false, true, false, true, false, false, false, false, false, false, false]
            + [false, false, false, false, false, false, false])
  {
    hide CodeBits, FixedLit, FixedDist, TokenBits;
    WordOfLetter();
    CopyBits();
    assert LETTER_TOKENS[0].Codable(FixedLit(), FixedDist());
    assert TokensCodable(LETTER_TOKENS, FixedLit(), FixedDist());
    FirstToken(LETTER_TOKENS);
    FirstToken(LETTER_TOKENS[1..]);
    assert LETTER_TOKENS[1..][1..] == [];
    NoToken();
  }

  lemma FirstToken(ts: seq<Token>)
    requires ts != [] && TokensCodable(ts, FixedLit(), FixedDist()) && Used(FixedLit(), 256)
    ensures TokenBits(ts, FixedLit(), FixedDist()) ==
            ts[0].Bits(FixedLit(), FixedDist()) + TokenBits(ts[1..], FixedLit(), FixedDist())
  {
    hide FixedLit, FixedDist;
  }

  lemma NoToken()
    requires Used(FixedLit(), 256)
    ensures TokenBits([], FixedLit(), FixedDist()) == CodeBits(FixedLit(), 256)
  {
    hide FixedLit, FixedDist;
  }

  lemma {:induction false} LettersBytes()
    ensures StreamBits(LETTERS) ==
            [true, true, false, true, false, false, true, false,
             false, false, true, false, false, false, true, false,
             true, false, false, false, false, false, false, false,
             false, false, false, false, false, false, false, false]
  {
    hide StreamBits, BitsOf;
    Octet4B();
    OctetsOfFew();
    StreamOfThree(0x4B, 0x44, 0x01);
    StreamOfOne(0x00);
    StreamBitsAppend([0x4B, 0x44, 0x01], [0x00]);
    assert [0x4B, 0x44, 0x01] + [0x00] == LETTERS;
  }

  lemma {:induction false} LettersStream()
    ensures Fixed(LETTER_TOKENS).Ok()
    ensures Stream([Fixed(LETTER_TOKENS)]) ==
            [true, true, false, true, false, false, true, false, false, false, true,
             false, false, false, true, false, true, false, false, false, false, false, false, false,
             false, false, false, false, false, false, false]
  {
    hide FixedLit, FixedDist, TokenBits, TokensCodable, BitsOf, Stream;
    LettersTokens();
    OneFixed(LETTER_TOKENS);
  }

  lemma {:induction false} RepeatOne(x: byte, n: nat)
    ensures Repeat([x], 1, n) == Copies(x, n + 1)
  {
    if n != 0 {
      RepeatOne(x, n - 1);
    }
  }

  lemma ApplyOne(t: Token, out: seq<byte>)
    requires t.InRange() && t.Apply(out).Some?
    ensures ApplyTokens([t], out) == t.Apply(out)
  {
    hide Token.InRange, Token.Apply;
    assert [t][1..] == [];
    assert ApplyTokens([], t.Apply(out).value) == t.Apply(out);
  }

  lemma ApplyFirst(ts: seq<Token>, out: seq<byte>)
    requires ts != [] && (forall i | 0 <= i < |ts| :: ts[i].InRange()) && ts[0].Apply(out).Some?
    ensures ApplyTokens(ts, out) == ApplyTokens(ts[1..], ts[0].Apply(out).value)
  {
    hide Token.InRange, Token.Apply;
  }

  lemma {:induction false} LettersMean()
    requires Fixed(LETTER_TOKENS).Ok()
    ensures Meaning([Fixed(LETTER_TOKENS)], []) == Some(Copies<byte>(97, 14))
  {
    hide Repeat, Copies, Token.Length, Token.Distance;
    var none: seq<byte> := [];
    CopyBits();
    RepeatOne(97, 13);
    assert none + [97] == [97] && LETTER_TOKENS[1..][1..] == [];
    assert LETTER_TOKENS[0].Apply(none) == Some([97]);
    assert LETTER_TOKENS[1].Apply([97]) == Some(Copies<byte>(97, 14));
    assert LETTER_TOKENS[1..] == [LETTER_TOKENS[1]];
    ApplyOne(LETTER_TOKENS[1], [97]);
    ApplyFirst(LETTER_TOKENS, none);
  }

  lemma {:induction false} LettersStandFor(cap: nat)
    requires cap >= 14
    ensures StandsFor(LETTERS, Copies<byte>(97, 14))
    ensures var r := Inflate(DIST_TAKEN, StreamBits(LETTERS), [], cap); r.Ok? && r.out == Copies<byte>(97, 14)
  {
    hide StreamBits, Inflate, StandsFor, Stream, Block.Ok, Meaning;
    LettersStream();
    LettersBytes();
    LettersMean();
    assert Stream([Fixed(LETTER_TOKENS)]) == StreamBits(LETTERS)[..31];
    assert IsStreamFor([Fixed(LETTER_TOKENS)], LETTERS, Copies<byte>(97, 14));
    Decodes(Fixed(LETTER_TOKENS), LETTERS, Copies<byte>(97, 14), cap);
  }

  // ---- a stored block ----

  /** One byte, stored: its length and the complement of the length, low byte first. */
  const STORED: seq<byte> := [0x01, 0x01, 0x00, 0xFE, 0xFF, 97]

  lemma {:induction false} Half(v: nat)
    ensures BitsOf(v, 16) == BitsOf(v, 8) + BitsOf(v / 256, 8)
  {
    hide BitsOf;
    BitsOfSplit(v, 8, 8);
    Sixteenth(v);
    Sixteenth(v / 16);
    ShrTwice(v, 4, 4);
  }

  lemma {:induction false} ShrTwice(v: nat, a: nat, b: nat)
    ensures Shr(v, a + b) == Shr(Shr(v, a), b)
  {
    if a != 0 {
      ShrTwice(v / 2, a - 1, b);
    }
  }

  lemma {:induction false} LengthBits()
    ensures BitsOf(1, 16) == BitsOf(0x01, 8) + BitsOf(0x00, 8)
    ensures BitsOf(0xFFFE, 16) == BitsOf(0xFE, 8) + BitsOf(0xFF, 8)
  {
    hide BitsOf;
    Half(1);
    Half(0xFFFE);
    Octet(0xFFFE);
    Octet(0xFE);
  }

  function StoredLetter(): Block {
    Stored(Copies(false, 5), [97])
  }

  lemma {:induction false} StoredStream()
    ensures StoredLetter().Ok() && Stream([StoredLetter()]) == StreamBits(STORED)
  {
    hide StreamBits, BitsOf;
    Two(0);
    OctetsOfFew();
    LengthBits();
    StreamOfThree(0x01, 0x01, 0x00);
    StreamOfThree(0xFE, 0xFF, 97);
    StreamOfOne(97);
    StreamBitsAppend([0x01, 0x01, 0x00], [0xFE, 0xFF, 97]);
    assert [0x01, 0x01, 0x00] + [0xFE, 0xFF, 97] == STORED;
    assert StoredLetter().Body() ==
           Copies(false, 5) + (BitsOf(1, 16) + (BitsOf(0xFFFE, 16) + BitsOf(97, 8)));
  }

  lemma {:induction false} StoredStandsFor(cap: nat)
    requires cap >= 1
    ensures StandsFor(STORED, [97])
    ensures var r := Inflate(DIST_TAKEN, StreamBits(STORED), [], cap); r.Ok? && r.out == [97]
  {
    hide StreamBits, Inflate, StandsFor, Stream;
    StoredStream();
    var none: seq<byte> := [];
    assert none + [97] == [97];
    assert IsStreamFor([StoredLetter()], STORED, [97]);
    Decodes(StoredLetter(), STORED, [97], cap);
  }

  // ---- what is refused ----

  /** Block type 3 is refused. */
  lemma {:induction false} ReservedRefused(most: nat, bits: seq<bool>, out: seq<byte>, cap: nat)
    requires |out| <= cap && |bits| >= 3 && bits[1] && bits[2]
    ensures Inflate(most, bits, out, cap) == DataErr
  {
    hide Tokens, ReadHeader, StoredBlock;
    var k := bits[1..3];
    assert k[0] && k[1] && k[1..][0] && k[1..][1..] == [];
    assert Val([]) == 0;
    assert Val(k[1..]) == 1;
    assert Val(k) == 3;
  }

  /** A copy from before the start of the output is refused. */
  lemma {:induction false} TooFarRefused(lit: seq<nat>, dist: seq<nat>, t: Token, rest: seq<bool>, out: seq<byte>,
                                         cap: nat)
    requires Acceptable(lit) && Acceptable(dist) && t.Copy? && t.Codable(lit, dist) && |out| <= cap
    requires t.Distance() > |out|
    ensures Tokens(lit, dist, t.Bits(lit, dist) + rest, out, cap) == DataErr
  {
    ReadTokenOf(lit, dist, t, rest);
    hide ReadToken, Token.Bits, Token.Distance, Acceptable;
  }

  /** The number in two bytes, as the decoder reads it. */
  lemma {:induction false} TwoBytes(s: seq<byte>)
    requires |s| >= 2
    ensures StreamBits(s) == BitsOf(s[0] as nat, 8) + (BitsOf(s[1] as nat, 8) + StreamBits(s[2..]))
    ensures Val(StreamBits(s)[..16]) == s[0] as int + 256 * s[1] as int
  {
    hide BitsOf, Val;
    assert s[1..][1..] == s[2..] && s[1..][0] == s[1];
    assert StreamBits(s[1..]) == BitsOf(s[1] as nat, 8) + StreamBits(s[2..]);
    var v := s[0] as int + 256 * s[1] as int;
    assert StreamBits(s)[..16] == BitsOf(s[0] as nat, 8) + BitsOf(s[1] as nat, 8);
    TwoOctets(s[0], s[1]);
    Val16(v);
  }

  lemma {:induction false} TwoOctets(a: byte, b: byte)
    ensures BitsOf(a as int + 256 * b as int, 16) == BitsOf(a as nat, 8) + BitsOf(b as nat, 8)
  {
    hide BitsOf;
    var v := a as int + 256 * b as int;
    Half(v);
    LowOctet(a, b);
    assert v / 256 == b as int;
  }

  lemma {:induction false} LowOctet(a: byte, b: byte)
    ensures BitsOf(a as int + 256 * b as int, 8) == BitsOf(a as nat, 8)
  {
    hide BitsOf;
    assert Pow2(8) == 256;
    BitsOfJoin(a as int, b, 8, 0);
    ShlIs(b);
    assert BitsOf(b as nat, 0) == [];
  }

  lemma ShlIs(b: nat)
    ensures Shl(b, 8) == 256 * b
  {
    ShlFour(b, 0);
    ShlFour(b, 4);
  }

  /** A stored block in bytes: two lengths that must be each other's complement and as many
      bytes, nothing else. */
  lemma {:induction false} StoredInBytes(most: nat, s: seq<byte>, cap: nat)
    requires |s| >= 5 && s[0] == 1
    ensures var r := Inflate(most, StreamBits(s), [], cap);
            var n, inv := s[1] as int + 256 * s[2] as int, s[3] as int + 256 * s[4] as int;
            if n + inv != 65535 || |s| < 5 + n then r == DataErr
            else if n > cap then r == BufErr
            else r.Ok? && r.out == s[5..5 + n]
  {
    hide StreamBits, StoredBody, Val, BitsOf;
    StoredHead(s);
    OctetsOfFew();
    var bits, b := StreamBits(s), StreamBits(s[1..]);
    assert bits == BitsOf(0x01, 8) + b;
    assert bits[1..3] == [false, false] && bits[3..][5..] == b && bits[0];
    ZeroVal();
    assert |bits[3..]| % 8 == 5;
    StoredFields(s[1..], cap);
  }

  lemma StoredHead(s: seq<byte>)
    requires |s| >= 1
    ensures StreamBits(s) == BitsOf(s[0] as nat, 8) + StreamBits(s[1..])
  {
  }

  lemma ZeroVal()
    ensures Val([false, false]) == 0
  {
    var one, two := [false], [false, false];
    assert one[1..] == [] && two[1..] == one;
    assert Val(one) == 0;
  }

  lemma {:induction false} StoredFields(t: seq<byte>, cap: nat)
    requires |t| >= 4
    ensures var r := StoredBody(StreamBits(t), [], cap);
            var n, inv := t[0] as int + 256 * t[1] as int, t[2] as int + 256 * t[3] as int;
            if n + inv != 65535 || |t| < 4 + n then r == DataErr
            else if n > cap then r == BufErr
            else r.Ok? && r.out == t[4..4 + n]
  {
    hide StreamBits, Val, BitsOf, BytesOf;
    TwoBytes(t);
    TwoBytes(t[2..]);
    var b := StreamBits(t);
    assert t[2..][2..] == t[4..];
    assert b[16..] == StreamBits(t[2..]) && b[16..32] == StreamBits(t[2..])[..16];
    assert b[32..] == StreamBits(t[4..]);
    var n := t[0] as int + 256 * t[1] as int;
    if |t| >= 4 + n {
      StreamBitsAppend(t[4..4 + n], t[4 + n..]);
      assert t[4..] == t[4..4 + n] + t[4 + n..];
      BytesOfStream(t[4..4 + n], StreamBits(t[4 + n..]));
      var none: seq<byte> := [];
      assert none + t[4..4 + n] == t[4..4 + n];
    }
  }
}
