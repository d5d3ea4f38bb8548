/** A stream of RFC 1951 that os/kernel/lard_inflate.c refuses: its header has 31
    distance codes. */
module ManyDistances {
  import opened Wrappers
  import opened BitOps
  import opened Huffman
  import opened Rfc1951
  import opened Decoder
  import Rfc1951Vectors

  /** The code length code has one bit for a length of 1 and one for the longest run of zeros. */
  function ClCode(): (cl: seq<nat>)
    ensures |cl| == 18 && forall i | 0 <= i < 18 :: cl[i] < 8
  {
    Copies(0, 2) + [1] + Copies(0, 14) + [1]
  }

  /** Symbols 0 and 256 have codes of one bit, and so have the first two of 31 distances. */
  function LitLens(): (lens: seq<nat>)
    ensures |lens| == 257
  {
    [1] + Copies(0, 255) + [1]
  }

  function DistLens(): (lens: seq<nat>)
    ensures |lens| == 31
  {
    [1] + [1] + Copies(0, 29)
  }

  const ITEMS: seq<Item> := [Length(1), ManyZeros(127), ManyZeros(106), Length(1), Length(1), Length(1), ManyZeros(18)]

  function WideHeader(): Header {
    Header(257, 31, ClCode(), ITEMS)
  }

  lemma {:induction false} ClZeros(cl: seq<nat>, n: nat)
    requires |cl| + n <= 19 && forall i | |cl| <= i < |cl| + n :: ClLens(cl)[CL_ORDER[i]] == 0
    ensures ClLens(cl + Copies(0, n)) == ClLens(cl)
  {
    hide CL_ORDER, ClLens;
    ClOrder();
    if n == 0 {
      assert cl + Copies(0, 0) == cl;
    } else {
      ClZeros(cl, n - 1);
      ClAppend(cl + Copies(0, n - 1), 0);
      assert cl + Copies(0, n) == cl + Copies(0, n - 1) + [0];
    }
  }

  lemma {:induction false} ClOrder()
    ensures |CL_ORDER| == 19 && forall i | 0 <= i < 19 :: CL_ORDER[i] < 19
  {
  }

  lemma {:induction false} ClAppend(cl: seq<nat>, v: nat)
    requires |cl| < 19
    ensures CL_ORDER[|cl|] < 19 && ClLens(cl + [v]) == ClLens(cl)[CL_ORDER[|cl|] := v]
  {
    hide CL_ORDER;
    ClOrder();
    assert (cl + [v])[..|cl|] == cl;
  }

  lemma ClCodeLens()
    ensures ClLens(ClCode()) == [0] + [1] + Copies(0, 16) + [1]
  {
    var a := Copies(0, 2);
    assert [] + a == a;
    ClZeros([], 2);
    ClAppend(a, 1);
    var b := a + [1];
    assert ClLens(b) == Copies(0, 19)[18 := 1];
    assert forall i | 3 <= i < 17 :: CL_ORDER[i] != 18;
    ClZeros(b, 14);
    ClAppend(b + Copies(0, 14), 1);
    assert CL_ORDER[17] == 1;
  }

  /** Two codes of one bit among unused symbols make a full code. */
  lemma TwoOnes(n: nat, m: nat, k: nat)
    requires n + m + k <= 286
    ensures var lens := Copies(0, n) + [1] + Copies(0, m) + [1] + Copies(0, k); Acceptable(lens) && NumUsed(lens) > 0
  {
    hide KraftSum, NumUsed;
    var a, b, c, one := Copies(0, n), Copies(0, m), Copies(0, k), Copies(1, 1);
    assert one == [1];
    KraftAppend(a + one + b + one, c);
    KraftAppend(a + one + b, one);
    KraftAppend(a + one, b);
    KraftAppend(a, one);
    KraftCopies(0, n);
    KraftCopies(0, m);
    KraftCopies(0, k);
    KraftCopies(1, 1);
    HalfShare();
    var lens := a + [1] + b + [1] + c;
    assert lens[n] == 1;
    AcceptableUse(lens);
  }

  lemma HalfShare()
    ensures Share(1) == 16384 && Share(0) == 0 && Pow2(MAX_BITS) == 32768
  {
    Shares();
    assert Pow2(15) == 2 * Pow2(14);
  }

  lemma LensAcceptable()
    ensures Acceptable(LitLens()) && Acceptable(DistLens())
    ensures Acceptable(ClLens(ClCode())) && NumUsed(ClLens(ClCode())) > 0
  {
    hide Acceptable, NumUsed, ClLens, ClCode;
    var none: seq<nat> := Copies(0, 0);
    var lit := none + [1] + Copies(0, 255) + [1] + none;
    assert lit == LitLens();
    TwoOnes(0, 255, 0);
    var dist := none + [1] + none + [1] + Copies(0, 29);
    assert dist == DistLens();
    TwoOnes(0, 0, 29);
    ClCodeLens();
    var cl := Copies(0, 1) + [1] + Copies(0, 16) + [1] + none;
    assert cl == ClLens(ClCode());
    TwoOnes(1, 16, 0);
  }

  lemma ItemsExpand()
    ensures ExpandItems(ITEMS, []) == Some(LitLens() + DistLens())
  {
    hide Copies;
    var acc := [1] + Copies(0, 138) + Copies(0, 117);
    var none: seq<nat> := [];
    assert ITEMS[0].Expand(none) == Some(none + [1]) && none + [1] == [1];
    assert ITEMS[1..] == [ManyZeros(127), ManyZeros(106), Length(1), Length(1), Length(1), ManyZeros(18)];
    assert ExpandItems(ITEMS, []) == ExpandItems(ITEMS[1..], [1]);
    assert ITEMS[1..][1..] == ITEMS[2..] && ITEMS[2..][1..] == ITEMS[3..];
    assert ExpandItems(ITEMS[1..], [1]) == ExpandItems(ITEMS[2..], [1] + Copies(0, 138));
    assert ExpandItems(ITEMS[2..], [1] + Copies(0, 138)) == ExpandItems(ITEMS[3..], acc);
    LastItems(acc);
    assert acc == [1] + Copies(0, 255);
    assert acc + [1] + [1] + [1] + Copies(0, 29) == LitLens() + DistLens();
  }

  lemma LastItems(acc: seq<nat>)
    ensures ExpandItems(ITEMS[3..], acc) == Some(acc + [1] + [1] + [1] + Copies(0, 29))
  {
    assert ITEMS[3..][1..] == ITEMS[4..] && ITEMS[4..][1..] == ITEMS[5..] && ITEMS[5..][1..] == ITEMS[6..]
           && ITEMS[6..][1..] == [];
    assert ExpandItems(ITEMS[6..], acc + [1] + [1] + [1]) == Some(acc + [1] + [1] + [1] + Copies(0, 29));
    assert ExpandItems(ITEMS[5..], acc + [1] + [1]) == ExpandItems(ITEMS[6..], acc + [1] + [1] + [1]);
    assert ExpandItems(ITEMS[4..], acc + [1]) == ExpandItems(ITEMS[5..], acc + [1] + [1]);
  }

  lemma WideHeaderOk()
    ensures var h := WideHeader(); h.Ok() && h.hdist == 31 && h.Lit() == LitLens() && h.Dist() == DistLens()
  {
    hide ExpandItems, Acceptable, NumUsed, ClLens;
    ItemsExpand();
    LensAcceptable();
    ClCodeLens();
    var lens := LitLens() + DistLens();
    assert lens[..257] == LitLens() && lens[257..] == DistLens();
  }

  /** One dynamic block that holds a zero byte. */
  function WideBlock(): Block {
    Dynamic(WideHeader(), [Literal(0)])
  }

  lemma WideBlockOk()
    ensures BlocksOk([WideBlock()]) && Aligned([WideBlock()], 0) && Meaning([WideBlock()], []) == Some([0])
    ensures !Takes(DIST_TAKEN, WideBlock())
  {
    hide Header.Ok, Header.Lit, Header.Dist, Acceptable;
    WideHeaderOk();
    var ts := [Literal(0)];
    assert ts[1..] == [];
    var none: seq<byte> := [];
    assert none + [0] == [0];
    assert ApplyTokens([], [0]) == Some([0]);
    assert ApplyTokens(ts, none) == ApplyTokens(ts[1..], [0]);
  }

  // ---- the stream, byte by byte ----

  const WIDE: seq<byte> := [0x05, 0xDE, 0x81, 0, 0, 0, 0, 0, 0x10, 0xFF, 0xD5, 0x28, 0x11]

  /** The first three bytes: the block's three bits, the counts and the code length of 18. */
  function WideHead(): seq<bool> {
    [true, false, true, false, false, false, false, false]
    + [false, true, true, true, true, false, true, true]
    + [true, false, false, false, false, false, false, true]
  }

  /** The last five: the code length of 1, the items, and the two tokens. */
  function WideTail(): seq<bool> {
    [true, false, false, false]
    + [true, true, true, true, true, true, true, true]
    + [true, false, true, false, true, false, true, true]
    + [false, false, false, true, false, true, false, false]
    + [true, false, false, false, true]
  }

  lemma {:induction false} ClBitsZeros(n: nat, rest: seq<nat>)
    ensures ClBits(Copies(0, n) + rest) == Copies(false, 3 * n) + ClBits(rest)
  {
    hide BitsOf;
    if n == 0 {
      assert Copies(0, 0) + rest == rest;
    } else {
      ClBitsZeros(n - 1, rest);
      ClBitsZero(Copies(0, n - 1) + rest);
      assert Copies(0, n) + rest == [0] + (Copies(0, n - 1) + rest);
      assert Copies(false, 3 * n) == Copies(false, 3) + Copies(false, 3 * (n - 1));
    }
  }

  lemma {:induction false} ClBitsZero(rest: seq<nat>)
    ensures ClBits([0] + rest) == Copies(false, 3) + ClBits(rest)
  {
    ZeroLength();
    hide BitsOf;
    assert ([0] + rest)[1..] == rest;
  }

  lemma ZeroLength()
    ensures BitsOf(0, 3) == Copies(false, 3)
    ensures BitsOf(1, 3) == [true, false, false]
  {
    assert BitsOf(0, 2) == [false, false];
  }

  lemma {:induction false} ClBitsOne(rest: seq<nat>)
    ensures ClBits([1] + rest) == [true, false, false] + ClBits(rest)
  {
    ZeroLength();
    hide BitsOf;
    assert ([1] + rest)[1..] == rest;
  }

  lemma {:induction false} WideClBits()
    ensures ClBits(ClCode()) ==
            [false, false, false, false, false, false, true, false, false] + Copies(false, 42) + [true, false, false]
  {
    hide ClBits;
    var last := [1];
    assert last + [] == last;
    ClBitsOne([]);
    assert ClBits([]) == [] by {
      NoClBits();
    }
    ClBitsZeros(14, last);
    ClBitsOne(Copies(0, 14) + last);
    ClBitsZeros(2, [1] + (Copies(0, 14) + last));
    assert ClCode() == Copies(0, 2) + ([1] + (Copies(0, 14) + last));
  }

  lemma NoClBits()
    ensures ClBits([]) == []
  {
  }

  lemma {:induction false} OneBitWord(lens: seq<nat>, s: nat)
    requires s < |lens| && lens[s] == 1
    ensures Used(lens, s) && (Cnt(lens[..s], 1) == 0 ==> CodeBits(lens, s) == [false])
    ensures Cnt(lens[..s], 1) == 1 ==> CodeBits(lens, s) == [true]
  {
    hide Cnt;
    assert MsbBits(0, 1) == [false] && MsbBits(1, 1) == [true];
  }

  lemma {:induction false} LitWords()
    ensures Used(LitLens(), 0) && Used(LitLens(), 256)
    ensures CodeBits(LitLens(), 0) == [false] && CodeBits(LitLens(), 256) == [true]
  {
    hide CodeBits;
    var lit := LitLens();
    OneThenZeros(255);
    assert lit[..0] == [] && lit[..256] == [1] + Copies<nat>(0, 255);
    CntZeros(lit[..0], 1);
    OneBitWord(lit, 0);
    OneBitWord(lit, 256);
  }

  /** The code lengths 1 and the long runs of zeros have words of one bit. */
  ghost predicate WideCode(cl: seq<nat>) {
    Used(cl, 1) && Used(cl, 18) && CodeBits(cl, 1) == [false] && CodeBits(cl, 18) == [true]
  }

  lemma {:induction false} ClWords(cl: seq<nat>)
    requires cl == [0] + [1] + Copies<nat>(0, 16) + [1]
    ensures WideCode(cl)
  {
    hide CodeBits, Cnt;
    var zero, ones := Copies<nat>(0, 1), [1] + Copies<nat>(0, 16);
    OneThenZeros(16);
    CntZeros(zero, 1);
    CntAppend(zero, ones, 1);
    assert cl[..1] == zero;
    assert cl[..18] == zero + ones;
    OneBitWord(cl, 1);
    OneBitWord(cl, 18);
  }

  lemma {:induction false} OneThenZeros(n: nat)
    ensures Cnt([1] + Copies<nat>(0, n), 1) == 1
  {
    CntAppend([1], Copies(0, n), 1);
    CntZeros(Copies(0, n), 1);
    assert [1][..0] == [];
  }

  lemma RunBits()
    ensures BitsOf(127, 7) == [true, true, true, true, true, true, true]
    ensures BitsOf(106, 7) == [false, true, false, true, false, true, true]
    ensures BitsOf(18, 7) == [false, true, false, false, true, false, false]
  {
    hide BitsOf;
    Rfc1951Vectors.Four(127);
    Rfc1951Vectors.Four(106);
    Rfc1951Vectors.Four(18);
    Rfc1951Vectors.Sixteenth(127);
    Rfc1951Vectors.Sixteenth(106);
    Rfc1951Vectors.Sixteenth(18);
    BitsOfSplit(127, 4, 3);
    BitsOfSplit(106, 4, 3);
    BitsOfSplit(18, 4, 3);
    Rfc1951Vectors.Three(7);
    Rfc1951Vectors.Three(6);
    Rfc1951Vectors.Three(1);
  }

  lemma {:induction false} LengthOne(cl: seq<nat>, rest: seq<Item>)
    requires WideCode(cl) && ItemsCodable(rest, cl)
    ensures ItemsCodable([Length(1)] + rest, cl)
    ensures ItemBits([Length(1)] + rest, cl) == [false] + ItemBits(rest, cl)
  {
    hide CodeBits;
    assert ([Length(1)] + rest)[1..] == rest;
  }

  lemma {:induction false} ZerosItem(cl: seq<nat>, e: nat, rest: seq<Item>)
    requires WideCode(cl) && ItemsCodable(rest, cl) && e < 128
    ensures ItemsCodable([ManyZeros(e)] + rest, cl)
    ensures ItemBits([ManyZeros(e)] + rest, cl) == [true] + BitsOf(e, 7) + ItemBits(rest, cl)
  {
    hide CodeBits, BitsOf;
    assert ([ManyZeros(e)] + rest)[1..] == rest;
  }

  lemma {:induction false} LastItemBits(cl: seq<nat>)
    requires WideCode(cl)
    ensures ItemsCodable(ITEMS[3..], cl)
    ensures ItemBits(ITEMS[3..], cl) ==
            [false, false, false, true, false, true, false, false, true, false, false]
  {
    RunBits();
    hide WideCode, BitsOf;
    assert ItemBits([], cl) == [];
    ZerosItem(cl, 18, []);
    hide ItemBits, ItemsCodable;
    var last := [ManyZeros(18)] + [];
    LengthOne(cl, last);
    LengthOne(cl, [Length(1)] + last);
    LengthOne(cl, [Length(1)] + ([Length(1)] + last));
    assert ITEMS[3..] == [Length(1)] + ([Length(1)] + ([Length(1)] + last));
  }

  lemma {:induction false} WideItemBits(cl: seq<nat>)
    requires WideCode(cl)
    ensures ItemsCodable(ITEMS, cl)
    ensures ItemBits(ITEMS, cl) ==
            [false,
             true, true, true, true, true, true, true, true,
             true, false, true, false, true, false, true, true]
            + ItemBits(ITEMS[3..], cl)
  {
    hide WideCode, BitsOf, ItemBits, ItemsCodable;
    RunBits();
    LastItemBits(cl);
    ZerosItem(cl, 106, ITEMS[3..]);
    ZerosItem(cl, 127, [ManyZeros(106)] + ITEMS[3..]);
    LengthOne(cl, [ManyZeros(127)] + ([ManyZeros(106)] + ITEMS[3..]));
    assert ITEMS == [Length(1)] + ([ManyZeros(127)] + ([ManyZeros(106)] + ITEMS[3..]));
  }

  lemma {:induction false} WideTokens()
    ensures TokensCodable([Literal(0)], LitLens(), DistLens()) && Used(LitLens(), 256)
    ensures TokenBits([Literal(0)], LitLens(), DistLens()) == [false, true]
  {
    hide CodeBits, LitLens, DistLens;
    LitWords();
    assert [Literal(0)][1..] == [];
  }

  lemma CountBits()
    ensures BitsOf(2, 2) == [false, true]
    ensures BitsOf(0, 5) == [false, false, false, false, false]
    ensures BitsOf(30, 5) == [false, true, true, true, true]
    ensures BitsOf(14, 4) == [false, true, true, true]
  {
    hide BitsOf;
    Rfc1951Vectors.Two(2);
    Rfc1951Vectors.BitFirst(0, 5);
    Rfc1951Vectors.Four(0);
    Rfc1951Vectors.BitFirst(30, 5);
    Rfc1951Vectors.Four(15);
    Rfc1951Vectors.Four(14);
  }

  lemma {:induction false} Regroup<T>(a: seq<T>, b: seq<T>, c: seq<T>, d: seq<T>, e: seq<T>, f: seq<T>, z: seq<T>,
                                      g: seq<T>, i: seq<T>, t: seq<T>)
    ensures a + (b + ((c + (d + (e + ((f + z + g) + i)))) + t)) == (a + b + c + d + e + f) + z + (g + i + t)
  {
  }

  lemma {:induction false} HeadPieces()
    ensures [true] + [false, true] + [false, false, false, false, false] + [false, true, true, true, true]
            + [false, true, true, true] + [false, false, false, false, false, false, true, false, false] ==
            WideHead() + Copies(false, 2)
  {
  }

  lemma {:induction false} TailPieces(last: seq<bool>)
    requires last == [false, false, false, true, false, true, false, false, true, false, false]
    ensures [true, false, false]
            + ([false, true, true, true, true, true, true, true, true,
                true, false, true, false, true, false, true, true] + last)
            + [false, true] == WideTail()
  {
  }

  lemma {:induction false} WideStreamBits()
    ensures BlocksOk([WideBlock()])
    ensures Stream([WideBlock()]) == WideHead() + Copies(false, 44) + WideTail()
  {
    hide Header.Ok, Header.Bits, BitsOf, TokenBits, TokensCodable, WideHead, WideTail, ItemBits, Copies;
    WideHeaderOk();
    WideTokens();
    CountBits();
    WideHeaderBits();
    WideClBits();
    var items := ItemBits(ITEMS, ClLens(ClCode()));
    TailPieces(ItemBits(ITEMS[3..], ClLens(ClCode())));
    HeadPieces();
    Regroup([true], BitsOf(2, 2), BitsOf(0, 5), BitsOf(30, 5), BitsOf(14, 4),
            [false, false, false, false, false, false, true, false, false], Copies(false, 42), [true, false, false],
            items, [false, true]);
    MoreZeros(WideHead());
  }

  lemma MoreZeros(h: seq<bool>)
    ensures h + Copies(false, 2) + Copies(false, 42) == h + Copies(false, 44)
  {
  }

  /** The header's fields in the order of section 3.2.7. */
  lemma {:induction false} WideHeaderBits()
    ensures WideHeader().Ok() && ItemsCodable(ITEMS, ClLens(ClCode()))
    ensures ItemsCodable(ITEMS[3..], ClLens(ClCode()))
    ensures WideHeader().Bits() ==
            BitsOf(0, 5) + (BitsOf(30, 5) + (BitsOf(14, 4) + (ClBits(ClCode()) + ItemBits(ITEMS, ClLens(ClCode())))))
    ensures ItemBits(ITEMS, ClLens(ClCode())) ==
            [false, true, true, true, true, true, true, true, true,
             true, false, true, false, true, false, true, true] + ItemBits(ITEMS[3..], ClLens(ClCode()))
    ensures ItemBits(ITEMS[3..], ClLens(ClCode())) ==
            [false, false, false, true, false, true, false, false, true, false, false]
  {
    hide Header.Ok, ClLens, ClCode, BitsOf, ClBits, ItemBits, ItemsCodable, WideCode;
    WideHeaderOk();
    ClCodeLens();
    var cl := ClLens(ClCode());
    ClWords(cl);
    WideItemBits(cl);
    LastItemBits(cl);
  }

  lemma {:induction false} HeadOctets()
    ensures BitsOf(0x05, 8) + BitsOf(0xDE, 8) + BitsOf(0x81, 8) == WideHead()
    ensures BitsOf(0, 8) == Copies(false, 8)
  {
    hide BitsOf;
    Rfc1951Vectors.Octet(0x05);
    Rfc1951Vectors.Octet(0xDE);
    Rfc1951Vectors.Octet(0x81);
    Rfc1951Vectors.Octet(0);
  }

  lemma {:induction false} TailOctets()
    ensures BitsOf(0x10, 8) == Copies(false, 4) + [true, false, false, false]
    ensures BitsOf(0xFF, 8) == [true, true, true, true, true, true, true, true]
    ensures BitsOf(0xD5, 8) == [true, false, true, false, true, false, true, true]
    ensures BitsOf(0x28, 8) == [false, false, false, true, false, true, false, false]
    ensures BitsOf(0x11, 8) == [true, false, false, false, true] + Copies(false, 3)
  {
    hide BitsOf;
    Rfc1951Vectors.Octet(0x10);
    Rfc1951Vectors.Octet(0xFF);
    Rfc1951Vectors.Octet(0xD5);
    Rfc1951Vectors.Octet(0x28);
    Rfc1951Vectors.Octet(0x11);
  }

  lemma {:induction false} WideEnd()
    ensures StreamBits([0x10, 0xFF, 0xD5, 0x28, 0x11]) == Copies(false, 4) + WideTail() + Copies(false, 3)
  {
    hide StreamBits, BitsOf;
    TailOctets();
    Rfc1951Vectors.StreamOfOne(0x10);
    Rfc1951Vectors.StreamOfThree(0xFF, 0xD5, 0x28);
    Rfc1951Vectors.StreamOfOne(0x11);
    StreamBitsAppend([0xFF, 0xD5, 0x28], [0x11]);
    StreamBitsAppend([0x10], [0xFF, 0xD5, 0x28] + [0x11]);
    assert [0x10] + ([0xFF, 0xD5, 0x28] + [0x11]) == [0x10, 0xFF, 0xD5, 0x28, 0x11];
    RegroupEnd(Copies(false, 4), [true, false, false, false], BitsOf(0xFF, 8), BitsOf(0xD5, 8), BitsOf(0x28, 8),
               [true, false, false, false, true], Copies(false, 3));
  }

  lemma {:induction false} RegroupEnd<T>(z: seq<T>, a: seq<T>, b: seq<T>, c: seq<T>, d: seq<T>, e: seq<T>, y: seq<T>)
    ensures z + a + ((b + c + d) + (e + y)) == z + (a + b + c + d + e) + y
  {
  }

  lemma {:induction false} WideBytes()
    ensures StreamBits(WIDE) == WideHead() + Copies(false, 44) + WideTail() + Copies(false, 3)
  {
    hide StreamBits, BitsOf, WideHead, WideTail;
    HeadOctets();
    WideEnd();
    Rfc1951Vectors.StreamOfThree(0x05, 0xDE, 0x81);
    Rfc1951Vectors.StreamOfThree(0, 0, 0);
    Rfc1951Vectors.StreamOfOne(0);
    StreamBitsAppend([0], [0]);
    StreamBitsAppend([0, 0, 0], [0] + [0]);
    StreamBitsAppend([0x05, 0xDE, 0x81], [0, 0, 0] + ([0] + [0]));
    StreamBitsAppend([0x05, 0xDE, 0x81] + ([0, 0, 0] + ([0] + [0])), [0x10, 0xFF, 0xD5, 0x28, 0x11]);
    assert WIDE == [0x05, 0xDE, 0x81] + ([0, 0, 0] + ([0] + [0])) + [0x10, 0xFF, 0xD5, 0x28, 0x11];
    FiveOctets(WideHead(), WideTail());
  }

  lemma {:induction false} FiveOctets(h: seq<bool>, t: seq<bool>)
    ensures var z := Copies(false, 8);
            (h + ((z + z + z) + (z + z))) + (Copies(false, 4) + t + Copies(false, 3)) ==
            h + Copies(false, 44) + t + Copies(false, 3)
  {
    var z := Copies(false, 8);
    var five := (z + z + z) + (z + z);
    assert five + Copies(false, 4) == Copies(false, 44);
    hide Copies;
    assert (h + five) + (Copies(false, 4) + t + Copies(false, 3)) ==
           h + (five + Copies(false, 4)) + t + Copies(false, 3);
  }

  /** These thirteen bytes stand for a zero byte, and a decoder that takes 32 distance
      codes decodes them; this one refuses them. */
  lemma {:induction false} WideStreamRefused(cap: nat)
    requires cap >= 1
    ensures StandsFor(WIDE, [0]) && Inflate(DIST_TAKEN, StreamBits(WIDE), [], cap) == DataErr
    ensures var r := Inflate(MAX_DIST, StreamBits(WIDE), [], cap); r.Ok? && r.out == [0]
  {
    hide BlocksOk, Aligned, Meaning, Stream, StreamBits, Inflate, Takes, Before, WideHead, WideTail, Copies;
    WideBlockOk();
    WideStreamBits();
    WideBytes();
    var bs := [WideBlock()];
    assert IsStreamFor(bs, WIDE, [0]);
    OnStream(DIST_TAKEN, bs, WIDE, [0], cap);
    NothingBefore(bs);
    TakesEvery(bs);
    OnStream(MAX_DIST, bs, WIDE, [0], cap);
  }

  lemma NothingBefore(bs: seq<Block>)
    requires BlocksOk(bs) && Meaning(bs, []).Some? && !Takes(DIST_TAKEN, bs[0])
    ensures Before(DIST_TAKEN, bs, []) == [] && !TakesAll(DIST_TAKEN, bs)
  {
    hide Block.Ok, Block.Apply;
  }

  /** A header with up to 30 distance codes is taken, and none with more. */
  lemma ThirtyTaken(blk: Block)
    ensures Takes(DIST_TAKEN, blk) <==> (blk.Dynamic? ==> blk.header.hdist <= 30)
  {
  }
}
