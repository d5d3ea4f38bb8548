/** What the symbols of RFC 1951 stand for, without its tables: each length and each
    distance in closed form and as the value of exactly one symbol with its extra
    bits, the order of the code length code, the runs of code lengths, and the code
    words of the fixed codes. */
module Rfc1951Symbols {
  import opened Wrappers
  import opened BitOps
  import opened Huffman
  import opened Rfc1951
  import HuffTables

  // ---- lengths ----

  /** The powers of two that the tables need. */
  lemma SmallPowers()
    ensures Pow2(0) == 1 && Pow2(1) == 2 && Pow2(2) == 4 && Pow2(3) == 8 && Pow2(4) == 16 && Pow2(5) == 32
    ensures Pow2(6) == 64 && Pow2(7) == 128 && Pow2(8) == 256 && Pow2(9) == 512 && Pow2(10) == 1024
    ensures Pow2(11) == 2048 && Pow2(12) == 4096 && Pow2(13) == 8192
  {
    assert Pow2(4) == 16 && Pow2(8) == 256 && Pow2(12) == 4096;
  }

  /** Four length symbols share a number of extra bits. */
  lemma {:induction false} LengthGroup(g: nat, r: nat)
    requires 1 <= g <= 5 && r < 4
    ensures LEN_BASE[4 + 4 * g + r] == 3 + (4 + r) * Pow2(g) && LEN_BITS[4 + 4 * g + r] == g
  {
    SmallPowers();
    hide Pow2;
    var i := 4 + 4 * g + r;
    if g == 1 {
      assert LEN_BASE[8] == 11 && LEN_BASE[9] == 13 && LEN_BASE[10] == 15 && LEN_BASE[11] == 17;
    } else if g == 2 {
      assert LEN_BASE[12] == 19 && LEN_BASE[13] == 23 && LEN_BASE[14] == 27 && LEN_BASE[15] == 31;
    } else if g == 3 {
      assert LEN_BASE[16] == 35 && LEN_BASE[17] == 43 && LEN_BASE[18] == 51 && LEN_BASE[19] == 59;
    } else if g == 4 {
      assert LEN_BASE[20] == 67 && LEN_BASE[21] == 83 && LEN_BASE[22] == 99 && LEN_BASE[23] == 115;
    } else {
      assert LEN_BASE[24] == 131 && LEN_BASE[25] == 163 && LEN_BASE[26] == 195 && LEN_BASE[27] == 227;
    }
  }

  /** The first eight length symbols have no extra bits. */
  lemma ShortLengths(s: nat)
    requires 257 <= s < 265
    ensures LEN_BASE[s - 257] == s - 254 && LEN_BITS[s - 257] == 0
  {
  }

  /** Section 3.2.5: the number of extra bits of every length symbol. */
  lemma LengthBits(s: nat)
    requires 257 <= s <= 285
    ensures LenBits(s) == if s < 265 || s == 285 then 0 else (s - 261) / 4
  {
    hide Pow2;
    if s < 265 {
      ShortLengths(s);
    } else if s < 285 {
      LengthGroup((s - 261) / 4, (s - 261) % 4);
    }
  }

  /** Section 3.2.5: the length of every copy. */
  lemma LengthOfSymbol(t: Token)
    requires t.Copy? && t.InRange()
    ensures t.Length() == t.lextra +
                          if t.lsym < 265 then t.lsym - 254
                          else if t.lsym == 285 then 258
                          else 3 + (4 + (t.lsym - 261) % 4) * Pow2((t.lsym - 261) / 4)
  {
    hide Pow2, DistBits;
    var s := t.lsym;
    if s < 265 {
      ShortLengths(s);
    } else if s < 285 {
      LengthGroup((s - 261) / 4, (s - 261) % 4);
    }
  }

  /** Symbol s below 285 with extra bits e stands for length n. */
  predicate IsLength(s: nat, e: nat, n: nat) {
    257 <= s < 285 && var t := Copy(s, e, 0, 0); t.InRange() && t.Length() == n
  }

  /** The smallest length of symbol s. */
  function LengthBase(s: nat): nat
    requires 257 <= s < 285
  {
    LEN_BASE[s - 257]
  }

  lemma ShortBase(s: nat)
    requires 257 <= s < 265
    ensures LengthBase(s) == s - 254 && LenBits(s) == 0
  {
    ShortLengths(s);
  }

  lemma {:induction false} LongBase(g: nat, r: nat)
    requires 1 <= g <= 5 && r < 4
    ensures LengthBase(261 + 4 * g + r) == 3 + (4 + r) * Pow2(g) && LenBits(261 + 4 * g + r) == g
  {
    hide Pow2;
    LengthGroup(g, r);
  }

  /** One symbol's lengths end where those of the next begin. */
  lemma {:induction false} NextLength(s: nat)
    requires 257 <= s < 284
    ensures LengthBase(s + 1) == LengthBase(s) + Pow2(LenBits(s))
  {
    hide LenBits, LengthBase, Pow2;
    if s < 265 {
      NextShortLength(s);
    } else {
      var g, r := (s - 261) / 4, (s - 261) % 4;
      assert s == 261 + 4 * g + r;
      LongBase(g, r);
      NextInGroup(Pow2(g), r);
      if r < 3 {
        LongBase(g, r + 1);
      } else {
        NextPower(g);
        LongBase(g + 1, 0);
      }
    }
  }

  lemma NextShortLength(s: nat)
    requires 257 <= s < 265
    ensures LengthBase(s + 1) == LengthBase(s) + Pow2(LenBits(s))
  {
    ShortBase(s);
    hide LengthBase, LenBits;
    if s < 264 {
      ShortBase(s + 1);
    } else {
      LongBase(1, 0);
    }
  }

  lemma NextPower(g: nat)
    ensures Pow2(g + 1) == 2 * Pow2(g)
  {
  }

  lemma NextInGroup(p: nat, r: nat)
    ensures 3 + (5 + r) * p == 3 + (4 + r) * p + p && 4 * (2 * p) == 7 * p + p
  {
  }

  lemma {:induction false} LengthsApart(s: nat, u: nat)
    requires 257 <= s < u < 285
    ensures LengthBase(s) + Pow2(LenBits(s)) <= LengthBase(u)
    decreases u
  {
    hide LengthBase, LenBits, Pow2;
    NextLength(u - 1);
    if s < u - 1 {
      LengthsApart(s, u - 1);
    }
  }

  /** A later length symbol stands for longer copies, whatever the extra bits. */
  lemma {:induction false} LengthsGrow(a: Token, b: Token)
    requires a.Copy? && b.Copy? && a.InRange() && b.InRange() && a.lsym < b.lsym < 285
    ensures a.Length() < b.Length()
  {
    hide LenBits, Pow2, DistBits;
    LengthsApart(a.lsym, b.lsym);
  }

  lemma LengthFound(s: nat, e: nat)
    requires 257 <= s < 285 && e < Pow2(LenBits(s))
    ensures IsLength(s, e, LengthBase(s) + e)
  {
    hide LenBits;
  }

  /** Searches the symbols up to s for length n. */
  lemma {:induction false} FindLength(n: nat, s: nat) returns (u: nat, e: nat)
    requires 257 <= s < 285 && 3 <= n < LengthBase(s) + Pow2(LenBits(s))
    ensures IsLength(u, e, n)
  {
    ShortBase(257);
    hide Pow2, LenBits, LengthBase;
    if n >= LengthBase(s) {
      u, e := s, n - LengthBase(s);
      LengthFound(s, e);
    } else {
      assert s > 257;
      NextLength(s - 1);
      u, e := FindLength(n, s - 1);
    }
  }

  lemma {:induction false} NotTwoLengths(s: nat, e: nat, u: nat, x: nat, n: nat)
    requires s < u && IsLength(s, e, n)
    ensures !IsLength(u, x, n)
  {
    hide Pow2, LenBits, DistBits;
    if IsLength(u, x, n) {
      LengthsGrow(Copy(s, e, 0, 0), Copy(u, x, 0, 0));
    }
  }

  lemma {:induction false} OneLength(s: nat, e: nat, x: nat, n: nat)
    requires IsLength(s, e, n) && IsLength(s, x, n)
    ensures e == x
  {
    hide Pow2, LenBits, DistBits;
  }

  lemma LongLengths(n: nat)
    requires n <= 258
    ensures n < LengthBase(284) + Pow2(LenBits(284))
    ensures Copy(285, 0, 0, 0).InRange() && Copy(285, 0, 0, 0).Length() == 258
  {
    LengthBits(284);
    LengthBits(285);
    DistanceBits(0);
    SmallPowers();
  }

  /** Every length from 3 to 258 is that of exactly one symbol below 285 with exactly
      one value of its extra bits; 258 is that of symbol 285 as well. */
  lemma {:induction false} EveryLength(n: nat) returns (s: nat, e: nat)
    requires 3 <= n <= 258
    ensures IsLength(s, e, n) && forall u: nat, x: nat | IsLength(u, x, n) :: u == s && x == e
    ensures Copy(285, 0, 0, 0).InRange() && Copy(285, 0, 0, 0).Length() == 258
  {
    LongLengths(n);
    hide Pow2, IsLength, LengthBase, LenBits;
    s, e := FindLength(n, 284);
    forall u: nat, x: nat | IsLength(u, x, n)
      ensures u == s && x == e
    {
      if u < s {
        NotTwoLengths(u, x, s, e, n);
      } else if s < u {
        NotTwoLengths(s, e, u, x, n);
      } else {
        OneLength(s, e, x, n);
      }
    }
  }

  // ---- distances ----

  /** Two distance symbols share a number of extra bits. */
  lemma {:induction false} DistanceGroup(g: nat, r: nat)
    requires g <= 13 && r < 2
    ensures DIST_BASE[2 * g + 2 + r] == 1 + (2 + r) * Pow2(g) && DIST_BITS[2 * g + 2 + r] == g
  {
    if g < 4 {
      LowDistances(g, r);
    } else if g < 9 {
      MiddleDistances(g, r);
    } else {
      HighDistances(g, r);
    }
  }

  lemma {:induction false} LowDistances(g: nat, r: nat)
    requires g < 4 && r < 2
    ensures DIST_BASE[2 * g + 2 + r] == 1 + (2 + r) * Pow2(g) && DIST_BITS[2 * g + 2 + r] == g
  {
    SmallPowers();
    hide Pow2;
    if g == 0 {
      assert DIST_BASE[2] == 3 && DIST_BASE[3] == 4;
    } else if g == 1 {
      assert DIST_BASE[4] == 5 && DIST_BASE[5] == 7;
    } else if g == 2 {
      assert DIST_BASE[6] == 9 && DIST_BASE[7] == 13;
    } else {
      assert DIST_BASE[8] == 17 && DIST_BASE[9] == 25;
    }
  }

  lemma {:induction false} MiddleDistances(g: nat, r: nat)
    requires 4 <= g < 9 && r < 2
    ensures DIST_BASE[2 * g + 2 + r] == 1 + (2 + r) * Pow2(g) && DIST_BITS[2 * g + 2 + r] == g
  {
    SmallPowers();
    hide Pow2;
    if g == 4 {
      assert DIST_BASE[10] == 33 && DIST_BASE[11] == 49;
    } else if g == 5 {
      assert DIST_BASE[12] == 65 && DIST_BASE[13] == 97;
    } else if g == 6 {
      assert DIST_BASE[14] == 129 && DIST_BASE[15] == 193;
    } else if g == 7 {
      assert DIST_BASE[16] == 257 && DIST_BASE[17] == 385;
    } else {
      assert DIST_BASE[18] == 513 && DIST_BASE[19] == 769;
    }
  }

  lemma {:induction false} HighDistances(g: nat, r: nat)
    requires 9 <= g <= 13 && r < 2
    ensures DIST_BASE[2 * g + 2 + r] == 1 + (2 + r) * Pow2(g) && DIST_BITS[2 * g + 2 + r] == g
  {
    SmallPowers();
    hide Pow2;
    if g == 9 {
      assert DIST_BASE[20] == 1025 && DIST_BASE[21] == 1537;
    } else if g == 10 {
      assert DIST_BASE[22] == 2049 && DIST_BASE[23] == 3073;
    } else if g == 11 {
      assert DIST_BASE[24] == 4097 && DIST_BASE[25] == 6145;
    } else if g == 12 {
      assert DIST_BASE[26] == 8193 && DIST_BASE[27] == 12289;
    } else {
      assert DIST_BASE[28] == 16385 && DIST_BASE[29] == 24577;
    }
  }

  /** Section 3.2.5: the number of extra bits of every distance symbol. */
  lemma DistanceBits(s: nat)
    requires s < 30
    ensures DistBits(s) == if s < 2 then 0 else s / 2 - 1
  {
    hide Pow2;
    if s >= 2 {
      DistanceGroup(s / 2 - 1, s % 2);
    }
  }

  /** Section 3.2.5: the distance of every copy. */
  lemma DistanceOfSymbol(t: Token)
    requires t.Copy? && t.InRange()
    ensures t.Distance() == t.dextra +
                            if t.dsym < 2 then t.dsym + 1 else 1 + (2 + t.dsym % 2) * Pow2(t.dsym / 2 - 1)
  {
    hide Pow2, LenBits;
    if t.dsym >= 2 {
      DistanceGroup(t.dsym / 2 - 1, t.dsym % 2);
    }
  }

  /** Distance symbol s with extra bits e stands for distance n. */
  predicate IsDistance(s: nat, e: nat, n: nat) {
    var t := Copy(257, 0, s, e); t.InRange() && t.Distance() == n
  }

  /** The smallest distance of symbol s. */
  function DistanceBase(s: nat): nat
    requires s < 30
  {
    DIST_BASE[s]
  }

  lemma {:induction false} FarBase(g: nat, r: nat)
    requires g <= 13 && r < 2
    ensures DistanceBase(2 * g + 2 + r) == 1 + (2 + r) * Pow2(g) && DistBits(2 * g + 2 + r) == g
  {
    hide Pow2;
    DistanceGroup(g, r);
  }

  lemma {:induction false} NextDistance(s: nat)
    requires s < 29
    ensures DistanceBase(s + 1) == DistanceBase(s) + Pow2(DistBits(s))
  {
    hide Pow2, DistBits, DistanceBase;
    if s < 2 {
      NextNearDistance(s);
    } else {
      var g, r := s / 2 - 1, s % 2;
      assert s == 2 * g + 2 + r;
      FarBase(g, r);
      if r == 0 {
        FarBase(g, 1);
      } else {
        NextPower(g);
        FarBase(g + 1, 0);
      }
    }
  }

  lemma NextNearDistance(s: nat)
    requires s < 2
    ensures DistanceBase(s + 1) == DistanceBase(s) + Pow2(DistBits(s))
  {
  }

  lemma FirstDistances()
    ensures DistanceBase(0) == 1
  {
  }

  lemma {:induction false} DistancesApart(s: nat, u: nat)
    requires s < u < 30
    ensures DistanceBase(s) + Pow2(DistBits(s)) <= DistanceBase(u)
    decreases u
  {
    hide DistanceBase, DistBits, Pow2;
    NextDistance(u - 1);
    if s < u - 1 {
      DistancesApart(s, u - 1);
    }
  }

  /** A later distance symbol stands for greater distances, whatever the extra bits. */
  lemma {:induction false} DistancesGrow(a: Token, b: Token)
    requires a.Copy? && b.Copy? && a.InRange() && b.InRange() && a.dsym < b.dsym
    ensures a.Distance() < b.Distance()
  {
    hide LenBits, Pow2, DistBits;
    DistancesApart(a.dsym, b.dsym);
  }

  lemma DistanceFound(s: nat, e: nat)
    requires s < 30 && e < Pow2(DistBits(s))
    ensures IsDistance(s, e, DistanceBase(s) + e)
  {
    hide DistBits;
    LengthBits(257);
  }

  lemma {:induction false} FindDistance(n: nat, s: nat) returns (u: nat, e: nat)
    requires s < 30 && 1 <= n < DistanceBase(s) + Pow2(DistBits(s))
    ensures IsDistance(u, e, n)
  {
    hide Pow2, DistBits, DistanceBase;
    FirstDistances();
    if n >= DistanceBase(s) {
      u, e := s, n - DistanceBase(s);
      DistanceFound(s, e);
    } else {
      assert s > 0;
      NextDistance(s - 1);
      u, e := FindDistance(n, s - 1);
    }
  }

  lemma {:induction false} NotTwoDistances(s: nat, e: nat, u: nat, x: nat, n: nat)
    requires s < u && IsDistance(s, e, n)
    ensures !IsDistance(u, x, n)
  {
    hide Pow2, LenBits, DistBits;
    if IsDistance(u, x, n) {
      DistancesGrow(Copy(257, 0, s, e), Copy(257, 0, u, x));
    }
  }

  lemma {:induction false} OneDistance(s: nat, e: nat, x: nat, n: nat)
    requires IsDistance(s, e, n) && IsDistance(s, x, n)
    ensures e == x
  {
    hide Pow2, LenBits, DistBits;
  }

  /** Every distance from 1 to 32768 is that of exactly one symbol with exactly one
      value of its extra bits. */
  lemma {:induction false} EveryDistance(n: nat) returns (s: nat, e: nat)
    requires 1 <= n <= 32768
    ensures IsDistance(s, e, n) && forall u: nat, x: nat | IsDistance(u, x, n) :: u == s && x == e
  {
    FarBase(13, 1);
    SmallPowers();
    hide Pow2, DistBits, DistanceBase, IsDistance;
    s, e := FindDistance(n, 29);
    forall u: nat, x: nat | IsDistance(u, x, n)
      ensures u == s && x == e
    {
      if u < s {
        NotTwoDistances(u, x, s, e, n);
      } else if s < u {
        NotTwoDistances(s, e, u, x, n);
      } else {
        OneDistance(s, e, x, n);
      }
    }
  }

  // ---- the code length code ----

  /** Whose code length is sent at place i of a header. */
  function SentAt(i: nat): nat
    requires i < 19
  {
    if i < 3 then 16 + i
    else if i == 3 then 0
    else if i % 2 == 0 then 8 + (i - 4) / 2
    else 8 - (i - 3) / 2
  }

  lemma ClOrderIs(i: nat)
    requires i < 19
    ensures CL_ORDER[i] == SentAt(i) < 19
  {
    if i < 10 {
      ClOrderBelow(i);
    } else {
      ClOrderFrom(i);
    }
  }

  lemma ClOrderBelow(i: nat)
    requires i < 10
    ensures CL_ORDER[i] == SentAt(i) < 19
  {
  }

  lemma ClOrderFrom(i: nat)
    requires 10 <= i < 19
    ensures CL_ORDER[i] == SentAt(i) < 19
  {
  }

  lemma SentOnce(i: nat, j: nat)
    requires i < j < 19
    ensures SentAt(i) != SentAt(j)
  {
  }

  /** Section 3.2.7: lengths are sent for symbols 16, 17, 18, 0 and then alternately from
      8 up and from 7 down; symbols that are left out have none. */
  lemma {:induction false} ClLensSent(cl: seq<nat>, i: nat)
    requires |cl| <= 19 && i < 19
    ensures SentAt(i) < 19 && ClLens(cl)[SentAt(i)] == if i < |cl| then cl[i] else 0
  {
    hide CL_ORDER, SentAt;
    ClOrderIs(i);
    if cl != [] {
      var m := |cl| - 1;
      ClOrderIs(m);
      ClLensSent(cl[..m], i);
      if i < m {
        SentOnce(i, m);
      } else if m < i {
        SentOnce(m, i);
      }
    }
  }

  /** Section 3.2.7: a run of 3 to 6 repetitions of the last code length is symbol 16
      with the number beyond 3 in two bits. */
  lemma {:induction false} RepeatRun(acc: seq<nat>, cl: seq<nat>, n: nat) returns (item: Item)
    requires acc != [] && 3 <= n <= 6 && Used(cl, 16)
    ensures item.InRange() && item.Sym() == 16 && item.Bits(cl) == CodeBits(cl, 16) + BitsOf(n - 3, 2)
    ensures item.Expand(acc) == Some(acc + Copies(acc[|acc| - 1], n))
  {
    hide CodeBits;
    item := Again(n - 3);
  }

  /** A run of 3 to 10 zeros is symbol 17 with the number beyond 3 in three bits, and one
      of 11 to 138 is symbol 18 with the number beyond 11 in seven. */
  lemma {:induction false} ZeroRun(acc: seq<nat>, cl: seq<nat>, n: nat) returns (item: Item)
    requires 3 <= n <= 138 && Used(cl, 17) && Used(cl, 18)
    ensures item.InRange() && item.Sym() == (if n < 11 then 17 else 18)
    ensures item.Bits(cl) == if n < 11 then CodeBits(cl, 17) + BitsOf(n - 3, 3)
                             else CodeBits(cl, 18) + BitsOf(n - 11, 7)
    ensures item.Expand(acc) == Some(acc + Copies(0, n))
  {
    hide CodeBits;
    item := if n < 11 then Zeros(n - 3) else ManyZeros(n - 11);
  }

  /** Any other item is a code length of at most 15 that stands for itself, and nothing
      is a longer run. */
  lemma {:induction false} OtherItems(item: Item, acc: seq<nat>)
    requires item.InRange()
    ensures item.Sym() < 16 ==> item.Expand(acc) == Some(acc + [item.Sym()])
    ensures item.Sym() <= 18 && (item.Sym() == 16 && acc == [] <==> item.Expand(acc).None?)
    ensures item.Expand(acc).Some? ==>
              var n := |item.Expand(acc).value| - |acc|;
              && (item.Sym() == 16 ==> 3 <= n <= 6)
              && (item.Sym() == 17 ==> 3 <= n <= 10)
              && (item.Sym() == 18 ==> 11 <= n <= 138)
  {
  }

  // ---- code words ----

  /** Section 3.2.2: shorter code words come before longer ones, and among words of
      one length those of smaller symbols come first. */
  lemma {:induction false} CanonicalOrder(lens: seq<nat>, s: nat, t: nat)
    requires Complete(lens) && Used(lens, s) && Used(lens, t)
    requires lens[s] < lens[t] || (lens[s] == lens[t] && s < t)
    ensures MsbVal(CodeBits(lens, s)) < MsbVal(CodeBits(lens, t)[..lens[s]])
  {
    hide First, MsbVal, CodeBits, KraftSum;
    var l, b := lens[s], CodeBits(lens, t);
    CodeFits(lens, s);
    CodeFits(lens, t);
    RankBound(lens, s);
    if l == lens[t] {
      RankMonotone(lens, s, t);
      assert b[..l] == b;
    } else if MsbVal(b[..l]) < First(lens, l) + Cnt(lens, l) {
      FirstGrows(lens, b, l);
    }
  }

  lemma FixedFirst()
    ensures First(FixedLit(), 7) == 0 && First(FixedLit(), 8) == 48 && First(FixedLit(), 9) == 400
    ensures First(FixedDist(), 5) == 0
  {
    var e, d := FixedLit(), FixedDist();
    forall l
      ensures Cnt(e, l) == if l == 7 then 24 else if l == 8 then 152 else if l == 9 then 112 else 0
      ensures Cnt(d, l) == if l == 5 then 32 else 0
    {
      HuffTables.FixedCounts(l);
    }
    hide Cnt;
    EmptyLevels(e, 7);
    EmptyLevels(d, 5);
  }

  lemma {:induction false} EmptyLevels(e: seq<nat>, l: nat)
    requires l >= 1 && forall k | 1 <= k < l :: Cnt(e, k) == 0
    ensures First(e, l) == 0
  {
    if l > 1 {
      EmptyLevels(e, l - 1);
    }
  }

  /** The table of section 3.2.6: literals 0 to 143 have the words 00110000 to 10111111,
      144 to 255 have 110010000 to 111111111, 256 to 279 have 0000000 to 0010111, and
      280 to 287 have 11000000 to 11000111. */
  lemma {:induction false} FixedWord(s: nat)
    requires s < 288
    ensures Used(FixedLit(), s)
    ensures CodeBits(FixedLit(), s) ==
            if s < 144 then MsbBits(0x30 + s, 8)
            else if s < 256 then MsbBits(0x190 + (s - 144), 9)
            else if s < 280 then MsbBits(s - 256, 7)
            else MsbBits(0xC0 + (s - 280), 8)
  {
    hide First, Rank, Offs, MsbBits;
    HuffTables.FixedLitSlot(s);
    HuffTables.FixedLitOffsets();
    FixedFirst();
  }

  /** Distances have the five-bit words 00000 to 11111. */
  lemma {:induction false} FixedDistanceWord(s: nat)
    requires s < 32
    ensures Used(FixedDist(), s) && CodeBits(FixedDist(), s) == MsbBits(s, 5)
  {
    hide First, Rank, Offs, MsbBits;
    HuffTables.FixedDistSlot(s);
    HuffTables.FixedLitOffsets();
    FixedFirst();
  }
}
