/** The canonical prefix code of section 3.2.2 of RFC 1951, as a function of a
    vector of code lengths. Nothing here mentions the decoder's tables. */
module Huffman {
  import opened BitOps

  const MAX_BITS: nat := 15

  /** How many symbols have code length l. */
  function Cnt(lens: seq<nat>, l: nat): nat {
    if lens == [] then 0
    else Cnt(lens[..|lens| - 1], l) + (if lens[|lens| - 1] == l then 1 else 0)
  }

  /** How many symbols below s share its code length. */
  function Rank(lens: seq<nat>, s: nat): nat
    requires s < |lens|
  {
    Cnt(lens[..s], lens[s])
  }

  /** The smallest code of length l: the running "code" of section 3.2.2, step 2. */
  function First(lens: seq<nat>, l: nat): nat
    requires l >= 1
  {
    if l == 1 then 0 else 2 * (First(lens, l - 1) + Cnt(lens, l - 1))
  }

  /** The code value of symbol s. */
  function Code(lens: seq<nat>, s: nat): nat
    requires s < |lens| && lens[s] >= 1
  {
    First(lens, lens[s]) + Rank(lens, s)
  }

  /** A code value of n bits, most significant bit first. */
  function MsbBits(v: nat, n: nat): (r: seq<bool>)
    ensures |r| == n
  {
    if n == 0 then [] else MsbBits(v / 2, n - 1) + [v % 2 == 1]
  }

  function MsbVal(b: seq<bool>): nat {
    if b == [] then 0
    else 2 * MsbVal(b[..|b| - 1]) + (if b[|b| - 1] then 1 else 0)
  }

  predicate Used(lens: seq<nat>, s: int) {
    0 <= s < |lens| && 1 <= lens[s] <= MAX_BITS
  }

  /** The bits that stand for symbol s in a compressed stream. */
  function CodeBits(lens: seq<nat>, s: nat): (r: seq<bool>)
    requires Used(lens, s)
    ensures |r| == lens[s]
  {
    MsbBits(Code(lens, s), lens[s])
  }

  /** The share of the code space that the lengths take, in units of 2^-15. */
  function KraftSum(lens: seq<nat>): nat {
    if lens == [] then 0
    else KraftSum(lens[..|lens| - 1]) + Share(lens[|lens| - 1])
  }

  function Share(l: nat): nat {
    if 1 <= l <= MAX_BITS then Pow2(MAX_BITS - l) else 0
  }

  /** No code value of any length up to 15 leaves its range, and the last level is full. */
  ghost predicate Complete(lens: seq<nat>) {
    && (forall s | 0 <= s < |lens| :: lens[s] <= MAX_BITS)
    && (forall l {:trigger First(lens, l)} | 1 <= l <= MAX_BITS :: First(lens, l) + Cnt(lens, l) <= Pow2(l))
    && First(lens, MAX_BITS) + Cnt(lens, MAX_BITS) == Pow2(MAX_BITS)
  }

  // ---- counting ----

  lemma {:induction false} CntSlice(lens: seq<nat>, a: nat, b: nat, l: nat)
    requires a <= b <= |lens|
    ensures Cnt(lens[..a], l) <= Cnt(lens[..b], l)
    decreases b
  {
    if a < b {
      CntSlice(lens, a, b - 1, l);
      assert lens[..b][..b - 1] == lens[..b - 1];
    }
  }

  lemma RankBound(lens: seq<nat>, s: nat)
    requires s < |lens|
    ensures Rank(lens, s) < Cnt(lens, lens[s])
  {
    assert lens[..s + 1][..s] == lens[..s];
    CntSlice(lens, s + 1, |lens|, lens[s]);
    assert lens[..|lens|] == lens;
  }

  /** Ranks of equal-length symbols are strictly increasing. */
  lemma RankMonotone(lens: seq<nat>, s: nat, t: nat)
    requires s < t < |lens| && lens[s] == lens[t]
    ensures Rank(lens, s) < Rank(lens, t)
  {
    assert lens[..s + 1][..s] == lens[..s];
    CntSlice(lens, s + 1, t, lens[s]);
  }

  /** The symbol of length l and rank r. */
  function Nth(lens: seq<nat>, l: nat, r: nat): (s: nat)
    requires r < Cnt(lens, l)
    ensures s < |lens| && lens[s] == l && Rank(lens, s) == r
  {
    var m := |lens| - 1;
    if lens[m] == l && Cnt(lens[..m], l) == r then m
    else
      var s := Nth(lens[..m], l, r);
      assert lens[..m][..s] == lens[..s];
      s
  }

  // ---- bit strings, most significant bit first ----

  lemma {:induction false} MsbBitsVal(b: seq<bool>)
    ensures MsbVal(b) < Pow2(|b|)
    ensures MsbBits(MsbVal(b), |b|) == b
  {
    if b != [] {
      var p := b[..|b| - 1];
      MsbBitsVal(p);
      assert MsbVal(b) / 2 == MsbVal(p);
      assert b == p + [b[|b| - 1]];
    }
  }

  lemma {:induction false} MsbValBits(v: nat, n: nat)
    requires v < Pow2(n)
    ensures MsbVal(MsbBits(v, n)) == v
  {
    if n != 0 {
      MsbValBits(v / 2, n - 1);
      assert MsbBits(v, n)[..n - 1] == MsbBits(v / 2, n - 1);
    }
  }

  // ---- the code ----

  lemma CodeFits(lens: seq<nat>, s: nat)
    requires Complete(lens) && Used(lens, s)
    ensures Code(lens, s) < Pow2(lens[s])
    ensures MsbVal(CodeBits(lens, s)) == Code(lens, s)
  {
    RankBound(lens, s);
    MsbValBits(Code(lens, s), lens[s]);
  }

  /** A string whose value at length l falls among the codes of length l spells one of them. */
  lemma CodeFound(lens: seq<nat>, b: seq<bool>)
    requires Complete(lens) && 1 <= |b| <= MAX_BITS
    requires First(lens, |b|) <= MsbVal(b) < First(lens, |b|) + Cnt(lens, |b|)
    ensures var s := Nth(lens, |b|, MsbVal(b) - First(lens, |b|)); Used(lens, s) && CodeBits(lens, s) == b
  {
    hide MsbVal, First, KraftSum;
    MsbBitsVal(b);
    var s := Nth(lens, |b|, MsbVal(b) - First(lens, |b|));
    assert Code(lens, s) == MsbVal(b);
  }

  /** The value of a prefix of a longer code word is past all the codes of the prefix's length. */
  lemma {:induction false} FirstGrows(lens: seq<nat>, b: seq<bool>, l: nat)
    requires 1 <= l <= |b|
    requires MsbVal(b[..l]) < First(lens, l) + Cnt(lens, l)
    ensures l < |b| ==> MsbVal(b) < First(lens, |b|)
    decreases |b|
  {
    if l < |b| {
      var p := b[..|b| - 1];
      assert p[..l] == b[..l];
      if l < |p| {
        FirstGrows(lens, p, l);
      } else {
        assert p == b[..l];
      }
    }
  }

  /** The code words are prefix-free. */
  lemma PrefixFree(lens: seq<nat>, s: nat, t: nat)
    requires Complete(lens) && Used(lens, s) && Used(lens, t)
    requires CodeBits(lens, s) <= CodeBits(lens, t)
    ensures s == t
  {
    var b := CodeBits(lens, t);
    var l := lens[s];
    CodeFits(lens, s);
    CodeFits(lens, t);
    RankBound(lens, s);
    assert b[..l] == CodeBits(lens, s);
    FirstGrows(lens, b, l);
    assert l == lens[t];
    assert b[..l] == b;
    if s < t {
      RankMonotone(lens, s, t);
    } else if t < s {
      RankMonotone(lens, t, s);
    }
  }

  /** In any stream with 15 or more bits left some code word comes next. */
  lemma {:induction false} SomeCodeComesNext(lens: seq<nat>, bits: seq<bool>, l: nat)
    requires Complete(lens) && |bits| >= MAX_BITS
    requires 1 <= l <= MAX_BITS && First(lens, l) <= MsbVal(bits[..l])
    ensures exists s :: Used(lens, s) && CodeBits(lens, s) <= bits
    decreases MAX_BITS - l
  {
    var b := bits[..l];
    if MsbVal(b) < First(lens, l) + Cnt(lens, l) {
      CodeFound(lens, b);
    } else {
      MsbBitsVal(b);
      assert l < MAX_BITS;
      assert bits[..l + 1][..l] == b;
      SomeCodeComesNext(lens, bits, l + 1);
    }
  }

  // ---- the next symbol of a stream ----

  datatype Symbol = Symbol(s: nat, rest: seq<bool>) | NoSymbol

  /** The symbol whose code word the stream starts with, if there is one. */
  ghost function Next(lens: seq<nat>, bits: seq<bool>): (r: Symbol)
    ensures r.Symbol? ==> Used(lens, r.s) && bits == CodeBits(lens, r.s) + r.rest && |r.rest| < |bits|
    ensures r.NoSymbol? ==> forall s | Used(lens, s) :: !(CodeBits(lens, s) <= bits)
  {
    if s: nat :| Used(lens, s) && CodeBits(lens, s) <= bits then
      Symbol(s, bits[lens[s]..])
    else
      NoSymbol
  }

  lemma NextOfCode(lens: seq<nat>, s: nat, rest: seq<bool>)
    requires Complete(lens) && Used(lens, s)
    ensures Next(lens, CodeBits(lens, s) + rest) == Symbol(s, rest)
  {
    var bits := CodeBits(lens, s) + rest;
    assert CodeBits(lens, s) <= bits;
    var n := Next(lens, bits);
    var c, d := CodeBits(lens, s), CodeBits(lens, n.s);
    assert d <= bits;
    if |c| <= |d| {
      assert c == bits[..|c|] == d[..|c|];
      PrefixFree(lens, s, n.s);
    } else {
      assert d == bits[..|d|] == c[..|d|];
      PrefixFree(lens, n.s, s);
    }
    assert n.rest == bits[|d|..] == rest;
  }

  // ---- the Kraft sum ----

  /** How many symbols have a length of at least 1 and below l. */
  function Offs(lens: seq<nat>, l: nat): nat
    requires l >= 1
  {
    if l == 1 then 0 else Offs(lens, l - 1) + Cnt(lens, l - 1)
  }

  /** How many symbols take part in the code. */
  function NumUsed(lens: seq<nat>): nat {
    Offs(lens, MAX_BITS + 1)
  }

  /** KraftSum, gathered by length instead of by symbol. */
  function KraftBy(lens: seq<nat>, l: nat): nat
    requires l <= MAX_BITS
  {
    if l == 0 then 0 else KraftBy(lens, l - 1) + Shl(Cnt(lens, l), MAX_BITS - l)
  }

  lemma {:induction false} ShlAdd(a: nat, b: nat, n: nat)
    ensures Shl(a + b, n) == Shl(a, n) + Shl(b, n)
    ensures Shl(2 * a, n) == Shl(a, n + 1)
    ensures Shl(1, n) == Pow2(n)
  {
    if n != 0 {
      ShlAdd(a, b, n - 1);
    }
  }

  lemma {:induction false} ShlPow2(k: nat, n: nat)
    ensures Shl(Pow2(k), n) == Pow2(k + n)
  {
    if n != 0 {
      ShlPow2(k, n - 1);
    }
  }

  lemma {:induction false} ShlMonotone(a: nat, b: nat, n: nat)
    requires a < b
    ensures Shl(a, n) < Shl(b, n)
  {
    if n != 0 {
      ShlMonotone(a, b, n - 1);
    }
  }

  /** The code space used up to length l, scaled to 15 bits. */
  lemma {:induction false} KraftLevel(lens: seq<nat>, l: nat)
    requires 1 <= l <= MAX_BITS
    ensures Shl(First(lens, l) + Cnt(lens, l), MAX_BITS - l) == KraftBy(lens, l)
  {
    if l == 1 {
      assert KraftBy(lens, 0) == 0;
    } else {
      KraftLevel(lens, l - 1);
      ShlAdd(First(lens, l), Cnt(lens, l), MAX_BITS - l);
      ShlAdd(First(lens, l - 1) + Cnt(lens, l - 1), 0, MAX_BITS - l);
    }
  }

  lemma {:induction false} KraftByMonotone(lens: seq<nat>, l: nat, m: nat)
    requires l <= m <= MAX_BITS
    ensures KraftBy(lens, l) <= KraftBy(lens, m)
    decreases m
  {
    if l < m {
      KraftByMonotone(lens, l, m - 1);
    }
  }

  /** One more symbol of length x adds its share to every level from x on. */
  lemma {:induction false} KraftByStep(lens: seq<nat>, l: nat)
    requires lens != [] && l <= MAX_BITS
    ensures var p, x := lens[..|lens| - 1], lens[|lens| - 1];
            KraftBy(lens, l) == KraftBy(p, l) + (if 1 <= x <= l then Share(x) else 0)
  {
    if l != 0 {
      KraftByStep(lens, l - 1);
      ShlAdd(Cnt(lens[..|lens| - 1], l), 1, MAX_BITS - l);
    }
  }

  lemma {:induction false} KraftByEmpty(l: nat)
    requires l <= MAX_BITS
    ensures KraftBy([], l) == 0
  {
    if l != 0 {
      KraftByEmpty(l - 1);
      ShlAdd(0, 0, MAX_BITS - l);
    }
  }

  lemma {:induction false} KraftSums(lens: seq<nat>)
    ensures KraftSum(lens) == KraftBy(lens, MAX_BITS)
  {
    if lens == [] {
      KraftByEmpty(MAX_BITS);
    } else {
      KraftSums(lens[..|lens| - 1]);
      KraftByStep(lens, MAX_BITS);
    }
  }

  /** A level that takes more than its range is oversubscribed. */
  lemma Oversubscribed(lens: seq<nat>, l: nat)
    requires 1 <= l <= MAX_BITS && First(lens, l) + Cnt(lens, l) > Pow2(l)
    ensures KraftSum(lens) > Pow2(MAX_BITS)
  {
    LevelTooBig(lens, l);
    KraftByMonotone(lens, l, MAX_BITS);
    KraftSums(lens);
  }

  lemma {:induction false} LevelTooBig(lens: seq<nat>, l: nat)
    requires 1 <= l <= MAX_BITS && First(lens, l) + Cnt(lens, l) > Pow2(l)
    ensures KraftBy(lens, l) > Pow2(MAX_BITS)
  {
    hide First, Cnt, KraftBy, Shl, Pow2;
    var v, n := First(lens, l) + Cnt(lens, l), MAX_BITS - l;
    assert Shl(v, n) == KraftBy(lens, l) by {
      KraftLevel(lens, l);
    }
    assert Shl(v, n) > Shl(Pow2(l), n) by {
      ShlMonotone(Pow2(l), v, n);
    }
    assert Shl(Pow2(l), n) == Pow2(l + n) by {
      ShlPow2(l, n);
    }
  }

  /** A set of code lengths is a full prefix code exactly when its Kraft sum is one. */
  lemma {:induction false} CompleteIffKraft(lens: seq<nat>)
    ensures Complete(lens) <==>
      (forall s | 0 <= s < |lens| :: lens[s] <= MAX_BITS) && KraftSum(lens) == Pow2(MAX_BITS)
  {
    hide First, Cnt, KraftSum;
    KraftLevel(lens, MAX_BITS);
    KraftSums(lens);
    if KraftSum(lens) == Pow2(MAX_BITS) {
      forall l {:trigger First(lens, l)} | 1 <= l <= MAX_BITS
        ensures First(lens, l) + Cnt(lens, l) <= Pow2(l)
      {
        if First(lens, l) + Cnt(lens, l) > Pow2(l) {
          Oversubscribed(lens, l);
        }
      }
    }
  }

  // ---- which code lengths describe a code ----

  /** The greatest symbol in use, or -1. */
  function MaxUsed(lens: seq<nat>): (m: int)
    ensures -1 <= m < |lens|
    ensures m >= 0 ==> lens[m] > 0
    ensures forall s | m < s < |lens| :: lens[s] == 0
  {
    if lens == [] then -1
    else if lens[|lens| - 1] > 0 then |lens| - 1
    else MaxUsed(lens[..|lens| - 1])
  }

  /** Code lengths a decoder may use: none at all, a lone one-bit code, or a full code. */
  ghost predicate Acceptable(lens: seq<nat>) {
    && |lens| <= 288
    && (forall s | 0 <= s < |lens| :: lens[s] <= MAX_BITS)
    && (NumUsed(lens) == 0 || (NumUsed(lens) == 1 && Cnt(lens, 1) == 1) || KraftSum(lens) == Pow2(MAX_BITS))
  }

  /** A lone one-bit code is completed by a symbol beyond the alphabet. */
  function Effective(lens: seq<nat>): seq<nat> {
    if NumUsed(lens) == 1 then lens[..MaxUsed(lens) + 1] + [1] else lens
  }

  lemma {:induction false} CntAppend(a: seq<nat>, b: seq<nat>, l: nat)
    ensures Cnt(a + b, l) == Cnt(a, l) + Cnt(b, l)
  {
    if b == [] {
      assert a + b == a;
    } else {
      assert (a + b)[..|a + b| - 1] == a + b[..|b| - 1];
      CntAppend(a, b[..|b| - 1], l);
    }
  }

  lemma {:induction false} OffsMonotone(lens: seq<nat>, l: nat, m: nat)
    requires 1 <= l < m
    ensures Offs(lens, l) + Cnt(lens, l) <= Offs(lens, m)
    decreases m
  {
    if l < m - 1 {
      OffsMonotone(lens, l, m - 1);
    }
  }

  lemma {:induction false} OffsStep(lens: seq<nat>, l: nat)
    requires lens != [] && l >= 1
    ensures var p, x := lens[..|lens| - 1], lens[|lens| - 1];
            Offs(lens, l) == Offs(p, l) + (if 1 <= x < l then 1 else 0)
  {
    if l > 1 {
      OffsStep(lens, l - 1);
    }
  }

  lemma {:induction false} OffsEmpty(l: nat)
    requires l >= 1
    ensures Offs([], l) == 0
  {
    if l > 1 {
      OffsEmpty(l - 1);
    }
  }

  lemma {:induction false} NumUsedBound(lens: seq<nat>)
    ensures NumUsed(lens) <= |lens|
  {
    if lens == [] {
      OffsEmpty(MAX_BITS + 1);
    } else {
      NumUsedBound(lens[..|lens| - 1]);
      OffsStep(lens, MAX_BITS + 1);
    }
  }

  /** The place of a used symbol in the table sorted by length, then by symbol. */
  lemma SlotBound(lens: seq<nat>, s: nat)
    requires Used(lens, s)
    ensures Offs(lens, lens[s]) + Rank(lens, s) < NumUsed(lens)
  {
    RankBound(lens, s);
    OffsMonotone(lens, lens[s], MAX_BITS + 1);
  }

  /** No symbol is used exactly when the count is zero. */
  lemma {:induction false} NoneUsed(lens: seq<nat>)
    requires forall s | 0 <= s < |lens| :: lens[s] <= MAX_BITS
    ensures NumUsed(lens) == 0 <==> MaxUsed(lens) < 0
  {
    if lens == [] {
      OffsEmpty(MAX_BITS + 1);
    } else {
      NoneUsed(lens[..|lens| - 1]);
      OffsStep(lens, MAX_BITS + 1);
    }
  }

  lemma AcceptableUse(lens: seq<nat>)
    requires Acceptable(lens)
    ensures NumUsed(lens) == 0 <==> MaxUsed(lens) < 0
  {
    NoneUsed(lens);
  }

  /** With one symbol in use, it is the last one and everything before it is unused. */
  lemma {:induction false} OneUsed(lens: seq<nat>)
    requires NumUsed(lens) == 1
    requires forall s | 0 <= s < |lens| :: lens[s] <= MAX_BITS
    ensures MaxUsed(lens) >= 0
    ensures forall s | 0 <= s < |lens| && s != MaxUsed(lens) :: lens[s] == 0
  {
    if lens == [] {
      OffsEmpty(MAX_BITS + 1);
    } else {
      var p := lens[..|lens| - 1];
      OffsStep(lens, MAX_BITS + 1);
      if lens[|lens| - 1] == 0 {
        OneUsed(p);
        assert forall s | 0 <= s < |p| :: p[s] == lens[s];
      } else {
        NoneUsed(p);
        assert forall s | 0 <= s < |p| :: p[s] == lens[s];
      }
    }
  }

  lemma {:induction false} CntZeros(lens: seq<nat>, l: nat)
    requires l >= 1 && forall s | 0 <= s < |lens| :: lens[s] == 0
    ensures Cnt(lens, l) == 0
  {
    if lens != [] {
      CntZeros(lens[..|lens| - 1], l);
    }
  }

  /** The counts of a lone code and of its completion. */
  lemma LoneCounts(lens: seq<nat>, l: nat)
    requires NumUsed(lens) == 1 && 1 <= l <= MAX_BITS
    requires forall s | 0 <= s < |lens| :: lens[s] <= MAX_BITS
    ensures MaxUsed(lens) >= 0 && Cnt(lens[..MaxUsed(lens)], l) == 0
    ensures Cnt(lens, l) == Cnt(lens[..MaxUsed(lens) + 1], l) == (if lens[MaxUsed(lens)] == l then 1 else 0)
    ensures Cnt(Effective(lens), l) == Cnt(lens, l) + (if l == 1 then 1 else 0)
  {
    OneUsed(lens);
    var m := MaxUsed(lens);
    CntZeros(lens[..m], l);
    CntZeros(lens[m + 1..], l);
    assert lens[..m + 1][..m] == lens[..m];
    assert lens[..m + 1] + lens[m + 1..] == lens;
    CntAppend(lens[..m + 1], lens[m + 1..], l);
    assert Effective(lens)[..m + 1] == lens[..m + 1];
  }

  lemma {:induction false} FirstOfLone(lens: seq<nat>, l: nat)
    requires 2 <= l <= MAX_BITS
    requires forall k | 1 <= k <= MAX_BITS :: Cnt(lens, k) == (if k == 1 then 2 else 0)
    ensures First(lens, l) == Pow2(l)
  {
    if l == 2 {
      assert First(lens, 1) == 0;
    } else {
      FirstOfLone(lens, l - 1);
    }
  }

  /** Acceptable lengths with at least one symbol give a full code once completed. */
  lemma {:induction false} EffectiveComplete(lens: seq<nat>)
    requires Acceptable(lens) && NumUsed(lens) > 0
    ensures Complete(Effective(lens))
  {
    hide Complete;
    if NumUsed(lens) == 1 {
      LoneComplete(lens);
    } else {
      CompleteIffKraft(lens);
    }
  }

  lemma {:induction false} LoneComplete(lens: seq<nat>)
    requires Acceptable(lens) && NumUsed(lens) == 1
    ensures Complete(Effective(lens))
  {
    var e := Effective(lens);
    LoneShare(lens);
    LoneCounts(lens, 1);
    LoneInRange(lens);
    hide Effective, MaxUsed, KraftSum, NumUsed, Acceptable, Cnt, First;
    forall k | 1 <= k <= MAX_BITS
      ensures Cnt(e, k) == (if k == 1 then 2 else 0)
    {
      LoneCounts(lens, k);
    }
    forall l {:trigger First(e, l)} | 1 <= l <= MAX_BITS
      ensures First(e, l) + Cnt(e, l) == Pow2(l)
    {
      LevelOfLone(e, l);
    }
  }

  lemma {:induction false} LoneInRange(lens: seq<nat>)
    requires Acceptable(lens) && NumUsed(lens) == 1
    ensures var e := Effective(lens); forall s | 0 <= s < |e| :: e[s] <= MAX_BITS
    ensures forall s | 0 <= s < |lens| :: lens[s] <= MAX_BITS
  {
    hide KraftSum, NumUsed;
  }

  lemma {:induction false} LevelOfLone(e: seq<nat>, l: nat)
    requires 1 <= l <= MAX_BITS && forall k | 1 <= k <= MAX_BITS :: Cnt(e, k) == (if k == 1 then 2 else 0)
    ensures First(e, l) + Cnt(e, l) == Pow2(l)
  {
    if l >= 2 {
      FirstOfLone(e, l);
    }
  }

  /** A single code never fills the code space. */
  lemma {:induction false} LoneShare(lens: seq<nat>)
    requires NumUsed(lens) == 1
    requires forall s | 0 <= s < |lens| :: lens[s] <= MAX_BITS
    ensures KraftSum(lens) < Pow2(MAX_BITS)
  {
    hide Offs, Cnt, Pow2;
    OneUsed(lens);
    OffsStep(lens, MAX_BITS + 1);
    var p, x := lens[..|lens| - 1], lens[|lens| - 1];
    assert forall s | 0 <= s < |p| :: p[s] == lens[s];
    if x == 0 {
      LoneShare(p);
    } else {
      KraftZeros(p);
      Pow2Monotone(MAX_BITS - x, MAX_BITS - 1);
      HalfOfAll();
    }
  }

  lemma {:induction false} HalfOfAll()
    ensures 0 < Pow2(MAX_BITS - 1) < Pow2(MAX_BITS)
  {
    Pow2Monotone(0, MAX_BITS - 1);
    assert Pow2(MAX_BITS) == 2 * Pow2(MAX_BITS - 1);
  }

  lemma {:induction false} KraftZeros(lens: seq<nat>)
    requires forall s | 0 <= s < |lens| :: lens[s] == 0
    ensures KraftSum(lens) == 0
  {
    if lens != [] {
      KraftZeros(lens[..|lens| - 1]);
    }
  }

  /** Completing a lone code changes neither the alphabet nor its code word. */
  lemma EffectiveKeepsCodes(lens: seq<nat>, s: nat)
    requires Acceptable(lens) && NumUsed(lens) > 0
    ensures Used(lens, s) ==> Used(Effective(lens), s) && CodeBits(Effective(lens), s) == CodeBits(lens, s)
    ensures Used(Effective(lens), s) ==> (Used(lens, s) <==> s <= MaxUsed(lens))
  {
    if NumUsed(lens) == 1 {
      OneUsed(lens);
      var m, e := MaxUsed(lens), Effective(lens);
      LoneCounts(lens, 1);
      if lens[m] != 1 {
        LoneShare(lens);
        assert false;
      }
      if s == m {
        assert e[..m] == lens[..m];
      }
    }
  }
}
