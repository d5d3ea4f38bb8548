/** The decoding tables of os/kernel/lard_inflate.c: counts per code length and
    symbols sorted by code, filled from code lengths. */
module HuffTables {
  import opened Wrappers
  import opened BitOps
  import opened Huffman
  import opened Rfc1951
  import opened Decoder

  const LARD_INFLATE_OK := 0
  const LARD_INFLATE_DATA_ERR := -3
  const LARD_INFLATE_BUF_ERR := -5

  /** Where symbol s sits in a table sorted by code length, then by symbol. */
  function Slot(e: seq<nat>, s: nat): nat
    requires Used(e, s)
  {
    Offs(e, e[s]) + Rank(e, s)
  }

  lemma SlotsDiffer(e: seq<nat>, s: nat, t: nat)
    requires Used(e, s) && Used(e, t) && s != t
    ensures Slot(e, s) != Slot(e, t)
  {
    RankBound(e, s);
    RankBound(e, t);
    if e[s] == e[t] {
      if s < t {
        RankMonotone(e, s, t);
      } else {
        RankMonotone(e, t, s);
      }
    } else if e[s] < e[t] {
      OffsMonotone(e, e[s], e[t]);
    } else {
      OffsMonotone(e, e[t], e[s]);
    }
  }

  /** Counts per code length and the symbols sorted by code. */
  class HuffTree {
    const cnt: array<nat>
    const sym: array<nat>
    var maxSym: int

    constructor ()
      ensures fresh(cnt) && fresh(sym) && cnt.Length == 16 && sym.Length == 288
    {
      cnt := new nat[16];
      sym := new nat[288];
      maxSym := -1;
    }

    ghost predicate Sized()
      reads this
    {
      cnt.Length == 16 && sym.Length == 288
    }

    /** The tables are those of the full code e. */
    ghost predicate Codes(e: seq<nat>)
      reads this, cnt, sym
    {
      && Sized() && Complete(e)
      && (forall l | 1 <= l <= MAX_BITS :: cnt[l] == Cnt(e, l))
      && (forall s: nat | Used(e, s) :: Slot(e, s) < 288 && sym[Slot(e, s)] == s)
    }

    /** The tables decode the alphabet lens; symbols up to limit above maxSym are not part of it. */
    ghost predicate Represents(lens: seq<nat>, limit: int)
      reads this, cnt, sym
    {
      && Acceptable(lens) && Codes(Effective(lens))
      && (forall s: nat | Used(Effective(lens), s) && s <= limit :: s <= maxSym <==> Used(lens, s))
    }
  }

  /** Fills t from code lengths; succeeds exactly on the lengths that describe a code. */
  method BuildTree(t: HuffTree, len: seq<nat>) returns (r: int)
    requires t.Sized()
    modifies t, t.cnt, t.sym
    ensures r == LARD_INFLATE_OK || r == LARD_INFLATE_DATA_ERR
    ensures r == LARD_INFLATE_OK <==> Acceptable(len)
    ensures r == LARD_INFLATE_OK ==> t.maxSym == MaxUsed(len)
    ensures r == LARD_INFLATE_OK && MaxUsed(len) >= 0 ==> forall limit :: t.Represents(len, limit)
  {
    hide KraftSum, First, Effective, Complete, MaxUsed, HuffTree.Represents, Offs, Acceptable, NumUsed, Cnt, Rank;
    var off := new nat[16];
    var ok, nc := CheckCode(t, len, off);
    if !ok {
      return LARD_INFLATE_DATA_ERR;
    }
    AcceptableUse(len);
    FillTables(t, len, off, nc);
    return LARD_INFLATE_OK;
  }

  /** Whether the lengths describe a code; if so, its counts, the first slot of every
      length and how many symbols it has. */
  method CheckCode(t: HuffTree, len: seq<nat>, off: array<nat>) returns (ok: bool, nc: nat)
    requires t.Sized() && off.Length == 16 && off != t.cnt && off != t.sym
    modifies t, t.cnt, off
    ensures ok <==> Acceptable(len)
    ensures ok ==> t.maxSym == MaxUsed(len) && nc == NumUsed(len)
    ensures ok ==> forall l | 1 <= l <= MAX_BITS :: t.cnt[l] == Cnt(len, l) && off[l] == Offs(len, l)
  {
    hide KraftSum, First, Effective, Complete, MaxUsed, Offs, Acceptable, NumUsed, Cnt, Rank, Pow2;
    if |len| > 288 {
      TooLong(len);
      return false, 0;
    }
    ok := CountLengths(t, len);
    if !ok {
      TooLong(len);
      return false, 0;
    }
    var avail, fits;
    avail, nc, fits := CheckLevels(t, len, off);
    if !fits {
      OversubscribedIsUnacceptable(len);
      return false, nc;
    }
    if (nc > 1 && avail > 0) || (nc == 1 && t.cnt[1] != 1) {
      RejectedIsUnacceptable(len, avail);
      return false, nc;
    }
    AcceptedIsAcceptable(len, avail);
  }

  /** The sorted symbols, and the second code of a lone symbol. */
  method FillTables(t: HuffTree, len: seq<nat>, off: array<nat>, nc: nat)
    requires t.Sized() && off.Length == 16 && off != t.cnt && off != t.sym
    requires Acceptable(len) && t.maxSym == MaxUsed(len) && nc == NumUsed(len)
    requires forall l | 1 <= l <= MAX_BITS :: t.cnt[l] == Cnt(len, l) && off[l] == Offs(len, l)
    modifies t.cnt, t.sym, off
    ensures nc >= 1 ==> forall limit :: t.Represents(len, limit)
  {
    hide KraftSum, First, Effective, Complete, MaxUsed, HuffTree.Codes, HuffTree.Represents, Offs, Acceptable, NumUsed,
         Cnt, Rank, Used;
    SortSymbols(t, len, off);
    AcceptableUse(len);
    if nc == 1 {
      LoneSlot(len);
      ShortEnough(len);
      t.cnt[1] := 2;
      t.sym[1] := t.maxSym + 1;
      PatchedCodes(t, len);
    } else if nc > 1 {
      FullCodes(t, len);
    }
    if nc >= 1 {
      AllRepresented(t, len);
    }
  }

  lemma {:induction false} TooLong(len: seq<nat>)
    requires |len| > 288 || exists s :: 0 <= s < |len| && len[s] > MAX_BITS
    ensures !Acceptable(len)
  {
    hide KraftSum, NumUsed;
  }

  lemma {:induction false} ShortEnough(len: seq<nat>)
    requires Acceptable(len)
    ensures |len| <= 288
  {
    hide KraftSum, NumUsed;
  }

  lemma {:induction false} AllRepresented(t: HuffTree, len: seq<nat>)
    requires Acceptable(len) && NumUsed(len) >= 1 && t.maxSym == MaxUsed(len) && t.Codes(Effective(len))
    ensures forall limit :: t.Represents(len, limit)
  {
    hide HuffTree.Codes, Acceptable, Effective, MaxUsed, NumUsed;
    forall s: nat
      ensures Used(Effective(len), s) ==> (s <= t.maxSym <==> Used(len, s))
    {
      EffectiveKeepsCodes(len, s);
    }
  }

  lemma {:induction false} FullCodes(t: HuffTree, len: seq<nat>)
    requires t.Sized() && Acceptable(len) && NumUsed(len) > 1
    requires forall l | 1 <= l <= MAX_BITS :: t.cnt[l] == Cnt(len, l)
    requires forall s: nat | Used(len, s) :: Slot(len, s) < 288 && t.sym[Slot(len, s)] == s
    ensures t.Codes(Effective(len))
  {
    EffectiveComplete(len);
    FullIsEffective(len);
    hide Complete, Acceptable, Effective, NumUsed;
  }

  method CountLengths(t: HuffTree, len: seq<nat>) returns (ok: bool)
    requires t.Sized() && |len| <= 288
    modifies t, t.cnt
    ensures ok <==> forall s | 0 <= s < |len| :: len[s] <= MAX_BITS
    ensures ok ==> t.maxSym == MaxUsed(len) && t.cnt[0] == 0
    ensures ok ==> forall l | 1 <= l <= MAX_BITS :: t.cnt[l] == Cnt(len, l)
  {
    for i := 0 to 16
      invariant forall l | 0 <= l < i :: t.cnt[l] == 0
    {
      t.cnt[i] := 0;
    }
    t.maxSym := -1;
    assert len[..0] == [];
    for i := 0 to |len|
      invariant forall s | 0 <= s < i :: len[s] <= MAX_BITS
      invariant t.maxSym == MaxUsed(len[..i]) && t.cnt[0] == 0
      invariant forall l | 1 <= l <= MAX_BITS :: t.cnt[l] == Cnt(len[..i], l)
    {
      assert len[..i + 1][..i] == len[..i];
      if len[i] > 15 {
        return false;
      }
      if len[i] != 0 {
        t.maxSym := i;
        t.cnt[len[i]] := t.cnt[len[i]] + 1;
      }
    }
    assert len[..|len|] == len;
    return true;
  }

  /** The Kraft walk: avail code values are left at each level. */
  method CheckLevels(t: HuffTree, len: seq<nat>, off: array<nat>) returns (avail: nat, nc: nat, fits: bool)
    requires t.Sized() && off.Length == 16 && off != t.cnt && off != t.sym && t.cnt[0] == 0
    requires forall s | 0 <= s < |len| :: len[s] <= MAX_BITS
    requires forall l | 1 <= l <= MAX_BITS :: t.cnt[l] == Cnt(len, l)
    modifies off
    ensures !fits ==> KraftSum(len) > Pow2(MAX_BITS)
    ensures fits ==> nc == NumUsed(len) && avail == Pow2(16) - First(len, 16)
    ensures fits ==> forall l | 1 <= l <= MAX_BITS :: off[l] == Offs(len, l)
  {
    avail, nc := 1, 0;
    for i := 0 to 16
      invariant i == 0 ==> avail == 1 && nc == 0
      invariant i >= 1 ==> avail == Pow2(i) - First(len, i) && nc == Offs(len, i)
      invariant forall l | 1 <= l < i :: off[l] == Offs(len, l)
    {
      var u := t.cnt[i];
      if u > avail {
        Oversubscribed(len, i);
        return avail, nc, false;
      }
      avail := 2 * (avail - u);
      off[i] := nc;
      nc := nc + u;
    }
    fits := true;
  }

  lemma LastLevel(len: seq<nat>)
    ensures First(len, 16) == 2 * KraftSum(len)
  {
    KraftLevel(len, MAX_BITS);
    KraftSums(len);
  }

  lemma TwiceTop()
    ensures Pow2(16) == 2 * Pow2(MAX_BITS)
  {
  }

  lemma OversubscribedIsUnacceptable(len: seq<nat>)
    requires forall s | 0 <= s < |len| :: len[s] <= MAX_BITS
    requires KraftSum(len) > Pow2(MAX_BITS)
    ensures !Acceptable(len)
  {
    NoneUsed(len);
    if NumUsed(len) == 0 {
      KraftZeros(len);
    } else if NumUsed(len) == 1 {
      LoneShare(len);
    }
  }

  lemma RejectedIsUnacceptable(len: seq<nat>, avail: nat)
    requires forall s | 0 <= s < |len| :: len[s] <= MAX_BITS
    requires avail == Pow2(16) - First(len, 16)
    requires (NumUsed(len) > 1 && avail > 0) || (NumUsed(len) == 1 && Cnt(len, 1) != 1)
    ensures !Acceptable(len)
  {
    LastLevel(len);
    TwiceTop();
    if NumUsed(len) == 1 {
      LoneShare(len);
    }
  }

  lemma AcceptedIsAcceptable(len: seq<nat>, avail: nat)
    requires |len| <= 288 && forall s | 0 <= s < |len| :: len[s] <= MAX_BITS
    requires avail == Pow2(16) - First(len, 16)
    requires !((NumUsed(len) > 1 && avail > 0) || (NumUsed(len) == 1 && Cnt(len, 1) != 1))
    ensures Acceptable(len)
  {
    LastLevel(len);
    TwiceTop();
  }

  /** Drops every used symbol into its slot. */
  method SortSymbols(t: HuffTree, len: seq<nat>, off: array<nat>)
    requires t.Sized() && Acceptable(len)
    requires off.Length == 16 && off != t.cnt && off != t.sym && t.cnt != t.sym
    requires forall l | 1 <= l <= MAX_BITS :: off[l] == Offs(len, l)
    modifies t.sym, off
    ensures forall s: nat | Used(len, s) :: Slot(len, s) < 288 && t.sym[Slot(len, s)] == s
  {
    hide KraftSum, NumUsed, Offs;
    assert len[..0] == [];
    for i := 0 to |len|
      invariant forall l | 1 <= l <= MAX_BITS :: off[l] == Offs(len, l) + Cnt(len[..i], l)
      invariant forall s: nat | s < i && Used(len, s) :: Slot(len, s) < 288 && t.sym[Slot(len, s)] == s
    {
      assert len[..i + 1][..i] == len[..i];
      if len[i] != 0 {
        SlotBound(len, i);
        NumUsedBound(len);
        forall s: nat | s < i && Used(len, s)
          ensures Slot(len, s) != Slot(len, i)
        {
          SlotsDiffer(len, s, i);
        }
        t.sym[off[len[i]]] := i;
        off[len[i]] := off[len[i]] + 1;
      }
    }
  }

  lemma FullIsEffective(len: seq<nat>)
    requires NumUsed(len) != 1
    ensures Effective(len) == len
  {
  }

  lemma LoneSlot(len: seq<nat>)
    requires Acceptable(len) && NumUsed(len) == 1
    ensures MaxUsed(len) >= 0 && Used(len, MaxUsed(len)) && Slot(len, MaxUsed(len)) == 0
  {
    AcceptableUse(len);
    SlotBound(len, MaxUsed(len));
  }

  /** Patching the tables of a lone code makes them those of its completion. */
  lemma PatchedCodes(t: HuffTree, len: seq<nat>)
    requires t.Sized() && Acceptable(len) && NumUsed(len) == 1 && MaxUsed(len) >= 0
    requires t.cnt[1] == 2 && forall l | 2 <= l <= MAX_BITS :: t.cnt[l] == Cnt(len, l)
    requires t.sym[0] == MaxUsed(len) && t.sym[1] == MaxUsed(len) + 1
    ensures t.Codes(Effective(len))
  {
    var e := Effective(len);
    EffectiveComplete(len);
    hide Complete, Effective, KraftSum;
    forall l | 1 <= l <= MAX_BITS
      ensures t.cnt[l] == Cnt(e, l)
    {
      LoneShare(len);
      LoneCounts(len, l);
    }
    forall s: nat | Used(e, s)
      ensures Slot(e, s) < 288 && t.sym[Slot(e, s)] == s
    {
      CompletedSlot(len, s);
    }
  }

  /** The two slots of a completed lone code. */
  lemma {:induction false} CompletedSlot(len: seq<nat>, s: nat)
    requires Acceptable(len) && NumUsed(len) == 1 && Used(Effective(len), s)
    ensures s == MaxUsed(len) || s == MaxUsed(len) + 1
    ensures Slot(Effective(len), s) == s - MaxUsed(len)
  {
    CompletedLengths(len);
    CompletedCounts(len);
    hide Acceptable, NumUsed, Effective, MaxUsed, Cnt;
    assert Offs(Effective(len), 1) == 0;
  }

  /** Both codes of a completed alphabet have one bit, and nothing lies before them. */
  lemma {:induction false} CompletedLengths(len: seq<nat>)
    requires Acceptable(len) && NumUsed(len) == 1
    ensures var e, m := Effective(len), MaxUsed(len);
            0 <= m < |e| == m + 2 && e[m] == e[m + 1] == 1 && forall s | 0 <= s < m :: e[s] == 0
  {
    hide KraftSum, Cnt, Offs;
    OneUsed(len);
    LoneShare(len);
    LoneCounts(len, 1);
    hide NumUsed;
  }

  lemma {:induction false} CompletedCounts(len: seq<nat>)
    requires Acceptable(len) && NumUsed(len) == 1 && 0 <= MaxUsed(len) < |Effective(len)| == MaxUsed(len) + 2
    ensures var e, m := Effective(len), MaxUsed(len);
            Rank(e, m) == 0 && Rank(e, m + 1) == 1
  {
    CompletedLengths(len);
    hide Acceptable, NumUsed, Effective, MaxUsed;
    var e, m := Effective(len), MaxUsed(len);
    CntZeros(e[..m], 1);
    assert e[..m + 1][..m] == e[..m];
  }

  lemma {:induction false} CntCopies(x: nat, n: nat, l: nat)
    ensures Cnt(Copies(x, n), l) == if x == l then n else 0
  {
    if n != 0 {
      CntCopies(x, n - 1, l);
      assert Copies(x, n)[..n - 1] == Copies(x, n - 1);
    }
  }

  lemma FixedCounts(l: nat)
    ensures Cnt(FixedLit(), l) == if l == 7 then 24 else if l == 8 then 152 else if l == 9 then 112 else 0
    ensures Cnt(FixedDist(), l) == if l == 5 then 32 else 0
  {
    CntCopies(8, 144, l);
    CntCopies(9, 112, l);
    CntCopies(7, 24, l);
    CntCopies(8, 8, l);
    CntCopies(5, 32, l);
    CntAppend(Copies(8, 144), Copies(9, 112), l);
    CntAppend(Copies(8, 144) + Copies(9, 112), Copies(7, 24), l);
    CntAppend(Copies(8, 144) + Copies(9, 112) + Copies(7, 24), Copies(8, 8), l);
  }

  lemma {:induction false} OffsSkips(e: seq<nat>, l: nat, m: nat)
    requires 1 <= l <= m && forall k | l <= k < m :: Cnt(e, k) == 0
    ensures Offs(e, m) == Offs(e, l)
    decreases m
  {
    if l < m {
      OffsSkips(e, l, m - 1);
    }
  }

  /** Where each run of the fixed literal code starts in the sorted table. */
  lemma FixedLitOffsets()
    ensures Offs(FixedLit(), 7) == 0 && Offs(FixedLit(), 8) == 24 && Offs(FixedLit(), 9) == 176
    ensures Offs(FixedDist(), 5) == 0
    ensures NumUsed(FixedLit()) == 288 && NumUsed(FixedDist()) == 32
  {
    var e, d := FixedLit(), FixedDist();
    forall l
      ensures Cnt(e, l) == if l == 7 then 24 else if l == 8 then 152 else if l == 9 then 112 else 0
      ensures Cnt(d, l) == if l == 5 then 32 else 0
    {
      FixedCounts(l);
    }
    OffsSkips(e, 1, 7);
    OffsSkips(e, 10, 16);
    OffsSkips(d, 1, 5);
    OffsSkips(d, 6, 16);
  }

  lemma {:induction false} PrefixOfCopies(a: seq<nat>, x: nat, n: nat, k: nat, l: nat, e: seq<nat>)
    requires k <= n && a + Copies(x, n) <= e
    ensures Cnt(e[..|a| + k], l) == Cnt(a, l) + if x == l then k else 0
  {
    assert e[..|a| + k] == a + Copies(x, k);
    CntAppend(a, Copies(x, k), l);
    CntCopies(x, k, l);
  }

  lemma FixedLitSlot(s: nat)
    requires s < 288
    ensures Used(FixedLit(), s)
    ensures Slot(FixedLit(), s) == if s < 144 then 24 + s else if s < 256 then 176 + (s - 144)
                                   else if s < 280 then s - 256 else 168 + (s - 280)
  {
    var e := FixedLit();
    var r8, r9, r7 := Copies(8, 144), Copies(9, 112), Copies(7, 24);
    FixedLitOffsets();
    CntCopies(8, 144, e[s]);
    CntCopies(9, 112, e[s]);
    CntCopies(7, 24, e[s]);
    CntAppend(r8, r9, e[s]);
    CntAppend(r8 + r9, r7, e[s]);
    if s < 144 {
      assert [] + r8 == r8;
      PrefixOfCopies([], 8, 144, s, e[s], e);
    } else if s < 256 {
      PrefixOfCopies(r8, 9, 112, s - 144, e[s], e);
    } else if s < 280 {
      PrefixOfCopies(r8 + r9, 7, 24, s - 256, e[s], e);
    } else {
      PrefixOfCopies(r8 + r9 + r7, 8, 8, s - 280, e[s], e);
    }
  }

  lemma FixedDistSlot(s: nat)
    requires s < 32
    ensures Used(FixedDist(), s) && Slot(FixedDist(), s) == s
  {
    FixedLitOffsets();
    assert [] + Copies(5, 32) == Copies(5, 32);
    PrefixOfCopies([], 5, 32, s, 5, FixedDist());
  }

  method BuildFixedTrees(lt: HuffTree, dt: HuffTree)
    requires lt != dt && lt.Sized() && dt.Sized() && lt.cnt != dt.cnt && lt.sym != dt.sym
    requires lt.cnt != lt.sym && dt.cnt != dt.sym && lt.cnt != dt.sym && lt.sym != dt.cnt
    modifies lt, lt.cnt, lt.sym, dt, dt.cnt, dt.sym
    ensures lt.Represents(FixedLit(), 285) && dt.Represents(FixedDist(), 29)
    ensures lt.maxSym == 285 && dt.maxSym == 29
  {
    BuildFixedLit(lt);
    BuildFixedDist(dt);
    FixedRepresented(lt, dt);
  }

  method BuildFixedLit(lt: HuffTree)
    requires lt.Sized() && lt.cnt != lt.sym
    modifies lt, lt.cnt, lt.sym
    ensures lt.maxSym == 285
    ensures forall l | 1 <= l <= MAX_BITS :: lt.cnt[l] == Cnt(FixedLit(), l)
    ensures forall s: nat | Used(FixedLit(), s) :: Slot(FixedLit(), s) < 288 && lt.sym[Slot(FixedLit(), s)] == s
  {
    for i := 0 to 16
      invariant forall l | 0 <= l < i :: lt.cnt[l] == 0
    {
      lt.cnt[i] := 0;
    }
    lt.cnt[7] := 24;
    lt.cnt[8] := 152;
    lt.cnt[9] := 112;
    ghost var counts := lt.cnt[..];
    for i := 0 to 24
      invariant lt.cnt[..] == counts
      invariant forall k | 0 <= k < i :: lt.sym[k] == 256 + k
    {
      lt.sym[i] := 256 + i;
    }
    for i := 0 to 144
      invariant lt.cnt[..] == counts
      invariant forall k | 0 <= k < 24 :: lt.sym[k] == 256 + k
      invariant forall k | 24 <= k < 24 + i :: lt.sym[k] == k - 24
    {
      lt.sym[24 + i] := i;
    }
    for i := 0 to 8
      invariant lt.cnt[..] == counts
      invariant forall k | 0 <= k < 24 :: lt.sym[k] == 256 + k
      invariant forall k | 24 <= k < 168 :: lt.sym[k] == k - 24
      invariant forall k | 168 <= k < 168 + i :: lt.sym[k] == 280 + (k - 168)
    {
      lt.sym[168 + i] := 280 + i;
    }
    for i := 0 to 112
      invariant lt.cnt[..] == counts
      invariant forall k | 0 <= k < 24 :: lt.sym[k] == 256 + k
      invariant forall k | 24 <= k < 168 :: lt.sym[k] == k - 24
      invariant forall k | 168 <= k < 176 :: lt.sym[k] == 280 + (k - 168)
      invariant forall k | 176 <= k < 176 + i :: lt.sym[k] == 144 + (k - 176)
    {
      lt.sym[176 + i] := 144 + i;
    }
    lt.maxSym := 285;
    forall l | 1 <= l <= MAX_BITS
      ensures lt.cnt[l] == Cnt(FixedLit(), l)
    {
      FixedCounts(l);
      assert lt.cnt[l] == counts[l];
    }
    forall s: nat | Used(FixedLit(), s)
      ensures Slot(FixedLit(), s) < 288 && lt.sym[Slot(FixedLit(), s)] == s
    {
      FixedLitSlot(s);
    }
  }

  method BuildFixedDist(dt: HuffTree)
    requires dt.Sized() && dt.cnt != dt.sym
    modifies dt, dt.cnt, dt.sym
    ensures dt.maxSym == 29
    ensures forall l | 1 <= l <= MAX_BITS :: dt.cnt[l] == Cnt(FixedDist(), l)
    ensures forall s: nat | Used(FixedDist(), s) :: Slot(FixedDist(), s) < 288 && dt.sym[Slot(FixedDist(), s)] == s
  {
    for i := 0 to 16
      invariant forall l | 0 <= l < i :: dt.cnt[l] == 0
    {
      dt.cnt[i] := 0;
    }
    dt.cnt[5] := 32;
    ghost var counts := dt.cnt[..];
    for i := 0 to 32
      invariant dt.cnt[..] == counts
      invariant forall k | 0 <= k < i :: dt.sym[k] == k
    {
      dt.sym[i] := i;
    }
    dt.maxSym := 29;
    forall l | 1 <= l <= MAX_BITS
      ensures dt.cnt[l] == Cnt(FixedDist(), l)
    {
      FixedCounts(l);
      assert dt.cnt[l] == counts[l];
    }
    forall s: nat | Used(FixedDist(), s)
      ensures Slot(FixedDist(), s) < 288 && dt.sym[Slot(FixedDist(), s)] == s
    {
      FixedDistSlot(s);
    }
  }

  lemma FixedRepresented(lt: HuffTree, dt: HuffTree)
    requires lt.Sized() && dt.Sized() && lt.maxSym == 285 && dt.maxSym == 29
    requires forall l | 1 <= l <= MAX_BITS :: lt.cnt[l] == Cnt(FixedLit(), l)
    requires forall s: nat | Used(FixedLit(), s) :: Slot(FixedLit(), s) < 288 && lt.sym[Slot(FixedLit(), s)] == s
    requires forall l | 1 <= l <= MAX_BITS :: dt.cnt[l] == Cnt(FixedDist(), l)
    requires forall s: nat | Used(FixedDist(), s) :: Slot(FixedDist(), s) < 288 && dt.sym[Slot(FixedDist(), s)] == s
    ensures lt.Represents(FixedLit(), 285) && dt.Represents(FixedDist(), 29)
  {
    FixedAcceptable();
    FixedLitOffsets();
    assert Effective(FixedLit()) == FixedLit() && Effective(FixedDist()) == FixedDist();
    CompleteIffKraft(FixedLit());
    CompleteIffKraft(FixedDist());
  }
}
