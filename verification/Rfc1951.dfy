/** The compressed data format of RFC 1951: what a writer may put into a stream
    and which bytes the stream then stands for. The bit layout and the meaning are
    those of the standard and follow no decoder; which code lengths a dynamic
    header may use is Huffman.Acceptable, which admits a single one-bit code for
    every alphabet, where section 3.2.7 speaks of it for distances only. */
module Rfc1951 {
  import opened Wrappers
  import opened BitOps
  import opened Huffman

  // ---- tables of section 3.2.5 and section 3.2.7 ----

  const LEN_BITS: seq<nat> := [0, 0, 0, 0, 0, 0, 0, 0, 1, 1, 1, 1, 2, 2, 2, 2, 3, 3, 3, 3, 4, 4, 4, 4, 5, 5, 5, 5, 0]
  const LEN_BASE: seq<nat> := [3, 4, 5, 6, 7, 8, 9, 10, 11, 13, 15, 17, 19, 23, 27, 31, 35, 43, 51, 59,
                               67, 83, 99, 115, 131, 163, 195, 227, 258]
  const DIST_BITS: seq<nat> := [0, 0, 0, 0, 1, 1, 2, 2, 3, 3, 4, 4, 5, 5, 6, 6, 7, 7, 8, 8,
                                9, 9, 10, 10, 11, 11, 12, 12, 13, 13]
  const DIST_BASE: seq<nat> := [1, 2, 3, 4, 5, 7, 9, 13, 17, 25, 33, 49, 65, 97, 129, 193, 257, 385, 513, 769,
                                1025, 1537, 2049, 3073, 4097, 6145, 8193, 12289, 16385, 24577]
  const CL_ORDER: seq<nat> := [16, 17, 18, 0, 8, 7, 9, 6, 10, 5, 11, 4, 12, 3, 13, 2, 14, 1, 15]

  /** Extra bits of length symbol s. */
  function LenBits(s: nat): nat
    requires 257 <= s <= 285
  {
    LEN_BITS[s - 257]
  }

  /** Extra bits of distance symbol s. */
  function DistBits(s: nat): nat
    requires s < 30
  {
    DIST_BITS[s]
  }

  function Copies<T>(x: T, n: nat): (s: seq<T>)
    ensures |s| == n && forall i | 0 <= i < n :: s[i] == x
  {
    seq(n, i => x)
  }

  /** The literal/length code of section 3.2.6. */
  function FixedLit(): (s: seq<nat>)
    ensures |s| == 288
  {
    Copies(8, 144) + Copies(9, 112) + Copies(7, 24) + Copies(8, 8)
  }

  function FixedDist(): (s: seq<nat>)
    ensures |s| == 32
  {
    Copies(5, 32)
  }

  // ---- literals and copies ----

  datatype Token =
    | Literal(b: byte)
    | Copy(lsym: nat, lextra: nat, dsym: nat, dextra: nat)
  {
    predicate InRange() {
      Copy? ==> 257 <= lsym <= 285 && lextra < Pow2(LenBits(lsym)) && dsym < 30 && dextra < Pow2(DistBits(dsym))
    }

    function Length(): nat
      requires Copy? && InRange()
    {
      LEN_BASE[lsym - 257] + lextra
    }

    function Distance(): (d: nat)
      requires Copy? && InRange()
      ensures d >= 1
    {
      DIST_BASE[dsym] + dextra
    }

    /** The codes have words for this token. */
    ghost predicate Codable(lit: seq<nat>, dist: seq<nat>) {
      && InRange()
      && (Literal? ==> Used(lit, b))
      && (Copy? ==> Used(lit, lsym) && Used(dist, dsym))
    }

    ghost function Bits(lit: seq<nat>, dist: seq<nat>): (r: seq<bool>)
      requires Codable(lit, dist)
      ensures |r| > 0
    {
      match this
      case Literal(b) => CodeBits(lit, b)
      case Copy(_, _, _, _) =>
        CodeBits(lit, lsym) + (BitsOf(lextra, LenBits(lsym))
        + (CodeBits(dist, dsym) + BitsOf(dextra, DistBits(dsym))))
    }

    /** The output after this token, or None if it reaches back before the start. */
    function Apply(out: seq<byte>): Option<seq<byte>>
      requires InRange()
    {
      match this
      case Literal(b) => Some(out + [b])
      case Copy(_, _, _, _) =>
        if Distance() > |out| then None else Some(Repeat(out, Distance(), Length()))
    }
  }

  /** Appends n bytes, each a copy of the byte dist places before it. */
  function Repeat(out: seq<byte>, dist: nat, n: nat): (r: seq<byte>)
    requires 1 <= dist <= |out|
    ensures |r| == |out| + n
    decreases n
  {
    if n == 0 then out
    else
      var r := Repeat(out, dist, n - 1);
      r + [r[|r| - dist]]
  }

  /** Section 3.2.3: the copied string may overlap the bytes being written. */
  lemma {:induction false} RepeatRefersBack(out: seq<byte>, dist: nat, n: nat, k: nat)
    requires 1 <= dist <= |out| && |out| <= k < |out| + n
    ensures Repeat(out, dist, n)[..|out|] == out
    ensures Repeat(out, dist, n)[k] == Repeat(out, dist, n)[k - dist]
    decreases n
  {
    var r := Repeat(out, dist, n - 1);
    if n > 1 {
      RepeatRefersBack(out, dist, n - 1, if k < |out| + n - 1 then k else |out|);
    }
  }

  ghost predicate TokensCodable(ts: seq<Token>, lit: seq<nat>, dist: seq<nat>) {
    forall i | 0 <= i < |ts| :: ts[i].Codable(lit, dist)
  }

  /** The tokens' bits followed by the end-of-block symbol. */
  ghost function TokenBits(ts: seq<Token>, lit: seq<nat>, dist: seq<nat>): seq<bool>
    requires TokensCodable(ts, lit, dist) && Used(lit, 256)
  {
    if ts == [] then CodeBits(lit, 256)
    else ts[0].Bits(lit, dist) + TokenBits(ts[1..], lit, dist)
  }

  ghost function ApplyTokens(ts: seq<Token>, out: seq<byte>): Option<seq<byte>>
    requires forall i | 0 <= i < |ts| :: ts[i].InRange()
  {
    if ts == [] then Some(out)
    else
      match ts[0].Apply(out)
      case None => None
      case Some(o) => ApplyTokens(ts[1..], o)
  }

  // ---- the header of a dynamic block ----

  /** Section 3.2.7 has between 1 and 32 distance codes, although 30 and 31 stand for nothing. */
  const MAX_DIST: nat := 32

  datatype Item = Length(l: nat) | Again(extra: nat) | Zeros(extra: nat) | ManyZeros(extra: nat)
  {
    predicate InRange() {
      match this
      case Length(l) => l <= MAX_BITS
      case Again(e) => e < 4
      case Zeros(e) => e < 8
      case ManyZeros(e) => e < 128
    }

    function Sym(): nat {
      match this
      case Length(l) => l
      case Again(_) => 16
      case Zeros(_) => 17
      case ManyZeros(_) => 18
    }

    function ExtraBits(): nat {
      match this
      case Length(_) => 0
      case Again(_) => 2
      case Zeros(_) => 3
      case ManyZeros(_) => 7
    }

    function Extra(): nat {
      match this
      case Length(_) => 0
      case _ => extra
    }

    /** The code lengths after this item. */
    function Expand(acc: seq<nat>): Option<seq<nat>> {
      match this
      case Length(l) => Some(acc + [l])
      case Again(e) => if acc == [] then None else Some(acc + Copies(acc[|acc| - 1], 3 + e))
      case Zeros(e) => Some(acc + Copies(0, 3 + e))
      case ManyZeros(e) => Some(acc + Copies(0, 11 + e))
    }

    ghost function Bits(cl: seq<nat>): seq<bool>
      requires Used(cl, Sym())
    {
      CodeBits(cl, Sym()) + BitsOf(Extra(), ExtraBits())
    }
  }

  ghost predicate ItemsCodable(items: seq<Item>, cl: seq<nat>) {
    forall i | 0 <= i < |items| :: items[i].InRange() && Used(cl, items[i].Sym())
  }

  ghost function ItemBits(items: seq<Item>, cl: seq<nat>): seq<bool>
    requires ItemsCodable(items, cl)
  {
    if items == [] then [] else items[0].Bits(cl) + ItemBits(items[1..], cl)
  }

  /** The run-length coded code lengths, or None when a repeat has nothing to repeat. */
  function ExpandItems(items: seq<Item>, acc: seq<nat>): Option<seq<nat>> {
    if items == [] then Some(acc)
    else
      match items[0].Expand(acc)
      case None => None
      case Some(a) => ExpandItems(items[1..], a)
  }

  /** The code length code, sent in the order of CL_ORDER. */
  function ClLens(cl: seq<nat>): (r: seq<nat>)
    requires |cl| <= 19
    ensures |r| == 19
  {
    if cl == [] then Copies(0, 19)
    else ClLens(cl[..|cl| - 1])[CL_ORDER[|cl| - 1] := cl[|cl| - 1]]
  }

  function ClBits(cl: seq<nat>): seq<bool> {
    if cl == [] then [] else BitsOf(cl[0], 3) + ClBits(cl[1..])
  }

  datatype Header = Header(hlit: nat, hdist: nat, cl: seq<nat>, items: seq<Item>)
  {
    ghost predicate Ok() {
      && 257 <= hlit <= 286 && 1 <= hdist <= MAX_DIST
      && 4 <= |cl| <= 19 && (forall i | 0 <= i < |cl| :: cl[i] < 8)
      && Acceptable(ClLens(cl)) && NumUsed(ClLens(cl)) > 0
      && ItemsCodable(items, ClLens(cl))
      && ExpandItems(items, []).Some?
      && var lens := ExpandItems(items, []).value;
         |lens| == hlit + hdist && lens[256] != 0 && Acceptable(lens[..hlit]) && Acceptable(lens[hlit..])
    }

    ghost function Lit(): seq<nat>
      requires Ok()
    {
      ExpandItems(items, []).value[..hlit]
    }

    ghost function Dist(): seq<nat>
      requires Ok()
    {
      ExpandItems(items, []).value[hlit..]
    }

    ghost function Bits(): seq<bool>
      requires Ok()
    {
      BitsOf(hlit - 257, 5)
      + (BitsOf(hdist - 1, 5) + (BitsOf(|cl| - 4, 4) + (ClBits(cl) + ItemBits(items, ClLens(cl)))))
    }
  }

  // ---- blocks ----

  datatype Block =
    | Stored(pad: seq<bool>, data: seq<byte>)
    | Fixed(tokens: seq<Token>)
    | Dynamic(header: Header, tokens: seq<Token>)
  {
    /** The block can be written; a stored block must also be aligned, see Aligned. */
    ghost predicate Ok() {
      match this
      case Stored(pad, data) => |data| < 0x1_0000
      case Fixed(ts) => TokensCodable(ts, FixedLit(), FixedDist()) && Used(FixedLit(), 256)
      case Dynamic(h, ts) => h.Ok() && TokensCodable(ts, h.Lit(), h.Dist()) && Used(h.Lit(), 256)
    }

    function Type(): nat {
      match this
      case Stored(_, _) => 0
      case Fixed(_) => 1
      case Dynamic(_, _) => 2
    }

    ghost function Body(): seq<bool>
      requires Ok()
    {
      match this
      case Stored(pad, data) =>
        pad + (BitsOf(|data|, 16) + (BitsOf(0xFFFF - |data|, 16) + StreamBits(data)))
      case Fixed(ts) => TokenBits(ts, FixedLit(), FixedDist())
      case Dynamic(h, ts) => h.Bits() + TokenBits(ts, h.Lit(), h.Dist())
    }

    ghost function Bits(last: bool): seq<bool>
      requires Ok()
    {
      [last] + (BitsOf(Type(), 2) + Body())
    }

    ghost function Apply(out: seq<byte>): Option<seq<byte>>
      requires Ok()
    {
      match this
      case Stored(_, data) => Some(out + data)
      case Fixed(ts) => ApplyTokens(ts, out)
      case Dynamic(_, ts) => ApplyTokens(ts, out)
    }
  }

  ghost predicate BlocksOk(bs: seq<Block>) {
    bs != [] && forall i | 0 <= i < |bs| :: bs[i].Ok()
  }

  /** The compressed stream for bs: every block but the last says that another one follows. */
  ghost function Stream(bs: seq<Block>): seq<bool>
    requires BlocksOk(bs)
  {
    if |bs| == 1 then bs[0].Bits(true) else bs[0].Bits(false) + Stream(bs[1..])
  }

  /** The padding of every stored block ends on a byte boundary when bs starts at bit p. */
  ghost predicate Aligned(bs: seq<Block>, p: nat)
    requires BlocksOk(bs)
  {
    && (bs[0].Stored? ==> |bs[0].pad| < 8 && (p + 3 + |bs[0].pad|) % 8 == 0)
    && (|bs| > 1 ==> Aligned(bs[1..], p + |bs[0].Bits(false)|))
  }

  /** The bytes that bs stands for, after out. */
  ghost function Meaning(bs: seq<Block>, out: seq<byte>): Option<seq<byte>>
    requires BlocksOk(bs)
  {
    match bs[0].Apply(out)
    case None => None
    case Some(o) => if |bs| == 1 then Some(o) else Meaning(bs[1..], o)
  }
}
