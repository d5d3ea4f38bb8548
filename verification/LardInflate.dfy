/** The decompressor of os/kernel/lard_inflate.c: a bit reader with a sticky
    overflow flag, table-driven decoding and output written in place. */
module LardInflate {
  import opened Wrappers
  import opened BitOps
  import opened Huffman
  import opened Rfc1951
  import opened Decoder
  import opened HuffTables

  // ---- reading bits ----

  /** The buffered bits, then the bytes not yet fetched. */
  function UnreadBits(bits: nat, bitcnt: nat, src: seq<byte>, pos: nat): (u: seq<bool>)
    requires pos <= |src|
    ensures |u| == bitcnt + 8 * (|src| - pos)
  {
    BitsOf(bits, bitcnt) + StreamBits(src[pos..])
  }

  lemma Regroup<T>(a: seq<T>, b: seq<T>, c: seq<T>)
    ensures (a + b) + c == a + (b + c)
  {
  }

  /** Fetching one byte into the buffer moves it from one part to the other. */
  lemma FetchKeepsBits(bits: nat, bitcnt: nat, src: seq<byte>, pos: nat)
    requires pos < |src| && bits < Pow2(bitcnt)
    ensures var b := Or(bits, Shl(src[pos], bitcnt));
            b < Pow2(bitcnt + 8) && UnreadBits(b, bitcnt + 8, src, pos + 1) == UnreadBits(bits, bitcnt, src, pos)
  {
    hide BitsOf, Or, Shl;
    OrIsAdd(bits, src[pos], bitcnt);
    BitsOfJoin(bits, src[pos], bitcnt, 8);
    assert Pow2(8) == 256;
    ShlBound(src[pos], bitcnt, 8);
    assert src[pos..][1..] == src[pos + 1..];
    Regroup(BitsOf(bits, bitcnt), BitsOf(src[pos], 8), StreamBits(src[pos + 1..]));
  }

  /** Splitting n bits off the buffer. */
  lemma DropKeepsBits(bits: nat, bitcnt: nat, n: nat, src: seq<byte>, pos: nat)
    requires pos <= |src| && bits < Pow2(bitcnt) && n <= bitcnt
    ensures var u := UnreadBits(bits, bitcnt, src, pos);
            |u| >= n && Low(bits, n) == Val(u[..n]) && UnreadBits(Shr(bits, n), bitcnt - n, src, pos) == u[n..]
    ensures Shr(bits, n) < Pow2(bitcnt - n)
  {
    BitsOfSplit(bits, n, bitcnt - n);
    ShrBound(bits, n, bitcnt - n);
    ValBitsOf(bits, n);
    assert UnreadBits(bits, bitcnt, src, pos)[..n] == BitsOf(bits, n);
  }

  lemma Parts<T>(s: seq<T>, a: seq<T>, b: seq<T>, n: nat)
    requires s == a + b && |a| == n
    ensures s[n..] == b && s[..n] == a
  {
  }

  lemma {:induction false} StreamBitsDrop(s: seq<byte>, i: nat)
    requires i <= |s|
    ensures StreamBits(s)[8 * i..] == StreamBits(s[i..])
    ensures StreamBits(s)[..8 * i] == StreamBits(s[..i])
  {
    hide StreamBits;
    var a, b := s[..i], s[i..];
    assert StreamBits(s) == StreamBits(a) + StreamBits(b) by {
      StreamBitsAppend(a, b);
      assert a + b == s;
    }
    Parts(StreamBits(s), StreamBits(a), StreamBits(b), 8 * i);
  }

  lemma Le16(s: seq<byte>)
    requires |s| == 2
    ensures Val(StreamBits(s)) == s[0] as int + 256 * s[1] as int
  {
    var lo, hi := BitsOf(s[0], 8), BitsOf(s[1], 8);
    assert s[1..][1..] == [];
    assert StreamBits(s) == lo + hi;
    assert Pow2(8) == 256;
    ShlOf8(s[1]);
    BitsOfJoin(s[0], s[1], 8, 8);
    var v := s[0] as int + 256 * s[1] as int;
    Pow2Of16();
    ValBitsOf(v, 16);
    LowOfSmall(v, 16);
  }

  lemma ShlOf8(v: nat)
    ensures Shl(v, 8) == 256 * v
  {
    assert Shl(v, 1) == 2 * v;
    assert Shl(v, 2) == 4 * v;
    assert Shl(v, 3) == 8 * v;
    assert Shl(v, 4) == 16 * v;
    assert Shl(v, 5) == 32 * v;
    assert Shl(v, 6) == 64 * v;
    assert Shl(v, 7) == 128 * v;
  }

  lemma {:induction false} XorOnes(v: nat, n: nat)
    requires v < Pow2(n)
    ensures Xor(v, Pow2(n) - 1) == Pow2(n) - 1 - v
  {
    if n != 0 {
      XorOnes(v / 2, n - 1);
    }
  }

  /** A stream that ends before any code word is complete. */
  lemma NoCodeIn(e: seq<nat>, b: seq<bool>)
    requires Complete(e) && |b| < MAX_BITS
    requires First(e, |b| + 1) <= 2 * MsbVal(b)
    ensures Next(e, b) == NoSymbol
  {
    var n := Next(e, b);
    if n.Symbol? {
      var c := CodeBits(e, n.s);
      assert b[..|c|] == c;
      assert |c| == |b| ==> c == b;
      assert b != [] ==> First(e, |b| + 1) == 2 * (First(e, |b|) + Cnt(e, |b|));
      CodeFits(e, n.s);
      RankBound(e, n.s);
      FirstGrows(e, b, |c|);
      assert false;
    }
  }

  lemma BitOfVal(b: seq<bool>)
    requires |b| == 1
    ensures b == [Val(b) == 1] && Val(b) < 2
  {
  }

  /** The bits of a code word read so far. */
  ghost function NextBit(b: seq<bool>, v: nat): (r: seq<bool>)
    requires v < 2
    ensures |r| == |b| + 1 && MsbVal(r) == 2 * MsbVal(b) + v
  {
    var r := b + [v == 1];
    assert r[..|r| - 1] == b;
    r
  }

  /** z is b with zeros behind it. */
  ghost predicate ZerosFrom(z: seq<bool>, b: seq<bool>) {
    |b| <= |z| && z[..|b|] == b && forall k | |b| <= k < |z| :: !z[k]
  }

  lemma {:induction false} EndsInZeros(u: seq<bool>)
    ensures ZerosFrom(u + Copies(false, MAX_BITS), u)
  {
  }

  lemma {:induction false} ZerosSplit(z: seq<bool>, b: seq<bool>)
    requires ZerosFrom(z, b)
    ensures |b| <= |z| && z == b + z[|b|..]
  {
  }

  lemma {:induction false} ZeroStep(z: seq<bool>, b: seq<bool>)
    requires ZerosFrom(z, b) && |b| < |z|
    ensures ZerosFrom(z, NextBit(b, 0))
  {
  }

  lemma StartOfCode(e: seq<nat>)
    ensures Offs(e, 1) == 0 && First(e, 1) == 0 && MsbVal([]) == 0
  {
  }

  /** One more bit of a code word, or the end of the stream inside it. */
  lemma {:induction false} StreamStep(e: seq<nat>, b: seq<bool>, before: seq<bool>, v: nat, ended: bool)
    requires Complete(e)
    requires |b| < MAX_BITS && First(e, |b| + 1) <= 2 * MsbVal(b)
    requires v < 2
    requires !ended ==> |before| >= 1 && v == Val(before[..1])
    ensures !ended ==> b + before == NextBit(b, v) + before[1..]
    ensures before == [] ==> Next(e, b + before) == NoSymbol
  {
    hide Next, Complete, First, MsbVal;
    if !ended {
      BitOfVal(before[..1]);
      assert before == before[..1] + before[1..];
    }
    if before == [] {
      assert b + before == b;
      NoCodeIn(e, b);
    }
  }

  /** The code value lies past this level, so there is a further level. */
  lemma NextLevel(t: HuffTree, e: seq<nat>, b: seq<bool>)
    requires t.Codes(e) && 1 <= |b| <= MAX_BITS
    requires First(e, |b|) + t.cnt[|b|] <= MsbVal(b)
    ensures |b| < MAX_BITS && t.cnt[|b|] == Cnt(e, |b|)
    ensures Offs(e, |b| + 1) == Offs(e, |b|) + Cnt(e, |b|)
    ensures First(e, |b| + 1) == 2 * (First(e, |b|) + Cnt(e, |b|))
  {
    MsbBitsVal(b);
  }

  /** The table entry for a finished code word. */
  lemma TableEntry(t: HuffTree, e: seq<nat>, b: seq<bool>)
    requires t.Codes(e) && 1 <= |b| <= MAX_BITS
    requires First(e, |b|) <= MsbVal(b) < First(e, |b|) + t.cnt[|b|]
    ensures var off := MsbVal(b) - First(e, |b|); off < Cnt(e, |b|) && Offs(e, |b|) + off < 288
    ensures var off := MsbVal(b) - First(e, |b|); var s := Nth(e, |b|, off);
            Used(e, s) && CodeBits(e, s) == b && t.sym[Offs(e, |b|) + off] == s
  {
    CodeFound(e, b);
    var s := Nth(e, |b|, MsbVal(b) - First(e, |b|));
    assert Slot(e, s) == Offs(e, |b|) + (MsbVal(b) - First(e, |b|));
  }

  class InflateContext {
    const src: seq<byte>
    const dst: array<byte>
    const cap: nat
    var pos: nat
    var bits: nat
    var bitcnt: nat
    var overflow: bool
    var dpos: nat

    constructor (source: seq<byte>, dest: array<byte>, destLen: nat)
      requires destLen <= dest.Length
      ensures Valid() && src == source && dst == dest && cap == destLen
      ensures !overflow && dpos == 0 && Unread() == StreamBits(source)
    {
      src, dst, cap := source, dest, destLen;
      pos, bits, bitcnt, overflow, dpos := 0, 0, 0, false, 0;
      new;
      assert source[0..] == source;
    }

    /** Fewer than 8 bits stay buffered; only an exhausted source raises the flag.
        With at most 20 buffered bits no shift leaves a 32-bit word. */
    ghost predicate Valid()
      reads this
    {
      && pos <= |src| && bits < Pow2(bitcnt) && bitcnt <= 20
      && dpos <= cap <= dst.Length
      && (if overflow then pos == |src| else bitcnt < 8)
    }

    ghost function Unread(): seq<bool>
      reads this
      requires Valid()
    {
      UnreadBits(bits, bitcnt, src, pos)
    }

    ghost function Out(): (o: seq<byte>)
      reads this, dst
      requires Valid()
      ensures |o| == dpos
    {
      dst[..dpos]
    }

    method GetBits(n: nat) returns (v: nat)
      requires Valid() && n <= 13
      modifies this`pos, this`bits, this`bitcnt, this`overflow
      ensures Valid() && v < Pow2(n)
      ensures overflow <==> old(overflow) || |old(Unread())| < n
      ensures !overflow ==> v == Val(old(Unread())[..n]) && Unread() == old(Unread())[n..]
      ensures overflow ==> v == 0 && Unread() == old(Unread())
    {
      hide UnreadBits, Or, Shl, Shr, Low, Val;
      ghost var u := Unread();
      while bitcnt < n && pos < |src|
        invariant pos <= |src| && bits < Pow2(bitcnt) && bitcnt <= 20
        invariant UnreadBits(bits, bitcnt, src, pos) == u
        invariant overflow == old(overflow) && (overflow ==> pos == |src|)
        invariant !overflow ==> bitcnt < n + 8 || bitcnt < 8
      {
        FetchKeepsBits(bits, bitcnt, src, pos);
        bits := Or(bits, Shl(src[pos], bitcnt));
        pos := pos + 1;
        bitcnt := bitcnt + 8;
      }
      if bitcnt < n {
        overflow := true;
      }
      if overflow {
        return 0;
      }
      DropKeepsBits(bits, bitcnt, n, src, pos);
      v := Low(bits, n);
      bits := Shr(bits, n);
      bitcnt := bitcnt - n;
    }

    /** Reads one symbol. The answer is always a symbol of the code, also for the
        zero bits that stand in for a stream that has ended. */
    method DecodeSym(t: HuffTree, ghost e: seq<nat>) returns (r: int)
      requires Valid() && t.Codes(e)
      modifies this`pos, this`bits, this`bitcnt, this`overflow
      ensures Valid() && Used(e, r)
      ensures old(overflow) ==> overflow
      ensures !overflow ==> Next(e, old(Unread())) == Symbol(r, Unread())
      ensures overflow && !old(overflow) ==> Next(e, old(Unread())) == NoSymbol
      ensures overflow ==>
                var n := Next(e, (if old(overflow) then [] else old(Unread())) + Copies(false, MAX_BITS));
                n.Symbol? && n.s == r
    {
      hide Next, First, Cnt, Offs, Complete, UnreadBits, Val, Used, MsbVal, CodeBits, ZerosFrom, NextBit;
      ghost var u, b: seq<bool> := Unread(), [];
      ghost var z := (if overflow then [] else u) + Copies(false, MAX_BITS);
      EndsInZeros(if overflow then [] else u);
      ghost var hadOverflow := overflow;
      var base, off, len := 0, 0, 1;
      StartOfCode(e);
      while true
        invariant Valid() && (hadOverflow ==> overflow)
        invariant 1 <= len <= MAX_BITS && |b| == len - 1
        invariant base == Offs(e, len) && off >= 0 && 2 * off + First(e, len) == 2 * MsbVal(b)
        invariant !overflow ==> u == b + Unread()
        invariant overflow && !hadOverflow ==> Next(e, u) == NoSymbol
        invariant overflow ==> ZerosFrom(z, b)
        decreases 16 - len
      {
        ghost var before := Unread();
        ghost var was := overflow;
        var v := GetBits(1);
        assert Pow2(1) == 2;
        StreamStep(e, b, before, v, overflow);
        if overflow {
          if !was {
            assert before == [] && b + before == b;
          }
          ZeroStep(z, b);
        }
        b := NextBit(b, v);
        off := 2 * off + v;
        if len > 15 {
          assert false;
          return -1;
        }
        if off < t.cnt[len] {
          break;
        }
        NextLevel(t, e, b);
        base := base + t.cnt[len];
        off := off - t.cnt[len];
        len := len + 1;
      }
      TableEntry(t, e, b);
      if !overflow {
        NextOfCode(e, Nth(e, len, off), Unread());
      } else {
        ZerosSplit(z, b);
        NextOfCode(e, Nth(e, len, off), z[|b|..]);
      }
      if base + off >= 288 {
        assert false;
        return -1;
      }
      return t.sym[base + off];
    }

    /** base plus n extra bits. */
    method GetBitsBase(n: nat, base: nat) returns (v: nat)
      requires Valid() && n <= 13
      modifies this`pos, this`bits, this`bitcnt, this`overflow
      ensures Valid() && base <= v < base + Pow2(n)
      ensures overflow <==> old(overflow) || |old(Unread())| < n
      ensures overflow ==> v == base && Unread() == old(Unread())
      ensures !overflow ==> Take(old(Unread()), n) == Got(v - base, Unread())
      ensures overflow && !old(overflow) ==> Take(old(Unread()), n) == Ended
    {
      if n == 0 {
        assert Unread()[..0] == [] && Unread()[0..] == Unread();
        return base;
      }
      v := GetBits(n);
      v := base + v;
    }

    /** A symbol of the alphabet lens: ok says whether it is one that may occur. */
    method DecodeSymbol(t: HuffTree, ghost lens: seq<nat>, limit: int) returns (s: int, ok: bool)
      requires Valid() && t.Represents(lens, limit)
      modifies this`pos, this`bits, this`bitcnt, this`overflow
      ensures Valid() && s >= 0 && (old(overflow) ==> overflow)
      ensures ok <==> s <= t.maxSym && s <= limit
      ensures ok ==> Used(lens, s)
      ensures !overflow && s <= limit ==>
                Read(lens, old(Unread())) == if ok then Got(s, Unread()) else Invalid
      ensures !overflow && s > limit ==>
                Read(lens, old(Unread())) == Invalid || Read(lens, old(Unread())) == Got(s, Unread())
      ensures overflow && !old(overflow) ==> Read(lens, old(Unread())) == Ended
      ensures s == Padded(lens, if old(overflow) then [] else old(Unread())) && (ok <==> s <= limit && Used(lens, s))
    {
      hide Next, Complete, Used, UnreadBits, Acceptable, Effective;
      ghost var u := Unread();
      s := DecodeSym(t, Effective(lens));
      UsedIsNatural(Effective(lens), s);
      if !overflow {
        PaddedRead(lens, u, s, Unread());
      }
      ok := s <= t.maxSym && s <= limit;
    }

    /** The length and distance after length symbol s. */
    method ReadLengthDistance(dt: HuffTree, ghost dist: seq<nat>, s: int) returns (ok: bool, ln: nat, d: nat)
      requires Valid() && 257 <= s <= 285 && dt.Represents(dist, 29)
      modifies this`pos, this`bits, this`bitcnt, this`overflow
      ensures Valid() && (old(overflow) ==> overflow)
      ensures ok ==> d >= 1
      ensures overflow && !old(overflow) ==>
                ReadCopy(dist, s, old(Unread())) == Ended
                && StarvedCopy(dist, s, old(Unread())) == if ok then Some((ln, d)) else None
      ensures !overflow ==>
                match ReadCopy(dist, s, old(Unread()))
                case Got(t, rest) => ok && ln == t.value.Length() && d == t.value.Distance() && rest == Unread()
                case Invalid => !ok
                case Ended => false
    {
      hide Next, UnreadBits, Acceptable, Effective, Take, Read, Used, Padded, HuffTree.Represents, HuffTree.Codes,
           LEN_BITS, LEN_BASE, DIST_BITS, DIST_BASE, Val;
      ghost var u := Unread();
      var lidx := s - 257;
      LengthTable(lidx);
      ln := GetBitsBase(LEN_BITS[lidx], LEN_BASE[lidx]);
      TakeParts(u, LEN_BITS[lidx]);
      var dsym, good := DecodeSymbol(dt, dist, 29);
      if !good {
        return false, ln, 0;
      }
      DistanceTable(dsym);
      d := GetBitsBase(DIST_BITS[dsym], DIST_BASE[dsym]);
      ok := true;
    }

    /** dst[i] = from[i] for ascending i, where from may lie below dst by less than ln. */
    method CopyMatch(dist: nat, ln: nat)
      requires Valid() && 1 <= dist <= dpos && dpos + ln <= cap
      modifies dst, this`dpos
      ensures Valid() && Out() == Repeat(old(Out()), dist, ln)
      ensures dst[cap..] == old(dst[cap..])
    {
      hide BitsOf, UnreadBits, StreamBits;
      ghost var o := Out();
      var from := dpos - dist;
      for i := 0 to ln
        invariant Valid() && dpos == |o|
        invariant dst[..dpos + i] == Repeat(o, dist, i)
        invariant dst[cap..] == old(dst[cap..])
      {
        ghost var r := Repeat(o, dist, i);
        assert dst[from + i] == r[|r| - dist];
        dst[dpos + i] := dst[from + i];
        assert dst[..dpos + i + 1] == dst[..dpos + i] + [dst[dpos + i]];
      }
      dpos := dpos + ln;
    }

    /** What a result code says about a run of the specification from the same state. */
    ghost predicate Agrees(spec: Result, r: int)
      reads this, dst
      requires Valid()
    {
      match spec
      case Ok(out, rest) => r == LARD_INFLATE_OK && !overflow && Out() == out && Unread() == rest
      case DataErr => r == LARD_INFLATE_DATA_ERR
      case BufErr => r == LARD_INFLATE_BUF_ERR
      case Short(overrun) => r == if overrun then LARD_INFLATE_BUF_ERR else LARD_INFLATE_DATA_ERR
    }

    /** Reads the rest of a copy and carries it out; more says whether the block goes on. */
    method InflateCopy(dt: HuffTree, ghost dist: seq<nat>, s: int) returns (more: bool, r: int)
      requires Valid() && !overflow && 257 <= s <= 285 && dt.Represents(dist, 29)
      modifies this`pos, this`bits, this`bitcnt, this`overflow, this`dpos, dst
      ensures Valid() && dst[cap..] == old(dst[cap..])
      ensures !more ==> r == LARD_INFLATE_DATA_ERR || r == LARD_INFLATE_BUF_ERR
      ensures overflow ==>
                ReadCopy(dist, s, old(Unread())) == Ended
                && if CopyOverruns(dist, s, old(Unread()), |old(Out())|, cap) then !more && r == LARD_INFLATE_BUF_ERR
                   else more || r == LARD_INFLATE_DATA_ERR
      ensures !overflow ==>
                match ReadCopy(dist, s, old(Unread()))
                case Ended => false
                case Invalid => !more && r == LARD_INFLATE_DATA_ERR
                case Got(t, rest) =>
                  match t.value.Apply(old(Out()))
                  case None => !more && r == LARD_INFLATE_DATA_ERR
                  case Some(o) => if |o| > cap then !more && r == LARD_INFLATE_BUF_ERR
                                  else more && Out() == o && Unread() == rest
    {
      hide Next, UnreadBits, Acceptable, Effective, Take, Read, Used, ReadCopy, HuffTree.Represents, HuffTree.Codes;
      var good, ln, d := ReadLengthDistance(dt, dist, s);
      if !good || d > dpos {
        return false, LARD_INFLATE_DATA_ERR;
      }
      if cap - dpos < ln {
        return false, LARD_INFLATE_BUF_ERR;
      }
      CopyMatch(d, ln);
      return true, LARD_INFLATE_OK;
    }

    method InflateBlockData(lt: HuffTree, dt: HuffTree, ghost lit: seq<nat>, ghost dist: seq<nat>) returns (r: int)
      requires Valid() && lt.Represents(lit, 285) && Used(lit, 256) && Acceptable(dist)
      requires dt.maxSym >= 0 ==> dt.Represents(dist, 29)
      requires dt.maxSym < 0 <==> MaxUsed(dist) < 0
      requires dst as object != lt.cnt && dst as object != lt.sym && dst as object != dt.cnt && dst as object != dt.sym
      modifies this`pos, this`bits, this`bitcnt, this`overflow, this`dpos, dst
      ensures Valid() && dst[cap..] == old(dst[cap..])
      ensures old(overflow) ==> r == LARD_INFLATE_DATA_ERR
      ensures !old(overflow) ==> Agrees(Tokens(lit, dist, old(Unread()), old(Out()), cap), r)
    {
      hide Next, UnreadBits, Acceptable, Effective, Take, Read, Used, ReadCopy, HuffTree.Represents, HuffTree.Codes,
           MaxUsed;
      ghost var spec := Tokens(lit, dist, Unread(), Out(), cap);
      ghost var had := overflow;
      while true
        invariant Valid() && dst[cap..] == old(dst[cap..])
        invariant had ==> overflow
        invariant lt.Represents(lit, 285) && (dt.maxSym >= 0 ==> dt.Represents(dist, 29))
        invariant !overflow ==> Tokens(lit, dist, Unread(), Out(), cap) == spec
        invariant overflow && !had ==> spec == Short(false)
        decreases if overflow then 0 else 1 + |Unread()|
      {
        ghost var u, o := Unread(), Out();
        var s, ok := DecodeSymbol(lt, lit, 285);
        if overflow {
          return LARD_INFLATE_DATA_ERR;
        }
        if s <= 256 {
          LowSymbolIsUsed(lt, lit, s);
        }
        if s < 256 {
          if dpos >= cap {
            return LARD_INFLATE_BUF_ERR;
          }
          dst[dpos] := s;
          dpos := dpos + 1;
          assert Out() == o + [s];
        } else if s == 256 {
          return LARD_INFLATE_OK;
        } else {
          if !ok || dt.maxSym < 0 {
            return LARD_INFLATE_DATA_ERR;
          }
          var more, err := InflateCopy(dt, dist, s);
          if !more {
            return err;
          }
        }
      }
    }

    /** Copies ln bytes from the source to the output. */
    method CopyStored(ln: nat)
      requires Valid() && pos + ln <= |src| && dpos + ln <= cap
      modifies this`pos, this`dpos, dst
      ensures pos == old(pos) + ln && dpos == old(dpos) + ln && Valid()
      ensures Out() == old(Out()) + src[old(pos)..old(pos) + ln]
      ensures dst[cap..] == old(dst[cap..])
    {
      ghost var o := Out();
      ghost var p := pos;
      for i := 0 to ln
        invariant pos == p + i && dpos == |o| + i
        invariant dst[..dpos] == o + src[p..p + i]
        invariant dst[cap..] == old(dst[cap..])
      {
        dst[dpos] := src[pos];
        assert dst[..dpos + 1] == dst[..dpos] + [src[pos]];
        dpos := dpos + 1;
        pos := pos + 1;
      }
    }

    method InflateStored() returns (r: int)
      requires Valid()
      modifies this`pos, this`bits, this`bitcnt, this`dpos, dst
      ensures Valid() && dst[cap..] == old(dst[cap..])
      ensures overflow ==> r == LARD_INFLATE_DATA_ERR
      ensures !overflow ==> Agrees(StoredBlock(old(Unread()), old(Out()), cap), r)
    {
      hide UnreadBits, StreamBits, StoredBlock, Xor;
      ghost var p, u, o := pos, Unread(), Out();
      if !overflow {
        StoredStart(bits, bitcnt, src, pos);
        StoredMeans(u, src, pos, o, cap);
      }
      if |src| - pos < 4 {
        return LARD_INFLATE_DATA_ERR;
      }
      var ln := src[pos] as int + 256 * src[pos + 1] as int;
      var inv := src[pos + 2] as int + 256 * src[pos + 3] as int;
      Complement(inv);
      if ln != Xor(inv, 0xFFFF) {
        return LARD_INFLATE_DATA_ERR;
      }
      pos := pos + 4;
      if |src| - pos < ln {
        return LARD_INFLATE_DATA_ERR;
      }
      if cap - dpos < ln {
        return LARD_INFLATE_BUF_ERR;
      }
      CopyStored(ln);
      bits := 0;
      bitcnt := 0;
      NothingBuffered(src, pos);
      return LARD_INFLATE_OK;
    }

    /** The code length code, stored in the order of clcidx. */
    method ReadClLens(lenBuf: array<nat>, hclen: nat) returns (ghost cl: seq<nat>)
      requires Valid() && hclen <= 19 && lenBuf.Length == 320
      modifies this`pos, this`bits, this`bitcnt, this`overflow, lenBuf
      ensures Valid() && |cl| == hclen && lenBuf[..19] == ClLens(cl) && (old(overflow) ==> overflow)
      ensures !overflow ==> ReadCl(hclen, [], old(Unread())) == Got(cl, Unread())
      ensures overflow && !old(overflow) ==> ReadCl(hclen, [], old(Unread())) == Ended
    {
      hide UnreadBits, CL_ORDER;
      for i := 0 to 19
        invariant unchanged(this) && forall k | 0 <= k < i :: lenBuf[k] == 0
      {
        lenBuf[i] := 0;
      }
      cl := [];
      ghost var had := overflow;
      ghost var spec := ReadCl(hclen, [], Unread());
      assert lenBuf[..19] == ClLens([]);
      for i := 0 to hclen
        invariant Valid() && |cl| == i && (forall k | 0 <= k < i :: cl[k] < 8) && (had ==> overflow)
        invariant lenBuf[..19] == ClLens(cl)
        invariant !overflow ==> ReadCl(hclen, cl, Unread()) == spec
        invariant overflow && !had ==> spec == Ended
      {
        var v := GetBits(3);
        assert Pow2(3) == 8;
        ClOrderInRange(i);
        ClLensStep(cl, v);
        lenBuf[CL_ORDER[i]] := v;
        cl := cl + [v];
      }
    }

    /** One run of code lengths: rep copies of val. */
    method ReadRun(lt: HuffTree, ghost cl: seq<nat>, lenBuf: array<nat>, num: nat)
      returns (ok: bool, rep: nat, val: nat)
      requires Valid() && lt.Represents(cl, 18) && lt.maxSym <= 18 && num <= lenBuf.Length
      modifies this`pos, this`bits, this`bitcnt, this`overflow
      ensures Valid() && (old(overflow) ==> overflow)
      ensures ok ==> rep >= 1
      ensures overflow && !old(overflow) ==> ReadItem(cl, lenBuf[..num], old(Unread())) == Ended
      ensures !overflow ==>
                match ReadItem(cl, lenBuf[..num], old(Unread()))
                case Ended => false
                case Invalid => !ok
                case Got(item, rest) =>
                  ok && rest == Unread() && item.Expand(lenBuf[..num]) == Some(lenBuf[..num] + Copies(val, rep))
    {
      hide Next, UnreadBits, Acceptable, Effective, Take, Read, Used, HuffTree.Represents, HuffTree.Codes;
      ghost var acc := lenBuf[..num];
      var s, good := DecodeSymbol(lt, cl, 18);
      if !good {
        return false, 0, 0;
      }
      rep, val := 1, s;
      if s == 16 {
        if num == 0 {
          return false, 0, 0;
        }
        val := lenBuf[num - 1];
        assert acc[|acc| - 1] == val;
        rep := GetBitsBase(2, 3);
      } else if s == 17 {
        val := 0;
        rep := GetBitsBase(3, 3);
      } else if s == 18 {
        val := 0;
        rep := GetBitsBase(7, 11);
      } else {
        assert Copies(val, 1) == [s];
      }
      ok := true;
    }

    /** All code lengths of both alphabets, without a break between the two. */
    method ReadLengths(lt: HuffTree, ghost cl: seq<nat>, lenBuf: array<nat>, total: nat) returns (ok: bool)
      requires Valid() && lt.Represents(cl, 18) && lt.maxSym <= 18 && total <= lenBuf.Length
      requires lenBuf != lt.cnt && lenBuf != lt.sym
      modifies this`pos, this`bits, this`bitcnt, this`overflow, lenBuf
      ensures Valid() && (old(overflow) ==> overflow)
      ensures !overflow ==>
                ReadLens(cl, total, [], old(Unread())) == if ok then Got(lenBuf[..total], Unread()) else Invalid
      ensures overflow && !old(overflow) ==> ReadLens(cl, total, [], old(Unread())) == Ended
    {
      hide Next, UnreadBits, Acceptable, Effective, Take, Read, ReadItem, Item.Expand, Used, HuffTree.Represents,
           HuffTree.Codes;
      var num := 0;
      ghost var had := overflow;
      ghost var spec := ReadLens(cl, total, [], Unread());
      assert lenBuf[..0] == [];
      while num < total
        invariant Valid() && num <= total && lt.Represents(cl, 18) && (had ==> overflow)
        invariant !overflow ==> ReadLens(cl, total, lenBuf[..num], Unread()) == spec
        invariant overflow && !had ==> spec == Ended
      {
        ghost var acc := lenBuf[..num];
        var good, rep, val := ReadRun(lt, cl, lenBuf, num);
        if !good || rep > total - num {
          return false;
        }
        label Filling:
        for k := 0 to rep
          invariant lenBuf[..num + k] == acc + Copies(val, k)
          invariant Valid() && unchanged@Filling(this) && lt.Represents(cl, 18)
        {
          lenBuf[num + k] := val;
          assert lenBuf[..num + k + 1] == lenBuf[..num + k] + [val];
          assert Copies(val, k + 1) == Copies(val, k) + [val];
        }
        num := num + rep;
      }
      ok := true;
    }

    method DecodeDynTrees(lt: HuffTree, dt: HuffTree, lenBuf: array<nat>)
      returns (r: int, ghost lit: seq<nat>, ghost dist: seq<nat>)
      requires Valid() && !overflow && lenBuf.Length == 320
      requires lt != dt && lt.Sized() && dt.Sized() && Apart(lt, dt, lenBuf)
      modifies this`pos, this`bits, this`bitcnt, this`overflow, lenBuf, lt, lt.cnt, lt.sym, dt, dt.cnt, dt.sym
      ensures Valid() && (r == LARD_INFLATE_OK || r == LARD_INFLATE_DATA_ERR)
      ensures r == LARD_INFLATE_OK ==>
                lt.Represents(lit, 285) && Used(lit, 256) && Acceptable(dist)
                && (dt.maxSym >= 0 ==> dt.Represents(dist, 29)) && (dt.maxSym < 0 <==> MaxUsed(dist) < 0)
      ensures overflow ==> ReadHeader(DIST_TAKEN, old(Unread())) == Ended
      ensures !overflow ==>
                ReadHeader(DIST_TAKEN, old(Unread()))
                == if r == LARD_INFLATE_OK then Got(Codes(lit, dist), Unread()) else Invalid
    {
      hide Next, UnreadBits, Acceptable, Effective, Take, Read, ReadCl, ReadLens, ReadCodes, Used,
           HuffTree.Represents, HuffTree.Codes, MaxUsed;
      lit, dist := [], [];
      var hlit := GetBitsBase(5, 257);
      var hdist := GetBitsBase(5, 1);
      var hclen := GetBitsBase(4, 4);
      assert Pow2(5) == 32 && Pow2(4) == 16;
      r, lit, dist := DecodeCodes(lt, dt, lenBuf, hlit, hdist, hclen);
    }

    method DecodeCodes(lt: HuffTree, dt: HuffTree, lenBuf: array<nat>, hlit: nat, hdist: nat, hclen: nat)
      returns (r: int, ghost lit: seq<nat>, ghost dist: seq<nat>)
      requires Valid() && lenBuf.Length == 320 && 257 <= hlit && 1 <= hdist && hclen <= 19
      requires lt != dt && lt.Sized() && dt.Sized() && Apart(lt, dt, lenBuf)
      modifies this`pos, this`bits, this`bitcnt, this`overflow, lenBuf, lt, lt.cnt, lt.sym, dt, dt.cnt, dt.sym
      ensures Valid() && (r == LARD_INFLATE_OK || r == LARD_INFLATE_DATA_ERR) && (old(overflow) ==> overflow)
      ensures r == LARD_INFLATE_OK ==>
                lt.Represents(lit, 285) && Used(lit, 256) && Acceptable(dist)
                && (dt.maxSym >= 0 ==> dt.Represents(dist, 29)) && (dt.maxSym < 0 <==> MaxUsed(dist) < 0)
      ensures overflow && !old(overflow) ==> ReadCodes(DIST_TAKEN, hlit, hdist, hclen, old(Unread())) == Ended
      ensures !overflow ==>
                ReadCodes(DIST_TAKEN, hlit, hdist, hclen, old(Unread()))
                == if r == LARD_INFLATE_OK then Got(Codes(lit, dist), Unread()) else Invalid
    {
      hide Next, UnreadBits, Acceptable, Effective, Take, Read, ReadCl, ReadLens, Used, HuffTree.Represents,
           HuffTree.Codes, MaxUsed;
      lit, dist := [], [];
      if hlit > 286 || hdist > DIST_TAKEN {
        return LARD_INFLATE_DATA_ERR, lit, dist;
      }
      ghost var cl := ReadClLens(lenBuf, hclen);
      var built := BuildTree(lt, lenBuf[..19]);
      if built != LARD_INFLATE_OK || lt.maxSym < 0 {
        return LARD_INFLATE_DATA_ERR, lit, dist;
      }
      var good := ReadLengths(lt, ClLens(cl), lenBuf, hlit + hdist);
      if !good {
        return LARD_INFLATE_DATA_ERR, lit, dist;
      }
      ghost var lens := lenBuf[..hlit + hdist];
      assert lens[256] == lenBuf[256] && lens[..hlit] == lenBuf[..hlit] && lens[hlit..] == lenBuf[hlit..hlit + hdist];
      if lenBuf[256] == 0 {
        return LARD_INFLATE_DATA_ERR, lit, dist;
      }
      lit, dist := lens[..hlit], lens[hlit..];
      r := BuildBoth(lt, dt, lenBuf[..hlit], lenBuf[hlit..hlit + hdist]);
    }
  }

  /** The tables of the two trees and the length buffer do not overlap. */
  ghost predicate Apart(lt: HuffTree, dt: HuffTree, lenBuf: array<nat>)
  {
    && lt.cnt != lt.sym && dt.cnt != dt.sym
    && lt.cnt != dt.cnt && lt.cnt != dt.sym && lt.sym != dt.cnt && lt.sym != dt.sym
    && lenBuf != lt.cnt && lenBuf != lt.sym && lenBuf != dt.cnt && lenBuf != dt.sym
  }

  method BuildBoth(lt: HuffTree, dt: HuffTree, lit: seq<nat>, dist: seq<nat>) returns (r: int)
    requires lt != dt && lt.Sized() && dt.Sized() && lt.cnt != lt.sym && dt.cnt != dt.sym
    requires lt.cnt != dt.cnt && lt.cnt != dt.sym && lt.sym != dt.cnt && lt.sym != dt.sym
    requires |lit| > 256 && lit[256] != 0
    modifies lt, lt.cnt, lt.sym, dt, dt.cnt, dt.sym
    ensures r == LARD_INFLATE_OK || r == LARD_INFLATE_DATA_ERR
    ensures r == LARD_INFLATE_OK <==> Acceptable(lit) && Acceptable(dist)
    ensures r == LARD_INFLATE_OK ==>
              lt.Represents(lit, 285) && Used(lit, 256)
              && (dt.maxSym >= 0 ==> dt.Represents(dist, 29)) && (dt.maxSym < 0 <==> MaxUsed(dist) < 0)
  {
    r := BuildTree(lt, lit);
    if r != LARD_INFLATE_OK {
      return LARD_INFLATE_DATA_ERR;
    }
    r := BuildTree(dt, dist);
    if r != LARD_INFLATE_OK {
      return LARD_INFLATE_DATA_ERR;
    }
  }

  lemma ClOrderInRange(i: nat)
    requires i < 19
    ensures |CL_ORDER| == 19 && CL_ORDER[i] < 19
  {
  }

  lemma ClLensStep(cl: seq<nat>, v: nat)
    requires |cl| < 19
    ensures |CL_ORDER| == 19 && CL_ORDER[|cl|] < 19 && ClLens(cl + [v]) == ClLens(cl)[CL_ORDER[|cl|] := v]
  {
    hide CL_ORDER, Copies;
    ClOrderInRange(|cl|);
    var c := cl + [v];
    assert c[..|c| - 1] == cl && c[|c| - 1] == v;
  }

  lemma NothingBuffered(src: seq<byte>, pos: nat)
    requires pos <= |src|
    ensures UnreadBits(0, 0, src, pos) == StreamBits(src[pos..])
  {
    assert BitsOf(0, 0) == [];
  }

  lemma Complement(v: nat)
    requires v < 0x1_0000
    ensures Xor(v, 0xFFFF) == 0xFFFF - v
  {
    Pow2Of16();
    XorOnes(v, 16);
  }

  /** Dropping the buffered bits leaves the bytes from pos on. */
  lemma StoredStart(bits: nat, bitcnt: nat, src: seq<byte>, pos: nat)
    requires pos <= |src| && bitcnt < 8
    ensures var u := UnreadBits(bits, bitcnt, src, pos); u[|u| % 8..] == StreamBits(src[pos..])
  {
    hide BitsOf, StreamBits;
    var u := UnreadBits(bits, bitcnt, src, pos);
    assert |u| % 8 == bitcnt;
    Parts(u, BitsOf(bits, bitcnt), StreamBits(src[pos..]), bitcnt);
  }

  /** The two length fields of a stored block. */
  lemma StoredLengths(src: seq<byte>, pos: nat)
    requires pos + 4 <= |src|
    ensures Val(StreamBits(src[pos..])[..16]) == src[pos] as int + 256 * src[pos + 1] as int
    ensures Val(StreamBits(src[pos..])[16..32]) == src[pos + 2] as int + 256 * src[pos + 3] as int
  {
    hide StreamBits, Val;
    var s := src[pos..];
    var b := StreamBits(s);
    StreamBitsDrop(s, 2);
    StreamBitsDrop(s[2..], 2);
    Le16(s[..2]);
    Le16(s[2..][..2]);
    assert b[16..][..16] == b[16..32];
  }

  /** The bytes of a stored block and what follows them. */
  lemma StoredData(src: seq<byte>, pos: nat, n: nat)
    requires pos + 4 + n <= |src|
    ensures BytesOf(StreamBits(src[pos..])[32..], n) == src[pos + 4..pos + 4 + n]
    ensures StreamBits(src[pos..])[32 + 8 * n..] == StreamBits(src[pos + 4 + n..])
  {
    hide StreamBits, BytesOf;
    var s := src[pos..];
    StreamBitsDrop(s, 4);
    StreamBitsDrop(s, 4 + n);
    var d, more := src[pos + 4..pos + 4 + n], src[pos + 4 + n..];
    assert s[4..] == d + more && s[4 + n..] == more;
    StreamBitsAppend(d, more);
    BytesOfStream(d, StreamBits(more));
  }

  lemma {:induction false} TakeParts(u: seq<bool>, n: nat)
    ensures Take(u, n) == if |u| < n then Ended else Got(Val(u[..n]), u[n..])
  {
  }

  /** A symbol that is read in full is found with zeros behind the bits, too. */
  lemma {:induction false} PaddedRead(lens: seq<nat>, bits: seq<bool>, s: int, rest: seq<bool>)
    requires Complete(Effective(lens)) && s >= 0 && Next(Effective(lens), bits) == Symbol(s, rest)
    ensures Padded(lens, bits) == s
  {
    hide Next, Effective, Complete;
    var e := Effective(lens);
    assert bits + Copies(false, MAX_BITS) == CodeBits(e, s) + (rest + Copies(false, MAX_BITS));
    NextOfCode(e, s, rest + Copies(false, MAX_BITS));
  }

  /** A stored block as the bytes of the source have it. */
  lemma {:induction false} StoredMeans(u: seq<bool>, src: seq<byte>, pos: nat, out: seq<byte>, cap: nat)
    requires pos <= |src| && u[|u| % 8..] == StreamBits(src[pos..]) && |out| <= cap
    ensures StoredBlock(u, out, cap)
         == if |src| - pos < 4 then DataErr
            else
              var ln := src[pos] as int + 256 * src[pos + 1] as int;
              if ln + (src[pos + 2] as int + 256 * src[pos + 3] as int) != 0xFFFF || |src| - pos - 4 < ln then DataErr
              else if cap - |out| < ln then BufErr
              else Ok(out + src[pos + 4..pos + 4 + ln], StreamBits(src[pos + 4 + ln..]))
  {
    hide StreamBits, Val, BytesOf;
    if |src| - pos >= 4 {
      StoredLengths(src, pos);
      var ln := src[pos] as int + 256 * src[pos + 1] as int;
      if |src| - pos - 4 >= ln {
        StoredData(src, pos, ln);
      }
    }
  }

  lemma LengthTable(i: nat)
    requires i < 29
    ensures |LEN_BITS| == |LEN_BASE| == 29 && LEN_BITS[i] <= 5
  {
  }

  lemma DistanceTable(i: nat)
    requires i < 30
    ensures |DIST_BITS| == |DIST_BASE| == 30 && DIST_BITS[i] <= 13 && DIST_BASE[i] >= 1
  {
  }

  lemma UsedIsNatural(e: seq<nat>, s: int)
    requires Used(e, s)
    ensures s >= 0
  {
  }

  /** A symbol at or below one in use is part of the alphabet whenever its code exists. */
  lemma LowSymbolIsUsed(t: HuffTree, lit: seq<nat>, s: nat)
    requires t.Represents(lit, 285) && Used(lit, 256) && s <= 256
    ensures s <= t.maxSym
  {
    AcceptableUse(lit);
    EffectiveKeepsCodes(lit, 256);
  }

  // ---- the whole decompressor ----

  /** lard_inflate_uncompress: decodes source into the first destLen bytes of dest. */
  method LardInflateUncompress(dest: array<byte>, destLen: nat, source: seq<byte>) returns (r: int, outLen: nat)
    requires destLen <= dest.Length
    modifies dest
    ensures dest[destLen..] == old(dest[destLen..])
    ensures match Inflate(30, StreamBits(source), [], destLen)
            case Ok(out, _) => r == 0 && outLen == |out| && dest[..outLen] == out
            case DataErr => r == -3
            case BufErr => r == -5
            case Short(overrun) => r == if overrun then -5 else -3
    ensures r == 0 ==> outLen <= destLen && StandsWithin(30, source, dest[..outLen])
    ensures forall out | StandsWithin(30, source, out) ::
              if |out| <= destLen then r == 0 && dest[..outLen] == out else r == -5
    ensures forall out | StandsFor(source, out) && !StandsWithin(30, source, out) :: r != 0
  {
    hide Inflate, StandsFor, StandsWithin, StreamBits;
    r, outLen := InflateBlocks(dest, destLen, source);
    AcceptsExactlyRfc1951(DIST_TAKEN, source, destLen);
  }

  /** The loop over the blocks. */
  method InflateBlocks(dest: array<byte>, destLen: nat, source: seq<byte>) returns (r: int, outLen: nat)
    requires destLen <= dest.Length
    modifies dest
    ensures dest[destLen..] == old(dest[destLen..])
    ensures match Inflate(DIST_TAKEN, StreamBits(source), [], destLen)
            case Ok(out, _) => r == LARD_INFLATE_OK && outLen == |out| && dest[..outLen] == out
            case DataErr => r == LARD_INFLATE_DATA_ERR
            case BufErr => r == LARD_INFLATE_BUF_ERR
            case Short(overrun) => r == if overrun then LARD_INFLATE_BUF_ERR else LARD_INFLATE_DATA_ERR
  {
    hide Next, Acceptable, Effective, Take, Read, Used, OneBlock, StreamBits;
    var c := new InflateContext(source, dest, destLen);
    outLen := 0;
    ghost var spec := Inflate(DIST_TAKEN, StreamBits(source), [], destLen);
    assert c.Out() == [];
    while true
      invariant c.Valid() && fresh(c) && c.dst == dest && c.cap == destLen && !c.overflow
      invariant dest[destLen..] == old(dest[destLen..])
      invariant Inflate(DIST_TAKEN, c.Unread(), c.Out(), destLen) == spec
      decreases |c.Unread()|
    {
      ghost var u, o := c.Unread(), c.Out();
      var bfinal := c.GetBits(1);
      ghost var mid, ended := c.Unread(), c.overflow;
      var btype := c.GetBits(2);
      if !c.overflow {
        HeadBits(u);
      }
      r := InflateOneBlock(c, btype);
      if r != LARD_INFLATE_OK {
        return;
      }
      if bfinal != 0 {
        break;
      }
    }
    if c.overflow {
      r := LARD_INFLATE_DATA_ERR;
      return;
    }
    outLen := c.dpos;
    r := LARD_INFLATE_OK;
  }

  lemma HeadBits(u: seq<bool>)
    requires |u| >= 3
    ensures u[1..][..2] == u[1..3] && u[1..][2..] == u[3..] && (Val(u[..1]) != 0 <==> u[0])
  {
    BitOfVal(u[..1]);
  }

  /** The body of one block, by its type. */
  method InflateOneBlock(c: InflateContext, btype: nat) returns (r: int)
    requires c.Valid() && (c.overflow ==> btype == 0)
    modifies c`pos, c`bits, c`bitcnt, c`overflow, c`dpos, c.dst
    ensures c.Valid() && c.dst[c.cap..] == old(c.dst[c.cap..])
    ensures old(c.overflow) ==> r == LARD_INFLATE_DATA_ERR
    ensures !old(c.overflow) ==> c.Agrees(OneBlock(DIST_TAKEN, btype, old(c.Unread()), old(c.Out()), c.cap), r)
  {
    hide Next, Acceptable, Effective, Take, Read, Used, Tokens, StoredBlock, ReadHeader, FixedLit, FixedDist, MaxUsed,
         HuffTree.Represents, HuffTree.Codes, UnreadBits;
    if btype == 0 {
      r := c.InflateStored();
    } else if btype == 1 {
      var lt := new HuffTree();
      var dt := new HuffTree();
      BuildFixedTrees(lt, dt);
      FixedUse();
      r := c.InflateBlockData(lt, dt, FixedLit(), FixedDist());
    } else if btype == 2 {
      var lt := new HuffTree();
      var dt := new HuffTree();
      var lenBuf := new nat[288 + 32];
      ghost var lit, dist;
      r, lit, dist := c.DecodeDynTrees(lt, dt, lenBuf);
      if r == LARD_INFLATE_OK {
        r := c.InflateBlockData(lt, dt, lit, dist);
      }
    } else {
      r := LARD_INFLATE_DATA_ERR;
    }
  }

  lemma FixedUse()
    ensures Used(FixedLit(), 256) && Acceptable(FixedDist()) && MaxUsed(FixedDist()) >= 0
  {
    FixedAcceptable();
    assert FixedDist()[0] == 5;
  }
}
