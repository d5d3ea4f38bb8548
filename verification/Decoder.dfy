/** The decoder as a function of the unread bits, and the proof that it accepts a
    stream exactly when the stream is one that RFC 1951 lets a writer produce,
    with no more distance codes than the decoder takes, and yields the bytes that
    stream stands for. */
module Decoder {
  import opened Wrappers
  import opened BitOps
  import opened Huffman
  import opened Rfc1951

  /** Ended: the stream ended inside an element. */
  datatype Step<+T> = Got(value: T, rest: seq<bool>) | Ended | Invalid

  /** Short: the bits end too early; overrun says that they end inside a copy that
      finds no room. */
  datatype Result = Ok(out: seq<byte>, rest: seq<bool>) | Short(overrun: bool) | DataErr | BufErr

  // ---- elements ----

  ghost function Take(bits: seq<bool>, n: nat): Step<nat> {
    if |bits| < n then Ended else Got(Val(bits[..n]), bits[n..])
  }

  /** The next symbol of the alphabet with these code lengths. */
  ghost function Read(lens: seq<nat>, bits: seq<bool>): (r: Step<nat>)
    ensures r.Got? ==> Used(lens, r.value) && |r.rest| < |bits|
  {
    match Next(Effective(lens), bits)
    case NoSymbol => Ended
    case Symbol(s, rest) => if Used(lens, s) then Got(s, rest) else Invalid
  }

  /** What follows length symbol s. */
  ghost function ReadCopy(dist: seq<nat>, s: nat, bits: seq<bool>): (r: Step<Option<Token>>)
    requires 257 <= s <= 285
    ensures r.Got? ==> |r.rest| < |bits| && r.value.Some? && r.value.value.Copy? && r.value.value.lsym == s
    ensures r.Got? ==> r.value.value.InRange() && Used(dist, r.value.value.dsym)
  {
    match Take(bits, LenBits(s))
    case Ended => Ended
    case Invalid => Invalid
    case Got(le, r2) =>
      match Read(dist, r2)
      case Ended => Ended
      case Invalid => Invalid
      case Got(d, r3) =>
        if d > 29 then Invalid
        else
          match Take(r3, DistBits(d))
          case Ended => Ended
          case Invalid => Invalid
          case Got(de, r4) => Got(Some(Copy(s, le, d, de)), r4)
  }

  /** One literal, copy or end of block (None). */
  ghost function ReadToken(lit: seq<nat>, dist: seq<nat>, bits: seq<bool>): (r: Step<Option<Token>>)
    ensures r.Got? ==> |r.rest| < |bits|
    ensures r.Got? && r.value.Some? ==> r.value.value.Codable(lit, dist)
  {
    match Read(lit, bits)
    case Ended => Ended
    case Invalid => Invalid
    case Got(s, r1) =>
      if s < 256 then Got(Some(Literal(s)), r1)
      else if s == 256 then Got(None, r1)
      else if s > 285 || MaxUsed(dist) < 0 then Invalid
      else ReadCopy(dist, s, r1)
  }

  /** The symbol that is found when the bits that are missing read as zeros. */
  ghost function Padded(lens: seq<nat>, bits: seq<bool>): nat {
    match Next(Effective(lens), bits + Copies(false, MAX_BITS))
    case Symbol(s, _) => s
    case NoSymbol => 0
  }

  /** Length and distance of a copy in which the bits end: a number that is not there
      in full reads as zero. None if the distance symbol is refused. */
  ghost function StarvedCopy(dist: seq<nat>, s: nat, bits: seq<bool>): Option<(nat, nat)>
    requires 257 <= s <= 285
  {
    var n := LenBits(s);
    var ln := LEN_BASE[s - 257] + if |bits| < n then 0 else Val(bits[..n]);
    var d := Padded(dist, if |bits| < n then [] else bits[n..]);
    if d > 29 || !Used(dist, d) then None else Some((ln, DIST_BASE[d]))
  }

  /** Such a copy of at most n bytes back finds no room behind them. */
  ghost predicate CopyOverruns(dist: seq<nat>, s: nat, bits: seq<bool>, n: nat, cap: nat)
    requires 257 <= s <= 285
  {
    match StarvedCopy(dist, s, bits)
    case None => false
    case Some((ln, d)) => d <= n && n + ln > cap
  }

  /** The bits of a token end: whether that is inside a copy without room. */
  ghost predicate TokenOverruns(lit: seq<nat>, dist: seq<nat>, bits: seq<bool>, n: nat, cap: nat) {
    match Read(lit, bits)
    case Got(s, rest) => 257 <= s <= 285 && CopyOverruns(dist, s, rest, n, cap)
    case _ => false
  }

  /** The data of one compressed block, up to and including its end-of-block symbol. */
  ghost function Tokens(lit: seq<nat>, dist: seq<nat>, bits: seq<bool>, out: seq<byte>, cap: nat): (r: Result)
    requires |out| <= cap
    ensures r.Ok? ==> |r.out| <= cap && |r.rest| < |bits|
    decreases |bits|
  {
    match ReadToken(lit, dist, bits)
    case Ended => Short(TokenOverruns(lit, dist, bits, |out|, cap))
    case Invalid => DataErr
    case Got(None, rest) => Ok(out, rest)
    case Got(Some(t), rest) =>
      match t.Apply(out)
      case None => DataErr
      case Some(o) => if |o| > cap then BufErr else Tokens(lit, dist, rest, o, cap)
  }

  // ---- dynamic headers ----

  /** One item of the run-length coded code lengths, after acc. */
  ghost function ReadItem(cl: seq<nat>, acc: seq<nat>, bits: seq<bool>): (r: Step<Item>)
    ensures r.Got? ==> |r.rest| < |bits| && r.value.InRange() && Used(cl, r.value.Sym()) && r.value.Expand(acc).Some?
  {
    match Read(cl, bits)
    case Ended => Ended
    case Invalid => Invalid
    case Got(s, r1) =>
      if s <= MAX_BITS then Got(Length(s), r1)
      else if s == 16 then
        if acc == [] then Invalid
        else (match Take(r1, 2) case Got(e, r2) => Got(Again(e), r2) case _ => Ended)
      else if s == 17 then
        (match Take(r1, 3) case Got(e, r2) => Got(Zeros(e), r2) case _ => Ended)
      else if s == 18 then
        (match Take(r1, 7) case Got(e, r2) => Got(ManyZeros(e), r2) case _ => Ended)
      else Invalid
  }

  /** Code lengths until there are exactly total of them. */
  ghost function ReadLens(cl: seq<nat>, total: nat, acc: seq<nat>, bits: seq<bool>): (r: Step<seq<nat>>)
    requires |acc| <= total
    ensures r.Got? ==> |r.value| == total && |r.rest| <= |bits|
    decreases total - |acc|
  {
    if |acc| == total then Got(acc, bits)
    else
      match ReadItem(cl, acc, bits)
      case Ended => Ended
      case Invalid => Invalid
      case Got(item, rest) =>
        var a := item.Expand(acc).value;
        if |a| > total then Invalid else ReadLens(cl, total, a, rest)
  }

  /** n three-bit code lengths appended to cl. */
  ghost function ReadCl(n: nat, cl: seq<nat>, bits: seq<bool>): (r: Step<seq<nat>>)
    requires |cl| <= n <= 19
    requires forall i | 0 <= i < |cl| :: cl[i] < 8
    ensures r.Got? ==> |r.value| == n && |r.rest| <= |bits| && forall i | 0 <= i < n :: r.value[i] < 8
    decreases n - |cl|
  {
    if |cl| == n then Got(cl, bits)
    else
      match Take(bits, 3)
      case Got(v, rest) =>
        assert v < Pow2(3) == 8;
        ReadCl(n, cl + [v], rest)
      case _ => Ended
  }

  datatype Codes = Codes(lit: seq<nat>, dist: seq<nat>)

  /** The number of distance codes that lard_inflate.c takes; the format has up to
      Rfc1951.MAX_DIST of them. */
  const DIST_TAKEN: nat := 30

  /** The header after its three counts, for a decoder that takes up to most distance codes. */
  ghost function ReadCodes(most: nat, hlit: nat, hdist: nat, n: nat, bits: seq<bool>): (r: Step<Codes>)
    requires n <= 19
    ensures r.Got? ==> |r.rest| <= |bits|
  {
    if hlit > 286 || hdist > most then Invalid
    else
      match ReadCl(n, [], bits)
      case Ended => Ended
      case Invalid => Invalid
      case Got(cl, r1) => ReadCodeLengths(hlit, hdist, ClLens(cl), r1)
  }

  ghost function ReadCodeLengths(hlit: nat, hdist: nat, cl: seq<nat>, bits: seq<bool>): (r: Step<Codes>)
    ensures r.Got? ==> |r.rest| <= |bits|
  {
    if !Acceptable(cl) || MaxUsed(cl) < 0 then Invalid
    else
      match ReadLens(cl, hlit + hdist, [], bits)
      case Ended => Ended
      case Invalid => Invalid
      case Got(lens, r2) =>
        if |lens| <= 256 || lens[256] == 0 || !Acceptable(lens[..hlit]) || !Acceptable(lens[hlit..]) then Invalid
        else Got(Codes(lens[..hlit], lens[hlit..]), r2)
  }

  ghost function ReadHeader(most: nat, bits: seq<bool>): (r: Step<Codes>)
    ensures r.Got? ==> |r.rest| <= |bits|
  {
    match Take(bits, 5)
    case Ended => Ended
    case Invalid => Invalid
    case Got(a, r1) =>
      match Take(r1, 5)
      case Ended => Ended
      case Invalid => Invalid
      case Got(b, r2) =>
        match Take(r2, 4)
        case Ended => Ended
        case Invalid => Invalid
        case Got(c, r3) =>
          assert c < Pow2(4) == 16;
          ReadCodes(most, 257 + a, 1 + b, 4 + c, r3)
  }

  // ---- blocks ----

  /** The first n bytes of a bit string. */
  function BytesOf(bits: seq<bool>, n: nat): (r: seq<byte>)
    requires 8 * n <= |bits|
    ensures |r| == n
    decreases n
  {
    if n == 0 then []
    else
      assert Pow2(8) == 256;
      [Val(bits[..8])] + BytesOf(bits[8..], n - 1)
  }

  /** A stored block from its length fields on. */
  ghost function StoredBody(b: seq<bool>, out: seq<byte>, cap: nat): (r: Result)
    requires |out| <= cap
    ensures r.Ok? ==> |r.out| <= cap && |r.rest| <= |b|
  {
    if |b| < 32 then DataErr
    else
      var n, inv := Val(b[..16]), Val(b[16..32]);
      if n + inv != 0xFFFF || |b| - 32 < 8 * n then DataErr
      else if |out| + n > cap then BufErr
      else Ok(out + BytesOf(b[32..], n), b[32 + 8 * n..])
  }

  ghost function StoredBlock(bits: seq<bool>, out: seq<byte>, cap: nat): (r: Result)
    requires |out| <= cap
    ensures r.Ok? ==> |r.out| <= cap && |r.rest| <= |bits|
  {
    StoredBody(bits[|bits| % 8..], out, cap)
  }

  ghost function OneBlock(most: nat, kind: nat, bits: seq<bool>, out: seq<byte>, cap: nat): (r: Result)
    requires |out| <= cap
    ensures r.Ok? ==> |r.out| <= cap && |r.rest| <= |bits|
  {
    if kind == 0 then StoredBlock(bits, out, cap)
    else if kind == 1 then Tokens(FixedLit(), FixedDist(), bits, out, cap)
    else if kind == 2 then
      match ReadHeader(most, bits)
      case Ended => Short(false)
      case Invalid => DataErr
      case Got(c, rest) => Tokens(c.lit, c.dist, rest, out, cap)
    else DataErr
  }

  /** The whole stream, block by block. */
  ghost function Inflate(most: nat, bits: seq<bool>, out: seq<byte>, cap: nat): (r: Result)
    requires |out| <= cap
    ensures r.Ok? ==> |r.out| <= cap
    decreases |bits|
  {
    if |bits| < 3 then Short(false)
    else
      var r := OneBlock(most, Val(bits[1..3]), bits[3..], out, cap);
      if r.Ok? && !bits[0] then Inflate(most, r.rest, r.out, cap) else r
  }

  // ---- elements: reading back what was written ----

  lemma TakeOf(v: nat, n: nat, rest: seq<bool>)
    requires v < Pow2(n)
    ensures Take(BitsOf(v, n) + rest, n) == Got(v, rest)
  {
    ValBitsOf(v, n);
    LowOfSmall(v, n);
    assert (BitsOf(v, n) + rest)[..n] == BitsOf(v, n);
    assert (BitsOf(v, n) + rest)[n..] == rest;
  }

  lemma TakeWrites(bits: seq<bool>, n: nat)
    requires Take(bits, n).Got?
    ensures var t := Take(bits, n); t.value < Pow2(n) && bits == BitsOf(t.value, n) + t.rest
  {
    hide BitsOf, Val, Pow2;
    var front := bits[..n];
    BitsOfVal(front);
    assert bits == front + bits[n..];
  }

  lemma ReadOf(lens: seq<nat>, s: nat, rest: seq<bool>)
    requires Acceptable(lens) && Used(lens, s)
    ensures Read(lens, CodeBits(lens, s) + rest) == Got(s, rest)
  {
    AcceptableUse(lens);
    EffectiveComplete(lens);
    EffectiveKeepsCodes(lens, s);
    NextOfCode(Effective(lens), s, rest);
  }

  lemma ReadWrites(lens: seq<nat>, bits: seq<bool>)
    requires Acceptable(lens) && Read(lens, bits).Got?
    ensures var r := Read(lens, bits); bits == CodeBits(lens, r.value) + r.rest
  {
    AcceptableUse(lens);
    EffectiveComplete(lens);
    EffectiveKeepsCodes(lens, Read(lens, bits).value);
  }

  lemma ReadCopyOf(dist: seq<nat>, t: Token, rest: seq<bool>)
    requires Acceptable(dist) && t.Copy? && t.InRange() && Used(dist, t.dsym)
    ensures ReadCopy(dist, t.lsym, BitsOf(t.lextra, LenBits(t.lsym))
                     + (CodeBits(dist, t.dsym) + (BitsOf(t.dextra, DistBits(t.dsym)) + rest))) == Got(Some(t), rest)
  {
    var r4 := BitsOf(t.dextra, DistBits(t.dsym)) + rest;
    var r3 := CodeBits(dist, t.dsym) + r4;
    TakeOf(t.lextra, LenBits(t.lsym), r3);
    ReadOf(dist, t.dsym, r4);
    TakeOf(t.dextra, DistBits(t.dsym), rest);
  }

  lemma ReadTokenOf(lit: seq<nat>, dist: seq<nat>, t: Token, rest: seq<bool>)
    requires Acceptable(lit) && Acceptable(dist) && t.Codable(lit, dist)
    ensures ReadToken(lit, dist, t.Bits(lit, dist) + rest) == Got(Some(t), rest)
  {
    hide Acceptable, ReadCopy, Read, LenBits, DistBits;
    var bits := t.Bits(lit, dist) + rest;
    if t.Literal? {
      ReadOf(lit, t.b, rest);
    } else {
      var r1 := BitsOf(t.lextra, LenBits(t.lsym))
                + (CodeBits(dist, t.dsym) + (BitsOf(t.dextra, DistBits(t.dsym)) + rest));
      assert bits == CodeBits(lit, t.lsym) + r1 by {
        Chain4(CodeBits(lit, t.lsym), BitsOf(t.lextra, LenBits(t.lsym)),
               CodeBits(dist, t.dsym), BitsOf(t.dextra, DistBits(t.dsym)), rest);
      }
      assert Read(lit, bits) == Got(t.lsym, r1) by {
        ReadOf(lit, t.lsym, r1);
      }
      assert ReadCopy(dist, t.lsym, r1) == Got(Some(t), rest) by {
        ReadCopyOf(dist, t, rest);
      }
      assert MaxUsed(dist) >= 0;
    }
  }

  lemma Chain2<T>(a: seq<T>, b: seq<T>, c: seq<T>)
    ensures (a + b) + c == a + (b + c)
  {
  }

  lemma Chain4<T>(a: seq<T>, b: seq<T>, c: seq<T>, d: seq<T>, e: seq<T>)
    ensures (a + (b + (c + d))) + e == a + (b + (c + (d + e)))
  {
  }

  lemma ReadCopyWrites(dist: seq<nat>, s: nat, bits: seq<bool>)
    requires Acceptable(dist) && 257 <= s <= 285 && ReadCopy(dist, s, bits).Got?
    ensures var r := ReadCopy(dist, s, bits); var t := r.value.value;
            bits == BitsOf(t.lextra, LenBits(s))
                    + (CodeBits(dist, t.dsym) + (BitsOf(t.dextra, DistBits(t.dsym)) + r.rest))
  {
    TakeWrites(bits, LenBits(s));
    var r2 := Take(bits, LenBits(s)).rest;
    ReadWrites(dist, r2);
    var d := Read(dist, r2);
    TakeWrites(d.rest, DistBits(d.value));
  }

  lemma ReadTokenWrites(lit: seq<nat>, dist: seq<nat>, bits: seq<bool>)
    requires Acceptable(lit) && Acceptable(dist) && ReadToken(lit, dist, bits).Got?
    ensures var r := ReadToken(lit, dist, bits);
            match r.value
            case None => Used(lit, 256) && bits == CodeBits(lit, 256) + r.rest
            case Some(t) => bits == t.Bits(lit, dist) + r.rest
  {
    ReadWrites(lit, bits);
    var r := ReadToken(lit, dist, bits);
    if r.value.Some? && r.value.value.Copy? {
      var t := r.value.value;
      ReadCopyWrites(dist, t.lsym, Read(lit, bits).rest);
      Chain4(CodeBits(lit, t.lsym), BitsOf(t.lextra, LenBits(t.lsym)),
             CodeBits(dist, t.dsym), BitsOf(t.dextra, DistBits(t.dsym)), r.rest);
    }
  }

  // ---- token runs ----

  lemma {:induction false} ApplyTokensGrow(ts: seq<Token>, out: seq<byte>)
    requires forall i | 0 <= i < |ts| :: ts[i].InRange()
    requires ApplyTokens(ts, out).Some?
    ensures |ApplyTokens(ts, out).value| >= |out|
  {
    if ts != [] {
      ApplyTokensGrow(ts[1..], ts[0].Apply(out).value);
    }
  }

  /** Decoding what a writer wrote for tokens gives their meaning, or runs out of room. */
  lemma {:induction false} TokensOf(lit: seq<nat>, dist: seq<nat>, ts: seq<Token>, rest: seq<bool>, out: seq<byte>,
                                    cap: nat)
    requires Acceptable(lit) && Acceptable(dist) && TokensCodable(ts, lit, dist) && Used(lit, 256)
    requires |out| <= cap && ApplyTokens(ts, out).Some?
    ensures var o := ApplyTokens(ts, out).value;
            Tokens(lit, dist, TokenBits(ts, lit, dist) + rest, out, cap) == if |o| <= cap then Ok(o, rest) else BufErr
    decreases |ts|
  {
    if ts == [] {
      ReadOf(lit, 256, rest);
    } else {
      var more := TokenBits(ts[1..], lit, dist) + rest;
      Chain2(ts[0].Bits(lit, dist), TokenBits(ts[1..], lit, dist), rest);
      var bits := TokenBits(ts, lit, dist) + rest;
      assert ReadToken(lit, dist, bits) == Got(Some(ts[0]), more) by {
        ReadTokenOf(lit, dist, ts[0], more);
      }
      var o := ts[0].Apply(out).value;
      ApplyTokensGrow(ts[1..], o);
      if |o| <= cap {
        TokensOf(lit, dist, ts[1..], rest, o, cap);
      }
    }
  }

  /** What a successful decoder consumed is what a writer writes for some tokens with that meaning. */
  lemma {:induction false} TokensWrite(lit: seq<nat>, dist: seq<nat>, bits: seq<bool>, out: seq<byte>, cap: nat)
    returns (ts: seq<Token>)
    requires Acceptable(lit) && Acceptable(dist)
    requires |out| <= cap && Tokens(lit, dist, bits, out, cap).Ok?
    ensures TokensCodable(ts, lit, dist) && Used(lit, 256)
    ensures var r := Tokens(lit, dist, bits, out, cap);
            bits == TokenBits(ts, lit, dist) + r.rest && ApplyTokens(ts, out) == Some(r.out)
    decreases |bits|
  {
    hide Acceptable, Used, ReadToken, Token.Bits, Token.Apply, CodeBits;
    var r := ReadToken(lit, dist, bits);
    ReadTokenWrites(lit, dist, bits);
    if r.value.None? {
      ts := [];
    } else {
      var t := r.value.value;
      var tail := TokensWrite(lit, dist, r.rest, t.Apply(out).value, cap);
      ts := [t] + tail;
      assert ts[0] == t && ts[1..] == tail;
      Chain2(t.Bits(lit, dist), TokenBits(tail, lit, dist), Tokens(lit, dist, bits, out, cap).rest);
    }
  }

  // ---- headers ----

  lemma ReadItemOf(cl: seq<nat>, item: Item, acc: seq<nat>, rest: seq<bool>)
    requires Acceptable(cl) && item.InRange() && Used(cl, item.Sym()) && item.Expand(acc).Some?
    ensures ReadItem(cl, acc, item.Bits(cl) + rest) == Got(item, rest)
  {
    var extra := BitsOf(item.Extra(), item.ExtraBits());
    Chain2(CodeBits(cl, item.Sym()), extra, rest);
    ReadOf(cl, item.Sym(), extra + rest);
    assert Pow2(2) == 4 && Pow2(3) == 8 && Pow2(7) == 128;
    TakeOf(item.Extra(), item.ExtraBits(), rest);
  }

  lemma ReadItemWrites(cl: seq<nat>, acc: seq<nat>, bits: seq<bool>)
    requires Acceptable(cl) && ReadItem(cl, acc, bits).Got?
    ensures var r := ReadItem(cl, acc, bits); bits == r.value.Bits(cl) + r.rest
  {
    ReadWrites(cl, bits);
    var item := ReadItem(cl, acc, bits).value;
    var r1 := Read(cl, bits).rest;
    if item.ExtraBits() == 0 {
      assert item.Bits(cl) == CodeBits(cl, item.Sym());
    } else {
      TakeWrites(r1, item.ExtraBits());
      Chain2(CodeBits(cl, item.Sym()), BitsOf(item.Extra(), item.ExtraBits()), ReadItem(cl, acc, bits).rest);
    }
  }

  lemma {:induction false} ExpandItemsGrow(items: seq<Item>, acc: seq<nat>)
    requires ExpandItems(items, acc).Some?
    ensures |ExpandItems(items, acc).value| >= |acc| + |items|
  {
    if items != [] {
      ExpandItemsGrow(items[1..], items[0].Expand(acc).value);
    }
  }

  lemma {:induction false} ReadLensOf(cl: seq<nat>, items: seq<Item>, acc: seq<nat>, rest: seq<bool>)
    requires Acceptable(cl) && ItemsCodable(items, cl) && ExpandItems(items, acc).Some?
    ensures var lens := ExpandItems(items, acc).value;
            |acc| <= |lens| && ReadLens(cl, |lens|, acc, ItemBits(items, cl) + rest) == Got(lens, rest)
    decreases |items|
  {
    ExpandItemsGrow(items, acc);
    if items == [] {
    } else {
      Chain2(items[0].Bits(cl), ItemBits(items[1..], cl), rest);
      ReadItemOf(cl, items[0], acc, ItemBits(items[1..], cl) + rest);
      ReadLensOf(cl, items[1..], items[0].Expand(acc).value, rest);
    }
  }

  lemma {:induction false} ReadLensWrites(cl: seq<nat>, total: nat, acc: seq<nat>, bits: seq<bool>)
    returns (items: seq<Item>)
    requires Acceptable(cl) && |acc| <= total && ReadLens(cl, total, acc, bits).Got?
    ensures ItemsCodable(items, cl)
    ensures var r := ReadLens(cl, total, acc, bits);
            bits == ItemBits(items, cl) + r.rest && ExpandItems(items, acc) == Some(r.value)
    decreases total - |acc|
  {
    if |acc| == total {
      items := [];
    } else {
      var r := ReadItem(cl, acc, bits);
      ReadItemWrites(cl, acc, bits);
      var tail := ReadLensWrites(cl, total, r.value.Expand(acc).value, r.rest);
      items := [r.value] + tail;
      assert items[0] == r.value && items[1..] == tail;
      Chain2(r.value.Bits(cl), ItemBits(tail, cl), ReadLens(cl, total, acc, bits).rest);
    }
  }

  lemma {:induction false} ReadClOf(cl: seq<nat>, more: seq<nat>, rest: seq<bool>)
    requires |cl| + |more| <= 19
    requires forall i | 0 <= i < |cl| :: cl[i] < 8
    requires forall i | 0 <= i < |more| :: more[i] < 8
    ensures ReadCl(|cl| + |more|, cl, ClBits(more) + rest) == Got(cl + more, rest)
    decreases |more|
  {
    if more == [] {
      assert cl + more == cl;
    } else {
      assert Pow2(3) == 8;
      Chain2(BitsOf(more[0], 3), ClBits(more[1..]), rest);
      TakeOf(more[0], 3, ClBits(more[1..]) + rest);
      ReadClOf(cl + [more[0]], more[1..], rest);
      assert (cl + [more[0]]) + more[1..] == cl + more;
    }
  }

  lemma {:induction false} ReadClWrites(n: nat, cl: seq<nat>, bits: seq<bool>) returns (more: seq<nat>)
    requires |cl| <= n <= 19 && (forall i | 0 <= i < |cl| :: cl[i] < 8) && ReadCl(n, cl, bits).Got?
    ensures var r := ReadCl(n, cl, bits); r.value == cl + more && bits == ClBits(more) + r.rest
    decreases n - |cl|
  {
    if |cl| == n {
      more := [];
    } else {
      var t := Take(bits, 3);
      assert t.value < Pow2(3) == 8;
      TakeWrites(bits, 3);
      var tail := ReadClWrites(n, cl + [t.value], t.rest);
      more := [t.value] + tail;
      assert more[0] == t.value && more[1..] == tail;
      assert (cl + [t.value]) + tail == cl + more;
      Chain2(BitsOf(t.value, 3), ClBits(tail), ReadCl(n, cl, bits).rest);
    }
  }

  lemma ReadCodeLengthsOf(h: Header, rest: seq<bool>)
    requires h.Ok()
    ensures ReadCodeLengths(h.hlit, h.hdist, ClLens(h.cl), ItemBits(h.items, ClLens(h.cl)) + rest)
         == Got(Codes(h.Lit(), h.Dist()), rest)
  {
    hide Acceptable, NumUsed, ReadLens, ItemsCodable, ItemBits, ExpandItems, ClLens;
    var cl, lens := ClLens(h.cl), ExpandItems(h.items, []).value;
    assert MaxUsed(cl) >= 0 by {
      AcceptableUse(cl);
    }
    assert ReadLens(cl, h.hlit + h.hdist, [], ItemBits(h.items, cl) + rest) == Got(lens, rest) by {
      ReadLensOf(cl, h.items, [], rest);
    }
  }

  lemma ReadCodesOf(most: nat, h: Header, rest: seq<bool>)
    requires h.Ok() && h.hdist <= most
    ensures ReadCodes(most, h.hlit, h.hdist, |h.cl|, ClBits(h.cl) + (ItemBits(h.items, ClLens(h.cl)) + rest))
         == Got(Codes(h.Lit(), h.Dist()), rest)
  {
    hide Acceptable, NumUsed, ReadCodeLengths, ItemsCodable, ItemBits, ExpandItems, ClLens, ClBits, ReadCl;
    var r4 := ItemBits(h.items, ClLens(h.cl)) + rest;
    assert ReadCl(|h.cl|, [], ClBits(h.cl) + r4) == Got(h.cl, r4) by {
      ReadClOf([], h.cl, r4);
      assert [] + h.cl == h.cl;
    }
    ReadCodeLengthsOf(h, rest);
  }

  lemma Chain5<T>(a: seq<T>, b: seq<T>, c: seq<T>, d: seq<T>, e: seq<T>, f: seq<T>)
    ensures (a + (b + (c + (d + e)))) + f == a + (b + (c + (d + (e + f))))
  {
  }

  /** The three counts at the start of a header. */
  lemma ReadCounts(most: nat, h: Header, rest: seq<bool>)
    requires h.Ok()
    ensures ReadHeader(most, h.Bits() + rest)
         == ReadCodes(most, h.hlit, h.hdist, |h.cl|, ClBits(h.cl) + (ItemBits(h.items, ClLens(h.cl)) + rest))
  {
    hide ReadCodes, ItemBits, ExpandItems, ClLens, ClBits, Acceptable, NumUsed, Take, BitsOf;
    var a, b, c := BitsOf(h.hlit - 257, 5), BitsOf(h.hdist - 1, 5), BitsOf(|h.cl| - 4, 4);
    var r3 := ClBits(h.cl) + (ItemBits(h.items, ClLens(h.cl)) + rest);
    assert h.Bits() + rest == a + (b + (c + r3)) by {
      Chain5(a, b, c, ClBits(h.cl), ItemBits(h.items, ClLens(h.cl)), rest);
    }
    assert Pow2(5) == 32 && Pow2(4) == 16;
    assert Take(a + (b + (c + r3)), 5) == Got(h.hlit - 257, b + (c + r3)) by {
      TakeOf(h.hlit - 257, 5, b + (c + r3));
    }
    assert Take(b + (c + r3), 5) == Got(h.hdist - 1, c + r3) by {
      TakeOf(h.hdist - 1, 5, c + r3);
    }
    assert Take(c + r3, 4) == Got(|h.cl| - 4, r3) by {
      TakeOf(|h.cl| - 4, 4, r3);
    }
  }

  /** A header is read as the codes it describes, or refused for its number of
      distance codes. */
  lemma ReadHeaderOf(most: nat, h: Header, rest: seq<bool>)
    requires h.Ok()
    ensures ReadHeader(most, h.Bits() + rest)
         == if h.hdist <= most then Got(Codes(h.Lit(), h.Dist()), rest) else Invalid
  {
    hide ReadHeader, Header.Ok, Header.Bits, Header.Lit, Header.Dist, ReadCl;
    ReadCounts(most, h, rest);
    if h.hdist <= most {
      ReadCodesOf(most, h, rest);
    }
  }

  lemma ReadCodesWrites(most: nat, hlit: nat, hdist: nat, n: nat, bits: seq<bool>) returns (h: Header)
    requires most <= MAX_DIST && 257 <= hlit && 1 <= hdist && 4 <= n <= 19 && ReadCodes(most, hlit, hdist, n, bits).Got?
    ensures h.Ok() && h.hlit == hlit && h.hdist == hdist <= most && |h.cl| == n
    ensures var r := ReadCodes(most, hlit, hdist, n, bits);
            r.value == Codes(h.Lit(), h.Dist())
            && bits == ClBits(h.cl) + (ItemBits(h.items, ClLens(h.cl)) + r.rest)
  {
    hide Acceptable, NumUsed, ReadLens, ItemsCodable, ItemBits, ExpandItems, ClLens, ClBits, ReadCl;
    var cl := ReadClWrites(n, [], bits);
    assert [] + cl == cl;
    var d := ReadCl(n, [], bits);
    var items := ReadLensWrites(ClLens(cl), hlit + hdist, [], d.rest);
    h := Header(hlit, hdist, cl, items);
    assert NumUsed(ClLens(cl)) > 0 by {
      AcceptableUse(ClLens(cl));
    }
  }

  lemma ReadHeaderWrites(most: nat, bits: seq<bool>) returns (h: Header)
    requires most <= MAX_DIST && ReadHeader(most, bits).Got?
    ensures h.Ok() && h.hdist <= most && ReadHeader(most, bits).value == Codes(h.Lit(), h.Dist())
    ensures bits == h.Bits() + ReadHeader(most, bits).rest
  {
    hide ReadCodes, ItemBits, ExpandItems, ClLens, ClBits, Acceptable, NumUsed, Take, ItemsCodable, BitsOf, Val,
         KraftSum, Cnt;
    var a := Take(bits, 5);
    var b := Take(a.rest, 5);
    var c := Take(b.rest, 4);
    TakeWrites(b.rest, 4);
    assert Pow2(4) == 16;
    h := ReadCodesWrites(most, 257 + a.value, 1 + b.value, 4 + c.value, c.rest);
    TakeWrites(bits, 5);
    TakeWrites(a.rest, 5);
    Chain5(BitsOf(a.value, 5), BitsOf(b.value, 5), BitsOf(c.value, 4),
           ClBits(h.cl), ItemBits(h.items, ClLens(h.cl)), ReadHeader(most, bits).rest);
  }

  // ---- the fixed codes ----

  lemma {:induction false} KraftAppend(a: seq<nat>, b: seq<nat>)
    ensures KraftSum(a + b) == KraftSum(a) + KraftSum(b)
  {
    if b == [] {
      assert a + b == a;
    } else {
      assert (a + b)[..|a + b| - 1] == a + b[..|b| - 1];
      KraftAppend(a, b[..|b| - 1]);
    }
  }

  lemma {:induction false} KraftCopies(x: nat, n: nat)
    ensures KraftSum(Copies(x, n)) == n * Share(x)
  {
    if n != 0 {
      KraftCopies(x, n - 1);
      assert Copies(x, n)[..n - 1] == Copies(x, n - 1);
    }
  }

  lemma FixedAcceptable()
    ensures Acceptable(FixedLit()) && Acceptable(FixedDist())
    ensures KraftSum(FixedLit()) == KraftSum(FixedDist()) == Pow2(MAX_BITS)
  {
    KraftCopies(8, 144);
    KraftCopies(9, 112);
    KraftCopies(7, 24);
    KraftCopies(8, 8);
    KraftCopies(5, 32);
    KraftAppend(Copies(8, 144), Copies(9, 112));
    KraftAppend(Copies(8, 144) + Copies(9, 112), Copies(7, 24));
    KraftAppend(Copies(8, 144) + Copies(9, 112) + Copies(7, 24), Copies(8, 8));
    Shares();
  }

  lemma Shares()
    ensures Share(5) == 1024 && Share(7) == 256 && Share(8) == 128 && Share(9) == 64 && Pow2(MAX_BITS) == 32768
  {
    assert Pow2(4) == 16;
    assert Pow2(6) == 64;
    assert Pow2(8) == 256;
    assert Pow2(10) == 1024;
    assert Pow2(12) == 4096;
    assert Pow2(14) == 16384;
  }

  // ---- stored blocks ----

  lemma {:induction false} Val8(v: byte)
    ensures Val(BitsOf(v as int, 8)) == v as int
  {
    ValBitsOf(v as int, 8);
    assert Pow2(8) == 256;
    LowOfSmall(v as int, 8);
  }

  lemma {:induction false} BytesOfStream(d: seq<byte>, rest: seq<bool>)
    ensures BytesOf(StreamBits(d) + rest, |d|) == d
  {
    hide Val, BitsOf;
    if d != [] {
      var bits := StreamBits(d) + rest;
      assert bits[..8] == BitsOf(d[0], 8) && bits[8..] == StreamBits(d[1..]) + rest;
      Val8(d[0]);
      BytesOfStream(d[1..], rest);
    }
  }

  lemma {:induction false} StreamOfBytes(bits: seq<bool>, n: nat)
    requires 8 * n <= |bits|
    ensures StreamBits(BytesOf(bits, n)) == bits[..8 * n]
    decreases n
  {
    hide Val;
    if n != 0 {
      StreamOfBytes(bits[8..], n - 1);
      BitsOfVal(bits[..8]);
      assert bits[..8] + bits[8..][..8 * (n - 1)] == bits[..8 * n];
    }
  }

  lemma StoredSlices(pad: seq<bool>, ln: seq<bool>, inv: seq<bool>, db: seq<bool>, rest: seq<bool>)
    requires |ln| == |inv| == 16
    ensures var bits := (pad + (ln + (inv + db))) + rest; var b := bits[|pad|..];
            b[..16] == ln && b[16..32] == inv && b[32..] == db + rest && b[32 + |db|..] == rest
  {
    var b := ln + (inv + (db + rest));
    assert (pad + (ln + (inv + db))) + rest == pad + b;
    assert (pad + b)[|pad|..] == b;
    assert b[16..32] == inv && b[32..] == db + rest && b[32 + |db|..] == rest;
  }

  lemma StoredOf(pad: seq<bool>, data: seq<byte>, rest: seq<bool>, out: seq<byte>, cap: nat)
    requires |pad| < 8 && |data| < 0x1_0000 && |rest| % 8 == 0 && |out| <= cap
    ensures StoredBlock(Stored(pad, data).Body() + rest, out, cap)
         == if |out + data| <= cap then Ok(out + data, rest) else BufErr
  {
    hide Val, BitsOf, BytesOf, StreamBits;
    var n := |data|;
    var ln, inv, db := BitsOf(n, 16), BitsOf(0xFFFF - n, 16), StreamBits(data);
    var bits := (pad + (ln + (inv + db))) + rest;
    assert bits == Stored(pad, data).Body() + rest;
    assert |bits| % 8 == |pad|;
    StoredSlices(pad, ln, inv, db, rest);
    Val16(n);
    Val16(0xFFFF - n);
    BytesOfStream(data, rest);
  }

  lemma Val16(v: nat)
    requires v < 0x1_0000
    ensures Val(BitsOf(v, 16)) == v
  {
    Pow2Of16();
    ValBitsOf(v, 16);
    LowOfSmall(v, 16);
  }

  lemma Pow2Of16()
    ensures Pow2(16) == 0x1_0000
  {
    assert Pow2(8) == 256;
    assert Pow2(12) == 4096;
  }

  lemma StoredJoins(bits: seq<bool>, p: nat, n: nat)
    requires p + 32 + n <= |bits|
    ensures var b := bits[p..];
            bits == (bits[..p] + (b[..16] + (b[16..32] + b[32..][..n]))) + b[32 + n..]
  {
  }

  lemma StoredWrites(bits: seq<bool>, out: seq<byte>, cap: nat) returns (blk: Block)
    requires |out| <= cap && StoredBlock(bits, out, cap).Ok?
    ensures blk.Stored? && blk.Ok() && |blk.pad| == |bits| % 8
    ensures var r := StoredBlock(bits, out, cap);
            |r.rest| % 8 == 0 && bits == blk.Body() + r.rest && r.out == out + blk.data
  {
    hide Val, BitsOf, BytesOf, StreamBits;
    var p := |bits| % 8;
    var b := bits[p..];
    var n := Val(b[..16]);
    Pow2Of16();
    blk := Stored(bits[..p], BytesOf(b[32..], n));
    StoredJoins(bits, p, 8 * n);
    StreamOfBytes(b[32..], n);
    BitsOfVal(b[..16]);
    BitsOfVal(b[16..32]);
  }

  // ---- whole streams ----

  /** A decoder that takes up to most distance codes takes this block. */
  predicate Takes(most: nat, blk: Block) {
    blk.Dynamic? ==> blk.header.hdist <= most
  }

  /** One block that a writer wrote decodes to its meaning, or runs out of room. */
  lemma OneBlockOf(most: nat, blk: Block, rest: seq<bool>, out: seq<byte>, cap: nat)
    requires blk.Ok() && Takes(most, blk) && |out| <= cap && blk.Apply(out).Some?
    requires blk.Stored? ==> |blk.pad| < 8 && |rest| % 8 == 0
    ensures var o := blk.Apply(out).value;
            OneBlock(most, blk.Type(), blk.Body() + rest, out, cap) == if |o| <= cap then Ok(o, rest) else BufErr
  {
    hide Acceptable, NumUsed, TokensCodable, TokenBits, ApplyTokens, FixedLit, FixedDist, Tokens, StoredBlock,
         ReadHeader;
    match blk
    case Stored(pad, data) =>
      StoredOf(pad, data, rest, out, cap);
    case Fixed(ts) =>
      FixedAcceptable();
      TokensOf(FixedLit(), FixedDist(), ts, rest, out, cap);
    case Dynamic(h, ts) =>
      var tb := TokenBits(ts, h.Lit(), h.Dist());
      assert blk.Body() + rest == h.Bits() + (tb + rest) by {
        Chain2(h.Bits(), tb, rest);
      }
      ReadHeaderOf(most, h, tb + rest);
      TokensOf(h.Lit(), h.Dist(), ts, rest, out, cap);
  }

  /** A decoded block is one that a writer can write. */
  lemma OneBlockWrites(most: nat, kind: nat, bits: seq<bool>, out: seq<byte>, cap: nat) returns (blk: Block)
    requires most <= MAX_DIST && |out| <= cap && OneBlock(most, kind, bits, out, cap).Ok?
    ensures blk.Ok() && Takes(most, blk) && blk.Type() == kind && (blk.Stored? ==> |blk.pad| == |bits| % 8)
    ensures var r := OneBlock(most, kind, bits, out, cap);
            (blk.Stored? ==> |r.rest| % 8 == 0) && bits == blk.Body() + r.rest && blk.Apply(out) == Some(r.out)
  {
    hide Acceptable, NumUsed, TokensCodable, TokenBits, ApplyTokens, FixedLit, FixedDist, Tokens, StoredBlock,
         ReadHeader;
    if kind == 0 {
      blk := StoredWrites(bits, out, cap);
    } else if kind == 1 {
      FixedAcceptable();
      var ts := TokensWrite(FixedLit(), FixedDist(), bits, out, cap);
      blk := Fixed(ts);
    } else {
      var h := ReadHeaderWrites(most, bits);
      var rest := ReadHeader(most, bits).rest;
      var ts := TokensWrite(h.Lit(), h.Dist(), rest, out, cap);
      blk := Dynamic(h, ts);
      Chain2(h.Bits(), TokenBits(ts, h.Lit(), h.Dist()), OneBlock(most, kind, bits, out, cap).rest);
    }
  }

  /** A block with too many distance codes is refused. */
  lemma OneBlockRefused(most: nat, blk: Block, rest: seq<bool>, out: seq<byte>, cap: nat)
    requires blk.Ok() && !Takes(most, blk) && |out| <= cap
    ensures OneBlock(most, blk.Type(), blk.Body() + rest, out, cap) == DataErr
  {
    hide Header.Ok, Header.Bits, TokensCodable, TokenBits, Tokens, StoredBlock, ReadHeader, Acceptable;
    var h, tb := blk.header, TokenBits(blk.tokens, blk.header.Lit(), blk.header.Dist());
    Chain2(h.Bits(), tb, rest);
    ReadHeaderOf(most, h, tb + rest);
  }

  /** Splitting the three header bits off a block. */
  lemma BlockHead(last: bool, kind: nat, body: seq<bool>, rest: seq<bool>)
    requires kind < 4
    ensures var bits := ([last] + (BitsOf(kind, 2) + body)) + rest;
            |bits| >= 3 && bits[0] == last && Val(bits[1..3]) == kind && bits[3..] == body + rest
  {
    var bits := ([last] + (BitsOf(kind, 2) + body)) + rest;
    assert bits[1..3] == BitsOf(kind, 2);
    ValBitsOf(kind, 2);
    assert Pow2(2) == 4;
    LowOfSmall(kind, 2);
    assert bits[3..] == body + rest;
  }

  lemma HeadBlock(bits: seq<bool>, body: seq<bool>, rest: seq<bool>)
    requires |bits| >= 3 && bits[3..] == body + rest
    ensures bits == ([bits[0]] + (BitsOf(Val(bits[1..3]), 2) + body)) + rest
    ensures Val(bits[1..3]) < 4
  {
    BitsOfVal(bits[1..3]);
    assert Pow2(2) == 4;
    assert bits == [bits[0]] + (bits[1..3] + bits[3..]);
  }

  lemma BlockGrows(blk: Block, out: seq<byte>)
    requires blk.Ok() && blk.Apply(out).Some?
    ensures |blk.Apply(out).value| >= |out|
  {
    hide Acceptable, NumUsed, FixedLit, FixedDist;
    match blk
    case Stored(_, _) =>
    case Fixed(ts) => ApplyTokensGrow(ts, out);
    case Dynamic(_, ts) => ApplyTokensGrow(ts, out);
  }

  /** The blocks before the first one that is refused, as an output. */
  ghost function Before(most: nat, bs: seq<Block>, out: seq<byte>): seq<byte>
    requires BlocksOk(bs) && Meaning(bs, out).Some?
  {
    if !Takes(most, bs[0]) then out
    else
      var o := bs[0].Apply(out).value;
      if |bs| == 1 then o else Before(most, bs[1..], o)
  }

  predicate TakesAll(most: nat, bs: seq<Block>) {
    forall i | 0 <= i < |bs| :: Takes(most, bs[i])
  }

  /** Every stream a writer may write, followed by anything at all: if no block has
      too many distance codes, it decodes to exactly the bytes it stands for
      whenever they fit and fails for room when they do not; else it is refused at
      the first such block, unless the room ends before. */
  lemma {:induction false} InflateReads(most: nat, bs: seq<Block>, p: nat, rest: seq<bool>, out: seq<byte>, cap: nat)
    requires BlocksOk(bs) && Aligned(bs, p) && Meaning(bs, out).Some? && |out| <= cap
    requires (p + |Stream(bs) + rest|) % 8 == 0
    ensures var o := Before(most, bs, out);
            Inflate(most, Stream(bs) + rest, out, cap)
            == if |o| > cap then BufErr else if TakesAll(most, bs) then Ok(o, rest) else DataErr
    decreases |bs|
  {
    hide Block.Ok, Block.Body, Block.Apply, OneBlock, Takes, BitsOf, Val;
    var last := |bs| == 1;
    var blk := bs[0];
    var after := if last then rest else Stream(bs[1..]) + rest;
    var bits := Stream(bs) + rest;
    assert bits == blk.Bits(last) + after by {
      if !last {
        Chain2(blk.Bits(false), Stream(bs[1..]), rest);
      }
    }
    BlockHead(last, blk.Type(), blk.Body(), after);
    if !Takes(most, blk) {
      OneBlockRefused(most, blk, after, out, cap);
    } else {
      StoredRest(blk, p, last, after);
      OneBlockOf(most, blk, after, out, cap);
      var o := blk.Apply(out).value;
      if !last {
        BeforeGrows(most, bs[1..], o);
        if |o| <= cap {
          InflateReads(most, bs[1..], p + |blk.Bits(false)|, rest, o, cap);
        }
      }
    }
  }

  lemma {:induction false} BeforeGrows(most: nat, bs: seq<Block>, out: seq<byte>)
    requires BlocksOk(bs) && Meaning(bs, out).Some?
    ensures |Before(most, bs, out)| >= |out|
  {
    hide Block.Ok, Block.Apply, Takes;
    BlockGrows(bs[0], out);
    if |bs| > 1 {
      BeforeGrows(most, bs[1..], bs[0].Apply(out).value);
    }
  }

  /** Nothing is refused: that output is the meaning. */
  lemma {:induction false} BeforeAll(most: nat, bs: seq<Block>, out: seq<byte>)
    requires BlocksOk(bs) && Meaning(bs, out).Some? && TakesAll(most, bs)
    ensures Before(most, bs, out) == Meaning(bs, out).value
  {
    hide Block.Ok, Block.Apply, Takes;
    if |bs| > 1 {
      BeforeAll(most, bs[1..], bs[0].Apply(out).value);
    }
  }

  lemma StoredRest(blk: Block, p: nat, last: bool, after: seq<bool>)
    requires blk.Ok() && (p + |blk.Bits(last) + after|) % 8 == 0
    requires blk.Stored? ==> (p + 3 + |blk.pad|) % 8 == 0
    ensures blk.Stored? ==> |after| % 8 == 0
  {
    hide Header.Ok, TokensCodable, Acceptable, FixedLit, BitsOf, StreamBits;
    if blk.Stored? {
      assert |blk.Body()| == |blk.pad| + 32 + 8 * |blk.data|;
    }
  }

  /** Whatever the decoder accepts is a stream that a writer may write, and the
      decoder's output is what that stream stands for. */
  lemma {:induction false} InflateOnlyReads(most: nat, bits: seq<bool>, p: nat, out: seq<byte>, cap: nat)
    returns (bs: seq<Block>)
    requires most <= MAX_DIST && |out| <= cap && (p + |bits|) % 8 == 0 && Inflate(most, bits, out, cap).Ok?
    ensures BlocksOk(bs) && Aligned(bs, p) && TakesAll(most, bs)
    ensures var r := Inflate(most, bits, out, cap); bits == Stream(bs) + r.rest && Meaning(bs, out) == Some(r.out)
    decreases |bits|
  {
    hide Block.Ok, Block.Body, Block.Bits, Block.Apply, OneBlock, Val, BitsOf, Takes, Stream, Meaning, Aligned;
    var last, kind := bits[0], Val(bits[1..3]);
    var r := OneBlock(most, kind, bits[3..], out, cap);
    var blk := OneBlockWrites(most, kind, bits[3..], out, cap);
    BlockWrites(bits, blk, r.rest, p);
    if last {
      bs := [blk];
      LastBlock(blk, p, out);
    } else {
      var tail := InflateOnlyReads(most, r.rest, p + |blk.Bits(false)|, r.out, cap);
      bs := [blk] + tail;
      MoreBlocks(blk, tail, p, out);
      Chain2(blk.Bits(false), Stream(tail), Inflate(most, bits, out, cap).rest);
    }
  }

  /** The bits that were read are those of the block, and what follows is aligned as it was. */
  lemma {:induction false} BlockWrites(bits: seq<bool>, blk: Block, rest: seq<bool>, p: nat)
    requires |bits| >= 3 && blk.Ok() && blk.Type() == Val(bits[1..3]) && bits[3..] == blk.Body() + rest
             && (p + |bits|) % 8 == 0
    requires blk.Stored? ==> |blk.pad| == |bits[3..]| % 8
    ensures bits == blk.Bits(bits[0]) + rest && |rest| < |bits|
    ensures blk.Stored? ==> |blk.pad| < 8 && (p + 3 + |blk.pad|) % 8 == 0
    ensures (p + |blk.Bits(bits[0])| + |rest|) % 8 == 0
  {
    hide Block.Ok, Block.Body, Val, BitsOf;
    HeadBlock(bits, blk.Body(), rest);
  }

  lemma {:induction false} LastBlock(blk: Block, p: nat, out: seq<byte>)
    requires blk.Ok() && (blk.Stored? ==> |blk.pad| < 8 && (p + 3 + |blk.pad|) % 8 == 0)
    ensures BlocksOk([blk]) && Aligned([blk], p) && Stream([blk]) == blk.Bits(true)
            && Meaning([blk], out) == blk.Apply(out)
  {
    hide Block.Ok, Block.Bits, Block.Apply;
  }

  lemma {:induction false} MoreBlocks(blk: Block, tail: seq<Block>, p: nat, out: seq<byte>)
    requires blk.Ok() && BlocksOk(tail) && (blk.Stored? ==> |blk.pad| < 8 && (p + 3 + |blk.pad|) % 8 == 0)
    requires Aligned(tail, p + |blk.Bits(false)|) && blk.Apply(out).Some?
    ensures var bs := [blk] + tail;
            && BlocksOk(bs) && Aligned(bs, p) && Stream(bs) == blk.Bits(false) + Stream(tail)
            && Meaning(bs, out) == Meaning(tail, blk.Apply(out).value)
  {
    hide Block.Ok, Block.Bits, Block.Apply;
    var bs := [blk] + tail;
    assert bs[0] == blk && bs[1..] == tail;
  }

  /** The bytes of source begin with a compressed stream of RFC 1951 that stands for out. */
  ghost predicate StandsFor(source: seq<byte>, out: seq<byte>) {
    exists bs: seq<Block> :: IsStreamFor(bs, source, out)
  }

  ghost predicate IsStreamFor(bs: seq<Block>, source: seq<byte>, out: seq<byte>) {
    BlocksOk(bs) && Aligned(bs, 0) && Stream(bs) <= StreamBits(source) && Meaning(bs, []) == Some(out)
  }

  /** And none of its headers has more than most distance codes. */
  ghost predicate StandsWithin(most: nat, source: seq<byte>, out: seq<byte>) {
    exists bs: seq<Block> :: IsStreamFor(bs, source, out) && TakesAll(most, bs)
  }

  lemma AcceptedStandsFor(most: nat, source: seq<byte>, cap: nat)
    requires most <= MAX_DIST && Inflate(most, StreamBits(source), [], cap).Ok?
    ensures StandsWithin(most, source, Inflate(most, StreamBits(source), [], cap).out)
  {
    hide BlocksOk, Aligned, Inflate, StreamBits, Stream, Meaning, TakesAll;
    var bits := StreamBits(source);
    var r := Inflate(most, bits, [], cap);
    var bs := InflateOnlyReads(most, bits, 0, [], cap);
    assert IsStreamFor(bs, source, r.out);
  }

  /** What the decoder answers on a stream of RFC 1951. */
  lemma OnStream(most: nat, bs: seq<Block>, source: seq<byte>, out: seq<byte>, cap: nat)
    requires IsStreamFor(bs, source, out)
    ensures var o, r := Before(most, bs, []), Inflate(most, StreamBits(source), [], cap);
            && (|o| > cap ==> r == BufErr)
            && (|o| <= cap && !TakesAll(most, bs) ==> r == DataErr)
            && (|o| <= cap && TakesAll(most, bs) ==> r.Ok? && r.out == o == out)
            && (TakesAll(most, bs) ==> o == out)
  {
    hide BlocksOk, Aligned, Inflate, StreamBits, Stream, Meaning, TakesAll, Before;
    var bits := StreamBits(source);
    var rest := bits[|Stream(bs)|..];
    assert bits == Stream(bs) + rest;
    InflateReads(most, bs, 0, rest, [], cap);
    if TakesAll(most, bs) {
      BeforeAll(most, bs, []);
    }
  }

  /** Every block that may be written has at most 32 distance codes. */
  lemma TakesEvery(bs: seq<Block>)
    requires BlocksOk(bs)
    ensures TakesAll(MAX_DIST, bs)
  {
    hide Acceptable, ItemsCodable, ExpandItems, TokensCodable, FixedLit;
  }

  lemma StandsTaken(source: seq<byte>, out: seq<byte>)
    requires StandsFor(source, out)
    ensures StandsWithin(MAX_DIST, source, out)
  {
    hide Aligned, Meaning, StreamBits, Stream, BlocksOk, TakesAll;
    var bs: seq<Block> :| IsStreamFor(bs, source, out);
    TakesEvery(bs);
  }

  lemma WithinDecodes(most: nat, source: seq<byte>, out: seq<byte>, cap: nat)
    requires StandsWithin(most, source, out)
    ensures var r := Inflate(most, StreamBits(source), [], cap);
            if |out| <= cap then r.Ok? && r.out == out else r == BufErr
  {
    hide IsStreamFor, Inflate, StreamBits, TakesAll, Before;
    var bs: seq<Block> :| IsStreamFor(bs, source, out) && TakesAll(most, bs);
    OnStream(most, bs, source, out, cap);
  }

  /** No input stands for two different outputs. */
  lemma MeaningIsUnique(source: seq<byte>, a: seq<byte>, b: seq<byte>)
    requires StandsFor(source, a) && StandsFor(source, b)
    ensures a == b
  {
    hide StandsFor, StandsWithin, Inflate, StreamBits;
    StandsTaken(source, a);
    StandsTaken(source, b);
    WithinDecodes(MAX_DIST, source, a, |a| + |b|);
    WithinDecodes(MAX_DIST, source, b, |a| + |b|);
  }

  /** A decoder accepts exactly the streams of RFC 1951 none of whose headers has
      more distance codes than it takes, with exactly their meaning; a stream with
      more is refused even though it stands for bytes. */
  lemma AcceptsExactlyRfc1951(most: nat, source: seq<byte>, cap: nat)
    requires most <= MAX_DIST
    ensures var r := Inflate(most, StreamBits(source), [], cap); r.Ok? ==> StandsWithin(most, source, r.out)
    ensures forall out | StandsWithin(most, source, out) ::
              var r := Inflate(most, StreamBits(source), [], cap);
              if |out| <= cap then r.Ok? && r.out == out else r == BufErr
    ensures forall out | StandsFor(source, out) && !StandsWithin(most, source, out) ::
              var r := Inflate(most, StreamBits(source), [], cap); r == DataErr || r == BufErr
  {
    hide StandsFor, StandsWithin, Inflate, StreamBits;
    if Inflate(most, StreamBits(source), [], cap).Ok? {
      AcceptedStandsFor(most, source, cap);
    }
    forall out | StandsWithin(most, source, out)
      ensures var r := Inflate(most, StreamBits(source), [], cap);
              if |out| <= cap then r.Ok? && r.out == out else r == BufErr
    {
      WithinDecodes(most, source, out, cap);
    }
    forall out | StandsFor(source, out) && !StandsWithin(most, source, out)
      ensures var r := Inflate(most, StreamBits(source), [], cap); r == DataErr || r == BufErr
    {
      RefusedBeyond(most, source, out, cap);
    }
  }

  lemma RefusedBeyond(most: nat, source: seq<byte>, out: seq<byte>, cap: nat)
    requires StandsFor(source, out) && !StandsWithin(most, source, out)
    ensures var r := Inflate(most, StreamBits(source), [], cap); r == DataErr || r == BufErr
  {
    hide IsStreamFor, Inflate, StreamBits, TakesAll, Before;
    var bs: seq<Block> :| IsStreamFor(bs, source, out);
    OnStream(most, bs, source, out, cap);
  }

  function Flatten(chunks: seq<seq<byte>>): seq<byte> {
    if chunks == [] then [] else chunks[0] + Flatten(chunks[1..])
  }

  function StoredChunks(chunks: seq<seq<byte>>): (bs: seq<Block>)
    ensures |bs| == |chunks|
  {
    seq(|chunks|, i requires 0 <= i < |chunks| => Stored(Copies(false, 5), chunks[i]))
  }

  /** Any byte string, split into stored blocks in any way, decodes to itself. */
  lemma {:induction false} StoredRoundTrip(chunks: seq<seq<byte>>, out: seq<byte>, cap: nat)
    requires chunks != [] && forall i | 0 <= i < |chunks| :: |chunks[i]| < 0x1_0000
    requires |out + Flatten(chunks)| <= cap
    ensures BlocksOk(StoredChunks(chunks))
    ensures Inflate(DIST_TAKEN, Stream(StoredChunks(chunks)), out, cap) == Ok(out + Flatten(chunks), [])
  {
    var bs := StoredChunks(chunks);
    assert BlocksOk(bs);
    StoredChunksMean(chunks, out, 0);
    assert Stream(bs) + [] == Stream(bs);
    InflateReads(DIST_TAKEN, bs, 0, [], out, cap);
    BeforeAll(DIST_TAKEN, bs, out);
  }

  lemma {:induction false} StoredChunksMean(chunks: seq<seq<byte>>, out: seq<byte>, p: nat)
    requires chunks != [] && forall i | 0 <= i < |chunks| :: |chunks[i]| < 0x1_0000
    requires p % 8 == 0
    ensures var bs := StoredChunks(chunks);
            BlocksOk(bs) && Aligned(bs, p) && Meaning(bs, out) == Some(out + Flatten(chunks)) && |Stream(bs)| % 8 == 0
  {
    hide Block.Ok, Block.Bits, Block.Apply, Copies, Aligned, Stream, Meaning;
    var blk, n := Stored(Copies(false, 5), chunks[0]), |chunks[0]|;
    StoredChunk(blk, out, p);
    if |chunks| > 1 {
      StoredChunksMean(chunks[1..], out + chunks[0], p + |blk.Bits(false)|);
      assert StoredChunks(chunks) == [blk] + StoredChunks(chunks[1..]);
      MoreBlocks(blk, StoredChunks(chunks[1..]), p, out);
      assert (out + chunks[0]) + Flatten(chunks[1..]) == out + Flatten(chunks);
    } else {
      assert StoredChunks(chunks) == [blk];
      LastBlock(blk, p, out);
      assert Flatten(chunks[1..]) == [];
      assert Flatten(chunks) == chunks[0];
    }
  }

  lemma {:induction false} StoredChunk(blk: Block, out: seq<byte>, p: nat)
    requires blk.Stored? && |blk.pad| == 5 && |blk.data| < 0x1_0000 && p % 8 == 0
    ensures blk.Ok() && (p + 3 + |blk.pad|) % 8 == 0 && blk.Apply(out) == Some(out + blk.data)
    ensures |blk.Bits(true)| % 8 == 0 && |blk.Bits(false)| % 8 == 0 && (p + |blk.Bits(false)|) % 8 == 0
  {
    hide Block.Bits, Block.Body;
    StoredSize(blk, true);
    StoredSize(blk, false);
    Eights(p, |blk.data|);
  }

  lemma {:induction false} Eights(p: nat, n: nat)
    requires p % 8 == 0
    ensures (p + 3 + 5) % 8 == 0 && (40 + 8 * n) % 8 == 0 && (p + (40 + 8 * n)) % 8 == 0
  {
  }

  lemma StoredSize(blk: Block, last: bool)
    requires blk.Stored? && blk.Ok() && |blk.pad| == 5
    ensures |blk.Bits(last)| == 40 + 8 * |blk.data|
  {
    hide BitsOf, StreamBits;
    assert |blk.Body()| == 37 + 8 * |blk.data|;
  }
}
