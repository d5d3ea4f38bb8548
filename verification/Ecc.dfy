/** The error-correcting code of os/kernel/lardsec.c: the exclusive or of the
    positions of all set bits, and their parity. */
module Ecc {
  import opened BitOps

  const BLOCK: nat := 512
  const POSITION_BITS: nat := 13

  /** Exclusive or of the positions, counted from 1, of the set bits. */
  function Syndrome(bits: seq<bool>): nat {
    if bits == [] then 0
    else
      var n := |bits|;
      var s := Syndrome(bits[..n - 1]);
      if bits[n - 1] then Xor(s, n) else s
  }

  function Parity(bits: seq<bool>): (p: nat)
    ensures p <= 1
  {
    if bits == [] then 0
    else var p := Parity(bits[..|bits| - 1]); if bits[|bits| - 1] then 1 - p else p
  }

  /** (parity << 16) | (syndrome & 0x1FFF); the two parts share no bit. */
  function RecordOf(parity: nat, syndrome: nat): nat {
    Low(syndrome, POSITION_BITS) + Shl(parity, 16)
  }

  function EccOf(data: seq<byte>): nat {
    RecordOf(Parity(StreamBits(data)), Syndrome(StreamBits(data)))
  }

  lemma FlippedByte(v: byte, b: nat)
    requires b < 8
    ensures Xor(v, Shl(1, b)) < 256
  {
    assert Shl(1, b) < 256 == Pow2(8);
    XorBound(v, Shl(1, b), 8);
  }

  function FlipBit(data: seq<byte>, k: nat): (r: seq<byte>)
    requires k < 8 * |data|
    ensures |r| == |data|
  {
    FlippedByte(data[k / 8], k % 8);
    data[k / 8 := Xor(data[k / 8], Shl(1, k % 8))]
  }

  /** What ecc_fix_block answers and leaves behind. */
  function FixBlock(data: seq<byte>, expected: nat): (r: (int, seq<byte>))
    ensures |r.1| == |data| && -1 <= r.0 <= 1
  {
    var got := EccOf(data);
    var syndrome := Low(Xor(expected, got), POSITION_BITS);
    var parity := Low(Shr(Xor(expected, got), 16), 1);
    if got == expected then (0, data)
    else if parity == 1 && 1 <= syndrome <= 8 * |data| then
      var d := FlipBit(data, syndrome - 1);
      (if EccOf(d) == expected then 1 else -1, d)
    else (-1, data)
  }

  // ---- One flipped bit changes the record by its position ----

  lemma XorSwap(a: nat, b: nat, c: nat)
    ensures Xor(Xor(a, b), c) == Xor(Xor(a, c), b)
  {
    XorAssociates(a, b, c);
    XorAssociates(a, c, b);
    XorCommutes(b, c);
  }

  lemma {:induction false} SyndromeFlip(bits: seq<bool>, k: nat)
    requires k < |bits|
    ensures Syndrome(bits[k := !bits[k]]) == Xor(Syndrome(bits), k + 1)
    ensures Parity(bits[k := !bits[k]]) == 1 - Parity(bits)
    decreases |bits|
  {
    var n := |bits|;
    var front, flipped := bits[..n - 1], bits[k := !bits[k]];
    if k == n - 1 {
      assert flipped[..n - 1] == front;
      XorInvolution(Syndrome(front), n);
    } else {
      SyndromeFlip(front, k);
      assert flipped[..n - 1] == front[k := !front[k]];
      XorSwap(Syndrome(front), k + 1, n);
    }
  }

  lemma {:induction false} SyndromeBound(bits: seq<bool>)
    requires |bits| <= 8 * BLOCK
    ensures Syndrome(bits) < Pow2(POSITION_BITS)
  {
    assert Pow2(POSITION_BITS) == 8192;
    if bits != [] {
      SyndromeBound(bits[..|bits| - 1]);
      XorBound(Syndrome(bits[..|bits| - 1]), |bits|, POSITION_BITS);
    }
  }

  lemma {:induction false} OneShifted(b: nat)
    ensures Shl(1, b) % 2 == (if b == 0 then 1 else 0) && Shl(1, b) / 2 == if b == 0 then 0 else Shl(1, b - 1)
  {
  }

  lemma {:induction false} FlipInByte(v: nat, b: nat, n: nat)
    requires b < n
    ensures BitsOf(Xor(v, Shl(1, b)), n) == BitsOf(v, n)[b := !BitsOf(v, n)[b]]
    decreases n
  {
    hide Xor, Shl;
    var x := Xor(v, Shl(1, b));
    XorHalves(v, Shl(1, b));
    OneShifted(b);
    if b == 0 {
      XorZero(v / 2);
      assert x / 2 == v / 2;
    } else {
      FlipInByte(v / 2, b - 1, n - 1);
      assert x % 2 == v % 2;
    }
  }

  lemma {:induction false} FlipInStream(data: seq<byte>, k: nat)
    requires k < 8 * |data|
    ensures StreamBits(FlipBit(data, k)) == StreamBits(data)[k := !StreamBits(data)[k]]
    decreases |data|
  {
    hide BitsOf, Xor, Shl;
    var flipped := FlipBit(data, k);
    if k < 8 {
      FlipInByte(data[0], k, 8);
      assert flipped[1..] == data[1..];
    } else {
      FlipInStream(data[1..], k - 8);
      assert flipped[1..] == FlipBit(data[1..], k - 8);
    }
  }

  lemma {:induction false} LowOfSum(s: nat, k: nat, m: nat, n: nat)
    requires n <= m
    ensures Low(s + Shl(k, m), n) == Low(s, n)
    decreases n
  {
    if n != 0 {
      LowOfSum(s / 2, k, m - 1, n - 1);
      assert (s + Shl(k, m)) / 2 == s / 2 + Shl(k, m - 1);
    }
  }

  lemma {:induction false} ShrOfSum(s: nat, k: nat, m: nat)
    requires s < Pow2(m)
    ensures Shr(s + Shl(k, m), m) == k
    decreases m
  {
    if m != 0 {
      ShrOfSum(s / 2, k, m - 1);
      assert (s + Shl(k, m)) / 2 == s / 2 + Shl(k, m - 1);
    }
  }

  lemma {:induction false} RecordParts(parity: nat, syndrome: nat)
    requires parity <= 1 && syndrome < Pow2(POSITION_BITS)
    ensures Low(RecordOf(parity, syndrome), POSITION_BITS) == syndrome && Shr(RecordOf(parity, syndrome), 16) == parity
  {
    hide Low, Shr, Shl, Pow2;
    LowOfSmall(syndrome, POSITION_BITS);
    LowOfSum(syndrome, parity, 16, POSITION_BITS);
    Pow2Monotone(POSITION_BITS, 16);
    ShrOfSum(syndrome, parity, 16);
  }

  /** The two parts of the difference between two records. */
  lemma DifferenceParts(a: seq<byte>, b: seq<byte>)
    requires |a| <= BLOCK && |b| <= BLOCK
    ensures var x := Xor(EccOf(a), EccOf(b));
            && Low(x, POSITION_BITS) == Xor(Syndrome(StreamBits(a)), Syndrome(StreamBits(b)))
            && Shr(x, 16) == Xor(Parity(StreamBits(a)), Parity(StreamBits(b)))
  {
    SyndromeBound(StreamBits(a));
    SyndromeBound(StreamBits(b));
    hide Syndrome, Parity, Low, Shr, Xor, RecordOf;
    RecordParts(Parity(StreamBits(a)), Syndrome(StreamBits(a)));
    RecordParts(Parity(StreamBits(b)), Syndrome(StreamBits(b)));
    XorLow(EccOf(a), EccOf(b), POSITION_BITS);
    XorShr(EccOf(a), EccOf(b), 16);
  }

  lemma FlipTwice(data: seq<byte>, k: nat)
    requires k < 8 * |data|
    ensures FlipBit(FlipBit(data, k), k) == data
  {
    XorInvolution(data[k / 8], Shl(1, k % 8));
  }

  lemma ParityDiffers(p: nat)
    requires p <= 1
    ensures Xor(p, 1 - p) == 1 && Xor(p, p) == 0 && Low(1, 1) == 1 && Low(0, 1) == 0
  {
  }

  lemma {:induction false} XorCancel(a: nat, b: nat)
    ensures Xor(a, Xor(a, b)) == b
  {
    XorAssociates(a, a, b);
    XorSelf(a);
    XorZero(b);
  }

  /** A single flipped bit is found and put right. */
  lemma SingleFlipRepaired(data: seq<byte>, k: nat)
    requires |data| <= BLOCK && k < 8 * |data|
    ensures FixBlock(FlipBit(data, k), EccOf(data)) == (1, data)
  {
    hide Syndrome, Parity, FlipBit, StreamBits, RecordOf, Low, Shr, Xor, EccOf;
    var d := FlipBit(data, k);
    var bits := StreamBits(data);
    FlipInStream(data, k);
    SyndromeFlip(bits, k);
    DifferenceParts(data, d);
    XorCancel(Syndrome(bits), k + 1);
    ParityDiffers(Parity(bits));
    FlipTwice(data, k);
    XorSelf(EccOf(data));
    assert Shr(Xor(EccOf(data), EccOf(d)), 16) == 1;
    ShrZero(16);
  }

  lemma {:induction false} ShrZero(n: nat)
    ensures Shr(0, n) == 0
  {
    if n != 0 {
      ShrZero(n - 1);
    }
  }

  /** Two flipped bits are reported, and the block is left as it is. */
  lemma DoubleFlipReported(data: seq<byte>, i: nat, j: nat)
    requires |data| <= BLOCK && i < 8 * |data| && j < 8 * |data| && i != j
    ensures var d := FlipBit(FlipBit(data, i), j); FixBlock(d, EccOf(data)) == (-1, d)
  {
    hide *;
    var d1 := FlipBit(data, i);
    var d := FlipBit(d1, j);
    var bits := StreamBits(data);
    FlipInStream(data, i);
    FlipInStream(d1, j);
    SyndromeFlip(bits, i);
    SyndromeFlip(StreamBits(d1), j);
    DifferenceParts(data, d);
    var s := Syndrome(bits);
    XorAssociates(s, i + 1, j + 1);
    XorCancel(s, Xor(i + 1, j + 1));
    ParityDiffers(Parity(bits));
    LowZero(POSITION_BITS);
    if EccOf(d) == EccOf(data) {
      XorSelf(EccOf(data));
      XorZeroMeansEqual(i + 1, j + 1);
    }
    NotFixed(d, EccOf(data));
  }

  lemma {:induction false} LowZero(n: nat)
    ensures Low(0, n) == 0
  {
    if n != 0 {
      LowZero(n - 1);
    }
  }

  lemma NotFixed(data: seq<byte>, expected: nat)
    requires EccOf(data) != expected && Shr(Xor(expected, EccOf(data)), 16) == 0
    ensures FixBlock(data, expected) == (-1, data)
  {
    LowZero(1);
  }

  lemma IntactAccepted(data: seq<byte>)
    ensures FixBlock(data, EccOf(data)) == (0, data)
  {
  }

  // ---- The loops ----

  lemma {:induction false} BitAt(data: seq<byte>, i: nat, b: nat)
    requires i < |data| && b < 8
    ensures StreamBits(data)[8 * i + b] == BitsOf(data[i], 8)[b]
  {
    hide BitsOf;
    if i > 0 {
      BitAt(data[1..], i - 1, b);
      assert StreamBits(data)[8 * i + b] == StreamBits(data[1..])[8 * (i - 1) + b];
    }
  }

  lemma OneMoreBit(bits: seq<bool>, n: nat)
    requires n < |bits|
    ensures Syndrome(bits[..n + 1]) == (if bits[n] then Xor(Syndrome(bits[..n]), n + 1) else Syndrome(bits[..n]))
    ensures Parity(bits[..n + 1]) == if bits[n] then 1 - Parity(bits[..n]) else Parity(bits[..n])
  {
    assert bits[..n + 1][..n] == bits[..n];
  }

  /** ecc_block. */
  method EccBlock(data: array<byte>, from: nat, size: nat) returns (e: nat)
    requires from + size <= data.Length
    ensures e == EccOf(data[from..from + size])
  {
    hide Syndrome, Parity, StreamBits, BitsOf, Xor;
    ghost var s := data[from..from + size];
    ghost var bits := StreamBits(s);
    var syndrome, parity := 0, 0;
    SyndromeOfNone();
    assert bits[..0] == [];
    for i := 0 to size
      invariant syndrome == Syndrome(bits[..8 * i]) && parity == Parity(bits[..8 * i])
    {
      syndrome, parity := EccByte(data[from + i], i, s, bits, syndrome, parity);
    }
    assert bits[..8 * size] == bits;
    e := RecordOf(parity, syndrome);
  }

  /** The eight bits of byte i. */
  method EccByte(v: byte, i: nat, ghost s: seq<byte>, ghost bits: seq<bool>, syndrome: nat, parity: nat)
    returns (syndrome': nat, parity': nat)
    requires i < |s| && s[i] == v && bits == StreamBits(s)
    requires syndrome == Syndrome(bits[..8 * i]) && parity == Parity(bits[..8 * i])
    ensures syndrome' == Syndrome(bits[..8 * i + 8]) && parity' == Parity(bits[..8 * i + 8])
  {
    hide Syndrome, Parity, StreamBits, BitsOf, Xor;
    syndrome', parity' := syndrome, parity;
    for b := 0 to 8
      invariant syndrome' == Syndrome(bits[..8 * i + b]) && parity' == Parity(bits[..8 * i + b])
    {
      BitAt(s, i, b);
      OneMoreBit(bits, 8 * i + b);
      if BitsOf(v, 8)[b] {
        syndrome' := Xor(syndrome', i * 8 + b + 1);
        parity' := 1 - parity';
      }
    }
  }

  lemma SyndromeOfNone()
    ensures Syndrome([]) == 0 && Parity([]) == 0
  {
  }

  /** ecc_fix_block, in place. */
  method FixInPlace(data: array<byte>, from: nat, size: nat, expected: nat) returns (r: int)
    requires from + size <= data.Length
    modifies data
    ensures (r, data[from..from + size]) == FixBlock(old(data[from..from + size]), expected)
    ensures data[..from] == old(data[..from]) && data[from + size..] == old(data[from + size..])
  {
    hide EccOf, Xor, Low, Shr;
    var got := EccBlock(data, from, size);
    var syndrome := Low(Xor(expected, got), POSITION_BITS);
    var parity := Low(Shr(Xor(expected, got), 16), 1);
    if got == expected {
      return 0;
    }
    if parity == 1 && 1 <= syndrome <= size * 8 {
      ghost var s := data[from..from + size];
      var k := syndrome - 1;
      FlippedByte(data[from + k / 8], k % 8);
      data[from + k / 8] := Xor(data[from + k / 8], Shl(1, k % 8));
      assert data[from..from + size] == FlipBit(s, k);
      got := EccBlock(data, from, size);
      return if got == expected then 1 else -1;
    }
    return -1;
  }

  /** The record of a block with a single bit set: its position, counted from 1 with the lowest
      bit of the first byte, and bit 16 for the odd number of bits. */
  lemma {:induction false} RecordOfOneBit(n: nat, k: nat)
    requires n <= BLOCK && k < 8 * n
    ensures EccOf(Blank(n)) == 0 && EccOf(FlipBit(Blank(n), k)) == 65536 + k + 1
  {
    hide FlipBit, Syndrome, Parity, StreamBits, Xor, RecordOf, Blank;
    var data := Blank(n);
    var bits := StreamBits(data);
    BlankBits(n);
    NoBits(bits);
    FlipInStream(data, k);
    SyndromeFlip(bits, k);
    XorZero(k + 1);
    OneBitRecord(k + 1);
  }

  function Blank(n: nat): (s: seq<byte>)
    ensures |s| == n && forall i | 0 <= i < n :: s[i] == 0
  {
    seq(n, _ => 0)
  }

  lemma {:induction false} BlankBits(n: nat)
    ensures forall i | 0 <= i < 8 * n :: !StreamBits(Blank(n))[i]
  {
    if n > 0 {
      BlankBits(n - 1);
      ZeroBits(8);
      assert Blank(n)[1..] == Blank(n - 1);
    }
  }

  lemma {:induction false} ZeroBits(n: nat)
    ensures forall i | 0 <= i < n :: !BitsOf(0, n)[i]
  {
    if n > 0 {
      ZeroBits(n - 1);
    }
  }

  lemma {:induction false} NoBits(bits: seq<bool>)
    requires forall i | 0 <= i < |bits| :: !bits[i]
    ensures Syndrome(bits) == 0 && Parity(bits) == 0
  {
    if bits != [] {
      NoBits(bits[..|bits| - 1]);
    }
  }

  lemma {:induction false} OneBitRecord(position: nat)
    requires position <= 8 * BLOCK
    ensures RecordOf(1, position) == 65536 + position && RecordOf(0, 0) == 0
  {
    assert Pow2(8) == 256 && Pow2(POSITION_BITS) == 8192;
    LowOfSmall(position, POSITION_BITS);
    LowOfSmall(0, POSITION_BITS);
    ShiftedParity(1);
    ShiftedParity(0);
  }

  lemma ShiftedParity(p: nat)
    ensures Shl(p, 16) == 65536 * p
  {
    ShlFour(p, 0);
    ShlFour(p, 4);
    ShlFour(p, 8);
    ShlFour(p, 12);
  }
}
