/** Sealed media images of os/kernel/lardsec.c on byte strings. */
module LardSecSpec {
  import opened BitOps
  import opened Bytes
  import opened Ecc

  const MAGIC: word := 0x4345534C
  const HEADER: nat := 512
  const RECORDS_AT: nat := 64
  const MAX_BLOCKS: nat := 32

  type Key = k: seq<word> | |k| == 4 witness [0, 0, 0, 0]

  /** The copy of the records that the kernel keeps in memory. */
  datatype Mirror = NoMirror | Mirror(drive: byte, lba: word, used: word, hash: word, records: seq<nat>)

  datatype Config = Config(key: Key, keyHash: word, eccOn: bool, ramOn: bool, storageOn: bool, mirror: Mirror)

  // ---- The key stream ----

  function Rotl(v: word, n: nat): nat
    requires 1 <= n <= 32
  {
    Or(Low(Shl(v, n), 32), Shr(v, 32 - n))
  }

  function Mix32(v: nat): nat {
    var a := Xor(v, Shr(v, 16)) * 0x7FEB352D % NO_WRAP;
    var b := Xor(a, Shr(a, 15)) * 0x846CA68B % NO_WRAP;
    var c := Xor(b, Shr(b, 16));
    if c == 0 then 0xA5A55A5A else c
  }

  function StreamWord(key: Key, drive: byte, lba: word, index: nat): nat {
    var v := Xor(Xor(Xor(key[index % 4], drive as int * 0x1000000), lba as int * 0x9E3779B9 % NO_WRAP),
        index * 0x85EBCA6B % NO_WRAP);
    Mix32(Xor(v, Rotl(key[(index + 1) % 4], index % 16 + 1)))
  }

  function StreamByte(key: Key, drive: byte, lba: word, i: nat): byte {
    assert Pow2(8) == 256;
    Low(Shr(StreamWord(key, drive, lba, i / 4), i % 4 * 8), 8)
  }

  /** crypt_payload: the same operation seals and opens. */
  function Crypt(key: Key, drive: byte, lba: word, s: seq<byte>): (r: seq<byte>)
    ensures |r| == |s|
  {
    seq(|s|, i requires 0 <= i < |s| => XorByte(s[i], StreamByte(key, drive, lba, i)))
  }

  function ScrubByte(key: Key, drive: byte, lba: word, index: nat, shift: nat): byte {
    assert Pow2(8) == 256;
    Low(Shr(StreamWord(key, drive, lba, index), shift), 8)
  }

  /** The fill behind the payload. */
  function Scrub(key: Key, drive: byte, lba: word, start: nat, n: nat): (r: seq<byte>)
    ensures |r| == n
  {
    seq(n, (i: nat) => ScrubByte(key, drive, XorWord(lba, 0x5EC), start + i / 4, i % 4 * 8))
  }

  // ---- Sealing ----

  /** image_hash never answers 0. */
  function ImageHash(s: seq<byte>): word {
    if Hash(s) == 0 then 1 else Hash(s)
  }

  function Blocks(used: nat): nat {
    (used + 511) / 512
  }

  /** Where block i of used bytes ends. */
  function BlockEnd(used: nat, i: nat): (e: nat)
    ensures e <= used
  {
    if BLOCK * i + BLOCK <= used then BLOCK * i + BLOCK else used
  }

  function BlockAt(s: seq<byte>, i: nat): (b: seq<byte>)
    requires BLOCK * i <= |s|
    ensures |b| <= BLOCK
  {
    s[BLOCK * i..BlockEnd(|s|, i)]
  }

  function RecordWord(data: seq<byte>): word
    requires |data| <= BLOCK
  {
    EccBound(data);
    EccOf(data)
  }

  lemma EccBound(data: seq<byte>)
    requires |data| <= BLOCK
    ensures EccOf(data) < NO_WRAP
  {
    var p := Parity(StreamBits(data));
    ShlBound(p, 16, 1);
    assert Pow2(POSITION_BITS) == 8192 && Pow2(1) == 2 && Pow2(17) == 131072 && Pow2(16) == 65536;
    hide Low;
  }

  /** The records of the first n blocks. */
  function Records(s: seq<byte>, n: nat): (r: seq<word>)
    requires n <= Blocks(|s|)
    ensures |r| == n
  {
    if n == 0 then [] else Records(s, n - 1) + [RecordWord(BlockAt(s, n - 1))]
  }

  function WordBytes(ws: seq<word>): (r: seq<byte>)
    ensures |r| == 4 * |ws|
  {
    if ws == [] then [] else WordBytes(ws[..|ws| - 1]) + W32(ws[|ws| - 1])
  }

  function Flags(c: Config): word {
    (if c.eccOn && c.storageOn then 1 else 0) + (if c.eccOn && c.ramOn then 2 else 0)
  }

  function HeaderWords(c: Config, drive: byte, lba: word, plain: seq<byte>): (r: seq<word>)
    requires |plain| < NO_WRAP
    ensures |r| == 9
  {
    [MAGIC, 1, Flags(c), drive, lba, |plain|, c.keyHash, ImageHash(plain), Blocks(|plain|)]
  }

  function StoredRecords(c: Config, plain: seq<byte>): (r: seq<word>)
    ensures |r| <= Blocks(|plain|)
  {
    if c.eccOn && c.storageOn then Records(plain, Blocks(|plain|)) else []
  }

  predicate Sealable(plain: seq<byte>, size: nat) {
    |plain| + HEADER <= size < NO_WRAP && Blocks(|plain|) <= MAX_BLOCKS
  }

  /** What lardsec_seal_media_image writes for the used bytes plain. */
  function Seal(c: Config, drive: byte, lba: word, plain: seq<byte>, size: nat): (r: seq<byte>)
    requires Sealable(plain, size)
    ensures |r| == size
  {
    var records := WordBytes(StoredRecords(c, plain));
    WordBytes(HeaderWords(c, drive, lba, plain)) + Zeros(28) + records + Zeros(448 - |records|)
    + Crypt(c.key, drive, lba, plain) + Scrub(c.key, drive, lba, |plain| / 4, size - HEADER - |plain|)
  }

  // ---- Opening ----

  function LowByte(w: word): byte {
    w % 256
  }

  lemma LowByteOf(b: byte)
    ensures LowByte(b) == b
  {
  }

  datatype Repaired = Repaired(ok: bool, data: seq<byte>, fixed: nat)

  /** The repair loop after n rounds. */
  function Repair(s: seq<byte>, records: seq<nat>, n: nat): (r: Repaired)
    requires n <= |records|
    ensures |r.data| == |s|
  {
    if n == 0 then Repaired(true, s, 0)
    else
      var p := Repair(s, records, n - 1);
      if !p.ok || BLOCK * (n - 1) >= |s| then p
      else
        var (r, b) := FixBlock(BlockAt(p.data, n - 1), records[n - 1]);
        Repaired(r >= 0, Splice(p.data, BLOCK * (n - 1), b), p.fixed + if r > 0 then 1 else 0)
  }

  function MirrorMatches(c: Config, drive: byte, lba: word, used: word, hash: word, blocks: word): bool {
    c.eccOn && c.ramOn && c.mirror.Mirror? && c.mirror.drive == drive && c.mirror.lba == lba && c.mirror.used == used
    && c.mirror.hash == hash && |c.mirror.records| == blocks <= MAX_BLOCKS
  }

  function ReadWords(s: seq<byte>, at: nat, n: nat): (r: seq<word>)
    requires at + 4 * n <= |s|
    ensures |r| == n
  {
    if n == 0 then [] else ReadWords(s, at, n - 1) + [R32(s, at + 4 * (n - 1))]
  }

  /** The records the repair loop works with, if it runs. */
  function RecordsFor(c: Config, sealed: seq<byte>): seq<nat>
    requires |sealed| >= HEADER
  {
    var flags, blocks := R32(sealed, 8), R32(sealed, 32);
    var match_ := MirrorMatches(c, LowByte(R32(sealed, 12)), R32(sealed, 16), R32(sealed, 20), R32(sealed, 28), blocks);
    if !c.eccOn || blocks > MAX_BLOCKS then []
    else if match_ then c.mirror.records
    else if c.storageOn && flags % 2 == 1 then ReadWords(sealed, RECORDS_AT, blocks)
    else []
  }

  datatype Opened = Opened(code: int, error: int, plain: seq<byte>, fixed: nat)

  /** The checks made before anything is decrypted: result code and error, (0, 0)
      when the image is accepted; an error of -1 leaves the last error as it was. */
  function Refusal(c: Config, locked: bool, drive: byte, lba: word, sealed: seq<byte>, used: nat): (r: (int, int))
    ensures r.0 == 0 ==> |sealed| >= HEADER && R32(sealed, 20) + HEADER <= |sealed|
  {
    if |sealed| < HEADER then (-1, 4)
    else if R32(sealed, 0) != MAGIC then (1, -1)
    else if locked then (-1, 5)
    else if R32(sealed, 4) != 1 || R32(sealed, 24) != c.keyHash then (-1, 6)
    else if LowByte(R32(sealed, 12)) != drive || R32(sealed, 16) != lba then (-1, 7)
    else if R32(sealed, 20) > used || R32(sealed, 20) + HEADER > |sealed| then (-1, 8)
    else (0, 0)
  }

  /** The stored size is within used, but adding the header to it wraps around 32
      bits, and the image seems to be long enough. */
  predicate Overruns(sealed: seq<byte>, used: word) {
    |sealed| >= HEADER && R32(sealed, 20) <= used && NO_WRAP <= R32(sealed, 20) + HEADER <= NO_WRAP + |sealed|
  }

  /** Decryption, repair and the final check of the checksum. */
  function OpenPayload(c: Config, drive: byte, lba: word, sealed: seq<byte>): (r: Opened)
    requires HEADER <= |sealed| < NO_WRAP && R32(sealed, 20) + HEADER <= |sealed|
    ensures |r.plain| == |sealed| && (r.error == 0 || r.error == 9 || r.error == 10)
  {
    var n := R32(sealed, 20);
    var records := RecordsFor(c, sealed);
    var p := Repair(Crypt(c.key, drive, lba, sealed[HEADER..HEADER + n]), records, |records|);
    var out := p.data + Zeros(|sealed| - n);
    if !p.ok then Opened(-1, 9, out, p.fixed)
    else if ImageHash(p.data) != R32(sealed, 28) then Opened(-1, 10, out, p.fixed)
    else Opened(0, 0, out, p.fixed)
  }

  function Open(c: Config, locked: bool, drive: byte, lba: word, sealed: seq<byte>, was: seq<byte>,
                used: nat): (r: Opened)
    requires |was| == |sealed| < NO_WRAP
    ensures |r.plain| == |sealed|
  {
    var (code, error) := Refusal(c, locked, drive, lba, sealed, used);
    if code != 0 then Opened(code, error, was, 0) else OpenPayload(c, drive, lba, sealed)
  }

  // ---- The stream cancels itself and commutes with bit flips ----

  lemma CryptTwice(key: Key, drive: byte, lba: word, s: seq<byte>)
    ensures Crypt(key, drive, lba, Crypt(key, drive, lba, s)) == s
  {
    hide StreamByte;
    var t := Crypt(key, drive, lba, s);
    forall i | 0 <= i < |s|
      ensures Crypt(key, drive, lba, t)[i] == s[i]
    {
      XorInvolution(s[i], StreamByte(key, drive, lba, i));
    }
  }

  /** A flipped bit of the sealed payload is the same bit flipped in the plain text. */
  lemma CryptFlip(key: Key, drive: byte, lba: word, s: seq<byte>, k: nat)
    requires k < 8 * |s|
    ensures Crypt(key, drive, lba, FlipBit(s, k)) == FlipBit(Crypt(key, drive, lba, s), k)
  {
    hide StreamByte;
    XorSwap(s[k / 8], Shl(1, k % 8), StreamByte(key, drive, lba, k / 8));
  }

  // ---- Damage ----

  /** One flip per block, at most: flips[i] is the bit of block i, or -1. */
  ghost predicate Flips(s: seq<byte>, flips: seq<int>) {
    |flips| <= Blocks(|s|) && forall i | 0 <= i < |flips| :: -1 <= flips[i] < 8 * |BlockAt(s, i)|
  }

  lemma FlipInside(s: seq<byte>, flips: seq<int>, i: nat)
    requires Flips(s, flips) && i < |flips|
    ensures BLOCK * i <= |s| && 8 * (BLOCK * i) + flips[i] < 8 * |s|
  {
  }

  ghost function Damage(s: seq<byte>, flips: seq<int>): (r: seq<byte>)
    requires Flips(s, flips)
    ensures |r| == |s|
  {
    if flips == [] then s
    else
      var n := |flips| - 1;
      assert Flips(s, flips[..n]) by { FrontFlips(s, flips); }
      FlipInside(s, flips, n);
      var r := Damage(s, flips[..n]);
      if flips[n] < 0 then r else FlipBit(r, 8 * (BLOCK * n) + flips[n])
  }

  lemma FrontFlips(s: seq<byte>, flips: seq<int>)
    requires Flips(s, flips) && flips != []
    ensures Flips(s, flips[..|flips| - 1])
  {
    var front := flips[..|flips| - 1];
    assert forall i | 0 <= i < |front| :: front[i] == flips[i];
  }

  function FlipOr(b: seq<byte>, f: int): (r: seq<byte>)
    requires -1 <= f < 8 * |b|
    ensures |r| == |b|
  {
    if f < 0 then b else FlipBit(b, f)
  }

  lemma FlipsByLength(s: seq<byte>, t: seq<byte>, flips: seq<int>)
    requires Flips(s, flips) && |s| == |t|
    ensures Flips(t, flips)
  {
    assert forall i | 0 <= i < |flips| :: |BlockAt(t, i)| == |BlockAt(s, i)|;
  }

  lemma {:induction false} CryptDamage(key: Key, drive: byte, lba: word, s: seq<byte>, flips: seq<int>)
    requires Flips(s, flips)
    ensures Flips(Crypt(key, drive, lba, s), flips)
    ensures Crypt(key, drive, lba, Damage(s, flips)) == Damage(Crypt(key, drive, lba, s), flips)
  {
    hide Crypt, FlipBit, Flips, BlockEnd;
    var c := Crypt(key, drive, lba, s);
    FlipsByLength(s, c, flips);
    if flips != [] {
      var n := |flips| - 1;
      FrontFlips(s, flips);
      FlipInside(s, flips, n);
      CryptDamage(key, drive, lba, s, flips[..n]);
      if flips[n] >= 0 {
        CryptFlip(key, drive, lba, Damage(s, flips[..n]), 8 * (BLOCK * n) + flips[n]);
      }
    }
  }

  /** A flip in block n, seen from block i. */
  lemma FlipInBlock(s: seq<byte>, n: nat, f: nat, i: nat)
    requires n < Blocks(|s|) && i < Blocks(|s|) && BLOCK * n <= |s| && BLOCK * i <= |s| && f < 8 * |BlockAt(s, n)|
    ensures 8 * (BLOCK * n) + f < 8 * |s|
    ensures BlockAt(FlipBit(s, 8 * (BLOCK * n) + f), i) == if i == n then FlipBit(BlockAt(s, n), f) else BlockAt(s, i)
  {
    var k := 8 * (BLOCK * n) + f;
    assert k / 8 == BLOCK * n + f / 8 && k % 8 == f % 8;
  }

  lemma {:induction false} DamagedBlock(s: seq<byte>, flips: seq<int>, i: nat)
    requires Flips(s, flips) && i < Blocks(|s|)
    ensures BLOCK * i <= |s|
    ensures BlockAt(Damage(s, flips), i) == if i < |flips| then FlipOr(BlockAt(s, i), flips[i]) else BlockAt(s, i)
    decreases |flips|
  {
    hide BlockAt, FlipBit, Flips, Blocks;
    BlockStarts(s, i);
    if flips != [] {
      var n := |flips| - 1;
      FrontFlips(s, flips);
      FlipInside(s, flips, n);
      InBlocks(s, flips);
      DamagedBlock(s, flips[..n], i);
      DamagedBlock(s, flips[..n], n);
      if flips[n] >= 0 {
        FlipInBlock(Damage(s, flips[..n]), n, flips[n], i);
      }
    }
  }

  lemma BlockStarts(s: seq<byte>, i: nat)
    requires i < Blocks(|s|)
    ensures BLOCK * i < |s|
  {
  }

  lemma InBlocks(s: seq<byte>, flips: seq<int>)
    requires Flips(s, flips) && flips != []
    ensures |flips| - 1 < Blocks(|s|) && -1 <= flips[|flips| - 1] < 8 * |BlockAt(s, |flips| - 1)|
  {
  }

  /** Byte strings with the same blocks are the same. */
  lemma BlocksDetermine(s: seq<byte>, t: seq<byte>)
    requires |s| == |t|
    requires forall i: nat | i < Blocks(|s|) && BLOCK * i <= |s| :: BlockAt(s, i) == BlockAt(t, i)
    ensures s == t
  {
    forall k | 0 <= k < |s|
      ensures s[k] == t[k]
    {
      var i := k / BLOCK;
      assert BlockAt(s, i) == BlockAt(t, i);
      assert s[k] == BlockAt(s, i)[k - BLOCK * i] && t[k] == BlockAt(t, i)[k - BLOCK * i];
    }
  }
}
