/** What a sealed image looks like byte by byte, when it is refused, and what the checksum
    sees where no correction is made. */
module LardSecChecks {
  import opened BitOps
  import opened Bytes
  import opened BytesFacts
  import opened LardSecSpec
  import opened LardSecProof

  /** The checksum that is stored: the hash, or 1 in place of 0. */
  predicate SumOf(s: seq<byte>, n: int) {
    if Hash(s) == 0 then n == 1 else n == Hash(s)
  }

  lemma {:induction false} ImageSum(s: seq<byte>)
    ensures SumOf(s, ImageHash(s))
  {
    hide Hash;
  }

  /** The header of a sealed image, field by field: LSEC, version 1, which records exist, drive,
      block address, length, hash of the key, checksum of the plain text and number of blocks. */
  lemma {:induction false} SealedHeader(c: Config, drive: byte, lba: word, plain: seq<byte>, size: nat)
    requires Sealable(plain, size)
    ensures var s := Seal(c, drive, lba, plain, size);
            && |s| >= 512 + |plain|
            && s[0..4] == [0x4C, 0x53, 0x45, 0x43] && Number(s, 4) == 1
            && Number(s, 8) == (if !c.eccOn then 0 else (if c.storageOn then 1 else 0) + (if c.ramOn then 2 else 0))
            && Number(s, 12) == drive as int && Number(s, 16) == lba as int && Number(s, 20) == |plain|
            && Number(s, 24) == c.keyHash as int && SumOf(plain, Number(s, 28))
            && Number(s, 32) == (|plain| + 511) / 512
  {
    hide Seal, SameHeader, R32, Number, ImageHash, SumOf;
    var s := Seal(c, drive, lba, plain, size);
    IsSameHeader(c, drive, lba, plain, size);
    HeaderReads(c, drive, lba, plain, s);
    NineNumbers(s);
    FirstBytes(s);
    ImageSum(plain);
  }

  lemma NineNumbers(s: seq<byte>)
    requires |s| >= 36
    ensures R32(s, 0) == Number(s, 0) && R32(s, 4) == Number(s, 4) && R32(s, 8) == Number(s, 8)
    ensures R32(s, 12) == Number(s, 12) && R32(s, 16) == Number(s, 16) && R32(s, 20) == Number(s, 20)
    ensures R32(s, 24) == Number(s, 24) && R32(s, 28) == Number(s, 28) && R32(s, 32) == Number(s, 32)
  {
    hide R32, Number;
    ReadsNumber(s, 0);
    ReadsNumber(s, 4);
    ReadsNumber(s, 8);
    ReadsNumber(s, 12);
    ReadsNumber(s, 16);
    ReadsNumber(s, 20);
    ReadsNumber(s, 24);
    ReadsNumber(s, 28);
    ReadsNumber(s, 32);
  }

  lemma {:induction false} FirstBytes(s: seq<byte>)
    requires |s| >= 4
    ensures Number(s, 0) == MAGIC <==> s[0..4] == [0x4C, 0x53, 0x45, 0x43]
  {
    var m := s[0..4];
    assert m[0] == s[0] && m[1] == s[1] && m[2] == s[2] && m[3] == s[3];
    if Number(s, 0) == MAGIC {
      DigitsOf(s[0], s[1], s[2], s[3], MAGIC);
    }
  }

  /** Byte i of the payload is at 512 + i and is the plain byte changed by byte i % 4 of word
      i / 4 of the key stream. */
  lemma {:induction false} SealedPayload(c: Config, drive: byte, lba: word, plain: seq<byte>, size: nat, i: nat)
    requires Sealable(plain, size) && i < |plain|
    ensures var s := Seal(c, drive, lba, plain, size);
            512 + i < |s| && s[512 + i] == Xor(plain[i], StreamByte(c.key, drive, lba, i))
  {
    hide WordBytes, StoredRecords, HeaderWords, Scrub, StreamByte, Blocks;
    SealParts(c, drive, lba, plain, size);
  }

  /** Opening a sealed image while the key is locked, with another key, for another place or
      into less room is refused, in this order, and the buffer stays as it was. */
  lemma {:induction false} ForeignRefused(c: Config, c': Config, locked: bool, drive: byte, lba: word, plain: seq<byte>,
                                          size: nat, drive': byte, lba': word, was: seq<byte>, used: nat)
    requires Sealable(plain, size) && |was| == size
    requires locked || c.keyHash != c'.keyHash || drive != drive' || lba != lba' || |plain| > used
    ensures Open(c', locked, drive', lba', Seal(c, drive, lba, plain, size), was, used)
            == Opened(-1, if locked then 5 else if c.keyHash != c'.keyHash then 6
                          else if drive != drive' || lba != lba' then 7 else 8, was, 0)
  {
    hide Seal, SameHeader, R32, ImageHash, LowByte;
    var s := Seal(c, drive, lba, plain, size);
    IsSameHeader(c, drive, lba, plain, size);
    HeaderReads(c, drive, lba, plain, s);
    DriveReads(c, drive, lba, plain, s);
  }

  /** What is not a sealed image is not touched: too short is an error, anything else that
      does not begin with LSEC is left to the caller. */
  lemma {:induction false} OtherImages(c: Config, locked: bool, drive: byte, lba: word, sealed: seq<byte>,
                                       was: seq<byte>, used: nat)
    requires |was| == |sealed| < NO_WRAP && (|sealed| < 512 || sealed[0..4] != [0x4C, 0x53, 0x45, 0x43])
    ensures var o := Open(c, locked, drive, lba, sealed, was, used);
            o.plain == was && (if |sealed| < 512 then o.code == -1 && o.error == 4 else o.code == 1)
  {
    hide R32, Number;
    if |sealed| >= 512 {
      NineNumbers(sealed);
      FirstBytes(sealed);
    }
  }

  /** An image is opened only with the key, the drive and the block address in its header,
      and only to a text of the length and the checksum there. */
  lemma {:induction false} OpenedMatches(c: Config, locked: bool, drive: byte, lba: word, sealed: seq<byte>,
                                         was: seq<byte>, used: nat)
    requires |was| == |sealed| < NO_WRAP && Open(c, locked, drive, lba, sealed, was, used).code == 0
    ensures !locked && |sealed| >= 512
    ensures Number(sealed, 24) == c.keyHash as int && Number(sealed, 12) % 256 == drive as int
    ensures Number(sealed, 16) == lba as int && 0 <= Number(sealed, 20) <= used
    ensures Number(sealed, 20) + 512 <= |sealed|
    ensures var o := Open(c, locked, drive, lba, sealed, was, used);
            SumOf(o.plain[..Number(sealed, 20)], Number(sealed, 28))
  {
    hide R32, Number, ImageHash, Crypt, Repair, RecordsFor, Zeros, SumOf;
    NineNumbers(sealed);
    var n := R32(sealed, 20);
    var records := RecordsFor(c, sealed);
    var p := Repair(Crypt(c.key, drive, lba, sealed[HEADER..HEADER + n]), records, |records|);
    ImageSum(p.data);
    assert (p.data + Zeros(|sealed| - n))[..n] == p.data;
  }

  // ---- damage that nobody corrects ----

  /** Two sums are the same although one byte differs only if the hashes are 0 and 1. */
  lemma {:induction false} SumSeesOneByte(s: seq<byte>, k: nat, x: byte)
    requires k < |s| && x != s[k]
    ensures ImageHash(s[k := x]) == ImageHash(s) <==>
            (Hash(s) == 0 && Hash(s[k := x]) == 1) || (Hash(s) == 1 && Hash(s[k := x]) == 0)
  {
    hide Hash;
    HashSeesOneByte(s, k, x);
  }

  /** Without correction an image with one changed byte of payload is refused with error 10,
      unless the hash turns from 0 to 1 or from 1 to 0. */
  lemma {:induction false} ChangeIsSeen(c: Config, c': Config, drive: byte, lba: word, plain: seq<byte>, k: nat,
                                        x: byte, s: seq<byte>, was: seq<byte>, used: nat)
    requires Sealable(plain, |s|) && s == Seal(c, drive, lba, plain, |s|)
    requires |was| == |s| && |plain| <= used && k < |plain| && s[512 + k] != x
    requires c.key == c'.key && c.keyHash == c'.keyHash && !c'.eccOn
    ensures var o := Open(c', false, drive, lba, s[512 + k := x], was, used);
            var t := plain[k := XorByte(x, StreamByte(c.key, drive, lba, k))];
            if (Hash(plain) == 0 && Hash(t) == 1) || (Hash(plain) == 1 && Hash(t) == 0) then o.code == 0
            else o.code == -1 && o.error == 10
  {
    hide Seal, Crypt, RecordsFor, Open, ImageHash, Hash, StreamByte, SameHeader, Zeros, XorByte;
    var image := s[512 + k := x];
    IsSameHeader(c, drive, lba, plain, |s|);
    ChangedHeader(c, drive, lba, plain, s, k, x);
    OpenBody(c, c', drive, lba, plain, image, was, used);
    NoRecords(c', image);
    SealedPayload(c, drive, lba, plain, |s|, k);
    ChangedPayload(c, drive, lba, plain, |s|, k, x);
    XorSame(plain[k], StreamByte(c.key, drive, lba, k), x);
    SumSeesOneByte(plain, k, XorByte(x, StreamByte(c.key, drive, lba, k)));
  }

  lemma NoRecords(c: Config, image: seq<byte>)
    requires |image| >= 512 && !c.eccOn
    ensures RecordsFor(c, image) == []
  {
    hide R32;
  }

  lemma {:induction false} XorSame(a: byte, s: byte, x: byte)
    requires Xor(a, s) != x
    ensures XorByte(x, s) != a
  {
    hide Xor;
    XorInvolution(x, s);
  }

  lemma {:induction false} ChangedHeader(c: Config, drive: byte, lba: word, plain: seq<byte>, s: seq<byte>, k: nat,
                                         x: byte)
    requires SameHeader(c, drive, lba, plain, s) && 512 + k < |s|
    ensures SameHeader(c, drive, lba, plain, s[512 + k := x])
  {
    hide Seal;
    assert s[512 + k := x][..HEADER] == s[..HEADER];
  }

  lemma {:induction false} ChangedPayload(c: Config, drive: byte, lba: word, plain: seq<byte>, size: nat, k: nat,
                                          x: byte)
    requires Sealable(plain, size) && k < |plain|
    ensures |Seal(c, drive, lba, plain, size)| == size >= 512 + |plain|
    ensures Crypt(c.key, drive, lba, Seal(c, drive, lba, plain, size)[512 + k := x][512..512 + |plain|])
            == plain[k := XorByte(x, StreamByte(c.key, drive, lba, k))]
  {
    hide StreamByte, WordBytes, StoredRecords, HeaderWords, Scrub, Xor, Seal;
    SealParts(c, drive, lba, plain, size);
    CryptTwice(c.key, drive, lba, plain);
    var t := Crypt(c.key, drive, lba, plain);
    assert Seal(c, drive, lba, plain, size)[512 + k := x][512..512 + |plain|] == t[k := x];
    assert Crypt(c.key, drive, lba, t[k := x])
        == Crypt(c.key, drive, lba, t)[k := XorByte(x, StreamByte(c.key, drive, lba, k))];
  }

  // ---- the records in memory ----

  /** The records in memory are used for an image exactly if they were kept for the same drive,
      block address, length, checksum and number of blocks. */
  lemma {:induction false} MirrorExactly(c: Config, d: byte, l: word, u: word, h: word, records: seq<nat>,
                                         drive: byte, lba: word, used: word, hash: word, blocks: word)
    requires c.mirror == Mirror(d, l, u, h, records)
    ensures MirrorMatches(c, drive, lba, used, hash, blocks) <==>
            c.eccOn && c.ramOn && (drive, lba, used, hash) == (d, l, u, h) && blocks == |records| && blocks <= 32
  {
  }

  /** Up to 16384 bytes can be sealed. */
  lemma {:induction false} SealableExactly(plain: seq<byte>, size: nat)
    ensures Sealable(plain, size) <==> |plain| <= 16384 && |plain| + 512 <= size < 0x1_0000_0000
  {
  }
}
