/** What opening a sealed image gives back after bits of its payload have flipped. */
module LardSecProof {
  import opened BitOps
  import opened Bytes
  import opened Ecc
  import opened LardSecSpec

  function Count(flips: seq<int>): (n: nat)
    ensures n <= |flips|
  {
    if flips == [] then 0 else Count(flips[..|flips| - 1]) + if flips[|flips| - 1] >= 0 then 1 else 0
  }

  /** Writing over block n changes no other block. */
  lemma SpliceBlock(s: seq<byte>, n: nat, b: seq<byte>, i: nat)
    requires n < Blocks(|s|) && i < Blocks(|s|) && BLOCK * n <= |s| && BLOCK * i <= |s| && |b| == |BlockAt(s, n)|
    ensures BLOCK * n + |b| <= |s|
    ensures BlockAt(Splice(s, BLOCK * n, b), i) == if i == n then b else BlockAt(s, i)
  {
    if i == n {
      SpliceAt(s, BLOCK * n, b);
    } else {
      SpliceApart(s, BLOCK * n, b, BLOCK * i, BlockEnd(|s|, i));
    }
  }

  ghost predicate FlippedAs(s: seq<byte>, p: seq<byte>, flips: seq<int>, n: nat) {
    && |s| == |p| && n <= |flips| && Flips(p, flips)
    && forall i: nat | i < n && BLOCK * i <= |s| :: BlockAt(s, i) == FlipOr(BlockAt(p, i), flips[i])
  }

  /** The first n blocks of d are those of p, the others those of s. */
  ghost predicate Mended(d: seq<byte>, p: seq<byte>, s: seq<byte>, n: nat) {
    && |d| == |p| == |s|
    && forall i: nat | i < Blocks(|p|) && BLOCK * i <= |p| ::
         BlockAt(d, i) == if i < n then BlockAt(p, i) else BlockAt(s, i)
  }

  lemma FixesFlip(b: seq<byte>, f: int)
    requires |b| <= BLOCK && -1 <= f < 8 * |b|
    ensures FixBlock(FlipOr(b, f), EccOf(b)) == (if f < 0 then 0 else 1, b)
  {
    hide FixBlock, EccOf, FlipBit;
    if f < 0 {
      IntactAccepted(b);
    } else {
      SingleFlipRepaired(b, f);
    }
  }

  lemma {:induction false} RecordAt(s: seq<byte>, n: nat, i: nat)
    requires i < n <= Blocks(|s|)
    ensures BLOCK * i <= |s| && Records(s, n)[i] == EccOf(BlockAt(s, i))
    decreases n
  {
    hide EccOf, BlockAt;
    if i < n - 1 {
      RecordAt(s, n - 1, i);
    }
  }

  lemma MendOne(d: seq<byte>, p: seq<byte>, s: seq<byte>, n: nat)
    requires n < Blocks(|p|) && Mended(d, p, s, n) && BLOCK * n <= |p|
    ensures BLOCK * n + |BlockAt(p, n)| <= |d| && Mended(Splice(d, BLOCK * n, BlockAt(p, n)), p, s, n + 1)
  {
    assert |BlockAt(d, n)| == |BlockAt(p, n)|;
    SpliceBlock(d, n, BlockAt(p, n), n);
    var e := Splice(d, BLOCK * n, BlockAt(p, n));
    forall i: nat | i < Blocks(|p|) && BLOCK * i <= |p|
      ensures BlockAt(e, i) == if i < n + 1 then BlockAt(p, i) else BlockAt(s, i)
    {
      SpliceBlock(d, n, BlockAt(p, n), i);
      hide BlockAt, Splice;
    }
  }

  /** The repair loop mends block after block and counts the damaged ones. */
  lemma {:induction false} RepairMends(s: seq<byte>, p: seq<byte>, flips: seq<int>, n: nat)
    requires FlippedAs(s, p, flips, n) && n <= Blocks(|p|)
    ensures var r := Repair(s, Records(p, Blocks(|p|)), n);
            r.ok && r.fixed == Count(flips[..n]) && Mended(r.data, p, s, n)
  {
    hide FlippedAs, Mended, FixBlock, EccOf, BlockAt, FlipOr, Flips, Splice, Records, Blocks;
    if n > 0 {
      FewerFlipped(s, p, flips, n);
      RepairMends(s, p, flips, n - 1);
      RecordAt(p, Blocks(|p|), n - 1);
      BlockStarts(p, n - 1);
      var r := Repair(s, Records(p, Blocks(|p|)), n - 1);
      StillFlipped(s, p, flips, n, r.data);
      assert flips[..n][..n - 1] == flips[..n - 1];
      FixesFlip(BlockAt(p, n - 1), flips[n - 1]);
      MendOne(r.data, p, s, n - 1);
    } else {
      NothingMended(s, p, flips);
    }
  }

  lemma FewerFlipped(s: seq<byte>, p: seq<byte>, flips: seq<int>, n: nat)
    requires FlippedAs(s, p, flips, n) && n > 0
    ensures FlippedAs(s, p, flips, n - 1) && |s| == |p| && n <= |flips|
  {
    hide Flips, BlockAt;
  }

  lemma StillFlipped(s: seq<byte>, p: seq<byte>, flips: seq<int>, n: nat, d: seq<byte>)
    requires FlippedAs(s, p, flips, n) && 0 < n <= Blocks(|p|) && Mended(d, p, s, n - 1) && BLOCK * (n - 1) <= |p|
    ensures |d| == |p| && -1 <= flips[n - 1] < 8 * |BlockAt(p, n - 1)|
    ensures BlockAt(d, n - 1) == FlipOr(BlockAt(p, n - 1), flips[n - 1])
  {
    hide BlockAt, FlipOr;
  }

  lemma NothingMended(s: seq<byte>, p: seq<byte>, flips: seq<int>)
    requires FlippedAs(s, p, flips, 0)
    ensures Mended(s, p, s, 0) && |s| == |p|
  {
  }

  lemma AllMended(d: seq<byte>, p: seq<byte>, s: seq<byte>)
    requires Mended(d, p, s, Blocks(|p|))
    ensures d == p
  {
    BlocksDetermine(d, p);
  }

  lemma DamageFlips(p: seq<byte>, flips: seq<int>)
    requires Flips(p, flips)
    ensures FlippedAs(Damage(p, flips), p, flips, |flips|)
  {
    forall i: nat | i < |flips| && BLOCK * i <= |p|
      ensures BlockAt(Damage(p, flips), i) == FlipOr(BlockAt(p, i), flips[i])
    {
      DamagedBlock(p, flips, i);
    }
  }

  /** At most one flipped bit in each block: everything is put right. */
  lemma RepairUndoesDamage(p: seq<byte>, flips: seq<int>)
    requires Flips(p, flips) && |flips| == Blocks(|p|)
    ensures Repair(Damage(p, flips), Records(p, Blocks(|p|)), Blocks(|p|)) == Repaired(true, p, Count(flips))
  {
    DamageFlips(p, flips);
    var s := Damage(p, flips);
    hide FlippedAs, Damage, Flips, Repair, Mended;
    RepairMends(s, p, flips, |flips|);
    assert flips[..|flips|] == flips;
    AllMended(Repair(s, Records(p, Blocks(|p|)), Blocks(|p|)).data, p, s);
  }

  lemma {:induction false} FailureStays(s: seq<byte>, records: seq<nat>, m: nat, n: nat)
    requires m <= n <= |records| && !Repair(s, records, m).ok
    ensures Repair(s, records, n) == Repair(s, records, m)
    decreases n
  {
    hide FixBlock, Splice, BlockAt;
    if m < n {
      FailureStays(s, records, m, n - 1);
    }
  }

  lemma {:induction false} MendedAt(d: seq<byte>, p: seq<byte>, s: seq<byte>, n: nat)
    requires Mended(d, p, s, n) && n < Blocks(|p|) && BLOCK * n <= |p|
    ensures |d| == |p| == |s| && BlockAt(d, n) == BlockAt(s, n)
  {
  }

  /** Two flipped bits in one block, whatever the damage elsewhere after it. */
  lemma RepairReportsDouble(s: seq<byte>, p: seq<byte>, flips: seq<int>, a: nat, b: nat)
    requires |flips| < Blocks(|p|) && FlippedAs(s, p, flips, |flips|) && BLOCK * |flips| <= |p|
    requires a != b && a < 8 * |BlockAt(p, |flips|)| && b < 8 * |BlockAt(p, |flips|)|
    requires BlockAt(s, |flips|) == FlipBit(FlipBit(BlockAt(p, |flips|), a), b)
    ensures !Repair(s, Records(p, Blocks(|p|)), Blocks(|p|)).ok
  {
    hide FixBlock, EccOf, BlockAt, FlipBit, Mended, FlippedAs, Flips, Records, Blocks, Splice;
    var j, records := |flips|, Records(p, Blocks(|p|));
    RepairMends(s, p, flips, j);
    RecordAt(p, Blocks(|p|), j);
    BlockStarts(p, j);
    var blk := BlockAt(p, j);
    MendedAt(Repair(s, records, j).data, p, s, j);
    DoubleFlipReported(blk, a, b);
    assert !Repair(s, records, j + 1).ok;
    FailureStays(s, records, j + 1, |records|);
  }

  // ---- What the header says ----

  lemma {:induction false} WordBytesAt(ws: seq<word>, i: nat)
    requires i < |ws|
    ensures WordBytes(ws)[4 * i..4 * i + 4] == W32(ws[i])
    decreases |ws|
  {
    hide W32;
    var n := |ws| - 1;
    if i < n {
      WordBytesAt(ws[..n], i);
      Within(WordBytes(ws), 0, 4 * n, 4 * i, 4 * i + 4);
      assert WordBytes(ws)[0..4 * n] == WordBytes(ws[..n]);
    }
  }

  /** The parts of a sealed image. */
  lemma SealParts(c: Config, drive: byte, lba: word, plain: seq<byte>, size: nat)
    requires Sealable(plain, size)
    ensures var s, records := Seal(c, drive, lba, plain, size), WordBytes(StoredRecords(c, plain));
            && s[0..36] == WordBytes(HeaderWords(c, drive, lba, plain))
            && |records| <= 448 && s[RECORDS_AT..RECORDS_AT + |records|] == records
            && s[HEADER..HEADER + |plain|] == Crypt(c.key, drive, lba, plain)
  {
    hide WordBytes, StoredRecords, HeaderWords, Crypt, Scrub;
  }

  lemma HeaderField(s: seq<byte>, ws: seq<word>, at: nat, i: nat)
    requires at + 4 * |ws| <= |s| && s[at..at + 4 * |ws|] == WordBytes(ws) && i < |ws|
    ensures R32(s, at + 4 * i) == ws[i]
  {
    hide W32, WordBytes, R32;
    WordBytesAt(ws, i);
    Within(s, at, at + 4 * |ws|, 4 * i, 4 * i + 4);
    ReadAt(s, at + 4 * i, ws[i]);
  }

  lemma {:induction false} ReadsBack(s: seq<byte>, ws: seq<word>, at: nat, n: nat)
    requires at + 4 * |ws| <= |s| && s[at..at + 4 * |ws|] == WordBytes(ws) && n <= |ws|
    ensures ReadWords(s, at, n) == ws[..n]
  {
    hide WordBytes, R32;
    if n > 0 {
      ReadsBack(s, ws, at, n - 1);
      HeaderField(s, ws, at, n - 1);
    }
  }

  /** The header of the image survives; its payload may be damaged. */
  ghost predicate SameHeader(c: Config, drive: byte, lba: word, plain: seq<byte>, image: seq<byte>) {
    && Sealable(plain, |image|) && image[..HEADER] == Seal(c, drive, lba, plain, |image|)[..HEADER]
  }

  lemma HeaderSlices(c: Config, drive: byte, lba: word, plain: seq<byte>, image: seq<byte>)
    requires SameHeader(c, drive, lba, plain, image)
    ensures var records := StoredRecords(c, plain);
            && 4 * |records| <= 448 && image[0..36] == WordBytes(HeaderWords(c, drive, lba, plain))
            && image[RECORDS_AT..RECORDS_AT + 4 * |records|] == WordBytes(records)
  {
    hide Seal, WordBytes, StoredRecords, HeaderWords, Crypt, Blocks;
    var s, records := Seal(c, drive, lba, plain, |image|), StoredRecords(c, plain);
    SealParts(c, drive, lba, plain, |image|);
    Within(image, 0, HEADER, 0, 36);
    Within(s, 0, HEADER, 0, 36);
    Within(image, 0, HEADER, RECORDS_AT, RECORDS_AT + 4 * |records|);
    Within(s, 0, HEADER, RECORDS_AT, RECORDS_AT + 4 * |records|);
    assert image[0..HEADER] == image[..HEADER] && s[0..HEADER] == s[..HEADER];
  }

  lemma NineFields(image: seq<byte>, h: seq<word>)
    requires |h| == 9 && |image| >= 36 && image[0..36] == WordBytes(h)
    ensures R32(image, 0) == h[0] && R32(image, 4) == h[1] && R32(image, 8) == h[2] && R32(image, 12) == h[3]
            && R32(image, 16) == h[4] && R32(image, 20) == h[5] && R32(image, 24) == h[6] && R32(image, 28) == h[7]
            && R32(image, 32) == h[8]
  {
    hide WordBytes, R32;
    HeaderField(image, h, 0, 0);
    HeaderField(image, h, 0, 1);
    HeaderField(image, h, 0, 2);
    HeaderField(image, h, 0, 3);
    HeaderField(image, h, 0, 4);
    HeaderField(image, h, 0, 5);
    HeaderField(image, h, 0, 6);
    HeaderField(image, h, 0, 7);
    HeaderField(image, h, 0, 8);
  }

  /** Every field of the header reads back. */
  lemma HeaderReads(c: Config, drive: byte, lba: word, plain: seq<byte>, image: seq<byte>)
    requires SameHeader(c, drive, lba, plain, image)
    ensures HEADER <= HEADER + |plain| <= |image| < NO_WRAP
    ensures R32(image, 0) == MAGIC && R32(image, 4) == 1 && R32(image, 8) == Flags(c) && R32(image, 12) == drive as int
    ensures R32(image, 16) == lba && R32(image, 20) == |plain| && R32(image, 24) == c.keyHash
    ensures R32(image, 28) == ImageHash(plain) && R32(image, 32) == Blocks(|plain|) <= MAX_BLOCKS
    ensures ReadWords(image, RECORDS_AT, |StoredRecords(c, plain)|) == StoredRecords(c, plain)
  {
    var h, records := HeaderWords(c, drive, lba, plain), StoredRecords(c, plain);
    HeaderSlices(c, drive, lba, plain, image);
    hide Seal, WordBytes, StoredRecords, R32, Flags, Blocks, ImageHash, ReadWords;
    NineFields(image, h);
    ReadsBack(image, records, RECORDS_AT, |records|);
  }

  lemma DriveReads(c: Config, drive: byte, lba: word, plain: seq<byte>, image: seq<byte>)
    requires SameHeader(c, drive, lba, plain, image)
    ensures |image| >= HEADER && LowByte(R32(image, 12)) == drive
  {
    HeaderReads(c, drive, lba, plain, image);
    LowByteOf(drive);
    hide *;
  }

  /** Same key, correction possible at both ends, and a mirror that, if it is
      used, was written by this seal. */
  ghost predicate CanCorrect(c0: Config, c1: Config, drive: byte, lba: word, plain: seq<byte>, size: nat)
    requires Sealable(plain, size)
  {
    var m := MirrorMatches(c1, drive, lba, |plain|, ImageHash(plain), Blocks(|plain|));
    && c0.key == c1.key && c0.keyHash == c1.keyHash && c1.eccOn
    && (m || (c0.eccOn && c0.storageOn && c1.storageOn))
    && (m ==> c1.mirror.records == Records(plain, Blocks(|plain|)))
  }

  /** Which records the repair loop takes, in terms of what was sealed. */
  lemma RecordsTaken(c0: Config, c1: Config, drive: byte, lba: word, plain: seq<byte>, image: seq<byte>)
    requires SameHeader(c0, drive, lba, plain, image)
    ensures var m := MirrorMatches(c1, drive, lba, |plain|, ImageHash(plain), Blocks(|plain|));
            RecordsFor(c1, image) == if !c1.eccOn then []
                                     else if m then c1.mirror.records
                                     else if c1.storageOn then StoredRecords(c0, plain)
                                     else []
  {
    HeaderReads(c0, drive, lba, plain, image);
    DriveReads(c0, drive, lba, plain, image);
    StoredOrNot(c0, plain);
    hide *;
    RecordsForIs(c1, image);
  }

  lemma RecordsForIs(c: Config, sealed: seq<byte>)
    requires |sealed| >= HEADER
    ensures var flags, blocks := R32(sealed, 8), R32(sealed, 32);
            var m := MirrorMatches(c, LowByte(R32(sealed, 12)), R32(sealed, 16), R32(sealed, 20), R32(sealed, 28),
                blocks);
            blocks <= MAX_BLOCKS ==>
              RecordsFor(c, sealed) == if !c.eccOn then []
                                       else if m then c.mirror.records
                                       else if c.storageOn && flags % 2 == 1 then ReadWords(sealed, RECORDS_AT, blocks)
                                       else []
  {
    hide R32, ReadWords;
  }

  lemma StoredOrNot(c: Config, plain: seq<byte>)
    ensures if Flags(c) % 2 == 1 then |StoredRecords(c, plain)| == Blocks(|plain|) else StoredRecords(c, plain) == []
  {
    hide Blocks;
  }

  lemma UsesRecords(c0: Config, c1: Config, drive: byte, lba: word, plain: seq<byte>, image: seq<byte>)
    requires SameHeader(c0, drive, lba, plain, image) && CanCorrect(c0, c1, drive, lba, plain, |image|)
    ensures RecordsFor(c1, image) == Records(plain, Blocks(|plain|))
  {
    RecordsTaken(c0, c1, drive, lba, plain, image);
    hide Records, RecordsFor, Seal, SameHeader, ImageHash, Blocks;
  }

  /** What opening comes down to once the header has been accepted. */
  lemma OpenBody(c0: Config, c1: Config, drive: byte, lba: word, plain: seq<byte>, image: seq<byte>, was: seq<byte>,
                 used: nat)
    requires SameHeader(c0, drive, lba, plain, image) && c0.keyHash == c1.keyHash
    requires |was| == |image| && |plain| <= used
    ensures |plain| + HEADER <= |image| < NO_WRAP
    ensures var n, records := |plain|, RecordsFor(c1, image);
            var r := Repair(Crypt(c1.key, drive, lba, image[HEADER..HEADER + n]), records, |records|);
            var out := r.data + Zeros(|image| - n);
            Open(c1, false, drive, lba, image, was, used)
            == if !r.ok then Opened(-1, 9, out, r.fixed)
               else if ImageHash(r.data) != ImageHash(plain) then Opened(-1, 10, out, r.fixed)
               else Opened(0, 0, out, r.fixed)
  {
    HeaderReads(c0, drive, lba, plain, image);
    DriveReads(c0, drive, lba, plain, image);
    hide Seal, ImageHash, R32, RecordsFor, Repair, Crypt, Zeros, Flags, Blocks, ReadWords, StoredRecords, SameHeader,
         Sealable;
  }

  lemma SameKey(c0: Config, c1: Config, drive: byte, lba: word, plain: seq<byte>, image: seq<byte>)
    requires SameHeader(c0, drive, lba, plain, image) && CanCorrect(c0, c1, drive, lba, plain, |image|)
    ensures c0.key == c1.key && c0.keyHash == c1.keyHash
  {
  }

  /** Opening a sealed image in which each block has at most one flipped payload
      bit gives back the plain text, and the damaged blocks are counted. */
  lemma OpenAfterFlips(c0: Config, c1: Config, drive: byte, lba: word, plain: seq<byte>, flips: seq<int>,
                       image: seq<byte>, was: seq<byte>, used: nat)
    requires SameHeader(c0, drive, lba, plain, image) && CanCorrect(c0, c1, drive, lba, plain, |image|)
    requires Flips(plain, flips) && |flips| == Blocks(|plain|)
    requires Flips(Crypt(c0.key, drive, lba, plain), flips)
    requires image[HEADER..HEADER + |plain|] == Damage(Crypt(c0.key, drive, lba, plain), flips)
    requires |was| == |image| && |plain| <= used
    ensures Open(c1, false, drive, lba, image, was, used)
            == Opened(0, 0, plain + Zeros(|image| - |plain|), Count(flips))
  {
    SameKey(c0, c1, drive, lba, plain, image);
    UsesRecords(c0, c1, drive, lba, plain, image);
    OpenBody(c0, c1, drive, lba, plain, image, was, used);
    CryptDamage(c0.key, drive, lba, Crypt(c0.key, drive, lba, plain), flips);
    CryptTwice(c0.key, drive, lba, plain);
    RepairUndoesDamage(plain, flips);
    hide *;
  }

  /** An undamaged image opens to its plain text. */
  lemma OpenAfterSeal(c0: Config, c1: Config, drive: byte, lba: word, plain: seq<byte>, size: nat, was: seq<byte>,
                      used: nat)
    requires Sealable(plain, size) && |was| == size && |plain| <= used
    requires c0.key == c1.key && c0.keyHash == c1.keyHash
    requires MirrorMatches(c1, drive, lba, |plain|, ImageHash(plain), Blocks(|plain|)) ==>
               c1.mirror.records == Records(plain, Blocks(|plain|))
    ensures Open(c1, false, drive, lba, Seal(c0, drive, lba, plain, size), was, used)
            == Opened(0, 0, plain + Zeros(size - |plain|), 0)
  {
    hide Seal, Crypt, Repair, Records, RecordsFor, Open, ImageHash, R32, SameHeader, MirrorMatches, StoredRecords,
         HeaderWords, WordBytes, Blocks, Count;
    var image := Seal(c0, drive, lba, plain, size);
    SealParts(c0, drive, lba, plain, size);
    CryptTwice(c0.key, drive, lba, plain);
    RecordsForIntact(c0, c1, drive, lba, plain, size);
    IsSameHeader(c0, drive, lba, plain, size);
    OpenBody(c0, c1, drive, lba, plain, image, was, used);
  }

  lemma IsSameHeader(c: Config, drive: byte, lba: word, plain: seq<byte>, size: nat)
    requires Sealable(plain, size)
    ensures SameHeader(c, drive, lba, plain, Seal(c, drive, lba, plain, size))
  {
  }

  lemma RecordsForIntact(c0: Config, c1: Config, drive: byte, lba: word, plain: seq<byte>, size: nat)
    requires Sealable(plain, size)
    requires MirrorMatches(c1, drive, lba, |plain|, ImageHash(plain), Blocks(|plain|)) ==>
               c1.mirror.records == Records(plain, Blocks(|plain|))
    ensures var records := RecordsFor(c1, Seal(c0, drive, lba, plain, size));
            Repair(plain, records, |records|) == Repaired(true, plain, 0)
  {
    var image := Seal(c0, drive, lba, plain, size);
    RecordsTaken(c0, c1, drive, lba, plain, image);
    IntactRepair(plain, seq(Blocks(|plain|), _ => -1));
    hide Records, Seal, ImageHash, RecordsFor, Blocks, MirrorMatches;
  }

  lemma {:induction false} NoDamage(p: seq<byte>, flips: seq<int>)
    requires Flips(p, flips) && forall i | 0 <= i < |flips| :: flips[i] == -1
    ensures Damage(p, flips) == p && Count(flips) == 0
  {
    if flips != [] {
      FrontFlips(p, flips);
      NoDamage(p, flips[..|flips| - 1]);
    }
  }

  lemma IntactRepair(plain: seq<byte>, none: seq<int>)
    requires |none| == Blocks(|plain|) && forall i | 0 <= i < |none| :: none[i] == -1
    ensures Repair(plain, Records(plain, Blocks(|plain|)), Blocks(|plain|)) == Repaired(true, plain, 0)
  {
    assert Flips(plain, none);
    NoDamage(plain, none);
    RepairUndoesDamage(plain, none);
  }

  lemma CryptBlock(key: Key, drive: byte, lba: word, x: seq<byte>, y: seq<byte>, i: nat)
    requires |x| == |y| && BLOCK * i <= |x| && BlockAt(x, i) == BlockAt(y, i)
    ensures BlockAt(Crypt(key, drive, lba, x), i) == BlockAt(Crypt(key, drive, lba, y), i)
  {
    hide StreamByte;
    forall k | BLOCK * i <= k < BlockEnd(|x|, i)
      ensures x[k] == y[k]
    {
      assert x[k] == BlockAt(x, i)[k - BLOCK * i] && y[k] == BlockAt(y, i)[k - BLOCK * i];
    }
  }

  /** A flip seen in a block of the payload is the same flip in that block of the plain
      text, whatever happened to the other blocks. */
  lemma FlipSeen(key: Key, drive: byte, lba: word, s: seq<byte>, p: seq<byte>, f: int, i: nat)
    requires |s| == |p| && i < Blocks(|p|) && BLOCK * i <= |p| && -1 <= f < 8 * |BlockAt(p, i)|
    requires BlockAt(s, i) == FlipOr(BlockAt(Crypt(key, drive, lba, p), i), f)
    ensures BlockAt(Crypt(key, drive, lba, s), i) == FlipOr(BlockAt(p, i), f)
  {
    var c := Crypt(key, drive, lba, p);
    CryptTwice(key, drive, lba, p);
    hide Crypt, FlipBit, Blocks;
    if f < 0 {
      CryptBlock(key, drive, lba, s, c, i);
    } else {
      FlipInBlock(c, i, f, i);
      FlipInBlock(p, i, f, i);
      CryptFlip(key, drive, lba, c, 8 * (BLOCK * i) + f);
      CryptBlock(key, drive, lba, s, FlipBit(c, 8 * (BLOCK * i) + f), i);
    }
  }

  lemma TwoFlipsSeen(key: Key, drive: byte, lba: word, s: seq<byte>, p: seq<byte>, a: nat, b: nat, i: nat)
    requires |s| == |p| && i < Blocks(|p|) && BLOCK * i <= |p| && a < 8 * |BlockAt(p, i)| && b < 8 * |BlockAt(p, i)|
    requires BlockAt(s, i) == FlipBit(FlipBit(BlockAt(Crypt(key, drive, lba, p), i), a), b)
    ensures BlockAt(Crypt(key, drive, lba, s), i) == FlipBit(FlipBit(BlockAt(p, i), a), b)
  {
    var c := Crypt(key, drive, lba, p);
    CryptTwice(key, drive, lba, p);
    hide Crypt, FlipBit, Blocks;
    FlipInBlock(c, i, a, i);
    var c1 := FlipBit(c, 8 * (BLOCK * i) + a);
    FlipInBlock(c1, i, b, i);
    FlipSeen(key, drive, lba, c1, p, a, i);
    CryptFlip(key, drive, lba, c1, 8 * (BLOCK * i) + b);
    FlipInBlock(Crypt(key, drive, lba, c1), i, b, i);
    CryptBlock(key, drive, lba, s, FlipBit(c1, 8 * (BLOCK * i) + b), i);
  }

  lemma FlipsSeen(key: Key, drive: byte, lba: word, s: seq<byte>, p: seq<byte>, flips: seq<int>)
    requires Flips(p, flips) && FlippedAs(s, Crypt(key, drive, lba, p), flips, |flips|)
    ensures FlippedAs(Crypt(key, drive, lba, s), p, flips, |flips|)
  {
    hide Crypt, BlockAt, FlipOr, Blocks;
    forall i: nat | i < |flips| && BLOCK * i <= |s|
      ensures BlockAt(Crypt(key, drive, lba, s), i) == FlipOr(BlockAt(p, i), flips[i])
    {
      FlipSeen(key, drive, lba, s, p, flips[i], i);
    }
  }

  /** Two flipped bits in one block are reported, never passed on as plain text:
      with at most one flip in each block before it, and anything behind it. */
  lemma OpenReportsDouble(c0: Config, c1: Config, drive: byte, lba: word, plain: seq<byte>, flips: seq<int>, a: nat,
                          b: nat, image: seq<byte>, was: seq<byte>, used: nat)
    requires SameHeader(c0, drive, lba, plain, image) && CanCorrect(c0, c1, drive, lba, plain, |image|)
    requires Flips(plain, flips) && |flips| < Blocks(|plain|) && BLOCK * |flips| <= |plain|
    requires a != b && a < 8 * |BlockAt(plain, |flips|)| && b < 8 * |BlockAt(plain, |flips|)|
    requires var sealed, payload := Crypt(c0.key, drive, lba, plain), image[HEADER..HEADER + |plain|];
             && FlippedAs(payload, sealed, flips, |flips|)
             && BlockAt(payload, |flips|) == FlipBit(FlipBit(BlockAt(sealed, |flips|), a), b)
    requires |was| == |image| && |plain| <= used
    ensures var o := Open(c1, false, drive, lba, image, was, used); o.code == -1 && o.error == 9
  {
    hide Crypt, FlipBit, Flips, BlockAt, Blocks, FlippedAs, Repair, Records, RecordsFor, Open, SameHeader,
         CanCorrect, ImageHash, Zeros, R32, ReadWords, StoredRecords, Flags;
    HeaderReads(c0, drive, lba, plain, image);
    var payload := image[HEADER..HEADER + |plain|];
    FlipsSeen(c0.key, drive, lba, payload, plain, flips);
    TwoFlipsSeen(c0.key, drive, lba, payload, plain, a, b, |flips|);
    SameKey(c0, c1, drive, lba, plain, image);
    UsesRecords(c0, c1, drive, lba, plain, image);
    OpenBody(c0, c1, drive, lba, plain, image, was, used);
    RepairReportsDouble(Crypt(c0.key, drive, lba, payload), plain, flips, a, b);
  }
}
