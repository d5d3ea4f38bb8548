/** lardsec_seal_media_image and lardsec_open_media_image of os/kernel/lardsec.c. */
module LardSec {
  import opened BitOps
  import opened Bytes
  import opened Ecc
  import S = LardSecSpec
  import P = LardSecProof

  /** The module's static state. */
  class Security {
    var enabled: bool
    var locked: bool
    var eccOn: bool
    var ramOn: bool
    var storageOn: bool
    var ramValid: bool
    var ramDrive: byte
    var ramLba: word
    var ramUsed: word
    var ramHash: word
    var ramBlocks: nat
    const ramRecords: array<nat>
    var key: S.Key
    var keyHash: word
    var sealedWrites: nat
    var openedSeals: nat
    var corrections: nat
    var failures: nat
    var lastError: int

    constructor (key: S.Key, keyHash: word)
      ensures Valid() && fresh(ramRecords) && enabled && !locked
      ensures Cfg() == S.Config(key, keyHash, true, false, true, S.NoMirror)
    {
      this.key, this.keyHash := key, keyHash;
      enabled, locked, eccOn, ramOn, storageOn := true, false, true, false, true;
      ramValid, ramDrive, ramLba, ramUsed, ramHash, ramBlocks := false, 0, 0, 0, 0, 0;
      ramRecords := new nat[S.MAX_BLOCKS](_ => 0);
      sealedWrites, openedSeals, corrections, failures, lastError := 0, 0, 0, 0, 0;
    }

    ghost predicate Valid()
      reads this`ramBlocks
    {
      ramRecords.Length == S.MAX_BLOCKS && ramBlocks <= S.MAX_BLOCKS
    }

    ghost function Cfg(): S.Config
      requires Valid()
      reads this`key, this`keyHash, this`eccOn, this`ramOn, this`storageOn
      reads this`ramValid, this`ramDrive, this`ramLba, this`ramUsed, this`ramHash, this`ramBlocks, ramRecords
    {
      S.Config(key, keyHash, eccOn, ramOn, storageOn,
               if ramValid then S.Mirror(ramDrive, ramLba, ramUsed, ramHash, ramRecords[..ramBlocks]) else S.NoMirror)
    }

    /** ram_ecc_store. */
    method RamStore(drive: byte, lba: word, used: word, hash: word, records: seq<word>)
      requires Valid()
      modifies this`ramValid, this`ramDrive, this`ramLba, this`ramUsed, this`ramHash, this`ramBlocks, ramRecords
      ensures Valid()
      ensures Cfg() == if eccOn && ramOn && |records| <= S.MAX_BLOCKS
                       then old(Cfg()).(mirror := S.Mirror(drive, lba, used, hash, records))
                       else old(Cfg())
    {
      if !eccOn || !ramOn || |records| > S.MAX_BLOCKS {
        return;
      }
      ramValid, ramDrive, ramLba, ramUsed, ramHash, ramBlocks := true, drive, lba, used, hash, |records|;
      for i := 0 to S.MAX_BLOCKS
        invariant ramValid && ramDrive == drive && ramLba == lba && ramUsed == used && ramHash == hash
                  && ramBlocks == |records|
        invariant forall k | 0 <= k < i && k < |records| :: ramRecords[k] == records[k]
      {
        ramRecords[i] := if i < |records| then records[i] else 0;
      }
      assert ramRecords[..ramBlocks] == records;
    }

    /** ram_ecc_matches. */
    method RamMatches(drive: byte, lba: word, used: word, hash: word, blocks: word) returns (m: bool)
      requires Valid()
      ensures m == S.MirrorMatches(Cfg(), drive, lba, used, hash, blocks)
    {
      m := eccOn && ramOn && ramValid && ramDrive == drive && ramLba == lba && ramUsed == used && ramHash == hash
           && ramBlocks == blocks && blocks <= S.MAX_BLOCKS;
    }

    static method PutWords(a: array<byte>, at: nat, ws: seq<word>)
      requires at + 4 * |ws| <= a.Length
      modifies a
      ensures a[..] == Splice(old(a[..]), at, S.WordBytes(ws))
    {
      ghost var was := a[..];
      assert a[..] == Splice(was, at, S.WordBytes(ws[..0]));
      for i := 0 to |ws|
        invariant a[..] == Splice(was, at, S.WordBytes(ws[..i]))
      {
        CopyInto(a, at + 4 * i, W32(ws[i]));
        NextWord(was, at, ws, i);
      }
      assert ws[..|ws|] == ws;
    }

    static method ZeroFill(a: array<byte>)
      modifies a
      ensures a[..] == Zeros(a.Length)
    {
      for i := 0 to a.Length
        invariant forall k | 0 <= k < i :: a[k] == 0
      {
        a[i] := 0;
      }
    }

    /** crypt_payload. */
    method CryptPayload(drive: byte, lba: word, source: array<byte>, from: nat, out: array<byte>, at: nat, size: nat)
      requires from + size <= source.Length && at + size <= out.Length && source != out
      modifies out
      ensures out[..] == Splice(old(out[..]), at, S.Crypt(key, drive, lba, source[from..from + size]))
    {
      ghost var t, was := S.Crypt(key, drive, lba, source[from..from + size]), out[..];
      assert Splice(was, at, t[..0]) == was;
      for i := 0 to size
        invariant out[..] == Splice(was, at, t[..i]) && unchanged(source)
      {
        SpliceGrows(was, at, t, i);
        hide Splice;
        out[at + i] := XorByte(source[from + i], S.StreamByte(key, drive, lba, i));
      }
      assert t[..size] == t;
    }

    /** fill_scrub. */
    method FillScrub(drive: byte, lba: word, p: array<byte>, at: nat, size: nat, start: nat)
      requires at + size <= p.Length
      modifies p
      ensures p[..] == Splice(old(p[..]), at, S.Scrub(key, drive, lba, start, size))
    {
      hide Splice, S.ScrubByte;
      ghost var t, was := S.Scrub(key, drive, lba, start, size), p[..];
      SpliceNone(was, at, t);
      for i := 0 to size
        invariant p[..] == Splice(was, at, t[..i])
      {
        SpliceGrows(was, at, t, i);
        p[at + i] := S.ScrubByte(key, drive, XorWord(lba, 0x5EC), start + i / 4, i % 4 * 8);
      }
      assert t[..size] == t;
    }

    static method HashImage(a: array<byte>, size: nat) returns (h: word)
      requires size <= a.Length
      ensures h == S.ImageHash(a[..size])
    {
      h := HashOf(a, 0, size);
      assert a[0..size] == a[..size];
      if h == 0 {
        h := 1;
      }
    }

    static method BlockRecords(a: array<byte>, used: nat) returns (records: seq<word>)
      requires used <= a.Length
      ensures records == S.Records(a[..used], S.Blocks(used))
    {
      hide EccOf, S.BlockAt;
      ghost var s := a[..used];
      records := [];
      var blocks := S.Blocks(used);
      for i := 0 to blocks
        invariant records == S.Records(s, i)
      {
        S.BlockStarts(s, i);
        var off := i * BLOCK;
        var n := if used - off > BLOCK then BLOCK else used - off;
        var e := EccBlock(a, off, n);
        BlockSlice(a[..], s, used, i, off, n);
        assert a[off..off + n] == a[..][off..off + n];
        S.EccBound(S.BlockAt(s, i));
        records := records + [e];
      }
    }

    /** Sums are computed in 32 bits. overrun says that the check of the size wrapped
        around and let a payload through that the buffers cannot hold: the source
        goes on to read and write past them, the model stops. */
    method Seal(drive: byte, lba: word, plain: array<byte>, sealed: array<byte>, used: word)
      returns (r: int, overrun: bool)
      requires Valid() && (used + S.HEADER <= sealed.Length ==> used <= plain.Length) && plain != sealed
               && sealed.Length < NO_WRAP
      requires ramRecords as object != sealed && ramRecords as object != plain
      modifies this`ramValid, this`ramDrive, this`ramLba, this`ramUsed, this`ramHash, this`ramBlocks, ramRecords
      modifies this`sealedWrites, this`lastError, sealed
      ensures Valid()
      ensures overrun
              <==> enabled && sealed.Length >= S.HEADER && NO_WRAP - 511 <= used <= NO_WRAP - S.HEADER + sealed.Length
      ensures !overrun ==>
                r == if !enabled then 1
                     else if used + S.HEADER > sealed.Length || S.Blocks(used) > S.MAX_BLOCKS then -1
                     else 0
      ensures r != 0 || overrun ==>
                sealed[..] == old(sealed[..]) && Cfg() == old(Cfg()) && sealedWrites == old(sealedWrites)
      ensures r == 0 && !overrun ==>
                && sealed[..] == S.Seal(old(Cfg()), drive, lba, plain[..used], sealed.Length)
                && sealedWrites == old(sealedWrites) + 1
                && Cfg() == (if eccOn && ramOn
                             then old(Cfg()).(mirror := S.Mirror(drive, lba, used, S.ImageHash(plain[..used]),
                                                                 S.Records(plain[..used], S.Blocks(used))))
                             else old(Cfg()))
      ensures lastError == if r == 1 || overrun then old(lastError)
                           else if r == 0 then 0
                           else if sealed.Length < S.HEADER || (used + S.HEADER) % NO_WRAP > sealed.Length then 2 else 3
    {
      hide S.Records, S.ImageHash, S.Seal;
      if !enabled {
        return 1, false;
      }
      if sealed.Length < S.HEADER || (used + S.HEADER) % NO_WRAP > sealed.Length {
        lastError := 2;
        return -1, false;
      }
      var blocks := (used + 511) % NO_WRAP / 512;
      if blocks > S.MAX_BLOCKS {
        lastError := 3;
        return -1, false;
      }
      if used + S.HEADER > sealed.Length {
        return 0, true;
      }
      var hash := HashImage(plain, used);
      var records := BlockRecords(plain, used);
      WriteImage(drive, lba, plain, sealed, used, hash, records);
      if eccOn && ramOn {
        RamStore(drive, lba, used, hash, records);
      }
      sealedWrites := sealedWrites + 1;
      lastError := 0;
      return 0, false;
    }

    /** The zeroed image with its header and, if they are stored, the records. */
    method WriteHeader(drive: byte, lba: word, sealed: array<byte>, used: word, hash: word, records: seq<word>,
                       ghost plain: seq<byte>)
      requires Valid() && |plain| == used && S.Sealable(plain, sealed.Length)
      requires hash == S.ImageHash(plain) && records == S.Records(plain, S.Blocks(used))
      modifies sealed
      ensures 4 * |S.StoredRecords(Cfg(), plain)| <= 448
      ensures sealed[..] == Splice(Splice(Zeros(sealed.Length), 0,
                S.WordBytes(S.HeaderWords(Cfg(), drive, lba, plain))),
                                   S.RECORDS_AT, S.WordBytes(S.StoredRecords(Cfg(), plain)))
    {
      HeaderIs(Cfg(), drive, lba, plain);
      hide S.WordBytes, Splice, S.Records, S.ImageHash, S.Blocks, Zeros, S.HeaderWords, S.StoredRecords;
      ZeroFill(sealed);
      var storage := eccOn && storageOn;
      var flags := (if storage then 1 else 0) + (if eccOn && ramOn then 2 else 0);
      PutWords(sealed, 0, [S.MAGIC, 1, flags, drive, lba, used, keyHash, hash, |records|]);
      if storage {
        PutWords(sealed, S.RECORDS_AT, records);
      } else {
        SpliceNothing(sealed[..], S.RECORDS_AT);
      }
    }

    method WriteImage(drive: byte, lba: word, plain: array<byte>, sealed: array<byte>, used: word, hash: word,
                      records: seq<word>)
      requires Valid() && used <= plain.Length && plain != sealed && S.Sealable(plain[..used], sealed.Length)
      requires hash == S.ImageHash(plain[..used]) && records == S.Records(plain[..used], S.Blocks(used))
      modifies sealed
      ensures sealed[..] == S.Seal(Cfg(), drive, lba, plain[..used], sealed.Length)
    {
      hide S.Seal, S.WordBytes, S.Crypt, S.Scrub, Splice, S.Records, S.ImageHash, S.Blocks, Zeros, S.HeaderWords,
           S.StoredRecords;
      Assembled(Cfg(), drive, lba, plain[..used], sealed.Length);
      WriteHeader(drive, lba, sealed, used, hash, records, plain[..used]);
      assert plain[0..used] == plain[..used];
      CryptPayload(drive, lba, plain, 0, sealed, S.HEADER, used);
      if S.HEADER + used < sealed.Length {
        FillScrub(drive, lba, sealed, S.HEADER + used, sealed.Length - S.HEADER - used, used / 4);
      }
    }

    /** Here, too, overrun stands for a stored size that the wrapped check lets through. */
    method Open(drive: byte, lba: word, sealed: array<byte>, plain: array<byte>, used: word)
      returns (r: int, overrun: bool)
      requires Valid() && plain != sealed && plain.Length == sealed.Length < NO_WRAP && ramRecords as object != plain
      modifies this`openedSeals, this`corrections, this`failures, this`lastError, plain
      ensures Valid()
      ensures var s := sealed[..];
              overrun <==> S.Refusal(old(Cfg()), locked, drive, lba, s, used) == (-1, 8) && S.Overruns(s, used)
      ensures overrun ==> plain[..] == old(plain[..]) && corrections == old(corrections) && failures == old(failures)
      ensures !overrun ==>
              var o := S.Open(old(Cfg()), locked, drive, lba, sealed[..], old(plain[..]), used);
              && r == o.code && plain[..] == o.plain && corrections == old(corrections) + o.fixed
              && failures == old(failures) + (if o.error == 9 || o.error == 10 then 1 else 0)
              && openedSeals == old(openedSeals) + (if r == 0 then 1 else 0)
              && lastError == if o.error < 0 then old(lastError) else o.error
    {
      hide R32, S.LowByte, Security.Cfg, S.Refusal, S.OpenPayload, S.Overruns;
      var s := sealed[..];
      var code, error;
      code, error, overrun := Check(drive, lba, s, used);
      Accepted(Cfg(), locked, drive, lba, s, used);
      if overrun {
        return 0, true;
      }
      if code != 0 {
        lastError := if error < 0 then lastError else error;
        return code, false;
      }
      r := Finish(drive, lba, sealed, plain);
    }

    method Finish(drive: byte, lba: word, sealed: array<byte>, plain: array<byte>) returns (r: int)
      requires Valid() && plain != sealed && S.HEADER <= plain.Length == sealed.Length < NO_WRAP
               && ramRecords as object != plain
      requires S.LowByte(R32(sealed[..], 12)) == drive && R32(sealed[..], 16) == lba
      requires R32(sealed[..], 20) + S.HEADER <= sealed.Length
      modifies this`openedSeals, this`corrections, this`failures, this`lastError, plain
      ensures var o := S.OpenPayload(Cfg(), drive, lba, sealed[..]);
              && r == o.code && plain[..] == o.plain && corrections == old(corrections) + o.fixed
                && lastError == o.error
              && failures == old(failures) + (if o.error == 9 || o.error == 10 then 1 else 0)
              && openedSeals == old(openedSeals) + (if r == 0 then 1 else 0)
    {
      hide R32, S.RecordsFor, S.Crypt, S.Repair, S.ImageHash, S.LowByte, Zeros, Security.Cfg;
      KeyOf();
      var s := sealed[..];
      var n := R32(s, 20);
      var ok := Decrypt(drive, lba, sealed, plain, n);
      if !ok {
        failures, lastError := failures + 1, 9;
        return -1;
      }
      var h := HashImage(plain, n);
      if h != R32(s, 28) {
        failures, lastError := failures + 1, 10;
        return -1;
      }
      openedSeals, lastError := openedSeals + 1, 0;
      return 0;
    }

    lemma KeyOf()
      requires Valid()
      ensures Cfg().key == key && Cfg().keyHash == keyHash
    {
    }

    method Check(drive: byte, lba: word, s: seq<byte>, used: word) returns (code: int, error: int, overrun: bool)
      requires Valid() && |s| < NO_WRAP
      ensures !overrun ==> (code, error) == S.Refusal(Cfg(), locked, drive, lba, s, used)
      ensures overrun <==> S.Refusal(Cfg(), locked, drive, lba, s, used) == (-1, 8) && S.Overruns(s, used)
    {
      hide R32, S.LowByte;
      if |s| < S.HEADER {
        return -1, 4, false;
      }
      if R32(s, 0) != S.MAGIC {
        return 1, -1, false;
      }
      if locked {
        return -1, 5, false;
      }
      if R32(s, 4) != 1 || R32(s, 24) != keyHash {
        return -1, 6, false;
      }
      if S.LowByte(R32(s, 12)) != drive || R32(s, 16) != lba {
        return -1, 7, false;
      }
      if R32(s, 20) > used || (R32(s, 20) + S.HEADER) % NO_WRAP > |s| {
        return -1, 8, false;
      }
      return 0, 0, R32(s, 20) + S.HEADER > |s|;
    }

    /** Decrypts into plain and repairs what the records can repair. */
    method Decrypt(drive: byte, lba: word, sealed: array<byte>, plain: array<byte>, n: nat) returns (ok: bool)
      requires Valid() && plain != sealed && plain.Length == sealed.Length < NO_WRAP && n + S.HEADER <= sealed.Length
      requires S.LowByte(R32(sealed[..], 12)) == drive && R32(sealed[..], 16) == lba && R32(sealed[..], 20) == n
      requires ramRecords as object != plain
      modifies this`corrections, plain
      ensures var records := S.RecordsFor(Cfg(), sealed[..]);
              var p := S.Repair(S.Crypt(key, drive, lba, sealed[..][S.HEADER..S.HEADER + n]), records, |records|);
              && ok == p.ok && plain[..] == p.data + Zeros(sealed.Length - n) && plain[..n] == p.data
              && corrections == old(corrections) + p.fixed
    {
      hide S.Repair, S.RecordsFor, S.Crypt, R32, S.LowByte, Splice;
      ZeroFill(plain);
      CryptPayload(drive, lba, sealed, S.HEADER, plain, 0, n);
      ghost var t := S.Crypt(key, drive, lba, sealed[..][S.HEADER..S.HEADER + n]);
      assert sealed[S.HEADER..S.HEADER + n] == sealed[..][S.HEADER..S.HEADER + n];
      OverZeros(plain.Length, t);
      assert plain[..n] == plain[..][..n] && plain[n..] == plain[..][n..];
      ok := RepairBlocks(drive, lba, sealed, plain, n);
      assert plain[..] == plain[..n] + plain[n..];
    }

    /** One block: fixed, counted, or given up. */
    method RepairRound(plain: array<byte>, n: nat, i: nat, expected: nat, ghost t: seq<byte>, ghost records: seq<nat>,
                       ghost base: nat)
      returns (ok: bool)
      requires n <= plain.Length && i < |records| && BLOCK * i < n && |t| == n && expected == records[i]
      requires var p := S.Repair(t, records, i); p.ok && plain[..n] == p.data && corrections == base + p.fixed
      modifies this`corrections, plain
      ensures var p := S.Repair(t, records, i + 1); ok == p.ok && plain[..n] == p.data && corrections == base + p.fixed
      ensures plain[n..] == old(plain[n..])
    {
      hide S.Repair, FixBlock;
      var off := i * BLOCK;
      var len := if n - off > BLOCK then BLOCK else n - off;
      ghost var before := plain[..n];
      SliceOf(plain[..], n, off, off + len);
      var fix := FixInPlace(plain, off, len, expected);
      SameAround(old(plain[..]), plain[..], off, len, n);
      FixedOne(before, plain[..n], off, len);
      SliceOf(plain[..], n, off, off + len);
      OneRound(t, records, i);
      if fix > 0 {
        corrections := corrections + 1;
      }
      ok := fix >= 0;
    }

    /** Where the records come from, and how many rounds that makes. */
    method Source(drive: byte, lba: word, s: seq<byte>, n: nat) returns (useRam: bool, rounds: nat)
      requires Valid() && S.HEADER <= |s| < NO_WRAP && n < NO_WRAP
      requires S.LowByte(R32(s, 12)) == drive && R32(s, 16) == lba && R32(s, 20) == n
      ensures rounds == |S.RecordsFor(Cfg(), s)| <= S.MAX_BLOCKS
      ensures forall i | 0 <= i < rounds ::
                S.RecordsFor(Cfg(), s)[i] == if useRam then ramRecords[i] else R32(s, S.RECORDS_AT + 4 * i)
    {
      hide R32, S.ReadWords, S.MirrorMatches, S.LowByte;
      var flags, blocks := R32(s, 8), R32(s, 32);
      StoredAt(s, blocks);
      useRam := RamMatches(drive, lba, n, R32(s, 28), blocks);
      MirrorIs(drive, lba, n, R32(s, 28), blocks);
      if !eccOn || blocks > S.MAX_BLOCKS || !(flags % 2 == 1 || useRam) {
        return useRam, 0;
      }
      var useStorage := !useRam && storageOn && flags % 2 == 1;
      rounds := if useRam || useStorage then blocks else 0;
    }

    lemma MirrorIs(drive: byte, lba: word, n: word, hash: word, blocks: word)
      requires Valid()
      ensures S.MirrorMatches(Cfg(), drive, lba, n, hash, blocks) ==>
                eccOn && blocks <= S.MAX_BLOCKS && |Cfg().mirror.records| == blocks
                && forall i | 0 <= i < blocks :: Cfg().mirror.records[i] == ramRecords[i]
    {
    }

    method RepairBlocks(drive: byte, lba: word, sealed: array<byte>, plain: array<byte>, n: nat) returns (ok: bool)
      requires Valid() && plain != sealed && plain.Length == sealed.Length < NO_WRAP && n + S.HEADER <= sealed.Length
      requires S.LowByte(R32(sealed[..], 12)) == drive && R32(sealed[..], 16) == lba && R32(sealed[..], 20) == n
      requires ramRecords as object != plain
      modifies this`corrections, plain
      ensures var records := S.RecordsFor(Cfg(), sealed[..]);
              var p := S.Repair(old(plain[..n]), records, |records|);
              && ok == p.ok && plain[..n] == p.data && plain[n..] == old(plain[n..])
                && corrections == old(corrections) + p.fixed
    {
      hide S.Repair, R32, S.RecordsFor, S.LowByte, Security.Cfg;
      var s := sealed[..];
      ghost var t, records := plain[..n], S.RecordsFor(Cfg(), s);
      var useRam, rounds := Source(drive, lba, s, n);
      NoRounds(t, records);
      var i := 0;
      while i < rounds && i * BLOCK < n
        invariant 0 <= i <= rounds && plain[n..] == old(plain[n..])
        invariant old(corrections) <= corrections
        invariant S.Repair(t, records, i) == S.Repaired(true, plain[..n], corrections - old(corrections))
      {
        var expected := if useRam then ramRecords[i] else R32(s, S.RECORDS_AT + 4 * i);
        ok := RepairRound(plain, n, i, expected, t, records, old(corrections));
        if !ok {
          P.FailureStays(t, records, i + 1, |records|);
          return false;
        }
        i := i + 1;
      }
      RestUntouched(t, records, i, |records|);
      ok := true;
    }
  }

  lemma {:induction false} OverZeros(n: nat, t: seq<byte>)
    requires |t| <= n
    ensures var s := Splice(Zeros(n), 0, t); s[..|t|] == t && s[|t|..] == Zeros(n - |t|)
  {
  }

  lemma Accepted(c: S.Config, locked: bool, drive: byte, lba: word, s: seq<byte>, used: nat)
    ensures S.Refusal(c, locked, drive, lba, s, used).0 == 0 ==> S.LowByte(R32(s, 12)) == drive && R32(s, 16) == lba
    ensures S.Refusal(c, locked, drive, lba, s, used).0 != 0 ==> S.Refusal(c, locked, drive, lba, s, used).1 !in {9, 10}
    ensures S.Refusal(c, locked, drive, lba, s, used).0 == 0 ==> S.Refusal(c, locked, drive, lba, s, used).1 == 0
  {
    hide R32, S.LowByte;
  }

  lemma {:induction false} BlockSlice(a: seq<byte>, s: seq<byte>, used: nat, i: nat, off: nat, n: nat)
    requires used <= |a| && s == a[..used] && i < S.Blocks(used) && off == i * BLOCK < used
    requires n == if used - off > BLOCK then BLOCK else used - off
    ensures BLOCK * i <= |s| && a[off..off + n] == S.BlockAt(s, i)
  {
  }

  lemma HeaderIs(c: S.Config, drive: byte, lba: word, plain: seq<byte>)
    requires |plain| < NO_WRAP
    ensures S.HeaderWords(c, drive, lba, plain)
            == [S.MAGIC, 1, (if c.eccOn && c.storageOn then 1 else 0) + (if c.eccOn && c.ramOn then 2 else 0), drive,
                lba, |plain|, c.keyHash, S.ImageHash(plain), S.Blocks(|plain|)]
    ensures S.StoredRecords(c, plain) == if c.eccOn && c.storageOn then S.Records(plain, S.Blocks(|plain|)) else []
  {
  }

  lemma {:induction false} SpliceNone(s: seq<byte>, at: nat, t: seq<byte>)
    requires at <= |s|
    ensures Splice(s, at, t[..0]) == s
  {
  }

  lemma SpliceNothing(s: seq<byte>, at: nat)
    requires at <= |s|
    ensures Splice(s, at, S.WordBytes([])) == s
  {
  }

  lemma SpliceOn(was: seq<byte>, at: nat, x: seq<byte>, y: seq<byte>)
    requires at + |x| + |y| <= |was|
    ensures Splice(Splice(was, at, x), at + |x|, y) == Splice(was, at, x + y)
  {
  }

  lemma NextWord(was: seq<byte>, at: nat, ws: seq<word>, i: nat)
    requires i < |ws| && at + 4 * |ws| <= |was|
    ensures Splice(Splice(was, at, S.WordBytes(ws[..i])), at + 4 * i, W32(ws[i]))
              == Splice(was, at, S.WordBytes(ws[..i + 1]))
  {
    assert ws[..i + 1][..i] == ws[..i];
    hide W32, Splice;
    SpliceOn(was, at, S.WordBytes(ws[..i]), W32(ws[i]));
  }

  lemma FourParts(size: nat, h: seq<byte>, r: seq<byte>, p: seq<byte>, x: seq<byte>)
    requires |h| == 36 && |r| <= 448 && size == 512 + |p| + |x|
    ensures Splice(Splice(Splice(Splice(Zeros(size), 0, h), 64, r), 512, p), 512 + |p|, x)
            == h + Zeros(28) + r + Zeros(448 - |r|) + p + x
  {
    var s1 := Splice(Zeros(size), 0, h);
    assert s1 == h + Zeros(size - 36);
    var s2 := Splice(s1, 64, r);
    assert s2 == h + Zeros(28) + r + Zeros(size - 64 - |r|);
    var s3 := Splice(s2, 512, p);
    assert s3 == h + Zeros(28) + r + Zeros(448 - |r|) + p + Zeros(|x|);
  }

  /** The four writes that make up the image; empty ones may be skipped. */
  lemma Assembled(c: S.Config, drive: byte, lba: word, plain: seq<byte>, size: nat)
    requires S.Sealable(plain, size)
    ensures var s1 := Splice(Zeros(size), 0, S.WordBytes(S.HeaderWords(c, drive, lba, plain)));
            && 4 * |S.StoredRecords(c, plain)| <= 448
            && var s2 := Splice(s1, S.RECORDS_AT, S.WordBytes(S.StoredRecords(c, plain)));
            && var s3 := Splice(s2, S.HEADER, S.Crypt(c.key, drive, lba, plain));
            && (S.StoredRecords(c, plain) == [] ==> s2 == s1)
            && Splice(s3, S.HEADER + |plain|, S.Scrub(c.key, drive, lba, |plain| / 4, size - S.HEADER - |plain|))
               == S.Seal(c, drive, lba, plain, size)
            && (S.HEADER + |plain| == size ==> s3 == S.Seal(c, drive, lba, plain, size))
  {
    hide S.HeaderWords, S.StoredRecords, S.Crypt, S.Scrub, S.WordBytes, S.Seal, S.Blocks, Splice, Zeros;
    var x := S.Scrub(c.key, drive, lba, |plain| / 4, size - S.HEADER - |plain|);
    var h, r := S.WordBytes(S.HeaderWords(c, drive, lba, plain)), S.WordBytes(S.StoredRecords(c, plain));
    SealIs(c, drive, lba, plain, size);
    FourParts(size, h, r, S.Crypt(c.key, drive, lba, plain), x);
    var s1 := Splice(Zeros(size), 0, h);
    if S.StoredRecords(c, plain) == [] {
      SpliceNothing(s1, S.RECORDS_AT);
    }
    if S.HEADER + |plain| == size {
      SpliceEmpty(Splice(Splice(s1, S.RECORDS_AT, r), S.HEADER, S.Crypt(c.key, drive, lba, plain)), size, x);
    }
  }

  lemma {:induction false} SpliceEmpty(s: seq<byte>, at: nat, x: seq<byte>)
    requires at <= |s| && x == []
    ensures Splice(s, at, x) == s
  {
  }

  lemma {:induction false} SealIs(c: S.Config, drive: byte, lba: word, plain: seq<byte>, size: nat)
    requires S.Sealable(plain, size)
    ensures var h, r := S.WordBytes(S.HeaderWords(c, drive, lba, plain)), S.WordBytes(S.StoredRecords(c, plain));
            && |h| == 36 && |r| == 4 * |S.StoredRecords(c, plain)| <= 448
            && S.Seal(c, drive, lba, plain, size)
               == h + Zeros(28) + r + Zeros(448 - |r|) + S.Crypt(c.key, drive, lba, plain)
                  + S.Scrub(c.key, drive, lba, |plain| / 4, size - S.HEADER - |plain|)
  {
    hide S.HeaderWords, S.StoredRecords, S.Crypt, S.Scrub, S.WordBytes, Zeros;
  }

  lemma {:induction false} StoredAt(s: seq<byte>, n: nat)
    requires |s| >= S.HEADER
    ensures n <= S.MAX_BLOCKS ==>
              forall i | 0 <= i < n :: S.ReadWords(s, S.RECORDS_AT, n)[i] == R32(s, S.RECORDS_AT + 4 * i)
  {
    hide R32;
    if n > 0 {
      StoredAt(s, n - 1);
    }
  }

  lemma NoRounds(t: seq<byte>, records: seq<nat>)
    ensures S.Repair(t, records, 0) == S.Repaired(true, t, 0)
  {
  }

  lemma FixedOne(before: seq<byte>, after: seq<byte>, off: nat, len: nat)
    requires |before| == |after| && off + len <= |before|
    requires forall k | 0 <= k < |before| && !(off <= k < off + len) :: after[k] == before[k]
    ensures after == Splice(before, off, after[off..off + len])
  {
  }

  lemma SliceOf(s: seq<byte>, n: nat, a: nat, b: nat)
    requires a <= b <= n <= |s|
    ensures s[..n][a..b] == s[a..b]
  {
  }

  lemma SameAround(was: seq<byte>, now: seq<byte>, off: nat, len: nat, n: nat)
    requires |was| == |now| && off + len <= n <= |was| && now[..off] == was[..off]
             && now[off + len..] == was[off + len..]
    ensures forall k | 0 <= k < n && !(off <= k < off + len) :: now[..n][k] == was[..n][k]
    ensures now[n..] == was[n..]
  {
    assert forall k | off + len <= k < |was| :: now[k] == now[off + len..][k - off - len] == was[k];
    assert forall k | 0 <= k < off :: now[k] == now[..off][k] == was[k];
  }

  lemma OneRound(t: seq<byte>, records: seq<nat>, i: nat)
    requires i < |records| && S.Repair(t, records, i).ok && BLOCK * i < |t|
    ensures var p := S.Repair(t, records, i);
            var (r, b) := FixBlock(S.BlockAt(p.data, i), records[i]);
            S.Repair(t, records, i + 1)
                == S.Repaired(r >= 0, Splice(p.data, BLOCK * i, b), p.fixed + if r > 0 then 1 else 0)
  {
  }

  lemma {:induction false} RestUntouched(t: seq<byte>, records: seq<nat>, i: nat, n: nat)
    requires i <= n <= |records| && (i == n || BLOCK * i >= |t|)
    ensures S.Repair(t, records, n) == S.Repair(t, records, i)
    decreases n
  {
    hide FixBlock, Splice, S.BlockAt;
    if i < n {
      RestUntouched(t, records, i, n - 1);
    }
  }
}
