/** What an accepted bank of the persistence image is, in plain numbers at fixed places,
    and what restoring an entry may change. */
module LpstChecks {
  import opened BitOps
  import opened Bytes
  import opened BytesFacts
  import opened LpstFormat

  /** The length of the header that a bank's version number stands for. */
  function HeaderLength(b: seq<byte>): nat
    requires |b| == 32768
  {
    if Number(b, 4) == 1 then 20 else 24
  }

  /** The bytes behind the header, up to the length the header gives, hash to the number
      at 16. */
  predicate SumMatches(b: seq<byte>) {
    && |b| == 32768
    && HeaderLength(b) <= Number(b, 12) <= 32768
    && Hash(b[HeaderLength(b)..Number(b, 12)]) == Number(b, 16)
  }

  /** Exactly the banks that begin with LPST, have version 1 or 2, at most 32 entries of 48
      bytes inside the length they give, and the right sum, are accepted; and the answer
      repeats the header's fields. */
  lemma {:induction false} ValidExactly(b: seq<byte>)
    requires |b| == 32768
    ensures Validate(b).Good? <==>
            && b[0..4] == [0x4C, 0x50, 0x53, 0x54] && (Number(b, 4) == 1 || Number(b, 4) == 2)
            && Number(b, 8) <= 32 && HeaderLength(b) + 48 * Number(b, 8) <= Number(b, 12)
            && SumMatches(b)
    ensures Validate(b).Good? ==>
              Validate(b) == Good(HeaderLength(b), Number(b, 8), Number(b, 12),
                                  if Number(b, 4) == 1 then 0 else Number(b, 20))
  {
    hide Hash, R32, Number;
    ReadsNumber(b, 0);
    ReadsNumber(b, 4);
    ReadsNumber(b, 8);
    ReadsNumber(b, 12);
    ReadsNumber(b, 16);
    ReadsNumber(b, 20);
    MagicBytes(b);
  }

  lemma {:induction false} MagicBytes(b: seq<byte>)
    requires |b| >= 4
    ensures Number(b, 0) == MAGIC <==> b[0..4] == [0x4C, 0x50, 0x53, 0x54]
  {
    var m := b[0..4];
    assert m[0] == b[0] && m[1] == b[1] && m[2] == b[2] && m[3] == b[3];
    if Number(b, 0) == MAGIC {
      DigitsOf(b[0], b[1], b[2], b[3], MAGIC);
    }
  }

  /** The refusals in the order of the checks: 1 for the first bytes, 2 for the version, 3 for
      the lengths and 4 for the sum, all negative. */
  lemma {:induction false} RefusedExactly(b: seq<byte>)
    requires |b| == 32768 && Validate(b).Bad?
    ensures Validate(b).code ==
            if b[0..4] != [0x4C, 0x50, 0x53, 0x54] then -1
            else if Number(b, 4) != 1 && Number(b, 4) != 2 then -2
            else if Number(b, 8) > 32 || HeaderLength(b) > Number(b, 12) || Number(b, 12) > 32768
                    || HeaderLength(b) + 48 * Number(b, 8) > Number(b, 12) then -3
            else -4
  {
    hide Hash, R32, Number;
    ReadsNumber(b, 0);
    ReadsNumber(b, 4);
    ReadsNumber(b, 8);
    ReadsNumber(b, 12);
    MagicBytes(b);
  }

  /** A bank in which one byte behind the header has changed is refused. */
  lemma {:induction false} OneByteRefused(b: seq<byte>, k: nat, x: byte)
    requires |b| == 32768 && Validate(b).Good? && Validate(b).header <= k < Validate(b).total && x != b[k]
    ensures Validate(b[k := x]) == Bad(-4)
  {
    hide Hash, R32, Number;
    var h, t, c := Validate(b).header, Validate(b).total, b[k := x];
    HeaderStays(b, k, x, 0);
    HeaderStays(b, k, x, 4);
    HeaderStays(b, k, x, 8);
    HeaderStays(b, k, x, 12);
    HeaderStays(b, k, x, 16);
    HashSeesOneByte(b[h..t], k - h, x);
    assert c[h..t] == b[h..t][k - h := x];
  }

  lemma HeaderStays(b: seq<byte>, k: nat, x: byte, i: nat)
    requires i + 4 <= k < |b|
    ensures R32(b[k := x], i) == R32(b, i)
  {
  }

  // ---- restoring ----

  /** What one entry may do to the files: nothing, or to one of them give it the contents that
      lie where the entry says, when the entry has the file's capacity, the contents fit into
      it and into the image, and hash to the entry's sum; the capacity stays, and so does the
      name unless an empty slot takes the entry's. */
  lemma {:induction false} EntrySafe(fs: seq<File>, b: seq<byte>, total: nat, e: seq<byte>, i: nat)
    requires |b| == 32768 && total <= 32768 && |e| == 48
    ensures var r := LoadEntry(fs, b, total, e, i);
            |r| == |fs| && (r == fs || exists w :: 0 <= w < |fs| && Restored(fs, r, b, total, e, w))
  {
    hide Hash, R32, Number, EntryName, ValidName, EmptySlot, FindName;
    ReadsNumber(e, 32);
    ReadsNumber(e, 36);
    ReadsNumber(e, 40);
    ReadsNumber(e, 44);
    var r := LoadEntry(fs, b, total, e, i);
    if r != fs {
      var w := Pick(fs, e, i).0;
      assert Restored(fs, r, b, total, e, w);
    }
  }

  ghost predicate Restored(fs: seq<File>, r: seq<File>, b: seq<byte>, total: nat, e: seq<byte>, w: nat)
    requires w < |fs| && |e| == 48
  {
    var size, off := Number(e, 32), Number(e, 36);
    && |r| == |fs| && (forall j | 0 <= j < |fs| && j != w :: r[j] == fs[j])
    && r[w].cap == fs[w].cap == Number(e, 40) && size <= fs[w].cap
    && 0 <= off <= off + size <= total <= |b| && r[w].contents == b[off..off + size]
    && Hash(b[off..off + size]) == Number(e, 44)
    && (r[w].name == fs[w].name || (EmptySlot(fs[w]) && ValidName(EntryName(e)) && r[w].name == EntryName(e)))
  }

  /** Each file fits its buffer, which is as large as before. */
  ghost predicate Bounded(fs: seq<File>, r: seq<File>) {
    |r| == |fs| && forall j | 0 <= j < |r| :: |r[j].contents| <= r[j].cap == fs[j].cap
  }

  /** A whole load, of whatever bytes, never makes a file larger than its buffer. */
  lemma {:induction false} LoadKeepsSizes(fs: seq<File>, b: seq<byte>, header: nat, total: nat, n: nat)
    requires |b| == 32768 && header + 48 * n <= total <= 32768
    requires forall j | 0 <= j < |fs| :: |fs[j].contents| <= fs[j].cap
    ensures Bounded(fs, LoadEntries(fs, b, header, total, n))
  {
    hide LoadEntry;
    if n > 0 {
      LoadKeepsSizes(fs, b, header, total, n - 1);
      hide Bounded;
      var at := header + 48 * (n - 1);
      StepKeepsSizes(fs, LoadEntries(fs, b, header, total, n - 1), b, total, b[at..at + 48], n - 1);
    }
  }

  lemma {:induction false} StepKeepsSizes(fs: seq<File>, now: seq<File>, b: seq<byte>, total: nat, e: seq<byte>, i: nat)
    requires |b| == 32768 && total <= 32768 && |e| == 48 && Bounded(fs, now)
    ensures Bounded(fs, LoadEntry(now, b, total, e, i))
  {
    hide LoadEntry, EmptySlot, ValidName, EntryName, Hash, Number;
    EntrySafe(now, b, total, e, i);
    var r := LoadEntry(now, b, total, e, i);
    if r != now {
      var w: nat :| w < |now| && Restored(now, r, b, total, e, w);
      assert |r[w].contents| <= r[w].cap == now[w].cap;
    }
  }

  /** An entry whose contents do not hash to its sum changes nothing. */
  lemma {:induction false} DamagedEntryIgnored(fs: seq<File>, b: seq<byte>, total: nat, e: seq<byte>, i: nat)
    requires |b| == 32768 && total <= 32768 && |e| == 48
    requires var size, off := Number(e, 32), Number(e, 36);
             0 <= off <= off + size <= total ==> Hash(b[off..off + size]) != Number(e, 44)
    ensures LoadEntry(fs, b, total, e, i) == fs
  {
    hide Hash, Number, R32, EntryName, ValidName, EmptySlot, Pick;
    ReadsNumber(e, 32);
    ReadsNumber(e, 36);
    ReadsNumber(e, 44);
  }

  // ---- names ----

  /** A stored name counts when it has 1 to 31 characters, all of them printable ASCII or DEL
      and none of them a space, a slash, a backslash, a colon or a bar. */
  lemma {:induction false} NamesAccepted(n: seq<byte>)
    ensures ValidName(n) <==>
            && 1 <= |n| <= 31
            && (forall i | 0 <= i < |n| :: 33 <= n[i] <= 127)
            && 47 !in n && 92 !in n && 58 !in n && 124 !in n
  {
  }

  /** A file counts as an empty slot when it holds nothing and its name begins with rxrslot. */
  lemma {:induction false} EmptySlots(f: File)
    ensures EmptySlot(f) <==>
            f.contents == [] && |f.name| >= 7 && forall i | 0 <= i < 7 :: f.name[i] == "rxrslot"[i] as int
  {
    assert |RXRSLOT| == 7;
    assert forall i | 0 <= i < 7 :: RXRSLOT[i] == "rxrslot"[i] as int;
  }
}
