/** The persistence image of os/kernel/fs.c: header, directory entries, file
    contents and zero fill, in one bank of 64 sectors. */
module LpstFormat {
  import opened BitOps
  import opened Bytes

  const MAGIC: word := 0x5453504C
  const VERSION: word := 2
  const BANK_BYTES: nat := 32768
  const HEADER: nat := 24
  const HEADER_V1: nat := 20
  const ENTRY: nat := 48
  const NAME_BYTES: nat := 32
  const MAX_ENTRIES: nat := 32

  type Name = n: seq<byte> | |n| < NAME_BYTES && forall i | 0 <= i < |n| :: n[i] != 0

  /** A writable file: its name, what it holds and the capacity of its buffer. */
  datatype File = File(name: Name, contents: seq<byte>, cap: word)

  datatype Verdict = Bad(code: int) | Good(header: nat, count: nat, total: nat, generation: word)

  function Padded(n: Name): (s: seq<byte>)
    ensures |s| == NAME_BYTES
  {
    n + Zeros(NAME_BYTES - |n|)
  }

  predicate Sized(f: File) {
    |f.contents| <= f.cap
  }

  function EntryOf(f: File, off: word): (s: seq<byte>)
    requires Sized(f)
    ensures |s| == ENTRY
  {
    Padded(f.name) + W32(|f.contents|) + W32(off) + W32(f.cap) + W32(Hash(f.contents))
  }

  /** Everything the first n files hold, one after the other. */
  function Datas(fs: seq<File>, n: nat): seq<byte>
    requires n <= |fs|
  {
    if n == 0 then [] else Datas(fs, n - 1) + fs[n - 1].contents
  }

  function DataStart(fs: seq<File>): nat {
    HEADER + ENTRY * |fs|
  }

  function Offset(fs: seq<File>, n: nat): (o: nat)
    requires n <= |fs|
    ensures o >= DataStart(fs)
  {
    DataStart(fs) + |Datas(fs, n)|
  }

  /** The check made while the image is built: directory and contents fit into a bank. */
  predicate Fits(fs: seq<File>, n: nat)
    requires n <= |fs|
  {
    Offset(fs, n) <= BANK_BYTES && forall i | 0 <= i < n :: Sized(fs[i])
  }

  function Entries(fs: seq<File>, n: nat): (s: seq<byte>)
    requires n <= |fs| && Fits(fs, n)
    ensures |s| == ENTRY * n
  {
    if n == 0 then [] else
      FitsLess(fs, n - 1, n);
      Entries(fs, n - 1) + EntryOf(fs[n - 1], Offset(fs, n - 1))
  }

  lemma {:induction false} FitsLess(fs: seq<File>, m: nat, n: nat)
    requires m <= n <= |fs|
    ensures |Datas(fs, m)| <= |Datas(fs, n)| && (Fits(fs, n) ==> Fits(fs, m))
    decreases n - m
  {
    if m < n {
      FitsLess(fs, m, n - 1);
    }
  }

  function Body(fs: seq<File>): seq<byte>
    requires Fits(fs, |fs|)
  {
    Entries(fs, |fs|) + Datas(fs, |fs|)
  }

  function Header(count: word, total: word, sum: word, generation: word): (s: seq<byte>)
    ensures |s| == HEADER
  {
    W32(MAGIC) + W32(VERSION) + W32(count) + W32(total) + W32(sum) + W32(generation)
  }

  function Total(fs: seq<File>): nat {
    Offset(fs, |fs|)
  }

  /** What fs_persist_save writes to the target bank. */
  function Image(fs: seq<File>, generation: word): (s: seq<byte>)
    requires Fits(fs, |fs|)
    ensures |s| == BANK_BYTES
  {
    Header(|fs|, Total(fs), Hash(Body(fs)), generation) + Body(fs) + Zeros(BANK_BYTES - Total(fs))
  }

  /** lpst_validate_bank. */
  function Validate(b: seq<byte>): Verdict
    requires |b| == BANK_BYTES
  {
    if R32(b, 0) != MAGIC then Bad(-1)
    else if R32(b, 4) != 1 && R32(b, 4) != VERSION then Bad(-2)
    else
      var v1 := R32(b, 4) == 1;
      var h, c, t := if v1 then HEADER_V1 else HEADER, R32(b, 8), R32(b, 12);
      if c > MAX_ENTRIES || t < h || t > BANK_BYTES || h + ENTRY * c > t then Bad(-3)
      else if Hash(b[h..t]) != R32(b, 16) then Bad(-4)
      else Good(h, c, t, if v1 then 0 else R32(b, 20))
  }

  /** Length of the C string at the start of s. */
  function CLen(s: seq<byte>): (n: nat)
    ensures n <= |s| && (n < |s| ==> s[n] == 0) && forall i | 0 <= i < n :: s[i] != 0
  {
    if s == [] || s[0] == 0 then 0 else 1 + CLen(s[1..])
  }

  /** Bytes from 128 up are negative chars, so the comparison with ' ' rejects them. */
  predicate NameByte(b: byte) {
    32 < b < 128 && b != '/' as int && b != '\\' as int && b != ':' as int && b != '|' as int
  }

  predicate ValidName(n: seq<byte>) {
    n != [] && |n| < NAME_BYTES && forall i | 0 <= i < |n| :: NameByte(n[i])
  }

  /** The name stored in a directory entry. */
  function EntryName(e: seq<byte>): seq<byte>
    requires |e| == ENTRY
  {
    e[..CLen(e[..NAME_BYTES])]
  }

  function FindName(fs: seq<File>, n: seq<byte>, from: nat): (r: int)
    requires from <= |fs|
    ensures -1 <= r < |fs|
    decreases |fs| - from
  {
    if from == |fs| then -1 else if fs[from].name == n then from else FindName(fs, n, from + 1)
  }

  const RXRSLOT: seq<byte> := [0x72, 0x78, 0x72, 0x73, 0x6C, 0x6F, 0x74]

  predicate EmptySlot(f: File) {
    f.contents == [] && RXRSLOT <= f.name
  }

  /** Which file an entry belongs to: the one of that name, else the one at the
      same position; and whether the name matched. */
  function Pick(fs: seq<File>, e: seq<byte>, i: nat): (r: (int, bool))
    requires |e| == ENTRY
    ensures -1 <= r.0 < |fs|
  {
    var m := if ValidName(EntryName(e)) then FindName(fs, EntryName(e), 0) else -1;
    if m >= 0 then (m, true) else if i < |fs| then (i, false) else (-1, false)
  }

  /** One round of the restore loop of fs_persist_load. */
  function LoadEntry(fs: seq<File>, b: seq<byte>, total: nat, e: seq<byte>, i: nat): (r: seq<File>)
    requires |b| == BANK_BYTES && total <= BANK_BYTES && |e| == ENTRY
    ensures |r| == |fs|
  {
    var (w, byName) := Pick(fs, e, i);
    var size, off := R32(e, 32), R32(e, 36);
    if w < 0 then fs
    else if R32(e, 40) != fs[w].cap || size > fs[w].cap || off > total || size > total - off then fs
    else if Hash(b[off..off + size]) != R32(e, 44) then fs
    else
      var renamed := !byName && EmptySlot(fs[w]) && ValidName(EntryName(e));
      fs[w := File(if renamed then NameOf(EntryName(e)) else fs[w].name, b[off..off + size], fs[w].cap)]
  }

  function NameOf(n: seq<byte>): Name
    requires ValidName(n)
  {
    n
  }

  function LoadEntries(fs: seq<File>, b: seq<byte>, header: nat, total: nat, n: nat): (r: seq<File>)
    requires |b| == BANK_BYTES && header + ENTRY * n <= total <= BANK_BYTES
    ensures |r| == |fs|
  {
    if n == 0 then fs else
      var at := header + ENTRY * (n - 1);
      LoadEntry(LoadEntries(fs, b, header, total, n - 1), b, total, b[at..at + ENTRY], n - 1)
  }

  // ---- The image reads back ----

  lemma HeaderFields(count: word, total: word, sum: word, generation: word)
    ensures var h := Header(count, total, sum, generation);
            R32(h, 0) == MAGIC && R32(h, 4) == VERSION && R32(h, 8) == count && R32(h, 12) == total
            && R32(h, 16) == sum && R32(h, 20) == generation
  {
    hide W32, R32;
    var h := Header(count, total, sum, generation);
    assert h[0..4] == W32(MAGIC) && h[4..8] == W32(VERSION) && h[8..12] == W32(count);
    assert h[12..16] == W32(total) && h[16..20] == W32(sum) && h[20..24] == W32(generation);
    ReadAt(h, 0, MAGIC);
    ReadAt(h, 4, VERSION);
    ReadAt(h, 8, count);
    ReadAt(h, 12, total);
    ReadAt(h, 16, sum);
    ReadAt(h, 20, generation);
  }

  lemma EntryFields(f: File, off: word)
    requires Sized(f)
    ensures var e := EntryOf(f, off);
            R32(e, 32) == |f.contents| && R32(e, 36) == off && R32(e, 40) == f.cap && R32(e, 44) == Hash(f.contents)
  {
    hide W32, R32, Hash, Padded;
    var e := EntryOf(f, off);
    assert e[32..36] == W32(|f.contents|) && e[36..40] == W32(off);
    assert e[40..44] == W32(f.cap) && e[44..48] == W32(Hash(f.contents));
    ReadAt(e, 32, |f.contents|);
    ReadAt(e, 36, off);
    ReadAt(e, 40, f.cap);
    ReadAt(e, 44, Hash(f.contents));
  }

  lemma {:induction false} CLenOf(n: seq<byte>, z: seq<byte>)
    requires forall i | 0 <= i < |n| :: n[i] != 0
    requires z != [] && z[0] == 0
    ensures CLen(n + z) == |n|
  {
    if n == [] {
      assert n + z == z;
    } else {
      assert (n + z)[1..] == n[1..] + z;
      CLenOf(n[1..], z);
    }
  }

  lemma EntryNameBack(f: File, off: word)
    requires Sized(f)
    ensures EntryName(EntryOf(f, off)) == f.name
  {
    hide W32, Hash;
    var e := EntryOf(f, off);
    assert e[..NAME_BYTES] == f.name + Zeros(NAME_BYTES - |f.name|);
    CLenOf(f.name, Zeros(NAME_BYTES - |f.name|));
  }

  /** Entry i of the directory, inside the whole directory. */
  lemma {:induction false} EntryWithin(fs: seq<File>, n: nat, i: nat)
    requires i < n <= |fs| && Fits(fs, n)
    ensures Fits(fs, i) && Fits(fs, i + 1)
    ensures Entries(fs, n)[ENTRY * i..ENTRY * i + ENTRY] == EntryOf(fs[i], Offset(fs, i))
    decreases n
  {
    hide EntryOf, Fits, Offset, Datas;
    FitsLess(fs, i, n);
    FitsLess(fs, i + 1, n);
    FitsLess(fs, n - 1, n);
    if i < n - 1 {
      EntryWithin(fs, n - 1, i);
      Within(Entries(fs, n), 0, ENTRY * (n - 1), ENTRY * i, ENTRY * i + ENTRY);
      assert Entries(fs, n)[0..ENTRY * (n - 1)] == Entries(fs, n - 1);
    }
  }

  lemma {:induction false} DataWithin(fs: seq<File>, n: nat, i: nat)
    requires i < n <= |fs|
    ensures var o := |Datas(fs, i)|;
            o + |fs[i].contents| <= |Datas(fs, n)| && Datas(fs, n)[o..o + |fs[i].contents|] == fs[i].contents
    decreases n
  {
    if i < n - 1 {
      DataWithin(fs, n - 1, i);
    }
  }

  lemma ImageBody(fs: seq<File>, generation: word)
    requires Fits(fs, |fs|)
    ensures var img := Image(fs, generation);
            && img[..HEADER] == Header(|fs|, Total(fs), Hash(Body(fs)), generation)
            && img[HEADER..Total(fs)] == Body(fs)
  {
    hide Header, Hash, Entries, Datas;
  }

  lemma BodyParts(fs: seq<File>)
    requires Fits(fs, |fs|)
    ensures |Body(fs)| == Total(fs) - HEADER && Body(fs)[..ENTRY * |fs|] == Entries(fs, |fs|)
    ensures Body(fs)[ENTRY * |fs|..] == Datas(fs, |fs|)
  {
    hide Entries, Datas;
  }

  lemma EntryInBody(fs: seq<File>, i: nat)
    requires Fits(fs, |fs|) && i < |fs|
    ensures Fits(fs, i + 1) && ENTRY * i + ENTRY <= |Body(fs)| && Offset(fs, i) < NO_WRAP && Sized(fs[i])
    ensures Body(fs)[ENTRY * i..ENTRY * i + ENTRY] == EntryOf(fs[i], Offset(fs, i))
  {
    EntryWithin(fs, |fs|, i);
    BodyParts(fs);
    hide Body, EntryOf, Entries, Datas;
    Within(Body(fs), 0, ENTRY * |fs|, ENTRY * i, ENTRY * i + ENTRY);
  }

  lemma {:induction false} OffsetIn(fs: seq<File>, i: nat)
    requires Fits(fs, |fs|) && i < |fs|
    ensures HEADER <= Offset(fs, i) && HEADER + ENTRY * |fs| <= Total(fs) <= BANK_BYTES
  {
  }

  lemma ImageEntry(fs: seq<File>, generation: word, i: nat)
    requires Fits(fs, |fs|) && i < |fs|
    ensures Fits(fs, i + 1) && HEADER + ENTRY * i + ENTRY <= BANK_BYTES && Offset(fs, i) < NO_WRAP && Sized(fs[i])
    ensures Image(fs, generation)[HEADER + ENTRY * i..HEADER + ENTRY * i + ENTRY] == EntryOf(fs[i], Offset(fs, i))
  {
    hide Image, Body, EntryOf, Entries, Datas, Header, Fits, Offset;
    EntryInBody(fs, i);
    ImageBody(fs, generation);
    BodyParts(fs);
    OffsetIn(fs, i);
    Within(Image(fs, generation), HEADER, Total(fs), ENTRY * i, ENTRY * i + ENTRY);
  }

  lemma DataInBody(fs: seq<File>, i: nat)
    requires Fits(fs, |fs|) && i < |fs|
    ensures var o := Offset(fs, i) - HEADER;
            o + |fs[i].contents| <= |Body(fs)| && Body(fs)[o..o + |fs[i].contents|] == fs[i].contents
  {
    hide Body, Entries, Datas;
    DataWithin(fs, |fs|, i);
    BodyParts(fs);
    var o, n := |Datas(fs, i)|, |fs[i].contents|;
    Within(Body(fs), ENTRY * |fs|, |Body(fs)|, o, o + n);
  }

  lemma ImageData(fs: seq<File>, generation: word, i: nat)
    requires Fits(fs, |fs|) && i < |fs|
    ensures var o := Offset(fs, i);
            o + |fs[i].contents| <= Total(fs) && Image(fs, generation)[o..o + |fs[i].contents|] == fs[i].contents
  {
    hide Image, Body, Entries, Datas, Offset, Fits, Header;
    OffsetIn(fs, i);
    DataInBody(fs, i);
    ImageBody(fs, generation);
    BodyParts(fs);
    var o := Offset(fs, i) - HEADER;
    Within(Image(fs, generation), HEADER, Total(fs), o, o + |fs[i].contents|);
  }

  /** An image the kernel writes is one it accepts exactly when it has at most 32 entries. */
  lemma ValidatesIffSmall(fs: seq<File>, generation: word)
    requires Fits(fs, |fs|)
    ensures Validate(Image(fs, generation)) ==
            if |fs| <= MAX_ENTRIES then Good(HEADER, |fs|, Total(fs), generation) else Bad(-3)
  {
    var img := Image(fs, generation);
    ImageBody(fs, generation);
    HeaderFields(|fs|, Total(fs), Hash(Body(fs)), generation);
    hide Image, Header, Hash, Body, R32, Datas;
    ReadShifted(img, 0, HEADER, 0);
    ReadShifted(img, 0, HEADER, 4);
    ReadShifted(img, 0, HEADER, 8);
    ReadShifted(img, 0, HEADER, 12);
    ReadShifted(img, 0, HEADER, 16);
    ReadShifted(img, 0, HEADER, 20);
    assert img[0..HEADER] == img[..HEADER];
  }

  // ---- Restoring ----

  ghost predicate DistinctNames(fs: seq<File>) {
    forall i, j | 0 <= i < j < |fs| :: fs[i].name != fs[j].name
  }

  /** Position i of the table loaded into can take file i of the saved one: the
      same capacity, and the same name or an empty slot that may be renamed,
      because no later file already has the saved name. */
  ghost predicate Takes(now: seq<File>, saved: seq<File>, i: nat)
    requires i < |saved| == |now|
  {
    && now[i].cap == saved[i].cap
    && (now[i].name == saved[i].name
        || (ValidName(saved[i].name) && EmptySlot(now[i]) && forall j | i < j < |now| :: now[j].name != saved[i].name))
  }

  ghost predicate Restorable(now: seq<File>, saved: seq<File>) {
    |now| == |saved| && forall i | 0 <= i < |saved| :: Takes(now, saved, i)
  }

  lemma {:induction false} FindAt(fs: seq<File>, n: seq<byte>, from: nat, at: nat)
    requires from <= at <= |fs| && (forall k | 0 <= k < at :: fs[k].name != n)
    requires at < |fs| ==> fs[at].name == n
    ensures FindName(fs, n, from) == if at < |fs| then at else -1
    decreases at - from
  {
    if from < at {
      FindAt(fs, n, from + 1, at);
    }
  }

  lemma {:induction false} FindFirst(fs: seq<File>, n: seq<byte>, from: nat)
    requires from <= |fs|
    ensures var r := FindName(fs, n, from);
            (r < 0 <==> forall k | from <= k < |fs| :: fs[k].name != n) && (r >= 0 ==> from <= r && fs[r].name == n)
    decreases |fs| - from
  {
    if from < |fs| {
      FindFirst(fs, n, from + 1);
    }
  }

  /** With the files before i restored, entry i goes to position i: by name, or as
      the file at that position. */
  lemma PicksSame(now: seq<File>, saved: seq<File>, i: nat, e: seq<byte>)
    requires |now| == |saved| && DistinctNames(saved) && i < |saved| && Takes(now, saved, i)
    requires |e| == ENTRY && EntryName(e) == saved[i].name
    ensures Pick(saved[..i] + now[i..], e, i) == (i, ValidName(saved[i].name) && now[i].name == saved[i].name)
  {
    var fs, n := saved[..i] + now[i..], saved[i].name;
    assert fs[i] == now[i];
    assert forall k | 0 <= k < i :: fs[k] == saved[k];
    assert forall k | i < k < |fs| :: fs[k] == now[k];
    if now[i].name == n {
      FindAt(fs, n, 0, i);
    } else {
      FindAt(fs, n, 0, |fs|);
    }
  }

  /** An entry that describes f, and f's contents where it says, put f in place i. */
  lemma TakesIn(fs: seq<File>, b: seq<byte>, total: nat, e: seq<byte>, i: nat, f: File, off: nat)
    requires |b| == BANK_BYTES && total <= BANK_BYTES && |e| == ENTRY && i < |fs| && Sized(f)
    requires R32(e, 32) == |f.contents| && R32(e, 36) == off && R32(e, 40) == f.cap == fs[i].cap
             && R32(e, 44) == Hash(f.contents)
    requires EntryName(e) == f.name && Pick(fs, e, i) == (i, ValidName(f.name) && fs[i].name == f.name)
    requires fs[i].name == f.name || (ValidName(f.name) && EmptySlot(fs[i]))
    requires off + |f.contents| <= total && b[off..off + |f.contents|] == f.contents
    ensures LoadEntry(fs, b, total, e, i) == fs[i := f]
  {
    hide EntryName, Pick, Hash, R32;
  }

  lemma RestoresOne(now: seq<File>, saved: seq<File>, generation: word, i: nat)
    requires |now| == |saved| && DistinctNames(saved) && Fits(saved, |saved|) && i < |saved| && Takes(now, saved, i)
    ensures HEADER + ENTRY * i + ENTRY <= BANK_BYTES && Total(saved) <= BANK_BYTES
    ensures var img := Image(saved, generation);
            LoadEntry(saved[..i] + now[i..], img, Total(saved), img[HEADER + ENTRY * i..HEADER + ENTRY * i + ENTRY], i)
            == saved[..i + 1] + now[i + 1..]
  {
    hide Image, EntryOf, EntryName, Pick, Hash, R32, Datas, DistinctNames, LoadEntry, Fits, Offset, Total, EmptySlot,
         ValidName;
    var fs, off := saved[..i] + now[i..], Offset(saved, i);
    ImageEntry(saved, generation, i);
    ImageData(saved, generation, i);
    EntryFields(saved[i], off);
    EntryNameBack(saved[i], off);
    var e := EntryOf(saved[i], off);
    PicksSame(now, saved, i, e);
    assert fs[i] == now[i];
    TotalFits(saved);
    TakesIn(fs, Image(saved, generation), Total(saved), e, i, saved[i], off);
    Replaced(now, saved, i);
  }

  lemma TotalFits(fs: seq<File>)
    requires Fits(fs, |fs|)
    ensures Total(fs) <= BANK_BYTES
  {
  }

  lemma Replaced(now: seq<File>, saved: seq<File>, i: nat)
    requires i < |saved| == |now|
    ensures (saved[..i] + now[i..])[i := saved[i]] == saved[..i + 1] + now[i + 1..]
  {
  }

  lemma {:induction false} RestoresPrefix(now: seq<File>, saved: seq<File>, generation: word, n: nat)
    requires |now| == |saved| && DistinctNames(saved) && Fits(saved, |saved|) && n <= |saved|
    requires forall i | 0 <= i < n :: Takes(now, saved, i)
    ensures LoadEntries(now, Image(saved, generation), HEADER, Total(saved), n) == saved[..n] + now[n..]
  {
    hide LoadEntry, Image, Fits, Takes, DistinctNames, Datas;
    if n == 0 {
      assert saved[..0] + now[0..] == now;
    } else {
      RestoresPrefix(now, saved, generation, n - 1);
      RestoresOne(now, saved, generation, n - 1);
    }
  }

  /** A position that cannot take its file keeps another capacity or name. */
  lemma MissesOne(now: seq<File>, saved: seq<File>, b: seq<byte>, total: nat, e: seq<byte>, i: nat)
    requires |now| == |saved| && i < |saved| && !Takes(now, saved, i)
    requires |b| == BANK_BYTES && total <= BANK_BYTES && |e| == ENTRY && EntryName(e) == saved[i].name
    ensures var f := LoadEntry(saved[..i] + now[i..], b, total, e, i)[i];
            f.cap != saved[i].cap || f.name != saved[i].name
  {
    hide EntryName, R32, Hash, EmptySlot, ValidName;
    var fs := saved[..i] + now[i..];
    assert fs[i] == now[i];
    assert forall k | i < k < |fs| :: fs[k] == now[k];
    FindFirst(fs, saved[i].name, 0);
  }

  /** Only its own entry ever renames a file, and none changes a capacity. */
  lemma OthersKeepName(fs: seq<File>, b: seq<byte>, total: nat, e: seq<byte>, n: nat, i: nat)
    requires |b| == BANK_BYTES && total <= BANK_BYTES && |e| == ENTRY && i < |fs| && i != n
    ensures var r := LoadEntry(fs, b, total, e, n); r[i].name == fs[i].name && r[i].cap == fs[i].cap
  {
    hide EntryName, R32, Hash, EmptySlot, ValidName, FindName;
  }

  lemma {:induction false} NameStays(fs: seq<File>, b: seq<byte>, header: nat, total: nat, i: nat, n: nat)
    requires |b| == BANK_BYTES && header + ENTRY * n <= total <= BANK_BYTES && i < n && i < |fs|
    ensures var f, g := LoadEntries(fs, b, header, total, i + 1)[i], LoadEntries(fs, b, header, total, n)[i];
            f.name == g.name && f.cap == g.cap
    decreases n
  {
    hide LoadEntry;
    if i < n - 1 {
      NameStays(fs, b, header, total, i, n - 1);
      var at := header + ENTRY * (n - 1);
      OthersKeepName(LoadEntries(fs, b, header, total, n - 1), b, total, b[at..at + ENTRY], n - 1, i);
    }
  }

  lemma {:induction false} FirstMiss(now: seq<File>, saved: seq<File>, n: nat) returns (i: nat)
    requires |now| == |saved| && n <= |saved| && exists k | 0 <= k < n :: !Takes(now, saved, k)
    ensures i < n && !Takes(now, saved, i) && forall k | 0 <= k < i :: Takes(now, saved, k)
  {
    hide Takes;
    if k: nat :| k < n - 1 && !Takes(now, saved, k) {
      i := FirstMiss(now, saved, n - 1);
    } else {
      i := n - 1;
    }
  }

  lemma MissIsLost(now: seq<File>, saved: seq<File>, generation: word, i: nat)
    requires |now| == |saved| && DistinctNames(saved) && Fits(saved, |saved|) && i < |saved|
    requires !Takes(now, saved, i) && forall k | 0 <= k < i :: Takes(now, saved, k)
    ensures LoadEntries(now, Image(saved, generation), HEADER, Total(saved), |saved|) != saved
  {
    hide LoadEntry, Image, Fits, Offset, Takes, DistinctNames, EntryOf, Datas, EntryName;
    var img := Image(saved, generation);
    TotalFits(saved);
    RestoresPrefix(now, saved, generation, i);
    ImageEntry(saved, generation, i);
    EntryNameBack(saved[i], Offset(saved, i));
    MissesOne(now, saved, img, Total(saved), EntryOf(saved[i], Offset(saved, i)), i);
    NameStays(now, img, HEADER, Total(saved), i, |saved|);
  }

  /** A completed save restores every file, byte for byte, exactly when every
      position of the table loaded into can take its file. */
  lemma Restores(now: seq<File>, saved: seq<File>, generation: word)
    requires DistinctNames(saved) && Fits(saved, |saved|)
    ensures LoadEntries(now, Image(saved, generation), HEADER, Total(saved), |saved|) == saved
            <==> Restorable(now, saved)
  {
    hide LoadEntry, LoadEntries, Image, Fits, Takes, DistinctNames, Datas;
    if Restorable(now, saved) {
      RestoresPrefix(now, saved, generation, |saved|);
      assert saved[..|saved|] + now[|saved|..] == saved;
    } else if |now| == |saved| {
      var i := FirstMiss(now, saved, |saved|);
      MissIsLost(now, saved, generation, i);
    }
  }

  /** A file that was given a new name has it again after a restart exactly if it
      started out as an empty slot. */
  lemma RenamedComesBack(now: seq<File>, i: nat, name: Name, contents: seq<byte>, generation: word)
    requires i < |now| && DistinctNames(now) && forall k | 0 <= k < |now| :: now[k].name != name
    requires var saved := now[i := File(name, contents, now[i].cap)]; Fits(saved, |saved|)
    ensures var saved := now[i := File(name, contents, now[i].cap)];
            LoadEntries(now, Image(saved, generation), HEADER, Total(saved), |saved|) == saved
            <==> ValidName(name) && EmptySlot(now[i])
  {
    hide LoadEntries, Image, Fits, EmptySlot, ValidName, Offset;
    var saved := now[i := File(name, contents, now[i].cap)];
    assert forall k | 0 <= k < |now| && k != i :: saved[k] == now[k] && Takes(now, saved, k);
    assert Takes(now, saved, i) <==> ValidName(name) && EmptySlot(now[i]);
    Restores(now, saved, generation);
  }
}
