/** fs_persist_save and fs_persist_load of os/kernel/fs.c, on the sector store and
    the in-memory image buffer. */
module Lpst {
  import opened BitOps
  import opened Bytes
  import opened LpstFormat
  import opened LpstBuild
  import P = LpstProtocol

  /** FsWritableFile. */
  class WritableFile {
    var name: Name
    var contents: seq<byte>
    const cap: word

    constructor (name: Name, contents: seq<byte>, cap: word)
      ensures this.name == name && this.contents == contents && this.cap == cap
    {
      this.name, this.contents, this.cap := name, contents, cap;
    }

    function Value(): File
      reads this
    {
      File(name, contents, cap)
    }
  }

  ghost function FilesOf(ws: seq<WritableFile>): (fs: seq<File>)
    reads ws
    ensures |fs| == |ws| && forall i | 0 <= i < |ws| :: fs[i] == ws[i].Value()
  {
    seq(|ws|, i requires 0 <= i < |ws| reads ws => ws[i].Value())
  }

  class Persistence {
    const disk: array<byte>
    const store: array<byte>
    const files: seq<WritableFile>
    var generation: word
    var active: int
    var dirty: bool
    var lastResult: int

    constructor (disk: array<byte>, files: seq<WritableFile>)
      requires disk.Length == 2 * BANK_BYTES && |files| < NO_WRAP
      requires forall i, j | 0 <= i < j < |files| :: files[i] != files[j]
      ensures Valid() && this.disk == disk && this.files == files && fresh(store)
      ensures Abs() == P.State(disk[..BANK_BYTES], disk[BANK_BYTES..], FilesOf(files), 0, -1)
    {
      this.disk, this.files := disk, files;
      store := new byte[BANK_BYTES](_ => 0);
      generation, active, dirty, lastResult := 0, -1, false, -9;
      new;
      assert disk[BANK_BYTES..] == disk[BANK_BYTES..2 * BANK_BYTES];
    }

    ghost predicate Valid()
      reads this
    {
      && disk.Length == 2 * BANK_BYTES && store.Length == BANK_BYTES && disk != store && -1 <= active <= 1
      && |files| < NO_WRAP && (forall i, j | 0 <= i < j < |files| :: files[i] != files[j])
    }

    ghost function BankOf(i: int): (b: P.Bank)
      requires disk.Length == 2 * BANK_BYTES && 0 <= i <= 1
      reads disk
    {
      disk[i * BANK_BYTES..i * BANK_BYTES + BANK_BYTES]
    }

    ghost function Abs(): P.State
      requires Valid()
      reads this, disk, files
    {
      P.State(BankOf(0), BankOf(1), FilesOf(files), generation, active)
    }

    method Put32(at: nat, v: word)
      requires Valid() && at + 4 <= BANK_BYTES
      modifies store
      ensures store[..] == Splice(old(store[..]), at, W32(v))
    {
      CopyInto(store, at, W32(v));
    }

    /** lpst_zero and the fixed part of the header. */
    method StartImage(g: word)
      requires Valid() && DataStart(FilesOf(files)) <= BANK_BYTES
      modifies store
      ensures Built(store[..], FilesOf(files), g, 0)
    {
      for i := 0 to BANK_BYTES
        invariant forall k | 0 <= k < i :: store[k] == 0
      {
        store[i] := 0;
      }
      assert store[..] == Zeros(BANK_BYTES);
      hide Splice, W32, Built;
      Put32(0, MAGIC);
      Put32(4, VERSION);
      Put32(8, |files|);
      Put32(20, g);
      BuiltZero(FilesOf(files), g);
    }

    method WriteEntry(at: nat, w: WritableFile, off: word)
      requires Valid() && at + ENTRY <= BANK_BYTES && store[at..at + ENTRY] == Zeros(ENTRY) && Sized(w.Value())
      modifies store
      ensures store[..] == Splice(old(store[..]), at, EntryOf(w.Value(), off))
    {
      hide Splice, W32, Hash, EntryOf;
      ghost var s, f := store[..], w.Value();
      WriteName(at, w);
      ghost var x := Splice(Zeros(ENTRY), 0, f.name);
      Put32(at + 32, |w.contents|);
      SpliceInside(s, at, x, 32, W32(|f.contents|));
      ghost var x1 := Splice(x, 32, W32(|f.contents|));
      Put32(at + 36, off);
      SpliceInside(s, at, x1, 36, W32(off));
      ghost var x2 := Splice(x1, 36, W32(off));
      Put32(at + 40, w.cap);
      SpliceInside(s, at, x2, 40, W32(f.cap));
      ghost var x3 := Splice(x2, 40, W32(f.cap));
      Put32(at + 44, Hash(w.contents));
      SpliceInside(s, at, x3, 44, W32(Hash(f.contents)));
      EntryAssembled(f, off);
    }

    /** The name and the zero behind it. */
    method WriteName(at: nat, w: WritableFile)
      requires Valid() && at + ENTRY <= BANK_BYTES && store[at..at + ENTRY] == Zeros(ENTRY) && Sized(w.Value())
      modifies store
      ensures store[..] == Splice(old(store[..]), at, Splice(Zeros(ENTRY), 0, w.Value().name))
    {
      hide Splice, W32, Hash, EntryOf;
      ghost var s, f := store[..], w.Value();
      SpliceOwn(s, at, Zeros(ENTRY));
      CopyInto(store, at, w.name);
      SpliceInside(s, at, Zeros(ENTRY), 0, f.name);
      NameEnds(s, at, f.name);
      store[at + |w.name|] := 0;
    }

    /** Directory entry and contents of every file; stops at the first that does not fit. */
    method WriteFiles(g: word) returns (ok: bool, off: nat)
      requires Valid() && Built(store[..], FilesOf(files), g, 0)
      modifies store
      ensures ok == Fits(FilesOf(files), |files|)
      ensures ok ==> Built(store[..], FilesOf(files), g, |files|) && off == Total(FilesOf(files)) <= BANK_BYTES
    {
      ghost var fs := FilesOf(files);
      hide Built, Splice, Fits;
      off := HEADER + |files| * ENTRY;
      StartFits(store[..], fs, g);
      for i := 0 to |files|
        invariant Built(store[..], fs, g, i) && off == Offset(fs, i) && off <= BANK_BYTES
      {
        var w := files[i];
        assert fs[i] == w.Value();
        if |w.contents| > w.cap || |w.contents| > BANK_BYTES - off {
          Overflows(fs, i);
          return false, off;
        }
        BuiltEntry(store[..], fs, g, i);
        WriteEntry(HEADER + i * ENTRY, w, off);
        CopyInto(store, off, w.contents);
        off := off + |w.contents|;
        ImageFits(store[..], fs, g, i + 1);
      }
      ImageFits(store[..], fs, g, |files|);
      ok := true;
    }

    /** The length and the checksum go in last. */
    method FinishImage(g: word, off: word)
      requires Valid() && Built(store[..], FilesOf(files), g, |files|) && off == Total(FilesOf(files))
      modifies store
      ensures Fits(FilesOf(files), |files|) && store[..] == Image(FilesOf(files), g)
    {
      ghost var st, fs := store[..], FilesOf(files);
      BodyBuilt(st, fs, g);
      ImageBuilt(st, fs, g);
      hide Built, Fits, Splice, W32, Hash, Body, Image, Total;
      Put32(12, off);
      SpliceApart(st, 12, W32(off), HEADER, off);
      var sum := HashOf(store, HEADER, off);
      assert store[HEADER..off] == store[..][HEADER..off];
      Put32(16, sum);
    }

    method BuildImage(g: word) returns (ok: bool)
      requires Valid() && DataStart(FilesOf(files)) <= BANK_BYTES
      modifies store
      ensures ok == Fits(FilesOf(files), |files|)
      ensures ok ==> store[..] == Image(FilesOf(files), g)
    {
      hide FilesOf, Image, Fits, Built;
      StartImage(g);
      var off;
      ok, off := WriteFiles(g);
      if ok {
        FinishImage(g, off);
      }
    }

    /** A write into one bank leaves the other alone. */
    method WriteInto(target: nat, at: nat, x: seq<byte>)
      requires Valid() && target <= 1 && at + |x| <= BANK_BYTES
      modifies disk
      ensures BankOf(1 - target) == old(BankOf(1 - target))
      ensures BankOf(target) == Splice(old(BankOf(target)), at, x)
    {
      hide Splice;
      BankSplice(disk[..], target, at, x);
      CopyInto(disk, target * BANK_BYTES + at, x);
      BanksOfDisk();
    }

    method WriteSectors(target: nat, sectors: nat, torn: P.Torn) returns (ok: bool)
      requires Valid() && target <= 1 && sectors <= P.BANK_SECTORS
      modifies disk
      ensures BankOf(1 - target) == old(BankOf(1 - target))
      ensures ok == (sectors == P.BANK_SECTORS)
      ensures BankOf(target) == if ok then store[..] else P.PartlyWritten(old(BankOf(target)), store[..], sectors, torn)
    {
      hide Splice, Persistence.BankOf;
      ghost var img, was := store[..], BankOf(target);
      assert was == img[..0] + was[0..];
      for k := 0 to P.BANK_SECTORS
        invariant k <= sectors && store[..] == img
        invariant BankOf(1 - target) == old(BankOf(1 - target))
        invariant BankOf(target) == img[..P.SECTOR * k] + was[P.SECTOR * k..]
      {
        var at := P.SECTOR * k;
        if k == sectors {
          TornOne(img, was, at, torn);
          WriteInto(target, at, torn);
          return false;
        }
        OneMore(img, was, at, at + P.SECTOR);
        WriteInto(target, at, store[at..at + P.SECTOR]);
      }
      ok := true;
      assert img[..BANK_BYTES] + was[BANK_BYTES..] == img;
    }

    lemma BanksOfDisk()
      requires Valid()
      ensures BankOf(0) == disk[..][0..BANK_BYTES] && BankOf(1) == disk[..][BANK_BYTES..BANK_BYTES + BANK_BYTES]
    {
    }

    /** sectors is how many sector writes succeed before one fails and leaves torn
        behind; ready is what storage_init reports. */
    method Save(ready: bool, sectors: nat, torn: P.Torn) returns (r: int)
      requires Valid() && sectors <= P.BANK_SECTORS
      modifies this`generation, this`active, this`dirty, this`lastResult, disk, store
      ensures Valid() && Abs() == if ready then P.Save(old(Abs()), sectors, torn) else old(Abs())
      ensures r == lastResult == if !ready then -1 else if DataStart(FilesOf(files)) > BANK_BYTES then -2
                                 else if !Fits(FilesOf(files), |files|) then -3
                                 else if sectors < P.BANK_SECTORS then -4 else 0
      ensures dirty == (r != 0 && old(dirty))
    {
      hide FilesOf, Image, Fits, Built, P.PartlyWritten, Persistence.BankOf;
      if !ready {
        lastResult := -1;
        return -1;
      }
      if HEADER + |files| * ENTRY > BANK_BYTES {
        TooMany(FilesOf(files));
        lastResult := -2;
        return -2;
      }
      var target := if 0 <= active < 2 then 1 - active else 0;
      var g := if generation + 1 == NO_WRAP then 1 else generation + 1;
      var ok := BuildImage(g);
      if !ok {
        lastResult := -3;
        return -3;
      }
      ok := WriteSectors(target, sectors, torn);
      if !ok {
        lastResult := -4;
        return -4;
      }
      dirty, active, generation, lastResult := false, target, g, 0;
      return 0;
    }

    /** readable is how many sectors can be read before a read fails. */
    method ReadBank(bank: nat, readable: nat) returns (ok: bool)
      requires Valid() && bank <= 1
      modifies store
      ensures ok == (readable >= P.BANK_SECTORS)
      ensures ok ==> store[..] == BankOf(bank)
    {
      ghost var b := BankOf(bank);
      hide Splice;
      for k := 0 to P.BANK_SECTORS
        invariant k <= readable && store[..][..P.SECTOR * k] == b[..P.SECTOR * k]
      {
        if k == readable {
          return false;
        }
        var at := P.SECTOR * k;
        Within(disk[..], bank * BANK_BYTES, bank * BANK_BYTES + BANK_BYTES, at, at + P.SECTOR);
        Refill(store[..], b, at, P.SECTOR);
        CopyInto(store, at, disk[bank * BANK_BYTES + at..bank * BANK_BYTES + at + P.SECTOR]);
      }
      ok := true;
    }

    /** lpst_validate_bank on the buffer. */
    method ValidateStore() returns (v: Verdict)
      requires Valid()
      ensures v == Validate(store[..])
    {
      hide R32, Hash;
      var s := store[..];
      if R32(s, 0) != MAGIC {
        return Bad(-1);
      }
      var h, g := HEADER_V1, 0;
      if R32(s, 4) == VERSION {
        h, g := HEADER, R32(s, 20);
      } else if R32(s, 4) != 1 {
        return Bad(-2);
      }
      var c, t, sum := R32(s, 8), R32(s, 12), R32(s, 16);
      if c > MAX_ENTRIES || t < h || t > BANK_BYTES || h + c * ENTRY > t {
        return Bad(-3);
      }
      var f := HashOf(store, h, t);
      assert store[h..t] == s[h..t];
      if f != sum {
        return Bad(-4);
      }
      return Good(h, c, t, g);
    }

    /** lpst_entry_name_valid. */
    static method EntryNameValid(e: seq<byte>) returns (ok: bool)
      requires |e| == ENTRY
      ensures ok == ValidName(EntryName(e))
    {
      var i := 0;
      while i < NAME_BYTES && e[i] != 0
        invariant 0 <= i <= NAME_BYTES && forall k | 0 <= k < i :: e[k] != 0 && NameByte(e[k])
      {
        if !NameByte(e[i]) {
          assert EntryName(e)[i] == e[i];
          return false;
        }
        i := i + 1;
      }
      assert i == CLen(e[..NAME_BYTES]);
      ok := i > 0 && i < NAME_BYTES;
    }

    /** lpst_name_equals. */
    static method NameEquals(e: seq<byte>, n: Name) returns (eq: bool)
      requires |e| == ENTRY && ValidName(EntryName(e))
      ensures eq == (n == EntryName(e))
    {
      var i := 0;
      while i < NAME_BYTES
        invariant 0 <= i <= NAME_BYTES && i <= |n| && i <= |EntryName(e)| && e[..i] == n[..i]
      {
        var b := if i < |n| then n[i] else 0;
        if e[i] != b {
          return false;
        }
        if e[i] == 0 {
          return true;
        }
        i := i + 1;
      }
      eq := false;
    }

    /** lpst_find_writable_for_entry. */
    method FindWritable(e: seq<byte>, i: nat) returns (at: int, byName: bool)
      requires Valid() && |e| == ENTRY
      ensures (at, byName) == Pick(FilesOf(files), e, i)
    {
      ghost var fs := FilesOf(files);
      var ok := EntryNameValid(e);
      hide ValidName;
      if ok {
        var k := 0;
        while k < |files|
          invariant 0 <= k <= |files| && FindName(fs, EntryName(e), k) == FindName(fs, EntryName(e), 0)
        {
          var eq := NameEquals(e, files[k].name);
          if eq {
            return k, true;
          }
          k := k + 1;
        }
      }
      return if i < |files| then i else -1, false;
    }

    /** One round of the restore loop. */
    method RestoreEntry(e: seq<byte>, total: nat, i: nat)
      requires Valid() && |e| == ENTRY && total <= BANK_BYTES
      modifies files
      ensures FilesOf(files) == LoadEntry(old(FilesOf(files)), store[..], total, e, i)
    {
      ghost var fs := FilesOf(files);
      hide Hash, R32, Pick, ValidName, EntryName;
      var size, off, cap, sum := R32(e, 32), R32(e, 36), R32(e, 40), R32(e, 44);
      var at, byName := FindWritable(e, i);
      if at < 0 {
        return;
      }
      var w := files[at];
      if cap != w.cap || size > w.cap || off > total || size > total - off {
        return;
      }
      var f := HashOf(store, off, off + size);
      assert store[off..off + size] == store[..][off..off + size];
      if f != sum {
        return;
      }
      var ok := EntryNameValid(e);
      if !byName && w.contents == [] && RXRSLOT <= w.name && ok {
        w.name := NameOf(EntryName(e));
      }
      w.contents := store[off..off + size];
      assert FilesOf(files) == fs[at := w.Value()];
    }

    method RestoreEntries(header: nat, total: nat, count: nat)
      requires Valid() && header + ENTRY * count <= total <= BANK_BYTES
      modifies files
      ensures FilesOf(files) == LoadEntries(old(FilesOf(files)), store[..], header, total, count)
    {
      hide LoadEntry;
      ghost var fs := FilesOf(files);
      for i := 0 to count
        invariant FilesOf(files) == LoadEntries(fs, store[..], header, total, i)
      {
        var e := store[header + ENTRY * i..header + ENTRY * i + ENTRY];
        assert e == store[..][header + ENTRY * i..header + ENTRY * i + ENTRY];
        RestoreEntry(e, total, i);
      }
    }

    /** Looks at both banks; the later one wins ties. */
    method ChooseBank(read0: nat, read1: nat) returns (best: int)
      requires Valid()
      modifies store
      ensures best == P.Best(BankOf(0), BankOf(1), read0 >= P.BANK_SECTORS, read1 >= P.BANK_SECTORS)
    {
      hide Validate, Persistence.BankOf;
      var bestGeneration := 0;
      best := -1;
      var ok := ReadBank(0, read0);
      if ok {
        var v := ValidateStore();
        if v.Good? {
          best, bestGeneration := 0, v.generation;
        }
      }
      ok := ReadBank(1, read1);
      if ok {
        var v := ValidateStore();
        if v.Good? && (best < 0 || v.generation >= bestGeneration) {
          best, bestGeneration := 1, v.generation;
        }
      }
    }

    /** The second half of fs_persist_load. The bank was found valid before, so
        validating it again cannot answer anything else. */
    method LoadBank(best: nat, again: nat) returns (r: int)
      requires Valid() && best <= 1 && Validate(BankOf(best)).Good?
      modifies this`generation, this`active, this`dirty, this`lastResult, store, files
      ensures Valid() && BankOf(0) == old(BankOf(0)) && BankOf(1) == old(BankOf(1))
      ensures r == lastResult == if again < P.BANK_SECTORS then -2 else 0
      ensures dirty == (r != 0 && old(dirty))
      ensures if r != 0 then FilesOf(files) == old(FilesOf(files)) && generation == old(generation)
              && active == old(active)
              else var b := old(BankOf(best));
                   var v := Validate(b);
                   active == best && generation == v.generation && v.header + ENTRY * v.count <= v.total <= BANK_BYTES
                   && FilesOf(files) == LoadEntries(old(FilesOf(files)), b, v.header, v.total, v.count)
    {
      hide Validate, LoadEntries, FilesOf, Persistence.BankOf;
      var ok := ReadBank(best, again);
      if !ok {
        lastResult := -2;
        return -2;
      }
      var v := ValidateStore();
      GoodBounds(store[..]);
      RestoreEntries(v.header, v.total, v.count);
      dirty, active, generation, lastResult := false, best, v.generation, 0;
      return 0;
    }

    /** read0, read1 and again say how many sectors each pass can read: bank 0,
        bank 1, then the chosen bank once more. */
    method Load(ready: bool, read0: nat, read1: nat, again: nat) returns (r: int)
      requires Valid()
      modifies this`generation, this`active, this`dirty, this`lastResult, store, files
      ensures Valid()
      ensures var all := P.BANK_SECTORS;
              Abs() == if ready then P.Load(old(Abs()), read0 >= all, read1 >= all, again >= all) else old(Abs())
      ensures var all := P.BANK_SECTORS;
              r == lastResult == if !ready then -1
                                 else if P.Best(BankOf(0), BankOf(1), read0 >= all, read1 >= all) < 0 then -3
                                 else if again < all then -2 else 0
      ensures dirty == (r != 0 && old(dirty))
    {
      hide Validate, LoadEntries, FilesOf, Persistence.BankOf, P.Best;
      if !ready {
        lastResult := -1;
        return -1;
      }
      var best := ChooseBank(read0, read1);
      if best < 0 {
        lastResult := -3;
        return -3;
      }
      BestIsGood(BankOf(0), BankOf(1), read0 >= P.BANK_SECTORS, read1 >= P.BANK_SECTORS);
      r := LoadBank(best, again);
    }
  }

  lemma TooMany(fs: seq<File>)
    requires DataStart(fs) > BANK_BYTES
    ensures !Fits(fs, |fs|)
  {
  }

  lemma BestIsGood(bank0: P.Bank, bank1: P.Bank, r0: bool, r1: bool)
    ensures var b := P.Best(bank0, bank1, r0, r1);
            (b == 0 ==> Validate(bank0).Good?) && (b == 1 ==> Validate(bank1).Good?)
  {
  }

  lemma GoodBounds(b: seq<byte>)
    requires |b| == BANK_BYTES && Validate(b).Good?
    ensures var v := Validate(b); v.header + ENTRY * v.count <= v.total <= BANK_BYTES
  {
  }
}
