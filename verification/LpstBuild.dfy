/** How the persistence image comes about in the buffer, write by write. */
module LpstBuild {
  import opened BitOps
  import opened Bytes
  import opened LpstFormat

  /** The four numbers written over a zeroed entry that holds the name. */
  lemma EntryAssembled(f: File, off: word)
    requires Sized(f)
    ensures var x0 := Splice(Zeros(ENTRY), 0, f.name);
            Splice(Splice(Splice(Splice(x0, 32, W32(|f.contents|)), 36, W32(off)), 40, W32(f.cap)), 44,
                W32(Hash(f.contents)))
            == EntryOf(f, off)
  {
    hide W32, Hash;
    var x0 := Splice(Zeros(ENTRY), 0, f.name);
    assert x0[..32] == Padded(f.name);
    Fields(x0, W32(|f.contents|), W32(off), W32(f.cap), W32(Hash(f.contents)));
  }

  lemma Fields(x: seq<byte>, a: seq<byte>, b: seq<byte>, c: seq<byte>, d: seq<byte>)
    requires |x| == 48 && |a| == |b| == |c| == |d| == 4
    ensures Splice(Splice(Splice(Splice(x, 32, a), 36, b), 40, c), 44, d) == x[..32] + a + b + c + d
  {
    var x1 := Splice(x, 32, a);
    assert x1[..36] == x[..32] + a;
    var x2 := Splice(x1, 36, b);
    assert x2[..40] == x1[..36] + b;
    var x3 := Splice(x2, 40, c);
    assert x3[..44] == x2[..40] + c;
    var x4 := Splice(x3, 44, d);
    assert x4 == x3[..44] + d;
  }

  /** The buffer after n entries: directory, a gap of zeros, contents, zeros. */
  ghost predicate Built(st: seq<byte>, fs: seq<File>, generation: word, n: nat) {
    && |st| == BANK_BYTES && n <= |fs| < NO_WRAP && Fits(fs, n)
    && st[0..4] == W32(MAGIC) && st[4..8] == W32(VERSION) && st[8..12] == W32(|fs|) && st[20..24] == W32(generation)
    && st[HEADER..HEADER + ENTRY * n] == Entries(fs, n)
    && st[HEADER + ENTRY * n..DataStart(fs)] == Zeros(ENTRY * (|fs| - n))
    && st[DataStart(fs)..Offset(fs, n)] == Datas(fs, n)
    && st[Offset(fs, n)..BANK_BYTES] == Zeros(BANK_BYTES - Offset(fs, n))
  }

  lemma BuiltZero(fs: seq<File>, generation: word)
    requires |fs| < NO_WRAP && DataStart(fs) <= BANK_BYTES
    ensures Built(Splice(Splice(Splice(Splice(Zeros(BANK_BYTES), 0, W32(MAGIC)), 4, W32(VERSION)), 8, W32(|fs|)), 20,
                         W32(generation)), fs, generation, 0)
  {
    hide W32, Splice;
    var z := Zeros(BANK_BYTES);
    var s1 := Splice(z, 0, W32(MAGIC));
    var s2 := Splice(s1, 4, W32(VERSION));
    var s3 := Splice(s2, 8, W32(|fs|));
    var s4 := Splice(s3, 20, W32(generation));
    SpliceAt(z, 0, W32(MAGIC));
    SpliceAt(s1, 4, W32(VERSION));
    SpliceAt(s2, 8, W32(|fs|));
    SpliceAt(s3, 20, W32(generation));
    SpliceApart(s1, 4, W32(VERSION), 0, 4);
    SpliceApart(s2, 8, W32(|fs|), 0, 4);
    SpliceApart(s2, 8, W32(|fs|), 4, 8);
    SpliceApart(s3, 20, W32(generation), 0, 4);
    SpliceApart(s3, 20, W32(generation), 4, 8);
    SpliceApart(s3, 20, W32(generation), 8, 12);
    Untouched(generation, |fs|, 24, DataStart(fs));
    Untouched(generation, |fs|, DataStart(fs), BANK_BYTES);
  }

  lemma Untouched(generation: word, count: word, a: nat, b: nat)
    requires 24 <= a <= b <= BANK_BYTES
    ensures Splice(Splice(Splice(Splice(Zeros(BANK_BYTES), 0, W32(MAGIC)), 4, W32(VERSION)), 8, W32(count)), 20,
                   W32(generation))[a..b] == Zeros(b - a)
  {
    hide W32, Splice;
    var z := Zeros(BANK_BYTES);
    var s1 := Splice(z, 0, W32(MAGIC));
    var s2 := Splice(s1, 4, W32(VERSION));
    var s3 := Splice(s2, 8, W32(count));
    SpliceApart(z, 0, W32(MAGIC), a, b);
    SpliceApart(s1, 4, W32(VERSION), a, b);
    SpliceApart(s2, 8, W32(count), a, b);
    SpliceApart(s3, 20, W32(generation), a, b);
    ZerosWithin(BANK_BYTES, a, b);
  }

  lemma Room(fs: seq<File>, n: nat)
    requires n < |fs| && Fits(fs, n) && Sized(fs[n]) && Offset(fs, n) + |fs[n].contents| <= BANK_BYTES
    ensures Fits(fs, n + 1) && Offset(fs, n + 1) == Offset(fs, n) + |fs[n].contents|
    ensures Entries(fs, n + 1) == Entries(fs, n) + EntryOf(fs[n], Offset(fs, n))
    ensures Datas(fs, n + 1) == Datas(fs, n) + fs[n].contents
    ensures HEADER + ENTRY * n + ENTRY <= DataStart(fs)
  {
    hide EntryOf;
  }

  lemma ZerosFrom(s: seq<byte>, a: nat, m: nat, b: nat)
    requires a <= m <= b <= |s| && s[a..b] == Zeros(b - a)
    ensures s[m..b] == Zeros(b - m) && s[a..m] == Zeros(m - a)
  {
    Within(s, a, b, m - a, b - a);
    Within(s, a, b, 0, m - a);
    ZerosWithin(b - a, m - a, b - a);
    ZerosWithin(b - a, 0, m - a);
  }

  /** Writing the entry keeps everything else, and so does writing the contents. */
  lemma BuiltEntry(st: seq<byte>, fs: seq<File>, generation: word, n: nat)
    requires n < |fs| && Built(st, fs, generation, n)
    requires Sized(fs[n]) && Offset(fs, n) + |fs[n].contents| <= BANK_BYTES
    ensures HEADER + ENTRY * n + ENTRY <= BANK_BYTES
            && st[HEADER + ENTRY * n..HEADER + ENTRY * n + ENTRY] == Zeros(ENTRY)
    ensures Built(Splice(Splice(st, HEADER + ENTRY * n, EntryOf(fs[n], Offset(fs, n))), Offset(fs, n), fs[n].contents),
                  fs, generation, n + 1)
  {
    var e, at, off, d := EntryOf(fs[n], Offset(fs, n)), HEADER + ENTRY * n, Offset(fs, n), fs[n].contents;
    Room(fs, n);
    ZerosFrom(st, at, at + ENTRY, DataStart(fs));
    ZerosFrom(st, off, off + |d|, BANK_BYTES);
    hide W32, Splice, EntryOf, Entries, Datas, Fits;
    var s1 := Splice(st, at, e);
    var s2 := Splice(s1, off, d);
    EntryKeeps(st, s1, at, e, DataStart(fs), off);
    DataKeeps(s1, s2, at, off, d, DataStart(fs));
    Join(s2, HEADER, at, at + ENTRY);
    Join(s2, DataStart(fs), off, off + |d|);
  }

  lemma EntryKeeps(st: seq<byte>, s1: seq<byte>, at: nat, e: seq<byte>, start: nat, off: nat)
    requires |st| == BANK_BYTES && |e| == ENTRY && HEADER <= at && at + ENTRY <= start <= off <= BANK_BYTES
    requires s1 == Splice(st, at, e)
    ensures s1[0..4] == st[0..4] && s1[4..8] == st[4..8] && s1[8..12] == st[8..12] && s1[20..24] == st[20..24]
    ensures s1[HEADER..at] == st[HEADER..at] && s1[at..at + ENTRY] == e
    ensures s1[at + ENTRY..start] == st[at + ENTRY..start]
    ensures s1[start..off] == st[start..off] && s1[off..BANK_BYTES] == st[off..BANK_BYTES]
  {
    SpliceAt(st, at, e);
    hide Splice;
    SpliceApart(st, at, e, 0, 4);
    SpliceApart(st, at, e, 4, 8);
    SpliceApart(st, at, e, 8, 12);
    SpliceApart(st, at, e, 20, 24);
    SpliceApart(st, at, e, HEADER, at);
    SpliceApart(st, at, e, at + ENTRY, start);
    SpliceApart(st, at, e, start, off);
    SpliceApart(st, at, e, off, BANK_BYTES);
  }

  lemma DataKeeps(s1: seq<byte>, s2: seq<byte>, at: nat, off: nat, d: seq<byte>, start: nat)
    requires |s1| == BANK_BYTES && HEADER <= at && at + ENTRY <= start <= off && off + |d| <= BANK_BYTES
    requires s2 == Splice(s1, off, d)
    ensures s2[0..4] == s1[0..4] && s2[4..8] == s1[4..8] && s2[8..12] == s1[8..12] && s2[20..24] == s1[20..24]
    ensures s2[HEADER..at] == s1[HEADER..at] && s2[at..at + ENTRY] == s1[at..at + ENTRY]
    ensures s2[at + ENTRY..start] == s1[at + ENTRY..start]
    ensures s2[start..off] == s1[start..off] && s2[off..off + |d|] == d
    ensures s2[off + |d|..BANK_BYTES] == s1[off + |d|..BANK_BYTES]
  {
    SpliceAt(s1, off, d);
    hide Splice;
    SpliceApart(s1, off, d, 0, 4);
    SpliceApart(s1, off, d, 4, 8);
    SpliceApart(s1, off, d, 8, 12);
    SpliceApart(s1, off, d, 20, 24);
    SpliceApart(s1, off, d, HEADER, at);
    SpliceApart(s1, off, d, at, at + ENTRY);
    SpliceApart(s1, off, d, at + ENTRY, start);
    SpliceApart(s1, off, d, start, off);
    SpliceApart(s1, off, d, off + |d|, BANK_BYTES);
  }

  lemma BodyBuilt(st: seq<byte>, fs: seq<File>, generation: word)
    requires Built(st, fs, generation, |fs|)
    ensures Fits(fs, |fs|) && Total(fs) <= BANK_BYTES && st[HEADER..Total(fs)] == Body(fs)
  {
    hide W32, Entries, Datas;
    Join(st, HEADER, DataStart(fs), Total(fs));
  }

  /** Total and checksum complete the image. */
  lemma ImageBuilt(st: seq<byte>, fs: seq<File>, generation: word)
    requires Built(st, fs, generation, |fs|)
    ensures Fits(fs, |fs|) && Total(fs) <= BANK_BYTES
    ensures Splice(Splice(st, 12, W32(Total(fs))), 16, W32(Hash(Body(fs)))) == Image(fs, generation)
  {
    BodyBuilt(st, fs, generation);
    var t, c := W32(Total(fs)), W32(Hash(Body(fs)));
    var s1 := Splice(st, 12, t);
    var s2 := Splice(s1, 16, c);
    SpliceAt(st, 12, t);
    SpliceAt(s1, 16, c);
    hide W32, Splice, Hash, Body, Fits, Entries, Datas;
    SpliceApart(s1, 16, c, 12, 16);
    TwoWrites(st, t, c, 0, 4);
    TwoWrites(st, t, c, 4, 8);
    TwoWrites(st, t, c, 8, 12);
    TwoWrites(st, t, c, 20, 24);
    TwoWrites(st, t, c, 24, Total(fs));
    TwoWrites(st, t, c, Total(fs), BANK_BYTES);
    EightParts(s2, Total(fs));
  }

  lemma TwoWrites(st: seq<byte>, t: seq<byte>, c: seq<byte>, a: nat, b: nat)
    requires |st| == BANK_BYTES && |t| == |c| == 4 && a <= b <= BANK_BYTES && (b <= 12 || 20 <= a)
    ensures Splice(Splice(st, 12, t), 16, c)[a..b] == st[a..b]
  {
    hide Splice;
    SpliceApart(st, 12, t, a, b);
    SpliceApart(Splice(st, 12, t), 16, c, a, b);
  }

  lemma EightParts(s: seq<byte>, total: nat)
    requires HEADER <= total <= |s|
    ensures s == s[0..4] + s[4..8] + s[8..12] + s[12..16] + s[16..20] + s[20..24] + s[24..total] + s[total..|s|]
  {
  }

  lemma NameEnds(s: seq<byte>, at: nat, n: Name)
    requires at + ENTRY <= |s|
    ensures Splice(s, at, Splice(Zeros(ENTRY), 0, n))[at + |n|] == 0
  {
  }

  lemma StartFits(st: seq<byte>, fs: seq<File>, generation: word)
    requires Built(st, fs, generation, 0)
    ensures Offset(fs, 0) == HEADER + ENTRY * |fs| <= BANK_BYTES
  {
  }

  /** Once one file does not fit, the whole table does not. */
  lemma Overflows(fs: seq<File>, i: nat)
    requires i < |fs| && (!Sized(fs[i]) || Offset(fs, i) + |fs[i].contents| > BANK_BYTES)
    ensures !Fits(fs, |fs|)
  {
    FitsLess(fs, i + 1, |fs|);
  }

  lemma ImageFits(st: seq<byte>, fs: seq<File>, generation: word, n: nat)
    requires Built(st, fs, generation, n)
    ensures Fits(fs, n) && Offset(fs, n) <= BANK_BYTES
  {
  }

  /** A write into one half of the disk. */
  lemma BankSplice(d: seq<byte>, t: nat, off: nat, x: seq<byte>)
    requires |d| == 2 * BANK_BYTES && t <= 1 && off + |x| <= BANK_BYTES
    ensures var d', a, b := Splice(d, t * BANK_BYTES + off, x), t * BANK_BYTES, (1 - t) * BANK_BYTES;
            d'[a..a + BANK_BYTES] == Splice(d[a..a + BANK_BYTES], off, x)
              && d'[b..b + BANK_BYTES] == d[b..b + BANK_BYTES]
  {
    hide Splice;
    var a, b := if t == 0 then 0 else BANK_BYTES, if t == 0 then BANK_BYTES else 0;
    assert a == t * BANK_BYTES && b == (1 - t) * BANK_BYTES;
    SpliceApart(d, a + off, x, b, b + BANK_BYTES);
    SpliceWithin(d, a, BANK_BYTES, off, x);
  }

  lemma {:induction false} SpliceWithin(d: seq<byte>, a: nat, n: nat, off: nat, x: seq<byte>)
    requires a + n <= |d| && off + |x| <= n
    ensures Splice(d, a + off, x)[a..a + n] == Splice(d[a..a + n], off, x)
  {
    var d' := Splice(d, a + off, x);
    var l, r := d'[a..a + n], Splice(d[a..a + n], off, x);
    assert forall k | 0 <= k < n :: l[k] == d'[a + k] == r[k];
  }

  /** One more stretch of the new image over the old. */
  lemma OneMore(img: seq<byte>, was: seq<byte>, a: nat, b: nat)
    requires |img| == |was| && a <= b <= |img|
    ensures Splice(img[..a] + was[a..], a, img[a..b]) == img[..b] + was[b..]
  {
  }

  lemma TornOne(img: seq<byte>, was: seq<byte>, a: nat, torn: seq<byte>)
    requires |img| == |was| && a + |torn| <= |img|
    ensures Splice(img[..a] + was[a..], a, torn) == img[..a] + torn + was[a + |torn|..]
  {
  }

  lemma Refill(s: seq<byte>, b: seq<byte>, a: nat, n: nat)
    requires |s| == |b| && a + n <= |b| && s[..a] == b[..a]
    ensures Splice(s, a, b[a..a + n])[..a + n] == b[..a + n]
  {
  }
}
