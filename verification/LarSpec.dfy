/** LAR archives of os/kernel/lar.c on byte strings: the directory walk, the two
    payload methods, and what extraction gives back. */
module LarSpec {
  import opened BitOps
  import opened Bytes

  const MAGIC: word := 0x3152414C
  const STORE: byte := 0
  const PASS_STORE: byte := 1
  const OVERHEAD: nat := 16

  // ---- Checksums and the password stream ----

  function CrcBits(r: word, n: nat): word
    decreases n
  {
    if n == 0 then r
    else CrcBits(if r % 2 == 1 then XorWord(ShrWord(r, 1), 0xEDB88320) else ShrWord(r, 1), n - 1)
  }

  /** hash_crc32: the table entry for a byte is eight steps of the shift register;
      the two inversions cancel out at both ends. */
  function Crc(s: seq<byte>): word {
    if s == [] then 0
    else
      var r := Crc(s[..|s| - 1]);
      XorWord(CrcBits(Low8(XorWord(r, s[|s| - 1])), 8), ShrWord(r, 8))
  }

  function Low8(w: word): byte {
    w % 256
  }

  function MixAll(h: word, s: seq<byte>, shift: nat): word {
    if s == [] then h
    else
      var m := MulWord(XorWord(MixAll(h, s[..|s| - 1], shift), s[|s| - 1]), 16777619);
      XorWord(m, ShrWord(m, shift))
  }

  datatype Key = Key(k0: word, k1: word, k2: word, k3: word)
  {
    function Part(i: nat): word {
      if i % 4 == 0 then k0 else if i % 4 == 1 then k1 else if i % 4 == 2 then k2 else k3
    }
  }

  /** pass_key. */
  function PassKey(password: seq<byte>, name: seq<byte>, salt: word): Key {
    var base := MixAll(MixAll(XorWord(2166136261, salt), password, 13), name, 11);
    Key(XorWord(base, 0x4C415231),
        XorWord(XorWord(XorWord(ShlWord(base, 7), ShrWord(base, 3)), 0x50415353), salt),
        XorWord(XorWord(XorWord(ShlWord(base, 13), ShrWord(base, 5)), 0x55534552), ShlWord(salt, 1)),
        XorWord(XorWord(XorWord(ShlWord(base, 17), ShrWord(base, 7)), 0x4F574E44), ShrWord(salt, 1)))
  }

  const DELTA: word := 0x9E3779B9

  function HalfRound(v: word, sum: word, k: word): word {
    XorWord(AddWord(XorWord(ShlWord(v, 4), ShrWord(v, 5)), v), AddWord(sum, k))
  }

  datatype Cipher = Cipher(v0: word, v1: word, sum: word)

  /** xtea_encipher after n of its 32 rounds. */
  function Xtea(v0: word, v1: word, key: Key, n: nat): Cipher {
    if n == 0 then Cipher(v0, v1, 0)
    else
      var c := Xtea(v0, v1, key, n - 1);
      var a := AddWord(c.v0, HalfRound(c.v1, c.sum, key.Part(c.sum % 4)));
      var s := AddWord(c.sum, DELTA);
      Cipher(a, AddWord(c.v1, HalfRound(a, s, key.Part(ShrWord(s, 11) % 4))), s)
  }

  function BlockWord(i: nat): word {
    i / 8 % NO_WRAP
  }

  /** pass_stream_byte. */
  function StreamByte(key: Key, salt: word, i: nat): byte {
    var block := BlockWord(i);
    var c := Xtea(XorWord(XorWord(salt, block), 0x4C415250),
        XorWord(XorWord(key.k0, key.k2), MulWord(block, 0x9E3779B9)), key, 32);
    Low8(ShrWord(if i / 4 % 2 == 1 then c.v1 else c.v0, i % 4 * 8))
  }

  function Crypt(key: Key, salt: word, s: seq<byte>): (r: seq<byte>)
    ensures |r| == |s|
  {
    seq(|s|, i requires 0 <= i < |s| => XorByte(s[i], StreamByte(key, salt, i)))
  }

  function PublicSalt(name: seq<byte>, payload: seq<byte>): word
    requires |payload| < NO_WRAP
  {
    var a := XorWord(XorWord(XorWord(Crc(payload), Hash(name)), |payload|), 0x4C415250);
    var b := XorWord(a, ShlWord(a, 13));
    var c := XorWord(b, ShrWord(b, 17));
    var d := XorWord(c, ShlWord(c, 5));
    if d == 0 then 0x4C415250 else d
  }

  // ---- Reading ----

  function W16(v: nat): (s: seq<byte>)
    requires v < 0x10000
    ensures |s| == 2
  {
    [v % 0x100, v / 0x100]
  }

  function R16(s: seq<byte>, i: nat): nat
    requires i + 2 <= |s|
  {
    s[i] as int + 0x100 * (s[i + 1] as int)
  }

  /** validate_header: 0, or the error. */
  function HeaderCode(d: seq<byte>): (r: int)
    ensures r == 0 ==> |d| >= 8 && 8 + R16(d, 6) <= |d|
  {
    if |d| < 8 then -1 else if R32(d, 0) != MAGIC then -2 else if 8 + R16(d, 6) > |d| then -3 else 0
  }

  /** The checks both walks make on the directory entry at p; 0 when it is sound. */
  function EntryCode(d: seq<byte>, end: nat, p: nat): (r: int)
    requires end <= |d|
    ensures r == 0 ==> p + 16 <= end && d[p] > 0 && p + 16 + d[p] as int <= end
    ensures r == 0 ==> R32(d, p + 4) + R32(d, p + 8) <= |d|
  {
    if p + 16 > end then -4
    else if d[p] == 0 || p + 16 + d[p] as int > end then -5
    else if R32(d, p + 4) > |d| || R32(d, p + 8) > |d| - R32(d, p + 4) then -6
    else 0
  }

  function ListFrom(d: seq<byte>, end: nat, p: nat, n: nat): int
    requires end <= |d|
    decreases n
  {
    if n == 0 then (if p == end then 0 else -7)
    else if EntryCode(d, end, p) != 0 then EntryCode(d, end, p)
    else ListFrom(d, end, p + 16 + d[p] as int, n - 1)
  }

  /** lar_list. */
  function List(d: seq<byte>): int {
    if HeaderCode(d) != 0 then HeaderCode(d) else ListFrom(d, 8 + R16(d, 6), 8, R16(d, 4))
  }

  datatype Extracted = Failed(code: int) | Done(payload: seq<byte>)

  /** A matching entry: its payload, checked and decoded. */
  function Unpack(d: seq<byte>, end: nat, p: nat, password: seq<byte>, cap: nat): Extracted
    requires end <= |d| && EntryCode(d, end, p) == 0
  {
    var off, packed, size := R32(d, p + 4), R32(d, p + 8), R32(d, p + 12);
    var name := d[p + 16..p + 16 + d[p] as int];
    if d[p + 1] == STORE then
      if packed != size then Failed(-9) else if cap < size then Failed(-10) else Done(d[off..off + size])
    else if d[p + 1] == PASS_STORE then
      if password == [] then Failed(-12)
      else if packed < OVERHEAD || packed - OVERHEAD != size then Failed(-9)
      else if d[off..off + 4] != [0x4C, 0x50, 0x31, 0] then Failed(-9)
      else if cap < size then Failed(-10)
      else
        var salt := R32(d, off + 4);
        var out := Crypt(PassKey(password, name, salt), salt, d[off + OVERHEAD..off + OVERHEAD + size]);
        if Crc(out) != R32(d, off + 8) then Failed(-13) else Done(out)
    else Failed(-9)
  }

  function ExtractFrom(d: seq<byte>, end: nat, p: nat, n: nat, member: seq<byte>, password: seq<byte>,
                       cap: nat): Extracted
    requires end <= |d|
    decreases n
  {
    if n == 0 then Failed(-11)
    else if EntryCode(d, end, p) != 0 then Failed(EntryCode(d, end, p))
    else if d[p + 16..p + 16 + d[p] as int] == member then Unpack(d, end, p, password, cap)
    else ExtractFrom(d, end, p + 16 + d[p] as int, n - 1, member, password, cap)
  }

  /** lar_extract_password into a buffer of cap bytes. */
  function Extract(d: seq<byte>, member: seq<byte>, password: seq<byte>, cap: nat): Extracted {
    if HeaderCode(d) != 0 then Failed(HeaderCode(d))
    else ExtractFrom(d, 8 + R16(d, 6), 8, R16(d, 4), member, password, cap)
  }

  // ---- Writing ----

  predicate ValidMember(m: seq<byte>) {
    0 < |m| <= 63 && forall i | 0 <= i < |m| ::
      33 <= m[i] <= 126 && m[i] != '/' as int && m[i] != '\\' as int && m[i] != ':' as int
  }

  function MethodFor(password: seq<byte>): byte {
    if password == [] then STORE else PASS_STORE
  }

  function Packed(payload: seq<byte>, password: seq<byte>): nat {
    |payload| + if password == [] then 0 else OVERHEAD
  }

  predicate Creatable(member: seq<byte>, payload: seq<byte>, password: seq<byte>) {
    ValidMember(member) && 24 + |member| + Packed(payload, password) < NO_WRAP
  }

  function Directory(member: seq<byte>, payload: seq<byte>, password: seq<byte>): (r: seq<byte>)
    requires Creatable(member, payload, password)
    ensures |r| == 24 + |member|
  {
    W32(MAGIC) + W16(1) + W16(16 + |member|) + [|member|, MethodFor(password), 0, 0] + W32(24 + |member|)
    + W32(Packed(payload, password)) + W32(|payload|) + member
  }

  function Body(member: seq<byte>, payload: seq<byte>, password: seq<byte>): (r: seq<byte>)
    requires Creatable(member, payload, password)
    ensures |r| == Packed(payload, password)
  {
    if password == [] then payload
    else
      var salt := PublicSalt(member, payload);
      [0x4C, 0x50, 0x31, 0] + W32(salt) + W32(Crc(payload)) + W32(|payload|)
      + Crypt(PassKey(password, member, salt), salt, payload)
  }

  /** The archive lar_create_single writes. */
  function Create(member: seq<byte>, payload: seq<byte>, password: seq<byte>): (r: seq<byte>)
    requires Creatable(member, payload, password)
    ensures |r| == 24 + |member| + Packed(payload, password)
  {
    Directory(member, payload, password) + Body(member, payload, password)
  }

  // ---- What comes back ----

  lemma CryptTwice(key: Key, salt: word, s: seq<byte>)
    ensures Crypt(key, salt, Crypt(key, salt, s)) == s
  {
    hide StreamByte;
    var t := Crypt(key, salt, s);
    forall i | 0 <= i < |s|
      ensures Crypt(key, salt, t)[i] == s[i]
    {
      XorInvolution(s[i], StreamByte(key, salt, i));
    }
  }

  lemma ReadAt16(s: seq<byte>, i: nat, v: nat)
    requires v < 0x10000 && i + 2 <= |s| && s[i..i + 2] == W16(v)
    ensures R16(s, i) == v
  {
    assert s[i..i + 2][0] == s[i] && s[i..i + 2][1] == s[i + 1];
  }

  /** Every field of the directory reads back. */
  lemma DirectoryReads(member: seq<byte>, payload: seq<byte>, password: seq<byte>, d: seq<byte>)
    requires Creatable(member, payload, password) && |d| >= 24 + |member|
    requires d[..24 + |member|] == Directory(member, payload, password)
    ensures R32(d, 0) == MAGIC && R16(d, 4) == 1 && R16(d, 6) == 16 + |member|
    ensures d[8] == |member| && d[9] == MethodFor(password) && R32(d, 12) == 24 + |member|
    ensures R32(d, 16) == Packed(payload, password) && R32(d, 20) == |payload| && d[24..24 + |member|] == member
  {
    assert |payload| < NO_WRAP;
    hide W32, W16, R32, R16, Packed;
    var e := Directory(member, payload, password);
    assert e[0..4] == W32(MAGIC) && e[4..6] == W16(1) && e[6..8] == W16(16 + |member|);
    assert e[8] == |member| && e[9] == MethodFor(password) && e[12..16] == W32(24 + |member|);
    assert e[16..20] == W32(Packed(payload, password)) && e[20..24] == W32(|payload|) && e[24..24 + |member|] == member;
    SameStretch(d, e, 0, 4);
    SameStretch(d, e, 4, 6);
    SameStretch(d, e, 6, 8);
    SameStretch(d, e, 12, 16);
    SameStretch(d, e, 16, 20);
    SameStretch(d, e, 20, 24);
    SameStretch(d, e, 24, 24 + |member|);
    ReadAt(d, 0, MAGIC);
    ReadAt16(d, 4, 1);
    ReadAt16(d, 6, 16 + |member|);
    ReadAt(d, 12, 24 + |member|);
    ReadAt(d, 16, Packed(payload, password));
    ReadAt(d, 20, |payload|);
  }

  lemma SameStretch(d: seq<byte>, e: seq<byte>, a: nat, b: nat)
    requires |e| <= |d| && d[..|e|] == e && a <= b <= |e|
    ensures d[a..b] == e[a..b] && forall i | a <= i < b :: d[i] == e[i]
  {
    assert d[..|e|][a..b] == d[a..b];
  }

  lemma FivePieces(a: seq<byte>, b: seq<byte>, c: seq<byte>, d: seq<byte>, e: seq<byte>)
    requires |a| == |b| == |c| == |d| == 4
    ensures var s := a + b + c + d + e;
            s[0..4] == a && s[4..8] == b && s[8..12] == c && s[12..16] == d && s[16..16 + |e|] == e
  {
  }

  lemma CreatedParts(member: seq<byte>, payload: seq<byte>, password: seq<byte>)
    requires Creatable(member, payload, password)
    ensures var d := Create(member, payload, password);
            && d[..24 + |member|] == Directory(member, payload, password)
            && d[24 + |member|..] == Body(member, payload, password)
  {
    hide Directory, Body;
  }

  /** The archive that was created is one that lists, its directory ending exactly
      where its header says. */
  lemma CreatedLists(member: seq<byte>, payload: seq<byte>, password: seq<byte>)
    requires Creatable(member, payload, password)
    ensures var d := Create(member, payload, password);
            HeaderCode(d) == 0 && EntryCode(d, 24 + |member|, 8) == 0 && List(d) == 0
  {
    var d := Create(member, payload, password);
    CreatedParts(member, payload, password);
    DirectoryReads(member, payload, password, d);
    hide Create, Directory, Body, R32, R16;
    assert EntryCode(d, 24 + |member|, 8) == 0;
    assert ListFrom(d, 24 + |member|, 24 + |member|, 0) == 0;
  }

  /** Extraction from a created archive is the unpacking of its one entry. */
  lemma ExtractIsUnpack(member: seq<byte>, payload: seq<byte>, password: seq<byte>, name: seq<byte>, pass: seq<byte>,
                        cap: nat)
    requires Creatable(member, payload, password)
    ensures var d := Create(member, payload, password);
            && EntryCode(d, 24 + |member|, 8) == 0
            && Extract(d, name, pass, cap)
               == if name == member then Unpack(d, 24 + |member|, 8, pass, cap) else Failed(-11)
  {
    var d := Create(member, payload, password);
    CreatedLists(member, payload, password);
    CreatedParts(member, payload, password);
    DirectoryReads(member, payload, password, d);
    hide Create, Directory, Body, R32, R16, EntryCode, HeaderCode, Unpack;
    assert ExtractFrom(d, 24 + |member|, 24 + |member|, 0, name, pass, cap) == Failed(-11);
  }

  /** Without a password the payload comes back whatever password is offered. */
  lemma StoredComesBack(member: seq<byte>, payload: seq<byte>, pass: seq<byte>, cap: nat)
    requires Creatable(member, payload, [])
    ensures Extract(Create(member, payload, []), member, pass, cap)
            == if cap < |payload| then Failed(-10) else Done(payload)
  {
    var d := Create(member, payload, []);
    ExtractIsUnpack(member, payload, [], member, pass, cap);
    CreatedParts(member, payload, []);
    DirectoryReads(member, payload, [], d);
    hide Create, Directory, R32, R16, EntryCode, Extract, ExtractFrom;
    assert d[24 + |member|..24 + |member| + |payload|] == d[24 + |member|..];
  }

  lemma SealedBody(member: seq<byte>, payload: seq<byte>, password: seq<byte>)
    requires Creatable(member, payload, password) && password != []
    ensures var b, salt := Body(member, payload, password), PublicSalt(member, payload);
            && b[0..4] == [0x4C, 0x50, 0x31, 0] && R32(b, 4) == salt && R32(b, 8) == Crc(payload)
            && b[16..16 + |payload|] == Crypt(PassKey(password, member, salt), salt, payload)
  {
    hide W32, R32, PublicSalt, Crc, Crypt, PassKey;
    var b, salt := Body(member, payload, password), PublicSalt(member, payload);
    FivePieces([0x4C, 0x50, 0x31, 0], W32(salt), W32(Crc(payload)), W32(|payload|),
               Crypt(PassKey(password, member, salt), salt, payload));
    ReadAt(b, 4, salt);
    ReadAt(b, 8, Crc(payload));
  }

  lemma SealedReads(member: seq<byte>, payload: seq<byte>, password: seq<byte>)
    requires Creatable(member, payload, password) && password != []
    ensures var d, at, salt := Create(member, payload, password), 24 + |member|, PublicSalt(member, payload);
            && d[at..at + 4] == [0x4C, 0x50, 0x31, 0] && R32(d, at + 4) == salt && R32(d, at + 8) == Crc(payload)
            && d[at + OVERHEAD..at + OVERHEAD + |payload|] == Crypt(PassKey(password, member, salt), salt, payload)
  {
    hide Create, Body, R32, PublicSalt, Crc, Crypt, PassKey, Directory, ValidMember, W32;
    var d, at, b := Create(member, payload, password), 24 + |member|, Body(member, payload, password);
    CreatedParts(member, payload, password);
    SealedBody(member, payload, password);
    assert |b| == OVERHEAD + |payload| && |d| == at + |b|;
    BehindIs(d, at, b);
  }

  /** b at position at of d, seen from d. */
  lemma BehindIs(d: seq<byte>, at: nat, b: seq<byte>)
    requires at <= |d| && d[at..] == b && |b| >= 16
    ensures d[at..at + 4] == b[0..4] && R32(d, at + 4) == R32(b, 4) && R32(d, at + 8) == R32(b, 8)
    ensures d[at + 16..at + |b|] == b[16..|b|]
  {
    assert forall i | 0 <= i < |b| :: d[at + i] == b[i];
  }

  /** What a password makes of a member sealed with another one. */
  function Decoded(member: seq<byte>, payload: seq<byte>, password: seq<byte>, pass: seq<byte>): seq<byte>
    requires |payload| < NO_WRAP
  {
    var salt := PublicSalt(member, payload);
    Crypt(PassKey(pass, member, salt), salt, Crypt(PassKey(password, member, salt), salt, payload))
  }

  /** Unpacking an entry of the second method whose sizes and mark are right. */
  lemma UnpackIs(d: seq<byte>, end: nat, p: nat, pass: seq<byte>, cap: nat, name: seq<byte>, off: nat, size: nat,
                 salt: word, crc: word, cipher: seq<byte>)
    requires end <= |d| && EntryCode(d, end, p) == 0 && d[p + 1] == PASS_STORE && pass != []
    requires d[p + 16..p + 16 + d[p] as int] == name
    requires R32(d, p + 4) == off && R32(d, p + 8) == size + OVERHEAD && R32(d, p + 12) == size
    requires d[off..off + 4] == [0x4C, 0x50, 0x31, 0] && R32(d, off + 4) == salt && R32(d, off + 8) == crc
    requires d[off + OVERHEAD..off + OVERHEAD + size] == cipher
    ensures var out := Crypt(PassKey(pass, name, salt), salt, cipher);
            Unpack(d, end, p, pass, cap)
            == if cap < size then Failed(-10) else if Crc(out) != crc then Failed(-13) else Done(out)
  {
    hide R32, Crc, Crypt, PassKey, EntryCode;
  }

  lemma UnpackSealed(member: seq<byte>, payload: seq<byte>, password: seq<byte>, pass: seq<byte>, cap: nat)
    requires Creatable(member, payload, password) && password != [] && pass != []
    ensures var out := Decoded(member, payload, password, pass);
            Extract(Create(member, payload, password), member, pass, cap)
            == if cap < |payload| then Failed(-10)
               else if Crc(out) != Crc(payload) then Failed(-13)
               else Done(out)
  {
    hide Create, Directory, Body, R32, R16, EntryCode, Extract, ExtractFrom, PublicSalt, Crc, Crypt, PassKey,
         HeaderCode, ListFrom, List, Unpack, Creatable;
    ExtractIsUnpack(member, payload, password, member, pass, cap);
    SealedSize(member, payload, password);
    var d, salt := Create(member, payload, password), PublicSalt(member, payload);
    SealedEntry(member, payload, password, d, salt);
    UnpackIs(d, 24 + |member|, 8, pass, cap, member, 24 + |member|, |payload|, salt, Crc(payload),
             Crypt(PassKey(password, member, salt), salt, payload));
  }

  lemma SealedSize(member: seq<byte>, payload: seq<byte>, password: seq<byte>)
    requires Creatable(member, payload, password) && password != []
    ensures |payload| < NO_WRAP && |Create(member, payload, password)| == 24 + |member| + |payload| + OVERHEAD
  {
    hide Directory, Body;
  }

  /** The entry of a sealed member, as extraction looks at it. */
  lemma SealedEntry(member: seq<byte>, payload: seq<byte>, password: seq<byte>, d: seq<byte>, salt: word)
    requires Creatable(member, payload, password) && password != []
    requires d == Create(member, payload, password) && salt == PublicSalt(member, payload)
    ensures var at := 24 + |member|;
            && d[9] == PASS_STORE && d[8] == |member| && d[24..24 + |member|] == member
            && R32(d, 12) == at && R32(d, 16) == |payload| + OVERHEAD && R32(d, 20) == |payload|
            && d[at..at + 4] == [0x4C, 0x50, 0x31, 0] && R32(d, at + 4) == salt && R32(d, at + 8) == Crc(payload)
            && d[at + OVERHEAD..at + OVERHEAD + |payload|] == Crypt(PassKey(password, member, salt), salt, payload)
  {
    hide Create, Directory, Body, R32, R16, PublicSalt, Crc, Crypt, PassKey;
    CreatedParts(member, payload, password);
    DirectoryReads(member, payload, password, d);
    SealedReads(member, payload, password);
  }

  /** The same password gives back exactly the payload. */
  lemma SealedComesBack(member: seq<byte>, payload: seq<byte>, password: seq<byte>, cap: nat)
    requires Creatable(member, payload, password) && password != []
    ensures Extract(Create(member, payload, password), member, password, cap)
            == if cap < |payload| then Failed(-10) else Done(payload)
  {
    UnpackSealed(member, payload, password, password, cap);
    var salt := PublicSalt(member, payload);
    CryptTwice(PassKey(password, member, salt), salt, payload);
    hide *;
  }

  /** Another password is refused exactly when the checksum tells the difference. */
  lemma OtherPassword(member: seq<byte>, payload: seq<byte>, password: seq<byte>, pass: seq<byte>, cap: nat)
    requires Creatable(member, payload, password) && password != [] && pass != [] && cap >= |payload|
    ensures Extract(Create(member, payload, password), member, pass, cap) == Failed(-13)
            <==> Crc(Decoded(member, payload, password, pass)) != Crc(payload)
    ensures Extract(Create(member, payload, password), member, [], cap) == Failed(-12)
  {
    UnpackSealed(member, payload, password, pass, cap);
    ExtractIsUnpack(member, payload, password, member, [], cap);
    CreatedParts(member, payload, password);
    DirectoryReads(member, payload, password, Create(member, payload, password));
    hide Create, Directory, Body, R32, R16, EntryCode, Extract, ExtractFrom, PublicSalt, Crc, Crypt, PassKey;
  }

  /** Whatever the bytes: an archive that lists has a sound directory, so looking
      for a member in it never ends in a directory error. */
  lemma {:induction false} ListedIsSound(d: seq<byte>, end: nat, p: nat, n: nat, member: seq<byte>,
                                         password: seq<byte>, cap: nat)
    requires end <= |d| && ListFrom(d, end, p, n) == 0
    ensures ExtractFrom(d, end, p, n, member, password, cap).Failed? ==>
              ExtractFrom(d, end, p, n, member, password, cap).code <= -9
    decreases n
  {
    hide EntryCode, Crypt, PassKey, Crc, R32;
    if n > 0 && d[p + 16..p + 16 + d[p] as int] != member {
      ListedIsSound(d, end, p + 16 + d[p] as int, n - 1, member, password, cap);
    }
  }

  lemma ListedExtracts(d: seq<byte>, member: seq<byte>, password: seq<byte>, cap: nat)
    requires List(d) == 0
    ensures Extract(d, member, password, cap).Failed? ==> Extract(d, member, password, cap).code <= -9
  {
    ListedIsSound(d, 8 + R16(d, 6), 8, R16(d, 4), member, password, cap);
  }
}
