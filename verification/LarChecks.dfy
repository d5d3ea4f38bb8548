/** LAR archives at fixed places: what a created one looks like, what a listed one must
    contain, and which entry an extraction takes. */
module LarChecks {
  import opened BitOps
  import opened Bytes
  import opened BytesFacts
  import opened LarSpec

  /** A 16-bit number, low byte first. */
  function Short(s: seq<byte>, i: nat): int
    requires i + 2 <= |s|
  {
    s[i] as int + 256 * s[i + 1] as int
  }

  lemma ReadsShort(s: seq<byte>, i: nat)
    requires i + 2 <= |s|
    ensures R16(s, i) == Short(s, i)
  {
  }

  /** A created archive: LAR1, one member, the length of the directory; the entry's name
      length, its method, where the payload lies, its stored and its plain length, the name;
      then the payload. */
  lemma {:induction false} CreatedLayout(member: seq<byte>, payload: seq<byte>, password: seq<byte>)
    requires Creatable(member, payload, password)
    ensures var d, n := Create(member, payload, password), |member|;
            var packed := if password == [] then |payload| else |payload| + 16;
            && |d| == 24 + n + packed
            && d[0..4] == [0x4C, 0x41, 0x52, 0x31] && Short(d, 4) == 1 && Short(d, 6) == 16 + n
            && d[8] as int == n && d[9] as int == (if password == [] then 0 else 1) && d[10] == d[11] == 0
            && Number(d, 12) == 24 + n && Number(d, 16) == packed && Number(d, 20) == |payload|
            && d[24..24 + n] == member
            && (password == [] ==> d[24 + n..] == payload)
            && (password != [] ==> d[24 + n..28 + n] == [0x4C, 0x50, 0x31, 0]
                                   && Number(d, 28 + n) == PublicSalt(member, payload)
                                   && Number(d, 32 + n) == Crc(payload) && Number(d, 36 + n) == |payload|)
  {
    hide Create, Directory, Body, R32, R16, Number, Short, PublicSalt, Crc;
    var d, n := Create(member, payload, password), |member|;
    CreatedParts(member, payload, password);
    DirectoryReads(member, payload, password, d);
    FixedFields(d);
    Reserved(member, payload, password, d);
    if password == [] {
      BodyStored(member, payload);
    } else {
      SealedReads(member, payload, password);
      SealedLength(member, payload, password);
      ReadsNumber(d, 28 + n);
      ReadsNumber(d, 32 + n);
    }
  }

  lemma {:induction false} FixedFields(d: seq<byte>)
    requires |d| >= 24
    ensures R32(d, 12) == Number(d, 12) && R32(d, 16) == Number(d, 16) && R32(d, 20) == Number(d, 20)
    ensures R16(d, 4) == Short(d, 4) && R16(d, 6) == Short(d, 6)
    ensures R32(d, 0) == MAGIC <==> d[0..4] == [0x4C, 0x41, 0x52, 0x31]
  {
    hide Number, R32, Short, R16;
    ReadsNumber(d, 12);
    ReadsNumber(d, 16);
    ReadsNumber(d, 20);
    ReadsShort(d, 4);
    ReadsShort(d, 6);
    Mark(d);
  }

  lemma {:induction false} Mark(d: seq<byte>)
    requires |d| >= 4
    ensures R32(d, 0) == MAGIC <==> d[0..4] == [0x4C, 0x41, 0x52, 0x31]
  {
    ReadsNumber(d, 0);
    var m := d[0..4];
    assert m[0] == d[0] && m[1] == d[1] && m[2] == d[2] && m[3] == d[3];
    if R32(d, 0) == MAGIC {
      DigitsOf(d[0], d[1], d[2], d[3], MAGIC);
    }
  }

  lemma {:induction false} Reserved(member: seq<byte>, payload: seq<byte>, password: seq<byte>, d: seq<byte>)
    requires Creatable(member, payload, password) && |d| >= 24 + |member|
    requires d[..24 + |member|] == Directory(member, payload, password)
    ensures d[10] == d[11] == 0
  {
    hide W32, W16, MethodFor, Packed;
    assert d[10] == d[..24 + |member|][10] && d[11] == d[..24 + |member|][11];
  }

  lemma BodyStored(member: seq<byte>, payload: seq<byte>)
    requires Creatable(member, payload, [])
    ensures Body(member, payload, []) == payload
  {
  }

  lemma {:induction false} SealedLength(member: seq<byte>, payload: seq<byte>, password: seq<byte>)
    requires Creatable(member, payload, password) && password != []
    ensures var d := Create(member, payload, password);
            |d| == 40 + |member| + |payload| && Number(d, 36 + |member|) == |payload|
  {
    hide Create, Directory, W32, PublicSalt, Crc, Crypt, PassKey, Number, R32;
    var d, b, salt := Create(member, payload, password), Body(member, payload, password), PublicSalt(member, payload);
    CreatedParts(member, payload, password);
    FivePieces([0x4C, 0x50, 0x31, 0], W32(salt), W32(Crc(payload)), W32(|payload|),
               Crypt(PassKey(password, member, salt), salt, payload));
    assert b[12..16] == W32(|payload|);
    assert d[36 + |member|..40 + |member|] == b[12..16];
    ReadAt(d, 36 + |member|, |payload|);
    ReadsNumber(d, 36 + |member|);
  }

  // ---- the directory ----

  /** Where the n entries from p on begin and where the last one ends. */
  function Ends(d: seq<byte>, p: nat, n: nat): int
    decreases n
  {
    if n == 0 then p else if p < |d| then Ends(d, p + 16 + d[p] as int, n - 1) else -1
  }

  /** The entry at p lies in the directory, has a name, and its payload lies in the archive. */
  predicate Sound(d: seq<byte>, end: nat, p: nat) {
    && p + 16 <= end <= |d| && 1 <= d[p] && p + 16 + d[p] as int <= end
    && Number(d, p + 4) + Number(d, p + 8) <= |d|
  }

  predicate AllSound(d: seq<byte>, end: nat, p: nat, n: nat)
    decreases n
  {
    n > 0 ==> Sound(d, end, p) && AllSound(d, end, p + 16 + d[p] as int, n - 1)
  }

  lemma {:induction false} EntrySound(d: seq<byte>, end: nat, p: nat)
    requires end <= |d|
    ensures EntryCode(d, end, p) == 0 <==> Sound(d, end, p)
    ensures EntryCode(d, end, p) == if p + 16 > end then -4
                                    else if d[p] == 0 || p + 16 + d[p] as int > end then -5
                                    else if Sound(d, end, p) then 0
                                    else -6
  {
    hide R32, Number;
    if p + 16 <= end {
      ReadsNumber(d, p + 4);
      ReadsNumber(d, p + 8);
    }
  }

  lemma {:induction false} WalkSound(d: seq<byte>, end: nat, p: nat, n: nat)
    requires end <= |d|
    ensures ListFrom(d, end, p, n) == 0 <==> AllSound(d, end, p, n) && Ends(d, p, n) == end
    decreases n
  {
    hide EntryCode, Sound, Number, R32;
    if n > 0 {
      EntrySound(d, end, p);
      if Sound(d, end, p) {
        Begins(d, end, p);
        WalkSound(d, end, p + 16 + d[p] as int, n - 1);
      }
    }
  }

  lemma Begins(d: seq<byte>, end: nat, p: nat)
    requires Sound(d, end, p)
    ensures p < |d|
  {
    hide Number;
  }

  /** An archive lists exactly when it begins with LAR1, the directory has the length in its
      header, and the entries in it, as many as the header says, are sound and fill it. */
  lemma {:induction false} ListsExactly(d: seq<byte>)
    ensures List(d) == 0 <==>
            && |d| >= 8 && d[0..4] == [0x4C, 0x41, 0x52, 0x31] && 8 + Short(d, 6) <= |d|
            && AllSound(d, 8 + Short(d, 6), 8, Short(d, 4)) && Ends(d, 8, Short(d, 4)) == 8 + Short(d, 6)
  {
    hide R32, R16, AllSound, Ends, ListFrom, Short;
    if |d| >= 8 {
      Mark(d);
      ReadsShort(d, 4);
      ReadsShort(d, 6);
      if 8 + R16(d, 6) <= |d| {
        WalkSound(d, 8 + R16(d, 6), 8, R16(d, 4));
        WalkCodes(d, 8 + R16(d, 6), 8, R16(d, 4));
      }
    }
  }

  lemma {:induction false} WalkCodes(d: seq<byte>, end: nat, p: nat, n: nat)
    requires end <= |d|
    ensures ListFrom(d, end, p, n) == 0 || -7 <= ListFrom(d, end, p, n) <= -4
    decreases n
  {
    hide R32;
    if n > 0 && EntryCode(d, end, p) == 0 {
      WalkCodes(d, end, p + 16 + d[p] as int, n - 1);
    }
  }

  // ---- which entry is taken ----

  /** Where entry i from p on begins. */
  function EntryAt(d: seq<byte>, p: nat, i: nat): nat
    decreases i
  {
    if i == 0 then p else if p < |d| then EntryAt(d, p + 16 + d[p] as int, i - 1) else p
  }

  /** The first entry of that name is taken, whatever comes behind it. */
  lemma {:induction false} FirstIsTaken(d: seq<byte>, end: nat, p: nat, n: nat, i: nat, member: seq<byte>,
                                        password: seq<byte>, cap: nat)
    requires end <= |d| && i < n && NamedFirst(d, end, p, i, member)
    ensures var q := EntryAt(d, p, i);
            EntryCode(d, end, q) == 0
            && ExtractFrom(d, end, p, n, member, password, cap) == Unpack(d, end, q, password, cap)
    decreases i
  {
    hide EntryCode, Unpack, Number, Sound;
    EntrySound(d, end, p);
    Begins(d, end, p);
    if i > 0 {
      FirstIsTaken(d, end, p + 16 + d[p] as int, n - 1, i - 1, member, password, cap);
    }
  }

  /** Entry i from p on has that name and none before it has. */
  predicate NamedFirst(d: seq<byte>, end: nat, p: nat, i: nat, member: seq<byte>)
    decreases i
  {
    Sound(d, end, p)
    && (if i == 0 then d[p + 16..p + 16 + d[p] as int] == member
        else d[p + 16..p + 16 + d[p] as int] != member
             && NamedFirst(d, end, p + 16 + d[p] as int, i - 1, member))
  }

  predicate NoneNamed(d: seq<byte>, end: nat, p: nat, n: nat, member: seq<byte>)
    decreases n
  {
    n > 0 ==> Sound(d, end, p) && d[p + 16..p + 16 + d[p] as int] != member
              && NoneNamed(d, end, p + 16 + d[p] as int, n - 1, member)
  }

  /** Without an entry of that name the answer is -11. */
  lemma {:induction false} NoneIsTaken(d: seq<byte>, end: nat, p: nat, n: nat, member: seq<byte>, password: seq<byte>,
                                       cap: nat)
    requires end <= |d| && NoneNamed(d, end, p, n, member)
    ensures ExtractFrom(d, end, p, n, member, password, cap) == Failed(-11)
    decreases n
  {
    hide EntryCode, Unpack, Number, Sound;
    if n > 0 {
      EntrySound(d, end, p);
      Begins(d, end, p);
      NoneIsTaken(d, end, p + 16 + d[p] as int, n - 1, member, password, cap);
    }
  }

  /** What comes out of a sound entry: a stored payload as it lies there, a sealed one only with
      a password and only if it has the checksum in front of it; -9 for wrong lengths, mark or
      method, -10 for too small a buffer, -12 for a missing password, -13 for the checksum. */
  lemma {:induction false} TakenPayload(d: seq<byte>, end: nat, p: nat, password: seq<byte>, cap: nat)
    requires Sound(d, end, p) && EntryCode(d, end, p) == 0
    ensures var off, packed, size := Number(d, p + 4), Number(d, p + 8), Number(d, p + 12);
            var u, kind := Unpack(d, end, p, password, cap), d[p + 1];
            && (kind > 1 ==> u == Failed(-9))
            && (kind == 0 ==> if packed != size then u == Failed(-9)
                                else if size > cap then u == Failed(-10)
                                else 0 <= off <= off + size <= |d| && u == Done(d[off..off + size]))
            && (kind == 1 && password == [] ==> u == Failed(-12))
            && (kind == 1 && u.Done? ==> packed == size + 16 && 0 <= off && off + packed <= |d| && |u.payload| == size
                                           && d[off..off + 4] == [0x4C, 0x50, 0x31, 0]
                                           && Crc(u.payload) == Number(d, off + 8))
            && (u.Failed? ==> u.code in {-9, -10, -12, -13})
  {
    hide R32, Number, Crc, Crypt, PassKey;
    ReadsNumber(d, p + 4);
    ReadsNumber(d, p + 8);
    ReadsNumber(d, p + 12);
    var off := R32(d, p + 4);
    if off + 12 <= |d| {
      ReadsNumber(d, off + 8);
    }
  }
}
