/** The archive reader and writer of os/kernel/lar.c on buffers. */
module Lar {
  import opened BitOps
  import opened Bytes
  import opened LarSpec

  /** xtea_encipher: enciphers the two words of v in place. */
  method XteaEncipher(v: array<word>, key: Key)
    requires v.Length == 2
    modifies v
    ensures var c := Xtea(old(v[0]), old(v[1]), key, 32); v[0] == c.v0 && v[1] == c.v1
  {
    hide HalfRound;
    var v0, v1, sum := v[0], v[1], 0;
    for i := 0 to 32
      invariant Xtea(old(v[0]), old(v[1]), key, i) == Cipher(v0, v1, sum)
    {
      v0 := AddWord(v0, HalfRound(v1, sum, key.Part(sum % 4)));
      sum := AddWord(sum, DELTA);
      v1 := AddWord(v1, HalfRound(v0, sum, key.Part(ShrWord(sum, 11) % 4)));
    }
    v[0], v[1] := v0, v1;
  }

  method PassStreamByte(key: Key, salt: word, index: nat) returns (b: byte)
    ensures b == LarSpec.StreamByte(key, salt, index)
  {
    hide Xtea;
    var block := BlockWord(index);
    var v := new word[2](i => 0);
    v[0] := XorWord(XorWord(salt, block), 0x4C415250);
    v[1] := XorWord(XorWord(key.k0, key.k2), MulWord(block, 0x9E3779B9));
    XteaEncipher(v, key);
    b := Low8(ShrWord(if index / 4 % 2 == 1 then v[1] else v[0], index % 4 * 8));
  }

  /** Exclusive or with the password stream, from one buffer to another. */
  method CryptInto(key: Key, salt: word, s: seq<byte>, out: array<byte>, at: nat)
    requires at + |s| <= out.Length
    modifies out
    ensures out[..] == Splice(old(out[..]), at, Crypt(key, salt, s))
  {
    ghost var t, was := Crypt(key, salt, s), out[..];
    assert Splice(was, at, t[..0]) == was;
    for i := 0 to |s|
      invariant out[..] == Splice(was, at, t[..i])
    {
      SpliceGrows(was, at, t, i);
      hide Splice, LarSpec.StreamByte;
      var k := PassStreamByte(key, salt, i);
      out[at + i] := XorByte(s[i], k);
    }
    assert t[..|s|] == t;
  }

  method ValidName(member: seq<byte>) returns (ok: bool)
    ensures ok == ValidMember(member)
  {
    if |member| == 0 || |member| > 63 {
      return false;
    }
    for i := 0 to |member|
      invariant forall k | 0 <= k < i ::
                  33 <= member[k] <= 126 && member[k] != '/' as int && member[k] != '\\' as int
                    && member[k] != ':' as int
    {
      var c := member[i];
      if c == '/' as int || c == '\\' as int || c == ':' as int || c < 33 || c > 126 {
        return false;
      }
    }
    return true;
  }

  method NameEquals(entry: seq<byte>, name: seq<byte>) returns (eq: bool)
    ensures eq == (entry == name)
  {
    var i := 0;
    while i < |entry| && i < |name|
      invariant 0 <= i <= |entry| && i <= |name| && entry[..i] == name[..i]
    {
      if entry[i] != name[i] {
        return false;
      }
      i := i + 1;
    }
    assert i == |entry| == |name| ==> entry[..i] == entry && name[..i] == name;
    return i == |entry| && i == |name|;
  }

  /** The walk of lar_list. */
  method LarList(data: array<byte>) returns (r: int)
    ensures r == List(data[..])
  {
    hide EntryCode, R32, R16;
    var d := data[..];
    r := HeaderCode(d);
    if r != 0 {
      return r;
    }
    var count: nat, end: nat := R16(d, 4), 8 + R16(d, 6);
    var p: nat, i: nat := 8, 0;
    while i < count
      invariant 0 <= i <= count && ListFrom(d, end, p, count - i) == List(d)
    {
      r := EntryCode(d, end, p);
      if r != 0 {
        return r;
      }
      p := p + 16 + d[p] as int;
      i := i + 1;
    }
    return if p == end then 0 else -7;
  }

  /** The payload of the entry at p, checked and decoded into out. */
  method UnpackInto(d: seq<byte>, end: nat, p: nat, password: seq<byte>, out: array<byte>)
    returns (code: int, size: nat)
    requires end <= |d| && EntryCode(d, end, p) == 0
    modifies out
    ensures match Unpack(d, end, p, password, out.Length)
            case Failed(c) => code == c && code != 0
            case Done(s) => code == 0 && size == |s| <= out.Length && out[..size] == s
  {
    hide EntryCode, R32, Crypt, PassKey, Crc;
    var off, packed := R32(d, p + 4), R32(d, p + 8);
    size := R32(d, p + 12);
    if d[p + 1] == STORE {
      if packed != size {
        return -9, 0;
      }
      if out.Length < size {
        return -10, 0;
      }
      SpliceFront(out[..], d[off..off + size]);
      CopyInto(out, 0, d[off..off + size]);
      return 0, size;
    }
    if d[p + 1] == PASS_STORE {
      if password == [] {
        return -12, 0;
      }
      if packed < OVERHEAD || packed - OVERHEAD != size || d[off..off + 4] != [0x4C, 0x50, 0x31, 0] {
        return -9, 0;
      }
      if out.Length < size {
        return -10, 0;
      }
      var salt, want := R32(d, off + 4), R32(d, off + 8);
      var key := PassKey(password, d[p + 16..p + 16 + d[p] as int], salt);
      SpliceFront(out[..], Crypt(key, salt, d[off + OVERHEAD..off + OVERHEAD + size]));
      CryptInto(key, salt, d[off + OVERHEAD..off + OVERHEAD + size], out, 0);
      if Crc(out[..size]) != want {
        return -13, 0;
      }
      return 0, size;
    }
    return -9, 0;
  }

  /** lar_extract_password. */
  method LarExtract(data: array<byte>, name: seq<byte>, password: seq<byte>, out: array<byte>)
    returns (code: int, size: nat)
    requires data != out
    modifies out
    ensures match Extract(data[..], name, password, out.Length)
            case Failed(c) => code == c && code != 0
            case Done(s) => code == 0 && size == |s| <= out.Length && out[..size] == s
  {
    hide EntryCode, R32, R16, Unpack;
    var d := data[..];
    code, size := HeaderCode(d), 0;
    if code != 0 {
      return code, 0;
    }
    var count: nat, end: nat := R16(d, 4), 8 + R16(d, 6);
    var p: nat, i: nat := 8, 0;
    while i < count
      invariant 0 <= i <= count && d == data[..]
      invariant ExtractFrom(d, end, p, count - i, name, password, out.Length) == Extract(d, name, password, out.Length)
    {
      code := EntryCode(d, end, p);
      if code != 0 {
        return code, 0;
      }
      EntryInside(d, end, p);
      var eq := NameEquals(d[p + 16..p + 16 + d[p] as int], name);
      if eq {
        code, size := UnpackInto(d, end, p, password, out);
        return code, size;
      }
      p := p + 16 + d[p] as int;
      i := i + 1;
    }
    return -11, 0;
  }

  lemma EntryInside(d: seq<byte>, end: nat, p: nat)
    requires end <= |d| && EntryCode(d, end, p) == 0
    ensures p + 16 + d[p] as int <= |d|
  {
  }

  lemma SpliceFront(was: seq<byte>, t: seq<byte>)
    requires |t| <= |was|
    ensures Splice(was, 0, t)[..|t|] == t
  {
  }

  /** Writes x at position p; done is what the buffer holds before it. */
  method Emit(out: array<byte>, p: nat, x: seq<byte>, ghost done: seq<byte>) returns (next: nat)
    requires |done| == p && p + |x| <= out.Length && out[..p] == done
    modifies out
    ensures next == p + |x| && out[..next] == done + x
  {
    CopyInto(out, p, x);
    next := p + |x|;
  }

  /** lar_create_single into a buffer of out.Length bytes. The total is computed in
      32 bits; overrun says that it wrapped to something the buffer seems to have
      room for, where the source goes on to write past the buffer. */
  method LarCreate(out: array<byte>, member: seq<byte>, payload: seq<byte>, password: seq<byte>)
    returns (code: int, size: nat, overrun: bool)
    requires |payload| < NO_WRAP && out.Length < NO_WRAP
    modifies out
    ensures overrun <==> ValidMember(member) && Packed(payload, password) < NO_WRAP
                         && NO_WRAP <= 24 + |member| + Packed(payload, password) <= NO_WRAP + out.Length
    ensures overrun ==> out[..] == old(out[..])
    ensures !overrun ==>
              code == if !ValidMember(member) then -2
                      else if 24 + |member| + Packed(payload, password) > out.Length then -3
                      else 0
    ensures code == 0 && !overrun ==>
              size == |Create(member, payload, password)| && out[..size] == Create(member, payload, password)
  {
    hide ValidMember, Create, Directory;
    var ok := ValidName(member);
    if !ok {
      return -2, 0, false;
    }
    NameFits(member);
    var packed := (|payload| + if password == [] then 0 else OVERHEAD) % NO_WRAP;
    WrapsOnce(Packed(payload, password));
    var total := (24 + |member| + packed) % NO_WRAP;
    WrapsOnce(24 + |member| + packed);
    if total > out.Length || packed < |payload| {
      return -3, 0, false;
    }
    if 24 + |member| + packed != total {
      return 0, 0, true;
    }
    size := WriteDirectory(out, member, payload, password);
    size := WriteBody(out, size, member, payload, password);
    code, overrun := 0, false;
  }

  lemma {:induction false} WrapsOnce(x: nat)
    requires x < 2 * NO_WRAP
    ensures x % NO_WRAP == if x < NO_WRAP then x else x - NO_WRAP
  {
  }

  lemma NameFits(member: seq<byte>)
    requires ValidMember(member)
    ensures 1 <= |member| <= 63
  {
  }

  method WriteDirectory(out: array<byte>, member: seq<byte>, payload: seq<byte>, password: seq<byte>) returns (p: nat)
    requires Creatable(member, payload, password) && |Create(member, payload, password)| <= out.Length
    modifies out
    ensures p == 24 + |member| && out[..p] == Directory(member, payload, password)
  {
    hide W32, W16, Create, Directory, MethodFor, Packed;
    DirectoryIs(member, payload, password);
    ghost var a := W32(MAGIC);
    p := Emit(out, 0, W32(MAGIC), []);
    assert [] + a == a;
    p := Emit(out, p, W16(1), a);
    p := Emit(out, p, W16(16 + |member|), a + W16(1));
    ghost var b := a + W16(1) + W16(16 + |member|);
    p := Emit(out, p, [|member|, MethodFor(password), 0, 0], b);
    b := b + [|member|, MethodFor(password), 0, 0];
    p := Emit(out, p, W32(24 + |member|), b);
    b := b + W32(24 + |member|);
    p := Emit(out, p, W32(Packed(payload, password)), b);
    b := b + W32(Packed(payload, password));
    p := Emit(out, p, W32(|payload|), b);
    b := b + W32(|payload|);
    p := Emit(out, p, member, b);
  }

  lemma {:induction false} DirectoryIs(member: seq<byte>, payload: seq<byte>, password: seq<byte>)
    requires Creatable(member, payload, password)
    ensures |member| <= 63 && |payload| <= Packed(payload, password) < NO_WRAP
    ensures Directory(member, payload, password)
         == W32(MAGIC) + W16(1) + W16(16 + |member|) + [|member|, MethodFor(password), 0, 0] + W32(24 + |member|)
            + W32(Packed(payload, password)) + W32(|payload|) + member
  {
    hide W32, W16;
  }

  method WriteBody(out: array<byte>, at: nat, member: seq<byte>, payload: seq<byte>, password: seq<byte>)
    returns (p: nat)
    requires Creatable(member, payload, password) && |Create(member, payload, password)| <= out.Length
    requires at == 24 + |member| && out[..at] == Directory(member, payload, password)
    modifies out
    ensures p == |Create(member, payload, password)| && out[..p] == Create(member, payload, password)
  {
    hide W32, Crc, PassKey, Crypt, PublicSalt, Directory;
    ghost var d := Directory(member, payload, password);
    if password == [] {
      p := Emit(out, at, payload, d);
      return p;
    }
    var crc, salt := Crc(payload), PublicSalt(member, payload);
    var key := PassKey(password, member, salt);
    ghost var b := [0x4C, 0x50, 0x31, 0];
    p := Emit(out, at, [0x4C, 0x50, 0x31, 0], d);
    p := Emit(out, p, W32(salt), d + b);
    p := Emit(out, p, W32(crc), d + b + W32(salt));
    p := Emit(out, p, W32(|payload|), d + b + W32(salt) + W32(crc));
    ghost var e := d + b + W32(salt) + W32(crc) + W32(|payload|);
    SpliceBehind(out[..], e, Crypt(key, salt, payload));
    CryptInto(key, salt, payload, out, p);
    p := p + |payload|;
    JoinSix(d, b, W32(salt), W32(crc), W32(|payload|), Crypt(key, salt, payload));
  }

  lemma SpliceBehind(was: seq<byte>, e: seq<byte>, t: seq<byte>)
    requires |e| + |t| <= |was| && was[..|e|] == e
    ensures Splice(was, |e|, t)[..|e| + |t|] == e + t
  {
  }

  lemma JoinSix(d: seq<byte>, a: seq<byte>, b: seq<byte>, c: seq<byte>, e: seq<byte>, f: seq<byte>)
    ensures d + a + b + c + e + f == d + (a + b + c + e + f)
  {
  }
}
