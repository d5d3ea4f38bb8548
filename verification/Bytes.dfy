/** Bytes in memory: little-endian words, overwriting a stretch of a buffer, and
    the FNV-1a checksum that several file formats of the kernel use. */
module Bytes {
  import opened BitOps

  const NO_WRAP: nat := 0x1_0000_0000

  function W32(v: word): (s: seq<byte>)
    ensures |s| == 4
  {
    [v % 0x100, v / 0x100 % 0x100, v / 0x100 / 0x100 % 0x100, v / 0x100 / 0x100 / 0x100]
  }

  function R32(s: seq<byte>, i: nat): word
    requires i + 4 <= |s|
  {
    s[i] as int + 0x100 * (s[i + 1] as int) + 0x10000 * (s[i + 2] as int) + 0x1000000 * (s[i + 3] as int)
  }

  lemma ReadBack(v: word)
    ensures R32(W32(v), 0) == v
  {
    var a := v / 0x100;
    var b := a / 0x100;
    assert v == 0x100 * a + v % 0x100 && a == 0x100 * b + a % 0x100 && b == 0x100 * (b / 0x100) + b % 0x100;
  }

  lemma ReadAt(s: seq<byte>, i: nat, v: word)
    requires i + 4 <= |s| && s[i..i + 4] == W32(v)
    ensures R32(s, i) == v
  {
    var w := s[i..i + 4];
    assert w[0] == s[i] && w[1] == s[i + 1] && w[2] == s[i + 2] && w[3] == s[i + 3];
    ReadBack(v);
    assert R32(w, 0) == R32(s, i);
  }

  lemma ReadShifted(s: seq<byte>, a: nat, b: nat, i: nat)
    requires a <= b <= |s| && a + i + 4 <= b
    ensures R32(s[a..b], i) == R32(s, a + i)
  {
  }

  /** FNV-1a: one step, and over a byte string. */
  function Mix(h: word, b: byte): word {
    Xor(h, b) * 16777619 % NO_WRAP
  }

  function Hash(s: seq<byte>): word {
    if s == [] then 2166136261 else Mix(Hash(s[..|s| - 1]), s[|s| - 1])
  }

  function Zeros(n: nat): (s: seq<byte>)
    ensures |s| == n && forall i | 0 <= i < n :: s[i] == 0
  {
    seq(n, _ => 0)
  }

  lemma Within<T>(s: seq<T>, a: nat, b: nat, i: nat, j: nat)
    requires a <= b <= |s| && i <= j <= b - a
    ensures s[a..b][i..j] == s[a + i..a + j]
  {
    var l, r := s[a..b][i..j], s[a + i..a + j];
    assert forall k | 0 <= k < j - i :: l[k] == s[a + i + k] == r[k];
  }

  /** s with t written over it from position i. */
  function Splice(s: seq<byte>, i: nat, t: seq<byte>): (r: seq<byte>)
    requires i + |t| <= |s|
    ensures |r| == |s|
  {
    s[..i] + t + s[i + |t|..]
  }

  lemma SpliceAt(s: seq<byte>, i: nat, t: seq<byte>)
    requires i + |t| <= |s|
    ensures Splice(s, i, t)[i..i + |t|] == t
  {
  }

  /** A stretch that the write does not touch. */
  lemma SpliceApart(s: seq<byte>, i: nat, t: seq<byte>, a: nat, b: nat)
    requires i + |t| <= |s| && a <= b <= |s| && (b <= i || i + |t| <= a)
    ensures Splice(s, i, t)[a..b] == s[a..b]
  {
    var l, r := Splice(s, i, t)[a..b], s[a..b];
    assert forall k | 0 <= k < b - a :: l[k] == Splice(s, i, t)[a + k] == s[a + k] == r[k];
  }

  lemma SpliceGrows(s: seq<byte>, i: nat, t: seq<byte>, j: nat)
    requires i + |t| <= |s| && j < |t|
    ensures Splice(s, i, t[..j])[i + j := t[j]] == Splice(s, i, t[..j + 1])
  {
  }

  /** Two writes, the second inside the first. */
  lemma SpliceInside(s: seq<byte>, at: nat, x: seq<byte>, k: nat, t: seq<byte>)
    requires at + |x| <= |s| && k + |t| <= |x|
    ensures Splice(Splice(s, at, x), at + k, t) == Splice(s, at, Splice(x, k, t))
  {
  }

  lemma SpliceOwn(s: seq<byte>, at: nat, x: seq<byte>)
    requires at + |x| <= |s| && s[at..at + |x|] == x
    ensures Splice(s, at, x) == s
  {
  }

  lemma ZerosWithin(n: nat, a: nat, b: nat)
    requires a <= b <= n
    ensures Zeros(n)[a..b] == Zeros(b - a)
  {
  }

  lemma Join(s: seq<byte>, a: nat, b: nat, c: nat)
    requires a <= b <= c <= |s|
    ensures s[a..c] == s[a..b] + s[b..c]
  {
  }

  method CopyInto(dst: array<byte>, at: nat, s: seq<byte>)
    requires at + |s| <= dst.Length
    modifies dst
    ensures dst[..] == Splice(old(dst[..]), at, s)
  {
    for j := 0 to |s|
      invariant dst[..] == Splice(old(dst[..]), at, s[..j])
    {
      SpliceGrows(old(dst[..]), at, s, j);
      hide Splice;
      dst[at + j] := s[j];
    }
    assert s[..|s|] == s;
  }

  method HashOf(a: array<byte>, from: nat, to: nat) returns (h: word)
    requires from <= to <= a.Length
    ensures h == Hash(a[from..to])
  {
    h := 2166136261;
    for i := from to to
      invariant h == Hash(a[from..i])
    {
      assert a[from..i + 1] == a[from..i] + [a[i]];
      h := Mix(h, a[i]);
    }
  }

  // ---- Operations on machine words and bytes ----

  function XorWord(a: word, b: word): word {
    Pow2Of32();
    XorBound(a, b, 32);
    Xor(a, b)
  }

  function XorByte(a: byte, b: byte): byte {
    assert Pow2(8) == 256;
    XorBound(a, b, 8);
    Xor(a, b)
  }

  function AddWord(a: word, b: word): word {
    (a as int + b as int) % NO_WRAP
  }

  function MulWord(a: word, b: word): word {
    (a as int * b as int) % NO_WRAP
  }

  function ShlWord(v: word, n: nat): word {
    Pow2Of32();
    Low(Shl(v, n), 32)
  }

  function ShrWord(v: word, n: nat): word {
    ShrShrinks(v, n);
    Shr(v, n)
  }
}
