/** NUL-terminated strings in buffers of a fixed size. */
module CStrings {

  /** What string functions see of a buffer: everything before the first NUL. */
  function CString(s: string): string {
    if s == "" || s[0] == '\0' then "" else [s[0]] + CString(s[1..])
  }

  lemma {:induction false} CStringOf(w: string)
    requires forall i | 0 <= i < |w| :: w[i] != '\0'
    ensures CString(w) == w
  {
    if w != "" {
      CStringOf(w[1..]);
    }
  }

  lemma {:induction false} CStringShorter(s: string)
    ensures |CString(s)| <= |s|
  {
    if s != "" && s[0] != '\0' {
      CStringShorter(s[1..]);
    }
  }

  /** What of s fits into n characters. */
  function Clip(s: string, n: nat): (r: string)
    ensures |r| <= n && (|s| <= n ==> r == s)
  {
    if |s| <= n then s else s[..n]
  }

  lemma ClipTwice(s: string, x: string, n: nat)
    ensures Clip(Clip(s, n) + x, n) == Clip(s + x, n)
  {
  }
}
