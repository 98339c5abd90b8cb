/**
  Bytes of C strings and the few <ctype.h>/<string.h> routines the attribute
  tool relies on: tolower() and isspace() in the C locale, strcaseeq() and strchr().
 */
module Bytes {
  import opened Wrappers

  newtype byte = x: int | 0 <= x < 256

  const SLASH: byte := 47
  const PLUS: byte := 43
  const MINUS: byte := 45

  /** The bytes of an ASCII literal (the catalog keywords are written this way). */
  function FromAscii(s: string): (b: seq<byte>)
    ensures |b| == |s|
    ensures forall i | 0 <= i < |s| :: b[i] as int == s[i] as int % 256
  {
    seq(|s|, i requires 0 <= i < |s| => (s[i] as int % 256) as byte)
  }

  /** tolower() in the C locale: only 'A'..'Z' change. */
  function ToLower(b: byte): byte
  {
    if 65 <= b <= 90 then b + 32 else b
  }

  /** isspace() in the C locale: space, \t, \n, \v, \f and \r. */
  predicate IsSpace(b: byte)
  {
    b == 32 || 9 <= b <= 13
  }

  predicate IsDigit(b: byte)
  {
    48 <= b <= 57
  }

  /** strcaseeq(): the two NUL-free strings agree byte by byte after folding to lower case. */
  predicate CaseEq(a: seq<byte>, b: seq<byte>)
  {
    |a| == |b| && forall i | 0 <= i < |a| :: ToLower(a[i]) == ToLower(b[i])
  }

  /** strchr(): the position of the first occurrence of c in s, if any. */
  function FirstIndexOf(s: seq<byte>, c: byte): (r: Option<nat>)
    ensures r.Some? ==> r.value < |s| && s[r.value] == c && c !in s[..r.value]
    ensures r.None? ==> c !in s
  {
    if |s| == 0 then None
    else if s[0] == c then Some(0)
    else
      match FirstIndexOf(s[1..], c)
      case None => None
      case Some(k) =>
        assert s[..k + 1] == [s[0]] + s[1..][..k];
        Some(k + 1)
  }

  /** n zero bytes, as left by memset(…, 0x00, n). */
  function Zeros(n: nat): (z: seq<byte>)
    ensures |z| == n
  {
    seq(n, _ => 0)
  }
}
