/** Fixed-width C strings, as the directory stores and sends file names. */
module CStrings {
  import opened Protocol

  const NAME_SIZE: nat := 256

  /** The number of bytes before the first NUL. */
  function StrLen(s: seq<Byte>): (n: nat)
    ensures n <= |s|
    ensures n < |s| ==> s[n] == 0
    ensures forall i :: 0 <= i < n ==> s[i] != 0
  {
    if s == [] || s[0] == 0 then 0 else 1 + StrLen(s[1..])
  }

  /** What `%s` prints. */
  function Text(s: seq<Byte>): seq<Byte> {
    s[..StrLen(s)]
  }

  /** A 256-byte field that holds a text and NULs after it. */
  predicate Padded(s: seq<Byte>) {
    |s| == NAME_SIZE && StrLen(s) < NAME_SIZE && forall i :: StrLen(s) <= i < NAME_SIZE ==> s[i] == 0
  }

  type Name = s: seq<Byte> | Padded(s) witness seq(NAME_SIZE, _ => 0)

  type Hash = h: seq<Byte> | |h| == 32 witness seq(32, _ => 0)

  /** `strncpy` of 255 bytes into a 256-byte field, whose last byte is then set to NUL. */
  function NameCopy(src: seq<Byte>): (dst: Name)
    ensures Text(dst) == src[..Min(StrLen(src), NAME_SIZE - 1)]
  {
    var n := Min(StrLen(src), NAME_SIZE - 1);
    var dst: seq<Byte> := src[..n] + seq(NAME_SIZE - n, _ => 0);
    StrLenIs(dst, n);
    dst
  }

  lemma StrLenIs(s: seq<Byte>, n: nat)
    requires n < |s| && s[n] == 0 && forall i :: 0 <= i < n ==> s[i] != 0
    ensures StrLen(s) == n
  {
  }

  /** A name that has been through one copy is not changed by the next. */
  lemma NameCopyStable(name: Name)
    ensures NameCopy(name) == name
  {
    var n := StrLen(name);
    assert name == name[..n] + seq(NAME_SIZE - n, _ => 0);
  }
}
