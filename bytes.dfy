/** Bytes as the codec sees them: every buffer of udf_gbbase64.c is a `char*`
    read as unsigned 8-bit values. */
module Bytes {

  /** One 8-bit value, 0..255. */
  newtype byte = x: int | 0 <= x < 256

  /** Is every character of `s` a Latin-1 code point? */
  predicate IsLatin1(s: string)
    decreases |s|
  {
    s == [] || (s[0] as int < 256 && IsLatin1(s[1..]))
  }

  /** The bytes of a string literal, one per character; used to write
      test vectors such as "Zm9vYmFy" readably. */
  function BytesOf(s: string): (r: seq<byte>)
    requires IsLatin1(s)
    ensures |r| == |s|
    decreases |s|
  {
    if s == [] then [] else [s[0] as int as byte] + BytesOf(s[1..])
  }

  /** The bytes of a concatenation are the concatenated bytes. */
  lemma {:induction false} BytesOfAppend(a: string, b: string)
    requires IsLatin1(a) && IsLatin1(b)
    ensures IsLatin1(a + b) && BytesOf(a + b) == BytesOf(a) + BytesOf(b)
    decreases |a|
  {
    if a != [] {
      assert (a + b)[1..] == a[1..] + b;
      BytesOfAppend(a[1..], b);
    } else {
      assert a + b == b;
    }
  }

  /** Dropping k elements after dropping i drops i + k. */
  lemma DropDrop(a: seq<byte>, i: nat, k: nat)
    requires i + k <= |a|
    ensures a[i..][k..] == a[i + k..]
  {
  }
}
