/** base64_encode (udf_gbbase64.c:11-47): bytes to Base64 text, three input
    bytes to four symbols, with '=' padding on a short last group. */
module Encoder {
  import opened Bytes
  import opened Alphabet
  import opened Arithmetic

  /** 4 * ceil(n / 3): the length of the encoding of n bytes. */
  function EncodedLength(n: nat): nat {
    4 * ((n + 2) / 3)
  }

  /** One more group of 1 to 3 bytes after whole groups adds 4 symbols. */
  lemma EncodedLengthStep(n: nat, k: nat)
    requires n % 3 == 0 && 1 <= k <= 3
    ensures EncodedLength(n + k) == EncodedLength(n) + 4
  {
    DivModOf(n + k + 2, 3, n / 3 + 1, k - 1);
    DivModOf(n + 2, 3, n / 3, 2);
  }

  /** More input never means shorter output. */
  lemma EncodedLengthMonotone(m: nat, n: nat)
    requires m <= n
    ensures EncodedLength(m) <= EncodedLength(n)
  {
    DivModOf(m + 2, 3, (m + 2) / 3, (m + 2) % 3);
    DivModOf(n + 2, 3, (n + 2) / 3, (n + 2) % 3);
  }

  /** How many '=' end the encoding of n bytes: 2 when n % 3 == 1,
      1 when n % 3 == 2, none otherwise. */
  function PadLength(n: nat): nat {
    (3 - n % 3) % 3
  }

  /** The 24-bit `chunk` of one group of 1 to 3 bytes: byte 0 is shifted
      left by 16, byte 1 by 8, byte 2 by 0, and absent bytes stay zero.
      The shifted fields do not overlap, so the source's `|` is a sum. */
  function Chunk(c: seq<byte>): nat
    requires 1 <= |c| <= 3
  {
    c[0] as nat * 0x1_0000
    + (if |c| > 1 then c[1] as nat * 0x100 else 0)
    + (if |c| > 2 then c[2] as nat else 0)
  }

  /** The four symbols written for one chunk: the 6-bit fields 23-18,
      17-12, 11-6 and 5-0 through the alphabet, the third replaced by '='
      when padlen > 1 and the fourth when padlen > 0. The source's
      `(chunk & 0x00FC0000) >> 18` is `chunk / 2^18 % 64`, and so on. */
  function Quad(chunk: nat, padlen: nat): (q: seq<byte>)
    ensures |q| == 4
  {
    SymbolsLength();
    [ Symbols[chunk / 0x4_0000 % 64],
      Symbols[chunk / 0x1000 % 64],
      if padlen > 1 then Pad else Symbols[chunk / 0x40 % 64],
      if padlen > 0 then Pad else Symbols[chunk % 64] ]
  }

  /** The symbols of one group of 1 to 3 bytes: two '=' for one byte, one
      for two bytes, none for three. */
  function EncodeGroup(c: seq<byte>): (q: seq<byte>)
    requires 1 <= |c| <= 3
    ensures |q| == 4
  {
    Quad(Chunk(c), 3 - |c|)
  }

  /** The encoding of `s`: its groups of three bytes, front to back, the last
      one possibly shorter. */
  function Encode(s: seq<byte>): seq<byte>
    decreases |s|
  {
    if s == [] then []
    else
      var k := if |s| < 3 then |s| else 3;
      EncodeGroup(s[..k]) + Encode(s[k..])
  }

  /** Byte 0 fills bits 23-16 of the chunk, byte 1 bits 15-8, byte 2 bits
      7-0; the four 6-bit fields are therefore the RFC 4648 split of the
      bytes, each in 0..63. */
  lemma ChunkLayout(c: seq<byte>)
    requires 1 <= |c| <= 3
    ensures var b1 := if |c| > 1 then c[1] as int else 0;
            var b2 := if |c| > 2 then c[2] as int else 0;
            && Chunk(c) < 0x100_0000
            && Chunk(c) / 0x1_0000 == c[0] as int
            && Chunk(c) / 0x100 % 0x100 == b1
            && Chunk(c) % 0x100 == b2
            && Chunk(c) / 0x4_0000 % 64 == c[0] as int / 4
            && Chunk(c) / 0x1000 % 64 == c[0] as int % 4 * 16 + b1 / 16
            && Chunk(c) / 0x40 % 64 == b1 % 16 * 4 + b2 / 64
            && Chunk(c) % 64 == b2 % 64
  {
    var b1 := if |c| > 1 then c[1] as int else 0;
    var b2 := if |c| > 2 then c[2] as int else 0;
    assert Chunk(c) == c[0] as int * 0x1_0000 + b1 * 0x100 + b2;
    ByteFields(c[0] as int, b1, b2);
    SextetFields(c[0] as int, b1, b2);
  }

  /** The three bytes of a 24-bit value read back by shift and mask. */
  lemma ByteFields(b0: int, b1: int, b2: int)
    requires 0 <= b0 < 256 && 0 <= b1 < 256 && 0 <= b2 < 256
    ensures var x := b0 * 0x1_0000 + b1 * 0x100 + b2;
            && x < 0x100_0000
            && x / 0x1_0000 == b0
            && x / 0x100 % 0x100 == b1
            && x % 0x100 == b2
  {
    var x := b0 * 0x1_0000 + b1 * 0x100 + b2;
    DivModOf(x, 0x1_0000, b0, b1 * 0x100 + b2);
    DivModOf(x, 0x100, b0 * 0x100 + b1, b2);
    DivModOf(b0 * 0x100 + b1, 0x100, b0, b1);
  }

  /** The four 6-bit fields of a 24-bit value made of three bytes. */
  lemma SextetFields(b0: int, b1: int, b2: int)
    requires 0 <= b0 < 256 && 0 <= b1 < 256 && 0 <= b2 < 256
    ensures var x := b0 * 0x1_0000 + b1 * 0x100 + b2;
            && x / 0x4_0000 % 64 == b0 / 4
            && x / 0x1000 % 64 == b0 % 4 * 16 + b1 / 16
            && x / 0x40 % 64 == b1 % 16 * 4 + b2 / 64
            && x % 64 == b2 % 64
  {
    var x := b0 * 0x1_0000 + b1 * 0x100 + b2;
    DivModOf(x, 0x4_0000, b0 / 4, b0 % 4 * 0x1_0000 + b1 * 0x100 + b2);
    DivModOf(b0 / 4, 64, 0, b0 / 4);
    DivModOf(x, 0x1000, b0 * 16 + b1 / 16, b1 % 16 * 0x100 + b2);
    DivModOf(b0 * 16 + b1 / 16, 64, b0 / 4, b0 % 4 * 16 + b1 / 16);
    DivModOf(x, 0x40, b0 * 0x400 + b1 * 4 + b2 / 64, b2 % 64);
    DivModOf(b0 * 0x400 + b1 * 4 + b2 / 64, 64, b0 * 16 + b1 / 16, b1 % 16 * 4 + b2 / 64);
    DivModOf(x, 64, b0 * 0x400 + b1 * 4 + b2 / 64, b2 % 64);
  }

  /** Length law: 4 symbols per started group of three bytes, 0 for no bytes. */
  lemma {:induction false} EncodeLength(s: seq<byte>)
    ensures |Encode(s)| == EncodedLength(|s|)
    decreases |s|
  {
    if s != [] {
      var k := if |s| < 3 then |s| else 3;
      EncodeLength(s[k..]);
      assert |s[k..]| == |s| - k;
      assert |Encode(s)| == 4 + |Encode(s[k..])|;
      if k == 3 {
        DivModOf(|s| + 2, 3, (|s| + 2) / 3 - 1 + 1, (|s| + 2) % 3);
        assert (|s| + 2) / 3 == (|s| - 1) / 3 + 1;
      }
    }
  }

  /** Padding law: position i of the encoding holds '=' exactly when it is
      one of the last PadLength(|s|) positions; every other position holds
      an alphabet symbol. */
  lemma {:induction false} EncodePadding(s: seq<byte>)
    ensures |Encode(s)| == EncodedLength(|s|)
    ensures forall i :: 0 <= i < |Encode(s)| ==>
              (Encode(s)[i] == Pad <==> i >= |Encode(s)| - PadLength(|s|))
    ensures forall i :: 0 <= i < |Encode(s)| ==>
              (Encode(s)[i] == Pad || IsSymbol(Encode(s)[i]))
    decreases |s|
  {
    EncodeLength(s);
    if s != [] {
      var k := if |s| < 3 then |s| else 3;
      var c := s[..k];
      var q := EncodeGroup(c);
      QuadPadding(Chunk(c), 3 - k);
      EncodePadding(s[k..]);
      assert Encode(s) == q + Encode(s[k..]);
      if k < 3 {
        assert s[k..] == [];
      } else {
        DivModOf(|s|, 3, |s| / 3, |s| % 3);
        DivModOf(|s| - 3, 3, |s| / 3 - 1, |s| % 3);
      }
    }
  }

  /** The symbols of one group: the last `padlen` are '=', the others are
      alphabet symbols. */
  lemma QuadPadding(chunk: nat, padlen: nat)
    requires padlen <= 2
    ensures forall i :: 0 <= i < 4 ==> (Quad(chunk, padlen)[i] == Pad <==> i >= 4 - padlen)
    ensures forall i :: 0 <= i < 4 ==> (Quad(chunk, padlen)[i] == Pad || IsSymbol(Quad(chunk, padlen)[i]))
  {
    ValueOfSymbol(chunk / 0x4_0000 % 64);
    ValueOfSymbol(chunk / 0x1000 % 64);
    ValueOfSymbol(chunk / 0x40 % 64);
    ValueOfSymbol(chunk % 64);
  }

  /** Appending a group to a whole number of groups appends its symbols. */
  lemma {:induction false} EncodeAppendGroup(a: seq<byte>, c: seq<byte>)
    requires |a| % 3 == 0 && 1 <= |c| <= 3
    ensures Encode(a + c) == Encode(a) + EncodeGroup(c)
    decreases |a|
  {
    if a == [] {
      assert a + c == c;
      assert c[|c|..] == [];
      assert c[..|c|] == c;
    } else {
      assert (a + c)[..3] == a[..3];
      assert (a + c)[3..] == a[3..] + c;
      EncodeAppendGroup(a[3..], c);
    }
  }

  /** What one pass of base64_encode's loop relies on: after whole groups
      up to `start`, the bytes start..i (packed into `chunk`) form the next
      group, and the encoding of the prefix grows by its four symbols. */
  lemma GroupStep(s: seq<byte>, start: nat, i: nat, chunk: nat, padlen: nat)
    requires start % 3 == 0 && start < i <= |s| && i - start <= 3
    requires i < |s| ==> i - start == 3
    requires chunk == s[start] as nat * 0x1_0000
                      + (if i - start > 1 then s[start + 1] as nat * 0x100 else 0)
                      + (if i - start > 2 then s[start + 2] as nat else 0)
    requires padlen == 3 - (i - start)
    ensures i < |s| ==> i % 3 == 0
    ensures EncodedLength(i) == EncodedLength(start) + 4 <= EncodedLength(|s|)
    ensures Encode(s[..i]) == Encode(s[..start]) + Quad(chunk, padlen)
  {
    if i - start == 3 {
      DivModOf(i, 3, start / 3 + 1, 0);
    }
    EncodedLengthStep(start, i - start);
    EncodedLengthMonotone(i, |s|);
    assert s[..start] + s[start..i] == s[..i];
    assert Chunk(s[start..i]) == chunk;
    EncodeAppendGroup(s[..start], s[start..i]);
  }

  /** Lines 35-43 of base64_encode: split the chunk into four 6-bit
      fields and store their symbols, or '=', at `out`..`out + 3`. */
  method EmitQuad(result: array<byte>, out: nat, chunk: nat, padlen: nat)
    requires out + 4 <= result.Length
    modifies result
    ensures result[..] == old(result[..out]) + Quad(chunk, padlen) + old(result[out + 4..])
  {
    SymbolsLength();
    ghost var before := result[..];
    var j := chunk / 0x4_0000 % 64;   // (chunk & 0x00FC0000) >> 18
    var k := chunk / 0x1000 % 64;     // (chunk & 0x0003F000) >> 12
    var l := chunk / 0x40 % 64;       // (chunk & 0x00000FC0) >> 6
    var m := chunk % 64;              // chunk & 0x0000003F
    var c0, c1 := Symbols[j], Symbols[k];
    var c2 := if padlen > 1 then Pad else Symbols[l];
    var c3 := if padlen > 0 then Pad else Symbols[m];
    result[out] := c0;
    result[out + 1] := c1;
    result[out + 2] := c2;
    result[out + 3] := c3;
    Splice4(before, out, c0, c1, c2, c3);
  }

  /** Four single-byte stores at out .. out + 3 replace that slice. */
  lemma Splice4(a: seq<byte>, out: nat, c0: byte, c1: byte, c2: byte, c3: byte)
    requires out + 4 <= |a|
    ensures a[out := c0][out + 1 := c1][out + 2 := c2][out + 3 := c3]
            == a[..out] + [c0, c1, c2, c3] + a[out + 4..]
  {
  }

  /** The loop of base64_encode, writing into `result` from index 0 and
      returning how many bytes it wrote (`out - result`). */
  method Base64Encode(s: seq<byte>, result: array<byte>) returns (n: nat)
    requires EncodedLength(|s|) <= result.Length
    modifies result
    ensures n == EncodedLength(|s|)
    ensures result[..] == Encode(s) + old(result[n..])
  {
    var padlen := 0;
    var i := 0;
    var out := 0;
    while i < |s|
      invariant 0 <= i <= |s|
      invariant i < |s| ==> i % 3 == 0 && padlen == 0
      invariant out == EncodedLength(i) <= result.Length
      invariant result[..] == Encode(s[..i]) + old(result[out..])
    {
      ghost var start := i;
      var chunk := s[i] as int * 0x1_0000;
      i := i + 1;
      if i == |s| {
        padlen := 2;
      } else {
        chunk := chunk + s[i] as int * 0x100;
        i := i + 1;
        if i == |s| {
          padlen := 1;
        } else {
          chunk := chunk + s[i] as int;
          i := i + 1;
        }
      }
      GroupStep(s, start, i, chunk, padlen);
      DropDrop(old(result[..]), out, 4);
      EmitQuad(result, out, chunk, padlen);
      out := out + 4;
    }
    assert s[..i] == s;
    n := out;
  }
}
