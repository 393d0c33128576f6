/** The MySQL entry points around the codec (udf_gbbase64.c:95-214): the
    output sizes the init functions reserve, and the row functions, which
    return SQL NULL for a NULL argument and otherwise run the codec into
    the reserved buffer. */
module Udf {
  import opened Bytes
  import opened Arithmetic
  import opened Encoder
  import opened Decoder

  datatype Option<T> = None | Some(value: T)

  /** max_length reserved by gb_base64_encode_init for an argument of
      `len` bytes. */
  function EncodeBound(len: nat): nat {
    4 * len / 3 + 3
  }

  /** max_length reserved by gb_base64_decode_init for an argument of
      `len` bytes. */
  function DecodeBound(len: nat): nat {
    3 * len / 4
  }

  /** The encode reservation always holds the encoding: 4 * len / 3 + 3 is
      at least 4 * ceil(len / 3). */
  lemma EncodeBoundSafe(len: nat)
    ensures EncodedLength(len) <= EncodeBound(len)
  {
    DivModOf(len + 2, 3, (len + 2) / 3, (len + 2) % 3);
    DivModOf(4 * len, 3, 4 * len / 3, 4 * len % 3);
  }

  /** The decode reservation always holds the decoded bytes, and is used
      up when every input byte is an alphabet symbol (it can also be used
      up otherwise: "QQQQ=" gives 3 bytes, and 3 * 5 / 4 == 3). */
  lemma DecodeBoundSafe(s: seq<byte>)
    ensures |Decode(s)| <= DecodeBound(|s|)
    ensures SymbolsOf(s) == s ==> |Decode(s)| == DecodeBound(|s|)
  {
    DecodeLength(s);
    ThreeQuarters(|SymbolsOf(s)|, |s|);
  }

  /** floor(6 v / 8) bytes from v symbols never exceed floor(3 n / 4) when
      v <= n. */
  lemma ThreeQuarters(v: nat, n: nat)
    requires v <= n
    ensures 6 * v / 8 <= 3 * n / 4
    ensures v == n ==> 6 * v / 8 == 3 * n / 4
  {
    DivModOf(6 * v, 8, 3 * v / 4, 6 * v % 8);
    DivModOf(3 * v, 4, 3 * v / 4, 3 * v % 4);
    DivModOf(3 * n, 4, 3 * n / 4, 3 * n % 4);
  }

  /** gb_base64_encode: a NULL argument gives SQL NULL and length 0 without
      touching the buffer; otherwise the encoding is written to `result`,
      which init sized to EncodeBound, and the null flag is left as the
      host set it. */
  method GbBase64Encode(arg: Option<seq<byte>>, result: array<byte>, nullValue: bool)
    returns (ret: array?<byte>, resLength: nat, isNull: bool)
    requires arg.Some? ==> EncodeBound(|arg.value|) <= result.Length
    modifies result
    ensures arg.None? ==> ret == null && resLength == 0 && isNull && unchanged(result)
    ensures arg.Some? ==> && ret == result && isNull == nullValue
                          && resLength == EncodedLength(|arg.value|) <= result.Length
                          && result[..] == Encode(arg.value) + old(result[resLength..])
  {
    if arg.None? {
      return null, 0, true;
    }
    EncodeBoundSafe(|arg.value|);
    resLength := Base64Encode(arg.value, result);
    ret, isNull := result, nullValue;
  }

  /** gb_base64_decode: a NULL argument gives SQL NULL and length 0 without
      touching the buffer; otherwise the decoded bytes are written to
      `result`, which init sized to DecodeBound, and the null flag is left
      as the host set it. */
  method GbBase64Decode(arg: Option<seq<byte>>, result: array<byte>, nullValue: bool)
    returns (ret: array?<byte>, resLength: nat, isNull: bool)
    requires arg.Some? ==> DecodeBound(|arg.value|) <= result.Length
    modifies result
    ensures arg.None? ==> ret == null && resLength == 0 && isNull && unchanged(result)
    ensures arg.Some? ==> && ret == result && isNull == nullValue
                          && resLength == |Decode(arg.value)| <= result.Length
                          && result[..] == Decode(arg.value) + old(result[resLength..])
  {
    if arg.None? {
      return null, 0, true;
    }
    DecodeBoundSafe(arg.value);
    resLength := Base64Decode(arg.value, result);
    ret, isNull := result, nullValue;
  }
}
