/** The 64-symbol alphabet and the pad symbol of section 4 of RFC 4648,
    as udf_gbbase64.c uses them in both directions. */
module Alphabet {
  import opened Bytes

  /** `n` consecutive character codes starting at `first`. */
  function Span(first: char, n: nat): (r: seq<byte>)
    requires first as int + n <= 256
    ensures |r| == n
  {
    seq(n, i requires 0 <= i < n => (first as int + i) as byte)
  }

  /** The encoder's lookup table "A..Z a..z 0..9 + /": the symbol for the
      6-bit value v is Symbols[v]. */
  const Symbols: seq<byte> := Span('A', 26) + Span('a', 26) + Span('0', 10) + ['+' as int as byte, '/' as int as byte]

  lemma SymbolsLength()
    ensures |Symbols| == 64
  {
  }

  /** The pad symbol '='. */
  const Pad: byte := '=' as int as byte

  /** The decoder's inverse mapping: the 6-bit value of an alphabet symbol,
      and -1 for every other byte (which the decoder skips). */
  function Value(ch: byte): (d: int)
    ensures d == -1 || (0 <= d < 64 && |Symbols| == 64 && Symbols[d] == ch)
  {
    if 'A' as int <= ch as int <= 'Z' as int then ch as int - 'A' as int
    else if 'a' as int <= ch as int <= 'z' as int then ch as int - 'a' as int + 26
    else if '0' as int <= ch as int <= '9' as int then ch as int - '0' as int + 52
    else if ch == '+' as int as byte then 62
    else if ch == '/' as int as byte then 63
    else -1
  }

  /** Does the decoder take bits from `ch`? */
  predicate IsSymbol(ch: byte) {
    Value(ch) != -1
  }

  /** The table and the decoder's mapping are inverse: each of the 64
      values comes back from its symbol, and the pad symbol is not one. */
  lemma ValueOfSymbol(v: int)
    requires 0 <= v < 64
    ensures |Symbols| == 64 && Value(Symbols[v]) == v
    ensures Symbols[v] != Pad
  {
    assert |Symbols| == 64;
    if v < 26 {
      assert Symbols[v] == Span('A', 26)[v];
    } else if v < 52 {
      assert Symbols[v] == Span('a', 26)[v - 26];
    } else if v < 62 {
      assert Symbols[v] == Span('0', 10)[v - 52];
    }
  }

  /** The pad symbol carries no bits. */
  lemma PadIsNotSymbol()
    ensures !IsSymbol(Pad)
  {
  }

  /** The decoder takes bits from exactly the 64 bytes of the table. */
  lemma SymbolIffInTable(ch: byte)
    ensures IsSymbol(ch) <==> ch in Symbols
  {
    if ch in Symbols {
      var v :| 0 <= v < |Symbols| && Symbols[v] == ch;
      SymbolsLength();
      ValueOfSymbol(v);
    }
  }
}
