/** base64_decode undoes base64_encode (udf_gbbase64.c:11-92), and the
    seven encoding test vectors of section 10 of RFC 4648. */
module RoundTrip {
  import opened Bytes
  import opened Alphabet
  import opened Arithmetic
  import opened Encoder
  import opened Decoder

  /** Running over four symbols is four Steps. */
  lemma RunFour(st: State, q: seq<byte>)
    requires Valid(st) && |q| == 4
    ensures Run(st, q) == Step(Step(Step(Step(st, q[0]), q[1]), q[2]), q[3])
  {
    var q1, q2, q3 := q[..1], q[..2], q[..3];
    assert q1[..0] == [] && q2[..1] == q1 && q3[..2] == q2 && q[..3] == q3;
    assert Run(st, q1) == Step(st, q[0]);
    assert Run(st, q2) == Step(Run(st, q1), q[1]);
    assert Run(st, q3) == Step(Run(st, q2), q[2]);
  }

  /** The first two symbols of a group, bits 23-18 and 17-12 of the chunk,
      give back byte 0 and keep the top four bits of byte 1. */
  lemma FirstTwoSymbols(o: seq<byte>, b0: byte, b1: byte)
    ensures |Symbols| == 64
    ensures Step(Step(State(0, 0, o), Symbols[b0 as int / 4]), Symbols[b0 as int % 4 * 16 + b1 as int / 16])
            == State(b1 as nat / 16, 4, o + [b0])
  {
    ValueOfSymbol(b0 as int / 4);
    ValueOfSymbol(b0 as int % 4 * 16 + b1 as int / 16);
    assert Pow2(4) == 16 by {
      assert Pow2(2) == 4;
    }
    DivModOf(b0 as int / 4 * 64 + (b0 as int % 4 * 16 + b1 as int / 16), 16, b0 as int, b1 as int / 16);
    StepShifts(State(0, 0, o), Symbols[b0 as int / 4], b0 as nat / 4, 6);
    StepEmits(State(b0 as nat / 4, 6, o), Symbols[b0 as int % 4 * 16 + b1 as int / 16], b1 as nat / 16, 4, b0);
  }

  /** The third symbol, bits 11-6, gives back byte 1 and keeps the top two
      bits of byte 2. */
  lemma ThirdSymbol(o: seq<byte>, b1: byte, b2: byte)
    ensures |Symbols| == 64
    ensures Step(State(b1 as nat / 16, 4, o), Symbols[b1 as int % 16 * 4 + b2 as int / 64])
            == State(b2 as nat / 64, 2, o + [b1])
  {
    ValueOfSymbol(b1 as int % 16 * 4 + b2 as int / 64);
    assert Pow2(2) == 4 && Pow2(4) == 16;
    DivModOf(b1 as int / 16 * 64 + (b1 as int % 16 * 4 + b2 as int / 64), 4, b1 as int, b2 as int / 64);
    StepEmits(State(b1 as nat / 16, 4, o), Symbols[b1 as int % 16 * 4 + b2 as int / 64], b2 as nat / 64, 2, b1);
  }

  /** The fourth symbol, bits 5-0, gives back byte 2 and empties the
      accumulator. */
  lemma FourthSymbol(o: seq<byte>, b2: byte)
    ensures |Symbols| == 64
    ensures Step(State(b2 as nat / 64, 2, o), Symbols[b2 as int % 64]) == State(0, 0, o + [b2])
  {
    ValueOfSymbol(b2 as int % 64);
    assert Pow2(2) == 4;
    StepEmits(State(b2 as nat / 64, 2, o), Symbols[b2 as int % 64], 0, 0, b2);
  }

  /** The symbols of one group, written with the group's bytes: the bit
      layout of its chunk, with '=' for the bytes it lacks. */
  lemma GroupSymbols(c: seq<byte>)
    requires 1 <= |c| <= 3
    ensures |Symbols| == 64 && |EncodeGroup(c)| == 4
    ensures EncodeGroup(c)[0] == Symbols[c[0] as int / 4]
    ensures |c| == 1 ==> && EncodeGroup(c)[1] == Symbols[c[0] as int % 4 * 16]
                         && EncodeGroup(c)[2] == Pad && EncodeGroup(c)[3] == Pad
    ensures |c| == 2 ==> && EncodeGroup(c)[1] == Symbols[c[0] as int % 4 * 16 + c[1] as int / 16]
                         && EncodeGroup(c)[2] == Symbols[c[1] as int % 16 * 4]
                         && EncodeGroup(c)[3] == Pad
    ensures |c| == 3 ==> && EncodeGroup(c)[1] == Symbols[c[0] as int % 4 * 16 + c[1] as int / 16]
                         && EncodeGroup(c)[2] == Symbols[c[1] as int % 16 * 4 + c[2] as int / 64]
                         && EncodeGroup(c)[3] == Symbols[c[2] as int % 64]
  {
    ChunkLayout(c);
    SymbolsLength();
    if |c| == 1 {
      assert Chunk(c) / 0x1000 % 64 == c[0] as int % 4 * 16;
    } else if |c| == 2 {
      assert Chunk(c) / 0x40 % 64 == c[1] as int % 16 * 4;
    }
  }

  /** Decoding the four symbols of one group, from an empty accumulator,
      emits exactly the group's bytes and leaves no set bits behind: 0, 2
      or 4 zero bits for a group of 3, 2 or 1 bytes. */
  lemma GroupDecodes(o: seq<byte>, c: seq<byte>)
    requires 1 <= |c| <= 3
    ensures Run(State(0, 0, o), EncodeGroup(c)) == State(0, 6 - 2 * |c|, o + c)
  {
    GroupSymbols(c);
    RunFour(State(0, 0, o), EncodeGroup(c));
    AppendBytes(o, c);
    if |c| == 1 {
      OneByteDecodes(o, c[0], EncodeGroup(c));
    } else if |c| == 2 {
      TwoBytesDecode(o, c[0], c[1], EncodeGroup(c));
    } else {
      ThreeBytesDecode(o, c[0], c[1], c[2], EncodeGroup(c));
    }
  }

  /** The symbols of a one-byte group: two symbols, then "==". */
  lemma OneByteDecodes(o: seq<byte>, b0: byte, q: seq<byte>)
    requires |Symbols| == 64 && |q| == 4
    requires q[0] == Symbols[b0 as int / 4] && q[1] == Symbols[b0 as int % 4 * 16]
    requires q[2] == Pad && q[3] == Pad
    ensures Step(Step(Step(Step(State(0, 0, o), q[0]), q[1]), q[2]), q[3]) == State(0, 4, o + [b0])
  {
    FirstTwoSymbols(o, b0, 0);
    PadIsNotSymbol();
    StepSkips(State(0, 4, o + [b0]), Pad);
  }

  /** The symbols of a two-byte group: three symbols, then "=". */
  lemma TwoBytesDecode(o: seq<byte>, b0: byte, b1: byte, q: seq<byte>)
    requires |Symbols| == 64 && |q| == 4
    requires q[0] == Symbols[b0 as int / 4] && q[1] == Symbols[b0 as int % 4 * 16 + b1 as int / 16]
    requires q[2] == Symbols[b1 as int % 16 * 4] && q[3] == Pad
    ensures Step(Step(Step(Step(State(0, 0, o), q[0]), q[1]), q[2]), q[3]) == State(0, 2, o + [b0] + [b1])
  {
    FirstTwoSymbols(o, b0, b1);
    ThirdSymbol(o + [b0], b1, 0);
    PadIsNotSymbol();
    StepSkips(State(0, 2, o + [b0] + [b1]), Pad);
  }

  /** The symbols of a full group: four symbols. */
  lemma ThreeBytesDecode(o: seq<byte>, b0: byte, b1: byte, b2: byte, q: seq<byte>)
    requires |Symbols| == 64 && |q| == 4
    requires q[0] == Symbols[b0 as int / 4] && q[1] == Symbols[b0 as int % 4 * 16 + b1 as int / 16]
    requires q[2] == Symbols[b1 as int % 16 * 4 + b2 as int / 64] && q[3] == Symbols[b2 as int % 64]
    ensures Step(Step(Step(Step(State(0, 0, o), q[0]), q[1]), q[2]), q[3]) == State(0, 0, o + [b0] + [b1] + [b2])
  {
    FirstTwoSymbols(o, b0, b1);
    ThirdSymbol(o + [b0], b1, b2);
    FourthSymbol(o + [b0] + [b1], b2);
  }

  /** Appending the bytes of a group one by one appends the group. */
  lemma AppendBytes(o: seq<byte>, c: seq<byte>)
    requires 1 <= |c| <= 3
    ensures |c| == 1 ==> o + [c[0]] == o + c
    ensures |c| == 2 ==> o + [c[0]] + [c[1]] == o + c
    ensures |c| == 3 ==> o + [c[0]] + [c[1]] + [c[2]] == o + c
  {
    if |c| == 1 {
      assert c == [c[0]];
    } else if |c| == 2 {
      assert c == [c[0], c[1]];
    } else {
      assert c == [c[0], c[1], c[2]];
    }
  }

  /** Decoding an encoding from an empty accumulator appends the encoded
      bytes to what was already emitted. */
  lemma {:induction false} RunEncode(o: seq<byte>, s: seq<byte>)
    ensures Run(State(0, 0, o), Encode(s)).out == o + s
    decreases |s|
  {
    if s == [] {
      assert o + s == o;
    } else {
      var k := if |s| < 3 then |s| else 3;
      var c, rest := s[..k], s[k..];
      RunAppend(State(0, 0, o), EncodeGroup(c), Encode(rest));
      GroupDecodes(o, c);
      SplitAt(o, s, k);
      if rest != [] {
        RunEncode(o + c, rest);
      }
    }
  }

  /** Cutting `s` at k and appending both parts appends `s`. */
  lemma SplitAt(o: seq<byte>, s: seq<byte>, k: nat)
    requires k <= |s|
    ensures o + s[..k] + s[k..] == o + s
    ensures k == |s| ==> o + s[..k] == o + s
  {
    assert s[..k] + s[k..] == s;
  }

  /** The round trip: base64_decode(base64_encode(B)) is B for every B. */
  lemma DecodeEncode(s: seq<byte>)
    ensures Decode(Encode(s)) == s
  {
    RunEncode([], s);
    assert [] + s == s;
  }

  /** Up to three bytes are one group. */
  lemma EncodeOneGroup(c: seq<byte>)
    requires 1 <= |c| <= 3
    ensures Encode(c) == EncodeGroup(c)
  {
    assert c[..|c|] == c && c[|c|..] == [];
  }

  /** The seven test vectors of section 10 of RFC 4648, with the symbols
      of each group looked up through the decoder's mapping. */
  lemma EncodeF()
    ensures Encode(BytesOf("f")) == BytesOf("Zg==")
  {
    var c: seq<byte> := [0x66];
    assert BytesOf("f") == c;
    assert BytesOf("Zg==") == [0x5A, 0x67, 0x3D, 0x3D];
    GroupSymbols(c);
    assert c[0] as int / 4 == 25 && c[0] as int % 4 * 16 == 32;
    assert Value(0x5A) == 25 && Value(0x67) == 32;
    EncodeOneGroup(c);
    FourBytes(EncodeGroup(c), 0x5A, 0x67, 0x3D, 0x3D);
  }

  lemma EncodeFo()
    ensures Encode(BytesOf("fo")) == BytesOf("Zm8=")
  {
    var c: seq<byte> := [0x66, 0x6F];
    assert BytesOf("fo") == c;
    assert BytesOf("Zm8=") == [0x5A, 0x6D, 0x38, 0x3D];
    GroupSymbols(c);
    assert c[0] as int / 4 == 25 && c[0] as int % 4 * 16 + c[1] as int / 16 == 38;
    assert c[1] as int % 16 * 4 == 60;
    assert Value(0x5A) == 25 && Value(0x6D) == 38 && Value(0x38) == 60;
    EncodeOneGroup(c);
    FourBytes(EncodeGroup(c), 0x5A, 0x6D, 0x38, 0x3D);
  }

  /** Four bytes known one by one are the sequence of those four. */
  lemma FourBytes(q: seq<byte>, e0: byte, e1: byte, e2: byte, e3: byte)
    requires |q| == 4 && q[0] == e0 && q[1] == e1 && q[2] == e2 && q[3] == e3
    ensures q == [e0, e1, e2, e3]
  {
  }

  /** "foo" is "Zm9v". */
  lemma GroupFoo()
    ensures EncodeGroup([0x66, 0x6F, 0x6F]) == [0x5A, 0x6D, 0x39, 0x76]
  {
    var c: seq<byte> := [0x66, 0x6F, 0x6F];
    GroupSymbols(c);
    assert c[0] as int / 4 == 25 && c[0] as int % 4 * 16 + c[1] as int / 16 == 38;
    assert c[1] as int % 16 * 4 + c[2] as int / 64 == 61 && c[2] as int % 64 == 47;
    assert Value(0x5A) == 25 && Value(0x6D) == 38 && Value(0x39) == 61 && Value(0x76) == 47;
    FourBytes(EncodeGroup(c), 0x5A, 0x6D, 0x39, 0x76);
  }

  /** "bar" is "YmFy". */
  lemma GroupBar()
    ensures EncodeGroup([0x62, 0x61, 0x72]) == [0x59, 0x6D, 0x46, 0x79]
  {
    var c: seq<byte> := [0x62, 0x61, 0x72];
    GroupSymbols(c);
    assert c[0] as int / 4 == 24 && c[0] as int % 4 * 16 + c[1] as int / 16 == 38;
    assert c[1] as int % 16 * 4 + c[2] as int / 64 == 5 && c[2] as int % 64 == 50;
    assert Value(0x59) == 24 && Value(0x6D) == 38 && Value(0x46) == 5 && Value(0x79) == 50;
    FourBytes(EncodeGroup(c), 0x59, 0x6D, 0x46, 0x79);
  }

  lemma EncodeFoo()
    ensures Encode(BytesOf("foo")) == BytesOf("Zm9v")
  {
    assert BytesOf("foo") == [0x66, 0x6F, 0x6F];
    assert BytesOf("Zm9v") == [0x5A, 0x6D, 0x39, 0x76];
    GroupFoo();
    EncodeOneGroup([0x66, 0x6F, 0x6F]);
  }

  /** "foobar" as bytes, one group at a time. */
  lemma FoobarBytes()
    ensures BytesOf("foobar") == [0x66, 0x6F, 0x6F] + [0x62, 0x61, 0x72]
  {
    assert "foobar" == "foo" + "bar";
    BytesOfAppend("foo", "bar");
    assert BytesOf("foo") == [0x66, 0x6F, 0x6F];
    assert BytesOf("bar") == [0x62, 0x61, 0x72];
  }

  /** "Zm9vYmFy" as bytes, one group at a time. */
  lemma FoobarSymbols()
    ensures BytesOf("Zm9vYmFy") == [0x5A, 0x6D, 0x39, 0x76] + [0x59, 0x6D, 0x46, 0x79]
  {
    assert "Zm9vYmFy" == "Zm9v" + "YmFy";
    BytesOfAppend("Zm9v", "YmFy");
    assert BytesOf("Zm9v") == [0x5A, 0x6D, 0x39, 0x76];
    assert BytesOf("YmFy") == [0x59, 0x6D, 0x46, 0x79];
  }

  lemma EncodeFoobar()
    ensures Encode(BytesOf("foobar")) == BytesOf("Zm9vYmFy")
  {
    FoobarBytes();
    FoobarSymbols();
    GroupFoo();
    GroupBar();
    EncodeOneGroup([0x66, 0x6F, 0x6F]);
    EncodeAppendGroup([0x66, 0x6F, 0x6F], [0x62, 0x61, 0x72]);
  }

  /** "" is "". */
  lemma EncodeEmpty()
    ensures Encode(BytesOf("")) == BytesOf("")
  {
  }

  /** The one-byte group "b" gives the symbols "Yg==". */
  lemma GroupB()
    ensures EncodeGroup([0x62]) == [0x59, 0x67, 0x3D, 0x3D]
  {
    var c: seq<byte> := [0x62];
    GroupSymbols(c);
    assert c[0] as int / 4 == 24 && c[0] as int % 4 * 16 == 32;
    assert Value(0x59) == 24 && Value(0x67) == 32;
    FourBytes(EncodeGroup(c), 0x59, 0x67, 0x3D, 0x3D);
  }

  /** The two-byte group "ba" gives the symbols "YmE=". */
  lemma GroupBa()
    ensures EncodeGroup([0x62, 0x61]) == [0x59, 0x6D, 0x45, 0x3D]
  {
    var c: seq<byte> := [0x62, 0x61];
    GroupSymbols(c);
    assert c[0] as int / 4 == 24 && c[0] as int % 4 * 16 + c[1] as int / 16 == 38;
    assert c[1] as int % 16 * 4 == 4;
    assert Value(0x59) == 24 && Value(0x6D) == 38 && Value(0x45) == 4;
    FourBytes(EncodeGroup(c), 0x59, 0x6D, 0x45, 0x3D);
  }

  /** "foob" is "Zm9vYg==". */
  lemma EncodeFoob()
    ensures Encode(BytesOf("foob")) == BytesOf("Zm9vYg==")
  {
    assert "foob" == "foo" + "b";
    BytesOfAppend("foo", "b");
    assert BytesOf("foo") == [0x66, 0x6F, 0x6F] && BytesOf("b") == [0x62];
    assert "Zm9vYg==" == "Zm9v" + "Yg==";
    BytesOfAppend("Zm9v", "Yg==");
    assert BytesOf("Zm9v") == [0x5A, 0x6D, 0x39, 0x76];
    assert BytesOf("Yg==") == [0x59, 0x67, 0x3D, 0x3D];
    GroupFoo();
    GroupB();
    EncodeOneGroup([0x66, 0x6F, 0x6F]);
    EncodeAppendGroup([0x66, 0x6F, 0x6F], [0x62]);
  }

  /** "fooba" is "Zm9vYmE=". */
  lemma EncodeFooba()
    ensures Encode(BytesOf("fooba")) == BytesOf("Zm9vYmE=")
  {
    assert "fooba" == "foo" + "ba";
    BytesOfAppend("foo", "ba");
    assert BytesOf("foo") == [0x66, 0x6F, 0x6F] && BytesOf("ba") == [0x62, 0x61];
    assert "Zm9vYmE=" == "Zm9v" + "YmE=";
    BytesOfAppend("Zm9v", "YmE=");
    assert BytesOf("Zm9v") == [0x5A, 0x6D, 0x39, 0x76];
    assert BytesOf("YmE=") == [0x59, 0x6D, 0x45, 0x3D];
    GroupFoo();
    GroupBa();
    EncodeOneGroup([0x66, 0x6F, 0x6F]);
    EncodeAppendGroup([0x66, 0x6F, 0x6F], [0x62, 0x61]);
  }

  /** "QQ" carries twelve bits: the byte 0x41 and four zero bits. */
  lemma DecodeQQ()
    ensures Decode([0x51, 0x51]) == [0x41]
  {
    var q: seq<byte> := [0x51, 0x51];
    assert Value(0x51) == 16;
    assert q[..1][..0] == [] && q[..1][0] == 0x51;
    assert Run(Start, q[..1]) == Step(Start, 0x51);
    assert Run(Start, q) == Step(Run(Start, q[..1]), 0x51);
    assert Pow2(4) == 16 by {
      assert Pow2(2) == 4;
    }
    StepShifts(Start, 0x51, 16, 6);
    StepEmits(State(16, 6, []), 0x51, 0, 4, 0x41);
  }

  /** A trailing byte outside the alphabet adds nothing. */
  lemma DropSkipped(a: seq<byte>, ch: byte)
    requires !IsSymbol(ch)
    ensures Decode(a + [ch]) == Decode(a)
  {
    DecodeSkips(a, ch, []);
    assert a + [ch] + [] == a + [ch] && a + [] == a;
  }

  /** "QQ==" decodes like "QQ". */
  lemma DecodeQQPadded()
    ensures Decode([0x51, 0x51, 0x3D, 0x3D]) == [0x41]
  {
    PadIsNotSymbol();
    DropSkipped([0x51, 0x51, 0x3D], 0x3D);
    assert [0x51, 0x51, 0x3D] + [0x3D] == [0x51, 0x51, 0x3D, 0x3D];
    DropSkipped([0x51, 0x51], 0x3D);
    assert [0x51, 0x51] + [0x3D] == [0x51, 0x51, 0x3D];
    DecodeQQ();
  }

  /** "Q Q = =" decodes like "QQ". */
  lemma DecodeQQSpaced()
    ensures Decode([0x51, 0x20, 0x51, 0x20, 0x3D, 0x20, 0x3D]) == [0x41]
  {
    PadIsNotSymbol();
    assert !IsSymbol(0x20);
    DropSkipped([0x51, 0x20, 0x51, 0x20, 0x3D, 0x20], 0x3D);
    assert [0x51, 0x20, 0x51, 0x20, 0x3D, 0x20] + [0x3D] == [0x51, 0x20, 0x51, 0x20, 0x3D, 0x20, 0x3D];
    DropSkipped([0x51, 0x20, 0x51, 0x20, 0x3D], 0x20);
    assert [0x51, 0x20, 0x51, 0x20, 0x3D] + [0x20] == [0x51, 0x20, 0x51, 0x20, 0x3D, 0x20];
    DropSkipped([0x51, 0x20, 0x51, 0x20], 0x3D);
    assert [0x51, 0x20, 0x51, 0x20] + [0x3D] == [0x51, 0x20, 0x51, 0x20, 0x3D];
    DropSkipped([0x51, 0x20, 0x51], 0x20);
    assert [0x51, 0x20, 0x51] + [0x20] == [0x51, 0x20, 0x51, 0x20];
    DecodeSkips([0x51], 0x20, [0x51]);
    assert [0x51] + [0x20] + [0x51] == [0x51, 0x20, 0x51];
    assert [0x51] + [0x51] == [0x51, 0x51];
    DecodeQQ();
  }

  /** "QQ== " decodes like "QQ==". */
  lemma DecodeQQTrailing()
    ensures Decode([0x51, 0x51, 0x3D, 0x3D, 0x20]) == [0x41]
  {
    assert !IsSymbol(0x20);
    DropSkipped([0x51, 0x51, 0x3D, 0x3D], 0x20);
    assert [0x51, 0x51, 0x3D, 0x3D] + [0x20] == [0x51, 0x51, 0x3D, 0x3D, 0x20];
    DecodeQQPadded();
  }

  /** The bytes of the three texts. */
  lemma LenientTexts()
    ensures BytesOf("QQ==") == [0x51, 0x51, 0x3D, 0x3D]
    ensures BytesOf("QQ== ") == [0x51, 0x51, 0x3D, 0x3D, 0x20]
  {
  }

  lemma SpacedText()
    ensures BytesOf("Q Q = =") == [0x51, 0x20, 0x51, 0x20, 0x3D, 0x20, 0x3D]
  {
    assert "Q Q = =" == "Q Q" + " = =";
    BytesOfAppend("Q Q", " = =");
    assert BytesOf("Q Q") == [0x51, 0x20, 0x51];
    assert BytesOf(" = =") == [0x20, 0x3D, 0x20, 0x3D];
  }

  /** The decoder's leniency: '=' and spaces are skipped, so "QQ==",
      "QQ== " and "Q Q = =" all decode to the one byte 0x41 ('A'). */
  lemma DecodeLenient()
    ensures Decode(BytesOf("QQ==")) == [0x41]
    ensures Decode(BytesOf("QQ== ")) == [0x41]
    ensures Decode(BytesOf("Q Q = =")) == [0x41]
  {
    LenientTexts();
    SpacedText();
    DecodeQQPadded();
    DecodeQQTrailing();
    DecodeQQSpaced();
  }
}
