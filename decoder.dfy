/** base64_decode (udf_gbbase64.c:49-92): a bit accumulator that takes six
    bits from every alphabet symbol, skips every other byte, and emits a
    byte whenever eight or more bits are buffered. */
module Decoder {
  import opened Bytes
  import opened Alphabet
  import opened Arithmetic

  /** The decoder's registers between two input bytes: `buf` holds the
      `nbits` bits not yet emitted, `out` the bytes emitted so far (the
      source's `result[..offset]`). */
  datatype State = State(buf: nat, nbits: nat, out: seq<byte>)

  /** buf = 0, nbits = 0, offset = 0. */
  const Start: State := State(0, 0, [])

  function Pow2(n: nat): (p: nat)
    ensures 1 <= p
  {
    if n == 0 then 1 else 2 * Pow2(n - 1)
  }

  /** The accumulator invariant: between bytes, nbits is 0, 2, 4 or 6 and
      buf fits in nbits bits. */
  predicate Valid(st: State) {
    (st.nbits == 0 || st.nbits == 2 || st.nbits == 4 || st.nbits == 6)
    && st.buf < Pow2(st.nbits)
  }

  /** Once eight or more bits are buffered, the top eight are one byte:
      with buf < 2^(rest + 8), `buf >> rest` fits in 8 bits, and `buf`
      itself (below 2^12) never comes near the 32 bits of an unsigned int. */
  lemma EmitFits(buf: nat, rest: nat)
    requires rest == 0 || rest == 2 || rest == 4
    requires buf < Pow2(rest) * 256
    ensures buf < 0x1000
    ensures 0 <= buf / Pow2(rest) < 256
    ensures buf % Pow2(rest) < Pow2(rest)
  {
    if rest == 0 {
      assert Pow2(0) == 1;
    } else if rest == 2 {
      assert Pow2(2) == 4;
    } else {
      assert Pow2(4) == 16;
    }
  }

  /** One iteration of the loop on input byte `ch`: a non-alphabet byte
      changes nothing; an alphabet symbol shifts its six bits into `buf`
      (`buf << 6 | d`), and when eight or more bits are buffered, the top
      eight are emitted (`buf >> nbits`) and masked off
      (`buf & ((1 << nbits) - 1)`). */
  function Step(st: State, ch: byte): (r: State)
    requires Valid(st)
    ensures Valid(r)
  {
    var d := Value(ch);
    if d == -1 then st
    else
      var buf := st.buf * 64 + d;
      var nbits := st.nbits + 6;
      if nbits >= 8 then
        var rest := nbits - 8;
        assert Pow2(st.nbits) * 64 == Pow2(rest) * 256 by {
          assert Pow2(0) == 1 && Pow2(2) == 4 && Pow2(4) == 16 && Pow2(6) == 64;
        }
        EmitFits(buf, rest);
        State(buf % Pow2(rest), rest, st.out + [(buf / Pow2(rest)) as byte])
      else
        assert Pow2(nbits) == Pow2(st.nbits) * 64 by {
          assert Pow2(0) == 1 && Pow2(6) == 64;
        }
        State(buf, nbits, st.out)
  }

  /** The alphabet symbols of `s`, in order: the bytes the decoder takes
      bits from. */
  function SymbolsOf(s: seq<byte>): (r: seq<byte>)
    ensures |r| <= |s|
    decreases |s|
  {
    if s == [] then []
    else SymbolsOf(s[..|s| - 1]) + (if IsSymbol(s[|s| - 1]) then [s[|s| - 1]] else [])
  }

  /** One Step keeps the bytes already emitted, and conserves bits: six
      enter with an alphabet symbol, eight leave with an emitted byte. */
  lemma StepGrows(st: State, ch: byte)
    requires Valid(st)
    ensures |st.out| <= |Step(st, ch).out| && Step(st, ch).out[..|st.out|] == st.out
    ensures 8 * |Step(st, ch).out| + Step(st, ch).nbits
            == 8 * |st.out| + st.nbits + (if IsSymbol(ch) then 6 else 0)
  {
  }

  /** The loop over `s` from state `st`: every byte of `s`, in order, through
      Step. */
  function Run(st: State, s: seq<byte>): (r: State)
    requires Valid(st)
    ensures Valid(r)
    decreases |s|
  {
    if s == [] then st else Step(Run(st, s[..|s| - 1]), s[|s| - 1])
  }

  /** Over a whole input, the emitted bytes only ever grow, and six bits
      enter per alphabet symbol while eight leave per emitted byte. */
  lemma {:induction false} RunGrows(st: State, s: seq<byte>)
    requires Valid(st)
    ensures |st.out| <= |Run(st, s).out| && Run(st, s).out[..|st.out|] == st.out
    ensures 8 * |Run(st, s).out| + Run(st, s).nbits == 8 * |st.out| + st.nbits + 6 * |SymbolsOf(s)|
    decreases |s|
  {
    if s != [] {
      var s' := s[..|s| - 1];
      RunGrows(st, s');
      StepGrows(Run(st, s'), s[|s| - 1]);
      var o := Run(st, s').out;
      assert Run(st, s).out[..|o|] == o;
      assert Run(st, s).out[..|st.out|] == o[..|st.out|];
    }
  }

  /** The bytes base64_decode writes for the input `s`. */
  function Decode(s: seq<byte>): seq<byte> {
    Run(Start, s).out
  }

  /** Running over a concatenation is running over each part in turn. */
  lemma {:induction false} RunAppend(st: State, a: seq<byte>, b: seq<byte>)
    requires Valid(st)
    ensures Run(st, a + b) == Run(Run(st, a), b)
    decreases |b|
  {
    if b == [] {
      assert a + b == a;
    } else {
      var b' := b[..|b| - 1];
      assert (a + b)[..|a + b| - 1] == a + b';
      RunAppend(st, a, b');
    }
  }

  /** Only the alphabet symbols matter: running over `s` is running over
      its symbols alone. */
  lemma {:induction false} RunSkips(st: State, s: seq<byte>)
    requires Valid(st)
    ensures Run(st, s) == Run(st, SymbolsOf(s))
    decreases |s|
  {
    if s != [] {
      var s' := s[..|s| - 1];
      var ch := s[|s| - 1];
      RunSkips(st, s');
      if IsSymbol(ch) {
        var v := SymbolsOf(s');
        assert SymbolsOf(s) == v + [ch];
        assert (v + [ch])[..|v + [ch]| - 1] == v;
      } else {
        assert SymbolsOf(s) == SymbolsOf(s');
      }
    }
  }

  /** Inserting a byte outside the alphabet ('=', whitespace, anything)
      anywhere in the input never changes the output. */
  lemma DecodeSkips(a: seq<byte>, ch: byte, b: seq<byte>)
    requires !IsSymbol(ch)
    ensures Decode(a + [ch] + b) == Decode(a + b)
  {
    RunAppend(Start, a + [ch], b);
    RunAppend(Start, a, [ch]);
    assert [ch][..0] == [];
    RunAppend(Start, a, b);
  }

  /** The output depends on the alphabet symbols of the input alone. */
  lemma DecodeSymbolsOnly(s: seq<byte>)
    ensures Decode(s) == Decode(SymbolsOf(s))
  {
    RunSkips(Start, s);
  }

  /** Output length law: floor(6 v / 8) bytes for v alphabet symbols; the
      fewer than eight bits left over are dropped. */
  lemma DecodeLength(s: seq<byte>)
    ensures |Decode(s)| == 6 * |SymbolsOf(s)| / 8
  {
    var r := Run(Start, s);
    RunGrows(Start, s);
    DivModOf(6 * |SymbolsOf(s)|, 8, |r.out|, r.nbits);
  }

  /** What the decoder has emitted after a prefix of the input is a prefix
      of what it emits for the whole input. */
  lemma DecodePrefix(s: seq<byte>, i: nat)
    requires i <= |s|
    ensures |Run(Start, s[..i]).out| <= |Decode(s)|
    ensures Decode(s)[..|Run(Start, s[..i]).out|] == Run(Start, s[..i]).out
  {
    assert s[..i] + s[i..] == s;
    RunAppend(Start, s[..i], s[i..]);
    RunGrows(Run(Start, s[..i]), s[i..]);
  }

  /** The state after i + 1 input bytes is one Step from the state after i. */
  lemma RunNext(s: seq<byte>, i: nat)
    requires i < |s|
    ensures Run(Start, s[..i + 1]) == Step(Run(Start, s[..i]), s[i])
  {
    assert s[..i + 1][..i] == s[..i];
  }

  /** The step base64_decode's loop takes at input position i stays within
      the output of the whole input. */
  lemma RunNextFits(s: seq<byte>, i: nat, st: State)
    requires i < |s| && st == Run(Start, s[..i])
    ensures Run(Start, s[..i + 1]) == Step(st, s[i])
    ensures |Step(st, s[i]).out| <= |Decode(s)|
  {
    RunNext(s, i);
    DecodePrefix(s, i + 1);
  }

  /** One Step on an alphabet symbol that completes a byte, written with
      the values the loop of base64_decode computes. */
  lemma StepEmits(st: State, ch: byte, buf: nat, nbits: nat, b: byte)
    requires Valid(st) && IsSymbol(ch) && 8 <= st.nbits + 6
    requires nbits == st.nbits + 6 - 8
    requires b as int == (st.buf * 64 + Value(ch)) / Pow2(nbits)
    requires buf == (st.buf * 64 + Value(ch)) % Pow2(nbits)
    ensures Step(st, ch) == State(buf, nbits, st.out + [b])
  {
  }

  /** One Step on an alphabet symbol that does not complete a byte. */
  lemma StepShifts(st: State, ch: byte, buf: nat, nbits: nat)
    requires Valid(st) && IsSymbol(ch) && st.nbits + 6 < 8
    requires nbits == st.nbits + 6 && buf == st.buf * 64 + Value(ch)
    ensures Step(st, ch) == State(buf, nbits, st.out)
  {
  }

  /** One Step on a byte outside the alphabet. */
  lemma StepSkips(st: State, ch: byte)
    requires Valid(st) && !IsSymbol(ch)
    ensures Step(st, ch) == st
  {
  }

  /** Storing byte b at index |a| of a + t, with t non-empty. */
  lemma StoreAt(a: seq<byte>, t: seq<byte>, b: byte)
    requires t != []
    ensures (a + t)[|a| := b] == a + [b] + t[1..]
  {
  }

  /** The body of base64_decode's loop for one input byte `ch`: the C
      variables buf, nbits and offset hold the decoder state `st`, whose
      output so far occupies result[..offset]. */
  method Absorb(result: array<byte>, buf: nat, nbits: nat, offset: nat, ch: byte, ghost st: State)
    returns (buf': nat, nbits': nat, offset': nat)
    requires Valid(st) && buf == st.buf && nbits == st.nbits && offset == |st.out|
    requires |Step(st, ch).out| <= result.Length
    requires result[..offset] == st.out
    modifies result
    ensures buf' == Step(st, ch).buf && nbits' == Step(st, ch).nbits
    ensures offset' == |Step(st, ch).out|
    ensures result[..] == Step(st, ch).out + old(result[offset'..])
  {
    buf', nbits', offset' := buf, nbits, offset;
    var d := Value(ch);
    if d != -1 {
      buf' := buf * 64 + d;             // (buf << 6) | d
      nbits' := nbits + 6;
      if nbits' >= 8 {
        nbits' := nbits' - 8;
        EmitFits(buf', nbits');
        var b := (buf' / Pow2(nbits')) as byte;
        result[offset] := b;            // buf >> nbits
        buf' := buf' % Pow2(nbits');    // buf &= (1 << nbits) - 1
        StepEmits(st, ch, buf', nbits', b);
        StoreAt(st.out, old(result[offset..]), b);
        DropDrop(old(result[..]), offset, 1);
        offset' := offset + 1;
      } else {
        StepShifts(st, ch, buf', nbits');
      }
    } else {
      StepSkips(st, ch);
    }
  }

  /** The loop of base64_decode, writing into `result` from index 0 and
      returning how many bytes it wrote (`offset`). */
  method Base64Decode(s: seq<byte>, result: array<byte>) returns (offset: nat)
    requires |Decode(s)| <= result.Length
    modifies result
    ensures offset == |Decode(s)|
    ensures result[..] == Decode(s) + old(result[offset..])
  {
    offset := 0;
    var buf: nat := 0;
    var nbits: nat := 0;
    ghost var st := Start;
    for i := 0 to |s|
      invariant st == Run(Start, s[..i])
      invariant buf == st.buf && nbits == st.nbits && offset == |st.out| <= result.Length
      invariant result[..] == st.out + old(result[offset..])
    {
      RunNextFits(s, i, st);
      buf, nbits, offset := Absorb(result, buf, nbits, offset, s[i], st);
      DropDrop(old(result[..]), |st.out|, offset - |st.out|);
      st := Step(st, s[i]);
    }
    assert s[..|s|] == s;
  }
}
