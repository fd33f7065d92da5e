/**
 The codes of the LZS format (the tables of section 3 of RFC 3943) written out bit by
 bit, and what the decoder does with streams that are cut short or do not fit. The
 tables say what another implementation reads.
 */
module LzsCodes {
  import opened Wrappers
  import opened Bits
  import opened LzsFormat
  import opened LzsSearch
  import C = LzsCompress

  // ---- The tables ----

  /** The bits of a number below 16, 128, 256 and 2048, most significant first. */
  function Bits4(v: nat): (b: seq<bool>) {
    [v / 8 % 2 == 1, v / 4 % 2 == 1, v / 2 % 2 == 1, v % 2 == 1]
  }

  function Bits7(v: nat): (b: seq<bool>) {
    [v / 64 % 2 == 1, v / 32 % 2 == 1, v / 16 % 2 == 1] + Bits4(v)
  }

  function Bits8(v: nat): (b: seq<bool>) {
    [v / 128 % 2 == 1] + Bits7(v)
  }

  function Bits11(v: nat): (b: seq<bool>) {
    [v / 1024 % 2 == 1, v / 512 % 2 == 1, v / 256 % 2 == 1] + Bits8(v)
  }

  /** So many nibbles of four ones. */
  function Ones(n: nat): (b: seq<bool>)
    ensures |b| == 4 * n
  {
    if n == 0 then [] else [true, true, true, true] + Ones(n - 1)
  }

  lemma Powers()
    ensures Pow2(0) == 1 && Pow2(1) == 2 && Pow2(2) == 4 && Pow2(3) == 8 && Pow2(4) == 16 && Pow2(5) == 32
    ensures Pow2(6) == 64 && Pow2(7) == 128 && Pow2(8) == 256 && Pow2(9) == 512 && Pow2(10) == 1024
  {
  }

  lemma ToBitsHead(n: nat, v: nat)
    requires n > 0
    ensures ToBits(n, v) == [v / Pow2(n - 1) % 2 == 1] + ToBits(n - 1, v)
  {
    hide Pow2;
    var a, b := ToBits(n, v), ToBits(n - 1, v);
    forall i | 1 <= i < n
      ensures a[i] == b[i - 1]
    {
    }
    assert a[0] == Bit(v, n - 1);
    assert a == [a[0]] + b;
  }

  lemma ToBits2(v: nat)
    ensures ToBits(2, v) == [v / 2 % 2 == 1, v % 2 == 1]
  {
    hide Pow2, ToBits;
    Powers();
    ToBitsHead(2, v);
    ToBitsHead(1, v);
    assert ToBits(0, v) == [];
  }

  lemma ToBits4(v: nat)
    ensures ToBits(4, v) == Bits4(v)
  {
    hide Pow2, ToBits;
    Powers();
    ToBitsHead(4, v);
    ToBitsHead(3, v);
    ToBits2(v);
  }

  lemma ToBits7(v: nat)
    ensures ToBits(7, v) == Bits7(v)
  {
    hide Pow2, ToBits, Bits4;
    Powers();
    ToBitsHead(7, v);
    ToBitsHead(6, v);
    ToBitsHead(5, v);
    ToBits4(v);
  }

  lemma ToBits8(v: nat)
    ensures ToBits(8, v) == Bits8(v)
  {
    hide Pow2, ToBits, Bits7;
    Powers();
    ToBitsHead(8, v);
    ToBits7(v);
  }

  lemma ToBits11(v: nat)
    ensures ToBits(11, v) == Bits11(v)
  {
    hide Pow2, ToBits, Bits8;
    Powers();
    ToBitsHead(11, v);
    ToBitsHead(10, v);
    ToBitsHead(9, v);
    ToBits8(v);
  }

  /** Lengths up to 7. */
  lemma ShortLengthCodes()
    ensures LengthBits(2) == [false, false] && LengthBits(3) == [false, true] && LengthBits(4) == [true, false]
    ensures LengthBits(5) == [true, true, false, false]
    ensures LengthBits(6) == [true, true, false, true]
    ensures LengthBits(7) == [true, true, true, false]
  {
    hide ToBits;
    ToBits2(0);
    ToBits2(1);
    ToBits2(2);
    ToBits4(12);
    ToBits4(13);
    ToBits4(14);
  }

  /** Longer ones: a nibble of ones for every 15, and the rest in one nibble. */
  lemma LongLengthCode(n: nat)
    requires n >= 8
    ensures LengthBits(n) == Ones((n + 7) / 15) + Bits4((n + 7) % 15)
  {
    RunCode(n + 7);
  }

  lemma {:induction false} RunCode(n: nat)
    ensures RunBits(n) == Ones(n / 15) + Bits4(n % 15)
  {
    hide ToBits, Bits4;
    if n >= 15 {
      RunNibble(n);
      RunCode(n - 15);
      ToBits4(15);
      assert Bits4(15) == [true, true, true, true] by { AllOnes(); }
      assert n / 15 == (n - 15) / 15 + 1 && n % 15 == (n - 15) % 15;
    } else {
      ToBits4(n);
    }
  }

  lemma AllOnes()
    ensures Bits4(15) == [true, true, true, true]
  {
  }

  /** Offsets: 11 and seven bits, or 10 and eleven bits. */
  lemma OffsetCode(offset: nat)
    requires 1 <= offset < 2048
    ensures OffsetBits(offset) == if offset < 128 then [true, true] + Bits7(offset) else [true, false] + Bits11(offset)
  {
    hide ToBits, Bits7, Bits11;
    Powers();
    if offset < 128 {
      ToBitsSplit(2, 7, 3, offset);
      ToBits2(3);
      ToBits7(offset);
    } else {
      Pow2Add(8, 3);
      ToBitsSplit(2, 11, 2, offset);
      ToBits2(2);
      ToBits11(offset);
    }
  }

  /** A literal is 0 and the byte. */
  lemma LiteralCode(b: byte)
    ensures TokenBits(Literal(b)) == [false] + Bits8(b)
  {
    hide ToBits, Bits8;
    Powers();
    ToBitsSplit(1, 8, 0, b);
    ZeroBit();
    ToBits8(b);
  }

  lemma ZeroBit()
    ensures ToBits(1, 0) == [false]
  {
    hide Pow2, ToBits;
    Powers();
    ToBitsHead(1, 0);
    assert ToBits(0, 0) == [];
  }

  /** The stream ends with 110000000, and seven zeros to fill the last byte. */
  lemma EndCode()
    ensures Trailer() == [true, true] + [false, false, false, false, false, false, false]
                         + [false, false, false, false, false, false, false]
  {
    hide ToBits, Bits7;
    Powers();
    Pow2Add(7, 7);
    ToBitsSplit(2, 14, 3, 0);
    ToBitsSplit(7, 7, 0, 0);
    ToBits2(3);
    ToBits7(0);
    ZeroBits();
  }

  lemma ZeroBits()
    ensures Bits7(0) == [false, false, false, false, false, false, false]
  {
  }

  /** What is written for a whole parse: the codes of its tokens, in order. */
  lemma CopyCode(offset: nat, length: nat)
    requires Encodable(Copy(offset, length))
    ensures TokenBits(Copy(offset, length)) ==
            (if offset < 128 then [true, true] + Bits7(offset) else [true, false] + Bits11(offset)) + LengthBits(length)
  {
    OffsetCode(offset);
  }

  // ---- Streams that are cut short ----

  /** What can be read of the first part of a stream is what can be read of the stream. */
  lemma FieldPrefix(u: seq<bool>, n: nat, pos: nat, k: nat)
    requires n <= |u| && n % 8 == 0 && |u| % 8 == 0 && k <= 9
    ensures Field(u[..n], pos, k) == None || Field(u[..n], pos, k) == Field(u, pos, k)
  {
    if Field(u[..n], pos, k).Some? {
      assert u[..n][pos..pos + k] == u[pos..pos + k];
    }
  }

  lemma {:induction false} RunPrefix(u: seq<bool>, n: nat, pos: nat, length: nat)
    requires n <= |u| && n % 8 == 0 && |u| % 8 == 0 && length <= 0xffff
    ensures ReadRun(u[..n], pos, length) == None || ReadRun(u[..n], pos, length) == ReadRun(u, pos, length)
    decreases n - pos
  {
    hide Field;
    FieldPrefix(u, n, pos, 4);
    if Field(u[..n], pos, 4) == Some(15) {
      Within(u[..n], pos, 4);
      RunPrefix(u, n, pos + 4, (length + 15) % 0x1_0000);
    }
  }

  lemma Within(u: seq<bool>, pos: nat, k: nat)
    requires k <= 9 && Field(u, pos, k).Some?
    ensures pos + k <= |u|
  {
  }

  lemma LengthPrefix(u: seq<bool>, n: nat, pos: nat)
    requires n <= |u| && n % 8 == 0 && |u| % 8 == 0
    ensures ReadLength(u[..n], pos) == None || ReadLength(u[..n], pos) == ReadLength(u, pos)
  {
    hide Field, ReadRun;
    FieldPrefix(u, n, pos, 2);
    FieldPrefix(u, n, pos + 2, 2);
    RunPrefix(u, n, pos + 4, 8);
  }

  lemma TokenPrefix(u: seq<bool>, n: nat, pos: nat)
    requires n <= |u| && n % 8 == 0 && |u| % 8 == 0
    ensures ReadToken(u[..n], pos) == Truncated || ReadToken(u[..n], pos) == ReadToken(u, pos)
  {
    hide Field, ReadLength;
    Pow2Values();
    FieldPrefix(u, n, pos, 9);
    FieldPrefix(u, n, pos + 9, 4);
    LengthPrefix(u, n, pos + 9);
    LengthPrefix(u, n, pos + 13);
  }

  /** With room for the data, a stream without its complete end marker is invalid,
      wherever it is cut. */
  lemma {:induction false} CutStream(u: seq<bool>, n: nat, pos: nat, ts: seq<Token>, out: seq<byte>, cap: nat)
    requires forall t :: t in ts ==> Encodable(t)
    requires |u| % 8 == 0 && At(u, pos, StreamBits(ts) + ToBits(9, 0x180))
    requires AllApply(out, ts) && |ApplyAll(out, ts)| <= cap
    requires n <= |u| && n % 8 == 0 && n < pos + |StreamBits(ts)| + 9
    ensures Decode(u[..n], pos, out, cap) == Invalid
    decreases |ts|
  {
    hide ToBits, ReadToken, TokenBits, At, Apply;
    TokenPrefix(u, n, pos);
    if ts == [] {
      assert StreamBits(ts) + ToBits(9, 0x180) == ToBits(9, 0x180);
      ReadEndAt(u, pos);
      EndIsNine(u[..n], pos);
    } else {
      var t, more := ts[0], StreamBits(ts[1..]) + ToBits(9, 0x180);
      assert StreamBits(ts) + ToBits(9, 0x180) == TokenBits(t) + more;
      AtSplit(u, pos, TokenBits(t), more);
      AtFits(u, pos + |TokenBits(t)|, more);
      ReadTokenAt(u, pos, t);
      if ReadToken(u[..n], pos).Got? {
        CutStream(u, n, pos + |TokenBits(t)|, ts[1..], Apply(out, t), cap);
      }
    }
  }

  lemma AtFits(u: seq<bool>, pos: nat, b: seq<bool>)
    requires At(u, pos, b)
    ensures pos + |b| <= |u|
  {
  }

  lemma EndIsNine(u: seq<bool>, pos: nat)
    ensures ReadToken(u, pos) == End ==> pos + 9 <= |u|
  {
    hide ReadCopy;
  }

  lemma {:induction false} UnpackPrefix(s: seq<byte>, n: nat)
    requires n <= |s|
    ensures Unpack(s[..n]) == Unpack(s)[..8 * n]
  {
    hide ToBits;
    if n > 0 {
      assert s[..n][1..] == s[1..][..n - 1];
      UnpackPrefix(s[1..], n - 1);
    }
  }

  /** The output as bits: the parse, the end marker, and fewer than eight bits more. */
  lemma OutputBits(src: seq<byte>) returns (u: seq<bool>, ts: seq<Token>)
    requires |src| <= 0x1_0000
    ensures u == Unpack(Pack(C.CompressedBits(src))) && |u| % 8 == 0
    ensures (forall t :: t in ts ==> Encodable(t)) && AllApply([], ts) && ApplyAll([], ts) == src
    ensures At(u, 0, StreamBits(ts) + ToBits(9, 0x180)) && |u| < |StreamBits(ts)| + 17
  {
    hide Decode, ApplyAll, AllApply, StreamBits, Unpack, Pack, ToBits, Value, Parse;
    ts := Parse(src, 0);
    ParseFits(src, 0);
    FitApplies(src, 0, ts);
    assert src[..0] == [];
    Pow2Values();
    var b := StreamBits(ts) + Trailer();
    u := Unpack(Pack(b));
    UnpackPack(b);
    ToBitsSplit(9, 7, 0x180, 0);
    var c := StreamBits(ts) + ToBits(9, 0x180);
    assert b == c + ToBits(7, 0);
    assert u[0..|c|] == c;
  }

  /** The compressor's output with any byte missing at its end is refused as invalid. */
  lemma CutIsInvalid(src: seq<byte>, n: nat, cap: nat)
    requires |src| <= 0x1_0000 && |src| <= cap && n < |Pack(C.CompressedBits(src))|
    ensures Decode(Unpack(Pack(C.CompressedBits(src))[..n]), 0, [], cap) == Invalid
  {
    hide Decode, ApplyAll, AllApply, StreamBits, Unpack, Pack, ToBits, Value, At;
    var u, ts := OutputBits(src);
    UnpackPrefix(Pack(C.CompressedBits(src)), n);
    CutStream(u, 8 * n, 0, ts, [], cap);
  }

  // ---- Buffers that are too small ----

  /** A buffer that is too small for the data is reported as such. */
  lemma {:induction false} SmallBuffer(u: seq<bool>, pos: nat, ts: seq<Token>, out: seq<byte>, cap: nat)
    requires forall t :: t in ts ==> Encodable(t)
    requires |u| % 8 == 0 && At(u, pos, StreamBits(ts) + ToBits(9, 0x180))
    requires AllApply(out, ts) && |out| <= cap < |ApplyAll(out, ts)|
    ensures Decode(u, pos, out, cap) == TooBig
    decreases |ts|
  {
    hide ToBits, ReadToken, TokenBits, At, Apply;
    var t, more := ts[0], StreamBits(ts[1..]) + ToBits(9, 0x180);
    assert StreamBits(ts) + ToBits(9, 0x180) == TokenBits(t) + more;
    AtSplit(u, pos, TokenBits(t), more);
    AtFits(u, pos + |TokenBits(t)|, more);
    ReadTokenAt(u, pos, t);
    if |Apply(out, t)| <= cap {
      SmallBuffer(u, pos + |TokenBits(t)|, ts[1..], Apply(out, t), cap);
    }
  }

  /** Into a buffer smaller than the input the compressor's output does not fit. */
  lemma SmallIsTooBig(src: seq<byte>, cap: nat)
    requires cap < |src| <= 0x1_0000
    ensures Decode(Unpack(Pack(C.CompressedBits(src))), 0, [], cap) == TooBig
  {
    hide Decode, ApplyAll, AllApply, StreamBits, Unpack, Pack, ToBits, Value, At;
    var u, ts := OutputBits(src);
    SmallBuffer(u, 0, ts, [], cap);
  }

  /** A copy from before the start of the data, or from nowhere, is invalid. */
  lemma BadOffsetIsInvalid(u: seq<bool>, pos: nat, out: seq<byte>, cap: nat, offset: nat, length: nat)
    requires offset == 0 || offset > |out|
    requires ReadToken(u, pos).Got? && ReadToken(u, pos).t == Copy(offset, length)
    ensures Decode(u, pos, out, cap) == Invalid
  {
    hide ReadToken;
  }
}
