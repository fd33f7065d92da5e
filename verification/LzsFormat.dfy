/**
 The LZS stream format (ANSI X3.241; section 3 of RFC 3943) as src/lzs.c reads
 and writes it: tokens, their bit encoding, a reference decoder over bit lists,
 and the data that a token list stands for.
 */
module LzsFormat {
  import opened Wrappers
  import opened Bits

  datatype Token =
    | Literal(b: byte)
    | Copy(offset: nat, length: nat)

  const MAX_HISTORY: nat := 2048

  /** What the encoding can represent: an 11-bit offset and a 16-bit length. */
  predicate Encodable(t: Token) {
    t.Copy? ==> 1 <= t.offset < MAX_HISTORY && 2 <= t.length <= 0xffff
  }

  // ---- Encoding ----

  function OffsetBits(offset: nat): (b: seq<bool>)
    ensures |b| == 9 || |b| == 13
  {
    if offset < 0x80 then ToBits(9, 0x180 + offset) else ToBits(13, 0x1000 + offset)
  }

  /** The nibble run of a length of 8 or more, given as length + 7. */
  function RunBits(n: nat): (b: seq<bool>) {
    if n >= 30 then ToBits(8, 0xff) + RunBits(n - 30)
    else if n >= 15 then ToBits(8, 0xf0 + n - 15)
    else ToBits(4, n)
  }

  function LengthBits(length: nat): (b: seq<bool>)
    requires length >= 2
  {
    if length < 5 then ToBits(2, length - 2)
    else if length < 8 then ToBits(4, length + 7)
    else RunBits(length + 7)
  }

  function TokenBits(t: Token): (b: seq<bool>)
    requires Encodable(t)
  {
    match t
    case Literal(b) => ToBits(9, b)
    case Copy(offset, length) => OffsetBits(offset) + LengthBits(length)
  }

  function StreamBits(ts: seq<Token>): (b: seq<bool>)
    requires forall t :: t in ts ==> Encodable(t)
  {
    if ts == [] then [] else TokenBits(ts[0]) + StreamBits(ts[1..])
  }

  /** The end marker, with 7 trailing zero bits to flush it. */
  function Trailer(): (b: seq<bool>) {
    ToBits(16, 0xc000)
  }

  // ---- Decoding ----

  /** The bits of a byte string left to GET_BITS at bit position pos: it wants
      two more bytes, whatever it is about to read. */
  predicate CanRead(u: seq<bool>, pos: nat) {
    |u| / 8 - pos / 8 >= 2
  }

  /** A field of k bits at pos, if GET_BITS agrees to read it. */
  function Field(u: seq<bool>, pos: nat, k: nat): (v: Option<nat>)
    requires k <= 9
    ensures v.Some? ==> v.value < Pow2(k)
  {
    if CanRead(u, pos) then Some(Value(u[pos..pos + k])) else None
  }

  /** The nibble run: adds to a 16-bit length. */
  function ReadRun(u: seq<bool>, pos: nat, length: nat): (r: Option<(nat, nat)>)
    requires length <= 0xffff
    ensures r.Some? ==> r.value.0 <= 0xffff && pos < r.value.1 <= |u|
    decreases |u| - pos
  {
    match Field(u, pos, 4)
    case None => None
    case Some(d) =>
      if d != 15 then
        Some(((length + d) % 0x1_0000, pos + 4))
      else
        ReadRun(u, pos + 4, (length + 15) % 0x1_0000)
  }

  function ReadLength(u: seq<bool>, pos: nat): (r: Option<(nat, nat)>)
    ensures r.Some? ==> r.value.0 <= 0xffff && pos < r.value.1 <= |u|
  {
    match Field(u, pos, 2)
    case None => None
    case Some(d) =>
      if d != 3 then Some((d + 2, pos + 2)) else
        match Field(u, pos + 2, 2)
        case None => None
        case Some(d) =>
          if d != 3 then Some((d + 5, pos + 4)) else ReadRun(u, pos + 4, 8)
  }

  datatype Read = Truncated | End | Got(t: Token, next: nat)

  /** The copy token whose first 9 bits, at pos, are data. */
  function ReadCopy(u: seq<bool>, pos: nat, data: nat): (r: Read)
    requires 0x100 <= data < 0x200
    ensures r.Got? ==> r.t.Copy? && r.t.length <= 0xffff && pos < r.next <= |u|
    ensures !r.End?
  {
    var low := if data < 0x180 then Field(u, pos + 9, 4) else Some(0);
    match low
    case None => Truncated
    case Some(n) =>
      var after := if data < 0x180 then pos + 13 else pos + 9;
      match ReadLength(u, after)
      case None => Truncated
      case Some((length, next)) =>
        Got(Copy(if data < 0x180 then (data % 0x80) * 16 + n else data % 0x80, length), next)
  }

  function ReadToken(u: seq<bool>, pos: nat): (r: Read)
    ensures r.Got? ==> pos < r.next <= |u|
  {
    match Field(u, pos, 9)
    case None => Truncated
    case Some(data) =>
      Pow2Values();
      if data < 0x100 then Got(Literal(data), pos + 9)
      else if data == 0x180 then End
      else ReadCopy(u, pos, data)
  }

  // ---- What tokens stand for ----

  function CopyOnto(out: seq<byte>, offset: nat, length: nat): (r: seq<byte>)
    requires 1 <= offset <= |out|
    ensures |r| == |out| + length
    decreases length
  {
    if length == 0 then out else CopyOnto(out + [out[|out| - offset]], offset, length - 1)
  }

  predicate Applies(out: seq<byte>, t: Token) {
    t.Copy? ==> 1 <= t.offset <= |out|
  }

  function Apply(out: seq<byte>, t: Token): (r: seq<byte>)
    requires Applies(out, t)
    ensures |r| == |out| + (if t.Literal? then 1 else t.length)
  {
    match t
    case Literal(b) => out + [b]
    case Copy(offset, length) => CopyOnto(out, offset, length)
  }

  predicate AllApply(out: seq<byte>, ts: seq<Token>)
    decreases |ts|
  {
    ts == [] || (Applies(out, ts[0]) && AllApply(Apply(out, ts[0]), ts[1..]))
  }

  function ApplyAll(out: seq<byte>, ts: seq<Token>): (r: seq<byte>)
    requires AllApply(out, ts)
    ensures |r| >= |out|
    decreases |ts|
  {
    if ts == [] then out else ApplyAll(Apply(out, ts[0]), ts[1..])
  }

  // ---- The reference decoder ----

  datatype Outcome = Done(data: seq<byte>) | Invalid | TooBig

  /** Decodes from pos on, appending to out, into room for cap bytes. */
  function Decode(u: seq<bool>, pos: nat, out: seq<byte>, cap: nat): (r: Outcome)
    ensures r.Done? && |out| <= cap ==> |r.data| <= cap
    decreases |u| - pos
  {
    match ReadToken(u, pos)
    case Truncated => Invalid
    case End => Done(out)
    case Got(t, next) =>
      if !Applies(out, t) then Invalid
      else if |Apply(out, t)| > cap then TooBig
      else Decode(u, next, Apply(out, t), cap)
  }

  // ---- Decoding undoes encoding ----

  /** The bit list b stands at pos in u. */
  predicate At(u: seq<bool>, pos: nat, b: seq<bool>) {
    pos + |b| <= |u| && u[pos..pos + |b|] == b
  }

  lemma AtSplit(u: seq<bool>, pos: nat, a: seq<bool>, b: seq<bool>)
    requires At(u, pos, a + b)
    ensures At(u, pos, a) && At(u, pos + |a|, b)
  {
    var c := u[pos..pos + |a + b|];
    assert c[..|a|] == a && c[|a|..] == b;
  }

  /** With the 9 bits of an end marker still to come after what is read, or
      with 9 bits to read, GET_BITS never refuses. */
  lemma FieldAt(u: seq<bool>, pos: nat, k: nat, v: nat)
    requires |u| % 8 == 0 && k <= 9 && v < Pow2(k) && At(u, pos, ToBits(k, v))
    requires pos + 9 <= |u|
    ensures Field(u, pos, k) == Some(v)
  {
    hide Pow2, Value, ToBits;
    ValueToBits(k, v);
    SmallMod(v, Pow2(k));
  }

  /** Two nibbles at a time or one at a time, the run is the same. */
  lemma {:induction false} RunNibble(n: nat)
    requires n >= 15
    ensures RunBits(n) == ToBits(4, 15) + RunBits(n - 15)
  {
    Pow2Values();
    if n >= 30 {
      ToBitsSplit(4, 4, 15, 15);
      if n - 15 >= 30 {
        RunNibble(n - 30);
      } else {
        ToBitsSplit(4, 4, 15, n - 30);
      }
    } else {
      ToBitsSplit(4, 4, 15, n - 15);
    }
  }

  lemma {:induction false} ReadRunAt(u: seq<bool>, pos: nat, n: nat, length: nat)
    requires |u| % 8 == 0 && At(u, pos, RunBits(n)) && pos + |RunBits(n)| + 9 <= |u|
    requires length + n <= 0xffff
    ensures ReadRun(u, pos, length) == Some((length + n, pos + |RunBits(n)|))
    decreases n
  {
    hide ToBits, Value, At, Pow2, Field, CanRead;
    Pow2Values();
    if n >= 15 {
      RunNibble(n);
      AtSplit(u, pos, ToBits(4, 15), RunBits(n - 15));
      FieldAt(u, pos, 4, 15);
      ReadRunAt(u, pos + 4, n - 15, length + 15);
    } else {
      FieldAt(u, pos, 4, n);
    }
  }

  /** The fields 11 and d, as four bits. */
  lemma FieldPairAt(u: seq<bool>, pos: nat, d: nat, rest: seq<bool>)
    requires d < 4 && |u| % 8 == 0 && At(u, pos, ToBits(4, 12 + d) + rest)
    requires pos + 4 + 9 <= |u|
    ensures Field(u, pos, 2) == Some(3) && Field(u, pos + 2, 2) == Some(d)
    ensures At(u, pos + 4, rest)
  {
    assert Pow2(2) == 4;
    AtSplit(u, pos, ToBits(4, 12 + d), rest);
    ToBitsSplit(2, 2, 3, d);
    AtSplit(u, pos, ToBits(2, 3), ToBits(2, d));
    FieldAt(u, pos, 2, 3);
    FieldAt(u, pos + 2, 2, d);
  }

  lemma ReadLengthAt(u: seq<bool>, pos: nat, length: nat)
    requires 2 <= length <= 0xffff
    requires |u| % 8 == 0 && At(u, pos, LengthBits(length)) && pos + |LengthBits(length)| + 9 <= |u|
    ensures ReadLength(u, pos) == Some((length, pos + |LengthBits(length)|))
  {
    if length < 5 {
      assert Pow2(2) == 4;
      FieldAt(u, pos, 2, length - 2);
    } else if length < 8 {
      assert LengthBits(length) == ToBits(4, 12 + (length - 5)) + [];
      FieldPairAt(u, pos, length - 5, []);
    } else {
      RunNibble(length + 7);
      FieldPairAt(u, pos, 3, RunBits(length - 8));
      ReadRunAt(u, pos + 4, length - 8, 8);
    }
  }

  /** The long form of an offset: 9 bits, then its low nibble. */
  lemma LongOffsetAt(u: seq<bool>, pos: nat, offset: nat)
    requires 0x80 <= offset < MAX_HISTORY
    requires |u| % 8 == 0 && At(u, pos, ToBits(13, 0x1000 + offset)) && pos + 13 + 9 <= |u|
    ensures Field(u, pos, 9) == Some(0x100 + offset / 16)
    ensures Field(u, pos + 9, 4) == Some(offset % 16)
  {
    Pow2Values();
    ToBitsSplit(9, 4, 0x100 + offset / 16, offset % 16);
    AtSplit(u, pos, ToBits(9, 0x100 + offset / 16), ToBits(4, offset % 16));
    FieldAt(u, pos, 9, 0x100 + offset / 16);
    FieldAt(u, pos + 9, 4, offset % 16);
  }

  lemma ReadTokenAt(u: seq<bool>, pos: nat, t: Token)
    requires Encodable(t)
    requires |u| % 8 == 0 && At(u, pos, TokenBits(t)) && pos + |TokenBits(t)| + 9 <= |u|
    ensures ReadToken(u, pos) == Got(t, pos + |TokenBits(t)|)
  {
    hide Field, At, ToBits, Value, ReadLength, LengthBits, Pow2;
    Pow2Values();
    match t
    case Literal(b) =>
      FieldAt(u, pos, 9, b);
    case Copy(offset, length) =>
      AtSplit(u, pos, OffsetBits(offset), LengthBits(length));
      ReadLengthAt(u, pos + |OffsetBits(offset)|, length);
      if offset < 0x80 {
        FieldAt(u, pos, 9, 0x180 + offset);
        assert (0x180 + offset) % 0x80 == offset;
      } else {
        LongOffsetAt(u, pos, offset);
        assert (0x100 + offset / 16) % 0x80 == offset / 16;
      }
  }

  lemma ReadEndAt(u: seq<bool>, pos: nat)
    requires |u| % 8 == 0 && At(u, pos, ToBits(9, 0x180))
    ensures ReadToken(u, pos) == End
  {
    Pow2Values();
    FieldAt(u, pos, 9, 0x180);
  }

  lemma {:induction false} DecodeStream(u: seq<bool>, pos: nat, ts: seq<Token>, out: seq<byte>, cap: nat)
    requires forall t :: t in ts ==> Encodable(t)
    requires |u| % 8 == 0 && At(u, pos, StreamBits(ts) + ToBits(9, 0x180))
    requires AllApply(out, ts) && |ApplyAll(out, ts)| <= cap
    ensures Decode(u, pos, out, cap) == Done(ApplyAll(out, ts))
    decreases |ts|
  {
    hide ReadToken, TokenBits, ToBits, Value;
    if ts == [] {
      assert StreamBits(ts) + ToBits(9, 0x180) == ToBits(9, 0x180);
      ReadEndAt(u, pos);
    } else {
      var b := StreamBits(ts[1..]) + ToBits(9, 0x180);
      assert StreamBits(ts) + ToBits(9, 0x180) == TokenBits(ts[0]) + b;
      AtSplit(u, pos, TokenBits(ts[0]), b);
      ReadTokenAt(u, pos, ts[0]);
      var next := pos + |TokenBits(ts[0])|;
      assert At(u, next, b);
      DecodeStream(u, next, ts[1..], Apply(out, ts[0]), cap);
    }
  }

  /** Encode, pack into bytes, unpack, decode: the tokens' data comes back. */
  lemma PackedStreamDecodes(ts: seq<Token>, cap: nat)
    requires forall t :: t in ts ==> Encodable(t)
    requires AllApply([], ts) && |ApplyAll([], ts)| <= cap
    ensures Decode(Unpack(Pack(StreamBits(ts) + Trailer())), 0, [], cap) == Done(ApplyAll([], ts))
  {
    hide Decode, ApplyAll, AllApply, StreamBits, Unpack, Pack, ToBits, Value;
    Pow2Values();
    var b := StreamBits(ts) + Trailer();
    var u := Unpack(Pack(b));
    UnpackPack(b);
    ToBitsSplit(9, 7, 0x180, 0);
    var c := StreamBits(ts) + ToBits(9, 0x180);
    assert b == c + ToBits(7, 0);
    assert u[0..|c|] == c;
    DecodeStream(u, 0, ts, [], cap);
  }
}
