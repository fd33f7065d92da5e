/**
 lzs_decompress: the hand-optimised bit reader GET_BITS and the decoder loop,
 proved against the reference decoder of LzsFormat.
 */
module LzsDecompress {
  import opened Wrappers
  import opened Bits
  import opened LzsFormat

  /** A field inside an 8-bit value. */
  lemma SubField(x: byte, s: nat, k: nat)
    requires s + k <= 8
    ensures Value(ToBits(8, x)[s..s + k]) == Low(Shr(x, 8 - s - k), k)
  {
    var b := ToBits(8, x);
    var c := b[..s + k];
    assert Value(c) == Shr(x, 8 - s - k) by { Pow2Values(); FieldSplit(8, x, s + k); }
    assert c == c[..s] + c[s..] && b[s..s + k] == c[s..];
    ValueConcat(c[..s], c[s..]);
    DivModUnique(Value(c), Pow2(k), Value(c[..s]), Value(c[s..]));
  }

  /** The bits of the byte x stand at i. */
  ghost predicate ByteAt(u: seq<bool>, i: nat, x: byte) {
    i + 8 <= |u| && u[i..i + 8] == ToBits(8, x)
  }

  lemma ByteSlice(u: seq<bool>, i: nat, x: byte, s: nat, t: nat)
    requires ByteAt(u, i, x) && s <= t <= 8
    ensures u[i + s..i + t] == ToBits(8, x)[s..t]
  {
    var b := u[i..i + 8];
    assert forall k :: 0 <= k < t - s ==> u[i + s..i + t][k] == b[s..t][k];
  }

  /** The last bits of byte x, then the first bits of byte y. */
  lemma JoinFields(x: byte, y: byte, left: nat, more: nat)
    requires 1 <= left <= 8 && more <= 8
    ensures Value(ToBits(8, x)[8 - left..8] + ToBits(8, y)[0..more])
         == BitOr(Low(Shl32(x, more), left + more), Shr(y, 8 - more))
  {
    hide Value, ToBits, BitOr;
    var a, b := ToBits(8, x)[8 - left..8], ToBits(8, y)[0..more];
    ValueConcat(a, b);
    assert Value(a) == x % Pow2(left) by {
      SubField(x, 8 - left, left);
      assert Pow2(0) == 1;
    }
    assert Value(b) == Shr(y, 8 - more) < Pow2(more) by {
      SubField(y, 0, more);
      ShrSmall(y, 8 - more);
    }
    assert Low(Shl32(x, more), left + more) == Value(a) * Pow2(more) by {
      NoOverflow(x, more);
      ShiftThenMask(x, left, more);
    }
    BitOrAdds(Value(a), Value(b), more);
  }

  /** A field that takes the bits left in one byte and goes on into the next. */
  lemma CrossField(u: seq<bool>, i: nat, x: byte, y: byte, left: nat, bits: nat)
    requires ByteAt(u, i, x) && ByteAt(u, i + 8, y)
    requires 1 <= left <= 8 && left < bits <= left + 8
    ensures Value(u[i + 8 - left..i + 8 - left + bits])
         == BitOr(Low(Shl32(x, bits - left), bits), Shr(y, left + 8 - bits))
  {
    var more := bits - left;
    var lo, mid, hi := i + 8 - left, i + 8, i + 8 + more;
    ByteSlice(u, i, x, 8 - left, 8);
    ByteSlice(u, mid, y, 0, more);
    assert u[lo..hi] == u[lo..mid] + u[mid..hi];
    JoinFields(x, y, left, more);
  }

  /** A field inside one byte. */
  lemma InnerField(u: seq<bool>, i: nat, x: byte, left: nat, bits: nat)
    requires ByteAt(u, i, x) && bits <= left <= 8
    ensures Value(u[i + 8 - left..i + 8 - left + bits]) == Low(Shr(x, left - bits), bits)
    ensures bits == left ==> Low(Shr(x, left - bits), bits) == Low(Shl32(x, 0), bits)
  {
    assert Pow2(0) == 1;
    hide Value, ToBits, Pow2, Low;
    ByteSlice(u, i, x, 8 - left, 8 - left + bits);
    SubField(x, 8 - left, bits);
    NoOverflow(x, 0);
  }

  lemma ShrSmall(x: byte, k: nat)
    requires k <= 8
    ensures Shr(x, k) < Pow2(8 - k)
    ensures Low(Shr(x, k), 8 - k) == Shr(x, k)
  {
    Pow2Values();
    FieldSplit(8, x, 8 - k);
    SmallMod(Shr(x, k), Pow2(8 - k));
  }

  lemma NoOverflow(x: byte, k: nat)
    requires k <= 8
    ensures Shl32(x, k) == x * Pow2(k)
  {
    hide Pow2;
    Pow2Values();
    Pow2Add(k, 8 - k);
    assert Pow2(k) <= 256 by { MulStepLe(1, Pow2(8 - k), Pow2(k)); }
    MulStepLe(x, 255, Pow2(k));
    SmallMod(x * Pow2(k), 0x1_0000_0000);
  }

  /** What GET_BITS assembles from the byte under the pointer and the one after
      it is the field at the current bit position. */
  lemma FieldInBytes(u: seq<bool>, at: nat, x: byte, y: byte, left: nat, bits: nat)
    requires 1 <= left <= 8 && 1 <= bits <= 9
    requires |u| % 8 == 0 && ByteAt(u, 8 * at, x) && ByteAt(u, 8 * at + 8, y)
    ensures bits > left ==> Field(u, 8 * at + 8 - left, bits)
                            == Some(BitOr(Low(Shl32(x, bits - left), bits), Shr(y, left + 8 - bits)))
    ensures bits <= left ==> Field(u, 8 * at + 8 - left, bits) == Some(Low(Shr(x, left - bits), bits))
    ensures bits == left ==> Field(u, 8 * at + 8 - left, bits) == Some(Low(Shl32(x, 0), bits))
  {
    assert CanRead(u, 8 * at + 8 - left);
    if bits > left {
      CrossField(u, 8 * at, x, y, left, bits);
    } else {
      InnerField(u, 8 * at, x, left, bits);
    }
  }

  /** The reader's state: the input pointer, the bytes from it on, and the bits
      of the byte under it that are still unread. */
  class BitSource {
    const src: seq<byte>
    var at: nat
    var srclen: nat
    var bitsLeft: nat

    constructor (src: seq<byte>)
      ensures this.src == src && Valid() && Pos() == 0
    {
      this.src, at, srclen, bitsLeft := src, 0, |src|, 8;
    }

    ghost predicate Valid()
      reads this
    {
      at + srclen == |src| && 1 <= bitsLeft <= 8
    }

    /** The next bit to read. */
    ghost function Pos(): (p: int)
      reads this
    {
      8 * at + 8 - bitsLeft
    }

    /** GET_BITS: the next `bits` bits, refused when fewer than two bytes are left. */
    method Get(bits: nat) returns (ok: bool, data: nat)
      requires Valid() && 1 <= bits <= 9
      modifies this
      ensures Valid()
      ensures (if ok then Some(data) else None) == Field(Unpack(src), old(Pos()), bits)
      ensures Pos() == old(Pos()) + (if ok then bits else 0)
    {
      if srclen < 2 {
        return false, 0;
      }
      ok := true;
      UnpackAt(src, at);
      UnpackAt(src, at + 1);
      FieldInBytes(Unpack(src), at, src[at], src[at + 1], bitsLeft, bits);
      if bits >= 8 || bits >= bitsLeft {
        data := Low(Shl32(src[at], bits - bitsLeft), bits);
        at, srclen := at + 1, srclen - 1;
        bitsLeft := bitsLeft + 8 - bits;
        if bits > 8 || bitsLeft < 8 {
          data := BitOr(data, Shr(src[at], bitsLeft));
          if bits > 8 && bitsLeft == 0 {
            bitsLeft := 8;
            at, srclen := at + 1, srclen - 1;
          }
        }
      } else {
        data := Low(Shr(src[at], bitsLeft - bits), bits);
        bitsLeft := bitsLeft - bits;
      }
    }
  }

  /** The length of a copy token. */
  method GetLength(s: BitSource) returns (ok: bool, length: nat)
    requires s.Valid()
    modifies s
    ensures s.Valid()
    ensures var r := ReadLength(Unpack(s.src), old(s.Pos()));
            if ok then r == Some((length, s.Pos())) else r == None
  {
    hide Unpack, Value;
    length := 0;
    var data;
    ok, data := s.Get(2);
    if !ok { return; }
    if data != 3 {
      length := data + 2;
    } else {
      ok, data := s.Get(2);
      if !ok { return; }
      if data != 3 {
        length := data + 5;
      } else {
        length := 8;
        while true
          invariant s.Valid() && length <= 0xffff
          invariant ReadLength(Unpack(s.src), old(s.Pos())) == ReadRun(Unpack(s.src), s.Pos(), length)
          decreases 8 * |s.src| - s.Pos()
        {
          ok, data := s.Get(4);
          if !ok { return; }
          if data != 15 {
            length := (length + data) % 0x1_0000;
            return;
          }
          length := (length + 15) % 0x1_0000;
        }
      }
    }
  }

  /** What is left of a copy token once its first 9 bits have given data. */
  method GetCopy(s: BitSource, data: nat) returns (ok: bool, offset: nat, length: nat)
    requires s.Valid() && s.Pos() >= 9 && 0x100 <= data < 0x200
    modifies s
    ensures s.Valid()
    ensures ReadCopy(Unpack(s.src), old(s.Pos()) - 9, data) ==
            if ok then Got(Copy(offset, length), s.Pos()) else Truncated
  {
    length := 0;
    offset := data % 0x80;
    if data < 0x180 {
      var low;
      ok, low := s.Get(4);
      if !ok { return; }
      assert Pow2(4) == 16;
      BitOrAdds(offset, low, 4);
      offset := BitOr(offset * 16, low);
    }
    ok, length := GetLength(s);
  }

  /** The byte-by-byte copy, which may read what it has just written. */
  method CopyMatch(dst: array<byte>, outlen: nat, offset: nat, length: nat) returns (end: nat)
    requires 1 <= offset <= outlen && outlen + length <= dst.Length
    modifies dst
    ensures end == outlen + length
    ensures dst[..end] == CopyOnto(old(dst[..outlen]), offset, length)
    ensures dst[end..] == old(dst[end..])
  {
    end := outlen;
    var left := length;
    while left > 0
      invariant end + left == outlen + length
      invariant outlen <= end
      invariant CopyOnto(dst[..end], offset, left) == CopyOnto(old(dst[..outlen]), offset, length)
      invariant forall k :: end <= k < dst.Length ==> dst[k] == old(dst[k])
    {
      ghost var before := dst[..end];
      dst[end] := dst[end - offset];
      assert dst[..end + 1] == before + [before[end - offset]];
      end := end + 1;
      left := left - 1;
    }
  }

  lemma DecodeLiteral(u: seq<bool>, pos: nat, out: seq<byte>, cap: nat, data: byte)
    requires Field(u, pos, 9) == Some(data)
    ensures Decode(u, pos, out, cap) == if |out| >= cap then TooBig else Decode(u, pos + 9, out + [data], cap)
  {
    assert ReadToken(u, pos) == Got(Literal(data), pos + 9);
  }

  /** Reads 9 bits, and while they are a literal, writes it and reads on. The
      outcome is that of the whole stream, or the stream decodes to what it
      decodes to from the 9 bits read last. */
  method TakeLiterals(s: BitSource, dst: array<byte>, dstlen: nat, start: nat)
    returns (err: int, outlen: nat, data: nat)
    requires s.Valid() && start <= dstlen <= dst.Length
    modifies s, dst
    ensures s.Valid() && dst[dstlen..] == old(dst[dstlen..])
    ensures err == -EINVAL || err == -EFBIG || err == 0
    ensures err == -EINVAL ==> Decode(Unpack(s.src), old(s.Pos()), old(dst[..start]), dstlen) == Invalid
    ensures err == -EFBIG ==> Decode(Unpack(s.src), old(s.Pos()), old(dst[..start]), dstlen) == TooBig
    ensures err == 0 ==> outlen <= dstlen && data >= 0x100 && s.Pos() >= old(s.Pos()) + 9
    ensures err == 0 ==> Field(Unpack(s.src), s.Pos() - 9, 9) == Some(data)
    ensures err == 0 ==> Decode(Unpack(s.src), old(s.Pos()), old(dst[..start]), dstlen)
                         == Decode(Unpack(s.src), s.Pos() - 9, dst[..outlen], dstlen)
  {
    hide Unpack, Value, Pow2, CanRead, Field;
    ghost var u := Unpack(s.src);
    ghost var result := Decode(u, s.Pos(), dst[..start], dstlen);
    outlen := start;
    var ok;
    ok, data := s.Get(9);
    if !ok { return -EINVAL, outlen, data; }
    while data < 0x100
      invariant s.Valid() && outlen <= dstlen
      invariant s.Pos() >= old(s.Pos()) + 9
      invariant dst[dstlen..] == old(dst[dstlen..])
      invariant Field(u, s.Pos() - 9, 9) == Some(data)
      invariant result == Decode(u, s.Pos() - 9, dst[..outlen], dstlen)
      decreases |u| - s.Pos()
    {
      DecodeLiteral(u, s.Pos() - 9, dst[..outlen], dstlen, data);
      if outlen == dstlen { return -EFBIG, outlen, data; }
      dst[outlen] := data;
      outlen := outlen + 1;
      assert dst[..outlen] == dst[..outlen - 1] + [data];
      ok, data := s.Get(9);
      if !ok { return -EINVAL, outlen, data; }
    }
    err := 0;
  }

  /** lzs_decompress agrees with the reference decoder on every input, and writes
      nothing at or beyond dstlen. */
  method Decompress(dst: array<byte>, dstlen: nat, src: seq<byte>) returns (r: int)
    requires dstlen <= dst.Length
    modifies dst
    ensures match Decode(Unpack(src), 0, [], dstlen)
            case Done(data) => r == |data| && |data| <= dstlen && dst[..r] == data
            case Invalid => r == -EINVAL
            case TooBig => r == -EFBIG
    ensures dst[dstlen..] == old(dst[dstlen..])
  {
    hide Unpack, Value, ReadCopy, CopyOnto, Pow2, CanRead, Field;
    var outlen: nat := 0;
    var s := new BitSource(src);
    ghost var u, result := Unpack(src), Decode(Unpack(src), 0, [], dstlen);
    assert dst[..0] == [];
    while true
      invariant fresh(s) && s.Valid() && s.src == src && outlen <= dstlen
      invariant dst[dstlen..] == old(dst[dstlen..])
      invariant result == Decode(u, s.Pos(), dst[..outlen], dstlen)
      decreases |u| - s.Pos()
    {
      var err, data;
      err, outlen, data := TakeLiterals(s, dst, dstlen, outlen);
      if err != 0 { return err; }
      if data == 0x180 { return outlen; }
      assert data < 0x200 by { Pow2Values(); }
      var ok, offset, length := GetCopy(s, data);
      if !ok { return -EINVAL; }
      if offset == 0 || offset > outlen { return -EINVAL; }
      if length + outlen > dstlen { return -EFBIG; }
      assert dst[dstlen..] == dst[outlen + length..][dstlen - outlen - length..];
      outlen := CopyMatch(dst, outlen, offset, length);
      assert dst[dstlen..] == dst[outlen..][dstlen - outlen..];
    }
  }
}
