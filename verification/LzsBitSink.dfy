/**
 PUT_BITS: the bit writer of lzs_compress, a 32-bit accumulator flushed into
 the output buffer a byte at a time.
 */
module LzsBitSink {
  import opened Wrappers
  import opened Bits

  /** The low bits of a word do not see what is cut off above them. */
  lemma {:induction false} ToBitsMod(n: nat, w: nat, m: nat)
    requires n <= m
    ensures ToBits(n, w % Pow2(m)) == ToBits(n, w)
  {
    if n > 0 {
      ModDouble(w, Pow2(m - 1));
      ToBitsMod(n - 1, w / 2, m - 1);
      ToBitsLast(n, w);
      ToBitsLast(n, w % Pow2(m));
    }
  }

  /** A right shift drops the low bits. */
  lemma {:induction false} ToBitsShr(n: nat, w: nat, k: nat)
    ensures ToBits(n, Shr(w, k)) == ToBits(n + k, w)[..n]
  {
    if k == 0 {
      assert Pow2(0) == 1;
    } else {
      DivDouble(w, Pow2(k - 1));
      ToBitsShr(n, w / 2, k - 1);
      ToBitsLast(n + k, w);
    }
  }

  /** The low k bits are the last k. */
  lemma {:induction false} ToBitsLow(n: nat, w: nat, k: nat)
    ensures ToBits(k, w) == ToBits(n + k, w)[n..]
  {
    if k > 0 {
      ToBitsLow(n, w / 2, k - 1);
      ToBitsLast(k, w);
      ToBitsLast(n + k, w);
    }
  }

  /** Shifting a field into the accumulator appends it to the low bits, whatever
      falls off the top of the word. */
  lemma PutWord(w: nat, n: nat, nr: nat, bits: nat)
    requires n + nr <= 32 && bits < Pow2(nr)
    ensures ToBits(n + nr, BitOr(Shl32(w, nr), bits)) == ToBits(n, w) + ToBits(nr, bits)
  {
    var a := w % Pow2(32 - nr);
    assert Shl32(w, nr) == a * Pow2(nr) by {
      Pow2Values();
      ShiftThenMask(w, 32 - nr, nr);
    }
    BitOrAdds(a, bits, nr);
    ToBitsSplit(n, nr, a, bits);
    ToBitsMod(n, w, 32 - nr);
  }

  /** The byte taken from the top of n + 8 pending bits, and what stays pending. */
  lemma TopByte(w: nat, n: nat)
    ensures Low(Shr(w, n), 8) == Value(ToBits(n + 8, w)[..8])
    ensures ToBits(n, w) == ToBits(n + 8, w)[8..]
  {
    ToBitsShr(8, w, n);
    ValueToBits(8, Shr(w, n));
    ToBitsLow(8, w, n);
  }

  class BitSink {
    const dst: array<byte>
    const dstlen: nat
    var outpos: nat
    var outbits: nat
    var nrOutbits: nat
    ghost var flushed: seq<bool>
    ghost var pending: seq<bool>

    constructor (dst: array<byte>, dstlen: nat)
      requires dstlen <= dst.Length
      ensures this.dst == dst && this.dstlen == dstlen && Valid() && Stream() == []
    {
      this.dst, this.dstlen := dst, dstlen;
      outpos, outbits, nrOutbits, flushed, pending := 0, 0, 0, [], [];
    }

    /** Every bit put so far. */
    ghost function Stream(): (b: seq<bool>)
      reads this
    {
      flushed + pending
    }

    /** The bytes written are the flushed bits, the accumulator ends in the pending ones. */
    ghost predicate Holds()
      reads this, dst
    {
      && outpos <= dstlen <= dst.Length
      && |flushed| == 8 * outpos && dst[..outpos] == Pack(flushed)
      && pending == ToBits(nrOutbits, outbits)
    }

    ghost predicate Valid()
      reads this, dst
    {
      Holds() && nrOutbits < 8
    }

    lemma Written()
      requires Valid()
      ensures outpos == |Stream()| / 8 && dst[..outpos] == Pack(Stream())
    {
      PackTail(flushed, pending);
    }

    /** Moves the top eight pending bits to the buffer, if it has room. */
    method Flush() returns (ok: bool)
      requires Holds() && nrOutbits >= 8
      modifies this`outpos, this`nrOutbits, this`flushed, this`pending, dst
      ensures ok <==> old(outpos) < dstlen
      ensures ok ==> Holds() && nrOutbits == old(nrOutbits) - 8 && outpos == old(outpos) + 1
      ensures Stream() == old(Stream())
      ensures dst[dstlen..] == old(dst[dstlen..])
    {
      TopByte(outbits, nrOutbits - 8);
      assert ToBits(nrOutbits, outbits) == ToBits(nrOutbits - 8 + 8, outbits);
      nrOutbits := nrOutbits - 8;
      if outpos == dstlen { return false; }
      PackStep(flushed, pending[..8]);
      dst[outpos] := Low(Shr(outbits, nrOutbits), 8);
      assert dst[..outpos + 1] == dst[..outpos] + [dst[outpos]];
      outpos := outpos + 1;
      flushed, pending := flushed + pending[..8], pending[8..];
      assert Stream() == old(Stream());
      ok := true;
    }

    /** PUT_BITS: appends exactly nr bits, most significant first; fails only for
        want of room. */
    method Put(nr: nat, bits: nat) returns (ok: bool)
      requires Valid() && nr <= 16 && bits < Pow2(nr)
      modifies this, dst
      ensures ok <==> (|old(Stream())| + nr) / 8 <= dstlen
      ensures ok ==> Valid()
      ensures Stream() == old(Stream()) + ToBits(nr, bits)
      ensures dst[dstlen..] == old(dst[dstlen..])
    {
      PutWord(outbits, nrOutbits, nr, bits);
      outbits := BitOr(Shl32(outbits, nr), bits);
      nrOutbits := nrOutbits + nr;
      pending := pending + ToBits(nr, bits);
      assert Stream() == old(Stream()) + ToBits(nr, bits);
      ok := true;
      if nr > 8 {
        ok := Flush();
        if !ok { return; }
      }
      if nrOutbits >= 8 {
        ok := Flush();
      }
    }
  }
}
