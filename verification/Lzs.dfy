/**
 What the compressor and the decompressor promise together.
 */
module Lzs {
  import opened Wrappers
  import opened Bits
  import opened LzsFormat
  import opened LzsSearch
  import C = LzsCompress
  import D = LzsDecompress

  /** The decoder's result on the compressor's bytes, for any buffer that can hold
      the input, is the input. */
  lemma RoundTrip(src: seq<byte>, cap: nat)
    requires |src| <= 0x1_0000 && |src| <= cap
    ensures Decode(Unpack(Pack(C.CompressedBits(src))), 0, [], cap) == Done(src)
  {
    ParseFits(src, 0);
    FitApplies(src, 0, Parse(src, 0));
    assert src[..0] == [];
    PackedStreamDecodes(Parse(src, 0), cap);
  }

  /** At most nine bits a byte and the trailer, so a buffer for that many is enough;
      and every bit of the end marker is in a complete byte. */
  lemma CompressedSize(src: seq<byte>)
    requires |src| <= 0x1_0000
    ensures |C.CompressedBits(src)| <= 9 * |src| + 16
    ensures |C.ParseBits(src, 0)| + 9 <= 8 * (|C.CompressedBits(src)| / 8)
  {
    ParseFits(src, 0);
    FitApplies(src, 0, Parse(src, 0));
    StreamBitsSize(src, 0, Parse(src, 0));
  }

  /** The greedy choice: a copy has the longest match of the whole window and, of those,
      the nearest; a literal is taken only if no two bytes match anywhere in it. */
  lemma GreedyChoice(src: seq<byte>, p: nat)
    requires p < |src|
    ensures match Choose(src, p)
      case Copy(o, n) => 2 <= n && n == Lcp(src, p, p - o) && IsLongest(src, p, Window(p), o)
      case Literal(b) => b == src[p] && forall q :: p - Window(p) <= q < p ==> Lcp(src, p, q) < 2
    ensures Window(p) == if p <= 2047 then p else 2047
  {
    hide Lcp, Longest;
    if Window(p) > 0 {
      LongestIsLongest(src, p, Window(p));
    }
  }

  /** Compressing and decompressing in place: whenever the first succeeds, the
      second succeeds and gives back the input; and the first succeeds whenever
      its buffer has room for nine bits a byte and the trailer. */
  method CompressThenDecompress(src: seq<byte>, dst: array<byte>, dstlen: nat, out: array<byte>, outlen: nat)
    returns (n: int, m: int)
    requires dst != out && dstlen <= dst.Length && |src| <= outlen <= out.Length
    modifies dst, out
    ensures n >= 0 ==> n <= dstlen && m == |src| && out[..m] == src
    ensures |src| <= 0x1_0000 && (9 * |src| + 16) / 8 <= dstlen ==> n >= 0
    ensures |src| > 0x1_0000 ==> n == -EFBIG
  {
    m := 0;
    n := C.Compress(dst, dstlen, src);
    if |src| <= 0x1_0000 {
      CompressedSize(src);
    }
    if n >= 0 {
      RoundTrip(src, outlen);
      m := D.Decompress(out, outlen, dst[..n]);
    }
  }
}
