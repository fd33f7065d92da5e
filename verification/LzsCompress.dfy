/**
 lzs_compress: the hash index over the history, the match search that walks it,
 and the loop that emits tokens, proved against the naive parse of LzsSearch.
 */
module LzsCompress {
  import opened Wrappers
  import opened Bits
  import opened LzsFormat
  import opened LzsSearch
  import opened LzsBitSink

  // ---- The bits of the whole output ----

  function ParseBits(src: seq<byte>, p: nat): (b: seq<bool>)
    requires p <= |src| <= 0x1_0000
  {
    ParseFits(src, p);
    FitApplies(src, p, Parse(src, p));
    StreamBits(Parse(src, p))
  }

  function TailBits(src: seq<byte>, p: nat, limit: nat): (b: seq<bool>)
    requires limit <= p <= |src| <= p + 2 && |src| <= 0x1_0000
  {
    TailFits(src, p, limit);
    FitApplies(src, p, Tail(src, p, limit));
    StreamBits(Tail(src, p, limit))
  }

  function CompressedBits(src: seq<byte>): (b: seq<bool>)
    requires |src| <= 0x1_0000
  {
    ParseBits(src, 0) + Trailer()
  }

  /** The bits that follow the token chosen at p. */
  function AfterBits(src: seq<byte>, p: nat): (b: seq<bool>)
    requires p + 2 < |src| <= 0x1_0000
  {
    var t := Choose(src, p);
    var q := p + Width(t);
    if t.Copy? && q + 2 >= |src| then TailBits(src, q, p + 1) else ParseBits(src, q)
  }

  lemma ParseBitsStep(src: seq<byte>, p: nat)
    requires p + 2 < |src| <= 0x1_0000
    ensures Encodable(Choose(src, p))
    ensures ParseBits(src, p) == TokenBits(Choose(src, p)) + AfterBits(src, p)
  {
    hide Choose, Tail, TokenBits, Fits, ApplyAll, AllApply;
    ChooseFits(src, p);
    ParseFits(src, p);
    FitApplies(src, p, Parse(src, p));
    StreamBitsCons(Choose(src, p), Parse(src, p)[1..]);
  }

  lemma ParseBitsEnd(src: seq<byte>, p: nat)
    requires p <= |src| <= 0x1_0000 && p + 2 >= |src|
    ensures ParseBits(src, p) == TailBits(src, p, p)
  {
  }

  lemma AfterBitsCases(src: seq<byte>, p: nat, t: Token, q: nat)
    requires p + 2 < |src| <= 0x1_0000 && t == Choose(src, p) && q == p + Width(t)
    ensures t.Copy? && q + 2 >= |src| ==> AfterBits(src, p) == TailBits(src, q, p + 1)
    ensures !(t.Copy? && q + 2 >= |src|) ==> AfterBits(src, p) == ParseBits(src, q)
  {
    hide ParseBits, TailBits;
  }

  lemma StreamBitsCons(t: Token, ts: seq<Token>)
    requires Encodable(t) && forall x :: x in ts ==> Encodable(x)
    ensures StreamBits([t] + ts) == TokenBits(t) + StreamBits(ts)
  {
    assert ([t] + ts)[1..] == ts;
  }

  // ---- The hash index ----

  /** The two arrays of lzs_compress: the last position of each two-byte value,
      and a ring of links from a position to the one before it with its value. */
  class History {
    const table: array<nat>
    const chain: array<nat>

    /** The ring is not initialised: its first contents are arbitrary. */
    constructor ()
      ensures fresh(table) && fresh(chain)
      ensures forall src: seq<byte> :: Indexes(src, 0)
    {
      table := new nat[0x1_0000](_ => INVALID_OFS);
      chain := new nat[MAX_HISTORY];
    }

    /** The positions before n are indexed, and the ring holds their links as far
        back as MAX_HISTORY. */
    ghost predicate Indexes(src: seq<byte>, n: nat)
      reads this, table, chain
    {
      && (n == 0 || n < |src|)
      && table.Length == 0x1_0000 && chain.Length == MAX_HISTORY
      && (forall h :: 0 <= h < 0x1_0000 ==> table[h] == Last(src, n, h))
      && (forall q :: 0 <= q < n <= q + MAX_HISTORY ==> Linked(src, q))
    }

    ghost predicate Linked(src: seq<byte>, q: nat)
      requires q + 1 < |src| && chain.Length == MAX_HISTORY
      reads chain
    {
      chain[q % MAX_HISTORY] == Last(src, q, Hash(src, q))
    }

    /** Indexes position p; yields the previous position with the same value. */
    method Add(src: seq<byte>, p: nat) returns (hofs: nat)
      requires Indexes(src, p) && p + 1 < |src|
      modifies table, chain
      ensures Indexes(src, p + 1)
      ensures hofs == Last(src, p, Hash(src, p))
    {
      var hash := Hash(src, p);
      hofs := table[hash];
      chain[p % MAX_HISTORY] := hofs;
      table[hash] := p;
      forall q | 0 <= q < p + 1 <= q + MAX_HISTORY
        ensures Linked(src, q)
      {
        assert q < p ==> old(Linked(src, q)) && q % MAX_HISTORY != p % MAX_HISTORY;
      }
    }

    method AddRange(src: seq<byte>, from: nat, to: nat)
      requires Indexes(src, from) && from <= to < |src|
      modifies table, chain
      ensures Indexes(src, to)
    {
      for p := from to to
        invariant Indexes(src, p)
      {
        var _ := Add(src, p);
      }
    }

    /** The positions the search at p visits, from hofs on. */
    ghost function Walk(src: seq<byte>, p: nat, hofs: nat): (w: seq<nat>)
      requires Indexes(src, p + 1) && |src| <= 0x1_0000
      requires hofs == INVALID_OFS || hofs < p
      reads this, table, chain
      decreases if hofs == INVALID_OFS then 0 else hofs + 1
    {
      if hofs == INVALID_OFS || hofs + MAX_HISTORY <= p then []
      else
        assert Linked(src, hofs);
        [hofs] + Walk(src, p, chain[hofs % MAX_HISTORY])
    }

    /** The walk from the last position before n with the value h visits exactly
        the positions less than MAX_HISTORY back that hold h, nearest first. */
    lemma {:induction false} WalkIsExact(src: seq<byte>, p: nat, n: nat, h: nat)
      requires Indexes(src, p + 1) && p + 1 < |src| <= 0x1_0000 && n <= p
      ensures var w := Walk(src, p, Last(src, n, h));
              && (forall q :: q in w <==> 0 <= q < n && p < q + MAX_HISTORY && Hash(src, q) == h)
              && (forall i, j :: 0 <= i < j < |w| ==> w[i] > w[j])
      decreases n
    {
      LastIsLast(src, n, h);
      var q := Last(src, n, h);
      if q != INVALID_OFS && p < q + MAX_HISTORY {
        assert Linked(src, q);
        WalkIsExact(src, p, q, h);
        var w, rest := Walk(src, p, q), Walk(src, p, Last(src, q, h));
        assert w == [q] + rest;
        forall j | 0 < j < |w|
          ensures w[j] < q
        {
          assert w[j] in rest;
        }
      }
    }
  }

  // ---- The match search ----

  lemma {:induction false} LcpIsCommonPrefix(src: seq<byte>, p: nat, q: nat, n: nat)
    requires q < p <= |src|
    ensures n <= Lcp(src, p, q) <==> p + n <= |src| && src[p..p + n] == src[q..q + n]
    decreases |src| - p
  {
    if n > 0 && p + n <= |src| {
      var a, b := src[p..p + n], src[q..q + n];
      assert a[0] == src[p] && b[0] == src[q];
      LcpIsCommonPrefix(src, p + 1, q + 1, n - 1);
      assert a[1..] == src[p + 1..p + n] && b[1..] == src[q + 1..q + n];
      assert a == [a[0]] + a[1..] && b == [b[0]] + b[1..];
    }
  }

  /** The comparison that decides whether q is worth extending: with two bytes
      known to match, it holds exactly when the match is longer than len. */
  lemma FilterIsExact(src: seq<byte>, p: nat, q: nat, len: nat)
    requires q < p && 2 <= len && p + len < |src| && Lcp(src, p, q) >= 2
    ensures src[q + 2..q + 1 + len] == src[p + 2..p + 1 + len] <==> Lcp(src, p, q) > len
  {
    LcpIsCommonPrefix(src, p, q, 2);
    LcpIsCommonPrefix(src, p, q, len + 1);
    assert src[p..p + len + 1] == src[p..p + 2] + src[p + 2..p + 1 + len];
    assert src[q..q + len + 1] == src[q..q + 2] + src[q + 2..q + 1 + len];
    assert src[p..p + len + 1][2..] == src[p + 2..p + 1 + len];
    assert src[q..q + len + 1][2..] == src[q + 2..q + 1 + len];
  }

  lemma LcpAtEnd(src: seq<byte>, p: nat, q: nat, n: nat)
    requires q < p && p + n < |src| && n <= Lcp(src, p, q)
    ensures src[p + n] == src[q + n] <==> n < Lcp(src, p, q)
  {
    LcpIsCommonPrefix(src, p, q, n);
    LcpIsCommonPrefix(src, p, q, n + 1);
    assert src[p..p + n + 1] == src[p..p + n] + [src[p + n]];
    assert src[q..q + n + 1] == src[q..q + n] + [src[q + n]];
  }

  /** Among the positions q with from <= q < p, ofs is the nearest with the longest
      common prefix, which has length len. */
  ghost predicate Searched(src: seq<byte>, p: nat, from: nat, ofs: nat, len: nat)
    requires ofs < p <= |src|
  {
    forall q :: from <= q < p ==> Lcp(src, p, q) <= len && (q > ofs ==> Lcp(src, p, q) < len)
  }

  lemma SearchedIsChosen(src: seq<byte>, p: nat, from: nat, ofs: nat, len: nat)
    requires ofs < p < |src| && p < ofs + MAX_HISTORY && from <= p - Window(p)
    requires Searched(src, p, from, ofs, len) && len == Lcp(src, p, ofs) >= 2
    ensures Choose(src, p) == Copy(p - ofs, len)
  {
    LongestIsUnique(src, p, Window(p), p - ofs);
  }

  /** Where the chain goes on after q, the positions passed over match fewer than
      two bytes. */
  lemma SearchedPast(src: seq<byte>, p: nat, q: nat, ofs: nat, len: nat)
    requires q <= p && ofs < p && p + 1 < |src| <= 0x1_0000 && 2 <= len
    requires Searched(src, p, q, ofs, len)
    ensures var next := Last(src, q, Hash(src, p));
            Searched(src, p, if next == INVALID_OFS then 0 else next + 1, ofs, len)
  {
    LastIsLast(src, q, Hash(src, p));
    var next := Last(src, q, Hash(src, p));
    forall r | (if next == INVALID_OFS then 0 else next + 1) <= r < q
      ensures Lcp(src, p, r) < 2
    {
      HashIsPrefix(src, p, r);
    }
  }

  /** Extends a match of more than len bytes at hofs to its full length. */
  method Extend(src: seq<byte>, inpos: nat, hofs: nat, start: nat) returns (len: nat)
    requires hofs < inpos <= |src| && start < Lcp(src, inpos, hofs)
    ensures len == Lcp(src, inpos, hofs)
  {
    len := start;
    while true
      invariant len < Lcp(src, inpos, hofs)
      decreases |src| - len
    {
      len := len + 1;
      if len + inpos == |src| { return; }
      LcpAtEnd(src, inpos, hofs, len);
      if src[len + inpos] != src[len + hofs] { return; }
    }
  }

  /** The walk of the chain finds the greedy choice at inpos. */
  method FindMatch(src: seq<byte>, inpos: nat, first: nat, history: History) returns (ofs: nat, len: nat)
    requires inpos + 2 < |src| <= 0x1_0000
    requires history.Indexes(src, inpos + 1)
    requires first == Last(src, inpos, Hash(src, inpos))
    requires first != INVALID_OFS && first + MAX_HISTORY > inpos
    ensures ofs < inpos && Choose(src, inpos) == Copy(inpos - ofs, len)
  {
    len, ofs := 2, first;
    var hofs: nat := first;
    LastIsLast(src, inpos, Hash(src, inpos));
    HashIsPrefix(src, inpos, first);
    SearchedPast(src, inpos, inpos, first, 2);
    while hofs != INVALID_OFS && hofs + MAX_HISTORY > inpos
      invariant ofs < inpos < ofs + MAX_HISTORY
      invariant hofs != INVALID_OFS ==> hofs <= ofs && Hash(src, hofs) == Hash(src, inpos)
      invariant 2 <= len <= Lcp(src, inpos, ofs) && inpos + len < |src|
      invariant len == Lcp(src, inpos, ofs) || (len == 2 && ofs == hofs)
      invariant Searched(src, inpos, if hofs == INVALID_OFS then 0 else hofs + 1, ofs, len)
      decreases if hofs == INVALID_OFS then 0 else hofs + 1
    {
      HashIsPrefix(src, inpos, hofs);
      FilterIsExact(src, inpos, hofs, len);
      if src[hofs + 2..hofs + 1 + len] == src[inpos + 2..inpos + 1 + len] {
        ofs := hofs;
        len := Extend(src, inpos, hofs, len);
        if len + inpos == |src| {
          SearchedIsChosen(src, inpos, 0, ofs, len);
          return;
        }
      }
      SearchedPast(src, inpos, hofs, ofs, len);
      LastIsLast(src, hofs, Hash(src, inpos));
      assert history.Linked(src, hofs);
      hofs := history.chain[hofs % MAX_HISTORY];
    }
    SearchedIsChosen(src, inpos, if hofs == INVALID_OFS then 0 else hofs + 1, ofs, len);
  }

  // ---- Emitting tokens ----

  /** The offset and length fields of a copy token. */
  method PutCopy(sink: BitSink, offset: nat, length: nat) returns (ok: bool)
    requires sink.Valid() && Encodable(Copy(offset, length))
    modifies sink, sink.dst
    ensures ok <==> (|old(sink.Stream())| + |TokenBits(Copy(offset, length))|) / 8 <= sink.dstlen
    ensures ok ==> sink.Valid() && sink.Stream() == old(sink.Stream()) + TokenBits(Copy(offset, length))
    ensures sink.dst[sink.dstlen..] == old(sink.dst[sink.dstlen..])
  {
    hide ToBits, LengthBits, Pack, Value, BitOr, Pow2;
    Pow2Values();
    ghost var before := sink.Stream();
    if offset < 0x80 {
      BitOrAdds(3, offset, 7);
      ok := sink.Put(9, BitOr(0x180, offset));
    } else {
      assert Pow2(11) == 2048 by { Pow2Add(8, 3); }
      BitOrAdds(2, offset, 11);
      ok := sink.Put(13, BitOr(0x1000, offset));
    }
    if !ok { return; }
    ok := PutLength(sink, length);
    assert before + OffsetBits(offset) + LengthBits(length) == before + TokenBits(Copy(offset, length));
  }

  method PutLength(sink: BitSink, length: nat) returns (ok: bool)
    requires sink.Valid() && 2 <= length
    modifies sink, sink.dst
    ensures ok <==> (|old(sink.Stream())| + |LengthBits(length)|) / 8 <= sink.dstlen
    ensures ok ==> sink.Valid() && sink.Stream() == old(sink.Stream()) + LengthBits(length)
    ensures sink.dst[sink.dstlen..] == old(sink.dst[sink.dstlen..])
  {
    hide ToBits, Pack, Value, Pow2;
    Pow2Values();
    if length < 5 {
      ok := sink.Put(2, length - 2);
    } else if length < 8 {
      ok := sink.Put(4, length + 7);
    } else {
      var left := length + 7;
      ghost var goal := sink.Stream() + RunBits(left);
      while left >= 30
        invariant sink.Valid() && goal == sink.Stream() + RunBits(left)
        invariant sink.dst[sink.dstlen..] == old(sink.dst[sink.dstlen..])
      {
        ghost var b := sink.Stream();
        assert goal == b + ToBits(8, 0xff) + RunBits(left - 30);
        ok := sink.Put(8, 0xff);
        if !ok { return; }
        left := left - 30;
      }
      if left >= 15 {
        ok := sink.Put(8, 0xf0 + left - 15);
      } else {
        ok := sink.Put(4, left);
      }
    }
  }

  // ---- The compressor ----

  /** The output so far, followed by rest, is the whole parse. */
  ghost predicate Remaining(sink: BitSink, src: seq<byte>, rest: seq<bool>)
    requires |src| <= 0x1_0000
    reads sink
  {
    ParseBits(src, 0) == sink.Stream() + rest
  }

  lemma Regroup(s: seq<bool>, t: seq<bool>, a: seq<bool>)
    ensures s + (t + a) == (s + t) + a
  {
  }

  method PutToken(sink: BitSink, t: Token) returns (ok: bool)
    requires sink.Valid() && Encodable(t)
    modifies sink, sink.dst
    ensures ok <==> (|old(sink.Stream())| + |TokenBits(t)|) / 8 <= sink.dstlen
    ensures ok ==> sink.Valid() && sink.Stream() == old(sink.Stream()) + TokenBits(t)
    ensures sink.dst[sink.dstlen..] == old(sink.dst[sink.dstlen..])
  {
    match t
    case Literal(b) =>
      Pow2Values();
      ok := sink.Put(9, b);
    case Copy(offset, length) =>
      ok := PutCopy(sink, offset, length);
  }

  /** The output after one more token, which either fits or shows that the whole
      output does not. */
  method PutNext(sink: BitSink, ghost src: seq<byte>, t: Token, ghost rest: seq<bool>) returns (ok: bool)
    requires sink.Valid() && Encodable(t) && |src| <= 0x1_0000
    requires Remaining(sink, src, TokenBits(t) + rest)
    modifies sink, sink.dst
    ensures !ok ==> |ParseBits(src, 0)| / 8 > sink.dstlen
    ensures ok ==> sink.Valid() && Remaining(sink, src, rest)
    ensures sink.dst[sink.dstlen..] == old(sink.dst[sink.dstlen..])
  {
    Regroup(sink.Stream(), TokenBits(t), rest);
    ok := PutToken(sink, t);
  }

  lemma LiteralIsChosen(src: seq<byte>, p: nat)
    requires p + 2 < |src| <= 0x1_0000
    requires var q := Last(src, p, Hash(src, p)); q == INVALID_OFS || q + MAX_HISTORY <= p
    ensures Choose(src, p) == Literal(src[p])
  {
    hide Lcp, Hash, Last;
    LastIsLast(src, p, Hash(src, p));
    var o := Longest(src, p, Window(p));
    if o > 0 {
      HashIsPrefix(src, p, p - o);
    }
  }

  /** Indexes inpos and finds the greedy choice there. */
  method ChooseToken(history: History, src: seq<byte>, inpos: nat) returns (t: Token)
    requires inpos + 2 < |src| <= 0x1_0000 && history.Indexes(src, inpos)
    modifies history.table, history.chain
    ensures t == Choose(src, inpos) && history.Indexes(src, inpos + 1)
  {
    var hofs := history.Add(src, inpos);
    if hofs == INVALID_OFS || hofs + MAX_HISTORY <= inpos {
      LiteralIsChosen(src, inpos);
      t := Literal(src[inpos]);
    } else {
      var ofs, len := FindMatch(src, inpos, hofs, history);
      t := Copy(inpos - ofs, len);
    }
  }

  method PutChosen(sink: BitSink, src: seq<byte>, inpos: nat, t: Token) returns (ok: bool)
    requires sink.Valid() && inpos + 2 < |src| <= 0x1_0000 && t == Choose(src, inpos)
    requires Remaining(sink, src, ParseBits(src, inpos))
    modifies sink, sink.dst
    ensures sink.dst[sink.dstlen..] == old(sink.dst[sink.dstlen..])
    ensures !ok ==> |ParseBits(src, 0)| / 8 > sink.dstlen
    ensures ok ==> sink.Valid()
    ensures ok && t.Copy? && inpos + Width(t) + 2 >= |src| ==>
              Remaining(sink, src, TailBits(src, inpos + Width(t), inpos + 1))
    ensures ok && !(t.Copy? && inpos + Width(t) + 2 >= |src|) ==>
              Remaining(sink, src, ParseBits(src, inpos + Width(t)))
  {
    hide ParseBits, TailBits, AfterBits;
    ParseBitsStep(src, inpos);
    AfterBitsCases(src, inpos, t, inpos + Width(t));
    ok := PutNext(sink, src, t, AfterBits(src, inpos));
  }

  /** The main loop. It ends where at most two bytes are left; limit is how far
      the index got. */
  method EmitBody(sink: BitSink, history: History, src: seq<byte>) returns (ok: bool, inpos: nat, limit: nat)
    requires sink.Valid() && |src| <= 0x1_0000 && history.Indexes(src, 0)
    requires sink.dst as object !in {history.table as object, history.chain}
    requires Remaining(sink, src, ParseBits(src, 0))
    modifies sink, sink.dst, history.table, history.chain
    ensures sink.dst[sink.dstlen..] == old(sink.dst[sink.dstlen..])
    ensures !ok ==> |ParseBits(src, 0)| / 8 > sink.dstlen
    ensures ok ==> sink.Valid() && limit <= inpos <= |src| <= inpos + 2 && history.Indexes(src, limit)
    ensures ok ==> Remaining(sink, src, TailBits(src, inpos, limit))
  {
    hide ParseBits, TailBits, AfterBits, Choose, Remaining, Longest, Lcp;
    ok, inpos, limit := true, 0, 0;
    while inpos + 2 < |src|
      invariant sink.Valid() && inpos <= |src| && history.Indexes(src, inpos)
      invariant Remaining(sink, src, ParseBits(src, inpos))
      invariant limit == inpos
      invariant sink.dst[sink.dstlen..] == old(sink.dst[sink.dstlen..])
    {
      var t := ChooseToken(history, src, inpos);
      ok := PutChosen(sink, src, inpos, t);
      if !ok { return; }
      limit := inpos + 1;
      inpos := inpos + Width(t);
      if t.Copy? && inpos + 2 >= |src| { return; }
      history.AddRange(src, limit, inpos);
      limit := inpos;
    }
    ParseBitsEnd(src, inpos);
  }

  /** The two-byte, one-byte and empty endings. */
  method EmitTail(sink: BitSink, history: History, src: seq<byte>, inpos: nat, limit: nat) returns (ok: bool)
    requires sink.Valid() && limit <= inpos <= |src| <= inpos + 2 && |src| <= 0x1_0000
    requires history.Indexes(src, limit)
    requires sink.dst as object !in {history.table as object, history.chain}
    requires Remaining(sink, src, TailBits(src, inpos, limit))
    modifies sink, sink.dst
    ensures sink.dst[sink.dstlen..] == old(sink.dst[sink.dstlen..])
    ensures !ok ==> |ParseBits(src, 0)| / 8 > sink.dstlen
    ensures ok ==> sink.Valid() && Remaining(sink, src, [])
  {
    hide ToBits, Pack, Last, TokenBits;
    ok := true;
    if inpos + 2 == |src| {
      var hofs := history.table[Hash(src, inpos)];
      LastIsLast(src, limit, Hash(src, inpos));
      if hofs != INVALID_OFS && hofs + MAX_HISTORY > inpos {
        StreamBitsCons(Copy(inpos - hofs, 2), []);
        assert Tail(src, inpos, limit) == [Copy(inpos - hofs, 2)] + [];
        ok := PutNext(sink, src, Copy(inpos - hofs, 2), []);
      } else {
        var a, b := Literal(src[inpos]), Literal(src[inpos + 1]);
        StreamBitsCons(a, [b]);
        StreamBitsCons(b, []);
        assert Tail(src, inpos, limit) == [a] + [b] && [b] == [b] + [];
        ok := PutNext(sink, src, a, StreamBits([b]));
        if !ok { return; }
        ok := PutNext(sink, src, b, []);
      }
    } else if inpos + 1 == |src| {
      StreamBitsCons(Literal(src[inpos]), []);
      assert Tail(src, inpos, limit) == [Literal(src[inpos])] + [];
      ok := PutNext(sink, src, Literal(src[inpos]), []);
    }
  }

  /** lzs_compress emits exactly the naive parse's bits and the trailer, and gives
      up exactly when the input is too long or the complete bytes do not fit. */
  method Compress(dst: array<byte>, dstlen: nat, src: seq<byte>) returns (r: int)
    requires dstlen <= dst.Length
    modifies dst
    ensures |src| > 0x1_0000 ==> r == -EFBIG
    ensures |src| <= 0x1_0000 && |CompressedBits(src)| / 8 > dstlen ==> r == -EFBIG
    ensures |src| <= 0x1_0000 && |CompressedBits(src)| / 8 <= dstlen ==>
              r == |CompressedBits(src)| / 8 && dst[..r] == Pack(CompressedBits(src))
    ensures dst[dstlen..] == old(dst[dstlen..])
  {
    hide Parse, ToBits, Pack, Tail;
    if |src| > INVALID_OFS + 1 { return -EFBIG; }
    var history := new History();
    var sink := new BitSink(dst, dstlen);
    assert [] + ParseBits(src, 0) == ParseBits(src, 0);
    var ok, inpos, limit := EmitBody(sink, history, src);
    if !ok { return -EFBIG; }
    ok := EmitTail(sink, history, src, inpos, limit);
    if !ok { return -EFBIG; }
    Pow2Values();
    assert sink.Stream() + [] == sink.Stream();
    ok := sink.Put(16, 0xc000);
    if !ok { return -EFBIG; }
    sink.Written();
    return sink.outpos;
  }
}
