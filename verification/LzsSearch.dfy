/**
 What lzs_compress chooses to emit, stated without its hash index: a naive
 search over every offset of the history, the greedy parse it gives, and the
 proofs that the parse stands for the input and is short.
 */
module LzsSearch {
  import opened Wrappers
  import opened Bits
  import opened LzsFormat

  // ---- The naive search ----

  /** The length of the common prefix of src[p..] and src[q..]. */
  function Lcp(src: seq<byte>, p: nat, q: nat): (n: nat)
    requires q < p <= |src|
    ensures p + n <= |src|
    decreases |src| - p
  {
    if p == |src| || src[p] != src[q] then 0 else 1 + Lcp(src, p + 1, q + 1)
  }

  /** The nearest of the offsets 1..k at which the common prefix is longest. */
  function Longest(src: seq<byte>, p: nat, k: nat): (o: nat)
    requires k <= p <= |src|
    ensures o <= k && (o == 0 <==> k == 0)
  {
    if k == 0 then 0 else
      var o := Longest(src, p, k - 1);
      if o == 0 || Lcp(src, p, p - k) > Lcp(src, p, p - o) then k else o
  }

  ghost predicate IsLongest(src: seq<byte>, p: nat, k: nat, o: nat)
    requires k <= p <= |src|
  {
    && 1 <= o <= k
    && forall q :: p - k <= q < p ==>
         Lcp(src, p, q) <= Lcp(src, p, p - o) && (q > p - o ==> Lcp(src, p, q) < Lcp(src, p, p - o))
  }

  lemma {:induction false} LongestIsLongest(src: seq<byte>, p: nat, k: nat)
    requires 1 <= k <= p <= |src|
    ensures IsLongest(src, p, k, Longest(src, p, k))
  {
    if k > 1 {
      LongestIsLongest(src, p, k - 1);
    }
  }

  lemma LongestIsUnique(src: seq<byte>, p: nat, k: nat, o: nat)
    requires k <= p <= |src| && IsLongest(src, p, k, o)
    ensures o == Longest(src, p, k)
  {
    LongestIsLongest(src, p, k);
  }

  /** How far back a match may start. */
  function Window(p: nat): (k: nat)
    ensures k <= p && k < MAX_HISTORY
  {
    if p < MAX_HISTORY then p else MAX_HISTORY - 1
  }

  /** The token at p: the nearest longest match if two bytes match, else a literal. */
  function Choose(src: seq<byte>, p: nat): (t: Token)
    requires p < |src|
    ensures t.Copy? ==> 1 <= t.offset <= Window(p) && 2 <= t.length <= |src| - p
  {
    var o := Longest(src, p, Window(p));
    if o > 0 && Lcp(src, p, p - o) >= 2 then Copy(o, Lcp(src, p, p - o)) else Literal(src[p])
  }

  // ---- The history of two-byte values ----

  const INVALID_OFS: nat := 0xffff

  /** The 16-bit value loaded from src + p. */
  function Hash(src: seq<byte>, p: nat): (h: nat)
    requires p + 1 < |src|
    ensures h < 0x1_0000
  {
    src[p] as int + 256 * (src[p + 1] as int)
  }

  /** The last position before p where the two-byte value h starts. */
  function Last(src: seq<byte>, p: nat, h: nat): (q: nat)
    requires p == 0 || p < |src|
    ensures q == INVALID_OFS || q < p
  {
    if p == 0 then INVALID_OFS
    else if Hash(src, p - 1) == h then p - 1
    else Last(src, p - 1, h)
  }

  lemma {:induction false} LastIsLast(src: seq<byte>, p: nat, h: nat)
    requires p < |src| <= 0x1_0000
    ensures var q := Last(src, p, h);
            && (q != INVALID_OFS ==> q < p && Hash(src, q) == h)
            && forall r :: 0 <= r < p && (q != INVALID_OFS ==> q < r) ==> Hash(src, r) != h
  {
    if p > 0 && Hash(src, p - 1) != h {
      LastIsLast(src, p - 1, h);
    }
  }

  /** Equal two-byte values are exactly a common prefix of two or more. */
  lemma HashIsPrefix(src: seq<byte>, p: nat, q: nat)
    requires q < p && p + 1 < |src|
    ensures Hash(src, p) == Hash(src, q) <==> Lcp(src, p, q) >= 2
  {
    if src[p] == src[q] && src[p + 1] == src[q + 1] {
      assert Lcp(src, p, q) == 1 + Lcp(src, p + 1, q + 1);
      assert Lcp(src, p + 1, q + 1) == 1 + Lcp(src, p + 2, q + 2);
    } else if src[p] == src[q] {
      assert Lcp(src, p, q) == 1 + Lcp(src, p + 1, q + 1);
    }
  }

  // ---- The parse ----

  /** How many bytes a token stands for. */
  function Width(t: Token): (n: nat) {
    if t.Literal? then 1 else t.length
  }

  /** The last two bytes or fewer. Only the positions before limit are indexed, so a
      match that starts at limit or later is not seen. */
  function Tail(src: seq<byte>, p: nat, limit: nat): (ts: seq<Token>)
    requires limit <= p <= |src| <= p + 2
  {
    if p + 2 == |src| then
      var q := Last(src, limit, Hash(src, p));
      if q != INVALID_OFS && q + MAX_HISTORY > p then [Copy(p - q, 2)]
      else [Literal(src[p]), Literal(src[p + 1])]
    else if p + 1 == |src| then [Literal(src[p])]
    else []
  }

  function Parse(src: seq<byte>, p: nat): (ts: seq<Token>)
    requires p <= |src| <= 0x1_0000
    decreases |src| - p
  {
    if p + 2 >= |src| then Tail(src, p, p) else
      match Choose(src, p)
      case Literal(b) => [Literal(b)] + Parse(src, p + 1)
      case Copy(o, n) =>
        [Copy(o, n)] + if p + n + 2 >= |src| then Tail(src, p + n, p + 1) else Parse(src, p + n)
  }

  // ---- Where the end of the input is not greedy ----

  /** The greedy choice at every position, up to the end. */
  function Greedy(src: seq<byte>, p: nat): (ts: seq<Token>)
    requires p <= |src|
    decreases |src| - p
  {
    if p == |src| then [] else [Choose(src, p)] + Greedy(src, p + Width(Choose(src, p)))
  }

  /** The last two bytes stand once more at a position from limit on in their window. */
  predicate Unseen(src: seq<byte>, p: nat, limit: nat)
    requires limit <= p && p + 2 == |src|
  {
    exists r :: limit <= r < p && r + MAX_HISTORY > p && Hash(src, r) == Hash(src, p)
  }

  /** With two bytes left the greedy choice is the last position that holds them. */
  lemma ChooseLastTwo(src: seq<byte>, p: nat)
    requires p + 2 == |src| <= 0x1_0000
    ensures var q := Last(src, p, Hash(src, p));
            Choose(src, p) == if q != INVALID_OFS && q + MAX_HISTORY > p then Copy(p - q, 2) else Literal(src[p])
  {
    var h := Hash(src, p);
    LastIsLast(src, p, h);
    forall r | 0 <= r < p
      ensures Lcp(src, p, r) <= 2 && (Hash(src, r) == h <==> Lcp(src, p, r) == 2)
    {
      HashIsPrefix(src, p, r);
    }
    var q := Last(src, p, h);
    if q != INVALID_OFS && q + MAX_HISTORY > p {
      assert Lcp(src, p, q) == 2;
      assert IsLongest(src, p, Window(p), p - q);
      LongestIsUnique(src, p, Window(p), p - q);
    } else if Window(p) > 0 {
      var o := Longest(src, p, Window(p));
      assert Lcp(src, p, p - o) != 2;
    }
  }

  lemma ChooseLastOne(src: seq<byte>, p: nat)
    requires p + 1 == |src|
    ensures Choose(src, p) == Literal(src[p])
  {
  }

  lemma GreedyLastTwo(src: seq<byte>, p: nat)
    requires p + 2 == |src| <= 0x1_0000
    ensures Greedy(src, p) == match Choose(src, p)
                              case Copy(o, n) => [Copy(o, n)]
                              case Literal(b) => [Literal(b), Literal(src[p + 1])]
  {
    hide Choose, Lcp, Longest, Last, Hash;
    ChooseLastTwo(src, p);
    ChooseLastOne(src, p + 1);
    assert Greedy(src, p + 2) == [];
    assert Greedy(src, p + 1) == [Literal(src[p + 1])];
  }

  /** The end is greedy exactly if no match is left out of the index. */
  lemma TailIsGreedy(src: seq<byte>, p: nat, limit: nat)
    requires limit <= p <= |src| <= p + 2 && |src| <= 0x1_0000
    ensures Tail(src, p, limit) == Greedy(src, p) <==> !(p + 2 == |src| && Unseen(src, p, limit))
  {
    if p + 2 == |src| {
      var h := Hash(src, p);
      LastIsLast(src, p, h);
      LastIsLast(src, limit, h);
      ChooseLastTwo(src, p);
      GreedyLastTwo(src, p);
    } else if p + 1 == |src| {
      ChooseLastOne(src, p);
      assert Greedy(src, p + 1) == [];
    }
  }

  /** q is the last position before limit, in the window of p, that holds the two bytes at
      p. */
  predicate IsLastBefore(src: seq<byte>, p: nat, limit: nat, q: nat)
    requires limit <= p && p + 2 == |src|
  {
    && q < limit && q + MAX_HISTORY > p && Hash(src, q) == Hash(src, p)
    && forall r :: q < r < limit ==> Hash(src, r) != Hash(src, p)
  }

  /** What the end gives for two bytes: a copy from such a position, and literals if there
      is none. */
  lemma TailFinds(src: seq<byte>, p: nat, limit: nat, q: nat)
    requires limit <= p && p + 2 == |src| <= 0x1_0000
    ensures IsLastBefore(src, p, limit, q) ==> Tail(src, p, limit) == [Copy(p - q, 2)]
    ensures (forall r :: 0 <= r < limit && r + MAX_HISTORY > p ==> Hash(src, r) != Hash(src, p)) ==>
              Tail(src, p, limit) == [Literal(src[p]), Literal(src[p + 1])]
  {
    hide Hash, Last;
    LastIsLast(src, limit, Hash(src, p));
  }

  /** The parse comes to its last two bytes by a copy in which they stand once more. */
  predicate Misses(src: seq<byte>, p: nat)
    requires p <= |src|
    decreases |src| - p
  {
    p + 2 < |src| &&
      var t := Choose(src, p);
      var q := p + Width(t);
      if t.Copy? && q + 2 == |src| then Unseen(src, q, p + 1) else Misses(src, q)
  }

  /** The compressor's parse is the greedy one exactly if it does not miss such a match. */
  lemma {:induction false} ParseIsGreedy(src: seq<byte>, p: nat)
    requires p <= |src| <= 0x1_0000
    ensures Parse(src, p) == Greedy(src, p) <==> !Misses(src, p)
    decreases |src| - p
  {
    hide Choose, Tail, Longest, Lcp, Window, Hash;
    if p + 2 >= |src| {
      TailIsGreedy(src, p, p);
    } else {
      var t := Choose(src, p);
      var q := p + Width(t);
      var rest := if t.Copy? && q + 2 >= |src| then Tail(src, q, p + 1) else Parse(src, q);
      assert Parse(src, p) == [t] + rest && Greedy(src, p) == [t] + Greedy(src, q);
      assert rest == Parse(src, p)[1..] && Greedy(src, q) == Greedy(src, p)[1..];
      if t.Copy? && q + 2 >= |src| {
        TailIsGreedy(src, q, p + 1);
      } else {
        ParseIsGreedy(src, q);
      }
    }
  }

  const MISSED: seq<byte> := [3, 1, 2, 3, 1, 1, 1]

  /** Its last two bytes stand one position back, which is not indexed. */
  lemma MissedTail()
    ensures Unseen(MISSED, 5, 4)
    ensures Tail(MISSED, 5, 4) == [Literal(1), Literal(1)] && Greedy(MISSED, 5) == [Copy(1, 2)]
  {
    hide Choose, Lcp, Longest;
    assert Hash(MISSED, 4) == Hash(MISSED, 5);
    LastIsLast(MISSED, 4, Hash(MISSED, 5));
    LastIsLast(MISSED, 5, Hash(MISSED, 5));
    ChooseLastTwo(MISSED, 5);
    GreedyLastTwo(MISSED, 5);
  }

  /** They come after the copy of the first two bytes. */
  lemma MissedCopy()
    ensures Choose(MISSED, 3) == Copy(3, 2)
  {
    hide Longest;
    assert Lcp(MISSED, 5, 2) == 0;
    assert Lcp(MISSED, 4, 1) == 1;
    assert Lcp(MISSED, 3, 0) == 2 && Lcp(MISSED, 3, 1) == 0 && Lcp(MISSED, 3, 2) == 0;
    assert IsLongest(MISSED, 3, 3, 3);
    LongestIsUnique(MISSED, 3, 3, 3);
  }

  /** An input whose output is not the greedy one: two literals are emitted for the last
      two bytes. */
  lemma MissedMatch()
    ensures Misses(MISSED, 0) && Parse(MISSED, 0) != Greedy(MISSED, 0)
    ensures Tail(MISSED, 5, 4) == [Literal(1), Literal(1)] && Greedy(MISSED, 5) == [Copy(1, 2)]
  {
    hide Choose, Unseen, Parse, Greedy, Tail;
    MissedTail();
    MissedCopy();
    assert Misses(MISSED, 3);
    LiteralsFirst(MISSED);
    ParseIsGreedy(MISSED, 0);
  }

  /** The first three bytes of that input are literals. */
  lemma LiteralsFirst(src: seq<byte>)
    requires src == [3, 1, 2, 3, 1, 1, 1]
    ensures Misses(src, 0) == Misses(src, 3)
  {
    hide Misses;
    assert Lcp(src, 1, 0) == 0;
    assert Lcp(src, 2, 0) == 0 && Lcp(src, 2, 1) == 0;
    assert Choose(src, 0) == Literal(3) && Choose(src, 1) == Literal(1) && Choose(src, 2) == Literal(2);
    MissesLiteral(src, 0);
    MissesLiteral(src, 1);
    MissesLiteral(src, 2);
  }

  lemma MissesLiteral(src: seq<byte>, p: nat)
    requires p + 2 < |src| && Choose(src, p).Literal?
    ensures Misses(src, p) == Misses(src, p + 1)
  {
    hide Choose;
  }

  /** The token t may stand at p: it is encodable and yields src[p..p + Width(t)]. */
  ghost predicate Fits(src: seq<byte>, p: nat, t: Token) {
    && Encodable(t)
    && p + Width(t) <= |src|
    && Applies(src[..p], t)
    && Apply(src[..p], t) == src[..p + Width(t)]
  }

  ghost predicate AllFit(src: seq<byte>, p: nat, ts: seq<Token>)
    decreases |ts|
  {
    if ts == [] then p == |src|
    else Fits(src, p, ts[0]) && AllFit(src, p + Width(ts[0]), ts[1..])
  }

  /** A copy of up to the common prefix, overlapping or not, extends the output
      by the input's own bytes. */
  lemma {:induction false} CopyFits(src: seq<byte>, p: nat, o: nat, n: nat)
    requires 1 <= o <= p <= |src| && n <= Lcp(src, p, p - o)
    ensures p + n <= |src| && CopyOnto(src[..p], o, n) == src[..p + n]
    decreases n
  {
    if n > 0 {
      assert src[..p] + [src[..p][p - o]] == src[..p + 1];
      CopyFits(src, p + 1, o, n - 1);
    }
  }

  lemma ChooseFits(src: seq<byte>, p: nat)
    requires p < |src| <= 0x1_0000
    ensures Fits(src, p, Choose(src, p))
  {
    match Choose(src, p)
    case Literal(b) => assert src[..p] + [b] == src[..p + 1];
    case Copy(o, n) => CopyFits(src, p, o, n);
  }

  lemma LiteralFits(src: seq<byte>, p: nat)
    requires p < |src|
    ensures Fits(src, p, Literal(src[p]))
  {
    assert src[..p] + [src[p]] == src[..p + 1];
  }

  lemma TailFits(src: seq<byte>, p: nat, limit: nat)
    requires limit <= p <= |src| <= p + 2 && |src| <= 0x1_0000
    ensures AllFit(src, p, Tail(src, p, limit))
  {
    hide Lcp, CopyOnto, Last;
    if p + 2 == |src| {
      var q := Last(src, limit, Hash(src, p));
      LastIsLast(src, limit, Hash(src, p));
      if q != INVALID_OFS && q + MAX_HISTORY > p {
        HashIsPrefix(src, p, q);
        CopyFits(src, p, p - q, 2);
        assert AllFit(src, p + 2, []);
      } else {
        LiteralFits(src, p);
        LiteralFits(src, p + 1);
        assert AllFit(src, p + 1, [Literal(src[p + 1])]);
      }
    } else if p + 1 == |src| {
      LiteralFits(src, p);
    }
  }

  lemma {:induction false} ParseFits(src: seq<byte>, p: nat)
    requires p <= |src| <= 0x1_0000
    ensures AllFit(src, p, Parse(src, p))
    decreases |src| - p
  {
    hide Longest, Lcp, Tail, Fits, Choose, Hash, Last;
    if p + 2 >= |src| {
      TailFits(src, p, p);
    } else {
      ChooseFits(src, p);
      var t := Choose(src, p);
      var q := p + Width(t);
      if t.Copy? && q + 2 >= |src| {
        TailFits(src, q, p + 1);
      } else {
        ParseFits(src, q);
      }
      assert Parse(src, p)[1..] == if t.Copy? && q + 2 >= |src| then Tail(src, q, p + 1) else Parse(src, q);
    }
  }

  /** A parse that fits reproduces the input. */
  lemma {:induction false} FitApplies(src: seq<byte>, p: nat, ts: seq<Token>)
    requires p <= |src| && AllFit(src, p, ts)
    ensures forall t :: t in ts ==> Encodable(t)
    ensures AllApply(src[..p], ts) && ApplyAll(src[..p], ts) == src
    decreases |ts|
  {
    if ts == [] {
      assert src[..p] == src;
    } else {
      FitApplies(src, p + Width(ts[0]), ts[1..]);
      assert ts == [ts[0]] + ts[1..];
    }
  }

  // ---- The size bound ----

  lemma {:induction false} RunBitsSize(n: nat)
    ensures |RunBits(n)| <= n + 4
  {
    if n >= 30 {
      RunBitsSize(n - 30);
    }
  }

  lemma TokenBitsSize(t: Token)
    requires Encodable(t)
    ensures |TokenBits(t)| <= 9 * Width(t)
  {
    if t.Copy? {
      RunBitsSize(t.length + 7);
    }
  }

  lemma {:induction false} StreamBitsSize(src: seq<byte>, p: nat, ts: seq<Token>)
    requires p <= |src| && AllFit(src, p, ts)
    requires forall t :: t in ts ==> Encodable(t)
    ensures |StreamBits(ts)| <= 9 * (|src| - p)
    decreases |ts|
  {
    if ts != [] {
      TokenBitsSize(ts[0]);
      StreamBitsSize(src, p + Width(ts[0]), ts[1..]);
    }
  }
}
