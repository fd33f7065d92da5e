/**
 Bit lists and the machine arithmetic that packs them into bytes.

 A bit list is most significant bit first. Unsigned machine words are natural
 numbers; the C operators `<<` (on 32 bits), `>>` and `|` are the functions
 Shl32, Shr and BitOr below.
 */
module Bits {
  import opened Wrappers

  function Pow2(n: nat): (r: nat)
    ensures r >= 1
  {
    if n == 0 then 1 else 2 * Pow2(n - 1)
  }

  lemma {:induction false} Pow2Add(a: nat, b: nat)
    ensures Pow2(a + b) == Pow2(a) * Pow2(b)
  {
    if a > 0 {
      Pow2Add(a - 1, b);
      assert Pow2(a + b) == 2 * Pow2(a - 1 + b);
    }
  }

  lemma Pow2Double(a: nat, n: nat)
    requires n > 0
    ensures a * Pow2(n) == 2 * (a * Pow2(n - 1))
  {
  }

  lemma Pow2Values()
    ensures Pow2(1) == 2 && Pow2(2) == 4 && Pow2(3) == 8 && Pow2(4) == 16
    ensures Pow2(5) == 32 && Pow2(6) == 64 && Pow2(7) == 128 && Pow2(8) == 256
    ensures Pow2(9) == 512 && Pow2(13) == 8192 && Pow2(16) == 65536
    ensures Pow2(32) == 0x1_0000_0000
  {
    assert Pow2(4) == 16;
    Pow2Add(4, 4);
    Pow2Add(8, 1);
    Pow2Add(8, 5);
    Pow2Add(8, 8);
    Pow2Add(16, 16);
  }

  // ---- C operators on unsigned words ----

  function Shl32(x: nat, k: nat): (r: nat) {
    (x * Pow2(k)) % 0x1_0000_0000
  }

  function Shr(x: nat, k: nat): (r: nat) {
    DivNat(x, Pow2(k));
    x / Pow2(k)
  }

  lemma DivNat(x: nat, d: nat)
    requires d > 0
    ensures x / d >= 0
  {
  }

  /** `x & ((1 << k) - 1)` */
  function Low(x: nat, k: nat): (r: nat)
    ensures r < Pow2(k)
  {
    x % Pow2(k)
  }

  function BitOr(a: nat, b: nat): (r: nat) {
    if a == 0 && b == 0 then 0
    else 2 * BitOr(a / 2, b / 2) + (if a % 2 == 1 || b % 2 == 1 then 1 else 0)
  }

  lemma {:induction false} BitOrZero(a: nat)
    ensures BitOr(a, 0) == a
  {
    if a > 0 {
      BitOrZero(a / 2);
    }
  }

  /** When the operands occupy different bits, `|` adds. */
  lemma {:induction false} BitOrAdds(a: nat, b: nat, k: nat)
    requires b < Pow2(k)
    ensures BitOr(a * Pow2(k), b) == a * Pow2(k) + b
  {
    if k == 0 {
      BitOrZero(a);
    } else if a * Pow2(k) > 0 || b > 0 {
      Pow2Double(a, k);
      BitOrAdds(a, b / 2, k - 1);
    }
  }

  lemma MulStep(a: nat, b: nat, c: nat)
    requires a < b
    ensures a * c + c <= b * c
  {
    assert b * c == (a + 1) * c + (b - a - 1) * c;
  }

  lemma MulAssoc(a: nat, b: nat, c: nat)
    ensures (a * b) * c == a * (b * c)
  {
  }

  lemma DivModUnique(x: nat, d: nat, q: nat, r: nat)
    requires d > 0 && x == q * d + r && r < d
    ensures x / d == q && x % d == r
  {
    var q', r' := x / d, x % d;
    assert x == q' * d + r';
    if q' < q {
      MulStep(q', q, d);
    } else if q' > q {
      MulStep(q, q', d);
    }
  }

  /** A left shift past the top of a field, then masked to the field. */
  lemma ShiftThenMask(x: nat, m: nat, k: nat)
    ensures (x * Pow2(k)) % Pow2(m + k) == (x % Pow2(m)) * Pow2(k)
  {
    Pow2Add(m, k);
    ScaledMod(x, Pow2(m), Pow2(k));
  }

  lemma ScaledMod(x: nat, d: nat, f: nat)
    requires d > 0 && f > 0
    ensures d * f > 0 && (x * f) % (d * f) == (x % d) * f
  {
    var q, r := x / d, x % d;
    assert x == q * d + r;
    assert x * f == (q * d) * f + r * f;
    MulAssoc(q, d, f);
    MulStep(r, d, f);
    DivModUnique(x * f, d * f, q, r * f);
  }

  lemma MulStepLe(a: nat, b: nat, c: nat)
    requires a <= b
    ensures a * c <= b * c
  {
    if a < b {
      MulStep(a, b, c);
    }
  }

  // ---- Bit lists ----

  function Value(b: seq<bool>): (v: nat)
    ensures v < Pow2(|b|)
  {
    if b == [] then 0 else 2 * Value(b[..|b| - 1]) + (if b[|b| - 1] then 1 else 0)
  }

  predicate Bit(v: nat, k: nat) {
    (v / Pow2(k)) % 2 == 1
  }

  function ToBits(n: nat, v: nat): (b: seq<bool>)
    ensures |b| == n
  {
    seq(n, i requires 0 <= i < n => Bit(v, n - 1 - i))
  }

  lemma ToBitsLast(n: nat, v: nat)
    requires n > 0
    ensures ToBits(n, v) == ToBits(n - 1, v / 2) + [v % 2 == 1]
  {
    var a, b := ToBits(n, v), ToBits(n - 1, v / 2);
    forall i | 0 <= i < n - 1
      ensures a[i] == b[i]
    {
      BitHalf(v, n - 2 - i);
    }
    assert a == b + [a[n - 1]];
    assert Pow2(0) == 1 && a[n - 1] == Bit(v, 0);
  }

  lemma BitHalf(v: nat, k: nat)
    ensures Bit(v, k + 1) == Bit(v / 2, k)
  {
    DivDouble(v, Pow2(k));
  }

  lemma DivDouble(v: nat, d: nat)
    requires d > 0
    ensures v / (2 * d) == (v / 2) / d
  {
    var q, r := (v / 2) / d, (v / 2) % d;
    assert v == q * (2 * d) + (2 * r + v % 2);
    DivModUnique(v, 2 * d, q, 2 * r + v % 2);
  }

  lemma {:induction false} ValueToBits(n: nat, v: nat)
    ensures Value(ToBits(n, v)) == v % Pow2(n)
  {
    if n > 0 {
      var b := ToBits(n, v);
      ToBitsLast(n, v);
      assert b[..n - 1] == ToBits(n - 1, v / 2);
      ValueToBits(n - 1, v / 2);
      ModDouble(v, Pow2(n - 1));
    }
  }

  lemma ModDouble(v: nat, d: nat)
    requires d > 0
    ensures v % (2 * d) == 2 * ((v / 2) % d) + v % 2
  {
    var q, r := (v / 2) / d, (v / 2) % d;
    assert v == q * (2 * d) + (2 * r + v % 2);
    DivModUnique(v, 2 * d, q, 2 * r + v % 2);
  }

  lemma {:induction false} ToBitsValue(b: seq<bool>)
    ensures ToBits(|b|, Value(b)) == b
  {
    if b != [] {
      ToBitsValue(b[..|b| - 1]);
      ToBitsLast(|b|, Value(b));
    }
  }

  lemma {:induction false} ValueConcat(a: seq<bool>, b: seq<bool>)
    ensures Value(a + b) == Value(a) * Pow2(|b|) + Value(b)
  {
    if b == [] {
      assert a + b == a;
    } else {
      var b', bit := b[..|b| - 1], if b[|b| - 1] then 1 else 0;
      assert (a + b)[..|a + b| - 1] == a + b' && (a + b)[|a + b| - 1] == b[|b| - 1];
      ValueConcat(a, b');
      calc {
        Value(a + b);
        2 * Value(a + b') + bit;
        2 * (Value(a) * Pow2(|b'|)) + 2 * Value(b') + bit;
        { Pow2Double(Value(a), |b|); }
        Value(a) * Pow2(|b|) + Value(b);
      }
    }
  }

  /** The first m bits of an n-bit field, and the rest of it, as numbers. */
  lemma FieldSplit(n: nat, v: nat, m: nat)
    requires v < Pow2(n) && m <= n
    ensures Value(ToBits(n, v)[..m]) == v / Pow2(n - m)
    ensures Value(ToBits(n, v)[m..]) == v % Pow2(n - m)
  {
    var b := ToBits(n, v);
    ValueConcat(b[..m], b[m..]);
    assert b[..m] + b[m..] == b;
    ValueToBits(n, v);
    SmallMod(v, Pow2(n));
    DivModUnique(v, Pow2(n - m), Value(b[..m]), Value(b[m..]));
  }

  lemma SmallMod(v: nat, d: nat)
    requires v < d
    ensures v % d == v
  {
  }

  /** A field written in one go is the field written in two. */
  lemma {:induction false} ToBitsSplit(m: nat, n: nat, hi: nat, lo: nat)
    requires lo < Pow2(n)
    ensures ToBits(m + n, hi * Pow2(n) + lo) == ToBits(m, hi) + ToBits(n, lo)
  {
    if n > 0 {
      Pow2Double(hi, n);
      ToBitsSplit(m, n - 1, hi, lo / 2);
      ToBitsLast(m + n, hi * Pow2(n) + lo);
      ToBitsLast(n, lo);
      assert (hi * Pow2(n) + lo) / 2 == hi * Pow2(n - 1) + lo / 2;
    }
  }

  // ---- Bits and bytes ----

  /** The complete bytes at the front of a bit list. */
  function Pack(b: seq<bool>): (s: seq<byte>)
    ensures |s| == |b| / 8
  {
    if |b| < 8 then [] else ByteFits(b[..8]); [Value(b[..8])] + Pack(b[8..])
  }

  lemma ByteFits(b: seq<bool>)
    requires |b| == 8
    ensures Value(b) < 256
  {
    Pow2Values();
  }

  function Unpack(s: seq<byte>): (b: seq<bool>)
    ensures |b| == 8 * |s|
  {
    if s == [] then [] else ToBits(8, s[0]) + Unpack(s[1..])
  }

  lemma {:induction false} UnpackPack(b: seq<bool>)
    ensures Unpack(Pack(b)) == b[..8 * (|b| / 8)]
  {
    if |b| >= 8 {
      UnpackPack(b[8..]);
      ToBitsValue(b[..8]);
      var s := Pack(b);
      assert s[1..] == Pack(b[8..]);
      assert b[..8 * (|b| / 8)] == b[..8] + b[8..][..8 * (|b[8..]| / 8)];
    }
  }

  lemma {:induction false} UnpackAt(s: seq<byte>, j: nat)
    requires j < |s|
    ensures Unpack(s)[8 * j..8 * j + 8] == ToBits(8, s[j])
  {
    var u, t := Unpack(s), Unpack(s[1..]);
    if j == 0 {
      assert u[0..8] == ToBits(8, s[0]);
    } else {
      UnpackAt(s[1..], j - 1);
      assert u[8 * j..8 * j + 8] == t[8 * (j - 1)..8 * (j - 1) + 8];
    }
  }

  /** Eight more bits make one more byte. */
  lemma {:induction false} PackStep(b: seq<bool>, c: seq<bool>)
    requires |b| % 8 == 0 && |c| == 8
    ensures Value(c) < 256 && Pack(b + c) == Pack(b) + [Value(c)]
  {
    ByteFits(c);
    if b == [] {
      assert b + c == c && (b + c)[..8] == c && (b + c)[8..] == [];
    } else {
      PackStep(b[8..], c);
      assert (b + c)[..8] == b[..8];
      assert (b + c)[8..] == b[8..] + c;
    }
  }

  /** A trailing incomplete byte is not packed. */
  lemma {:induction false} PackTail(b: seq<bool>, c: seq<bool>)
    requires |b| % 8 == 0 && |c| < 8
    ensures Pack(b + c) == Pack(b)
  {
    if b == [] {
      assert b + c == c;
    } else {
      PackTail(b[8..], c);
      assert (b + c)[..8] == b[..8];
      assert (b + c)[8..] == b[8..] + c;
    }
  }
}
