/**
 Addresses as byte strings, prefix masks, and the choice of a candidate address
 (src/ip-util.c and the searches of src/ip-lease.c).
 */
module IpAddr {
  import opened Wrappers

  type Addr = seq<bv8>

  // ---- Bytewise operations ----

  function And(a: Addr, m: Addr): (r: Addr)
    requires |a| == |m|
    ensures |r| == |a|
  {
    seq(|a|, i requires 0 <= i < |a| => a[i] & m[i])
  }

  /** The bits of r under the mask come from net, the others from d. */
  function Mix(d: Addr, m: Addr, net: Addr): (r: Addr)
    requires |d| == |m| == |net|
    ensures |r| == |d|
  {
    seq(|d|, i requires 0 <= i < |d| => (d[i] & !m[i]) | net[i])
  }

  function Broadcast(m: Addr, net: Addr): (r: Addr)
    requires |m| == |net|
    ensures |r| == |m|
  {
    seq(|m|, i requires 0 <= i < |m| => net[i] | !m[i])
  }

  /** a lies in the network net/m. */
  predicate InNet(a: Addr, m: Addr, net: Addr) {
    |a| == |m| == |net| && And(a, m) == net
  }

  /** A candidate built by masking lies in the network, whatever was drawn. */
  lemma MixInNet(d: Addr, m: Addr, raw: Addr)
    requires |d| == |m| == |raw|
    ensures InNet(Mix(d, m, And(raw, m)), m, And(raw, m))
  {
    var c := Mix(d, m, And(raw, m));
    forall i | 0 <= i < |d|
      ensures And(c, m)[i] == And(raw, m)[i]
    {
      MixByte(d[i], m[i], raw[i]);
    }
  }

  /** And its host part is that of what was drawn. */
  lemma MixHost(d: Addr, m: Addr, raw: Addr, i: nat)
    requires |d| == |m| == |raw| && i < |d|
    ensures Mix(d, m, And(raw, m))[i] & !m[i] == d[i] & !m[i]
  {
    HostByte(d[i], m[i], raw[i]);
  }

  lemma HostByte(d: bv8, m: bv8, raw: bv8)
    ensures ((d & !m) | (raw & m)) & !m == d & !m
  {
  }

  /** A bit of the byte that the mask leaves free is 1, or is 0. */
  predicate OneAt(a: bv8, m: bv8) {
    a & !m != 0
  }

  predicate ZeroAt(a: bv8, m: bv8) {
    !a & !m != 0
  }

  /** Some bit of a that the mask leaves free is 1. */
  predicate HostHasOne(a: Addr, m: Addr)
    requires |a| == |m|
  {
    exists i :: 0 <= i < |a| && OneAt(a[i], m[i])
  }

  /** Some bit of a that the mask leaves free is 0. */
  predicate HostHasZero(a: Addr, m: Addr)
    requires |a| == |m|
  {
    exists i :: 0 <= i < |a| && ZeroAt(a[i], m[i])
  }

  lemma NetByte(a: bv8, m: bv8)
    ensures OneAt(a, m) <==> a != a & m
    ensures ZeroAt(a, m) <==> a != (a & m) | !m
  {
  }

  lemma BroadcastAt(m: Addr, net: Addr, i: nat)
    requires |m| == |net| && i < |m|
    ensures Broadcast(m, net)[i] == net[i] | !m[i]
  {
  }

  lemma HostPartAt(a: Addr, m: Addr, i: nat)
    requires |a| == |m| && i < |a|
    ensures OneAt(a[i], m[i]) <==> a[i] != And(a, m)[i]
    ensures ZeroAt(a[i], m[i]) <==> a[i] != Broadcast(m, And(a, m))[i]
  {
    hide And, Broadcast, OneAt, ZeroAt;
    AndAt(a, m, i);
    BroadcastAt(m, And(a, m), i);
    NetByte(a[i], m[i]);
  }

  lemma Differ(a: Addr, b: Addr)
    requires |a| == |b|
    ensures a != b <==> exists i :: 0 <= i < |a| && a[i] != b[i]
  {
  }

  /** An address of a network is not the network itself, and not its broadcast address,
      exactly if its free bits are not all 0, and not all 1. */
  lemma HostPart(a: Addr, m: Addr, net: Addr)
    requires InNet(a, m, net)
    ensures a != net <==> HostHasOne(a, m)
    ensures a != Broadcast(m, net) <==> HostHasZero(a, m)
  {
    hide And, Broadcast, OneAt, ZeroAt;
    forall i | 0 <= i < |a|
      ensures OneAt(a[i], m[i]) <==> a[i] != net[i]
      ensures ZeroAt(a[i], m[i]) <==> a[i] != Broadcast(m, net)[i]
    {
      HostPartAt(a, m, i);
    }
    Differ(a, net);
    Differ(a, Broadcast(m, net));
  }

  lemma MixByte(d: bv8, m: bv8, raw: bv8)
    ensures ((d & !m) | (raw & m)) & m == raw & m
  {
  }

  // ---- IPv6 prefix masks ----

  /** Byte j of the mask of a prefix. */
  function MaskByte(prefix: nat, j: nat): (b: bv8) {
    if prefix >= 8 * (j + 1) then 0xff
    else if prefix <= 8 * j then 0
    else 0xff << (8 - (prefix - 8 * j))
  }

  function Mask6(prefix: nat): (m: Addr)
    ensures |m| == 16
  {
    seq(16, j requires 0 <= j < 16 => MaskByte(prefix, j))
  }

  /** Bit k of a byte, counted from its most significant one. */
  predicate TopBit(b: bv8, k: nat)
    requires k < 8
  {
    b & (0x80 >> k) != 0
  }

  lemma ShiftedByte(n: nat, k: nat)
    requires 1 <= n < 8 && k < 8
    ensures TopBit(0xff << (8 - n), k) <==> k < n
  {
    match n
    case 1 => assert (0xff as bv8 << 7) == 0x80;
    case 2 => assert (0xff as bv8 << 6) == 0xc0;
    case 3 => assert (0xff as bv8 << 5) == 0xe0;
    case 4 => assert (0xff as bv8 << 4) == 0xf0;
    case 5 => assert (0xff as bv8 << 3) == 0xf8;
    case 6 => assert (0xff as bv8 << 2) == 0xfc;
    case 7 => assert (0xff as bv8 << 1) == 0xfe;
    case _ =>
  }

  /** The mask of a prefix has exactly its first `prefix` bits set. */
  lemma MaskBits(prefix: nat, j: nat, k: nat)
    requires prefix <= 128 && j < 16 && k < 8
    ensures TopBit(Mask6(prefix)[j], k) <==> 8 * j + k < prefix
  {
    if 8 * j < prefix < 8 * (j + 1) {
      ShiftedByte(prefix - 8 * j, k);
    } else {
      assert k == 0 || k == 1 || k == 2 || k == 3 || k == 4 || k == 5 || k == 6 || k == 7;
    }
  }

  lemma NestedBytes(n: nat, m: nat)
    requires 1 <= n <= m < 8
    ensures (0xff as bv8 << (8 - n)) & (0xff as bv8 << (8 - m)) == 0xff as bv8 << (8 - n)
  {
    assert n == 1 || n == 2 || n == 3 || n == 4 || n == 5 || n == 6 || n == 7;
    assert m == 1 || m == 2 || m == 3 || m == 4 || m == 5 || m == 6 || m == 7;
  }

  /** The mask of a shorter prefix is part of the mask of a longer one. */
  lemma MaskNested(p: nat, q: nat)
    requires p <= q <= 128
    ensures And(Mask6(p), Mask6(q)) == Mask6(p)
  {
    forall j | 0 <= j < 16
      ensures MaskByte(p, j) & MaskByte(q, j) == MaskByte(p, j)
    {
      if 8 * j < p && q < 8 * (j + 1) {
        NestedBytes(p - 8 * j, q - 8 * j);
      }
    }
  }

  lemma AndAnd(a: Addr, m: Addr, n: Addr)
    requires |a| == |m| == |n| && And(m, n) == m
    ensures And(And(a, n), m) == And(a, m) && And(And(a, m), n) == And(a, m)
  {
    hide And;
    var x, y, z := And(And(a, n), m), And(And(a, m), n), And(a, m);
    forall i | 0 <= i < |a|
      ensures x[i] == z[i] && y[i] == z[i]
    {
      AndAndAt(a, m, n, i);
    }
    assert x == z && y == z;
  }

  lemma AndAndAt(a: Addr, m: Addr, n: Addr, i: nat)
    requires |a| == |m| == |n| && i < |a| && And(m, n)[i] == m[i]
    ensures And(And(a, n), m)[i] == And(a, m)[i] && And(And(a, m), n)[i] == And(a, m)[i]
  {
    hide And;
    AndAt(m, n, i);
    AndAt(a, n, i);
    AndAt(a, m, i);
    AndAt(And(a, n), m, i);
    AndAt(And(a, m), n, i);
    AndByte(a[i], m[i], n[i]);
  }

  lemma AndAt(a: Addr, m: Addr, i: nat)
    requires |a| == |m| && i < |a|
    ensures And(a, m)[i] == a[i] & m[i]
  {
  }

  lemma AndByte(a: bv8, m: bv8, n: bv8)
    requires m & n == m
    ensures (a & n) & m == a & m && (a & m) & n == a & m
  {
  }

  /** ipv6_prefix_to_mask, on the 16 bytes of a mask. */
  method PrefixToMask(mask: array<bv8>, prefix: nat) returns (ok: bool)
    requires mask.Length == 16
    modifies mask
    ensures ok <==> 1 <= prefix <= 128
    ensures ok ==> mask[..] == Mask6(prefix)
    ensures !ok ==> mask[..] == old(mask[..])
  {
    if prefix == 0 || prefix > 128 { return false; }
    for k := 0 to 16
      invariant forall l :: 0 <= l < k ==> mask[l] == 0
    {
      mask[k] := 0;
    }
    var i: int, j := prefix, 0;
    while i > 0
      invariant 0 <= j <= 16 && i == prefix - 8 * j
      invariant forall l :: 0 <= l < j ==> mask[l] == MaskByte(prefix, l)
      invariant forall l :: j <= l < 16 ==> mask[l] == 0
      decreases i
    {
      if i >= 8 {
        mask[j] := 0xff;
      } else {
        mask[j] := 0xff << (8 - i);
      }
      i, j := i - 8, j + 1;
    }
    ok := true;
  }
}
