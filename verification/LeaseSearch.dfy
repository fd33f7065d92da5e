/**
 The search for a free address (get_ipv4_lease and get_ipv6_lease of
 src/ip-lease.c). The hash, the random generator and ping are parameters; taken
 is the set of signatures registered in the lease table.
 */
module LeaseSearch {
  import opened Wrappers
  import opened IpAddr

  const MAX_IP_TRIES: nat := 16
  const FIXED_IPS: nat := 5

  /** Where candidates come from: the client's seed, the hash, the random generator
      at a given try, and whether an address answers a ping. */
  datatype Source = Source(seed: Addr, hash: Addr -> Addr, rng: nat -> Option<Addr>, alive: Addr -> bool)

  /** The hash and the random generator yield n bytes. */
  ghost predicate Yields(s: Source, n: nat) {
    && |s.seed| == 4
    && (forall a :: |s.hash(a)| == n)
    && (forall k :: s.rng(k).Some? ==> |s.rng(k).value| == n)
  }

  function Zeros(n: nat): (a: Addr)
    ensures |a| == n
  {
    seq(n, _ => 0)
  }

  // ---- IPv4 ----

  /** A network of two addresses, neither reserved (section 2.1 of RFC 3021). */
  const P2P_MASK: Addr := [0xff, 0xff, 0xff, 0xfe]

  /** The server's own address in the network. */
  function Local4(m: Addr, net: Addr): (r: Addr)
    requires |net| == 4
  {
    if m == P2P_MASK then net else net[3 := net[3] | 1]
  }

  /** is_ipv4_ok */
  predicate Ok4(ip: Addr, m: Addr, net: Addr, taken: set<Addr>)
    requires |m| == |net|
  {
    ip !in taken && (m != P2P_MASK ==> ip != net && ip != Broadcast(m, net))
  }

  /** What is drawn at try k, after prev. */
  function Draw4(s: Source, k: nat, prev: Addr): (r: Option<Addr>) {
    if k == 0 then Some(s.seed) else if k <= FIXED_IPS then Some(s.hash(prev)) else s.rng(k)
  }

  predicate Fits4(s: Source, c: Addr, m: Addr, net: Addr, taken: set<Addr>)
    requires |m| == |net| == 4
  {
    Ok4(c, m, net, taken) && c != Local4(m, net) && !s.alive(c)
  }

  /** The first candidate from try k on that fits. */
  ghost function Search4(s: Source, k: nat, prev: Addr, m: Addr, net: Addr, taken: set<Addr>): (r: Option<Addr>)
    requires Yields(s, 4) && |m| == |net| == |prev| == 4 && k <= MAX_IP_TRIES
    decreases MAX_IP_TRIES - k
  {
    if k == MAX_IP_TRIES then None
    else match Draw4(s, k, prev)
      case None => None
      case Some(d) =>
        var c := Mix(d, m, net);
        if Fits4(s, c, m, net, taken) then Some(c) else Search4(s, k + 1, c, m, net, taken)
  }

  /** An address that is found lies in the network, is not registered, is not the
      server's own, and is neither the network nor the broadcast address unless the
      network is a point-to-point one. */
  lemma {:induction false} Search4IsValid(s: Source, k: nat, prev: Addr, m: Addr, raw: Addr, taken: set<Addr>)
    requires Yields(s, 4) && |m| == |raw| == |prev| == 4 && k <= MAX_IP_TRIES
    ensures var net := And(raw, m);
            var r := Search4(s, k, prev, m, net, taken);
            r.Some? ==>
              && InNet(r.value, m, net) && r.value !in taken && r.value != Local4(m, net) && !s.alive(r.value)
              && (m != P2P_MASK ==> r.value != net && r.value != Broadcast(m, net))
    decreases MAX_IP_TRIES - k
  {
    if k < MAX_IP_TRIES && Draw4(s, k, prev).Some? {
      var d, net := Draw4(s, k, prev).value, And(raw, m);
      MixInNet(d, m, raw);
      Search4IsValid(s, k + 1, Mix(d, m, net), m, raw, taken);
    }
  }

  /** The address after the first of a network whose number is even. */
  predicate IsFirstHost(a: Addr, net: Addr) {
    |a| == |net| == 4 && a[..3] == net[..3] && a[3] == net[3] + 1
  }

  /** What is not given to a client, without naming the server: on a point-to-point network
      the lower address; on others, where the last bit is free, the first after the
      network's own. */
  lemma ServerKeeps(a: Addr, m: Addr, raw: Addr)
    requires |m| == |raw| == |a| == 4 && a != Local4(m, And(raw, m))
    ensures m == [0xff, 0xff, 0xff, 0xfe] ==> a != And(raw, m)
    ensures m != [0xff, 0xff, 0xff, 0xfe] && m[3] & 1 == 0 ==> !IsFirstHost(a, And(raw, m))
  {
    var net := And(raw, m);
    if m != P2P_MASK && m[3] & 1 == 0 {
      assert net[3] == raw[3] & m[3];
      EvenByte(raw[3], m[3]);
      assert Local4(m, net) == net[..3] + [net[3] + 1];
      assert a == a[..3] + [a[3]];
    }
  }

  lemma EvenByte(r: bv8, m: bv8)
    requires m & 1 == 0
    ensures (r & m) | 1 == (r & m) + 1
  {
  }

  /** In plain terms: an IPv4 address that is found is not registered, answers no ping, is
      in the network, is not the one the server has, and has free bits of both kinds, so
      that it is neither the network's nor the broadcast address, unless there are only
      two (section 2.1 of RFC 3021). */
  lemma FoundIsUsable(s: Source, m: Addr, raw: Addr, taken: set<Addr>)
    requires Yields(s, 4) && |m| == |raw| == 4 && Search4(s, 0, Zeros(4), m, And(raw, m), taken).Some?
    ensures var a := Search4(s, 0, Zeros(4), m, And(raw, m), taken).value;
            && |a| == 4 && a !in taken && !s.alive(a) && And(a, m) == And(raw, m)
            && (m == [0xff, 0xff, 0xff, 0xfe] ==> a != And(raw, m))
            && (m != [0xff, 0xff, 0xff, 0xfe] ==> HostHasOne(a, m) && HostHasZero(a, m))
            && (m != [0xff, 0xff, 0xff, 0xfe] && m[3] & 1 == 0 ==> !IsFirstHost(a, And(raw, m)))
  {
    hide Search4, And, Broadcast, Local4, HostHasOne, HostHasZero, IsFirstHost;
    Search4IsValid(s, 0, Zeros(4), m, raw, taken);
    var a := Search4(s, 0, Zeros(4), m, And(raw, m), taken).value;
    ServerKeeps(a, m, raw);
    HostPart(a, m, And(raw, m));
  }

  /** The candidates in order: the seed, five times the hash of the one before, and random
      ones; none where the random generator fails. */
  ghost function Candidate(s: Source, k: nat, m: Addr, net: Addr): (c: Option<Addr>)
    requires Yields(s, 4) && |m| == |net| == 4
    ensures c.Some? ==> |c.value| == 4
  {
    if k == 0 then Some(Mix(s.seed, m, net))
    else if k <= 5 then
      var c := Candidate(s, k - 1, m, net);
      if c.None? then None else Some(Mix(s.hash(c.value), m, net))
    else if s.rng(k).None? then None
    else Some(Mix(s.rng(k).value, m, net))
  }

  /** The candidates before n were made and do not fit. */
  ghost predicate NoneFits(s: Source, n: nat, m: Addr, net: Addr, taken: set<Addr>)
    requires Yields(s, 4) && |m| == |net| == 4
  {
    forall i :: 0 <= i < n ==> Candidate(s, i, m, net).Some? && !Fits4(s, Candidate(s, i, m, net).value, m, net, taken)
  }

  /** The outcome of the search is that of try n: its candidate, which fits, or nothing,
      because it was the seventeenth or could not be made. */
  ghost predicate EndsAt(s: Source, n: nat, m: Addr, net: Addr, taken: set<Addr>, r: Option<Addr>)
    requires Yields(s, 4) && |m| == |net| == 4
  {
    && n <= 16 && NoneFits(s, n, m, net, taken)
    && (if n == 16 then r == None
        else if Candidate(s, n, m, net).None? then r == None
        else Fits4(s, Candidate(s, n, m, net).value, m, net, taken) && r == Candidate(s, n, m, net))
  }

  lemma {:induction false} SearchFrom(s: Source, k: nat, prev: Addr, m: Addr, net: Addr, taken: set<Addr>) returns (n: nat)
    requires Yields(s, 4) && |m| == |net| == |prev| == 4 && k <= 16 && NoneFits(s, k, m, net, taken)
    requires k > 0 ==> Candidate(s, k - 1, m, net) == Some(prev)
    ensures EndsAt(s, n, m, net, taken, Search4(s, k, prev, m, net, taken))
    decreases 16 - k
  {
    hide Fits4, Mix;
    n := k;
    if k < 16 && Draw4(s, k, prev).Some? {
      var c := Mix(Draw4(s, k, prev).value, m, net);
      assert Candidate(s, k, m, net) == Some(c);
      if !Fits4(s, c, m, net, taken) {
        n := SearchFrom(s, k + 1, c, m, net, taken);
      }
    }
  }

  /** The search yields the first of sixteen candidates that fits. */
  lemma FirstOfSixteen(s: Source, m: Addr, net: Addr, taken: set<Addr>) returns (n: nat)
    requires Yields(s, 4) && |m| == |net| == 4
    ensures EndsAt(s, n, m, net, taken, Search4(s, 0, Zeros(4), m, net, taken))
  {
    n := SearchFrom(s, 0, Zeros(4), m, net, taken);
  }

  /** The seed comes first: a client gets the address of its seed whenever that is free. */
  lemma SeedComesFirst(s: Source, m: Addr, raw: Addr, taken: set<Addr>)
    requires Yields(s, 4) && |m| == |raw| == 4 && Fits4(s, Mix(s.seed, m, And(raw, m)), m, And(raw, m), taken)
    ensures Search4(s, 0, Zeros(4), m, And(raw, m), taken) == Some(Mix(s.seed, m, And(raw, m)))
  {
  }

  /** And no address is refused for another reason: those that fit are exactly the ones that
      are not registered, not the server's, not reserved, and answer no ping. */
  lemma FitsIs(s: Source, a: Addr, m: Addr, raw: Addr, taken: set<Addr>)
    requires |m| == |raw| == 4 && InNet(a, m, And(raw, m)) && m[3] & 1 == 0
    ensures Fits4(s, a, m, And(raw, m), taken) <==>
            && a !in taken && !s.alive(a)
            && (if m == [0xff, 0xff, 0xff, 0xfe] then a != And(raw, m)
                else HostHasOne(a, m) && HostHasZero(a, m) && !IsFirstHost(a, And(raw, m)))
  {
    hide And, Broadcast, HostHasOne, HostHasZero;
    var net := And(raw, m);
    HostPart(a, m, net);
    if a != Local4(m, net) {
      ServerKeeps(a, m, raw);
    } else if m != P2P_MASK {
      LocalIsFirst(m, raw);
    }
  }

  lemma LocalIsFirst(m: Addr, raw: Addr)
    requires |m| == |raw| == 4 && m != P2P_MASK && m[3] & 1 == 0
    ensures IsFirstHost(Local4(m, And(raw, m)), And(raw, m))
  {
    assert And(raw, m)[3] == raw[3] & m[3];
    EvenByte(raw[3], m[3]);
  }

  /** The two byte loops that turn what was drawn into a candidate. */
  method MixInPlace(a: array<bv8>, m: Addr, net: Addr)
    requires a.Length == |m| == |net|
    modifies a
    ensures a[..] == Mix(old(a[..]), m, net)
  {
    for i := 0 to a.Length
      invariant forall j :: 0 <= j < i ==> a[j] == old(a[j]) & !m[j]
      invariant forall j :: i <= j < a.Length ==> a[j] == old(a[j])
    {
      a[i] := a[i] & !m[i];
    }
    for i := 0 to a.Length
      invariant forall j :: 0 <= j < i ==> a[j] == (old(a[j]) & !m[j]) | net[j]
      invariant forall j :: i <= j < a.Length ==> a[j] == old(a[j]) & !m[j]
    {
      a[i] := a[i] | net[i];
    }
  }

  method Store(a: array<bv8>, b: Addr)
    requires a.Length == |b|
    modifies a
    ensures a[..] == b
  {
    for i := 0 to a.Length
      invariant forall j :: 0 <= j < i ==> a[j] == b[j]
    {
      a[i] := b[i];
    }
  }

  /** The dynamic half of get_ipv4_lease. */
  method PickIpv4(s: Source, m: Addr, raw: Addr, taken: set<Addr>) returns (ip: Option<Addr>)
    requires Yields(s, 4) && |m| == |raw| == 4
    ensures ip == Search4(s, 0, Zeros(4), m, And(raw, m), taken)
    ensures ip.Some? ==>
              && InNet(ip.value, m, And(raw, m)) && ip.value !in taken && ip.value != Local4(m, And(raw, m)) && !s.alive(ip.value)
              && (m != P2P_MASK ==> ip.value != And(raw, m) && ip.value != Broadcast(m, And(raw, m)))
  {
    hide And, Mix, Broadcast, InNet, Local4, Ok4;
    var net := And(raw, m);
    var rnd := new bv8[4](_ => 0);
    var maxLoops := MAX_IP_TRIES;
    assert rnd[..] == Zeros(4);
    Search4IsValid(s, 0, Zeros(4), m, raw, taken);
    while true
      invariant 0 <= maxLoops <= MAX_IP_TRIES && fresh(rnd) && rnd.Length == 4
      invariant Search4(s, 0, Zeros(4), m, net, taken) == Search4(s, MAX_IP_TRIES - maxLoops, rnd[..], m, net, taken)
      decreases maxLoops
    {
      if maxLoops == 0 { return None; }
      if maxLoops == MAX_IP_TRIES {
        Store(rnd, s.seed);
      } else if maxLoops < MAX_IP_TRIES - FIXED_IPS {
        var d := s.rng(MAX_IP_TRIES - maxLoops);
        if d.None? { return None; }
        Store(rnd, d.value);
      } else {
        Store(rnd, s.hash(rnd[..]));
      }
      maxLoops := maxLoops - 1;
      MixInPlace(rnd, m, net);
      if !Ok4(rnd[..], m, net, taken) { continue; }
      if rnd[..] == Local4(m, net) { continue; }
      if !s.alive(rnd[..]) { return Some(rnd[..]); }
    }
  }

  // ---- IPv6 ----

  /** What is drawn at try k. The fixed tries hash zeros, and the random bytes go
      four bytes too low in the socket address, so its last four stay zero. */
  function Draw6(s: Source, k: nat): (r: Option<Addr>) {
    if k == 0 then Some(s.hash(s.seed))
    else if k <= FIXED_IPS then Some(s.hash(Zeros(16)))
    else match s.rng(k)
      case None => None
      case Some(d) => if |d| == 16 then Some(d[4..] + Zeros(4)) else None
  }

  /** An address and its subnet, which is the signature of the lease. */
  datatype Pair = Pair(ip: Addr, sig: Addr)

  /** is_ipv6_ok: the subnet is not the server's address and not registered. */
  predicate Ok6(sig: Addr, net: Addr, taken: set<Addr>) {
    sig != net && sig !in taken
  }

  /** The first candidate from try k on. Ping is asked only about a prefix of 128,
      which no lease has yet at that point, so it is never asked. */
  ghost function Search6(s: Source, k: nat, m: Addr, sub: Addr, net: Addr, taken: set<Addr>): (r: Option<Pair>)
    requires Yields(s, 16) && |m| == |sub| == |net| == 16 && k <= MAX_IP_TRIES
    decreases MAX_IP_TRIES - k
  {
    if k == MAX_IP_TRIES then None
    else match Draw6(s, k)
      case None => None
      case Some(d) =>
        var c := Mix(d, m, net);
        if Ok6(And(c, sub), net, taken) then Some(Pair(c, And(c, sub))) else Search6(s, k + 1, m, sub, net, taken)
  }

  lemma {:induction false} Search6Shape(s: Source, k: nat, m: Addr, sub: Addr, raw: Addr, taken: set<Addr>)
    requires Yields(s, 16) && |m| == |sub| == |raw| == 16 && k <= MAX_IP_TRIES
    ensures var net := And(raw, m);
            var r := Search6(s, k, m, sub, net, taken);
            r.Some? ==> InNet(r.value.ip, m, net) && r.value.sig == And(r.value.ip, sub) && Ok6(r.value.sig, net, taken)
    decreases MAX_IP_TRIES - k
  {
    if k < MAX_IP_TRIES && Draw6(s, k).Some? {
      MixInNet(Draw6(s, k).value, m, raw);
      Search6Shape(s, k + 1, m, sub, raw, taken);
    }
  }

  /** A subnet that is found is not registered and holds the address. It lies in the
      network if it is no larger than the network, and it leaves out the server's
      own address exactly then. */
  lemma Search6IsValid(s: Source, prefix: nat, subPrefix: nat, raw: Addr, taken: set<Addr>)
    requires Yields(s, 16) && |raw| == 16 && 1 <= prefix <= 128 && 1 <= subPrefix <= 128
    ensures var m, sub := Mask6(prefix), Mask6(subPrefix);
            var net := And(raw, m);
            var r := Search6(s, 0, m, sub, net, taken);
            r.Some? ==>
              && r.value.sig !in taken && InNet(r.value.ip, sub, r.value.sig) && InNet(r.value.ip, m, net)
              && (prefix <= subPrefix ==> InNet(r.value.sig, m, net))
              && (!InNet(net, sub, r.value.sig) <==> prefix <= subPrefix)
  {
    var m, sub := Mask6(prefix), Mask6(subPrefix);
    Search6Shape(s, 0, m, sub, raw, taken);
    var net := And(raw, m);
    var r := Search6(s, 0, m, sub, net, taken);
    if r.Some? {
      if prefix <= subPrefix {
        MaskNested(prefix, subPrefix);
        AndAnd(r.value.ip, m, sub);
        AndAnd(raw, m, sub);
      } else {
        MaskNested(subPrefix, prefix);
        AndAnd(r.value.ip, sub, m);
      }
    }
  }

  /** The candidates in order: the hash of the seed, five times that of zeros, and random
      ones whose last four bytes are not drawn. */
  ghost function Candidate6(s: Source, k: nat, m: Addr, net: Addr): (c: Option<Addr>)
    requires Yields(s, 16) && |m| == |net| == 16
    ensures c.Some? ==> |c.value| == 16
  {
    if k == 0 then Some(Mix(s.hash(s.seed), m, net))
    else if k <= 5 then Some(Mix(s.hash(Zeros(16)), m, net))
    else if s.rng(k).None? then None
    else Some(Mix(s.rng(k).value[4..] + [0, 0, 0, 0], m, net))
  }

  ghost predicate None6Fits(s: Source, n: nat, m: Addr, sub: Addr, net: Addr, taken: set<Addr>)
    requires Yields(s, 16) && |m| == |sub| == |net| == 16
  {
    forall i :: 0 <= i < n ==> Candidate6(s, i, m, net).Some? && !Ok6(And(Candidate6(s, i, m, net).value, sub), net, taken)
  }

  ghost predicate Ends6At(s: Source, n: nat, m: Addr, sub: Addr, net: Addr, taken: set<Addr>, r: Option<Pair>)
    requires Yields(s, 16) && |m| == |sub| == |net| == 16
  {
    && n <= 16 && None6Fits(s, n, m, sub, net, taken)
    && (if n == 16 then r == None
        else match Candidate6(s, n, m, net)
          case None => r == None
          case Some(c) => Ok6(And(c, sub), net, taken) && r == Some(Pair(c, And(c, sub))))
  }

  lemma {:induction false} Search6From(s: Source, k: nat, m: Addr, sub: Addr, net: Addr, taken: set<Addr>) returns (n: nat)
    requires Yields(s, 16) && |m| == |sub| == |net| == 16 && k <= 16 && None6Fits(s, k, m, sub, net, taken)
    ensures Ends6At(s, n, m, sub, net, taken, Search6(s, k, m, sub, net, taken))
    decreases 16 - k
  {
    hide Ok6, Mix, And;
    n := k;
    if k < 16 && Draw6(s, k).Some? {
      assert Zeros(4) == [0, 0, 0, 0];
      var c := Mix(Draw6(s, k).value, m, net);
      assert Candidate6(s, k, m, net) == Some(c);
      if !Ok6(And(c, sub), net, taken) {
        n := Search6From(s, k + 1, m, sub, net, taken);
      }
    }
  }

  /** The IPv6 search yields the first of sixteen candidates whose subnet is free. */
  lemma First6OfSixteen(s: Source, m: Addr, sub: Addr, net: Addr, taken: set<Addr>) returns (n: nat)
    requires Yields(s, 16) && |m| == |sub| == |net| == 16
    ensures Ends6At(s, n, m, sub, net, taken, Search6(s, 0, m, sub, net, taken))
  {
    n := Search6From(s, 0, m, sub, net, taken);
  }

  /** The dynamic half of get_ipv6_lease. */
  method PickIpv6(s: Source, prefix: nat, subPrefix: nat, raw: Addr, taken: set<Addr>) returns (r: Option<Pair>)
    requires Yields(s, 16) && |raw| == 16
    ensures !(1 <= prefix <= 128 && 1 <= subPrefix <= 128) ==> r == None
    ensures 1 <= prefix <= 128 && 1 <= subPrefix <= 128 ==>
              r == Search6(s, 0, Mask6(prefix), Mask6(subPrefix), And(raw, Mask6(prefix)), taken)
  {
    hide And, Mask6, Mix;
    var mask, subMask := new bv8[16], new bv8[16];
    var ok := PrefixToMask(mask, prefix);
    if !ok { return None; }
    ok := PrefixToMask(subMask, subPrefix);
    if !ok { return None; }
    var m, sub := mask[..], subMask[..];
    var net := And(raw, m);
    var rnd := new bv8[16];
    var maxLoops := MAX_IP_TRIES;
    while true
      invariant 0 <= maxLoops <= MAX_IP_TRIES && fresh(rnd) && rnd.Length == 16
      invariant Search6(s, 0, m, sub, net, taken) == Search6(s, MAX_IP_TRIES - maxLoops, m, sub, net, taken)
      decreases maxLoops
    {
      if maxLoops == 0 { return None; }
      Store(rnd, Zeros(16));
      if maxLoops == MAX_IP_TRIES {
        Store(rnd, s.hash(s.seed));
      } else if maxLoops < MAX_IP_TRIES - FIXED_IPS {
        var d := s.rng(MAX_IP_TRIES - maxLoops);
        if d.None? { return None; }
        Store(rnd, d.value[4..] + Zeros(4));
      } else {
        Store(rnd, s.hash(rnd[..]));
      }
      maxLoops := maxLoops - 1;
      MixInPlace(rnd, m, net);
      var sig := And(rnd[..], sub);
      if Ok6(sig, net, taken) { return Some(Pair(rnd[..], sig)); }
    }
  }
}
