/**
 The lease table of main and the leases its workers hold: allocation, stealing on
 reconnect, and release (src/ip-lease.c, src/main-auth.c).

 A lease is an object with an identity. It is registered when it is in the table
 and its destructor will take it out; explicit addresses and the copies left by
 stealing never are.
 */
module LeaseTable {
  import opened Wrappers
  import opened IpAddr
  import opened LeaseSearch

  /** prefix: of the subnet of an IPv6 lease, 0 for IPv4. */
  datatype Lease = Lease(sig: Addr, registered: bool, prefix: nat)

  /** invalidated: the administrator has disconnected the worker. */
  datatype Owner = Owner(sid: seq<bv8>, username: string, invalidated: bool, v4: Option<nat>, v6: Option<nat>)

  function Opt(o: Option<nat>): (s: set<nat>) {
    if o.Some? then {o.value} else {}
  }

  /** The leases a worker holds. */
  function Held(o: Owner): (s: set<nat>) {
    Opt(o.v4) + Opt(o.v6)
  }

  /** What the configuration asks for: nothing, something unreadable, a fixed
      address, or a free one. */
  datatype Want4 = No4 | Bad4 | Fixed4(ip: Addr, mask: Addr, raw: Addr) | Free4(src: Source, mask: Addr, raw: Addr)

  datatype Want6 =
    | No6 | Bad6
    | Fixed6(ip: Addr, prefix: nat, subPrefix: nat, raw: Addr)
    | Free6(src6: Source, prefix: nat, subPrefix: nat, raw: Addr)

  ghost predicate Sane4(w: Want4) {
    && (w.Fixed4? ==> |w.ip| == |w.mask| == |w.raw| == 4)
    && (w.Free4? ==> Yields(w.src, 4) && |w.mask| == |w.raw| == 4)
  }

  ghost predicate Sane6(w: Want6) {
    && (w.Fixed6? ==> |w.ip| == |w.raw| == 16)
    && (w.Free6? ==> Yields(w.src6, 16) && |w.raw| == 16)
  }

  /** Without a prefix there is no network. */
  predicate NoNetwork6(w: Want6) {
    w.No6? || ((w.Fixed6? || w.Free6?) && (w.prefix == 0 || w.subPrefix == 0))
  }

  /** What happens to the table, in any order. */
  datatype Op =
    | Connect(p: nat)
    | Allocate(p: nat, w4: Want4, add4: bool, w6: Want6, add6: bool)
    | Reuse(p: nat, cookie: seq<bv8>, username: string, prior: Option<nat>)
    | Disconnect(p: nat)
    | Free(p: nat)
    | Quit(p: nat)

  /** The signature of the IPv4 lease that is made, if one is. */
  ghost function Made4(w: Want4, taken: set<Addr>): (r: Option<Addr>)
    requires Sane4(w)
    ensures w.No4? ==> r == None
  {
    match w
    case Fixed4(ip, mask, raw) =>
      if Ok4(ip, mask, And(raw, mask), taken) && ip != Local4(mask, And(raw, mask)) then Some(ip) else None
    case Free4(src, mask, raw) => Search4(src, 0, Zeros(4), mask, And(raw, mask), taken)
    case _ => None
  }

  /** The signature of the IPv6 lease that is made, if one is. */
  ghost function Made6(w: Want6, taken: set<Addr>): (r: Option<Addr>)
    requires Sane6(w)
    ensures NoNetwork6(w) ==> r == None
    ensures r.Some? ==> w.Fixed6? || w.Free6?
  {
    if !(w.Fixed6? || w.Free6?) || !(1 <= w.prefix <= 128 && 1 <= w.subPrefix <= 128) then None
    else if w.Fixed6? then
      var sig := And(w.ip, Mask6(w.subPrefix));
      if Ok6(sig, And(w.raw, Mask6(w.prefix)), taken) then Some(sig) else None
    else match Search6(w.src6, 0, Mask6(w.prefix), Mask6(w.subPrefix), And(w.raw, Mask6(w.prefix)), taken)
      case None => None
      case Some(r) => Some(r.sig)
  }

  /** A fixed address is given exactly if it is free and allowed, and is the one asked for. */
  lemma FixedIsGiven(w4: Want4, w6: Want6, taken: set<Addr>)
    requires Sane4(w4) && Sane6(w6) && w4.Fixed4? && w6.Fixed6?
    ensures Made4(w4, taken) == Some(w4.ip) || Made4(w4, taken) == None
    ensures var net := And(w4.raw, w4.mask);
            Made4(w4, taken).Some? <==>
            && w4.ip !in taken && w4.ip != Local4(w4.mask, net)
            && (w4.mask != [0xff, 0xff, 0xff, 0xfe] ==> w4.ip != net && w4.ip != Broadcast(w4.mask, net))
    ensures var sig := And(w6.ip, Mask6(w6.subPrefix));
            && (Made6(w6, taken) == Some(sig) || Made6(w6, taken) == None)
            && (Made6(w6, taken).Some? <==>
                  && 1 <= w6.prefix <= 128 && 1 <= w6.subPrefix <= 128
                  && sig !in taken && sig != And(w6.raw, Mask6(w6.prefix)))
  {
  }

  lemma Made4IsKept(w: Want4, taken: set<Addr>)
    requires Sane4(w) && Made4(w, taken).Some?
    ensures var a, net := Made4(w, taken).value, And(w.raw, w.mask);
            && |a| == 4
            && (w.mask == [0xff, 0xff, 0xff, 0xfe] ==> a != net)
            && (w.mask != [0xff, 0xff, 0xff, 0xfe] && w.mask[3] & 1 == 0 ==> !IsFirstHost(a, net))
            && (w.mask != [0xff, 0xff, 0xff, 0xfe] && InNet(a, w.mask, net) ==> HostHasOne(a, w.mask) && HostHasZero(a, w.mask))
  {
    hide And, Search4, Local4, Broadcast, IsFirstHost, HostHasOne, HostHasZero;
    var a, net := Made4(w, taken).value, And(w.raw, w.mask);
    if w.Free4? {
      Search4IsValid(w.src, 0, Zeros(4), w.mask, w.raw, taken);
    }
    ServerKeeps(a, w.mask, w.raw);
    if InNet(a, w.mask, net) {
      HostPart(a, w.mask, net);
    }
  }

  /** No signature that is registered is made again, nor an IPv4 address that the
      network reserves or the server has. */
  lemma MadeIsFree(w4: Want4, w6: Want6, taken: set<Addr>)
    requires Sane4(w4) && Sane6(w6)
    ensures Made4(w4, taken).Some? ==> Made4(w4, taken).value !in taken
    ensures Made4(w4, taken).Some? ==>
              var net := And(w4.raw, w4.mask);
              && Made4(w4, taken).value != Local4(w4.mask, net)
              && (w4.mask != P2P_MASK ==> Made4(w4, taken).value != net && Made4(w4, taken).value != Broadcast(w4.mask, net))
              && (w4.Free4? ==> InNet(Made4(w4, taken).value, w4.mask, net))
    ensures Made4(w4, taken).Some? && w4.mask == [0xff, 0xff, 0xff, 0xfe] ==> Made4(w4, taken).value != And(w4.raw, w4.mask)
    ensures Made4(w4, taken).Some? && w4.mask != [0xff, 0xff, 0xff, 0xfe] && w4.mask[3] & 1 == 0 ==>
              !IsFirstHost(Made4(w4, taken).value, And(w4.raw, w4.mask))
    ensures Made4(w4, taken).Some? && w4.mask != [0xff, 0xff, 0xff, 0xfe] &&
            InNet(Made4(w4, taken).value, w4.mask, And(w4.raw, w4.mask)) ==>
              HostHasOne(Made4(w4, taken).value, w4.mask) && HostHasZero(Made4(w4, taken).value, w4.mask)
    ensures Made4(w4, taken).Some? && w4.Free4? ==> !w4.src.alive(Made4(w4, taken).value)
    ensures Made6(w6, taken).Some? ==> Made6(w6, taken).value != And(w6.raw, Mask6(w6.prefix))
    ensures Made6(w6, taken).Some? ==> Made6(w6, taken).value !in taken
    ensures Made6(w6, taken).Some? && w6.Free6? && w6.prefix <= w6.subPrefix ==>
              InNet(Made6(w6, taken).value, Mask6(w6.prefix), And(w6.raw, Mask6(w6.prefix)))
  {
    hide And, Mask6, Search4, Search6, Local4, Broadcast, InNet, IsFirstHost, HostHasOne, HostHasZero;
    if w4.Free4? {
      Search4IsValid(w4.src, 0, Zeros(4), w4.mask, w4.raw, taken);
    }
    if Made4(w4, taken).Some? {
      Made4IsKept(w4, taken);
    }
    if w6.Free6? && 1 <= w6.prefix <= 128 && 1 <= w6.subPrefix <= 128 {
      Search6IsValid(w6.src6, w6.prefix, w6.subPrefix, w6.raw, taken);
      Search6Shape(w6.src6, 0, Mask6(w6.prefix), Mask6(w6.subPrefix), w6.raw, taken);
    }
  }

  // ---- Integrity ----

  ghost function AllHeld(owners: map<nat, Owner>): (s: set<nat>) {
    set p, id | p in owners && id in Held(owners[p]) :: id
  }

  /** Every lease is held by exactly one worker, in one slot. */
  ghost predicate Owned(owners: map<nat, Owner>, leases: map<nat, Lease>) {
    && leases.Keys == AllHeld(owners)
    && (forall p :: p in owners ==> Opt(owners[p].v4) !! Opt(owners[p].v6))
    && (forall p, q :: p in owners && q in owners && p != q ==> Held(owners[p]) !! Held(owners[q]))
  }

  /** The table is the set of registered leases. */
  ghost predicate Registered(leases: map<nat, Lease>, table: set<nat>) {
    forall id :: id in table <==> id in leases && leases[id].registered
  }

  /** Registered leases have different signatures. */
  ghost predicate Distinct(leases: map<nat, Lease>, table: set<nat>)
    requires table <= leases.Keys
  {
    forall a, b :: a in table && b in table && a != b ==> leases[a].sig != leases[b].sig
  }

  ghost predicate Integrity(owners: map<nat, Owner>, leases: map<nat, Lease>, table: set<nat>) {
    Owned(owners, leases) && Registered(leases, table) && Distinct(leases, table)
  }

  /** Changing what p holds changes what is held by as much. */
  lemma AllHeldUpdate(owners: map<nat, Owner>, p: nat, o: Owner)
    ensures AllHeld(owners[p := o]) == AllHeld(owners - {p}) + Held(o)
    ensures p in owners ==> AllHeld(owners) == AllHeld(owners - {p}) + Held(owners[p])
  {
    forall x | x in AllHeld(owners[p := o])
      ensures x in AllHeld(owners - {p}) + Held(o)
    {
      var q :| q in owners[p := o] && x in Held(owners[p := o][q]);
      assert q == p || (q in owners - {p} && (owners - {p})[q] == owners[q]);
    }
    forall x | x in AllHeld(owners - {p})
      ensures x in AllHeld(owners[p := o]) && x in AllHeld(owners)
    {
      var q :| q in owners - {p} && x in Held((owners - {p})[q]);
      assert q in owners && owners[p := o][q] == owners[q];
    }
    assert p in owners[p := o];
    forall x | p in owners && x in AllHeld(owners)
      ensures x in AllHeld(owners - {p}) + Held(owners[p])
    {
      var q :| q in owners && x in Held(owners[q]);
      assert q == p || (q in owners - {p} && (owners - {p})[q] == owners[q]);
    }
  }

  lemma NotHeldElsewhere(owners: map<nat, Owner>, leases: map<nat, Lease>, p: nat, id: nat)
    requires Owned(owners, leases) && p in owners && id in Held(owners[p])
    ensures id !in AllHeld(owners - {p})
  {
  }

  /** Replacing what p holds, where nobody else holds any of it. */
  lemma SwapOwned(owners: map<nat, Owner>, leases: map<nat, Lease>, leases': map<nat, Lease>, p: nat, o: Owner)
    requires Owned(owners, leases) && Opt(o.v4) !! Opt(o.v6) && Held(o) !! AllHeld(owners - {p})
    requires leases'.Keys == AllHeld(owners - {p}) + Held(o)
    ensures Owned(owners[p := o], leases')
  {
    AllHeldUpdate(owners, p, o);
    var owners' := owners[p := o];
    forall a, b | a in owners' && b in owners' && a != b
      ensures Held(owners'[a]) !! Held(owners'[b])
    {
      var q := if a == p then b else a;
      assert q in owners - {p} ==> Held(owners[q]) <= AllHeld(owners - {p}) by { HeldIsPart(owners - {p}, q); }
    }
  }

  lemma HeldIsPart(owners: map<nat, Owner>, q: nat)
    ensures q in owners ==> Held(owners[q]) <= AllHeld(owners)
  {
  }

  lemma AttachKeeps(owners: map<nat, Owner>, leases: map<nat, Lease>, table: set<nat>, p: nat, o: Owner, id: nat, l: Lease)
    requires Integrity(owners, leases, table) && p in owners && id !in leases
    requires Held(o) == Held(owners[p]) + {id} && Opt(o.v4) !! Opt(o.v6)
    requires l.registered ==> forall a :: a in table ==> leases[a].sig != l.sig
    ensures Integrity(owners[p := o], leases[id := l], table + (if l.registered then {id} else {}))
  {
    hide AllHeld, Held, Opt;
    AllHeldUpdate(owners, p, o);
    forall x | x in Held(owners[p])
      ensures x !in AllHeld(owners - {p})
    {
      NotHeldElsewhere(owners, leases, p, x);
    }
    SwapOwned(owners, leases, leases[id := l], p, o);
  }

  /** The leases and the table after at most one new lease. */
  predicate Gained(leases: map<nat, Lease>, table: set<nat>, leases': map<nat, Lease>, table': set<nat>, id: Option<nat>) {
    match id
    case None => leases' == leases && table' == table
    case Some(x) =>
      && x !in leases && x in leases' && leases' == leases[x := leases'[x]]
      && table' == table + (if leases'[x].registered then {x} else {})
  }

  /** Dropping leases that p alone holds, by a destructor or with p itself. */
  lemma DropKeeps(owners: map<nat, Owner>, leases: map<nat, Lease>, table: set<nat>, p: nat, o: Owner)
    requires Integrity(owners, leases, table) && p in owners && Held(o) <= Held(owners[p]) && Opt(o.v4) !! Opt(o.v6)
    ensures var gone := Held(owners[p]) - Held(o); Integrity(owners[p := o], leases - gone, table - gone)
  {
    hide AllHeld, Held, Opt;
    AllHeldUpdate(owners, p, o);
    forall x | x in Held(owners[p])
      ensures x !in AllHeld(owners - {p})
    {
      NotHeldElsewhere(owners, leases, p, x);
    }
    SwapOwned(owners, leases, leases - (Held(owners[p]) - Held(o)), p, o);
  }

  /** A worker that holds nothing can go. */
  lemma ForgetKeeps(owners: map<nat, Owner>, leases: map<nat, Lease>, table: set<nat>, p: nat)
    requires Integrity(owners, leases, table) && p in owners && Held(owners[p]) == {}
    ensures Integrity(owners - {p}, leases, table)
  {
    AllHeldUpdate(owners, p, owners[p]);
  }

  /** Moving everything one worker holds to another that holds nothing. */
  lemma MoveKeeps(owners: map<nat, Owner>, leases: map<nat, Lease>, table: set<nat>, p: nat, t: nat)
    requires Integrity(owners, leases, table) && p in owners && t in owners && p != t && Held(owners[t]) == {}
    ensures var o, n := owners[t].(v4 := owners[p].v4, v6 := owners[p].v6), owners[p].(v4 := None, v6 := None);
            Integrity(owners[t := o][p := n], leases, table)
  {
    hide AllHeld;
    var o, n := owners[t].(v4 := owners[p].v4, v6 := owners[p].v6), owners[p].(v4 := None, v6 := None);
    var mid := owners[p := n];
    var rest := owners - {p};
    AllHeldUpdate(owners, p, n);
    AllHeldUpdate(mid, t, o);
    assert mid[t := o] == owners[t := o][p := n];
    forall x | x in Held(owners[p])
      ensures x !in AllHeld(rest)
    {
      NotHeldElsewhere(owners, leases, p, x);
    }
    var without := map id | id in leases && id !in Held(owners[p]) :: leases[id];
    assert without.Keys == AllHeld(rest);
    SwapOwned(owners, leases, without, p, n);
    SwapOwned(mid, without, leases, t, o);
  }

  /** What a worker is left with when its leases are stolen: itself, with unregistered
      copies of them. */
  ghost predicate Left(o: Owner, o': Owner, leases: map<nat, Lease>) {
    && o' == o.(v4 := o'.v4, v6 := o'.v6)
    && IsCopy(o.v4, o'.v4, leases) && IsCopy(o.v6, o'.v6, leases)
  }

  ghost predicate IsCopy(a: Option<nat>, b: Option<nat>, leases: map<nat, Lease>) {
    && (a.Some? <==> b.Some?)
    && (a.Some? ==> a.value in leases && b.value in leases && leases[b.value] == leases[a.value].(registered := false))
  }

  // ---- The table in place ----

  class Leases {
    var owners: map<nat, Owner>
    var leases: map<nat, Lease>
    var table: set<nat>
    var next: nat

    constructor ()
      ensures Valid() && owners == map[] && leases == map[] && table == {}
    {
      owners, leases, table, next := map[], map[], {}, 0;
    }

    ghost predicate Valid()
      reads this
    {
      Integrity(owners, leases, table) && forall id :: id in leases ==> id < next
    }

    /** The registered signatures, which is what ip_lease_exists looks at. */
    function Taken(): (s: set<Addr>)
      requires table <= leases.Keys
      reads this
    {
      set id | id in table :: leases[id].sig
    }

    /** new_proc */
    method AddProc(p: nat)
      requires Valid() && p !in owners
      modifies this
      ensures Valid() && owners == old(owners)[p := Owner([], "", false, None, None)]
      ensures leases == old(leases) && table == old(table)
    {
      assert owners - {p} == owners;
      SwapOwned(owners, leases, leases, p, Owner([], "", false, None, None));
      owners := owners[p := Owner([], "", false, None, None)];
    }

    /** A new lease in an empty slot of p, put in the table if it is to be registered. */
    method Attach(p: nat, six: bool, sig: Addr, registered: bool, prefix: nat) returns (id: nat)
      requires Valid() && p in owners
      requires if six then owners[p].v6.None? else owners[p].v4.None?
      requires registered ==> sig !in Taken()
      modifies this
      ensures Valid() && id !in old(leases)
      ensures leases == old(leases)[id := Lease(sig, registered, prefix)]
      ensures table == old(table) + (if registered then {id} else {})
      ensures owners == old(owners)[p := if six then old(owners)[p].(v6 := Some(id)) else old(owners)[p].(v4 := Some(id))]
    {
      hide Integrity;
      LeasesAreHeld();
      id := next;
      next := next + 1;
      var o := if six then owners[p].(v6 := Some(id)) else owners[p].(v4 := Some(id));
      assert Held(o) == Held(owners[p]) + {id};
      HeldIsPart(owners, p);
      assert forall a :: a in table ==> leases[a].sig in Taken();
      AttachKeeps(owners, leases, table, p, o, id, Lease(sig, registered, prefix));
      leases := leases[id := Lease(sig, registered, prefix)];
      assert table + {} == table;
      if registered { table := table + {id}; }
      owners := owners[p := o];
    }

    lemma TableIsRegistered()
      requires Valid()
      ensures forall id :: id in leases ==> (leases[id].registered <==> id in table)
    {
    }

    lemma LeasesAreHeld()
      requires Valid()
      ensures AllHeld(owners) == leases.Keys && table <= leases.Keys
    {
    }

    /** get_ipv4_lease and its registration: the answer is the C return value's sign. */
    method GetIpv4(p: nat, w: Want4, addOk: bool) returns (ok: bool)
      requires Valid() && p in owners && owners[p].v4.None? && Sane4(w)
      modifies this
      ensures Valid() && p in owners && owners == old(owners)[p := old(owners)[p].(v4 := owners[p].v4)]
      ensures Gained(old(leases), old(table), leases, table, owners[p].v4)
      ensures ok <==> w.No4? || (Made4(w, old(Taken())).Some? && (w.Free4? ==> addOk))
      ensures owners[p].v4.Some? <==> Made4(w, old(Taken())).Some?
      ensures owners[p].v4.Some? ==> leases[owners[p].v4.value] == Lease(Made4(w, old(Taken())).value, w.Free4? && addOk, 0)
    {
      hide Integrity, Held, Search4, InNet, And, Local4;
      LeasesAreHeld();
      match w
      case No4 => return true;
      case Bad4 => return false;
      case Fixed4(ip, mask, raw) =>
        var net := And(raw, mask);
        if !Ok4(ip, mask, net, Taken()) { return false; }
        if ip == Local4(mask, net) { return false; }
        var _ := Attach(p, false, ip, false, 0);
        return true;
      case Free4(src, mask, raw) =>
        var ip := PickIpv4(src, mask, raw, Taken());
        if ip.None? { return false; }
        var _ := Attach(p, false, ip.value, addOk, 0);
        return addOk;
    }

    /** get_ipv6_lease and its registration. */
    method GetIpv6(p: nat, w: Want6, addOk: bool) returns (ok: bool)
      requires Valid() && p in owners && owners[p].v6.None? && Sane6(w)
      modifies this
      ensures Valid() && p in owners && owners == old(owners)[p := old(owners)[p].(v6 := owners[p].v6)]
      ensures Gained(old(leases), old(table), leases, table, owners[p].v6)
      ensures ok <==> NoNetwork6(w) || (Made6(w, old(Taken())).Some? && (w.Free6? ==> addOk))
      ensures owners[p].v6.Some? <==> Made6(w, old(Taken())).Some?
      ensures owners[p].v6.Some? ==>
                leases[owners[p].v6.value] == Lease(Made6(w, old(Taken())).value, w.Free6? && addOk, w.subPrefix)
    {
      hide Integrity, Held, Search6, InNet, Mask6, And;
      LeasesAreHeld();
      if NoNetwork6(w) { return true; }
      match w
      case Bad6 => return false;
      case Fixed6(ip, prefix, subPrefix, raw) =>
        if prefix > 128 || subPrefix > 128 { return false; }
        var sig := And(ip, Mask6(subPrefix));
        if !Ok6(sig, And(raw, Mask6(prefix)), Taken()) { return false; }
        var _ := Attach(p, true, sig, false, subPrefix);
        return true;
      case Free6(src, prefix, subPrefix, raw) =>
        var r := PickIpv6(src, prefix, subPrefix, raw, Taken());
        if r.None? { return false; }
        Search6IsValid(src, prefix, subPrefix, raw, Taken());
        var _ := Attach(p, true, r.value.sig, addOk, subPrefix);
        return addOk;
    }

    /** remove_ip_leases: frees both leases; the destructor of a registered one takes
        it out of the table. */
    method RemoveIpLeases(p: nat)
      requires Valid() && p in owners
      modifies this
      ensures Valid() && owners == old(owners)[p := old(owners)[p].(v4 := None, v6 := None)]
      ensures leases == old(leases) - Held(old(owners)[p]) && table == old(table) - Held(old(owners)[p])
    {
      hide Integrity;
      var o := owners[p].(v4 := None, v6 := None);
      DropKeeps(owners, leases, table, p, o);
      assert Held(owners[p]) - Held(o) == Held(owners[p]);
      leases, table := leases - Held(owners[p]), table - Held(owners[p]);
      owners := owners[p := o];
    }

    /** remove_proc */
    method RemoveProc(p: nat)
      requires Valid() && p in owners
      modifies this
      ensures Valid() && owners == old(owners) - {p}
      ensures leases == old(leases) - Held(old(owners)[p]) && table == old(table) - Held(old(owners)[p])
    {
      hide Integrity;
      RemoveIpLeases(p);
      ForgetKeeps(owners, leases, table, p);
      owners := owners - {p};
    }

    /** The copies for a worker that holds nothing, of leases that exist. */
    method LeaveCopies(p: nat, v4: Option<nat>, v6: Option<nat>)
      requires Valid() && p in owners && Held(owners[p]) == {} && Opt(v4) + Opt(v6) <= leases.Keys
      modifies this
      ensures Valid() && table == old(table) && p in owners && owners == old(owners)[p := owners[p]]
      ensures Left(old(owners)[p].(v4 := v4, v6 := v6), owners[p], leases)
      ensures forall id :: id in old(leases) ==> id in leases && leases[id] == old(leases)[id]
    {
      hide Integrity, AllHeld;
      assert owners == owners[p := owners[p]];
      if v4.Some? { var _ := Attach(p, false, leases[v4.value].sig, false, leases[v4.value].prefix); }
      if v6.Some? { var _ := Attach(p, true, leases[v6.value].sig, false, leases[v6.value].prefix); }
    }

    /** steal_ip_leases: the thief gets the leases themselves; the worker that had
        them is left with unregistered copies. */
    method StealIpLeases(p: nat, thief: nat)
      requires Valid() && p in owners && thief in owners && p != thief && Held(owners[thief]) == {}
      modifies this
      ensures Valid() && table == old(table)
      ensures owners.Keys == old(owners).Keys
      ensures owners[thief] == old(owners)[thief].(v4 := old(owners)[p].v4, v6 := old(owners)[p].v6)
      ensures Left(old(owners)[p], owners[p], leases)
      ensures forall q :: q in owners && q != p && q != thief ==> owners[q] == old(owners)[q]
      ensures forall id :: id in old(leases) ==> id in leases && leases[id] == old(leases)[id]
    {
      hide Integrity, AllHeld;
      LeasesAreHeld();
      HeldIsPart(owners, p);
      var v4, v6 := owners[p].v4, owners[p].v6;
      MoveKeeps(owners, leases, table, p, thief);
      owners := owners[thief := owners[thief].(v4 := v4, v6 := v6)][p := owners[p].(v4 := None, v6 := None)];
      LeaveCopies(p, v4, v6);
    }

    /** disconnect_proc: the worker keeps its leases until it goes. */
    method Invalidate(p: nat)
      requires Valid() && p in owners
      modifies this`owners
      ensures Valid() && owners == old(owners)[p := old(owners)[p].(invalidated := true)]
    {
      hide Integrity;
      RenameKeeps(owners, leases, table, p, owners[p].(invalidated := true));
      owners := owners[p := owners[p].(invalidated := true)];
    }

    /** The end of handle_auth_cookie_req: leases pass from a worker only to one that
        presents its SID and opens the session under its username, and never from one
        that has been disconnected. */
    method ReuseSession(p: nat, cookie: seq<bv8>, username: string, prior: Option<nat>) returns (ok: bool)
      requires Valid() && p in owners && Held(owners[p]) == {}
      requires prior.Some? ==> prior.value in owners && prior.value != p && owners[prior.value].sid == cookie
      modifies this
      ensures Valid() && table == old(table) && owners.Keys == old(owners).Keys
      ensures ok <==> (prior.Some? ==> !old(owners)[prior.value].invalidated && old(owners)[prior.value].username == username)
      ensures prior.Some? && old(owners)[prior.value].invalidated ==> owners == old(owners)
      ensures ok ==> owners[p].sid == cookie && owners[p].username == username
      ensures ok && prior.Some? ==> owners[p].v4 == old(owners)[prior.value].v4 && owners[p].v6 == old(owners)[prior.value].v6
      ensures forall id :: id in old(leases) ==> id in leases && leases[id] == old(leases)[id]
      ensures !(ok && prior.Some?) ==> Held(owners[p]) == {} && leases == old(leases)
      ensures forall q :: q in owners && q != p && !(ok && Some(q) == prior) ==> owners[q] == old(owners)[q]
      ensures ok && prior.Some? ==> Left(old(owners)[prior.value], owners[prior.value], leases)
      ensures forall id :: id in Held(owners[p]) ==> id in leases && (leases[id].registered <==> id in old(table))
    {
      hide Integrity;
      LeasesAreHeld();
      if prior.Some? { HeldIsPart(owners, prior.value); }
      TableIsRegistered();
      if prior.Some? && owners[prior.value].invalidated { return false; }
      RenameKeeps(owners, leases, table, p, owners[p].(username := username));
      owners := owners[p := owners[p].(username := username)];
      if prior.Some? {
        if owners[prior.value].username != username { return false; }
        StealIpLeases(prior.value, p);
      }
      RenameKeeps(owners, leases, table, p, owners[p].(sid := cookie));
      owners := owners[p := owners[p].(sid := cookie)];
      ok := true;
    }

    lemma RenameKeeps(owners: map<nat, Owner>, leases: map<nat, Lease>, table: set<nat>, p: nat, o: Owner)
      requires Integrity(owners, leases, table) && p in owners && o.v4 == owners[p].v4 && o.v6 == owners[p].v6
      ensures Integrity(owners[p := o], leases, table)
    {
      DropKeeps(owners, leases, table, p, o);
      var gone := Held(owners[p]) - Held(o);
      assert gone == {} && leases - gone == leases && table - gone == table;
    }

    /** get_ip_leases */
    method GetIpLeases(p: nat, w4: Want4, add4: bool, w6: Want6, add6: bool) returns (ok: bool)
      requires Valid() && p in owners && Sane4(w4) && Sane6(w6)
      modifies this
      ensures Valid() && table >= old(table) && owners.Keys == old(owners).Keys
      ensures forall q :: q in owners && q != p ==> owners[q] == old(owners)[q]
      ensures forall id :: id in old(leases) ==> id in leases && leases[id] == old(leases)[id]
      ensures Held(owners[p]) >= Held(old(owners)[p])
      ensures forall id :: id in leases && id !in old(leases) ==> id in Held(owners[p])
      ensures ok ==> Held(owners[p]) != {}
      ensures ok ==> (owners[p].v4.Some? <==> old(owners)[p].v4.Some? || !w4.No4?)
      ensures ok ==> (owners[p].v6.Some? <==> old(owners)[p].v6.Some? || !NoNetwork6(w6))
    {
      hide Integrity, Made4, Made6;
      if owners[p].v4.None? {
        ok := GetIpv4(p, w4, add4);
        if !ok { return; }
      }
      if owners[p].v6.None? {
        ok := GetIpv6(p, w6, add6);
        if !ok { return; }
      }
      ok := owners[p].v4.Some? || owners[p].v6.Some?;
    }

    /** The IPv6 subnets of different workers have no address in common, if both are
        registered and of one size. */
    lemma SubnetsOfWorkers(p: nat, q: nat, x: Addr)
      requires Valid() && p in owners && q in owners && p != q && owners[p].v6.Some? && owners[q].v6.Some?
      requires owners[p].v6.value in table && owners[q].v6.value in table
      requires leases[owners[p].v6.value].prefix == leases[owners[q].v6.value].prefix
      ensures var a, b := leases[owners[p].v6.value], leases[owners[q].v6.value];
              !(InNet(x, Mask6(a.prefix), a.sig) && InNet(x, Mask6(b.prefix), b.sig))
    {
      hide Mask6, And;
      assert owners[p].v6.value in Held(owners[p]) && owners[q].v6.value in Held(owners[q]);
    }

    /** Whether an operation can happen now. */
    ghost predicate Possible(op: Op)
      reads this
    {
      match op
      case Connect(p) => p !in owners
      case Allocate(p, w4, _, w6, _) => p in owners && Sane4(w4) && Sane6(w6)
      case Reuse(p, cookie, _, prior) =>
        && p in owners && Held(owners[p]) == {}
        && (prior.Some? ==> prior.value in owners && prior.value != p && owners[prior.value].sid == cookie)
      case Disconnect(p) => p in owners
      case Free(p) => p in owners
      case Quit(p) => p in owners
    }

    method Do(op: Op)
      requires Valid() && Possible(op)
      modifies this
      ensures Valid()
    {
      match op
      case Connect(p) => AddProc(p);
      case Allocate(p, w4, add4, w6, add6) => var _ := GetIpLeases(p, w4, add4, w6, add6);
      case Reuse(p, cookie, username, prior) => var _ := ReuseSession(p, cookie, username, prior);
      case Disconnect(p) => Invalidate(p);
      case Free(p) => RemoveIpLeases(p);
      case Quit(p) => RemoveProc(p);
    }
  }

  // ---- Workers that share a SID ----

  /** The worker's IPv4 address, and whether it is registered. */
  ghost predicate Has4(l: Leases, p: nat, sig: Addr, registered: bool)
    reads l
  {
    && p in l.owners && l.owners[p].v4.Some? && l.owners[p].v4.value in l.leases
    && l.leases[l.owners[p].v4.value].sig == sig && l.leases[l.owners[p].v4.value].registered == registered
  }

  const SHARED_NET: Addr := [10, 0, 0, 0]
  const SHARED_MASK: Addr := [0xff, 0xff, 0xff, 0]
  const SHARED_IP: Addr := [10, 0, 0, 5]

  function Shared(): (w: Want4) {
    Free4(Source(SHARED_IP, (_: Addr) => Zeros(4), (_: nat) => None, (_: Addr) => false), SHARED_MASK, SHARED_NET)
  }

  lemma SharedIsMade(taken: set<Addr>)
    requires SHARED_IP !in taken
    ensures Sane4(Shared()) && Made4(Shared(), taken) == Some(SHARED_IP)
  {
    var net := And(SHARED_NET, SHARED_MASK);
    assert net == SHARED_NET;
    assert Mix(SHARED_IP, SHARED_MASK, net) == SHARED_IP;
    assert Broadcast(SHARED_MASK, net)[3] == 0xff;
    assert Local4(SHARED_MASK, net)[3] == 1;
    assert Fits4(Shared().src, SHARED_IP, SHARED_MASK, net, taken);
  }

  /** A worker comes back with the SID and the name of one that is there. It takes over
      the address, registered exactly if it was; the one that had it is left with it
      unregistered. */
  method ComeBack(l: Leases, p: nat, prior: nat, sig: Addr, registered: bool)
    requires l.Valid() && p !in l.owners && Has4(l, prior, sig, registered) && !l.owners[prior].invalidated
    modifies l
    ensures l.Valid() && Has4(l, p, sig, registered) && Has4(l, prior, sig, false)
    ensures l.table == old(l.table) && l.owners.Keys == old(l.owners).Keys + {p}
    ensures l.owners[p].v4 == old(l.owners)[prior].v4 && l.owners[p].v6 == old(l.owners)[prior].v6
    ensures !l.owners[prior].invalidated && (l.owners[prior].v6.None? <==> old(l.owners)[prior].v6.None?)
    ensures forall q :: q in old(l.owners) && q != prior ==> l.owners[q] == old(l.owners)[q]
    ensures forall id :: id in old(l.leases) ==> id in l.leases && l.leases[id] == old(l.leases)[id]
  {
    hide Integrity;
    l.AddProc(p);
    var ok := l.ReuseSession(p, l.owners[prior].sid, l.owners[prior].username, Some(prior));
  }

  /** A worker with a dynamic address. */
  method ComeFirst() returns (l: Leases)
    ensures fresh(l) && l.Valid() && l.owners.Keys == {1} && Has4(l, 1, SHARED_IP, true) && !l.owners[1].invalidated
    ensures l.table == {l.owners[1].v4.value} && l.owners[1].v6.None?
  {
    hide Integrity, Made4;
    l := new Leases();
    l.AddProc(1);
    assert l.Taken() == {};
    SharedIsMade({});
    var _ := l.GetIpv4(1, Shared(), true);
  }

  /** Two workers come back one after the other for the session of the first. The second
      has its address; the third has only a copy that is not registered, because the
      first had nothing else left. */
  method StealTwice() returns (l: Leases)
    ensures fresh(l) && l.Valid() && l.owners.Keys == {1, 2, 3}
    ensures Has4(l, 2, SHARED_IP, true) && Has4(l, 3, SHARED_IP, false)
    ensures l.table == {l.owners[2].v4.value} && l.owners[2].v6.None?
  {
    hide Integrity;
    l := ComeFirst();
    ComeBack(l, 2, 1, SHARED_IP, true);
    ComeBack(l, 3, 1, SHARED_IP, false);
  }

  /** When the second goes, the address is free for a fourth, while the third has it. */
  method GivenTwice() returns (l: Leases)
    ensures fresh(l) && l.Valid()
    ensures Has4(l, 3, SHARED_IP, false) && Has4(l, 4, SHARED_IP, true)
  {
    hide Integrity, Made4;
    l := StealTwice();
    l.RemoveProc(2);
    assert l.table == {};
    l.AddProc(4);
    assert l.Taken() == {};
    SharedIsMade({});
    var _ := l.GetIpv4(4, Shared(), true);
  }
}
