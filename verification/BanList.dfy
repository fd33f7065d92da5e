/**
 The ban list as the code has it: a table of entries updated in place, proved
 against the functions of Ban.
 */
module BanList {
  import opened Wrappers
  import opened IpAddr
  import opened Ban
  import opened BanScore

  /** An address of a local interface, with its netmask. */
  datatype Interface = Interface(addr: Addr, mask: Addr)

  /** if_address_test_local: the address lies in the network of some interface. */
  predicate IsLocal(ifs: seq<Interface>, a: Addr) {
    exists i :: 0 <= i < |ifs| && SameNet(ifs[i], a)
  }

  /** test_local_ipv4 and test_local_ipv6, for an interface of the same family. */
  predicate SameNet(i: Interface, a: Addr) {
    |i.addr| == |i.mask| == |a| && And(i.addr, i.mask) == And(a, i.mask)
  }

  predicate SameByte(x: bv8, y: bv8, m: bv8) {
    x & m == y & m
  }

  class List {
    const cfg: Config
    const ifs: seq<Interface>
    var db: Db

    constructor (cfg: Config, ifs: seq<Interface>)
      ensures this.cfg == cfg && this.ifs == ifs && db == map[]
    {
      this.cfg, this.ifs, db := cfg, ifs, map[];
    }

    /** add_ip_to_ban_list: -1 when the address is banned. It lifts and moves no ban. */
    method AddIp(ip: Addr, score: uint32, now: nat) returns (ret: int)
      modifies this
      ensures KeepsBans(cfg, old(db), db, now)
      ensures db == Apply(cfg, old(db), AddOp(ip, score, now))
      ensures ret == if Result(cfg, old(db), AddOp(ip, score, now)) == Refused then -1 else 0
    {
      hide Key, KeepsBans;
      OpKeepsBans(cfg, db, AddOp(ip, score, now));
      if cfg.maxScore == 0 || (|ip| != 4 && |ip| != 16) { return 0; }
      var k := Key(ip);
      var e;
      if k !in db {
        e := Entry(0, now, 0);
      } else {
        e := db[k];
        if (now > e.expires && e.score >= cfg.maxScore)
          || (now > e.lastReset + cfg.resetTime && e.score < cfg.maxScore)
        {
          e := e.(score := 0, lastReset := now);
        }
      }
      if e.score < cfg.maxScore {
        e := e.(expires := now + cfg.banTime);
      }
      var sum := (e.score as int + score as int) % 0x1_0000_0000;
      if sum > e.score { e := e.(score := sum); }
      db := db[k := e];
      ret := if e.score >= cfg.maxScore then -1 else 0;
    }

    /** remove_ip_from_ban_list: the next attempt or check of the address, or its /64, is
        treated as that of one never seen, and so are all after the first attempt exactly
        if that forgets the past; other addresses are as before. */
    method RemoveIp(ip: Addr) returns (removed: bool)
      modifies this
      ensures removed <==> Supported(ip) && Key(ip) in old(db)
      ensures if Supported(ip) then Lifted(cfg, old(db), db, ip) && LikeNew(cfg, old(db), db, ip) else db == old(db)
      ensures db == Apply(cfg, old(db), UnbanOp(ip))
    {
      hide Lifted, LikeNew;
      if |ip| == 4 || |ip| == 16 {
        UnbanLifts(cfg, db, ip);
        UnbanIsLikeNew(cfg, db, ip);
      }
      removed := (|ip| == 4 || |ip| == 16) && Key(ip) in db;
      if removed { db := db[Key(ip) := db[Key(ip)].(score := 0, expires := 0)]; }
    }

    /** The byte loop of test_local_ipv4 and test_local_ipv6. */
    method TestNet(i: Interface, a: Addr) returns (same: bool)
      ensures same <==> SameNet(i, a)
    {
      hide SameByte;
      if |i.addr| != |a| || |i.mask| != |a| { return false; }
      same := true;
      for b := 0 to |a|
        invariant same <==> forall c :: 0 <= c < b ==> SameByte(i.addr[c], a[c], i.mask[c])
      {
        if !SameByte(i.addr[b], a[b], i.mask[b]) { same := false; }
      }
      MaskedEqual(i.addr, a, i.mask);
    }

    method TestLocal(a: Addr) returns (local: bool)
      ensures local <==> IsLocal(ifs, a)
    {
      hide SameNet;
      for i := 0 to |ifs|
        invariant forall j :: 0 <= j < i ==> !SameNet(ifs[j], a)
      {
        var same := TestNet(ifs[i], a);
        if same { return true; }
      }
      local := false;
    }

    lemma MaskedEqual(a: Addr, b: Addr, m: Addr)
      requires |a| == |b| == |m|
      ensures And(a, m) == And(b, m) <==> forall c :: 0 <= c < |a| ==> SameByte(a[c], b[c], m[c])
    {
      hide And;
      var x, y := And(a, m), And(b, m);
      forall c | 0 <= c < |a|
        ensures x[c] == y[c] <==> SameByte(a[c], b[c], m[c])
      {
        AndAt(a, m, c);
        AndAt(b, m, c);
      }
    }

    /** check_if_banned; the clock is read twice. It lifts and moves no ban. An address that
        is banned for longer, and not local, is refused; one that is local never is; and
        one never seen is let in unless a single connection bans. */
    method CheckIfBanned(ip: Addr, now: nat, later: nat) returns (banned: bool)
      modifies this
      ensures KeepsBans(cfg, old(db), db, if now > later then now else later)
      ensures cfg.maxScore > 0 && Supported(ip) && !IsLocal(ifs, ip) ==>
                forall x :: BannedUntil(cfg, old(db), Key(ip), x) && now < x && later < x ==> banned
      ensures IsLocal(ifs, ip) || cfg.maxScore == 0 || !Supported(ip) ==> !banned && db == old(db)
      ensures Supported(ip) && !IsLocal(ifs, ip) && Key(ip) !in old(db) && later == now ==>
                (banned <==> 0 < cfg.maxScore <= cfg.pointsConnect)
      ensures db == Apply(cfg, old(db), CheckOp(ip, IsLocal(ifs, ip), now, later))
      ensures banned <==> Result(cfg, old(db), CheckOp(ip, IsLocal(ifs, ip), now, later)) == Refused
    {
      hide IsLocal, KeepsBans, Key;
      ghost var op := CheckOp(ip, IsLocal(ifs, ip), now, later);
      OpKeepsBans(cfg, db, op);
      forall x | cfg.maxScore > 0 && Supported(ip) && !op.local && BannedUntil(cfg, db, Key(ip), x) && now < x && later < x
        ensures Result(cfg, db, op) == Refused
      {
        BanHolds(cfg, db, [], Key(ip), x, op);
      }
      if Supported(ip) && !op.local && Key(ip) !in db && later == now {
        FirstContact(cfg, db, ip, now);
      }
      if cfg.maxScore == 0 { return false; }
      var local := TestLocal(ip);
      if local { return false; }
      if |ip| != 4 && |ip| != 16 { return false; }
      var _ := AddIp(ip, cfg.pointsConnect, now);
      var e := db[Key(ip)];
      if later > e.expires { return false; }
      banned := e.score >= cfg.maxScore;
    }

    /** cleanup_banned_entries: removes exactly the stale entries, and no ban in force. */
    method Cleanup(now: nat)
      modifies this
      ensures KeepsBans(cfg, old(db), db, now)
      ensures forall k :: k in old(db) ==>
                (k in db <==> now < old(db)[k].expires || now <= old(db)[k].lastReset + cfg.resetTime)
      ensures db == Apply(cfg, old(db), CleanupOp(now))
    {
      hide KeepsBans;
      OpKeepsBans(cfg, db, CleanupOp(now));
      var todo := db.Keys;
      ghost var start := db;
      while todo != {}
        invariant todo <= db.Keys <= start.Keys
        invariant forall k :: k in start ==> (k in db <==> k in todo || !Stale(cfg, start[k], now))
        invariant forall k :: k in db ==> db[k] == start[k]
        decreases todo
      {
        var k :| k in todo;
        todo := todo - {k};
        if now >= db[k].expires && now > db[k].lastReset + cfg.resetTime {
          db := db - {k};
        }
      }
      assert db == Apply(cfg, start, CleanupOp(now));
    }

    /** main_ban_db_elems */
    method CountBanned(now: nat) returns (n: nat)
      ensures n == if cfg.maxScore == 0 then 0 else |set k | k in db && db[k].expires > now && db[k].score >= cfg.maxScore|
      ensures Number(n) == Result(cfg, db, CountOp(now))
    {
      n := 0;
      if cfg.maxScore == 0 { return; }
      var todo := db.Keys;
      ghost var counted: set<Addr> := {};
      while todo != {}
        invariant todo <= db.Keys && n == |counted|
        invariant counted == set k | k in db && k !in todo && db[k].expires > now && Banned(cfg, db[k])
        decreases todo
      {
        var k :| k in todo;
        todo := todo - {k};
        if db[k].expires > now && db[k].score >= cfg.maxScore {
          counted := counted + {k};
          n := n + 1;
        }
      }
      assert counted == CountedKeys(cfg, db, now);
      assert counted == set k | k in db && db[k].expires > now && db[k].score >= cfg.maxScore;
    }
  }
}
