/**
 The indexes over the connected workers (src/proc-search.c): hash tables whose keys are
 fields of the procs and change while the procs are in the tables. A hash table is the
 multiset of its entries, each filed under the hash it was added with; only an entry
 filed under the hash that is asked for can be deleted.
 */
module ProcTable {
  import opened Wrappers

  type Key = seq<bv8>

  /** A socket address: the IP, 4 or 16 bytes, and everything else in it. The size of
      the address goes with the size of the IP. */
  datatype Sock = Sock(ip: Key, other: nat)

  /** dtls is None when dtls_remote_addr_len is zero; added says whether proc_table_add
      has filed the proc. */
  datatype Proc = Proc(remote: Sock, dtls: Option<Sock>, dtlsId: Key, sid: Key, added: bool)

  type Entry = (nat, nat)

  // ---- The keys of a proc ----

  function IpKey(q: Proc): (k: Option<Key>) {
    if q.added then Some(q.remote.ip) else None
  }

  function DtlsIpKey(q: Proc): (k: Option<Key>) {
    if q.dtls.Some? then Some(q.dtls.value.ip) else None
  }

  function DtlsIdKey(q: Proc): (k: Option<Key>) {
    if q.added then Some(q.dtlsId) else None
  }

  function SidKey(q: Proc): (k: Option<Key>) {
    if q.added then Some(q.sid) else None
  }

  /** The DTLS address, if there is one, is not that of the CSTP channel. */
  predicate DtlsDiffers(q: Proc) {
    q.dtls.Some? ==> q.dtls.value.ip != q.remote.ip
  }

  // ---- Agreement of a table with the procs ----

  predicate Filed(hash: Key -> nat, procs: map<nat, Proc>, key: Proc -> Option<Key>, e: Entry) {
    e.1 in procs && key(procs[e.1]).Some? && e.0 == hash(key(procs[e.1]).value)
  }

  /** The table has one entry for each proc that has a key, filed under the hash of the
      key it has now, and nothing else. */
  ghost predicate Agrees(hash: Key -> nat, db: multiset<Entry>, procs: map<nat, Proc>, key: Proc -> Option<Key>) {
    forall e: Entry :: db[e] == if Filed(hash, procs, key, e) then 1 else 0
  }

  function Insert(db: multiset<Entry>, e: Entry): (r: multiset<Entry>) {
    db + multiset{e}
  }

  function Drop(db: multiset<Entry>, e: Entry): (r: multiset<Entry>) {
    db - multiset{e}
  }

  lemma DropInsert(db: multiset<Entry>, e: Entry)
    ensures Drop(Insert(db, e), e) == db
    ensures e in db ==> Insert(Drop(db, e), e) == db
    ensures e !in db ==> Drop(db, e) == db
  {
  }

  function Without(hash: Key -> nat, db: multiset<Entry>, p: nat, k: Option<Key>): (r: multiset<Entry>) {
    if k.Some? then Drop(db, (hash(k.value), p)) else db
  }

  function With(hash: Key -> nat, db: multiset<Entry>, p: nat, k: Option<Key>): (r: multiset<Entry>) {
    if k.Some? then Insert(db, (hash(k.value), p)) else db
  }

  /** The table after the key of p has gone from k to k'. */
  function Refiled(hash: Key -> nat, db: multiset<Entry>, p: nat, k: Option<Key>, k': Option<Key>): (r: multiset<Entry>) {
    if k == k' then db else With(hash, Without(hash, db, p, k), p, k')
  }

  /** The entries of p are the one under its key. */
  lemma EntriesOf(hash: Key -> nat, db: multiset<Entry>, procs: map<nat, Proc>, key: Proc -> Option<Key>, p: nat, h: nat)
    requires Agrees(hash, db, procs, key)
    ensures (h, p) in db <==> p in procs && key(procs[p]).Some? && h == hash(key(procs[p]).value)
  {
    assert db[(h, p)] == if Filed(hash, procs, key, (h, p)) then 1 else 0;
  }

  /** A table that has lost the entry of a proc does not agree. */
  lemma MissingEntry(hash: Key -> nat, db: multiset<Entry>, procs: map<nat, Proc>, key: Proc -> Option<Key>, p: nat)
    requires p in procs && key(procs[p]).Some? && (hash(key(procs[p]).value), p) !in db
    ensures !Agrees(hash, db, procs, key)
  {
    var e := (hash(key(procs[p]).value), p);
    assert Filed(hash, procs, key, e) && db[e] == 0;
  }

  lemma AgreesDel(hash: Key -> nat, db: multiset<Entry>, procs: map<nat, Proc>, key: Proc -> Option<Key>, p: nat)
    requires Agrees(hash, db, procs, key) && p in procs
    ensures Agrees(hash, Without(hash, db, p, key(procs[p])), procs - {p}, key)
    ensures forall h: nat :: (h, p) !in Without(hash, db, p, key(procs[p]))
  {
    var k := key(procs[p]);
    forall h: nat
      ensures (h, p) !in Without(hash, db, p, k)
    {
      EntriesOf(hash, db, procs, key, p, h);
      assert db[(h, p)] == if Filed(hash, procs, key, (h, p)) then 1 else 0;
    }
    forall e: Entry
      ensures Without(hash, db, p, k)[e] == if Filed(hash, procs - {p}, key, e) then 1 else 0
    {
      assert db[e] == if Filed(hash, procs, key, e) then 1 else 0;
    }
  }

  lemma AgreesPut(hash: Key -> nat, db: multiset<Entry>, procs: map<nat, Proc>, key: Proc -> Option<Key>, p: nat, q: Proc)
    requires Agrees(hash, db, procs, key) && p !in procs
    ensures Agrees(hash, With(hash, db, p, key(q)), procs[p := q], key)
  {
    forall e: Entry
      ensures With(hash, db, p, key(q))[e] == if Filed(hash, procs[p := q], key, e) then 1 else 0
    {
      assert db[e] == if Filed(hash, procs, key, e) then 1 else 0;
    }
  }

  /** A proc may change in place exactly if its entry would be refiled where it is. */
  lemma AgreesInPlace(hash: Key -> nat, db: multiset<Entry>, procs: map<nat, Proc>, key: Proc -> Option<Key>, p: nat, q: Proc)
    requires Agrees(hash, db, procs, key) && p in procs
    ensures Agrees(hash, db, procs[p := q], key) <==>
      (key(q).Some? == key(procs[p]).Some? && (key(q).Some? ==> hash(key(q).value) == hash(key(procs[p]).value)))
  {
    var k, k' := key(procs[p]), key(q);
    if k.Some? == k'.Some? && (k.Some? ==> hash(k'.value) == hash(k.value)) {
      forall e: Entry
        ensures db[e] == if Filed(hash, procs[p := q], key, e) then 1 else 0
      {
        assert db[e] == if Filed(hash, procs, key, e) then 1 else 0;
      }
    } else {
      var e := (hash(if k.Some? then k.value else k'.value), p);
      assert Filed(hash, procs, key, e) != Filed(hash, procs[p := q], key, e);
      assert db[e] == if Filed(hash, procs, key, e) then 1 else 0;
    }
  }

  /** A proc is refiled when it changes. */
  lemma AgreesUpdate(hash: Key -> nat, db: multiset<Entry>, procs: map<nat, Proc>, key: Proc -> Option<Key>, p: nat, q: Proc)
    requires Agrees(hash, db, procs, key) && p in procs
    ensures Agrees(hash, Refiled(hash, db, p, key(procs[p]), key(q)), procs[p := q], key)
  {
    hide Agrees, With, Without;
    AgreesInPlace(hash, db, procs, key, p, q);
    AgreesDel(hash, db, procs, key, p);
    AgreesPut(hash, Without(hash, db, p, key(procs[p])), procs - {p}, key, p, q);
    assert (procs - {p})[p := q] == procs[p := q];
  }

  /** The four tables. */
  datatype Index = Index(ip: multiset<Entry>, dtlsIp: multiset<Entry>, dtlsId: multiset<Entry>, sid: multiset<Entry>)

  /** Every table agrees with the procs, and no DTLS address repeats the CSTP address. */
  ghost predicate AllAgree(hash: Key -> nat, ix: Index, procs: map<nat, Proc>) {
    && Agrees(hash, ix.ip, procs, IpKey)
    && Agrees(hash, ix.dtlsIp, procs, DtlsIpKey)
    && Agrees(hash, ix.dtlsId, procs, DtlsIdKey)
    && Agrees(hash, ix.sid, procs, SidKey)
    && forall p :: p in procs ==> DtlsDiffers(procs[p])
  }

  /** The tables after p has gone from q to q'. */
  function Placed(hash: Key -> nat, ix: Index, p: nat, q: Proc, q': Proc): (r: Index) {
    Index(Refiled(hash, ix.ip, p, IpKey(q), IpKey(q')), Refiled(hash, ix.dtlsIp, p, DtlsIpKey(q), DtlsIpKey(q')),
          Refiled(hash, ix.dtlsId, p, DtlsIdKey(q), DtlsIdKey(q')), Refiled(hash, ix.sid, p, SidKey(q), SidKey(q')))
  }

  lemma AllPlaced(hash: Key -> nat, ix: Index, procs: map<nat, Proc>, p: nat, q: Proc)
    requires AllAgree(hash, ix, procs) && p in procs && DtlsDiffers(q)
    ensures AllAgree(hash, Placed(hash, ix, p, procs[p], q), procs[p := q])
  {
    hide Agrees, Refiled;
    AgreesUpdate(hash, ix.ip, procs, IpKey, p, q);
    AgreesUpdate(hash, ix.dtlsIp, procs, DtlsIpKey, p, q);
    AgreesUpdate(hash, ix.dtlsId, procs, DtlsIdKey, p, q);
    AgreesUpdate(hash, ix.sid, procs, SidKey, p, q);
  }

  /** The tables after p has been deleted. */
  function Removed(hash: Key -> nat, ix: Index, p: nat, q: Proc): (r: Index) {
    Index(Without(hash, ix.ip, p, IpKey(q)), Without(hash, ix.dtlsIp, p, DtlsIpKey(q)),
          Without(hash, ix.dtlsId, p, DtlsIdKey(q)), Without(hash, ix.sid, p, SidKey(q)))
  }

  lemma AllRemoved(hash: Key -> nat, ix: Index, procs: map<nat, Proc>, p: nat)
    requires AllAgree(hash, ix, procs) && p in procs
    ensures AllAgree(hash, Removed(hash, ix, p, procs[p]), procs - {p})
  {
    hide Agrees, Without;
    AgreesDel(hash, ix.ip, procs, IpKey, p);
    AgreesDel(hash, ix.dtlsIp, procs, DtlsIpKey, p);
    AgreesDel(hash, ix.dtlsId, procs, DtlsIdKey, p);
    AgreesDel(hash, ix.sid, procs, SidKey, p);
  }

  lemma AllPut(hash: Key -> nat, ix: Index, procs: map<nat, Proc>, p: nat, q: Proc)
    requires AllAgree(hash, ix, procs) && p !in procs && q.dtls.None? && !q.added
    ensures AllAgree(hash, ix, procs[p := q])
  {
    hide Agrees;
    AgreesPut(hash, ix.ip, procs, IpKey, p, q);
    AgreesPut(hash, ix.dtlsIp, procs, DtlsIpKey, p, q);
    AgreesPut(hash, ix.dtlsId, procs, DtlsIdKey, p, q);
    AgreesPut(hash, ix.sid, procs, SidKey, p, q);
  }

  /** Where p is filed. */
  lemma Entries(hash: Key -> nat, ix: Index, procs: map<nat, Proc>, p: nat, h: nat)
    requires AllAgree(hash, ix, procs)
    ensures (h, p) in ix.ip <==> p in procs && procs[p].added && h == hash(procs[p].remote.ip)
    ensures (h, p) in ix.dtlsIp <==> p in procs && procs[p].dtls.Some? && h == hash(procs[p].dtls.value.ip)
    ensures (h, p) in ix.dtlsId <==> p in procs && procs[p].added && h == hash(procs[p].dtlsId)
    ensures (h, p) in ix.sid <==> p in procs && procs[p].added && h == hash(procs[p].sid)
  {
    hide Agrees;
    EntriesOf(hash, ix.ip, procs, IpKey, p, h);
    EntriesOf(hash, ix.dtlsIp, procs, DtlsIpKey, p, h);
    EntriesOf(hash, ix.dtlsId, procs, DtlsIdKey, p, h);
    EntriesOf(hash, ix.sid, procs, SidKey, p, h);
  }

  lemma Differs(hash: Key -> nat, ix: Index, procs: map<nat, Proc>, p: nat)
    requires AllAgree(hash, ix, procs) && p in procs
    ensures DtlsDiffers(procs[p])
  {
  }

  lemma GoneWithout(hash: Key -> nat, ix: Index, procs: map<nat, Proc>, p: nat, h: nat)
    requires AllAgree(hash, ix, procs) && p in procs
    ensures (h, p) !in Without(hash, ix.ip, p, IpKey(procs[p]))
  {
    hide Agrees;
    AgreesDel(hash, ix.ip, procs, IpKey, p);
  }

  /** A table that has lost an entry does not agree with the procs. */
  lemma Lost(hash: Key -> nat, ix: Index, procs: map<nat, Proc>, p: nat)
    requires p in procs
    requires (procs[p].added && (hash(procs[p].remote.ip), p) !in ix.ip)
          || (procs[p].dtls.Some? && (hash(procs[p].dtls.value.ip), p) !in ix.dtlsIp)
    ensures !AllAgree(hash, ix, procs)
  {
    hide Agrees;
    if procs[p].added && (hash(procs[p].remote.ip), p) !in ix.ip {
      MissingEntry(hash, ix.ip, procs, IpKey, p);
    } else {
      MissingEntry(hash, ix.dtlsIp, procs, DtlsIpKey, p);
    }
  }

  /** Deleting a proc that was never added takes nothing out. */
  lemma DropUnfiled(hash: Key -> nat, ix: Index, procs: map<nat, Proc>, p: nat)
    requires AllAgree(hash, ix, procs) && p in procs
    ensures var q := procs[p]; !q.added ==>
      && Drop(ix.ip, (hash(q.remote.ip), p)) == ix.ip
      && Drop(ix.dtlsId, (hash(q.dtlsId), p)) == ix.dtlsId
      && Drop(ix.sid, (hash(q.sid), p)) == ix.sid
  {
    hide AllAgree, Insert, Drop;
    var q := procs[p];
    Entries(hash, ix, procs, p, hash(q.remote.ip));
    Entries(hash, ix, procs, p, hash(q.dtlsId));
    Entries(hash, ix, procs, p, hash(q.sid));
    DropInsert(ix.ip, (hash(q.remote.ip), p));
    DropInsert(ix.dtlsId, (hash(q.dtlsId), p));
    DropInsert(ix.sid, (hash(q.sid), p));
  }

  /** The proc with another CSTP address. */
  function Moved(q: Proc, addr: Sock): (r: Proc)
    ensures DtlsDiffers(q) ==> DtlsDiffers(r)
  {
    q.(remote := addr, dtls := if q.dtls.Some? && q.dtls.value.ip == addr.ip then None else q.dtls)
  }

  class Tables {
    const hash: Key -> nat
    /** The procs that are connected. */
    var procs: map<nat, Proc>
    var db: Index
    var total: nat

    ghost predicate Valid()
      reads this
    {
      AllAgree(hash, db, procs)
    }

    constructor (hash: Key -> nat)
      ensures Valid() && procs == map[] && total == 0 && this.hash == hash
    {
      this.hash := hash;
      procs, total := map[], 0;
      db := Index(multiset{}, multiset{}, multiset{}, multiset{});
    }

    /** A worker that has just connected is in no table. */
    method NewProc(p: nat, remote: Sock)
      requires Valid() && p !in procs
      modifies this`procs
      ensures Valid() && procs == old(procs)[p := Proc(remote, None, [], [], false)]
    {
      AllPut(hash, db, procs, p, Proc(remote, None, [], [], false));
      procs := procs[p := Proc(remote, None, [], [], false)];
    }

    /** proc_table_add, with the session identifiers the proc has been given just before.
        memory says which of the three insertions find memory; when one does not, those
        before it are undone and the tables are as they were. */
    method Add(p: nat, dtlsId: Key, sid: Key, memory: (bool, bool, bool)) returns (ret: int)
      requires Valid() && p in procs && !procs[p].added
      modifies this
      ensures Valid() && (ret == 0 || ret == -1) && (ret == 0 <==> memory.0 && memory.1 && memory.2)
      ensures procs == old(procs)[p := old(procs)[p].(dtlsId := dtlsId, sid := sid, added := ret == 0)]
      ensures total == old(total) + if ret == 0 then 1 else 0
      ensures ret == -1 ==> db == old(db)
    {
      hide AllAgree, Insert, Drop;
      Differs(hash, db, procs, p);
      var q := procs[p].(dtlsId := dtlsId, sid := sid);
      AllPlaced(hash, db, procs, p, q);
      AllPlaced(hash, db, procs, p, q.(added := true));
      procs := procs[p := q];
      var ip, id := (hash(q.remote.ip), p), (hash(dtlsId), p);
      DropInsert(db.ip, ip);
      DropInsert(db.dtlsId, id);
      if !memory.0 { return -1; }
      db := db.(ip := Insert(db.ip, ip));
      if !memory.1 {
        db := db.(ip := Drop(db.ip, ip));
        return -1;
      }
      db := db.(dtlsId := Insert(db.dtlsId, id));
      if !memory.2 {
        db := db.(ip := Drop(db.ip, ip));
        db := db.(dtlsId := Drop(db.dtlsId, id));
        return -1;
      }
      db := db.(sid := Insert(db.sid, (hash(sid), p)));
      total := total + 1;
      procs := procs[p := q.(added := true)];
      assert procs == old(procs)[p := q.(added := true)];
      return 0;
    }

    /** proc_table_update_ip: refiles a proc whose CSTP address has changed, and forgets
        its DTLS address if that has the same IP now. Before the proc has been added it
        is not filed either. The tables agree with the procs afterwards unless the entry
        had to be inserted again and there was no memory. */
    method UpdateIp(p: nat, addr: Sock, memory: bool) returns (ret: int)
      requires Valid() && p in procs
      modifies this
      ensures procs == old(procs)[p := Moved(old(procs)[p], addr)]
      ensures (ret == 0 || ret == -1) && (ret == 0 <==> Valid())
      ensures ret == 0 <==> (addr != old(procs)[p].remote && old(procs)[p].added ==> memory)
      ensures db.dtlsId == old(db.dtlsId) && db.sid == old(db.sid) && total == old(total)
    {
      hide AllAgree, Insert, Drop;
      Differs(hash, db, procs, p);
      var q := procs[p];
      if addr == q.remote {
        assert procs[p := q] == procs;
        return 0;
      }
      var ip := (hash(q.remote.ip), p);
      AllPlaced(hash, db, procs, p, Moved(q, addr));
      Entries(hash, db, procs, p, ip.0);
      DropInsert(db.ip, ip);
      GoneWithout(hash, db, procs, p, hash(addr.ip));
      Entries(hash, db, procs, p, hash(addr.ip));
      var removed := ip in db.ip;
      db := db.(ip := Drop(db.ip, ip));
      q := q.(remote := addr);
      if q.dtls.Some? && q.dtls.value.ip == addr.ip {
        var dtls := (hash(q.dtls.value.ip), p);
        if dtls in db.dtlsIp {
          db := db.(dtlsIp := Drop(db.dtlsIp, dtls));
          q := q.(dtls := None);
        }
      }
      procs := procs[p := q];
      if removed {
        if !memory {
          Lost(hash, db, procs, p);
          return -1;
        }
        db := db.(ip := Insert(db.ip, (hash(addr.ip), p)));
      }
      return 0;
    }

    /** proc_table_update_dtls_ip, where no address stands for one of size zero. It is
        refused with nothing changed if it is the DTLS address already, and refused
        with no DTLS address left if it is the CSTP address. */
    method UpdateDtlsIp(p: nat, addr: Option<Sock>, memory: bool) returns (ret: int)
      requires Valid() && p in procs
      modifies this
      ensures db == old(db).(dtlsIp := db.dtlsIp) && total == old(total)
      ensures var q := old(procs)[p];
        if addr.None? then ret == 0 && Valid() && procs == old(procs)[p := q.(dtls := None)]
        else if q.dtls.Some? && q.dtls.value.ip == addr.value.ip then ret == -1 && unchanged(this)
        else if q.remote.ip == addr.value.ip then ret == -1 && Valid() && procs == old(procs)[p := q.(dtls := None)]
        else procs == old(procs)[p := q.(dtls := addr)] && ret == (if memory then 0 else -1) && (Valid() <==> memory)
    {
      hide AllAgree, Insert, Drop;
      var q := procs[p];
      AllPlaced(hash, db, procs, p, q.(dtls := None));
      if q.dtls.Some? {
        if addr.Some? && q.dtls.value.ip == addr.value.ip { return -1; }
        db := db.(dtlsIp := Drop(db.dtlsIp, (hash(q.dtls.value.ip), p)));
      }
      procs := procs[p := q.(dtls := None)];
      if addr.None? { return 0; }
      if q.remote.ip == addr.value.ip { return -1; }
      var e := (hash(addr.value.ip), p);
      AllPlaced(hash, db, procs, p, q.(dtls := addr));
      Entries(hash, db, procs, p, e.0);
      procs := procs[p := q.(dtls := addr)];
      if !memory {
        Lost(hash, db, procs, p);
        return -1;
      }
      db := db.(dtlsIp := Insert(db.dtlsIp, e));
      return 0;
    }

    /** proc_table_del, called when the proc goes away: no table has it any more. */
    method Del(p: nat)
      requires Valid() && p in procs
      modifies this
      ensures Valid() && procs == old(procs) - {p} && total == old(total)
      ensures forall h: nat :: (h, p) !in db.ip && (h, p) !in db.dtlsIp && (h, p) !in db.dtlsId && (h, p) !in db.sid
    {
      hide AllAgree, Insert, Drop;
      var q := procs[p];
      DropUnfiled(hash, db, procs, p);
      AllRemoved(hash, db, procs, p);
      if q.dtls.Some? {
        db := db.(dtlsIp := Drop(db.dtlsIp, (hash(q.dtls.value.ip), p)));
      }
      db := db.(ip := Drop(db.ip, (hash(q.remote.ip), p)));
      db := db.(dtlsId := Drop(db.dtlsId, (hash(q.dtlsId), p)));
      db := db.(sid := Drop(db.sid, (hash(q.sid), p)));
      procs := procs - {p};
      forall h: nat
        ensures (h, p) !in db.ip && (h, p) !in db.dtlsIp && (h, p) !in db.dtlsId && (h, p) !in db.sid
      {
        Entries(hash, db, procs, p, h);
      }
    }
  }
}
