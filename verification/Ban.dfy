/**
 The ban list of main (src/main-ban.c): a score per address, or per /64 for IPv6,
 that bans the address for a time when it reaches a maximum.

 Times are seconds; the clock is a parameter of each operation.
 */
module Ban {
  import opened Wrappers
  import opened IpAddr

  type uint32 = x: int | 0 <= x < 0x1_0000_0000

  datatype Config = Config(maxScore: uint32, banTime: nat, resetTime: nat, pointsConnect: uint32)

  datatype Entry = Entry(score: uint32, lastReset: nat, expires: nat)

  type Db = map<Addr, Entry>

  /** Addresses that have a ban entry. */
  predicate Supported(ip: Addr) {
    |ip| == 4 || |ip| == 16
  }

  /** massage_ipv6_address: a /64 counts as one address. */
  function Key(ip: Addr): (k: Addr) {
    if |ip| == 16 then ip[..8] + [0, 0, 0, 0, 0, 0, 0, 0] else ip
  }

  /** Two addresses share their state exactly when they are equal or lie in one /64. */
  lemma KeysOfOneSubnet(a: Addr, b: Addr)
    requires Supported(a) && Supported(b)
    ensures Key(a) == Key(b) <==> a == b || (|a| == |b| == 16 && a[..8] == b[..8])
  {
    if |a| == |b| == 16 && Key(a) == Key(b) {
      assert a[..8] == Key(a)[..8] && b[..8] == Key(b)[..8];
    }
  }

  // ---- One entry ----

  predicate Banned(cfg: Config, e: Entry) {
    e.score >= cfg.maxScore
  }

  /** The points are added unless the 32-bit sum wraps around. */
  function AddPoints(score: uint32, points: uint32): (r: uint32) {
    var sum := (score as int + points as int) % 0x1_0000_0000;
    if sum > score then sum else score
  }

  /** The entry before points are added: new, or reset when its ban is over or its
      score is old. */
  function Current(cfg: Config, e: Option<Entry>, now: nat): (r: Entry) {
    match e
    case None => Entry(0, now, 0)
    case Some(e) =>
      if (now > e.expires && Banned(cfg, e)) || (now > e.lastReset + cfg.resetTime && !Banned(cfg, e)) then
        e.(score := 0, lastReset := now)
      else e
  }

  /** add_ip_to_ban_list on one entry. An attempt moves the expiry only of an address
      that is not banned. */
  function AddTo(cfg: Config, e: Option<Entry>, now: nat, points: uint32): (r: Entry) {
    var c := Current(cfg, e, now);
    Entry(AddPoints(c.score, points), c.lastReset, if Banned(cfg, c) then c.expires else now + cfg.banTime)
  }

  /** What cleanup_banned_entries removes at time t. */
  predicate Stale(cfg: Config, e: Entry, t: nat) {
    t >= e.expires && t > e.lastReset + cfg.resetTime
  }

  /** When a score reaches the maximum, the ban runs for the ban time from then. */
  lemma BanStarts(cfg: Config, e: Option<Entry>, now: nat, points: uint32)
    requires !Banned(cfg, Current(cfg, e, now)) && Banned(cfg, AddTo(cfg, e, now, points))
    ensures AddTo(cfg, e, now, points).expires == now + cfg.banTime
  {
  }

  /** The first attempt after a ban is over is that of a new address. */
  lemma BanEnds(cfg: Config, e: Entry, now: nat, points: uint32)
    requires cfg.maxScore > 0 && Banned(cfg, e) && now > e.expires
    ensures AddTo(cfg, Some(e), now, points) == AddTo(cfg, None, now, points)
  {
  }

  /** An attempt at now cannot tell a stale entry from none, exactly unless the entry
      is a ban that expires at that very second. */
  lemma StaleIsAbsent(cfg: Config, e: Entry, t: nat, now: nat, points: uint32)
    requires cfg.maxScore > 0 && Stale(cfg, e, t) && now >= t
    ensures AddTo(cfg, Some(e), now, points) == AddTo(cfg, None, now, points) <==> !(Banned(cfg, e) && now == e.expires)
  {
  }

  // ---- Operations ----

  datatype Op =
    | AddOp(ip: Addr, points: uint32, now: nat)
    | CheckOp(ip: Addr, local: bool, now: nat, later: nat)
    | UnbanOp(ip: Addr)
    | CleanupOp(now: nat)
    | CountOp(now: nat)

  function Get(db: Db, k: Addr): (e: Option<Entry>) {
    if k in db then Some(db[k]) else None
  }

  /** add_ip_to_ban_list */
  function Add(cfg: Config, db: Db, ip: Addr, points: uint32, now: nat): (r: Db) {
    if cfg.maxScore == 0 || !Supported(ip) then db else db[Key(ip) := AddTo(cfg, Get(db, Key(ip)), now, points)]
  }

  function Apply(cfg: Config, db: Db, op: Op): (r: Db) {
    match op
    case AddOp(ip, points, now) => Add(cfg, db, ip, points, now)
    case CheckOp(ip, local, now, _) => if local then db else Add(cfg, db, ip, cfg.pointsConnect, now)
    case UnbanOp(ip) =>
      if Supported(ip) && Key(ip) in db then db[Key(ip) := db[Key(ip)].(score := 0, expires := 0)] else db
    case CleanupOp(now) => map k | k in db && !Stale(cfg, db[k], now) :: db[k]
    case CountOp(_) => db
  }

  /** The entries that main_ban_db_elems counts. */
  function CountedKeys(cfg: Config, db: Db, now: nat): (r: set<Addr>) {
    set k | k in db && db[k].expires > now && Banned(cfg, db[k])
  }

  /** The results of adds and checks, which are whether the address is banned, and
      the number of banned addresses. Unbanning and cleaning up show nothing here. */
  datatype Output = Refused | Allowed | Number(n: nat) | Nothing

  function Result(cfg: Config, db: Db, op: Op): (r: Output) {
    match op
    case AddOp(ip, points, now) =>
      if cfg.maxScore == 0 || !Supported(ip) then Allowed
      else if Banned(cfg, Add(cfg, db, ip, points, now)[Key(ip)]) then Refused else Allowed
    case CheckOp(ip, local, now, later) =>
      if cfg.maxScore == 0 || local || !Supported(ip) then Allowed
      else
        var e := Add(cfg, db, ip, cfg.pointsConnect, now)[Key(ip)];
        if later <= e.expires && Banned(cfg, e) then Refused else Allowed
    case CountOp(now) => Number(if cfg.maxScore == 0 then 0 else |CountedKeys(cfg, db, now)|)
    case _ => Nothing
  }

  // ---- A ban holds until it expires ----

  predicate BannedUntil(cfg: Config, db: Db, k: Addr, x: nat) {
    k in db && Banned(cfg, db[k]) && db[k].expires == x
  }

  /** The latest time an operation looks at. */
  function TimeOf(op: Op): (t: nat) {
    match op
    case AddOp(_, _, now) => now
    case CheckOp(_, _, now, later) => if now > later then now else later
    case UnbanOp(_) => 0
    case CleanupOp(now) => now
    case CountOp(now) => now
  }

  predicate Unbans(op: Op, k: Addr) {
    op.UnbanOp? && Supported(op.ip) && Key(op.ip) == k
  }

  lemma BanHoldsStep(cfg: Config, db: Db, op: Op, k: Addr, x: nat)
    requires BannedUntil(cfg, db, k, x) && TimeOf(op) < x && !Unbans(op, k)
    ensures BannedUntil(cfg, Apply(cfg, db, op), k, x)
  {
  }

  /** Every ban that runs beyond t is still in force, with the same expiry. */
  ghost predicate KeepsBans(cfg: Config, db: Db, db': Db, t: nat) {
    forall k, x :: BannedUntil(cfg, db, k, x) && t < x ==> BannedUntil(cfg, db', k, x)
  }

  lemma OpKeepsBans(cfg: Config, db: Db, op: Op)
    requires !op.UnbanOp?
    ensures KeepsBans(cfg, db, Apply(cfg, db, op), TimeOf(op))
  {
    hide Apply, BannedUntil;
    forall k, x | BannedUntil(cfg, db, k, x) && TimeOf(op) < x
      ensures BannedUntil(cfg, Apply(cfg, db, op), k, x)
    {
      BanHoldsStep(cfg, db, op, k, x);
    }
  }

  function Run(cfg: Config, db: Db, ops: seq<Op>): (r: Db)
    decreases |ops|
  {
    if ops == [] then db else Run(cfg, Apply(cfg, db, ops[0]), ops[1..])
  }

  /** From the moment a ban is in force until strictly before it expires, whatever
      attempts and cleanups happen, its expiry stays and every check of an address
      it covers is refused. */
  lemma {:induction false} BanHolds(cfg: Config, db: Db, ops: seq<Op>, k: Addr, x: nat, check: Op)
    requires cfg.maxScore > 0 && BannedUntil(cfg, db, k, x)
    requires forall op :: op in ops ==> TimeOf(op) < x && !Unbans(op, k)
    requires check.CheckOp? && !check.local && Supported(check.ip) && Key(check.ip) == k && TimeOf(check) < x
    ensures BannedUntil(cfg, Run(cfg, db, ops), k, x)
    ensures Result(cfg, Run(cfg, db, ops), check) == Refused
    decreases |ops|
  {
    if ops == [] {
      BanHoldsStep(cfg, db, check, k, x);
    } else {
      BanHoldsStep(cfg, db, ops[0], k, x);
      BanHolds(cfg, Apply(cfg, db, ops[0]), ops[1..], k, x, check);
    }
  }

  /** An attempt at t0 that brings the score to the maximum refuses every later check of
      the same address, or of its /64, strictly before t0 and the ban time. */
  lemma BanLasts(cfg: Config, db: Db, ip: Addr, points: uint32, t0: nat, ops: seq<Op>, check: Op)
    requires cfg.maxScore > 0 && Supported(ip)
    requires !Banned(cfg, Current(cfg, Get(db, Key(ip)), t0)) && Result(cfg, db, AddOp(ip, points, t0)) == Refused
    requires forall op :: op in ops ==> TimeOf(op) < t0 + cfg.banTime && !Unbans(op, Key(ip))
    requires check.CheckOp? && !check.local && Supported(check.ip) && Key(check.ip) == Key(ip) && TimeOf(check) < t0 + cfg.banTime
    ensures Result(cfg, Run(cfg, Add(cfg, db, ip, points, t0), ops), check) == Refused
  {
    hide Key, TimeOf, Unbans;
    BanStarts(cfg, Get(db, Key(ip)), t0, points);
    BanHolds(cfg, Add(cfg, db, ip, points, t0), ops, Key(ip), t0 + cfg.banTime, check);
  }

  function Results(cfg: Config, db: Db, ops: seq<Op>): (r: seq<Output>)
    decreases |ops|
  {
    if ops == [] then [] else [Result(cfg, db, ops[0])] + Results(cfg, Apply(cfg, db, ops[0]), ops[1..])
  }

  // ---- Unbanning ----

  /** The next attempt or check of an address that shares an entry with ip has the result
      of an address never seen; the other entries are as before. */
  ghost predicate Lifted(cfg: Config, db: Db, db': Db, ip: Addr) {
    && (forall k :: k != Key(ip) ==> Get(db', k) == Get(db, k))
    && (forall op: Op :: (op.AddOp? || op.CheckOp?) && Supported(op.ip) && Key(op.ip) == Key(ip) ==>
          Result(cfg, db', op) == Result(cfg, map[], op))
  }

  lemma UnbanLifts(cfg: Config, db: Db, ip: Addr)
    requires Supported(ip)
    ensures Lifted(cfg, db, Apply(cfg, db, UnbanOp(ip)), ip)
  {
    hide Key;
  }

  /** No ban keeps the entry from being cleaned up: that waits for the reset interval only. */
  lemma UnbanIsCleaned(cfg: Config, db: Db, ip: Addr, now: nat)
    requires Supported(ip) && Key(ip) in db
    ensures Key(ip) in Apply(cfg, Apply(cfg, db, UnbanOp(ip)), CleanupOp(now)) <==> now <= db[Key(ip)].lastReset + cfg.resetTime
  {
    hide Key;
  }

  /** An attempt on the entry k. */
  predicate IsAttempt(op: Op, k: Addr) {
    (op.AddOp? || (op.CheckOp? && !op.local)) && Supported(op.ip) && Key(op.ip) == k
  }

  function Points(cfg: Config, op: Op): (n: uint32)
    requires op.AddOp? || op.CheckOp?
  {
    if op.AddOp? then op.points else cfg.pointsConnect
  }

  /** Attempts, checks and counts. */
  predicate NoUpkeep(ops: seq<Op>) {
    forall op :: op in ops ==> op.AddOp? || op.CheckOp? || op.CountOp?
  }

  /** The table as if the entry k had never been made. */
  function Unseen(db: Db, k: Addr): (r: Db) {
    db - {k}
  }

  /** When nothing more of the past of an unbanned entry can show, given the first attempt
      after the unban. What is left of it is the time of its last reset: it does not
      matter if it is replaced by that attempt or equals its time, if the attempt bans at
      once, or if one point bans. */
  predicate Forgets(cfg: Config, lastReset: nat, first: Op)
    requires first.AddOp? || first.CheckOp?
  {
    || first.now > lastReset + cfg.resetTime || first.now == lastReset
    || Points(cfg, first) >= cfg.maxScore || cfg.maxScore == 1
  }

  /** The tables agree up to the last reset of k, where that can no longer show. */
  ghost predicate Alike(cfg: Config, a: Db, b: Db, k: Addr) {
    && Unseen(a, k) == Unseen(b, k) && k in a && k in b
    && a[k].score == b[k].score && a[k].expires == b[k].expires
    && (a[k] == b[k] || Banned(cfg, a[k]) || cfg.maxScore == 1)
  }

  lemma AlikeEntry(cfg: Config, e: Entry, f: Entry, now: nat, points: uint32)
    requires cfg.maxScore > 0 && e.score == f.score && e.expires == f.expires && (e == f || Banned(cfg, e) || cfg.maxScore == 1)
    ensures var e', f' := AddTo(cfg, Some(e), now, points), AddTo(cfg, Some(f), now, points);
            e'.score == f'.score && e'.expires == f'.expires && (e' == f' || Banned(cfg, e') || cfg.maxScore == 1)
  {
  }

  lemma AlikeCounts(cfg: Config, a: Db, b: Db, k: Addr, now: nat)
    requires Alike(cfg, a, b, k)
    ensures CountedKeys(cfg, a, now) == CountedKeys(cfg, b, now)
  {
    assert forall x :: x != k && x in a ==> x in Unseen(a, k) && a[x] == Unseen(a, k)[x];
    assert forall x :: x != k && x in b ==> x in Unseen(b, k) && b[x] == Unseen(b, k)[x];
  }

  lemma AlikeAdd(cfg: Config, a: Db, b: Db, k: Addr, ip: Addr, points: uint32, now: nat)
    requires cfg.maxScore > 0 && Alike(cfg, a, b, k) && Supported(ip)
    ensures var a', b' := Add(cfg, a, ip, points, now), Add(cfg, b, ip, points, now);
            && Alike(cfg, a', b', k)
            && a'[Key(ip)].score == b'[Key(ip)].score && a'[Key(ip)].expires == b'[Key(ip)].expires
  {
    hide AddTo, Key;
    var x := Key(ip);
    if x == k {
      AlikeEntry(cfg, a[k], b[k], now, points);
    } else {
      assert Get(a, x) == Get(Unseen(a, k), x) == Get(Unseen(b, k), x) == Get(b, x);
    }
    var e, f := AddTo(cfg, Get(a, x), now, points), AddTo(cfg, Get(b, x), now, points);
    assert Unseen(a[x := e], k) == if x == k then Unseen(a, k) else Unseen(a, k)[x := e];
    assert Unseen(b[x := f], k) == if x == k then Unseen(b, k) else Unseen(b, k)[x := f];
  }

  lemma AlikeStep(cfg: Config, a: Db, b: Db, k: Addr, op: Op)
    requires cfg.maxScore > 0 && Alike(cfg, a, b, k) && (op.AddOp? || op.CheckOp? || op.CountOp?)
    ensures Result(cfg, a, op) == Result(cfg, b, op) && Alike(cfg, Apply(cfg, a, op), Apply(cfg, b, op), k)
  {
    hide AddTo, Key, Alike;
    if op.CountOp? {
      AlikeCounts(cfg, a, b, k, op.now);
    } else if Supported(op.ip) {
      AlikeAdd(cfg, a, b, k, op.ip, Points(cfg, op), op.now);
    }
  }

  lemma {:induction false} AlikeRuns(cfg: Config, a: Db, b: Db, k: Addr, ops: seq<Op>)
    requires cfg.maxScore > 0 && Alike(cfg, a, b, k) && NoUpkeep(ops)
    ensures Results(cfg, a, ops) == Results(cfg, b, ops)
    decreases |ops|
  {
    hide Alike, Apply, Result;
    if ops != [] {
      AlikeStep(cfg, a, b, k, ops[0]);
      AlikeRuns(cfg, Apply(cfg, a, ops[0]), Apply(cfg, b, ops[0]), k, ops[1..]);
    }
  }

  /** The first attempt after an unban, compared with the first attempt ever. */
  lemma FirstAfterUnban(cfg: Config, db: Db, k: Addr, first: Op)
    requires cfg.maxScore > 0 && k in db && db[k].score == 0 && IsAttempt(first, k)
    ensures var a, b := Apply(cfg, db, first), Apply(cfg, Unseen(db, k), first);
            && k in a && k in b && Unseen(a, k) == Unseen(b, k) && b == a[k := b[k]]
            && a[k].score == b[k].score == Points(cfg, first) && a[k].expires == b[k].expires == first.now + cfg.banTime
            && b[k].lastReset == first.now
            && a[k].lastReset == (if first.now > db[k].lastReset + cfg.resetTime then first.now else db[k].lastReset)
            && Result(cfg, db, first) == Result(cfg, Unseen(db, k), first)
  {
    hide Key;
  }

  /** The run that tells an unbanned address from a new one: with what is missing to the
      maximum, when the one has been reset and the other not. */
  function Telling(cfg: Config, lastReset: nat, first: Op): (ops: seq<Op>)
    requires (first.AddOp? || first.CheckOp?) && !Forgets(cfg, lastReset, first)
  {
    var t := (if lastReset < first.now then lastReset else first.now) + cfg.resetTime + 1;
    var r := Points(cfg, first);
    if r > 0 then [AddOp(first.ip, cfg.maxScore - r, t)]
    else [AddOp(first.ip, 1, first.now), AddOp(first.ip, cfg.maxScore - 1, t)]
  }

  /** The exact condition: after an unban and a first attempt, every run of attempts,
      checks and counts has the results of an address that was never seen, if and only
      if the past is forgotten by that attempt. */
  lemma UnbanForgets(cfg: Config, db: Db, ip: Addr, first: Op)
    requires cfg.maxScore > 0 && Supported(ip) && Key(ip) in db && IsAttempt(first, Key(ip))
    ensures var u, n := Apply(cfg, db, UnbanOp(ip)), Unseen(db, Key(ip));
            (forall ops :: NoUpkeep(ops) ==> Results(cfg, u, [first] + ops) == Results(cfg, n, [first] + ops))
            <==> Forgets(cfg, db[Key(ip)].lastReset, first)
  {
    var k, L := Key(ip), db[Key(ip)].lastReset;
    var u, n := Apply(cfg, db, UnbanOp(ip)), Unseen(db, k);
    assert Unseen(u, k) == n;
    hide Key, Apply;
    FirstAfterUnban(cfg, u, k, first);
    var a, b := Apply(cfg, u, first), Apply(cfg, n, first);
    if Forgets(cfg, L, first) {
      forall ops | NoUpkeep(ops)
        ensures Results(cfg, u, [first] + ops) == Results(cfg, n, [first] + ops)
      {
        AlikeRuns(cfg, a, b, k, ops);
        FirstResult(cfg, u, first, ops);
        FirstResult(cfg, n, first, ops);
      }
    } else {
      var ops := Telling(cfg, L, first);
      TellingTells(cfg, a, b, k, L, first);
      FirstResult(cfg, u, first, ops);
      FirstResult(cfg, n, first, ops);
      assert Results(cfg, u, [first] + ops)[1..] != Results(cfg, n, [first] + ops)[1..];
    }
  }

  /** For which first attempts the address is like a new one from then on. */
  ghost predicate LikeNew(cfg: Config, db: Db, db': Db, ip: Addr) {
    Key(ip) in db && cfg.maxScore > 0 ==>
      forall first: Op :: IsAttempt(first, Key(ip)) ==>
        ((forall ops :: NoUpkeep(ops) ==> Results(cfg, db', [first] + ops) == Results(cfg, Unseen(db, Key(ip)), [first] + ops))
         <==> Forgets(cfg, db[Key(ip)].lastReset, first))
  }

  lemma UnbanIsLikeNew(cfg: Config, db: Db, ip: Addr)
    requires Supported(ip)
    ensures LikeNew(cfg, db, Apply(cfg, db, UnbanOp(ip)), ip)
  {
    hide Apply, Results, Forgets;
    if Key(ip) in db && cfg.maxScore > 0 {
      forall first: Op | IsAttempt(first, Key(ip))
        ensures (forall ops :: NoUpkeep(ops) ==>
                   Results(cfg, Apply(cfg, db, UnbanOp(ip)), [first] + ops) == Results(cfg, Unseen(db, Key(ip)), [first] + ops))
                <==> Forgets(cfg, db[Key(ip)].lastReset, first)
      {
        UnbanForgets(cfg, db, ip, first);
      }
    }
  }

  lemma FirstResult(cfg: Config, db: Db, op: Op, ops: seq<Op>)
    ensures Results(cfg, db, [op] + ops) == [Result(cfg, db, op)] + Results(cfg, Apply(cfg, db, op), ops)
    ensures Results(cfg, db, [op] + ops)[1..] == Results(cfg, Apply(cfg, db, op), ops)
  {
    hide Apply, Result;
    assert ([op] + ops)[1..] == ops;
  }

  lemma TellingTells(cfg: Config, a: Db, b: Db, k: Addr, L: nat, first: Op)
    requires IsAttempt(first, k) && cfg.maxScore > 0 && !Forgets(cfg, L, first) && k in a && k in b
    requires a[k] == Entry(Points(cfg, first), L, first.now + cfg.banTime)
    requires b[k] == Entry(Points(cfg, first), first.now, first.now + cfg.banTime)
    ensures NoUpkeep(Telling(cfg, L, first))
    ensures Results(cfg, a, Telling(cfg, L, first)) != Results(cfg, b, Telling(cfg, L, first))
  {
    hide Key;
    var ops := Telling(cfg, L, first);
    if Points(cfg, first) > 0 {
      OneTells(cfg, a, b, k, first.ip, L, first.now, Points(cfg, first), ops[0]);
      assert Results(cfg, a, ops)[0] == Result(cfg, a, ops[0]) && Results(cfg, b, ops)[0] == Result(cfg, b, ops[0]);
    } else {
      var a', b' := Apply(cfg, a, ops[0]), Apply(cfg, b, ops[0]);
      OneTells(cfg, a', b', k, first.ip, L, first.now, 1, ops[1]);
      assert ops == [ops[0]] + [ops[1]];
      FirstResult(cfg, a, ops[0], [ops[1]]);
      FirstResult(cfg, b, ops[0], [ops[1]]);
      assert Results(cfg, a', [ops[1]])[0] == Result(cfg, a', ops[1]) && Results(cfg, b', [ops[1]])[0] == Result(cfg, b', ops[1]);
    }
  }

  lemma OneTells(cfg: Config, a: Db, b: Db, k: Addr, ip: Addr, L: nat, t: nat, s: uint32, op: Op)
    requires 0 < s < cfg.maxScore && k in a && k in b && Supported(ip) && Key(ip) == k && L != t
    requires a[k].score == b[k].score == s && a[k].lastReset == L && b[k].lastReset == t
    requires op == AddOp(ip, cfg.maxScore - s, (if L < t then L else t) + cfg.resetTime + 1)
    ensures Result(cfg, a, op) != Result(cfg, b, op)
  {
    hide Key;
  }

  /** Such a run: an address that was unbanned gets away with what a new one does not. */
  lemma UnbanRemembers()
    ensures var cfg, ip := Config(100, 300, 300, 0), [10, 0, 0, 1];
            var u := Apply(cfg, map[ip := Entry(50, 0, 1000)], UnbanOp(ip));
            var ops := [AddOp(ip, 60, 290), AddOp(ip, 60, 310)];
            && Results(cfg, u, ops) == [Allowed, Allowed] && Results(cfg, map[], ops) == [Allowed, Refused]
  {
    var cfg, ip: Addr := Config(100, 300, 300, 0), [10, 0, 0, 1];
    var u := Apply(cfg, map[ip := Entry(50, 0, 1000)], UnbanOp(ip));
    var x, y := AddOp(ip, 60, 290), AddOp(ip, 60, 310);
    assert Key(ip) == ip && u == map[ip := Entry(0, 0, 0)];
    FirstResult(cfg, u, x, [y]);
    FirstResult(cfg, map[], x, [y]);
    assert [x, y] == [x] + [y];
    assert Apply(cfg, u, x) == map[ip := Entry(60, 0, 590)];
    assert Apply(cfg, map[], x) == map[ip := Entry(60, 290, 590)];
    FirstResult(cfg, Apply(cfg, u, x), y, []);
    FirstResult(cfg, Apply(cfg, map[], x), y, []);
    assert [y] + [] == [y];
  }

  // ---- Cleaning up shows nothing ----

  /** a is b without some entries that were stale at time t. */
  ghost predicate Cleaned(cfg: Config, a: Db, b: Db, t: nat) {
    && (forall k :: k in a ==> k in b && a[k] == b[k])
    && (forall k :: k in b && k !in a ==> Stale(cfg, b[k], t))
  }

  /** Cleanups happen in order, and everything else strictly after the last one. */
  predicate Timely(ops: seq<Op>, t: nat)
    decreases |ops|
  {
    ops == [] ||
    (if ops[0].CleanupOp? then ops[0].now >= t && Timely(ops[1..], ops[0].now)
     else (ops[0].UnbanOp? || (if ops[0].CheckOp? then ops[0].now else TimeOf(ops[0])) > t) && Timely(ops[1..], t))
  }

  /** The same operations, with cleanups replaced by ones that remove nothing. */
  function ResultsUncleaned(cfg: Config, db: Db, ops: seq<Op>): (r: seq<Output>)
    decreases |ops|
  {
    if ops == [] then []
    else [Result(cfg, db, ops[0])] + ResultsUncleaned(cfg, if ops[0].CleanupOp? then db else Apply(cfg, db, ops[0]), ops[1..])
  }

  lemma AddCleaned(cfg: Config, a: Db, b: Db, t: nat, ip: Addr, points: uint32, now: nat)
    requires cfg.maxScore > 0 && Cleaned(cfg, a, b, t) && now > t && Supported(ip)
    ensures AddTo(cfg, Get(a, Key(ip)), now, points) == AddTo(cfg, Get(b, Key(ip)), now, points)
    ensures Cleaned(cfg, Add(cfg, a, ip, points, now), Add(cfg, b, ip, points, now), t)
  {
    hide AddTo, Key;
    if Key(ip) in b && Key(ip) !in a {
      StaleIsAbsent(cfg, b[Key(ip)], t, now, points);
    }
  }

  lemma CountCleaned(cfg: Config, a: Db, b: Db, t: nat, now: nat)
    requires Cleaned(cfg, a, b, t) && now > t
    ensures CountedKeys(cfg, a, now) == CountedKeys(cfg, b, now)
  {
  }

  /** No add, check or count can tell a list that is cleaned up from one that never
      is, provided it comes strictly later than the cleanups before it. */
  lemma {:induction false} CleanupIsUnobservable(cfg: Config, a: Db, b: Db, ops: seq<Op>, t: nat)
    requires Cleaned(cfg, a, b, t) && Timely(ops, t)
    ensures Results(cfg, a, ops) == ResultsUncleaned(cfg, b, ops)
    decreases |ops|
  {
    if ops != [] {
      var op := ops[0];
      hide Key, AddTo, Stale;
      var t' := if op.CleanupOp? then op.now else t;
      CleanedStep(cfg, a, b, op, t);
      CleanupIsUnobservable(cfg, Apply(cfg, a, op), if op.CleanupOp? then b else Apply(cfg, b, op), ops[1..], t');
    }
  }

  lemma CleanedStep(cfg: Config, a: Db, b: Db, op: Op, t: nat)
    requires Cleaned(cfg, a, b, t) && Timely([op], t)
    ensures Result(cfg, a, op) == Result(cfg, b, op)
    ensures Cleaned(cfg, Apply(cfg, a, op), if op.CleanupOp? then b else Apply(cfg, b, op), if op.CleanupOp? then op.now else t)
  {
    hide Key, AddTo;
    if op.AddOp? && Supported(op.ip) && cfg.maxScore > 0 {
      AddCleaned(cfg, a, b, t, op.ip, op.points, op.now);
    } else if op.CheckOp? && Supported(op.ip) && cfg.maxScore > 0 {
      AddCleaned(cfg, a, b, t, op.ip, cfg.pointsConnect, op.now);
    } else if op.CountOp? {
      CountCleaned(cfg, a, b, t, op.now);
    }
  }
}
