/**
 Who is refused, said from what has happened to an address: the points it was given,
 and when.
 */
module BanScore {
  import opened Wrappers
  import opened IpAddr
  import opened Ban

  // ---- Points ----

  /** Points are added up, except where that would not fit in 32 bits: there they are not
      added at all. */
  lemma PointsAddUp(score: uint32, points: uint32)
    ensures AddPoints(score, points) == if score + points < 0x1_0000_0000 then score + points else score
  {
  }

  /** The points of an entry that has g, after one operation. */
  function Plus(cfg: Config, op: Op, k: Addr, g: nat): (n: nat)
    ensures n >= g
  {
    if IsAttempt(op, k) && g + Points(cfg, op) < 0x1_0000_0000 then g + Points(cfg, op) else g
  }

  /** The points that an entry has been given by a run, on top of g. */
  function Given(cfg: Config, ops: seq<Op>, k: Addr, g: nat): (n: nat)
    decreases |ops|
  {
    if ops == [] then g
    else Given(cfg, ops[1..], k, Plus(cfg, ops[0], k, g))
  }

  lemma {:induction false} GivenGrows(cfg: Config, ops: seq<Op>, k: Addr, g: nat)
    ensures Given(cfg, ops, k, g) >= g
    decreases |ops|
  {
    hide Plus;
    if ops != [] {
      GivenGrows(cfg, ops[1..], k, Plus(cfg, ops[0], k, g));
    }
  }

  /** The operation is in the reset interval that starts at t0. */
  predicate InInterval(cfg: Config, op: Op, t0: nat) {
    op.UnbanOp? || t0 <= op.now <= t0 + cfg.resetTime
  }

  /** Every operation is, and none unbans the entry. */
  predicate OneInterval(cfg: Config, ops: seq<Op>, k: Addr, t0: nat) {
    forall op :: op in ops ==> InInterval(cfg, op, t0) && !Unbans(op, k)
  }

  /** The entry, if there is one, has been given g points since t0 or later. */
  predicate HasPoints(db: Db, k: Addr, t0: nat, g: nat) {
    if k in db then db[k].score == g && db[k].lastReset >= t0 else g == 0
  }

  lemma StepPoints(cfg: Config, db: Db, op: Op, k: Addr, t0: nat, g: nat)
    requires 0 < cfg.maxScore && g < cfg.maxScore && HasPoints(db, k, t0, g) && InInterval(cfg, op, t0) && !Unbans(op, k)
    ensures HasPoints(Apply(cfg, db, op), k, t0, Plus(cfg, op, k, g))
    ensures IsAttempt(op, k) ==> k in Apply(cfg, db, op) && Apply(cfg, db, op)[k].expires == op.now + cfg.banTime
  {
    hide Key, AddPoints;
    if IsAttempt(op, k) {
      PointsAddUp(g, Points(cfg, op));
    }
  }

  lemma {:induction false} RunPoints(cfg: Config, db: Db, ops: seq<Op>, k: Addr, t0: nat, g: nat)
    requires 0 < cfg.maxScore && HasPoints(db, k, t0, g) && OneInterval(cfg, ops, k, t0) && Given(cfg, ops, k, g) < cfg.maxScore
    ensures HasPoints(Run(cfg, db, ops), k, t0, Given(cfg, ops, k, g))
    decreases |ops|
  {
    hide HasPoints, Apply, Plus, IsAttempt, InInterval;
    GivenGrows(cfg, ops, k, g);
    if ops != [] {
      StepPoints(cfg, db, ops[0], k, t0, g);
      RunPoints(cfg, Apply(cfg, db, ops[0]), ops[1..], k, t0, Plus(cfg, ops[0], k, g));
    }
  }

  /** For an address never seen, over every run in one reset interval that does not ban it:
      a further check is refused if and only if the points given so far and its own reach
      the maximum, and it looks before the ban is over; and a further attempt bans if and
      only if its points do. */
  lemma RefusedByPoints(cfg: Config, db: Db, ops: seq<Op>, k: Addr, t0: nat, op: Op)
    requires 0 < cfg.maxScore && k !in db && OneInterval(cfg, ops + [op], k, t0)
    requires Given(cfg, ops, k, 0) < cfg.maxScore && IsAttempt(op, k)
    ensures var g := Given(cfg, ops, k, 0) + Points(cfg, op);
            Result(cfg, Run(cfg, db, ops), op) == Refused <==>
            cfg.maxScore <= g < 0x1_0000_0000 && (op.CheckOp? ==> op.later <= op.now + cfg.banTime)
  {
    hide Key;
    assert OneInterval(cfg, ops, k, t0) by {
      assert forall x :: x in ops ==> x in ops + [op];
    }
    assert op in ops + [op];
    RunPoints(cfg, db, ops, k, t0, 0);
    StepPoints(cfg, Run(cfg, db, ops), op, k, t0, Given(cfg, ops, k, 0));
  }

  /** The first contact: an address never seen is let in unless one connection bans. */
  lemma FirstContact(cfg: Config, db: Db, ip: Addr, now: nat)
    requires Supported(ip) && Key(ip) !in db
    ensures Result(cfg, db, CheckOp(ip, false, now, now)) == Refused <==> 0 < cfg.maxScore <= cfg.pointsConnect
  {
    if cfg.maxScore > 0 {
      RefusedByPoints(cfg, db, [], Key(ip), now, CheckOp(ip, false, now, now));
      assert [] + [CheckOp(ip, false, now, now)] == [CheckOp(ip, false, now, now)];
      assert Run(cfg, db, []) == db;
    }
  }

  /** Local addresses are never refused, and nobody is where there is no maximum. */
  lemma NeverRefused(cfg: Config, db: Db, op: Op)
    requires (op.CheckOp? && op.local) || (cfg.maxScore == 0 && (op.AddOp? || op.CheckOp?))
    ensures Result(cfg, db, op) == Allowed && Apply(cfg, db, op) == db
  {
  }

  /** After the interval the score of an address that is not banned starts again: the
      attempt is that of an address never seen. */
  lemma IntervalEnds(cfg: Config, e: Entry, now: nat, points: uint32)
    requires cfg.maxScore > 0 && !Banned(cfg, e)
    ensures now > e.lastReset + cfg.resetTime ==> AddTo(cfg, Some(e), now, points) == AddTo(cfg, None, now, points)
    ensures now <= e.lastReset + cfg.resetTime ==>
              AddTo(cfg, Some(e), now, points) == Entry(AddPoints(e.score, points), e.lastReset, now + cfg.banTime)
  {
  }

  // ---- The number of bans ----

  /** An address is counted exactly if it would be refused, were it to come now and be given
      no points, and its ban does not end in this second. */
  lemma CountedIsRefused(cfg: Config, db: Db, ip: Addr, now: nat)
    requires cfg.maxScore > 0 && cfg.pointsConnect == 0 && Supported(ip)
    ensures Result(cfg, db, CheckOp(ip, false, now, now)) == Refused <==>
            Key(ip) in CountedKeys(cfg, db, now) || (Key(ip) in db && Banned(cfg, db[Key(ip)]) && db[Key(ip)].expires == now)
  {
    hide Key;
  }
}
