/**
 What each request to sec-mod means for the one who sends it, said of the entries
 before and after it and not of how it is handled.
 */
module Requests {
  import opened Wrappers
  import opened SecMod
  import opened Sessions
  import opened SessionInvariant
  import opened SessionSafety
  import opened Logins

  /** Only the entry of sid may change, and the hooks are called for no other. */
  ghost predicate Only(s: State, t: State, sid: Sid) {
    && t.index == s.index
    && (forall x :: x != sid ==> (x in t.db <==> x in s.db))
    && (forall x :: x != sid && x in s.db && x in t.db ==> t.db[x] == s.db[x])
    && (forall x :: x != sid ==> t.opens[x] == s.opens[x] && t.closes[x] == s.closes[x])
  }

  /** The entry stays, with its hold and its hooks called no more. */
  predicate Stays(s: State, t: State, sid: Sid) {
    && t.opens == s.opens && t.closes == s.closes
    && (sid in s.db <==> sid in t.db)
    && (sid in s.db && sid in t.db ==> SameHold(s.db[sid], t.db[sid]))
  }

  /** A reply that an address is banned fails the entry, which ends the session's chances
      for good; another changes nothing. */
  ghost predicate BanMeans(s: State, t: State, sid: Sid, ok: bool) {
    && Only(s, t, sid) && Stays(s, t, sid)
    && (sid in s.db && sid in t.db ==> NotLess(s.db[sid], t.db[sid]) && t.db[sid].who == s.db[sid].who)
    && (!ok && |sid| == SID_SIZE ==> forall now :: !MayOpen(t, sid, now))
    && (!ok && |sid| == SID_SIZE && sid in t.db ==> t.db[sid].status == Failed)
    && (ok ==> t == s)
  }

  lemma BanReplyMeans(s: State, sid: Sid, ok: bool)
    ensures BanMeans(s, BanReply(s, sid, ok), sid, ok)
  {
  }

  /** An update of the counters loses nothing: each is the larger of what was known and
      what is reported, for a completed entry. Who the client is and what it may do do
      not change; the worker is noted, and a reason if one is given. */
  ghost predicate StatsMean(s: State, t: State, sid: Sid, bytes: Stats, reason: Reason, pid: nat) {
    && Only(s, t, sid) && Stays(s, t, sid)
    && (|sid| != SID_SIZE || !IsCompleted(s, sid) ==> t == s)
    && (|sid| == SID_SIZE && IsCompleted(s, sid) ==>
          && IsCompleted(t, sid) && t.db[sid].who == s.db[sid].who && t.db[sid].saved == s.db[sid].saved
          && t.db[sid].exptime == s.db[sid].exptime && t.db[sid].pid == pid
          && t.db[sid].reason == (if reason == NoReason then s.db[sid].reason else reason)
          && IsMax(t.db[sid].stats.bytesIn, s.db[sid].stats.bytesIn, bytes.bytesIn)
          && IsMax(t.db[sid].stats.bytesOut, s.db[sid].stats.bytesOut, bytes.bytesOut))
  }

  predicate IsMax(m: int, a: int, b: int) {
    m >= a && m >= b && (m == a || m == b)
  }

  lemma UpdateStatsMeans(s: State, sid: Sid, bytes: Stats, reason: Reason, pid: nat)
    ensures StatsMean(s, UpdateStats(s, sid, bytes, reason, pid), sid, bytes, reason, pid)
  {
  }

  /** The end of an authentication: the entry is completed exactly by a zero result on
      which the module and the certificate agree, with the reply sent; a failed one is not
      revived, and nobody's hold changes. */
  ghost predicate ResMeans(s: State, t: State, sid: Sid, result: AuthResult, cfg: Config, f: Finish) {
    && Only(s, t, sid) && Stays(s, t, sid)
    && (sid in s.db && sid in t.db ==>
          && NotLess(s.db[sid], t.db[sid])
          && (s.db[sid].status == Failed ==> t.db[sid].status == Failed)
          && (result == Denied ==> t.db[sid].status == Failed)
          && (IsCompleted(t, sid) && !IsCompleted(s, sid) ==>
                result == Success && (s.db[sid].hasModule ==> f.msgOk) && CheckGroup(s.db[sid], cfg, f.group).Some?)
          && (result == Success ==>
                (IsCompleted(t, sid) <==>
                   && s.db[sid].status != Failed && ModuleAgrees(s.db[sid], f)
                   && CertificateAgrees(s.db[sid].who, cfg, ModuleGroup(s.db[sid], f)) && f.sendOk)))
  }

  lemma AuthResMeans(s: State, sid: Sid, result: AuthResult, cfg: Config, f: Finish)
    requires sid in s.db
    ensures ResMeans(s, SetEntry(s, sid, AuthRes(s.db[sid], result, cfg, f)), sid, result, cfg, f)
  {
    hide CheckGroup, CertificateAgrees;
    SuccessCompletes(s.db[sid], cfg, f);
  }

  /** An auth continuation: LegalStatus for every entry, and only that of sid changes. It is
      completed exactly by its module, asked in a waiting state with a password, saying
      yes, and the certificate agreeing. */
  ghost predicate ContMeans(s: State, t: State, ev: Event)
    requires ev.AuthContEv?
  {
    && Only(s, t, ev.sid) && Stays(s, t, ev.sid)
    && (forall x :: x in s.db ==> LegalStatus(s, t, ev.i, x, ev))
    && (ev.sid in s.db && |ev.sid| == SID_SIZE && s.db[ev.sid].status != Init && s.db[ev.sid].status != Cont ==>
          ev.sid in t.db && t.db[ev.sid].status == Failed)
    && (ev.sid in s.db && |ev.sid| == SID_SIZE ==>
          var e := s.db[ev.sid];
          (IsCompleted(t, ev.sid) <==>
             && (e.status == Init || e.status == Cont) && ev.password && e.hasModule && ev.result == Success
             && ModuleAgrees(e, ev.f) && CertificateAgrees(e.who, ev.cfg, ModuleGroup(e, ev.f)) && ev.f.sendOk))
  }

  lemma AuthContMeans(s: State, ev: Event)
    requires ev.AuthContEv?
    ensures ContMeans(s, AuthCont(s, ev.sid, ev.password, ev.result, ev.cfg, ev.f), ev)
  {
    hide CheckGroup, AuthRes, LegalStatus, Authenticates, AuthenticatedAs, CertificateAgrees;
    if ev.sid in s.db && |ev.sid| == SID_SIZE {
      ContOutcome(s, ev.sid, ev.password, ev.result, ev.cfg, ev.f);
    }
    forall x | x in s.db
      ensures LegalStatus(s, AuthCont(s, ev.sid, ev.password, ev.result, ev.cfg, ev.f), ev.i, x, ev)
    {
      AuthContLegal(s, ev.i, x, ev);
    }
    if ev.sid in s.db {
      var e := s.db[ev.sid];
      AuthResSameHold(e, Denied, ev.cfg, ev.f);
      AuthResSameHold(e.(status := Cont), ev.result, ev.cfg, ev.f);
      AuthResLegal(e, Denied, ev.cfg, ev.f);
    }
  }

  /** The session may be opened and the accounting hook, where it is called, agrees. */
  predicate Passes(s: State, sid: Sid, now: int, hookOk: bool) {
    MayOpen(s, sid, now) && (s.db[sid].hooks.open && !s.db[sid].sessionIsOpen ==> hookOk)
  }

  /** Opening a session: it is granted exactly if the entry may be opened, the hook agrees
      and the reply is sent; it then gives the name, takes one hold, forgets the reason
      for which an earlier connection ended, and counts the time anew. Otherwise no hold
      changes. An entry that is found expired, or refused by the hook, fails. The hook is
      called exactly for a session that is not open. */
  ghost predicate OpenMeans(
    s: State, t: State, sid: Sid, cfg: Config, now: int, hookOk: bool, end: OpenEnd, reply: OpenReply)
  {
    && Only(s, t, sid) && t.db.Keys == s.db.Keys && t.closes == s.closes
    && OpenGrants(s, t, sid, cfg, now, hookOk, end, reply)
    && OpenFails(s, t, sid, now, hookOk)
    && OpenKeeps(s, t, sid, now, hookOk, reply)
  }

  ghost predicate OpenGrants(
    s: State, t: State, sid: Sid, cfg: Config, now: int, hookOk: bool, end: OpenEnd, reply: OpenReply)
  {
    && (reply.Granted? <==> Passes(s, sid, now, hookOk) && end == Sent)
    && (reply.Silent? <==> Passes(s, sid, now, hookOk) && end == NoReply)
    && (reply.Granted? ==>
          && reply.username == s.db[sid].who.username
          && IsCompleted(t, sid) && t.db[sid].sessionIsOpen && t.db[sid].inUse == s.db[sid].inUse + 1
          && t.db[sid].reason == NoReason && t.db[sid].exptime == now + cfg.cookieTimeout + 15)
  }

  ghost predicate OpenFails(s: State, t: State, sid: Sid, now: int, hookOk: bool) {
    && (|sid| != SID_SIZE || InstanceOf(sid) != s.index || !IsCompleted(s, sid) ==> t == s)
    && (IsCompleted(s, sid) && |sid| == SID_SIZE && InstanceOf(sid) == s.index ==>
          && (Passes(s, sid, now, hookOk) ==> IsCompleted(t, sid) && t.db[sid].sessionIsOpen)
          && (!Passes(s, sid, now, hookOk) ==> sid in t.db && t.db[sid].status == Failed))
  }

  ghost predicate OpenKeeps(s: State, t: State, sid: Sid, now: int, hookOk: bool, reply: OpenReply) {
    sid in s.db && sid in t.db ==>
      && NotLess(s.db[sid], t.db[sid]) && t.db[sid].who == s.db[sid].who && t.db[sid].pid == s.db[sid].pid
      && (!reply.Granted? ==>
            t.db[sid].inUse == s.db[sid].inUse && t.db[sid].exptime == s.db[sid].exptime && t.db[sid].reason == s.db[sid].reason)
      && t.opens[sid] == s.opens[sid] +
           (if Passes(s, sid, now, hookOk) && s.db[sid].hooks.open && !s.db[sid].sessionIsOpen then 1 else 0)
  }

  lemma OpenGrantsExactly(s: State, sid: Sid, cfg: Config, now: int, hookOk: bool, end: OpenEnd)
    ensures var r := SessionOpen(s, sid, cfg, now, hookOk, end); OpenGrants(s, r.0, sid, cfg, now, hookOk, end, r.1)
  {
    hide InstanceOf, Expired;
  }

  lemma OpenFailsExactly(s: State, sid: Sid, cfg: Config, now: int, hookOk: bool, end: OpenEnd)
    ensures OpenFails(s, SessionOpen(s, sid, cfg, now, hookOk, end).0, sid, now, hookOk)
  {
    hide InstanceOf, Expired;
  }

  lemma OpenKeepsRest(s: State, sid: Sid, cfg: Config, now: int, hookOk: bool, end: OpenEnd)
    ensures var r := SessionOpen(s, sid, cfg, now, hookOk, end); OpenKeeps(s, r.0, sid, now, hookOk, r.1)
  {
    hide InstanceOf, Expired;
  }

  lemma SessionOpenMeans(s: State, sid: Sid, cfg: Config, now: int, hookOk: bool, end: OpenEnd)
    ensures var r := SessionOpen(s, sid, cfg, now, hookOk, end); OpenMeans(s, r.0, sid, cfg, now, hookOk, end, r.1)
  {
    hide InstanceOf, Expired, OpenGrants, OpenFails, OpenKeeps;
    OpenGrantsExactly(s, sid, cfg, now, hookOk, end);
    OpenFailsExactly(s, sid, cfg, now, hookOk, end);
    OpenKeepsRest(s, sid, cfg, now, hookOk, end);
  }

  /** The connection ended for a reason that ends the session with it: the server's or a
      timeout, or the user's while the session was open; never with persistent cookies. */
  predicate EndsSession(e: Entry, reason: Reason, cfg: Config) {
    && !cfg.persistentCookies
    && (reason == ServerDisconnect || reason == SessionTimeout || (reason == UserDisconnect && e.sessionIsOpen))
  }

  /** Otherwise, until when a session that nobody holds since now can be taken up again: for
      the cookie timeout; but after a disconnect by the user only for the slack, or with
      persistent cookies for what was left of its time. */
  function OpenUntil(e: Entry, reason: Reason, cfg: Config, now: int): (t: int) {
    if reason != UserDisconnect then now + cfg.cookieTimeout + 15
    else if cfg.persistentCookies && e.exptime > now + 15 then e.exptime
    else now + 15
  }

  /** Letting go of an entry: one hold less. With the last one it is removed exactly if the
      reason ends the session, which is then closed if it was open; and otherwise it is
      there, known by no worker, until its time is over. */
  ghost predicate ExpireMeans(s: State, t: State, sid: Sid, reason: Reason, cfg: Config, now: int)
    requires sid in s.db
  {
    && Only(s, t, sid) && t.opens == s.opens
    && (sid !in t.db <==> s.db[sid].inUse <= 1 && EndsSession(s.db[sid], reason, cfg))
    && (sid in t.db ==>
          && t.closes == s.closes && !Expired(t.db[sid], now) && t.db[sid].reason == reason
          && t.db[sid].inUse == (if s.db[sid].inUse > 0 then s.db[sid].inUse - 1 else 0)
          && t.db[sid].status == s.db[sid].status && t.db[sid].who == s.db[sid].who
          && (s.db[sid].inUse > 1 ==> t.db[sid].exptime == s.db[sid].exptime && t.db[sid].pid == s.db[sid].pid)
          && (s.db[sid].inUse <= 1 ==>
                && t.db[sid].pid == 0
                && (now >= 0 ==> forall later :: Expired(t.db[sid], later) <==> later >= OpenUntil(s.db[sid], reason, cfg, now))))
    && (sid !in t.db ==> t.closes[sid] == s.closes[sid] + (if ClosesSession(s.db[sid]) then 1 else 0))
  }

  lemma ExpireIsMeant(s: State, sid: Sid, e: Entry, cfg: Config, now: int)
    requires sid in s.db && SameHold(s.db[sid], e) && e.status == s.db[sid].status && e.who == s.db[sid].who
    requires e.exptime == s.db[sid].exptime && e.pid == s.db[sid].pid
    ensures ExpireMeans(s, Expire(s, sid, e, cfg, now), sid, e.reason, cfg, now)
  {
    var e' := if e.inUse > 0 then e.(inUse := e.inUse - 1) else e;
    if e'.inUse == 0 && DropsAtOnce(e', cfg) {
      var m := SetEntry(s, sid, e');
      assert Closing(m, {sid}) == if ClosesSession(e') then {sid} else {};
    }
  }

  /** Closing a session: nothing for one that is not completed; otherwise as ExpireMeans,
      and while the totals fit, the larger count of the connection is added to what was
      saved. */
  ghost predicate CloseMeans(s: State, t: State, sid: Sid, bytes: Stats, inv: bool, cfg: Config, now: int) {
    && (|sid| != SID_SIZE || !IsCompleted(s, sid) ==> t == s)
    && (|sid| == SID_SIZE && IsCompleted(s, sid) ==>
          && ExpireMeans(s, t, sid, if inv then ServerDisconnect else s.db[sid].reason, cfg, now)
          && (sid in t.db ==> t.db[sid].stats == Stats(0, 0))
          && (sid in t.db && RoomToClose(s.db[sid], bytes) ==>
                && NotLess(s.db[sid], t.db[sid])
                && IsMax(t.db[sid].saved.bytesIn - s.db[sid].saved.bytesIn, s.db[sid].stats.bytesIn, bytes.bytesIn)
                && IsMax(t.db[sid].saved.bytesOut - s.db[sid].saved.bytesOut, s.db[sid].stats.bytesOut, bytes.bytesOut)))
  }

  lemma SessionCloseMeans(s: State, sid: Sid, bytes: Stats, inv: bool, cfg: Config, now: int)
    ensures CloseMeans(s, SessionClose(s, sid, bytes, inv, cfg, now), sid, bytes, inv, cfg, now)
  {
    hide Expire, ExpireMeans, AddStats;
    if |sid| == SID_SIZE && IsCompleted(s, sid) {
      CloseConserves(s, sid, bytes, inv, cfg, now);
      var e := s.db[sid];
      ExpireIsMeant(s, sid,
        e.(stats := Stats(0, 0), saved := AddStats(e.saved, MaxStats(e.stats, bytes)),
           reason := if inv then ServerDisconnect else e.reason),
        cfg, now);
    }
  }

  /** What the closing hook is told at shutdown: the bytes of all connections of the
      session, exactly if they fit in 64 bits. */
  ghost predicate ReportMeans(e: Entry, report: Option<Stats>) {
    && (report.Some? <==> ClosesSession(e))
    && (report.Some? ==>
          && (report.value.bytesIn == TotalIn(e) <==> TotalIn(e) < WORD64)
          && (report.value.bytesOut == TotalOut(e) <==> TotalOut(e) < WORD64))
  }

  lemma FoldIsMeant(e: Entry)
    ensures ReportMeans(e, if ClosesSession(e) then Some(Fold(e).saved) else None)
  {
  }
}
