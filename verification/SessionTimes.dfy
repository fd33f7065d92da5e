/**
 How long a session can be taken up again, said over two and more requests.
 */
module SessionTimes {
  import opened Wrappers
  import opened SecMod
  import opened Sessions
  import opened SessionInvariant
  import opened SessionSafety
  import opened Logins
  import opened Requests

  predicate Named(s: State, sid: Sid) {
    |sid| == SID_SIZE && InstanceOf(sid) == s.index
  }

  /** A new entry that is completed can be opened until the cookie timeout and 15 seconds
      after the request, and that is when maintenance removes it. */
  lemma NewThenOpen(s: State, r: InitRequest, cfg: Config, now: int, f: Finish, later: int)
    requires FoundByPid(s, r.pid, r.found) && Creates(s, r) && |r.raw.value| == SID_SIZE && now >= 0 && s.index < 0x1_0000
    ensures var sid, t := Stamp(r.raw.value, s.index), AuthInit(s, r, cfg, now, f);
            && sid in t.db
            && (t.db[sid].status == Completed ==> (MayOpen(t, sid, later) <==> later < now + cfg.cookieTimeout + 15))
            && (sid in Cleanup(t, later).db <==> later < now + cfg.cookieTimeout + 15)
  {
    hide Stamp, InstanceOf;
    InitOutcome(r, cfg, now, f);
    NewTime(r, cfg, now, f);
  }

  lemma NewTime(r: InitRequest, cfg: Config, now: int, f: Finish)
    ensures FirstEntry(r, cfg, now, f).exptime == now + cfg.cookieTimeout + 15 && FirstEntry(r, cfg, now, f).inUse == 0
  {
    hide CheckGroup;
  }

  /** After a close, with nobody left on it, a session that the reason does not end can be
      opened: for the cookie timeout and 15 seconds, if the user did not disconnect; for
      15 seconds if they did; and with persistent cookies at least until its old time. */
  lemma CloseThenOpen(s: State, sid: Sid, bytes: Stats, inv: bool, cfg: Config, now: int, later: int)
    requires Named(s, sid) && IsCompleted(s, sid) && s.db[sid].inUse <= 1 && now >= 0
    ensures var e, t := s.db[sid], SessionClose(s, sid, bytes, inv, cfg, now);
            var reason := if inv then ServerDisconnect else e.reason;
            && (sid !in t.db <==>
                  !cfg.persistentCookies && reason != NoReason && reason != OtherReason && (reason == UserDisconnect ==> e.sessionIsOpen))
            && (sid in t.db && reason != UserDisconnect ==> (MayOpen(t, sid, later) <==> later < now + cfg.cookieTimeout + 15))
            && (sid in t.db && reason == UserDisconnect && !cfg.persistentCookies ==> (MayOpen(t, sid, later) <==> later < now + 15))
            && (sid in t.db && reason == UserDisconnect && cfg.persistentCookies ==>
                  (MayOpen(t, sid, later) <==> later < now + 15 || later < e.exptime))
  {
    hide SessionClose, InstanceOf, Expired;
    SessionCloseMeans(s, sid, bytes, inv, cfg, now);
    var e, t := s.db[sid], SessionClose(s, sid, bytes, inv, cfg, now);
    var reason := if inv then ServerDisconnect else e.reason;
    assert sid in t.db ==> (Expired(t.db[sid], later) <==> later >= OpenUntil(e, reason, cfg, now));
  }

  /** While somebody else is on it, it can be opened at any time. */
  lemma HeldIsOpen(s: State, sid: Sid, bytes: Stats, inv: bool, cfg: Config, now: int, later: int)
    requires Named(s, sid) && IsCompleted(s, sid) && s.db[sid].inUse > 1
    ensures MayOpen(SessionClose(s, sid, bytes, inv, cfg, now), sid, later)
  {
    hide SessionClose, InstanceOf;
    SessionCloseMeans(s, sid, bytes, inv, cfg, now);
  }

  /** A connection from beginning to end: opened at `at`, it reports a reason, and is closed
      at `now` as the only one. The time counts from the opening only where the user has
      disconnected and cookies are persistent; a reason from before does not matter. */
  lemma OpenCloseOpen(s: State, sid: Sid, cfg: Config, at: int, hookOk: bool, bytes: Stats, reason: Reason, pid: nat, now: int, later: int)
    requires Passes(s, sid, at, hookOk) && s.db[sid].inUse == 0 && now >= 0
    ensures var s1 := SessionOpen(s, sid, cfg, at, hookOk, Sent).0;
            var s2 := UpdateStats(s1, sid, bytes, reason, pid);
            var t := SessionClose(s2, sid, bytes, false, cfg, now);
            && (sid !in t.db <==> !cfg.persistentCookies && reason != NoReason && reason != OtherReason)
            && (sid in t.db ==>
                  (MayOpen(t, sid, later) <==>
                     if reason == UserDisconnect then later < now + 15 || later < at + cfg.cookieTimeout + 15
                     else later < now + cfg.cookieTimeout + 15))
  {
    hide SessionOpen, UpdateStats, SessionClose, InstanceOf, Expired;
    SessionOpenMeans(s, sid, cfg, at, hookOk, Sent);
    var s1 := SessionOpen(s, sid, cfg, at, hookOk, Sent).0;
    UpdateStatsMeans(s1, sid, bytes, reason, pid);
    var s2 := UpdateStats(s1, sid, bytes, reason, pid);
    CloseThenOpen(s2, sid, bytes, false, cfg, now, later);
  }

  /** An open that is too late fails the entry for good: nothing opens it afterwards. */
  lemma LateOpenFails(s: State, sid: Sid, cfg: Config, now: int, hookOk: bool, end: OpenEnd, later: int)
    requires Named(s, sid) && IsCompleted(s, sid) && !MayOpen(s, sid, now)
    ensures var t := SessionOpen(s, sid, cfg, now, hookOk, end).0; sid in t.db && t.db[sid].status == Failed && !MayOpen(t, sid, later)
  {
    hide SessionOpen, InstanceOf;
    SessionOpenMeans(s, sid, cfg, now, hookOk, end);
  }

  // ---- Main's side ----

  /** Removing a worker lets go of the session it holds, unless the server quits; then no
      sec-mod is asked. */
  lemma RemoveLetsGo(sys: Sys, ev: Event)
    requires ev.RemoveProcEv? && Enabled(sys, ev)
    ensures var proc, t := sys.procs[ev.p], Step(sys, ev);
            && t.procs == sys.procs - {ev.p}
            && (ev.quit || !proc.active ==> t.secs == sys.secs)
            && (!ev.quit && proc.active ==>
                  && |t.secs| == |sys.secs|
                  && (forall i :: 0 <= i < |sys.secs| && i != proc.instance ==> t.secs[i] == sys.secs[i])
                  && CloseMeans(sys.secs[proc.instance], t.secs[proc.instance], proc.sid, ev.bytes, proc.invalidated, ev.cfg, ev.now))
  {
    hide SessionClose, CloseMeans;
    var proc := sys.procs[ev.p];
    if proc.active {
      SessionCloseMeans(sys.secs[proc.instance], proc.sid, ev.bytes, proc.invalidated, ev.cfg, ev.now);
    }
  }
}
