/**
 The sec-mod process as the code has it: a table of client entries that the
 request handlers update in place. Each handler is proved to be the function of
 SecMod that the step system uses, and to mean what Requests says.
 */
module SecModServer {
  import opened Wrappers
  import opened SecMod
  import opened Sessions
  import opened SessionInvariant
  import opened SessionSafety
  import opened Requests

  /** The length of a printable session identifier, without its NUL. */
  const SAFE_ID_LENGTH: nat := 28

  class Server {
    const index: nat
    var db: map<Sid, Entry>
    ghost var opens: multiset<Sid>
    ghost var closes: multiset<Sid>

    constructor (index: nat)
      ensures Value() == State(index, map[], multiset{}, multiset{})
    {
      this.index, db, opens, closes := index, map[], multiset{}, multiset{};
    }

    ghost function Value(): (s: State)
      reads this
    {
      State(index, db, opens, closes)
    }

    // ---- src/sec-mod-db.c ----

    /** find_client_entry_by_pid: walks the table in no particular order. */
    method FindByPid(pid: nat) returns (found: Option<Sid>)
      ensures FoundByPid(Value(), pid, found)
    {
      if pid == 0 { return None; }
      var todo := db.Keys;
      while todo != {}
        invariant todo <= db.Keys
        invariant forall sid :: sid in db && sid !in todo ==> db[sid].pid != pid
        decreases todo
      {
        var sid :| sid in todo;
        if db[sid].pid == pid { return Some(sid); }
        todo := todo - {sid};
      }
      return None;
    }

    /** htable_del and clean_entry */
    method DelClientEntry(sid: Sid)
      requires sid in db
      modifies this
      ensures Value() == Remove(old(Value()), {sid})
    {
      var e := db[sid];
      db := db - {sid};
      if e.hooks.close && e.sessionIsOpen {
        closes := closes + multiset{sid};
        assert Closing(old(Value()), {sid}) == {sid};
      } else {
        assert Closing(old(Value()), {sid}) == {};
      }
    }

    /** Removing one entry after another is removing them together. */
    lemma RemoveOneMore(s: State, sids: set<Sid>, sid: Sid)
      requires sid in s.db && sid !in sids
      ensures Remove(Remove(s, sids), {sid}) == Remove(s, sids + {sid})
    {
      var a, b, c := Closing(s, sids), Closing(Remove(s, sids), {sid}), Closing(s, sids + {sid});
      assert c == a + b && a !! b;
      assert multiset(a) + multiset(b) == multiset(c);
    }

    /** cleanup_client_entries */
    method CleanupClientEntries(now: int)
      modifies this
      ensures forall sid :: sid in old(db) ==>
                (sid in db <==> old(db)[sid].exptime == -1 || now < old(db)[sid].exptime || old(db)[sid].inUse > 0)
      ensures db.Keys <= old(db).Keys && forall sid :: sid in db ==> db[sid] == old(db)[sid]
      ensures Value() == Cleanup(old(Value()), now)
    {
      var todo := db.Keys;
      ghost var gone: set<Sid> := {};
      ghost var s := Value();
      assert Remove(s, {}) == s by { RemoveNone(s); }
      while todo != {}
        invariant todo <= db.Keys && Value() == Remove(s, gone)
        invariant gone == set sid | sid in s.db && sid !in todo && Expired(s.db[sid], now)
        decreases todo
      {
        var sid :| sid in todo;
        assert gone !! todo;
        todo := todo - {sid};
        if Expired(db[sid], now) {
          RemoveOneMore(s, gone, sid);
          gone := gone + {sid};
          DelClientEntry(sid);
        }
      }
    }

    lemma RemoveNone(s: State)
      ensures Remove(s, {}) == s && Closing(s, {}) == {}
    {
      assert s.db - {} == s.db;
      assert Closing(s, {}) == {};
    }

    /** terminate_user_sessions */
    method TerminateUserSessions(username: string) returns (terminated: bool)
      modifies this
      ensures Value() == TerminateUser(old(Value()), username)
      ensures username == "" ==> db == old(db)
      ensures username != "" ==> forall sid :: sid in old(db) ==> (sid in db <==> old(db)[sid].who.username != username)
      ensures db.Keys <= old(db).Keys && forall sid :: sid in db ==> db[sid] == old(db)[sid]
      ensures terminated <==> username != "" && exists sid :: sid in old(db) && old(db)[sid].who.username == username
    {
      terminated := false;
      if username == "" { return; }
      var todo := db.Keys;
      ghost var gone: set<Sid> := {};
      ghost var s := Value();
      RemoveNone(s);
      while todo != {}
        invariant todo <= db.Keys && Value() == Remove(s, gone)
        invariant gone == set sid | sid in s.db && sid !in todo && s.db[sid].who.username == username
        invariant terminated <==> gone != {}
        decreases todo
      {
        var sid :| sid in todo;
        assert gone !! todo;
        todo := todo - {sid};
        if db[sid].who.username == username {
          RemoveOneMore(s, gone, sid);
          gone := gone + {sid};
          DelClientEntry(sid);
          terminated := true;
        }
      }
      assert gone == set sid | sid in s.db && s.db[sid].who.username == username;
    }

    /** expire_client_entry, as the step has it. */
    method LetGo(sid: Sid, cfg: Config, now: int)
      requires sid in db
      modifies this
      ensures Value() == Expire(old(Value()), sid, old(db)[sid], cfg, now)
    {
      hide Closing, ClosesSession;
      var e := db[sid];
      if e.inUse > 0 { e := e.(inUse := e.inUse - 1); }
      db := db[sid := e];
      if e.inUse > 0 { return; }
      if !cfg.persistentCookies
        && (e.reason == ServerDisconnect || e.reason == SessionTimeout || (e.sessionIsOpen && e.reason == UserDisconnect))
      {
        DelClientEntry(sid);
        return;
      }
      if e.reason == UserDisconnect {
        if !cfg.persistentCookies || now + AUTH_SLACK_TIME >= e.exptime {
          e := e.(exptime := now + AUTH_SLACK_TIME);
        }
      } else {
        e := e.(exptime := now + cfg.cookieTimeout + AUTH_SLACK_TIME);
      }
      db := db[sid := e.(pid := 0)];
    }

    /** expire_client_entry */
    method ExpireClientEntry(sid: Sid, cfg: Config, now: int)
      requires sid in db
      modifies this
      ensures ExpireMeans(old(Value()), Value(), sid, old(db)[sid].reason, cfg, now)
      ensures Value() == Expire(old(Value()), sid, old(db)[sid], cfg, now)
    {
      hide ExpireMeans, Expire;
      ExpireIsMeant(Value(), sid, db[sid], cfg, now);
      LetGo(sid, cfg, now);
    }

    /** sec_mod_client_db_deinit: closes the session of every entry, then empties
        the table. */
    method Deinit()
      modifies this
      ensures Value() == Shutdown(old(Value()))
    {
      hide Closing, Shutdown, ClosesSession;
      var todo := db.Keys;
      ghost var s, done: set<Sid> := Value(), {};
      RemoveNone(s);
      while todo != {}
        invariant todo <= s.db.Keys && db == s.db && opens == s.opens
        invariant done == s.db.Keys - todo
        invariant closes == s.closes + multiset(Closing(s, done))
        decreases todo
      {
        var sid :| sid in todo;
        ClosingOneMore(s, done, sid);
        todo, done := todo - {sid}, done + {sid};
        var _ := UserDeinit(sid);
      }
      db := map[];
      ShutdownIs(s);
    }

    lemma ShutdownIs(s: State)
      ensures Shutdown(s) == State(s.index, map[], s.opens, s.closes + multiset(Closing(s, s.db.Keys)))
    {
      assert s.db - s.db.Keys == map[];
    }

    /** The fold and sec_auth_user_deinit: the totals given to the closing hook. */
    method UserDeinit(sid: Sid) returns (report: Option<Stats>)
      requires sid in db
      modifies this`closes
      ensures ReportMeans(db[sid], report)
      ensures closes == old(closes) + (if ClosesSession(db[sid]) then multiset{sid} else multiset{})
    {
      hide ReportMeans;
      FoldIsMeant(db[sid]);
      report := None;
      var e := db[sid];
      if e.sessionIsOpen {
        e := e.(saved := AddStats(e.saved, e.stats), stats := Stats(0, 0));
      }
      if e.hooks.close && e.sessionIsOpen {
        report := Some(e.saved);
        closes := closes + multiset{sid};
      }
    }

    lemma ClosingOneMore(s: State, sids: set<Sid>, sid: Sid)
      requires sid in s.db && sid !in sids
      ensures var a, b := Closing(s, sids), Closing(s, sids + {sid});
              if ClosesSession(s.db[sid]) then b == a + {sid} && multiset(b) == multiset(a) + multiset{sid} else b == a
    {
      var a, b := Closing(s, sids), Closing(s, sids + {sid});
      assert ClosesSession(s.db[sid]) ==> b == a + {sid};
    }

    /** terminate_session_by_sid: walks the table for an entry with the printable
        identifier. */
    method TerminateSession(safeId: Sid -> string, id: string) returns (found: Option<Sid>)
      modifies this
      ensures Value() == TerminateSid(old(Value()), found)
      ensures db == if found.Some? then old(db) - {found.value} else old(db)
      ensures found.Some? ==> found.value in old(db) && safeId(found.value) == id
      ensures found.None? <==> |id| != SAFE_ID_LENGTH || forall sid :: sid in old(db) ==> safeId(sid) != id
    {
      if |id| != SAFE_ID_LENGTH { return None; }
      var todo := db.Keys;
      while todo != {}
        invariant todo <= db.Keys && Value() == old(Value())
        invariant forall sid :: sid in db && sid !in todo ==> safeId(sid) != id
        decreases todo
      {
        var sid :| sid in todo;
        if safeId(sid) == id {
          DelClientEntry(sid);
          return Some(sid);
        }
        todo := todo - {sid};
      }
      return None;
    }

    // ---- src/sec-mod-auth.c ----

    /** handle_sec_auth_res on the entry of sid. */
    method HandleAuthRes(sid: Sid, result: AuthResult, cfg: Config, f: Finish) returns (ok: bool)
      requires sid in db
      modifies this`db
      ensures ResMeans(old(Value()), Value(), sid, result, cfg, f)
      ensures ok ==> db[sid].status == Completed || result == Continue
      ensures Value() == SetEntry(old(Value()), sid, AuthRes(old(db)[sid], result, cfg, f))
    {
      hide ResMeans, CheckGroup;
      AuthResMeans(Value(), sid, result, cfg, f);
      var e := db[sid];
      if (result == Continue || result == Success) && e.hasModule && !f.msgOk {
        db := db[sid := e.(status := Failed)];
        return false;
      }
      if result == Continue {
        if !f.sendOk { e := e.(status := Failed); }
        db := db[sid := e];
        return f.sendOk;
      } else if result == Success && e.status != Failed {
        var w := CheckGroup(e, cfg, f.group);
        if w.None? {
          db := db[sid := e.(status := Failed)];
          return false;
        }
        e := e.(who := w.value, status := Completed);
        if e.hasModule && f.username.Some? {
          e := e.(who := e.who.(username := f.username.value));
        }
        if !f.sendOk { e := e.(status := Failed); }
        db := db[sid := e];
        return f.sendOk;
      } else {
        db := db[sid := e.(status := Failed)];
        return false;
      }
    }

    /** The new entry, filled in from the request, and the result to act on. */
    method FillEntry(r: InitRequest, cfg: Config, now: int) returns (e: Entry, result: AuthResult)
      ensures forall f: Finish :: FirstEntry(r, cfg, now, f) == AuthRes(e, result, cfg, f)
    {
      e := NewEntry(r.pid, r.hooks, cfg, now);
      if !r.methodOk { return e, Denied; }
      e := e.(hasModule := r.hasModule, who := e.who.(certAuth := r.who.certAuth));
      if r.hasModule && r.result == Denied { return e, Denied; }
      e := e.(who := r.who, status := Init);
      result := if r.hasModule && r.result == Continue then Continue else Success;
    }

    lemma FirstEntryIgnoresFound(r: InitRequest, found: Option<Sid>, cfg: Config, now: int, f: Finish)
      ensures FirstEntry(r, cfg, now, f) == FirstEntry(r.(found := found), cfg, now, f)
    {
      hide AuthRes;
    }

    /** handle_sec_auth_init: `r.found` is not read, it is looked up. */
    method HandleAuthInit(r: InitRequest, cfg: Config, now: int, f: Finish) returns (found: Option<Sid>)
      requires r.raw.Some? ==> |r.raw.value| == SID_SIZE && Stamp(r.raw.value, index) !in db
      modifies this
      ensures FoundByPid(old(Value()), r.pid, found)
      ensures Value() == AuthInit(old(Value()), r.(found := found), cfg, now, f)
    {
      hide AuthRes, Stamp, Remove, FirstEntry;
      found := FindByPid(r.pid);
      if !r.authentic { return; }
      if found.Some? {
        if db[found.value].status == Failed && db[found.value].inUse == 0 {
          DelClientEntry(found.value);
        } else {
          return;
        }
      }
      if r.raw.None? { return; }
      var sid := Stamp(r.raw.value, index);
      var e, result := FillEntry(r, cfg, now);
      assert AuthRes(e, result, cfg, f) == FirstEntry(r, cfg, now, f);
      ghost var before := Value();
      db := db[sid := e];
      var _ := HandleAuthRes(sid, result, cfg, f);
      assert db == before.db[sid := FirstEntry(r, cfg, now, f)];
      FirstEntryIgnoresFound(r, found, cfg, now, f);
    }

    /** handle_sec_auth_cont: the module is asked only where the code asks it. */
    method HandleAuthCont(sid: Sid, password: bool, pass: AuthResult, cfg: Config, f: Finish)
      modifies this
      ensures ContMeans(old(Value()), Value(), AuthContEv(index, sid, password, pass, cfg, f))
      ensures Value() == AuthCont(old(Value()), sid, password, pass, cfg, f)
    {
      hide AuthRes, ContMeans, ResMeans;
      AuthContMeans(Value(), AuthContEv(index, sid, password, pass, cfg, f));
      if |sid| != SID_SIZE || sid !in db { return; }
      var result := Denied;
      if (db[sid].status == Init || db[sid].status == Cont) && password && db[sid].hasModule {
        db := db[sid := db[sid].(status := Cont)];
        result := pass;
      }
      var _ := HandleAuthRes(sid, result, cfg, f);
      assert Value() == AuthCont(old(Value()), sid, password, pass, cfg, f);
    }

    /** handle_sec_auth_ban_ip_reply */
    method HandleBanIpReply(sid: Sid, ok: bool)
      modifies this`db
      ensures BanMeans(old(Value()), Value(), sid, ok)
      ensures Value() == BanReply(old(Value()), sid, ok)
    {
      hide BanMeans;
      BanReplyMeans(Value(), sid, ok);
      if |sid| != SID_SIZE || sid !in db { return; }
      if !ok { db := db[sid := db[sid].(status := Failed)]; }
    }

    /** handle_sec_auth_stats_cmd */
    method HandleStats(sid: Sid, bytes: Stats, reason: Reason, pid: nat)
      modifies this`db
      ensures StatsMean(old(Value()), Value(), sid, bytes, reason, pid)
      ensures Value() == UpdateStats(old(Value()), sid, bytes, reason, pid)
    {
      hide StatsMean;
      UpdateStatsMeans(Value(), sid, bytes, reason, pid);
      if |sid| != SID_SIZE || sid !in db { return; }
      var e := db[sid];
      if e.status != Completed { return; }
      if bytes.bytesIn > e.stats.bytesIn { e := e.(stats := e.stats.(bytesIn := bytes.bytesIn)); }
      if bytes.bytesOut > e.stats.bytesOut { e := e.(stats := e.stats.(bytesOut := bytes.bytesOut)); }
      if reason != NoReason { e := e.(reason := reason); }
      db := db[sid := e.(pid := pid)];
    }

    /** handle_secm_session_open_cmd */
    method HandleSessionOpen(sid: Sid, cfg: Config, now: int, hookOk: bool, end: OpenEnd) returns (reply: OpenReply)
      modifies this
      ensures OpenMeans(old(Value()), Value(), sid, cfg, now, hookOk, end, reply)
      ensures (Value(), reply) == SessionOpen(old(Value()), sid, cfg, now, hookOk, end)
    {
      hide InstanceOf, OpenMeans;
      SessionOpenMeans(Value(), sid, cfg, now, hookOk, end);
      if |sid| != SID_SIZE { return Refused; }
      if InstanceOf(sid) != index { return Refused; }
      if sid !in db { return Refused; }
      var e := db[sid];
      if e.status != Completed { return Refused; }
      if Expired(e, now) {
        db := db[sid := e.(status := Failed)];
        return Refused;
      }
      if e.hooks.open && !e.sessionIsOpen {
        if !hookOk {
          db := db[sid := e.(status := Failed)];
          return Refused;
        }
        opens := opens + multiset{sid};
      }
      e := e.(sessionIsOpen := true);
      db := db[sid := e];
      if end == NoReply { return Silent; }
      if end == ConfigFailed { return Refused; }
      e := e.(reason := NoReason, exptime := now + cfg.cookieTimeout + AUTH_SLACK_TIME, inUse := e.inUse + 1);
      db := db[sid := e];
      assert db == old(db)[sid := e];
      return Granted(e.who.username);
    }

    /** handle_secm_session_close_cmd */
    method HandleSessionClose(sid: Sid, bytes: Stats, serverDisconnected: bool, cfg: Config, now: int)
      modifies this
      ensures CloseMeans(old(Value()), Value(), sid, bytes, serverDisconnected, cfg, now)
      ensures Value() == SessionClose(old(Value()), sid, bytes, serverDisconnected, cfg, now)
    {
      hide AddStats, CloseMeans, ExpireMeans;
      SessionCloseMeans(Value(), sid, bytes, serverDisconnected, cfg, now);
      if |sid| != SID_SIZE || sid !in db { return; }
      var e := db[sid];
      if e.status != Completed { return; }
      if bytes.bytesIn > e.stats.bytesIn { e := e.(stats := e.stats.(bytesIn := bytes.bytesIn)); }
      if bytes.bytesOut > e.stats.bytesOut { e := e.(stats := e.stats.(bytesOut := bytes.bytesOut)); }
      if serverDisconnected { e := e.(reason := ServerDisconnect); }
      e := e.(saved := AddStats(e.saved, e.stats), stats := Stats(0, 0));
      db := db[sid := e];
      ExpireClientEntry(sid, cfg, now);
      ExpireIgnoresOld(old(Value()), sid, e, cfg, now);
    }

    lemma ExpireIgnoresOld(s: State, sid: Sid, e: Entry, cfg: Config, now: int)
      ensures Expire(SetEntry(s, sid, e), sid, e, cfg, now) == Expire(s, sid, e, cfg, now)
    {
    }
  }
}
