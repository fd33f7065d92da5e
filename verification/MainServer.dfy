/**
 The main process as the code has it, with the sec-mod processes it talks to: a list
 of workers updated in place and requests to objects. Every command is proved to be a
 step of Sessions, so the objects are always in a state that some run of the step
 system reaches, and what is proved of runs holds of them.
 */
module MainServer {
  import opened Wrappers
  import opened SecMod
  import opened Sessions
  import opened SessionInvariant
  import opened SessionSafety
  import opened SessionReuse
  import opened Requests
  import opened SecModServer

  class Main {
    const secs: seq<Server>
    var procs: map<nat, Proc>
    /** The SIDs issued so far, and those where both accounting hooks are defined. */
    ghost var used: set<Sid>
    ghost var hooked: set<Sid>
    /** What has happened so far, from where. */
    ghost const start: Sys
    ghost var history: seq<Event>

    ghost predicate Apart() {
      forall i, j :: 0 <= i < j < |secs| ==> secs[i] != secs[j]
    }

    ghost function Value(): (sys: Sys)
      reads this, secs
    {
      Sys(seq(|secs|, i requires 0 <= i < |secs| reads this, secs => secs[i].Value()), procs, used, hooked)
    }

    /** The objects are where the run that has happened leads to. */
    ghost predicate Reached()
      reads this, secs
    {
      Start(start) && Feasible(start, history) && Run(start, history) == Value()
    }

    /** Every entry counts at least the workers attached to it. */
    ghost predicate Covered()
      reads this, secs
    {
      forall i, sid :: 0 <= i < |secs| && sid in secs[i].db ==> secs[i].db[sid].inUse >= |Holders(procs, sid)|
    }

    ghost predicate Valid()
      reads this, secs
    {
      Apart() && Reached() && Inv(Value()) && Covered()
    }

    /** A server with n sec-mod processes. */
    constructor (n: nat)
      requires n < 0x1_0000
      ensures Valid() && |secs| == n && procs == map[] && history == []
      ensures forall i :: 0 <= i < |secs| ==> fresh(secs[i])
    {
      var ss: seq<Server> := [];
      for i := 0 to n
        invariant |ss| == i
        invariant forall j :: 0 <= j < i ==> fresh(ss[j]) && ss[j].Value() == State(j, map[], multiset{}, multiset{})
        invariant forall j, k :: 0 <= j < k < i ==> ss[j] != ss[k]
      {
        var s := new Server(i);
        ss := ss + [s];
      }
      secs, procs, used, hooked, history := ss, map[], {}, {}, [];
      start := Sys(seq(n, i requires 0 <= i < n => State(i, map[], multiset{}, multiset{})), map[], {}, {});
      new;
      assert Value() == start;
      RunKeepsInv(start, []);
    }

    /** After a step of the objects that is a step of the system. */
    ghost method Record(ev: Event, before: Sys)
      requires Apart() && Start(start) && Feasible(start, history) && Run(start, history) == before
      requires Enabled(before, ev) && Value() == Step(before, ev)
      modifies this`history
      ensures Valid() && history == old(history) + [ev]
    {
      hide Enabled, Step, Inv, Start;
      RunOneMore(start, history, ev);
      history := history + [ev];
      assert Value().secs == old(Value()).secs;
      RunKeepsInv(start, history);
      CoveredByInv();
    }

    lemma CoveredByInv()
      requires Inv(Value())
      ensures Covered()
    {
      hide Holders, SecOk, ProcOk;
      forall i, sid | 0 <= i < |secs| && sid in secs[i].db
        ensures secs[i].db[sid].inUse >= |Holders(procs, sid)|
      {
        assert Value().secs[i] == secs[i].Value();
        assert Counts(Value().secs[i], procs);
      }
    }

    // ---- Workers ----

    /** new_proc: a worker that holds no session. */
    method NewProc(p: nat)
      requires Valid() && p !in procs
      modifies this
      ensures Valid() && history == old(history) + [NewProcEv(p)]
      ensures p in procs && procs == old(procs)[p := procs[p]] && !Admitted(Value(), p)
    {
      procs := procs[p := NEW_PROC];
      Record(NewProcEv(p), old(Value()));
    }

    /** handle_script_exit, when the connect script ends: ok is a zero exit code and
        the reply and routes that follow it. The worker keeps its session; it is
        completed by this exactly if the script agrees. */
    method HandleScriptExit(p: nat, ok: bool)
      requires Valid() && p in procs && procs[p].scriptPending
      modifies this
      ensures Valid() && history == old(history) + [ScriptExitEv(p, ok)]
      ensures p in procs && procs == old(procs)[p := procs[p]] && SameSession(old(procs)[p], procs[p])
      ensures procs[p].status == Completed <==> ok || old(procs)[p].status == Completed
    {
      var proc := procs[p].(scriptPending := false);
      if ok { proc := proc.(status := Completed); }
      procs := procs[p := proc];
      Record(ScriptExitEv(p, ok), old(Value()));
    }

    /** handle_cookie_auth_res: the worker keeps the session it may have got, it cannot
        present another cookie, and it is completed only if everything was accepted. */
    method HandleCookieAuthRes(p: nat, accepted: bool, c: Cookie)
      requires p in procs
      modifies this`procs
      ensures p in procs && procs == old(procs)[p := procs[p]] && procs[p].status != Inactive
      ensures SameSession(old(procs)[p], procs[p]) && procs[p].active == old(procs)[p].active
      ensures procs[p].status == Completed <==> accepted && c.accept == Accepted && c.replyOk
      ensures procs[p].scriptPending <==> old(procs)[p].scriptPending || (accepted && c.accept == WaitsForScript)
      ensures procs[p].instance == old(procs)[p].instance && procs[p].invalidated == old(procs)[p].invalidated
      ensures procs[p].filed == old(procs)[p].filed
      ensures procs[p].status == Completed || procs[p].status == Failed
    {
      var proc := procs[p];
      if accepted && c.accept == Accepted {
        proc := proc.(status := Completed);
        if !c.replyOk { proc := proc.(status := Failed); }
      } else {
        proc := proc.(status := Failed);
        if accepted && c.accept == WaitsForScript { proc := proc.(scriptPending := true); }
      }
      procs := procs[p := proc];
    }

    /** handle_auth_cookie_req, for a cookie that names an instance. The worker is
        attached only to a session that could be opened and under its name, and if the
        worker that the search found was disconnected, everything stays as it is. */
    method HandleAuthCookieReq(p: nat, cookie: Sid, c: Cookie) returns (ok: bool)
      requires Apart() && p in procs && |cookie| == SID_SIZE && procs[p].instance == InstanceOf(cookie) < |secs|
      requires !procs[p].active && !procs[p].filed
      requires c.prior.Some? ==> c.prior.value in procs && c.prior.value != p
      modifies this`procs, secs[InstanceOf(cookie)]
      ensures p in procs && procs == old(procs)[p := procs[p]]
      ensures ok ==> procs[p].active
      ensures var s, t := old(secs[InstanceOf(cookie)].Value()), secs[InstanceOf(cookie)].Value();
              if procs[p].active then
                && MayOpen(s, cookie, c.now) && procs[p].sid == cookie && procs[p].username == s.db[cookie].who.username
                && cookie in t.db && t.db[cookie].inUse == s.db[cookie].inUse + 1
              else procs[p].sid == old(procs)[p].sid
      ensures c.prior.Some? && old(procs)[c.prior.value].invalidated ==>
                !ok && procs == old(procs) && secs[InstanceOf(cookie)].Value() == old(secs[InstanceOf(cookie)].Value())
      ensures var i, r := InstanceOf(cookie), SessionOpen(old(secs[InstanceOf(cookie)].Value()), cookie, c.cfg, c.now, c.hookOk, c.end);
              var refused := !c.rngOk || (c.prior.Some? && old(procs)[c.prior.value].invalidated);
              && (secs[i].Value() == if refused then old(secs[i].Value()) else r.0)
              && ok == (!refused && r.1.Granted? && c.mainOk && c.tableOk
                        && (c.prior.Some? ==> old(procs)[c.prior.value].username == r.1.username))
              && procs[p] ==
                 if refused || !r.1.Granted? || !c.mainOk then old(procs)[p]
                 else if c.prior.Some? && old(procs)[c.prior.value].username != r.1.username then
                   old(procs)[p].(username := r.1.username)
                 else old(procs)[p].(username := r.1.username, sid := cookie, active := true, filed := c.tableOk)
    {
      hide SessionOpen, InstanceOf, OpenMeans;
      assert procs == procs[p := procs[p]];
      if !c.rngOk { return false; }
      if c.prior.Some? && procs[c.prior.value].invalidated { return false; }
      var reply := secs[procs[p].instance].HandleSessionOpen(cookie, c.cfg, c.now, c.hookOk, c.end);
      OpenFacts(old(secs[InstanceOf(cookie)].Value()), secs[InstanceOf(cookie)].Value(), cookie, c, reply);
      if !reply.Granted? || !c.mainOk { return false; }
      procs := procs[p := procs[p].(username := reply.username)];
      if c.prior.Some? && procs[c.prior.value].username != procs[p].username { return false; }
      procs := procs[p := procs[p].(sid := cookie, active := true)];
      if !c.tableOk { return false; }
      procs := procs[p := procs[p].(filed := true)];
      return true;
    }

    lemma OpenFacts(s: State, t: State, sid: Sid, c: Cookie, reply: OpenReply)
      requires OpenMeans(s, t, sid, c.cfg, c.now, c.hookOk, c.end, reply)
      ensures reply.Granted? ==>
                && MayOpen(s, sid, c.now) && reply.username == s.db[sid].who.username
                && sid in t.db && t.db[sid].inUse == s.db[sid].inUse + 1
    {
    }

    lemma NotActive(p: nat)
      requires Valid() && p in procs && procs[p].status == Inactive
      ensures !procs[p].active && !procs[p].scriptPending && !procs[p].filed
    {
      assert ProcOk(Value().procs[p], |Value().secs|, Value().used);
    }

    /** The AUTH_COOKIE_REQ command, on the objects. */
    method ServeCookie(p: nat, cookie: Sid, c: Cookie)
      requires Valid() && Enabled(Value(), CookieEv(p, cookie, c))
      modifies this`procs, secs
      ensures Value() == Step(old(Value()), CookieEv(p, cookie, c))
    {
      hide SessionOpen, InstanceOf, Inv, Start, Feasible, Run, Covered, MayOpen, Holders;
      if procs[p].status != Inactive || |cookie| != SID_SIZE { return; }
      if InstanceOf(cookie) >= |secs| {
        HandleCookieAuthRes(p, false, c);
        return;
      }
      NotActive(p);
      procs := procs[p := procs[p].(instance := InstanceOf(cookie))];
      var ok := HandleAuthCookieReq(p, cookie, c);
      HandleCookieAuthRes(p, ok, c);
      assert procs == old(procs)[p := procs[p]];
      assert Value().secs == old(Value()).secs[InstanceOf(cookie) := secs[InstanceOf(cookie)].Value()];
    }

    /** proc_search_sid: some worker filed under the SID, in no particular order. */
    method SearchSid(sid: Sid) returns (found: Option<nat>)
      ensures FoundBySid(procs, sid, found)
    {
      var todo := procs.Keys;
      while todo != {}
        invariant todo <= procs.Keys
        invariant forall q :: q in procs && q !in todo ==> !Files(procs[q], sid)
        decreases todo
      {
        var q :| q in todo;
        if procs[q].filed && procs[q].sid == sid { return Some(q); }
        todo := todo - {q};
      }
      return None;
    }

    /** The AUTH_COOKIE_REQ command; c.prior is not read, it is searched for. If there are
        workers filed under the SID and all have been disconnected, the worker gets
        nothing and sec-mod does not hear of it. */
    method HandleCookieCommand(p: nat, cookie: Sid, c: Cookie) returns (prior: Option<nat>)
      requires Valid() && p in procs
      modifies this, secs
      ensures FoundBySid(old(procs), cookie, prior)
      ensures Valid() && history == old(history) + [CookieEv(p, cookie, c.(prior := prior))]
      ensures Value() == Step(old(Value()), CookieEv(p, cookie, c.(prior := prior)))
      ensures p in procs && (prior.Some? && old(procs)[prior.value].invalidated ==>
                Value().secs == old(Value()).secs && procs[p].active == old(procs)[p].active && procs[p].sid == old(procs)[p].sid)
      ensures (exists q :: q in old(procs) && Files(old(procs)[q], cookie)) &&
              (forall q :: q in old(procs) && Files(old(procs)[q], cookie) ==> old(procs)[q].invalidated) ==>
                prior.Some? && old(procs)[prior.value].invalidated
    {
      hide Step, Inv, Start, Feasible, Run, Covered, Holders;
      ghost var before := Value();
      prior := SearchSid(cookie);
      var c := c.(prior := prior);
      ServeCookie(p, cookie, c);
      Record(CookieEv(p, cookie, c), before);
      assert Value().secs == Step(before, CookieEv(p, cookie, c)).secs;
      CookieKeepsProcs(before, p, cookie, c);
      if prior.Some? && before.procs[prior.value].invalidated {
        FoundInvalidated(before, p, cookie, c);
      }
    }

    lemma CookieKeepsProcs(sys: Sys, p: nat, cookie: Sid, c: Cookie)
      requires Enabled(sys, CookieEv(p, cookie, c))
      ensures Step(sys, CookieEv(p, cookie, c)).procs.Keys == sys.procs.Keys
    {
      hide SessionOpen, InstanceOf;
    }

    /** disconnect_proc: the worker is marked, so that a cookie that finds it is refused. It
        is removed at once if it has no process that could be told to end. */
    method DisconnectProc(p: nat, hasPid: bool, bytes: Stats, cfg: Config, now: int)
      requires Valid() && p in procs
      modifies this, secs
      ensures Valid() && (p in procs <==> hasPid)
      ensures history == old(history) + [DisconnectEv(p)] + if hasPid then [] else [RemoveProcEv(p, false, bytes, cfg, now)]
      ensures p in procs ==> procs[p].invalidated && procs == old(procs)[p := procs[p]]
    {
      procs := procs[p := procs[p].(invalidated := true)];
      assert Value().secs == old(Value()).secs;
      Record(DisconnectEv(p), old(Value()));
      if !hasPid { RemoveProc(p, false, bytes, cfg, now); }
    }

    lemma KnownInstance(p: nat)
      requires Valid() && p in procs && procs[p].active
      ensures procs[p].instance < |secs|
    {
      assert ProcOk(Value().procs[p], |Value().secs|, Value().used);
    }

    /** remove_proc, on the objects. */
    method DetachProc(p: nat, quit: bool, bytes: Stats, cfg: Config, now: int)
      requires Valid() && p in procs
      modifies this`procs, secs
      ensures procs == old(procs) - {p} && Enabled(old(Value()), RemoveProcEv(p, quit, bytes, cfg, now))
      ensures Value() == Step(old(Value()), RemoveProcEv(p, quit, bytes, cfg, now))
    {
      hide SessionClose, Inv, Start, Feasible, Run, Covered, CloseMeans, InstanceOf, Holders;
      var proc := procs[p];
      if proc.active { KnownInstance(p); }
      if proc.active && !quit {
        secs[proc.instance].HandleSessionClose(proc.sid, bytes, proc.invalidated, cfg, now);
        assert Value().secs == old(Value()).secs[proc.instance := secs[proc.instance].Value()];
      }
      procs := procs - {p};
    }

    /** remove_proc: the worker goes, and an entry goes with it only if it was the last to
        hold it. */
    method RemoveProc(p: nat, quit: bool, bytes: Stats, cfg: Config, now: int)
      requires Valid() && p in procs
      modifies this, secs
      ensures Valid() && history == old(history) + [RemoveProcEv(p, quit, bytes, cfg, now)]
      ensures procs == old(procs) - {p}
      ensures forall i, sid :: 0 <= i < |secs| && sid in old(secs[i].db) && sid !in secs[i].db ==> Holders(procs, sid) == {}
    {
      hide Step, Enabled, Inv, Start, Feasible, Run, Covered, InstanceOf, Holders;
      ghost var before, ev := Value(), RemoveProcEv(p, quit, bytes, cfg, now);
      DetachProc(p, quit, bytes, cfg, now);
      Record(ev, before);
      forall i, sid | 0 <= i < |secs| && sid in old(secs[i].db) && sid !in secs[i].db
        ensures Holders(procs, sid) == {}
      {
        assert before.secs[i] == old(secs[i].Value()) && Value().secs[i] == secs[i].Value();
        AttachedSurvive(before, ev, i, sid);
      }
    }

    // ---- Requests that reach sec-mod without main ----

    lemma KnownSec(i: nat)
      requires Valid() && i < |secs|
      ensures Value().secs[i] == secs[i].Value() && secs[i].index == i
      ensures forall sid :: sid in secs[i].db ==> sid in used
    {
      assert SecOk(Value().secs[i], i, used, hooked);
    }

    /** A request other than an init changes one instance and issues nothing. */
    lemma SecStepIs(sys: Sys, ev: Event)
      requires Enabled(sys, ev) && OnSec(ev) && !ev.AuthInitEv?
      ensures Step(sys, ev) == sys.(secs := sys.secs[ev.i := SecStep(sys.secs[ev.i], sys.used, ev)])
    {
      hide SecStep;
      assert sys.used + {} == sys.used;
    }

    /** SEC_AUTH_INIT: issues a SID that was never issued, or nothing; an entry goes for
        it only if nobody is attached to it. */
    method SecAuthInit(i: nat, r: InitRequest, cfg: Config, now: int, f: Finish) returns (found: Option<Sid>)
      requires Valid() && i < |secs|
      requires r.raw.Some? ==> |r.raw.value| == SID_SIZE && Stamp(r.raw.value, i) !in used
      modifies this, secs[i]
      ensures Valid() && history == old(history) + [AuthInitEv(i, r.(found := found), cfg, now, f)]
      ensures procs == old(procs) && old(used) <= used
      ensures forall sid :: sid in secs[i].db && sid !in old(secs[i].db) ==> sid in used && sid !in old(used)
      ensures forall sid :: sid in old(secs[i].db) && sid !in secs[i].db ==> Holders(procs, sid) == {}
    {
      hide Inv, Start, Feasible, Run, Covered, InstanceOf, Holders, AuthInit, Stamp, FoundByPid;
      ghost var before := Value();
      KnownSec(i);
      found := secs[i].HandleAuthInit(r, cfg, now, f);
      ghost var ev := AuthInitEv(i, r.(found := found), cfg, now, f);
      used := used + Issued(before, ev);
      hooked := if r.hooks == Hooks(true, true) then hooked + Issued(before, ev) else hooked;
      assert Value().secs == before.secs[i := secs[i].Value()];
      Record(ev, before);
      KnownSec(i);
      forall sid | sid in secs[i].db && sid !in old(secs[i].db)
        ensures sid !in old(used)
      {
        StepCreates(before, ev, i, sid);
      }
      forall sid | sid in old(secs[i].db) && sid !in secs[i].db
        ensures Holders(procs, sid) == {}
      {
        AttachedSurvive(before, ev, i, sid);
      }
    }

    /** SEC_AUTH_CONT */
    method SecAuthCont(i: nat, sid: Sid, password: bool, result: AuthResult, cfg: Config, f: Finish)
      requires Valid() && i < |secs|
      modifies this, secs[i]
      ensures Valid() && history == old(history) + [AuthContEv(i, sid, password, result, cfg, f)]
      ensures procs == old(procs) && ContMeans(old(secs[i].Value()), secs[i].Value(), AuthContEv(i, sid, password, result, cfg, f))
    {
      hide Inv, Start, Feasible, Run, Covered, InstanceOf, Holders, AuthCont, ContMeans;
      ghost var before, ev := Value(), AuthContEv(i, sid, password, result, cfg, f);
      KnownSec(i);
      secs[i].HandleAuthCont(sid, password, result, cfg, f);
      assert Value().secs == before.secs[i := secs[i].Value()];
      SecStepIs(before, ev);
      Record(ev, before);
    }

    /** The reply to a ban request. */
    method SecBanIpReply(i: nat, sid: Sid, ok: bool)
      requires Valid() && i < |secs|
      modifies this, secs[i]
      ensures Valid() && history == old(history) + [BanReplyEv(i, sid, ok)]
      ensures procs == old(procs) && BanMeans(old(secs[i].Value()), secs[i].Value(), sid, ok)
    {
      hide Inv, Start, Feasible, Run, Covered, InstanceOf, Holders, BanReply, BanMeans;
      ghost var before, ev := Value(), BanReplyEv(i, sid, ok);
      KnownSec(i);
      secs[i].HandleBanIpReply(sid, ok);
      assert Value().secs == before.secs[i := secs[i].Value()];
      SecStepIs(before, ev);
      Record(ev, before);
    }

    /** The counters that a worker reports. */
    method SecStats(i: nat, sid: Sid, bytes: Stats, reason: Reason, pid: nat)
      requires Valid() && i < |secs|
      modifies this, secs[i]
      ensures Valid() && history == old(history) + [StatsEv(i, sid, bytes, reason, pid)]
      ensures procs == old(procs) && StatsMean(old(secs[i].Value()), secs[i].Value(), sid, bytes, reason, pid)
    {
      hide Inv, Start, Feasible, Run, Covered, InstanceOf, Holders, UpdateStats, StatsMean;
      ghost var before, ev := Value(), StatsEv(i, sid, bytes, reason, pid);
      KnownSec(i);
      secs[i].HandleStats(sid, bytes, reason, pid);
      assert Value().secs == before.secs[i := secs[i].Value()];
      SecStepIs(before, ev);
      Record(ev, before);
    }

    /** The maintenance of an instance: exactly the expired entries go, and nobody is
        attached to any of them. */
    method SecMaintain(i: nat, now: int)
      requires Valid() && i < |secs|
      modifies this, secs[i]
      ensures Valid() && history == old(history) + [CleanupEv(i, now)] && procs == old(procs)
      ensures forall sid :: sid in old(secs[i].db) ==> (sid in secs[i].db <==> !Expired(old(secs[i].db)[sid], now))
      ensures forall sid :: sid in old(secs[i].db) && sid !in secs[i].db ==> Holders(procs, sid) == {}
    {
      hide Inv, Start, Feasible, Run, Covered, InstanceOf, Holders;
      ghost var before, ev := Value(), CleanupEv(i, now);
      KnownSec(i);
      secs[i].CleanupClientEntries(now);
      assert Value().secs == before.secs[i := secs[i].Value()];
      SecStepIs(before, ev);
      Record(ev, before);
      forall sid | sid in old(secs[i].db) && sid !in secs[i].db
        ensures Holders(procs, sid) == {}
      {
        AttachedSurvive(before, ev, i, sid);
      }
    }

    /** The commands that end sessions whoever is attached. */
    method SecTerminateUser(i: nat, username: string)
      requires Valid() && i < |secs|
      modifies this, secs[i]
      ensures Valid() && history == old(history) + [TerminateUserEv(i, username)] && procs == old(procs)
      ensures username != "" ==>
                forall sid :: sid in old(secs[i].db) ==> (sid in secs[i].db <==> old(secs[i].db)[sid].who.username != username)
      ensures secs[i].db.Keys <= old(secs[i].db).Keys && forall sid :: sid in secs[i].db ==> secs[i].db[sid] == old(secs[i].db)[sid]
    {
      hide Inv, Start, Feasible, Run, Covered, InstanceOf, Holders;
      ghost var before, ev := Value(), TerminateUserEv(i, username);
      KnownSec(i);
      var _ := secs[i].TerminateUserSessions(username);
      assert Value().secs == before.secs[i := secs[i].Value()];
      SecStepIs(before, ev);
      Record(ev, before);
    }

    method SecTerminateSession(i: nat, safeId: Sid -> string, id: string) returns (found: Option<Sid>)
      requires Valid() && i < |secs|
      modifies this, secs[i]
      ensures Valid() && history == old(history) + [TerminateSidEv(i, found)] && procs == old(procs)
      ensures found.Some? ==> found.value in old(secs[i].db) && safeId(found.value) == id
      ensures secs[i].db == if found.Some? then old(secs[i].db) - {found.value} else old(secs[i].db)
    {
      hide Inv, Start, Feasible, Run, Covered, InstanceOf, Holders;
      ghost var before := Value();
      KnownSec(i);
      found := secs[i].TerminateSession(safeId, id);
      ghost var ev := TerminateSidEv(i, found);
      assert Value().secs == before.secs[i := secs[i].Value()];
      SecStepIs(before, ev);
      Record(ev, before);
    }

    method SecShutdown(i: nat)
      requires Valid() && i < |secs|
      modifies this, secs[i]
      ensures Valid() && history == old(history) + [ShutdownEv(i)] && procs == old(procs) && secs[i].db == map[]
    {
      hide Inv, Start, Feasible, Run, Covered, InstanceOf, Holders;
      ghost var before, ev := Value(), ShutdownEv(i);
      KnownSec(i);
      secs[i].Deinit();
      assert Value().secs == before.secs[i := secs[i].Value()];
      SecStepIs(before, ev);
      Record(ev, before);
      secs[i].ShutdownIs(before.secs[i]);
    }

    // ---- What holds of the objects, whatever has happened ----

    /** A worker that main has completed came with a SID that was authenticated before,
        on its own instance, and has the user name found then. */
    lemma CompletedWorker(p: nat) returns (j: nat, k: nat, w: Identity)
      requires Valid() && p in procs && procs[p].status == Completed
      ensures j < k && AdmittedAt(start, history, k, p) && w.username == procs[p].username
      ensures |procs[p].sid| == SID_SIZE && AuthenticatedAt(start, history, j, InstanceOf(procs[p].sid), procs[p].sid, w)
    {
      hide Inv, Start, Feasible, Run, Covered, InstanceOf, AuthenticatedAt, AdmittedAt;
      j, k, w := CompletedProcWasAuthenticated(start, history, p);
    }

    /** A completed entry was authenticated on this instance under this SID, as the one it
        now names. */
    lemma CompletedEntry(i: nat, sid: Sid) returns (k: nat)
      requires Valid() && i < |secs| && sid in secs[i].db && secs[i].db[sid].status == Completed
      ensures AuthenticatedAt(start, history, k, i, sid, secs[i].db[sid].who)
    {
      hide Inv, Start, Feasible, Run, Covered, InstanceOf, AuthenticatedAt;
      KnownSec(i);
      k := CompletedWasAuthenticated(start, history, i, sid);
    }

    /** An entry that had failed after k steps is failed or gone now. */
    lemma FailedEntry(k: nat, i: nat, sid: Sid)
      requires Valid() && k <= |history| && Feasible(start, history[..k]) && FailedOrGone(Run(start, history[..k]), i, sid)
      ensures i < |secs| && (sid in secs[i].db ==> secs[i].db[sid].status == Failed)
    {
      hide Inv, Start, Feasible, Run, Covered, InstanceOf;
      FailedForever(start, history, k, i, sid);
    }

    /** Accounting: opened at most once, and closed once if and only if it was opened and
        the entry is gone. */
    lemma PairedAccounting(i: nat, sid: Sid)
      requires Valid() && i < |secs| && sid in hooked && |sid| == SID_SIZE && InstanceOf(sid) == i
      ensures secs[i].opens[sid] <= 1
      ensures secs[i].closes[sid] == if sid in secs[i].db then 0 else secs[i].opens[sid]
    {
      hide Inv, Start, Feasible, Run, Covered, InstanceOf;
      KnownSec(i);
      AccountingPairs(start, history, i, sid);
    }
  }
}
