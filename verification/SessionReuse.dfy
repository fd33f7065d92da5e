/**
 Coming back with a SID: when a cookie attaches a worker, what a disconnect by the
 administrator prevents, and what becomes of entries that are held by more opens than
 workers.
 */
module SessionReuse {
  import opened Wrappers
  import opened SecMod
  import opened Sessions
  import opened SessionInvariant
  import opened SessionSafety

  // ---- When a cookie attaches a worker ----

  predicate Waits(sys: Sys, p: nat, cookie: Sid) {
    && p in sys.procs && sys.procs[p].status == Inactive && !sys.procs[p].active
    && |cookie| == SID_SIZE && InstanceOf(cookie) < |sys.secs|
  }

  /** With the answers of c, the cookie attaches p. */
  predicate Attaches(sys: Sys, p: nat, cookie: Sid, c: Cookie) {
    && Enabled(sys, CookieEv(p, cookie, c))
    && p in Step(sys, CookieEv(p, cookie, c)).procs && Step(sys, CookieEv(p, cookie, c)).procs[p].active
  }

  /** The search finds nobody under the SID, or can find a worker of that name that has
      not been disconnected. */
  predicate Usable(procs: map<nat, Proc>, sid: Sid, username: string) {
    || (forall q :: q in procs ==> !Files(procs[q], sid))
    || (exists q :: q in procs && Files(procs[q], sid) && !procs[q].invalidated && procs[q].username == username)
  }

  /** Every answer as the worker would wish it. */
  function Wished(prior: Option<nat>, cfg: Config, now: int): (c: Cookie) {
    Cookie(true, prior, cfg, now, true, Sent, true, true, Accepted, true)
  }

  /** The exact condition: at a given time the cookie can attach a worker, for some
      outcome of the search and of everything that is asked, if and only if its session
      may be opened then and is usable. */
  lemma ReuseCondition(sys: Sys, p: nat, cookie: Sid, cfg: Config, now: int)
    requires Waits(sys, p, cookie)
    ensures var s := sys.secs[InstanceOf(cookie)];
            (exists c: Cookie :: c.now == now && Attaches(sys, p, cookie, c)) <==>
            MayOpen(s, cookie, now) && Usable(sys.procs, cookie, s.db[cookie].who.username)
  {
    var s := sys.secs[InstanceOf(cookie)];
    hide InstanceOf;
    if MayOpen(s, cookie, now) && Usable(sys.procs, cookie, s.db[cookie].who.username) {
      var prior := None;
      var name := s.db[cookie].who.username;
      if q :| q in sys.procs && Files(sys.procs[q], cookie) && !sys.procs[q].invalidated && sys.procs[q].username == name {
        prior := Some(q);
      }
      WishedAttaches(sys, p, cookie, prior, cfg, now);
      assert Wished(prior, cfg, now).now == now && Attaches(sys, p, cookie, Wished(prior, cfg, now));
    }
    forall c: Cookie | c.now == now && Attaches(sys, p, cookie, c)
      ensures MayOpen(s, cookie, now) && Usable(sys.procs, cookie, s.db[cookie].who.username)
    {
      AttachedWasUsable(sys, p, cookie, c);
    }
  }

  lemma AttachedWasUsable(sys: Sys, p: nat, cookie: Sid, c: Cookie)
    requires Waits(sys, p, cookie) && Attaches(sys, p, cookie, c)
    ensures var s := sys.secs[InstanceOf(cookie)]; MayOpen(s, cookie, c.now) && Usable(sys.procs, cookie, s.db[cookie].who.username)
  {
    hide InstanceOf;
  }

  /** What the worker is then, and that the session may be opened once more. */
  lemma WishedAttaches(sys: Sys, p: nat, cookie: Sid, prior: Option<nat>, cfg: Config, now: int)
    requires Waits(sys, p, cookie) && FoundBySid(sys.procs, cookie, prior)
    requires var s := sys.secs[InstanceOf(cookie)];
             && MayOpen(s, cookie, now)
             && (prior.Some? ==> !sys.procs[prior.value].invalidated && sys.procs[prior.value].username == s.db[cookie].who.username)
    ensures var c, s := Wished(prior, cfg, now), sys.secs[InstanceOf(cookie)];
            && Attaches(sys, p, cookie, c)
            && var r := Step(sys, CookieEv(p, cookie, c));
            && r.procs == sys.procs[p := r.procs[p]] && Files(r.procs[p], cookie) && r.procs[p].status == Completed
            && r.procs[p].username == s.db[cookie].who.username && r.procs[p].invalidated == sys.procs[p].invalidated
            && |r.secs| == |sys.secs| && MayOpen(r.secs[InstanceOf(cookie)], cookie, now)
            && r.secs[InstanceOf(cookie)].db[cookie].who == s.db[cookie].who
  {
    hide InstanceOf;
  }

  // ---- Workers that the administrator disconnects ----

  /** If the search finds a disconnected worker, nobody is attached and sec-mod is not
      asked. */
  lemma FoundInvalidated(sys: Sys, p: nat, cookie: Sid, c: Cookie)
    requires Enabled(sys, CookieEv(p, cookie, c)) && c.prior.Some? && sys.procs[c.prior.value].invalidated
    ensures var r := Step(sys, CookieEv(p, cookie, c));
            && r.secs == sys.secs && p in r.procs && r.procs == sys.procs[p := r.procs[p]]
            && r.procs[p].active == sys.procs[p].active && r.procs[p].sid == sys.procs[p].sid
            && (sys.procs[p].status == Inactive && |cookie| == SID_SIZE ==> r.procs[p].status == Failed)
  {
    var r := Step(sys, CookieEv(p, cookie, c));
    assert sys.procs == sys.procs[p := sys.procs[p]];
  }

  /** If every worker filed under the SID has been disconnected, and there is one, then
      whichever of them the search finds, nobody is attached and sec-mod is not asked. */
  lemma InvalidatedIsNotReused(sys: Sys, p: nat, cookie: Sid, c: Cookie, o: nat)
    requires Enabled(sys, CookieEv(p, cookie, c))
    requires o in sys.procs && Files(sys.procs[o], cookie)
    requires forall q :: q in sys.procs && Files(sys.procs[q], cookie) ==> sys.procs[q].invalidated
    ensures var r := Step(sys, CookieEv(p, cookie, c));
            && r.secs == sys.secs && p in r.procs && r.procs == sys.procs[p := r.procs[p]]
            && r.procs[p].active == sys.procs[p].active && r.procs[p].sid == sys.procs[p].sid
            && (sys.procs[p].status == Inactive && |cookie| == SID_SIZE ==> r.procs[p].status == Failed)
  {
    hide Step;
    FoundInvalidated(sys, p, cookie, c);
  }

  /** A worker once disconnected stays so. */
  lemma InvalidatedStays(sys: Sys, ev: Event, p: nat)
    requires Enabled(sys, ev) && p in sys.procs && sys.procs[p].invalidated && p in Step(sys, ev).procs
    ensures Step(sys, ev).procs[p].invalidated
  {
    hide SecStep, SessionClose, SessionOpen, InstanceOf;
  }

  /** When it goes as the last worker attached to a completed session, the session goes
      with it exactly if cookies are not persistent and no open was abandoned. */
  lemma InvalidatedEndsSession(sys: Sys, p: nat, bytes: Stats, cfg: Config, now: int)
    requires Inv(sys) && p in sys.procs && sys.procs[p].active && sys.procs[p].invalidated
    requires var sid := sys.procs[p].sid;
             && sys.procs[p].instance < |sys.secs| && IsCompleted(sys.secs[sys.procs[p].instance], sid)
             && Holders(sys.procs, sid) == {p}
    ensures var i, sid, ev := sys.procs[p].instance, sys.procs[p].sid, RemoveProcEv(p, false, bytes, cfg, now);
            && Enabled(sys, ev) && |Step(sys, ev).secs| == |sys.secs|
            && (sid !in Step(sys, ev).secs[i].db <==>
                  !cfg.persistentCookies && sys.secs[i].db[sid].inUse == |Holders(sys.procs, sid)|)
  {
    hide AddStats, MaxStats;
    var i, sid := sys.procs[p].instance, sys.procs[p].sid;
    assert SecOk(sys.secs[i], i, sys.used, sys.hooked) && Counts(sys.secs[i], sys.procs);
    assert |Holders(sys.procs, sid)| == 1;
  }

  // ---- A session with two workers, one of them disconnected ----

  ghost predicate Leads(sys: Sys, evs: seq<Event>, t: Sys) {
    Start(sys) && Feasible(sys, evs) && Run(sys, evs) == t
  }

  lemma LeadsOn(sys: Sys, evs: seq<Event>, t: Sys, ev: Event)
    requires Leads(sys, evs, t) && Enabled(t, ev)
    ensures Leads(sys, evs + [ev], Step(t, ev))
  {
    hide Enabled, Step;
    RunOneMore(sys, evs, ev);
  }

  const PLAIN: Config := Config(300, false, false, false)
  const LOGIN: InitRequest :=
    InitRequest(true, 9, None, Some(seq(32, _ => 0)), Hooks(false, false), true, false, NOBODY.(username := "user"), Success)
  const YES: Finish := Finish(true, NoGroupHook, None, true)

  /** One instance, and a client that has just logged in. */
  lemma LoggedIn() returns (sys: Sys, evs: seq<Event>, t: Sys, sid: Sid)
    ensures Leads(sys, evs, t) && t.procs == map[] && |t.secs| == 1
    ensures |sid| == SID_SIZE && InstanceOf(sid) == 0 && MayOpen(t.secs[0], sid, 0) && t.secs[0].db[sid].who.username == "user"
  {
    sys := Sys([State(0, map[], multiset{}, multiset{})], map[], {}, {});
    var ev := AuthInitEv(0, LOGIN, PLAIN, 0, YES);
    sid := Stamp(LOGIN.raw.value, 0);
    assert Leads(sys, [], sys);
    assert Enabled(sys, ev);
    LeadsOn(sys, [], sys, ev);
    evs, t := [] + [ev], Step(sys, ev);
    assert t.secs[0].db[sid] == FirstEntry(LOGIN, PLAIN, 0, YES);
  }

  /** One more worker on the session, found through prior. */
  lemma OneMoreWorker(sys: Sys, evs: seq<Event>, t: Sys, sid: Sid, p: nat, prior: Option<nat>) returns (evs': seq<Event>, t': Sys)
    requires Leads(sys, evs, t) && |t.secs| == 1 && p !in t.procs && FoundBySid(t.procs, sid, prior)
    requires |sid| == SID_SIZE && InstanceOf(sid) == 0 && MayOpen(t.secs[0], sid, 0)
    requires prior.Some? ==> !t.procs[prior.value].invalidated && t.procs[prior.value].username == t.secs[0].db[sid].who.username
    ensures Leads(sys, evs', t') && |t'.secs| == 1 && MayOpen(t'.secs[0], sid, 0) && t'.secs[0].db[sid].who == t.secs[0].db[sid].who
    ensures p in t'.procs && t'.procs == t.procs[p := t'.procs[p]] && Files(t'.procs[p], sid) && t'.procs[p].status == Completed
    ensures t'.procs[p].username == t.secs[0].db[sid].who.username && !t'.procs[p].invalidated && t'.procs[p].active
    ensures evs' == evs + [NewProcEv(p)] + [CookieEv(p, sid, Wished(prior, PLAIN, 0))]
  {
    hide InstanceOf, MayOpen, SessionOpen;
    LeadsOn(sys, evs, t, NewProcEv(p));
    var m, c := Step(t, NewProcEv(p)), Wished(prior, PLAIN, 0);
    assert m == SetProc(t, p, NEW_PROC);
    assert FoundBySid(m.procs, sid, prior);
    WishedAttaches(m, p, sid, prior, PLAIN, 0);
    LeadsOn(sys, evs + [NewProcEv(p)], m, CookieEv(p, sid, c));
    evs', t' := evs + [NewProcEv(p)] + [CookieEv(p, sid, c)], Step(m, CookieEv(p, sid, c));
  }

  /** Why every worker has to be disconnected, and not one: a run in which 1 and 2 share a
      session, 1 is disconnected and still there, and 3 is attached because the search
      finds 2. */
  lemma OtherHolderLetsIn() returns (sys: Sys, evs: seq<Event>, t: Sys, sid: Sid)
    ensures Leads(sys, evs, t) && 1 in t.procs && Files(t.procs[1], sid) && t.procs[1].invalidated
    ensures 3 in t.procs && t.procs[3].active && t.procs[3].sid == sid && t.procs[3].status == Completed
    ensures |evs| > 3 && evs[|evs| - 3] == DisconnectEv(1) && evs[|evs| - 2] == NewProcEv(3)
    ensures evs[|evs| - 1] == CookieEv(3, sid, Wished(Some(2), PLAIN, 0))
  {
    hide InstanceOf, MayOpen, Leads;
    sys, evs, t, sid := LoggedIn();
    evs, t := OneMoreWorker(sys, evs, t, sid, 1, None);
    evs, t := OneMoreWorker(sys, evs, t, sid, 2, Some(1));
    LeadsOn(sys, evs, t, DisconnectEv(1));
    evs, t := evs + [DisconnectEv(1)], Step(t, DisconnectEv(1));
    evs, t := OneMoreWorker(sys, evs, t, sid, 3, Some(2));
  }

  // ---- Holds that nobody has ----

  /** More opens are counted on the entry than there are workers attached to it. */
  ghost predicate Overheld(sys: Sys, i: nat, sid: Sid) {
    i < |sys.secs| && sid in sys.secs[i].db && sys.secs[i].db[sid].inUse > |Holders(sys.procs, sid)|
  }

  lemma CookieProc(sys: Sys, ev: Event)
    requires ev.CookieEv? && Enabled(sys, ev)
    ensures var t, a := Step(sys, ev), sys.procs[ev.p];
            && ev.p in t.procs && t.procs == sys.procs[ev.p := t.procs[ev.p]]
            && (if !a.active && t.procs[ev.p].active then
                  && t.procs[ev.p].sid == ev.cookie && |ev.cookie| == SID_SIZE && InstanceOf(ev.cookie) < |sys.secs| == |t.secs|
                  && var r := SessionOpen(sys.secs[InstanceOf(ev.cookie)], ev.cookie, ev.c.cfg, ev.c.now, ev.c.hookOk, ev.c.end);
                     r.1.Granted? && t.secs[InstanceOf(ev.cookie)] == r.0
                else a.status != Inactive || a.active || (t.procs[ev.p].active == a.active && t.procs[ev.p].sid == a.sid))
            && (a.status != Inactive ==> t == sys)
  {
    hide SessionOpen, InstanceOf;
    assert sys.procs == sys.procs[ev.p := sys.procs[ev.p]];
  }

  /** A cookie takes a hold for every worker that it attaches. */
  lemma CookieHolds(sys: Sys, ev: Event, i: nat, sid: Sid)
    requires Inv(sys) && ev.CookieEv? && Enabled(sys, ev) && i < |sys.secs| && sid in sys.secs[i].db
    ensures var t := Step(sys, ev);
            && |t.secs| == |sys.secs| && sid in t.secs[i].db
            && t.secs[i].db[sid].inUse >= sys.secs[i].db[sid].inUse
            && (Holders(t.procs, sid) != Holders(sys.procs, sid) ==>
                  && Holders(t.procs, sid) == Holders(sys.procs, sid) + {ev.p}
                  && t.secs[i].db[sid].inUse == sys.secs[i].db[sid].inUse + 1)
  {
    hide SessionOpen, InstanceOf, Holders, Step, FoundBySid;
    var t, proc := Step(sys, ev), sys.procs[ev.p];
    assert InstanceOf(sid) == i && |sid| == SID_SIZE by { assert SecOk(sys.secs[i], i, sys.used, sys.hooked); }
    assert ProcOk(proc, |sys.secs|, sys.used);
    SessionOpenHolds(sys.secs[i], ev.cookie, ev.c.cfg, ev.c.now, ev.c.hookOk, ev.c.end);
    StepMoves(sys, ev, i);
    CookieProc(sys, ev);
    if t.procs[ev.p].active && !proc.active {
      HoldersAttach(sys.procs, ev.p, t.procs[ev.p], sid);
    } else {
      HoldersSame(sys.procs, ev.p, t.procs[ev.p], sid);
    }
  }

  /** Such an entry, completed or failed, stays such under every step but a forced one:
      no close and no maintenance gets rid of it. */
  lemma OverheldStep(sys: Sys, ev: Event, i: nat, sid: Sid)
    requires Inv(sys) && Enabled(sys, ev) && !Forced(ev) && Overheld(sys, i, sid)
    ensures Overheld(Step(sys, ev), i, sid)
  {
    hide SessionOpen, SessionClose, SecStep, InstanceOf, Holders, Step;
    var s := sys.secs[i];
    assert SecOk(s, i, sys.used, sys.hooked);
    StepMoves(sys, ev, i);
    ProcsMove(sys, ev);
    if OnSec(ev) {
      SecStepKeepsHold(sys, ev, i, sid);
    } else if ev.CookieEv? {
      CookieHolds(sys, ev, i, sid);
      MoreByOne(Holders(sys.procs, sid), ev.p);
    } else if ev.RemoveProcEv? {
      var proc := sys.procs[ev.p];
      SessionCloseHolds(s, proc.sid, ev.bytes, proc.invalidated, ev.cfg, ev.now);
      HoldersDetach(sys.procs, ev.p, sid);
      LessByOne(Holders(sys.procs, sid), ev.p);
    } else {
      HoldersKept(sys, ev, sid);
    }
  }

  lemma MoreByOne(h: set<nat>, p: nat)
    ensures |h + {p}| <= |h| + 1
  {
    if p in h { assert h + {p} == h; }
  }

  lemma LessByOne(h: set<nat>, p: nat)
    ensures |h - {p}| == |h| - (if p in h then 1 else 0)
  {
    if p !in h { assert h - {p} == h; }
  }

  lemma SecStepKeepsHold(sys: Sys, ev: Event, i: nat, sid: Sid)
    requires Enabled(sys, ev) && OnSec(ev) && !Forced(ev) && i < |sys.secs| && sid in sys.used
    requires sid in sys.secs[i].db && sys.secs[i].db[sid].inUse > 0
    ensures |Step(sys, ev).secs| == |sys.secs| && sid in Step(sys, ev).secs[i].db
    ensures Step(sys, ev).secs[i].db[sid].inUse == sys.secs[i].db[sid].inUse
  {
    hide SecStep;
    if ev.i == i {
      SecStepRemovesUnheld(sys.secs[i], sys.used, ev, sid);
      SecStepHolds(sys.secs[i], sys.used, ev, sid);
    }
  }

  lemma HoldersKept(sys: Sys, ev: Event, sid: Sid)
    requires Enabled(sys, ev) && (ev.NewProcEv? || ev.ScriptExitEv? || ev.DisconnectEv?)
    ensures Step(sys, ev).secs == sys.secs && Holders(Step(sys, ev).procs, sid) == Holders(sys.procs, sid)
  {
    hide Holders;
    HoldersSame(sys.procs, ev.p, Step(sys, ev).procs[ev.p], sid);
  }

  /** Over every run: once an open has been abandoned, the entry is there, held by more
      than its workers, until it is removed by force. */
  lemma {:induction false} OverheldForever(sys: Sys, evs: seq<Event>, k: nat, i: nat, sid: Sid)
    requires Start(sys) && Feasible(sys, evs) && k <= |evs| && Feasible(sys, evs[..k]) && Overheld(Run(sys, evs[..k]), i, sid)
    requires forall j :: k <= j < |evs| ==> !Forced(evs[j])
    ensures Overheld(Run(sys, evs), i, sid)
    decreases |evs|
  {
    hide Step, Enabled, Inv, Start, Overheld, Forced;
    if k == |evs| {
      assert evs[..k] == evs;
    } else {
      var n := |evs| - 1;
      assert evs[..n][..k] == evs[..k];
      OverheldForever(sys, evs[..n], k, i, sid);
      RunKeepsInv(sys, evs[..n]);
      OverheldStep(Run(sys, evs[..n]), evs[n], i, sid);
    }
  }

  /** An open that is granted and that main then drops makes an entry such. */
  lemma AbandonedIsOverheld(sys: Sys, p: nat, cookie: Sid, c: Cookie)
    requires Inv(sys) && Enabled(sys, CookieEv(p, cookie, c)) && Waits(sys, p, cookie)
    requires c.rngOk && !c.mainOk && (c.prior.Some? ==> !sys.procs[c.prior.value].invalidated)
    requires SessionOpen(sys.secs[InstanceOf(cookie)], cookie, c.cfg, c.now, c.hookOk, c.end).1.Granted?
    ensures Overheld(Step(sys, CookieEv(p, cookie, c)), InstanceOf(cookie), cookie)
  {
    hide SessionOpen, InstanceOf, Holders;
    var i := InstanceOf(cookie);
    SessionOpenHolds(sys.secs[i], cookie, c.cfg, c.now, c.hookOk, c.end);
    assert Counts(sys.secs[i], sys.procs);
    HoldersSame(sys.procs, p, Step(sys, CookieEv(p, cookie, c)).procs[p], cookie);
  }
}
