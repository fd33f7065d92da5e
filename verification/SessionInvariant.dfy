/**
 The invariant of the session protocol: every step keeps it.
 */
module SessionInvariant {
  import opened Wrappers
  import opened SecMod
  import opened Sessions

  // ---- One sec-mod process ----

  /** What requests other than opening and closing leave alone in an entry. */
  predicate SameHold(e: Entry, e': Entry) {
    e'.inUse == e.inUse && e'.hooks == e.hooks && e'.sessionIsOpen == e.sessionIsOpen
  }

  lemma AuthResSameHold(e: Entry, result: AuthResult, cfg: Config, f: Finish)
    ensures SameHold(e, AuthRes(e, result, cfg, f))
  {
    hide CheckGroup;
  }

  lemma SetSameHold(s: State, i: nat, used: set<Sid>, hooked: set<Sid>, procs: map<nat, Proc>, sid: Sid, e: Entry)
    requires SecOk(s, i, used, hooked) && Counts(s, procs) && sid in s.db && SameHold(s.db[sid], e)
    ensures SecOk(SetEntry(s, sid, e), i, used, hooked) && Counts(SetEntry(s, sid, e), procs)
  {
    hide InstanceOf, Holders;
  }

  lemma RemoveOk(s: State, i: nat, used: set<Sid>, hooked: set<Sid>, procs: map<nat, Proc>, sids: set<Sid>)
    requires SecOk(s, i, used, hooked) && Counts(s, procs)
    ensures SecOk(Remove(s, sids), i, used, hooked) && Counts(Remove(s, sids), procs)
  {
    hide InstanceOf, Holders;
    var t := Remove(s, sids);
    assert forall sid :: t.closes[sid] == s.closes[sid] + (if sid in Closing(s, sids) then 1 else 0);
  }

  /** A fresh SID is in use nowhere. */
  lemma AddFreshOk(s: State, i: nat, used: set<Sid>, hooked: set<Sid>, procs: map<nat, Proc>, n: nat, sid: Sid, e: Entry)
    requires SecOk(s, i, used, hooked) && Counts(s, procs) && hooked <= used
    requires forall p :: p in procs ==> ProcOk(procs[p], n, used)
    requires |sid| == SID_SIZE && InstanceOf(sid) == i && sid !in used && e.inUse == 0 && !e.sessionIsOpen
    ensures var t := SetEntry(s, sid, e);
            Counts(t, procs) && SecOk(t, i, used + {sid}, if e.hooks == Hooks(true, true) then hooked + {sid} else hooked)
  {
    hide InstanceOf;
    assert Holders(procs, sid) == {};
  }

  lemma FirstEntryIsFresh(r: InitRequest, cfg: Config, now: int, f: Finish)
    ensures var e := FirstEntry(r, cfg, now, f); e.inUse == 0 && !e.sessionIsOpen && e.hooks == r.hooks
  {
    hide CheckGroup;
  }

  /** Growing the set of issued SIDs by one of another instance changes nothing here. */
  lemma GrowOk(s: State, i: nat, used: set<Sid>, hooked: set<Sid>, used': set<Sid>, hooked': set<Sid>)
    requires SecOk(s, i, used, hooked) && used <= used'
    requires forall sid :: sid in hooked' && |sid| == SID_SIZE && InstanceOf(sid) == i ==> sid in hooked
    ensures SecOk(s, i, used', hooked')
  {
    hide InstanceOf, Accounted;
  }

  lemma SecStepOk(s: State, i: nat, sys: Sys, ev: Event)
    requires Inv(sys) && OnSec(ev) && i == ev.i < |sys.secs| && s == sys.secs[i] && SecEnabled(s, sys.used, ev)
    ensures var sys' := Step(sys, ev);
            SecOk(sys'.secs[i], i, sys'.used, sys'.hooked) && Counts(sys'.secs[i], sys.procs)
  {
    hide InstanceOf, Holders, CheckGroup, FirstEntry, AuthRes, Remove, SecOk, Counts, Stamp;
    assert SecOk(s, i, sys.used, sys.hooked) && Counts(s, sys.procs);
    assert sys.used + {} == sys.used;
    match ev
    case AuthInitEv(_, r, cfg, now, f) => AuthInitOk(s, i, sys, r, cfg, now, f);
    case AuthContEv(_, sid, password, result, cfg, f) => AuthContOk(s, i, sys, ev);
    case BanReplyEv(_, sid, ok) =>
      if sid in s.db { SetSameHold(s, i, sys.used, sys.hooked, sys.procs, sid, s.db[sid].(status := Failed)); }
    case StatsEv(_, sid, bytes, reason, pid) =>
      if sid in s.db { SetSameHold(s, i, sys.used, sys.hooked, sys.procs, sid, UpdateStats(s, sid, bytes, reason, pid).db[sid]); }
    case CleanupEv(_, now) =>
      RemoveOk(s, i, sys.used, sys.hooked, sys.procs, set sid | sid in s.db && Expired(s.db[sid], now));
    case TerminateUserEv(_, username) =>
      RemoveOk(s, i, sys.used, sys.hooked, sys.procs, set sid | sid in s.db && s.db[sid].who.username == username);
    case TerminateSidEv(_, found) =>
      if found.Some? { RemoveOk(s, i, sys.used, sys.hooked, sys.procs, {found.value}); }
    case ShutdownEv(_) => RemoveOk(s, i, sys.used, sys.hooked, sys.procs, s.db.Keys);
  }

  lemma AuthContOk(s: State, i: nat, sys: Sys, ev: Event)
    requires ev.AuthContEv? && SecOk(s, i, sys.used, sys.hooked) && Counts(s, sys.procs)
    ensures var t := AuthCont(s, ev.sid, ev.password, ev.result, ev.cfg, ev.f);
            SecOk(t, i, sys.used, sys.hooked) && Counts(t, sys.procs)
  {
    hide SecOk, Counts, AuthRes;
    if ev.sid in s.db {
      var e := s.db[ev.sid];
      AuthResSameHold(e, Denied, ev.cfg, ev.f);
      AuthResSameHold(e.(status := Cont), ev.result, ev.cfg, ev.f);
      SetSameHold(s, i, sys.used, sys.hooked, sys.procs, ev.sid, AuthRes(e, Denied, ev.cfg, ev.f));
      SetSameHold(s, i, sys.used, sys.hooked, sys.procs, ev.sid, AuthRes(e.(status := Cont), ev.result, ev.cfg, ev.f));
    }
  }

  lemma AuthInitOk(s: State, i: nat, sys: Sys, r: InitRequest, cfg: Config, now: int, f: Finish)
    requires Inv(sys) && i < |sys.secs| && s == sys.secs[i]
    requires SecEnabled(s, sys.used, AuthInitEv(i, r, cfg, now, f))
    ensures var sys' := Step(sys, AuthInitEv(i, r, cfg, now, f));
            SecOk(sys'.secs[i], i, sys'.used, sys'.hooked) && Counts(sys'.secs[i], sys.procs)
  {
    hide InstanceOf, Holders, FirstEntry, Remove, Accounted;
    assert sys.used + {} == sys.used && sys.hooked + {} == sys.hooked;
    var s' := if r.found.Some? then Remove(s, {r.found.value}) else s;
    if r.found.Some? { RemoveOk(s, i, sys.used, sys.hooked, sys.procs, {r.found.value}); }
    if Creates(s, r) {
      var sid := Stamp(r.raw.value, s.index);
      FirstEntryIsFresh(r, cfg, now, f);
      AddFreshOk(s', i, sys.used, sys.hooked, sys.procs, |sys.secs|, sid, FirstEntry(r, cfg, now, f));
    }
  }

  // ---- Opening and closing ----

  /** A session open takes a hold on its entry exactly when it is granted, and then
      the entry was completed, unexpired and of this instance. */
  lemma SessionOpenHolds(s: State, sid: Sid, cfg: Config, now: int, hookOk: bool, end: OpenEnd)
    ensures var (t, reply) := SessionOpen(s, sid, cfg, now, hookOk, end);
            && t.db.Keys == s.db.Keys
            && (reply.Granted? ==> MayOpen(s, sid, now) && t.db[sid].status == Completed && t.db[sid].inUse == s.db[sid].inUse + 1)
            && (forall x :: x in s.db && (x != sid || !reply.Granted?) ==> t.db[x].inUse == s.db[x].inUse)
  {
    hide InstanceOf;
  }

  lemma SessionOpenOk(s: State, i: nat, used: set<Sid>, hooked: set<Sid>, sid: Sid, cfg: Config, now: int, hookOk: bool, end: OpenEnd)
    requires SecOk(s, i, used, hooked)
    ensures SecOk(SessionOpen(s, sid, cfg, now, hookOk, end).0, i, used, hooked)
  {
    hide SessionOpen, Accounted, InstanceOf;
    var t := SessionOpen(s, sid, cfg, now, hookOk, end).0;
    SessionOpenHolds(s, sid, cfg, now, hookOk, end);
    forall x | x in hooked && |x| == SID_SIZE && InstanceOf(x) == i
      ensures Accounted(t, x)
    {
      SessionOpenAccounted(s, x, sid, cfg, now, hookOk, end);
    }
    SessionOpenHooks(s, sid, cfg, now, hookOk, end);
  }

  lemma SessionOpenAccounted(s: State, x: Sid, sid: Sid, cfg: Config, now: int, hookOk: bool, end: OpenEnd)
    requires Accounted(s, x)
    ensures Accounted(SessionOpen(s, sid, cfg, now, hookOk, end).0, x)
  {
    hide InstanceOf, Expired;
  }

  lemma SessionOpenHooks(s: State, sid: Sid, cfg: Config, now: int, hookOk: bool, end: OpenEnd)
    ensures var t := SessionOpen(s, sid, cfg, now, hookOk, end).0;
            && t.index == s.index && t.closes == s.closes
            && (forall x :: x in t.opens ==> x in s.opens || (x == sid && x in s.db))
  {
    hide InstanceOf, Expired;
  }

  /** A session close lets go of at most one hold, and drops the entry only when
      none is left. */
  lemma SessionCloseHolds(s: State, sid: Sid, bytes: Stats, inv: bool, cfg: Config, now: int)
    ensures var t := SessionClose(s, sid, bytes, inv, cfg, now);
            && (forall x :: x in t.db ==> x in s.db && t.db[x].inUse + (if x == sid then 1 else 0) >= s.db[x].inUse)
            && (forall x :: x in s.db && x !in t.db ==> x == sid && s.db[x].inUse <= 1)
  {
    hide InstanceOf, AddStats, MaxStats;
  }

  lemma SessionCloseOk(s: State, i: nat, used: set<Sid>, hooked: set<Sid>, sid: Sid, bytes: Stats, inv: bool, cfg: Config, now: int)
    requires SecOk(s, i, used, hooked)
    ensures SecOk(SessionClose(s, sid, bytes, inv, cfg, now), i, used, hooked)
  {
    hide AddStats, MaxStats;
    var t := SessionClose(s, sid, bytes, inv, cfg, now);
    forall x | x in hooked && |x| == SID_SIZE && InstanceOf(x) == i
      ensures Accounted(t, x)
    {
      assert Accounted(s, x);
    }
  }

  // ---- Main's steps ----

  lemma HoldersSame(procs: map<nat, Proc>, p: nat, proc: Proc, sid: Sid)
    requires if p in procs then procs[p].active == proc.active && procs[p].sid == proc.sid else !proc.active
    ensures Holders(procs[p := proc], sid) == Holders(procs, sid)
  {
  }

  lemma HoldersAttach(procs: map<nat, Proc>, p: nat, proc: Proc, sid: Sid)
    requires p in procs && !procs[p].active && proc.active
    ensures Holders(procs[p := proc], sid) == Holders(procs, sid) + (if sid == proc.sid then {p} else {})
    ensures p !in Holders(procs, sid)
  {
  }

  lemma HoldersDetach(procs: map<nat, Proc>, p: nat, sid: Sid)
    requires p in procs
    ensures Holders(procs - {p}, sid) == Holders(procs, sid) - {p}
    ensures p in Holders(procs, sid) <==> procs[p].active && procs[p].sid == sid
  {
  }

  lemma CountsSame(s: State, procs: map<nat, Proc>, p: nat, proc: Proc)
    requires Counts(s, procs)
    requires if p in procs then procs[p].active == proc.active && procs[p].sid == proc.sid else !proc.active
    ensures Counts(s, procs[p := proc])
  {
    hide Holders;
    forall sid | sid in s.db
      ensures s.db[sid].inUse >= |Holders(procs[p := proc], sid)|
    {
      HoldersSame(procs, p, proc, sid);
    }
  }

  /** After an open that was granted, the new holder is covered. */
  lemma CountsAttach(s: State, t: State, procs: map<nat, Proc>, p: nat, proc: Proc)
    requires Counts(s, procs) && p in procs && !procs[p].active && proc.active && t.db.Keys == s.db.Keys
    requires forall x :: x in s.db ==> t.db[x].inUse == s.db[x].inUse + (if x == proc.sid then 1 else 0)
    ensures Counts(t, procs[p := proc])
  {
    hide Holders;
    forall sid | sid in t.db
      ensures t.db[sid].inUse >= |Holders(procs[p := proc], sid)|
    {
      HoldersAttach(procs, p, proc, sid);
      assert s.db[sid].inUse >= |Holders(procs, sid)|;
    }
  }

  lemma CountsDetach(s: State, t: State, procs: map<nat, Proc>, p: nat)
    requires Counts(s, procs) && p in procs
    requires forall x :: x in t.db ==> x in s.db && t.db[x].inUse + (if procs[p].active && x == procs[p].sid then 1 else 0) >= s.db[x].inUse
    ensures Counts(t, procs - {p})
  {
    hide Holders;
    forall sid | sid in t.db
      ensures t.db[sid].inUse >= |Holders(procs - {p}, sid)|
    {
      HoldersDetach(procs, p, sid);
      assert s.db[sid].inUse >= |Holders(procs, sid)|;
    }
  }

  lemma SetProcKeepsInv(sys: Sys, p: nat, proc: Proc)
    requires Inv(sys) && ProcOk(proc, |sys.secs|, sys.used)
    requires if p in sys.procs then sys.procs[p].active == proc.active && sys.procs[p].sid == proc.sid else !proc.active
    ensures Inv(SetProc(sys, p, proc))
  {
    hide SecOk, Counts, ProcOk;
    forall i | 0 <= i < |sys.secs|
      ensures Counts(sys.secs[i], sys.procs[p := proc])
    {
      CountsSame(sys.secs[i], sys.procs, p, proc);
    }
  }

  lemma SecEventKeepsInv(sys: Sys, ev: Event)
    requires Inv(sys) && Enabled(sys, ev) && OnSec(ev)
    ensures Inv(Step(sys, ev))
  {
    hide SecStep, Holders, Counts, Accounted;
    var sys' := Step(sys, ev);
    SecStepOk(sys.secs[ev.i], ev.i, sys, ev);
    forall i | 0 <= i < |sys.secs| && i != ev.i
      ensures SecOk(sys'.secs[i], i, sys'.used, sys'.hooked) && Counts(sys'.secs[i], sys.procs)
    {
      GrowOk(sys.secs[i], i, sys.used, sys.hooked, sys'.used, sys'.hooked);
    }
  }

  /** A session open that main does not follow up leaves a hold that nobody has. */
  lemma AbandonedOpenKeepsInv(sys: Sys, i: nat, sid: Sid, c: Cookie)
    requires Inv(sys) && i < |sys.secs|
    ensures Inv(sys.(secs := sys.secs[i := SessionOpen(sys.secs[i], sid, c.cfg, c.now, c.hookOk, c.end).0]))
  {
    hide SecOk, SessionOpen, ProcOk, Holders;
    SessionOpenOk(sys.secs[i], i, sys.used, sys.hooked, sid, c.cfg, c.now, c.hookOk, c.end);
    SessionOpenHolds(sys.secs[i], sid, c.cfg, c.now, c.hookOk, c.end);
  }

  lemma AttachKeepsInv(sys: Sys, i: nat, p: nat, proc: Proc, sid: Sid, c: Cookie)
    requires Inv(sys) && i < |sys.secs| && p in sys.procs && !sys.procs[p].active
    requires proc.active && proc.sid == sid && proc.instance == i && proc.status != Inactive
    requires SessionOpen(sys.secs[i], sid, c.cfg, c.now, c.hookOk, c.end).1.Granted?
    ensures var sec := SessionOpen(sys.secs[i], sid, c.cfg, c.now, c.hookOk, c.end).0;
            Inv(SetProc(sys.(secs := sys.secs[i := sec]), p, proc))
  {
    hide SessionOpen, Holders, Accounted, Counts;
    var s := sys.secs[i];
    var t := SessionOpen(s, sid, c.cfg, c.now, c.hookOk, c.end).0;
    SessionOpenOk(s, i, sys.used, sys.hooked, sid, c.cfg, c.now, c.hookOk, c.end);
    SessionOpenHolds(s, sid, c.cfg, c.now, c.hookOk, c.end);
    CountsAttach(s, t, sys.procs, p, proc);
    forall j | 0 <= j < |sys.secs| && j != i
      ensures Counts(sys.secs[j], sys.procs[p := proc])
    {
      assert SecOk(sys.secs[j], j, sys.used, sys.hooked) && Counts(sys.secs[j], sys.procs);
      CountsElsewhere(sys.secs[j], sys.procs, p, proc);
    }
  }

  /** A new holder of a SID that is not in this database. */
  lemma CountsElsewhere(s: State, procs: map<nat, Proc>, p: nat, proc: Proc)
    requires Counts(s, procs) && p in procs && !procs[p].active && proc.active && proc.sid !in s.db
    ensures Counts(s, procs[p := proc])
  {
    CountsAttach(s, s, procs, p, proc);
  }

  lemma CookieKeepsInv(sys: Sys, p: nat, cookie: Sid, c: Cookie)
    requires Inv(sys) && Enabled(sys, CookieEv(p, cookie, c))
    ensures Inv(CookieReq(sys, p, cookie, c))
  {
    hide Inv, SessionOpen, InstanceOf;
    assert forall q :: q in sys.procs ==> ProcOk(sys.procs[q], |sys.secs|, sys.used) by { RevealInv(sys); }
    var proc := sys.procs[p];
    if proc.status == Inactive && |cookie| == SID_SIZE {
      var i := InstanceOf(cookie);
      if i >= |sys.secs| {
        SetProcKeepsInv(sys, p, proc.(status := Failed));
      } else {
        var failed := proc.(instance := i, status := Failed);
        SetProcKeepsInv(sys, p, failed);
        AbandonedOpenKeepsInv(sys, i, cookie, c);
        var (sec, reply) := SessionOpen(sys.secs[i], cookie, c.cfg, c.now, c.hookOk, c.end);
        var sys' := sys.(secs := sys.secs[i := sec]);
        SetProcKeepsInv(sys', p, failed);
        if reply.Granted? {
          SetProcKeepsInv(sys', p, failed.(username := reply.username));
          var attached := failed.(username := reply.username, sid := cookie, active := true, filed := c.tableOk);
          AttachKeepsInv(sys, i, p, attached, cookie, c);
          AttachKeepsInv(sys, i, p, AcceptUser(attached, c), cookie, c);
        }
      }
    }
  }

  lemma RevealInv(sys: Sys)
    requires Inv(sys)
    ensures forall p :: p in sys.procs ==> ProcOk(sys.procs[p], |sys.secs|, sys.used)
    ensures forall i :: 0 <= i < |sys.secs| ==> SecOk(sys.secs[i], i, sys.used, sys.hooked) && Counts(sys.secs[i], sys.procs)
  {
  }

  lemma RemoveProcKeepsInv(sys: Sys, ev: Event)
    requires Inv(sys) && ev.RemoveProcEv? && Enabled(sys, ev)
    ensures Inv(Step(sys, ev))
  {
    hide SessionClose, SecOk, Holders, Counts;
    var proc := sys.procs[ev.p];
    var sys' := Step(sys, ev);
    assert ProcOk(proc, |sys.secs|, sys.used);
    forall i | 0 <= i < |sys.secs|
      ensures SecOk(sys'.secs[i], i, sys.used, sys.hooked) && Counts(sys'.secs[i], sys.procs - {ev.p})
    {
      var s := sys.secs[i];
      SessionCloseOk(s, i, sys.used, sys.hooked, proc.sid, ev.bytes, proc.invalidated, ev.cfg, ev.now);
      SessionCloseHolds(s, proc.sid, ev.bytes, proc.invalidated, ev.cfg, ev.now);
      CountsDetach(s, sys'.secs[i], sys.procs, ev.p);
    }
  }

  lemma StepKeepsInv(sys: Sys, ev: Event)
    requires Inv(sys) && Enabled(sys, ev)
    ensures Inv(Step(sys, ev))
  {
    hide Inv, SecStep, CookieReq, RemoveProc;
    if OnSec(ev) {
      SecEventKeepsInv(sys, ev);
    } else {
      RevealInv(sys);
      match ev
      case NewProcEv(p) => SetProcKeepsInv(sys, p, NEW_PROC);
      case CookieEv(p, cookie, c) => CookieKeepsInv(sys, p, cookie, c);
      case ScriptExitEv(p, ok) => SetProcKeepsInv(sys, p, Step(sys, ev).procs[p]);
      case DisconnectEv(p) => SetProcKeepsInv(sys, p, Step(sys, ev).procs[p]);
      case RemoveProcEv(_, _, _, _, _) => RemoveProcKeepsInv(sys, ev);
    }
  }

  /** Every reachable state satisfies the invariant. */
  lemma {:induction false} RunKeepsInv(sys: Sys, evs: seq<Event>)
    requires Start(sys) && Feasible(sys, evs)
    ensures Inv(Run(sys, evs))
    decreases |evs|
  {
    if evs != [] {
      hide Inv, Step, Enabled;
      RunKeepsInv(sys, evs[..|evs| - 1]);
      StepKeepsInv(Run(sys, evs[..|evs| - 1]), evs[|evs| - 1]);
    }
  }

  lemma RunOneMore(sys: Sys, evs: seq<Event>, ev: Event)
    requires Feasible(sys, evs) && Enabled(Run(sys, evs), ev)
    ensures Feasible(sys, evs + [ev]) && Run(sys, evs + [ev]) == Step(Run(sys, evs), ev)
  {
    hide Enabled, Step;
    assert (evs + [ev])[..|evs + [ev]| - 1] == evs;
  }
}
