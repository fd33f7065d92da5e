/**
 What the session protocol promises over whole runs.
 */
module SessionSafety {
  import opened Wrappers
  import opened SecMod
  import opened Sessions
  import opened SessionInvariant

  // ---- How a step reaches a sec-mod process ----

  /** The ways a step can change the state s of instance i into t. */
  ghost predicate Moved(sys: Sys, ev: Event, i: nat, s: State, t: State)
    requires Enabled(sys, ev)
  {
    || t == s
    || (OnSec(ev) && ev.i == i && SecEnabled(s, sys.used, ev) && t == SecStep(s, sys.used, ev))
    || (ev.CookieEv? && t == SessionOpen(s, ev.cookie, ev.c.cfg, ev.c.now, ev.c.hookOk, ev.c.end).0)
    || (ev.RemoveProcEv? && sys.procs[ev.p].active && !ev.quit
        && t == SessionClose(s, sys.procs[ev.p].sid, ev.bytes, sys.procs[ev.p].invalidated, ev.cfg, ev.now))
  }

  lemma StepMoves(sys: Sys, ev: Event, i: nat)
    requires Enabled(sys, ev) && i < |sys.secs|
    ensures |Step(sys, ev).secs| == |sys.secs| && Moved(sys, ev, i, sys.secs[i], Step(sys, ev).secs[i])
  {
    hide SecStep, SessionOpen, SessionClose, InstanceOf;
  }

  lemma ProcsMove(sys: Sys, ev: Event)
    requires Enabled(sys, ev)
    ensures OnSec(ev) ==> Step(sys, ev).procs == sys.procs
    ensures ev.RemoveProcEv? ==> Step(sys, ev).procs == sys.procs - {ev.p}
    ensures sys.used <= Step(sys, ev).used && |Step(sys, ev).secs| == |sys.secs|
  {
    hide SecStep, SessionOpen, SessionClose, InstanceOf;
  }

  // ---- Attached sessions survive ----

  lemma NoHolders(s: State, procs: map<nat, Proc>, sid: Sid)
    requires Counts(s, procs) && sid in s.db && s.db[sid].inUse == 0
    ensures Holders(procs, sid) == {}
  {
    hide Holders;
  }

  /** Only an entry that nobody holds is removed by a request to sec-mod. */
  lemma SecStepRemovesUnheld(s: State, used: set<Sid>, ev: Event, sid: Sid)
    requires OnSec(ev) && !Forced(ev) && SecEnabled(s, used, ev) && sid in s.db
    ensures sid in SecStep(s, used, ev).db || s.db[sid].inUse == 0
  {
    hide InstanceOf, AuthRes, FirstEntry;
  }

  /** Neither maintenance, nor a session close, nor a repeated auth init removes an
      entry that a remaining proc is attached to. */
  lemma AttachedSurvive(sys: Sys, ev: Event, i: nat, sid: Sid)
    requires Inv(sys) && Enabled(sys, ev) && !Forced(ev)
    requires i < |sys.secs| && sid in sys.secs[i].db && sid !in Step(sys, ev).secs[i].db
    ensures Holders(Step(sys, ev).procs, sid) == {}
  {
    hide Holders, InstanceOf, SessionClose, SessionOpen, SecStep, Step, Inv;
    RevealInv(sys);
    StepMoves(sys, ev, i);
    ProcsMove(sys, ev);
    var s := sys.secs[i];
    if OnSec(ev) {
      SecStepRemovesUnheld(s, sys.used, ev, sid);
      NoHolders(s, sys.procs, sid);
    } else if ev.CookieEv? {
      SessionOpenHolds(s, ev.cookie, ev.c.cfg, ev.c.now, ev.c.hookOk, ev.c.end);
    } else {
      SessionCloseHolds(s, sys.procs[ev.p].sid, ev.bytes, sys.procs[ev.p].invalidated, ev.cfg, ev.now);
      assert s.db[sid].inUse >= |Holders(sys.procs, sid)|;
      HoldersDetach(sys.procs, ev.p, sid);
      OnlyHolder(sys.procs, ev.p, sid);
    }
  }

  lemma OnlyHolder(procs: map<nat, Proc>, p: nat, sid: Sid)
    requires p in Holders(procs, sid) && |Holders(procs, sid)| <= 1
    ensures Holders(procs, sid) - {p} == {}
  {
    var h := Holders(procs, sid);
    assert |h - {p}| == |h| - 1;
  }

  /** In every reachable state an entry counts at least the procs attached to it. */
  lemma AttachedAreCounted(sys: Sys, evs: seq<Event>, i: nat, sid: Sid)
    requires Start(sys) && Feasible(sys, evs)
    requires i < |Run(sys, evs).secs| && sid in Run(sys, evs).secs[i].db
    ensures Run(sys, evs).secs[i].db[sid].inUse >= |Holders(Run(sys, evs).procs, sid)|
  {
    hide Inv, Step, Holders, Enabled;
    RunKeepsInv(sys, evs);
    RevealInv(Run(sys, evs));
  }

  /** A failed entry that somebody holds is never removed, except by force: a close
      does not let go of it. */
  lemma FailedHeldStays(sys: Sys, ev: Event, i: nat, sid: Sid)
    requires Inv(sys) && Enabled(sys, ev) && !Forced(ev) && i < |sys.secs|
    requires sid in sys.secs[i].db && sys.secs[i].db[sid].status == Failed && sys.secs[i].db[sid].inUse > 0
    ensures |Step(sys, ev).secs| == |sys.secs| && sid in Step(sys, ev).secs[i].db
    ensures Step(sys, ev).secs[i].db[sid].inUse == sys.secs[i].db[sid].inUse
  {
    hide InstanceOf, SessionOpen, SecStep, Step, SessionClose;
    StepMoves(sys, ev, i);
    assert SecOk(sys.secs[i], i, sys.used, sys.hooked);
    if OnSec(ev) && ev.i == i {
      SecStepRemovesUnheld(sys.secs[i], sys.used, ev, sid);
      SecStepHolds(sys.secs[i], sys.used, ev, sid);
    } else if ev.CookieEv? {
      SessionOpenHolds(sys.secs[i], ev.cookie, ev.c.cfg, ev.c.now, ev.c.hookOk, ev.c.end);
    } else if ev.RemoveProcEv? {
      FailedNotClosed(sys.secs[i], sid, sys.procs[ev.p].sid, ev.bytes, sys.procs[ev.p].invalidated, ev.cfg, ev.now);
    }
  }

  lemma SecStepHolds(s: State, used: set<Sid>, ev: Event, sid: Sid)
    requires OnSec(ev) && SecEnabled(s, used, ev) && sid in s.db && sid in used
    ensures sid in SecStep(s, used, ev).db ==> SecStep(s, used, ev).db[sid].inUse == s.db[sid].inUse
  {
    hide InstanceOf, FirstEntry, CheckGroup, Stamp;
  }

  lemma FailedNotClosed(s: State, sid: Sid, x: Sid, bytes: Stats, inv: bool, cfg: Config, now: int)
    requires sid in s.db && s.db[sid].status == Failed
    ensures var t := SessionClose(s, x, bytes, inv, cfg, now); sid in t.db && t.db[sid] == s.db[sid]
  {
    hide AddStats, MaxStats;
  }

  // ---- What can happen to one entry ----

  /** An auth init that completes an authentication: a module that answered zero,
      or none, and check_group accepting the client. */
  predicate InitAuthenticates(r: InitRequest, cfg: Config, now: int, f: Finish) {
    && r.methodOk && (r.hasModule ==> r.result == Success && f.msgOk)
    && CheckGroup(NewEntry(r.pid, r.hooks, cfg, now).(hasModule := r.hasModule, who := r.who, status := Init), cfg, f.group).Some?
  }

  /** An auth cont that completes the authentication of e. */
  predicate ContAuthenticates(e: Entry, password: bool, result: AuthResult, cfg: Config, f: Finish) {
    && (e.status == Init || e.status == Cont) && password && e.hasModule
    && result == Success && f.msgOk && CheckGroup(e.(status := Cont), cfg, f.group).Some?
  }

  /** The event is sent to instance i, whose state is s, and authenticates sid there: an
      init that issues this very SID, or a cont for it. */
  predicate Authenticates(s: State, i: nat, sid: Sid, ev: Event) {
    match ev
    case AuthInitEv(j, r, cfg, now, f) =>
      && j == i && sid !in s.db && r.authentic
      && r.raw.Some? && |r.raw.value| == SID_SIZE && sid == Stamp(r.raw.value, s.index)
      && InitAuthenticates(r, cfg, now, f)
    case AuthContEv(j, sid', password, result, cfg, f) =>
      j == i && sid' == sid && sid in s.db && ContAuthenticates(s.db[sid], password, result, cfg, f)
    case _ => false
  }

  /** Whom it authenticates. */
  function AuthenticatedAs(s: State, i: nat, sid: Sid, ev: Event): (w: Identity)
    requires Authenticates(s, i, sid, ev)
  {
    match ev
    case AuthInitEv(_, r, cfg, now, f) => FirstEntry(r, cfg, now, f).who
    case AuthContEv(_, _, _, result, cfg, f) => AuthRes(s.db[sid].(status := Cont), result, cfg, f).who
  }

  predicate IsCompleted(s: State, sid: Sid) {
    sid in s.db && s.db[sid].status == Completed
  }

  /** In going from s to t by ev: a failed entry stays failed, a completed one keeps its
      identity while it is completed, and an entry is newly completed only if the event
      authenticates it, and as whom it does. */
  predicate LegalStatus(s: State, t: State, i: nat, sid: Sid, ev: Event) {
    && (sid in s.db && sid in t.db && s.db[sid].status == Failed ==> t.db[sid].status == Failed)
    && (IsCompleted(s, sid) && IsCompleted(t, sid) ==> t.db[sid].who == s.db[sid].who)
    && (IsCompleted(t, sid) && !IsCompleted(s, sid) ==>
          Authenticates(s, i, sid, ev) && t.db[sid].who == AuthenticatedAs(s, i, sid, ev))
  }

  lemma AuthResLegal(e: Entry, result: AuthResult, cfg: Config, f: Finish)
    ensures var e' := AuthRes(e, result, cfg, f);
            && (e.status == Failed ==> e'.status == Failed)
            && (e'.status == Completed && e.status != Completed ==>
                  result == Success && (e.hasModule ==> f.msgOk) && CheckGroup(e, cfg, f.group).Some?)
            && (result == Denied ==> e'.status == Failed)
  {
    hide CheckGroup;
  }

  lemma AuthContLegal(s: State, i: nat, sid: Sid, ev: Event)
    requires ev.AuthContEv? && ev.i == i
    ensures LegalStatus(s, AuthCont(s, ev.sid, ev.password, ev.result, ev.cfg, ev.f), i, sid, ev)
  {
    hide CheckGroup, AuthRes;
    if ev.sid in s.db {
      var e := s.db[ev.sid];
      AuthResLegal(e, Denied, ev.cfg, ev.f);
      AuthResLegal(e.(status := Cont), ev.result, ev.cfg, ev.f);
    }
  }

  lemma FirstEntryLegal(r: InitRequest, cfg: Config, now: int, f: Finish)
    ensures FirstEntry(r, cfg, now, f).status == Completed ==> InitAuthenticates(r, cfg, now, f)
  {
    hide CheckGroup;
  }

  lemma AuthInitLegal(s: State, used: set<Sid>, i: nat, sid: Sid, ev: Event)
    requires ev.AuthInitEv? && ev.i == i && SecEnabled(s, used, ev) && (sid in s.db ==> sid in used)
    ensures LegalStatus(s, AuthInit(s, ev.r, ev.cfg, ev.now, ev.f), i, sid, ev)
  {
    hide CheckGroup, FirstEntry, Stamp, InitAuthenticates;
    FirstEntryLegal(ev.r, ev.cfg, ev.now, ev.f);
  }

  lemma SecStepLegal(s: State, used: set<Sid>, ev: Event, sid: Sid)
    requires OnSec(ev) && SecEnabled(s, used, ev) && (sid in s.db ==> sid in used)
    ensures LegalStatus(s, SecStep(s, used, ev), ev.i, sid, ev)
  {
    hide AuthInit, AuthCont, InstanceOf, Authenticates;
    if ev.AuthInitEv? {
      AuthInitLegal(s, used, ev.i, sid, ev);
    } else if ev.AuthContEv? {
      AuthContLegal(s, ev.i, sid, ev);
    }
  }

  lemma SessionOpenLegal(s: State, i: nat, sid: Sid, ev: Event, x: Sid, c: Cookie)
    ensures LegalStatus(s, SessionOpen(s, x, c.cfg, c.now, c.hookOk, c.end).0, i, sid, ev)
  {
    hide InstanceOf, Authenticates;
  }

  lemma SessionCloseLegal(s: State, i: nat, sid: Sid, ev: Event, x: Sid, bytes: Stats, inv: bool, cfg: Config, now: int)
    ensures LegalStatus(s, SessionClose(s, x, bytes, inv, cfg, now), i, sid, ev)
  {
    hide Authenticates, AddStats, MaxStats;
  }

  /** In one step: a failed entry stays failed, and an entry is newly completed only
      through a successful authentication. */
  lemma StepLegal(sys: Sys, ev: Event, i: nat, sid: Sid)
    requires Inv(sys) && Enabled(sys, ev) && i < |sys.secs|
    ensures |Step(sys, ev).secs| == |sys.secs|
    ensures LegalStatus(sys.secs[i], Step(sys, ev).secs[i], i, sid, ev)
  {
    hide InstanceOf, SecStep, Step, Authenticates, SessionOpen, SessionClose;
    StepMoves(sys, ev, i);
    assert SecOk(sys.secs[i], i, sys.used, sys.hooked);
    if OnSec(ev) && ev.i == i {
      SecStepLegal(sys.secs[i], sys.used, ev, sid);
    } else if ev.CookieEv? {
      SessionOpenLegal(sys.secs[i], i, sid, ev, ev.cookie, ev.c);
    } else if ev.RemoveProcEv? {
      SessionCloseLegal(sys.secs[i], i, sid, ev, sys.procs[ev.p].sid, ev.bytes, sys.procs[ev.p].invalidated, ev.cfg, ev.now);
    }
  }

  /** An entry appears only under a SID that was not issued before. */
  lemma StepCreates(sys: Sys, ev: Event, i: nat, sid: Sid)
    requires Inv(sys) && Enabled(sys, ev) && i < |sys.secs|
    requires |Step(sys, ev).secs| == |sys.secs|
    requires sid !in sys.secs[i].db && sid in Step(sys, ev).secs[i].db
    ensures sid !in sys.used
  {
    hide InstanceOf, Step, FirstEntry, SessionOpen, SessionClose, AuthRes, Stamp;
    StepMoves(sys, ev, i);
    if ev.CookieEv? {
      SessionOpenHolds(sys.secs[i], ev.cookie, ev.c.cfg, ev.c.now, ev.c.hookOk, ev.c.end);
    } else if ev.RemoveProcEv? {
      SessionCloseHolds(sys.secs[i], sys.procs[ev.p].sid, ev.bytes, sys.procs[ev.p].invalidated, ev.cfg, ev.now);
    }
  }

  // ---- Over whole runs ----

  lemma {:induction false} PrefixFeasible(sys: Sys, evs: seq<Event>, k: nat)
    requires Feasible(sys, evs) && k <= |evs|
    ensures Feasible(sys, evs[..k])
    decreases |evs|
  {
    hide Enabled;
    if k == |evs| {
      assert evs[..k] == evs;
    } else {
      PrefixFeasible(sys, evs[..|evs| - 1], k);
      assert evs[..|evs| - 1][..k] == evs[..k];
    }
  }

  /** The entry of sid is failed, or gone for good. */
  predicate FailedOrGone(sys: Sys, i: nat, sid: Sid) {
    i < |sys.secs| && sid in sys.used && (sid in sys.secs[i].db ==> sys.secs[i].db[sid].status == Failed)
  }

  /** Once an entry has failed it is never anything but failed. */
  lemma {:induction false} FailedForever(sys: Sys, evs: seq<Event>, k: nat, i: nat, sid: Sid)
    requires Start(sys) && Feasible(sys, evs) && k <= |evs|
    requires Feasible(sys, evs[..k]) && FailedOrGone(Run(sys, evs[..k]), i, sid)
    ensures FailedOrGone(Run(sys, evs), i, sid)
    decreases |evs|
  {
    hide Step, Enabled, Inv, Start;
    if k == |evs| {
      assert evs[..k] == evs;
    } else {
      var before, ev := evs[..|evs| - 1], evs[|evs| - 1];
      assert before[..k] == evs[..k];
      FailedForever(sys, before, k, i, sid);
      RunKeepsInv(sys, before);
      FailedStep(Run(sys, before), ev, i, sid);
    }
  }

  lemma FailedStep(sys: Sys, ev: Event, i: nat, sid: Sid)
    requires Inv(sys) && Enabled(sys, ev) && FailedOrGone(sys, i, sid)
    ensures FailedOrGone(Step(sys, ev), i, sid)
  {
    hide Step, Inv, Authenticates;
    ProcsMove(sys, ev);
    StepLegal(sys, ev, i, sid);
    if sid in Step(sys, ev).secs[i].db && sid !in sys.secs[i].db {
      StepCreates(sys, ev, i, sid);
      assert false;
    }
  }

  /** Step k of the run authenticated sid, as w. */
  ghost predicate AuthenticatedAt(sys: Sys, evs: seq<Event>, k: nat, i: nat, sid: Sid, w: Identity) {
    && k < |evs| && Feasible(sys, evs[..k]) && i < |Run(sys, evs[..k]).secs|
    && Authenticates(Run(sys, evs[..k]).secs[i], i, sid, evs[k])
    && w == AuthenticatedAs(Run(sys, evs[..k]).secs[i], i, sid, evs[k])
  }

  lemma AuthenticatedEarlier(sys: Sys, evs: seq<Event>, n: nat, k: nat, i: nat, sid: Sid, w: Identity)
    requires n <= |evs| && AuthenticatedAt(sys, evs[..n], k, i, sid, w)
    ensures AuthenticatedAt(sys, evs, k, i, sid, w)
  {
    assert evs[..n][..k] == evs[..k];
  }

  /** A completed entry was authenticated at some step of the run, by a request to its
      own instance for its own SID, and has the identity found then. */
  lemma {:induction false} CompletedWasAuthenticated(sys: Sys, evs: seq<Event>, i: nat, sid: Sid) returns (k: nat)
    requires Start(sys) && Feasible(sys, evs) && i < |Run(sys, evs).secs|
    requires IsCompleted(Run(sys, evs).secs[i], sid)
    ensures AuthenticatedAt(sys, evs, k, i, sid, Run(sys, evs).secs[i].db[sid].who)
    decreases |evs|
  {
    hide Step, Enabled, Inv, Authenticates, AuthenticatedAs;
    var n := |evs| - 1;
    assert evs != [];
    var before := Run(sys, evs[..n]);
    RunKeepsInv(sys, evs[..n]);
    ProcsMove(before, evs[n]);
    StepLegal(before, evs[n], i, sid);
    if IsCompleted(before.secs[i], sid) {
      k := CompletedWasAuthenticated(sys, evs[..n], i, sid);
      AuthenticatedEarlier(sys, evs, n, k, i, sid, before.secs[i].db[sid].who);
    } else {
      k := n;
    }
  }

  // ---- Main's side ----

  /** The cookie event is served by a session open that found the SID completed,
      unexpired and on its own instance, and granted it. */
  ghost predicate Admits(sys: Sys, ev: Event, p: nat) {
    && ev.CookieEv? && ev.p == p && |ev.cookie| == SID_SIZE && InstanceOf(ev.cookie) < |sys.secs|
    && MayOpen(sys.secs[InstanceOf(ev.cookie)], ev.cookie, ev.c.now)
    && SessionOpen(sys.secs[InstanceOf(ev.cookie)], ev.cookie, ev.c.cfg, ev.c.now, ev.c.hookOk, ev.c.end).1.Granted?
  }

  predicate Admitted(sys: Sys, p: nat) {
    p in sys.procs && (sys.procs[p].status == Completed || sys.procs[p].scriptPending || sys.procs[p].active)
  }

  /** The worker has the SID of the cookie and the name of the entry that it opened. */
  ghost predicate Carries(sys: Sys, ev: Event, p: nat, proc: Proc)
    requires Admits(sys, ev, p)
  {
    proc.sid == ev.cookie && proc.username == sys.secs[InstanceOf(ev.cookie)].db[ev.cookie].who.username
  }

  lemma AdmitByCookie(sys: Sys, ev: Event, p: nat)
    requires ev.CookieEv? && ev.p == p && Enabled(sys, ev) && Admitted(Step(sys, ev), p)
    requires ProcOk(sys.procs[p], |sys.secs|, sys.used)
    ensures || (Admitted(sys, p) && SameSession(sys.procs[p], Step(sys, ev).procs[p]))
            || (Admits(sys, ev, p) && Carries(sys, ev, p, Step(sys, ev).procs[p]))
  {
    hide SessionOpen, InstanceOf, MayOpen, FoundBySid;
    if |ev.cookie| == SID_SIZE && InstanceOf(ev.cookie) < |sys.secs| {
      GrantedIs(sys.secs[InstanceOf(ev.cookie)], ev.cookie, ev.c);
    }
  }

  lemma AdmitStep(sys: Sys, ev: Event, p: nat)
    requires Enabled(sys, ev) && Admitted(Step(sys, ev), p)
    requires p in sys.procs ==> ProcOk(sys.procs[p], |sys.secs|, sys.used)
    ensures || (Admitted(sys, p) && SameSession(sys.procs[p], Step(sys, ev).procs[p]))
            || (Admits(sys, ev, p) && Carries(sys, ev, p, Step(sys, ev).procs[p]))
  {
    if ev.CookieEv? && ev.p == p {
      hide Step, Admits, Carries;
      AdmitByCookie(sys, ev, p);
    } else {
      hide SecStep, SessionClose, SessionOpen, InstanceOf, MayOpen, Admits, Carries;
    }
  }

  lemma GrantedIs(s: State, sid: Sid, c: Cookie)
    ensures var reply := SessionOpen(s, sid, c.cfg, c.now, c.hookOk, c.end).1;
            reply.Granted? ==> MayOpen(s, sid, c.now) && sid in s.db && reply.username == s.db[sid].who.username
  {
    hide InstanceOf, Expired;
  }

  predicate SameSession(a: Proc, b: Proc) {
    b.sid == a.sid && b.username == a.username
  }

  /** After j steps p is there, with the session that the event opened in sys'. */
  ghost predicate CarriesAt(sys: Sys, evs: seq<Event>, j: nat, p: nat, sys': Sys, ev: Event)
    requires Admits(sys', ev, p)
  {
    j <= |evs| && Feasible(sys, evs[..j]) && p in Run(sys, evs[..j]).procs && Carries(sys', ev, p, Run(sys, evs[..j]).procs[p])
  }

  /** Step k opened a session for p, which has been there with it ever since. */
  ghost predicate AdmittedAt(sys: Sys, evs: seq<Event>, k: nat, p: nat) {
    && k < |evs| && Feasible(sys, evs[..k]) && Admits(Run(sys, evs[..k]), evs[k], p)
    && forall j :: k < j <= |evs| ==> CarriesAt(sys, evs, j, p, Run(sys, evs[..k]), evs[k])
  }

  /** Main marks a worker completed, runs its connect script, or holds its session,
      only after such a session open for the SID the worker has; the worker, and not
      another of the same number, has been there since, with the SID and the name of
      the entry. */
  lemma {:induction false} CompletedProcWasAdmitted(sys: Sys, evs: seq<Event>, p: nat) returns (k: nat)
    requires Start(sys) && Feasible(sys, evs) && Admitted(Run(sys, evs), p)
    ensures AdmittedAt(sys, evs, k, p) && Carries(Run(sys, evs[..k]), evs[k], p, Run(sys, evs).procs[p])
    decreases |evs|
  {
    hide Step, Enabled, Admits, Inv, Carries;
    var n := |evs| - 1;
    assert evs != [];
    var before := Run(sys, evs[..n]);
    RunKeepsInv(sys, evs[..n]);
    RevealInv(before);
    AdmitStep(before, evs[n], p);
    assert evs[..|evs|] == evs;
    if Admitted(before, p) && SameSession(before.procs[p], Run(sys, evs).procs[p]) {
      k := CompletedProcWasAdmitted(sys, evs[..n], p);
      assert evs[..n][..k] == evs[..k];
      CarriesOn(Run(sys, evs[..k]), evs[k], p, before.procs[p], Run(sys, evs).procs[p]);
      forall j | k < j <= |evs|
        ensures CarriesAt(sys, evs, j, p, Run(sys, evs[..k]), evs[k])
      {
        if j <= n {
          assert CarriesAt(sys, evs[..n], j, p, Run(sys, evs[..n][..k]), evs[..n][k]);
          assert evs[..n][..j] == evs[..j];
        }
      }
    } else {
      k := n;
    }
  }

  lemma CarriesOn(sys: Sys, ev: Event, p: nat, a: Proc, b: Proc)
    requires Admits(sys, ev, p) && Carries(sys, ev, p, a) && SameSession(a, b)
    ensures Carries(sys, ev, p, b)
  {
  }

  /** End to end: a worker that main has completed came with a SID that was authenticated
      before, on the instance that the SID names, and has the user name found then. */
  lemma CompletedProcWasAuthenticated(sys: Sys, evs: seq<Event>, p: nat) returns (j: nat, k: nat, w: Identity)
    requires Start(sys) && Feasible(sys, evs) && Admitted(Run(sys, evs), p)
    ensures j < k && AdmittedAt(sys, evs, k, p) && w.username == Run(sys, evs).procs[p].username
    ensures |Run(sys, evs).procs[p].sid| == SID_SIZE
    ensures var sid := Run(sys, evs).procs[p].sid; AuthenticatedAt(sys, evs, j, InstanceOf(sid), sid, w)
  {
    hide Step, Enabled, Inv, Start, InstanceOf, SessionOpen, Authenticates, AuthenticatedAs, Feasible, Run;
    k := CompletedProcWasAdmitted(sys, evs, p);
    var before, sid := Run(sys, evs[..k]), evs[k].cookie;
    var i := InstanceOf(sid);
    w := before.secs[i].db[sid].who;
    j := CompletedWasAuthenticated(sys, evs[..k], i, sid);
    AuthenticatedEarlier(sys, evs, k, j, i, sid, w);
  }

  // ---- Accounting ----

  /** The bytes an entry accounts for: those of finished connections and of the
      running one. */
  function TotalIn(e: Entry): (n: nat) { e.saved.bytesIn as int + e.stats.bytesIn as int }
  function TotalOut(e: Entry): (n: nat) { e.saved.bytesOut as int + e.stats.bytesOut as int }

  predicate NotLess(e: Entry, e': Entry) {
    TotalIn(e') >= TotalIn(e) && TotalOut(e') >= TotalOut(e)
  }

  /** A close of the session of sid has room in the 64-bit totals. */
  predicate RoomToClose(e: Entry, bytes: Stats) {
    var m := MaxStats(e.stats, bytes);
    e.saved.bytesIn as int + m.bytesIn as int < WORD64 && e.saved.bytesOut as int + m.bytesOut as int < WORD64
  }

  /** Closing moves the running counters to the saved ones: the total becomes what
      was saved plus the larger of the two counts of the connection. It decreases
      exactly when that does not fit in 64 bits. */
  lemma CloseConserves(s: State, sid: Sid, bytes: Stats, inv: bool, cfg: Config, now: int)
    requires |sid| == SID_SIZE && sid in s.db && s.db[sid].status == Completed
    ensures var e, t := s.db[sid], SessionClose(s, sid, bytes, inv, cfg, now);
            sid in t.db ==>
              && t.db[sid].stats == Stats(0, 0)
              && (NotLess(e, t.db[sid]) <==> RoomToClose(e, bytes))
              && (RoomToClose(e, bytes) ==>
                    && TotalIn(t.db[sid]) == e.saved.bytesIn as int + MaxStats(e.stats, bytes).bytesIn as int
                    && TotalOut(t.db[sid]) == e.saved.bytesOut as int + MaxStats(e.stats, bytes).bytesOut as int)
  {
  }

  /** The shutdown fold changes no total that fits in 64 bits. */
  lemma FoldConserves(e: Entry)
    ensures e.sessionIsOpen ==> (TotalIn(Fold(e)) == TotalIn(e) <==> TotalIn(e) < WORD64)
    ensures e.sessionIsOpen ==> (TotalOut(Fold(e)) == TotalOut(e) <==> TotalOut(e) < WORD64)
    ensures e.sessionIsOpen ==> Fold(e).stats == Stats(0, 0)
  {
  }

  /** Every close in the step has room in the totals of sid. */
  predicate Roomy(sys: Sys, ev: Event, sid: Sid)
    requires Enabled(sys, ev)
  {
    ev.RemoveProcEv? && sys.procs[ev.p].active && sys.procs[ev.p].sid == sid ==>
      forall i :: 0 <= i < |sys.secs| && sid in sys.secs[i].db ==> RoomToClose(sys.secs[i].db[sid], ev.bytes)
  }

  lemma SecStepTotals(s: State, used: set<Sid>, ev: Event, sid: Sid)
    requires OnSec(ev) && SecEnabled(s, used, ev) && sid in s.db && sid in used
    ensures sid in SecStep(s, used, ev).db ==> NotLess(s.db[sid], SecStep(s, used, ev).db[sid])
  {
    hide InstanceOf, CheckGroup, FirstEntry, Stamp;
  }

  lemma OpenTotals(s: State, sid: Sid, x: Sid, c: Cookie)
    requires sid in s.db
    ensures var t := SessionOpen(s, x, c.cfg, c.now, c.hookOk, c.end).0; sid in t.db && NotLess(s.db[sid], t.db[sid])
  {
    hide InstanceOf;
  }

  lemma CloseTotals(s: State, sid: Sid, x: Sid, bytes: Stats, inv: bool, cfg: Config, now: int)
    requires sid in s.db && (x == sid ==> RoomToClose(s.db[sid], bytes))
    ensures var t := SessionClose(s, x, bytes, inv, cfg, now); sid in t.db ==> NotLess(s.db[sid], t.db[sid])
  {
    if x == sid && |sid| == SID_SIZE && s.db[sid].status == Completed {
      hide SessionClose, NotLess, RoomToClose;
      CloseConserves(s, sid, bytes, inv, cfg, now);
    }
  }

  lemma StepTotals(sys: Sys, ev: Event, i: nat, sid: Sid)
    requires Inv(sys) && Enabled(sys, ev) && i < |sys.secs| && Roomy(sys, ev, sid)
    requires sid in sys.secs[i].db && |Step(sys, ev).secs| == |sys.secs| && sid in Step(sys, ev).secs[i].db
    ensures NotLess(sys.secs[i].db[sid], Step(sys, ev).secs[i].db[sid])
  {
    hide InstanceOf, SecStep, Step, SessionClose, SessionOpen, RoomToClose;
    StepMoves(sys, ev, i);
    var s := sys.secs[i];
    assert SecOk(s, i, sys.used, sys.hooked);
    if OnSec(ev) && ev.i == i {
      SecStepTotals(s, sys.used, ev, sid);
    } else if ev.RemoveProcEv? && sys.procs[ev.p].active {
      CloseTotals(s, sid, sys.procs[ev.p].sid, ev.bytes, sys.procs[ev.p].invalidated, ev.cfg, ev.now);
    } else if ev.CookieEv? {
      OpenTotals(s, sid, ev.cookie, ev.c);
    }
  }

  ghost predicate RoomyAt(sys: Sys, evs: seq<Event>, j: nat, sid: Sid) {
    j < |evs| && Feasible(sys, evs[..j]) && Enabled(Run(sys, evs[..j]), evs[j]) && Roomy(Run(sys, evs[..j]), evs[j], sid)
  }

  /** Over any run in which the totals of sid fit in 64 bits they never decrease,
      for as long as its entry is there. */
  lemma {:induction false} TotalsNeverDecrease(sys: Sys, evs: seq<Event>, k: nat, i: nat, sid: Sid)
    requires Start(sys) && Feasible(sys, evs) && k <= |evs| && Feasible(sys, evs[..k])
    requires i < |Run(sys, evs[..k]).secs| && sid in Run(sys, evs[..k]).secs[i].db
    requires forall j :: k <= j < |evs| ==> RoomyAt(sys, evs, j, sid)
    ensures i < |Run(sys, evs).secs| && sid in Run(sys, evs).used
    ensures sid in Run(sys, evs).secs[i].db ==> NotLess(Run(sys, evs[..k]).secs[i].db[sid], Run(sys, evs).secs[i].db[sid])
    decreases |evs|
  {
    hide Step, Enabled, Roomy, Inv, Start;
    if k == |evs| {
      assert evs[..k] == evs;
      RunKeepsInv(sys, evs);
      IssuedIfPresent(Run(sys, evs), i, sid);
    } else {
      var n := |evs| - 1;
      var before, ev := evs[..n], evs[n];
      assert before[..k] == evs[..k];
      forall j | k <= j < n
        ensures RoomyAt(sys, before, j, sid)
      {
        assert RoomyAt(sys, evs, j, sid) && before[..j] == evs[..j];
      }
      TotalsNeverDecrease(sys, before, k, i, sid);
      RunKeepsInv(sys, before);
      assert RoomyAt(sys, evs, n, sid);
      TotalsStep(Run(sys, before), ev, i, sid);
    }
  }

  lemma IssuedIfPresent(sys: Sys, i: nat, sid: Sid)
    requires Inv(sys) && i < |sys.secs| && sid in sys.secs[i].db
    ensures sid in sys.used
  {
    assert SecOk(sys.secs[i], i, sys.used, sys.hooked);
  }

  lemma TotalsStep(sys: Sys, ev: Event, i: nat, sid: Sid)
    requires Inv(sys) && Enabled(sys, ev) && i < |sys.secs| && sid in sys.used && Roomy(sys, ev, sid)
    ensures |Step(sys, ev).secs| == |sys.secs| && sid in Step(sys, ev).used
    ensures sid in Step(sys, ev).secs[i].db ==>
              sid in sys.secs[i].db && NotLess(sys.secs[i].db[sid], Step(sys, ev).secs[i].db[sid])
  {
    hide Step, Inv, Roomy;
    ProcsMove(sys, ev);
    if sid in Step(sys, ev).secs[i].db {
      if sid in sys.secs[i].db {
        StepTotals(sys, ev, i, sid);
      } else {
        StepCreates(sys, ev, i, sid);
      }
    }
  }

  /** In every reachable state, for a SID issued where both accounting hooks are
      defined: opened at most once, and closed once if and only if it was opened and
      its entry has left the database. */
  lemma AccountingPairs(sys: Sys, evs: seq<Event>, i: nat, sid: Sid)
    requires Start(sys) && Feasible(sys, evs)
    requires i < |Run(sys, evs).secs| && sid in Run(sys, evs).hooked && |sid| == SID_SIZE && InstanceOf(sid) == i
    ensures var s := Run(sys, evs).secs[i];
            && s.opens[sid] <= 1
            && (sid in s.db ==> s.closes[sid] == 0)
            && (sid !in s.db ==> s.closes[sid] == s.opens[sid])
  {
    RunKeepsInv(sys, evs);
    assert SecOk(Run(sys, evs).secs[i], i, Run(sys, evs).used, Run(sys, evs).hooked);
    assert Accounted(Run(sys, evs).secs[i], sid);
  }
}
