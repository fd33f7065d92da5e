/**
 The session protocol between the main process and the sec-mod processes
 (src/main-auth.c, src/main-proc.c, src/main-worker-cmd.c,
 src/main-sec-mod-cmd.c), as a step system. Main talks to sec-mod synchronously,
 so a request and its handling are one step; steps of different processes
 interleave freely.
 */
module Sessions {
  import opened Wrappers
  import opened SecMod

  /** What main keeps about one worker. filed: it is in the table of SIDs.
      scriptPending: its connect script runs. invalidated: the administrator has
      disconnected it. */
  datatype Proc = Proc(
    status: Status, instance: nat, sid: Sid, active: bool, filed: bool, username: string,
    scriptPending: bool, invalidated: bool)

  /** A worker that proc_search_sid can find under the SID. */
  predicate Files(proc: Proc, sid: Sid) {
    proc.filed && proc.sid == sid
  }

  /** proc_search_sid found `found`: any one of them, and none only if there is none. */
  predicate FoundBySid(procs: map<nat, Proc>, sid: Sid, found: Option<nat>) {
    match found
    case Some(o) => o in procs && Files(procs[o], sid)
    case None => forall q :: q in procs ==> !Files(procs[q], sid)
  }

  /** used: every SID ever issued. hooked: those issued on a virtual host with
      both accounting hooks. */
  datatype Sys = Sys(secs: seq<State>, procs: map<nat, Proc>, used: set<Sid>, hooked: set<Sid>)

  /** How accept_user ends. */
  datatype Accept = Accepted | WaitsForScript | Rejected

  /** Answers needed to serve AUTH_COOKIE_REQ: the random generator, a proc found
      with the same SID, the sec-mod side (cfg, now, hookOk, end), main's own checks
      of the reply, the proc table, accept_user, and the replies sent afterwards. */
  datatype Cookie = Cookie(
    rngOk: bool, prior: Option<nat>, cfg: Config, now: int, hookOk: bool, end: OpenEnd,
    mainOk: bool, tableOk: bool, accept: Accept, replyOk: bool)

  datatype Event =
    | AuthInitEv(i: nat, r: InitRequest, cfg: Config, now: int, f: Finish)
    | AuthContEv(i: nat, sid: Sid, password: bool, result: AuthResult, cfg: Config, f: Finish)
    | BanReplyEv(i: nat, sid: Sid, ok: bool)
    | StatsEv(i: nat, sid: Sid, bytes: Stats, reason: Reason, pid: nat)
    | CleanupEv(i: nat, now: int)
    | TerminateUserEv(i: nat, username: string)
    | TerminateSidEv(i: nat, found: Option<Sid>)
    | ShutdownEv(i: nat)
    | NewProcEv(p: nat)
    | CookieEv(p: nat, cookie: Sid, c: Cookie)
    | ScriptExitEv(p: nat, ok: bool)
    | DisconnectEv(p: nat)
    | RemoveProcEv(p: nat, quit: bool, bytes: Stats, cfg: Config, now: int)

  /** Steps that end sessions whoever is attached. */
  predicate Forced(ev: Event) {
    ev.TerminateUserEv? || ev.TerminateSidEv? || ev.ShutdownEv?
  }

  // ---- Steps ----

  /** The sec-mod process of an event, and its state after it. */
  predicate OnSec(ev: Event) {
    !ev.NewProcEv? && !ev.CookieEv? && !ev.ScriptExitEv? && !ev.DisconnectEv? && !ev.RemoveProcEv?
  }

  predicate SecEnabled(s: State, used: set<Sid>, ev: Event)
    requires OnSec(ev)
  {
    && (ev.AuthInitEv? ==> FoundByPid(s, ev.r.pid, ev.r.found))
    && (ev.AuthInitEv? && ev.r.raw.Some? ==> |ev.r.raw.value| == SID_SIZE && Stamp(ev.r.raw.value, s.index) !in used)
    && (ev.TerminateSidEv? && ev.found.Some? ==> ev.found.value in s.db)
  }

  function SecStep(s: State, used: set<Sid>, ev: Event): (t: State)
    requires OnSec(ev) && SecEnabled(s, used, ev)
  {
    match ev
    case AuthInitEv(_, r, cfg, now, f) => AuthInit(s, r, cfg, now, f)
    case AuthContEv(_, sid, password, result, cfg, f) => AuthCont(s, sid, password, result, cfg, f)
    case BanReplyEv(_, sid, ok) => BanReply(s, sid, ok)
    case StatsEv(_, sid, bytes, reason, pid) => UpdateStats(s, sid, bytes, reason, pid)
    case CleanupEv(_, now) => Cleanup(s, now)
    case TerminateUserEv(_, username) => TerminateUser(s, username)
    case TerminateSidEv(_, found) => TerminateSid(s, found)
    case ShutdownEv(_) => Shutdown(s)
  }

  /** handle_cookie_auth_res for a cookie that was accepted. */
  function AcceptUser(proc: Proc, c: Cookie): (r: Proc) {
    match c.accept
    case Rejected => proc.(status := Failed)
    case WaitsForScript => proc.(status := Failed, scriptPending := true)
    case Accepted => proc.(status := if c.replyOk then Completed else Failed)
  }

  const NEW_PROC: Proc := Proc(Inactive, 0, [], false, false, "", false, false)

  function SetProc(sys: Sys, p: nat, proc: Proc): (r: Sys) {
    sys.(procs := sys.procs[p := proc])
  }

  /** The AUTH_COOKIE_REQ command: handle_auth_cookie_req, with the session open it
      makes, and handle_cookie_auth_res. */
  function CookieReq(sys: Sys, p: nat, cookie: Sid, c: Cookie): (r: Sys)
    requires p in sys.procs && (c.prior.Some? ==> c.prior.value in sys.procs)
  {
    var proc := sys.procs[p];
    if proc.status != Inactive || |cookie| != SID_SIZE then sys
    else if InstanceOf(cookie) >= |sys.secs| then SetProc(sys, p, proc.(status := Failed))
    else
      var i := InstanceOf(cookie);
      var failed := proc.(instance := i, status := Failed);
      if !c.rngOk || (c.prior.Some? && sys.procs[c.prior.value].invalidated) then SetProc(sys, p, failed)
      else
        var (sec, reply) := SessionOpen(sys.secs[i], cookie, c.cfg, c.now, c.hookOk, c.end);
        var sys' := sys.(secs := sys.secs[i := sec]);
        if !reply.Granted? || !c.mainOk then SetProc(sys', p, failed)
        else if c.prior.Some? && sys.procs[c.prior.value].username != reply.username then
          SetProc(sys', p, failed.(username := reply.username))
        else
          var attached := failed.(username := reply.username, sid := cookie, active := true, filed := c.tableOk);
          SetProc(sys', p, if c.tableOk then AcceptUser(attached, c) else attached)
  }

  /** remove_proc, closing the session it holds unless the server quits. */
  function RemoveProc(sys: Sys, p: nat, quit: bool, bytes: Stats, cfg: Config, now: int): (r: Sys)
    requires p in sys.procs && (sys.procs[p].active ==> sys.procs[p].instance < |sys.secs|)
  {
    var proc := sys.procs[p];
    var sys' := sys.(procs := sys.procs - {p});
    if proc.active && !quit then
      var sec := SessionClose(sys.secs[proc.instance], proc.sid, bytes, proc.invalidated, cfg, now);
      sys'.(secs := sys.secs[proc.instance := sec])
    else sys'
  }

  predicate Enabled(sys: Sys, ev: Event) {
    if OnSec(ev) then ev.i < |sys.secs| && SecEnabled(sys.secs[ev.i], sys.used, ev)
    else match ev
      case NewProcEv(p) => p !in sys.procs
      case CookieEv(p, cookie, c) =>
        && p in sys.procs
        && FoundBySid(sys.procs, cookie, c.prior)
      case ScriptExitEv(p, _) => p in sys.procs && sys.procs[p].scriptPending
      case DisconnectEv(p) => p in sys.procs
      case RemoveProcEv(p, _, _, _, _) =>
        p in sys.procs && (sys.procs[p].active ==> sys.procs[p].instance < |sys.secs|)
  }

  /** The SID that an event issues. */
  function Issued(sys: Sys, ev: Event): (r: set<Sid>)
    requires Enabled(sys, ev)
  {
    if ev.AuthInitEv? && Creates(sys.secs[ev.i], ev.r) then {Stamp(ev.r.raw.value, sys.secs[ev.i].index)} else {}
  }

  function Step(sys: Sys, ev: Event): (r: Sys)
    requires Enabled(sys, ev)
  {
    if OnSec(ev) then
      sys.(secs := sys.secs[ev.i := SecStep(sys.secs[ev.i], sys.used, ev)],
           used := sys.used + Issued(sys, ev),
           hooked := if ev.AuthInitEv? && ev.r.hooks == Hooks(true, true) then sys.hooked + Issued(sys, ev) else sys.hooked)
    else match ev
      case NewProcEv(p) => SetProc(sys, p, NEW_PROC)
      case CookieEv(p, cookie, c) => CookieReq(sys, p, cookie, c)
      case ScriptExitEv(p, ok) =>
        SetProc(sys, p, sys.procs[p].(scriptPending := false, status := if ok then Completed else sys.procs[p].status))
      case DisconnectEv(p) => SetProc(sys, p, sys.procs[p].(invalidated := true))
      case RemoveProcEv(p, quit, bytes, cfg, now) => RemoveProc(sys, p, quit, bytes, cfg, now)
  }

  // ---- Runs ----

  ghost predicate Start(sys: Sys) {
    && |sys.secs| < 0x1_0000 && sys.procs == map[] && sys.used == {} && sys.hooked == {}
    && forall i :: 0 <= i < |sys.secs| ==> sys.secs[i] == State(i, map[], multiset{}, multiset{})
  }

  predicate Feasible(sys: Sys, evs: seq<Event>)
    decreases |evs|, 0
  {
    evs == [] || (Feasible(sys, evs[..|evs| - 1]) && Enabled(Run(sys, evs[..|evs| - 1]), evs[|evs| - 1]))
  }

  function Run(sys: Sys, evs: seq<Event>): (r: Sys)
    requires Feasible(sys, evs)
    decreases |evs|, 1
  {
    if evs == [] then sys else Step(Run(sys, evs[..|evs| - 1]), evs[|evs| - 1])
  }

  // ---- The invariant ----

  function Holders(procs: map<nat, Proc>, sid: Sid): (r: set<nat>) {
    set p | p in procs && procs[p].active && procs[p].sid == sid
  }

  /** The accounting hooks of a SID issued where both are defined: opened at most
      once, and closed exactly when it has been opened and its entry is gone. */
  predicate Accounted(s: State, sid: Sid) {
    && s.opens[sid] <= 1
    && (if sid in s.db then
          s.db[sid].hooks == Hooks(true, true) && s.closes[sid] == 0 && (s.opens[sid] == 1 <==> s.db[sid].sessionIsOpen)
        else s.closes[sid] == s.opens[sid])
  }

  ghost predicate SecOk(s: State, i: nat, used: set<Sid>, hooked: set<Sid>) {
    && s.index == i
    && (forall sid :: sid in s.db ==> |sid| == SID_SIZE && InstanceOf(sid) == i && sid in used)
    && (forall sid :: sid in s.opens || sid in s.closes ==> sid in used)
    && (forall sid :: sid in hooked && |sid| == SID_SIZE && InstanceOf(sid) == i ==> Accounted(s, sid))
  }

  ghost predicate ProcOk(proc: Proc, n: nat, used: set<Sid>) {
    && (proc.status == Inactive ==> !proc.active && !proc.scriptPending) && (proc.filed ==> proc.active)
    && (proc.active ==> |proc.sid| == SID_SIZE && proc.sid in used && proc.instance == InstanceOf(proc.sid) < n)
  }

  /** Every entry counts at least the procs attached to it. */
  ghost predicate Counts(s: State, procs: map<nat, Proc>) {
    forall sid :: sid in s.db ==> s.db[sid].inUse >= |Holders(procs, sid)|
  }

  ghost predicate Inv(sys: Sys) {
    && |sys.secs| < 0x1_0000
    && sys.hooked <= sys.used
    && (forall sid :: sid in sys.used ==> |sid| == SID_SIZE)
    && (forall i :: 0 <= i < |sys.secs| ==> SecOk(sys.secs[i], i, sys.used, sys.hooked) && Counts(sys.secs[i], sys.procs))
    && (forall p :: p in sys.procs ==> ProcOk(sys.procs[p], |sys.secs|, sys.used))
  }
}
