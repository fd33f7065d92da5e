/**
 The client entries of sec-mod and what each request does to them
 (src/sec-mod-auth.c, src/sec-mod-db.c), as functions from state to state.

 Answers of parts that are not modelled (authentication and accounting modules,
 the random generator, message sends, the clock) are parameters. The reloadable
 configuration of an entry's virtual host is a parameter of each request, so it
 may change between requests.
 */
module SecMod {
  import opened Wrappers

  // ---- Session identifiers ----

  type Sid = seq<byte>

  const SID_SIZE: nat := 32

  /** The index of the sec-mod instance that issued a SID. */
  function InstanceOf(sid: Sid): (i: nat)
    requires |sid| == SID_SIZE
  {
    256 * (sid[0] as int) + sid[1] as int
  }

  /** Stamps an instance index into freshly generated bytes. */
  function Stamp(raw: Sid, index: nat): (sid: Sid)
    requires |raw| == SID_SIZE
    ensures |sid| == SID_SIZE
    ensures index < 0x1_0000 ==> InstanceOf(sid) == index
  {
    [(index / 256) % 256, index % 256] + raw[2..]
  }

  // ---- Entries ----

  datatype Status = Inactive | Failed | Init | Cont | Completed

  type word64 = x: int | 0 <= x < 0x1_0000_0000_0000_0000

  datatype Stats = Stats(bytesIn: word64, bytesOut: word64)

  /** stats_add_to, on 64-bit counters. */
  function AddStats(a: Stats, b: Stats): (r: Stats) {
    Stats((a.bytesIn as int + b.bytesIn as int) % WORD64, (a.bytesOut as int + b.bytesOut as int) % WORD64)
  }

  function MaxStats(a: Stats, b: Stats): (r: Stats) {
    Stats(if b.bytesIn > a.bytesIn then b.bytesIn else a.bytesIn,
          if b.bytesOut > a.bytesOut then b.bytesOut else a.bytesOut)
  }

  datatype Reason = NoReason | UserDisconnect | ServerDisconnect | SessionTimeout | OtherReason

  /** Which accounting hooks the entry's virtual host has. */
  datatype Hooks = Hooks(open: bool, close: bool)

  datatype Identity = Identity(
    username: string, groupname: string, reqGroup: string,
    certUser: string, certGroups: seq<string>, tlsAuthOk: bool, certAuth: bool)

  datatype Entry = Entry(
    status: Status, inUse: nat, sessionIsOpen: bool,
    stats: Stats, saved: Stats,
    created: int, exptime: int, reason: Reason, pid: nat,
    who: Identity, hasModule: bool, hooks: Hooks)

  const AUTH_SLACK_TIME: int := 15

  datatype Config = Config(
    cookieTimeout: nat, persistentCookies: bool, certUserOid: bool, certGroupOid: bool)

  predicate Expired(e: Entry, now: int) {
    e.exptime != -1 && now >= e.exptime && e.inUse == 0
  }

  // ---- State ----

  /** One sec-mod process. opens and closes count the calls of the accounting
      hooks that open a session successfully and that close one. */
  datatype State = State(index: nat, db: map<Sid, Entry>, opens: multiset<Sid>, closes: multiset<Sid>)

  function SetEntry(s: State, sid: Sid, e: Entry): (r: State) {
    s.(db := s.db[sid := e])
  }

  /** Entries on which clean_entry calls the closing hook. */
  predicate ClosesSession(e: Entry) {
    e.hooks.close && e.sessionIsOpen
  }

  function Closing(s: State, sids: set<Sid>): (r: set<Sid>) {
    set sid | sid in s.db && sid in sids && ClosesSession(s.db[sid])
  }

  /** Takes a set of entries out of the database, closing their sessions. */
  function Remove(s: State, sids: set<Sid>): (r: State) {
    s.(db := s.db - sids, closes := s.closes + multiset(Closing(s, sids)))
  }

  // ---- Authentication ----

  /** What a module's auth_init or auth_pass returns: zero, ERR_AUTH_CONTINUE,
      or anything else. */
  datatype AuthResult = Success | Continue | Denied

  /** What a module's auth_group does, when it has that hook. */
  datatype GroupHook = NoGroupHook | RejectsGroup | GivesGroup(name: string)

  /** Answers needed to finish an authentication step: whether auth_msg works,
      the group hook, the name from auth_user, and whether the reply is sent. */
  datatype Finish = Finish(msgOk: bool, group: GroupHook, username: Option<string>, sendOk: bool)

  /** The certificate half of check_group, in two steps: the requested group is
      looked up on the certificate, then user and group must agree with it. */
  function CertGroup(w: Identity, cfg: Config): (r: Option<Identity>) {
    if w.certAuth && w.groupname == "" && w.reqGroup != "" && cfg.certGroupOid then
      if w.reqGroup in w.certGroups then Some(w.(groupname := w.reqGroup)) else None
    else Some(w)
  }

  function CertStatus(w: Identity, cfg: Config): (r: Option<Identity>) {
    if !w.certAuth then Some(w)
    else if cfg.certUserOid && w.certUser == "" then None
    else if !w.tlsAuthOk then None
    else if w.username == "" && cfg.certUserOid then
      Some(w.(username := w.certUser,
              groupname := if |w.certGroups| > 0 && cfg.certGroupOid && w.groupname == "" then w.certGroups[0] else w.groupname))
    else if cfg.certUserOid && w.username != w.certUser then None
    else if cfg.certGroupOid && w.groupname !in w.certGroups then None
    else Some(w)
  }

  /** check_group: the identity it accepts the client under, if it does. */
  function CheckGroup(e: Entry, cfg: Config, hook: GroupHook): (r: Option<Identity>) {
    if e.hasModule && hook.RejectsGroup? then None else
      var w := if e.hasModule && hook.GivesGroup? then e.who.(groupname := hook.name) else e.who;
      match CertGroup(w, cfg)
      case None => None
      case Some(w') => CertStatus(w', cfg)
  }

  /** The group check_group looks at on the certificate. */
  function GroupSeen(e: Entry, cfg: Config, hook: GroupHook): (g: string) {
    var g := if e.hasModule && hook.GivesGroup? then hook.name else e.who.groupname;
    if g == "" && e.who.reqGroup != "" && cfg.certGroupOid then e.who.reqGroup else g
  }

  /** What acceptance by check_group means: the module did not reject the group, and with a
      certificate the user is the one named on it. The group is one named on it, except in
      one case: no user name was known before, so the name is taken from the certificate
      and the group is not compared. */
  lemma CheckGroupBinds(e: Entry, cfg: Config, hook: GroupHook)
    requires CheckGroup(e, cfg, hook).Some?
    ensures e.hasModule ==> !hook.RejectsGroup?
    ensures e.who.certAuth ==> e.who.tlsAuthOk
    ensures e.who.certAuth && cfg.certUserOid ==> e.who.certUser != "" && CheckGroup(e, cfg, hook).value.username == e.who.certUser
    ensures e.who.certAuth && cfg.certGroupOid ==>
              (CheckGroup(e, cfg, hook).value.groupname in e.who.certGroups <==> GroupIsBound(e, cfg, hook))
  {
    var w := if e.hasModule && hook.GivesGroup? then e.who.(groupname := hook.name) else e.who;
    assert CertGroup(w, cfg).Some?;
  }

  predicate GroupIsBound(e: Entry, cfg: Config, hook: GroupHook) {
    || e.who.username != "" || !cfg.certUserOid
    || GroupSeen(e, cfg, hook) in e.who.certGroups
    || (GroupSeen(e, cfg, hook) == "" && e.who.certGroups != [])
  }

  /** handle_sec_auth_res */
  function AuthRes(e: Entry, result: AuthResult, cfg: Config, f: Finish): (r: Entry) {
    if result != Denied && e.hasModule && !f.msgOk then e.(status := Failed)
    else if result == Continue then if f.sendOk then e else e.(status := Failed)
    else if result == Success && e.status != Failed then
      match CheckGroup(e, cfg, f.group)
      case None => e.(status := Failed)
      case Some(w) =>
        e.(who := if e.hasModule && f.username.Some? then w.(username := f.username.value) else w,
           status := if f.sendOk then Completed else Failed)
    else e.(status := Failed)
  }

  /** The module says afterwards who the user is, and not as the certificate does. */
  predicate ModuleRenames(e: Entry, f: Finish) {
    e.hasModule && f.username.Some? && f.username.value != e.who.certUser
  }

  /** What a completed authentication with a certificate means. The name is asked of the
      module after check_group, so the user is the one named on the certificate exactly
      if the module does not say otherwise. The group is one named on it exactly under
      the condition of check_group. */
  lemma CertificateBinds(e: Entry, result: AuthResult, cfg: Config, f: Finish)
    requires e.who.certAuth && e.status != Completed && AuthRes(e, result, cfg, f).status == Completed
    ensures e.who.tlsAuthOk
    ensures cfg.certUserOid ==>
              e.who.certUser != "" && (AuthRes(e, result, cfg, f).who.username == e.who.certUser <==> !ModuleRenames(e, f))
    ensures cfg.certGroupOid ==>
              (AuthRes(e, result, cfg, f).who.groupname in e.who.certGroups <==> GroupIsBound(e, cfg, f.group))
  {
    hide CheckGroup, GroupIsBound;
    CheckGroupBinds(e, cfg, f.group);
  }

  const ALICE: Identity := Identity("", "", "", "alice", ["staff"], true, true)

  function FreshEntry(who: Identity): (e: Entry) {
    Entry(Init, 0, false, Stats(0, 0), Stats(0, 0), 0, 0, NoReason, 1, who, true, Hooks(false, false))
  }

  /** Both conditions can fail: the module's own user and group, on a certificate that
      names neither. */
  lemma ModuleDecides()
    ensures var cfg, f := Config(0, false, true, true), Finish(true, GivesGroup("admin"), Some("bob"), true);
            var r := AuthRes(FreshEntry(ALICE), Success, cfg, f);
            && r.status == Completed
            && r.who.username == "bob" && ALICE.certUser != "bob"
            && r.who.groupname == "admin" && "admin" !in ALICE.certGroups
  {
    var cfg := Config(0, false, true, true);
    assert CheckGroup(FreshEntry(ALICE), cfg, GivesGroup("admin")) == Some(ALICE.(username := "alice", groupname := "admin"));
  }

  /** What SEC_AUTH_INIT brings, with the answers it needs. `authentic` is whether
      its HMAC is right and recent; `found` is an entry that already carries the
      worker's pid; `raw` is what new_client_entry generates, if it succeeds;
      `methodOk` is whether set_module finds an enabled method. */
  datatype InitRequest = InitRequest(
    authentic: bool, pid: nat, found: Option<Sid>, raw: Option<Sid>, hooks: Hooks,
    methodOk: bool, hasModule: bool, who: Identity, result: AuthResult)

  /** find_client_entry_by_pid found `r.found`. */
  predicate FoundByPid(s: State, pid: nat, found: Option<Sid>) {
    match found
    case Some(sid) => pid != 0 && sid in s.db && s.db[sid].pid == pid
    case None => pid == 0 || forall sid :: sid in s.db ==> s.db[sid].pid != pid
  }

  const NOBODY: Identity := Identity("", "", "", "", [], false, false)

  function NewEntry(pid: nat, hooks: Hooks, cfg: Config, now: int): (e: Entry) {
    Entry(Inactive, 0, false, Stats(0, 0), Stats(0, 0), now, now + cfg.cookieTimeout + AUTH_SLACK_TIME,
          NoReason, pid, NOBODY, false, hooks)
  }

  /** The entry that SEC_AUTH_INIT leaves behind. */
  function FirstEntry(r: InitRequest, cfg: Config, now: int, f: Finish): (e: Entry) {
    var e := NewEntry(r.pid, r.hooks, cfg, now);
    if !r.methodOk then AuthRes(e, Denied, cfg, f)
    else if r.hasModule && r.result == Denied then
      AuthRes(e.(hasModule := true, who := NOBODY.(certAuth := r.who.certAuth)), Denied, cfg, f)
    else
      AuthRes(e.(hasModule := r.hasModule, who := r.who, status := Init),
              if r.hasModule && r.result == Continue then Continue else Success, cfg, f)
  }

  /** The worker's pid is free: no entry carries it, or one that failed and is
      held by nobody. */
  predicate PidIsFree(s: State, r: InitRequest)
    requires FoundByPid(s, r.pid, r.found)
  {
    r.found.Some? ==> s.db[r.found.value].status == Failed && s.db[r.found.value].inUse == 0
  }

  /** handle_sec_auth_init */
  function AuthInit(s: State, r: InitRequest, cfg: Config, now: int, f: Finish): (t: State)
    requires FoundByPid(s, r.pid, r.found)
    requires r.raw.Some? ==> |r.raw.value| == SID_SIZE
  {
    if !r.authentic || !PidIsFree(s, r) then s
    else
      var s' := if r.found.Some? then Remove(s, {r.found.value}) else s;
      if r.raw.None? then s'
      else SetEntry(s', Stamp(r.raw.value, s.index), FirstEntry(r, cfg, now, f))
  }

  predicate Creates(s: State, r: InitRequest)
    requires FoundByPid(s, r.pid, r.found)
  {
    r.authentic && PidIsFree(s, r) && r.raw.Some?
  }

  /** handle_sec_auth_cont */
  function AuthCont(s: State, sid: Sid, password: bool, result: AuthResult, cfg: Config, f: Finish): (t: State) {
    if |sid| != SID_SIZE || sid !in s.db then s
    else
      var e := s.db[sid];
      if (e.status != Init && e.status != Cont) || !password || !e.hasModule then
        SetEntry(s, sid, AuthRes(e, Denied, cfg, f))
      else
        SetEntry(s, sid, AuthRes(e.(status := Cont), result, cfg, f))
  }

  /** handle_sec_auth_ban_ip_reply */
  function BanReply(s: State, sid: Sid, ok: bool): (t: State) {
    if |sid| != SID_SIZE || sid !in s.db || ok then s
    else SetEntry(s, sid, s.db[sid].(status := Failed))
  }

  // ---- Sessions ----

  /** How handle_secm_session_open_cmd ends once the accounting hook agreed. */
  datatype OpenEnd = Sent | NoReply | ConfigFailed

  datatype OpenReply = Granted(username: string) | Refused | Silent

  /** The checks of a session open: right size, this instance, known, completed
      and not expired. */
  predicate MayOpen(s: State, sid: Sid, now: int) {
    && |sid| == SID_SIZE && InstanceOf(sid) == s.index
    && sid in s.db && s.db[sid].status == Completed && !Expired(s.db[sid], now)
  }

  /** handle_secm_session_open_cmd: hookOk is the accounting hook's answer. */
  function SessionOpen(s: State, sid: Sid, cfg: Config, now: int, hookOk: bool, end: OpenEnd): (r: (State, OpenReply)) {
    if |sid| != SID_SIZE || InstanceOf(sid) != s.index || sid !in s.db || s.db[sid].status != Completed then
      (s, Refused)
    else
      var e := s.db[sid];
      if Expired(e, now) then
        (SetEntry(s, sid, e.(status := Failed)), Refused)
      else if e.hooks.open && !e.sessionIsOpen && !hookOk then
        (SetEntry(s, sid, e.(status := Failed)), Refused)
      else
        var s' := if e.hooks.open && !e.sessionIsOpen then s.(opens := s.opens + multiset{sid}) else s;
        var e' := e.(sessionIsOpen := true);
        match end
        case NoReply => (SetEntry(s', sid, e'), Silent)
        case ConfigFailed => (SetEntry(s', sid, e'), Refused)
        case Sent =>
          (SetEntry(s', sid, e'.(reason := NoReason, inUse := e.inUse + 1,
                                 exptime := now + cfg.cookieTimeout + AUTH_SLACK_TIME)),
           Granted(e.who.username))
  }

  /** A session with no attached worker is dropped at once for these reasons. */
  predicate DropsAtOnce(e: Entry, cfg: Config) {
    && !cfg.persistentCookies
    && (e.reason == ServerDisconnect || e.reason == SessionTimeout || (e.sessionIsOpen && e.reason == UserDisconnect))
  }

  /** expire_client_entry, on the entry e of sid. */
  function Expire(s: State, sid: Sid, e: Entry, cfg: Config, now: int): (t: State) {
    var e := if e.inUse > 0 then e.(inUse := e.inUse - 1) else e;
    if e.inUse > 0 then SetEntry(s, sid, e)
    else if DropsAtOnce(e, cfg) then Remove(SetEntry(s, sid, e), {sid})
    else
      var exptime :=
        if e.reason != UserDisconnect then now + cfg.cookieTimeout + AUTH_SLACK_TIME
        else if !cfg.persistentCookies || now + AUTH_SLACK_TIME >= e.exptime then now + AUTH_SLACK_TIME
        else e.exptime;
      SetEntry(s, sid, e.(exptime := exptime, pid := 0))
  }

  /** handle_secm_session_close_cmd, with the reply sent. */
  function SessionClose(s: State, sid: Sid, bytes: Stats, serverDisconnected: bool, cfg: Config, now: int): (t: State) {
    if |sid| != SID_SIZE || sid !in s.db || s.db[sid].status != Completed then s
    else
      var e := s.db[sid];
      var stats := MaxStats(e.stats, bytes);
      Expire(s, sid,
             e.(stats := Stats(0, 0), saved := AddStats(e.saved, stats),
                reason := if serverDisconnected then ServerDisconnect else e.reason),
             cfg, now)
  }

  /** handle_sec_auth_stats_cmd */
  function UpdateStats(s: State, sid: Sid, bytes: Stats, reason: Reason, pid: nat): (t: State) {
    if |sid| != SID_SIZE || sid !in s.db || s.db[sid].status != Completed then s
    else
      var e := s.db[sid];
      SetEntry(s, sid, e.(stats := MaxStats(e.stats, bytes), pid := pid,
                          reason := if reason != NoReason then reason else e.reason))
  }

  // ---- Maintenance, termination, shutdown ----

  /** cleanup_client_entries */
  function Cleanup(s: State, now: int): (t: State) {
    Remove(s, set sid | sid in s.db && Expired(s.db[sid], now))
  }

  /** terminate_user_sessions */
  function TerminateUser(s: State, username: string): (t: State) {
    if username == "" then s
    else Remove(s, set sid | sid in s.db && s.db[sid].who.username == username)
  }

  /** terminate_session_by_sid, when its printable identifier is that of `found`. */
  function TerminateSid(s: State, found: Option<Sid>): (t: State) {
    if found.None? then s else Remove(s, {found.value})
  }

  /** The fold of the running counters at shutdown. */
  function Fold(e: Entry): (r: Entry) {
    if e.sessionIsOpen then e.(saved := AddStats(e.saved, e.stats), stats := Stats(0, 0)) else e
  }

  /** sec_mod_client_db_deinit */
  function Shutdown(s: State): (t: State) {
    Remove(s, s.db.Keys)
  }
}
