/**
 When a login succeeds and as whom, said of the request and the answers and not of
 check_group.
 */
module Logins {
  import opened Wrappers
  import opened SecMod
  import opened Sessions
  import opened SessionSafety

  /** The group that the module leaves the client with. */
  function ModuleGroup(e: Entry, f: Finish): (g: string) {
    if e.hasModule && f.group.GivesGroup? then f.group.name else e.who.groupname
  }

  /** What the module has to say: its message can be had and it does not reject the group. */
  predicate ModuleAgrees(e: Entry, f: Finish) {
    e.hasModule ==> f.msgOk && !f.group.RejectsGroup?
  }

  /** What a certificate has to say, where one is asked for: it was verified; if users are
      named on certificates, one is named, and it is the one who asks, if that is known;
      and if groups are, then the group is one of them, where it is compared. */
  predicate CertificateAgrees(w: Identity, cfg: Config, group: string) {
    w.certAuth ==>
      && w.tlsAuthOk
      && (cfg.certUserOid ==> w.certUser != "" && (w.username == "" || w.username == w.certUser))
      && (cfg.certGroupOid ==>
            && (group == "" && w.reqGroup != "" ==> w.reqGroup in w.certGroups)
            && (w.username != "" || !cfg.certUserOid ==>
                  (if group == "" && w.reqGroup != "" then w.reqGroup else group) in w.certGroups))
  }

  /** The exact condition: a zero result completes the entry if and only if it had not
      failed, the module and the certificate agree, and the reply is sent. */
  lemma SuccessCompletes(e: Entry, cfg: Config, f: Finish)
    ensures AuthRes(e, Success, cfg, f).status == Completed <==>
            e.status != Failed && ModuleAgrees(e, f) && CertificateAgrees(e.who, cfg, ModuleGroup(e, f)) && f.sendOk
    ensures AuthRes(e, Success, cfg, f).status == Completed || AuthRes(e, Success, cfg, f).status == Failed
  {
  }

  /** A client whose group the module rejects is never completed. */
  lemma RejectedIsNotCompleted(e: Entry, result: AuthResult, cfg: Config, f: Finish)
    requires e.status != Completed && e.hasModule && f.group.RejectsGroup?
    ensures AuthRes(e, result, cfg, f).status != Completed
  {
    SuccessCompletes(e, cfg, f);
  }

  /** Whom check_group accepts: under the name of the request, else that of the certificate;
      and in the group the module leaves the client with, else the requested one where
      groups are named on certificates. */
  lemma AcceptedAs(e: Entry, cfg: Config, f: Finish)
    requires CheckGroup(e, cfg, f.group).Some?
    ensures var w := CheckGroup(e, cfg, f.group).value;
            && w.username == (if e.who.certAuth && cfg.certUserOid && e.who.username == "" then e.who.certUser else e.who.username)
            && (!e.who.certAuth || !cfg.certGroupOid || ModuleGroup(e, f) != "" ==> w.groupname == ModuleGroup(e, f))
            && (e.who.certAuth && cfg.certGroupOid && ModuleGroup(e, f) == "" && e.who.reqGroup != "" ==> w.groupname == e.who.reqGroup)
            && w.reqGroup == e.who.reqGroup && w.certUser == e.who.certUser && w.certGroups == e.who.certGroups
  {
  }

  /** Who a completed client is: the same, but the name is the module's if it has one. */
  lemma CompletedAs(e: Entry, cfg: Config, f: Finish)
    requires AuthRes(e, Success, cfg, f).status == Completed
    ensures var w := AuthRes(e, Success, cfg, f).who;
            && w.username == (if e.hasModule && f.username.Some? then f.username.value
                              else if e.who.certAuth && cfg.certUserOid && e.who.username == "" then e.who.certUser
                              else e.who.username)
            && (!e.who.certAuth || !cfg.certGroupOid || ModuleGroup(e, f) != "" ==> w.groupname == ModuleGroup(e, f))
            && (e.who.certAuth && cfg.certGroupOid && ModuleGroup(e, f) == "" && e.who.reqGroup != "" ==> w.groupname == e.who.reqGroup)
            && w.reqGroup == e.who.reqGroup && w.certUser == e.who.certUser && w.certGroups == e.who.certGroups
  {
    hide CheckGroup;
    assert CheckGroup(e, cfg, f.group).Some?;
    AcceptedAs(e, cfg, f);
  }

  /** A module that wants to ask again leaves the entry as it is, if it can be asked. */
  lemma ContinueKeeps(e: Entry, cfg: Config, f: Finish)
    ensures AuthRes(e, Continue, cfg, f) == if (e.hasModule ==> f.msgOk) && f.sendOk then e else e.(status := Failed)
    ensures AuthRes(e, Denied, cfg, f) == e.(status := Failed)
  {
  }

  // ---- The two requests ----

  /** The exact condition for a first request to complete a login, and its outcome
      otherwise: it waits for an answer, or has failed. */
  lemma InitOutcome(r: InitRequest, cfg: Config, now: int, f: Finish)
    ensures var e := NewEntry(r.pid, r.hooks, cfg, now).(hasModule := r.hasModule, who := r.who);
            var t := FirstEntry(r, cfg, now, f);
            && (t.status == Completed <==>
                  && r.methodOk && (r.hasModule ==> r.result == Success) && ModuleAgrees(e, f)
                  && CertificateAgrees(r.who, cfg, ModuleGroup(e, f)) && f.sendOk)
            && (t.status == Init <==> r.methodOk && r.hasModule && r.result == Continue && f.msgOk && f.sendOk)
            && (t.status == Init ==> t.who == r.who)
            && (t.status == Completed || t.status == Init || t.status == Failed)
            && t.pid == r.pid && t.hooks == r.hooks && t.inUse == 0 && !t.sessionIsOpen
  {
    hide CheckGroup, CertificateAgrees;
    SuccessCompletes(NewEntry(r.pid, r.hooks, cfg, now).(hasModule := r.hasModule, who := r.who, status := Init), cfg, f);
  }

  /** What an init does to the table: nothing, unless it is authentic and the worker has no
      entry but one that failed and is held by nobody; otherwise that entry goes, and a
      new one is there under its own SID if one could be made. */
  lemma InitMeans(s: State, r: InitRequest, cfg: Config, now: int, f: Finish)
    requires FoundByPid(s, r.pid, r.found) && (r.raw.Some? ==> |r.raw.value| == SID_SIZE && Stamp(r.raw.value, s.index) !in s.db)
    ensures var t := AuthInit(s, r, cfg, now, f);
            var free := r.found.Some? ==> s.db[r.found.value].status == Failed && s.db[r.found.value].inUse == 0;
            && (!r.authentic || !free ==> t == s)
            && (r.authentic && free ==>
                  && (forall x :: x in s.db ==> (x in t.db <==> Some(x) != r.found))
                  && (forall x :: x in s.db && x in t.db ==> t.db[x] == s.db[x])
                  && (forall x :: x in t.db && x !in s.db ==> r.raw.Some? && x == Stamp(r.raw.value, s.index))
                  && (r.raw.Some? ==> Stamp(r.raw.value, s.index) in t.db
                                      && t.db[Stamp(r.raw.value, s.index)] == FirstEntry(r, cfg, now, f)))
  {
    hide FirstEntry, Stamp;
  }

  /** The exact condition for a continuation to complete a login, and its outcome
      otherwise: it waits for another answer, or has failed. */
  lemma ContOutcome(s: State, sid: Sid, password: bool, result: AuthResult, cfg: Config, f: Finish)
    requires |sid| == SID_SIZE && sid in s.db
    ensures var e, t := s.db[sid], AuthCont(s, sid, password, result, cfg, f);
            && sid in t.db
            && var asked := (e.status == Init || e.status == Cont) && password && e.hasModule;
            && (t.db[sid].status == Completed <==>
                  asked && result == Success && ModuleAgrees(e, f) && CertificateAgrees(e.who, cfg, ModuleGroup(e, f)) && f.sendOk)
            && (t.db[sid].status == Cont <==> asked && result == Continue && f.msgOk && f.sendOk)
            && (t.db[sid].status == Cont ==> t.db[sid].who == e.who)
            && (t.db[sid].status == Completed || t.db[sid].status == Cont || t.db[sid].status == Failed)
            && t.db[sid].exptime == e.exptime && t.db[sid].pid == e.pid
  {
    hide CheckGroup, CertificateAgrees;
    var e := s.db[sid];
    SuccessCompletes(e.(status := Cont), cfg, f);
  }

  /** The index of the instance stands in the first two bytes of a SID, the high one
      first; the rest is what was generated. */
  lemma StampBytes(raw: Sid, index: nat)
    requires |raw| == SID_SIZE && index < 0x1_0000
    ensures |Stamp(raw, index)| == 32
    ensures Stamp(raw, index)[0] == index / 256 && Stamp(raw, index)[1] == index % 256 && Stamp(raw, index)[2..] == raw[2..]
  {
  }
}
