/** The handlers, on the objects they change.  Each contract gives the effect of the whole request, as one of the
    relations in Effects; the methods are tied to steps of the machines in Presence, Accounts and Messages. */
module LogicSystems {
  import opened Constants
  import opened Wrappers
  import opened Framing
  import opened Sessions
  import opened Effects
  import Presence
  import Accounts
  import Messages
  import DBManagers

  predicate ValidateCredentials(username: string, password: string) {
    username != "" && password != "" && MIN_USERNAME_LEN <= |username| <= MAX_USERNAME_LEN
    && MIN_PASSWORD_LEN <= |password| <= MAX_PASSWORD_LEN
  }

  /** `static_cast<short>` of an int. */
  function IntToShort(n: int): (short: Short)
    ensures (short - n) % 0x1_0000 == 0
  {
    ToShort(n % 0x1_0000)
  }

  class LogicSystem {
    const db: DBManagers.DBManager
    const users: UserManager
    var outbox: seq<Sent>  // every call of Send, in order
    ghost const all: set<CSession>
    ghost var saved: seq<Messages.Message>
    ghost var ops: seq<Messages.Op<CSession>>  // the steps of the delivery machine so far

    /** The delivery machine's state: message table, history of saves, offers. */
    ghost function Delivery(): Messages.State<CSession>
      reads this`outbox, this`saved, db`messages
    {
      Messages.State(db.messages, saved, Offers(outbox))
    }

    ghost predicate Valid()
      reads this`outbox, this`saved, this`ops, db, users, all
    {
      db.Valid() && Coherent(users, all) && Messages.IsRun(ops, Delivery())
    }

    /** All that a handler may change, as one value. */
    ghost function Now(): Snapshot
      reads this`outbox, this`saved, this`ops, db, users, all
    {
      Snapshot(db.Tables(), db.history, Delivery(), ops, View(users, all), outbox)
    }

    constructor (hash: string -> string, ghost sessions: set<CSession>)
      requires forall s :: s in sessions ==> !s.expired && s.loginUid == 0
      ensures Valid() && outbox == [] && all == sessions && fresh(db) && fresh(users)
    {
      db := new DBManagers.DBManager(hash);
      users := new UserManager();
      outbox, all, saved, ops := [], sessions, [], [];
    }

    /** What holds between any two steps of the worker, whatever the handlers have done so far: at most
        one open session for each account, and that one registered; live pushes with increasing ids; each
        message to an account in one batch or still undelivered, exactly if all pulls for the account were
        clean, and in at most one batch if they all marked; accounts and friendships as the accepted
        requests left them. */
    lemma Guarantees(s: CSession, uid: int)
      requires Valid()
      ensures Presence.SingleDevice(View(users, all)) && Presence.Registered(View(users, all))
      ensures Messages.Increasing(Messages.Pushed(Offers(outbox)))
              && Messages.Increasing(Messages.PushedTo(Offers(outbox), s))
      ensures uid > 0 ==>
                (Messages.Conserved(Messages.AccountOf(Delivery(), uid))
                 <==> Messages.CleanRun(Messages.Empty(), ops, uid))
      ensures uid > 0 && Messages.AlwaysMarks(ops, uid) ==> Messages.Increasing(Messages.Handed(Offers(outbox), uid))
      ensures Accounts.Inv(db.Tables(), db.hash)
    {
      Presence.InvIsSingleDevice(View(users, all));
      Messages.PushedAtMostOnce(ops, s);
      if uid > 0 {
        Messages.Conservation(ops, uid);
        Messages.AtMostOneBatch(ops, uid);
      }
      db.HasInv();
    }

    /** `session->Send(...)`. */
    method Emit(session: CSession, id: int, payload: Payload, kind: Kind)
      modifies this`outbox
      ensures outbox == old(outbox) + [Sent(session, id, payload, kind)]
      ensures Offers(outbox) == Offers(old(outbox)) + OfferOf(Sent(session, id, payload, kind))
    {
      OffersAppend(outbox, Sent(session, id, payload, kind));
      outbox := outbox + [Sent(session, id, payload, kind)];
    }

    /** The answer to a request, when it hands out no messages. */
    method Answer(session: CSession, id: int, payload: Payload)
      requires Valid() && !payload.Offline? && !payload.ChatMessage?
      modifies this`outbox
      ensures Valid() && Now() == old(Now()).(outbox := old(outbox) + [Sent(session, id, payload, Reply)])
      ensures Stopped(all) == old(Stopped(all))
    {
      EmitPlain(session, id, payload, Reply);
    }

    method EmitPlain(session: CSession, id: int, payload: Payload, kind: Kind)
      requires !payload.Offline? && !payload.ChatMessage?
      modifies this`outbox
      ensures outbox == old(outbox) + [Sent(session, id, payload, kind)] && Delivery() == old(Delivery())
      ensures db.Valid() == old(db.Valid()) && View(users, all) == old(View(users, all))
    {
      Emit(session, id, payload, kind);
      assert Offers(outbox) == old(Offers(outbox));
    }

    /** The table, the saves and the offers have changed by one step of the delivery machine. */
    ghost method Record(before: Messages.State<CSession>, op: Messages.Op<CSession>)
      requires Messages.IsRun(ops, before) && Messages.Possible(before, op) && Delivery() == Messages.Apply(before, op)
      modifies this`ops
      ensures Messages.IsRun(ops, Delivery()) && ops == old(ops) + [op]
    {
      Messages.RunAppend(ops, before, op);
      ops := ops + [op];
    }

    /** Send to whatever session is registered for an account, if there is one. */
    method PushTo(uid: int, id: int, payload: Payload) returns (ghost target: Option<CSession>)
      requires Coherent(users, all)
      modifies this`outbox, users
      ensures Coherent(users, all)
      ensures View(users, all) == old(View(users, all)).(online := users.online)
      ensures (target, users.online) == Presence.Find(old(View(users, all)), uid)
      ensures outbox == old(outbox) + if target.Some? then [Sent(target.value, id, payload, LivePush)] else []
      ensures Offers(outbox) == Offers(old(outbox))
              + if target.Some? then OfferOf(Sent(target.value, id, payload, LivePush)) else []
    {
      var session := Find(uid);
      target := ToOption(session);
      if session != null {
        Emit(session, id, payload, LivePush);
      }
    }

    method RegisterRequest(session: CSession, body: Body, env: Env) returns (ghost ins: Accounts.Insert)
      requires Valid()
      modifies this`outbox, db`users, db`registered, db`history
      ensures Valid()
      ensures Registers(Deal(session, MSG_REGISTER_REQ, body, env, ins, None, None, old(Now()), Now()))
    {
      ghost var before := Now();
      ins := Accounts.Fails;
      var creds := ReadCredentials(body);
      if creds.None? {
        Answer(session, MSG_REGISTER_RSP, Failure);
        RegisterRefused(Deal(session, MSG_REGISTER_REQ, body, env, ins, None, None, before, Now()));
        return;
      }
      var ok;
      ok, ins := Enrol(creds.value.0, creds.value.1, env);
      Answer(session, MSG_REGISTER_RSP, if ok then Done else Failure);
      RegistersByParts(Deal(session, MSG_REGISTER_REQ, body, env, ins, None, None, before, Now()), ok);
    }

    method Enrol(username: string, password: string, env: Env) returns (ok: bool, ghost ins: Accounts.Insert)
      requires Valid()
      modifies db`users, db`registered, db`history
      ensures Valid() && (ok ==> ins.Picks?)
      ensures Now() == old(Now()).(tables := db.Tables(),
                                   history := old(db.history) + [Accounts.SignUp(username, password, ins)])
      ensures ok <==> username != "" && password != "" && !env.fails
                      && forall reg :: reg in old(db.registered) ==> reg.name != username
      ensures db.registered == old(db.registered)
              + if ok then [Accounts.Registration(ins.rowid, username, password)] else []
    {
      ok, ins := db.RegisterUser(username, password, env.fails, env.gap);
    }

    /** The checks both handlers begin with.  Each failure is answered with an error of its own text. */
    method ReadCredentials(body: Body) returns (creds: Option<(string, string)>)
      ensures creds.Some? <==> Credible(body)
      ensures creds.Some? ==> creds.value == (body.username.value, body.password.value)
    {
      if body.NotJson? {
        return None;
      }
      if body.username.Missing? || body.password.Missing? {
        return None;
      }
      if body.username.WrongType? || body.password.WrongType? { // get<std::string> throws
        return None;
      }
      if !ValidateCredentials(body.username.value, body.password.value) {
        return None;
      }
      creds := Some((body.username.value, body.password.value));
    }

    /** Without a database error the login reaches account `u` exactly if the body has a username and a password of
        admissible lengths, and an accepted registration of that username with a password of equal hash got `u`. */
    method LoginRequest(session: CSession, body: Body, env: Env) returns (ghost login: Option<int>)
      requires Valid() && session in all && !session.expired && Presence.GapsIn(env.gaps, all)
      modifies this`outbox, this`ops, db`messages, users, all`stop, all`loginUid
      ensures Valid()
      ensures old(Stopped(all)) <= Stopped(all)
      ensures env.fails ==> login == None
      ensures !env.fails ==> forall u :: login == Some(u) <==>
                && body.Json? && body.username.Is? && body.password.Is?
                && 2 <= |body.username.value| <= 32 && 3 <= |body.password.value| <= 64
                && exists reg :: reg in db.registered && reg.uid == u && reg.name == body.username.value
                                 && db.hash(reg.password) == db.hash(body.password.value)
      ensures LogsIn(Deal(session, MSG_LOGIN_REQ, body, env, Accounts.Fails, None, login, old(Now()), Now()), db.hash)
    {
      ghost var before := Now();
      var ok, uid;
      ok, uid, login := Authenticate(body, env);
      ghost var d := Deal(session, MSG_LOGIN_REQ, body, env, Accounts.Fails, None, login, before, before);
      if ok {
        ghost var batch := Messages.GetOffline(db.messages, uid, env.rows, env.marks).1;
        Succeed(session, uid, env);
        LogsInByParts(d.(after := Now()), db.hash, uid, batch);
      } else {
        Answer(session, MSG_LOGIN_RSP, Failure);
        LoginRefused(d.(after := Now()), db.hash);
      }
    }

    method Authenticate(body: Body, env: Env) returns (ok: bool, uid: int, ghost login: Option<int>)
      requires Valid()
      ensures login == (if ok then Some(uid) else None) && (ok ==> uid > 0)
      ensures env.fails ==> !ok
      ensures !env.fails ==> forall u :: login == Some(u) <==>
                && Credible(body)
                && exists reg :: reg in db.registered && reg.uid == u && reg.name == body.username.value
                                 && db.hash(reg.password) == db.hash(body.password.value)
    {
      var creds := ReadCredentials(body);
      if creds.None? {
        return false, 0, None;
      }
      ok, uid := db.LoginUser(creds.value.0, creds.value.1, env.fails);
      login := if ok then Some(uid) else None;
      assert forall u :: login == Some(u) <==> (ok, uid) == (true, u);
    }

    method Succeed(session: CSession, uid: int, env: Env)
      requires Valid() && session in all && !session.expired && uid > 0 && Presence.GapsIn(env.gaps, all)
      modifies this`outbox, this`ops, db`messages, users, all`stop, all`loginUid
      ensures Valid() && saved == old(saved)
      ensures old(Stopped(all)) <= Stopped(all)
      ensures View(users, all) == Presence.LoginAround(old(View(users, all)), session, uid, env.gaps)
      ensures Delivery() == Messages.Apply(old(Delivery()), Messages.Pull(uid, env.rows, env.marks))
      ensures ops == old(ops) + [Messages.Pull(uid, env.rows, env.marks)]
      ensures var batch := Messages.GetOffline(old(db.messages), uid, env.rows, env.marks).1;
              outbox == old(outbox)
              + (if batch == [] then [] else [Sent(session, MSG_OFFLINE_MSG_RSP, Offline(uid, batch), AutoBatch)])
              + [Sent(session, MSG_LOGIN_RSP, LoggedIn(uid, |batch|), Reply)]
    {
      var offlineCount := Welcome(session, uid, env);
      Answer(session, MSG_LOGIN_RSP, LoggedIn(uid, offlineCount));
    }

    /** What a login does when the credentials are right, before it is answered. */
    method Welcome(session: CSession, uid: int, env: Env) returns (offlineCount: nat)
      requires Valid() && session in all && !session.expired && uid > 0 && Presence.GapsIn(env.gaps, all)
      modifies this`outbox, this`ops, db`messages, users, all`stop, all`loginUid
      ensures Valid() && saved == old(saved)
      ensures old(Stopped(all)) <= Stopped(all)
      ensures var batch := Messages.GetOffline(old(db.messages), uid, env.rows, env.marks).1;
              && offlineCount == |batch|
              && outbox == old(outbox)
                 + if batch == [] then [] else [Sent(session, MSG_OFFLINE_MSG_RSP, Offline(uid, batch), AutoBatch)]
      ensures View(users, all) == Presence.LoginAround(old(View(users, all)), session, uid, env.gaps)
      ensures Delivery() == Messages.Apply(old(Delivery()), Messages.Pull(uid, env.rows, env.marks))
      ensures ops == old(ops) + [Messages.Pull(uid, env.rows, env.marks)]
    {
      Admit(session, uid, env.gaps);
      var batch := PullOffline(session, uid, MSG_OFFLINE_MSG_RSP, AutoBatch, env);
      offlineCount := |batch|;
    }

    /** The four steps that kick the old session and put the new one in its place, with the closes that
        other threads make between them: the session ends up registered and, if it is still open, bound; the
        session that was registered before and those in the gaps are closed, and no others. */
    method Admit(session: CSession, uid: int, gaps: Presence.Gaps<CSession>)
      requires Coherent(users, all) && session in all && !session.expired && uid > 0 && Presence.GapsIn(gaps, all)
      modifies users, all`stop, all`loginUid
      ensures Coherent(users, all)
      ensures old(Stopped(all)) <= Stopped(all)
      ensures View(users, all) == Presence.LoginAround(old(View(users, all)), session, uid, gaps)
      ensures uid in users.online && users.online[uid] == session && (!session.stop ==> session.loginUid == uid)
      ensures forall t :: t in all ==>
                var closed := || (uid in old(users.online) && old(users.online)[uid] == t && !t.expired)
                              || t in gaps.afterLookup || t in gaps.afterKick || t in gaps.afterBind;
                && (t.stop <==> old(t.stop) || closed)
                && (t != session && !closed ==> t.loginUid == old(t.loginUid))
    {
      ghost var before := View(users, all);
      ViewIsQuiet(users, all, Presence.Idle);
      Presence.LoginEffect(before, session, uid, gaps);
      Replace(session, uid, gaps);
      forall t | t in all
        ensures Presence.Open(before, t) <==> !old(t.stop)
        ensures Presence.Open(View(users, all), t) <==> !t.stop
        ensures before.sessions[t].uid == old(t.loginUid) && View(users, all).sessions[t].uid == t.loginUid
      {
      }
    }

    method Replace(session: CSession, uid: int, gaps: Presence.Gaps<CSession>)
      requires Coherent(users, all) && session in all && !session.expired && uid > 0 && Presence.GapsIn(gaps, all)
      modifies users, all`stop, all`loginUid
      ensures Coherent(users, all)
      ensures old(Stopped(all)) <= Stopped(all)
      ensures View(users, all) == Presence.LoginAround(old(View(users, all)), session, uid, gaps)
    {
      ghost var before := View(users, all);
      ViewIsQuiet(users, all, Presence.Idle);
      Presence.LoginAroundKeepsInv(before, session, uid, gaps);
      var oldSession := LookUp(session, uid, gaps);
      TakeOver(before, session, uid, oldSession, gaps);
    }

    method TakeOver(ghost before: Presence.State<CSession>, session: CSession, uid: int, oldSession: CSession?,
                    gaps: Presence.Gaps<CSession>)
      requires Presence.Inv(before) && Presence.Quiet(before) && Presence.Enabled(before, Presence.Lookup(session, uid))
      requires before.sessions.Keys == all && Presence.GapsIn(gaps, all)
      requires oldSession != null ==> oldSession in all
      requires ViewAt(users, all, Presence.Found(session, uid, ToOption(oldSession)))
            == Presence.AfterLookup(before, session, uid, gaps)
      modifies users, all`stop, all`loginUid
      ensures View(users, all) == Presence.LoginAround(before, session, uid, gaps)
      ensures old(Stopped(all)) <= Stopped(all)
    {
      Kick(before, session, uid, oldSession, gaps, gaps.afterKick);
      Bind(before, session, uid, gaps, gaps.afterBind);
      Register(before, session, uid, gaps);
    }

    method LookUp(session: CSession, uid: int, gaps: Presence.Gaps<CSession>) returns (oldSession: CSession?)
      requires Coherent(users, all) && session in all && !session.expired && uid > 0 && Presence.GapsIn(gaps, all)
      modifies users, all`stop, all`loginUid
      ensures oldSession != null ==> oldSession in all
      ensures old(Stopped(all)) <= Stopped(all)
      ensures ViewAt(users, all, Presence.Found(session, uid, ToOption(oldSession)))
           == Presence.AfterLookup(old(View(users, all)), session, uid, gaps)
    {
      ghost var before := View(users, all);
      ViewIsQuiet(users, all, Presence.Idle);
      Presence.StepExact(before, Presence.Lookup(session, uid));
      oldSession := users.GetSessionByUid(uid, all);
      ghost var w := Presence.Found(session, uid, ToOption(oldSession));
      assert ViewAt(users, all, w) == Presence.Apply(before, Presence.Lookup(session, uid));
      CloseOthers(gaps.afterLookup, w);
    }

    /** `before` is the state in which the login began. */
    method Kick(ghost before: Presence.State<CSession>, session: CSession, uid: int, oldSession: CSession?,
                ghost gaps: Presence.Gaps<CSession>, closes: seq<CSession>)
      requires Presence.Inv(before) && Presence.Quiet(before) && Presence.Enabled(before, Presence.Lookup(session, uid))
      requires before.sessions.Keys == all && Presence.GapsIn(gaps, all) && closes == gaps.afterKick
      requires oldSession != null ==> oldSession in all
      requires ViewAt(users, all, Presence.Found(session, uid, ToOption(oldSession)))
            == Presence.AfterLookup(before, session, uid, gaps)
      modifies users, all`stop, all`loginUid
      ensures ViewAt(users, all, Presence.Cleared(session, uid)) == Presence.AfterKick(before, session, uid, gaps)
      ensures old(Stopped(all)) <= Stopped(all)
    {
      ghost var w := Presence.Found(session, uid, ToOption(oldSession));
      ghost var found := ViewAt(users, all, w);
      Presence.AfterLookupKeeps(before, session, uid, gaps);
      Presence.KickEffect(found);
      Presence.LeapKeepsInv(found, Presence.KickAndClose);
      if oldSession != null {
        oldSession.Close(users, all, w);
      }
      assert ViewAt(users, all, Presence.Cleared(session, uid)) == Presence.Leap(found, Presence.KickAndClose);
      CloseOthers(closes, Presence.Cleared(session, uid));
    }

    method Bind(ghost before: Presence.State<CSession>, session: CSession, uid: int,
                ghost gaps: Presence.Gaps<CSession>, closes: seq<CSession>)
      requires Presence.Inv(before) && Presence.Quiet(before) && Presence.Enabled(before, Presence.Lookup(session, uid))
      requires before.sessions.Keys == all && Presence.GapsIn(gaps, all) && closes == gaps.afterBind
      requires ViewAt(users, all, Presence.Cleared(session, uid)) == Presence.AfterKick(before, session, uid, gaps)
      modifies users, all`stop, all`loginUid
      ensures ViewAt(users, all, Presence.Bound(session, uid)) == Presence.AfterBind(before, session, uid, gaps)
      ensures old(Stopped(all)) <= Stopped(all)
    {
      ghost var cleared := ViewAt(users, all, Presence.Cleared(session, uid));
      Presence.AfterKickKeeps(before, session, uid, gaps);
      Presence.StepExact(cleared, Presence.Bind);
      SetLoginUid(session, uid);
      CloseOthers(closes, Presence.Bound(session, uid));
    }

    method SetLoginUid(session: CSession, uid: int)
      requires session in all
      modifies session`loginUid
      ensures ViewAt(users, all, Presence.Bound(session, uid))
           == Presence.Apply(old(ViewAt(users, all, Presence.Cleared(session, uid))), Presence.Bind)
    {
      session.loginUid := uid;
    }

    method Register(ghost before: Presence.State<CSession>, session: CSession, uid: int,
        ghost gaps: Presence.Gaps<CSession>)
      requires Presence.Enabled(before, Presence.Lookup(session, uid))
      requires ViewAt(users, all, Presence.Bound(session, uid)) == Presence.AfterBind(before, session, uid, gaps)
      modifies users
      ensures View(users, all) == Presence.LoginAround(before, session, uid, gaps)
    {
      users.AddOnlineUser(uid, session);
    }

    /** Closes by other threads. */
    method CloseOthers(closes: seq<CSession>, ghost w: Presence.Worker<CSession>)
      requires CoherentAt(users, all, w) && !w.Kicking? && forall s :: s in closes ==> s in all
      modifies users, all`stop, all`loginUid
      ensures CoherentAt(users, all, w)
      ensures ViewAt(users, all, w) == Presence.CloseEach(old(ViewAt(users, all, w)), closes)
      ensures Stopped(all) == old(Stopped(all)) + Presence.SetOf(closes)
    {
      ghost var before := ViewAt(users, all, w);
      var i := 0;
      while i < |closes|
        invariant 0 <= i <= |closes| && CoherentAt(users, all, w)
        invariant ViewAt(users, all, w) == Presence.CloseEach(before, closes[..i])
        invariant Stopped(all) == old(Stopped(all)) + Presence.SetOf(closes[..i])
      {
        SetOfOneMore(closes, i);
        CloseNext(closes, i, before, w);
        i := i + 1;
      }
      assert closes[..i] == closes;
    }

    method CloseNext(closes: seq<CSession>, i: nat, ghost before: Presence.State<CSession>,
                     ghost w: Presence.Worker<CSession>)
      requires CoherentAt(users, all, w) && !w.Kicking? && i < |closes| && closes[i] in all
      requires ViewAt(users, all, w) == Presence.CloseEach(before, closes[..i])
      modifies users, all`stop, all`loginUid
      ensures CoherentAt(users, all, w)
      ensures ViewAt(users, all, w) == Presence.CloseEach(before, closes[..i + 1])
      ensures Stopped(all) == old(Stopped(all)) + {closes[i]}
    {
      assert closes[..i + 1][..i] == closes[..i];
      closes[i].Close(users, all, w);
    }

    /** The last reference to a session is gone: `weak_ptr::lock` fails from then on, and the destructor
        calls `Close`. */
    method Destroy(session: CSession)
      requires Valid() && session in all && !session.expired
      modifies session`expired, session`stop, session`loginUid, users
      ensures Valid() && session.expired
      ensures View(users, all) == Presence.Leap(old(View(users, all)), Presence.Destroy(session))
    {
      ghost var before := View(users, all);
      ViewIsQuiet(users, all, Presence.Idle);
      Presence.DestroyEffect(before, session);
      session.Close(users, all, Presence.Idle);
      Expire(session);
    }

    method Expire(session: CSession)
      requires session in all
      modifies session`expired
      ensures session.expired
      ensures var before := old(View(users, all));
              View(users, all) == Presence.Put(before, session, before.sessions[session].(alive := false))
    {
      session.expired := true;
    }

    /** `GetSessionByUid`, which may erase an expired entry. */
    method Find(uid: int) returns (session: CSession?)
      requires Coherent(users, all)
      modifies users
      ensures Coherent(users, all) && View(users, all) == old(View(users, all)).(online := users.online)
      ensures (ToOption(session), users.online) == Presence.Find(old(View(users, all)), uid)
      ensures session != null ==> session in all && !session.expired
    {
      ghost var before := View(users, all);
      Presence.StepExact(before, Presence.Peek(uid));
      session := users.GetSessionByUid(uid, all);
      assert View(users, all) == Presence.Apply(before, Presence.Peek(uid));
    }

    /** Fetch, mark and send the offline messages of an account; login sends only a non-empty batch. */
    method PullOffline(session: CSession, uid: int, id: int, kind: Kind, env: Env)
      returns (batch: seq<Messages.Message>)
      requires Valid()
      modifies this`outbox, this`ops, db`messages
      ensures Valid()
      ensures batch == Messages.GetOffline(old(db.messages), uid, env.rows, env.marks).1
      ensures outbox == old(outbox)
              + if batch == [] && kind == AutoBatch then [] else [Sent(session, id, Offline(uid, batch), kind)]
      ensures Delivery() == Messages.Apply(old(Delivery()), Messages.Pull(uid, env.rows, env.marks))
      ensures View(users, all) == old(View(users, all))
      ensures ops == old(ops) + [Messages.Pull(uid, env.rows, env.marks)] && Stopped(all) == old(Stopped(all))
    {
      ghost var before, op := Delivery(), Messages.Pull(uid, env.rows, env.marks);
      batch := FetchAndSend(session, uid, id, kind, env);
      Record(before, op);
    }

    method FetchAndSend(session: CSession, uid: int, id: int, kind: Kind, env: Env)
      returns (batch: seq<Messages.Message>)
      modifies this`outbox, db`messages
      ensures batch == Messages.GetOffline(old(db.messages), uid, env.rows, env.marks).1
      ensures outbox == old(outbox)
              + if batch == [] && kind == AutoBatch then [] else [Sent(session, id, Offline(uid, batch), kind)]
      ensures Delivery() == Messages.Apply(old(Delivery()), Messages.Pull(uid, env.rows, env.marks))
      ensures db.Valid() == old(db.Valid()) && View(users, all) == old(View(users, all))
      ensures Stopped(all) == old(Stopped(all))
    {
      ghost var before := Delivery();
      batch := Fetch(uid, env);
      SendBatch(session, uid, id, kind, batch);
      Messages.PullByParts(before, Messages.Pull(uid, env.rows, env.marks), Delivery());
    }

    method Fetch(uid: int, env: Env) returns (batch: seq<Messages.Message>)
      modifies db`messages
      ensures (db.messages, batch) == Messages.GetOffline(old(db.messages), uid, env.rows, env.marks)
      ensures db.Valid() == old(db.Valid()) && View(users, all) == old(View(users, all))
    {
      batch := db.GetOfflineMessages(uid, env.rows, env.marks);
    }

    method SendBatch(session: CSession, uid: int, id: int, kind: Kind, batch: seq<Messages.Message>)
      modifies this`outbox
      ensures outbox == old(outbox)
              + if batch == [] && kind == AutoBatch then [] else [Sent(session, id, Offline(uid, batch), kind)]
      ensures Offers(outbox) == Offers(old(outbox)) + if batch == [] then [] else [Messages.Batch(uid, batch)]
      ensures db.Valid() == old(db.Valid()) && View(users, all) == old(View(users, all))
    {
      if batch != [] || kind != AutoBatch {
        Emit(session, id, Offline(uid, batch), kind);
      }
    }

    method GetFriendListRequest(session: CSession, body: Body, env: Env)
      requires Valid() && session in all
      modifies this`outbox
      ensures Valid()
      ensures ListsFriends(
                Deal(session, MSG_GET_FRIEND_LIST_REQ, body, env, Accounts.Fails, None, None, old(Now()), Now()))
    {
      ghost var d := Deal(session, MSG_GET_FRIEND_LIST_REQ, body, env, Accounts.Fails, None, None, Now(), Now());
      var uid := session.loginUid;
      if uid == 0 {
        Answer(session, MSG_GET_FRIEND_LIST_RSP, Failure);
        ListRefused(d.(after := Now()));
        return;
      }
      var friends := db.GetFriendList(uid, env.rows);
      Answer(session, MSG_GET_FRIEND_LIST_RSP, Friends(friends));
      ListsFriendsByParts(d.(after := Now()), friends);
    }

    method AddFriendRequest(session: CSession, body: Body, env: Env) returns (ghost target: Option<CSession>)
      requires Valid() && session in all
      modifies this`outbox, db`friends, db`befriended, db`history, users
      ensures Valid()
      ensures Befriends(Deal(session, MSG_ADD_FRIEND_REQ, body, env, Accounts.Fails, target, None, old(Now()), Now()))
    {
      ghost var d := Deal(session, MSG_ADD_FRIEND_REQ, body, env, Accounts.Fails, None, None, Now(), Now());
      target := None;
      var uid := session.loginUid;
      var friendUid := ReadFriendUid(body, uid);
      if friendUid.None? {
        Answer(session, MSG_ADD_FRIEND_RSP, Failure);
        BefriendRefused(d.(after := Now()));
        return;
      }
      var ok;
      ok, target := Befriend(uid, friendUid.value, env);
      Answer(session, MSG_ADD_FRIEND_RSP, if ok then Done else Failure);
      BefriendsByParts(d.(target := target, after := Now()), ok);
    }

    /** The checks of a friend request.  Each failure is answered with an error of its own text. */
    method ReadFriendUid(body: Body, uid: int) returns (friendUid: Option<int>)
      ensures friendUid == if uid != 0 && Befriendable(body, uid) then Some(body.friendUid.value) else None
    {
      if body.NotJson? {
        return None;
      }
      if body.friendUid.Missing? {
        return None;
      }
      if uid == 0 {
        return None;
      }
      if body.friendUid.WrongType? { // get<int64_t> throws
        return None;
      }
      if body.friendUid.value <= 0 {
        return None;
      }
      if uid == body.friendUid.value {
        return None;
      }
      friendUid := Some(body.friendUid.value);
    }

    /** Store the pair and tell the new friend, if online. */
    method Befriend(uid: int, friendUid: int, env: Env) returns (ok: bool, ghost target: Option<CSession>)
      requires Valid()
      modifies this`outbox, db`friends, db`befriended, db`history, users
      ensures Valid()
      ensures (target, users.online)
              == (if ok then Presence.Find(old(View(users, all)), friendUid) else (None, old(users.online)))
      ensures Now() == old(Now()).(
                tables := db.Tables(),
                history := old(db.history) + [Accounts.Befriend(uid, friendUid, env.blind, env.fails)],
                presence := old(View(users, all)).(online := users.online),
                outbox := old(outbox)
                  + if target.Some? then [Sent(target.value, MSG_FRIEND_REQUEST_PUSH, FriendRequest(uid), LivePush)]
                    else [])
      ensures ok <==> uid != friendUid && Accepts(old(db.Tables()), uid, friendUid, env)
      ensures db.befriended == old(db.befriended) + if ok then [Accounts.Friendship(uid, friendUid)] else []
    {
      target := None;
      ok := db.AddFriend(uid, friendUid, env.blind, env.fails);
      assert View(users, all) == old(View(users, all));
      if ok {
        target := PushFriendRequest(uid, friendUid);
      }
    }

    method PushFriendRequest(from: int, to: int) returns (ghost target: Option<CSession>)
      requires Coherent(users, all)
      modifies this`outbox, users
      ensures Coherent(users, all) && Delivery() == old(Delivery())
      ensures View(users, all) == old(View(users, all)).(online := users.online)
      ensures (target, users.online) == Presence.Find(old(View(users, all)), to)
      ensures outbox == old(outbox)
              + if target.Some?
                then [Sent(target.value, MSG_FRIEND_REQUEST_PUSH, FriendRequest(from), LivePush)] else []
    {
      target := PushTo(to, MSG_FRIEND_REQUEST_PUSH, FriendRequest(from));
      assert Offers(outbox) == old(Offers(outbox));
    }

    /** A message is saved exactly if the requester is logged in, the body has a recipient and a text of admissible
        length, and the database does not fail; it is from the requester's account to the recipient in the body. */
    method ChatMessageRequest(session: CSession, body: Body, env: Env)
      returns (ghost ins: Accounts.Insert, ghost target: Option<CSession>)
      requires Valid() && session in all
      modifies this`outbox, this`saved, this`ops, db`messages, users
      ensures Valid()
      ensures session.loginUid > 0 && body.Json? && body.toUid.Is? && body.content.Is? && body.toUid.value > 0
              && 1 <= |body.content.value| <= 2048 && !env.fails
              <==> saved != old(saved)
      ensures saved != old(saved) ==>
                ins.Picks? && saved == old(saved) + [Messages.Message(
                  ins.rowid, session.loginUid, body.toUid.value, body.content.value, env.time)]
      ensures Chats(Deal(session, MSG_SEND_CHAT_REQ, body, env, ins, target, None, old(Now()), Now()))
    {
      ghost var d := Deal(session, MSG_SEND_CHAT_REQ, body, env, Accounts.Fails, None, None, Now(), Now());
      ins, target := Accounts.Fails, None;
      var fromUid := session.loginUid;
      var args := ReadChat(body, fromUid);
      if args.None? {
        Answer(session, MSG_SEND_CHAT_RSP, Failure);
        ChatRefused(d.(after := Now()));
        return;
      }
      var (toUid, content) := args.value;
      var id;
      id, ins, target := SaveAndPush(fromUid, toUid, content, env);
      Answer(session, MSG_SEND_CHAT_RSP, if id >= 0 then Saved(id) else Failure);
      ChatsByParts(d.(ins := ins, target := target, after := Now()), id);
    }

    /** The checks of a chat request.  Each failure is answered with an error of its own text. */
    method ReadChat(body: Body, fromUid: int) returns (args: Option<(int, string)>)
      ensures args == if fromUid != 0 && Chattable(body) then Some((body.toUid.value, body.content.value)) else None
    {
      if body.NotJson? {
        return None;
      }
      if body.toUid.Missing? || body.content.Missing? {
        return None;
      }
      if fromUid == 0 {
        return None;
      }
      if body.toUid.WrongType? || body.content.WrongType? { // get<> throws
        return None;
      }
      var toUid, content := body.toUid.value, body.content.value;
      if toUid <= 0 {
        return None;
      }
      if content == "" {
        return None;
      }
      if |content| > MAX_MESSAGE_LEN {
        return None;
      }
      args := Some((toUid, content));
    }

    /** The message is saved first; only then is the recipient's session looked up and pushed to. */
    method SaveAndPush(fromUid: int, toUid: int, content: string, env: Env)
      returns (id: int, ghost ins: Accounts.Insert, ghost target: Option<CSession>)
      requires Valid() && toUid > 0 && content != ""
      modifies this`outbox, this`saved, this`ops, db`messages, users
      ensures Valid()
      ensures var op := Messages.Chat(fromUid, toUid, content, env.time, ins, target);
              Messages.Possible(old(Delivery()), op) && Delivery() == Messages.Apply(old(Delivery()), op)
      ensures id == Messages.Save(old(db.messages), fromUid, toUid, content, env.time, ins).1
      ensures id >= 0 <==> fromUid > 0 && !env.fails
      ensures ops == old(ops) + [Messages.Chat(fromUid, toUid, content, env.time, ins, target)]
      ensures View(users, all) == old(View(users, all)).(online := users.online)
      ensures (target, users.online)
              == (if id >= 0 then Presence.Find(old(View(users, all)), toUid) else (None, old(users.online)))
      ensures outbox == old(outbox)
              + if target.Some?
                then [Sent(target.value, MSG_CHAT_MSG_PUSH,
                           ChatMessage(Messages.Message(id, fromUid, toUid, content, env.time)), LivePush)] else []
    {
      ghost var before := Delivery();
      target := None;
      id, ins := Store(fromUid, toUid, content, env);
      ghost var op := Messages.Chat(fromUid, toUid, content, env.time, ins, target);
      if id >= 0 {
        var message := Messages.Message(id, fromUid, toUid, content, env.time);
        target := PushMessage(message);
        Messages.ChatPushes(before, op, target, Delivery());
        op := op.(target := target);
      }
      assert Delivery() == Messages.Apply(before, op);
      Record(before, op);
    }

    method PushMessage(message: Messages.Message) returns (ghost target: Option<CSession>)
      requires Coherent(users, all)
      modifies this`outbox, users
      ensures Coherent(users, all)
      ensures View(users, all) == old(View(users, all)).(online := users.online)
      ensures (target, users.online) == Presence.Find(old(View(users, all)), message.to)
      ensures outbox == old(outbox)
              + if target.Some? then [Sent(target.value, MSG_CHAT_MSG_PUSH, ChatMessage(message), LivePush)] else []
      ensures Delivery() == old(Delivery()).(log := old(Delivery()).log
              + if target.Some? then [Messages.Push(target.value, message)] else [])
    {
      target := PushTo(message.to, MSG_CHAT_MSG_PUSH, ChatMessage(message));
    }

    /** Save a message, which alone is a chat whose recipient is not online. */
    method Store(fromUid: int, toUid: int, content: string, env: Env) returns (id: int, ghost ins: Accounts.Insert)
      requires Messages.IsRun(ops, Delivery()) && toUid > 0 && content != ""
      modifies this`saved, db`messages
      ensures var op := Messages.Chat(fromUid, toUid, content, env.time, ins, None);
              && Messages.Possible(old(Delivery()), op)
              && Delivery() == Messages.Apply(old(Delivery()), op)
              && (id >= 0 <==> Delivery() != old(Delivery()))
      ensures id == Messages.Save(old(db.messages), fromUid, toUid, content, env.time, ins).1
      ensures id >= 0 <==> fromUid > 0 && !env.fails
      ensures db.Valid() == old(db.Valid()) && View(users, all) == old(View(users, all))
    {
      ghost var before := Delivery();
      Messages.RunHasInv(ops, before);
      assert db.IdsIncrease();
      id, ins := db.SaveMessage(fromUid, toUid, content, env.time, env.fails, env.gap);
      if id >= 0 {
        saved := saved + [Messages.Message(id, fromUid, toUid, content, env.time)];
      }
      Messages.ChatByParts(before, Messages.Chat(fromUid, toUid, content, env.time, ins, None), Delivery());
    }

    method GetOfflineMessageRequest(session: CSession, body: Body, env: Env)
      requires Valid() && session in all
      modifies this`outbox, this`ops, db`messages
      ensures Valid()
      ensures PullsOffline(
                Deal(session, MSG_OFFLINE_MSG_REQ, body, env, Accounts.Fails, None, None, old(Now()), Now()))
    {
      ghost var d := Deal(session, MSG_OFFLINE_MSG_REQ, body, env, Accounts.Fails, None, None, Now(), Now());
      var uid := session.loginUid;
      if uid == 0 {
        Answer(session, MSG_OFFLINE_MSG_RSP, Failure);
        PullRefused(d.(after := Now()));
        return;
      }
      var batch := PullOffline(session, uid, MSG_OFFLINE_MSG_RSP, Reply, env);
      PullsByParts(d.(after := Now()), batch);
    }

    /** The echo goes out under the id the client put into its JSON, cut to a short. */
    method HelloWorldCallBack(session: CSession, body: Body, ghost env: Env)
      requires Valid()
      modifies this`outbox
      ensures Valid()
      ensures Echoes(Deal(session, MSG_HELLO_WORLD, body, env, Accounts.Fails, None, None, old(Now()), Now()))
    {
      ghost var d := Deal(session, MSG_HELLO_WORLD, body, env, Accounts.Fails, None, None, Now(), Now());
      if body.NotJson? {
        return;
      }
      if !body.id.Is? || !body.data.Is? { // get<> throws
        return;
      }
      var id := IntToShort(body.id.value);
      EmitPlain(session, id, Echo(body.data.value), Hello);
      EchoesByParts(d.(after := Now()), id);
    }
  }
}
