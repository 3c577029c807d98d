/** Sessions as logins and closes see them, and the registry of online users: objects changed in place, and the
    state of the machine in Presence that they stand for. */
module Sessions {
  import opened Wrappers
  import Presence

  /** The part of a session that logins and closes work on.  `expired` stands for a reference count of
      zero. */
  class CSession {
    var stop: bool
    var loginUid: int
    var expired: bool

    constructor ()
      ensures !stop && loginUid == 0 && !expired
    {
      stop, loginUid, expired := false, 0, false;
    }

    /** Idempotent: only the call that wins the stop flag cleans up.  `w` is where the worker is in a login
        of its own. */
    method Close(users: UserManager, ghost all: set<CSession>, ghost w: Presence.Worker<CSession>)
      requires CoherentAt(users, all, w) && !w.Kicking? && this in all
      modifies this`stop, this`loginUid, users
      ensures CoherentAt(users, all, w) && ViewAt(users, all, w) == Presence.CloseNow(old(ViewAt(users, all, w)), this)
      ensures Stopped(all) == old(Stopped(all)) + {this}
    {
      Presence.CloseNowEffect(ViewAt(users, all, w), this);
      if stop {
        return;
      }
      Clean(users, all, w);
    }

    /** What the winner of the stop flag does. */
    method Clean(users: UserManager, ghost all: set<CSession>, ghost w: Presence.Worker<CSession>)
      requires this in all && !stop
      modifies this`stop, this`loginUid, users
      ensures var before := old(ViewAt(users, all, w));
              ViewAt(users, all, w)
              == before.(sessions := before.sessions[this := before.sessions[this].(phase := Presence.Closed,
                  uid := 0)],
                         online := Presence.RemoveOnlineUser(before.online, before.sessions[this].uid))
      ensures Stopped(all) == old(Stopped(all)) + {this}
    {
      SetStop(all);
      TakeUid(users, all, w);
    }

    method SetStop(ghost all: set<CSession>)
      requires this in all
      modifies this`stop
      ensures stop && Stopped(all) == old(Stopped(all)) + {this}
    {
      stop := true;
    }

    /** The session loses its account, and the account its registry entry. */
    method TakeUid(users: UserManager, ghost all: set<CSession>, ghost w: Presence.Worker<CSession>)
      requires this in all
      modifies this`loginUid, users
      ensures var before := old(ViewAt(users, all, w));
              ViewAt(users, all, w)
              == before.(sessions := before.sessions[this := before.sessions[this].(uid := 0)],
                         online := Presence.RemoveOnlineUser(before.online, before.sessions[this].uid))
    {
      var uidCopy := 0;
      if loginUid != 0 {
        uidCopy := loginUid;
        loginUid := 0;
      }
      if uidCopy != 0 {
        users.RemoveOnlineUser(uidCopy);
      }
    }
  }

  class UserManager {
    var online: map<int, CSession>

    constructor ()
      ensures online == map[]
    {
      online := map[];
    }

    method AddOnlineUser(uid: int, session: CSession)
      modifies this
      ensures online == if uid > 0 then old(online)[uid := session] else old(online)
    {
      if uid <= 0 {
        return;
      }
      online := online[uid := session];
    }

    method RemoveOnlineUser(uid: int)
      modifies this
      ensures online == if uid > 0 then old(online) - {uid} else old(online)
    {
      if uid <= 0 {
        return;
      }
      if uid in online {
        online := online - {uid};
      }
    }

    /** An entry whose session has expired is erased on the way. */
    method GetSessionByUid(uid: int, ghost all: set<CSession>) returns (session: CSession?)
      requires Coherent(this, all)
      modifies this
      ensures View(this, all).sessions == old(View(this, all)).sessions
      ensures (ToOption(session), online) == Presence.Find(old(View(this, all)), uid)
      ensures if uid > 0 && uid in old(online) && !old(online)[uid].expired
              then session == old(online)[uid] && online == old(online)
              else session == null && online == old(online) - {uid}
      ensures session != null ==> session in all && !session.expired
    {
      if uid <= 0 {
        return null;
      }
      if uid !in online {
        return null;
      }
      session := online[uid];
      if session.expired {
        online := online - {uid};
        session := null;
      }
    }
  }

  ghost function ToOption(s: CSession?): Option<CSession> {
    if s == null then None else Some(s)
  }

  /** The machine state these objects stand for while the worker is at `w`. */
  ghost function ViewAt(users: UserManager, all: set<CSession>, w: Presence.Worker<CSession>): Presence.State<CSession>
    reads users, all
  {
    Presence.State(
      map s | s in all ::
        Presence.Session(!s.expired, if s.stop then Presence.Closed else Presence.Running, s.loginUid),
      users.online,
      w)
  }

  ghost predicate CoherentAt(users: UserManager, all: set<CSession>, w: Presence.Worker<CSession>)
    reads users, all
  {
    Presence.Inv(ViewAt(users, all, w))
  }

  /** While no login is being handled. */
  ghost function View(users: UserManager, all: set<CSession>): Presence.State<CSession>
    reads users, all
  {
    ViewAt(users, all, Presence.Idle)
  }

  ghost predicate Coherent(users: UserManager, all: set<CSession>)
    reads users, all
  {
    CoherentAt(users, all, Presence.Idle)
  }

  lemma SetOfOneMore(xs: seq<CSession>, i: nat)
    requires i < |xs|
    ensures Presence.SetOf(xs[..i + 1]) == Presence.SetOf(xs[..i]) + {xs[i]}
  {
    assert xs[..i + 1] == xs[..i] + [xs[i]];
  }

  ghost function Stopped(all: set<CSession>): set<CSession>
    reads all`stop
  {
    set s | s in all && s.stop
  }

  lemma ViewIsQuiet(users: UserManager, all: set<CSession>, w: Presence.Worker<CSession>)
    requires !w.Kicking?
    ensures Presence.Quiet(ViewAt(users, all, w))
  {
  }
}
