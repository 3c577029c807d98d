/** What the handlers do, as values: bodies, what is sent, and for each kind of request the relation between the
    states before and after it, spelled out in the fields of its body; then what any list of handled requests
    adds up to.  JSON parsing is an uninterpreted function from the bytes of a body to the fields the handlers
    look at. */
module Effects {
  import opened Constants
  import opened Wrappers
  import opened Framing
  import opened RequestQueue
  import opened Sessions
  import Presence
  import Accounts
  import Messages

  // ---- bodies and what is sent ----

  datatype Field<+T> = Missing | WrongType | Is(value: T)

  datatype Body =
    | NotJson
    | Json(username: Field<string>, password: Field<string>, friendUid: Field<int>, toUid: Field<int>,
           content: Field<string>, id: Field<int>, data: Field<string>)

  datatype Payload =
    | Failure
    | Done
    | LoggedIn(uid: int, offlineCount: nat)
    | Friends(uids: seq<int>)
    | Saved(msgId: int)
    | Offline(uid: int, messages: seq<Messages.Message>)
    | FriendRequest(from: int)
    | ChatMessage(message: Messages.Message)
    | Echo(data: string)

  /** Why a message is offered to a session: the answer to its request, login's automatic batch of
      offline messages, a push caused by another user's request, or the echo of a hello. */
  datatype Kind = Reply | AutoBatch | LivePush | Hello

  datatype Sent = Sent(session: CSession, id: int, payload: Payload, kind: Kind)

  /** What a handler meets: database errors, among them one in the query for a pair of friends, skipped row
      ids, rows read, whether marking succeeds, the clock, and the sessions other threads close between the
      steps of a login. */
  datatype Env = Env(
    fails: bool, blind: bool, gap: nat, rows: nat, marks: bool, time: string, gaps: Presence.Gaps<CSession>)

  // ---- views of the outbox ----

  /** What one call of Send offers of the message table. */
  function OfferOf(x: Sent): seq<Messages.Offer<CSession>> {
    match x.payload
    case ChatMessage(m) => [Messages.Push(x.session, m)]
    case Offline(uid, ms) => if ms == [] then [] else [Messages.Batch(uid, ms)]
    case _ => []
  }

  function Offers(outbox: seq<Sent>): seq<Messages.Offer<CSession>> {
    if outbox == [] then []
    else Offers(outbox[..|outbox| - 1]) + OfferOf(outbox[|outbox| - 1])
  }

  lemma OffersAppend(outbox: seq<Sent>, x: Sent)
    ensures Offers(outbox + [x]) == Offers(outbox) + OfferOf(x)
  {
    assert (outbox + [x])[..|outbox|] == outbox;
  }

  // ---- one handled request ----

  /** Everything a handler may change: users and friends, messages and offers, the runs they are the outcome of,
      sessions and registry, and what has been sent. */
  datatype Snapshot = Snapshot(
    tables: Accounts.State, history: seq<Accounts.Op>,
    delivery: Messages.State<CSession>, ops: seq<Messages.Op<CSession>>,
    presence: Presence.State<CSession>, outbox: seq<Sent>)

  /** One handled request.  `ins` is the row id an INSERT was given, `target` the session that was pushed to, `login`
      the account that was logged in to. */
  datatype Deal = Deal(
    session: CSession, id: int, body: Body, env: Env,
    ins: Accounts.Insert, target: Option<CSession>, login: Option<int>,
    before: Snapshot, after: Snapshot)

  /** The account the requester is logged in to, or 0. */
  ghost function Uid(d: Deal): int {
    if d.session in d.before.presence.sessions then d.before.presence.sessions[d.session].uid else 0
  }

  /** A body with a username and a password of admissible lengths. */
  predicate Credible(body: Body) {
    && body.Json? && body.username.Is? && body.password.Is?
    && 2 <= |body.username.value| <= 32 && 3 <= |body.password.value| <= 64
  }

  /** A body that names an account other than the requester's. */
  predicate Befriendable(body: Body, uid: int) {
    body.Json? && body.friendUid.Is? && body.friendUid.value > 0 && body.friendUid.value != uid
  }

  /** A body with a recipient and a text of admissible length. */
  predicate Chattable(body: Body) {
    && body.Json? && body.toUid.Is? && body.content.Is?
    && body.toUid.value > 0 && 1 <= |body.content.value| <= 2048
  }

  /** What a request adds to the history of the users and friends tables. */
  ghost function AccountSteps(d: Deal): seq<Accounts.Op> {
    if d.id == MSG_REGISTER_REQ && Credible(d.body) then
      [Accounts.SignUp(d.body.username.value, d.body.password.value, d.ins)]
    else if d.id == MSG_ADD_FRIEND_REQ && Uid(d) != 0 && Befriendable(d.body, Uid(d)) then
      [Accounts.Befriend(Uid(d), d.body.friendUid.value, d.env.blind, d.env.fails)]
    else []
  }

  /** What a request adds to the run of the delivery machine. */
  ghost function DeliverySteps(d: Deal): seq<Messages.Op<CSession>> {
    if d.id == MSG_LOGIN_REQ && d.login.Some? then
      [Messages.Pull(d.login.value, d.env.rows, d.env.marks)]
    else if d.id == MSG_SEND_CHAT_REQ && Uid(d) != 0 && Chattable(d.body) then
      [Messages.Chat(Uid(d), d.body.toUid.value, d.body.content.value, d.env.time, d.ins, d.target)]
    else if d.id == MSG_OFFLINE_MSG_REQ && Uid(d) != 0 then
      [Messages.Pull(Uid(d), d.env.rows, d.env.marks)]
    else []
  }

  ghost predicate Steps(d: Deal) {
    && d.after.history == d.before.history + AccountSteps(d)
    && d.after.ops == d.before.ops + DeliverySteps(d)
  }

  ghost predicate SameTables(d: Deal) {
    d.after.tables == d.before.tables
  }

  ghost predicate SameDelivery(d: Deal) {
    d.after.delivery == d.before.delivery
  }

  ghost predicate SamePresence(d: Deal) {
    d.after.presence == d.before.presence
  }

  /** Only the registry may differ. */
  ghost predicate SameSessions(d: Deal) {
    d.after.presence == d.before.presence.(online := d.after.presence.online)
  }

  ghost predicate Answers(d: Deal, sent: seq<Sent>, id: int, payload: Payload) {
    d.after.outbox == d.before.outbox + sent + [Sent(d.session, id, payload, Reply)]
  }

  /** A registration is accepted iff the body is credible, no accepted one has its username, and the database does
      not fail. */
  ghost predicate Registers(d: Deal) {
    var body := d.body;
    var done := Credible(body) && !d.env.fails
                && forall reg :: reg in d.before.tables.registered ==> reg.name != body.username.value;
    && Steps(d) && SameDelivery(d) && SamePresence(d)
    && (done ==> d.ins.Picks?)
    && d.after.tables.registered == d.before.tables.registered
       + (if done then [Accounts.Registration(d.ins.rowid, body.username.value, body.password.value)] else [])
    && d.after.tables.befriended == d.before.tables.befriended
    && Answers(d, [], MSG_REGISTER_RSP, if done then Done else Failure)
  }

  /** The account a login reaches: that of the accepted registration with the body's username and a password of the
      same hash. */
  ghost predicate Authenticates(d: Deal, hash: string -> string) {
    var body := d.body;
    if d.env.fails then d.login == None
    else
      forall u :: d.login == Some(u) <==>
        && Credible(body)
        && exists reg :: reg in d.before.tables.registered && reg.uid == u && reg.name == body.username.value
                         && hash(reg.password) == hash(body.password.value)
  }

  ghost predicate LogsIn(d: Deal, hash: string -> string) {
    && Steps(d) && SameTables(d) && Authenticates(d, hash)
    && match d.login
       case None => SameDelivery(d) && SamePresence(d) && Answers(d, [], MSG_LOGIN_RSP, Failure)
       case Some(u) =>
         && Presence.Enabled(d.before.presence, Presence.Lookup(d.session, u))
         && d.after.presence == Presence.LoginAround(d.before.presence, d.session, u, d.env.gaps)
         && d.after.delivery == Messages.Apply(d.before.delivery, Messages.Pull(u, d.env.rows, d.env.marks))
         && var batch := Messages.GetOffline(d.before.delivery.rows, u, d.env.rows, d.env.marks).1;
            Answers(d,
              if batch == [] then [] else [Sent(d.session, MSG_OFFLINE_MSG_RSP, Offline(u, batch), AutoBatch)],
              MSG_LOGIN_RSP, LoggedIn(u, |batch|))
  }

  ghost predicate ListsFriends(d: Deal) {
    && Steps(d) && SameTables(d) && SameDelivery(d) && SamePresence(d)
    && Answers(d, [], MSG_GET_FRIEND_LIST_RSP,
               if Uid(d) == 0 then Failure
               else Friends(Accounts.FriendList(d.before.tables.friends, Uid(d), d.env.rows)))
  }

  /** A pair is accepted iff both accounts exist, no pair of them was accepted before, in either direction or, when
      the query for it fails, in this one, and the database does not fail otherwise. */
  ghost predicate Accepts(tables: Accounts.State, uid: int, other: int, env: Env) {
    && !env.fails
    && (exists reg :: reg in tables.registered && reg.uid == uid)
    && (exists reg :: reg in tables.registered && reg.uid == other)
    && Accounts.Friendship(uid, other) !in tables.befriended
    && (env.blind || Accounts.Friendship(other, uid) !in tables.befriended)
  }

  ghost predicate Befriends(d: Deal) {
    var uid, body, tables := Uid(d), d.body, d.before.tables;
    var done := uid != 0 && Befriendable(body, uid) && Accepts(tables, uid, body.friendUid.value, d.env);
    && Steps(d) && SameDelivery(d) && SameSessions(d)
    && d.after.tables.registered == tables.registered
    && d.after.tables.befriended == tables.befriended
       + (if done then [Accounts.Friendship(uid, body.friendUid.value)] else [])
    && (d.target, d.after.presence.online)
       == (if done then Presence.Find(d.before.presence, body.friendUid.value) else (None, d.before.presence.online))
    && Answers(d,
         if d.target.Some? then [Sent(d.target.value, MSG_FRIEND_REQUEST_PUSH, FriendRequest(uid), LivePush)] else [],
         MSG_ADD_FRIEND_RSP, if done then Done else Failure)
  }

  /** A chat message is saved iff the requester is logged in, the body has a recipient and a text, and the database
      does not fail; it is pushed iff it is saved and the recipient has a session. */
  ghost predicate Chats(d: Deal) {
    var uid, body := Uid(d), d.body;
    var done := uid > 0 && Chattable(body) && !d.env.fails;
    && Steps(d) && SameTables(d) && SameSessions(d)
    && (done ==> d.ins.Picks?)
    && (d.target, d.after.presence.online)
       == (if done then Presence.Find(d.before.presence, body.toUid.value) else (None, d.before.presence.online))
    && if !done then SameDelivery(d) && Answers(d, [], MSG_SEND_CHAT_RSP, Failure)
       else
         var m := Messages.Message(d.ins.rowid, uid, body.toUid.value, body.content.value, d.env.time);
         && d.after.delivery.rows == d.before.delivery.rows + [Messages.Row(m, false)]
         && d.after.delivery.saved == d.before.delivery.saved + [m]
         && Answers(d,
              if d.target.Some? then [Sent(d.target.value, MSG_CHAT_MSG_PUSH, ChatMessage(m), LivePush)] else [],
              MSG_SEND_CHAT_RSP, Saved(d.ins.rowid))
  }

  ghost predicate PullsOffline(d: Deal) {
    && Steps(d) && SameTables(d) && SamePresence(d)
    && if Uid(d) == 0 then SameDelivery(d) && Answers(d, [], MSG_OFFLINE_MSG_RSP, Failure)
       else
         && d.after.delivery == Messages.Apply(d.before.delivery, Messages.Pull(Uid(d), d.env.rows, d.env.marks))
         && Answers(d, [], MSG_OFFLINE_MSG_RSP,
              Offline(Uid(d), Messages.GetOffline(d.before.delivery.rows, Uid(d), d.env.rows, d.env.marks).1))
  }

  /** The echo goes out under the id in the JSON, cut to a short. */
  ghost predicate Echoes(d: Deal) {
    && Steps(d) && SameTables(d) && SameDelivery(d) && SamePresence(d)
    && if d.body.Json? && d.body.id.Is? && d.body.data.Is? then
         && |d.after.outbox| == |d.before.outbox| + 1 && d.before.outbox <= d.after.outbox
         && var x := d.after.outbox[|d.before.outbox|];
            && x == Sent(d.session, x.id, Echo(d.body.data.value), Hello)
            && -0x8000 <= x.id < 0x8000 && (x.id - d.body.id.value) % 0x1_0000 == 0
       else d.after.outbox == d.before.outbox
  }

  /** The effect of a request, by its id; one without a callback has none. */
  ghost predicate Handled(d: Deal, hash: string -> string) {
    if d.id == MSG_HELLO_WORLD then Echoes(d)
    else if d.id == MSG_REGISTER_REQ then Registers(d)
    else if d.id == MSG_LOGIN_REQ then LogsIn(d, hash)
    else if d.id == MSG_GET_FRIEND_LIST_REQ then ListsFriends(d)
    else if d.id == MSG_ADD_FRIEND_REQ then Befriends(d)
    else if d.id == MSG_SEND_CHAT_REQ then Chats(d)
    else if d.id == MSG_OFFLINE_MSG_REQ then PullsOffline(d)
    else d.after == d.before
  }

  lemma HandledById(d: Deal, hash: string -> string)
    requires
      || (d.id == MSG_HELLO_WORLD && Echoes(d))
      || (d.id == MSG_REGISTER_REQ && Registers(d))
      || (d.id == MSG_LOGIN_REQ && LogsIn(d, hash))
      || (d.id == MSG_GET_FRIEND_LIST_REQ && ListsFriends(d))
      || (d.id == MSG_ADD_FRIEND_REQ && Befriends(d))
      || (d.id == MSG_SEND_CHAT_REQ && Chats(d))
      || (d.id == MSG_OFFLINE_MSG_REQ && PullsOffline(d))
    ensures Handled(d, hash)
  {
  }

  // ---- effects put together from their parts ----

  /** The request was only answered. */
  ghost predicate OnlyAnswered(d: Deal, id: int, payload: Payload) {
    d.after == d.before.(outbox := d.before.outbox + [Sent(d.session, id, payload, Reply)])
  }

  lemma RegisterRefused(d: Deal)
    requires d.id == MSG_REGISTER_REQ && !Credible(d.body) && OnlyAnswered(d, MSG_REGISTER_RSP, Failure)
    ensures Registers(d)
  {
  }

  lemma RegistersByParts(d: Deal, ok: bool)
    requires d.id == MSG_REGISTER_REQ && Credible(d.body)
    requires var name, password := d.body.username.value, d.body.password.value;
             && (ok <==> !d.env.fails && forall reg :: reg in d.before.tables.registered ==> reg.name != name)
             && (ok ==> d.ins.Picks?)
             && d.after == d.before.(
                  tables := d.after.tables,
                  history := d.before.history + [Accounts.SignUp(name, password, d.ins)],
                  outbox := d.before.outbox + [Sent(d.session, MSG_REGISTER_RSP, if ok then Done else Failure, Reply)])
             && d.after.tables.registered == d.before.tables.registered
                + (if ok then [Accounts.Registration(d.ins.rowid, name, password)] else [])
             && d.after.tables.befriended == d.before.tables.befriended
    ensures Registers(d)
  {
  }

  lemma LoginRefused(d: Deal, hash: string -> string)
    requires d.id == MSG_LOGIN_REQ && d.login == None && Authenticates(d, hash)
    requires OnlyAnswered(d, MSG_LOGIN_RSP, Failure)
    ensures LogsIn(d, hash)
  {
  }

  lemma LogsInByParts(d: Deal, hash: string -> string, u: int, batch: seq<Messages.Message>)
    requires d.id == MSG_LOGIN_REQ && d.login == Some(u) && Authenticates(d, hash)
    requires d.after.tables == d.before.tables && d.after.history == d.before.history
    requires Presence.Enabled(d.before.presence, Presence.Lookup(d.session, u))
    requires d.after.presence == Presence.LoginAround(d.before.presence, d.session, u, d.env.gaps)
    requires d.after.delivery == Messages.Apply(d.before.delivery, Messages.Pull(u, d.env.rows, d.env.marks))
    requires d.after.ops == d.before.ops + [Messages.Pull(u, d.env.rows, d.env.marks)]
    requires batch == Messages.GetOffline(d.before.delivery.rows, u, d.env.rows, d.env.marks).1
    requires d.after.outbox == d.before.outbox
      + (if batch == [] then [] else [Sent(d.session, MSG_OFFLINE_MSG_RSP, Offline(u, batch), AutoBatch)])
      + [Sent(d.session, MSG_LOGIN_RSP, LoggedIn(u, |batch|), Reply)]
    ensures LogsIn(d, hash)
  {
  }

  lemma ListRefused(d: Deal)
    requires d.id == MSG_GET_FRIEND_LIST_REQ && Uid(d) == 0 && OnlyAnswered(d, MSG_GET_FRIEND_LIST_RSP, Failure)
    ensures ListsFriends(d)
  {
  }

  lemma ListsFriendsByParts(d: Deal, list: seq<int>)
    requires d.id == MSG_GET_FRIEND_LIST_REQ && Uid(d) != 0
    requires list == Accounts.FriendList(d.before.tables.friends, Uid(d), d.env.rows)
    requires OnlyAnswered(d, MSG_GET_FRIEND_LIST_RSP, Friends(list))
    ensures ListsFriends(d)
  {
  }

  lemma BefriendRefused(d: Deal)
    requires d.id == MSG_ADD_FRIEND_REQ && (Uid(d) == 0 || !Befriendable(d.body, Uid(d))) && d.target == None
    requires OnlyAnswered(d, MSG_ADD_FRIEND_RSP, Failure)
    ensures Befriends(d)
  {
  }

  lemma BefriendsByParts(d: Deal, ok: bool)
    requires d.id == MSG_ADD_FRIEND_REQ && Uid(d) != 0 && Befriendable(d.body, Uid(d))
    requires var uid, other, tables := Uid(d), d.body.friendUid.value, d.before.tables;
             && (ok <==> Accepts(tables, uid, other, d.env))
             && d.after.tables.registered == tables.registered
             && d.after.tables.befriended == tables.befriended
                + (if ok then [Accounts.Friendship(uid, other)] else [])
             && (d.target, d.after.presence.online)
                == (if ok then Presence.Find(d.before.presence, other) else (None, d.before.presence.online))
             && d.after == d.before.(
                  tables := d.after.tables,
                  history := d.before.history + [Accounts.Befriend(uid, other, d.env.blind, d.env.fails)],
                  presence := d.before.presence.(online := d.after.presence.online),
                  outbox := d.before.outbox
                    + (if d.target.Some?
                       then [Sent(d.target.value, MSG_FRIEND_REQUEST_PUSH, FriendRequest(uid), LivePush)] else [])
                    + [Sent(d.session, MSG_ADD_FRIEND_RSP, if ok then Done else Failure, Reply)])
    ensures Befriends(d)
  {
  }

  lemma ChatRefused(d: Deal)
    requires d.id == MSG_SEND_CHAT_REQ && (Uid(d) == 0 || !Chattable(d.body)) && d.target == None
    requires OnlyAnswered(d, MSG_SEND_CHAT_RSP, Failure)
    ensures Chats(d)
  {
  }

  lemma ChatsByParts(d: Deal, id: int)
    requires d.id == MSG_SEND_CHAT_REQ && Uid(d) != 0 && Chattable(d.body)
    requires var uid, to, content := Uid(d), d.body.toUid.value, d.body.content.value;
             var op := Messages.Chat(uid, to, content, d.env.time, d.ins, d.target);
             var m := Messages.Message(id, uid, to, content, d.env.time);
             && (id >= 0 <==> uid > 0 && !d.env.fails)
             && id == Messages.Save(d.before.delivery.rows, uid, to, content, d.env.time, d.ins).1
             && (d.target, d.after.presence.online)
                == (if id >= 0 then Presence.Find(d.before.presence, to) else (None, d.before.presence.online))
             && d.after == d.before.(
                  delivery := Messages.Apply(d.before.delivery, op),
                  ops := d.before.ops + [op],
                  presence := d.before.presence.(online := d.after.presence.online),
                  outbox := d.before.outbox
                    + (if d.target.Some?
                       then [Sent(d.target.value, MSG_CHAT_MSG_PUSH, ChatMessage(m), LivePush)] else [])
                    + [Sent(d.session, MSG_SEND_CHAT_RSP, if id >= 0 then Saved(id) else Failure, Reply)])
    ensures Chats(d)
  {
  }

  lemma PullRefused(d: Deal)
    requires d.id == MSG_OFFLINE_MSG_REQ && Uid(d) == 0 && OnlyAnswered(d, MSG_OFFLINE_MSG_RSP, Failure)
    ensures PullsOffline(d)
  {
  }

  lemma PullsByParts(d: Deal, batch: seq<Messages.Message>)
    requires d.id == MSG_OFFLINE_MSG_REQ && Uid(d) != 0
    requires batch == Messages.GetOffline(d.before.delivery.rows, Uid(d), d.env.rows, d.env.marks).1
    requires var op := Messages.Pull(Uid(d), d.env.rows, d.env.marks);
             d.after == d.before.(
               delivery := Messages.Apply(d.before.delivery, op),
               ops := d.before.ops + [op],
               outbox := d.before.outbox + [Sent(d.session, MSG_OFFLINE_MSG_RSP, Offline(Uid(d), batch), Reply)])
    ensures PullsOffline(d)
  {
  }

  lemma EchoesByParts(d: Deal, id: Short)
    requires d.id == MSG_HELLO_WORLD && d.body.Json? && d.body.id.Is? && d.body.data.Is?
    requires (id - d.body.id.value) % 0x1_0000 == 0
    requires d.after == d.before.(
               outbox := d.before.outbox + [Sent(d.session, id, Echo(d.body.data.value), Hello)])
    ensures Echoes(d)
  {
  }
}
