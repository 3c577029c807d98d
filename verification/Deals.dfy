/** What lists of handled requests add up to: one answer for each, steps of the tables that are those of their
    bodies, registrations that later logins meet, and senders that are who they logged in as. */
module Deals {
  import opened Constants
  import opened Wrappers
  import opened Framing
  import opened RequestQueue
  import opened Sessions
  import opened Effects
  import Presence
  import Accounts
  import Messages

  // ---- one answer for each request ----

  /** Ids of the answers offered to one session, in order; pushes, login's automatic batch and the echo of
      a hello are not answers. */
  function ReplyIds(outbox: seq<Sent>, s: CSession): seq<int> {
    if outbox == [] then []
    else
      var x := outbox[|outbox| - 1];
      ReplyIds(outbox[..|outbox| - 1], s) + if x.session == s && x.kind == Reply then [x.id] else []
  }

  predicate Answered(id: int) {
    id == MSG_REGISTER_REQ || id == MSG_LOGIN_REQ || id == MSG_GET_FRIEND_LIST_REQ || id == MSG_ADD_FRIEND_REQ
    || id == MSG_SEND_CHAT_REQ || id == MSG_OFFLINE_MSG_REQ
  }

  /** Ids of the answers one session is owed for a list of handled requests. */
  function Owed(handled: seq<Request<CSession>>, s: CSession): seq<int> {
    if handled == [] then []
    else
      var r := handled[|handled| - 1];
      Owed(handled[..|handled| - 1], s) + if r.session == s && Answered(r.frame.id) then [r.frame.id + 1] else []
  }

  lemma ReplyIdsAppend(outbox: seq<Sent>, x: Sent, s: CSession)
    ensures ReplyIds(outbox + [x], s) == ReplyIds(outbox, s) + if x.session == s && x.kind == Reply then [x.id] else []
  {
    assert (outbox + [x])[..|outbox|] == outbox;
  }

  /** A handler sends at most one other thing, and then exactly one answer to the requester. */
  ghost predicate OneAnswer(before: seq<Sent>, after: seq<Sent>, session: CSession, id: int) {
    && |before| < |after| <= |before| + 2 && before <= after
    && after[|after| - 1].session == session && after[|after| - 1].kind == Reply && after[|after| - 1].id == id
    && (|after| == |before| + 2 ==> after[|before|].kind != Reply)
  }

  lemma OneAnswerCounts(before: seq<Sent>, after: seq<Sent>, session: CSession, id: int, s: CSession)
    requires OneAnswer(before, after, session, id)
    ensures ReplyIds(after, s) == ReplyIds(before, s) + if s == session then [id] else []
  {
    var x := after[|before|];
    ReplyIdsAppend(before, x, s);
    if |after| == |before| + 2 {
      ReplyIdsAppend(before + [x], after[|before| + 1], s);
      assert after == before + [x] + [after[|before| + 1]];
    } else {
      assert after == before + [x];
    }
  }

  lemma AnswersOne(d: Deal, hash: string -> string)
    requires Handled(d, hash) && Answered(d.id)
    ensures OneAnswer(d.before.outbox, d.after.outbox, d.session, d.id + 1)
  {
  }

  lemma NoAnswer(d: Deal, hash: string -> string, s: CSession)
    requires Handled(d, hash) && !Answered(d.id)
    ensures ReplyIds(d.after.outbox, s) == ReplyIds(d.before.outbox, s)
  {
    var before, after := d.before.outbox, d.after.outbox;
    if after != before {
      ReplyIdsAppend(before, after[|before|], s);
      assert after == before + [after[|before|]];
    }
  }

  // ---- lists of handled requests ----

  /** The deal is the handling of this request, with its own body. */
  ghost predicate Serves(d: Deal, r: Request<CSession>, parse: seq<Byte> -> Body) {
    d.session == r.session && d.id == r.frame.id && d.body == parse(r.frame.body)
  }

  /** What holds when a request is taken up. */
  ghost predicate Sound(d: Deal, hash: string -> string) {
    && Accounts.IsRun(d.before.history, d.before.tables, hash)
    && Presence.Inv(d.before.presence) && Presence.Quiet(d.before.presence)
    && d.session in d.before.presence.sessions
    && Presence.GapsIn(d.env.gaps, d.before.presence.sessions.Keys)
  }

  ghost predicate AllHandled(deals: seq<Deal>, hash: string -> string) {
    && (forall i {:trigger Handled(deals[i], hash)} :: 0 <= i < |deals| ==> Handled(deals[i], hash))
    && (forall i {:trigger Sound(deals[i], hash)} :: 0 <= i < |deals| ==> Sound(deals[i], hash))
  }

  ghost predicate AllServe(deals: seq<Deal>, handled: seq<Request<CSession>>, parse: seq<Byte> -> Body) {
    && |deals| == |handled|
    && forall i {:trigger Serves(deals[i], handled[i], parse)} :: 0 <= i < |deals| ==>
         Serves(deals[i], handled[i], parse)
  }

  /** Between two requests other threads may close sessions; nothing else changes. */
  ghost predicate Meanwhile(a: Snapshot, b: Snapshot) {
    b == a.(presence := b.presence) && Presence.Fades(a.presence.sessions, b.presence.sessions)
  }

  /** Each deal begins where the one before it ended, but for closes. */
  ghost predicate Chain(start: Snapshot, deals: seq<Deal>, now: Snapshot) {
    if deals == [] then Meanwhile(start, now)
    else
      var d := deals[|deals| - 1];
      Chain(start, deals[..|deals| - 1], d.before) && Meanwhile(d.after, now)
  }

  /** The state `now` is what the handling of exactly these requests, each with its own body, makes of `start`. */
  ghost predicate Explained(start: Snapshot, deals: seq<Deal>, now: Snapshot, handled: seq<Request<CSession>>,
                            parse: seq<Byte> -> Body, hash: string -> string) {
    AllServe(deals, handled, parse) && AllHandled(deals, hash) && Chain(start, deals, now)
  }

  lemma ExplainedStart(start: Snapshot, parse: seq<Byte> -> Body, hash: string -> string)
    ensures Explained(start, [], start, [], parse, hash)
  {
  }

  lemma ExplainedAppend(start: Snapshot, deals: seq<Deal>, d: Deal, handled: seq<Request<CSession>>,
                        r: Request<CSession>, parse: seq<Byte> -> Body, hash: string -> string)
    requires Explained(start, deals, d.before, handled, parse, hash)
    requires Handled(d, hash) && Sound(d, hash) && Serves(d, r, parse)
    ensures Explained(start, deals + [d], d.after, handled + [r], parse, hash)
  {
    assert (deals + [d])[..|deals|] == deals;
  }

  lemma ExplainedMeanwhile(start: Snapshot, deals: seq<Deal>, a: Snapshot, b: Snapshot,
                           handled: seq<Request<CSession>>, parse: seq<Byte> -> Body, hash: string -> string)
    requires Explained(start, deals, a, handled, parse, hash) && Meanwhile(a, b)
    ensures Explained(start, deals, b, handled, parse, hash)
  {
  }

  // ---- what they add up to ----

  // What a handled request does, whatever its kind: it is answered once or not at all, its steps are those of its
  // body, registrations stay, its session may get an account, and what it saves is its chat.

  ghost predicate AnswersOnce(d: Deal, s: CSession) {
    ReplyIds(d.after.outbox, s)
    == ReplyIds(d.before.outbox, s) + if d.session == s && Answered(d.id) then [d.id + 1] else []
  }

  ghost predicate Rebinds(d: Deal) {
    && d.session in d.before.presence.sessions
    && var before, after := d.before.presence.sessions, d.after.presence.sessions;
       if d.id == MSG_LOGIN_REQ && d.login.Some?
       then Presence.Fades(Presence.WithUid(before, d.session, d.login.value), after)
       else after == before
  }

  /** The request is the chat that made this message. */
  ghost predicate Sends(d: Deal, m: Messages.Message) {
    && d.id == MSG_SEND_CHAT_REQ
    && d.body.Json? && d.body.toUid == Is(m.to) && d.body.content == Is(m.content)
    && m.from == Uid(d) > 0
  }

  ghost predicate Saves(d: Deal) {
    forall m :: m in d.after.delivery.saved && m !in d.before.delivery.saved ==> Sends(d, m)
  }

  /** The request is the friend request that made this pair. */
  ghost predicate Requests(d: Deal, f: Accounts.Friendship) {
    && d.id == MSG_ADD_FRIEND_REQ
    && d.body.Json? && d.body.friendUid == Is(f.friend)
    && f.uid == Uid(d) != 0
  }

  ghost predicate Pairs(d: Deal) {
    forall f :: f in d.after.tables.befriended && f !in d.before.tables.befriended ==> Requests(d, f)
  }

  /** Registrations, accepted pairs and what was sent stay. */
  ghost predicate Keeps(d: Deal) {
    && d.before.tables.registered <= d.after.tables.registered
    && d.before.tables.befriended <= d.after.tables.befriended
    && d.before.outbox <= d.after.outbox
  }

  /** The request hands out the offline messages of this account. */
  ghost predicate PullsFor(d: Deal, u: int) {
    (d.id == MSG_LOGIN_REQ && d.login == Some(u)) || (d.id == MSG_OFFLINE_MSG_REQ && Uid(d) == u != 0)
  }

  ghost predicate KeepsPending(d: Deal, m: Messages.Message) {
    Messages.Row(m, false) in d.before.delivery.rows && !PullsFor(d, m.to)
    ==> Messages.Row(m, false) in d.after.delivery.rows
  }

  lemma HandledRebinds(d: Deal, hash: string -> string)
    requires Handled(d, hash) && Sound(d, hash)
    ensures Rebinds(d)
  {
    if d.id == MSG_LOGIN_REQ && d.login.Some? {
      Presence.LoginFades(d.before.presence, d.session, d.login.value, d.env.gaps);
    }
  }

  lemma HandledSaves(d: Deal, hash: string -> string)
    requires Handled(d, hash)
    ensures Saves(d) && Pairs(d)
  {
  }

  lemma HandledKeepsPending(d: Deal, hash: string -> string, m: Messages.Message)
    requires Handled(d, hash)
    ensures KeepsPending(d, m)
  {
    var row := Messages.Row(m, false);
    if row in d.before.delivery.rows && !PullsFor(d, m.to) && d.after.delivery != d.before.delivery {
      var rows := d.before.delivery.rows;
      var i :| 0 <= i < |rows| && rows[i] == row;
      if d.id == MSG_LOGIN_REQ {
        Messages.GetOfflineMeans(rows, d.login.value, d.env.rows, d.env.marks);
      } else if d.id == MSG_OFFLINE_MSG_REQ {
        Messages.GetOfflineMeans(rows, Uid(d), d.env.rows, d.env.marks);
      }
      assert d.after.delivery.rows[i] == row;
    }
  }

  lemma HandledAnswers(d: Deal, hash: string -> string, s: CSession)
    requires Handled(d, hash)
    ensures AnswersOnce(d, s)
  {
    if Answered(d.id) {
      AnswersOne(d, hash);
      OneAnswerCounts(d.before.outbox, d.after.outbox, d.session, d.id + 1, s);
    } else {
      NoAnswer(d, hash, s);
    }
  }

  lemma HandledRest(d: Deal, hash: string -> string)
    requires Handled(d, hash)
    ensures Steps(d) && Keeps(d)
  {
  }

  lemma AllAnswer(deals: seq<Deal>, hash: string -> string, s: CSession)
    requires AllHandled(deals, hash)
    ensures forall i :: 0 <= i < |deals| ==> AnswersOnce(deals[i], s)
  {
    forall i | 0 <= i < |deals| ensures AnswersOnce(deals[i], s) {
      HandledAnswers(deals[i], hash, s);
    }
  }

  lemma AllStep(deals: seq<Deal>, hash: string -> string)
    requires AllHandled(deals, hash)
    ensures forall i :: 0 <= i < |deals| ==> Steps(deals[i])
    ensures forall i :: 0 <= i < |deals| ==> Keeps(deals[i])
  {
    forall i | 0 <= i < |deals| ensures Steps(deals[i]) && Keeps(deals[i]) {
      HandledRest(deals[i], hash);
    }
  }

  lemma AllKeepPending(deals: seq<Deal>, hash: string -> string, m: Messages.Message)
    requires AllHandled(deals, hash)
    ensures forall i :: 0 <= i < |deals| ==> KeepsPending(deals[i], m)
  {
    forall i | 0 <= i < |deals| ensures KeepsPending(deals[i], m) {
      HandledKeepsPending(deals[i], hash, m);
    }
  }

  lemma AllRebind(deals: seq<Deal>, hash: string -> string)
    requires AllHandled(deals, hash)
    ensures forall i :: 0 <= i < |deals| ==> Rebinds(deals[i])
    ensures forall i :: 0 <= i < |deals| ==> Saves(deals[i])
    ensures forall i :: 0 <= i < |deals| ==> Pairs(deals[i])
  {
    forall i | 0 <= i < |deals| ensures Rebinds(deals[i]) && Saves(deals[i]) && Pairs(deals[i]) {
      HandledRebinds(deals[i], hash);
      HandledSaves(deals[i], hash);
    }
  }

  ghost function AccountStepsOf(deals: seq<Deal>): seq<Accounts.Op> {
    if deals == [] then []
    else AccountStepsOf(deals[..|deals| - 1]) + AccountSteps(deals[|deals| - 1])
  }

  ghost function DeliveryStepsOf(deals: seq<Deal>): seq<Messages.Op<CSession>> {
    if deals == [] then []
    else DeliveryStepsOf(deals[..|deals| - 1]) + DeliverySteps(deals[|deals| - 1])
  }

  /** Every session has been offered exactly the answers it is owed, in order. */
  lemma {:induction false} AnswersAddUp(start: Snapshot, deals: seq<Deal>, now: Snapshot,
      handled: seq<Request<CSession>>, parse: seq<Byte> -> Body, s: CSession)
    requires (forall i :: 0 <= i < |deals| ==> AnswersOnce(deals[i], s))
    requires Chain(start, deals, now) && AllServe(deals, handled, parse)
    ensures ReplyIds(now.outbox, s) == ReplyIds(start.outbox, s) + Owed(handled, s)
    decreases |deals|
  {
    if deals != [] {
      var k := |deals| - 1;
      AnswersAddUp(start, deals[..k], deals[k].before, handled[..k], parse, s);
      assert AnswersOnce(deals[k], s) && Serves(deals[k], handled[k], parse);
    }
  }

  /** The steps the tables and the delivery machine have made are those of the handled requests' bodies, in
      order. */
  lemma {:induction false} StepsAddUp(start: Snapshot, deals: seq<Deal>, now: Snapshot)
    requires Chain(start, deals, now) && forall i :: 0 <= i < |deals| ==> Steps(deals[i])
    ensures now.history == start.history + AccountStepsOf(deals)
    ensures now.ops == start.ops + DeliveryStepsOf(deals)
    decreases |deals|
  {
    if deals != [] {
      var k := |deals| - 1;
      StepsAddUp(start, deals[..k], deals[k].before);
      assert Steps(deals[k]);
    }
  }

  // ---- registrations and logins ----

  /** What an earlier request left of registrations and pairs is there when a later one is taken up. */
  lemma {:induction false} AccountsStay(start: Snapshot, deals: seq<Deal>, now: Snapshot, i: nat, j: nat)
    requires Chain(start, deals, now) && i < j < |deals|
    requires forall k :: 0 <= k < |deals| ==> Keeps(deals[k])
    ensures deals[i].after.tables.registered <= deals[j].before.tables.registered
    ensures deals[i].after.tables.befriended <= deals[j].before.tables.befriended
    decreases |deals|
  {
    var k := |deals| - 1;
    if j < k {
      AccountsStay(start, deals[..k], deals[k].before, i, j);
    } else if i < k - 1 {
      AccountsStay(start, deals[..k], deals[k].before, i, k - 1);
      assert Keeps(deals[k - 1]);
      assert deals[..k][k - 1] == deals[k - 1];
    }
  }

  lemma {:induction false} SentStays(start: Snapshot, deals: seq<Deal>, now: Snapshot, i: nat)
    requires Chain(start, deals, now) && i < |deals|
    requires forall k :: 0 <= k < |deals| ==> Keeps(deals[k])
    ensures deals[i].after.outbox <= now.outbox
    decreases |deals|
  {
    var k := |deals| - 1;
    if i < k {
      SentStays(start, deals[..k], deals[k].before, i);
      assert Keeps(deals[k]);
    }
  }

  lemma NamesUnique(tables: Accounts.State, history: seq<Accounts.Op>, hash: string -> string,
                    a: Accounts.Registration, b: Accounts.Registration)
    requires Accounts.IsRun(history, tables, hash)
    requires a in tables.registered && b in tables.registered && a.name == b.name
    ensures a == b
  {
    Accounts.UsersStayUnique(history, hash);
    var i :| 0 <= i < |tables.registered| && tables.registered[i] == a;
    var j :| 0 <= j < |tables.registered| && tables.registered[j] == b;
    assert tables.users[i].name == a.name && tables.users[j].name == b.name;
  }

  lemma RegisteredWhenDone(d: Deal, hash: string -> string)
    requires Handled(d, hash) && d.id == MSG_REGISTER_REQ && Answers(d, [], MSG_REGISTER_RSP, Done)
    ensures Credible(d.body) && d.ins.Picks?
    ensures Accounts.Registration(d.ins.rowid, d.body.username.value, d.body.password.value)
            in d.after.tables.registered
  {
    var sent := Sent(d.session, MSG_REGISTER_RSP, Done, Reply);
    assert d.after.outbox[|d.before.outbox|] == sent;
    var reg := Accounts.Registration(d.ins.rowid, d.body.username.value, d.body.password.value);
    assert d.after.tables.registered[|d.before.tables.registered|] == reg;
  }

  /** A login that finds a registration of its username succeeds with exactly the passwords of equal hash, and
      reaches that registration's account. */
  lemma LoginMeets(d: Deal, hash: string -> string, reg: Accounts.Registration)
    requires Handled(d, hash) && Sound(d, hash) && d.id == MSG_LOGIN_REQ && !d.env.fails && Credible(d.body)
    requires reg in d.before.tables.registered && reg.name == d.body.username.value
    ensures d.login == if hash(reg.password) == hash(d.body.password.value) then Some(reg.uid) else None
  {
    forall other | other in d.before.tables.registered && other.name == reg.name ensures other == reg {
      NamesUnique(d.before.tables, d.before.history, hash, other, reg);
    }
    if d.login.Some? {
      assert exists other :: other in d.before.tables.registered && other.uid == d.login.value
                             && other.name == reg.name && hash(other.password) == hash(d.body.password.value);
    }
  }

  /** How a login is answered. */
  lemma LoginIsAnswered(d: Deal, hash: string -> string)
    requires Handled(d, hash) && d.id == MSG_LOGIN_REQ
    ensures d.after.outbox != []
    ensures var answer := d.after.outbox[|d.after.outbox| - 1];
            && answer.session == d.session && answer.id == MSG_LOGIN_RSP && answer.kind == Reply
            && match d.login
               case None => answer.payload == Failure
               case Some(u) => answer.payload.LoggedIn? && answer.payload.uid == u
  {
  }

  /** Whoever was told `Done` when registering can log in ever after with the same username and exactly the
      passwords of equal hash, the same one among them, and reaches the account that was registered. */
  lemma RegisteredCanLogIn(start: Snapshot, deals: seq<Deal>, now: Snapshot, hash: string -> string, i: nat, j: nat)
    requires AllHandled(deals, hash) && Chain(start, deals, now) && i < j < |deals|
    requires deals[i].id == MSG_REGISTER_REQ && Answers(deals[i], [], MSG_REGISTER_RSP, Done)
    requires deals[j].id == MSG_LOGIN_REQ && !deals[j].env.fails && Credible(deals[j].body)
    requires deals[i].body.Json? && deals[j].body.username == deals[i].body.username
    ensures Credible(deals[i].body) && deals[i].ins.Picks? && deals[j].after.outbox != []
    ensures var same := hash(deals[j].body.password.value) == hash(deals[i].body.password.value);
            var answer := deals[j].after.outbox[|deals[j].after.outbox| - 1];
            && answer.session == deals[j].session && answer.id == MSG_LOGIN_RSP && answer.kind == Reply
            && if same then answer.payload.LoggedIn? && answer.payload.uid == deals[i].ins.rowid
               else answer.payload == Failure
  {
    AllStep(deals, hash);
    AccountsStay(start, deals, now, i, j);
    RegisteredWhenDone(deals[i], hash);
    var reg := Accounts.Registration(deals[i].ins.rowid, deals[i].body.username.value, deals[i].body.password.value);
    LoginMeets(deals[j], hash, reg);
    LoginIsAnswered(deals[j], hash);
  }

  lemma AnswerStays(start: Snapshot, deals: seq<Deal>, now: Snapshot, hash: string -> string, j: nat)
    requires AllHandled(deals, hash) && Chain(start, deals, now) && j < |deals| && deals[j].after.outbox != []
    ensures deals[j].after.outbox[|deals[j].after.outbox| - 1] in now.outbox
  {
    AllStep(deals, hash);
    SentStays(start, deals, now, j);
    var k := |deals[j].after.outbox| - 1;
    assert now.outbox[k] == deals[j].after.outbox[k];
  }

  /** In particular, the same body sent as a login is answered with the account that was registered. */
  lemma RegistrantLogsIn(start: Snapshot, deals: seq<Deal>, now: Snapshot, hash: string -> string, i: nat, j: nat)
    returns (n: nat)
    requires AllHandled(deals, hash) && Chain(start, deals, now) && i < j < |deals|
    requires deals[i].id == MSG_REGISTER_REQ && Answers(deals[i], [], MSG_REGISTER_RSP, Done)
    requires deals[j].id == MSG_LOGIN_REQ && !deals[j].env.fails && deals[j].body == deals[i].body
    ensures deals[i].ins.Picks?
    ensures Sent(deals[j].session, MSG_LOGIN_RSP, LoggedIn(deals[i].ins.rowid, n), Reply) in now.outbox
  {
    RegisteredWhenDone(deals[i], hash);
    RegisteredCanLogIn(start, deals, now, hash, i, j);
    AnswerStays(start, deals, now, hash, j);
    n := deals[j].after.outbox[|deals[j].after.outbox| - 1].payload.offlineCount;
  }

  // ---- who sent what ----

  /** The account a session last logged in to. */
  ghost function LastLogin(deals: seq<Deal>, s: CSession): int {
    if deals == [] then 0
    else
      var d := deals[|deals| - 1];
      if d.id == MSG_LOGIN_REQ && d.session == s && d.login.Some? then d.login.value
      else LastLogin(deals[..|deals| - 1], s)
  }

  ghost predicate NobodyLoggedIn(start: Snapshot) {
    forall s :: s in start.presence.sessions ==> start.presence.sessions[s].uid == 0
  }

  /** A session is bound to the account it last logged in to, if it is open; otherwise to that one or none. */
  lemma {:induction false} UidIsLastLogin(start: Snapshot, deals: seq<Deal>, now: Snapshot, s: CSession)
    requires Chain(start, deals, now) && NobodyLoggedIn(start)
    requires forall i :: 0 <= i < |deals| ==> Rebinds(deals[i])
    requires s in now.presence.sessions
    ensures var uid := now.presence.sessions[s].uid;
            && (uid == LastLogin(deals, s) || uid == 0)
            && (Presence.Open(now.presence, s) ==> uid == LastLogin(deals, s))
    decreases |deals|
  {
    if deals != [] {
      var k := |deals| - 1;
      assert Rebinds(deals[k]);
      UidIsLastLogin(start, deals[..k], deals[k].before, s);
    }
  }

  /** Nobody can send in another's name: every message that was saved is the chat of a session whose last
      login was to the account named as its sender, with that chat's recipient and text. */
  lemma {:induction false} SenderIsAuthentic(start: Snapshot, deals: seq<Deal>, now: Snapshot, m: Messages.Message)
    returns (i: nat)
    requires Chain(start, deals, now) && NobodyLoggedIn(start)
    requires forall i :: 0 <= i < |deals| ==> Rebinds(deals[i]) && Saves(deals[i])
    requires m in now.delivery.saved && m !in start.delivery.saved
    ensures i < |deals| && Sends(deals[i], m) && m.from == LastLogin(deals[..i], deals[i].session)
    decreases |deals|
  {
    assert deals != [];
    var k := |deals| - 1;
    var d := deals[k];
    assert Rebinds(d) && Saves(d);
    if m in d.before.delivery.saved {
      i := SenderIsAuthentic(start, deals[..k], d.before, m);
      assert deals[..k][..i] == deals[..i];
    } else {
      UidIsLastLogin(start, deals[..k], d.before, d.session);
      i := k;
    }
  }

  /** Nor befriend: every accepted pair is the request of a session whose last login was to its first account,
      naming the second. */
  lemma {:induction false} RequesterIsAuthentic(start: Snapshot, deals: seq<Deal>, now: Snapshot,
      f: Accounts.Friendship) returns (i: nat)
    requires Chain(start, deals, now) && NobodyLoggedIn(start)
    requires forall i :: 0 <= i < |deals| ==> Rebinds(deals[i]) && Pairs(deals[i])
    requires f in now.tables.befriended && f !in start.tables.befriended
    ensures i < |deals| && Requests(deals[i], f) && f.uid == LastLogin(deals[..i], deals[i].session)
    decreases |deals|
  {
    assert deals != [];
    var k := |deals| - 1;
    var d := deals[k];
    assert Rebinds(d) && Pairs(d);
    if f in d.before.tables.befriended {
      i := RequesterIsAuthentic(start, deals[..k], d.before, f);
      assert deals[..k][..i] == deals[..i];
    } else {
      UidIsLastLogin(start, deals[..k], d.before, d.session);
      i := k;
    }
  }

  // ---- friends and messages reach their lists ----

  lemma PairedWhenDone(d: Deal, hash: string -> string)
    requires Handled(d, hash) && d.id == MSG_ADD_FRIEND_REQ
    requires d.after.outbox != [] && d.after.outbox[|d.after.outbox| - 1].payload == Done
    ensures Uid(d) != 0 && Befriendable(d.body, Uid(d))
    ensures Accounts.Friendship(Uid(d), d.body.friendUid.value) in d.after.tables.befriended
  {
    var f := Accounts.Friendship(Uid(d), d.body.friendUid.value);
    assert d.after.tables.befriended[|d.before.tables.befriended|] == f;
  }

  /** A pair once accepted is in the friend lists of both ever after, if reading the list is not cut short. */
  lemma FriendsAreListed(start: Snapshot, deals: seq<Deal>, now: Snapshot, hash: string -> string, i: nat, j: nat)
    requires AllHandled(deals, hash) && Chain(start, deals, now) && i < j < |deals|
    requires deals[i].id == MSG_ADD_FRIEND_REQ && deals[i].after.outbox != []
    requires deals[i].after.outbox[|deals[i].after.outbox| - 1].payload == Done
    requires deals[j].id == MSG_GET_FRIEND_LIST_REQ
    requires deals[j].env.rows >= |Accounts.FriendRows(deals[j].before.tables.friends, Uid(deals[j]))|
    ensures Befriendable(deals[i].body, Uid(deals[i])) && deals[j].after.outbox != []
    ensures var a, b := Uid(deals[i]), deals[i].body.friendUid.value;
            var answer := deals[j].after.outbox[|deals[j].after.outbox| - 1];
            && answer.session == deals[j].session && answer.id == MSG_GET_FRIEND_LIST_RSP
            && (Uid(deals[j]) == a ==> answer.payload.Friends? && b in answer.payload.uids)
            && (Uid(deals[j]) == b ==> answer.payload.Friends? && a in answer.payload.uids)
  {
    AllStep(deals, hash);
    AccountsStay(start, deals, now, i, j);
    PairedWhenDone(deals[i], hash);
    ListsPair(deals[j], hash, Accounts.Friendship(Uid(deals[i]), deals[i].body.friendUid.value));
  }

  lemma ListsPair(d: Deal, hash: string -> string, f: Accounts.Friendship)
    requires Handled(d, hash) && Sound(d, hash) && d.id == MSG_GET_FRIEND_LIST_REQ
    requires f in d.before.tables.befriended && f.uid != 0 && f.friend != 0
    requires d.env.rows >= |Accounts.FriendRows(d.before.tables.friends, Uid(d))|
    ensures d.after.outbox != []
    ensures var answer := d.after.outbox[|d.after.outbox| - 1];
            && answer.session == d.session && answer.id == MSG_GET_FRIEND_LIST_RSP
            && (Uid(d) == f.uid ==> answer.payload.Friends? && f.friend in answer.payload.uids)
            && (Uid(d) == f.friend ==> answer.payload.Friends? && f.uid in answer.payload.uids)
  {
    Accounts.FriendListExact(d.before.history, hash, f.uid, f.friend);
    Accounts.FriendListExact(d.before.history, hash, f.friend, f.uid);
  }

  /** Messages an earlier request left undelivered are so when a later one is taken up, if none in between hands
      out their recipient's. */
  lemma {:induction false} StaysPending(start: Snapshot, deals: seq<Deal>, now: Snapshot, m: Messages.Message,
      i: nat, j: nat)
    requires Chain(start, deals, now) && i < j < |deals|
    requires forall k :: 0 <= k < |deals| ==> KeepsPending(deals[k], m)
    requires forall k :: i < k < j ==> !PullsFor(deals[k], m.to)
    requires Messages.Row(m, false) in deals[i].after.delivery.rows
    ensures Messages.Row(m, false) in deals[j].before.delivery.rows
    decreases |deals|
  {
    var k := |deals| - 1;
    if j < k {
      StaysPending(start, deals[..k], deals[k].before, m, i, j);
    } else if i < k - 1 {
      StaysPending(start, deals[..k], deals[k].before, m, i, k - 1);
      assert KeepsPending(deals[k - 1], m) && !PullsFor(deals[k - 1], m.to);
      assert deals[..k][k - 1] == deals[k - 1];
    }
  }

  lemma SavedWhenAnswered(d: Deal, hash: string -> string, id: int) returns (m: Messages.Message)
    requires Handled(d, hash) && d.id == MSG_SEND_CHAT_REQ
    requires d.after.outbox != [] && d.after.outbox[|d.after.outbox| - 1].payload == Saved(id)
    ensures Chattable(d.body)
    ensures m == Messages.Message(id, Uid(d), d.body.toUid.value, d.body.content.value, d.env.time)
    ensures Messages.Row(m, false) in d.after.delivery.rows
  {
    m := Messages.Message(id, Uid(d), d.body.toUid.value, d.body.content.value, d.env.time);
    assert d.after.delivery.rows[|d.before.delivery.rows|] == Messages.Row(m, false);
  }

  /** A pull that is not cut short hands out every undelivered message of its account, in the first thing it
      sends. */
  lemma PullHandsOut(d: Deal, hash: string -> string, m: Messages.Message)
    requires Handled(d, hash) && PullsFor(d, m.to) && m.to > 0
    requires Messages.Row(m, false) in d.before.delivery.rows
    requires d.env.rows > |Messages.Undelivered(d.before.delivery.rows, m.to)|
    ensures |d.after.outbox| > |d.before.outbox|
    ensures var x := d.after.outbox[|d.before.outbox|];
            x.session == d.session && x.payload.Offline? && x.payload.uid == m.to && m in x.payload.messages
  {
    Messages.GetOfflineMeans(d.before.delivery.rows, m.to, d.env.rows, d.env.marks);
  }

  /** A chat that was answered `Saved` is handed out at the recipient's next login or offline request, whichever
      comes first, if reading the table is not cut short. */
  lemma ChatReachesRecipient(start: Snapshot, deals: seq<Deal>, now: Snapshot, hash: string -> string,
      i: nat, j: nat, id: int)
    requires AllHandled(deals, hash) && Chain(start, deals, now) && i < j < |deals|
    requires deals[i].id == MSG_SEND_CHAT_REQ && deals[i].after.outbox != []
    requires deals[i].after.outbox[|deals[i].after.outbox| - 1].payload == Saved(id)
    requires deals[i].body.Json? && deals[i].body.toUid.Is?
    requires PullsFor(deals[j], deals[i].body.toUid.value)
    requires forall k :: i < k < j ==> !PullsFor(deals[k], deals[i].body.toUid.value)
    requires deals[j].env.rows > |Messages.Undelivered(deals[j].before.delivery.rows, deals[i].body.toUid.value)|
    ensures Chattable(deals[i].body) && |deals[j].after.outbox| > |deals[j].before.outbox|
    ensures var to, content := deals[i].body.toUid.value, deals[i].body.content.value;
            var x := deals[j].after.outbox[|deals[j].before.outbox|];
            && x.session == deals[j].session && x.payload.Offline? && x.payload.uid == to
            && Messages.Message(id, Uid(deals[i]), to, content, deals[i].env.time) in x.payload.messages
  {
    var m := SavedWhenAnswered(deals[i], hash, id);
    AllKeepPending(deals, hash, m);
    StaysPending(start, deals, now, m, i, j);
    PullHandsOut(deals[j], hash, m);
  }

  // ---- if marking always succeeds ----

  ghost predicate PullsMark(ops: seq<Messages.Op<CSession>>) {
    forall i :: 0 <= i < |ops| && ops[i].Pull? ==> ops[i].marks
  }

  lemma {:induction false} AllMarked(ops: seq<Messages.Op<CSession>>, uid: int)
    requires PullsMark(ops)
    ensures Messages.AlwaysMarks(ops, uid)
    decreases |ops|
  {
    if ops != [] {
      AllMarked(ops[1..], uid);
    }
  }

  lemma {:induction false} DealsMark(deals: seq<Deal>)
    requires forall i :: 0 <= i < |deals| ==> deals[i].env.marks
    ensures PullsMark(DeliveryStepsOf(deals))
    decreases |deals|
  {
    if deals != [] {
      var k := |deals| - 1;
      DealsMark(deals[..k]);
      assert PullsMark(DeliverySteps(deals[k])) by {
        assert deals[k].env.marks;
      }
    }
  }

  /** If the UPDATE succeeded for every handled request, no account was handed a message in two batches. */
  lemma {:induction false} MarkedOnce(start: Snapshot, deals: seq<Deal>, now: Snapshot, uid: int)
    requires Chain(start, deals, now) && uid > 0 && forall i :: 0 <= i < |deals| ==> Steps(deals[i])
    requires start.ops == [] && Messages.IsRun(now.ops, now.delivery)
    requires forall i :: 0 <= i < |deals| ==> deals[i].env.marks
    ensures Messages.Increasing(Messages.Handed(now.delivery.log, uid))
  {
    StepsAddUp(start, deals, now);
    DealsMark(deals);
    AllMarked(now.ops, uid);
    Messages.AtMostOneBatch(now.ops, uid);
  }
}
