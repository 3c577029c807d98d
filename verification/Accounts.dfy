/** The users and friends tables: what the SQL of `DBManager` does to them, as functions on rows,
    and what holds after any history of registrations and friend additions. */
module Accounts {

  datatype User = User(uid: int, name: string, hash: string)
  datatype Friendship = Friendship(uid: int, friend: int)

  /** How SQLite answers an INSERT: it fails, or AUTOINCREMENT picks a row id. */
  datatype Insert = Fails | Picks(rowid: int)

  // ---- queries and updates ----

  predicate HasName(users: seq<User>, name: string) {
    exists i :: 0 <= i < |users| && users[i].name == name
  }

  predicate HasUid(users: seq<User>, uid: int) {
    exists i :: 0 <= i < |users| && users[i].uid == uid
  }

  /** AUTOINCREMENT never picks a row id at or below one used before. */
  predicate Grows(users: seq<User>, ins: Insert) {
    ins.Picks? ==> ins.rowid > 0 && forall i :: 0 <= i < |users| ==> users[i].uid < ins.rowid
  }

  function LastUid(users: seq<User>): int {
    if users == [] then 0 else users[|users| - 1].uid
  }

  function Register(users: seq<User>, name: string, password: string, hash: string -> string, ins: Insert)
    : (seq<User>, bool)
  {
    if name == "" || password == "" || HasName(users, name) || ins.Fails? then (users, false)
    else (users + [User(ins.rowid, name, hash(password))], true)
  }

  /** `SELECT uid, password_hash FROM users WHERE username = ?`: the first row, if any. */
  function SelectByName(users: seq<User>, name: string): (r: seq<User>)
    ensures |r| <= 1
  {
    if users == [] then []
    else if users[0].name == name then [users[0]]
    else SelectByName(users[1..], name)
  }

  function Login(users: seq<User>, name: string, password: string, hash: string -> string, fails: bool): (bool, int) {
    if name == "" || password == "" || fails then (false, 0)
    else
      var rows := SelectByName(users, name);
      if rows != [] && rows[0].hash == hash(password) then (true, rows[0].uid) else (false, 0)
  }

  /** `SELECT COUNT(*) FROM users WHERE uid = ? OR uid = ?`. */
  function CountUids(users: seq<User>, a: int, b: int): nat {
    if users == [] then 0
    else (if users[0].uid == a || users[0].uid == b then 1 else 0) + CountUids(users[1..], a, b)
  }

  predicate Linked(friends: seq<Friendship>, a: int, b: int) {
    Friendship(a, b) in friends || Friendship(b, a) in friends
  }

  /** Whether an INSERT of the pair is kept out: by the query for it in either direction, or, when that
      query fails (`blind`), by UNIQUE(uid, friend_uid) alone. */
  predicate Barred(friends: seq<Friendship>, a: int, b: int, blind: bool) {
    if blind then Friendship(a, b) in friends else Linked(friends, a, b)
  }

  function AddFriend(users: seq<User>, friends: seq<Friendship>, a: int, b: int, blind: bool, fails: bool)
    : (seq<Friendship>, bool)
  {
    if a <= 0 || b <= 0 || a == b || CountUids(users, a, b) < 2 || Barred(friends, a, b, blind) || fails
    then (friends, false)
    else (friends + [Friendship(a, b)], true)
  }

  /** The rows of one half of the friend query: `side` picks the column compared with `uid`. */
  function SelectFriends(friends: seq<Friendship>, uid: int, first: bool): seq<int> {
    if friends == [] then []
    else
      var f := friends[0];
      (if first && f.uid == uid then [f.friend] else if !first && f.friend == uid then [f.uid] else [])
      + SelectFriends(friends[1..], uid, first)
  }

  function Distinct(xs: seq<int>): (r: seq<int>)
    ensures forall x :: x in r <==> x in xs
    ensures forall i, j :: 0 <= i < j < |r| ==> r[i] != r[j]
  {
    if xs == [] then []
    else
      var rest := Distinct(xs[1..]);
      if xs[0] in rest then rest else [xs[0]] + rest
  }

  /** The SQL UNION of both halves: each friend once. */
  function FriendRows(friends: seq<Friendship>, uid: int): seq<int> {
    Distinct(SelectFriends(friends, uid, true) + SelectFriends(friends, uid, false))
  }

  /** `GetFriendList` when stepping yields at most `rows` rows before an error. */
  function FriendList(friends: seq<Friendship>, uid: int, rows: nat): seq<int> {
    if uid <= 0 then []
    else
      var all := FriendRows(friends, uid);
      if rows < |all| then all[..rows] else all
  }

  // ---- histories ----

  datatype Op =
    | SignUp(name: string, password: string, ins: Insert)
    | Befriend(a: int, b: int, blind: bool, fails: bool)

  datatype Registration = Registration(uid: int, name: string, password: string)

  /** Both tables, with the histories of what was accepted. */
  datatype State = State(
    users: seq<User>, friends: seq<Friendship>,
    registered: seq<Registration>, befriended: seq<Friendship>)

  predicate Possible(st: State, op: Op) {
    op.SignUp? ==> Grows(st.users, op.ins)
  }

  function Apply(st: State, op: Op, hash: string -> string): State {
    match op
    case SignUp(name, password, ins) =>
      var (users, ok) := Register(st.users, name, password, hash, ins);
      if ok then st.(users := users, registered := st.registered + [Registration(ins.rowid, name, password)]) else st
    case Befriend(a, b, blind, fails) =>
      var (friends, ok) := AddFriend(st.users, st.friends, a, b, blind, fails);
      if ok then st.(friends := friends, befriended := st.befriended + [Friendship(a, b)]) else st
  }

  predicate AllPossible(st: State, ops: seq<Op>, hash: string -> string)
    decreases |ops|
  {
    ops == [] || (Possible(st, ops[0]) && AllPossible(Apply(st, ops[0], hash), ops[1..], hash))
  }

  function Exec(st: State, ops: seq<Op>, hash: string -> string): State
    decreases |ops|
  {
    if ops == [] then st else Exec(Apply(st, ops[0], hash), ops[1..], hash)
  }

  function Empty(): State {
    State([], [], [], [])
  }

  /** The tables `st` are what the history `ops` makes of empty ones. */
  predicate IsRun(ops: seq<Op>, st: State, hash: string -> string) {
    AllPossible(Empty(), ops, hash) && st == Exec(Empty(), ops, hash)
  }

  lemma {:induction false} ExecAppend(st: State, ops: seq<Op>, op: Op, hash: string -> string)
    requires AllPossible(st, ops, hash) && Possible(Exec(st, ops, hash), op)
    ensures AllPossible(st, ops + [op], hash) && Exec(st, ops + [op], hash) == Apply(Exec(st, ops, hash), op, hash)
    decreases |ops|
  {
    if ops == [] {
      assert [op][1..] == [];
      assert Exec(Apply(st, op, hash), [], hash) == Apply(st, op, hash);
    } else {
      assert (ops + [op])[1..] == ops[1..] + [op];
      ExecAppend(Apply(st, ops[0], hash), ops[1..], op, hash);
    }
  }

  // ---- invariants ----

  ghost predicate UsersInv(users: seq<User>) {
    && (forall i :: 0 <= i < |users| ==> users[i].uid > 0)
    && (forall i, j :: 0 <= i < j < |users| ==> users[i].uid < users[j].uid && users[i].name != users[j].name)
  }

  /** Row by row, the table holds the accepted registrations, with hashes for passwords. */
  ghost predicate Mirrors(users: seq<User>, regs: seq<Registration>, hash: string -> string) {
    && |users| == |regs|
    && (forall i :: 0 <= i < |users| ==>
          users[i] == User(regs[i].uid, regs[i].name, hash(regs[i].password))
          && regs[i].name != "" && regs[i].password != "")
  }

  ghost predicate FriendsInv(users: seq<User>, friends: seq<Friendship>) {
    && (forall i :: 0 <= i < |friends| ==>
          friends[i].uid != friends[i].friend && HasUid(users, friends[i].uid) && HasUid(users, friends[i].friend))
    && (forall i, j :: 0 <= i < j < |friends| ==> friends[i] != friends[j])
  }

  /** No pair is stored in both directions. */
  ghost predicate OneDirection(friends: seq<Friendship>) {
    forall f :: f in friends ==> Friendship(f.friend, f.uid) !in friends
  }

  ghost predicate Inv(st: State, hash: string -> string) {
    && UsersInv(st.users)
    && Mirrors(st.users, st.registered, hash)
    && FriendsInv(st.users, st.friends)
    && st.friends == st.befriended
  }

  /** Which names and uids the table has, in terms of the accepted registrations. */
  lemma RegisteredExact(st: State, hash: string -> string, name: string, uid: int)
    requires Mirrors(st.users, st.registered, hash)
    ensures HasName(st.users, name) <==> exists reg :: reg in st.registered && reg.name == name
    ensures HasUid(st.users, uid) <==> exists reg :: reg in st.registered && reg.uid == uid
  {
    if HasName(st.users, name) {
      var i :| 0 <= i < |st.users| && st.users[i].name == name;
      assert st.registered[i].name == name;
    }
    if HasUid(st.users, uid) {
      var i :| 0 <= i < |st.users| && st.users[i].uid == uid;
      assert st.registered[i].uid == uid;
    }
    forall reg | reg in st.registered
      ensures HasUid(st.users, reg.uid) && HasName(st.users, reg.name)
    {
      var i :| 0 <= i < |st.registered| && st.registered[i] == reg;
      assert st.users[i].uid == reg.uid && st.users[i].name == reg.name;
    }
  }

  lemma CountZero(users: seq<User>, a: int, b: int)
    ensures CountUids(users, a, b) == 0 <==> !HasUid(users, a) && !HasUid(users, b)
  {
    if users != [] {
      CountZero(users[1..], a, b);
      assert users == [users[0]] + users[1..];
    }
  }

  lemma CountOne(users: seq<User>, a: int, b: int)
    requires UsersInv(users) && !HasUid(users, a)
    ensures CountUids(users, a, b) <= 1
  {
    if users != [] {
      assert users == [users[0]] + users[1..];
      if users[0].uid == b {
        assert !HasUid(users[1..], b) && !HasUid(users[1..], a);
        CountZero(users[1..], a, b);
      } else {
        CountOne(users[1..], a, b);
      }
    }
  }

  lemma CountSymmetric(users: seq<User>, a: int, b: int)
    ensures CountUids(users, a, b) == CountUids(users, b, a)
  {
  }

  /** The COUNT test of AddFriend says what it is meant to say, because uids are unique. */
  lemma {:induction false} CountMeansBothExist(users: seq<User>, a: int, b: int)
    requires UsersInv(users) && a != b
    ensures CountUids(users, a, b) >= 2 <==> HasUid(users, a) && HasUid(users, b)
  {
    if !HasUid(users, a) {
      CountOne(users, a, b);
    } else if !HasUid(users, b) {
      CountOne(users, b, a);
      CountSymmetric(users, a, b);
    } else {
      assert users == [users[0]] + users[1..];
      if users[0].uid == a {
        assert HasUid(users[1..], b);
        CountZero(users[1..], a, b);
      } else if users[0].uid == b {
        assert HasUid(users[1..], a);
        CountZero(users[1..], a, b);
      } else {
        assert HasUid(users[1..], a) && HasUid(users[1..], b);
        CountMeansBothExist(users[1..], a, b);
      }
    }
  }

  lemma StillHasUid(users: seq<User>, user: User, uid: int)
    requires HasUid(users, uid)
    ensures HasUid(users + [user], uid)
  {
    var i :| 0 <= i < |users| && users[i].uid == uid;
    assert (users + [user])[i].uid == uid;
  }

  lemma SignUpKeepsInv(st: State, op: Op, hash: string -> string)
    requires op.SignUp? && Inv(st, hash) && Possible(st, op)
    ensures Inv(Apply(st, op, hash), hash)
  {
    var users := Apply(st, op, hash).users;
    if users != st.users {
      forall uid | HasUid(st.users, uid) ensures HasUid(users, uid) {
        StillHasUid(st.users, users[|users| - 1], uid);
      }
      assert forall i :: 0 <= i < |st.users| ==> st.users[i].name != op.name;
    }
  }

  lemma BefriendKeepsInv(st: State, op: Op, hash: string -> string)
    requires op.Befriend? && Inv(st, hash)
    ensures Inv(Apply(st, op, hash), hash)
  {
    if op.a != op.b {
      CountMeansBothExist(st.users, op.a, op.b);
    }
  }

  lemma StepKeepsInv(st: State, op: Op, hash: string -> string)
    requires Inv(st, hash) && Possible(st, op)
    ensures Inv(Apply(st, op, hash), hash)
  {
    if op.SignUp? {
      SignUpKeepsInv(st, op, hash);
    } else {
      BefriendKeepsInv(st, op, hash);
    }
  }

  lemma {:induction false} RunKeepsInv(st: State, ops: seq<Op>, hash: string -> string)
    requires Inv(st, hash) && AllPossible(st, ops, hash)
    ensures Inv(Exec(st, ops, hash), hash)
    decreases |ops|
  {
    if ops != [] {
      StepKeepsInv(st, ops[0], hash);
      RunKeepsInv(Apply(st, ops[0], hash), ops[1..], hash);
    }
  }

  // ---- main results ----

  /** Over any history, usernames stay unique, and uids are positive, strictly increasing, never reused. */
  lemma UsersStayUnique(ops: seq<Op>, hash: string -> string)
    requires AllPossible(Empty(), ops, hash)
    ensures UsersInv(Exec(Empty(), ops, hash).users)
    ensures Mirrors(Exec(Empty(), ops, hash).users, Exec(Empty(), ops, hash).registered, hash)
  {
    RunKeepsInv(Empty(), ops, hash);
  }

  lemma {:induction false} SelectExact(users: seq<User>, i: nat)
    requires UsersInv(users) && i < |users|
    ensures SelectByName(users, users[i].name) == [users[i]]
  {
    if i > 0 {
      assert users[1..][i - 1] == users[i] && users[0].name != users[i].name;
      SelectExact(users[1..], i - 1);
    }
  }

  lemma {:induction false} SelectAbsent(users: seq<User>, name: string)
    ensures SelectByName(users, name) == [] <==> !HasName(users, name)
    ensures SelectByName(users, name) != []
            ==> SelectByName(users, name)[0] in users && SelectByName(users, name)[0].name == name
  {
    if users != [] {
      SelectAbsent(users[1..], name);
      assert users == [users[0]] + users[1..];
    }
  }

  ghost predicate RegisteredAs(reg: Registration, uid: int, name: string, password: string, hash: string -> string) {
    reg.uid == uid && reg.name == name && hash(reg.password) == hash(password)
  }

  /** Login answers (true, u) exactly when the registration that created u used that username and a
      password with the same hash, and the password is not empty; otherwise it answers (false, 0). */
  ghost predicate LoginAnswer(st: State, hash: string -> string, name: string, password: string, r: (bool, int)) {
    && (forall u :: r == (true, u) <==>
          password != "" && exists reg :: reg in st.registered && RegisteredAs(reg, u, name, password, hash))
    && (if r.0 then r.1 > 0 else r.1 == 0)
  }

  lemma LoginIsExact(st: State, hash: string -> string, name: string, password: string)
    requires Inv(st, hash)
    ensures LoginAnswer(st, hash, name, password, Login(st.users, name, password, hash, false))
  {
    var r := Login(st.users, name, password, hash, false);
    SelectAbsent(st.users, name);
    if r.0 {
      var row := SelectByName(st.users, name)[0];
      var i :| 0 <= i < |st.users| && st.users[i] == row;
      assert RegisteredAs(st.registered[i], r.1, name, password, hash);
    }
    forall reg, u | password != "" && reg in st.registered && RegisteredAs(reg, u, name, password, hash)
      ensures r == (true, u)
    {
      var i :| 0 <= i < |st.registered| && st.registered[i] == reg;
      SelectExact(st.users, i);
    }
  }

  lemma LoginExact(ops: seq<Op>, hash: string -> string, name: string, password: string)
    requires AllPossible(Empty(), ops, hash)
    ensures var st := Exec(Empty(), ops, hash);
            LoginAnswer(st, hash, name, password, Login(st.users, name, password, hash, false))
  {
    RunKeepsInv(Empty(), ops, hash);
    LoginIsExact(Exec(Empty(), ops, hash), hash, name, password);
  }

  /** Accepted registrations are never taken back. */
  lemma {:induction false} RegistrationsStay(st: State, ops: seq<Op>, hash: string -> string)
    ensures st.registered <= Exec(st, ops, hash).registered
    decreases |ops|
  {
    if ops != [] {
      RegistrationsStay(Apply(st, ops[0], hash), ops[1..], hash);
    }
  }

  /** Whoever registered can log in with the same password, and with exactly those of equal hash, whatever
      happened since. */
  lemma RegisteredLogsIn(st: State, name: string, password: string, ins: Insert, since: seq<Op>,
      hash: string -> string, attempt: string)
    requires Inv(st, hash) && Register(st.users, name, password, hash, ins).1
    requires Possible(st, SignUp(name, password, ins))
            && AllPossible(Apply(st, SignUp(name, password, ins), hash), since, hash)
    ensures var later := Exec(Apply(st, SignUp(name, password, ins), hash), since, hash);
            && (Login(later.users, name, attempt, hash, false).0 <==> attempt != "" && hash(attempt) == hash(password))
            && (Login(later.users, name, attempt, hash, false).0
                ==> Login(later.users, name, attempt, hash, false).1 == ins.rowid)
  {
    var st1 := Apply(st, SignUp(name, password, ins), hash);
    StepKeepsInv(st, SignUp(name, password, ins), hash);
    RunKeepsInv(st1, since, hash);
    RegistrationsStay(st1, since, hash);
    var later := Exec(st1, since, hash);
    var k := |st.registered|;
    assert later.registered[k] == Registration(ins.rowid, name, password);
    SelectExact(later.users, k);
  }

  lemma {:induction false} SelectFriendsExact(friends: seq<Friendship>, uid: int, x: int)
    ensures x in SelectFriends(friends, uid, true) <==> Friendship(uid, x) in friends
    ensures x in SelectFriends(friends, uid, false) <==> Friendship(x, uid) in friends
  {
    if friends != [] {
      SelectFriendsExact(friends[1..], uid, x);
      assert friends == [friends[0]] + friends[1..];
    }
  }

  lemma FriendRowsExact(st: State, hash: string -> string, a: int, b: int)
    requires Inv(st, hash)
    ensures b in FriendList(st.friends, a, |FriendRows(st.friends, a)|) <==> Linked(st.befriended, a, b)
    ensures Linked(st.befriended, a, b) ==> a != b && HasUid(st.users, a) && HasUid(st.users, b)
  {
    SelectFriendsExact(st.friends, a, b);
    if Linked(st.friends, a, b) {
      assert HasUid(st.users, a) && HasUid(st.users, b);
    }
  }

  lemma FriendListMeans(st: State, hash: string -> string, a: int, b: int)
    requires Inv(st, hash)
    ensures var listA := FriendList(st.friends, a, |FriendRows(st.friends, a)|);
            var listB := FriendList(st.friends, b, |FriendRows(st.friends, b)|);
            && (b in listA <==> a in listB)
            && (b in listA <==> Friendship(a, b) in st.befriended || Friendship(b, a) in st.befriended)
            && (b in listA ==> a != b && HasUid(st.users, a) && HasUid(st.users, b))
            && (forall i, j :: 0 <= i < j < |listA| ==> listA[i] != listA[j])
  {
    FriendRowsExact(st, hash, a, b);
    FriendRowsExact(st, hash, b, a);
  }

  /** Friendship is symmetric although each pair is stored once, in one direction: `GetFriendList`
      lists, without repetition, exactly the partners of the accepted pairs. */
  lemma FriendListExact(ops: seq<Op>, hash: string -> string, a: int, b: int)
    requires AllPossible(Empty(), ops, hash)
    ensures var st := Exec(Empty(), ops, hash);
            var listA := FriendList(st.friends, a, |FriendRows(st.friends, a)|);
            var listB := FriendList(st.friends, b, |FriendRows(st.friends, b)|);
            && (b in listA <==> a in listB)
            && (b in listA <==> Friendship(a, b) in st.befriended || Friendship(b, a) in st.befriended)
            && (b in listA ==> a != b && HasUid(st.users, a) && HasUid(st.users, b))
            && (forall i, j :: 0 <= i < j < |listA| ==> listA[i] != listA[j])
  {
    RunKeepsInv(Empty(), ops, hash);
    FriendListMeans(Exec(Empty(), ops, hash), hash, a, b);
  }

  /** An addition whose query for the pair fails, made in the direction opposite to the stored one. */
  predicate Reverses(st: State, op: Op) {
    op.Befriend? && op.blind && !op.fails && Friendship(op.b, op.a) in st.friends
  }

  /** Exactly which additions store a pair a second time. */
  lemma BefriendExact(st: State, op: Op, hash: string -> string)
    requires Inv(st, hash) && OneDirection(st.friends)
    ensures OneDirection(Apply(st, op, hash).friends) <==> !Reverses(st, op)
  {
    var st' := Apply(st, op, hash);
    if op.Befriend? && op.a != op.b {
      CountMeansBothExist(st.users, op.a, op.b);
      var f := Friendship(op.a, op.b);
      if Reverses(st, op) {
        assert HasUid(st.users, op.a) && HasUid(st.users, op.b);
        assert st'.friends == st.friends + [f];
        assert f in st'.friends && Friendship(op.b, op.a) in st'.friends;
      } else if st'.friends != st.friends {
        assert Friendship(op.b, op.a) !in st.friends;
      }
    }
  }

  /** The history has no such addition. */
  predicate NeverReverses(st: State, ops: seq<Op>, hash: string -> string)
    decreases |ops|
  {
    ops == [] || (!Reverses(st, ops[0]) && NeverReverses(Apply(st, ops[0], hash), ops[1..], hash))
  }

  /** Rows are never deleted, so a pair stored in both directions stays. */
  lemma {:induction false} BothDirectionsStay(st: State, ops: seq<Op>, hash: string -> string)
    requires !OneDirection(st.friends)
    ensures !OneDirection(Exec(st, ops, hash).friends)
    decreases |ops|
  {
    if ops != [] {
      var f :| f in st.friends && Friendship(f.friend, f.uid) in st.friends;
      var st' := Apply(st, ops[0], hash);
      assert f in st'.friends && Friendship(f.friend, f.uid) in st'.friends;
      BothDirectionsStay(st', ops[1..], hash);
    }
  }

  lemma {:induction false} RunOneDirectionExact(st: State, ops: seq<Op>, hash: string -> string)
    requires Inv(st, hash) && OneDirection(st.friends) && AllPossible(st, ops, hash)
    ensures OneDirection(Exec(st, ops, hash).friends) <==> NeverReverses(st, ops, hash)
    decreases |ops|
  {
    if ops != [] {
      var st' := Apply(st, ops[0], hash);
      BefriendExact(st, ops[0], hash);
      StepKeepsInv(st, ops[0], hash);
      if OneDirection(st'.friends) {
        RunOneDirectionExact(st', ops[1..], hash);
      } else {
        BothDirectionsStay(st', ops[1..], hash);
      }
    }
  }

  /** The table holds each ordered pair at most once, between existing distinct users; it holds each
      unordered pair at most once exactly when no failed query let one in a second time. */
  lemma PairsStoredOnce(ops: seq<Op>, hash: string -> string)
    requires AllPossible(Empty(), ops, hash)
    ensures var st := Exec(Empty(), ops, hash);
            && FriendsInv(st.users, st.friends) && st.friends == st.befriended
            && (OneDirection(st.friends) <==> NeverReverses(Empty(), ops, hash))
  {
    RunKeepsInv(Empty(), ops, hash);
    RunOneDirectionExact(Empty(), ops, hash);
  }

  lemma RunOne(st: State, op: Op, ops: seq<Op>, hash: string -> string)
    requires Possible(st, op) && AllPossible(Apply(st, op, hash), ops, hash)
    ensures AllPossible(st, [op] + ops, hash) && Exec(st, [op] + ops, hash) == Exec(Apply(st, op, hash), ops, hash)
  {
    assert ([op] + ops)[1..] == ops;
  }

  /** A history that does, for any two names and passwords: the second addition's query fails. */
  lemma PairStoredTwice(name1: string, password1: string, name2: string, password2: string, hash: string -> string)
    requires name1 != "" && password1 != "" && name2 != "" && password2 != "" && name1 != name2
    ensures var ops := [SignUp(name1, password1, Picks(1))] + ([SignUp(name2, password2, Picks(2))]
                       + ([Befriend(1, 2, false, false)] + ([Befriend(2, 1, true, false)] + [])));
            && AllPossible(Empty(), ops, hash)
            && Exec(Empty(), ops, hash).friends == [Friendship(1, 2), Friendship(2, 1)]
            && !OneDirection(Exec(Empty(), ops, hash).friends)
  {
    var op1, op2 := SignUp(name1, password1, Picks(1)), SignUp(name2, password2, Picks(2));
    var op3, op4 := Befriend(1, 2, false, false), Befriend(2, 1, true, false);
    var st1 := Apply(Empty(), op1, hash);
    var st2 := Apply(st1, op2, hash);
    assert st2.users == [User(1, name1, hash(password1)), User(2, name2, hash(password2))];
    assert HasUid(st2.users, 1) && HasUid(st2.users, 2) by {
      assert st2.users[0].uid == 1 && st2.users[1].uid == 2;
    }
    CountMeansBothExist(st2.users, 1, 2);
    CountMeansBothExist(st2.users, 2, 1);
    var st3 := Apply(st2, op3, hash);
    assert st3.friends == [Friendship(1, 2)];
    var st4 := Apply(st3, op4, hash);
    assert st4.friends == [Friendship(1, 2), Friendship(2, 1)];
    RunOne(st3, op4, [], hash);
    RunOne(st2, op3, [op4] + [], hash);
    RunOne(st1, op2, [op3] + ([op4] + []), hash);
    RunOne(Empty(), op1, [op2] + ([op3] + ([op4] + [])), hash);
    assert Friendship(1, 2) in st4.friends && Friendship(2, 1) in st4.friends;
  }

  /** Exactly when an addition is accepted, in any reachable state: both accounts were registered, and no pair
      of them was accepted before, in either direction, or, if the query for it fails, in this one. */
  lemma AddFriendExact(ops: seq<Op>, hash: string -> string, a: int, b: int, blind: bool)
    requires AllPossible(Empty(), ops, hash)
    ensures var st := Exec(Empty(), ops, hash);
            AddFriend(st.users, st.friends, a, b, blind, false).1 <==>
              && a != b
              && (exists reg :: reg in st.registered && reg.uid == a)
              && (exists reg :: reg in st.registered && reg.uid == b)
              && Friendship(a, b) !in st.befriended
              && (blind || Friendship(b, a) !in st.befriended)
  {
    RunKeepsInv(Empty(), ops, hash);
    AddFriendMeans(Exec(Empty(), ops, hash), hash, a, b, blind);
  }

  lemma AddFriendMeans(st: State, hash: string -> string, a: int, b: int, blind: bool)
    requires Inv(st, hash)
    ensures AddFriend(st.users, st.friends, a, b, blind, false).1 <==>
              && a != b
              && (exists reg :: reg in st.registered && reg.uid == a)
              && (exists reg :: reg in st.registered && reg.uid == b)
              && Friendship(a, b) !in st.befriended
              && (blind || Friendship(b, a) !in st.befriended)
  {
    RegisteredExact(st, hash, "", a);
    RegisteredExact(st, hash, "", b);
    if a != b {
      CountMeansBothExist(st.users, a, b);
    }
  }
}
