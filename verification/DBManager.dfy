/** `DBManager` as an object: three tables that its methods change in place.  Each method runs under
    the database mutex, so it is one step of the table histories.  SQLite's behaviour is passed in:
    `fails` for an error of prepare or step, `blind` for one in stepping AddFriend's query for the pair,
    which the code takes for its absence, `gap` for row ids AUTOINCREMENT skips, `rows` for how many rows
    a SELECT yields before it ends. */
module DBManagers {
  import Accounts
  import Messages

  class DBManager {
    const hash: string -> string
    var users: seq<Accounts.User>
    var friends: seq<Accounts.Friendship>
    var messages: seq<Messages.Row>
    ghost var registered: seq<Accounts.Registration>
    ghost var befriended: seq<Accounts.Friendship>
    ghost var history: seq<Accounts.Op>

    ghost function Tables(): Accounts.State
      reads this`users, this`friends, this`registered, this`befriended
    {
      Accounts.State(users, friends, registered, befriended)
    }

    /** What SQLite's AUTOINCREMENT keeps true of the message table. */
    ghost predicate IdsIncrease()
      reads this`messages
    {
      && Messages.Increasing(Messages.Messages(messages))
      && forall i :: 0 <= i < |messages| ==> messages[i].message.id > 0
    }

    /** Users and friends are what the history of calls makes of empty tables. */
    ghost predicate Valid()
      reads this`users, this`friends, this`registered, this`befriended, this`history
    {
      Accounts.IsRun(history, Tables(), hash)
    }

    constructor (hash: string -> string)
      ensures Valid() && this.hash == hash
      ensures Tables() == Accounts.Empty() && messages == []
    {
      this.hash := hash;
      users, friends, messages := [], [], [];
      registered, befriended, history := [], [], [];
    }

    lemma HasInv()
      requires Valid()
      ensures Accounts.Inv(Tables(), hash)
    {
      Accounts.RunKeepsInv(Accounts.Empty(), history, hash);
    }

    method RegisterUser(username: string, password: string, fails: bool, gap: nat)
      returns (ok: bool, ghost ins: Accounts.Insert)
      requires Valid()
      modifies this`users, this`registered, this`history
      ensures Valid() && Accounts.Possible(old(Tables()), Accounts.SignUp(username, password, ins))
      ensures Tables() == Accounts.Apply(old(Tables()), Accounts.SignUp(username, password, ins), hash)
      ensures history == old(history) + [Accounts.SignUp(username, password, ins)]
      ensures ok <==> username != "" && password != "" && !fails
                      && forall reg :: reg in old(registered) ==> reg.name != username
      ensures ok ==> ins.Picks?
      ensures registered == old(registered)
              + if ok then [Accounts.Registration(ins.rowid, username, password)] else []
    {
      var row := if fails then Accounts.Fails else Accounts.Picks(Accounts.LastUid(users) + 1 + gap);
      ins := row;
      HasInv();
      Accounts.RegisteredExact(Tables(), hash, username, 0);
      if username == "" || password == "" || Accounts.HasName(users, username) || row.Fails? {
        ok := false;
      } else {
        users := users + [Accounts.User(row.rowid, username, hash(password))];
        registered := registered + [Accounts.Registration(row.rowid, username, password)];
        ok := true;
      }
      ghost var op := Accounts.SignUp(username, password, row);
      Accounts.ExecAppend(Accounts.Empty(), history, op, hash);
      history := history + [op];
    }

    method LoginUser(username: string, password: string, fails: bool) returns (ok: bool, uid: int)
      requires Valid()
      ensures (ok, uid) == Accounts.Login(users, username, password, hash, fails)
      ensures !fails ==> forall u :: (ok, uid) == (true, u) <==>
                && password != ""
                && exists reg :: reg in registered && reg.uid == u && reg.name == username
                                 && hash(reg.password) == hash(password)
      ensures fails ==> !ok
      ensures if ok then uid > 0 else uid == 0
    {
      HasInv();
      Accounts.LoginIsExact(Tables(), hash, username, password);
      if username == "" || password == "" || fails {
        return false, 0;
      }
      var row := Accounts.SelectByName(users, username);
      if row == [] {
        return false, 0;
      }
      if row[0].hash == hash(password) {
        return true, row[0].uid;
      }
      return false, 0;
    }

    method AddFriend(uid: int, friendUid: int, blind: bool, fails: bool) returns (ok: bool)
      requires Valid()
      modifies this`friends, this`befriended, this`history
      ensures Valid()
      ensures Tables() == Accounts.Apply(old(Tables()), Accounts.Befriend(uid, friendUid, blind, fails), hash)
      ensures history == old(history) + [Accounts.Befriend(uid, friendUid, blind, fails)]
      ensures ok <==>
                && !fails && uid != friendUid
                && (exists reg :: reg in registered && reg.uid == uid)
                && (exists reg :: reg in registered && reg.uid == friendUid)
                && Accounts.Friendship(uid, friendUid) !in old(befriended)
                && (blind || Accounts.Friendship(friendUid, uid) !in old(befriended))
      ensures befriended == old(befriended) + if ok then [Accounts.Friendship(uid, friendUid)] else []
    {
      HasInv();
      Accounts.AddFriendMeans(Tables(), hash, uid, friendUid, blind);
      ghost var op := Accounts.Befriend(uid, friendUid, blind, fails);
      Accounts.ExecAppend(Accounts.Empty(), history, op, hash);
      history := history + [op];
      if uid != friendUid {
        Accounts.CountMeansBothExist(users, uid, friendUid);
      }
      if uid <= 0 || friendUid <= 0 {
        return false;
      }
      if uid == friendUid {
        return false;
      }
      if Accounts.CountUids(users, uid, friendUid) < 2 {
        return false;
      }
      if !blind && Accounts.Linked(friends, uid, friendUid) {
        return false;
      }
      if Accounts.Friendship(uid, friendUid) in friends || fails { // UNIQUE(uid, friend_uid)
        return false;
      }
      friends := friends + [Accounts.Friendship(uid, friendUid)];
      befriended := befriended + [Accounts.Friendship(uid, friendUid)];
      ok := true;
    }

    /** The rows are stepped one by one; an error ends the loop early and leaves what was read. */
    method GetFriendList(uid: int, rows: nat) returns (result: seq<int>)
      requires Valid()
      ensures result == Accounts.FriendList(friends, uid, rows)
      ensures forall i, j :: 0 <= i < j < |result| ==> result[i] != result[j]
      ensures forall x :: x in result ==>
                Accounts.Friendship(uid, x) in befriended || Accounts.Friendship(x, uid) in befriended
      ensures rows >= |Accounts.FriendRows(friends, uid)| ==>
                forall x :: Accounts.Friendship(uid, x) in befriended || Accounts.Friendship(x, uid) in befriended
                            ==> x in result
    {
      result := [];
      HasInv();
      if uid <= 0 {
        forall x
          ensures Accounts.Friendship(uid, x) !in befriended && Accounts.Friendship(x, uid) !in befriended
        {
          Accounts.FriendRowsExact(Tables(), hash, uid, x);
        }
        return;
      }
      var all := Accounts.FriendRows(friends, uid);
      while |result| < |all| && |result| < rows
        invariant |result| <= |all| && |result| <= rows
        invariant result == all[..|result|]
      {
        result := result + [all[|result|]];
      }
      forall x
        ensures x in all <==>
                  Accounts.Friendship(uid, x) in befriended || Accounts.Friendship(x, uid) in befriended
      {
        Accounts.FriendRowsExact(Tables(), hash, uid, x);
      }
    }

    method SaveMessage(fromUid: int, toUid: int, content: string, timestamp: string, fails: bool, gap: nat)
      returns (id: int, ghost ins: Accounts.Insert)
      requires IdsIncrease()
      modifies this`messages
      ensures IdsIncrease() && Messages.Grows(old(messages), ins)
      ensures (messages, id) == Messages.Save(old(messages), fromUid, toUid, content, timestamp, ins)
      ensures id == -1 || (forall i :: 0 <= i < |old(messages)| ==> 0 < old(messages)[i].message.id < id)
      ensures id >= 0 <==> fromUid > 0 && toUid > 0 && content != "" && !fails
      ensures messages == old(messages)
              + if id < 0 then []
                else [Messages.Row(Messages.Message(id, fromUid, toUid, content, timestamp), false)]
    {
      var last := if messages == [] then 0 else messages[|messages| - 1].message.id;
      var row := if fails then Accounts.Fails else Accounts.Picks(last + 1 + gap);
      ins := row;
      LastIsLargest(messages);
      if fromUid <= 0 || toUid <= 0 || content == "" || row.Fails? {
        return -1, row;
      }
      messages := messages + [Messages.Row(Messages.Message(row.rowid, fromUid, toUid, content, timestamp), false)];
      id := row.rowid;
      assert Messages.Messages(messages) == Messages.Messages(old(messages)) + [messages[|messages| - 1].message];
    }

    /** The rows are stepped one by one into `result`; if there are any, one UPDATE marks all pending rows. */
    method GetOfflineMessages(uid: int, rows: nat, marks: bool) returns (result: seq<Messages.Message>)
      modifies this`messages
      ensures (messages, result) == Messages.GetOffline(old(messages), uid, rows, marks)
      ensures uid > 0 ==>
        (result + Messages.Undelivered(messages, uid) == Messages.Undelivered(old(messages), uid)
         <==> Messages.Clean(|Messages.Undelivered(old(messages), uid)|, rows, marks))
      ensures forall m :: m in result ==> Messages.Row(m, false) in old(messages) && m.to == uid
      ensures uid > 0 && |result| < rows ==>
                forall m :: Messages.Row(m, false) in old(messages) && m.to == uid ==> m in result
      ensures |messages| == |old(messages)|
      ensures forall i :: 0 <= i < |messages| ==>
                && messages[i].message == old(messages)[i].message
                && (messages[i].delivered <==>
                     || old(messages)[i].delivered
                     || (result != [] && marks && messages[i].message.to == uid))
    {
      Messages.GetOfflineMeans(messages, uid, rows, marks);
      result := [];
      if uid <= 0 {
        return;
      }
      Messages.PullConservesExactly(messages, uid, rows, marks);
      var pending := Messages.Undelivered(messages, uid);
      while |result| < |pending| && |result| < rows
        invariant |result| <= |pending| && |result| <= rows
        invariant result == pending[..|result|]
      {
        result := result + [pending[|result|]];
      }
      assert pending[..|pending|] == pending;
      assert result == if rows < |pending| then pending[..rows] else pending;
      if result != [] {
        if marks {
          messages := Messages.MarkDelivered(messages, uid);
        }
      }
    }
  }

  lemma LastIsLargest(rows: seq<Messages.Row>)
    requires Messages.Increasing(Messages.Messages(rows))
    ensures forall i :: 0 <= i < |rows| ==> rows[i].message.id <= rows[|rows| - 1].message.id
  {
    assert forall i :: 0 <= i < |rows| ==> Messages.Messages(rows)[i] == rows[i].message;
  }
}
