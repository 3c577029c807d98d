/** The message table and the two ways a message leaves it: a live push when it is saved, and a batch
    of offline messages.  One worker runs all handlers, so saves and batches are steps. */
module Messages {
  import opened Wrappers
  import Accounts

  datatype Message = Message(id: int, from: int, to: int, content: string, time: string)
  datatype Row = Row(message: Message, delivered: bool)

  // ---- queries and updates ----

  predicate Grows(rows: seq<Row>, ins: Accounts.Insert) {
    ins.Picks? ==> ins.rowid > 0 && forall i :: 0 <= i < |rows| ==> rows[i].message.id < ins.rowid
  }

  /** `SaveMessage`: the new table and the id, or -1. */
  function Save(rows: seq<Row>, from: int, to: int, content: string, time: string, ins: Accounts.Insert)
    : (seq<Row>, int)
  {
    if from <= 0 || to <= 0 || content == "" || ins.Fails? then (rows, -1)
    else (rows + [Row(Message(ins.rowid, from, to, content, time), false)], ins.rowid)
  }

  /** `SELECT ... WHERE to_uid = ? AND delivered = 0 ORDER BY msg_id ASC`. */
  function Undelivered(rows: seq<Row>, uid: int): seq<Message> {
    if rows == [] then []
    else
      var r := rows[|rows| - 1];
      Undelivered(rows[..|rows| - 1], uid) + if r.message.to == uid && !r.delivered then [r.message] else []
  }

  /** `UPDATE messages SET delivered = 1 WHERE to_uid = ? AND delivered = 0`. */
  function MarkDelivered(rows: seq<Row>, uid: int): (r: seq<Row>)
    ensures |r| == |rows|
  {
    seq(|rows|, i requires 0 <= i < |rows| =>
      if rows[i].message.to == uid && !rows[i].delivered then rows[i].(delivered := true) else rows[i])
  }

  /** `GetOfflineMessages` when stepping the SELECT yields at most `fetched` rows before it ends, for
      whatever reason, and `marks` says whether the UPDATE succeeds. */
  function GetOffline(rows: seq<Row>, uid: int, fetched: nat, marks: bool): (seq<Row>, seq<Message>) {
    if uid <= 0 then (rows, [])
    else
      var pending := Undelivered(rows, uid);
      var batch := if fetched < |pending| then pending[..fetched] else pending;
      (if batch != [] && marks then MarkDelivered(rows, uid) else rows, batch)
  }

  // ---- runs ----

  /** What is offered to clients, in order. */
  datatype Offer<+S> =
    | Push(session: S, message: Message)
    | Batch(uid: int, messages: seq<Message>)

  datatype Op<+S> =
    | Chat(from: int, to: int, content: string, time: string, ins: Accounts.Insert, target: Option<S>)
    | Pull(uid: int, fetched: nat, marks: bool)

  /** `saved` is the history of successful saves. */
  datatype State<S> = State(rows: seq<Row>, saved: seq<Message>, log: seq<Offer<S>>)

  predicate Possible<S>(st: State<S>, op: Op<S>) {
    op.Chat? ==> Grows(st.rows, op.ins)
  }

  /** `ChatMessageRequest` saves first and then pushes to whatever session is registered for the
      recipient; a pull is a login's automatic batch or an explicit request. */
  function Apply<S>(st: State<S>, op: Op<S>): State<S> {
    match op
    case Chat(from, to, content, time, ins, target) =>
      var (rows, id) := Save(st.rows, from, to, content, time, ins);
      if id < 0 then st
      else
        var m := Message(id, from, to, content, time);
        State(rows, st.saved + [m], st.log + if target.Some? then [Push(target.value, m)] else [])
    case Pull(uid, fetched, marks) =>
      var (rows, batch) := GetOffline(st.rows, uid, fetched, marks);
      st.(rows := rows, log := st.log + if batch == [] then [] else [Batch(uid, batch)])
  }

  predicate AllPossible<S>(st: State<S>, ops: seq<Op<S>>)
    decreases |ops|
  {
    ops == [] || (Possible(st, ops[0]) && AllPossible(Apply(st, ops[0]), ops[1..]))
  }

  function Exec<S>(st: State<S>, ops: seq<Op<S>>): State<S>
    decreases |ops|
  {
    if ops == [] then st else Exec(Apply(st, ops[0]), ops[1..])
  }

  function Empty<S>(): State<S> {
    State([], [], [])
  }

  lemma {:induction false} ExecConcat<S>(st: State<S>, a: seq<Op<S>>, b: seq<Op<S>>)
    requires AllPossible(st, a) && AllPossible(Exec(st, a), b)
    ensures AllPossible(st, a + b) && Exec(st, a + b) == Exec(Exec(st, a), b)
    decreases |a|
  {
    if a == [] {
      assert a + b == b;
    } else {
      assert (a + b)[1..] == a[1..] + b;
      ExecConcat(Apply(st, a[0]), a[1..], b);
    }
  }

  /** The state `st` is what `ops` make of an empty table and log. */
  ghost predicate IsRun<S>(ops: seq<Op<S>>, st: State<S>) {
    AllPossible(Empty<S>(), ops) && st == Exec(Empty<S>(), ops)
  }

  lemma RunAppend<S>(ops: seq<Op<S>>, st: State<S>, op: Op<S>)
    requires IsRun(ops, st) && Possible(st, op)
    ensures IsRun(ops + [op], Apply(st, op))
  {
    ExecOne(st, op);
    ExecConcat(Empty<S>(), ops, [op]);
  }

  lemma RunHasInv<S>(ops: seq<Op<S>>, st: State<S>)
    requires IsRun(ops, st)
    ensures Inv(st)
  {
    RunKeepsInv(Empty<S>(), ops);
  }

  lemma ExecOne<S>(st: State<S>, op: Op<S>)
    requires Possible(st, op)
    ensures AllPossible(st, [op]) && Exec(st, [op]) == Apply(st, op)
  {
    assert [op][1..] == [];
    assert Exec(Apply(st, op), []) == Apply(st, op);
  }

  /** All messages saved to an account, in the order of their ids. */
  function To(messages: seq<Message>, uid: int): seq<Message> {
    if messages == [] then []
    else
      var m := messages[|messages| - 1];
      To(messages[..|messages| - 1], uid) + if m.to == uid then [m] else []
  }

  /** Everything handed out to an account in batches. */
  function Handed<S>(log: seq<Offer<S>>, uid: int): seq<Message> {
    if log == [] then []
    else
      var o := log[|log| - 1];
      Handed(log[..|log| - 1], uid) + if o.Batch? && o.uid == uid then o.messages else []
  }

  /** The messages pushed live, to anybody. */
  function Pushed<S>(log: seq<Offer<S>>): seq<Message> {
    if log == [] then []
    else
      var o := log[|log| - 1];
      Pushed(log[..|log| - 1]) + if o.Push? then [o.message] else []
  }

  function Messages(rows: seq<Row>): (r: seq<Message>)
    ensures |r| == |rows| && forall i :: 0 <= i < |rows| ==> r[i] == rows[i].message
  {
    seq(|rows|, i requires 0 <= i < |rows| => rows[i].message)
  }

  predicate Increasing(ms: seq<Message>) {
    forall i, j :: 0 <= i < j < |ms| ==> ms[i].id < ms[j].id
  }

  // ---- facts about the queries ----

  lemma UndeliveredSave(rows: seq<Row>, m: Message, uid: int)
    ensures Undelivered(rows + [Row(m, false)], uid) == Undelivered(rows, uid) + if m.to == uid then [m] else []
  {
    assert (rows + [Row(m, false)])[..|rows|] == rows;
  }

  lemma {:induction false} UndeliveredMarked(rows: seq<Row>, uid: int, other: int)
    ensures Undelivered(MarkDelivered(rows, uid), other) == if other == uid then [] else Undelivered(rows, other)
  {
    if rows != [] {
      var init := rows[..|rows| - 1];
      assert MarkDelivered(rows, uid)[..|rows| - 1] == MarkDelivered(init, uid);
      UndeliveredMarked(init, uid, other);
    }
  }

  lemma {:induction false} UndeliveredSaved(rows: seq<Row>, uid: int, m: Message)
    requires m in Undelivered(rows, uid)
    ensures m in Messages(rows) && m.to == uid
  {
    if m in Undelivered(rows[..|rows| - 1], uid) {
      UndeliveredSaved(rows[..|rows| - 1], uid, m);
      var i :| 0 <= i < |rows| - 1 && Messages(rows[..|rows| - 1])[i] == m;
      assert Messages(rows)[i] == m;
    } else {
      assert Messages(rows)[|rows| - 1] == m;
    }
  }

  /** The SELECT yields exactly the account's messages whose rows are not marked. */
  lemma {:induction false} UndeliveredExact(rows: seq<Row>, uid: int, m: Message)
    ensures m in Undelivered(rows, uid) <==> Row(m, false) in rows && m.to == uid
  {
    if rows != [] {
      var init, last := rows[..|rows| - 1], rows[|rows| - 1];
      UndeliveredExact(init, uid, m);
      assert rows == init + [last];
    }
  }

  lemma {:induction false} UndeliveredIncreasing(rows: seq<Row>, uid: int)
    requires Increasing(Messages(rows))
    ensures Increasing(Undelivered(rows, uid))
  {
    if rows != [] {
      var init := rows[..|rows| - 1];
      assert forall i :: 0 <= i < |init| ==> Messages(init)[i] == Messages(rows)[i];
      UndeliveredIncreasing(init, uid);
      forall m | m in Undelivered(init, uid) ensures m.id < rows[|rows| - 1].message.id {
        UndeliveredSaved(init, uid, m);
        var i :| 0 <= i < |init| && Messages(init)[i] == m;
        assert Messages(rows)[i] == m;
      }
    }
  }

  // ---- when one call conserves ----

  /** The call neither loses nor repeats a message. */
  predicate Clean(pending: nat, fetched: nat, marks: bool) {
    pending == 0 || fetched == 0 || (fetched >= pending && marks)
  }

  /** Batch and remainder make up what was pending, exactly in these cases. */
  lemma PullConservesExactly(rows: seq<Row>, uid: int, fetched: nat, marks: bool)
    requires uid > 0
    ensures var (rows', batch) := GetOffline(rows, uid, fetched, marks);
            batch + Undelivered(rows', uid) == Undelivered(rows, uid)
            <==> Clean(|Undelivered(rows, uid)|, fetched, marks)
  {
    UndeliveredMarked(rows, uid, uid);
    var pending := Undelivered(rows, uid);
    var (rows', batch) := GetOffline(rows, uid, fetched, marks);
    if Clean(|pending|, fetched, marks) {
      assert batch == [] || Undelivered(rows', uid) == [];
      assert batch == [] || batch == pending;
    } else {
      assert |batch + Undelivered(rows', uid)| != |pending|;
    }
  }

  /** What a pull hands out, and which rows it marks. */
  lemma GetOfflineMeans(rows: seq<Row>, uid: int, fetched: nat, marks: bool)
    ensures var (rows', batch) := GetOffline(rows, uid, fetched, marks);
            && (forall m :: m in batch ==> Row(m, false) in rows && m.to == uid)
            && (uid > 0 && |batch| < fetched ==> forall m :: Row(m, false) in rows && m.to == uid ==> m in batch)
            && |rows'| == |rows|
            && forall i :: 0 <= i < |rows| ==>
                 && rows'[i].message == rows[i].message
                 && (rows'[i].delivered <==>
                      rows[i].delivered || (batch != [] && marks && rows[i].message.to == uid))
  {
    var pending := Undelivered(rows, uid);
    forall m ensures m in pending <==> Row(m, false) in rows && m.to == uid {
      UndeliveredExact(rows, uid, m);
    }
  }

  /** A message is lost exactly when the SELECT ends early with some rows read and the UPDATE, which
      covers all of them, succeeds. */
  lemma PullLosesExactly(rows: seq<Row>, uid: int, fetched: nat, marks: bool)
    requires uid > 0 && Increasing(Messages(rows))
    ensures var (rows', batch) := GetOffline(rows, uid, fetched, marks);
            (forall m :: m in Undelivered(rows, uid) ==> m in batch || m in Undelivered(rows', uid))
            <==> !(0 < fetched < |Undelivered(rows, uid)| && marks)
  {
    var pending := Undelivered(rows, uid);
    UndeliveredMarked(rows, uid, uid);
    UndeliveredIncreasing(rows, uid);
    if 0 < fetched < |pending| && marks {
      var lost := pending[fetched];
      assert lost in pending;
      assert lost !in pending[..fetched];
    }
  }

  // ---- invariants over runs ----

  /** Every id in the log is the id of a saved message. */
  ghost predicate Bounded<S>(o: Offer<S>, last: int) {
    match o
    case Push(_, m) => m.id <= last
    case Batch(_, ms) => forall i :: 0 <= i < |ms| ==> ms[i].id <= last
  }

  ghost predicate Below<S>(o: Offer<S>, id: int) {
    match o
    case Push(_, m) => m.id < id
    case Batch(_, ms) => forall i :: 0 <= i < |ms| ==> ms[i].id < id
  }

  ghost function LastId(rows: seq<Row>): int {
    if rows == [] then 0 else rows[|rows| - 1].message.id
  }

  ghost predicate Inv<S>(st: State<S>) {
    && Messages(st.rows) == st.saved
    && Increasing(st.saved)
    && (forall i :: 0 <= i < |st.saved| ==> st.saved[i].id > 0)
    && (forall i :: 0 <= i < |st.log| ==> Bounded(st.log[i], LastId(st.rows)))
    && (forall i, j :: 0 <= i < j < |st.log| && st.log[j].Push? ==> Below(st.log[i], st.log[j].message.id))
  }

  lemma ChatKeepsInv<S>(st: State<S>, op: Op<S>)
    requires Inv(st) && op.Chat? && Possible(st, op)
    ensures Inv(Apply(st, op))
  {
    var st' := Apply(st, op);
    if st'.saved != st.saved {
      assert forall i :: 0 <= i < |st.rows| ==> st.saved[i] == st.rows[i].message;
      assert LastId(st.rows) < op.ins.rowid == LastId(st'.rows);
      forall i | 0 <= i < |st.log|
        ensures Bounded(st.log[i], LastId(st'.rows)) && Below(st.log[i], op.ins.rowid)
      {
        assert Bounded(st.log[i], LastId(st.rows));
      }
    }
  }

  /** A state whose three parts changed as a chat changes them. */
  lemma ChatByParts<S>(st: State<S>, op: Op<S>, st': State<S>)
    requires op.Chat? && Possible(st, op)
    requires var (rows, id) := Save(st.rows, op.from, op.to, op.content, op.time, op.ins);
             var m := Message(id, op.from, op.to, op.content, op.time);
             && st'.rows == rows
             && st'.saved == (if id >= 0 then st.saved + [m] else st.saved)
             && st'.log == (if id >= 0 && op.target.Some? then st.log + [Push(op.target.value, m)] else st.log)
    ensures st' == Apply(st, op)
  {
    assert st.log + [] == st.log;
  }

  /** A chat to a recipient who may be online saves as one to a recipient who is not, and then logs the
      push if there is one. */
  lemma ChatPushes<S>(st: State<S>, op: Op<S>, target: Option<S>, st': State<S>)
    requires op.Chat? && op.target.None? && Possible(st, op) && Apply(st, op) != st
    requires var m := Message(op.ins.rowid, op.from, op.to, op.content, op.time);
             st' == Apply(st, op).(log := st.log + if target.Some? then [Push(target.value, m)] else [])
    ensures Possible(st, op.(target := target)) && st' == Apply(st, op.(target := target))
  {
  }

  /** A state whose log and rows changed as a pull changes them. */
  lemma PullByParts<S>(st: State<S>, op: Op<S>, st': State<S>)
    requires op.Pull?
    requires var (rows, batch) := GetOffline(st.rows, op.uid, op.fetched, op.marks);
             && st'.rows == rows && st'.saved == st.saved
             && st'.log == (if batch == [] then st.log else st.log + [Batch(op.uid, batch)])
    ensures st' == Apply(st, op)
  {
    assert st.log + [] == st.log;
  }

  lemma PullKeepsInv<S>(st: State<S>, op: Op<S>)
    requires Inv(st) && op.Pull?
    ensures Inv(Apply(st, op))
  {
    var st' := Apply(st, op);
    assert Messages(st'.rows) == st.saved;
    assert LastId(st'.rows) == LastId(st.rows);
    var pending := Undelivered(st.rows, op.uid);
    forall m | m in pending ensures m.id <= LastId(st.rows) {
      UndeliveredSaved(st.rows, op.uid, m);
      var i :| 0 <= i < |st.rows| && Messages(st.rows)[i] == m;
      assert st.saved[i].id <= st.saved[|st.saved| - 1].id;
    }
  }

  lemma {:induction false} RunKeepsInv<S>(st: State<S>, ops: seq<Op<S>>)
    requires Inv(st) && AllPossible(st, ops)
    ensures Inv(Exec(st, ops))
    decreases |ops|
  {
    if ops != [] {
      if ops[0].Chat? {
        ChatKeepsInv(st, ops[0]);
      } else {
        PullKeepsInv(st, ops[0]);
      }
      RunKeepsInv(Apply(st, ops[0]), ops[1..]);
    }
  }

  /** A live push carries an id above everything offered before it, to anybody, live or in a batch. */
  lemma PushIsAboveEverythingBefore<S>(ops: seq<Op<S>>, i: nat, j: nat)
    requires AllPossible(Empty<S>(), ops)
    requires var log := Exec(Empty<S>(), ops).log; i < j < |log| && log[j].Push?
    ensures var log := Exec(Empty<S>(), ops).log; Below(log[i], log[j].message.id)
  {
    RunKeepsInv(Empty<S>(), ops);
  }

  /** The live pushes to one session, or to all of them. */
  function PushedTo<S(==)>(log: seq<Offer<S>>, s: S): seq<Message> {
    if log == [] then []
    else
      var o := log[|log| - 1];
      PushedTo(log[..|log| - 1], s) + if o.Push? && o.session == s then [o.message] else []
  }

  lemma {:induction false} PushedInLog<S>(log: seq<Offer<S>>, m: Message)
    requires m in Pushed(log)
    ensures exists i :: 0 <= i < |log| && log[i].Push? && log[i].message == m
  {
    if m in Pushed(log[..|log| - 1]) {
      PushedInLog(log[..|log| - 1], m);
    } else {
      assert log[|log| - 1].message == m;
    }
  }

  lemma {:induction false} PushedIncreasing<S>(log: seq<Offer<S>>)
    requires forall i, j :: 0 <= i < j < |log| && log[j].Push? ==> Below(log[i], log[j].message.id)
    ensures Increasing(Pushed(log))
  {
    if log != [] {
      var init := log[..|log| - 1];
      PushedIncreasing(init);
      forall m | m in Pushed(init) && log[|log| - 1].Push? ensures m.id < log[|log| - 1].message.id {
        PushedInLog(init, m);
      }
    }
  }

  lemma IncreasingSnoc(ms: seq<Message>, m: Message)
    requires Increasing(ms) && forall x :: x in ms ==> x.id < m.id
    ensures Increasing(ms + [m])
  {
  }

  lemma {:induction false} PushedToIsPushed<S>(log: seq<Offer<S>>, s: S)
    requires Increasing(Pushed(log))
    ensures Increasing(PushedTo(log, s)) && forall m :: m in PushedTo(log, s) ==> m in Pushed(log)
  {
    if log != [] {
      var init, o := log[..|log| - 1], log[|log| - 1];
      assert Pushed(init) == Pushed(log)[..|Pushed(init)|];
      PushedToIsPushed(init, s);
      if o.Push? {
        NewIsAbove(Pushed(init), o.message);
        IncreasingSnoc(PushedTo(init, s), o.message);
      }
    }
  }

  /** Live pushes, over all sessions and to each one, have strictly increasing ids: every saved message
      is pushed at most once. */
  lemma PushedAtMostOnce<S>(ops: seq<Op<S>>, s: S)
    requires AllPossible(Empty<S>(), ops)
    ensures var log := Exec(Empty<S>(), ops).log;
            Increasing(Pushed(log)) && Increasing(PushedTo(log, s))
  {
    RunKeepsInv(Empty<S>(), ops);
    PushedIncreasing(Exec(Empty<S>(), ops).log);
    PushedToIsPushed(Exec(Empty<S>(), ops).log, s);
  }

  // ---- one account's messages ----

  lemma ToAppend(ms: seq<Message>, m: Message, uid: int)
    ensures To(ms + [m], uid) == To(ms, uid) + if m.to == uid then [m] else []
  {
    assert (ms + [m])[..|ms|] == ms;
  }

  lemma HandedAppend<S>(log: seq<Offer<S>>, o: Offer<S>, uid: int)
    ensures Handed(log + [o], uid) == Handed(log, uid) + if o.Batch? && o.uid == uid then o.messages else []
  {
    assert (log + [o])[..|log|] == log;
  }

  /** What a state holds for one account: the messages saved to it, those in its batches, those pending. */
  datatype Account = Account(saved: seq<Message>, handed: seq<Message>, pending: seq<Message>)

  ghost function AccountOf<S>(st: State<S>, uid: int): Account {
    Account(To(st.saved, uid), Handed(st.log, uid), Undelivered(st.rows, uid))
  }

  /** What an operation does to one account. */
  datatype Change =
    | Nothing
    | Saved(message: Message)
    | Pulled(fetched: nat, marks: bool)

  function ChangeOf<S>(op: Op<S>, uid: int): Change {
    match op
    case Chat(from, to, content, time, ins, _) =>
      if from <= 0 || to <= 0 || content == "" || ins.Fails? || to != uid then Nothing
      else Saved(Message(ins.rowid, from, to, content, time))
    case Pull(u, fetched, marks) => if u == uid then Pulled(fetched, marks) else Nothing
  }

  function Take(pending: seq<Message>, fetched: nat): (batch: seq<Message>)
    ensures batch <= pending && |batch| == if fetched < |pending| then fetched else |pending|
  {
    if fetched < |pending| then pending[..fetched] else pending
  }

  function Step(a: Account, c: Change): Account {
    match c
    case Nothing => a
    case Saved(m) => Account(a.saved + [m], a.handed, a.pending + [m])
    case Pulled(fetched, marks) =>
      var batch := Take(a.pending, fetched);
      Account(a.saved, a.handed + batch, if batch != [] && marks then [] else a.pending)
  }

  lemma SaveStep<S>(st: State<S>, m: Message, uid: int, more: seq<Offer<S>>)
    requires |more| <= 1 && forall o :: o in more ==> o.Push?
    ensures AccountOf(State(st.rows + [Row(m, false)], st.saved + [m], st.log + more), uid)
         == Step(AccountOf(st, uid), if m.to == uid then Saved(m) else Nothing)
  {
    UndeliveredSave(st.rows, m, uid);
    ToAppend(st.saved, m, uid);
    if more == [] {
      assert st.log + more == st.log;
    } else {
      assert more == [more[0]] && more[0] in more;
      HandedAppend(st.log, more[0], uid);
    }
  }

  lemma ChatStep<S>(st: State<S>, op: Op<S>, uid: int)
    requires op.Chat? && Possible(st, op)
    ensures AccountOf(Apply(st, op), uid) == Step(AccountOf(st, uid), ChangeOf(op, uid))
  {
    if op.from > 0 && op.to > 0 && op.content != "" && op.ins.Picks? {
      var m := Message(op.ins.rowid, op.from, op.to, op.content, op.time);
      SaveStep(st, m, uid, if op.target.Some? then [Push(op.target.value, m)] else []);
    }
  }

  lemma LogBatch<S>(log: seq<Offer<S>>, to: int, batch: seq<Message>, uid: int)
    ensures Handed(log + if batch == [] then [] else [Batch(to, batch)], uid)
         == Handed(log, uid) + if to == uid then batch else []
  {
    if batch == [] {
      assert log + [] == log;
    } else {
      HandedAppend(log, Batch(to, batch), uid);
    }
  }

  lemma PullPending(rows: seq<Row>, to: int, fetched: nat, marks: bool, uid: int)
    ensures var (rows', batch) := GetOffline(rows, to, fetched, marks);
            && batch == (if to <= 0 then [] else Take(Undelivered(rows, to), fetched))
            && Undelivered(rows', uid) == if to == uid && batch != [] && marks then [] else Undelivered(rows, uid)
  {
    UndeliveredMarked(rows, to, uid);
  }

  /** A pull's effect on an account, from its effect on the table and on what was handed out. */
  lemma PullChange(a: Account, handed: seq<Message>, pending: seq<Message>, own: bool, fetched: nat, marks: bool,
      batch: seq<Message>)
    requires own ==> batch == Take(a.pending, fetched)
    requires handed == a.handed + if own then batch else []
    requires pending == if own && batch != [] && marks then [] else a.pending
    ensures Account(a.saved, handed, pending) == Step(a, if own then Pulled(fetched, marks) else Nothing)
  {
    assert a.handed + [] == a.handed;
  }

  lemma PullStep<S>(st: State<S>, op: Op<S>, uid: int)
    requires op.Pull? && uid > 0
    ensures AccountOf(Apply(st, op), uid) == Step(AccountOf(st, uid), ChangeOf(op, uid))
  {
    var (rows, batch) := GetOffline(st.rows, op.uid, op.fetched, op.marks);
    var log := st.log + if batch == [] then [] else [Batch(op.uid, batch)];
    assert Apply(st, op) == State(rows, st.saved, log);
    PullPending(st.rows, op.uid, op.fetched, op.marks, uid);
    LogBatch(st.log, op.uid, batch, uid);
    PullChange(AccountOf(st, uid), Handed(log, uid), Undelivered(rows, uid),
               op.uid == uid, op.fetched, op.marks, batch);
  }

  /** Every operation changes each account as its change says, and leaves the others alone. */
  lemma AccountStep<S>(st: State<S>, op: Op<S>, uid: int)
    requires Possible(st, op) && uid > 0
    ensures AccountOf(Apply(st, op), uid) == Step(AccountOf(st, uid), ChangeOf(op, uid))
  {
    if op.Chat? {
      ChatStep(st, op, uid);
    } else {
      PullStep(st, op, uid);
    }
  }

  lemma {:induction false} ToIncreasing(ms: seq<Message>, uid: int)
    requires Increasing(ms)
    ensures Increasing(To(ms, uid)) && forall m :: m in To(ms, uid) ==> m in ms
  {
    if ms != [] {
      var init := ms[..|ms| - 1];
      ToIncreasing(init, uid);
      forall m | m in To(init, uid) ensures m.id < ms[|ms| - 1].id {
        var i :| 0 <= i < |init| && init[i] == m;
        assert ms[i] == m;
      }
    }
  }

  lemma {:induction false} ToContains(ms: seq<Message>, uid: int, m: Message)
    ensures m in To(ms, uid) <==> m in ms && m.to == uid
  {
    if ms != [] {
      ToContains(ms[..|ms| - 1], uid, m);
      assert ms == ms[..|ms| - 1] + [ms[|ms| - 1]];
    }
  }

  /** Saved and pending messages are in order of id, and what is pending was saved. */
  ghost predicate Ordered(a: Account) {
    Increasing(a.saved) && Increasing(a.pending) && forall m :: m in a.pending ==> m in a.saved
  }

  lemma AccountOrdered<S>(st: State<S>, uid: int)
    requires Inv(st)
    ensures Ordered(AccountOf(st, uid))
  {
    ToIncreasing(st.saved, uid);
    UndeliveredIncreasing(st.rows, uid);
    forall m | m in Undelivered(st.rows, uid) ensures m in To(st.saved, uid) {
      UndeliveredSaved(st.rows, uid, m);
      ToContains(st.saved, uid, m);
    }
  }

  lemma StepKeepsInv<S>(st: State<S>, op: Op<S>)
    requires Inv(st) && Possible(st, op)
    ensures Inv(Apply(st, op))
  {
    if op.Chat? {
      ChatKeepsInv(st, op);
    } else {
      PullKeepsInv(st, op);
    }
  }

  // ---- conservation over runs ----

  /** Batches so far and what is still undelivered make up everything saved, in order. */
  ghost predicate Conserved(a: Account) {
    a.handed + a.pending == a.saved
  }

  /** A change that neither loses nor repeats a message. */
  predicate CleanChange(a: Account, c: Change) {
    c.Pulled? ==> Clean(|a.pending|, c.fetched, c.marks)
  }

  lemma CleanConserves(a: Account, c: Change)
    requires Conserved(a) && CleanChange(a, c)
    ensures Conserved(Step(a, c))
  {
    if c.Saved? {
      assert a.handed + (a.pending + [c.message]) == (a.handed + a.pending) + [c.message];
    } else if c.Pulled? {
      var batch := Take(a.pending, c.fetched);
      if batch == [] {
        assert a.handed + [] == a.handed;
      } else {
        assert batch == a.pending;
        assert (a.handed + batch) + [] == a.handed + a.pending;
      }
    }
  }

  /** Once the law is broken, or when an unclean pull breaks it, it stays broken. */
  lemma OnlyCleanConserves(a: Account, c: Change)
    requires Ordered(a) && Conserved(Step(a, c))
    ensures Conserved(a) && CleanChange(a, c)
  {
    if c.Saved? {
      assert (a.handed + (a.pending + [c.message]))[..|a.handed| + |a.pending|] == a.handed + a.pending;
      assert (a.saved + [c.message])[..|a.saved|] == a.saved;
    } else if c.Pulled? {
      var batch := Take(a.pending, c.fetched);
      if batch == [] {
        assert a.handed + [] == a.handed;
      } else if c.marks {
        assert (a.handed + batch) + [] == a.handed + batch;
        if batch != a.pending {
          CutShortLoses(a, batch);
        }
      } else {
        UnmarkedRepeats(a, batch);
      }
    }
  }

  lemma LastIsGreatest(ms: seq<Message>, m: Message)
    requires Increasing(ms) && m in ms
    ensures m.id <= ms[|ms| - 1].id
  {
  }

  lemma NewIsAbove(ms: seq<Message>, m: Message)
    requires Increasing(ms + [m])
    ensures forall x :: x in ms ==> x.id < m.id
  {
    forall x | x in ms ensures x.id < m.id {
      var i :| 0 <= i < |ms| && ms[i] == x;
      assert (ms + [m])[i] == x && (ms + [m])[|ms|] == m;
    }
  }

  lemma CutShortLoses(a: Account, batch: seq<Message>)
    requires Ordered(a) && batch != [] && batch < a.pending
    ensures a.saved != a.handed + batch
  {
    var all := a.handed + batch;
    assert all[|all| - 1] == a.pending[|batch| - 1];
    LastIsGreatest(a.saved, a.pending[|batch|]);
  }

  lemma UnmarkedRepeats(a: Account, batch: seq<Message>)
    requires Ordered(a) && batch != [] && batch <= a.pending
    ensures a.handed + batch + a.pending != a.saved
  {
    var all := a.handed + batch + a.pending;
    assert all[|a.handed|] == a.pending[0] == all[|a.handed| + |batch|];
  }

  lemma ConservedExact(a: Account, c: Change)
    requires Ordered(a)
    ensures Conserved(Step(a, c)) <==> Conserved(a) && CleanChange(a, c)
  {
    if Conserved(Step(a, c)) {
      OnlyCleanConserves(a, c);
    } else if Conserved(a) && CleanChange(a, c) {
      CleanConserves(a, c);
    }
  }

  /** Every pull for `uid` in the run is clean: it finds nothing, reads nothing, or reads everything and
      succeeds in marking it. */
  ghost predicate CleanRun<S>(st: State<S>, ops: seq<Op<S>>, uid: int)
    decreases |ops|
  {
    ops == [] ||
    (CleanChange(AccountOf(st, uid), ChangeOf(ops[0], uid)) && CleanRun(Apply(st, ops[0]), ops[1..], uid))
  }

  lemma {:induction false} RunConservesExact<S>(st: State<S>, ops: seq<Op<S>>, uid: int)
    requires uid > 0 && Inv(st) && AllPossible(st, ops)
    ensures Conserved(AccountOf(Exec(st, ops), uid)) <==> Conserved(AccountOf(st, uid)) && CleanRun(st, ops, uid)
    decreases |ops|
  {
    if ops != [] {
      AccountOrdered(st, uid);
      AccountStep(st, ops[0], uid);
      ConservedExact(AccountOf(st, uid), ChangeOf(ops[0], uid));
      StepKeepsInv(st, ops[0]);
      RunConservesExact(Apply(st, ops[0]), ops[1..], uid);
    }
  }

  /** Conservation: all batches for an account followed by its undelivered rows are exactly the messages
      saved to it, each once and in order of id, in exactly the runs whose pulls for it are clean. */
  lemma Conservation<S>(ops: seq<Op<S>>, uid: int)
    requires uid > 0 && AllPossible(Empty<S>(), ops)
    ensures Conserved(AccountOf(Exec(Empty<S>(), ops), uid)) <==> CleanRun(Empty<S>(), ops, uid)
    ensures Ordered(AccountOf(Exec(Empty<S>(), ops), uid))
  {
    RunConservesExact(Empty<S>(), ops, uid);
    RunKeepsInv(Empty<S>(), ops);
    AccountOrdered(Exec(Empty<S>(), ops), uid);
  }

  // ---- at most one batch ----

  /** What was handed out is older than what is pending, unless the same message is in both. */
  ghost predicate HandedFirst(a: Account) {
    && (forall m :: m in a.handed ==> m in a.saved)
    && (forall h, p :: h in a.handed && p in a.pending ==> h.id < p.id || p in a.handed)
  }

  /** A pull whose first row was in an earlier batch. */
  ghost predicate Repeats(a: Account, c: Change) {
    c.Pulled? && c.fetched > 0 && a.pending != [] && a.pending[0] in a.handed
  }

  lemma HandedFirstKept(a: Account, c: Change)
    requires Ordered(a) && HandedFirst(a) && Increasing(Step(a, c).saved)
    ensures HandedFirst(Step(a, c))
  {
    var a' := Step(a, c);
    if c.Saved? {
      NewIsAbove(a.saved, c.message);
    } else if c.Pulled? {
      var batch := Take(a.pending, c.fetched);
      forall h, p | h in batch && p in a.pending ensures h.id < p.id || p in batch {
        var i :| 0 <= i < |batch| && batch[i] == h;
        var j :| 0 <= j < |a.pending| && a.pending[j] == p;
        if j < |batch| {
          assert batch[j] == p;
        }
      }
    }
  }

  lemma RepeatsExact(a: Account, c: Change)
    requires Ordered(a) && HandedFirst(a)
    ensures Increasing(Step(a, c).handed) <==> Increasing(a.handed) && !Repeats(a, c)
  {
    if c.Pulled? {
      var batch := Take(a.pending, c.fetched);
      var handed := a.handed + batch;
      assert handed[..|a.handed|] == a.handed;
      if Repeats(a, c) {
        var i :| 0 <= i < |a.handed| && a.handed[i] == a.pending[0];
        assert handed[i] == handed[|a.handed|];
      } else if batch != [] {
        forall h | h in a.handed ensures h.id < batch[0].id {
          assert batch[0] in a.pending;
        }
      }
    }
  }

  ghost predicate NeverRepeats<S>(st: State<S>, ops: seq<Op<S>>, uid: int)
    decreases |ops|
  {
    ops == [] ||
    (!Repeats(AccountOf(st, uid), ChangeOf(ops[0], uid)) && NeverRepeats(Apply(st, ops[0]), ops[1..], uid))
  }

  lemma {:induction false} RunRepeatsExact<S>(st: State<S>, ops: seq<Op<S>>, uid: int)
    requires uid > 0 && Inv(st) && HandedFirst(AccountOf(st, uid)) && AllPossible(st, ops)
    ensures Increasing(Handed(Exec(st, ops).log, uid))
            <==> Increasing(Handed(st.log, uid)) && NeverRepeats(st, ops, uid)
    decreases |ops|
  {
    if ops != [] {
      var a, c := AccountOf(st, uid), ChangeOf(ops[0], uid);
      AccountOrdered(st, uid);
      AccountStep(st, ops[0], uid);
      StepKeepsInv(st, ops[0]);
      AccountOrdered(Apply(st, ops[0]), uid);
      HandedFirstKept(a, c);
      RepeatsExact(a, c);
      RunRepeatsExact(Apply(st, ops[0]), ops[1..], uid);
    }
  }

  /** A pull that reads something and whose UPDATE does not succeed. */
  ghost predicate Unmarked(a: Account, c: Change) {
    c.Pulled? && c.fetched > 0 && a.pending != [] && !c.marks
  }

  /** The first pending message was in a batch. */
  ghost predicate Stale(a: Account) {
    a.pending != [] && a.pending[0] in a.handed
  }

  lemma StaleExact(a: Account, c: Change)
    requires Ordered(a) && HandedFirst(a) && Increasing(Step(a, c).saved) && !Repeats(a, c)
    ensures Stale(Step(a, c)) <==> Stale(a) || Unmarked(a, c)
  {
    if c.Saved? {
      NewIsAbove(a.saved, c.message);
    } else if Unmarked(a, c) {
      assert Take(a.pending, c.fetched)[0] == a.pending[0];
    }
  }

  /** No operation is a pull for the account that asks for any row. */
  predicate NoReads<S>(ops: seq<Op<S>>, uid: int)
    decreases |ops|
  {
    ops == [] || (!(ops[0].Pull? && ops[0].uid == uid && ops[0].fetched > 0) && NoReads(ops[1..], uid))
  }

  /** After a pull for the account that reads something and does not mark it, no other one reads. */
  ghost predicate NoneAfterUnmarked<S>(st: State<S>, ops: seq<Op<S>>, uid: int)
    decreases |ops|
  {
    ops == [] ||
    ((Unmarked(AccountOf(st, uid), ChangeOf(ops[0], uid)) ==> NoReads(ops[1..], uid))
     && NoneAfterUnmarked(Apply(st, ops[0]), ops[1..], uid))
  }

  lemma {:induction false} NoReadsNoneAfter<S>(st: State<S>, ops: seq<Op<S>>, uid: int)
    requires NoReads(ops, uid)
    ensures NoneAfterUnmarked(st, ops, uid)
    decreases |ops|
  {
    if ops != [] {
      NoReadsNoneAfter(Apply(st, ops[0]), ops[1..], uid);
    }
  }

  lemma {:induction false} RepeatsAfterUnmarked<S>(st: State<S>, ops: seq<Op<S>>, uid: int)
    requires uid > 0 && Inv(st) && HandedFirst(AccountOf(st, uid)) && AllPossible(st, ops)
    ensures NeverRepeats(st, ops, uid)
            <==> if Stale(AccountOf(st, uid)) then NoReads(ops, uid) else NoneAfterUnmarked(st, ops, uid)
    decreases |ops|
  {
    if ops != [] {
      var a, c := AccountOf(st, uid), ChangeOf(ops[0], uid);
      AccountOrdered(st, uid);
      AccountStep(st, ops[0], uid);
      StepKeepsInv(st, ops[0]);
      AccountOrdered(Apply(st, ops[0]), uid);
      HandedFirstKept(a, c);
      if !Repeats(a, c) {
        StaleExact(a, c);
      }
      RepeatsAfterUnmarked(Apply(st, ops[0]), ops[1..], uid);
      if NoReads(ops[1..], uid) {
        NoReadsNoneAfter(Apply(st, ops[0]), ops[1..], uid);
      }
    }
  }

  /** Every pull for the account that reads anything marks what it found, however many rows it read. */
  predicate AlwaysMarks<S>(ops: seq<Op<S>>, uid: int)
    decreases |ops|
  {
    ops == [] ||
    ((ops[0].Pull? && ops[0].uid == uid ==> ops[0].marks || ops[0].fetched == 0) && AlwaysMarks(ops[1..], uid))
  }

  lemma {:induction false} MarkingIsEnough<S>(st: State<S>, ops: seq<Op<S>>, uid: int)
    requires AlwaysMarks(ops, uid)
    ensures NoneAfterUnmarked(st, ops, uid)
    decreases |ops|
  {
    if ops != [] {
      MarkingIsEnough(Apply(st, ops[0]), ops[1..], uid);
    }
  }

  /** Each message is in at most one batch in exactly the runs in which no pull for the account reads after
      one that read something and did not mark it; so it is whenever marking succeeds, even if reads end
      early. */
  lemma AtMostOneBatch<S>(ops: seq<Op<S>>, uid: int)
    requires uid > 0 && AllPossible(Empty<S>(), ops)
    ensures Increasing(Handed(Exec(Empty<S>(), ops).log, uid)) <==> NoneAfterUnmarked(Empty<S>(), ops, uid)
    ensures AlwaysMarks(ops, uid) ==> Increasing(Handed(Exec(Empty<S>(), ops).log, uid))
  {
    RunRepeatsExact(Empty<S>(), ops, uid);
    RepeatsAfterUnmarked(Empty<S>(), ops, uid);
    if AlwaysMarks(ops, uid) {
      MarkingIsEnough(Empty<S>(), ops, uid);
    }
  }

  // ---- when a run loses a message ----

  ghost predicate NothingLost(a: Account) {
    forall m :: m in a.saved ==> m in a.handed || m in a.pending
  }

  /** A pull that marks everything after reading only a part, when something it did not read was in no
      earlier batch. */
  ghost predicate Loses(a: Account, c: Change) {
    c.Pulled? && c.marks && c.fetched > 0
    && exists i :: c.fetched <= i < |a.pending| && a.pending[i] !in a.handed
  }

  lemma LosesExact(a: Account, c: Change)
    requires Ordered(a) && Increasing(Step(a, c).saved)
    ensures NothingLost(Step(a, c)) <==> NothingLost(a) && !Loses(a, c)
  {
    if c.Saved? {
      SavedLosesNothing(a, c.message);
    } else if c.Pulled? {
      PulledLoses(a, c);
    }
  }

  lemma SavedLosesNothing(a: Account, m: Message)
    requires Increasing(a.saved + [m])
    ensures NothingLost(Step(a, Saved(m))) <==> NothingLost(a)
  {
    NewIsAbove(a.saved, m);
  }

  lemma PulledLoses(a: Account, c: Change)
    requires c.Pulled? && Ordered(a)
    ensures NothingLost(Step(a, c)) <==> NothingLost(a) && !Loses(a, c)
  {
    var batch, a' := Take(a.pending, c.fetched), Step(a, c);
    if Loses(a, c) {
      var i :| c.fetched <= i < |a.pending| && a.pending[i] !in a.handed;
      assert a.pending[i] in a.saved && a.pending[i] !in batch;
    } else {
      forall m | m in a.pending ensures m in a'.handed || m in a'.pending {
        var i :| 0 <= i < |a.pending| && a.pending[i] == m;
        if i < |batch| {
          assert batch[i] == m;
        }
      }
    }
  }

  ghost predicate NeverLoses<S>(st: State<S>, ops: seq<Op<S>>, uid: int)
    decreases |ops|
  {
    ops == [] ||
    (!Loses(AccountOf(st, uid), ChangeOf(ops[0], uid)) && NeverLoses(Apply(st, ops[0]), ops[1..], uid))
  }

  lemma {:induction false} RunLosesExact<S>(st: State<S>, ops: seq<Op<S>>, uid: int)
    requires uid > 0 && Inv(st) && AllPossible(st, ops)
    ensures NothingLost(AccountOf(Exec(st, ops), uid)) <==> NothingLost(AccountOf(st, uid)) && NeverLoses(st, ops, uid)
    decreases |ops|
  {
    if ops != [] {
      AccountOrdered(st, uid);
      AccountStep(st, ops[0], uid);
      StepKeepsInv(st, ops[0]);
      AccountOrdered(Apply(st, ops[0]), uid);
      LosesExact(AccountOf(st, uid), ChangeOf(ops[0], uid));
      RunLosesExact(Apply(st, ops[0]), ops[1..], uid);
    }
  }

  /** No pull for the account ends early having read some rows and still marks them all. */
  ghost predicate NeverCutShort<S>(st: State<S>, ops: seq<Op<S>>, uid: int)
    decreases |ops|
  {
    ops == [] ||
    (!(ops[0].Pull? && ops[0].uid == uid && ops[0].marks && 0 < ops[0].fetched < |Undelivered(st.rows, uid)|)
     && NeverCutShort(Apply(st, ops[0]), ops[1..], uid))
  }

  lemma {:induction false} WholeNeverLoses<S>(st: State<S>, ops: seq<Op<S>>, uid: int)
    requires NeverCutShort(st, ops, uid)
    ensures NeverLoses(st, ops, uid)
    decreases |ops|
  {
    if ops != [] {
      WholeNeverLoses(Apply(st, ops[0]), ops[1..], uid);
    }
  }

  /** Every saved message absent from all batches is still undelivered, in exactly the runs that have no
      losing pull; so it is when marking fails, and when every read that is marked is whole. */
  lemma NothingIsLost<S>(ops: seq<Op<S>>, uid: int)
    requires uid > 0 && AllPossible(Empty<S>(), ops)
    ensures NothingLost(AccountOf(Exec(Empty<S>(), ops), uid)) <==> NeverLoses(Empty<S>(), ops, uid)
    ensures NeverCutShort(Empty<S>(), ops, uid) ==> NeverLoses(Empty<S>(), ops, uid)
  {
    RunLosesExact(Empty<S>(), ops, uid);
    if NeverCutShort(Empty<S>(), ops, uid) {
      WholeNeverLoses(Empty<S>(), ops, uid);
    }
  }

  // ---- a live push comes back ----

  predicate NoPullFor<S>(ops: seq<Op<S>>, uid: int)
    decreases |ops|
  {
    ops == [] || ((ops[0].Pull? ==> ops[0].uid != uid) && NoPullFor(ops[1..], uid))
  }

  lemma {:induction false} PendingOnlyGrows<S>(st: State<S>, ops: seq<Op<S>>, uid: int)
    requires uid > 0 && AllPossible(st, ops) && NoPullFor(ops, uid)
    ensures Undelivered(st.rows, uid) <= Undelivered(Exec(st, ops).rows, uid)
    decreases |ops|
  {
    if ops != [] {
      AccountStep(st, ops[0], uid);
      PendingOnlyGrows(Apply(st, ops[0]), ops[1..], uid);
    }
  }

  lemma TakenExactly(pending: seq<Message>, k: nat, fetched: nat)
    requires Increasing(pending) && k < |pending|
    ensures pending[k] in Take(pending, fetched) <==> fetched > k
  {
    var batch := Take(pending, fetched);
    if fetched > k {
      assert batch[k] == pending[k];
    } else {
      assert forall i :: 0 <= i < |batch| ==> batch[i].id < pending[k].id;
    }
  }

  /** After a save the message stays at its place among the pending ones until the account's next pull. */
  lemma SavedWaits<S>(st: State<S>, op: Op<S>, between: seq<Op<S>>)
    requires Inv(st) && op.Chat? && Possible(st, op) && ChangeOf(op, op.to).Saved? && op.to > 0
    requires AllPossible(Apply(st, op), between) && NoPullFor(between, op.to)
    ensures var pending := Undelivered(Exec(Apply(st, op), between).rows, op.to);
            var k := |Undelivered(st.rows, op.to)|;
            Increasing(pending) && k < |pending| && pending[k] == ChangeOf(op, op.to).message
  {
    var st1 := Apply(st, op);
    ChatStep(st, op, op.to);
    PendingOnlyGrows(st1, between, op.to);
    ChatKeepsInv(st, op);
    RunKeepsInv(st1, between);
    UndeliveredIncreasing(Exec(st1, between).rows, op.to);
  }

  /** A live push does not mark its row: whatever happens in between, the recipient's next pull hands the
      same message out again, exactly if it reads past the messages that were pending before it. */
  lemma LivePushComesBack<S>(st: State<S>, op: Op<S>, between: seq<Op<S>>, fetched: nat, marks: bool)
    requires Inv(st) && op.Chat? && op.target.Some? && Possible(st, op) && Apply(st, op) != st
    requires AllPossible(Apply(st, op), between) && NoPullFor(between, op.to)
    ensures var m := Message(op.ins.rowid, op.from, op.to, op.content, op.time);
            var rows := Exec(Apply(st, op), between).rows;
            && Apply(st, op).log == st.log + [Push(op.target.value, m)]
            && (m in GetOffline(rows, op.to, fetched, marks).1 <==> fetched > |Undelivered(st.rows, op.to)|)
  {
    SavedWaits(st, op, between);
    TakenExactly(Undelivered(Exec(Apply(st, op), between).rows, op.to), |Undelivered(st.rows, op.to)|, fetched);
  }

  // ---- runs that fail ----

  lemma RunChange<S>(ops: seq<Op<S>>, st: State<S>, op: Op<S>, uid: int)
    requires IsRun(ops, st) && Possible(st, op) && uid > 0
    ensures IsRun(ops + [op], Apply(st, op))
    ensures AccountOf(Apply(st, op), uid) == Step(AccountOf(st, uid), ChangeOf(op, uid))
  {
    RunAppend(ops, st, op);
    AccountStep(st, op, uid);
  }

  /** Messages 1 and 2, from account 1 to account 2, which is not online. */
  function TwoChats<S>(text1: string, text2: string, time: string): seq<Op<S>> {
    [] + [Chat(1, 2, text1, time, Accounts.Picks(1), None)] + [Chat(1, 2, text2, time, Accounts.Picks(2), None)]
  }

  lemma FirstChatRun<S>(chat: Op<S>, m: Message) returns (st: State<S>)
    requires chat.Chat? && chat.ins == Accounts.Picks(1) && ChangeOf(chat, 2) == Saved(m)
    ensures IsRun([] + [chat], st) && AccountOf(st, 2) == Account([m], [], [m]) && st.rows == [Row(m, false)]
    ensures chat.target.Some? ==> Pushed(st.log) == [m]
  {
    st := Apply(Empty<S>(), chat);
    RunChange([], Empty<S>(), chat, 2);
    if chat.target.Some? {
      assert st.log == [] + [Push(chat.target.value, m)];
      PushedAppend([], Push(chat.target.value, m));
    }
  }

  lemma TwoChatsRun<S>(text1: string, text2: string, time: string) returns (st: State<S>)
    requires text1 != "" && text2 != ""
    ensures IsRun(TwoChats<S>(text1, text2, time), st)
    ensures var ms := [Message(1, 1, 2, text1, time), Message(2, 1, 2, text2, time)];
            AccountOf(st, 2) == Account(ms, [], ms)
  {
    var op1: Op<S> := Chat(1, 2, text1, time, Accounts.Picks(1), None);
    var op2: Op<S> := Chat(1, 2, text2, time, Accounts.Picks(2), None);
    var st1 := FirstChatRun(op1, Message(1, 1, 2, text1, time));
    RunChange([] + [op1], st1, op2, 2);
    st := Apply(st1, op2);
  }

  /** One of two messages is lost: the pull reads one row and marks both. */
  lemma MessageIsLost<S>(text1: string, text2: string, time: string)
    requires text1 != "" && text2 != ""
    ensures var ops: seq<Op<S>> := TwoChats(text1, text2, time) + [Pull(2, 1, true)];
            var a := AccountOf(Exec(Empty<S>(), ops), 2);
            && AllPossible(Empty<S>(), ops)
            && !NothingLost(a) && !Conserved(a)
  {
    var chats: seq<Op<S>>, pull: Op<S> := TwoChats(text1, text2, time), Pull(2, 1, true);
    var st := TwoChatsRun<S>(text1, text2, time);
    RunChange(chats, st, pull, 2);
    CutShort(Message(1, 1, 2, text1, time), Message(2, 1, 2, text2, time));
  }

  lemma CutShort(m1: Message, m2: Message)
    requires m1 != m2
    ensures var ms := [m1, m2];
            var a := Step(Account(ms, [], ms), Pulled(1, true));
            !NothingLost(a) && !Conserved(a)
  {
    assert [m1, m2][..1] == [m1];
    var a := Step(Account([m1, m2], [], [m1, m2]), Pulled(1, true));
    assert a == Account([m1, m2], [m1], []);
    assert a.saved[1] == m2 && m2 !in a.handed && m2 !in a.pending;
    assert |a.handed + a.pending| == 1;
  }

  /** A message is in two batches: its first pull does not mark it. */
  lemma MessageIsRepeated<S>(text1: string, text2: string, time: string)
    requires text1 != "" && text2 != ""
    ensures var ops: seq<Op<S>> := TwoChats(text1, text2, time) + [Pull(2, 1, false)] + [Pull(2, 1, false)];
            var m1 := Message(1, 1, 2, text1, time);
            && AllPossible(Empty<S>(), ops)
            && Handed(Exec(Empty<S>(), ops).log, 2) == [m1, m1]
            && !Increasing(Handed(Exec(Empty<S>(), ops).log, 2))
  {
    var chats: seq<Op<S>>, pull: Op<S> := TwoChats(text1, text2, time), Pull(2, 1, false);
    var st := TwoChatsRun<S>(text1, text2, time);
    RunChange(chats, st, pull, 2);
    RunChange(chats + [pull], Apply(st, pull), pull, 2);
    TakenTwice(Message(1, 1, 2, text1, time), Message(2, 1, 2, text2, time));
  }

  lemma TakenTwice(m1: Message, m2: Message)
    ensures var ms := [m1, m2];
            var a := Step(Step(Account(ms, [], ms), Pulled(1, false)), Pulled(1, false));
            a.handed == [m1, m1] && !Increasing(a.handed)
  {
    assert [m1, m2][..1] == [m1];
    var a := Step(Account([m1, m2], [], [m1, m2]), Pulled(1, false));
    assert a == Account([m1, m2], [m1], [m1, m2]);
    assert Step(a, Pulled(1, false)).handed[0].id == Step(a, Pulled(1, false)).handed[1].id;
  }

  lemma TakenOnce(m: Message, marks: bool)
    ensures Step(Account([m], [], [m]), Pulled(1, marks)).handed == [m]
  {
  }

  /** A message is pushed live and then handed out in a batch. */
  lemma MessageComesTwice<S>(text: string, time: string, s: S, marks: bool)
    requires text != ""
    ensures var ops: seq<Op<S>> := [] + [Chat(1, 2, text, time, Accounts.Picks(1), Some(s))] + [Pull(2, 1, marks)];
            var m := Message(1, 1, 2, text, time);
            && AllPossible(Empty<S>(), ops)
            && Pushed(Exec(Empty<S>(), ops).log) == [m] && Handed(Exec(Empty<S>(), ops).log, 2) == [m]
  {
    var m := Message(1, 1, 2, text, time);
    var chat: Op<S>, pull: Op<S> := Chat(1, 2, text, time, Accounts.Picks(1), Some(s)), Pull(2, 1, marks);
    var st := FirstChatRun(chat, m);
    RunChange([] + [chat], st, pull, 2);
    PulledIsNotPushed(st, pull);
    TakenOnce(m, marks);
  }

  lemma PushedAppend<S>(log: seq<Offer<S>>, o: Offer<S>)
    ensures Pushed(log + [o]) == Pushed(log) + if o.Push? then [o.message] else []
  {
    assert (log + [o])[..|log|] == log;
  }

  lemma PulledIsNotPushed<S>(st: State<S>, op: Op<S>)
    requires op.Pull?
    ensures Pushed(Apply(st, op).log) == Pushed(st.log)
  {
    var batch := GetOffline(st.rows, op.uid, op.fetched, op.marks).1;
    if batch == [] {
      assert st.log + [] == st.log;
    } else {
      PushedAppend(st.log, Batch(op.uid, batch));
    }
  }
}
