/** The worker thread: the request queue and the loop that empties it, as a run of the machine in RequestQueue, with
    the record of every handled request and of what it did. */
module MessageLoops {
  import opened Constants
  import opened Wrappers
  import opened Framing
  import opened RequestQueue
  import opened Sessions
  import opened Effects
  import opened Deals
  import opened LogicSystems
  import Presence
  import Accounts
  import Messages

  /** What other threads do around one turn of the worker: requests posted and sessions closed before it,
      perhaps a spurious wakeup, requests posted while the handler runs, and the handler's environment. */
  datatype Round = Round(
    posts: seq<Request<CSession>>, closes: seq<CSession>, wakes: bool, during: seq<Request<CSession>>, env: Env)

  /** The requests posted in the first turns of a schedule, one turn for each element of `busy`, which says
      whether the worker had a request in hand. */
  function PostedIn(script: nat -> Round, busy: seq<bool>): seq<Request<CSession>> {
    if busy == [] then []
    else
      var k := |busy| - 1;
      PostedIn(script, busy[..k]) + (script(k).posts + if busy[k] then script(k).during else [])
  }

  ghost function ClosedIn(script: nat -> Round, k: nat): set<CSession> {
    Presence.SetOf(script(k).closes)
  }

  /** Everything closed in the first `n` turns is stopped. */
  ghost predicate AllClosed(script: nat -> Round, n: nat, stopped: set<CSession>) {
    n == 0 || (AllClosed(script, n - 1, stopped) && ClosedIn(script, n - 1) <= stopped)
  }

  lemma {:induction false} StillClosed(script: nat -> Round, n: nat, before: set<CSession>, after: set<CSession>)
    requires AllClosed(script, n, before) && before <= after
    ensures AllClosed(script, n, after)
  {
    if n > 0 {
      StillClosed(script, n - 1, before, after);
    }
  }

  /** What a schedule leaves its traces in: the posts, the accepted requests, the handled ones with what they did,
      and the stopped sessions. */
  datatype Trace = Trace(
    offered: seq<Request<CSession>>, accepted: seq<Request<CSession>>, deals: seq<Deal>, stopped: set<CSession>)

  /** One turn's traces. */
  ghost predicate Moved(script: nat -> Round, rounds: nat, k: nat, handled: bool, t: Trace, t': Trace) {
    && t'.offered == t.offered + TurnPosts(script, rounds, k, handled)
    && t.accepted <= t'.accepted
    && DealtIn(t.deals, t'.deals, handled, script(k).env)
    && t.stopped <= t'.stopped && (k < rounds ==> ClosedIn(script, k) <= t'.stopped)
  }

  /** A request was handled, in this environment, or none. */
  ghost predicate DealtIn(before: seq<Deal>, after: seq<Deal>, handled: bool, env: Env) {
    && before <= after && |after| == |before| + (if handled then 1 else 0)
    && (handled ==> after[|before|].env == env)
  }

  function TurnPosts(script: nat -> Round, rounds: nat, k: nat, handled: bool): seq<Request<CSession>> {
    if k < rounds then script(k).posts + (if handled then script(k).during else []) else []
  }

  /** From position `n` on, every request met the environment of its turn: `turns` says which. */
  ghost predicate EnvsOf(script: nat -> Round, deals: seq<Deal>, n: nat, turns: seq<nat>) {
    |deals| == n + |turns| && forall i :: 0 <= i < |turns| ==> deals[n + i].env == script(turns[i]).env
  }

  /** In the first `k` turns requests were handled in these ones, in order; `busy` agrees. */
  ghost predicate Timed(turns: seq<nat>, busy: seq<bool>, k: nat) {
    && (forall i :: 0 <= i < |turns| ==> turns[i] < k)
    && (forall i, j :: 0 <= i < j < |turns| ==> turns[i] < turns[j])
    && |busy| <= k && (forall j :: 0 <= j < |busy| ==> (busy[j] <==> j in turns))
  }

  lemma TimedOn(turns: seq<nat>, busy: seq<bool>, k: nat, handled: bool)
    requires Timed(turns, busy, k)
    ensures var turns' := if handled then turns + [k] else turns;
            Timed(turns', busy, k + 1) && (|busy| == k ==> Timed(turns', busy + [handled], k + 1))
  {
  }

  /** The traces of the turns before the `k`-th; `busy` says in which of them a request was handled. */
  ghost predicate Follows(script: nat -> Round, rounds: nat, k: nat, busy: seq<bool>, turns: seq<nat>,
                          t: Trace, t': Trace) {
    && |busy| == (if k <= rounds then k else rounds)
    && t'.offered == t.offered + PostedIn(script, busy)
    && t.accepted <= t'.accepted
    && t.deals <= t'.deals && EnvsOf(script, t'.deals, |t.deals|, turns)
    && Timed(turns, busy, k)
    && AllClosed(script, |busy|, t'.stopped)
  }

  lemma EnvsOn(script: nat -> Round, k: nat, turns: seq<nat>, handled: bool, before: seq<Deal>, after: seq<Deal>,
               n: nat)
    requires EnvsOf(script, before, n, turns) && DealtIn(before, after, handled, script(k).env)
    ensures EnvsOf(script, after, n, if handled then turns + [k] else turns)
  {
    forall i | 0 <= i < |turns| ensures after[n + i].env == script(turns[i]).env {
      assert after[n + i] == before[n + i];
    }
    if handled {
      assert after[n + |turns|].env == script(k).env;
    } else {
      assert after == before;
    }
  }

  lemma FollowsOn(script: nat -> Round, rounds: nat, k: nat, busy: seq<bool>, turns: seq<nat>, handled: bool,
                  t: Trace, t': Trace, t'': Trace)
    requires Follows(script, rounds, k, busy, turns, t, t') && Moved(script, rounds, k, handled, t', t'')
    ensures Follows(script, rounds, k + 1, if k < rounds then busy + [handled] else busy,
                    if handled then turns + [k] else turns, t, t'')
  {
    EnvsOn(script, k, turns, handled, t'.deals, t''.deals, |t.deals|);
    TimedOn(turns, busy, k, handled);
    StillClosed(script, |busy|, t'.stopped, t''.stopped);
    PostedOn(script, rounds, k, busy, handled, t.offered);
  }

  lemma PostedOn(script: nat -> Round, rounds: nat, k: nat, busy: seq<bool>, handled: bool,
                 offered: seq<Request<CSession>>)
    requires |busy| == if k <= rounds then k else rounds
    ensures offered + PostedIn(script, busy) + TurnPosts(script, rounds, k, handled)
         == offered + PostedIn(script, if k < rounds then busy + [handled] else busy)
  {
    if k < rounds {
      assert (busy + [handled])[..k] == busy;
      Reassociate(offered, PostedIn(script, busy), TurnPosts(script, rounds, k, handled));
    }
  }

  /** The request queue and the loop that empties it.  The ghost field `machine` is the state of the queue
      machine, with its histories of what was posted, accepted and handled; `events` is the run that
      reaches it.  `deals` records what each handled request did since the state `start`. */
  class MessageLoop {
    const system: LogicSystem
    const parse: seq<Byte> -> Body
    var msgQue: seq<Request<CSession>>
    var stop: bool
    var asleep: bool  // the worker thread is inside wait
    ghost var machine: RequestQueue.State<CSession>
    ghost var events: seq<RequestQueue.Event<CSession>>
    ghost const start: Snapshot
    ghost var deals: seq<Deal>

    ghost predicate QueueValid()
      reads this, system.all`expired
    {
      && RequestQueue.IsRun(events, machine)
      && machine.queue == msgQue && machine.stop == stop
      && (asleep <==> machine.worker.Blocked?)
      && !machine.worker.Deciding?
      && AllKnown(msgQue, system)
    }

    /** The state of everything the handlers change is what the handled requests make of `start`. */
    ghost predicate DealsValid()
      reads this`machine, this`deals, system, system.db, system.users, system.all
    {
      Explained(start, deals, system.Now(), machine.handled, parse, system.db.hash)
    }

    ghost predicate Valid()
      reads this, system, system.db, system.users, system.all
    {
      system.Valid() && QueueValid() && DealsValid() && !machine.worker.Busy?
    }

    constructor (system: LogicSystem, parse: seq<Byte> -> Body)
      requires system.Valid()
      ensures start == system.Now() && deals == []
      ensures Valid() && this.system == system && this.parse == parse && !stop && !asleep
      ensures machine == RequestQueue.Initial()
    {
      this.system := system;
      this.parse := parse;
      msgQue, stop, asleep := [], false, false;
      machine, events := RequestQueue.Initial(), [];
      start, deals := system.Now(), [];
      new;
      ExplainedStart(start, parse, system.db.hash);
    }

    /** Make the step `e` of the queue machine; the real fields must be changed to match. */
    ghost method Step(e: RequestQueue.Event<CSession>)
      requires RequestQueue.IsRun(events, machine) && RequestQueue.Enabled(machine, e)
      modifies this`machine, this`events
      ensures RequestQueue.IsRun(events, machine) && machine == RequestQueue.Apply(old(machine), e)
    {
      RequestQueue.RunAppend(events, machine, e);
      machine, events := RequestQueue.Apply(machine, e), events + [e];
    }

    /** The notification, which wakes the worker if it sleeps, is sent only when the size becomes 1. */
    method PostMsgToQue(msg: Request<CSession>)
      requires QueueValid() && Known(msg, system)
      modifies this`msgQue, this`asleep, this`machine, this`events
      ensures QueueValid() && machine == RequestQueue.Apply(old(machine), RequestQueue.Post(msg))
      ensures msgQue == Enqueue(old(msgQue), msg)
      ensures asleep <==> old(asleep) && |old(msgQue)| != 0
    {
      Step(RequestQueue.Post(msg));
      if |msgQue| >= MAX_RECVQUE {
        return;
      }
      msgQue := msgQue + [msg];
      if |msgQue| == 1 {
        asleep := false;
      }
    }

    /** The destructor, up to the join: the flag is set and the worker notified, each without the lock. */
    method Shutdown()
      requires QueueValid() && !machine.stopNotified
      modifies this`stop, this`asleep, this`machine, this`events
      ensures QueueValid() && stop && !asleep && msgQue == old(msgQue)
      ensures machine
           == RequestQueue.Apply(RequestQueue.Apply(old(machine), RequestQueue.SetStop), RequestQueue.NotifyStop)
    {
      Step(RequestQueue.SetStop);
      stop := true;
      Step(RequestQueue.NotifyStop);
      asleep := false;
    }

    /** A wakeup without a notification. */
    method Spurious()
      requires QueueValid()
      modifies this`asleep, this`machine, this`events
      ensures QueueValid() && !asleep
      ensures machine == if old(asleep) then RequestQueue.Apply(old(machine), RequestQueue.Spurious) else old(machine)
    {
      if asleep {
        Step(RequestQueue.Spurious);
        asleep := false;
      }
    }

    /** `DealMsg`, with what other threads do in its first `rounds` turns; then the destructor sets the stop
        flag.  The loop ends, with every accepted request handled and answered. */
    method DealMsg(rounds: nat, script: nat -> Round)
      returns (ghost busy: seq<bool>, ghost turns: seq<nat>, ghost n: nat)
      requires Valid() && ScriptKnown(script, system) && !stop && !machine.stopNotified && !machine.worker.Exited?
      modifies this
      modifies system`outbox, system`saved, system`ops, system.db, system.users, system.all`stop, system.all`loginUid
      ensures Valid() && machine.worker.Exited? && msgQue == [] && machine.handled == machine.accepted
      ensures |busy| == rounds && machine.offered == old(machine).offered + PostedIn(script, busy)
      ensures old(machine).accepted <= machine.accepted
      ensures old(deals) <= deals && EnvsOf(script, deals, |old(deals)|, turns)
      ensures Timed(turns, busy, n)
      ensures AllClosed(script, rounds, Stopped(system.all))
      ensures forall s :: s in system.all ==>
                ReplyIds(system.outbox, s) == ReplyIds(start.outbox, s) + Owed(machine.accepted, s)
      ensures system.db.history == start.history + AccountStepsOf(deals)
      ensures system.ops == start.ops + DeliveryStepsOf(deals)
    {
      busy, turns, n := Loop(rounds, script);
      forall s | s in system.all
        ensures ReplyIds(system.outbox, s) == ReplyIds(start.outbox, s) + Owed(machine.handled, s)
      {
        EveryoneIsAnswered(s);
      }
      TablesFollowBodies();
    }

    /** Every session has been offered exactly the answers it is owed for the handled requests, in order. */
    lemma EveryoneIsAnswered(s: CSession)
      requires Valid()
      ensures ReplyIds(system.outbox, s) == ReplyIds(start.outbox, s) + Owed(machine.handled, s)
    {
      AllAnswer(deals, system.db.hash, s);
      AnswersAddUp(start, deals, system.Now(), machine.handled, parse, s);
    }

    /** The steps the tables and the delivery machine have made are those of the handled requests' bodies. */
    lemma TablesFollowBodies()
      requires Valid()
      ensures system.db.history == start.history + AccountStepsOf(deals)
      ensures system.ops == start.ops + DeliveryStepsOf(deals)
    {
      AllStep(deals, system.db.hash);
      StepsAddUp(start, deals, system.Now());
    }

    /** A request with the bytes of an earlier registration that was answered `Done`, but sent as a login, is
        answered with the account that was registered, unless the database fails. */
    lemma RegistrantLogsIn(i: nat, j: nat) returns (n: nat)
      requires Valid() && i < j < |machine.handled|
      requires machine.handled[i].frame.id == MSG_REGISTER_REQ && machine.handled[j].frame.id == MSG_LOGIN_REQ
      requires machine.handled[j].frame.body == machine.handled[i].frame.body
      requires Answers(deals[i], [], MSG_REGISTER_RSP, Done) && !deals[j].env.fails
      ensures deals[i].ins.Picks?
      ensures Sent(machine.handled[j].session, MSG_LOGIN_RSP, LoggedIn(deals[i].ins.rowid, n), Reply) in system.outbox
    {
      assert Serves(deals[i], machine.handled[i], parse) && Serves(deals[j], machine.handled[j], parse);
      n := Deals.RegistrantLogsIn(start, deals, system.Now(), system.db.hash, i, j);
    }

    /** If nobody was logged in when the loop was made, every message saved since is the chat of a session, with its
        recipient and text, whose last login before it was to the account named as its sender. */
    lemma ChatsAreAuthentic(m: Messages.Message) returns (i: nat)
      requires Valid() && NobodyLoggedIn(start) && m in system.saved && m !in start.delivery.saved
      ensures i < |machine.handled| && machine.handled[i].frame.id == MSG_SEND_CHAT_REQ
      ensures var body := parse(machine.handled[i].frame.body);
              body.Json? && body.toUid == Is(m.to) && body.content == Is(m.content)
      ensures m.from == LastLogin(deals[..i], machine.handled[i].session) > 0
    {
      AllRebind(deals, system.db.hash);
      i := SenderIsAuthentic(start, deals, system.Now(), m);
      assert Serves(deals[i], machine.handled[i], parse);
    }

    /** What the thread has left its traces in so far. */
    ghost function Traces(): Trace
      reads this`machine, this`deals, system.all`stop
    {
      Trace(machine.offered, machine.accepted, deals, Stopped(system.all))
    }

    method Loop(rounds: nat, script: nat -> Round)
      returns (ghost busy: seq<bool>, ghost turns: seq<nat>, ghost n: nat)
      requires Valid() && ScriptKnown(script, system) && !stop && !machine.stopNotified && !machine.worker.Exited?
      modifies this
      modifies system`outbox, system`saved, system`ops, system.db, system.users, system.all`stop, system.all`loginUid
      ensures Valid() && machine.worker.Exited? && msgQue == [] && machine.handled == machine.accepted
      ensures n > rounds && Follows(script, rounds, n, busy, turns, old(Traces()), Traces())
    {
      var k, exited := 0, false;
      ghost var first := Traces();
      busy, turns := [], [];
      while !exited
        invariant Valid() && (exited <==> machine.worker.Exited?)
        invariant if k <= rounds then !stop && !machine.stopNotified else stop && !asleep
        invariant Follows(script, rounds, k, busy, turns, first, Traces())
        invariant exited ==> k > rounds && msgQue == [] && machine.handled == machine.accepted
        decreases if k <= rounds then rounds + 1 - k else 0, |msgQue|, !exited
      {
        exited, busy, turns := NextTurn(k, rounds, script, busy, turns, first);
        k := k + 1;
      }
      n := k;
    }

    /** The `k`-th turn, with the traces since `first`. */
    method NextTurn(k: nat, rounds: nat, script: nat -> Round, ghost busy: seq<bool>, ghost turns: seq<nat>,
                    ghost first: Trace)
      returns (exited: bool, ghost busy': seq<bool>, ghost turns': seq<nat>)
      requires Valid() && ScriptKnown(script, system) && !machine.worker.Exited?
      requires if k <= rounds then !stop && !machine.stopNotified else stop && !asleep
      requires Follows(script, rounds, k, busy, turns, first, Traces())
      modifies this`msgQue, this`stop, this`asleep, this`machine, this`events, this`deals
      modifies system`outbox, system`saved, system`ops, system.db, system.users, system.all`stop, system.all`loginUid
      ensures Valid() && (exited <==> machine.worker.Exited?)
      ensures if k < rounds then !stop && !machine.stopNotified else stop && !asleep
      ensures exited ==> k >= rounds && msgQue == [] && machine.handled == machine.accepted
      ensures k > rounds && !exited ==> |msgQue| < |old(msgQue)|
      ensures Follows(script, rounds, k + 1, busy', turns', first, Traces())
    {
      ghost var before := Traces();
      ghost var handled;
      exited, handled := Iterate(k, rounds, script);
      FollowsOn(script, rounds, k, busy, turns, handled, first, before, Traces());
      busy' := if k < rounds then busy + [handled] else busy;
      turns' := if handled then turns + [k] else turns;
    }

    /** One turn of the loop, with what happens before it. */
    method Iterate(k: nat, rounds: nat, script: nat -> Round) returns (exited: bool, ghost handled: bool)
      requires Valid() && ScriptKnown(script, system) && !machine.worker.Exited?
      requires if k <= rounds then !stop && !machine.stopNotified else stop && !asleep
      modifies this`msgQue, this`stop, this`asleep, this`machine, this`events, this`deals
      modifies system`outbox, system`saved, system`ops, system.db, system.users, system.all`stop, system.all`loginUid
      ensures Valid() && (exited <==> machine.worker.Exited?)
      ensures Moved(script, rounds, k, handled, old(Traces()), Traces())
      ensures if k < rounds then !stop && !machine.stopNotified else stop && !asleep
      ensures exited ==> k >= rounds && msgQue == [] && machine.handled == machine.accepted
      ensures k > rounds && !exited ==> |msgQue| < |old(msgQue)|
    {
      var round := script(k);
      assert RoundKnown(round, system);
      ghost var before := system.Now();
      BeforeTurn(k, rounds, round);
      ExplainedMeanwhile(start, deals, before, system.Now(), machine.handled, parse, system.db.hash);
      var during := if k < rounds then round.during else [];
      exited, handled := Turn(during, round.env);
      Reassociate(old(machine).offered, if k < rounds then round.posts else [], if handled then during else []);
    }

    /** Other threads act, until it is time for the destructor. */
    method BeforeTurn(k: nat, rounds: nat, round: Round)
      requires system.Valid() && QueueValid() && RoundKnown(round, system)
      requires k <= rounds ==> !stop && !machine.stopNotified
      modifies this`msgQue, this`stop, this`asleep, this`machine, this`events
      modifies system.users, system.all`stop, system.all`loginUid
      ensures system.Valid() && QueueValid() && machine.handled == old(machine).handled
      ensures machine.offered == old(machine).offered + if k < rounds then round.posts else []
      ensures Meanwhile(old(system.Now()), system.Now())
      ensures old(machine).accepted <= machine.accepted
      ensures old(Stopped(system.all)) <= Stopped(system.all)
      ensures k < rounds ==> Presence.SetOf(round.closes) <= Stopped(system.all)
      ensures machine.worker == (if old(asleep) && !asleep then RequestQueue.Woken else old(machine).worker)
      ensures if k < rounds then !stop && !machine.stopNotified else k == rounds ==> stop && !asleep
      ensures k > rounds ==> stop == old(stop) && asleep == old(asleep)
      ensures k >= rounds ==> msgQue == old(msgQue)
    {
      if k < rounds {
        OthersAct(round);
      } else if k == rounds {
        Shutdown();
      }
    }

    method OthersAct(round: Round)
      requires system.Valid() && QueueValid() && RoundKnown(round, system)
      modifies this`msgQue, this`asleep, this`machine, this`events
      modifies system.users, system.all`stop, system.all`loginUid
      ensures system.Valid() && QueueValid() && machine.handled == old(machine).handled
      ensures Meanwhile(old(system.Now()), system.Now())
      ensures old(machine).accepted <= machine.accepted
      ensures machine.offered == old(machine).offered + round.posts
      ensures Stopped(system.all) == old(Stopped(system.all)) + Presence.SetOf(round.closes)
      ensures machine.stop == old(machine).stop && machine.stopNotified == old(machine).stopNotified
      ensures machine.worker == (if old(asleep) && !asleep then RequestQueue.Woken else old(machine).worker)
    {
      OthersPost(round);
      CloseAll(round.closes);
    }

    /** What other threads do to the queue before a turn. */
    method OthersPost(round: Round)
      requires QueueValid() && AllKnown(round.posts, system)
      modifies this`msgQue, this`asleep, this`machine, this`events
      ensures QueueValid() && machine.handled == old(machine).handled
      ensures old(machine).accepted <= machine.accepted
      ensures machine.offered == old(machine).offered + round.posts
      ensures machine.stop == old(machine).stop && machine.stopNotified == old(machine).stopNotified
      ensures machine.worker == (if old(asleep) && !asleep then RequestQueue.Woken else old(machine).worker)
    {
      PostAll(round.posts);
      if round.wakes {
        Spurious();
      }
    }

    /** One turn of the loop: a worker that is awake takes the front and handles it, or leaves, or goes to
        sleep; one that is asleep stays so. */
    method Turn(during: seq<Request<CSession>>, env: Env) returns (exited: bool, ghost handled: bool)
      requires Valid() && AllKnown(during, system) && Presence.GapsIn(env.gaps, system.all) && !machine.worker.Exited?
      modifies this`msgQue, this`asleep, this`machine, this`events, this`deals
      modifies system`outbox, system`saved, system`ops, system.db, system.users, system.all`stop, system.all`loginUid
      ensures Valid() && (exited <==> !old(asleep) && old(msgQue) == [] && stop) && (exited <==> machine.worker.Exited?)
      ensures old(machine).accepted <= machine.accepted
      ensures handled <==> !old(asleep) && old(msgQue) != []
      ensures machine.offered == old(machine).offered + if handled then during else []
      ensures DealtIn(old(deals), deals, handled, env)
      ensures old(Stopped(system.all)) <= Stopped(system.all)
      ensures machine.stop == old(machine).stop && machine.stopNotified == old(machine).stopNotified
      ensures asleep <==> old(asleep) || (old(msgQue) == [] && !stop)
      ensures exited ==> msgQue == [] && machine.handled == machine.accepted
      ensures !old(asleep) && old(msgQue) != [] && during == [] ==> msgQue == old(msgQue)[1..]
    {
      exited, handled := false, !asleep && msgQue != [];
      if asleep {
        return;
      }
      if msgQue != [] {
        Next(during, env);
      } else {
        exited := LeaveOrSleep();
      }
    }

    method LeaveOrSleep() returns (exited: bool)
      requires Valid() && !asleep && RequestQueue.Enabled(machine, RequestQueue.Evaluate) && msgQue == []
      modifies this`asleep, this`machine, this`events
      ensures Valid() && exited == stop && asleep == !stop
      ensures machine == old(machine).(worker := if exited then RequestQueue.Exited else RequestQueue.Blocked)
      ensures exited ==> machine.handled == machine.accepted
    {
      exited := stop;
      if stop {
        Leave();
      } else {
        Sleep();
      }
    }

    method Sleep()
      requires QueueValid() && !asleep && RequestQueue.Enabled(machine, RequestQueue.Evaluate) && msgQue == [] && !stop
      modifies this`asleep, this`machine, this`events
      ensures QueueValid() && asleep && machine == old(machine).(worker := RequestQueue.Blocked)
    {
      Step(RequestQueue.Evaluate);
      Step(RequestQueue.Sleep);
      asleep := true;
    }

    method Leave()
      requires QueueValid() && !asleep && RequestQueue.Enabled(machine, RequestQueue.Evaluate) && msgQue == [] && stop
      modifies this`machine, this`events
      ensures QueueValid() && machine == old(machine).(worker := RequestQueue.Exited)
      ensures machine.handled == machine.accepted
    {
      Step(RequestQueue.Evaluate);
      RequestQueue.RunHasInv(events, machine);
      assert machine.handled + [] + [] == machine.handled;
    }

    /** Take the front, handle it while others post, and be done with it. */
    method Next(during: seq<Request<CSession>>, env: Env)
      requires Valid() && AllKnown(during, system) && Presence.GapsIn(env.gaps, system.all) && msgQue != []
      requires RequestQueue.Enabled(machine, RequestQueue.Evaluate)
      modifies this`msgQue, this`asleep, this`machine, this`events, this`deals
      modifies system`outbox, system`saved, system`ops, system.db, system.users, system.all`stop, system.all`loginUid
      ensures Valid() && machine.worker.Ready? && machine.handled == old(machine).handled + [old(msgQue)[0]]
      ensures old(machine).accepted <= machine.accepted
      ensures machine.offered == old(machine).offered + during
      ensures DealtIn(old(deals), deals, true, env)
      ensures old(Stopped(system.all)) <= Stopped(system.all)
      ensures machine.stop == old(machine).stop && machine.stopNotified == old(machine).stopNotified
      ensures during == [] ==> msgQue == old(msgQue)[1..]
    {
      var msgNode := Take(during);
      Handle(msgNode, env);
    }

    /** The request in hand.  The posts of its turn are over, so the step that ends it is made first. */
    method Handle(msgNode: Request<CSession>, env: Env)
      requires system.Valid() && QueueValid() && DealsValid() && machine.worker == RequestQueue.Busy(msgNode)
      requires Known(msgNode, system) && Presence.GapsIn(env.gaps, system.all)
      modifies this`machine, this`events, this`deals
      modifies system`outbox, system`saved, system`ops, system.db, system.users, system.all`stop, system.all`loginUid
      ensures system.Valid() && QueueValid() && DealsValid()
      ensures DealtIn(old(deals), deals, true, env)
      ensures old(Stopped(system.all)) <= Stopped(system.all)
      ensures machine == old(machine).(worker := RequestQueue.Ready, handled := old(machine).handled + [msgNode])
    {
      ghost var done := machine.handled;
      EndRequest(msgNode);
      Serve(msgNode, env, done);
    }

    ghost method EndRequest(request: Request<CSession>)
      requires QueueValid() && machine.worker == RequestQueue.Busy(request)
      modifies this`machine, this`events
      ensures QueueValid()
              && machine == old(machine).(worker := RequestQueue.Ready, handled := old(machine).handled + [request])
    {
      Step(RequestQueue.Finish);
    }

    /** Other posts may come while a request is in hand. */
    method Take(during: seq<Request<CSession>>) returns (msgNode: Request<CSession>)
      requires QueueValid() && AllKnown(during, system) && msgQue != []
      requires RequestQueue.Enabled(machine, RequestQueue.Evaluate)
      modifies this`msgQue, this`asleep, this`machine, this`events
      ensures QueueValid() && Known(msgNode, system) && msgNode == old(msgQue)[0]
      ensures machine.worker == RequestQueue.Busy(msgNode) && machine.handled == old(machine).handled
      ensures old(machine).accepted <= machine.accepted
      ensures machine.offered == old(machine).offered + during
      ensures machine.stop == old(machine).stop && machine.stopNotified == old(machine).stopNotified
      ensures during == [] ==> msgQue == old(msgQue)[1..]
    {
      msgNode := msgQue[0];
      Step(RequestQueue.Evaluate);
      msgQue := msgQue[1..];
      PostAll(during);
    }

    /** Dispatch a request and record what it did. */
    method Serve(request: Request<CSession>, env: Env, ghost done: seq<Request<CSession>>)
      requires system.Valid() && Explained(start, deals, system.Now(), done, parse, system.db.hash)
      requires Known(request, system) && Presence.GapsIn(env.gaps, system.all)
      modifies this`deals
      modifies system`outbox, system`saved, system`ops, system.db, system.users, system.all`stop, system.all`loginUid
      ensures system.Valid() && Explained(start, deals, system.Now(), done + [request], parse, system.db.hash)
      ensures DealtIn(old(deals), deals, true, env)
      ensures old(Stopped(system.all)) <= Stopped(system.all)
    {
      ghost var d := Deal(request.session, request.frame.id, parse(request.frame.body), env, Accounts.Fails, None, None,
                          system.Now(), system.Now());
      IsSound(request, d);
      ghost var ins, target, login := Dispatch(request, env);
      d := d.(ins := ins, target := target, login := login, after := system.Now());
      Enter(d, done, request);
    }

    ghost method Enter(d: Deal, done: seq<Request<CSession>>, request: Request<CSession>)
      requires Explained(start, deals, d.before, done, parse, system.db.hash)
      requires Handled(d, system.db.hash) && Sound(d, system.db.hash) && Serves(d, request, parse)
      modifies this`deals
      ensures Explained(start, deals, d.after, done + [request], parse, system.db.hash)
      ensures deals == old(deals) + [d]
    {
      ExplainedAppend(start, deals, d, done, request, parse, system.db.hash);
      deals := deals + [d];
    }

    lemma IsSound(request: Request<CSession>, d: Deal)
      requires system.Valid() && Known(request, system) && Presence.GapsIn(d.env.gaps, system.all)
      requires d.session == request.session && d.before == system.Now()
      ensures Sound(d, system.db.hash)
    {
      ViewIsQuiet(system.users, system.all, Presence.Idle);
      assert system.Now().presence.sessions.Keys == system.all;
    }

    /** Posts by the sessions' readers; the ones that find the queue full are dropped. */
    method PostAll(posts: seq<Request<CSession>>)
      requires QueueValid() && AllKnown(posts, system)
      modifies this`msgQue, this`asleep, this`machine, this`events
      ensures QueueValid() && machine.offered == old(machine).offered + posts
      ensures old(machine).accepted <= machine.accepted && machine.handled == old(machine).handled
      ensures machine.worker == (if old(asleep) && !asleep then RequestQueue.Woken else old(machine).worker)
      ensures machine.stop == old(machine).stop && machine.stopNotified == old(machine).stopNotified
      ensures posts == [] ==> msgQue == old(msgQue)
    {
      var i := 0;
      while i < |posts|
        invariant 0 <= i <= |posts| && QueueValid()
        invariant machine.offered == old(machine).offered + posts[..i]
        invariant old(machine).accepted <= machine.accepted && machine.handled == old(machine).handled
        invariant asleep ==> old(asleep)
        invariant machine.worker == if old(asleep) && !asleep then RequestQueue.Woken else old(machine).worker
        invariant machine.stop == old(machine).stop && machine.stopNotified == old(machine).stopNotified
        invariant posts == [] ==> msgQue == old(msgQue)
      {
        assert posts[..i + 1] == posts[..i] + [posts[i]];
        PostMsgToQue(posts[i]);
        i := i + 1;
      }
      assert posts[..i] == posts;
    }

    /** Closes by I/O threads. */
    method CloseAll(closes: seq<CSession>)
      requires system.Valid() && forall s :: s in closes ==> s in system.all
      modifies system.users, system.all`stop, system.all`loginUid
      ensures system.Valid() && Meanwhile(old(system.Now()), system.Now())
      ensures Stopped(system.all) == old(Stopped(system.all)) + Presence.SetOf(closes)
    {
      ghost var before := View(system.users, system.all);
      ViewIsQuiet(system.users, system.all, Presence.Idle);
      Presence.CloseEachFades(before, closes);
      system.CloseOthers(closes, Presence.Idle);
    }

    /** The last reference to a session without queued requests is gone, between two runs of the loop. */
    method Destroy(session: CSession)
      requires Valid() && session in system.all && !session.expired && forall r :: r in msgQue ==> r.session != session
      modifies session`expired, session`stop, session`loginUid, system.users
      ensures Valid() && session.expired
      ensures Meanwhile(old(system.Now()), system.Now())
    {
      ghost var before := system.Now();
      ViewIsQuiet(system.users, system.all, Presence.Idle);
      Presence.DestroyFades(before.presence, session);
      system.Destroy(session);
      ExplainedMeanwhile(start, deals, before, system.Now(), machine.handled, parse, system.db.hash);
    }

    /** The dispatch of one request by its id, to the handler's own effect on this request's own body; an id without
        a callback is skipped. */
    method Dispatch(request: Request<CSession>, env: Env)
      returns (ghost ins: Accounts.Insert, ghost target: Option<CSession>, ghost login: Option<int>)
      requires system.Valid() && Known(request, system) && Presence.GapsIn(env.gaps, system.all)
      modifies system`outbox, system`saved, system`ops, system.db, system.users, system.all`stop, system.all`loginUid
      ensures system.Valid()
      ensures Handled(
                Deal(request.session, request.frame.id, parse(request.frame.body), env, ins, target, login,
                     old(system.Now()), system.Now()),
                system.db.hash)
      ensures old(Stopped(system.all)) <= Stopped(system.all)
    {
      var session, body, id := request.session, parse(request.frame.body), request.frame.id;
      ins, target, login := Accounts.Fails, None, None;
      ghost var d := Deal(session, id, body, env, ins, target, login, system.Now(), system.Now());
      if id == MSG_HELLO_WORLD {
        system.HelloWorldCallBack(session, body, env);
        HandledById(d.(after := system.Now()), system.db.hash);
      } else if id == MSG_REGISTER_REQ {
        ins := system.RegisterRequest(session, body, env);
        HandledById(d.(ins := ins, after := system.Now()), system.db.hash);
      } else if id == MSG_LOGIN_REQ {
        login := system.LoginRequest(session, body, env);
        HandledById(d.(login := login, after := system.Now()), system.db.hash);
      } else {
        ins, target := DispatchRest(request, body, env);
        login := None;
      }
    }

    /** The callbacks that need neither credentials nor a login of their own. */
    method DispatchRest(request: Request<CSession>, body: Body, env: Env)
      returns (ghost ins: Accounts.Insert, ghost target: Option<CSession>)
      requires system.Valid() && Known(request, system)
      requires request.frame.id !in {MSG_HELLO_WORLD, MSG_REGISTER_REQ, MSG_LOGIN_REQ}
      modifies system`outbox, system`saved, system`ops, system.db, system.users
      ensures system.Valid()
      ensures Handled(
                Deal(request.session, request.frame.id, body, env, ins, target, None, old(system.Now()), system.Now()),
                system.db.hash)
    {
      var session, id := request.session, request.frame.id;
      ins, target := Accounts.Fails, None;
      ghost var d := Deal(session, id, body, env, ins, target, None, system.Now(), system.Now());
      if id == MSG_GET_FRIEND_LIST_REQ {
        system.GetFriendListRequest(session, body, env);
        HandledById(d.(after := system.Now()), system.db.hash);
      } else if id == MSG_ADD_FRIEND_REQ {
        target := system.AddFriendRequest(session, body, env);
        HandledById(d.(target := target, after := system.Now()), system.db.hash);
      } else if id == MSG_SEND_CHAT_REQ {
        ins, target := system.ChatMessageRequest(session, body, env);
        HandledById(d.(ins := ins, target := target, after := system.Now()), system.db.hash);
      } else if id == MSG_OFFLINE_MSG_REQ {
        system.GetOfflineMessageRequest(session, body, env);
        HandledById(d.(after := system.Now()), system.db.hash);
      }
    }
  }

  ghost predicate RoundKnown(round: Round, system: LogicSystem)
    reads system.all`expired
  {
    && AllKnown(round.posts, system) && AllKnown(round.during, system)
    && (forall s :: s in round.closes ==> s in system.all)
    && Presence.GapsIn(round.env.gaps, system.all)
  }

  ghost predicate ScriptKnown(script: nat -> Round, system: LogicSystem)
    reads system.all`expired
  {
    forall k :: RoundKnown(script(k), system)
  }

  ghost predicate Known(r: Request<CSession>, system: LogicSystem)
    reads system.all`expired
  {
    r.session in system.all && !r.session.expired
  }

  ghost predicate AllKnown(rs: seq<Request<CSession>>, system: LogicSystem)
    reads system.all`expired
  {
    forall r :: r in rs ==> Known(r, system)
  }
}
