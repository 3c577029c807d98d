/** Who is online: logins, kicks and closes over the registry of online users, as a state machine.
    One worker runs the four steps of a login; I/O threads close any session at any moment.
    `Close` is three steps, as in the code: win the stop flag, take the uid, erase the registry
    entry.  The coarser grain, where a close is one step, is the same machine run in larger strides. */
module Presence {
  import opened Wrappers

  /** How far the one effective `Close` of a session has come. */
  datatype Phase = Running | Flagged | Taken(uid: int) | Closed

  /** `alive` turns false when the last shared_ptr is gone, so that weak_ptr::lock fails. */
  datatype Session = Session(alive: bool, phase: Phase, uid: int)

  /** The worker inside `LoginRequest` for session `who` and account `uid`. */
  datatype Worker<+S> =
    | Idle
    | Found(who: S, uid: int, prior: Option<S>)
    | Kicking(who: S, uid: int, victim: S) // the worker itself won the victim's stop flag
    | Cleared(who: S, uid: int)
    | Bound(who: S, uid: int)

  datatype State<S> = State(sessions: map<S, Session>, online: map<int, S>, worker: Worker<S>)

  datatype Event<+S> =
    | Connect(who: S)
    | Lookup(who: S, uid: int)  // GetSessionByUid
    | Kick                      // old_session->Close(), up to its stop flag
    | Bind                      // SetLoginUid
    | Register                  // AddOnlineUser
    | Peek(uid: int)            // GetSessionByUid by a handler that wants to push
    | Flag(who: S)              // an I/O thread wins the stop flag in Close
    | Expire(who: S)            // last reference gone: the destructor runs Close
    | Take(who: S)              // Close takes _login_uid
    | Remove(who: S)            // Close calls RemoveOnlineUser

  // ---- the registry ----

  function AddOnlineUser<S>(online: map<int, S>, uid: int, who: S): map<int, S> {
    if uid <= 0 then online else online[uid := who]
  }

  function RemoveOnlineUser<S>(online: map<int, S>, uid: int): map<int, S> {
    if uid <= 0 then online else online - {uid}
  }

  // ---- steps ----

  ghost predicate Open<S>(st: State<S>, s: S) {
    s in st.sessions && st.sessions[s].phase.Running?
  }

  ghost predicate BoundTo<S>(st: State<S>, s: S, uid: int) {
    Open(st, s) && st.sessions[s].uid == uid
  }

  /** Sessions the worker holds a shared_ptr to. */
  ghost function Held<S>(w: Worker<S>): set<S> {
    match w
    case Idle => {}
    case Found(s, _, prior) => if prior.Some? then {s, prior.value} else {s}
    case Kicking(s, _, o) => {s, o}
    case Cleared(s, _) => {s}
    case Bound(s, _) => {s}
  }

  ghost predicate Enabled<S>(st: State<S>, e: Event<S>) {
    match e
    case Connect(s) => s !in st.sessions
    case Lookup(s, u) => st.worker.Idle? && s in st.sessions && st.sessions[s].alive && u > 0
    case Kick => st.worker.Found? && Held(st.worker) <= st.sessions.Keys
    case Bind => st.worker.Cleared? && Held(st.worker) <= st.sessions.Keys
    case Register => st.worker.Bound?
    case Peek(_) => true
    case Flag(s) => Open(st, s) && st.sessions[s].alive
    case Expire(s) =>
      s in st.sessions && st.sessions[s].alive && s !in Held(st.worker)
      && (st.sessions[s].phase.Running? || st.sessions[s].phase.Closed?)
    case Take(s) => s in st.sessions && st.sessions[s].phase.Flagged?
    case Remove(s) => s in st.sessions && st.sessions[s].phase.Taken?
  }

  ghost function Put<S>(st: State<S>, s: S, x: Session): State<S> {
    st.(sessions := st.sessions[s := x])
  }

  /** `GetSessionByUid`: an entry whose session has expired is erased. */
  ghost function Find<S>(st: State<S>, u: int): (r: (Option<S>, map<int, S>)) {
    if u <= 0 || u !in st.online then (None, st.online)
    else if st.online[u] in st.sessions && st.sessions[st.online[u]].alive then (Some(st.online[u]), st.online)
    else (None, st.online - {u})
  }

  ghost function Apply<S>(st: State<S>, e: Event<S>): State<S>
    requires Enabled(st, e)
  {
    match e
    case Connect(s) => Put(st, s, Session(true, Running, 0))
    case Lookup(s, u) =>
      var (prior, online) := Find(st, u);
      st.(online := online, worker := Found(s, u, prior))
    case Kick =>
      var Found(s, u, prior) := st.worker;
      if prior.Some? && Open(st, prior.value) then
        Put(st, prior.value, st.sessions[prior.value].(phase := Flagged)).(worker := Kicking(s, u, prior.value))
      else st.(worker := Cleared(s, u))
    case Bind =>
      var Cleared(s, u) := st.worker;
      Put(st, s, st.sessions[s].(uid := u)).(worker := Bound(s, u))
    case Register =>
      var Bound(s, u) := st.worker;
      st.(online := AddOnlineUser(st.online, u, s), worker := Idle)
    case Peek(u) => st.(online := Find(st, u).1)
    case Flag(s) => Put(st, s, st.sessions[s].(phase := Flagged))
    case Expire(s) =>
      var x := st.sessions[s];
      Put(st, s, x.(alive := false, phase := if x.phase.Running? then Flagged else x.phase))
    case Take(s) => Put(st, s, st.sessions[s].(phase := Taken(st.sessions[s].uid), uid := 0))
    case Remove(s) =>
      var st' := Put(st, s, st.sessions[s].(phase := Closed));
      var w := if st.worker.Kicking? && st.worker.victim == s then Cleared(st.worker.who, st.worker.uid)
               else st.worker;
      st'.(online := RemoveOnlineUser(st.online, st.sessions[s].phase.uid), worker := w)
  }

  ghost function Empty<S>(): State<S> {
    State(map[], map[], Idle)
  }

  // ---- the property and its invariant ----

  /** No two open sessions are bound to the same account. */
  ghost predicate SingleDevice<S>(st: State<S>) {
    forall s, t ::
      (s in st.sessions && t in st.sessions && Open(st, s) && Open(st, t)
       && st.sessions[s].uid == st.sessions[t].uid != 0) ==> s == t
  }

  /** An open bound session is the registry entry of its account, except between bind and register. */
  ghost predicate Registered<S>(st: State<S>) {
    forall s :: s in st.sessions && Open(st, s) && st.sessions[s].uid != 0 ==>
      var u := st.sessions[s].uid;
      (u in st.online && st.online[u] == s) || st.worker == Bound(s, u)
  }

  ghost predicate NobodyElse<S>(st: State<S>, u: int, except: set<S>) {
    forall t :: t in st.sessions && BoundTo(st, t, u) ==> t in except
  }

  /** What the worker knows about the account it is logging in. */
  ghost predicate WorkerKnows<S>(st: State<S>) {
    match st.worker
    case Idle => true
    case Found(s, u, prior) => NobodyElse(st, u, if prior.Some? then {prior.value} else {})
    case Kicking(s, u, o) => NobodyElse(st, u, {}) && o in st.sessions
                             && (st.sessions[o].phase.Flagged? || st.sessions[o].phase.Taken?)
    case Cleared(s, u) => NobodyElse(st, u, {})
    case Bound(s, u) => NobodyElse(st, u, {s}) && (Open(st, s) ==> st.sessions[s].uid == u)
  }

  ghost predicate WellFormed<S>(st: State<S>) {
    && (forall u :: u in st.online ==> u > 0 && st.online[u] in st.sessions)
    && (forall s :: s in st.sessions && Open(st, s) ==> st.sessions[s].alive)
    && Held(st.worker) <= st.sessions.Keys
    && (!st.worker.Idle? ==> st.worker.uid > 0)
  }

  ghost predicate Inv<S>(st: State<S>) {
    WellFormed(st) && Registered(st) && WorkerKnows(st)
  }

  lemma InvIsSingleDevice<S>(st: State<S>)
    requires Inv(st)
    ensures SingleDevice(st)
  {
  }

  /** The one step that goes wrong: `RemoveOnlineUser` erases by uid without comparing sessions, and
      the entry it erases belongs to another session, open and logged in. */
  ghost predicate ErasesLiveEntry<S>(st: State<S>, e: Event<S>) {
    e.Remove? && e.who in st.sessions && st.sessions[e.who].phase.Taken? &&
    var u := st.sessions[e.who].phase.uid;
    u in st.online && BoundTo(st, st.online[u], u) && st.worker != Bound(st.online[u], u)
  }

  lemma LoginStepKeepsInv<S>(st: State<S>, e: Event<S>)
    requires Inv(st) && Enabled(st, e) && (e.Lookup? || e.Kick? || e.Bind? || e.Register?)
    ensures Inv(Apply(st, e))
  {
  }

  lemma RemoveExact<S>(st: State<S>, s: S)
    requires Inv(st) && Enabled(st, Remove(s))
    ensures Inv(Apply(st, Remove(s))) <==> !ErasesLiveEntry(st, Remove(s))
  {
    var st' := Apply(st, Remove(s));
    if ErasesLiveEntry(st, Remove(s)) {
      var v := st.online[st.sessions[s].phase.uid];
      assert Open(st', v);
    }
  }

  /** Exactly which steps break the invariant, in every state and for every thread. */
  lemma StepExact<S>(st: State<S>, e: Event<S>)
    requires Inv(st) && Enabled(st, e)
    ensures Inv(Apply(st, e)) <==> !ErasesLiveEntry(st, e)
  {
    match e
    case Remove(s) => RemoveExact(st, s);
    case Lookup(_, _) => LoginStepKeepsInv(st, e);
    case Kick => LoginStepKeepsInv(st, e);
    case Bind => LoginStepKeepsInv(st, e);
    case Register => LoginStepKeepsInv(st, e);
    case Connect(s) =>
    case Peek(_) =>
    case Flag(s) =>
    case Expire(s) =>
    case Take(s) =>
  }

  // ---- runs at the fine grain ----

  ghost predicate Feasible<S>(st: State<S>, es: seq<Event<S>>)
    decreases |es|
  {
    es == [] || (Enabled(st, es[0]) && Feasible(Apply(st, es[0]), es[1..]))
  }

  ghost function Exec<S>(st: State<S>, es: seq<Event<S>>): State<S>
    requires Feasible(st, es)
    decreases |es|
  {
    if es == [] then st else Exec(Apply(st, es[0]), es[1..])
  }

  /** A started close of `o` is going to call `RemoveOnlineUser(u)`, unless the uid changes first. */
  ghost predicate ClosePending<S>(st: State<S>, o: S, u: int) {
    o in st.sessions &&
    (st.sessions[o].phase == Taken(u) || (st.sessions[o].phase.Flagged? && st.sessions[o].uid == u))
  }

  /** A login is under way while a close of its account, other than the login's own kick, is pending. */
  ghost predicate CloseOverlapsLogin<S>(st: State<S>) {
    !st.worker.Idle? &&
    exists o :: o in st.sessions && ClosePending(st, o, st.worker.uid)
                && !(st.worker.Kicking? && st.worker.victim == o)
  }

  /** Along the run no state has such an overlap. */
  ghost predicate NeverOverlaps<S>(st: State<S>, es: seq<Event<S>>)
    requires Feasible(st, es)
    decreases |es|
  {
    !CloseOverlapsLogin(st) && (es == [] || NeverOverlaps(Apply(st, es[0]), es[1..]))
  }

  /** While a close of an account is pending, no open session is bound to it. */
  ghost predicate PendingMeansUnbound<S>(st: State<S>) {
    forall o, t, u ::
      (o in st.sessions && t in st.sessions && u > 0 && ClosePending(st, o, u)) ==> !BoundTo(st, t, u)
  }

  lemma DisciplineStep<S>(st: State<S>, e: Event<S>)
    requires Inv(st) && PendingMeansUnbound(st) && Enabled(st, e) && !CloseOverlapsLogin(st)
    ensures !ErasesLiveEntry(st, e) && Inv(Apply(st, e)) && PendingMeansUnbound(Apply(st, e))
  {
    if ErasesLiveEntry(st, e) {
      assert ClosePending(st, e.who, st.sessions[e.who].phase.uid);
    }
    StepExact(st, e);
    InvIsSingleDevice(st);
    var st' := Apply(st, e);
    forall o, t, u | o in st'.sessions && t in st'.sessions && u > 0 && ClosePending(st', o, u)
      ensures !BoundTo(st', t, u)
    {
      if BoundTo(st', t, u) {
        PendingOrigin(st, e, o, u);
        BoundOrigin(st, e, t, u);
      }
    }
  }

  /** Where a pending close comes from: it was pending, or its session was open and bound, or a login
      just bound a session whose close was already under way. */
  lemma PendingOrigin<S>(st: State<S>, e: Event<S>, o: S, u: int)
    requires Enabled(st, e) && u > 0 && ClosePending(Apply(st, e), o, u)
    ensures o in st.sessions
    ensures ClosePending(st, o, u) || (BoundTo(st, o, u) && !Open(Apply(st, e), o))
            || (e.Bind? && st.worker.who == o && st.worker.uid == u)
  {
  }

  lemma BoundOrigin<S>(st: State<S>, e: Event<S>, t: S, u: int)
    requires Enabled(st, e) && u > 0 && BoundTo(Apply(st, e), t, u)
    ensures t in st.sessions && (BoundTo(st, t, u) || (e.Bind? && st.worker.who == t && st.worker.uid == u))
  {
  }

  /** The single-device guarantee in every run in which no other close of an account overlaps a login
      of that account: whichever sessions log in, twice, under other accounts, or after closing. */
  lemma {:induction false} SingleDeviceWithoutOverlap<S>(st: State<S>, es: seq<Event<S>>)
    requires Inv(st) && PendingMeansUnbound(st) && Feasible(st, es) && NeverOverlaps(st, es)
    ensures SingleDevice(Exec(st, es)) && Registered(Exec(st, es))
    decreases |es|
  {
    if es == [] {
      InvIsSingleDevice(st);
    } else {
      DisciplineStep(st, es[0]);
      SingleDeviceWithoutOverlap(Apply(st, es[0]), es[1..]);
    }
  }

  lemma EmptyHasInv<S>()
    ensures Inv(Empty<S>()) && PendingMeansUnbound(Empty<S>())
    ensures Sane(Empty<S>()) && EntriesFaithful(Empty<S>())
  {
  }

  /** A login of `u` by `s` that nothing interrupts and that finds nobody to kick. */
  function Login<S>(s: S, u: int): seq<Event<S>> {
    [Lookup(s, u), Kick, Bind, Register]
  }

  /** The race, for any three sessions and any account: a close of the first session by an I/O thread
      is overtaken by the second session's login and then erases that login's registry entry; the third
      login finds nobody to kick. */
  function Race<S>(a: S, b: S, c: S, u: int): seq<Event<S>> {
    [Connect(a), Connect(b), Connect(c)] + Login(a, u)
    + [Flag(a)] + Login(b, u) + [Take(a), Remove(a)] + Login(c, u)
  }

  lemma FeasibleConcat<S>(st: State<S>, es: seq<Event<S>>, fs: seq<Event<S>>)
    requires Feasible(st, es) && Feasible(Exec(st, es), fs)
    ensures Feasible(st, es + fs) && Exec(st, es + fs) == Exec(Exec(st, es), fs)
    decreases |es|
  {
    if es == [] {
      assert es + fs == fs;
    } else {
      assert (es + fs)[1..] == es[1..] + fs;
      FeasibleConcat(Apply(st, es[0]), es[1..], fs);
    }
  }

  /** What an uninterrupted login does when the looked-up session is absent or already closing. */
  lemma LoginRun<S>(st: State<S>, s: S, u: int)
    requires Enabled(st, Lookup(s, u))
    requires u in st.online
            ==> st.online[u] in st.sessions && !Open(st, st.online[u]) && st.sessions[st.online[u]].alive
    ensures Feasible(st, Login(s, u))
    ensures Exec(st, Login(s, u))
         == State(st.sessions[s := st.sessions[s].(uid := u)], st.online[u := s], Idle)
  {
    var st1 := Apply(st, Lookup(s, u));
    var st2 := Apply(st1, Kick);
    TwoSteps(st, Lookup(s, u), Kick);
    TwoSteps(st2, Bind, Register);
    var first: seq<Event<S>>, second: seq<Event<S>> := [Lookup(s, u), Kick], [Bind, Register];
    FeasibleConcat(st, first, second);
    assert first + second == Login(s, u);
  }

  lemma OneStep<S>(st: State<S>, e: Event<S>)
    requires Enabled(st, e)
    ensures Feasible(st, [e]) && Exec(st, [e]) == Apply(st, e)
  {
    assert [e][1..] == [];
    assert Exec(Apply(st, e), []) == Apply(st, e);
  }

  lemma TwoSteps<S>(st: State<S>, e: Event<S>, f: Event<S>)
    requires Enabled(st, e) && Enabled(Apply(st, e), f)
    ensures Feasible(st, [e, f]) && Exec(st, [e, f]) == Apply(Apply(st, e), f)
  {
    OneStep(st, e);
    OneStep(Apply(st, e), f);
    FeasibleConcat(st, [e], [f]);
    assert [e] + [f] == [e, f];
  }

  lemma RaceStart<S>(a: S, b: S, c: S)
    requires a != b && b != c && a != c
    ensures var es := [Connect(a), Connect(b), Connect(c)];
            var newborn := Session(true, Running, 0);
            Feasible(Empty<S>(), es)
            && Exec(Empty<S>(), es) == State(map[a := newborn, b := newborn, c := newborn], map[], Idle)
  {
    TwoSteps(Empty<S>(), Connect(a), Connect(b));
    var st := Apply(Apply(Empty<S>(), Connect(a)), Connect(b));
    OneStep(st, Connect(c));
    FeasibleConcat(Empty<S>(), [Connect(a), Connect(b)], [Connect(c)]);
    assert [Connect(a), Connect(b)] + [Connect(c)] == [Connect(a), Connect(b), Connect(c)];
  }

  /** The first half: a logs in, its close begins, b's login overtakes it. */
  lemma RaceMiddle<S>(a: S, b: S, c: S, u: int)
    requires a != b && b != c && a != c && u > 0
    ensures var es := [Connect(a), Connect(b), Connect(c)] + Login(a, u) + [Flag(a)] + Login(b, u);
            var newborn, bound := Session(true, Running, 0), Session(true, Running, u);
            Feasible(Empty<S>(), es)
            && Exec(Empty<S>(), es)
               == State(map[a := Session(true, Flagged, u), b := bound, c := newborn], map[u := b], Idle)
  {
    RaceStart(a, b, c);
    var es1 := [Connect(a), Connect(b), Connect(c)];
    var st1 := Exec(Empty<S>(), es1);
    LoginRun(st1, a, u);
    FeasibleConcat(Empty<S>(), es1, Login(a, u));
    var st2 := Exec(st1, Login(a, u));
    OneStep(st2, Flag(a));
    FeasibleConcat(Empty<S>(), es1 + Login(a, u), [Flag(a)]);
    var st3 := Apply(st2, Flag(a));
    LoginRun(st3, b, u);
    FeasibleConcat(Empty<S>(), es1 + Login(a, u) + [Flag(a)], Login(b, u));
  }

  /** The condition is needed: this run starts from nothing and ends with two open sessions bound to
      the same account, one of them missing from the registry. */
  lemma RaceBreaksSingleDevice<S>(a: S, b: S, c: S, u: int)
    requires a != b && b != c && a != c && u > 0
    ensures Feasible(Empty<S>(), Race(a, b, c, u))
    ensures var st := Exec(Empty<S>(), Race(a, b, c, u));
            BoundTo(st, b, u) && BoundTo(st, c, u) && !SingleDevice(st) && !Registered(st)
    ensures !NeverOverlaps(Empty<S>(), Race(a, b, c, u))
  {
    RaceMiddle(a, b, c, u);
    var es4 := [Connect(a), Connect(b), Connect(c)] + Login(a, u) + [Flag(a)] + Login(b, u);
    var st4 := Exec(Empty<S>(), es4);
    TwoSteps(st4, Take(a), Remove(a));
    FeasibleConcat(Empty<S>(), es4, [Take(a), Remove(a)]);
    var st5 := Apply(Apply(st4, Take(a)), Remove(a));
    LoginRun(st5, c, u);
    FeasibleConcat(Empty<S>(), es4 + [Take(a), Remove(a)], Login(c, u));
    var st := Exec(st5, Login(c, u));
    assert es4 + [Take(a), Remove(a)] + Login(c, u) == Race(a, b, c, u);
    assert BoundTo(st, b, u) && BoundTo(st, c, u);
    assert b in st.sessions && c in st.sessions;
    if NeverOverlaps(Empty<S>(), Race(a, b, c, u)) {
      EmptyHasInv<S>();
      SingleDeviceWithoutOverlap(Empty<S>(), Race(a, b, c, u));
    }
  }

  /** Every state along the run has its open bound sessions registered. */
  ghost predicate RegisteredThroughout<S>(st: State<S>, es: seq<Event<S>>)
    requires Feasible(st, es)
    decreases |es|
  {
    Registered(st) && (es == [] || RegisteredThroughout(Apply(st, es[0]), es[1..]))
  }

  ghost predicate NeverErases<S>(st: State<S>, es: seq<Event<S>>)
    requires Feasible(st, es)
    decreases |es|
  {
    es == [] || (!ErasesLiveEntry(st, es[0]) && NeverErases(Apply(st, es[0]), es[1..]))
  }

  /** Exactly which runs keep every open session registered. */
  lemma {:induction false} RunExact<S>(st: State<S>, es: seq<Event<S>>)
    requires Inv(st) && Feasible(st, es)
    ensures RegisteredThroughout(st, es) <==> NeverErases(st, es)
    ensures NeverErases(st, es) ==> SingleDevice(Exec(st, es))
    decreases |es|
  {
    if es == [] {
      InvIsSingleDevice(st);
    } else {
      StepExact(st, es[0]);
      var st' := Apply(st, es[0]);
      if ErasesLiveEntry(st, es[0]) {
        var v := st.online[st.sessions[es[0].who].phase.uid];
        assert Open(st', v) && !Registered(st');
      } else {
        RunExact(st', es[1..]);
      }
    }
  }

  lemma {:induction false} WithoutRemoveNeverErases<S>(st: State<S>, es: seq<Event<S>>)
    requires Feasible(st, es) && forall i :: 0 <= i < |es| ==> !es[i].Remove?
    ensures NeverErases(st, es)
    decreases |es|
  {
    if es != [] {
      WithoutRemoveNeverErases(Apply(st, es[0]), es[1..]);
    }
  }

  /** Session `v`, open and bound to `u`, has lost its entry, and the worker does not hold it. */
  ghost predicate Lost<S>(st: State<S>, v: S, u: int) {
    && WellFormed(st) && u > 0 && BoundTo(st, v, u) && u !in st.online && v !in Held(st.worker)
    && (!st.worker.Idle? ==> st.worker.uid != u)
    && (st.worker.Kicking? ==> !Open(st, st.worker.victim) && !st.sessions[st.worker.victim].phase.Closed?)
  }

  /** How far the worker is from the end of its login, and the next step towards it. */
  ghost function Rank<S>(st: State<S>): nat {
    match st.worker
    case Idle => 0
    case Bound(_, _) => 1
    case Cleared(_, _) => 2
    case Kicking(_, _, o) =>
      if o in st.sessions && st.sessions[o].phase.Taken? then if Blocks(st, o) then 4 else 3 else 5
    case Found(_, _, _) => 6
  }

  /** The entry that finishing the close of `o` is going to erase belongs to somebody else. */
  ghost predicate Blocks<S>(st: State<S>, o: S)
    requires o in st.sessions && st.sessions[o].phase.Taken?
  {
    ErasesLiveEntry(st, Remove(o))
  }

  ghost function NextStep<S>(st: State<S>): Event<S>
    requires !st.worker.Idle? && Held(st.worker) <= st.sessions.Keys
  {
    match st.worker
    case Bound(_, _) => Register
    case Cleared(_, _) => Bind
    case Found(_, _, _) => Kick
    case Kicking(_, _, o) =>
      if !st.sessions[o].phase.Taken? then Take(o)
      else if Blocks(st, o) then Flag(st.online[st.sessions[o].phase.uid])
      else Remove(o)
  }

  lemma LostStep<S>(st: State<S>, v: S, u: int)
    requires Lost(st, v, u) && !st.worker.Idle?
    ensures var e := NextStep(st);
            && Enabled(st, e) && !ErasesLiveEntry(st, e)
            && Lost(Apply(st, e), v, u) && Apply(st, e).sessions.Keys == st.sessions.Keys
                && Rank(Apply(st, e)) < Rank(st)
  {
  }

  /** The login under way can end, without a further erasure, and `v` is still there without its entry. */
  lemma {:induction false} LoginEnds<S>(st: State<S>, v: S, u: int) returns (es: seq<Event<S>>)
    requires Lost(st, v, u)
    ensures Feasible(st, es) && NeverErases(st, es)
    ensures var last := Exec(st, es); Lost(last, v, u) && last.worker.Idle? && last.sessions.Keys == st.sessions.Keys
    decreases Rank(st)
  {
    if st.worker.Idle? {
      es := [];
    } else {
      LostStep(st, v, u);
      var e := NextStep(st);
      var rest := LoginEnds(Apply(st, e), v, u);
      es := [e] + rest;
      assert es[1..] == rest;
    }
  }

  /** Somebody new logs in beside the session that lost its entry. */
  lemma SecondComes<S>(st: State<S>, v: S, u: int, c: S)
    requires Lost(st, v, u) && st.worker.Idle? && c !in st.sessions
    ensures var es := [Connect(c)] + Login(c, u);
            Feasible(st, es) && NeverErases(st, es) && !SingleDevice(Exec(st, es))
  {
    OneStep(st, Connect(c));
    LoginRun(Apply(st, Connect(c)), c, u);
    FeasibleConcat(st, [Connect(c)], Login(c, u));
    WithoutRemoveNeverErases(st, [Connect(c)] + Login(c, u));
    var last := Exec(st, [Connect(c)] + Login(c, u));
    assert BoundTo(last, v, u) && BoundTo(last, c, u) && v != c && v in last.sessions && c in last.sessions;
  }

  lemma {:induction false} NeverErasesConcat<S>(st: State<S>, es: seq<Event<S>>, fs: seq<Event<S>>)
    requires Feasible(st, es) && NeverErases(st, es) && Feasible(Exec(st, es), fs) && NeverErases(Exec(st, es), fs)
    ensures Feasible(st, es + fs) && NeverErases(st, es + fs) && Exec(st, es + fs) == Exec(Exec(st, es), fs)
    decreases |es|
  {
    if es == [] {
      assert es + fs == fs;
    } else {
      assert (es + fs)[1..] == es[1..] + fs;
      NeverErasesConcat(Apply(st, es[0]), es[1..], fs);
    }
  }

  /** An erased entry lets a newcomer log in beside the session that lost it, as soon as the login under way
      has ended, unless that login closes or rebinds this very session. */
  lemma ErasureAdmitsSecond<S>(st: State<S>, e: Event<S>, c: S) returns (es: seq<Event<S>>)
    requires Inv(st) && Enabled(st, e) && ErasesLiveEntry(st, e) && c !in st.sessions
    requires st.online[st.sessions[e.who].phase.uid] !in Held(st.worker)
    ensures Feasible(Apply(st, e), es) && NeverErases(Apply(st, e), es) && !SingleDevice(Exec(Apply(st, e), es))
  {
    var u := st.sessions[e.who].phase.uid;
    var v := st.online[u];
    var st' := Apply(st, e);
    assert Lost(st', v, u);
    es := LoginEnds(st', v, u);
    var last := Exec(st', es);
    SecondComes(last, v, u, c);
    NeverErasesConcat(st', es, [Connect(c)] + Login(c, u));
    es := es + ([Connect(c)] + Login(c, u));
  }

  /** The invariant but for one session, which the login under way is going to close or to bind anew. */
  ghost predicate InvBut<S>(st: State<S>, v: S) {
    && WellFormed(st) && WorkerKnows(st)
    && v in Held(st.worker) && !st.worker.Bound?
    && (forall s :: s in st.sessions && s != v && Open(st, s) && st.sessions[s].uid != 0 ==>
          st.sessions[s].uid in st.online && st.online[st.sessions[s].uid] == s)
    && (Open(st, v) && st.sessions[v].uid != 0 ==> NobodyElse(st, st.sessions[v].uid, {v}))
  }

  lemma InvButLogin<S>(st: State<S>, e: Event<S>, v: S)
    requires InvBut(st, v) && Enabled(st, e) && (e.Kick? || e.Bind?)
    ensures Inv(Apply(st, e)) || InvBut(Apply(st, e), v)
  {
  }

  lemma InvButRemove<S>(st: State<S>, s: S, v: S)
    requires InvBut(st, v) && Enabled(st, Remove(s)) && !ErasesLiveEntry(st, Remove(s))
    ensures Inv(Apply(st, Remove(s))) || InvBut(Apply(st, Remove(s)), v)
  {
  }

  lemma InvButClose<S>(st: State<S>, e: Event<S>, v: S)
    requires InvBut(st, v) && Enabled(st, e) && (e.Flag? || e.Take?)
    ensures Inv(Apply(st, e)) || InvBut(Apply(st, e), v)
  {
  }

  lemma InvButExpire<S>(st: State<S>, s: S, v: S)
    requires InvBut(st, v) && Enabled(st, Expire(s))
    ensures Inv(Apply(st, Expire(s))) || InvBut(Apply(st, Expire(s)), v)
  {
  }

  lemma InvButAround<S>(st: State<S>, e: Event<S>, v: S)
    requires InvBut(st, v) && Enabled(st, e) && (e.Connect? || e.Peek?)
    ensures InvBut(Apply(st, e), v)
  {
  }

  lemma InvButStep<S>(st: State<S>, e: Event<S>, v: S)
    requires InvBut(st, v) && Enabled(st, e) && !ErasesLiveEntry(st, e)
    ensures Inv(Apply(st, e)) || InvBut(Apply(st, e), v)
  {
    match e
    case Remove(s) => InvButRemove(st, s, v);
    case Kick => InvButLogin(st, e, v);
    case Bind => InvButLogin(st, e, v);
    case Lookup(_, _) =>
    case Register =>
    case Connect(_) => InvButAround(st, e, v);
    case Peek(_) => InvButAround(st, e, v);
    case Flag(_) => InvButClose(st, e, v);
    case Expire(s) => InvButExpire(st, s, v);
    case Take(_) => InvButClose(st, e, v);
  }

  lemma {:induction false} InvButRun<S>(st: State<S>, es: seq<Event<S>>, v: S)
    requires (Inv(st) || InvBut(st, v)) && Feasible(st, es) && NeverErases(st, es)
    ensures SingleDevice(Exec(st, es))
    decreases |es|
  {
    if Inv(st) {
      RunExact(st, es);
    } else if es != [] {
      InvButStep(st, es[0], v);
      InvButRun(Apply(st, es[0]), es[1..], v);
    }
  }

  /** Exactly which steps make two open sessions of one account possible without a further erasure: those
      that erase the entry of a session the worker does not hold.  One it holds it is about to close, or to
      bind to another account. */
  lemma SingleDeviceExact<S(!new)>(st: State<S>, e: Event<S>, c: S)
    requires Inv(st) && Enabled(st, e) && c !in st.sessions
    ensures ErasesLiveEntry(st, e) && st.online[st.sessions[e.who].phase.uid] !in Held(st.worker) <==>
            exists es :: Feasible(Apply(st, e), es) && NeverErases(Apply(st, e), es)
                && !SingleDevice(Exec(Apply(st, e), es))
  {
    var st' := Apply(st, e);
    if ErasesLiveEntry(st, e) {
      var v := st.online[st.sessions[e.who].phase.uid];
      if v !in Held(st.worker) {
        var es := ErasureAdmitsSecond(st, e, c);
      } else {
        InvIsSingleDevice(st);
        assert InvBut(st', v);
        forall es | Feasible(st', es) && NeverErases(st', es) ensures SingleDevice(Exec(st', es)) {
          InvButRun(st', es, v);
        }
      }
    } else {
      StepExact(st, e);
      forall es | Feasible(st', es) && NeverErases(st', es) ensures SingleDevice(Exec(st', es)) {
        RunExact(st', es);
      }
    }
  }

  // ---- runs at the coarse grain: a close is one step ----

  datatype Stride<+S> =
    | Plain(event: Event<S>)  // Connect, Lookup, Bind, Register, Peek
    | KickAndClose            // old_session->Close()
    | CloseBy(who: S)         // Close by an I/O thread
    | Destroy(who: S)         // Close by the destructor

  ghost predicate Quiet<S>(st: State<S>) {
    !st.worker.Kicking? &&
    forall s :: s in st.sessions ==> !st.sessions[s].phase.Flagged? && !st.sessions[s].phase.Taken?
  }

  ghost predicate Allowed<S>(st: State<S>, x: Stride<S>) {
    match x
    case Plain(e) => (e.Connect? || e.Lookup? || e.Bind? || e.Register? || e.Peek?) && Enabled(st, e)
    case KickAndClose => Enabled(st, Kick)
    case CloseBy(s) => Enabled(st, Flag(s))
    case Destroy(s) => Enabled(st, Expire(s))
  }

  /** Finish the close of `s`, if one was started. */
  ghost function Finish<S>(st: State<S>, s: S): State<S> {
    if !Enabled(st, Take(s)) then st
    else
      var st' := Apply(st, Take(s));
      Apply(st', Remove(s))
  }

  ghost function Leap<S>(st: State<S>, x: Stride<S>): State<S>
    requires Allowed(st, x)
  {
    match x
    case Plain(e) => Apply(st, e)
    case KickAndClose =>
      var st' := Apply(st, Kick);
      if st'.worker.Kicking? then Finish(st', st'.worker.victim) else st'
    case CloseBy(s) => Finish(Apply(st, Flag(s)), s)
    case Destroy(s) => Finish(Apply(st, Expire(s)), s)
  }

  /** Finishing a close right after its flag was won never erases somebody else's entry. */
  lemma FinishKeepsInv<S>(before: State<S>, e: Event<S>, s: S)
    requires Inv(before) && Quiet(before) && Enabled(before, e)
    requires e == Flag(s) || e == Expire(s)
             || (e == Kick && Apply(before, e).worker.Kicking? && Apply(before, e).worker.victim == s)
    ensures Inv(Finish(Apply(before, e), s)) && Quiet(Finish(Apply(before, e), s))
  {
    InvIsSingleDevice(before);
    StepExact(before, e);
    var st := Apply(before, e);
    if Enabled(st, Take(s)) {
      StepExact(st, Take(s));
      var st' := Apply(st, Take(s));
      assert !ErasesLiveEntry(st', Remove(s));
      StepExact(st', Remove(s));
    }
  }

  lemma LeapKeepsInv<S>(st: State<S>, x: Stride<S>)
    requires Inv(st) && Quiet(st) && Allowed(st, x)
    ensures Inv(Leap(st, x)) && Quiet(Leap(st, x))
  {
    match x
    case Plain(e) => StepExact(st, e);
    case CloseBy(s) => FinishKeepsInv(st, Flag(s), s);
    case Destroy(s) => FinishKeepsInv(st, Expire(s), s);
    case KickAndClose =>
      StepExact(st, Kick);
      var st' := Apply(st, Kick);
      if st'.worker.Kicking? {
        FinishKeepsInv(st, Kick, st'.worker.victim);
      }
  }

  ghost predicate AllAllowed<S>(st: State<S>, xs: seq<Stride<S>>)
    decreases |xs|
  {
    xs == [] || (Allowed(st, xs[0]) && AllAllowed(Leap(st, xs[0]), xs[1..]))
  }

  ghost function LeapAll<S>(st: State<S>, xs: seq<Stride<S>>): State<S>
    requires AllAllowed(st, xs)
    decreases |xs|
  {
    if xs == [] then st else LeapAll(Leap(st, xs[0]), xs[1..])
  }

  lemma {:induction false} LeapAllKeepsInv<S>(st: State<S>, xs: seq<Stride<S>>)
    requires Inv(st) && Quiet(st) && AllAllowed(st, xs)
    ensures Inv(LeapAll(st, xs)) && Quiet(LeapAll(st, xs))
    decreases |xs|
  {
    if xs != [] {
      LeapKeepsInv(st, xs[0]);
      LeapAllKeepsInv(Leap(st, xs[0]), xs[1..]);
    }
  }

  /** With closes atomic the guarantee holds in every run, with no condition at all. */
  lemma SingleDeviceWithAtomicClose<S>(xs: seq<Stride<S>>)
    requires AllAllowed(Empty<S>(), xs)
    ensures SingleDevice(LeapAll(Empty<S>(), xs)) && Registered(LeapAll(Empty<S>(), xs))
  {
    EmptyHasInv<S>();
    LeapAllKeepsInv(Empty<S>(), xs);
    InvIsSingleDevice(LeapAll(Empty<S>(), xs));
  }

  /** A close of `s` from beginning to end; nothing if its stop flag is already set. */
  ghost function CloseNow<S>(st: State<S>, s: S): State<S> {
    if Enabled(st, Flag(s)) then Leap(st, CloseBy(s)) else st
  }

  lemma CloseNowEffect<S>(st: State<S>, s: S)
    requires Inv(st) && Quiet(st) && s in st.sessions
    ensures Inv(CloseNow(st, s)) && Quiet(CloseNow(st, s))
    ensures CloseNow(st, s) ==
            if !Open(st, s) then st
            else st.(sessions := st.sessions[s := st.sessions[s].(phase := Closed, uid := 0)],
                     online := RemoveOnlineUser(st.online, st.sessions[s].uid))
  {
    if Open(st, s) {
      LeapKeepsInv(st, CloseBy(s));
    }
  }

  lemma LeapFirst<S>(st: State<S>, x: Stride<S>, rest: seq<Stride<S>>)
    requires Allowed(st, x) && AllAllowed(Leap(st, x), rest)
    ensures AllAllowed(st, [x] + rest) && LeapAll(st, [x] + rest) == LeapAll(Leap(st, x), rest)
  {
    assert ([x] + rest)[1..] == rest;
  }

  /** A destruction between logins is a close after which the session's references fail. */
  lemma DestroyEffect<S>(st: State<S>, s: S)
    requires Inv(st) && Quiet(st) && st.worker.Idle? && s in st.sessions && st.sessions[s].alive
    ensures Allowed(st, Destroy(s)) && Inv(Leap(st, Destroy(s)))
    ensures s in CloseNow(st, s).sessions
    ensures Leap(st, Destroy(s)) == Put(CloseNow(st, s), s, CloseNow(st, s).sessions[s].(alive := false))
  {
    LeapKeepsInv(st, Destroy(s));
    CloseNowEffect(st, s);
  }

  // ---- a login with closes between its steps ----

  /** The sessions that other threads close between the four steps of a login. */
  datatype Gaps<+S> = Gaps(afterLookup: seq<S>, afterKick: seq<S>, afterBind: seq<S>)

  ghost predicate GapsIn<S>(gaps: Gaps<S>, all: set<S>) {
    && (forall s :: s in gaps.afterLookup ==> s in all)
    && (forall s :: s in gaps.afterKick ==> s in all)
    && (forall s :: s in gaps.afterBind ==> s in all)
  }

  ghost function CloseEach<S>(st: State<S>, xs: seq<S>): State<S> {
    if xs == [] then st else CloseNow(CloseEach(st, xs[..|xs| - 1]), xs[|xs| - 1])
  }

  /** What closes leave as it is. */
  ghost predicate SameButClosed<S>(st: State<S>, st': State<S>) {
    && st'.worker == st.worker && st'.sessions.Keys == st.sessions.Keys
    && forall s :: s in st.sessions ==> st'.sessions[s].alive == st.sessions[s].alive
  }

  lemma {:induction false} CloseEachKeepsInv<S>(st: State<S>, xs: seq<S>)
    requires Inv(st) && Quiet(st) && forall s :: s in xs ==> s in st.sessions
    ensures Inv(CloseEach(st, xs)) && Quiet(CloseEach(st, xs)) && SameButClosed(st, CloseEach(st, xs))
    decreases |xs|
  {
    if xs != [] {
      var init := xs[..|xs| - 1];
      CloseEachKeepsInv(st, init);
      CloseNowEffect(CloseEach(st, init), xs[|xs| - 1]);
    }
  }

  /** A whole kick is a close of the session that was found, if any. */
  lemma KickEffect<S>(st: State<S>)
    requires Inv(st) && Quiet(st) && st.worker.Found?
    ensures var Found(s, u, prior) := st.worker;
            && Allowed(st, KickAndClose)
            && Leap(st, KickAndClose)
                == (if prior.Some? then CloseNow(st, prior.value) else st).(worker := Cleared(s, u))
  {
    if st.worker.prior.Some? {
      CloseNowEffect(st, st.worker.prior.value);
    }
  }

  ghost function AfterLookup<S>(st: State<S>, s: S, u: int, gaps: Gaps<S>): State<S>
    requires Enabled(st, Lookup(s, u))
  {
    CloseEach(Apply(st, Lookup(s, u)), gaps.afterLookup)
  }

  ghost function AfterKick<S>(st: State<S>, s: S, u: int, gaps: Gaps<S>): State<S>
    requires Enabled(st, Lookup(s, u))
  {
    var st1 := AfterLookup(st, s, u, gaps);
    CloseEach(if Allowed(st1, KickAndClose) then Leap(st1, KickAndClose) else st1, gaps.afterKick)
  }

  ghost function AfterBind<S>(st: State<S>, s: S, u: int, gaps: Gaps<S>): State<S>
    requires Enabled(st, Lookup(s, u))
  {
    var st2 := AfterKick(st, s, u, gaps);
    CloseEach(if Enabled(st2, Bind) then Apply(st2, Bind) else st2, gaps.afterBind)
  }

  /** A login by `s` with closes between its steps. */
  ghost function LoginAround<S>(st: State<S>, s: S, u: int, gaps: Gaps<S>): State<S>
    requires Enabled(st, Lookup(s, u))
  {
    var st3 := AfterBind(st, s, u, gaps);
    if Enabled(st3, Register) then Apply(st3, Register) else st3
  }

  lemma KickKeeps<S>(st: State<S>)
    requires Inv(st) && Quiet(st) && st.worker.Found?
    ensures var st' := Leap(st, KickAndClose);
            st'.worker == Cleared(st.worker.who, st.worker.uid) && st'.sessions.Keys == st.sessions.Keys
  {
    KickEffect(st);
    if st.worker.prior.Some? {
      CloseNowEffect(st, st.worker.prior.value);
    }
  }

  lemma AfterLookupKeeps<S>(st: State<S>, s: S, u: int, gaps: Gaps<S>)
    requires Inv(st) && Quiet(st) && Enabled(st, Lookup(s, u)) && GapsIn(gaps, st.sessions.Keys)
    ensures var st1 := AfterLookup(st, s, u, gaps);
            Inv(st1) && Quiet(st1) && st1.worker == Found(s, u, Find(st, u).0) && st1.sessions.Keys == st.sessions.Keys
  {
    LeapKeepsInv(st, Plain(Lookup(s, u)));
    CloseEachKeepsInv(Apply(st, Lookup(s, u)), gaps.afterLookup);
  }

  lemma AfterKickKeeps<S>(st: State<S>, s: S, u: int, gaps: Gaps<S>)
    requires Inv(st) && Quiet(st) && Enabled(st, Lookup(s, u)) && GapsIn(gaps, st.sessions.Keys)
    ensures var st2 := AfterKick(st, s, u, gaps);
            Inv(st2) && Quiet(st2) && st2.worker == Cleared(s, u) && st2.sessions.Keys == st.sessions.Keys
  {
    AfterLookupKeeps(st, s, u, gaps);
    var st1 := AfterLookup(st, s, u, gaps);
    LeapKeepsInv(st1, KickAndClose);
    KickKeeps(st1);
    CloseEachKeepsInv(Leap(st1, KickAndClose), gaps.afterKick);
  }

  lemma AfterBindKeeps<S>(st: State<S>, s: S, u: int, gaps: Gaps<S>)
    requires Inv(st) && Quiet(st) && Enabled(st, Lookup(s, u)) && GapsIn(gaps, st.sessions.Keys)
    ensures var st3 := AfterBind(st, s, u, gaps);
            Inv(st3) && Quiet(st3) && st3.worker == Bound(s, u) && st3.sessions.Keys == st.sessions.Keys
  {
    AfterKickKeeps(st, s, u, gaps);
    var st2 := AfterKick(st, s, u, gaps);
    LeapKeepsInv(st2, Plain(Bind));
    CloseEachKeepsInv(Apply(st2, Bind), gaps.afterBind);
  }

  /** Whatever is closed between its steps, a login keeps the invariant and comes to its end. */
  lemma LoginAroundKeepsInv<S>(st: State<S>, s: S, u: int, gaps: Gaps<S>)
    requires Inv(st) && Quiet(st) && Enabled(st, Lookup(s, u)) && GapsIn(gaps, st.sessions.Keys)
    ensures var st4 := LoginAround(st, s, u, gaps);
            Inv(st4) && Quiet(st4) && st4.worker == Idle && st4.sessions.Keys == st.sessions.Keys
  {
    AfterBindKeeps(st, s, u, gaps);
    LeapKeepsInv(AfterBind(st, s, u, gaps), Plain(Register));
  }

  lemma {:induction false} LeapConcat<S>(st: State<S>, xs: seq<Stride<S>>, ys: seq<Stride<S>>)
    requires AllAllowed(st, xs) && AllAllowed(LeapAll(st, xs), ys)
    ensures AllAllowed(st, xs + ys) && LeapAll(st, xs + ys) == LeapAll(LeapAll(st, xs), ys)
    decreases |xs|
  {
    if xs == [] {
      assert xs + ys == ys;
    } else {
      assert (xs + ys)[1..] == xs[1..] + ys;
      LeapConcat(Leap(st, xs[0]), xs[1..], ys);
    }
  }

  lemma LeapLast<S>(st: State<S>, xs: seq<Stride<S>>, x: Stride<S>)
    requires AllAllowed(st, xs) && Allowed(LeapAll(st, xs), x)
    ensures AllAllowed(st, xs + [x]) && LeapAll(st, xs + [x]) == Leap(LeapAll(st, xs), x)
  {
    var st' := LeapAll(st, xs);
    assert AllAllowed(Leap(st', x), []) && LeapAll(Leap(st', x), []) == Leap(st', x);
    LeapFirst(st', x, []);
    assert [x] + [] == [x];
    LeapConcat(st, xs, [x]);
  }

  lemma {:induction false} CloseEachIsRun<S>(st: State<S>, before: seq<Stride<S>>, xs: seq<S>)
    returns (all: seq<Stride<S>>)
    requires AllAllowed(st, before)
    ensures AllAllowed(st, all) && LeapAll(st, all) == CloseEach(LeapAll(st, before), xs)
    decreases |xs|
  {
    if xs == [] {
      all := before;
    } else {
      all := CloseEachIsRun(st, before, xs[..|xs| - 1]);
      var x := xs[|xs| - 1];
      if Enabled(LeapAll(st, all), Flag(x)) {
        LeapLast(st, all, CloseBy(x));
        all := all + [CloseBy(x)];
      }
    }
  }

  /** It is a run of the machine whose closes are atomic. */
  lemma LoginAroundIsRun<S>(st: State<S>, s: S, u: int, gaps: Gaps<S>) returns (xs: seq<Stride<S>>)
    requires Inv(st) && Quiet(st) && Enabled(st, Lookup(s, u)) && GapsIn(gaps, st.sessions.Keys)
    ensures AllAllowed(st, xs) && LeapAll(st, xs) == LoginAround(st, s, u, gaps)
  {
    LeapLast(st, [], Plain(Lookup(s, u)));
    xs := CloseEachIsRun(st, [] + [Plain(Lookup(s, u))], gaps.afterLookup);
    AfterLookupKeeps(st, s, u, gaps);
    LeapLast(st, xs, KickAndClose);
    xs := CloseEachIsRun(st, xs + [KickAndClose], gaps.afterKick);
    AfterKickKeeps(st, s, u, gaps);
    LeapLast(st, xs, Plain(Bind));
    xs := CloseEachIsRun(st, xs + [Plain(Bind)], gaps.afterBind);
    AfterBindKeeps(st, s, u, gaps);
    LeapLast(st, xs, Plain(Register));
    xs := xs + [Plain(Register)];
  }

  // ---- what such a login leaves behind ----

  /** From `st` to `st'` exactly the sessions in `closed` have been closed, and, but for `s`, nothing else has
      changed about any session. */
  ghost predicate OnlyClosed<S>(st: State<S>, st': State<S>, closed: set<S>, s: S) {
    && st'.sessions.Keys == st.sessions.Keys
    && forall t :: t in st.sessions ==>
         && (Open(st', t) <==> Open(st, t) && t !in closed)
         && (t != s && t !in closed ==> st'.sessions[t] == st.sessions[t])
  }

  lemma OnlyClosedBoth<S>(st: State<S>, st': State<S>, st'': State<S>, closed: set<S>, more: set<S>, s: S)
    requires OnlyClosed(st, st', closed, s) && OnlyClosed(st', st'', more, s)
    ensures OnlyClosed(st, st'', closed + more, s)
  {
    forall t | t in st.sessions
      ensures Open(st'', t) <==> Open(st, t) && t !in closed + more
      ensures t != s && t !in closed + more ==> st''.sessions[t] == st.sessions[t]
    {
      assert t in st'.sessions;
    }
  }

  ghost function SetOf<S>(xs: seq<S>): set<S> {
    set x | x in xs
  }

  lemma CloseNowCloses<S>(st: State<S>, x: S, s: S)
    requires Inv(st) && Quiet(st) && x in st.sessions
    ensures OnlyClosed(st, CloseNow(st, x), {x}, s)
  {
    CloseNowEffect(st, x);
  }

  lemma {:induction false} CloseEachCloses<S>(st: State<S>, xs: seq<S>, s: S)
    requires Inv(st) && Quiet(st) && forall x :: x in xs ==> x in st.sessions
    ensures OnlyClosed(st, CloseEach(st, xs), SetOf(xs), s)
    decreases |xs|
  {
    if xs != [] {
      var init, x := xs[..|xs| - 1], xs[|xs| - 1];
      CloseEachKeepsInv(st, init);
      CloseEachCloses(st, init, s);
      CloseNowCloses(CloseEach(st, init), x, s);
      OnlyClosedBoth(st, CloseEach(st, init), CloseEach(st, xs), SetOf(init), {x}, s);
      assert xs == init + [x];
      assert SetOf(xs) == SetOf(init) + {x};
    }
  }

  ghost function Victim<S>(prior: Option<S>): set<S> {
    if prior.Some? then {prior.value} else {}
  }

  lemma AfterLookupCloses<S>(st: State<S>, s: S, u: int, gaps: Gaps<S>)
    requires Inv(st) && Quiet(st) && Enabled(st, Lookup(s, u)) && GapsIn(gaps, st.sessions.Keys)
    ensures OnlyClosed(st, AfterLookup(st, s, u, gaps), SetOf(gaps.afterLookup), s)
  {
    LeapKeepsInv(st, Plain(Lookup(s, u)));
    var st1 := Apply(st, Lookup(s, u));
    CloseEachCloses(st1, gaps.afterLookup, s);
    OnlyClosedBoth(st, st1, AfterLookup(st, s, u, gaps), {}, SetOf(gaps.afterLookup), s);
    assert {} + SetOf(gaps.afterLookup) == SetOf(gaps.afterLookup);
  }

  lemma KickCloses<S>(st: State<S>, s: S)
    requires Inv(st) && Quiet(st) && st.worker.Found?
    ensures OnlyClosed(st, Leap(st, KickAndClose), Victim(st.worker.prior), s)
  {
    KickEffect(st);
    if st.worker.prior.Some? {
      CloseNowCloses(st, st.worker.prior.value, s);
    }
  }

  lemma AfterKickCloses<S>(st: State<S>, s: S, u: int, gaps: Gaps<S>)
    requires Inv(st) && Quiet(st) && Enabled(st, Lookup(s, u)) && GapsIn(gaps, st.sessions.Keys)
    ensures OnlyClosed(st, AfterKick(st, s, u, gaps),
                       SetOf(gaps.afterLookup) + Victim(Find(st, u).0) + SetOf(gaps.afterKick), s)
  {
    var st1 := AfterLookup(st, s, u, gaps);
    AfterLookupKeeps(st, s, u, gaps);
    AfterLookupCloses(st, s, u, gaps);
    KickCloses(st1, s);
    LeapKeepsInv(st1, KickAndClose);
    KickKeeps(st1);
    var st2 := Leap(st1, KickAndClose);
    CloseEachCloses(st2, gaps.afterKick, s);
    OnlyClosedBoth(st, st1, st2, SetOf(gaps.afterLookup), Victim(Find(st, u).0), s);
    OnlyClosedBoth(st, st2, AfterKick(st, s, u, gaps), SetOf(gaps.afterLookup) + Victim(Find(st, u).0),
                   SetOf(gaps.afterKick), s);
  }

  lemma BindCloses<S>(st: State<S>, s: S)
    requires Enabled(st, Bind) && st.worker.who == s
    ensures OnlyClosed(st, Apply(st, Bind), {}, s)
  {
  }

  lemma AfterBindCloses<S>(st: State<S>, s: S, u: int, gaps: Gaps<S>)
    requires Inv(st) && Quiet(st) && Enabled(st, Lookup(s, u)) && GapsIn(gaps, st.sessions.Keys)
    ensures OnlyClosed(st, AfterBind(st, s, u, gaps), Closing(st, u, gaps), s)
  {
    var st2 := AfterKick(st, s, u, gaps);
    AfterKickKeeps(st, s, u, gaps);
    AfterKickCloses(st, s, u, gaps);
    BindCloses(st2, s);
    LeapKeepsInv(st2, Plain(Bind));
    var st3 := Apply(st2, Bind);
    CloseEachCloses(st3, gaps.afterBind, s);
    var closed := SetOf(gaps.afterLookup) + Victim(Find(st, u).0) + SetOf(gaps.afterKick);
    OnlyClosedBoth(st, st2, st3, closed, {}, s);
    OnlyClosedBoth(st, st3, AfterBind(st, s, u, gaps), closed + {}, SetOf(gaps.afterBind), s);
    assert closed + {} + SetOf(gaps.afterBind) == Closing(st, u, gaps);
  }

  /** Every session that a login for account `u` or another thread meanwhile closes: the one that was found, and
      those in the gaps. */
  ghost function Closing<S>(st: State<S>, u: int, gaps: Gaps<S>): set<S> {
    SetOf(gaps.afterLookup) + Victim(Find(st, u).0) + SetOf(gaps.afterKick) + SetOf(gaps.afterBind)
  }

  /** A login leaves its session registered for the account, and open and bound to it exactly if it was open, was
      not itself the one that was found, and nobody closed it meanwhile; of the others it closes the one that
      was found and leaves those nobody closed as they were. */
  lemma LoginEffect<S>(st: State<S>, s: S, u: int, gaps: Gaps<S>)
    requires Inv(st) && Quiet(st) && Enabled(st, Lookup(s, u)) && GapsIn(gaps, st.sessions.Keys)
    ensures var st' := LoginAround(st, s, u, gaps);
            && u in st'.online && st'.online[u] == s && st'.sessions.Keys == st.sessions.Keys
            && (Open(st', s) ==> BoundTo(st', s, u))
            && forall t :: t in st.sessions ==>
                 var closed := Find(st, u).0 == Some(t) || t in gaps.afterLookup || t in gaps.afterKick
                               || t in gaps.afterBind;
                 && (Open(st', t) <==> Open(st, t) && !closed)
                 && (t != s && !closed ==> st'.sessions[t] == st.sessions[t])
  {
    AfterBindKeeps(st, s, u, gaps);
    AfterBindCloses(st, s, u, gaps);
    var st3, st' := AfterBind(st, s, u, gaps), LoginAround(st, s, u, gaps);
    assert st'.sessions == st3.sessions;
    forall t | t in st.sessions
      ensures var closed := Find(st, u).0 == Some(t) || t in gaps.afterLookup || t in gaps.afterKick
                            || t in gaps.afterBind;
              && (Open(st', t) <==> Open(st, t) && !closed)
              && (t != s && !closed ==> st'.sessions[t] == st.sessions[t])
    {
      assert Open(st3, t) <==> Open(st, t) && t !in Closing(st, u, gaps);
    }
  }

  ghost function Undisturbed<S>(): Gaps<S> {
    Gaps([], [], [])
  }

  /** A login that nobody disturbs leaves its session open and bound exactly if it was open and not itself the
      one registered for the account, which the login closes. */
  lemma LoginExact<S>(st: State<S>, s: S, u: int)
    requires Inv(st) && Quiet(st) && Enabled(st, Lookup(s, u))
    ensures var st' := LoginAround(st, s, u, Undisturbed());
            && (BoundTo(st', s, u) <==> Open(st, s) && Find(st, u).0 != Some(s))
            && u in st'.online && st'.online[u] == s
  {
    LoginEffect(st, s, u, Undisturbed());
  }

  /** So a session that logs in to the same account twice is closed by its own second login, which ends with the
      closed session in the registry. */
  lemma SecondLoginClosesItself<S>(st: State<S>, s: S, u: int)
    requires Inv(st) && Quiet(st) && Enabled(st, Lookup(s, u)) && Open(st, s) && Find(st, u).0 != Some(s)
    ensures var st1 := LoginAround(st, s, u, Undisturbed());
            && BoundTo(st1, s, u) && Enabled(st1, Lookup(s, u))
            && var st2 := LoginAround(st1, s, u, Undisturbed());
               !Open(st2, s) && u in st2.online && st2.online[u] == s
  {
    LoginExact(st, s, u);
    LoginAroundKeepsInv(st, s, u, Undisturbed());
    SelfFoundIsClosed(LoginAround(st, s, u, Undisturbed()), s, u);
  }

  lemma SelfFoundIsClosed<S>(st: State<S>, s: S, u: int)
    requires Inv(st) && Quiet(st) && st.worker.Idle? && u > 0
    requires BoundTo(st, s, u) && u in st.online && st.online[u] == s
    ensures Enabled(st, Lookup(s, u))
    ensures var st' := LoginAround(st, s, u, Undisturbed()); !Open(st', s) && u in st'.online && st'.online[u] == s
  {
    assert Find(st, u).0 == Some(s);
    LoginEffect(st, s, u, Undisturbed());
  }

  // ---- what closing and logging in leave of the sessions' accounts ----

  /** What closes make of the sessions: one that is still open is as it was, and any other keeps its account or
      loses it. */
  ghost predicate Fades<S>(x: map<S, Session>, y: map<S, Session>) {
    && y.Keys == x.Keys
    && forall s :: s in x ==> (y[s].phase.Running? ==> y[s] == x[s]) && (y[s].uid == x[s].uid || y[s].uid == 0)
  }

  lemma CloseNowFades<S>(st: State<S>, x: S)
    requires Inv(st) && Quiet(st) && x in st.sessions
    ensures Fades(st.sessions, CloseNow(st, x).sessions)
  {
    CloseNowEffect(st, x);
  }

  lemma {:induction false} CloseEachFades<S>(st: State<S>, xs: seq<S>)
    requires Inv(st) && Quiet(st) && forall x :: x in xs ==> x in st.sessions
    ensures Fades(st.sessions, CloseEach(st, xs).sessions)
    decreases |xs|
  {
    if xs != [] {
      var init := xs[..|xs| - 1];
      CloseEachKeepsInv(st, init);
      CloseEachFades(st, init);
      CloseNowFades(CloseEach(st, init), xs[|xs| - 1]);
    }
  }

  lemma DestroyFades<S>(st: State<S>, s: S)
    requires Inv(st) && Quiet(st) && st.worker.Idle? && s in st.sessions && st.sessions[s].alive
    ensures Allowed(st, Destroy(s)) && Fades(st.sessions, Leap(st, Destroy(s)).sessions)
  {
    DestroyEffect(st, s);
    CloseNowFades(st, s);
    CloseNowEffect(st, s);
  }

  ghost function WithUid<S>(sessions: map<S, Session>, s: S, u: int): map<S, Session>
    requires s in sessions
  {
    sessions[s := sessions[s].(uid := u)]
  }

  lemma FadesThenBinds<S>(x: map<S, Session>, y: map<S, Session>, z: map<S, Session>, s: S, u: int)
    requires Fades(x, y) && s in x && Fades(WithUid(y, s, u), z)
    ensures Fades(WithUid(x, s, u), z)
  {
  }

  lemma AfterKickFades<S>(st: State<S>, s: S, u: int, gaps: Gaps<S>)
    requires Inv(st) && Quiet(st) && Enabled(st, Lookup(s, u)) && GapsIn(gaps, st.sessions.Keys)
    ensures Fades(st.sessions, AfterKick(st, s, u, gaps).sessions)
  {
    LeapKeepsInv(st, Plain(Lookup(s, u)));
    CloseEachFades(Apply(st, Lookup(s, u)), gaps.afterLookup);
    AfterLookupKeeps(st, s, u, gaps);
    var st1 := AfterLookup(st, s, u, gaps);
    KickEffect(st1);
    if st1.worker.prior.Some? {
      CloseNowFades(st1, st1.worker.prior.value);
    }
    LeapKeepsInv(st1, KickAndClose);
    KickKeeps(st1);
    CloseEachFades(Leap(st1, KickAndClose), gaps.afterKick);
  }

  /** A login gives its session the account; apart from that, sessions only lose theirs. */
  lemma LoginFades<S>(st: State<S>, s: S, u: int, gaps: Gaps<S>)
    requires Inv(st) && Quiet(st) && Enabled(st, Lookup(s, u)) && GapsIn(gaps, st.sessions.Keys)
    ensures Fades(WithUid(st.sessions, s, u), LoginAround(st, s, u, gaps).sessions)
  {
    AfterKickKeeps(st, s, u, gaps);
    AfterKickFades(st, s, u, gaps);
    var st2 := AfterKick(st, s, u, gaps);
    LeapKeepsInv(st2, Plain(Bind));
    CloseEachFades(Apply(st2, Bind), gaps.afterBind);
    FadesThenBinds(st.sessions, st2.sessions, AfterBind(st, s, u, gaps).sessions, s, u);
  }

  // ---- what a registry entry says about its session ----

  /** A push to account `u` goes to the session registered for `u`; it reaches the right person when
      that session, if open, is bound to `u`. */
  ghost predicate EntriesFaithful<S>(st: State<S>) {
    forall u :: u in st.online && Open(st, st.online[u]) ==> st.sessions[st.online[u]].uid == u
  }

  /** What every run keeps, whatever it erases. */
  ghost predicate Sane<S>(st: State<S>) {
    WellFormed(st) && (st.worker.Bound? && Open(st, st.worker.who) ==> st.sessions[st.worker.who].uid == st.worker.uid)
  }

  lemma SaneKept<S>(st: State<S>, e: Event<S>)
    requires Sane(st) && Enabled(st, e)
    ensures Sane(Apply(st, e))
  {
  }

  /** A login binds an open session that is still registered for another account. */
  ghost predicate LeavesEntry<S>(st: State<S>, e: Event<S>) {
    e.Bind? && st.worker.Cleared? && Open(st, st.worker.who) &&
    var x := st.sessions[st.worker.who].uid;
    x != st.worker.uid && x in st.online && st.online[x] == st.worker.who
  }

  /** Logging an open session in under a second account is the only step that leaves an entry behind
      through which the first account's messages reach the second. */
  lemma FaithfulExact<S>(st: State<S>, e: Event<S>)
    requires Sane(st) && EntriesFaithful(st) && Enabled(st, e)
    ensures EntriesFaithful(Apply(st, e)) <==> !LeavesEntry(st, e)
    ensures Inv(st) && e.Bind?
            ==> (LeavesEntry(st, e) <==> Open(st, st.worker.who) && st.sessions[st.worker.who].uid != 0)
  {
    var st' := Apply(st, e);
    if LeavesEntry(st, e) {
      var x := st.sessions[st.worker.who].uid;
      assert x in st'.online && Open(st', st'.online[x]);
    }
  }

  ghost predicate FaithfulThroughout<S>(st: State<S>, es: seq<Event<S>>)
    requires Feasible(st, es)
    decreases |es|
  {
    EntriesFaithful(st) && (es == [] || FaithfulThroughout(Apply(st, es[0]), es[1..]))
  }

  ghost predicate NeverLeavesEntry<S>(st: State<S>, es: seq<Event<S>>)
    requires Feasible(st, es)
    decreases |es|
  {
    es == [] || (!LeavesEntry(st, es[0]) && NeverLeavesEntry(Apply(st, es[0]), es[1..]))
  }

  /** Exactly which runs keep every entry faithful. */
  lemma {:induction false} FaithfulRunExact<S>(st: State<S>, es: seq<Event<S>>)
    requires Sane(st) && EntriesFaithful(st) && Feasible(st, es)
    ensures FaithfulThroughout(st, es) <==> NeverLeavesEntry(st, es)
    decreases |es|
  {
    if es != [] {
      var st' := Apply(st, es[0]);
      FaithfulExact(st, es[0]);
      SaneKept(st, es[0]);
      if EntriesFaithful(st') {
        FaithfulRunExact(st', es[1..]);
      } else {
        assert !FaithfulThroughout(st', es[1..]);
      }
    }
  }

  /** The run, for any session and any two accounts: it logs in under both, and is then found for the
      first one while bound to the second. */
  lemma SecondLoginMisleads<S>(a: S, x: int, y: int)
    requires x > 0 && y > 0 && x != y
    ensures var es := [Connect(a)] + Login(a, x) + Login(a, y);
            && Feasible(Empty<S>(), es)
            && var st := Exec(Empty<S>(), es);
               Find(st, x).0 == Some(a) && BoundTo(st, a, y) && !EntriesFaithful(st)
  {
    OneStep(Empty<S>(), Connect(a));
    var st1 := Apply(Empty<S>(), Connect(a));
    LoginRun(st1, a, x);
    FeasibleConcat(Empty<S>(), [Connect(a)], Login(a, x));
    var st2 := Exec(st1, Login(a, x));
    LoginRun(st2, a, y);
    FeasibleConcat(Empty<S>(), [Connect(a)] + Login(a, x), Login(a, y));
    var st := Exec(st2, Login(a, y));
    assert x in st.online && Open(st, st.online[x]);
  }
}
