/** The bounded request queue between the sessions and the one worker thread, with its condition
    variable.  The stop flag is written outside the mutex, so evaluating the wait predicate and
    going to sleep are two steps. */
module RequestQueue {
  import opened Constants
  import opened Framing

  datatype Request<+S> = Request(session: S, frame: Frame)

  datatype Worker<+S> =
    | Ready                       // about to lock and evaluate the wait predicate
    | Deciding                    // holds the lock, found the predicate false, not yet asleep
    | Blocked                     // asleep in wait
    | Woken                       // notified (or spuriously awake), about to evaluate it again
    | Busy(request: Request<S>)   // handling a request, without the lock
    | Exited

  datatype State<S> = State(
    queue: seq<Request<S>>,
    worker: Worker<S>,
    stop: bool,
    stopNotified: bool,
    offered: seq<Request<S>>,   // history: every request posted
    accepted: seq<Request<S>>,  // history: those that entered the queue
    handled: seq<Request<S>>)   // history: those the worker is done with

  datatype Event<+S> =
    | Post(request: Request<S>)
    | Evaluate
    | Sleep
    | Finish
    | Spurious
    | SetStop
    | NotifyStop

  function Initial<S>(): State<S> {
    State([], Ready, false, false, [], [], [])
  }

  predicate Enabled<S>(c: State<S>, e: Event<S>) {
    match e
    case Post(_) => !c.worker.Deciding?
    case Evaluate => c.worker.Ready? || c.worker.Woken?
    case Sleep => c.worker.Deciding?
    case Finish => c.worker.Busy?
    case Spurious => c.worker.Blocked?
    case SetStop => true
    case NotifyStop => c.stop && !c.stopNotified
  }

  function Wake<S>(w: Worker<S>): Worker<S> {
    if w.Blocked? then Woken else w
  }

  /** What `PostMsgToQue` does to the queue. */
  function Enqueue<S>(queue: seq<Request<S>>, r: Request<S>): seq<Request<S>> {
    if |queue| >= MAX_RECVQUE then queue else queue + [r]
  }

  function Apply<S>(c: State<S>, e: Event<S>): State<S>
    requires Enabled(c, e)
  {
    match e
    case Post(r) =>
      var next := c.(offered := c.offered + [r]);
      if |c.queue| >= MAX_RECVQUE then next
      else
        next.(queue := Enqueue(c.queue, r), accepted := c.accepted + [r],
              worker := if |c.queue| + 1 == 1 then Wake(c.worker) else c.worker)
    case Evaluate =>
      if c.queue != [] then c.(worker := Busy(c.queue[0]), queue := c.queue[1..])
      else if c.stop then c.(worker := Exited)
      else c.(worker := Deciding)
    case Sleep => c.(worker := Blocked)
    case Finish => c.(worker := Ready, handled := c.handled + [c.worker.request])
    case Spurious => c.(worker := Woken)
    case SetStop => c.(stop := true)
    case NotifyStop => c.(stopNotified := true, worker := Wake(c.worker))
  }

  predicate Feasible<S>(c: State<S>, es: seq<Event<S>>)
    decreases |es|
  {
    es == [] || (Enabled(c, es[0]) && Feasible(Apply(c, es[0]), es[1..]))
  }

  function Exec<S>(c: State<S>, es: seq<Event<S>>): State<S>
    requires Feasible(c, es)
    decreases |es|
  {
    if es == [] then c else Exec(Apply(c, es[0]), es[1..])
  }

  ghost predicate Reachable<S(!new)>(c: State<S>) {
    exists es :: Feasible(Initial(), es) && Exec(Initial(), es) == c
  }

  /** The state `c` is what the events `es` make of the initial one. */
  ghost predicate IsRun<S>(es: seq<Event<S>>, c: State<S>) {
    Feasible(Initial<S>(), es) && c == Exec(Initial<S>(), es)
  }

  lemma {:induction false} ExecAppend<S>(c: State<S>, es: seq<Event<S>>, e: Event<S>)
    requires Feasible(c, es) && Enabled(Exec(c, es), e)
    ensures Feasible(c, es + [e]) && Exec(c, es + [e]) == Apply(Exec(c, es), e)
    decreases |es|
  {
    if es == [] {
      assert [e][1..] == [];
      assert Exec(Apply(c, e), []) == Apply(c, e);
    } else {
      assert (es + [e])[1..] == es[1..] + [e];
      ExecAppend(Apply(c, es[0]), es[1..], e);
    }
  }

  lemma RunAppend<S>(es: seq<Event<S>>, c: State<S>, e: Event<S>)
    requires IsRun(es, c) && Enabled(c, e)
    ensures IsRun(es + [e], Apply(c, e))
  {
    ExecAppend(Initial<S>(), es, e);
  }

  // ---- subsequences ----

  /** `a` is `b` with some elements left out. */
  predicate Subsequence<T(==)>(a: seq<T>, b: seq<T>)
    decreases |b|
  {
    a == [] || (b != [] &&
      if a[|a| - 1] == b[|b| - 1] then Subsequence(a[..|a| - 1], b[..|b| - 1])
      else Subsequence(a, b[..|b| - 1]))
  }

  lemma {:induction false} SubsequenceDropLast<T>(a: seq<T>, b: seq<T>)
    requires Subsequence(a, b) && a != []
    ensures Subsequence(a[..|a| - 1], b)
    decreases |b|
  {
    var a', b' := a[..|a| - 1], b[..|b| - 1];
    if a' != [] {
      if a[|a| - 1] == b[|b| - 1] {
        if a'[|a'| - 1] == b[|b| - 1] {
          SubsequenceDropLast(a', b');
        }
      } else {
        SubsequenceDropLast(a, b');
        if a'[|a'| - 1] == b[|b| - 1] {
          SubsequenceDropLast(a', b');
        }
      }
    }
  }

  lemma SubsequenceSkip<T>(a: seq<T>, b: seq<T>, x: T)
    requires Subsequence(a, b)
    ensures Subsequence(a, b + [x])
  {
    assert (b + [x])[..|b|] == b;
    if a != [] && a[|a| - 1] == x {
      SubsequenceDropLast(a, b);
    }
  }

  lemma SubsequenceTake<T>(a: seq<T>, b: seq<T>, x: T)
    requires Subsequence(a, b)
    ensures Subsequence(a + [x], b + [x])
  {
    assert (b + [x])[..|b|] == b && (a + [x])[..|a|] == a;
  }

  lemma {:induction false} SubsequencePrefix<T>(a: seq<T>, b: seq<T>, n: nat)
    requires Subsequence(a, b) && n <= |a|
    ensures Subsequence(a[..n], b)
    decreases |a|
  {
    if n == |a| {
      assert a[..n] == a;
    } else {
      SubsequenceDropLast(a, b);
      assert a[..|a| - 1][..n] == a[..n];
      SubsequencePrefix(a[..|a| - 1], b, n);
    }
  }

  lemma {:induction false} SubsequenceConcat<T>(a: seq<T>, b: seq<T>, c: seq<T>, d: seq<T>)
    requires Subsequence(a, b) && Subsequence(c, d)
    ensures Subsequence(a + c, b + d)
    decreases |d|
  {
    if d == [] {
      assert a + c == a && b + d == b;
    } else {
      var y, d' := d[|d| - 1], d[..|d| - 1];
      assert b + d == b + d' + [y];
      if c != [] && c[|c| - 1] == y {
        SubsequenceConcat(a, b, c[..|c| - 1], d');
        SubsequenceTake(a + c[..|c| - 1], b + d', y);
        assert a + c == a + c[..|c| - 1] + [y];
      } else {
        SubsequenceConcat(a, b, c, d');
        SubsequenceSkip(a + c, b + d', y);
      }
    }
  }

  /** The frames of one session, in order. */
  function Of<S(==)>(s: S, rs: seq<Request<S>>): seq<Frame> {
    if rs == [] then []
    else
      var last := rs[|rs| - 1];
      Of(s, rs[..|rs| - 1]) + if last.session == s then [last.frame] else []
  }

  lemma {:induction false} SubsequenceOf<S>(s: S, a: seq<Request<S>>, b: seq<Request<S>>)
    requires Subsequence(a, b)
    ensures Subsequence(Of(s, a), Of(s, b))
    decreases |b|
  {
    if a != [] {
      var a', b' := a[..|a| - 1], b[..|b| - 1];
      var y := b[|b| - 1];
      if a[|a| - 1] == y {
        SubsequenceOf(s, a', b');
        if y.session == s {
          SubsequenceTake(Of(s, a'), Of(s, b'), y.frame);
        } else {
          assert Of(s, a) == Of(s, a') && Of(s, b) == Of(s, b');
        }
      } else {
        SubsequenceOf(s, a, b');
        if y.session == s {
          SubsequenceSkip(Of(s, a), Of(s, b'), y.frame);
        } else {
          assert Of(s, b) == Of(s, b');
        }
      }
    }
  }

  // ---- the invariant ----

  function InHand<S>(c: State<S>): seq<Request<S>> {
    if c.worker.Busy? then [c.worker.request] else []
  }

  ghost predicate Inv<S>(c: State<S>) {
    && c.accepted == c.handled + InHand(c) + c.queue
    && Subsequence(c.accepted, c.offered)
    && |c.queue| <= MAX_RECVQUE
    && (c.worker.Blocked? || c.worker.Deciding? ==> c.queue == [])
  }

  lemma PostKeepsInv<S>(c: State<S>, r: Request<S>)
    requires Inv(c) && Enabled(c, Post(r))
    ensures Inv(Apply(c, Post(r)))
  {
    if |c.queue| >= MAX_RECVQUE {
      SubsequenceSkip(c.accepted, c.offered, r);
    } else {
      SubsequenceTake(c.accepted, c.offered, r);
      Reassociate(c.handled + InHand(c), c.queue, [r]);
    }
  }

  lemma EvaluateKeepsInv<S>(c: State<S>)
    requires Inv(c) && Enabled(c, Evaluate)
    ensures Inv(Apply(c, Evaluate))
  {
    if c.queue != [] {
      assert c.queue == [c.queue[0]] + c.queue[1..];
      assert c.handled + [] == c.handled;
      Reassociate(c.handled, [c.queue[0]], c.queue[1..]);
    }
  }

  lemma StepKeepsInv<S>(c: State<S>, e: Event<S>)
    requires Inv(c) && Enabled(c, e)
    ensures Inv(Apply(c, e))
  {
    match e
    case Post(r) => PostKeepsInv(c, r);
    case Evaluate => EvaluateKeepsInv(c);
    case Finish => assert c.handled + [c.worker.request] + [] == c.handled + [c.worker.request];
    case Sleep =>
    case Spurious =>
    case SetStop =>
    case NotifyStop =>
  }

  lemma {:induction false} RunKeepsInv<S>(c: State<S>, es: seq<Event<S>>)
    requires Inv(c) && Feasible(c, es)
    ensures Inv(Exec(c, es))
    decreases |es|
  {
    if es != [] {
      StepKeepsInv(c, es[0]);
      RunKeepsInv(Apply(c, es[0]), es[1..]);
    }
  }

  lemma RunHasInv<S>(es: seq<Event<S>>, c: State<S>)
    requires IsRun(es, c)
    ensures Inv(c)
  {
    RunKeepsInv(Initial<S>(), es);
  }

  lemma ReachableHasInv<S(!new)>(c: State<S>)
    requires Reachable(c)
    ensures Inv(c)
  {
    var es :| Feasible(Initial(), es) && Exec(Initial(), es) == c;
    RunKeepsInv(Initial(), es);
  }

  // ---- main results ----

  /** First in, first out, with nothing lost in between, and never more than the bound. */
  lemma QueueIsFifo<S(!new)>(c: State<S>)
    requires Reachable(c)
    ensures c.accepted == c.handled + InHand(c) + c.queue
    ensures |c.queue| <= MAX_RECVQUE
  {
    ReachableHasInv(c);
  }

  /** No lost wakeup, though a notification is sent only when the size becomes 1: a worker asleep
      without a notification has nothing to do. */
  lemma NoLostWakeup<S(!new)>(c: State<S>)
    requires Reachable(c) && c.worker.Blocked?
    ensures c.queue == [] && c.handled == c.accepted
  {
    ReachableHasInv(c);
  }

  /** A post is dropped exactly when it finds the queue full. */
  lemma DroppedOnlyWhenFull<S(!new)>(c: State<S>, r: Request<S>)
    requires Reachable(c) && Enabled(c, Post(r))
    ensures Apply(c, Post(r)).accepted == (if |c.queue| == MAX_RECVQUE then c.accepted else c.accepted + [r])
    ensures Apply(c, Post(r)).offered == c.offered + [r]
  {
    ReachableHasInv(c);
  }

  /** Each session's requests are handled in the order in which its reader cut them from the stream,
      whatever other sessions post in between. */
  lemma SessionOrder<S(!new)>(c: State<S>, s: S, stream: seq<Byte>)
    requires Reachable(c) && Of(s, c.offered) <= Decode(Server, stream)
    ensures Subsequence(Of(s, c.handled), Of(s, c.offered))
    ensures Subsequence(Of(s, c.handled), Decode(Server, stream))
  {
    ReachableHasInv(c);
    assert c.handled == c.accepted[..|c.handled|];
    SubsequencePrefix(c.accepted, c.offered, |c.handled|);
    SubsequenceOf(s, c.handled, c.offered);
    SubsequenceExtend(Of(s, c.handled), Of(s, c.offered), Decode(Server, stream));
  }

  lemma {:induction false} SubsequenceExtend<T>(a: seq<T>, b: seq<T>, whole: seq<T>)
    requires Subsequence(a, b) && b <= whole
    ensures Subsequence(a, whole)
    decreases |whole|
  {
    if b != whole {
      var init := whole[..|whole| - 1];
      assert b <= init && whole == init + [whole[|whole| - 1]];
      SubsequenceExtend(a, b, init);
      SubsequenceSkip(a, init, whole[|whole| - 1]);
    }
  }

  // ---- drain before exit ----

  predicate IsWorkerStep<S>(e: Event<S>) {
    e.Evaluate? || e.Sleep? || e.Finish?
  }

  /** Steps the worker can still make if nobody posts. */
  function Work<S>(c: State<S>): nat {
    match c.worker
    case Blocked => 0
    case Exited => 0
    case Deciding => 1
    case Busy(_) => 2 * |c.queue| + 3
    case _ => 2 * |c.queue| + 2
  }

  lemma WorkerStepProgresses<S>(c: State<S>, e: Event<S>)
    requires Inv(c) && IsWorkerStep(e) && Enabled(c, e)
    ensures Inv(Apply(c, e)) && Work(Apply(c, e)) < Work(c)
    ensures Apply(c, e).accepted == c.accepted && Apply(c, e).stop == c.stop
  {
    StepKeepsInv(c, e);
  }

  /** The worker leaves its loop only with an empty queue, everything accepted so far handled. */
  lemma ExitOnlyWhenDrained<S(!new)>(c: State<S>, e: Event<S>)
    requires Reachable(c) && Enabled(c, e) && !c.worker.Exited? && Apply(c, e).worker.Exited?
    ensures c.stop && c.queue == [] && c.handled == c.accepted
  {
    ReachableHasInv(c);
  }

  lemma ExitedStays<S(!new)>(c: State<S>, es: seq<Event<S>>)
    requires Inv(c) && c.worker.Exited? && c.queue == []
    requires Feasible(c, es) && forall i :: 0 <= i < |es| ==> IsWorkerStep(es[i])
    ensures es == [] && c.handled == c.accepted
  {
    assert forall e: Event<S> :: IsWorkerStep(e) ==> !Enabled(c, e);
    assert c.handled + [] + [] == c.handled;
  }

  lemma StuckIsDone<S(!new)>(c: State<S>)
    requires Inv(c) && !c.worker.Exited? && forall e: Event<S> :: IsWorkerStep(e) ==> !Enabled(c, e)
    ensures c.worker.Blocked? && c.handled == c.accepted
  {
    assert !Enabled(c, Evaluate) && !Enabled(c, Sleep) && !Enabled(c, Finish);
    assert c.handled + [] + [] == c.handled;
  }

  /** Once posting has ceased, the worker stops after at most `Work` steps with everything handled.
      With the stop flag set it stops by leaving its loop, unless it had already found the predicate
      false: exactly then it goes to sleep, or stays asleep, with the flag set. */
  lemma {:induction false} WorkerDrains<S(!new)>(c: State<S>, es: seq<Event<S>>)
    requires Inv(c) && !c.worker.Exited? && Feasible(c, es) && forall i :: 0 <= i < |es| ==> IsWorkerStep(es[i])
    ensures |es| <= Work(c)
    ensures var d := Exec(c, es);
            (forall e: Event<S> :: IsWorkerStep(e) ==> !Enabled(d, e)) ==>
              d.accepted == c.accepted && d.handled == c.accepted
              && (c.stop ==> (d.worker.Exited? <==> !(c.worker.Deciding? || c.worker.Blocked?)))
    decreases |es|
  {
    if es == [] {
      if forall e: Event<S> :: IsWorkerStep(e) ==> !Enabled(c, e) {
        StuckIsDone(c);
      }
    } else {
      WorkerStepProgresses(c, es[0]);
      var c' := Apply(c, es[0]);
      if c'.worker.Exited? {
        ExitedStays(c', es[1..]);
      } else {
        WorkerDrains(c', es[1..]);
      }
    }
  }

  /** Only the worker and the pending notification are left to act. */
  predicate IsShutdownStep<S>(e: Event<S>) {
    IsWorkerStep(e) || e.NotifyStop?
  }

  /** The whole shutdown: the flag is set, nobody posts, and the one notification comes after the worker
      steps `before` and is followed by the worker steps `after`.  When nothing is left to happen all
      accepted requests are handled, and the worker has left its loop exactly if it was not between its
      check and its sleep when the notification came. */
  lemma ShutdownExact<S(!new)>(c: State<S>, before: seq<Event<S>>, after: seq<Event<S>>)
    requires Inv(c) && c.stop && !c.stopNotified && !c.worker.Exited?
    requires Feasible(c, before) && forall i :: 0 <= i < |before| ==> IsWorkerStep(before[i])
    requires Enabled(Exec(c, before), NotifyStop) && Feasible(Apply(Exec(c, before), NotifyStop), after)
    requires forall i :: 0 <= i < |after| ==> IsWorkerStep(after[i])
    ensures var m := Exec(c, before);
            var d := Exec(Apply(m, NotifyStop), after);
            (forall e: Event<S> :: IsShutdownStep(e) ==> !Enabled(d, e)) ==>
              d.handled == d.accepted == c.accepted && (d.worker.Exited? <==> !m.worker.Deciding?)
  {
    var m := Exec(c, before);
    WorkerRunKeeps(c, before);
    var n := Apply(m, NotifyStop);
    StepKeepsInv(m, NotifyStop);
    if m.worker.Exited? {
      ExitedStays(n, after);
    } else {
      WorkerDrains(n, after);
    }
  }

  lemma {:induction false} WorkerRunKeeps<S>(c: State<S>, es: seq<Event<S>>)
    requires Inv(c) && Feasible(c, es) && forall i :: 0 <= i < |es| ==> IsWorkerStep(es[i])
    requires c.worker.Exited? ==> c.queue == []
    ensures var d := Exec(c, es); Inv(d) && d.accepted == c.accepted && d.stop == c.stop
    ensures Exec(c, es).worker.Exited? ==> Exec(c, es).queue == []
    decreases |es|
  {
    if es != [] {
      WorkerStepProgresses(c, es[0]);
      WorkerRunKeeps(Apply(c, es[0]), es[1..]);
    }
  }

  /** The stop flag is set without the mutex, so its one notification can fall between the worker's
      check and its sleep: a reachable state with the flag set, the notification spent and the worker
      asleep. */
  lemma ShutdownCanHang<S(!new)>()
    ensures exists c: State<S> :: Reachable(c) && c.stop && c.stopNotified && c.worker.Blocked?
                                  && forall e: Event<S> :: IsWorkerStep(e) ==> !Enabled(c, e)
  {
    var c0: State<S> := Initial();
    var c1 := Apply(c0, Evaluate);
    var c2 := Apply(c1, SetStop);
    var c3 := Apply(c2, NotifyStop);
    var c4 := Apply(c3, Sleep);
    var es: seq<Event<S>> := [Evaluate, SetStop, NotifyStop, Sleep];
    assert Feasible(c4, es[4..]) && Exec(c4, es[4..]) == c4;
    assert es[3..][0] == Sleep && es[3..][1..] == es[4..];
    assert Feasible(c3, es[3..]) && Exec(c3, es[3..]) == c4;
    assert es[2..][0] == NotifyStop && es[2..][1..] == es[3..];
    assert Feasible(c2, es[2..]) && Exec(c2, es[2..]) == c4;
    assert es[1..][0] == SetStop && es[1..][1..] == es[2..];
    assert Feasible(c1, es[1..]) && Exec(c1, es[1..]) == c4;
    assert Feasible(c0, es) && Exec(c0, es) == c4;
    assert Reachable(c4);
  }
}
