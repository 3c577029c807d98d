/** The asynchronous write chain of one session as a state machine.
    Every lock region and every lock-free gap of `Send`, `HandleWrite` and `Close` is a step of
    its own, so that runs are the interleavings of all threads that touch the session.
    The state can hold any number of started writes; that there is never more than one is proved. */
module WriteChain {
  import opened Constants
  import opened Framing

  /** An `async_write` in progress: `written` bytes of the frame have reached the socket. */
  datatype Write = Write(frame: Frame, written: nat)

  datatype Chain = Chain(
    stop: bool,               // the flag Close sets
    open: bool,               // the socket itself
    failed: bool,             // some write has completed with an error
    entered: multiset<Frame>, // senders past the checks of Send, not yet inside its lock region
    queue: seq<Frame>,
    starting: seq<Frame>,     // threads that left a lock region holding the front, before async_write
    writing: seq<Write>,
    wire: seq<Byte>,          // bytes the socket took, in order
    accepted: seq<Frame>,     // history: frames pushed, in order
    done: seq<Frame>)         // history: frames popped after their write, in order

  function Fresh(): Chain {
    Chain(false, true, false, multiset{}, [], [], [], [], [], [])
  }

  datatype Event =
    | Enter(frame: Frame)        // Send passes its stop and length checks
    | Push(frame: Frame)         // Send's lock region
    | Start(i: nat)              // async_write is called
    | Advance(i: nat, count: nat)// the socket takes some bytes
    | Complete(i: nat)           // HandleWrite without error: its lock region
    | Fail(i: nat)               // HandleWrite with an error, up to the flag of Close
    | Stop                       // any thread sets the flag of Close
    | Shut                       // Close closes the socket

  function Without<T>(s: seq<T>, i: nat): (r: seq<T>)
    requires i < |s|
    ensures |r| == |s| - 1
  {
    s[..i] + s[i + 1..]
  }

  predicate Enabled(c: Chain, e: Event) {
    match e
    case Enter(f) => !c.stop && Sendable(f)
    case Push(f) => f in c.entered
    case Start(i) => i < |c.starting|
    case Advance(i, count) =>
      c.open && i < |c.writing| && Sendable(c.writing[i].frame)
      && 0 < count <= |Encode(c.writing[i].frame)| - c.writing[i].written
    case Complete(i) =>
      i < |c.writing| && Sendable(c.writing[i].frame) && c.writing[i].written == |Encode(c.writing[i].frame)|
    case Fail(i) => i < |c.writing|
    case Stop => true
    case Shut => c.stop
  }

  /** `Send` between taking and releasing the lock. */
  function PushFrame(c: Chain, f: Frame): Chain {
    if |c.queue| > MAX_SENDQUE then c
    else
      var next := c.(queue := c.queue + [f], accepted := c.accepted + [f]);
      if c.queue != [] then next else next.(starting := c.starting + [next.queue[0]])
  }

  /** `HandleWrite` without error, between taking and releasing the lock. */
  function PopFrame(c: Chain): Chain {
    if c.queue == [] then c
    else
      var next := c.(queue := c.queue[1..], done := c.done + [c.queue[0]]);
      if next.queue == [] then next else next.(starting := c.starting + [next.queue[0]])
  }

  function Apply(c: Chain, e: Event): Chain
    requires Enabled(c, e)
  {
    match e
    case Enter(f) => c.(entered := c.entered + multiset{f})
    case Push(f) => PushFrame(c.(entered := c.entered - multiset{f}), f)
    case Start(i) => c.(starting := Without(c.starting, i), writing := c.writing + [Write(c.starting[i], 0)])
    case Advance(i, count) =>
      var w := c.writing[i];
      c.(wire := c.wire + Encode(w.frame)[w.written..w.written + count],
         writing := c.writing[i := w.(written := w.written + count)])
    case Complete(i) => PopFrame(c.(writing := Without(c.writing, i)))
    case Fail(i) => c.(writing := Without(c.writing, i), failed := true, stop := true)
    case Stop => c.(stop := true)
    case Shut => c.(open := false)
  }

  ghost predicate Feasible(c: Chain, es: seq<Event>)
    decreases |es|
  {
    es == [] || (Enabled(c, es[0]) && Feasible(Apply(c, es[0]), es[1..]))
  }

  ghost function Exec(c: Chain, es: seq<Event>): Chain
    requires Feasible(c, es)
    decreases |es|
  {
    if es == [] then c else Exec(Apply(c, es[0]), es[1..])
  }

  // ---- the invariant ----

  function Tokens(c: Chain): nat {
    |c.starting| + |c.writing|
  }

  /** The write token: it exists exactly while there is something to send, and stands for the front. */
  ghost predicate TokenInv(c: Chain) {
    && Tokens(c) <= 1
    && (c.failed ==> Tokens(c) == 0 && c.queue != [] && c.stop)
    && (!c.failed ==> (c.queue != [] <==> Tokens(c) == 1))
    && (c.starting != [] ==> c.starting[0] == c.queue[0])
    && (c.writing != [] ==> c.writing[0].frame == c.queue[0])
  }

  ghost predicate QueueInv(c: Chain) {
    && |c.queue| <= MAX_SENDQUE + 1
    && AllSendable(c.accepted)
    && (forall f :: f in c.entered ==> Sendable(f))
    && AllSendable(c.done) && AllSendable(c.queue)
    && c.accepted == c.done + c.queue
  }

  /** How many bytes of the front the socket has taken. */
  ghost function Sent(c: Chain): int
    requires QueueInv(c)
  {
    |c.wire| - |EncodeAll(c.done)|
  }

  /** The socket has taken the completed frames, then a part of the front, and nothing else. */
  ghost predicate WireInv(c: Chain)
    requires QueueInv(c)
  {
    && 0 <= Sent(c)
    && (c.queue == [] ==> c.wire == EncodeAll(c.done))
    && (c.queue != [] ==> Sent(c) <= |Encode(c.queue[0])|
                          && c.wire == EncodeAll(c.done) + Encode(c.queue[0])[..Sent(c)])
    && (c.writing != [] ==> c.writing[0].written == Sent(c))
    && (c.writing == [] && !c.failed ==> Sent(c) == 0)
  }

  ghost predicate Inv(c: Chain) {
    TokenInv(c) && QueueInv(c) && WireInv(c)
  }

  lemma PushKeepsInv(c: Chain, f: Frame)
    requires Inv(c) && Sendable(f)
    ensures Inv(PushFrame(c, f))
  {
    var c' := PushFrame(c, f);
    Reassociate(c.done, c.queue, [f]);
    if c.queue == [] && c'.queue != [] {
      assert Encode(f)[..0] == [];
    }
  }

  lemma AdvanceKeepsInv(c: Chain, i: nat, count: nat)
    requires Inv(c) && Enabled(c, Advance(i, count))
    ensures Inv(Apply(c, Advance(i, count)))
  {
    var w := c.writing[i];
    var bytes := Encode(w.frame);
    assert bytes[..w.written] + bytes[w.written..w.written + count] == bytes[..w.written + count];
    Reassociate(EncodeAll(c.done), bytes[..w.written], bytes[w.written..w.written + count]);
  }

  lemma CompleteKeepsInv(c: Chain, i: nat)
    requires Inv(c) && Enabled(c, Complete(i))
    ensures Inv(Apply(c, Complete(i)))
  {
    var front, rest := c.queue[0], c.queue[1..];
    assert c.queue == [front] + rest;
    Reassociate(c.done, [front], rest);
    EncodeAllCons(front, []);
    assert [front] + [] == [front] && Encode(front) + [] == Encode(front);
    EncodeAllAppend(c.done, [front]);
    assert Encode(front)[..|Encode(front)|] == Encode(front);
    if rest != [] {
      assert Encode(rest[0])[..0] == [];
    }
  }

  lemma StartKeepsInv(c: Chain, i: nat)
    requires Inv(c) && Enabled(c, Start(i))
    ensures Inv(Apply(c, Start(i)))
  {
    assert Without(c.starting, i) == [];
    assert c.writing == [];
  }

  lemma FailKeepsInv(c: Chain, i: nat)
    requires Inv(c) && Enabled(c, Fail(i))
    ensures Inv(Apply(c, Fail(i)))
  {
    assert Without(c.writing, i) == [];
    assert c.starting == [];
  }

  lemma StepKeepsInv(c: Chain, e: Event)
    requires Inv(c) && Enabled(c, e)
    ensures Inv(Apply(c, e))
  {
    match e
    case Push(f) => PushKeepsInv(c.(entered := c.entered - multiset{f}), f);
    case Advance(i, count) => AdvanceKeepsInv(c, i, count);
    case Complete(i) => CompleteKeepsInv(c, i);
    case Start(i) => StartKeepsInv(c, i);
    case Fail(i) => FailKeepsInv(c, i);
    case Enter(f) =>
    case Stop =>
    case Shut =>
  }

  lemma {:induction false} RunKeepsInv(c: Chain, es: seq<Event>)
    requires Inv(c) && Feasible(c, es)
    ensures Inv(Exec(c, es))
    decreases |es|
  {
    if es != [] {
      StepKeepsInv(c, es[0]);
      RunKeepsInv(Apply(c, es[0]), es[1..]);
    }
  }

  // ---- main results ----

  ghost predicate Reachable(c: Chain) {
    exists es :: Feasible(Fresh(), es) && Exec(Fresh(), es) == c
  }

  lemma ReachableHasInv(c: Chain)
    requires Reachable(c)
    ensures Inv(c)
  {
    var es :| Feasible(Fresh(), es) && Exec(Fresh(), es) == c;
    RunKeepsInv(Fresh(), es);
  }

  lemma SendableIsCarried(fs: seq<Frame>)
    requires AllSendable(fs)
    ensures AllCarried(Client, fs)
  {
  }

  lemma {:induction false} ExecAppend(c: Chain, es: seq<Event>, e: Event)
    requires Feasible(c, es) && Enabled(Exec(c, es), e)
    ensures Feasible(c, es + [e]) && Exec(c, es + [e]) == Apply(Exec(c, es), e)
    decreases |es|
  {
    if es == [] {
      assert [e][1..] == [];
      assert Exec(Apply(c, e), []) == Apply(c, e);
    } else {
      assert (es + [e])[1..] == es[1..] + [e];
      ExecAppend(Apply(c, es[0]), es[1..], e);
    }
  }

  lemma ReachableStep(c: Chain, e: Event)
    requires Reachable(c) && Enabled(c, e)
    ensures Reachable(Apply(c, e))
  {
    var es :| Feasible(Fresh(), es) && Exec(Fresh(), es) == c;
    ExecAppend(Fresh(), es, e);
  }

  /** In every interleaving the socket has taken a prefix of the accepted frames' encodings. */
  lemma WireIsPrefix(c: Chain)
    requires Inv(c)
    ensures AllSendable(c.accepted) && c.wire <= EncodeAll(c.accepted)
  {
    EncodeAllAppend(c.done, c.queue);
    if c.queue != [] {
      assert c.queue == [c.queue[0]] + c.queue[1..];
      EncodeAllCons(c.queue[0], c.queue[1..]);
      assert Encode(c.queue[0])[..Sent(c)] <= EncodeAll(c.queue);
    }
  }

  /** End to end: the peer's reader recovers a prefix of the accepted frames, in order, never fewer
      than the completed ones and at most one more. */
  lemma PeerReadsPrefix(c: Chain)
    requires Reachable(c)
    ensures Decode(Client, c.wire) <= c.accepted
    ensures |c.done| <= |Decode(Client, c.wire)| <= |c.done| + 1
    ensures Residue(Client, c.wire) != [] ==> FinalParse(Client, c.wire) == Incomplete
  {
    ReachableHasInv(c);
    WireIsPrefix(c);
    SendableIsCarried(c.accepted);
    SendableIsCarried(c.done);
    PrefixDecodes(Client, c.accepted, c.wire);
    ResidueOfPrefix(c.accepted, c.wire);
    if c.queue == [] {
      DecodeEncoded(Client, c.done);
    } else {
      var front := c.queue[0];
      var n := Sent(c);
      var part := Encode(front)[..n];
      RoundTrip(Client, c.done, part);
      if n < |Encode(front)| {
        ParseTruncated(Client, front, part);
      } else {
        assert part == Encode(front) == Encode(front) + [];
        DecodeCons(Client, front, []);
        assert Decode(Client, []) == [];
      }
    }
  }

  /** The peer never refuses what it is sent: it only ever waits for more bytes. */
  lemma {:induction false} ResidueOfPrefix(fs: seq<Frame>, p: seq<Byte>)
    requires AllSendable(fs) && p <= EncodeAll(fs)
    ensures FinalParse(Client, p) == Incomplete
    decreases |fs|
  {
    if fs != [] {
      var f, more := fs[0], fs[1..];
      PrefixSplit(p, Encode(f), EncodeAll(more));
      if |p| < |Encode(f)| {
        ParseTruncated(Client, f, p);
      } else {
        ParseEncoded(Client, f, p[|Encode(f)|..]);
        ResidueOfPrefix(more, p[|Encode(f)|..]);
      }
    }
  }

  /** The token law: until a write fails, the queue is non-empty exactly when one write is about to
      start or in flight, so two writes never overlap and no frame is left without a writer. */
  lemma OneWriteAtATime(c: Chain)
    requires Reachable(c)
    ensures Tokens(c) <= 1
    ensures !c.failed ==> (c.queue != [] <==> Tokens(c) == 1)
    ensures c.failed ==> Tokens(c) == 0
    ensures |c.queue| <= MAX_SENDQUE + 1
  {
    ReachableHasInv(c);
  }

  /** HandleWrite never pops an empty queue, and what it pops is the frame that was written. */
  lemma CompletePopsWhatWasWritten(c: Chain, i: nat)
    requires Reachable(c) && Enabled(c, Complete(i))
    ensures c.queue != [] && c.queue[0] == c.writing[i].frame
  {
    ReachableHasInv(c);
  }

  /** After a failed write the wire is frozen and no write ever starts again, whoever still pushes. */
  lemma {:induction false} FailureIsFinal(c: Chain, es: seq<Event>)
    requires Inv(c) && c.failed && Feasible(c, es)
    ensures Exec(c, es).failed && Exec(c, es).wire == c.wire && Tokens(Exec(c, es)) == 0
    ensures |Exec(c, es).accepted| <= |c.accepted| + |c.entered|
    decreases |es|
  {
    if es != [] {
      StepKeepsInv(c, es[0]);
      FailureIsFinal(Apply(c, es[0]), es[1..]);
    }
  }

  /** A frame inside the lock region is refused only when 1000 others wait behind the one in flight. */
  lemma DroppedOnlyWhenFull(c: Chain, f: Frame)
    requires Reachable(c) && Enabled(c, Push(f))
    ensures Apply(c, Push(f)).accepted == (if |c.queue| == MAX_SENDQUE + 1 then c.accepted else c.accepted + [f])
  {
    ReachableHasInv(c);
  }

  // ---- no frame is stranded ----

  predicate IsWriterStep(e: Event) {
    e.Start? || e.Advance? || e.Complete?
  }

  function Cost(fs: seq<Frame>): nat
    requires AllSendable(fs)
  {
    if fs == [] then 0 else |Encode(fs[0])| + 2 + Cost(fs[1..])
  }

  ghost predicate CanDrain(c: Chain) {
    Inv(c) && !c.failed && c.open
  }

  /** What the writers still have to do. */
  ghost function Pending(c: Chain): nat
    requires CanDrain(c)
  {
    if c.queue == [] then 0
    else if c.writing == [] then Cost(c.queue)
    else Cost(c.queue) - 1 - c.writing[0].written
  }

  lemma WriterStepProgresses(c: Chain, e: Event)
    requires CanDrain(c) && IsWriterStep(e) && Enabled(c, e)
    ensures CanDrain(Apply(c, e)) && Pending(Apply(c, e)) < Pending(c)
    ensures Apply(c, e).accepted == c.accepted
  {
    StepKeepsInv(c, e);
  }

  lemma WriterIsEnabled(c: Chain)
    requires CanDrain(c) && c.queue != []
    ensures exists e :: IsWriterStep(e) && Enabled(c, e)
  {
    if c.starting != [] {
      assert Enabled(c, Start(0));
    } else {
      var left := |Encode(c.queue[0])| - c.writing[0].written;
      if left == 0 {
        assert Enabled(c, Complete(0));
      } else {
        assert Enabled(c, Advance(0, left));
      }
    }
  }

  /** However the writers are scheduled, they stop within `Pending` steps, and when no writer step is
      left the peer has every accepted frame. */
  lemma {:induction false} WritersDrain(c: Chain, es: seq<Event>)
    requires CanDrain(c) && Feasible(c, es) && forall i :: 0 <= i < |es| ==> IsWriterStep(es[i])
    ensures |es| <= Pending(c)
    ensures var d := Exec(c, es);
            (forall e :: IsWriterStep(e) ==> !Enabled(d, e)) ==>
              d.accepted == c.accepted && AllSendable(c.accepted)
              && d.wire == EncodeAll(c.accepted) && Decode(Client, d.wire) == c.accepted
    decreases |es|
  {
    if es == [] {
      if c.queue != [] {
        WriterIsEnabled(c);
      } else {
        assert c.accepted == c.done;
        SendableIsCarried(c.accepted);
        DecodeEncoded(Client, c.accepted);
      }
    } else {
      WriterStepProgresses(c, es[0]);
      WritersDrain(Apply(c, es[0]), es[1..]);
    }
  }

  // ---- the bound is reached ----

  /** `Enter` and `Push` of the same frame, `n` times. */
  ghost function Burst(f: Frame, n: nat): seq<Event> {
    if n == 0 then [] else [Enter(f), Push(f)] + Burst(f, n - 1)
  }

  lemma {:induction false} BurstFills(c: Chain, f: Frame, n: nat)
    requires !c.stop && c.entered == multiset{} && Sendable(f) && |c.queue| + n <= MAX_SENDQUE + 1
    ensures Feasible(c, Burst(f, n)) && |Exec(c, Burst(f, n)).queue| == |c.queue| + n
    decreases n
  {
    if n > 0 {
      var es := Burst(f, n);
      var c1 := Apply(c, Enter(f));
      var c2 := Apply(c1, Push(f));
      assert c2.entered == multiset{};
      BurstFills(c2, f, n - 1);
      assert es[1..][1..] == Burst(f, n - 1) && es[1..][0] == Push(f);
    }
  }

  lemma BoundIsReached(f: Frame)
    requires Sendable(f)
    ensures exists c :: Reachable(c) && |c.queue| == MAX_SENDQUE + 1
  {
    BurstFills(Fresh(), f, MAX_SENDQUE + 1);
    assert Reachable(Exec(Fresh(), Burst(f, MAX_SENDQUE + 1)));
  }
}
