/** The sending half of a session as an object.  `Send` and `HandleWrite` change the flag and the queue
    of nodes in place; the ghost field `chain` is the state of the whole write chain, including what the
    socket and other threads are doing, and every method is tied to steps of that machine. */
module SessionWriter {
  import opened Wrappers
  import opened Constants
  import opened Framing
  import opened MsgNodes
  import opened WriteChain

  /** Start the write that is about to start, if there is one. */
  function StartNext(c: Chain): Chain {
    if c.starting == [] then c else Apply(c, Start(0))
  }

  /** `Send` of an admissible frame from beginning to end: enter, push, and start if it holds the token. */
  function SendFrame(c: Chain, f: Frame): Chain {
    var c1 := if Enabled(c, Enter(f)) then Apply(c, Enter(f)) else c;
    if !Enabled(c1, Push(f)) then c1
    else
      var c2 := Apply(c1, Push(f));
      if |c2.starting| > |c1.starting| then Apply(c2, Start(|c1.starting|)) else c2
  }

  function CompleteAndRestart(c: Chain, i: nat): Chain {
    if Enabled(c, Complete(i)) then StartNext(Apply(c, Complete(i))) else c
  }

  /** A failed completion, with the close it causes if the flag was not set already. */
  function FailAndClose(c: Chain, i: nat): Chain {
    if !Enabled(c, Fail(i)) then c
    else if c.stop then Apply(c, Fail(i)) else Apply(Apply(c, Fail(i)), Shut)
  }

  lemma FreshIsReachable()
    ensures Reachable(Fresh())
  {
    assert Feasible(Fresh(), []) && Exec(Fresh(), []) == Fresh();
  }

  /** A whole `Send` that nothing interrupts is a run of the machine. */
  lemma SendFrameIsRun(c: Chain, f: Frame)
    requires Reachable(c) && Enabled(c, Enter(f))
    ensures Reachable(SendFrame(c, f)) && AllSendable(SendFrame(c, f).queue)
    ensures var d := SendFrame(c, f);
            && d.stop == c.stop && d.open == c.open
            && d.queue == (if |c.queue| > MAX_SENDQUE then c.queue else c.queue + [f])
            && |d.writing| == |c.writing| + if c.queue == [] then 1 else 0
  {
    ReachableStep(c, Enter(f));
    var c1 := Apply(c, Enter(f));
    ReachableStep(c1, Push(f));
    var c2 := Apply(c1, Push(f));
    if |c2.starting| > |c1.starting| {
      ReachableStep(c2, Start(|c1.starting|));
    }
    ReachableHasInv(c);
    ReachableHasInv(SendFrame(c, f));
  }

  lemma CompleteIsRun(c: Chain, i: nat)
    requires Reachable(c) && Enabled(c, Complete(i))
    ensures Reachable(CompleteAndRestart(c, i)) && AllSendable(CompleteAndRestart(c, i).queue)
    ensures c.queue != [] && CompleteAndRestart(c, i).queue == c.queue[1..]
    ensures CompleteAndRestart(c, i).stop == c.stop && CompleteAndRestart(c, i).open == c.open
  {
    CompletePopsWhatWasWritten(c, i);
    ReachableStep(c, Complete(i));
    var c1 := Apply(c, Complete(i));
    if c1.starting != [] {
      ReachableStep(c1, Start(0));
    }
    ReachableHasInv(CompleteAndRestart(c, i));
  }

  lemma FailIsRun(c: Chain, i: nat)
    requires Reachable(c) && Enabled(c, Fail(i))
    ensures var d := FailAndClose(c, i);
            Reachable(d) && AllSendable(d.queue) && d.stop && d.failed && d.queue == c.queue
                && d.open == (c.stop && c.open)
  {
    ReachableStep(c, Fail(i));
    if !c.stop {
      ReachableStep(Apply(c, Fail(i)), Shut);
    }
    ReachableHasInv(FailAndClose(c, i));
  }

  lemma StopIsRun(c: Chain)
    requires Reachable(c)
    ensures var d := Apply(Apply(c, Stop), Shut);
            Reachable(d) && AllSendable(d.queue) && d == c.(stop := true, open := false)
  {
    ReachableStep(c, Stop);
    ReachableStep(Apply(c, Stop), Shut);
    ReachableHasInv(Apply(Apply(c, Stop), Shut));
  }

  class Sender {
    var stop: bool
    var open: bool
    var sendQue: seq<MsgNode>
    ghost var chain: Chain

    ghost predicate Valid()
      reads this, sendQue, set n | n in sendQue :: n.data
    {
      && Reachable(chain) && AllSendable(chain.queue)
      && chain.stop == stop && chain.open == open
      && |sendQue| == |chain.queue|
      && forall i :: 0 <= i < |sendQue| ==> sendQue[i].Valid() && sendQue[i].Wire() == Encode(chain.queue[i])
    }

    constructor ()
      ensures Valid() && chain == Fresh()
    {
      FreshIsReachable();
      stop, open, sendQue := false, true, [];
      chain := Fresh();
    }

    /** The flag and the socket in `Close`: only the call that wins the flag closes the socket. */
    method Close()
      requires Valid()
      modifies this`stop, this`open, this`chain
      ensures Valid() && stop
      ensures chain == if old(stop) then old(chain) else Apply(Apply(old(chain), Stop), Shut)
    {
      if stop {
        return;
      }
      StopIsRun(chain);
      chain := Apply(Apply(chain, Stop), Shut);
      stop, open := true, false;
    }

    /** The raw overload.  `buffer` is what is passed to `async_write`, if this call starts one. */
    method Send(msg: seq<Byte>, maxLen: Short, msgId: Short) returns (buffer: Option<MsgNode>)
      requires Valid() && maxLen <= |msg|
      modifies this
      ensures Valid()
      ensures if old(stop) || maxLen <= 0 || maxLen > MAX_LENGTH
              then chain == old(chain) && buffer.None?
              else chain == SendFrame(old(chain), Frame(msgId, msg[..maxLen]))
      ensures buffer.Some? <==> |chain.writing| == |old(chain).writing| + 1
      ensures buffer.Some?
              ==> buffer.value.Valid() && chain.queue != [] && buffer.value.Wire() == Encode(chain.queue[0])
    {
      if stop {
        return None;
      }
      if maxLen <= 0 || maxLen > MAX_LENGTH {
        return None;
      }
      ghost var f := Frame(msgId, msg[..maxLen]);
      if |sendQue| > MAX_SENDQUE {
        Refuse(f);
        return None;
      }
      var node := new MsgNode.ForSend(msg, maxLen, msgId);
      var writeInProgress := sendQue != [];
      Push(node, f);
      if writeInProgress {
        return None;
      }
      buffer := Some(sendQue[0]);
    }

    /** A full queue: the frame enters the lock region and is dropped there. */
    ghost method Refuse(f: Frame)
      requires Valid() && Enabled(chain, Enter(f)) && |sendQue| > MAX_SENDQUE
      modifies this`chain
      ensures Valid() && chain == SendFrame(old(chain), f) && |chain.writing| == |old(chain).writing|
    {
      SendFrameIsRun(chain, f);
      chain := SendFrame(chain, f);
    }

    /** The push of the lock region. */
    method Push(node: MsgNode, ghost f: Frame)
      requires Valid() && Enabled(chain, Enter(f)) && |sendQue| <= MAX_SENDQUE
      requires node.Valid() && node.Wire() == Encode(f)
      modifies this
      ensures Valid() && chain == SendFrame(old(chain), f)
      ensures sendQue == old(sendQue) + [node]
      ensures |chain.writing| == |old(chain).writing| + if old(sendQue) == [] then 1 else 0
    {
      SendFrameIsRun(chain, f);
      chain := SendFrame(chain, f);
      sendQue := sendQue + [node];
    }

    /** The string overload: the length is cast to short before the raw overload looks at it. */
    method SendString(text: seq<Byte>, msgId: Short) returns (buffer: Option<MsgNode>)
      requires Valid()
      modifies this
      ensures Valid()
      ensures var fs := StringFrame(text, msgId);
              chain == if old(stop) || fs == [] then old(chain) else SendFrame(old(chain), fs[0])
      ensures buffer.Some? <==> |chain.writing| == |old(chain).writing| + 1
      ensures buffer.Some?
              ==> buffer.value.Valid() && chain.queue != [] && buffer.value.Wire() == Encode(chain.queue[0])
    {
      buffer := Send(text, ToShort(|text|), msgId);
    }

    /** The socket takes some bytes of the write in flight. */
    ghost method Advance(i: nat, count: nat)
      requires Valid() && Enabled(chain, WriteChain.Advance(i, count))
      modifies this`chain
      ensures Valid() && chain == Apply(old(chain), WriteChain.Advance(i, count))
    {
      ReachableStep(chain, WriteChain.Advance(i, count));
      chain := Apply(chain, WriteChain.Advance(i, count));
    }

    /** The completion handler of the `i`-th write in flight; there is only one.  On an error it closes the
        session. */
    method HandleWrite(error: bool, ghost i: nat) returns (buffer: Option<MsgNode>)
      requires Valid() && Enabled(chain, if error then Fail(i) else Complete(i))
      modifies this
      ensures Valid()
      ensures error ==> chain == FailAndClose(old(chain), i) && sendQue == old(sendQue) && stop && buffer.None?
      ensures !error ==> chain == CompleteAndRestart(old(chain), i)
      ensures !error ==> old(sendQue) != [] && sendQue == old(sendQue)[1..] && (buffer.Some? <==> sendQue != [])
      ensures buffer.Some?
              ==> buffer.value.Valid() && chain.queue != [] && buffer.value.Wire() == Encode(chain.queue[0])
    {
      if !error {
        CompleteIsRun(chain, i);
        chain := CompleteAndRestart(chain, i);
        sendQue := sendQue[1..];
        if sendQue != [] {
          buffer := Some(sendQue[0]);
        } else {
          buffer := None;
        }
      } else {
        FailIsRun(chain, i);
        chain := FailAndClose(chain, i);
        if !stop {
          stop, open := true, false;
        }
        buffer := None;
      }
    }
  }
}
