/** The test client's side: the receive thread routes messages, `WaitForResponse` picks replies out
    of the queue between them. */
module ResponseMatcher {
  import opened Constants
  import opened Wrappers

  /** A parsed message; of its JSON only the presence of "messages" matters here. */
  datatype Received = Received(id: int, hasMessages: bool, json: string)

  /** The receive thread displays pushes and offline batches itself; only the rest is queued. */
  predicate Queued(m: Received) {
    m.id != MSG_CHAT_MSG_PUSH && m.id != MSG_FRIEND_REQUEST_PUSH && !(m.id == MSG_OFFLINE_MSG_RSP && m.hasMessages)
  }

  // ---- one scan, as functions ----

  function Others(q: seq<Received>, id: int): seq<Received> {
    if q == [] then []
    else
      var m := q[|q| - 1];
      Others(q[..|q| - 1], id) + if m.id == id then [] else [m]
  }

  function Matching(q: seq<Received>, id: int): seq<Received> {
    if q == [] then []
    else
      var m := q[|q| - 1];
      Matching(q[..|q| - 1], id) + if m.id == id then [m] else []
  }

  function LastMatch(q: seq<Received>, id: int): Option<Received> {
    var ms := Matching(q, id);
    if ms == [] then None else Some(ms[|ms| - 1])
  }

  lemma OthersAppend(q: seq<Received>, m: Received, id: int)
    ensures Others(q + [m], id) == Others(q, id) + if m.id == id then [] else [m]
    ensures Matching(q + [m], id) == Matching(q, id) + if m.id == id then [m] else []
  {
    assert (q + [m])[..|q|] == q;
  }

  class Client {
    var recvQueue: seq<Received>
    var connected: bool

    constructor ()
      ensures recvQueue == [] && !connected
    {
      recvQueue, connected := [], false;
    }

    /** One turn of the receive thread. */
    method Receive(m: Received)
      modifies this`recvQueue
      ensures recvQueue == old(recvQueue) +
                if m.id == 2012 || m.id == 2009 || (m.id == 2014 && m.hasMessages) then [] else [m]
    {
      if m.id == MSG_CHAT_MSG_PUSH {
      } else if m.id == MSG_FRIEND_REQUEST_PUSH {
      } else if m.id == MSG_OFFLINE_MSG_RSP && m.hasMessages {
      } else {
        recvQueue := recvQueue + [m];
      }
    }

    /** The scan: drain the queue into a new one, keeping the last message that matches. */
    method Scan(expected: int) returns (found: bool, result: Option<Received>)
      modifies this`recvQueue
      ensures recvQueue == Others(old(recvQueue), expected)
      ensures result == LastMatch(old(recvQueue), expected)
      ensures found <==> result.Some?
    {
      ghost var before, taken := recvQueue, [];
      var temp := [];
      found, result := false, None;
      while recvQueue != []
        invariant before == taken + recvQueue
        invariant temp == Others(taken, expected)
        invariant result == LastMatch(taken, expected)
        invariant found <==> result.Some?
        decreases |recvQueue|
      {
        var msg := recvQueue[0];
        recvQueue := recvQueue[1..];
        OthersAppend(taken, msg, expected);
        taken := taken + [msg];
        if msg.id == expected {
          result := Some(msg);
          found := true;
        } else {
          temp := temp + [msg];
        }
      }
      assert before == taken;
      recvQueue := temp;
    }

    /** What the receive thread does while the waiting thread sleeps. */
    method ReceiveAll(burst: seq<Received>)
      modifies this`recvQueue
      ensures recvQueue == old(recvQueue) + Kept(burst)
    {
      var j := 0;
      while j < |burst|
        invariant 0 <= j <= |burst|
        invariant recvQueue == old(recvQueue) + Kept(burst[..j])
      {
        assert burst[..j + 1][..j] == burst[..j];
        Receive(burst[j]);
        j := j + 1;
      }
      assert burst[..j] == burst;
    }

    /** What happened when the waiting thread wakes up. */
    method Wakeup(burst: Burst)
      modifies this
      ensures recvQueue == old(recvQueue) + Kept(burst.messages)
      ensures connected <==> old(connected) && !burst.disconnects
    {
      ReceiveAll(burst.messages);
      connected := connected && !burst.disconnects;
    }

    /** `WaitForResponse`: `bursts` is what arrives while it waits, one element for each wakeup before
        the timeout, with whether the connection is lost at that wakeup.  It returns at the first wakeup
        that brings a match, at the loss of the connection, or at the timeout; `late` arrives between the
        timeout and the return, and is not looked at. */
    method WaitForResponse(expected: int, bursts: seq<Burst>, late: seq<Received>)
      returns (result: Option<Received>, ghost wakeups: nat, ghost timedOut: bool)
      modifies this
      ensures wakeups <= |bursts|
      ensures !timedOut ==> recvQueue == Others(Total(old(recvQueue), bursts, wakeups), expected)
      ensures timedOut ==> recvQueue == Others(Total(old(recvQueue), bursts, wakeups), expected) + Kept(late)
      ensures result == LastMatch(Total(old(recvQueue), bursts, wakeups), expected)
      ensures NoMatchBefore(old(recvQueue), bursts, wakeups, expected)
      ensures timedOut ==> result.None? && wakeups == |bursts|
      ensures result.None? && !timedOut ==> !connected
      ensures connected <==> old(connected) && NoneDisconnects(bursts, wakeups)
    {
      ghost var before := recvQueue;
      wakeups, timedOut := 0, false;
      var i := 0;
      while true
        invariant wakeups == i <= |bursts| && !timedOut
        invariant recvQueue == Total(before, bursts, i)
        invariant connected <==> old(connected) && NoneDisconnects(bursts, i)
        invariant NoMatchBefore(before, bursts, i, expected)
        decreases |bursts| - i
      {
        ghost var pending := recvQueue;
        var found;
        found, result := Scan(expected);
        if found || !connected {
          return;
        }
        if i == |bursts| {
          ReceiveAll(late);
          timedOut := true;
          return;
        }
        NoMatchKeepsAll(pending, expected);
        Wakeup(bursts[i]);
        i := i + 1;
        wakeups := i;
      }
    }
  }

  datatype Burst = Burst(messages: seq<Received>, disconnects: bool)

  predicate NoneDisconnects(bursts: seq<Burst>, k: nat)
    requires k <= |bursts|
  {
    k == 0 || (NoneDisconnects(bursts, k - 1) && !bursts[k - 1].disconnects)
  }

  /** The messages of a burst that reach the queue. */
  function Kept(ms: seq<Received>): seq<Received> {
    if ms == [] then []
    else
      var m := ms[|ms| - 1];
      Kept(ms[..|ms| - 1]) + if Queued(m) then [m] else []
  }

  /** The queue after `k` wakeups, if nothing were taken out. */
  function Total(before: seq<Received>, bursts: seq<Burst>, k: nat): seq<Received>
    requires k <= |bursts|
  {
    if k == 0 then before else Total(before, bursts, k - 1) + Kept(bursts[k - 1].messages)
  }

  /** None of the first `k` scans finds anything. */
  predicate NoMatchBefore(before: seq<Received>, bursts: seq<Burst>, k: nat, id: int)
    requires k <= |bursts|
  {
    k == 0 || (NoMatchBefore(before, bursts, k - 1, id) && LastMatch(Total(before, bursts, k - 1), id).None?)
  }

  lemma {:induction false} NoMatchKeepsAll(q: seq<Received>, id: int)
    requires LastMatch(q, id).None?
    ensures Others(q, id) == q
  {
    if q != [] {
      var init, m := q[..|q| - 1], q[|q| - 1];
      assert Matching(q, id) == Matching(init, id) + if m.id == id then [m] else [];
      assert m.id != id && Matching(init, id) == [];
      NoMatchKeepsAll(init, id);
      assert q == init + [m];
    }
  }

  /** A scan takes every message of the id it looked for and leaves every other one. */
  lemma {:induction false} ScanTakesAll(q: seq<Received>, id: int, m: Received)
    ensures m in Others(q, id) <==> m in q && m.id != id
    ensures m in Matching(q, id) <==> m in q && m.id == id
  {
    if q != [] {
      var init := q[..|q| - 1];
      ScanTakesAll(init, id, m);
      assert q == init + [q[|q| - 1]];
    }
  }

  // ---- runs: what becomes of every message ----

  datatype Op = Push(message: Received) | Scan(id: int)

  /** Positions of messages in the order of arrival: still queued, returned, or passed over in a scan
      that returned a later one. */
  datatype Ledger = Ledger(arrived: seq<Received>, queue: seq<nat>, returned: set<nat>, superseded: map<nat, nat>)

  predicate InRange(arrived: seq<Received>, q: seq<nat>) {
    forall k :: 0 <= k < |q| ==> q[k] < |arrived|
  }

  /** The queue as the client sees it. */
  function View(arrived: seq<Received>, q: seq<nat>): (r: seq<Received>)
    requires InRange(arrived, q)
    ensures |r| == |q|
  {
    seq(|q|, k requires 0 <= k < |q| => arrived[q[k]])
  }

  function Select(arrived: seq<Received>, q: seq<nat>, id: int, matching: bool): seq<nat>
    requires InRange(arrived, q)
  {
    if q == [] then []
    else
      var k := q[|q| - 1];
      Select(arrived, q[..|q| - 1], id, matching) + if (arrived[k].id == id) == matching then [k] else []
  }

  /** All hits but the last give way to it. */
  ghost function Supersede(superseded: map<nat, nat>, hits: seq<nat>, last: nat): (r: map<nat, nat>)
    ensures forall k :: k in r <==> k in superseded || (k in hits && k != last)
    ensures forall k :: k in r ==> r[k] == if k in hits && k != last then last else superseded[k]
  {
    superseded + map k | k in hits && k != last :: last
  }

  ghost function Apply(l: Ledger, op: Op): Ledger
    requires InRange(l.arrived, l.queue)
  {
    match op
    case Push(m) => l.(arrived := l.arrived + [m], queue := l.queue + [|l.arrived|])
    case Scan(id) =>
      var hits := Select(l.arrived, l.queue, id, true);
      if hits == [] then l
      else
        var last := hits[|hits| - 1];
        l.(queue := Select(l.arrived, l.queue, id, false),
           returned := l.returned + {last},
           superseded := Supersede(l.superseded, hits, last))
  }

  ghost predicate QueueOrdered(l: Ledger) {
    InRange(l.arrived, l.queue) && forall a, b :: 0 <= a < b < |l.queue| ==> l.queue[a] < l.queue[b]
  }

  ghost predicate ReturnedApart(l: Ledger) {
    forall k :: k in l.returned ==> k < |l.arrived| && k !in l.queue && k !in l.superseded
  }

  /** A superseded message gave way to a later one of the same id, which was returned. */
  ghost predicate SupersededByLater(l: Ledger) {
    forall k :: k in l.superseded ==>
      var j := l.superseded[k];
      k < j < |l.arrived| && j in l.returned && k !in l.queue && l.arrived[k].id == l.arrived[j].id
  }

  ghost predicate NoneMissing(l: Ledger) {
    forall k: nat :: k < |l.arrived| ==> k in l.queue || k in l.returned || k in l.superseded
  }

  /** Every message is in exactly one place. */
  ghost predicate Accounted(l: Ledger) {
    QueueOrdered(l) && ReturnedApart(l) && SupersededByLater(l) && NoneMissing(l)
  }

  lemma {:induction false} SelectExact(arrived: seq<Received>, q: seq<nat>, id: int, matching: bool)
    requires InRange(arrived, q) && forall a, b :: 0 <= a < b < |q| ==> q[a] < q[b]
    ensures var r := Select(arrived, q, id, matching);
            && InRange(arrived, r)
            && (forall a, b :: 0 <= a < b < |r| ==> r[a] < r[b])
            && (forall k :: k in r <==> k in q && (arrived[k].id == id) == matching)
  {
    if q != [] {
      var init := q[..|q| - 1];
      SelectExact(arrived, init, id, matching);
      assert q == init + [q[|q| - 1]];
      var r := Select(arrived, init, id, matching);
      forall a | 0 <= a < |r| ensures r[a] < q[|q| - 1] {
        assert r[a] in init;
      }
    }
  }

  lemma LastIsGreatest(ks: seq<nat>)
    requires forall a, b :: 0 <= a < b < |ks| ==> ks[a] < ks[b]
    ensures forall k :: k in ks ==> k <= ks[|ks| - 1]
  {
  }

  /** The positions a scan returns or passes over: all of its id, the last one greatest. */
  lemma HitsExact(l: Ledger, id: int)
    requires QueueOrdered(l)
    ensures var hits := Select(l.arrived, l.queue, id, true);
            && (forall k :: k in hits <==> k in l.queue && l.arrived[k].id == id)
            && (forall k :: k in hits ==> k <= hits[|hits| - 1])
  {
    SelectExact(l.arrived, l.queue, id, true);
    LastIsGreatest(Select(l.arrived, l.queue, id, true));
  }

  lemma ScanQueue(l: Ledger, id: int)
    requires QueueOrdered(l) && Select(l.arrived, l.queue, id, true) != []
    ensures var l' := Apply(l, Scan(id));
            QueueOrdered(l') && forall k :: k in l'.queue <==> k in l.queue && l.arrived[k].id != id
  {
    SelectExact(l.arrived, l.queue, id, false);
  }

  lemma ScanReturned(l: Ledger, id: int)
    requires QueueOrdered(l) && Select(l.arrived, l.queue, id, true) != []
    ensures var hits := Select(l.arrived, l.queue, id, true);
            var last := hits[|hits| - 1];
            var l' := Apply(l, Scan(id));
            && last in l.queue && l.arrived[last].id == id && l'.returned == l.returned + {last}
            && (forall k :: k in l'.superseded <==>
                  k in l.superseded || (k in l.queue && l.arrived[k].id == id && k != last))
            && (forall k :: k in l'.superseded ==>
                  if k in l.queue && l.arrived[k].id == id && k != last then k < last && l'.superseded[k] == last
                  else l'.superseded[k] == l.superseded[k])
  {
    HitsExact(l, id);
    var hits := Select(l.arrived, l.queue, id, true);
    var last := hits[|hits| - 1];
    assert last in hits;
    var superseded := Supersede(l.superseded, hits, last);
    assert Apply(l, Scan(id)).superseded == superseded;
    forall k | k in superseded
      ensures if k in l.queue && l.arrived[k].id == id && k != last then k < last && superseded[k] == last
              else superseded[k] == l.superseded[k]
    {
      assert k in hits <==> k in l.queue && l.arrived[k].id == id;
    }
  }

  lemma ScanKeepsApart(l: Ledger, id: int)
    requires Accounted(l) && Select(l.arrived, l.queue, id, true) != []
    ensures ReturnedApart(Apply(l, Scan(id)))
  {
    ScanQueue(l, id);
    ScanReturned(l, id);
  }

  lemma ScanSupersedes(l: Ledger, id: int)
    requires Accounted(l) && Select(l.arrived, l.queue, id, true) != []
    ensures SupersededByLater(Apply(l, Scan(id)))
  {
    ScanQueue(l, id);
    ScanReturned(l, id);
  }

  lemma ScanMissesNone(l: Ledger, id: int)
    requires Accounted(l) && Select(l.arrived, l.queue, id, true) != []
    ensures NoneMissing(Apply(l, Scan(id)))
  {
    ScanQueue(l, id);
    ScanReturned(l, id);
  }

  lemma ScanAccounts(l: Ledger, id: int)
    requires Accounted(l)
    ensures Accounted(Apply(l, Scan(id)))
  {
    if Select(l.arrived, l.queue, id, true) != [] {
      ScanQueue(l, id);
      ScanKeepsApart(l, id);
      ScanSupersedes(l, id);
      ScanMissesNone(l, id);
    }
  }

  lemma ViewAppend(arrived: seq<Received>, q: seq<nat>, k: nat)
    requires InRange(arrived, q) && k < |arrived|
    ensures InRange(arrived, q + [k]) && View(arrived, q + [k]) == View(arrived, q) + [arrived[k]]
  {
  }

  /** The ledger's scan is the client's scan. */
  lemma {:induction false} SelectIsScan(arrived: seq<Received>, q: seq<nat>, id: int, matching: bool)
    requires InRange(arrived, q)
    ensures InRange(arrived, Select(arrived, q, id, matching))
    ensures View(arrived, Select(arrived, q, id, matching))
         == if matching then Matching(View(arrived, q), id) else Others(View(arrived, q), id)
  {
    if q != [] {
      var init, k := q[..|q| - 1], q[|q| - 1];
      SelectIsScan(arrived, init, id, matching);
      assert q == init + [k];
      ViewAppend(arrived, init, k);
      OthersAppend(View(arrived, init), arrived[k], id);
      if (arrived[k].id == id) == matching {
        ViewAppend(arrived, Select(arrived, init, id, matching), k);
      }
    }
  }

  /** An arrival appends to the client's queue. */
  lemma ViewPush(l: Ledger, m: Received)
    requires Accounted(l)
    ensures Accounted(Apply(l, Push(m)))
    ensures var l' := Apply(l, Push(m)); View(l'.arrived, l'.queue) == View(l.arrived, l.queue) + [m]
  {
    StepAccounts(l, Push(m));
  }

  lemma ViewScan(l: Ledger, id: int)
    requires Accounted(l)
    ensures Accounted(Apply(l, Scan(id)))
    ensures var l' := Apply(l, Scan(id)); View(l'.arrived, l'.queue) == Others(View(l.arrived, l.queue), id)
  {
    StepAccounts(l, Scan(id));
    var q := View(l.arrived, l.queue);
    SelectIsScan(l.arrived, l.queue, id, false);
    if Select(l.arrived, l.queue, id, true) == [] {
      SelectIsScan(l.arrived, l.queue, id, true);
      NoMatchKeepsAll(q, id);
    }
  }

  lemma LastOfHits(l: Ledger, id: int)
    requires InRange(l.arrived, l.queue)
    ensures var hits := Select(l.arrived, l.queue, id, true);
            InRange(l.arrived, hits)
            && LastMatch(View(l.arrived, l.queue), id)
               == if hits == [] then None else Some(l.arrived[hits[|hits| - 1]])
  {
    SelectIsScan(l.arrived, l.queue, id, true);
  }

  /** What a scan returns is the last match of the client's queue, and nothing that was returned before. */
  lemma ScanReturnsLast(l: Ledger, id: int)
    requires Accounted(l)
    ensures var m := LastMatch(View(l.arrived, l.queue), id);
            var l' := Apply(l, Scan(id));
            && (m.None? ==> l' == l)
            && (m.Some? ==> exists k: nat :: k < |l.arrived| && l.arrived[k] == m.value && k !in l.returned
                                            && l'.returned == l.returned + {k})
  {
    LastOfHits(l, id);
    var hits := Select(l.arrived, l.queue, id, true);
    if hits != [] {
      ScanReturned(l, id);
      var k := hits[|hits| - 1];
      assert k < |l.arrived| && k in l.queue && k !in l.returned;
    }
  }

  lemma StepAccounts(l: Ledger, op: Op)
    requires Accounted(l)
    ensures Accounted(Apply(l, op))
  {
    match op
    case Push(m) =>
    case Scan(id) => ScanAccounts(l, id);
  }

  ghost function Exec(l: Ledger, ops: seq<Op>): Ledger
    requires Accounted(l)
    decreases |ops|
  {
    if ops == [] then l
    else
      StepAccounts(l, ops[0]);
      Exec(Apply(l, ops[0]), ops[1..])
  }

  /** Over any interleaving of arrivals and scans every message is returned, superseded by a later one
      of its id that was returned, or still queued, never two of these, and the queue keeps the order
      of arrival. */
  lemma {:induction false} EveryMessageAccounted(l: Ledger, ops: seq<Op>)
    requires Accounted(l)
    ensures Accounted(Exec(l, ops))
    decreases |ops|
  {
    if ops != [] {
      StepAccounts(l, ops[0]);
      EveryMessageAccounted(Apply(l, ops[0]), ops[1..]);
    }
  }

  /** The client's queue after arrivals and scans. */
  function QueueAfter(q: seq<Received>, ops: seq<Op>): seq<Received>
    decreases |ops|
  {
    if ops == [] then q
    else QueueAfter(match ops[0] case Push(m) => q + [m] case Scan(id) => Others(q, id), ops[1..])
  }

  /** Over any interleaving the ledger's queue is the client's. */
  lemma {:induction false} LedgerIsClient(l: Ledger, ops: seq<Op>)
    requires Accounted(l)
    ensures var l' := Exec(l, ops);
            Accounted(l') && View(l'.arrived, l'.queue) == QueueAfter(View(l.arrived, l.queue), ops)
    decreases |ops|
  {
    if ops != [] {
      match ops[0] {
        case Push(m) => ViewPush(l, m);
        case Scan(id) => ViewScan(l, id);
      }
      LedgerIsClient(Apply(l, ops[0]), ops[1..]);
    }
  }

  // ---- which waits succeed ----

  lemma {:induction false} KeptExact(ms: seq<Received>, m: Received)
    ensures m in Kept(ms) <==> m in ms && Queued(m)
  {
    if ms != [] {
      KeptExact(ms[..|ms| - 1], m);
      assert ms == ms[..|ms| - 1] + [ms[|ms| - 1]];
    }
  }

  /** A message is looked at by the `k`-th wakeup: it was queued before, or arrived in time and was not
      kept back by the receive thread. */
  ghost predicate Reaches(queue: seq<Received>, bursts: seq<Burst>, k: nat, m: Received)
    requires k <= |bursts|
  {
    m in queue || exists j :: 0 <= j < k && m in bursts[j].messages && Queued(m)
  }

  lemma {:induction false} TotalExact(queue: seq<Received>, bursts: seq<Burst>, k: nat, m: Received)
    requires k <= |bursts|
    ensures m in Total(queue, bursts, k) <==> Reaches(queue, bursts, k, m)
  {
    if k > 0 {
      TotalExact(queue, bursts, k - 1, m);
      KeptExact(bursts[k - 1].messages, m);
    }
  }

  lemma MatchExact(q: seq<Received>, id: int)
    ensures LastMatch(q, id).Some? <==> exists m :: m in q && m.id == id
    ensures LastMatch(q, id).Some? ==> LastMatch(q, id).value in q && LastMatch(q, id).value.id == id
  {
    var ms := Matching(q, id);
    if ms != [] {
      assert ms[|ms| - 1] in ms;
      ScanTakesAll(q, id, ms[|ms| - 1]);
    }
    forall m | m in q && m.id == id ensures ms != [] {
      ScanTakesAll(q, id, m);
    }
  }

  /** A wait has its answer by the `k`-th wakeup exactly if a message of its id was queued before, or
      arrived by then and is one the receive thread queues. */
  lemma WaitExact(queue: seq<Received>, bursts: seq<Burst>, k: nat, id: int)
    requires k <= |bursts|
    ensures LastMatch(Total(queue, bursts, k), id).Some? <==> exists m :: Reaches(queue, bursts, k, m) && m.id == id
  {
    var total := Total(queue, bursts, k);
    MatchExact(total, id);
    forall m ensures m in total <==> Reaches(queue, bursts, k, m) {
      TotalExact(queue, bursts, k, m);
    }
  }

  /** In terms of ids: whatever arrives while a client waits for it ends the wait, unless it is a push or an
      offline reply with "messages"; and nothing but what was queued before or has arrived can end one. */
  lemma ReplyExact(queue: seq<Received>, bursts: seq<Burst>, k: nat, id: int)
    requires k <= |bursts| && id != 2012 && id != 2009 && id != 2014
    ensures LastMatch(Total(queue, bursts, k), id).Some? <==>
            exists m: Received :: m.id == id && (m in queue || exists j :: 0 <= j < k && m in bursts[j].messages)
  {
    WaitExact(queue, bursts, k, id);
  }

  /** Pushes never enter the queue. */
  lemma PushesStayOut(queue: seq<Received>, bursts: seq<Burst>, k: nat, m: Received)
    requires k <= |bursts| && m in Total(queue, bursts, k)
    ensures m in queue || (m.id != 2012 && m.id != 2009)
  {
    TotalExact(queue, bursts, k, m);
  }

  /** The receive thread displays every reply that has "messages", and the server puts that field into
      every successful answer to an offline request: a wait for one is over exactly when a reply without
      the field, an error, has come or was queued before. */
  lemma OfflineReplyExact(queue: seq<Received>, bursts: seq<Burst>, k: nat)
    requires k <= |bursts| && forall m :: m in queue ==> Queued(m)
    ensures LastMatch(Total(queue, bursts, k), MSG_OFFLINE_MSG_RSP).Some? <==>
            exists m: Received :: m.id == MSG_OFFLINE_MSG_RSP && !m.hasMessages
                        && (m in queue || exists j :: 0 <= j < k && m in bursts[j].messages)
  {
    WaitExact(queue, bursts, k, MSG_OFFLINE_MSG_RSP);
  }

  /** The `/offline` command on an empty queue, with the server's successful reply among the first things
      to arrive and no error reply after it: the wait times out. */
  method WaitForOffline(client: Client, json: string, bursts: seq<Burst>)
    returns (result: Option<Received>, ghost timedOut: bool)
    requires client.recvQueue == [] && client.connected
    requires |bursts| > 0 && Received(MSG_OFFLINE_MSG_RSP, true, json) in bursts[0].messages
    requires forall k :: 0 <= k <= |bursts| ==> NoneDisconnects(bursts, k)
    requires forall j: nat, m: Received ::
               j < |bursts| && m in bursts[j].messages && m.id == MSG_OFFLINE_MSG_RSP ==> m.hasMessages
    modifies client
    ensures result.None? && timedOut && client.connected
  {
    ghost var wakeups;
    result, wakeups, timedOut := client.WaitForResponse(MSG_OFFLINE_MSG_RSP, bursts, []);
    OfflineReplyExact([], bursts, wakeups);
  }
}
