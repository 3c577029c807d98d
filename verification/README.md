# Instant-messaging server: a Dafny model

A proof project for the chat server in `CoroutineServer/` and the parts of `TestClient/` that share its
wire format.  Two layers are kept apart and tied together:

* **State machines and functions** (`Framing`, `WriteChain`, `Presence`, `RequestQueue`, `Accounts`,
  `Messages`).  Every lock region and every gap between lock regions that matters is a step, so a run is an
  interleaving of the threads.  The main results are stated over all runs or all reachable states.
* **Objects** (`MsgNodes`, `SessionWriter`, `SessionReader`, `DBManagers`, `Sessions`, `LogicSystems`, `MessageLoops`,
  `ResponseMatcher.Client`, `RoundRobin`). Classes with the source's fields, changed in place by methods with the
  source's branches, and contracts that give the whole new state. How each is tied to the layer below differs: the
  sender's state is one that `WriteChain` reaches; the worker loop carries the run of `RequestQueue` it has made; the
  database carries the history of `Accounts` calls it has made, and the logic system that of `Messages` steps, which each
  handler's contract extends by what it did; the sessions and the registry satisfy the invariant of `Presence`, and login
  and close are runs of that machine; the reader and the client's receiver are tied to the functions of `Framing`; the
  client's queue is that of a ledger of every message it ever queued; the pool's counter to the arithmetic of
  `RoundRobin`.
* **Requests from end to end** (`Effects`, `Deals`).  `Effects` says for each kind of request, in the fields of its body,
  how the state after it relates to the state before: tables, histories, sessions, registry, and what is sent.  Each
  handler's contract is its relation; the worker loop records for every handled request a `Deal` that satisfies the
  relation at the parse of the request's own body.  `Deals` proves what any such record adds up to: who registers can log
  in, who was told that a message is saved has it delivered, nobody sends in another's name.

| file | what it models |
|---|---|
| `Constants.dfy` | `const.h` |
| `Framing.dfy` | 4-byte header and body, both readers, the string overload of `Send` |
| `WriteChain.dfy`, `SessionWriter.dfy` | `Send`, `HandleWrite`, partial socket writes, failure, close |
| `MsgNodes.dfy`, `SessionReader.dfy` | buffers, the server's read loop, the client's reader and `SendMsg` |
| `Presence.dfy` | login, kick, bind, register against closes by any thread, at two grains |
| `RequestQueue.dfy` | the bounded request queue, its condition variable, shutdown |
| `Accounts.dfy`, `Messages.dfy`, `DBManager.dfy` | users, friends, messages: table functions, histories, the object |
| `Sessions.dfy` | sessions and the registry of online users, as logins and closes see them |
| `Effects.dfy`, `Deals.dfy` | what each kind of request does, and what lists of handled requests add up to |
| `LogicSystem.dfy`, `MessageLoop.dfy` | the handlers; the worker thread's queue and loop |
| `ResponseMatcher.dfy` | the client's receive thread and `WaitForResponse` |
| `RoundRobin.dfy` | the pool's 64-bit round-robin counter |

## How the outside world enters

* Threads other than the one a method models appear as arguments: `stopAfter` (when a read loop's guard sees
  the stop flag), `script` (what is posted and closed before each turn of the worker, what is posted while a handler
  runs, spurious wakeups), `gaps` (which sessions are closed between the steps of a login), `bursts` and `late` (what
  the receive thread queues while `WaitForResponse` sleeps, and at its timeout).
* SQLite appears as answers: `fails` (prepare or step failed), `blind` (stepping the query for a pair of friends
  failed), `gap` (AUTOINCREMENT may skip row ids but never goes back), `rows` (how many rows stepping a SELECT yields
  before it ends), `marks` (whether the UPDATE succeeds).
* `SimpleHash` is an arbitrary function, not assumed injective.  JSON parsing is an arbitrary function from body
  bytes to the fields a handler looks at, each missing, of the wrong type, or present.
* `alive`/`expired` stand for the reference count of a session; the destructor's `Close` is the step `Expire`.
* The fields of `CSession` are spread over `SessionReader.Reader`, `SessionWriter.Sender` and
  `Sessions.CSession`, because the read loop, the send path and login/close use disjoint groups of fields under
  different locks.  They share only the stop flag, of which each class has a copy that nothing here connects to the
  others; what one part does when another sets the flag is covered by `stopAfter`, by the step `Stop` of `WriteChain`
  and by the step `Flag` of `Presence`.

## Properties that fail, and when exactly they hold

* **Single device with real closes.** `RemoveOnlineUser` erases by uid without comparing sessions
  (`CoroutineServer/UserManager.cpp:26-36`), so a close that a login of the same account overtakes erases the new
  login's entry.  `Presence.RaceBreaksSingleDevice` is the run, for any three sessions and any account.
  `Presence.StepExact` and `Presence.RunExact` say exactly which steps and runs leave an open session unregistered, and
  `Presence.SingleDeviceExact` exactly which steps make two open sessions of one account possible later: those that erase
  the entry of a session the login under way, if any, is not about to close or bind anew.  With closes atomic, or with no
  other close of the account pending during a login, the guarantee holds without exception.
* **A login leaves its session logged in.** The handler closes whatever session is registered for the account without
  asking whether it is the one logging in (`CoroutineServer/LogicSystem.cpp:225-233`), so a session that logs in to its
  account again closes itself before it is answered: `Presence.SecondLoginClosesItself`.  `Presence.LoginExact` says
  exactly when an undisturbed login leaves its session open and bound, `Presence.LoginEffect` what any login leaves.
* **Registry entries after a second login.** A session that logs in again under a second account leaves its
  first account's entry behind, and is then found when a message for the first account is pushed:
  `Presence.SecondLoginMisleads` is the run, `Presence.FaithfulRunExact` says exactly which runs avoid it.
* **Each friendship stored once.** When the query for an existing friendship fails, `AddFriend` goes on to the INSERT
  (`CoroutineServer/DBManager.cpp:278-284`), and UNIQUE covers only one direction: `Accounts.PairStoredTwice` is a
  history, `Accounts.PairsStoredOnce` says exactly which histories do it.  Friend lists stay duplicate-free and
  symmetric all the same (`Accounts.FriendListExact`).
* **Conservation of messages.** `Messages.Conservation` says exactly which runs hand out each message once and in order
  or keep it pending, `Messages.NothingIsLost` exactly which lose nothing, `Messages.AtMostOneBatch` exactly which never
  repeat one in a second batch.  A message is lost when stepping the SELECT ends early and the UPDATE, which marks every
  pending row, succeeds (`Messages.MessageIsLost` is a run); one is repeated when the UPDATE fails and the account pulls
  again (`Messages.MessageIsRepeated`).
* **Exactly one delivery.** A live push does not mark its row, so the recipient's next pull hands the same message out
  again: `Messages.MessageComesTwice` is a run, `Messages.LivePushComesBack` says exactly when.
* **Orderly shutdown.** The stop flag is written without the mutex; `RequestQueue.ShutdownCanHang` is a reachable state
  with the flag set, its only notification spent and the worker asleep.  `RequestQueue.ShutdownExact` says exactly when
  the worker leaves its loop.
* **Long texts.** The string overload of `Send` casts the length to `short` first, so a text of 65537 bytes is sent as
  one byte: `Framing.LongTextIsTruncated`, exact condition in `Framing.StringFrameExact`.
* **Waiting for an offline reply.** The client's receive thread keeps every reply with a "messages" field to itself, and
  the server puts that field into every successful answer to an offline request.  `ResponseMatcher.WaitExact` says exactly
  when a wait has its answer, `ResponseMatcher.OfflineReplyExact` what that means for offline replies, and
  `ResponseMatcher.WaitForOffline` is the wait that times out although the reply came.
* **Fair shares.** `RoundRobin.FairExact`: no window of calls favours a context by more than one exactly if the pool size
  divides 2^64; otherwise `RoundRobin.WrapCanFavourOne` is a window that favours one by two.

Where documentation and code disagree the code is followed: `TEST_PLAN.md:74` expects a chat to uid 999 to be rejected,
but `SaveMessage` never checks that the recipient exists; `TEST_PLAN.md:160` gives 1000 as the lowest message id, the code
has 1001; `TEST_PLAN.md:89` and `TEST_PLAN.md:94` expect an answer to `/offline` to reach the waiting caller, which
`OfflineReplyExact` rules out.

## Model

| member | source | states |
|---|---|---|
| Framing.ShortSurvives | TestClient/TestClient.cpp:137-143 | network-to-host undoes host-to-network for every signed 16-bit value |
| Framing.BytesSurvive | CoroutineServer/CSession.cpp:64-78 | host-to-network undoes network-to-host for every pair of bytes, so no header is read ambiguously |
| Framing.WireFormat | CoroutineServer/MsgNode.cpp:8-17 | byte by byte, a frame is its id modulo 65536 and its body length, each high byte first, then the body |
| Framing.HeaderMeans | CoroutineServer/CSession.cpp:64-78 | the id and the length a reader takes from four header bytes are the signed 16-bit values they spell high byte first |
| Framing.ParseReadsBytes | CoroutineServer/CSession.cpp:51-102 | in terms of bytes alone: a stream begins with a frame for a reader iff four bytes are there, the length they spell is in 1..2048 and that many bytes follow, and for the server the id is in 1001..9999; the frame has that id and those bytes |
| Framing.ParseEncoded | CoroutineServer/CSession.cpp:51-102 | a reader given an encoded acceptable frame and anything after it yields that frame and leaves exactly what came after |
| Framing.ParseTruncated | TestClient/TestClient.cpp:129-152 | a proper prefix of an acceptable frame's encoding is never parsed and never refused |
| Framing.ParseIsExact | CoroutineServer/CSession.cpp:51-102 | a parsed frame re-encodes to exactly the bytes that were consumed |
| Framing.RoundTrip | CoroutineServer/MsgNode.cpp:8-17 | decoding the encodings of any list of acceptable frames gives the list back, and what follows is decoded on its own; for the client every id, for the server ids 1001..9999, bodies of 1..2048 bytes |
| Framing.DecodeEncoded | TestClient/TestClient.cpp:89-111 | encode then decode is the identity on lists of acceptable frames, for either peer |
| Framing.PrefixDecodes | TestClient/TestClient.cpp:125-159 | any prefix of an encoded stream decodes to the frames that lie whole inside it, all of them and no others |
| Framing.DecodeIsExact | CoroutineServer/CSession.cpp:51-102 | for any byte stream, the frames read are acceptable and together with the unread residue make up the stream byte for byte |
| Framing.ParseStable | CoroutineServer/CSession.cpp:51-102 | once a frame is parsed or refused, bytes that arrive later do not change that |
| Framing.DecodeMonotone | TestClient/TestClient.cpp:167-225 | a longer stream only extends the list of decoded frames |
| Framing.EncodeAllInjective | CoroutineServer/MsgNode.cpp:8-17 | two lists of acceptable frames with the same bytes are the same list |
| Framing.StringFrameExact | CoroutineServer/CSession.cpp:193-197 | an n-byte text is queued iff n mod 65536 is in 1..2048, then only its first n mod 65536 bytes; the whole text iff n is in 1..2048 |
| Framing.LongTextIsTruncated | CoroutineServer/CSession.cpp:193-197 | a text of 65537 bytes goes out as its first byte, so the peer does not decode the text |
| WriteChain.PushKeepsInv | CoroutineServer/CSession.cpp:158-173 | the lock region of Send keeps token, queue and wire invariants, with any other threads' steps pending |
| WriteChain.AdvanceKeepsInv | CoroutineServer/CSession.cpp:186-190 | a partial write of the frame in flight keeps the wire invariant: completed frames, then part of the front |
| WriteChain.CompleteKeepsInv | CoroutineServer/CSession.cpp:203-208 | popping after a whole frame is written keeps the invariant |
| WriteChain.StartKeepsInv | CoroutineServer/CSession.cpp:186-190 | starting the write keeps the invariant: the token moves from about-to-start to in flight |
| WriteChain.FailKeepsInv | CoroutineServer/CSession.cpp:217-219 | a failed write takes the token away for good and keeps the invariant, with the front left in the queue |
| WriteChain.StepKeepsInv | CoroutineServer/CSession.cpp:145-229 | every step of every thread on a session keeps the invariant |
| WriteChain.RunKeepsInv | CoroutineServer/CSession.cpp:145-229 | so does every run |
| WriteChain.WireIsPrefix | CoroutineServer/CSession.cpp:145-229 | the bytes on the socket are a prefix of the accepted frames' encodings in acceptance order |
| WriteChain.PeerReadsPrefix | CoroutineServer/CSession.cpp:145-229 | in every reachable state the peer decodes a prefix of the accepted frames, at least the completed ones and at most one more, and never meets a header it refuses |
| WriteChain.ResidueOfPrefix | TestClient/TestClient.cpp:144-147 | on any prefix of encoded frames the client's reader ends by waiting, not by refusing |
| WriteChain.OneWriteAtATime | CoroutineServer/CSession.cpp:165-186 | at most one write is about to start or in flight; until a write fails there is one exactly when the queue is non-empty; the queue holds at most 1001 frames |
| WriteChain.CompletePopsWhatWasWritten | CoroutineServer/CSession.cpp:203-205 | the handler never pops an empty queue, and pops the frame that was written |
| WriteChain.FailureIsFinal | CoroutineServer/CSession.cpp:217-221 | after a failed write the wire never changes, no write starts, and only senders already past the stop check can still queue |
| WriteChain.DroppedOnlyWhenFull | CoroutineServer/CSession.cpp:159-163 | inside the lock region a frame is refused exactly when the queue holds 1001 frames |
| WriteChain.WriterStepProgresses | CoroutineServer/CSession.cpp:186-214 | each writer step decreases a measure of the work left and accepts nothing new |
| WriteChain.WriterIsEnabled | CoroutineServer/CSession.cpp:203-214 | while frames are queued on an open socket and no write failed, a writer step is possible: no frame is stranded |
| WriteChain.WritersDrain | CoroutineServer/CSession.cpp:203-216 | every schedule of writer steps stops within the measure, and when none is left the peer decodes exactly the accepted frames |
| WriteChain.BoundIsReached | CoroutineServer/const.h:14 | the bound of 1001 queued frames is reached in some run |
| SessionWriter.Sender.Send | CoroutineServer/CSession.cpp:145-191 | drops on the stop flag or a length outside 1..2048 without a change; otherwise it is a run of the write machine, and it hands over a buffer, holding the front frame's encoding, exactly when that run starts a write |
| SessionWriter.Sender.SendString | CoroutineServer/CSession.cpp:193-197 | queues exactly the frame StringFrame gives, or nothing, and hands over a buffer exactly when that starts a write |
| SessionWriter.Sender.HandleWrite | CoroutineServer/CSession.cpp:199-229 | without error pops the front and hands over the next frame's buffer iff one is queued; with error leaves the queue, sets the flag, and closes the socket iff the flag was not set before; both are runs of the write machine |
| SessionWriter.Sender.Advance | CoroutineServer/CSession.cpp:186-190 | bytes the socket takes of the write in flight are a step of the write machine |
| SessionWriter.Sender.Close | CoroutineServer/CSession.cpp:114-126 | the first close sets the flag and closes the socket, later ones change nothing |
| SessionWriter.SendFrameIsRun | CoroutineServer/CSession.cpp:158-190 | an uninterrupted Send reaches only reachable states, appends unless the queue is full, and starts a write iff the queue was empty |
| SessionWriter.CompleteIsRun | CoroutineServer/CSession.cpp:203-216 | an uninterrupted successful completion reaches only reachable states and drops exactly the front |
| SessionWriter.FailIsRun | CoroutineServer/CSession.cpp:217-221 | a failed completion with the close it causes reaches only reachable states, sets the flag and leaves the queue |
| MsgNodes.MsgNode.Buffer | CoroutineServer/MsgNode.h:18-20 | a fresh zeroed buffer one byte longer than its total length |
| MsgNodes.MsgNode.ForSend | CoroutineServer/MsgNode.cpp:8-17 | the buffer's bytes are the frame's encoding: two bytes that spell the id modulo 65536 high byte first, two that spell the length so, then the first `maxLen` bytes of the body |
| MsgNodes.MsgNode.Clear | CoroutineServer/MsgNode.h:25-28 | zeroes the first total-length bytes, leaves the last one, resets the current length |
| SessionReader.Reader.ReadFrame | CoroutineServer/CSession.cpp:52-101 | reads one frame into a node of its own and leaves the rest of the stream, or reports why it stops, exactly as the frame parser does |
| SessionReader.Reader.Turn | CoroutineServer/CSession.cpp:51-103 | one turn posts one frame in a fresh node and leaves every earlier node intact, or closes the session |
| SessionReader.Reader.Start | CoroutineServer/CSession.cpp:45-112 | on any stream the posted nodes are the decoded frames in order, each still holding the body it was parsed with and sharing no buffer with another or with the header node; the loop ends at the stop flag, at the end of the stream or at a bad header, as the stream dictates |
| SessionReader.HandledInStreamOrder | CoroutineServer/CSession.cpp:102 | with the nodes as the read loop leaves them posted for a session, its requests are handled with the bodies and in the order in which they stand in its byte stream, whatever else is queued in between |
| SessionReader.RecvOneMessage | TestClient/TestClient.cpp:125-164 | succeeds exactly when the client's parser does, with that frame, leaving the rest |
| SessionReader.RecvAll | TestClient/TestClient.cpp:167-179 | the receive thread gets exactly the frames the stream decodes to, up to the moment it sees the stop flag |
| SessionReader.SendMsg | TestClient/TestClient.cpp:89-122 | writes nothing for a text over 2048 bytes; otherwise id and length high byte first and then the text, from which either peer decodes exactly the frame if the text is not empty and, for the server, the id acceptable |
| Presence.InvIsSingleDevice | CoroutineServer/LogicSystem.cpp:224-233 | the invariant implies that no two open sessions are bound to one account |
| Presence.LoginStepKeepsInv | CoroutineServer/LogicSystem.cpp:225-233 | lookup, kick, bind and register each keep the invariant, for any session, also one already logged in or closed |
| Presence.RemoveExact | CoroutineServer/UserManager.cpp:26-36 | erasing by uid keeps the invariant iff the entry is not that of another open, bound session |
| Presence.StepExact | CoroutineServer/CSession.cpp:114-140 | for every step of every thread: the invariant survives iff the step does not erase a live entry |
| Presence.RunExact | CoroutineServer/CSession.cpp:114-140 | a run keeps every open bound session registered throughout iff it never erases a live entry, and then no account has two open sessions |
| Presence.ErasureAdmitsSecond | CoroutineServer/UserManager.cpp:26-36 | after any erasure of a live entry of a session the worker does not hold, the login under way can end and a new session that logs in to the account is its second open one, with nothing erased in between |
| Presence.SingleDeviceExact | CoroutineServer/UserManager.cpp:26-36 | for every step of every thread, idle worker or not: some continuation that erases nothing reaches two open sessions of one account iff the step erases a live entry of a session the worker does not hold |
| Presence.LoginEnds | CoroutineServer/LogicSystem.cpp:225-233 | with an entry erased, a login under way elsewhere can always be brought to its end without a further erasure |
| Presence.InvButStep | CoroutineServer/LogicSystem.cpp:225-233 | a session that lost its entry while a login holds it is harmless: every step that erases nothing keeps the invariant but for it, or restores it |
| Presence.DisciplineStep | CoroutineServer/CSession.cpp:128-140 | while no other close of the account is pending during its login, no step erases a live entry and the discipline is kept |
| Presence.PendingOrigin | CoroutineServer/CSession.cpp:114-136 | where a pending close of an account can come from |
| Presence.BoundOrigin | CoroutineServer/LogicSystem.cpp:232 | where a bound open session can come from |
| Presence.SingleDeviceWithoutOverlap | CoroutineServer/LogicSystem.cpp:224-233 | with closes split into flag, take and remove, single device and registration hold in every run in which no other close of an account overlaps its login |
| Presence.RaceStart | CoroutineServer/CSession.cpp:114-140 | the run below begins: three sessions connect |
| Presence.RaceMiddle | CoroutineServer/CSession.cpp:114-140 | its first half: a login, a close that has only set the flag, and a second login that overtakes it |
| Presence.RaceBreaksSingleDevice | CoroutineServer/UserManager.cpp:26-36 | a feasible run from nothing, for any three sessions and any account, ending with two open sessions bound to it; it violates the overlap condition |
| Presence.FinishKeepsInv | CoroutineServer/CSession.cpp:114-143 | a close completed without interruption never erases somebody else's entry |
| Presence.LeapKeepsInv | CoroutineServer/LogicSystem.cpp:225-233 | with closes atomic every stride keeps the invariant |
| Presence.SingleDeviceWithAtomicClose | CoroutineServer/LogicSystem.cpp:224-233 | with closes atomic but login in four steps interleaved with closes, single device and registration hold in every run, with no condition |
| Presence.CloseNowEffect | CoroutineServer/CSession.cpp:114-143 | a whole close changes nothing if the flag was set; otherwise it unbinds the session and erases its uid's entry |
| Presence.KickEffect | CoroutineServer/LogicSystem.cpp:225-230 | a whole kick is a close of the session that was found, if any, whatever happened to it since |
| Presence.LoginAroundKeepsInv | CoroutineServer/LogicSystem.cpp:224-233 | a login with any sessions closed between its four steps keeps the invariant and comes to its end |
| Presence.LoginAroundIsRun | CoroutineServer/LogicSystem.cpp:224-233 | such a login is a run of the machine with atomic closes |
| Presence.LoginEffect | CoroutineServer/LogicSystem.cpp:224-233 | whatever is closed meanwhile, a login leaves its session registered for the account; a session is open afterwards iff it was before, was not the one found registered, and is closed in no gap; the one that logged in is then bound to the account; one that nobody closed is unchanged |
| Presence.LoginExact | CoroutineServer/LogicSystem.cpp:224-233 | an undisturbed login leaves its session open and bound iff it was open and not itself the one registered for the account |
| Presence.SecondLoginClosesItself | CoroutineServer/LogicSystem.cpp:225-233 | a session that logs in twice to the same account is closed by its own second login, and stays in the registry closed |
| Presence.LoginFades | CoroutineServer/LogicSystem.cpp:224-233 | a login gives one session the account; every other session keeps its account or loses it by being closed |
| Presence.DestroyEffect | CoroutineServer/CSession.cpp:16-27 | a session's destruction between logins is a close after which its references fail |
| Presence.FaithfulExact | CoroutineServer/LogicSystem.cpp:232-233 | registry entries stay those of sessions bound to the same uid, except in exactly one step: binding an open session that is still registered for another account, which in every state of the invariant is one that is already bound |
| Presence.FaithfulRunExact | CoroutineServer/LogicSystem.cpp:232-233 | in every run all entries stay faithful throughout iff no step binds such a session |
| Presence.SecondLoginMisleads | CoroutineServer/LogicSystem.cpp:449-458 | for any session and two accounts: logged in under both, it is found for the first while bound to the second |
| RequestQueue.PostKeepsInv | CoroutineServer/LogicSystem.cpp:23-37 | posting keeps accepted = handled + in hand + queued, the bound and the subsequence of offers |
| RequestQueue.EvaluateKeepsInv | CoroutineServer/LogicSystem.cpp:57-68 | evaluating the wait predicate, taking the front or leaving keeps the invariant |
| RequestQueue.RunKeepsInv | CoroutineServer/LogicSystem.cpp:23-89 | so does every run, spurious wakeups included |
| RequestQueue.QueueIsFifo | CoroutineServer/LogicSystem.cpp:54-68 | at all times the accepted requests are the handled ones, then the one in hand, then the queue, which has at most 10000 |
| RequestQueue.NoLostWakeup | CoroutineServer/LogicSystem.cpp:33-36 | a worker asleep without a pending notification faces an empty queue with everything handled, though notify fires only when the size becomes 1 |
| RequestQueue.DroppedOnlyWhenFull | CoroutineServer/LogicSystem.cpp:26-33 | a post is dropped exactly when it finds 10000 requests |
| RequestQueue.SessionOrder | CoroutineServer/LogicSystem.cpp:66-67 | each session's handled frames are a subsequence of what it posted; if that is a prefix of what its byte stream decodes to, which SessionReader.HandledInStreamOrder derives from the read loop, also of that stream's frames |
| RequestQueue.WorkerStepProgresses | CoroutineServer/LogicSystem.cpp:54-88 | each worker step decreases the work left and accepts nothing |
| RequestQueue.ExitOnlyWhenDrained | CoroutineServer/LogicSystem.cpp:62-64 | the worker leaves its loop only with the flag set, the queue empty and everything accepted handled |
| RequestQueue.WorkerDrains | CoroutineServer/LogicSystem.cpp:54-68 | once posting has ceased and no notification is pending, the worker stops within the measure with everything handled; with the flag set it has left the loop iff it had not already found the predicate false |
| RequestQueue.ShutdownExact | CoroutineServer/LogicSystem.cpp:45-68 | from any state with the flag set and its notification to come, under every schedule of the two: when nothing is left to happen all accepted requests are handled, and the worker has left its loop iff it was not between its check and its sleep when the notification came |
| RequestQueue.ShutdownCanHang | CoroutineServer/LogicSystem.cpp:45-48 | a reachable state with the flag set, its notification spent and the worker asleep with no step left |
| Accounts.CountMeansBothExist | CoroutineServer/DBManager.cpp:241-259 | COUNT of two different uids is at least 2 iff both users exist, because uids are unique |
| Accounts.SignUpKeepsInv | CoroutineServer/DBManager.cpp:128-178 | a registration keeps all table invariants |
| Accounts.BefriendKeepsInv | CoroutineServer/DBManager.cpp:224-307 | a friend addition keeps all table invariants |
| Accounts.UsersStayUnique | CoroutineServer/DBManager.cpp:128-178 | over any history usernames are unique and uids positive, strictly increasing, never reused, and the table mirrors the accepted registrations |
| Accounts.LoginIsExact | CoroutineServer/DBManager.cpp:180-220 | login answers (true, u) iff the registration that created u used that name and a non-empty password of equal hash, else (false, 0) |
| Accounts.LoginExact | CoroutineServer/DBManager.cpp:180-220 | the same after any history of operations |
| Accounts.RegisteredLogsIn | CoroutineServer/DBManager.cpp:128-220 | after an accepted registration and any history since, login under that name succeeds iff the password is non-empty and of equal hash, and yields the uid of that registration |
| Accounts.RegistrationsStay | CoroutineServer/DBManager.cpp:128-178 | accepted registrations are never taken back |
| Accounts.FriendRowsExact | CoroutineServer/DBManager.cpp:309-344 | b is in the full list of a iff the pair was accepted, and then both exist and differ |
| Accounts.FriendListExact | CoroutineServer/DBManager.cpp:309-344 | after any history the friend list is duplicate-free, symmetric, and lists exactly the partners in accepted pairs |
| Accounts.BefriendExact | CoroutineServer/DBManager.cpp:261-299 | a step stores a pair in both directions iff it is an insert that succeeds after the query for the pair failed, against the direction already stored |
| Accounts.BothDirectionsStay | CoroutineServer/DBManager.cpp:286-303 | a pair stored in both directions is never repaired by later steps |
| Accounts.RunOneDirectionExact | CoroutineServer/DBManager.cpp:224-307 | a history leaves every pair in one direction iff it has no such insert |
| Accounts.PairsStoredOnce | CoroutineServer/DBManager.cpp:224-307 | after any history each ordered pair is stored at most once, between existing distinct users; each unordered pair at most once iff the history has no such insert |
| Accounts.PairStoredTwice | CoroutineServer/DBManager.cpp:224-307 | a history, for any two names and passwords, that stores a pair in both directions |
| Accounts.AddFriendExact | CoroutineServer/DBManager.cpp:224-307 | after any history an addition that does not fail succeeds iff the uids differ, both were registered, and neither this pair nor, unless the query for it failed, the reverse one was accepted before |
| Accounts.RegisteredExact | CoroutineServer/DBManager.cpp:128-178 | the names and uids in the users table are those of the accepted registrations |
| Messages.UndeliveredMarked | CoroutineServer/DBManager.cpp:433-443 | marking empties the pending messages of one account and touches no other account's |
| Messages.UndeliveredIncreasing | CoroutineServer/DBManager.cpp:402-407 | pending messages come in increasing order of id |
| Messages.UndeliveredExact | CoroutineServer/DBManager.cpp:402-407 | the SELECT yields a message iff it is to the account and its row is not marked |
| Messages.GetOfflineMeans | CoroutineServer/DBManager.cpp:391-453 | a batch holds only unmarked messages to the account, and all of them when reading ends before the limit; afterwards exactly the rows that were marked before or, if something was read and the UPDATE succeeds, are to the account are marked |
| Messages.PullConservesExactly | CoroutineServer/DBManager.cpp:391-453 | batch followed by what is still pending equals what was pending iff nothing was pending or read, or everything was read and marked |
| Messages.PullLosesExactly | CoroutineServer/DBManager.cpp:419-449 | a pending message is in neither the batch nor the rest iff the SELECT ended early with some rows and the UPDATE succeeded |
| Messages.ChatKeepsInv | CoroutineServer/LogicSystem.cpp:445-458 | saving and pushing keeps: rows mirror saves, ids increase, every push is above all earlier offers |
| Messages.PullKeepsInv | CoroutineServer/LogicSystem.cpp:239-259 | a pull keeps the same |
| Messages.PushIsAboveEverythingBefore | CoroutineServer/LogicSystem.cpp:445-458 | over every run a live push has an id above every id offered before it, live or in a batch, to anybody |
| Messages.PushedAtMostOnce | CoroutineServer/LogicSystem.cpp:445-458 | live pushes, over all sessions and to each, have strictly increasing ids, so each message is pushed at most once |
| Messages.AccountStep | CoroutineServer/DBManager.cpp:348-453 | every chat and pull changes what is saved, handed out and pending for one account as its own change says, and leaves every other account alone |
| Messages.ConservedExact | CoroutineServer/DBManager.cpp:391-453 | batches + pending = saved holds after a step iff it held before and the step is clean: once broken it stays broken |
| Messages.Conservation | CoroutineServer/DBManager.cpp:348-453 | over every run, all batches for an account followed by its pending rows equal all messages saved to it, which are in id order, iff every pull for it found nothing, read nothing, or read and marked everything |
| Messages.RepeatsExact | CoroutineServer/DBManager.cpp:419-449 | what was handed out stays free of repetitions iff the pull does not begin with a message that was in a batch before |
| Messages.StaleExact | CoroutineServer/DBManager.cpp:431-449 | the first pending message comes to be one that was handed out iff it was before or the pull read something and its UPDATE failed |
| Messages.RepeatsAfterUnmarked | CoroutineServer/DBManager.cpp:431-449 | from a state whose first pending message was in no batch, a run never begins a batch with a message handed out before iff no pull for the account reads after one that read something and did not mark |
| Messages.AtMostOneBatch | CoroutineServer/DBManager.cpp:431-449 | over every run, each message is in at most one batch iff no pull for the account reads after one that read something and whose UPDATE failed; so whenever marking succeeds, even if reads end early |
| Messages.LosesExact | CoroutineServer/DBManager.cpp:419-449 | nothing is lost after a step iff nothing was lost before and the step is no losing pull |
| Messages.NothingIsLost | CoroutineServer/DBManager.cpp:433-449 | over every run, each saved message is in a batch or still pending iff no pull marks everything after reading only a part, with something unread that was in no earlier batch; so whenever marking fails or the marked reads are whole |
| Messages.LivePushComesBack | CoroutineServer/LogicSystem.cpp:445-458 | whatever happens between a live push and the recipient's next pull, that pull hands the same message out again iff it reads past the messages pending before it |
| Messages.MessageIsLost | CoroutineServer/DBManager.cpp:419-449 | a run from empty tables, for any two texts, that loses a message |
| Messages.MessageIsRepeated | CoroutineServer/DBManager.cpp:431-449 | a run from empty tables, for any two texts, that puts a message into two batches |
| Messages.MessageComesTwice | CoroutineServer/LogicSystem.cpp:445-458 | a run from empty tables, for any text and session, that pushes a message live and then batches it |
| DBManagers.DBManager.constructor | CoroutineServer/DBManager.cpp:13-31 | a database whose tables were just created: empty tables are the run of an empty history |
| DBManagers.DBManager.RegisterUser | CoroutineServer/DBManager.cpp:128-178 | succeeds iff both arguments are non-empty, no accepted registration has the name and SQLite does not fail; then exactly this registration is added; the history grows by exactly this call |
| DBManagers.DBManager.LoginUser | CoroutineServer/DBManager.cpp:180-220 | changes nothing; without a database error answers with account u iff an accepted registration of this username with a password of equal hash got u, and with one never succeeds |
| DBManagers.DBManager.AddFriend | CoroutineServer/DBManager.cpp:224-307 | succeeds iff the uids differ, both were registered, neither this pair nor, unless the query failed, the reverse one was accepted before, and SQLite does not fail; then exactly this pair is added; the history grows by exactly this call |
| DBManagers.DBManager.GetFriendList | CoroutineServer/DBManager.cpp:309-344 | the row loop yields distinct accepted partners, and all of them when stepping is not cut short |
| DBManagers.DBManager.SaveMessage | CoroutineServer/DBManager.cpp:348-389 | -1 and no change on bad arguments or failure, otherwise exactly one undelivered row with these fields and an id above all earlier ones |
| DBManagers.DBManager.GetOfflineMessages | CoroutineServer/DBManager.cpp:391-453 | returns only undelivered messages to the account, all of them when reading is not cut short, and marks exactly the rows to the account if any was read and the UPDATE succeeds; conserves exactly in the clean cases |
| Sessions.CSession.Close | CoroutineServer/CSession.cpp:114-143 | idempotent; makes exactly the atomic close of the presence machine |
| Sessions.UserManager.AddOnlineUser | CoroutineServer/UserManager.cpp:12-24 | registers the session under a positive uid, ignores others |
| Sessions.UserManager.RemoveOnlineUser | CoroutineServer/UserManager.cpp:26-42 | erases the entry of the uid whatever session it holds |
| Sessions.UserManager.GetSessionByUid | CoroutineServer/UserManager.cpp:44-61 | the live session registered for the uid, if any; an expired entry is erased on the way |
| LogicSystems.LogicSystem.Guarantees | CoroutineServer/LogicSystem.cpp:140-520 | whatever the handlers have done, the objects satisfy single device, registration, increasing live pushes, the account invariants, conservation of messages iff the pulls made were clean, and at most one batch for each message if they marked |
| LogicSystems.LogicSystem.Destroy | CoroutineServer/CSession.cpp:16-27 | the destructor's close with the end of the session's references is the machine's destruction of the session |
| Deals.MarkedOnce | CoroutineServer/DBManager.cpp:431-449 | if the UPDATE succeeded for every handled request, no account was handed a message in two batches |
| LogicSystems.LogicSystem.RegisterRequest | CoroutineServer/LogicSystem.cpp:140-187 | `Effects.Registers`: `Done` iff the body has a username and a password of admissible lengths, no accepted registration has the name and the database does not fail; then exactly the registration of these two fields is added; nothing else changes |
| Deals.RegisteredCanLogIn | CoroutineServer/LogicSystem.cpp:145-274 | whoever was answered `Done` when registering is, in every later login under the same username with a password of admissible length and without a database error, answered with the registered account iff the password has an equal hash, whatever was handled in between |
| LogicSystems.LogicSystem.LoginRequest | CoroutineServer/LogicSystem.cpp:190-276 | reaches account u iff the body has a username and a password of admissible lengths and the accepted registration of that name with a password of equal hash got u, and never on a database error; `Effects.LogsIn`: then the login with any closes between its steps, one pull, a batch iff it is non-empty, one answer with its size; otherwise one refusal and no change |
| LogicSystems.LogicSystem.Welcome | CoroutineServer/LogicSystem.cpp:224-260 | admission first, then the pull and its batch |
| LogicSystems.LogicSystem.Admit | CoroutineServer/LogicSystem.cpp:224-233 | with the closes other threads make between the steps: the session ends up registered and, if still open, bound; exactly the session registered before and those closed by others are closed; every other session is unchanged |
| LogicSystems.LogicSystem.PullOffline | CoroutineServer/LogicSystem.cpp:239-260 | makes exactly one pull of the delivery machine, adds it to the run, and offers its batch; at login only a non-empty one |
| LogicSystems.LogicSystem.GetFriendListRequest | CoroutineServer/LogicSystem.cpp:279-310 | `Effects.ListsFriends`: one answer: an error when not logged in, otherwise the friend list; nothing else changes |
| LogicSystems.LogicSystem.AddFriendRequest | CoroutineServer/LogicSystem.cpp:313-383 | `Effects.Befriends`: accepted iff logged in, the body names another account, both exist, the pair is new and the database does not fail; then exactly this pair is stored, and the friend's live session is told before the requester is answered |
| LogicSystems.LogicSystem.ChatMessageRequest | CoroutineServer/LogicSystem.cpp:386-477 | a message is saved iff the sender is logged in, the body has a positive recipient and a text of 1 to 2048 characters, and the database does not fail; it is from the sender's account with the body's recipient and text; `Effects.Chats`: it is pushed to the live session registered for that recipient, and the answer carries its id |
| LogicSystems.LogicSystem.GetOfflineMessageRequest | CoroutineServer/LogicSystem.cpp:480-520 | `Effects.PullsOffline`: one answer: an error when not logged in, otherwise the batch of exactly one pull, even if empty |
| LogicSystems.LogicSystem.HelloWorldCallBack | CoroutineServer/LogicSystem.cpp:116-132 | `Effects.Echoes`: the echo goes out under the 16-bit id congruent to the one in the JSON; nothing is sent when JSON or types are bad, and nothing else changes |
| Deals.OneAnswerCounts | CoroutineServer/LogicSystem.cpp:140-520 | a handler's output adds exactly one answer id for its requester and none for other sessions |
| Deals.AnswersOne | CoroutineServer/LogicSystem.cpp:91-114 | a handled registered request is answered exactly once, last, to its requester, with its own id plus one, after at most one other thing |
| Deals.NoAnswer | CoroutineServer/LogicSystem.cpp:73-78 | hello and unregistered ids add no answer |
| Deals.AnswersAddUp | CoroutineServer/LogicSystem.cpp:52-114 | over any handled requests, each session has been offered exactly the answer ids it is owed, in order |
| Deals.StepsAddUp | CoroutineServer/LogicSystem.cpp:73-88 | the calls the users and friends tables and the steps the delivery machine have seen are, in order, those that the handled requests' bodies spell |
| Deals.LoginMeets | CoroutineServer/LogicSystem.cpp:217-268 | a login that meets a registration of its username reaches that account iff the password hashes are equal, and no account otherwise |
| Deals.RegistrantLogsIn | CoroutineServer/LogicSystem.cpp:140-274 | the body of a registration answered `Done`, sent later as a login, is answered with the registered account |
| Deals.UidIsLastLogin | CoroutineServer/CSession.cpp:114-143 | after any handled requests and closes, an open session is bound to the account it last logged in to, a closed one to that or none |
| Deals.SenderIsAuthentic | CoroutineServer/LogicSystem.cpp:386-443 | every saved message is the chat of a session whose last login was to the account named as its sender, with that body as its recipient and text |
| Deals.RequesterIsAuthentic | CoroutineServer/LogicSystem.cpp:313-364 | every accepted pair is the request of a session whose last login was to its first account, naming the second |
| Deals.FriendsAreListed | CoroutineServer/LogicSystem.cpp:279-383 | once an addition is answered `Done`, every later friend list of either account that is read whole contains the other |
| Deals.PullHandsOut | CoroutineServer/LogicSystem.cpp:239-260 | a login or offline request that reads to the end hands out every undelivered message of its account in the first thing it sends |
| Deals.ChatReachesRecipient | CoroutineServer/LogicSystem.cpp:386-520 | a chat answered `Saved` is handed out, with its sender, text and id, at the recipient's next login or offline request, whichever comes first, if reading is not cut short |
| MessageLoops.MessageLoop.PostMsgToQue | CoroutineServer/LogicSystem.cpp:23-37 | makes exactly the queue machine's post: appends unless 10000 wait, then drops; wakes a sleeping worker exactly when the queue was empty |
| MessageLoops.MessageLoop.Shutdown | CoroutineServer/LogicSystem.cpp:45-47 | sets the flag and wakes the worker, as the two steps of the queue machine |
| MessageLoops.MessageLoop.Turn | CoroutineServer/LogicSystem.cpp:54-88 | a worker that is awake takes and handles the front, leaves iff the queue is empty and the flag set, or goes to sleep |
| MessageLoops.MessageLoop.DealMsg | CoroutineServer/LogicSystem.cpp:52-89 | for every schedule, followed by shutdown, the loop is a run of the queue machine that ends with the worker gone and everything accepted handled; what was posted is exactly what the schedule posts, what it closes is stopped, each handled request met the environment of its turn, in order; every session has been offered exactly the answers it is owed, and tables and deliveries have made exactly the steps of the handled requests' bodies |
| MessageLoops.MessageLoop.Dispatch | CoroutineServer/LogicSystem.cpp:73-88 | each id reaches its handler, with the whole effect of that handler (`Effects.Handled`) at the parse of the request's own body; an id without a callback changes nothing |
| MessageLoops.MessageLoop.Destroy | CoroutineServer/CSession.cpp:16-27 | destroying a session without queued requests keeps everything the loop promises: tables, deliveries and what was sent are untouched, and sessions only close |
| MessageLoops.MessageLoop.RegistrantLogsIn | CoroutineServer/LogicSystem.cpp:73-88 | of the requests a loop has handled: one with the bytes of an earlier registration answered `Done`, but the id of a login, was answered with the registered account unless the database failed |
| MessageLoops.MessageLoop.ChatsAreAuthentic | CoroutineServer/LogicSystem.cpp:386-443 | every message saved by a loop is a handled chat request whose body names its recipient and text, of a session whose last login before it was to its sender |
| ResponseMatcher.Client.Receive | TestClient/TestClient.cpp:188-221 | everything is queued in order except messages 2012 and 2009 and replies 2014 with "messages" |
| ResponseMatcher.Client.Scan | TestClient/TestClient.cpp:233-249 | one scan leaves exactly the non-matching messages in order and yields the last matching one |
| ResponseMatcher.Client.WaitForResponse | TestClient/TestClient.cpp:228-264 | returns at the first wakeup that brings a match, at the loss of the connection or at the timeout, with exactly the other messages left in order of arrival |
| ResponseMatcher.ScanTakesAll | TestClient/TestClient.cpp:238-249 | a message is left by a scan iff it was queued with another id, and matched iff queued with this id |
| ResponseMatcher.SelectIsScan | TestClient/TestClient.cpp:238-249 | the ledger's scan by position is the client's scan |
| ResponseMatcher.ViewPush | TestClient/TestClient.cpp:215-219 | an arrival in the ledger is an arrival in the client's queue |
| ResponseMatcher.ViewScan | TestClient/TestClient.cpp:233-249 | a scan of the ledger leaves what the client's scan leaves |
| ResponseMatcher.ScanReturnsLast | TestClient/TestClient.cpp:233-249 | a scan returns the last match, which was never returned before, and nothing if there is none |
| ResponseMatcher.StepAccounts | TestClient/TestClient.cpp:215-249 | one arrival or scan keeps every message in exactly one place |
| ResponseMatcher.EveryMessageAccounted | TestClient/TestClient.cpp:215-249 | over any interleaving each message is returned, superseded by a later returned one of its id, or still queued, never two of these, and the queue keeps arrival order |
| ResponseMatcher.LedgerIsClient | TestClient/TestClient.cpp:215-249 | over any interleaving of arrivals and scans the ledger's queue is what the client's Receive and Scan leave, so that its account of every message is the client's |
| ResponseMatcher.WaitExact | TestClient/TestClient.cpp:215-251 | a wait has its answer by a given wakeup iff a message of its id was queued before, or arrived by then and is one the receive thread queues |
| ResponseMatcher.ReplyExact | TestClient/TestClient.cpp:188-264 | for every id but the two pushes and the offline reply, a wait has its answer by a given wakeup iff a message of that id was queued before or has arrived |
| ResponseMatcher.PushesStayOut | TestClient/TestClient.cpp:188-202 | no chat push or friend request push that arrives enters the queue |
| ResponseMatcher.OfflineReplyExact | TestClient/TestClient.cpp:203-220 | a wait for an offline reply is over by a given wakeup iff one without "messages" was queued or has arrived |
| ResponseMatcher.WaitForOffline | TestClient/TestClient.cpp:505-511 | with the server's successful reply among the first arrivals and no error reply, the offline command times out |
| RoundRobin.AsioIOServicePool.GetIOService | CoroutineServer/AsioIOServicePool.cpp:45-51 | hands out the counter modulo the pool size and advances it modulo 2^64 |
| RoundRobin.CountWithoutWrap | CoroutineServer/AsioIOServicePool.cpp:48-49 | without a wrap a context's share of a window is the number of counter values in it with its residue |
| RoundRobin.SharesDifferByWraps | CoroutineServer/AsioIOServicePool.cpp:45-51 | over any window two contexts' shares differ by at most one plus the number of wraps, so by one without a wrap and two across one |
| RoundRobin.SharesDifferByOne | CoroutineServer/AsioIOServicePool.cpp:45-51 | when the pool size divides 2^64, two contexts' shares differ by at most one over any window |
| RoundRobin.WrapCanFavourOne | CoroutineServer/AsioIOServicePool.cpp:45-51 | for every other pool size there is a window across one wrap in which the first context is served twice and the last not at all |
| RoundRobin.FairExact | CoroutineServer/AsioIOServicePool.cpp:45-51 | over all windows no two contexts' shares differ by more than one iff the pool size divides 2^64 |

## Left out

- DBManagers.DBManager.constructor: a database file that an earlier process left behind is not modelled; all histories begin with empty tables.
- MessageLoops.MessageLoop.Destroy: no session is destroyed while MessageLoops.MessageLoop.DealMsg runs; between its runs a session may be destroyed once it has no queued request, as the queue holds a reference.
- MessageLoops.MessageLoop.DealMsg: shutdown comes between two turns of the worker, and closes are atomic; a flag set between the worker's check and its sleep is a run of the RequestQueue machine, and split closes are runs of the Presence machine.
- LogicSystems.LogicSystem.Admit: closes between the steps of a login are atomic; split ones are runs of the Presence machine.
- MsgNodes.MsgNode.Buffer: lengths below zero are excluded; the source's buffer cannot be made for a length below -1, and for -1 has no byte.
- SessionReader.Reader.ReadFrame: a body length below zero ends the session, which for lengths below -1 the source does by an exception of the buffer's constructor; what it does for -1 is not modelled.
- SessionReader.Reader.Turn: the same for lengths below zero.
- SessionReader.Reader.Start: the same for lengths below zero.
- SessionWriter.Sender.HandleWrite: removing the session from the server's map is not modelled.
- SessionWriter.Sender.Send: exceptions of `shared_from_this` and of allocation are not modelled, so neither is a write that is never started because of them.
- RoundRobin.AsioIOServicePool.constructor: a pool of size 0, whose `GetIOService` divides by zero, is excluded.
- Messages.Conservation: says what is handed to `Send`; that every batch reaches the client is not claimed, since rows are marked before `Send`, which may drop a batch that is too long or finds the queue full.
- Presence.StepExact: a session's destruction wins the stop flag in the same step in which its weak references expire.
- Deals.RegisteredCanLogIn: lengths are counted in characters of the model's strings, where the source counts bytes of UTF-8; numeric coercions of the JSON library are not modelled.
- The step from a handler's `Send` to the session's write queue: the outbox records what is offered to `Send`, and WriteChain starts from what `Send` accepts.
- Sockets, Asio executors, coroutine suspension and thread-safety of closing a socket: only "some bytes written", "read exactly n or fail", "completed", "failed" remain.
- SQLite beyond its answers: durability, schema creation, strings with NUL characters.
- Exceptions in handlers other than a field of the wrong type, which are allocation and serialisation failures; error texts and the JSON text of replies.
- The session map of the server and `ClearSession`; the accept loop; that a closed session leaves that map is not claimed.
- Termination after shutdown without the condition in RequestQueue.ShutdownExact.
- Pool threads and their shutdown; logging, timestamps, identifiers of sessions, signal handling; the client's menu, login prompt and reconnection.
- New sessions during the worker loop: the set of sessions of a `LogicSystem` is fixed when the system is made and holds every session that will appear; connecting is a step of the Presence machine.
