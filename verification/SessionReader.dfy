/** The two read loops and the client's sender over a byte stream. */
module SessionReader {
  import opened Wrappers
  import opened Constants
  import opened Framing
  import opened MsgNodes
  import RequestQueue

  /** The receiving end of a connection: `incoming` is all that arrives before it fails or ends. */
  class Socket {
    const incoming: seq<Byte>
    var pos: nat

    ghost predicate Valid()
      reads this
    {
      pos <= |incoming|
    }

    ghost function Unread(): seq<Byte>
      reads this
      requires Valid()
    {
      incoming[pos..]
    }

    constructor (incoming: seq<Byte>)
      ensures Valid() && this.incoming == incoming && pos == 0
    {
      this.incoming := incoming;
      pos := 0;
    }

    /** Reads exactly `n` bytes into the front of `buf`, or throws (None). */
    method Read(buf: array<Byte>, n: nat) returns (size: Option<nat>)
      requires Valid() && n <= buf.Length
      modifies this`pos, buf
      ensures Valid()
      ensures size == if n <= |old(Unread())| then Some(n) else None
      ensures size.Some? ==> pos == old(pos) + n && buf[..n] == old(Unread())[..n] && buf[n..] == old(buf[n..])
    {
      if n <= |incoming| - pos {
        Copy(buf, 0, incoming[pos..pos + n]);
        pos := pos + n;
        size := Some(n);
      } else {
        pos := |incoming|;
        size := None;
      }
    }
  }

  /** How a read loop came to its end. */
  datatype End = StoppedByOthers | EndOfStream | BadHeader(why: Verdict)

  ghost predicate Reports(end: End, p: Parse) {
    match p
    case Incomplete => end == EndOfStream
    case Refused(why) => end == BadHeader(why)
    case Parsed(_, _) => false
  }

  /** A posted node still holds the frame it was parsed from. */
  ghost predicate Holds(node: MsgNode, f: Frame)
    reads node, node.data
  {
    && node.Valid()
    && node.msgId == f.id && node.totalLen == node.curLen == |f.body|
    && node.data[..node.totalLen] == f.body && node.data[node.totalLen] == 0
  }

  /** Every posted node still holds its frame, and shares no buffer with another or with the header node. */
  ghost predicate Intact(nodes: seq<MsgNode>, fs: seq<Frame>, head: MsgNode)
    reads nodes, set n | n in nodes :: n.data
  {
    && |nodes| == |fs|
    && (forall i :: 0 <= i < |nodes| ==> Holds(nodes[i], fs[i]) && nodes[i] != head && nodes[i].data != head.data)
    && (forall i, j :: 0 <= i < j < |nodes| ==> nodes[i] != nodes[j] && nodes[i].data != nodes[j].data)
  }

  /** The reader has cut `fs` from the stream and has `rest` before it. */
  ghost predicate ReadSoFar(side: Side, stream: seq<Byte>, fs: seq<Frame>, rest: seq<Byte>) {
    Decode(side, stream) == fs + Decode(side, rest) && Residue(side, stream) == Residue(side, rest)
  }

  lemma ReadStart(side: Side, stream: seq<Byte>)
    ensures ReadSoFar(side, stream, [], stream)
  {
  }

  lemma ReadOneMore(side: Side, stream: seq<Byte>, fs: seq<Frame>, rest: seq<Byte>)
    requires ReadSoFar(side, stream, fs, rest)
    ensures var p := ParseOne(side, rest);
            if p.Parsed? then ReadSoFar(side, stream, fs + [p.frame], p.rest)
            else Decode(side, stream) == fs && FinalParse(side, stream) == p
  {
    var p := ParseOne(side, rest);
    if p.Parsed? {
      Reassociate(fs, [p.frame], Decode(side, p.rest));
    }
  }

  class Reader {
    const socket: Socket
    const headNode: MsgNode
    var posted: seq<MsgNode>  // in the order of PostMsgToQue
    var closed: bool          // the loop called Close and ClearSession

    ghost predicate Valid()
      reads this, socket, headNode
    {
      socket.Valid() && headNode.Valid() && headNode.totalLen == HEAD_TOTAL_LEN
    }

    constructor (socket: Socket)
      requires socket.Valid()
      ensures Valid() && this.socket == socket && posted == [] && !closed && fresh(headNode) && fresh(headNode.data)
    {
      this.socket := socket;
      headNode := new MsgNode.Buffer(HEAD_TOTAL_LEN, 0);
      posted := [];
      closed := false;
    }

    /** `CSession::Start`.  `stopAfter` is the number of frames after which the loop guard sees the stop
        flag set by another thread. */
    method Start(stopAfter: nat) returns (end: End)
      requires Valid() && socket.pos == 0 && posted == [] && !closed
      modifies this, socket, headNode, headNode.data
      ensures Valid()
      ensures forall i :: 0 <= i < |posted| ==> fresh(posted[i]) && fresh(posted[i].data)
      ensures |posted| <= |Decode(Server, socket.incoming)|
      ensures Intact(posted, Decode(Server, socket.incoming)[..|posted|], headNode)
      ensures if stopAfter <= |Decode(Server, socket.incoming)|
              then end == StoppedByOthers && |posted| == stopAfter && !closed
              else Reports(end, FinalParse(Server, socket.incoming))
                   && |posted| == |Decode(Server, socket.incoming)| && closed
    {
      ghost var fs, rest := [], socket.incoming;
      ReadStart(Server, rest);
      while |posted| < stopAfter
        invariant Valid() && !closed && rest == socket.Unread()
        invariant ReadSoFar(Server, socket.incoming, fs, rest)
        invariant |posted| <= stopAfter
        invariant forall i :: 0 <= i < |posted| ==> fresh(posted[i]) && fresh(posted[i].data)
        invariant Intact(posted, fs, headNode)
        decreases stopAfter - |posted|
      {
        ReadOneMore(Server, socket.incoming, fs, rest);
        ghost var parse;
        end, parse := Turn(fs);
        if closed {
          assert fs[..|posted|] == fs;
          return;
        }
        fs, rest := fs + [parse.frame], parse.rest;
      }
      end := StoppedByOthers;
      assert Decode(Server, socket.incoming)[..|posted|] == fs;
    }

    /** One turn of the loop: one frame posted in a node of its own, or the session closed. */
    method Turn(ghost fs: seq<Frame>) returns (end: End, ghost parse: Parse)
      requires Valid() && !closed && Intact(posted, fs, headNode)
      modifies this, socket, headNode, headNode.data
      ensures Valid() && parse == ParseOne(Server, old(socket.Unread()))
      ensures closed <==> !parse.Parsed?
      ensures closed ==> posted == old(posted) && Intact(posted, fs, headNode) && Reports(end, parse)
      ensures !closed ==> socket.Unread() == parse.rest && Intact(posted, fs + [parse.frame], headNode)
      ensures !closed ==> |posted| == |old(posted)| + 1
      ensures !closed ==> fresh(posted[|old(posted)|]) && fresh(posted[|old(posted)|].data)
      ensures forall i :: 0 <= i < |old(posted)| ==> posted[i] == old(posted)[i]
    {
      var node;
      node, end, parse := ReadFrame();
      if node == null {
        closed := true;
      } else {
        posted := posted + [node];
      }
    }

    /** A fresh node for a complete acceptable frame, or the reason to stop. */
    method ReadFrame() returns (node: MsgNode?, end: End, ghost parse: Parse)
      requires Valid()
      modifies socket, headNode, headNode.data
      ensures Valid() && parse == ParseOne(Server, old(socket.Unread()))
      ensures if parse.Parsed?
              then node != null && fresh(node) && fresh(node.data) && Holds(node, parse.frame)
                  && socket.Unread() == parse.rest
              else node == null && Reports(end, parse)
    {
      parse := ParseOne(Server, socket.Unread());
      ghost var unread := socket.Unread();
      headNode.Clear();
      var size := socket.Read(headNode.data, HEAD_TOTAL_LEN);
      node, end := null, EndOfStream;
      if size.None? {
        return;
      }
      var head := headNode.data;
      assert head[..4][0] == unread[0] && head[..4][1] == unread[1] && head[..4][2] == unread[2]
          && head[..4][3] == unread[3];
      var msgId := NetworkToHost(head[0], head[1]);
      if msgId < MSG_HELLO_WORLD || msgId > MSG_ID_LIMIT {
        end := BadHeader(BadId);
        return;
      }
      var msgLen := NetworkToHost(head[2], head[3]);
      if msgLen > MAX_LENGTH {
        end := BadHeader(BadLength);
        return;
      }
      if msgLen < 0 { // no buffer of this length can be made
        end := BadHeader(BadLength);
        return;
      }
      assert socket.Unread() == unread[HEAD_TOTAL_LEN..];
      node, end := ReadBody(msgId, msgLen);
      assert parse.Parsed? ==> unread[HEAD_TOTAL_LEN..][..msgLen] == unread[HEAD_TOTAL_LEN..HEAD_TOTAL_LEN + msgLen];
      assert parse.Parsed? ==> unread[HEAD_TOTAL_LEN..][msgLen..] == unread[HEAD_TOTAL_LEN + msgLen..];
    }

    /** The body goes into a node of its own. */
    method ReadBody(msgId: Short, msgLen: Short) returns (node: MsgNode?, end: End)
      requires Valid() && 0 <= msgLen <= MAX_LENGTH
      modifies socket
      ensures Valid() && (node != null <==> 0 < msgLen <= |old(socket.Unread())|)
      ensures node != null
              ==> fresh(node) && fresh(node.data) && Holds(node, Frame(msgId, old(socket.Unread())[..msgLen]))
      ensures node != null ==> socket.Unread() == old(socket.Unread())[msgLen..]
      ensures node == null ==> end == if msgLen == 0 then BadHeader(BadLength) else EndOfStream
    {
      end := EndOfStream;
      node := new MsgNode.Buffer(msgLen, msgId);
      var size := socket.Read(node.data, node.totalLen);
      if size.None? || size.value == 0 {
        node, end := null, if size.None? then EndOfStream else BadHeader(BadLength);
        return;
      }
      node.data[node.totalLen] := 0;
      node.curLen := node.totalLen;
    }
  }

  // ---- from the reader to the worker ----

  /** What the worker reads from a node. */
  ghost function FrameOf(node: MsgNode): Frame
    reads node, node.data
    requires node.Valid()
  {
    Frame(node.msgId, node.data[..node.curLen])
  }

  ghost function FramesOf(nodes: seq<MsgNode>): seq<Frame>
    reads nodes, set n | n in nodes :: n.data
    requires forall n :: n in nodes ==> n.Valid()
  {
    if nodes == [] then []
    else FramesOf(nodes[..|nodes| - 1]) + [FrameOf(nodes[|nodes| - 1])]
  }

  lemma {:induction false} IntactFrames(nodes: seq<MsgNode>, fs: seq<Frame>, head: MsgNode)
    requires Intact(nodes, fs, head)
    ensures (forall n :: n in nodes ==> n.Valid()) && FramesOf(nodes) == fs
  {
    if nodes != [] {
      var last := |nodes| - 1;
      IntactFrames(nodes[..last], fs[..last], head);
      assert nodes == nodes[..last] + [nodes[last]];
      assert FrameOf(nodes[last]) == fs[last];
      assert fs == fs[..last] + [fs[last]];
    }
  }

  /** With a reader as `Start` leaves it, whose nodes are what its session posted: the session's requests
      are handled with the bodies and in the order in which they stand in its byte stream. */
  lemma HandledInStreamOrder<S(!new)>(reader: Reader, c: RequestQueue.State<S>, s: S)
    requires var fs := Decode(Server, reader.socket.incoming);
             |reader.posted| <= |fs| && Intact(reader.posted, fs[..|reader.posted|], reader.headNode)
    requires RequestQueue.Reachable(c) && (forall n :: n in reader.posted ==> n.Valid())
    requires RequestQueue.Of(s, c.offered) == FramesOf(reader.posted)
    ensures RequestQueue.Subsequence(RequestQueue.Of(s, c.handled), Decode(Server, reader.socket.incoming))
  {
    var fs := Decode(Server, reader.socket.incoming);
    IntactFrames(reader.posted, fs[..|reader.posted|], reader.headNode);
    RequestQueue.SessionOrder(c, s, reader.socket.incoming);
  }

  // ---- the client ----

  /** `RecvOneMessage`. */
  method RecvOneMessage(sock: Socket) returns (ok: bool, msgId: Short, body: seq<Byte>)
    requires sock.Valid()
    modifies sock
    ensures sock.Valid()
    ensures var p := ParseOne(Client, old(sock.Unread()));
            if p.Parsed? then ok && p.frame == Frame(msgId, body) && sock.Unread() == p.rest else !ok
  {
    ghost var unread := sock.Unread();
    ok, msgId, body := false, 0, [];
    var header := new Byte[HEAD_TOTAL_LEN](_ => 0);
    var n := sock.Read(header, HEAD_TOTAL_LEN);
    if n.None? || n.value == 0 {
      return;
    }
    assert header[..4][0] == unread[0] && header[..4][1] == unread[1] && header[..4][2] == unread[2]
        && header[..4][3] == unread[3];
    var id, bodyLen := NetworkToHost(header[0], header[1]), NetworkToHost(header[2], header[3]);
    if bodyLen <= 0 || bodyLen > MAX_LENGTH {
      return;
    }
    var buffer := new Byte[MAX_LENGTH + 1](_ => 0);
    assert sock.Unread() == unread[HEAD_TOTAL_LEN..];
    n := sock.Read(buffer, bodyLen);
    if n.None? || n.value == 0 {
      return;
    }
    buffer[bodyLen] := 0;
    ok, msgId, body := true, id, buffer[..bodyLen];
    assert body == unread[HEAD_TOTAL_LEN..HEAD_TOTAL_LEN + bodyLen];
    assert sock.Unread() == unread[HEAD_TOTAL_LEN + bodyLen..];
  }

  /** The receive thread: it gets what the stream decodes to, until `RecvOneMessage` fails or the loop's
      guard sees the stop flag, which another thread sets after `stopAfter` messages. */
  method RecvAll(sock: Socket, stopAfter: nat) returns (frames: seq<Frame>)
    requires sock.Valid()
    modifies sock
    ensures |frames| == if stopAfter < |Decode(Client, old(sock.Unread()))| then stopAfter
            else |Decode(Client, old(sock.Unread()))|
    ensures frames <= Decode(Client, old(sock.Unread()))
  {
    frames := [];
    ghost var stream := sock.Unread();
    ReadStart(Client, stream);
    var ok := true;
    while ok && |frames| < stopAfter
      invariant sock.Valid() && |frames| <= stopAfter
      invariant if ok then ReadSoFar(Client, stream, frames, sock.Unread()) else frames == Decode(Client, stream)
      decreases ok, |sock.Unread()|
    {
      ReadOneMore(Client, stream, frames, sock.Unread());
      var id, body;
      ok, id, body := RecvOneMessage(sock);
      if ok {
        frames := frames + [Frame(id, body)];
      }
    }
  }

  /** `SendMsg`: the bytes written, if the JSON is not too long. */
  method SendMsg(msgId: Short, json: seq<Byte>) returns (ok: bool, written: seq<Byte>)
    ensures ok <==> |json| <= MAX_LENGTH
    ensures ok ==>
              && |written| == 4 + |json| && written[4..] == json
              && var b0: int, b1: int, b2: int, b3: int := written[0], written[1], written[2], written[3];
                 (b0 * 256 + b1) % 65536 == msgId % 65536 && b2 * 256 + b3 == |json|
    ensures ok && json != []
            ==> written == EncodeAll([Frame(msgId, json)]) && Decode(Client, written) == [Frame(msgId, json)]
    ensures ok && json != [] && MSG_HELLO_WORLD <= msgId <= MSG_ID_LIMIT
            ==> Decode(Server, written) == [Frame(msgId, json)]
    ensures !ok ==> written == []
  {
    if |json| > MAX_LENGTH {
      return false, [];
    }
    var sendData := new Byte[MAX_LENGTH + HEAD_TOTAL_LEN](_ => 0);
    Copy(sendData, 0, HostToNetwork(msgId));
    Copy(sendData, HEAD_ID_LEN, HostToNetwork(ToShort(|json|)));
    assert sendData[..HEAD_TOTAL_LEN] == HostToNetwork(msgId) + HostToNetwork(|json|);
    Copy(sendData, HEAD_TOTAL_LEN, json);
    assert sendData[..HEAD_TOTAL_LEN] == HostToNetwork(msgId) + HostToNetwork(|json|);
    written := sendData[..|json| + HEAD_TOTAL_LEN];
    ok := true;
    ghost var f := Frame(msgId, json);
    assert written == Encode(f);
    WireFormat(f);
    if json != [] {
      EncodeAllCons(f, []);
      assert [f] + [] == [f] && Encode(f) + [] == Encode(f);
      DecodeEncoded(Client, [f]);
      if MSG_HELLO_WORLD <= msgId <= MSG_ID_LIMIT {
        DecodeEncoded(Server, [f]);
      }
    }
  }
}
