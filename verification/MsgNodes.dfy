/** Message buffers on the heap: one class for the base node, the receive node and the send node,
    which differ only in how they are constructed. */
module MsgNodes {
  import opened Constants
  import opened Framing

  /** memcpy into an array. */
  method Copy(dst: array<Byte>, at: nat, src: seq<Byte>)
    requires at + |src| <= dst.Length
    modifies dst
    ensures dst[..] == old(dst[..at]) + src + old(dst[at + |src|..])
  {
    forall i | 0 <= i < |src| {
      dst[at + i] := src[i];
    }
  }

  class MsgNode {
    var curLen: int
    const totalLen: int
    const data: array<Byte>
    const msgId: Short

    ghost predicate Valid()
      reads this
    {
      0 <= curLen <= totalLen && data.Length == totalLen + 1
    }

    /** A zeroed buffer of `maxLen` bytes and one more: a header buffer or a receive node. */
    constructor Buffer(maxLen: Short, msgId: Short)
      requires 0 <= maxLen
      ensures Valid() && fresh(data)
      ensures totalLen == maxLen && curLen == 0 && this.msgId == msgId
      ensures forall i :: 0 <= i < data.Length ==> data[i] == 0
    {
      curLen, totalLen := 0, maxLen;
      data := new Byte[maxLen + 1](_ => 0);
      this.msgId := msgId;
    }

    /** A send node: the header and the first `maxLen` bytes of `msg`. */
    constructor ForSend(msg: seq<Byte>, maxLen: Short, msgId: Short)
      requires 0 <= maxLen <= |msg| && maxLen + HEAD_TOTAL_LEN < 0x8000
      ensures Valid() && fresh(data)
      ensures Wire() == Encode(Frame(msgId, msg[..maxLen])) && this.msgId == msgId
      ensures |Wire()| == 4 + maxLen && Wire()[4..] == msg[..maxLen]
      ensures var b0: int, b1: int, b2: int, b3: int := Wire()[0], Wire()[1], Wire()[2], Wire()[3];
              (b0 * 256 + b1) % 65536 == msgId % 65536 && b2 * 256 + b3 == maxLen
    {
      curLen, totalLen := 0, maxLen + HEAD_TOTAL_LEN;
      data := new Byte[maxLen + HEAD_TOTAL_LEN + 1](_ => 0);
      this.msgId := msgId;
      new;
      Copy(data, 0, HostToNetwork(msgId));
      Copy(data, HEAD_ID_LEN, HostToNetwork(maxLen));
      assert data[..HEAD_TOTAL_LEN] == HostToNetwork(msgId) + HostToNetwork(maxLen);
      Copy(data, HEAD_TOTAL_LEN, msg[..maxLen]);
      assert data[..HEAD_TOTAL_LEN] == HostToNetwork(msgId) + HostToNetwork(maxLen);
      assert data[HEAD_TOTAL_LEN..totalLen] == msg[..maxLen];
      assert data[..totalLen] == data[..HEAD_TOTAL_LEN] + data[HEAD_TOTAL_LEN..totalLen];
      WireFormat(Frame(msgId, msg[..maxLen]));
    }

    /** The bytes handed to `async_write`. */
    ghost function Wire(): seq<Byte>
      reads this, data
      requires Valid()
    {
      data[..totalLen]
    }

    method Clear()
      requires Valid()
      modifies this`curLen, data
      ensures Valid() && curLen == 0
      ensures forall i :: 0 <= i < totalLen ==> data[i] == 0
      ensures data[totalLen] == old(data[totalLen])
    {
      forall i | 0 <= i < totalLen {
        data[i] := 0;
      }
      curLen := 0;
    }
  }
}
