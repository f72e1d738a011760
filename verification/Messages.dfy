/** The message envelope of message.cc: a 16-bit identifier, a 16-bit length and the data. */
module Messages {
  import opened Bytes
  import Servent

  type Message = seq<byte>

  const MSG_HEADER_LEN := 4
  const MSG_MAX_USERDATA := 64260 - MSG_HEADER_LEN

  datatype Created = TooLong | Created(message: Message)

  function LittleEndian16(x: u16): (bs: seq<byte>)
    ensures |bs| == 2
  {
    [x % 0x100, x / 0x100]
  }

  function FromLittleEndian16(bs: seq<byte>): u16
    requires |bs| == 2
  {
    bs[0] as int + 0x100 * bs[1] as int
  }

  function CreateMessage(msgId: u16, data: seq<byte>): Created {
    if |data| < MSG_MAX_USERDATA then Created(LittleEndian16(msgId) + LittleEndian16(|data|) + data) else TooLong
  }

  function MsgId(message: Message): u16
    requires |message| >= MSG_HEADER_LEN
  {
    FromLittleEndian16(message[..2])
  }

  function DataLen(message: Message): u16
    requires |message| >= MSG_HEADER_LEN
  {
    FromLittleEndian16(message[2..4])
  }

  function GetRawSize(message: Message): nat
    requires |message| >= MSG_HEADER_LEN
  {
    MSG_HEADER_LEN + DataLen(message)
  }

  /** The part of a received message that its own length field covers. */
  function Data(message: Message): seq<byte>
    requires |message| >= MSG_HEADER_LEN && GetRawSize(message) <= |message|
  {
    message[MSG_HEADER_LEN..GetRawSize(message)]
  }

  /** Identifier and length come first, each with its low-order octet in front. */
  lemma OneMessage()
    ensures CreateMessage(0x0102, [7, 8, 9]) == Created([0x02, 0x01, 3, 0, 7, 8, 9])
  {
  }

  /**
   A created message has the raw size its header claims, keeps its identifier and data, passes
   AssertMessage, and is never refused by the packet layer. Creation fails exactly for data of
   MSG_MAX_USERDATA octets or more, although the packet layer would still carry 64256 of them.
   */
  lemma CreatedMessage(msgId: u16, data: seq<byte>)
    ensures CreateMessage(msgId, data).Created? <==> |data| < MSG_MAX_USERDATA
    ensures
      match CreateMessage(msgId, data)
      case TooLong => true
      case Created(m) =>
        && |m| >= MSG_HEADER_LEN && GetRawSize(m) == |m|
        && MsgId(m) == msgId && Data(m) == data && DataLen(m) <= MSG_MAX_USERDATA
        && Servent.Sendable(m)
  {
    if |data| < MSG_MAX_USERDATA {
      var m := CreateMessage(msgId, data).message;
      assert m[..2] == LittleEndian16(msgId);
      assert m[2..4] == LittleEndian16(|data|);
      assert m[4..] == data;
    }
  }
}
