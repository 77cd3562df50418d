/** The message between freezer/lib/user_netlink.c and freezer/module/freezer_netlink.c:
    twelve bytes of struct, then a string, in a zeroed payload of fixed size. */
module Netlink {
  import opened CTypes
  import opened Commands
  import opened TableSets
  import opened Freezers

  const MAX_PAYLOAD := 1024
  const CMD_SIZE := 12

  const NLMSG_ERROR := 2
  const NLMSG_DONE := 3

  /** The first `n` bytes of a number in the memory of a little-endian machine. */
  function LittleEndian(u: nat, n: nat): (bytes: seq<byte>)
    ensures |bytes| == n
  {
    if n == 0 then [] else [u % 0x100] + LittleEndian(u / 0x100, n - 1)
  }

  function ReadLittleEndian(bytes: seq<byte>): (u: nat)
    ensures u < Range(|bytes|)
  {
    if bytes == [] then 0
    else
      var low: int := bytes[0];
      low + 0x100 * ReadLittleEndian(bytes[1..])
  }

  /** How many numbers fit in `n` bytes. */
  function Range(n: nat): nat {
    if n == 0 then 1 else 0x100 * Range(n - 1)
  }

  lemma {:induction false} ReadingInvertsWriting(u: nat, n: nat)
    requires u < Range(n)
    ensures ReadLittleEndian(LittleEndian(u, n)) == u
  {
    if n > 0 {
      ReadingInvertsWriting(u / 0x100, n - 1);
    }
  }

  lemma WordRange()
    ensures Range(4) == TWO_TO_THE_32
  {
    assert Range(2) == 0x1_0000;
  }

  function Word(u: uint32): (bytes: seq<byte>)
    ensures |bytes| == 4
  {
    LittleEndian(u, 4)
  }

  function ReadWord(bytes: seq<byte>, offset: nat): uint32
    requires offset + 4 <= |bytes|
  {
    WordRange();
    ReadLittleEndian(bytes[offset..offset + 4])
  }

  /** `struct netlink_cmd` in memory. */
  function CmdBytes(cmd: NetlinkCmd): (bytes: seq<byte>)
    ensures |bytes| == CMD_SIZE
  {
    Word(AsUnsigned(cmd.resource)) + Word(cmd.uid) + Word(AsUnsigned(cmd.action))
  }

  function Zeros(n: nat): (bytes: seq<byte>)
    ensures |bytes| == n && forall i | 0 <= i < n :: bytes[i] == 0
  {
    seq(n, _ => 0)
  }

  /** The string does not overrun the payload it is copied into. */
  predicate FitsPayload(resourceData: Option<CText>) {
    CMD_SIZE + |TextOf(resourceData)| <= MAX_PAYLOAD
  }

  function PayloadOf(cmd: NetlinkCmd, resourceData: Option<CText>): (payload: seq<byte>)
    requires FitsPayload(resourceData)
    ensures |payload| == MAX_PAYLOAD
  {
    var text := TextOf(resourceData);
    CmdBytes(cmd) + text + Zeros(MAX_PAYLOAD - CMD_SIZE - |text|)
  }

  lemma WordBytes(u: uint32)
    ensures Word(u) == [u % 0x100, u / 0x100 % 0x100, u / 0x1_0000 % 0x100, u / 0x100_0000]
  {
    assert LittleEndian(u / 0x100_0000, 1) == [u / 0x100_0000] + LittleEndian(u / 0x100_0000 / 0x100, 0);
    assert u / 0x100 / 0x100 == u / 0x1_0000 && u / 0x1_0000 / 0x100 == u / 0x100_0000;
    assert LittleEndian(u / 0x1_0000, 2) == [u / 0x1_0000 % 0x100] + LittleEndian(u / 0x100_0000, 1);
    assert LittleEndian(u / 0x100, 3) == [u / 0x100 % 0x100] + LittleEndian(u / 0x1_0000, 2);
  }

  /** The payload on the wire: resource, uid and action, low byte first, then the string, then
      zeros to the end. */
  lemma PayloadOnTheWire(cmd: NetlinkCmd, resourceData: Option<CText>)
    requires FitsPayload(resourceData)
    ensures var p, text := PayloadOf(cmd, resourceData), TextOf(resourceData);
            var resource, action := AsUnsigned(cmd.resource), AsUnsigned(cmd.action);
            && |p| == 1024
            && p[0..4] ==
               [resource % 0x100, resource / 0x100 % 0x100, resource / 0x1_0000 % 0x100, resource / 0x100_0000]
            && p[4..8] == [cmd.uid % 0x100, cmd.uid / 0x100 % 0x100, cmd.uid / 0x1_0000 % 0x100, cmd.uid / 0x100_0000]
            && p[8..12] == [action % 0x100, action / 0x100 % 0x100, action / 0x1_0000 % 0x100, action / 0x100_0000]
            && p[12..12 + |text|] == text
            && forall i | 12 + |text| <= i < |p| :: p[i] == 0
  {
    var p := PayloadOf(cmd, resourceData);
    WordBytes(AsUnsigned(cmd.resource));
    WordBytes(cmd.uid);
    WordBytes(AsUnsigned(cmd.action));
    assert p[..12] == CmdBytes(cmd);
    assert p[0..4] == p[..12][0..4] && p[4..8] == p[..12][4..8] && p[8..12] == p[..12][8..12];
  }

  /// Userland

  /** `my_exact_copy` */
  method ExactCopy(dest: array?<byte>, src: array?<byte>, len: nat) returns (res: array?<byte>)
    requires dest != null && src != null ==> len <= dest.Length && len <= src.Length
    modifies if dest == null then {} else {dest}
    ensures dest == null || src == null ==> res == null && (dest != null ==> dest[..] == old(dest[..]))
    ensures dest != null && src != null ==> res == dest && dest[..] == old(src[..len] + dest[len..])
  {
    if dest == null || src == null {
      return null;
    }

    var i := 0;
    while i < len
      invariant 0 <= i <= len
      invariant dest[..i] == old(src[..i]) && dest[i..] == old(dest[i..])
    {
      dest[i] := src[i];
      i := i + 1;
    }

    assert dest[..] == dest[..len] + dest[len..];
    return dest;
  }

  /** `my_exact_new_cat` */
  method ExactNewCat(dest: array?<byte>, src: array?<byte>, lenDest: nat, lenSrc: nat) returns (newDest: array?<byte>)
    requires dest != null && src != null ==> lenDest <= dest.Length && lenSrc <= src.Length
    ensures dest == null || src == null ==> newDest == null
    ensures dest != null && src != null ==>
              newDest != null && fresh(newDest) && newDest[..] == dest[..lenDest] + src[..lenSrc]
  {
    if dest == null || src == null {
      return null;
    }

    var block := new byte[lenDest + lenSrc];
    var i := 0;
    while i < lenDest
      invariant 0 <= i <= lenDest
      invariant block[..i] == dest[..i]
    {
      block[i] := dest[i];
      i := i + 1;
    }

    i := 0;
    while i < lenSrc
      invariant 0 <= i <= lenSrc
      invariant block[..lenDest + i] == dest[..lenDest] + src[..i]
    {
      block[lenDest + i] := src[i];
      i := i + 1;
    }

    assert block[..] == block[..lenDest + lenSrc];
    return block;
  }

  method InMemory(bytes: seq<byte>) returns (memory: array<byte>)
    ensures fresh(memory) && memory[..] == bytes
  {
    memory := new byte[|bytes|](i requires 0 <= i < |bytes| => bytes[i]);
  }

  /** The payload that `send_message` builds. */
  method BuildPayload(cmd: NetlinkCmd, resourceData: Option<CText>) returns (payload: array<byte>)
    requires FitsPayload(resourceData)
    ensures fresh(payload) && payload[..] == PayloadOf(cmd, resourceData)
  {
    payload := new byte[MAX_PAYLOAD](_ => 0);
    var buf := InMemory(CmdBytes(cmd));
    var dest: array?<byte>;

    match resourceData {
      case Some(text) =>
        var textMemory := InMemory(text);
        var newBuf := ExactNewCat(buf, textMemory, CMD_SIZE, |text|);
        assert newBuf[..CMD_SIZE + |text|] == CmdBytes(cmd) + text;
        dest := ExactCopy(payload, newBuf, CMD_SIZE + |text|);
      case None =>
        dest := ExactCopy(payload, buf, CMD_SIZE);
    }
    assert payload[..] == PayloadOf(cmd, resourceData);
  }

  /// Kernel

  /** `strlen`, counted from `offset`; `None` when no NUL follows inside the buffer. */
  function Strlen(bytes: seq<byte>, offset: nat): (len: Option<nat>)
    requires offset <= |bytes|
    ensures len.Some? ==> offset + len.value < |bytes| && 0 !in bytes[offset..offset + len.value]
    ensures len.Some? <==> 0 in bytes[offset..]
    decreases |bytes| - offset
  {
    if offset == |bytes| then None
    else
      assert bytes[offset..] == [bytes[offset]] + bytes[offset + 1..];
      if bytes[offset] == 0 then Some(0)
      else
        match Strlen(bytes, offset + 1)
        case None => None
        case Some(n) =>
          assert bytes[offset..offset + n + 1] == [bytes[offset]] + bytes[offset + 1..offset + 1 + n];
          Some(n + 1)
  }

  lemma {:induction false} StrlenFinds(bytes: seq<byte>, offset: nat, text: CText)
    requires offset + |text| < |bytes|
    requires bytes[offset..offset + |text|] == text && bytes[offset + |text|] == 0
    ensures Strlen(bytes, offset) == Some(|text|)
    decreases |text|
  {
    if text != [] {
      assert bytes[offset] == text[0] && text[0] in text;
      assert bytes[offset + 1..offset + |text|] == text[1..];
      StrlenFinds(bytes, offset + 1, text[1..]);
    }
  }

  /** The command and string the kernel reads out of a payload; `None` when the string
      runs off its end. */
  function Decode(payload: seq<byte>): (m: Option<Message>)
    requires CMD_SIZE <= |payload|
    ensures m.Some? <==> 0 in payload[CMD_SIZE..]
  {
    match Strlen(payload, CMD_SIZE)
    case None => None
    case Some(n) =>
      Some(Message(NetlinkCmd(AsSigned(ReadWord(payload, 0)), ReadWord(payload, 4), AsSigned(ReadWord(payload, 8))),
                   payload[CMD_SIZE..CMD_SIZE + n]))
  }

  /** The struct reads back, whatever zero bytes it contains. */
  lemma StructReadsBack(cmd: NetlinkCmd, payload: seq<byte>)
    requires CMD_SIZE <= |payload| && payload[..CMD_SIZE] == CmdBytes(cmd)
    ensures ReadWord(payload, 0) == AsUnsigned(cmd.resource)
    ensures ReadWord(payload, 4) == cmd.uid
    ensures ReadWord(payload, 8) == AsUnsigned(cmd.action)
  {
    assert payload[0..4] == payload[..CMD_SIZE][0..4] == Word(AsUnsigned(cmd.resource));
    assert payload[4..8] == payload[..CMD_SIZE][4..8] == Word(cmd.uid);
    assert payload[8..12] == payload[..CMD_SIZE][8..12] == Word(AsUnsigned(cmd.action));
    WordRange();
    ReadingInvertsWriting(AsUnsigned(cmd.resource), 4);
    ReadingInvertsWriting(cmd.uid, 4);
    ReadingInvertsWriting(AsUnsigned(cmd.action), 4);
  }

  /** Round trip: for every command the kernel reads exactly what userland wrote, if and
      only if the string leaves room for its NUL. */
  lemma DecodeInvertsPayload(cmd: NetlinkCmd, resourceData: Option<CText>)
    requires FitsPayload(resourceData)
    ensures Decode(PayloadOf(cmd, resourceData)) == Some(Message(cmd, TextOf(resourceData))) <==>
            |TextOf(resourceData)| <= 1011
  {
    var text, payload := TextOf(resourceData), PayloadOf(cmd, resourceData);
    assert payload[CMD_SIZE..CMD_SIZE + |text|] == text;
    if CMD_SIZE + |text| < MAX_PAYLOAD {
      StrlenFinds(payload, CMD_SIZE, text);
      StructReadsBack(cmd, payload);
      SignedUnsignedInverse(cmd.resource, 0);
      SignedUnsignedInverse(cmd.action, 0);
    } else {
      assert payload[CMD_SIZE..] == text;
    }
  }

  /** `freezer_recv_msg`: the string is copied afresh for every message, and the reply says
      whether the command was understood, not whether a table took it. */
  method FreezerRecvMsg(freezer: Freezer, payload: seq<byte>) returns (reply: int)
    requires freezer.Valid()
    requires CMD_SIZE <= |payload| && Decode(payload).Some?
    requires HasRoom(freezer.state.lists, Decode(payload).value.cmd)
    modifies freezer.Repr
    ensures freezer.Valid() && fresh(freezer.Repr - old(freezer.Repr))
    ensures freezer.state == Step(old(freezer.state), Decode(payload).value)
    ensures reply == if Understood(Decode(payload).value.cmd) then NLMSG_DONE else NLMSG_ERROR
    ensures reply == if Understood(Decode(payload).value.cmd) then 3 else 2
  {
    var data := NetlinkCmd(AsSigned(ReadWord(payload, 0)), ReadWord(payload, 4), AsSigned(ReadWord(payload, 8)));
    var length := Strlen(payload, CMD_SIZE).value;
    var resourceData := new CString(payload[CMD_SIZE..CMD_SIZE + length]);
    var res := freezer.CallWrapper(data, resourceData);
    reply := if res == 0 then NLMSG_DONE else NLMSG_ERROR;
  }

  /** One whole exchange: what userland asks for is what happens to the kernel's tables. */
  method SendAndReceive(freezer: Freezer, cmd: NetlinkCmd, resourceData: Option<CText>) returns (reply: int)
    requires freezer.Valid() && HasRoom(freezer.state.lists, cmd)
    requires CMD_SIZE + |TextOf(resourceData)| < MAX_PAYLOAD
    modifies freezer.Repr
    ensures freezer.Valid() && fresh(freezer.Repr - old(freezer.Repr))
    ensures freezer.state == Step(old(freezer.state), Message(cmd, TextOf(resourceData)))
    ensures reply == if Understood(cmd) then NLMSG_DONE else NLMSG_ERROR
  {
    var payload := BuildPayload(cmd, resourceData);
    assert Decode(payload[..]) == Some(Message(cmd, TextOf(resourceData))) by {
      DecodeInvertsPayload(cmd, resourceData);
    }
    reply := FreezerRecvMsg(freezer, payload[..]);
  }
}
