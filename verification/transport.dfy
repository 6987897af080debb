/** The abstract transport and the byte frames the updater hands to it.

    The device side is a script of answers, one per transaction, in order: an
    answer either refuses the transaction (the `ioctl`, `read` or `write` call
    fails) or completes it with some bytes. A script that has run out refuses
    everything. The channel records every frame it is handed. */
module Transport {
  import opened Bytes

  datatype Option<T> = None | Some(value: T)

  /** The physical binding chosen when the session opens (`interface_type`). */
  datatype Interface = Hid | I2c

  /** What the device does with one transaction. */
  datatype Answer = Refused | Answered(bytes: seq<byte>)

  /** HID report ids and the fixed bytes of the frames. */
  const HidCmdReport: byte := 0x0D
  const HidBlockReport: byte := 0x0B
  const HidReadOpcode: seq<byte> := [0x05, 0x03]
  const I2cBlockHeader: seq<byte> := [0x01, 0x06]   // ETP_I2C_IAP_REG_L, ETP_I2C_IAP_REG_H
  const HidReplyHeader: nat := 3

  /** Byte `k` of an answer, zero past its end (the receive buffer starts zeroed). */
  function AnswerByte(bytes: seq<byte>, k: nat): byte
  {
    if k < |bytes| then bytes[k] else 0
  }

  /** The `n` bytes the host ends up with when the device answers `bytes`. */
  function Fit(bytes: seq<byte>, n: nat): (r: seq<byte>)
    ensures |r| == n
    ensures forall k :: 0 <= k < n ==> r[k] == AnswerByte(bytes, k)
  {
    if n <= |bytes| then bytes[..n] else bytes + seq(n - |bytes|, _ => 0)
  }

  function Next(answers: seq<Answer>): Answer
  {
    if |answers| == 0 then Refused else answers[0]
  }

  function Later(answers: seq<Answer>): seq<Answer>
  {
    if |answers| == 0 then [] else answers[1..]
  }

  /** What one transaction asking for `n` reply bytes delivers. */
  function Delivered(a: Answer, n: nat): (r: Option<seq<byte>>)
    ensures r.Some? <==> a.Answered?
    ensures r.Some? ==> r.value == Fit(a.bytes, n)
  {
    match a
    case Refused => None
    case Answered(bytes) => Some(Fit(bytes, n))
  }

  class Channel {
    /** Every frame handed to the channel, in order. */
    var sent: seq<seq<byte>>
    /** What the device will do with the coming transactions, in order. */
    var answers: seq<Answer>

    constructor (script: seq<Answer>)
      ensures sent == [] && answers == script
    {
      sent := [];
      answers := script;
    }

    /** One transaction: hand `frame` over and collect `replyLength` bytes (none for a plain write). */
    method Transfer(frame: seq<byte>, replyLength: nat) returns (reply: Option<seq<byte>>)
      modifies this
      ensures sent == old(sent) + [frame]
      ensures answers == Later(old(answers))
      ensures reply == Delivered(Next(old(answers)), replyLength)
    {
      reply := Delivered(Next(answers), replyLength);
      sent := sent + [frame];
      answers := Later(answers);
    }
  }

  // ----- register frames (elan_write_and_read, hid_read_cmd, hid_write_cmd) -----

  /** The frame that asks for a register: `[lo, hi]` on I2C, `[0x0D, 0x05, 0x03, lo, hi]` on HID.
      Its last two bytes address the register. */
  function ReadRequest(iface: Interface, reg: nat): (f: seq<byte>)
    ensures |f| == (if iface == Hid then 5 else 2)
    ensures reg < Word ==> LeBytesToInt(f[|f| - 2..]) == reg
    ensures iface == Hid ==> f[..3] == [HidCmdReport] + HidReadOpcode
  {
    match iface
    case Hid => [HidCmdReport] + HidReadOpcode + [Lo(reg), Hi(reg)]
    case I2c => [Lo(reg), Hi(reg)]
  }

  /** The frame that writes a command word to a register: `[lo(reg), hi(reg), lo(cmd), hi(cmd)]`,
      behind the report id 0x0D on HID. */
  function WriteRequest(iface: Interface, reg: nat, cmd: nat): (f: seq<byte>)
    ensures |f| == (if iface == Hid then 5 else 4)
    ensures reg < Word ==> LeBytesToInt(f[|f| - 4..]) == reg
    ensures cmd < Word ==> LeBytesToInt(f[|f| - 2..]) == cmd
    ensures iface == Hid ==> f[0] == HidCmdReport
  {
    (if iface == Hid then [HidCmdReport] else []) + [Lo(reg), Hi(reg), Lo(cmd), Hi(cmd)]
  }

  /** On HID a register read is literally the write of that register number to register 0x0305. */
  lemma HidReadIsWriteTo0305(reg: nat)
    ensures ReadRequest(Hid, reg) == WriteRequest(Hid, 0x0305, reg)
  {
  }

  // ----- firmware block frames (i2c_write_fw_block, hid_write_fw_block) -----

  function BlockHeader(iface: Interface): seq<byte>
  {
    if iface == Hid then [HidBlockReport] else I2cBlockHeader
  }

  /** `[0x01, 0x06] ++ data ++ [lo(cks), hi(cks)]` on I2C, `[0x0B] ++ data ++ [lo(cks), hi(cks)]` on HID. */
  function BlockFrame(iface: Interface, data: seq<byte>, checksum: u16): (f: seq<byte>)
    ensures |f| == |data| + (if iface == Hid then 3 else 4)
  {
    BlockHeader(iface) + data + [Lo(checksum), Hi(checksum)]
  }

  /** Reading a block frame back: the data between the header and the checksum, and the checksum. */
  function ParseBlockFrame(iface: Interface, f: seq<byte>): (r: Option<(seq<byte>, u16)>)
    ensures r.Some? ==> |f| == |r.value.0| + |BlockHeader(iface)| + 2
  {
    var h := |BlockHeader(iface)|;
    if |f| >= h + 2 && f[..h] == BlockHeader(iface)
    then Some((f[h..|f| - 2], LeBytesToInt(f[|f| - 2..])))
    else None
  }

  /** A block frame carries its data and its checksum unchanged. */
  lemma BlockFrameRoundTrip(iface: Interface, data: seq<byte>, checksum: u16)
    ensures ParseBlockFrame(iface, BlockFrame(iface, data, checksum)) == Some((data, checksum))
  {
    var f := BlockFrame(iface, data, checksum);
    var h := |BlockHeader(iface)|;
    assert f[..h] == BlockHeader(iface);
    assert f[h..|f| - 2] == data;
    assert f[|f| - 2..] == [Lo(checksum), Hi(checksum)];
    LeRoundTrip(checksum);
  }

  /** No block frame is a register frame: their first bytes differ. */
  lemma BlockFramesAreNotRegisterFrames(iface: Interface, data: seq<byte>, checksum: u16, reg: nat, cmd: nat)
    ensures BlockFrame(iface, data, checksum) != ReadRequest(iface, reg)
    ensures iface == Hid ==> BlockFrame(iface, data, checksum) != WriteRequest(iface, reg, cmd)
  {
    var f := BlockFrame(iface, data, checksum);
    assert f[0] == BlockHeader(iface)[0];
    if iface == I2c {
      assert |ReadRequest(iface, reg)| == 2 && |f| >= 4;
    }
  }

  // ----- replies (hid_send_cmd strips a 3-byte report header; i2c_send_cmd does not) -----

  /** How many bytes the transport is asked for when the caller wants `n` payload bytes. */
  function ReplyLength(iface: Interface, n: nat): nat
  {
    if iface == Hid && n > 0 then n + HidReplyHeader else n
  }

  /** Where the payload starts inside what the transport delivered. */
  function ReplyOffset(iface: Interface, n: nat): nat
  {
    if iface == Hid && n > 0 then HidReplyHeader else 0
  }

  /** The payload of a delivered reply: `buf[3..3+n)` on HID, the whole buffer on I2C. */
  function Payload(iface: Interface, buf: seq<byte>, n: nat): (p: seq<byte>)
    requires |buf| == ReplyLength(iface, n)
    ensures |p| == n
    ensures forall k :: 0 <= k < n ==> p[k] == buf[ReplyOffset(iface, n) + k]
  {
    if iface == Hid && n > 0 then buf[HidReplyHeader..] else buf
  }

  /** The payload a transaction asking for `n` bytes yields, if the device completes it:
      bytes `[3, 3+n)` of its answer on HID, bytes `[0, n)` on I2C. */
  function Reply(iface: Interface, a: Answer, n: nat): (r: Option<seq<byte>>)
    ensures r.Some? <==> a.Answered?
    ensures r.Some? ==> |r.value| == n
    ensures r.Some? ==> forall k :: 0 <= k < n ==> r.value[k] == AnswerByte(a.bytes, ReplyOffset(iface, n) + k)
  {
    match Delivered(a, ReplyLength(iface, n))
    case None => None
    case Some(buf) => Some(Payload(iface, buf, n))
  }

  /** The receive buffer after a transaction that asked for `n` payload bytes: the payload
      over its first `n` bytes when the device answered, the previous contents when it refused. */
  function Received(iface: Interface, buf: seq<byte>, a: Answer, n: nat): (r: seq<byte>)
    requires n <= |buf|
    ensures |r| == |buf| && r[n..] == buf[n..]
    ensures a.Refused? ==> r == buf
    ensures a.Answered? ==> forall k :: 0 <= k < n ==> r[k] == AnswerByte(a.bytes, ReplyOffset(iface, n) + k)
  {
    if a.Answered? && n > 0 then Reply(iface, a, n).value + buf[n..] else buf
  }

  /** The word a register read leaves in the receive buffer: bytes 3 and 4 of the answer on HID,
      bytes 0 and 1 on I2C, and the stale word of the previous transaction when the device refused. */
  lemma ReadWord(iface: Interface, buf: seq<byte>, a: Answer)
    requires |buf| >= 2
    ensures var w := LeBytesToInt(Received(iface, buf, a, 2));
      var off := if iface == Hid then 3 else 0;
      && (a.Refused? ==> w == LeBytesToInt(buf))
      && (a.Answered? ==> w == AnswerByte(a.bytes, off) + 0x100 * AnswerByte(a.bytes, off + 1))
  {
    var r := Received(iface, buf, a, 2);
    assert a.Answered? ==> r[0] == AnswerByte(a.bytes, ReplyOffset(iface, 2)) && r[1] == AnswerByte(a.bytes, ReplyOffset(iface, 2) + 1);
  }

  // ----- the register-level view of the traffic -----

  /** One operation of the register protocol, as the session sees it. A read records the word
      left in the receive buffer afterwards (the previous contents when the transfer failed). */
  datatype Op =
    | Read(reg: nat, value: u16)
    | Write(reg: nat, cmd: nat, ok: bool)
    | Block(data: seq<byte>, checksum: u16, ok: bool)

  /** The bytes on the wire for one operation. */
  function Encode(iface: Interface, op: Op): seq<byte>
  {
    match op
    case Read(reg, _) => ReadRequest(iface, reg)
    case Write(reg, cmd, _) => WriteRequest(iface, reg, cmd)
    case Block(data, checksum, _) => BlockFrame(iface, data, checksum)
  }

  /** The frames a run of operations puts on the wire, in order. */
  function Frames(iface: Interface, ops: seq<Op>): seq<seq<byte>>
    decreases |ops|
  {
    if |ops| == 0 then [] else Frames(iface, ops[..|ops| - 1]) + [Encode(iface, ops[|ops| - 1])]
  }

  /** Frame `k` on the wire is the encoding of operation `k`. */
  lemma {:induction false} FramesAt(iface: Interface, ops: seq<Op>)
    ensures |Frames(iface, ops)| == |ops|
    ensures forall k :: 0 <= k < |ops| ==> Frames(iface, ops)[k] == Encode(iface, ops[k])
    decreases |ops|
  {
    if |ops| > 0 {
      FramesAt(iface, ops[..|ops| - 1]);
    }
  }
}
