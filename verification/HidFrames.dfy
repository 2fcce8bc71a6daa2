/** CTAPHID framing (section 11.2.4 of CTAP 2.1): how a message is cut into 64-byte packets. */
module HidFrames {
  import opened ByteStrings

  const HID_MESSAGE_SIZE: nat := 64
  const INIT_PAYLOAD: nat := 57
  const CONT_PAYLOAD: nat := 59
  const CTAPHID_BUFFER_SIZE: nat := 1344
  const MAX_MESSAGE: nat := 7609      // one initialisation and 128 continuation packets
  const TYPE_INIT: nat := 0x80
  const CTAPHID_INIT: nat := 0x86
  const CTAPHID_MSG: nat := 0x83
  const CTAPHID_CBOR: nat := 0x90

  /** A channel identifier: the four bytes of the packet's cid field. */
  type Cid = s: seq<Byte> | |s| == 4 witness [0, 0, 0, 0]

  const BROADCAST: Cid := [255, 255, 255, 255]

  /** A raw packet. */
  type Packet = s: seq<Byte> | |s| == HID_MESSAGE_SIZE witness seq(HID_MESSAGE_SIZE, _ => 0)

  function CidOf(p: Packet): Cid { p[..4] }

  /** The command byte of an initialisation packet, the sequence number of a continuation. */
  function CmdOf(p: Packet): Byte { p[4] }

  predicate IsCont(p: Packet) { CmdOf(p) < TYPE_INIT }

  /** ctaphid_packet_len. */
  function LengthOf(p: Packet): nat { var high: int := p[5]; high * 256 + p[6] }

  /** Where the payload of the k-th packet starts in the message. */
  function Start(k: nat): nat { if k == 0 then 0 else INIT_PAYLOAD + CONT_PAYLOAD * (k - 1) }

  function Header(cid: Cid, cmd: Byte, bcnt: nat, k: nat): (h: seq<Byte>)
    requires bcnt < 0x10000 && k <= 256
    ensures |h| == if k == 0 then 7 else 5
  {
    if k == 0 then cid + [cmd, bcnt / 256, bcnt % 256] else cid + [k - 1]
  }

  /** The part of the message in the k-th packet. */
  function Payload(msg: seq<Byte>, k: nat): (s: seq<Byte>)
    requires Start(k) <= |msg|
    ensures |s| <= Start(k + 1) - Start(k)
  {
    if Start(k + 1) <= |msg| then msg[Start(k)..Start(k + 1)] else msg[Start(k)..]
  }

  function Frame(cid: Cid, cmd: Byte, bcnt: nat, msg: seq<Byte>, k: nat): (p: Packet)
    requires bcnt < 0x10000 && k <= 256 && Start(k) <= |msg|
  {
    var s := Header(cid, cmd, bcnt, k) + Payload(msg, k);
    s + Repeat(0, HID_MESSAGE_SIZE - |s|)
  }

  /** n packets are enough for the message, and all are needed; an empty message needs one. */
  predicate Fits(length: nat, n: nat) {
    n > 0 && length <= Start(n) && (n > 1 ==> Start(n - 1) < length)
  }

  /** The packets of a message. */
  ghost predicate Framing(packets: seq<Packet>, cid: Cid, cmd: Byte, msg: seq<Byte>) {
    && |msg| < 0x10000 && |packets| <= 256 && Fits(|msg|, |packets|)
    && forall k {:trigger IsFrame(packets[k], cid, cmd, |msg|, msg, k)} :: 0 <= k < |packets| ==>
      IsFrame(packets[k], cid, cmd, |msg|, msg, k)
  }

  ghost predicate IsFrame(p: Packet, cid: Cid, cmd: Byte, bcnt: nat, msg: seq<Byte>, k: nat) {
    bcnt < 0x10000 && k <= 256 && Start(k) <= |msg| && p == Frame(cid, cmd, bcnt, msg, k)
  }

  /** Full packets with the beginning of a message. */
  ghost predicate Sending(sent: seq<Packet>, cid: Cid, cmd: Byte, bcnt: nat, msg: seq<Byte>) {
    && |sent| <= 129 && bcnt < 0x10000 && Start(|sent|) <= |msg|
    && forall k {:trigger IsFrame(sent[k], cid, cmd, bcnt, msg, k)} :: 0 <= k < |sent| ==>
      IsFrame(sent[k], cid, cmd, bcnt, msg, k)
  }

  lemma SendingGrows(sent: seq<Packet>, cid: Cid, cmd: Byte, bcnt: nat, msg: seq<Byte>, b: Byte)
    requires Sending(sent, cid, cmd, bcnt, msg)
    ensures Sending(sent, cid, cmd, bcnt, msg + [b])
  {
    forall k | 0 <= k < |sent| ensures IsFrame(sent[k], cid, cmd, bcnt, msg + [b], k) {
      assert IsFrame(sent[k], cid, cmd, bcnt, msg, k);
      FrameKept(cid, cmd, bcnt, msg, b, k);
    }
  }

  lemma SendingMore(sent: seq<Packet>, p: Packet, cid: Cid, cmd: Byte, bcnt: nat, msg: seq<Byte>)
    requires Sending(sent, cid, cmd, bcnt, msg) && |sent| <= 128 && Start(|sent| + 1) == |msg|
    requires p == Header(cid, cmd, bcnt, |sent|) + msg[Start(|sent|)..]
    ensures Sending(sent + [p], cid, cmd, bcnt, msg)
  {
    assert p == p + Repeat(0, 0);
    LastFrame(cid, cmd, bcnt, msg, |sent|, p);
    forall k | 0 <= k < |sent| + 1 ensures IsFrame((sent + [p])[k], cid, cmd, bcnt, msg, k) {
      if k < |sent| { assert IsFrame(sent[k], cid, cmd, bcnt, msg, k); }
    }
  }

  lemma SendingAll(sent: seq<Packet>, p: Packet, cid: Cid, cmd: Byte, msg: seq<Byte>)
    requires Sending(sent, cid, cmd, |msg|, msg) && |sent| <= 128 && |msg| < Start(|sent| + 1)
    requires |sent| == 0 || Start(|sent|) < |msg|
    requires var s := Header(cid, cmd, |msg|, |sent|) + msg[Start(|sent|)..]; p == s + Repeat(0, HID_MESSAGE_SIZE - |s|)
    ensures Framing(sent + [p], cid, cmd, msg)
  {
    LastFrame(cid, cmd, |msg|, msg, |sent|, p);
    forall k | 0 <= k < |sent| + 1 ensures IsFrame((sent + [p])[k], cid, cmd, |msg|, msg, k) {
      if k < |sent| { assert IsFrame(sent[k], cid, cmd, |msg|, msg, k); }
    }
  }

  // ---------- The bytes on the wire ----------

  /** What the packets carry: bytes 7 to 63 of the first, bytes 5 to 63 of the others. */
  function Carried(packets: seq<Packet>): seq<Byte> {
    if |packets| == 0 then []
    else Carried(packets[..|packets| - 1]) + packets[|packets| - 1][if |packets| == 1 then 7 else 5..]
  }

  /** Section 11.2.4 of CTAP 2.1: all packets start with the channel; the first has the command and the
      length, high byte first, the others are numbered from zero; what they carry is the message, filled
      up with zeros in the last one. */
  ghost predicate OnWire(packets: seq<Packet>, cid: Cid, cmd: Byte, msg: seq<Byte>) {
    && |packets| > 0 && (forall k :: 0 <= k < |packets| ==> packets[k][..4] == cid)
    && packets[0][4] == cmd && 256 * packets[0][5] as int + packets[0][6] as int == |msg|
    && (forall k :: 1 <= k < |packets| ==> packets[k][4] == k - 1)
    && Carries(packets, msg)
  }

  ghost predicate Carries(packets: seq<Packet>, msg: seq<Byte>) {
    var all := Carried(packets);
    && |msg| <= |all| == 57 + 59 * (|packets| - 1) && (|packets| > 1 ==> |all| - |msg| < 59)
    && all == msg + Repeat(0, |all| - |msg|)
  }

  /** A framing is that. */
  lemma FramingOnWire(packets: seq<Packet>, cid: Cid, cmd: Byte, msg: seq<Byte>)
    requires Framing(packets, cid, cmd, msg)
    ensures OnWire(packets, cid, cmd, msg)
  {
    forall k | 0 <= k < |packets|
      ensures packets[k][..4] == cid && (k > 0 ==> packets[k][4] == k - 1)
    {
      assert IsFrame(packets[k], cid, cmd, |msg|, msg, k);
      FrameHeader(packets[k], cid, cmd, |msg|, msg, k);
    }
    assert IsFrame(packets[0], cid, cmd, |msg|, msg, 0);
    FrameHeader(packets[0], cid, cmd, |msg|, msg, 0);
    FramingCarries(packets, cid, cmd, msg);
  }

  lemma FramingCarries(packets: seq<Packet>, cid: Cid, cmd: Byte, msg: seq<Byte>)
    requires Framing(packets, cid, cmd, msg)
    ensures Carries(packets, msg)
  {
    var n := |packets| - 1;
    CarriedFull(packets, cid, cmd, msg, n);
    assert packets[..n] == packets[..|packets| - 1];
    assert IsFrame(packets[n], cid, cmd, |msg|, msg, n);
    LastCarried(packets[n], cid, cmd, msg, n);
    FilledUp(msg, Start(n), Payload(msg, n), Start(n + 1) - Start(n) - |Payload(msg, n)|);
  }

  lemma FilledUp(msg: seq<Byte>, at: nat, rest: seq<Byte>, zeros: nat)
    requires at <= |msg| && rest == msg[at..]
    ensures msg[..at] + (rest + Repeat(0, zeros)) == msg + Repeat(0, zeros)
  {
    assert msg == msg[..at] + rest;
  }

  lemma FrameHeader(p: Packet, cid: Cid, cmd: Byte, bcnt: nat, msg: seq<Byte>, k: nat)
    requires IsFrame(p, cid, cmd, bcnt, msg, k)
    ensures p[..4] == cid && (k > 0 ==> p[4] == k - 1)
    ensures k == 0 ==> p[4] == cmd && 256 * p[5] as int + p[6] as int == bcnt
  {
    var h := Header(cid, cmd, bcnt, k);
    assert p[..|h|] == h;
    assert p[..4] == h[..4] == cid;
    assert p[4] == h[4] && (k == 0 ==> p[5] == h[5] && p[6] == h[6]);
  }

  lemma {:induction false} CarriedFull(packets: seq<Packet>, cid: Cid, cmd: Byte, msg: seq<Byte>, n: nat)
    requires Framing(packets, cid, cmd, msg) && n < |packets|
    ensures Start(n) <= |msg| && Carried(packets[..n]) == msg[..Start(n)]
  {
    assert IsFrame(packets[n], cid, cmd, |msg|, msg, n);
    if n > 0 {
      CarriedFull(packets, cid, cmd, msg, n - 1);
      CarriedNext(packets, n);
      assert IsFrame(packets[n - 1], cid, cmd, |msg|, msg, n - 1);
      LastCarried(packets[n - 1], cid, cmd, msg, n - 1);
      FullPayload(msg, n - 1);
    }
  }

  lemma CarriedNext(packets: seq<Packet>, n: nat)
    requires 0 < n <= |packets|
    ensures Carried(packets[..n]) == Carried(packets[..n - 1]) + packets[n - 1][if n == 1 then 7 else 5..]
  {
    assert packets[..n][..n - 1] == packets[..n - 1];
  }

  lemma FullPayload(msg: seq<Byte>, k: nat)
    requires Start(k + 1) <= |msg|
    ensures msg[..Start(k)] + (Payload(msg, k) + Repeat(0, 0)) == msg[..Start(k + 1)]
    ensures |Payload(msg, k)| == Start(k + 1) - Start(k)
  {
    assert Payload(msg, k) + Repeat(0, 0) == msg[Start(k)..Start(k + 1)];
  }

  lemma LastCarried(p: Packet, cid: Cid, cmd: Byte, msg: seq<Byte>, k: nat)
    requires IsFrame(p, cid, cmd, |msg|, msg, k)
    ensures p[if k == 0 then 7 else 5..] == Payload(msg, k) + Repeat(0, Start(k + 1) - Start(k) - |Payload(msg, k)|)
  {
    var h, s := Header(cid, cmd, |msg|, k), Payload(msg, k);
    assert p == h + s + Repeat(0, HID_MESSAGE_SIZE - |h + s|);
  }

  /** A full packet does not change when the message grows. */
  lemma FrameKept(cid: Cid, cmd: Byte, bcnt: nat, msg: seq<Byte>, b: Byte, k: nat)
    requires bcnt < 0x10000 && k <= 256 && Start(k + 1) <= |msg|
    ensures Frame(cid, cmd, bcnt, msg + [b], k) == Frame(cid, cmd, bcnt, msg, k)
  {
    assert (msg + [b])[Start(k)..Start(k + 1)] == msg[Start(k)..Start(k + 1)];
  }

  /** The last packet of a message: header, rest of the message, zeros. */
  lemma LastFrame(cid: Cid, cmd: Byte, bcnt: nat, msg: seq<Byte>, k: nat, p: Packet)
    requires bcnt < 0x10000 && k <= 256 && Start(k) <= |msg| <= Start(k + 1)
    requires var s := Header(cid, cmd, bcnt, k) + msg[Start(k)..]; p == s + Repeat(0, HID_MESSAGE_SIZE - |s|)
    ensures p == Frame(cid, cmd, bcnt, msg, k)
  {
    if |msg| == Start(k + 1) {
      assert msg[Start(k)..Start(k + 1)] == msg[Start(k)..];
    }
  }
}
