/** A message sent in packets arrives whole, whatever other channels send in between. */
module HidTransfer {
  import opened ByteStrings
  import opened HidFrames
  import opened HidWriter
  import opened HidReceiver

  /** The packets of a channel among all packets. */
  function Own(traffic: seq<Packet>, cid: Cid): seq<Packet> {
    if |traffic| == 0 then []
    else
      var p := traffic[|traffic| - 1];
      Own(traffic[..|traffic| - 1], cid) + if CidOf(p) == cid then [p] else []
  }

  lemma {:induction false} OwnPrefix(traffic: seq<Packet>, cid: Cid, i: nat)
    requires i <= |traffic|
    ensures |Own(traffic[..i], cid)| <= |Own(traffic, cid)|
    ensures Own(traffic, cid)[..|Own(traffic[..i], cid)|] == Own(traffic[..i], cid)
  {
    if i == |traffic| {
      assert traffic[..i] == traffic;
    } else {
      var init := traffic[..|traffic| - 1];
      OwnPrefix(init, cid, i);
      assert init[..i] == traffic[..i];
    }
  }

  /** The i-th packet, if it is the channel's, is the next of its packets. */
  lemma NextOwn(traffic: seq<Packet>, cid: Cid, i: nat)
    requires i < |traffic|
    ensures var n := |Own(traffic[..i], cid)|;
      if CidOf(traffic[i]) == cid
      then n < |Own(traffic, cid)| && traffic[i] == Own(traffic, cid)[n] && |Own(traffic[..i + 1], cid)| == n + 1
      else |Own(traffic[..i + 1], cid)| == n
  {
    assert traffic[..i + 1][..i] == traffic[..i] && traffic[..i + 1][i] == traffic[i];
    OwnPrefix(traffic, cid, i + 1);
    if CidOf(traffic[i]) == cid {
      var own := Own(traffic[..i + 1], cid);
      assert own == Own(traffic[..i], cid) + [traffic[i]];
      assert Own(traffic, cid)[|own| - 1] == Own(traffic, cid)[..|own|][|own| - 1];
    }
  }

  /** Packets of one message with packets of other channels, other than CTAPHID_INIT, between them. */
  ghost predicate Interleaved(traffic: seq<Packet>, cid: Cid, cmd: Byte, msg: seq<Byte>) {
    && |traffic| > 0 && CidOf(traffic[0]) == cid && CidOf(traffic[|traffic| - 1]) == cid
    && Framing(Own(traffic, cid), cid, cmd, msg)
    && forall i :: 0 <= i < |traffic| && CidOf(traffic[i]) != cid ==> CmdOf(traffic[i]) != CTAPHID_INIT
  }

  // ---------- What n packets of the message amount to ----------

  function Partial(cid: Cid, cmd: Byte, msg: seq<Byte>, n: nat): Assembly
    requires n > 0
  {
    Assembly(cid, cmd, |msg|, msg[..Min(Start(n), |msg|)], n - 2)
  }

  lemma FrameParts(p: Packet, cid: Cid, cmd: Byte, msg: seq<Byte>, k: nat)
    requires IsFrame(p, cid, cmd, |msg|, msg, k)
    ensures CidOf(p) == cid
    ensures k == 0 ==> CmdOf(p) == cmd && LengthOf(p) == |msg| && p[7..7 + |Payload(msg, 0)|] == Payload(msg, 0)
    ensures k > 0 ==> CmdOf(p) == k - 1 && p[5..5 + |Payload(msg, k)|] == Payload(msg, k)
  {
    var h, s := Header(cid, cmd, |msg|, k), Payload(msg, k);
    assert p[..|h|] == h;
    assert p[..4] == h[..4] == cid;
    assert p[|h|..|h| + |s|] == s;
    if k == 0 {
      assert p[4] == h[4] && p[5] == h[5] && p[6] == h[6];
    } else {
      assert p[4] == h[4];
    }
  }

  lemma FirstOpens(p: Packet, cid: Cid, cmd: Byte, msg: seq<Byte>)
    requires IsFrame(p, cid, cmd, |msg|, msg, 0)
    ensures Opened(p) == Partial(cid, cmd, msg, 1)
  {
    FrameParts(p, cid, cmd, msg, 0);
    assert Payload(msg, 0) == msg[..Min(Start(1), |msg|)];
  }

  lemma NextExtends(p: Packet, cid: Cid, cmd: Byte, msg: seq<Byte>, n: nat)
    requires n > 0 && IsFrame(p, cid, cmd, |msg|, msg, n)
    ensures Extended(Partial(cid, cmd, msg, n), p) == Partial(cid, cmd, msg, n + 1)
  {
    FrameParts(p, cid, cmd, msg, n);
    assert msg[..Start(n)] + Payload(msg, n) == msg[..Min(Start(n + 1), |msg|)];
    assert |Payload(msg, n)| == Min(|msg| - Start(n), CONT_PAYLOAD);
  }

  // ---------- Delivery ----------

  /** The receiver has taken n of the message's packets and more are to come. */
  ghost predicate Holding(rx: Receiver, cid: Cid, cmd: Byte, msg: seq<Byte>, n: nat)
    reads rx, rx.buffer
  {
    n > 0 && rx.Valid() && rx.State() == Partial(cid, cmd, msg, n) && rx.InProgress() && rx.Exists(cid)
  }

  /** Some of the packets are missing, or the message was delivered. */
  ghost predicate Receiving(rx: Receiver, r: Result, cid: Cid, cmd: Byte, msg: seq<Byte>, n: nat, last: nat)
    reads rx, rx.buffer
  {
    rx.Valid() && if n < last then Holding(rx, cid, cmd, msg, n) else r == Message(cid, cmd, msg) && rx.bcnt == 0
  }

  /** The packets of one message, with any packets of other channels between them, yield exactly
      the message. The channel must be known or find a free place in the table. */
  method Deliver(rx: Receiver, traffic: seq<Packet>, fresh_: Cid, ghost cid: Cid, ghost cmd: Byte, ghost msg: seq<Byte>)
    returns (r: Result)
    requires rx.Valid() && rx.bcnt == 0 && (rx.Exists(cid) || rx.HasFree())
    requires cid != BROADCAST && cmd >= TYPE_INIT && cmd != CTAPHID_INIT && 0 < |msg| <= CTAPHID_BUFFER_SIZE
    requires Interleaved(traffic, cid, cmd, msg)
    modifies rx, rx.buffer
    ensures r == Message(cid, cmd, msg) && rx.Valid() && rx.bcnt == 0
  {
    ghost var last := |Own(traffic, cid)|;
    TakenEnds(traffic, cid);
    Position(traffic, cid, cmd, msg, 0, 0);
    r := FirstPacket(rx, traffic[0], fresh_, cid, cmd, msg, last);
    ghost var n := 1;
    var i := 1;
    while i < |traffic|
      invariant 1 <= i <= |traffic|
      invariant 1 <= n == Taken(traffic, cid, i) <= last
      invariant Receiving(rx, r, cid, cmd, msg, n, last)
    {
      Position(traffic, cid, cmd, msg, i, n);
      r := NextPacket(rx, traffic[i], fresh_, cid, cmd, msg, n, last);
      n := if CidOf(traffic[i]) == cid then n + 1 else n;
      i := i + 1;
    }
  }

  /** How many of the first i packets are the channel's. */
  function Taken(traffic: seq<Packet>, cid: Cid, i: nat): nat
    requires i <= |traffic|
  {
    |Own(traffic[..i], cid)|
  }

  lemma TakenEnds(traffic: seq<Packet>, cid: Cid)
    ensures Taken(traffic, cid, 0) == 0 && Taken(traffic, cid, |traffic|) == |Own(traffic, cid)|
  {
    assert traffic[..0] == [] && traffic[..|traffic|] == traffic;
  }

  /** The last packet belongs to the message, so before it some packet is still missing. */
  lemma NotYetAll(traffic: seq<Packet>, cid: Cid, i: nat)
    requires i < |traffic| && CidOf(traffic[|traffic| - 1]) == cid
    ensures |Own(traffic[..i], cid)| < |Own(traffic, cid)|
  {
    var init := traffic[..|traffic| - 1];
    OwnPrefix(init, cid, i);
    assert init[..i] == traffic[..i];
  }

  /** What the i-th packet is for a receiver that has n packets of the message. */
  lemma Position(traffic: seq<Packet>, cid: Cid, cmd: Byte, msg: seq<Byte>, i: nat, n: nat)
    requires Interleaved(traffic, cid, cmd, msg) && i < |traffic| && n == Taken(traffic, cid, i)
    ensures n < |Own(traffic, cid)| && Fits(|msg|, |Own(traffic, cid)|)
    ensures if CidOf(traffic[i]) == cid then IsFrame(traffic[i], cid, cmd, |msg|, msg, n) else CmdOf(traffic[i]) != CTAPHID_INIT
    ensures Taken(traffic, cid, i + 1) == if CidOf(traffic[i]) == cid then n + 1 else n
  {
    NotYetAll(traffic, cid, i);
    NextOwn(traffic, cid, i);
    assert IsFrame(Own(traffic, cid)[n], cid, cmd, |msg|, msg, n);
  }

  lemma Completion(cid: Cid, cmd: Byte, msg: seq<Byte>, n: nat, last: nat)
    requires 0 < n <= last && Fits(|msg|, last) && |msg| > 0
    ensures n < last ==> Partial(cid, cmd, msg, n).InProgress()
    ensures n == last ==> Partial(cid, cmd, msg, n).Outcome() == Message(cid, cmd, msg)
  {
    if n == last {
      assert msg[..|msg|] == msg;
    }
  }

  method FirstPacket(rx: Receiver, p: Packet, fresh_: Cid, ghost cid: Cid, ghost cmd: Byte, ghost msg: seq<Byte>, ghost last: nat)
    returns (r: Result)
    requires rx.Valid() && rx.bcnt == 0 && (rx.Exists(cid) || rx.HasFree())
    requires cid != BROADCAST && cmd >= TYPE_INIT && cmd != CTAPHID_INIT && 0 < |msg| <= CTAPHID_BUFFER_SIZE
    requires Fits(|msg|, last) && IsFrame(p, cid, cmd, |msg|, msg, 0)
    modifies rx, rx.buffer
    ensures Receiving(rx, r, cid, cmd, msg, 1, last)
  {
    FrameParts(p, cid, cmd, msg, 0);
    FirstOpens(p, cid, cmd, msg);
    Completion(cid, cmd, msg, 1, last);
    r := rx.HandlePacket(p, fresh_);
  }

  method NextPacket(rx: Receiver, p: Packet, fresh_: Cid, ghost cid: Cid, ghost cmd: Byte, ghost msg: seq<Byte>, ghost n: nat, ghost last: nat)
    returns (r: Result)
    requires Holding(rx, cid, cmd, msg, n) && cid != BROADCAST && 0 < |msg| <= CTAPHID_BUFFER_SIZE
    requires n < last && Fits(|msg|, last)
    requires if CidOf(p) == cid then IsFrame(p, cid, cmd, |msg|, msg, n) else CmdOf(p) != CTAPHID_INIT
    modifies rx, rx.buffer
    ensures Receiving(rx, r, cid, cmd, msg, if CidOf(p) == cid then n + 1 else n, last)
  {
    if CidOf(p) == cid {
      FrameParts(p, cid, cmd, msg, n);
      NextExtends(p, cid, cmd, msg, n);
      Completion(cid, cmd, msg, n + 1, last);
    }
    assert |rx.State().arrived| == rx.offset;
    r := rx.HandlePacket(p, fresh_);
    assert |rx.State().arrived| == rx.offset;
  }

  /** Sender and receiver together: a message of 1 to 1344 bytes, split in any way across the
      sender's calls, arrives as it was. */
  method Transfer(rx: Receiver, cid: Cid, cmd: Byte, pieces: seq<seq<Byte>>, fresh_: Cid) returns (r: Result)
    requires rx.Valid() && rx.bcnt == 0 && (rx.Exists(cid) || rx.HasFree())
    requires cid != BROADCAST && cmd >= TYPE_INIT && cmd != CTAPHID_INIT
    requires 0 < |Flat(pieces)| <= CTAPHID_BUFFER_SIZE
    modifies rx, rx.buffer
    ensures r == Message(cid, cmd, Flat(pieces))
  {
    var packets := SendMessage(cid, cmd, pieces);
    AllOwn(packets, cid, cmd, Flat(pieces));
    r := Deliver(rx, packets, fresh_, cid, cmd, Flat(pieces));
  }

  lemma AllOwn(packets: seq<Packet>, cid: Cid, cmd: Byte, msg: seq<Byte>)
    requires Framing(packets, cid, cmd, msg)
    ensures Interleaved(packets, cid, cmd, msg)
  {
    forall k | 0 <= k < |packets| ensures CidOf(packets[k]) == cid {
      assert IsFrame(packets[k], cid, cmd, |msg|, msg, k);
      FrameParts(packets[k], cid, cmd, msg, k);
    }
    OwnIsAll(packets, cid);
  }

  lemma {:induction false} OwnIsAll(packets: seq<Packet>, cid: Cid)
    requires forall k :: 0 <= k < |packets| ==> CidOf(packets[k]) == cid
    ensures Own(packets, cid) == packets
  {
    if |packets| > 0 { OwnIsAll(packets[..|packets| - 1], cid); }
  }
}
