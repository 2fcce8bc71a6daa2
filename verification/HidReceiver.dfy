/** Reassembly in fido2/src/ctaphid.c: the channel table, the message buffer and the handling of
    one packet. */
module HidReceiver {
  import opened ByteStrings
  import opened HidFrames

  const CID_MAX: nat := 10

  /** struct CID without its time stamp. */
  datatype Slot = Slot(cid: Cid, busy: bool)

  datatype ErrorCode = InvalidLength | InvalidChannel | ChannelBusy | InvalidSeq

  datatype Result =
    | Ignored
    | Error(code: ErrorCode)
    | Buffering
    | Message(cid: Cid, cmd: Byte, data: seq<Byte>)

  /** A message under assembly. */
  datatype Assembly = Assembly(cid: Cid, cmd: Byte, bcnt: nat, arrived: seq<Byte>, packetSeq: int)
  {
    predicate InProgress() { bcnt != 0 && |arrived| != bcnt }

    function Outcome(): Result { if InProgress() then Buffering else Message(cid, cmd, arrived) }
  }

  function Min(a: nat, b: nat): nat { if a < b then a else b }

  /** What an initialisation packet starts. */
  function Opened(p: Packet): Assembly {
    Assembly(CidOf(p), CmdOf(p), LengthOf(p), p[7..7 + Min(LengthOf(p), INIT_PAYLOAD)], -1)
  }

  /** What a continuation packet adds. */
  function Extended(a: Assembly, p: Packet): Assembly
    requires |a.arrived| <= a.bcnt
  {
    a.(arrived := a.arrived + p[5..5 + Min(a.bcnt - |a.arrived|, CONT_PAYLOAD)], packetSeq := a.packetSeq + 1)
  }

  class Receiver {
    var slots: seq<Slot>
    const buffer: array<Byte>
    var bufferCid: Cid
    var bufferCmd: Byte
    var bcnt: nat
    var offset: nat
    var packetSeq: int

    /** The message never overruns its length nor the buffer. */
    ghost predicate Valid()
      reads this
    {
      buffer.Length == CTAPHID_BUFFER_SIZE && |slots| == CID_MAX && offset <= bcnt <= CTAPHID_BUFFER_SIZE && -1 <= packetSeq
    }

    constructor ()
      ensures Valid() && fresh(buffer) && bcnt == 0 && |slots| == 10 && HasFree()
    {
      slots := seq(CID_MAX, _ => Slot([0, 0, 0, 0], false));
      buffer := new Byte[CTAPHID_BUFFER_SIZE](_ => 0);
      bufferCid, bufferCmd, bcnt, offset, packetSeq := [0, 0, 0, 0], 0, 0, 0, 0;
      new;
      assert !slots[0].busy;
    }

    // ---------- Channels: the last entry of the table is never used ----------

    predicate Exists(cid: Cid)
      reads this
    {
      exists i :: 0 <= i < |slots| - 1 && slots[i].cid == cid
    }

    predicate HasFree()
      reads this
    {
      exists i :: 0 <= i < |slots| - 1 && !slots[i].busy
    }

    /** The channel has an entry, and the flag of the first one is this. */
    ghost predicate Flag(cid: Cid, busy: bool)
      reads this
    {
      exists i :: IsEntry(slots, cid, i) && slots[i].busy == busy
    }

    method AddCid(cid: Cid) returns (ok: bool)
      requires Valid()
      modifies this`slots
      ensures Valid() && ok == old(HasFree()) && (ok ==> Exists(cid)) && (!ok ==> slots == old(slots))
      ensures ok ==> exists i :: FirstFree(old(slots), i) && slots == old(slots)[i := Slot(cid, true)]
    {
      ok := false;
      for i := 0 to CID_MAX - 1
        invariant slots == old(slots) && forall j :: 0 <= j < i ==> slots[j].busy
      {
        if !slots[i].busy {
          assert FirstFree(slots, i);
          slots := slots[i := Slot(cid, true)];
          assert slots[i].cid == cid;
          return true;
        }
      }
    }

    method CidExists(cid: Cid) returns (found: bool)
      requires Valid()
      ensures found == Exists(cid)
    {
      found := false;
      for i := 0 to CID_MAX - 1
        invariant forall j :: 0 <= j < i ==> slots[j].cid != cid
      {
        if slots[i].cid == cid {
          return true;
        }
      }
    }

    /** cid_refresh and cid_del: the flag of the channel's entry is set or cleared, and nothing else
        changes. */
    method SetBusy(cid: Cid, busy: bool) returns (found: bool)
      requires Valid()
      modifies this`slots
      ensures Valid() && found == old(Exists(cid)) && forall c :: Exists(c) <==> old(Exists(c))
      ensures !found ==> slots == old(slots)
      ensures found ==> exists i :: IsEntry(old(slots), cid, i) && slots == old(slots)[i := Slot(cid, busy)]
      ensures found ==> Flag(cid, busy)
    {
      found := false;
      for i := 0 to CID_MAX - 1
        invariant slots == old(slots) && forall j :: 0 <= j < i ==> slots[j].cid != cid
      {
        if slots[i].cid == cid {
          assert old(Exists(cid));
          assert IsEntry(slots, cid, i);
          slots := slots[i := slots[i].(busy := busy)];
          assert IsEntry(slots, cid, i);
          forall c ensures Exists(c) <==> old(Exists(c)) { SameChannels(old(slots), slots, c); }
          return true;
        }
      }
    }

    // ---------- The buffer ----------

    method BufferReset()
      requires Valid()
      modifies this`bcnt, this`offset, this`packetSeq, this`bufferCid
      ensures Valid() && bcnt == 0 && offset == 0
    {
      bcnt, offset, packetSeq, bufferCid := 0, 0, 0, [0, 0, 0, 0];
    }

    function State(): Assembly
      requires Valid()
      reads this, buffer
    {
      Assembly(bufferCid, bufferCmd, bcnt, buffer[..offset], packetSeq)
    }

    /** buffer_packet on an initialisation packet. */
    method BufferInit(p: Packet)
      requires Valid() && !IsCont(p) && LengthOf(p) <= CTAPHID_BUFFER_SIZE
      modifies this`bcnt, this`offset, this`packetSeq, this`bufferCid, this`bufferCmd, buffer
      ensures Valid() && State() == Opened(p)
    {
      bcnt := LengthOf(p);
      var n := if bcnt < INIT_PAYLOAD then bcnt else INIT_PAYLOAD;
      bufferCmd, bufferCid, offset, packetSeq := CmdOf(p), CidOf(p), n, -1;
      Move(p[7..7 + n], 0);
    }

    /** buffer_packet on a continuation packet. */
    method BufferCont(p: Packet) returns (ok: bool)
      requires Valid() && IsCont(p)
      modifies this`offset, this`packetSeq, buffer
      ensures Valid() && ok == (old(packetSeq) + 1 == CmdOf(p))
      ensures ok ==> State() == Extended(old(State()), p)
      ensures !ok ==> offset == old(offset)
    {
      packetSeq := packetSeq + 1;
      if packetSeq != CmdOf(p) {
        return false;
      }
      var leftover := bcnt - offset;
      var n := if leftover - CONT_PAYLOAD <= 0 then leftover else CONT_PAYLOAD;
      Move(p[5..5 + n], offset);
      offset := offset + n;
      return true;
    }

    /** memmove into the buffer. */
    method Move(s: seq<Byte>, at: nat)
      requires Valid() && at + |s| <= CTAPHID_BUFFER_SIZE
      modifies buffer
      ensures buffer[..at + |s|] == old(buffer[..at]) + s
    {
      for i := 0 to |s|
        invariant buffer[..at] == old(buffer[..at]) && buffer[at..at + i] == s[..i]
      {
        buffer[at + i] := s[i];
      }
      assert buffer[..at + |s|] == buffer[..at] + buffer[at..at + |s|];
    }

    // ---------- One packet ----------

    /** buffer_status() == BUFFERING. */
    predicate InProgress()
      reads this
    {
      bcnt != 0 && offset != bcnt
    }

    /** An INIT packet empties the buffer and, if there is room, leaves its channel in the table, not
        busy. */
    ghost predicate Synchronised(r: Result, channel: Cid, room: bool)
      reads this
    {
      && bcnt == 0 && offset == 0 && r == (if room then Ignored else Error(ChannelBusy))
      && (room ==> Exists(channel) && Flag(channel, false))
    }

    /** What an INIT packet does: one of the wrong length or on channel 0 is refused. */
    twostate predicate Initialised(p: Packet, fresh_: Cid, r: Result)
      reads this, buffer
    {
      if 256 * p[5] as int + p[6] as int != 8 then r == Error(InvalidLength) && Same()
      else if p[..4] == [0, 0, 0, 0] then r == Error(InvalidChannel) && Same()
      else if p[..4] == [255, 255, 255, 255] then Synchronised(r, fresh_, old(HasFree())) && (!old(HasFree()) ==> slots == old(slots))
      else Synchronised(r, p[..4], old(Exists(p[..4]) || HasFree()))
    }

    /** ctaphid_buffer_packet for CTAPHID_INIT; fresh_ is what get_new_cid returns. */
    method Init(p: Packet, fresh_: Cid) returns (r: Result)
      requires Valid() && CmdOf(p) == CTAPHID_INIT
      modifies this
      ensures Valid()
      ensures Initialised(p, fresh_, r)
    {
      if LengthOf(p) != 8 {
        return Error(InvalidLength);
      }
      if CidOf(p) == [0, 0, 0, 0] {
        return Error(InvalidChannel);
      }
      BufferReset();
      var ok;
      var channel := if CidOf(p) == BROADCAST then fresh_ else CidOf(p);
      if CidOf(p) == BROADCAST {
        ok := AddCid(channel);
      } else {
        var found := CidExists(channel);
        if found {
          ok := SetBusy(channel, true);
        } else {
          ok := AddCid(channel);
        }
      }
      if !ok {
        return Error(ChannelBusy);
      }
      ok := SetBusy(channel, false);
      return Ignored;
    }

    // The cases of a packet other than CTAPHID_INIT on a channel other than the broadcast one.

    /** A continuation of nothing. */
    predicate Stray(p: Packet)
      reads this
    {
      p[4] < 0x80 && p[..4] != [255, 255, 255, 255] && (bcnt == 0 || p[..4] != bufferCid || !Exists(p[..4]))
    }

    predicate Starts(p: Packet) { p[4] >= 0x80 && p[4] != 0x86 && p[..4] != [255, 255, 255, 255] }

    /** The start of a message that another channel's message, or a full table, keeps out. */
    predicate Blocked(p: Packet)
      reads this
    {
      Starts(p) && ((InProgress() && p[..4] != bufferCid) || (!Exists(p[..4]) && (bcnt != 0 || !HasFree())))
    }

    /** The start of a message within a message of the same channel. */
    predicate Restarts(p: Packet)
      reads this
    {
      Starts(p) && InProgress() && p[..4] == bufferCid && Exists(bufferCid)
    }

    /** The start of a message that is longer than the buffer. */
    predicate TooLong(p: Packet)
      reads this
    {
      Starts(p) && !Blocked(p) && !Restarts(p) && 256 * p[5] as int + p[6] as int > 1344
    }

    /** The first packet of a message that can be taken. */
    predicate Opens(p: Packet)
      reads this
    {
      Starts(p) && !Blocked(p) && !Restarts(p) && 256 * p[5] as int + p[6] as int <= 1344
    }

    /** The next packet of the message under assembly. */
    predicate Continues(p: Packet)
      reads this
    {
      p[4] < 0x80 && bcnt != 0 && bufferCid == p[..4] != BROADCAST && Exists(bufferCid) && p[4] == packetSeq + 1
    }

    /** A continuation of the message under assembly that is not the next one. */
    predicate Skips(p: Packet)
      reads this
    {
      p[4] < 0x80 && bcnt != 0 && bufferCid == p[..4] != BROADCAST && Exists(bufferCid) && p[4] != packetSeq + 1
    }

    /** There is no other case. */
    lemma EveryPacket(p: Packet)
      ensures p[4] == 0x86 || p[..4] == BROADCAST || Stray(p) || Blocked(p) || Restarts(p) || TooLong(p)
           || Opens(p) || Continues(p) || Skips(p)
    {
    }

    /** ctaphid_buffer_packet. */
    method BufferPacket(p: Packet, fresh_: Cid) returns (r: Result)
      requires Valid()
      modifies this, buffer
      ensures Valid()
      ensures p[4] == 0x86 ==> Initialised(p, fresh_, r)
      ensures p[4] != 0x86 && p[..4] == [255, 255, 255, 255] ==> r == Error(InvalidChannel) && Same()
      ensures old(Stray(p)) ==> r == Ignored && Same()
      ensures old(Blocked(p)) ==> r == Error(ChannelBusy) && Same()
      ensures old(Restarts(p)) ==> r == Error(InvalidSeq) && Same()
      ensures old(TooLong(p)) ==> r == Error(InvalidLength) && State() == old(State())
      ensures old(Opens(p)) ==> State() == Opened(p) && r == State().Outcome() && Flag(p[..4], true)
      ensures old(Continues(p)) ==> State() == Extended(old(State()), p) && r == State().Outcome() && Flag(p[..4], true)
      ensures old(Skips(p)) ==> r == Error(InvalidSeq) && slots == old(slots)
    {
      if CmdOf(p) == CTAPHID_INIT {
        r := Init(p, fresh_);
        return;
      }
      var cid := CidOf(p);
      if cid == BROADCAST {
        return Error(InvalidChannel);
      }
      var known := CidExists(cid);
      if !known && !IsCont(p) && bcnt == 0 {
        var _ := AddCid(cid);
      }
      known := CidExists(cid);
      if !known {
        return if IsCont(p) then Ignored else Error(ChannelBusy);
      }
      if InProgress() {
        if cid == bufferCid && !IsCont(p) {
          return Error(InvalidSeq);
        } else if cid != bufferCid {
          return if IsCont(p) then Ignored else Error(ChannelBusy);
        }
      }
      if !IsCont(p) {
        if LengthOf(p) > CTAPHID_BUFFER_SIZE {
          return Error(InvalidLength);
        }
        BufferInit(p);
      } else {
        if bcnt == 0 || cid != bufferCid {
          return Ignored;
        }
        var ok := BufferCont(p);
        if !ok {
          return Error(InvalidSeq);
        }
      }
      var _ := SetBusy(cid, true);
      return State().Outcome();
    }

    twostate predicate Same()
      reads this, buffer
    {
      old(Valid()) && Valid() && State() == old(State()) && slots == old(slots)
    }

    /** ctaphid_handle_packet up to the dispatch of a complete message. An error frees the channel and a
        sequence error empties the buffer; a complete message does both, but an empty CTAPHID_CBOR or
        CTAPHID_MSG is left without freeing the channel. */
    method HandlePacket(p: Packet, fresh_: Cid) returns (r: Result)
      requires Valid()
      modifies this, buffer
      ensures Valid()
      ensures p[4] == 0x86 ==> InitHandled(p, fresh_, r)
      ensures p[4] != 0x86 && p[..4] == [255, 255, 255, 255] ==> r == Error(InvalidChannel) && State() == old(State())
      ensures old(Stray(p)) ==> r == Ignored && Same()
      ensures old(Blocked(p)) ==> r == Error(ChannelBusy) && State() == old(State())
      ensures old(TooLong(p)) ==> r == Error(InvalidLength) && State() == old(State())
      ensures old(Restarts(p) || Skips(p)) ==> r == Error(InvalidSeq) && bcnt == 0 && offset == 0
      ensures old(Opens(p)) ==> Took(r, Opened(p))
      ensures old(Continues(p)) ==> Took(r, Extended(old(State()), p))
      ensures p[4] != 0x86 && old(InProgress() && Exists(bufferCid)) ==> Exists(old(bufferCid))
      ensures r.Error? && Exists(p[..4]) ==> Flag(p[..4], false)
      ensures r == Buffering ==> Flag(p[..4], true)
      ensures r.Message? ==> bcnt == 0 && offset == 0 && Flag(p[..4], r.data == [] && (r.cmd == 0x90 || r.cmd == 0x83))
    {
      r := BufferPacket(p, fresh_);
      if r.Error? {
        var _ := SetBusy(CidOf(p), false);
        if r.code == InvalidSeq {
          BufferReset();
        }
      } else if r.Message? && !(r.data == [] && (r.cmd == CTAPHID_CBOR || r.cmd == CTAPHID_MSG)) {
        var _ := SetBusy(CidOf(p), false);
        BufferReset();
      }
    }

    /** What an INIT packet does in the end: refused ones leave the message under assembly alone. */
    twostate predicate InitHandled(p: Packet, fresh_: Cid, r: Result)
      reads this, buffer
    {
      && old(Valid()) && Valid()
      && if 256 * p[5] as int + p[6] as int != 8 then r == Error(InvalidLength) && State() == old(State())
         else if p[..4] == [0, 0, 0, 0] then r == Error(InvalidChannel) && State() == old(State())
         else Synchronised(r, if p[..4] == BROADCAST then fresh_ else p[..4],
                           old(HasFree() || (p[..4] != BROADCAST && Exists(p[..4]))))
    }

    /** The packet led to assembly a: it is in the buffer, or complete and delivered. */
    ghost predicate Took(r: Result, a: Assembly)
      requires Valid()
      reads this, buffer
    {
      r == a.Outcome() && (a.InProgress() ==> State() == a && Exists(bufferCid))
    }
  }

  /** The first place that is not busy is the i-th; the last place is never used. */
  ghost predicate FirstFree(slots: seq<Slot>, i: int) {
    0 <= i < |slots| - 1 && !slots[i].busy && forall j :: 0 <= j < i ==> slots[j].busy
  }

  /** The first entry of the channel is the i-th. */
  ghost predicate IsEntry(slots: seq<Slot>, cid: Cid, i: int) {
    0 <= i < |slots| - 1 && slots[i].cid == cid && forall j :: 0 <= j < i ==> slots[j].cid != cid
  }

  lemma SameChannels(slots: seq<Slot>, slots': seq<Slot>, c: Cid)
    requires |slots| == |slots'| && forall i :: 0 <= i < |slots| ==> slots[i].cid == slots'[i].cid
    ensures (exists i :: 0 <= i < |slots| - 1 && slots[i].cid == c) <==> (exists i :: 0 <= i < |slots'| - 1 && slots'[i].cid == c)
  {
  }
}
