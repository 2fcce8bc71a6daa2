/** ctaphid_write of fido2/src/ctaphid.c: a message goes out byte by byte in packets. */
module HidWriter {
  import opened ByteStrings
  import opened HidFrames

  /** CTAPHID_WRITE_BUFFER, with the packets that usbhid_send got. */
  class WriteBuffer {
    const cmd: Byte
    const cid: Cid
    const bcnt: nat
    var offset: nat
    var bytesWritten: nat
    var seqNo: nat           // uint8_t
    const buf: array<Byte>
    var sent: seq<Packet>
    ghost var data: seq<Byte>

    /** Full packets are sent; the open one holds a header and the bytes since its start. */
    ghost predicate Valid()
      reads this, buf
    {
      && buf.Length == HID_MESSAGE_SIZE && bcnt <= MAX_MESSAGE && bytesWritten == |data| <= bcnt
      && |sent| <= 129 && seqNo == (if |sent| == 0 then 0 else if offset == 0 then |sent| - 1 else |sent|)
      && SentOk() && (if offset == 0 then |data| == Start(|sent|) else Open() && Start(|sent|) < |data|)
    }

    /** What went out is the beginning of the framing. */
    ghost predicate SentOk()
      reads this
    {
      Sending(sent, cid, cmd, bcnt, data)
    }

    ghost predicate Open()
      reads this, buf
    {
      && buf.Length == HID_MESSAGE_SIZE && bcnt < 0x10000 && |sent| <= 256
      && Start(|sent|) <= |data| < Start(|sent| + 1)
      && 0 < offset < HID_MESSAGE_SIZE && buf[..offset] == Header(cid, cmd, bcnt, |sent|) + data[Start(|sent|)..]
    }

    constructor (cid: Cid, cmd: Byte, bcnt: nat)
      requires bcnt <= MAX_MESSAGE
      ensures Valid() && fresh(buf) && sent == [] && data == [] && this.cid == cid && this.cmd == cmd && this.bcnt == bcnt
    {
      this.cid, this.cmd, this.bcnt := cid, cmd, bcnt;
      offset, bytesWritten, seqNo, sent, data := 0, 0, 0, [], [];
      buf := new Byte[HID_MESSAGE_SIZE](_ => 0);
    }

    /** Start a packet: the channel, then command and length, or a sequence number. */
    method OpenPacket()
      requires Valid() && offset == 0 && |data| < bcnt
      modifies this`offset, this`seqNo, buf
      ensures Open() && seqNo == |sent| && |sent| <= 128
      ensures sent == old(sent) && data == old(data) && offset == if |sent| == 0 then 7 else 5
    {
      for i := 0 to 4
        invariant forall j :: 0 <= j < i ==> buf[j] == cid[j]
        modifies buf
      {
        buf[i] := cid[i];
      }
      offset := 4;
      if bytesWritten == 0 {
        buf[4] := cmd;
        buf[5] := bcnt / 256;
        buf[6] := bcnt % 256;
        offset := offset + 3;
      } else {
        buf[4] := seqNo;
        seqNo := (seqNo + 1) % 256;
        offset := offset + 1;
      }
      assert buf[..offset] == Header(cid, cmd, bcnt, |sent|) + data[Start(|sent|)..];
    }

    /** One turn of the loop of ctaphid_write. */
    method WriteByte(b: Byte)
      requires Valid() && |data| < bcnt
      modifies this, buf
      ensures Valid() && data == old(data) + [b]
    {
      if offset == 0 {
        OpenPacket();
      }
      Append(b);
    }

    method Append(b: Byte)
      requires Open() && seqNo == |sent| && |sent| <= 128 && bcnt <= MAX_MESSAGE && bytesWritten == |data| < bcnt
      requires SentOk()
      modifies this, buf
      ensures Valid() && data == old(data) + [b]
    {
      buf[offset] := b;
      offset := offset + 1;
      data := data + [b];
      bytesWritten := bytesWritten + 1;
      SendingGrows(sent, cid, cmd, bcnt, old(data), b);
      assert buf[..offset] == Header(cid, cmd, bcnt, |sent|) + data[Start(|sent|)..];
      if offset == HID_MESSAGE_SIZE {
        assert buf[..] == buf[..offset];
        SendingMore(sent, buf[..], cid, cmd, bcnt, data);
        sent := sent + [buf[..]];
        offset := 0;
      }
    }

    /** ctaphid_write with data: any piece of the message. */
    method Write(piece: seq<Byte>)
      requires Valid() && |data| + |piece| <= bcnt
      modifies this, buf
      ensures Valid() && data == old(data) + piece
    {
      for i := 0 to |piece|
        invariant Valid() && data == old(data) + piece[..i]
      {
        WriteByte(piece[i]);
        OneByteMore(old(data), piece, i);
      }
      assert piece[..|piece|] == piece;
    }

    /** ctaphid_write with NULL: send the open packet, or a header if nothing was written. */
    method Flush()
      requires Valid() && |data| == bcnt
      modifies this, buf
      ensures Framing(sent, cid, cmd, data) && data == old(data)
    {
      if offset == 0 && bytesWritten == 0 {
        for i := 0 to 4
          invariant forall j :: 0 <= j < i ==> buf[j] == cid[j]
          modifies buf
        {
          buf[i] := cid[i];
        }
        buf[4] := cmd;
        buf[5] := bcnt / 256;
        buf[6] := bcnt % 256;
        offset := 7;
        assert buf[..offset] == Header(cid, cmd, bcnt, 0) + data[Start(0)..];
      }
      if offset > 0 {
        SendOpen();
      }
    }

    /** Fill the open packet with zeros and send it. */
    method SendOpen()
      requires Open() && |sent| <= 128 && |data| == bcnt && (|sent| == 0 || Start(|sent|) < |data|)
      requires SentOk()
      modifies this`sent, buf
      ensures Framing(sent, cid, cmd, data)
    {
      ghost var head := buf[..offset];
      for i := offset to HID_MESSAGE_SIZE
        invariant buf[..offset] == head && forall j :: offset <= j < i ==> buf[j] == 0
        modifies buf
      {
        buf[i] := 0;
      }
      assert buf[..] == head + Repeat(0, HID_MESSAGE_SIZE - offset);
      SendingAll(sent, buf[..], cid, cmd, data);
      sent := sent + [buf[..]];
    }
  }

  lemma OneByteMore(before: seq<Byte>, piece: seq<Byte>, i: nat)
    requires i < |piece|
    ensures before + piece[..i] + [piece[i]] == before + piece[..i + 1]
  {
    assert piece[..i + 1] == piece[..i] + [piece[i]];
  }

  /** However a message is split across calls, the packets are those of the whole message, byte by byte
      as the protocol has them. */
  method SendMessage(cid: Cid, cmd: Byte, pieces: seq<seq<Byte>>) returns (packets: seq<Packet>)
    requires |Flat(pieces)| <= MAX_MESSAGE
    ensures Framing(packets, cid, cmd, Flat(pieces)) && OnWire(packets, cid, cmd, Flat(pieces))
  {
    var w := new WriteBuffer(cid, cmd, |Flat(pieces)|);
    for i := 0 to |pieces|
      invariant w.Valid() && fresh(w) && fresh(w.buf) && w.data == Flat(pieces[..i])
    {
      assert pieces[..i + 1][..i] == pieces[..i];
      FlatPrefix(pieces, i + 1);
      w.Write(pieces[i]);
    }
    assert pieces[..|pieces|] == pieces;
    w.Flush();
    packets := w.sent;
    FramingOnWire(packets, cid, cmd, Flat(pieces));
  }

  lemma {:induction false} FlatPrefix(pieces: seq<seq<Byte>>, i: nat)
    requires i <= |pieces|
    ensures |Flat(pieces[..i])| <= |Flat(pieces)|
    decreases |pieces| - i
  {
    if i == |pieces| {
      assert pieces[..i] == pieces;
    } else {
      FlatPrefix(pieces, i + 1);
      assert pieces[..i + 1][..i] == pieces[..i];
    }
  }
}
