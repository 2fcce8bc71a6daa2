/** SHA-256 of crypto/sha256/sha256.c around its compression function. */
module Sha256 {
  import opened ByteStrings
  import opened HashPadding

  const BLOCK: nat := 64
  const UINT64_BITS: nat := 0x1_0000_0000_0000_0000

  /** SHA256_CTX; `blocks` are those handed to sha256_transform. */
  class Context {
    const data: array<Byte>
    var datalen: nat
    var bitlen: nat               // unsigned long long
    var blocks: seq<seq<Byte>>

    ghost predicate Valid()
      reads this
    {
      && data.Length == BLOCK && datalen < BLOCK && AllOfSize(blocks, BLOCK)
      && bitlen == Wrap(512 * |blocks|, UINT64_BITS)
    }

    ghost function Data(): seq<Byte>
      requires Valid()
      reads this, data
    {
      Flat(blocks) + data[..datalen]
    }

    constructor ()
      ensures Valid() && fresh(data) && Data() == []
    {
      data, datalen, bitlen, blocks := new Byte[BLOCK](_ => 0), 0, 0, [];
    }

    method Transform()
      requires data.Length == BLOCK && AllOfSize(blocks, BLOCK)
      modifies this`blocks
      ensures AllOfSize(blocks, BLOCK) && |blocks| == old(|blocks|) + 1 && Flat(blocks) == old(Flat(blocks)) + data[..]
    {
      FlatAppend(blocks, data[..]);
      blocks := blocks + [data[..]];
    }

    /** sha256_update. */
    method Update(s: seq<Byte>)
      requires Valid()
      modifies this, data
      ensures Valid() && Data() == old(Data()) + s
    {
      for i := 0 to |s|
        invariant Valid() && Data() == old(Data()) + s[..i]
      {
        UpdateByte(s[i]);
        assert s[..i + 1] == s[..i] + [s[i]];
      }
      assert s[..|s|] == s;
    }

    method UpdateByte(b: Byte)
      requires Valid()
      modifies this, data
      ensures Valid() && Data() == old(Data()) + [b]
    {
      data[datalen] := b;
      datalen := datalen + 1;
      assert data[..datalen] == old(data[..datalen]) + [b];
      if datalen == BLOCK {
        assert data[..] == data[..datalen];
        Transform();
        WrapAdd(512 * (|blocks| - 1), 512, UINT64_BITS);
        bitlen := Wrap(bitlen + 512, UINT64_BITS);
        datalen := 0;
      }
    }

    /** The bytes from `from` to `to` become zero. */
    method Zero(from: nat, to: nat)
      requires from <= to <= data.Length
      modifies data
      ensures data[from..to] == Repeat(0, to - from)
      ensures data[..from] == old(data[..from]) && data[to..] == old(data[to..])
    {
      var i := from;
      while i < to
        invariant from <= i <= to && forall j :: from <= j < i ==> data[j] == 0
        invariant forall j :: 0 <= j < data.Length && !(from <= j < i) ==> data[j] == old(data[j])
      {
        data[i] := 0;
        i := i + 1;
      }
    }

    /** The first part of sha256_final: a one bit and zeros up to the length field, in a block of
        their own if the field does not fit any more. */
    method Pad() returns (ghost z: nat)
      requires Valid()
      modifies this`blocks, data
      ensures AllOfSize(blocks, BLOCK) && z == (if datalen < 56 then 55 - datalen else 119 - datalen)
      ensures Flat(blocks) + data[..56] == old(Data()) + ([0x80] + Repeat(0, z))
    {
      var n := datalen;
      ghost var start, rest := Flat(blocks), data[..n];
      data[n] := 0x80;
      ghost var head := data[..n + 1];
      assert head == rest + [0x80];
      if n < 56 {
        z := 55 - n;
        Zero(n + 1, 56);
        assert data[..56] == data[..n + 1] + data[n + 1..56] == rest + ([0x80] + Repeat(0, z));
      } else {
        z := 119 - n;
        Zero(n + 1, 64);
        assert data[..] == data[..n + 1] + data[n + 1..64] == rest + [0x80] + Repeat(0, 63 - n);
        Transform();
        Zero(0, 56);
        assert data[..56] == Repeat(0, 56);
        assert Repeat(0, 63 - n) + Repeat(0, 56) == Repeat(0, z);
      }
    }

    /** The counters give the length of the data in bits, and the zeros needed after it. */
    lemma LengthFacts()
      requires Valid()
      ensures Wrap(bitlen + datalen * 8, UINT64_BITS) == Wrap(8 * |Data()|, UINT64_BITS)
      ensures Fills(|Data()|, if datalen < 56 then 55 - datalen else 119 - datalen, BLOCK, 8)
    {
      FlatLength(blocks, BLOCK);
      WrapAdd(512 * |blocks|, datalen * 8, UINT64_BITS);
      PadFills(|blocks|, datalen, |Data()|);
    }

    /** sha256_final: the length field is that of the message modulo 2^64 bits. */
    method Final() returns (ghost z: nat)
      requires Valid()
      modifies this, data
      ensures PaddedWith(blocks, old(Data()), z, BLOCK, BE(Wrap(8 * |old(Data())|, UINT64_BITS), 8))
    {
      ghost var msg := Data();
      LengthFacts();
      z := Pad();
      bitlen := Wrap(bitlen + datalen * 8, UINT64_BITS);
      Close(msg, z);
    }

    /** The last part of sha256_final: the length field completes the last block. */
    method Close(ghost msg: seq<Byte>, ghost z: nat)
      requires data.Length == BLOCK && AllOfSize(blocks, BLOCK) && bitlen < UINT64_BITS
      requires Flat(blocks) + data[..56] == msg + ([0x80] + Repeat(0, z))
      modifies this`blocks, data
      ensures AllOfSize(blocks, BLOCK) && Flat(blocks) == msg + Padding(z, BE(bitlen, 8))
    {
      WriteLength();
      ghost var front := Flat(blocks);
      Transform();
      assert data[..] == data[..56] + data[56..];
      assert Flat(blocks) == (front + data[..56]) + data[56..] == msg + ([0x80] + Repeat(0, z)) + data[56..]
          == msg + Padding(z, data[56..]);
    }

    method WriteLength()
      requires data.Length == BLOCK && bitlen < UINT64_BITS
      modifies data
      ensures data[..56] == old(data[..56]) && data[56..] == BE(bitlen, 8)
    {
      data[63] := ShiftBytes(bitlen, 0) % 256;
      data[62] := ShiftBytes(bitlen, 1) % 256;
      data[61] := ShiftBytes(bitlen, 2) % 256;
      data[60] := ShiftBytes(bitlen, 3) % 256;
      data[59] := ShiftBytes(bitlen, 4) % 256;
      data[58] := ShiftBytes(bitlen, 5) % 256;
      data[57] := ShiftBytes(bitlen, 6) % 256;
      data[56] := ShiftBytes(bitlen, 7) % 256;
      forall i | 0 <= i < 8 ensures data[56 + i] == BE(bitlen, 8)[i] { BEAt(bitlen, 8, 7 - i); }
      assert data[56..] == BE(bitlen, 8);
    }
  }

  lemma PadFills(blocks: nat, datalen: nat, length: nat)
    requires length == blocks * BLOCK + datalen && datalen < BLOCK
    ensures Fills(length, if datalen < 56 then 55 - datalen else 119 - datalen, BLOCK, 8)
  {
    var z := if datalen < 56 then 55 - datalen else 119 - datalen;
    assert length + 1 + z + 8 == BLOCK * (blocks + if datalen < 56 then 1 else 2);
  }

  /** For every way of cutting a message of less than 2^64 bits into updates, the compression
      function gets the blocks of the padded message. */
  method Hash(pieces: seq<seq<Byte>>) returns (blocks: seq<seq<Byte>>)
    requires 8 * |Flat(pieces)| < UINT64_BITS
    ensures PaddedMessage(blocks, Flat(pieces), 64, 8)
  {
    var ctx := new Context();
    for i := 0 to |pieces|
      invariant fresh(ctx) && fresh(ctx.data) && ctx.Valid() && ctx.Data() == Flat(pieces[..i])
    {
      FlatAppend(pieces[..i], pieces[i]);
      assert pieces[..i + 1] == pieces[..i] + [pieces[i]];
      ctx.Update(pieces[i]);
    }
    assert pieces[..|pieces|] == pieces;
    ghost var z := ctx.Final();
    blocks := ctx.blocks;
    assert Padded(blocks, Flat(pieces), z, BLOCK, 8);
  }
}
