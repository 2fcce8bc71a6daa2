/** Block buffering of crypto/cifra/src/blockwise.c. The blocks handed to the callbacks are kept;
    what the callbacks compute from them is left open. */
module Blockwise {
  import opened ByteStrings
  import opened HashPadding

  const UINT32_SIZE: nat := 0x1_0000_0000

  function Xor(a: Byte, b: Byte): Byte { ((a as bv8) ^ (b as bv8)) as int }

  class Accumulator {
    const nblock: nat
    const partial: array<Byte>
    var npartial: nat
    var blocks: seq<seq<Byte>>
    var finals: seq<nat>        // which of the blocks went to the callback for the last block
    var counter: nat            // uint32_t

    /** The buffer is never full, so the assertions on npartial hold. */
    ghost predicate Valid()
      reads this
    {
      && 0 < nblock == partial.Length && npartial < nblock && AllOfSize(blocks, nblock)
      && counter == Wrap(|blocks|, UINT32_SIZE)
    }

    /** All input so far. */
    ghost function Data(): seq<Byte>
      requires Valid()
      reads this, partial
    {
      Flat(blocks) + partial[..npartial]
    }

    constructor (n: nat)
      requires n > 0
      ensures Valid() && fresh(partial) && nblock == n && Data() == [] && blocks == []
    {
      nblock, partial, npartial, blocks, finals, counter := n, new Byte[n](_ => 0), 0, [], [], 0;
    }

    /** The callbacks: one more block. */
    method Process(block: seq<Byte>, final: bool)
      requires |block| == nblock && AllOfSize(blocks, nblock) && counter == Wrap(|blocks|, UINT32_SIZE)
      modifies this`blocks, this`finals, this`counter
      ensures AllOfSize(blocks, nblock) && counter == Wrap(|blocks|, UINT32_SIZE) && Flat(blocks) == old(Flat(blocks)) + block
      ensures |blocks| > 0 && finals == old(finals) + if final then [|blocks| - 1] else []
    {
      finals := finals + if final then [|blocks|] else [];
      FlatAppend(blocks, block);
      WrapAdd(|blocks|, 1, UINT32_SIZE);
      blocks := blocks + [block];
      counter := Wrap(counter + 1, UINT32_SIZE);
    }

    /** memcpy to the end of the partial block. */
    method CopyIn(s: seq<Byte>)
      requires 0 < nblock == partial.Length && npartial + |s| <= nblock
      modifies this`npartial, partial
      ensures npartial == old(npartial) + |s| && partial[..npartial] == old(partial[..npartial]) + s
    {
      for i := 0 to |s|
        invariant forall j :: 0 <= j < npartial ==> partial[j] == old(partial[j])
        invariant forall j :: 0 <= j < i ==> partial[npartial + j] == s[j]
        modifies partial
      {
        partial[npartial + i] := s[i];
      }
      npartial := npartial + |s|;
    }

    /** The block that the input completed last, if nothing is left over after it. */
    function LastBlock(inp: seq<Byte>): seq<nat>
      reads this
    {
      if |inp| > 0 && npartial == 0 && |blocks| > 0 then [|blocks| - 1] else []
    }

    /** cf_blockwise_accumulate_final: the input continues the data, however it is cut, and the
        second callback gets the last block exactly if the data ends with it. */
    method Accumulate(inp: seq<Byte>)
      requires Valid()
      modifies this, partial
      ensures Valid() && Data() == old(Data()) + inp
      ensures finals == old(finals) + LastBlock(inp)
    {
      var rest := inp;
      if npartial > 0 && |rest| > 0 {
        rest := TopUp(rest);
      }
      ghost var start := Data();
      assert start + rest == old(Data()) + inp;
      while |rest| >= nblock
        invariant Valid() && (rest != [] ==> npartial == 0)
        invariant Data() + rest == old(Data()) + inp
        invariant finals == old(finals) + if rest == [] then LastBlock(inp) else []
      {
        ghost var before := Data();
        Process(rest[..nblock], |rest| == nblock);
        assert Data() + rest[nblock..] == before + rest;
        rest := rest[nblock..];
      }
      BufferRest(rest);
    }

    /** Partial data comes first; a full block is processed. */
    method TopUp(inp: seq<Byte>) returns (rest: seq<Byte>)
      requires Valid() && npartial > 0 && |inp| > 0
      modifies this, partial
      ensures Valid() && Data() + rest == old(Data()) + inp && (rest != [] ==> npartial == 0)
      ensures finals == old(finals) + if rest == [] then LastBlock(inp) else []
    {
      var space := nblock - npartial;
      var taken := if space < |inp| then space else |inp|;
      CopyIn(inp[..taken]);
      rest := inp[taken..];
      assert inp == inp[..taken] + rest;
      if npartial == nblock {
        Process(partial[..nblock], rest == []);
        npartial := 0;
      }
    }

    /** What is left is less than a block and is buffered. */
    method BufferRest(inp: seq<Byte>)
      requires Valid() && (inp != [] ==> npartial + |inp| < nblock)
      modifies this`npartial, partial
      ensures Valid() && Data() == old(Data()) + inp && (inp != [] ==> npartial > 0) && (inp == [] ==> npartial == old(npartial))
    {
      var rest := inp;
      while |rest| > 0
        invariant Valid() && (rest != [] ==> npartial + |rest| < nblock) && (rest != inp ==> npartial > 0)
        invariant rest == inp ==> npartial == old(npartial)
        invariant Data() + rest == old(Data()) + inp
      {
        var space := nblock - npartial;
        var taken := if space < |rest| then space else |rest|;
        ghost var before := Data();
        CopyIn(rest[..taken]);
        assert Data() + rest[taken..] == before + (rest[..taken] + rest[taken..]) == before + rest;
        rest := rest[taken..];
      }
    }

    /** cf_blockwise_acc_byte: the same as accumulating the byte nbytes times, although a whole
        block is filled only once. */
    method AccByte(byte: Byte, nbytes: nat)
      requires Valid()
      modifies this, partial
      ensures Valid() && Data() == old(Data()) + Repeat(byte, nbytes)
    {
      var filled, n := false, nbytes;
      while n > 0
        invariant 0 <= n <= nbytes && Valid()
        invariant filled ==> forall j :: 0 <= j < nblock ==> partial[j] == byte
        invariant Data() == old(Data()) + Repeat(byte, nbytes - n)
      {
        var start := npartial;
        var count := if n < nblock - start then n else nblock - start;
        ghost var before := Data();
        if !filled {
          Memset(byte, start, count);
        }
        if start == 0 && count == nblock {
          filled := true;
        }
        TakeFilled(byte, start, count, before);
        n := n - count;
        assert before + Repeat(byte, count) == old(Data()) + Repeat(byte, nbytes - n);
      }
    }

    method Memset(byte: Byte, start: nat, count: nat)
      requires start + count <= partial.Length
      modifies partial
      ensures forall j :: start <= j < start + count ==> partial[j] == byte
      ensures forall j :: 0 <= j < partial.Length && !(start <= j < start + count) ==> partial[j] == old(partial[j])
    {
      for i := 0 to count
        invariant forall j :: start <= j < start + i ==> partial[j] == byte
        invariant forall j :: 0 <= j < partial.Length && !(start <= j < start + i) ==> partial[j] == old(partial[j])
      {
        partial[start + i] := byte;
      }
    }

    /** The next count bytes of the buffer are filled: count them in, and process a full block. */
    method TakeFilled(byte: Byte, start: nat, count: nat, ghost before: seq<Byte>)
      requires Valid() && start == npartial && start + count <= nblock && before == Data()
      requires forall j :: start <= j < start + count ==> partial[j] == byte
      modifies this
      ensures Valid() && Data() == before + Repeat(byte, count)
    {
      assert partial[..start + count] == partial[..start] + Repeat(byte, count);
      if start + count == nblock {
        Process(partial[..nblock], false);
        npartial := 0;
      } else {
        npartial := npartial + count;
      }
    }

    /** cf_blockwise_acc_pad: a first byte, middle bytes and a last byte, nbytes in all. */
    method AccPad(fbyte: Byte, mbyte: Byte, lbyte: Byte, nbytes: nat)
      requires Valid()
      modifies this, partial
      ensures Valid() && Data() == old(Data()) + PadBytes(fbyte, mbyte, lbyte, nbytes)
    {
      if nbytes == 0 {
      } else if nbytes == 1 {
        Accumulate([Xor(fbyte, lbyte)]);
      } else if nbytes == 2 {
        Accumulate([fbyte]);
        Accumulate([lbyte]);
      } else {
        Accumulate([fbyte]);
        AccRest(mbyte, lbyte, nbytes);
      }
    }

    /** The middle and last bytes; equal ones are one run. */
    method AccRest(mbyte: Byte, lbyte: Byte, nbytes: nat)
      requires Valid() && nbytes > 2
      modifies this, partial
      ensures Valid() && Data() == old(Data()) + (Repeat(mbyte, nbytes - 2) + [lbyte])
    {
      if lbyte != mbyte {
        AccByte(mbyte, nbytes - 2);
        Accumulate([lbyte]);
      } else {
        AccByte(mbyte, nbytes - 1);
        assert Repeat(mbyte, nbytes - 1) == Repeat(mbyte, nbytes - 2) + [lbyte];
      }
    }
  }

  /** What padding of n bytes means; a single byte is both first and last. */
  function PadBytes(fbyte: Byte, mbyte: Byte, lbyte: Byte, n: nat): seq<Byte> {
    if n == 0 then [] else if n == 1 then [Xor(fbyte, lbyte)] else [fbyte] + Repeat(mbyte, n - 2) + [lbyte]
  }
}
