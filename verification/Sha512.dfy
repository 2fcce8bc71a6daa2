/** SHA-512 of crypto/cifra/src/sha512.c around its compression function. */
module Sha512 {
  import opened Words
  import opened ByteStrings
  import opened HashPadding
  import opened Blockwise

  const BLOCK: nat := 128
  const COUNTED: nat := 0x80_0000_0000   // 2^32 blocks of 128 bytes

  lemma DataLength(ctx: Accumulator)
    requires ctx.Valid() && ctx.nblock == BLOCK
    ensures |ctx.Data()| == |ctx.blocks| * BLOCK + ctx.npartial
  {
    FlatLength(ctx.blocks, BLOCK);
  }

  /** The 32-bit block counter gives the length of the data modulo 2^39. */
  lemma CountedLength(ctx: Accumulator)
    requires ctx.Valid() && ctx.nblock == BLOCK
    ensures ctx.counter * BLOCK + ctx.npartial == Wrap(|ctx.Data()|, COUNTED)
  {
    DataLength(ctx);
    CountWraps(|ctx.blocks|, ctx.npartial);
  }

  lemma CountWraps(blocks: nat, npartial: nat)
    requires npartial < BLOCK
    ensures Wrap(blocks, UINT32_SIZE) * BLOCK + npartial == Wrap(blocks * BLOCK + npartial, COUNTED)
  {
    var q := WrapQuotient(blocks, UINT32_SIZE);
    var r := Wrap(blocks, UINT32_SIZE);
    assert blocks * BLOCK + npartial == q * COUNTED + (r * BLOCK + npartial);
    WrapMultiple(q, r * BLOCK + npartial, COUNTED);
  }

  /** The length field that is written. */
  function LengthField(length: nat): (s: seq<Byte>)
    ensures |s| == 16
  {
    BE(0, 8) + BE(8 * Wrap(length, COUNTED), 8)
  }

  /** cf_sha512_digest_final: the padding always ends a block, and all blocks are processed. */
  method DigestFinal(ctx: Accumulator) returns (ghost z: nat)
    requires ctx.Valid() && ctx.nblock == BLOCK
    modifies ctx, ctx.partial
    ensures ctx.Valid() && ctx.npartial == 0
    ensures PaddedWith(ctx.blocks, old(ctx.Data()), z, BLOCK, LengthField(|old(ctx.Data())|))
  {
    var padbytes, digestedBits := Counters(ctx);
    z := padbytes - 1;
    Append(ctx, padbytes, digestedBits);
    EndsBlock(ctx, old(ctx.Data()), z);
  }

  /** The number of padding bytes and of bits, from the counters of the context. */
  method Counters(ctx: Accumulator) returns (padbytes: nat, digestedBits: nat)
    requires ctx.Valid() && ctx.nblock == BLOCK
    ensures padbytes > 0 && Fills(|ctx.Data()|, padbytes - 1, BLOCK, 16)
    ensures LengthField(|ctx.Data()|) == BE(0, 8) + BE(digestedBits, 8)
  {
    LengthFacts(ctx);
    var digestedBytes := ctx.counter * BLOCK + ctx.npartial;
    digestedBits := Wrap(digestedBytes * 8, 0x1_0000_0000_0000_0000);
    padbytes := BLOCK - (digestedBytes + 16) % BLOCK;
  }

  /** What the counters say about the data. */
  lemma LengthFacts(ctx: Accumulator)
    requires ctx.Valid() && ctx.nblock == BLOCK
    ensures var n := ctx.counter * BLOCK + ctx.npartial;
      && Fills(|ctx.Data()|, BLOCK - (n + 16) % BLOCK - 1, BLOCK, 16)
      && LengthField(|ctx.Data()|) == BE(0, 8) + BE(Wrap(n * 8, 0x1_0000_0000_0000_0000), 8)
  {
    CountedLength(ctx);
    PadFills(|ctx.Data()|, ctx.counter * BLOCK + ctx.npartial);
  }

  /** The calls that add the padding and the length. */
  method Append(ctx: Accumulator, padbytes: nat, digestedBits: nat)
    requires ctx.Valid() && padbytes > 0
    modifies ctx, ctx.partial
    ensures ctx.Valid() && ctx.Data() == old(ctx.Data()) + Padding(padbytes - 1, BE(0, 8) + BE(digestedBits, 8))
  {
    ghost var msg := ctx.Data();
    ctx.AccPad(0x80, 0x00, 0x00, padbytes);
    OneThenZeros(padbytes);
    ctx.Accumulate(BE(0, 8));
    ctx.Accumulate(BE(digestedBits, 8));
    Joined(msg, [0x80] + Repeat(0, padbytes - 1), BE(0, 8), BE(digestedBits, 8));
  }

  lemma Joined(a: seq<Byte>, b: seq<Byte>, c: seq<Byte>, d: seq<Byte>)
    ensures a + b + c + d == a + (b + (c + d))
  {
  }

  /** Padded data fills whole blocks, so nothing is left in the buffer. */
  lemma EndsBlock(ctx: Accumulator, msg: seq<Byte>, z: nat)
    requires ctx.Valid() && ctx.nblock == BLOCK && Fills(|msg|, z, BLOCK, 16)
    requires ctx.Data() == msg + Padding(z, LengthField(|msg|))
    ensures ctx.npartial == 0 && PaddedWith(ctx.blocks, msg, z, BLOCK, LengthField(|msg|))
  {
    DataLength(ctx);
    assert |ctx.Data()| == |msg| + 1 + z + 16;
    WholeBlocks(|ctx.Data()|, |ctx.blocks|, ctx.npartial);
    assert ctx.partial[..0] == [];
  }

  lemma WholeBlocks(total: nat, blocks: nat, npartial: nat)
    requires total == blocks * BLOCK + npartial && npartial < BLOCK && total % BLOCK == 0
    ensures npartial == 0
  {
  }

  lemma PadFills(length: nat, digested: nat)
    requires digested == Wrap(length, COUNTED)
    ensures var pad := BLOCK - (digested + 16) % BLOCK; Fills(length, pad - 1, BLOCK, 16)
  {
    var q := WrapQuotient(length, COUNTED);
    PadFillsFrom(q, digested);
  }

  lemma PadFillsFrom(q: nat, digested: nat)
    ensures var pad := BLOCK - (digested + 16) % BLOCK; Fills(q * COUNTED + digested, pad - 1, BLOCK, 16)
  {
    var e := digested + 16;
    UpToBlock(q, e, e / BLOCK, e % BLOCK);
    BlockDivides(q * 0x1_0000_0000 + e / BLOCK + 1);
  }

  lemma UpToBlock(q: int, e: int, d: int, r: int)
    requires e == BLOCK * d + r
    ensures q * COUNTED + e + (BLOCK - r) == BLOCK * (q * 0x1_0000_0000 + d + 1)
  {
  }

  lemma BlockDivides(x: int)
    ensures BLOCK * x % BLOCK == 0
  {
  }

  lemma OneThenZeros(n: nat)
    requires n > 0
    ensures PadBytes(0x80, 0x00, 0x00, n) == [0x80] + Repeat(0, n - 1)
  {
    assert Xor(0x80, 0x00) == 0x80;
    if n > 1 {
      assert Repeat(0, n - 1) == Repeat(0, n - 2) + [0];
    }
  }

  /** The padding is the standard's exactly as long as the block counter has not wrapped. */
  lemma StandardIffCounted(blocks: seq<seq<Byte>>, msg: seq<Byte>, z: nat)
    requires PaddedWith(blocks, msg, z, BLOCK, LengthField(|msg|)) && 8 * |msg| < Pow(256, 16)
    ensures Padded(blocks, msg, z, BLOCK, 16) <==> |msg| < COUNTED
  {
    FieldIffCounted(|msg|);
    if Padded(blocks, msg, z, BLOCK, 16) {
      SameField(msg, z, LengthField(|msg|), BE(8 * |msg|, 16));
    }
  }

  lemma FieldIffCounted(length: nat)
    requires 8 * length < Pow(256, 16)
    ensures LengthField(length) == BE(8 * length, 16) <==> length < COUNTED
  {
    var low := Wrap(length, COUNTED);
    var q := WrapQuotient(length, COUNTED);
    Pow256Values();
    SmallerThanWide(8 * low);
    BEHighZero(8 * low, 8, 8);
    if LengthField(length) == BE(8 * length, 16) {
      BEInjective(8 * low, 8 * length, 16);
    }
  }

  lemma SameField(msg: seq<Byte>, z: nat, f: seq<Byte>, g: seq<Byte>)
    requires msg + Padding(z, f) == msg + Padding(z, g)
    ensures f == g
  {
    var a, b := msg + Padding(z, f), msg + Padding(z, g);
    assert a[|msg| + 1 + z..] == f && b[|msg| + 1 + z..] == g;
  }

  lemma SmallerThanWide(n: nat)
    requires n < Pow(256, 8)
    ensures n < Pow(256, 16)
  {
    assert Pow(256, 16) == 256 * Pow(256, 15) && Pow(256, 15) == 256 * Pow(256, 14) && Pow(256, 14) == 256 * Pow(256, 13);
    assert Pow(256, 13) == 256 * Pow(256, 12) && Pow(256, 12) == 256 * Pow(256, 11) && Pow(256, 11) == 256 * Pow(256, 10);
    assert Pow(256, 10) == 256 * Pow(256, 9) && Pow(256, 9) == 256 * Pow(256, 8);
  }

  /** For every way of cutting a message into updates, the compression function gets the blocks of
      the padded message. */
  method Hash(pieces: seq<seq<Byte>>) returns (blocks: seq<seq<Byte>>)
    requires |Flat(pieces)| < 0x80_0000_0000
    ensures PaddedMessage(blocks, Flat(pieces), 128, 16)
  {
    var ctx := new Accumulator(BLOCK);
    for i := 0 to |pieces|
      invariant fresh(ctx) && fresh(ctx.partial) && ctx.Valid() && ctx.nblock == BLOCK
      invariant ctx.Data() == Flat(pieces[..i])
    {
      FlatAppend(pieces[..i], pieces[i]);
      assert pieces[..i + 1] == pieces[..i] + [pieces[i]];
      ctx.Accumulate(pieces[i]);
    }
    assert pieces[..|pieces|] == pieces;
    ghost var z := DigestFinal(ctx);
    Pow256Values();
    SmallerThanWide(8 * |Flat(pieces)|);
    StandardIffCounted(ctx.blocks, Flat(pieces), z);
    blocks := ctx.blocks;
    assert Padded(blocks, Flat(pieces), z, BLOCK, 16);
  }
}
