/** The padding of FIPS 180-4 (sections 5.1.1 and 5.1.2): a one bit, zeros and the length. */
module HashPadding {
  import opened ByteStrings

  ghost predicate AllOfSize(blocks: seq<seq<Byte>>, n: nat) {
    forall i :: 0 <= i < |blocks| ==> |blocks[i]| == n
  }

  lemma {:induction false} FlatLength(blocks: seq<seq<Byte>>, n: nat)
    requires AllOfSize(blocks, n)
    ensures |Flat(blocks)| == |blocks| * n
  {
    if |blocks| > 0 {
      var init := blocks[..|blocks| - 1];
      assert forall i :: 0 <= i < |init| ==> init[i] == blocks[i];
      FlatLength(init, n);
    }
  }

  /** A one bit, z zero bytes, and the length field. */
  function Padding(z: nat, lengthField: seq<Byte>): seq<Byte> {
    [0x80] + Repeat(0, z) + lengthField
  }

  /** z is the smallest number of zeros that fills up a block. */
  ghost predicate Fills(length: nat, z: nat, block: nat, lengthSize: nat)
    requires block > 0
  {
    z < block && (length + 1 + z + lengthSize) % block == 0
  }

  /** The blocks are the message and its padding with this length field. */
  ghost predicate PaddedWith(blocks: seq<seq<Byte>>, msg: seq<Byte>, z: nat, block: nat, lengthField: seq<Byte>)
    requires block > 0
  {
    && AllOfSize(blocks, block) && Fills(|msg|, z, block, |lengthField|)
    && Flat(blocks) == msg + Padding(z, lengthField)
  }

  /** The padded message as the standard defines it: the length in bits as a number of lengthSize
      bytes. */
  ghost predicate Padded(blocks: seq<seq<Byte>>, msg: seq<Byte>, z: nat, block: nat, lengthSize: nat)
    requires block > 0
  {
    PaddedWith(blocks, msg, z, block, BE(8 * |msg|, lengthSize))
  }

  /** The blocks are the padded message; how many zeros it has follows from its length. */
  ghost predicate PaddedMessage(blocks: seq<seq<Byte>>, msg: seq<Byte>, block: nat, lengthSize: nat)
    requires block > 0
  {
    exists z :: Padded(blocks, msg, z, block, lengthSize)
  }
}
