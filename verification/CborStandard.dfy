/** What the heads and encodings of CborSpec are, in the terms of RFC 7049 itself. */
module CborStandard {
  import opened Words
  import opened ByteStrings
  import opened CborSpec
  import opened CborParse

  // ---------- Heads (section 2.1 of RFC 7049) ----------

  /** The head of a number under a major type: in the initial byte below 24, else in as many bytes as
      24, 25, 26 or 27 announce, the most significant one first. */
  lemma HeadIs(major: nat, n: nat)
    requires major < 8 && n < 0x1_0000_0000_0000_0000
    ensures var h := Head(major, n);
      if n < 24 then h == [32 * major + n]
      else
        && h[0] == 32 * major + (if n < 0x100 then 24 else if n < 0x1_0000 then 25 else if n < 0x1_0000_0000 then 26 else 27)
        && |h| == 1 + (if n < 0x100 then 1 else if n < 0x1_0000 then 2 else if n < 0x1_0000_0000 then 4 else 8)
        && FromBE(h[1..]) == n
  {
    Pow256Values();
    if n >= 24 { FromToBE(n, WidthFor(n)); }
  }

  /** The first byte is the most significant one. */
  lemma {:induction false} MostSignificantFirst(b: Byte, s: seq<Byte>)
    ensures FromBE([b] + s) == b * Pow(256, |s|) + FromBE(s)
  {
    if |s| == 0 {
      assert ([b] + s)[..0] == [];
    } else {
      var init, last := s[..|s| - 1], s[|s| - 1];
      MostSignificantFirst(b, init);
      assert ([b] + s)[..|s|] == [b] + init;
      Shifted(b, Pow(256, |init|), FromBE(init), last);
    }
  }

  lemma Shifted(b: int, p: int, x: int, last: int)
    ensures (b * p + x) * 256 + last == b * (256 * p) + (x * 256 + last)
  {
    assert b * (256 * p) == 256 * (b * p);
  }

  /** How the parser reads a head, for each width. */
  lemma NumberIs(data: seq<Byte>, p: nat)
    requires p < |data|
    ensures HeadAt(data, p) <==>
      var ai := data[p] % 32;
      ai < 24 || (ai == 24 && p + 1 < |data|) || (ai == 25 && p + 2 < |data|) || (ai == 26 && p + 4 < |data|)
      || (ai == 27 && p + 8 < |data|)
    ensures HeadAt(data, p) ==>
      var ai := data[p] % 32;
      NumberAt(data, p) ==
        if ai < 24 then ai else if ai == 24 then data[p + 1]
        else FromBE(data[p + 1..p + 1 + (if ai == 25 then 2 else if ai == 26 then 4 else 8)])
  {
    if HeadAt(data, p) && data[p] % 32 == 24 {
      assert data[p + 1..p + 2] == [data[p + 1]];
      assert FromBE([data[p + 1]]) == FromBE([data[p + 1]][..0]) * 256 + data[p + 1];
    }
  }

  /** The initial bytes that the parser takes: all complete heads but simple values below 32 in two bytes,
      and the start of strings and containers of unknown length. */
  lemma ReadableIs(data: seq<Byte>, p: nat)
    requires p < |data|
    ensures Readable(data, p) <==>
      || data[p] in {0x5f, 0x7f, 0x9f, 0xbf}
      || (HeadAt(data, p) && (data[p] == 0xf8 ==> data[p + 1] >= 32))
  {
  }

  /** A chunk of a byte string (0x40) or text string (0x60) is a string of the same type, of known length
      below 2^32, that lies inside the buffer. */
  lemma ChunkIs(data: seq<Byte>, p: nat, kind: nat)
    requires p < |data| && (kind == 0x40 || kind == 0x60)
    ensures IsChunk(data, p, kind) <==>
      && (if kind == 0x40 then 0x40 <= data[p] <= 0x5b else 0x60 <= data[p] <= 0x7b)
      && HeadAt(data, p) && NumberAt(data, p) < 0x1_0000_0000
      && p + 1 + (if data[p] % 32 < 24 then 0 else if data[p] % 32 == 24 then 1 else if data[p] % 32 == 25 then 2
                  else if data[p] % 32 == 26 then 4 else 8) + NumberAt(data, p) <= |data|
  {
  }

  /** A chunk of the wrong type. */
  lemma MixedChunks()
    ensures StringFrom([0x5f, 0x61, 0x61, 0xff], 0, true, 0x40) == Malformed
  {
  }

  /** (_ h'0102', h'030405') of appendix A. */
  lemma ChunkedStrings()
    ensures StringFrom([0x5f, 0x42, 0x01, 0x02, 0x43, 0x03, 0x04, 0x05, 0xff], 0, true, 0x40) == Whole([1, 2, 3, 4, 5], 9)
  {
    var data: seq<Byte> := [0x5f, 0x42, 0x01, 0x02, 0x43, 0x03, 0x04, 0x05, 0xff];
    assert Chunks(data, 8, 0x40) == Whole([], 9);
    assert StringAt(data, 4) == [3, 4, 5] && StringEnd(data, 4) == 8;
    assert Chunks(data, 4, 0x40) == Whole([3, 4, 5] + [], 9);
    assert StringAt(data, 1) == [1, 2] && StringEnd(data, 1) == 4;
    assert Chunks(data, 1, 0x40) == Whole([1, 2] + [3, 4, 5], 9);
  }

  /** The encoder's head is the shortest: whatever the parser reads as n has at least as many bytes. */
  lemma ShortestHead(data: seq<Byte>, p: nat, major: nat)
    requires HeadAt(data, p) && major < 8
    ensures |Head(major, NumberAt(data, p))| <= 1 + Width(data[p] % 32)
  {
    Pow256Values();
    FromBEBound(data[p + 1..p + 1 + Width(data[p] % 32)]);
  }

  /** The kind of an item is in the three high bits of its first byte; simple values and items of
      unknown length have bytes of their own. */
  lemma FirstByteIs(item: Item)
    requires Encodable(item)
    ensures var b := Encode(item)[0];
      match item
      case UInt(_) => b < 0x20 && b % 32 < 28
      case NegInt(_) => 0x20 <= b < 0x40 && b % 32 < 28
      case Bytes(_) => 0x40 <= b < 0x60 && b % 32 < 28
      case Text(_) => 0x60 <= b < 0x80 && b % 32 < 28
      case Bool(v) => b == if v then 0xf5 else 0xf4
      case Arr(_, open) => if open then b == 0x9f else 0x80 <= b < 0xa0 && b % 32 < 28
      case Map(_, open) => if open then b == 0xbf else 0xa0 <= b < 0xc0 && b % 32 < 28
  {
    match item {
      case UInt(n) => HeadByte(0, n);
      case NegInt(n) => HeadByte(1, n);
      case Bytes(b) => HeadByte(2, |b|);
      case Text(b) => HeadByte(3, |b|);
      case Bool(_) =>
      case Arr(items, open) => HeadByte(4, |items|);
      case Map(items, open) => HeadByte(5, |items| / 2);
    }
  }

  lemma HeadByte(major: nat, n: nat)
    requires major < 8
    ensures 32 * major <= Head(major, n)[0] < 32 * major + 28 && Head(major, n)[0] % 32 < 28
  {
  }

  // ---------- Examples of appendix A of RFC 7049 ----------

  lemma Numbers()
    ensures Encode(UInt(0)) == [0x00] && Encode(UInt(10)) == [0x0a] && Encode(UInt(23)) == [0x17]
    ensures Encode(UInt(24)) == [0x18, 0x18] && Encode(UInt(100)) == [0x18, 0x64]
    ensures Encode(UInt(1000)) == [0x19, 0x03, 0xe8] && Encode(UInt(1000000)) == [0x1a, 0x00, 0x0f, 0x42, 0x40]
    ensures Encode(NegInt(0)) == [0x20] && Encode(NegInt(9)) == [0x29]
    ensures Encode(NegInt(99)) == [0x38, 0x63] && Encode(NegInt(999)) == [0x39, 0x03, 0xe7]
  {
    OneByte(24);
    OneByte(100);
    OneByte(99);
    TwoBytes(3, 0xe8);
    TwoBytes(3, 0xe7);
    FourBytes(0, 0x00, 0x0f, 0x42, 0x40, 0);
  }

  lemma OneByte(b: Byte)
    ensures BE(b, 1) == [b]
  {
    assert BE(b / 256, 0) == [];
  }

  lemma TwoBytes(high: Byte, low: Byte)
    ensures BE(high as int * 256 + low as int, 2) == [high, low]
  {
    OneByte(high);
  }

  /** Numbers of eight bytes. */
  lemma WideNumbers(s: seq<Byte>)
    requires |s| == 8 && FromBE(s) >= 0x1_0000_0000
    ensures Encode(UInt(FromBE(s))) == [0x1b] + s && Encode(NegInt(FromBE(s))) == [0x3b] + s
  {
    ToFromBE(s);
  }

  lemma {:induction false} ToFromBE(s: seq<Byte>)
    ensures BE(FromBE(s), |s|) == s
  {
    if |s| > 0 { ToFromBE(s[..|s| - 1]); }
  }

  function Four(a: Byte, b: Byte, c: Byte, d: Byte): nat { ((a as int * 256 + b as int) * 256 + c as int) * 256 + d as int }

  lemma FourBytes(n: nat, a: Byte, b: Byte, c: Byte, d: Byte, w: nat)
    ensures BE(0x1_0000_0000 * n + Four(a, b, c, d), w + 4) == BE(n, w) + [a, b, c, d]
  {
    var n1 := n * 256 + a as int;
    var n2 := n1 * 256 + b as int;
    var n3 := n2 * 256 + c as int;
    NextByte(n, w, a);
    NextByte(n1, w + 1, b);
    NextByte(n2, w + 2, c);
    NextByte(n3, w + 3, d);
  }

  lemma NextByte(n: nat, w: nat, b: Byte)
    ensures BE(n * 256 + b as int, w + 1) == BE(n, w) + [b]
  {
  }

  lemma Strings()
    ensures Encode(Bytes([])) == [0x40] && Encode(Bytes([1, 2, 3, 4])) == [0x44, 0x01, 0x02, 0x03, 0x04]
    ensures Encode(Text([])) == [0x60] && Encode(Text([0x61])) == [0x61, 0x61]
    ensures Encode(Text([0x49, 0x45, 0x54, 0x46])) == [0x64, 0x49, 0x45, 0x54, 0x46]
    ensures Encode(Bool(false)) == [0xf4] && Encode(Bool(true)) == [0xf5]
  {
  }

  lemma Containers()
    ensures Encode(Arr([], false)) == [0x80] && Encode(Map([], false)) == [0xa0] && Encode(Arr([], true)) == [0x9f, 0xff]
    ensures Encode(Arr([UInt(1), UInt(2), UInt(3)], false)) == [0x83, 0x01, 0x02, 0x03]
    ensures Encode(Map([UInt(1), UInt(2), UInt(3), UInt(4)], false)) == [0xa2, 0x01, 0x02, 0x03, 0x04]
  {
    Three(UInt(1), UInt(2), UInt(3));
    assert [UInt(1), UInt(2), UInt(3), UInt(4)][1..] == [UInt(2), UInt(3), UInt(4)];
    Three(UInt(2), UInt(3), UInt(4));
  }

  lemma Two(a: Item, b: Item)
    ensures EncodeAll([a, b]) == Encode(a) + Encode(b)
  {
    assert [a, b][1..] == [b] && [b][1..] == [];
    assert EncodeAll([b]) == Encode(b) + EncodeAll([]) == Encode(b);
  }

  lemma Three(a: Item, b: Item, c: Item)
    ensures EncodeAll([a, b, c]) == Encode(a) + Encode(b) + Encode(c)
  {
    assert [a, b, c][1..] == [b, c];
    Two(b, c);
  }

  /** [_ 1, [2, 3], [_ 4, 5]]. */
  lemma OpenArray()
    ensures Encode(Arr([UInt(1), Arr([UInt(2), UInt(3)], false), Arr([UInt(4), UInt(5)], true)], true))
         == [0x9f, 0x01, 0x82, 0x02, 0x03, 0x9f, 0x04, 0x05, 0xff, 0xff]
  {
    Two(UInt(2), UInt(3));
    Two(UInt(4), UInt(5));
    var known, open := Arr([UInt(2), UInt(3)], false), Arr([UInt(4), UInt(5)], true);
    assert Encode(known) == [0x82, 0x02, 0x03];
    assert Encode(open) == [0x9f, 0x04, 0x05, 0xff];
    Three(UInt(1), known, open);
  }

  /** {_ "Fun": true, "Amt": -2}. */
  lemma OpenMap()
    ensures Encode(Map([Text([0x46, 0x75, 0x6e]), Bool(true), Text([0x41, 0x6d, 0x74]), NegInt(1)], true))
         == [0xbf, 0x63, 0x46, 0x75, 0x6e, 0xf5, 0x63, 0x41, 0x6d, 0x74, 0x21, 0xff]
  {
    var fun, amt := Text([0x46, 0x75, 0x6e]), Text([0x41, 0x6d, 0x74]);
    assert Encode(fun) == [0x63, 0x46, 0x75, 0x6e] && Encode(amt) == [0x63, 0x41, 0x6d, 0x74];
    Two(fun, Bool(true));
    Two(amt, NegInt(1));
    Pairs(fun, Bool(true), amt, NegInt(1));
  }

  lemma Pairs(a: Item, b: Item, c: Item, d: Item)
    ensures EncodeAll([a, b, c, d]) == EncodeAll([a, b]) + EncodeAll([c, d])
  {
    assert [a, b, c, d][1..] == [b, c, d];
    Two(a, b);
    Three(b, c, d);
    Two(c, d);
  }
}
