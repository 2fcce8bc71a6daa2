/** CBOR items and their encoding (section 2.1 of RFC 7049), as far as the
    authenticator uses them: integers, strings, booleans, arrays and maps, these of known and of
    unknown length. */
module CborSpec {
  import opened ByteStrings

  /** NegInt(n) is the integer -1 - n. Map holds its keys and values alternately. An open container
      does not announce its length and ends with a break byte. */
  datatype Item =
    | UInt(n: nat)
    | NegInt(n: nat)
    | Bytes(b: seq<Byte>)
    | Text(b: seq<Byte>)
    | Bool(v: bool)
    | Arr(items: seq<Item>, open: bool)
    | Map(items: seq<Item>, open: bool)

  datatype CborError =
    | NoError
    | OutOfMemory
    | TooManyItems
    | TooFewItems
    | DataTooLarge
    | UnexpectedEOF
    | IllegalNumber
    | IllegalType
    | UnknownType
    | UnexpectedBreak
    | IllegalSimpleType
    | NestingTooDeep

  const UINT32_MAX: nat := 0xffff_ffff
  const UINT64_SIZE: nat := 0x1_0000_0000_0000_0000

  // ---------- Heads ----------

  /** The number of bytes that follow the initial byte. */
  function WidthFor(n: nat): nat {
    if n < 24 then 0 else if n <= 0xff then 1 else if n <= 0xffff then 2 else if n <= 0xffff_ffff then 4 else 8
  }

  /** Additional information 24, 25, 26, 27 announces 1, 2, 4, 8 bytes. */
  function Width(ai: nat): nat
    requires ai <= 27
  {
    if ai < 24 then 0 else if ai == 24 then 1 else if ai == 25 then 2 else if ai == 26 then 4 else 8
  }

  function InfoFor(n: nat): (ai: nat)
    ensures ai <= 27 && Width(ai) == WidthFor(n)
  {
    if n < 24 then n else if n <= 0xff then 24 else if n <= 0xffff then 25 else if n <= 0xffff_ffff then 26 else 27
  }

  function Head(major: nat, n: nat): (s: seq<Byte>)
    requires major < 8
    ensures |s| == 1 + WidthFor(n)
  {
    [32 * major + InfoFor(n)] + BE(n, WidthFor(n))
  }

  /** How a container begins, and how it ends. */
  function Opening(major: nat, n: nat, open: bool): (s: seq<Byte>)
    requires major < 8
    ensures |s| > 0
  {
    if open then [32 * major + 31] else Head(major, n)
  }

  function Closing(open: bool): seq<Byte> { if open then [0xff] else [] }

  function Encode(item: Item): (s: seq<Byte>)
    ensures |s| > 0
    decreases item, 0
  {
    match item
    case UInt(n) => Head(0, n)
    case NegInt(n) => Head(1, n)
    case Bytes(b) => Head(2, |b|) + b
    case Text(b) => Head(3, |b|) + b
    case Bool(v) => [if v then 0xf5 else 0xf4]
    case Arr(items, open) => Opening(4, |items|, open) + (EncodeAll(items) + Closing(open))
    case Map(items, open) => Opening(5, |items| / 2, open) + (EncodeAll(items) + Closing(open))
  }

  function EncodeAll(items: seq<Item>): (s: seq<Byte>)
    ensures |s| >= |items|
    decreases items, 1
  {
    if |items| == 0 then [] else Encode(items[0]) + EncodeAll(items[1..])
  }

  lemma {:induction false} EncodeAllAppend(items: seq<Item>, x: Item)
    ensures EncodeAll(items + [x]) == EncodeAll(items) + Encode(x)
  {
    if |items| == 0 {
      assert items + [x] == [x];
      assert EncodeAll([x]) == Encode(x) + EncodeAll([x][1..]);
    } else {
      var all := items + [x];
      EncodeAllAppend(items[1..], x);
      assert all[1..] == items[1..] + [x] && all[0] == items[0];
      assert EncodeAll(all) == Encode(items[0]) + (EncodeAll(items[1..]) + Encode(x));
    }
  }

  /** The limits of the encoder interface (64-bit numbers, size_t lengths of 32 bits) and of
      the parser (a container of UINT32_MAX items is refused, a map counts double; an open container
      may have any number). */
  ghost predicate Encodable(item: Item) {
    match item
    case UInt(n) => n < UINT64_SIZE
    case NegInt(n) => n < UINT64_SIZE
    case Bytes(b) => |b| <= UINT32_MAX
    case Text(b) => |b| <= UINT32_MAX
    case Bool(_) => true
    case Arr(items, open) => (open || |items| < UINT32_MAX) && forall i :: 0 <= i < |items| ==> Encodable(items[i])
    case Map(items, open) =>
      |items| % 2 == 0 && (open || |items| < UINT32_MAX) && forall i :: 0 <= i < |items| ==> Encodable(items[i])
  }
}
