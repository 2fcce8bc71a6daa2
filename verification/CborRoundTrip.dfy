/** The pull parser undoes the encoder. */
module CborRoundTrip {
  import opened ByteStrings
  import opened CborSpec
  import opened CborEncode
  import opened CborParse
  import opened CborItems

  /** What reading the first of ts leaves behind. */
  ghost predicate ReadsFirst(it: CborValue, from: nat, before: nat, ts: seq<Item>, err: CborError, item: Item)
    requires |ts| > 0
    reads it
  {
    item == ts[0] && Passed(it, from, before, ts, err)
  }

  /** A reader written against the iterator interface. On any buffer it returns and consumes at
      least a byte when it succeeds; before encoded items it returns the first of them. */
  method ReadItem(it: CborValue, ghost ts: seq<Item>) returns (err: CborError, item: Item)
    requires it.Ready() && it.remaining > 0
    modifies it
    ensures old(it.ptr) <= it.ptr <= |it.data|
    ensures err == NoError ==> old(it.ptr) < it.ptr && it.Ready()
    ensures |ts| > 0 && old(Before(it, ts)) ==> ReadsFirst(it, old(it.ptr), old(it.remaining), ts, err, item)
    decreases |it.data| - it.ptr, 2
  {
    item := Bool(false);
    if it.typ == INTEGER {
      err, item := ReadInteger(it, ts);
    } else if it.typ == BOOLEAN {
      err, item := ReadBoolean(it, ts);
    } else if it.typ == BYTE_STRING || it.typ == TEXT_STRING {
      err, item := ReadString(it, ts);
    } else if it.typ == ARRAY || it.typ == MAP {
      err, item := ReadContainer(it, ts);
    } else {
      if |ts| > 0 && Before(it, ts) { KnownType(it, ts); }
      return UnknownType, item;
    }
  }

  method ReadInteger(it: CborValue, ghost ts: seq<Item>) returns (err: CborError, item: Item)
    requires it.Ready() && it.remaining > 0 && it.typ == INTEGER
    modifies it
    ensures old(it.ptr) < it.ptr <= |it.data|
    ensures err == NoError ==> it.Ready()
    ensures |ts| > 0 && old(Before(it, ts)) ==> ReadsFirst(it, old(it.ptr), old(it.remaining), ts, err, item)
  {
    ghost var good := |ts| > 0 && Before(it, ts);
    if good { IntegerWidth(it, ts); }
    var n := it.RawInteger();
    item := if it.negative then NegInt(n) else UInt(n);
    err := PassFixed(it, ts);
  }

  method ReadBoolean(it: CborValue, ghost ts: seq<Item>) returns (err: CborError, item: Item)
    requires it.Ready() && it.remaining > 0 && it.typ == BOOLEAN
    modifies it
    ensures old(it.ptr) < it.ptr <= |it.data|
    ensures err == NoError ==> it.Ready()
    ensures |ts| > 0 && old(Before(it, ts)) ==> ReadsFirst(it, old(it.ptr), old(it.remaining), ts, err, item)
  {
    ghost var good := |ts| > 0 && Before(it, ts);
    if good { KnownType(it, ts); }
    item := Bool(it.extra != 0);
    err := PassFixed(it, ts);
  }

  method ReadString(it: CborValue, ghost ts: seq<Item>) returns (err: CborError, item: Item)
    requires it.Ready() && it.remaining > 0 && (it.typ == BYTE_STRING || it.typ == TEXT_STRING)
    modifies it
    ensures old(it.ptr) <= it.ptr <= |it.data|
    ensures err == NoError ==> old(it.ptr) < it.ptr && it.Ready()
    ensures |ts| > 0 && old(Before(it, ts)) ==> ReadsFirst(it, old(it.ptr), old(it.remaining), ts, err, item)
  {
    var isText := it.typ == TEXT_STRING;
    var content;
    err, content := PassString(it, UINT32_MAX, ts);
    item := if isText then Text(content) else Bytes(content);
  }

  method ReadContainer(it: CborValue, ghost ts: seq<Item>) returns (err: CborError, item: Item)
    requires it.Ready() && it.remaining > 0 && (it.typ == ARRAY || it.typ == MAP)
    modifies it
    ensures old(it.ptr) <= it.ptr <= |it.data|
    ensures err == NoError ==> old(it.ptr) < it.ptr && it.Ready()
    ensures |ts| > 0 && old(Before(it, ts)) ==> ReadsFirst(it, old(it.ptr), old(it.remaining), ts, err, item)
    decreases |it.data| - it.ptr, 1
  {
    var isMap, open := it.typ == MAP, it.unknownLength;
    ghost var good := |ts| > 0 && Before(it, ts);
    ghost var items := if good && (ts[0].Arr? || ts[0].Map?) then ts[0].items else [];
    if good { ContainerPayload(it, ts); }
    item := Bool(false);
    var recursed, content;
    err, recursed, content := ReadContents(it, items);
    if err != NoError {
      return;
    }
    item := if isMap then Map(content, open) else Arr(content, open);
    err := PassContainer(it, recursed, ts);
  }

  /** Enter the container and read until its end. */
  method ReadContents(it: CborValue, ghost items: seq<Item>)
    returns (err: CborError, recursed: CborValue, content: seq<Item>)
    requires it.Ready() && it.remaining > 0 && (it.typ == ARRAY || it.typ == MAP)
    ensures fresh(recursed) && recursed.data == it.data && it.ptr <= recursed.ptr <= |it.data|
    ensures err == NoError ==> it.ptr < recursed.ptr && recursed.typ == INVALID
    ensures Holds(it, items) ==> err == NoError && content == items
    ensures Holds(it, items) ==> recursed.ptr == ContentEnd(it, items)
    decreases |it.data| - it.ptr, 0
  {
    content := [];
    err, recursed := it.EnterContainer();
    if Holds(it, items) { Entered(it, recursed, items, err); }
    if err != NoError {
      return;
    }
    err, content := ReadAll(recursed, items);
  }

  /** Read until the end of the container. */
  method ReadAll(it: CborValue, ghost items: seq<Item>) returns (err: CborError, content: seq<Item>)
    requires it.Ready()
    modifies it
    ensures old(it.ptr) <= it.ptr <= |it.data|
    ensures err == NoError ==> it.remaining == 0 && it.typ == INVALID
    ensures old(Before(it, items)) ==>
      err == NoError && content == items && it.ptr == old(it.ptr + Left(it.remaining, items))
    decreases |it.data| - it.ptr, 3
  {
    content, err := [], NoError;
    ghost var good, rest := Before(it, items), items;
    while it.remaining != 0
      invariant it.Ready() && old(it.ptr) <= it.ptr && err == NoError
      invariant good ==> content + rest == items && Before(it, rest)
      invariant good ==> it.ptr + Left(it.remaining, rest) == old(it.ptr + Left(it.remaining, items))
      decreases |it.data| - it.ptr
    {
      var x;
      ghost var from, before := it.ptr, it.remaining;
      err, x := ReadItem(it, rest);
      if err != NoError {
        return;
      }
      if good {
        PassedLeft(it, from, before, rest, err);
        NextOne(content, x, rest, items);
        rest := rest[1..];
      }
      content := content + [x];
    }
  }

  lemma NextOne(content: seq<Item>, x: Item, rest: seq<Item>, items: seq<Item>)
    requires |rest| > 0 && x == rest[0] && content + rest == items
    ensures content + [x] + rest[1..] == items
  {
    assert [x] + rest[1..] == rest;
  }

  /** The central law. For every tree, with containers of known or unknown length, and every buffer: if the tree's encoding fits, parsing the
      written bytes returns the tree and stops at the last of them; if not, the encoder says by
      how much the buffer must grow. */
  method RoundTrip(t: Item, size: nat) returns (fits: bool, extra: nat, back: Item, consumed: nat)
    requires Encodable(t)
    ensures fits <==> |Encode(t)| <= size
    ensures fits ==> back == t && consumed == |Encode(t)|
    ensures !fits ==> size + extra == |Encode(t)|
  {
    var buffer := new Byte[size](_ => 0);
    var enc := new CborEncoder.Init(buffer, false);
    assert enc.stream + Encode(t) == Encode(t);
    var err := EncodeItem(enc, t);
    extra := enc.ExtraBytesNeeded();
    fits, back, consumed := err == NoError, t, 0;
    if fits {
      back, consumed := ParseBack(buffer[..enc.pos], t);
    }
  }

  /** Reading the encoding of a tree from the start of a buffer. */
  method ParseBack(data: seq<Byte>, ghost t: Item) returns (back: Item, consumed: nat)
    requires Encodable(t) && StartsAt(data, 0, Encode(t))
    ensures back == t && consumed == |Encode(t)|
  {
    var it := new CborValue.At(data);
    AtItem(it, t);
    var err := it.PreparseValue();
    err, back := ReadItem(it, [t]);
    consumed := it.ptr;
  }
}
