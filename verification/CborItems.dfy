/** What the iterator sees when it stands before encoded items. */
module CborItems {
  import opened ByteStrings
  import opened CborSpec
  import opened CborParse

  ghost predicate StartsAt(data: seq<Byte>, p: nat, s: seq<Byte>) {
    p + |s| <= |data| && data[p..p + |s|] == s
  }

  lemma StartsSplit(data: seq<Byte>, p: nat, s: seq<Byte>, t: seq<Byte>)
    requires StartsAt(data, p, s + t)
    ensures StartsAt(data, p, s) && StartsAt(data, p + |s|, t)
  {
    assert data[p..p + |s|] == data[p..p + |s + t|][..|s|] == (s + t)[..|s|];
    assert data[p + |s|..p + |s| + |t|] == data[p..p + |s + t|][|s|..] == (s + t)[|s|..];
  }

  /** A head in the buffer is read back as the number it was made from. */
  lemma HeadParsed(data: seq<Byte>, p: nat, major: nat, n: nat)
    requires major < 8 && n < UINT64_SIZE && StartsAt(data, p, Head(major, n))
    ensures HeadAt(data, p) && data[p] / 32 == major && data[p] % 32 == InfoFor(n)
    ensures NumberAt(data, p) == n && 1 + Width(data[p] % 32) == |Head(major, n)|
  {
    var h, w := Head(major, n), WidthFor(n);
    assert data[p] == data[p..p + |h|][0] == h[0];
    assert data[p + 1..p + 1 + w] == data[p..p + |h|][1..] == h[1..] == BE(n, w);
    Pow256Values();
    if n >= 24 { FromToBE(n, w); }
  }

  /** Every encoded item starts with something the preparse accepts. */
  lemma ItemAcceptable(data: seq<Byte>, p: nat, item: Item)
    requires Encodable(item) && StartsAt(data, p, Encode(item))
    ensures Acceptable(data, p)
  {
    match item {
      case UInt(n) => HeadParsed(data, p, 0, n);
      case NegInt(n) => HeadParsed(data, p, 1, n);
      case Bytes(b) => StartsSplit(data, p, Head(2, |b|), b); HeadParsed(data, p, 2, |b|);
      case Text(b) => StartsSplit(data, p, Head(3, |b|), b); HeadParsed(data, p, 3, |b|);
      case Bool(v) => assert data[p] == data[p..p + 1][0];
      case Arr(items, open) => OpeningParsed(data, p, 4, |items|, open, EncodeAll(items) + Closing(open));
      case Map(items, open) => OpeningParsed(data, p, 5, |items| / 2, open, EncodeAll(items) + Closing(open));
    }
  }

  /** The start of a container is read back: its length, or that it is open. */
  lemma OpeningParsed(data: seq<Byte>, p: nat, major: nat, n: nat, open: bool, rest: seq<Byte>)
    requires major < 7 && (open || n < UINT64_SIZE) && StartsAt(data, p, Opening(major, n, open) + rest)
    ensures data[p] / 32 == major && StartsAt(data, p + |Opening(major, n, open)|, rest)
    ensures if open then data[p] % 32 == 31 && |Opening(major, n, open)| == 1
      else HeadAt(data, p) && NumberAt(data, p) == n && |Opening(major, n, open)| == 1 + Width(data[p] % 32)
  {
    StartsSplit(data, p, Opening(major, n, open), rest);
    if open {
      OneByte(data, p, 32 * major + 31);
      OpenByte(major);
    } else {
      HeadParsed(data, p, major, n);
    }
  }

  lemma OneByte(data: seq<Byte>, p: nat, b: Byte)
    requires StartsAt(data, p, [b])
    ensures p < |data| && data[p] == b
  {
    assert data[p] == data[p..p + 1][0];
  }

  lemma OpenByte(major: nat)
    ensures (32 * major + 31) / 32 == major && (32 * major + 31) % 32 == 31
  {
  }

  ghost predicate AllEncodable(ts: seq<Item>) {
    forall i :: 0 <= i < |ts| ==> Encodable(ts[i])
  }

  /** The encodings of ts stand at p, and with them the container ends that has so many items left;
      UINT32_MAX marks an open one. */
  ghost predicate Follow(data: seq<Byte>, p: nat, ts: seq<Item>, left: nat) {
    && left <= UINT32_MAX && (left != UINT32_MAX ==> left == |ts|)
    && StartsAt(data, p, EncodeAll(ts) + Closing(left == UINT32_MAX))
  }

  /** How many are left after one more. */
  function Fewer(left: nat): nat { if left == 0 || left == UINT32_MAX then left else left - 1 }

  /** The iterator stands before exactly the encodings of ts. At the end of an open container it has
      passed the break byte. */
  ghost predicate Before(it: CborValue, ts: seq<Item>)
    reads it
  {
    && AllEncodable(ts)
    && if |ts| == 0 then it.remaining == 0 else Follow(it.data, it.ptr, ts, it.remaining)
  }

  /** The bytes from before ts to the end of the container. */
  function Left(left: nat, ts: seq<Item>): nat {
    if |ts| == 0 then 0 else |EncodeAll(ts)| + |Closing(left == UINT32_MAX)|
  }

  lemma FirstAndRest(data: seq<Byte>, p: nat, ts: seq<Item>, left: nat)
    requires |ts| > 0 && Follow(data, p, ts, left)
    ensures StartsAt(data, p, Encode(ts[0])) && Follow(data, p + |Encode(ts[0])|, ts[1..], Fewer(left))
  {
    var first, rest, end := Encode(ts[0]), EncodeAll(ts[1..]), Closing(left == UINT32_MAX);
    assert first + rest + end == first + (rest + end);
    StartsSplit(data, p, first, rest + end);
  }

  lemma NextAcceptable(data: seq<Byte>, p: nat, ts: seq<Item>, left: nat)
    requires |ts| > 0 && AllEncodable(ts) && Follow(data, p, ts, left)
    ensures Acceptable(data, p) && StartsAt(data, p, Encode(ts[0]))
    ensures Follow(data, p + |Encode(ts[0])|, ts[1..], Fewer(left))
  {
    FirstAndRest(data, p, ts, left);
    ItemAcceptable(data, p, ts[0]);
  }

  /** The break byte that ends an open container is passed together with the last item. */
  function Ended(left: nat, rest: seq<Item>): nat { if left == UINT32_MAX && |rest| == 0 then 1 else 0 }

  /** What passing over the first of ts leaves behind. */
  ghost predicate Passed(it: CborValue, from: nat, before: nat, ts: seq<Item>, err: CborError)
    requires |ts| > 0
    reads it
  {
    && err == NoError && Before(it, ts[1..])
    && it.ptr == from + |Encode(ts[0])| + Ended(before, ts[1..])
    && (|ts| > 1 ==> it.remaining == Fewer(before))
  }

  /** The end of the container stays where it is. */
  lemma PassedLeft(it: CborValue, from: nat, before: nat, ts: seq<Item>, err: CborError)
    requires |ts| > 0 && Passed(it, from, before, ts, err) && (before == UINT32_MAX || before == |ts| < UINT32_MAX)
    ensures it.ptr + Left(it.remaining, ts[1..]) == from + Left(before, ts)
  {
    assert EncodeAll(ts) == Encode(ts[0]) + EncodeAll(ts[1..]);
  }

  /** After a successful step over the first item the iterator stands before the rest. */
  lemma SteppedOver(it: CborValue, from: nat, before: nat, ts: seq<Item>, err: CborError)
    requires |ts| > 0 && AllEncodable(ts) && Follow(it.data, from, ts, before)
    requires it.AtNext(from + |Encode(ts[0])|, Fewer(before), err)
    ensures Passed(it, from, before, ts, err)
  {
    RestEncodable(ts);
    NextAcceptable(it.data, from, ts, before);
    Arrived(it, from + |Encode(ts[0])|, Fewer(before), ts[1..], err);
  }

  lemma SteppedOverIf(good: bool, it: CborValue, from: nat, before: nat, ts: seq<Item>, err: CborError)
    requires good ==> |ts| > 0 && AllEncodable(ts) && Follow(it.data, from, ts, before)
    requires good ==> it.AtNext(from + |Encode(ts[0])|, Fewer(before), err)
    ensures good ==> Passed(it, from, before, ts, err)
  {
    if good { SteppedOver(it, from, before, ts, err); }
  }

  lemma RestEncodable(ts: seq<Item>)
    requires |ts| > 0 && AllEncodable(ts)
    ensures AllEncodable(ts[1..])
  {
  }

  /** The iterator is at the encodings of rest, so it stands before them. */
  lemma Arrived(it: CborValue, p: nat, left: nat, rest: seq<Item>, err: CborError)
    requires AllEncodable(rest) && Follow(it.data, p, rest, left)
    requires it.AtNext(p, left, err)
    ensures err == NoError && Before(it, rest) && it.ptr == p + Ended(left, rest)
    ensures rest != [] ==> it.remaining == left
  {
    if rest != [] {
      NextAcceptable(it.data, p, rest, left);
      AcceptableIsReadable(it.data, p);
    } else if left == UINT32_MAX {
      assert it.data[p] == it.data[p..p + 1][0];
    }
  }

  lemma AcceptableIsReadable(data: seq<Byte>, p: nat)
    requires Acceptable(data, p)
    ensures Readable(data, p) && !IsBreak(data, p)
  {
  }

  /** The iterator of a new parser is before the item that its buffer starts with. */
  lemma AtItem(it: CborValue, whole: Item)
    requires Encodable(whole) && StartsAt(it.data, 0, Encode(whole)) && it.ptr == 0 && it.remaining == 1
    ensures Before(it, [whole]) && Readable(it.data, 0)
  {
    assert EncodeAll([whole]) == Encode(whole) + EncodeAll([whole][1..]) == Encode(whole);
    ItemAcceptable(it.data, 0, whole);
    AcceptableIsReadable(it.data, 0);
  }

  lemma KnownType(it: CborValue, ts: seq<Item>)
    requires it.Ready() && |ts| > 0 && Before(it, ts)
    ensures match ts[0]
      case UInt(n) => it.typ == INTEGER && !it.negative && NumberAt(it.data, it.ptr) == n
      case NegInt(n) => it.typ == INTEGER && it.negative && NumberAt(it.data, it.ptr) == n
      case Bytes(b) => it.typ == BYTE_STRING && !it.unknownLength && NumberAt(it.data, it.ptr) == |b|
      case Text(b) => it.typ == TEXT_STRING && !it.unknownLength && NumberAt(it.data, it.ptr) == |b|
      case Bool(v) => it.typ == BOOLEAN && (it.extra != 0) == v && it.data[it.ptr] == (if v then 0xf5 else 0xf4)
      case Arr(items, open) =>
        it.typ == ARRAY && it.unknownLength == open && (!open ==> NumberAt(it.data, it.ptr) == |items|)
      case Map(items, open) =>
        it.typ == MAP && it.unknownLength == open && (!open ==> NumberAt(it.data, it.ptr) == |items| / 2)
    ensures !it.unknownLength ==> HeadAt(it.data, it.ptr)
    ensures StartsAt(it.data, it.ptr, Encode(ts[0]))
  {
    var data, p := it.data, it.ptr;
    NextAcceptable(data, p, ts, it.remaining);
    match ts[0] {
      case UInt(n) => HeadParsed(data, p, 0, n);
      case NegInt(n) => HeadParsed(data, p, 1, n);
      case Bytes(b) => StartsSplit(data, p, Head(2, |b|), b); HeadParsed(data, p, 2, |b|);
      case Text(b) => StartsSplit(data, p, Head(3, |b|), b); HeadParsed(data, p, 3, |b|);
      case Bool(v) => assert data[p] == data[p..p + 1][0];
      case Arr(items, open) => OpeningParsed(data, p, 4, |items|, open, EncodeAll(items) + Closing(open));
      case Map(items, open) => OpeningParsed(data, p, 5, |items| / 2, open, EncodeAll(items) + Closing(open));
    }
  }

  lemma IntegerWidth(it: CborValue, ts: seq<Item>)
    requires it.Ready() && |ts| > 0 && Before(it, ts) && it.typ == INTEGER
    ensures HeadAt(it.data, it.ptr) && 1 + Width(it.data[it.ptr] % 32) == |Encode(ts[0])|
    ensures ts[0] == (if it.negative then NegInt(NumberAt(it.data, it.ptr)) else UInt(NumberAt(it.data, it.ptr)))
  {
    KnownType(it, ts);
    HeadParsed(it.data, it.ptr, if it.negative then 1 else 0, ts[0].n);
  }

  lemma StringPayload(it: CborValue, ts: seq<Item>)
    requires it.Ready() && |ts| > 0 && Before(it, ts) && (it.typ == BYTE_STRING || it.typ == TEXT_STRING)
    ensures !it.unknownLength && StringFits(it.data, it.ptr) && |StringAt(it.data, it.ptr)| <= UINT32_MAX
    ensures ts[0] == (if it.typ == TEXT_STRING then Text(StringAt(it.data, it.ptr)) else Bytes(StringAt(it.data, it.ptr)))
    ensures StringEnd(it.data, it.ptr) == it.ptr + |Encode(ts[0])|
  {
    KnownType(it, ts);
    assert Encodable(ts[0]);
    StringParsed(it.data, it.ptr, if it.typ == TEXT_STRING then 3 else 2, ts[0].b);
  }

  lemma StringParsed(data: seq<Byte>, p: nat, major: nat, b: seq<Byte>)
    requires major < 8 && |b| <= UINT32_MAX && StartsAt(data, p, Head(major, |b|) + b)
    ensures StringFits(data, p) && StringAt(data, p) == b && StringEnd(data, p) == p + |Head(major, |b|) + b|
  {
    StartsSplit(data, p, Head(major, |b|), b);
    HeadParsed(data, p, major, |b|);
  }

  /** All that is left of the string is its payload, and it ends where its encoding does. */
  lemma StringRest(it: CborValue, ts: seq<Item>)
    requires it.Ready() && |ts| > 0 && Before(it, ts) && (it.typ == BYTE_STRING || it.typ == TEXT_STRING)
    ensures (ts[0].Bytes? || ts[0].Text?) && (ts[0].Text? <==> it.typ == TEXT_STRING) && |ts[0].b| <= UINT32_MAX
    ensures it.Rest() == Whole(ts[0].b, it.ptr + |Encode(ts[0])|)
  {
    StringPayload(it, ts);
  }

  /** Where the content of the container at the iterator starts, and how many items it announces. */
  ghost function ContentStart(it: CborValue): nat
    requires it.Described()
    reads it
  {
    it.ptr + 1 + if it.unknownLength then 0 else Width(it.data[it.ptr] % 32)
  }

  ghost function ContentCount(it: CborValue): nat
    requires it.Described()
    reads it
  {
    if it.unknownLength then UINT32_MAX else ItemCount(it.data, it.ptr, it.typ)
  }

  /** The container at the iterator holds exactly items. */
  ghost predicate Holds(it: CborValue, items: seq<Item>)
    reads it
  {
    && it.Described() && AllEncodable(items) && (!it.unknownLength ==> ContentCount(it) < UINT32_MAX)
    && Follow(it.data, ContentStart(it), items, ContentCount(it))
  }

  /** Where the container ends. */
  ghost function ContentEnd(it: CborValue, items: seq<Item>): nat
    requires it.Described()
    reads it
  {
    ContentStart(it) + |EncodeAll(items)| + |Closing(it.unknownLength)|
  }

  /** The content of an encoded container, as its first bytes announce it. */
  lemma ContentFollows(data: seq<Byte>, p: nat, item: Item)
    requires (item.Arr? || item.Map?) && Encodable(item) && StartsAt(data, p, Encode(item))
    ensures p < |data| && data[p] / 32 == (if item.Map? then 5 else 4) && (item.open <==> data[p] % 32 == 31)
    ensures var n := |item.items|;
      if item.open then
        Follow(data, p + 1, item.items, UINT32_MAX) && |Encode(item)| == 1 + |EncodeAll(item.items)| + 1
      else
        && HeadAt(data, p) && (if item.Map? then 2 * NumberAt(data, p) else NumberAt(data, p)) == n < UINT32_MAX
        && Follow(data, p + 1 + Width(data[p] % 32), item.items, n)
        && |Encode(item)| == 1 + Width(data[p] % 32) + |EncodeAll(item.items)|
  {
    var n := if item.Map? then |item.items| / 2 else |item.items|;
    OpeningParsed(data, p, if item.Map? then 5 else 4, n, item.open, EncodeAll(item.items) + Closing(item.open));
  }

  lemma ContainerPayload(it: CborValue, ts: seq<Item>)
    requires it.Ready() && |ts| > 0 && Before(it, ts) && (it.typ == ARRAY || it.typ == MAP)
    ensures (ts[0].Arr? || ts[0].Map?) && Holds(it, ts[0].items) && it.unknownLength == ts[0].open
    ensures it.typ == (if ts[0].Map? then MAP else ARRAY)
    ensures ContentEnd(it, ts[0].items) == it.ptr + |Encode(ts[0])|
  {
    KnownType(it, ts);
    assert Encodable(ts[0]);
    HoldsItems(it, ts[0]);
  }

  lemma HoldsItems(it: CborValue, item: Item)
    requires it.Described() && (item.Arr? || item.Map?) && Encodable(item) && StartsAt(it.data, it.ptr, Encode(item))
    requires it.typ == (if item.Map? then MAP else ARRAY) && it.unknownLength == item.open
    ensures Holds(it, item.items) && ContentEnd(it, item.items) == it.ptr + |Encode(item)|
  {
    ContentFollows(it.data, it.ptr, item);
    ChildrenEncodable(item);
  }

  lemma ChildrenEncodable(item: Item)
    requires (item.Arr? || item.Map?) && Encodable(item)
    ensures AllEncodable(item.items)
  {
  }

  /** After entering, the iterator stands before the children. */
  lemma Entered(it: CborValue, recursed: CborValue, items: seq<Item>, err: CborError)
    requires Holds(it, items) && recursed.data == it.data
    requires recursed.AtNext(ContentStart(it), ContentCount(it), err)
    ensures err == NoError && Before(recursed, items)
    ensures recursed.ptr + Left(recursed.remaining, items) == ContentEnd(it, items)
  {
    Arrived(recursed, ContentStart(it), ContentCount(it), items, err);
  }

  lemma FixedWidth(it: CborValue, ts: seq<Item>)
    requires it.Ready() && |ts| > 0 && Before(it, ts) && IsFixed(it.typ)
    ensures it.typ != TAG && HeadAt(it.data, it.ptr)
    ensures 1 + Width(it.data[it.ptr] % 32) == |Encode(ts[0])|
  {
    KnownType(it, ts);
    if it.typ == INTEGER { IntegerWidth(it, ts); }
  }

  // ---------- Passing over one item ----------

  /** An item of fixed size. */
  method PassFixed(it: CborValue, ghost ts: seq<Item>) returns (err: CborError)
    requires it.Ready() && it.remaining > 0 && IsFixed(it.typ)
    modifies it
    ensures old(it.ptr) < it.ptr <= |it.data|
    ensures err == NoError ==> it.Ready()
    ensures |ts| > 0 && old(Before(it, ts)) ==> Passed(it, old(it.ptr), old(it.remaining), ts, err)
  {
    ghost var good := |ts| > 0 && Before(it, ts);
    if good { FixedWidth(it, ts); }
    err := it.AdvanceInternal();
    SteppedOverIf(good, it, old(it.ptr), old(it.remaining), ts, err);
  }

  function Payload(item: Item): seq<Byte> { if item.Bytes? || item.Text? then item.b else [] }

  /** What is left of the string at the iterator; before encoded items all of the first. */
  lemma WholeString(it: CborValue, ts: seq<Item>) returns (whole: StringValue)
    requires it.Ready() && it.remaining > 0 && (it.typ == BYTE_STRING || it.typ == TEXT_STRING)
    ensures whole == it.Rest()
    ensures |ts| > 0 && Before(it, ts) ==>
      && (ts[0].Bytes? || ts[0].Text?) && (ts[0].Text? <==> it.typ == TEXT_STRING)
      && whole == Whole(Payload(ts[0]), it.ptr + |Encode(ts[0])|) && |Payload(ts[0])| <= UINT32_MAX
  {
    whole := it.Rest();
    if |ts| > 0 && Before(it, ts) { StringRest(it, ts); }
  }

  /** A string whose content and end are known, into a buffer that is large enough. */
  method CopyWhole(it: CborValue, buflen: nat, ghost whole: StringValue) returns (err: CborError, content: seq<Byte>)
    requires it.Ready() && it.remaining > 0 && (it.typ == BYTE_STRING || it.typ == TEXT_STRING) && whole == it.Rest()
    modifies it
    ensures old(it.ptr) <= it.ptr <= |it.data|
    ensures err == NoError ==> old(it.ptr) < it.ptr && it.Ready() && |content| <= buflen
    ensures whole.Whole? && |whole.content| <= buflen && |whole.content| <= UINT32_MAX ==>
      content == whole.content && it.AtNext(whole.end, Fewer(old(it.remaining)), err)
  {
    err, content := it.CopyString(buflen);
  }

  /** Read a string: its payload, and the iterator is where its encoding ends. */
  method TakeString(it: CborValue, buflen: nat, ghost ts: seq<Item>) returns (err: CborError, content: seq<Byte>)
    requires it.Ready() && it.remaining > 0 && (it.typ == BYTE_STRING || it.typ == TEXT_STRING)
    modifies it
    ensures old(it.ptr) <= it.ptr <= |it.data|
    ensures err == NoError ==> old(it.ptr) < it.ptr && it.Ready() && |content| <= buflen
    ensures |ts| > 0 && old(Before(it, ts)) && |Payload(ts[0])| <= buflen ==>
      && ts[0] == (if old(it.typ) == TEXT_STRING then Text(content) else Bytes(content))
      && it.AtNext(old(it.ptr) + |Encode(ts[0])|, Fewer(old(it.remaining)), err)
  {
    ghost var whole := WholeString(it, ts);
    err, content := CopyWhole(it, buflen, whole);
  }

  /** A string, of which up to buflen bytes are taken. */
  method PassString(it: CborValue, buflen: nat, ghost ts: seq<Item>) returns (err: CborError, content: seq<Byte>)
    requires it.Ready() && it.remaining > 0 && (it.typ == BYTE_STRING || it.typ == TEXT_STRING)
    modifies it
    ensures old(it.ptr) <= it.ptr <= |it.data|
    ensures err == NoError ==> old(it.ptr) < it.ptr && it.Ready() && |content| <= buflen
    ensures |ts| > 0 && old(Before(it, ts)) && |Payload(ts[0])| <= buflen ==>
      && Passed(it, old(it.ptr), old(it.remaining), ts, err)
      && ts[0] == if old(it.typ) == TEXT_STRING then Text(content) else Bytes(content)
  {
    ghost var good, from, before := |ts| > 0 && Before(it, ts) && |Payload(ts[0])| <= buflen, it.ptr, it.remaining;
    err, content := TakeString(it, buflen, ts);
    SteppedOverIf(good, it, from, before, ts, err);
  }

  /** A container whose children have been passed. */
  method PassContainer(it: CborValue, recursed: CborValue, ghost ts: seq<Item>) returns (err: CborError)
    requires it.Ready() && it.remaining > 0 && (it.typ == ARRAY || it.typ == MAP) && recursed != it
    requires recursed.data == it.data && recursed.typ == INVALID && it.ptr < recursed.ptr <= |it.data|
    modifies it
    ensures old(it.ptr) < it.ptr <= |it.data|
    ensures err == NoError ==> it.Ready()
    ensures |ts| > 0 && old(Before(it, ts)) && recursed.ptr == old(it.ptr) + |Encode(ts[0])| ==>
      Passed(it, old(it.ptr), old(it.remaining), ts, err)
  {
    ghost var good := |ts| > 0 && Before(it, ts) && recursed.ptr == it.ptr + |Encode(ts[0])|;
    err := it.LeaveContainer(recursed);
    SteppedOverIf(good, it, old(it.ptr), old(it.remaining), ts, err);
  }
}
