/** The encoder of tinycbor/src/cborencoder.c: it writes into the caller's buffer and,
    once that is full, only counts how many bytes are missing. */
module CborEncode {
  import opened ByteStrings
  import opened CborSpec

  const SIZE_MAX: nat := 0xffff_ffff

  class CborEncoder {
    const buf: array<Byte>
    var pos: nat            // data.ptr, while end is set
    var needed: nat         // data.bytes_needed, while end is NULL
    var full: bool          // end == NULL
    var remaining: nat
    var unknownLength: bool

    // All bytes asked for so far, the number of items declared and of items added.
    ghost var stream: seq<Byte>
    ghost var declared: nat
    ghost var added: nat

    /** The buffer holds the stream as long as it fits; after that only the count is kept. */
    ghost predicate Valid()
      reads this, buf
    {
      && (!full ==> pos == |stream| <= buf.Length && buf[..pos] == stream)
      && (full ==> |stream| == buf.Length + needed && (needed > 0 || buf.Length == 0))
      && Counted()
    }

    /** `remaining` counts down to 1 for the declared number of items and sticks at 0 beyond it. */
    ghost predicate Counted()
      reads this
    {
      !unknownLength ==> remaining == if added <= declared then declared + 1 - added else 0
    }

    ghost predicate Fits()
      reads this
    {
      |stream| <= buf.Length
    }

    /** cbor_encoder_init. A NULL buffer of size 0 starts in counting mode. */
    constructor Init(buffer: array<Byte>, isNull: bool)
      requires isNull ==> buffer.Length == 0
      ensures Valid() && buf == buffer && stream == [] && declared == 1 && added == 0 && !unknownLength
    {
      buf, pos, needed, full, remaining, unknownLength := buffer, 0, 0, isNull, 2, false;
      stream, declared, added := [], 1, 0;
    }

    constructor Container(parent: CborEncoder, length: nat, isMap: bool, unknown: bool)
      requires parent.Valid()
      ensures Valid() && buf == parent.buf && stream == parent.stream && unknownLength == unknown
      ensures declared == (if isMap then 2 * length else length) && added == 0
    {
      buf, pos, needed, full := parent.buf, parent.pos, parent.needed, parent.full;
      unknownLength := unknown;
      remaining := if unknown then 0 else if isMap then 2 * length + 1 else length + 1;
      stream, declared, added := parent.stream, if isMap then 2 * length else length, 0;
    }

    /** append_to_buffer. */
    method Append(data: seq<Byte>) returns (err: CborError)
      requires Valid()
      modifies this`pos, this`needed, this`full, this`stream, buf
      ensures Valid() && stream == old(stream) + data
      ensures err == if Fits() then NoError else OutOfMemory
    {
      // would_overflow
      var room: int := if full then 0 else buf.Length - pos;
      if full { room := room - needed; }
      if room - |data| < 0 {
        var len := |data|;
        if !full {
          len := len - (buf.Length - pos);
          full := true;
          needed := 0;
        }
        needed := needed + len;
        stream := stream + data;
        return OutOfMemory;
      }
      if !full {
        Copy(data);
      }
      stream := stream + data;
      return NoError;
    }

    /** memcpy(encoder->data.ptr, data, len) and the advance of the pointer. */
    method Copy(data: seq<Byte>)
      requires pos + |data| <= buf.Length
      modifies this`pos, buf
      ensures pos == old(pos) + |data| && buf[..pos] == old(buf[..pos]) + data
      ensures forall i :: 0 <= i < old(pos) || pos <= i < buf.Length ==> buf[i] == old(buf[i])
    {
      for i := 0 to |data|
        invariant pos == old(pos)
        invariant forall j :: 0 <= j < pos ==> buf[j] == old(buf[j])
        invariant forall j :: pos <= j < pos + i ==> buf[j] == data[j - pos]
        invariant forall j :: pos + i <= j < buf.Length ==> buf[j] == old(buf[j])
      {
        buf[pos + i] := data[i];
      }
      pos := pos + |data|;
    }

    /** saturated_decrement. */
    method CountItem()
      requires Counted()
      modifies this`remaining, this`added
      ensures Counted() && added == old(added) + 1
    {
      if remaining > 0 {
        remaining := remaining - 1;
      }
      added := added + 1;
    }

    /** encode_number_no_update: the 64-bit number in big-endian form, cut to the bytes it needs. */
    method EncodeNumberNoUpdate(ui: nat, major: nat) returns (err: CborError)
      requires Valid() && ui < UINT64_SIZE && major < 8
      modifies this`pos, this`needed, this`full, this`stream, buf
      ensures Valid() && stream == old(stream) + Head(major, ui)
      ensures err == if Fits() then NoError else OutOfMemory
    {
      var data := HeadBytes(ui, major);
      err := Append(data);
    }

    /** encode_number. */
    method EncodeNumber(ui: nat, major: nat) returns (err: CborError)
      requires Valid() && ui < UINT64_SIZE && major < 8
      modifies this, buf
      ensures Valid() && stream == old(stream) + Head(major, ui)
      ensures err == if Fits() then NoError else OutOfMemory
      ensures added == old(added) + 1 && declared == old(declared) && unknownLength == old(unknownLength)
    {
      CountItem();
      err := EncodeNumberNoUpdate(ui, major);
    }

    /** cbor_encode_uint. */
    method EncodeUint(value: nat) returns (err: CborError)
      requires Valid() && value < UINT64_SIZE
      modifies this, buf
      ensures Valid() && stream == old(stream) + Encode(UInt(value))
      ensures err == if Fits() then NoError else OutOfMemory
      ensures added == old(added) + 1 && declared == old(declared) && unknownLength == old(unknownLength)
    {
      err := EncodeNumber(value, 0);
    }

    /** cbor_encode_negative_int: an absolute value of 0 stands for 2^64. */
    method EncodeNegativeInt(absolute: nat) returns (err: CborError)
      requires Valid() && absolute < UINT64_SIZE
      modifies this, buf
      ensures Valid()
      ensures stream == old(stream) + Encode(NegInt(if absolute == 0 then UINT64_SIZE - 1 else absolute - 1))
      ensures err == if Fits() then NoError else OutOfMemory
      ensures added == old(added) + 1 && declared == old(declared) && unknownLength == old(unknownLength)
    {
      err := EncodeNumber(if absolute == 0 then UINT64_SIZE - 1 else absolute - 1, 1);
    }

    /** cbor_encode_int on a 64-bit value: negatives are complemented. */
    method EncodeInt(value: int) returns (err: CborError)
      requires Valid() && -0x8000_0000_0000_0000 <= value < 0x8000_0000_0000_0000
      modifies this, buf
      ensures Valid()
      ensures stream == old(stream) + Encode(if value < 0 then NegInt(-1 - value) else UInt(value))
      ensures err == if Fits() then NoError else OutOfMemory
      ensures added == old(added) + 1 && declared == old(declared) && unknownLength == old(unknownLength)
    {
      if value < 0 {
        err := EncodeNumber(-1 - value, 1);
      } else {
        err := EncodeNumber(value, 0);
      }
    }

    /** cbor_encode_boolean through cbor_encode_simple_value. */
    method EncodeBoolean(value: bool) returns (err: CborError)
      requires Valid()
      modifies this, buf
      ensures Valid() && stream == old(stream) + Encode(Bool(value))
      ensures err == if Fits() then NoError else OutOfMemory
      ensures added == old(added) + 1 && declared == old(declared) && unknownLength == old(unknownLength)
    {
      err := EncodeNumber(if value then 21 else 20, 7);
    }

    /** encode_string: an out-of-memory header does not stop the count of the payload. */
    method EncodeString(payload: seq<Byte>, isText: bool) returns (err: CborError)
      requires Valid() && |payload| <= SIZE_MAX
      modifies this, buf
      ensures Valid() && stream == old(stream) + Encode(if isText then Text(payload) else Bytes(payload))
      ensures err == if Fits() then NoError else OutOfMemory
      ensures added == old(added) + 1 && declared == old(declared) && unknownLength == old(unknownLength)
    {
      err := EncodeNumber(|payload|, if isText then 3 else 2);
      err := Append(payload);
      assert stream == old(stream) + (Head(if isText then 3 else 2, |payload|) + payload);
    }

    /** create_container. */
    method CreateContainer(length: nat, isMap: bool) returns (err: CborError, container: CborEncoder)
      requires Valid() && length < SIZE_MAX && (isMap ==> length <= SIZE_MAX / 2)
      modifies this`remaining, this`added, buf
      ensures fresh(container) && container.buf == buf && container.Valid() && !container.unknownLength
      ensures container.stream == old(stream) + Head(if isMap then 5 else 4, length)
      ensures container.declared == (if isMap then 2 * length else length) && container.added == 0
      ensures err == if container.Fits() then NoError else OutOfMemory
      ensures Counted() && added == old(added) + 1
    {
      container := new CborEncoder.Container(this, length, isMap, false);
      CountItem();
      err := container.EncodeNumberNoUpdate(length, if isMap then 5 else 4);
    }

    /** cbor_encoder_create_map: too many pairs are refused before anything changes. */
    method CreateMap(length: nat) returns (err: CborError, container: CborEncoder?)
      requires Valid() && length < SIZE_MAX
      modifies this`remaining, this`added, buf
      ensures length > SIZE_MAX / 2 ==>
        err == DataTooLarge && container == null && unchanged(this) && buf[..] == old(buf[..])
      ensures length <= SIZE_MAX / 2 ==> container != null && fresh(container) && container.buf == buf
      ensures length <= SIZE_MAX / 2 ==>
        container.Valid() && !container.unknownLength && container.stream == old(stream) + Head(5, length)
      ensures length <= SIZE_MAX / 2 ==> container.declared == 2 * length && container.added == 0
      ensures length <= SIZE_MAX / 2 ==> err == if container.Fits() then NoError else OutOfMemory
      ensures length <= SIZE_MAX / 2 ==> Counted() && added == old(added) + 1
    {
      if length > SIZE_MAX / 2 {
        return DataTooLarge, null;
      }
      err, container := CreateContainer(length, true);
    }

    /** create_container with CborIndefiniteLength. */
    method CreateIndefinite(isMap: bool) returns (err: CborError, container: CborEncoder)
      requires Valid()
      modifies this`remaining, this`added, buf
      ensures fresh(container) && container.buf == buf && container.Valid() && container.unknownLength
      ensures container.stream == old(stream) + [if isMap then 0xbf else 0x9f]
      ensures err == if container.Fits() then NoError else OutOfMemory
      ensures Counted() && added == old(added) + 1
    {
      container := new CborEncoder.Container(this, 0, isMap, true);
      CountItem();
      err := container.Append([if isMap then 0xbf else 0x9f]);
    }

    /** cbor_encoder_close_container: no error if and only if exactly the declared number of
        items went in and everything fitted; an indefinite container gets its break byte. */
    method CloseContainer(container: CborEncoder) returns (err: CborError)
      requires container.Valid() && container.buf == buf && container != this && Counted()
      requires container.stream != []  // create_container has put the header there
      modifies this`pos, this`needed, this`full, this`stream, buf
      ensures Valid()
      ensures stream == container.stream + (if container.unknownLength then [0xff] else [])
      ensures !container.unknownLength ==>
        err == (if container.added < container.declared then TooFewItems
                else if container.added > container.declared then TooManyItems
                else if !Fits() then OutOfMemory else NoError)
      ensures container.unknownLength ==> err == if Fits() then NoError else OutOfMemory
    {
      pos, needed, full := container.pos, container.needed, container.full;
      stream := container.stream;
      if container.unknownLength {
        err := Append([0xff]);
        return;
      }
      assert stream == container.stream + [];
      if container.remaining != 1 {
        return if container.remaining == 0 then TooManyItems else TooFewItems;
      }
      return if full then OutOfMemory else NoError;
    }

    /** cbor_encoder_get_extra_bytes_needed. */
    method ExtraBytesNeeded() returns (n: nat)
      requires Valid()
      ensures n == if Fits() then 0 else |stream| - buf.Length
    {
      n := if full then needed else 0;
    }
  }

  /** The bytes that encode_number_no_update puts together. */
  method HeadBytes(ui: nat, major: nat) returns (data: seq<Byte>)
    requires ui < UINT64_SIZE && major < 8
    ensures data == Head(major, ui)
  {
    var numeral := BE(ui, 8);
    if ui < 24 {
      LastByte(ui, 8);
      return [numeral[7] + 32 * major];
    }
    var more := 0;
    if ui > 0xff { more := more + 1; }
    if ui > 0xffff { more := more + 1; }
    if ui > 0xffff_ffff { more := more + 1; }
    var width := if more == 0 then 1 else if more == 1 then 2 else if more == 2 then 4 else 8;
    BETail(ui, 8, width);
    data := [32 * major + 24 + more] + numeral[8 - width..];
  }

  lemma LastByte(n: nat, w: nat)
    requires w > 0
    ensures BE(n, w)[w - 1] == n % 256
  {
  }

  /** Encoding a whole tree through the interface: the stream grows by exactly the encoding,
      however much of it the buffer can take, and the tree counts as one item. */
  method EncodeItem(enc: CborEncoder, item: Item) returns (err: CborError)
    requires enc.Valid() && Encodable(item)
    modifies enc, enc.buf
    ensures enc.Valid() && enc.stream == old(enc.stream) + Encode(item)
    ensures err == if enc.Fits() then NoError else OutOfMemory
    ensures enc.added == old(enc.added) + 1 && enc.declared == old(enc.declared)
    ensures enc.unknownLength == old(enc.unknownLength)
    decreases item
  {
    match item {
      case UInt(n) =>
        err := enc.EncodeUint(n);
      case NegInt(n) =>
        err := enc.EncodeNegativeInt(if n == UINT64_SIZE - 1 then 0 else n + 1);
      case Bytes(b) =>
        err := enc.EncodeString(b, false);
      case Text(b) =>
        err := enc.EncodeString(b, true);
      case Bool(v) =>
        err := enc.EncodeBoolean(v);
      case Arr(items, open) =>
        err := EncodeContainer(enc, items, |items|, false, open, item);
      case Map(items, open) =>
        err := EncodeContainer(enc, items, |items| / 2, true, open, item);
    }
  }

  /** The children of a container, in order. */
  method EncodeItems(container: CborEncoder, items: seq<Item>)
    requires container.Valid() && forall i :: 0 <= i < |items| ==> Encodable(items[i])
    modifies container, container.buf
    ensures container.Valid() && container.stream == old(container.stream) + EncodeAll(items)
    ensures container.added == old(container.added) + |items|
    ensures container.declared == old(container.declared) && container.unknownLength == old(container.unknownLength)
    decreases items
  {
    assert container.stream + EncodeAll(items[..0]) == container.stream;
    for i := 0 to |items|
      invariant container.Valid() && container.stream == old(container.stream) + EncodeAll(items[..i])
      invariant container.added == old(container.added) + i
      invariant container.declared == old(container.declared) && container.unknownLength == old(container.unknownLength)
    {
      OneMore(items, i, old(container.stream));
      var err := EncodeItem(container, items[i]);
    }
    assert items[..|items|] == items;
  }

  lemma OneMore(items: seq<Item>, i: nat, before: seq<Byte>)
    requires i < |items|
    ensures before + EncodeAll(items[..i]) + Encode(items[i]) == before + EncodeAll(items[..i + 1])
  {
    assert items[..i + 1] == items[..i] + [items[i]];
    EncodeAllAppend(items[..i], items[i]);
  }

  /** A container, of known or unknown length, with its children. */
  method EncodeContainer(enc: CborEncoder, items: seq<Item>, length: nat, isMap: bool, open: bool, ghost whole: Item)
    returns (err: CborError)
    requires enc.Valid() && Encodable(whole) && whole == (if isMap then Map(items, open) else Arr(items, open))
    requires length == if isMap then |items| / 2 else |items|
    modifies enc, enc.buf
    ensures enc.Valid() && enc.stream == old(enc.stream) + Encode(whole)
    ensures err == if enc.Fits() then NoError else OutOfMemory
    ensures enc.added == old(enc.added) + 1 && enc.declared == old(enc.declared)
    ensures enc.unknownLength == old(enc.unknownLength)
    decreases whole, 0
  {
    var container: CborEncoder;
    if open {
      err, container := enc.CreateIndefinite(isMap);
    } else {
      err, container := enc.CreateContainer(length, isMap);
    }
    EncodeItems(container, items);
    err := enc.CloseContainer(container);
    Regrouped(old(enc.stream), Opening(if isMap then 5 else 4, length, open), EncodeAll(items), Closing(open));
  }

  lemma Regrouped(before: seq<Byte>, opening: seq<Byte>, content: seq<Byte>, closing: seq<Byte>)
    ensures before + opening + content + closing == before + (opening + (content + closing))
  {
  }
}
