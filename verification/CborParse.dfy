/** The pull parser of tinycbor/src/cborparser.c: an iterator over a byte buffer with
    enter, advance and leave. */
module CborParse {
  import opened ByteStrings
  import opened CborSpec

  // CborType
  const INTEGER: nat := 0x00
  const BYTE_STRING: nat := 0x40
  const TEXT_STRING: nat := 0x60
  const ARRAY: nat := 0x80
  const MAP: nat := 0xa0
  const TAG: nat := 0xc0
  const SIMPLE: nat := 0xe0
  const BOOLEAN: nat := 0xf5
  const INVALID: nat := 0xff

  const BREAK: Byte := 0xff

  predicate IsFixed(typ: nat) {
    typ != TEXT_STRING && typ != BYTE_STRING && typ != ARRAY && typ != MAP
  }

  /** A whole head (initial byte and the number it announces) stands at p. */
  predicate HeadAt(data: seq<Byte>, p: nat) {
    p < |data| && data[p] % 32 <= 27 && p + 1 + Width(data[p] % 32) <= |data|
  }

  /** The number in the head at p. */
  function NumberAt(data: seq<Byte>, p: nat): nat
    requires HeadAt(data, p)
  {
    var ai := data[p] % 32;
    if ai < 24 then ai else FromBE(data[p + 1..p + 1 + Width(ai)])
  }

  /** _cbor_value_extract_number: reads the head at p and moves past it. */
  method ExtractNumber(data: seq<Byte>, p: nat) returns (err: CborError, p': nat, len: nat)
    requires p < |data|
    ensures err == NoError <==> HeadAt(data, p)
    ensures err == NoError ==> p' == p + 1 + Width(data[p] % 32) && len == NumberAt(data, p)
    ensures err != NoError ==> p' == p + 1 && err == if data[p] % 32 > 27 then IllegalNumber else UnexpectedEOF
    ensures p < p' <= |data|
  {
    var ai := data[p] % 32;
    len := 0;
    p' := p + 1;
    if ai < 24 {
      return NoError, p', ai;
    }
    if ai > 27 {
      return IllegalNumber, p', len;
    }
    var bytesNeeded := if ai == 24 then 1 else if ai == 25 then 2 else if ai == 26 then 4 else 8;
    if bytesNeeded > |data| - p' {
      return UnexpectedEOF, p', len;
    }
    return NoError, p' + bytesNeeded, FromBE(data[p'..p' + bytesNeeded]);
  }

  /** A string, or what is left of it: its content and where it ends. */
  datatype StringValue = Malformed | Whole(content: seq<Byte>, end: nat)

  class CborValue {
    const data: seq<Byte>     // parser->end is its end
    var ptr: nat
    var remaining: nat        // UINT32_MAX marks a container of unknown length
    var extra: nat
    var typ: nat
    var tooLarge: bool        // CborIteratorFlag_IntegerValueTooLarge
    var negative: bool        // CborIteratorFlag_NegativeInteger
    var unknownLength: bool   // CborIteratorFlag_UnknownLength
    var iterating: bool       // CborIteratorFlag_IteratingStringChunks

    /** The fields describe the item whose head stands at ptr. */
    ghost predicate Described()
      reads this
    {
      && ptr < |data| && typ != INVALID && !iterating
      && (unknownLength <==> data[ptr] % 32 == 31)
      && (if unknownLength then !IsFixed(typ) else HeadAt(data, ptr))
      && (!IsFixed(typ) <==> 2 <= data[ptr] / 32 <= 5)
      && (!IsFixed(typ) ==> typ == data[ptr] / 32 * 32)
      && (typ == INTEGER <==> data[ptr] / 32 <= 1)
      && (typ == INTEGER ==> negative == (data[ptr] / 32 == 1))
      && (typ == INTEGER || (!IsFixed(typ) && !unknownLength) ==>
            (tooLarge <==> data[ptr] % 32 >= 26) && (!tooLarge ==> extra == NumberAt(data, ptr)))
      && (data[ptr] == 0xf4 ==> typ == BOOLEAN && extra == 0)
      && (data[ptr] == 0xf5 ==> typ == BOOLEAN && extra != 0)
      && (typ == TAG <==> data[ptr] / 32 == 6)
    }

    /** The state after every successful call: at the end, or at an item. */
    ghost predicate Ready()
      reads this
    {
      && ptr <= |data| && remaining <= UINT32_MAX
      && (if remaining == 0 then typ == INVALID else Described())
    }

    constructor Copy(other: CborValue)
      ensures data == other.data && ptr == other.ptr && remaining == other.remaining && extra == other.extra
      ensures typ == other.typ && tooLarge == other.tooLarge && negative == other.negative
      ensures unknownLength == other.unknownLength && iterating == other.iterating
    {
      data, ptr, remaining, extra := other.data, other.ptr, other.remaining, other.extra;
      typ, tooLarge, negative := other.typ, other.tooLarge, other.negative;
      unknownLength, iterating := other.unknownLength, other.iterating;
    }

    constructor At(buffer: seq<Byte>)
      ensures data == buffer && ptr == 0 && remaining == 1
    {
      data, ptr, remaining, extra, typ := buffer, 0, 1, 0, INVALID;
      tooLarge, negative, unknownLength, iterating := false, false, false, false;
    }

    /** preparse_value: decode the head at ptr into the fields, if it can be read. */
    method PreparseValue() returns (err: CborError)
      requires ptr <= |data|
      modifies this
      ensures ptr == old(ptr) && remaining == old(remaining)
      ensures err == NoError ==> Described()
      ensures err == NoError <==> Readable(data, ptr)
      ensures err != OutOfMemory
    {
      typ := INVALID;
      if ptr == |data| {
        return UnexpectedEOF;
      }
      var descriptor: int := data[ptr] % 32;
      var type_ := data[ptr] / 32 * 32;
      typ := type_;
      tooLarge, negative, unknownLength, iterating := false, false, false, false;
      extra := descriptor;

      if descriptor > 27 {
        if descriptor != 31 {
          return if type_ == SIMPLE then UnknownType else IllegalNumber;
        }
        if !IsFixed(type_) {
          unknownLength := true;
          return NoError;
        }
        return if type_ == SIMPLE then UnexpectedBreak else IllegalNumber;
      }

      var bytesNeeded := Width(descriptor);
      if bytesNeeded + 1 > |data| - ptr {
        return UnexpectedEOF;
      }

      var majortype := type_ / 32;
      if majortype == 1 {
        negative := true;
        typ := INTEGER;
      } else if majortype == 7 {
        err := PreparseSimple(descriptor);
        return;
      }
      PreparseNumber(descriptor);
      return NoError;
    }

    /** The switch on the width of the number that follows the initial byte. */
    method PreparseNumber(descriptor: int)
      requires HeadAt(data, ptr) && data[ptr] / 32 <= 6 && descriptor == data[ptr] % 32
      requires typ == (if data[ptr] / 32 == 1 then INTEGER else data[ptr] / 32 * 32)
      requires extra == descriptor && !tooLarge && negative == (data[ptr] / 32 == 1) && !unknownLength && !iterating
      modifies this`extra, this`tooLarge
      ensures Described()
    {
      if descriptor < 24 {
        return;
      }
      if descriptor == 24 {
        extra := data[ptr + 1];
        assert data[ptr + 1..ptr + 2] == [data[ptr + 1]];
        assert FromBE([data[ptr + 1]]) == FromBE([data[ptr + 1]][..0]) * 256 + data[ptr + 1];
      } else if descriptor == 25 {
        extra := FromBE(data[ptr + 1..ptr + 3]);
      } else {
        tooLarge := true;
      }
    }

    /** The switch on simple values and floats in preparse_value. */
    method PreparseSimple(descriptor: int) returns (err: CborError)
      requires HeadAt(data, ptr) && data[ptr] / 32 == 7 && descriptor == data[ptr] % 32
      requires typ == SIMPLE && extra == descriptor && !tooLarge && !negative && !unknownLength && !iterating
      modifies this
      ensures ptr == old(ptr) && remaining == old(remaining)
      ensures err == NoError ==> Described()
      ensures err == NoError <==> !(data[ptr] == 0xf8 && data[ptr + 1] < 32)
      ensures err != OutOfMemory
    {
      if descriptor == 20 {
        extra := 0;
        typ := BOOLEAN;
      } else if descriptor == 26 || descriptor == 27 {
        tooLarge := true;
        typ := data[ptr];
      } else if descriptor == 21 || descriptor == 22 || descriptor == 23 || descriptor == 25 {
        typ := data[ptr];
      } else if descriptor == 24 {
        extra := data[ptr + 1];
        if extra < 32 {
          typ := INVALID;
          return IllegalSimpleType;
        }
      }
      return NoError;
    }

    /** preparse_next_value_nodecrement: a break ends a container of unknown length. */
    method PreparseNextNoDecrement() returns (err: CborError)
      requires ptr <= |data| && 0 < remaining <= UINT32_MAX
      modifies this
      ensures old(ptr) <= ptr <= |data|
      ensures err == NoError ==> Ready()
      ensures AtNext(old(ptr), old(remaining), err)
    {
      if remaining == UINT32_MAX && ptr != |data| && data[ptr] == BREAK {
        ptr := ptr + 1;
        typ := INVALID;
        remaining := 0;
        return NoError;
      }
      err := PreparseValue();
    }

    /** preparse_next_value: a tag does not use up an item of a container of known length. */
    method PreparseNext() returns (err: CborError)
      requires ptr <= |data| && 0 < remaining <= UINT32_MAX
      modifies this
      ensures old(ptr) <= ptr <= |data|
      ensures err == NoError ==> Ready()
      ensures AdvancedBy(old(ptr), 0, old(remaining), old(typ), err)
      ensures old(remaining) < 0xffff_ffff ==> ptr == old(ptr) && remaining == old(remaining) - if old(typ) == 0xc0 then 0 else 1
      ensures old(remaining) == 0xffff_ffff ==>
        if old(ptr) < |data| && data[old(ptr)] == 0xff then err == NoError && ptr == old(ptr) + 1 && remaining == 0
        else ptr == old(ptr) && remaining == 0xffff_ffff
    {
      if remaining != UINT32_MAX && typ != TAG {
        remaining := remaining - 1;
        if remaining == 0 {
          typ := INVALID;
          return NoError;
        }
      }
      err := PreparseNextNoDecrement();
    }

    /** advance_internal, as cbor_value_advance_fixed and advance_recursive call it: on items of
        fixed size. The head was checked by the preparse, so reading it again cannot fail. */
    method AdvanceInternal() returns (err: CborError)
      requires Ready() && remaining > 0 && IsFixed(typ)
      modifies this
      ensures old(ptr) < ptr <= |data|
      ensures err == NoError ==> Ready()
      ensures AdvancedBy(old(ptr), 1 + Width(old(data[ptr]) % 32), old(remaining), old(typ), err)
    {
      var e, p, length := ExtractNumber(data, ptr);
      assert e == NoError;
      ptr := p;
      err := PreparseNext();
    }

    /** _cbor_value_extract_int64_helper with _cbor_value_decode_int64_internal. */
    method RawInteger() returns (n: nat)
      requires Described() && !unknownLength && (typ == INTEGER || !IsFixed(typ))
      ensures n == NumberAt(data, ptr)
    {
      if !tooLarge {
        return extra;
      }
      if data[ptr] % 2 == 0 {
        return FromBE(data[ptr + 1..ptr + 5]);
      }
      return FromBE(data[ptr + 1..ptr + 9]);
    }

    // ---------- Strings ----------

    /** At a string, before, between or after its chunks. */
    ghost predicate InString()
      reads this
    {
      && ptr <= |data| && 0 < remaining <= UINT32_MAX && (typ == BYTE_STRING || typ == TEXT_STRING)
      && (!iterating ==> Described())
    }

    /** What is left of the string, and where it ends; Malformed if it is not well formed. A string of
        known length is one chunk. */
    ghost function Rest(): StringValue
      reads this
    {
      if iterating then (if unknownLength then Chunks(data, ptr, typ) else Whole([], ptr))
      else StringFrom(data, ptr, unknownLength, typ)
    }

    ghost predicate ChunkTaken(p: nat, kind: nat, before: nat, err: CborError, present: bool, chunk: seq<Byte>)
      reads this
    {
      && (present && err == NoError <==> IsChunk(data, p, kind))
      && (IsChunk(data, p, kind) ==> chunk == StringAt(data, p) && ptr == StringEnd(data, p))
      && (!IsChunk(data, p, kind) && !IsBreak(data, p) ==> err != NoError && err != OutOfMemory)
      && (IsBreak(data, p) ==> !present && AdvancedBy(p + 1, 0, before, kind, err))
    }

    /** Either the next chunk was taken from what was left, or nothing was left and the iterator moved
        on from the end, or it is an error. */
    ghost predicate TookFrom(left: StringValue, kind: nat, before: nat, err: CborError, present: bool, chunk: seq<Byte>)
      reads this
    {
      if present then err == NoError && left == Prefixed(chunk, Rest())
      else match left
        case Malformed => err != NoError && err != OutOfMemory
        case Whole(all, end) => all == [] && AdvancedBy(end, 0, before, kind, err)
    }

    /** get_string_chunk. `present` is bufferptr != NULL: after the last chunk there is none and
        the iterator has moved on to the next item. */
    method GetStringChunk() returns (err: CborError, present: bool, chunk: seq<Byte>)
      requires InString()
      modifies this
      ensures old(ptr) <= ptr <= |data|
      ensures err == NoError && present ==> old(ptr) < ptr && InString() && iterating
      ensures present ==> remaining == old(remaining) && typ == old(typ) && unknownLength == old(unknownLength)
      ensures err == NoError && !present ==> Ready() && (old(iterating) || old(ptr) < ptr)
      ensures TookFrom(old(Rest()), old(typ), old(remaining), err, present, chunk)
    {
      if iterating {
        if !unknownLength {
          present, chunk := false, [];
          err := PreparseNext();
          return;
        }
      } else if unknownLength {
        // prepare_string_iteration
        ptr := ptr + 1;
        iterating := true;
      }
      err, present, chunk := TakeChunk();
      if present && !unknownLength {
        assert chunk + [] == chunk;
      }
    }

    /** The part of get_string_chunk that looks at the bytes: the end of the buffer, a break, or a
        chunk of the same type. */
    method TakeChunk() returns (err: CborError, present: bool, chunk: seq<Byte>)
      requires ptr <= |data| && 0 < remaining <= UINT32_MAX && (typ == BYTE_STRING || typ == TEXT_STRING)
      modifies this
      ensures old(ptr) <= ptr <= |data|
      ensures present ==> err == NoError && old(ptr) < ptr && iterating
      ensures present ==> remaining == old(remaining) && typ == old(typ) && unknownLength == old(unknownLength)
      ensures err == NoError && !present ==> Ready() && old(ptr) < ptr
      ensures ChunkTaken(old(ptr), old(typ), old(remaining), err, present, chunk)
    {
      present, chunk := false, [];
      if ptr == |data| {
        return UnexpectedEOF, present, chunk;
      }
      if data[ptr] == BREAK {
        ptr := ptr + 1;
        err := PreparseNext();
        return;
      }
      if data[ptr] / 32 * 32 != typ {
        return IllegalType, present, chunk;
      }
      // extract_length
      var p, len;
      err, p, len := ExtractNumber(data, ptr);
      ptr := p;
      if err != NoError {
        return;
      }
      if len > UINT32_MAX {
        return DataTooLarge, present, chunk;
      }
      if len > |data| - ptr {
        return UnexpectedEOF, present, chunk;
      }
      present, chunk := true, data[ptr..ptr + len];
      ptr := ptr + len;
      iterating := true;
      return NoError, present, chunk;
    }

    /** The whole string was read and the iterator moved past its end; or it is not well formed, or
        too long for a size_t. */
    ghost predicate StringRead(whole: StringValue, kind: nat, before: nat, err: CborError, content: seq<Byte>)
      reads this
    {
      match whole
      case Malformed => err != NoError && err != OutOfMemory
      case Whole(all, end) =>
        if |all| > UINT32_MAX then err == DataTooLarge
        else content == all && AdvancedBy(end, 0, before, kind, err)
    }

    /** iterate_string_chunks with next == value: the chunks in order, and whether a buffer of
        buflen bytes took them all. */
    method IterateStringChunks(buflen: nat) returns (err: CborError, content: seq<Byte>, result: bool)
      requires Ready() && remaining > 0 && (typ == BYTE_STRING || typ == TEXT_STRING)
      modifies this
      ensures old(ptr) <= ptr <= |data|
      ensures err == NoError ==> old(ptr) < ptr && Ready() && result == (|content| <= buflen)
      ensures StringRead(old(Rest()), old(typ), old(remaining), err, content)
    {
      content, result := [], true;
      ghost var start, whole := ptr, Rest();
      PrefixedNone(whole);
      while true
        invariant InString() && start <= ptr && (iterating ==> start < ptr) && (!iterating ==> ptr == start)
        invariant |content| <= UINT32_MAX && result == (|content| <= buflen)
        invariant typ == old(typ) && remaining == old(remaining)
        invariant whole == Prefixed(content, Rest())
        decreases |data| - ptr, iterating
      {
        var present, chunk;
        err, present, chunk := GetStringChunk();
        if err != NoError || !present {
          assert content + [] == content;
          return;
        }
        PrefixedTwice(content, chunk, Rest());
        if |content| + |chunk| > UINT32_MAX {
          return DataTooLarge, content, result;
        }
        result := result && buflen >= |content| + |chunk|;
        content := content + chunk;
      }
    }

    /** _cbor_value_copy_string into a buffer of buflen bytes. */
    method CopyString(buflen: nat) returns (err: CborError, content: seq<Byte>)
      requires Ready() && remaining > 0 && (typ == BYTE_STRING || typ == TEXT_STRING)
      modifies this
      ensures old(ptr) <= ptr <= |data|
      ensures err == NoError ==> old(ptr) < ptr && Ready() && |content| <= buflen
      ensures err == OutOfMemory ==> |content| > buflen
      // apart from the error for a short buffer it is iterate_string_chunks
      ensures StringRead(old(Rest()), old(typ), old(remaining), if err == OutOfMemory then NoError else err, content)
    {
      var result;
      err, content, result := IterateStringChunks(buflen);
      if err == NoError && !result {
        err := OutOfMemory;
      }
    }

    // ---------- Containers ----------

    /** cbor_value_enter_container. */
    method EnterContainer() returns (err: CborError, recursed: CborValue)
      requires Ready() && remaining > 0 && (typ == ARRAY || typ == MAP)
      ensures fresh(recursed) && recursed.data == data && ptr <= recursed.ptr <= |data|
      ensures err == NoError ==> ptr < recursed.ptr && recursed.Ready()
      ensures !unknownLength && ItemCount(data, ptr, typ) < UINT32_MAX ==>
        recursed.AtNext(ptr + 1 + Width(data[ptr] % 32), ItemCount(data, ptr, typ), err)
      ensures !unknownLength && ItemCount(data, ptr, typ) >= UINT32_MAX ==> err == DataTooLarge && recursed.ptr == ptr
      ensures unknownLength ==> recursed.AtNext(ptr + 1, UINT32_MAX, err)
    {
      recursed := new CborValue.Copy(this);
      if unknownLength {
        recursed.remaining := UINT32_MAX;
        recursed.ptr := recursed.ptr + 1;
      } else {
        var e, p, len := ExtractNumber(data, recursed.ptr);
        assert e == NoError;
        recursed.ptr := p;
        recursed.remaining := len;
        if len >= UINT32_MAX {
          recursed.ptr := ptr;
          return DataTooLarge, recursed;
        }
        if recursed.typ == MAP {
          if recursed.remaining > UINT32_MAX / 2 {
            recursed.ptr := ptr;
            return DataTooLarge, recursed;
          }
          recursed.remaining := 2 * recursed.remaining;
        }
        if len == 0 {
          recursed.typ := INVALID;
          return NoError, recursed;
        }
      }
      err := recursed.PreparseNextNoDecrement();
    }

    /** cbor_value_leave_container. */
    method LeaveContainer(recursed: CborValue) returns (err: CborError)
      requires Ready() && remaining > 0 && (typ == ARRAY || typ == MAP) && recursed != this
      requires recursed.data == data && recursed.typ == INVALID && ptr < recursed.ptr <= |data|
      modifies this
      ensures recursed.ptr <= ptr <= |data|
      ensures err == NoError ==> Ready()
      ensures AdvancedBy(recursed.ptr, 0, old(remaining), old(typ), err)
    {
      ptr := recursed.ptr;
      err := PreparseNext();
    }

    /** The iterator has come to p with `left` items to come. */
    ghost predicate AtNext(p: nat, left: nat, err: CborError)
      reads this
    {
      err != OutOfMemory && Stop(ptr, remaining, err == NoError) == StopAt(data, p, left)
    }

    /** The pointer moved by n to the next item. One item less is to come, except after a tag and in
        a container of unknown length. */
    ghost predicate AdvancedBy(from: nat, n: nat, before: nat, oldType: nat, err: CborError)
      reads this
    {
      AtNext(from + n, if before == 0 || before == UINT32_MAX || oldType == TAG then before else before - 1, err)
    }
  }

  /** Where an iterator stops: the pointer, the items left and whether it can be read on. */
  datatype Stop = Stop(ptr: nat, remaining: nat, fine: bool)

  /** At p with `left` items to come: the end if there are none or a break ends a container of unknown
      length, otherwise an item, if that can be read. */
  function StopAt(data: seq<Byte>, p: nat, left: nat): Stop {
    if left == 0 then Stop(p, 0, true)
    else if left == UINT32_MAX && IsBreak(data, p) then Stop(p + 1, 0, true)
    else Stop(p, left, Readable(data, p))
  }

  /** A head that the parser reads: complete, or of a string or container of unknown length, and
      not a simple value below 32 in two bytes. */
  predicate Readable(data: seq<Byte>, p: nat) {
    && p < |data|
    && if data[p] % 32 == 31 then 2 <= data[p] / 32 <= 5 else HeadAt(data, p) && !(data[p] == 0xf8 && data[p + 1] < 32)
  }

  /** What the encoder writes at the start of an item. */
  predicate Acceptable(data: seq<Byte>, p: nat) {
    && p < |data|
    && ((HeadAt(data, p) && data[p] / 32 <= 6) || data[p] == 0xf4 || data[p] == 0xf5 || data[p] == 0x9f || data[p] == 0xbf)
  }

  /** A string of known length at p lies inside the buffer. */
  predicate StringFits(data: seq<Byte>, p: nat) {
    HeadAt(data, p) && NumberAt(data, p) <= UINT32_MAX && StringEnd(data, p) <= |data|
  }

  function StringEnd(data: seq<Byte>, p: nat): nat
    requires HeadAt(data, p)
  {
    p + 1 + Width(data[p] % 32) + NumberAt(data, p)
  }

  function StringAt(data: seq<Byte>, p: nat): seq<Byte>
    requires StringFits(data, p)
  {
    data[p + 1 + Width(data[p] % 32)..StringEnd(data, p)]
  }

  /** A chunk of a string of this kind stands at p. */
  predicate IsChunk(data: seq<Byte>, p: nat, kind: nat) {
    p < |data| && data[p] != BREAK && data[p] / 32 * 32 == kind && StringFits(data, p)
  }

  predicate IsBreak(data: seq<Byte>, p: nat) { p < |data| && data[p] == BREAK }

  /** The joined chunks from p to the break byte, and where that ends. */
  ghost function Chunks(data: seq<Byte>, p: nat, kind: nat): StringValue
    decreases |data| - p
  {
    if IsBreak(data, p) then Whole([], p + 1)
    else if !IsChunk(data, p, kind) then Malformed
    else Prefixed(StringAt(data, p), Chunks(data, StringEnd(data, p), kind))
  }

  ghost function Prefixed(s: seq<Byte>, o: StringValue): StringValue {
    match o
    case Malformed => Malformed
    case Whole(t, end) => Whole(s + t, end)
  }

  lemma PrefixedNone(o: StringValue)
    ensures Prefixed([], o) == o
  {
    match o {
      case Malformed =>
      case Whole(t, end) => assert [] + t == t;
    }
  }

  lemma PrefixedTwice(s: seq<Byte>, t: seq<Byte>, o: StringValue)
    ensures Prefixed(s, Prefixed(t, o)) == Prefixed(s + t, o)
  {
    match o {
      case Malformed =>
      case Whole(u, end) => assert s + (t + u) == s + t + u;
    }
  }

  /** The content of the string whose head is at p, and where it ends. */
  ghost function StringFrom(data: seq<Byte>, p: nat, unknownLength: bool, kind: nat): StringValue {
    if unknownLength then Chunks(data, p + 1, kind)
    else if StringFits(data, p) then Whole(StringAt(data, p), StringEnd(data, p))
    else Malformed
  }

  /** The number of items in a container of known length; a map counts keys and values. */
  function ItemCount(data: seq<Byte>, p: nat, typ: nat): nat
    requires HeadAt(data, p)
  {
    if typ == MAP then 2 * NumberAt(data, p) else NumberAt(data, p)
  }
}
