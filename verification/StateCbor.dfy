/** The persistent authenticator state: its CBOR map (fido2/src/state.c) and the file
    envelope around it (targets/tkey/src/device.c). */
module StateCbor {
  import opened ByteStrings
  import opened CborSpec
  import opened CborEncode
  import opened CborParse
  import opened CborItems
  import opened CborAdvance

  const STATE_VERSION: nat := 1
  const STATE_MAGIC: Byte := 0xA5
  const STATE_MAC_SIZE: nat := 16
  const STATE_ENVELOPE_BUF_SIZE: nat := 192

  datatype AuthenticatorState = AuthenticatorState(
    version: nat, appVersion: nat, isPinSet: nat, remainingTries: int,
    pinHashEnc: seq<Byte>, pinHashIv: seq<Byte>, rkStored: nat, keySalt: seq<Byte>)
  {
    /** The widths of the C struct: u8, u32, u8, i8, 16 and 16 bytes, u16, 64 bytes. */
    predicate Sized() {
      && version < 0x100 && appVersion < 0x1_0000_0000 && isPinSet < 0x100 && -128 <= remainingTries < 128
      && |pinHashEnc| == 16 && |pinHashIv| == 16 && rkStored < 0x1_0000 && |keySalt| == 64
    }
  }

  function IntItem(n: int): Item {
    if n < 0 then NegInt(-1 - n) else UInt(n)
  }

  /** The map's keys and values, in the order they are written. */
  function Entries(s: AuthenticatorState): (items: seq<Item>)
    ensures |items| == 16
  {
    [ UInt(0), UInt(s.version),
      UInt(1), UInt(s.appVersion),
      UInt(10), UInt(s.isPinSet),
      UInt(11), IntItem(s.remainingTries),
      UInt(12), Bytes(s.pinHashEnc),
      UInt(13), Bytes(s.pinHashIv),
      UInt(20), UInt(s.rkStored),
      UInt(30), Bytes(s.keySalt)]
  }

  function StateItem(s: AuthenticatorState): Item {
    Map(Entries(s), false)
  }

  lemma EntriesEncodable(s: AuthenticatorState)
    requires s.Sized()
    ensures AllEncodable(Entries(s)) && Encodable(StateItem(s))
  {
  }

  lemma TwoEntries(items: seq<Item>, k: nat)
    requires k + 2 <= |items|
    ensures EncodeAll(items[k..]) == Encode(items[k]) + Encode(items[k + 1]) + EncodeAll(items[k + 2..])
  {
    assert items[k..][1..] == items[k + 1..] && items[k + 1..][1..] == items[k + 2..];
  }

  function PairSize(items: seq<Item>, k: nat): nat
    requires k + 2 <= |items|
  {
    |Encode(items[k])| + |Encode(items[k + 1])|
  }

  lemma EightPairs(e: seq<Item>)
    requires |e| == 16
    ensures |EncodeAll(e)| == PairSize(e, 0) + PairSize(e, 2) + PairSize(e, 4) + PairSize(e, 6)
                            + PairSize(e, 8) + PairSize(e, 10) + PairSize(e, 12) + PairSize(e, 14)
  {
    TwoEntries(e, 0);
    TwoEntries(e, 2);
    TwoEntries(e, 4);
    TwoEntries(e, 6);
    TwoEntries(e, 8);
    TwoEntries(e, 10);
    TwoEntries(e, 12);
    TwoEntries(e, 14);
    assert e[0..] == e && e[16..] == [];
  }

  /** The bytes of the map: its eight keys in ascending order, each with the value of its field. */
  lemma Layout(s: AuthenticatorState)
    requires s.Sized()
    ensures Encode(StateItem(s)) == [0xa8]
      + ([0x00] + Encode(UInt(s.version)) + ([0x01] + Encode(UInt(s.appVersion)) + CounterBytes(s)))
  {
    var e := Entries(s);
    SmallKeys();
    CounterEntries(s);
    TwoEntries(e, 0);
    TwoEntries(e, 2);
    assert e[0..] == e;
    assert Head(5, 8) == [0xa8];
    assert EncodeAll(e) + [] == EncodeAll(e);
  }

  function CounterBytes(s: AuthenticatorState): seq<Byte> {
    [0x0a] + Encode(UInt(s.isPinSet)) + ([0x0b] + Encode(IntItem(s.remainingTries)) + PinBytes(s))
  }

  lemma CounterEntries(s: AuthenticatorState)
    requires s.Sized()
    ensures EncodeAll(Entries(s)[4..]) == CounterBytes(s)
  {
    SmallKeys();
    PinEntries(s);
    TwoEntries(Entries(s), 4);
    TwoEntries(Entries(s), 6);
  }

  function PinBytes(s: AuthenticatorState): seq<Byte> {
    [0x0c] + ([0x50] + s.pinHashEnc) + ([0x0d] + ([0x50] + s.pinHashIv) + LastBytes(s))
  }

  function LastBytes(s: AuthenticatorState): seq<Byte> {
    [0x14] + Encode(UInt(s.rkStored)) + ([0x18, 0x1e] + ([0x58, 0x40] + s.keySalt))
  }

  lemma PinEntries(s: AuthenticatorState)
    requires s.Sized()
    ensures EncodeAll(Entries(s)[8..]) == PinBytes(s)
  {
    var e := Entries(s);
    SmallKeys();
    LastEntries(s);
    TwoEntries(e, 8);
    TwoEntries(e, 10);
    assert Head(2, 16) == [0x50];
  }

  lemma SmallKeys()
    ensures Encode(UInt(0)) == [0x00] && Encode(UInt(1)) == [0x01] && Encode(UInt(10)) == [0x0a]
    ensures Encode(UInt(11)) == [0x0b] && Encode(UInt(12)) == [0x0c] && Encode(UInt(13)) == [0x0d]
    ensures Encode(UInt(20)) == [0x14]
  {
  }

  lemma LastEntries(s: AuthenticatorState)
    requires s.Sized()
    ensures EncodeAll(Entries(s)[12..]) == LastBytes(s)
  {
    var e := Entries(s);
    SmallKeys();
    TwoEntries(e, 12);
    TwoEntries(e, 14);
    assert e[16..] == [];
    assert BE(30, 1) == BE(0, 0) + [30] && BE(64, 1) == BE(0, 0) + [64];
    assert Encode(UInt(30)) == [0x18, 0x1e] && Head(2, 64) == [0x58, 0x40];
  }

  /** The whole encoding is never longer than 124 bytes. */
  lemma EncodedSize(s: AuthenticatorState)
    requires s.Sized()
    ensures |Encode(StateItem(s))| <= 124
  {
    EightPairs(Entries(s));
  }

  /** A state with large numbers needs all 124 bytes. */
  lemma LongestState(bytes16: seq<Byte>, bytes64: seq<Byte>) returns (s: AuthenticatorState)
    requires |bytes16| == 16 && |bytes64| == 64
    ensures s.Sized() && |Encode(StateItem(s))| == 124
  {
    s := AuthenticatorState(255, 0xffff_ffff, 255, -128, bytes16, bytes16, 0xffff, bytes64);
    EightPairs(Entries(s));
  }

  // ---------- Encoding ----------

  /** The first k of the items are in the stream, and whole is what it will be in the end. */
  ghost predicate Writing(m: CborEncoder, whole: seq<Byte>, items: seq<Item>, k: nat)
    reads m, m.buf
  {
    && k <= |items| && m.Valid() && !m.unknownLength && m.declared == |items| && m.added == k
    && m.stream + EncodeAll(items[k..]) == whole
  }

  /** Writing an entry moves it from what is left to what is done. */
  lemma Written(done: seq<Byte>, key: seq<Byte>, value: seq<Byte>, left: seq<Byte>)
    ensures done + (key + value + left) == done + key + value + left
  {
  }

  /** One key and an unsigned value; the error of either ends the encoding. */
  method PutUint(m: CborEncoder, key: nat, value: nat, ghost whole: seq<Byte>, ghost items: seq<Item>, ghost k: nat)
    returns (err: CborError)
    requires k + 2 <= |items| && items[k] == UInt(key) && items[k + 1] == UInt(value)
    requires Writing(m, whole, items, k) && key < UINT64_SIZE && value < UINT64_SIZE
    modifies m, m.buf
    ensures err == NoError ==> Writing(m, whole, items, k + 2)
    ensures err != NoError ==> |whole| > m.buf.Length
  {
    TwoEntries(items, k);
    Written(m.stream, Encode(UInt(key)), Encode(UInt(value)), EncodeAll(items[k + 2..]));
    err := m.EncodeUint(key);
    if err != NoError { return; }
    err := m.EncodeUint(value);
  }

  method PutInt(m: CborEncoder, key: nat, value: int, ghost whole: seq<Byte>, ghost items: seq<Item>, ghost k: nat)
    returns (err: CborError)
    requires k + 2 <= |items| && items[k] == UInt(key) && items[k + 1] == IntItem(value)
    requires Writing(m, whole, items, k) && key < UINT64_SIZE && -128 <= value < 128
    modifies m, m.buf
    ensures err == NoError ==> Writing(m, whole, items, k + 2)
    ensures err != NoError ==> |whole| > m.buf.Length
  {
    TwoEntries(items, k);
    Written(m.stream, Encode(UInt(key)), Encode(IntItem(value)), EncodeAll(items[k + 2..]));
    err := m.EncodeUint(key);
    if err != NoError { return; }
    err := m.EncodeInt(value);
  }

  method PutBytes(m: CborEncoder, key: nat, value: seq<Byte>, ghost whole: seq<Byte>, ghost items: seq<Item>, ghost k: nat)
    returns (err: CborError)
    requires k + 2 <= |items| && items[k] == UInt(key) && items[k + 1] == Bytes(value)
    requires Writing(m, whole, items, k) && key < UINT64_SIZE && |value| <= SIZE_MAX
    modifies m, m.buf
    ensures err == NoError ==> Writing(m, whole, items, k + 2)
    ensures err != NoError ==> |whole| > m.buf.Length
  {
    TwoEntries(items, k);
    Written(m.stream, Encode(UInt(key)), Encode(Bytes(value)), EncodeAll(items[k + 2..]));
    err := m.EncodeUint(key);
    if err != NoError { return; }
    err := m.EncodeString(value, false);
  }

  /** Keys 0 to 9 of the map. */
  method PutHeader(m: CborEncoder, s: AuthenticatorState, ghost whole: seq<Byte>) returns (err: CborError)
    requires s.Sized() && Writing(m, whole, Entries(s), 0)
    modifies m, m.buf
    ensures err == NoError ==> Writing(m, whole, Entries(s), 4)
    ensures err != NoError ==> |whole| > m.buf.Length
  {
    ghost var e := Entries(s);
    err := PutUint(m, 0, s.version, whole, e, 0);
    if err != NoError { return; }
    err := PutUint(m, 1, s.appVersion, whole, e, 2);
  }

  /** Keys 10 and 11. */
  method PutPinCounters(m: CborEncoder, s: AuthenticatorState, ghost whole: seq<Byte>) returns (err: CborError)
    requires s.Sized() && Writing(m, whole, Entries(s), 4)
    modifies m, m.buf
    ensures err == NoError ==> Writing(m, whole, Entries(s), 8)
    ensures err != NoError ==> |whole| > m.buf.Length
  {
    ghost var e := Entries(s);
    err := PutUint(m, 10, s.isPinSet, whole, e, 4);
    if err != NoError { return; }
    err := PutInt(m, 11, s.remainingTries, whole, e, 6);
  }

  /** Keys 12 and 13. */
  method PutPinHash(m: CborEncoder, s: AuthenticatorState, ghost whole: seq<Byte>) returns (err: CborError)
    requires s.Sized() && Writing(m, whole, Entries(s), 8)
    modifies m, m.buf
    ensures err == NoError ==> Writing(m, whole, Entries(s), 12)
    ensures err != NoError ==> |whole| > m.buf.Length
  {
    ghost var e := Entries(s);
    err := PutBytes(m, 12, s.pinHashEnc, whole, e, 8);
    if err != NoError { return; }
    err := PutBytes(m, 13, s.pinHashIv, whole, e, 10);
  }

  /** Keys from 20 on. */
  method PutKeys(m: CborEncoder, s: AuthenticatorState, ghost whole: seq<Byte>) returns (err: CborError)
    requires s.Sized() && Writing(m, whole, Entries(s), 12)
    modifies m, m.buf
    ensures err == NoError ==> Writing(m, whole, Entries(s), 16)
    ensures err != NoError ==> |whole| > m.buf.Length
  {
    ghost var e := Entries(s);
    err := PutUint(m, 20, s.rkStored, whole, e, 12);
    if err != NoError { return; }
    err := PutBytes(m, 30, s.keySalt, whole, e, 14);
  }

  /** All entries, in order. */
  method PutEntries(m: CborEncoder, s: AuthenticatorState, ghost whole: seq<Byte>) returns (err: CborError)
    requires s.Sized() && Writing(m, whole, Entries(s), 0)
    modifies m, m.buf
    ensures err == NoError ==> Writing(m, whole, Entries(s), 16)
    ensures err != NoError ==> |whole| > m.buf.Length
  {
    err := PutHeader(m, s, whole);
    if err != NoError { return; }
    err := PutPinCounters(m, s, whole);
    if err != NoError { return; }
    err := PutPinHash(m, s, whole);
    if err != NoError { return; }
    err := PutKeys(m, s, whole);
  }

  /** state_cbor_encode. */
  method EncodeState(buf: array<Byte>, s: AuthenticatorState) returns (err: CborError, len: nat)
    requires s.Sized()
    modifies buf
    ensures err == NoError <==> |Encode(StateItem(s))| <= buf.Length
    ensures err == NoError ==> len == |Encode(StateItem(s))| && buf[..len] == Encode(StateItem(s))
  {
    len := 0;
    ghost var e, whole := Entries(s), Encode(StateItem(s));
    assert e[0..] == e && e[16..] == [];
    var encoder := new CborEncoder.Init(buf, false);
    var m: CborEncoder;
    err, m := encoder.CreateContainer(8, true);
    assert m.stream == Head(5, 8);
    if err != NoError { return; }
    err := PutEntries(m, s, whole);
    if err != NoError { return; }
    assert m.stream == whole;
    err := encoder.CloseContainer(m);
    if err != NoError { return; }
    assert encoder.stream == whole;
    len := encoder.pos;
  }

  // ---------- Decoding ----------

  /** A C return code; Halted is a failed assertion of the parser's interface, Undetermined the
      use of an iterator after an error that the code ignores. */
  datatype Outcome = Code(ret: int) | Halted | Undetermined

  /** The fields of t up to the k-th entry, the others from s. */
  function Restored(s: AuthenticatorState, t: AuthenticatorState, k: nat): AuthenticatorState {
    AuthenticatorState(
      if k > 0 then t.version else s.version, if k > 1 then t.appVersion else s.appVersion,
      if k > 2 then t.isPinSet else s.isPinSet, if k > 3 then t.remainingTries else s.remainingTries,
      if k > 4 then t.pinHashEnc else s.pinHashEnc, if k > 5 then t.pinHashIv else s.pinHashIv,
      if k > 6 then t.rkStored else s.rkStored, if k > 7 then t.keySalt else s.keySalt)
  }

  ghost predicate IsInteger(it: CborValue)
    reads it
  {
    it.Described() && it.typ == INTEGER && HeadAt(it.data, it.ptr)
  }

  /** No head holds more than 64 bits. */
  lemma NumberFits(data: seq<Byte>, p: nat)
    requires HeadAt(data, p)
    ensures NumberAt(data, p) < UINT64_SIZE
  {
    var w := Width(data[p] % 32);
    Pow256Values();
    FromBEBound(data[p + 1..p + 1 + w]);
  }

  ghost predicate IsUnsigned(it: CborValue)
    reads it
  {
    IsInteger(it) && !it.negative
  }

  /** cbor_value_get_uint64 with the range check of get_u8, get_u16 and get_u32. The failing
      codes -1 and -2 are returned through a bool, so they arrive as 1. */
  method GetUnsigned(it: CborValue, limit: nat, ghost ts: seq<Item>) returns (out: Outcome, n: nat)
    requires it.Ready()
    ensures out == Code(0) ==> n <= limit
    ensures |ts| > 0 && Before(it, ts) && ts[0].UInt? && ts[0].n <= limit ==> out == Code(0) && n == ts[0].n
    ensures IsUnsigned(it) ==> out == Code(if NumberAt(it.data, it.ptr) <= limit then 0 else 1)
    ensures !IsUnsigned(it) ==> out == Halted
  {
    if |ts| > 0 && Before(it, ts) { KnownType(it, ts); }
    if it.typ != INTEGER || it.negative {
      return Halted, 0;
    }
    n := it.RawInteger();
    out := Code(if n > limit then 1 else 0);
  }

  /** The conversion of an unsigned 64-bit number to int64_t. */
  function AsInt64(n: nat): int
    requires n < UINT64_SIZE
  {
    if n >= 0x8000_0000_0000_0000 then n - UINT64_SIZE else n
  }

  /** cbor_value_get_int64, which casts the number and complements it, with the range check of
      get_i8. */
  method GetSigned(it: CborValue, ghost ts: seq<Item>, ghost value: int) returns (out: Outcome, n: int)
    requires it.Ready()
    ensures out == Code(0) ==> -128 <= n < 128
    ensures |ts| > 0 && Before(it, ts) && ts[0] == IntItem(value) && -128 <= value < 128 ==>
      out == Code(0) && n == value
    ensures !IsInteger(it) ==> out == Halted
    // the conversion to int64_t lets the 128 largest numbers pass, with the other sign
    ensures IsInteger(it) ==>
      var v := NumberAt(it.data, it.ptr);
      && out == Code(if v < 128 || v >= UINT64_SIZE - 128 then 0 else 1)
      && (v < 128 ==> n == if it.negative then -1 - v else v)
      && (v >= UINT64_SIZE - 128 ==> n == if it.negative then UINT64_SIZE - 1 - v else v - UINT64_SIZE)
  {
    if |ts| > 0 && Before(it, ts) { KnownType(it, ts); }
    if it.typ != INTEGER {
      return Halted, 0;
    }
    n := it.RawInteger();
    NumberFits(it.data, it.ptr);
    Folded(n, it.negative);
    n := AsInt64(n);
    if it.negative { n := -n - 1; }
    out := Code(if n < -128 || n > 127 then 1 else 0);
  }

  lemma Folded(v: nat, negative: bool)
    requires v < UINT64_SIZE
    ensures var n := if negative then -AsInt64(v) - 1 else AsInt64(v);
      && (-128 <= n < 128 <==> v < 128 || v >= UINT64_SIZE - 128)
      && (v < 128 ==> n == if negative then -1 - v else v)
      && (v >= UINT64_SIZE - 128 ==> n == if negative then UINT64_SIZE - 1 - v else v - UINT64_SIZE)
  {
  }

  /** cbor_value_copy_byte_string with next == NULL into a field of the state: the content, a
      NUL byte if there is room for it, and what was there before. */
  method GetBytes(it: CborValue, field: seq<Byte>, ghost ts: seq<Item>) returns (out: Outcome, content: seq<Byte>)
    requires it.Ready() && |field| <= UINT32_MAX
    ensures |content| == |field|
    ensures |ts| > 0 && Before(it, ts) && ts[0].Bytes? && |ts[0].b| == |field| ==>
      out == Code(0) && content == ts[0].b
  {
    content := field;
    if |ts| > 0 && Before(it, ts) && ts[0].Bytes? { KnownType(it, ts); }
    if it.typ != BYTE_STRING {
      return Halted, content;
    }
    var err, got := PeekString(it, |field|, ts);
    if err != NoError {
      return Code(-2), content;
    }
    content := got + (if |got| < |field| then [0] + field[|got| + 1..] else []);
    out := Code(0);
  }

  /** Copy a string and leave the iterator where it is. */
  method PeekString(it: CborValue, buflen: nat, ghost ts: seq<Item>) returns (err: CborError, content: seq<Byte>)
    requires it.Ready() && it.remaining > 0 && (it.typ == BYTE_STRING || it.typ == TEXT_STRING)
    ensures err == NoError ==> |content| <= buflen
    ensures |ts| > 0 && Before(it, ts) && (ts[0].Bytes? || ts[0].Text?) && |ts[0].b| <= buflen ==>
      err == NoError && content == ts[0].b
  {
    var copy := new CborValue.Copy(it);
    err, content := PassString(copy, buflen, ts);
  }

  /** The key of the k-th entry. */
  function Key(k: nat): nat
    requires k < 8
  {
    [0, 1, 10, 11, 12, 13, 20, 30][k]
  }

  /** The value written under a key. */
  function Value(t: AuthenticatorState, key: nat): Item {
    if key == 0 then UInt(t.version) else if key == 1 then UInt(t.appVersion)
    else if key == 10 then UInt(t.isPinSet) else if key == 11 then IntItem(t.remainingTries)
    else if key == 12 then Bytes(t.pinHashEnc) else if key == 13 then Bytes(t.pinHashIv)
    else if key == 20 then UInt(t.rkStored) else Bytes(t.keySalt)
  }

  lemma EntryAt(t: AuthenticatorState, more: seq<Item>, k: nat)
    requires k < 8
    ensures var rest := (Entries(t) + more)[2 * k..]; rest[0] == UInt(Key(k)) && StartsWithEntry(rest, t)
  {
  }

  /** The field of t under a key put into s. */
  function Assigned(s: AuthenticatorState, t: AuthenticatorState, key: nat): AuthenticatorState {
    if key == 0 then s.(version := t.version) else if key == 1 then s.(appVersion := t.appVersion)
    else if key == 10 then s.(isPinSet := t.isPinSet) else if key == 11 then s.(remainingTries := t.remainingTries)
    else if key == 12 then s.(pinHashEnc := t.pinHashEnc) else if key == 13 then s.(pinHashIv := t.pinHashIv)
    else if key == 20 then s.(rkStored := t.rkStored) else s.(keySalt := t.keySalt)
  }

  lemma AssignedIsRestored(s: AuthenticatorState, t: AuthenticatorState, k: nat)
    requires k < 8
    ensures Assigned(Restored(s, t, k), t, Key(k)) == Restored(s, t, k + 1)
  {
  }

  /** The k-th entry, what comes after it and what it does. */
  lemma NextEntry(s: AuthenticatorState, t: AuthenticatorState, more: seq<Item>, k: nat)
    requires k < 8
    ensures var items := Entries(t) + more;
      && StartsWithEntry(items[2 * k..], t) && (items[2 * k].n == 0 <==> k == 0)
      && items[2 * k..][2..] == items[2 * (k + 1)..]
      && Assigned(Restored(s, t, k), t, items[2 * k].n) == Restored(s, t, k + 1)
  {
    EntryAt(t, more, k);
    AssignedIsRestored(s, t, k);
  }

  predicate KnownKey(key: nat) {
    key == 0 || key == 1 || (10 <= key <= 13) || key == 20 || key == 30
  }

  /** The iterator stands before the value that t has under the key. */
  ghost predicate AtValue(m: CborValue, key: nat, t: AuthenticatorState, ts: seq<Item>)
    reads m
  {
    |ts| > 0 && Before(m, ts) && KnownKey(key) && ts[0] == Value(t, key)
  }

  /** The switch of state_cbor_decode: keys with an integer value. */
  method DecodeNumber(m: CborValue, key: nat, s: AuthenticatorState, ghost t: AuthenticatorState, ghost ts: seq<Item>)
    returns (out: Outcome, s': AuthenticatorState)
    requires m.Ready() && s.Sized() && t.Sized() && (key == 0 || key == 1 || key == 10 || key == 11 || key == 20)
    ensures out == Code(0) ==> s'.Sized()
    ensures AtValue(m, key, t, ts) ==>
      if key == 0 && t.version != STATE_VERSION then out == Code(-1) else out == Code(0) && s' == Assigned(s, t, key)
  {
    s' := s;
    var n: int;
    if key == 11 {
      out, n := GetSigned(m, ts, t.remainingTries);
      if out != Code(0) { return; }
      s' := s.(remainingTries := n);
      return;
    }
    out, n := GetUnsigned(m, if key == 1 then 0xffff_ffff else if key == 20 then 0xffff else 0xff, ts);
    if out != Code(0) { return; }
    if key == 0 {
      s' := s.(version := n);
      if n != STATE_VERSION { return Code(-1), s'; }
    } else if key == 1 {
      s' := s.(appVersion := n);
    } else if key == 10 {
      s' := s.(isPinSet := n);
    } else {
      s' := s.(rkStored := n);
    }
  }

  /** The switch of state_cbor_decode: keys with a byte string. */
  method DecodeBytes(m: CborValue, key: nat, s: AuthenticatorState, ghost t: AuthenticatorState, ghost ts: seq<Item>)
    returns (out: Outcome, s': AuthenticatorState)
    requires m.Ready() && s.Sized() && t.Sized() && (key == 12 || key == 13 || key == 30)
    ensures out == Code(0) ==> s'.Sized()
    ensures AtValue(m, key, t, ts) ==> out == Code(0) && s' == Assigned(s, t, key)
  {
    s' := s;
    var b;
    out, b := GetBytes(m, if key == 12 then s.pinHashEnc else if key == 13 then s.pinHashIv else s.keySalt, ts);
    if out != Code(0) { return; }
    s' := if key == 12 then s.(pinHashEnc := b) else if key == 13 then s.(pinHashIv := b) else s.(keySalt := b);
  }

  /** The switch of state_cbor_decode on the key. */
  method DecodeValue(m: CborValue, key: nat, s: AuthenticatorState, ghost t: AuthenticatorState, ghost ts: seq<Item>)
    returns (out: Outcome, s': AuthenticatorState)
    requires m.Ready() && s.Sized() && t.Sized()
    modifies m
    ensures old(m.ptr) <= m.ptr <= |m.data|
    ensures out == Code(0) ==> m.Ready() && s'.Sized()
    ensures KnownKey(key) ==> unchanged(m)
    ensures old(AtValue(m, key, t, ts)) ==>
      if key == 0 && t.version != STATE_VERSION then out == Code(-1) else out == Code(0) && s' == Assigned(s, t, key)
    ensures !KnownKey(key) && old(Skippable(m, ts)) ==> out == Code(0) && s' == s && Before(m, ts[1..])
    ensures !KnownKey(key) && old(m.remaining) == 0 ==> out == Halted
  {
    if key == 0 || key == 1 || key == 10 || key == 11 || key == 20 {
      out, s' := DecodeNumber(m, key, s, t, ts);
    } else if key == 12 || key == 13 || key == 30 {
      out, s' := DecodeBytes(m, key, s, t, ts);
    } else {
      // an unknown key: its value is skipped here, and the caller skips once more
      out, s' := Code(0), s;
      if m.remaining == 0 { return Halted, s'; }
      var err := Advance(m, ts);
      if err != NoError { return Undetermined, s'; }
    }
  }

  /** The iterator stands before an item that it can skip. */
  ghost predicate Skippable(m: CborValue, ts: seq<Item>)
    reads m
  {
    |ts| > 0 && Before(m, ts) && Depth(ts[0]) <= MAX_RECURSIONS
  }

  /** Read a key and move to its value. */
  method ReadKey(m: CborValue, ghost ts: seq<Item>) returns (out: Outcome, key: nat)
    requires m.Ready() && m.remaining > 0
    modifies m
    ensures old(m.ptr) <= m.ptr <= |m.data|
    ensures out == Code(0) ==> old(m.ptr) < m.ptr && m.Ready()
    ensures |ts| > 0 && old(Before(m, ts)) && ts[0].UInt? ==>
      out == Code(0) && key == ts[0].n && Before(m, ts[1..])
  {
    out, key := GetUnsigned(m, UINT64_SIZE, ts);
    if out != Code(0) { return; }
    var err := Advance(m, ts);
    if err != NoError { out := Undetermined; }
  }

  /** Store a value and move to the next key. */
  method ReadValue(m: CborValue, key: nat, s: AuthenticatorState, ghost t: AuthenticatorState, ghost ts: seq<Item>)
    returns (out: Outcome, s': AuthenticatorState)
    requires m.Ready() && s.Sized() && t.Sized()
    modifies m
    ensures old(m.ptr) <= m.ptr <= |m.data|
    ensures out == Code(0) ==> m.Ready() && s'.Sized()
    ensures old(AtValue(m, key, t, ts)) ==>
      if key == 0 && t.version != STATE_VERSION then out == Code(-1)
      else out == Code(0) && s' == Assigned(s, t, key) && Before(m, ts[1..])
    ensures !KnownKey(key) && old(Skippable(m, ts)) && (|ts| > 1 ==> Depth(ts[1]) <= MAX_RECURSIONS) ==>
      if |ts| > 1 then out == Code(0) && s' == s && Before(m, ts[2..]) else out == Halted
  {
    out, s' := DecodeValue(m, key, s, t, ts);
    if out != Code(0) { return; }
    if m.remaining == 0 { return Halted, s'; }
    ghost var rest := if KnownKey(key) || |ts| == 0 then ts else ts[1..];
    assert |rest| > 0 && !KnownKey(key) ==> rest[1..] == ts[2..];
    var err := Advance(m, rest);
    if err != NoError { out := Undetermined; }
  }

  /** One round of the loop of state_cbor_decode. */
  method DecodeEntry(m: CborValue, s: AuthenticatorState, ghost t: AuthenticatorState, ghost ts: seq<Item>)
    returns (out: Outcome, s': AuthenticatorState)
    requires m.Ready() && m.remaining > 0 && s.Sized() && t.Sized()
    modifies m
    ensures old(m.ptr) <= m.ptr <= |m.data|
    ensures out == Code(0) ==> old(m.ptr) < m.ptr && m.Ready() && s'.Sized()
    ensures old(Before(m, ts)) && StartsWithEntry(ts, t) ==>
      if ts[0].n == 0 && t.version != STATE_VERSION then out == Code(-1)
      else out == Code(0) && s' == Assigned(s, t, ts[0].n) && Before(m, ts[2..])
    // an unknown key takes the next key with it; the last one runs into the assertion of
    // cbor_value_advance
    ensures old(Before(m, ts)) && StartsWithUnknown(ts) ==>
      if |ts| > 2 then out == Code(0) && s' == s && Before(m, ts[3..]) else out == Halted
  {
    s' := s;
    ghost var vs := if |ts| > 0 then ts[1..] else [];
    assert |vs| > 0 ==> vs[1..] == ts[2..];
    assert |vs| > 1 ==> vs[2..] == ts[3..];
    var key;
    out, key := ReadKey(m, ts);
    if out != Code(0) { return; }
    out, s' := ReadValue(m, key, s, t, vs);
  }

  /** Next come a key and the value that t has under it. */
  ghost predicate StartsWithEntry(ts: seq<Item>, t: AuthenticatorState) {
    |ts| >= 2 && ts[0].UInt? && KnownKey(ts[0].n) && ts[1] == Value(t, ts[0].n)
  }

  /** Next comes a key that is not among the eight, with its value. */
  ghost predicate StartsWithUnknown(ts: seq<Item>) {
    && |ts| >= 2 && ts[0].UInt? && !KnownKey(ts[0].n) && Depth(ts[1]) <= MAX_RECURSIONS
    && (|ts| > 2 ==> Depth(ts[2]) <= MAX_RECURSIONS)
  }

  /** Next come a key that is not among the eight and its value, and that is all. */
  ghost predicate OneUnknown(more: seq<Item>) {
    |more| == 2 && AllEncodable(more) && StartsWithUnknown(more)
  }

  /** The start of state_cbor_decode: the parser and the iterator over the map. */
  method OpenMap(buf: seq<Byte>, ghost items: seq<Item>) returns (out: Outcome, m: CborValue)
    ensures fresh(m) && (out == Code(0) ==> m.Ready())
    ensures Encodable(Map(items, false)) && buf == Encode(Map(items, false)) ==> out == Code(0) && Before(m, items)
  {
    ghost var whole := Map(items, false);
    ghost var good := Encodable(whole) && buf == Encode(whole);
    var it := new CborValue.At(buf);
    m := it;
    assert buf[0..|buf|] == buf;
    if good { AtItem(it, whole); }
    var err := it.PreparseValue();
    if err != NoError { return Code(-2), m; }
    if good { KnownType(it, [whole]); }
    if it.typ != ARRAY && it.typ != MAP { return Halted, m; }
    if good { ContainerPayload(it, [whole]); }
    err, m := it.EnterContainer();
    if good { Entered(it, m, items, err); }
    out := Code(if err != NoError then -2 else 0);
  }

  /** state_cbor_decode. Whatever the bytes are, it ends and leaves a state of the right widths; on the
      encoding of t it restores all eight fields, unless t has an unknown version. With one unknown key
      after these, as a newer version might write it, it runs into an assertion. */
  method DecodeState(buf: seq<Byte>, s0: AuthenticatorState, ghost t: AuthenticatorState, ghost more: seq<Item>)
    returns (out: Outcome, s: AuthenticatorState)
    requires s0.Sized() && t.Sized()
    ensures out == Code(0) ==> s.Sized()
    ensures buf == Encode(Map(Entries(t) + more, false)) && (more == [] || OneUnknown(more)) ==>
      if t.version != STATE_VERSION then out == Code(-1)
      else if more == [] then out == Code(0) && s == t
      else out == Halted
  {
    s := s0;
    ghost var items := Entries(t) + more;
    ghost var good := buf == Encode(Map(items, false)) && (more == [] || OneUnknown(more));
    EntriesEncodable(t);
    var m;
    out, m := OpenMap(buf, items);
    if out != Code(0) { return; }
    ghost var k := 0;
    assert items[0..] == items;
    while m.remaining != 0
      invariant m.Ready() && s.Sized() && fresh(m)
      invariant good ==> k <= 8 && Before(m, items[2 * k..]) && s == Restored(s0, t, k)
      invariant good && k > 0 ==> t.version == STATE_VERSION
      decreases |m.data| - m.ptr
    {
      ghost var rest := if 2 * k <= |items| then items[2 * k..] else [];
      if k < 8 { NextEntry(s0, t, more, k); }
      out, s := DecodeEntry(m, s, t, rest);
      if out != Code(0) { return; }
      k := k + 1;
    }
    out := Code(0);
  }

  // ---------- The state file ----------

  /** authenticator_write_state: the bytes of the file. The encoding always fits the buffer. */
  method WriteState(s: AuthenticatorState, mac: seq<Byte> -> seq<Byte>) returns (file: seq<Byte>)
    requires s.Sized() && forall m :: |mac(m)| == STATE_MAC_SIZE
    ensures file == FileOf(s, mac)
    ensures |file| <= 141 < 192 && file[0] == 0xa5
  {
    var cbor := new Byte[STATE_ENVELOPE_BUF_SIZE - 1 - STATE_MAC_SIZE](_ => 0);
    EncodedSize(s);
    var err, size := EncodeState(cbor, s);
    assert err == NoError;
    file := [STATE_MAGIC] + mac(cbor[..size]) + cbor[..size];
  }

  /** Runaway is a file shorter than the envelope, whose size minus that of the envelope wraps
      around; Stuck is a decoding that halts the device or whose course is left open. */
  datatype ReadResult = Refused | Accepted | Runaway(size: nat) | Stuck(outcome: Outcome)

  /** The file as authenticator_write_state leaves it. */
  ghost function FileOf(t: AuthenticatorState, mac: seq<Byte> -> seq<Byte>): seq<Byte> {
    [STATE_MAGIC] + mac(Encode(StateItem(t))) + Encode(StateItem(t))
  }

  /** authenticator_read_state. */
  method ReadState(file: seq<Byte>, s0: AuthenticatorState, mac: seq<Byte> -> seq<Byte>, ghost t: AuthenticatorState)
    returns (r: ReadResult, s: AuthenticatorState)
    requires s0.Sized() && t.Sized() && forall m :: |mac(m)| == STATE_MAC_SIZE
    // only bytes under the device's own MAC are accepted
    ensures r == Accepted ==>
      s.Sized() && 17 <= |file| <= 192 && file[0] == 0xa5 && file[1..17] == mac(file[17..])
    ensures r.Runaway? <==> 1 <= |file| < 17 && file[0] == STATE_MAGIC
    ensures r.Runaway? ==> r.size == UINT32_MAX + 1 - (17 - |file|)
    ensures |file| == 0 || |file| > STATE_ENVELOPE_BUF_SIZE || file[0] != STATE_MAGIC ==> r == Refused && s == s0
    ensures 17 <= |file| && file[1..17] != mac(file[17..]) ==> r == Refused && s == s0
    ensures file == FileOf(t, mac) && |file| <= STATE_ENVELOPE_BUF_SIZE ==>
      if t.version == STATE_VERSION then r == Accepted && s == t else r == Refused
  {
    s, r := s0, Refused;
    // fs_read_open fails if the file is longer than the buffer
    if |file| == 0 || |file| > STATE_ENVELOPE_BUF_SIZE || file[0] != STATE_MAGIC { return; }
    if |file| < 1 + STATE_MAC_SIZE {
      return Runaway(UINT32_MAX + 1 + |file| - 1 - STATE_MAC_SIZE), s;
    }
    var cbor := file[1 + STATE_MAC_SIZE..];
    if file == FileOf(t, mac) {
      assert cbor == Encode(StateItem(t)) && file[1..17] == mac(Encode(StateItem(t)));
    }
    if mac(cbor) != file[1..1 + STATE_MAC_SIZE] { return; }
    var out;
    assert Entries(t) + [] == Entries(t);
    out, s := DecodeState(cbor, s0, t, []);
    r := if out == Code(0) then Accepted else if out.Code? then Refused else Stuck(out);
  }

  /** Every state the device runs with (version 1) survives a power cycle unchanged, whatever
      was in memory before it is read; a state of any other version is refused. */
  method PowerCycle(t: AuthenticatorState, s0: AuthenticatorState, mac: seq<Byte> -> seq<Byte>)
    returns (ok: bool, s: AuthenticatorState)
    requires s0.Sized() && t.Sized() && forall m :: |mac(m)| == STATE_MAC_SIZE
    ensures ok <==> t.version == STATE_VERSION
    ensures ok ==> s == t
  {
    var file := WriteState(t, mac);
    var r;
    r, s := ReadState(file, s0, mac, t);
    ok := r == Accepted;
  }
}
