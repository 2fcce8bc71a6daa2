/** The resident key store of targets/tkey/src/device.c with its separately kept count. */
module RkStore {
  import opened Wrappers
  import opened ByteStrings
  import opened RkFiles

  // ---------- File operations ----------

  /** fs_write_at, in records. */
  function WriteAt(file: File, data: seq<Rk>, pos: nat): File
    requires pos <= |file|
  {
    file[..pos] + data + if pos + |data| <= |file| then file[pos + |data|..] else []
  }

  function Without(file: File, i: nat): File
    requires i < |file|
  {
    file[..i] + file[i + 1..]
  }

  /** What overwriting or appending rk makes of its file. */
  function Put(file: File, rk: Rk, i: nat): File
    requires i <= |file|
  {
    if i < |file| then file[i := rk] else file + [rk]
  }

  // ---------- What the operations do to the table ----------

  /** i is the position of rk's key, or the end if the key is new. */
  ghost predicate SlotFor(file: File, rk: Rk, i: nat) {
    && i <= |file|
    && (i < |file| ==> KeyOf(file[i]) == KeyOf(rk))
    && (i == |file| ==> forall j :: 0 <= j < |file| ==> KeyOf(file[j]) != KeyOf(rk))
  }

  lemma PutKeepsFile(file: File, f: nat, rk: Rk, i: nat)
    requires FileOk(file, f) && FileOf(rk.rp) == f && SlotFor(file, rk, i)
    ensures FileOk(Put(file, rk, i), f)
  {
    var file' := Put(file, rk, i);
    forall j, k | 0 <= j < k < |file'| ensures KeyOf(file'[j]) != KeyOf(file'[k]) {
      if k < |file| { assert KeyOf(file[j]) != KeyOf(file[k]); }
    }
  }

  lemma PutFind(file: File, f: nat, rk: Rk, i: nat, key: Key)
    requires FileOk(file, f) && FileOf(rk.rp) == f && SlotFor(file, rk, i)
    ensures Find(Put(file, rk, i), key) == if key == KeyOf(rk) then Some(rk) else Find(file, key)
  {
    var file' := Put(file, rk, i);
    PutKeepsFile(file, f, rk, i);
    FindNone(file, key);
    FindNone(file', key);
    if key == KeyOf(rk) {
      assert file'[i] == rk;
      FindAt(file', f, i);
    } else if Find(file, key).Some? {
      var j :| 0 <= j < |file| && file[j] == Find(file, key).value;
      assert file'[j] == file[j];
      FindAt(file', f, j);
    } else {
      forall j | 0 <= j < |file'| ensures KeyOf(file'[j]) != key {
        if j < |file| && j != i { assert file'[j] == file[j]; }
      }
    }
  }

  lemma WithoutKeepsFile(file: File, f: nat, i: nat)
    requires FileOk(file, f) && i < |file|
    ensures FileOk(Without(file, i), f)
  {
    var file' := Without(file, i);
    forall j, k | 0 <= j < k < |file'| ensures KeyOf(file'[j]) != KeyOf(file'[k]) {
      var j', k' := if j < i then j else j + 1, if k < i then k else k + 1;
      assert file'[j] == file[j'] && file'[k] == file[k'];
      assert KeyOf(file[j']) != KeyOf(file[k']);
    }
  }

  lemma KeyGone(file: File, f: nat, i: nat)
    requires FileOk(file, f) && i < |file|
    ensures forall j :: 0 <= j < |file| - 1 ==> KeyOf(Without(file, i)[j]) != KeyOf(file[i])
  {
    forall j | 0 <= j < |file| - 1 ensures KeyOf(Without(file, i)[j]) != KeyOf(file[i]) {
      if j < i {
        assert KeyOf(file[j]) != KeyOf(file[i]);
      } else {
        assert KeyOf(file[i]) != KeyOf(file[j + 1]);
      }
    }
  }

  lemma KeyStays(file: File, f: nat, i: nat, j: nat)
    requires FileOk(file, f) && i < |file| && j < |file| && i != j
    ensures Find(Without(file, i), KeyOf(file[j])) == Some(file[j])
  {
    var j' := if j < i then j else j - 1;
    assert Without(file, i)[j'] == file[j];
    WithoutKeepsFile(file, f, i);
    FindAt(Without(file, i), f, j');
  }

  lemma WithoutFind(file: File, f: nat, i: nat, key: Key)
    requires FileOk(file, f) && i < |file|
    ensures Find(Without(file, i), key) == if key == KeyOf(file[i]) then None else Find(file, key)
  {
    var file' := Without(file, i);
    FindNone(file, key);
    FindNone(file', key);
    if key == KeyOf(file[i]) {
      KeyGone(file, f, i);
    } else if Find(file, key).Some? {
      var j :| 0 <= j < |file| && file[j] == Find(file, key).value;
      KeyStays(file, f, i, j);
    } else {
      forall j | 0 <= j < |file'| ensures KeyOf(file'[j]) != key {
        assert file'[j] == file[if j < i then j else j + 1];
      }
    }
  }

  // ---------- The store ----------

  class Store {
    var files: seq<File>
    var rkStored: nat

    /** The count is the number of records, each record lies in the file of its nibble, and no two
        records share both lookups. */
    ghost predicate Valid()
      reads this
    {
      && |files| == MAX_RK_FILES && rkStored == Total(files, MAX_RK_FILES)
      && (forall f :: 0 <= f < MAX_RK_FILES ==> FileOk(files[f], f))
    }

    constructor ()
      ensures Valid() && rkStored == 0 && forall key :: Get(files, key) == None
    {
      files, rkStored := seq(MAX_RK_FILES, _ => []), 0;
      new;
      EmptyTotal(files, MAX_RK_FILES);
    }

    /** The number of entries of the table. */
    lemma CountsTheTable()
      requires Valid()
      ensures rkStored == |AllKeys(files, MAX_RK_FILES)|
      ensures forall key :: key in AllKeys(files, MAX_RK_FILES) <==> Get(files, key).Some?
    {
      KeysLieInTheirFiles(files, MAX_RK_FILES);
      forall key ensures key in AllKeys(files, MAX_RK_FILES) <==> Get(files, key).Some? {
        KeysAreTheTable(files, MAX_RK_FILES, key);
      }
    }

    /** ctap_overwrite_rk: the table gets the entry, whether or not the key was there. */
    method OverwriteRk(rk: Rk)
      requires Valid()
      modifies this
      ensures Valid()
      ensures forall key :: Get(files, key) == if key == KeyOf(rk) then Some(rk) else old(Get(files, key))
      ensures rkStored == old(rkStored) + if old(Get(files, KeyOf(rk))) == None then 1 else 0
    {
      var f := FileOf(rk.rp);
      var file := files[f];
      var count, i := |file|, 0;
      while i < count
        invariant i <= count && files == old(files) && rkStored == old(rkStored)
        invariant forall j :: 0 <= j < i ==> KeyOf(file[j]) != KeyOf(rk)
      {
        var read := file[i];
        if read.rp == rk.rp && read.user == rk.user {
          break;
        }
        i := i + 1;
      }
      assert SlotFor(file, rk, i);
      Stored(old(files), f, rk, i);
      FindNone(file, KeyOf(rk));
      files := files[f := WriteAt(file, [rk], i)];
      assert WriteAt(file, [rk], i) == Put(file, rk, i);
      if i == count {
        rkStored := rkStored + 1;
      }
    }

    /** ctap_delete_rk: the first record with this relying party and tag is taken out of its file,
        ten records at a time. */
    method DeleteRk(rp: Lookup, tag: nat) returns (ok: bool)
      requires Valid()
      modifies this
      ensures Valid()
      ensures ok == exists i :: 0 <= i < |old(files)[FileOf(rp)]| && Names(old(files)[FileOf(rp)][i], rp, tag)
      ensures !ok ==> unchanged(this)
      ensures ok ==> rkStored == old(rkStored) - 1 && Removed(old(files), files, rp, tag)
    {
      var f := FileOf(rp);
      var file := files[f];
      var count, i := |file|, 0;
      while i < count
        invariant i <= count && files == old(files) && rkStored == old(rkStored)
        invariant forall j :: 0 <= j < i ==> !Names(file[j], rp, tag)
      {
        if Names(file[i], rp, tag) {
          file := ShiftDown(file, i);
          DeletedFrom(old(files), f, i);
          TotalBounds(old(files), f, MAX_RK_FILES);
          files := files[f := file];
          rkStored := rkStored - 1;
          return true;
        }
        i := i + 1;
      }
      ok := false;
    }

    /** The resident key part of ctap_make_auth_data: a full store refuses even a key that would
        replace one. */
    method Create(rk: Rk) returns (ok: bool)
      requires Valid() && rkStored <= MAX_RKS
      modifies this
      ensures Valid() && rkStored <= MAX_RKS
      ensures ok == (old(rkStored) < MAX_RKS) && (!ok ==> unchanged(this))
      ensures ok ==> forall key :: Get(files, key) == if key == KeyOf(rk) then Some(rk) else old(Get(files, key))
    {
      if rkStored >= MAX_RKS {
        return false;
      }
      OverwriteRk(rk);
      ok := true;
    }

    /** update_credential_user_info: find the credential by relying party and tag among the valid
        records and, if the bytes of the given identifier agree with the stored one, write it back
        with new user data. It replaces exactly that entry. */
    method UpdateUser(rp: Lookup, tag: nat, userId: seq<Byte>, info: nat) returns (ok: bool)
      requires Valid() && rkStored <= MAX_RKS && |userId| == USER_ID_MAX_SIZE
      modifies this
      ensures Valid() && rkStored == old(rkStored)
      ensures ok == exists i: nat :: FirstNamed(old(files)[FileOf(rp)], rp, tag, i) && Agrees(old(files)[FileOf(rp)][i].userId, userId)
      ensures !ok ==> unchanged(this)
      ensures ok ==> Updated(old(files), files, rp, tag, userId, info)
    {
      var f := FileOf(rp);
      var file := files[f];
      var i := 0;
      while i < |file| && !(IsValid(file[i]) && Names(file[i], rp, tag))
        invariant i <= |file|
        invariant forall j :: 0 <= j < i ==> !(IsValid(file[j]) && Names(file[j], rp, tag))
      {
        i := i + 1;
      }
      assert i < |file| ==> FirstNamed(file, rp, tag, i);
      if i == |file| || !Agrees(file[i].userId, userId) {
        forall j: nat | FirstNamed(file, rp, tag, j) ensures j == i { FirstIsUnique(file, rp, tag, i, j); }
        return false;
      }
      var rk := file[i];
      FindAt(file, f, i);
      assert Get(files, KeyOf(rk)) == Some(rk);
      OverwriteRk(rk.(info := info));
      ok := true;
    }

    /** ctap_state_init with ctap_reset_rk. */
    method Reset()
      modifies this
      ensures Valid() && rkStored == 0 && forall key :: Get(files, key) == None
    {
      files, rkStored := seq(MAX_RK_FILES, _ => []), 0;
      EmptyTotal(files, MAX_RK_FILES);
    }
  }

  predicate Names(rk: Rk, rp: Lookup, tag: nat) { rk.rp == rp && rk.tag == tag }

  /** memcmp over the length of the stored identifier. */
  predicate Agrees(stored: UserId, given: seq<Byte>) {
    |stored| <= |given| && given[..|stored|] == stored
  }

  /** The field that holds an identifier, filled up with zeros. */
  function Field(id: UserId): (s: seq<Byte>)
    ensures |s| == USER_ID_MAX_SIZE
  {
    id + Repeat(0, USER_ID_MAX_SIZE - |id|)
  }

  /** An identifier passes if and only if it starts with the stored one or lacks only zeros at its
      end; one of the same length if and only if it is the same. */
  lemma AgreesIff(stored: UserId, id: UserId)
    ensures Agrees(stored, Field(id)) <==>
      if |stored| <= |id| then id[..|stored|] == stored else stored == id + Repeat(0, |stored| - |id|)
    ensures |id| == |stored| ==> (Agrees(stored, Field(id)) <==> id == stored)
  {
    if |stored| <= |id| {
      assert Field(id)[..|stored|] == id[..|stored|];
    } else {
      assert Field(id)[..|stored|] == id + Repeat(0, |stored| - |id|);
    }
  }

  /** A longer identifier passes. */
  lemma LongerAgrees()
    ensures Agrees([1], Field([1, 2])) && [1] != [1, 2]
  {
    assert Field([1, 2])[..1] == [1];
  }

  /** resident_key_is_valid. */
  predicate IsValid(rk: Rk) { rk.count > 0 && rk.count != 0xffff_ffff }

  /** The first valid record with this relying party and tag is the i-th. */
  ghost predicate FirstNamed(file: File, rp: Lookup, tag: nat, i: nat) {
    && i < |file| && IsValid(file[i]) && Names(file[i], rp, tag)
    && forall j :: 0 <= j < i ==> !(IsValid(file[j]) && Names(file[j], rp, tag))
  }

  lemma FirstIsUnique(file: File, rp: Lookup, tag: nat, i: nat, j: nat)
    requires FirstNamed(file, rp, tag, j) && (i < |file| ==> FirstNamed(file, rp, tag, i))
    requires i <= |file| && forall k :: 0 <= k < i ==> !(IsValid(file[k]) && Names(file[k], rp, tag))
    ensures i == j
  {
  }

  lemma {:induction false} EmptyTotal(files: seq<File>, n: nat)
    requires n <= |files| && forall f :: 0 <= f < |files| ==> files[f] == []
    ensures Total(files, n) == 0
  {
    if n > 0 { EmptyTotal(files, n - 1); }
  }

  /** One entry, which the request names, is gone from the table; all others are as before. */
  ghost predicate Removed(files: seq<File>, files': seq<File>, rp: Lookup, tag: nat)
    requires |files| == |files'| == MAX_RK_FILES
  {
    exists rk :: Get(files, KeyOf(rk)) == Some(rk) && rk.rp == rp && rk.tag == tag
      && forall key :: Get(files', key) == if key == KeyOf(rk) then None else Get(files, key)
  }

  /** One entry, which the request names, has new user data; all others are as before. */
  ghost predicate Updated(files: seq<File>, files': seq<File>, rp: Lookup, tag: nat, userId: seq<Byte>, info: nat)
    requires |files| == |files'| == MAX_RK_FILES
  {
    exists rk :: Get(files, KeyOf(rk)) == Some(rk) && rk.rp == rp && rk.tag == tag && Agrees(rk.userId, userId)
      && rk.count > 0 && rk.count != 0xffff_ffff
      && forall key :: Get(files', key) == if key == KeyOf(rk) then Some(rk.(info := info)) else Get(files, key)
  }

  ghost predicate AllOk(files: seq<File>) {
    |files| == MAX_RK_FILES && forall f :: 0 <= f < MAX_RK_FILES ==> FileOk(files[f], f)
  }

  lemma Stored(files: seq<File>, f: nat, rk: Rk, i: nat)
    requires AllOk(files) && f == FileOf(rk.rp) && SlotFor(files[f], rk, i)
    ensures var files' := files[f := Put(files[f], rk, i)];
      && AllOk(files')
      && Total(files', MAX_RK_FILES) == Total(files, MAX_RK_FILES) + (if i == |files[f]| then 1 else 0)
      && forall key :: Get(files', key) == if key == KeyOf(rk) then Some(rk) else Get(files, key)
  {
    PutKeepsFile(files[f], f, rk, i);
    TotalUpdate(files, f, Put(files[f], rk, i), MAX_RK_FILES);
    var files' := files[f := Put(files[f], rk, i)];
    forall key
      ensures Get(files', key) == if key == KeyOf(rk) then Some(rk) else Get(files, key)
    {
      PutFind(files[f], f, rk, i, key);
      assert FileOf(key.rp) == f ==> files'[FileOf(key.rp)] == Put(files[f], rk, i);
    }
  }

  lemma DeletedFrom(files: seq<File>, f: nat, i: nat)
    requires AllOk(files) && f < MAX_RK_FILES && i < |files[f]|
    ensures var files', rk := files[f := Without(files[f], i)], files[f][i];
      && AllOk(files') && Total(files', MAX_RK_FILES) == Total(files, MAX_RK_FILES) - 1
      && Get(files, KeyOf(rk)) == Some(rk)
      && forall key :: Get(files', key) == if key == KeyOf(rk) then None else Get(files, key)
  {
    WithoutKeepsFile(files[f], f, i);
    TotalUpdate(files, f, Without(files[f], i), MAX_RK_FILES);
    FindAt(files[f], f, i);
    forall key
      ensures Get(files[f := Without(files[f], i)], key) == if key == KeyOf(files[f][i]) then None else Get(files, key)
    {
      WithoutFind(files[f], f, i, key);
    }
  }

  /** The file when so many of the records after the i-th have been written one place down. */
  function Moved(file0: File, i: nat, processed: nat): File
    requires i + 1 + processed <= |file0|
  {
    file0[..i] + file0[i + 1..i + 1 + processed] + file0[i + processed..]
  }

  lemma MovedOn(file0: File, i: nat, processed: nat, n: nat)
    requires i + 1 + processed + n <= |file0|
    ensures var file, k := Moved(file0, i, processed), i + 1 + processed;
      |file| == |file0| && WriteAt(file, file[k..k + n], k - 1) == Moved(file0, i, processed + n)
  {
    var file, k := Moved(file0, i, processed), i + 1 + processed;
    assert file[k..k + n] == file0[k..k + n];
    assert file[..k - 1] == file0[..i] + file0[i + 1..k];
    assert file[k - 1 + n..] == file0[k - 1 + n..];
    assert file0[i + 1..k] + file0[k..k + n] == file0[i + 1..k + n];
  }

  /** The rewriting loop of ctap_delete_rk and the truncation: reading and writing back at most ten
      records at a time removes exactly the i-th one. */
  method ShiftDown(file0: File, i: nat) returns (file: File)
    requires i < |file0|
    ensures file == Without(file0, i)
  {
    file := file0;
    var count := |file|;
    var remaining, processed := count - (i + 1), 0;
    while remaining > 0
      invariant 0 <= remaining && processed + remaining == count - (i + 1)
      invariant file == Moved(file0, i, processed)
    {
      var toRead := if remaining > 10 then 10 else remaining;
      var chunk := file[i + 1 + processed..i + 1 + processed + toRead];
      MovedOn(file0, i, processed, toRead);
      file := WriteAt(file, chunk, i + processed);
      processed := processed + toRead;
      remaining := remaining - toRead;
    }
    file := file[..count - 1];
  }

  datatype Operation =
    | CreateKey(rk: Rk)
    | DeleteKey(rp: Lookup, tag: nat)
    | ChangeUser(rp: Lookup, tag: nat, userId: UserId, info: nat)
    | ResetKeys

  // ---------- The store as a map ----------

  type Table = map<Key, Rk>

  /** The map that the files stand for. */
  ghost function TableOf(files: seq<File>): Table
    requires AllOk(files)
  {
    map key | key in AllKeys(files, MAX_RK_FILES) && Get(files, key).Some? :: Get(files, key).value
  }

  /** The map has exactly the entries that are found in the files. */
  lemma TableHas(files: seq<File>, key: Key)
    requires AllOk(files)
    ensures key in TableOf(files) <==> Get(files, key).Some?
    ensures key in TableOf(files) ==> TableOf(files)[key] == Get(files, key).value && KeyOf(TableOf(files)[key]) == key
  {
    KeysAreTheTable(files, MAX_RK_FILES, key);
    FindNone(files[FileOf(key.rp)], key);
  }

  lemma TableIs(files: seq<File>, table: Table)
    requires AllOk(files)
    requires forall key {:trigger Get(files, key)} :: (key in table <==> Get(files, key).Some?) && (key in table ==> Get(files, key) == Some(table[key]))
    ensures TableOf(files) == table
  {
    forall key ensures key in TableOf(files) <==> key in table {
      TableHas(files, key);
      assert Get(files, key) == Get(files, key);
    }
    forall key | key in table ensures TableOf(files)[key] == table[key] {
      TableHas(files, key);
      assert Get(files, key) == Get(files, key);
    }
  }

  lemma TableSize(files: seq<File>)
    requires AllOk(files)
    ensures |TableOf(files)| == Total(files, MAX_RK_FILES)
  {
    KeysLieInTheirFiles(files, MAX_RK_FILES);
    forall key ensures key in TableOf(files) <==> key in AllKeys(files, MAX_RK_FILES) {
      KeysAreTheTable(files, MAX_RK_FILES, key);
    }
    assert TableOf(files).Keys == AllKeys(files, MAX_RK_FILES);
  }

  /** The entry is in the table and has this relying party and tag. */
  ghost predicate Named(table: Table, rp: Lookup, tag: nat, rk: Rk) {
    Key(rk.rp, rk.user) in table && table[Key(rk.rp, rk.user)] == rk && rk.rp == rp && rk.tag == tag
  }

  ghost predicate ValidNamed(table: Table, rp: Lookup, tag: nat, rk: Rk) {
    Named(table, rp, tag, rk) && rk.count > 0 && rk.count != 0xffff_ffff
  }

  /** What an operation makes of the table. If several entries have the relying party and tag that it
      names, it takes one of them. */
  ghost predicate Applied(before: Table, op: Operation, after: Table) {
    match op
    case CreateKey(rk) => after == if |before| < 200 then before[Key(rk.rp, rk.user) := rk] else before
    case DeleteKey(rp, tag) =>
      if exists rk :: Named(before, rp, tag, rk)
      then exists rk :: Named(before, rp, tag, rk) && after == before - {Key(rk.rp, rk.user)}
      else after == before
    case ChangeUser(rp, tag, userId, info) =>
      if exists rk :: ValidNamed(before, rp, tag, rk)
      then exists rk :: ValidNamed(before, rp, tag, rk) && after == WithInfo(before, rk, userId, info)
      else after == before
    case ResetKeys => after == map[]
  }

  function WithInfo(before: Table, rk: Rk, userId: UserId, info: nat): Table {
    if Agrees(rk.userId, Field(userId)) then before[Key(rk.rp, rk.user) := rk.(info := info)] else before
  }

  /** Where no two entries share relying party and tag, there is only one such table. */
  lemma AppliedIsFunctional(before: Table, op: Operation, a: Table, b: Table)
    requires forall rk, rk', rp, tag :: Named(before, rp, tag, rk) && Named(before, rp, tag, rk') ==> rk == rk'
    requires Applied(before, op, a) && Applied(before, op, b)
    ensures a == b
  {
  }

  /** The operations, one after the other, lead from the empty table to this one. */
  ghost predicate Leads(operations: seq<Operation>, table: Table)
    decreases |operations|, 1
  {
    if |operations| == 0 then table == map[] else exists before :: LeadsBy(operations, before, table)
  }

  ghost predicate LeadsBy(operations: seq<Operation>, before: Table, table: Table)
    requires |operations| > 0
    decreases |operations|, 0
  {
    var n := |operations| - 1;
    Leads(operations[..n], before) && Applied(before, operations[n], table)
  }

  lemma AfterCreate(files: seq<File>, files': seq<File>, rk: Rk)
    requires AllOk(files) && AllOk(files')
    requires forall key :: Get(files', key) == if key == KeyOf(rk) then Some(rk) else Get(files, key)
    ensures TableOf(files') == TableOf(files)[KeyOf(rk) := rk]
  {
    forall key ensures (key in TableOf(files) <==> Get(files, key).Some?) && (key in TableOf(files) ==> Get(files, key) == Some(TableOf(files)[key])) {
      TableHas(files, key);
    }
    TableIs(files', TableOf(files)[KeyOf(rk) := rk]);
  }

  lemma AfterDelete(files: seq<File>, files': seq<File>, rk: Rk)
    requires AllOk(files) && AllOk(files')
    requires forall key :: Get(files', key) == if key == KeyOf(rk) then None else Get(files, key)
    ensures TableOf(files') == TableOf(files) - {KeyOf(rk)}
  {
    forall key ensures (key in TableOf(files) <==> Get(files, key).Some?) && (key in TableOf(files) ==> Get(files, key) == Some(TableOf(files)[key])) {
      TableHas(files, key);
    }
    TableIs(files', TableOf(files) - {KeyOf(rk)});
  }

  ghost predicate InFiles(files: seq<File>, rk: Rk) {
    exists f, i {:trigger files[f][i]} :: 0 <= f < |files| && 0 <= i < |files[f]| && files[f][i] == rk
  }

  ghost predicate InTable(table: Table, rk: Rk) {
    Key(rk.rp, rk.user) in table && table[Key(rk.rp, rk.user)] == rk
  }

  lemma InItsFile(files: seq<File>, rk: Rk)
    requires AllOk(files)
    ensures InFiles(files, rk) <==> rk in files[FileOf(rk.rp)]
  {
    if rk in files[FileOf(rk.rp)] {
      var i :| 0 <= i < |files[FileOf(rk.rp)]| && files[FileOf(rk.rp)][i] == rk;
      assert files[FileOf(rk.rp)][i] == rk;
    }
  }

  lemma StoredIsEntry(files: seq<File>, rk: Rk)
    requires AllOk(files)
    ensures InFiles(files, rk) <==> InTable(TableOf(files), rk)
  {
    InItsFile(files, rk);
    RecordsAreEntries(files, rk.rp, rk.tag, rk);
  }

  /** A record in a file is an entry, and an entry is a record in its file. */
  lemma RecordsAreEntries(files: seq<File>, rp: Lookup, tag: nat, rk: Rk)
    requires AllOk(files)
    ensures Named(TableOf(files), rp, tag, rk) <==> rk in files[FileOf(rp)] && Names(rk, rp, tag)
  {
    TableHas(files, KeyOf(rk));
    FindNone(files[FileOf(rk.rp)], KeyOf(rk));
    if rk in files[FileOf(rk.rp)] {
      var i :| 0 <= i < |files[FileOf(rk.rp)]| && files[FileOf(rk.rp)][i] == rk;
      FindAt(files[FileOf(rk.rp)], FileOf(rk.rp), i);
    }
  }

  /** Among valid records of that name there is a first one. */
  lemma {:induction false} FirstOfThem(file: File, rp: Lookup, tag: nat, k: nat) returns (i: nat)
    requires k < |file| && IsValid(file[k]) && Names(file[k], rp, tag)
    ensures FirstNamed(file, rp, tag, i)
    decreases k
  {
    if j :| 0 <= j < k && IsValid(file[j]) && Names(file[j], rp, tag) {
      i := FirstOfThem(file, rp, tag, j);
    } else {
      i := k;
    }
  }

  lemma DeletedIsApplied(files: seq<File>, files': seq<File>, rp: Lookup, tag: nat)
    requires AllOk(files) && AllOk(files') && Removed(files, files', rp, tag)
    ensures Applied(TableOf(files), DeleteKey(rp, tag), TableOf(files'))
  {
    var rk :| Get(files, KeyOf(rk)) == Some(rk) && rk.rp == rp && rk.tag == tag
      && forall key :: Get(files', key) == if key == KeyOf(rk) then None else Get(files, key);
    AfterDelete(files, files', rk);
    TableHas(files, KeyOf(rk));
    assert Named(TableOf(files), rp, tag, rk);
  }

  lemma NothingToDelete(files: seq<File>, rp: Lookup, tag: nat)
    requires AllOk(files) && forall i :: 0 <= i < |files[FileOf(rp)]| ==> !Names(files[FileOf(rp)][i], rp, tag)
    ensures Applied(TableOf(files), DeleteKey(rp, tag), TableOf(files))
  {
    forall rk ensures !Named(TableOf(files), rp, tag, rk) { RecordsAreEntries(files, rp, tag, rk); }
  }

  lemma UpdatedIsApplied(files: seq<File>, files': seq<File>, rp: Lookup, tag: nat, userId: UserId, info: nat)
    requires AllOk(files) && AllOk(files') && Updated(files, files', rp, tag, Field(userId), info)
    ensures Applied(TableOf(files), ChangeUser(rp, tag, userId, info), TableOf(files'))
  {
    var rk :| Get(files, KeyOf(rk)) == Some(rk) && rk.rp == rp && rk.tag == tag && Agrees(rk.userId, Field(userId))
      && rk.count > 0 && rk.count != 0xffff_ffff
      && forall key :: Get(files', key) == if key == KeyOf(rk) then Some(rk.(info := info)) else Get(files, key);
    AfterCreate(files, files', rk.(info := info));
    TableHas(files, KeyOf(rk));
    ChosenIsApplied(TableOf(files), TableOf(files'), rk, rp, tag, userId, info);
  }

  lemma ChosenIsApplied(before: Table, after: Table, rk: Rk, rp: Lookup, tag: nat, userId: UserId, info: nat)
    requires ValidNamed(before, rp, tag, rk) && after == WithInfo(before, rk, userId, info)
    ensures Applied(before, ChangeUser(rp, tag, userId, info), after)
  {
  }

  lemma NothingToUpdate(files: seq<File>, rp: Lookup, tag: nat, userId: UserId, info: nat)
    requires AllOk(files)
    requires forall i: nat :: FirstNamed(files[FileOf(rp)], rp, tag, i) ==> !Agrees(files[FileOf(rp)][i].userId, Field(userId))
    ensures Applied(TableOf(files), ChangeUser(rp, tag, userId, info), TableOf(files))
  {
    var file, table := files[FileOf(rp)], TableOf(files);
    if rk :| ValidNamed(table, rp, tag, rk) {
      RecordsAreEntries(files, rp, tag, rk);
      var k :| 0 <= k < |file| && file[k] == rk;
      var i := FirstOfThem(file, rp, tag, k);
      RecordsAreEntries(files, rp, tag, file[i]);
      assert ValidNamed(table, rp, tag, file[i]) && WithInfo(table, file[i], userId, info) == table;
    }
  }

  lemma EmptyTable(files: seq<File>)
    requires AllOk(files) && forall key :: Get(files, key) == None
    ensures TableOf(files) == map[]
  {
    TableIs(files, map[]);
  }

  /** One operation on the store. */
  method Operate(store: Store, op: Operation)
    requires store.Valid() && store.rkStored <= MAX_RKS
    modifies store
    ensures store.Valid() && store.rkStored <= MAX_RKS
    ensures Applied(old(TableOf(store.files)), op, TableOf(store.files))
  {
    ghost var files := store.files;
    var ok;
    match op {
      case CreateKey(rk) =>
        TableSize(files);
        ok := store.Create(rk);
        if ok { AfterCreate(files, store.files, rk); }
      case DeleteKey(rp, tag) =>
        ok := store.DeleteRk(rp, tag);
        if ok { DeletedIsApplied(files, store.files, rp, tag); } else { NothingToDelete(files, rp, tag); }
      case ChangeUser(rp, tag, userId, info) =>
        ok := store.UpdateUser(rp, tag, Field(userId), info);
        if ok {
          UpdatedIsApplied(files, store.files, rp, tag, userId, info);
        } else {
          NothingToUpdate(files, rp, tag, userId, info);
        }
      case ResetKeys =>
        store.Reset();
        EmptyTable(store.files);
    }
  }

  /** After any sequence of operations the files stand for the table that these make of the empty one,
      the count is the number of records and of table entries, it is at most 200, and all records are
      in place and distinct. */
  method Perform(operations: seq<Operation>) returns (files: seq<File>, stored: nat)
    ensures |files| == 16 && AllOk(files) && stored == Total(files, 16) == |TableOf(files)| <= 200
    ensures forall f, i {:trigger files[f][i]} :: 0 <= f < 16 && 0 <= i < |files[f]| ==>
      16 * f <= files[f][i].rp[0] < 16 * (f + 1)
    ensures forall rk :: InFiles(files, rk) <==> InTable(TableOf(files), rk)
    ensures Leads(operations, TableOf(files))
  {
    var store := new Store();
    EmptyTable(store.files);
    for n := 0 to |operations|
      invariant fresh(store) && store.Valid() && store.rkStored <= MAX_RKS
      invariant Leads(operations[..n], TableOf(store.files))
    {
      ghost var before := TableOf(store.files);
      Operate(store, operations[n]);
      assert operations[..n + 1][..n] == operations[..n];
      assert LeadsBy(operations[..n + 1], before, TableOf(store.files));
    }
    assert operations[..|operations|] == operations;
    files, stored := store.files, store.rkStored;
    TableSize(files);
    forall rk ensures InFiles(files, rk) <==> InTable(TableOf(files), rk) {
      StoredIsEntry(files, rk);
    }
  }
}
