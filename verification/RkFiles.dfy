/** Resident keys in sixteen files, seen as one table from relying party and user to key. */
module RkFiles {
  import opened Wrappers
  import opened ByteStrings

  const MAX_RK_FILES: nat := 16
  const MAX_RKS: nat := 200

  /** A MAC over a relying party's hash or a user's identifier (CREDENTIAL_TAG_SIZE bytes). */
  type Lookup = s: seq<Byte> | |s| == 16 witness seq(16, _ => 0)

  const USER_ID_MAX_SIZE: nat := 64

  /** A user's identifier: the first id_size bytes of its field. */
  type UserId = s: seq<Byte> | |s| <= USER_ID_MAX_SIZE

  /** CTAP_residentKey, as far as storage looks at it; `info` is the user's name and all that is
      encrypted anew with it. */
  datatype Rk = Rk(rp: Lookup, user: Lookup, tag: nat, count: nat, userId: UserId, info: nat)

  datatype Key = Key(rp: Lookup, user: Lookup)

  function KeyOf(rk: Rk): Key { Key(rk.rp, rk.user) }

  /** rpid_hash_to_file: the high nibble of the first byte. */
  function FileOf(rp: Lookup): (f: nat)
    ensures f < MAX_RK_FILES
  {
    rp[0] / 16
  }

  type File = seq<Rk>

  /** Each record is in its file and no two have the same key. */
  ghost predicate FileOk(file: File, f: nat) {
    && (forall i :: 0 <= i < |file| ==> FileOf(file[i].rp) == f)
    && (forall i, j {:trigger KeyOf(file[i]), KeyOf(file[j])} :: 0 <= i < j < |file| ==> KeyOf(file[i]) != KeyOf(file[j]))
  }

  /** The number of records in the first n files. */
  function Total(files: seq<File>, n: nat): nat
    requires n <= |files|
  {
    if n == 0 then 0 else Total(files, n - 1) + |files[n - 1]|
  }

  lemma {:induction false} TotalUpdate(files: seq<File>, f: nat, file: File, n: nat)
    requires f < |files| && n <= |files|
    ensures Total(files[f := file], n) == Total(files, n) + if f < n then |file| - |files[f]| else 0
  {
    if n > 0 { TotalUpdate(files, f, file, n - 1); }
  }

  lemma {:induction false} TotalBounds(files: seq<File>, f: nat, n: nat)
    requires f < n <= |files|
    ensures |files[f]| <= Total(files, n)
  {
    if f < n - 1 { TotalBounds(files, f, n - 1); }
  }

  // ---------- The table ----------

  /** The record with the key, if there is one. */
  function Find(file: File, key: Key): Option<Rk> {
    if |file| == 0 then None
    else if KeyOf(file[|file| - 1]) == key then Some(file[|file| - 1])
    else Find(file[..|file| - 1], key)
  }

  lemma {:induction false} FindAt(file: File, f: nat, i: nat)
    requires FileOk(file, f) && i < |file|
    ensures Find(file, KeyOf(file[i])) == Some(file[i])
  {
    if i < |file| - 1 {
      assert KeyOf(file[i]) != KeyOf(file[|file| - 1]);
      var init := file[..|file| - 1];
      assert init[i] == file[i];
      InitOk(file, f);
      FindAt(init, f, i);
    }
  }

  lemma InitOk(file: File, f: nat)
    requires FileOk(file, f) && |file| > 0
    ensures FileOk(file[..|file| - 1], f)
  {
    var init := file[..|file| - 1];
    forall i, j | 0 <= i < j < |init| ensures KeyOf(init[i]) != KeyOf(init[j]) {
      assert KeyOf(file[i]) != KeyOf(file[j]);
    }
  }

  lemma {:induction false} FindNone(file: File, key: Key)
    ensures Find(file, key) == None <==> forall i :: 0 <= i < |file| ==> KeyOf(file[i]) != key
    ensures Find(file, key).Some? ==> KeyOf(Find(file, key).value) == key && Find(file, key).value in file
  {
    if |file| > 0 {
      var init := file[..|file| - 1];
      FindNone(init, key);
      assert forall i :: 0 <= i < |init| ==> init[i] == file[i];
    }
  }

  /** The table that the files stand for. */
  function Get(files: seq<File>, key: Key): Option<Rk>
    requires |files| == MAX_RK_FILES
  {
    Find(files[FileOf(key.rp)], key)
  }

  ghost function KeysOf(file: File): set<Key> { set i | 0 <= i < |file| :: KeyOf(file[i]) }

  lemma {:induction false} DistinctKeys(file: File, f: nat)
    requires FileOk(file, f)
    ensures |KeysOf(file)| == |file|
  {
    if |file| > 0 {
      var init, last := file[..|file| - 1], file[|file| - 1];
      InitOk(file, f);
      DistinctKeys(init, f);
      assert forall i :: 0 <= i < |init| ==> init[i] == file[i];
      assert KeyOf(last) !in KeysOf(init) by {
        forall i | 0 <= i < |init| ensures KeyOf(init[i]) != KeyOf(last) { assert KeyOf(file[i]) != KeyOf(file[|file| - 1]); }
      }
      assert KeysOf(file) == KeysOf(init) + {KeyOf(last)};
    }
  }

  /** The keys in the first n files. */
  ghost function AllKeys(files: seq<File>, n: nat): set<Key>
    requires n <= |files|
  {
    if n == 0 then {} else AllKeys(files, n - 1) + KeysOf(files[n - 1])
  }

  lemma {:induction false} KeysLieInTheirFiles(files: seq<File>, n: nat)
    requires n <= |files| && forall f :: 0 <= f < |files| ==> FileOk(files[f], f)
    ensures forall k :: k in AllKeys(files, n) ==> FileOf(k.rp) < n
    ensures |AllKeys(files, n)| == Total(files, n)
  {
    if n > 0 {
      KeysLieInTheirFiles(files, n - 1);
      DistinctKeys(files[n - 1], n - 1);
      assert forall k :: k in KeysOf(files[n - 1]) ==> FileOf(k.rp) == n - 1;
      assert AllKeys(files, n - 1) !! KeysOf(files[n - 1]);
    }
  }

  /** A key is present exactly if the table has an entry for it. */
  lemma {:induction false} KeysAreTheTable(files: seq<File>, n: nat, key: Key)
    requires n <= |files| == MAX_RK_FILES && forall f :: 0 <= f < |files| ==> FileOk(files[f], f)
    ensures key in AllKeys(files, n) <==> FileOf(key.rp) < n && Get(files, key).Some?
  {
    if n > 0 {
      KeysAreTheTable(files, n - 1, key);
      FindNone(files[n - 1], key);
    }
  }
}
