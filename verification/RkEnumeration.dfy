/** The begin and get-next commands of fido2/src/ctap_credential_management.c over an unchanged
    store, with the static state they keep between calls. */
module RkEnumeration {
  import opened Wrappers
  import opened ByteStrings
  import opened RkFiles
  import opened RkStore
  import opened RkLists

  const CTAP_STATEFUL_TIMEOUT_MS: nat := 30_000

  datatype Begun = Nothing | Rps | Credentials

  class Enumeration {
    const files: seq<File>
    var valid: bool
    var initCmd: Begun
    var timestamp: nat
    var rp: Lookup
    var list: seq<nat>     // list_unique_rps, len_list_unique_rps
    var rkIdx: nat         // uint8_t
    var fileIdx: nat       // uint8_t

    /** The store keeps at most 200 records in each file, so the 8-bit index never wraps. */
    ghost predicate Valid()
      reads this
    {
      && |files| == MAX_RK_FILES && (forall f :: 0 <= f < |files| ==> |files[f]| <= MAX_RKS)
      && rkIdx < 256 && fileIdx <= MAX_RK_FILES
      && (list != [] ==> initCmd == Rps && fileIdx < MAX_RK_FILES && list == Kept(files[fileIdx]))
      && (initCmd == Rps ==> rkIdx <= |list|)
    }

    constructor (store: seq<File>)
      requires |store| == MAX_RK_FILES && forall f :: 0 <= f < |store| ==> |store[f]| <= MAX_RKS
      ensures files == store && Valid() && !valid
    {
      files := store;
      valid, initCmd, timestamp, rp, list, rkIdx, fileIdx := false, Nothing, 0, seq(16, _ => 0), [], 0, 0;
    }

    method ClearState()
      requires Valid()
      modifies this
      ensures Valid() && !valid && initCmd == Nothing && list == [] && rkIdx == 0 && fileIdx == 0
    {
      valid, initCmd, timestamp, rp, list, rkIdx, fileIdx := false, Nothing, 0, seq(16, _ => 0), [], 0, 0;
    }

    method InitState(cmd: Begun, now: nat)
      requires Valid()
      modifies this
      ensures Valid() && valid && initCmd == cmd && timestamp == now && list == [] && rkIdx == 0 && fileIdx == 0
    {
      ClearState();
      valid, timestamp, initCmd := true, now, cmd;
    }

    /** check_state: the enumeration was begun by the matching command and is not older than 30 s. */
    method CheckState(cmd: Begun, now: nat) returns (ok: bool)
      requires Valid() && cmd != Nothing && timestamp <= now
      modifies this
      ensures Valid()
      ensures ok == old(valid && initCmd == cmd && now - timestamp <= 30_000)
      ensures ok ==> timestamp == now && valid && initCmd == cmd
      ensures ok ==> list == old(list) && rkIdx == old(rkIdx) && fileIdx == old(fileIdx) && rp == old(rp)
      ensures !ok ==> !valid
    {
      if !valid {
        return false;
      }
      if initCmd != cmd || now - timestamp > CTAP_STATEFUL_TIMEOUT_MS {
        ClearState();
        return false;
      }
      timestamp := now;
      return true;
    }

    // ---------- Credentials ----------

    /** scan_rk in its two modes. Counting counts all that is left; getting the next one takes the
        first of what is left, or starts over when nothing is. */
    method ScanRk(lookup: Lookup, getNext: bool) returns (ret: int, rk: Option<Rk>)
      requires Valid() && initCmd != Rps
      modifies this`rkIdx
      ensures Valid()
      ensures var left := Matching(files[FileOf(lookup)], lookup, old(rkIdx));
        && (!getNext ==> ret == |left| && rkIdx == 0)
        && (getNext && left == [] ==> ret == -1 && rkIdx == 0)
        && (getNext && left != [] ==>
            ret == 0 && rk == Some(left[0]) && Matching(files[FileOf(lookup)], lookup, rkIdx) == left[1..])
    {
      var file := files[FileOf(lookup)];
      ghost var left := Matching(file, lookup, rkIdx);
      var count := 0;
      rk := None;
      while rkIdx < |file|
        invariant Valid()
        invariant getNext ==> left == Matching(file, lookup, rkIdx)
        invariant |left| == count + |Matching(file, lookup, rkIdx)|
        decreases |file| - rkIdx
      {
        var next := file[rkIdx];
        rkIdx := (rkIdx + 1) % 256;
        if !IsValid(next) || next.rp != lookup {
          continue;
        }
        if getNext {
          return 0, Some(next);
        }
        count := count + 1;
      }
      rkIdx := 0;
      ret := if getNext then -1 else count;
    }

    /** enumerateCredentialsBegin. */
    method CredentialsBegin(lookup: Lookup, now: nat) returns (ok: bool, count: int, rk: Option<Rk>)
      requires Valid()
      modifies this
      ensures Valid()
      ensures var all := Matching(files[FileOf(lookup)], lookup, 0);
        && ok == (all != [])
        && (ok ==> count == |all| && rk == Some(all[0]) && CredentialsLeft(all[1..], lookup) && timestamp == now)
        && (!ok ==> !valid)
    {
      InitState(Credentials, now);
      rp := lookup;
      rk := None;
      count, rk := ScanRk(rp, false);
      if count <= 0 {
        ClearState();
        return false, count, None;
      }
      var ret;
      ret, rk := ScanRk(rp, true);
      ok := ret >= 0;
    }

    /** What is left to be listed. */
    ghost predicate CredentialsLeft(left: seq<Rk>, lookup: Lookup)
      reads this
    {
      && Valid() && valid && initCmd == Credentials && rp == lookup
      && left == Matching(files[FileOf(rp)], rp, rkIdx)
    }

    /** enumerateCredentialsGetNextCredential. */
    method CredentialsNext(now: nat, ghost left: seq<Rk>) returns (ok: bool, rk: Option<Rk>)
      requires Valid() && timestamp <= now
      modifies this
      ensures Valid() && (!ok ==> !valid)
      ensures ok ==> valid && timestamp == now && old(valid && initCmd == Credentials) && now - old(timestamp) <= 30_000
      ensures old(CredentialsLeft(left, rp)) ==>
        && ok == (left != [] && now - old(timestamp) <= 30_000)
        && (ok ==> rk == Some(left[0]) && CredentialsLeft(left[1..], old(rp)))
    {
      rk := None;
      ok := CheckState(Credentials, now);
      if !ok {
        return;
      }
      var ret;
      ret, rk := ScanRk(rp, true);
      if ret < 0 {
        ClearState();
        ok := false;
      }
    }

    // ---------- Relying parties ----------

    /** scan_file_unique_rp: the positions of the first records of up to fifty relying parties. */
    method ScanFileUniqueRp(f: nat) returns (ret: int, unique: seq<nat>)
      requires Valid() && f < MAX_RK_FILES
      ensures ret == 0 && unique == Kept(files[f])
    {
      var file := files[f];
      unique := [];
      if |file| > MAX_RKS {
        return -1, unique;
      }
      var seen: seq<seq<Byte>> := [];
      var index := 0;
      while index < |file|
        invariant index <= |file| && |unique| <= MAX_UNIQUE_RP && unique == Firsts(file, index)
        invariant Remembers(file, unique, seen)
      {
        var rk := file[index];
        if !IsValid(rk) {
          index := index + 1;
          continue;
        }
        var found := FindPrefix(seen, Prefix(rk));
        SeenIsRemembered(file, unique, seen, rk);
        if found {
          index := index + 1;
          continue;
        }
        if |unique| < MAX_UNIQUE_RP {
          seen := seen + [Prefix(rk)];
          unique := unique + [index];
        } else {
          KeptWhenFull(file, index, unique);
          return 0, unique;
        }
        index := index + 1;
      }
      ret := 0;
    }

    /** scan_files_unique_rp: the number of all relying parties, and the list of the first file that
        has any. */
    method ScanFilesUniqueRp() returns (count: nat, first: nat, unique: seq<nat>)
      requires Valid()
      ensures count == |Listed(files, 0)| && first < MAX_RK_FILES && LeftFrom(files, first, unique, 0) == Listed(files, 0)
      ensures unique != [] ==> unique == Kept(files[first])
    {
      count, first, unique := 0, 0, [];
      ghost var all := Listed(files, 0);
      var f := 0;
      while f < MAX_RK_FILES
        invariant f <= MAX_RK_FILES && first < MAX_RK_FILES
        invariant count + |Listed(files, f)| == |all|
        invariant unique == [] ==> first == 0 && Listed(files, f) == all
        invariant unique != [] ==> unique == Kept(files[first]) && Listed(files, first) == all
      {
        var ret, found := ScanFileUniqueRp(f);
        ListedStep(files, f, found);
        if ret < 0 || found == [] {
          f := f + 1;
          continue;
        }
        if unique == [] {
          unique, first := found, f;
        }
        count := count + |found|;
        f := f + 1;
      }
      if unique == [] {
        NothingLater(files, 0);
      } else {
        LeftStart(files, first, unique);
      }
    }

    /** get_count_unique_relying_parties. */
    method CountUniqueRps() returns (count: nat)
      requires Valid() && initCmd == Rps
      modifies this`rkIdx, this`fileIdx, this`list
      ensures Valid() && fileIdx < MAX_RK_FILES && count == |Listed(files, 0)| && Left() == Listed(files, 0)
    {
      rkIdx := 0;
      count, fileIdx, list := ScanFilesUniqueRp();
    }

    /** The relying parties that are left: the rest of the current file and all later files. */
    ghost function Left(): seq<Entry>
      requires Valid() && initCmd == Rps
      reads this
    {
      LeftFrom(files, fileIdx, list, rkIdx)
    }

    /** get_next_unique_rp. */
    method NextUniqueRp(ghost left: seq<Entry>) returns (ret: int, rk: Option<Rk>)
      requires Valid() && initCmd == Rps && fileIdx < MAX_RK_FILES && left == Left()
      modifies this`rkIdx, this`fileIdx, this`list
      ensures Valid()
      ensures left == [] ==> ret == -1
      ensures left != [] ==> ret == 0 && fileIdx < MAX_RK_FILES && Left() == left[1..] && rk == RecordOf(files, left[0])
    {
      rk := None;
      if rkIdx >= |list| {
        FindNextFile(left);
      }
      if list == [] {
        return -1, rk;
      }
      rk := TakeRp(left);
      ret := 0;
    }

    /** Load the record at the current position of the list and move on. */
    method TakeRp(ghost left: seq<Entry>) returns (rk: Option<Rk>)
      requires Valid() && initCmd == Rps && rkIdx < |list| && left == Left()
      modifies this`rkIdx
      ensures Valid() && left != [] && Left() == left[1..] && rk == RecordOf(files, left[0])
    {
      LeftNext(files, fileIdx, list, rkIdx);
      KeptInBounds(files[fileIdx]);
      rk := Some(files[fileIdx][list[rkIdx]]);
      rkIdx := (rkIdx + 1) % 256;
    }

    /** The end of the current list is reached: go on to the next file with a relying party. */
    method FindNextFile(ghost left: seq<Entry>)
      requires Valid() && initCmd == Rps && rkIdx >= |list| && fileIdx < MAX_RK_FILES && left == Left()
      modifies this`rkIdx, this`fileIdx, this`list
      ensures Valid() && rkIdx == 0 && Left() == left
      ensures list == [] ==> left == []
    {
      LeftEnd(files, fileIdx, list, rkIdx);
      fileIdx, rkIdx, list := fileIdx + 1, 0, [];
      while fileIdx < MAX_RK_FILES
        invariant Valid() && rkIdx == 0 && list == [] && left == Listed(files, fileIdx)
        decreases MAX_RK_FILES - fileIdx
      {
        var ret, unique := ScanFileUniqueRp(fileIdx);
        LeftStart(files, fileIdx, unique);
        if ret >= 0 && unique != [] {
          list := unique;
          return;
        }
        fileIdx := fileIdx + 1;
      }
      NothingAtAll(files, fileIdx);
    }

    /** enumerateRPsBegin. */
    method RpsBegin(now: nat) returns (ok: bool, count: nat, rk: Option<Rk>)
      requires Valid()
      modifies this
      ensures Valid()
      ensures var all := Listed(files, 0);
        && ok == (all != [])
        && (ok ==> count == |all| && rk == RecordOf(files, all[0]) && RpsLeft(all[1..]) && timestamp == now)
        && (!ok ==> !valid)
    {
      InitState(Rps, now);
      rk := None;
      count := CountUniqueRps();
      ok, rk := FirstRp(count, Listed(files, 0), now);
    }

    /** The rest of enumerateRPsBegin: the first of the relying parties that were counted. */
    method FirstRp(count: nat, ghost all: seq<Entry>, ghost now: nat) returns (ok: bool, rk: Option<Rk>)
      requires RpsLeft(all) && count == |all| && timestamp == now
      modifies this
      ensures Valid() && ok == (all != []) && (!ok ==> !valid)
      ensures ok ==> rk == RecordOf(files, all[0]) && RpsLeft(all[1..]) && timestamp == now
    {
      rk := None;
      if count <= 0 {
        ClearState();
        return false, rk;
      }
      var ret;
      ret, rk := NextUniqueRp(all);
      ok := ret >= 0;
    }

    ghost predicate RpsLeft(left: seq<Entry>)
      reads this
    {
      Valid() && valid && initCmd == Rps && fileIdx < MAX_RK_FILES && left == Left()
    }

    /** enumerateRPsGetNextRP. */
    method RpsNext(now: nat, ghost left: seq<Entry>) returns (ok: bool, rk: Option<Rk>)
      requires Valid() && timestamp <= now && (initCmd == Rps && valid ==> fileIdx < MAX_RK_FILES)
      modifies this
      ensures Valid() && (!ok ==> !valid) && (ok ==> valid && timestamp == now && fileIdx < MAX_RK_FILES)
      ensures ok ==> old(valid && initCmd == Rps) && now - old(timestamp) <= 30_000
      ensures old(RpsLeft(left)) ==>
        && ok == (left != [] && now - old(timestamp) <= 30_000)
        && (ok ==> rk == RecordOf(files, left[0]) && RpsLeft(left[1..]))
    {
      rk := None;
      ok := CheckState(Rps, now);
      if !ok {
        return;
      }
      var ret;
      ret, rk := NextUniqueRp(Left());
      if ret < 0 {
        ClearState();
        ok := false;
      }
    }
  }

  /** The table `seen` holds the prefixes of the records found so far. */
  ghost predicate Remembers(file: File, unique: seq<nat>, seen: seq<seq<Byte>>) {
    |seen| == |unique| && forall k :: 0 <= k < |seen| ==> unique[k] < |file| && seen[k] == Prefix(file[unique[k]])
  }

  /** With fifty found and another one at index, the fifty are what is kept. */
  lemma KeptWhenFull(file: File, index: nat, unique: seq<nat>)
    requires index < |file| && unique == Firsts(file, index) && |unique| == MAX_UNIQUE_RP
    requires IsValid(file[index]) && !Seen(file, unique, file[index])
    ensures Kept(file) == unique
  {
    var all := Firsts(file, |file|);
    FirstsGrow(file, index + 1, |file|);
    assert Firsts(file, index + 1) == unique + [index];
    assert all[..MAX_UNIQUE_RP] == all[..MAX_UNIQUE_RP + 1][..MAX_UNIQUE_RP] == unique;
  }

  lemma SeenIsRemembered(file: File, unique: seq<nat>, seen: seq<seq<Byte>>, rk: Rk)
    requires Remembers(file, unique, seen)
    ensures Seen(file, unique, rk) <==> exists k :: 0 <= k < |seen| && seen[k] == Prefix(rk)
  {
    if Seen(file, unique, rk) {
      var k :| 0 <= k < |unique| && unique[k] < |file| && Prefix(file[unique[k]]) == Prefix(rk);
      assert seen[k] == Prefix(rk);
    }
  }

  /** The search in `seen`. */
  method FindPrefix(seen: seq<seq<Byte>>, prefix: seq<Byte>) returns (found: bool)
    ensures found == exists k :: 0 <= k < |seen| && seen[k] == prefix
  {
    found := false;
    var k := 0;
    while k < |seen|
      invariant k <= |seen| && !found && forall j :: 0 <= j < k ==> seen[j] != prefix
    {
      if seen[k] == prefix {
        return true;
      }
      k := k + 1;
    }
  }

  /** What is left from position k of the list of file f. */
  ghost function LeftFrom(files: seq<File>, f: nat, list: seq<nat>, k: nat): seq<Entry> {
    (if k < |list| then InFile(f, list)[k..] else []) + Listed(files, f + 1)
  }

  lemma LeftNext(files: seq<File>, f: nat, list: seq<nat>, k: nat)
    requires k < |list|
    ensures var left := LeftFrom(files, f, list, k);
      left != [] && left[0] == Entry(f, list[k]) && left[1..] == LeftFrom(files, f, list, k + 1)
  {
    var here := InFile(f, list);
    assert here[k..] == [here[k]] + here[k + 1..];
    assert k + 1 >= |list| ==> here[k + 1..] == [];
    assert LeftFrom(files, f, list, k) == [here[k]] + LeftFrom(files, f, list, k + 1);
  }

  lemma LeftEnd(files: seq<File>, f: nat, list: seq<nat>, k: nat)
    requires k >= |list|
    ensures LeftFrom(files, f, list, k) == Listed(files, f + 1)
  {
  }

  lemma LeftStart(files: seq<File>, f: nat, list: seq<nat>)
    requires f < |files| && list == Kept(files[f])
    ensures LeftFrom(files, f, list, 0) == Listed(files, f)
    ensures list == [] ==> Listed(files, f) == Listed(files, f + 1)
  {
    ListedStep(files, f, list);
    assert InFile(f, list)[0..] == InFile(f, list);
  }

  lemma ListedStep(files: seq<File>, f: nat, list: seq<nat>)
    requires f < |files| && list == Kept(files[f])
    ensures |Listed(files, f)| == |list| + |Listed(files, f + 1)|
    ensures list == [] ==> Listed(files, f) == Listed(files, f + 1)
  {
    assert list == [] ==> InFile(f, list) == [];
  }

  lemma NothingAtAll(files: seq<File>, f: nat)
    requires f >= |files|
    ensures Listed(files, f) == [] && LeftFrom(files, f, [], 0) == []
  {
  }

  /** If nothing is listed from f on, nothing is listed after f. */
  lemma NothingLater(files: seq<File>, f: nat)
    requires Listed(files, f) == []
    ensures LeftFrom(files, f, [], 0) == []
  {
  }

  // ---------- Whole enumerations ----------

  ghost predicate Timely(gap: nat -> nat, n: nat) { forall i :: 0 <= i < n ==> gap(i) <= 30_000 }

  lemma TimelyNext(gap: nat -> nat, n: nat)
    requires Timely(gap, n) && gap(n) <= 30_000
    ensures Timely(gap, n + 1)
  {
  }

  /** With n items to come, `served` of them are returned: those before the first gap above 30 s. */
  ghost predicate InTime(gap: nat -> nat, served: nat, n: nat) {
    && served <= n && (forall i :: 0 <= i < served - 1 ==> gap(i) <= 30_000)
    && (served < n ==> served > 0 && gap(served - 1) > 30_000)
  }

  /** Begin, then get-next until it fails, with any time between the calls. The announced count is the
      number of credentials of the relying party, which are returned in order up to the first gap above
      30 s. Without one, and in a well-formed store, that is each credential stored for it, once. */
  method EnumerateCredentials(files: seq<File>, lookup: Lookup, start: nat, gap: nat -> nat) returns (count: int, result: seq<Rk>)
    requires |files| == MAX_RK_FILES && forall f :: 0 <= f < |files| ==> |files[f]| <= MAX_RKS
    ensures var all := Matching(files[FileOf(lookup)], lookup, 0);
      && |result| <= |all| && result == all[..|result|] && InTime(gap, |result|, |all|)
      && (all != [] ==> count == |all|)
    ensures AllOk(files) && (forall i :: gap(i) <= 30_000) ==> EachOnce(files, lookup, result)
  {
    ghost var all := Matching(files[FileOf(lookup)], lookup, 0);
    var e := new Enumeration(files);
    var ok, rk;
    ok, count, rk := e.CredentialsBegin(lookup, start);
    result := [];
    if ok {
      result := FetchCredentials(e, rk.value, lookup, start, gap, all);
    }
    if AllOk(files) && forall i :: gap(i) <= 30_000 {
      MatchingIsTheTable(files, lookup);
      assert result == all;
    }
  }

  /** The get-next calls after the first record. */
  method FetchCredentials(e: Enumeration, first: Rk, lookup: Lookup, start: nat, gap: nat -> nat, ghost all: seq<Rk>)
    returns (result: seq<Rk>)
    requires all != [] && first == all[0] && e.CredentialsLeft(all[1..], lookup) && e.timestamp == start
    modifies e
    ensures |result| <= |all| && result == all[..|result|] && InTime(gap, |result|, |all|)
  {
    result := [first];
    var now, ok := start, true;
    while ok
      invariant e.Valid() && 0 < |result| <= |all| && result == all[..|result|]
      invariant ok ==> e.CredentialsLeft(all[|result|..], lookup) && e.timestamp == now
      invariant !ok ==> |result| == |all| || gap(|result| - 1) > 30_000
      invariant Timely(gap, |result| - 1)
      decreases |all| - |result|, ok
    {
      now := now + gap(|result| - 1);
      var rk;
      ok, rk := e.CredentialsNext(now, all[|result|..]);
      if ok {
        TimelyNext(gap, |result| - 1);
        assert all[|result|..][1..] == all[|result| + 1..];
        result := result + [rk.value];
      }
    }
  }

  /** The same for relying parties: the announced count is the number of records returned, one for
      each relying party listed, up to the first gap above 30 s. In a well-formed store they are all
      different, and without such a gap none is missing if and only if no file has more than fifty. */
  method EnumerateRps(files: seq<File>, start: nat, gap: nat -> nat) returns (count: nat, result: seq<Rk>)
    requires |files| == MAX_RK_FILES && forall f :: 0 <= f < |files| ==> |files[f]| <= MAX_RKS
    ensures count == |Listed(files, 0)| && InTime(gap, |result|, count)
    ensures Recorded(files, Listed(files, 0)[..|result|], result)
    ensures AllOk(files) ==> NoneTwice(result)
    ensures AllOk(files) && (forall i :: gap(i) <= 30_000) ==> (NoneMissing(files, result) <==> FewPerFile(files))
  {
    ghost var all := Listed(files, 0);
    var e := new Enumeration(files);
    var ok, rk;
    ok, count, rk := e.RpsBegin(start);
    result := [];
    if !ok {
      count := 0;
    } else {
      ListedHasRecords(files, 0);
      result := FetchRps(e, rk.value, start, gap, all);
    }
    if AllOk(files) {
      ListedOnce(files, result);
      if |result| == count {
        assert all[..|all|] == all;
        ResultIsTheList(files, result);
      }
    }
  }

  /** The get-next calls after the first record. */
  method FetchRps(e: Enumeration, first: Rk, start: nat, gap: nat -> nat, ghost all: seq<Entry>) returns (result: seq<Rk>)
    requires all != [] && forall k :: 0 <= k < |all| ==> RecordOf(e.files, all[k]).Some?
    requires RecordOf(e.files, all[0]) == Some(first) && e.RpsLeft(all[1..]) && e.timestamp == start
    modifies e
    ensures |result| <= |all| && Recorded(e.files, all[..|result|], result) && InTime(gap, |result|, |all|)
  {
    result := [first];
    var now, ok := start, true;
    while ok
      invariant e.Valid() && 0 < |result| <= |all| && Recorded(e.files, all[..|result|], result)
      invariant ok ==> e.RpsLeft(all[|result|..]) && e.timestamp == now
      invariant !ok ==> |result| == |all| || gap(|result| - 1) > 30_000
      invariant Timely(gap, |result| - 1)
      decreases |all| - |result|, ok
    {
      now := now + gap(|result| - 1);
      var rk;
      ok, rk := e.RpsNext(now, all[|result|..]);
      if ok {
        TimelyNext(gap, |result| - 1);
        RecordedNext(e.files, all, result, rk.value);
        result := result + [rk.value];
      }
    }
  }

  lemma RecordedNext(files: seq<File>, all: seq<Entry>, result: seq<Rk>, rk: Rk)
    requires |result| < |all| && Recorded(files, all[..|result|], result) && RecordOf(files, all[|result|]) == Some(rk)
    ensures Recorded(files, all[..|result| + 1], result + [rk]) && all[|result|..][1..] == all[|result| + 1..]
  {
    forall k | 0 <= k <= |result| ensures RecordOf(files, all[k]) == Some((result + [rk])[k]) {
      if k < |result| { assert all[..|result|][k] == all[k]; }
    }
  }

  /** No relying party has two records in the result, and only valid records are in it. */
  ghost predicate NoneTwice(result: seq<Rk>) {
    && (forall i :: 0 <= i < |result| ==> result[i].count > 0 && result[i].count != 0xffff_ffff)
    && (forall i, j :: 0 <= i < j < |result| ==> result[i].rp[..8] != result[j].rp[..8])
  }

  /** Every relying party with a valid record has one in the result. */
  ghost predicate NoneMissing(files: seq<File>, result: seq<Rk>) {
    forall f, i {:trigger files[f][i]} :: 0 <= f < |files| && 0 <= i < |files[f]| ==>
      (files[f][i].count > 0 && files[f][i].count != 0xffff_ffff ==> Occurs(files[f][i], result))
  }

  ghost predicate Occurs(rk: Rk, result: seq<Rk>) {
    exists k :: 0 <= k < |result| && result[k].rp[..8] == rk.rp[..8]
  }

  lemma ResultIsTheList(files: seq<File>, result: seq<Rk>)
    requires AllOk(files) && Recorded(files, Listed(files, 0), result)
    ensures NoneMissing(files, result) <==> FewPerFile(files)
  {
    CompleteIffFewPerFile(files);
    forall f, i | 0 <= f < |files| && 0 <= i < |files[f]|
      ensures Occurs(files[f][i], result) <==> HasEntry(files, files[f][i])
    {
      OccursIffEntry(files, files[f][i], result);
    }
  }

  lemma ListedOnce(files: seq<File>, result: seq<Rk>)
    requires AllOk(files) && |result| <= |Listed(files, 0)| && Recorded(files, Listed(files, 0)[..|result|], result)
    ensures NoneTwice(result)
  {
    var all := Listed(files, 0);
    ListedDistinct(files, 0);
    forall i | 0 <= i < |result| ensures IsValid(result[i]) && RecordOf(files, all[i]) == Some(result[i]) {
      assert Good(files, all[i]);
      assert all[..|result|][i] == all[i];
    }
    forall i, j | 0 <= i < j < |result| ensures Prefix(result[i]) != Prefix(result[j]) {
      assert Differ(files, all[i], all[j]);
    }
  }

  lemma OccursIffEntry(files: seq<File>, rk: Rk, result: seq<Rk>)
    requires Recorded(files, Listed(files, 0), result)
    ensures Occurs(rk, result) <==> HasEntry(files, rk)
  {
    var all := Listed(files, 0);
    if Occurs(rk, result) {
      var k :| 0 <= k < |result| && Prefix(result[k]) == Prefix(rk);
      assert Represents(files, all[k], rk);
    }
    if HasEntry(files, rk) {
      var k :| 0 <= k < |all| && Represents(files, all[k], rk);
      assert Prefix(result[k]) == Prefix(rk);
    }
  }

  /** The result holds the records of the entries, one by one. */
  ghost predicate Recorded(files: seq<File>, entries: seq<Entry>, result: seq<Rk>) {
    |entries| == |result| && forall k :: 0 <= k < |result| ==> RecordOf(files, entries[k]) == Some(result[k])
  }

  lemma {:induction false} ListedHasRecords(files: seq<File>, f: nat)
    ensures forall k :: 0 <= k < |Listed(files, f)| ==> RecordOf(files, Listed(files, f)[k]).Some?
    decreases |files| - f
  {
    if f < |files| {
      ListedHasRecords(files, f + 1);
      KeptInBounds(files[f]);
    }
  }
}
