/** What an enumeration of resident keys should list: the credentials of one relying party, and
    one record for each relying party (section 6.8 of CTAP 2.1). */
module RkLists {
  import opened Wrappers
  import opened ByteStrings
  import opened RkFiles
  import opened RkStore

  const MAX_UNIQUE_RP: nat := 50
  const COMPARE_LEN: nat := 8

  // ---------- Credentials of a relying party ----------

  predicate Belongs(rk: Rk, rp: Lookup) { IsValid(rk) && rk.rp == rp }

  /** The credentials of rp from position `from` on, in the order of the file. */
  function Matching(file: File, rp: Lookup, from: nat): seq<Rk>
    decreases |file| - from
  {
    if from >= |file| then []
    else (if Belongs(file[from], rp) then [file[from]] else []) + Matching(file, rp, from + 1)
  }

  function Occurrences(s: seq<Rk>, x: Rk, from: nat): nat
    decreases |s| - from
  {
    if from >= |s| then 0 else (if s[from] == x then 1 else 0) + Occurrences(s, x, from + 1)
  }

  /** The list has each credential of rp as often as the file has it, and nothing else. */
  lemma {:induction false} MatchingIsExact(file: File, rp: Lookup, from: nat, x: Rk)
    ensures Occurrences(Matching(file, rp, from), x, 0) == if Belongs(x, rp) then Occurrences(file, x, from) else 0
    decreases |file| - from
  {
    if from < |file| {
      MatchingIsExact(file, rp, from + 1, x);
      var rest := Matching(file, rp, from + 1);
      if Belongs(file[from], rp) {
        OccurrencesShift(file[from], rest, x, 0);
      } else {
        assert [] + rest == rest;
      }
    }
  }

  lemma {:induction false} OccurrencesShift(y: Rk, s: seq<Rk>, x: Rk, k: nat)
    ensures Occurrences([y] + s, x, k + 1) == Occurrences(s, x, k)
    decreases |s| - k
  {
    if k < |s| { OccurrencesShift(y, s, x, k + 1); }
  }

  /** In a well-formed file no credential occurs twice. */
  lemma {:induction false} NoRepeats(file: File, f: nat, x: Rk, from: nat)
    requires FileOk(file, f)
    ensures Occurrences(file, x, from) <= 1
    decreases |file| - from
  {
    if from < |file| {
      NoRepeats(file, f, x, from + 1);
      if file[from] == x { OnlyOnce(file, f, from, from + 1); }
    }
  }

  lemma {:induction false} OnlyOnce(file: File, f: nat, i: nat, from: nat)
    requires FileOk(file, f) && i < |file| && i < from
    ensures Occurrences(file, file[i], from) == 0
    decreases |file| - from
  {
    if from < |file| {
      assert KeyOf(file[i]) != KeyOf(file[from]);
      OnlyOnce(file, f, i, from + 1);
    }
  }

  lemma {:induction false} OccursIf(file: File, i: nat, from: nat)
    requires from <= i < |file|
    ensures Occurrences(file, file[i], from) > 0
    decreases i - from
  {
    if from < i { OccursIf(file, i, from + 1); }
  }

  lemma {:induction false} OccursOnlyIf(file: File, x: Rk, from: nat)
    requires Occurrences(file, x, from) > 0
    ensures x in file
    decreases |file| - from
  {
    if file[from] != x { OccursOnlyIf(file, x, from + 1); }
  }

  /** The list has every valid credential that is stored for rp exactly once, and nothing else. */
  ghost predicate EachOnce(files: seq<File>, rp: Lookup, result: seq<Rk>) {
    forall x :: Occurrences(result, x, 0) ==
      if x.rp == rp && x.count > 0 && x.count != 0xffff_ffff && InFiles(files, x) then 1 else 0
  }

  lemma MatchingIsTheTable(files: seq<File>, rp: Lookup)
    requires AllOk(files)
    ensures EachOnce(files, rp, Matching(files[FileOf(rp)], rp, 0))
  {
    var f, file := FileOf(rp), files[FileOf(rp)];
    forall x
      ensures Occurrences(Matching(file, rp, 0), x, 0) == if Belongs(x, rp) && InFiles(files, x) then 1 else 0
    {
      MatchingIsExact(file, rp, 0, x);
      NoRepeats(file, f, x, 0);
      if Occurrences(file, x, 0) > 0 {
        OccursOnlyIf(file, x, 0);
        var i :| 0 <= i < |file| && file[i] == x;
        assert files[f][i] == x;
      } else if Belongs(x, rp) && InFiles(files, x) {
        InItsFile(files, x);
        var i :| 0 <= i < |file| && file[i] == x;
        OccursIf(file, i, 0);
      }
    }
  }

  // ---------- Relying parties ----------

  /** Relying parties are told apart by the first eight bytes of the lookup. */
  function Prefix(rk: Rk): seq<Byte> { rk.rp[..COMPARE_LEN] }

  predicate Seen(file: File, list: seq<nat>, rk: Rk) {
    exists k :: 0 <= k < |list| && list[k] < |file| && Prefix(file[list[k]]) == Prefix(rk)
  }

  /** Among the first n records: the valid ones whose relying party did not occur before. */
  function Firsts(file: File, n: nat): seq<nat>
    requires n <= |file|
  {
    if n == 0 then []
    else
      var list := Firsts(file, n - 1);
      if IsValid(file[n - 1]) && !Seen(file, list, file[n - 1]) then list + [n - 1] else list
  }

  lemma {:induction false} FirstsInBounds(file: File, n: nat)
    requires n <= |file|
    ensures forall k :: 0 <= k < |Firsts(file, n)| ==> Firsts(file, n)[k] < n
  {
    if n > 0 { FirstsInBounds(file, n - 1); }
  }

  lemma {:induction false} FirstsGrow(file: File, n: nat, m: nat)
    requires n <= m <= |file|
    ensures |Firsts(file, n)| <= |Firsts(file, m)| && Firsts(file, m)[..|Firsts(file, n)|] == Firsts(file, n)
    decreases m
  {
    if n < m { FirstsGrow(file, n, m - 1); }
  }

  /** No relying party is listed twice. */
  lemma {:induction false} FirstsDistinct(file: File, n: nat)
    requires n <= |file|
    ensures forall k :: 0 <= k < |Firsts(file, n)| ==> Firsts(file, n)[k] < n
    ensures forall i, j :: 0 <= i < j < |Firsts(file, n)| ==> Prefix(file[Firsts(file, n)[i]]) != Prefix(file[Firsts(file, n)[j]])
    ensures forall i :: 0 <= i < |Firsts(file, n)| ==> IsValid(file[Firsts(file, n)[i]])
  {
    if n > 0 { FirstsDistinct(file, n - 1); }
  }

  /** Every relying party with a valid record is listed. */
  lemma {:induction false} FirstsComplete(file: File, n: nat, i: nat)
    requires i < n <= |file| && IsValid(file[i])
    ensures Seen(file, Firsts(file, n), file[i])
  {
    var list, init := Firsts(file, n), Firsts(file, n - 1);
    if i < n - 1 {
      FirstsComplete(file, n - 1, i);
      var k :| 0 <= k < |init| && init[k] < |file| && Prefix(file[init[k]]) == Prefix(file[i]);
      assert list[k] == init[k];
    } else if !Seen(file, init, file[i]) {
      assert list[|init|] == i;
    }
  }

  /** What the authenticator keeps of them: the first fifty. */
  function Kept(file: File): seq<nat> {
    var all := Firsts(file, |file|);
    if |all| <= MAX_UNIQUE_RP then all else all[..MAX_UNIQUE_RP]
  }

  lemma KeptInBounds(file: File)
    ensures forall k :: 0 <= k < |Kept(file)| ==> Kept(file)[k] < |file|
    ensures |Kept(file)| <= MAX_UNIQUE_RP
  {
    FirstsInBounds(file, |file|);
  }

  datatype Entry = Entry(file: nat, index: nat)

  function InFile(f: nat, list: seq<nat>): seq<Entry> {
    seq(|list|, i requires 0 <= i < |list| => Entry(f, list[i]))
  }

  /** One entry for each relying party kept, file by file from f on. */
  function Listed(files: seq<File>, f: nat): seq<Entry>
    decreases |files| - f
  {
    if f >= |files| then [] else InFile(f, Kept(files[f])) + Listed(files, f + 1)
  }

  function RecordOf(files: seq<File>, e: Entry): Option<Rk> {
    if e.file < |files| && e.index < |files[e.file]| then Some(files[e.file][e.index]) else None
  }

  /** The entry points to a record of the same relying party. */
  predicate Represents(files: seq<File>, e: Entry, rk: Rk) {
    RecordOf(files, e).Some? && Prefix(RecordOf(files, e).value) == Prefix(rk)
  }

  ghost predicate Good(files: seq<File>, e: Entry) {
    RecordOf(files, e).Some? && IsValid(RecordOf(files, e).value)
  }

  ghost predicate Differ(files: seq<File>, e: Entry, e': Entry) {
    RecordOf(files, e').Some? && !Represents(files, e, RecordOf(files, e').value)
  }

  /** The entries are valid records of different relying parties. */
  ghost predicate AllDiffer(files: seq<File>, r: seq<Entry>) {
    && (forall i {:trigger Good(files, r[i])} :: 0 <= i < |r| ==> Good(files, r[i]))
    && (forall i, j {:trigger Differ(files, r[i], r[j])} :: 0 <= i < j < |r| ==> Differ(files, r[i], r[j]))
  }

  lemma KeptDiffer(files: seq<File>, f: nat)
    requires f < |files|
    ensures AllDiffer(files, InFile(f, Kept(files[f])))
  {
    FirstsDistinct(files[f], |files[f]|);
    var list, r := Kept(files[f]), InFile(f, Kept(files[f]));
    forall i | 0 <= i < |r| ensures Good(files, r[i]) {
      assert list[i] == Firsts(files[f], |files[f]|)[i];
    }
    forall i, j | 0 <= i < j < |r| ensures Differ(files, r[i], r[j]) {
      assert list[i] == Firsts(files[f], |files[f]|)[i] && list[j] == Firsts(files[f], |files[f]|)[j];
    }
  }

  lemma JoinDiffer(files: seq<File>, f: nat, here: seq<Entry>, rest: seq<Entry>)
    requires AllOk(files) && AllDiffer(files, here) && AllDiffer(files, rest)
    requires (forall i :: 0 <= i < |here| ==> here[i].file == f) && (forall i :: 0 <= i < |rest| ==> rest[i].file > f)
    ensures AllDiffer(files, here + rest)
  {
    var r := here + rest;
    forall i | 0 <= i < |r| ensures Good(files, r[i]) {
      assert if i < |here| then Good(files, here[i]) else Good(files, rest[i - |here|]);
    }
    forall i, j | 0 <= i < j < |r| ensures Differ(files, r[i], r[j]) {
      if j < |here| {
        assert Differ(files, here[i], here[j]);
      } else if i >= |here| {
        assert Differ(files, rest[i - |here|], rest[j - |here|]);
      } else {
        assert Good(files, here[i]) && Good(files, rest[j - |here|]);
        DifferentFiles(RecordOf(files, here[i]).value, RecordOf(files, rest[j - |here|]).value);
      }
    }
  }

  lemma {:induction false} ListedLater(files: seq<File>, f: nat)
    ensures forall k :: 0 <= k < |Listed(files, f)| ==> f <= Listed(files, f)[k].file < |files|
    decreases |files| - f
  {
    if f < |files| { ListedLater(files, f + 1); }
  }

  /** No relying party is listed twice, in one file or in two. */
  lemma {:induction false} ListedDistinct(files: seq<File>, f: nat)
    requires AllOk(files)
    ensures AllDiffer(files, Listed(files, f))
    decreases |files| - f
  {
    if f < |files| {
      ListedDistinct(files, f + 1);
      KeptDiffer(files, f);
      ListedLater(files, f + 1);
      JoinDiffer(files, f, InFile(f, Kept(files[f])), Listed(files, f + 1));
    }
  }

  lemma DifferentFiles(a: Rk, b: Rk)
    requires FileOf(a.rp) != FileOf(b.rp)
    ensures Prefix(a) != Prefix(b)
  {
    assert Prefix(a)[0] == a.rp[0] && Prefix(b)[0] == b.rp[0];
  }

  /** A relying party with a valid record has an entry. */
  ghost predicate HasEntry(files: seq<File>, rk: Rk) {
    exists k :: 0 <= k < |Listed(files, 0)| && Represents(files, Listed(files, 0)[k], rk)
  }

  ghost predicate Complete(files: seq<File>) {
    forall f, i {:trigger files[f][i]} :: 0 <= f < |files| && 0 <= i < |files[f]| && IsValid(files[f][i]) ==>
      HasEntry(files, files[f][i])
  }

  /** The relying parties with valid records among the first n of a file, by eight bytes of the lookup. */
  ghost function Parties(file: File, n: nat): set<seq<Byte>>
    requires n <= |file|
  {
    set i | 0 <= i < n && file[i].count > 0 && file[i].count != 0xffff_ffff :: file[i].rp[..8]
  }

  ghost predicate FewPerFile(files: seq<File>) {
    forall f {:trigger files[f]} :: 0 <= f < |files| ==> |Parties(files[f], |files[f]|)| <= 50
  }

  /** There is one first record for each. */
  lemma {:induction false} FirstsCount(file: File, n: nat)
    requires n <= |file|
    ensures |Firsts(file, n)| == |Parties(file, n)|
  {
    if n == 0 {
      assert Parties(file, n) == {};
    } else {
      FirstsCount(file, n - 1);
      PartiesNext(file, n);
      FirstsNext(file, n);
    }
  }

  lemma FirstsNext(file: File, n: nat)
    requires 0 < n <= |file|
    ensures |Firsts(file, n)| == |Firsts(file, n - 1)| +
      if IsValid(file[n - 1]) && Prefix(file[n - 1]) !in Parties(file, n - 1) then 1 else 0
  {
    SeenIsParty(file, n - 1, file[n - 1]);
  }

  lemma PartiesNext(file: File, n: nat)
    requires 0 < n <= |file|
    ensures |Parties(file, n)| == |Parties(file, n - 1)| +
      if IsValid(file[n - 1]) && Prefix(file[n - 1]) !in Parties(file, n - 1) then 1 else 0
  {
    var before, p := Parties(file, n - 1), Prefix(file[n - 1]);
    assert Parties(file, n) == if IsValid(file[n - 1]) then before + {p} else before;
    if p in before { assert before + {p} == before; }
  }

  lemma SeenIsParty(file: File, n: nat, rk: Rk)
    requires n <= |file|
    ensures Seen(file, Firsts(file, n), rk) <==> Prefix(rk) in Parties(file, n)
  {
    FirstsDistinct(file, n);
    if Prefix(rk) in Parties(file, n) {
      var i :| 0 <= i < n && IsValid(file[i]) && Prefix(file[i]) == Prefix(rk);
      FirstsComplete(file, n, i);
    }
  }

  lemma {:induction false} ListedHas(files: seq<File>, f: nat, g: nat, k: nat)
    requires f <= g < |files| && k < |Kept(files[g])|
    ensures Entry(g, Kept(files[g])[k]) in Listed(files, f)
    decreases g - f
  {
    var here, rest := InFile(f, Kept(files[f])), Listed(files, f + 1);
    if f == g {
      assert (here + rest)[k] == here[k];
    } else {
      ListedHas(files, f + 1, g, k);
      var m :| 0 <= m < |rest| && rest[m] == Entry(g, Kept(files[g])[k]);
      assert (here + rest)[|here| + m] == rest[m];
    }
  }

  lemma {:induction false} ListedFrom(files: seq<File>, f: nat, k: nat)
    requires k < |Listed(files, f)|
    ensures var e := Listed(files, f)[k]; e.file < |files| && e.index in Kept(files[e.file])
    decreases |files| - f
  {
    var here := InFile(f, Kept(files[f]));
    if k >= |here| {
      assert Listed(files, f)[k] == Listed(files, f + 1)[k - |here|];
      ListedFrom(files, f + 1, k - |here|);
    }
  }

  /** Every relying party has an entry if and only if no file has more than fifty of them. */
  lemma CompleteIffFewPerFile(files: seq<File>)
    requires AllOk(files)
    ensures Complete(files) <==> FewPerFile(files)
  {
    forall f | 0 <= f < |files| ensures |Firsts(files[f], |files[f]|)| == |Parties(files[f], |files[f]|)| {
      FirstsCount(files[f], |files[f]|);
    }
    if FewPerFile(files) {
      forall f, i | 0 <= f < |files| && 0 <= i < |files[f]| && IsValid(files[f][i])
        ensures HasEntry(files, files[f][i])
      {
        EntryIfFew(files, f, i);
      }
    } else {
      var f :| 0 <= f < |files| && |Firsts(files[f], |files[f]|)| > MAX_UNIQUE_RP;
      Forgotten(files, f);
    }
  }

  lemma EntryIfFew(files: seq<File>, f: nat, i: nat)
    requires f < |files| && i < |files[f]| && IsValid(files[f][i]) && |Firsts(files[f], |files[f]|)| <= MAX_UNIQUE_RP
    ensures HasEntry(files, files[f][i])
  {
    var file := files[f];
    FirstsComplete(file, |file|, i);
    var k :| 0 <= k < |Kept(file)| && Kept(file)[k] < |file| && Prefix(file[Kept(file)[k]]) == Prefix(file[i]);
    ListedHas(files, 0, f, k);
    var m :| 0 <= m < |Listed(files, 0)| && Listed(files, 0)[m] == Entry(f, Kept(file)[k]);
    assert Represents(files, Listed(files, 0)[m], file[i]);
  }

  /** The fifty-first relying party of a file has no entry. */
  lemma Forgotten(files: seq<File>, f: nat)
    requires AllOk(files) && f < |files| && |Firsts(files[f], |files[f]|)| > MAX_UNIQUE_RP
    ensures !Complete(files)
  {
    var file := files[f];
    var all := Firsts(file, |file|);
    var i := all[MAX_UNIQUE_RP];
    FirstsDistinct(file, |file|);
    forall k | 0 <= k < |Listed(files, 0)|
      ensures !Represents(files, Listed(files, 0)[k], file[i])
    {
      var e := Listed(files, 0)[k];
      ListedFrom(files, 0, k);
      if e.file != f {
        KeptInBounds(files[e.file]);
        DifferentFiles(files[e.file][e.index], file[i]);
      } else {
        var m :| 0 <= m < |Kept(file)| && Kept(file)[m] == e.index;
        assert Prefix(file[all[m]]) != Prefix(file[all[MAX_UNIQUE_RP]]);
      }
    }
    assert IsValid(files[f][i]);
  }

  // ---------- A file with too many ----------

  /** The i-th of records that all have different relying parties. */
  function Distinct(i: nat): Rk
    requires i < 256
  {
    Rk([0, i] + seq(14, _ => 0), seq(16, _ => 0), i, 1, [], 0)
  }

  function Crowd(n: nat): (file: File)
    requires n <= 256
    ensures |file| == n
  {
    seq(n, i requires 0 <= i < n => Distinct(i))
  }

  lemma DistinctPrefix(i: nat, j: nat)
    requires i < 256 && j < 256 && i != j
    ensures Prefix(Distinct(i)) != Prefix(Distinct(j)) && KeyOf(Distinct(i)) != KeyOf(Distinct(j))
  {
    assert Distinct(i).rp[1] == i && Distinct(j).rp[1] == j;
    assert Prefix(Distinct(i))[1] == i && Prefix(Distinct(j))[1] == j;
  }

  lemma {:induction false} CrowdFirsts(n: nat, k: nat)
    requires k <= n <= 256
    ensures |Firsts(Crowd(n), k)| == k && forall m :: 0 <= m < k ==> Firsts(Crowd(n), k)[m] == m
    decreases k
  {
    if k > 0 {
      CrowdFirsts(n, k - 1);
      var file, list := Crowd(n), Firsts(Crowd(n), k - 1);
      forall m | 0 <= m < |list| ensures Prefix(file[list[m]]) != Prefix(file[k - 1]) {
        DistinctPrefix(m, k - 1);
      }
    }
  }

  lemma CrowdOk(n: nat)
    requires n <= 256
    ensures FileOk(Crowd(n), 0)
  {
    var file := Crowd(n);
    forall i | 0 <= i < n ensures FileOf(file[i].rp) == 0 {
      assert file[i].rp[0] == 0;
    }
    forall i, j | 0 <= i < j < n ensures KeyOf(file[i]) != KeyOf(file[j]) {
      DistinctPrefix(i, j);
    }
  }

  /** A store of 51 records, all in place and distinct, of which one relying party is not listed. */
  lemma FiftyFirstForgotten() returns (files: seq<File>)
    ensures AllOk(files) && Total(files, MAX_RK_FILES) == 51 <= MAX_RKS && !Complete(files)
  {
    var empty: seq<File> := seq(MAX_RK_FILES, _ => []);
    var file := Crowd(51);
    files := empty[0 := file];
    EmptyTotal(empty, MAX_RK_FILES);
    TotalUpdate(empty, 0, file, MAX_RK_FILES);
    CrowdOk(51);
    CrowdFirsts(51, 51);
    Forgotten(files, 0);
  }
}
