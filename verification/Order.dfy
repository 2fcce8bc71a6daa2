/** Comparison functions, ranges of a sequence, and rearrangements of a range. */
module Order {

  /** Marks a pair or triple of values at which the laws of an ordering may be used. */
  predicate At<T>(x: T, y: T, z: T) { true }

  predicate Le<T>(cmp: (T, T) -> int, x: T, y: T) { cmp(x, y) <= 0 }

  /** What qsort demands of its comparison: a total preorder. */
  ghost predicate TotalPreorder<T(!new)>(cmp: (T, T) -> int) {
    && (forall x, y, z {:trigger At(x, y, z)} :: At(x, y, z) ==> (cmp(x, y) < 0 <==> cmp(y, x) > 0))
    && (forall x, y, z {:trigger At(x, y, z)} :: At(x, y, z) ==> (Le(cmp, x, y) && Le(cmp, y, z) ==> Le(cmp, x, z)))
  }

  lemma Flip<T(!new)>(cmp: (T, T) -> int, x: T, y: T)
    requires TotalPreorder(cmp)
    ensures cmp(x, y) < 0 <==> cmp(y, x) > 0
    ensures cmp(x, y) == 0 <==> cmp(y, x) == 0
  {
    assert At(x, y, x) && At(y, x, y);
  }

  lemma Trans<T(!new)>(cmp: (T, T) -> int, x: T, y: T, z: T)
    requires TotalPreorder(cmp) && Le(cmp, x, y) && Le(cmp, y, z)
    ensures Le(cmp, x, z)
  {
    assert At(x, y, z);
  }

  ghost predicate Sorted<T>(s: seq<T>, lo: nat, hi: nat, cmp: (T, T) -> int) {
    hi <= |s| && forall i, j {:trigger Le(cmp, s[i], s[j])} :: lo <= i < j < hi ==> Le(cmp, s[i], s[j])
  }

  /** Between lo and hi, nothing before c is greater than anything from c on. */
  ghost predicate Cut<T>(s: seq<T>, lo: nat, hi: nat, c: nat, cmp: (T, T) -> int) {
    hi <= |s| && forall i, j {:trigger Le(cmp, s[i], s[j])} :: lo <= i < c <= j < hi ==> Le(cmp, s[i], s[j])
  }

  /** How often x occurs between lo and hi. */
  ghost function Count<T>(s: seq<T>, lo: nat, hi: nat, x: T): nat
    requires hi <= |s|
  {
    if hi <= lo then 0 else Count(s, lo, hi - 1, x) + Is(s[hi - 1], x)
  }

  ghost function Is<T>(y: T, x: T): nat { if y == x then 1 else 0 }

  lemma {:induction false} CountIsMultiset<T>(s: seq<T>, hi: nat, x: T)
    requires hi <= |s|
    ensures Count(s, 0, hi, x) == multiset(s[..hi])[x]
  {
    if hi > 0 {
      CountIsMultiset(s, hi - 1, x);
      assert s[..hi] == s[..hi - 1] + [s[hi - 1]];
    }
  }

  lemma {:induction false} CountSplit<T>(s: seq<T>, lo: nat, mid: nat, hi: nat, x: T)
    requires lo <= mid <= hi <= |s|
    ensures Count(s, lo, hi, x) == Count(s, lo, mid, x) + Count(s, mid, hi, x)
    decreases hi
  {
    if mid < hi { CountSplit(s, lo, mid, hi - 1, x); }
  }

  lemma {:induction false} CountSame<T>(s: seq<T>, t: seq<T>, lo: nat, hi: nat, x: T)
    requires hi <= |s| == |t| && forall i :: lo <= i < hi ==> s[i] == t[i]
    ensures Count(s, lo, hi, x) == Count(t, lo, hi, x)
  {
    if lo < hi { CountSame(s, t, lo, hi - 1, x); }
  }

  lemma {:induction false} CountUpdate<T>(s: seq<T>, lo: nat, hi: nat, i: nat, y: T, x: T)
    requires lo <= i < hi <= |s|
    ensures Count(s[i := y], lo, hi, x) + Is(s[i], x) == Count(s, lo, hi, x) + Is(y, x)
  {
    if i < hi - 1 {
      CountUpdate(s, lo, hi - 1, i, y, x);
    } else {
      CountSame(s, s[i := y], lo, hi - 1, x);
    }
  }

  lemma {:induction false} CountPositive<T>(s: seq<T>, lo: nat, hi: nat, i: nat)
    requires lo <= i < hi <= |s|
    ensures Count(s, lo, hi, s[i]) > 0
  {
    if i < hi - 1 { CountPositive(s, lo, hi - 1, i); }
  }

  lemma {:induction false} Find<T>(s: seq<T>, lo: nat, hi: nat, x: T) returns (k: nat)
    requires hi <= |s| && Count(s, lo, hi, x) > 0
    ensures lo <= k < hi && s[k] == x
  {
    if x == s[hi - 1] {
      k := hi - 1;
    } else {
      k := Find(s, lo, hi - 1, x);
    }
  }

  /** t rearranges s between lo and hi and equals it elsewhere. */
  ghost predicate Shuffled<T(!new)>(s: seq<T>, t: seq<T>, lo: nat, hi: nat) {
    && |s| == |t| && lo <= hi <= |s|
    && (forall x :: Count(s, lo, hi, x) == Count(t, lo, hi, x))
    && (forall i :: 0 <= i < lo || hi <= i < |s| ==> s[i] == t[i])
  }

  lemma ShuffledTrans<T(!new)>(s: seq<T>, t: seq<T>, u: seq<T>, lo: nat, hi: nat)
    requires Shuffled(s, t, lo, hi) && Shuffled(t, u, lo, hi)
    ensures Shuffled(s, u, lo, hi)
  {
  }

  lemma ShuffledWiden<T(!new)>(s: seq<T>, t: seq<T>, lo: nat, hi: nat, lo': nat, hi': nat)
    requires Shuffled(s, t, lo, hi) && lo' <= lo && hi <= hi' <= |s|
    ensures Shuffled(s, t, lo', hi')
  {
    forall x ensures Count(s, lo', hi', x) == Count(t, lo', hi', x) {
      CountSplit(s, lo', lo, hi', x);
      CountSplit(t, lo', lo, hi', x);
      CountSplit(s, lo, hi, hi', x);
      CountSplit(t, lo, hi, hi', x);
      CountSame(s, t, lo', lo, x);
      CountSame(s, t, hi, hi', x);
    }
  }

  lemma SwapShuffles<T(!new)>(s: seq<T>, i: nat, j: nat, lo: nat, hi: nat)
    requires lo <= i < hi <= |s| && lo <= j < hi
    ensures Shuffled(s, s[i := s[j]][j := s[i]], lo, hi)
  {
    forall x ensures Count(s, lo, hi, x) == Count(s[i := s[j]][j := s[i]], lo, hi, x) {
      CountUpdate(s, lo, hi, i, s[j], x);
      CountUpdate(s[i := s[j]], lo, hi, j, s[i], x);
    }
  }

  lemma ShuffledIsPermutation<T(!new)>(s: seq<T>, t: seq<T>)
    requires Shuffled(s, t, 0, |s|)
    ensures multiset(s) == multiset(t)
  {
    assert s[..|s|] == s && t[..|t|] == t;
    forall x ensures multiset(s)[x] == multiset(t)[x] {
      CountIsMultiset(s, |s|, x);
      CountIsMultiset(t, |t|, x);
    }
  }

  /** Where the element at i comes from. */
  lemma CameFrom<T(!new)>(s: seq<T>, t: seq<T>, lo: nat, hi: nat, i: nat) returns (k: nat)
    requires Shuffled(s, t, lo, hi) && i < |t|
    ensures k < |s| && t[i] == s[k]
    ensures if lo <= i < hi then lo <= k < hi else k == i
  {
    if lo <= i < hi {
      CountPositive(t, lo, hi, i);
      k := Find(s, lo, hi, t[i]);
    } else {
      k := i;
    }
  }

  /** A rearrangement on one side of a cut keeps it. */
  lemma CutKept<T(!new)>(s: seq<T>, t: seq<T>, lo: nat, hi: nat, cmp: (T, T) -> int, first: nat, last: nat, c: nat)
    requires Shuffled(s, t, lo, hi) && first <= lo && hi <= last && Cut(s, first, last, c, cmp) && (c <= lo || hi <= c)
    ensures Cut(t, first, last, c, cmp)
  {
    forall i, j | first <= i < c <= j < last
      ensures Le(cmp, t[i], t[j])
    {
      var k := CameFrom(s, t, lo, hi, i);
      var m := CameFrom(s, t, lo, hi, j);
      assert Le(cmp, s[k], s[m]);
    }
  }

  /** Cuts at the ends of a range and a cut inside it make a cut of the whole. */
  lemma CutInside<T>(s: seq<T>, lo: nat, hi: nat, c: nat, cmp: (T, T) -> int, first: nat, last: nat)
    requires first <= lo <= c <= hi <= last && Cut(s, lo, hi, c, cmp)
    requires Cut(s, first, last, lo, cmp) && Cut(s, first, last, hi, cmp)
    ensures Cut(s, first, last, c, cmp)
  {
  }
}
