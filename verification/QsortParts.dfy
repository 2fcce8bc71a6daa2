/** qsort of targets/tkey/libc/newlib/libc/search/qsort.c: the four-range partition of Bentley
    and McIlroy with an explicit stack of postponed ranges. Elements are moved whole. */
module QsortParts {
  import opened Order

  const PARAMETER_STACK_LEVELS: nat := 8

  method Swap<T(!new)>(a: array<T>, i: nat, j: nat, ghost lo: nat, ghost hi: nat)
    requires lo <= i < hi <= a.Length && lo <= j < hi
    modifies a
    ensures a[..] == old(a[..])[i := old(a[j])][j := old(a[i])]
    ensures Shuffled(old(a[..]), a[..], lo, hi)
  {
    SwapShuffles(a[..], i, j, lo, hi);
    a[i], a[j] := a[j], a[i];
  }

  /** t is s with the blocks of r elements at i and at j exchanged. */
  ghost predicate Exchanged<T>(s: seq<T>, t: seq<T>, i: nat, j: nat, r: nat) {
    && |s| == |t| && i + r <= j && j + r <= |s|
    && (forall k :: i <= k < i + r ==> t[k] == s[k + (j - i)])
    && (forall k :: j <= k < j + r ==> t[k] == s[k - (j - i)])
    && (forall k :: 0 <= k < |s| && !(i <= k < i + r) && !(j <= k < j + r) ==> t[k] == s[k])
  }

  /** vecswap: exchange two blocks of r elements that do not overlap. */
  method VecSwap<T(!new)>(a: array<T>, i: nat, j: nat, r: nat, ghost lo: nat, ghost hi: nat)
    requires lo <= i && i + r <= j && j + r <= hi <= a.Length
    modifies a
    ensures Exchanged(old(a[..]), a[..], i, j, r) && Shuffled(old(a[..]), a[..], lo, hi)
  {
    var k := 0;
    while k < r
      invariant k <= r
      invariant Exchanged(old(a[..]), a[..], i, j, k) && Shuffled(old(a[..]), a[..], lo, hi)
    {
      ghost var before := a[..];
      Swap(a, i + k, j + k, lo, hi);
      ShuffledTrans(old(a[..]), before, a[..], lo, hi);
      assert a[..] == before[i + k := before[j + k]][j + k := before[i + k]];
      k := k + 1;
    }
  }

  // ---------- Insertion sort ----------

  /** Sorted up to pm, except that the element at pl may be smaller than those before it. */
  ghost predicate Sinking<T>(s: seq<T>, lo: nat, pl: nat, pm: nat, cmp: (T, T) -> int) {
    && lo <= pl <= pm < |s|
    && forall i, j {:trigger Le(cmp, s[i], s[j])} :: lo <= i < j <= pm && j != pl ==> Le(cmp, s[i], s[j])
  }

  lemma SinkStep<T(!new)>(s: seq<T>, t: seq<T>, lo: nat, pl: nat, pm: nat, cmp: (T, T) -> int)
    requires TotalPreorder(cmp) && Sinking(s, lo, pl, pm, cmp) && lo < pl && cmp(s[pl - 1], s[pl]) > 0
    requires t == s[pl := s[pl - 1]][pl - 1 := s[pl]]
    ensures Sinking(t, lo, pl - 1, pm, cmp)
  {
    Flip(cmp, s[pl], s[pl - 1]);
    forall i, j | lo <= i < j <= pm && j != pl - 1
      ensures Le(cmp, t[i], t[j])
    {
      if j == pl {
        assert i < pl - 1 ==> Le(cmp, s[i], s[pl - 1]);
      } else if i == pl {
        assert Le(cmp, s[pl - 1], s[j]);
      } else if i == pl - 1 {
        assert Le(cmp, s[pl], s[j]);
      } else {
        assert Le(cmp, s[i], s[j]);
      }
    }
  }

  lemma SinkDone<T(!new)>(s: seq<T>, lo: nat, pl: nat, pm: nat, cmp: (T, T) -> int)
    requires TotalPreorder(cmp) && Sinking(s, lo, pl, pm, cmp) && (pl == lo || Le(cmp, s[pl - 1], s[pl]))
    ensures Sorted(s, lo, pm + 1, cmp)
  {
    forall i, j | lo <= i < j < pm + 1
      ensures Le(cmp, s[i], s[j])
    {
      if j == pl && i < pl - 1 {
        Trans(cmp, s[i], s[pl - 1], s[pl]);
      }
    }
  }

  /** The inner loop: the element at pm sinks to its place. */
  method Sink<T(!new)>(a: array<T>, lo: nat, pm: nat, cmp: (T, T) -> int, ghost hi: nat)
    requires TotalPreorder(cmp) && lo <= pm < hi <= a.Length && Sorted(a[..], lo, pm, cmp)
    modifies a
    ensures Sorted(a[..], lo, pm + 1, cmp) && Shuffled(old(a[..]), a[..], lo, hi)
  {
    var pl: nat := pm;
    while pl > lo && cmp(a[pl - 1], a[pl]) > 0
      invariant Sinking(a[..], lo, pl, pm, cmp) && Shuffled(old(a[..]), a[..], lo, hi)
      decreases pl
    {
      ghost var before := a[..];
      Swap(a, pl, pl - 1, lo, hi);
      SinkStep(before, a[..], lo, pl, pm, cmp);
      ShuffledTrans(old(a[..]), before, a[..], lo, hi);
      pl := pl - 1;
    }
    SinkDone(a[..], lo, pl, pm, cmp);
  }

  /** The insertion sort of short ranges and of ranges that needed no swap. */
  method InsertionSort<T(!new)>(a: array<T>, lo: nat, n: nat, cmp: (T, T) -> int)
    requires TotalPreorder(cmp) && lo + n <= a.Length
    modifies a
    ensures Sorted(a[..], lo, lo + n, cmp) && Shuffled(old(a[..]), a[..], lo, lo + n)
  {
    var pm := lo + 1;
    while pm < lo + n
      invariant lo < pm && (pm <= lo + n || n == 0)
      invariant n > 0 ==> Sorted(a[..], lo, pm, cmp)
      invariant Shuffled(old(a[..]), a[..], lo, lo + n)
    {
      ghost var before := a[..];
      Sink(a, lo, pm, cmp, lo + n);
      ShuffledTrans(old(a[..]), before, a[..], lo, lo + n);
      pm := pm + 1;
    }
  }

  // ---------- The pivot ----------

  /** med3: the index of the median of three. */
  function Med3<T>(s: seq<T>, a: nat, b: nat, c: nat, cmp: (T, T) -> int): (m: nat)
    requires a < |s| && b < |s| && c < |s|
    ensures m == a || m == b || m == c
  {
    if cmp(s[a], s[b]) < 0 then
      if cmp(s[b], s[c]) < 0 then b else if cmp(s[a], s[c]) < 0 then c else a
    else
      if cmp(s[b], s[c]) > 0 then b else if cmp(s[a], s[c]) < 0 then a else c
  }

  predicate Between<T>(x: T, y: T, z: T, cmp: (T, T) -> int) {
    (Le(cmp, x, y) && Le(cmp, y, z)) || (Le(cmp, z, y) && Le(cmp, y, x))
  }

  /** The element med3 picks lies between the other two. */
  lemma Med3IsMedian<T(!new)>(s: seq<T>, a: nat, b: nat, c: nat, cmp: (T, T) -> int)
    requires TotalPreorder(cmp) && a < |s| && b < |s| && c < |s|
    ensures var m := Med3(s, a, b, c, cmp);
      || (m == a && Between(s[b], s[a], s[c], cmp))
      || (m == b && Between(s[a], s[b], s[c], cmp))
      || (m == c && Between(s[a], s[c], s[b], cmp))
  {
    Flip(cmp, s[a], s[b]);
    Flip(cmp, s[b], s[c]);
    Flip(cmp, s[a], s[c]);
  }

  /** Median of three, or of three medians of three for long ranges. */
  method ChoosePivot<T(!new)>(a: array<T>, lo: nat, n: nat, cmp: (T, T) -> int) returns (pm: nat)
    requires 7 <= n && lo + n <= a.Length
    ensures lo <= pm < lo + n
  {
    pm := lo + n / 2;
    if n > 7 {
      var pl, pn := lo, lo + n - 1;
      if n > 40 {
        var d := n / 8;
        pl := Med3(a[..], pl, pl + d, pl + 2 * d, cmp);
        pm := Med3(a[..], pm - d, pm, pm + d, cmp);
        pn := Med3(a[..], pn - 2 * d, pn - d, pn, cmp);
      }
      pm := Med3(a[..], pl, pm, pn, cmp);
    }
  }

  // ---------- The partition ----------

  /** Four ranges around the unscanned middle [pb, pc]: equal, less, greater and equal to the
      pivot at lo. */
  ghost predicate Ranges<T>(s: seq<T>, lo: nat, hi: nat, pa: nat, pb: nat, pc: nat, pd: nat, cmp: (T, T) -> int) {
    && lo < pa <= pb <= pc + 1 && pc <= pd < hi <= |s|
    && (forall i :: lo < i < pa ==> cmp(s[i], s[lo]) == 0)
    && (forall i :: pa <= i < pb ==> cmp(s[i], s[lo]) < 0)
    && (forall i :: pc < i <= pd ==> cmp(s[i], s[lo]) > 0)
    && (forall i :: pd < i < hi ==> cmp(s[i], s[lo]) == 0)
  }

  lemma EqualToTheLeft<T>(s: seq<T>, t: seq<T>, lo: nat, hi: nat, pa: nat, pb: nat, pc: nat, pd: nat, cmp: (T, T) -> int)
    requires Ranges(s, lo, hi, pa, pb, pc, pd, cmp) && pb <= pc && cmp(s[pb], s[lo]) == 0
    requires t == s[pa := s[pb]][pb := s[pa]]
    ensures Ranges(t, lo, hi, pa + 1, pb + 1, pc, pd, cmp)
  {
    assert t[lo] == s[lo];
  }

  lemma EqualToTheRight<T>(s: seq<T>, t: seq<T>, lo: nat, hi: nat, pa: nat, pb: nat, pc: nat, pd: nat, cmp: (T, T) -> int)
    requires Ranges(s, lo, hi, pa, pb, pc, pd, cmp) && pb <= pc && cmp(s[pc], s[lo]) == 0
    requires t == s[pc := s[pd]][pd := s[pc]]
    ensures Ranges(t, lo, hi, pa, pb, pc - 1, pd - 1, cmp)
    ensures pb < pc ==> t[pb] == s[pb]
  {
    assert t[lo] == s[lo];
  }

  /** Scan to the right over elements not greater than the pivot; equal ones go to the left end. */
  method ScanRight<T(!new)>(a: array<T>, lo: nat, hi: nat, cmp: (T, T) -> int, pa0: nat, pb0: nat, pc: nat, pd: nat)
    returns (pa: nat, pb: nat, swapped: bool)
    requires hi <= a.Length && Ranges(a[..], lo, hi, pa0, pb0, pc, pd, cmp)
    modifies a
    ensures Ranges(a[..], lo, hi, pa, pb, pc, pd, cmp) && Shuffled(old(a[..]), a[..], lo, hi)
    ensures pb0 <= pb && (pb <= pc ==> cmp(a[pb], a[lo]) > 0)
  {
    pa, pb, swapped := pa0, pb0, false;
    while pb <= pc && cmp(a[pb], a[lo]) <= 0
      invariant pb0 <= pb && Ranges(a[..], lo, hi, pa, pb, pc, pd, cmp) && Shuffled(old(a[..]), a[..], lo, hi)
    {
      if cmp(a[pb], a[lo]) == 0 {
        swapped := true;
        ghost var before := a[..];
        Swap(a, pa, pb, lo, hi);
        ShuffledTrans(old(a[..]), before, a[..], lo, hi);
        EqualToTheLeft(before, a[..], lo, hi, pa, pb, pc, pd, cmp);
        pa := pa + 1;
      }
      pb := pb + 1;
    }
  }

  /** Scan to the left over elements not less than the pivot; equal ones go to the right end. */
  method ScanLeft<T(!new)>(a: array<T>, lo: nat, hi: nat, cmp: (T, T) -> int, pa: nat, pb: nat, pc0: nat, pd0: nat)
    returns (pc: nat, pd: nat, swapped: bool)
    requires hi <= a.Length && Ranges(a[..], lo, hi, pa, pb, pc0, pd0, cmp)
    requires pb <= pc0 ==> cmp(a[pb], a[lo]) > 0
    modifies a
    ensures Ranges(a[..], lo, hi, pa, pb, pc, pd, cmp) && Shuffled(old(a[..]), a[..], lo, hi)
    ensures pc <= pc0 && (pb <= pc ==> cmp(a[pc], a[lo]) < 0)
    ensures pb <= pc ==> cmp(a[pb], a[lo]) > 0
  {
    pc, pd, swapped := pc0, pd0, false;
    while pb <= pc && cmp(a[pc], a[lo]) >= 0
      invariant pc <= pc0 && Ranges(a[..], lo, hi, pa, pb, pc, pd, cmp) && Shuffled(old(a[..]), a[..], lo, hi)
      invariant pb <= pc ==> cmp(a[pb], a[lo]) > 0
      decreases pc
    {
      if cmp(a[pc], a[lo]) == 0 {
        swapped := true;
        ghost var before := a[..];
        Swap(a, pc, pd, lo, hi);
        ShuffledTrans(old(a[..]), before, a[..], lo, hi);
        EqualToTheRight(before, a[..], lo, hi, pa, pb, pc, pd, cmp);
        pd := pd - 1;
      }
      pc := pc - 1;
    }
  }

  /** A greater element at pb and a less one at pc change places. */
  lemma ExchangeKeepsRanges<T>(s: seq<T>, t: seq<T>, lo: nat, hi: nat, pa: nat, pb: nat, pc: nat, pd: nat, cmp: (T, T) -> int)
    requires Ranges(s, lo, hi, pa, pb, pc, pd, cmp) && pb <= pc && cmp(s[pb], s[lo]) > 0 && cmp(s[pc], s[lo]) < 0
    requires t == s[pb := s[pc]][pc := s[pb]]
    ensures Ranges(t, lo, hi, pa, pb + 1, pc - 1, pd, cmp)
  {
    assert pb < pc && t[lo] == s[lo];
  }

  /** The partition loop around the pivot at lo; `swapped` is swap_cnt. */
  method Partition<T(!new)>(a: array<T>, lo: nat, hi: nat, cmp: (T, T) -> int)
    returns (pa: nat, pb: nat, pc: nat, pd: nat, swapped: bool)
    requires lo + 2 <= hi <= a.Length
    modifies a
    ensures Ranges(a[..], lo, hi, pa, pb, pc, pd, cmp) && pb == pc + 1 && Shuffled(old(a[..]), a[..], lo, hi)
  {
    pa, pb, pc, pd, swapped := lo + 1, lo + 1, hi - 1, hi - 1, false;
    while true
      invariant Ranges(a[..], lo, hi, pa, pb, pc, pd, cmp) && Shuffled(old(a[..]), a[..], lo, hi)
      decreases pc - pb + 1
    {
      ghost var before := a[..];
      var again;
      pa, pb, again := ScanRight(a, lo, hi, cmp, pa, pb, pc, pd);
      swapped := swapped || again;
      ShuffledTrans(old(a[..]), before, a[..], lo, hi);
      before := a[..];
      pc, pd, again := ScanLeft(a, lo, hi, cmp, pa, pb, pc, pd);
      swapped := swapped || again;
      ShuffledTrans(old(a[..]), before, a[..], lo, hi);
      if pb > pc {
        break;
      }
      before := a[..];
      Swap(a, pb, pc, lo, hi);
      ShuffledTrans(old(a[..]), before, a[..], lo, hi);
      ExchangeKeepsRanges(before, a[..], lo, hi, pa, pb, pc, pd, cmp);
      swapped := true;
      pb := pb + 1;
      pc := pc - 1;
    }
  }

  /** [lo, l) is less than, [l, g) equal to and [g, hi) greater than some value. */
  ghost predicate Parted<T>(s: seq<T>, lo: nat, l: nat, g: nat, hi: nat, pivot: T, cmp: (T, T) -> int) {
    && lo <= l < g <= hi <= |s|
    && (forall i :: lo <= i < l ==> cmp(s[i], pivot) < 0)
    && (forall i :: l <= i < g ==> cmp(s[i], pivot) == 0)
    && (forall i :: g <= i < hi ==> cmp(s[i], pivot) > 0)
  }

  /** The two vecswap calls that bring the equal elements to the middle. */
  method Rearrange<T(!new)>(a: array<T>, lo: nat, hi: nat, cmp: (T, T) -> int, pa: nat, pb: nat, pc: nat, pd: nat)
    returns (d: nat, r: nat)
    requires TotalPreorder(cmp) && hi <= a.Length && Ranges(a[..], lo, hi, pa, pb, pc, pd, cmp) && pb == pc + 1
    modifies a
    ensures d + r < hi - lo && Parted(a[..], lo, lo + d, hi - r, hi, old(a[lo]), cmp)
    ensures Shuffled(old(a[..]), a[..], lo, hi)
  {
    ghost var pivot := a[lo];
    MoveLess(a, lo, hi, cmp, pa, pb, pc, pd);
    d := pb - pa;
    ghost var middle := a[..];
    MoveGreater(a, lo, lo + d, hi, cmp, pb, pc, pd, pivot);
    ShuffledTrans(old(a[..]), middle, a[..], lo, hi);
    r := pd - pc;
  }

  method MoveLess<T(!new)>(a: array<T>, lo: nat, hi: nat, cmp: (T, T) -> int, pa: nat, pb: nat, pc: nat, pd: nat)
    requires TotalPreorder(cmp) && hi <= a.Length && Ranges(a[..], lo, hi, pa, pb, pc, pd, cmp) && pb == pc + 1
    modifies a
    ensures HalfParted(a[..], lo, lo + (pb - pa), hi, pb, pd, old(a[lo]), cmp)
    ensures Shuffled(old(a[..]), a[..], lo, hi)
  {
    var r := if pa - lo < pb - pa then pa - lo else pb - pa;
    VecSwap(a, lo, pb - r, r, lo, hi);
    LessToTheLeft(old(a[..]), a[..], lo, hi, pa, pb, pc, pd, r, cmp);
  }

  method MoveGreater<T(!new)>(a: array<T>, lo: nat, l: nat, hi: nat, cmp: (T, T) -> int, pb: nat, pc: nat, pd: nat, ghost pivot: T)
    requires hi <= a.Length && HalfParted(a[..], lo, l, hi, pb, pd, pivot, cmp) && pb == pc + 1
    modifies a
    ensures Parted(a[..], lo, l, hi - (pd - pc), hi, pivot, cmp) && Shuffled(old(a[..]), a[..], lo, hi)
  {
    var r := if pd - pc < hi - 1 - pd then pd - pc else hi - 1 - pd;
    VecSwap(a, pb, hi - r, r, lo, hi);
    GreaterToTheRight(old(a[..]), a[..], lo, l, hi, pb, pc, pd, r, pivot, cmp);
  }

  /** The first exchange: less, equal, then as before. */
  lemma LessToTheLeft<T(!new)>(s: seq<T>, t: seq<T>, lo: nat, hi: nat, pa: nat, pb: nat, pc: nat, pd: nat, r: nat, cmp: (T, T) -> int)
    requires TotalPreorder(cmp) && Ranges(s, lo, hi, pa, pb, pc, pd, cmp) && pb == pc + 1
    requires r == (if pa - lo < pb - pa then pa - lo else pb - pa) && Exchanged(s, t, lo, pb - r, r)
    ensures HalfParted(t, lo, lo + (pb - pa), hi, pb, pd, s[lo], cmp)
  {
    Flip(cmp, s[lo], s[lo]);
  }

  ghost predicate HalfParted<T>(s: seq<T>, lo: nat, l: nat, hi: nat, pb: nat, pd: nat, pivot: T, cmp: (T, T) -> int) {
    && lo <= l < pb <= pd + 1 <= hi <= |s|
    && (forall i :: lo <= i < l ==> cmp(s[i], pivot) < 0)
    && (forall i :: l <= i < pb ==> cmp(s[i], pivot) == 0)
    && (forall i :: pb <= i <= pd ==> cmp(s[i], pivot) > 0)
    && (forall i :: pd < i < hi ==> cmp(s[i], pivot) == 0)
  }

  /** The second exchange. */
  lemma GreaterToTheRight<T>(s: seq<T>, t: seq<T>, lo: nat, l: nat, hi: nat, pb: nat, pc: nat, pd: nat, r: nat, pivot: T, cmp: (T, T) -> int)
    requires HalfParted(s, lo, l, hi, pb, pd, pivot, cmp) && pb == pc + 1
    requires r == (if pd - pc < hi - 1 - pd then pd - pc else hi - 1 - pd) && Exchanged(s, t, pb, hi - r, r)
    ensures Parted(t, lo, l, hi - (pd - pc), hi, pivot, cmp)
  {
  }
}
