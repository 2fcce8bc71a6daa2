/** The run of qsort: postponed ranges on the parameter stack, real recursion when it is full. */
module QsortRun {
  import opened Words
  import opened Order
  import opened QsortParts

  /** A range of n elements from base. */
  datatype Range = Range(base: nat, n: nat)

  predicate Inside(c: nat, r: Range) { r.base < c < r.base + r.n }

  predicate Within(r: Range, first: nat, last: nat) { first <= r.base && r.base + r.n <= last }

  predicate Apart(r: Range, q: Range) { r.base + r.n <= q.base || q.base + q.n <= r.base }

  /** All that is missing for a sorted result between first and last is to sort the ranges of
      todo, each by itself: every position that is not inside one of them is a cut. */
  ghost predicate Pending<T>(s: seq<T>, first: nat, last: nat, todo: seq<Range>, cmp: (T, T) -> int) {
    && first <= last <= |s|
    && (forall k {:trigger Within(todo[k], first, last)} :: 0 <= k < |todo| ==> Within(todo[k], first, last))
    && (forall k, m {:trigger Apart(todo[k], todo[m])} :: 0 <= k < m < |todo| ==> Apart(todo[k], todo[m]))
    && (forall c :: first <= c <= last && Outside(c, todo) ==> Cut(s, first, last, c, cmp))
  }

  ghost predicate Outside(c: nat, todo: seq<Range>) {
    forall k :: 0 <= k < |todo| ==> !Inside(c, todo[k])
  }

  lemma PendingStart<T>(s: seq<T>, first: nat, last: nat, cmp: (T, T) -> int)
    requires first <= last <= |s|
    ensures Pending(s, first, last, [Range(first, last - first)], cmp)
  {
    var todo := [Range(first, last - first)];
    forall c | first <= c <= last && Outside(c, todo)
      ensures Cut(s, first, last, c, cmp)
    {
      assert !Inside(c, todo[0]);
    }
  }

  lemma PendingEnd<T>(s: seq<T>, first: nat, last: nat, cmp: (T, T) -> int)
    requires Pending(s, first, last, [], cmp)
    ensures Sorted(s, first, last, cmp)
  {
    forall i, j | first <= i < j < last
      ensures Le(cmp, s[i], s[j])
    {
      assert Outside(j, []);
      assert Cut(s, first, last, j, cmp);
    }
  }

  /** The ends of a pending range are cuts. */
  lemma EndsAreCuts<T>(s: seq<T>, first: nat, last: nat, todo: seq<Range>, cmp: (T, T) -> int, top: Range)
    requires Pending(s, first, last, todo + [top], cmp)
    ensures Cut(s, first, last, top.base, cmp) && Cut(s, first, last, top.base + top.n, cmp)
    ensures first <= top.base && top.base + top.n <= last
  {
    var all := todo + [top];
    assert all[|todo|] == top && Within(all[|todo|], first, last);
    forall k | 0 <= k < |all|
      ensures !Inside(top.base, all[k]) && !Inside(top.base + top.n, all[k])
    {
      if k < |todo| { assert Apart(all[k], all[|todo|]); }
    }
    assert Outside(top.base, all) && Outside(top.base + top.n, all);
  }

  /** The top range is replaced by the ranges of parts, which lie in it, once every position of
      it outside the parts has become a cut. */
  lemma Replace<T(!new)>(s: seq<T>, t: seq<T>, first: nat, last: nat, todo: seq<Range>, top: Range, parts: seq<Range>, cmp: (T, T) -> int)
    requires Pending(s, first, last, todo + [top], cmp) && Shuffled(s, t, top.base, top.base + top.n)
    requires forall k {:trigger parts[k]} :: 0 <= k < |parts| ==> Within(parts[k], top.base, top.base + top.n)
    requires forall k, m {:trigger Apart(parts[k], parts[m])} :: 0 <= k < m < |parts| ==> Apart(parts[k], parts[m])
    requires forall c :: top.base <= c <= top.base + top.n && Outside(c, parts) ==> Cut(t, top.base, top.base + top.n, c, cmp)
    ensures Pending(t, first, last, todo + parts, cmp)
  {
    var all, new_, lo, hi := todo + [top], todo + parts, top.base, top.base + top.n;
    assert all[|todo|] == top && Within(all[|todo|], first, last);
    EndsAreCuts(s, first, last, todo, cmp, top);
    CutKept(s, t, lo, hi, cmp, first, last, lo);
    CutKept(s, t, lo, hi, cmp, first, last, hi);
    forall k, m | 0 <= k < m < |new_|
      ensures Apart(new_[k], new_[m])
    {
      if k < |todo| <= m {
        assert Apart(all[k], all[|todo|]);
        assert new_[m] == parts[m - |todo|];
      } else if m < |todo| {
        assert Apart(all[k], all[m]);
      } else {
        assert new_[k] == parts[k - |todo|] && new_[m] == parts[m - |todo|];
      }
    }
    forall k | 0 <= k < |new_|
      ensures Within(new_[k], first, last)
    {
      if k < |todo| { assert Within(all[k], first, last); } else { assert new_[k] == parts[k - |todo|]; }
    }
    forall c | first <= c <= last && Outside(c, new_)
      ensures Cut(t, first, last, c, cmp)
    {
      OutsideParts(c, todo, parts);
      if lo <= c <= hi {
        CutInside(t, lo, hi, c, cmp, first, last);
      } else {
        assert !Inside(c, top);
        assert Outside(c, all);
        CutKept(s, t, lo, hi, cmp, first, last, c);
      }
    }
  }

  lemma OutsideParts(c: nat, todo: seq<Range>, parts: seq<Range>)
    requires Outside(c, todo + parts)
    ensures Outside(c, todo) && Outside(c, parts)
  {
    forall k | 0 <= k < |todo| ensures !Inside(c, todo[k]) { assert (todo + parts)[k] == todo[k]; }
    forall k | 0 <= k < |parts| ensures !Inside(c, parts[k]) { assert (todo + parts)[|todo| + k] == parts[k]; }
  }

  /** A sorted range is done. */
  lemma TopSorted<T(!new)>(s: seq<T>, t: seq<T>, first: nat, last: nat, todo: seq<Range>, top: Range, cmp: (T, T) -> int)
    requires Pending(s, first, last, todo + [top], cmp) && Shuffled(s, t, top.base, top.base + top.n)
    requires Sorted(t, top.base, top.base + top.n, cmp)
    ensures Pending(t, first, last, todo, cmp)
  {
    assert todo + [] == todo;
    Replace(s, t, first, last, todo, top, [], cmp);
  }

  /** A range of at most one element is sorted. */
  lemma TopTrivial<T(!new)>(s: seq<T>, first: nat, last: nat, todo: seq<Range>, top: Range, cmp: (T, T) -> int)
    requires Pending(s, first, last, todo + [top], cmp) && top.n <= 1
    ensures Pending(s, first, last, todo, cmp)
  {
    EndsAreCuts(s, first, last, todo, cmp, top);
    TopSorted(s, s, first, last, todo, top, cmp);
  }

  /** A partitioned range leaves its two outer parts to be sorted, in either order. */
  lemma TopParted<T(!new)>(s: seq<T>, t: seq<T>, first: nat, last: nat, todo: seq<Range>, top: Range, d: nat, r: nat, pivot: T, cmp: (T, T) -> int)
    requires TotalPreorder(cmp)
    requires Pending(s, first, last, todo + [top], cmp) && Shuffled(s, t, top.base, top.base + top.n)
    requires d + r < top.n && Parted(t, top.base, top.base + d, top.base + top.n - r, top.base + top.n, pivot, cmp)
    ensures var left, right := Range(top.base, d), Range(top.base + top.n - r, r);
      Pending(t, first, last, todo + [left] + [right], cmp) && Pending(t, first, last, todo + [right] + [left], cmp)
  {
    var left, right := Range(top.base, d), Range(top.base + top.n - r, r);
    var parts, parts' := [left, right], [right, left];
    forall c | top.base <= c <= top.base + top.n && (Outside(c, parts) || Outside(c, parts'))
      ensures Cut(t, top.base, top.base + top.n, c, cmp)
    {
      assert !Inside(c, left) && !Inside(c, right) by {
        if Outside(c, parts) {
          assert !Inside(c, parts[0]) && !Inside(c, parts[1]);
        } else {
          assert !Inside(c, parts'[0]) && !Inside(c, parts'[1]);
        }
      }
      PartedCut(t, top.base, top.base + d, top.base + top.n - r, top.base + top.n, pivot, c, cmp);
    }
    Replace(s, t, first, last, todo, top, parts, cmp);
    Replace(s, t, first, last, todo, top, parts', cmp);
    assert todo + parts == todo + [left] + [right] && todo + parts' == todo + [right] + [left];
  }

  lemma PartedCut<T(!new)>(s: seq<T>, lo: nat, l: nat, g: nat, hi: nat, pivot: T, c: nat, cmp: (T, T) -> int)
    requires TotalPreorder(cmp) && Parted(s, lo, l, g, hi, pivot, cmp)
    requires lo <= c <= hi && !(lo < c < l) && !(g < c < hi)
    ensures Cut(s, lo, hi, c, cmp)
  {
    forall i, j | lo <= i < c <= j < hi
      ensures Le(cmp, s[i], s[j])
    {
      Flip(cmp, pivot, s[j]);
      Trans(cmp, s[i], pivot, s[j]);
    }
  }

  // ---------- The run ----------

  /** One pass of the code from the label loop on: either the range is sorted by insertion, or it
      is partitioned and d elements on the left and r on the right remain to be sorted. */
  method Pass<T(!new)>(a: array<T>, lo: nat, n: nat, cmp: (T, T) -> int)
    returns (split: bool, d: nat, r: nat, ghost pivot: T)
    requires TotalPreorder(cmp) && lo + n <= a.Length && a.Length > 0
    modifies a
    ensures Shuffled(old(a[..]), a[..], lo, lo + n)
    ensures !split ==> Sorted(a[..], lo, lo + n, cmp)
    ensures split ==> d + r < n && Parted(a[..], lo, lo + d, lo + n - r, lo + n, pivot, cmp)
  {
    split, d, r, pivot := false, 0, 0, a[0];
    if n < 7 {
      InsertionSort(a, lo, n, cmp);
      return;
    }
    var pm := ChoosePivot(a, lo, n, cmp);
    Swap(a, lo, pm, lo, lo + n);
    ghost var before := a[..];
    var pa, pb, pc, pd, swapped := Partition(a, lo, lo + n, cmp);
    ShuffledTrans(old(a[..]), before, a[..], lo, lo + n);
    before := a[..];
    if !swapped {
      InsertionSort(a, lo, n, cmp);
    } else {
      split, pivot := true, a[lo];
      d, r := Rearrange(a, lo, lo + n, cmp, pa, pb, pc, pd);
    }
    ShuffledTrans(old(a[..]), before, a[..], lo, lo + n);
  }

  // ---------- How many ranges can be postponed ----------

  /** n halved k times. */
  function Half(n: nat, k: nat): nat {
    if k == 0 then n else Half(n, k - 1) / 2
  }

  lemma {:induction false} HalfPow(n: nat, k: nat)
    ensures Half(n, k) * Pow(2, k) <= n
  {
    if k > 0 {
      HalfPow(n, k - 1);
      HalfStep(Half(n, k - 1), Pow(2, k - 1));
    }
  }

  lemma HalfStep(h: int, p: int)
    requires h >= 0 && p >= 0
    ensures (h / 2) * (2 * p) <= h * p
  {
    MulMono(2 * (h / 2), h, p);
    assert (h / 2) * (2 * p) == 2 * (h / 2) * p;
  }

  /** The k-th postponed range is no longer than n halved k times. */
  ghost predicate Halving(todo: seq<Range>, n: nat) {
    forall k {:trigger Short(todo[k], k, n)} :: 0 <= k < |todo| ==> Short(todo[k], k, n)
  }

  predicate Short(r: Range, k: nat, n: nat) { r.n <= Half(n, k) }

  lemma HalvingPush(todo: seq<Range>, top: Range, n: nat)
    ensures Halving(todo + [top], n) <==> Halving(todo, n) && top.n <= Half(n, |todo|)
  {
    var all := todo + [top];
    assert all[|todo|] == top;
    if Halving(all, n) {
      assert Short(all[|todo|], |todo|, n);
      forall k | 0 <= k < |todo| ensures Short(todo[k], k, n) { assert Short(all[k], k, n); }
    }
    if Halving(todo, n) && top.n <= Half(n, |todo|) {
      forall k | 0 <= k < |all| ensures Short(all[k], k, n) { assert k < |todo| ==> Short(todo[k], k, n); }
    }
  }

  /** So many ranges can be postponed before a range of two elements only if n allows it. */
  predicate Deep(pending: nat, n: nat) { pending == 0 || Half(n, pending) >= 2 }

  lemma DeepLess(pending: nat, n: nat)
    requires Deep(pending + 1, n)
    ensures Deep(pending, n)
  {
  }

  /** That is: fewer than log2(n). */
  lemma DeepIsLog(pending: nat, n: nat)
    ensures Deep(pending, n) <==> pending == 0 || Pow(2, pending + 1) <= n
  {
    if Deep(pending, n) && pending > 0 {
      HalfPow(n, pending);
      MulMono(2, Half(n, pending), Pow(2, pending));
    }
    if Pow(2, pending + 1) <= n {
      PowHalf(n, pending, 2);
    }
  }

  lemma {:induction false} PowHalf(n: nat, k: nat, m: nat)
    requires m * Pow(2, k) <= n
    ensures m <= Half(n, k)
  {
    if k > 0 {
      assert m * Pow(2, k) == 2 * m * Pow(2, k - 1);
      PowHalf(n, k - 1, 2 * m);
    }
  }

  /** Decreases as long as ranges are split or dropped. */
  ghost function Work(todo: seq<Range>, k: nat): nat
    requires k <= |todo|
  {
    if k == 0 then 0 else Work(todo, k - 1) + 2 * todo[k - 1].n + 1
  }

  ghost function AllWork(todo: seq<Range>): nat {
    Work(todo, |todo|)
  }

  lemma {:induction false} WorkPrefix(todo: seq<Range>, top: Range, k: nat)
    requires k <= |todo|
    ensures Work(todo + [top], k) == Work(todo, k)
  {
    if k > 0 { WorkPrefix(todo, top, k - 1); }
  }

  lemma WorkPush(todo: seq<Range>, top: Range)
    ensures AllWork(todo + [top]) == AllWork(todo) + 2 * top.n + 1
  {
    WorkPrefix(todo, top, |todo|);
  }

  // ---------- The loop ----------

  /** All ranges that are still to be sorted: those postponed by the callers, those on the parameter
      stack, and the current one. */
  ghost function Todo(outer: seq<Range>, running: bool, stack: seq<Range>, current: Range): seq<Range> {
    if running then outer + stack + [current] else outer
  }

  /** What holds whenever the code reaches the label loop (running) or the end, in a call for the
      elements from lo to hi. Every position of the whole array that is not inside a range of Todo
      is a cut, so the callers' ranges are all in `outer`; and at no time are more than log2 of the
      array's length postponed. */
  ghost predicate Progress<T>(s: seq<T>, lo: nat, hi: nat, outer: seq<Range>, running: bool, stack: seq<Range>, current: Range, cmp: (T, T) -> int) {
    && Pending(s, 0, |s|, Todo(outer, running, stack, current), cmp)
    && Halving(Todo(outer, running, stack, current), |s|)
    && |stack| <= 8 && Deep(|outer| + |stack|, |s|)
    && AllWithin(stack, lo, hi) && (running ==> Within(current, lo, hi)) && (running || stack == [])
  }

  ghost predicate AllWithin(ranges: seq<Range>, lo: nat, hi: nat) {
    forall k {:trigger Within(ranges[k], lo, hi)} :: 0 <= k < |ranges| ==> Within(ranges[k], lo, hi)
  }

  lemma AllWithinPush(ranges: seq<Range>, top: Range, lo: nat, hi: nat)
    ensures AllWithin(ranges + [top], lo, hi) <==> AllWithin(ranges, lo, hi) && Within(top, lo, hi)
  {
    var all := ranges + [top];
    assert all[|ranges|] == top;
    if AllWithin(all, lo, hi) {
      assert Within(all[|ranges|], lo, hi);
      forall k | 0 <= k < |ranges| ensures Within(ranges[k], lo, hi) { assert Within(all[k], lo, hi); }
    }
    if AllWithin(ranges, lo, hi) && Within(top, lo, hi) {
      forall k | 0 <= k < |all| ensures Within(all[k], lo, hi) { assert k < |ranges| ==> Within(ranges[k], lo, hi); }
    }
  }

  /** The label pop: take the range postponed last, if there is one. */
  method Pop<T>(stack: seq<Range>, current: Range, ghost s: seq<T>, ghost lo: nat, ghost hi: nat, ghost outer: seq<Range>, ghost cmp: (T, T) -> int)
    returns (running: bool, stack': seq<Range>, next: Range)
    requires Pending(s, 0, |s|, outer + stack, cmp) && Halving(outer + stack, |s|) && AllWithin(stack, lo, hi)
    requires |stack| <= PARAMETER_STACK_LEVELS && Deep(|outer| + |stack|, |s|)
    ensures Progress(s, lo, hi, outer, running, stack', next, cmp) && Todo(outer, running, stack', next) == outer + stack
  {
    running, stack', next := stack != [], stack, current;
    assert outer + [] == outer;
    if running {
      next := stack[|stack| - 1];
      stack' := stack[..|stack| - 1];
      assert stack' + [next] == stack && outer + stack' + [next] == outer + stack;
      AllWithinPush(stack', next, lo, hi);
      DeepLess(|outer| + |stack'|, |s|);
    }
  }

  /** A pass over the current range, seen from the whole array. */
  method PassOver<T(!new)>(a: array<T>, ghost todo: seq<Range>, current: Range, cmp: (T, T) -> int)
    returns (split: bool, left: Range, right: Range)
    requires TotalPreorder(cmp) && a.Length > 0 && Pending(a[..], 0, a.Length, todo + [current], cmp)
    modifies a
    ensures Within(current, 0, a.Length) && Shuffled(old(a[..]), a[..], current.base, current.base + current.n)
    ensures !split ==> Pending(a[..], 0, a.Length, todo, cmp)
    ensures split ==> left.n + right.n < current.n
    ensures split ==> Within(left, current.base, current.base + current.n) && Within(right, current.base, current.base + current.n)
    ensures split ==> Pending(a[..], 0, a.Length, todo + [left] + [right], cmp)
    ensures split ==> Pending(a[..], 0, a.Length, todo + [right] + [left], cmp)
  {
    EndsAreCuts(a[..], 0, a.Length, todo, cmp, current);
    ghost var pivot;
    var d, r;
    split, d, r, pivot := Pass(a, current.base, current.n, cmp);
    left, right := current, current;
    if split {
      left, right := Range(current.base, d), Range(current.base + current.n - r, r);
      TopParted(old(a[..]), a[..], 0, a.Length, todo, current, d, r, pivot, cmp);
    } else {
      TopSorted(old(a[..]), a[..], 0, a.Length, todo, current, cmp);
    }
  }

  /** From one arrival at the label loop to the next. */
  method Turn<T(!new)>(a: array<T>, ghost lo: nat, ghost hi: nat, stack: seq<Range>, current: Range, cmp: (T, T) -> int, ghost outer: seq<Range>)
    returns (running: bool, stack': seq<Range>, next: Range)
    requires TotalPreorder(cmp) && lo < hi <= a.Length && Progress(a[..], lo, hi, outer, true, stack, current, cmp)
    modifies a
    ensures Progress(a[..], lo, hi, outer, running, stack', next, cmp) && Shuffled(old(a[..]), a[..], lo, hi)
    ensures AllWork(Todo(outer, running, stack', next)) < AllWork(outer + stack + [current])
    decreases hi - lo, 2
  {
    WorkPush(outer + stack, current);
    HalvingPush(outer + stack, current, a.Length);
    var split, left, right := PassOver(a, outer + stack, current, cmp);
    ShuffledWiden(old(a[..]), a[..], current.base, current.base + current.n, lo, hi);
    if !split {
      running, stack', next := Pop(stack, current, a[..], lo, hi, outer, cmp);
      return;
    }
    ghost var before := a[..];
    if right.n > left.n {
      running, stack', next := Next(a, lo, hi, stack, right, left, cmp, outer, current.n);
    } else {
      running, stack', next := Next(a, lo, hi, stack, left, right, cmp, outer, current.n);
    }
    ShuffledTrans(old(a[..]), before, a[..], lo, hi);
  }

  /** Postpone the larger part and go on with the smaller one; with a full stack, sort the smaller
      part by a call and go on with the larger one. Parts of one element need no sorting. */
  method Next<T(!new)>(a: array<T>, ghost lo: nat, ghost hi: nat, stack: seq<Range>, larger: Range, smaller: Range, cmp: (T, T) -> int, ghost outer: seq<Range>, ghost n: nat)
    returns (running: bool, stack': seq<Range>, next: Range)
    requires TotalPreorder(cmp) && lo <= hi <= a.Length && n <= hi - lo
    requires Within(larger, lo, hi) && Within(smaller, lo, hi) && AllWithin(stack, lo, hi)
    requires smaller.n <= larger.n && smaller.n + larger.n < n <= Half(a.Length, |outer + stack|) && Halving(outer + stack, a.Length)
    requires Pending(a[..], 0, a.Length, outer + stack + [larger] + [smaller], cmp)
    requires |stack| <= PARAMETER_STACK_LEVELS && Deep(|outer| + |stack|, a.Length)
    modifies a
    ensures Progress(a[..], lo, hi, outer, running, stack', next, cmp) && Shuffled(old(a[..]), a[..], lo, hi)
    ensures AllWork(Todo(outer, running, stack', next)) < AllWork(outer + stack) + 2 * n + 1
    decreases hi - lo, 1
  {
    HalvingPush(outer + stack, larger, a.Length);
    WorkPush(outer + stack, larger);
    if smaller.n > 1 {
      if |stack| < PARAMETER_STACK_LEVELS {
        HalvingPush(outer + stack + [larger], smaller, a.Length);
        WorkPush(outer + stack + [larger], smaller);
        AllWithinPush(stack, larger, lo, hi);
        assert outer + (stack + [larger]) == outer + stack + [larger];
        return true, stack + [larger], smaller;
      }
      CallSmaller(a, lo, hi, outer + stack + [larger], smaller, cmp);
    } else {
      TopTrivial(a[..], 0, a.Length, outer + stack + [larger], smaller, cmp);
    }
    running, stack', next := Larger(stack, larger, a[..], lo, hi, outer, cmp);
  }

  /** The stack is full: a call sorts the smaller part, while the larger part and all that was
      postponed before it stay pending. */
  method CallSmaller<T(!new)>(a: array<T>, ghost lo: nat, ghost hi: nat, ghost todo: seq<Range>, smaller: Range, cmp: (T, T) -> int)
    requires TotalPreorder(cmp) && lo <= hi <= a.Length && 1 < smaller.n < hi - lo && Within(smaller, lo, hi)
    requires Pending(a[..], 0, a.Length, todo + [smaller], cmp)
    requires Halving(todo, a.Length) && smaller.n <= Half(a.Length, |todo|)
    modifies a
    ensures Pending(a[..], 0, a.Length, todo, cmp) && Shuffled(old(a[..]), a[..], lo, hi)
    decreases hi - lo, 0
  {
    HalvingPush(todo, smaller, a.Length);
    Sort(a, smaller.base, smaller.n, cmp, todo);
    ShuffledWiden(old(a[..]), a[..], smaller.base, smaller.base + smaller.n, lo, hi);
  }

  /** Go on with the larger part, or with what was postponed last. */
  method Larger<T(!new)>(stack: seq<Range>, larger: Range, ghost s: seq<T>, ghost lo: nat, ghost hi: nat, ghost outer: seq<Range>, ghost cmp: (T, T) -> int)
    returns (running: bool, stack': seq<Range>, next: Range)
    requires Pending(s, 0, |s|, outer + stack + [larger], cmp) && Halving(outer + stack + [larger], |s|)
    requires AllWithin(stack, lo, hi) && Within(larger, lo, hi)
    requires |stack| <= PARAMETER_STACK_LEVELS && Deep(|outer| + |stack|, |s|)
    ensures Progress(s, lo, hi, outer, running, stack', next, cmp)
    ensures AllWork(Todo(outer, running, stack', next)) <= AllWork(outer + stack + [larger])
  {
    if larger.n > 1 {
      return true, stack, larger;
    }
    TopTrivial(s, 0, |s|, outer + stack, larger, cmp);
    HalvingPush(outer + stack, larger, |s|);
    WorkPush(outer + stack, larger);
    running, stack', next := Pop(stack, larger, s, lo, hi, outer, cmp);
  }

  /** qsort on the n elements from lo, called while the ranges of `outer` are pending. All of them
      and this one are apart and cover whatever is unsorted in the whole array, and the call is
      made only if their number is below log2 of the array's length. In the call, too, that bound
      holds at every arrival at the label loop. The range ends up sorted, holds the same elements,
      and the rest of the array is untouched. */
  method Sort<T(!new)>(a: array<T>, lo: nat, n: nat, cmp: (T, T) -> int, ghost outer: seq<Range>)
    requires TotalPreorder(cmp) && lo + n <= a.Length
    requires Pending(a[..], 0, a.Length, outer + [Range(lo, n)], cmp)
    requires Halving(outer + [Range(lo, n)], a.Length) && Deep(|outer|, a.Length)
    modifies a
    ensures Pending(a[..], 0, a.Length, outer, cmp) && Shuffled(old(a[..]), a[..], lo, lo + n)
    decreases n, 3
  {
    if n == 0 {
      TopTrivial(a[..], 0, a.Length, outer, Range(lo, n), cmp);
      return;
    }
    var running, stack, current := true, [], Range(lo, n);
    assert outer + stack == outer;
    HalvingPush(outer, current, a.Length);
    while running
      invariant Progress(a[..], lo, lo + n, outer, running, stack, current, cmp)
      invariant Shuffled(old(a[..]), a[..], lo, lo + n)
      decreases AllWork(Todo(outer, running, stack, current)), running
    {
      ghost var before := a[..];
      running, stack, current := Turn(a, lo, lo + n, stack, current, cmp, outer);
      ShuffledTrans(old(a[..]), before, a[..], lo, lo + n);
    }
  }

  /** qsort of a whole array: a sorted permutation. */
  method Qsort<T(!new)>(a: array<T>, cmp: (T, T) -> int)
    requires TotalPreorder(cmp)
    modifies a
    ensures forall i, j :: 0 <= i < j < a.Length ==> cmp(a[i], a[j]) <= 0
    ensures multiset(a[..]) == multiset(old(a[..]))
  {
    PendingStart(a[..], 0, a.Length, cmp);
    assert [] + [Range(0, a.Length)] == [Range(0, a.Length)];
    HalvingPush([], Range(0, a.Length), a.Length);
    Sort(a, 0, a.Length, cmp, []);
    PendingEnd(a[..], 0, a.Length, cmp);
    ShuffledIsPermutation(old(a[..]), a[..]);
    forall i, j | 0 <= i < j < a.Length ensures cmp(a[i], a[j]) <= 0 { assert Le(cmp, a[..][i], a[..][j]); }
  }
}
