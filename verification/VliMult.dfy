/** Column-wise multiplication and squaring of crypto/micro-ecc/uECC.c with a
    three-word accumulator, and the unrolled eight-word form. */
module VliMult {
  import opened Words
  import opened Vli

  ghost function Carry(r0: nat, r1: nat, B: nat): nat {
    r0 + B * r1
  }

  ghost function Acc(r0: nat, r1: nat, r2: nat, B: nat): nat {
    r0 + B * Carry(r1, r2, B)
  }

  // ---------- The schoolbook product as a sum of columns ----------

  /** The part of column k of l * r that word i of l contributes. */
  ghost function Term(l: seq<nat>, r: seq<nat>, n: nat, k: nat, i: nat): nat
    requires n <= |l| && n <= |r|
  {
    if i < n && i <= k && k - i < n then l[i] * r[k - i] else 0
  }

  ghost function Terms(l: seq<nat>, r: seq<nat>, n: nat, k: nat, a: nat, b: nat): nat
    requires n <= |l| && n <= |r|
    decreases b
  {
    if a >= b then 0 else Terms(l, r, n, k, a, b - 1) + Term(l, r, n, k, b - 1)
  }

  /** Columns 0 to m - 1 of the product of the low `rows` words of l with r. */
  ghost function Columns(l: seq<nat>, r: seq<nat>, n: nat, rows: nat, m: nat, B: nat): nat
    requires n <= |l| && n <= |r|
  {
    if m == 0 then 0
    else Columns(l, r, n, rows, m - 1, B) + Terms(l, r, n, m - 1, 0, rows) * Pow(B, m - 1)
  }

  lemma {:induction false} TermsSplit(l: seq<nat>, r: seq<nat>, n: nat, k: nat, a: nat, b: nat, c: nat)
    requires n <= |l| && n <= |r| && a <= b <= c
    ensures Terms(l, r, n, k, a, c) == Terms(l, r, n, k, a, b) + Terms(l, r, n, k, b, c)
    decreases c
  {
    if b < c { TermsSplit(l, r, n, k, a, b, c - 1); }
  }

  lemma {:induction false} TermsZero(l: seq<nat>, r: seq<nat>, n: nat, k: nat, a: nat, b: nat)
    requires n <= |l| && n <= |r|
    requires a >= b || a >= n || a > k || b + n <= k + 1
    ensures Terms(l, r, n, k, a, b) == 0
    decreases b
  {
    if a < b { TermsZero(l, r, n, k, a, b - 1); }
  }

  /** The words of r that columns below m have met in row `row`. */
  function Seen(n: nat, row: nat, m: nat): (v: nat)
    ensures v <= n
  {
    if m <= row then 0 else if m - row <= n then m - row else n
  }

  lemma Distribute(x: int, Q: int, v: int, y: int, T: int)
    ensures x * (Q * (v + y * T)) == x * (Q * v) + x * y * (Q * T)
  {
    assert Q * (v + y * T) == Q * v + Q * (y * T);
    assert x * (Q * v + Q * (y * T)) == x * (Q * v) + x * (Q * (y * T));
    assert x * (Q * (y * T)) == x * y * (Q * T);
  }

  lemma MulSum(x: int, y: int, P: int)
    ensures (x + y) * P == x * P + y * P
  {}

  /** Row `row` adds its word times the reachable prefix of r, shifted into place. */
  lemma {:induction false} RowStep(l: seq<nat>, r: seq<nat>, n: nat, row: nat, m: nat, B: nat)
    requires n <= |l| && n <= |r| && row < n
    ensures Columns(l, r, n, row + 1, m, B)
         == Columns(l, r, n, row, m, B) + l[row] * (Pow(B, row) * Val(r, Seen(n, row, m), B))
  {
    if m == 0 {
      assert l[row] * (Pow(B, row) * 0) == 0;
    } else {
      RowStep(l, r, n, row, m - 1, B);
      var k := m - 1;
      MulSum(Terms(l, r, n, k, 0, row), Term(l, r, n, k, row), Pow(B, k));
      TermPlaced(l, r, n, row, k, B);
    }
  }

  lemma TermPlaced(l: seq<nat>, r: seq<nat>, n: nat, row: nat, k: nat, B: nat)
    requires n <= |l| && n <= |r| && row < n
    ensures l[row] * (Pow(B, row) * Val(r, Seen(n, row, k + 1), B))
         == l[row] * (Pow(B, row) * Val(r, Seen(n, row, k), B)) + Term(l, r, n, k, row) * Pow(B, k)
  {
    if row <= k && k - row < n {
      PowAdd(B, row, k - row);
      Distribute(l[row], Pow(B, row), Val(r, k - row, B), r[k - row], Pow(B, k - row));
    } else {
      assert 0 * Pow(B, k) == 0;
    }
  }

  lemma AddRow(a: int, x: int, P: int, v: int)
    ensures (a + x * P) * v == a * v + x * (P * v)
  {
    assert (a + x * P) * v == a * v + (x * P) * v;
  }

  lemma {:induction false} AllRows(l: seq<nat>, r: seq<nat>, n: nat, rows: nat, B: nat)
    requires n <= |l| && n <= |r| && rows <= n
    ensures Columns(l, r, n, rows, 2 * n, B) == Val(l, rows, B) * Val(r, n, B)
  {
    if rows == 0 {
      NoRows(l, r, n, 2 * n, B);
    } else {
      AllRows(l, r, n, rows - 1, B);
      RowStep(l, r, n, rows - 1, 2 * n, B);
      AddRow(Val(l, rows - 1, B), l[rows - 1], Pow(B, rows - 1), Val(r, n, B));
    }
  }

  lemma {:induction false} NoRows(l: seq<nat>, r: seq<nat>, n: nat, m: nat, B: nat)
    requires n <= |l| && n <= |r|
    ensures Columns(l, r, n, 0, m, B) == 0
  {
    if m > 0 { NoRows(l, r, n, m - 1, B); }
  }

  /** All 2n - 1 columns together are the product. */
  lemma ColumnsAreProduct(l: seq<nat>, r: seq<nat>, n: nat, B: nat)
    requires 0 < n <= |l| && n <= |r|
    ensures Columns(l, r, n, n, 2 * n - 1, B) == Val(l, n, B) * Val(r, n, B)
  {
    AllRows(l, r, n, n, B);
    TermsZero(l, r, n, 2 * n - 1, 0, n);
    assert 0 * Pow(B, 2 * n - 1) == 0;
  }

  // ---------- The accumulator ----------

  /** The wrap-around test of the double-word addition is exact. */
  lemma WrapExact(x: nat, p: nat, S: nat)
    requires x < S && p < S
    ensures var y := (x + p) % S; y + (if y < p then 1 else 0) * S == x + p
  {
    if x + p < S { ModSmall(x + p, 0, S); } else { ModSmall(x + p - S, 1, S); }
  }

  /** Splitting a double word into its halves loses nothing. */
  lemma Halves(y: nat, B: nat)
    requires B > 0 && y < B * B
    ensures y == y % B + B * (y / B) && y / B < B
  {
    if y / B >= B { MulMono(B, y / B, B); assert false; }
  }

  lemma ProductBound(a: nat, b: nat, B: nat)
    requires a < B && b < B
    ensures a * b <= (B - 1) * (B - 1)
  {
    MulMono(a, B - 1, b);
    MulMono(b, B - 1, B - 1);
  }

  lemma DoubleWord(r0: nat, r1: nat, B: nat)
    requires r0 < B && r1 < B
    ensures r1 * B + r0 < B * B
    ensures (B - 1) * (B - 1) < B * B
  {
    MulMono(r1 + 1, B, B);
    assert (r1 + 1) * B == r1 * B + B;
    assert (B - 1) * (B - 1) == B * B - 2 * B + 1;
  }

  /** Adding a double word p to the low two words, with `c` units of overflow and
      carry for the high word, adds exactly p to the accumulator. */
  lemma AccSum(r0: nat, r1: nat, r2: nat, s0: nat, s1: nat, c: nat, p: int, B: nat, S: nat)
    requires S == B * B && s0 + B * s1 + c * S == r1 * B + r0 + p
    ensures Acc(s0, s1, r2 + c, B) == Acc(r0, r1, r2, B) + p
  {
    AccAlgebra(r1, r2, s1, c, B, S);
  }

  lemma AccAlgebra(r1: nat, r2: nat, s1: nat, c: nat, B: nat, S: nat)
    requires S == B * B
    ensures B * (s1 + B * (r2 + c)) - B * (r1 + B * r2) == B * s1 + c * S - r1 * B
  {
    assert B * (s1 + B * (r2 + c)) == B * s1 + B * (B * r2) + B * (B * c);
    assert B * (B * c) == c * S;
    assert B * (r1 + B * r2) == B * r1 + B * (B * r2);
  }

  /** The double word (r1 << WORD_BITS) | r0. */
  function Join(r1: nat, r0: nat, W: nat): (r: nat)
    requires r0 < Base(W)
    ensures r == r1 * Base(W) + r0
  {
    BitOrDisjoint(r1, r0, W);
    BitOr(r1 * Base(W), r0)
  }

  /** muladd: add a * b to the accumulator. */
  method MulAdd(a: nat, b: nat, r0: nat, r1: nat, r2: nat, W: nat) returns (s0: nat, s1: nat, s2: nat)
    requires a < Base(W) && b < Base(W) && r0 < Base(W) && r1 < Base(W)
    requires r2 + 1 < Base(W)
    ensures s0 < Base(W) && s1 < Base(W) && s2 <= r2 + 1
    ensures Acc(s0, s1, s2, Base(W)) == Acc(r0, r1, r2, Base(W)) + a * b
  {
    var B, p := Base(W), a * b;
    ProductBound(a, b, B);
    DoubleWord(r0, r1, B);
    var r01 := Join(r1, r0, W);
    s0, s1, s2 := AddDouble(p, 0, r01, r0, r1, r2, B, B * B);
  }

  /** The common tail of muladd and mul2add: r01 += p with the overflow going to r2. */
  method AddDouble(p: nat, top: nat, r01: nat, ghost r0: nat, ghost r1: nat, r2: nat, B: nat, S: nat)
    returns (s0: nat, s1: nat, s2: nat)
    requires r0 < B && r1 < B && S == B * B && p < S && r01 == r1 * B + r0
    ensures s0 < B && s1 < B && s2 <= r2 + top + 1
    ensures Acc(s0, s1, s2, B) == Acc(r0, r1, r2, B) + p + top * S
  {
    DoubleWord(r0, r1, B);
    var y := (r01 + p) % S;
    WrapExact(r01, p, S);
    var c := if y < p then 1 else 0;
    SplitWord(y, B, S);
    s0, s1 := y % B, y / B;
    WithTop(s0 + B * s1, c, top, r01, p, S);
    AccSum(r0, r1, r2, s0, s1, top + c, p + top * S, B, S);
    s2 := r2 + top + c;
  }

  lemma SplitWord(y: nat, B: nat, S: nat)
    requires B > 0 && S == B * B && y < S
    ensures 0 <= y % B < B && 0 <= y / B < B && y == y % B + B * (y / B)
  {
    Halves(y, B);
    DivMod(y, B);
  }

  lemma WithTop(y: int, c: int, top: int, r: int, p: int, S: int)
    requires y + c * S == r + p
    ensures y + (top + c) * S == r + (p + top * S)
  {
    assert (top + c) * S == top * S + c * S;
  }

  lemma TopBit(p: nat, S: nat)
    requires p < S
    ensures 2 * p / S <= 1
  {
    if 2 * p / S >= 2 { MulMono(2, 2 * p / S, S); DivMod(2 * p, S); assert false; }
  }

  /** mul2add: add 2 * a * b to the accumulator; the bit shifted out of the doubled
      product goes to r2 directly. */
  method Mul2Add(a: nat, b: nat, r0: nat, r1: nat, r2: nat, W: nat) returns (s0: nat, s1: nat, s2: nat)
    requires a < Base(W) && b < Base(W) && r0 < Base(W) && r1 < Base(W)
    requires r2 + 2 < Base(W)
    ensures s0 < Base(W) && s1 < Base(W) && s2 <= r2 + 2
    ensures Acc(s0, s1, s2, Base(W)) == Acc(r0, r1, r2, Base(W)) + 2 * (a * b)
  {
    var B, S := Base(W), Base(W) * Base(W);
    var p := a * b;
    var r01 := Join(r1, r0, W);
    MulPositive(B, B);
    DivMod(2 * p, S);
    ProductBound(a, b, B);
    DoubleWord(r0, r1, B);
    TopBit(p, S);
    var top, p2 := 2 * p / S, 2 * p % S;
    s0, s1, s2 := AddDouble(p2, top, r01, r0, r1, r2, B, S);
  }

  // ---------- The multiplication loops ----------

  /** The state between columns: k words are final, and the carry (r1, r0) stands for
      what the first k columns add above them. */
  ghost predicate Running(res: seq<nat>, L: seq<nat>, R: seq<nat>, n: nat, k: nat, r0: nat, r1: nat, B: nat)
    requires n <= |L| && n <= |R| && B > 0
  {
    && IsWords(res, k, B)
    && r0 < B && r1 < B
    && Balanced(res, L, R, n, k, Carry(r0, r1, B), B)
  }

  ghost predicate Balanced(res: seq<nat>, L: seq<nat>, R: seq<nat>, n: nat, k: nat, carry: nat, B: nat)
    requires n <= |L| && n <= |R| && k <= |res|
  {
    Val(res, k, B) + carry * Pow(B, k) == Columns(L, R, n, n, k, B)
  }

  /** The running equation of column k, times B^k, moves to column k + 1. */
  lemma ColumnEquation(v: int, v': int, c: int, c': int, w: int, carry: int, carry': int, t: int, B: int, P: int, Q: int)
    requires w + B * carry' == carry + t && Q == B * P
    requires v' == v + w * P && c' == c + t * P && v + carry * P == c
    ensures v' + carry' * Q == c'
  {
    assert (w + B * carry') * P == w * P + carry' * (B * P);
    assert (carry + t) * P == carry * P + t * P;
  }

  /** The two ends of a column: below `from` and from `to` on there are no terms. */
  lemma ColumnEnds(L: seq<nat>, R: seq<nat>, n: nat, k: nat, from: nat, to: nat)
    requires n <= |L| && n <= |R| && from <= to <= n
    requires from + n <= k + 1 || from == 0
    requires to == n || to > k
    ensures Terms(L, R, n, k, from, to) == Terms(L, R, n, k, 0, n)
  {
    TermsSplit(L, R, n, k, 0, from, n);
    TermsSplit(L, R, n, k, from, to, n);
    TermsZero(L, R, n, k, 0, from);
    TermsZero(L, R, n, k, to, n);
  }

  lemma NextEquation(before: seq<nat>, after: seq<nat>, L: seq<nat>, R: seq<nat>, n: nat, k: nat,
                     carry: nat, carry': nat, B: nat)
    requires n <= |L| && n <= |R| && k <= |before| && k < |after|
    requires forall j :: 0 <= j < k ==> before[j] == after[j]
    requires after[k] + B * carry' == carry + Terms(L, R, n, k, 0, n)
    requires Balanced(before, L, R, n, k, carry, B)
    ensures Balanced(after, L, R, n, k + 1, carry', B)
  {
    ValAgree(before, after, k, B);
    ColumnEquation(Val(before, k, B), Val(after, k + 1, B), Columns(L, R, n, n, k, B), Columns(L, R, n, n, k + 1, B),
                   after[k], carry, carry', Terms(L, R, n, k, 0, n), B, Pow(B, k), Pow(B, k + 1));
  }

  /** Storing the low word of a full column and shifting the accumulator. */
  lemma ColumnDone(before: seq<nat>, after: seq<nat>, L: seq<nat>, R: seq<nat>, n: nat, k: nat,
                   from: nat, to: nat, r0: nat, r1: nat, s0: nat, s1: nat, B: nat)
    requires n <= |L| && n <= |R| && 0 < B && k < |after|
    requires from <= to <= n && (from + n <= k + 1 || from == 0) && (to == n || to > k)
    requires Running(before, L, R, n, k, r0, r1, B)
    requires forall j :: 0 <= j < k ==> before[j] == after[j]
    requires after[k] < B && s0 < B && s1 < B
    requires Acc(after[k], s0, s1, B) == Carry(r0, r1, B) + Terms(L, R, n, k, from, to)
    ensures Running(after, L, R, n, k + 1, s0, s1, B)
  {
    ColumnEnds(L, R, n, k, from, to);
    NextEquation(before, after, L, R, n, k, Carry(r0, r1, B), Carry(s0, s1, B), B);
  }

  /** One column of the product: accumulate its terms, store the low word, shift. */
  method Column(result: array<nat>, left: array<nat>, right: array<nat>, k: nat, from: nat, to: nat,
                r0: nat, r1: nat, n: nat, W: nat)
    returns (s0: nat, s1: nat)
    requires n < Base(W) && IsWords(left[..], n, Base(W)) && IsWords(right[..], n, Base(W))
    requires from <= to <= n && k < result.Length && result != left && result != right
    requires from + n == k + 1 || (from == 0 && k < n)
    requires to == k + 1 || (to == n && k >= n)
    requires Running(result[..], left[..], right[..], n, k, r0, r1, Base(W))
    modifies result
    ensures forall j :: 0 <= j < result.Length && j != k ==> result[j] == old(result[j])
    ensures Running(result[..], left[..], right[..], n, k + 1, s0, s1, Base(W))
  {
    ghost var B, L, R, before := Base(W), left[..], right[..], result[..];
    var q0: nat, q1: nat, q2: nat := r0, r1, 0;
    assert B * 0 == 0;
    for i := from to to
      modifies {}
      invariant q0 < B && q1 < B && q2 <= i - from
      invariant Acc(q0, q1, q2, B) == Carry(r0, r1, B) + Terms(L, R, n, k, from, i)
    {
      q0, q1, q2 := MulAdd(left[i], right[k - i], q0, q1, q2, W);
    }
    result[k] := q0;
    s0, s1 := q1, q2;
    ColumnDone(before, result[..], L, R, n, k, from, to, r0, r1, s0, s1, B);
  }

  /** With 2n - 1 columns done the carry is one word, the top word of the product. */
  lemma TopWord(res: seq<nat>, L: seq<nat>, R: seq<nat>, n: nat, carry: nat, B: nat)
    requires 0 < n && 2 * n <= |res| && IsWords(L, n, B) && IsWords(R, n, B)
    requires Balanced(res, L, R, n, 2 * n - 1, carry, B)
    ensures carry < B
    ensures Val(res, 2 * n - 1, B) + carry * Pow(B, 2 * n - 1) == Val(L, n, B) * Val(R, n, B)
  {
    ColumnsAreProduct(L, R, n, B);
    ValBound(L, n, B);
    ValBound(R, n, B);
    var l, r, N, P := Val(L, n, B), Val(R, n, B), Pow(B, n), Pow(B, 2 * n - 1);
    MulMono(l, N, r);
    MulMono(r, N, N);
    PowAdd(B, n, n);
    assert N * N == B * P;
    if carry >= B {
      if r < N && l < N {
        StrictProduct(l, r, N);
      }
      MulMono(B, carry, P);
      assert false;
    }
  }

  lemma StrictProduct(l: nat, r: nat, N: nat)
    requires l < N && r < N
    ensures l * r < N * N
  {
    MulMono(l, N, r);
    MulMono(r + 1, N, N);
    assert (r + 1) * N == r * N + N;
  }

  /** uECC_vli_mult, loop form. */
  method Mult(result: array<nat>, left: array<nat>, right: array<nat>, n: nat, W: nat)
    requires 0 < n < Base(W) && 2 * n <= result.Length
    requires IsWords(left[..], n, Base(W)) && IsWords(right[..], n, Base(W))
    requires result != left && result != right
    modifies result
    ensures OnlyPrefixChanged(old(result[..]), result[..], 2 * n) && IsWords(result[..], 2 * n, Base(W))
    ensures Val(result[..], 2 * n, Base(W)) == Val(left[..], n, Base(W)) * Val(right[..], n, Base(W))
  {
    var r0: nat, r1: nat := 0, 0;
    assert Base(W) * 0 == 0 && 0 * Pow(Base(W), 0) == 0;
    for k := 0 to n
      invariant OnlyPrefixChanged(old(result[..]), result[..], 2 * n)
      invariant Running(result[..], left[..], right[..], n, k, r0, r1, Base(W))
    {
      r0, r1 := Column(result, left, right, k, 0, k + 1, r0, r1, n, W);
    }
    for k := n to 2 * n - 1
      invariant OnlyPrefixChanged(old(result[..]), result[..], 2 * n)
      invariant Running(result[..], left[..], right[..], n, k, r0, r1, Base(W))
    {
      r0, r1 := Column(result, left, right, k, k + 1 - n, n, r0, r1, n, W);
    }
    label Last:
    result[2 * n - 1] := r0;
    Finish(old@Last(result[..]), result[..], left[..], right[..], n, r0, r1, Base(W));
  }

  /** result[2n - 1] = r0: the rest of the accumulator is zero by then. */
  lemma Finish(before: seq<nat>, after: seq<nat>, L: seq<nat>, R: seq<nat>, n: nat, r0: nat, r1: nat, B: nat)
    requires 0 < n && 2 * n <= |after| && B > 0 && IsWords(L, n, B) && IsWords(R, n, B)
    requires Running(before, L, R, n, 2 * n - 1, r0, r1, B)
    requires forall j :: 0 <= j < 2 * n - 1 ==> after[j] == before[j]
    requires after[2 * n - 1] == r0
    ensures IsWords(after, 2 * n, B)
    ensures Val(after, 2 * n, B) == Val(L, n, B) * Val(R, n, B)
  {
    ValAgree(before, after, 2 * n - 1, B);
    TopWord(after, L, R, n, Carry(r0, r1, B), B);
    if r1 > 0 {
      MulMono(1, r1, B);
      assert false;
    }
    assert B * 0 == 0;
  }

  // ---------- The unrolled form ----------

  /** STEP(k, ...): the MULADD pairs of one column written out, then store and shift. */
  method Step(result: array<nat>, left: array<nat>, right: array<nat>, k: nat, pairs: seq<(nat, nat)>,
              ghost from: nat, r0: nat, r1: nat, ghost n: nat, W: nat)
    returns (s0: nat, s1: nat)
    requires n < Base(W) && IsWords(left[..], n, Base(W)) && IsWords(right[..], n, Base(W))
    requires k < result.Length && result != left && result != right
    requires from + n == k + 1 || (from == 0 && k < n)
    requires from + |pairs| == k + 1 || (from + |pairs| == n && k >= n)
    requires from + |pairs| <= n
    requires forall j :: 0 <= j < |pairs| ==> pairs[j].0 == from + j && pairs[j].1 == k - from - j
    requires Running(result[..], left[..], right[..], n, k, r0, r1, Base(W))
    modifies result
    ensures forall j :: 0 <= j < result.Length && j != k ==> result[j] == old(result[j])
    ensures Running(result[..], left[..], right[..], n, k + 1, s0, s1, Base(W))
  {
    ghost var B, L, R, before := Base(W), left[..], right[..], result[..];
    var q0: nat, q1: nat, q2: nat := r0, r1, 0;
    assert B * 0 == 0;
    for j := 0 to |pairs|
      modifies {}
      invariant q0 < B && q1 < B && q2 <= j
      invariant Acc(q0, q1, q2, B) == Carry(r0, r1, B) + Terms(L, R, n, k, from, from + j)
    {
      q0, q1, q2 := MulAdd(left[pairs[j].0], right[pairs[j].1], q0, q1, q2, W);
    }
    result[k] := q0;
    s0, s1 := q1, q2;
    ColumnDone(before, result[..], L, R, n, k, from, from + |pairs|, r0, r1, s0, s1, B);
  }

  ghost predicate Factors8(result: array<nat>, left: array<nat>, right: array<nat>, W: nat)
    reads left, right
  {
    && 8 < Base(W) && 16 <= result.Length
    && IsWords(left[..], 8, Base(W)) && IsWords(right[..], 8, Base(W))
    && result != left && result != right
  }

  method Steps0to5(result: array<nat>, left: array<nat>, right: array<nat>, W: nat) returns (r0: nat, r1: nat)
    requires Factors8(result, left, right, W)
    modifies result
    ensures forall j :: 6 <= j < result.Length ==> result[j] == old(result[j])
    ensures Running(result[..], left[..], right[..], 8, 6, r0, r1, Base(W))
  {
    r0, r1 := 0, 0;
    assert Base(W) * 0 == 0 && 0 * Pow(Base(W), 0) == 0;
    r0, r1 := Step(result, left, right, 0, [(0, 0)], 0, r0, r1, 8, W);
    r0, r1 := Step(result, left, right, 1, [(0, 1), (1, 0)], 0, r0, r1, 8, W);
    r0, r1 := Step(result, left, right, 2, [(0, 2), (1, 1), (2, 0)], 0, r0, r1, 8, W);
    r0, r1 := Step(result, left, right, 3, [(0, 3), (1, 2), (2, 1), (3, 0)], 0, r0, r1, 8, W);
    r0, r1 := Step(result, left, right, 4, [(0, 4), (1, 3), (2, 2), (3, 1), (4, 0)], 0, r0, r1, 8, W);
    r0, r1 := Step(result, left, right, 5, [(0, 5), (1, 4), (2, 3), (3, 2), (4, 1), (5, 0)], 0, r0, r1, 8, W);
  }

  method Steps6to9(result: array<nat>, left: array<nat>, right: array<nat>, q0: nat, q1: nat, W: nat)
    returns (r0: nat, r1: nat)
    requires Factors8(result, left, right, W)
    requires Running(result[..], left[..], right[..], 8, 6, q0, q1, Base(W))
    modifies result
    ensures forall j :: 10 <= j < result.Length ==> result[j] == old(result[j])
    ensures Running(result[..], left[..], right[..], 8, 10, r0, r1, Base(W))
  {
    r0, r1 := q0, q1;
    r0, r1 := Step(result, left, right, 6, [(0, 6), (1, 5), (2, 4), (3, 3), (4, 2), (5, 1), (6, 0)], 0, r0, r1, 8, W);
    r0, r1 := Step(result, left, right, 7,
                   [(0, 7), (1, 6), (2, 5), (3, 4), (4, 3), (5, 2), (6, 1), (7, 0)], 0, r0, r1, 8, W);
    r0, r1 := Step(result, left, right, 8, [(1, 7), (2, 6), (3, 5), (4, 4), (5, 3), (6, 2), (7, 1)], 1, r0, r1, 8, W);
    r0, r1 := Step(result, left, right, 9, [(2, 7), (3, 6), (4, 5), (5, 4), (6, 3), (7, 2)], 2, r0, r1, 8, W);
  }

  method Steps10to14(result: array<nat>, left: array<nat>, right: array<nat>, q0: nat, q1: nat, W: nat)
    returns (r0: nat, r1: nat)
    requires Factors8(result, left, right, W)
    requires Running(result[..], left[..], right[..], 8, 10, q0, q1, Base(W))
    modifies result
    ensures forall j :: 15 <= j < result.Length ==> result[j] == old(result[j])
    ensures Running(result[..], left[..], right[..], 8, 15, r0, r1, Base(W))
  {
    r0, r1 := q0, q1;
    r0, r1 := Step(result, left, right, 10, [(3, 7), (4, 6), (5, 5), (6, 4), (7, 3)], 3, r0, r1, 8, W);
    r0, r1 := Step(result, left, right, 11, [(4, 7), (5, 6), (6, 5), (7, 4)], 4, r0, r1, 8, W);
    r0, r1 := Step(result, left, right, 12, [(5, 7), (6, 6), (7, 5)], 5, r0, r1, 8, W);
    r0, r1 := Step(result, left, right, 13, [(6, 7), (7, 6)], 6, r0, r1, 8, W);
    r0, r1 := Step(result, left, right, 14, [(7, 7)], 7, r0, r1, 8, W);
  }

  /** uECC_vli_mult under TKEY_UECC_OPT: eight words, fifteen written-out columns. It
      returns what the loop form returns for n = 8. */
  method Mult8(result: array<nat>, left: array<nat>, right: array<nat>, W: nat)
    requires Factors8(result, left, right, W)
    modifies result
    ensures OnlyPrefixChanged(old(result[..]), result[..], 16) && IsWords(result[..], 16, Base(W))
    ensures Val(result[..], 16, Base(W)) == Val(left[..], 8, Base(W)) * Val(right[..], 8, Base(W))
  {
    var r0, r1 := Steps0to5(result, left, right, W);
    r0, r1 := Steps6to9(result, left, right, r0, r1, W);
    r0, r1 := Steps10to14(result, left, right, r0, r1, W);
    label Last:
    result[15] := r0;
    Finish(old@Last(result[..]), result[..], left[..], right[..], 8, r0, r1, Base(W));
  }

  // ---------- Squaring ----------

  /** A term and its mirror image extend the terms met from both ends. */
  lemma MirrorPair(l: seq<nat>, n: nat, k: nat, min: nat, i: nat, to: nat)
    requires n <= |l| && min <= i < n && i < k - i < n && k - i < to
    ensures Terms(l, l, n, k, min, i + 1) + Terms(l, l, n, k, k - i, to)
         == Terms(l, l, n, k, min, i) + Terms(l, l, n, k, k + 1 - i, to) + 2 * (l[i] * l[k - i])
  {
    TermsSplit(l, l, n, k, k - i, k + 1 - i, to);
    assert Terms(l, l, n, k, k - i, k + 1 - i) == Terms(l, l, n, k, k - i, k - i) + Term(l, l, n, k, k - i);
    assert Term(l, l, n, k, k - i) == l[i] * l[k - i];
  }

  /** The terms of one column of the square: each cross term once, doubled; the middle
      one single. Those met so far are the ones below i and, mirrored, above k - i. */
  method SquareTerms(left: array<nat>, k: nat, min: nat, r0: nat, r1: nat, n: nat, W: nat)
    returns (q0: nat, q1: nat, q2: nat)
    requires 0 < n < Base(W) && IsWords(left[..], n, Base(W)) && k < 2 * n - 1
    requires min == (if k < n then 0 else k + 1 - n)
    requires r0 < Base(W) && r1 < Base(W)
    ensures q0 < Base(W) && q1 < Base(W) && q2 < Base(W)
    ensures Acc(q0, q1, q2, Base(W)) == Carry(r0, r1, Base(W)) + Terms(left[..], left[..], n, k, min, k + 1 - min)
  {
    ghost var B, L, to := Base(W), left[..], k + 1 - min;
    q0, q1, q2 := r0, r1, 0;
    assert B * 0 == 0;
    var i := min;
    ghost var top := to;
    while i <= k && i <= k - i
      invariant min <= i <= top <= to && (top == k + 1 - i || (top == i && 2 * i > k))
      invariant q0 < B && q1 < B && q2 <= i - min + to - top
      invariant Acc(q0, q1, q2, B) == Carry(r0, r1, B) + (Terms(L, L, n, k, min, i) + Terms(L, L, n, k, top, to))
    {
      if i < k - i {
        MirrorPair(L, n, k, min, i, to);
        q0, q1, q2 := Mul2Add(left[i], left[k - i], q0, q1, q2, W);
        top := k - i;
      } else {
        q0, q1, q2 := MulAdd(left[i], left[k - i], q0, q1, q2, W);
      }
      i := i + 1;
    }
    TermsSplit(L, L, n, k, min, i, to);
  }

  /** One column of the square. */
  method SquareColumn(result: array<nat>, left: array<nat>, k: nat, r0: nat, r1: nat, n: nat, W: nat)
    returns (s0: nat, s1: nat)
    requires 0 < n < Base(W) && IsWords(left[..], n, Base(W)) && result != left
    requires k < 2 * n - 1 && k < result.Length
    requires Running(result[..], left[..], left[..], n, k, r0, r1, Base(W))
    modifies result
    ensures forall j :: 0 <= j < result.Length && j != k ==> result[j] == old(result[j])
    ensures Running(result[..], left[..], left[..], n, k + 1, s0, s1, Base(W))
  {
    var min := if k < n then 0 else k + 1 - n;
    var q0, q1, q2 := SquareTerms(left, k, min, r0, r1, n, W);
    result[k] := q0;
    s0, s1 := q1, q2;
    ColumnDone(old(result[..]), result[..], left[..], left[..], n, k, min, k + 1 - min, r0, r1, s0, s1, Base(W));
  }

  /** uECC_vli_square: the value of uECC_vli_mult(result, left, left). */
  method Square(result: array<nat>, left: array<nat>, n: nat, W: nat)
    requires 0 < n < Base(W) && 2 * n <= result.Length
    requires IsWords(left[..], n, Base(W)) && result != left
    modifies result
    ensures OnlyPrefixChanged(old(result[..]), result[..], 2 * n) && IsWords(result[..], 2 * n, Base(W))
    ensures Val(result[..], 2 * n, Base(W)) == Val(left[..], n, Base(W)) * Val(left[..], n, Base(W))
  {
    var r0: nat, r1: nat := 0, 0;
    assert Base(W) * 0 == 0 && 0 * Pow(Base(W), 0) == 0;
    for k := 0 to 2 * n - 1
      invariant OnlyPrefixChanged(old(result[..]), result[..], 2 * n)
      invariant Running(result[..], left[..], left[..], n, k, r0, r1, Base(W))
    {
      r0, r1 := SquareColumn(result, left, k, r0, r1, n, W);
    }
    label Last:
    result[2 * n - 1] := r0;
    Finish(old@Last(result[..]), result[..], left[..], left[..], n, r0, r1, Base(W));
  }
}
