/** The word-array routines of crypto/micro-ecc/uECC.c. Every array argument may
    be the result array too, as the source allows ("can modify in place"). */
module Vli {
  import opened Words

  ghost predicate OnlyPrefixChanged(before: seq<nat>, after: seq<nat>, n: nat) {
    |before| == |after| && forall i :: n <= i < |after| ==> after[i] == before[i]
  }

  /** A carry or borrow of weight P. */
  ghost function Once(bit: nat, P: nat): nat {
    if bit == 0 then 0 else P
  }

  lemma OnceColumn(w: int, carry: nat, l: int, r: int, c: nat, B: nat, P: nat)
    requires carry <= 1 && c <= 1 && w + Once(carry, B) == l + r + c
    ensures w * P + Once(carry, B * P) == l * P + r * P + Once(c, P)
  {
    assert (l + r + c) * P == l * P + r * P + c * P;
    assert (w + Once(carry, B)) * P == w * P + Once(carry, B) * P;
  }

  /** One column of the addition loop: the carry test on a wrapped sum is exact. */
  lemma CarryExact(l: nat, r: nat, carry: nat, B: nat)
    requires l < B && r < B && carry <= 1
    ensures var sum := (l + r + carry) % B;
            var c := if sum != l then (if sum < l then 1 else 0) else carry;
            sum + Once(c, B) == l + r + carry
  {
    if l + r + carry < B {
      ModSmall(l + r + carry, 0, B);
    } else {
      ModSmall(l + r + carry - B, 1, B);
    }
  }

  /** One column of the subtraction loop: the borrow test on a wrapped difference is exact. */
  lemma BorrowExact(l: nat, r: nat, borrow: nat, B: nat)
    requires l < B && r < B && borrow <= 1
    ensures var diff := (l - r - borrow) % B;
            var b := if diff != l then (if diff > l then 1 else 0) else borrow;
            diff + r + borrow == l + Once(b, B)
  {
    if l - r - borrow >= 0 {
      ModSmall(l - r - borrow, 0, B);
    } else {
      ModSmall(l - r - borrow + B, -1, B);
    }
  }

  /** One more word of result + carry = left + right. */
  lemma AddStep(before: seq<nat>, after: seq<nat>, L: seq<nat>, R: seq<nat>, i: nat, c: nat, carry: nat, B: nat)
    requires i < |before| == |after| && i < |L| && i < |R|
    requires forall j :: 0 <= j < i ==> before[j] == after[j]
    requires after[i] + Once(carry, B) == L[i] + R[i] + c && carry <= 1 && c <= 1
    requires Val(before, i, B) + Once(c, Pow(B, i)) == Val(L, i, B) + Val(R, i, B)
    ensures Val(after, i + 1, B) + Once(carry, Pow(B, i + 1)) == Val(L, i + 1, B) + Val(R, i + 1, B)
  {
    ValAgree(before, after, i, B);
    OnceColumn(after[i], carry, L[i], R[i], c, B, Pow(B, i));
  }

  /** One more word of result + right = left + borrow. */
  lemma SubStep(before: seq<nat>, after: seq<nat>, L: seq<nat>, R: seq<nat>, i: nat, b: nat, borrow: nat, B: nat)
    requires i < |before| == |after| && i < |L| && i < |R|
    requires forall j :: 0 <= j < i ==> before[j] == after[j]
    requires after[i] + R[i] + b == L[i] + Once(borrow, B) && borrow <= 1 && b <= 1
    requires Val(before, i, B) + Val(R, i, B) == Val(L, i, B) + Once(b, Pow(B, i))
    ensures Val(after, i + 1, B) + Val(R, i + 1, B) == Val(L, i + 1, B) + Once(borrow, Pow(B, i + 1))
  {
    ValAgree(before, after, i, B);
    OnceColumn(L[i], borrow, after[i], R[i], b, B, Pow(B, i));
  }

  /** uECC_vli_add: result = left + right, returning the carry. */
  method Add(result: array<nat>, left: array<nat>, right: array<nat>, n: nat, W: nat) returns (carry: nat)
    requires n <= result.Length
    requires IsWords(left[..], n, Base(W)) && IsWords(right[..], n, Base(W))
    modifies result
    ensures OnlyPrefixChanged(old(result[..]), result[..], n) && IsWords(result[..], n, Base(W)) && carry <= 1
    ensures Val(result[..], n, Base(W)) + Once(carry, Pow(Base(W), n))
         == old(Val(left[..], n, Base(W))) + old(Val(right[..], n, Base(W)))
  {
    var B := Base(W);
    ghost var L, R, O := left[..], right[..], result[..];
    carry := 0;
    for i := 0 to n
      invariant carry <= 1
      invariant forall j :: i <= j < n ==> left[j] == L[j] && right[j] == R[j]
      invariant forall j :: i <= j < result.Length ==> result[j] == O[j]
      invariant IsWords(result[..], i, B)
      invariant Val(result[..], i, B) + Once(carry, Pow(B, i)) == Val(L, i, B) + Val(R, i, B)
    {
      ghost var before, c := result[..], carry;
      var sum := (left[i] + right[i] + carry) % B;
      CarryExact(left[i], right[i], carry, B);
      if sum != left[i] {
        carry := if sum < left[i] then 1 else 0;
      }
      result[i] := sum;
      AddStep(before, result[..], L, R, i, c, carry, B);
    }
  }

  /** uECC_vli_sub: result = left - right, returning the borrow. */
  method Sub(result: array<nat>, left: array<nat>, right: array<nat>, n: nat, W: nat) returns (borrow: nat)
    requires n <= result.Length
    requires IsWords(left[..], n, Base(W)) && IsWords(right[..], n, Base(W))
    modifies result
    ensures OnlyPrefixChanged(old(result[..]), result[..], n) && IsWords(result[..], n, Base(W)) && borrow <= 1
    ensures Val(result[..], n, Base(W)) + old(Val(right[..], n, Base(W)))
         == old(Val(left[..], n, Base(W))) + Once(borrow, Pow(Base(W), n))
    ensures borrow == 1 <==> old(Val(left[..], n, Base(W))) < old(Val(right[..], n, Base(W)))
  {
    var B := Base(W);
    ghost var L, R, O := left[..], right[..], result[..];
    borrow := 0;
    for i := 0 to n
      invariant borrow <= 1
      invariant forall j :: i <= j < n ==> left[j] == L[j] && right[j] == R[j]
      invariant forall j :: i <= j < result.Length ==> result[j] == O[j]
      invariant IsWords(result[..], i, B)
      invariant Val(result[..], i, B) + Val(R, i, B) == Val(L, i, B) + Once(borrow, Pow(B, i))
    {
      ghost var before, b := result[..], borrow;
      var diff := (left[i] - right[i] - borrow) % B;
      BorrowExact(left[i], right[i], borrow, B);
      if diff != left[i] {
        borrow := if diff > left[i] then 1 else 0;
      }
      result[i] := diff;
      SubStep(before, result[..], L, R, i, b, borrow, B);
    }
    ValBound(result[..], n, B);
    ValBound(R, n, B);
    ValBound(L, n, B);
  }

  function Sign(l: int, r: int): int {
    if l < r then -1 else if l == r then 0 else 1
  }

  /** uECC_vli_cmp_unsafe. */
  method CmpUnsafe(left: array<nat>, right: array<nat>, n: nat, W: nat) returns (r: int)
    requires IsWords(left[..], n, Base(W)) && IsWords(right[..], n, Base(W))
    ensures r == Sign(Val(left[..], n, Base(W)), Val(right[..], n, Base(W)))
  {
    ghost var B := Base(W);
    var i := n;
    while i > 0
      invariant 0 <= i <= n
      invariant forall j :: i <= j < n ==> left[j] == right[j]
    {
      i := i - 1;
      if left[i] > right[i] {
        ValLess(right[..], left[..], i, n, B);
        return 1;
      } else if left[i] < right[i] {
        ValLess(left[..], right[..], i, n, B);
        return -1;
      }
    }
    ValAgree(left[..], right[..], n, B);
    return 0;
  }

  /** uECC_vli_isZero: or all the words together. */
  method IsZero(vli: array<nat>, n: nat, W: nat) returns (zero: bool)
    requires n <= vli.Length
    ensures zero <==> Val(vli[..], n, Base(W)) == 0
  {
    var bits := 0;
    for i := 0 to n
      invariant bits == 0 <==> forall j :: 0 <= j < i ==> vli[j] == 0
    {
      bits := BitOr(bits, vli[i]);
    }
    ValZero(vli[..], n, Base(W));
    return bits == 0;
  }

  /** uECC_vli_cmp: the sign of left - right from one subtraction. */
  method Cmp(left: array<nat>, right: array<nat>, n: nat, W: nat) returns (r: int)
    requires IsWords(left[..], n, Base(W)) && IsWords(right[..], n, Base(W))
    ensures r == Sign(Val(left[..], n, Base(W)), Val(right[..], n, Base(W)))
  {
    var tmp := new nat[n];
    var neg := Sub(tmp, left, right, n, W);
    var equal := IsZero(tmp, n, W);
    ValBound(left[..], n, Base(W));
    ValBound(right[..], n, Base(W));
    r := if equal then 0 else 1;
    r := r - 2 * neg;
  }

  /** uECC_vli_clear. */
  method Clear(vli: array<nat>, n: nat)
    requires n <= vli.Length
    modifies vli
    ensures OnlyPrefixChanged(old(vli[..]), vli[..], n)
    ensures forall i :: 0 <= i < n ==> vli[i] == 0
  {
    for i := 0 to n
      invariant forall j :: 0 <= j < i ==> vli[j] == 0
      invariant forall j :: i <= j < vli.Length ==> vli[j] == old(vli[j])
    {
      vli[i] := 0;
    }
  }

  /** uECC_vli_set. */
  method Set(dest: array<nat>, src: array<nat>, n: nat)
    requires n <= dest.Length && n <= src.Length
    modifies dest
    ensures OnlyPrefixChanged(old(dest[..]), dest[..], n)
    ensures dest[..n] == old(src[..n])
  {
    for i := 0 to n
      invariant forall j :: 0 <= j < i ==> dest[j] == old(src[j])
      invariant forall j :: i <= j < dest.Length ==> dest[j] == old(dest[j])
      invariant forall j :: i <= j < n ==> src[j] == old(src[j])
    {
      dest[i] := src[i];
    }
  }

  /** The lowest bit of word i, or zero above the top word. */
  ghost function LowBit(s: seq<nat>, i: nat, n: nat): nat
    requires n <= |s|
  {
    if i < n then s[i] % 2 else 0
  }

  /** The carry that word i hands down when shifted right: its low bit as a high bit. */
  ghost function HandDown(s: seq<nat>, i: nat, n: nat, half: nat): nat
    requires n <= |s|
  {
    if i < n && s[i] % 2 == 1 then half else 0
  }

  /** Or-ing in a bit above the others. */
  lemma OrTopBit(carry: nat, lo: nat, half: nat, k: nat)
    requires half == Pow(2, k) && lo < half && (carry == 0 || carry == half)
    ensures BitOr(carry, lo) == carry + lo
  {
    BitOrDisjoint(if carry == 0 then 0 else 1, lo, k);
    assert 0 * half == 0 && 1 * half == half;
  }

  lemma HalvedWord(w: int, x: int, b: int, half: int, B: int, P: int)
    requires x == w / 2 + b * half && B == 2 * half
    ensures 2 * (x * P) + w % 2 * P == w * P + b * (B * P)
  {
    assert 2 * x + w % 2 == w + b * B by { assert b * (2 * half) == 2 * (b * half); }
    assert (2 * x + w % 2) * P == 2 * (x * P) + w % 2 * P;
    assert (w + b * B) * P == w * P + b * (B * P);
  }

  /** Words that each took the low bit of the word above hold half the number. */
  lemma {:induction false} HalvedPrefix(now: seq<nat>, was: seq<nat>, m: nat, n: nat, half: nat, B: nat)
    requires m <= n <= |was| && n <= |now| && B == 2 * half
    requires forall i :: 0 <= i < m ==> now[i] == was[i] / 2 + HandDown(was, i + 1, n, half)
    ensures 2 * Val(now, m, B) + LowBit(was, 0, n) == Val(was, m, B) + LowBit(was, m, n) * Pow(B, m)
  {
    if m == 0 {
      assert LowBit(was, 0, n) * 1 == LowBit(was, 0, n);
    } else {
      HalvedPrefix(now, was, m - 1, n, half, B);
      assert 0 * half == 0 && 1 * half == half;
      HalvedWord(was[m - 1], now[m - 1], LowBit(was, m, n), half, B, Pow(B, m - 1));
    }
  }

  /** uECC_vli_rshift1 on the n words of vli that start at off. */
  method RShift1(vli: array<nat>, off: nat, n: nat, W: nat)
    requires off + n <= vli.Length && W > 0
    requires IsWords(vli[off..], n, Base(W))
    modifies vli
    ensures forall i :: 0 <= i < vli.Length && !(off <= i < off + n) ==> vli[i] == old(vli[i])
    ensures IsWords(vli[off..], n, Base(W))
    ensures Val(vli[off..], n, Base(W)) == old(Val(vli[off..], n, Base(W))) / 2
    ensures n > 0 ==> vli[off + n - 1] == old(vli[off + n - 1]) / 2
  {
    ghost var B, O := Base(W), vli[off..];
    var half := Pow(2, W - 1);
    var carry := 0;
    var i := n;
    while i > 0
      invariant 0 <= i <= n
      invariant carry == HandDown(O, i, n, half)
      invariant forall j :: 0 <= j < vli.Length && !(off + i <= j < off + n) ==> vli[j] == old(vli[j])
      invariant forall j :: off + i <= j < off + n ==> vli[j] == old(vli[j]) / 2 + HandDown(O, j + 1 - off, n, half)
    {
      i := i - 1;
      var temp := vli[off + i];
      OrTopBit(carry, temp / 2, half, W - 1);
      vli[off + i] := BitOr(carry, temp / 2);
      carry := if temp % 2 == 1 then half else 0;
    }
    HalvedPrefix(vli[off..], O, n, n, half, B);
    assert 0 * Pow(B, n) == 0;
  }

  /** Taking off the lowest word. */
  lemma ValCons(s: seq<nat>, n: nat, B: nat)
    requires 0 < n <= |s|
    ensures Val(s, n, B) == s[0] + B * Val(s[1..], n - 1, B)
  {
    ValSplit(s, 1, n - 1, B);
    assert Pow(B, 1) == B * Pow(B, 0) == B;
    assert Val(s, 1, B) == s[0] * Pow(B, 0) == s[0];
  }
}
