/** Multi-word integers: a sequence of words in base B, least significant word
    first, stands for one natural number. The word size (1, 4 or 8 bytes in the
    source) and the number of words stay symbolic. */
module Words {

  function Pow(b: nat, n: nat): nat {
    if n == 0 then 1 else b * Pow(b, n - 1)
  }

  /** The base of W-bit machine words. */
  function Base(W: nat): (B: nat)
    ensures B > 0
    ensures W > 0 ==> B == 2 * Pow(2, W - 1) && B % 2 == 0
  {
    PowPositive(2, W);
    Pow(2, W)
  }

  /** Bitwise or of two words. */
  function BitOr(x: nat, y: nat): (r: nat)
    ensures r == 0 <==> x == 0 && y == 0
    decreases x + y
  {
    if x == 0 && y == 0 then 0
    else 2 * BitOr(x / 2, y / 2) + (if x % 2 == 1 || y % 2 == 1 then 1 else 0)
  }

  /** Or-ing words without a common bit adds them. */
  lemma {:induction false} BitOrDisjoint(hi: nat, lo: nat, k: nat)
    requires lo < Pow(2, k)
    ensures BitOr(hi * Pow(2, k), lo) == hi * Pow(2, k) + lo
    decreases k
  {
    if k == 0 {
      assert lo == 0;
      assert hi * Pow(2, 0) == hi;
      BitOrZero(hi);
    } else {
      var P := Pow(2, k - 1);
      assert hi * (2 * P) == 2 * (hi * P);
      BitOrDisjoint(hi, lo / 2, k - 1);
    }
  }

  lemma {:induction false} BitOrZero(x: nat)
    ensures BitOr(x, 0) == x
  {
    if x > 0 { BitOrZero(x / 2); }
  }

  /** The first n elements of s are machine words in base B. */
  ghost predicate IsWords(s: seq<nat>, n: nat, B: nat) {
    n <= |s| && forall i :: 0 <= i < n ==> s[i] < B
  }

  /** The number held by the first n words of s. */
  ghost function Val(s: seq<nat>, n: nat, B: nat): nat
    requires n <= |s|
  {
    if n == 0 then 0 else Val(s, n - 1, B) + s[n - 1] * Pow(B, n - 1)
  }

  lemma {:induction false} PowPositive(b: nat, n: nat)
    requires b > 0
    ensures Pow(b, n) > 0
  {
    if n > 0 {
      PowPositive(b, n - 1);
      MulPositive(b, Pow(b, n - 1));
    }
  }

  lemma MulPositive(x: int, y: int)
    requires x > 0 && y > 0
    ensures x * y > 0
  {}

  lemma MulPositiveOrZero(x: nat, y: nat)
    ensures x * y >= 0
  {}

  lemma MulMono(x: int, y: int, z: int)
    requires x <= y && z >= 0
    ensures x * z <= y * z
  {}

  lemma MulNext(w: int, P: int)
    ensures (w + 1) * P == w * P + P
  {}

  lemma MulInto(P: int, v: int, w: int, Q: int)
    ensures P * (v + w * Q) == P * v + w * (P * Q)
  {
    assert P * (v + w * Q) == P * v + P * (w * Q);
  }

  lemma MulAssoc(a: int, b: int, c: int)
    ensures a * (b * c) == a * b * c
  {}

  lemma DivMod(x: nat, m: nat)
    requires m > 0
    ensures x == x % m + x / m * m
    ensures x / m >= 0
  {
    var q, r := x / m, x % m;
    assert x == m * q + r;
    if q < 0 { MulMono(q, -1, m); assert false; }
  }

  lemma ModSmall(x: int, k: int, B: nat)
    requires 0 <= x < B
    ensures (x + k * B) % B == x
  {
    var q, r := (x + k * B) / B, (x + k * B) % B;
    assert x + k * B == B * q + r;
    assert x - r == B * (q - k);
    if q - k >= 1 { MulMono(1, q - k, B); assert false; }
    if q - k <= -1 { MulMono(q - k, -1, B); assert false; }
  }

  lemma {:induction false} PowAdd(b: nat, m: nat, n: nat)
    ensures Pow(b, m + n) == Pow(b, m) * Pow(b, n)
  {
    if m == 0 {
      assert Pow(b, 0) * Pow(b, n) == Pow(b, n);
    } else {
      PowAdd(b, m - 1, n);
      MulAssoc(b, Pow(b, m - 1), Pow(b, n));
    }
  }

  lemma {:induction false} PowPow(b: nat, m: nat, n: nat)
    ensures Pow(Pow(b, m), n) == Pow(b, m * n)
  {
    if n == 0 {
      assert m * n == 0;
    } else {
      PowPow(b, m, n - 1);
      assert m * n == m + m * (n - 1);
      PowAdd(b, m, m * (n - 1));
    }
  }

  lemma {:induction false} ValAgree(s: seq<nat>, t: seq<nat>, n: nat, B: nat)
    requires n <= |s| && n <= |t|
    requires forall i :: 0 <= i < n ==> s[i] == t[i]
    ensures Val(s, n, B) == Val(t, n, B)
  {
    if n > 0 { ValAgree(s, t, n - 1, B); }
  }

  lemma {:induction false} ValBound(s: seq<nat>, n: nat, B: nat)
    requires IsWords(s, n, B)
    ensures Val(s, n, B) < Pow(B, n)
  {
    if n > 0 {
      ValBound(s, n - 1, B);
      var P := Pow(B, n - 1);
      MulMono(s[n - 1] + 1, B, P);
      MulNext(s[n - 1], P);
    }
  }

  /** The number is zero exactly when all its words are. */
  lemma {:induction false} ValZero(s: seq<nat>, n: nat, B: nat)
    requires n <= |s| && B > 0
    ensures Val(s, n, B) == 0 <==> forall i :: 0 <= i < n ==> s[i] == 0
  {
    if n > 0 {
      ValZero(s, n - 1, B);
      PowPositive(B, n - 1);
      if s[n - 1] > 0 {
        MulPositive(s[n - 1], Pow(B, n - 1));
      } else {
        assert s[n - 1] * Pow(B, n - 1) == 0;
      }
    }
  }

  /** Splitting off the low m words. */
  lemma {:induction false} ValSplit(s: seq<nat>, m: nat, n: nat, B: nat)
    requires m + n <= |s|
    ensures Val(s, m + n, B) == Val(s, m, B) + Pow(B, m) * Val(s[m..], n, B)
  {
    if n == 0 {
      assert Pow(B, m) * Val(s[m..], 0, B) == 0;
    } else {
      ValSplit(s, m, n - 1, B);
      PowAdd(B, m, n - 1);
      assert s[m..][n - 1] == s[m + n - 1];
      MulInto(Pow(B, m), Val(s[m..], n - 1, B), s[m + n - 1], Pow(B, n - 1));
    }
  }

  /** Two numbers that agree above word i and differ in word i are ordered as word i. */
  lemma {:induction false} ValLess(s: seq<nat>, t: seq<nat>, i: nat, n: nat, B: nat)
    requires i < n && IsWords(s, n, B) && n <= |t|
    requires s[i] < t[i]
    requires forall j :: i < j < n ==> s[j] == t[j]
    ensures Val(s, n, B) < Val(t, n, B)
    decreases n
  {
    if i == n - 1 {
      ValBound(s, i, B);
      var P := Pow(B, i);
      MulMono(s[i] + 1, t[i], P);
      MulNext(s[i], P);
    } else {
      ValLess(s, t, i, n - 1, B);
    }
  }

  /** Zero words on top do not change the number. */
  lemma {:induction false} ValTrim(s: seq<nat>, m: nat, n: nat, B: nat)
    requires m <= n <= |s|
    requires forall i :: m <= i < n ==> s[i] == 0
    ensures Val(s, n, B) == Val(s, m, B)
    decreases n
  {
    if m < n {
      ValTrim(s, m, n - 1, B);
      assert s[n - 1] * Pow(B, n - 1) == 0;
    }
  }

  lemma {:induction false} PowMono(b: nat, m: nat, n: nat)
    requires b > 0 && m <= n
    ensures Pow(b, m) <= Pow(b, n)
    decreases n
  {
    if m < n {
      PowMono(b, m, n - 1);
      MulMono(1, b, Pow(b, n - 1));
    }
  }

  /** A number below B^m has only zero words from m on. */
  lemma {:induction false} ValSmall(s: seq<nat>, m: nat, n: nat, B: nat)
    requires m <= n && IsWords(s, n, B)
    requires Val(s, n, B) < Pow(B, m) && B > 0
    ensures forall i :: m <= i < n ==> s[i] == 0
    decreases n
  {
    if m < n {
      PowMono(B, m, n - 1);
      var P := Pow(B, n - 1);
      if s[n - 1] > 0 {
        MulMono(1, s[n - 1], P);
        assert false;
      }
      ValSmall(s, m, n - 1, B);
    }
  }
}
