/** The binary-GCD modular inverse of crypto/micro-ecc/uECC.c. */
module ModInv {
  import opened Words
  import opened Vli
  import opened VliMod

  ghost predicate Divides(d: int, x: int) {
    d > 0 && x % d == 0
  }

  ghost predicate IsGcd(g: int, x: int, y: int) {
    Divides(g, x) && Divides(g, y) && forall d :: Divides(d, x) && Divides(d, y) ==> Divides(d, g)
  }

  ghost predicate Coprime(x: int, y: int) {
    forall d :: Divides(d, x) && Divides(d, y) ==> d == 1
  }

  lemma DividesMultiple(d: int, k: int)
    requires d > 0
    ensures Divides(d, k * d)
  {
    ModSmall(0, k, d);
  }

  lemma FactorOut(s: int, t: int, p: int, q: int, d: int)
    ensures s * (p * d) + t * (q * d) == (s * p + t * q) * d
  {
    MulAssoc(s, p, d);
    MulAssoc(t, q, d);
    assert (s * p + t * q) * d == s * p * d + t * q * d;
  }

  lemma Quotient(d: int, x: int) returns (q: int)
    requires Divides(d, x)
    ensures x == q * d
  {
    q := x / d;
  }

  lemma DividesSum(d: int, x: int, y: int, s: int, t: int)
    requires Divides(d, x) && Divides(d, y)
    ensures Divides(d, s * x + t * y)
  {
    var p := Quotient(d, x);
    var q := Quotient(d, y);
    FactorOut(s, t, p, q, d);
    DividesMultiple(d, s * p + t * q);
  }

  // ---------- What one round keeps ----------

  /** Integers that tie a and b to the input i and the modulus m: i and m are
      combinations of a and b, and u * i, v * i are a, b up to multiples of m. */
  datatype Ties = Ties(x: int, y: int, z: int, w: int, ka: int, kb: int) {
    function Swap(): Ties {
      Ties(y, x, w, z, kb, ka)
    }
  }

  ghost predicate Tied(a: int, b: int, u: int, v: int, i: int, m: int, t: Ties) {
    && a > 0 && b > 0 && (a % 2 == 1 || b % 2 == 1)
    && 0 <= u < m && 0 <= v < m
    && Congruent(u * i, a, t.ka, m) && Congruent(v * i, b, t.kb, m)
    && Combined(i, t.x, a, t.y, b) && Combined(m, t.z, a, t.w, b)
  }

  ghost predicate Congruent(p: int, a: int, k: int, m: int) {
    p == a + k * m
  }

  ghost predicate Combined(i: int, x: int, a: int, y: int, b: int) {
    i == x * a + y * b
  }

  lemma TiedSwap(a: int, b: int, u: int, v: int, i: int, m: int, t: Ties)
    requires Tied(a, b, u, v, i, m, t)
    ensures Tied(b, a, v, u, i, m, t.Swap())
  {}

  /** Halving an even a together with u modulo m. */
  lemma TiedHalve(a: int, b: int, u: int, v: int, i: int, m: int, t: Ties, u': int, e: int) returns (t': Ties)
    requires Tied(a, b, u, v, i, m, t) && a % 2 == 0 && m % 2 == 1
    requires 2 * u' == u + e * m && 0 <= u' < m
    ensures Tied(a / 2, b, u', v, i, m, t')
  {
    t' := Ties(2 * t.x, t.y, 2 * t.z, t.w, (t.ka + e * i) / 2, t.kb);
    HalfCongruence(u, u', e, i, a, t.ka, m);
    CombinedHalf(i, t.x, a, t.y, b);
    CombinedHalf(m, t.z, a, t.w, b);
  }

  lemma CombinedHalf(i: int, x: int, a: int, y: int, b: int)
    requires Combined(i, x, a, y, b) && a % 2 == 0
    ensures Combined(i, 2 * x, a / 2, y, b)
  {
    assert x * (2 * (a / 2)) == 2 * x * (a / 2);
  }

  lemma HalfCongruence(u: int, u': int, e: int, i: int, a: int, ka: int, m: int)
    requires Congruent(u * i, a, ka, m) && 2 * u' == u + e * m && a % 2 == 0 && m % 2 == 1
    ensures Congruent(u' * i, a / 2, (ka + e * i) / 2, m)
  {
    var K, D := ka + e * i, u' * i - a / 2;
    assert 2 * u' * i == (u + e * m) * i;
    assert (u + e * m) * i == u * i + e * i * m by {
      assert (u + e * m) * i == u * i + e * m * i;
    }
    assert (ka + e * i) * m == ka * m + e * i * m;
    assert 2 * D == K * m;
    OddFactor(D, K, m);
    assert K == 2 * (K / 2);
    assert 2 * (K / 2) * m == 2 * (K / 2 * m);
  }

  lemma OddFactor(D: int, K: int, m: int)
    requires 2 * D == K * m && m % 2 == 1
    ensures K % 2 == 0
  {
    var j := m / 2;
    assert K * m == 2 * (K * j) + K;
  }

  /** Subtracting b from a larger a together with u - v modulo m. */
  lemma TiedSubtract(a: int, b: int, u: int, v: int, i: int, m: int, t: Ties, u': int, f: int) returns (t': Ties)
    requires Tied(a, b, u, v, i, m, t) && a > b && b % 2 == 1
    requires u' == u - v + f * m && 0 <= u' < m
    ensures Tied(a - b, b, u', v, i, m, t')
  {
    t' := Ties(t.x, t.x + t.y, t.z, t.z + t.w, t.ka - t.kb + f * i, t.kb);
    CongruentSubtract(u, v, f, i, a, b, t.ka, t.kb, m);
    CombinedSubtract(i, t.x, a, t.y, b);
    CombinedSubtract(m, t.z, a, t.w, b);
  }

  lemma CongruentSubtract(u: int, v: int, f: int, i: int, a: int, b: int, ka: int, kb: int, m: int)
    requires Congruent(u * i, a, ka, m) && Congruent(v * i, b, kb, m)
    ensures Congruent((u - v + f * m) * i, a - b, ka - kb + f * i, m)
  {
    assert (u - v + f * m) * i == u * i - v * i + f * m * i;
    assert f * m * i == f * i * m;
    assert (ka - kb + f * i) * m == ka * m - kb * m + f * i * m;
  }

  lemma CombinedSubtract(i: int, x: int, a: int, y: int, b: int)
    requires Combined(i, x, a, y, b)
    ensures Combined(i, x, a - b, x + y, b)
  {}

  lemma OddDifference(a: int, b: int)
    requires a % 2 == 1 && b % 2 == 1
    ensures (a - b) % 2 == 0
  {}

  /** Both odd and a larger: subtract, then halve. */
  lemma TiedRound(a: int, b: int, u: int, v: int, i: int, m: int, t: Ties, w: int, f: int, u': int, e: int)
    returns (t': Ties)
    requires Tied(a, b, u, v, i, m, t) && a > b && a % 2 == 1 && b % 2 == 1 && m % 2 == 1
    requires w == u - v + f * m && 0 <= w < m
    requires 2 * u' == w + e * m && 0 <= u' < m
    ensures Tied((a - b) / 2, b, u', v, i, m, t')
  {
    OddDifference(a, b);
    var s := TiedSubtract(a, b, u, v, i, m, t, w, f);
    t' := TiedHalve(a - b, b, w, v, i, m, s, u', e);
  }

  lemma CommonDivisorOfBoth(d: int, g: int, u: int, i: int, k: int, m: int)
    requires Divides(d, i) && Divides(d, m) && u * i == g + k * m
    ensures Divides(d, g)
  {
    DividesSum(d, i, m, u, -k);
    NegFactor(k, m);
  }

  lemma NegFactor(k: int, m: int)
    ensures -k * m == -(k * m)
  {
  }

  lemma DividesTwice(g: int, x: int, y: int)
    requires g > 0
    ensures Divides(g, x * g + y * g)
  {
    assert x * g + y * g == (x + y) * g;
    DividesMultiple(g, x + y);
  }

  /** With a = b the common value is the gcd of input and modulus. */
  lemma TiedEqual(g: int, u: int, v: int, i: int, m: int, t: Ties)
    requires Tied(g, g, u, v, i, m, t)
    ensures IsGcd(g, i, m) && u * i % m == g % m
  {
    DividesTwice(g, t.x, t.y);
    DividesTwice(g, t.z, t.w);
    forall d | Divides(d, i) && Divides(d, m) ensures Divides(d, g) {
      CommonDivisorOfBoth(d, g, u, i, t.ka, m);
    }
    ModShift(g, t.ka, m);
  }

  lemma ModShift(x: int, k: int, m: nat)
    requires m > 0
    ensures (x + k * m) % m == x % m
  {
    var q := x / m;
    assert x == x % m + q * m;
    assert x + k * m == x % m + (q + k) * m by { assert (q + k) * m == q * m + k * m; }
    ModSmall(x % m, q + k, m);
  }

  // ---------- The code ----------

  lemma EvenBase(half: nat, B: nat, n: nat)
    requires n > 0 && B == 2 * half
    ensures Pow(B, n) == 2 * (half * Pow(B, n - 1))
  {
    MulAssoc(2, half, Pow(B, n - 1));
  }

  lemma TopBitSet(before: seq<nat>, after: seq<nat>, n: nat, half: nat, B: nat)
    requires 0 < n <= |before| == |after| && before[..n - 1] == after[..n - 1]
    requires after[n - 1] == half + before[n - 1]
    ensures Val(after, n, B) == Val(before, n, B) + half * Pow(B, n - 1)
  {
    assert forall i :: 0 <= i < n - 1 ==> before[i] == before[..n - 1][i] == after[..n - 1][i] == after[i];
    ValAgree(before, after, n - 1, B);
    assert (half + before[n - 1]) * Pow(B, n - 1) == half * Pow(B, n - 1) + before[n - 1] * Pow(B, n - 1);
  }

  /** Shift right by one and put the carry, if any, in at the top. */
  method ShiftIn(uv: array<nat>, carry: nat, n: nat, W: nat)
    requires 0 < n && 0 < W && IsWords(uv[..], n, Base(W))
    modifies uv
    ensures IsWords(uv[..], n, Base(W))
    ensures 2 * Val(uv[..], n, Base(W)) + old(uv[0]) % 2
         == old(Val(uv[..], n, Base(W))) + Once(carry, Pow(Base(W), n))
  {
    ghost var B := Base(W);
    var half := Pow(2, W - 1);
    ValParity(uv[..], n, B);
    assert uv[0..] == uv[..];
    RShift1(uv, 0, n, W);
    assert uv[0..] == uv[..];
    if carry != 0 {
      ghost var before := uv[..];
      OrTopBit(half, uv[n - 1], half, W - 1);
      uv[n - 1] := BitOr(half, uv[n - 1]);
      TopBitSet(before, uv[..], n, half, B);
      EvenBase(half, B, n);
    }
  }

  lemma EvenPow(B: nat, n: nat)
    requires n > 0 && B % 2 == 0
    ensures Pow(B, n) % 2 == 0
  {
    EvenBase(B / 2, B, n);
  }

  /** Odd plus odd ends in an even word. */
  lemma EvenSum(u: seq<nat>, m: seq<nat>, sum: seq<nat>, carry: nat, n: nat, B: nat)
    requires 0 < n <= |u| && n <= |m| && n <= |sum| && B % 2 == 0
    requires u[0] % 2 == 1 && m[0] % 2 == 1
    requires Val(sum, n, B) + Once(carry, Pow(B, n)) == Val(u, n, B) + Val(m, n, B)
    ensures sum[0] % 2 == 0
  {
    ValParity(u, n, B);
    ValParity(m, n, B);
    ValParity(sum, n, B);
    EvenPow(B, n);
    EvenRest(Val(sum, n, B), Once(carry, Pow(B, n)), Val(u, n, B), Val(m, n, B));
  }

  lemma EvenRest(s: int, c: int, u: int, m: int)
    requires s + c == u + m && u % 2 == 1 && m % 2 == 1 && c % 2 == 0
    ensures s % 2 == 0
  {}

  /** vli_modInv_update: halve uv modulo the odd mod. */
  method Update(uv: array<nat>, mod: array<nat>, n: nat, W: nat) returns (ghost e: nat)
    requires 0 < n && 0 < W && uv != mod
    requires IsWords(uv[..], n, Base(W)) && IsWords(mod[..], n, Base(W)) && mod[0] % 2 == 1
    modifies uv
    ensures IsWords(uv[..], n, Base(W)) && e <= 1
    ensures 2 * Val(uv[..], n, Base(W))
         == old(Val(uv[..], n, Base(W))) + Once(e, Val(mod[..], n, Base(W)))
  {
    e := 0;
    var carry := 0;
    if uv[0] % 2 != 0 {
      carry := Add(uv, uv, mod, n, W);
      EvenSum(old(uv[..]), mod[..], uv[..], carry, n, Base(W));
      e := 1;
    }
    ShiftIn(uv, carry, n, W);
  }

  /** Words of an odd modulus above 1 and of a number below it. */
  ghost predicate Residue(u: seq<nat>, mod: seq<nat>, n: nat, B: nat) {
    IsWords(u, n, B) && IsWords(mod, n, B) && Val(u, n, B) < Val(mod, n, B)
  }

  lemma HalfBelow(u: int, u': int, e: nat, m: nat)
    requires e <= 1 && 2 * u' == u + Once(e, m) && 0 <= u < m
    ensures 0 <= u' < m && 2 * u' == u + e * m
  {
    assert 0 * m == 0 && 1 * m == m;
  }

  /** The branch for an even a (or, with the roles exchanged, an even b). */
  method HalveStep(a: array<nat>, u: array<nat>, mod: array<nat>, n: nat, W: nat) returns (ghost e: nat)
    requires 0 < n && 0 < W && a != u && a != mod && u != mod
    requires IsWords(a[..], n, Base(W)) && Residue(u[..], mod[..], n, Base(W)) && mod[0] % 2 == 1
    modifies a, u
    ensures IsWords(a[..], n, Base(W)) && Residue(u[..], mod[..], n, Base(W)) && e <= 1
    ensures Val(a[..], n, Base(W)) == old(Val(a[..], n, Base(W))) / 2
    ensures 2 * Val(u[..], n, Base(W)) == old(Val(u[..], n, Base(W))) + e * Val(mod[..], n, Base(W))
  {
    assert a[0..] == a[..];
    RShift1(a, 0, n, W);
    assert a[0..] == a[..];
    e := Update(u, mod, n, W);
    HalfBelow(old(Val(u[..], n, Base(W))), Val(u[..], n, Base(W)), e, Val(mod[..], n, Base(W)));
  }

  /** if (u < v) u += mod; u -= v. The dropped carry and the dropped borrow cancel. */
  method SubtractResidue(u: array<nat>, v: array<nat>, mod: array<nat>, n: nat, W: nat) returns (ghost f: nat)
    requires u != v && u != mod
    requires Residue(u[..], mod[..], n, Base(W)) && Residue(v[..], mod[..], n, Base(W))
    modifies u
    ensures Residue(u[..], mod[..], n, Base(W)) && f <= 1
    ensures Val(u[..], n, Base(W))
         == old(Val(u[..], n, Base(W))) - Val(v[..], n, Base(W)) + Once(f, Val(mod[..], n, Base(W)))
  {
    ghost var B := Base(W);
    ValBound(mod[..], n, B);
    f := 0;
    var c := CmpUnsafe(u, v, n, W);
    if c < 0 {
      var carry := Add(u, u, mod, n, W);
      f := 1;
    }
    var borrow := Sub(u, u, v, n, W);
    ValBound(u[..], n, B);
  }

  /** The branch for odd a > b (or, with the roles exchanged, odd b > a). */
  method SubtractStep(a: array<nat>, b: array<nat>, u: array<nat>, v: array<nat>, mod: array<nat>, n: nat, W: nat)
    returns (ghost w: int, ghost f: nat, ghost e: nat)
    requires 0 < n && 0 < W && a != b && a != u && a != v && a != mod && u != v && u != mod && u != b
    requires IsWords(a[..], n, Base(W)) && IsWords(b[..], n, Base(W)) && n <= mod.Length && mod[0] % 2 == 1
    requires Val(a[..], n, Base(W)) > Val(b[..], n, Base(W))
    requires Residue(u[..], mod[..], n, Base(W)) && Residue(v[..], mod[..], n, Base(W))
    modifies a, u
    ensures IsWords(a[..], n, Base(W)) && Residue(u[..], mod[..], n, Base(W)) && e <= 1 && f <= 1
    ensures Val(a[..], n, Base(W)) == (old(Val(a[..], n, Base(W))) - Val(b[..], n, Base(W))) / 2
    ensures w == old(Val(u[..], n, Base(W))) - Val(v[..], n, Base(W)) + f * Val(mod[..], n, Base(W))
    ensures 0 <= w < Val(mod[..], n, Base(W))
    ensures 2 * Val(u[..], n, Base(W)) == w + e * Val(mod[..], n, Base(W))
  {
    ghost var m := Val(mod[..], n, Base(W));
    var borrow := Sub(a, a, b, n, W);
    assert a[0..] == a[..];
    RShift1(a, 0, n, W);
    assert a[0..] == a[..];
    f := SubtractResidue(u, v, mod, n, W);
    assert 0 * m == 0 && 1 * m == m;
    w := Val(u[..], n, Base(W));
    e := Update(u, mod, n, W);
    HalfBelow(w, Val(u[..], n, Base(W)), e, m);
  }

  /** The state of the loop, on the contents of its four arrays. */
  ghost predicate Looping(a: seq<nat>, b: seq<nat>, u: seq<nat>, v: seq<nat>, mod: seq<nat>, i: nat, t: Ties, n: nat, B: nat) {
    && IsWords(a, n, B) && IsWords(b, n, B) && Residue(u, mod, n, B) && Residue(v, mod, n, B)
    && Tied(Val(a, n, B), Val(b, n, B), Val(u, n, B), Val(v, n, B), i, Val(mod, n, B), t)
  }

  ghost predicate Apart(a: array<nat>, b: array<nat>, u: array<nat>, v: array<nat>, mod: array<nat>) {
    a != b && a != u && a != v && a != mod && b != u && b != v && b != mod && u != v && u != mod && v != mod
  }

  /** One round that changes a and u: a even, or both odd and a > b. The rounds that change
      b and v are the same with the roles exchanged. */
  method Round(a: array<nat>, b: array<nat>, u: array<nat>, v: array<nat>, mod: array<nat>, n: nat, W: nat,
               ghost i: nat, ghost t: Ties) returns (ghost t': Ties)
    requires 0 < n && 0 < W && Apart(a, b, u, v, mod)
    requires Looping(a[..], b[..], u[..], v[..], mod[..], i, t, n, Base(W)) && mod[0] % 2 == 1
    requires a[0] % 2 == 0 || (b[0] % 2 == 1 && Val(a[..], n, Base(W)) > Val(b[..], n, Base(W)))
    modifies a, u
    ensures Looping(a[..], b[..], u[..], v[..], mod[..], i, t', n, Base(W))
    ensures Val(a[..], n, Base(W)) < old(Val(a[..], n, Base(W)))
  {
    ghost var B := Base(W);
    ghost var av, bv, uv, vv, m :=
      Val(a[..], n, B), Val(b[..], n, B), Val(u[..], n, B), Val(v[..], n, B), Val(mod[..], n, B);
    ValParity(a[..], n, B);
    ValParity(b[..], n, B);
    ValParity(mod[..], n, B);
    if a[0] % 2 == 0 {
      ghost var e := HalveStep(a, u, mod, n, W);
      t' := TiedHalve(av, bv, uv, vv, i, m, t, Val(u[..], n, B), e);
    } else {
      ghost var w, f, e := SubtractStep(a, b, u, v, mod, n, W);
      t' := TiedRound(av, bv, uv, vv, i, m, t, w, f, Val(u[..], n, B), e);
    }
  }

  lemma LoopingSwap(a: seq<nat>, b: seq<nat>, u: seq<nat>, v: seq<nat>, mod: seq<nat>, i: nat, t: Ties, n: nat, B: nat)
    requires Looping(a, b, u, v, mod, i, t, n, B)
    ensures Looping(b, a, v, u, mod, i, t.Swap(), n, B)
  {
    TiedSwap(Val(a, n, B), Val(b, n, B), Val(u, n, B), Val(v, n, B), i, Val(mod, n, B), t);
  }

  /** The loop of uECC_vli_modInv; a + b decreases in every round. */
  method Rounds(a: array<nat>, b: array<nat>, u: array<nat>, v: array<nat>, mod: array<nat>, n: nat, W: nat,
                ghost i: nat, ghost t0: Ties) returns (ghost t: Ties)
    requires 0 < n && 0 < W && Apart(a, b, u, v, mod)
    requires Looping(a[..], b[..], u[..], v[..], mod[..], i, t0, n, Base(W)) && mod[0] % 2 == 1
    modifies a, b, u, v
    ensures Looping(a[..], b[..], u[..], v[..], mod[..], i, t, n, Base(W))
    ensures Val(a[..], n, Base(W)) == Val(b[..], n, Base(W))
  {
    ghost var B := Base(W);
    t := t0;
    var c := CmpUnsafe(a, b, n, W);
    while c != 0
      invariant Looping(a[..], b[..], u[..], v[..], mod[..], i, t, n, B)
      invariant c == Sign(Val(a[..], n, B), Val(b[..], n, B))
      decreases Val(a[..], n, B) + Val(b[..], n, B)
    {
      if a[0] % 2 == 0 {
        t := Round(a, b, u, v, mod, n, W, i, t);
      } else if b[0] % 2 == 0 {
        LoopingSwap(a[..], b[..], u[..], v[..], mod[..], i, t, n, B);
        t := Round(b, a, v, u, mod, n, W, i, t.Swap());
        LoopingSwap(b[..], a[..], v[..], u[..], mod[..], i, t, n, B);
        t := t.Swap();
      } else if c > 0 {
        t := Round(a, b, u, v, mod, n, W, i, t);
      } else {
        LoopingSwap(a[..], b[..], u[..], v[..], mod[..], i, t, n, B);
        t := Round(b, a, v, u, mod, n, W, i, t.Swap());
        LoopingSwap(b[..], a[..], v[..], u[..], mod[..], i, t, n, B);
        t := t.Swap();
      }
      c := CmpUnsafe(a, b, n, W);
    }
  }

  /** uECC_vli_modInv. For a nonzero input and an odd modulus above 1 the loop ends with
      result * input congruent to gcd(input, mod), hence with the inverse when the two are
      coprime. */
  method Invert(result: array<nat>, input: array<nat>, mod: array<nat>, n: nat, W: nat) returns (ghost g: int)
    requires 0 < n && 0 < W && n <= result.Length && result != mod
    requires IsWords(input[..], n, Base(W)) && IsWords(mod[..], n, Base(W))
    requires mod[0] % 2 == 1 && Val(mod[..], n, Base(W)) > 1
    modifies result
    ensures OnlyPrefixChanged(old(result[..]), result[..], n) && IsWords(result[..], n, Base(W))
    ensures Val(result[..], n, Base(W)) < Val(mod[..], n, Base(W))
    ensures old(Val(input[..], n, Base(W))) == 0 ==> Val(result[..], n, Base(W)) == 0
    ensures old(Val(input[..], n, Base(W))) > 0 ==>
      GcdQuotient(Val(result[..], n, Base(W)), g, old(Val(input[..], n, Base(W))), Val(mod[..], n, Base(W)))
  {
    ghost var B, i, I := Base(W), Val(input[..], n, Base(W)), input[..];
    g := 0;
    var zero := IsZero(input, n, W);
    if zero {
      Clear(result, n);
      ValZero(result[..], n, B);
      return;
    }
    var a, b, u, v := new nat[n], new nat[n], new nat[n], new nat[n];
    Set(a, input, n);
    Set(b, mod, n);
    Clear(u, n);
    u[0] := 1;
    Clear(v, n);
    assert a[..] == a[..n] && b[..] == b[..n];
    ghost var t := Start(a[..], b[..], u[..], v[..], I, mod[..], n, B);
    t := Rounds(a, b, u, v, mod, n, W, i, t);
    g := Val(a[..], n, B);
    TiedEqual(g, Val(u[..], n, B), Val(v[..], n, B), i, Val(mod[..], n, B), t);
    Set(result, u, n);
    SamePrefix(u[..], result[..], n, B);
  }

  lemma SamePrefix(s: seq<nat>, r: seq<nat>, n: nat, B: nat)
    requires n <= |r| && IsWords(s, n, B) && r[..n] == s[..n]
    ensures IsWords(r, n, B) && Val(r, n, B) == Val(s, n, B)
  {
    assert forall j :: 0 <= j < n ==> r[j] == r[..n][j] == s[..n][j] == s[j];
    ValAgree(s, r, n, B);
  }

  /** r times i is g modulo m, and g is the gcd of i and m. */
  ghost predicate GcdQuotient(r: nat, g: int, i: int, m: int) {
    m > 0 && IsGcd(g, i, m) && r * i % m == g % m
  }

  lemma Start(a: seq<nat>, b: seq<nat>, u: seq<nat>, v: seq<nat>, input: seq<nat>, mod: seq<nat>, n: nat, B: nat)
    returns (t: Ties)
    requires 0 < n && B > 1 && B % 2 == 0 && |a| == |b| == |u| == |v| == n
    requires IsWords(input, n, B) && IsWords(mod, n, B)
    requires a == input[..n] && b == mod[..n] && Val(input, n, B) > 0
    requires u[0] == 1 && (forall j :: 1 <= j < n ==> u[j] == 0) && forall j :: 0 <= j < n ==> v[j] == 0
    requires mod[0] % 2 == 1 && Val(mod, n, B) > 1
    ensures Looping(a, b, u, v, mod, Val(input, n, B), t, n, B)
  {
    assert forall j :: 0 <= j < n ==> a[j] == input[j] && b[j] == mod[j];
    ValAgree(a, input, n, B);
    ValAgree(b, mod, n, B);
    ValParity(mod, n, B);
    ValTrim(u, 1, n, B);
    assert Val(u, 1, B) == 1 * Pow(B, 0) == 1;
    ValZero(v, n, B);
    t := Ties(1, 0, 0, 1, 0, -1);
  }

  /** The result is the inverse whenever there is one. */
  lemma CoprimeInverse(r: nat, g: int, i: int, m: int)
    requires GcdQuotient(r, g, i, m) && Coprime(i, m) && m > 1
    ensures r * i % m == 1
  {
    ModSmall(1, 0, m);
  }
}
