/** The signing step of crypto/micro-ecc/uECC.c (section 6.4 of FIPS 186-4): the nonce
    point by the regularised ladder, the blinded inverse, and s = (e + r * d) / k. */
module Ecdsa {
  import opened ByteStrings
  import opened Bits2Int
  import opened Words
  import opened Vli
  import opened VliMod
  import opened ModInv
  import opened Ladder

  ghost predicate IsPrime(p: int) {
    p > 1 && forall d :: Divides(d, p) ==> d == 1 || d == p
  }

  // ---------- A little number theory ----------

  lemma {:induction false} Bezout(x: nat, y: nat) returns (s: int, t: int)
    requires x > 0
    ensures Divides(s * x + t * y, x) && Divides(s * x + t * y, y)
    decreases y
  {
    if y == 0 {
      s, t := 1, 0;
      ModSmall(0, 1, x);
      ModSmall(0, 0, x);
    } else {
      var q, r := x / y, x % y;
      DivMod(x, y);
      if r == 0 {
        s, t := 0, 1;
        ModSmall(0, 1, y);
        assert Divides(y, x);
      } else {
        var s', t' := Bezout(y, r);
        var g := s' * y + t' * r;
        s, t := t', s' - q * t';
        assert s * x + t * y == g by { BezoutStep(s', t', q, x, y, r); }
        DividesSum(g, y, r, q, 1);
      }
    }
  }

  lemma BezoutStep(s: int, t: int, q: int, x: int, y: int, r: int)
    requires x == r + q * y
    ensures t * x + (s - q * t) * y == s * y + t * r
  {
    assert t * (r + q * y) == t * r + t * q * y;
    assert (s - q * t) * y == s * y - q * t * y;
    assert t * q * y == q * t * y;
  }

  lemma PrimeCoprime(p: int, x: int)
    requires IsPrime(p) && 0 < x < p
    ensures Coprime(x, p)
  {
    ModSmall(x, 0, p);
  }

  /** A prime that divides a product of two smaller positive numbers: there is none. */
  lemma PrimeProduct(p: int, x: int, y: int)
    requires IsPrime(p) && 0 < x < p && 0 < y < p
    ensures x * y % p != 0
  {
    if x * y % p == 0 {
      var s, t := Bezout(x, p);
      PrimeCoprime(p, x);
      assert s * x + t * p == 1;
      assert Divides(p, x * y);
      FactorDivided(p, x, y, s, t);
      ModSmall(y, 0, p);
      assert false;
    }
  }

  /** A divisor of a product that is coprime to one factor divides the other. */
  lemma FactorDivided(p: int, x: int, y: int, s: int, t: int)
    requires p > 0 && s * x + t * p == 1 && Divides(p, x * y)
    ensures Divides(p, y)
  {
    DividesMultiple(p, y);
    DividesSum(p, x * y, y * p, s, t);
    Cancelled(p, x, y, s, t);
  }

  lemma Cancelled(p: int, x: int, y: int, s: int, t: int)
    requires s * x + t * p == 1
    ensures s * (x * y) + t * (y * p) == y
  {
    MulAssoc(s, x, y);
    assert t * (y * p) == t * p * y;
    assert (s * x + t * p) * y == s * x * y + t * p * y;
  }

  lemma OddPrime(p: int)
    requires IsPrime(p) && p > 2
    ensures p % 2 == 1
  {
    assert !Divides(2, p);
  }

  /** Reducing a factor first does not change the product modulo m. */
  lemma ReduceFactor(x: int, y: int, m: nat)
    requires m > 0
    ensures x % m * y % m == x * y % m
  {
    var q := x / m;
    assert x == x % m + q * m;
    assert x * y == x % m * y + q * y * m by {
      assert (x % m + q * m) * y == x % m * y + q * m * y;
      assert q * m * y == q * y * m;
    }
    ModShift(x % m * y, q * y, m);
  }

  lemma ReduceRight(x: int, y: int, m: nat)
    requires m > 0
    ensures x * (y % m) % m == x * y % m
  {
    ReduceFactor(y, x, m);
    assert y % m * x == x * (y % m) && y * x == x * y;
  }

  /** inv = (k * t)^-1 makes inv * t an inverse of k. */
  lemma Unblind(k: int, t: int, inv: int, m: nat)
    requires m > 1 && inv * (k * t % m) % m == 1
    ensures inv * t % m * k % m == 1
  {
    ReduceRight(inv, k * t, m);
    ReduceFactor(inv * t, k, m);
    assert inv * (k * t) == inv * t * k by { MulAssoc(inv, t, k); }
  }

  /** s = x * k^-1 solves s * k = x. */
  lemma Solve(x: int, kinv: int, k: int, m: nat)
    requires m > 1 && kinv * k % m == 1
    ensures x * kinv % m * k % m == x % m
  {
    ReduceFactor(x * kinv, k, m);
    ReduceRight(x, kinv * k, m);
    assert x * kinv * k == x * (kinv * k) by { MulAssoc(x, kinv, k); }
    assert x * 1 == x;
  }

  lemma SumReduced(e: nat, x: int, m: nat)
    requires m > 0
    ensures ReduceOnce(e + x % m, m) % m == (e + x) % m
  {
    var q, y := x / m, e + x % m;
    assert e + x == y + q * m;
    ModShift(y, q, m);
    ModShift(y, -1, m);
    assert y - m == y + -1 * m;
  }

  // ---------- The signing step ----------

  /** The private key, nonce, hash and blinding factor fit the order, which is an odd prime of so
      many bits. */
  ghost predicate SignInputs(k: seq<nat>, blind: seq<nat>, d: seq<nat>, e: seq<nat>, order: seq<nat>,
                             bits: nat, nw: nat, W: nat)
  {
    && 0 < W && nw < Base(W) && 2 < bits && nw == BitsToWords(bits, W)
    && IsWords(k, nw, Base(W)) && IsWords(blind, nw, Base(W)) && IsWords(d, nw, Base(W)) && IsWords(e, nw, Base(W))
    && IsWords(order, nw, Base(W)) && OrderSized(Val(order, nw, Base(W)), bits, nw, W)
    && IsPrime(Val(order, nw, Base(W)))
    && 0 < Val(blind, nw, Base(W)) < Val(order, nw, Base(W))
  }

  /** An order of full bit length has a nonzero top word. */
  lemma FullTopWord(order: seq<nat>, bits: nat, nw: nat, W: nat)
    requires 0 < W && nw == BitsToWords(bits, W) && IsWords(order, nw, Base(W))
    requires OrderSized(Val(order, nw, Base(W)), bits, nw, W)
    ensures 0 < nw && order[nw - 1] > 0
  {
    TopWordReached(bits, nw, W);
    if order[nw - 1] == 0 {
      ValTrim(order, nw - 1, nw, Base(W));
      ValBound(order, nw - 1, Base(W));
      PowPow(2, W, nw - 1);
      PowMono(2, W * (nw - 1), bits - 1);
      assert false;
    }
  }

  lemma TopWordReached(bits: nat, nw: nat, W: nat)
    requires 0 < W && 0 < bits && nw == BitsToWords(bits, W)
    ensures 0 < nw && W * (nw - 1) <= bits - 1
  {
    DivMod(bits + (W - 1), W);
    assert nw * W == W * (nw - 1) + W;
  }

  /** k becomes its inverse modulo the order, through the product with the blinding factor. */
  method BlindedInverse(k: array<nat>, blind: array<nat>, order: array<nat>, nw: nat, W: nat)
    requires 0 < W && 0 < nw < Base(W) && k != order && k != blind
    requires IsWords(k[..], nw, Base(W)) && IsWords(blind[..], nw, Base(W)) && IsWords(order[..], nw, Base(W))
    requires order[nw - 1] > 0 && IsPrime(Val(order[..], nw, Base(W))) && Val(order[..], nw, Base(W)) > 2
    requires 0 < Val(k[..], nw, Base(W)) < Val(order[..], nw, Base(W))
    requires 0 < Val(blind[..], nw, Base(W)) < Val(order[..], nw, Base(W))
    modifies k
    ensures IsWords(k[..], nw, Base(W))
    ensures Val(k[..], nw, Base(W)) * old(Val(k[..], nw, Base(W))) % Val(order[..], nw, Base(W)) == 1
  {
    ghost var B := Base(W);
    ghost var m, kv, t := Val(order[..], nw, B), Val(k[..], nw, B), Val(blind[..], nw, B);
    OddPrime(m);
    ValParity(order[..], nw, B);
    PrimeProduct(m, kv, t);
    ModMult(k, k, blind, order, nw, W);
    ghost var prod := Val(k[..], nw, B);
    PrimeCoprime(m, prod);
    ghost var g := Invert(k, k, order, nw, W);
    ghost var inv := Val(k[..], nw, B);
    CoprimeInverse(inv, g, prod, m);
    Unblind(kv, t, inv, m);
    ModMult(k, k, blind, order, nw, W);
  }

  /** s = (e + r * d) * kinv: the unreduced hash is brought below the order by the last product. */
  method ResponseScalar(s: array<nat>, d: array<nat>, e: array<nat>, kinv: array<nat>, order: array<nat>, nw: nat, W: nat)
    requires 0 < W && 0 < nw < Base(W) && nw <= s.Length && s != order && s != d && s != e && s != kinv
    requires IsWords(s[..], nw, Base(W)) && IsWords(d[..], nw, Base(W)) && IsWords(e[..], nw, Base(W))
    requires IsWords(kinv[..], nw, Base(W)) && IsWords(order[..], nw, Base(W)) && order[nw - 1] > 0
    modifies s
    ensures IsWords(s[..], nw, Base(W)) && Val(order[..], nw, Base(W)) > 0
    ensures Val(s[..], nw, Base(W))
         == ReduceOnce(Val(e[..], nw, Base(W)) + Val(d[..], nw, Base(W)) * old(Val(s[..], nw, Base(W)))
                         % Val(order[..], nw, Base(W)), Val(order[..], nw, Base(W)))
            * Val(kinv[..], nw, Base(W)) % Val(order[..], nw, Base(W))
  {
    ModMult(s, d, s, order, nw, W);
    ModAdd(s, e, s, order, nw, W);
    ModMult(s, s, kinv, order, nw, W);
  }

  lemma SignatureEquation(k: int, kinv: int, e: nat, d: int, r: int, m: nat)
    requires m > 1 && kinv * k % m == 1
    ensures ReduceOnce(e + d * r % m, m) * kinv % m * k % m == (e + r * d) % m
  {
    SumReduced(e, d * r, m);
    Solve(ReduceOnce(e + d * r % m, m), kinv, k, m);
    assert d * r == r * d;
  }

  /** The regularised scalar leads to the same point. */
  lemma SamePoint<T(!new)>(G: Group<T>, scalar: nat, k: nat, n: nat, p: T)
    requires Lawful(G) && Times(G, n, p) == G.zero && (scalar == k + n || scalar == k + 2 * n)
    ensures Times(G, scalar, p) == Times(G, k, p)
  {
    TimesOrder(G, k, n, p);
  }

  /** regularize_k and the choice p2[!carry]: a scalar for a ladder of bits + 1 bits. */
  method RegularScalar(k: array<nat>, order: array<nat>, bits: nat, nw: nat, W: nat)
    returns (scalar: array<nat>, ghost v: nat)
    requires 0 < W && nw == BitsToWords(bits, W) && k != order
    requires IsWords(k[..], nw, Base(W)) && IsWords(order[..], nw, Base(W))
    requires OrderSized(Val(order[..], nw, Base(W)), bits, nw, W)
    requires Val(k[..], nw, Base(W)) < Val(order[..], nw, Base(W))
    ensures fresh(scalar) && IsWords(scalar[..], nw, Base(W)) && v == LadderScalar(Val(scalar[..], nw, Base(W)), bits + 1)
    ensures v == Val(k[..], nw, Base(W)) + Val(order[..], nw, Base(W))
         || v == Val(k[..], nw, Base(W)) + 2 * Val(order[..], nw, Base(W))
  {
    var tmp1, tmp2 := new nat[nw], new nat[nw];
    var carry := RegularizeK(k, tmp1, tmp2, order, bits, nw, W);
    scalar := if carry then tmp1 else tmp2;
    v := LadderScalar(Val(scalar[..], nw, Base(W)), bits + 1);
  }

  /** regularize_k and EccPoint_mult together, as uECC_sign_with_k and
      EccPoint_compute_public_key use them: the point is k times the base. */
  method NoncePoint<T(!new)>(G: Group<T>, base: T, k: array<nat>, order: array<nat>, bits: nat, nw: nat, W: nat)
    returns (point: T)
    requires Lawful(G) && 0 < W && nw == BitsToWords(bits, W) && k != order
    requires IsWords(k[..], nw, Base(W)) && IsWords(order[..], nw, Base(W))
    requires OrderSized(Val(order[..], nw, Base(W)), bits, nw, W)
    requires Val(k[..], nw, Base(W)) < Val(order[..], nw, Base(W))
    requires Times(G, Val(order[..], nw, Base(W)), base) == G.zero
    ensures point == Times(G, Val(k[..], nw, Base(W)), base)
  {
    var scalar: array<nat>;
    ghost var v, next: T := 0, base;
    scalar, v := RegularScalar(k, order, bits, nw, W);
    SamePoint(G, v, Val(k[..], nw, Base(W)), Val(order[..], nw, Base(W)), base);
    point, next := PointMult(G, base, scalar, bits + 1, nw, W);
  }

  /** s solves s * k = e + r * d modulo the order n. */
  ghost predicate Signed(s: nat, k: nat, e: nat, r: nat, d: nat, n: nat) {
    0 < n && s < n && s * k % n == (e + r * d) % n
  }

  /** The second half of uECC_sign_with_k: r is in s on entry, the response on exit. */
  method Respond(s: array<nat>, k: array<nat>, blind: array<nat>, d: array<nat>, e: array<nat>, order: array<nat>,
                 bits: nat, nw: nat, W: nat)
    requires SignInputs(k[..], blind[..], d[..], e[..], order[..], bits, nw, W)
    requires IsWords(s[..], nw, Base(W)) && 0 < Val(k[..], nw, Base(W)) < Val(order[..], nw, Base(W))
    requires k != order && k != blind && k != d && k != e && s != k && s != d && s != e && s != order && s != blind
    modifies s, k
    ensures IsWords(s[..], nw, Base(W))
    ensures Signed(Val(s[..], nw, Base(W)), old(Val(k[..], nw, Base(W))), Val(e[..], nw, Base(W)),
                   old(Val(s[..], nw, Base(W))), Val(d[..], nw, Base(W)), Val(order[..], nw, Base(W)))
  {
    ghost var B := Base(W);
    ghost var kv, rv, nv := Val(k[..], nw, B), Val(s[..], nw, B), Val(order[..], nw, B);
    FullTopWord(order[..], bits, nw, W);
    LargeOrder(nv, bits);
    BlindedInverse(k, blind, order, nw, W);
    ResponseScalar(s, d, e, k, order, nw, W);
    SignatureEquation(kv, Val(k[..], nw, B), Val(e[..], nw, B), Val(d[..], nw, B), rv, nv);
  }

  /** uECC_sign_with_k, from native-order words: e is the hash as bits2int leaves it for an
      order of whole bytes (at most nw words, not reduced), xOf gives the words of a point's
      x coordinate, `blind` is 1 or the random number, rngOk that it could be drawn. */
  method SignWithK<T(!new)>(G: Group<T>, base: T, xOf: T -> seq<nat>, k: array<nat>, blind: array<nat>, rngOk: bool,
                            d: array<nat>, e: array<nat>, order: array<nat>, bits: nat, nw: nat, numBytes: nat, W: nat)
    returns (ok: bool, r: seq<nat>, s: array<nat>)
    requires Lawful(G) && SignInputs(k[..], blind[..], d[..], e[..], order[..], bits, nw, W)
    requires Times(G, Val(order[..], nw, Base(W)), base) == G.zero
    requires forall p :: |xOf(p)| == nw && IsWords(xOf(p), nw, Base(W))
    requires k != order && k != blind && k != d && k != e
    modifies k
    ensures fresh(s) && s.Length == nw
    ensures ok ==>
      r == xOf(Times(G, old(Val(k[..], nw, Base(W))), base)) &&
      Signed(Val(s[..], nw, Base(W)), old(Val(k[..], nw, Base(W))), Val(e[..], nw, Base(W)),
             Val(r, nw, Base(W)), Val(d[..], nw, Base(W)), Val(order[..], nw, Base(W)))
    ensures bits <= numBytes * 8 ==>
      (ok <==> 0 < old(Val(k[..], nw, Base(W))) < Val(order[..], nw, Base(W)) && rngOk &&
               Val(xOf(Times(G, old(Val(k[..], nw, Base(W))), base)), nw, Base(W)) > 0)
  {
    ok, r := false, [];
    s := new nat[nw];
    var zero := IsZero(k, nw, W);
    var c := Cmp(order, k, nw, W);
    if zero || c != 1 {
      return;
    }
    var point := NoncePoint(G, base, k, order, bits, nw, W);
    r := xOf(point);
    CopyIn(s, r);
    zero := IsZero(s, nw, W);
    if zero || !rngOk {
      return;
    }
    Respond(s, k, blind, d, e, order, bits, nw, W);
    var sBits := NumBits(s, nw, W);
    ShortEnough(Val(s[..], nw, Base(W)), Val(order[..], nw, Base(W)), sBits, bits);
    if sBits > numBytes * 8 {
      return;
    }
    ok := true;
  }

  /** uECC_sign_with_k on the bytes of a hash of any length, for words of ws bytes: the signature
      equation of section 6.4 of FIPS 186-4, for the leftmost bits of the hash. */
  method SignHash<T(!new)>(G: Group<T>, base: T, xOf: T -> seq<nat>, k: array<nat>, blind: array<nat>, rngOk: bool,
                           d: array<nat>, hash: seq<Byte>, order: array<nat>, bits: nat, nw: nat, numBytes: nat, ws: nat)
    returns (ok: bool, r: seq<nat>, s: array<nat>)
    requires Lawful(G) && ws > 0
    requires SignInputs(k[..], blind[..], d[..], order[..], order[..], bits, nw, 8 * ws)
    requires Times(G, Val(order[..], nw, Base(8 * ws)), base) == G.zero
    requires forall p :: |xOf(p)| == nw && IsWords(xOf(p), nw, Base(8 * ws))
    requires k != order && k != blind && k != d
    modifies k
    ensures fresh(s) && s.Length == nw
    ensures ok ==>
      r == xOf(Times(G, old(Val(k[..], nw, Base(8 * ws))), base)) &&
      Signed(Val(s[..], nw, Base(8 * ws)), old(Val(k[..], nw, Base(8 * ws))),
             LeftmostBits(hash, bits),
             Val(r, nw, Base(8 * ws)), Val(d[..], nw, Base(8 * ws)), Val(order[..], nw, Base(8 * ws)))
    ensures bits <= numBytes * 8 ==>
      (ok <==> 0 < old(Val(k[..], nw, Base(8 * ws))) < Val(order[..], nw, Base(8 * ws)) && rngOk &&
               Val(xOf(Times(G, old(Val(k[..], nw, Base(8 * ws))), base)), nw, Base(8 * ws)) > 0)
  {
    var e := new nat[nw];
    HashToInt(e, hash, order, bits, nw, ws);
    ok, r, s := SignWithK(G, base, xOf, k, blind, rngOk, d, e, order, bits, nw, numBytes, 8 * ws);
    if ok {
      ghost var n := Val(order[..], nw, Base(8 * ws));
      HashNumberIsLeftmost(hash, bits, n);
      SignedCongruent(Val(s[..], nw, Base(8 * ws)), old(Val(k[..], nw, Base(8 * ws))), Val(e[..], nw, Base(8 * ws)),
                      LeftmostBits(hash, bits), Val(r, nw, Base(8 * ws)), Val(d[..], nw, Base(8 * ws)), n);
    }
  }

  /** Subtracting the order from the hash does not change what is signed. */
  lemma SignedCongruent(s: nat, k: nat, e: nat, e': nat, r: nat, d: nat, n: nat)
    requires Signed(s, k, e, r, d, n) && (e == e' || e == e' - n)
    ensures Signed(s, k, e', r, d, n)
  {
    if e != e' {
      ModShift(e + r * d, 1, n);
      assert e' + r * d == e + r * d + 1 * n;
    }
  }

  // ---------- What the equation is for ----------

  lemma {:induction false} TimesMul<T(!new)>(G: Group<T>, a: nat, b: nat, p: T)
    requires Lawful(G)
    ensures a * b >= 0 && Times(G, a * b, p) == Times(G, a, Times(G, b, p))
  {
    MulPositiveOrZero(a, b);
    if a > 0 {
      TimesMul(G, a - 1, b, p);
      MulNext(a - 1, b);
      TimesAdd(G, (a - 1) * b, b, p);
    }
  }

  lemma {:induction false} TimesZero<T(!new)>(G: Group<T>, k: nat)
    requires Lawful(G)
    ensures Times(G, k, G.zero) == G.zero
  {
    if k > 0 {
      TimesZero(G, k - 1);
      Laws(G, G.zero, G.zero, G.zero);
    }
  }

  /** Scalars count modulo the order. */
  lemma TimesMod<T(!new)>(G: Group<T>, x: nat, n: nat, p: T)
    requires Lawful(G) && n > 0 && Times(G, n, p) == G.zero
    ensures Times(G, x, p) == Times(G, x % n, p)
  {
    DivMod(x, n);
    TimesMul(G, x / n, n, p);
    TimesZero(G, x / n);
    TimesAdd(G, x % n, x / n * n, p);
    Laws(G, Times(G, x % n, p), G.zero, G.zero);
  }

  /** With w the inverse of s, (e + r * d) * w is k again. */
  lemma Recovered(s: nat, k: nat, e: nat, r: nat, d: nat, w: nat, n: nat)
    requires n > 1 && w * s % n == 1 && s * k % n == (e + r * d) % n
    ensures (e * w % n + r * w % n * d) % n == k % n
  {
    SumOfRemainders(e * w, r * w, d, n);
    Distribute(e, r, d, w);
    ReduceFactor(e + r * d, w, n);
    ReduceFactor(s * k, w, n);
    Rotate(s, k, w);
    ReduceFactor(w * s, k, n);
  }

  lemma Distribute(e: int, r: int, d: int, w: int)
    ensures e * w + r * w * d == (e + r * d) * w
  {
    assert r * w * d == r * d * w by { MulAssoc(r, w, d); MulAssoc(r, d, w); }
  }

  lemma Rotate(s: int, k: int, w: int)
    ensures s * k * w == w * s * k
  {
    MulAssoc(w, s, k);
  }

  lemma SumOfRemainders(x: int, y: int, d: int, n: nat)
    requires n > 0
    ensures (x % n + y % n * d) % n == (x + y * d) % n
  {
    var a, b := x / n, y / n;
    assert x == x % n + a * n && y == y % n + b * n;
    Regrouped(x % n, a, y % n, b, d, n);
    ModShift(x % n + y % n * d, a + b * d, n);
  }

  lemma Regrouped(x: int, a: int, y: int, b: int, d: int, n: int)
    ensures x + a * n + (y + b * n) * d == x + y * d + (a + b * d) * n
  {
    assert (y + b * n) * d == y * d + b * n * d;
    assert b * n * d == b * d * n by { MulAssoc(b, n, d); MulAssoc(b, d, n); }
    assert (a + b * d) * n == a * n + b * d * n;
  }

  /** A signature verifies (section 6.4.2 of FIPS 186-4): with w the inverse of s, the point
      (e * w) * base + (r * w) * Q, for Q = d * base the public key, is the nonce point k * base. */
  lemma Verifies<T(!new)>(G: Group<T>, base: T, s: nat, k: nat, e: nat, r: nat, d: nat, w: nat, n: nat)
    requires Lawful(G) && n > 1 && Times(G, n, base) == G.zero && Signed(s, k, e, r, d, n) && w * s % n == 1
    ensures 0 <= e * w % n && 0 <= r * w % n
    ensures G.add(Times(G, e * w % n, base), Times(G, r * w % n, Times(G, d, base))) == Times(G, k, base)
  {
    var u1, u2 := e * w % n, r * w % n;
    TimesMul(G, u2, d, base);
    TimesAdd(G, u1, u2 * d, base);
    Recovered(s, k, e, r, d, w, n);
    TimesMod(G, u1 + u2 * d, n, base);
    TimesMod(G, k, n, base);
  }

  method CopyIn(dest: array<nat>, src: seq<nat>)
    requires dest.Length == |src|
    modifies dest
    ensures dest[..] == src
  {
    for i := 0 to |src|
      invariant forall j :: 0 <= j < i ==> dest[j] == src[j]
    {
      dest[i] := src[i];
    }
  }

  lemma LargeOrder(n: nat, bits: nat)
    requires 2 < bits && Base(bits - 1) <= n
    ensures n > 2
  {
    PowMono(2, 2, bits - 1);
    assert Pow(2, 2) == 2 * Pow(2, 1) && Pow(2, 1) == 2 * Pow(2, 0);
  }

  lemma ShortEnough(v: nat, n: nat, vBits: nat, bits: nat)
    requires v < n < Base(bits) && (vBits > 0 ==> Pow(2, vBits - 1) <= v)
    ensures vBits <= bits
  {
    if vBits > bits { PowMono(2, bits, vBits - 1); }
  }
}
