/** Scalar regularisation and the Montgomery ladder of crypto/micro-ecc/uECC.c over an
    abstract commutative group: the point formulas XYcZ_add, XYcZ_addC and
    XYcZ_initial_double stand for the group operations their comments name. */
module Ladder {
  import opened Words
  import opened Vli

  datatype Group<!T> = Group(zero: T, add: (T, T) -> T, neg: T -> T)

  // The laws are instantiated by hand: each has a trigger that only its own lemma mentions.
  ghost predicate Use<T>(p: T, q: T, r: T) { true }

  ghost predicate Lawful<T(!new)>(G: Group<T>) {
    forall p, q, r {:trigger Use(p, q, r)} ::
      && G.add(p, q) == G.add(q, p)
      && G.add(G.add(p, q), r) == G.add(p, G.add(q, r))
      && G.add(p, G.zero) == p
      && G.add(p, G.neg(p)) == G.zero
  }

  lemma Laws<T(!new)>(G: Group<T>, p: T, q: T, r: T)
    requires Lawful(G)
    ensures G.add(p, q) == G.add(q, p)
    ensures G.add(G.add(p, q), r) == G.add(p, G.add(q, r))
    ensures G.add(p, G.zero) == p
    ensures G.add(p, G.neg(p)) == G.zero
  {
    assert Use(p, q, r);
  }

  ghost function Times<T>(G: Group<T>, k: nat, p: T): T {
    if k == 0 then G.zero else G.add(Times(G, k - 1, p), p)
  }

  lemma {:induction false} TimesAdd<T(!new)>(G: Group<T>, j: nat, k: nat, p: T)
    requires Lawful(G)
    ensures Times(G, j + k, p) == G.add(Times(G, j, p), Times(G, k, p))
  {
    Laws(G, Times(G, j, p), p, p);
    if k > 0 {
      TimesAdd(G, j, k - 1, p);
      Laws(G, Times(G, j, p), Times(G, k - 1, p), p);
    }
  }

  /** Adding the order, once or twice, to the scalar does not move the point. */
  lemma TimesOrder<T(!new)>(G: Group<T>, k: nat, n: nat, p: T)
    requires Lawful(G) && Times(G, n, p) == G.zero
    ensures Times(G, k + n, p) == Times(G, k, p) == Times(G, k + 2 * n, p)
  {
    TimesAdd(G, k, n, p);
    Laws(G, Times(G, k, p), p, p);
    TimesAdd(G, k + n, n, p);
  }

  // ---------- Bits of multi-word scalars ----------

  /** Bit i of the number v. */
  ghost function BitOf(v: nat, i: nat): nat {
    v / Base(i) % 2
  }

  /** uECC_vli_testBit. */
  method TestBit(vli: array<nat>, i: nat, n: nat, W: nat) returns (isSet: bool)
    requires 0 < W && IsWords(vli[..], n, Base(W)) && i < W * n
    ensures isSet <==> BitOf(Val(vli[..], n, Base(W)), i) == 1
  {
    var w, b := i / W, i % W;
    DivMod(i, W);
    if w >= n { MulMono(n, w, W); assert false; }
    BitInWord(vli[..], w, b, i, n, W);
    return vli[w] / Base(b) % 2 == 1;
  }

  lemma BitInWord(s: seq<nat>, w: nat, b: nat, i: nat, n: nat, W: nat)
    requires b < W && w < n && IsWords(s, n, Base(W)) && i == b + w * W
    ensures BitOf(Val(s, n, Base(W)), i) == s[w] / Base(b) % 2
  {
    var B := Base(W);
    ValSplit(s, w, n - w, B);
    ValCons(s[w..], n - w, B);
    PowPow(2, W, w);
    MulPositiveOrZero(W, w);
    PowAdd(2, W * w, b);
    PowAdd(2, b, W - b);
    ValBound(s, w, B);
    PickBit(Val(s, w, B), s[w], Val(s[w + 1..], n - w - 1, B), Pow(B, w), Base(b), Base(W - b), W - b);
    assert s[w..][1..] == s[w + 1..];
  }

  /** Low words below P, word x, words above: dividing by P * Q reaches bit log Q of x. */
  lemma PickBit(low: nat, x: nat, high: nat, P: nat, Q: nat, R: nat, k: nat)
    requires low < P && Q > 0 && k > 0 && R == Base(k)
    ensures P * Q > 0
    ensures (low + P * (x + Q * R * high)) / (P * Q) % 2 == x / Q % 2
  {
    MulPositive(P, Q);
    DivDiv(low, x + Q * R * high, P, Q);
    EvenAbove(x, Q, R, high, Pow(2, k - 1));
  }

  lemma EvenAbove(x: nat, Q: nat, R: nat, high: nat, half: nat)
    requires Q > 0 && R == 2 * half
    ensures (x + Q * R * high) / Q % 2 == x / Q % 2
  {
    MulAssoc(Q, R, high);
    MulAssoc(2, half, high);
    DivShift(x, R * high, Q);
  }

  lemma DivDiv(low: nat, y: nat, P: nat, Q: nat)
    requires low < P && Q > 0 && P * Q > 0
    ensures (low + P * y) / (P * Q) == y / Q
  {
    var q, r := y / Q, y % Q;
    DivMod(y, Q);
    assert low + P * y == (low + P * r) + q * (P * Q) by {
      assert P * (r + q * Q) == P * r + P * (q * Q);
      MulAssoc(P, q, Q);
      MulAssoc(q, P, Q);
    }
    assert low + P * r < P * Q by { MulMono(r + 1, Q, P); MulNext(r, P); }
    QuotientIs(low + P * r, q, P * Q);
  }

  lemma DivShift(x: nat, h: nat, Q: nat)
    requires Q > 0
    ensures (x + Q * h) / Q == x / Q + h
  {
    DivMod(x, Q);
    ShiftedQuotient(x, x / Q, x % Q, h, Q);
    QuotientIs(x % Q, x / Q + h, Q);
  }

  lemma ShiftedQuotient(x: int, q: int, r: int, h: int, Q: int)
    requires x == r + q * Q
    ensures x + Q * h == r + (q + h) * Q
  {
    assert (q + h) * Q == q * Q + h * Q;
  }

  lemma QuotientIs(r: nat, q: int, m: nat)
    requires r < m
    ensures (r + q * m) / m == q
  {
    ModSmall(r, q, m);
    var d := (r + q * m) / m;
    assert r + q * m == m * d + r;
    assert (d - q) * m == 0;
  }

  // ---------- The ladder ----------

  /** The scalar a ladder over `bits` bits works on: the low bits - 1 bits of v under an
      implicit leading one. */
  ghost function LadderScalar(v: nat, bits: nat): nat
    requires bits > 0
  {
    Base(bits - 1) + v % Base(bits - 1)
  }

  /** Dropping one bit less doubles the prefix and adds that bit. */
  lemma NextBit(v: nat, i: nat)
    ensures v / Base(i) == 2 * (v / Base(i + 1)) + BitOf(v, i)
  {
    var x, P := v / Base(i), Base(i);
    DivMod(v, P);
    DivDiv(v % P, x, P, 2);
  }

  lemma LowBits(v: nat, m: nat, i: nat)
    requires i < m
    ensures BitOf(Base(m) + v % Base(m), i) == BitOf(v, i)
  {
    var M, P, R := Base(m), Base(i), Base(m - i);
    var q, r := v / M, v % M;
    DivMod(v, M);
    PowAdd(2, i, m - i);
    Regroup(P, R, M, q);
    Regroup(P, R, M, 1);
    SameParity(r, P, R, q, Pow(2, m - i - 1));
    SameParity(r, P, R, 1, Pow(2, m - i - 1));
  }

  lemma Regroup(P: int, R: int, M: int, q: int)
    requires M == P * R
    ensures q * M == P * (R * q)
  {
    MulAssoc(P, R, q);
  }

  lemma SameParity(r: nat, P: nat, R: nat, q: nat, half: nat)
    requires P > 0 && R == 2 * half
    ensures (r + P * (R * q)) / P % 2 == r / P % 2
  {
    DivShift(r, R * q, P);
    MulAssoc(2, half, q);
  }

  lemma LeadingOne(v: nat, bits: nat)
    requires bits > 0
    ensures LadderScalar(v, bits) / Base(bits - 1) == 1
  {
    QuotientIs(v % Base(bits - 1), 1, Base(bits - 1));
  }

  /** XYcZ_addC: P becomes P - Q, Q becomes P + Q. */
  function AddC<T>(G: Group<T>, p: T, q: T): (T, T) {
    (G.add(p, G.neg(q)), G.add(p, q))
  }

  /** XYcZ_add: P stays (in new coordinates), Q becomes P + Q. */
  function AddTo<T>(G: Group<T>, p: T, q: T): (T, T) {
    (p, G.add(p, q))
  }

  /** (x + y) + (x - y) = 2x. */
  lemma SumOfSumAndDifference<T(!new)>(G: Group<T>, x: T, y: T)
    requires Lawful(G)
    ensures G.add(G.add(x, y), G.add(x, G.neg(y))) == G.add(x, x)
  {
    var d := G.add(x, G.neg(y));
    Laws(G, x, y, d);
    Laws(G, y, x, G.neg(y));
    Laws(G, x, y, G.neg(y));
    Laws(G, y, d, d);
  }

  /** Doubling one of two neighbouring multiples and adding the other. */
  lemma StepValues<T(!new)>(G: Group<T>, t: nat, p: T)
    requires Lawful(G)
    ensures G.add(Times(G, t, p), Times(G, t, p)) == Times(G, 2 * t, p)
    ensures G.add(Times(G, t, p), Times(G, t + 1, p)) == Times(G, 2 * t + 1, p)
    ensures G.add(Times(G, t + 1, p), Times(G, t, p)) == Times(G, 2 * t + 1, p)
    ensures G.add(Times(G, t + 1, p), Times(G, t + 1, p)) == Times(G, 2 * t + 2, p)
  {
    TimesAdd(G, t, t, p);
    TimesAdd(G, t, t + 1, p);
    TimesAdd(G, t + 1, t, p);
    TimesAdd(G, t + 1, t + 1, p);
  }

  ghost predicate Neighbours<T>(G: Group<T>, r0: T, r1: T, t: nat, p: T) {
    r0 == Times(G, t, p) && r1 == Times(G, t + 1, p)
  }

  /** The ladder step with nb the negated bit: R[nb] becomes R0 + R1, R[1 - nb] doubles. */
  method LadderStep<T(!new)>(G: Group<T>, R: array<T>, nb: nat, ghost t: nat, ghost point: T)
    requires Lawful(G) && R.Length == 2 && nb <= 1 && Neighbours(G, R[0], R[1], t, point)
    modifies R
    ensures Neighbours(G, R[0], R[1], 2 * t + 1 - nb, point)
  {
    SumOfSumAndDifference(G, R[1 - nb], R[nb]);
    StepValues(G, t, point);
    var pq := AddC(G, R[1 - nb], R[nb]);
    R[1 - nb], R[nb] := pq.0, pq.1;
    pq := AddTo(G, R[nb], R[1 - nb]);
    R[nb], R[1 - nb] := pq.0, pq.1;
  }

  /** The leading bits of the ladder scalar, down to bit i. */
  ghost function Leading(v: nat, bits: nat, i: nat): (t: nat)
    requires bits > 0
  {
    DivMod(LadderScalar(v, bits), Base(i));
    LadderScalar(v, bits) / Base(i)
  }

  lemma LadderBit(v: nat, bits: nat, i: nat)
    requires i + 1 < bits
    ensures Leading(v, bits, i) == 2 * Leading(v, bits, i + 1) + BitOf(v, i)
    ensures 0 <= BitOf(v, i) <= 1
  {
    NextBit(LadderScalar(v, bits), i);
    LowBits(v, bits - 1, i);
  }

  lemma LadderEnds(v: nat, bits: nat)
    requires bits > 0
    ensures Leading(v, bits, bits - 1) == 1 && Leading(v, bits, 0) == LadderScalar(v, bits)
  {
    LeadingOne(v, bits);
    assert LadderScalar(v, bits) / Base(0) == LadderScalar(v, bits);
  }

  /** One iteration: test bit i and step. */
  method LadderRound<T(!new)>(G: Group<T>, R: array<T>, scalar: array<nat>, i: nat, n: nat, W: nat,
                              ghost bits: nat, ghost point: T)
    requires Lawful(G) && R.Length == 2 && 0 < W && IsWords(scalar[..], n, Base(W)) && i < W * n && i + 1 < bits
    requires R as object != scalar as object
    requires Neighbours(G, R[0], R[1], Leading(Val(scalar[..], n, Base(W)), bits, i + 1), point)
    modifies R
    ensures Neighbours(G, R[0], R[1], Leading(Val(scalar[..], n, Base(W)), bits, i), point)
  {
    ghost var v := Val(scalar[..], n, Base(W));
    var bit := TestBit(scalar, i, n, W);
    var nb := if bit then 0 else 1;
    LadderBit(v, bits, i);
    LadderStep(G, R, nb, Leading(v, bits, i + 1), point);
  }

  lemma FirstMultiples<T(!new)>(G: Group<T>, p: T)
    requires Lawful(G)
    ensures Neighbours(G, p, G.add(p, p), 1, p)
  {
    Laws(G, G.zero, p, p);
    Laws(G, p, G.zero, p);
    assert Times(G, 1, p) == G.add(Times(G, 0, p), p);
    assert Times(G, 2, p) == G.add(Times(G, 1, p), p);
  }

  /** EccPoint_mult: R1 - R0 = point holds after every step, and R0 is the multiple. */
  method PointMult<T(!new)>(G: Group<T>, point: T, scalar: array<nat>, bits: nat, n: nat, W: nat)
    returns (r: T, ghost r1: T)
    requires Lawful(G) && 0 < W && IsWords(scalar[..], n, Base(W)) && 2 <= bits <= W * n + 1
    ensures r == Times(G, LadderScalar(Val(scalar[..], n, Base(W)), bits), point)
    ensures r1 == G.add(r, point)
  {
    ghost var v := Val(scalar[..], n, Base(W));
    LadderEnds(v, bits);
    FirstMultiples(G, point);
    // XYcZ_initial_double: R1 = 2 * point, R0 = point
    var R := new T[2](_ => point);
    R[1] := G.add(R[1], R[0]);
    var i := bits - 2;
    while i > 0
      invariant 0 <= i <= bits - 2
      invariant Neighbours(G, R[0], R[1], Leading(v, bits, i + 1), point)
    {
      LadderRound(G, R, scalar, i, n, W, bits, point);
      i := i - 1;
    }
    LadderRound(G, R, scalar, 0, n, W, bits, point);
    r, r1 := R[0], R[1];
  }

  // ---------- Regularisation ----------

  /** BITS_TO_WORDS. */
  function BitsToWords(bits: nat, W: nat): nat
    requires W > 0
  {
    (bits + (W - 1)) / W
  }

  /** The order n has exactly `bits` bits and fills nw words. */
  ghost predicate OrderSized(v: nat, bits: nat, nw: nat, W: nat) {
    0 < W && 0 < bits <= W * nw && Base(bits - 1) <= v < Base(bits)
  }

  lemma TopBit(x: nat, bits: nat)
    requires x < 2 * Base(bits)
    ensures BitOf(x, bits) == 1 <==> x >= Base(bits)
    ensures x % Base(bits) == if x >= Base(bits) then x - Base(bits) else x
  {
    var P := Base(bits);
    if x >= P { QuotientIs(x - P, 1, P); ModSmall(x - P, 1, P); } else { QuotientIs(x, 0, P); ModSmall(x, 0, P); }
  }

  /** regularize_k: k0 = k + n, k1 = k + 2n, both modulo the word range; the carry says
      whether k + n already has the extra bit. The scalar chosen, read with an implicit
      leading one at bit num_n_bits, is k + n or k + 2n. */
  method RegularizeK(k: array<nat>, k0: array<nat>, k1: array<nat>, order: array<nat>, bits: nat, nw: nat, W: nat)
    returns (carry: bool)
    requires 0 < W && nw == BitsToWords(bits, W) && nw <= k0.Length && nw <= k1.Length
    requires k0 != k1 && k0 != order && k1 != order && k0 != k && k1 != k
    requires IsWords(k[..], nw, Base(W)) && IsWords(order[..], nw, Base(W))
    requires OrderSized(Val(order[..], nw, Base(W)), bits, nw, W)
    requires Val(k[..], nw, Base(W)) < Val(order[..], nw, Base(W))
    modifies k0, k1
    ensures IsWords(k0[..], nw, Base(W)) && IsWords(k1[..], nw, Base(W))
    ensures carry ==>
      LadderScalar(Val(k0[..], nw, Base(W)), bits + 1) == Val(k[..], nw, Base(W)) + Val(order[..], nw, Base(W))
    ensures !carry ==>
      LadderScalar(Val(k1[..], nw, Base(W)), bits + 1) == Val(k[..], nw, Base(W)) + 2 * Val(order[..], nw, Base(W))
  {
    ghost var B, P := Base(W), Base(bits);
    ghost var kv, nv := Val(k[..], nw, B), Val(order[..], nw, B);
    PowPow(2, W, nw);
    PowMono(2, bits, W * nw);
    if bits < W * nw { PowMono(2, bits + 1, W * nw); }
    var c := Add(k0, k, order, nw, W);
    ValBound(k0[..], nw, B);
    carry := c == 1;
    if !carry && bits < W * nw {
      carry := TestBit(k0, bits, nw, W);
      TopBit(Val(k0[..], nw, B), bits);
    }
    ghost var k0v := Val(k0[..], nw, B);
    var c1 := Add(k1, k0, order, nw, W);
    ValBound(k1[..], nw, B);
    if carry {
      TopBit(k0v, bits);
    } else {
      TopBit(Val(k1[..], nw, B), bits);
    }
  }
}
