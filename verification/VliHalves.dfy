/** muladd and mul2add for 64-bit words without a 128-bit type: the product is put together from
    four products of half words. H is the base of half words, B = H * H that of words. */
module VliHalves {
  import opened Words
  import opened Vli
  import opened VliMult

  // ---------- The product ----------

  lemma SquareBound(x: int, y: int, H: int)
    requires 0 <= x < H && 0 <= y < H
    ensures 0 <= x * y <= (H - 1) * (H - 1) && (H - 1) * (H - 1) + (H - 1) < H * H
  {
    MulMono(x, H - 1, y);
    MulMono(y, H - 1, H - 1);
    assert (H - 1) * (H - 1) + (H - 1) == H * H - H;
  }

  /** The four half products in their places. */
  lemma FourProducts(a0: int, a1: int, b0: int, b1: int, H: int)
    ensures (a0 + H * a1) * (b0 + H * b1) == a0 * b0 + H * (a0 * b1 + a1 * b0) + H * H * (a1 * b1)
  {
    assert (a0 + H * a1) * (b0 + H * b1) == a0 * b0 + a0 * (H * b1) + H * a1 * b0 + H * a1 * (H * b1);
    assert a0 * (H * b1) == H * (a0 * b1) && H * a1 * b0 == H * (a1 * b0) && H * a1 * (H * b1) == H * H * (a1 * b1);
  }

  /** Carrying from the low products into the middle and from there into the high one. */
  lemma CarryThrough(l: int, k: int, mid: int, m: int, c: int, u: int, v: int, top: int, H: int)
    requires mid == m + c * (H * H) && m == u + H * v
    ensures l + H * k + H * (mid - k) + H * H * top == (l + H * u) + H * H * (top + c * H + v)
  {
    assert H * mid == H * m + H * (c * (H * H));
    assert H * (c * (H * H)) == H * H * (c * H);
    assert H * m == H * u + H * (H * v) && H * (H * v) == H * H * v;
    assert H * (mid - k) == H * mid - H * k;
    assert H * H * (top + c * H + v) == H * H * top + H * H * (c * H) + H * H * v;
  }

  lemma HighBelow(p0: int, p1: int, x: int, B: int)
    requires 0 <= p0 && p0 + B * p1 == x && x < B * B && B > 0
    ensures p1 < B
  {
    if p1 >= B { MulMono(B, p1, B); }
  }

  /** The product of two words as a low and a high word. */
  method Product(a: nat, b: nat, hw: nat) returns (p0: nat, p1: nat)
    requires a < Base(hw) * Base(hw) && b < Base(hw) * Base(hw)
    ensures p0 < Base(hw) * Base(hw) && p1 < Base(hw) * Base(hw)
    ensures p0 + Base(hw) * Base(hw) * p1 == a * b
  {
    var H := Base(hw);
    var B := H * H;
    DivMod(a, H);
    DivMod(b, H);
    Halves(a, H);
    Halves(b, H);
    var a0, a1, b0, b1 := a % H, a / H, b % H, b / H;
    p0, p1 := Combine(a0, a1, b0, b1, hw);
    ProductBound(a, b, B);
    DoubleWord(0, 0, B);
    HighBelow(p0, p1, a * b, B);
  }

  method Combine(a0: nat, a1: nat, b0: nat, b1: nat, hw: nat) returns (p0: nat, p1: nat)
    requires a0 < Base(hw) && a1 < Base(hw) && b0 < Base(hw) && b1 < Base(hw)
    ensures p0 < Base(hw) * Base(hw)
    ensures p0 + Base(hw) * Base(hw) * p1 == (a0 + Base(hw) * a1) * (b0 + Base(hw) * b1)
  {
    var H := Base(hw);
    SquareBound(a0, b0, H);
    SquareBound(a0, b1, H);
    SquareBound(a1, b0, H);
    SquareBound(a1, b1, H);
    FourProducts(a0, a1, b0, b1, H);
    p0, p1 := Assemble(a0 * b0, a0 * b1, a1 * b0, a1 * b1, hw, H, H * H, (H - 1) * (H - 1));
  }

  /** The carries between the four products; `most` is the largest of them. */
  method Assemble(i0: nat, i1: nat, j2: nat, j3: nat, hw: nat, H: nat, B: nat, ghost most: nat)
    returns (p0: nat, p1: nat)
    requires H == Base(hw) && B == H * H && most + (H - 1) < B && i0 <= most && i1 <= most && j2 <= most
    ensures p0 < B && p0 + B * p1 == i0 + H * (i1 + j2) + B * j3
  {
    DivMod(i0, H);
    Halves(i0, H);
    var i2 := j2 + i0 / H;          // cannot overflow
    ghost var mid := i2 + i1;
    WrapExact(i2, i1, B);
    i2 := (i2 + i1) % B;
    var overflow := if i2 < i1 then 1 else 0;
    var i3 := j3 + overflow * H;
    SplitMiddle(i2, mid, H, B);
    p0 := Join(i2 % H, i0 % H, hw);
    p1 := i3 + i2 / H;
    CarryThrough(i0 % H, i0 / H, mid, i2, overflow, i2 % H, i2 / H, j3, H);
    DoubleWord(i0 % H, i2 % H, H);
  }

  lemma SplitMiddle(i2: nat, mid: nat, H: nat, B: nat)
    requires H > 0 && B == H * H && i2 == mid % B
    ensures i2 == i2 % H + H * (i2 / H) && 0 <= i2 / H < H
  {
    MulPositive(H, H);
    DivMod(i2, H);
    Halves(i2, H);
  }

  // ---------- The accumulator ----------

  /** Adding words with a carry: the comparison with the addend tells the new carry. */
  lemma SecondCarry(r: int, p: int, c: int, B: int)
    requires 0 <= r < B && 0 <= p < B && 0 <= c <= 1
    ensures var y := (r + p + c) % B;
      y + (if y < p || (y == p && c == 1) then 1 else 0) * B == r + p + c
  {
    if r + p + c < B {
      ModSmall(r + p + c, 0, B);
    } else {
      ModSmall(r + p + c - B, 1, B);
    }
  }

  lemma TwoWords(r0: int, r1: int, s0: int, s1: int, p0: int, p1: int, c0: int, c1: int, B: int)
    requires s0 + c0 * B == r0 + p0 && s1 + c1 * B == r1 + p1 + c0
    ensures s0 + B * s1 + c1 * (B * B) == r1 * B + r0 + (p0 + B * p1)
  {
    assert B * s1 == B * (r1 + p1 + c0) - B * (c1 * B);
    assert B * (r1 + p1 + c0) == B * r1 + B * p1 + B * c0;
    assert B * (c1 * B) == c1 * (B * B);
  }

  /** The common tail: add p0 and p1 to the low two words, the carry to the third. */
  method AddPair(p0: nat, p1: nat, r0: nat, r1: nat, r2: nat, B: nat) returns (s0: nat, s1: nat, s2: nat)
    requires r0 < B && r1 < B && p0 < B && p1 < B
    ensures s0 < B && s1 < B && s2 <= r2 + 1
    ensures Acc(s0, s1, s2, B) == Acc(r0, r1, r2, B) + (p0 + B * p1)
  {
    WrapExact(r0, p0, B);
    s0 := (r0 + p0) % B;
    var c0 := if s0 < p0 then 1 else 0;
    SecondCarry(r1, p1, c0, B);
    s1 := (r1 + p1 + c0) % B;
    var c1 := if s1 < p1 || (s1 == p1 && s0 < p0) then 1 else 0;
    s2 := r2 + c1;
    TwoWords(r0, r1, s0, s1, p0, p1, c0, c1, B);
    AccSum(r0, r1, r2, s0, s1, c1, p0 + B * p1, B, B * B);
  }

  lemma WordBase(hw: nat)
    ensures Base(2 * hw) == Base(hw) * Base(hw)
  {
    PowAdd(2, hw, hw);
  }

  /** muladd by half products: the same contract as the double-word form. */
  method MulAddHalves(a: nat, b: nat, r0: nat, r1: nat, r2: nat, hw: nat) returns (s0: nat, s1: nat, s2: nat)
    requires a < Base(2 * hw) && b < Base(2 * hw) && r0 < Base(2 * hw) && r1 < Base(2 * hw) && r2 + 1 < Base(2 * hw)
    ensures s0 < Base(2 * hw) && s1 < Base(2 * hw) && s2 <= r2 + 1
    ensures Acc(s0, s1, s2, Base(2 * hw)) == Acc(r0, r1, r2, Base(2 * hw)) + a * b
  {
    WordBase(hw);
    var p0, p1 := Product(a, b, hw);
    s0, s1, s2 := AddPair(p0, p1, r0, r1, r2, Base(2 * hw));
  }

  // ---------- Doubling ----------

  /** Doubling two words: the top bit of each goes one word up. */
  lemma Doubled(p0: int, p1: int, t0: int, t1: int, x0: int, x1: int, half: int)
    requires p0 == t0 * half + x0 && p1 == t1 * half + x1
    ensures 2 * x0 + 2 * half * (2 * x1 + t0) + t1 * (2 * half * (2 * half)) == 2 * (p0 + 2 * half * p1)
  {
    assert 2 * half * p1 == 2 * half * (t1 * half) + 2 * half * x1;
    assert t1 * (2 * half * (2 * half)) == 2 * (2 * half * (t1 * half));
    assert 2 * half * (2 * x1 + t0) == 2 * (2 * half * x1) + 2 * (t0 * half);
  }

  lemma TopOf(p: nat, half: nat)
    requires half > 0 && p < 2 * half
    ensures p / half <= 1 && p == p / half * half + p % half
  {
    DivMod(p, half);
    if p / half >= 2 { MulMono(2, p / half, half); assert false; }
  }

  lemma TopAdded(s0: int, s1: int, s2: int, t: int, B: int)
    ensures s0 + B * (s1 + B * (s2 + t)) == s0 + B * (s1 + B * s2) + t * (B * B)
  {
    assert B * (s2 + t) == B * s2 + B * t;
    assert B * (s1 + B * s2 + B * t) == B * (s1 + B * s2) + B * (B * t);
    assert B * (B * t) == t * (B * B);
  }

  /** mul2add by half products. */
  method Mul2AddHalves(a: nat, b: nat, r0: nat, r1: nat, r2: nat, hw: nat) returns (s0: nat, s1: nat, s2: nat)
    requires hw > 0
    requires a < Base(2 * hw) && b < Base(2 * hw) && r0 < Base(2 * hw) && r1 < Base(2 * hw) && r2 + 2 < Base(2 * hw)
    ensures s0 < Base(2 * hw) && s1 < Base(2 * hw) && s2 <= r2 + 2
    ensures Acc(s0, s1, s2, Base(2 * hw)) == Acc(r0, r1, r2, Base(2 * hw)) + 2 * (a * b)
  {
    WordBase(hw);
    var p0, p1 := Product(a, b, hw);
    s0, s1, s2 := AddTwice(p0, p1, r0, r1, r2, Pow(2, 2 * hw - 1));
  }

  /** The tail of mul2add: half is the weight of a word's top bit. */
  method AddTwice(p0: nat, p1: nat, r0: nat, r1: nat, r2: nat, half: nat) returns (s0: nat, s1: nat, s2: nat)
    requires half > 0 && r0 < 2 * half && r1 < 2 * half && p0 < 2 * half && p1 < 2 * half
    ensures s0 < 2 * half && s1 < 2 * half && s2 <= r2 + 2
    ensures Acc(s0, s1, s2, 2 * half) == Acc(r0, r1, r2, 2 * half) + 2 * (p0 + 2 * half * p1)
  {
    var q0, q1, top := DoublePair(p0, p1, half);
    s0, s1, s2 := AddPair(q0, q1, r0, r1, r2, 2 * half);
    TopAdded(s0, s1, s2, top, 2 * half);
    s2 := s2 + top;
  }

  method DoublePair(p0: nat, p1: nat, half: nat) returns (q0: nat, q1: nat, top: nat)
    requires half > 0 && p0 < 2 * half && p1 < 2 * half
    ensures q0 < 2 * half && q1 < 2 * half && top <= 1
    ensures q0 + 2 * half * q1 + top * (2 * half * (2 * half)) == 2 * (p0 + 2 * half * p1)
  {
    TopOf(p0, half);
    TopOf(p1, half);
    top := p1 / half;
    BitOrDisjoint(p1 % half, p0 / half, 1);
    assert Pow(2, 1) == 2 * Pow(2, 0) == 2;
    q1 := BitOr(p1 % half * 2, p0 / half);
    q0 := p0 % half * 2;
    Doubled(p0, p1, p0 / half, top, p0 % half, p1 % half, half);
  }
}
