/** Modular addition, subtraction, reduction and multiplication of
    crypto/micro-ecc/uECC.c. */
module VliMod {
  import opened Words
  import opened Vli
  import opened VliMult

  /** uECC_vli_modAdd. The source assumes left < mod and right < mod; right < mod alone
      already gives one exact conditional subtraction, which the signer relies on when
      it adds a hash that is not reduced. */
  method ModAdd(result: array<nat>, left: array<nat>, right: array<nat>, mod: array<nat>, n: nat, W: nat)
    requires n <= result.Length && result != mod
    requires IsWords(left[..], n, Base(W)) && IsWords(right[..], n, Base(W)) && IsWords(mod[..], n, Base(W))
    requires Val(right[..], n, Base(W)) < Val(mod[..], n, Base(W))
    modifies result
    ensures OnlyPrefixChanged(old(result[..]), result[..], n) && IsWords(result[..], n, Base(W))
    ensures Val(result[..], n, Base(W))
         == ReduceOnce(old(Val(left[..], n, Base(W))) + old(Val(right[..], n, Base(W))), Val(mod[..], n, Base(W)))
  {
    ghost var B := Base(W);
    ghost var l, r, m := Val(left[..], n, B), Val(right[..], n, B), Val(mod[..], n, B);
    ValBound(left[..], n, B);
    ValBound(mod[..], n, B);
    var carry := Add(result, left, right, n, W);
    ValBound(result[..], n, B);
    var c := CmpUnsafe(mod, result, n, W);
    if carry == 1 || c != 1 {
      var borrow := Sub(result, result, mod, n, W);
      ValBound(result[..], n, B);
    }
  }

  function ReduceOnce(x: nat, m: nat): nat {
    if x >= m then x - m else x
  }

  /** For reduced operands one subtraction is the full reduction. */
  lemma ReduceOnceIsMod(l: nat, r: nat, m: nat)
    requires l < m && r < m
    ensures ReduceOnce(l + r, m) == (l + r) % m
  {
    if l + r >= m { ModSmall(l + r - m, 1, m); } else { ModSmall(l + r, 0, m); }
  }

  /** uECC_vli_modSub. */
  method ModSub(result: array<nat>, left: array<nat>, right: array<nat>, mod: array<nat>, n: nat, W: nat)
    requires n <= result.Length && result != mod
    requires IsWords(left[..], n, Base(W)) && IsWords(right[..], n, Base(W)) && IsWords(mod[..], n, Base(W))
    requires Val(left[..], n, Base(W)) < Val(mod[..], n, Base(W))
    requires Val(right[..], n, Base(W)) < Val(mod[..], n, Base(W))
    modifies result
    ensures OnlyPrefixChanged(old(result[..]), result[..], n) && IsWords(result[..], n, Base(W))
    ensures Val(result[..], n, Base(W))
         == LiftOnce(old(Val(left[..], n, Base(W))) - old(Val(right[..], n, Base(W))), Val(mod[..], n, Base(W)))
  {
    ghost var B := Base(W);
    ghost var l, r, m := Val(left[..], n, B), Val(right[..], n, B), Val(mod[..], n, B);
    ValBound(mod[..], n, B);
    var borrow := Sub(result, left, right, n, W);
    if borrow == 1 {
      var carry := Add(result, result, mod, n, W);
      ValBound(result[..], n, B);
    }
  }

  function LiftOnce(x: int, m: nat): int {
    if x < 0 then x + m else x
  }

  lemma LiftOnceIsMod(l: nat, r: nat, m: nat)
    requires l < m && r < m
    ensures LiftOnce(l - r, m) == (l - r) % m
  {
    if l < r { ModSmall(l - r + m, -1, m); } else { ModSmall(l - r, 0, m); }
  }

  /** vli_numDigits: the number of words up to the highest nonzero one. */
  method NumDigits(vli: array<nat>, n: nat) returns (d: nat)
    requires n <= vli.Length
    ensures d <= n && (d > 0 ==> vli[d - 1] > 0)
    ensures forall j :: d <= j < n ==> vli[j] == 0
  {
    d := n;
    while d > 0 && vli[d - 1] == 0
      invariant d <= n && forall j :: d <= j < n ==> vli[j] == 0
    {
      d := d - 1;
    }
  }

  /** The shifting loop of uECC_vli_numBits on the top word. */
  method DigitBits(w: nat) returns (i: nat)
    requires w > 0
    ensures i > 0 && Pow(2, i - 1) <= w < Pow(2, i)
  {
    var digit: nat := w;
    i := 0;
    while digit > 0
      invariant digit * Pow(2, i) <= w < (digit + 1) * Pow(2, i)
      invariant i > 0 ==> Pow(2, i - 1) <= w
      decreases digit
    {
      HalveDigit(w, digit, i);
      digit := digit / 2;
      i := i + 1;
    }
  }

  /** uECC_vli_numBits: the length of the binary representation. */
  method NumBits(vli: array<nat>, n: nat, W: nat) returns (bits: nat)
    requires IsWords(vli[..], n, Base(W))
    ensures bits == 0 <==> Val(vli[..], n, Base(W)) == 0
    ensures bits > 0 ==> Pow(2, bits - 1) <= Val(vli[..], n, Base(W)) < Pow(2, bits)
    ensures n > 0 && vli[n - 1] > 0 ==> exists i :: TopBits(vli[..], n, bits, i, W)
  {
    var d := NumDigits(vli, n);
    ValTrim(vli[..], d, n, Base(W));
    if d == 0 {
      return 0;
    }
    var i := DigitBits(vli[d - 1]);
    DigitLength(vli[d - 1], i, W);
    bits := DigitsToBits(vli[..], d, i, W);
  }

  /** The top one of n words has i bits, and all words together have `bits`. */
  ghost predicate TopBits(s: seq<nat>, n: nat, bits: nat, i: nat, W: nat) {
    0 < n <= |s| && 0 < i <= W && bits == W * (n - 1) + i && s[n - 1] < Pow(2, i)
  }

  lemma HalveDigit(w: nat, digit: nat, i: nat)
    requires digit > 0 && digit * Pow(2, i) <= w < (digit + 1) * Pow(2, i)
    ensures digit / 2 * Pow(2, i + 1) <= w < (digit / 2 + 1) * Pow(2, i + 1)
    ensures Pow(2, i) <= w
  {
    var P, h := Pow(2, i), digit / 2;
    assert h * (2 * P) == (2 * h) * P && (h + 1) * (2 * P) == (2 * h + 2) * P;
    MulMono(2 * h, digit, P);
    MulMono(digit + 1, 2 * h + 2, P);
    MulMono(1, digit, P);
  }

  lemma DigitLength(w: nat, i: nat, W: nat)
    requires w < Base(W) && i > 0 && Pow(2, i - 1) <= w
    ensures i <= W
  {
    if i > W { PowMono(2, W, i - 1); }
  }

  lemma TopDigit(v: int, w: int, x: int, P: int, lo: int, hi: int)
    requires x == v + w * P && 0 <= v < P && lo <= w < hi
    ensures P * lo <= x < P * hi
  {
    MulMono(lo, w, P);
    MulMono(w + 1, hi, P);
    MulNext(w, P);
  }

  /** The bits of the lower words and those of the top word. */
  method DigitsToBits(ghost s: seq<nat>, d: nat, i: nat, W: nat) returns (bits: nat)
    requires 0 < d && IsWords(s, d, Base(W)) && 0 < i <= W
    requires Pow(2, i - 1) <= s[d - 1] < Pow(2, i)
    ensures bits > 0 && Pow(2, bits - 1) <= Val(s, d, Base(W)) < Pow(2, bits) && Val(s, d, Base(W)) > 0
    ensures TopBits(s, d, bits, i, W)
  {
    MulPositiveOrZero(W, d - 1);
    bits := W * (d - 1) + i;
    BitsBound(s, d, i, W * (d - 1), W);
    PowPositive(2, bits - 1);
  }

  lemma BitsBound(s: seq<nat>, d: nat, i: nat, low: nat, W: nat)
    requires 0 < d && IsWords(s, d, Base(W)) && i > 0 && low == W * (d - 1)
    requires Pow(2, i - 1) <= s[d - 1] < Pow(2, i)
    ensures Pow(2, low + i - 1) <= Val(s, d, Base(W)) < Pow(2, low + i)
  {
    PowPow(2, W, d - 1);
    PowAdd(2, low, i - 1);
    PowAdd(2, low, i);
    ValBound(s, d - 1, Base(W));
    TopDigit(Val(s, d - 1, Base(W)), s[d - 1], Val(s, d, Base(W)), Pow(2, low), Pow(2, i - 1), Pow(2, i));
  }

  // ---------- Shift-subtract reduction ----------

  /** Splitting a word at bit position log H before multiplying by T, where T * H = B. */
  lemma WordSplit(x: nat, carry: nat, T: nat, H: nat, B: nat)
    requires B == T * H && T > 0 && H > 0 && x < B && carry < T
    ensures 0 <= x / H < T && x * T % B == x % H * T
    ensures x % H * T + carry < B
    ensures x % H * T + carry + x / H * B == x * T + carry
  {
    var q, r := x / H, x % H;
    DivMod(x, H);
    if q >= T { MulMono(T, q, H); assert false; }
    ShiftSplit(x, q, r, T, H, B);
    MulMono(r + 1, H, T);
    MulNext(r, T);
    ModSmall(r * T, q, B);
  }

  /** One word shifted left by bs bits: what stays, what moves to the next word. */
  lemma ShiftedWord(x: nat, carry: nat, bs: nat, W: nat)
    requires 0 < bs < W && x < Base(W) && carry < Base(bs)
    ensures 0 <= x / Base(W - bs) < Base(bs)
    ensures BitOr(x * Base(bs) % Base(W), carry) < Base(W)
    ensures BitOr(x * Base(bs) % Base(W), carry) + x / Base(W - bs) * Base(W) == x * Base(bs) + carry
  {
    PowAdd(2, bs, W - bs);
    WordSplit(x, carry, Base(bs), Base(W - bs), Base(W));
    BitOrDisjoint(x % Base(W - bs), carry, bs);
  }

  lemma ShiftSplit(x: int, q: int, r: int, T: int, H: int, B: int)
    requires x == r + q * H && B == T * H
    ensures x * T == r * T + q * B
  {
    assert (r + q * H) * T == r * T + q * H * T;
    MulAssoc(q, H, T);
  }

  /** The loop that writes mod << bs into the n words of mm from off. */
  method ShiftLeftInto(mm: array<nat>, off: nat, mod: array<nat>, n: nat, bs: nat, W: nat)
    requires off + n <= mm.Length && mm != mod && 0 < bs < W && 0 < n
    requires IsWords(mod[..], n, Base(W)) && mod[n - 1] < Base(W - bs)
    modifies mm
    ensures forall i :: 0 <= i < mm.Length && !(off <= i < off + n) ==> mm[i] == old(mm[i])
    ensures IsWords(mm[off..], n, Base(W))
    ensures Val(mm[off..], n, Base(W)) == Val(mod[..], n, Base(W)) * Base(bs)
  {
    var B, carry := Base(W), 0;
    assert 0 * Pow(B, 0) == 0 && 0 * Base(bs) == 0;
    for index := 0 to n
      invariant forall i :: 0 <= i < mm.Length && !(off <= i < off + index) ==> mm[i] == old(mm[i])
      invariant IsWords(mm[off..], index, B)
      invariant 0 <= carry < Base(bs)
      invariant index == n ==> carry == 0
      invariant ShiftedPrefix(mm[off..], mod[..], index, carry, Base(bs), B)
    {
      ghost var before, c := mm[off..], carry;
      ShiftedWord(mod[index], carry, bs, W);
      mm[off + index] := BitOr(mod[index] * Base(bs) % B, carry);
      DivSmall(mod[index], Base(W - bs));
      carry := mod[index] / Base(W - bs);
      ShiftedStep(before, mm[off..], mod[..], index, c, carry, Base(bs), B);
    }
    assert 0 * Pow(B, n) == 0;
  }

  lemma DivSmall(x: nat, m: nat)
    requires m > 0
    ensures x / m >= 0
    ensures x < m ==> x / m == 0
  {
    DivMod(x, m);
    if x < m && x / m >= 1 { MulMono(1, x / m, m); assert false; }
  }

  ghost predicate ShiftedPrefix(s: seq<nat>, mod: seq<nat>, k: nat, carry: int, T: nat, B: nat)
    requires k <= |s| && k <= |mod|
  {
    Val(s, k, B) + carry * Pow(B, k) == Val(mod, k, B) * T
  }

  lemma ShiftedStep(before: seq<nat>, after: seq<nat>, mod: seq<nat>, k: nat, c: int, carry: int, T: nat, B: nat)
    requires k < |before| == |after| && k < |mod|
    requires forall j :: 0 <= j < k ==> before[j] == after[j]
    requires after[k] + carry * B == mod[k] * T + c
    requires ShiftedPrefix(before, mod, k, c, T, B)
    ensures ShiftedPrefix(after, mod, k + 1, carry, T, B)
  {
    ValAgree(before, after, k, B);
    ShiftedEquation(Val(after, k, B), Val(mod, k, B), after[k], mod[k], c, carry, T, B, Pow(B, k));
  }

  lemma ShiftedEquation(v: int, m: int, w: int, x: int, c: int, carry: int, T: int, B: int, P: int)
    requires w + carry * B == x * T + c && v + c * P == m * T
    ensures v + w * P + carry * (B * P) == (m + x * P) * T
  {
    assert (w + carry * B) * P == w * P + carry * (B * P);
    assert (x * T + c) * P == x * P * T + c * P;
    assert (m + x * P) * T == m * T + x * P * T;
  }

  lemma {:induction false} ValParity(s: seq<nat>, n: nat, B: nat)
    requires 0 < n <= |s| && B % 2 == 0
    ensures Val(s, n, B) % 2 == s[0] % 2
  {
    ValCons(s, n, B);
    EvenPart(s[0], B / 2, Val(s[1..], n - 1, B), B);
  }

  lemma EvenPart(x: int, half: int, v: int, B: int)
    requires B == 2 * half
    ensures (x + B * v) % 2 == x % 2
  {
    MulAssoc(2, half, v);
  }

  /** Halving a double-width number by halves: the low half, the bit that crosses, the high half. */
  lemma HalvesMeet(lo: nat, hi: nat, P: nat, p: nat)
    requires P == 2 * p
    ensures (lo + P * hi) / 2 == lo / 2 + (if hi % 2 == 1 then p else 0) + P * (hi / 2)
  {
    var h := hi / 2;
    assert P * hi == P * (2 * h) + P * (hi % 2);
    assert P * (2 * h) == 2 * (P * h);
  }

  /** The two rshift1 calls and the or between them in uECC_vli_mmod. */
  method HalveDouble(mm: array<nat>, n: nat, W: nat)
    requires mm.Length == 2 * n && 0 < n && 0 < W && IsWords(mm[..], 2 * n, Base(W))
    modifies mm
    ensures IsWords(mm[..], 2 * n, Base(W))
    ensures Val(mm[..], 2 * n, Base(W)) == old(Val(mm[..], 2 * n, Base(W))) / 2
  {
    var half := Pow(2, W - 1);
    ghost var O := mm[..];
    assert mm[0..] == O;
    RShift1(mm, 0, n, W);
    ghost var L := mm[..];
    assert mm[0..] == L;
    assert L[n..] == O[n..];
    // mod_multiple[num_words - 1] |= mod_multiple[num_words] << (WORD_BITS - 1)
    var crossing := if mm[n] % 2 == 1 then half else 0;
    OrTopBit(crossing, mm[n - 1], half, W - 1);
    mm[n - 1] := BitOr(crossing, mm[n - 1]);
    ghost var M := mm[..];
    assert M[n..] == O[n..];
    RShift1(mm, n, n, W);
    CrossingBit(O, L, M, n, half, Base(W));
    DoubleHalved(O, M, mm[..], n, half, Base(W));
    assert forall i :: n <= i < 2 * n ==> mm[i] == mm[n..][i - n];
  }

  lemma CrossingBit(O: seq<nat>, L: seq<nat>, M: seq<nat>, n: nat, half: nat, B: nat)
    requires 0 < n && |O| == |L| == |M| == 2 * n
    requires M[..n - 1] == L[..n - 1] && M[n - 1] == (if O[n] % 2 == 1 then half else 0) + L[n - 1]
    ensures Val(M, n, B) == Val(L, n, B) + (if O[n] % 2 == 1 then half * Pow(B, n - 1) else 0)
  {
    assert forall i :: 0 <= i < n - 1 ==> M[i] == M[..n - 1][i] == L[..n - 1][i] == L[i];
    ValAgree(L, M, n - 1, B);
    MulSum(half, L[n - 1], Pow(B, n - 1));
  }

  lemma DoubleHalved(O: seq<nat>, M: seq<nat>, R: seq<nat>, n: nat, half: nat, B: nat)
    requires 0 < n && |O| == |M| == |R| == 2 * n && B == 2 * half
    requires Val(M, n, B) == Val(O, n, B) / 2 + (if O[n] % 2 == 1 then half * Pow(B, n - 1) else 0)
    requires forall i :: 0 <= i < n ==> R[i] == M[i]
    requires Val(R[n..], n, B) == Val(O[n..], n, B) / 2
    ensures Val(R, 2 * n, B) == Val(O, 2 * n, B) / 2
  {
    ValSplit(O, n, n, B);
    ValSplit(R, n, n, B);
    ValAgree(R, M, n, B);
    ValParity(O[n..], n, B);
    MulAssoc(2, half, Pow(B, n - 1));
    HalvesMeet(Val(O, n, B), Val(O[n..], n, B), Pow(B, n), half * Pow(B, n - 1));
  }

  lemma AlignShift(n: nat, W: nat, bits: nat, i: nat)
    requires 0 < n && 0 < i <= W && bits == W * (n - 1) + i
    ensures bits <= n * 2 * W
    ensures n * 2 * W - bits == W * n + (W - i) && bits + (n * 2 * W - bits) == W * (2 * n)
    ensures (n * 2 * W - bits) / W == n && (n * 2 * W - bits) % W == W - i
  {
    var shift := n * 2 * W - bits;
    assert shift == (W - i) + n * W;
    ModSmall(W - i, n, W);
    DivMod(shift, W);
    assert (shift / W - n) * W == 0;
  }

  lemma MulSwap(a: int, b: int, c: int)
    ensures a * (b * c) == b * (a * c)
  {
    MulAssoc(a, b, c);
    MulAssoc(b, a, c);
  }

  lemma AlignedValue(mm: seq<nat>, m: nat, n: nat, bs: nat, bits: nat, shift: nat, W: nat)
    requires 0 < n && |mm| == 2 * n && (forall i :: 0 <= i < n ==> mm[i] == 0)
    requires Val(mm[n..], n, Base(W)) == m * Base(bs)
    requires bits > 0 && Pow(2, bits - 1) <= m && ToTheTop(shift, bs, bits, n, W)
    ensures Val(mm, 2 * n, Base(W)) == m * Pow(2, shift)
    ensures Pow(Base(W), 2 * n) <= 2 * (m * Pow(2, shift))
  {
    ValSplit(mm, n, n, Base(W));
    ValZero(mm, n, Base(W));
    PowPow(2, W, n);
    PowPow(2, W, 2 * n);
    PowAdd(2, W * n, bs);
    PowAdd(2, bits, shift);
    MulSwap(Pow(2, W * n), m, Pow(2, bs));
    MulMono(2 * Pow(2, bits - 1), 2 * m, Pow(2, shift));
    MulAssoc(2, m, Pow(2, shift));
  }

  method SetAt(dest: array<nat>, off: nat, src: array<nat>, n: nat)
    requires off + n <= dest.Length && n <= src.Length && dest != src
    modifies dest
    ensures forall i :: 0 <= i < dest.Length && !(off <= i < off + n) ==> dest[i] == old(dest[i])
    ensures forall i :: 0 <= i < n ==> dest[off..][i] == src[i]
  {
    for i := 0 to n
      invariant forall j :: 0 <= j < dest.Length && !(off <= j < off + i) ==> dest[j] == old(dest[j])
      invariant forall j :: off <= j < off + i ==> dest[j] == src[j - off]
    {
      dest[off + i] := src[i];
    }
  }

  /** The head of uECC_vli_mmod: shift mod so that its highest bit is the highest of 2n words. */
  method AlignModulus(mod: array<nat>, n: nat, W: nat) returns (mm: array<nat>, shift: nat)
    requires 0 < n && 0 < W && IsWords(mod[..], n, Base(W)) && mod[n - 1] > 0
    ensures fresh(mm) && mm.Length == 2 * n && IsWords(mm[..], 2 * n, Base(W))
    ensures Val(mm[..], 2 * n, Base(W)) == Val(mod[..], n, Base(W)) * Pow(2, shift)
    ensures Pow(Base(W), 2 * n) <= 2 * (Val(mod[..], n, Base(W)) * Pow(2, shift))
  {
    var bits := NumBits(mod, n, W);
    var wordShift, bitShift;
    shift, wordShift, bitShift := Shifts(n, bits, W, mod[..]);
    mm := PlaceAligned(mod, n, bits, shift, wordShift, bitShift, W);
  }

  /** Put the modulus, shifted by n words and bitShift bits, into 2n words. */
  method PlaceAligned(mod: array<nat>, n: nat, ghost bits: nat, ghost shift: nat, wordShift: nat, bitShift: nat, W: nat)
    returns (mm: array<nat>)
    requires 0 < n && 0 < W && IsWords(mod[..], n, Base(W)) && bitShift < W && mod[n - 1] < Pow(2, W - bitShift)
    requires bits > 0 && Pow(2, bits - 1) <= Val(mod[..], n, Base(W))
    requires ToTheTop(shift, bitShift, bits, n, W) && wordShift == n
    ensures fresh(mm) && mm.Length == 2 * n && IsWords(mm[..], 2 * n, Base(W))
    ensures Val(mm[..], 2 * n, Base(W)) == Val(mod[..], n, Base(W)) * Pow(2, shift)
    ensures Pow(Base(W), 2 * n) <= 2 * (Val(mod[..], n, Base(W)) * Pow(2, shift))
  {
    mm := new nat[2 * n];
    Clear(mm, wordShift);
    PlaceShifted(mm, mod, n, bitShift, W);
    AlignedValue(mm[..], Val(mod[..], n, Base(W)), n, bitShift, bits, shift, W);
  }

  /** The shift of a number of `bits` bits to the top of 2n words is n words and bs bits. */
  ghost predicate ToTheTop(shift: nat, bs: nat, bits: nat, n: nat, W: nat) {
    shift == W * n + bs && bits + shift == W * (2 * n)
  }

  /** By how many bits the modulus is shifted, in words and bits: always n whole words. */
  method Shifts(n: nat, bits: nat, W: nat, ghost mod: seq<nat>) returns (shift: nat, wordShift: nat, bitShift: nat)
    requires 0 < n <= |mod| && 0 < W && exists i :: TopBits(mod, n, bits, i, W)
    ensures ToTheTop(shift, bitShift, bits, n, W) && wordShift == n && bits > 0
    ensures bitShift < W && mod[n - 1] < Pow(2, W - bitShift)
  {
    ghost var i :| TopBits(mod, n, bits, i, W);
    AlignShift(n, W, bits, i);
    shift := n * 2 * W - bits;
    wordShift, bitShift := shift / W, shift % W;
  }

  /** Write the shifted modulus into the upper half of mm. */
  method PlaceShifted(mm: array<nat>, mod: array<nat>, n: nat, bitShift: nat, W: nat)
    requires 0 < n && 0 < W && mm.Length == 2 * n && mm != mod && bitShift < W
    requires IsWords(mod[..], n, Base(W)) && mod[n - 1] < Pow(2, W - bitShift)
    requires forall j :: 0 <= j < n ==> mm[j] == 0
    modifies mm
    ensures (forall j :: 0 <= j < n ==> mm[j] == 0) && IsWords(mm[..], 2 * n, Base(W))
    ensures Val(mm[n..], n, Base(W)) == Val(mod[..], n, Base(W)) * Base(bitShift)
  {
    if bitShift > 0 {
      ShiftLeftInto(mm, n, mod, n, bitShift, W);
    } else {
      SetAt(mm, n, mod, n);
      ValAgree(mm[n..], mod[..], n, Base(W));
      assert Val(mod[..], n, Base(W)) * Base(0) == Val(mod[..], n, Base(W));
    }
    assert forall j :: n <= j < 2 * n ==> mm[j] == mm[n..][j - n];
  }

  /** What the reduction loop keeps: x is product minus a multiple of m, below twice the
      aligned modulus m * 2^shift (and below m once shift has gone through zero). */
  ghost predicate Reducing(x: nat, product: nat, q: nat, m: nat, shift: int)
    requires shift >= -1
  {
    product == x + q * m && x < m * Pow(2, shift + 1)
  }

  lemma ReduceStep(x: nat, product: nat, q: nat, m: nat, shift: nat)
    requires Reducing(x, product, q, m, shift)
    ensures x < m * Pow(2, shift) ==> Reducing(x, product, q, m, shift - 1)
    ensures x >= m * Pow(2, shift) ==>
      Reducing(x - m * Pow(2, shift), product, q + Pow(2, shift), m, shift - 1)
  {
    var P := Pow(2, shift);
    assert m * (2 * P) == 2 * (m * P);
    assert (q + P) * m == q * m + m * P;
  }

  lemma HalvedMultiple(m: nat, shift: nat)
    requires shift > 0
    ensures m * Pow(2, shift) / 2 == m * Pow(2, shift - 1)
  {
    assert m * (2 * Pow(2, shift - 1)) == 2 * (m * Pow(2, shift - 1));
  }

  /** uECC_vli_mmod: result = product % mod for a modulus whose top word is not zero.
      The product buffer is overwritten, as in the source. */
  method MMod(result: array<nat>, product: array<nat>, mod: array<nat>, n: nat, W: nat)
    requires 0 < n && 0 < W && n <= result.Length && product.Length == 2 * n
    requires IsWords(mod[..], n, Base(W)) && mod[n - 1] > 0 && IsWords(product[..], 2 * n, Base(W))
    requires product != mod && product != result
    modifies result, product
    ensures OnlyPrefixChanged(old(result[..]), result[..], n) && IsWords(result[..], n, Base(W))
    ensures old(Val(mod[..], n, Base(W))) > 0
    ensures Val(result[..], n, Base(W)) == old(Val(product[..], 2 * n, Base(W))) % old(Val(mod[..], n, Base(W)))
  {
    ghost var B, m, p := Base(W), Val(mod[..], n, Base(W)), Val(product[..], 2 * n, Base(W));
    ValZero(mod[..], n, B);
    var tmp := new nat[2 * n];
    var v := [tmp, product];
    var mm, shift0 := AlignModulus(mod, n, W);
    var shift: int := shift0;
    var index := 1;
    ghost var q: nat := 0;
    ValBound(product[..], 2 * n, B);
    MulSwap(m, 2, Pow(2, shift0));
    assert Reducing(p, p, 0, m, shift);
    while shift >= 0
      invariant -1 <= shift && 0 <= index <= 1
      invariant IsWords(v[index][..], 2 * n, B) && IsWords(mm[..], 2 * n, B)
      invariant shift >= 0 ==> Val(mm[..], 2 * n, B) == m * Pow(2, shift)
      invariant Reducing(Val(v[index][..], 2 * n, B), p, q, m, shift)
      invariant mod[..] == old(mod[..]) && result[..] == old(result[..])
    {
      ReduceStep(Val(v[index][..], 2 * n, B), p, q, m, shift);
      // the loop of uECC_vli_sub, written out in the source
      var borrow := Sub(v[1 - index], v[index], mm, 2 * n, W);
      if borrow == 0 {
        q := q + Pow(2, shift);
      }
      // index = !(index ^ borrow): swap the buffers if there was no borrow
      index := if index == borrow then 1 else 0;
      if shift > 0 { HalvedMultiple(m, shift); }
      HalveDouble(mm, n, W);
      shift := shift - 1;
    }
    ghost var M := mod[..];
    Set(result, v[index], n);
    Remainder(v[index][..], result[..], p, q, m, n, B, M);
  }

  lemma Remainder(x: seq<nat>, r: seq<nat>, p: nat, q: nat, m: nat, n: nat, B: nat, mod: seq<nat>)
    requires B > 0 && IsWords(x, 2 * n, B) && n <= |r| && r[..n] == x[..n]
    requires IsWords(mod, n, B) && m == Val(mod, n, B) > 0
    requires Reducing(Val(x, 2 * n, B), p, q, m, -1)
    ensures IsWords(r, n, B) && Val(r, n, B) == p % m
  {
    assert forall i :: 0 <= i < n ==> r[i] == r[..n][i] == x[..n][i] == x[i];
    assert m * Pow(2, 0) == m;
    ValBound(mod, n, B);
    ValSmall(x, n, 2 * n, B);
    ValTrim(x, n, 2 * n, B);
    ValAgree(x, r, n, B);
    ModSmall(Val(r, n, B), q, m);
  }

  /** uECC_vli_modMult: result = (left * right) % mod. */
  method ModMult(result: array<nat>, left: array<nat>, right: array<nat>, mod: array<nat>, n: nat, W: nat)
    requires 0 < n < Base(W) && 0 < W && n <= result.Length
    requires IsWords(left[..], n, Base(W)) && IsWords(right[..], n, Base(W))
    requires IsWords(mod[..], n, Base(W)) && mod[n - 1] > 0
    modifies result
    ensures OnlyPrefixChanged(old(result[..]), result[..], n) && IsWords(result[..], n, Base(W))
    ensures old(Val(mod[..], n, Base(W))) > 0
    ensures Val(result[..], n, Base(W))
         == old(Val(left[..], n, Base(W))) * old(Val(right[..], n, Base(W))) % old(Val(mod[..], n, Base(W)))
  {
    var product := new nat[2 * n];
    Mult(product, left, right, n, W);
    MMod(result, product, mod, n, W);
  }
}
