/** From hash bytes to words: uECC_vli_bytesToNative and bits2int of crypto/micro-ecc/uECC.c, for
    words of ws bytes. */
module Bits2Int {
  import opened Words
  import opened Vli
  import opened VliMod
  import opened Ladder
  import opened ByteStrings

  // ---------- Words made of bytes ----------

  /** The bytes of word w, least significant first. */
  function WordBytes(le: seq<nat>, w: nat, ws: nat): seq<nat>
    requires w * ws + ws <= |le|
  {
    le[w * ws..w * ws + ws]
  }

  /** The first n words are made of the bytes of le. */
  ghost predicate MadeOf(words: seq<nat>, le: seq<nat>, n: nat, ws: nat) {
    && n <= |words| && |le| == n * ws
    && forall w {:trigger Made(words, le, w, ws)} :: 0 <= w < n ==> Made(words, le, w, ws)
  }

  ghost predicate Made(words: seq<nat>, le: seq<nat>, w: nat, ws: nat) {
    w < |words| && w * ws + ws <= |le| && words[w] == Val(WordBytes(le, w, ws), ws, 256)
  }

  lemma Room(w: int, n: int, ws: int)
    requires 0 <= w < n && ws >= 0
    ensures w * ws + ws <= n * ws
  {
    MulMono(w + 1, n, ws);
  }

  /** Grouping bytes into words does not change the number. */
  lemma {:induction false} Grouped(words: seq<nat>, le: seq<nat>, n: nat, ws: nat)
    requires n <= |words| && n * ws <= |le| && forall w :: 0 <= w < n ==> Made(words, le, w, ws)
    ensures Val(words, n, Pow(256, ws)) == Val(le, n * ws, 256)
  {
    if n > 0 {
      Room(n - 1, n, ws);
      Grouped(words, le, n - 1, ws);
      var m := (n - 1) * ws;
      assert n * ws == m + ws;
      ValSplit(le, m, ws, 256);
      ValAgree(le[m..], WordBytes(le, n - 1, ws), ws, 256);
      assert Made(words, le, n - 1, ws);
      PowPow(256, ws, n - 1);
      assert ws * (n - 1) == m;
      Commute(words[n - 1], Pow(256, m));
    }
  }

  lemma Commute(x: int, y: int)
    ensures x * y == y * x
  {
  }

  /** Putting a byte where a zero was. */
  lemma {:induction false} PutByte(s: seq<nat>, c: nat, x: nat, n: nat)
    requires c < n <= |s| && s[c] == 0
    ensures Val(s[c := x], n, 256) == Val(s, n, 256) + x * Pow(256, c)
  {
    if c == n - 1 {
      ValAgree(s[c := x], s, c, 256);
      assert s[c] * Pow(256, c) == 0;
    } else {
      PutByte(s, c, x, n - 1);
    }
  }

  lemma Pow256Is(k: nat)
    ensures Pow(256, k) == Pow(2, 8 * k)
  {
    assert Pow(2, 4) == 2 * Pow(2, 3) && Pow(2, 3) == 2 * Pow(2, 2) && Pow(2, 2) == 2 * Pow(2, 1) && Pow(2, 1) == 2 * Pow(2, 0);
    assert Pow(2, 8) == 2 * Pow(2, 7) && Pow(2, 7) == 2 * Pow(2, 6) && Pow(2, 6) == 2 * Pow(2, 5) && Pow(2, 5) == 2 * Pow(2, 4);
    PowPow(2, 8, k);
  }

  /** Or-ing a byte into a word whose lower bytes, up to that place, are zero. */
  lemma OrByte(s: seq<nat>, c: nat, x: nat, ws: nat)
    requires c < ws == |s| && x < 256 && forall j :: 0 <= j <= c ==> s[j] == 0
    ensures BitOr(Val(s, ws, 256), x * Pow(2, 8 * c)) == Val(s[c := x], ws, 256)
  {
    PutByte(s, c, x, ws);
    Pow256Is(c);
    ByteFits(x, c);
    var high := HighBytes(s, c, ws);
    BitOrDisjoint(high, x * Pow(2, 8 * c), 8 * (c + 1));
  }

  lemma ByteFits(x: nat, c: nat)
    requires x < 256
    ensures x * Pow(2, 8 * c) < Pow(2, 8 * (c + 1))
  {
    Pow256Is(c);
    Pow256Is(c + 1);
    PowPositive(256, c);
    MulMono(x + 1, 256, Pow(256, c));
    MulNext(x, Pow(256, c));
  }

  lemma HighBytes(s: seq<nat>, c: nat, ws: nat) returns (high: nat)
    requires c < ws == |s| && forall j :: 0 <= j <= c ==> s[j] == 0
    ensures Val(s, ws, 256) == high * Pow(2, 8 * (c + 1))
  {
    Pow256Is(c + 1);
    ValSplit(s, c + 1, ws - (c + 1), 256);
    ValZero(s, c + 1, 256);
    high := Val(s[c + 1..], ws - (c + 1), 256);
  }

  // ---------- bytesToNative ----------

  /** The bytes taken so far, from the most significant one, in their places. */
  ghost predicate Placed(le: seq<nat>, bytes: seq<Byte>, i: nat) {
    && i <= |bytes| <= |le|
    && (forall j :: 0 <= j < |bytes| - i ==> le[j] == 0)
    && (forall j :: |bytes| - i <= j < |bytes| ==> le[j] == bytes[|bytes| - 1 - j])
    && (forall j :: |bytes| <= j < |le| ==> le[j] == 0)
  }

  lemma AreWords(words: seq<nat>, le: seq<nat>, n: nat, ws: nat)
    requires MadeOf(words, le, n, ws) && forall j :: 0 <= j < |le| ==> le[j] < 256
    ensures IsWords(words, n, Pow(256, ws))
  {
    forall w | 0 <= w < n ensures words[w] < Pow(256, ws) {
      assert Made(words, le, w, ws);
      ValBound(WordBytes(le, w, ws), ws, 256);
    }
  }

  lemma {:induction false} PlacedValue(le: seq<nat>, bytes: seq<Byte>)
    requires |bytes| <= |le| && forall j :: 0 <= j < |bytes| ==> le[j] == bytes[|bytes| - 1 - j]
    ensures Val(le, |bytes|, 256) == FromBE(bytes)
  {
    if |bytes| > 0 {
      var init, last := bytes[..|bytes| - 1], bytes[|bytes| - 1];
      PlacedValue(le[1..], init);
      ValSplit(le, 1, |init|, 256);
      assert Val(le, 1, 256) == Val(le, 0, 256) + le[0] * Pow(256, 0) == le[0];
      assert Pow(256, 1) == 256 * Pow(256, 0) == 256;
    }
  }

  lemma WordKept(words: seq<nat>, le: seq<nat>, b: nat, x: nat, w: nat, v: nat, c: nat, n: nat, ws: nat)
    requires Made(words, le, v, ws) && b == w * ws + c && c < ws && w < n && v < n && v != w && |le| == n * ws && b < |le|
    ensures Made(words, le[b := x], v, ws)
  {
    if v < w { Room(v, w, ws); } else { Room(w, v, ws); }
    assert WordBytes(le[b := x], v, ws) == WordBytes(le, v, ws);
  }

  lemma ByteAdded(words: seq<nat>, words': seq<nat>, le: seq<nat>, b: nat, x: nat, w: nat, c: nat, n: nat, ws: nat)
    requires MadeOf(words, le, n, ws) && b == w * ws + c && c < ws && w < n && x < 256 && b < |le|
    requires forall j :: 0 <= j <= b ==> le[j] == 0
    requires words' == words[w := BitOr(words[w], x * Pow(2, 8 * c))]
    ensures MadeOf(words', le[b := x], n, ws)
  {
    var le' := le[b := x];
    forall v | 0 <= v < n ensures Made(words', le', v, ws) {
      assert Made(words, le, v, ws);
      if v != w {
        WordKept(words, le, b, x, w, v, c, n, ws);
      } else {
        OrByte(WordBytes(le, w, ws), c, x, ws);
        assert WordBytes(le', w, ws) == WordBytes(le, w, ws)[c := x];
      }
    }
  }

  /** Where byte b is: in word b / ws, at place b % ws. */
  lemma Place(b: nat, n: nat, ws: nat)
    requires ws > 0 && b < n * ws
    ensures b == b / ws * ws + b % ws && 0 <= b / ws < n
  {
    DivMod(b, ws);
    if b / ws >= n { MulMono(n, b / ws, ws); }
  }

  lemma {:induction false} ZeroWords(words: seq<nat>, le: seq<nat>, n: nat, ws: nat)
    requires n <= |words| && |le| == n * ws
    requires (forall j :: 0 <= j < n ==> words[j] == 0) && forall j :: 0 <= j < |le| ==> le[j] == 0
    ensures MadeOf(words, le, n, ws)
  {
    forall w | 0 <= w < n ensures Made(words, le, w, ws) {
      Room(w, n, ws);
      ValZero(WordBytes(le, w, ws), ws, 256);
    }
  }

  lemma WordsNeeded(num: nat, ws: nat)
    requires ws > 0
    ensures var n := (num + (ws - 1)) / ws; 0 <= n && num <= n * ws
  {
    DivMod(num + (ws - 1), ws);
  }

  /** uECC_vli_bytesToNative: the words hold the number whose bytes, most significant first, are
      given. */
  method BytesToNative(native: array<nat>, bytes: seq<Byte>, ws: nat)
    requires ws > 0 && (|bytes| + (ws - 1)) / ws <= native.Length
    modifies native
    ensures var n := (|bytes| + (ws - 1)) / ws;
      && IsWords(native[..], n, Pow(256, ws)) && Val(native[..], n, Pow(256, ws)) == FromBE(bytes)
      && forall j :: n <= j < native.Length ==> native[j] == old(native[j])
  {
    var n := (|bytes| + (ws - 1)) / ws;
    WordsNeeded(|bytes|, ws);
    Clear(native, n);
    ghost var le: seq<nat> := seq(n * ws, _ => 0);
    ZeroWords(native[..], le, n, ws);
    for i := 0 to |bytes|
      invariant MadeOf(native[..], le, n, ws) && Placed(le, bytes, i)
      invariant forall j :: n <= j < native.Length ==> native[j] == old(native[j])
    {
      var b := |bytes| - 1 - i;
      Place(b, n, ws);
      ghost var before := native[..];
      native[b / ws] := BitOr(native[b / ws], bytes[i] * Pow(2, 8 * (b % ws)));
      ByteAdded(before, native[..], le, b, bytes[i], b / ws, b % ws, n, ws);
      le := le[b := bytes[i]];
    }
    Finished(native[..], le, bytes, n, ws);
  }

  lemma Finished(words: seq<nat>, le: seq<nat>, bytes: seq<Byte>, n: nat, ws: nat)
    requires MadeOf(words, le, n, ws) && Placed(le, bytes, |bytes|)
    ensures IsWords(words, n, Pow(256, ws)) && Val(words, n, Pow(256, ws)) == FromBE(bytes)
  {
    AreWords(words, le, n, ws);
    forall w | 0 <= w < n ensures Made(words, le, w, ws) { }
    Grouped(words, le, n, ws);
    PlacedValue(le, bytes);
    ValTrim(le, |bytes|, |le|, 256);
  }

  // ---------- Dropping bits ----------

  /** A word w below words of value v = q * T + r: the low word and the rest of the quotient by T. */
  lemma ShiftAlgebra(w: int, x: int, y: int, v: int, q: int, r: int, T: int, H: int, B: int)
    requires w == x * T + y && v == q * T + r && B == T * H
    ensures w + B * v == y + (x + r * H + B * q) * T
  {
    assert B * v == B * (q * T) + B * r;
    assert B * (q * T) == B * q * T;
    assert B * r == r * H * T;
    assert (x + r * H + B * q) * T == x * T + r * H * T + B * q * T;
  }

  lemma ShiftStep(w: nat, v: nat, T: nat, H: nat, B: nat)
    requires T > 0 && B == T * H && w < B
    ensures (w + B * v) / T == w / T + v % T * H + B * (v / T) && (w + B * v) % T == w % T && 0 <= w / T < H
  {
    DivMod(w, T);
    DivMod(v, T);
    ShiftAlgebra(w, w / T, w % T, v, v / T, v % T, T, H, B);
    QuotientIs(w % T, w / T + v % T * H + B * (v / T), T);
    ModSmall(w % T, w / T + v % T * H + B * (v / T), T);
    if w / T >= H { MulMono(H, w / T, T); assert false; }
  }

  /** The words from i on are shifted, and the carry is what the word below them is to get. */
  ghost predicate ShiftedFrom(now: seq<nat>, was: seq<nat>, i: nat, n: nat, carry: nat, T: nat, H: nat, B: nat)
    requires T > 0
  {
    && i <= n <= |now| && n <= |was| && IsWords(now[i..], n - i, B)
    && Val(now[i..], n - i, B) == Val(was[i..], n - i, B) / T && carry == Val(was[i..], n - i, B) % T * H
  }

  lemma ShiftWord(now: seq<nat>, now': seq<nat>, was: seq<nat>, i: nat, n: nat, carry: nat, T: nat, H: nat, B: nat)
    requires T > 0 && H > 0 && B == T * H && i < n && ShiftedFrom(now, was, i + 1, n, carry, T, H, B) && was[i] < B
    requires now' == now[i := carry + was[i] / T]
    ensures ShiftedFrom(now', was, i, n, was[i] % T * H, T, H, B)
  {
    var v := Val(was[i + 1..], n - i - 1, B);
    ValCons(was[i..], n - i, B);
    assert was[i..][1..] == was[i + 1..];
    ValCons(now'[i..], n - i, B);
    assert now'[i..][1..] == now[i + 1..];
    ShiftStep(was[i], v, T, H, B);
    CarryFits(v % T, was[i] / T, T, H, B);
    forall j | 0 <= j < n - i ensures now'[i..][j] < B {
      if j > 0 { assert now'[i..][j] == now[i + 1..][j - 1]; }
    }
  }

  lemma CarryFits(r: int, x: int, T: int, H: int, B: int)
    requires 0 <= r < T && 0 <= x < H && B == T * H
    ensures r * H + x < B
  {
    MulMono(r + 1, T, H);
    MulNext(r, H);
  }

  /** temp << (W - shift), cut to a word: the bits that leave at the right. */
  function ShiftedOut(temp: nat, shift: nat, W: nat): nat
    requires 0 < shift < W
  {
    temp % Base(shift) * Base(W - shift)
  }

  /** The loop of bits2int that shifts the number right by less than a word. */
  method ShiftRight(native: array<nat>, n: nat, shift: nat, W: nat)
    requires 0 < shift < W && n <= native.Length && IsWords(native[..], n, Base(W))
    modifies native
    ensures IsWords(native[..], n, Base(W)) && Val(native[..], n, Base(W)) == Drop(old(Val(native[..], n, Base(W))), shift)
  {
    ghost var was, T, H, B := native[..], Base(shift), Base(W - shift), Base(W);
    PowAdd(2, shift, W - shift);
    var carry: nat, i: nat := 0, n;
    assert Val(was[n..], 0, B) == 0;
    while i > 0
      invariant 0 <= i <= n && ShiftedFrom(native[..], was, i, n, carry, T, H, B)
      invariant forall j :: 0 <= j < i ==> native[j] == was[j]
    {
      i := i - 1;
      ghost var before := native[..];
      var temp := native[i];
      OrCarry(temp, Val(was[i + 1..], n - i - 1, B) % T, shift, W);
      native[i] := BitOr(carry, temp / Base(shift));
      carry := ShiftedOut(temp, shift, W);
      ShiftWord(before, native[..], was, i, n, Val(was[i + 1..], n - i - 1, B) % T * H, T, H, B);
    }
    assert native[..][0..] == native[..] && was[0..] == was;
  }

  lemma OrCarry(temp: nat, r: nat, shift: nat, W: nat)
    requires 0 < shift < W && temp < Base(W)
    ensures BitOr(r * Base(W - shift), temp / Base(shift)) == r * Base(W - shift) + temp / Base(shift)
    ensures temp / Base(shift) >= 0
  {
    PowAdd(2, shift, W - shift);
    ShiftStep(temp, 0, Base(shift), Base(W - shift), Base(W));
    BitOrDisjoint(r, temp / Base(shift), W - shift);
  }

  // ---------- bits2int ----------

  /** v without its k lowest bits. */
  function Drop(v: nat, k: nat): nat {
    DivMod(v, Base(k));
    v / Base(k)
  }

  /** The number of bytes of the hash that count for an order of so many bits. */
  function HashSize(length: nat, bits: nat): nat {
    if length > (bits + 7) / 8 then (bits + 7) / 8 else length
  }

  /** What bits2int makes of the leading bytes: the number they stand for if it has no more bits than
      the order; else those bits that it has too many are dropped, and the order is subtracted once
      from a result that is not below it. */
  function HashNumber(hash: seq<Byte>, bits: nat, order: nat): nat {
    var size := HashSize(|hash|, bits);
    var v := FromBE(hash[..size]);
    if size * 8 <= bits then v else ReduceOnce(Drop(v, size * 8 - bits), order)
  }

  /** The leftmost bits of the hash, as many as the order has (section 6.4 of FIPS 186-4). */
  function LeftmostBits(hash: seq<Byte>, bits: nat): nat {
    if 8 * |hash| <= bits then FromBE(hash) else Drop(FromBE(hash), 8 * |hash| - bits)
  }

  /** That is the whole part of the hash divided by a power of two, and it has no more bits than the order. */
  lemma LeftmostIs(hash: seq<Byte>, bits: nat)
    ensures if 8 * |hash| <= bits then LeftmostBits(hash, bits) == FromBE(hash)
      else Part(LeftmostBits(hash, bits), FromBE(hash), Pow(2, 8 * |hash| - bits))
    ensures LeftmostBits(hash, bits) < Pow(2, bits)
  {
    FromBEBound(hash);
    Pow256Is(|hash|);
    if 8 * |hash| <= bits {
      PowMono(2, 8 * |hash|, bits);
    } else {
      var d := 8 * |hash| - bits;
      DivMod(FromBE(hash), Base(d));
      PowAdd(2, bits, d);
      PartBound(LeftmostBits(hash, bits), FromBE(hash), Pow(2, d), Pow(2, bits));
    }
  }

  ghost predicate Part(q: int, v: int, T: int) { q * T <= v < (q + 1) * T }

  lemma PartBound(q: int, v: int, T: int, m: int)
    requires T > 0 && v == v % T + q * T && v < m * T
    ensures Part(q, v, T) && q < m
  {
    MulNext(q, T);
    if q >= m { MulMono(m, q, T); }
  }

  /** The last bytes are the low part of the number. */
  lemma {:induction false} LowBytes(s: seq<Byte>, k: nat) returns (low: nat)
    requires k <= |s|
    ensures low < Pow(256, |s| - k) && FromBE(s) == low + Pow(256, |s| - k) * FromBE(s[..k])
  {
    if k == |s| {
      low := 0;
      assert s[..k] == s;
    } else {
      var init := s[..|s| - 1];
      var low' := LowBytes(init, k);
      assert init[..k] == s[..k];
      low := low' * 256 + s[|s| - 1];
      ByteAppended(low', Pow(256, |s| - 1 - k), FromBE(s[..k]), s[|s| - 1]);
    }
  }

  lemma ByteAppended(low: int, P: int, y: int, last: int)
    requires low < P && last < 256
    ensures (low + P * y) * 256 + last == low * 256 + last + 256 * P * y && low * 256 + last < 256 * P
  {
    assert 256 * P * y == 256 * (P * y);
  }

  /** Taking the leading bytes and then dropping bits is dropping bits of the whole hash. */
  lemma LeadingBits(hash: seq<Byte>, size: nat, bits: nat)
    requires size <= |hash| && bits <= 8 * size
    ensures Drop(FromBE(hash[..size]), 8 * size - bits) == Drop(FromBE(hash), 8 * |hash| - bits)
  {
    var low := LowBytes(hash, size);
    var a := 8 * (|hash| - size);
    Pow256Is(|hash| - size);
    DropTwice(FromBE(hash), low, FromBE(hash[..size]), a, 8 * size - bits);
    assert 8 * |hash| - bits == a + (8 * size - bits);
  }

  lemma DropTwice(v: nat, low: nat, y: nat, a: nat, b: nat)
    requires low < Pow(2, a) && v == low + Pow(2, a) * y
    ensures Drop(v, a + b) == Drop(y, b)
  {
    PowAdd(2, a, b);
    Nested(v, low, y, Base(a), Base(b), Base(a + b));
  }

  lemma Nested(v: nat, low: nat, y: nat, P: nat, Q: nat, PQ: nat)
    requires low < P && v == low + P * y && PQ == P * Q && PQ > 0 && Q > 0
    ensures v / PQ == y / Q
  {
    DivDiv(low, y, P, Q);
  }

  /** bits2int yields the leftmost bits of the hash, less the order at most once. */
  lemma HashNumberIsLeftmost(hash: seq<Byte>, bits: nat, order: nat)
    ensures HashNumber(hash, bits, order) == LeftmostBits(hash, bits)
         || HashNumber(hash, bits, order) == LeftmostBits(hash, bits) - order
  {
    var size := HashSize(|hash|, bits);
    if bits <= 8 * size {
      LeadingBits(hash, size, bits);
      if bits == 8 * size { DivOne(FromBE(hash[..size])); }
      if bits == 8 * |hash| { DivOne(FromBE(hash)); }
    } else {
      assert hash[..size] == hash;
    }
  }

  lemma DivOne(x: nat)
    ensures Drop(x, 0) == x
  {
  }

  /** bits2int. */
  method HashToInt(native: array<nat>, hash: seq<Byte>, order: array<nat>, bits: nat, nw: nat, ws: nat)
    requires ws > 0 && nw == BitsToWords(bits, 8 * ws) && nw <= native.Length && native != order
    requires IsWords(order[..], nw, Base(8 * ws))
    modifies native
    ensures IsWords(native[..], nw, Base(8 * ws))
    ensures Val(native[..], nw, Base(8 * ws)) == HashNumber(hash, bits, Val(order[..], nw, Base(8 * ws)))
  {
    var numBytes := (bits + 7) / 8;
    var size := if |hash| > numBytes then numBytes else |hash|;
    Clear(native, nw);
    BytesInWords(bits, nw, ws);
    FewWords(size, nw, ws);
    LeadingBytes(native, hash[..size], nw, ws);
    if size * 8 <= bits {
      return;
    }
    ShiftRight(native, nw, size * 8 - bits, 8 * ws);
    var c := CmpUnsafe(order, native, nw, 8 * ws);
    if c != 1 {
      var borrow := Sub(native, native, order, nw, 8 * ws);
    }
  }

  method LeadingBytes(native: array<nat>, bytes: seq<Byte>, nw: nat, ws: nat)
    requires ws > 0 && nw <= native.Length && 0 <= (|bytes| + (ws - 1)) / ws <= nw
    requires forall j :: 0 <= j < nw ==> native[j] == 0
    modifies native
    ensures IsWords(native[..], nw, Base(8 * ws)) && Val(native[..], nw, Base(8 * ws)) == FromBE(bytes)
  {
    PowPositive(256, ws);
    Pow256Is(ws);
    BytesToNative(native, bytes, ws);
    ValTrim(native[..], (|bytes| + (ws - 1)) / ws, nw, Pow(256, ws));
  }

  /** The bytes of the order fit its words. */
  lemma BytesInWords(bits: nat, nw: nat, ws: nat)
    requires ws > 0 && nw == BitsToWords(bits, 8 * ws)
    ensures 0 <= nw && (bits + 7) / 8 <= nw * ws
  {
    WordsNeeded(bits, 8 * ws);
    assert nw * (8 * ws) == 8 * (nw * ws);
  }

  lemma FewWords(num: nat, nw: nat, ws: nat)
    requires ws > 0 && num <= nw * ws
    ensures 0 <= (num + (ws - 1)) / ws <= nw
  {
    DivMod(num + (ws - 1), ws);
    var n := (num + (ws - 1)) / ws;
    if n > nw { MulMono(nw + 1, n, ws); }
  }
}
