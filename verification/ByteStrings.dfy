/** Bytes and big-endian numbers. */
module ByteStrings {
  import opened Words

  type Byte = x: int | 0 <= x < 256

  /** The low w bytes of n, most significant first. */
  function BE(n: nat, w: nat): (s: seq<Byte>)
    ensures |s| == w
  {
    if w == 0 then [] else BE(n / 256, w - 1) + [n % 256]
  }

  function FromBE(s: seq<Byte>): nat {
    if |s| == 0 then 0 else FromBE(s[..|s| - 1]) * 256 + s[|s| - 1]
  }

  function Repeat(b: Byte, n: nat): (s: seq<Byte>)
    ensures |s| == n
  {
    seq(n, _ => b)
  }

  /** The pieces one after the other. */
  function Flat(pieces: seq<seq<Byte>>): seq<Byte> {
    if |pieces| == 0 then [] else Flat(pieces[..|pieces| - 1]) + pieces[|pieces| - 1]
  }

  lemma FlatAppend(pieces: seq<seq<Byte>>, b: seq<Byte>)
    ensures Flat(pieces + [b]) == Flat(pieces) + b
  {
    assert (pieces + [b])[..|pieces|] == pieces;
  }

  lemma {:induction false} FromToBE(n: nat, w: nat)
    requires n < Pow(256, w)
    ensures FromBE(BE(n, w)) == n
  {
    if w > 0 {
      FromToBE(n / 256, w - 1);
      assert BE(n, w)[..w - 1] == BE(n / 256, w - 1);
    }
  }

  lemma {:induction false} FromBEBound(s: seq<Byte>)
    ensures FromBE(s) < Pow(256, |s|)
  {
    if |s| > 0 { FromBEBound(s[..|s| - 1]); }
  }

  lemma {:induction false} BETail(n: nat, w: nat, k: nat)
    requires k <= w
    ensures BE(n, w)[w - k..] == BE(n, k)
  {
    if k > 0 {
      BETail(n / 256, w - 1, k - 1);
      assert BE(n, w)[w - k..] == BE(n / 256, w - 1)[w - k..] + [n % 256];
    }
  }

  lemma Pow256Values()
    ensures Pow(256, 1) == 0x100 && Pow(256, 2) == 0x1_0000 && Pow(256, 4) == 0x1_0000_0000
    ensures Pow(256, 8) == 0x1_0000_0000_0000_0000
  {
    assert Pow(256, 3) == 256 * Pow(256, 2);
    assert Pow(256, 6) == 256 * Pow(256, 5) && Pow(256, 7) == 256 * Pow(256, 6);
    assert Pow(256, 5) == 256 * Pow(256, 4);
  }

  /** n >> 8 * k. */
  function ShiftBytes(n: nat, k: nat): nat {
    if k == 0 then n else ShiftBytes(n / 256, k - 1)
  }

  lemma {:induction false} BEAt(n: nat, w: nat, k: nat)
    requires k < w
    ensures BE(n, w)[w - 1 - k] == ShiftBytes(n, k) % 256
  {
    if k > 0 { BEAt(n / 256, w - 1, k - 1); }
  }

  /** Leading zero bytes. */
  lemma {:induction false} BEHighZero(n: nat, a: nat, b: nat)
    requires n < Pow(256, b)
    ensures BE(n, a + b) == BE(0, a) + BE(n, b)
    decreases b
  {
    if b > 0 { BEHighZero(n / 256, a, b - 1); }
  }

  /** Different numbers have different bytes. */
  lemma BEInjective(m: nat, n: nat, w: nat)
    requires m < Pow(256, w) && n < Pow(256, w) && BE(m, w) == BE(n, w)
    ensures m == n
  {
    FromToBE(m, w);
    FromToBE(n, w);
  }

  // ---------- Unsigned machine numbers ----------

  /** n reduced modulo m, as unsigned arithmetic of the machine does. */
  function Wrap(n: nat, m: nat): (r: nat)
    requires m > 0
    ensures r < m
  {
    if n < m then n else Wrap(n - m, m)
  }

  lemma {:induction false} WrapAdd(x: nat, y: nat, m: nat)
    requires m > 0
    ensures Wrap(Wrap(x, m) + y, m) == Wrap(x + y, m)
  {
    if x >= m { WrapAdd(x - m, y, m); }
  }

  /** Wrap differs from n by a multiple of m. */
  lemma {:induction false} WrapQuotient(n: nat, m: nat) returns (q: nat)
    requires m > 0
    ensures n == q * m + Wrap(n, m) && (q == 0 <==> n < m)
  {
    if n < m {
      q := 0;
    } else {
      q := WrapQuotient(n - m, m);
      q := q + 1;
    }
  }

  /** It is the remainder. */
  lemma WrapIsMod(n: nat, m: nat)
    requires m > 0
    ensures Wrap(n, m) == n % m
  {
    var q := WrapQuotient(n, m);
    ModSmall(Wrap(n, m), q, m);
  }

  lemma {:induction false} WrapMultiple(q: nat, r: nat, m: nat)
    requires r < m
    ensures q * m + r >= 0 && Wrap(q * m + r, m) == r
  {
    if q > 0 {
      WrapMultiple(q - 1, r, m);
      assert q * m + r == (q - 1) * m + r + m;
    }
  }
}
