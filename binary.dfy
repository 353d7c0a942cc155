/** Bit strings read most significant bit first and the numbers they denote:
    the arithmetic shared by the bit cursor, the Huffman codes and the
    coefficient magnitudes. */
module Binary {
  import opened Common

  /** The value of a bit string read most significant bit first, as
      `v = v * 2 + bit` accumulates it. */
  function FromBits(s: seq<Bit>): (r: nat)
    ensures r < Pow2(|s|)
  {
    if s == [] then 0 else 2 * FromBits(s[..|s| - 1]) + s[|s| - 1]
  }

  /** The `k` low bits of `x`, most significant first. */
  function LowBits(x: nat, k: nat): (r: seq<Bit>)
    ensures |r| == k
  {
    seq(k, j requires 0 <= j < k => (x / Pow2(k - 1 - j)) % 2)
  }

  lemma DivModUnique(x: int, d: int, q: int, m: int)
    requires d > 0 && 0 <= m < d && x == q * d + m
    ensures x / d == q && x % d == m
  {
    var q', m' := x / d, x % d;
    assert (q - q') * d == m' - m;
    if q > q' {
      MulAtLeast(q - q', d);
    } else if q < q' {
      MulAtLeast(q' - q, d);
    }
  }

  lemma MulAtLeast(a: int, d: int)
    requires a >= 1 && d > 0
    ensures a * d >= d
  {
  }

  lemma DivDiv2(x: nat, k: nat)
    ensures x / Pow2(k + 1) == (x / 2) / Pow2(k)
  {
    var q := (x / 2) / Pow2(k);
    var m := (x / 2) % Pow2(k);
    assert x / 2 == q * Pow2(k) + m;
    assert x == q * Pow2(k + 1) + (2 * m + x % 2);
    DivModUnique(x, Pow2(k + 1), q, 2 * m + x % 2);
  }

  lemma HalveSplit(x: nat, p: nat, q: nat, m: nat)
    requires p > 0 && x / 2 == q * p + m && m < p
    ensures x == q * (2 * p) + (2 * m + x % 2) && 2 * m + x % 2 < 2 * p
  {
    assert x == 2 * (x / 2) + x % 2;
    assert 2 * (q * p) == q * (2 * p);
  }

  /** The low bits of `x` are the low bits of `x / 2` followed by `x`'s last bit. */
  lemma LowBitsSplit(x: nat, k: nat)
    requires k > 0
    ensures LowBits(x, k)[..k - 1] == LowBits(x / 2, k - 1)
    ensures LowBits(x, k)[k - 1] == x % 2
  {
    var s := LowBits(x, k);
    forall j | 0 <= j < k - 1 ensures s[j] == LowBits(x / 2, k - 1)[j] {
      DivDiv2(x, k - 2 - j);
    }
    assert Pow2(k - 1 - (k - 1)) == 1;
  }

  lemma ModStep(x: nat, k: nat)
    requires k > 0
    ensures x % Pow2(k) == 2 * ((x / 2) % Pow2(k - 1)) + x % 2
  {
    var p := Pow2(k - 1);
    var q, m := (x / 2) / p, (x / 2) % p;
    HalveSplit(x, p, q, m);
    DivModUnique(x, 2 * p, q, 2 * m + x % 2);
  }

  /** Reassembling the `k` low bits of `x` most significant first gives `x mod 2^k`. */
  lemma {:induction false} FromLowBits(x: nat, k: nat)
    ensures FromBits(LowBits(x, k)) == x % Pow2(k)
  {
    if k > 0 {
      LowBitsSplit(x, k);
      FromLowBits(x / 2, k - 1);
      ModStep(x, k);
    }
  }

  lemma {:induction false} Pow2Add(a: nat, b: nat)
    ensures Pow2(a + b) == Pow2(a) * Pow2(b)
    decreases a
  {
    if a > 0 {
      Pow2Add(a - 1, b);
    }
  }

  /** `x / d == c` exactly when `x` lies in `[c * d, (c + 1) * d)`. */
  lemma DivRange(x: nat, d: nat, c: nat)
    requires d > 0
    ensures x / d == c <==> c * d <= x < (c + 1) * d
  {
    if c * d <= x < (c + 1) * d {
      DivModUnique(x, d, c, x - c * d);
    }
    var q := x / d;
    assert q * d <= x < (q + 1) * d;
  }

  /** The number a prefix denotes: the whole string's value without its
      trailing bits. */
  lemma {:induction false} FromBitsPrefix(q: seq<Bit>, j: nat)
    requires j <= |q|
    ensures FromBits(q[..j]) == FromBits(q) / Pow2(|q| - j)
    decreases |q| - j
  {
    if j < |q| {
      var q' := q[..|q| - 1];
      assert q'[..j] == q[..j];
      FromBitsPrefix(q', j);
      DivModUnique(FromBits(q), 2, FromBits(q'), q[|q| - 1]);
      DivDiv2(FromBits(q), |q| - j - 1);
    } else {
      assert q[..j] == q;
      assert Pow2(0) == 1;
    }
  }

  /** A bit string is the low bits of the number it denotes. */
  lemma {:induction false} LowFromBits(p: seq<Bit>)
    ensures LowBits(FromBits(p), |p|) == p
    decreases |p|
  {
    if |p| > 0 {
      var x := FromBits(p);
      var p' := p[..|p| - 1];
      LowBitsSplit(x, |p|);
      DivModUnique(x, 2, FromBits(p'), p[|p| - 1]);
      LowFromBits(p');
      assert LowBits(x, |p|) == LowBits(x, |p|)[..|p| - 1] + [LowBits(x, |p|)[|p| - 1]];
    }
  }

  /** For numbers that fit in `k` bits, `LowBits` and `FromBits` are inverse. */
  lemma FromBitsLowFits(x: nat, k: nat)
    requires x < Pow2(k)
    ensures FromBits(LowBits(x, k)) == x
  {
    FromLowBits(x, k);
    DivModUnique(x, Pow2(k), 0, x);
  }
}
