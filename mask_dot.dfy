/** `Mask::dot` of src/mask.rs: the cosine similarity of two masks over
    their red and green channels, accumulated in exact integers before the
    final floating-point division. */
module MaskDot {

  /** One 8-bit channel value. */
  type Channel = c: nat | c < 256

  /** An RGBA pixel of a mask image. */
  datatype Pixel = Pixel(c0: Channel, c1: Channel, c2: Channel, c3: Channel)

  /** The largest value one pixel pair adds to an accumulator: `2 * 255^2`. */
  const PAIR_MAX: nat := 2 * 255 * 255

  /** `zip` pairs pixels in raster order up to the shorter image. */
  function Paired(a: seq<Pixel>, b: seq<Pixel>): (n: nat)
    ensures n <= |a| && n <= |b| && (n == |a| || n == |b|)
  {
    if |a| <= |b| then |a| else |b|
  }

  /** What one pixel pair adds: the dot product of the (red, green) parts. */
  function PairDot(p: Pixel, q: Pixel): nat
  {
    ProductNat(p.c0, q.c0);
    ProductNat(p.c1, q.c1);
    p.c0 * q.c0 + p.c1 * q.c1
  }

  lemma ProductNat(x: nat, y: nat)
    ensures x * y >= 0
  {
  }

  /** The accumulated dot product of the first `n` pixel pairs. With `b = a`
      it is the squared norm of `a`. */
  function Cross(a: seq<Pixel>, b: seq<Pixel>, n: nat): nat
    requires n <= |a| && n <= |b|
  {
    if n == 0 then 0 else Cross(a, b, n - 1) + PairDot(a[n - 1], b[n - 1])
  }

  /** `dot`'s loop: `sum_exact`, `norm1_exact` and `norm2_exact` after every
      pixel pair. */
  method Dot(a: seq<Pixel>, b: seq<Pixel>) returns (sum: nat, norm1: nat, norm2: nat)
    ensures sum == Cross(a, b, Paired(a, b))
    ensures norm1 == Cross(a, a, Paired(a, b)) && norm2 == Cross(b, b, Paired(a, b))
  {
    sum, norm1, norm2 := 0, 0, 0;
    var n := Paired(a, b);
    for i := 0 to n
      invariant sum == Cross(a, b, i) && norm1 == Cross(a, a, i) && norm2 == Cross(b, b, i)
    {
      sum := sum + PairDot(a[i], b[i]);
      norm1 := norm1 + PairDot(a[i], a[i]);
      norm2 := norm2 + PairDot(b[i], b[i]);
    }
  }

  /** The sum accumulator does not depend on the order of the masks. */
  lemma {:induction false} CrossSymmetric(a: seq<Pixel>, b: seq<Pixel>, n: nat)
    requires n <= |a| && n <= |b|
    ensures Cross(a, b, n) == Cross(b, a, n)
  {
    if n > 0 {
      CrossSymmetric(a, b, n - 1);
    }
  }

  /** Swapping the masks keeps `sum_exact` and swaps the two norms. */
  lemma DotSwap(a: seq<Pixel>, b: seq<Pixel>)
    ensures Paired(b, a) == Paired(a, b)
    ensures Cross(b, a, Paired(b, a)) == Cross(a, b, Paired(a, b))
    ensures Cross(b, b, Paired(b, a)) == Cross(b, b, Paired(a, b))
  {
    CrossSymmetric(a, b, Paired(a, b));
  }

  /** Pixels that agree on red and green give the same accumulators:
      blue and alpha are never read. */
  lemma {:induction false} CrossIgnoresBlueAlpha(a: seq<Pixel>, a': seq<Pixel>, b: seq<Pixel>, b': seq<Pixel>, n: nat)
    requires n <= |a| && n <= |a'| && n <= |b| && n <= |b'|
    requires forall i :: 0 <= i < n ==> a[i].c0 == a'[i].c0 && a[i].c1 == a'[i].c1
    requires forall i :: 0 <= i < n ==> b[i].c0 == b'[i].c0 && b[i].c1 == b'[i].c1
    ensures Cross(a, b, n) == Cross(a', b', n)
  {
    if n > 0 {
      CrossIgnoresBlueAlpha(a, a', b, b', n - 1);
    }
  }

  /** Pixels past the shorter image are never read. */
  lemma {:induction false} CrossPrefix(a: seq<Pixel>, b: seq<Pixel>, a': seq<Pixel>, b': seq<Pixel>, n: nat)
    requires n <= |a| && n <= |b|
    ensures Cross(a, b, n) == Cross(a[..n] + a', b[..n] + b', n)
    decreases n
  {
    if n > 0 {
      CrossPrefix(a, b, a[n - 1..n] + a', b[n - 1..n] + b', n - 1);
      assert a[..n - 1] + (a[n - 1..n] + a') == a[..n] + a';
      assert b[..n - 1] + (b[n - 1..n] + b') == b[..n] + b';
    }
  }

  lemma PairDotBound(p: Pixel, q: Pixel)
    ensures PairDot(p, q) <= PAIR_MAX
  {
    assert p.c0 * q.c0 <= 255 * 255 by {
      MulLe(p.c0, 255, q.c0, 255);
    }
    assert p.c1 * q.c1 <= 255 * 255 by {
      MulLe(p.c1, 255, q.c1, 255);
    }
  }

  lemma MulLe(a: nat, b: nat, c: nat, d: nat)
    requires a <= b && c <= d
    ensures a * c <= b * d
  {
    assert a * c <= b * c;
    assert b * c <= b * d;
  }

  /** Each accumulator is at most `2 * 255^2` per paired pixel. */
  lemma {:induction false} CrossBound(a: seq<Pixel>, b: seq<Pixel>, n: nat)
    requires n <= |a| && n <= |b|
    ensures Cross(a, b, n) <= PAIR_MAX * n
  {
    if n > 0 {
      CrossBound(a, b, n - 1);
      PairDotBound(a[n - 1], b[n - 1]);
    }
  }

  /** So the `u64` accumulators cannot wrap for images of up to `2^47`
      pixels. */
  lemma NoOverflow(a: seq<Pixel>, b: seq<Pixel>)
    requires Paired(a, b) <= 0x8000_0000_0000
    ensures Cross(a, b, Paired(a, b)) < 0x1_0000_0000_0000_0000
  {
    CrossBound(a, b, Paired(a, b));
    MulLe(PAIR_MAX, PAIR_MAX, Paired(a, b), 0x8000_0000_0000);
  }

  /** `x <= y` follows from `x^2 <= y^2` for naturals. */
  lemma SquareLe(x: nat, y: nat)
    requires x * x <= y * y
    ensures x <= y
  {
    if x > y {
      SquareLt(y, x);
    }
  }

  lemma SquareLt(x: nat, y: nat)
    requires x < y
    ensures x * x < y * y
  {
    assert x * x <= x * y;
    assert x * y < y * y;
  }

  /** Cauchy–Schwarz for one pixel pair. */
  lemma PairSchwarz(p: Pixel, q: Pixel)
    ensures PairDot(p, q) * PairDot(p, q) <= PairDot(p, p) * PairDot(q, q)
  {
    var a0: int, a1: int, b0: int, b1: int := p.c0, p.c1, q.c0, q.c1;
    var x, y, u, v := a0 * b0, a1 * b1, a0 * b1, a1 * b0;
    ExpandProduct(a0 * a0, a1 * a1, b0 * b0, b1 * b1);
    Rearrange(a0, a0, b0, b0);
    Rearrange(a0, a0, b1, b1);
    Rearrange(a1, a1, b0, b0);
    Rearrange(a1, a1, b1, b1);
    Rearrange(a0, b0, a1, b1);
    ExpandSquare(x, y);
    ExpandDiffSquare(u, v);
    assert PairDot(p, p) * PairDot(q, q) - PairDot(p, q) * PairDot(p, q) == (u - v) * (u - v);
    SquareNonNeg(u - v);
  }

  lemma ExpandDiffSquare(u: int, v: int)
    ensures (u - v) * (u - v) == u * u - 2 * (u * v) + v * v
  {
    calc {
      (u - v) * (u - v);
      u * (u - v) - v * (u - v);
      u * u - u * v - v * u + v * v;
    }
  }

  /** `4 * (a * b) * (u * v) <= (a * v + b * u)^2`, since the difference
      is `(a * v - b * u)^2`. */
  lemma AmGm(a: nat, b: nat, u: nat, v: nat)
    ensures 4 * ((a * b) * (u * v)) <= (a * v + b * u) * (a * v + b * u)
  {
    var p: int, q: int := a * v, b * u;
    Rearrange(a, b, u, v);
    SquareDiff(p, q);
    SquareNonNeg(p - q);
  }

  lemma SquareDiff(p: int, q: int)
    ensures (p + q) * (p + q) - 4 * (p * q) == (p - q) * (p - q)
  {
    calc {
      (p + q) * (p + q);
      p * (p + q) + q * (p + q);
      p * p + p * q + q * p + q * q;
    }
    calc {
      (p - q) * (p - q);
      p * (p - q) - q * (p - q);
      p * p - p * q - q * p + q * q;
    }
  }

  lemma SquareNonNeg(x: int)
    ensures x * x >= 0
  {
    if x < 0 {
      assert x * x == (-x) * (-x);
    }
  }

  lemma Rearrange(a: int, b: int, u: int, v: int)
    ensures (a * b) * (u * v) == (a * v) * (b * u)
  {
    calc {
      (a * b) * (u * v);
      a * (b * (u * v));
      a * ((b * u) * v);
      a * (v * (b * u));
      (a * v) * (b * u);
    }
  }

  /** The step of the Cauchy–Schwarz induction: from `s^2 <= A * B` and
      `w^2 <= U * V`, `(s + w)^2 <= (A + U) * (B + V)`. */
  lemma SchwarzStep(s: nat, a: nat, b: nat, w: nat, u: nat, v: nat)
    requires s * s <= a * b && w * w <= u * v
    ensures (s + w) * (s + w) <= (a + u) * (b + v)
  {
    var m := a * v + b * u;
    var t := s * w;
    AmGm(a, b, u, v);
    MulLe(s * s, a * b, w * w, u * v);
    SquareOfProduct(s, w);
    SquareOfDouble(t);
    SquareLe(2 * t, m);
    ExpandSquare(s, w);
    ExpandProduct(a, u, b, v);
  }

  lemma SquareOfProduct(s: int, w: int)
    ensures (s * w) * (s * w) == (s * s) * (w * w)
  {
    Rearrange(s, s, w, w);
  }

  lemma SquareOfDouble(t: int)
    ensures (2 * t) * (2 * t) == 4 * (t * t)
  {
  }

  lemma ExpandSquare(s: int, w: int)
    ensures (s + w) * (s + w) == s * s + 2 * (s * w) + w * w
  {
    calc {
      (s + w) * (s + w);
      s * (s + w) + w * (s + w);
      s * s + s * w + w * s + w * w;
    }
  }

  lemma ExpandProduct(a: int, u: int, b: int, v: int)
    ensures (a + u) * (b + v) == a * b + (a * v + b * u) + u * v
  {
    calc {
      (a + u) * (b + v);
      a * (b + v) + u * (b + v);
      a * b + a * v + u * b + u * v;
    }
  }

  /** Cauchy–Schwarz: `sum_exact^2 <= norm1_exact * norm2_exact`, so the
      similarity is at most 1 whenever both norms are non-zero. */
  lemma {:induction false} CauchySchwarz(a: seq<Pixel>, b: seq<Pixel>, n: nat)
    requires n <= |a| && n <= |b|
    ensures Cross(a, b, n) * Cross(a, b, n) <= Cross(a, a, n) * Cross(b, b, n)
  {
    if n > 0 {
      CauchySchwarz(a, b, n - 1);
      PairSchwarz(a[n - 1], b[n - 1]);
      SchwarzStep(Cross(a, b, n - 1), Cross(a, a, n - 1), Cross(b, b, n - 1),
        PairDot(a[n - 1], b[n - 1]), PairDot(a[n - 1], a[n - 1]), PairDot(b[n - 1], b[n - 1]));
    }
  }

  /** `!(dot < 0.8)`, the test that keeps a previous frame for pruning,
      decided exactly on the accumulators. A zero norm makes the quotient
      NaN (or infinite), which is never below 0.8; otherwise
      `sum / sqrt(norm1 * norm2) >= 0.8` is `25 * sum^2 >= 16 * norm1 * norm2`. */
  predicate Similar(sum: nat, norm1: nat, norm2: nat)
  {
    norm1 * norm2 == 0 || 25 * (sum * sum) >= 16 * (norm1 * norm2)
  }

  /** Squaring keeps the order of non-negative reals. */
  lemma SquareMonoReal(s: real, t: real)
    requires 0.0 <= s && 0.0 <= t
    ensures s >= t ==> s * s >= t * t
    ensures s < t ==> s * s < t * t
  {
    var d := s - t;
    assert s * s == t * t + d * (s + t);
    if s >= t {
      assert d * (s + t) >= 0.0;
    } else {
      assert d * (s + t) < 0.0;
    }
  }

  /** For a non-negative numerator and a positive denominator, the quotient
      test `s / q >= 0.8` is `25 * s^2 >= 16 * q^2`. */
  lemma RatioTest(s: real, q: real)
    requires 0.0 <= s && 0.0 < q
    ensures s / q >= 0.8 <==> 25.0 * (s * s) >= 16.0 * (q * q)
  {
    var t := 0.8 * q;
    assert s / q >= 0.8 <==> s >= t;
    SquareMonoReal(s, t);
    assert t * t == 0.64 * (q * q);
  }

  /** What `Similar` decides: with `q1` and `q2` the square roots of the two
      norms, as `dot` takes them, a positive product makes `Similar` exactly
      `sum / (q1 * q2) >= 0.8` in real arithmetic, and a zero product (the
      0/0 or x/0 of `dot`) counts as similar. */
  lemma SimilarIsRatio(sum: nat, norm1: nat, norm2: nat, q1: real, q2: real)
    requires 0.0 <= q1 && q1 * q1 == norm1 as real
    requires 0.0 <= q2 && q2 * q2 == norm2 as real
    ensures q1 * q2 > 0.0 ==> (Similar(sum, norm1, norm2) <==> sum as real / (q1 * q2) >= 0.8)
    ensures q1 * q2 == 0.0 ==> Similar(sum, norm1, norm2)
  {
    var q := q1 * q2;
    var s := sum as real;
    assert q * q == (norm1 * norm2) as real by {
      assert q * q == (q1 * q1) * (q2 * q2);
    }
    assert (25 * (sum * sum)) as real == 25.0 * (s * s);
    assert (16 * (norm1 * norm2)) as real == 16.0 * (q * q);
    if q > 0.0 {
      RatioTest(s, q);
      assert q * q > 0.0 by {
        assert q * q > 0.0 * q;
      }
    } else {
      assert norm1 * norm2 == 0;
    }
  }

  /** A mask is always similar to itself. */
  lemma SimilarSelf(a: seq<Pixel>)
    ensures Similar(Cross(a, a, |a|), Cross(a, a, |a|), Cross(a, a, |a|))
  {
    var s := Cross(a, a, |a|);
    assert 25 * (s * s) >= 16 * (s * s);
  }

  /** A mask whose red and green channels are all zero has a zero norm: the
      0/0 division is not guarded, and the NaN counts as similar. */
  lemma {:induction false} ZeroMaskNorm(a: seq<Pixel>, b: seq<Pixel>, n: nat)
    requires n <= |a| && n <= |b|
    requires forall i :: 0 <= i < n ==> a[i].c0 == 0 && a[i].c1 == 0
    ensures Cross(a, a, n) == 0 && Cross(a, b, n) == 0
    ensures Similar(Cross(a, b, n), Cross(a, a, n), Cross(b, b, n))
  {
    if n > 0 {
      ZeroMaskNorm(a, b, n - 1);
    }
  }
}
