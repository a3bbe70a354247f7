/** Small facts about multiplication, division and remainder on naturals that
    the pixel-index arithmetic of the frame-buffer expansion relies on. */
module Arith {

  lemma MulMonotone(a: int, b: int, c: int)
    requires 0 <= c && a <= b
    ensures a * c <= b * c
  {
    assert b * c - a * c == (b - a) * c;
  }

  lemma SquareMonotone(a: int, b: int, px: int)
    requires 0 <= a && 0 <= px
    ensures a <= b ==> a * a * px <= b * b * px
  {
    if a <= b {
      MulMonotone(a, b, a);
      MulMonotone(a, b, b);
      MulMonotone(a * a, b * b, px);
    }
  }

  lemma RootBound(t: int, px: int)
    requires 0 <= t && 1 <= px
    ensures t <= t * t * px
  {
    if t > 0 {
      MulMonotone(1, t, t);
      MulMonotone(1, px, t * t);
    }
  }

  /** Division and remainder are determined by the equation n == q * d + r with 0 <= r < d. */
  lemma DivModUnique(n: int, d: int, q: int, r: int)
    requires 0 < d && 0 <= r < d && n == q * d + r
    ensures n / d == q && n % d == r
  {
    var q', r' := n / d, n % d;
    assert n == q' * d + r';
    if q' < q {
      MulMonotone(q' + 1, q, d);
    } else if q' > q {
      MulMonotone(q + 1, q', d);
    }
  }

  lemma DivBound(n: int, d: int, m: int)
    requires 0 < d && 0 <= n < m * d
    ensures 0 <= n / d < m
  {
    var q := n / d;
    assert n == q * d + n % d;
    if q >= m {
      MulMonotone(m, q, d);
    }
  }

  lemma MulSucc(n: int, w: int)
    ensures (n - 1) * w + w == n * w
  {
  }

  /** Row r of a buffer of len bytes, 8 bytes a row, is complete when r < len / 8. */
  lemma RowFits(r: int, len: int)
    requires 0 <= r && 0 <= len
    ensures r < len / 8 <==> 8 * r + 8 <= len
  {
    DivModUnique(len, 8, len / 8, len % 8);
  }

  /** Element t of block q, blocks of width w, lies before the end of n blocks. */
  lemma BlockBound(q: int, t: int, w: int, n: int)
    requires 0 <= q < n && 0 <= t < w
    ensures 0 <= q * w + t < n * w
  {
    MulMonotone(q + 1, n, w);
  }

  /** Row y of a raster w wide lies in band y / s of s rows, as row y % s of
      that band. */
  lemma BandSplit(x: int, y: int, s: int, w: int)
    requires 0 < s && 0 <= y
    ensures 0 <= y % s < s
    ensures y * w + x == (y / s) * (s * w) + ((y % s) * w + x)
  {
    var r, a := y / s, y % s;
    assert y == r * s + a;
    assert y * w == (r * s + a) * w == r * (s * w) + a * w;
  }

  /** Column x of a row magnified s times lies in byte (x / s) / 8, in the run of
      bit position (x / s) % 8 of that byte, at pixel x % s of the run. */
  lemma ByteSplit(x: int, s: int)
    requires 0 < s && 0 <= x
    ensures 0 <= x % s < s && 0 <= (x / s) % 8 < 8
    ensures x == ((x / s) / 8) * (8 * s) + (((x / s) % 8) * s + x % s)
    ensures ((x / s) % 8) * s + x % s < 8 * s
  {
    var c, p, t := x / s, (x / s) % 8, x % s;
    assert x == c * s + t;
    assert c == (c / 8) * 8 + p;
    assert c * s == (c / 8) * (8 * s) + p * s by {
      assert c * s == ((c / 8) * 8 + p) * s;
    }
    BlockBound(p, t, s, 8);
  }

  /** An index below n bands of s rows of 64 * s pixels names band r, row a of
      the band, byte q of the row, bit position p of the byte and pixel t of
      that bit's run. */
  lemma Decompose(i: int, s: int, n: int) returns (r: int, a: int, q: int, p: int, t: int)
    requires 0 <= s && 0 <= i < n * (s * (64 * s))
    ensures 0 <= r < n && 0 <= a < s && 0 <= q < 8 && 0 <= p < 8 && 0 <= t < s
    ensures i == r * (s * (64 * s)) + (a * (64 * s) + (q * (8 * s) + (p * s + t)))
  {
    assert 0 < s;
    MulMonotone(1, s, 64 * s);
    var band := s * (64 * s);
    r := i / band;
    var j := i % band;
    assert i == r * band + j;
    DivBound(i, band, n);
    a := j / (64 * s);
    var x := j % (64 * s);
    assert j == a * (64 * s) + x;
    DivBound(j, 64 * s, s);
    DivBound(x, s, 64);
    ByteSplit(x, s);
    q, p, t := (x / s) / 8, (x / s) % 8, x % s;
  }
}
