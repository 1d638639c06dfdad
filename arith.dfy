/** Integer facts the grid arithmetic needs: residues, quotients and products. */
module Arith {

  lemma MulAtLeast(k: int, n: int)
    requires k >= 1 && n > 0
    ensures k * n >= n
  {
    assert k * n - n == (k - 1) * n;
  }

  /** Adding a multiple of `n` to a value in [0, n) does not change its residue. */
  lemma ModOfMultipleOffset(r: int, q: int, n: int)
    requires 0 <= r < n
    ensures (r + q * n) % n == r
  {
    var t := r + q * n;
    var q', r' := t / n, t % n;
    assert t == q' * n + r' && 0 <= r' < n;
    var k := q - q';
    assert k * n == r' - r by { assert (q - q') * n == q * n - q' * n; }
    if k > 0 {
      MulAtLeast(k, n);
    } else if k < 0 {
      MulAtLeast(-k, n);
    }
  }

  /** A value in [0, 2n) has residue itself or itself less `n`. */
  lemma ModBelowTwice(s: int, n: int)
    requires 0 <= s < 2 * n
    ensures s < n ==> s % n == s
    ensures s >= n ==> s % n == s - n
  {
    if s >= n {
      ModOfMultipleOffset(s - n, 1, n);
    }
  }

  /** Row-major decomposition is unique: `x + y * w` has remainder `x` and quotient `y`. */
  lemma DivModOfRowMajor(x: int, y: int, w: int)
    requires 0 <= x < w && 0 <= y
    ensures (x + y * w) % w == x
    ensures (x + y * w) / w == y
  {
    ModOfMultipleOffset(x, y, w);
    var id := x + y * w;
    var k := id / w - y;
    assert id == (id / w) * w + id % w;
    assert k * w == 0 by { assert (id / w - y) * w == (id / w) * w - y * w; }
    if k > 0 {
      MulAtLeast(k, w);
    } else if k < 0 {
      MulAtLeast(-k, w);
    }
  }

  /** A row-major index of an in-bounds cell lies in [0, w * h). */
  lemma RowMajorInRange(x: int, y: int, w: int, h: int)
    requires 0 <= x < w && 0 <= y < h
    ensures 0 <= x + y * w < w * h
  {
    MulAtLeast(h - y, w);
    assert (h - y) * w == h * w - y * w;
    assert w * h == h * w;
  }

  /** A quotient below `h` follows from an index below `w * h`. */
  lemma QuotientBelow(id: int, w: int, h: int)
    requires 0 <= id < w * h && w > 0
    ensures id / w < h
  {
  }
}
