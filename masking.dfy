// Ring-buffer addressing: a logical position `pos + i` of the stream is
// stored at physical index `(pos + i) & mask`, where `mask` is one less
// than a power of two.

module Masking {

  /** Bitwise AND of two naturals, bit by bit from the least significant end. */
  function BitAnd(x: nat, y: nat): (r: nat)
    decreases x
    ensures r <= x && r <= y
  {
    if x == 0 || y == 0 then 0
    else 2 * BitAnd(x / 2, y / 2) + (if x % 2 == 1 && y % 2 == 1 then 1 else 0)
  }

  /** `m` is of the form 2^k - 1: all of its set bits are the low bits. */
  predicate IsLowMask(m: nat)
    decreases m
  {
    m == 0 || (m % 2 == 1 && IsLowMask(m / 2))
  }

  /** The physical index of logical position `i` of a stream starting at `pos`. */
  function Slot(pos: nat, i: nat, mask: nat): (r: nat)
    ensures r <= mask
  {
    BitAnd(pos + i, mask)
  }

  lemma {:induction false} MulAtLeast(d: int, k: int)
    requires d > 0 && k >= 1
    ensures d * k >= d
    decreases k
  {
    if k > 1 {
      MulAtLeast(d, k - 1);
      assert d * k == d * (k - 1) + d;
    }
  }

  lemma ModUnique(x: int, d: int, q: int, r: int)
    requires d > 0 && x == d * q + r && 0 <= r < d
    ensures x % d == r && x / d == q
  {
    var q', r' := x / d, x % d;
    assert d * q' + r' == d * q + r;
    if q' > q {
      assert d * (q' - q) == d * q' - d * q;
      MulAtLeast(d, q' - q);
    } else if q' < q {
      assert d * (q - q') == d * q - d * q';
      MulAtLeast(d, q - q');
    }
  }

  lemma ModDouble(x: nat, n: nat)
    requires n >= 1
    ensures x % (2 * n) == 2 * ((x / 2) % n) + x % 2
  {
    var q, r := x / 2, x % 2;
    var t, u := q / n, q % n;
    assert q == n * t + u;
    assert x == (2 * n) * t + (2 * u + r) by {
      assert x == 2 * q + r;
      assert 2 * q == 2 * (n * t) + 2 * u;
      assert 2 * (n * t) == (2 * n) * t;
    }
    ModUnique(x, 2 * n, t, 2 * u + r);
  }

  /** With a low mask, `&` is the remainder modulo the buffer size. */
  lemma {:induction false} LowMaskIsMod(x: nat, m: nat)
    requires IsLowMask(m)
    ensures BitAnd(x, m) == x % (m + 1)
    decreases m
  {
    if m == 0 {
    } else if x == 0 {
    } else {
      var m' := m / 2;
      assert m + 1 == 2 * (m' + 1);
      LowMaskIsMod(x / 2, m');
      ModDouble(x, m' + 1);
    }
  }

  lemma ModDistinct(a: int, b: int, d: int)
    requires d > 0 && a < b < a + d
    ensures a % d != b % d
  {
    if a % d == b % d {
      var k := b / d - a / d;
      assert b - a == d * k by {
        assert a == d * (a / d) + a % d;
        assert b == d * (b / d) + b % d;
        assert d * k == d * (b / d) - d * (a / d);
      }
      if k >= 1 {
        MulAtLeast(d, k);
      }
    }
  }

  /** Two naturals less than `mask + 1` apart keep distinct low bits. */
  lemma LowMaskDistinct(a: nat, b: nat, mask: nat)
    requires IsLowMask(mask) && a < b < a + mask + 1
    ensures BitAnd(a, mask) != BitAnd(b, mask)
  {
    LowMaskIsMod(a, mask);
    LowMaskIsMod(b, mask);
    ModDistinct(a, b, mask + 1);
  }

  /** A stream no longer than the buffer occupies pairwise distinct slots. */
  lemma SlotsDistinct(pos: nat, mask: nat, len: nat, i: nat, j: nat)
    requires IsLowMask(mask) && len <= mask + 1
    requires i < j < len
    ensures Slot(pos, i, mask) != Slot(pos, j, mask)
  {
    LowMaskDistinct(pos + i, pos + j, mask);
  }
}
