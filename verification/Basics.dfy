/** Facts on multiplication, division and repeated elements that the solver does not find alone. */
module Basics {
  lemma Modulo16(n: int, r: int, q: int)
    requires 0 <= r < 0x1_0000 && r == n + 0x1_0000 * q
    ensures n % 0x1_0000 == r
  {
  }

  lemma ModUnique(x: int, p: int, m: nat, r: nat)
    requires r < m && x == p * m + r
    ensures x % m == r
  {
    var q := x / m;
    assert x == q * m + x % m;
    if p < q {
      MulLess(p, q, m);
    } else if q < p {
      MulLess(q, p, m);
    }
  }

  /** Among `m` numbers from `m` on, one is congruent to `h`. */
  lemma ModSame(x: int, h: nat, m: nat)
    requires 0 < m
    ensures m <= x < 2 * m && (x - h) % m == 0 <==> x == m + h % m
  {
    var q, r := h / m, h % m;
    assert h == q * m + r;
    if m + r <= x < 2 * m {
      assert (1 - q) * m == m - q * m;
      ModUnique(x - h, 1 - q, m, x - m - r);
    } else if m <= x < m + r {
      assert (0 - q) * m == -(q * m);
      ModUnique(x - h, -q, m, x - r);
    }
  }

  /** A quotient rounded up is the least number of parts. */
  lemma QuotUpTo(n: nat, m: nat, q: nat)
    requires 0 < m
    ensures (n + m - 1) / m <= q <==> n <= q * m
  {
    var x, k := n + m - 1, (n + m - 1) / m;
    assert x == k * m + x % m;
    if q < k {
      MulLess(q, k, m);
    } else if k < q {
      MulLess(k, q, m);
    }
  }

  lemma MulLess(a: int, b: int, c: nat)
    requires a < b
    ensures a * c + c <= b * c
  {
    var e := b - a - 1;
    assert b == a + 1 + e;
    assert b * c == (a + 1) * c + e * c;
    assert (a + 1) * c == a * c + c;
    assert 0 <= e * c;
  }

  lemma DivMono(x: nat, y: nat, B: nat)
    requires 0 < B && x <= y
    ensures x / B <= y / B
  {
    assert x == (x / B) * B + x % B && y == (y / B) * B + y % B;
    if x / B > y / B {
      MulLess(y / B, x / B, B);
    }
  }

  lemma DivExact(q: nat, r: nat, B: nat)
    requires r < B
    ensures (q * B + r) / B == q && (q * B + r) % B == r
  {
    var x := q * B + r;
    assert x == (x / B) * B + x % B;
    if x / B > q {
      MulLess(q, x / B, B);
    } else if x / B < q {
      MulLess(x / B, q, B);
    }
  }

  /** What stands at two places of a sequence occurs twice in it. */
  lemma Twice<T>(s: seq<T>, i: nat, j: nat)
    requires i < j < |s| && s[i] == s[j]
    ensures multiset(s)[s[i]] >= 2
  {
    assert s == s[..i] + [s[i]] + s[i + 1..j] + [s[j]] + s[j + 1..];
  }
}
