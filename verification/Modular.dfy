/** Facts about quotients and remainders that the codecs share. */
module Modular {

  lemma Assoc(a: int, b: int, c: int)
    ensures a * b * c == a * (b * c)
  {
  }

  lemma Distrib(a: int, b: int, c: int)
    ensures (a + b) * c == a * c + b * c
    ensures a * (b - c) == a * b - a * c
    ensures a * (b + c) == a * b + a * c
  {
  }

  lemma Multiple(m: nat, k: int)
    requires m > 0
    ensures k > 0 ==> m * k >= m
    ensures k < 0 ==> m * k <= -(m as int)
  {
  }

  /** A remainder is determined by any quotient that leaves it. */
  lemma ModIs(a: int, m: nat, q: int, r: nat)
    requires a == m * q + r && r < m
    ensures a % m == r && a / m == q
  {
    var k := a / m - q;
    assert a == m * (a / m) + a % m;
    assert m * k == m * (a / m) - m * q;
    Multiple(m, k);
  }

  lemma Below(b: nat, k: nat, s: nat, low: nat)
    requires b < k && low < s
    ensures b * s + low < k * s
  {
    assert (b + 1) * s <= k * s;
    Distrib(b, 1, s);
  }

  lemma ModMod(x: int, m: nat, c: nat)
    requires m > 0 && c > 0
    ensures m * c > 0 && x % (m * c) % m == x % m
  {
    Multiple(m, c);
    var q, y := x / (m * c), x % (m * c);
    var j, r := y / m, y % m;
    Assoc(m, c, q);
    Distrib(m, c * q, j);
    ModIs(x, m, c * q + j, r);
  }

  /** A field of digits is the same taken out before or after the digits above it are dropped. */
  lemma Field(w: nat, k: nat, n: nat)
    requires k > 0 && n > 0
    ensures k * n > 0 && w / k % n == w % (k * n) / k
  {
    Multiple(k, n);
    var q, r := w / (k * n), w % (k * n);
    var a, b := r / k, r % k;
    Assoc(k, n, q);
    Distrib(k, n * q, a);
    ModIs(w, k, n * q + a, b);
    QuotientBelow(r, k, n);
    ModIs(n * q + a, n, q, a);
  }

  lemma QuotientBelow(r: nat, k: nat, n: nat)
    requires k > 0 && r < k * n
    ensures r / k < n
  {
    var a := r / k;
    assert k * a <= r;
    Distrib(k, a, n);
    Multiple(k, a - n);
  }

  lemma SplitProduct(v: nat, s: nat, k: nat)
    requires k > 0
    ensures v * s == k * s * (v / k) + v % k * s
  {
    var a, b := v / k, v % k;
    assert v == k * a + b;
    Distrib(k * a, b, s);
    Assoc(k, a, s);
    Assoc(k, s, a);
  }

  lemma Gather(m: nat, a: nat, p: nat, r: nat, x: int)
    requires x == m * a + r - m * p && r < m
    ensures x % m == r
  {
    Distrib(m, a, p);
    ModIs(x, m, a - p, r);
  }

  /** A left shift inside a word (`s` is the power of two, `low` what fills the free bits), seen through the low part
      of the result. */
  lemma ShiftIn(word: nat, v: nat, s: nat, k: nat, c: nat, low: nat)
    requires k > 0 && k * s * c == word > 0 && low < s
    ensures k * s > 0 && (v * s % word + low) % (k * s) == v % k * s + low
  {
    SplitProduct(v, s, k);
    Below(v % k, k, s, low);
    Assoc(k * s, c, v * s / word);
    Gather(k * s, v / k, c * (v * s / word), v % k * s + low, v * s % word + low);
  }
}
