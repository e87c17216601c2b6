/** Facts about products and divisions that several modules use. */
module Arithmetic {

  function Min(a: int, b: int): int {
    if a < b then a else b
  }

  function Max(a: int, b: int): int {
    if a < b then b else a
  }

  lemma DivModOf(q: nat, r: nat, width: nat)
    requires r < width
    ensures (q * width + r) / width == q && (q * width + r) % width == r
  {
    var n := q * width + r;
    assert n == n / width * width + n % width;
    var d := n / width - q;
    assert d * width == r - n % width by {
      assert d * width == n / width * width - q * width;
    }
    MulGrows(d, width);
  }

  lemma MulGrows(d: int, width: nat)
    ensures d >= 1 ==> d * width >= width
    ensures d <= -1 ==> d * width <= 0 - width
  {
  }

  lemma Between(x: nat, z: nat, u: nat)
    requires x <= z
    ensures x * u <= z * u
  {
  }

  /** The greatest multiple of a that is not above n. */
  function Down(n: nat, a: nat): (r: nat)
    requires a > 0
    ensures r % a == 0 && r <= n < r + a
    ensures n < a ==> r == 0
  {
    QuotientTimes(n, a);
    n / a * a
  }

  lemma QuotientTimes(n: nat, a: nat)
    requires a > 0
    ensures 0 <= n / a * a <= n < n / a * a + a && n / a * a % a == 0
    ensures n < a ==> n / a == 0
  {
    DivisionIs(n, a);
    DivModOf(n / a, 0, a);
  }

  lemma DownIs(d: nat, r: nat, b: nat)
    requires r < b
    ensures Down(d * b + r, b) == d * b
  {
    DivModOf(d, r, b);
  }

  /** Within a multiple of a, all numbers have the same multiple of c * a below them. */
  lemma SameDown(x: nat, x': nat, a: nat, c: nat)
    requires a > 0 && c > 0 && x % a == 0 && x <= x' < x + a
    ensures c * a > 0 && Down(x, c * a) == Down(x', c * a) && Down(Down(x, c * a), c * a) == Down(x, c * a)
    ensures c == 1 ==> Down(x, c * a) == x
  {
    hide Down;
    var d, e := TwoQuotients(x, a, c);
    var b := c * a;
    DownIs(d, e * a, b);
    DownIs(d, e * a + (x' - x), b);
    DownIs(d, 0, b);
  }

  lemma TwoQuotients(x: nat, a: nat, c: nat) returns (d: nat, e: nat)
    requires a > 0 && c > 0 && x % a == 0
    ensures x == d * (c * a) + e * a && 0 <= e * a && e * a + a <= c * a
    ensures c == 1 ==> e == 0
  {
    var k := x / a;
    d, e := k / c, k % c;
    DivisionIs(x, a);
    DivisionIs(k, c);
    TimesSum(d, c, e, a);
    RestFits(e, c, a);
  }

  lemma DivisionIs(n: nat, a: nat)
    requires a > 0
    ensures n == n / a * a + n % a && n % a < a && n / a >= 0
  {
  }

  lemma RestFits(e: nat, c: nat, a: nat)
    requires e < c
    ensures 0 <= e * a && e * a + a <= c * a
  {
    Between(e + 1, c, a);
    assert (e + 1) * a == e * a + a;
  }

  lemma TimesSum(d: nat, c: nat, e: nat, a: nat)
    ensures (d * c + e) * a == d * (c * a) + e * a
  {
    assert (d * c + e) * a == d * c * a + e * a;
    Associative(d, c, a);
  }

  lemma Associative(d: nat, c: nat, a: nat)
    ensures d * c * a == d * (c * a)
  {
  }

  lemma HalfOf(x: nat, h: nat)
    requires h > 0 && x % (2 * h) == 0
    ensures x % h == 0 && (x + h) % h == 0
  {
    var k := x / (2 * h);
    assert x == k * (2 * h) == (2 * k) * h;
    DivModOf(2 * k, 0, h);
    assert x + h == (2 * k + 1) * h;
    DivModOf(2 * k + 1, 0, h);
  }
}
