/** Division facts the solver needs help with. */
module Arithmetic {

  lemma Signs(d: int, m: nat)
    ensures d >= 1 ==> d * m >= m
    ensures d <= 0 ==> d * m <= 0
    ensures d <= -1 ==> d * m + m <= 0
  {
    if d >= 1 {
      Product(d - 1, m);
      assert d * m == (d - 1) * m + m;
    } else if d <= -1 {
      Product(-d - 1, m);
      assert d * m == -((-d - 1) * m) - m;
    }
  }

  lemma Product(a: nat, b: nat)
    ensures a * b >= 0
  {
  }

  lemma DivisionUnique(q: int, r: nat, q': int, r': nat, m: nat)
    requires r < m && r' < m && q * m + r == q' * m + r'
    ensures r == r' && q == q'
  {
    var d := q - q';
    assert d * m == q * m - q' * m;
    Signs(d, m);
  }

  lemma ModUnique(a: nat, m: nat, q: nat, r: nat)
    requires 0 < m && r < m && a == q * m + r
    ensures a % m == r && a / m == q
  {
    DivisionUnique(q, r, a / m, a % m, m);
  }

  lemma ModShift(a: nat, m: nat)
    requires 0 < m
    ensures (a + m) % m == a % m
  {
    var q, r := a / m, a % m;
    assert a + m == (q + 1) * m + r;
    ModUnique(a + m, m, q + 1, r);
  }

  /** Halving a remainder. */
  lemma ModHalves(x: nat, m: nat)
    requires m > 0
    ensures x % (2 * m) == 2 * ((x / 2) % m) + x % 2
  {
    var q, r := (x / 2) / m, (x / 2) % m;
    assert x == 2 * (q * m + r) + x % 2;
    assert 2 * (q * m) == q * (2 * m);
    ModUnique(x, 2 * m, q, 2 * r + x % 2);
  }

  /** Numbers less than m apart have different remainders. */
  lemma RemaindersDiffer(a: nat, b: nat, m: nat)
    requires a < b < a + m
    ensures a % m != b % m
  {
    var d := b / m - a / m;
    assert a == (a / m) * m + a % m && b == (b / m) * m + b % m;
    assert d * m == (b / m) * m - (a / m) * m;
    Signs(d, m);
  }
}
