/** Counting through quotients and remainders. */
module Division {
  lemma DivisionStep(n: nat, count: nat)
    requires count > 0
    ensures n % count + 1 < count ==> (n + 1) / count == n / count && (n + 1) % count == n % count + 1
    ensures n % count + 1 == count ==> (n + 1) / count == n / count + 1 && (n + 1) % count == 0
  {
    var q, r := n / count, n % count;
    assert n + 1 == q * count + (r + 1);
    if r + 1 < count {
      UniqueQuotient(n + 1, count, q, r + 1);
    } else {
      assert n + 1 == (q + 1) * count;
      UniqueQuotient(n + 1, count, q + 1, 0);
    }
  }

  lemma UniqueQuotient(x: nat, d: nat, q: nat, r: nat)
    requires d > 0 && x == q * d + r && r < d
    ensures x / d == q && x % d == r
  {
    var k := x / d - q;
    assert k * d == r - x % d;
    if k >= 1 {
      AtLeastOne(k, d);
    } else if k <= -1 {
      AtLeastOne(-k, d);
    }
  }

  lemma AtLeastOne(k: int, d: nat)
    requires k >= 1
    ensures k * d >= d && (-k) * d <= -(d as int)
  {
  }
}
