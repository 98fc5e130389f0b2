/** Powers of two and of ten, and division by them. */
module Powers {

  function Tens(k: nat): (r: nat)
    ensures r > 0
  {
    if k == 0 then 1 else 10 * Tens(k - 1)
  }

  function Twos(k: nat): nat {
    if k == 0 then 1 else 2 * Twos(k - 1)
  }

  lemma {:induction false} TensGrow(i: nat, k: nat)
    requires i <= k
    ensures Tens(i) <= Tens(k)
  {
    if i < k {
      TensGrow(i, k - 1);
    }
  }

  lemma {:induction false} TwosGrow(i: nat, k: nat)
    requires i <= k
    ensures Twos(i) <= Twos(k)
  {
    if i < k {
      TwosGrow(i, k - 1);
    }
  }

  lemma Division(n: nat, d: nat)
    requires d > 0
    ensures n / d >= 0 && d * (n / d) <= n < d * (n / d) + d
  {
    assert n == d * (n / d) + n % d;
  }

  lemma Scale(a: nat, x: int, y: int)
    requires x <= y
    ensures a * x <= a * y
  {
    assert a * (y - x) >= 0;
  }

  lemma QuotientIs(n: nat, d: nat, q: nat)
    requires d > 0 && d * q <= n < d * q + d
    ensures n / d == q
  {
    Division(n, d);
    var r := n / d;
    assert q + 1 <= r ==> d * (q + 1) <= d * r by { if q + 1 <= r { Scale(d, q + 1, r); } }
    assert r + 1 <= q ==> d * (r + 1) <= d * q by { if r + 1 <= q { Scale(d, r + 1, q); } }
    assert d * (q + 1) == d * q + d && d * (r + 1) == d * r + d;
  }

  lemma DivideTwice(n: nat, a: nat, b: nat)
    requires a > 0 && b > 0
    ensures a * b > 0 && n / a / b == n / (a * b)
  {
    Division(n, a);
    var m := n / a;
    Division(m, b);
    var q := m / b;
    Scale(a, b * q, m);
    Scale(a, m, b * q + b - 1);
    assert a * (b * q) == (a * b) * q;
    assert a * (b * q + b - 1) == (a * b) * q + a * b - a;
    Scale(a, 1, b);
    QuotientIs(n, a * b, q);
  }
}
