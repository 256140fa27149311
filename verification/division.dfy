/** Quotients and remainders. */
module Division {

  lemma ModIs(v: nat, m: nat, q: nat, r: nat)
    requires m > 0 && v == q * m + r && r < m
    ensures v % m == r && v / m == q
  {
    var d := v / m - q;
    assert d * m == r - v % m by { assert v == (v / m) * m + v % m; }
    Multiple(d, m);
  }

  lemma Multiple(d: int, m: nat)
    ensures (d >= 1 ==> d * m >= m) && (d <= -1 ==> d * m + m <= 0)
  {
  }
}
