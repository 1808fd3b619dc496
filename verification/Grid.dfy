/** Cells of a grid, numbered row by row. */
module Grid {

  lemma Inside(a: nat, b: nat, m: nat, n: nat)
    requires a < n && b < m
    ensures a * m + b < m * n
  {
    var d := n - a - 1;
    assert m * n == a * m + m + d * m;
  }

  /** The row and the column of a number. */
  lemma Cell(a: nat, b: nat, m: nat)
    requires b < m
    ensures (a * m + b) / m == a && (a * m + b) % m == b
  {
    var i := a * m + b;
    assert i == (i / m) * m + i % m;
    Places(a, b, i / m, i % m, m);
  }

  /** Cells of later rows have greater numbers, and different cells different ones. */
  lemma Places(a: nat, b: nat, c: nat, d: nat, m: nat)
    requires b < m && d < m
    ensures a < c ==> a * m + b < c * m + d
    ensures a * m + b == c * m + d ==> a == c && b == d
  {
    if a < c {
      assert a * m + m == (a + 1) * m <= c * m;
    }
    if c < a {
      assert c * m + m == (c + 1) * m <= a * m;
    }
  }
}
