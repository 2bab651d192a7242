/** Notions shared by the models. */
module Basics {
  datatype Option<T> = None | Some(value: T) {
    function GetOr(default: T): T {
      if Some? then value else default
    }
  }

  function Pow2(n: nat): (r: nat)
    ensures r >= 1
  {
    if n == 0 then 1 else 2 * Pow2(n - 1)
  }

  ghost predicate NoRepeats<T>(s: seq<T>) {
    forall i, j :: 0 <= i < j < |s| ==> s[i] != s[j]
  }

  // ----- multiplication and division

  lemma Times(a: nat, x: nat, y: nat)
    requires x <= y
    ensures a * x <= a * y
  {}

  lemma Quotient(x: int, m: nat, q: int, r: nat)
    requires r < m && x == m * q + r
    ensures x / m == q && x % m == r
  {
    var k := x / m - q;
    assert x == m * (x / m) + x % m;
    assert m * (q + k) == m * q + m * k;
    if k >= 1 {
      Times(m, 1, k);
    } else if k <= -1 {
      assert m * k == -(m * -k);
      Times(m, 1, -k);
    }
  }
}
