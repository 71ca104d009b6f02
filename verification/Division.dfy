/** Euclidean division, characterised. */
module Division {
  lemma Quotient(a: int, b: int, q: int, r: int)
    requires b > 0 && a == b * q + r && 0 <= r < b
    ensures a / b == q && a % b == r
  {
    assert b * (q - a / b) == a % b - r;
    Small(q - a / b, b);
  }

  lemma Small(x: int, b: int)
    requires b > 0 && -b < b * x < b
    ensures x == 0
  {
  }

  /** Adding a multiple. */
  lemma Shifted(a: int, b: int, k: int)
    requires b > 0
    ensures (a + b * k) / b == a / b + k && (a + b * k) % b == a % b
  {
    var q, r := a / b, a % b;
    assert a + b * k == b * (q + k) + r;
    Quotient(a + b * k, b, q + k, r);
  }

  /** A summand may be reduced first. */
  lemma ReducedFirst(a: int, c: int, b: int)
    requires b > 0
    ensures (a % b + c) % b == (a + c) % b
  {
    var q := a / b;
    assert a == a % b + b * q;
    Shifted(a % b + c, b, q);
  }

  /** Two numbers less than a modulus apart have different residues. */
  lemma ResiduesDiffer(a: int, c: int, b: int)
    requires b > 0 && -b < a - c < b && a != c
    ensures a % b != c % b
  {
    var q, p := a / b, c / b;
    if a % b == c % b {
      assert a - c == b * (q - p);
      Small(q - p, b);
    }
  }
}
