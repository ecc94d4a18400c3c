/** What a prime modulus adds to modular arithmetic: inverses, no zero divisors, and Fermat's
    little theorem. */
module PrimeFields {
  import opened Modular
  import opened Permutation
  import opened FieldInverse

  lemma {:induction false} PrimeHasNoDivisor(p: nat, d: nat)
    requires Prime(p) && 1 < d < p
    ensures p % d != 0
  {
    if p % d == 0 {
      assert IsMultiple(d, p / d, p);
      assert Divides(d, p);
    }
  }

  /** Every residue but zero has an inverse. */
  lemma {:induction false} InverseExists(p: nat, x: nat) returns (y: int)
    requires Prime(p) && 0 < x < p
    ensures Red(p, x * y) == 1
    decreases x
  {
    if x == 1 {
      y := 1;
    } else {
      PrimeHasNoDivisor(p, x);
      var q, r := p / x, p % x;
      DivMod(p, x);
      var z := InverseExists(p, r);
      y := -q * z;
      ScaledRemainder(p, x, q, r, z);
      RedShift(p, r * z, x * y, -z);
    }
  }

  lemma {:induction false} ScaledRemainder(p: int, x: int, q: int, r: int, z: int)
    requires p == x * q + r
    ensures x * (-q * z) == r * z + -z * p
  {
    assert x * (-q * z) == -(x * q) * z;
    assert -(x * q) * z == (r - p) * z;
    assert (r - p) * z == r * z + -z * p;
  }

  /** A factor that is not zero cancels. */
  lemma {:induction false} Cancel(p: nat, x: int, y: int, c: int)
    requires Prime(p) && Red(p, c) != 0 && Red(p, x * c) == Red(p, y * c)
    ensures Red(p, x) == Red(p, y)
  {
    var z := InverseExists(p, Red(p, c));
    RedRed(p, c);
    RedMul(p, Red(p, c), c, z, z);
    RedMul(p, x * c, y * c, z, z);
    Associate(x, c, z);
    Associate(y, c, z);
    RedMul(p, x, x, c * z, 1);
    RedMul(p, y, y, c * z, 1);
  }

  /** A product is zero only if a factor is. */
  lemma {:induction false} NoZeroDivisors(p: nat, x: int, y: int)
    requires Prime(p) && Red(p, x * y) == 0
    ensures Red(p, x) == 0 || Red(p, y) == 0
  {
    if Red(p, y) != 0 {
      assert 0 * y == 0;
      Cancel(p, x, 0, y);
    }
  }

  lemma {:induction false} ZeroProduct(p: nat, u: int, v: int)
    requires Prime(p)
    ensures Red(p, u * v) == 0 <==> Red(p, u) == 0 || Red(p, v) == 0
  {
    if Red(p, u * v) == 0 {
      NoZeroDivisors(p, u, v);
    } else {
      assert u * 0 == 0 && 0 * v == 0;
      if Red(p, u) == 0 { RedMul(p, u, 0, v, v); }
      if Red(p, v) == 0 { RedMul(p, u, u, v, 0); }
    }
  }

  lemma {:induction false} PowNotZero(p: nat, x: int, e: nat)
    requires Prime(p) && Red(p, x) != 0
    ensures Red(p, Pow(x, e)) != 0
  {
    if e > 0 {
      PowNotZero(p, x, e - 1);
      if Red(p, Pow(x, e)) == 0 { NoZeroDivisors(p, Pow(x, e - 1), x); }
    }
  }

  /** The square roots of one are one and minus one. */
  lemma {:induction false} RootsOfOne(p: nat, z: int)
    requires Prime(p) && Red(p, z * z) == Red(p, 1)
    ensures Red(p, z) == Red(p, 1) || Red(p, z) == Red(p, -1)
  {
    RedAdd(p, z * z, 1, 1, 1);
    assert (z - 1) * (z + 1) == z * z - 1;
    NoZeroDivisors(p, z - 1, z + 1);
    if Red(p, z - 1) == 0 {
      RedAdd(p, z - 1, 0, 1, 1);
    } else {
      RedAdd(p, z + 1, 0, 1, 1);
    }
  }

  // ---- Fermat's little theorem ----

  ghost function Product(s: seq<nat>): nat {
    if |s| == 0 then 1 else
      assert Product(s[..|s| - 1]) * s[|s| - 1] >= 0;
      Product(s[..|s| - 1]) * s[|s| - 1]
  }

  lemma {:induction false} ProductConcat(s: seq<nat>, t: seq<nat>)
    ensures Product(s + t) == Product(s) * Product(t)
  {
    if |t| == 0 {
      assert s + t == s;
    } else {
      var t', x := t[..|t| - 1], t[|t| - 1];
      ProductConcat(s, t');
      assert (s + t)[..|s + t| - 1] == s + t';
      Associate(Product(s), Product(t'), x);
    }
  }

  lemma {:induction false} ProductMoves(u: seq<nat>, x: nat, v: seq<nat>)
    ensures Product(u + [x] + v) == Product(u + v) * x
  {
    ProductConcat(u, v);
    ProductConcat(u + [x], v);
    assert (u + [x])[..|u|] == u;
    Rotate(Product(u), Product(v), x);
  }

  lemma {:induction false} RemoveOne(s: seq<nat>, x: nat, u: seq<nat>, v: seq<nat>)
    requires multiset(s + [x]) == multiset(u + [x] + v)
    ensures multiset(s) == multiset(u + v)
  {
    assert multiset(s) == multiset(s + [x]) - multiset{x};
    assert multiset(u + v) == multiset(u + [x] + v) - multiset{x};
  }

  /** The order of the factors does not matter. */
  lemma {:induction false} ProductOfMultiset(s: seq<nat>, t: seq<nat>)
    requires multiset(s) == multiset(t)
    ensures Product(s) == Product(t)
  {
    if |s| == 0 {
      assert |multiset(t)| == |t|;
    } else {
      var s', x := s[..|s| - 1], s[|s| - 1];
      assert s == s' + [x] && x in multiset(t);
      var j :| 0 <= j < |t| && t[j] == x;
      assert t == t[..j] + [x] + t[j + 1..];
      RemoveOne(s', x, t[..j], t[j + 1..]);
      ProductOfMultiset(s', t[..j] + t[j + 1..]);
      ProductMoves(t[..j], x, t[j + 1..]);
    }
  }

  lemma {:induction false} DistinctCount(s: seq<nat>, x: nat)
    requires forall i, j | 0 <= i < j < |s| :: s[i] != s[j]
    ensures multiset(s)[x] == if x in s then 1 else 0
  {
    if |s| > 0 {
      var t, last := s[..|s| - 1], s[|s| - 1];
      assert s == t + [last];
      DistinctCount(t, x);
    }
  }

  lemma {:induction false} PermMultiset(s: seq<nat>, min: nat)
    requires IsPerm(s, min)
    ensures multiset(s) == multiset(Interval(min, |s|))
  {
    var all := Interval(min, |s|);
    forall x: nat ensures multiset(s)[x] == multiset(all)[x] {
      DistinctCount(s, x);
      DistinctCount(all, x);
      if x in all {
        var y := PermIsOnto(s, min, x);
        assert s[y - min] == x;
      }
      if x in s { assert all[x - min] == x; }
    }
  }

  /** The residues of y, 2 y, ..., k y. */
  ghost function Multiples(p: nat, y: nat, k: nat): (s: seq<nat>)
    requires p > 0
    ensures |s| == k
  {
    if k == 0 then [] else Multiples(p, y, k - 1) + [Red(p, y * k)]
  }

  lemma {:induction false} MultiplesAt(p: nat, y: nat, k: nat, i: nat)
    requires p > 0 && i < k
    ensures Multiples(p, y, k)[i] == Red(p, y * (i + 1))
  {
    if i < k - 1 { MultiplesAt(p, y, k - 1, i); }
  }

  lemma {:induction false} Difference(p: nat, y: nat, i: nat, j: nat)
    requires Prime(p) && 0 < y < p && i < j < p
    ensures Red(p, y * i) != Red(p, y * j)
  {
    if Red(p, y * i) == Red(p, y * j) {
      assert y * i == i * y && y * j == j * y;
      Cancel(p, i, j, y);
    }
  }

  lemma {:induction false} MultiplesArePerm(p: nat, y: nat)
    requires Prime(p) && 0 < y < p
    ensures IsPerm(Multiples(p, y, p - 1), 1)
  {
    var s := Multiples(p, y, p - 1);
    forall i | 0 <= i < |s| ensures 1 <= s[i] < 1 + |s| {
      MultiplesAt(p, y, p - 1, i);
      Difference(p, y, 0, i + 1);
      assert y * 0 == 0;
    }
    forall i, j | 0 <= i < j < |s| ensures s[i] != s[j] {
      MultiplesAt(p, y, p - 1, i);
      MultiplesAt(p, y, p - 1, j);
      Difference(p, y, i + 1, j + 1);
    }
  }

  lemma {:induction false} ProductOfMultiples(p: nat, y: nat, k: nat)
    requires p > 0
    ensures Red(p, Product(Multiples(p, y, k))) == Red(p, Pow(y, k) * Product(Interval(1, k)))
  {
    if k > 0 {
      ProductOfMultiples(p, y, k - 1);
      var s, t := Multiples(p, y, k), Interval(1, k);
      assert s[..k - 1] == Multiples(p, y, k - 1) && t[..k - 1] == Interval(1, k - 1);
      RedRed(p, y * k);
      var a, b := Pow(y, k - 1), Product(Interval(1, k - 1));
      RedMul(p, Product(s[..k - 1]), a * b, Red(p, y * k), y * k);
      Interchange(a, b, y, k);
    }
  }

  lemma Interchange(a: int, b: int, y: int, k: int)
    ensures (a * b) * (y * k) == (a * y) * (b * k)
  {
  }

  lemma {:induction false} FactorialNotZero(p: nat, k: nat)
    requires Prime(p) && k < p
    ensures Red(p, Product(Interval(1, k))) != 0
  {
    if k > 0 {
      FactorialNotZero(p, k - 1);
      assert Interval(1, k)[..k - 1] == Interval(1, k - 1);
      if Red(p, Product(Interval(1, k))) == 0 {
        NoZeroDivisors(p, Product(Interval(1, k - 1)), k);
      }
    }
  }

  /** y^(p-1) is one for every residue but zero. */
  lemma {:induction false} Fermat(p: nat, y: nat)
    requires Prime(p) && 0 < y < p
    ensures Red(p, Pow(y, p - 1)) == 1
  {
    var s, t := Multiples(p, y, p - 1), Interval(1, p - 1);
    MultiplesArePerm(p, y);
    PermMultiset(s, 1);
    ProductOfMultiset(s, t);
    ProductOfMultiples(p, y, p - 1);
    FactorialNotZero(p, p - 1);
    assert 1 * Product(t) == Product(t);
    Cancel(p, Pow(y, p - 1), 1, Product(t));
  }
}
