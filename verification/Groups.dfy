/** Abelian groups: all that the multi-exponentiation and the wNAF code need of curve points. */
module Groups {
  import opened Modular

  /** A group written additively; `Valid` states its laws. */
  datatype Group<!G(!new)> = Group(zero: G, add: (G, G) -> G, neg: G -> G) {
    ghost predicate Associates(x: G, y: G, z: G) { add(add(x, y), z) == add(x, add(y, z)) }
    ghost predicate Commutes(x: G, y: G) { add(x, y) == add(y, x) }
    ghost predicate HasUnit(x: G) { add(x, zero) == x }
    ghost predicate HasInverse(x: G) { add(x, neg(x)) == zero }

    ghost predicate Valid() {
      && (forall x: G, y: G, z: G :: Associates(x, y, z)) && (forall x: G, y: G :: Commutes(x, y))
      && (forall x: G :: HasUnit(x)) && (forall x: G :: HasInverse(x))
    }

    function Double(x: G): G { add(x, x) }
    function Sub(x: G, y: G): G { add(x, neg(y)) }
  }

  lemma {:induction false} Zero<G(!new)>(g: Group<G>, x: G)
    requires g.Valid()
    ensures g.add(x, g.zero) == x && g.add(g.zero, x) == x
  {
    assert g.HasUnit(x) && g.Commutes(x, g.zero);
  }

  lemma {:induction false} Assoc<G(!new)>(g: Group<G>, x: G, y: G, z: G)
    requires g.Valid()
    ensures g.add(g.add(x, y), z) == g.add(x, g.add(y, z))
  {
    assert g.Associates(x, y, z);
  }

  lemma {:induction false} Comm<G(!new)>(g: Group<G>, x: G, y: G)
    requires g.Valid()
    ensures g.add(x, y) == g.add(y, x)
  {
    assert g.Commutes(x, y);
  }

  /** (x + y) + z = (x + z) + y */
  lemma {:induction false} SwapLast<G(!new)>(g: Group<G>, x: G, y: G, z: G)
    requires g.Valid()
    ensures g.add(g.add(x, y), z) == g.add(g.add(x, z), y)
  {
    Assoc(g, x, y, z);
    Comm(g, y, z);
    Assoc(g, x, z, y);
  }

  /** (x + y) + (z + w) = (x + z) + (y + w) */
  lemma {:induction false} SwapInner<G(!new)>(g: Group<G>, x: G, y: G, z: G, w: G)
    requires g.Valid()
    ensures g.add(g.add(x, y), g.add(z, w)) == g.add(g.add(x, z), g.add(y, w))
  {
    Assoc(g, g.add(x, y), z, w);
    SwapLast(g, x, y, z);
    Assoc(g, g.add(x, z), y, w);
  }

  lemma {:induction false} Negative<G(!new)>(g: Group<G>, x: G)
    requires g.Valid()
    ensures g.add(x, g.neg(x)) == g.zero && g.add(g.neg(x), x) == g.zero
  {
    assert g.HasInverse(x);
    Comm(g, x, g.neg(x));
  }

  /** What is added to x to give zero is the negative of x. */
  lemma {:induction false} NegativeUnique<G(!new)>(g: Group<G>, x: G, y: G)
    requires g.Valid() && g.add(x, y) == g.zero
    ensures y == g.neg(x)
  {
    Negative(g, x);
    Assoc(g, g.neg(x), x, y);
    Zero(g, y);
    Zero(g, g.neg(x));
  }

  // ---- Multiples ----

  /** x added k times. */
  ghost function Times<G(!new)>(g: Group<G>, k: nat, x: G): G {
    if k == 0 then g.zero else g.add(Times(g, k - 1, x), x)
  }

  lemma {:induction false} TimesOne<G(!new)>(g: Group<G>, x: G)
    requires g.Valid()
    ensures Times(g, 1, x) == x
  {
    Zero(g, x);
    assert Times(g, 1, x) == g.add(Times(g, 0, x), x);
  }

  lemma {:induction false} TimesAdd<G(!new)>(g: Group<G>, j: nat, k: nat, x: G)
    requires g.Valid()
    ensures Times(g, j + k, x) == g.add(Times(g, j, x), Times(g, k, x))
  {
    if k == 0 {
      Zero(g, Times(g, j, x));
    } else {
      TimesAdd(g, j, k - 1, x);
      Assoc(g, Times(g, j, x), Times(g, k - 1, x), x);
      assert Times(g, j + k, x) == g.add(Times(g, j + (k - 1), x), x);
    }
  }

  lemma {:induction false} TimesSum<G(!new)>(g: Group<G>, k: nat, x: G, y: G)
    requires g.Valid()
    ensures Times(g, k, g.add(x, y)) == g.add(Times(g, k, x), Times(g, k, y))
  {
    if k == 0 {
      Zero(g, g.zero);
    } else {
      TimesSum(g, k - 1, x, y);
      SwapInner(g, Times(g, k - 1, x), Times(g, k - 1, y), x, y);
    }
  }

  lemma {:induction false} TimesTimes<G(!new)>(g: Group<G>, j: nat, k: nat, x: G, n: nat)
    requires g.Valid() && n == j * k
    ensures Times(g, j, Times(g, k, x)) == Times(g, n, x)
  {
    if j > 0 {
      OneFactorLess(k, j, n);
      TimesTimes(g, j - 1, k, x, n - k);
      TimesAdd(g, n - k, k, x);
    }
  }

  lemma {:induction false} TimesZero<G(!new)>(g: Group<G>, k: nat)
    requires g.Valid()
    ensures Times(g, k, g.zero) == g.zero
  {
    if k > 0 {
      TimesZero(g, k - 1);
      Zero(g, g.zero);
    }
  }

  /** `c` doublings. */
  method Doubled<G(!new)>(g: Group<G>, x: G, c: nat) returns (y: G)
    requires g.Valid()
    ensures y == Times(g, Pow2(c), x)
  {
    y := x;
    TimesOne(g, x);
    for i := 0 to c
      invariant y == Times(g, Pow2(i), x)
    {
      TimesAdd(g, Pow2(i), Pow2(i), x);
      assert Pow2(i + 1) == Pow2(i) + Pow2(i);
      y := g.Double(y);
    }
  }

  /** Multiples by integers. */
  ghost function Multiple<G(!new)>(g: Group<G>, z: int, x: G): G {
    if z >= 0 then Times(g, z, x) else g.neg(Times(g, -z, x))
  }

  lemma {:induction false} MultipleDifference<G(!new)>(g: Group<G>, j: nat, k: nat, x: G)
    requires g.Valid()
    ensures g.add(Times(g, j, x), g.neg(Times(g, k, x))) == Multiple(g, j - k, x)
  {
    if j >= k {
      TimesAdd(g, j - k, k, x);
      Assoc(g, Times(g, j - k, x), Times(g, k, x), g.neg(Times(g, k, x)));
      Negative(g, Times(g, k, x));
      Zero(g, Times(g, j - k, x));
    } else {
      var d := Times(g, k - j, x);
      TimesAdd(g, j, k - j, x);
      var u, v := Times(g, j, x), Times(g, k, x);
      SwapLast(g, u, g.neg(v), d);
      Negative(g, v);
      Comm(g, g.add(u, g.neg(v)), d);
      NegativeUnique(g, d, g.add(u, g.neg(v)));
    }
  }

  lemma {:induction false} NegativeSum<G(!new)>(g: Group<G>, x: G, y: G)
    requires g.Valid()
    ensures g.neg(g.add(x, y)) == g.add(g.neg(x), g.neg(y))
  {
    SwapInner(g, x, y, g.neg(x), g.neg(y));
    Negative(g, x);
    Negative(g, y);
    Zero(g, g.zero);
    NegativeUnique(g, g.add(x, y), g.add(g.neg(x), g.neg(y)));
  }

  /** Integer multiples add up. */
  lemma {:induction false} MultipleAdd<G(!new)>(g: Group<G>, y: int, z: int, x: G)
    requires g.Valid()
    ensures Multiple(g, y + z, x) == g.add(Multiple(g, y, x), Multiple(g, z, x))
  {
    if y >= 0 && z >= 0 {
      TimesAdd(g, y, z, x);
    } else if y >= 0 {
      MultipleDifference(g, y, -z, x);
    } else if z >= 0 {
      MultipleDifference(g, z, -y, x);
      Comm(g, Multiple(g, y, x), Multiple(g, z, x));
    } else {
      TimesAdd(g, -y, -z, x);
      NegativeSum(g, Times(g, -y, x), Times(g, -z, x));
      assert -(y + z) == -y + -z;
    }
  }
}
