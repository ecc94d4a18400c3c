/** The elements that the transforms of crates/bellman/src/domain.rs work on: anything that can be
    added, subtracted and multiplied by a residue modulo p, such as residues and curve points. */
module Spaces {
  import opened Modular
  import opened Groups

  /** The operations on the elements `has`; `Valid` states their laws. */
  datatype Space<!G(!new)> = Space(p: nat, zero: G, add: (G, G) -> G, sub: (G, G) -> G, scale: (G, int) -> G,
                                   has: G -> bool)
  {
    ghost predicate Closes(x: G, y: G, k: int) {
      has(x) && has(y) ==> has(add(x, y)) && has(sub(x, y)) && has(scale(x, k))
    }
    ghost predicate Associates(x: G, y: G, z: G) {
      has(x) && has(y) && has(z) ==> add(add(x, y), z) == add(x, add(y, z))
    }
    ghost predicate Commutes(x: G, y: G) { has(x) && has(y) ==> add(x, y) == add(y, x) }
    ghost predicate HasUnits(x: G) { has(x) ==> add(x, zero) == x && scale(x, 1) == x && scale(x, 0) == zero }
    ghost predicate Subtracts(x: G, y: G) { has(x) && has(y) ==> sub(x, y) == add(x, scale(y, -1)) }
    ghost predicate ScalesSum(x: G, y: G, k: int) {
      has(x) && has(y) ==> scale(add(x, y), k) == add(scale(x, k), scale(y, k))
    }
    ghost predicate ScalesBySum(x: G, k: int, l: int) {
      has(x) ==> scale(x, k + l) == add(scale(x, k), scale(x, l))
    }
    ghost predicate ScalesTwice(x: G, k: int, l: int) { has(x) ==> scale(scale(x, k), l) == scale(x, k * l) }
    ghost predicate ScalesByResidue(x: G, k: int)
      requires p > 0
    {
      has(x) ==> scale(x, k) == scale(x, Red(p, k))
    }

    ghost predicate Adds() {
      && has(zero) && (forall x: G, y: G, k: int :: Closes(x, y, k)) && (forall x: G :: HasUnits(x))
      && (forall x: G, y: G, z: G :: Associates(x, y, z)) && (forall x: G, y: G :: Commutes(x, y))
      && (forall x: G, y: G :: Subtracts(x, y))
    }

    ghost predicate Scales()
      requires p > 0
    {
      && (forall x: G, y: G, k: int :: ScalesSum(x, y, k)) && (forall x: G, k: int, l: int :: ScalesBySum(x, k, l))
      && (forall x: G, k: int, l: int :: ScalesTwice(x, k, l)) && (forall x: G, k: int :: ScalesByResidue(x, k))
    }

    ghost predicate Valid() {
      p > 0 && Adds() && Scales()
    }

    ghost predicate HasAll(a: seq<G>) {
      forall i | 0 <= i < |a| :: has(a[i])
    }
  }

  lemma {:induction false} Closed<G(!new)>(g: Space<G>, x: G, y: G, k: int)
    requires g.Valid() && g.has(x) && g.has(y)
    ensures g.has(g.add(x, y)) && g.has(g.sub(x, y)) && g.has(g.scale(x, k))
  {
    assert g.Closes(x, y, k);
  }

  lemma {:induction false} Units<G(!new)>(g: Space<G>, x: G)
    requires g.Valid() && g.has(x)
    ensures g.add(x, g.zero) == x && g.add(g.zero, x) == x && g.scale(x, 1) == x && g.scale(x, 0) == g.zero
  {
    assert g.HasUnits(x) && g.Commutes(x, g.zero);
  }

  /** (x + y) + z = x + (y + z) = (x + z) + y */
  lemma {:induction false} Reordered<G(!new)>(g: Space<G>, x: G, y: G, z: G)
    requires g.Valid() && g.has(x) && g.has(y) && g.has(z)
    ensures g.add(g.add(x, y), z) == g.add(x, g.add(y, z)) == g.add(g.add(x, z), y)
  {
    assert g.Associates(x, y, z) && g.Commutes(y, z) && g.Associates(x, z, y);
  }

  /** (x + y) + (z + w) = (x + z) + (y + w) */
  lemma {:induction false} Paired<G(!new)>(g: Space<G>, x: G, y: G, z: G, w: G)
    requires g.Valid() && g.has(x) && g.has(y) && g.has(z) && g.has(w)
    ensures g.add(g.add(x, y), g.add(z, w)) == g.add(g.add(x, z), g.add(y, w))
  {
    Closed(g, x, y, 0);
    Closed(g, x, z, 0);
    Reordered(g, g.add(x, y), z, w);
    Reordered(g, x, y, z);
    Reordered(g, g.add(x, z), y, w);
  }

  lemma {:induction false} ScaleOfSum<G(!new)>(g: Space<G>, x: G, y: G, k: int)
    requires g.Valid() && g.has(x) && g.has(y)
    ensures g.scale(g.add(x, y), k) == g.add(g.scale(x, k), g.scale(y, k))
  {
    assert g.ScalesSum(x, y, k);
  }

  lemma {:induction false} ScaleOfScale<G(!new)>(g: Space<G>, x: G, k: int, l: int)
    requires g.Valid() && g.has(x)
    ensures g.scale(g.scale(x, k), l) == g.scale(x, k * l)
  {
    assert g.ScalesTwice(x, k, l);
  }

  lemma {:induction false} ScaleOfZero<G(!new)>(g: Space<G>, k: int)
    requires g.Valid()
    ensures g.scale(g.zero, k) == g.zero
  {
    Units(g, g.zero);
    ScaleOfScale(g, g.zero, 0, k);
    assert 0 * k == 0;
  }

  /** Congruent factors scale alike. */
  lemma {:induction false} ScaleCongruent<G(!new)>(g: Space<G>, x: G, k: int, l: int)
    requires g.Valid() && g.has(x) && Red(g.p, k) == Red(g.p, l)
    ensures g.scale(x, k) == g.scale(x, l)
  {
    assert g.ScalesByResidue(x, k) && g.ScalesByResidue(x, l);
  }

  /** Subtracting y scaled by k is adding y scaled by -k. */
  lemma {:induction false} SubScaled<G(!new)>(g: Space<G>, x: G, y: G, k: int, l: int)
    requires g.Valid() && g.has(x) && g.has(y) && Red(g.p, l) == Red(g.p, -k)
    ensures g.sub(x, g.scale(y, k)) == g.add(x, g.scale(y, l))
  {
    Closed(g, y, y, k);
    assert g.Subtracts(x, g.scale(y, k));
    ScaleOfScale(g, y, k, -1);
    assert k * -1 == -k;
    ScaleCongruent(g, y, l, -k);
  }

  // ---- Residues ----

  function Scalars(p: nat): (g: Space<int>)
    requires p > 0
    ensures g.p == p
  {
    Space(p, 0, (x, y) => Red(p, x + y), (x, y) => Red(p, x - y), (x, k) => Red(p, x * k), x => 0 <= x < p)
  }

  lemma {:induction false} ScalarSums(p: nat, x: int, y: int, z: int)
    requires p > 0
    ensures Red(p, Red(p, x + y) + z) == Red(p, x + y + z) && Red(p, x + Red(p, y + z)) == Red(p, x + y + z)
  {
    RedRed(p, x + y);
    RedAdd(p, Red(p, x + y), x + y, z, z);
    RedRed(p, y + z);
    RedAdd(p, x, x, Red(p, y + z), y + z);
  }

  lemma {:induction false} ScalarScalesSum(p: nat, x: int, y: int, k: int)
    requires p > 0
    ensures Red(p, Red(p, x + y) * k) == Red(p, Red(p, x * k) + Red(p, y * k))
  {
    RedRed(p, x + y);
    RedRed(p, x * k);
    RedRed(p, y * k);
    RedMul(p, Red(p, x + y), x + y, k, k);
    RedAdd(p, Red(p, x * k), x * k, Red(p, y * k), y * k);
    DistributeSum(x, y, k);
  }

  lemma {:induction false} ScalarScalesBySum(p: nat, x: int, k: int, l: int)
    requires p > 0
    ensures Red(p, x * (k + l)) == Red(p, Red(p, x * k) + Red(p, x * l))
  {
    RedRed(p, x * k);
    RedRed(p, x * l);
    RedAdd(p, Red(p, x * k), x * k, Red(p, x * l), x * l);
    Distribute(x, k, l);
  }

  lemma {:induction false} ScalarScalesTwice(p: nat, x: int, k: int, l: int)
    requires p > 0
    ensures Red(p, Red(p, x * k) * l) == Red(p, x * (k * l)) && Red(p, x * k) == Red(p, x * Red(p, k))
  {
    RedRed(p, x * k);
    RedRed(p, k);
    RedMul(p, Red(p, x * k), x * k, l, l);
    RedMul(p, x, x, k, Red(p, k));
    Associate(x, k, l);
  }

  lemma {:induction false} ScalarSubtracts(p: nat, x: int, y: int)
    requires p > 0
    ensures Red(p, x - y) == Red(p, x + Red(p, y * -1))
  {
    RedRed(p, y * -1);
    RedAdd(p, x, x, Red(p, y * -1), y * -1);
  }

  lemma {:induction false} ScalarsAdd(p: nat)
    requires p > 0
    ensures Scalars(p).Adds()
  {
    var g := Scalars(p);
    forall x: int, y: int, z: int ensures g.Associates(x, y, z) {
      ScalarSums(p, x, y, z);
    }
    forall x: int, y: int ensures g.Subtracts(x, y) {
      ScalarSubtracts(p, x, y);
    }
  }

  lemma {:induction false} ScalarsScale(p: nat)
    requires p > 0
    ensures Scalars(p).Scales()
  {
    var g := Scalars(p);
    forall x: int, y: int, k: int ensures g.ScalesSum(x, y, k) {
      ScalarScalesSum(p, x, y, k);
    }
    forall x: int, k: int, l: int ensures g.ScalesBySum(x, k, l) {
      ScalarScalesBySum(p, x, k, l);
    }
    forall x: int, k: int, l: int ensures g.ScalesTwice(x, k, l) {
      ScalarScalesTwice(p, x, k, l);
    }
    forall x: int, k: int ensures g.ScalesByResidue(x, k) {
      ScalarScalesTwice(p, x, k, k);
    }
  }

  /** The residues modulo p are such a space. */
  lemma {:induction false} ScalarsValid(p: nat)
    requires p > 0
    ensures Scalars(p).Valid()
  {
    ScalarsAdd(p);
    ScalarsScale(p);
  }

  // ---- Points ----

  /** Multiples of points whose p-th multiple is zero. */
  ghost function Points<G(!new)>(p: nat, g: Group<G>): (s: Space<G>)
    requires p > 0
    ensures s.p == p
  {
    Space(p, g.zero, g.add, (x, y) => g.Sub(x, y), (x, k) => Times(g, Red(p, k), x), _ => true)
  }

  ghost predicate Annihilates<G(!new)>(p: nat, g: Group<G>, x: G) {
    Times(g, p, x) == g.zero
  }

  lemma {:induction false} TimesResidue<G(!new)>(p: nat, g: Group<G>, x: G, n: nat)
    requires p > 0 && g.Valid() && Annihilates(p, g, x)
    ensures Times(g, n, x) == Times(g, Red(p, n), x)
  {
    if n >= p {
      TimesResidue(p, g, x, n - p);
      TimesAdd(g, n - p, p, x);
      Zero(g, Times(g, n - p, x));
    }
  }

  lemma {:induction false} PointProducts<G(!new)>(p: nat, g: Group<G>, x: G, k: int, l: int)
    requires p > 0 && g.Valid() && Annihilates(p, g, x)
    ensures Times(g, Red(p, k + l), x) == g.add(Times(g, Red(p, k), x), Times(g, Red(p, l), x))
    ensures Times(g, Red(p, l), Times(g, Red(p, k), x)) == Times(g, Red(p, k * l), x)
  {
    var u, v := Red(p, k), Red(p, l);
    RedRed(p, k);
    RedRed(p, l);
    RedAdd(p, u, k, v, l);
    TimesResidue(p, g, x, u + v);
    TimesAdd(g, u, v, x);
    PointScalesTwice(p, g, x, k, l, u, v);
  }

  lemma {:induction false} PointScalesTwice<G(!new)>(p: nat, g: Group<G>, x: G, k: int, l: int, u: nat, v: nat)
    requires p > 0 && g.Valid() && Annihilates(p, g, x) && Red(p, u) == Red(p, k) && Red(p, v) == Red(p, l)
    ensures Times(g, v, Times(g, u, x)) == Times(g, Red(p, k * l), x)
  {
    RedMul(p, u, k, v, l);
    var n: nat := u * v;
    TimesResidue(p, g, x, n);
    Commute(u, v);
    TimesTimes(g, v, u, x, n);
  }

  lemma {:induction false} PointUnits<G(!new)>(p: nat, g: Group<G>, x: G)
    requires p > 0 && g.Valid() && Annihilates(p, g, x)
    ensures Times(g, Red(p, 1), x) == x && Times(g, Red(p, -1), x) == g.neg(x)
  {
    TimesResidue(p, g, x, 1);
    TimesOne(g, x);
    assert Red(p, -1) == p - 1;
    Comm(g, x, Times(g, p - 1, x));
    NegativeUnique(g, x, Times(g, p - 1, x));
  }

  lemma {:induction false} PointsAdd<G(!new)>(p: nat, g: Group<G>)
    requires p > 0 && g.Valid() && forall x: G :: Annihilates(p, g, x)
    ensures Points(p, g).Adds()
  {
    var s := Points(p, g);
    forall x: G, y: G, z: G ensures s.Associates(x, y, z) {
      Assoc(g, x, y, z);
    }
    forall x: G, y: G ensures s.Commutes(x, y) && s.Subtracts(x, y) {
      Comm(g, x, y);
      assert Annihilates(p, g, y);
      PointUnits(p, g, y);
    }
    forall x: G ensures s.HasUnits(x) {
      assert Annihilates(p, g, x);
      Zero(g, x);
      PointUnits(p, g, x);
    }
  }

  /** The points of a group in which p times any point is zero are such a space. */
  lemma {:induction false} PointsValid<G(!new)>(p: nat, g: Group<G>)
    requires p > 0 && g.Valid() && forall x: G :: Annihilates(p, g, x)
    ensures Points(p, g).Valid()
  {
    var s := Points(p, g);
    PointsAdd(p, g);
    forall x: G, y: G, k: int ensures s.ScalesSum(x, y, k) {
      TimesSum(g, Red(p, k), x, y);
    }
    forall x: G, k: int, l: int ensures s.ScalesBySum(x, k, l) && s.ScalesTwice(x, k, l) {
      assert Annihilates(p, g, x);
      PointProducts(p, g, x, k, l);
    }
    forall x: G, k: int ensures s.ScalesByResidue(x, k) {
      RedRed(p, k);
    }
  }
}
