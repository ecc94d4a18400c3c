/** The point sets the openings of crates/fflonk interpolate over: one coset of the n-th roots of
    unity, or the union of two, as nodes of Lagrange interpolation. */
module OpeningSets {
  import opened Outcomes
  import opened Modular
  import opened FieldInverse
  import opened PrimeFields
  import opened Polynomials
  import opened SparsePolynomials
  import opened Lagrange

  // ---- Derivatives ----

  lemma {:induction false} DerivCons(c: int, f: seq<int>, x: int)
    ensures Deriv([c] + f, x) == Eval(f, x) + x * Deriv(f, x)
  {
    assert ([c] + f)[1..] == f;
  }

  lemma {:induction false} DerivAdd(a: seq<int>, b: seq<int>, x: int)
    ensures Deriv(Add(a, b), x) == Deriv(a, x) + Deriv(b, x)
  {
    if |a| > 0 && |b| > 0 {
      DerivAdd(a[1..], b[1..], x);
      EvalAdd(a[1..], b[1..], x);
      DerivCons(a[0] + b[0], Add(a[1..], b[1..]), x);
      Distribute(x, Deriv(a[1..], x), Deriv(b[1..], x));
    }
  }

  lemma {:induction false} DerivScale(k: int, a: seq<int>, x: int)
    ensures Deriv(Scale(k, a), x) == k * Deriv(a, x)
  {
    if |a| > 0 {
      DerivScale(k, a[1..], x);
      EvalScale(k, a[1..], x);
      DerivCons(k * a[0], Scale(k, a[1..]), x);
      ScaleStep(k, Eval(a[1..], x), x, Deriv(a[1..], x));
    }
  }

  /** The derivative of x^d. */
  ghost function PowDeriv(x: int, d: nat): int {
    if d == 0 then 0 else d * Pow(x, d - 1)
  }

  lemma {:induction false} PowDerivStep(x: int, d: nat)
    requires d > 0
    ensures PowDeriv(x, d) == Pow(x, d - 1) + x * PowDeriv(x, d - 1)
  {
    if d > 1 { OneMorePower(x, d, Pow(x, d - 2)); }
  }

  lemma OneMorePower(x: int, d: int, w: int)
    ensures d * (w * x) == w * x + x * ((d - 1) * w)
  {
    assert d * (w * x) == (d - 1) * (w * x) + w * x;
    assert (d - 1) * (w * x) == x * ((d - 1) * w);
  }

  lemma {:induction false} DerivRaised(d: nat, a: seq<int>, x: int)
    ensures Deriv(Raised(d, a), x) == Eval(a, x) * PowDeriv(x, d) + Deriv(a, x) * Pow(x, d)
  {
    if d == 0 {
      assert Raised(d, a) == a && Eval(a, x) * 0 == 0;
    } else {
      DerivRaised(d - 1, a, x);
      assert Raised(d, a) == [0] + Raised(d - 1, a);
      DerivCons(0, Raised(d - 1, a), x);
      EvalRaised(d - 1, a, x);
      PowDerivStep(x, d);
      RaisedStep(x, Eval(a, x), Deriv(a, x), Pow(x, d - 1), PowDeriv(x, d - 1));
    }
  }

  lemma RaisedStep(x: int, e: int, f: int, w: int, u: int)
    ensures e * w + x * (e * u + f * w) == e * (w + x * u) + f * (w * x)
  {
    assert x * (e * u + f * w) == x * (e * u) + x * (f * w);
    assert e * (w + x * u) == e * w + e * (x * u);
    assert x * (e * u) == e * (x * u) && x * (f * w) == f * (w * x);
  }

  lemma {:induction false} DerivTimesSparse(g: seq<int>, d: nat, c: int, x: int)
    ensures Deriv(TimesSparse(g, d, c), x) == Eval(g, x) * PowDeriv(x, d) + Deriv(g, x) * (Pow(x, d) - c)
  {
    DerivAdd(Raised(d, g), Scale(-c, g), x);
    DerivRaised(d, g, x);
    DerivScale(-c, g, x);
    Binomial(Deriv(g, x), Pow(x, d), c);
  }

  lemma {:induction false} One(x: int)
    ensures Eval([1], x) == 1 && Deriv([1], x) == 0
  {
    assert [1][1..] == [] && x * 0 == 0;
  }

  // ---- Cosets ----

  ghost predicate DistinctPowers(p: nat, omega: int, n: nat)
    requires p > 0
  {
    forall i: nat, j: nat | i < j < n :: Red(p, Pow(omega, i)) != Red(p, Pow(omega, j))
  }

  /** h times the n-th roots of unity, which are n distinct numbers whose n-th power is z. */
  ghost predicate Coset(p: nat, n: nat, h: int, omega: int, z: int)
    requires p > 0
  {
    && n > 0 && Red(p, n) != 0 && Red(p, h) != 0
    && Red(p, Pow(h, n)) == Red(p, z)
    && Red(p, Pow(omega, n)) == Red(p, 1) && DistinctPowers(p, omega, n)
  }

  ghost function Point(h: int, omega: int, i: nat): int {
    Pow(omega, i) * h
  }

  ghost function Points(h: int, omega: int, n: nat): (s: seq<int>)
    ensures |s| == n && forall i: nat | i < n :: s[i] == Point(h, omega, i)
  {
    seq(n, i requires 0 <= i => Point(h, omega, i))
  }

  ghost function Weights(omega: int, n: nat): (s: seq<int>)
    ensures |s| == n && forall i: nat | i < n :: s[i] == Pow(omega, i)
  {
    seq(n, i requires 0 <= i => Pow(omega, i))
  }

  ghost function Constants(k: int, n: nat): (s: seq<int>)
    ensures |s| == n && forall i | 0 <= i < n :: s[i] == k
  {
    seq(n, _ => k)
  }

  lemma {:induction false} PowerOfPoint(p: nat, n: nat, h: int, omega: int, z: int, i: nat)
    requires Prime(p) && Coset(p, n, h, omega, z)
    ensures Red(p, Pow(Point(h, omega, i), n)) == Red(p, z)
  {
    PowOfProduct(Pow(omega, i), h, n);
    var e: nat := i * n;
    PowPow(omega, i, n, e);
    Commute(i, n);
    PowTrivial(p, omega, n, i, e);
    RedMul(p, Pow(Pow(omega, i), n), 1, Pow(h, n), z);
  }

  /** weight * n * point^(n-1) is the same at all points. */
  lemma {:induction false} WeightedPower(p: nat, n: nat, h: int, omega: int, z: int, i: nat)
    requires Prime(p) && Coset(p, n, h, omega, z)
    ensures Red(p, Pow(omega, i) * PowDeriv(Point(h, omega, i), n)) == Red(p, n * Pow(h, n - 1))
  {
    var w := Pow(omega, i);
    PowOfProduct(w, h, n - 1);
    var e: nat := i * n;
    PowPow(omega, i, n, e);
    Commute(i, n);
    PowTrivial(p, omega, n, i, e);
    RegroupPower(w, n, Pow(w, n - 1), Pow(h, n - 1));
    RedMul(p, Pow(w, n), 1, n * Pow(h, n - 1), n * Pow(h, n - 1));
  }

  lemma RegroupPower(w: int, n: int, u: int, v: int)
    ensures w * (n * (u * v)) == (u * w) * (n * v)
  {
    assert w * (n * (u * v)) == (w * u) * (n * v);
  }

  lemma {:induction false} PointsDistinct(p: nat, n: nat, h: int, omega: int, z: int)
    requires Prime(p) && Coset(p, n, h, omega, z)
    ensures Distinct(p, Points(h, omega, n))
  {
    var pts := Points(h, omega, n);
    forall i, j | 0 <= i < j < n ensures Red(p, pts[i]) != Red(p, pts[j]) {
      if Red(p, pts[i]) == Red(p, pts[j]) { Cancel(p, Pow(omega, i), Pow(omega, j), h); }
    }
  }

  lemma {:induction false} ConstantNotZero(p: nat, n: nat, h: int, omega: int, z: int)
    requires Prime(p) && Coset(p, n, h, omega, z)
    ensures Red(p, n * Pow(h, n - 1)) != 0
  {
    PowNotZero(p, h, n - 1);
    if Red(p, n * Pow(h, n - 1)) == 0 { NoZeroDivisors(p, n, Pow(h, n - 1)); }
  }

  // ---- One coset ----

  /** x^n - h^n. */
  ghost function CosetNum(n: nat, h: int): (num: seq<int>)
    ensures |num| == n + 1
  {
    TimesSparse([1], n, Pow(h, n))
  }

  lemma {:induction false} CosetNumValue(n: nat, h: int, x: int)
    ensures Eval(CosetNum(n, h), x) == Pow(x, n) - Pow(h, n) && Deriv(CosetNum(n, h), x) == PowDeriv(x, n)
  {
    EvalTimesSparse([1], n, Pow(h, n), x);
    DerivTimesSparse([1], n, Pow(h, n), x);
    One(x);
  }

  /** The coset's points are nodes for x^n - h^n. */
  lemma {:induction false} CosetNodes(p: nat, n: nat, h: int, omega: int, z: int)
    requires Prime(p) && Coset(p, n, h, omega, z)
    ensures Nodes(p, CosetNum(n, h), Points(h, omega, n), Weights(omega, n), Constants(n * Pow(h, n - 1), n))
  {
    var pts := Points(h, omega, n);
    PointsDistinct(p, n, h, omega, z);
    ConstantNotZero(p, n, h, omega, z);
    forall j: nat | j < n
      ensures Red(p, Eval(CosetNum(n, h), pts[j])) == 0
      ensures Red(p, Pow(omega, j) * Deriv(CosetNum(n, h), pts[j])) == Red(p, n * Pow(h, n - 1))
    {
      CosetNumValue(n, h, pts[j]);
      PowerOfPoint(p, n, h, omega, z, j);
      RedAdd(p, Pow(pts[j], n), z, Pow(h, n), z);
      WeightedPower(p, n, h, omega, z, j);
    }
  }

  // ---- Two cosets ----

  /** (x^n - h^n) (x^n - hs^n). */
  ghost function UnionNum(n: nat, h: int, hs: int): (num: seq<int>)
    ensures |num| == 2 * n + 1
  {
    TimesSparse(TimesSparse([1], n, Pow(hs, n)), n, Pow(h, n))
  }

  lemma {:induction false} UnionNumValue(n: nat, h: int, hs: int, x: int)
    ensures Eval(UnionNum(n, h, hs), x) == (Pow(x, n) - Pow(hs, n)) * (Pow(x, n) - Pow(h, n))
    ensures Deriv(UnionNum(n, h, hs), x)
         == (Pow(x, n) - Pow(hs, n)) * PowDeriv(x, n) + PowDeriv(x, n) * (Pow(x, n) - Pow(h, n))
  {
    var inner := TimesSparse([1], n, Pow(hs, n));
    EvalTimesSparse([1], n, Pow(hs, n), x);
    DerivTimesSparse([1], n, Pow(hs, n), x);
    One(x);
    EvalTimesSparse(inner, n, Pow(h, n), x);
    DerivTimesSparse(inner, n, Pow(h, n), x);
  }

  /** n (h^(2n-1) - h^(n-1) g^n). */
  ghost function UnionConstant(n: nat, h: int, g: int): int
    requires n > 0
  {
    n * (Pow(h, 2 * n - 1) - Pow(h, n - 1) * Pow(g, n))
  }

  lemma {:induction false} UnionConstantFactors(n: nat, h: int, g: int)
    requires n > 0
    ensures UnionConstant(n, h, g) == (n * Pow(h, n - 1)) * (Pow(h, n) - Pow(g, n))
  {
    PowAdd(h, n - 1, n);
    var w, u, v := Pow(h, n - 1), Pow(h, n), Pow(g, n);
    assert w * u - w * v == w * (u - v);
    assert n * (w * (u - v)) == (n * w) * (u - v);
  }

  lemma {:induction false} CosetsApart(p: nat, n: nat, h: int, g: int, omega: int, z: int, zs: int)
    requires Prime(p) && Coset(p, n, h, omega, z) && Coset(p, n, g, omega, zs) && Red(p, z) != Red(p, zs)
    ensures Red(p, UnionConstant(n, h, g)) != 0
  {
    UnionConstantFactors(n, h, g);
    ConstantNotZero(p, n, h, omega, z);
    if Red(p, UnionConstant(n, h, g)) == 0 {
      NoZeroDivisors(p, n * Pow(h, n - 1), Pow(h, n) - Pow(g, n));
      RedAdd(p, Pow(h, n) - Pow(g, n), 0, Pow(g, n), Pow(g, n));
    }
  }

  /** At a point of the coset of h, with `g` the other coset's representative. */
  lemma {:induction false} UnionAtPoint(p: nat, n: nat, h: int, g: int, omega: int, z: int, zs: int, i: nat)
    requires Prime(p) && Coset(p, n, h, omega, z) && Coset(p, n, g, omega, zs)
    ensures var x := Point(h, omega, i);
      && Red(p, (Pow(x, n) - Pow(g, n)) * (Pow(x, n) - Pow(h, n))) == 0
      && Red(p, Pow(omega, i) * ((Pow(x, n) - Pow(g, n)) * PowDeriv(x, n) + PowDeriv(x, n) * (Pow(x, n) - Pow(h, n))))
      == Red(p, UnionConstant(n, h, g))
  {
    var x := Point(h, omega, i);
    var a, b, c, t := Pow(x, n), Pow(h, n), Pow(g, n), PowDeriv(x, n);
    PowerOfPoint(p, n, h, omega, z, i);
    WeightedPower(p, n, h, omega, z, i);
    UnionVanishes(p, a, b, c, t, Pow(omega, i));
    Associate(Pow(omega, i), b - c, t);
    Rotate(Pow(omega, i), b - c, t);
    RedMul(p, Pow(omega, i) * t, n * Pow(h, n - 1), b - c, b - c);
    UnionConstantFactors(n, h, g);
  }

  /** Where `a` and `b` agree, the product with `a - b` vanishes and only one term of the derivative is left. */
  lemma {:induction false} UnionVanishes(p: nat, a: int, b: int, c: int, t: int, w: int)
    requires p > 0 && Red(p, a) == Red(p, b)
    ensures Red(p, (a - c) * (a - b)) == 0
    ensures Red(p, w * ((a - c) * t + t * (a - b))) == Red(p, w * ((b - c) * t))
  {
    RedAdd(p, a, b, b, b);
    RedAdd(p, a, b, c, c);
    RedMul(p, a - c, a - c, a - b, 0);
    RedMul(p, t, t, a - b, 0);
    TimesNothing(a - c, t);
    RedMul(p, a - c, b - c, t, t);
    RedAdd(p, (a - c) * t, (b - c) * t, t * (a - b), 0);
    RedMul(p, w, w, (a - c) * t + t * (a - b), (b - c) * t);
  }

  lemma TimesNothing(x: int, y: int)
    ensures x * 0 == 0 && y * 0 == 0
  {
  }

  lemma {:induction false} UnionDistinct(p: nat, n: nat, h: int, hs: int, omega: int, z: int, zs: int)
    requires Prime(p) && Coset(p, n, h, omega, z) && Coset(p, n, hs, omega, zs) && Red(p, z) != Red(p, zs)
    ensures Distinct(p, Points(h, omega, n) + Points(hs, omega, n))
  {
    PointsDistinct(p, n, h, omega, z);
    PointsDistinct(p, n, hs, omega, zs);
    var a, b := Points(h, omega, n), Points(hs, omega, n);
    forall i, j | 0 <= i < n && 0 <= j < n ensures Red(p, a[i]) != Red(p, b[j]) {
      if Red(p, a[i]) == Red(p, b[j]) {
        PowerOfPoint(p, n, h, omega, z, i);
        PowerOfPoint(p, n, hs, omega, zs, j);
        RedPow(p, a[i], b[j], n);
      }
    }
    var pts := a + b;
    forall i, j | 0 <= i < j < |pts| ensures Red(p, pts[i]) != Red(p, pts[j]) {
      if i < n <= j {
        assert Red(p, a[i]) != Red(p, b[j - n]);
      } else if j < n {
        assert Red(p, a[i]) != Red(p, a[j]);
      } else {
        assert Red(p, b[i - n]) != Red(p, b[j - n]);
      }
    }
  }

  /** The points of both cosets are nodes for (x^n - h^n) (x^n - hs^n). */
  lemma {:induction false} UnionNodes(p: nat, n: nat, h: int, hs: int, omega: int, z: int, zs: int)
    requires Prime(p) && Coset(p, n, h, omega, z) && Coset(p, n, hs, omega, zs) && Red(p, z) != Red(p, zs)
    ensures Nodes(p, UnionNum(n, h, hs), Points(h, omega, n) + Points(hs, omega, n),
                  Weights(omega, n) + Weights(omega, n),
                  Constants(UnionConstant(n, h, hs), n) + Constants(UnionConstant(n, hs, h), n))
  {
    var pts, num := Points(h, omega, n) + Points(hs, omega, n), UnionNum(n, h, hs);
    var ws := Weights(omega, n) + Weights(omega, n);
    var ks := Constants(UnionConstant(n, h, hs), n) + Constants(UnionConstant(n, hs, h), n);
    UnionDistinct(p, n, h, hs, omega, z, zs);
    CosetsApart(p, n, h, hs, omega, z, zs);
    CosetsApart(p, n, hs, h, omega, zs, z);
    forall j | 0 <= j < 2 * n
      ensures Red(p, Eval(num, pts[j])) == 0 && Red(p, ws[j] * Deriv(num, pts[j])) == Red(p, ks[j])
    {
      UnionNumValue(n, h, hs, pts[j]);
      if j < n {
        UnionAtPoint(p, n, h, hs, omega, z, zs, j);
      } else {
        UnionAtPoint(p, n, hs, h, omega, zs, z, j - n);
        var a, t := Pow(pts[j], n), PowDeriv(pts[j], n);
        Commute(a - Pow(hs, n), a - Pow(h, n));
        Commute(a - Pow(hs, n), t);
        Commute(a - Pow(h, n), t);
      }
    }
  }

  // ---- Opening sets ----

  /** Where a round is opened: one coset of representative `h`, and the one of the shifted point if it is needed. */
  datatype OpeningSet = OpeningSet(n: nat, h: int, hShifted: Option<int>, omega: int) {
    /** The set belongs to z, and to the other value zs if it has a shifted part. */
    ghost predicate Opens(p: nat, z: int, zs: int) {
      && Prime(p) && Coset(p, n, h, omega, z)
      && (hShifted.Some? ==> Coset(p, n, hShifted.value, omega, zs) && Red(p, z) != Red(p, zs))
    }

    ghost function Pts(): (s: seq<int>)
      ensures |s| == if hShifted.Some? then n + n else n
    {
      Points(h, omega, n) + if hShifted.Some? then Points(hShifted.value, omega, n) else []
    }

    ghost function Num(): (num: seq<int>)
      ensures |num| == |Pts()| + 1
    {
      if hShifted.Some? then UnionNum(n, h, hShifted.value) else CosetNum(n, h)
    }

    ghost function Ws(): (s: seq<int>)
      ensures |s| == |Pts()|
    {
      Weights(omega, n) + if hShifted.Some? then Weights(omega, n) else []
    }

    ghost function Ks(): (s: seq<int>)
      ensures |s| == |Pts()|
    {
      if n == 0 then []
      else if hShifted.Some? then
        Constants(UnionConstant(n, h, hShifted.value), n) + Constants(UnionConstant(n, hShifted.value, h), n)
      else Constants(n * Pow(h, n - 1), n)
    }

    /** What the combined polynomial should be at the points, given the evaluations at z and at zs. */
    ghost function Values(evals: seq<int>, evalsShifted: seq<int>): (s: seq<int>)
      ensures |s| == |Pts()|
      ensures forall j | 0 <= j < |s| :: s[j] == Eval(if j < n then evals else evalsShifted, Pts()[j])
    {
      seq(|Pts()|, j requires 0 <= j < |Pts()| => Eval(if j < n then evals else evalsShifted, Pts()[j]))
    }

    /** The binomials that vanish on the set. */
    function Binomials(z: int, zs: int): (pairs: seq<Sparse>) {
      [Sparse(n, z)] + if hShifted.Some? then [Sparse(n, zs)] else []
    }
  }

  /** The points of an opening set are interpolation nodes. */
  lemma {:induction false} SetNodes(p: nat, opening: OpeningSet, z: int, zs: int)
    requires opening.Opens(p, z, zs)
    ensures Nodes(p, opening.Num(), opening.Pts(), opening.Ws(), opening.Ks())
  {
    if opening.hShifted.Some? {
      UnionNodes(p, opening.n, opening.h, opening.hShifted.value, opening.omega, z, zs);
    } else {
      CosetNodes(p, opening.n, opening.h, opening.omega, z);
      assert opening.Pts() == Points(opening.h, opening.omega, opening.n)
        && opening.Ws() == Weights(opening.omega, opening.n);
    }
  }

  // ---- Divisibility ----

  lemma {:induction false} ExactIsProduct(p: nat, f: seq<int>, d: nat, c: int)
    requires p > 0 && 0 < d <= |f| && Exact(p, f, d, c)
    ensures CongAt(p, f, TimesSparse(SparseQuotient(f, d, c), d, c))
  {
    var t, r := TimesSparse(SparseQuotient(f, d, c), d, c), Remainder(f, d, c);
    forall k: nat ensures Red(p, At(f, k)) == Red(p, At(t, k)) {
      DivisionAt(f, d, c, k);
      RedAdd(p, At(t, k), At(t, k), At(r, k), 0);
    }
  }

  lemma {:induction false} TimesSparseCongAt(p: nat, f: seq<int>, g: seq<int>, d: nat, c: int)
    requires p > 0 && CongAt(p, f, g)
    ensures CongAt(p, TimesSparse(f, d, c), TimesSparse(g, d, c))
  {
    forall k: nat ensures Red(p, At(TimesSparse(f, d, c), k)) == Red(p, At(TimesSparse(g, d, c), k)) {
      TimesSparseAt(f, d, c, k);
      TimesSparseAt(g, d, c, k);
      RedMul(p, c, c, At(f, k), At(g, k));
      if k >= d { assert Red(p, At(f, k - d)) == Red(p, At(g, k - d)); }
      RedAdd(p, At(f, k - d), At(g, k - d), c * At(f, k), c * At(g, k));
    }
  }

  lemma {:induction false} TimesAllCongAt(p: nat, f: seq<int>, g: seq<int>, pairs: seq<Sparse>)
    requires p > 0 && CongAt(p, f, g)
    ensures CongAt(p, TimesAll(f, pairs), TimesAll(g, pairs))
  {
    if |pairs| > 0 {
      TimesAllCongAt(p, f, g, pairs[1..]);
      TimesSparseCongAt(p, TimesAll(f, pairs[1..]), TimesAll(g, pairs[1..]), pairs[0].degree, pairs[0].c);
    }
  }

  /** A polynomial that vanishes on a coset is a multiple of x^n - z. */
  lemma {:induction false} CosetDivides(p: nat, f: seq<int>, n: nat, h: int, omega: int, z: int)
    requires Prime(p) && Coset(p, n, h, omega, z) && Roots(p, f, Points(h, omega, n)) && |f| >= n
    ensures Exact(p, f, n, z)
  {
    var pts, r, q := Points(h, omega, n), Remainder(f, n, z), SparseQuotient(f, n, z);
    forall j | 0 <= j < n ensures Red(p, Eval(r, pts[j])) == 0 {
      EvalDivision(f, n, z, pts[j]);
      PowerOfPoint(p, n, h, omega, z, j);
      RedAdd(p, Pow(pts[j], n), z, z, z);
      RedMul(p, Eval(q, pts[j]), Eval(q, pts[j]), Pow(pts[j], n) - z, 0);
      assert Eval(q, pts[j]) * 0 == 0;
      RedAdd(p, Eval(f, pts[j]), 0, Eval(q, pts[j]) * (Pow(pts[j], n) - z), 0);
    }
    PointsDistinct(p, n, h, omega, z);
    FewRoots(p, r, pts);
    forall k: nat | k < n ensures Red(p, RemainderAt(f, n, z, k)) == 0 {
      assert r[k] == RemainderAt(f, n, z, k);
    }
  }

  /** After dividing by x^n - z, what vanished on the other coset still does. */
  lemma {:induction false} OtherCosetStays(p: nat, f: seq<int>, n: nat, h: int, omega: int, z: int, zs: int)
    requires Prime(p) && Coset(p, n, h, omega, zs) && Roots(p, f, Points(h, omega, n)) && |f| >= n
    requires Exact(p, f, n, z) && Red(p, z) != Red(p, zs)
    ensures Roots(p, SparseQuotient(f, n, z), Points(h, omega, n))
  {
    var pts, r, q := Points(h, omega, n), Remainder(f, n, z), SparseQuotient(f, n, z);
    forall j | 0 <= j < n ensures Red(p, Eval(q, pts[j])) == 0 {
      var x := pts[j];
      EvalDivision(f, n, z, x);
      EvalRed(p, r, Zeros(n), x, x);
      EvalZeros(n, x);
      RedAdd(p, Eval(f, x), 0, Eval(r, x), 0);
      PowerOfPoint(p, n, h, omega, zs, j);
      RedAdd(p, Pow(x, n), zs, z, z);
      NoZeroDivisors(p, Eval(q, x), Pow(x, n) - z);
      if Red(p, Pow(x, n) - z) == 0 { RedAdd(p, zs - z, 0, z, z); }
    }
  }

  /** A polynomial that vanishes on an opening set is a multiple of the set's binomials. */
  lemma {:induction false} SetDivides(p: nat, f: seq<int>, opening: OpeningSet, z: int, zs: int) returns (q: seq<int>)
    requires opening.Opens(p, z, zs) && Roots(p, f, opening.Pts()) && |f| >= |opening.Pts()|
    ensures |q| == |f| - Degree(opening.Binomials(z, zs)) && CongAt(p, f, TimesAll(q, opening.Binomials(z, zs)))
  {
    var n, h, omega, pairs := opening.n, opening.h, opening.omega, opening.Binomials(z, zs);
    var f', a := SparseQuotient(f, n, z), Points(h, omega, n);
    assert pairs[1..] == if opening.hShifted.Some? then [Sparse(n, zs)] else [];
    forall j | 0 <= j < n ensures Red(p, Eval(f, a[j])) == 0 { assert opening.Pts()[j] == a[j]; }
    CosetDivides(p, f, n, h, omega, z);
    ExactIsProduct(p, f, n, z);
    if opening.hShifted.Some? {
      var g := opening.hShifted.value;
      var b := Points(g, omega, n);
      forall j | 0 <= j < n ensures Red(p, Eval(f, b[j])) == 0 { assert opening.Pts()[n + j] == b[j]; }
      OtherCosetStays(p, f, n, g, omega, z, zs);
      CosetDivides(p, f', n, g, omega, zs);
      ExactIsProduct(p, f', n, zs);
      q := SparseQuotient(f', n, zs);
      TimesSparseCongAt(p, f', TimesSparse(q, n, zs), n, z);
      assert pairs[1..][1..] == [];
      assert TimesAll(q, pairs[1..]) == TimesSparse(q, n, zs);
    } else {
      q := f';
    }
  }
}
