/** Inverse, coset and product theorems for the Fourier transform.  The only hypotheses are that
    omega raised to half the size is minus one and that the size is invertible. */
module FftInverse {
  import opened Modular
  import opened Spaces
  import opened FftSerial
  import P = Polynomials

  // ---- Geometric sums ----

  ghost function Geometric(v: int, m: nat): int {
    if m == 0 then 0 else Geometric(v, m - 1) + Pow(v, m - 1)
  }

  lemma {:induction false} GeometricSplit(v: int, m: nat, n: nat)
    ensures Geometric(v, m + n) == Geometric(v, m) + Pow(v, m) * Geometric(v, n)
  {
    if n > 0 {
      GeometricSplit(v, m, n - 1);
      PowAdd(v, m, n - 1);
      assert Geometric(v, m + n) == Geometric(v, m + (n - 1)) + Pow(v, m + (n - 1));
      Distribute(Pow(v, m), Geometric(v, n - 1), Pow(v, n - 1));
    }
  }

  /** The sum of 2 m powers has the factor 1 + v^m. */
  lemma {:induction false} GeometricFactor(v: int, m: nat)
    ensures Geometric(v, 2 * m) == Geometric(v, m) * (1 + Pow(v, m))
  {
    GeometricSplit(v, m, m);
    assert m + m == 2 * m;
    Distribute(Geometric(v, m), 1, Pow(v, m));
  }

  lemma {:induction false} GeometricRed(p: nat, v: int, v': int, m: nat)
    requires p > 0 && Red(p, v) == Red(p, v')
    ensures Red(p, Geometric(v, m)) == Red(p, Geometric(v', m))
  {
    if m > 0 {
      GeometricRed(p, v, v', m - 1);
      RedPow(p, v, v', m - 1);
      RedAdd(p, Geometric(v, m - 1), Geometric(v', m - 1), Pow(v, m - 1), Pow(v', m - 1));
    }
  }

  lemma {:induction false} GeometricOne(m: nat)
    ensures Geometric(1, m) == m
  {
    if m > 0 {
      GeometricOne(m - 1);
      PowOne(m - 1);
    }
  }

  lemma {:induction false} OddPowerOfMinusOne(e: nat)
    ensures Pow(-1, 2 * e + 1) == -1
  {
    PowSquare(-1, e);
    PowOne(e);
  }

  lemma {:induction false} RootSquare(p: nat, omega: int, l: nat)
    requires l > 0 && IsRoot(p, omega, l)
    ensures IsRoot(p, omega * omega, l - 1)
  {
    if l == 1 {
      PowToOne(omega);
      RedMul(p, omega, -1, omega, -1);
    } else {
      PowSquare(omega, Pow2(l - 2));
    }
  }

  /** The powers of a root of unity that is not one sum to zero. */
  lemma {:induction false} Vanishes(p: nat, omega: int, l: nat, d: nat)
    requires IsRoot(p, omega, l) && 0 < d < Pow2(l)
    ensures Red(p, Geometric(Pow(omega, d), Pow2(l))) == 0
    decreases l
  {
    var m, v := Pow2(l - 1), Pow(omega, d);
    GeometricFactor(v, m);
    if d % 2 == 1 {
      OddTurn(p, omega, m, d);
      RedAdd(p, 1, 1, Pow(v, m), -1);
      RedMul(p, Geometric(v, m), Geometric(v, m), 1 + Pow(v, m), 0);
      assert Geometric(v, m) * 0 == 0;
    } else {
      RootSquare(p, omega, l);
      Vanishes(p, omega * omega, l - 1, d / 2);
      PowSquare(omega, d / 2);
      RedMul(p, Geometric(v, m), 0, 1 + Pow(v, m), 1 + Pow(v, m));
      assert 0 * (1 + Pow(v, m)) == 0;
    }
  }

  lemma {:induction false} OddTurn(p: nat, omega: int, m: nat, d: nat)
    requires p > 0 && d % 2 == 1 && Red(p, Pow(omega, m)) == Red(p, -1)
    ensures Red(p, Pow(Pow(omega, d), m)) == Red(p, -1)
  {
    var e: nat := d * m;
    PowPow(omega, d, m, e);
    assert e == m * d;
    PowPow(omega, m, d, e);
    RedPow(p, Pow(omega, m), -1, d);
    OddPowerOfMinusOne(d / 2);
  }

  // ---- Combinations ----

  /** The entries of `a`, each scaled by its factor, added up. */
  ghost function Combination<G(!new)>(g: Space<G>, a: seq<G>, f: nat -> int, n: nat): (x: G)
    requires g.Valid() && g.HasAll(a)
    ensures g.has(x)
  {
    if n == 0 then g.zero
    else
      var rest, c := Combination(g, a, f, n - 1), Coef(g, a, n - 1);
      Closed(g, c, c, f(n - 1));
      Closed(g, rest, g.scale(c, f(n - 1)), 0);
      g.add(rest, g.scale(c, f(n - 1)))
  }

  ghost predicate FactorsAdd(f: nat -> int, h: nat -> int, u: nat -> int, i: nat) {
    u(i) == f(i) + h(i)
  }

  lemma {:induction false} CombinationSum<G(!new)>(g: Space<G>, a: seq<G>, f: nat -> int, h: nat -> int, u: nat -> int,
                                                   n: nat)
    requires g.Valid() && g.HasAll(a) && forall i: nat | i < n :: FactorsAdd(f, h, u, i)
    ensures Combination(g, a, u, n) == g.add(Combination(g, a, f, n), Combination(g, a, h, n))
  {
    if n == 0 {
      Units(g, g.zero);
    } else {
      var c := Coef(g, a, n - 1);
      CombinationSum(g, a, f, h, u, n - 1);
      assert FactorsAdd(f, h, u, n - 1) && g.ScalesBySum(c, f(n - 1), h(n - 1));
      Closed(g, c, c, f(n - 1));
      Closed(g, c, c, h(n - 1));
      Paired(g, Combination(g, a, f, n - 1), Combination(g, a, h, n - 1), g.scale(c, f(n - 1)), g.scale(c, h(n - 1)));
    }
  }

  ghost predicate FactorsScale(f: nat -> int, u: nat -> int, k: int, i: nat) {
    u(i) == f(i) * k
  }

  lemma {:induction false} CombinationScaled<G(!new)>(g: Space<G>, a: seq<G>, f: nat -> int, u: nat -> int, k: int,
                                                      n: nat)
    requires g.Valid() && g.HasAll(a) && forall i: nat | i < n :: FactorsScale(f, u, k, i)
    ensures Combination(g, a, u, n) == g.scale(Combination(g, a, f, n), k)
  {
    if n == 0 {
      ScaleOfZero(g, k);
    } else {
      var c := Coef(g, a, n - 1);
      CombinationScaled(g, a, f, u, k, n - 1);
      assert FactorsScale(f, u, k, n - 1);
      Closed(g, c, c, f(n - 1));
      ScaleOfScale(g, c, f(n - 1), k);
      ScaleOfSum(g, Combination(g, a, f, n - 1), g.scale(c, f(n - 1)), k);
    }
  }

  ghost predicate OnlyAt(p: nat, f: nat -> int, i: nat, k: int, j: nat)
    requires p > 0
  {
    Red(p, f(j)) == Red(p, if j == i then k else 0)
  }

  /** With factors that vanish except at `i`, only entry `i` is left. */
  lemma {:induction false} CombinationOfOne<G(!new)>(g: Space<G>, a: seq<G>, f: nat -> int, i: nat, k: int, n: nat)
    requires g.Valid() && g.HasAll(a) && forall j: nat | j < n :: OnlyAt(g.p, f, i, k, j)
    ensures Combination(g, a, f, n) == if i < n then g.scale(Coef(g, a, i), k) else g.zero
  {
    if n > 0 {
      var c, j := Coef(g, a, n - 1), n - 1;
      CombinationOfOne(g, a, f, i, k, j);
      assert OnlyAt(g.p, f, i, k, j);
      ScaleCongruent(g, c, f(j), if j == i then k else 0);
      Units(g, c);
      Closed(g, Coef(g, a, i), c, k);
      Units(g, g.scale(Coef(g, a, i), k));
      Units(g, g.zero);
    }
  }

  // ---- Going back ----

  ghost function Ratio(omega: int, back: int, j: nat, i: nat): int {
    Pow(omega, j) * Pow(back, i)
  }

  lemma {:induction false} KernelPower(omega: int, back: int, i: nat, j: nat, k: nat)
    ensures PowAt(omega, j, k) * PowAt(back, k, i) == Pow(Ratio(omega, back, j, i), k)
  {
    var e: nat, f: nat := j * k, k * i;
    PowPow(omega, j, k, e);
    assert f == i * k;
    PowPow(back, i, k, f);
    PowOfProduct(Pow(omega, j), Pow(back, i), k);
  }

  /** The factors of the transform at `k`. */
  ghost function Twists(omega: int, k: nat): nat -> int {
    (j: nat) => PowAt(omega, j, k)
  }

  /** The factors behind the first `c` terms of a transform followed by the one with the inverse root. */
  ghost function Kernel(omega: int, back: int, i: nat, c: nat): nat -> int {
    (j: nat) => Geometric(Ratio(omega, back, j, i), c)
  }

  ghost function KernelStep(omega: int, back: int, i: nat, c: nat): nat -> int {
    (j: nat) => Pow(Ratio(omega, back, j, i), c)
  }

  lemma {:induction false} DftIsCombination<G(!new)>(g: Space<G>, a: seq<G>, omega: int, k: nat, n: nat)
    requires g.Valid() && g.HasAll(a)
    ensures Dft(g, a, 0, 1, n, omega, k) == Combination(g, a, Twists(omega, k), n)
  {
    if n > 0 {
      DftIsCombination(g, a, omega, k, n - 1);
      assert 0 + (n - 1) * 1 == n - 1;
    }
  }

  lemma {:induction false} BackIsCombination<G(!new)>(g: Space<G>, a: seq<G>, omega: int, back: int, i: nat, c: nat)
    requires g.Valid() && g.HasAll(a) && c <= |a|
    ensures Dft(g, Fourier(g, a, omega), 0, 1, c, back, i) == Combination(g, a, Kernel(omega, back, i, c), |a|)
  {
    var n := |a|;
    if c == 0 {
      forall j: nat | j < n ensures OnlyAt(g.p, Kernel(omega, back, i, 0), n, 0, j) {}
      CombinationOfOne(g, a, Kernel(omega, back, i, 0), n, 0, n);
    } else {
      var k, v := c - 1, PowAt(back, c - 1, i);
      BackIsCombination(g, a, omega, back, i, k);
      DftIsCombination(g, a, omega, k, n);
      assert 0 + k * 1 == k;
      forall j: nat | j < n ensures FactorsScale(Twists(omega, k), KernelStep(omega, back, i, k), v, j) {
        KernelPower(omega, back, i, j, k);
      }
      CombinationScaled(g, a, Twists(omega, k), KernelStep(omega, back, i, k), v, n);
      forall j: nat | j < n
        ensures FactorsAdd(Kernel(omega, back, i, k), KernelStep(omega, back, i, k), Kernel(omega, back, i, c), j)
      {
      }
      CombinationSum(g, a, Kernel(omega, back, i, k), KernelStep(omega, back, i, k), Kernel(omega, back, i, c), n);
    }
  }

  lemma {:induction false} InversePowers(p: nat, omega: int, back: int, i: nat)
    requires p > 0 && Red(p, omega * back) == Red(p, 1)
    ensures Red(p, Pow(omega, i) * Pow(back, i)) == Red(p, 1)
  {
    PowOfProduct(omega, back, i);
    RedPow(p, omega * back, 1, i);
    PowOne(i);
  }

  lemma {:induction false} RatioAbove(p: nat, omega: int, back: int, j: nat, i: nat)
    requires p > 0 && Red(p, omega * back) == Red(p, 1) && i <= j
    ensures Red(p, Ratio(omega, back, j, i)) == Red(p, Pow(omega, j - i))
  {
    PowAdd(omega, j - i, i);
    InversePowers(p, omega, back, i);
    var u := Pow(omega, j - i);
    RedMul(p, u, u, Pow(omega, i) * Pow(back, i), 1);
    Associate(u, Pow(omega, i), Pow(back, i));
  }

  lemma {:induction false} RatioBelow(p: nat, omega: int, back: int, j: nat, i: nat)
    requires p > 0 && Red(p, omega * back) == Red(p, 1) && j <= i
    ensures Red(p, Ratio(omega, back, j, i)) == Red(p, Pow(back, i - j))
  {
    Commute(omega, back);
    RatioAbove(p, back, omega, i, j);
    Commute(Pow(back, i), Pow(omega, j));
  }

  /** The inverse of a root is a root. */
  lemma {:induction false} InverseRoot(p: nat, omega: int, back: int, l: nat)
    requires IsRoot(p, omega, l) && Red(p, omega * back) == Red(p, 1)
    ensures IsRoot(p, back, l)
  {
    if l == 0 {
      RedMul(p, omega, 1, back, back);
      assert 1 * back == back;
    } else {
      var h := Pow2(l - 1);
      InversePowers(p, omega, back, h);
      RedMul(p, Pow(omega, h), -1, Pow(back, h), Pow(back, h));
      RedAdd(p, 0, 0, -1 * Pow(back, h), 1);
      assert 0 - -1 * Pow(back, h) == Pow(back, h);
    }
  }

  lemma {:induction false} KernelVanishes(p: nat, omega: int, back: int, l: nat, i: nat, j: nat)
    requires IsRoot(p, omega, l) && Red(p, omega * back) == Red(p, 1) && i < Pow2(l) && j < Pow2(l)
    ensures OnlyAt(p, Kernel(omega, back, i, Pow2(l)), i, Pow2(l), j)
  {
    var n, v := Pow2(l), Ratio(omega, back, j, i);
    if i < j {
      RatioAbove(p, omega, back, j, i);
      Vanishes(p, omega, l, j - i);
      GeometricRed(p, v, Pow(omega, j - i), n);
    } else if j < i {
      RatioBelow(p, omega, back, j, i);
      InverseRoot(p, omega, back, l);
      Vanishes(p, back, l, i - j);
      GeometricRed(p, v, Pow(back, i - j), n);
    } else {
      RatioAbove(p, omega, back, j, i);
      GeometricRed(p, v, 1, n);
      GeometricOne(n);
    }
  }

  /** Transforming with the inverse root after transforming gives n times the input. */
  lemma {:induction false} BackAndForth<G(!new)>(g: Space<G>, a: seq<G>, omega: int, back: int, l: nat, i: nat)
    requires g.Valid() && g.HasAll(a) && IsRoot(g.p, omega, l) && Red(g.p, omega * back) == Red(g.p, 1)
    requires |a| == Pow2(l) && i < |a|
    ensures Dft(g, Fourier(g, a, omega), 0, 1, |a|, back, i) == g.scale(a[i], |a|)
  {
    var n := |a|;
    BackIsCombination(g, a, omega, back, i, n);
    forall j: nat | j < n ensures OnlyAt(g.p, Kernel(omega, back, i, n), i, n, j) {
      KernelVanishes(g.p, omega, back, l, i, j);
    }
    CombinationOfOne(g, a, Kernel(omega, back, i, n), i, n, n);
  }

  // ---- Scaling, cosets ----

  ghost function Scaled<G(!new)>(g: Space<G>, a: seq<G>, c: int): (r: seq<G>)
    requires g.Valid() && g.HasAll(a)
    ensures |r| == |a| && g.HasAll(r) && forall i: nat | i < |a| :: r[i] == g.scale(a[i], c)
  {
    ScaledHas(g, a);
    seq(|a|, i requires 0 <= i < |a| => g.scale(a[i], c))
  }

  lemma {:induction false} ScaledHas<G(!new)>(g: Space<G>, a: seq<G>)
    requires g.Valid() && g.HasAll(a)
    ensures forall i: nat, k: int | i < |a| :: g.has(g.scale(a[i], k))
  {
    forall i: nat, k: int | i < |a| ensures g.has(g.scale(a[i], k)) {
      Closed(g, a[i], a[i], k);
    }
  }

  /** Entry i times the i-th power of x. */
  ghost function Distributed<G(!new)>(g: Space<G>, a: seq<G>, x: int): (r: seq<G>)
    requires g.Valid() && g.HasAll(a)
    ensures |r| == |a| && g.HasAll(r) && forall i: nat | i < |a| :: r[i] == g.scale(a[i], Pow(x, i))
  {
    ScaledHas(g, a);
    seq(|a|, i requires 0 <= i < |a| => g.scale(a[i], Pow(x, i)))
  }

  lemma {:induction false} Undone<G(!new)>(g: Space<G>, x: G, u: int, v: int)
    requires g.Valid() && g.has(x) && Red(g.p, u * v) == Red(g.p, 1)
    ensures g.scale(g.scale(x, u), v) == x
  {
    ScaleOfScale(g, x, u, v);
    ScaleCongruent(g, x, u * v, 1);
    Units(g, x);
  }

  lemma {:induction false} DistributedBack<G(!new)>(g: Space<G>, a: seq<G>, x: int, xinv: int)
    requires g.Valid() && g.HasAll(a) && Red(g.p, x * xinv) == Red(g.p, 1)
    ensures Distributed(g, Distributed(g, a, x), xinv) == a
  {
    var b := Distributed(g, a, x);
    forall i: nat | i < |a| ensures Distributed(g, b, xinv)[i] == a[i] {
      InversePowers(g.p, x, xinv, i);
      Undone(g, a[i], Pow(x, i), Pow(xinv, i));
    }
  }

  lemma {:induction false} DftScaled<G(!new)>(g: Space<G>, a: seq<G>, c: int, omega: int, k: nat, count: nat)
    requires g.Valid() && g.HasAll(a) && count <= |a|
    ensures Dft(g, Scaled(g, a, c), 0, 1, count, omega, k) == g.scale(Dft(g, a, 0, 1, count, omega, k), c)
  {
    if count == 0 {
      ScaleOfZero(g, c);
    } else {
      var i, w := count - 1, PowAt(omega, count - 1, k);
      DftScaled(g, a, c, omega, k, i);
      assert 0 + i * 1 == i;
      ScaleOfScale(g, a[i], c, w);
      ScaleOfScale(g, a[i], w, c);
      Commute(c, w);
      Closed(g, a[i], a[i], w);
      ScaleOfSum(g, Dft(g, a, 0, 1, i, omega, k), g.scale(a[i], w), c);
    }
  }

  /** The inverse transform: the transform with the inverse root, divided by the size. */
  ghost function FourierInverse<G(!new)>(g: Space<G>, a: seq<G>, back: int, minv: int): (r: seq<G>)
    requires g.Valid() && g.HasAll(a)
    ensures |r| == |a| && g.HasAll(r)
  {
    Scaled(g, Fourier(g, a, back), minv)
  }

  /** The inverse transform undoes the transform. */
  lemma {:induction false} InvertedAfter<G(!new)>(g: Space<G>, a: seq<G>, omega: int, back: int, minv: int, l: nat)
    requires g.Valid() && g.HasAll(a) && IsRoot(g.p, omega, l) && Red(g.p, omega * back) == Red(g.p, 1)
    requires |a| == Pow2(l) && Red(g.p, |a| * minv) == Red(g.p, 1)
    ensures FourierInverse(g, Fourier(g, a, omega), back, minv) == a
  {
    var b := Fourier(g, a, omega);
    forall i: nat | i < |a| ensures FourierInverse(g, b, back, minv)[i] == a[i] {
      BackAndForth(g, a, omega, back, l, i);
      Undone(g, a[i], |a|, minv);
    }
  }

  /** And the transform undoes the inverse transform. */
  lemma {:induction false} InvertedBefore<G(!new)>(g: Space<G>, a: seq<G>, omega: int, back: int, minv: int, l: nat)
    requires g.Valid() && g.HasAll(a) && IsRoot(g.p, omega, l) && Red(g.p, omega * back) == Red(g.p, 1)
    requires |a| == Pow2(l) && Red(g.p, |a| * minv) == Red(g.p, 1)
    ensures Fourier(g, FourierInverse(g, a, back, minv), omega) == a
  {
    var t := Fourier(g, a, back);
    InverseRoot(g.p, omega, back, l);
    Commute(omega, back);
    forall k: nat | k < |a| ensures Fourier(g, Scaled(g, t, minv), omega)[k] == a[k] {
      BackAndForth(g, a, back, omega, l, k);
      DftScaled(g, t, minv, omega, k, |a|);
      Undone(g, a[k], |a|, minv);
    }
  }

  // ---- Residues ----

  /** The values of the polynomial with coefficients `a` at the powers of omega. */
  ghost function Transform(p: nat, a: seq<int>, omega: int): (r: seq<int>)
    requires p > 0
    ensures |r| == |a| && Reduced(p, r) && forall k: nat | k < |a| :: r[k] == Red(p, P.Eval(a, Pow(omega, k)))
  {
    seq(|a|, k requires k >= 0 => Red(p, P.Eval(a, Pow(omega, k))))
  }

  ghost function Inverted(p: nat, a: seq<int>, back: int, minv: int): (r: seq<int>)
    requires p > 0
    ensures |r| == |a| && Reduced(p, r) && forall i: nat | i < |a| :: r[i] == Red(p, Transform(p, a, back)[i] * minv)
  {
    seq(|a|, i requires 0 <= i < |a| => Red(p, Transform(p, a, back)[i] * minv))
  }

  lemma {:induction false} DftIsEval(p: nat, a: seq<int>, omega: int, k: nat, count: nat)
    requires p > 0 && Scalars(p).Valid() && Scalars(p).HasAll(a) && count <= |a|
    ensures Dft(Scalars(p), a, 0, 1, count, omega, k) == Red(p, P.Eval(a[..count], Pow(omega, k)))
  {
    if count > 0 {
      var i, x := count - 1, Pow(omega, k);
      DftIsEval(p, a, omega, k, i);
      P.EvalSnoc(a[..i], a[i], x);
      assert a[..count] == a[..i] + [a[i]] && 0 + i * 1 == i;
      var e: nat := i * k;
      PowPow(omega, k, i, e);
      RedRed(p, P.Eval(a[..i], x));
      RedRed(p, a[i] * Pow(omega, e));
      RedAdd(p, Red(p, P.Eval(a[..i], x)), P.Eval(a[..i], x), Red(p, a[i] * Pow(omega, e)), a[i] * Pow(omega, e));
    }
  }

  /** On residues the transform evaluates the polynomial at the powers of the root. */
  lemma {:induction false} FourierOfResidues(p: nat, a: seq<int>, omega: int)
    requires p > 0 && Reduced(p, a)
    ensures Scalars(p).Valid() && Scalars(p).HasAll(a) && Fourier(Scalars(p), a, omega) == Transform(p, a, omega)
  {
    ScalarsValid(p);
    assert Scalars(p).HasAll(a);
    forall k: nat | k < |a| ensures Fourier(Scalars(p), a, omega)[k] == Transform(p, a, omega)[k] {
      DftIsEval(p, a, omega, k, |a|);
      assert a[..|a|] == a;
    }
  }

  lemma {:induction false} InverseOfResidues(p: nat, a: seq<int>, back: int, minv: int)
    requires p > 0 && Reduced(p, a)
    ensures Scalars(p).Valid() && Scalars(p).HasAll(a)
    ensures FourierInverse(Scalars(p), a, back, minv) == Inverted(p, a, back, minv)
  {
    FourierOfResidues(p, a, back);
  }

  lemma {:induction false} TransformOfInverted(p: nat, a: seq<int>, omega: int, back: int, minv: int, l: nat)
    requires IsRoot(p, omega, l) && Red(p, omega * back) == Red(p, 1) && |a| == Pow2(l) && Reduced(p, a)
    requires Red(p, |a| * minv) == Red(p, 1)
    ensures Transform(p, Inverted(p, a, back, minv), omega) == a
  {
    InverseOfResidues(p, a, back, minv);
    FourierOfResidues(p, Inverted(p, a, back, minv), omega);
    InvertedBefore(Scalars(p), a, omega, back, minv, l);
  }

  // ---- Products ----

  lemma {:induction false} PointwiseHas<G(!new)>(g: Space<G>, a: seq<G>, b: seq<int>)
    requires g.Valid() && g.HasAll(a) && |a| == |b|
    ensures forall i: nat | i < |a| :: g.has(g.scale(a[i], b[i]))
  {
    forall i: nat | i < |a| ensures g.has(g.scale(a[i], b[i])) {
      Closed(g, a[i], a[i], b[i]);
    }
  }

  /** Each entry of `a` scaled by the residue at its place in `b`. */
  ghost function Pointwise<G(!new)>(g: Space<G>, a: seq<G>, b: seq<int>): (r: seq<G>)
    requires g.Valid() && g.HasAll(a) && |a| == |b|
    ensures |r| == |a| && g.HasAll(r) && forall i: nat | i < |a| :: r[i] == g.scale(a[i], b[i])
  {
    PointwiseHas(g, a, b);
    seq(|a|, i requires 0 <= i < |a| => g.scale(a[i], b[i]))
  }

  lemma {:induction false} TransformOfReduced(p: nat, a: seq<int>, omega: int)
    requires p > 0
    ensures Transform(p, ReducedAll(p, a), omega) == Transform(p, a, omega)
  {
    var r := ReducedAll(p, a);
    forall i | 0 <= i < |a| ensures Red(p, r[i]) == Red(p, a[i]) { RedRed(p, a[i]); }
    forall k: nat | k < |a| ensures Transform(p, r, omega)[k] == Transform(p, a, omega)[k] {
      P.EvalRed(p, r, a, Pow(omega, k), Pow(omega, k));
    }
  }

  /** Multiplying the values pointwise is multiplying the polynomials. */
  lemma {:induction false} ProductTransform(p: nat, a: seq<int>, b: seq<int>, n: nat, omega: int)
    requires p > 0 && Reduced(p, a) && Reduced(p, b) && |a| <= n && |b| <= n && |P.Mul(a, b)| <= n
    ensures
      var s, ta, tb := Scalars(p), Transform(p, P.Pad(a, n), omega), Transform(p, P.Pad(b, n), omega);
      s.Valid() && s.HasAll(ta) && Pointwise(s, ta, tb) == Transform(p, ReducedAll(p, P.Pad(P.Mul(a, b), n)), omega)
  {
    var ta, tb := Transform(p, P.Pad(a, n), omega), Transform(p, P.Pad(b, n), omega);
    var c, s := P.Pad(P.Mul(a, b), n), Scalars(p);
    ScalarsValid(p);
    assert s.HasAll(ta);
    TransformOfReduced(p, c, omega);
    forall k: nat | k < n ensures Pointwise(s, ta, tb)[k] == Transform(p, c, omega)[k] {
      var x := Pow(omega, k);
      P.EvalPad(a, n, x);
      P.EvalPad(b, n, x);
      P.EvalPad(P.Mul(a, b), n, x);
      P.EvalMul(a, b, x);
      RedRed(p, P.Eval(a, x));
      RedRed(p, P.Eval(b, x));
      RedMul(p, ta[k], P.Eval(a, x), tb[k], P.Eval(b, x));
    }
  }

  /** Transforming two polynomials, multiplying pointwise and transforming back gives their
      product whenever it fits. */
  lemma {:induction false} ProductTheorem(p: nat, a: seq<int>, b: seq<int>, omega: int, back: int, minv: int, l: nat)
    requires IsRoot(p, omega, l) && Red(p, omega * back) == Red(p, 1) && Red(p, Pow2(l) * minv) == Red(p, 1)
    requires Reduced(p, a) && Reduced(p, b) && |a| <= Pow2(l) && |b| <= Pow2(l) && |P.Mul(a, b)| <= Pow2(l)
    requires Scalars(p).Valid() && Scalars(p).HasAll(P.Pad(a, Pow2(l))) && Scalars(p).HasAll(P.Pad(b, Pow2(l)))
    ensures
      var s, n := Scalars(p), Pow2(l);
      FourierInverse(s, Pointwise(s, Fourier(s, P.Pad(a, n), omega), Fourier(s, P.Pad(b, n), omega)), back, minv)
        == ReducedAll(p, P.Pad(P.Mul(a, b), n))
  {
    var n := Pow2(l);
    FourierOfResidues(p, P.Pad(a, n), omega);
    FourierOfResidues(p, P.Pad(b, n), omega);
    ProductTransform(p, a, b, n, omega);
    var c := ReducedAll(p, P.Pad(P.Mul(a, b), n));
    FourierOfResidues(p, c, omega);
    InvertedAfter(Scalars(p), c, omega, back, minv, l);
  }
}
