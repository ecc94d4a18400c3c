/** W', the aggregated check of crates/fflonk/src/verifier.rs on the values at the hidden point, and
    completeness of the opening argument. */
module OpeningVerifier {
  import opened Outcomes
  import opened Modular
  import opened FieldInverse
  import opened PrimeFields
  import opened SparsePolynomials
  import opened SparseArithmetic
  import opened SparseDivision
  import opened Lagrange
  import opened Interpolation
  import opened OpeningProver
  import P = Polynomials

  // ---- W' ----

  /** L at a point, from the values there of the C and of W, and the r at y. */
  ghost function Linear(d: Differences, y: int, alpha: int, alpha2: int,
                        c0: int, c1: int, c2: int, w: int, r0: int, r1: int, r2: int): int {
    Vanish(d.setup, y) * (c0 - r0) + (alpha * Vanish(d.firstRound, y)) * (c1 - r1)
    + (alpha2 * Vanish(d.secondRound, y)) * (c2 - r2) - Vanish(d.all, y) * w
  }

  ghost predicate LinearAt(p: nat, d: Differences, y: int, alpha: int, alpha2: int, c0: seq<int>, c1: seq<int>,
                           c2: seq<int>, w: seq<int>, r0: int, r1: int, r2: int, l: seq<int>, x: int)
    requires p > 0
  {
    Red(p, P.Eval(l, x))
    == Red(p, Linear(d, y, alpha, alpha2, P.Eval(c0, x), P.Eval(c1, x), P.Eval(c2, x), P.Eval(w, x), r0, r1, r2))
  }

  /** The constant coefficient lowered by `r`. */
  method LowerConstant(p: nat, c: seq<int>, r: int) returns (tmp: Polynomial)
    requires p > 1 && Reduced(p, c) && |c| > 0
    ensures fresh(tmp) && tmp.Valid() && tmp.p == p && |tmp.coeffs| == |c|
    ensures forall x: int :: Lowered(p, tmp.coeffs, c, r, x)
  {
    tmp := new Polynomial.FromCoeffs(p, c[0 := Red(p, c[0] - r)]);
    ghost var t := tmp.coeffs;
    forall x: int ensures Lowered(p, t, c, r, x) {
      assert t[1..] == c[1..];
      RedRed(p, c[0] - r);
      RedAdd(p, t[0], c[0] - r, x * P.Eval(c[1..], x), x * P.Eval(c[1..], x));
    }
  }

  ghost predicate Lowered(p: nat, t: seq<int>, c: seq<int>, r: int, x: int)
    requires p > 0
  {
    Red(p, P.Eval(t, x)) == Red(p, P.Eval(c, x) - r)
  }

  /** A polynomial's values are those of a function, modulo p. */
  ghost predicate FollowsAt(p: nat, l: seq<int>, u: int -> int, x: int)
    requires p > 0
  {
    Red(p, P.Eval(l, x)) == Red(p, u(x))
  }

  ghost predicate Follows(p: nat, l: seq<int>, u: int -> int)
    requires p > 0
  {
    forall x: int :: FollowsAt(p, l, u, x)
  }

  /** f * (C - r). */
  ghost function Part(f: int, c: seq<int>, r: int): int -> int {
    (x: int) => f * (P.Eval(c, x) - r)
  }

  ghost function Plus(u: int -> int, v: int -> int): int -> int {
    (x: int) => u(x) + v(x)
  }

  lemma {:induction false} FirstPart(p: nat, n: nat, f: int, f': int, t: seq<int>, c: seq<int>, r: int)
    requires p > 0 && Red(p, f) == Red(p, f') && forall x: int :: Lowered(p, t, c, r, x)
    ensures Follows(p, ReducedAll(p, P.Add(P.Zeros(n), ReducedAll(p, P.Scale(f, t)))), Part(f', c, r))
  {
    var s := ReducedAll(p, P.Scale(f, t));
    var l := ReducedAll(p, P.Add(P.Zeros(n), s));
    forall x: int ensures FollowsAt(p, l, Part(f', c, r), x) {
      assert Lowered(p, t, c, r, x);
      ReducedValue(p, P.Add(P.Zeros(n), s), x);
      P.EvalAdd(P.Zeros(n), s, x);
      P.EvalZeros(n, x);
      ReducedValue(p, P.Scale(f, t), x);
      P.EvalScale(f, t, x);
      RedMul(p, f, f', P.Eval(t, x), P.Eval(c, x) - r);
    }
  }

  lemma {:induction false} AddedPart(p: nat, l: seq<int>, u: int -> int, f: int, f': int, t: seq<int>, c: seq<int>,
                                     r: int)
    requires p > 0 && Follows(p, l, u) && Red(p, f) == Red(p, f') && forall x: int :: Lowered(p, t, c, r, x)
    ensures Follows(p, ReducedAll(p, P.Add(l, P.Scale(f, t))), Plus(u, Part(f', c, r)))
  {
    var l' := ReducedAll(p, P.Add(l, P.Scale(f, t)));
    forall x: int ensures FollowsAt(p, l', Plus(u, Part(f', c, r)), x) {
      assert FollowsAt(p, l, u, x) && Lowered(p, t, c, r, x);
      AddScaledValue(p, l, t, f, x);
      AddedShare(p, P.Eval(l, x), u(x), f, f', P.Eval(t, x), P.Eval(c, x) - r);
    }
  }

  lemma {:induction false} AddedShare(p: nat, l: int, u: int, f: int, f': int, t: int, t': int)
    requires p > 0 && Red(p, l) == Red(p, u) && Red(p, f) == Red(p, f') && Red(p, t) == Red(p, t')
    ensures Red(p, l + f * t) == Red(p, u + f' * t')
  {
    RedMul(p, f, f', t, t');
    RedAdd(p, l, u, f * t, f' * t');
  }

  /** The last addend is -f * W. */
  lemma {:induction false} LastPart(p: nat, l: seq<int>, u: int -> int, f: int, f': int, w: seq<int>)
    requires p > 0 && Follows(p, l, u) && Red(p, f) == Red(p, f')
    ensures Follows(p, ReducedAll(p, P.Add(l, P.Scale(-1, ReducedAll(p, P.Scale(f, w))))), Plus(u, Part(-f', w, 0)))
  {
    var s := ReducedAll(p, P.Scale(f, w));
    var l' := ReducedAll(p, P.Add(l, P.Scale(-1, s)));
    var v := Plus(u, Part(-f', w, 0));
    forall x: int ensures FollowsAt(p, l', v, x) {
      assert FollowsAt(p, l, u, x);
      AddScaledValue(p, l, s, -1, x);
      ReducedValue(p, P.Scale(f, w), x);
      P.EvalScale(f, w, x);
      TakenShare(p, P.Eval(l, x), u(x), f, f', P.Eval(s, x), P.Eval(w, x));
    }
  }

  lemma {:induction false} TakenShare(p: nat, l: int, u: int, f: int, f': int, s: int, w: int)
    requires p > 0 && Red(p, l) == Red(p, u) && Red(p, f) == Red(p, f') && Red(p, s) == Red(p, f * w)
    ensures Red(p, l + -1 * s) == Red(p, u + -f' * (w - 0))
  {
    RedMul(p, f, f', w, w);
    RedAdd(p, l, u, s, f' * w);
    Negated(f', w);
  }

  /** `factor` times the value of the binomials at `y`. */
  method FactorAt(p: nat, pairs: seq<Sparse>, y: int, factor: int) returns (f: int)
    requires p > 1
    ensures Red(p, f) == Red(p, factor * Vanish(pairs, y))
  {
    var z := EvaluateMultipleSparsePolys(p, pairs, y);
    RedRed(p, Vanish(pairs, y));
    ProductComputed(p, factor, factor, z, Vanish(pairs, y));
    f := Red(p, factor * z);
  }

  /** Adds `factor` times C - r. */
  method AddRound(l: Polynomial, c: seq<int>, r: int, factor: int, ghost u: int -> int, ghost factor': int)
    requires l.Valid() && l.p > 1 && Reduced(l.p, c) && 0 < |c| <= |l.coeffs|
    requires Follows(l.p, l.coeffs, u) && Red(l.p, factor) == Red(l.p, factor')
    modifies l
    ensures l.Valid() && |l.coeffs| == old(|l.coeffs|) && Follows(l.p, l.coeffs, Plus(u, Part(factor', c, r)))
  {
    var tmp := LowerConstant(l.p, c, r);
    AddedPart(l.p, l.coeffs, u, factor, factor', tmp.coeffs, c, r);
    l.AddAssignScaled(tmp, factor);
  }

  /** The first round's share of L. */
  method StartL(p: nat, pairs: seq<Sparse>, c: seq<int>, r: int, y: int, size: nat) returns (l: Polynomial)
    requires p > 1 && Reduced(p, c) && 0 < |c| <= size
    ensures fresh(l) && l.Valid() && l.p == p && |l.coeffs| == size
    ensures Follows(p, l.coeffs, Part(Vanish(pairs, y), c, r))
  {
    var z0 := EvaluateMultipleSparsePolys(p, pairs, y);
    RedRed(p, Vanish(pairs, y));
    l := new Polynomial.FromCoeffs(p, Zeroed(size));
    assert l.coeffs == P.Zeros(size);
    var tmp := LowerConstant(p, c, r);
    FirstPart(p, size, z0, Vanish(pairs, y), tmp.coeffs, c, r);
    tmp.Scale(z0);
    l.AddAssign(tmp);
  }

  /** Takes off W times the value of all the binomials. */
  method FinishL(l: Polynomial, pairs: seq<Sparse>, w: seq<int>, y: int, ghost u: int -> int)
    requires l.Valid() && l.p > 1 && Reduced(l.p, w) && |w| <= |l.coeffs| && Follows(l.p, l.coeffs, u)
    modifies l
    ensures l.Valid() && |l.coeffs| == old(|l.coeffs|) && Follows(l.p, l.coeffs, Plus(u, Part(-Vanish(pairs, y), w, 0)))
  {
    var zt := EvaluateMultipleSparsePolys(l.p, pairs, y);
    RedRed(l.p, Vanish(pairs, y));
    LastPart(l.p, l.coeffs, u, zt, Vanish(pairs, y), w);
    var wScaled := new Polynomial.FromCoeffs(l.p, w);
    wScaled.Scale(zt);
    l.SubAssign(wScaled);
  }

  /** L in monomial form. */
  method ComputeL(p: nat, d: Differences, c0: seq<int>, c1: seq<int>, c2: seq<int>, w: seq<int>, r0: int, r1: int,
                  r2: int, alpha: int, alphaSquared: int, y: int)
    returns (l: Polynomial)
    requires p > 1 && Reduced(p, c0) && Reduced(p, c1) && Reduced(p, c2) && Reduced(p, w)
    requires |c0| > 0 && |c1| > 0 && |c2| > 0 && |w| <= Max3(|c0|, |c1|, |c2|)
    ensures fresh(l) && l.Valid() && l.p == p && |l.coeffs| == Max3(|c0|, |c1|, |c2|)
    ensures forall x: int :: LinearAt(p, d, y, alpha, alphaSquared, c0, c1, c2, w, r0, r1, r2, l.coeffs, x)
  {
    ghost var v0, g1, g2 := Vanish(d.setup, y), alpha * Vanish(d.firstRound, y),
      alphaSquared * Vanish(d.secondRound, y);
    l := StartL(p, d.setup, c0, r0, y, Max3(|c0|, |c1|, |c2|));
    ghost var u := Part(v0, c0, r0);
    var factor := FactorAt(p, d.firstRound, y, alpha);
    AddRound(l, c1, r1, factor, u, g1);
    u := Plus(u, Part(g1, c1, r1));
    factor := FactorAt(p, d.secondRound, y, alphaSquared);
    AddRound(l, c2, r2, factor, u, g2);
    u := Plus(u, Part(g2, c2, r2));
    FinishL(l, d.all, w, y, u);
    LinearFollows(p, d, y, alpha, alphaSquared, c0, c1, c2, w, r0, r1, r2, l.coeffs);
  }

  lemma {:induction false} LinearFollows(p: nat, d: Differences, y: int, alpha: int, alpha2: int, c0: seq<int>,
                                         c1: seq<int>, c2: seq<int>, w: seq<int>, r0: int, r1: int, r2: int,
                                         l: seq<int>)
    requires p > 0
    requires Follows(p, l, Plus(Plus(Plus(Part(Vanish(d.setup, y), c0, r0),
                                          Part(alpha * Vanish(d.firstRound, y), c1, r1)),
                                     Part(alpha2 * Vanish(d.secondRound, y), c2, r2)), Part(-Vanish(d.all, y), w, 0)))
    ensures forall x: int :: LinearAt(p, d, y, alpha, alpha2, c0, c1, c2, w, r0, r1, r2, l, x)
  {
    forall x: int ensures LinearAt(p, d, y, alpha, alpha2, c0, c1, c2, w, r0, r1, r2, l, x) {
      assert FollowsAt(p, l, Plus(Plus(Plus(Part(Vanish(d.setup, y), c0, r0),
                                            Part(alpha * Vanish(d.firstRound, y), c1, r1)),
                                       Part(alpha2 * Vanish(d.secondRound, y), c2, r2)),
                                  Part(-Vanish(d.all, y), w, 0)), x);
      Negated(Vanish(d.all, y), P.Eval(w, x));
    }
  }

  /** W' times the binomials of the setup's difference at y and x - y is what L gains from y to x. */
  ghost predicate PrimeAt(p: nat, z0: int, wPrime: seq<int>, l: seq<int>, y: int, x: int)
    requires p > 0
  {
    Red(p, z0 * (P.Eval(wPrime, x) * (x - y))) == Red(p, P.Eval(l, x) - P.Eval(l, y))
  }

  /** Coefficient `j` of W', times the value of those binomials, is that of the quotient of L by x - y. */
  ghost predicate PrimeEntry(p: nat, z0: int, wPrime: seq<int>, l: seq<int>, y: int, j: nat)
    requires p > 0 && j < |wPrime| == |l| - 1
  {
    Red(p, z0 * wPrime[j]) == Red(p, SparseQuotient(l, 1, y)[j])
  }

  lemma {:induction false} PrimeEntries(p: nat, z0: int, inv: int, wPrime: seq<int>, l: seq<int>, y: int)
    requires p > 0 && |l| > 0 && Red(p, z0 * inv) == 1
    requires wPrime == ReducedAll(p, P.Scale(inv, ReducedAll(p, SparseQuotient(l, 1, y))))
    ensures |wPrime| == |l| - 1 && forall j: nat | j < |wPrime| :: PrimeEntry(p, z0, wPrime, l, y, j)
  {
    var q := SparseQuotient(l, 1, y);
    forall j: nat | j < |q| ensures PrimeEntry(p, z0, wPrime, l, y, j) {
      var e := Red(p, q[j]);
      P.ScaleAt(inv, ReducedAll(p, q), j);
      RedRed(p, inv * e);
      RedRed(p, q[j]);
      RedMul(p, z0, z0, wPrime[j], inv * e);
      Associate(z0, inv, e);
      RedMul(p, z0 * inv, 1, e, q[j]);
    }
  }

  lemma {:induction false} PrimeValue(p: nat, z0: int, inv: int, wPrime: seq<int>, l: seq<int>, y: int, x: int)
    requires p > 0 && |l| > 0 && Red(p, z0 * inv) == 1
    requires wPrime == ReducedAll(p, P.Scale(inv, ReducedAll(p, SparseQuotient(l, 1, y))))
    ensures PrimeAt(p, z0, wPrime, l, y, x)
  {
    var q := SparseQuotient(l, 1, y);
    var e, g := P.Eval(wPrime, x), P.Eval(q, x);
    ReducedValue(p, P.Scale(inv, ReducedAll(p, q)), x);
    P.EvalScale(inv, ReducedAll(p, q), x);
    ReducedValue(p, q, x);
    RedMul(p, inv, inv, P.Eval(ReducedAll(p, q), x), g);
    RedMul(p, e, inv * g, x - y, x - y);
    RedMul(p, z0, z0, e * (x - y), (inv * g) * (x - y));
    FourFactors(z0, inv, g, x - y);
    RedMul(p, z0 * inv, 1, g * (x - y), g * (x - y));
    LinearDivision(l, y, x);
  }

  lemma FourFactors(a: int, b: int, c: int, d: int)
    ensures a * ((b * c) * d) == (a * b) * (c * d)
  {
    assert (b * c) * d == b * (c * d);
  }

  /** The second quotient, or none where `y` is a point of the setup opening and the vanishing value
      create_proof unwraps the inverse of is zero. */
  method ComputeWPrime(p: nat, d: Differences, l: Polynomial, y: int) returns (wPrime: Option<seq<int>>)
    requires Prime(p) && p % 2 == 1 && l.Valid() && l.p == p && |l.coeffs| > 0
    ensures wPrime.None? <==> Red(p, Vanish(d.setup, y)) == 0
    ensures wPrime.Some? ==> forall x: int :: PrimeAt(p, Vanish(d.setup, y), wPrime.value, l.coeffs, y, x)
    ensures wPrime.Some? ==> Reduced(p, wPrime.value) && |wPrime.value| == |l.coeffs| - 1
    ensures wPrime.Some? ==>
      forall j: nat | j < |wPrime.value| :: PrimeEntry(p, Vanish(d.setup, y), wPrime.value, l.coeffs, y, j)
  {
    var divided := DivideByLinearTerm(p, l.coeffs, y);
    var z0 := EvaluateMultipleSparsePolys(p, d.setup, y);
    var inverse := InverseOf(p, z0);
    if inverse.None? {
      return None;
    }
    var scaled := new Polynomial.FromCoeffs(p, divided);
    scaled.Scale(inverse.value);
    ghost var v0, result, ls := Vanish(d.setup, y), scaled.coeffs, l.coeffs;
    RedRed(p, v0);
    RedMul(p, z0, v0, inverse.value, inverse.value);
    PrimeEntries(p, v0, inverse.value, result, ls, y);
    forall x: int ensures PrimeAt(p, v0, result, ls, y, x) {
      PrimeValue(p, v0, inverse.value, result, ls, y, x);
    }
    wPrime := Some(scaled.coeffs);
  }

  // ---- The verifier's check ----

  /** The aggregated equation is L(s) = Z(y) W'(s) (s - y), divided by Z(y). */
  lemma {:induction false} Aggregated(p: nat, z0: int, inv: int, u: int, rest: int, t: int, total: int)
    requires p > 0 && Red(p, z0 * inv) == 1 && total == u + inv * rest - t
    ensures Red(p, z0 * total) == Red(p, (z0 * u + rest) - z0 * t)
  {
    SpreadFactor(z0, u, inv, rest, t);
    RedMul(p, z0 * inv, 1, rest, rest);
    RedAdd(p, z0 * u - z0 * t, z0 * u - z0 * t, (z0 * inv) * rest, rest);
  }

  lemma SpreadFactor(z0: int, u: int, inv: int, v: int, t: int)
    ensures z0 * (u + inv * v - t) == z0 * u + (z0 * inv) * v - z0 * t
  {
    assert z0 * (inv * v) == (z0 * inv) * v;
  }

  /** What the verifier adds up: a and b are the scalars of the later rounds, e the one of W. */
  ghost function AggregateOf(a: int, b: int, e: int, c0: int, c1: int, c2: int, w: int, wp: int, r0: int, r1: int,
                             r2: int, y: int): int
  {
    (c0 + a * c1 + b * c2) - (r0 + a * r1 + b * r2) - e * w + wp * y
  }

  lemma {:induction false} CollectInverse(inv: int, f: int, g: int, zt: int, a: int, b: int, e: int, c0: int, c1: int,
                                          c2: int, w: int, wp: int, r0: int, r1: int, r2: int, y: int, s: int)
    requires a == f * inv && b == g * inv && e == zt * inv
    ensures AggregateOf(a, b, e, c0, c1, c2, w, wp, r0, r1, r2, y) - wp * s
         == (c0 - r0) + inv * (f * (c1 - r1) + g * (c2 - r2) - zt * w) - wp * (s - y)
  {
    InverseOutside(inv, f, c1, r1);
    InverseOutside(inv, g, c2, r2);
    InverseOutside(inv, zt, w, 0);
    DistributeInverse(inv, f * (c1 - r1), g * (c2 - r2), zt * w);
    assert wp * (s - y) == wp * s - wp * y;
  }

  lemma DistributeInverse(inv: int, u: int, v: int, w: int)
    ensures inv * (u + v - w) == inv * u + inv * v - inv * w
  {
  }

  lemma InverseOutside(inv: int, a: int, c: int, r: int)
    ensures (a * inv) * c - (a * inv) * r == inv * (a * (c - r))
  {
    assert (a * inv) * (c - r) == inv * (a * (c - r));
  }

  lemma RotateThree(a: int, b: int, c: int)
    ensures (a * b) * c == (c * a) * b
  {
  }

  /** A commitment's share, by its scalar. */
  method CommitmentShare(p: nat, factor: int, z: int, inv: int, c: int, ghost f: int, ghost a: int) returns (share: int)
    requires p > 0 && Red(p, factor * z) == Red(p, f) && a == f * inv
    ensures Red(p, share) == Red(p, a * c)
  {
    var scalar := Red(p, factor * z);
    RedRed(p, factor * z);
    ProductComputed(p, scalar, f, inv, inv);
    scalar := Red(p, scalar * inv);
    ProductComputed(p, c, c, scalar, a);
    Commute(c, a);
    share := Red(p, c * scalar);
  }

  /** An evaluation's share, multiplied up factor by factor. */
  method EvaluationShare(p: nat, factor: int, z: int, inv: int, r: int, ghost f: int, ghost a: int) returns (share: int)
    requires p > 0 && Red(p, factor * z) == Red(p, f) && a == f * inv
    ensures Red(p, share) == Red(p, a * r)
  {
    share := Red(p, r * factor);
    RedRed(p, r * factor);
    RedMul(p, share, r * factor, z, z);
    RotateThree(factor, z, r);
    RedMul(p, factor * z, f, r, r);
    share := Red(p, share * z);
    RedRed(p, f * r);
    ProductComputed(p, share, f * r, inv, inv);
    RotateThree(f, r, inv);
    Commute(inv, f);
    share := Red(p, share * inv);
  }

  /** F - E - J + y W', step by step. */
  method AggregatedSum(p: nat, z1: int, z2: int, zt: int, inv: int, c0: int, c1: int, c2: int, w: int, wPrime: int,
                       r0: int, r1: int, r2: int, alpha: int, alphaSquared: int, y: int,
                       ghost f: int, ghost g: int, ghost a: int, ghost b: int, ghost e: int) returns (sum: int)
    requires p > 1 && Red(p, alpha * z1) == Red(p, f) && Red(p, alphaSquared * z2) == Red(p, g)
    requires Red(p, zt * inv) == Red(p, e)
    requires a == f * inv && b == g * inv
    ensures Red(p, sum) == Red(p, AggregateOf(a, b, e, c0, c1, c2, w, wPrime, r0, r1, r2, y))
  {
    var r1Share := EvaluationShare(p, alpha, z1, inv, r1, f, a);
    var r2Share := EvaluationShare(p, alphaSquared, z2, inv, r2, g, b);
    var c1Share := CommitmentShare(p, alpha, z1, inv, c1, f, a);
    var c2Share := CommitmentShare(p, alphaSquared, z2, inv, c2, g, b);
    var zShare := Red(p, zt * inv);
    RedRed(p, zt * inv);
    ProductComputed(p, w, w, zShare, e);
    Commute(w, e);
    var j := Red(p, w * zShare);
    RedRed(p, wPrime * y);
    sum := SumOfShares(p, c0, c1Share, c2Share, r0, r1Share, r2Share, j, Red(p, wPrime * y), a * c1, b * c2, a * r1,
                       b * r2, e * w, wPrime * y);
  }

  /** The sums of the check, over shares already computed. */
  method SumOfShares(p: nat, c0: int, c1: int, c2: int, r0: int, r1: int, r2: int, j: int, wy: int, ghost c1': int,
                     ghost c2': int, ghost r1': int, ghost r2': int, ghost j': int, ghost wy': int)
    returns (sum: int)
    requires p > 0 && Red(p, c1) == Red(p, c1') && Red(p, c2) == Red(p, c2') && Red(p, r1) == Red(p, r1')
    requires Red(p, r2) == Red(p, r2')
    requires Red(p, j) == Red(p, j') && Red(p, wy) == Red(p, wy')
    ensures Red(p, sum) == Red(p, (c0 + c1' + c2') - (r0 + r1' + r2') - j' + wy')
  {
    var aggregatedR := SumOfThree(p, r0, r1, r2, r1', r2');
    sum := SumOfThree(p, c0, c1, c2, c1', c2');
    ghost var c, r := c0 + c1' + c2', r0 + r1' + r2';
    SumComputed(p, sum, c, aggregatedR, r);
    sum := Red(p, sum - aggregatedR);
    SumComputed(p, sum, c - r, j, j');
    sum := Red(p, sum - j);
    SumComputed(p, sum, c - r - j', wy, wy');
    sum := Red(p, sum + wy);
  }

  method SumOfThree(p: nat, a: int, b: int, c: int, ghost b': int, ghost c': int) returns (sum: int)
    requires p > 0 && Red(p, b) == Red(p, b') && Red(p, c) == Red(p, c')
    ensures Red(p, sum) == Red(p, a + b' + c')
  {
    SumComputed(p, a, a, b, b');
    sum := Red(p, a + b);
    SumComputed(p, sum, a + b', c, c');
    sum := Red(p, sum + c);
  }

  lemma {:induction false} ZeroDifference(p: nat, u: int, v: int)
    requires p > 0
    ensures Red(p, u - v) == 0 <==> Red(p, u) == Red(p, v)
  {
    if Red(p, u) == Red(p, v) { RedAdd(p, u, v, v, v); }
    if Red(p, u - v) == 0 { RedAdd(p, u - v, 0, v, v); }
  }

  /** The total is zero just when L(s) is Z(y) W'(s) (s - y). */
  lemma {:induction false} TotalIsZero(p: nat, z0: int, inv: int, f: int, g: int, zt: int, a: int, b: int, e: int,
                                       c0: int, c1: int, c2: int, w: int, wp: int, r0: int, r1: int, r2: int, y: int,
                                       s: int, l: int)
    requires Prime(p) && Red(p, z0 * inv) == 1 && a == f * inv && b == g * inv && e == zt * inv
    requires l == z0 * (c0 - r0) + f * (c1 - r1) + g * (c2 - r2) - zt * w
    ensures Red(p, AggregateOf(a, b, e, c0, c1, c2, w, wp, r0, r1, r2, y) - wp * s) == 0
      <==> Red(p, z0 * (wp * (s - y))) == Red(p, l)
  {
    var total, rest, t := AggregateOf(a, b, e, c0, c1, c2, w, wp, r0, r1, r2, y) - wp * s,
      f * (c1 - r1) + g * (c2 - r2) - zt * w, wp * (s - y);
    CollectInverse(inv, f, g, zt, a, b, e, c0, c1, c2, w, wp, r0, r1, r2, y, s);
    Aggregated(p, z0, inv, c0 - r0, rest, t, total);
    ZeroTotal(p, z0, inv, total, l, z0 * t);
  }

  lemma {:induction false} ZeroTotal(p: nat, z0: int, inv: int, total: int, l: int, t: int)
    requires Prime(p) && Red(p, z0 * inv) == 1 && Red(p, z0 * total) == Red(p, l - t)
    ensures Red(p, total) == 0 <==> Red(p, t) == Red(p, l)
  {
    ZeroProduct(p, z0, inv);
    ZeroProduct(p, z0, total);
    ZeroDifference(p, l, t);
  }

  /** The final check at the hidden point `s`, with every commitment given by its value there; none where
      `y` is a point of the setup opening, so that there is no inverse to unwrap. */
  method AggregatePointsAndCheckPairing(p: nat, d: Differences, c0: int, c1: int, c2: int, w: int, wPrime: int, s: int,
                                        r0: int, r1: int, r2: int, alpha: int, y: int) returns (valid: Option<bool>)
    requires Prime(p) && p % 2 == 1
    ensures valid.None? <==> Red(p, Vanish(d.setup, y)) == 0
    ensures valid.Some? ==> (valid.value <==>
      Red(p, Vanish(d.setup, y) * (wPrime * (s - y)))
        == Red(p, Linear(d, y, alpha, Red(p, alpha * alpha), c0, c1, c2, w, r0, r1, r2)))
  {
    var alphaSquared := Red(p, alpha * alpha);
    var z0 := EvaluateMultipleSparsePolys(p, d.setup, y);
    var z1 := EvaluateMultipleSparsePolys(p, d.firstRound, y);
    var z2 := EvaluateMultipleSparsePolys(p, d.secondRound, y);
    var zt := EvaluateMultipleSparsePolys(p, d.all, y);
    ghost var v0, v1, v2, vt := Vanish(d.setup, y), Vanish(d.firstRound, y), Vanish(d.secondRound, y), Vanish(d.all, y);
    var inverse := InverseOf(p, z0);
    if inverse.None? {
      return None;
    }
    var inv := inverse.value;
    ghost var f, g := alpha * v1, alphaSquared * v2;
    ghost var a, b, e := f * inv, g * inv, vt * inv;
    RedRed(p, v0);
    RedRed(p, v1);
    RedRed(p, v2);
    RedRed(p, vt);
    RedMul(p, z0, v0, inv, inv);
    RedMul(p, alpha, alpha, z1, v1);
    RedMul(p, alphaSquared, alphaSquared, z2, v2);
    RedMul(p, zt, vt, inv, inv);
    var sum := AggregatedSum(p, z1, z2, zt, inv, c0, c1, c2, w, wPrime, r0, r1, r2, alpha, alphaSquared, y, f, g, a, b,
                             e);
    var result := PairingIsOne(p, sum, wPrime, s, AggregateOf(a, b, e, c0, c1, c2, w, wPrime, r0, r1, r2, y));
    TotalIsZero(p, v0, inv, f, g, vt, a, b, e, c0, c1, c2, w, wPrime, r0, r1, r2, y, s,
                Linear(d, y, alpha, alphaSquared, c0, c1, c2, w, r0, r1, r2));
    valid := Some(result);
  }

  /** e(sum, 1) e(-W', s) = 1, in the exponent. */
  method PairingIsOne(p: nat, sum: int, wPrime: int, s: int, ghost total: int) returns (one: bool)
    requires p > 0 && Red(p, sum) == Red(p, total)
    ensures one <==> Red(p, total - wPrime * s) == 0
  {
    var pairWithX := Red(p, -wPrime);
    RedRed(p, -wPrime);
    RedMul(p, pairWithX, -wPrime, s, s);
    RedAdd(p, sum, total, pairWithX * s, -wPrime * s);
    assert -wPrime * s == -(wPrime * s);
    one := Red(p, sum + pairWithX * s) == 0;
  }
}
