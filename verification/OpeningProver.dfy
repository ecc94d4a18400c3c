/** The opening argument of crates/fflonk/src/prover.rs: the quotients W and W'. */
module OpeningProver {
  import opened Outcomes
  import opened Modular
  import opened SparsePolynomials
  import opened SparseArithmetic
  import opened SparseDivision
  import opened Lagrange
  import opened OpeningSets
  import opened Interpolation
  import P = Polynomials

  // ---- Set differences ----

  /** The binomials of all opening sets together, and of all but one round's. */
  datatype Differences = Differences(setup: seq<Sparse>, firstRound: seq<Sparse>, secondRound: seq<Sparse>,
                                     all: seq<Sparse>)

  function ConstructSetDifferenceMonomials(z: int, zOmega: int, sizeOfSetup: nat, sizeOfFirstRound: nat,
                                           sizeOfSecondRound: nat, firstRoundShifted: bool): (d: Differences)
  {
    var firstRoundPart := [Sparse(sizeOfFirstRound, z)]
      + if firstRoundShifted then [Sparse(sizeOfFirstRound, zOmega)] else [];
    Differences([Sparse(sizeOfSecondRound, z), Sparse(sizeOfSecondRound, zOmega)] + firstRoundPart,
                [Sparse(sizeOfSetup, z), Sparse(sizeOfSecondRound, z), Sparse(sizeOfSecondRound, zOmega)],
                [Sparse(sizeOfSetup, z)] + firstRoundPart,
                [Sparse(sizeOfSetup, z), Sparse(sizeOfSecondRound, z), Sparse(sizeOfSecondRound, zOmega)]
                  + firstRoundPart)
  }

  /** `others` and `own` together vanish as `all` does, at x. */
  ghost predicate SplitsAt(others: seq<Sparse>, own: seq<Sparse>, all: seq<Sparse>, x: int) {
    Vanish(own, x) * Vanish(others, x) == Vanish(all, x)
  }

  ghost predicate Splits(others: seq<Sparse>, own: seq<Sparse>, all: seq<Sparse>) {
    && Degree(others) + Degree(own) == Degree(all)
    && AllPositive(others) && AllPositive(own) && AllPositive(all) && |others| > 0 && |all| > 0
    && forall x: int :: SplitsAt(others, own, all, x)
  }

  lemma {:induction false} VanishOne(e: Sparse, x: int)
    ensures Vanish([e], x) == Pow(x, e.degree) - e.c && Degree([e]) == e.degree
  {
    assert [e][1..] == [];
  }

  lemma {:induction false} VanishTwo(d: Sparse, e: Sparse, x: int)
    ensures Vanish([d, e], x) == (Pow(x, d.degree) - d.c) * (Pow(x, e.degree) - e.c)
    ensures Degree([d, e]) == d.degree + e.degree
  {
    assert [d, e][1..] == [e];
    VanishOne(e, x);
  }

  lemma {:induction false} PartsOf(a: Sparse, bs: seq<Sparse>, cs: seq<Sparse>, x: int)
    ensures Vanish([a] + bs + cs, x) == (Pow(x, a.degree) - a.c) * Vanish(bs, x) * Vanish(cs, x)
    ensures Degree([a] + bs + cs) == a.degree + Degree(bs) + Degree(cs)
  {
    VanishOne(a, x);
    VanishConcat([a], bs, x);
    VanishConcat([a] + bs, cs, x);
    DegreeConcat([a], bs);
    DegreeConcat([a] + bs, cs);
  }

  /** Each set and its difference make up all sets, when the setup is opened at one point and the second round
      at two. */
  lemma {:induction false} DifferencesSplit(o0: OpeningSet, o1: OpeningSet, o2: OpeningSet, z: int, zOmega: int)
    requires o0.hShifted.None? && o2.hShifted.Some? && o0.n > 0 && o1.n > 0 && o2.n > 0
    ensures var d := ConstructSetDifferenceMonomials(z, zOmega, o0.n, o1.n, o2.n, o1.hShifted.Some?);
      && Splits(d.setup, o0.Binomials(z, zOmega), d.all)
      && Splits(d.firstRound, o1.Binomials(z, zOmega), d.all)
      && Splits(d.secondRound, o2.Binomials(z, zOmega), d.all)
  {
    var d := ConstructSetDifferenceMonomials(z, zOmega, o0.n, o1.n, o2.n, o1.hShifted.Some?);
    var a, bs, cs := Sparse(o0.n, z), o2.Binomials(z, zOmega), o1.Binomials(z, zOmega);
    assert bs == [Sparse(o2.n, z), Sparse(o2.n, zOmega)] && o0.Binomials(z, zOmega) == [a];
    assert d.setup == bs + cs && d.firstRound == [a] + bs && d.secondRound == [a] + cs && d.all == [a] + bs + cs;
    forall x: int
      ensures SplitsAt(d.setup, [a], d.all, x) && SplitsAt(d.firstRound, cs, d.all, x)
      ensures SplitsAt(d.secondRound, bs, d.all, x)
    {
      PartsOf(a, bs, cs, x);
      VanishOne(a, x);
      VanishConcat(bs, cs, x);
      VanishConcat([a], bs, x);
      VanishConcat([a], cs, x);
      ThreeFactors(Pow(x, a.degree) - a.c, Vanish(bs, x), Vanish(cs, x));
    }
    PartsOf(a, bs, cs, 0);
    VanishOne(a, 0);
    DegreeConcat(bs, cs);
    DegreeConcat([a], bs);
    DegreeConcat([a], cs);
  }

  lemma ThreeFactors(a: int, b: int, c: int)
    ensures a * (b * c) == a * b * c && c * (a * b) == a * b * c && b * (a * c) == a * b * c
  {
    assert b * (a * c) == (a * b) * c;
  }

  // ---- Rounds ----

  ghost predicate Agrees(p: nat, c: seq<int>, opening: OpeningSet, evals: seq<int>, evalsShifted: seq<int>)
    requires p > 0
  {
    forall j | 0 <= j < |opening.Pts()| ::
      Red(p, P.Eval(c, opening.Pts()[j])) == Red(p, opening.Values(evals, evalsShifted)[j])
  }

  /** C - r, reduced. */
  ghost function Excess(p: nat, c: seq<int>, r: seq<int>): (d: seq<int>)
    requires p > 0
    ensures |c| >= |r| ==> |d| == |c|
  {
    ReducedAll(p, P.Add(c, P.Scale(-1, r)))
  }

  lemma {:induction false} ExcessValue(p: nat, c: seq<int>, r: seq<int>, x: int)
    requires p > 0
    ensures Red(p, P.Eval(Excess(p, c, r), x)) == Red(p, P.Eval(c, x) - P.Eval(r, x))
  {
    ReducedValue(p, P.Add(c, P.Scale(-1, r)), x);
    P.EvalAdd(c, P.Scale(-1, r), x);
    P.EvalScale(-1, r, x);
  }

  /** What C exceeds r by is a multiple of the binomials of the round's opening set. */
  lemma {:induction false} ExcessDivides(p: nat, c: seq<int>, r: seq<int>, opening: OpeningSet, evals: seq<int>,
                                         evalsShifted: seq<int>, z: int, zs: int)
    returns (q: seq<int>)
    requires opening.Opens(p, z, zs) && Agrees(p, c, opening, evals, evalsShifted) && |c| >= |r|
    requires Interpolates(p, r, opening.Pts(), opening.Values(evals, evalsShifted))
    ensures |q| == |c| - Degree(opening.Binomials(z, zs))
    ensures CongAt(p, Excess(p, c, r), TimesAll(q, opening.Binomials(z, zs)))
  {
    var d, pts := Excess(p, c, r), opening.Pts();
    forall j | 0 <= j < |pts| ensures Red(p, P.Eval(d, pts[j])) == 0 {
      ExcessValue(p, c, r, pts[j]);
      var v := opening.Values(evals, evalsShifted)[j];
      RedAdd(p, P.Eval(c, pts[j]), v, P.Eval(r, pts[j]), v);
    }
    q := SetDivides(p, d, opening, z, zs);
  }

  // ---- W ----

  /** d0 times its binomials, plus the others scaled. */
  ghost function Numerator(d: Differences, d0: seq<int>, d1: seq<int>, d2: seq<int>, alpha: int, alpha2: int): seq<int>
  {
    P.Add(P.Add(TimesAll(d0, d.setup), P.Scale(alpha, TimesAll(d1, d.firstRound))),
          P.Scale(alpha2, TimesAll(d2, d.secondRound)))
  }

  ghost function Combination(q0: seq<int>, q1: seq<int>, q2: seq<int>, alpha: int, alpha2: int): seq<int> {
    P.Add(P.Add(q0, P.Scale(alpha, q1)), P.Scale(alpha2, q2))
  }

  lemma {:induction false} CombinationAt(q0: seq<int>, q1: seq<int>, q2: seq<int>, alpha: int, alpha2: int, k: nat)
    ensures P.At(Combination(q0, q1, q2, alpha, alpha2), k) == P.At(q0, k) + alpha * P.At(q1, k) + alpha2 * P.At(q2, k)
  {
    P.AddAt(P.Add(q0, P.Scale(alpha, q1)), P.Scale(alpha2, q2), k);
    P.AddAt(q0, P.Scale(alpha, q1), k);
    P.ScaleAt(alpha, q1, k);
    P.ScaleAt(alpha2, q2, k);
  }

  lemma {:induction false} CombinationValue(q0: seq<int>, q1: seq<int>, q2: seq<int>, alpha: int, alpha2: int, x: int)
    ensures P.Eval(Combination(q0, q1, q2, alpha, alpha2), x)
      == P.Eval(q0, x) + alpha * P.Eval(q1, x) + alpha2 * P.Eval(q2, x)
  {
    P.EvalAdd(P.Add(q0, P.Scale(alpha, q1)), P.Scale(alpha2, q2), x);
    P.EvalAdd(q0, P.Scale(alpha, q1), x);
    P.EvalScale(alpha, q1, x);
    P.EvalScale(alpha2, q2, x);
  }

  lemma {:induction false} Refactor(p: nat, d: seq<int>, q: seq<int>, others: seq<Sparse>, own: seq<Sparse>,
                                    all: seq<Sparse>, k: nat)
    requires p > 0 && Splits(others, own, all) && CongAt(p, d, TimesAll(q, own))
    ensures Red(p, P.At(TimesAll(d, others), k)) == Red(p, P.At(TimesAll(q, all), k))
  {
    var t := TimesAll(q, own);
    TimesAllCongAt(p, d, t, others);
    forall x: int | x > 0 ensures P.SameAt(TimesAll(t, others), TimesAll(q, all), x) {
      assert SplitsAt(others, own, all, x);
      EvalTimesAll(t, others, x);
      EvalTimesAll(q, own, x);
      EvalTimesAll(q, all, x);
      Associate(P.Eval(q, x), Vanish(own, x), Vanish(others, x));
    }
    P.EvalDetermines(TimesAll(t, others), TimesAll(q, all), k);
  }

  lemma {:induction false} TimesCombination(q0: seq<int>, q1: seq<int>, q2: seq<int>, alpha: int, alpha2: int,
                                            all: seq<Sparse>, k: nat)
    ensures P.At(TimesAll(Combination(q0, q1, q2, alpha, alpha2), all), k)
         == P.At(TimesAll(q0, all), k) + alpha * P.At(TimesAll(q1, all), k) + alpha2 * P.At(TimesAll(q2, all), k)
  {
    var g := Combination(q0, q1, q2, alpha, alpha2);
    var h := Combination(TimesAll(q0, all), TimesAll(q1, all), TimesAll(q2, all), alpha, alpha2);
    forall x: int | x > 0 ensures P.SameAt(TimesAll(g, all), h, x) {
      EvalTimesAll(g, all, x);
      EvalTimesAll(q0, all, x);
      EvalTimesAll(q1, all, x);
      EvalTimesAll(q2, all, x);
      CombinationValue(q0, q1, q2, alpha, alpha2, x);
      CombinationValue(TimesAll(q0, all), TimesAll(q1, all), TimesAll(q2, all), alpha, alpha2, x);
      SpreadThree(P.Eval(q0, x), P.Eval(q1, x), P.Eval(q2, x), alpha, alpha2, Vanish(all, x));
    }
    P.EvalDetermines(TimesAll(g, all), h, k);
    CombinationAt(TimesAll(q0, all), TimesAll(q1, all), TimesAll(q2, all), alpha, alpha2, k);
  }

  lemma SpreadThree(u: int, v: int, w: int, a: int, b: int, t: int)
    ensures (u + a * v + b * w) * t == u * t + a * (v * t) + b * (w * t)
  {
    assert (u + a * v + b * w) * t == u * t + (a * v) * t + (b * w) * t;
  }

  lemma {:induction false} ThreeTerms(p: nat, u: int, u': int, a: int, v: int, v': int, b: int, w: int, w': int)
    requires p > 0 && Red(p, u) == Red(p, u') && Red(p, v) == Red(p, v') && Red(p, w) == Red(p, w')
    ensures Red(p, u + a * v + b * w) == Red(p, u' + a * v' + b * w')
  {
    RedMul(p, a, a, v, v');
    RedMul(p, b, b, w, w');
    RedAdd(p, u, u', a * v, a * v');
    RedAdd(p, u + a * v, u' + a * v', b * w, b * w');
  }

  /** The numerator of W is a multiple of all the binomials. */
  lemma {:induction false} NumeratorDivides(p: nat, d: Differences, o0: seq<Sparse>, o1: seq<Sparse>, o2: seq<Sparse>,
                                            d0: seq<int>, d1: seq<int>, d2: seq<int>, q0: seq<int>, q1: seq<int>,
                                            q2: seq<int>, alpha: int, alpha2: int)
    requires p > 0 && Splits(d.setup, o0, d.all) && Splits(d.firstRound, o1, d.all) && Splits(d.secondRound, o2, d.all)
    requires CongAt(p, d0, TimesAll(q0, o0)) && CongAt(p, d1, TimesAll(q1, o1)) && CongAt(p, d2, TimesAll(q2, o2))
    ensures CongAt(p, Numerator(d, d0, d1, d2, alpha, alpha2), TimesAll(Combination(q0, q1, q2, alpha, alpha2), d.all))
  {
    var f, g := Numerator(d, d0, d1, d2, alpha, alpha2), TimesAll(Combination(q0, q1, q2, alpha, alpha2), d.all);
    forall k: nat ensures Red(p, P.At(f, k)) == Red(p, P.At(g, k)) {
      Refactor(p, d0, q0, d.setup, o0, d.all, k);
      Refactor(p, d1, q1, d.firstRound, o1, d.all, k);
      Refactor(p, d2, q2, d.secondRound, o2, d.all, k);
      TimesCombination(q0, q1, q2, alpha, alpha2, d.all, k);
      CombinationAt(TimesAll(d0, d.setup), TimesAll(d1, d.firstRound), TimesAll(d2, d.secondRound), alpha, alpha2, k);
      ThreeTerms(p, P.At(TimesAll(d0, d.setup), k), P.At(TimesAll(q0, d.all), k),
                 alpha, P.At(TimesAll(d1, d.firstRound), k), P.At(TimesAll(q1, d.all), k),
                 alpha2, P.At(TimesAll(d2, d.secondRound), k), P.At(TimesAll(q2, d.all), k));
    }
  }

  lemma {:induction false} CongAtValue(p: nat, f: seq<int>, g: seq<int>, x: int)
    requires p > 0 && CongAt(p, f, g)
    ensures Red(p, P.Eval(f, x)) == Red(p, P.Eval(g, x))
  {
    var n := if |f| > |g| then |f| else |g|;
    var f', g' := P.Pad(f, n), P.Pad(g, n);
    P.EvalPad(f, n, x);
    P.EvalPad(g, n, x);
    forall k | 0 <= k < n ensures Red(p, f'[k]) == Red(p, g'[k]) {
      assert f'[k] == P.At(f, k) && g'[k] == P.At(g, k);
    }
    P.EvalRed(p, f', g', x, x);
  }

  /** W times all the binomials is the sum over the rounds, at x. */
  ghost predicate WholeAt(p: nat, d: Differences, w: seq<int>, c0: seq<int>, c1: seq<int>, c2: seq<int>,
                          r0: seq<int>, r1: seq<int>, r2: seq<int>, alpha: int, alpha2: int, x: int)
    requires p > 0
  {
    Red(p, P.Eval(w, x) * Vanish(d.all, x))
    == Red(p, (P.Eval(c0, x) - P.Eval(r0, x)) * Vanish(d.setup, x)
            + alpha * ((P.Eval(c1, x) - P.Eval(r1, x)) * Vanish(d.firstRound, x))
            + alpha2 * ((P.Eval(c2, x) - P.Eval(r2, x)) * Vanish(d.secondRound, x)))
  }

  lemma {:induction false} TermValue(p: nat, c: seq<int>, r: seq<int>, pairs: seq<Sparse>, x: int)
    requires p > 0
    ensures Red(p, P.Eval(TimesAll(Excess(p, c, r), pairs), x))
      == Red(p, (P.Eval(c, x) - P.Eval(r, x)) * Vanish(pairs, x))
  {
    EvalTimesAll(Excess(p, c, r), pairs, x);
    ExcessValue(p, c, r, x);
    RedMul(p, P.Eval(Excess(p, c, r), x), P.Eval(c, x) - P.Eval(r, x), Vanish(pairs, x), Vanish(pairs, x));
  }

  lemma {:induction false} WholeValue(p: nat, d: Differences, w: seq<int>, c0: seq<int>, c1: seq<int>, c2: seq<int>,
                                      r0: seq<int>, r1: seq<int>, r2: seq<int>, alpha: int, alpha2: int, x: int)
    requires p > 0
    requires CongAt(p, Numerator(d, Excess(p, c0, r0), Excess(p, c1, r1), Excess(p, c2, r2), alpha, alpha2),
                    TimesAll(w, d.all))
    ensures WholeAt(p, d, w, c0, c1, c2, r0, r1, r2, alpha, alpha2, x)
  {
    var e0, e1, e2 := TimesAll(Excess(p, c0, r0), d.setup), TimesAll(Excess(p, c1, r1), d.firstRound),
      TimesAll(Excess(p, c2, r2), d.secondRound);
    CongAtValue(p, Combination(e0, e1, e2, alpha, alpha2), TimesAll(w, d.all), x);
    EvalTimesAll(w, d.all, x);
    CombinationValue(e0, e1, e2, alpha, alpha2, x);
    TermValue(p, c0, r0, d.setup, x);
    TermValue(p, c1, r1, d.firstRound, x);
    TermValue(p, c2, r2, d.secondRound, x);
    ThreeTerms(p, P.Eval(e0, x), (P.Eval(c0, x) - P.Eval(r0, x)) * Vanish(d.setup, x),
               alpha, P.Eval(e1, x), (P.Eval(c1, x) - P.Eval(r1, x)) * Vanish(d.firstRound, x),
               alpha2, P.Eval(e2, x), (P.Eval(c2, x) - P.Eval(r2, x)) * Vanish(d.secondRound, x));
  }

  /** (C - r) times the binomials, or none where the subtraction meets a longer subtrahend. */
  method WeightedExcess(p: nat, c: seq<int>, r: seq<int>, pairs: seq<Sparse>) returns (tmp: Option<Polynomial>)
    requires p > 1 && Reduced(p, c) && Reduced(p, r) && |pairs| > 0 && AllPositive(pairs)
    ensures tmp.Some? <==> |r| <= |c|
    ensures tmp.Some? ==> fresh(tmp.value) && tmp.value.Valid() && tmp.value.p == p
    ensures tmp.Some? ==> |tmp.value.coeffs| == |c| + Degree(pairs)
    ensures tmp.Some? ==> tmp.value.coeffs == ReducedAll(p, TimesAll(Excess(p, c, r), pairs))
  {
    if |c| < |r| {
      return None;
    }
    var difference := new Polynomial.FromCoeffs(p, c);
    var other := new Polynomial.FromCoeffs(p, r);
    difference.SubAssign(other);
    var weighted := MultiplyMonomialWithMultipleSparsePolys(difference, pairs);
    tmp := Some(weighted);
  }

  lemma {:induction false} AddedCongAt(p: nat, f: seq<int>, f': seq<int>, c: int, t: seq<int>, t': seq<int>)
    requires p > 0 && CongAt(p, f, f') && t == ReducedAll(p, t')
    ensures CongAt(p, ReducedAll(p, P.Add(f, P.Scale(c, t))), P.Add(f', P.Scale(c, t')))
  {
    var s, s' := P.Add(f, P.Scale(c, t)), P.Add(f', P.Scale(c, t'));
    forall k: nat ensures Red(p, P.At(ReducedAll(p, s), k)) == Red(p, P.At(s', k)) {
      P.AddAt(f, P.Scale(c, t), k);
      P.AddAt(f', P.Scale(c, t'), k);
      P.ScaleAt(c, t, k);
      P.ScaleAt(c, t', k);
      if k < |t| { RedRed(p, t'[k]); }
      RedMul(p, c, c, P.At(t, k), P.At(t', k));
      assert Red(p, P.At(f, k)) == Red(p, P.At(f', k));
      RedAdd(p, P.At(f, k), P.At(f', k), c * P.At(t, k), c * P.At(t', k));
      if k < |s| { RedRed(p, s[k]); }
    }
  }

  lemma {:induction false} FirstCongAt(p: nat, t: seq<int>, t': seq<int>, n: nat)
    requires p > 0 && t == ReducedAll(p, t') && |t| <= n
    ensures CongAt(p, ReducedAll(p, P.Add(P.Zeros(n), t)), t')
  {
    var s := P.Add(P.Zeros(n), t);
    forall k: nat ensures Red(p, P.At(ReducedAll(p, s), k)) == Red(p, P.At(t', k)) {
      P.AddAt(P.Zeros(n), t, k);
      if k < |s| { RedRed(p, s[k]); }
      if k < |t| { RedRed(p, t'[k]); }
    }
  }

  function Max3(a: nat, b: nat, c: nat): (m: nat)
    ensures m >= a && m >= b && m >= c && (m == a || m == b || m == c)
  {
    if a >= b && a >= c then a else if b >= c then b else c
  }

  /** The sum over the rounds in monomial form, or none where an addition or subtraction meets a longer operand. */
  method ComputeF(p: nat, d: Differences, c0: seq<int>, c1: seq<int>, c2: seq<int>, r0: seq<int>, r1: seq<int>,
                  r2: seq<int>, alpha: int, alphaSquared: int)
    returns (r: Option<Polynomial>)
    requires p > 1 && Reduced(p, c0) && Reduced(p, c1) && Reduced(p, c2) && Reduced(p, r0) && Reduced(p, r1)
    requires Reduced(p, r2)
    requires AllPositive(d.setup) && AllPositive(d.firstRound) && AllPositive(d.secondRound)
    requires |d.setup| > 0 && |d.firstRound| > 0 && |d.secondRound| > 0
    ensures r.Some? <==>
      && |r0| <= |c0| && |r1| <= |c1| && |r2| <= |c2|
      && |c0| + Degree(d.setup) <= Max3(|c0|, |c1|, |c2|) + Degree(d.firstRound)
      && |c2| + Degree(d.secondRound) <= Max3(|c0|, |c1|, |c2|) + Degree(d.firstRound)
    ensures r.Some? ==> fresh(r.value) && r.value.Valid() && r.value.p == p
    ensures r.Some? ==> |r.value.coeffs| == Max3(|c0|, |c1|, |c2|) + Degree(d.firstRound)
    ensures r.Some? ==>
      CongAt(p, r.value.coeffs, Numerator(d, Excess(p, c0, r0), Excess(p, c1, r1), Excess(p, c2, r2), alpha,
                                          alphaSquared))
  {
    var degree := SumOfDegrees(d.firstRound);
    var fPolyDegree := Max3(|c0|, |c1|, |c2|) + degree;
    var f := new Polynomial.FromCoeffs(p, Zeroed(fPolyDegree));
    assert f.coeffs == P.Zeros(fPolyDegree);
    ghost var e0, e1 := TimesAll(Excess(p, c0, r0), d.setup), TimesAll(Excess(p, c1, r1), d.firstRound);
    ghost var e2 := TimesAll(Excess(p, c2, r2), d.secondRound);
    var tmp := WeightedExcess(p, c0, r0, d.setup);
    if tmp.None? || |tmp.value.coeffs| > |f.coeffs| {
      return None;
    }
    FirstCongAt(p, tmp.value.coeffs, e0, fPolyDegree);
    f.AddAssign(tmp.value);
    tmp := WeightedExcess(p, c1, r1, d.firstRound);
    if tmp.None? {
      return None;
    }
    AddedCongAt(p, f.coeffs, e0, alpha, tmp.value.coeffs, e1);
    f.AddAssignScaled(tmp.value, alpha);
    tmp := WeightedExcess(p, c2, r2, d.secondRound);
    if tmp.None? || |tmp.value.coeffs| > |f.coeffs| {
      return None;
    }
    AddedCongAt(p, f.coeffs, P.Add(e0, P.Scale(alpha, e1)), alphaSquared, tmp.value.coeffs, e2);
    f.AddAssignScaled(tmp.value, alphaSquared);
    r := Some(f);
  }

  method SumOfDegrees(pairs: seq<Sparse>) returns (sum: nat)
    ensures sum == Degree(pairs)
  {
    sum := 0;
    for i := 0 to |pairs|
      invariant sum == Degree(pairs[..i])
    {
      assert pairs[..i + 1] == pairs[..i] + [pairs[i]];
      DegreeConcat(pairs[..i], [pairs[i]]);
      VanishOne(pairs[i], 0);
      sum := sum + pairs[i].degree;
    }
    assert pairs[..|pairs|] == pairs;
  }

  lemma {:induction false} CongAtTrans(p: nat, f: seq<int>, g: seq<int>, h: seq<int>)
    requires p > 0 && CongAt(p, f, g) && CongAt(p, g, h)
    ensures CongAt(p, f, h)
  {
    forall k: nat ensures Red(p, P.At(f, k)) == Red(p, P.At(h, k)) {
      assert Red(p, P.At(f, k)) == Red(p, P.At(g, k));
      assert Red(p, P.At(g, k)) == Red(p, P.At(h, k));
    }
  }

  /** W, with nothing left over by any division, or none where the degrees subtract below zero. */
  method ComputeW(p: nat, d: Differences, f: Polynomial, ghost g: seq<int>) returns (r: Option<seq<int>>)
    requires p > 1 && f.Valid() && f.p == p && |d.all| > 0 && AllPositive(d.all)
    requires |f.coeffs| >= |g| + Degree(d.all) && CongAt(p, f.coeffs, TimesAll(g, d.all))
    ensures r.Some? <==> Degree(d.all) < |f.coeffs|
    ensures r.Some? ==> |r.value| == |f.coeffs| - Degree(d.all) && Reduced(p, r.value)
    ensures r.Some? ==> CongAt(p, f.coeffs, TimesAll(r.value, d.all))
  {
    var total := SumOfDegrees(d.all);
    if |f.coeffs| <= total {
      return None;
    }
    ghost var order := Rotated(d.all);
    TimesAllRotated(g, d.all, 0);
    forall k: nat ensures Red(p, P.At(f.coeffs, k)) == Red(p, P.At(TimesAll(g, order), k)) {
      TimesAllRotated(g, d.all, k);
      assert Red(p, P.At(f.coeffs, k)) == Red(p, P.At(TimesAll(g, d.all), k));
    }
    DivideUndoesTimes(p, f.coeffs, g, order);
    ExactCompletes(p, f.coeffs, order);
    r := DivideByMultipleHigherDegreeSparsePolys(p, f.coeffs, d.all);
    ghost var w := r.value;
    ghost var q := DivideAll(f.coeffs, order);
    forall k: nat ensures Red(p, P.At(g, k)) == Red(p, P.At(w, k)) {
      assert Red(p, P.At(q, k)) == Red(p, P.At(g, k));
      if k < |q| { RedRed(p, q[k]); }
    }
    TimesAllCongAt(p, g, w, d.all);
    CongAtTrans(p, f.coeffs, TimesAll(g, d.all), TimesAll(w, d.all));
  }
}
