/** Completeness of the opening argument of crates/fflonk: what an honest prover sends is accepted,
    at every hidden point. */
module OpeningCompleteness {
  import opened Outcomes
  import opened Modular
  import opened FieldInverse
  import opened PrimeFields
  import opened SparsePolynomials
  import opened Lagrange
  import opened OpeningSets
  import opened Interpolation
  import opened UnionInterpolation
  import opened BasisEvaluations
  import opened CombinedPolynomials
  import opened OpeningProver
  import opened OpeningVerifier
  import P = Polynomials

  // ---- Honest evaluations ----

  ghost predicate EvaluatedAt(p: nat, monomials: seq<seq<int>>, evals: seq<int>, z: int)
    requires p > 0
  {
    |evals| == |monomials| && forall j | 0 <= j < |evals| :: Red(p, evals[j]) == Red(p, P.Eval(monomials[j], z))
  }

  /** The values of all polynomials of a round at a point. */
  method EvaluateAll(p: nat, monomials: seq<seq<int>>, z: int) returns (evals: seq<int>)
    requires p > 0 && forall j | 0 <= j < |monomials| :: |monomials[j]| > 0 && Reduced(p, monomials[j])
    ensures Reduced(p, evals) && EvaluatedAt(p, monomials, evals, z)
  {
    evals := [];
    for j := 0 to |monomials|
      invariant |evals| == j && Reduced(p, evals)
      invariant forall i | 0 <= i < j :: Red(p, evals[i]) == Red(p, P.Eval(monomials[i], z))
    {
      var v := HornerEvaluation(p, monomials[j], z);
      RedRed(p, P.Eval(monomials[j], z));
      evals := evals + [v];
    }
  }

  lemma {:induction false} SharedIsEvaluation(p: nat, monomials: seq<seq<int>>, evals: seq<int>, x: int, w: int, z: int,
                                              n: nat)
    requires p > 0 && EvaluatedAt(p, monomials, evals, z) && Red(p, w) == Red(p, z) && n <= |evals|
    ensures Red(p, Shared(monomials, x, w, n)) == Red(p, P.Eval(evals[..n], x))
  {
    if n > 0 {
      SharedIsEvaluation(p, monomials, evals, x, w, z, n - 1);
      assert evals[..n] == evals[..n - 1] + [evals[n - 1]];
      P.EvalSnoc(evals[..n - 1], evals[n - 1], x);
      P.EvalRed(p, monomials[n - 1], monomials[n - 1], w, z);
      RedMul(p, P.Eval(monomials[n - 1], w), evals[n - 1], Pow(x, n - 1), Pow(x, n - 1));
      RedAdd(p, Shared(monomials, x, w, n - 1), P.Eval(evals[..n - 1], x),
             P.Eval(monomials[n - 1], w) * Pow(x, n - 1), evals[n - 1] * Pow(x, n - 1));
    }
  }

  /** On its opening set, a combined polynomial takes the values its evaluations combine to. */
  lemma {:induction false} CombinedAgrees(p: nat, monomials: seq<seq<int>>, c: seq<int>, opening: OpeningSet, z: int,
                                          zs: int, evals: seq<int>, evalsShifted: seq<int>)
    requires opening.Opens(p, z, zs) && |monomials| == opening.n
    requires forall x: int :: CombinedAt(monomials, c, x)
    requires EvaluatedAt(p, monomials, evals, z)
    requires opening.hShifted.Some? ==> EvaluatedAt(p, monomials, evalsShifted, zs)
    ensures Agrees(p, c, opening, evals, evalsShifted)
  {
    var n, pts := opening.n, opening.Pts();
    forall j | 0 <= j < |pts| ensures Red(p, P.Eval(c, pts[j])) == Red(p, opening.Values(evals, evalsShifted)[j]) {
      var x := pts[j];
      assert CombinedAt(monomials, c, x);
      if j < n {
        PowerOfPoint(p, n, opening.h, opening.omega, z, j);
        SharedIsEvaluation(p, monomials, evals, x, Pow(x, n), z, n);
        assert evals[..n] == evals;
      } else {
        PowerOfPoint(p, n, opening.hShifted.value, opening.omega, zs, j - n);
        SharedIsEvaluation(p, monomials, evalsShifted, x, Pow(x, n), zs, n);
        assert evalsShifted[..n] == evalsShifted;
      }
    }
  }

  // ---- The binomials do not vanish outside the sets ----

  lemma {:induction false} CosetIsAllRoots(p: nat, n: nat, h: int, omega: int, z: int, y: int)
    requires Prime(p) && Coset(p, n, h, omega, z) && Outside(p, Points(h, omega, n), y)
    ensures Red(p, Pow(y, n) - z) != 0
  {
    if Red(p, Pow(y, n) - z) == 0 {
      var num, pts := CosetNum(n, h), Points(h, omega, n) + [y];
      CosetNodes(p, n, h, omega, z);
      RedAdd(p, Pow(y, n) - z, 0, z, Pow(h, n));
      RedAdd(p, Pow(y, n), Pow(h, n), Pow(h, n), Pow(h, n));
      CosetNumValue(n, h, y);
      forall i, j | 0 <= i < j < |pts| ensures Red(p, pts[i]) != Red(p, pts[j]) {
        if j < n { assert Distinct(p, Points(h, omega, n)); }
      }
      LeadsWithOne(n, Pow(h, n));
      FewRoots(p, num, pts);
    }
  }

  lemma {:induction false} OutsideDoesNotVanish(p: nat, opening: OpeningSet, z: int, zs: int, y: int)
    requires opening.Opens(p, z, zs) && Outside(p, opening.Pts(), y)
    ensures Red(p, Vanish(opening.Binomials(z, zs), y)) != 0
  {
    var n, pts := opening.n, opening.Pts();
    var a := Points(opening.h, opening.omega, n);
    forall i | 0 <= i < n ensures Red(p, y) != Red(p, a[i]) { assert pts[i] == a[i]; }
    CosetIsAllRoots(p, n, opening.h, opening.omega, z, y);
    match opening.hShifted {
      case None => VanishOne(Sparse(n, z), y);
      case Some(hs) =>
        var b := Points(hs, opening.omega, n);
        forall i | 0 <= i < n ensures Red(p, y) != Red(p, b[i]) { assert pts[n + i] == b[i]; }
        CosetIsAllRoots(p, n, hs, opening.omega, zs, y);
        VanishTwo(Sparse(n, z), Sparse(n, zs), y);
        ZeroProduct(p, Pow(y, n) - z, Pow(y, n) - zs);
        assert opening.Binomials(z, zs) == [Sparse(n, z), Sparse(n, zs)];
    }
  }

  lemma {:induction false} SetupDifferenceDoesNotVanish(p: nat, o0: OpeningSet, o1: OpeningSet, o2: OpeningSet, z: int,
                                                        zs: int, y: int)
    requires o1.Opens(p, z, zs) && o2.Opens(p, z, zs) && Outside(p, o1.Pts(), y) && Outside(p, o2.Pts(), y)
    requires o2.hShifted.Some?
    ensures Red(p, Vanish(ConstructSetDifferenceMonomials(z, zs, o0.n, o1.n, o2.n, o1.hShifted.Some?).setup, y)) != 0
  {
    var bs, cs := o2.Binomials(z, zs), o1.Binomials(z, zs);
    OutsideDoesNotVanish(p, o1, z, zs, y);
    OutsideDoesNotVanish(p, o2, z, zs, y);
    VanishConcat(bs, cs, y);
    ZeroProduct(p, Vanish(bs, y), Vanish(cs, y));
    assert ConstructSetDifferenceMonomials(z, zs, o0.n, o1.n, o2.n, o1.hShifted.Some?).setup == bs + cs;
  }

  // ---- Rounds ----

  /** The polynomials of a round fit its opening set. */
  ghost predicate Fits(p: nat, monomials: seq<seq<int>>, opening: OpeningSet) {
    && |monomials| == opening.n
    && forall j | 0 <= j < |monomials| :: |monomials[j]| > 0 && Reduced(p, monomials[j])
  }

  ghost function CombinedLength(monomials: seq<seq<int>>): int {
    MaxLength(monomials) * |monomials| + |monomials| - 1
  }

  /** What the prover holds of a round. */
  datatype Round = Round(opening: OpeningSet, c: seq<int>, evals: seq<int>, evalsShifted: seq<int>, r: seq<int>) {
    ghost predicate Honest(p: nat, z: int, zs: int) {
      && opening.Opens(p, z, zs) && p % 2 == 1
      && Reduced(p, c) && |c| > 0 && Agrees(p, c, opening, evals, evalsShifted)
      && |evals| > 0 && Reduced(p, evals)
      && (opening.hShifted.Some? ==> |evalsShifted| > 0 && Reduced(p, evalsShifted))
      && Reduced(p, r) && Interpolates(p, r, opening.Pts(), opening.Values(evals, evalsShifted))
    }
  }

  /** The evaluations of a round: `evals` at z and, for a shifted set, `evalsShifted` at zs. */
  ghost predicate EvaluationsOf(p: nat, monomials: seq<seq<int>>, opening: OpeningSet, z: int, zs: int,
                                evals: seq<int>, evalsShifted: seq<int>)
    requires p > 0
  {
    && EvaluatedAt(p, monomials, evals, z) && Reduced(p, evals)
    && if opening.hShifted.Some? then EvaluatedAt(p, monomials, evalsShifted, zs) && Reduced(p, evalsShifted)
       else evalsShifted == []
  }

  method CombineRound(p: nat, monomials: seq<seq<int>>, opening: OpeningSet) returns (c: seq<int>)
    requires p > 0 && opening.n > 0 && Fits(p, monomials, opening)
    ensures Reduced(p, c) && |c| == CombinedLength(monomials) > 0 && forall x: int :: CombinedAt(monomials, c, x)
  {
    c := CombineMixedDegreeMonomials(monomials);
    BlocksInOrder(|monomials|, 0, MaxLength(monomials));
    Commute(|monomials|, MaxLength(monomials));
  }

  method EvaluateOpenings(p: nat, monomials: seq<seq<int>>, opening: OpeningSet, z: int, zs: int)
    returns (evals: seq<int>, evalsShifted: seq<int>)
    requires p > 0 && Fits(p, monomials, opening)
    ensures EvaluationsOf(p, monomials, opening, z, zs, evals, evalsShifted)
  {
    evals := EvaluateAll(p, monomials, z);
    evalsShifted := [];
    if opening.hShifted.Some? {
      evalsShifted := EvaluateAll(p, monomials, zs);
    }
  }

  /** The round is that of these polynomials: their values at z and, for a shifted set, at zs, and the coefficients of
      the sum of x^j * f_j(x^k). */
  ghost predicate RoundOf(p: nat, monomials: seq<seq<int>>, opening: OpeningSet, z: int, zs: int, round: Round)
    requires p > 0
  {
    && round.opening == opening && EvaluationsOf(p, monomials, opening, z, zs, round.evals, round.evalsShifted)
    && |round.c| == CombinedLength(monomials) && forall x: int :: CombinedAt(monomials, round.c, x)
  }

  /** Combines, evaluates and interpolates the polynomials of a round. */
  method PrepareRound(p: nat, monomials: seq<seq<int>>, opening: OpeningSet, z: int, zs: int) returns (round: Round)
    requires opening.Opens(p, z, zs) && p % 2 == 1
    requires Fits(p, monomials, opening)
    ensures round.Honest(p, z, zs) && RoundOf(p, monomials, opening, z, zs, round)
  {
    var c := CombineRound(p, monomials, opening);
    var evals, evalsShifted := EvaluateOpenings(p, monomials, opening, z, zs);
    CombinedAgrees(p, monomials, c, opening, z, zs, evals, evalsShifted);
    var r := InterpolateUnionSet(p, evals, evalsShifted, opening, z, zs);
    round := Round(opening, c, evals, evalsShifted, r);
  }

  /** What a verifier receives of a round. */
  datatype Claim = Claim(opening: OpeningSet, evals: seq<int>, evalsShifted: seq<int>, invs: seq<int>) {
    ghost predicate Wellformed(p: nat) {
      && opening.n > 0 && |invs| == |opening.Pts()| && |evals| > 0 && Reduced(p, evals)
      && (opening.hShifted.Some? ==> |evalsShifted| > 0 && Reduced(p, evalsShifted))
    }

    /** The inverses are those of the round's denominators at y. */
    ghost predicate Inverted(p: nat, y: int)
      requires p > 0
    {
      Inverses(p, opening.Pts(), opening.Ks(), invs, y)
    }
  }

  /** `r` is the barycentric sum of the claimed evaluations. */
  ghost predicate BarycentricAt(p: nat, claim: Claim, y: int, r: int)
    requires p > 0
  {
    exists basis: seq<int> :: BasisAt(p, claim.opening.Num(), claim.opening.Ws(), claim.invs, y, basis)
      && r == Red(p, P.Dot(claim.opening.Values(claim.evals, claim.evalsShifted), basis, |basis|))
  }

  /** The value of r at y from supplied inverses, or none where one of them is refused. */
  method VerifyRound(p: nat, claim: Claim, y: int) returns (r: Option<int>)
    requires p > 1 && claim.Wellformed(p)
    ensures r.Some? <==> claim.Inverted(p, y)
    ensures r.Some? ==> BarycentricAt(p, claim, y, r.value)
  {
    var basis := PrecomputeLagrangeBasisEvaluationsFromInverses(p, claim.opening, claim.invs, y);
    if basis.None? {
      return None;
    }
    var value := EvaluateR(p, claim.opening, claim.evals, claim.evalsShifted, basis.value);
    r := Some(value);
  }

  ghost predicate ClaimOf(claim: Claim, round: Round) {
    claim.opening == round.opening && claim.evals == round.evals && claim.evalsShifted == round.evalsShifted
  }

  /** The verifier's value is that of the polynomial the prover interpolated. */
  lemma {:induction false} VerifiedRound(p: nat, round: Round, claim: Claim, y: int, r: int, z: int, zs: int)
    requires round.Honest(p, z, zs) && ClaimOf(claim, round) && claim.Inverted(p, y) && BarycentricAt(p, claim, y, r)
    ensures r == Red(p, P.Eval(round.r, y))
  {
    var basis :| BasisAt(p, claim.opening.Num(), claim.opening.Ws(), claim.invs, y, basis)
      && r == Red(p, P.Dot(claim.opening.Values(claim.evals, claim.evalsShifted), basis, |basis|));
    EvaluationsAgree(p, round.opening, z, zs, round.evals, round.evalsShifted, claim.invs, basis, y, round.r);
  }

  /** The prover's inverses for a round, or none if y is one of its points; and the value of r at y he uses. */
  method EvaluateRound(p: nat, round: Round, y: int, ghost z: int, ghost zs: int)
    returns (claim: Option<Claim>, rAtY: int)
    requires round.Honest(p, z, zs)
    ensures claim.Some? <==> Outside(p, round.opening.Pts(), y)
    ensures claim.Some? ==> ClaimOf(claim.value, round) && claim.value.Wellformed(p) && claim.value.Inverted(p, y)
    ensures claim.Some? ==> rAtY == Red(p, P.Eval(round.r, y))
  {
    rAtY := 0;
    var inverses := ComputeLagrangeBasisInverses(p, round.opening, y, z, zs);
    if inverses.None? {
      claim := None;
      return;
    }
    var sent := Claim(round.opening, round.evals, round.evalsShifted, inverses.value);
    var rs := VerifyRound(p, sent, y);
    rAtY := rs.value;
    VerifiedRound(p, round, sent, y, rAtY, z, zs);
    claim := Some(sent);
  }

  // ---- The protocol ----

  /** The sizes that the length assertions of `sub_assign`, `add_assign` and `add_assign_scaled`, and the degrees
      that the divisions subtract, insist on: of combined polynomials of l0, l1 and l2 coefficients, opened at n0,
      n1 and n2 points. */
  ghost predicate SizesFit(n0: nat, n1: nat, n2: nat, l0: int, l1: int, l2: int, d: Differences) {
    && n0 <= l0 && n1 <= l1 && n2 <= l2
    && l0 + Degree(d.setup) <= Max3(l0, l1, l2) + Degree(d.firstRound)
    && l2 + Degree(d.secondRound) <= Max3(l0, l1, l2) + Degree(d.firstRound)
    && Degree(d.all) < Max3(l0, l1, l2) + Degree(d.firstRound)
  }

  ghost function DifferencesOf(o0: OpeningSet, o1: OpeningSet, o2: OpeningSet, z: int, zs: int): Differences {
    ConstructSetDifferenceMonomials(z, zs, o0.n, o1.n, o2.n, o1.hShifted.Some?)
  }

  ghost predicate Proved(p: nat, d: Differences, s0: Round, s1: Round, s2: Round, w: seq<int>, alpha: int)
    requires p > 0
  {
    && Reduced(p, w) && CongAt(p, NumeratorOf(p, d, s0, s1, s2, alpha), TimesAll(w, d.all))
    && forall x: int :: WholeAt(p, d, w, s0.c, s1.c, s2.c, s0.r, s1.r, s2.r, alpha, Red(p, alpha * alpha), x)
  }

  ghost function NumeratorOf(p: nat, d: Differences, s0: Round, s1: Round, s2: Round, alpha: int): seq<int>
    requires p > 0
  {
    Numerator(d, Excess(p, s0.c, s0.r), Excess(p, s1.c, s1.r), Excess(p, s2.c, s2.r), alpha, Red(p, alpha * alpha))
  }

  ghost predicate LengthFits(n: nat, a: nat, b: nat, c: nat) {
    n == a || n == b || n == c
  }

  lemma {:induction false} CombinationLength(q0: seq<int>, q1: seq<int>, q2: seq<int>, alpha: int, alpha2: int)
    ensures LengthFits(|Combination(q0, q1, q2, alpha, alpha2)|, |q0|, |q1|, |q2|)
  {
  }

  lemma FitsInF(g: nat, all: nat, c0: nat, c1: nat, c2: nat, d0: nat, d1: nat, d2: nat)
    requires LengthFits(g + all, c0 + d0, c1 + d1, c2 + d2)
    requires c0 + d0 <= Max3(c0, c1, c2) + d1 && c2 + d2 <= Max3(c0, c1, c2) + d1
    ensures g + all <= Max3(c0, c1, c2) + d1
  {
  }

  ghost predicate Subtractable(s0: Round, s1: Round, s2: Round) {
    |s0.r| <= |s0.c| && |s1.r| <= |s1.c| && |s2.r| <= |s2.c|
  }

  /** The sum over the rounds is a multiple of all the binomials. */
  lemma {:induction false} NumeratorIsMultiple(p: nat, s0: Round, s1: Round, s2: Round, z: int, zs: int, alpha: int)
    returns (g: seq<int>)
    requires s0.Honest(p, z, zs) && s1.Honest(p, z, zs) && s2.Honest(p, z, zs)
    requires s0.opening.hShifted.None? && s2.opening.hShifted.Some? && Subtractable(s0, s1, s2)
    ensures var d := DifferencesOf(s0.opening, s1.opening, s2.opening, z, zs);
            CongAt(p, NumeratorOf(p, d, s0, s1, s2, alpha), TimesAll(g, d.all))
    ensures var d := DifferencesOf(s0.opening, s1.opening, s2.opening, z, zs);
            LengthFits(|g| + Degree(d.all), |s0.c| + Degree(d.setup), |s1.c| + Degree(d.firstRound),
                       |s2.c| + Degree(d.secondRound))
  {
    var d := DifferencesOf(s0.opening, s1.opening, s2.opening, z, zs);
    DifferencesSplit(s0.opening, s1.opening, s2.opening, z, zs);
    var q0 := ExcessDivides(p, s0.c, s0.r, s0.opening, s0.evals, s0.evalsShifted, z, zs);
    var q1 := ExcessDivides(p, s1.c, s1.r, s1.opening, s1.evals, s1.evalsShifted, z, zs);
    var q2 := ExcessDivides(p, s2.c, s2.r, s2.opening, s2.evals, s2.evalsShifted, z, zs);
    g := Combination(q0, q1, q2, alpha, Red(p, alpha * alpha));
    CombinationLength(q0, q1, q2, alpha, Red(p, alpha * alpha));
    NumeratorDivides(p, d, s0.opening.Binomials(z, zs), s1.opening.Binomials(z, zs), s2.opening.Binomials(z, zs),
                     Excess(p, s0.c, s0.r), Excess(p, s1.c, s1.r), Excess(p, s2.c, s2.r), q0, q1, q2, alpha,
                     Red(p, alpha * alpha));
  }

  lemma {:induction false} QuotientProves(p: nat, d: Differences, s0: Round, s1: Round, s2: Round, f: seq<int>,
                                          w: seq<int>, alpha: int)
    requires p > 0 && Reduced(p, w) && CongAt(p, f, NumeratorOf(p, d, s0, s1, s2, alpha))
    requires CongAt(p, f, TimesAll(w, d.all))
    ensures Proved(p, d, s0, s1, s2, w, alpha)
  {
    var num, a2 := NumeratorOf(p, d, s0, s1, s2, alpha), Red(p, alpha * alpha);
    CongAtSym(p, f, num);
    CongAtTrans(p, num, f, TimesAll(w, d.all));
    forall x: int ensures WholeAt(p, d, w, s0.c, s1.c, s2.c, s0.r, s1.r, s2.r, alpha, a2, x) {
      WholeValue(p, d, w, s0.c, s1.c, s2.c, s0.r, s1.r, s2.r, alpha, a2, x);
    }
  }

  ghost predicate Prepared(p: nat, s: Round) {
    Reduced(p, s.c) && Reduced(p, s.r)
  }

  /** The sum over the rounds, divided by all the binomials. */
  method DivideOut(p: nat, d: Differences, s0: Round, s1: Round, s2: Round, alpha: int, ghost g: seq<int>)
    returns (first: Option<seq<int>>)
    requires p > 1 && Prepared(p, s0) && Prepared(p, s1) && Prepared(p, s2)
    requires AllPositive(d.setup) && AllPositive(d.firstRound) && AllPositive(d.secondRound) && AllPositive(d.all)
    requires |d.setup| > 0 && |d.firstRound| > 0 && |d.secondRound| > 0 && |d.all| > 0
    requires Subtractable(s0, s1, s2) ==> CongAt(p, NumeratorOf(p, d, s0, s1, s2, alpha), TimesAll(g, d.all))
    requires Subtractable(s0, s1, s2) ==>
      LengthFits(|g| + Degree(d.all), |s0.c| + Degree(d.setup), |s1.c| + Degree(d.firstRound),
                 |s2.c| + Degree(d.secondRound))
    ensures first.Some? <==> SizesFit(|s0.r|, |s1.r|, |s2.r|, |s0.c|, |s1.c|, |s2.c|, d)
    ensures first.Some? ==> Proved(p, d, s0, s1, s2, first.value, alpha)
    ensures first.Some? ==> |first.value| == Max3(|s0.c|, |s1.c|, |s2.c|) + Degree(d.firstRound) - Degree(d.all)
  {
    var sum := ComputeF(p, d, s0.c, s1.c, s2.c, s0.r, s1.r, s2.r, alpha, Red(p, alpha * alpha));
    if sum.None? {
      return None;
    }
    var f := sum.value;
    FitsInF(|g|, Degree(d.all), |s0.c|, |s1.c|, |s2.c|, Degree(d.setup), Degree(d.firstRound), Degree(d.secondRound));
    CongAtTrans(p, f.coeffs, NumeratorOf(p, d, s0, s1, s2, alpha), TimesAll(g, d.all));
    first := ComputeW(p, d, f, g);
    if first.Some? {
      QuotientProves(p, d, s0, s1, s2, f.coeffs, first.value, alpha);
    }
  }

  /** The first message, W: all divisions are exact.  None exactly where the sizes do not fit. */
  method ProveFirst(p: nat, s0: Round, s1: Round, s2: Round, z: int, zs: int, alpha: int)
    returns (first: Option<seq<int>>)
    requires s0.Honest(p, z, zs) && s1.Honest(p, z, zs) && s2.Honest(p, z, zs)
    requires s0.opening.hShifted.None? && s2.opening.hShifted.Some?
    ensures first.Some? <==>
      SizesFit(|s0.opening.Pts()|, |s1.opening.Pts()|, |s2.opening.Pts()|, |s0.c|, |s1.c|, |s2.c|,
               DifferencesOf(s0.opening, s1.opening, s2.opening, z, zs))
    ensures first.Some? ==> Proved(p, DifferencesOf(s0.opening, s1.opening, s2.opening, z, zs), s0, s1, s2, first.value,
                                   alpha)
    ensures first.Some? ==> |first.value| <= Max3(|s0.c|, |s1.c|, |s2.c|)
    ensures first.Some? ==>
      var d := DifferencesOf(s0.opening, s1.opening, s2.opening, z, zs);
      |first.value| == Max3(|s0.c|, |s1.c|, |s2.c|) + Degree(d.firstRound) - Degree(d.all)
  {
    var d := ConstructSetDifferenceMonomials(z, zs, s0.opening.n, s1.opening.n, s2.opening.n,
                                             s1.opening.hShifted.Some?);
    ghost var g := [];
    if Subtractable(s0, s1, s2) {
      g := NumeratorIsMultiple(p, s0, s1, s2, z, zs, alpha);
    }
    DifferencesSplit(s0.opening, s1.opening, s2.opening, z, zs);
    first := DivideOut(p, d, s0, s1, s2, alpha, g);
  }

  lemma {:induction false} CongAtSym(p: nat, f: seq<int>, g: seq<int>)
    requires p > 0 && CongAt(p, f, g)
    ensures CongAt(p, g, f)
  {
  }

  /** L vanishes at y. */
  lemma {:induction false} LinearVanishes(p: nat, d: Differences, s0: Round, s1: Round, s2: Round, w: seq<int>,
                                          alpha: int, y: int, r0: int, r1: int, r2: int, l: seq<int>)
    requires p > 0 && Proved(p, d, s0, s1, s2, w, alpha)
    requires Red(p, r0) == Red(p, P.Eval(s0.r, y)) && Red(p, r1) == Red(p, P.Eval(s1.r, y))
    requires Red(p, r2) == Red(p, P.Eval(s2.r, y))
    requires LinearAt(p, d, y, alpha, Red(p, alpha * alpha), s0.c, s1.c, s2.c, w, r0, r1, r2, l, y)
    ensures Red(p, P.Eval(l, y)) == 0
  {
    var a2 := Red(p, alpha * alpha);
    assert WholeAt(p, d, w, s0.c, s1.c, s2.c, s0.r, s1.r, s2.r, alpha, a2, y);
    LinearCancels(p, Vanish(d.setup, y), Vanish(d.firstRound, y), Vanish(d.secondRound, y), Vanish(d.all, y), alpha, a2,
                  P.Eval(s0.c, y), P.Eval(s1.c, y), P.Eval(s2.c, y), P.Eval(w, y),
                  r0, r1, r2, P.Eval(s0.r, y), P.Eval(s1.r, y), P.Eval(s2.r, y));
  }

  lemma {:induction false} LinearCancels(p: nat, v0: int, v1: int, v2: int, vt: int, a: int, a2: int, c0: int, c1: int,
                                         c2: int, w: int, r0: int, r1: int, r2: int, q0: int, q1: int, q2: int)
    requires p > 0 && Red(p, r0) == Red(p, q0) && Red(p, r1) == Red(p, q1) && Red(p, r2) == Red(p, q2)
    requires Red(p, w * vt) == Red(p, (c0 - q0) * v0 + a * ((c1 - q1) * v1) + a2 * ((c2 - q2) * v2))
    ensures Red(p, v0 * (c0 - r0) + (a * v1) * (c1 - r1) + (a2 * v2) * (c2 - r2) - vt * w) == 0
  {
    Share(p, 1, v0, c0, r0, q0);
    Share(p, a, v1, c1, r1, q1);
    Share(p, a2, v2, c2, r2, q2);
    assert (1 * v0) * (c0 - r0) == v0 * (c0 - r0) && 1 * ((c0 - q0) * v0) == (c0 - q0) * v0;
    RedAdd(p, v0 * (c0 - r0), (c0 - q0) * v0, (a * v1) * (c1 - r1), a * ((c1 - q1) * v1));
    RedAdd(p, v0 * (c0 - r0) + (a * v1) * (c1 - r1), (c0 - q0) * v0 + a * ((c1 - q1) * v1), (a2 * v2) * (c2 - r2),
           a2 * ((c2 - q2) * v2));
    Commute(w, vt);
    RedAdd(p, v0 * (c0 - r0) + (a * v1) * (c1 - r1) + (a2 * v2) * (c2 - r2), w * vt, w * vt, w * vt);
  }

  lemma {:induction false} Share(p: nat, a: int, v: int, c: int, r: int, q: int)
    requires p > 0 && Red(p, r) == Red(p, q)
    ensures Red(p, (a * v) * (c - r)) == Red(p, a * ((c - q) * v))
  {
    RedAdd(p, c, c, r, q);
    RedMul(p, a * v, a * v, c - r, c - q);
    Associate(a, v, c - q);
    Commute(v, c - q);
  }

  /** Z(y) W'(s) (s - y) = L(s). */
  ghost predicate EquationHolds(p: nat, d: Differences, c0: int, c1: int, c2: int, w: int, wPrime: int, s: int,
                                alpha: int, y: int, r0: int, r1: int, r2: int)
    requires p > 0
  {
    Red(p, Vanish(d.setup, y) * (wPrime * (s - y)))
      == Red(p, Linear(d, y, alpha, Red(p, alpha * alpha), c0, c1, c2, w, r0, r1, r2))
  }

  /** The equation the verifier checks holds at `s`. */
  ghost predicate Opened(p: nat, d: Differences, s0: Round, s1: Round, s2: Round, w: seq<int>, wPrime: seq<int>,
                         alpha: int, y: int, s: int)
    requires p > 0
  {
    EquationHolds(p, d, P.Eval(s0.c, s), P.Eval(s1.c, s), P.Eval(s2.c, s), P.Eval(w, s), P.Eval(wPrime, s), s, alpha, y,
                  Red(p, P.Eval(s0.r, y)), Red(p, P.Eval(s1.r, y)), Red(p, P.Eval(s2.r, y)))
  }

  /** What the prover sends last: W' and the inverses with the evaluations. */
  datatype SecondMessage = SecondMessage(wPrime: seq<int>, claim0: Claim, claim1: Claim, claim2: Claim) {
    ghost predicate Honest(p: nat, d: Differences, s0: Round, s1: Round, s2: Round, w: seq<int>, alpha: int, y: int)
      requires p > 0
    {
      && ClaimOf(claim0, s0) && claim0.Wellformed(p) && claim0.Inverted(p, y)
      && ClaimOf(claim1, s1) && claim1.Wellformed(p) && claim1.Inverted(p, y)
      && ClaimOf(claim2, s2) && claim2.Wellformed(p) && claim2.Inverted(p, y)
      && Red(p, Vanish(d.setup, y)) != 0
      && Reduced(p, wPrime) && |wPrime| == Max3(|s0.c|, |s1.c|, |s2.c|) - 1
      && forall s: int :: Opened(p, d, s0, s1, s2, w, wPrime, alpha, y, s)
    }
  }

  /** The second message; none exactly where y is a point of some opening set, whose denominators have no inverses. */
  method ProveSecond(p: nat, s0: Round, s1: Round, s2: Round, w: seq<int>, z: int, zs: int, alpha: int, y: int)
    returns (second: Option<SecondMessage>)
    requires s0.Honest(p, z, zs) && s1.Honest(p, z, zs) && s2.Honest(p, z, zs) && s2.opening.hShifted.Some?
    requires |w| <= Max3(|s0.c|, |s1.c|, |s2.c|)
    requires Proved(p, DifferencesOf(s0.opening, s1.opening, s2.opening, z, zs), s0, s1, s2, w, alpha)
    ensures second.Some? <==>
      Outside(p, s0.opening.Pts(), y) && Outside(p, s1.opening.Pts(), y) && Outside(p, s2.opening.Pts(), y)
    ensures second.Some? ==>
      second.value.Honest(p, DifferencesOf(s0.opening, s1.opening, s2.opening, z, zs), s0, s1, s2, w, alpha, y)
  {
    var d := ConstructSetDifferenceMonomials(z, zs, s0.opening.n, s1.opening.n, s2.opening.n,
                                             s1.opening.hShifted.Some?);
    var claim0, r0 := EvaluateRound(p, s0, y, z, zs);
    var claim1, r1 := EvaluateRound(p, s1, y, z, zs);
    var claim2, r2 := EvaluateRound(p, s2, y, z, zs);
    if claim0.None? || claim1.None? || claim2.None? {
      return None;
    }
    var alphaSquared := Red(p, alpha * alpha);
    var l := ComputeL(p, d, s0.c, s1.c, s2.c, w, r0, r1, r2, alpha, alphaSquared, y);
    SetupDifferenceDoesNotVanish(p, s0.opening, s1.opening, s2.opening, z, zs, y);
    var quotient := ComputeWPrime(p, d, l, y);
    AllOpened(p, d, s0, s1, s2, w, quotient.value, alpha, y, r0, r1, r2, l.coeffs);
    second := Some(SecondMessage(quotient.value, claim0.value, claim1.value, claim2.value));
  }

  lemma {:induction false} AllOpened(p: nat, d: Differences, s0: Round, s1: Round, s2: Round, w: seq<int>,
                                     wPrime: seq<int>, alpha: int, y: int, r0: int, r1: int, r2: int, l: seq<int>)
    requires p > 0 && Proved(p, d, s0, s1, s2, w, alpha)
    requires r0 == Red(p, P.Eval(s0.r, y)) && r1 == Red(p, P.Eval(s1.r, y)) && r2 == Red(p, P.Eval(s2.r, y))
    requires forall x: int :: LinearAt(p, d, y, alpha, Red(p, alpha * alpha), s0.c, s1.c, s2.c, w, r0, r1, r2, l, x)
    requires forall x: int :: PrimeAt(p, Vanish(d.setup, y), wPrime, l, y, x)
    ensures forall s: int :: Opened(p, d, s0, s1, s2, w, wPrime, alpha, y, s)
  {
    var a2 := Red(p, alpha * alpha);
    assert LinearAt(p, d, y, alpha, a2, s0.c, s1.c, s2.c, w, r0, r1, r2, l, y);
    RedRed(p, P.Eval(s0.r, y));
    RedRed(p, P.Eval(s1.r, y));
    RedRed(p, P.Eval(s2.r, y));
    LinearVanishes(p, d, s0, s1, s2, w, alpha, y, r0, r1, r2, l);
    forall s: int ensures Opened(p, d, s0, s1, s2, w, wPrime, alpha, y, s) {
      assert PrimeAt(p, Vanish(d.setup, y), wPrime, l, y, s);
      assert LinearAt(p, d, y, alpha, a2, s0.c, s1.c, s2.c, w, r0, r1, r2, l, s);
      Subtracted(p, Vanish(d.setup, y) * (P.Eval(wPrime, s) * (s - y)), P.Eval(l, s), P.Eval(l, y),
                 Linear(d, y, alpha, a2, P.Eval(s0.c, s), P.Eval(s1.c, s), P.Eval(s2.c, s), P.Eval(w, s), r0, r1, r2));
    }
  }

  lemma {:induction false} Subtracted(p: nat, u: int, ls: int, ly: int, linear: int)
    requires p > 0 && Red(p, u) == Red(p, ls - ly) && Red(p, ly) == 0 && Red(p, ls) == Red(p, linear)
    ensures Red(p, u) == Red(p, linear)
  {
    RedAdd(p, ls, linear, ly, 0);
  }

  /** The verifier accepts exactly the values that satisfy the opening equation. */
  ghost predicate Checked(p: nat, d: Differences, claim0: Claim, claim1: Claim, claim2: Claim, c0: int, c1: int,
                          c2: int, w: int, wPrime: int, s: int, alpha: int, y: int, r0: int, r1: int, r2: int,
                          valid: bool)
    requires p > 0
  {
    && BarycentricAt(p, claim0, y, r0) && BarycentricAt(p, claim1, y, r1) && BarycentricAt(p, claim2, y, r2)
    && (valid <==> EquationHolds(p, d, c0, c1, c2, w, wPrime, s, alpha, y, r0, r1, r2))
  }

  /** The verifier, with every commitment given by its value at the hidden point `s`. */
  method Verify(p: nat, claim0: Claim, claim1: Claim, claim2: Claim, c0: int, c1: int, c2: int, w: int, wPrime: int,
                s: int, z: int, zs: int, alpha: int, y: int)
    returns (valid: Option<bool>, ghost r0: int, ghost r1: int, ghost r2: int)
    requires Prime(p) && p % 2 == 1 && claim0.Wellformed(p) && claim1.Wellformed(p) && claim2.Wellformed(p)
    ensures valid.Some? <==>
      && claim0.Inverted(p, y) && claim1.Inverted(p, y) && claim2.Inverted(p, y)
      && Red(p, Vanish(DifferencesOf(claim0.opening, claim1.opening, claim2.opening, z, zs).setup, y)) != 0
    ensures valid.Some? ==> Checked(p, DifferencesOf(claim0.opening, claim1.opening, claim2.opening, z, zs), claim0,
                                    claim1, claim2,
                                    c0, c1, c2, w, wPrime, s, alpha, y, r0, r1, r2, valid.value)
  {
    r0, r1, r2 := 0, 0, 0;
    var v0 := VerifyRound(p, claim0, y);
    var v1 := VerifyRound(p, claim1, y);
    var v2 := VerifyRound(p, claim2, y);
    if v0.None? || v1.None? || v2.None? {
      valid := None;
      return;
    }
    r0, r1, r2 := v0.value, v1.value, v2.value;
    var o0, o1, o2 := claim0.opening, claim1.opening, claim2.opening;
    var d := ConstructSetDifferenceMonomials(z, zs, o0.n, o1.n, o2.n, o1.hShifted.Some?);
    valid := AggregatePointsAndCheckPairing(p, d, c0, c1, c2, w, wPrime, s, v0.value, v1.value, v2.value, alpha, y);
  }

  /** The verifier accepts the values at `s` of what the prover committed to. */
  method VerifyHonest(p: nat, s0: Round, s1: Round, s2: Round, w: seq<int>, second: SecondMessage, z: int, zs: int,
                      alpha: int, y: int, s: int)
    returns (valid: Option<bool>, ghost r0: int, ghost r1: int, ghost r2: int)
    requires s0.Honest(p, z, zs) && s1.Honest(p, z, zs) && s2.Honest(p, z, zs)
    requires second.Honest(p, DifferencesOf(s0.opening, s1.opening, s2.opening, z, zs), s0, s1, s2, w, alpha, y)
    ensures valid == Some(true)
    ensures Checked(p, DifferencesOf(s0.opening, s1.opening, s2.opening, z, zs), second.claim0, second.claim1,
                    second.claim2, P.Eval(s0.c, s), P.Eval(s1.c, s), P.Eval(s2.c, s), P.Eval(w, s),
                    P.Eval(second.wPrime, s), s, alpha, y, r0, r1, r2, true)
  {
    valid, r0, r1, r2 := Verify(p, second.claim0, second.claim1, second.claim2, P.Eval(s0.c, s), P.Eval(s1.c, s),
                                P.Eval(s2.c, s), P.Eval(w, s), P.Eval(second.wPrime, s), s, z, zs, alpha, y);
    VerifiedRound(p, s0, second.claim0, y, r0, z, zs);
    VerifiedRound(p, s1, second.claim1, y, r1, z, zs);
    VerifiedRound(p, s2, second.claim2, y, r2, z, zs);
    assert Opened(p, DifferencesOf(s0.opening, s1.opening, s2.opening, z, zs), s0, s1, s2, w, second.wPrime, alpha, y,
                  s);
  }

  /** A whole run: what the prover holds of the rounds and sends, and the values r0, r1 and r2 at y that the verifier
      works out from it. */
  datatype Run = Run(s0: Round, s1: Round, s2: Round, w: seq<int>, second: SecondMessage, r0: int, r1: int, r2: int) {
    /** Every message is that of the honest prover for the given polynomials, and the verifier has checked the
        opening equation on the values at `s` of the committed polynomials. */
    ghost predicate Opens(p: nat, m0: seq<seq<int>>, m1: seq<seq<int>>, m2: seq<seq<int>>, o0: OpeningSet,
                          o1: OpeningSet, o2: OpeningSet, z: int, zs: int, alpha: int, y: int, s: int)
      requires p > 0
    {
      var d := DifferencesOf(o0, o1, o2, z, zs);
      && RoundOf(p, m0, o0, z, zs, s0) && RoundOf(p, m1, o1, z, zs, s1) && RoundOf(p, m2, o2, z, zs, s2)
      && s0.Honest(p, z, zs) && s1.Honest(p, z, zs) && s2.Honest(p, z, zs)
      && Proved(p, d, s0, s1, s2, w, alpha) && second.Honest(p, d, s0, s1, s2, w, alpha, y)
      && Checked(p, d, second.claim0, second.claim1, second.claim2, P.Eval(s0.c, s), P.Eval(s1.c, s), P.Eval(s2.c, s),
                 P.Eval(w, s), P.Eval(second.wPrime, s), s, alpha, y, r0, r1, r2, true)
    }
  }

  /** An honest prover gets through exactly when the sizes fit and y is no point of the opening sets, and is then
      accepted: for all polynomials, challenges and hidden points s. */
  method Complete(p: nat, m0: seq<seq<int>>, m1: seq<seq<int>>, m2: seq<seq<int>>, o0: OpeningSet, o1: OpeningSet,
                  o2: OpeningSet, z: int, zs: int, alpha: int, y: int, s: int)
    returns (valid: Option<bool>, ghost run: Option<Run>)
    requires o0.Opens(p, z, zs) && o1.Opens(p, z, zs) && o2.Opens(p, z, zs) && p % 2 == 1
    requires o0.hShifted.None? && o2.hShifted.Some?
    requires Fits(p, m0, o0) && Fits(p, m1, o1) && Fits(p, m2, o2)
    ensures valid.Some? <==>
      && SizesFit(|o0.Pts()|, |o1.Pts()|, |o2.Pts()|, CombinedLength(m0), CombinedLength(m1), CombinedLength(m2),
                  DifferencesOf(o0, o1, o2, z, zs))
      && Outside(p, o0.Pts(), y) && Outside(p, o1.Pts(), y) && Outside(p, o2.Pts(), y)
    ensures valid.Some? ==> valid.value && run.Some? && run.value.Opens(p, m0, m1, m2, o0, o1, o2, z, zs, alpha, y, s)
  {
    run := None;
    var s0 := PrepareRound(p, m0, o0, z, zs);
    var s1 := PrepareRound(p, m1, o1, z, zs);
    var s2 := PrepareRound(p, m2, o2, z, zs);
    var first := ProveFirst(p, s0, s1, s2, z, zs, alpha);
    if first.None? {
      valid := None;
      return;
    }
    var second := ProveSecond(p, s0, s1, s2, first.value, z, zs, alpha, y);
    if second.None? {
      valid := None;
      return;
    }
    ghost var r0, r1, r2;
    valid, r0, r1, r2 := VerifyHonest(p, s0, s1, s2, first.value, second.value, z, zs, alpha, y, s);
    run := Some(Run(s0, s1, s2, first.value, second.value, r0, r1, r2));
  }
}
