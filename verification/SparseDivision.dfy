/** The sparse divisions of crates/fflonk/src/utils.rs, exactly when they run off the end, and the
    proof that they undo the sparse products. */
module SparseDivision {
  import opened Outcomes
  import opened Modular
  import opened SparsePolynomials
  import opened SparseArithmetic
  import P = Polynomials

  /** Division steps past the lowest quotient coefficient when that one is zero, and then meets a
      coefficient that is not zero. */
  ghost predicate RunsOff(p: nat, f: seq<int>, d: nat, c: int)
    requires p > 0 && d > 0
  {
    Red(p, QuotientAt(f, d, c, 0)) == 0 && !Exact(p, f, d, c)
  }

  /** Whatever the binomial, the division runs off on the constant one written with leading zeros. */
  lemma {:induction false} ConstantRunsOff(p: nat, d: nat, c: int)
    requires p > 1 && d > 0
    ensures RunsOff(p, [1] + seq(d, _ => 0), d, c)
  {
    var f := [1] + seq(d, _ => 0);
    assert c * 0 == 0;
    assert QuotientAt(f, d, c, d) == 0 && QuotientAt(f, d, c, 0) == f[d] + c * QuotientAt(f, d, c, d);
    assert Red(p, RemainderAt(f, d, c, 0)) == 1;
  }

  /** The carried part of the coefficient of x^k, once every degree above `cur` is done. */
  ghost predicate Carried(p: nat, f: seq<int>, d: nat, c: int, cur: int, t: int, k: nat)
    requires p > 0 && d > 0
  {
    t == if cur < k + d < |f| then Red(p, -(c * QuotientAt(f, d, c, k))) else 0
  }

  /** The quotient coefficient of x^j, once every degree above `cur` is done. */
  ghost predicate Found(p: nat, f: seq<int>, d: nat, c: int, cur: int, q: int, j: nat)
    requires p > 0 && d > 0
  {
    q == if cur < j + d then Red(p, QuotientAt(f, d, c, j)) else 0
  }

  lemma {:induction false} LeadIs(p: nat, f: seq<int>, d: nat, c: int, cur: nat, t: int, lead: int)
    requires p > 0 && d > 0 && cur < |f| && Carried(p, f, d, c, cur, t, cur) && lead == Red(p, f[cur] - t)
    ensures lead == Red(p, f[cur] + c * QuotientAt(f, d, c, cur))
    ensures lead == Red(p, if cur >= d then QuotientAt(f, d, c, cur - d) else RemainderAt(f, d, c, cur))
  {
    var q := QuotientAt(f, d, c, cur);
    if cur + d < |f| {
      RedRed(p, -(c * q));
      RedAdd(p, f[cur], f[cur], t, -(c * q));
    } else {
      assert c * 0 == 0;
    }
  }

  lemma {:induction false} CarryIs(p: nat, c: int, q: int, lead: int, minus: int)
    requires p > 0 && lead == Red(p, q) && minus == Red(p, -c)
    ensures Red(p, lead * minus) == Red(p, -(c * q)) && (lead == 0 ==> Red(p, -(c * q)) == 0)
  {
    RedRed(p, q);
    RedRed(p, -c);
    RedMul(p, lead, q, minus, -c);
    Negated(c, q);
    assert 0 * minus == 0;
  }

  /** The quotient by x^divisorDegree - point, or none where the loop of
      divide_by_higher_degree_term would index below zero. */
  method DivideByHigherDegreeTerm(p: nat, poly: seq<int>, divisorDegree: nat, point: int) returns (r: Option<seq<int>>)
    requires p > 0 && 0 < divisorDegree < |poly|
    ensures r.None? <==> RunsOff(p, poly, divisorDegree, point)
    ensures r.Some? ==> r.value == ReducedAll(p, SparseQuotient(poly, divisorDegree, point))
  {
    var d := divisorDegree;
    var dividendDegree := |poly| - 1;
    var quotientDegree := dividendDegree - d;
    var tmp: seq<int> := seq(|poly|, _ => 0);
    var quotient: seq<int> := seq(quotientDegree + 1, _ => 0);
    var minusPoint := Red(p, -point);
    for pos := 0 to |poly|
      invariant |tmp| == |poly| && |quotient| == quotientDegree + 1
      invariant forall k: nat | k <= dividendDegree - pos :: Carried(p, poly, d, point, dividendDegree - pos, tmp[k], k)
      invariant forall j: nat | j < |quotient| :: Found(p, poly, d, point, dividendDegree - pos, quotient[j], j)
      invariant dividendDegree - pos < d ==> Red(p, QuotientAt(poly, d, point, 0)) == 0
      invariant forall k: nat | dividendDegree - pos < k < d :: Red(p, RemainderAt(poly, d, point, k)) == 0
    {
      var curDegree := dividendDegree - pos;
      var leadCoeff := Red(p, poly[curDegree] - tmp[curDegree]);
      LeadIs(p, poly, d, point, curDegree, tmp[curDegree], leadCoeff);
      tmp := tmp[curDegree := 0];
      if curDegree >= d { CarryIs(p, point, QuotientAt(poly, d, point, curDegree - d), leadCoeff, minusPoint); }
      if leadCoeff == 0 {
        continue;
      }
      if curDegree < d {
        return None;
      }
      var curQuotientDegree := curDegree - d;
      quotient := quotient[curQuotientDegree := leadCoeff];
      tmp := tmp[curQuotientDegree := Red(p, leadCoeff * minusPoint)];
      if curDegree == d {
        break;
      }
    }
    r := Some(quotient);
  }

  /** No division of the list runs off. */
  ghost predicate Completes(p: nat, f: seq<int>, pairs: seq<Sparse>)
    requires p > 0 && AllPositive(pairs) && |f| >= Degree(pairs)
    decreases |pairs|
  {
    |pairs| == 0 || (!RunsOff(p, f, pairs[0].degree, pairs[0].c)
      && Completes(p, SparseQuotient(f, pairs[0].degree, pairs[0].c), pairs[1..]))
  }

  lemma {:induction false} ExactCompletes(p: nat, f: seq<int>, pairs: seq<Sparse>)
    requires p > 0 && AllPositive(pairs) && |f| >= Degree(pairs) && AllExact(p, f, pairs)
    ensures Completes(p, f, pairs)
    decreases |pairs|
  {
    if |pairs| > 0 { ExactCompletes(p, SparseQuotient(f, pairs[0].degree, pairs[0].c), pairs[1..]); }
  }

  lemma {:induction false} SparseQuotientCong(p: nat, f: seq<int>, g: seq<int>, d: nat, c: int)
    requires p > 0 && 0 < d <= |f| && P.Cong(p, f, g)
    ensures P.Cong(p, SparseQuotient(f, d, c), SparseQuotient(g, d, c))
    ensures RunsOff(p, f, d, c) == RunsOff(p, g, d, c)
  {
    forall j: nat ensures Red(p, QuotientAt(f, d, c, j)) == Red(p, QuotientAt(g, d, c, j)) {
      QuotientCong(p, f, g, d, c, j);
    }
    forall k: nat | k < d ensures Red(p, RemainderAt(f, d, c, k)) == Red(p, RemainderAt(g, d, c, k)) {
      RedMul(p, c, c, QuotientAt(f, d, c, k), QuotientAt(g, d, c, k));
      RedAdd(p, P.At(f, k), P.At(g, k), c * QuotientAt(f, d, c, k), c * QuotientAt(g, d, c, k));
    }
  }

  lemma {:induction false} DivideAllCong(p: nat, f: seq<int>, g: seq<int>, pairs: seq<Sparse>)
    requires p > 0 && AllPositive(pairs) && |f| >= Degree(pairs) && P.Cong(p, f, g)
    ensures P.Cong(p, DivideAll(f, pairs), DivideAll(g, pairs)) && Completes(p, f, pairs) == Completes(p, g, pairs)
    decreases |pairs|
  {
    if |pairs| > 0 {
      var d, c := pairs[0].degree, pairs[0].c;
      SparseQuotientCong(p, f, g, d, c);
      DivideAllCong(p, SparseQuotient(f, d, c), SparseQuotient(g, d, c), pairs[1..]);
    }
  }

  lemma {:induction false} NextDivision(p: nat, f: seq<int>, g: seq<int>, pairs: seq<Sparse>)
    requires p > 0 && |pairs| > 0 && AllPositive(pairs) && |f| >= Degree(pairs) && P.Cong(p, f, g)
    ensures !RunsOff(p, f, pairs[0].degree, pairs[0].c) ==>
      var q := ReducedAll(p, SparseQuotient(f, pairs[0].degree, pairs[0].c));
      && P.Cong(p, DivideAll(q, pairs[1..]), DivideAll(g, pairs))
      && Completes(p, q, pairs[1..]) == Completes(p, g, pairs)
    ensures RunsOff(p, f, pairs[0].degree, pairs[0].c) ==> !Completes(p, g, pairs)
  {
    var d, c := pairs[0].degree, pairs[0].c;
    var q := SparseQuotient(f, d, c);
    P.CongReduced(p, q);
    DivideAllCong(p, ReducedAll(p, q), q, pairs[1..]);
    DivideAllCong(p, f, g, pairs);
    SparseQuotientCong(p, f, g, d, c);
  }

  /** Divides by the last binomial of the list, then by the others in order. */
  method DivideByMultipleHigherDegreeSparsePolys(p: nat, poly: seq<int>, pairs: seq<Sparse>)
    returns (r: Option<seq<int>>)
    requires p > 0 && |pairs| > 0 && AllPositive(pairs) && Degree(pairs) < |poly|
    ensures Degree(Rotated(pairs)) == Degree(pairs)
    ensures r.Some? <==> Completes(p, poly, Rotated(pairs))
    ensures r.Some? ==> r.value == ReducedAll(p, DivideAll(poly, Rotated(pairs)))
  {
    ghost var order := Rotated(pairs);
    TimesAllRotated([], pairs, 0);
    var last, rest := pairs[|pairs| - 1], pairs[..|pairs| - 1];
    assert order[0] == last && order[1..] == rest;
    r := DivideByHigherDegreeTerm(p, poly, last.degree, last.c);
    NextDivision(p, poly, poly, order);
    if r.None? {
      return;
    }
    var result := r.value;
    for i := 0 to |rest|
      invariant |result| > Degree(rest[i..])
      invariant P.Cong(p, DivideAll(result, rest[i..]), DivideAll(poly, order))
      invariant Completes(p, result, rest[i..]) == Completes(p, poly, order)
      invariant Reduced(p, result)
    {
      ghost var left := rest[i..];
      assert left[0] == rest[i] && left[1..] == rest[i + 1..];
      r := DivideByHigherDegreeTerm(p, result, rest[i].degree, rest[i].c);
      NextDivision(p, result, result, left);
      if r.None? {
        return;
      }
      result := r.value;
    }
    assert rest[|rest|..] == [];
    P.CongSameReduced(p, result, DivideAll(poly, order));
    FixedByReduction(p, result);
    r := Some(result);
  }

  lemma {:induction false} FixedByReduction(p: nat, a: seq<int>)
    requires p > 0 && Reduced(p, a)
    ensures ReducedAll(p, a) == a
  {
  }

  /** Dividing the reduced product by the binomials gives back the polynomial. */
  lemma {:induction false} RoundTrip(p: nat, f: seq<int>, g: seq<int>, pairs: seq<Sparse>)
    requires p > 0 && Reduced(p, g) && |pairs| > 0 && AllPositive(pairs)
    requires |f| == |g| + Degree(pairs) && CongAt(p, f, TimesAll(g, pairs))
    ensures Degree(Rotated(pairs)) == Degree(pairs)
    ensures Completes(p, f, Rotated(pairs)) && ReducedAll(p, DivideAll(f, Rotated(pairs))) == g
  {
    var order := Rotated(pairs);
    forall k: nat ensures Red(p, P.At(f, k)) == Red(p, P.At(TimesAll(g, order), k)) {
      TimesAllRotated(g, pairs, k);
      assert Red(p, P.At(f, k)) == Red(p, P.At(TimesAll(g, pairs), k));
    }
    TimesAllRotated(g, pairs, 0);
    DivideUndoesTimes(p, f, g, order);
    ExactCompletes(p, f, order);
    var q := DivideAll(f, order);
    forall k: nat | k < |g| ensures ReducedAll(p, q)[k] == g[k] {
      assert Red(p, P.At(q, k)) == Red(p, P.At(g, k));
    }
  }

  /** Multiplying by a list of binomials and dividing by it again. */
  method TimesAndBack(poly: Polynomial, pairs: seq<Sparse>) returns (r: Option<seq<int>>)
    requires poly.Valid() && poly.p > 1 && |poly.coeffs| > 0 && |pairs| > 0 && AllPositive(pairs)
    ensures r == Some(poly.coeffs)
  {
    var product := MultiplyMonomialWithMultipleSparsePolys(poly, pairs);
    ghost var t := TimesAll(poly.coeffs, pairs);
    forall k: nat ensures Red(poly.p, P.At(product.coeffs, k)) == Red(poly.p, P.At(t, k)) {
      if k < |t| { RedRed(poly.p, t[k]); }
    }
    RoundTrip(poly.p, product.coeffs, poly.coeffs, pairs);
    r := DivideByMultipleHigherDegreeSparsePolys(poly.p, product.coeffs, pairs);
  }

  /** The product of the binomials at a point. */
  method EvaluateMultipleSparsePolys(p: nat, pairs: seq<Sparse>, point: int) returns (acc: int)
    requires p > 1
    ensures acc == Red(p, Vanish(pairs, point))
  {
    acc := 1;
    assert pairs[..0] == [];
    for i := 0 to |pairs|
      invariant acc == Red(p, Vanish(pairs[..i], point))
    {
      var tmp := Red(p, FieldPow(p, point, pairs[i].degree) - pairs[i].c);
      ghost var w := Pow(point, pairs[i].degree);
      RedRed(p, w);
      RedAdd(p, Red(p, w), w, pairs[i].c, pairs[i].c);
      RedRed(p, w - pairs[i].c);
      RedRed(p, Vanish(pairs[..i], point));
      RedMul(p, acc, Vanish(pairs[..i], point), tmp, w - pairs[i].c);
      acc := Red(p, acc * tmp);
      assert pairs[..i + 1] == pairs[..i] + [pairs[i]] && [pairs[i]][1..] == [];
      VanishConcat(pairs[..i], [pairs[i]], point);
    }
    assert pairs[..|pairs|] == pairs;
  }
}
